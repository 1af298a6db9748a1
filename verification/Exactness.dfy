/**
 When a plan that passes the dry run is one that the engine applies.  The dry run reads no text and
 no hash, lets a move go wherever some mover is, and, of a cycle of moves, forgets where the first
 one run went: its path is also a later move's source.  Nor does it know which files are lost: a put
 that would rename one fails, and so does a move to the path of one that is still to move away.
 */
module Exactness {
  import opened Wrappers
  import opened Paths
  import opened Catalog
  import opened MoveGraph
  import opened MoveOrder
  import opened Batch
  import opened Stages
  import opened Preflight

  predicate PutBefore(rest: seq<Operation>, k: nat, key: SourceKey)
    requires k <= |rest|
  {
    exists i :: 0 <= i < k && rest[i].Put? && rest[i].key == key
  }

  /** Move l leaves the path that move j, run before it, goes to. */
  ghost predicate Forgets(plan: Plan, j: nat, l: nat) {
    && j < l < |plan.moves| && plan.moves[j].Move?
    && var id := Identity(plan.w, plan.moves[l].key);
       id in plan.AfterDeletes().rows && plan.AfterDeletes().rows[id].place == At(plan.moves[j].path)
  }

  /** Put k goes where move j went, which move l made the dry run forget, while the entry is still there. */
  ghost predicate BlindPut(plan: Plan, j: nat, l: nat, k: nat) {
    && Forgets(plan, j, l) && k < |plan.rest| && plan.rest[k].Put?
    && plan.rest[k].path == plan.moves[j].path && plan.rest[k].key != plan.moves[j].key
    && !PutBefore(plan.rest, k, plan.moves[j].key)
  }

  /** What the dry run does not look at. */
  ghost predicate Screened(plan: Plan) {
    && (forall op :: op in plan.rest && op.Put? ==> '\0' !in op.text)
    && (forall m :: m in plan.moves && m.Move? ==> HashAsExpected(plan, m))
    && DestinationsFree(plan.AfterDeletes().rows, plan.w, plan.moves)
    && forall j, l, k :: !BlindPut(plan, j, l, k)
  }

  ghost predicate HashAsExpected(plan: Plan, m: Operation)
    requires m.Move?
  {
    var id := Identity(plan.w, m.key);
    id in plan.AfterDeletes().rows ==> plan.AfterDeletes().rows[id].hash == m.expected
  }

  // ----- an acceptable plan passes all of it

  lemma AcceptableIsScreened(plan: Plan)
    requires plan.WellFormed() && plan.Acceptable()
    ensures Screened(plan)
  {
    hide AllOk, After;
    var rows := plan.AfterDeletes().rows;
    forall op | op in plan.rest && op.Put? ensures '\0' !in op.text {
      var k :| 0 <= k < |plan.rest| && plan.rest[k] == op;
      TextIsClean(plan, k);
    }
    forall m | m in plan.moves ensures Identity(plan.w, m.key) in rows && HashAsExpected(plan, m) {
      assert LocallyOk(plan.grants, plan.AfterDeletes(), plan.w, m);
    }
    DeletesKeepUnique(plan);
    MovesKeepPathsUniqueIff(plan.AfterDeletes(), plan.w, plan.moves);
    forall j, l, k ensures !BlindPut(plan, j, l, k) {
      AcceptableMakesNoBlindPut(plan, j, l, k);
    }
  }

  lemma TextIsClean(plan: Plan, k: nat)
    requires plan.Acceptable() && k < |plan.rest| && plan.rest[k].Put?
    ensures '\0' !in plan.rest[k].text
  {
    assert OkAt(plan.grants, plan.AfterMoves(), plan.w, plan.rest, k);
  }

  lemma DeletesKeepUnique(plan: Plan)
    requires plan.WellFormed()
    ensures UniquePlaces(plan.AfterDeletes().rows)
  {
    var after := plan.AfterDeletes().rows;
    forall a, b | a in after && b in after && after[a].place == after[b].place ensures a == b {
      DeletesEffect(plan.Start(), plan.w, plan.deletes, a);
      DeletesEffect(plan.Start(), plan.w, plan.deletes, b);
      assert Lookup(after, a).Some? && Lookup(after, b).Some?;
    }
  }

  lemma NoPutBefore(rest: seq<Operation>, k: nat, key: SourceKey)
    requires k <= |rest| && !PutBefore(rest, k, key)
    ensures LastPut(rest[..k], key) == None
  {
  }

  /** A moved entry that no put has touched since is where its move took it. */
  lemma MovedStays(plan: Plan, j: nat, k: nat)
    requires plan.WellFormed() && j < |plan.moves| && plan.moves[j].Move? && k <= |plan.rest|
    requires Identity(plan.w, plan.moves[j].key) in plan.AfterDeletes().rows
    requires !PutBefore(plan.rest, k, plan.moves[j].key)
    ensures var id, now := Identity(plan.w, plan.moves[j].key), After(plan.AfterMoves(), plan.w, plan.rest[..k]).rows;
      id in now && now[id].place == At(plan.moves[j].path)
  {
    var id := Identity(plan.w, plan.moves[j].key);
    NoPutBefore(plan.rest, k, plan.moves[j].key);
    assert plan.moves[j] in plan.moves;
    MovesEffect(plan.AfterDeletes(), plan.w, plan.moves, id);
    forall op | op in plan.rest[..k] ensures op in plan.rest {}
    RestEffect(plan.AfterMoves(), plan.w, plan.rest[..k], id);
    assert Lookup(plan.AfterMoves().rows, id).Some?;
  }

  lemma BlindPutCollides(plan: Plan, j: nat, l: nat, k: nat)
    requires plan.WellFormed() && BlindPut(plan, j, l, k)
    requires Identity(plan.w, plan.moves[j].key) in plan.AfterDeletes().rows
    ensures !UniquePlaces(After(plan.AfterMoves(), plan.w, plan.rest[..k + 1]).rows)
  {
    MovedStays(plan, j, k);
    assert plan.rest[..k + 1] == plan.rest[..k] + [plan.rest[k]];
    AfterOne(plan.AfterMoves(), plan.w, plan.rest[..k], plan.rest[k]);
    var now, mover := After(plan.AfterMoves(), plan.w, plan.rest[..k + 1]).rows, Identity(plan.w, plan.moves[j].key);
    assert now[mover].place == now[Identity(plan.w, plan.rest[k].key)].place;
  }

  lemma AcceptableMakesNoBlindPut(plan: Plan, j: nat, l: nat, k: nat)
    requires plan.WellFormed() && plan.Acceptable()
    ensures !BlindPut(plan, j, l, k)
  {
    if BlindPut(plan, j, l, k) {
      assert OkAt(plan.grants, plan.AfterMoves(), plan.w, plan.rest, k);
      assert plan.moves[j] in plan.moves;
      assert LocallyOk(plan.grants, plan.AfterDeletes(), plan.w, plan.moves[j]);
      BlindPutCollides(plan, j, l, k);
    }
  }

  // ----- a plan that passes all of it is acceptable

  /** The dry run has lost sight of the entry at step i. */
  ghost predicate Unseen(plan: Plan, i: nat, id: Identity) {
    exists j, l :: UnseenBy(plan, i, id, j, l)
  }

  ghost predicate UnseenBy(plan: Plan, i: nat, id: Identity, j: nat, l: nat) {
    && Forgets(plan, j, l) && |plan.deletes| + l < i <= |plan.Ordered()| && id == Identity(plan.w, plan.moves[j].key)
    && (i >= |plan.deletes| + |plan.moves| ==>
          !PutBefore(plan.rest, i - |plan.deletes| - |plan.moves|, plan.moves[j].key))
  }

  ghost predicate AllSeen(plan: Plan, i: nat, sim: Simulated) {
    forall id :: id in sim.paths && sim.paths[id] !in sim.sources ==> Unseen(plan, i, id)
  }

  ghost predicate MovesKnown(plan: Plan, i: nat) {
    forall q :: 0 <= q < |plan.moves| && |plan.deletes| + q < i ==>
      Identity(plan.w, plan.moves[q].key) in plan.AfterDeletes().rows
  }

  /** The simulation has followed the plan to step i. */
  ghost predicate Following(plan: Plan, i: nat, sim: Simulated)
    requires i <= |plan.Ordered()|
  {
    && Tracks(sim.paths, plan.Prefix(i).rows) && OccupantsHold(sim.sources, sim.paths) && AllSeen(plan, i, sim)
    && MovesKnown(plan, i)
    && (i <= |plan.deletes| || i >= |plan.deletes| + |plan.moves| ==> UniquePlaces(plan.Prefix(i).rows))
  }

  /** What acceptability asks of the operation at i. */
  ghost predicate StepFine(plan: Plan, i: nat)
    requires i < |plan.Ordered()|
  {
    var op := plan.Ordered()[i];
    if op.Move? then LocallyOk(plan.grants, plan.AfterDeletes(), plan.w, op)
    else LocallyOk(plan.grants, plan.Prefix(i), plan.w, op) && UniquePlaces(plan.Prefix(i + 1).rows)
  }

  ghost function DryNext(plan: Plan, i: nat, sim: Simulated): Option<Simulated>
    requires i < |plan.Ordered()|
  {
    DryStep(plan.grants, plan.w, plan.Ordered()[i], MovingOf(plan), sim)
  }

  lemma DeleteFollows(plan: Plan, i: nat, sim: Simulated)
    requires plan.WellFormed() && i < |plan.deletes| && Following(plan, i, sim) && DryNext(plan, i, sim).Some?
    ensures StepFine(plan, i) && Following(plan, i + 1, DryNext(plan, i, sim).value)
  {
    plan.StageOf(i);
    plan.PrefixStep(i);
    hide Plan.Prefix;
    DryStepTracks(plan.grants, plan.Prefix(i), plan.w, plan.Ordered()[i], MovingOf(plan), sim);
    assert forall id :: !Unseen(plan, i, id);
  }

  /** An entry whose path a move leaves behind is one an earlier move took there. */
  lemma LeftBehindIsForgotten(plan: Plan, q: nat, other: Identity)
    requires plan.WellFormed() && q < |plan.moves| && UniquePlaces(plan.AfterDeletes().rows)
    requires var id, now := Identity(plan.w, plan.moves[q].key), After(plan.AfterDeletes(), plan.w, plan.moves[..q]).rows;
      && id in plan.AfterDeletes().rows && other != id && other in now
      && now[other].place == plan.AfterDeletes().rows[id].place
    ensures Unseen(plan, |plan.deletes| + q + 1, other)
  {
    var start := plan.AfterDeletes();
    forall m | m in plan.moves[..q] ensures m in plan.moves {}
    MovesEffect(start, plan.w, plan.moves[..q], other);
    if m :| m in plan.moves[..q] && Identity(plan.w, m.key) == other {
      var j :| 0 <= j < q && plan.moves[..q][j] == m;
      assert plan.moves[..q][j] == plan.moves[j] && plan.moves[j] in plan.moves[..q];
      assert UnseenBy(plan, |plan.deletes| + q + 1, other, j, q);
    }
  }

  lemma UnseenWhileMoving(plan: Plan, i: nat, id: Identity)
    requires Unseen(plan, i, id) && i < |plan.deletes| + |plan.moves|
    ensures Unseen(plan, i + 1, id)
  {
    var j, l :| UnseenBy(plan, i, id, j, l);
    assert UnseenBy(plan, i + 1, id, j, l);
  }

  lemma MovesStayUnique(plan: Plan)
    requires plan.WellFormed() && MovesKnown(plan, |plan.deletes| + |plan.moves|)
    requires DestinationsFree(plan.AfterDeletes().rows, plan.w, plan.moves)
    ensures UniquePlaces(plan.AfterMoves().rows)
  {
    DeletesKeepUnique(plan);
    MovesKeepPathsUniqueIff(plan.AfterDeletes(), plan.w, plan.moves);
  }

  lemma MoveIsFine(plan: Plan, i: nat, sim: Simulated)
    requires plan.WellFormed() && |plan.deletes| <= i < |plan.deletes| + |plan.moves| && Screened(plan)
    requires Following(plan, i, sim) && DryNext(plan, i, sim).Some?
    ensures var op, rows := plan.Ordered()[i], plan.AfterDeletes().rows;
      && var id := Identity(plan.w, op.key);
      && op == plan.moves[i - |plan.deletes|] && op.Move? && StepFine(plan, i) && MovesKnown(plan, i + 1)
      && id in rows && id in sim.paths && rows[id].place == At(sim.paths[id])
  {
    hide Plan.Prefix, Plan.AfterDeletes, DestinationsFree, UniquePlaces;
    var op := plan.Ordered()[i];
    plan.StageOf(i);
    plan.MoveFindsRow(i, Identity(plan.w, op.key));
    assert HashAsExpected(plan, op);
  }

  /** A move takes only the path it leaves out of sight. */
  lemma MoveDrops(grants: set<Grant>, w: Writer, op: Operation, moving: set<Identity>, sim: Simulated, other: Identity)
    requires op.Move? && DryStep(grants, w, op, moving, sim).Some?
    ensures var id, next := Identity(w, op.key), DryStep(grants, w, op, moving, sim).value;
      && next.paths.Keys == sim.paths.Keys
      && (other in next.paths && next.paths[other] !in next.sources && sim.paths[other] in sim.sources ==>
            other != id && sim.paths[other] == sim.paths[id])
  {
  }

  lemma MoveKeepsSight(plan: Plan, i: nat, sim: Simulated)
    requires plan.WellFormed() && |plan.deletes| <= i < |plan.deletes| + |plan.moves|
    requires Tracks(sim.paths, plan.Prefix(i).rows) && AllSeen(plan, i, sim) && DryNext(plan, i, sim).Some?
    requires var id, rows := Identity(plan.w, plan.Ordered()[i].key), plan.AfterDeletes().rows;
      id in rows && id in sim.paths && rows[id].place == At(sim.paths[id])
    ensures AllSeen(plan, i + 1, DryNext(plan, i, sim).value)
  {
    hide Plan.Prefix, Plan.AfterDeletes, UniquePlaces, Unseen, DryStep;
    plan.StageOf(i);
    plan.PrefixByStage(i);
    DeletesKeepUnique(plan);
    var next, q := DryNext(plan, i, sim).value, i - |plan.deletes|;
    forall other | other in next.paths && next.paths[other] !in next.sources ensures Unseen(plan, i + 1, other) {
      MoveDrops(plan.grants, plan.w, plan.moves[q], MovingOf(plan), sim, other);
      if sim.paths[other] !in sim.sources {
        UnseenWhileMoving(plan, i, other);
      } else {
        LeftBehindIsForgotten(plan, q, other);
      }
    }
  }

  lemma MoveFollows(plan: Plan, i: nat, sim: Simulated)
    requires plan.WellFormed() && |plan.deletes| <= i < |plan.deletes| + |plan.moves| && Screened(plan)
    requires Following(plan, i, sim) && DryNext(plan, i, sim).Some?
    ensures StepFine(plan, i) && Following(plan, i + 1, DryNext(plan, i, sim).value)
  {
    hide Plan.Prefix, StepFine, DryStep, AllSeen, UniquePlaces, Screened, DestinationsFree, After, MovesKnown;
    plan.PrefixStep(i);
    MoveIsFine(plan, i, sim);
    DryStepTracks(plan.grants, plan.Prefix(i), plan.w, plan.Ordered()[i], MovingOf(plan), sim);
    MoveKeepsSight(plan, i, sim);
    if i + 1 == |plan.deletes| + |plan.moves| {
      MovesEndUnique(plan);
    }
  }

  lemma MovesEndUnique(plan: Plan)
    requires plan.WellFormed() && Screened(plan) && MovesKnown(plan, |plan.deletes| + |plan.moves|)
    ensures UniquePlaces(plan.Prefix(|plan.deletes| + |plan.moves|).rows)
  {
    hide UniquePlaces, DestinationsFree;
    plan.PrefixByStage(|plan.deletes| + |plan.moves|);
    assert plan.moves[..|plan.moves|] == plan.moves;
    MovesStayUnique(plan);
  }

  lemma UnseenUntilPut(plan: Plan, i: nat, id: Identity)
    requires Unseen(plan, i, id) && |plan.deletes| + |plan.moves| <= i < |plan.Ordered()|
    requires plan.Ordered()[i].Put? ==> Identity(plan.w, plan.Ordered()[i].key) != id
    ensures Unseen(plan, i + 1, id)
  {
    var j, l :| UnseenBy(plan, i, id, j, l);
    assert UnseenBy(plan, i + 1, id, j, l);
  }

  /** A path whose occupant the dry run does not see cannot be put to: that would be a blind put. */
  lemma NobodyUnseenAt(plan: Plan, i: nat, other: Identity)
    requires plan.WellFormed() && Screened(plan) && |plan.deletes| + |plan.moves| <= i < |plan.Ordered()|
    requires MovesKnown(plan, i) && Unseen(plan, i, other) && plan.Ordered()[i].Put?
    requires other in plan.Prefix(i).rows && plan.Prefix(i).rows[other].place == At(plan.Ordered()[i].path)
    ensures other == Identity(plan.w, plan.Ordered()[i].key)
  {
    var k := i - |plan.deletes| - |plan.moves|;
    var j, l :| UnseenBy(plan, i, other, j, l);
    plan.StageOf(i);
    plan.PrefixByStage(i);
    MovedStays(plan, j, k);
    assert !BlindPut(plan, j, l, k);
  }

  /** The path of an operation that passes is free, or the entry's own. */
  lemma RestFindsPathFree(plan: Plan, i: nat, sim: Simulated, other: Identity)
    requires plan.WellFormed() && |plan.deletes| + |plan.moves| <= i < |plan.Ordered()| && Screened(plan)
    requires Following(plan, i, sim) && DryNext(plan, i, sim).Some? && plan.Ordered()[i].Put?
    requires other in plan.Prefix(i).rows && plan.Prefix(i).rows[other].place == At(plan.Ordered()[i].path)
    ensures other == Identity(plan.w, plan.Ordered()[i].key)
  {
    hide Plan.Prefix, Screened, Unseen;
    var path := plan.Ordered()[i].path;
    assert sim.paths[other] == path;
    if path !in sim.sources {
      NobodyUnseenAt(plan, i, other);
    }
  }

  lemma TextPassed(plan: Plan, op: Operation)
    requires Screened(plan) && op in plan.rest && op.Put?
    ensures '\0' !in op.text
  {
  }

  lemma PutKeepsUnique(rows: Rows, id: Identity, row: Row)
    requires UniquePlaces(rows) && forall other :: other in rows && rows[other].place == row.place ==> other == id
    ensures UniquePlaces(rows[id := row])
  {
  }

  lemma RestIsFine(plan: Plan, i: nat, sim: Simulated)
    requires plan.WellFormed() && |plan.deletes| + |plan.moves| <= i < |plan.Ordered()| && Screened(plan)
    requires Following(plan, i, sim) && DryNext(plan, i, sim).Some?
    ensures StepFine(plan, i)
  {
    hide Plan.Prefix, Screened, AllSeen, Unseen, MovesKnown, UniquePlaces, Tracks, OccupantsHold;
    plan.StageOf(i);
    plan.PrefixStep(i);
    var op, rows := plan.Ordered()[i], plan.Prefix(i).rows;
    assert op in plan.rest;
    if op.Put? {
      forall other | other in rows && rows[other].place == At(op.path) ensures other == Identity(plan.w, op.key) {
        RestFindsPathFree(plan, i, sim, other);
      }
      TextPassed(plan, op);
      PutKeepsUnique(rows, Identity(plan.w, op.key), PutRow(op));
    }
  }

  lemma RestKeepsSight(plan: Plan, i: nat, sim: Simulated)
    requires plan.WellFormed() && |plan.deletes| + |plan.moves| <= i < |plan.Ordered()|
    requires Tracks(sim.paths, plan.Prefix(i).rows) && UniquePlaces(plan.Prefix(i).rows) && AllSeen(plan, i, sim)
    requires DryNext(plan, i, sim).Some?
    ensures AllSeen(plan, i + 1, DryNext(plan, i, sim).value)
  {
    plan.StageOf(i);
    hide Plan.Prefix, Unseen;
    var next := DryNext(plan, i, sim).value;
    forall other | other in next.paths && next.paths[other] !in next.sources ensures Unseen(plan, i + 1, other) {
      UnseenUntilPut(plan, i, other);
    }
  }

  lemma RestFollows(plan: Plan, i: nat, sim: Simulated)
    requires plan.WellFormed() && |plan.deletes| + |plan.moves| <= i < |plan.Ordered()| && Screened(plan)
    requires Following(plan, i, sim) && DryNext(plan, i, sim).Some?
    ensures StepFine(plan, i) && Following(plan, i + 1, DryNext(plan, i, sim).value)
  {
    plan.StageOf(i);
    plan.PrefixStep(i);
    RestIsFine(plan, i, sim);
    RestKeepsSight(plan, i, sim);
    hide Plan.Prefix, DryStep, AllSeen, UniquePlaces, Screened;
    DryStepTracks(plan.grants, plan.Prefix(i), plan.w, plan.Ordered()[i], MovingOf(plan), sim);
  }

  lemma {:induction false} PassingSteps(plan: Plan, i: nat, sim: Simulated)
    requires plan.WellFormed() && Screened(plan) && i <= |plan.Ordered()| && Following(plan, i, sim)
    requires DryRun(plan.grants, plan.w, plan.Ordered()[i..], MovingOf(plan), sim)
    ensures forall j :: i <= j < |plan.Ordered()| ==> StepFine(plan, j)
    decreases |plan.Ordered()| - i
  {
    hide Screened, Following, StepFine, DryStep;
    var ordered := plan.Ordered();
    if i < |ordered| {
      assert ordered[i..][0] == ordered[i] && ordered[i..][1..] == ordered[i + 1..];
      assert DryNext(plan, i, sim).Some?;
      if i < |plan.deletes| {
        DeleteFollows(plan, i, sim);
      } else if i < |plan.deletes| + |plan.moves| {
        MoveFollows(plan, i, sim);
      } else {
        RestFollows(plan, i, sim);
      }
      PassingSteps(plan, i + 1, DryNext(plan, i, sim).value);
    }
  }

  lemma FineStepsMakeAcceptable(plan: Plan)
    requires plan.WellFormed() && DestinationsFree(plan.AfterDeletes().rows, plan.w, plan.moves)
    requires forall i :: 0 <= i < |plan.Ordered()| ==> StepFine(plan, i)
    ensures plan.Acceptable()
  {
    hide LocallyOk, UniquePlaces, After, DestinationsFree;
    var n, ordered := |plan.deletes|, plan.Ordered();
    var late := n + |plan.moves|;
    forall i | 0 <= i < n ensures OkAt(plan.grants, plan.Start(), plan.w, plan.deletes, i) {
      plan.StageOf(i);
      plan.PrefixByStage(i);
      plan.PrefixByStage(i + 1);
      assert StepFine(plan, i);
    }
    forall q | 0 <= q < |plan.moves| ensures LocallyOk(plan.grants, plan.AfterDeletes(), plan.w, plan.moves[q]) {
      plan.StageOf(n + q);
      assert StepFine(plan, n + q);
      assert ordered[n + q] == plan.moves[q];
    }
    LocallyOkIsKnown(plan);
    MovesStayUnique(plan);
    forall k | 0 <= k < |plan.rest| ensures OkAt(plan.grants, plan.AfterMoves(), plan.w, plan.rest, k) {
      plan.StageOf(late + k);
      plan.PrefixByStage(late + k);
      plan.PrefixByStage(late + k + 1);
      assert StepFine(plan, late + k);
    }
  }

  lemma LocallyOkIsKnown(plan: Plan)
    requires plan.WellFormed()
    requires forall q :: 0 <= q < |plan.moves| ==> LocallyOk(plan.grants, plan.AfterDeletes(), plan.w, plan.moves[q])
    ensures MovesKnown(plan, |plan.deletes| + |plan.moves|)
  {
    forall q | 0 <= q < |plan.moves| ensures Identity(plan.w, plan.moves[q].key) in plan.AfterDeletes().rows {
      assert plan.moves[q] in plan.moves;
    }
  }

  lemma FollowingFromTheStart(plan: Plan, sim: Simulated)
    requires plan.WellFormed() && Mapped(sim, plan.rows)
    ensures Following(plan, 0, sim) && plan.Ordered()[0..] == plan.Ordered()
  {
    assert plan.Prefix(0) == plan.Start();
  }

  /**
   The plans whose every check holds are exactly those that pass the dry run, expect the right
   hashes, put no NUL, move to paths that are distinct and free or vacated, and make no blind put.
   */
  lemma AcceptableIff(plan: Plan)
    requires plan.WellFormed() && AllPlaced(plan.rows)
    ensures plan.Acceptable() <==> Passes(plan) && Screened(plan)
  {
    hide Screened, Plan.Acceptable, DryRun, StepFine;
    if plan.Acceptable() {
      AcceptableIsScreened(plan);
      forall sim | Mapped(sim, plan.rows) ensures DryRun(plan.grants, plan.w, plan.Ordered(), MovingOf(plan), sim) {
        FollowingFromTheStart(plan, sim);
        AcceptableRuns(plan, 0, sim);
      }
    }
    if Passes(plan) && Screened(plan) {
      var sim := MapsExist(plan.rows);
      FollowingFromTheStart(plan, sim);
      PassingSteps(plan, 0, sim);
      ScreenedDestinations(plan);
      FineStepsMakeAcceptable(plan);
    }
  }

  lemma ScreenedDestinations(plan: Plan)
    requires Screened(plan)
    ensures DestinationsFree(plan.AfterDeletes().rows, plan.w, plan.moves)
  {
  }

  // ----- lost files

  /** Once the moves have run the entry has no file: it was lost before, or a self-move loses it. */
  ghost predicate Fileless(plan: Plan, key: SourceKey) {
    var v, id := plan.AfterDeletes(), Identity(plan.w, key);
    id in v.rows && (id in v.lost || exists m :: m in plan.moves && m.key == key && SelfMove(v.rows, plan.w, m))
  }

  /** Put k and every earlier put of its key carry the content on record. */
  ghost predicate CarriesRecorded(plan: Plan, k: nat)
    requires k < |plan.rest| && Identity(plan.w, plan.rest[k].key) in plan.AfterDeletes().rows
  {
    forall i :: 0 <= i <= k && plan.rest[i].Put? && plan.rest[i].key == plan.rest[k].key ==>
      PutHash(plan.rest[i]) == plan.AfterDeletes().rows[Identity(plan.w, plan.rest[k].key)].hash
  }

  /** Where the entry of put k is by then: where an earlier put left it, or else its move, or else as before. */
  ghost function Whereabouts(plan: Plan, k: nat): Place
    requires k < |plan.rest| && Identity(plan.w, plan.rest[k].key) in plan.AfterDeletes().rows
  {
    var key := plan.rest[k].key;
    if LastPut(plan.rest[..k], key).Some? then At(LastPut(plan.rest[..k], key).value.path)
    else if exists m :: m in plan.moves && m.Move? && m.key == key then
      var m :| m in plan.moves && m.Move? && m.key == key;
      At(m.path)
    else plan.AfterDeletes().rows[Identity(plan.w, key)].place
  }

  /** Put k would rename a file that is not there. */
  ghost predicate RenamesNothing(plan: Plan, k: nat) {
    && k < |plan.rest| && plan.rest[k].Put? && Fileless(plan, plan.rest[k].key)
    && CarriesRecorded(plan, k) && Whereabouts(plan, k) != At(plan.rest[k].path)
  }

  ghost predicate RenamesFindFiles(plan: Plan) {
    forall k :: !RenamesNothing(plan, k)
  }

  ghost predicate AllKnownAfterDeletes(plan: Plan) {
    forall m :: m in plan.moves ==> Identity(plan.w, m.key) in plan.AfterDeletes().rows
  }

  /** The entry of put k after the moves and after the puts before it. */
  lemma PutFinds(plan: Plan, k: nat)
    requires plan.WellFormed() && LostAreEntries(plan.AfterDeletes()) && AllKnownAfterDeletes(plan)
    requires k < |plan.rest| && plan.rest[k].Put? && Identity(plan.w, plan.rest[k].key) in plan.AfterDeletes().rows
    ensures var v, id := After(plan.AfterMoves(), plan.w, plan.rest[..k]), Identity(plan.w, plan.rest[k].key);
      && id in v.rows && v.rows[id].place == Whereabouts(plan, k)
      && (id in v.lost && v.rows[id].hash == PutHash(plan.rest[k]) <==>
            Fileless(plan, plan.rest[k].key) && CarriesRecorded(plan, k))
  {
    var v1, v2 := plan.AfterDeletes(), plan.AfterMoves();
    var id, before := Identity(plan.w, plan.rest[k].key), plan.rest[..k];
    forall op | op in before ensures op in plan.rest {}
    MovesLose(v1, plan.w, plan.moves, id);
    MovesEffect(v1, plan.w, plan.moves, id);
    RestLoses(v2, plan.w, before, id);
    RestEffect(v2, plan.w, before, id);
    assert Lookup(v2.rows, id) == Some(v2.rows[id]);
    RecordedBefore(plan, k);
    hide After, UniquePlaces, LastPut, Plan.AfterDeletes, Plan.AfterMoves;
  }

  lemma RecordedBefore(plan: Plan, k: nat)
    requires k < |plan.rest| && plan.rest[k].Put? && Identity(plan.w, plan.rest[k].key) in plan.AfterDeletes().rows
    ensures var hash, key := plan.AfterDeletes().rows[Identity(plan.w, plan.rest[k].key)].hash, plan.rest[k].key;
      CarriesRecorded(plan, k) <==>
        PutHash(plan.rest[k]) == hash && forall p :: p in plan.rest[..k] && p.Put? && p.key == key ==> PutHash(p) == hash
  {
    forall i | 0 <= i < k ensures plan.rest[i] in plan.rest[..k] {
      assert plan.rest[..k][i] == plan.rest[i];
    }
  }

  lemma FindsFileIff(plan: Plan, k: nat)
    requires plan.WellFormed() && LostAreEntries(plan.AfterDeletes()) && AllKnownAfterDeletes(plan) && k < |plan.rest|
    ensures FindsFile(After(plan.AfterMoves(), plan.w, plan.rest[..k]), plan.w, plan.rest[k]) <==> !RenamesNothing(plan, k)
  {
    hide After, UniquePlaces, LastPut, Plan.AfterDeletes, Plan.AfterMoves, CarriesRecorded, Whereabouts, Fileless;
    var id := Identity(plan.w, plan.rest[k].key);
    if plan.rest[k].Put? && id in plan.AfterDeletes().rows {
      PutFinds(plan, k);
    } else if plan.rest[k].Put? {
      UnknownIsNotLost(plan, k);
    }
  }

  lemma UnknownIsNotLost(plan: Plan, k: nat)
    requires plan.WellFormed() && LostAreEntries(plan.AfterDeletes()) && AllKnownAfterDeletes(plan)
    requires k < |plan.rest| && Identity(plan.w, plan.rest[k].key) !in plan.AfterDeletes().rows
    ensures !Fileless(plan, plan.rest[k].key)
    ensures Identity(plan.w, plan.rest[k].key) !in After(plan.AfterMoves(), plan.w, plan.rest[..k]).lost
  {
    var id := Identity(plan.w, plan.rest[k].key);
    forall op | op in plan.rest[..k] ensures op in plan.rest {}
    MovesLose(plan.AfterDeletes(), plan.w, plan.moves, id);
    RestLoses(plan.AfterMoves(), plan.w, plan.rest[..k], id);
  }

  /**
   The engine applies exactly the plans that pass the dry run and what it does not look at, rename
   no file that is lost or that a self-move of the plan loses, and move to no lost entry's path
   before it is vacated.
   */
  lemma AppliedIff(plan: Plan)
    requires plan.WellFormed() && AllPlaced(plan.rows) && LostAreEntries(plan.Start())
    ensures plan.Applicable() <==>
      Passes(plan) && Screened(plan) && RenamesFindFiles(plan) && !MeetsLost(plan.AfterDeletes(), plan.w, plan.moves)
  {
    hide Screened, Passes, Plan.AfterDeletes, After, RenamesNothing, FindsFile, MeetsLost;
    AcceptableIff(plan);
    if plan.Acceptable() {
      AcceptableMovesKnown(plan);
      forall k | 0 <= k < |plan.rest|
        ensures FindsFile(After(plan.AfterMoves(), plan.w, plan.rest[..k]), plan.w, plan.rest[k]) <==> !RenamesNothing(plan, k)
      {
        FindsFileIff(plan, k);
      }
      NoSuchPut(plan);
    }
  }

  lemma NoSuchPut(plan: Plan)
    ensures RenamesFindFiles(plan) <==> forall k :: 0 <= k < |plan.rest| ==> !RenamesNothing(plan, k)
  {
  }

  lemma AcceptableMovesKnown(plan: Plan)
    requires plan.WellFormed() && LostAreEntries(plan.Start()) && plan.Acceptable()
    ensures LostAreEntries(plan.AfterDeletes()) && AllKnownAfterDeletes(plan)
  {
    KnownEntriesLost(plan.Start(), plan.w, plan.deletes);
    forall m | m in plan.moves ensures Identity(plan.w, m.key) in plan.AfterDeletes().rows {
      assert LocallyOk(plan.grants, plan.AfterDeletes(), plan.w, m);
    }
  }

  /**
   A plan without moves, whose texts hold no NUL, is applied exactly if it passes and renames no
   lost file; while no file is lost, exactly if it passes.
   */
  lemma ExactWithoutMoves(plan: Plan)
    requires plan.WellFormed() && AllPlaced(plan.rows) && LostAreEntries(plan.Start()) && plan.moves == []
    requires forall op :: op in plan.rest && op.Put? ==> '\0' !in op.text
    ensures plan.Applicable() <==> Passes(plan) && RenamesFindFiles(plan)
    ensures plan.lost == {} ==> (plan.Applicable() <==> Passes(plan))
  {
    hide Passes, Plan.Applicable, CarriesRecorded, Whereabouts;
    AppliedIff(plan);
    assert forall j, l, k :: !BlindPut(plan, j, l, k);
    assert forall j, l :: !MeetsLostAt(plan.AfterDeletes(), plan.w, plan.moves, j, l);
    DeletesEffect(plan.Start(), plan.w, plan.deletes, Identity(plan.w, SourceKey("", "")));
  }

  // ----- which moves are forgotten

  /** In a batch run in order, the moves forgotten are those that run first of their cycle. */
  lemma ForgottenRunFirst(plan: Plan, dest: map<Path, Path>, j: nat)
    requires var rows := plan.AfterDeletes().rows;
      && UniquePlaces(rows) && AllMoves(plan.moves) && DistinctKeys(plan.moves) && AllKnown(rows, plan.w, plan.moves)
      && IsDestinations(dest, rows, plan.w, plan.moves) && DependencyOrdered(Sources(rows, plan.w, plan.moves), dest)
    requires j < |plan.moves| && plan.moves[j] in plan.moves
    requires plan.moves[j].path != SourcePath(plan.AfterDeletes().rows, plan.w, plan.moves[j])
    ensures (exists l: nat :: Forgets(plan, j, l)) <==> ClosesCycle(Sources(plan.AfterDeletes().rows, plan.w, plan.moves), dest, j)
  {
    hide DependencyOrdered, ClosesCycle, UniquePlaces, Plan.AfterDeletes;
    var rows := plan.AfterDeletes().rows;
    var s := Sources(rows, plan.w, plan.moves);
    AllSourcesDistinct(rows, plan.w, plan.moves);
    forall k | k in s ensures k in dest {
      var i :| 0 <= i < |s| && s[i] == k;
      assert plan.moves[i] in plan.moves;
    }
    LaterSuccessorIff(s, dest, j);
    forall l: nat ensures Forgets(plan, j, l) <==> j < l < |s| && s[l] == dest[s[j]] {
      if l < |s| {
        assert plan.moves[l] in plan.moves && rows[Identity(plan.w, plan.moves[l].key)].place == At(s[l]);
      }
    }
  }

  /** The path is that of a lost entry. */
  ghost predicate LostAt(v: View, p: Path) {
    exists id :: id in v.lost && id in v.rows && v.rows[id].place == At(p)
  }

  /** A move meets a lost entry exactly if it runs first of its cycle and goes to that entry's path. */
  lemma MeetsLostRunsFirst(plan: Plan, dest: map<Path, Path>, j: nat)
    requires var rows := plan.AfterDeletes().rows;
      && UniquePlaces(rows) && AllMoves(plan.moves) && DistinctKeys(plan.moves) && AllKnown(rows, plan.w, plan.moves)
      && IsDestinations(dest, rows, plan.w, plan.moves) && DependencyOrdered(Sources(rows, plan.w, plan.moves), dest)
    requires j < |plan.moves| && plan.moves[j] in plan.moves
    requires plan.moves[j].path != SourcePath(plan.AfterDeletes().rows, plan.w, plan.moves[j])
    ensures (exists l: nat :: MeetsLostAt(plan.AfterDeletes(), plan.w, plan.moves, j, l)) <==>
      && ClosesCycle(Sources(plan.AfterDeletes().rows, plan.w, plan.moves), dest, j)
      && LostAt(plan.AfterDeletes(), plan.moves[j].path)
  {
    hide DependencyOrdered, ClosesCycle, Plan.AfterDeletes, IsDestinations;
    ForgottenRunFirst(plan, dest, j);
    assert forall l: nat :: MeetsLostAt(plan.AfterDeletes(), plan.w, plan.moves, j, l) ==> Forgets(plan, j, l);
    if l: nat :| Forgets(plan, j, l) {
      assert LostAt(plan.AfterDeletes(), plan.moves[j].path) ==>
        MeetsLostAt(plan.AfterDeletes(), plan.w, plan.moves, j, l);
    }
  }

  // ----- passing plans that the engine refuses

  /** Two entries swap their paths, and a third is put where the first one went: the dry run passes. */
  lemma SwapThenPutPasses(plan: Plan, a: Operation, b: Operation, put: Operation)
    requires plan.WellFormed() && AllPlaced(plan.rows) && plan.deletes == [] && plan.moves == [a, b] && plan.rest == [put]
    requires a.Move? && b.Move? && put.Put? && put.path == a.path && put.key !in {a.key, b.key} && a.path != b.path
    requires LocallyOk(plan.grants, plan.Start(), plan.w, a) && LocallyOk(plan.grants, plan.Start(), plan.w, b)
    requires plan.rows[Identity(plan.w, a.key)].place == At(b.path) && plan.rows[Identity(plan.w, b.key)].place == At(a.path)
    requires LocallyOk(plan.grants, plan.Start(), plan.w, put)
    ensures Passes(plan) && !plan.Acceptable()
  {
    assert a.key != b.key && plan.moves[0] == a && plan.moves[1] == b && plan.rest[0] == put;
    assert BlindPut(plan, 0, 1, 0);
    AcceptableIff(plan);
    hide Plan.Acceptable, DryRun, Screened;
    forall sim | Mapped(sim, plan.rows) ensures DryRun(plan.grants, plan.w, plan.Ordered(), MovingOf(plan), sim) {
      assert plan.Ordered() == [a, b, put] && a in plan.moves && b in plan.moves;
      SwapThenPutRuns(plan.grants, plan.Start(), plan.w, a, b, put, MovingOf(plan), sim);
    }
  }

  lemma SwapThenPutRuns(
    grants: set<Grant>, v: View, w: Writer, a: Operation, b: Operation, put: Operation, moving: set<Identity>, sim: Simulated)
    requires Mapped(sim, v.rows) && UniquePlaces(v.rows) && a.Move? && b.Move? && put.Put?
    requires put.path == a.path && a.key != b.key && a.path != b.path
    requires LocallyOk(grants, v, w, a) && LocallyOk(grants, v, w, b) && LocallyOk(grants, v, w, put)
    requires v.rows[Identity(w, a.key)].place == At(b.path) && v.rows[Identity(w, b.key)].place == At(a.path)
    requires Identity(w, a.key) in moving && Identity(w, b.key) in moving
    ensures DryRun(grants, w, [a, b, put], moving, sim)
  {
    var first := DryStep(grants, w, a, moving, sim);
    var second := DryStep(grants, w, b, moving, first.value);
    assert second.Some? && a.path !in second.value.sources;
    var third := DryStep(grants, w, put, moving, second.value);
    assert [a, b, put] == [a] + [b, put] && [b, put] == [b] + [put] && [put] == [put] + [];
    hide DryStep;
    RunsOneMore(grants, w, put, [], moving, second.value);
    RunsOneMore(grants, w, b, [put], moving, first.value);
    RunsOneMore(grants, w, a, [b, put], moving, sim);
  }

  lemma RunsOneMore(grants: set<Grant>, w: Writer, op: Operation, rest: seq<Operation>, moving: set<Identity>, sim: Simulated)
    requires var next := DryStep(grants, w, op, moving, sim); next.Some? && DryRun(grants, w, rest, moving, next.value)
    ensures DryRun(grants, w, [op] + rest, moving, sim)
  {
    assert ([op] + rest)[1..] == rest;
  }

  lemma WrongHashIsScreened(plan: Plan, m: Operation, hash: Hash)
    requires plan.deletes == [] && m in plan.moves && m.Move? && m.expected != hash
    requires LocallyOk(plan.grants, plan.Start(), plan.w, m.(expected := hash))
    ensures !Screened(plan)
  {
    assert !HashAsExpected(plan, m);
  }

  lemma MovePasses(plan: Plan, m: Operation, hash: Hash, sim: Simulated)
    requires Mapped(sim, plan.rows) && m.Move? && LocallyOk(plan.grants, plan.Start(), plan.w, m.(expected := hash))
    requires forall id :: id in plan.rows && plan.rows[id].place == At(m.path) ==> id == Identity(plan.w, m.key)
    ensures DryStep(plan.grants, plan.w, m, MovingOf(plan), sim).Some?
  {
  }

  /** A move that expects another hash than the entry's passes the dry run. */
  lemma WrongHashPasses(plan: Plan, m: Operation, hash: Hash)
    requires plan.WellFormed() && AllPlaced(plan.rows) && plan.deletes == [] && plan.moves == [m] && plan.rest == []
    requires m.Move? && m.expected != hash && LocallyOk(plan.grants, plan.Start(), plan.w, m.(expected := hash))
    requires forall id :: id in plan.rows && plan.rows[id].place == At(m.path) ==> id == Identity(plan.w, m.key)
    ensures Passes(plan) && !plan.Acceptable()
  {
    hide Plan.Acceptable, DryRun, Screened, DryStep, LocallyOk, Mapped, UniquePlaces;
    assert m in plan.moves;
    WrongHashIsScreened(plan, m, hash);
    AcceptableIff(plan);
    forall sim | Mapped(sim, plan.rows) ensures DryRun(plan.grants, plan.w, plan.Ordered(), MovingOf(plan), sim) {
      assert plan.Ordered() == [m] + [];
      MovePasses(plan, m, hash, sim);
      RunsOneMore(plan.grants, plan.w, m, [], MovingOf(plan), sim);
    }
  }

  /**
   An entry is moved onto its own path, and its recorded content put to a free path: every check
   holds and the dry run passes, but the file that the put would rename has been parked.
   */
  lemma SelfMoveThenPutPasses(plan: Plan, m: Operation, put: Operation)
    requires plan.WellFormed() && AllPlaced(plan.rows) && LostAreEntries(plan.Start())
    requires plan.deletes == [] && plan.moves == [m] && plan.rest == [put] && m.Move? && put.Put? && put.key == m.key
    requires LocallyOk(plan.grants, plan.Start(), plan.w, m) && SelfMove(plan.rows, plan.w, m)
    requires LocallyOk(plan.grants, plan.Start(), plan.w, put) && PutHash(put) == m.expected
    requires forall id :: id in plan.rows ==> plan.rows[id].place != At(put.path)
    ensures plan.Acceptable() && Passes(plan) && Screened(plan) && !plan.Applicable()
  {
    hide Passes, Screened;
    assert m in plan.moves && plan.moves[0] == m && plan.rest[0] == put && plan.rest[..0] == [];
    assert plan.AfterDeletes() == plan.Start();
    assert Fileless(plan, put.key) && RenamesNothing(plan, 0);
    OneMoveOnePut(plan, m, put);
    AppliedIff(plan);
    AcceptableIff(plan);
  }

  lemma OneMoveOnePut(plan: Plan, m: Operation, put: Operation)
    requires plan.WellFormed() && plan.deletes == [] && plan.moves == [m] && plan.rest == [put]
    requires m.Move? && put.Put? && put.key == m.key
    requires LocallyOk(plan.grants, plan.Start(), plan.w, m) && SelfMove(plan.rows, plan.w, m)
    requires LocallyOk(plan.grants, plan.Start(), plan.w, put)
    requires forall id :: id in plan.rows ==> plan.rows[id].place != At(put.path)
    ensures plan.Acceptable()
  {
    var v := plan.Start();
    OneStep(v, plan.w, m);
    OneStep(Step(v, plan.w, m), plan.w, put);
    assert [put][..1] == [put] && [put][..0] == [];
  }

  lemma OneStep(v: View, w: Writer, op: Operation)
    ensures After(v, w, [op]) == Step(v, w, op) && After(v, w, []) == v
  {
    assert [op][..0] == [];
  }

  /** The recorded content of a lost entry, put to another free path: the dry run passes. */
  lemma LostPutPasses(plan: Plan, put: Operation)
    requires plan.WellFormed() && AllPlaced(plan.rows) && LostAreEntries(plan.Start())
    requires plan.deletes == [] && plan.moves == [] && plan.rest == [put] && put.Put?
    requires LocallyOk(plan.grants, plan.Start(), plan.w, put)
    requires var id := Identity(plan.w, put.key); id in plan.lost && plan.rows[id].hash == PutHash(put)
    requires forall id :: id in plan.rows ==> plan.rows[id].place != At(put.path)
    ensures plan.Acceptable() && Passes(plan) && Screened(plan) && !plan.Applicable()
  {
    hide Passes, Screened;
    assert plan.rest[0] == put && plan.rest[..0] == [];
    assert plan.AfterDeletes() == plan.Start() == plan.AfterMoves();
    assert RenamesNothing(plan, 0);
    OneStep(plan.Start(), plan.w, put);
    assert [put][..1] == [put];
    assert plan.Acceptable();
    AppliedIff(plan);
    AcceptableIff(plan);
  }

  // ----- a swap with a lost entry

  /** Two entries swap their paths, each move as it should be. */
  ghost predicate Swaps(grants: set<Grant>, v: View, w: Writer, a: Operation, b: Operation) {
    && UniquePlaces(v.rows) && a.Move? && b.Move? && a.key != b.key && a.path != b.path
    && LocallyOk(grants, v, w, a) && LocallyOk(grants, v, w, b)
    && v.rows[Identity(w, a.key)].place == At(b.path) && v.rows[Identity(w, b.key)].place == At(a.path)
  }

  /**
   A swap of which the first entry listed is lost fails: the second runs first, and meets the row
   of the first.  Listed the other way round, the same swap is applied.
   */
  lemma SwapWithLostDependsOnOrder(grants: set<Grant>, v: View, w: Writer, a: Operation, b: Operation)
    requires Swaps(grants, v, w, a, b) && Identity(w, a.key) in v.lost && Identity(w, b.key) !in v.lost
    ensures Accepted(grants, v, w, [a, b]) && !Applicable(grants, v, w, [a, b])
    ensures Applicable(grants, v, w, [b, a])
  {
    SwapIsAccepted(grants, v, w, a, b);
    SwapIsAccepted(grants, v, w, b, a);
    SwapRunsBackwards(v.rows, w, a, b);
    SwapRunsBackwards(v.rows, w, b, a);
    hide Accepted, RunOrder, UniquePlaces;
    assert MeetsLostAt(v, w, [b, a], 0, 1);
    assert forall j, l :: MeetsLostAt(v, w, [a, b], j, l) ==> j == 0 && l == 1;
  }

  lemma SwapKinds(a: Operation, b: Operation)
    requires a.Move? && b.Move?
    ensures OfKind([a, b], MoveKind) == [a, b] && OfKind([a, b], DeleteKind) == [] && Rest([a, b]) == []
  {
    assert [a, b][1..] == [b] && [b][1..] == [];
    forall kind ensures OfKind([a, b], kind) == if kind == MoveKind then [a, b] else [] {
      assert OfKind([b], kind) == if kind == MoveKind then [b] else [];
    }
  }

  lemma SwapIsAccepted(grants: set<Grant>, v: View, w: Writer, a: Operation, b: Operation)
    requires Swaps(grants, v, w, a, b)
    ensures Accepted(grants, v, w, [a, b]) && PutsFindFiles(v, w, [a, b]) && After(v, w, OfKind([a, b], DeleteKind)) == v
  {
    SwapKinds(a, b);
    hide OfKind, UniquePlaces;
    var moves := [a, b];
    assert moves[0] == a && moves[1] == b;
    SwapFindsFree(grants, v, w, a, b);
    MovesKeepPathsUniqueIff(v, w, moves);
  }

  lemma SwapFindsFree(grants: set<Grant>, v: View, w: Writer, a: Operation, b: Operation)
    requires Swaps(grants, v, w, a, b)
    ensures DestinationsFree(v.rows, w, [a, b])
  {
    var moves := [a, b];
    assert moves[0] == a && moves[1] == b;
    forall m, id | m in moves && id in v.rows && v.rows[id].place == At(m.path)
      ensures exists n :: n in moves && Identity(w, n.key) == id
    {
      assert a in moves && b in moves;
      assert id == Identity(w, a.key) || id == Identity(w, b.key);
    }
  }

  lemma SwapRunsBackwards(rows: Rows, w: Writer, a: Operation, b: Operation)
    requires UniquePlaces(rows) && a.Move? && b.Move? && a.key != b.key && a.path != b.path
    requires Identity(w, a.key) in rows && rows[Identity(w, a.key)].place == At(b.path)
    requires Identity(w, b.key) in rows && rows[Identity(w, b.key)].place == At(a.path)
    ensures RunOrder(rows, w, [a, b]) == [b, a]
  {
    SwapKinds(a, b);
    var moves := [a, b];
    assert moves[0] == a && moves[1] == b && a in moves && b in moves;
    var g := Dependencies(rows, w, moves);
    assert Vacates(rows, w, b, a) && Vacates(rows, w, a, b);
    assert g[a] == b && g[b] == a;
    VisitsOfSwap(g, Elements(moves), a, b);
  }

  lemma VisitsOfSwap(g: map<Operation, Operation>, nodes: set<Operation>, a: Operation, b: Operation)
    requires a != b && a in g && b in g && g[a] == b && g[b] == a && a in nodes && b in nodes && forall m :: m in g ==> g[m] in nodes
    ensures VisitedAll(g, nodes, [a, b]) == [b, a]
  {
    assert Visited(g, nodes, {} + {a} + {b}, [], a) == [];
    assert Visited(g, nodes, {} + {a}, [], b) == [b];
    assert Visited(g, nodes, {}, [], a) == [b, a];
    assert [a, b][..1] == [a] && [a][..0] == [];
    assert VisitedAll(g, nodes, [a]) == [b, a];
  }
}
