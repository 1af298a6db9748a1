/** Writers' prefixes, and the dry run that rejects a submission before it touches anything. */
module Preflight {
  import opened Wrappers
  import opened Paths
  import opened Catalog
  import opened Stages

  /** Prefixes granted to different writers do not overlap. */
  ghost predicate GrantsApart(grants: set<Grant>) {
    forall a, b :: a in grants && b in grants && a.writer != b.writer ==> !Overlap(a.prefix, b.prefix)
  }

  /** Every entry lies under a prefix of its own writer. */
  ghost predicate EntriesGranted(rows: Rows, grants: set<Grant>) {
    forall id :: id in rows && rows[id].place.At? ==> Authorized(grants, id.writer, rows[id].place.path)
  }

  lemma StepKeepsGranted(grants: set<Grant>, v: View, w: Writer, op: Operation)
    requires EntriesGranted(v.rows, grants) && LocallyOk(grants, v, w, op)
    ensures EntriesGranted(Step(v, w, op).rows, grants)
  {
  }

  lemma BatchKeepsGranted(grants: set<Grant>, v: View, w: Writer, moves: seq<Operation>)
    requires EntriesGranted(v.rows, grants) && BatchOk(grants, v, w, moves) && AllMoves(moves) && DistinctKeys(moves)
    ensures EntriesGranted(After(v, w, moves).rows, grants)
  {
    var after := After(v, w, moves).rows;
    forall id | id in after && after[id].place.At? ensures Authorized(grants, id.writer, after[id].place.path) {
      MovesEffect(v, w, moves, id);
      if m :| m in moves && Identity(w, m.key) == id {
        assert LocallyOk(grants, v, w, m);
      } else {
        assert Lookup(after, id) == Lookup(v.rows, id);
      }
    }
  }

  /** The simulated paths are those of the rows. */
  ghost predicate Tracks(paths: map<Identity, Path>, rows: Rows) {
    paths.Keys == rows.Keys && forall id :: id in paths ==> rows[id].place == At(paths[id])
  }

  /** Every recorded occupant is where it is recorded; occupants may have been forgotten. */
  ghost predicate OccupantsHold(sources: map<Path, Identity>, paths: map<Identity, Path>) {
    forall p :: p in sources ==> sources[p] in paths && paths[sources[p]] == p
  }

  /** What the dry run knows: where each entry is, and who is at each path. */
  datatype Simulated = Simulated(paths: map<Identity, Path>, sources: map<Path, Identity>)

  /** The two maps are each other's inverse, and those of the rows. */
  ghost predicate Mapped(sim: Simulated, rows: Rows) {
    && Tracks(sim.paths, rows) && OccupantsHold(sim.sources, sim.paths)
    && forall id :: id in sim.paths ==> sim.paths[id] in sim.sources
  }

  lemma MapsAreDetermined(a: Simulated, b: Simulated, rows: Rows)
    requires Mapped(a, rows) && Mapped(b, rows) && UniquePlaces(rows)
    ensures a == b
  {
    assert a.paths == b.paths;
    forall p | p in a.sources ensures p in b.sources && b.sources[p] == a.sources[p] {
      assert rows[a.sources[p]].place == At(p) && rows[b.sources[p]].place == At(p);
    }
    forall p | p in b.sources ensures p in a.sources {
      assert rows[b.sources[p]].place == At(p);
    }
    assert a.sources == b.sources;
  }

  method SourcePathMaps(rows: Rows) returns (sim: Simulated)
    requires AllPlaced(rows) && UniquePlaces(rows)
    ensures Mapped(sim, rows)
  {
    sim := Simulated(map[], map[]);
    var todo := rows.Keys;
    while todo != {}
      invariant todo <= rows.Keys && sim.paths.Keys == rows.Keys - todo
      invariant forall id :: id in sim.paths ==> rows[id].place == At(sim.paths[id])
      invariant OccupantsHold(sim.sources, sim.paths) && forall id :: id in sim.paths ==> sim.paths[id] in sim.sources
      decreases todo
    {
      var id :| id in todo;
      var path := rows[id].place.path;
      sim := Simulated(sim.paths[id := path], sim.sources[path := id]);
      todo := todo - {id};
    }
  }

  /** One operation of the dry run; nothing when it is refused. */
  function DryStep(grants: set<Grant>, w: Writer, op: Operation, moving: set<Identity>, sim: Simulated): Option<Simulated> {
    var id := Identity(w, op.key);
    match op
    case Put(_, path, _, _, _) =>
      if !IsPath(path) || !Authorized(grants, w, path) || (path in sim.sources && sim.sources[path] != id) then None
      else Some(Relocated(sim, id, path))
    case Move(_, path, _, _) =>
      if !IsPath(path) || !Authorized(grants, w, path) || id !in sim.paths || !Authorized(grants, w, sim.paths[id])
        || (path in sim.sources && sim.sources[path] != id && sim.sources[path] !in moving) then None
      else Some(if sim.paths[id] == path then sim else Relocated(sim, id, path))
    case Delete(_, _) =>
      if id !in sim.paths then Some(sim)
      else if !Authorized(grants, w, sim.paths[id]) then None
      else Some(Simulated(sim.paths - {id}, sim.sources - {sim.paths[id]}))
    case Decide(_, where, _, _) =>
      if where.Some? && (!IsPath(where.value) || !Authorized(grants, w, where.value)) then None else Some(sim)
  }

  function Relocated(sim: Simulated, id: Identity, path: Path): Simulated {
    var left := if id in sim.paths && sim.paths[id] != path then sim.sources - {sim.paths[id]} else sim.sources;
    Simulated(sim.paths[id := path], left[path := id])
  }

  predicate DryRun(grants: set<Grant>, w: Writer, ops: seq<Operation>, moving: set<Identity>, sim: Simulated) {
    ops == [] || (var next := DryStep(grants, w, ops[0], moving, sim);
                  next.Some? && DryRun(grants, w, ops[1..], moving, next.value))
  }

  /** The simulation keeps to the rows; what it refuses is a violated check or an occupied path. */
  lemma DryStepTracks(grants: set<Grant>, v: View, w: Writer, op: Operation, moving: set<Identity>, sim: Simulated)
    requires Tracks(sim.paths, v.rows) && OccupantsHold(sim.sources, sim.paths)
    ensures var next := DryStep(grants, w, op, moving, sim);
      if next.Some? then Tracks(next.value.paths, Step(v, w, op).rows) && OccupantsHold(next.value.sources, next.value.paths)
      else !LocallyOk(grants, v, w, op) || Blocked(v.rows, w, op, moving)
  {
    if (op.Put? || op.Move?) && op.path in sim.sources {
      assert v.rows[sim.sources[op.path]].place == At(op.path);
    }
  }

  /** Another row, which no move of the submission takes away, has the operation's path. */
  ghost predicate Blocked(rows: Rows, w: Writer, op: Operation, moving: set<Identity>) {
    && (op.Put? || op.Move?)
    && exists other :: other in rows && other != Identity(w, op.key) && (op.Move? ==> other !in moving)
         && rows[other].place == At(op.path)
  }

  function MovingOf(plan: Plan): set<Identity> {
    set m | m in plan.moves :: Identity(plan.w, m.key)
  }

  /** The dry run of the plan from the maps of its rows comes to its end. */
  ghost predicate Passes(plan: Plan) {
    forall sim :: Mapped(sim, plan.rows) ==> DryRun(plan.grants, plan.w, plan.Ordered(), MovingOf(plan), sim)
  }

  method PreflightSubmission(plan: Plan) returns (ok: bool)
    requires plan.WellFormed() && AllPlaced(plan.rows)
    ensures ok <==> Passes(plan)
    ensures !ok ==> !plan.Acceptable()
  {
    var ordered := plan.Ordered();
    var sim := SourcePathMaps(plan.rows);
    ghost var start := sim;
    var moving := MovingOf(plan);
    assert plan.Prefix(0) == plan.Start() && ordered[0..] == ordered;
    ok := true;
    for i := 0 to |ordered|
      invariant Tracks(sim.paths, plan.Prefix(i).rows) && OccupantsHold(sim.sources, sim.paths)
      invariant DryRun(plan.grants, plan.w, ordered[i..], moving, sim) == DryRun(plan.grants, plan.w, ordered, moving, start)
    {
      assert ordered[i..][0] == ordered[i] && ordered[i..][1..] == ordered[i + 1..];
      DryStepTracks(plan.grants, plan.Prefix(i), plan.w, ordered[i], moving, sim);
      var next := DryStep(plan.grants, plan.w, ordered[i], moving, sim);
      if next.None? {
        RejectionIsRight(plan, i, moving);
        return false;
      }
      plan.PrefixStep(i);
      sim := next.value;
    }
    forall other | Mapped(other, plan.rows) ensures other == start {
      MapsAreDetermined(other, start, plan.rows);
    }
  }

  /** An operation the dry run rejects is one the engine would reject. */
  lemma RejectionIsRight(plan: Plan, i: nat, moving: set<Identity>)
    requires plan.WellFormed() && i < |plan.Ordered()|
    requires moving == set m | m in plan.moves :: Identity(plan.w, m.key)
    requires
      || !LocallyOk(plan.grants, plan.Prefix(i), plan.w, plan.Ordered()[i])
      || Blocked(plan.Prefix(i).rows, plan.w, plan.Ordered()[i], moving)
    ensures !plan.Acceptable()
  {
    var op := plan.Ordered()[i];
    var id := Identity(plan.w, op.key);
    if plan.Acceptable() {
      if op.Move? {
        plan.MoveFindsRow(i, id);
        assert LocallyOk(plan.grants, plan.AfterDeletes(), plan.w, op);
        assert Lookup(plan.Prefix(i).rows, id) == Lookup(plan.AfterDeletes().rows, id);
        var other :| other in plan.Prefix(i).rows && other != id && other !in moving
          && plan.Prefix(i).rows[other].place == At(op.path);
        forall m | m in plan.moves ensures Identity(plan.w, m.key) != other {}
        plan.SettledRowBlocks(i, other);
      } else {
        plan.PrefixStep(i);
        if Blocked(plan.Prefix(i).rows, plan.w, op, moving) {
          var other :| other in plan.Prefix(i).rows && other != id && plan.Prefix(i).rows[other].place == At(op.path);
          assert plan.Prefix(i + 1).rows[other].place == plan.Prefix(i + 1).rows[id].place;
        }
        plan.AcceptableHere(i);
      }
    }
  }

  /** The dry run refuses nothing that would be applied. */
  lemma {:induction false} AcceptableRuns(plan: Plan, i: nat, sim: Simulated)
    requires plan.WellFormed() && plan.Acceptable() && i <= |plan.Ordered()|
    requires Tracks(sim.paths, plan.Prefix(i).rows) && OccupantsHold(sim.sources, sim.paths)
    ensures DryRun(plan.grants, plan.w, plan.Ordered()[i..], MovingOf(plan), sim)
    decreases |plan.Ordered()| - i
  {
    hide DryStep, LocallyOk, Plan.Acceptable;
    var ordered := plan.Ordered();
    if i < |ordered| {
      assert ordered[i..][0] == ordered[i] && ordered[i..][1..] == ordered[i + 1..];
      DryStepTracks(plan.grants, plan.Prefix(i), plan.w, ordered[i], MovingOf(plan), sim);
      var next := DryStep(plan.grants, plan.w, ordered[i], MovingOf(plan), sim);
      if next.None? {
        RejectionIsRight(plan, i, MovingOf(plan));
      } else {
        plan.PrefixStep(i);
        AcceptableRuns(plan, i + 1, next.value);
      }
    }
  }

  lemma MapsExist(rows: Rows) returns (sim: Simulated)
    requires AllPlaced(rows) && UniquePlaces(rows)
    ensures Mapped(sim, rows)
  {
    var paths := map id | id in rows :: rows[id].place.path;
    var used := set id | id in rows :: rows[id].place.path;
    var sources := map p | p in used :: OccupantOf(rows, p);
    sim := Simulated(paths, sources);
    forall id | id in paths ensures paths[id] in sources && sources[paths[id]] == id {
      assert rows[OccupantOf(rows, paths[id])].place == rows[id].place;
    }
  }

  ghost function OccupantOf(rows: Rows, p: Path): Identity
    requires exists id :: id in rows && rows[id].place == At(p)
  {
    var id :| id in rows && rows[id].place == At(p);
    id
  }

  /** Two moves to one path pass the dry run, though the engine applies neither. */
  lemma TwoMovesToOnePathPass(plan: Plan, a: Operation, b: Operation)
    requires plan.WellFormed() && AllPlaced(plan.rows)
    requires plan.deletes == [] && plan.rest == [] && plan.moves == [a, b] && a.Move? && b.Move? && a.path == b.path
    requires LocallyOk(plan.grants, plan.Start(), plan.w, a) && LocallyOk(plan.grants, plan.Start(), plan.w, b)
    requires forall id :: id in plan.rows && plan.rows[id].place == At(a.path) ==>
      id in {Identity(plan.w, a.key), Identity(plan.w, b.key)}
    ensures Passes(plan) && !plan.Acceptable()
  {
    assert a in plan.moves && b in plan.moves && plan.moves[0] == a && plan.moves[1] == b;
    TwoMovesCollide(plan.Start(), plan.w, plan.moves, a, b);
    assert Identity(plan.w, a.key) in MovingOf(plan) && Identity(plan.w, b.key) in MovingOf(plan);
    hide AcceptedStages, DryRun, After, UniquePlaces;
    forall sim | Mapped(sim, plan.rows)
      ensures DryRun(plan.grants, plan.w, plan.Ordered(), MovingOf(plan), sim)
    {
      assert plan.Ordered() == [a, b];
      DryRunOfTwoMoves(plan.grants, plan.Start(), plan.w, a, b, MovingOf(plan), sim);
    }
  }

  lemma TwoMovesCollide(v: View, w: Writer, moves: seq<Operation>, a: Operation, b: Operation)
    requires AllMoves(moves) && DistinctKeys(moves) && a in moves && b in moves && a.key != b.key && a.path == b.path
    requires Identity(w, a.key) in v.rows && Identity(w, b.key) in v.rows
    ensures !UniquePlaces(After(v, w, moves).rows)
  {
    MovesEffect(v, w, moves, Identity(w, a.key));
    MovesEffect(v, w, moves, Identity(w, b.key));
  }

  lemma DryRunOfTwoMoves(
    grants: set<Grant>, v: View, w: Writer, a: Operation, b: Operation, moving: set<Identity>, sim: Simulated)
    requires Mapped(sim, v.rows) && a.Move? && b.Move? && a.path == b.path && a.key != b.key
    requires LocallyOk(grants, v, w, a) && LocallyOk(grants, v, w, b)
    requires Identity(w, a.key) in moving && Identity(w, b.key) in moving
    requires forall id :: id in v.rows && v.rows[id].place == At(a.path) ==> id in {Identity(w, a.key), Identity(w, b.key)}
    ensures DryRun(grants, w, [a, b], moving, sim)
  {
    var first := DryStep(grants, w, a, moving, sim);
    assert first.Some?;
    assert DryStep(grants, w, b, moving, first.value).Some?;
    assert [a, b][1..] == [b] && [b][1..] == [];
  }
}
