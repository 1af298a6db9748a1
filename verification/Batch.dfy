/**
 A batch of moves as a graph over source paths: which rows cycle breaking parks, and why no move
 of an acceptable batch, run in dependency order, finds its destination taken.
 */
module Batch {
  import opened Wrappers
  import opened Paths
  import opened Catalog
  import opened MoveGraph
  import opened MoveOrder

  ghost predicate Known(rows: Rows, w: Writer, m: Operation) {
    m.Move? && Identity(w, m.key) in rows && rows[Identity(w, m.key)].place.At?
  }

  ghost predicate AllKnown(rows: Rows, w: Writer, moves: seq<Operation>) {
    forall m :: m in moves ==> Known(rows, w, m)
  }

  ghost function SourcePath(rows: Rows, w: Writer, m: Operation): Path
    requires Known(rows, w, m)
  {
    rows[Identity(w, m.key)].place.path
  }

  ghost function Sources(rows: Rows, w: Writer, moves: seq<Operation>): (r: seq<Path>)
    requires AllKnown(rows, w, moves)
  {
    seq(|moves|, i requires 0 <= i < |moves| => SourcePath(rows, w, moves[i]))
  }

  ghost predicate IsDestinations(dest: map<Path, Path>, rows: Rows, w: Writer, moves: seq<Operation>)
    requires AllKnown(rows, w, moves)
  {
    && (forall p :: p in dest ==> p in Sources(rows, w, moves))
    && (forall m :: m in moves ==> SourcePath(rows, w, m) in dest && dest[SourcePath(rows, w, m)] == m.path)
  }

  /** The moves found by their source path, as the ordering looks them up. */
  ghost predicate IndexedBySource(bySource: map<Path, Operation>, rows: Rows, w: Writer, moves: seq<Operation>) {
    && (forall p :: p in bySource ==> bySource[p] in moves && Known(rows, w, bySource[p]) && SourcePath(rows, w, bySource[p]) == p)
    && (forall m :: m in moves && Known(rows, w, m) ==> SourcePath(rows, w, m) in bySource)
  }

  /** The move that has to vacate this move's destination first. */
  ghost predicate IsDependency(dependency: map<Operation, Operation>, bySource: map<Path, Operation>, moves: seq<Operation>) {
    && (forall m :: m in dependency ==> m in moves && m.Move? && m.path in bySource && dependency[m] == bySource[m.path])
    && (forall m :: m in moves && m.Move? && m.path in bySource && bySource[m.path] != m ==> m in dependency)
  }

  /** Move n vacates the path that m goes to. */
  ghost predicate Vacates(rows: Rows, w: Writer, n: Operation, m: Operation) {
    m.Move? && n != m && Known(rows, w, n) && SourcePath(rows, w, n) == m.path
  }

  ghost function Vacater(rows: Rows, w: Writer, moves: seq<Operation>, m: Operation): (n: Operation)
    requires exists n :: n in moves && Vacates(rows, w, n, m)
    ensures n in moves && Vacates(rows, w, n, m)
  {
    var n :| n in moves && Vacates(rows, w, n, m);
    n
  }

  ghost function Dependencies(rows: Rows, w: Writer, moves: seq<Operation>): (r: map<Operation, Operation>)
    ensures forall m :: m in r ==> m in moves && r[m] in moves
  {
    map m | m in moves && exists n :: n in moves && Vacates(rows, w, n, m) :: Vacater(rows, w, moves, m)
  }

  /** The order in which a submission's moves run on these rows. */
  ghost function RunOrder(rows: Rows, w: Writer, ops: seq<Operation>): seq<Operation> {
    var moves := OfKind(ops, MoveKind);
    if |moves| < 2 then moves else DepthFirst(moves, Dependencies(rows, w, moves))
  }

  /** The dependencies that the index gives are those of the rows. */
  lemma DependencyIsDetermined(
    rows: Rows, w: Writer, moves: seq<Operation>, bySource: map<Path, Operation>, dependency: map<Operation, Operation>)
    requires UniquePlaces(rows) && KeysIdentify(moves)
    requires IndexedBySource(bySource, rows, w, moves) && IsDependency(dependency, bySource, moves)
    requires forall m :: m in dependency ==> dependency[m] != m
    ensures dependency == Dependencies(rows, w, moves)
  {
    hide UniquePlaces, KeysIdentify, IndexedBySource, IsDependency, Vacates;
    var expected := Dependencies(rows, w, moves);
    forall m, n | m in moves && n in moves && Vacates(rows, w, n, m) ensures m in dependency && dependency[m] == n {
      VacaterIsDependency(rows, w, moves, bySource, dependency, m, n);
    }
    forall m | m in dependency ensures m in expected && expected[m] == dependency[m] {
      DependencyVacates(rows, w, moves, bySource, dependency, m);
    }
  }

  lemma VacaterIsDependency(
    rows: Rows, w: Writer, moves: seq<Operation>, bySource: map<Path, Operation>, dependency: map<Operation, Operation>,
    m: Operation, n: Operation)
    requires UniquePlaces(rows) && KeysIdentify(moves)
    requires IndexedBySource(bySource, rows, w, moves) && IsDependency(dependency, bySource, moves)
    requires m in moves && n in moves && Vacates(rows, w, n, m)
    ensures m in dependency && dependency[m] == n
  {
    hide UniquePlaces, KeysIdentify, IndexedBySource;
    SourceNamesMove(rows, w, moves, bySource, n);
  }

  lemma DependencyVacates(
    rows: Rows, w: Writer, moves: seq<Operation>, bySource: map<Path, Operation>, dependency: map<Operation, Operation>,
    m: Operation)
    requires IndexedBySource(bySource, rows, w, moves) && IsDependency(dependency, bySource, moves)
    requires m in dependency && dependency[m] != m
    ensures m in moves && dependency[m] in moves && Vacates(rows, w, dependency[m], m)
  {
    assert m.path in bySource && dependency[m] == bySource[m.path];
  }

  ghost predicate KeysIdentify(moves: seq<Operation>) {
    forall a, b :: a in moves && b in moves && a.key == b.key ==> a == b
  }

  /** The setting of the two lemmas below: ordered sorts moves, indexed by their paths in rows. */
  ghost predicate Sorted(
    rows: Rows, w: Writer, moves: seq<Operation>, ordered: seq<Operation>,
    bySource: map<Path, Operation>, dependency: map<Operation, Operation>)
  {
    && UniquePlaces(rows) && KeysIdentify(ordered) && (forall m :: m in ordered <==> m in moves)
    && AllKnown(rows, w, ordered)
    && IndexedBySource(bySource, rows, w, moves) && IsDependency(dependency, bySource, moves)
    && SuccessorsFirst(ordered, dependency)
  }

  lemma OrderedMovesAreDependencyOrdered(
    rows: Rows, w: Writer, moves: seq<Operation>, ordered: seq<Operation>,
    bySource: map<Path, Operation>, dependency: map<Operation, Operation>, dest: map<Path, Path>)
    requires Sorted(rows, w, moves, ordered, bySource, dependency) && IsDestinations(dest, rows, w, ordered)
    ensures DependencyOrdered(Sources(rows, w, ordered), dest)
  {
    var s := Sources(rows, w, ordered);
    forall i, j | 0 <= i < |s| && 0 <= j < |s| && s[i] in dest && dest[s[i]] != s[i] && s[j] == dest[s[i]]
      ensures s[j] in s[..i] || ClosesCycle(s, dest, i)
    {
      DependencyRunsFirst(rows, w, moves, ordered, bySource, dependency, dest, i, j);
    }
  }

  lemma DependencyRunsFirst(
    rows: Rows, w: Writer, moves: seq<Operation>, ordered: seq<Operation>,
    bySource: map<Path, Operation>, dependency: map<Operation, Operation>, dest: map<Path, Path>, i: nat, j: nat)
    requires Sorted(rows, w, moves, ordered, bySource, dependency) && IsDestinations(dest, rows, w, ordered)
    requires i < |ordered| && j < |ordered| && ordered[i] != ordered[j]
    requires ordered[i].Move? && ordered[i].path == SourcePath(rows, w, ordered[j])
    ensures SourcePath(rows, w, ordered[j]) in Sources(rows, w, ordered)[..i]
         || ClosesCycle(Sources(rows, w, ordered), dest, i)
  {
    var s := Sources(rows, w, ordered);
    var m, n := ordered[i], ordered[j];
    assert KeysIdentify(moves);
    SourceNamesMove(rows, w, moves, bySource, n);
    assert n != m && dependency[m] == n;
    assert SuccessorFirst(ordered, dependency, i);
    if k :| 0 <= k < i && ordered[..i][k] == n {
      assert s[..i][k] == SourcePath(rows, w, n);
    } else {
      var c :| IsCycle(c, dependency) && m in c && Disjoint(c, ordered[..i]);
      CycleOfMovesIsCycleOfPaths(rows, w, moves, ordered, bySource, dependency, dest, c, i);
    }
  }

  lemma SourceNamesMove(rows: Rows, w: Writer, moves: seq<Operation>, bySource: map<Path, Operation>, m: Operation)
    requires UniquePlaces(rows) && IndexedBySource(bySource, rows, w, moves)
    requires m in moves && Known(rows, w, m)
    requires KeysIdentify(moves)
    ensures SourcePath(rows, w, m) in bySource && bySource[SourcePath(rows, w, m)] == m
  {
    var n := bySource[SourcePath(rows, w, m)];
    assert rows[Identity(w, n.key)].place == rows[Identity(w, m.key)].place;
  }

  lemma CycleOfMovesIsCycleOfPaths(
    rows: Rows, w: Writer, moves: seq<Operation>, ordered: seq<Operation>,
    bySource: map<Path, Operation>, dependency: map<Operation, Operation>, dest: map<Path, Path>, c: seq<Operation>, i: nat)
    requires Sorted(rows, w, moves, ordered, bySource, dependency) && IsDestinations(dest, rows, w, ordered)
    requires i < |ordered| && IsCycle(c, dependency) && ordered[i] in c && Disjoint(c, ordered[..i])
    ensures ClosesCycle(Sources(rows, w, ordered), dest, i)
  {
    forall m | m in c ensures m in ordered {}
    var p := seq(|c|, k requires 0 <= k < |c| => SourcePath(rows, w, c[k]));
    DistinctSourcesOf(rows, w, ordered, c, p);
    forall k, l | 0 <= k < |c| && 0 <= l < |c| && dependency[c[k]] == c[l] ensures p[k] in dest && dest[p[k]] == p[l] {
      DependencyIsDestination(rows, w, moves, ordered, bySource, dependency, dest, c[k]);
    }
    CycleImage(c, dependency, p, dest);
    LaterSources(rows, w, ordered, c, p, i);
  }

  lemma DistinctSourcesOf(rows: Rows, w: Writer, moves: seq<Operation>, c: seq<Operation>, p: seq<Path>)
    requires UniquePlaces(rows) && AllKnown(rows, w, moves) && KeysIdentify(moves)
    requires Distinct(c) && |p| == |c|
    requires forall k :: 0 <= k < |c| ==> c[k] in moves && p[k] == SourcePath(rows, w, c[k])
    ensures Distinct(p)
  {
    forall k, l | 0 <= k < l < |c| ensures p[k] != p[l] {
      DistinctSources(rows, w, moves, c[k], c[l]);
    }
  }

  lemma AllSourcesDistinct(rows: Rows, w: Writer, moves: seq<Operation>)
    requires UniquePlaces(rows) && AllKnown(rows, w, moves) && DistinctKeys(moves)
    ensures Distinct(Sources(rows, w, moves))
  {
    forall k, l | 0 <= k < l < |moves| ensures SourcePath(rows, w, moves[k]) != SourcePath(rows, w, moves[l]) {
      assert moves[k] in moves && moves[l] in moves && moves[k].key != moves[l].key;
    }
  }

  lemma DependencyIsDestination(
    rows: Rows, w: Writer, moves: seq<Operation>, ordered: seq<Operation>,
    bySource: map<Path, Operation>, dependency: map<Operation, Operation>, dest: map<Path, Path>, m: Operation)
    requires Sorted(rows, w, moves, ordered, bySource, dependency) && IsDestinations(dest, rows, w, ordered)
    requires m in dependency
    ensures m in ordered && dependency[m] in ordered
    ensures SourcePath(rows, w, m) in dest && dest[SourcePath(rows, w, m)] == SourcePath(rows, w, dependency[m])
  {
  }

  lemma LaterSources(rows: Rows, w: Writer, moves: seq<Operation>, c: seq<Operation>, p: seq<Path>, i: nat)
    requires UniquePlaces(rows) && AllKnown(rows, w, moves) && KeysIdentify(moves) && |p| == |c|
    requires i < |moves| && moves[i] in c && Disjoint(c, moves[..i])
    requires forall k :: 0 <= k < |c| ==> c[k] in moves && p[k] == SourcePath(rows, w, c[k])
    ensures Sources(rows, w, moves)[i] in p && Disjoint(p, Sources(rows, w, moves)[..i])
  {
    var s := Sources(rows, w, moves);
    var k :| 0 <= k < |c| && c[k] == moves[i];
    assert p[k] == s[i];
    forall l, j | 0 <= l < |p| && 0 <= j < i ensures p[l] != s[..i][j] {
      assert moves[..i][j] == moves[j] && c[l] in c;
      DistinctSources(rows, w, moves, c[l], moves[j]);
    }
  }

  lemma SourceIsNew(rows: Rows, w: Writer, moves: seq<Operation>, i: nat)
    requires UniquePlaces(rows) && AllKnown(rows, w, moves) && DistinctKeys(moves) && i < |moves|
    ensures moves[i] in moves
    ensures forall j :: 0 <= j < i ==> moves[j] in moves && SourcePath(rows, w, moves[j]) != SourcePath(rows, w, moves[i])
  {
    forall j | 0 <= j < i ensures moves[j] in moves && SourcePath(rows, w, moves[j]) != SourcePath(rows, w, moves[i]) {
      DistinctSources(rows, w, moves, moves[j], moves[i]);
    }
  }

  lemma DistinctSources(rows: Rows, w: Writer, moves: seq<Operation>, a: Operation, b: Operation)
    requires UniquePlaces(rows) && AllKnown(rows, w, moves) && KeysIdentify(moves)
    requires a in moves && b in moves && a != b
    ensures SourcePath(rows, w, a) != SourcePath(rows, w, b)
  {
  }

  // ----- running an ordered batch whose cycles have been parked

  function ParkedRow(row: Row, parked: map<Path, nat>): Row {
    if row.place.At? && row.place.path in parked then row.(place := CyclePark(parked[row.place.path])) else row
  }

  function ParkedRows(rows: Rows, parked: map<Path, nat>): Rows {
    map id | id in rows :: ParkedRow(rows[id], parked)
  }

  /** p is the destination of the first node of the cycle c. */
  predicate Names(c: seq<Path>, dest: map<Path, Path>, p: Path) {
    c != [] && c[0] in dest && dest[c[0]] == p
  }

  ghost predicate NamedBy(cycles: seq<seq<Path>>, dest: map<Path, Path>, n: nat, p: Path)
    requires n <= |cycles|
  {
    exists a :: 0 <= a < n && Names(cycles[a], dest, p)
  }

  /** An entry that is not lost has the path. */
  ghost predicate LivesAt(v: View, p: Path) {
    exists id :: id in v.rows && id !in v.lost && v.rows[id].place == At(p)
  }

  /** The file that each cycle names is parked, if it exists. */
  ghost predicate ParksCycles(parked: map<Path, nat>, cycles: seq<seq<Path>>, dest: map<Path, Path>, v: View) {
    forall p :: p in parked <==> NamedBy(cycles, dest, |cycles|, p) && LivesAt(v, p)
  }

  /** The rows after the first i moves of a batch, its cycles having been parked. */
  ghost function Running(rows: Rows, w: Writer, moves: seq<Operation>, parked: map<Path, nat>, i: nat): Rows
    requires i <= |moves|
  {
    After(View(ParkedRows(rows, parked), {}), w, moves[..i]).rows
  }

  lemma RunningStart(rows: Rows, w: Writer, moves: seq<Operation>, parked: map<Path, nat>)
    ensures Running(rows, w, moves, parked, 0) == ParkedRows(rows, parked)
    ensures After(View(rows, {}), w, moves[..0]).lost == {}
  {
  }

  lemma RunningRow(rows: Rows, w: Writer, moves: seq<Operation>, parked: map<Path, nat>, i: nat, id: Identity)
    requires i <= |moves| && AllMoves(moves) && DistinctKeys(moves) && id in rows
    ensures Running(rows, w, moves, parked, i).Keys == rows.Keys
    ensures forall j :: 0 <= j < i && Identity(w, moves[j].key) == id ==>
      Running(rows, w, moves, parked, i)[id] == MovedRow(rows[id], moves[j])
    ensures (forall j :: 0 <= j < i ==> Identity(w, moves[j].key) != id) ==>
      Running(rows, w, moves, parked, i)[id] == ParkedRow(rows[id], parked)
  {
    var init := moves[..i];
    assert forall m :: m in init ==> m in moves;
    MovesEffect(View(ParkedRows(rows, parked), {}), w, init, id);
    forall j | 0 <= j < i && Identity(w, moves[j].key) == id
      ensures Running(rows, w, moves, parked, i)[id] == MovedRow(rows[id], moves[j])
    {
      assert init[j] in init && init[j] == moves[j];
    }
  }

  lemma RunningStep(rows: Rows, w: Writer, moves: seq<Operation>, parked: map<Path, nat>, i: nat)
    requires i < |moves| && AllMoves(moves) && DistinctKeys(moves) && AllKnown(rows, w, moves)
    ensures var id := Identity(w, moves[i].key);
      && id in rows && id in Running(rows, w, moves, parked, i)
      && Running(rows, w, moves, parked, i)[id] == ParkedRow(rows[id], parked)
      && Running(rows, w, moves, parked, i + 1)
         == Running(rows, w, moves, parked, i)[id := MovedRow(Running(rows, w, moves, parked, i)[id], moves[i])]
  {
    assert moves[i] in moves;
    RunningRow(rows, w, moves, parked, i, Identity(w, moves[i].key));
    assert moves[..i + 1] == moves[..i] + [moves[i]];
    AfterOne(View(ParkedRows(rows, parked), {}), w, moves[..i], moves[i]);
  }

  /** Parking leaves no trace once every move has run. */
  lemma ParkingLeavesNoTrace(rows: Rows, w: Writer, moves: seq<Operation>, parked: map<Path, nat>)
    requires AllMoves(moves) && DistinctKeys(moves) && AllKnown(rows, w, moves) && UniquePlaces(rows)
    requires forall p :: p in parked ==> p in Sources(rows, w, moves)
    ensures Running(rows, w, moves, parked, |moves|) == After(View(rows, {}), w, moves).rows
  {
    var final, running := After(View(rows, {}), w, moves).rows, Running(rows, w, moves, parked, |moves|);
    forall id | id in rows ensures final.Keys == rows.Keys == running.Keys && final[id] == running[id] {
      RunningRow(rows, w, moves, parked, |moves|, id);
      FinalRowOf(rows, w, moves, id);
      if rows[id].place.At? && rows[id].place.path in parked {
        SourceRowMoves(rows, w, moves, id);
      }
    }
    MovesEffect(View(rows, {}), w, moves, Identity(w, SourceKey("", "")));
    MovesEffect(View(ParkedRows(rows, parked), {}), w, moves, Identity(w, SourceKey("", "")));
    assert moves[..|moves|] == moves;
  }

  lemma FinalRowOf(rows: Rows, w: Writer, moves: seq<Operation>, id: Identity)
    requires AllMoves(moves) && DistinctKeys(moves) && id in rows
    ensures After(View(rows, {}), w, moves).rows.Keys == rows.Keys
    ensures forall j :: 0 <= j < |moves| && Identity(w, moves[j].key) == id ==>
      After(View(rows, {}), w, moves).rows[id] == MovedRow(rows[id], moves[j])
    ensures (forall j :: 0 <= j < |moves| ==> Identity(w, moves[j].key) != id) ==>
      After(View(rows, {}), w, moves).rows[id] == rows[id]
  {
    MovesEffect(View(rows, {}), w, moves, id);
    forall j | 0 <= j < |moves| ensures moves[j] in moves {}
  }

  lemma SourceRowMoves(rows: Rows, w: Writer, moves: seq<Operation>, id: Identity)
    requires AllKnown(rows, w, moves) && UniquePlaces(rows) && id in rows && rows[id].place.At?
    requires rows[id].place.path in Sources(rows, w, moves)
    ensures exists j :: 0 <= j < |moves| && Identity(w, moves[j].key) == id
  {
    var k :| 0 <= k < |moves| && Sources(rows, w, moves)[k] == rows[id].place.path;
    assert moves[k] in moves && rows[Identity(w, moves[k].key)].place == rows[id].place;
  }

  /** The facts about a parked, ordered batch that decide whether a destination is free when its turn comes. */
  ghost predicate ReadyToRun(
    v: View, w: Writer, moves: seq<Operation>, dest: map<Path, Path>, cycles: seq<seq<Path>>, parked: map<Path, nat>)
  {
    && UniquePlaces(v.rows) && AllMoves(moves) && DistinctKeys(moves) && AllKnown(v.rows, w, moves)
    && IsDestinations(dest, v.rows, w, moves)
    && ListsEachCycleOnce(cycles, dest)
    && (forall a :: 0 <= a < |cycles| ==> Entered(Sources(v.rows, w, moves), dest, cycles[a]))
    && ParksCycles(parked, cycles, dest, v)
  }

  /** Move j goes to the path of a lost entry, which the later move l is to take away. */
  ghost predicate MeetsLostAt(v: View, w: Writer, moves: seq<Operation>, j: nat, l: nat) {
    && j < l < |moves| && moves[j].Move?
    && var id := Identity(w, moves[l].key);
       id in v.lost && id in v.rows && v.rows[id].place == At(moves[j].path)
  }

  ghost predicate MeetsLost(v: View, w: Writer, moves: seq<Operation>) {
    exists j, l :: MeetsLostAt(v, w, moves, j, l)
  }

  /** Nothing that the submission has to rename or to park is lost. */
  ghost predicate Unhindered(v: View, w: Writer, ops: seq<Operation>) {
    PutsFindFiles(v, w, ops) && !MeetsLost(After(v, w, OfKind(ops, DeleteKind)), w, RunOrder(v.rows, w, ops))
  }

  /** The submissions the engine applies, in a state where tree and catalog agree and no primitive fails. */
  ghost predicate Applicable(grants: set<Grant>, v: View, w: Writer, ops: seq<Operation>) {
    Accepted(grants, v, w, ops) && Unhindered(v, w, ops)
  }

  /** While no file is lost, nothing but a self-move of the submission itself can hinder it. */
  lemma NothingLostNothingMet(grants: set<Grant>, v: View, w: Writer, ops: seq<Operation>)
    requires v.lost == {}
    ensures Unhindered(v, w, ops) <==> PutsFindFiles(v, w, ops)
  {
    DeletesEffect(v, w, OfKind(ops, DeleteKind), Identity(w, SourceKey("", "")));
  }

  /**
   If the batch as a whole keeps paths unique, the rows at a destination in its turn are those of
   lost entries that this move or a later one takes away; while no file is lost there is none.
   */
  lemma DestinationVacated(
    v: View, w: Writer, moves: seq<Operation>, dest: map<Path, Path>, cycles: seq<seq<Path>>,
    parked: map<Path, nat>, i: nat)
    requires ReadyToRun(v, w, moves, dest, cycles, parked) && i < |moves|
    requires DependencyOrdered(Sources(v.rows, w, moves), dest)
    requires UniquePlaces(After(View(v.rows, {}), w, moves).rows)
    ensures forall other :: other in Running(v.rows, w, moves, parked, i) ==>
      (Running(v.rows, w, moves, parked, i)[other].place == At(moves[i].path) <==> WaitsLost(v, w, moves, i, other))
  {
    hide UniquePlaces, DependencyOrdered, ListsEachCycleOnce, Running;
    forall other | other in Running(v.rows, w, moves, parked, i)
      ensures Running(v.rows, w, moves, parked, i)[other].place == At(moves[i].path) <==> WaitsLost(v, w, moves, i, other)
    {
      if WaitsLost(v, w, moves, i, other) {
        LostIsNotParked(v, moves[i].path, other);
        WaitingRow(v.rows, w, moves, parked, i, other);
      } else if Running(v.rows, w, moves, parked, i)[other].place == At(moves[i].path) {
        TakenMeansWaiting(v, w, moves, dest, cycles, parked, i, other);
        assert false;
      }
    }
  }

  /** A lost entry at the destination of move i, which that move or a later one is to take away. */
  ghost predicate WaitsLost(v: View, w: Writer, moves: seq<Operation>, i: nat, other: Identity)
    requires i < |moves|
  {
    && other in v.lost && other in v.rows && moves[i].Move? && v.rows[other].place == At(moves[i].path)
    && exists j: nat :: i <= j < |moves| && Identity(w, moves[j].key) == other
  }

  lemma LostIsNotParked(v: View, p: Path, id: Identity)
    requires UniquePlaces(v.rows) && id in v.lost && id in v.rows && v.rows[id].place == At(p)
    ensures !LivesAt(v, p)
  {
  }

  /** A row whose move has not run is as parking left it. */
  lemma WaitingRow(rows: Rows, w: Writer, moves: seq<Operation>, parked: map<Path, nat>, i: nat, other: Identity)
    requires i <= |moves| && AllMoves(moves) && DistinctKeys(moves) && other in rows
    requires exists j: nat :: i <= j < |moves| && Identity(w, moves[j].key) == other
    ensures other in Running(rows, w, moves, parked, i)
    ensures Running(rows, w, moves, parked, i)[other] == ParkedRow(rows[other], parked)
  {
    RunningRow(rows, w, moves, parked, i, other);
  }

  lemma TakenMeansWaiting(
    v: View, w: Writer, moves: seq<Operation>, dest: map<Path, Path>, cycles: seq<seq<Path>>,
    parked: map<Path, nat>, i: nat, other: Identity)
    requires ReadyToRun(v, w, moves, dest, cycles, parked) && i < |moves|
    requires DependencyOrdered(Sources(v.rows, w, moves), dest)
    requires UniquePlaces(After(View(v.rows, {}), w, moves).rows)
    requires other in Running(v.rows, w, moves, parked, i)
    requires Running(v.rows, w, moves, parked, i)[other].place == At(moves[i].path)
    ensures WaitsLost(v, w, moves, i, other)
  {
    hide UniquePlaces, DependencyOrdered, ListsEachCycleOnce, Running;
    assert moves[i] in moves;
    RunningRow(v.rows, w, moves, parked, i, Identity(w, moves[i].key));
    if j: nat :| i <= j < |moves| && Identity(w, moves[j].key) == other {
      WaitingRow(v.rows, w, moves, parked, i, other);
      assert moves[j] in moves;
      LaterSourceIsParked(v, w, moves, dest, cycles, parked, i, j);
    } else {
      SettledRowsDiffer(v.rows, w, moves, parked, i, other);
    }
  }

  /** A row no later move rewrites is already where the batch leaves it. */
  lemma SettledRowsDiffer(rows: Rows, w: Writer, moves: seq<Operation>, parked: map<Path, nat>, i: nat, other: Identity)
    requires AllMoves(moves) && DistinctKeys(moves) && AllKnown(rows, w, moves) && i < |moves| && other in rows
    requires UniquePlaces(After(View(rows, {}), w, moves).rows)
    requires Running(rows, w, moves, parked, i).Keys == rows.Keys
    requires Running(rows, w, moves, parked, i)[other].place == At(moves[i].path)
    requires forall j :: i < j < |moves| ==> Identity(w, moves[j].key) != other
    ensures other == Identity(w, moves[i].key)
  {
    var final, id := After(View(rows, {}), w, moves).rows, Identity(w, moves[i].key);
    assert moves[i] in moves;
    RunningRow(rows, w, moves, parked, i, other);
    FinalRowOf(rows, w, moves, id);
    FinalRowOf(rows, w, moves, other);
    assert final[other].place == final[id].place;
  }

  /** A destination still to be vacated is the name of a cycle. */
  lemma LaterSourceIsNamed(
    rows: Rows, w: Writer, moves: seq<Operation>, dest: map<Path, Path>, cycles: seq<seq<Path>>, i: nat, j: nat)
    requires UniquePlaces(rows) && AllMoves(moves) && DistinctKeys(moves) && AllKnown(rows, w, moves)
    requires IsDestinations(dest, rows, w, moves) && ListsEachCycleOnce(cycles, dest)
    requires forall a :: 0 <= a < |cycles| ==> Entered(Sources(rows, w, moves), dest, cycles[a])
    requires DependencyOrdered(Sources(rows, w, moves), dest) && i < j < |moves|
    requires moves[i].Move? && moves[j] in moves && moves[i].path == SourcePath(rows, w, moves[j])
    ensures NamedBy(cycles, dest, |cycles|, moves[i].path)
  {
    var s := Sources(rows, w, moves);
    assert moves[i] in moves;
    assert s[i] in dest && dest[s[i]] == s[j];
    forall k | 0 <= k < j ensures s[k] != s[j] {
      assert moves[k] in moves;
      DistinctSources(rows, w, moves, moves[k], moves[j]);
    }
    assert ClosesCycle(s, dest, i);
    FirstRunNamesParked(s, dest, cycles, i);
    var a :| 0 <= a < |cycles| && cycles[a][0] == s[i];
    assert Names(cycles[a], dest, moves[i].path);
  }

  /** It is parked exactly if its entry is not lost. */
  lemma LaterSourceIsParked(
    v: View, w: Writer, moves: seq<Operation>, dest: map<Path, Path>, cycles: seq<seq<Path>>,
    parked: map<Path, nat>, i: nat, j: nat)
    requires ReadyToRun(v, w, moves, dest, cycles, parked) && i <= j < |moves|
    requires DependencyOrdered(Sources(v.rows, w, moves), dest)
    requires moves[j] in moves && moves[i].Move? && moves[i].path == SourcePath(v.rows, w, moves[j])
    ensures moves[i].path in parked <==> Identity(w, moves[j].key) !in v.lost
  {
    hide DependencyOrdered, ListsEachCycleOnce, Entered, DistinctKeys, NamedBy;
    if i == j {
      SelfMoveIsNamed(v.rows, w, moves, dest, cycles, moves[i]);
    } else {
      LaterSourceIsNamed(v.rows, w, moves, dest, cycles, i, j);
    }
    assert v.rows[Identity(w, moves[j].key)].place == At(moves[i].path);
  }

  /** The rows of self-moves are parked and those of lost entries are not. */
  ghost predicate ParksLivingSelfMoves(v: View, w: Writer, moves: seq<Operation>, parked: map<Path, nat>) {
    && (forall m :: m in moves && Known(v.rows, w, m) && m.path == SourcePath(v.rows, w, m) && Identity(w, m.key) !in v.lost ==>
          m.path in parked)
    && (forall id :: id in v.lost && id in v.rows && v.rows[id].place.At? ==> v.rows[id].place.path !in parked)
  }

  /** A move onto its own path is a cycle of one, whose name is that path. */
  lemma SelfMoveIsNamed(
    rows: Rows, w: Writer, moves: seq<Operation>, dest: map<Path, Path>, cycles: seq<seq<Path>>, m: Operation)
    requires AllKnown(rows, w, moves) && ListsEachCycleOnce(cycles, dest) && IsDestinations(dest, rows, w, moves)
    requires m in moves && m.path == SourcePath(rows, w, m)
    ensures NamedBy(cycles, dest, |cycles|, m.path)
  {
    assert dest[m.path] == m.path;
    assert IsCycle([m.path], dest);
    assert OnCycle(m.path, dest);
    var a :| 0 <= a < |cycles| && m.path in cycles[a];
    MeetingCyclesAgree(cycles[a], [m.path], dest, m.path, cycles[a][0]);
    assert Names(cycles[a], dest, m.path);
  }

  ghost predicate Injective<K(!new), V(!new)>(m: map<K, V>) {
    forall a, b :: a in m && b in m && m[a] == m[b] ==> a == b
  }

  lemma ParkingKeepsPathsUnique(rows: Rows, parked: map<Path, nat>)
    requires UniquePlaces(rows) && AllPlaced(rows) && Injective(parked)
    ensures UniquePlaces(ParkedRows(rows, parked))
  {
    var after := ParkedRows(rows, parked);
    forall a, b | a in after && b in after && after[a].place == after[b].place ensures a == b {
      assert rows[a].place == rows[b].place;
    }
  }

  lemma ParkOneMore(rows: Rows, parked: map<Path, nat>, id: Identity, n: nat)
    requires UniquePlaces(rows) && AllPlaced(rows) && id in rows && rows[id].place.path !in parked
    ensures ParkedRows(rows, parked[rows[id].place.path := n])
         == ParkedRows(rows, parked)[id := rows[id].(place := CyclePark(n))]
  {
    forall other | other in rows && other != id ensures rows[other].place != rows[id].place {}
  }

  /** One row is given its parked path; those in todo still wait. */
  lemma ParkRowStep(rows: Rows, parked: map<Path, nat>, todo: set<Path>, p: Path, id: Identity)
    requires UniquePlaces(rows) && AllPlaced(rows) && Injective(parked)
    requires p in todo && todo <= parked.Keys && id in rows && rows[id].place == At(p)
    ensures ParkedRows(rows, parked - todo)[id] == rows[id]
    ensures ParkedRows(rows, parked - (todo - {p}))
         == ParkedRows(rows, parked - todo)[id := rows[id].(place := CyclePark(parked[p]))]
    ensures UniquePlaces(ParkedRows(rows, parked - (todo - {p})))
  {
    var done := parked - todo;
    assert parked - (todo - {p}) == done[p := parked[p]];
    ParkOneMore(rows, done, id, parked[p]);
    ParkingKeepsPathsUnique(rows, done[p := parked[p]]);
  }

  /** Different cycles name different paths, each of them a source. */
  lemma NamesAreNew(cycles: seq<seq<Path>>, dest: map<Path, Path>, n: nat)
    requires ListsEachCycleOnce(cycles, dest) && n < |cycles|
    ensures cycles[n][0] in dest && !NamedBy(cycles, dest, n, dest[cycles[n][0]])
    ensures forall p :: NamedBy(cycles, dest, n + 1, p) <==> NamedBy(cycles, dest, n, p) || p == dest[cycles[n][0]]
  {
    SuccessorOnCycle(cycles[n], dest, cycles[n][0]);
    forall a | 0 <= a < n ensures !Names(cycles[a], dest, dest[cycles[n][0]]) {
      SuccessorOnCycle(cycles[a], dest, cycles[a][0]);
      assert Disjoint(cycles[a], cycles[n]);
    }
  }

  /** A move to the path of a lost entry still to be taken away collides with its row. */
  lemma MeetingCollides(v: View, w: Writer, moves: seq<Operation>, parked: map<Path, nat>, j: nat, l: nat)
    requires AllMoves(moves) && DistinctKeys(moves) && AllKnown(v.rows, w, moves)
    requires MeetsLostAt(v, w, moves, j, l) && moves[j].path !in parked
    ensures !UniquePlaces(Running(v.rows, w, moves, parked, j + 1))
  {
    hide UniquePlaces, Running;
    var other := Identity(w, moves[l].key);
    RunningStep(v.rows, w, moves, parked, j);
    WaitingRow(v.rows, w, moves, parked, j + 1, other);
    TwoAtOnePlace(Running(v.rows, w, moves, parked, j + 1), other, Identity(w, moves[j].key));
  }

  lemma MovedMeetsNothing(v: View, w: Writer, moves: seq<Operation>, parked: map<Path, nat>, i: nat)
    requires AllMoves(moves) && DistinctKeys(moves) && AllKnown(v.rows, w, moves) && i < |moves|
    requires ParksLivingSelfMoves(v, w, moves, parked) && UniquePlaces(Running(v.rows, w, moves, parked, i + 1))
    ensures forall l: nat :: !MeetsLostAt(v, w, moves, i, l)
  {
    hide UniquePlaces, Running;
    forall l: nat ensures !MeetsLostAt(v, w, moves, i, l) {
      if MeetsLostAt(v, w, moves, i, l) {
        MeetingCollides(v, w, moves, parked, i, l);
      }
    }
  }

  lemma TwoAtOnePlace(rows: Rows, a: Identity, b: Identity)
    requires a in rows && b in rows && a != b && rows[a].place == rows[b].place
    ensures !UniquePlaces(rows)
  {
  }

  /** In an acceptable, ordered batch the next move collides exactly if it meets a lost entry. */
  lemma NextMoveKeepsPathsUniqueIff(
    v: View, w: Writer, moves: seq<Operation>, dest: map<Path, Path>, cycles: seq<seq<Path>>,
    parked: map<Path, nat>, i: nat)
    requires ReadyToRun(v, w, moves, dest, cycles, parked) && i < |moves|
    requires DependencyOrdered(Sources(v.rows, w, moves), dest)
    requires UniquePlaces(After(View(v.rows, {}), w, moves).rows)
    requires UniquePlaces(Running(v.rows, w, moves, parked, i))
    ensures UniquePlaces(Running(v.rows, w, moves, parked, i + 1)) <==> forall l: nat :: !MeetsLostAt(v, w, moves, i, l)
  {
    RunningStep(v.rows, w, moves, parked, i);
    var now := Running(v.rows, w, moves, parked, i);
    DestinationVacated(v, w, moves, dest, cycles, parked, i);
    if l: nat :| MeetsLostAt(v, w, moves, i, l) {
      LostIsNotParked(v, moves[i].path, Identity(w, moves[l].key));
      MeetingCollides(v, w, moves, parked, i, l);
    } else {
      forall other | other in now && now[other].place == At(moves[i].path) ensures other == Identity(w, moves[i].key) {
        var j: nat :| i <= j < |moves| && Identity(w, moves[j].key) == other;
        assert j == i || MeetsLostAt(v, w, moves, i, j);
      }
    }
  }

  /** A move loses its file exactly if it goes where the entry already is. */
  lemma LostStep(v: View, w: Writer, moves: seq<Operation>, i: nat)
    requires i < |moves| && AllMoves(moves) && DistinctKeys(moves) && AllKnown(v.rows, w, moves)
    ensures var id, lost := Identity(w, moves[i].key), After(v, w, moves[..i]).lost;
      && id in v.rows && (id in lost <==> id in v.lost)
      && After(v, w, moves[..i + 1]).lost == if v.rows[id].place == At(moves[i].path) then lost + {id} else lost
  {
    var id := Identity(w, moves[i].key);
    assert moves[i] in moves;
    forall m | m in moves[..i] ensures m in moves && Identity(w, m.key) != id {
      var j :| 0 <= j < i && moves[..i][j] == m;
    }
    MovesEffect(v, w, moves[..i], id);
    assert moves[..i + 1] == moves[..i] + [moves[i]];
    AfterOne(v, w, moves[..i], moves[i]);
    assert Lookup(After(v, w, moves[..i]).rows, id) == Lookup(v.rows, id);
  }

  lemma {:induction false} RowsIgnoreLost(rows: Rows, a: set<Identity>, b: set<Identity>, w: Writer, ops: seq<Operation>)
    ensures After(View(rows, a), w, ops).rows == After(View(rows, b), w, ops).rows
  {
    if ops != [] {
      RowsIgnoreLost(rows, a, b, w, ops[..|ops| - 1]);
    }
  }

  /** The moves may run in this order on these rows. */
  ghost predicate RunnableIn(rows: Rows, w: Writer, ordered: seq<Operation>) {
    AllKnown(rows, w, ordered) ==>
      forall dest :: IsDestinations(dest, rows, w, ordered) ==> DependencyOrdered(Sources(rows, w, ordered), dest)
  }

  lemma RunnableAfterDeletes(rows0: Rows, rows: Rows, w: Writer, ordered: seq<Operation>)
    requires RunnableIn(rows0, w, ordered)
    requires forall id :: id in rows ==> id in rows0 && rows0[id] == rows[id]
    ensures RunnableIn(rows, w, ordered)
  {
    if AllKnown(rows, w, ordered) {
      forall m | m in ordered ensures Known(rows0, w, m) && SourcePath(rows0, w, m) == SourcePath(rows, w, m) {
        assert Known(rows, w, m);
      }
      assert Sources(rows, w, ordered) == Sources(rows0, w, ordered);
      forall dest | IsDestinations(dest, rows, w, ordered) ensures DependencyOrdered(Sources(rows, w, ordered), dest) {
        assert IsDestinations(dest, rows0, w, ordered);
      }
    }
  }

  lemma SortedIsRunnable(
    rows: Rows, w: Writer, moves: seq<Operation>, ordered: seq<Operation>,
    bySource: map<Path, Operation>, dependency: map<Operation, Operation>)
    requires AllKnown(rows, w, ordered) ==> Sorted(rows, w, moves, ordered, bySource, dependency)
    ensures RunnableIn(rows, w, ordered)
  {
    if AllKnown(rows, w, ordered) {
      forall dest | IsDestinations(dest, rows, w, ordered) ensures DependencyOrdered(Sources(rows, w, ordered), dest) {
        OrderedMovesAreDependencyOrdered(rows, w, moves, ordered, bySource, dependency, dest);
      }
    }
  }
}
