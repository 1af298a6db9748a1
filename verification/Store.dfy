/**
 The ctxfs store: a catalog and a file tree kept in step.  Methods follow the source step by step;
 each filesystem or database primitive may fail, as the schedule fails decides.
 */
module Store {
  import opened Wrappers
  import opened Paths
  import opened Catalog
  import opened Disk
  import opened MoveGraph
  import opened MoveOrder
  import opened Batch
  import opened Preflight
  import opened Stages

  datatype SubmissionState = Queued | AppliedState | FailedState

  /** How submit ends: applied, failed and rolled back, or failed with a failing rollback. */
  datatype SubmitResult = Applied | Failed | RollbackFailed

  /** The times at which undoing a submission and cleaning up after it began. */
  datatype Times = Times(undoing: nat, cleaning: nat)

  /** The store at a time: its entries and grants, and whether tree and catalog agree but for the entries lost. */
  datatype Standing = Standing(view: View, grants: set<Grant>, healthy: bool, at: nat)

  /** An attempt to apply a submission: how the store stood before and after, and when undoing it would begin. */
  datatype Attempt = Attempt(before: Standing, undoing: nat, after: Standing)

  /** The attempts follow one another from the first standing to the last. */
  predicate Chained(trail: seq<Attempt>, first: Standing, last: Standing) {
    if trail == [] then first == last
    else
      && trail[0].before == first && trail[|trail| - 1].after == last
      && forall i :: 0 < i < |trail| ==> trail[i].before == trail[i - 1].after
  }

  lemma ChainOneMore(trail: seq<Attempt>, first: Standing, attempt: Attempt)
    requires Chained(trail, first, attempt.before)
    ensures Chained(trail + [attempt], first, attempt.after)
  {
  }

  datatype ReadResult = NotFound | HashMismatch | Content(data: string)

  /** Exactly the existing files named by the first n cycles are parked. */
  ghost predicate ParkedSoFar(
    cycles: seq<seq<Path>>, dest: map<Path, Path>, n: nat, before: Files, parked: set<Path>)
    requires n <= |cycles|
  {
    forall p :: p in parked <==> TreeFile(p) in before && NamedBy(cycles, dest, n, p)
  }

  /** The tree files that are gone are the parked ones. */
  ghost predicate OnlyParkedLeft(before: Files, files: Files, parked: map<Path, nat>) {
    forall p: Path :: TreeFile(p) in files <==> TreeFile(p) in before && p !in parked
  }

  lemma NameIsNew(cycles: seq<seq<Path>>, dest: map<Path, Path>, n: nat, before: Files, parked: set<Path>)
    requires ListsEachCycleOnce(cycles, dest) && n < |cycles|
    requires ParkedSoFar(cycles, dest, n, before, parked)
    ensures cycles[n][0] in dest && dest[cycles[n][0]] !in parked
    ensures TreeFile(dest[cycles[n][0]]) !in before ==> ParkedSoFar(cycles, dest, n + 1, before, parked)
    ensures TreeFile(dest[cycles[n][0]]) in before ==>
      ParkedSoFar(cycles, dest, n + 1, before, parked + {dest[cycles[n][0]]})
  {
    NamesAreNew(cycles, dest, n);
  }

  lemma ParkedAreSources(cycles: seq<seq<Path>>, dest: map<Path, Path>, files: Files, parked: map<Path, nat>)
    requires ListsEachCycleOnce(cycles, dest) && ParkedSoFar(cycles, dest, |cycles|, files, parked.Keys)
    ensures forall p :: p in parked ==> p in dest
  {
    forall p | p in parked ensures p in dest {
      var a :| 0 <= a < |cycles| && Names(cycles[a], dest, p);
      SuccessorOnCycle(cycles[a], dest, cycles[a][0]);
    }
  }

  /** With tree and catalog in agreement, the file a cycle names exists, and is parked, unless its entry is lost. */
  lemma CyclesAreParked(
    v: View, files: Files, w: Writer, moves: seq<Operation>, cycles: seq<seq<Path>>, dest: map<Path, Path>,
    parked: map<Path, nat>)
    requires Agrees(v, files) && ListsEachCycleOnce(cycles, dest) && UniquePlaces(v.rows)
    requires AllMoves(moves) && DistinctKeys(moves) && AllKnown(v.rows, w, moves)
    requires IsDestinations(dest, v.rows, w, moves)
    requires forall a :: 0 <= a < |cycles| ==> Entered(Sources(v.rows, w, moves), dest, cycles[a])
    requires ParkedSoFar(cycles, dest, |cycles|, files, parked.Keys)
    ensures ReadyToRun(v, w, moves, dest, cycles, parked)
  {
    hide ListsEachCycleOnce, Entered, UniquePlaces, DistinctKeys, IsDestinations, NamedBy;
    forall p ensures TreeFile(p) in files <==> LivesAt(v, p) {
      if LivesAt(v, p) {
        var id :| id in v.rows && id !in v.lost && v.rows[id].place == At(p);
        assert Holds(files, v.rows[id]);
      }
    }
  }

  /** Every living entry that a move takes onto its own path has its file parked, and no lost entry has. */
  lemma LivingSelfMovesAreParked(
    v: View, files: Files, w: Writer, moves: seq<Operation>, cycles: seq<seq<Path>>, dest: map<Path, Path>,
    parked: map<Path, nat>)
    requires Agrees(v, files) && ListsEachCycleOnce(cycles, dest) && UniquePlaces(v.rows)
    requires AllMoves(moves) && AllKnown(v.rows, w, moves) && IsDestinations(dest, v.rows, w, moves)
    requires ParkedSoFar(cycles, dest, |cycles|, files, parked.Keys)
    ensures ParksLivingSelfMoves(v, w, moves, parked)
  {
    forall m | m in moves && m.path == SourcePath(v.rows, w, m) && Identity(w, m.key) !in v.lost ensures m.path in parked {
      SelfMoveIsNamed(v.rows, w, moves, dest, cycles, m);
      assert Holds(files, v.rows[Identity(w, m.key)]);
    }
    forall id | id in v.lost && id in v.rows && v.rows[id].place.At? ensures v.rows[id].place.path !in parked {
      LostFileIsGone(v, files, id);
    }
  }

  /** The moves run in an order that vacates destinations first, and as a batch keep paths unique. */
  ghost predicate RunsInOrder(entries: Rows, w: Writer, moves: seq<Operation>, dest: map<Path, Path>)
    requires AllKnown(entries, w, moves)
  {
    DependencyOrdered(Sources(entries, w, moves), dest) && UniquePlaces(After(View(entries, {}), w, moves).rows)
  }

  lemma NothingMet(v: View, w: Writer, moves: seq<Operation>)
    requires forall j: nat, l: nat :: j < |moves| ==> !MeetsLostAt(v, w, moves, j, l)
    ensures !MeetsLost(v, w, moves)
  {
  }

  lemma NoMovesYet(v: View, w: Writer, moves: seq<Operation>)
    ensures After(v, w, moves[..0]) == v
  {
  }

  ghost predicate HasKey(ops: seq<Operation>, key: SourceKey) {
    exists op :: op in ops && op.key == key
  }

  lemma HasKeyAppend(ops: seq<Operation>, op: Operation)
    ensures forall k :: HasKey(ops + [op], k) <==> HasKey(ops, k) || k == op.key
    ensures DistinctKeys(ops) && !HasKey(ops, op.key) ==> DistinctKeys(ops + [op])
  {
    forall k | HasKey(ops, k) || k == op.key ensures HasKey(ops + [op], k) {
      if k == op.key {
        assert op in ops + [op];
      } else {
        var o :| o in ops && o.key == k;
        assert o in ops + [op];
      }
    }
    forall i | 0 <= i < |ops| ensures HasKey(ops, ops[i].key) {
      assert ops[i] in ops;
    }
  }

  lemma OneMoreOfKind(ops: seq<Operation>, i: nat)
    requires i < |ops|
    ensures var rest := if ops[i].Move? then [ops[i]] else [];
      && OfKind(ops[..i + 1], MoveKind) == OfKind(ops[..i], MoveKind) + rest
      && OfKind(ops, MoveKind) == OfKind(ops[..i], MoveKind) + rest + OfKind(ops[i + 1..], MoveKind)
  {
    SplitOne(ops, i);
    OfKindSplit(ops, ops[..i + 1], ops[..i], ops[i], ops[i + 1..]);
  }

  lemma SplitOne(ops: seq<Operation>, i: nat)
    requires i < |ops|
    ensures ops[..i + 1] == ops[..i] + [ops[i]] && ops == ops[..i + 1] + ops[i + 1..]
  {
  }

  lemma OfKindSplit(ops: seq<Operation>, init: seq<Operation>, a: seq<Operation>, x: Operation, b: seq<Operation>)
    requires init == a + [x] && ops == init + b
    ensures OfKind(init, MoveKind) == OfKind(a, MoveKind) + if x.Move? then [x] else []
    ensures OfKind(ops, MoveKind) == OfKind(init, MoveKind) + OfKind(b, MoveKind)
  {
    OfKindAppend(a, [x], MoveKind);
    OfKindAppend(init, b, MoveKind);
  }

  lemma DuplicateStays(a: seq<Operation>, m: Operation, b: seq<Operation>)
    requires HasKey(a, m.key)
    ensures !DistinctKeys(a + [m] + b)
  {
    var n :| n in a && n.key == m.key;
    var i :| 0 <= i < |a| && a[i] == n;
    assert (a + [m] + b)[i] == n && (a + [m] + b)[|a|] == m;
  }

  lemma OneMoveIsRunnable(rows: Rows, w: Writer, moves: seq<Operation>)
    requires |moves| < 2
    ensures RunnableIn(rows, w, moves)
  {
  }

  lemma KeysNameMoves(moves: seq<Operation>)
    requires DistinctKeys(moves)
    ensures KeysIdentify(moves)
  {
  }

  lemma SortedByIndex(
    rows: Rows, w: Writer, moves: seq<Operation>, ordered: seq<Operation>,
    bySource: map<Path, Operation>, dependency: map<Operation, Operation>)
    requires UniquePlaces(rows) && KeysIdentify(ordered) && (forall m :: m in ordered <==> m in moves)
    requires IndexedBySource(bySource, rows, w, moves) && IsDependency(dependency, bySource, moves)
    requires SuccessorsFirst(ordered, dependency)
    ensures RunnableIn(rows, w, ordered)
  {
    hide UniquePlaces, IndexedBySource, IsDependency, SuccessorsFirst, RunnableIn;
    SortedIsRunnable(rows, w, moves, ordered, bySource, dependency);
  }

  lemma DistinctMovesHaveDistinctKeys(moves: seq<Operation>, ordered: seq<Operation>)
    requires DistinctKeys(moves) && Distinct(ordered) && forall m :: m in ordered <==> m in moves
    ensures DistinctKeys(ordered) && KeysIdentify(ordered)
  {
    forall a, b | a in moves && b in moves && a.key == b.key ensures a == b {}
    forall i, j | 0 <= i < j < |ordered| ensures ordered[i].key != ordered[j].key {
      assert ordered[i] in ordered && ordered[j] in ordered;
    }
  }

  lemma MovesPlaceEveryRow(v: View, w: Writer, moves: seq<Operation>)
    requires AllMoves(moves) && DistinctKeys(moves) && AllPlaced(v.rows)
    ensures AllPlaced(After(v, w, moves).rows)
  {
    forall id | id in After(v, w, moves).rows ensures After(v, w, moves).rows[id].place.At? {
      MovesEffect(v, w, moves, id);
      if m :| m in moves && Identity(w, m.key) == id {
      } else {
        assert Lookup(After(v, w, moves).rows, id) == Lookup(v.rows, id);
      }
    }
  }

  lemma ParkingFileLeaves(before: Files, files: Files, parked: map<Path, nat>, path: Path, id: nat)
    requires OnlyParkedLeft(before, files, parked) && path !in parked && TreeFile(path) in files
    ensures OnlyParkedLeft(before, Moved(files, TreeFile(path), UndoFile(id)), parked[path := id])
    ensures parked[path := id].Keys == parked.Keys + {path}
  {
  }

  lemma ParkingFileKeepsAgreement(
    rows: Rows, lost: set<Identity>, parked: map<Path, nat>, files: Files, path: Path, id: nat)
    requires UniquePlaces(rows) && AllPlaced(rows) && Injective(parked) && path !in parked
    requires forall p :: p in parked ==> parked[p] < id
    requires Agrees(View(ParkedRows(rows, parked), lost), files) && TreeFile(path) in files && UndoFile(id) !in files
    ensures Injective(parked[path := id])
    ensures Agrees(View(ParkedRows(rows, parked[path := id]), lost), Moved(files, TreeFile(path), UndoFile(id)))
  {
    var owner :| owner in rows && owner !in lost && ParkedRows(rows, parked)[owner].place == At(path);
    ParkingKeepsPathsUnique(rows, parked);
    ParkOneMore(rows, parked, owner, id);
    RelocateKeepsAgreement(View(ParkedRows(rows, parked), lost), files, owner, rows[owner].(place := CyclePark(id)));
  }

  class CtxfsStore {
    /** The environment: the primitive run at time t fails exactly if fails(t). */
    const fails: nat -> bool
    var clock: nat

    var files: Files
    var nextId: nat

    var rows: Rows
    var objects: map<Identity, nat>
    var decisions: map<Identity, Decision>
    var grants: set<Grant>
    var submissions: map<nat, SubmissionState>

    /** The journal of the submission being applied. */
    var undo: seq<Undo>
    var cleanup: seq<File>

    /** The files when the submission began. */
    ghost var base: Files

    /** The entries whose files self-moves have lost, in this submission or an earlier one. */
    ghost var lost: set<Identity>

    /** How many renames have replaced a live file. */
    ghost var overwrites: nat

    /** Whether tree and catalog agreed, lost entries aside, when the submission began. */
    ghost var sound: bool

    constructor (fails: nat -> bool)
      ensures Valid() && rows == map[] && grants == {} && files == map[]
    {
      this.fails := fails;
      clock, nextId, files := 0, 0, map[];
      rows, objects, decisions, grants, submissions := map[], map[], map[], {}, map[];
      undo, cleanup := [], [];
      base, lost, overwrites, sound := map[], {}, 0, true;
    }

    ghost function Now(): View
      reads this`rows, this`lost
    {
      View(rows, lost)
    }

    ghost predicate Journal()
      reads this`files, this`undo, this`cleanup, this`nextId, this`base
    {
      && RollsBack(undo, files, base) && FreshFrom(files, undo, nextId)
      && forall f :: f in cleanup ==> !f.TreeFile?
    }

    /** The state between operations: unique paths, no row parked, and agreement if there was. */
    ghost predicate Ready()
      reads this`files, this`rows, this`lost, this`sound
    {
      UniquePlaces(rows) && AllPlaced(rows) && (sound ==> Agrees(Now(), files))
    }

    ghost predicate FaultedBetween(since: nat, until: nat) {
      exists t :: since <= t < until && fails(t)
    }

    ghost predicate Faulted(since: nat)
      reads this`clock
    {
      FaultedBetween(since, clock)
    }

    /** What the catalog's constraints and fresh ids ensure in every state. */
    ghost predicate Consistent()
      reads this`files, this`nextId, this`rows, this`grants
    {
      && UniquePlaces(rows) && AllPlaced(rows) && FreshFrom(files, [], nextId)
      && GrantsApart(grants) && EntriesGranted(rows, grants)
    }

    /** Tree and catalog agree on everything but the entries lost. */
    ghost predicate Healthy()
      reads this`files, this`nextId, this`rows, this`lost, this`grants
    {
      Consistent() && Agrees(Now(), files) && LostAreEntries(Now())
    }

    /** Tree and catalog agree. */
    ghost predicate Valid()
      reads this`files, this`nextId, this`rows, this`lost, this`grants
    {
      Healthy() && lost == {}
    }

    ghost function Stands(): Standing
      reads this
    {
      Standing(Now(), grants, Healthy(), clock)
    }

    /**
     What an attempt to apply a submission comes to.  When tree and catalog agreed but for the
     entries lost, it fails only for a primitive that failed, or because it is not applicable.
     */
    ghost predicate Attempted(w: Writer, ops: seq<Operation>, applied: bool, a: Attempt) {
      && a.before.at <= a.undoing <= a.after.at && a.after.grants == a.before.grants
      && if applied then
           && Accepted(a.before.grants, a.before.view, w, ops) && a.after.view == Outcome(a.before.view, w, ops)
           && (a.before.healthy ==> Applicable(a.before.grants, a.before.view, w, ops) && a.after.healthy)
         else
           && a.after.view == a.before.view
           && (a.before.healthy ==>
                 FaultedBetween(a.before.at, a.undoing) || !Applicable(a.before.grants, a.before.view, w, ops))
           && (a.before.healthy && !FaultedBetween(a.undoing, a.after.at) ==> a.after.healthy)
    }

    // ----- primitives

    method Tick() returns (fault: bool)
      modifies this`clock
      ensures clock == old(clock) + 1 && fault == fails(old(clock))
    {
      fault := fails(clock);
      clock := clock + 1;
    }

    method Link(a: File, b: File) returns (ok: bool)
      modifies this`clock, this`files
      ensures old(clock) < clock
      ensures ok ==> a in old(files) && b !in old(files) && files == old(files)[b := old(files)[a]]
      ensures !ok ==> files == old(files) && (a in files && b !in files ==> Faulted(old(clock)))
    {
      var fault := Tick();
      ok := !fault && a in files && b !in files;
      if ok {
        files := files[b := files[a]];
      }
    }

    method Replace(a: File, b: File) returns (ok: bool)
      modifies this`clock, this`files
      ensures old(clock) < clock
      ensures ok ==> a in old(files) && files == Moved(old(files), a, b)
      ensures !ok ==> files == old(files) && (a in files ==> Faulted(old(clock)))
    {
      var fault := Tick();
      ok := !fault && a in files;
      if ok {
        files := (files - {a})[b := files[a]];
      }
    }

    method Unlink(a: File) returns (ok: bool)
      modifies this`clock, this`files
      ensures old(clock) < clock
      ensures ok ==> a in old(files) && files == old(files) - {a}
      ensures !ok ==> files == old(files) && (a in files ==> Faulted(old(clock)))
    {
      var fault := Tick();
      ok := !fault && a in files;
      if ok {
        files := files - {a};
      }
    }

    method UnlinkIfExists(a: Option<File>) returns (ok: bool)
      modifies this`clock, this`files
      ensures old(clock) <= clock
      ensures ok ==> files == if a.Some? then old(files) - {a.value} else old(files)
      ensures !ok ==> files == old(files) && Faulted(old(clock))
    {
      if a.None? || a.value !in files {
        assert a.Some? ==> files == files - {a.value};
        return true;
      }
      ok := Unlink(a.value);
    }

    /** Removes a leftover of a failed step; whether or not that works, the journal stands. */
    method Discard(a: Option<File>)
      requires Journal() && (a.Some? ==> !a.value.TreeFile? && forall u :: u in undo ==> !Mentions(u, a.value))
      modifies this`clock, this`files
      ensures Journal() && old(clock) <= clock
    {
      var ok := UnlinkIfExists(a);
      if a.Some? && a.value in old(files) && ok {
        assert old(files) == files[a.value := old(files)[a.value]];
        JunkIsHarmless(undo, files, base, a.value, old(files)[a.value]);
      } else {
        assert files == old(files);
      }
    }

    method FreshUndoFile() returns (f: File)
      requires FreshFrom(files, undo, nextId)
      modifies this`nextId
      ensures f == UndoFile(old(nextId)) && nextId == old(nextId) + 1
      ensures f !in files && (forall u :: u in undo ==> !Mentions(u, f)) && FreshFrom(files, undo, nextId)
    {
      f := UndoFile(nextId);
      assert IsFresh(f, nextId);
      nextId := nextId + 1;
    }

    // ----- tree entries

    /** Hard-links the target aside, if there is one. */
    method BackupTreeEntry(target: File) returns (ok: bool, backup: Option<File>)
      requires Journal()
      modifies this`clock, this`files, this`nextId
      ensures Journal() && old(clock) <= clock && old(nextId) <= nextId
      ensures ok ==> BacksUp(old(files), target, backup) && files == WithBackup(old(files), target, backup)
      ensures ok && backup.Some? ==>
        IsFresh(backup.value, old(nextId)) && !IsFresh(backup.value, nextId)
      ensures backup.Some? ==> !backup.value.TreeFile? && forall u :: u in undo ==> !Mentions(u, backup.value)
      ensures !ok ==> files == old(files) && Faulted(old(clock))
    {
      if target !in files {
        return true, None;
      }
      var fault := Tick();
      if fault {
        return false, None;
      }
      var f := FreshUndoFile();
      ok := Link(target, f);
      if !ok {
        return false, None;
      }
      JunkIsHarmless(undo, old(files), base, f, old(files)[target]);
      backup := Some(f);
    }

    /** Renames source over target, keeping a copy of what it overwrites. */
    method RenameTreeFile(source: File, target: File) returns (ok: bool)
      requires Journal() && source != target && !IsFresh(source, nextId) && !IsFresh(target, nextId)
      modifies this`clock, this`files, this`nextId, this`undo, this`cleanup, this`overwrites
      ensures Journal() && old(clock) <= clock && old(nextId) <= nextId
      ensures ok ==> source in old(files) && SameTree(files, Moved(old(files), source, target))
      ensures overwrites == old(overwrites) + if ok && target in old(files) then 1 else 0
      ensures ok && target !in old(files) ==> files == Moved(old(files), source, target)
      ensures !ok ==> Faulted(old(clock)) || source !in old(files)
      ensures old(cleanup) <= cleanup
      ensures ok ==> forall f :: f in files && f !in old(files) ==> f == target || f in cleanup
    {
      hide RollsBack, SameTree;
      if source !in files {
        return false;
      }
      var fault := Tick();
      if fault {
        return false;
      }
      var backup;
      ok, backup := BackupTreeEntry(target);
      if !ok {
        return;
      }
      ok := Replace(source, target);
      if !ok {
        Discard(backup);
        return;
      }
      RenameKeepsJournal(undo, old(files), base, nextId, source, target, backup);
      undo := undo + [UndoRename(source, target, backup)];
      cleanup := cleanup + if backup.Some? then [backup.value] else [];
      overwrites := if backup.Some? then overwrites + 1 else overwrites;
    }

    /** Links the object into the tree at target, keeping a copy of what it overwrites. */
    method ReplaceTreeEntry(target: File, source: File) returns (ok: bool)
      requires Journal() && target.TreeFile? && source.ObjectFile? && source in files
      modifies this`clock, this`files, this`nextId, this`undo, this`cleanup
      ensures Journal() && old(clock) <= clock && old(nextId) <= nextId
      ensures ok ==> SameTree(files, old(files)[target := old(files)[source]])
      ensures !ok ==> Faulted(old(clock))
      ensures old(cleanup) <= cleanup
      ensures ok ==> forall f :: f in files && f !in old(files) ==> f == target || f in cleanup
    {
      hide RollsBack;
      var fault := Tick();
      if fault {
        return false;
      }
      var tmp := FreshUndoFile();
      var backup;
      ok, backup := BackupTreeEntry(target);
      if !ok {
        return;
      }
      ok := LinkOver(source, tmp, target);
      if !ok {
        Discard(Some(tmp));
        Discard(backup);
        return;
      }
      ReplaceUndoes(old(files), target, backup, old(files)[source]);
      JournalStep(undo, UndoReplace(target, backup), old(files), files, base);
      undo := undo + [UndoReplace(target, backup)];
      cleanup := cleanup + if backup.Some? then [backup.value] else [];
    }

    /** Puts a second link to source at target by way of tmp, so that target changes in one step. */
    method LinkOver(source: File, tmp: File, target: File) returns (ok: bool)
      requires source in files && tmp !in files && tmp.UndoFile? && source != target && target.TreeFile?
      requires !IsFresh(tmp, nextId) && forall u :: u in undo ==> !Mentions(u, tmp)
      modifies this`clock, this`files
      ensures old(clock) < clock
      ensures ok ==> files == old(files)[target := old(files)[source]]
      ensures !ok ==> Faulted(old(clock))
      ensures !ok && old(Journal()) ==> Journal()
    {
      hide RollsBack;
      ok := Link(source, tmp);
      if ok {
        JunkIsHarmless(undo, old(files), base, tmp, old(files)[source]);
        ok := Replace(tmp, target);
        if ok {
          assert files == old(files)[target := old(files)[source]];
        }
      }
    }

    /** Removes target from the tree, keeping a copy; a missing target is no error. */
    method RemoveTreeEntry(target: File) returns (ok: bool)
      requires Journal() && target.TreeFile?
      modifies this`clock, this`files, this`nextId, this`undo, this`cleanup
      ensures Journal() && old(clock) <= clock && old(nextId) <= nextId
      ensures ok ==> SameTree(files, old(files) - {target})
      ensures !ok ==> Faulted(old(clock))
      ensures old(cleanup) <= cleanup
      ensures ok ==> forall f :: f in files && f !in old(files) ==> f in cleanup
    {
      hide RollsBack;
      var backup;
      ok, backup := BackupTreeEntry(target);
      if !ok {
        return;
      }
      if target !in files {
        assert files == files - {target};
        return;
      }
      ok := Unlink(target);
      if !ok {
        return;
      }
      RemoveUndoes(old(files), target, backup);
      assert files == WithBackup(old(files), target, backup) - {target};
      JournalStep(undo, UndoRemove(target, backup), old(files), files, base);
      undo := undo + [UndoRemove(target, backup)];
      cleanup := cleanup + if backup.Some? then [backup.value] else [];
    }

    /** Stores a row under its identity; another row with the same path is an integrity error. */
    method UpsertRow(id: Identity, row: Row) returns (ok: bool)
      modifies this`clock, this`rows
      ensures old(clock) < clock
      ensures ok ==> rows == old(rows)[id := row]
      ensures ok && UniquePlaces(old(rows)) ==> UniquePlaces(rows)
      ensures !ok ==> rows == old(rows)
      ensures !ok ==> Faulted(old(clock)) || !UniquePlaces(old(rows)[id := row])
    {
      var fault := Tick();
      var taken := exists other :: other in rows && other != id && rows[other].place == row.place;
      ok := !fault && !taken;
      if ok {
        rows := rows[id := row];
      } else if taken {
        ghost var other :| other in rows && other != id && rows[other].place == row.place;
        assert rows[id := row][other].place == rows[id := row][id].place;
      }
    }

    // ----- operations

    method WriteObject(data: string) returns (ok: bool, file: File)
      requires Journal()
      modifies this`clock, this`files, this`nextId, this`undo
      ensures Journal() && old(clock) <= clock && old(nextId) <= nextId && file.ObjectFile?
      ensures ok ==> file !in old(files) && files == old(files)[file := data]
      ensures !ok ==> Faulted(old(clock))
    {
      file := ObjectFile(nextId);
      assert IsFresh(file, nextId);
      nextId := nextId + 1;
      assert forall f :: IsFresh(f, nextId) ==> IsFresh(f, old(nextId));
      var fault := Tick();
      if fault {
        return false, file;
      }
      files := files[file := data];
      assert files - {file} == old(files);
      JournalStep(undo, UndoObject(file), old(files), files, base);
      undo := undo + [UndoObject(file)];
      ok := true;
    }

    /** Writes the content as a new object, links it into the tree, and removes the old entry. */
    method StoreContent(id: Identity, path: Path, data: string) returns (ok: bool)
      requires Journal() && AllPlaced(rows)
      modifies this`clock, this`files, this`nextId, this`undo, this`cleanup, this`objects
      ensures Journal() && old(clock) <= clock && old(nextId) <= nextId
      ensures ok ==> SameTree(files, Stored(rows, old(files), id, path, data))
      ensures !ok ==> Faulted(old(clock))
      ensures old(cleanup) <= cleanup
      ensures ok ==> id in objects && objects == old(objects)[id := objects[id]]
      ensures ok && id in rows && id in old(objects) ==> ObjectFile(old(objects)[id]) in cleanup
    {
      var file;
      ok, file := WriteObject(data);
      if !ok {
        return;
      }
      ok := ReplaceTreeEntry(TreeFile(path), file);
      if !ok {
        return;
      }
      ghost var replaced := files;
      ObjectsAreNotInTree(old(files), file, data, TreeFile(path), replaced);
      var moved := id in rows && rows[id].place != At(path);
      if moved {
        ok := RemoveTreeEntry(Location(rows[id].place));
        if !ok {
          return;
        }
      }
      SameTreeSteps(old(files), replaced, files, path, data, if moved then rows[id].place.path else path + "/", moved);
      if id in rows && id in objects {
        cleanup := cleanup + [ObjectFile(objects[id])];
      }
      objects := objects[id := file.id];
    }

    /** The file side of a put: a rename when the content is the same, new content otherwise. */
    method PutFile(id: Identity, row: Row, text: string) returns (ok: bool)
      requires Journal() && AllPlaced(rows) && row.place.At? && row.hash.data == text
      modifies this`clock, this`files, this`nextId, this`undo, this`cleanup, this`objects, this`overwrites
      ensures Journal() && old(clock) <= clock && old(nextId) <= nextId
      ensures ok ==> PutFiles(Now(), old(files), files, id, row)
      ensures !ok && (id in rows ==> Location(rows[id].place) in old(files)) ==> Faulted(old(clock))
      ensures !ok && !(id in rows && rows[id].hash == row.hash && rows[id].place != row.place) ==> Faulted(old(clock))
    {
      if id in rows && rows[id].hash == row.hash {
        ok := true;
        if rows[id].place != row.place {
          ok := RenameTreeFile(Location(rows[id].place), Location(row.place));
        }
      } else {
        ok := StoreContent(id, row.place.path, text);
      }
    }

    method PutEntry(w: Writer, op: Operation) returns (ok: bool)
      requires op.Put? && Journal() && Ready()
      modifies this`clock, this`files, this`nextId, this`undo, this`cleanup, this`rows, this`objects, this`lost, this`overwrites
      ensures Journal() && old(clock) <= clock && old(nextId) <= nextId
      ensures ok ==> LocallyOk(grants, old(Now()), w, op) && Now() == Step(old(Now()), w, op) && Ready()
      ensures ok && sound ==> FindsFile(old(Now()), w, op)
      ensures !ok && sound && FindsFile(old(Now()), w, op) ==>
        Faulted(old(clock)) || !LocallyOk(grants, old(Now()), w, op) || !UniquePlaces(Step(old(Now()), w, op).rows)
    {
      hide RollsBack, Agrees, FreshFrom;
      if !IsPath(op.path) || !Authorized(grants, w, op.path) || '\0' in op.text {
        return false;
      }
      var id, row := Identity(w, op.key), PutRow(op);
      if sound && id in rows { FileThereUnlessLost(Now(), files, id); }
      ok := PutFile(id, row, NormalizeText(op.text));
      if !ok {
        return;
      }
      ok := UpsertRow(id, row);
      if ok {
        if sound { PutKeepsAgreement(old(Now()), old(files), files, id, row); }
        lost := Step(old(Now()), w, op).lost;
      }
    }

    method DeleteEntry(w: Writer, op: Operation) returns (ok: bool)
      requires op.Delete? && Journal() && Ready()
      modifies this`clock, this`files, this`nextId, this`undo, this`cleanup, this`rows, this`lost
      ensures Journal() && old(clock) <= clock && old(nextId) <= nextId
      ensures ok ==> LocallyOk(grants, old(Now()), w, op) && Now() == Step(old(Now()), w, op) && Ready()
      ensures !ok ==> Faulted(old(clock)) || !LocallyOk(grants, old(Now()), w, op)
    {
      hide RollsBack, FreshFrom;
      var id := Identity(w, op.key);
      if id !in rows {
        assert rows - {id} == rows;
        lost := lost - {id};
        return true;
      }
      if !Authorized(grants, w, rows[id].place.path) {
        return false;
      }
      ok := RemoveTreeEntry(Location(rows[id].place));
      if !ok {
        return;
      }
      var fault := Tick();
      if fault {
        return false;
      }
      rows := rows - {id};
      lost := lost - {id};
      if sound {
        DeleteKeepsAgreement(old(Now()), old(files), id);
        AgreesDependsOnTree(Now(), old(files) - {Location(old(rows)[id].place)}, files);
      }
    }

    method RecordDecision(w: Writer, op: Operation) returns (ok: bool)
      requires op.Decide?
      modifies this`clock, this`decisions
      ensures old(clock) <= clock
      ensures ok ==> LocallyOk(grants, Now(), w, op)
      ensures ok ==> decisions == old(decisions)[Identity(w, op.key) := Decision(op.state, op.where, op.version)]
      ensures !ok ==> Faulted(old(clock)) || !LocallyOk(grants, Now(), w, op)
    {
      if op.where.Some? && (!IsPath(op.where.value) || !Authorized(grants, w, op.where.value)) {
        return false;
      }
      var fault := Tick();
      if fault {
        return false;
      }
      decisions := decisions[Identity(w, op.key) := Decision(op.state, op.where, op.version)];
      ok := true;
    }

    // ----- moves

    /** The state while files are being parked, whose rows still name their old paths. */
    ghost predicate Parking(parked: map<Path, nat>)
      reads this`rows, this`lost, this`files, this`nextId, this`sound
    {
      && UniquePlaces(rows) && AllPlaced(rows) && Injective(parked)
      && (forall p :: p in parked ==> parked[p] < nextId)
      && (sound ==> Agrees(View(ParkedRows(rows, parked), lost), files))
    }

    /** Parks the file at a path. */
    method ParkFile(path: Path, parked: map<Path, nat>) returns (ok: bool, id: nat)
      requires Journal() && Parking(parked) && path !in parked && TreeFile(path) in files
      modifies this`clock, this`files, this`nextId, this`undo, this`cleanup, this`overwrites
      ensures Journal() && old(clock) <= clock && old(nextId) <= id < nextId
      ensures ok ==> Parking(parked[path := id]) && files == Moved(old(files), TreeFile(path), UndoFile(id))
      ensures overwrites == old(overwrites)
      ensures !ok ==> Faulted(old(clock))
    {
      hide RollsBack, Agrees, FreshFrom;
      var temp := FreshUndoFile();
      id := temp.id;
      ok := RenameTreeFile(TreeFile(path), temp);
      if ok {
        assert Injective(parked[path := id]);
        if sound { ParkingFileKeepsAgreement(rows, lost, parked, old(files), path, id); }
      }
    }

    /** Parks one file per cycle: the file at the destination of the cycle's first node. */
    method BreakMoveCycles(cycles: seq<seq<Path>>, dest: map<Path, Path>) returns (ok: bool, parked: map<Path, nat>)
      requires Journal() && Ready() && ListsEachCycleOnce(cycles, dest)
      modifies this`clock, this`files, this`nextId, this`undo, this`cleanup, this`overwrites
      ensures Journal() && old(clock) <= clock && old(nextId) <= nextId
      ensures Injective(parked)
      ensures overwrites == old(overwrites) && (ok && sound ==> Agrees(View(ParkedRows(rows, parked), lost), files))
      ensures ok ==> ParkedSoFar(cycles, dest, |cycles|, old(files), parked.Keys)
      ensures !ok ==> Faulted(old(clock))
    {
      parked := map[];
      assert ParkedRows(rows, parked) == rows;
      for n := 0 to |cycles|
        invariant Journal() && old(clock) <= clock && old(nextId) <= nextId
        invariant Parking(parked) && overwrites == old(overwrites)
        invariant OnlyParkedLeft(old(files), files, parked) && ParkedSoFar(cycles, dest, n, old(files), parked.Keys)
      {
        var sourcePath := dest[cycles[n][0]];
        NameIsNew(cycles, dest, n, old(files), parked.Keys);
        if TreeFile(sourcePath) in files {
          ghost var before := files;
          var id;
          ok, id := ParkFile(sourcePath, parked);
          if !ok {
            return;
          }
          ParkingFileLeaves(old(files), before, parked, sourcePath, id);
          parked := parked[sourcePath := id];
        }
      }
      ok := true;
    }

    /** Gives the rows whose files are parked a path of their own. */
    method ParkRows(parked: map<Path, nat>, owner: map<Path, Identity>) returns (ok: bool)
      requires UniquePlaces(rows) && AllPlaced(rows) && Injective(parked)
      requires forall p :: p in parked ==> p in owner && owner[p] in rows && rows[owner[p]].place == At(p)
      modifies this`clock, this`rows
      ensures old(clock) <= clock
      ensures ok ==> rows == ParkedRows(old(rows), parked)
      ensures !ok ==> Faulted(old(clock))
    {
      var todo := parked.Keys;
      assert ParkedRows(rows, parked - todo) == rows;
      while todo != {}
        invariant todo <= parked.Keys && old(clock) <= clock
        invariant rows == ParkedRows(old(rows), parked - todo)
        decreases todo
      {
        var p :| p in todo;
        ParkRowStep(old(rows), parked, todo, p, owner[p]);
        ok := UpsertRow(owner[p], rows[owner[p]].(place := CyclePark(parked[p])));
        if !ok {
          return;
        }
        todo := todo - {p};
      }
      assert parked - todo == parked;
      ok := true;
    }

    /**
     One move: renames the source, when there is one, to the destination and rewrites the row.
     Without a source the file stays parked, and the entry is lost.
     */
    method MoveEntry(id: Identity, m: Operation, source: Option<File>) returns (ok: bool)
      requires Journal() && UniquePlaces(rows) && (sound ==> Agrees(Now(), files))
      requires m.Move? && id in rows
      requires sound && id in lost ==> rows[id].place.At?
      requires source.None? && sound && id !in lost ==> rows[id].place.CyclePark?
      requires source.Some? ==> source.value == Location(rows[id].place) && rows[id].place != At(m.path)
      modifies this`clock, this`files, this`nextId, this`undo, this`cleanup, this`rows, this`lost, this`overwrites
      ensures Journal() && old(clock) <= clock && old(nextId) <= nextId
      ensures ok ==> UniquePlaces(rows) && (sound ==> Agrees(Now(), files))
      ensures sound && (forall other :: other in old(rows) && other !in old(lost) ==> old(rows)[other].place != At(m.path)) ==>
        overwrites == old(overwrites)
      ensures ok && sound ==> overwrites == old(overwrites)
      ensures ok ==> rows == old(rows)[id := MovedRow(old(rows)[id], m)]
      ensures ok ==> lost == if source.None? then old(lost) + {id} else old(lost)
      ensures !ok ==> Faulted(old(clock)) || !UniquePlaces(old(rows)[id := MovedRow(old(rows)[id], m)])
    {
      hide RollsBack, Agrees, FreshFrom;
      if sound && id !in lost { RowHasFile(Now(), files, id); }
      if sound && id in lost { LostFileIsGone(Now(), files, id); }
      if source.Some? && source.value in files {
        ExistingIsNotFresh(files, undo, nextId, source.value);
        if sound && TreeFile(m.path) in files {
          LiveFileHasEntry(Now(), files, m.path);
          LiveFileMeansTaken(Now(), files, id, MovedRow(rows[id], m));
        }
        ok := RenameTreeFile(source.value, TreeFile(m.path));
        if !ok {
          return;
        }
      }
      var row := MovedRow(rows[id], m);
      assert sound && id !in lost ==> MoveFiles(old(Now()), old(files), files, id, m, source);
      ok := UpsertRow(id, row);
      if ok {
        if sound && id !in lost { MoveKeepsAgreement(old(Now()), old(files), files, id, m, source); }
        if sound && id in lost {
          assert lost + {id} == lost;
          MoveLostKeepsAgreement(old(Now()), old(files), id, row);
        }
        lost := if source.None? then lost + {id} else lost;
      }
    }

    /** Runs the moves of a batch whose cycles have been parked, in order. */
    method RunMoves(
      w: Writer, moves: seq<Operation>, entries: Rows, parked: map<Path, nat>,
      ghost dest: map<Path, Path>, ghost cycles: seq<seq<Path>>) returns (ok: bool)
      requires Journal() && UniquePlaces(entries) && AllPlaced(entries) && Injective(parked)
      requires AllMoves(moves) && DistinctKeys(moves) && AllKnown(entries, w, moves)
      requires rows == ParkedRows(entries, parked)
      requires sound ==> ParksLivingSelfMoves(View(entries, lost), w, moves, parked) && Agrees(Now(), files)
      requires sound ==> ReadyToRun(View(entries, lost), w, moves, dest, cycles, parked)
      modifies this`clock, this`files, this`nextId, this`undo, this`cleanup, this`rows, this`lost, this`overwrites
      ensures Journal() && old(clock) <= clock && old(nextId) <= nextId
      ensures ok ==> UniquePlaces(rows) && (sound ==> Agrees(Now(), files) && overwrites == old(overwrites))
      ensures ok ==> rows == Running(entries, w, moves, parked, |moves|)
      ensures ok ==> lost == After(View(entries, old(lost)), w, moves).lost
      ensures ok && sound ==> !MeetsLost(View(entries, old(lost)), w, moves)
      ensures sound && RunsInOrder(entries, w, moves, dest) ==>
        overwrites == old(overwrites) && (ok || Faulted(old(clock)) || MeetsLost(View(entries, old(lost)), w, moves))
    {
      hide Agrees, RollsBack, FreshFrom, ReadyToRun, DependencyOrdered, Running, After, MeetsLostAt;
      ghost var v := View(entries, lost);
      ghost var inOrder := sound && RunsInOrder(entries, w, moves, dest);
      NoMovesYet(v, w, moves);
      ParkingKeepsPathsUnique(entries, parked);
      RunningStart(entries, w, moves, parked);
      for i := 0 to |moves|
        invariant Journal() && old(clock) <= clock && old(nextId) <= nextId
        invariant UniquePlaces(rows) && (sound ==> Agrees(Now(), files) && overwrites == old(overwrites))
        invariant rows == Running(entries, w, moves, parked, i)
        invariant lost == After(v, w, moves[..i]).lost && v.lost <= lost
        invariant sound ==> forall j: nat, l: nat :: j < i ==> !MeetsLostAt(v, w, moves, j, l)
      {
        var m := moves[i];
        var id := Identity(w, m.key);
        assert m in moves;
        RunningStep(entries, w, moves, parked, i);
        LostStep(v, w, moves, i);
        var entryPath := entries[id].place.path;
        var source := None;
        if entryPath != m.path {
          source := Some(if entryPath in parked then UndoFile(parked[entryPath]) else TreeFile(entryPath));
        }
        if inOrder {
          NextMoveKeepsPathsUniqueIff(v, w, moves, dest, cycles, parked, i);
          DestinationVacated(v, w, moves, dest, cycles, parked, i);
        }
        ok := MoveEntry(id, m, source);
        if !ok {
          return;
        }
        if sound { MovedMeetsNothing(v, w, moves, parked, i); }
      }
      assert moves[..|moves|] == moves;
      if sound { NothingMet(v, w, moves); }
      ok := true;
    }

    method ValidateMoves(w: Writer, moves: seq<Operation>) returns (ok: bool)
      requires AllMoves(moves) && AllPlaced(rows)
      ensures ok <==> forall m :: m in moves ==> LocallyOk(grants, Now(), w, m)
    {
      for i := 0 to |moves|
        invariant forall j :: 0 <= j < i ==> LocallyOk(grants, Now(), w, moves[j])
      {
        var m := moves[i];
        var id := Identity(w, m.key);
        assert m in moves;
        ok := IsPath(m.path) && Authorized(grants, w, m.path) && id in rows
          && Authorized(grants, w, rows[id].place.path) && rows[id].hash == m.expected;
        if !ok {
          return;
        }
      }
      ok := true;
    }

    /** The sources of the moves, their destinations by source, and the identities by source. */
    method IndexMoves(w: Writer, moves: seq<Operation>)
      returns (sources: seq<Path>, dest: map<Path, Path>, owner: map<Path, Identity>)
      requires AllMoves(moves) && DistinctKeys(moves) && AllKnown(rows, w, moves) && UniquePlaces(rows)
      ensures sources == Sources(rows, w, moves) && IsDestinations(dest, rows, w, moves)
      ensures forall p :: p in dest <==> p in sources
      ensures forall p :: p in dest ==> p in owner && owner[p] in rows && rows[owner[p]].place == At(p)
    {
      sources, dest, owner := [], map[], map[];
      for i := 0 to |moves|
        invariant |sources| == i && forall j :: 0 <= j < i ==> sources[j] == SourcePath(rows, w, moves[j])
        invariant forall p :: p in dest <==> p in sources
        invariant forall j :: 0 <= j < i ==> dest[sources[j]] == moves[j].path
        invariant forall p :: p in dest ==> p in owner && owner[p] in rows && rows[owner[p]].place == At(p)
      {
        assert moves[i] in moves;
        var id := Identity(w, moves[i].key);
        var path := rows[id].place.path;
        SourceIsNew(rows, w, moves, i);
        sources := sources + [path];
        dest := dest[path := moves[i].path];
        owner := owner[path := id];
      }
      forall m | m in moves ensures SourcePath(rows, w, m) in dest && dest[SourcePath(rows, w, m)] == m.path {
        var j :| 0 <= j < |moves| && moves[j] == m;
        assert sources[j] in sources;
      }
    }

    /** Finds the cycles of a validated batch and parks one file and row of each. */
    method ParkCycles(w: Writer, moves: seq<Operation>)
      returns (ok: bool, parked: map<Path, nat>, dest: map<Path, Path>, cycles: seq<seq<Path>>)
      requires AllMoves(moves) && DistinctKeys(moves) && AllKnown(rows, w, moves) && Journal() && Ready()
      modifies this`clock, this`files, this`nextId, this`undo, this`cleanup, this`rows, this`overwrites
      ensures Journal() && old(clock) <= clock && old(nextId) <= nextId
      ensures ok ==> rows == ParkedRows(old(rows), parked) && Injective(parked) && IsDestinations(dest, old(rows), w, moves)
      ensures ok && sound ==> ParksLivingSelfMoves(old(Now()), w, moves, parked) && Agrees(Now(), files)
      ensures ok && sound ==> ReadyToRun(old(Now()), w, moves, dest, cycles, parked)
      ensures overwrites == old(overwrites)
      ensures ok ==> forall p :: p in parked ==> p in Sources(old(rows), w, moves)
      ensures !ok ==> Faulted(old(clock))
    {
      hide ListsEachCycleOnce, Entered, RollsBack, FreshFrom, Agrees, ReadyToRun, ParkedSoFar;
      var sources, owner;
      sources, dest, owner := IndexMoves(w, moves);
      cycles := MoveCycles(sources, dest);
      ok, parked := BreakMoveCycles(cycles, dest);
      if !ok {
        return;
      }
      ParkedAreSources(cycles, dest, old(files), parked);
      if sound { LivingSelfMovesAreParked(Now(), old(files), w, moves, cycles, dest, parked); }
      if sound { CyclesAreParked(Now(), old(files), w, moves, cycles, dest, parked); }
      ok := ParkRows(parked, owner);
    }

    /** Renames a batch of entries simultaneously. */
    method MoveBatch(w: Writer, moves: seq<Operation>) returns (ok: bool)
      requires AllMoves(moves) && DistinctKeys(moves) && Journal() && Ready()
      modifies this`clock, this`files, this`nextId, this`undo, this`cleanup, this`rows, this`lost, this`overwrites
      ensures Journal() && old(clock) <= clock && old(nextId) <= nextId
      ensures ok ==> BatchOk(grants, old(Now()), w, moves) && Now() == After(old(Now()), w, moves) && Ready()
      ensures ok && sound ==> overwrites == old(overwrites) && !MeetsLost(old(Now()), w, moves)
      ensures sound && RunnableIn(old(rows), w, moves) && BatchOk(grants, old(Now()), w, moves) ==>
        overwrites == old(overwrites) && (ok || Faulted(old(clock)) || MeetsLost(old(Now()), w, moves))
    {
      hide RollsBack, FreshFrom, Agrees, ReadyToRun, MeetsLost, DependencyOrdered, After, Running, ParksLivingSelfMoves;
      ok := ValidateMoves(w, moves);
      if !ok {
        return;
      }
      var entries := rows;
      var parked, dest, cycles;
      ok, parked, dest, cycles := ParkCycles(w, moves);
      if !ok {
        return;
      }
      RowsIgnoreLost(entries, {}, old(lost), w, moves);
      ok := RunMoves(w, moves, entries, parked, dest, cycles);
      if ok {
        ParkingLeavesNoTrace(entries, w, moves, parked);
        MovesPlaceEveryRow(old(Now()), w, moves);
      }
    }

    // ----- submissions

    method RejectDuplicateMoveSources(ops: seq<Operation>) returns (ok: bool)
      ensures ok <==> DistinctKeys(OfKind(ops, MoveKind))
    {
      var seen: set<SourceKey> := {};
      for i := 0 to |ops|
        invariant DistinctKeys(OfKind(ops[..i], MoveKind))
        invariant forall k :: k in seen <==> HasKey(OfKind(ops[..i], MoveKind), k)
      {
        OneMoreOfKind(ops, i);
        if ops[i].Move? {
          if ops[i].key in seen {
            DuplicateStays(OfKind(ops[..i], MoveKind), ops[i], OfKind(ops[i + 1..], MoveKind));
            return false;
          }
          HasKeyAppend(OfKind(ops[..i], MoveKind), ops[i]);
          seen := seen + {ops[i].key};
        }
      }
      assert ops[..|ops|] == ops;
      ok := true;
    }

    /** The moves of a submission, sorted so that each runs after the one that vacates its path. */
    method OrderMoves(w: Writer, moves: seq<Operation>) returns (ordered: seq<Operation>)
      requires AllMoves(moves) && DistinctKeys(moves) && UniquePlaces(rows) && AllPlaced(rows)
      ensures DistinctKeys(ordered) && (forall m :: m in ordered <==> m in moves)
      ensures RunnableIn(rows, w, ordered)
      ensures ordered == if |moves| < 2 then moves else DepthFirst(moves, Dependencies(rows, w, moves))
    {
      if |moves| < 2 {
        OneMoveIsRunnable(rows, w, moves);
        return moves;
      }
      hide DepthFirst, SuccessorsFirst, RunnableIn, Dependencies, IndexedBySource, IsDependency, UniquePlaces;
      var bySource := IndexBySource(w, moves);
      var dependency := DependencyOf(w, moves, bySource);
      ordered := SortMoves(moves, dependency);
      assert forall m :: m in ordered <==> m in Elements(ordered);
      DistinctMovesHaveDistinctKeys(moves, ordered);
      SortedByIndex(rows, w, moves, ordered, bySource, dependency);
    }

    /** For each move, the one that vacates its destination. */
    method DependencyOf(w: Writer, moves: seq<Operation>, bySource: map<Path, Operation>)
      returns (dependency: map<Operation, Operation>)
      requires DistinctKeys(moves) && UniquePlaces(rows) && IndexedBySource(bySource, rows, w, moves)
      ensures IsDependency(dependency, bySource, moves) && dependency == Dependencies(rows, w, moves)
    {
      hide Dependencies, IndexedBySource, UniquePlaces, DistinctKeys;
      KeysNameMoves(moves);
      dependency := map m | m in moves && m.Move? && m.path in bySource && bySource[m.path] != m :: bySource[m.path];
      DependencyIsDetermined(rows, w, moves, bySource, dependency);
    }

    /** The moves whose entries are known, by the path of the entry. */
    method IndexBySource(w: Writer, moves: seq<Operation>) returns (bySource: map<Path, Operation>)
      requires AllMoves(moves) && DistinctKeys(moves) && UniquePlaces(rows) && AllPlaced(rows)
      ensures IndexedBySource(bySource, rows, w, moves)
    {
      bySource := map[];
      for i := 0 to |moves|
        invariant IndexedBySource(bySource, rows, w, moves[..i])
      {
        var m := moves[i];
        assert moves[..i + 1] == moves[..i] + [m];
        assert m in moves;
        if Identity(w, m.key) in rows {
          bySource := bySource[rows[Identity(w, m.key)].place.path := m];
        }
      }
      assert moves[..|moves|] == moves;
    }

    /** The rows and journal of a submission that is being applied. */
    ghost predicate Applying(plan: Plan, index: nat)
      reads this
    {
      && plan.WellFormed() && plan.grants == grants
      && Journal() && Ready() && plan.Reached(index, Now(), sound) && EntriesGranted(rows, grants)
    }

    /** The run of moves that starts at index. */
    method MovesFrom(plan: Plan, index: nat) returns (moves: seq<Operation>, next: nat)
      requires plan.WellFormed() && index < |plan.Ordered()| && plan.Ordered()[index].Move? && index <= |plan.deletes|
      ensures moves == plan.moves && next == |plan.deletes| + |plan.moves| && index == |plan.deletes| && moves != []
      ensures index < next <= |plan.Ordered()| && forall i :: index <= i < next ==> plan.Ordered()[i].Move?
    {
      var ordered := plan.Ordered();
      plan.StageOf(index);
      moves, next := [], index;
      while next < |ordered| && ordered[next].Move?
        invariant index <= next <= |ordered| && next - index <= |plan.moves|
        invariant moves == plan.moves[..next - index] && forall i :: index <= i < next ==> ordered[i].Move?
      {
        plan.StageOf(next);
        moves := moves + [ordered[next]];
        next := next + 1;
      }
      if next < |ordered| { plan.StageOf(next); }
      assert moves == plan.moves;
    }

    /** Collects the moves from index on and applies them as one batch. */
    method ApplyMoves(plan: Plan, index: nat) returns (ok: bool, next: nat)
      requires Applying(plan, index) && index < |plan.Ordered()| && plan.Ordered()[index].Move?
      requires RunnableIn(plan.rows, plan.w, plan.moves) && index <= |plan.deletes|
      modifies this`clock, this`files, this`nextId, this`undo, this`cleanup, this`rows, this`lost, this`overwrites
      ensures Journal() && old(clock) <= clock && old(nextId) <= nextId
      ensures ok ==> Applying(plan, next) && index < next <= |plan.Ordered()| && next == |plan.deletes| + |plan.moves|
      ensures ok && sound ==> overwrites == old(overwrites)
      ensures ok ==> forall i :: index <= i < next ==> plan.Ordered()[i].Move?
      ensures !ok && sound ==> Faulted(old(clock)) || !plan.Applicable()
    {
      var moves;
      moves, next := MovesFrom(plan, index);
      plan.DeletesOnlyRemove(index, Now(), sound);
      RunnableAfterDeletes(plan.rows, rows, plan.w, moves);
      ok := MoveBatch(plan.w, moves);
      if ok {
        plan.ReachAfterMoves(old(Now()), sound);
        BatchKeepsGranted(grants, old(Now()), plan.w, moves);
      }
      if !ok && sound && !Faulted(old(clock)) { plan.BlockedBatch(old(Now()), sound); }
    }

    /** Applies the operation at index, or the batch of moves that starts there. */
    method ApplyStep(plan: Plan, index: nat, ghost decisions0: map<Identity, Decision>) returns (ok: bool, next: nat)
      requires Applying(plan, index) && index < |plan.Ordered()| && decisions == plan.DecidedBy(decisions0, index)
      requires RunnableIn(plan.rows, plan.w, plan.moves)
      requires index <= |plan.deletes| || index >= |plan.deletes| + |plan.moves|
      modifies this`clock, this`files, this`nextId, this`undo, this`cleanup, this`rows, this`lost, this`overwrites
      modifies this`objects, this`decisions
      ensures Journal() && old(clock) <= clock && old(nextId) <= nextId
      ensures ok ==> Applying(plan, next) && index < next <= |plan.Ordered()|
      ensures ok ==> next <= |plan.deletes| || next >= |plan.deletes| + |plan.moves|
      ensures ok ==> decisions == plan.DecidedBy(decisions0, next)
      ensures !ok && sound ==> Faulted(old(clock)) || !plan.Applicable()
    {
      hide Agrees, RollsBack, FreshFrom, RunnableIn, EntriesGranted, Plan.Reached, Plan.DecidedBy;
      var op := plan.Ordered()[index];
      plan.StageOf(index);
      next := index + 1;
      if op.Put? {
        ok := PutEntry(plan.w, op);
        if ok {
          plan.ReachNextOfRest(index, old(Now()), op, sound);
          StepKeepsGranted(grants, old(Now()), plan.w, op);
        }
        if !ok && !Faulted(old(clock)) && sound { plan.BlockedRest(index, old(Now()), op, sound); }
      } else if op.Move? {
        ok, next := ApplyMoves(plan, index);
      } else if op.Delete? {
        ok := DeleteEntry(plan.w, op);
        if ok {
          plan.ReachNextDelete(index, old(Now()), sound);
          StepKeepsGranted(grants, old(Now()), plan.w, op);
        }
        if !ok && !Faulted(old(clock)) { plan.BlockedDelete(index, old(Now()), sound); }
      } else {
        ok := RecordDecision(plan.w, op);
        if ok {
          plan.ReachNextOfRest(index, old(Now()), op, sound);
          StepKeepsGranted(grants, old(Now()), plan.w, op);
        }
        if !ok && !Faulted(old(clock)) && sound { plan.BlockedRest(index, old(Now()), op, sound); }
      }
      if ok { plan.DecidedStep(decisions0, index, next); }
    }

    /** Everything inside submit's try block up to the commit. */
    method ApplyOrdered(plan: Plan) returns (ok: bool)
      requires Applying(plan, 0) && RunnableIn(plan.rows, plan.w, plan.moves)
      modifies this`clock, this`files, this`nextId, this`undo, this`cleanup, this`rows, this`lost, this`overwrites
      modifies this`objects, this`decisions
      ensures Journal() && old(clock) <= clock && old(nextId) <= nextId
      ensures ok ==> Ready() && EntriesGranted(rows, grants) && plan.Acceptable() && Now() == plan.Final()
      ensures ok ==> (sound ==> plan.Applicable()) && decisions == plan.DecidedBy(old(decisions), |plan.Ordered()|)
      ensures !ok && sound ==> Faulted(old(clock)) || !plan.Applicable()
    {
      hide Agrees, RollsBack, FreshFrom, RunnableIn, EntriesGranted, UniquePlaces, AllPlaced;
      var index := 0;
      while index < |plan.Ordered()|
        invariant index <= |plan.Ordered()| && Applying(plan, index)
        invariant decisions == plan.DecidedBy(old(decisions), index)
        invariant index <= |plan.deletes| || index >= |plan.deletes| + |plan.moves|
        invariant old(clock) <= clock && old(nextId) <= nextId
      {
        ok, index := ApplyStep(plan, index, old(decisions));
        if !ok {
          return;
        }
      }
      plan.Finished(Now(), sound);
      var fault := Tick();
      ok := !fault;
    }

    method PutFileBack(backup: Option<File>, target: File) returns (ok: bool)
      modifies this`clock, this`files
      ensures old(clock) <= clock
      ensures backup.Some? && backup.value in old(files) && ok ==> files == PutBack(old(files), backup, target)
      ensures backup.None? ==> ok && files == old(files)
      ensures !ok ==> Faulted(old(clock)) || backup.value !in old(files)
      ensures forall f :: f in files ==> f in old(files) || f == target
    {
      if backup.None? {
        return true;
      }
      var fault := Tick();
      if fault {
        return false;
      }
      ok := Replace(backup.value, target);
    }

    /** One undo action, primitive by primitive. */
    method UndoStep(u: Undo) returns (ok: bool)
      modifies this`clock, this`files
      ensures old(clock) <= clock
      ensures CanUndo(u, old(files)) && ok ==> files == Undone(u, old(files))
      ensures CanUndo(u, old(files)) && !ok ==> Faulted(old(clock))
      ensures forall f :: f in files ==> f in old(files) || Mentions(u, f)
    {
      match u
      case UndoObject(file) =>
        ok := UnlinkIfExists(Some(file));
      case UndoReplace(target, backup) =>
        if backup.None? {
          ok := UnlinkIfExists(Some(target));
        } else {
          ok := PutFileBack(backup, target);
        }
      case UndoRename(source, target, backup) =>
        ok := true;
        var fault := Tick();
        if fault {
          return false;
        }
        if target in files {
          ok := Replace(target, source);
        }
        if ok {
          ok := PutFileBack(backup, target);
        }
      case UndoRemove(target, backup) =>
        ok := PutFileBack(backup, target);
    }

    /** Undoes the journal from its end, carrying on past failures. */
    method Rollback() returns (clean: bool)
      requires Journal()
      modifies this`clock, this`files
      ensures old(clock) <= clock && FreshFrom(files, [], nextId)
      ensures clean ==> SameTree(files, base)
      ensures !clean ==> Faulted(old(clock))
    {
      clean := true;
      var i := |undo|;
      assert undo[..i] == undo;
      while i > 0
        invariant 0 <= i <= |undo| && old(clock) <= clock && FreshFrom(files, undo, nextId)
        invariant clean ==> RollsBack(undo[..i], files, base)
        invariant !clean ==> Faulted(old(clock))
      {
        i := i - 1;
        assert undo[..i + 1][..i] == undo[..i] && undo[i] in undo;
        var ok := UndoStep(undo[i]);
        clean := clean && ok;
      }
    }

    /** Removes what the submission has no more use for; failures are only logged. */
    method Cleanup()
      requires FreshFrom(files, [], nextId) && forall f :: f in cleanup ==> !f.TreeFile?
      modifies this`clock, this`files
      ensures old(clock) <= clock && SameTree(files, old(files)) && FreshFrom(files, [], nextId)
      ensures forall f :: f in files ==> f in old(files) && files[f] == old(files)[f]
      ensures Faulted(old(clock)) || forall f :: f in cleanup ==> f !in files
    {
      for i := 0 to |cleanup|
        invariant old(clock) <= clock && SameTree(files, old(files)) && FreshFrom(files, [], nextId)
        invariant forall f :: f in files ==> f in old(files) && files[f] == old(files)[f]
        invariant Faulted(old(clock)) || forall j :: 0 <= j < i ==> cleanup[j] !in files
      {
        ghost var before := files;
        assert !cleanup[i].TreeFile?;
        var ok := UnlinkIfExists(Some(cleanup[i]));
        assert forall p: Path :: Lookup(files, TreeFile(p)) == Lookup(before, TreeFile(p));
      }
    }

    /** Orders a submission and runs it dry. */
    method PlanSubmission(w: Writer, ops: seq<Operation>) returns (ok: bool, plan: Plan)
      requires UniquePlaces(rows) && AllPlaced(rows)
      ensures ok ==> plan.WellFormed() && plan.grants == grants && plan.Start() == Now() && plan.w == w
      ensures ok ==> RunnableIn(rows, w, plan.moves) && plan.moves == RunOrder(rows, w, ops) && plan.rest == Rest(ops)
      ensures ok ==> (plan.Acceptable() <==> Accepted(grants, plan.Start(), w, ops)) && plan.Final() == Outcome(plan.Start(), w, ops)
      ensures ok ==> (plan.Unhindered() <==> Unhindered(plan.Start(), w, ops))
      ensures !ok ==> !Accepted(grants, Now(), w, ops)
    {
      hide AllOk, BatchOk, AllFind, After, RunnableIn, MeetsLost, DepthFirst, Dependencies;
      plan := Plan(grants, rows, lost, w, [], [], []);
      ok := RejectDuplicateMoveSources(ops);
      if !ok {
        return;
      }
      var moves := OrderMoves(w, OfKind(ops, MoveKind));
      plan := Plan(grants, rows, lost, w, OfKind(ops, DeleteKind), moves, Rest(ops));
      assert AllMoves(moves);
      AcceptedInAnyMoveOrder(grants, plan.Start(), w, ops, moves);
      ok := PreflightSubmission(plan);
    }

    /** The body of submit's try block. */
    method TrySubmission(w: Writer, ops: seq<Operation>, ghost start: View) returns (ok: bool)
      requires Begun(start)
      modifies this`clock, this`files, this`nextId, this`undo, this`cleanup, this`rows, this`lost, this`overwrites
      modifies this`objects, this`decisions
      ensures Journal() && old(clock) <= clock && old(nextId) <= nextId
      ensures ok ==> Ready() && EntriesGranted(rows, grants)
      ensures ok ==> Accepted(grants, start, w, ops) && Now() == Outcome(start, w, ops)
      ensures ok ==> decisions == Decided(old(decisions), w, OfKind(ops, DecideKind))
      ensures ok && sound ==> Applicable(grants, start, w, ops)
      ensures !ok && sound ==> Faulted(old(clock)) || !Applicable(grants, start, w, ops)
    {
      hide Agrees, RollsBack, FreshFrom, RunnableIn, EntriesGranted, UniquePlaces, AllPlaced, Accepted, Outcome, Unhindered;
      EmptyJournal(files);
      var plan;
      ok, plan := PlanSubmission(w, ops);
      if ok {
        plan.Begin(sound);
        ok := ApplyOrdered(plan);
        plan.DecidedInTheEnd(old(decisions), OfKind(ops, PutKind), OfKind(ops, DecideKind));
      }
    }

    /** A submission has been recorded, its journal is empty, and nothing has been applied. */
    ghost predicate Begun(start: View)
      reads this
    {
      && Consistent() && undo == [] && cleanup == [] && base == files
      && start == Now() && (sound <==> Agrees(start, files))
    }

    /** The failure path: the rows go back with the transaction, the files with the journal. */
    method UndoSubmission(
      rows0: Rows, objects0: map<Identity, nat>, decisions0: map<Identity, Decision>, ghost lost0: set<Identity>)
      returns (clean: bool)
      requires Journal() && AllPlaced(rows0) && (sound ==> Agrees(View(rows0, lost0), base))
      modifies this`clock, this`files, this`rows, this`lost, this`objects, this`decisions
      ensures old(clock) <= clock && FreshFrom(files, [], nextId)
      ensures rows == rows0 && lost == lost0 && decisions == decisions0
      ensures clean ==> SameTree(files, base) && (sound ==> Agrees(Now(), files))
      ensures !clean ==> Faulted(old(clock))
    {
      hide RollsBack;
      rows, objects, decisions := rows0, objects0, decisions0;
      lost := lost0;
      clean := Rollback();
      if clean && sound {
        SameTreeTrans(files, base, base);
        AgreesDependsOnTree(Now(), base, files);
      }
    }

    /** Removing backups and superseded objects disturbs no agreement. */
    method CleanupKeepsAgreement(ghost before: Files)
      requires FreshFrom(files, [], nextId) && AllPlaced(rows) && forall f :: f in cleanup ==> !f.TreeFile?
      modifies this`clock, this`files
      ensures old(clock) <= clock && FreshFrom(files, [], nextId) && SameTree(files, old(files))
      ensures old(Agrees(Now(), files)) ==> Agrees(Now(), files)
      ensures SameTree(old(files), before) ==> SameTree(files, before)
    {
      Cleanup();
      SameTreeTrans(files, old(files), before);
      if old(Agrees(Now(), files)) {
        SameTreeTrans(files, old(files), files);
        AgreesDependsOnTree(Now(), old(files), files);
      }
    }

    /** The try block, its failure path, and the cleanup that follows either. */
    method RunSubmission(w: Writer, ops: seq<Operation>, ghost start: View) returns (result: SubmitResult, ghost times: Times)
      requires Begun(start)
      modifies this`clock, this`files, this`nextId, this`undo, this`cleanup, this`rows, this`lost, this`overwrites
      modifies this`objects, this`decisions
      ensures old(clock) <= times.undoing <= times.cleaning <= clock && Consistent()
      ensures result.Applied? ==> Accepted(grants, start, w, ops) && Now() == Outcome(start, w, ops)
      ensures result.Applied? ==> decisions == Decided(old(decisions), w, OfKind(ops, DecideKind))
      ensures result.Applied? && sound ==> Agrees(Now(), files) && Applicable(grants, start, w, ops)
      ensures result.Failed? ==> SameTree(files, base) && (sound ==> Agrees(Now(), files))
      ensures !result.Applied? ==> Now() == start && decisions == old(decisions)
      ensures !result.Applied? && sound ==>
        FaultedBetween(old(clock), times.undoing) || !Applicable(grants, start, w, ops)
      ensures result.RollbackFailed? ==> FaultedBetween(times.undoing, times.cleaning)
    {
      hide Accepted, Outcome, Unhindered, Agrees, UniquePlaces, RollsBack;
      var rows0, objects0, decisions0 := rows, objects, decisions;
      ghost var lost0 := lost;
      var ok := TrySubmission(w, ops, start);
      result := Applied;
      times := Times(clock, clock);
      if !ok {
        var clean := UndoSubmission(rows0, objects0, decisions0, lost0);
        result := if clean then Failed else RollbackFailed;
        times := times.(cleaning := clock);
      }
      CleanupKeepsAgreement(base);
    }

    /** Records the submission as queued, with a fresh id and an empty journal. */
    method BeginSubmission() returns (id: nat)
      requires Consistent()
      modifies this`nextId, this`submissions, this`undo, this`cleanup, this`base, this`sound
      ensures Begun(Now()) && id == old(nextId)
      ensures submissions == old(submissions)[id := Queued]
    {
      id := nextId;
      nextId := nextId + 1;
      assert forall f :: IsFresh(f, nextId) ==> IsFresh(f, old(nextId));
      submissions := submissions[id := Queued];
      undo, cleanup, base := [], [], files;
      sound := Agrees(Now(), files);
    }

    /**
     Applies a submission as a whole or not at all.  Failing leaves rows, decisions and tree as
     they were, in every state and at every fault, unless undoing itself meets a fault.
     */
    method Submit(w: Writer, ops: seq<Operation>) returns (result: SubmitResult, id: nat, ghost times: Times)
      requires Consistent()
      modifies this
      ensures Consistent() && grants == old(grants)
      ensures old(clock) <= times.undoing <= times.cleaning <= clock
      ensures submissions == old(submissions)[id := if result.Applied? then AppliedState else FailedState]
      ensures result.Applied? ==> Accepted(grants, old(Now()), w, ops) && Now() == Outcome(old(Now()), w, ops)
      ensures result.Applied? ==> decisions == Decided(old(decisions), w, OfKind(ops, DecideKind))
      ensures result.Applied? && old(Healthy()) ==> Healthy() && Applicable(grants, old(Now()), w, ops)
      ensures result.Failed? ==> SameTree(files, old(files)) && (old(Healthy()) ==> Healthy())
      ensures !result.Applied? ==> Now() == old(Now()) && decisions == old(decisions)
      ensures !result.Applied? && old(Healthy()) ==>
        FaultedBetween(old(clock), times.undoing) || !Applicable(grants, old(Now()), w, ops)
      ensures result.RollbackFailed? ==> FaultedBetween(times.undoing, times.cleaning)
    {
      hide Accepted, Outcome, Unhindered, Agrees, UniquePlaces;
      id := BeginSubmission();
      OutcomeLosesKnownEntries(Now(), w, ops);
      result, times := RunSubmission(w, ops, Now());
      submissions := submissions[id := if result.Applied? then AppliedState else FailedState];
    }

    // ----- prefixes and reads

    /** Grants a prefix unless it overlaps one of another writer. */
    method RegisterPrefix(w: Writer, prefix: Path) returns (ok: bool)
      requires Consistent()
      modifies this`grants
      ensures Consistent() && (old(Healthy()) ==> Healthy())
      ensures ok <==> Grantable(old(grants), w, prefix)
      ensures grants == if ok then old(grants) + {Grant(w, prefix)} else old(grants)
    {
      ok := IsPath(prefix) && forall g :: g in grants && g.writer != w ==> !Overlap(prefix, g.prefix);
      if ok {
        ghost var before := grants;
        grants := grants + {Grant(w, prefix)};
        forall id | id in rows ensures Authorized(grants, id.writer, rows[id].place.path) {
          var g :| g in before && g.writer == id.writer && Within(rows[id].place.path, g.prefix);
          assert g in grants;
        }
      }
    }

    /**
     Reads the entry at a path; content that does not match the catalog is an error.  While tree and
     catalog agree that never happens, and what cannot be read is exactly what was lost or is not there.
     */
    method Read(path: Path) returns (result: ReadResult)
      requires Consistent()
      ensures match result
        case NotFound => TreeFile(path) !in files || !EntryAt(path)
        case HashMismatch => TreeFile(path) in files && EntryAt(path) && !Recorded(path, files[TreeFile(path)])
        case Content(data) => TreeFile(path) in files && data == files[TreeFile(path)] && Recorded(path, data)
      ensures Healthy() ==> !result.HashMismatch? && (result.NotFound? <==> TreeFile(path) !in files)
      ensures Healthy() ==> (result.Content? <==> exists id :: id in rows && id !in lost && rows[id].place == At(path))
    {
      if id :| id in rows && rows[id].place == At(path) {
        if TreeFile(path) !in files {
          return NotFound;
        }
        var data := files[TreeFile(path)];
        assert Healthy() ==> id !in lost && Holds(files, rows[id]);
        return if Sha256(data) != rows[id].hash then HashMismatch else Content(data);
      }
      return NotFound;
    }

    ghost predicate EntryAt(path: Path)
      reads this`rows
    {
      exists id :: id in rows && rows[id].place == At(path)
    }

    ghost predicate Recorded(path: Path, data: string)
      reads this`rows
    {
      exists id :: id in rows && rows[id].place == At(path) && rows[id].hash == Sha256(data)
    }
  }
}
