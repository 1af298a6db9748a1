/**
 The queue in front of the store: submissions wait in order of arrival, an applier drains them,
 and a destructive delete of a prefix also strikes what is still waiting for it.
 */
module Service {
  import opened Wrappers
  import opened Paths
  import opened Catalog
  import opened Disk
  import opened Preflight
  import opened Agreement
  import opened Batch
  import opened Store

  datatype QueueState = Waiting | AppliedAs(submission: nat) | Failing | Discarded

  datatype QueuedSubmission = QueuedSubmission(writer: Writer, ops: seq<Operation>, state: QueueState, created: int)

  type Queue = map<nat, QueuedSubmission>

  function WaitingIn(queue: Queue): set<nat> {
    set id | id in queue && queue[id].state.Waiting?
  }

  /** The order of arrival; ids break ties. */
  predicate Earlier(queue: Queue, a: nat, b: nat) {
    && a in queue && b in queue
    && (queue[a].created < queue[b].created || (queue[a].created == queue[b].created && a < b))
  }

  predicate IsFirstOf(queue: Queue, ids: set<nat>, id: nat) {
    id in ids && forall other :: other in ids && other != id ==> Earlier(queue, id, other)
  }

  lemma FirstOfOneMore(queue: Queue, ids: set<nat>, first: nat, id: nat)
    requires ids <= queue.Keys && id in queue && id !in ids && IsFirstOf(queue, ids, first)
    ensures IsFirstOf(queue, ids + {id}, if Earlier(queue, id, first) then id else first)
  {
    forall other | other in ids && other != id && Earlier(queue, id, first) ensures Earlier(queue, id, other) {
      assert other == first || Earlier(queue, first, other);
    }
  }

  lemma NobodyWaits(queue: Queue)
    ensures WaitingIn(queue) == {} <==> forall id :: id in queue ==> !queue[id].state.Waiting?
  {
    assert forall id :: id in queue && queue[id].state.Waiting? ==> id in WaitingIn(queue);
  }

  /** The first in line came no later than any other, and has the smaller id if both came at one time. */
  lemma FirstCameFirst(queue: Queue, ids: set<nat>, id: nat)
    requires IsFirstOf(queue, ids, id) && ids <= queue.Keys
    ensures id in ids && forall other :: other in ids ==>
      queue[id].created < queue[other].created || (queue[id].created == queue[other].created && id <= other)
  {
  }

  // ----- what a deletion strikes

  /** The operation would write under the prefix, or concerns one of the entries deleted. */
  predicate Targets(op: Operation, prefix: Path, keys: set<SourceKey>) {
    match op
    case Put(_, path, _, _, _) => Within(path, prefix)
    case Move(key, path, _, _) => Within(path, prefix) || key in keys
    case Delete(key, _) => key in keys
    case Decide(_, where, _, _) => where.Some? && Within(where.value, prefix)
  }

  /** Asking where such an operation points raises an error. */
  predicate Malformed(op: Operation) {
    match op
    case Put(_, path, _, _, _) => !IsPath(path)
    case Move(_, path, _, _) => !IsPath(path)
    case Delete(_, _) => false
    case Decide(_, where, _, _) => where.Some? && !IsPath(where.value)
  }

  function Spared(ops: seq<Operation>, prefix: Path, keys: set<SourceKey>): (r: seq<Operation>)
    ensures |r| <= |ops|
  {
    if ops == [] then []
    else
      var n := |ops| - 1;
      Spared(ops[..n], prefix, keys) + if Targets(ops[n], prefix, keys) then [] else [ops[n]]
  }

  /** Where the operations spared stand in the submission. */
  function SparedAt(ops: seq<Operation>, prefix: Path, keys: set<SourceKey>): seq<nat> {
    if ops == [] then []
    else
      var n := |ops| - 1;
      SparedAt(ops[..n], prefix, keys) + if Targets(ops[n], prefix, keys) then [] else [n]
  }

  /** Exactly the operations not struck are kept, and in their order. */
  lemma {:induction false} SparedKeepsOrder(ops: seq<Operation>, prefix: Path, keys: set<SourceKey>)
    ensures var kept, at := Spared(ops, prefix, keys), SparedAt(ops, prefix, keys);
      && |at| == |kept| && (forall i :: 0 <= i < |kept| ==> at[i] < |ops| && kept[i] == ops[at[i]])
      && (forall i, j :: 0 <= i < j < |at| ==> at[i] < at[j])
      && (forall k :: 0 <= k < |ops| ==> (k in at <==> !Targets(ops[k], prefix, keys)))
  {
    if ops != [] {
      SparedKeepsOrder(ops[..|ops| - 1], prefix, keys);
    }
  }

  lemma {:induction false} SparedAreUntargeted(ops: seq<Operation>, prefix: Path, keys: set<SourceKey>)
    ensures forall op :: op in Spared(ops, prefix, keys) <==> op in ops && !Targets(op, prefix, keys)
    ensures |Spared(ops, prefix, keys)| == |ops| <==> Spared(ops, prefix, keys) == ops
  {
    if ops != [] {
      var n := |ops| - 1;
      SparedAreUntargeted(ops[..n], prefix, keys);
      assert ops == ops[..n] + [ops[n]];
    }
  }

  /** What becomes of a waiting submission of the writer. */
  function Struck(q: QueuedSubmission, prefix: Path, keys: set<SourceKey>): QueuedSubmission {
    var kept := Spared(q.ops, prefix, keys);
    if |kept| == |q.ops| then q
    else if kept != [] then q.(ops := kept)
    else q.(state := Discarded)
  }

  ghost predicate NothingUnder(rows: Rows, prefix: Path) {
    forall id :: id in rows && rows[id].place.At? ==> !Within(rows[id].place.path, prefix)
  }

  predicate WritesUnder(op: Operation, prefix: Path) {
    (op.Put? || op.Move?) && Within(op.path, prefix)
  }

  /** No submission of the writer that still waits would write under the prefix. */
  ghost predicate ClearOf(queue: Queue, w: Writer, prefix: Path) {
    forall id, op :: id in WaitingIn(queue) && queue[id].writer == w && op in queue[id].ops ==> !WritesUnder(op, prefix)
  }

  lemma StruckIsClear(q: QueuedSubmission, prefix: Path, keys: set<SourceKey>)
    ensures Struck(q, prefix, keys).state.Waiting? ==> forall op :: op in Struck(q, prefix, keys).ops ==> !WritesUnder(op, prefix)
  {
    SparedAreUntargeted(q.ops, prefix, keys);
  }

  /** Only the writer authorised for a prefix has entries under it. */
  lemma OnlyItsWriter(grants: set<Grant>, rows: Rows, w: Writer, prefix: Path, id: Identity)
    requires GrantsApart(grants) && EntriesGranted(rows, grants) && AllPlaced(rows) && Authorized(grants, w, prefix)
    requires id in rows && Within(rows[id].place.path, prefix)
    ensures id.writer == w
  {
    var path := rows[id].place.path;
    var g :| g in grants && g.writer == w && Within(prefix, g.prefix);
    WithinTransitive(path, prefix, g.prefix);
    assert Authorized(grants, w, path) && Authorized(grants, id.writer, path);
    WritersShareNoPath(grants, w, id.writer, path);
  }

  /** A submission that writes nothing under the prefix leaves no entry there. */
  lemma StaysClear(grants: set<Grant>, rows: Rows, rows': Rows, v: Writer, ops: seq<Operation>, w: Writer, prefix: Path)
    requires TakesEffect(rows, rows', v, ops) && NothingUnder(rows, prefix)
    requires GrantsApart(grants) && EntriesGranted(rows', grants) && AllPlaced(rows') && Authorized(grants, w, prefix)
    requires v == w ==> forall op :: op in ops ==> !WritesUnder(op, prefix)
    ensures NothingUnder(rows', prefix)
  {
    forall id | id in rows' ensures !Within(rows'[id].place.path, prefix) {
      assert FinalRow(rows, v, ops, id, Lookup(rows', id));
      if Within(rows'[id].place.path, prefix) {
        OnlyItsWriter(grants, rows', w, prefix, id);
      }
    }
  }

  /** Of the tree, exactly the files of the entries gone are missing. */
  ghost predicate TreeWithout(files: Files, files': Files, rows: Rows, gone: set<Identity>) {
    forall p: Path :: Lookup(files', TreeFile(p)) == if PathOfGone(rows, gone, p) then None else Lookup(files, TreeFile(p))
  }

  ghost predicate PathOfGone(rows: Rows, gone: set<Identity>, p: Path) {
    exists id :: id in gone && id in rows && rows[id].place == At(p)
  }

  /** Removing entries together with their files keeps tree and catalog in agreement. */
  lemma RemovalKeepsAgreement(v: View, files: Files, gone: set<Identity>, files': Files)
    requires Agrees(v, files) && LostAreEntries(v) && UniquePlaces(v.rows) && AllPlaced(v.rows)
    requires TreeWithout(files, files', v.rows, gone)
    ensures Agrees(View(v.rows - gone, v.lost - gone), files') && LostAreEntries(View(v.rows - gone, v.lost - gone))
  {
    forall id | id in v.rows - gone && id !in v.lost ensures Holds(files', v.rows[id]) {
      assert Holds(files, v.rows[id]);
      assert Lookup(files', TreeFile(v.rows[id].place.path)) == Lookup(files, TreeFile(v.rows[id].place.path));
    }
    forall p: Path | TreeFile(p) in files'
      ensures exists id :: id in v.rows - gone && id !in v.lost && v.rows[id].place == At(p)
    {
      assert Lookup(files', TreeFile(p)) == Lookup(files, TreeFile(p));
      var id :| id in v.rows && id !in v.lost && v.rows[id].place == At(p);
    }
  }

  /** Prefixes that the queue is clear of and that held no entry hold none afterwards. */
  ghost predicate StaysEmpty(queue: Queue, grants: set<Grant>, rows: Rows, rows': Rows) {
    forall w, prefix :: ClearOf(queue, w, prefix) && Authorized(grants, w, prefix) && NothingUnder(rows, prefix) ==>
      NothingUnder(rows', prefix)
  }

  lemma StaysEmptyTransitive(queue: Queue, grants: set<Grant>, a: Rows, b: Rows, c: Rows)
    requires StaysEmpty(queue, grants, a, b) && StaysEmpty(queue, grants, b, c)
    ensures StaysEmpty(queue, grants, a, c)
  {
  }

  lemma NothingDrained(queue: Queue, grants: set<Grant>, rows: Rows, now: Standing)
    ensures StaysEmpty(queue, grants, rows, rows) && Chained([], now, now)
  {
  }

  class CtxfsService {
    const store: CtxfsStore
    var queue: Queue
    var nextSubmission: nat

    constructor (store: CtxfsStore)
      ensures this.store == store && queue == map[] && WellQueued()
    {
      this.store, queue, nextSubmission := store, map[], 0;
    }

    predicate WellQueued()
      reads this
    {
      forall id :: id in queue ==> id < nextSubmission
    }

    /** Accepts a submission into the queue; nothing is applied yet. */
    method Submit(w: Writer, ops: seq<Operation>, now: int) returns (id: nat)
      requires WellQueued()
      modifies this`queue, this`nextSubmission
      ensures WellQueued() && id !in old(queue) && queue == old(queue)[id := QueuedSubmission(w, ops, Waiting, now)]
    {
      id := nextSubmission;
      nextSubmission := nextSubmission + 1;
      queue := queue[id := QueuedSubmission(w, ops, Waiting, now)];
    }

    method NextInLine() returns (next: Option<nat>)
      ensures next.None? <==> WaitingIn(queue) == {}
      ensures next.Some? ==> IsFirstOf(queue, WaitingIn(queue), next.value)
    {
      next := None;
      var rest := WaitingIn(queue);
      while rest != {}
        invariant rest <= WaitingIn(queue)
        invariant next.None? ==> rest == WaitingIn(queue)
        invariant next.Some? ==> IsFirstOf(queue, WaitingIn(queue) - rest, next.value)
      {
        var id :| id in rest;
        ghost var seen := WaitingIn(queue) - rest;
        rest := rest - {id};
        assert WaitingIn(queue) - rest == seen + {id};
        if next.Some? { FirstOfOneMore(queue, seen, next.value, id); }
        if next.None? || Earlier(queue, id, next.value) {
          next := Some(id);
        }
      }
      assert WaitingIn(queue) - {} == WaitingIn(queue);
    }

    /** The attempt and what it leaves of the submission in the queue. */
    ghost predicate Attempted(before: QueuedSubmission, after: QueuedSubmission, a: Attempt) {
      && after == before.(state := after.state) && (after.state.AppliedAs? || after.state.Failing?)
      && store.Attempted(before.writer, before.ops, after.state.AppliedAs?, a)
    }

    /** Attempts the submission first in line, and records how that went. */
    method ApplyNext() returns (done: Option<nat>, ghost attempt: Attempt)
      requires store.Consistent()
      modifies this`queue, store
      ensures store.Consistent() && store.grants == old(store.grants)
      ensures attempt.before == old(store.Stands()) && attempt.after == store.Stands()
      ensures done.None? <==> forall id :: id in old(queue) ==> !old(queue)[id].state.Waiting?
      ensures done.None? ==> queue == old(queue) && attempt.after == attempt.before
      ensures done.Some? ==>
        && done.value in old(queue) && old(queue)[done.value].state.Waiting?
        && forall other :: other in old(queue) && old(queue)[other].state.Waiting? ==>
             || old(queue)[done.value].created < old(queue)[other].created
             || (old(queue)[done.value].created == old(queue)[other].created && done.value <= other)
      ensures done.Some? ==>
        && IsFirstOf(old(queue), WaitingIn(old(queue)), done.value) && done.value in queue
        && queue == old(queue)[done.value := queue[done.value]]
        && Attempted(old(queue)[done.value], queue[done.value], attempt)
      ensures done.Some? && queue[done.value].state.AppliedAs? ==>
        store.submissions == old(store.submissions)[queue[done.value].state.submission := AppliedState]
    {
      hide Accepted, Outcome, Applicable, Agrees, UniquePlaces;
      ghost var before, undoing := store.Stands(), store.clock;
      done := NextInLine();
      NobodyWaits(queue);
      if done.Some? {
        FirstCameFirst(queue, WaitingIn(queue), done.value);
        var id := done.value;
        var q := queue[id];
        var result, submission, times := store.Submit(q.writer, q.ops);
        undoing := times.undoing;
        queue := queue[id := q.(state := if result.Applied? then AppliedAs(submission) else Failing)];
      }
      attempt := Attempt(before, undoing, store.Stands());
    }

    /** The submissions done are the first in line, in order, each attempted; the others wait as before. */
    ghost predicate Drained(before: Queue, after: Queue, done: seq<nat>, trail: seq<Attempt>) {
      && after.Keys == before.Keys && |trail| == |done|
      && (forall i :: 0 <= i < |done| ==>
            done[i] in WaitingIn(before) && Attempted(before[done[i]], after[done[i]], trail[i]))
      && (forall id :: id in before && id !in done ==> after[id] == before[id])
      && (forall i, j :: 0 <= i < j < |done| ==> Earlier(before, done[i], done[j]))
      && (forall i, id :: 0 <= i < |done| && id in WaitingIn(after) ==> Earlier(before, done[i], id))
    }

    /** What draining means for the order: ascending in time of arrival and id, before all that still wait. */
    lemma DrainedInOrder(before: Queue, after: Queue, done: seq<nat>, trail: seq<Attempt>)
      requires Drained(before, after, done, trail)
      ensures forall i :: 0 <= i < |done| ==> done[i] in before && before[done[i]].state.Waiting?
      ensures forall i, j :: 0 <= i < j < |done| ==>
        || before[done[i]].created < before[done[j]].created
        || (before[done[i]].created == before[done[j]].created && done[i] < done[j])
    {
      hide Attempted;
    }

    lemma DrainedBeforeWaiting(before: Queue, after: Queue, done: seq<nat>, trail: seq<Attempt>, i: nat, id: nat)
      requires Drained(before, after, done, trail) && i < |done| && id in after && after[id].state.Waiting?
      ensures id in before && before[id].state.Waiting? && done[i] in before
      ensures before[done[i]].created < before[id].created
           || (before[done[i]].created == before[id].created && done[i] < id)
    {
      forall k | 0 <= k < |done| ensures !after[done[k]].state.Waiting? {
        AttemptedIsDone(before[done[k]], after[done[k]], trail[k]);
      }
      hide Attempted;
      assert id in WaitingIn(after) && id !in done;
    }

    lemma AttemptedIsDone(before: QueuedSubmission, after: QueuedSubmission, a: Attempt)
      requires Attempted(before, after, a)
      ensures !after.state.Waiting? && after.created == before.created
    {
    }

    lemma DrainedOneMore(
      before: Queue, queue0: Queue, queue1: Queue, done: seq<nat>, trail: seq<Attempt>, id: nat, attempt: Attempt)
      requires Drained(before, queue0, done, trail)
      requires IsFirstOf(queue0, WaitingIn(queue0), id) && id in queue1 && queue1 == queue0[id := queue1[id]]
      requires Attempted(queue0[id], queue1[id], attempt)
      ensures Drained(before, queue1, done + [id], trail + [attempt])
      ensures WaitingIn(queue1) == WaitingIn(queue0) - {id} && queue0[id] == before[id] && id in WaitingIn(before)
    {
      hide Attempted;
      AttemptedIsDone(queue0[id], queue1[id], attempt);
      forall i | 0 <= i < |done| ensures done[i] != id && queue0[done[i]].created == before[done[i]].created {
        AttemptedIsDone(before[done[i]], queue0[done[i]], trail[i]);
      }
      assert id !in done && queue0[id] == before[id];
      var done', trail' := done + [id], trail + [attempt];
      forall i | 0 <= i < |done'|
        ensures done'[i] in WaitingIn(before) && Attempted(before[done'[i]], queue1[done'[i]], trail'[i])
      {
        if i < |done| {
          assert done'[i] == done[i] && trail'[i] == trail[i] && queue1[done[i]] == queue0[done[i]];
        }
      }
      forall i, x | 0 <= i < |done'| && x in WaitingIn(queue1) ensures Earlier(before, done'[i], x) {
        assert x in WaitingIn(queue0) && x !in done;
      }
    }

    /**
     Attempts submissions until none waits, or as many as the limit says: each exactly once, in
     order of arrival, as the trail of attempts records.
     */
    method Drain(limit: Option<int>) returns (done: Option<seq<nat>>, ghost trail: seq<Attempt>)
      requires store.Consistent()
      modifies this`queue, store
      ensures store.Consistent() && store.grants == old(store.grants)
      ensures done.None? <==> limit.Some? && limit.value <= 0
      ensures done.None? ==> queue == old(queue)
      ensures Chained(trail, old(store.Stands()), store.Stands()) && (done.None? ==> trail == [])
      ensures done.Some? ==> Drained(old(queue), queue, done.value, trail)
      ensures done.Some? && limit.Some? ==> |done.value| <= limit.value
      ensures done.Some? ==> WaitingIn(queue) == {} || (limit.Some? && |done.value| == limit.value)
      ensures done.Some? && limit.None? ==> forall id :: id in done.value <==> id in WaitingIn(old(queue))
      ensures StaysEmpty(old(queue), store.grants, old(store.rows), store.rows)
    {
      hide Attempted, StaysEmpty, Chained, Agrees, UniquePlaces, GrantsApart, EntriesGranted, FreshFrom, LostAreEntries, AllPlaced;
      trail := [];
      NothingDrained(queue, store.grants, store.rows, store.Stands());
      if limit.Some? && limit.value <= 0 {
        return None, trail;
      }
      var drained: seq<nat> := [];
      while limit.None? || |drained| < limit.value
        invariant store.Consistent() && store.grants == old(store.grants)
        invariant Drained(old(queue), queue, drained, trail) && WaitingIn(queue) <= WaitingIn(old(queue))
        invariant Chained(trail, old(store.Stands()), store.Stands())
        invariant limit.Some? ==> |drained| <= limit.value
        invariant StaysEmpty(old(queue), store.grants, old(store.rows), store.rows)
        decreases |WaitingIn(queue)|
      {
        ghost var queue0 := queue;
        var next, attempt := ApplyNext();
        if next.None? {
          forall id | id in WaitingIn(old(queue)) ensures id in drained {
            assert id !in WaitingIn(queue);
          }
          return Some(drained), trail;
        }
        ChainOneMore(trail, old(store.Stands()), attempt);
        DrainedOneMore(old(queue), queue0, queue, drained, trail, next.value, attempt);
        AttemptKeepsClear(old(queue), next.value, store.grants, queue[next.value], attempt);
        StaysEmptyTransitive(old(queue), store.grants, old(store.rows), attempt.before.view.rows, store.rows);
        drained, trail := drained + [next.value], trail + [attempt];
      }
      done := Some(drained);
    }

    /** Attempting one submission of a queue that is clear of a prefix leaves the prefix empty. */
    lemma AttemptKeepsClear(before: Queue, id: nat, grants: set<Grant>, after: QueuedSubmission, a: Attempt)
      requires id in WaitingIn(before) && Attempted(before[id], after, a) && a.before.grants == grants
      requires GrantsApart(grants) && EntriesGranted(a.after.view.rows, grants) && AllPlaced(a.after.view.rows)
      ensures StaysEmpty(before, grants, a.before.view.rows, a.after.view.rows)
    {
      hide Accepted, Outcome, Applicable;
      forall w, prefix | ClearOf(before, w, prefix) && Authorized(grants, w, prefix) && NothingUnder(a.before.view.rows, prefix)
        ensures NothingUnder(a.after.view.rows, prefix)
      {
        if after.state.AppliedAs? {
          AcceptedTakesEffect(grants, a.before.view, before[id].writer, before[id].ops);
          StaysClear(grants, a.before.view.rows, a.after.view.rows, before[id].writer, before[id].ops, w, prefix);
        }
      }
    }

    // ----- destructive deletes

    /** Writes what remains of one submission, or discards it, if anything of it is struck. */
    method StrikeOne(id: nat, prefix: Path, keys: set<SourceKey>) returns (written: bool, changed: bool)
      requires id in queue && queue[id].state.Waiting?
      modifies this`queue, store`clock
      ensures old(store.clock) <= store.clock
      ensures queue == if written then old(queue)[id := Struck(old(queue)[id], prefix, keys)] else old(queue)
      ensures written ==> (changed <==> |Spared(old(queue)[id].ops, prefix, keys)| != |old(queue)[id].ops|)
      ensures !written ==> store.Faulted(old(store.clock))
    {
      var kept := Spared(queue[id].ops, prefix, keys);
      changed := |kept| != |queue[id].ops|;
      if changed {
        var fault := store.Tick();
        if fault {
          return false, changed;
        }
        queue := queue[id := if kept != [] then queue[id].(ops := kept) else queue[id].(state := Discarded)];
      }
      written := true;
      assert queue == old(queue)[id := Struck(old(queue)[id], prefix, keys)];
    }

    /** Strikes the waiting submissions of the writer, one after another; a malformed path stops it. */
    method StrikeQueue(w: Writer, prefix: Path, keys: set<SourceKey>) returns (result: StrikeResult)
      modifies this`queue, store`clock
      ensures queue.Keys == old(queue).Keys && old(store.clock) <= store.clock
      ensures match result
        case AllStruck(n) =>
          QueueWellFormed(old(queue), w) && IsStruck(old(queue), queue, w, prefix, keys) && n == |Changed(old(queue), queue)|
        case NotParsed => !QueueWellFormed(old(queue), w)
        case NotWritten => store.Faulted(old(store.clock))
      ensures SomeStruck(old(queue), queue, w, prefix, keys)
    {
      hide PartlyStruck, Changed, WellFormed, SomeStruck, IsStruck, Struck, Spared;
      var struck := 0;
      var listed := set id | id in WaitingIn(queue) && queue[id].writer == w;
      var rest := listed;
      NothingStruck(queue, prefix, keys);
      assert listed - rest == {};
      while rest != {}
        invariant old(store.clock) <= store.clock && rest <= listed && queue == PartlyStruck(old(queue), listed - rest, prefix, keys)
        invariant forall id :: id in listed - rest ==> WellFormed(old(queue)[id].ops)
        invariant struck == |Changed(old(queue), queue)|
      {
        var id :| id in rest;
        StruckOneMore(old(queue), listed - rest, id, prefix, keys);
        assert listed - (rest - {id}) == listed - rest + {id};
        if !WellFormed(queue[id].ops) {
          PartOfQueueStruck(old(queue), listed - rest, w, prefix, keys);
          return NotParsed;
        }
        var written, changed := StrikeOne(id, prefix, keys);
        if !written {
          PartOfQueueStruck(old(queue), listed - rest, w, prefix, keys);
          return NotWritten;
        }
        struck := if changed then struck + 1 else struck;
        rest := rest - {id};
      }
      assert listed - {} == listed;
      PartOfQueueStruck(old(queue), listed, w, prefix, keys);
      result := AllStruck(struck);
    }

    /** Removes the tree files and the objects of the entries, up to the first primitive that fails. */
    method RemoveFiles(gone: set<Identity>) returns (ok: bool, ghost removed: set<Identity>)
      requires FreshFrom(store.files, [], store.nextId) && AllPlaced(store.rows) && gone <= store.rows.Keys
      modifies store`clock, store`files
      ensures FreshFrom(store.files, [], store.nextId) && old(store.clock) <= store.clock
      ensures removed <= gone && TreeWithout(old(store.files), store.files, store.rows, removed)
      ensures if ok then removed == gone else store.Faulted(old(store.clock))
      ensures ok ==> forall id :: id in gone && id in store.objects ==> ObjectFile(store.objects[id]) !in store.files
    {
      hide TreeWithout;
      var rest := gone;
      NoneWithout(store.files, store.rows);
      removed := {};
      while rest != {}
        invariant rest <= gone && removed == gone - rest && old(store.clock) <= store.clock
        invariant FreshFrom(store.files, [], store.nextId)
        invariant TreeWithout(old(store.files), store.files, store.rows, removed)
        invariant forall id :: id in removed && id in store.objects ==> ObjectFile(store.objects[id]) !in store.files
      {
        var id :| id in rest;
        ghost var before := store.files;
        ok := store.UnlinkIfExists(Some(TreeFile(store.rows[id].place.path)));
        if !ok {
          return;
        }
        OneMoreWithout(old(store.files), before, store.files, store.rows, removed, id);
        removed := removed + {id};
        before := store.files;
        ok := store.UnlinkIfExists(if id in store.objects then Some(ObjectFile(store.objects[id])) else None);
        SameWithout(old(store.files), before, store.files, store.rows, removed);
        if !ok {
          return;
        }
        rest := rest - {id};
      }
      ok := true;
    }

    /** Removes the entries of the writer under the prefix, files first. */
    method RemoveEntries(w: Writer, prefix: Path, gone: set<Identity>) returns (ok: bool, ghost removed: set<Identity>)
      requires store.Consistent() && Authorized(store.grants, w, prefix) && gone == EntriesUnder(store.rows, w, prefix)
      modifies store`clock, store`files, store`rows, store`objects, store`lost
      ensures store.Consistent() && removed <= gone && old(store.clock) <= store.clock
      ensures TreeWithout(old(store.files), store.files, old(store.rows), removed)
      ensures store.rows == if ok then old(store.rows) - gone else old(store.rows)
      ensures if ok then removed == gone && NothingUnder(store.rows, prefix) else store.Faulted(old(store.clock))
      ensures ok ==> (old(store.Healthy()) ==> store.Healthy()) && (old(store.Valid()) ==> store.Valid())
    {
      hide Agrees, UniquePlaces, AllPlaced, TreeWithout, GrantsApart, EntriesGranted, NothingUnder, LostAreEntries;
      ghost var before, rows, files := store.Now(), store.rows, store.files;
      ok, removed := RemoveFiles(gone);
      if !ok {
        return;
      }
      var fault := store.Tick();
      if fault {
        return false, removed;
      }
      store.rows, store.objects := store.rows - gone, store.objects - gone;
      store.lost := store.lost - gone;
      DeletedFor(store.grants, rows, w, prefix);
      FewerRows(rows, gone, store.grants);
      if old(store.Healthy()) {
        RemovalKeepsAgreement(before, files, gone, store.files);
      }
    }

    /**
     Deletes the writer's entries under the prefix, and strikes what still waits for them.  The
     decisions it deletes are those matched, however the caller's database matched them.  Each of
     its commits may fail, and what came before it stays done.
     */
    method DeletePrefix(w: Writer, prefix: Path, matched: set<Identity>)
      returns (result: DeleteResult, ghost done: DeletionStage, ghost removed: set<Identity>)
      requires store.Consistent()
      modifies this`queue, store
      ensures store.Consistent() && store.grants == old(store.grants) && store.submissions == old(store.submissions)
      ensures result.InvalidPrefix? <==> !IsPath(prefix)
      ensures result.NotAuthorized? <==> IsPath(prefix) && !Authorized(store.grants, w, prefix)
      ensures IsPath(prefix) && Authorized(store.grants, w, prefix) ==>
        (result.Faulty? ==> store.Faulted(old(store.clock))) && (result.MalformedQueue? ==> !QueueWellFormed(old(queue), w))
      ensures result.InvalidPrefix? || result.NotAuthorized? ==> done.NothingDone?
      ensures result.MalformedQueue? ==> done.DecisionsDone?
      ensures result.Deleted? ==> done.EntriesDone? && QueueWellFormed(old(queue), w)
      ensures store.decisions == if done.NothingDone? then old(store.decisions)
                                 else old(store.decisions) - (set id | id in matched && id.writer == w)
      ensures queue.Keys == old(queue).Keys
      ensures var keys := KeysOf(EntriesUnder(old(store.rows), w, prefix));
        match done
        case NothingDone => queue == old(queue)
        case DecisionsDone => SomeStruck(old(queue), queue, w, prefix, keys)
        case _ => IsStruck(old(queue), queue, w, prefix, keys) && ClearOf(queue, w, prefix)
      ensures var gone := EntriesUnder(old(store.rows), w, prefix);
        match done
        case NothingDone => store.rows == old(store.rows) && store.files == old(store.files)
        case DecisionsDone => store.rows == old(store.rows) && store.files == old(store.files)
        case QueueDone =>
          && store.rows == old(store.rows) && removed <= gone
          && TreeWithout(old(store.files), store.files, old(store.rows), removed)
        case EntriesDone =>
          && store.rows == old(store.rows) - gone && NothingUnder(store.rows, prefix)
          && TreeWithout(old(store.files), store.files, old(store.rows), gone)
      ensures result.Deleted? ==>
        && result.entries == |EntriesUnder(old(store.rows), w, prefix)| && result.struck == |Changed(old(queue), queue)|
      ensures !done.QueueDone? ==> (old(store.Healthy()) ==> store.Healthy()) && (old(store.Valid()) ==> store.Valid())
    {
      hide Agrees, UniquePlaces, AllPlaced, TreeWithout, GrantsApart, EntriesGranted, NothingUnder, ClearOf, Changed;
      done, removed := NothingDone, {};
      if !IsPath(prefix) {
        return InvalidPrefix, done, removed;
      }
      if !Authorized(store.grants, w, prefix) {
        return NotAuthorized, done, removed;
      }
      var gone := EntriesUnder(store.rows, w, prefix);
      var fault := store.Tick();
      if fault {
        return Faulty, done, removed;
      }
      store.decisions := store.decisions - (set id | id in matched && id.writer == w);
      done := DecisionsDone;
      var strike := StrikeQueue(w, prefix, KeysOf(gone));
      if !strike.AllStruck? {
        return if strike.NotParsed? then MalformedQueue else Faulty, done, removed;
      }
      StruckQueueIsClear(old(queue), queue, w, prefix, KeysOf(gone));
      done := QueueDone;
      var ok;
      ok, removed := RemoveEntries(w, prefix, gone);
      if !ok {
        return Faulty, done, removed;
      }
      done := EntriesDone;
      fault := store.Tick();
      if fault {
        return Faulty, done, removed;
      }
      result := Deleted(|gone|, strike.count);
    }
  }

  datatype StrikeResult = AllStruck(count: nat) | NotParsed | NotWritten

  /** How much of a deletion has been committed; its record comes last. */
  datatype DeletionStage = NothingDone | DecisionsDone | QueueDone | EntriesDone

  datatype DeleteResult =
    | Deleted(entries: nat, struck: nat)
    | InvalidPrefix | NotAuthorized | MalformedQueue | Faulty

  predicate WellFormed(ops: seq<Operation>) {
    forall op :: op in ops ==> !Malformed(op)
  }

  /** Every waiting submission of the writer has been struck, and no other. */
  ghost predicate IsStruck(before: Queue, queue: Queue, w: Writer, prefix: Path, keys: set<SourceKey>)
    requires queue.Keys == before.Keys
  {
    forall id :: id in queue ==>
      queue[id] == if before[id].state.Waiting? && before[id].writer == w then Struck(before[id], prefix, keys) else before[id]
  }

  ghost function Changed(before: Queue, queue: Queue): set<nat>
    requires queue.Keys == before.Keys
  {
    set id | id in queue && queue[id] != before[id]
  }

  /** The queue with only the submissions done struck. */
  ghost function PartlyStruck(before: Queue, done: set<nat>, prefix: Path, keys: set<SourceKey>): (r: Queue)
    ensures r.Keys == before.Keys
  {
    map id | id in before :: if id in done then Struck(before[id], prefix, keys) else before[id]
  }

  lemma NothingStruck(before: Queue, prefix: Path, keys: set<SourceKey>)
    ensures PartlyStruck(before, {}, prefix, keys) == before && Changed(before, before) == {}
  {
  }

  lemma StruckOneMore(before: Queue, done: set<nat>, id: nat, prefix: Path, keys: set<SourceKey>)
    requires id in before && id !in done && before[id].state.Waiting?
    ensures var now, after := PartlyStruck(before, done, prefix, keys), PartlyStruck(before, done + {id}, prefix, keys);
      && now[id] == before[id] && after == now[id := Struck(before[id], prefix, keys)]
      && (Struck(before[id], prefix, keys) == before[id] <==> |Spared(before[id].ops, prefix, keys)| == |before[id].ops|)
      && |Changed(before, after)| == |Changed(before, now)| + if Struck(before[id], prefix, keys) == before[id] then 0 else 1
  {
    StruckIsSame(before[id], prefix, keys);
    hide Struck, Spared;
    var now, after := PartlyStruck(before, done, prefix, keys), PartlyStruck(before, done + {id}, prefix, keys);
    if Struck(before[id], prefix, keys) == before[id] {
      assert Changed(before, after) == Changed(before, now);
    } else {
      assert Changed(before, after) == Changed(before, now) + {id};
    }
  }

  lemma StruckIsSame(q: QueuedSubmission, prefix: Path, keys: set<SourceKey>)
    requires q.state.Waiting?
    ensures Struck(q, prefix, keys) == q <==> |Spared(q.ops, prefix, keys)| == |q.ops|
  {
  }

  lemma PartOfQueueStruck(before: Queue, done: set<nat>, w: Writer, prefix: Path, keys: set<SourceKey>)
    requires forall id :: id in done ==> id in before && before[id].state.Waiting? && before[id].writer == w
    ensures var queue := PartlyStruck(before, done, prefix, keys);
      && (done == (set id | id in WaitingIn(before) && before[id].writer == w) ==> IsStruck(before, queue, w, prefix, keys))
      && SomeStruck(before, queue, w, prefix, keys)
  {
  }

  /** Some of the writer's submissions have been struck, and no other. */
  ghost predicate SomeStruck(before: Queue, queue: Queue, w: Writer, prefix: Path, keys: set<SourceKey>)
    requires queue.Keys == before.Keys
  {
    forall id :: id in queue ==>
      queue[id] == before[id]
      || (before[id].state.Waiting? && before[id].writer == w && queue[id] == Struck(before[id], prefix, keys))
  }

  ghost predicate QueueWellFormed(queue: Queue, w: Writer) {
    forall id :: id in WaitingIn(queue) && queue[id].writer == w ==> WellFormed(queue[id].ops)
  }

  function EntriesUnder(rows: Rows, w: Writer, prefix: Path): set<Identity> {
    set id | id in rows && id.writer == w && rows[id].place.At? && Within(rows[id].place.path, prefix)
  }

  function KeysOf(ids: set<Identity>): set<SourceKey> {
    set id | id in ids :: id.key
  }

  /**
   Which operations a destructive delete strikes, by the indices at of those it keeps: a put, a
   decision by its path, a delete by its key, a move by either.  What keeps nothing is discarded.
   */
  lemma StrikesExactly(before: Queue, queue: Queue, w: Writer, prefix: Path, keys: set<SourceKey>, id: nat)
    returns (at: seq<nat>)
    requires queue.Keys == before.Keys && IsStruck(before, queue, w, prefix, keys) && id in before
    ensures before[id].writer != w || !before[id].state.Waiting? ==> queue[id] == before[id]
    ensures before[id].writer == w && before[id].state.Waiting? ==>
      var ops := before[id].ops;
      && (forall i :: 0 <= i < |at| ==> at[i] < |ops|) && (forall i, j :: 0 <= i < j < |at| ==> at[i] < at[j])
      && (forall k, key, path, version, format, text :: 0 <= k < |ops| && ops[k] == Put(key, path, version, format, text) ==>
            (k in at <==> path != prefix && !(prefix + "/" <= path)))
      && (forall k, key, path, version, hash :: 0 <= k < |ops| && ops[k] == Move(key, path, version, hash) ==>
            (k in at <==> path != prefix && !(prefix + "/" <= path) && key !in keys))
      && (forall k, key, version :: 0 <= k < |ops| && ops[k] == Delete(key, version) ==> (k in at <==> key !in keys))
      && (forall k, key, where, version, state :: 0 <= k < |ops| && ops[k] == Decide(key, where, version, state) ==>
            (k in at <==> where.None? || (where.value != prefix && !(prefix + "/" <= where.value))))
      && queue[id] == (if |at| == |ops| then before[id]
                       else if at == [] then before[id].(state := Discarded)
                       else before[id].(ops := seq(|at|, i requires 0 <= i < |at| && at[i] < |ops| => ops[at[i]])))
  {
    at := SparedAt(before[id].ops, prefix, keys);
    SparedKeepsOrder(before[id].ops, prefix, keys);
    var kept := Spared(before[id].ops, prefix, keys);
    hide Spared, SparedAt;
    assert kept == seq(|at|, i requires 0 <= i < |at| && at[i] < |before[id].ops| => before[id].ops[at[i]]);
  }

  /** The queue is fit to be struck exactly if every path that it waits to write is a path. */
  lemma QueueWellFormedIff(queue: Queue, w: Writer)
    ensures QueueWellFormed(queue, w) <==>
      forall id, op :: id in queue && queue[id].state.Waiting? && queue[id].writer == w && op in queue[id].ops ==>
        && (op.Put? || op.Move? ==> IsPath(op.path)) && (op.Decide? && op.where.Some? ==> IsPath(op.where.value))
  {
  }

  /** The entries that go are those of the writer at the prefix or under it. */
  lemma EntriesUnderIff(rows: Rows, w: Writer, prefix: Path)
    ensures forall id :: id in EntriesUnder(rows, w, prefix) <==>
      && id in rows && id.writer == w && rows[id].place.At?
      && (rows[id].place.path == prefix || prefix + "/" <= rows[id].place.path)
    ensures forall key :: key in KeysOf(EntriesUnder(rows, w, prefix)) <==> Identity(w, key) in EntriesUnder(rows, w, prefix)
  {
    forall key | Identity(w, key) in EntriesUnder(rows, w, prefix) ensures key in KeysOf(EntriesUnder(rows, w, prefix)) {
      assert Identity(w, key).key == key;
    }
  }

  lemma NoneWithout(files: Files, rows: Rows)
    ensures TreeWithout(files, files, rows, {})
  {
  }

  lemma SameWithout(files: Files, before: Files, after: Files, rows: Rows, gone: set<Identity>)
    requires TreeWithout(files, before, rows, gone) && SameTree(after, before)
    ensures TreeWithout(files, after, rows, gone)
  {
    forall p: Path ensures Lookup(after, TreeFile(p)) == if PathOfGone(rows, gone, p) then None else Lookup(files, TreeFile(p)) {
      assert Lookup(after, TreeFile(p)) == Lookup(before, TreeFile(p));
    }
  }

  lemma OneMoreWithout(files: Files, before: Files, after: Files, rows: Rows, gone: set<Identity>, id: Identity)
    requires id in rows && rows[id].place.At?
    requires TreeWithout(files, before, rows, gone) && after == before - {TreeFile(rows[id].place.path)}
    ensures TreeWithout(files, after, rows, gone + {id})
  {
    forall p: Path ensures Lookup(after, TreeFile(p)) ==
      if PathOfGone(rows, gone + {id}, p) then None else Lookup(files, TreeFile(p))
    {
      assert PathOfGone(rows, gone + {id}, p) <==> PathOfGone(rows, gone, p) || rows[id].place == At(p) by {
        if rows[id].place == At(p) {
          assert id in gone + {id};
        }
      }
      assert Lookup(before, TreeFile(p)) == if PathOfGone(rows, gone, p) then None else Lookup(files, TreeFile(p));
    }
  }

  lemma FewerRows(rows: Rows, gone: set<Identity>, grants: set<Grant>)
    requires UniquePlaces(rows) && AllPlaced(rows) && EntriesGranted(rows, grants)
    ensures UniquePlaces(rows - gone) && AllPlaced(rows - gone) && EntriesGranted(rows - gone, grants)
  {
  }

  lemma DeletedFor(grants: set<Grant>, rows: Rows, w: Writer, prefix: Path)
    requires GrantsApart(grants) && EntriesGranted(rows, grants) && AllPlaced(rows) && Authorized(grants, w, prefix)
    ensures NothingUnder(rows - EntriesUnder(rows, w, prefix), prefix)
  {
    forall id | id in rows && Within(rows[id].place.path, prefix) ensures id.writer == w {
      OnlyItsWriter(grants, rows, w, prefix, id);
    }
  }

  lemma StruckQueueIsClear(before: Queue, queue: Queue, w: Writer, prefix: Path, keys: set<SourceKey>)
    requires queue.Keys == before.Keys && IsStruck(before, queue, w, prefix, keys)
    ensures ClearOf(queue, w, prefix)
  {
    forall id | id in WaitingIn(queue) && queue[id].writer == w
      ensures forall op :: op in queue[id].ops ==> !WritesUnder(op, prefix)
    {
      StruckIsClear(before[id], prefix, keys);
    }
  }
}
