/** Synchronising: plan every folder's difference, submit them one by one, then save the state. */
module Sync {
  import opened Wrappers
  import opened Paths
  import opened Catalog
  import opened Disk
  import opened Preflight
  import opened Batch
  import opened Store
  import opened Tracker

  lemma FolderUndisturbed(
    rows: Rows, rows': Rows, w: Writer, before: Tracked, prefix: Path, scan: Scan, ops: seq<Operation>,
    v: Writer, other: Path, tracked: Tracked)
    requires Plans(before, prefix, scan, ops) && Coherent(prefix, before) && TakesEffect(rows, rows', w, ops)
    requires other != prefix && FolderAgrees(rows, v, other, tracked)
    ensures FolderAgrees(rows', v, other, tracked)
  {
    forall key: SourceKey | key.scope == other ensures AgreesAt(rows', v, tracked, key) {
      OthersAreLeft(rows, rows', w, before, prefix, scan, ops, Identity(v, key));
      assert AgreesAt(rows, v, tracked, key);
    }
  }

  lemma NothingApplied(rows: Rows, w: Writer)
    ensures TakesEffect(rows, rows, w, [])
  {
  }

  lemma NewPrefix(folders: seq<Folder>, i: nat)
    requires WellScanned(folders) && i < |folders|
    ensures folders[i].prefix !in set f | f in folders[..i] :: f.prefix
    ensures (set f | f in folders[..i + 1] :: f.prefix) == (set f | f in folders[..i] :: f.prefix) + {folders[i].prefix}
  {
    assert folders[..i + 1] == folders[..i] + [folders[i]];
    assert folders[i] in folders[..i + 1];
  }

  lemma {:induction false} ScanOfIsUnique(folders: seq<Folder>, prefix: Path)
    requires forall folder :: folder in folders ==> UniqueInodes(folder.scan.files)
    ensures UniqueInodes(ScanOf(folders, prefix).files)
  {
    if folders != [] {
      assert folders[0] in folders;
      ScanOfIsUnique(folders[1..], prefix);
    }
  }

  /** The folder's batch is among the first n. */
  ghost predicate Sent(batches: seq<Difference>, n: nat, prefix: Path) {
    exists j :: 0 <= j < n && j < |batches| && batches[j].prefix == prefix
  }

  /** With n batches applied, their folders mirror the new state and the others the old. */
  ghost predicate Halfway(
    rows: Rows, writer: Path -> Writer, state: State, folders: seq<Folder>, batches: seq<Difference>, n: nat)
  {
    forall p :: Settled(rows, writer(p), state, folders, batches, n, p)
  }

  ghost predicate Settled(
    rows: Rows, w: Writer, state: State, folders: seq<Folder>, batches: seq<Difference>, n: nat, p: Path)
  {
    FolderAgrees(rows, w, p, if Sent(batches, n, p) then Remembered(state, folders, p) else Before(state, p))
  }

  ghost predicate AllCoherent(state: State) {
    forall p :: Coherent(p, Before(state, p))
  }

  lemma NothingSent(batches: seq<Difference>)
    ensures forall p :: !Sent(batches, 0, p)
  {
  }

  lemma BatchIsPlanned(state: State, folders: seq<Folder>, batches: seq<Difference>, covered: set<Path>, i: nat)
    requires Planned(state, folders, batches, covered) && i < |batches|
    ensures var b := batches[i];
      Plans(Before(state, b.prefix), b.prefix, ScanOf(folders, b.prefix), b.ops) && !Sent(batches, i, b.prefix)
    ensures forall p :: Sent(batches, i + 1, p) <==> Sent(batches, i, p) || p == batches[i].prefix
  {
    assert batches[i] in batches;
  }

  /** A batch that is applied settles its folder and leaves the others as they were. */
  lemma BatchKeepsMirror(
    rows: Rows, rows': Rows, writer: Path -> Writer, state: State, folders: seq<Folder>, batches: seq<Difference>,
    covered: set<Path>, i: nat)
    requires Planned(state, folders, batches, covered) && i < |batches| && WellScanned(folders) && AllCoherent(state)
    requires Halfway(rows, writer, state, folders, batches, i)
    requires TakesEffect(rows, rows', writer(batches[i].prefix), batches[i].ops)
    ensures Halfway(rows', writer, state, folders, batches, i + 1)
    ensures forall id: Identity :: id.writer != writer(id.key.scope) ==> Lookup(rows', id) == Lookup(rows, id)
  {
    hide Plans, TakesEffect, FolderAgrees, Coherent, Merged, Sent, Planned;
    var b := batches[i];
    var q, w, scan := b.prefix, writer(b.prefix), ScanOf(folders, b.prefix);
    BatchIsPlanned(state, folders, batches, covered, i);
    ScanOfIsUnique(folders, q);
    forall p ensures Settled(rows', writer(p), state, folders, batches, i + 1, p) {
      assert Settled(rows, writer(p), state, folders, batches, i, p);
      if p == q {
        DifferenceMirrors(rows, rows', w, Before(state, q), q, scan, b.ops);
      } else {
        FolderUndisturbed(rows, rows', w, Before(state, q), q, scan, b.ops, writer(p), p,
          if Sent(batches, i, p) then Remembered(state, folders, p) else Before(state, p));
      }
    }
    forall id: Identity | id.writer != writer(id.key.scope) ensures Lookup(rows', id) == Lookup(rows, id) {
      OthersAreLeft(rows, rows', w, Before(state, q), q, scan, b.ops, id);
    }
  }

  /** No batch moves an entry onto its own path, so applied it loses no file. */
  lemma BatchLosesNothing(
    rows: Rows, writer: Path -> Writer, state: State, folders: seq<Folder>, batches: seq<Difference>, covered: set<Path>, i: nat)
    requires Planned(state, folders, batches, covered) && i < |batches|
    requires Halfway(rows, writer, state, folders, batches, i)
    ensures NoSelfMoves(rows, writer(batches[i].prefix), batches[i].ops)
  {
    hide Plans, FolderAgrees, Planned, Sent;
    var b := batches[i];
    BatchIsPlanned(state, folders, batches, covered, i);
    assert Settled(rows, writer(b.prefix), state, folders, batches, i, b.prefix);
    NoFileIsLost(rows, writer(b.prefix), Before(state, b.prefix), b.prefix, ScanOf(folders, b.prefix), b.ops);
  }

  /** Once every batch is applied, every folder mirrors the new state, those without a batch too. */
  lemma SettledInTheEnd(
    rows: Rows, writer: Path -> Writer, state: State, folders: seq<Folder>, batches: seq<Difference>, covered: set<Path>, p: Path)
    requires Planned(state, folders, batches, covered) && WellScanned(folders) && AllCoherent(state)
    requires covered == (set f | f in folders :: f.prefix) + state.Keys
    requires Halfway(rows, writer, state, folders, batches, |batches|)
    ensures FolderAgrees(rows, writer(p), p, Remembered(state, folders, p)) && Coherent(p, Remembered(state, folders, p))
  {
    hide Plans, TakesEffect, FolderAgrees, Coherent;
    assert Settled(rows, writer(p), state, folders, batches, |batches|, p);
    ScanOfIsUnique(folders, p);
    MergedIsCoherent(Before(state, p), p, ScanOf(folders, p));
    if !Sent(batches, |batches|, p) {
      if p in covered {
        forall b | b in batches ensures b.prefix != p {}
        NothingApplied(rows, writer(p));
        DifferenceMirrors(rows, rows, writer(p), Before(state, p), p, ScanOf(folders, p), []);
      } else {
        ScanOfNone(folders, p);
        assert Remembered(state, folders, p) == map[];
      }
    }
  }

  lemma NothingPlanned(state: State, folders: seq<Folder>)
    ensures Planned(state, folders, [], {})
  {
  }

  ghost predicate NoSelfMoves(rows: Rows, w: Writer, ops: seq<Operation>) {
    forall m :: m in ops ==> !SelfMove(rows, w, m)
  }

  /**
   How sending a batch ends: its prefix refused, the submission failed, applied but the
   acknowledgement lost, or acknowledged.
   */
  datatype SendResult = PrefixRefused | SubmissionFailed | ReplyLost | Acknowledged
  {
    predicate Reached() {
      ReplyLost? || Acknowledged?
    }
  }

  /** How many of the batches sent were applied; all but the last were acknowledged. */
  function AppliedOf(results: seq<SendResult>): (n: nat)
    ensures n <= |results|
  {
    if results == [] || results[|results| - 1].Reached() then |results| else |results| - 1
  }

  predicate AllAcknowledged(results: seq<SendResult>) {
    forall i :: 0 <= i < |results| ==> results[i].Acknowledged?
  }

  /** All but the last were acknowledged, and nothing was sent after one that was not. */
  predicate StoppedRight(results: seq<SendResult>, planned: nat) {
    && |results| <= planned && (forall i :: 0 <= i < |results| - 1 ==> results[i].Acknowledged?)
    && (AllAcknowledged(results) <==> |results| == planned && (results == [] || results[|results| - 1].Acknowledged?))
  }

  class FolderTracker {
    /** The server's choices: the writer that a folder's submissions go to, and the prefix granted it. */
    const writer: Path -> Writer
    const granted: Path -> Path
    var state: State

    constructor (writer: Path -> Writer, granted: Path -> Path)
      ensures this.writer == writer && this.granted == granted && state == map[]
    {
      this.writer, this.granted, state := writer, granted, map[];
    }

    /** The store's entries for every folder are those remembered. */
    ghost predicate Mirrors(rows: Rows, s: State) {
      AllCoherent(s) && forall p :: FolderAgrees(rows, writer(p), p, Before(s, p))
    }

    /** What sending a batch comes to, by the store it was sent to. */
    ghost predicate Exchanged(store: CtxfsStore, b: Difference, replyLost: bool, result: SendResult, a: Attempt) {
      var w, prefix := writer(b.prefix), granted(b.prefix);
      if !Grantable(a.before.grants, w, prefix) then result.PrefixRefused? && a.after == a.before
      else
        && result == (if !result.Reached() then SubmissionFailed else if replyLost then ReplyLost else Acknowledged)
        && store.Attempted(w, b.ops, result.Reached(), Registered(a, w, prefix))
    }

    /** The attempt as it began once the prefix had been registered. */
    ghost function Registered(a: Attempt, w: Writer, prefix: Path): Attempt {
      a.(before := a.before.(grants := a.before.grants + {Grant(w, prefix)}))
    }

    /** Sends one batch; it may have been applied even when no acknowledgement arrives. */
    method SubmitBatch(store: CtxfsStore, b: Difference, replyLost: bool) returns (result: SendResult, ghost a: Attempt)
      requires store.Consistent()
      modifies store
      ensures store.Consistent() && a.before == old(store.Stands()) && a.after == store.Stands()
      ensures Exchanged(store, b, replyLost, result, a)
    {
      hide Accepted, Outcome, Applicable, Agrees, UniquePlaces;
      var w := writer(b.prefix);
      ghost var before, undoing := store.Stands(), store.clock;
      var registered := store.RegisterPrefix(w, granted(b.prefix));
      if !registered {
        return PrefixRefused, Attempt(before, undoing, before);
      }
      var submitted, id, times := store.Submit(w, b.ops);
      a := Attempt(before, times.undoing, store.Stands());
      result := if !submitted.Applied? then SubmissionFailed else if replyLost then ReplyLost else Acknowledged;
    }

    /** What the configured folders are to submit, and what is to be remembered. */
    method PlanFolders(folders: seq<Folder>) returns (next: State, batches: seq<Difference>)
      requires WellScanned(folders)
      ensures next.Keys == set f | f in folders :: f.prefix
      ensures forall p :: p in next ==> next[p] == Remembered(state, folders, p)
      ensures Planned(state, folders, batches, next.Keys)
    {
      hide Plans, Merged, Planned, WellScanned;
      next, batches := map[], [];
      NothingPlanned(state, folders);
      assert next.Keys == {};
      for i := 0 to |folders|
        invariant next.Keys == set f | f in folders[..i] :: f.prefix
        invariant forall p :: p in next ==> next[p] == Remembered(state, folders, p)
        invariant Planned(state, folders, batches, next.Keys)
      {
        var folder := folders[i];
        ScanOfFolder(folders, i);
        NewPrefix(folders, i);
        var merged, ops := DiffFolder(folder.prefix, folder.scan, Before(state, folder.prefix));
        PlanOneMore(state, folders, batches, next.Keys, folder.prefix, ops);
        batches := if ops == [] then batches else batches + [Difference(folder.prefix, ops)];
        assert next[folder.prefix := merged].Keys == next.Keys + {folder.prefix};
        next := next[folder.prefix := merged];
      }
      assert folders[..|folders|] == folders;
    }

    /** Folders remembered but no longer configured are to be emptied. */
    method PlanRemoved(folders: seq<Folder>, known: set<Path>, planned: seq<Difference>) returns (batches: seq<Difference>)
      requires known == (set f | f in folders :: f.prefix) && Planned(state, folders, planned, known)
      ensures Planned(state, folders, batches, known + state.Keys)
    {
      hide Planned;
      batches := planned;
      ghost var covered := known;
      var rest := state.Keys - known;
      while rest != {}
        invariant rest <= state.Keys - known
        invariant covered == known + (state.Keys - known - rest)
        invariant Planned(state, folders, batches, covered)
      {
        var prefix :| prefix in rest;
        rest := rest - {prefix};
        ScanOfNone(folders, prefix);
        var deletes := DeletesFor(state[prefix], map[]);
        PlanOneMore(state, folders, batches, covered, prefix, deletes);
        covered := covered + {prefix};
        batches := if deletes == [] then batches else batches + [Difference(prefix, deletes)];
      }
      assert covered == known + state.Keys;
    }

    /** What a synchronisation is to submit, and what it is to remember. */
    method PlanSync(folders: seq<Folder>) returns (next: State, batches: seq<Difference>)
      requires WellScanned(folders)
      ensures forall p :: Before(next, p) == Remembered(state, folders, p)
      ensures Planned(state, folders, batches, (set f | f in folders :: f.prefix) + state.Keys)
    {
      hide Planned;
      next, batches := PlanFolders(folders);
      batches := PlanRemoved(folders, next.Keys, batches);
      forall p ensures Before(next, p) == Remembered(state, folders, p) {
        if p !in next {
          ScanOfNone(folders, p);
        }
      }
    }

    /** The batches sent, one after another, each with what it came to. */
    ghost predicate ExchangedAll(
      store: CtxfsStore, batches: seq<Difference>, repliesLost: nat -> bool, results: seq<SendResult>, trail: seq<Attempt>)
    {
      && |trail| == |results| && StoppedRight(results, |batches|)
      && forall i :: 0 <= i < |results| ==>
        && Exchanged(store, batches[i], repliesLost(i), results[i], trail[i])
        && FailsForCause(store, batches[i], results[i], trail[i])
    }

    lemma ExchangedOneMore(
      store: CtxfsStore, batches: seq<Difference>, repliesLost: nat -> bool, results: seq<SendResult>, trail: seq<Attempt>,
      result: SendResult, a: Attempt)
      requires |trail| == |results| < |batches| && AllAcknowledged(results)
      requires forall i :: 0 <= i < |results| ==> Exchanged(store, batches[i], repliesLost(i), results[i], trail[i])
      requires Exchanged(store, batches[|results|], repliesLost(|results|), result, a)
      requires FailsForCause(store, batches[|results|], result, a)
      ensures forall i :: 0 <= i <= |results| ==>
        Exchanged(store, batches[i], repliesLost(i), (results + [result])[i], (trail + [a])[i])
      ensures result.Acknowledged? ==> AllAcknowledged(results + [result])
      ensures !result.Acknowledged? ==> ExchangedAll(store, batches, repliesLost, results + [result], trail + [a])
      ensures AppliedOf(results + [result]) == if result.Reached() then |results| + 1 else |results|
    {
      hide Exchanged, Accepted;
      var all := results + [result];
      assert all[|results|] == result;
    }

    /** One exchange moves the mirror on by the batch, if it was applied. */
    lemma ExchangeKeepsMirror(
      store: CtxfsStore, folders: seq<Folder>, batches: seq<Difference>, covered: set<Path>, s: State, i: nat,
      replyLost: bool, result: SendResult, a: Attempt)
      requires Planned(s, folders, batches, covered) && i < |batches| && WellScanned(folders) && AllCoherent(s)
      requires Halfway(a.before.view.rows, writer, s, folders, batches, i)
      requires Exchanged(store, batches[i], replyLost, result, a)
      ensures result.Reached() ==>
        && Halfway(a.after.view.rows, writer, s, folders, batches, i + 1)
        && (a.before.view.lost == {} ==> a.after.view.lost == {}) && (a.before.healthy ==> a.after.healthy)
      ensures !result.Reached() ==> a.after.view == a.before.view
      ensures FailsForCause(store, batches[i], result, a)
      ensures OthersKept(a.before.view.rows, a.after.view.rows)
    {
      hide Plans, TakesEffect, FolderAgrees, Coherent, Planned, Accepted, Outcome, Applicable, Sent, NoSelfMoves;
      var w := writer(batches[i].prefix);
      BatchLosesNothing(a.before.view.rows, writer, s, folders, batches, covered, i);
      if result.Reached() {
        AppliedBatch(Registered(a, w, granted(batches[i].prefix)).before.grants, a.before.view, w, batches[i].ops);
        BatchKeepsMirror(a.before.view.rows, a.after.view.rows, writer, s, folders, batches, covered, i);
      } else if Accepted(a.after.grants, a.before.view, w, batches[i].ops) {
        AppliedBatch(a.after.grants, a.before.view, w, batches[i].ops);
      }
    }

    /** While no file is lost, a submission of the tracker fails for a fault, or as not accepted. */
    ghost predicate FailsForCause(store: CtxfsStore, b: Difference, result: SendResult, a: Attempt) {
      result.SubmissionFailed? && a.before.healthy && a.before.view.lost == {} ==>
        store.FaultedBetween(a.before.at, a.undoing) || !Accepted(a.after.grants, a.before.view, writer(b.prefix), b.ops)
    }

    /** Other writers' entries are as they were. */
    ghost predicate OthersKept(rows: Rows, rows': Rows) {
      forall id: Identity :: id.writer != writer(id.key.scope) ==> Lookup(rows', id) == Lookup(rows, id)
    }

    /** Sends the batches one by one, up to the first that is not acknowledged. */
    method SendBatches(
      store: CtxfsStore, folders: seq<Folder>, batches: seq<Difference>, repliesLost: nat -> bool, ghost covered: set<Path>)
      returns (results: seq<SendResult>, ghost trail: seq<Attempt>)
      requires store.Consistent() && Mirrors(store.rows, state) && Planned(state, folders, batches, covered) && WellScanned(folders)
      modifies store
      ensures store.Consistent() && ExchangedAll(store, batches, repliesLost, results, trail)
      ensures Chained(trail, old(store.Stands()), store.Stands())
      ensures Halfway(store.rows, writer, state, folders, batches, AppliedOf(results))
      ensures AppliedOf(results) == 0 ==> store.Now() == old(store.Now())
      ensures old(store.Valid()) && AppliedOf(results) == |results| ==> store.Valid()
      ensures OthersKept(old(store.rows), store.rows)
    {
      hide Plans, TakesEffect, FolderAgrees, Coherent, Planned, Accepted, Outcome, Applicable, Sent, Chained;
      hide Agrees, UniquePlaces, AllPlaced, GrantsApart, EntriesGranted, FreshFrom, LostAreEntries, Exchanged;
      results, trail := [], [];
      NothingSent(batches);
      NothingChained(store.Stands());
      for i := 0 to |batches|
        invariant store.Consistent() && |results| == |trail| == i && AllAcknowledged(results)
        invariant forall k :: 0 <= k < i ==> Exchanged(store, batches[k], repliesLost(k), results[k], trail[k])
        invariant Chained(trail, old(store.Stands()), store.Stands())
        invariant old(store.Valid()) ==> store.Valid()
        invariant Halfway(store.rows, writer, state, folders, batches, i)
        invariant i == 0 ==> store.Now() == old(store.Now())
        invariant OthersKept(old(store.rows), store.rows)
      {
        var result;
        ghost var a;
        result, a := SubmitBatch(store, batches[i], repliesLost(i));
        ExchangeKeepsMirror(store, folders, batches, covered, state, i, repliesLost(i), result, a);
        ExchangedOneMore(store, batches, repliesLost, results, trail, result, a);
        ChainOneMore(trail, old(store.Stands()), a);
        results, trail := results + [result], trail + [a];
        if !result.Acknowledged? {
          return;
        }
      }
    }

    /**
     One synchronisation.  When every batch is acknowledged, the store mirrors what was scanned and
     the saved state says so; until then the saved state stays as it was.  It stops at the first
     batch not acknowledged, and the trail says why; the folders of the batches applied mirror the
     new state by then, and the others the old.
     */
    method SyncOnce(store: CtxfsStore, folders: seq<Folder>, repliesLost: nat -> bool)
      returns (ok: bool, ghost batches: seq<Difference>, ghost results: seq<SendResult>, ghost trail: seq<Attempt>)
      requires store.Consistent() && Mirrors(store.rows, state) && WellScanned(folders)
      modifies this`state, store
      ensures store.Consistent()
      ensures Planned(old(state), folders, batches, (set f | f in folders :: f.prefix) + old(state).Keys)
      ensures ExchangedAll(store, batches, repliesLost, results, trail) && (ok <==> AllAcknowledged(results))
      ensures Chained(trail, old(store.Stands()), store.Stands())
      ensures Halfway(store.rows, writer, old(state), folders, batches, AppliedOf(results))
      ensures !ok ==> state == old(state) && (AppliedOf(results) == 0 ==> Mirrors(store.rows, state))
      ensures AppliedOf(results) == 0 ==> store.Now() == old(store.Now())
      ensures ok ==> Mirrors(store.rows, state) && forall p :: Before(state, p) == Remembered(old(state), folders, p)
      ensures old(store.Valid()) && AppliedOf(results) == |results| ==> store.Valid()
      ensures OthersKept(old(store.rows), store.rows)
    {
      hide Plans, TakesEffect, FolderAgrees, Coherent, Merged, Planned, Accepted, Sent, Exchanged, Chained;
      var next, planned := PlanSync(folders);
      batches := planned;
      ghost var covered := (set f | f in folders :: f.prefix) + state.Keys;
      var sent;
      sent, trail := SendBatches(store, folders, planned, repliesLost, covered);
      results := sent;
      ok := AllAcknowledged(sent);
      if ok {
        forall p ensures FolderAgrees(store.rows, writer(p), p, Remembered(state, folders, p))
          && Coherent(p, Remembered(state, folders, p)) {
          SettledInTheEnd(store.rows, writer, state, folders, batches, covered, p);
        }
        state := next;
      }
    }
  }

  lemma NothingChained(now: Standing)
    ensures Chained([], now, now)
  {
  }

  /** While no file is lost, what the tracker sends is applicable if it is accepted, and loses nothing. */
  lemma AppliedBatch(grants: set<Grant>, v: View, w: Writer, ops: seq<Operation>)
    requires Accepted(grants, v, w, ops) && NoSelfMoves(v.rows, w, ops)
    ensures TakesEffect(v.rows, Outcome(v, w, ops).rows, w, ops)
    ensures v.lost == {} ==> Outcome(v, w, ops).lost == {} && Applicable(grants, v, w, ops)
  {
    hide Accepted, Outcome;
    AcceptedTakesEffect(grants, v, w, ops);
    if v.lost == {} {
      NoSelfMovesFindFiles(grants, v, w, ops);
      NothingLostNothingMet(grants, v, w, ops);
    }
  }

  /** What a mirror of the saved state means for a folder that was scanned completely. */
  lemma SyncedFolder(
    rows: Rows, w: Writer, state: State, folders: seq<Folder>, i: nat, key: SourceKey, stem: string, slashes: string)
    requires WellScanned(folders) && i < |folders| && folders[i].scan.complete && key.scope == folders[i].prefix
    requires FolderAgrees(rows, w, folders[i].prefix, Remembered(state, folders, folders[i].prefix))
    requires folders[i].prefix == stem + slashes
    requires (stem == "" || stem[|stem| - 1] != '/') && forall c :: c in slashes ==> c == '/'
    ensures Identity(w, key) in rows <==> exists f :: f in folders[i].scan.files && key.name == f.inode
    ensures forall f :: f in folders[i].scan.files && key.name == f.inode ==>
      rows[Identity(w, key)] ==
        Row(At(stem + "/" + f.relative), Version(f.text), f.format, Sha256(NormalizeText(f.text)))
  {
    ScanOfFolder(folders, i);
    assert folders[i] in folders;
    CompleteScanIsMirrored(
      rows, w, Before(state, folders[i].prefix), folders[i].prefix, folders[i].scan, key, stem, slashes);
  }
}
