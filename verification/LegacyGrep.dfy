/**
 Continuing a search from a cursor of the catalog's path order.  The tree is scanned in another
 order, so each page scans all of it and keeps the least limit + 1 matches after its anchor.
 */
module LegacyGrep {
  import opened Wrappers
  import opened Order
  import opened Grep

  predicate PositionLess(a: Match, b: Match) {
    a.line < b.line || (a.line == b.line && (a.start < b.start || (a.start == b.start && a.end < b.end)))
  }

  /** The logical order: by path, then by position in the file. */
  predicate Before(a: Match, b: Match) {
    StringLess(a.path, b.path) || (a.path == b.path && PositionLess(a, b))
  }

  /** By path first, then by line, then by where the match starts, then by where it ends. */
  lemma BeforeIs(a: Match, b: Match)
    ensures a.path != b.path ==> (Before(a, b) <==> StringLess(a.path, b.path))
    ensures a.path == b.path && a.line != b.line ==> (Before(a, b) <==> a.line < b.line)
    ensures a.path == b.path && a.line == b.line && a.start != b.start ==> (Before(a, b) <==> a.start < b.start)
    ensures a.path == b.path && a.line == b.line && a.start == b.start ==> (Before(a, b) <==> a.end < b.end)
  {
    StringLessIsTotal(a.path, b.path);
  }

  lemma BeforeIsTransitive(a: Match, b: Match, c: Match)
    requires Before(a, b) && Before(b, c)
    ensures Before(a, c)
  {
    if StringLess(a.path, b.path) && StringLess(b.path, c.path) {
      StringLessIsTransitive(a.path, b.path, c.path);
    }
  }

  lemma BeforeIsTotal(a: Match, b: Match)
    ensures SamePosition(a, b) <==> !Before(a, b) && !Before(b, a)
    ensures !(Before(a, b) && Before(b, a))
  {
    StringLessIsTotal(a.path, b.path);
  }

  predicate StrictlySorted(s: seq<Match>) {
    forall i, j :: 0 <= i < j < |s| ==> Before(s[i], s[j])
  }

  predicate Sorted(s: seq<Match>) {
    forall i, j :: 0 <= i < j < |s| ==> !Before(s[j], s[i])
  }

  lemma StrictlySortedIsSorted(s: seq<Match>)
    requires StrictlySorted(s)
    ensures Sorted(s)
  {
    forall i, j | 0 <= i < j < |s| ensures !Before(s[j], s[i]) {
      BeforeIsTotal(s[i], s[j]);
    }
  }

  /** s is the least n matches of the pool, or all of them when they are fewer, in order. */
  ghost predicate IsFirst(s: seq<Match>, pool: set<Match>, n: nat) {
    && StrictlySorted(s) && |s| <= n
    && (forall m :: m in s ==> m in pool)
    && (forall m :: m in pool && m !in s ==> |s| == n && forall i :: 0 <= i < n ==> Before(s[i], m))
  }

  /** The matches among the first k records that come after the anchor in the logical order. */
  ghost function PoolAfter(stream: seq<Event>, k: nat, anchor: Match): set<Match>
    requires k <= |stream|
  {
    set i | 0 <= i < k && stream[i].Hit? && Before(anchor, stream[i].match_) :: stream[i].match_
  }

  // ----- bounded insertion

  /** Where bisection puts a key, after those not greater. */
  function BisectRight(keys: seq<Match>, key: Match): (i: nat)
    requires Sorted(keys)
    ensures i <= |keys|
    ensures forall j :: 0 <= j < i ==> !Before(key, keys[j])
    ensures forall j :: i <= j < |keys| ==> Before(key, keys[j])
  {
    if keys == [] || !Before(key, keys[|keys| - 1]) then
      SortedBelow(keys, key);
      |keys|
    else BisectRight(keys[..|keys| - 1], key)
  }

  lemma SortedBelow(keys: seq<Match>, key: Match)
    requires Sorted(keys) && (keys == [] || !Before(key, keys[|keys| - 1]))
    ensures forall j :: 0 <= j < |keys| ==> !Before(key, keys[j])
  {
    forall j | 0 <= j < |keys| - 1 ensures !Before(key, keys[j]) {
      if Before(key, keys[j]) {
        BeforeIsTotal(keys[j], keys[|keys| - 1]);
        if Before(keys[j], keys[|keys| - 1]) {
          BeforeIsTransitive(key, keys[j], keys[|keys| - 1]);
        }
      }
    }
  }

  function Insert(s: seq<Match>, m: Match): (r: seq<Match>)
    requires Sorted(s)
    ensures |r| == |s| + 1 && Sorted(r) && forall x :: x in r <==> x in s || x == m
  {
    var i := BisectRight(s, m);
    var r := s[..i] + [m] + s[i..];
    assert s == s[..i] + s[i..] && r[i] == m;
    InsertedInPlace(s, i, m);
    r
  }

  lemma InsertedInPlace(s: seq<Match>, at: nat, m: Match)
    requires Sorted(s) && at == BisectRight(s, m)
    ensures Sorted(s[..at] + [m] + s[at..])
  {
    var r := s[..at] + [m] + s[at..];
    forall i, j | 0 <= i < j < |r| ensures !Before(r[j], r[i]) {
      BeforeIsTotal(r[i], r[j]);
    }
  }

  lemma InsertKeepsOrder(s: seq<Match>, m: Match)
    requires StrictlySorted(s) && forall x :: x in s ==> !SamePosition(x, m)
    ensures Sorted(s) && StrictlySorted(Insert(s, m))
  {
    StrictlySortedIsSorted(s);
    var at := BisectRight(s, m);
    var r := Insert(s, m);
    forall i, j | 0 <= i < j < |r| ensures Before(r[i], r[j]) {
      if j == at {
        assert s[i] in s;
        BeforeIsTotal(s[i], m);
      }
    }
  }

  /** Dropping the greatest of n + 1 candidates loses nothing that the least n need. */
  lemma InsertionKeepsTheFirst(s: seq<Match>, pool: set<Match>, n: nat, m: Match)
    requires IsFirst(s, pool, n) && n > 0 && forall x :: x in pool ==> !SamePosition(x, m)
    ensures Sorted(s)
    ensures var r := Insert(s, m); IsFirst(if |r| > n then r[..n] else r, pool + {m}, n)
  {
    InsertKeepsOrder(s, m);
    var all := Insert(s, m);
    var r := if |all| > n then all[..n] else all;
    forall x | x in pool + {m} && x !in r ensures |r| == n && forall i :: 0 <= i < n ==> Before(r[i], x) {
      if x in all {
        var k :| 0 <= k < |all| && all[k] == x;
        assert k == n;
      } else {
        forall i | 0 <= i < n ensures Before(r[i], x) {
          assert r[i] == all[i];
          if r[i] == m {
            assert all[i + 1] in s;
            BeforeIsTransitive(m, all[i + 1], x);
          }
        }
      }
    }
  }

  // ----- one page

  /** What verifying the anchor's file found: its hash, and whether the catalog contradicts it. */
  datatype Snapshot = Snapshot(hash: string, mismatch: bool)

  /** A record the page examines whose file is not as catalogued. */
  ghost predicate FlawAhead(stream: seq<Event>, k: nat, anchor: Match)
    requires k <= |stream|
  {
    exists i :: 0 <= i < k && Flawed(stream[i]) && !Skipped(stream[i], anchor)
  }

  predicate Skipped(e: Event, anchor: Match) {
    e.Hit? && StringLess(e.match_.path, anchor.path)
  }

  /** A record the scan does not get past. */
  predicate StopsLegacy(e: Event, anchor: Match) {
    e.Oversized? || (e.flaw == Corrupt && !Skipped(e, anchor))
  }

  function LegacyReach(stream: seq<Event>, anchor: Match): (n: nat)
    ensures n <= |stream| && forall i :: 0 <= i < n ==> !StopsLegacy(stream[i], anchor)
    ensures n < |stream| ==> StopsLegacy(stream[n], anchor)
  {
    if stream == [] || StopsLegacy(stream[0], anchor) then 0 else 1 + LegacyReach(stream[1..], anchor)
  }

  /** Time runs out before the scan has got as far as it can. */
  predicate CutsScan(stream: seq<Event>, anchor: Match, cut: Cut) {
    var n := LegacyReach(stream, anchor);
    (cut.BeforeRecord? && cut.k <= n) || (cut.WithinRecord? && cut.k < n && !Skipped(stream[cut.k], anchor))
  }

  ghost predicate AnchorWithin(stream: seq<Event>, k: nat, anchor: Match)
    requires k <= |stream|
  {
    exists i :: 0 <= i < k && stream[i].Hit? && SamePosition(stream[i].match_, anchor)
  }

  ghost predicate Mismatched(stream: seq<Event>, anchor: Match, inherited: bool, snapshot: Snapshot) {
    inherited || snapshot.mismatch || FlawAhead(stream, |stream|, anchor)
  }

  /** The page of a scan that got to the end: the least matches after its anchor, and whether there are more. */
  ghost predicate Resumed(stream: seq<Event>, anchor: Match, mismatch: bool, limit: nat, page: Page) {
    var pool := PoolAfter(stream, |stream|, anchor);
    && IsFirst(page.items, pool, limit)
    && if pool <= (set m | m in page.items) then
         page.complete == !mismatch && page.stopped == (if mismatch then ByMismatch else NotStopped) && page.next == None
       else
         && |page.items| == limit > 0 && !page.complete && page.stopped == ByLimit
         && page.next == Some(AfterMatch(page.items[limit - 1], mismatch))
  }

  function OutOfTime(anchor: Match, inherited: bool): GrepResult {
    Found(Page([], false, ByTimeout, Some(AfterMatch(anchor, inherited))))
  }

  /** What resuming comes to, for every cursor, tree, limit and cut. */
  ghost predicate LegacyAnswer(
    stream: seq<Event>, anchor: Match, inherited: bool, snapshot: Option<Snapshot>, limit: nat, cut: Cut, r: GrepResult)
  {
    var n := LegacyReach(stream, anchor);
    if cut.InValidation? || snapshot.None? then r == OutOfTime(anchor, inherited)
    else if snapshot.value.hash != anchor.hash then r == StaleCursor
    else if CutsScan(stream, anchor, cut) then r == OutOfTime(anchor, inherited)
    else if !AnchorWithin(stream, n, anchor) then r == StaleCursor
    else if n < |stream| then r == Found(Page([], false, if stream[n].Oversized? then BySize else ByMismatch, None))
    else r.Found? && Resumed(stream, anchor, Mismatched(stream, anchor, inherited, snapshot.value), limit, r.page)
  }

  /** The candidates kept after k records. */
  ghost predicate Kept(stream: seq<Event>, k: nat, anchor: Match, limit: nat, candidates: seq<Match>) {
    k <= |stream| && IsFirst(candidates, PoolAfter(stream, k, anchor), limit + 1)
  }

  lemma PoolGrows(stream: seq<Event>, k: nat, anchor: Match)
    requires k < |stream|
    ensures PoolAfter(stream, k + 1, anchor) ==
      PoolAfter(stream, k, anchor) + if stream[k].Hit? && Before(anchor, stream[k].match_) then {stream[k].match_} else {}
  {
  }

  lemma CandidateKept(stream: seq<Event>, k: nat, anchor: Match, limit: nat, candidates: seq<Match>)
    requires OneTree(stream) && k < |stream| && Kept(stream, k, anchor, limit, candidates)
    requires stream[k].Hit? && Before(anchor, stream[k].match_)
    ensures Sorted(candidates)
    ensures Kept(stream, k + 1, anchor, limit, Bounded(candidates, stream[k].match_, limit))
  {
    assert |candidates| <= limit + 1;
    hide IsFirst;
    PoolGrows(stream, k, anchor);
    forall x | x in PoolAfter(stream, k, anchor) ensures !SamePosition(x, stream[k].match_) {}
    hide PoolAfter, OneTree;
    InsertionKeepsTheFirst(candidates, PoolAfter(stream, k, anchor), limit + 1, stream[k].match_);
  }

  /** One more candidate, and the greatest dropped once there are more than limit + 1. */
  function Bounded(candidates: seq<Match>, m: Match, limit: nat): (r: seq<Match>)
    requires Sorted(candidates)
    ensures Sorted(r)
  {
    var all := Insert(candidates, m);
    if |all| > limit + 1 then all[..|all| - 1] else all
  }

  lemma FirstOfMore(s: seq<Match>, pool: set<Match>, n: nat)
    requires IsFirst(s, pool, n + 1)
    ensures IsFirst(if |s| > n then s[..n] else s, pool, n)
    ensures |s| > n ==> s[n] in pool && s[n] !in s[..n]
    ensures |s| <= n ==> pool <= set m | m in s
  {
    if |s| > n {
      assert s[n] in s;
      forall i | 0 <= i < n ensures s[i] != s[n] {
        BeforeIsTotal(s[i], s[n]);
      }
      forall m | m in pool && m !in s[..n] ensures forall i :: 0 <= i < n ==> Before(s[i], m) {
        if m in s {
          var k :| 0 <= k < |s| && s[k] == m;
          assert k == n;
        }
      }
    }
  }

  lemma NothingKept(stream: seq<Event>, anchor: Match, limit: nat)
    ensures Kept(stream, 0, anchor, limit, [])
  {
  }

  lemma NotACandidate(stream: seq<Event>, k: nat, anchor: Match, limit: nat, candidates: seq<Match>)
    requires k < |stream| && Kept(stream, k, anchor, limit, candidates)
    ensures stream[k].Hit? && !Before(anchor, stream[k].match_) ==> Kept(stream, k + 1, anchor, limit, candidates)
  {
    PoolGrows(stream, k, anchor);
  }

  lemma KeptAll(stream: seq<Event>, anchor: Match, limit: nat, candidates: seq<Match>)
    requires Kept(stream, |stream|, anchor, limit, candidates)
    ensures var pool := PoolAfter(stream, |stream|, anchor);
      var items := if |candidates| > limit then candidates[..limit] else candidates;
      IsFirst(items, pool, limit) && (|candidates| > limit <==> !(pool <= set m | m in items))
  {
    FirstOfMore(candidates, PoolAfter(stream, |stream|, anchor), limit);
  }

  /** One page of a search resumed in the logical order. */
  method ResumeLegacy(
    stream: seq<Event>, anchor: Match, inherited: bool, snapshot: Option<Snapshot>, limit: nat, cut: Cut)
    returns (r: GrepResult)
    requires limit > 0
    ensures OneTree(stream) ==> LegacyAnswer(stream, anchor, inherited, snapshot, limit, cut, r)
  {
    hide OneTree, Kept, PoolAfter, IsFirst, LegacyReach;
    if cut.InValidation? || snapshot.None? {
      return OutOfTime(anchor, inherited);
    }
    var mismatch := inherited || snapshot.value.mismatch;
    if snapshot.value.hash != anchor.hash {
      return StaleCursor;
    }
    ghost var one := OneTree(stream);
    NothingKept(stream, anchor, limit);
    var anchorFound := false;
    var candidates: seq<Match> := [];
    for k := 0 to |stream|
      invariant Sorted(candidates)
      invariant one ==> Kept(stream, k, anchor, limit, candidates)
      invariant |candidates| <= limit + 1 && k <= LegacyReach(stream, anchor)
      invariant anchorFound <==> AnchorWithin(stream, k, anchor)
      invariant mismatch <==> inherited || snapshot.value.mismatch || FlawAhead(stream, k, anchor)
      invariant cut.BeforeRecord? ==> cut.k >= k
      invariant cut.WithinRecord? && cut.k < k ==> Skipped(stream[cut.k], anchor)
    {
      if cut == BeforeRecord(k) {
        return OutOfTime(anchor, inherited);
      }
      var e := stream[k];
      if e.Oversized? {
        return if anchorFound then Found(Page([], false, BySize, None)) else StaleCursor;
      }
      if one { NotACandidate(stream, k, anchor, limit, candidates); }
      BeforeIsTotal(e.match_, anchor);
      StringLessIsTotal(e.match_.path, anchor.path);
      if StringLess(e.match_.path, anchor.path) {
        continue;
      }
      mismatch := mismatch || e.flaw != Clean;
      if e.flaw == Corrupt {
        return if anchorFound then Found(Page([], false, ByMismatch, None)) else StaleCursor;
      }
      if cut == WithinRecord(k) {
        return OutOfTime(anchor, inherited);
      }
      if SamePosition(e.match_, anchor) {
        anchorFound := true;
      } else if e.match_.path != anchor.path || !PositionLess(e.match_, anchor) {
        if one { CandidateKept(stream, k, anchor, limit, candidates); }
        candidates := Bounded(candidates, e.match_, limit);
      }
    }
    if cut == BeforeRecord(|stream|) {
      return OutOfTime(anchor, inherited);
    }
    if !anchorFound {
      return StaleCursor;
    }
    if one { KeptAll(stream, anchor, limit, candidates); }
    if |candidates| > limit {
      return Found(Page(candidates[..limit], false, ByLimit, Some(AfterMatch(candidates[limit - 1], mismatch))));
    }
    r := Found(Page(candidates, !mismatch, if mismatch then ByMismatch else NotStopped, None));
  }

  // ----- chains of pages

  datatype LegacyExchange =
    LegacyExchange(anchor: Match, inherited: bool, snapshot: Option<Snapshot>, limit: nat, cut: Cut, page: Page)

  /** Each page resumes where the one before it said. */
  ghost predicate LegacyChain(stream: seq<Event>, xs: seq<LegacyExchange>, first: Match) {
    && xs != [] && xs[0].anchor == first
    && (forall i :: 0 < i < |xs| ==> xs[i - 1].page.next == Some(AfterMatch(xs[i].anchor, xs[i].inherited)))
    && (forall x :: x in xs ==>
          LegacyAnswer(stream, x.anchor, x.inherited, x.snapshot, x.limit, x.cut, Found(x.page)))
  }

  function DeliveredLegacy(xs: seq<LegacyExchange>): seq<Match> {
    if xs == [] then [] else DeliveredLegacy(xs[..|xs| - 1]) + xs[|xs| - 1].page.items
  }

  /** The last match delivered, or where the chain started. */
  function Latest(first: Match, delivered: seq<Match>): Match {
    if delivered == [] then first else delivered[|delivered| - 1]
  }

  predicate ResumesAt(cursor: Cursor, anchor: Match) {
    cursor.AfterMatch? && cursor.anchor == anchor
  }

  lemma FirstThenFirst(stream: seq<Event>, first: Match, s: seq<Match>, t: seq<Match>, n: nat)
    requires IsFirst(s, PoolAfter(stream, |stream|, first), |s|)
    requires IsFirst(t, PoolAfter(stream, |stream|, Latest(first, s)), n)
    ensures IsFirst(s + t, PoolAfter(stream, |stream|, first), |s + t|)
  {
    var z := Latest(first, s);
    var pool, rest := PoolAfter(stream, |stream|, first), PoolAfter(stream, |stream|, z);
    forall m | m in rest ensures m in pool && forall i :: 0 <= i < |s| ==> Before(s[i], m) {
      if s != [] {
        assert s[|s| - 1] in s;
        BeforeIsTransitive(first, z, m);
        forall i | 0 <= i < |s| - 1 ensures Before(s[i], m) {
          BeforeIsTransitive(s[i], z, m);
        }
      }
    }
    forall m | m in pool && m !in s ensures m in rest {}
    var all := s + t;
    forall i, j | 0 <= i < j < |all| ensures Before(all[i], all[j]) {
      if j >= |s| {
        assert t[j - |s|] in t;
      }
    }
    assert forall i :: 0 <= i < |all| ==> all[i] == if i < |s| then s[i] else t[i - |s|];
  }

  /**
   The chained pages deliver the matches after the first anchor in the logical order, each once and
   none left out between, and all of them once a page reports completion.
   */
  lemma {:induction false} LegacyPagesDeliverInOrder(stream: seq<Event>, xs: seq<LegacyExchange>, first: Match)
    requires LegacyChain(stream, xs, first)
    ensures var d := DeliveredLegacy(xs);
      && IsFirst(d, PoolAfter(stream, |stream|, first), |d|)
      && (xs[|xs| - 1].page.next.Some? ==> ResumesAt(xs[|xs| - 1].page.next.value, Latest(first, d)))
      && (xs[|xs| - 1].page.complete ==> forall m :: m in PoolAfter(stream, |stream|, first) <==> m in d)
    decreases |xs|
  {
    hide LegacyAnswer, IsFirst, PoolAfter;
    var last, init := xs[|xs| - 1], xs[..|xs| - 1];
    assert last in xs;
    forall x | x in init ensures x in xs {}
    var before := DeliveredLegacy(init);
    if |xs| > 1 {
      LegacyPagesDeliverInOrder(stream, init, first);
      assert init[|init| - 1] == xs[|xs| - 2];
    }
    assert last.anchor == Latest(first, before);
    var n := PageExtends(stream, last);
    FirstThenFirst(stream, first, before, last.page.items, n);
    RestOfThePool(stream, first, before);
    FirstAreOfThePool(stream, first, DeliveredLegacy(xs));
  }

  /** What has not been delivered comes after the latest match that has. */
  lemma RestOfThePool(stream: seq<Event>, first: Match, s: seq<Match>)
    requires IsFirst(s, PoolAfter(stream, |stream|, first), |s|)
    ensures forall m :: m in PoolAfter(stream, |stream|, first) ==> m in s || m in PoolAfter(stream, |stream|, Latest(first, s))
  {
    forall m | m in PoolAfter(stream, |stream|, first) && m !in s ensures m in PoolAfter(stream, |stream|, Latest(first, s)) {
      if s != [] {
        assert Before(s[|s| - 1], m);
      }
    }
  }

  lemma FirstAreOfThePool(stream: seq<Event>, first: Match, s: seq<Match>)
    requires IsFirst(s, PoolAfter(stream, |stream|, first), |s|)
    ensures forall m :: m in s ==> m in PoolAfter(stream, |stream|, first)
  {
  }

  lemma PageExtends(stream: seq<Event>, x: LegacyExchange) returns (n: nat)
    requires LegacyAnswer(stream, x.anchor, x.inherited, x.snapshot, x.limit, x.cut, Found(x.page))
    ensures IsFirst(x.page.items, PoolAfter(stream, |stream|, x.anchor), n)
    ensures x.page.complete ==> PoolAfter(stream, |stream|, x.anchor) <= set m | m in x.page.items
    ensures x.page.next.Some? ==> ResumesAt(x.page.next.value, Latest(x.anchor, x.page.items))
  {
    n := if x.page.items == [] && !x.page.complete then 0 else x.limit;
  }
}
