/**
 Paged grep: a scan over ripgrep's records that a limit or a timeout may cut at any record, the
 cursors by which it resumes, and the loop that drains the pages.
 */
module Grep {
  import opened Wrappers

  /** A match as returned; its position is line, start and end. */
  datatype Match = Match(path: string, hash: string, line: nat, start: nat, end: nat)

  /** The state of the matched file: in the catalog, absent from it, or contradicting it. */
  datatype Flaw = Clean | Uncatalogued | Corrupt

  /** What ripgrep's next record turns out to be: a match, or a record over the size bound. */
  datatype Event = Hit(match_: Match, flaw: Flaw) | Oversized

  /** A cursor names the last match delivered, and remembers any mismatch seen on the way. */
  datatype Cursor = SearchStart(mismatch: bool) | AfterMatch(anchor: Match, mismatch: bool)

  datatype Stop = NotStopped | ByLimit | ByTimeout | ByMismatch | BySize

  datatype Page = Page(items: seq<Match>, complete: bool, stopped: Stop, next: Option<Cursor>)

  /** Where time runs out, if it does: in checking the pattern, before a record, or in verifying one. */
  datatype Cut = Never | InValidation | BeforeRecord(k: nat) | WithinRecord(k: nat)

  // ----- the unchanged tree

  predicate Stops(e: Event) {
    e.Oversized? || e.flaw == Corrupt
  }

  predicate Flawed(e: Event) {
    e.Oversized? || e.flaw != Clean
  }

  /** How many records precede the first that no scan gets past. */
  function Reach(stream: seq<Event>): (n: nat)
    ensures n <= |stream| && forall i :: 0 <= i < n ==> !Stops(stream[i])
    ensures n < |stream| ==> Stops(stream[n])
  {
    if stream == [] || Stops(stream[0]) then 0 else 1 + Reach(stream[1..])
  }

  /** The first n matches of one unbounded scan. */
  function Matches(stream: seq<Event>, n: nat): (r: seq<Match>)
    requires n <= Reach(stream)
    ensures |r| == n && forall i :: 0 <= i < n ==> r[i] == stream[i].match_
  {
    seq(n, i requires 0 <= i < n => stream[i].match_)
  }

  ghost predicate Flawless(stream: seq<Event>) {
    forall i :: 0 <= i < |stream| ==> !Flawed(stream[i])
  }

  /** No match is reported twice, and every match in a file carries the file's one hash. */
  ghost predicate OneTree(stream: seq<Event>) {
    && (forall i, j :: 0 <= i < j < |stream| && stream[i].Hit? && stream[j].Hit? ==> !SamePosition(stream[i].match_, stream[j].match_))
    && (forall i, j :: 0 <= i < |stream| && 0 <= j < |stream| && SameFile(stream[i], stream[j]) ==>
          stream[i].match_.hash == stream[j].match_.hash)
  }

  predicate SameFile(a: Event, b: Event) {
    a.Hit? && b.Hit? && a.match_.path == b.match_.path
  }

  predicate SamePosition(a: Match, b: Match) {
    a.path == b.path && a.line == b.line && a.start == b.start && a.end == b.end
  }

  /** The cursor stands after the first n matches, with a true account of the flaws among them. */
  ghost predicate IsAt(stream: seq<Event>, cursor: Option<Cursor>, n: nat) {
    && n <= Reach(stream)
    && (n == 0 <==> cursor.None? || cursor.value.SearchStart?)
    && (n > 0 ==> cursor.value.anchor == stream[n - 1].match_)
    && (cursor.Some? && cursor.value.mismatch ==> !Flawless(stream))
    && (forall i :: 0 <= i < n && Flawed(stream[i]) ==> cursor.Some? && cursor.value.mismatch)
  }

  lemma CursorHasOnePosition(stream: seq<Event>, cursor: Option<Cursor>, m: nat, n: nat)
    requires OneTree(stream) && IsAt(stream, cursor, m) && IsAt(stream, cursor, n)
    ensures m == n
  {
    if m > 0 && n > 0 {
      assert SamePosition(stream[m - 1].match_, stream[n - 1].match_);
    }
  }

  /** Where a scan that has passed m matches stands when time runs out. */
  function PlaceOf(cut: Cut, m: nat): nat
    requires cut != Never
  {
    if cut.InValidation? || cut.k < m then m else cut.k
  }

  /** The page takes the scan from its first m matches to its first n. */
  ghost predicate Continues(stream: seq<Event>, limit: nat, cut: Cut, page: Page, m: nat, n: nat) {
    && m <= n <= Reach(stream) && page.items == Matches(stream, n)[m..] && |page.items| <= limit
    && (page.next.Some? ==> IsAt(stream, page.next, n))
    && (page.next.Some? <==> page.stopped == ByLimit || page.stopped == ByTimeout)
    && (page.complete <==> page.stopped == NotStopped)
    && (page.complete ==> n == |stream| && Flawless(stream))
    && (page.stopped == ByLimit ==> |page.items| == limit) && (|page.items| == limit > 0 ==> page.stopped == ByLimit)
    && (page.stopped == ByTimeout ==> cut != Never && n == PlaceOf(cut, m))
    && (cut.BeforeRecord? ==> n <= PlaceOf(cut, m))
    && (page.stopped == ByMismatch || page.stopped == BySize ==> n == Reach(stream) && !Flawless(stream))
    && (page.stopped == BySize ==> n < |stream| && stream[n].Oversized?)
  }

  /** The variables of a scan in progress. */
  datatype ScanState = ScanState(items: seq<Match>, anchorFound: bool, last: Option<Match>, mismatch: bool)

  /** How a scan ends: with a result, or finding its cursor stale. */
  datatype ScanEnd = Ended(items: seq<Match>, stopped: Stop, next: Option<Cursor>, mismatch: bool) | Stale

  /** Where a scan cut by a timeout can be taken up again. */
  function TimeoutCursor(resume: Option<Cursor>, s: ScanState): Cursor {
    if !s.anchorFound && resume.Some? then resume.value
    else if s.last.Some? then AfterMatch(s.last.value, s.mismatch)
    else SearchStart(s.mismatch)
  }

  function TimedOut(resume: Option<Cursor>, s: ScanState): ScanEnd {
    Ended(s.items, ByTimeout, Some(TimeoutCursor(resume, s)), s.mismatch)
  }

  /** An end without continuation; a scan that has not found its anchor is stale instead. */
  function EndedBy(s: ScanState, stopped: Stop): ScanEnd {
    if s.anchorFound then Ended(s.items, stopped, None, s.mismatch) else Stale
  }

  /**
   One record: passed over before the anchor, refused, or delivered.  Time may run out while the
   record is being verified.
   */
  function ConsumeRecord(e: Event, timesOut: bool, resume: Option<Cursor>, limit: nat, s: ScanState): (ScanState, Option<ScanEnd>)
    requires resume.Some? ==> resume.value.AfterMatch?
    requires !s.anchorFound ==> resume.Some?
  {
    if e.Oversized? then (s, Some(EndedBy(s, BySize)))
    else if !s.anchorFound && e.match_.path != resume.value.anchor.path then (s, None)
    else
      var seen := s.(mismatch := s.mismatch || e.flaw != Clean);
      if e.flaw == Corrupt then (seen, Some(EndedBy(seen, ByMismatch)))
      else if timesOut then (seen, Some(TimedOut(resume, seen)))
      else if !s.anchorFound then
        if e.match_.hash != resume.value.anchor.hash then (seen, Some(Stale))
        else if SamePosition(e.match_, resume.value.anchor) then
          (seen.(anchorFound := true, last := Some(e.match_)), None)
        else (seen, None)
      else
        var more := seen.(items := s.items + [e.match_], last := Some(e.match_));
        (more, if |more.items| >= limit
               then Some(Ended(more.items, ByLimit, Some(AfterMatch(e.match_, more.mismatch)), more.mismatch))
               else None)
  }

  /** The page a finished scan is reported as. */
  function PageOf(r: ScanEnd): Page
    requires r.Ended?
  {
    var stopped := if r.stopped == NotStopped && r.mismatch then ByMismatch else r.stopped;
    Page(r.items, stopped == NotStopped, stopped, r.next)
  }

  /** What the scan needs to know of its resumption to keep its promises. */
  ghost predicate Resumes(stream: seq<Event>, resume: Option<Cursor>, inherited: bool, n: nat) {
    && OneTree(stream) && IsAt(stream, resume, n) && (inherited ==> !Flawless(stream))
    && (resume.Some? ==> resume.value.AfterMatch?)
    && (forall i :: 0 <= i < n && Flawed(stream[i]) ==> inherited)
  }

  /** The state of the scan before record k, having started n matches in. */
  ghost predicate Scanning(stream: seq<Event>, n: nat, k: nat, limit: nat, s: ScanState) {
    && k <= Reach(stream) && n <= Reach(stream)
    && (s.anchorFound <==> k >= n)
    && (if k < n then s.items == [] else s.items == Matches(stream, k)[n..] && |s.items| < limit)
    && (s.anchorFound ==> s.last == if k == 0 then None else Some(stream[k - 1].match_))
    && (s.mismatch ==> !Flawless(stream))
    && (forall i :: (0 <= i < n || n <= i < k) && Flawed(stream[i]) ==> s.mismatch)
  }

  /** A scan may be cut at any record, and its cursor stands after what it delivered. */
  lemma TimeoutIsResumable(
    stream: seq<Event>, resume: Option<Cursor>, inherited: bool, n: nat, k: nat, limit: nat, cut: Cut, s: ScanState)
    requires Resumes(stream, resume, inherited, n) && Scanning(stream, n, k, limit, s)
    requires cut == BeforeRecord(k) || cut == WithinRecord(k)
    ensures Continues(stream, limit, cut, PageOf(TimedOut(resume, s)), n, if k < n then n else k)
  {
  }

  /** Before the anchor, every record of its file has its hash, and none but the anchor its position. */
  lemma AnchorIsFound(stream: seq<Event>, resume: Option<Cursor>, inherited: bool, n: nat, k: nat)
    requires Resumes(stream, resume, inherited, n) && k < n
    ensures stream[k].Hit? && resume.Some?
    ensures stream[k].match_.path == resume.value.anchor.path ==> stream[k].match_.hash == resume.value.anchor.hash
    ensures SamePosition(stream[k].match_, resume.value.anchor) <==> k == n - 1
  {
    assert SameFile(stream[k], stream[n - 1]) <==> stream[k].match_.path == resume.value.anchor.path;
  }

  lemma OneMoreMatch(stream: seq<Event>, n: nat, k: nat)
    requires n <= k < |stream| && k <= Reach(stream) && !Stops(stream[k])
    ensures k + 1 <= Reach(stream) && Matches(stream, k + 1)[n..] == Matches(stream, k)[n..] + [stream[k].match_]
    ensures Flawed(stream[k]) ==> !Flawless(stream)
  {
    hide Reach;
    assert k < Reach(stream);
    MatchesGrow(stream, k);
    SliceGrows(Matches(stream, k), stream[k].match_, n);
    hide Matches;
  }

  lemma MatchesGrow(stream: seq<Event>, k: nat)
    requires k < Reach(stream)
    ensures Matches(stream, k + 1) == Matches(stream, k) + [stream[k].match_]
  {
    hide Reach;
  }

  lemma SliceGrows(s: seq<Match>, x: Match, n: nat)
    requires n <= |s|
    ensures (s + [x])[n..] == s[n..] + [x]
  {
  }

  /** The page's promises, for a cursor that stands after n matches. */
  ghost predicate Answers(stream: seq<Event>, limit: nat, cut: Cut, end: ScanEnd, n: nat) {
    end.Ended? && exists to: nat :: Continues(stream, limit, cut, PageOf(end), n, to)
  }

  /** Consuming record k keeps the scan in step, or ends it with a page that continues the search. */
  ghost predicate Consumed(
    stream: seq<Event>, n: nat, k: nat, limit: nat, cut: Cut, s': ScanState, end: Option<ScanEnd>)
  {
    if end.None? then Scanning(stream, n, k + 1, limit, s') else Answers(stream, limit, cut, end.value, n)
  }

  lemma RecordPassedOver(
    stream: seq<Event>, resume: Option<Cursor>, inherited: bool, n: nat, k: nat, limit: nat, cut: Cut, s: ScanState)
    requires Resumes(stream, resume, inherited, n) && Scanning(stream, n, k, limit, s) && k < n && limit > 0
    ensures resume.Some?
    ensures var (s', end) := ConsumeRecord(stream[k], cut == WithinRecord(k), resume, limit, s);
      Consumed(stream, n, k, limit, cut, s', end)
  {
    AnchorIsFound(stream, resume, inherited, n, k);
    var (s', end) := ConsumeRecord(stream[k], cut == WithinRecord(k), resume, limit, s);
    if end.Some? {
      TimeoutIsResumable(stream, resume, inherited, n, k, limit, cut, s');
    }
  }

  lemma RecordDelivered(
    stream: seq<Event>, resume: Option<Cursor>, inherited: bool, n: nat, k: nat, limit: nat, cut: Cut, s: ScanState)
    requires Resumes(stream, resume, inherited, n) && Scanning(stream, n, k, limit, s) && n <= k < |stream| && limit > 0
    requires cut.BeforeRecord? ==> cut.k > k
    ensures var (s', end) := ConsumeRecord(stream[k], cut == WithinRecord(k), resume, limit, s);
      Consumed(stream, n, k, limit, cut, s', end)
  {
    hide Matches, OneTree, IsAt;
    var (s', end) := ConsumeRecord(stream[k], cut == WithinRecord(k), resume, limit, s);
    if Stops(stream[k]) {
      assert Continues(stream, limit, cut, PageOf(end.value), n, k);
    } else {
      OneMoreMatch(stream, n, k);
      if cut == WithinRecord(k) {
        TimeoutIsResumable(stream, resume, inherited, n, k, limit, cut, s');
      } else {
        MatchDelivered(stream, resume, inherited, n, k, limit, cut, s);
      }
    }
  }

  lemma MatchDelivered(
    stream: seq<Event>, resume: Option<Cursor>, inherited: bool, n: nat, k: nat, limit: nat, cut: Cut, s: ScanState)
    requires Resumes(stream, resume, inherited, n) && Scanning(stream, n, k, limit, s) && n <= k < |stream| && limit > 0
    requires !Stops(stream[k]) && cut != WithinRecord(k) && (cut.BeforeRecord? ==> cut.k > k)
    ensures var (s', end) := ConsumeRecord(stream[k], false, resume, limit, s);
      Consumed(stream, n, k, limit, cut, s', end)
  {
    hide Matches, OneTree, IsAt, Flawless, Reach;
    OneMoreMatch(stream, n, k);
    var (s', end) := ConsumeRecord(stream[k], false, resume, limit, s);
    ScanStandsAfter(stream, n, k + 1, s'.mismatch);
    if end.Some? {
      assert Continues(stream, limit, cut, PageOf(end.value), n, k + 1);
    }
  }

  lemma ScanStandsAfter(stream: seq<Event>, n: nat, k: nat, mismatch: bool)
    requires n <= k <= Reach(stream) && k > 0
    requires (mismatch ==> !Flawless(stream)) && forall i :: 0 <= i < k && Flawed(stream[i]) ==> mismatch
    ensures IsAt(stream, Some(AfterMatch(stream[k - 1].match_, mismatch)), k)
  {
  }

  lemma ScanStarts(stream: seq<Event>, resume: Option<Cursor>, inherited: bool, n: nat, limit: nat)
    requires Resumes(stream, resume, inherited, n) && limit > 0
    ensures Scanning(stream, n, 0, limit, ScanState([], resume.None?, None, inherited))
  {
  }

  lemma ScanEnds(stream: seq<Event>, resume: Option<Cursor>, inherited: bool, n: nat, limit: nat, cut: Cut, s: ScanState)
    requires Resumes(stream, resume, inherited, n) && Scanning(stream, n, |stream|, limit, s)
    requires cut.BeforeRecord? ==> cut.k > |stream|
    ensures Answers(stream, limit, cut, EndedBy(s, NotStopped), n)
  {
    assert Continues(stream, limit, cut, PageOf(EndedBy(s, NotStopped)), n, |stream|);
  }

  /** Among the first k records is the match the cursor names, in a file with its hash. */
  predicate HasAnchor(stream: seq<Event>, k: nat, anchor: Match) {
    exists i :: 0 <= i < k && i < |stream| && IsAnchor(stream[i], anchor)
  }

  predicate IsAnchor(e: Event, anchor: Match) {
    e.Hit? && SamePosition(e.match_, anchor) && e.match_.hash == anchor.hash
  }

  lemma FindsAnchor(stream: seq<Event>, k: nat, timesOut: bool, resume: Option<Cursor>, limit: nat, s: ScanState)
    requires k < |stream| && (!s.anchorFound ==> resume.Some?) && (resume.Some? ==> resume.value.AfterMatch?)
    requires s.anchorFound && resume.Some? ==> HasAnchor(stream, k, resume.value.anchor)
    ensures ConsumeRecord(stream[k], timesOut, resume, limit, s).0.anchorFound && resume.Some? ==>
      HasAnchor(stream, k + 1, resume.value.anchor)
    ensures resume.Some? && HasAnchor(stream, k, resume.value.anchor) ==> HasAnchor(stream, |stream|, resume.value.anchor)
  {
    if resume.Some? && !s.anchorFound && ConsumeRecord(stream[k], timesOut, resume, limit, s).0.anchorFound {
      assert IsAnchor(stream[k], resume.value.anchor);
    }
  }

  /** Time runs out before the scan is past its first n records, in one that it verifies if in any. */
  predicate CutsBefore(stream: seq<Event>, resume: Option<Cursor>, cut: Cut, n: nat) {
    match cut
    case BeforeRecord(k) => k < n
    case WithinRecord(k) =>
      && k < n && k < |stream| && stream[k].Hit?
      && resume.Some? && resume.value.AfterMatch? && stream[k].match_.path == resume.value.anchor.path
    case _ => false
  }

  /**
   The scan.  A page ends at its limit, at a timeout, at a record that contradicts the catalog or
   is too large, or at the end of the stream.
   */
  method ScanTree(stream: seq<Event>, resume: Option<Cursor>, inherited: bool, limit: nat, cut: Cut, ghost n: nat)
    returns (end: ScanEnd)
    requires limit > 0 && (resume.Some? ==> resume.value.AfterMatch?)
    ensures Resumes(stream, resume, inherited, n) ==> Answers(stream, limit, cut, end, n)
    ensures Resumes(stream, resume, inherited, n) && CutsBefore(stream, resume, cut, n) ==>
      end.items == [] && end.next == resume
    ensures end.Ended? && resume.Some? && (end.stopped != ByTimeout || end.items != []) ==>
      HasAnchor(stream, |stream|, resume.value.anchor)
  {
    hide Continues, Matches, HasAnchor, IsAt, OneTree, Flawless, Reach;
    ghost var at := Resumes(stream, resume, inherited, n);
    var s := ScanState([], resume.None?, None, inherited);
    if at { ScanStarts(stream, resume, inherited, n, limit); }
    for k := 0 to |stream|
      invariant !s.anchorFound ==> resume.Some? && s.items == []
      invariant s.anchorFound && resume.Some? ==> HasAnchor(stream, k, resume.value.anchor)
      invariant at ==> Scanning(stream, n, k, limit, s)
      invariant cut.BeforeRecord? ==> cut.k >= k
      invariant CutsBefore(stream, resume, cut, n) && cut.WithinRecord? ==> cut.k >= k
    {
      FindsAnchor(stream, k, cut == WithinRecord(k), resume, limit, s);
      if cut == BeforeRecord(k) {
        if at { TimeoutIsResumable(stream, resume, inherited, n, k, limit, cut, s); }
        return TimedOut(resume, s);
      }
      if at && k < n { RecordPassedOver(stream, resume, inherited, n, k, limit, cut, s); }
      if at && k >= n { RecordDelivered(stream, resume, inherited, n, k, limit, cut, s); }
      var (s', ended) := ConsumeRecord(stream[k], cut == WithinRecord(k), resume, limit, s);
      if ended.Some? {
        return ended.value;
      }
      s := s';
    }
    if cut == BeforeRecord(|stream|) {
      if at { TimeoutIsResumable(stream, resume, inherited, n, |stream|, limit, cut, s); }
      return TimedOut(resume, s);
    }
    if at { ScanEnds(stream, resume, inherited, n, limit, cut, s); }
    end := EndedBy(s, NotStopped);
  }

  datatype GrepResult = Found(page: Page) | InvalidLimit | StaleCursor

  /** One page of a search, from its start or from the cursor of an earlier page. */
  method Grep(stream: seq<Event>, cursor: Option<Cursor>, limit: nat, cut: Cut) returns (r: GrepResult)
    ensures limit == 0 <==> r.InvalidLimit?
    ensures forall n: nat :: limit > 0 && OneTree(stream) && IsAt(stream, cursor, n) ==>
      r.Found? && exists to: nat :: Continues(stream, limit, cut, r.page, n, to)
    ensures forall n: nat :: limit > 0 && OneTree(stream) && IsAt(stream, cursor, n) && (cut.InValidation? || CutsBefore(stream, cursor, cut, n)) ==>
      r.Found? && r.page.items == [] && (cursor.Some? ==> r.page.next == cursor)
    ensures r.Found? && cursor.Some? && cursor.value.AfterMatch? && (r.page.stopped != ByTimeout || r.page.items != []) ==>
      HasAnchor(stream, |stream|, cursor.value.anchor)
  {
    if limit == 0 {
      return InvalidLimit;
    }
    ghost var n: nat := 0;
    if m: nat :| IsAt(stream, cursor, m) { n := m; }
    forall m: nat | OneTree(stream) && IsAt(stream, cursor, m) ensures m == n {
      CursorHasOnePosition(stream, cursor, m, n);
    }
    if cut.InValidation? {
      r := Found(Page([], false, ByTimeout, if cursor.Some? then cursor else Some(SearchStart(false))));
      assert IsAt(stream, cursor, n) ==> Continues(stream, limit, cut, r.page, n, n);
      return;
    }
    var inherited := cursor.Some? && cursor.value.mismatch;
    var resume := if cursor.Some? && cursor.value.SearchStart? then None else cursor;
    var end := ScanTree(stream, resume, inherited, limit, cut, n);
    assert OneTree(stream) && IsAt(stream, cursor, n) ==> Resumes(stream, resume, inherited, n);
    r := if end.Stale? then StaleCursor else Found(PageOf(end));
  }

  // ----- chains of pages

  /** One request and its page. */
  datatype Exchange = Exchange(cursor: Option<Cursor>, limit: nat, cut: Cut, page: Page)

  /** The page is one that Grep may return. */
  ghost predicate Answered(stream: seq<Event>, x: Exchange) {
    forall n: nat :: IsAt(stream, x.cursor, n) ==> exists to: nat :: Continues(stream, x.limit, x.cut, x.page, n, to)
  }

  /** Each request after the first passes on the cursor it was given. */
  ghost predicate Chained(xs: seq<Exchange>) {
    && xs != [] && xs[0].cursor == None
    && forall i :: 0 < i < |xs| ==> xs[i].cursor == xs[i - 1].page.next && xs[i].cursor.Some?
  }

  function Delivered(xs: seq<Exchange>): seq<Match> {
    if xs == [] then [] else Delivered(xs[..|xs| - 1]) + xs[|xs| - 1].page.items
  }

  /**
   For any limits and any timeouts, the pages chained through their cursors deliver a prefix of
   one unbounded scan, without gap or repetition, and all of it once a page reports completion.
   */
  lemma {:induction false} ChainedPagesHaveNoGaps(stream: seq<Event>, xs: seq<Exchange>) returns (n: nat)
    requires OneTree(stream) && Chained(xs) && forall x :: x in xs ==> Answered(stream, x)
    ensures n <= Reach(stream) && Delivered(xs) == Matches(stream, n)
    ensures xs[|xs| - 1].page.next.Some? ==> IsAt(stream, xs[|xs| - 1].page.next, n)
    ensures xs[|xs| - 1].page.complete ==> n == |stream| && Flawless(stream)
    decreases |xs|
  {
    var last := xs[|xs| - 1];
    assert last in xs;
    var m: nat := 0;
    if |xs| == 1 {
      assert IsAt(stream, last.cursor, 0);
      assert xs[..0] == [];
    } else {
      var init := xs[..|xs| - 1];
      forall x | x in init ensures x in xs {}
      m := ChainedPagesHaveNoGaps(stream, init);
    }
    var to: nat :| Continues(stream, last.limit, last.cut, last.page, m, to);
    n := to;
    assert Matches(stream, n) == Matches(stream, m) + Matches(stream, n)[m..];
  }

  // ----- draining

  datatype DrainResult = Drained(items: seq<Match>, stopped: Stop) | TimedOutSearch | IncompleteSearch | TooManyPages

  const MAX_PAGES: nat := 100
  const PAGE_LIMIT: nat := 1000

  /** How many matches a drain may return: at least one, whatever limit is asked for. */
  function Wanted(limit: nat): nat {
    if limit == 0 then 1 else limit
  }

  /** One more page, for a caller that holds the matches up to its cursor. */
  method NextPage(stream: seq<Event>, items: seq<Match>, cursor: Option<Cursor>, limit: nat, cut: Cut)
    returns (page: Page, more: seq<Match>)
    requires OneTree(stream) && limit > 0 && IsAt(stream, cursor, |items|) && items == Matches(stream, |items|)
    ensures more == items + page.items && Continues(stream, limit, cut, page, |items|, |more|)
    ensures more == Matches(stream, |more|)
  {
    hide HasAnchor, IsAt, OneTree, Flawless, CutsBefore;
    var found := Grep(stream, cursor, limit, cut);
    page := found.page;
    ghost var to: nat :| Continues(stream, limit, cut, page, |items|, to);
    more := items + page.items;
    assert Matches(stream, to) == Matches(stream, |items|) + Matches(stream, to)[|items|..];
  }

  /** How many matches the pages hold. */
  function Held(pages: seq<Page>): nat {
    if pages == [] then 0 else Held(pages[..|pages| - 1]) + |pages[|pages| - 1].items|
  }

  function PageLimit(limit: Option<nat>, held: nat): nat {
    match limit
    case None => PAGE_LIMIT
    case Some(l) => if l <= held then 1 else l - held
  }

  /** The pages continue one another, and after each but the last there was a reason to go on. */
  ghost predicate Followed(
    stream: seq<Event>, limit: Option<nat>, cuts: nat -> Cut, inBudget: nat -> bool, pages: seq<Page>)
  {
    forall p :: 0 <= p < |pages| ==>
      && Follows(stream, limit, cuts, pages, p)
      && (p + 1 < |pages| ==> pages[p].stopped == ByLimit && limit.None? && inBudget(p))
  }

  ghost predicate Follows(stream: seq<Event>, limit: Option<nat>, cuts: nat -> Cut, pages: seq<Page>, p: nat)
    requires p < |pages|
  {
    Continues(stream, PageLimit(limit, Held(pages[..p])), cuts(p), pages[p], Held(pages[..p]), Held(pages[..p + 1]))
  }

  /**
   What a drain promises: it is never silently short, and when it raises, the last page followed
   is the reason.
   */
  ghost predicate DrainedRight(
    stream: seq<Event>, limit: Option<nat>, inBudget: nat -> bool, pages: seq<Page>, r: DrainResult)
    requires pages != []
  {
    var last, held := pages[|pages| - 1], Held(pages);
    match r
    case Drained(items, stopped) =>
      && held <= Reach(stream) && items == Matches(stream, held) && stopped == last.stopped
      && (limit.None? ==> held == |stream| && Flawless(stream))
      && (limit.Some? ==> held == Wanted(limit.value) || held == |stream| < Wanted(limit.value))
    case TimedOutSearch => last.stopped == ByTimeout || (last.stopped == ByLimit && limit.None? && !inBudget(|pages| - 1))
    case IncompleteSearch =>
      !Flawless(stream) && held == Reach(stream) && (limit.Some? ==> held < Wanted(limit.value))
    case TooManyPages => limit.None? && |pages| == 100 && held == 100_000 <= |stream|
  }

  lemma HeldOneMore(pages: seq<Page>, page: Page)
    ensures Held(pages + [page]) == Held(pages) + |page.items|
    ensures (pages + [page])[..|pages|] == pages
  {
  }

  lemma FollowedOneMore(
    stream: seq<Event>, limit: Option<nat>, cuts: nat -> Cut, inBudget: nat -> bool, pages: seq<Page>, page: Page)
    requires Followed(stream, limit, cuts, inBudget, pages)
    requires pages != [] ==> pages[|pages| - 1].stopped == ByLimit && limit.None? && inBudget(|pages| - 1)
    requires Continues(stream, PageLimit(limit, Held(pages)), cuts(|pages|), page, Held(pages), Held(pages) + |page.items|)
    ensures Followed(stream, limit, cuts, inBudget, pages + [page])
  {
    hide Continues, Follows, Held, PageLimit;
    var more, n := pages + [page], |pages|;
    HeldOneMore(pages, page);
    FollowsLast(stream, limit, cuts, more, n);
    forall p | 0 <= p < n ensures Follows(stream, limit, cuts, more, p) && more[p] == pages[p] {
      FollowsStill(stream, limit, cuts, pages, page, p);
    }
  }

  lemma FollowsLast(stream: seq<Event>, limit: Option<nat>, cuts: nat -> Cut, pages: seq<Page>, n: nat)
    requires n + 1 == |pages|
    requires Continues(stream, PageLimit(limit, Held(pages[..n])), cuts(n), pages[n], Held(pages[..n]), Held(pages))
    ensures Follows(stream, limit, cuts, pages, n)
  {
    hide Continues, Held, PageLimit;
    assert pages[..n + 1] == pages;
  }

  lemma FollowsStill(stream: seq<Event>, limit: Option<nat>, cuts: nat -> Cut, pages: seq<Page>, page: Page, p: nat)
    requires p < |pages| && Follows(stream, limit, cuts, pages, p)
    ensures Follows(stream, limit, cuts, pages + [page], p)
  {
    hide Continues, Held;
    assert (pages + [page])[..p] == pages[..p] && (pages + [page])[..p + 1] == pages[..p + 1];
  }

  /**
   Follows the cursors until the search is complete or the limit reached.  The schedules cuts and
   inBudget say what happens to each page's time.
   */
  method DrainGrep(stream: seq<Event>, limit: Option<nat>, cuts: nat -> Cut, inBudget: nat -> bool)
    returns (r: DrainResult, ghost pages: seq<Page>)
    requires OneTree(stream)
    ensures pages != [] && |pages| <= MAX_PAGES && Followed(stream, limit, cuts, inBudget, pages)
    ensures DrainedRight(stream, limit, inBudget, pages, r)
  {
    hide OneTree, IsAt, Matches, Flawless, Followed, Follows, Held, Reach;
    var items: seq<Match> := [];
    var cursor: Option<Cursor> := None;
    pages := [];
    SearchStartsAtTheFirstMatch(stream);
    NothingFollowed(stream, limit, cuts, inBudget);
    for p := 0 to MAX_PAGES
      invariant |pages| == p && Held(pages) == |items| && Followed(stream, limit, cuts, inBudget, pages)
      invariant p > 0 ==> pages[p - 1].stopped == ByLimit && limit.None? && inBudget(p - 1)
      invariant |items| <= Reach(stream) && items == Matches(stream, |items|) && IsAt(stream, cursor, |items|)
      invariant |items| == p * PAGE_LIMIT
    {
      var pageLimit := PageLimit(limit, |items|);
      var page, more := NextPage(stream, items, cursor, pageLimit, cuts(p));
      FollowedOneMore(stream, limit, cuts, inBudget, pages, page);
      HeldOneMore(pages, page);
      items, pages := more, pages + [page];
      if page.complete {
        return Drained(items, page.stopped), pages;
      }
      if page.stopped == ByLimit && limit.Some? {
        return Drained(items, ByLimit), pages;
      }
      if page.stopped == ByTimeout {
        return TimedOutSearch, pages;
      }
      if page.next.None? {
        return IncompleteSearch, pages;
      }
      cursor := page.next;
      if !inBudget(p) {
        return TimedOutSearch, pages;
      }
    }
    r := TooManyPages;
  }

  lemma NothingFollowed(stream: seq<Event>, limit: Option<nat>, cuts: nat -> Cut, inBudget: nat -> bool)
    ensures Followed(stream, limit, cuts, inBudget, []) && Held([]) == 0
  {
  }

  lemma SearchStartsAtTheFirstMatch(stream: seq<Event>)
    ensures IsAt(stream, None, 0) && Matches(stream, 0) == []
  {
  }
}
