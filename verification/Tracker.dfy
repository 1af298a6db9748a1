/**
 The tracker: it compares each folder's scan with the state it saved, submits the difference, and
 saves the new state once every submission has been acknowledged.
 */
module Tracker {
  import opened Wrappers
  import opened Paths
  import opened Catalog
  import opened Disk

  /** What the tracker remembers of a file; states written by old versions hold only the version. */
  datatype TrackedFile =
    TrackedFile(version: Version, path: Option<Path>, format: Option<string>, hash: Option<Hash>)

  /** A file that the walk of a folder read: its inode, its path in the folder, its format and its text. */
  datatype ScannedFile = ScannedFile(inode: string, relative: string, format: string, text: string)

  /** What walking a folder yields; it is incomplete when something there could not be read. */
  datatype Scan = Scan(files: seq<ScannedFile>, complete: bool)

  datatype Folder = Folder(prefix: Path, scan: Scan)

  type Tracked = map<SourceKey, TrackedFile>

  type State = map<Path, Tracked>

  // ----- the difference

  function StripSlashes(s: string): string {
    if s != [] && s[|s| - 1] == '/' then StripSlashes(s[..|s| - 1]) else s
  }

  function KeyOf(prefix: Path, f: ScannedFile): SourceKey {
    SourceKey(prefix, f.inode)
  }

  function PathOf(prefix: Path, f: ScannedFile): Path {
    StripSlashes(prefix) + "/" + f.relative
  }

  function HashOf(text: string): Hash {
    Sha256(NormalizeText(text))
  }

  function Seen(prefix: Path, f: ScannedFile): TrackedFile {
    TrackedFile(Version(f.text), Some(PathOf(prefix, f)), Some(f.format), Some(HashOf(f.text)))
  }

  /** What to submit for a scanned file: nothing if unchanged, a move if only renamed, else a put. */
  function Change(before: Tracked, prefix: Path, f: ScannedFile): Option<Operation> {
    var key, seen := KeyOf(prefix, f), Seen(prefix, f);
    if key in before && before[key] == seen then None
    else if key in before && before[key].version == seen.version && before[key].path.Some? && before[key].path != seen.path
      && before[key].format == seen.format && before[key].hash.Some?
    then Some(Move(key, PathOf(prefix, f), seen.version, before[key].hash.value))
    else Some(Put(key, PathOf(prefix, f), seen.version, f.format, f.text))
  }

  function Current(prefix: Path, files: seq<ScannedFile>): Tracked {
    if files == [] then map[]
    else
      var n := |files| - 1;
      Current(prefix, files[..n])[KeyOf(prefix, files[n]) := Seen(prefix, files[n])]
  }

  ghost predicate UniqueInodes(files: seq<ScannedFile>) {
    forall i, j :: 0 <= i < j < |files| ==> files[i].inode != files[j].inode
  }

  lemma {:induction false} CurrentHolds(prefix: Path, files: seq<ScannedFile>)
    ensures forall k :: k in Current(prefix, files) <==> exists f :: f in files && KeyOf(prefix, f) == k
    ensures UniqueInodes(files) ==> forall f :: f in files ==> Current(prefix, files)[KeyOf(prefix, f)] == Seen(prefix, f)
  {
    if files != [] {
      var n := |files| - 1;
      assert files == files[..n] + [files[n]];
      CurrentHolds(prefix, files[..n]);
      if UniqueInodes(files) {
        forall f | f in files[..n] ensures f.inode != files[n].inode {
          var i :| 0 <= i < n && files[..n][i] == f;
        }
      }
    }
  }

  /** The operations are those that the scan calls for, and deletes of what a complete scan no longer finds. */
  ghost predicate Plans(before: Tracked, prefix: Path, scan: Scan, ops: seq<Operation>) {
    && InScanOrder(before, prefix, scan, ops)
    && forall op :: op in ops <==>
         || (exists f :: f in scan.files && Change(before, prefix, f) == Some(op))
         || (scan.complete && op.Delete? && Gone(before, prefix, scan, op.key) && op.version == before[op.key].version)
  }

  /** What the files call for comes first, in the order of the scan; then the deletes. */
  ghost predicate InScanOrder(before: Tracked, prefix: Path, scan: Scan, ops: seq<Operation>) {
    var changes := Changes(before, prefix, scan.files);
    changes <= ops && forall i :: |changes| <= i < |ops| ==> ops[i].Delete?
  }

  predicate Gone(before: Tracked, prefix: Path, scan: Scan, key: SourceKey) {
    key in before && key !in Current(prefix, scan.files)
  }

  /** What the tracker then remembers of the folder. */
  function Merged(before: Tracked, prefix: Path, scan: Scan): Tracked {
    (if scan.complete then map[] else before) + Current(prefix, scan.files)
  }

  // ----- agreement with the store

  predicate Matches(row: Row, t: TrackedFile) {
    && row.version == t.version
    && (t.path.Some? ==> row.place == At(t.path.value))
    && (t.format.Some? ==> row.format == t.format.value)
    && (t.hash.Some? ==> row.hash == t.hash.value)
  }

  predicate AgreesAt(rows: Rows, w: Writer, tracked: Tracked, key: SourceKey) {
    var id := Identity(w, key);
    (id in rows <==> key in tracked) && (id in rows ==> Matches(rows[id], tracked[key]))
  }

  /** The entries of the folder's source keys are those the tracker remembers. */
  ghost predicate FolderAgrees(rows: Rows, w: Writer, prefix: Path, tracked: Tracked) {
    forall key: SourceKey :: key.scope == prefix ==> AgreesAt(rows, w, tracked, key)
  }

  /** Keys belong to their folder, and a remembered hash is that of the remembered version's text. */
  ghost predicate Coherent(prefix: Path, tracked: Tracked) {
    forall key :: key in tracked ==>
      key.scope == prefix && (tracked[key].hash.Some? ==> tracked[key].hash.value == HashOf(tracked[key].version.of))
  }

  lemma MergedIsCoherent(before: Tracked, prefix: Path, scan: Scan)
    requires Coherent(prefix, before) && UniqueInodes(scan.files)
    ensures Coherent(prefix, Merged(before, prefix, scan))
  {
    CurrentHolds(prefix, scan.files);
  }

  lemma InodeNamesFile(files: seq<ScannedFile>, f: ScannedFile, g: ScannedFile)
    requires UniqueInodes(files) && f in files && g in files
    ensures f.inode == g.inode ==> f == g
  {
    var i :| 0 <= i < |files| && files[i] == f;
    var j :| 0 <= j < |files| && files[j] == g;
  }

  lemma OneChangeForAKey(before: Tracked, prefix: Path, scan: Scan, ops: seq<Operation>, f: ScannedFile, op: Operation)
    requires Plans(before, prefix, scan, ops) && UniqueInodes(scan.files) && f in scan.files
    requires op in ops && op.key == KeyOf(prefix, f)
    ensures Change(before, prefix, f) == Some(op)
  {
    CurrentHolds(prefix, scan.files);
    if g :| g in scan.files && Change(before, prefix, g) == Some(op) {
      InodeNamesFile(scan.files, f, g);
    }
  }

  /** A scanned file's entry afterwards is what was seen of it. */
  lemma SeenIsApplied(
    rows: Rows, rows': Rows, w: Writer, before: Tracked, prefix: Path, scan: Scan, ops: seq<Operation>, f: ScannedFile)
    requires Plans(before, prefix, scan, ops) && UniqueInodes(scan.files) && f in scan.files
    requires FolderAgrees(rows, w, prefix, before) && Coherent(prefix, before) && TakesEffect(rows, rows', w, ops)
    ensures var id := Identity(w, KeyOf(prefix, f)); id in rows' && Matches(rows'[id], Seen(prefix, f))
  {
    var key, id := KeyOf(prefix, f), Identity(w, KeyOf(prefix, f));
    assert AgreesAt(rows, w, before, key) && FinalRow(rows, w, ops, id, Lookup(rows', id));
    forall op | op in ops && op.key == key ensures Change(before, prefix, f) == Some(op) {
      OneChangeForAKey(before, prefix, scan, ops, f, op);
    }
    var change := Change(before, prefix, f);
    if change.Some? {
      assert change.value in ops;
      if change.value.Put? {
        assert LastPut(ops, key) == change;
      } else {
        assert LastPut(ops, key) == None;
        assert change.value.Move?;
      }
    } else {
      assert LastPut(ops, key) == None;
    }
  }

  /** A key the scan did not find is deleted if the scan was complete, and otherwise left alone. */
  lemma UnseenIsSettled(
    rows: Rows, rows': Rows, w: Writer, before: Tracked, prefix: Path, scan: Scan, ops: seq<Operation>, key: SourceKey)
    requires Plans(before, prefix, scan, ops) && key !in Current(prefix, scan.files) && key.scope == prefix
    requires FolderAgrees(rows, w, prefix, before) && TakesEffect(rows, rows', w, ops)
    ensures Lookup(rows', Identity(w, key)) == if scan.complete then None else Lookup(rows, Identity(w, key))
  {
    var id := Identity(w, key);
    CurrentHolds(prefix, scan.files);
    assert AgreesAt(rows, w, before, key) && FinalRow(rows, w, ops, id, Lookup(rows', id));
    forall op | op in ops && op.key == key ensures op.Delete? && scan.complete {
      if f :| f in scan.files && Change(before, prefix, f) == Some(op) {
        assert KeyOf(prefix, f) == key;
      }
    }
    assert LastPut(ops, key) == None;
    if scan.complete && key in before {
      assert Delete(key, before[key].version) in ops;
    }
  }

  /** The submission touches no key of another folder and no entry of another writer. */
  lemma OthersAreLeft(
    rows: Rows, rows': Rows, w: Writer, before: Tracked, prefix: Path, scan: Scan, ops: seq<Operation>, id: Identity)
    requires Plans(before, prefix, scan, ops) && Coherent(prefix, before) && TakesEffect(rows, rows', w, ops)
    requires id.writer != w || id.key.scope != prefix
    ensures Lookup(rows', id) == Lookup(rows, id)
  {
    assert FinalRow(rows, w, ops, id, Lookup(rows', id));
    assert forall op :: op in ops ==> op.key.scope == prefix;
  }

  /** Applying the difference makes the store agree with what the tracker will remember. */
  lemma DifferenceMirrors(
    rows: Rows, rows': Rows, w: Writer, before: Tracked, prefix: Path, scan: Scan, ops: seq<Operation>)
    requires Plans(before, prefix, scan, ops) && UniqueInodes(scan.files)
    requires FolderAgrees(rows, w, prefix, before) && Coherent(prefix, before) && TakesEffect(rows, rows', w, ops)
    ensures FolderAgrees(rows', w, prefix, Merged(before, prefix, scan))
  {
    CurrentHolds(prefix, scan.files);
    forall key: SourceKey | key.scope == prefix ensures AgreesAt(rows', w, Merged(before, prefix, scan), key) {
      if f :| f in scan.files && KeyOf(prefix, f) == key {
        SeenIsApplied(rows, rows', w, before, prefix, scan, ops, f);
      } else {
        UnseenIsSettled(rows, rows', w, before, prefix, scan, ops, key);
        assert AgreesAt(rows, w, before, key);
      }
    }
  }

  /** While the tracker's memory agrees with the store, it never moves an entry onto its own path. */
  lemma NoFileIsLost(rows: Rows, w: Writer, before: Tracked, prefix: Path, scan: Scan, ops: seq<Operation>)
    requires Plans(before, prefix, scan, ops) && FolderAgrees(rows, w, prefix, before)
    ensures forall m :: m in ops ==> !SelfMove(rows, w, m)
    ensures forall id :: !LosesFile(rows, w, ops, id)
  {
    forall m | m in ops && m.Move? ensures !SelfMove(rows, w, m) {
      var f :| f in scan.files && Change(before, prefix, f) == Some(m);
      assert AgreesAt(rows, w, before, m.key);
    }
  }

  /**
   A submission applied but not acknowledged is sent again, and then every move in it is onto the
   entry's own path: applying it loses exactly the files it had moved.
   */
  lemma ResendLosesTheMoved(
    rows: Rows, rows': Rows, w: Writer, before: Tracked, prefix: Path, scan: Scan, ops: seq<Operation>, id: Identity)
    requires Plans(before, prefix, scan, ops) && UniqueInodes(scan.files)
    requires FolderAgrees(rows, w, prefix, before) && Coherent(prefix, before) && TakesEffect(rows, rows', w, ops)
    ensures LosesFile(rows', w, ops, id) <==> id.writer == w && exists m :: m in ops && m.Move? && m.key == id.key
  {
    if m :| id.writer == w && m in ops && m.Move? && m.key == id.key {
      var f :| f in scan.files && Change(before, prefix, f) == Some(m);
      SeenIsApplied(rows, rows', w, before, prefix, scan, ops, f);
      forall op | op in ops && op.key == id.key ensures op == m {
        OneChangeForAKey(before, prefix, scan, ops, f, op);
      }
    }
  }

  /** The string without its slashes at the end. */
  lemma {:induction false} StripSlashesIs(stem: string, slashes: string)
    requires (stem == "" || stem[|stem| - 1] != '/') && forall c :: c in slashes ==> c == '/'
    ensures StripSlashes(stem + slashes) == stem
    decreases |slashes|
  {
    if slashes == "" {
      assert stem + slashes == stem;
    } else {
      assert (stem + slashes)[..|stem + slashes| - 1] == stem + slashes[..|slashes| - 1];
      var fewer := slashes[..|slashes| - 1];
      assert slashes[|slashes| - 1] in slashes;
      forall c | c in fewer ensures c == '/' { assert c in slashes; }
      StripSlashesIs(stem, fewer);
    }
  }

  /**
   The mirror theorem's reading: after a complete scan the folder's entries are the files scanned,
   each at its relative path under the prefix, whose slashes at the end count once.
   */
  lemma CompleteScanIsMirrored(
    rows: Rows, w: Writer, before: Tracked, prefix: Path, scan: Scan, key: SourceKey, stem: string, slashes: string)
    requires FolderAgrees(rows, w, prefix, Merged(before, prefix, scan)) && UniqueInodes(scan.files)
    requires scan.complete && key.scope == prefix
    requires prefix == stem + slashes && (stem == "" || stem[|stem| - 1] != '/') && forall c :: c in slashes ==> c == '/'
    ensures Identity(w, key) in rows <==> exists f :: f in scan.files && key == SourceKey(prefix, f.inode)
    ensures forall f :: f in scan.files && key == SourceKey(prefix, f.inode) ==>
      rows[Identity(w, key)] ==
        Row(At(stem + "/" + f.relative), Version(f.text), f.format, Sha256(NormalizeText(f.text)))
  {
    StripSlashesIs(stem, slashes);
    CurrentHolds(prefix, scan.files);
    assert AgreesAt(rows, w, Merged(before, prefix, scan), key);
  }

  /** A file is left alone if all that is remembered of it still holds. */
  predicate Unchanged(t: TrackedFile, path: Path, f: ScannedFile) {
    t.version.of == f.text && t.path == Some(path) && t.format == Some(f.format) && t.hash == Some(Sha256(NormalizeText(f.text)))
  }

  /** Only its path is known to differ. */
  predicate OnlyRenamed(t: TrackedFile, path: Path, f: ScannedFile) {
    t.version.of == f.text && t.path.Some? && t.path.value != path && t.format == Some(f.format) && t.hash.Some?
  }

  /** An unchanged file calls for nothing, a renamed one for a move, and any other for a put of its text. */
  lemma ChangeIs(before: Tracked, prefix: Path, f: ScannedFile, stem: string, slashes: string)
    requires prefix == stem + slashes && (stem == "" || stem[|stem| - 1] != '/') && forall c :: c in slashes ==> c == '/'
    ensures var key, path := SourceKey(prefix, f.inode), stem + "/" + f.relative;
      Change(before, prefix, f) ==
        if key in before && Unchanged(before[key], path, f) then None
        else if key in before && OnlyRenamed(before[key], path, f)
        then Some(Move(key, path, Version(f.text), before[key].hash.value))
        else Some(Put(key, path, Version(f.text), f.format, f.text))
  {
    StripSlashesIs(stem, slashes);
  }

  /** What is remembered: all that was found, and, of an incomplete scan, what was not found as before. */
  lemma MergedIs(before: Tracked, prefix: Path, scan: Scan, key: SourceKey)
    requires UniqueInodes(scan.files)
    ensures forall f :: f in scan.files && key == SourceKey(prefix, f.inode) ==>
      key in Merged(before, prefix, scan) && Merged(before, prefix, scan)[key].version.of == f.text
      && Unchanged(Merged(before, prefix, scan)[key], PathOf(prefix, f), f)
    ensures (forall f :: f in scan.files ==> key != SourceKey(prefix, f.inode)) ==>
      Lookup(Merged(before, prefix, scan), key) == if scan.complete then None else Lookup(before, key)
  {
    CurrentHolds(prefix, scan.files);
  }

  /** An incomplete scan deletes nothing: what it did not find stays as it was. */
  lemma IncompleteScanDeletesNothing(
    rows: Rows, rows': Rows, w: Writer, before: Tracked, prefix: Path, scan: Scan, ops: seq<Operation>, id: Identity)
    requires Plans(before, prefix, scan, ops) && UniqueInodes(scan.files) && !scan.complete
    requires FolderAgrees(rows, w, prefix, before) && Coherent(prefix, before) && TakesEffect(rows, rows', w, ops)
    ensures id in rows ==> id in rows'
  {
    if id.writer != w || id.key.scope != prefix {
      OthersAreLeft(rows, rows', w, before, prefix, scan, ops, id);
    } else {
      CurrentHolds(prefix, scan.files);
      if f :| f in scan.files && KeyOf(prefix, f) == id.key {
        SeenIsApplied(rows, rows', w, before, prefix, scan, ops, f);
      } else {
        UnseenIsSettled(rows, rows', w, before, prefix, scan, ops, id.key);
      }
    }
  }

  // ----- one synchronisation

  function Before(state: State, prefix: Path): Tracked {
    if prefix in state then state[prefix] else map[]
  }

  /** The scan of a folder; a folder no longer configured counts as one found complete and empty. */
  function ScanOf(folders: seq<Folder>, prefix: Path): Scan {
    if folders == [] then Scan([], true)
    else if folders[0].prefix == prefix then folders[0].scan
    else ScanOf(folders[1..], prefix)
  }

  function Remembered(state: State, folders: seq<Folder>, prefix: Path): Tracked {
    Merged(Before(state, prefix), prefix, ScanOf(folders, prefix))
  }

  ghost predicate WellScanned(folders: seq<Folder>) {
    && (forall i, j :: 0 <= i < j < |folders| ==> folders[i].prefix != folders[j].prefix)
    && forall folder :: folder in folders ==> UniqueInodes(folder.scan.files)
  }

  lemma {:induction false} ScanOfFolder(folders: seq<Folder>, i: nat)
    requires i < |folders| && WellScanned(folders)
    ensures ScanOf(folders, folders[i].prefix) == folders[i].scan
  {
    if i > 0 {
      assert folders[0].prefix != folders[i].prefix;
      assert forall f :: f in folders[1..] ==> f in folders;
      ScanOfFolder(folders[1..], i - 1);
    }
  }

  lemma {:induction false} ScanOfNone(folders: seq<Folder>, prefix: Path)
    requires forall folder :: folder in folders ==> folder.prefix != prefix
    ensures ScanOf(folders, prefix) == Scan([], true)
  {
    if folders != [] {
      assert folders[0] in folders;
      ScanOfNone(folders[1..], prefix);
    }
  }

  datatype Difference = Difference(prefix: Path, ops: seq<Operation>)

  /** The batches are the differences of the folders that differ, one batch for each. */
  ghost predicate Planned(state: State, folders: seq<Folder>, batches: seq<Difference>, covered: set<Path>) {
    && (forall i, j :: 0 <= i < j < |batches| ==> batches[i].prefix != batches[j].prefix)
    && (forall b :: b in batches ==>
          b.prefix in covered && Plans(Before(state, b.prefix), b.prefix, ScanOf(folders, b.prefix), b.ops))
    && (forall p :: p in covered && (forall b :: b in batches ==> b.prefix != p) ==>
          Plans(Before(state, p), p, ScanOf(folders, p), []))
  }

  lemma PlanOneMore(
    state: State, folders: seq<Folder>, batches: seq<Difference>, covered: set<Path>, prefix: Path, ops: seq<Operation>)
    requires Planned(state, folders, batches, covered) && prefix !in covered
    requires Plans(Before(state, prefix), prefix, ScanOf(folders, prefix), ops)
    ensures Planned(state, folders, if ops == [] then batches else batches + [Difference(prefix, ops)], covered + {prefix})
  {
    hide Plans;
    var more := if ops == [] then batches else batches + [Difference(prefix, ops)];
    forall p | p in covered + {prefix} && (forall b :: b in more ==> b.prefix != p)
      ensures Plans(Before(state, p), p, ScanOf(folders, p), [])
    {
      if ops != [] {
        assert Difference(prefix, ops) in more;
      }
      forall b | b in batches ensures b in more {}
    }
  }

  /** Adds to the operations a delete for everything remembered that a complete scan did not find. */
  method DeletesFor(before: Tracked, current: Tracked) returns (deletes: seq<Operation>)
    ensures forall op :: op in deletes <==>
      op.Delete? && op.key in before && op.key !in current && op.version == before[op.key].version
  {
    deletes := [];
    var rest := before.Keys;
    while rest != {}
      invariant rest <= before.Keys
      invariant forall op :: op in deletes <==>
        op.Delete? && op.key in before && op.key !in rest && op.key !in current && op.version == before[op.key].version
    {
      var key :| key in rest;
      rest := rest - {key};
      if key !in current {
        deletes := deletes + [Delete(key, before[key].version)];
      }
    }
  }

  /** What the scanned files call for, in the order of the scan. */
  function Changes(before: Tracked, prefix: Path, files: seq<ScannedFile>): seq<Operation> {
    if files == [] then []
    else
      var n := |files| - 1;
      var change := Change(before, prefix, files[n]);
      Changes(before, prefix, files[..n]) + if change.Some? then [change.value] else []
  }

  lemma {:induction false} ChangesAreOfFiles(before: Tracked, prefix: Path, files: seq<ScannedFile>)
    ensures forall op :: op in Changes(before, prefix, files) <==> exists f :: f in files && Change(before, prefix, f) == Some(op)
  {
    hide Change;
    if files != [] {
      var n := |files| - 1;
      ChangesAreOfFiles(before, prefix, files[..n]);
      assert files == files[..n] + [files[n]];
      forall f | f in files[..n] ensures f in files {}
    }
  }

  method ScanFolder(prefix: Path, files: seq<ScannedFile>, before: Tracked)
    returns (current: Tracked, ops: seq<Operation>)
    ensures current == Current(prefix, files) && ops == Changes(before, prefix, files)
    ensures forall op :: op in ops <==> exists f :: f in files && Change(before, prefix, f) == Some(op)
  {
    current, ops := map[], [];
    for i := 0 to |files|
      invariant current == Current(prefix, files[..i])
      invariant ops == Changes(before, prefix, files[..i])
    {
      var f := files[i];
      assert files[..i + 1][..i] == files[..i];
      var key, seen := KeyOf(prefix, f), Seen(prefix, f);
      current := current[key := seen];
      var previous := Lookup(before, key);
      if previous != Some(seen) {
        if previous.Some? && previous.value.version == seen.version && previous.value.path.Some?
          && previous.value.path != seen.path && previous.value.format == seen.format && previous.value.hash.Some? {
          ops := ops + [Move(key, PathOf(prefix, f), seen.version, previous.value.hash.value)];
        } else {
          ops := ops + [Put(key, PathOf(prefix, f), seen.version, f.format, f.text)];
        }
      }
    }
    assert files[..|files|] == files;
    ChangesAreOfFiles(before, prefix, files);
  }

  /** The difference of one configured folder, and what to remember of it. */
  method DiffFolder(prefix: Path, scan: Scan, before: Tracked) returns (merged: Tracked, ops: seq<Operation>)
    ensures merged == Merged(before, prefix, scan) && Plans(before, prefix, scan, ops)
  {
    var current;
    current, ops := ScanFolder(prefix, scan.files, before);
    merged := (if scan.complete then map[] else before) + current;
    if scan.complete {
      var deletes := DeletesFor(before, current);
      ops := ops + deletes;
    }
  }
}
