/**
 The store's files as a flat map, the journal of undo actions, and what it means for the journal
 to roll a failed submission back.
 */
module Disk {
  import opened Wrappers
  import opened Paths
  import opened Catalog

  /** Tree files are named by logical path; backups, parked files and objects by fresh ids. */
  datatype File = TreeFile(path: Path) | UndoFile(id: nat) | ObjectFile(id: nat)

  type Files = map<File, string>

  datatype Undo =
    | UndoObject(file: File)
    | UndoReplace(target: File, backup: Option<File>)
    | UndoRename(source: File, target: File, backup: Option<File>)
    | UndoRemove(target: File, backup: Option<File>)

  ghost function Moved(files: Files, a: File, b: File): Files
    requires a in files
  {
    (files - {a})[b := files[a]]
  }

  ghost predicate CanUndo(u: Undo, files: Files) {
    match u
    case UndoObject(_) => true
    case UndoReplace(_, backup) => backup.Some? ==> backup.value in files
    case UndoRename(source, target, backup) =>
      backup.Some? ==> backup.value in files && backup.value != target && backup.value != source
    case UndoRemove(_, backup) => backup.Some? ==> backup.value in files
  }

  ghost function PutBack(files: Files, backup: Option<File>, target: File): Files {
    if backup.Some? && backup.value in files then Moved(files, backup.value, target) else files
  }

  /** The files after one undo action, all of whose primitives succeed. */
  ghost function Undone(u: Undo, files: Files): Files {
    match u
    case UndoObject(file) => files - {file}
    case UndoReplace(target, backup) =>
      if backup.None? then files - {target} else PutBack(files, backup, target)
    case UndoRename(source, target, backup) =>
      PutBack(if target in files then Moved(files, target, source) else files, backup, target)
    case UndoRemove(target, backup) => PutBack(files, backup, target)
  }

  ghost predicate SameTree(a: Files, b: Files) {
    forall p: Path :: Lookup(a, TreeFile(p)) == Lookup(b, TreeFile(p))
  }

  lemma SameTreeTrans(a: Files, b: Files, c: Files)
    requires SameTree(a, b)
    ensures SameTree(b, c) ==> SameTree(a, c)
    ensures SameTree(b, a)
  {
    forall p: Path ensures Lookup(a, TreeFile(p)) == Lookup(b, TreeFile(p)) {}
    if SameTree(b, c) {
      forall p: Path ensures Lookup(a, TreeFile(p)) == Lookup(c, TreeFile(p)) {
        assert Lookup(b, TreeFile(p)) == Lookup(c, TreeFile(p));
      }
    }
  }

  lemma ObjectsAreNotInTree(a: Files, file: File, data: string, target: File, b: Files)
    requires file.ObjectFile? && SameTree(b, a[file := data][target := data])
    ensures SameTree(b, a[target := data])
  {
    forall p: Path ensures Lookup(b, TreeFile(p)) == Lookup(a[target := data], TreeFile(p)) {
      assert Lookup(b, TreeFile(p)) == Lookup(a[file := data][target := data], TreeFile(p));
    }
  }

  lemma SameTreeSteps(a: Files, b: Files, c: Files, p: Path, data: string, q: Path, removes: bool)
    requires SameTree(b, a[TreeFile(p) := data]) && p != q
    requires if removes then SameTree(c, b - {TreeFile(q)}) else c == b
    ensures SameTree(c, (if removes then a - {TreeFile(q)} else a)[TreeFile(p) := data])
  {
    forall r: Path
      ensures Lookup(c, TreeFile(r)) == Lookup((if removes then a - {TreeFile(q)} else a)[TreeFile(p) := data], TreeFile(r))
    {
      assert Lookup(b, TreeFile(r)) == Lookup(a[TreeFile(p) := data], TreeFile(r));
      assert removes ==> Lookup(c, TreeFile(r)) == Lookup(b - {TreeFile(q)}, TreeFile(r));
    }
  }

  /** Undoing the journal from its end succeeds and leaves the tree of base. */
  ghost predicate RollsBack(undo: seq<Undo>, files: Files, base: Files) {
    if undo == [] then SameTree(files, base)
    else
      var last := undo[|undo| - 1];
      CanUndo(last, files) && RollsBack(undo[..|undo| - 1], Undone(last, files), base)
  }

  predicate Mentions(u: Undo, f: File) {
    match u
    case UndoObject(file) => f == file
    case UndoReplace(target, backup) => f == target || backup == Some(f)
    case UndoRename(source, target, backup) => f == source || f == target || backup == Some(f)
    case UndoRemove(target, backup) => f == target || backup == Some(f)
  }

  /** Ids below next are used up; a file with a later id neither exists nor is in the journal. */
  ghost predicate FreshFrom(files: Files, undo: seq<Undo>, next: nat) {
    forall f :: IsFresh(f, next) ==> f !in files && forall u :: u in undo ==> !Mentions(u, f)
  }

  predicate IsFresh(f: File, next: nat) {
    (f.UndoFile? || f.ObjectFile?) && f.id >= next
  }

  lemma ExistingIsNotFresh(files: Files, undo: seq<Undo>, next: nat, f: File)
    requires FreshFrom(files, undo, next) && f in files
    ensures !IsFresh(f, next)
  {
  }

  lemma EmptyJournal(files: Files)
    ensures RollsBack([], files, files)
  {
  }

  /** A file that the journal does not mention makes no difference to rolling back. */
  lemma {:induction false} JunkIsHarmless(undo: seq<Undo>, files: Files, base: Files, junk: File, data: string)
    requires !junk.TreeFile? && junk !in files && forall u :: u in undo ==> !Mentions(u, junk)
    ensures RollsBack(undo, files, base) <==> RollsBack(undo, files[junk := data], base)
    decreases |undo|
  {
    if undo == [] {
      assert forall p: Path :: Lookup(files[junk := data], TreeFile(p)) == Lookup(files, TreeFile(p));
    } else {
      var n := |undo| - 1;
      var last := undo[n];
      assert !Mentions(last, junk);
      UndoKeepsJunk(last, files, junk, data);
      if CanUndo(last, files) {
        JunkIsHarmless(undo[..n], Undone(last, files), base, junk, data);
      }
    }
  }

  lemma UndoKeepsJunk(u: Undo, files: Files, junk: File, data: string)
    requires !Mentions(u, junk) && junk !in files
    ensures CanUndo(u, files) <==> CanUndo(u, files[junk := data])
    ensures CanUndo(u, files) ==> junk !in Undone(u, files)
    ensures CanUndo(u, files) ==> Undone(u, files[junk := data]) == Undone(u, files)[junk := data]
  {
    var more := files[junk := data];
    match u
    case UndoObject(file) =>
    case UndoReplace(target, backup) =>
    case UndoRename(source, target, backup) =>
      var f := if target in files then Moved(files, target, source) else files;
      var g := if target in more then Moved(more, target, source) else more;
      assert g == f[junk := data];
    case UndoRemove(target, backup) =>
  }

  /** An action that undoes the last step exactly extends the journal. */
  lemma JournalStep(undo: seq<Undo>, u: Undo, before: Files, after: Files, base: Files)
    requires RollsBack(undo, before, base)
    requires CanUndo(u, after) && Undone(u, after) == before
    ensures RollsBack(undo + [u], after, base)
  {
    assert (undo + [u])[..|undo|] == undo;
  }

  /** The copy of target kept before it is overwritten or removed. */
  ghost function WithBackup(files: Files, target: File, backup: Option<File>): Files {
    if backup.Some? && target in files then files[backup.value := files[target]] else files
  }

  ghost predicate BacksUp(files: Files, target: File, backup: Option<File>) {
    (backup.Some? <==> target in files) && (backup.Some? ==> backup.value.UndoFile? && backup.value !in files)
  }

  lemma RenameUndoes(files: Files, source: File, target: File, backup: Option<File>)
    requires source in files && source != target && BacksUp(files, target, backup)
    ensures var after := Moved(WithBackup(files, target, backup), source, target);
      CanUndo(UndoRename(source, target, backup), after) && Undone(UndoRename(source, target, backup), after) == files
  {
  }

  lemma RenameMovesInTree(files: Files, source: File, target: File, backup: Option<File>)
    requires source in files && source != target && BacksUp(files, target, backup)
    ensures SameTree(Moved(WithBackup(files, target, backup), source, target), Moved(files, source, target))
  {
  }

  /** A rename and its undo action keep the journal able to restore the base. */
  lemma RenameKeepsJournal(
    undo: seq<Undo>, before: Files, base: Files, next: nat, source: File, target: File, backup: Option<File>)
    requires source in before && source != target && BacksUp(before, target, backup)
    requires RollsBack(undo, before, base) && FreshFrom(WithBackup(before, target, backup), undo, next)
    requires !IsFresh(source, next) && !IsFresh(target, next) && (backup.Some? ==> !IsFresh(backup.value, next))
    ensures var after, more := Moved(WithBackup(before, target, backup), source, target), undo + [UndoRename(source, target, backup)];
      && RollsBack(more, after, base) && FreshFrom(after, more, next)
      && SameTree(after, Moved(before, source, target))
  {
    RenameUndoes(before, source, target, backup);
    RenameMovesInTree(before, source, target, backup);
    JournalStep(undo, UndoRename(source, target, backup), before, Moved(WithBackup(before, target, backup), source, target), base);
  }

  lemma ReplaceUndoes(files: Files, target: File, backup: Option<File>, data: string)
    requires BacksUp(files, target, backup)
    ensures var after := WithBackup(files, target, backup)[target := data];
      CanUndo(UndoReplace(target, backup), after) && Undone(UndoReplace(target, backup), after) == files
  {
  }

  lemma RemoveUndoes(files: Files, target: File, backup: Option<File>)
    requires target in files && BacksUp(files, target, backup)
    ensures var after := WithBackup(files, target, backup) - {target};
      CanUndo(UndoRemove(target, backup), after) && Undone(UndoRemove(target, backup), after) == files
  {
  }

  // ----- agreement of tree and catalog

  /** Where a row's content is: in the tree, or parked under the id in its path column. */
  function Location(place: Place): File {
    match place
    case At(path) => TreeFile(path)
    case CyclePark(id) => UndoFile(id)
  }

  /**
   Catalog and tree agree, except for the lost identities: each other row's content is where the
   row says, with the recorded hash, and the tree holds nothing else.
   */
  ghost predicate Agrees(v: View, files: Files) {
    && (forall id :: id in v.rows && id !in v.lost ==> Holds(files, v.rows[id]))
    && (forall p: Path :: TreeFile(p) in files ==> exists id :: id in v.rows && id !in v.lost && v.rows[id].place == At(p))
  }

  ghost predicate Holds(files: Files, row: Row) {
    Location(row.place) in files && Sha256(files[Location(row.place)]) == row.hash
  }

  lemma AgreesDependsOnTree(v: View, a: Files, b: Files)
    requires Agrees(v, a) && AllPlaced(v.rows) && SameTree(a, b)
    ensures Agrees(v, b)
  {
    forall id | id in v.rows && id !in v.lost ensures Holds(b, v.rows[id]) {
      assert Holds(a, v.rows[id]);
      assert Lookup(a, TreeFile(v.rows[id].place.path)) == Lookup(b, TreeFile(v.rows[id].place.path));
    }
    forall p: Path | TreeFile(p) in b
      ensures exists id :: id in v.rows && id !in v.lost && v.rows[id].place == At(p)
    {
      assert Lookup(a, TreeFile(p)) == Lookup(b, TreeFile(p));
    }
  }

  /** A row and its file change place together, to a place nothing occupies. */
  lemma RelocateKeepsAgreement(v: View, files: Files, id: Identity, row: Row)
    requires Agrees(v, files) && UniquePlaces(v.rows) && id in v.rows && id !in v.lost
    requires row.hash == v.rows[id].hash && Location(row.place) !in files
    ensures Location(v.rows[id].place) in files
    ensures Agrees(View(v.rows[id := row], v.lost), Moved(files, Location(v.rows[id].place), Location(row.place)))
  {
    assert Holds(files, v.rows[id]);
    var from, to := Location(v.rows[id].place), Location(row.place);
    var rows', files' := v.rows[id := row], Moved(files, from, to);
    forall other | other in rows' && other !in v.lost ensures Holds(files', rows'[other]) {
      if other != id {
        assert Holds(files, v.rows[other]);
        assert v.rows[other].place != v.rows[id].place;
      }
    }
    forall p: Path | TreeFile(p) in files'
      ensures exists other :: other in rows' && other !in v.lost && rows'[other].place == At(p)
    {
      if TreeFile(p) == to {
        assert rows'[id].place == At(p);
      } else {
        var other :| other in v.rows && other !in v.lost && v.rows[other].place == At(p);
        assert other != id;
        assert rows'[other].place == At(p);
      }
    }
  }

  lemma LiveFileHasEntry(v: View, files: Files, p: Path)
    requires Agrees(v, files) && TreeFile(p) in files
    ensures exists id :: id in v.rows && id !in v.lost && v.rows[id].place == At(p)
  {
  }

  /** A live file at a path means some other row has the path, so taking it would break uniqueness. */
  lemma LiveFileMeansTaken(v: View, files: Files, id: Identity, row: Row)
    requires Agrees(v, files) && row.place.At? && TreeFile(row.place.path) in files
    requires id in v.rows ==> v.rows[id].place != row.place || id in v.lost
    ensures !UniquePlaces(v.rows[id := row])
  {
    var other :| other in v.rows && other !in v.lost && v.rows[other].place == row.place;
    assert v.rows[id := row][other].place == v.rows[id := row][id].place;
  }

  /** A parked row given back its own path, its file left parked: the identity is lost. */
  lemma ForgettingFileKeepsAgreement(v: View, files: Files, id: Identity, row: Row)
    requires Agrees(v, files) && row.place.At? && id in v.rows && v.rows[id].place.CyclePark?
    requires UniquePlaces(v.rows[id := row])
    ensures Agrees(View(v.rows[id := row], v.lost + {id}), files)
  {
    var rows' := v.rows[id := row];
    forall p: Path | TreeFile(p) in files
      ensures exists other :: other in rows' && other !in v.lost + {id} && rows'[other].place == At(p)
    {
      var other :| other in v.rows && other !in v.lost && v.rows[other].place == At(p);
      assert other != id && rows'[other].place == At(p);
    }
  }

  lemma RowHasFile(v: View, files: Files, id: Identity)
    requires Agrees(v, files) && id in v.rows && id !in v.lost
    ensures Location(v.rows[id].place) in files
  {
    assert Holds(files, v.rows[id]);
  }

  /** A lost entry's path names no file. */
  lemma LostFileIsGone(v: View, files: Files, id: Identity)
    requires Agrees(v, files) && UniquePlaces(v.rows) && id in v.rows && id in v.lost && v.rows[id].place.At?
    ensures Location(v.rows[id].place) !in files
  {
  }

  /** The tree once content has been stored at path for id, and id's former file removed. */
  ghost function Stored(rows: Rows, files: Files, id: Identity, path: Path, data: string): Files {
    var kept := if id in rows && rows[id].place != At(path) then files - {Location(rows[id].place)} else files;
    kept[TreeFile(path) := data]
  }

  /** What a put does to the files before its row is written. */
  ghost predicate PutFiles(v: View, before: Files, after: Files, id: Identity, row: Row) {
    if id in v.rows && v.rows[id].hash == row.hash then
      if v.rows[id].place == row.place then after == before
      else
        && Location(v.rows[id].place) in before
        && (Location(row.place) !in before ==> after == Moved(before, Location(v.rows[id].place), Location(row.place)))
    else row.place.At? && SameTree(after, Stored(v.rows, before, id, row.place.path, row.hash.data))
  }

  lemma PutKeepsAgreement(v: View, before: Files, after: Files, id: Identity, row: Row)
    requires Agrees(v, before) && UniquePlaces(v.rows) && AllPlaced(v.rows)
    requires row.place.At? && PutFiles(v, before, after, id, row) && UniquePlaces(v.rows[id := row])
    ensures Agrees(View(v.rows[id := row], if id in v.rows && v.rows[id].hash == row.hash then v.lost else v.lost - {id}), after)
  {
    if id in v.rows && v.rows[id].hash == row.hash {
      if v.rows[id].place == row.place {
        RewriteKeepsAgreement(v, before, id, row);
      } else {
        if id in v.lost { LostFileIsGone(v, before, id); }
        if Location(row.place) in before { LiveFileMeansTaken(v, before, id, row); }
        RelocateKeepsAgreement(v, before, id, row);
      }
    } else {
      StoreKeepsAgreement(v, before, id, row);
      AgreesDependsOnTree(View(v.rows[id := row], v.lost - {id}), Stored(v.rows, before, id, row.place.path, row.hash.data), after);
    }
  }

  lemma RewriteKeepsAgreement(v: View, files: Files, id: Identity, row: Row)
    requires Agrees(v, files) && id in v.rows && v.rows[id].place == row.place && v.rows[id].hash == row.hash
    ensures Agrees(View(v.rows[id := row], v.lost), files)
  {
    var rows' := v.rows[id := row];
    forall other | other in rows' && other !in v.lost ensures Holds(files, rows'[other]) {
      assert Holds(files, v.rows[other]);
    }
    forall p: Path | TreeFile(p) in files
      ensures exists other :: other in rows' && other !in v.lost && rows'[other].place == At(p)
    {
      var other :| other in v.rows && other !in v.lost && v.rows[other].place == At(p);
      assert rows'[other].place == At(p);
    }
  }

  lemma StoreKeepsAgreement(v: View, files: Files, id: Identity, row: Row)
    requires Agrees(v, files) && UniquePlaces(v.rows) && AllPlaced(v.rows)
    requires row.place.At? && UniquePlaces(v.rows[id := row])
    ensures Agrees(View(v.rows[id := row], v.lost - {id}), Stored(v.rows, files, id, row.place.path, row.hash.data))
  {
    var rows', files' := v.rows[id := row], Stored(v.rows, files, id, row.place.path, row.hash.data);
    forall other | other in rows' && other !in v.lost - {id} ensures Holds(files', rows'[other]) {
      if other != id {
        assert Holds(files, v.rows[other]);
        assert rows'[id].place == row.place && rows'[other].place != row.place;
        assert id in v.rows ==> v.rows[other].place != v.rows[id].place;
      }
    }
    forall p: Path | TreeFile(p) in files'
      ensures exists other :: other in rows' && other !in v.lost - {id} && rows'[other].place == At(p)
    {
      if p == row.place.path {
        assert rows'[id].place == At(p);
      } else {
        var other :| other in v.rows && other !in v.lost && v.rows[other].place == At(p);
        assert other != id && rows'[other].place == At(p);
      }
    }
  }

  lemma DeleteKeepsAgreement(v: View, files: Files, id: Identity)
    requires Agrees(v, files) && UniquePlaces(v.rows) && AllPlaced(v.rows) && id in v.rows
    ensures Agrees(View(v.rows - {id}, v.lost - {id}), files - {Location(v.rows[id].place)})
  {
    var rows', files' := v.rows - {id}, files - {Location(v.rows[id].place)};
    forall other | other in rows' && other !in v.lost - {id} ensures Holds(files', rows'[other]) {
      assert Holds(files, v.rows[other]);
    }
    forall p: Path | TreeFile(p) in files'
      ensures exists other :: other in rows' && other !in v.lost - {id} && rows'[other].place == At(p)
    {
      var other :| other in v.rows && other !in v.lost && v.rows[other].place == At(p);
      assert rows'[other].place == At(p);
    }
  }

  /** What one move of a batch does to the files: it renames its source, if it has one. */
  ghost predicate MoveFiles(v: View, before: Files, after: Files, id: Identity, m: Operation, source: Option<File>)
    requires m.Move? && id in v.rows
  {
    if source.None? then after == before && v.rows[id].place.CyclePark?
    else
      && source.value == Location(v.rows[id].place) && v.rows[id].place != At(m.path) && source.value in before
      && (TreeFile(m.path) !in before ==> after == Moved(before, source.value, TreeFile(m.path)))
  }

  lemma MoveKeepsAgreement(v: View, before: Files, after: Files, id: Identity, m: Operation, source: Option<File>)
    requires Agrees(v, before) && UniquePlaces(v.rows) && id in v.rows && id !in v.lost && m.Move?
    requires MoveFiles(v, before, after, id, m, source) && UniquePlaces(v.rows[id := MovedRow(v.rows[id], m)])
    ensures source.Some? ==> TreeFile(m.path) !in before
    ensures Agrees(View(v.rows[id := MovedRow(v.rows[id], m)], if source.None? then v.lost + {id} else v.lost), after)
  {
    var row := MovedRow(v.rows[id], m);
    if source.None? {
      ForgettingFileKeepsAgreement(v, before, id, row);
    } else {
      if TreeFile(m.path) in before { LiveFileMeansTaken(v, before, id, row); }
      RelocateKeepsAgreement(v, before, id, row);
    }
  }

  /** A lost entry's row moves alone, to a path that no other entry has. */
  lemma MoveLostKeepsAgreement(v: View, files: Files, id: Identity, row: Row)
    requires Agrees(v, files) && id in v.rows && id in v.lost && UniquePlaces(v.rows[id := row])
    ensures Agrees(View(v.rows[id := row], v.lost), files)
  {
    var rows' := v.rows[id := row];
    forall other | other in rows' && other !in v.lost ensures Holds(files, rows'[other]) {
      assert Holds(files, v.rows[other]);
    }
    forall p: Path | TreeFile(p) in files
      ensures exists other :: other in rows' && other !in v.lost && rows'[other].place == At(p)
    {
      var other :| other in v.rows && other !in v.lost && v.rows[other].place == At(p);
      assert rows'[other].place == At(p);
    }
  }

  /** The file of a row that is not lost is where the row says; that of a lost row is nowhere. */
  lemma FileThereUnlessLost(v: View, files: Files, id: Identity)
    requires Agrees(v, files) && UniquePlaces(v.rows) && id in v.rows && v.rows[id].place.At?
    ensures Location(v.rows[id].place) in files <==> id !in v.lost
  {
    if id in v.lost { LostFileIsGone(v, files, id); } else { assert Holds(files, v.rows[id]); }
  }
}
