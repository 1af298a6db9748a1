/** What applied submissions mean for the files: renamings, lost files, and other writers. */
module Agreement {
  import opened Wrappers
  import opened Paths
  import opened Catalog
  import opened Disk
  import opened Preflight

  /** A state in which tree and catalog agree, every path is in use once, and no row is parked. */
  ghost predicate InStep(v: View, files: Files) {
    Agrees(v, files) && UniquePlaces(v.rows) && AllPlaced(v.rows) && LostAreEntries(v)
  }

  lemma ContentOfRow(v: View, files: Files, id: Identity)
    requires InStep(v, files) && id in v.rows && id !in v.lost
    ensures TreeFile(v.rows[id].place.path) in files && files[TreeFile(v.rows[id].place.path)] == v.rows[id].hash.data
  {
    assert Holds(files, v.rows[id]);
  }

  /** An entry that no move takes away has the path. */
  ghost predicate StaysAt(rows: Rows, w: Writer, moves: seq<Operation>, p: Path) {
    exists o :: o in rows && rows[o].place == At(p) && forall m :: m in moves ==> Identity(w, m.key) != o
  }

  /**
   A batch without self-moves is a simultaneous renaming of files: each moved file's content is at
   its destination, every other entry's file is as it was, and the tree holds nothing else.
   */
  lemma BatchRenamesSimultaneously(
    v: View, before: Files, after: Files, w: Writer, moves: seq<Operation>, id: Identity)
    requires InStep(v, before) && v.lost == {} && AllMoves(moves) && DistinctKeys(moves)
    requires InStep(After(v, w, moves), after) && id in v.rows
    requires forall m :: m in moves && Identity(w, m.key) in v.rows ==> v.rows[Identity(w, m.key)].place != At(m.path)
    ensures forall m :: m in moves && Identity(w, m.key) == id ==>
      Lookup(after, TreeFile(m.path)) == Lookup(before, TreeFile(v.rows[id].place.path)) != None
    ensures (forall m :: m in moves ==> Identity(w, m.key) != id) ==>
      Lookup(after, TreeFile(v.rows[id].place.path)) == Lookup(before, TreeFile(v.rows[id].place.path)) != None
    ensures forall p: Path :: TreeFile(p) in after ==>
      (exists m :: m in moves && p == m.path) || StaysAt(v.rows, w, moves, p)
  {
    var v' := After(v, w, moves);
    MovesEffect(v, w, moves, id);
    ContentOfRow(v, before, id);
    assert id in v'.rows && id !in v'.lost;
    ContentOfRow(v', after, id);
    forall p: Path | TreeFile(p) in after
      ensures (exists m :: m in moves && p == m.path) || StaysAt(v.rows, w, moves, p)
    {
      var o :| o in v'.rows && o !in v'.lost && v'.rows[o].place == At(p);
      MovesEffect(v, w, moves, o);
      if m :| m in moves && Identity(w, m.key) == o {
        assert p == m.path;
      } else {
        assert v.rows[o].place == At(p);
      }
    }
  }

  /**
   After an applied submission tree and catalog agree exactly if no entry was moved onto its own
   path and left without new content, and none that was lost before is still so.
   */
  lemma AgreementKeptIff(grants: set<Grant>, start: View, w: Writer, ops: seq<Operation>, files: Files)
    requires Accepted(grants, start, w, ops) && LostAreEntries(start)
    requires Agrees(Outcome(start, w, ops), files) && UniquePlaces(Outcome(start, w, ops).rows)
    requires AllPlaced(Outcome(start, w, ops).rows)
    ensures Agrees(View(Outcome(start, w, ops).rows, {}), files) <==>
      forall id :: !LosesFile(start.rows, w, ops, id) && !StaysLost(start, w, ops, id)
  {
    var v := Outcome(start, w, ops);
    forall id ensures id in v.lost <==> LosesFile(start.rows, w, ops, id) || StaysLost(start, w, ops, id) {
      AcceptedLosesExactly(grants, start, w, ops, id);
    }
    if id :| id in v.lost {
      AcceptedLosesExactly(grants, start, w, ops, id);
      OutcomeLosesKnownEntries(start, w, ops);
      LostFileIsGone(v, files, id);
      assert !Holds(files, v.rows[id]);
    }
  }

  /** A put of new content gives a lost entry a file again, whatever else the submission does. */
  lemma NewContentRestores(
    grants: set<Grant>, start: View, w: Writer, ops: seq<Operation>, files: Files, p: Operation)
    requires Accepted(grants, start, w, ops) && LostAreEntries(start) && Agrees(Outcome(start, w, ops), files)
    requires p in ops && p.Put? && Identity(w, p.key) in start.rows && PutHash(p) != start.rows[Identity(w, p.key)].hash
    ensures var id, v := Identity(w, p.key), Outcome(start, w, ops);
      && id in v.rows && id !in v.lost
      && LastPut(ops, p.key).Some?
      && Lookup(files, TreeFile(LastPut(ops, p.key).value.path)) == Some(NormalizeText(LastPut(ops, p.key).value.text))
  {
    var id, v := Identity(w, p.key), Outcome(start, w, ops);
    AcceptedEffect(grants, start, w, ops, id);
    AcceptedLosesExactly(grants, start, w, ops, id);
    assert Holds(files, v.rows[id]);
  }

  /** A self-move alone in a submission is applied, and the entry's file is lost. */
  lemma SelfMoveLosesFile(w: Writer, key: SourceKey, path: Path, row: Row, version: Version)
    requires IsPath(path) && row.place == At(path)
    ensures var id, ops := Identity(w, key), [Move(key, path, version, row.hash)];
      var start := View(map[id := row], {});
      && Accepted({Grant(w, path)}, start, w, ops)
      && Outcome(start, w, ops) == View(map[id := row.(version := version)], {id})
      && LosesFile(start.rows, w, ops, id)
  {
    var id, move := Identity(w, key), Move(key, path, version, row.hash);
    var grants, start, ops := {Grant(w, path)}, View(map[id := row], {}), [move];
    assert ops[1..] == [];
    forall kind ensures OfKind(ops, kind) == if kind == MoveKind then ops else [] {
      assert OfKind(ops[1..], kind) == [];
    }
    assert Rest(ops) == [];
    assert Grant(w, path) in grants && Within(path, path);
    assert LocallyOk(grants, start, w, move);
    assert [] + [move] == ops;
    AfterOne(start, w, [], move);
    assert After(start, w, ops) == View(map[id := row.(version := version)], {id});
    assert BatchOk(grants, start, w, ops);
    assert move in ops;
  }

  /** A submission of one writer leaves every other writer's entries, and their files, unchanged. */
  lemma OtherWritersKeepFiles(
    grants: set<Grant>, start: View, before: Files, after: Files, w: Writer, ops: seq<Operation>, id: Identity)
    requires Accepted(grants, start, w, ops) && InStep(start, before) && start.lost == {} && id.writer != w
    requires InStep(Outcome(start, w, ops), after)
    ensures Lookup(Outcome(start, w, ops).rows, id) == Lookup(start.rows, id)
    ensures id in start.rows ==>
      Lookup(after, TreeFile(start.rows[id].place.path)) == Lookup(before, TreeFile(start.rows[id].place.path)) != None
  {
    AcceptedEffect(grants, start, w, ops, id);
    AcceptedLosesExactly(grants, start, w, ops, id);
    if id in start.rows {
      ContentOfRow(start, before, id);
      ContentOfRow(Outcome(start, w, ops), after, id);
    }
  }

  /** No path lies under prefixes of two writers, so no two writers' entries can meet. */
  lemma WritersShareNoPath(grants: set<Grant>, v: Writer, w: Writer, path: Path)
    requires GrantsApart(grants) && Authorized(grants, v, path) && Authorized(grants, w, path)
    ensures v == w
  {
    var a :| a in grants && a.writer == v && Within(path, a.prefix);
    var b :| b in grants && b.writer == w && Within(path, b.prefix);
    SharedPathMeansOverlap(path, a.prefix, b.prefix);
  }

  /** The last put for a key, once applied, has its text in the tree, exactly as sent if no line end needed change. */
  lemma PutTextIsStored(grants: set<Grant>, start: View, w: Writer, ops: seq<Operation>, files: Files, k: nat)
    requires Accepted(grants, start, w, ops) && Agrees(Outcome(start, w, ops), files)
    requires PutsLast(ops, k) && Identity(w, ops[k].key) !in Outcome(start, w, ops).lost
    ensures Lookup(files, TreeFile(ops[k].path)) == Some(NormalizeText(ops[k].text))
    ensures '\r' !in ops[k].text ==> Lookup(files, TreeFile(ops[k].path)) == Some(ops[k].text)
  {
    var id, v := Identity(w, ops[k].key), Outcome(start, w, ops);
    AppliedColumns(grants, start, w, ops, id);
    NormalTextIsKept(ops[k].text);
    assert ops[k] in ops;
    assert Holds(files, v.rows[id]);
  }
}
