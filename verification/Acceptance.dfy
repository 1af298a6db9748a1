/**
 When the store accepts what the tracker sends.  The difference of a scan is refused, however often
 it is sent, where a file is renamed onto the path of an entry that does not make way in time.
 */
module Acceptance {
  import opened Wrappers
  import opened Paths
  import opened Catalog
  import opened Tracker

  /** A folder as remembered and as scanned. */
  datatype Renewal = Renewal(before: Tracked, prefix: Path, scan: Scan)
  {
    function Op(i: nat): Option<Operation>
      requires i < |scan.files|
    {
      Change(before, prefix, scan.files[i])
    }

    function Key(i: nat): SourceKey
      requires i < |scan.files|
    {
      KeyOf(prefix, scan.files[i])
    }

    function Path(i: nat): Path
      requires i < |scan.files|
    {
      PathOf(prefix, scan.files[i])
    }

    predicate Deletes(key: SourceKey) {
      scan.complete && Gone(before, prefix, scan, key)
    }

    /** The operations of a kind that the first n files call for, in order. */
    function UpTo(n: nat, kind: Kind): seq<Operation>
      requires n <= |scan.files|
    {
      OfKind(Changes(before, prefix, scan.files[..n]), kind)
    }

    predicate IsOf(n: nat, kind: Kind) {
      n < |scan.files| && Op(n).Some? && KindOf(Op(n).value) == kind
    }

    lemma Grows(n: nat, kind: Kind)
      requires n < |scan.files|
      ensures UpTo(n + 1, kind) == UpTo(n, kind) + if IsOf(n, kind) then [Op(n).value] else []
    {
      hide Change;
      var files := scan.files[..n + 1];
      assert files[..n] == scan.files[..n] && files[n] == scan.files[n];
      var change := if Op(n).Some? then [Op(n).value] else [];
      OfKindAppend(Changes(before, prefix, scan.files[..n]), change, kind);
      if Op(n).Some? {
        assert [Op(n).value][1..] == [];
      }
    }

    lemma {:induction false} Members(n: nat, kind: Kind)
      requires n <= |scan.files|
      ensures forall op :: op in UpTo(n, kind) <==> exists j: nat :: j < n && IsOf(j, kind) && Op(j).value == op
      decreases n
    {
      hide Change;
      if n > 0 {
        Members(n - 1, kind);
        Grows(n - 1, kind);
      }
    }

    lemma {:induction false} NothingDecided(n: nat)
      requires n <= |scan.files|
      ensures UpTo(n, DecideKind) == []
      decreases n
    {
      if n > 0 {
        NothingDecided(n - 1);
        Grows(n - 1, DecideKind);
      }
    }

    lemma KeysAreDistinct()
      requires UniqueInodes(scan.files)
      ensures forall i: nat, j: nat :: i < j < |scan.files| ==> Key(i) != Key(j)
      ensures forall i: nat :: i < |scan.files| && Op(i).Some? ==> Op(i).value.key == Key(i) && !Op(i).value.Decide? && !Op(i).value.Delete?
      ensures forall i: nat :: i < |scan.files| && Op(i).Some? && (Op(i).value.Put? || Op(i).value.Move?) ==> Op(i).value.path == Path(i)
    {
    }

    lemma {:induction false} KeysDiffer(n: nat, kind: Kind)
      requires n <= |scan.files| && UniqueInodes(scan.files)
      ensures DistinctKeys(UpTo(n, kind))
      decreases n
    {
      hide Change, UniqueInodes, KeyOf;
      KeysAreDistinct();
      if n > 0 {
        KeysDiffer(n - 1, kind);
        Members(n - 1, kind);
        Grows(n - 1, kind);
        var init := UpTo(n - 1, kind);
        forall i | 0 <= i < |init| ensures init[i].key != Key(n - 1) {
          assert init[i] in init;
        }
      }
    }
  }

  /** The parties are permitted to write and to leave the paths that the operation concerns. */
  ghost predicate Permitted(grants: set<Grant>, rows: Rows, w: Writer, op: Operation) {
    var id := Identity(w, op.key);
    && (op.Put? || op.Move? ==> IsPath(op.path) && Authorized(grants, w, op.path))
    && (op.Put? ==> '\0' !in op.text)
    && (op.Move? || op.Delete? ==>
          id in rows ==> rows[id].place.At? && Authorized(grants, w, rows[id].place.path))
    && (op.Decide? && op.where.Some? ==> IsPath(op.where.value) && Authorized(grants, w, op.where.value))
  }

  /** The entry makes way for file i: it is deleted, or moved, or, for a put, put earlier in the scan. */
  ghost predicate MakesWay(r: Renewal, w: Writer, i: nat, o: Identity) {
    && o.writer == w
    && (r.Deletes(o.key)
        || exists j: nat :: j < |r.scan.files| && r.Key(j) == o.key && (r.IsOf(j, MoveKind) || (r.IsOf(i, PutKind) && r.IsOf(j, PutKind) && j < i)))
  }

  /** No two changed files have one path, and whoever has a changed file's path makes way. */
  ghost predicate PathsAreFree(r: Renewal, w: Writer, rows: Rows) {
    && (forall i: nat, j: nat :: i < j && (r.IsOf(i, PutKind) || r.IsOf(i, MoveKind)) && (r.IsOf(j, PutKind) || r.IsOf(j, MoveKind)) ==> r.Path(i) != r.Path(j))
    && (forall i: nat, o :: (r.IsOf(i, PutKind) || r.IsOf(i, MoveKind)) && o in rows && o != Identity(w, r.Key(i)) && rows[o].place == At(r.Path(i)) ==>
          MakesWay(r, w, i, o))
  }

  /** The tracker's submission for the folder, while what it remembers agrees with the store. */
  ghost predicate Submits(r: Renewal, rows: Rows, w: Writer, ops: seq<Operation>) {
    && Plans(r.before, r.prefix, r.scan, ops) && UniqueInodes(r.scan.files) && Coherent(r.prefix, r.before)
    && FolderAgrees(rows, w, r.prefix, r.before) && UniquePlaces(rows) && AllPlaced(rows)
  }

  lemma ByKind(changes: seq<Operation>, deletes: seq<Operation>, kind: Kind)
    requires (forall op :: op in deletes ==> op.Delete?) && kind != DeleteKind
    ensures OfKind(changes + deletes, kind) == OfKind(changes, kind)
  {
    OfKindAppend(changes, deletes, kind);
    NoneOfKind(deletes, kind);
  }

  lemma OpsByKind(r: Renewal, rows: Rows, w: Writer, ops: seq<Operation>)
    requires Submits(r, rows, w, ops)
    ensures Rest(ops) == r.UpTo(|r.scan.files|, PutKind) && OfKind(ops, MoveKind) == r.UpTo(|r.scan.files|, MoveKind)
  {
    hide Change, UniquePlaces, FolderAgrees, Coherent;
    var n, changes := |r.scan.files|, Changes(r.before, r.prefix, r.scan.files);
    var deletes := ops[|changes|..];
    assert ops == changes + deletes && r.scan.files[..n] == r.scan.files;
    forall op | op in deletes ensures op.Delete? {
      var i :| 0 <= i < |deletes| && deletes[i] == op;
      assert ops[|changes| + i] == op;
    }
    ByKind(changes, deletes, PutKind);
    ByKind(changes, deletes, MoveKind);
    ByKind(changes, deletes, DecideKind);
    r.NothingDecided(n);
  }

  lemma DeletesByKey(r: Renewal, rows: Rows, w: Writer, ops: seq<Operation>, key: SourceKey)
    requires Submits(r, rows, w, ops)
    ensures (exists d :: d in OfKind(ops, DeleteKind) && d.key == key) <==> r.Deletes(key)
  {
    hide UniquePlaces, FolderAgrees, Coherent, Current;
    if r.Deletes(key) {
      assert Delete(key, r.before[key].version) in OfKind(ops, DeleteKind);
    }
    if d :| d in OfKind(ops, DeleteKind) && d.key == key {
      assert d in ops && d.Delete?;
    }
  }

  lemma {:induction false} NoneOfKind(ops: seq<Operation>, kind: Kind)
    requires forall op :: op in ops ==> KindOf(op) != kind
    ensures OfKind(ops, kind) == []
  {
    if ops != [] {
      NoneOfKind(ops[1..], kind);
    }
  }

  // ----- the rows from stage to stage

  ghost function Deleted(v: View, w: Writer, ops: seq<Operation>): View {
    After(v, w, OfKind(ops, DeleteKind))
  }

  ghost function Moved(v: View, w: Writer, ops: seq<Operation>): View {
    After(Deleted(v, w, ops), w, OfKind(ops, MoveKind))
  }

  /** The rows when file n's turn to be put has come. */
  ghost function BeforePut(r: Renewal, v: View, w: Writer, ops: seq<Operation>, n: nat): Rows
    requires n <= |r.scan.files|
  {
    After(Moved(v, w, ops), w, r.UpTo(n, PutKind)).rows
  }

  lemma RowAfterDeletes(r: Renewal, v: View, w: Writer, ops: seq<Operation>, o: Identity)
    requires Submits(r, v.rows, w, ops)
    ensures Lookup(Deleted(v, w, ops).rows, o) == if o.writer == w && r.Deletes(o.key) then None else Lookup(v.rows, o)
  {
    hide After, Plans, UniquePlaces, FolderAgrees, Coherent, Renewal.Deletes;
    DeletesEffect(v, w, OfKind(ops, DeleteKind), o);
    DeletesByKey(r, v.rows, w, ops, o.key);
  }

  /** A file that calls for a move has an entry, which is not deleted. */
  lemma MoverIsKnown(r: Renewal, v: View, w: Writer, ops: seq<Operation>, j: nat)
    requires Submits(r, v.rows, w, ops) && r.IsOf(j, MoveKind)
    ensures var id, rows := Identity(w, r.Key(j)), Deleted(v, w, ops).rows;
      && id in v.rows && id in rows && rows[id] == v.rows[id] && v.rows[id].hash == r.Op(j).value.expected
      && v.rows[id].place != At(r.Path(j)) && !r.Deletes(r.Key(j))
  {
    var key := r.Key(j);
    CurrentHolds(r.prefix, r.scan.files);
    assert r.scan.files[j] in r.scan.files && key in Current(r.prefix, r.scan.files);
    assert AgreesAt(v.rows, w, r.before, key);
    hide After, Plans, UniquePlaces, FolderAgrees;
    RowAfterDeletes(r, v, w, ops, Identity(w, key));
    assert Lookup(v.rows, Identity(w, key)).Some?;
  }

  lemma RowAfterMoves(r: Renewal, v: View, w: Writer, ops: seq<Operation>, o: Identity)
    requires Submits(r, v.rows, w, ops)
    ensures var rows := Moved(v, w, ops).rows;
      && (forall j: nat :: r.IsOf(j, MoveKind) && Identity(w, r.Key(j)) == o ==> o in rows && rows[o].place == At(r.Path(j)))
      && ((forall j: nat :: r.IsOf(j, MoveKind) ==> Identity(w, r.Key(j)) != o) ==>
            Lookup(rows, o) == Lookup(Deleted(v, w, ops).rows, o))
  {
    hide After, Plans, UniquePlaces, FolderAgrees, Coherent, Change, Deleted, KeyOf;
    var n := |r.scan.files|;
    OpsByKind(r, v.rows, w, ops);
    r.KeysDiffer(n, MoveKind);
    r.Members(n, MoveKind);
    r.KeysAreDistinct();
    MovesEffect(Deleted(v, w, ops), w, OfKind(ops, MoveKind), o);
    forall j: nat | r.IsOf(j, MoveKind) && Identity(w, r.Key(j)) == o
      ensures o in Moved(v, w, ops).rows && Moved(v, w, ops).rows[o].place == At(r.Path(j))
    {
      MoverIsKnown(r, v, w, ops, j);
      assert r.Op(j).value in OfKind(ops, MoveKind);
    }
  }

  lemma RowBeforePut(r: Renewal, v: View, w: Writer, ops: seq<Operation>, n: nat, o: Identity)
    requires Submits(r, v.rows, w, ops) && n <= |r.scan.files|
    ensures var rows := BeforePut(r, v, w, ops, n);
      && (forall j: nat :: j < n && r.IsOf(j, PutKind) && Identity(w, r.Key(j)) == o ==> o in rows && rows[o].place == At(r.Path(j)))
      && ((forall j: nat :: j < n && r.IsOf(j, PutKind) ==> Identity(w, r.Key(j)) != o) ==>
            Lookup(rows, o) == Lookup(Moved(v, w, ops).rows, o))
  {
    hide After, Plans, UniquePlaces, FolderAgrees, Coherent, Change, Moved, KeyOf;
    var puts := r.UpTo(n, PutKind);
    r.Members(n, PutKind);
    r.KeysAreDistinct();
    RestEffect(Moved(v, w, ops), w, puts, o);
  }

  // ----- free paths

  /** Nobody else is at the path of file i when it is put. */
  ghost predicate FreeForPut(r: Renewal, v: View, w: Writer, ops: seq<Operation>, i: nat)
    requires i < |r.scan.files|
  {
    forall o :: o in BeforePut(r, v, w, ops, i) && o != Identity(w, r.Key(i)) ==>
      BeforePut(r, v, w, ops, i)[o].place != At(r.Path(i))
  }

  /** No move and no earlier put has the path of file i, and whoever had it makes way. */
  ghost predicate ClearForPut(r: Renewal, rows: Rows, w: Writer, i: nat)
    requires i < |r.scan.files|
  {
    && (forall j: nat :: r.IsOf(j, MoveKind) || (j < i && r.IsOf(j, PutKind)) ==> r.Path(j) != r.Path(i))
    && (forall o :: o in rows && o != Identity(w, r.Key(i)) && rows[o].place == At(r.Path(i)) ==> MakesWay(r, w, i, o))
  }

  lemma ClearIsFree(r: Renewal, v: View, w: Writer, ops: seq<Operation>, i: nat)
    requires Submits(r, v.rows, w, ops) && r.IsOf(i, PutKind) && ClearForPut(r, v.rows, w, i)
    ensures FreeForPut(r, v, w, ops, i)
  {
    hide Submits, Change, KeyOf, Renewal.Deletes, BeforePut, Moved, Deleted;
    KeysOfSubmission(r, v.rows, w, ops);
    var rows := BeforePut(r, v, w, ops, i);
    forall o | o in rows && o != Identity(w, r.Key(i)) ensures rows[o].place != At(r.Path(i)) {
      RowBeforePut(r, v, w, ops, i, o);
      RowAfterMoves(r, v, w, ops, o);
      RowAfterDeletes(r, v, w, ops, o);
      assert Lookup(rows, o) == Some(rows[o]);
    }
  }

  lemma FreeIsClear(r: Renewal, v: View, w: Writer, ops: seq<Operation>, i: nat)
    requires Submits(r, v.rows, w, ops) && r.IsOf(i, PutKind) && FreeForPut(r, v, w, ops, i)
    ensures ClearForPut(r, v.rows, w, i)
  {
    hide Submits, Change, KeyOf, Renewal.Deletes, BeforePut, Moved, Deleted;
    KeysOfSubmission(r, v.rows, w, ops);
    forall j: nat | r.IsOf(j, MoveKind) || (j < i && r.IsOf(j, PutKind)) ensures r.Path(j) != r.Path(i) {
      var o := Identity(w, r.Key(j));
      RowBeforePut(r, v, w, ops, i, o);
      RowAfterMoves(r, v, w, ops, o);
    }
    forall o | o in v.rows && o != Identity(w, r.Key(i)) && v.rows[o].place == At(r.Path(i)) ensures MakesWay(r, w, i, o) {
      RowBeforePut(r, v, w, ops, i, o);
      RowAfterMoves(r, v, w, ops, o);
      RowAfterDeletes(r, v, w, ops, o);
    }
  }

  lemma KeysOfSubmission(r: Renewal, rows: Rows, w: Writer, ops: seq<Operation>)
    requires Submits(r, rows, w, ops)
    ensures forall i: nat, j: nat :: i < j < |r.scan.files| ==> r.Key(i) != r.Key(j)
  {
    r.KeysAreDistinct();
  }

  /** Two moves of the scan go to one path, or a move goes where an entry does not make way. */
  ghost predicate ClearForMoves(r: Renewal, rows: Rows, w: Writer) {
    && (forall i: nat, j: nat :: i < j && r.IsOf(i, MoveKind) && r.IsOf(j, MoveKind) ==> r.Path(i) != r.Path(j))
    && (forall i: nat, o :: r.IsOf(i, MoveKind) && o in rows && o != Identity(w, r.Key(i)) && rows[o].place == At(r.Path(i)) ==>
          MakesWay(r, w, i, o))
  }

  lemma ClearMovesAreFree(r: Renewal, v: View, w: Writer, ops: seq<Operation>)
    requires Submits(r, v.rows, w, ops) && ClearForMoves(r, v.rows, w)
    ensures DestinationsFree(Deleted(v, w, ops).rows, w, OfKind(ops, MoveKind))
  {
    hide Submits, Change, KeyOf, Renewal.Deletes, Deleted, Renewal.UpTo, OfKind;
    KeysOfSubmission(r, v.rows, w, ops);
    OpsByKind(r, v.rows, w, ops);
    r.Members(|r.scan.files|, MoveKind);
    OpsNameFiles(r);
    var rows, moves := Deleted(v, w, ops).rows, OfKind(ops, MoveKind);
    forall m, o | m in moves && o in rows && rows[o].place == At(m.path) ensures exists n :: n in moves && Identity(w, n.key) == o {
      var i: nat :| i < |r.scan.files| && r.IsOf(i, MoveKind) && r.Op(i).value == m;
      RowAfterDeletes(r, v, w, ops, o);
      assert Lookup(rows, o) == Some(rows[o]);
      if o == Identity(w, r.Key(i)) {
        assert Identity(w, m.key) == o;
      } else {
        var j: nat :| j < |r.scan.files| && r.Key(j) == o.key && r.IsOf(j, MoveKind);
        assert r.Op(j).value in moves;
      }
    }
  }

  lemma FreeMovesAreClear(r: Renewal, v: View, w: Writer, ops: seq<Operation>)
    requires Submits(r, v.rows, w, ops) && DestinationsFree(Deleted(v, w, ops).rows, w, OfKind(ops, MoveKind))
    ensures ClearForMoves(r, v.rows, w)
  {
    hide Submits, Change, KeyOf, Renewal.Deletes, Deleted, Renewal.UpTo, OfKind;
    KeysOfSubmission(r, v.rows, w, ops);
    OpsByKind(r, v.rows, w, ops);
    r.Members(|r.scan.files|, MoveKind);
    OpsNameFiles(r);
    var rows, moves := Deleted(v, w, ops).rows, OfKind(ops, MoveKind);
    forall i: nat, j: nat | i < j && r.IsOf(i, MoveKind) && r.IsOf(j, MoveKind) ensures r.Path(i) != r.Path(j) {
      assert r.Op(i).value in moves && r.Op(j).value in moves;
    }
    forall i: nat, o | r.IsOf(i, MoveKind) && o in v.rows && o != Identity(w, r.Key(i)) && v.rows[o].place == At(r.Path(i))
      ensures MakesWay(r, w, i, o)
    {
      RowAfterDeletes(r, v, w, ops, o);
      assert r.Op(i).value in moves;
      if !(o.writer == w && r.Deletes(o.key)) {
        var n :| n in moves && Identity(w, n.key) == o;
      }
    }
  }

  lemma OpsNameFiles(r: Renewal)
    ensures forall i: nat :: i < |r.scan.files| && r.Op(i).Some? ==>
      && r.Op(i).value.key == r.Key(i) && (r.Op(i).value.Put? || r.Op(i).value.Move?) && r.Op(i).value.path == r.Path(i)
  {
  }

  // ----- acceptance

  /** A file to be put is permitted and finds its path free. */
  ghost predicate PutOk(grants: set<Grant>, r: Renewal, v: View, w: Writer, ops: seq<Operation>, i: nat)
    requires i < |r.scan.files|
  {
    r.IsOf(i, PutKind) ==> Permitted(grants, v.rows, w, r.Op(i).value) && FreeForPut(r, v, w, ops, i)
  }

  /** The puts are in order exactly if each is so when its turn comes. */
  lemma {:induction false} PutsOkIff(grants: set<Grant>, r: Renewal, v: View, w: Writer, ops: seq<Operation>, n: nat)
    requires n <= |r.scan.files| && UniquePlaces(Moved(v, w, ops).rows)
    ensures AllOk(grants, Moved(v, w, ops), w, r.UpTo(n, PutKind)) <==> forall i: nat :: i < n ==> PutOk(grants, r, v, w, ops, i)
    ensures AllOk(grants, Moved(v, w, ops), w, r.UpTo(n, PutKind)) ==> UniquePlaces(BeforePut(r, v, w, ops, n))
    decreases n
  {
    hide Moved, AllOk, UniquePlaces, After, PutOk, Renewal.IsOf, Renewal.UpTo, BeforePut;
    if n == 0 {
      NoPutYet(grants, r, v, w, ops);
    } else {
      PutsOkIff(grants, r, v, w, ops, n - 1);
      OneFileMore(grants, r, v, w, ops, n - 1);
    }
  }

  lemma OneFileMore(grants: set<Grant>, r: Renewal, v: View, w: Writer, ops: seq<Operation>, n: nat)
    requires n < |r.scan.files|
    requires AllOk(grants, Moved(v, w, ops), w, r.UpTo(n, PutKind)) ==> UniquePlaces(BeforePut(r, v, w, ops, n))
    ensures AllOk(grants, Moved(v, w, ops), w, r.UpTo(n + 1, PutKind)) <==>
      AllOk(grants, Moved(v, w, ops), w, r.UpTo(n, PutKind)) && PutOk(grants, r, v, w, ops, n)
    ensures AllOk(grants, Moved(v, w, ops), w, r.UpTo(n + 1, PutKind)) ==> UniquePlaces(BeforePut(r, v, w, ops, n + 1))
  {
    hide Moved, AllOk, UniquePlaces, After, Permitted, FreeForPut, Renewal.UpTo;
    r.Grows(n, PutKind);
    if r.IsOf(n, PutKind) {
      OnePutMore(grants, r, v, w, ops, n);
    } else {
      assert r.UpTo(n + 1, PutKind) == r.UpTo(n, PutKind);
    }
  }

  lemma NoPutYet(grants: set<Grant>, r: Renewal, v: View, w: Writer, ops: seq<Operation>)
    ensures AllOk(grants, Moved(v, w, ops), w, r.UpTo(0, PutKind)) && BeforePut(r, v, w, ops, 0) == Moved(v, w, ops).rows
  {
  }

  lemma OnePutMore(grants: set<Grant>, r: Renewal, v: View, w: Writer, ops: seq<Operation>, n: nat)
    requires r.IsOf(n, PutKind) && r.UpTo(n + 1, PutKind) == r.UpTo(n, PutKind) + [r.Op(n).value]
    requires AllOk(grants, Moved(v, w, ops), w, r.UpTo(n, PutKind)) ==> UniquePlaces(BeforePut(r, v, w, ops, n))
    ensures AllOk(grants, Moved(v, w, ops), w, r.UpTo(n + 1, PutKind)) <==>
      && AllOk(grants, Moved(v, w, ops), w, r.UpTo(n, PutKind))
      && Permitted(grants, v.rows, w, r.Op(n).value) && FreeForPut(r, v, w, ops, n)
    ensures AllOk(grants, Moved(v, w, ops), w, r.UpTo(n + 1, PutKind)) ==> UniquePlaces(BeforePut(r, v, w, ops, n + 1))
  {
    var puts, op, start := r.UpTo(n, PutKind), r.Op(n).value, Moved(v, w, ops);
    OpsNameFiles(r);
    AllOkSplit(grants, start, w, puts, op);
    AfterOne(start, w, puts, op);
    if AllOk(grants, start, w, puts) {
      UniqueAfterPut(BeforePut(r, v, w, ops, n), Identity(w, op.key), PutRow(op));
    }
    hide Moved, After, AllOk, UniquePlaces, Change, KeyOf;
  }

  lemma UniqueAfterPut(rows: Rows, id: Identity, row: Row)
    requires UniquePlaces(rows)
    ensures UniquePlaces(rows[id := row]) <==> forall o :: o in rows && o != id ==> rows[o].place != row.place
  {
    if o :| o in rows && o != id && rows[o].place == row.place {
      assert rows[id := row][o].place == rows[id := row][id].place;
    }
  }

  lemma AllOkSplit(grants: set<Grant>, v: View, w: Writer, ops: seq<Operation>, op: Operation)
    ensures AllOk(grants, v, w, ops + [op]) <==>
      && AllOk(grants, v, w, ops) && LocallyOk(grants, After(v, w, ops), w, op)
      && UniquePlaces(Step(After(v, w, ops), w, op).rows)
  {
    hide LocallyOk, UniquePlaces, After;
    var more, n := ops + [op], |ops|;
    AfterOne(v, w, ops, op);
    assert more[..n] == ops && more[..n + 1] == more && more[n] == op;
    forall i | 0 <= i < n ensures OkAt(grants, v, w, ops, i) <==> OkAt(grants, v, w, more, i) {
      assert more[..i] == ops[..i] && more[..i + 1] == ops[..i + 1];
    }
    assert AllOk(grants, v, w, more) ==> OkAt(grants, v, w, more, n);
  }

  lemma {:induction false} DeletesOkIff(grants: set<Grant>, v: View, w: Writer, deletes: seq<Operation>)
    requires UniquePlaces(v.rows) && forall d :: d in deletes ==> d.Delete?
    ensures AllOk(grants, v, w, deletes) <==> forall d :: d in deletes ==> Permitted(grants, v.rows, w, d)
    ensures UniquePlaces(After(v, w, deletes).rows)
  {
    hide AllOk, UniquePlaces, After;
    if deletes == [] {
      NoneDeleted(grants, v, w);
    } else {
      var n := |deletes| - 1;
      var init, d := deletes[..n], deletes[n];
      assert deletes == init + [d] && d in deletes;
      DeletesOkIff(grants, v, w, init);
      AllOkSplit(grants, v, w, init, d);
      AfterOne(v, w, init, d);
      DeletesEffect(v, w, init, Identity(w, d.key));
      FewerStayUnique(After(v, w, init).rows, Identity(w, d.key));
    }
  }

  lemma NoneDeleted(grants: set<Grant>, v: View, w: Writer)
    ensures AllOk(grants, v, w, []) && After(v, w, []) == v
  {
  }

  lemma FewerStayUnique(rows: Rows, id: Identity)
    requires UniquePlaces(rows)
    ensures UniquePlaces(rows - {id})
  {
  }

  lemma MovesOkIff(grants: set<Grant>, r: Renewal, v: View, w: Writer, ops: seq<Operation>)
    requires Submits(r, v.rows, w, ops) && UniquePlaces(Deleted(v, w, ops).rows)
    ensures DistinctKeys(OfKind(ops, MoveKind))
    ensures BatchOk(grants, Deleted(v, w, ops), w, OfKind(ops, MoveKind)) <==>
      (forall m :: m in OfKind(ops, MoveKind) ==> Permitted(grants, v.rows, w, m)) && ClearForMoves(r, v.rows, w)
  {
    hide Submits, Deleted, UniquePlaces, DestinationsFree, ClearForMoves, After, Change, DistinctKeys;
    var moves, n := OfKind(ops, MoveKind), |r.scan.files|;
    OpsByKind(r, v.rows, w, ops);
    MovesHaveOneKey(r, v.rows, w, ops);
    r.Members(n, MoveKind);
    OpsNameFiles(r);
    forall m | m in moves
      ensures Identity(w, m.key) in Deleted(v, w, ops).rows
      ensures LocallyOk(grants, Deleted(v, w, ops), w, m) <==> Permitted(grants, v.rows, w, m)
    {
      var j: nat :| j < n && r.IsOf(j, MoveKind) && r.Op(j).value == m;
      MoverIsKnown(r, v, w, ops, j);
    }
    MovesKeepPathsUniqueIff(Deleted(v, w, ops), w, moves);
    if ClearForMoves(r, v.rows, w) {
      ClearMovesAreFree(r, v, w, ops);
    }
    if DestinationsFree(Deleted(v, w, ops).rows, w, moves) {
      FreeMovesAreClear(r, v, w, ops);
    }
  }

  lemma MovesHaveOneKey(r: Renewal, rows: Rows, w: Writer, ops: seq<Operation>)
    requires Submits(r, rows, w, ops)
    ensures DistinctKeys(OfKind(ops, MoveKind))
  {
    OpsByKind(r, rows, w, ops);
    r.KeysDiffer(|r.scan.files|, MoveKind);
  }

  lemma RestOkIff(grants: set<Grant>, r: Renewal, v: View, w: Writer, ops: seq<Operation>)
    requires Submits(r, v.rows, w, ops) && UniquePlaces(Moved(v, w, ops).rows)
    ensures AllOk(grants, Moved(v, w, ops), w, Rest(ops)) <==>
      && (forall op :: op in Rest(ops) ==> Permitted(grants, v.rows, w, op))
      && (forall i: nat :: r.IsOf(i, PutKind) ==> ClearForPut(r, v.rows, w, i))
  {
    hide Submits, Deleted, Moved, UniquePlaces, ClearForPut, FreeForPut, After, Change, AllOk, Permitted, Rest;
    var n := |r.scan.files|;
    OpsByKind(r, v.rows, w, ops);
    r.Members(n, PutKind);
    PutsOkIff(grants, r, v, w, ops, n);
    forall i: nat | i < n && r.IsOf(i, PutKind) ensures FreeForPut(r, v, w, ops, i) <==> ClearForPut(r, v.rows, w, i) {
      if ClearForPut(r, v.rows, w, i) { ClearIsFree(r, v, w, ops, i); }
      if FreeForPut(r, v, w, ops, i) { FreeIsClear(r, v, w, ops, i); }
    }
    forall i: nat | i < n && r.IsOf(i, PutKind) ensures r.Op(i).value in Rest(ops) {}
    assert forall i: nat :: i < n ==> (PutOk(grants, r, v, w, ops, i) <==>
      (r.IsOf(i, PutKind) ==> Permitted(grants, v.rows, w, r.Op(i).value) && ClearForPut(r, v.rows, w, i)));
  }

  lemma PathsByKind(r: Renewal, w: Writer, rows: Rows)
    ensures PathsAreFree(r, w, rows) <==>
      ClearForMoves(r, rows, w) && forall i: nat :: r.IsOf(i, PutKind) ==> ClearForPut(r, rows, w, i)
  {
    hide MakesWay, Change, KeyOf;
  }

  /**
   The store accepts the difference exactly if the writer may write and leave every path concerned,
   no two changed files have one path, and every entry that has a changed file's path makes way.
   */
  lemma DifferenceAcceptedIff(grants: set<Grant>, r: Renewal, v: View, w: Writer, ops: seq<Operation>)
    requires Submits(r, v.rows, w, ops)
    ensures Accepted(grants, v, w, ops) <==>
      (forall op :: op in ops ==> Permitted(grants, v.rows, w, op)) && PathsAreFree(r, w, v.rows)
  {
    hide Deleted, Moved, UniquePlaces, PathsAreFree, ClearForMoves, ClearForPut, After, Change, AllOk, BatchOk, Permitted;
    SubmitsUnique(r, v.rows, w, ops);
    PathsByKind(r, w, v.rows);
    DeletesOkIff(grants, v, w, OfKind(ops, DeleteKind));
    StagesOf(v, w, ops);
    MovesOkIff(grants, r, v, w, ops);
    if BatchOk(grants, Deleted(v, w, ops), w, OfKind(ops, MoveKind)) {
      BatchStaysUnique(grants, v, w, ops);
      RestOkIff(grants, r, v, w, ops);
    }
    OpsAreOfKinds(r, v.rows, w, ops);
    hide Submits, OfKind;
  }

  lemma SubmitsUnique(r: Renewal, rows: Rows, w: Writer, ops: seq<Operation>)
    requires Submits(r, rows, w, ops)
    ensures UniquePlaces(rows)
  {
  }

  lemma StagesOf(v: View, w: Writer, ops: seq<Operation>)
    ensures Deleted(v, w, ops) == After(v, w, OfKind(ops, DeleteKind))
    ensures Moved(v, w, ops) == After(Deleted(v, w, ops), w, OfKind(ops, MoveKind))
  {
  }

  lemma BatchStaysUnique(grants: set<Grant>, v: View, w: Writer, ops: seq<Operation>)
    requires BatchOk(grants, Deleted(v, w, ops), w, OfKind(ops, MoveKind))
    ensures UniquePlaces(Moved(v, w, ops).rows)
  {
  }

  lemma OpsAreOfKinds(r: Renewal, rows: Rows, w: Writer, ops: seq<Operation>)
    requires Submits(r, rows, w, ops)
    ensures forall op :: op in ops <==> op in OfKind(ops, DeleteKind) || op in OfKind(ops, MoveKind) || op in Rest(ops)
  {
  }

  /**
   A file renamed onto the path of an entry whose own file was edited is refused: now, and at every
   later synchronisation that finds the two files so.
   */
  lemma RenameOntoEditedIsRefused(grants: set<Grant>, r: Renewal, v: View, w: Writer, ops: seq<Operation>, i: nat, j: nat)
    requires Submits(r, v.rows, w, ops) && r.IsOf(i, MoveKind) && r.IsOf(j, PutKind)
    requires var o := Identity(w, r.Key(j)); o in v.rows && v.rows[o].place == At(r.Path(i))
    ensures !Accepted(grants, v, w, ops)
  {
    var o := Identity(w, r.Key(j));
    r.KeysAreDistinct();
    FoundIsNotGone(r, j);
    hide Submits, Change, Renewal.Deletes;
    assert i != j && o != Identity(w, r.Key(i));
    assert !MakesWay(r, w, i, o);
    DifferenceAcceptedIff(grants, r, v, w, ops);
  }

  lemma FoundIsNotGone(r: Renewal, j: nat)
    requires j < |r.scan.files|
    ensures !r.Deletes(r.Key(j))
  {
    CurrentHolds(r.prefix, r.scan.files);
    assert r.scan.files[j] in r.scan.files;
  }
}
