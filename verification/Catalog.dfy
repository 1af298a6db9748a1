/**
 The catalog of entries and what the operations of a submission mean for it.  The functions here
 are the specification that the engine in Store is proved against.
 */
module Catalog {
  import opened Wrappers
  import opened Paths

  type Writer = string

  /** Source keys are opaque to the store; the tracker builds them from a prefix and an inode. */
  datatype SourceKey = SourceKey(scope: string, name: string)

  /** A content hash, taken to be injective. */
  datatype Hash = Sha256(data: string)

  /** A source version, opaque to the store; the tracker's versions digest a file's raw text. */
  datatype Version = Version(of: string)

  datatype Identity = Identity(writer: Writer, key: SourceKey)

  /** The path column of a row: a logical path, or the fresh path of a row parked off a cycle. */
  datatype Place = At(path: Path) | CyclePark(id: nat)

  datatype Row = Row(place: Place, version: Version, format: string, hash: Hash)

  type Rows = map<Identity, Row>

  datatype Operation =
    | Put(key: SourceKey, path: Path, version: Version, format: string, text: string)
    | Move(key: SourceKey, path: Path, version: Version, expected: Hash)
    | Delete(key: SourceKey, version: Version)
    | Decide(key: SourceKey, where: Option<Path>, version: Version, state: string)

  datatype Decision = Decision(state: string, where: Option<Path>, version: Version)

  datatype Grant = Grant(writer: Writer, prefix: Path)

  /** Line ends become newlines, as replacing CR LF and then CR would make them. */
  function NormalizeText(text: string): string {
    if text == "" then ""
    else if text[0] == '\r' then
      "\n" + NormalizeText(if |text| > 1 && text[1] == '\n' then text[2..] else text[1..])
    else [text[0]] + NormalizeText(text[1..])
  }

  /** Text without carriage returns is kept as it is, and no other text is left with one. */
  lemma {:induction false} NormalTextIsKept(text: string)
    ensures '\r' !in text ==> NormalizeText(text) == text
    ensures '\r' !in NormalizeText(text)
  {
    if text != "" {
      var rest := if text[0] == '\r' && |text| > 1 && text[1] == '\n' then text[2..] else text[1..];
      NormalTextIsKept(rest);
      assert text == [text[0]] + text[1..];
    }
  }

  /** Text splits anywhere but inside a line end. */
  lemma {:induction false} NormalizeSplits(a: string, b: string)
    requires !(a != "" && a[|a| - 1] == '\r' && b != "" && b[0] == '\n')
    ensures NormalizeText(a + b) == NormalizeText(a) + NormalizeText(b)
    decreases |a|
  {
    hide NormalizeText;
    if a == "" {
      NormalizeNothing();
      assert a + b == b;
    } else {
      var n := FirstLength(a);
      NormalizeStep(a);
      NormalizeStep(a + b);
      assert FirstLength(a + b) == n && (a + b)[n..] == a[n..] + b;
      NormalizeSplits(a[n..], b);
    }
  }

  lemma NormalizeNothing()
    ensures NormalizeText("") == ""
  {
  }

  /** How many characters of the text become its first one. */
  function FirstLength(text: string): (n: nat)
    requires text != ""
    ensures 1 <= n <= |text|
  {
    if text[0] == '\r' && |text| > 1 && text[1] == '\n' then 2 else 1
  }

  lemma NormalizeStep(text: string)
    requires text != ""
    ensures NormalizeText(text) == [if text[0] == '\r' then '\n' else text[0]] + NormalizeText(text[FirstLength(text)..])
  {
  }

  /** A carriage return becomes a newline, together with the newline that follows it, if one does. */
  lemma LineEndsBecomeNewlines(a: string, b: string)
    ensures NormalizeText(a + ("\r\n" + b)) == NormalizeText(a) + "\n" + NormalizeText(b)
    ensures b == "" || b[0] != '\n' ==> NormalizeText(a + ("\r" + b)) == NormalizeText(a) + "\n" + NormalizeText(b)
  {
    LineEndFirst(b);
    NormalizeSplits(a, "\r\n" + b);
    NormalizeSplits(a, "\r" + b);
    hide NormalizeText;
  }

  lemma LineEndFirst(b: string)
    ensures NormalizeText("\r\n" + b) == "\n" + NormalizeText(b)
    ensures b == "" || b[0] != '\n' ==> NormalizeText("\r" + b) == "\n" + NormalizeText(b)
  {
    assert ("\r\n" + b)[2..] == b && ("\r" + b)[1..] == b;
  }

  predicate Authorized(grants: set<Grant>, w: Writer, path: Path) {
    exists g :: g in grants && g.writer == w && Within(path, g.prefix)
  }

  /** A prefix may be granted to the writer: it overlaps none of another writer's. */
  predicate Grantable(grants: set<Grant>, w: Writer, prefix: Path) {
    IsPath(prefix) && forall g :: g in grants && g.writer != w ==> !Overlap(prefix, g.prefix)
  }

  /** Who may write a path: a writer that has been granted it, or a prefix that it continues after a slash. */
  lemma AuthorizedIff(grants: set<Grant>, w: Writer, path: Path)
    ensures Authorized(grants, w, path) <==>
      exists g :: g in grants && g.writer == w && (path == g.prefix || g.prefix + "/" <= path)
  {
  }

  /** A prefix may be granted if it is a path and no other writer has it, a continuation of it, or one it continues. */
  lemma GrantableIff(grants: set<Grant>, w: Writer, prefix: Path)
    ensures Grantable(grants, w, prefix) <==>
      && IsPath(prefix)
      && forall g :: g in grants && g.writer != w ==>
           prefix != g.prefix && !(prefix + "/" <= g.prefix) && !(g.prefix + "/" <= prefix)
  {
  }

  /** The primary key on path; the map itself is the uniqueness of writer and source key. */
  ghost predicate UniquePlaces(rows: Rows) {
    forall a, b :: a in rows && b in rows && rows[a].place == rows[b].place ==> a == b
  }

  /** No row is parked. */
  ghost predicate AllPlaced(rows: Rows) {
    forall id :: id in rows ==> rows[id].place.At?
  }

  /** Rows, together with the identities whose file a move onto its own path has lost. */
  datatype View = View(rows: Rows, lost: set<Identity>)

  function PutHash(op: Operation): Hash
    requires op.Put?
  {
    Sha256(NormalizeText(op.text))
  }

  function MovedRow(row: Row, op: Operation): Row
    requires op.Move?
  {
    row.(place := At(op.path), version := op.version)
  }

  function PutRow(op: Operation): Row
    requires op.Put?
  {
    Row(At(op.path), op.version, op.format, PutHash(op))
  }

  /** What one operation of writer w does, uniqueness aside. */
  ghost function Step(v: View, w: Writer, op: Operation): View {
    var id := Identity(w, op.key);
    match op
    case Put(_, _, _, _, _) =>
      View(v.rows[id := PutRow(op)],
           if id in v.rows && v.rows[id].hash == PutHash(op) then v.lost else v.lost - {id})
    case Move(_, path, _, _) =>
      if id in v.rows then
        View(v.rows[id := MovedRow(v.rows[id], op)],
             if v.rows[id].place == At(path) then v.lost + {id} else v.lost)
      else v
    case Delete(_, _) => View(v.rows - {id}, v.lost - {id})
    case Decide(_, _, _, _) => v
  }

  ghost function After(v: View, w: Writer, ops: seq<Operation>): View {
    if ops == [] then v else Step(After(v, w, ops[..|ops| - 1]), w, ops[|ops| - 1])
  }

  lemma AfterOne(v: View, w: Writer, ops: seq<Operation>, op: Operation)
    ensures After(v, w, ops + [op]) == Step(After(v, w, ops), w, op)
  {
    assert (ops + [op])[..|ops|] == ops;
  }

  lemma {:induction false} AfterAppend(v: View, w: Writer, a: seq<Operation>, b: seq<Operation>)
    ensures After(v, w, a + b) == After(After(v, w, a), w, b)
    decreases |b|
  {
    if b == [] {
      assert a + b == a;
    } else {
      var n := |b| - 1;
      assert a + b == (a + b[..n]) + [b[n]];
      AfterOne(v, w, a + b[..n], b[n]);
      AfterAppend(v, w, a, b[..n]);
    }
  }

  /** The checks an operation makes on the state it finds, apart from uniqueness of paths. */
  ghost predicate LocallyOk(grants: set<Grant>, v: View, w: Writer, op: Operation) {
    var id := Identity(w, op.key);
    match op
    case Put(_, path, _, _, text) =>
      IsPath(path) && Authorized(grants, w, path) && '\0' !in text
    case Move(_, path, _, expected) =>
      && IsPath(path) && Authorized(grants, w, path)
      && id in v.rows && v.rows[id].hash == expected
      && v.rows[id].place.At? && Authorized(grants, w, v.rows[id].place.path)
    case Delete(_, _) =>
      id in v.rows ==> v.rows[id].place.At? && Authorized(grants, w, v.rows[id].place.path)
    case Decide(_, where, _, _) =>
      where.Some? ==> IsPath(where.value) && Authorized(grants, w, where.value)
  }

  /** A put that only renames finds the file to rename. */
  ghost predicate FindsFile(v: View, w: Writer, op: Operation) {
    var id := Identity(w, op.key);
    op.Put? && id in v.lost && id in v.rows && v.rows[id].hash == PutHash(op) ==> v.rows[id].place == At(op.path)
  }

  ghost predicate AllFind(v: View, w: Writer, ops: seq<Operation>) {
    forall i :: 0 <= i < |ops| ==> FindsFile(After(v, w, ops[..i]), w, ops[i])
  }

  /** Every operation finds what it needs, and paths are unique after each one. */
  ghost predicate AllOk(grants: set<Grant>, v: View, w: Writer, ops: seq<Operation>) {
    forall i :: 0 <= i < |ops| ==> OkAt(grants, v, w, ops, i)
  }

  ghost predicate OkAt(grants: set<Grant>, v: View, w: Writer, ops: seq<Operation>, i: nat)
    requires i < |ops|
  {
    LocallyOk(grants, After(v, w, ops[..i]), w, ops[i]) && UniquePlaces(After(v, w, ops[..i + 1]).rows)
  }

  ghost predicate DistinctKeys(moves: seq<Operation>) {
    forall i, j :: 0 <= i < j < |moves| ==> moves[i].key != moves[j].key
  }

  ghost predicate AllMoves(moves: seq<Operation>) {
    forall m :: m in moves ==> m.Move?
  }

  /** A move batch is checked against the state it starts from, and unique only at its end. */
  ghost predicate BatchOk(grants: set<Grant>, v: View, w: Writer, moves: seq<Operation>) {
    && (forall m :: m in moves ==> LocallyOk(grants, v, w, m))
    && UniquePlaces(After(v, w, moves).rows)
  }

  datatype Kind = PutKind | MoveKind | DeleteKind | DecideKind

  function KindOf(op: Operation): Kind {
    match op
    case Put(_, _, _, _, _) => PutKind
    case Move(_, _, _, _) => MoveKind
    case Delete(_, _) => DeleteKind
    case Decide(_, _, _, _) => DecideKind
  }

  function OfKind(ops: seq<Operation>, kind: Kind): (r: seq<Operation>)
    ensures forall op :: op in r <==> op in ops && KindOf(op) == kind
  {
    if ops == [] then []
    else (if KindOf(ops[0]) == kind then [ops[0]] else []) + OfKind(ops[1..], kind)
  }

  lemma {:induction false} OfKindAppend(a: seq<Operation>, b: seq<Operation>, kind: Kind)
    ensures OfKind(a + b, kind) == OfKind(a, kind) + OfKind(b, kind)
  {
    if a == [] {
      assert a + b == b;
    } else {
      assert (a + b)[1..] == a[1..] + b;
      OfKindAppend(a[1..], b, kind);
    }
  }

  /** Deletes first, then moves, then puts and decisions. */
  ghost predicate AcceptedStages(
    grants: set<Grant>, v: View, w: Writer, deletes: seq<Operation>, moves: seq<Operation>, rest: seq<Operation>)
  {
    && DistinctKeys(moves)
    && AllOk(grants, v, w, deletes)
    && BatchOk(grants, After(v, w, deletes), w, moves)
    && AllOk(grants, After(After(v, w, deletes), w, moves), w, rest)
  }

  function Rest(ops: seq<Operation>): seq<Operation> {
    OfKind(ops, PutKind) + OfKind(ops, DecideKind)
  }

  /** The submissions whose checks all hold, stage by stage; the engine applies those of them that no lost file hinders. */
  ghost predicate Accepted(grants: set<Grant>, v: View, w: Writer, ops: seq<Operation>) {
    AcceptedStages(grants, v, w, OfKind(ops, DeleteKind), OfKind(ops, MoveKind), Rest(ops))
  }

  /**
   No put of the submission renames an entry whose file a self-move of the same submission has
   lost; so it is whenever the submission has no self-move.
   */
  ghost predicate PutsFindFiles(v: View, w: Writer, ops: seq<Operation>) {
    AllFind(After(After(v, w, OfKind(ops, DeleteKind)), w, OfKind(ops, MoveKind)), w, Rest(ops))
  }

  /** The catalog an applied submission leaves. */
  ghost function Outcome(v: View, w: Writer, ops: seq<Operation>): View {
    After(After(After(v, w, OfKind(ops, DeleteKind)), w, OfKind(ops, MoveKind)), w, Rest(ops))
  }

  /** The decision rows after the decisions among ops; the last one for a key wins. */
  ghost function Decided(decisions: map<Identity, Decision>, w: Writer, ops: seq<Operation>): map<Identity, Decision> {
    if ops == [] then decisions
    else
      var op, before := ops[|ops| - 1], Decided(decisions, w, ops[..|ops| - 1]);
      if op.Decide? then before[Identity(w, op.key) := Decision(op.state, op.where, op.version)] else before
  }

  lemma {:induction false} DecidedAppend(decisions: map<Identity, Decision>, w: Writer, a: seq<Operation>, b: seq<Operation>)
    ensures Decided(decisions, w, a + b) == Decided(Decided(decisions, w, a), w, b)
    decreases |b|
  {
    if b == [] {
      assert a + b == a;
    } else {
      var n := |b| - 1;
      assert (a + b)[..|a| + n] == a + b[..n];
      DecidedAppend(decisions, w, a, b[..n]);
    }
  }

  /** Only the decisions of a submission decide. */
  lemma {:induction false} DecisionsDecide(decisions: map<Identity, Decision>, w: Writer, ops: seq<Operation>)
    ensures Decided(decisions, w, OfKind(ops, DecideKind)) == Decided(decisions, w, ops)
  {
    if ops == [] {
      assert OfKind(ops, DecideKind) == [];
    } else {
      hide OfKind, Decided;
      var n := |ops| - 1;
      assert ops == ops[..n] + [ops[n]];
      DecisionsDecide(decisions, w, ops[..n]);
      OfKindAppend(ops[..n], [ops[n]], DecideKind);
      DecidedAppend(decisions, w, OfKind(ops[..n], DecideKind), OfKind([ops[n]], DecideKind));
      DecidedAppend(decisions, w, ops[..n], [ops[n]]);
      OneDecides(Decided(decisions, w, ops[..n]), w, ops[n]);
    }
  }

  lemma OneDecides(decisions: map<Identity, Decision>, w: Writer, op: Operation)
    ensures Decided(decisions, w, OfKind([op], DecideKind)) == Decided(decisions, w, [op])
  {
    assert [op][1..] == [] && [op][..0] == [];
    assert OfKind([op], DecideKind) == if op.Decide? then [op] else [];
  }

  /** The last decision for a key is the one on record. */
  lemma {:induction false} LastDecisionWins(decisions: map<Identity, Decision>, w: Writer, ops: seq<Operation>, k: nat)
    requires DecidesLast(ops, k)
    ensures Lookup(Decided(decisions, w, ops), Identity(w, ops[k].key)) == Some(Decision(ops[k].state, ops[k].where, ops[k].version))
  {
    var n := |ops| - 1;
    if k < n {
      assert DecidesLast(ops[..n], k) && ops[..n][k] == ops[k];
      LastDecisionWins(decisions, w, ops[..n], k);
    }
  }

  /** Keys without a decision keep theirs. */
  lemma {:induction false} UndecidedAreKept(decisions: map<Identity, Decision>, w: Writer, ops: seq<Operation>, id: Identity)
    requires forall op :: op in ops && op.Decide? ==> Identity(w, op.key) != id
    ensures Lookup(Decided(decisions, w, ops), id) == Lookup(decisions, id)
  {
    if ops != [] {
      var n := |ops| - 1;
      UndecidedAreKept(decisions, w, ops[..n], id);
      assert ops[n] in ops;
    }
  }

  predicate DecidesLast(ops: seq<Operation>, k: nat) {
    k < |ops| && ops[k].Decide? && forall j :: k < j < |ops| && ops[j].Decide? ==> ops[j].key != ops[k].key
  }

  lemma {:induction false} NothingDecided(decisions: map<Identity, Decision>, w: Writer, ops: seq<Operation>)
    requires forall op :: op in ops ==> !op.Decide?
    ensures Decided(decisions, w, ops) == decisions
  {
    if ops != [] {
      NothingDecided(decisions, w, ops[..|ops| - 1]);
    }
  }

  // ----- what each stage does, identity by identity

  lemma MoveKeepsIdentities(v: View, w: Writer, m: Operation)
    requires m.Move?
    ensures Step(v, w, m).rows.Keys == v.rows.Keys
  {
    var id := Identity(w, m.key);
    if id in v.rows {
      assert v.rows[id := MovedRow(v.rows[id], m)].Keys == v.rows.Keys + {id};
    }
  }

  /** A batch of moves renames simultaneously: each row depends on its own move alone. */
  lemma {:induction false} MovesEffect(v: View, w: Writer, moves: seq<Operation>, id: Identity)
    requires AllMoves(moves) && DistinctKeys(moves)
    ensures After(v, w, moves).rows.Keys == v.rows.Keys
    ensures forall m :: m in moves && Identity(w, m.key) == id && id in v.rows ==>
      && After(v, w, moves).rows[id] == MovedRow(v.rows[id], m)
      && (id in After(v, w, moves).lost <==> id in v.lost || v.rows[id].place == At(m.path))
    ensures (forall m :: m in moves ==> Identity(w, m.key) != id) || id !in v.rows ==>
      && Lookup(After(v, w, moves).rows, id) == Lookup(v.rows, id)
      && (id in After(v, w, moves).lost <==> id in v.lost)
  {
    if moves != [] {
      var n := |moves| - 1;
      var init, last := moves[..n], moves[n];
      assert moves == init + [last];
      MovesEffect(v, w, init, id);
      MovesEffect(v, w, init, Identity(w, last.key));
      assert forall m :: m in init ==> Identity(w, m.key) != Identity(w, last.key);
      MoveKeepsIdentities(After(v, w, init), w, last);
    }
  }

  lemma PermutedMoves(v: View, w: Writer, a: seq<Operation>, b: seq<Operation>)
    requires AllMoves(a) && DistinctKeys(a) && AllMoves(b) && DistinctKeys(b)
    requires forall m :: m in a <==> m in b
    ensures After(v, w, a) == After(v, w, b)
  {
    var x, y := After(v, w, a), After(v, w, b);
    forall id ensures Lookup(x.rows, id) == Lookup(y.rows, id) && (id in x.lost <==> id in y.lost) {
      MovesEffect(v, w, a, id);
      MovesEffect(v, w, b, id);
      if m :| m in a && Identity(w, m.key) == id {
        assert m in b;
      }
    }
    MovesEffect(v, w, a, Identity(w, SourceKey("", "")));
    MovesEffect(v, w, b, Identity(w, SourceKey("", "")));
    assert x.rows == y.rows by {
      forall id | id in x.rows ensures x.rows[id] == y.rows[id] {
        assert Lookup(x.rows, id) == Lookup(y.rows, id);
      }
    }
  }

  /** The order the moves run in does not change what is accepted. */
  lemma AcceptedInAnyMoveOrder(grants: set<Grant>, v: View, w: Writer, ops: seq<Operation>, moves: seq<Operation>)
    requires AllMoves(moves) && DistinctKeys(moves) && DistinctKeys(OfKind(ops, MoveKind))
    requires forall m :: m in moves <==> m in OfKind(ops, MoveKind)
    ensures Accepted(grants, v, w, ops)
       <==> AcceptedStages(grants, v, w, OfKind(ops, DeleteKind), moves, Rest(ops))
    ensures Outcome(v, w, ops) == After(After(After(v, w, OfKind(ops, DeleteKind)), w, moves), w, Rest(ops))
    ensures PutsFindFiles(v, w, ops) <==> AllFind(After(After(v, w, OfKind(ops, DeleteKind)), w, moves), w, Rest(ops))
  {
    PermutedMoves(After(v, w, OfKind(ops, DeleteKind)), w, moves, OfKind(ops, MoveKind));
  }

  lemma {:induction false} DeletesEffect(v: View, w: Writer, deletes: seq<Operation>, id: Identity)
    requires forall d :: d in deletes ==> d.Delete?
    ensures Lookup(After(v, w, deletes).rows, id)
         == if exists d :: d in deletes && Identity(w, d.key) == id then None else Lookup(v.rows, id)
    ensures After(v, w, deletes).lost <= v.lost
    ensures id in After(v, w, deletes).lost <==> id in v.lost && forall d :: d in deletes ==> Identity(w, d.key) != id
  {
    if deletes != [] {
      var n := |deletes| - 1;
      assert deletes == deletes[..n] + [deletes[n]];
      assert deletes[n] in deletes;
      DeletesEffect(v, w, deletes[..n], id);
    }
  }

  /** The last put for a key, if any. */
  function LastPut(ops: seq<Operation>, key: SourceKey): (r: Option<Operation>)
    ensures r.Some? ==> r.value.Put? && r.value.key == key && r.value in ops
    ensures r.None? ==> forall op :: op in ops && op.Put? ==> op.key != key
  {
    if ops == [] then None
    else
      var n := |ops| - 1;
      if ops[n].Put? && ops[n].key == key then Some(ops[n]) else LastPut(ops[..n], key)
  }

  lemma {:induction false} LastPutOfKind(ops: seq<Operation>, key: SourceKey)
    ensures LastPut(OfKind(ops, PutKind), key) == LastPut(ops, key)
    decreases |ops|
  {
    if ops != [] {
      LastPutOfKind(ops[1..], key);
      LastPutAppend(ops[..1], ops[1..], key);
      assert ops == ops[..1] + ops[1..];
      LastPutAppend(if KindOf(ops[0]) == PutKind then [ops[0]] else [], OfKind(ops[1..], PutKind), key);
    }
  }

  lemma {:induction false} LastPutAppend(a: seq<Operation>, b: seq<Operation>, key: SourceKey)
    ensures LastPut(a + b, key) == if LastPut(b, key).Some? then LastPut(b, key) else LastPut(a, key)
    decreases |b|
  {
    if b == [] {
      assert a + b == a;
    } else {
      var n := |b| - 1;
      assert (a + b)[..|a| + n] == a + b[..n];
      LastPutAppend(a, b[..n], key);
    }
  }

  lemma {:induction false} RestEffect(v: View, w: Writer, rest: seq<Operation>, id: Identity)
    requires forall op :: op in rest ==> op.Put? || op.Decide?
    ensures Lookup(After(v, w, rest).rows, id)
         == if id.writer == w && LastPut(rest, id.key).Some? then Some(PutRow(LastPut(rest, id.key).value))
            else Lookup(v.rows, id)
  {
    if rest != [] {
      var n := |rest| - 1;
      assert rest == rest[..n] + [rest[n]];
      RestEffect(v, w, rest[..n], id);
    }
  }

  lemma {:induction false} DecisionsHaveNoPut(ops: seq<Operation>, key: SourceKey)
    requires forall op :: op in ops ==> op.Decide?
    ensures LastPut(ops, key) == None
  {
    if ops != [] {
      DecisionsHaveNoPut(ops[..|ops| - 1], key);
    }
  }

  /**
   What an applied submission leaves for an identity, read off the submission as it was sent:
   the last put for the key wins, then the move, then a delete.
   */
  ghost predicate FinalRow(rows: Rows, w: Writer, ops: seq<Operation>, id: Identity, final: Option<Row>) {
    if id.writer != w then final == Lookup(rows, id)
    else if LastPut(ops, id.key).Some? then final == Some(PutRow(LastPut(ops, id.key).value))
    else if exists m :: m in ops && m.Move? && m.key == id.key then
      exists m :: m in ops && m.Move? && m.key == id.key && id in rows && final == Some(MovedRow(rows[id], m))
    else if exists d :: d in ops && d.Delete? && d.key == id.key then final == None
    else final == Lookup(rows, id)
  }

  lemma AcceptedEffect(grants: set<Grant>, v: View, w: Writer, ops: seq<Operation>, id: Identity)
    requires Accepted(grants, v, w, ops)
    ensures FinalRow(v.rows, w, ops, id, Lookup(Outcome(v, w, ops).rows, id))
  {
    var deletes, moves, rest := OfKind(ops, DeleteKind), OfKind(ops, MoveKind), Rest(ops);
    var v1 := After(v, w, deletes);
    var v2 := After(v1, w, moves);
    DeletesEffect(v, w, deletes, id);
    MovesEffect(v1, w, moves, id);
    RestEffect(v2, w, rest, id);
    LastPutOfKind(ops, id.key);
    DecisionsHaveNoPut(OfKind(ops, DecideKind), id.key);
    LastPutAppend(OfKind(ops, PutKind), OfKind(ops, DecideKind), id.key);
    if m :| m in ops && m.Move? && m.key == id.key && id.writer == w {
      assert m in moves;
      assert LocallyOk(grants, v1, w, m);
    }
    if id.writer == w {
      if d :| d in ops && d.Delete? && d.key == id.key {
        assert d in deletes && Identity(w, d.key) == id;
      }
    }
  }

  /** Operation k is the last put for its key. */
  predicate PutsLast(ops: seq<Operation>, k: nat) {
    k < |ops| && ops[k].Put? && forall j :: k < j < |ops| && ops[j].Put? ==> ops[j].key != ops[k].key
  }

  lemma {:induction false} PutsLastIsLastPut(ops: seq<Operation>, k: nat)
    requires PutsLast(ops, k)
    ensures LastPut(ops, ops[k].key) == Some(ops[k])
  {
    var n := |ops| - 1;
    if k < n {
      assert PutsLast(ops[..n], k) && ops[..n][k] == ops[k];
      PutsLastIsLastPut(ops[..n], k);
    }
  }

  /**
   An applied submission column by column: a put sets them all, a move the path and the version,
   a delete removes the row, and what is not named is left as it was.
   */
  lemma AppliedColumns(grants: set<Grant>, v: View, w: Writer, ops: seq<Operation>, id: Identity)
    requires Accepted(grants, v, w, ops)
    ensures var final := Lookup(Outcome(v, w, ops).rows, id);
      if id.writer != w then final == Lookup(v.rows, id)
      else
        && (forall k :: 0 <= k < |ops| && PutsLast(ops, k) && ops[k].key == id.key ==>
              final == Some(Row(At(ops[k].path), ops[k].version, ops[k].format, Sha256(NormalizeText(ops[k].text)))))
        && ((forall op :: op in ops && op.key == id.key ==> !op.Put?) ==>
              && (forall m :: m in ops && m.Move? && m.key == id.key ==>
                    id in v.rows && final == Some(Row(At(m.path), m.version, v.rows[id].format, v.rows[id].hash)))
              && ((forall op :: op in ops && op.key == id.key ==> !op.Move?) ==>
                    final == if exists d :: d in ops && d.Delete? && d.key == id.key then None else Lookup(v.rows, id)))
  {
    AcceptedEffect(grants, v, w, ops, id);
    forall k | 0 <= k < |ops| && PutsLast(ops, k) ensures LastPut(ops, ops[k].key) == Some(ops[k]) {
      PutsLastIsLastPut(ops, k);
    }
    OneMoveForAKey(grants, v, w, ops);
    hide Accepted, Outcome;
  }

  lemma OneMoveForAKey(grants: set<Grant>, v: View, w: Writer, ops: seq<Operation>)
    requires Accepted(grants, v, w, ops)
    ensures forall m, n :: m in ops && n in ops && m.Move? && n.Move? && m.key == n.key ==> m == n
  {
    forall m, n | m in ops && n in ops && m.Move? && n.Move? && m.key == n.key ensures m == n {
      assert m in OfKind(ops, MoveKind) && n in OfKind(ops, MoveKind);
    }
  }

  /** The rows before and after an applied submission, entry by entry. */
  ghost predicate TakesEffect(rows: Rows, rows': Rows, w: Writer, ops: seq<Operation>) {
    forall id :: FinalRow(rows, w, ops, id, Lookup(rows', id))
  }

  lemma AcceptedTakesEffect(grants: set<Grant>, v: View, w: Writer, ops: seq<Operation>)
    requires Accepted(grants, v, w, ops)
    ensures TakesEffect(v.rows, Outcome(v, w, ops).rows, w, ops)
  {
    forall id ensures FinalRow(v.rows, w, ops, id, Lookup(Outcome(v, w, ops).rows, id)) {
      AcceptedEffect(grants, v, w, ops, id);
    }
  }

  /** What an accepted submission writes, it may write; what it moves is there, with the content expected. */
  lemma AcceptedIsPermitted(grants: set<Grant>, v: View, w: Writer, ops: seq<Operation>, op: Operation)
    requires Accepted(grants, v, w, ops) && op in ops
    ensures forall path :: ((op.Put? || op.Move?) && path == op.path) || (op.Decide? && op.where == Some(path)) ==>
      IsPath(path) && exists g :: g in grants && g.writer == w && (path == g.prefix || g.prefix + "/" <= path)
    ensures op.Put? ==> '\0' !in op.text
    ensures op.Move? ==> Identity(w, op.key) in v.rows && v.rows[Identity(w, op.key)].hash == op.expected
  {
    hide AllOk, UniquePlaces, After, Authorized, IsPath;
    var v1 := After(v, w, OfKind(ops, DeleteKind));
    if op.Move? {
      assert op in OfKind(ops, MoveKind);
      assert LocallyOk(grants, v1, w, op);
      DeletesLose(v, w, ops, Identity(w, op.key));
      AuthorizedIff(grants, w, op.path);
    } else if !op.Delete? {
      RestIsOk(grants, After(v1, w, OfKind(ops, MoveKind)), w, Rest(ops), op);
      assert op.Put? ==> LocallyOk(grants, v, w, op);
      AuthorizedIff(grants, w, if op.Put? then op.path else if op.where.Some? then op.where.value else "");
    }
  }

  lemma RestIsOk(grants: set<Grant>, v: View, w: Writer, rest: seq<Operation>, op: Operation)
    requires AllOk(grants, v, w, rest) && op in rest && (op.Put? || op.Decide?)
    ensures LocallyOk(grants, v, w, op)
  {
    hide UniquePlaces, After, Authorized, IsPath;
    var i :| 0 <= i < |rest| && rest[i] == op;
    assert OkAt(grants, v, w, rest, i);
  }

  // ----- when a batch keeps paths unique, and when it loses a file

  ghost predicate DestinationsFree(rows: Rows, w: Writer, moves: seq<Operation>) {
    && (forall m, n :: m in moves && n in moves && m.Move? && n.Move? && m.path == n.path ==> m == n)
    && (forall m, id :: m in moves && m.Move? && id in rows && rows[id].place == At(m.path) ==>
          exists n :: n in moves && Identity(w, n.key) == id)
  }

  /** Paths stay unique exactly if destinations differ and each is free or vacated by the batch. */
  lemma MovesKeepPathsUniqueIff(v: View, w: Writer, moves: seq<Operation>)
    requires UniquePlaces(v.rows) && AllMoves(moves) && DistinctKeys(moves)
    requires forall m :: m in moves ==> Identity(w, m.key) in v.rows
    ensures UniquePlaces(After(v, w, moves).rows) <==> DestinationsFree(v.rows, w, moves)
  {
    if DestinationsFree(v.rows, w, moves) {
      MovesEffect(v, w, moves, Identity(w, SourceKey("", "")));
      forall a, b | a in v.rows && b in v.rows && After(v, w, moves).rows[a].place == After(v, w, moves).rows[b].place
        ensures a == b
      {
        FreeDestinationsSeparate(v, w, moves, a, b);
      }
    }
    if UniquePlaces(After(v, w, moves).rows) {
      forall m, n | m in moves && n in moves && m.path == n.path ensures m == n {
        MovesEffect(v, w, moves, Identity(w, m.key));
        MovesEffect(v, w, moves, Identity(w, n.key));
      }
      forall m, id | m in moves && id in v.rows && v.rows[id].place == At(m.path)
        ensures exists n :: n in moves && Identity(w, n.key) == id
      {
        MovesEffect(v, w, moves, Identity(w, m.key));
        MovesEffect(v, w, moves, id);
      }
    }
  }

  lemma FreeDestinationsSeparate(v: View, w: Writer, moves: seq<Operation>, a: Identity, b: Identity)
    requires UniquePlaces(v.rows) && AllMoves(moves) && DistinctKeys(moves)
    requires DestinationsFree(v.rows, w, moves)
    requires a in v.rows && b in v.rows
    requires a in After(v, w, moves).rows && b in After(v, w, moves).rows
    requires After(v, w, moves).rows[a].place == After(v, w, moves).rows[b].place
    ensures a == b
  {
    MovesEffect(v, w, moves, a);
    MovesEffect(v, w, moves, b);
    if m :| m in moves && Identity(w, m.key) == a {
      assert m.Move? && After(v, w, moves).rows[a].place == At(m.path);
    } else {
      assert After(v, w, moves).rows[a] == v.rows[a];
    }
  }

  lemma {:induction false} RestLoses(v: View, w: Writer, rest: seq<Operation>, id: Identity)
    requires forall op :: op in rest ==> op.Put? || op.Decide?
    requires id in v.lost ==> id in v.rows
    ensures id in After(v, w, rest).lost <==>
      id in v.lost && (id.writer == w ==> forall p :: p in rest && p.Put? && p.key == id.key ==> PutHash(p) == v.rows[id].hash)
    ensures id in After(v, w, rest).lost ==>
      id in After(v, w, rest).rows && After(v, w, rest).rows[id].hash == v.rows[id].hash
  {
    if rest != [] {
      var n := |rest| - 1;
      assert rest == rest[..n] + [rest[n]];
      RestLoses(v, w, rest[..n], id);
    }
  }

  ghost predicate LostAreEntries(v: View) {
    forall id :: id in v.lost ==> id in v.rows
  }

  lemma {:induction false} KnownEntriesLost(v: View, w: Writer, ops: seq<Operation>)
    requires LostAreEntries(v)
    ensures LostAreEntries(After(v, w, ops))
  {
    if ops != [] {
      KnownEntriesLost(v, w, ops[..|ops| - 1]);
    }
  }

  /** Only entries can be lost. */
  lemma OutcomeLosesKnownEntries(v: View, w: Writer, ops: seq<Operation>)
    ensures LostAreEntries(v) ==> LostAreEntries(Outcome(v, w, ops))
  {
    if LostAreEntries(v) {
      KnownEntriesLost(v, w, OfKind(ops, DeleteKind));
      KnownEntriesLost(After(v, w, OfKind(ops, DeleteKind)), w, OfKind(ops, MoveKind));
      KnownEntriesLost(After(After(v, w, OfKind(ops, DeleteKind)), w, OfKind(ops, MoveKind)), w, Rest(ops));
    }
  }

  /** A move onto the path the entry already has, of an entry no put gives other content. */
  ghost predicate LosesFile(rows: Rows, w: Writer, ops: seq<Operation>, id: Identity) {
    && id.writer == w && id in rows
    && (exists m :: m in ops && m.Move? && m.key == id.key && rows[id].place == At(m.path))
    && (forall p :: p in ops && p.Put? && p.key == id.key ==> PutHash(p) == rows[id].hash)
  }

  /** An entry lost before, neither deleted nor given new content. */
  ghost predicate StaysLost(v: View, w: Writer, ops: seq<Operation>, id: Identity) {
    && id in v.lost && id in v.rows
    && (id.writer == w ==>
          && (forall d :: d in ops && d.Delete? ==> d.key != id.key)
          && (forall p :: p in ops && p.Put? && p.key == id.key ==> PutHash(p) == v.rows[id].hash))
  }

  lemma MovesLose(v: View, w: Writer, moves: seq<Operation>, id: Identity)
    requires AllMoves(moves) && DistinctKeys(moves)
    requires forall m :: m in moves ==> Identity(w, m.key) in v.rows
    ensures var after := After(v, w, moves);
      && (id in after.rows <==> id in v.rows) && (id in v.rows ==> after.rows[id].hash == v.rows[id].hash)
      && (id in after.lost <==>
            id in v.lost || exists m :: m in moves && Identity(w, m.key) == id && v.rows[id].place == At(m.path))
  {
    MovesEffect(v, w, moves, id);
    if m :| m in moves && Identity(w, m.key) == id {
      assert forall n :: n in moves && n.key == m.key ==> n == m;
    } else {
      assert Lookup(After(v, w, moves).rows, id) == Lookup(v.rows, id);
    }
  }

  lemma DeletesLose(v: View, w: Writer, ops: seq<Operation>, id: Identity)
    ensures var after := After(v, w, OfKind(ops, DeleteKind));
      && (id in after.lost <==> id in v.lost && (id.writer == w ==> forall d :: d in ops && d.Delete? ==> d.key != id.key))
      && (id in after.rows ==> id in v.rows && after.rows[id] == v.rows[id])
      && (id in v.rows && (id.writer == w ==> forall d :: d in ops && d.Delete? ==> d.key != id.key) ==> id in after.rows)
  {
    var deletes := OfKind(ops, DeleteKind);
    DeletesEffect(v, w, deletes, id);
    assert forall d :: d in deletes <==> d in ops && d.Delete?;
    if d :| d in deletes && Identity(w, d.key) == id {
      assert Lookup(After(v, w, deletes).rows, id) == None;
    } else {
      assert Lookup(After(v, w, deletes).rows, id) == Lookup(v.rows, id);
    }
  }

  lemma AcceptedLosesExactly(grants: set<Grant>, v: View, w: Writer, ops: seq<Operation>, id: Identity)
    requires Accepted(grants, v, w, ops) && LostAreEntries(v)
    ensures id in Outcome(v, w, ops).lost <==> LosesFile(v.rows, w, ops, id) || StaysLost(v, w, ops, id)
  {
    hide After, AllOk, UniquePlaces;
    var moves, rest := OfKind(ops, MoveKind), Rest(ops);
    var v1 := After(v, w, OfKind(ops, DeleteKind));
    var v2 := After(v1, w, moves);
    forall m | m in moves ensures Identity(w, m.key) in v1.rows { assert LocallyOk(grants, v1, w, m); }
    DeletesLose(v, w, ops, id);
    MovesLose(v1, w, moves, id);
    RestLoses(v2, w, rest, id);
    assert forall p :: p in rest && p.Put? <==> p in ops && p.Put?;
    assert forall m :: m in moves <==> m in ops && m.Move?;
  }

  /** The operation moves an entry onto the path it already has. */
  predicate SelfMove(rows: Rows, w: Writer, op: Operation) {
    op.Move? && Identity(w, op.key) in rows && rows[Identity(w, op.key)].place == At(op.path)
  }

  /** With no file lost before, only a self-move can leave a put without the file it renames. */
  lemma NoSelfMovesFindFiles(grants: set<Grant>, v: View, w: Writer, ops: seq<Operation>)
    requires Accepted(grants, v, w, ops) && v.lost == {}
    requires forall m :: m in ops ==> !SelfMove(v.rows, w, m)
    ensures PutsFindFiles(v, w, ops) && Outcome(v, w, ops).lost == {}
  {
    hide AllOk, UniquePlaces, After;
    var moves, rest := OfKind(ops, MoveKind), Rest(ops);
    var v1 := After(v, w, OfKind(ops, DeleteKind));
    var v2 := After(v1, w, moves);
    forall m | m in moves ensures Identity(w, m.key) in v1.rows { assert LocallyOk(grants, v1, w, m); }
    forall id ensures id !in v2.lost {
      DeletesLose(v, w, ops, id);
      MovesLose(v1, w, moves, id);
    }
    assert forall op :: op in rest ==> op.Put? || op.Decide?;
    forall i | 0 <= i <= |rest| ensures After(v2, w, rest[..i]).lost == {} {
      assert forall op :: op in rest[..i] ==> op in rest;
      forall id ensures id !in After(v2, w, rest[..i]).lost { RestLoses(v2, w, rest[..i], id); }
    }
    assert rest[..|rest|] == rest;
  }
}
