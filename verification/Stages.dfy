/** How far a submission has got: the stages of its ordered operations that have been applied. */
module Stages {
  import opened Wrappers
  import opened Catalog
  import opened Batch

  /** A submission in the order it runs: deletes, ordered moves, then puts and decisions. */
  datatype Plan = Plan(grants: set<Grant>, rows: Rows, ghost lost: set<Identity>, w: Writer,
                       deletes: seq<Operation>, moves: seq<Operation>, rest: seq<Operation>)
  {
    ghost function Start(): View {
      View(rows, lost)
    }

    ghost predicate WellFormed() {
      && (forall op :: op in deletes ==> op.Delete?)
      && AllMoves(moves) && DistinctKeys(moves)
      && (forall op :: op in rest ==> op.Put? || op.Decide?)
      && UniquePlaces(rows)
    }

    function Ordered(): seq<Operation> {
      deletes + moves + rest
    }

    /** The kind of an operation tells which stage it belongs to. */
    lemma StageOf(index: nat)
      requires WellFormed() && index < |Ordered()|
      ensures Ordered()[index].Delete? <==> index < |deletes|
      ensures Ordered()[index].Delete? ==> Ordered()[index] == deletes[index]
      ensures Ordered()[index].Move? <==> |deletes| <= index < |deletes| + |moves|
      ensures Ordered()[index].Move? ==> Ordered()[index] == moves[index - |deletes|]
      ensures !Ordered()[index].Delete? && !Ordered()[index].Move? ==>
        index >= |deletes| + |moves| && Ordered()[index] == rest[index - |deletes| - |moves|]
    {
      if index < |deletes| {
        assert deletes[index] in deletes;
      } else if index < |deletes| + |moves| {
        assert moves[index - |deletes|] in moves;
      } else {
        assert rest[index - |deletes| - |moves|] in rest;
      }
    }

    ghost predicate Acceptable() {
      AcceptedStages(grants, Start(), w, deletes, moves, rest)
    }

    ghost function AfterDeletes(): View {
      After(Start(), w, deletes)
    }

    ghost function AfterMoves(): View {
      After(AfterDeletes(), w, moves)
    }

    ghost function Final(): View {
      After(AfterMoves(), w, rest)
    }

    /** The decision rows once the first index operations have run. */
    ghost function DecidedBy(decisions: map<Identity, Decision>, index: nat): map<Identity, Decision>
      requires index <= |Ordered()|
    {
      Decided(decisions, w, Ordered()[..index])
    }

    lemma DecidedStep(decisions: map<Identity, Decision>, index: nat, next: nat)
      requires index < next <= |Ordered()|
      requires forall i :: index <= i < next - 1 ==> !Ordered()[i].Decide?
      ensures var op := Ordered()[next - 1];
        DecidedBy(decisions, next) == if op.Decide?
          then DecidedBy(decisions, index)[Identity(w, op.key) := Decision(op.state, op.where, op.version)]
          else DecidedBy(decisions, index)
    {
      var skipped := Ordered()[index..next - 1];
      assert Ordered()[..next - 1] == Ordered()[..index] + skipped;
      DecidedAppend(decisions, w, Ordered()[..index], skipped);
      NothingDecided(DecidedBy(decisions, index), w, skipped);
      assert Ordered()[..next][..next - 1] == Ordered()[..next - 1];
    }

    lemma DecidedInTheEnd(decisions: map<Identity, Decision>, puts: seq<Operation>, decides: seq<Operation>)
      requires WellFormed() && rest == puts + decides && forall op :: op in puts ==> op.Put?
      ensures DecidedBy(decisions, |Ordered()|) == Decided(decisions, w, decides)
    {
      assert Ordered()[..|Ordered()|] == deletes + moves + puts + decides;
      NothingDecided(decisions, w, deletes + moves + puts);
      DecidedAppend(decisions, w, deletes + moves + puts, decides);
    }

    /** No lost entry is in the way of a move, and none is one that a put would rename. */
    ghost predicate Unhindered() {
      AllFind(AfterMoves(), w, rest) && !MeetsLost(AfterDeletes(), w, moves)
    }

    /** The engine applies the plan, in a state where tree and catalog agree and no primitive fails. */
    ghost predicate Applicable() {
      Acceptable() && Unhindered()
    }

    /**
     The first index operations have been applied and everything was in order; a batch of moves
     counts as one step.  Whether lost files were in the way is tracked only when it is known.
     */
    ghost predicate Reached(index: nat, now: View, known: bool) {
      if index <= |deletes| then
        AllOk(grants, Start(), w, deletes[..index]) && now == After(Start(), w, deletes[..index])
      else
        var k := index - |deletes| - |moves|;
        && 0 <= k <= |rest|
        && AllOk(grants, Start(), w, deletes) && BatchOk(grants, AfterDeletes(), w, moves)
        && AllOk(grants, AfterMoves(), w, rest[..k]) && now == After(AfterMoves(), w, rest[..k])
        && (known ==> AllFind(AfterMoves(), w, rest[..k]) && !MeetsLost(AfterDeletes(), w, moves))
    }

    /** The rows after the first index operations, with moves taken one at a time. */
    ghost function Prefix(index: nat): View
      requires index <= |Ordered()|
    {
      After(Start(), w, Ordered()[..index])
    }

    lemma PrefixByStage(index: nat)
      requires index <= |Ordered()|
      ensures index <= |deletes| ==> Prefix(index) == After(Start(), w, deletes[..index])
      ensures |deletes| <= index <= |deletes| + |moves| ==>
        Prefix(index) == After(AfterDeletes(), w, moves[..index - |deletes|])
      ensures |deletes| + |moves| <= index ==>
        Prefix(index) == After(AfterMoves(), w, rest[..index - |deletes| - |moves|])
    {
      var o := Ordered();
      if index <= |deletes| {
        assert o[..index] == deletes[..index];
      }
      if |deletes| <= index <= |deletes| + |moves| {
        assert o[..index] == deletes + moves[..index - |deletes|];
        AfterAppend(Start(), w, deletes, moves[..index - |deletes|]);
      }
      if |deletes| + |moves| <= index {
        assert o[..index] == deletes + moves + rest[..index - |deletes| - |moves|];
        AfterAppend(Start(), w, deletes + moves, rest[..index - |deletes| - |moves|]);
        AfterAppend(Start(), w, deletes, moves);
      }
    }

    lemma PrefixStep(index: nat)
      requires index < |Ordered()|
      ensures Prefix(index + 1) == Step(Prefix(index), w, Ordered()[index])
    {
      assert Ordered()[..index + 1] == Ordered()[..index] + [Ordered()[index]];
      AfterOne(Start(), w, Ordered()[..index], Ordered()[index]);
    }

    /** Outside the moves, an acceptable plan finds every operation in order where it stands. */
    lemma AcceptableHere(index: nat)
      requires WellFormed() && Acceptable() && index < |Ordered()| && !Ordered()[index].Move?
      ensures LocallyOk(grants, Prefix(index), w, Ordered()[index]) && UniquePlaces(Prefix(index + 1).rows)
    {
      StageOf(index);
      PrefixByStage(index);
      PrefixByStage(index + 1);
      if index < |deletes| {
        assert OkAt(grants, Start(), w, deletes, index);
      } else {
        assert OkAt(grants, AfterMoves(), w, rest, index - |deletes| - |moves|);
      }
    }

    /** A row found at a move's turn is the row the batch started from, unless its own move has run. */
    lemma MoveFindsRow(index: nat, id: Identity)
      requires WellFormed() && index < |Ordered()| && Ordered()[index].Move?
      requires (forall m :: m in moves ==> Identity(w, m.key) != id) || id == Identity(w, Ordered()[index].key)
      ensures Ordered()[index] in moves
      ensures Lookup(Prefix(index).rows, id) == Lookup(AfterDeletes().rows, id)
    {
      StageOf(index);
      PrefixByStage(index);
      var k := index - |deletes|;
      assert moves[k] in moves;
      forall m | m in moves[..k] ensures m in moves && Identity(w, m.key) != id {
        var j :| 0 <= j < k && moves[..k][j] == m;
        assert moves[j] in moves;
      }
      MovesEffect(AfterDeletes(), w, moves[..k], id);
    }

    /** A row that no move takes away keeps a move of an acceptable plan from its path. */
    lemma SettledRowBlocks(index: nat, other: Identity)
      requires WellFormed() && index < |Ordered()| && Ordered()[index].Move?
      requires forall m :: m in moves ==> Identity(w, m.key) != other
      requires other in Prefix(index).rows && Prefix(index).rows[other].place == At(Ordered()[index].path)
      ensures !Acceptable()
    {
      var m := Ordered()[index];
      var id := Identity(w, m.key);
      MoveFindsRow(index, other);
      if Acceptable() {
        assert LocallyOk(grants, AfterDeletes(), w, m);
        MovesEffect(AfterDeletes(), w, moves, other);
        MovesEffect(AfterDeletes(), w, moves, id);
      }
    }

    lemma Begin(known: bool)
      ensures Reached(0, Start(), known)
    {
    }

    lemma ReachNextDelete(index: nat, now: View, known: bool)
      requires Reached(index, now, known) && index < |deletes|
      requires LocallyOk(grants, now, w, deletes[index]) && UniquePlaces(Step(now, w, deletes[index]).rows)
      ensures Reached(index + 1, Step(now, w, deletes[index]), known)
    {
      AllOkOneMore(grants, Start(), w, deletes, index);
    }

    lemma ReachAfterMoves(now: View, known: bool)
      requires Reached(|deletes|, now, known) && BatchOk(grants, now, w, moves) && moves != []
      requires known ==> !MeetsLost(now, w, moves)
      ensures Reached(|deletes| + |moves|, After(now, w, moves), known)
    {
      assert deletes[..|deletes|] == deletes;
    }

    lemma ReachNextOfRest(index: nat, now: View, op: Operation, known: bool)
      requires WellFormed() && Reached(index, now, known) && (known ==> FindsFile(now, w, op))
      requires |deletes| + |moves| <= index < |Ordered()| && op == rest[index - |deletes| - |moves|]
      requires LocallyOk(grants, now, w, op) && UniquePlaces(Step(now, w, op).rows)
      ensures Reached(index + 1, Step(now, w, op), known)
    {
      hide MeetsLost, AllOk, AllFind, After, LocallyOk, UniquePlaces, FindsFile;
      if index == |deletes| { SkipEmptyBatch(now, known); }
      var k := index - |deletes| - |moves|;
      AllOkOneMore(grants, AfterMoves(), w, rest, k);
      if known { AllFindOneMore(AfterMoves(), w, rest, k); }
    }

    /** Without moves, having applied the deletes is having applied the moves. */
    lemma SkipEmptyBatch(now: View, known: bool)
      requires WellFormed() && Reached(|deletes|, now, known) && moves == []
      ensures AllOk(grants, Start(), w, deletes) && BatchOk(grants, AfterDeletes(), w, moves)
      ensures now == AfterMoves() == After(AfterMoves(), w, rest[..0]) && !MeetsLost(AfterDeletes(), w, moves)
      ensures AllOk(grants, AfterMoves(), w, rest[..0]) && AllFind(AfterMoves(), w, rest[..0])
    {
      assert deletes[..|deletes|] == deletes;
      if deletes != [] {
        assert OkAt(grants, Start(), w, deletes, |deletes| - 1);
      }
    }

    lemma Finished(now: View, known: bool)
      requires WellFormed() && Reached(|Ordered()|, now, known)
      ensures Acceptable() && now == Final() && (known ==> Unhindered())
    {
      assert rest[..|rest|] == rest;
      if rest == [] && moves == [] { SkipEmptyBatch(now, known); }
    }

    lemma BlockedDelete(index: nat, now: View, known: bool)
      requires Reached(index, now, known) && index < |deletes| && !LocallyOk(grants, now, w, deletes[index])
      ensures !Acceptable()
    {
      assert !OkAt(grants, Start(), w, deletes, index);
    }

    lemma BlockedBatch(now: View, known: bool)
      requires Reached(|deletes|, now, known) && (!BatchOk(grants, now, w, moves) || MeetsLost(now, w, moves))
      ensures !Applicable()
    {
      assert deletes[..|deletes|] == deletes;
    }

    lemma BlockedRest(index: nat, now: View, op: Operation, known: bool)
      requires WellFormed() && Reached(index, now, known)
      requires |deletes| + |moves| <= index < |Ordered()| && op == rest[index - |deletes| - |moves|]
      requires !LocallyOk(grants, now, w, op) || !UniquePlaces(Step(now, w, op).rows) || !FindsFile(now, w, op)
      ensures !Applicable()
    {
      if index == |deletes| { SkipEmptyBatch(now, known); }
      var k := index - |deletes| - |moves|;
      assert rest[..k + 1] == rest[..k] + [rest[k]];
      AfterOne(AfterMoves(), w, rest[..k], op);
      assert !OkAt(grants, AfterMoves(), w, rest, k) || !FindsFile(After(AfterMoves(), w, rest[..k]), w, rest[k]);
    }

    /** Up to the end of the deletes nothing is lost and no row has changed. */
    lemma DeletesOnlyRemove(index: nat, now: View, known: bool)
      requires WellFormed() && Reached(index, now, known) && index <= |deletes|
      ensures now.lost <= lost && forall id :: id in now.rows ==> id in rows && rows[id] == now.rows[id]
    {
      assert forall op :: op in deletes[..index] ==> op in deletes;
      forall id | id in now.rows ensures id in rows && rows[id] == now.rows[id] {
        DeletesEffect(Start(), w, deletes[..index], id);
        assert Lookup(now.rows, id).Some?;
      }
      DeletesEffect(Start(), w, deletes[..index], Identity(w, SourceKey("", "")));
    }
  }

  lemma AllFindOneMore(v: View, w: Writer, ops: seq<Operation>, k: nat)
    requires k < |ops| && AllFind(v, w, ops[..k]) && FindsFile(After(v, w, ops[..k]), w, ops[k])
    ensures AllFind(v, w, ops[..k + 1])
  {
    var more := ops[..k + 1];
    forall i | 0 <= i < |more| ensures FindsFile(After(v, w, more[..i]), w, more[i]) {
      assert more[..i] == ops[..i];
      if i < k {
        assert ops[..k][..i] == ops[..i];
        assert FindsFile(After(v, w, ops[..k][..i]), w, ops[..k][i]);
      }
    }
  }

  lemma AllOkOneMore(grants: set<Grant>, v: View, w: Writer, ops: seq<Operation>, k: nat)
    requires k < |ops| && AllOk(grants, v, w, ops[..k])
    requires LocallyOk(grants, After(v, w, ops[..k]), w, ops[k])
    requires UniquePlaces(Step(After(v, w, ops[..k]), w, ops[k]).rows)
    ensures AllOk(grants, v, w, ops[..k + 1])
    ensures After(v, w, ops[..k + 1]) == Step(After(v, w, ops[..k]), w, ops[k])
  {
    assert ops[..k + 1] == ops[..k] + [ops[k]];
    AfterOne(v, w, ops[..k], ops[k]);
    var more := ops[..k + 1];
    forall i | 0 <= i < |more| ensures OkAt(grants, v, w, more, i) {
      assert more[..i] == ops[..i];
      assert more[..i + 1] == ops[..i + 1];
      if i < k {
        assert OkAt(grants, v, w, ops[..k], i);
        assert ops[..k][..i] == ops[..i];
        assert ops[..k][..i + 1] == ops[..i + 1];
      }
    }
  }
}
