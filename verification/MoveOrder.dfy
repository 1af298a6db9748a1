/**
 The depth-first ordering of a submission's moves: a move runs after the move that vacates its
 destination, except where that would go round a cycle.
 */
module MoveOrder {
  import opened MoveGraph

  /** Every node comes after its successor, or is the first of its cycle to come. */
  ghost predicate SuccessorsFirst<T(!new)>(order: seq<T>, g: map<T, T>) {
    forall i :: 0 <= i < |order| ==> SuccessorFirst(order, g, i)
  }

  ghost predicate SuccessorFirst<T(!new)>(order: seq<T>, g: map<T, T>, i: nat)
    requires i < |order|
  {
    order[i] in g ==> g[order[i]] in order[..i] || ClosesCycle(order, g, i)
  }

  lemma AppendKeepsOrder<T(!new)>(order: seq<T>, g: map<T, T>, x: T)
    requires SuccessorsFirst(order, g) && SuccessorFirst(order + [x], g, |order|)
    ensures SuccessorsFirst(order + [x], g)
  {
    forall i | 0 <= i < |order| ensures SuccessorFirst(order + [x], g, i) {
      assert (order + [x])[..i] == order[..i];
      assert SuccessorFirst(order, g, i);
    }
  }

  /** The chain of unfinished visits: each waits for its successor, and none is finished. */
  ghost predicate Waiting<T(!new)>(stack: seq<T>, g: map<T, T>, ordered: seq<T>) {
    Distinct(stack) && IsWalk(stack, g) && Disjoint(stack, ordered)
  }

  /** A successor found among the unfinished visits closes a cycle with nothing finished on it. */
  lemma WaitingSuccessorClosesCycle<T(!new)>(stack: seq<T>, x: T, g: map<T, T>, ordered: seq<T>)
    requires Waiting(stack + [x], g, ordered) && x in g && g[x] in stack + [x]
    ensures ClosesCycle(ordered + [x], g, |ordered|)
  {
    var chain := stack + [x];
    assert chain[|stack|] == x;
    var k :| 0 <= k < |chain| && chain[k] == g[x];
    var c := chain[k..];
    forall i | 0 < i < |c| ensures g[c[i - 1]] == c[i] {
      assert c[i] == chain[k + i] && c[i - 1] == chain[k + i - 1];
    }
    assert c[|c| - 1] == x;
    assert IsCycle(c, g);
    assert (ordered + [x])[..|ordered|] == ordered;
    forall y | y in c ensures y !in ordered { assert y in chain; }
  }

  /** The order once x has been visited; the visits to the nodes waiting are not finished. */
  ghost function Visited<T(!new)>(g: map<T, T>, nodes: set<T>, waiting: set<T>, ordered: seq<T>, x: T): seq<T>
    requires x in nodes && forall m :: m in g ==> g[m] in nodes
    decreases nodes - waiting
  {
    if x in ordered || x in waiting then ordered
    else (if x in g && g[x] != x then Visited(g, nodes, waiting + {x}, ordered, g[x]) else ordered) + [x]
  }

  ghost function VisitedAll<T(!new)>(g: map<T, T>, nodes: set<T>, moves: seq<T>): seq<T>
    requires (forall m :: m in moves ==> m in nodes) && forall m :: m in g ==> g[m] in nodes
  {
    if moves == [] then []
    else
      var n := |moves| - 1;
      Visited(g, nodes, {}, VisitedAll(g, nodes, moves[..n]), moves[n])
  }

  /** The order of depth-first visits to the nodes in the order given. */
  ghost function DepthFirst<T(!new)>(moves: seq<T>, g: map<T, T>): seq<T>
    requires forall m :: m in g ==> g[m] in moves
  {
    VisitedAll(g, Elements(moves), moves)
  }

  class Sorter<T(==,!new)> {
    const dependency: map<T, T>
    var temporary: set<T>
    var permanent: set<T>
    var ordered: seq<T>

    constructor (dependency: map<T, T>)
      ensures this.dependency == dependency && temporary == {} && Valid() && ordered == []
    {
      this.dependency := dependency;
      temporary, permanent, ordered := {}, {}, [];
    }

    ghost predicate Valid()
      reads this
    {
      permanent == Elements(ordered) && Distinct(ordered) && SuccessorsFirst(ordered, dependency)
    }

    /** Visits one move; stack is the chain of visits that are waiting for it. */
    method Visit(move: T, ghost stack: seq<T>, ghost moves: set<T>)
      requires Valid() && temporary == Elements(stack)
      requires Waiting(stack, dependency, ordered)
      requires stack != [] ==> dependency[stack[|stack| - 1]] == move
      requires move in moves && temporary <= moves
      requires forall m :: m in dependency ==> dependency[m] in moves
      requires forall m :: m in permanent ==> m in moves
      modifies this
      ensures Valid() && temporary == old(temporary)
      ensures old(ordered) <= ordered && Disjoint(stack, ordered)
      ensures ordered == Visited(dependency, moves, old(temporary), old(ordered), move)
      ensures move in permanent || move in temporary
      ensures forall m :: m in permanent ==> m in moves
      decreases moves - temporary
    {
      if move in permanent {
        return;
      }
      if move in temporary {
        return;
      }
      temporary := temporary + {move};
      ghost var chain := stack + [move];
      assert Elements(chain) == temporary;
      if move in dependency && dependency[move] != move {
        assert Waiting(chain, dependency, ordered);
        Visit(dependency[move], chain, moves);
      }
      temporary := temporary - {move};
      permanent := permanent + {move};
      assert SuccessorFirst(ordered + [move], dependency, |ordered|) by {
        assert (ordered + [move])[..|ordered|] == ordered;
        if move in dependency && dependency[move] !in ordered {
          assert chain[|stack|] == move;
          WaitingSuccessorClosesCycle(stack, move, dependency, ordered);
        }
      }
      AppendKeepsOrder(ordered, dependency, move);
      ordered := ordered + [move];
      assert temporary == Elements(stack);
    }
  }

  /** All moves, each once, ordered by depth-first visits in the order given. */
  method SortMoves<T(==,!new)>(moves: seq<T>, dependency: map<T, T>) returns (ordered: seq<T>)
    requires forall m :: m in dependency ==> m in moves && dependency[m] in moves
    ensures Distinct(ordered) && Elements(ordered) == Elements(moves)
    ensures SuccessorsFirst(ordered, dependency) && ordered == DepthFirst(moves, dependency)
  {
    var sorter := new Sorter(dependency);
    for n := 0 to |moves|
      invariant sorter.Valid() && sorter.dependency == dependency && sorter.temporary == {}
      invariant forall i :: 0 <= i < n ==> moves[i] in sorter.permanent
      invariant forall m :: m in sorter.permanent ==> m in Elements(moves)
      invariant sorter.ordered == VisitedAll(dependency, Elements(moves), moves[..n])
    {
      assert moves[..n + 1][..n] == moves[..n];
      sorter.Visit(moves[n], [], Elements(moves));
    }
    assert moves[..|moves|] == moves;
    ordered := sorter.ordered;
  }
}
