/**
 Directed graphs in which every node has at most one successor, given as a map from node to
 successor, and the search for the cycles of such a graph.  Move batches use them twice: over
 source paths, to find the files that must be parked, and over move operations, to order them.
 */
module MoveGraph {

  ghost predicate Distinct<T(!new)>(s: seq<T>) {
    forall i, j :: 0 <= i < j < |s| ==> s[i] != s[j]
  }

  function Elements<T>(s: seq<T>): set<T> {
    set x | x in s
  }

  ghost predicate Disjoint<T(!new)>(s: seq<T>, t: seq<T>) {
    forall x :: x in s ==> x !in t
  }

  /** Consecutive elements of w follow edges of g. */
  ghost predicate IsWalk<T(!new)>(w: seq<T>, g: map<T, T>) {
    && (forall i :: 0 <= i < |w| ==> w[i] in g)
    && (forall i :: 0 < i < |w| ==> g[w[i - 1]] == w[i])
  }

  /** A simple cycle of g, written from any one of its nodes. */
  ghost predicate IsCycle<T(!new)>(c: seq<T>, g: map<T, T>) {
    c != [] && Distinct(c) && IsWalk(c, g) && g[c[|c| - 1]] == c[0]
  }

  ghost predicate OnCycle<T(!new)>(x: T, g: map<T, T>) {
    exists c :: IsCycle(c, g) && x in c
  }

  /** Following an edge from d either stays in d or leaves the graph. */
  ghost predicate Closed<T(!new)>(d: set<T>, g: map<T, T>) {
    forall x :: x in d && x in g && g[x] in g ==> g[x] in d
  }

  lemma {:induction false} WalkStaysInside<T(!new)>(w: seq<T>, g: map<T, T>, d: set<T>, i: nat, j: nat)
    requires IsWalk(w, g) && Closed(d, g)
    requires i <= j < |w| && w[i] in d
    ensures w[j] in d
    decreases j
  {
    if i < j {
      WalkStaysInside(w, g, d, i, j - 1);
      assert g[w[j - 1]] == w[j];
    }
  }

  /** A closed set that meets a cycle contains all of it. */
  lemma {:induction false} ClosedAbsorbsCycle<T(!new)>(c: seq<T>, g: map<T, T>, d: set<T>, x: T, y: T)
    requires IsCycle(c, g) && Closed(d, g)
    requires x in c && x in d && y in c
    ensures y in d
  {
    var i :| 0 <= i < |c| && c[i] == x;
    var j :| 0 <= j < |c| && c[j] == y;
    WalkStaysInside(c, g, d, i, |c| - 1);
    assert c[0] in d;
    WalkStaysInside(c, g, d, 0, j);
  }

  lemma CycleIsClosed<T(!new)>(c: seq<T>, g: map<T, T>)
    requires IsCycle(c, g)
    ensures Closed(Elements(c), g)
  {
    forall x | x in c ensures g[x] in c {
      var i :| 0 <= i < |c| && c[i] == x;
      if i + 1 < |c| { assert g[c[i]] == c[i + 1]; }
    }
  }

  /** Two cycles with a node in common have the same nodes. */
  lemma MeetingCyclesAgree<T(!new)>(c: seq<T>, d: seq<T>, g: map<T, T>, x: T, y: T)
    requires IsCycle(c, g) && IsCycle(d, g) && x in c && x in d
    ensures y in c <==> y in d
  {
    CycleIsClosed(c, g);
    CycleIsClosed(d, g);
    if y in c { ClosedAbsorbsCycle(c, g, Elements(d), x, y); }
    if y in d { ClosedAbsorbsCycle(d, g, Elements(c), x, y); }
  }

  /** A one-to-one image of a cycle under a map of graphs is a cycle. */
  lemma CycleImage<T(!new), U(!new)>(c: seq<T>, g: map<T, T>, p: seq<U>, h: map<U, U>)
    requires IsCycle(c, g) && |p| == |c| && Distinct(p)
    requires forall k, l :: 0 <= k < |c| && 0 <= l < |c| && g[c[k]] == c[l] ==> p[k] in h && h[p[k]] == p[l]
    ensures IsCycle(p, h)
  {
    var n := |c| - 1;
    assert p[n] in h && h[p[n]] == p[0];
    forall k | 0 <= k < n ensures p[k] in h {
      assert g[c[k]] == c[k + 1];
    }
    forall k | 0 < k < |p| ensures h[p[k - 1]] == p[k] {
      assert g[c[k - 1]] == c[k];
    }
  }

  /**
   The search reached c by walking w from keys[e]: c is written from the first of its nodes on
   that walk, and no earlier key lies on c.
   */
  ghost predicate EnteredBy<T(!new)>(keys: seq<T>, g: map<T, T>, c: seq<T>, e: nat, w: seq<T>) {
    && e < |keys| && w != [] && c != []
    && IsWalk(w, g) && w[0] == keys[e] && w[|w| - 1] == c[0]
    && (forall i :: 0 <= i < |w| - 1 ==> w[i] !in c)
    && (forall i :: 0 <= i < e ==> keys[i] !in c)
  }

  ghost predicate Entered<T(!new)>(keys: seq<T>, g: map<T, T>, c: seq<T>) {
    exists e, w :: EnteredBy(keys, g, c, e, w)
  }

  ghost predicate PairwiseDisjoint<T(!new)>(cs: seq<seq<T>>) {
    forall i, j :: 0 <= i < j < |cs| ==> Disjoint(cs[i], cs[j])
  }

  /** Follows edges from start until leaving g, reaching seen, or returning to the walk itself. */
  method FollowMoves<T(==,!new)>(start: T, g: map<T, T>, seen: set<T>) returns (stack: seq<T>, cycle: seq<T>)
    requires start in g && start !in seen
    ensures Walked(g, seen, start, stack, cycle)
  {
    var path := start;
    stack, cycle := [], [];
    var stackIndex: map<T, nat> := map[];
    while path in g
      invariant Distinct(stack) && IsWalk(stack, g) && stackIndex.Keys <= g.Keys
      invariant stack != [] ==> stack[0] == start && path == g[stack[|stack| - 1]]
      invariant stack == [] ==> path == start
      invariant forall x :: x in stack ==> x !in seen
      invariant forall x :: x in stackIndex <==> x in stack
      invariant forall x :: x in stackIndex ==> stackIndex[x] < |stack| && stack[stackIndex[x]] == x
      decreases g.Keys - stackIndex.Keys
    {
      if path in stackIndex {
        cycle := stack[stackIndex[path]..];
        assert IsCycle(cycle, g) by {
          var k := stackIndex[path];
          forall i | 0 < i < |cycle| ensures g[cycle[i - 1]] == cycle[i] {
            assert cycle[i] == stack[k + i] && cycle[i - 1] == stack[k + i - 1];
          }
        }
        return;
      }
      if path in seen {
        return;
      }
      ghost var before := stack;
      assert path in g.Keys - stackIndex.Keys;
      stackIndex := stackIndex[path := |stack|];
      stack := stack + [path];
      path := g[path];
      assert stack[..|before|] == before;
    }
  }

  /**
   What the cycle search promises: it lists simple cycles, no two of which share a node, and
   every node on any cycle of g is on a listed one.
   */
  ghost predicate ListsEachCycleOnce<T(!new)>(cycles: seq<seq<T>>, g: map<T, T>) {
    && (forall a :: 0 <= a < |cycles| ==> IsCycle(cycles[a], g))
    && PairwiseDisjoint(cycles)
    && (forall x :: OnCycle(x, g) ==> Lists(cycles, x))
  }

  /** The nodes already searched: closed, inside g, and covering the keys done so far. */
  ghost predicate Searched<T(!new)>(keys: seq<T>, n: nat, g: map<T, T>, seen: set<T>) {
    n <= |keys| && seen <= g.Keys && Closed(seen, g) && forall i :: 0 <= i < n ==> keys[i] in seen
  }

  /** Exactly the cycles inside seen are listed, each once. */
  ghost predicate ListsThoseIn<T(!new)>(keys: seq<T>, g: map<T, T>, seen: set<T>, cycles: seq<seq<T>>) {
    && (forall a :: 0 <= a < |cycles| ==> Listed(keys, g, seen, cycles[a]))
    && PairwiseDisjoint(cycles)
    && (forall x :: x in seen && OnCycle(x, g) ==> Lists(cycles, x))
  }

  ghost predicate Listed<T(!new)>(keys: seq<T>, g: map<T, T>, seen: set<T>, c: seq<T>) {
    IsCycle(c, g) && Elements(c) <= seen && Entered(keys, g, c)
  }

  ghost predicate Lists<T(!new)>(cycles: seq<seq<T>>, x: T) {
    exists a :: 0 <= a < |cycles| && x in cycles[a]
  }

  /** How a walk from an unseen node ends: off the graph, at a seen node, or closing a cycle. */
  ghost predicate Walked<T(!new)>(g: map<T, T>, seen: set<T>, start: T, stack: seq<T>, cycle: seq<T>) {
    && stack != [] && stack[0] == start && Distinct(stack) && IsWalk(stack, g)
    && (forall x :: x in stack ==> x !in seen)
    && (cycle == [] ==> g[stack[|stack| - 1]] !in g || g[stack[|stack| - 1]] in seen)
    && (cycle != [] ==> IsCycle(cycle, g) && exists k :: 0 <= k < |stack| && cycle == stack[k..])
  }

  /** A finished walk adds no cycle beyond the one it closed. */
  lemma WalkCycles<T(!new)>(g: map<T, T>, seen: set<T>, stack: seq<T>, cycle: seq<T>, x: T)
    requires Closed(seen, g) && stack != [] && Walked(g, seen, stack[0], stack, cycle)
    requires x in stack && OnCycle(x, g)
    ensures x in cycle
  {
    var c :| IsCycle(c, g) && x in c;
    var t :| 0 <= t < |stack| && stack[t] == x;
    var n := |stack| - 1;
    CycleIsClosed(c, g);
    WalkStaysInside(stack, g, Elements(c), t, n);
    var next := g[stack[n]];
    assert next in c by {
      var i :| 0 <= i < |c| && c[i] == stack[n];
      if i + 1 < |c| { assert g[c[i]] == c[i + 1]; }
    }
    if cycle == [] {
      ClosedAbsorbsCycle(c, g, seen, next, x);
      assert false;
    } else {
      assert cycle[|cycle| - 1] == stack[n];
      MeetingCyclesAgree(c, cycle, g, stack[n], x);
    }
  }

  lemma WalkKeepsSeenClosed<T(!new)>(g: map<T, T>, seen: set<T>, stack: seq<T>, cycle: seq<T>)
    requires Closed(seen, g) && stack != [] && Walked(g, seen, stack[0], stack, cycle)
    ensures Closed(seen + Elements(stack), g)
  {
    forall x | x in stack && x in g && g[x] in g ensures g[x] in seen + Elements(stack) {
      var t :| 0 <= t < |stack| && stack[t] == x;
      if t + 1 < |stack| {
        assert g[stack[t]] == stack[t + 1];
      } else if cycle != [] {
        assert cycle[|cycle| - 1] == x && cycle[0] in stack;
      }
    }
  }

  /** One walk from keys[n] keeps the listing exact. */
  lemma WalkAdvancesSearch<T(!new)>(
    keys: seq<T>, n: nat, g: map<T, T>, seen: set<T>, cycles: seq<seq<T>>, stack: seq<T>, cycle: seq<T>)
    requires n < |keys| && Searched(keys, n, g, seen) && ListsThoseIn(keys, g, seen, cycles)
    requires Walked(g, seen, keys[n], stack, cycle)
    ensures ListsThoseIn(keys, g, seen + Elements(stack), if cycle == [] then cycles else cycles + [cycle])
  {
    hide Entered, OnCycle, IsCycle, IsWalk, Distinct, Closed;
    var seen' := seen + Elements(stack);
    var cycles' := if cycle == [] then cycles else cycles + [cycle];
    forall x | x in seen' && OnCycle(x, g) ensures Lists(cycles', x) {
      WalkKeepsListing(g, seen, cycles, stack, cycle, x);
    }
    forall a | 0 <= a < |cycles| ensures Listed(keys, g, seen', cycles[a]) {
      ListedStays(keys, g, seen, seen', cycles[a]);
    }
    if cycle != [] {
      EntryWalkReaches(keys, g, seen, stack, cycle, n);
      assert Listed(keys, g, seen', cycle);
      DisjointAppend(cycles, cycle, seen);
    }
  }

  lemma ListedStays<T(!new)>(keys: seq<T>, g: map<T, T>, seen: set<T>, seen': set<T>, c: seq<T>)
    requires Listed(keys, g, seen, c) && seen <= seen'
    ensures Listed(keys, g, seen', c)
  {
  }

  lemma WalkKeepsListing<T(!new)>(
    g: map<T, T>, seen: set<T>, cycles: seq<seq<T>>, stack: seq<T>, cycle: seq<T>, x: T)
    requires Closed(seen, g) && stack != [] && Walked(g, seen, stack[0], stack, cycle)
    requires x in seen ==> Lists(cycles, x)
    requires x in seen + Elements(stack) && OnCycle(x, g)
    ensures Lists(if cycle == [] then cycles else cycles + [cycle], x)
  {
    var cycles' := if cycle == [] then cycles else cycles + [cycle];
    if x in seen {
      var a :| 0 <= a < |cycles| && x in cycles[a];
      assert cycles'[a] == cycles[a];
    } else {
      WalkCycles(g, seen, stack, cycle, x);
      assert cycles'[|cycles|] == cycle;
    }
  }

  lemma DisjointAppend<T(!new)>(cycles: seq<seq<T>>, cycle: seq<T>, seen: set<T>)
    requires PairwiseDisjoint(cycles) && forall a :: 0 <= a < |cycles| ==> Elements(cycles[a]) <= seen
    requires forall x :: x in cycle ==> x !in seen
    ensures PairwiseDisjoint(cycles + [cycle])
  {
    forall a | 0 <= a < |cycles| ensures Disjoint(cycles[a], cycle) {
      forall x | x in cycles[a] ensures x !in cycle {
        assert x in Elements(cycles[a]);
      }
    }
  }

  method MoveCycles<T(==,!new)>(keys: seq<T>, g: map<T, T>) returns (cycles: seq<seq<T>>)
    requires forall k :: k in g <==> k in keys
    ensures ListsEachCycleOnce(cycles, g)
    ensures forall a :: 0 <= a < |cycles| ==> Entered(keys, g, cycles[a])
  {
    cycles := [];
    var seen: set<T> := {};
    for n := 0 to |keys|
      invariant Searched(keys, n, g, seen) && ListsThoseIn(keys, g, seen, cycles)
    {
      if keys[n] in seen {
        continue;
      }
      var stack, cycle := FollowMoves(keys[n], g, seen);
      WalkKeepsSeenClosed(g, seen, stack, cycle);
      WalkAdvancesSearch(keys, n, g, seen, cycles, stack, cycle);
      if cycle != [] {
        cycles := cycles + [cycle];
      }
      seen := seen + Elements(stack);
    }
    forall x | OnCycle(x, g) ensures Lists(cycles, x) {
      var c :| IsCycle(c, g) && x in c;
      assert x in g;
    }
  }

  /** The part of the walk up to and including the first node of the cycle it closed. */
  ghost function EntryWalk<T>(stack: seq<T>, cycle: seq<T>): seq<T>
  {
    if |cycle| <= |stack| then stack[..|stack| - |cycle|] + (if cycle == [] then [] else [cycle[0]]) else []
  }

  lemma EntryWalkReaches<T(!new)>(keys: seq<T>, g: map<T, T>, seen: set<T>, stack: seq<T>, cycle: seq<T>, n: nat)
    requires n < |keys| && stack != [] && stack[0] == keys[n] && Distinct(stack) && IsWalk(stack, g)
    requires forall x :: x in stack ==> x !in seen
    requires forall i :: 0 <= i < n ==> keys[i] in seen
    requires cycle != [] && exists k :: 0 <= k < |stack| && cycle == stack[k..]
    ensures Entered(keys, g, cycle)
  {
    var k :| 0 <= k < |stack| && cycle == stack[k..];
    var w := EntryWalk(stack, cycle);
    assert w == stack[..k + 1];
    forall i, j | 0 <= i < k && 0 <= j < |cycle| ensures w[i] != cycle[j] {
      assert cycle[j] == stack[k + j];
    }
    assert EnteredBy(keys, g, cycle, n, w);
  }

  /**
   The order in which moves may run.  The successor of each node in the order is either no node
   of the order, or comes earlier, or closes a cycle whose nodes all come no earlier.
   */
  ghost predicate DependencyOrdered<T(!new)>(order: seq<T>, g: map<T, T>) {
    forall i :: 0 <= i < |order| && order[i] in g ==>
      || g[order[i]] == order[i]
      || g[order[i]] !in order
      || g[order[i]] in order[..i]
      || ClosesCycle(order, g, i)
  }

  ghost predicate ClosesCycle<T(!new)>(order: seq<T>, g: map<T, T>, i: nat)
    requires i < |order|
  {
    exists c :: IsCycle(c, g) && order[i] in c && Disjoint(c, order[..i])
  }

  /** In order, a node's successor comes later exactly if the node is the first of its cycle. */
  lemma LaterSuccessorIff<T(!new)>(order: seq<T>, g: map<T, T>, i: nat)
    requires Distinct(order) && DependencyOrdered(order, g) && forall k :: k in g <==> k in order
    requires i < |order| && order[i] in g && g[order[i]] != order[i]
    ensures (exists l: nat :: i < l < |order| && order[l] == g[order[i]]) <==> ClosesCycle(order, g, i)
  {
    if l: nat :| i < l < |order| && order[l] == g[order[i]] {
      assert order[l] !in order[..i];
    }
    if ClosesCycle(order, g, i) {
      var c :| IsCycle(c, g) && order[i] in c && Disjoint(c, order[..i]);
      SuccessorOnCycle(c, g, order[i]);
      forall k | 0 <= k < i ensures order[k] in order[..i] {
        assert order[..i][k] == order[k];
      }
      var l :| 0 <= l < |order| && order[l] == g[order[i]];
    }
  }

  lemma SuccessorOnCycle<T(!new)>(c: seq<T>, g: map<T, T>, x: T)
    requires IsCycle(c, g) && x in c
    ensures g[x] in c && g[x] in g
  {
    var i :| 0 <= i < |c| && c[i] == x;
    assert i + 1 < |c| ==> g[c[i]] == c[i + 1];
  }

  /**
   The node that the first-run member of a cycle points at is the one the cycle search names:
   it is the successor of the listed cycle's first node.
   */
  lemma FirstRunNamesParked<T(!new)>(order: seq<T>, g: map<T, T>, cycles: seq<seq<T>>, i: nat)
    requires forall k :: k in g <==> k in order
    requires DependencyOrdered(order, g) && ListsEachCycleOnce(cycles, g)
    requires forall a :: 0 <= a < |cycles| ==> Entered(order, g, cycles[a])
    requires i < |order| && ClosesCycle(order, g, i)
    ensures exists a :: 0 <= a < |cycles| && cycles[a][0] == order[i]
  {
    assert OnCycle(order[i], g);
    var a :| 0 <= a < |cycles| && order[i] in cycles[a];
    EntryIsFirstRun(order, g, cycles[a], i);
  }

  lemma EntryIsFirstRun<T(!new)>(order: seq<T>, g: map<T, T>, cycle: seq<T>, i: nat)
    requires forall k :: k in g <==> k in order
    requires DependencyOrdered(order, g)
    requires IsCycle(cycle, g) && Entered(order, g, cycle)
    requires i < |order| && order[i] in cycle && ClosesCycle(order, g, i)
    ensures cycle[0] == order[i]
  {
    var c :| IsCycle(c, g) && order[i] in c && Disjoint(c, order[..i]);
    MeetingCyclesAgree(c, cycle, g, order[i], cycle[0]);
    var e: nat, w :| EnteredBy(order, g, cycle, e, w);
    EntryIsNotEarlier(order, g, cycle, i, c, e, w);
  }

  lemma EntryIsNotEarlier<T(!new)>(
    order: seq<T>, g: map<T, T>, cycle: seq<T>, i: nat, c: seq<T>, e: nat, w: seq<T>)
    requires (forall k :: k in g <==> k in order) && DependencyOrdered(order, g)
    requires i < |order| && order[i] in cycle
    requires IsCycle(c, g) && Disjoint(c, order[..i]) && cycle != [] && cycle[0] in c
    requires EnteredBy(order, g, cycle, e, w)
    ensures cycle[0] == order[i]
  {
    if e < i {
      EarlierKeysMissCycle(order, g, c, i, e, w, |w| - 1);
    }
  }

  lemma CyclesApart<T(!new)>(d: seq<T>, c: seq<T>, g: map<T, T>, x: T)
    requires IsCycle(d, g) && IsCycle(c, g) && x in d && x !in c
    ensures Disjoint(d, c)
  {
    forall z | z in d ensures z !in c {
      if z in c {
        MeetingCyclesAgree(c, d, g, z, x);
        assert false;
      }
    }
  }

  /** No walk from an earlier node reaches a cycle all of whose nodes run at i or later. */
  lemma {:induction false} EarlierKeysMissCycle<T(!new)>(
    order: seq<T>, g: map<T, T>, c: seq<T>, i: nat, e: nat, w: seq<T>, t: nat)
    requires DependencyOrdered(order, g) && forall k :: k in g <==> k in order
    requires i < |order| && e < i && IsCycle(c, g) && Disjoint(c, order[..i])
    requires IsWalk(w, g) && t < |w| && w[0] == order[e]
    ensures w[t] !in c
    ensures w[t] in order[..i] || exists d :: IsCycle(d, g) && w[t] in d && Disjoint(d, c)
    decreases t
  {
    if t == 0 {
      assert order[..i][e] == order[e];
    } else {
      EarlierKeysMissCycle(order, g, c, i, e, w, t - 1);
      var x, y := w[t - 1], w[t];
      assert g[x] == y;
      if d :| IsCycle(d, g) && x in d && Disjoint(d, c) {
        CycleIsClosed(d, g);
        assert y in d;
      } else {
        EarlierSuccessorMissesCycle(order, g, c, i, x);
      }
    }
  }

  /** What an earlier node points at runs earlier too, or is on another cycle. */
  lemma EarlierSuccessorMissesCycle<T(!new)>(order: seq<T>, g: map<T, T>, c: seq<T>, i: nat, x: T)
    requires DependencyOrdered(order, g) && i < |order| && IsCycle(c, g) && Disjoint(c, order[..i])
    requires x in order[..i] && x in g && g[x] in order
    ensures g[x] !in c && (g[x] in order[..i] || exists d :: IsCycle(d, g) && g[x] in d && Disjoint(d, c))
  {
    var j :| 0 <= j < i && order[..i][j] == x;
    assert order[j] == x && order[..j] == order[..i][..j];
    if g[x] != x && g[x] !in order[..j] {
      var d :| IsCycle(d, g) && x in d && Disjoint(d, order[..j]);
      CyclesApart(d, c, g, x);
      SuccessorOnCycle(d, g, x);
    }
  }
}
