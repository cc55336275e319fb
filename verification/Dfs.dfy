/** Depth-first searches: reachable set, cycle test, reverse postorder. */
module Dfs {
  import opened Sets
  import opened Walks

  ghost predicate OnCycle(adj: Adjacency, v: int) {
    exists steps :: steps != [] && Walk(adj, "", v, steps) && End(v, steps) == v
  }

  /** Some directed cycle can be reached from one of the roots. */
  ghost predicate ReachesCycle(adj: Adjacency, roots: set<int>) {
    exists r, v :: r in roots && Reachable(adj, "", r, v) && OnCycle(adj, v)
  }

  ghost predicate ClosedUnder(adj: Adjacency, U: set<int>) {
    forall u, e :: u in U && e in Neighbors(adj, u) ==> e.to in U
  }

  lemma WiderClosed(adj: Adjacency, nodes: set<int>)
    ensures ClosedUnder(adj, nodes + Universe(adj, 0))
  {
  }

  lemma StaysWithin(adj: Adjacency, U: set<int>, node: int, k: nat)
    requires ClosedUnder(adj, U) && node in U && k < |Neighbors(adj, node)|
    ensures Neighbors(adj, node)[k].to in U
  {
    assert Neighbors(adj, node)[k] in Neighbors(adj, node);
  }

  lemma UniverseClosed(adj: Adjacency, src: int)
    ensures ClosedUnder(adj, Universe(adj, src))
  {
  }

  /** Listed and waiting nodes are reachable, and nothing reached from a listed one is forgotten. */
  ghost predicate Spanning(adj: Adjacency, source: int, component: seq<int>, stack: seq<int>) {
    && (forall i, j :: 0 <= i < j < |component| ==> component[i] != component[j])
    && (forall v :: v in component || v in stack ==> Reachable(adj, "", source, v) && v in Universe(adj, source))
    && (source in component || source in stack)
    && (forall u, e :: u in component && e in Neighbors(adj, u) ==> e.to in component || e.to in stack)
  }

  /** The inner loop: pushes the targets that have not been visited. */
  method PushTargets(es: seq<Edge>, visited: map<int, bool>, stack0: seq<int>) returns (stack: seq<int>)
    ensures stack0 <= stack
    ensures forall v :: v in stack ==> v in stack0 || exists e :: e in es && e.to == v
    ensures forall e :: e in es ==> e.to in visited || e.to in stack
  {
    stack := stack0;
    for k := 0 to |es|
      invariant stack0 <= stack
      invariant forall v :: v in stack ==> v in stack0 || exists e :: e in es && e.to == v
      invariant forall j :: 0 <= j < k ==> es[j].to in visited || es[j].to in stack
    {
      if es[k].to !in visited {
        stack := stack + [es[k].to];
      }
    }
  }

  lemma DropsDuplicate(adj: Adjacency, source: int, component: seq<int>, stack: seq<int>)
    requires stack != [] && Last(stack) in component && Spanning(adj, source, component, stack)
    ensures Spanning(adj, source, component, Init(stack))
  {
    var rest := Init(stack);
    assert stack == rest + [Last(stack)];
    forall u, e | u in component && e in Neighbors(adj, u)
      ensures e.to in component || e.to in rest
    {
      assert e.to in component || e.to in stack;
    }
  }

  lemma Visits(adj: Adjacency, source: int, component: seq<int>, stack: seq<int>, stack': seq<int>)
    requires stack != [] && Last(stack) !in component && Spanning(adj, source, component, stack)
    requires Init(stack) <= stack'
    requires forall v :: v in stack' ==> v in Init(stack) || exists e :: e in Neighbors(adj, Last(stack)) && e.to == v
    requires forall e :: e in Neighbors(adj, Last(stack)) ==> e.to in component + [Last(stack)] || e.to in stack'
    ensures Spanning(adj, source, component + [Last(stack)], stack')
  {
    hide Reachable, Universe;
    VisitsReachable(adj, source, stack, stack');
    VisitsEdges(adj, component, stack, stack');
    assert stack == Init(stack) + [Last(stack)];
  }

  lemma VisitsEdges(adj: Adjacency, component: seq<int>, stack: seq<int>, stack': seq<int>)
    requires stack != [] && Init(stack) <= stack'
    requires forall u, e :: u in component && e in Neighbors(adj, u) ==> e.to in component || e.to in stack
    requires forall e :: e in Neighbors(adj, Last(stack)) ==> e.to in component + [Last(stack)] || e.to in stack'
    ensures forall u, e :: u in component + [Last(stack)] && e in Neighbors(adj, u) ==>
              e.to in component + [Last(stack)] || e.to in stack'
  {
    var node := Last(stack);
    assert stack == Init(stack) + [node];
    forall u, e | u in component + [node] && e in Neighbors(adj, u)
      ensures e.to in component + [node] || e.to in stack'
    {
      if u != node {
        assert e.to in component || e.to in stack;
      }
    }
  }

  lemma VisitsReachable(adj: Adjacency, source: int, stack: seq<int>, stack': seq<int>)
    requires stack != [] && forall v :: v in stack ==> Reachable(adj, "", source, v) && v in Universe(adj, source)
    requires forall v :: v in stack' ==> v in Init(stack) || exists e :: e in Neighbors(adj, Last(stack)) && e.to == v
    ensures forall v :: v in stack' ==> Reachable(adj, "", source, v) && v in Universe(adj, source)
  {
    forall v | v in stack'
      ensures Reachable(adj, "", source, v) && v in Universe(adj, source)
    {
      if v !in Init(stack) {
        assert Last(stack) in stack;
        var e :| e in Neighbors(adj, Last(stack)) && e.to == v;
        ReachableExtend(adj, "", source, Last(stack), e);
        UniverseClosed(adj, source);
      }
    }
  }

  lemma SpansAll(adj: Adjacency, source: int, component: seq<int>, v: int)
    requires Spanning(adj, source, component, []) && Reachable(adj, "", source, v)
    ensures v in component
  {
    var steps :| Walk(adj, "", source, steps) && End(source, steps) == v;
    ClosedHoldsEnd(adj, "", source, steps, set u | u in component);
  }

  /** `dfs_component`: a node may wait on the stack several times; it is listed once. */
  method DfsComponent(adj: Adjacency, source: int) returns (component: seq<int>)
    ensures forall v :: v in component <==> Reachable(adj, "", source, v)
    ensures forall i, j :: 0 <= i < j < |component| ==> component[i] != component[j]
  {
    component := [];
    var visited: map<int, bool> := map[];
    var stack := [source];
    ghost var U := Universe(adj, source);
    ReachableSelf(adj, "", source);
    while stack != []
      invariant forall v :: v in visited <==> v in component
      invariant Spanning(adj, source, component, stack)
      decreases U - visited.Keys, |stack|
    {
      var node := Last(stack);
      if node in visited {
        DropsDuplicate(adj, source, component, stack);
        stack := Init(stack);
      } else {
        assert node in stack && node in U - visited.Keys;
        visited := visited[node := true];
        ghost var before := stack;
        stack := PushTargets(Neighbors(adj, node), visited, Init(stack));
        Visits(adj, source, component, before, stack);
        component := component + [node];
      }
    }
    forall v | Reachable(adj, "", source, v)
      ensures v in component
    {
      SpansAll(adj, source, component, v);
    }
  }

  /** Every edge out of a listed node leads to one listed earlier, unless it closes a cycle. */
  ghost predicate BackwardAt(adj: Adjacency, order: seq<int>, i: nat, loops: bool)
    requires i < |order|
  {
    forall e :: e in Neighbors(adj, order[i]) ==>
      e.to in order[..i] || (loops && Reachable(adj, "", e.to, order[i]))
  }

  ghost predicate Backward(adj: Adjacency, order: seq<int>, loops: bool) {
    && (forall i, j :: 0 <= i < j < |order| ==> order[i] != order[j])
    && (forall i {:trigger BackwardAt(adj, order, i, loops)} :: 0 <= i < |order| ==> BackwardAt(adj, order, i, loops))
  }

  lemma BackwardAppend(adj: Adjacency, order: seq<int>, v: int, loops: bool)
    requires Backward(adj, order, loops) && v !in order
    requires forall e :: e in Neighbors(adj, v) ==> e.to in order || (loops && Reachable(adj, "", e.to, v))
    ensures Backward(adj, order + [v], loops)
  {
    forall i | 0 <= i < |order + [v]|
      ensures BackwardAt(adj, order + [v], i, loops)
    {
      if i < |order| {
        assert BackwardAt(adj, order, i, loops);
        assert (order + [v])[..i] == order[..i];
      } else {
        assert (order + [v])[..i] == order;
      }
    }
  }

  /** Along a walk through a list whose edges all go back, positions fall. */
  lemma {:induction false} WalkGoesBack(adj: Adjacency, order: seq<int>, i: nat, steps: seq<Edge>) returns (j: nat)
    requires Backward(adj, order, false) && i < |order| && Walk(adj, "", order[i], steps)
    ensures j <= i && order[j] == End(order[i], steps) && (steps != [] ==> j < i)
  {
    if steps == [] {
      j := i;
    } else {
      var k := WalkGoesBack(adj, order, i, Init(steps));
      assert BackwardAt(adj, order, k, false);
      j :| 0 <= j < k && order[j] == Last(steps).to;
    }
  }

  /** Nothing reachable from a list whose edges all go back lies on a cycle. */
  lemma BackwardHasNoCycle(adj: Adjacency, order: seq<int>, roots: set<int>)
    requires Backward(adj, order, false) && forall r :: r in roots ==> r in order
    ensures !ReachesCycle(adj, roots)
  {
    forall r, v | r in roots && Reachable(adj, "", r, v) && OnCycle(adj, v)
      ensures false
    {
      var i :| 0 <= i < |order| && order[i] == r;
      var way :| Walk(adj, "", r, way) && End(r, way) == v;
      var j := WalkGoesBack(adj, order, i, way);
      var loop :| loop != [] && Walk(adj, "", v, loop) && End(v, loop) == v;
      var k := WalkGoesBack(adj, order, j, loop);
    }
  }

  /** An edge from `u` back to a node that reaches `u` closes a cycle. */
  lemma ClosesCycle(adj: Adjacency, u: int, e: Edge)
    requires e in Neighbors(adj, u) && Reachable(adj, "", e.to, u)
    ensures OnCycle(adj, u) && ReachesCycle(adj, {u})
  {
    ReachableSelf(adj, "", u);
    var back :| Walk(adj, "", e.to, back) && End(e.to, back) == u;
    assert Walk(adj, "", u, []);
    WalkExtend(adj, "", u, [], e);
    assert [] + [e] == [e];
    WalkConcat(adj, "", u, [e], back);
  }

  /** Colours: 0 white, 1 gray, 2 black. A node without an entry is white. */
  function ColorOf(color: map<int, int>, v: int): int {
    if v in color then color[v] else 0
  }

  /** The gray nodes are `gray`; the black ones are listed as they turned black, edges going back. */
  ghost predicate Coloring(adj: Adjacency, color: map<int, int>, finished: seq<int>, gray: set<int>) {
    && Backward(adj, finished, false)
    && (forall v :: ColorOf(color, v) == 1 <==> v in gray)
    && (forall v :: ColorOf(color, v) == 2 <==> v in finished)
    && (forall v :: ColorOf(color, v) in {0, 1, 2})
  }

  ghost function Painted(color: map<int, int>): set<int> {
    set v | v in color && color[v] != 0
  }

  lemma PaintGray(adj: Adjacency, color: map<int, int>, finished: seq<int>, gray: set<int>, node: int)
    requires Coloring(adj, color, finished, gray) && ColorOf(color, node) == 0
    ensures Coloring(adj, color[node := 1], finished, gray + {node})
    ensures Painted(color[node := 1]) == Painted(color) + {node} && node !in Painted(color)
  {
    var color' := color[node := 1];
    assert forall v :: v != node ==> ColorOf(color', v) == ColorOf(color, v);
  }

  lemma PaintBlack(adj: Adjacency, color: map<int, int>, finished: seq<int>, gray: set<int>, node: int)
    requires Coloring(adj, color, finished, gray + {node}) && node !in gray
    requires forall e :: e in Neighbors(adj, node) ==> e.to in finished
    ensures Coloring(adj, color[node := 2], finished + [node], gray)
    ensures Painted(color) <= Painted(color[node := 2])
  {
    var color' := color[node := 2];
    assert ColorOf(color, node) == 1;
    BackwardAppend(adj, finished, node, false);
    assert forall v :: v != node ==> ColorOf(color', v) == ColorOf(color, v);
  }

  /** The recursive `visit` of the cycle test, with the colours it paints. */
  class CycleSearch {
    var color: map<int, int>
    ghost var finished: seq<int>

    constructor ()
      ensures color == map[] && finished == []
    {
      color, finished := map[], [];
    }

    method Visit(adj: Adjacency, node: int, ghost gray: set<int>, ghost U: set<int>) returns (found: bool)
      requires Coloring(adj, color, finished, gray) && ColorOf(color, node) == 0 && node in U && ClosedUnder(adj, U)
      requires forall u :: u in gray ==> Reachable(adj, "", u, node)
      modifies this
      ensures found ==> ReachesCycle(adj, {node})
      ensures !found ==> Coloring(adj, color, finished, gray) && node in finished && old(finished) <= finished
      ensures old(Painted(color)) <= Painted(color)
      decreases U - Painted(color)
    {
      hide Backward, Reachable, ReachesCycle, OnCycle, ClosedUnder;
      PaintGray(adj, color, finished, gray, node);
      color := color[node := 1];
      ReachableSelf(adj, "", node);
      var es := Neighbors(adj, node);
      for k := 0 to |es|
        invariant Coloring(adj, color, finished, gray + {node}) && old(finished) <= finished
        invariant old(Painted(color)) + {node} <= Painted(color)
        invariant forall j :: 0 <= j < k ==> es[j].to in finished
      {
        var e := es[k];
        if ColorOf(color, e.to) == 1 {
          ClosesCycle(adj, node, e);
          return true;
        }
        if ColorOf(color, e.to) == 0 {
          StaysWithin(adj, U, node, k);
          ghost var black := finished;
          GrayReaches(adj, gray, node, e);
          var below := Visit(adj, e.to, gray + {node}, U);
          if below {
            CycleFurtherOn(adj, node, e);
            return true;
          }
          assert forall j :: 0 <= j < k ==> es[j].to in black;
        }
      }
      PaintBlack(adj, color, finished, gray, node);
      color := color[node := 2];
      finished := finished + [node];
      return false;
    }
  }

  lemma GrayReaches(adj: Adjacency, gray: set<int>, node: int, e: Edge)
    requires e in Neighbors(adj, node) && forall u :: u in gray ==> Reachable(adj, "", u, node)
    ensures forall u :: u in gray + {node} ==> Reachable(adj, "", u, e.to)
  {
    ReachableSelf(adj, "", node);
    forall u | u in gray + {node}
      ensures Reachable(adj, "", u, e.to)
    {
      ReachableExtend(adj, "", u, node, e);
    }
  }

  lemma CycleFurtherOn(adj: Adjacency, u: int, e: Edge)
    requires e in Neighbors(adj, u) && ReachesCycle(adj, {e.to})
    ensures ReachesCycle(adj, {u})
  {
    var r, v :| r in {e.to} && Reachable(adj, "", r, v) && OnCycle(adj, v);
    ReachableSelf(adj, "", u);
    ReachableExtend(adj, "", u, u, e);
    ReachableTransitive(adj, "", u, e.to, v);
  }

  /** `dfs_has_cycle`: the nodes of the graph are tried in no particular order. */
  method DfsHasCycle(adj: Adjacency, nodes: set<int>) returns (found: bool)
    ensures found <==> ReachesCycle(adj, nodes)
  {
    var search := new CycleSearch();
    ghost var U := nodes + Universe(adj, 0);
    WiderClosed(adj, nodes);
    var rest := nodes;
    while rest != {}
      invariant rest <= nodes && Coloring(adj, search.color, search.finished, {})
      invariant forall r :: r in nodes - rest ==> r in search.finished
    {
      ghost var some := Pick(rest);
      var id :| id in rest;
      rest := rest - {id};
      if ColorOf(search.color, id) == 0 {
        ghost var black := search.finished;
        var below := search.Visit(adj, id, {}, U);
        if below {
          return true;
        }
        assert forall r :: r in black ==> r in search.finished;
      }
    }
    BackwardHasNoCycle(adj, search.finished, nodes);
    return false;
  }

  /** Gray nodes apart, what has been visited is what has been listed. */
  ghost predicate Postorder(adj: Adjacency, visited: map<int, bool>, result: seq<int>, gray: set<int>) {
    && Backward(adj, result, true)
    && (forall v :: v in visited <==> v in result || v in gray)
    && (forall v :: v in gray ==> v !in result)
    && (forall u, e :: u in result && e in Neighbors(adj, u) ==> e.to in visited)
  }

  lemma Enters(adj: Adjacency, visited: map<int, bool>, result: seq<int>, gray: set<int>, node: int)
    requires Postorder(adj, visited, result, gray) && node !in visited
    ensures Postorder(adj, visited[node := true], result, gray + {node}) && node !in gray
  {
  }

  lemma Lists(adj: Adjacency, visited: map<int, bool>, result: seq<int>, gray: set<int>, node: int)
    requires Postorder(adj, visited, result, gray + {node}) && node !in gray
    requires forall u :: u in gray + {node} ==> Reachable(adj, "", u, node)
    requires forall e :: e in Neighbors(adj, node) ==> e.to in visited
    ensures Postorder(adj, visited, result + [node], gray)
  {
    BackwardAppend(adj, result, node, true);
  }

  /** All that was listed since is reachable from `node`. */
  ghost predicate Spanned(adj: Adjacency, before: seq<int>, after: seq<int>, node: int) {
    forall v :: v in after ==> v in before || Reachable(adj, "", node, v)
  }

  lemma SpansMore(adj: Adjacency, before: seq<int>, middle: seq<int>, after: seq<int>, node: int, e: Edge)
    requires Spanned(adj, before, middle, node) && Spanned(adj, middle, after, e.to) && e in Neighbors(adj, node)
    ensures Spanned(adj, before, after, node)
  {
    ReachableSelf(adj, "", node);
    ReachableExtend(adj, "", node, node, e);
    forall v | v in after
      ensures v in before || Reachable(adj, "", node, v)
    {
      if v !in middle {
        ReachableTransitive(adj, "", node, e.to, v);
      }
    }
  }

  /** The recursive `visit` of the reverse postorder. */
  class TopoSearch {
    var visited: map<int, bool>
    var result: seq<int>

    constructor ()
      ensures visited == map[] && result == []
    {
      visited, result := map[], [];
    }

    method Visit(adj: Adjacency, node: int, ghost gray: set<int>, ghost U: set<int>)
      requires Postorder(adj, visited, result, gray) && node !in visited && node in U && ClosedUnder(adj, U)
      requires forall u :: u in gray ==> Reachable(adj, "", u, node)
      modifies this
      ensures Postorder(adj, visited, result, gray) && node in result && node in visited && old(result) <= result
      ensures Spanned(adj, old(result), result, node)
      ensures old(visited.Keys) <= visited.Keys
      decreases U - visited.Keys
    {
      hide Postorder, Reachable, ClosedUnder;
      Enters(adj, visited, result, gray, node);
      visited := visited[node := true];
      ReachableSelf(adj, "", node);
      var es := Neighbors(adj, node);
      for k := 0 to |es|
        invariant Postorder(adj, visited, result, gray + {node}) && old(result) <= result
        invariant Spanned(adj, old(result), result, node)
        invariant old(visited.Keys) + {node} <= visited.Keys
        invariant forall j :: 0 <= j < k ==> es[j].to in visited
      {
        var e := es[k];
        if e.to !in visited {
          ghost var listed := result;
          StaysWithin(adj, U, node, k);
          GrayReaches(adj, gray, node, e);
          Visit(adj, e.to, gray + {node}, U);
          SpansMore(adj, old(result), listed, result, node, e);
        }
      }
      GrayReaches'(adj, gray, node);
      Lists(adj, visited, result, gray, node);
      result := result + [node];
    }
  }

  lemma GrayReaches'(adj: Adjacency, gray: set<int>, node: int)
    requires forall u :: u in gray ==> Reachable(adj, "", u, node)
    ensures forall u :: u in gray + {node} ==> Reachable(adj, "", u, node)
  {
    ReachableSelf(adj, "", node);
  }

  /** Every edge out of the node at `i` leads to one listed later, unless (with `loops`) it closes a cycle. */
  ghost predicate ForwardAt(adj: Adjacency, order: seq<int>, i: nat, loops: bool)
    requires i < |order|
  {
    forall e :: e in Neighbors(adj, order[i]) ==>
      e.to in order[i + 1..] || (loops && Reachable(adj, "", e.to, order[i]))
  }

  ghost predicate Forward(adj: Adjacency, order: seq<int>, loops: bool) {
    && (forall i, j :: 0 <= i < j < |order| ==> order[i] != order[j])
    && (forall i {:trigger ForwardAt(adj, order, i, loops)} :: 0 <= i < |order| ==> ForwardAt(adj, order, i, loops))
  }

  /** A topological order of the nodes it lists: each once, each edge's source before its target. */
  ghost predicate Topological(adj: Adjacency, order: seq<int>) {
    Forward(adj, order, false)
  }

  /** Whatever edge leaves a listed node, its target is listed later. */
  lemma TopologicalLeadsOn(adj: Adjacency, order: seq<int>, i: nat, e: Edge) returns (j: nat)
    requires Topological(adj, order) && i < |order| && order[i] in adj && e in adj[order[i]]
    ensures i < j < |order| && order[j] == e.to
  {
    assert ForwardAt(adj, order, i, false);
    var k :| 0 <= k < |order[i + 1..]| && order[i + 1..][k] == e.to;
    j := i + 1 + k;
  }

  lemma ReverseMember<T>(s: seq<T>, x: T)
    ensures x in Reverse(s) <==> x in s
  {
    if x in s {
      var i :| 0 <= i < |s| && s[i] == x;
      ReverseAt(s, |s| - 1 - i);
    }
    if x in Reverse(s) {
      var i :| 0 <= i < |s| && Reverse(s)[i] == x;
      ReverseAt(s, i);
    }
  }

  lemma ReverseBackward(adj: Adjacency, order: seq<int>, loops: bool)
    requires Backward(adj, order, loops)
    ensures Forward(adj, Reverse(order), loops)
  {
    var r := Reverse(order);
    forall i, j | 0 <= i < j < |r|
      ensures r[i] != r[j]
    {
      ReverseAt(order, i);
      ReverseAt(order, j);
    }
    forall i | 0 <= i < |r|
      ensures ForwardAt(adj, r, i, loops)
    {
      ReverseAt(order, i);
      var p := |r| - 1 - i;
      assert BackwardAt(adj, order, p, loops);
      forall e | e in Neighbors(adj, r[i]) && e.to in order[..p]
        ensures e.to in r[i + 1..]
      {
        var j :| 0 <= j < p && order[j] == e.to;
        ReverseAt(order, |r| - 1 - j);
        assert r[i + 1..][|r| - 1 - j - (i + 1)] == e.to;
      }
    }
  }

  /** Along a walk through a topological order, positions rise. */
  lemma {:induction false} WalkGoesForward(adj: Adjacency, order: seq<int>, i: nat, steps: seq<Edge>) returns (j: nat)
    requires Topological(adj, order) && i < |order| && Walk(adj, "", order[i], steps)
    ensures i <= j < |order| && order[j] == End(order[i], steps) && (steps != [] ==> i < j)
  {
    if steps == [] {
      j := i;
    } else {
      var k := WalkGoesForward(adj, order, i, Init(steps));
      assert ForwardAt(adj, order, k, false);
      var d :| 0 <= d < |order[k + 1..]| && order[k + 1..][d] == Last(steps).to;
      j := k + 1 + d;
    }
  }

  /** A postorder is topological exactly when no cycle can be reached from the roots. */
  lemma TopologicalIffAcyclic(adj: Adjacency, order: seq<int>, roots: seq<int>)
    requires Forward(adj, order, true)
    requires forall v :: v in order <==> ReachedFrom(adj, roots, v)
    ensures Topological(adj, order) <==> !ReachesCycle(adj, set r | r in roots)
  {
    if Topological(adj, order) {
      forall r, v | r in roots && Reachable(adj, "", r, v) && OnCycle(adj, v)
        ensures false
      {
        assert ReachedFrom(adj, roots, v);
        var i :| 0 <= i < |order| && order[i] == v;
        var loop :| loop != [] && Walk(adj, "", v, loop) && End(v, loop) == v;
        var j := WalkGoesForward(adj, order, i, loop);
      }
    }
    if !ReachesCycle(adj, set r | r in roots) {
      forall i | 0 <= i < |order|
        ensures ForwardAt(adj, order, i, false)
      {
        assert ForwardAt(adj, order, i, true);
        assert ReachedFrom(adj, roots, order[i]);
        forall e | e in Neighbors(adj, order[i]) && Reachable(adj, "", e.to, order[i])
          ensures false
        {
          ClosesCycle(adj, order[i], e);
        }
      }
    }
  }

  lemma NothingListed(adj: Adjacency)
    ensures Postorder(adj, map[], [], {})
  {
  }

  lemma SpannedIsReached(adj: Adjacency, nodeIds: seq<int>, k: nat, before: seq<int>, after: seq<int>)
    requires k < |nodeIds| && Spanned(adj, before, after, nodeIds[k])
    requires forall v :: v in before ==> ReachedFrom(adj, nodeIds, v)
    ensures forall v :: v in after ==> ReachedFrom(adj, nodeIds, v)
  {
    hide Reachable;
    assert nodeIds[k] in nodeIds;
  }

  /** `dfs_topo_sort`. Its header promises an empty result when there is a cycle; the code returns
      every reachable node all the same, and the order is topological exactly when there is none. */
  method DfsTopoSort(adj: Adjacency, nodeIds: seq<int>) returns (order: seq<int>)
    ensures forall v :: v in order <==> ReachedFrom(adj, nodeIds, v)
    ensures forall i, j :: 0 <= i < j < |order| ==> order[i] != order[j]
    ensures Topological(adj, order) <==> !ReachesCycle(adj, set r | r in nodeIds)
    ensures order == [] <==> nodeIds == []
  {
    hide Reachable, ReachedFrom, Universe, ClosedUnder, Backward, Spanned, ReachesCycle, Topological;
    var search := new TopoSearch();
    ghost var U := (set r | r in nodeIds) + Universe(adj, 0);
    WiderClosed(adj, set r | r in nodeIds);
    NothingListed(adj);
    for k := 0 to |nodeIds|
      invariant Postorder(adj, search.visited, search.result, {})
      invariant forall r :: r in nodeIds[..k] ==> r in search.result
      invariant forall v :: v in search.result ==> ReachedFrom(adj, nodeIds, v)
    {
      var id := nodeIds[k];
      ghost var before := search.result;
      if id !in search.visited {
        search.Visit(adj, id, {}, U);
        SpannedIsReached(adj, nodeIds, k, before, search.result);
      }
      assert nodeIds[..k + 1] == nodeIds[..k] + [id];
      assert forall r :: r in before ==> r in search.result;
    }
    assert nodeIds[..|nodeIds|] == nodeIds;
    PostorderReversed(adj, search.visited, search.result, nodeIds);
    return Reverse(search.result);
  }

  /** A node with an edge to itself: the order is not empty, and not topological. */
  method LoopIsListed() returns (order: seq<int>)
    ensures var adj := map[0 := [Edge(0, "r", 1.0)]];
      ReachesCycle(adj, {0}) && order != [] && !Topological(adj, order)
  {
    var adj := map[0 := [Edge(0, "r", 1.0)]];
    order := DfsTopoSort(adj, [0]);
    LoopIsCycle(adj);
    assert (set r | r in [0]) == {0};
  }

  lemma LoopIsCycle(adj: Adjacency)
    requires 0 in adj && adj[0] == [Edge(0, "r", 1.0)]
    ensures ReachesCycle(adj, {0})
  {
    assert Edge(0, "r", 1.0) in Neighbors(adj, 0);
    ReachableSelf(adj, "", 0);
    ClosesCycle(adj, 0, Edge(0, "r", 1.0));
  }

  lemma EmptyIffNoRoots(adj: Adjacency, result: seq<int>, nodeIds: seq<int>)
    requires forall r :: r in nodeIds ==> r in result
    requires forall v :: v in result ==> ReachedFrom(adj, nodeIds, v)
    ensures result == [] <==> nodeIds == []
  {
    if result != [] {
      assert ReachedFrom(adj, nodeIds, result[0]);
    }
    if nodeIds != [] {
      var r := nodeIds[0];
      assert r in nodeIds;
      assert r in result;
    }
  }

  lemma PostorderReached(adj: Adjacency, visited: map<int, bool>, result: seq<int>, nodeIds: seq<int>)
    requires Postorder(adj, visited, result, {})
    requires forall r :: r in nodeIds ==> r in result
    requires forall v :: v in result ==> ReachedFrom(adj, nodeIds, v)
    ensures forall v :: v in Reverse(result) <==> ReachedFrom(adj, nodeIds, v)
  {
    forall v
      ensures v in Reverse(result) <==> ReachedFrom(adj, nodeIds, v)
    {
      ReverseMember(result, v);
      if ReachedFrom(adj, nodeIds, v) {
        PostorderHoldsAll(adj, visited, result, nodeIds, v);
      }
    }
  }

  lemma PostorderReversed(adj: Adjacency, visited: map<int, bool>, result: seq<int>, nodeIds: seq<int>)
    requires Postorder(adj, visited, result, {})
    requires forall r :: r in nodeIds ==> r in result
    requires forall v :: v in result ==> ReachedFrom(adj, nodeIds, v)
    ensures var order := Reverse(result);
            && (forall v :: v in order <==> ReachedFrom(adj, nodeIds, v))
            && Forward(adj, order, true)
            && (Topological(adj, order) <==> !ReachesCycle(adj, set r | r in nodeIds))
            && (order == [] <==> nodeIds == [])
  {
    var order := Reverse(result);
    ReverseBackward(adj, result, true);
    PostorderReached(adj, visited, result, nodeIds);
    TopologicalIffAcyclic(adj, order, nodeIds);
    EmptyIffNoRoots(adj, result, nodeIds);
  }

  ghost predicate ReachedFrom(adj: Adjacency, roots: seq<int>, v: int) {
    exists r :: r in roots && Reachable(adj, "", r, v)
  }

  lemma PostorderHoldsAll(adj: Adjacency, visited: map<int, bool>, result: seq<int>, roots: seq<int>, v: int)
    requires Postorder(adj, visited, result, {}) && ReachedFrom(adj, roots, v)
    requires forall r :: r in roots ==> r in result
    ensures v in result
  {
    var r :| r in roots && Reachable(adj, "", r, v);
    var steps :| Walk(adj, "", r, steps) && End(r, steps) == v;
    ClosedHoldsEnd(adj, "", r, steps, set u | u in result);
  }
}
