/** Dijkstra over the compressed copy, and its agreement with the one over the adjacency lists. */
module CsrDijkstra {
  import opened Walks
  import Words
  import opened DynamicGraphs
  import opened Csr
  import opened CsrSearch
  import opened Dijkstra

  /** The entries of the distance table; the search starts from infinity everywhere. */
  datatype Distance = Infinite | Finite(d: real)

  ghost function QueryOf(c: CsrGraph, plus: Plus, src: int): Query
    requires WellShaped(c)
  {
    Query(Compressed(c), "", plus, src)
  }

  /** The three tables say what the search has found and settled. */
  ghost predicate Mirrors(dist: seq<Distance>, parent: seq<int>, visited: seq<bool>, f: Found, t: Trace) {
    && |dist| == |parent| == |visited|
    && (forall v :: v in f.dist ==> 0 <= v < |dist| && v in f.parent && dist[v] == Finite(f.dist[v]) && parent[v] == f.parent[v])
    && (forall v :: 0 <= v < |dist| && v !in f.dist ==> dist[v] == Infinite)
    && (forall v :: 0 <= v < |dist| ==> (visited[v] <==> v in t.settled))
  }

  /** The answer names, by ids, a cheapest walk between the two indices, or there is none. */
  ghost predicate CsrAnswers(c: CsrGraph, plus: Plus, sourceId: int, targetId: int, path: WeightedPath)
    requires WellShaped(c)
  {
    var src, dst := c.ToIdx(sourceId), c.ToIdx(targetId);
    if src >= 0 && dst >= 0 && Reachable(Compressed(c), "", src, dst) then
      exists steps :: Cheapest(QueryOf(c, plus, src), dst, steps) &&
                      path == WeightedPath(IdsOf(c, NodesOf(src, steps)), [], QueryOf(c, plus, src).Cost(steps))
    else
      path == NO_PATH
  }

  /** An answer is empty if and only if an id is unknown or no walk of the copy joins the two, and then costs
      nothing; it never tells relations, and starts and ends at the ids asked for. */
  lemma CsrAnswersMean(c: CsrGraph, plus: Plus, sourceId: int, targetId: int, path: WeightedPath)
    requires WellShaped(c) && CsrAnswers(c, plus, sourceId, targetId, path)
    ensures path.rels == [] && (path.nodes == [] ==> path.cost == 0.0)
    ensures path.nodes == [] <==>
              c.ToIdx(sourceId) < 0 || c.ToIdx(targetId) < 0 ||
              !Reachable(Compressed(c), "", c.ToIdx(sourceId), c.ToIdx(targetId))
    ensures path.nodes != [] ==> path.nodes[0] == sourceId && path.nodes[|path.nodes| - 1] == targetId
  {
    var src, dst := c.ToIdx(sourceId), c.ToIdx(targetId);
    if src >= 0 && dst >= 0 && Reachable(Compressed(c), "", src, dst) {
      var steps :| Cheapest(QueryOf(c, plus, src), dst, steps) &&
                   path == WeightedPath(IdsOf(c, NodesOf(src, steps)), [], QueryOf(c, plus, src).Cost(steps));
      ToldInOrder(src, steps);
      IdsAt(c, NodesOf(src, steps), 0);
      IdsAt(c, NodesOf(src, steps), |steps|);
    }
  }

  lemma MirrorsImproved(dist: seq<Distance>, parent: seq<int>, visited: seq<bool>, f: Found, t: Trace,
                        node: int, e: Edge, nc: real)
    requires Mirrors(dist, parent, visited, f, t) && 0 <= e.to < |dist| && node in t.walks
    ensures Mirrors(dist[e.to := Finite(nc)], parent[e.to := node], visited, Improve(f, node, e, nc), Retrace(t, node, e))
  {
  }

  /** Relaxes the slice of a node just marked visited. */
  method RelaxSlice(c: CsrGraph, plus: Plus, ghost src: int, node: int, cost: real, dist: array<Distance>, parent: array<int>,
                    ghost visited: seq<bool>, pq0: multiset<Entry>, ghost f0: Found, ghost t0: Trace)
    returns (pq: multiset<Entry>, ghost f: Found, ghost t: Trace)
    requires WellShaped(c) && QueryOf(c, plus, src).Lawful() && 0 <= node < c.nodeCount == dist.Length
    requires Expanding(QueryOf(c, plus, src), f0, t0, node, cost) && f0.pq == pq0
    requires Mirrors(dist[..], parent[..], visited, f0, t0)
    modifies dist, parent
    ensures Dijkstra.Searching(QueryOf(c, plus, src), f, t) && f.pq == pq && t.settled == t0.settled
    ensures Mirrors(dist[..], parent[..], visited, f, t)
  {
    hide Compressed, WellShaped, Mirrors, Better, Expanding, Dijkstra.Searching, AllRelaxed;
    pq, f, t := pq0, f0, t0;
    ghost var q := QueryOf(c, plus, src);
    ghost var es := Neighbors(q.adj, node);
    EdgeInSlice(c, node, 0);
    Begins(q, f, t, node, cost);
    var begin, end := c.offsets[node], c.offsets[node + 1];
    for i := begin to end
      invariant Expanding(q, f, t, node, cost) && f.pq == pq && t.settled == t0.settled
      invariant node in f.dist && AllRelaxed(q, f, node, es[..i - begin])
      invariant Mirrors(dist[..], parent[..], visited, f, t)
    {
      EdgeInSlice(c, node, i);
      ghost var e := es[i - begin];
      assert es[..i - begin + 1] == es[..i - begin] + [e];
      var nb := c.targets[i];
      var nc := plus(cost, c.weights[i]);
      TableEntry(dist[..], parent[..], visited, f, t, nb);
      if dist[nb] == Infinite || nc < dist[nb].d {
        Takes(q, f, t, node, cost, es[..i - begin], e);
        MirrorsImproved(dist[..], parent[..], visited, f, t, node, e, nc);
        ghost var d0, p0 := dist[..], parent[..];
        dist[nb], parent[nb] := Finite(nc), node;
        assert dist[..] == d0[nb := Finite(nc)] && parent[..] == p0[nb := node];
        pq := pq + multiset{(nc, nb)};
        f, t := Improve(f, node, e, nc), Retrace(t, node, e);
      } else {
        Leaves(q, f, t, node, cost, es[..i - begin], e);
      }
    }
    assert es[..|es|] == es;
    Concludes(q, f, t, node, cost);
  }

  lemma TableEntry(dist: seq<Distance>, parent: seq<int>, visited: seq<bool>, f: Found, t: Trace, v: int)
    requires Mirrors(dist, parent, visited, f, t) && 0 <= v < |dist|
    ensures |dist| == |parent| == |visited|
    ensures dist[v] == if v in f.dist then Finite(f.dist[v]) else Infinite
    ensures visited[v] <==> v in t.settled
  {
  }

  /** One step back along the parents of the table. */
  lemma StepBackCsr(c: CsrGraph, q: Query, dist: seq<Distance>, parent: seq<int>, visited: seq<bool>, f: Found, t: Trace, v: int)
    requires WellShaped(c) && q.adj == Compressed(c) && 0 <= q.src && Dijkstra.Searching(q, f, t)
    requires Mirrors(dist, parent, visited, f, t) && |dist| == c.nodeCount && v in f.dist
    ensures v in t.walks && 0 <= v < |parent| == |c.idxToId|
    ensures parent[v] == -1 ==> IdsOf(c, NodesOf(q.src, t.walks[v])) == [c.idxToId[v]]
    ensures parent[v] != -1 ==>
              && parent[v] in f.dist && parent[v] in t.walks && |t.walks[parent[v]]| < |t.walks[v]|
              && IdsOf(c, NodesOf(q.src, t.walks[v])) == IdsOf(c, NodesOf(q.src, t.walks[parent[v]])) + [c.idxToId[v]]
  {
    CompressedHasNoSentinel(c, q.src);
    Dijkstra.StepBack(q, f, t, v);
    IdsOfAppend(c, if parent[v] == -1 then [] else NodesOf(q.src, t.walks[parent[v]]), v);
    assert [] + [v] == [v];
  }

  method ParentWalkCsr(c: CsrGraph, ghost q: Query, dst: int, ghost dist: seq<Distance>, parent: array<int>,
                       ghost visited: seq<bool>, ghost f: Found, ghost t: Trace) returns (nodes: seq<int>)
    requires WellShaped(c) && q.adj == Compressed(c) && 0 <= q.src && Dijkstra.Searching(q, f, t)
    requires Mirrors(dist, parent[..], visited, f, t) && |dist| == c.nodeCount && dst in f.dist && dst in t.walks
    ensures nodes == IdsOf(c, NodesOf(q.src, t.walks[dst]))
  {
    hide WellShaped, Compressed, Dijkstra.Searching, Mirrors, IdsOf, NodesOf, Reverse;
    nodes := [];
    var cur := dst;
    assert Reverse(nodes) == [];
    StepBackCsr(c, q, dist, parent[..], visited, f, t, dst);
    ghost var all := IdsOf(c, NodesOf(q.src, t.walks[dst]));
    ghost var left := all;
    while cur != -1
      invariant cur != -1 ==> cur in f.dist && cur in t.walks && left == IdsOf(c, NodesOf(q.src, t.walks[cur]))
      invariant cur == -1 ==> left == []
      invariant all == left + Reverse(nodes)
      decreases cur != -1, if cur == -1 then 0 else |t.walks[cur]|
    {
      StepBackCsr(c, q, dist, parent[..], visited, f, t, cur);
      var next := parent[cur];
      left := if next == -1 then [] else IdsOf(c, NodesOf(q.src, t.walks[next]));
      CollectBack(all, left, c.idxToId[cur], nodes);
      nodes := nodes + [c.idxToId[cur]];
      cur := next;
    }
    nodes := Reverse(nodes);
  }

  /** A node already marked visited can only be popped stale. */
  lemma VisitedIsStale(q: Query, f: Found, t: Trace, m: Entry)
    requires Dijkstra.Searching(q, f, t) && IsMin(f.pq, m)
    ensures m.1 in f.dist && (m.1 in t.settled <==> f.dist[m.1] < m.0)
  {
    if m.1 !in t.settled {
      assert (f.dist[m.1], m.1) in f.pq;
      assert AtMost(m, (f.dist[m.1], m.1));
    }
  }

  lemma Arrives(c: CsrGraph, plus: Plus, sourceId: int, targetId: int, f: Found, t: Trace, m: Entry)
    requires WellShaped(c) && c.ToIdx(sourceId) >= 0 && c.ToIdx(targetId) == m.1 >= 0
    requires var q := QueryOf(c, plus, c.ToIdx(sourceId));
             q.Lawful() && Dijkstra.Searching(q, f, t) && IsMin(f.pq, m) && m.1 !in t.settled
    ensures m.1 in f.dist && m.1 in t.walks && f.dist[m.1] == m.0
    ensures CsrAnswers(c, plus, sourceId, targetId,
              WeightedPath(IdsOf(c, NodesOf(c.ToIdx(sourceId), t.walks[m.1])), [], m.0))
  {
    var q := QueryOf(c, plus, c.ToIdx(sourceId));
    FirstPopCosts(q, f, t, m);
    assert q.IsWalk(t.walks[m.1]) && End(q.src, t.walks[m.1]) == m.1;
    assert Reachable(q.adj, q.filter, q.src, m.1);
  }

  /** When the queue ran dry without popping the target, its distance is still infinite. */
  lemma NeverArrives(c: CsrGraph, plus: Plus, sourceId: int, targetId: int, f: Found, t: Trace)
    requires WellShaped(c) && c.ToIdx(sourceId) >= 0 && c.ToIdx(targetId) >= 0
    requires var q := QueryOf(c, plus, c.ToIdx(sourceId));
             q.Lawful() && Dijkstra.Searching(q, f, t) && |f.pq| == 0 && c.ToIdx(targetId) !in t.settled
    ensures c.ToIdx(targetId) !in f.dist && CsrAnswers(c, plus, sourceId, targetId, NO_PATH)
  {
    DrainedIsExact(QueryOf(c, plus, c.ToIdx(sourceId)), f, t, c.ToIdx(targetId));
    assert forall x :: x !in f.pq;
  }

  lemma PopInRange(c: CsrGraph, q: Query, f: Found, t: Trace, dist: seq<Distance>, parent: seq<int>, visited: seq<bool>, m: Entry)
    requires Dijkstra.Searching(q, f, t) && IsMin(f.pq, m) && Mirrors(dist, parent, visited, f, t)
    ensures m in f.pq && m.1 in f.dist && 0 <= m.1 < |dist| == |visited| && (visited[m.1] <==> m.1 in t.settled)
    ensures m.1 in Universe(q.adj, q.src)
  {
    FoundInUniverse(q, f, t);
  }

  lemma MirrorsPop(dist: seq<Distance>, parent: seq<int>, visited: seq<bool>, f: Found, t: Trace, pq: multiset<Entry>)
    requires Mirrors(dist, parent, visited, f, t)
    ensures Mirrors(dist, parent, visited, f.(pq := pq), t)
  {
  }

  lemma MirrorsVisit(dist: seq<Distance>, parent: seq<int>, visited: seq<bool>, f: Found, t: Trace, pq: multiset<Entry>, v: int)
    requires Mirrors(dist, parent, visited, f, t) && 0 <= v < |visited|
    ensures Mirrors(dist, parent, visited[v := true], f.(pq := pq), t.(settled := t.settled + {v}))
  {
  }

  lemma MirrorsStart(src: int, dist: seq<Distance>, parent: seq<int>, visited: seq<bool>, t: Trace)
    requires |dist| == |parent| == |visited| && 0 <= src < |dist| && t.settled == {}
    requires forall v :: 0 <= v < |dist| ==> dist[v] == if v == src then Finite(0.0) else Infinite
    requires forall v :: 0 <= v < |dist| ==> parent[v] == -1 && !visited[v]
    ensures Mirrors(dist, parent, visited, Start(src), t)
  {
  }

  /** The main loop: leaves at the first entry of the target it pops. */
  method SearchCsr(c: CsrGraph, plus: Plus, ghost sourceId: int, ghost targetId: int, src: int, dst: int,
                   dist: array<Distance>, parent: array<int>, visited: array<bool>)
    returns (ghost f: Found, ghost t: Trace)
    requires WellShaped(c) && QueryOf(c, plus, src).Lawful()
    requires src == c.ToIdx(sourceId) >= 0 && dst == c.ToIdx(targetId) >= 0
    requires dist.Length == parent.Length == visited.Length == c.nodeCount
    requires Mirrors(dist[..], parent[..], visited[..], Start(src), Trace({}, map[src := []]))
    modifies dist, parent, visited
    ensures Dijkstra.Searching(QueryOf(c, plus, src), f, t) && Mirrors(dist[..], parent[..], visited[..], f, t)
    ensures dst in f.dist ==> dst in t.walks && CsrAnswers(c, plus, sourceId, targetId,
                                WeightedPath(IdsOf(c, NodesOf(src, t.walks[dst])), [], f.dist[dst]))
    ensures dst !in f.dist ==> CsrAnswers(c, plus, sourceId, targetId, NO_PATH)
  {
    hide WellShaped, Compressed, CsrAnswers, Dijkstra.Searching, Expanding, Mirrors, Start, IsMin, Universe, IdsOf, NodesOf;
    var pq := multiset{(0.0, src)};
    ghost var q := QueryOf(c, plus, src);
    f, t := Start(src), Trace({}, map[src := []]);
    StartsAt(q);
    while |pq| != 0
      invariant Dijkstra.Searching(q, f, t) && f.pq == pq && dst !in t.settled
      invariant Mirrors(dist[..], parent[..], visited[..], f, t)
      decreases Universe(q.adj, src) - t.settled, |pq|
    {
      var m, rest := PopMin(pq);
      var (cost, node) := m;
      PopInRange(c, q, f, t, dist[..], parent[..], visited[..], m);
      if node == dst {
        Arrives(c, plus, sourceId, targetId, f, t, m);
        return;
      }
      VisitedIsStale(q, f, t, m);
      if visited[node] {
        DropsStale(q, f, t, m);
        MirrorsPop(dist[..], parent[..], visited[..], f, t, rest);
        f := f.(pq := rest);
        pq := rest;
      } else {
        Settles(q, f, t, m);
        MirrorsVisit(dist[..], parent[..], visited[..], f, t, rest, node);
        ghost var v0 := visited[..];
        visited[node] := true;
        assert visited[..] == v0[node := true];
        f, t := f.(pq := rest), t.(settled := t.settled + {node});
        pq, f, t := RelaxSlice(c, plus, src, node, cost, dist, parent, visited[..], rest, f, t);
      }
    }
    NeverArrives(c, plus, sourceId, targetId, f, t);
  }

  /** `dijkstra_path_csr`. */
  method DijkstraPathCsr(c: CsrGraph, plus: Plus, sourceId: int, targetId: int) returns (path: WeightedPath)
    requires WellShaped(c) && QueryOf(c, plus, c.ToIdx(sourceId)).Lawful()
    ensures CsrAnswers(c, plus, sourceId, targetId, path)
  {
    hide Query.Lawful;
    var src, dst := c.ToIdx(sourceId), c.ToIdx(targetId);
    if src < 0 || dst < 0 {
      return NO_PATH;
    }
    WellShapedRange(c, sourceId);
    WellShapedRange(c, targetId);
    hide WellShaped, Compressed, CsrAnswers, Dijkstra.Searching, Mirrors, Start, IdsOf, NodesOf;
    var n := c.nodeCount;
    var dist := new Distance[n](_ => Infinite);
    var parent, visited := new int[n](_ => -1), new bool[n](_ => false);
    dist[src] := Finite(0.0);
    MirrorsStart(src, dist[..], parent[..], visited[..], Trace({}, map[src := []]));
    ghost var f, t := SearchCsr(c, plus, sourceId, targetId, src, dst, dist, parent, visited);
    TableEntry(dist[..], parent[..], visited[..], f, t, dst);
    if dist[dst] == Infinite {
      return NO_PATH;
    }
    var nodes := ParentWalkCsr(c, QueryOf(c, plus, src), dst, dist[..], parent, visited[..], f, t);
    return WeightedPath(nodes, [], dist[dst].d);
  }

  lemma WellShapedRange(c: CsrGraph, id: int)
    requires WellShaped(c) && c.ToIdx(id) >= 0
    ensures c.ToIdx(id) < c.nodeCount
  {
  }

  lemma StartsAt(q: Query)
    ensures Dijkstra.Searching(q, Start(q.src), Trace({}, map[q.src := []])) && Start(q.src).pq == multiset{(0.0, q.src)}
  {
    assert HasWalk(q, Start(q.src), Trace({}, map[q.src := []]), q.src);
  }

  /** Corresponding words cost the same. */
  lemma {:induction false} SameCost(c: CsrGraph, meta: map<int, NodeMeta>, adj: Adjacency, plus: Plus, src: int, w: Words.Word)
    requires WellShaped(c) && Represents(c, meta, adj) && Known(adj, meta.Keys) && src in meta
    requires Words.IsWord(adj, "", src, w) && Words.IsWord(Compressed(c), "", c.ToIdx(src), w)
    ensures QueryOf(c, plus, c.ToIdx(src)).Cost(Words.Steps(Compressed(c), "", c.ToIdx(src), w)) ==
            Query(adj, "", plus, src).Cost(Words.Steps(adj, "", src, w))
  {
    if w != [] {
      var s, before := c.ToIdx(src), Init(w);
      SameCost(c, meta, adj, plus, src, before);
      SameWords(c, meta, adj, src, before);
      SliceMatches(c, meta, adj, Words.At(adj, src, before));
      assert Init(Words.Steps(adj, "", src, w)) == Words.Steps(adj, "", src, before);
      assert Init(Words.Steps(Compressed(c), "", s, w)) == Words.Steps(Compressed(c), "", s, before);
    }
  }

  /** Every walk in one graph has a counterpart of the same cost in the other. */
  lemma WalkInCompressed(c: CsrGraph, meta: map<int, NodeMeta>, adj: Adjacency, plus: Plus, src: int, steps: seq<Edge>)
    returns (other: seq<Edge>)
    requires WellShaped(c) && Represents(c, meta, adj) && Known(adj, meta.Keys) && src in meta
    requires Walk(adj, "", src, steps)
    ensures Walk(Compressed(c), "", c.ToIdx(src), other) && End(c.ToIdx(src), other) == c.ToIdx(End(src, steps))
    ensures QueryOf(c, plus, c.ToIdx(src)).Cost(other) == Query(adj, "", plus, src).Cost(steps)
  {
    var w := Words.WalkHasWord(adj, "", src, steps);
    SameWords(c, meta, adj, src, w);
    SameCost(c, meta, adj, plus, src, w);
    other := Words.Steps(Compressed(c), "", c.ToIdx(src), w);
    Words.WordIsWalk(Compressed(c), "", c.ToIdx(src), w);
  }

  lemma WalkFromCompressed(c: CsrGraph, meta: map<int, NodeMeta>, adj: Adjacency, plus: Plus, src: int, dst: int, steps: seq<Edge>)
    returns (other: seq<Edge>)
    requires WellShaped(c) && Represents(c, meta, adj) && Known(adj, meta.Keys) && src in meta && dst in meta
    requires Walk(Compressed(c), "", c.ToIdx(src), steps) && End(c.ToIdx(src), steps) == c.ToIdx(dst)
    ensures Walk(adj, "", src, other) && End(src, other) == dst
    ensures Query(adj, "", plus, src).Cost(other) == QueryOf(c, plus, c.ToIdx(src)).Cost(steps)
    ensures IdsOf(c, NodesOf(c.ToIdx(src), steps)) == NodesOf(src, other)
  {
    assert dst in meta.Keys;
    var w := Words.WalkHasWord(Compressed(c), "", c.ToIdx(src), steps);
    SameWords(c, meta, adj, src, w);
    assert Words.At(adj, src, w) in meta.Keys;
    SameCost(c, meta, adj, plus, src, w);
    SameNodes(c, meta, adj, src, w);
    other := Words.Steps(adj, "", src, w);
    Words.WordIsWalk(adj, "", src, w);
  }

  /** Weights carry over, so what the search asks of them does too. */
  lemma LawfulCarriesOver(c: CsrGraph, meta: map<int, NodeMeta>, adj: Adjacency, plus: Plus, src: int)
    requires WellShaped(c) && Represents(c, meta, adj) && Known(adj, meta.Keys) && Query(adj, "", plus, src).Lawful()
    ensures QueryOf(c, plus, c.ToIdx(src)).Lawful()
  {
    forall i, e | e in Neighbors(Compressed(c), i)
      ensures 0.0 <= e.weight
    {
      var k :| 0 <= k < |Neighbors(Compressed(c), i)| && Neighbors(Compressed(c), i)[k] == e;
      var u := c.idxToId[i];
      SliceMatches(c, meta, adj, u);
      assert Neighbors(adj, u)[k] in Neighbors(adj, u);
    }
  }

  /** A cheapest walk in the copy names a cheapest walk of the graph, of the same cost. */
  lemma CheapestCarriesBack(c: CsrGraph, meta: map<int, NodeMeta>, adj: Adjacency, plus: Plus, src: int, dst: int,
                            found: seq<Edge>) returns (steps: seq<Edge>)
    requires WellShaped(c) && Represents(c, meta, adj) && Known(adj, meta.Keys) && src in meta && dst in meta
    requires Cheapest(QueryOf(c, plus, c.ToIdx(src)), c.ToIdx(dst), found)
    ensures Cheapest(Query(adj, "", plus, src), dst, steps)
    ensures IdsOf(c, NodesOf(c.ToIdx(src), found)) == NodesOf(src, steps)
    ensures Query(adj, "", plus, src).Cost(steps) == QueryOf(c, plus, c.ToIdx(src)).Cost(found)
  {
    hide WellShaped, Represents, Known;
    var q, r := QueryOf(c, plus, c.ToIdx(src)), Query(adj, "", plus, src);
    steps := WalkFromCompressed(c, meta, adj, plus, src, dst, found);
    forall other | r.IsWalk(other) && End(src, other) == dst
      ensures r.Cost(steps) <= r.Cost(other)
    {
      var other' := WalkInCompressed(c, meta, adj, plus, src, other);
      assert q.IsWalk(other');
    }
  }

  /** What the fast search returns is a cheapest walk of the graph itself, node by node. */
  lemma FastIsCheapest(c: CsrGraph, meta: map<int, NodeMeta>, adj: Adjacency, plus: Plus, src: int, dst: int,
                       fast: WeightedPath)
    requires WellShaped(c) && Represents(c, meta, adj) && Known(adj, meta.Keys) && src in meta && dst in meta
    requires CsrAnswers(c, plus, src, dst, fast)
    ensures var q := Query(adj, "", plus, src);
      if Reachable(adj, "", src, dst) then
        exists steps :: Cheapest(q, dst, steps) && fast.nodes == NodesOf(src, steps) && fast.cost == q.Cost(steps)
      else fast.nodes == [] && fast.rels == [] && fast.cost == 0.0
  {
    assert src in meta.Keys && dst in meta.Keys;
    assert c.ToIdx(src) >= 0 && c.ToIdx(dst) >= 0;
    hide WellShaped, Represents, Known, Reachable, Cheapest;
    SameReachable(c, meta, adj, src, dst);
    if Reachable(adj, "", src, dst) {
      var q := QueryOf(c, plus, c.ToIdx(src));
      var found :| Cheapest(q, c.ToIdx(dst), found) &&
                   fast == WeightedPath(IdsOf(c, NodesOf(c.ToIdx(src), found)), [], q.Cost(found));
      var steps := CheapestCarriesBack(c, meta, adj, plus, src, dst, found);
    }
  }

  /** The fast search and the simple one return the same cost, and both are empty or neither is. */
  lemma DijkstraAgrees(c: CsrGraph, meta: map<int, NodeMeta>, adj: Adjacency, plus: Plus, src: int, dst: int,
                       fast: WeightedPath, simple: WeightedPath)
    requires WellShaped(c) && Represents(c, meta, adj) && Known(adj, meta.Keys) && src in meta && dst in meta
    requires CsrAnswers(c, plus, src, dst, fast) && Dijkstra.Answers(Query(adj, "", plus, src), dst, simple)
    ensures fast.cost == simple.cost && (fast.nodes == [] <==> simple.nodes == [])
  {
    hide WellShaped, Represents, Known, Reachable, CsrAnswers;
    FastIsCheapest(c, meta, adj, plus, src, dst, fast);
  }
}
