/** Directed multigraphs as adjacency lists, the walks through them, and reachability. */
module Walks {

  datatype Edge = Edge(to: int, rel: string, weight: real)

  type Adjacency = map<int, seq<Edge>>

  /** A node without an entry has no outgoing edges. */
  function Neighbors(adj: Adjacency, id: int): seq<Edge> {
    if id in adj then adj[id] else []
  }

  /** An empty filter lets every edge through. */
  predicate Passes(filter: string, e: Edge) {
    filter == "" || e.rel == filter
  }

  function Init<T>(s: seq<T>): seq<T>
    requires s != []
  {
    s[..|s| - 1]
  }

  function Last<T>(s: seq<T>): T
    requires s != []
  {
    s[|s| - 1]
  }

  /** Where a sequence of edges that starts at `src` ends. */
  function End(src: int, steps: seq<Edge>): int {
    if steps == [] then src else Last(steps).to
  }

  /** `steps` is a walk from `src` along edges that pass the filter. */
  ghost predicate Walk(adj: Adjacency, filter: string, src: int, steps: seq<Edge>) {
    steps == [] ||
    (Walk(adj, filter, src, Init(steps)) &&
     Last(steps) in Neighbors(adj, End(src, Init(steps))) &&
     Passes(filter, Last(steps)))
  }

  ghost predicate Reachable(adj: Adjacency, filter: string, src: int, dst: int) {
    exists steps :: Walk(adj, filter, src, steps) && End(src, steps) == dst
  }

  /** The nodes a walk visits, its start included. */
  function NodesOf(src: int, steps: seq<Edge>): (nodes: seq<int>)
    ensures |nodes| == |steps| + 1
  {
    if steps == [] then [src] else NodesOf(src, Init(steps)) + [Last(steps).to]
  }

  function RelsOf(steps: seq<Edge>): (rels: seq<string>)
    ensures |rels| == |steps|
  {
    if steps == [] then [] else RelsOf(Init(steps)) + [Last(steps).rel]
  }

  /** The nodes and relations of a route: each node is joined to the next by an edge of that relation, and
      with a filter by no other. */
  ghost predicate Joined(adj: Adjacency, filter: string, nodes: seq<int>, rels: seq<string>) {
    |nodes| == |rels| + 1 && forall i :: 0 <= i < |rels| ==> JoinedAt(adj, filter, nodes, rels, i)
  }

  ghost predicate JoinedAt(adj: Adjacency, filter: string, nodes: seq<int>, rels: seq<string>, i: nat)
    requires i < |rels| && i + 1 < |nodes|
  {
    && (filter == "" || rels[i] == filter)
    && nodes[i] in adj && exists e :: e in adj[nodes[i]] && e.to == nodes[i + 1] && e.rel == rels[i]
  }

  /** The edge at `i` leaves the node the one before led to, and carries the relation of the filter, if any. */
  ghost predicate TakenAt(adj: Adjacency, filter: string, src: int, steps: seq<Edge>, i: nat)
    requires i < |steps|
  {
    var u := if i == 0 then src else steps[i - 1].to;
    u in adj && steps[i] in adj[u] && (filter == "" || steps[i].rel == filter)
  }

  /** The edges of a walk, one by one. */
  lemma {:induction false} WalkEdgeByEdge(adj: Adjacency, filter: string, src: int, steps: seq<Edge>)
    ensures Walk(adj, filter, src, steps) <==> forall i :: 0 <= i < |steps| ==> TakenAt(adj, filter, src, steps, i)
  {
    if steps != [] {
      var n := |steps| - 1;
      WalkEdgeByEdge(adj, filter, src, Init(steps));
      assert forall i :: 0 <= i < n ==> (TakenAt(adj, filter, src, steps, i) <==> TakenAt(adj, filter, src, Init(steps), i));
      assert TakenAt(adj, filter, src, steps, n) <==>
             Last(steps) in Neighbors(adj, End(src, Init(steps))) && Passes(filter, Last(steps));
    }
  }

  /** What is told of a walk is where it starts, and the target and relation of every edge. */
  lemma {:induction false} ToldInOrder(src: int, steps: seq<Edge>)
    ensures NodesOf(src, steps)[0] == src && NodesOf(src, steps)[|steps|] == End(src, steps)
    ensures forall i :: 0 <= i < |steps| ==> NodesOf(src, steps)[i + 1] == steps[i].to && RelsOf(steps)[i] == steps[i].rel
  {
    if steps != [] {
      ToldInOrder(src, Init(steps));
    }
  }

  lemma WalkJoins(adj: Adjacency, filter: string, src: int, steps: seq<Edge>)
    requires Walk(adj, filter, src, steps)
    ensures Joined(adj, filter, NodesOf(src, steps), RelsOf(steps))
  {
    hide Walk;
    WalkEdgeByEdge(adj, filter, src, steps);
    ToldInOrder(src, steps);
    hide NodesOf, RelsOf;
    var nodes, rels := NodesOf(src, steps), RelsOf(steps);
    forall i | 0 <= i < |rels|
      ensures JoinedAt(adj, filter, nodes, rels, i)
    {
      assert TakenAt(adj, filter, src, steps, i);
      assert nodes[i] == if i == 0 then src else steps[i - 1].to;
    }
  }

  lemma WalkExtend(adj: Adjacency, filter: string, src: int, steps: seq<Edge>, e: Edge)
    requires Walk(adj, filter, src, steps)
    requires e in Neighbors(adj, End(src, steps)) && Passes(filter, e)
    ensures Walk(adj, filter, src, steps + [e]) && End(src, steps + [e]) == e.to
  {
    assert Init(steps + [e]) == steps;
  }

  lemma ReachableExtend(adj: Adjacency, filter: string, src: int, u: int, e: Edge)
    requires Reachable(adj, filter, src, u)
    requires e in Neighbors(adj, u) && Passes(filter, e)
    ensures Reachable(adj, filter, src, e.to)
  {
    var steps :| Walk(adj, filter, src, steps) && End(src, steps) == u;
    WalkExtend(adj, filter, src, steps, e);
  }

  lemma ReachableSelf(adj: Adjacency, filter: string, src: int)
    ensures Reachable(adj, filter, src, src)
  {
    assert Walk(adj, filter, src, []) && End(src, []) == src;
  }

  /** A set that holds the start and is closed under filtered edges holds the end of every walk. */
  lemma {:induction false} ClosedHoldsEnd(adj: Adjacency, filter: string, src: int, steps: seq<Edge>, S: set<int>)
    requires src in S && Walk(adj, filter, src, steps)
    requires forall u, e :: u in S && e in Neighbors(adj, u) && Passes(filter, e) ==> e.to in S
    ensures End(src, steps) in S
  {
    if steps != [] {
      ClosedHoldsEnd(adj, filter, src, Init(steps), S);
    }
  }

  /** Walks compose. */
  lemma {:induction false} WalkConcat(adj: Adjacency, filter: string, src: int, a: seq<Edge>, b: seq<Edge>)
    requires Walk(adj, filter, src, a) && Walk(adj, filter, End(src, a), b)
    ensures Walk(adj, filter, src, a + b) && End(src, a + b) == End(End(src, a), b)
  {
    if b == [] {
      assert a + b == a;
    } else {
      WalkConcat(adj, filter, src, a, Init(b));
      assert Init(a + b) == a + Init(b);
      assert Last(a + b) == Last(b);
    }
  }

  lemma ReachableTransitive(adj: Adjacency, filter: string, u: int, v: int, w: int)
    requires Reachable(adj, filter, u, v) && Reachable(adj, filter, v, w)
    ensures Reachable(adj, filter, u, w)
  {
    var a :| Walk(adj, filter, u, a) && End(u, a) == v;
    var b :| Walk(adj, filter, v, b) && End(v, b) == w;
    WalkConcat(adj, filter, u, a, b);
  }

  /** Every node the adjacency mentions, and the start. */
  ghost function Universe(adj: Adjacency, src: int): set<int> {
    {src} + adj.Keys + set u, i | u in adj && 0 <= i < |adj[u]| :: adj[u][i].to
  }

  lemma EndInUniverse(adj: Adjacency, filter: string, src: int, steps: seq<Edge>)
    requires Walk(adj, filter, src, steps)
    ensures End(src, steps) in Universe(adj, src)
  {
    ClosedHoldsEnd(adj, filter, src, steps, Universe(adj, src));
  }

  /** No node carries the id -1, which the parent tables use as "none". */
  ghost predicate NoSentinel(adj: Adjacency, src: int) {
    src != -1 && forall u, e :: e in Neighbors(adj, u) ==> e.to != -1
  }

  lemma EndIsNoSentinel(adj: Adjacency, filter: string, src: int, steps: seq<Edge>)
    requires Walk(adj, filter, src, steps) && NoSentinel(adj, src)
    ensures End(src, steps) != -1
  {
  }

  /** What `std::reverse` does. */
  function Reverse<T>(s: seq<T>): (r: seq<T>)
    ensures |r| == |s|
  {
    if s == [] then [] else [Last(s)] + Reverse(Init(s))
  }

  lemma {:induction false} ReverseAt<T>(s: seq<T>, i: nat)
    requires i < |s|
    ensures Reverse(s)[i] == s[|s| - 1 - i]
  {
    if i > 0 {
      ReverseAt(Init(s), i - 1);
    }
  }

  /** Collecting one more element in reverse order. */
  lemma CollectBack<T>(all: seq<T>, left: seq<T>, x: T, collected: seq<T>)
    requires all == left + [x] + Reverse(collected)
    ensures all == left + Reverse(collected + [x])
  {
    assert Init(collected + [x]) == collected;
    assert left + [x] + Reverse(collected) == left + ([x] + Reverse(collected));
  }
}
