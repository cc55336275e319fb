/** Lazy-deletion Dijkstra over the adjacency lists. */
module Dijkstra {
  import opened Walks

  /** Addition of an edge weight to a cost. */
  type Plus = (real, real) -> real

  /** What a search is asked: the graph, the relation filter, how costs add up, the start. */
  datatype Query = Query(adj: Adjacency, filter: string, plus: Plus, src: int) {
    /** Weights are not negative, and addition is monotone in the cost and never goes below it. */
    ghost predicate Lawful() {
      (forall u, e :: e in Neighbors(adj, u) ==> 0.0 <= e.weight) &&
      (forall a, b, w :: a <= b && 0.0 <= w ==> plus(a, w) <= plus(b, w)) &&
      (forall a, w :: 0.0 <= w ==> a <= plus(a, w))
    }

    ghost predicate IsWalk(steps: seq<Edge>) {
      Walk(adj, filter, src, steps)
    }

    /** The cost of a walk: its weights added up from the start, as the search does. */
    ghost function Cost(steps: seq<Edge>): real {
      if steps == [] then 0.0 else plus(Cost(Init(steps)), Last(steps).weight)
    }

    ghost predicate IsEdge(u: int, e: Edge) {
      e in Neighbors(adj, u) && Passes(filter, e)
    }
  }

  /** A larger number is not rounded to a smaller one. */
  ghost predicate Monotone(round: real -> real) {
    forall x, y :: x <= y ==> round(x) <= round(y)
  }

  /** Rounded addition, kept from going below a cost that would itself be rounded. */
  function RoundedPlus(round: real -> real): Plus {
    (a: real, w: real) => if round(a + w) < a then a else round(a + w)
  }

  lemma RoundedPlusGrows(round: real -> real, a: real, b: real, w: real)
    requires Monotone(round) && a <= b
    ensures RoundedPlus(round)(a, w) <= RoundedPlus(round)(b, w) && a <= RoundedPlus(round)(a, w)
    ensures 0.0 <= w && round(a) == a ==> RoundedPlus(round)(a, w) == round(a + w)
  {
    assert round(a + w) <= round(b + w);
    assert 0.0 <= w ==> round(a) <= round(a + w);
  }

  lemma RoundedPlusIsLawful(adj: Adjacency, filter: string, round: real -> real, src: int)
    requires Monotone(round) && forall u, e :: e in Neighbors(adj, u) ==> 0.0 <= e.weight
    ensures Query(adj, filter, RoundedPlus(round), src).Lawful()
  {
    hide Monotone, RoundedPlus;
    forall a: real, b: real, w: real
      ensures a <= b ==> RoundedPlus(round)(a, w) <= RoundedPlus(round)(b, w)
      ensures a <= RoundedPlus(round)(a, w)
    {
      RoundedPlusGrows(round, a, if a <= b then b else a, w);
    }
  }

  /** Nothing is rounded twice. */
  ghost predicate RoundsOnce(round: real -> real) {
    forall x {:trigger round(round(x))} :: round(round(x)) == round(x)
  }

  lemma RoundedStep(round: real -> real, cost: real, w: real)
    requires Monotone(round) && RoundsOnce(round) && round(cost) == cost && 0.0 <= w
    ensures RoundedPlus(round)(cost, w) == round(cost + w) && round(round(cost + w)) == round(cost + w)
  {
    hide Monotone, RoundedPlus;
    RoundedPlusGrows(round, cost, cost, w);
  }

  /** Costs that arise in a search are rounded, so there it is rounded addition itself. */
  lemma {:induction false} CostIsRounded(adj: Adjacency, filter: string, round: real -> real, src: int, steps: seq<Edge>)
    requires Monotone(round) && RoundsOnce(round) && round(0.0) == 0.0
    requires forall i :: 0 <= i < |steps| ==> 0.0 <= steps[i].weight
    ensures var q := Query(adj, filter, RoundedPlus(round), src);
      && round(q.Cost(steps)) == q.Cost(steps)
      && (steps != [] ==> q.Cost(steps) == round(q.Cost(Init(steps)) + Last(steps).weight))
  {
    hide Monotone, RoundsOnce, RoundedPlus;
    if steps != [] {
      CostIsRounded(adj, filter, round, src, Init(steps));
      RoundedStep(round, Query(adj, filter, RoundedPlus(round), src).Cost(Init(steps)), Last(steps).weight);
    }
  }

  datatype WeightedPath = WeightedPath(nodes: seq<int>, rels: seq<string>, cost: real)

  const NO_PATH := WeightedPath([], [], 0.0)

  type Entry = (real, int)

  /** The order of `std::pair<float,int>`. */
  predicate AtMost(a: Entry, b: Entry) {
    a.0 < b.0 || (a.0 == b.0 && a.1 <= b.1)
  }

  ghost predicate IsMin(pq: multiset<Entry>, m: Entry) {
    m in pq && forall x :: x in pq ==> AtMost(m, x)
  }

  lemma HasMin(pq: multiset<Entry>)
    requires |pq| > 0
    ensures exists m :: IsMin(pq, m)
    decreases |pq|
  {
    var x :| x in pq;
    var rest := pq - multiset{x};
    assert pq == rest + multiset{x};
    assert forall y :: y in pq <==> y == x || y in rest;
    if |rest| == 0 {
      assert forall y :: y !in rest;
      assert IsMin(pq, x);
    } else {
      HasMin(rest);
      var m :| IsMin(rest, m);
      if AtMost(m, x) {
        assert IsMin(pq, m);
      } else {
        assert forall y :: y in rest ==> AtMost(m, y);
        assert IsMin(pq, x);
      }
    }
  }

  /** Pops the least pair, as `pq.top(); pq.pop()` does. */
  method PopMin(pq: multiset<Entry>) returns (m: Entry, rest: multiset<Entry>)
    requires |pq| > 0
    ensures IsMin(pq, m) && m in pq && forall x :: x in pq ==> m.0 < x.0 || (m.0 == x.0 && m.1 <= x.1)
    ensures rest == pq - multiset{m} && |rest| == |pq| - 1
  {
    HasMin(pq);
    m :| m in pq && forall x :: x in pq ==> AtMost(m, x);
    rest := pq - multiset{m};
  }

  /** The search's tables and its queue. */
  datatype Found = Found(dist: map<int, real>, parent: map<int, int>, via: map<int, string>, pq: multiset<Entry>)

  /** What the proof keeps beside them: the nodes popped fresh so far, and the walk that the
      parent chain of each found node spells out. */
  datatype Trace = Trace(settled: set<int>, walks: map<int, seq<Edge>>)

  ghost predicate HasWalk(q: Query, f: Found, t: Trace, v: int)
    requires v in f.dist && v in t.walks
  {
    q.IsWalk(t.walks[v]) && End(q.src, t.walks[v]) == v && q.Cost(t.walks[v]) == f.dist[v] && 0.0 <= f.dist[v]
  }

  ghost predicate HasParent(f: Found, t: Trace, v: int)
    requires v in t.walks && v in f.parent
  {
    && v in f.via && f.parent[v] in t.settled && f.parent[v] in t.walks && t.walks[v] != []
    && Init(t.walks[v]) == t.walks[f.parent[v]] && Last(t.walks[v]).rel == f.via[v]
  }

  /** Everything found is found along a real walk, which the parent chain spells out. */
  ghost predicate Tree(q: Query, f: Found, t: Trace) {
    && f.dist.Keys == f.parent.Keys == t.walks.Keys
    && t.settled <= f.dist.Keys
    && q.src in f.dist && f.dist[q.src] == 0.0 && f.parent[q.src] == -1 && t.walks[q.src] == []
    && (forall v {:trigger HasWalk(q, f, t, v)} :: v in f.dist ==> HasWalk(q, f, t, v))
    && (forall v {:trigger HasParent(f, t, v)} :: v in f.dist && v != q.src ==> HasParent(f, t, v))
  }

  /** The queue holds a current entry for everything found but not settled, no entry beats the
      distance it stands for, and nothing in it is cheaper than anything settled. */
  ghost predicate Queue(f: Found, t: Trace) {
    && (forall v :: v in f.dist && v !in t.settled ==> (f.dist[v], v) in f.pq)
    && (forall x :: x in f.pq ==> x.1 in f.dist && f.dist[x.1] <= x.0 && f.pq[x] == 1)
    && (forall u, x :: u in t.settled && u in f.dist && x in f.pq ==> f.dist[u] <= x.0)
    && (forall x :: x in f.pq && x.1 in t.settled && x.1 in f.dist ==> x.0 != f.dist[x.1])
  }

  ghost predicate Relaxed(q: Query, f: Found, u: int, e: Edge)
    requires u in f.dist
  {
    Passes(q.filter, e) ==> e.to in f.dist && f.dist[e.to] <= q.plus(f.dist[u], e.weight)
  }

  /** Every edge out of a settled node, those in `busy` apart, is relaxed. */
  ghost predicate Closed(q: Query, f: Found, t: Trace, busy: set<int>) {
    forall u, e {:trigger Relaxed(q, f, u, e)} ::
      u in t.settled && u in f.dist && u !in busy && e in Neighbors(q.adj, u) ==> Relaxed(q, f, u, e)
  }

  ghost predicate Searching(q: Query, f: Found, t: Trace) {
    Tree(q, f, t) && Queue(f, t) && Closed(q, f, t, {})
  }

  /** The heart of the argument. When no found, unsettled node is nearer than `bound`, every walk
      costs at least `bound` or ends at a node whose recorded distance is at most its cost. */
  lemma {:induction false} Optimal(q: Query, f: Found, t: Trace, bound: real, steps: seq<Edge>)
    requires q.Lawful() && q.IsWalk(steps)
    requires q.src in f.dist && f.dist[q.src] <= 0.0 && t.settled <= f.dist.Keys && Closed(q, f, t, {})
    requires forall v :: v in f.dist && v !in t.settled ==> bound <= f.dist[v]
    ensures bound <= q.Cost(steps) ||
            (End(q.src, steps) in f.dist && f.dist[End(q.src, steps)] <= q.Cost(steps))
  {
    if steps != [] {
      var before, e := Init(steps), Last(steps);
      Optimal(q, f, t, bound, before);
      var u := End(q.src, before);
      assert 0.0 <= e.weight;
      if q.Cost(before) < bound {
        assert Relaxed(q, f, u, e);
        assert q.plus(f.dist[u], e.weight) <= q.plus(q.Cost(before), e.weight);
      } else {
        assert q.Cost(before) <= q.plus(q.Cost(before), e.weight);
      }
    }
  }

  /** The state while the edges of `node`, popped at cost `c`, are being relaxed. */
  ghost predicate Expanding(q: Query, f: Found, t: Trace, node: int, c: real) {
    && Tree(q, f, t) && Queue(f, t) && Closed(q, f, t, {node}) && Front(f, t, node, c)
  }

  /** Nothing settled costs more than `c`, nothing queued less. */
  ghost predicate Front(f: Found, t: Trace, node: int, c: real) {
    && node in t.settled && node in f.dist && f.dist[node] == c
    && (forall x :: x in f.pq ==> c <= x.0)
    && (forall u :: u in t.settled && u in f.dist ==> f.dist[u] <= c)
  }

  /** Popping a stale entry changes nothing that matters. */
  lemma PopIsKnown(q: Query, f: Found, t: Trace, m: Entry)
    requires Searching(q, f, t) && IsMin(f.pq, m)
    ensures m in f.pq && m.1 in f.dist && m.1 in Universe(q.adj, q.src)
  {
    FoundInUniverse(q, f, t);
  }

  lemma DropsStale(q: Query, f: Found, t: Trace, m: Entry)
    requires Searching(q, f, t)
    requires m in f.pq && f.dist[m.1] < m.0
    ensures Searching(q, f.(pq := f.pq - multiset{m}), t)
  {
    var g := f.(pq := f.pq - multiset{m});
    assert forall v :: v in g.dist && HasWalk(q, f, t, v) ==> HasWalk(q, g, t, v);
    assert forall v :: v in g.dist && v != q.src && HasParent(f, t, v) ==> HasParent(g, t, v);
    assert forall u, e :: u in f.dist && Relaxed(q, f, u, e) ==> Relaxed(q, g, u, e);
  }

  /** Popping a fresh least entry settles its node. */
  lemma Settles(q: Query, f: Found, t: Trace, m: Entry)
    requires Searching(q, f, t)
    requires IsMin(f.pq, m) && m.0 <= f.dist[m.1]
    ensures m.1 !in t.settled
    ensures Expanding(q, f.(pq := f.pq - multiset{m}), t.(settled := t.settled + {m.1}), m.1, m.0)
  {
    var g, r := f.(pq := f.pq - multiset{m}), t.(settled := t.settled + {m.1});
    SettlesTree(q, f, t, m);
    SettlesQueue(f, t, m);
    assert forall u, e :: u in f.dist && Relaxed(q, f, u, e) ==> Relaxed(q, g, u, e);
  }

  lemma SettlesTree(q: Query, f: Found, t: Trace, m: Entry)
    requires Tree(q, f, t) && m.1 in f.dist
    ensures Tree(q, f.(pq := f.pq - multiset{m}), t.(settled := t.settled + {m.1}))
  {
    var g, r := f.(pq := f.pq - multiset{m}), t.(settled := t.settled + {m.1});
    assert forall v :: v in g.dist && HasWalk(q, f, t, v) ==> HasWalk(q, g, r, v);
    assert forall v :: v in g.dist && v != q.src && HasParent(f, t, v) ==> HasParent(g, r, v);
  }

  lemma SettlesQueue(f: Found, t: Trace, m: Entry)
    requires Queue(f, t) && IsMin(f.pq, m) && m.1 in f.dist && m.0 <= f.dist[m.1]
    ensures m.1 !in t.settled
    ensures Queue(f.(pq := f.pq - multiset{m}), t.(settled := t.settled + {m.1}))
    ensures Front(f.(pq := f.pq - multiset{m}), t.(settled := t.settled + {m.1}), m.1, m.0)
  {
    hide Queue, IsMin;
    FreshIsNew(f, t, m);
    PopsOne(f.pq, m);
    SettlesRest(f, t, m, f.pq - multiset{m});
  }

  lemma FreshIsNew(f: Found, t: Trace, m: Entry)
    requires Queue(f, t) && IsMin(f.pq, m) && m.1 in f.dist && m.0 <= f.dist[m.1]
    ensures m == (f.dist[m.1], m.1) && m.1 !in t.settled && m in f.pq && f.pq[m] == 1
  {
    assert m == (f.dist[m.1], m.1);
  }

  lemma SettlesRest(f: Found, t: Trace, m: Entry, rest: multiset<Entry>)
    requires Queue(f, t) && IsMin(f.pq, m) && m == (f.dist[m.1], m.1) && m.1 !in t.settled
    requires m !in rest && forall x :: x != m ==> (x in rest <==> x in f.pq) && rest[x] == f.pq[x]
    ensures Queue(f.(pq := rest), t.(settled := t.settled + {m.1}))
    ensures Front(f.(pq := rest), t.(settled := t.settled + {m.1}), m.1, m.0)
  {
    assert forall x :: x in rest ==> AtMost(m, x);
  }

  lemma PopsOne(pq: multiset<Entry>, m: Entry)
    requires m in pq && pq[m] == 1
    ensures m !in pq - multiset{m}
    ensures forall x :: x != m ==> (x in pq - multiset{m} <==> x in pq) && (pq - multiset{m})[x] == pq[x]
  {
  }

  ghost function Improve(f: Found, node: int, e: Edge, nc: real): Found {
    Found(f.dist[e.to := nc], f.parent[e.to := node], f.via[e.to := e.rel], f.pq + multiset{(nc, e.to)})
  }

  ghost function Retrace(t: Trace, node: int, e: Edge): Trace
    requires node in t.walks
  {
    t.(walks := t.walks[e.to := t.walks[node] + [e]])
  }

  /** Distances only fall, and settled ones never move. */
  ghost predicate Better(f: Found, t: Trace, g: Found) {
    && (forall v :: v in f.dist ==> v in g.dist && g.dist[v] <= f.dist[v])
    && (forall v :: v in t.settled && v in f.dist ==> g.dist[v] == f.dist[v])
  }

  /** The edge `e` out of `node` leads somewhere new, or somewhere known at a lower cost. */
  ghost predicate Shortcut(q: Query, f: Found, node: int, c: real, e: Edge) {
    q.IsEdge(node, e) && (e.to !in f.dist || q.plus(c, e.weight) < f.dist[e.to])
  }

  lemma ShortcutIsNew(q: Query, f: Found, t: Trace, node: int, c: real, e: Edge)
    requires q.Lawful() && Front(f, t, node, c) && Shortcut(q, f, node, c, e)
    ensures c <= q.plus(c, e.weight) && e.to !in t.settled * f.dist.Keys
    ensures Better(f, t, Improve(f, node, e, q.plus(c, e.weight)))
  {
    assert 0.0 <= e.weight;
  }

  lemma ImprovesTree(q: Query, f: Found, t: Trace, node: int, c: real, e: Edge)
    requires q.Lawful() && Tree(q, f, t) && Front(f, t, node, c) && Shortcut(q, f, node, c, e)
    ensures Tree(q, Improve(f, node, e, q.plus(c, e.weight)), Retrace(t, node, e))
  {
    hide Query.Lawful;
    ShortcutIsNew(q, f, t, node, c, e);
    ImprovesWalk(q, f, t, node, c, e);
    hide Query.IsWalk, Query.Cost, Walk, End;
    var g, r := Improve(f, node, e, q.plus(c, e.weight)), Retrace(t, node, e);
    assert forall v :: v in f.dist && v != e.to && HasWalk(q, f, t, v) ==> HasWalk(q, g, r, v);
    assert HasWalk(q, f, t, q.src);
    assert HasParent(g, r, e.to);
    assert forall v :: v in f.dist && v != e.to && HasParent(f, t, v) ==> HasParent(g, r, v);
  }

  /** The new walk to the target of the edge. */
  lemma ImprovesWalk(q: Query, f: Found, t: Trace, node: int, c: real, e: Edge)
    requires q.Lawful() && Tree(q, f, t) && Front(f, t, node, c) && Shortcut(q, f, node, c, e)
    ensures HasWalk(q, Improve(f, node, e, q.plus(c, e.weight)), Retrace(t, node, e), e.to)
    ensures Init(t.walks[node] + [e]) == t.walks[node] && Last(t.walks[node] + [e]) == e
  {
    ShortcutIsNew(q, f, t, node, c, e);
    assert HasWalk(q, f, t, node);
    WalkExtend(q.adj, q.filter, q.src, t.walks[node], e);
    var walk := t.walks[node] + [e];
    assert Init(walk) == t.walks[node] && Last(walk) == e;
  }

  lemma ImprovesQueue(q: Query, f: Found, t: Trace, node: int, c: real, e: Edge)
    requires q.Lawful() && Queue(f, t) && Front(f, t, node, c) && Shortcut(q, f, node, c, e)
    requires t.settled <= f.dist.Keys && node in t.walks
    ensures Queue(Improve(f, node, e, q.plus(c, e.weight)), Retrace(t, node, e))
    ensures Front(Improve(f, node, e, q.plus(c, e.weight)), Retrace(t, node, e), node, c)
  {
    ShortcutIsNew(q, f, t, node, c, e);
    var nc := q.plus(c, e.weight);
    var g := Improve(f, node, e, nc);
    assert (nc, e.to) !in f.pq;
    assert forall x :: x in g.pq ==> x == (nc, e.to) || x in f.pq;
    assert forall x :: x in f.pq ==> g.pq[x] == f.pq[x];
  }

  lemma ImprovesClosed(q: Query, f: Found, t: Trace, node: int, c: real, e: Edge)
    requires q.Lawful() && Closed(q, f, t, {node}) && Front(f, t, node, c) && Shortcut(q, f, node, c, e)
    requires t.settled <= f.dist.Keys && node in t.walks
    ensures Closed(q, Improve(f, node, e, q.plus(c, e.weight)), Retrace(t, node, e), {node})
  {
    ShortcutIsNew(q, f, t, node, c, e);
    var g := Improve(f, node, e, q.plus(c, e.weight));
    forall u, x | u in t.settled && u in g.dist && u != node && x in Neighbors(q.adj, u)
      ensures Relaxed(q, g, u, x)
    {
      assert Relaxed(q, f, u, x);
    }
  }

  lemma Improves(q: Query, f: Found, t: Trace, node: int, c: real, e: Edge)
    requires q.Lawful() && Expanding(q, f, t, node, c) && Shortcut(q, f, node, c, e)
    ensures Expanding(q, Improve(f, node, e, q.plus(c, e.weight)), Retrace(t, node, e), node, c)
    ensures Better(f, t, Improve(f, node, e, q.plus(c, e.weight)))
    ensures Relaxed(q, Improve(f, node, e, q.plus(c, e.weight)), node, e)
  {
    ShortcutIsNew(q, f, t, node, c, e);
    ImprovesTree(q, f, t, node, c, e);
    ImprovesQueue(q, f, t, node, c, e);
    ImprovesClosed(q, f, t, node, c, e);
  }

  ghost predicate AllRelaxed(q: Query, f: Found, u: int, es: seq<Edge>)
    requires u in f.dist
  {
    forall e :: e in es ==> Relaxed(q, f, u, e)
  }

  /** An edge that improves a distance, taken. */
  lemma Takes(q: Query, f: Found, t: Trace, node: int, c: real, es: seq<Edge>, e: Edge)
    requires q.Lawful() && Expanding(q, f, t, node, c) && AllRelaxed(q, f, node, es)
    requires e in Neighbors(q.adj, node) && Passes(q.filter, e)
    requires e.to !in f.dist || q.plus(c, e.weight) < f.dist[e.to]
    ensures node in t.walks
    ensures var g := Improve(f, node, e, q.plus(c, e.weight));
            Expanding(q, g, Retrace(t, node, e), node, c) && node in g.dist && AllRelaxed(q, g, node, es + [e])
  {
    assert Shortcut(q, f, node, c, e);
    Improves(q, f, t, node, c, e);
    var g := Improve(f, node, e, q.plus(c, e.weight));
    forall x | x in es
      ensures Relaxed(q, g, node, x)
    {
      assert Relaxed(q, f, node, x);
    }
  }

  /** An edge that improves nothing, left alone. */
  lemma Leaves(q: Query, f: Found, t: Trace, node: int, c: real, es: seq<Edge>, e: Edge)
    requires Expanding(q, f, t, node, c) && AllRelaxed(q, f, node, es)
    requires Passes(q.filter, e) ==> e.to in f.dist && f.dist[e.to] <= q.plus(c, e.weight)
    ensures AllRelaxed(q, f, node, es + [e])
  {
    assert Relaxed(q, f, node, e);
  }

  lemma Concludes(q: Query, f: Found, t: Trace, node: int, c: real)
    requires Expanding(q, f, t, node, c) && AllRelaxed(q, f, node, Neighbors(q.adj, node))
    ensures Searching(q, f, t)
  {
  }

  lemma Begins(q: Query, f: Found, t: Trace, node: int, c: real)
    requires Expanding(q, f, t, node, c)
    ensures node in f.dist && f.dist[node] == c && node in t.walks && AllRelaxed(q, f, node, [])
  {
  }

  /** Relaxes the edges of a node that was just popped, fresh, at cost `c`. */
  method RelaxEdges(q: Query, f0: Found, ghost t0: Trace, node: int, c: real) returns (f: Found, ghost t: Trace)
    requires q.Lawful() && Expanding(q, f0, t0, node, c)
    ensures Searching(q, f, t) && t.settled == t0.settled
  {
    f, t := f0, t0;
    hide Expanding, Searching, AllRelaxed;
    var es := Neighbors(q.adj, node);
    Begins(q, f, t, node, c);
    for i := 0 to |es|
      invariant Expanding(q, f, t, node, c) && t.settled == t0.settled
      invariant node in f.dist && AllRelaxed(q, f, node, es[..i])
    {
      var e := es[i];
      assert es[..i + 1] == es[..i] + [e];
      var nc := q.plus(c, e.weight);
      if !Passes(q.filter, e) || (e.to in f.dist && f.dist[e.to] <= nc) {
        Leaves(q, f, t, node, c, es[..i], e);
      } else {
        Takes(q, f, t, node, c, es[..i], e);
        t := Retrace(t, node, e);
        f := Found(f.dist[e.to := nc], f.parent[e.to := node], f.via[e.to := e.rel], f.pq + multiset{(nc, e.to)});
      }
    }
    assert es[..|es|] == es;
    Concludes(q, f, t, node, c);
  }

  /** One step back along the parents takes the last edge off the walk. */
  lemma StepBack(q: Query, f: Found, t: Trace, v: int)
    requires Tree(q, f, t) && v in f.dist && NoSentinel(q.adj, q.src)
    ensures v != -1
    ensures f.parent[v] == -1 ==> NodesOf(q.src, t.walks[v]) == [v] && RelsOf(t.walks[v]) == []
    ensures f.parent[v] != -1 ==>
              && v in f.via && f.parent[v] in f.dist && |t.walks[f.parent[v]]| < |t.walks[v]|
              && NodesOf(q.src, t.walks[v]) == NodesOf(q.src, t.walks[f.parent[v]]) + [v]
              && RelsOf(t.walks[v]) == RelsOf(t.walks[f.parent[v]]) + [f.via[v]]
  {
    assert HasWalk(q, f, t, v);
    EndIsNoSentinel(q.adj, q.filter, q.src, t.walks[v]);
    if v != q.src {
      assert HasParent(f, t, v);
      var u := f.parent[v];
      assert HasWalk(q, f, t, u);
      EndIsNoSentinel(q.adj, q.filter, q.src, t.walks[u]);
    }
  }

  /** Follows the parents back from `target` and reverses what it collected. */
  method ParentWalk(q: Query, f: Found, ghost t: Trace, target: int) returns (nodes: seq<int>, rels: seq<string>)
    requires Searching(q, f, t) && target in f.dist && target in t.walks && NoSentinel(q.adj, q.src)
    ensures nodes == NodesOf(q.src, t.walks[target]) && rels == RelsOf(t.walks[target])
  {
    nodes, rels := [], [];
    var cur := target;
    StepBack(q, f, t, target);
    ghost var allNodes, allRels := NodesOf(q.src, t.walks[target]), RelsOf(t.walks[target]);
    ghost var leftNodes, leftRels := allNodes, allRels;
    while cur != -1
      invariant cur != -1 ==> cur in f.dist
      invariant cur != -1 ==> leftNodes == NodesOf(q.src, t.walks[cur]) && leftRels == RelsOf(t.walks[cur])
      invariant cur == -1 ==> leftNodes == [] && leftRels == []
      invariant allNodes == leftNodes + Reverse(nodes) && allRels == leftRels + Reverse(rels)
      decreases cur != -1, if cur == -1 then 0 else |t.walks[cur]|
    {
      StepBack(q, f, t, cur);
      var next := f.parent[cur];
      leftNodes := if next == -1 then [] else NodesOf(q.src, t.walks[next]);
      CollectBack(allNodes, leftNodes, cur, nodes);
      nodes := nodes + [cur];
      if next != -1 {
        leftRels := RelsOf(t.walks[next]);
        CollectBack(allRels, leftRels, f.via[cur], rels);
        rels := rels + [f.via[cur]];
      }
      cur := next;
    }
    nodes, rels := Reverse(nodes), Reverse(rels);
  }

  /** The walk is a cheapest one to the target. */
  ghost predicate Cheapest(q: Query, target: int, steps: seq<Edge>) {
    && q.IsWalk(steps) && End(q.src, steps) == target
    && forall other :: q.IsWalk(other) && End(q.src, other) == target ==> q.Cost(steps) <= q.Cost(other)
  }

  /** The answer describes a cheapest filtered walk, or there is none and it is empty. */
  ghost predicate Answers(q: Query, target: int, path: WeightedPath) {
    if Reachable(q.adj, q.filter, q.src, target) then
      exists steps ::
        Cheapest(q, target, steps) && path == WeightedPath(NodesOf(q.src, steps), RelsOf(steps), q.Cost(steps))
    else
      path == NO_PATH
  }

  /** An answer is empty if and only if there is no walk, and then wholly; any other leads from the source to
      the target along edges that pass the filter, as cheaply as any. */
  lemma AnswersMean(q: Query, target: int, path: WeightedPath)
    requires Answers(q, target, path)
    ensures path.nodes == [] <==> !Reachable(q.adj, q.filter, q.src, target)
    ensures path.nodes == [] ==> path.rels == [] && path.cost == 0.0
    ensures path.nodes != [] ==>
              && path.nodes[0] == q.src && path.nodes[|path.nodes| - 1] == target
              && Joined(q.adj, q.filter, path.nodes, path.rels)
              && forall steps :: q.IsWalk(steps) && End(q.src, steps) == target ==> path.cost <= q.Cost(steps)
  {
    if Reachable(q.adj, q.filter, q.src, target) {
      var steps :| Cheapest(q, target, steps) && path == WeightedPath(NodesOf(q.src, steps), RelsOf(steps), q.Cost(steps));
      WalkJoins(q.adj, q.filter, q.src, steps);
      ToldInOrder(q.src, steps);
    }
  }

  /** The weights of a walk, summed. */
  ghost function TotalWeight(steps: seq<Edge>): real {
    if steps == [] then 0.0 else steps[0].weight + TotalWeight(steps[1..])
  }

  /** Where costs add up exactly, the cost of a walk is the sum of its weights. */
  lemma {:induction false} ExactCostIsSum(q: Query, a: seq<Edge>, b: seq<Edge>)
    requires forall x, w :: q.plus(x, w) == x + w
    ensures q.Cost(a + b) == q.Cost(a) + TotalWeight(b)
    decreases |b|
  {
    if b == [] {
      assert a + b == a;
    } else {
      ExactCostIsSum(q, a + [b[0]], b[1..]);
      assert a + [b[0]] + b[1..] == a + b;
      assert Init(a + [b[0]]) == a;
    }
  }

  lemma FoundInUniverse(q: Query, f: Found, t: Trace)
    requires Tree(q, f, t)
    ensures f.dist.Keys <= Universe(q.adj, q.src)
  {
    forall v | v in f.dist
      ensures v in Universe(q.adj, q.src)
    {
      assert HasWalk(q, f, t, v);
      EndInUniverse(q.adj, q.filter, q.src, t.walks[v]);
    }
  }

  /** When the least entry belongs to the target, the walk recorded for it is a cheapest one. */
  lemma FirstPopIsCheapest(q: Query, f: Found, t: Trace, m: Entry)
    requires q.Lawful() && Searching(q, f, t) && IsMin(f.pq, m) && m.1 !in t.settled
    ensures m.1 in f.dist && m.1 in t.walks && m.0 == f.dist[m.1] && Cheapest(q, m.1, t.walks[m.1])
    ensures Answers(q, m.1, WeightedPath(NodesOf(q.src, t.walks[m.1]), RelsOf(t.walks[m.1]), m.0))
  {
    FirstPopCosts(q, f, t, m);
    assert q.IsWalk(t.walks[m.1]) && End(q.src, t.walks[m.1]) == m.1;
    assert Reachable(q.adj, q.filter, q.src, m.1);
  }

  lemma FirstPopCosts(q: Query, f: Found, t: Trace, m: Entry)
    requires q.Lawful() && Searching(q, f, t) && IsMin(f.pq, m) && m.1 !in t.settled
    ensures m.1 in f.dist && m.1 in t.walks && m.0 == f.dist[m.1] && q.Cost(t.walks[m.1]) == m.0
    ensures Cheapest(q, m.1, t.walks[m.1])
  {
    assert HasWalk(q, f, t, m.1);
    forall v | v in f.dist && v !in t.settled
      ensures m.0 <= f.dist[v]
    {
      assert AtMost(m, (f.dist[v], v));
    }
    forall other | q.IsWalk(other) && End(q.src, other) == m.1
      ensures q.Cost(t.walks[m.1]) <= q.Cost(other)
    {
      Optimal(q, f, t, m.0, other);
    }
  }

  /** When the queue has run dry, the table holds exactly the reachable nodes at their least costs. */
  lemma DrainedIsExact(q: Query, f: Found, t: Trace, v: int)
    requires q.Lawful() && Searching(q, f, t) && |f.pq| == 0
    ensures v in f.dist <==> Reachable(q.adj, q.filter, q.src, v)
    ensures v in f.dist ==> Cheapest(q, v, t.walks[v])
  {
    assert forall x :: x !in f.pq;
    if v in f.dist {
      assert HasWalk(q, f, t, v);
    }
    forall other | q.IsWalk(other) && End(q.src, other) == v
      ensures v in f.dist && f.dist[v] <= q.Cost(other)
    {
      Optimal(q, f, t, q.Cost(other) + 1.0, other);
    }
  }

  lemma NoneLeft(q: Query, f: Found, t: Trace, target: int)
    requires q.Lawful() && Searching(q, f, t) && |f.pq| == 0 && target !in t.settled
    ensures Answers(q, target, NO_PATH)
  {
    DrainedIsExact(q, f, t, target);
    assert forall x :: x !in f.pq;
  }

  function Start(source: int): Found {
    Found(map[source := 0.0], map[source := -1], map[], multiset{(0.0, source)})
  }

  lemma Starts(q: Query) returns (t: Trace)
    ensures Searching(q, Start(q.src), t) && t.settled == {}
  {
    t := Trace({}, map[q.src := []]);
    assert HasWalk(q, Start(q.src), t, q.src);
  }

  /** `dijkstra_path`: stops at the first entry of the target it pops, before asking whether the
      entry is stale. */
  method DijkstraPath(q: Query, target: int) returns (path: WeightedPath)
    requires q.Lawful() && NoSentinel(q.adj, q.src)
    ensures Answers(q, target, path)
  {
    hide Searching, Expanding, Tree, Answers, Cheapest, Start, IsMin, Universe, NoSentinel;
    var f := Start(q.src);
    ghost var t := Starts(q);
    while |f.pq| != 0
      invariant Searching(q, f, t) && target !in t.settled
      decreases Universe(q.adj, q.src) - t.settled, |f.pq|
    {
      var m, rest := PopMin(f.pq);
      var (cost, node) := m;
      PopIsKnown(q, f, t, m);
      if node == target {
        FirstPopIsCheapest(q, f, t, m);
        var nodes, rels := ParentWalk(q, f, t, target);
        return WeightedPath(nodes, rels, cost);
      }
      if node in f.dist && cost > f.dist[node] {
        DropsStale(q, f, t, m);
        f := f.(pq := rest);
      } else {
        Settles(q, f, t, m);
        f, t := f.(pq := rest), t.(settled := t.settled + {node});
        f, t := RelaxEdges(q, f, t, node, cost);
      }
    }
    NoneLeft(q, f, t, target);
    return NO_PATH;
  }

  /** The tables hold exactly the reachable nodes, each with the cost of a cheapest walk to it, and the
      parents form a tree of such walks. */
  ghost predicate Distances(q: Query, dist: map<int, real>, parent: map<int, int>) {
    && (forall v :: v in dist <==> Reachable(q.adj, q.filter, q.src, v))
    && parent.Keys == dist.Keys && q.src in dist && parent[q.src] == -1 && dist[q.src] == 0.0
    && exists walks :: CheapestTree(q, dist, parent, walks)
  }

  /** A cheapest walk to every node, one step longer than that to its parent. */
  ghost predicate CheapestTree(q: Query, dist: map<int, real>, parent: map<int, int>, walks: map<int, seq<Edge>>) {
    && walks.Keys == dist.Keys == parent.Keys
    && forall v {:trigger walks[v]} :: v in walks ==>
         && Cheapest(q, v, walks[v]) && dist[v] == q.Cost(walks[v])
         && (v == q.src ==> walks[v] == [])
         && (v != q.src ==> walks[v] != [] && parent[v] in walks && Init(walks[v]) == walks[parent[v]])
  }

  lemma TableIsExact(q: Query, f: Found, t: Trace)
    requires q.Lawful() && Searching(q, f, t) && |f.pq| == 0
    ensures Distances(q, f.dist, f.parent)
  {
    forall v
      ensures v in f.dist <==> Reachable(q.adj, q.filter, q.src, v)
      ensures v in f.dist ==> Cheapest(q, v, t.walks[v]) && f.dist[v] == q.Cost(t.walks[v])
      ensures v in f.dist && v != q.src ==>
                t.walks[v] != [] && f.parent[v] in t.walks && Init(t.walks[v]) == t.walks[f.parent[v]]
    {
      DrainedIsExact(q, f, t, v);
      if v in f.dist {
        assert HasWalk(q, f, t, v);
        assert v != q.src ==> HasParent(f, t, v);
      }
    }
    assert CheapestTree(q, f.dist, f.parent, t.walks);
  }

  /** `dijkstra_all`: no filter, no target, runs until the queue is dry. */
  method DijkstraAll(adj: Adjacency, plus: Plus, source: int)
    returns (dist: map<int, real>, parent: map<int, int>)
    requires Query(adj, "", plus, source).Lawful()
    ensures Distances(Query(adj, "", plus, source), dist, parent)
  {
    hide Searching, Expanding, Tree, Start, IsMin, Universe, Distances;
    var q := Query(adj, "", plus, source);
    var f := Start(source);
    ghost var t := Starts(q);
    while |f.pq| != 0
      invariant Searching(q, f, t)
      decreases Universe(adj, source) - t.settled, |f.pq|
    {
      var m, rest := PopMin(f.pq);
      var (cost, node) := m;
      PopIsKnown(q, f, t, m);
      if cost > f.dist[node] {
        DropsStale(q, f, t, m);
        f := f.(pq := rest);
      } else {
        Settles(q, f, t, m);
        f, t := f.(pq := rest), t.(settled := t.settled + {node});
        f, t := RelaxEdges(q, f, t, node, cost);
      }
    }
    TableIsExact(q, f, t);
    return f.dist, f.parent;
  }
}
