/** The mutable property graph: metadata, forward and reverse adjacency, and an edge counter. */
module DynamicGraphs {
  import opened Walks
  import opened Sets
  import opened Sums

  datatype NodeMeta = NodeMeta(labelText: string, props: string)

  /** The (relation, weight) pairs of the edges to `v`, in list order. */
  function Between(es: seq<Edge>, v: int): seq<(string, real)> {
    if es == [] then [] else
      Between(Init(es), v) + if Last(es).to == v then [(Last(es).rel, Last(es).weight)] else []
  }

  /** The list without its edges to `v`. */
  function Without(es: seq<Edge>, v: int): seq<Edge> {
    if es == [] then [] else
      Without(Init(es), v) + if Last(es).to == v then [] else [Last(es)]
  }

  /** The list without its edges to `v` of relation `rel`. */
  function WithoutRel(es: seq<Edge>, v: int, rel: string): seq<Edge> {
    if es == [] then [] else
      WithoutRel(Init(es), v, rel) + if Last(es).to == v && Last(es).rel == rel then [] else [Last(es)]
  }

  function DropRel(ps: seq<(string, real)>, rel: string): seq<(string, real)> {
    if ps == [] then [] else
      DropRel(Init(ps), rel) + if Last(ps).0 == rel then [] else [Last(ps)]
  }

  lemma {:induction false} BetweenAppend(es: seq<Edge>, e: Edge, v: int)
    ensures Between(es + [e], v) == Between(es, v) + if e.to == v then [(e.rel, e.weight)] else []
  {
    assert Init(es + [e]) == es;
  }

  lemma {:induction false} BetweenWithout(es: seq<Edge>, u: int, v: int)
    ensures Between(Without(es, u), v) == if u == v then [] else Between(es, v)
    ensures |es| == |Without(es, u)| + |Between(es, u)|
  {
    if es != [] {
      BetweenWithout(Init(es), u, v);
      if Last(es).to != u {
        BetweenAppend(Without(Init(es), u), Last(es), v);
      } else {
        assert Without(es, u) == Without(Init(es), u);
      }
    }
  }

  lemma LastBetween(es: seq<Edge>, v: int)
    ensures es == [] ==> Between(es, v) == [] && Without(es, v) == es
    ensures es != [] && Last(es).to == v ==>
              Between(es, v) == Between(Init(es), v) + [(Last(es).rel, Last(es).weight)] && Without(es, v) == Without(Init(es), v)
    ensures es != [] && Last(es).to != v ==>
              Between(es, v) == Between(Init(es), v) && Without(es, v) == Without(Init(es), v) + [Last(es)]
  {
  }

  /** Nothing leads to `v` exactly when dropping the edges to `v` drops nothing. */
  lemma {:induction false} BetweenEmpty(es: seq<Edge>, v: int)
    ensures Between(es, v) == [] <==> forall e :: e in es ==> e.to != v
    ensures Between(es, v) == [] ==> Without(es, v) == es
  {
    hide Between, Without;
    LastBetween(es, v);
    if es != [] {
      BetweenEmpty(Init(es), v);
      assert es == Init(es) + [Last(es)];
    }
  }

  lemma {:induction false} WithoutMembers(es: seq<Edge>, v: int)
    ensures forall e :: e in Without(es, v) <==> e in es && e.to != v
  {
    if es != [] {
      WithoutMembers(Init(es), v);
      assert es == Init(es) + [Last(es)];
    }
  }

  lemma WithoutTwice(es: seq<Edge>, v: int)
    ensures Without(Without(es, v), v) == Without(es, v)
  {
    BetweenWithout(es, v, v);
    BetweenEmpty(Without(es, v), v);
  }

  /** Edge by edge, in order: an edge to `v` goes and any other stays. */
  lemma {:induction false} WithoutEdgeByEdge(a: seq<Edge>, e: Edge, b: seq<Edge>, v: int)
    ensures Without(a + [e] + b, v) == Without(a, v) + (if e.to == v then [] else [e]) + Without(b, v)
  {
    if b == [] {
      assert Init(a + [e] + b) == a;
    } else {
      WithoutEdgeByEdge(a, e, Init(b), v);
      assert Init(a + [e] + b) == a + [e] + Init(b);
    }
  }

  /** Edge by edge, in order: an edge to `v` of relation `rel` goes and any other stays. */
  lemma {:induction false} WithoutRelEdgeByEdge(a: seq<Edge>, e: Edge, b: seq<Edge>, v: int, rel: string)
    ensures WithoutRel(a + [e] + b, v, rel) ==
            WithoutRel(a, v, rel) + (if e.to == v && e.rel == rel then [] else [e]) + WithoutRel(b, v, rel)
  {
    if b == [] {
      assert Init(a + [e] + b) == a;
    } else {
      WithoutRelEdgeByEdge(a, e, Init(b), v, rel);
      assert Init(a + [e] + b) == a + [e] + Init(b);
    }
  }

  lemma {:induction false} BetweenWithoutRel(es: seq<Edge>, u: int, rel: string, v: int)
    ensures u == v ==> Between(WithoutRel(es, u, rel), v) == DropRel(Between(es, v), rel)
    ensures u != v ==> Between(WithoutRel(es, u, rel), v) == Between(es, v)
    ensures |es| == |WithoutRel(es, u, rel)| + |Between(es, u)| - |DropRel(Between(es, u), rel)|
    ensures forall e :: e in WithoutRel(es, u, rel) ==> e in es
  {
    if es != [] {
      var e := Last(es);
      BetweenWithoutRel(Init(es), u, rel, v);
      assert es == Init(es) + [e];
      var rest := WithoutRel(Init(es), u, rel);
      if e.to == u {
        DropRelAppend(Between(Init(es), u), (e.rel, e.weight), rel);
        assert Between(es, u) == Between(Init(es), u) + [(e.rel, e.weight)];
      }
      if e.to == u && e.rel == rel {
        assert WithoutRel(es, u, rel) == rest;
      } else {
        assert WithoutRel(es, u, rel) == rest + [e];
        BetweenAppend(rest, e, v);
        if e.to != u {
          assert Between(es, u) == Between(Init(es), u);
        }
      }
    }
  }

  lemma DropRelAppend(ps: seq<(string, real)>, p: (string, real), rel: string)
    ensures DropRel(ps + [p], rel) == DropRel(ps, rel) + if p.0 == rel then [] else [p]
  {
    assert Init(ps + [p]) == ps;
  }

  ghost function Targets(es: seq<Edge>): set<int> {
    set e | e in es :: e.to
  }

  /** The two adjacency tables hold the same edges, one indexed by source, one by target. */
  ghost predicate Transposed(adj: Adjacency, radj: Adjacency) {
    forall u, v :: Mirrored(adj, radj, u, v)
  }

  /** The edges from `u` to `v` are listed alike at `u` and, reversed, at `v`. */
  ghost predicate Mirrored(adj: Adjacency, radj: Adjacency, u: int, v: int) {
    Between(Neighbors(adj, u), v) == Between(Neighbors(radj, v), u)
  }

  ghost predicate Endpoints(adj: Adjacency, nodes: set<int>) {
    forall u, e :: e in Neighbors(adj, u) ==> u in nodes && e.to in nodes
  }

  ghost function Degrees(adj: Adjacency): int -> nat {
    u => |Neighbors(adj, u)|
  }

  /** How many edges each node has to `id`. */
  ghost function Arrivals(adj: Adjacency, id: int): int -> nat {
    u => |Between(Neighbors(adj, u), id)|
  }

  /** How many edges the table stores. */
  ghost function Stored(adj: Adjacency): nat {
    Sum(adj.Keys, Degrees(adj))
  }

  lemma StoredUpdate(adj: Adjacency, u: int, es: seq<Edge>)
    ensures Stored(adj[u := es]) == Stored(adj) - |Neighbors(adj, u)| + |es|
  {
    var after := adj[u := es];
    var f, g := Degrees(adj), Degrees(after);
    var rest := adj.Keys - {u};
    assert after.Keys - {u} == rest;
    SumPick(after.Keys, g, u);
    SumEqual(rest, f, g);
    if u in adj {
      SumPick(adj.Keys, f, u);
    } else {
      assert rest == adj.Keys;
    }
  }

  /** A list splits by target. */
  lemma {:induction false} SumBetween(es: seq<Edge>, S: set<int>)
    requires forall e :: e in es ==> e.to in S
    ensures Sum(S, u => |Between(es, u)|) == |es|
  {
    var f := (u: int) => |Between(es, u)|;
    if es == [] {
      SumEqual(S, f, u => 0);
      SumZero(S);
    } else {
      var e, g := Last(es), (u: int) => |Between(Init(es), u)|;
      assert forall x :: x in Init(es) ==> x in es;
      SumBetween(Init(es), S);
      SumPick(S, f, e.to);
      SumPick(S, g, e.to);
      SumEqual(S - {e.to}, f, g);
    }
  }

  lemma {:induction false} SumZero(S: set<int>)
    ensures Sum(S, u => 0) == 0
    decreases |S|
  {
    if S != {} {
      var x := Pick(S);
      SumPick(S, u => 0, x);
      SumZero(S - {x});
    }
  }

  /** An edge listed at its target, self-loops apart, comes from a node with a list of its own. */
  lemma SourceIsKey(adj: Adjacency, radj: Adjacency, id: int, e: Edge)
    requires Transposed(adj, radj) && e in Without(Neighbors(radj, id), id)
    ensures e.to in adj.Keys - {id}
  {
    assert Mirrored(adj, radj, e.to, id);
    WithoutMembers(Neighbors(radj, id), id);
    BetweenEmpty(Neighbors(radj, id), e.to);
  }

  /** Counting the edges that lead to `id` by their sources or in the reverse list of `id` is one. */
  lemma IncomingCount(adj: Adjacency, radj: Adjacency, id: int)
    requires Transposed(adj, radj)
    ensures Sum(adj.Keys - {id}, Arrivals(adj, id)) == |Without(Neighbors(radj, id), id)|
  {
    var incoming := Without(Neighbors(radj, id), id);
    var S := adj.Keys - {id};
    forall e | e in incoming
      ensures e.to in S
    {
      SourceIsKey(adj, radj, id, e);
    }
    SumBetween(incoming, S);
    forall u | u in S
      ensures |Between(Neighbors(adj, u), id)| == |Between(incoming, u)|
    {
      assert Mirrored(adj, radj, u, id);
      BetweenWithout(Neighbors(radj, id), id, u);
    }
    SumEqual(S, Arrivals(adj, id), u => |Between(incoming, u)|);
  }

  /** `after` is `before` without node `id`. */
  ghost predicate Purged(before: Adjacency, after: Adjacency, id: int) {
    && after.Keys == before.Keys - {id}
    && forall u :: Neighbors(after, u) == if u == id then [] else Without(Neighbors(before, u), id)
  }

  /** What removing a node takes out of the store is its outgoing list and its incoming one,
      self-loops counted once. */
  lemma StoredPurged(adj: Adjacency, radj: Adjacency, after: Adjacency, id: int)
    requires Transposed(adj, radj) && Purged(adj, after, id)
    ensures Stored(adj) == Stored(after) + |Neighbors(adj, id)| + |Without(Neighbors(radj, id), id)|
  {
    var S := adj.Keys - {id};
    forall u | u in S
      ensures Degrees(adj)(u) == Degrees(after)(u) + Arrivals(adj, id)(u)
    {
      BetweenWithout(Neighbors(adj, u), id, id);
    }
    SumAdd(S, Degrees(after), Arrivals(adj, id), Degrees(adj));
    IncomingCount(adj, radj, id);
    if id in adj {
      SumPick(adj.Keys, Degrees(adj), id);
    } else {
      assert S == adj.Keys;
    }
  }

  lemma PurgedTransposed(adj: Adjacency, radj: Adjacency, adj': Adjacency, radj': Adjacency, id: int)
    requires Transposed(adj, radj) && Purged(adj, adj', id) && Purged(radj, radj', id)
    ensures Transposed(adj', radj')
  {
    forall u, v
      ensures Mirrored(adj', radj', u, v)
    {
      assert Mirrored(adj, radj, u, v);
      BetweenWithout(Neighbors(adj, u), id, v);
      BetweenWithout(Neighbors(radj, v), id, u);
    }
  }

  lemma PurgedEndpoints(adj: Adjacency, adj': Adjacency, id: int, nodes: set<int>)
    requires Endpoints(adj, nodes) && Purged(adj, adj', id)
    ensures Endpoints(adj', nodes - {id})
  {
    forall u, e | e in Neighbors(adj', u)
      ensures u in nodes - {id} && e.to in nodes - {id}
    {
      WithoutMembers(Neighbors(adj, u), id);
    }
  }

  /** `t` is `table` with the edges to `id` dropped from the list of every target in `es`. */
  ghost predicate PurgedAlong(table: Adjacency, t: Adjacency, es: seq<Edge>, id: int) {
    && t.Keys == table.Keys + Targets(es)
    && forall v {:trigger PurgedAt(table, t, es, id, v)} :: PurgedAt(table, t, es, id, v)
  }

  ghost predicate PurgedAt(table: Adjacency, t: Adjacency, es: seq<Edge>, id: int, v: int) {
    Neighbors(t, v) == if Between(es, v) == [] then Neighbors(table, v) else Without(Neighbors(table, v), id)
  }

  lemma PurgeStep(table: Adjacency, t: Adjacency, es: seq<Edge>, e: Edge, id: int)
    requires PurgedAlong(table, t, es, id)
    ensures PurgedAlong(table, t[e.to := Without(Neighbors(t, e.to), id)], es + [e], id)
  {
    hide Without, Between;
    var t' := t[e.to := Without(Neighbors(t, e.to), id)];
    WithoutTwice(Neighbors(table, e.to), id);
    forall v
      ensures PurgedAt(table, t', es + [e], id, v)
    {
      assert PurgedAt(table, t, es, id, v);
      BetweenAppend(es, e, v);
    }
    assert Targets(es + [e]) == Targets(es) + {e.to};
  }

  /** One loop of `remove_node`: for every entry of `es`, drops the edges to `id` from that entry's list. */
  method PurgeEach(table: Adjacency, es: seq<Edge>, id: int) returns (t: Adjacency)
    ensures PurgedAlong(table, t, es, id)
  {
    t := table;
    for i := 0 to |es|
      invariant PurgedAlong(table, t, es[..i], id)
    {
      assert es[..i + 1] == es[..i] + [es[i]];
      PurgeStep(table, t, es[..i], es[i], id);
      t := t[es[i].to := Without(Neighbors(t, es[i].to), id)];
    }
    assert es[..|es|] == es;
  }

  /** The first loop of `remove_node` leaves no edge from `id` in the reverse table. */
  lemma FirstPurge(adj: Adjacency, radj: Adjacency, radj': Adjacency, id: int)
    requires Transposed(adj, radj)
    requires PurgedAlong(radj, radj', Neighbors(adj, id), id)
    ensures radj'.Keys == radj.Keys
    ensures forall v :: Neighbors(radj', v) == Without(Neighbors(radj, v), id)
  {
    forall v
      ensures Neighbors(radj', v) == Without(Neighbors(radj, v), id)
    {
      assert Mirrored(adj, radj, id, v) && PurgedAt(radj, radj', Neighbors(adj, id), id, v);
      BetweenEmpty(Neighbors(radj, v), id);
    }
    TargetsAreKeys(adj, radj, id);
  }

  lemma TargetsAreKeys(adj: Adjacency, radj: Adjacency, id: int)
    requires Transposed(adj, radj)
    ensures forall e :: e in Neighbors(adj, id) ==> e.to in radj
  {
    forall e | e in Neighbors(adj, id)
      ensures e.to in radj
    {
      assert Mirrored(adj, radj, id, e.to);
      BetweenEmpty(Neighbors(adj, id), e.to);
    }
  }

  /** The second one takes the edges to `id` out of the forward table. */
  lemma SecondPurge(adj: Adjacency, radj: Adjacency, adj': Adjacency, id: int)
    requires Transposed(adj, radj)
    requires PurgedAlong(adj - {id}, adj', Without(Neighbors(radj, id), id), id)
    ensures Purged(adj, adj', id)
  {
    var incoming := Without(Neighbors(radj, id), id);
    forall u
      ensures Neighbors(adj', u) == if u == id then [] else Without(Neighbors(adj, u), id)
    {
      assert PurgedAt(adj - {id}, adj', Without(Neighbors(radj, id), id), id, u);
      IncomingFrom(adj, radj, id, u);
    }
    forall e | e in incoming
      ensures e.to in (adj - {id}).Keys
    {
      SourceIsKey(adj, radj, id, e);
    }
  }

  lemma IncomingFrom(adj: Adjacency, radj: Adjacency, id: int, u: int)
    requires Transposed(adj, radj)
    ensures Between(Without(Neighbors(radj, id), id), u) == if u == id then [] else Between(Neighbors(adj, u), id)
    ensures Between(Neighbors(adj, u), id) == [] ==> Without(Neighbors(adj, u), id) == Neighbors(adj, u)
  {
    assert Mirrored(adj, radj, u, id);
    BetweenWithout(Neighbors(radj, id), id, u);
    BetweenEmpty(Neighbors(adj, u), id);
  }

  /** What every operation keeps, whatever its callers pass. */
  ghost predicate WellFormed(meta: map<int, NodeMeta>, adj: Adjacency, radj: Adjacency, maxNodeId: int) {
    && Transposed(adj, radj) && meta.Keys <= adj.Keys
    && -1 <= maxNodeId && forall id :: id in meta ==> id <= maxNodeId
  }

  /** What every operation keeps besides, given callers that use ids from 0 on and add edges between nodes of
      the graph only. */
  ghost predicate Joins(meta: map<int, NodeMeta>, adj: Adjacency, radj: Adjacency) {
    && Endpoints(adj, meta.Keys) && Endpoints(radj, meta.Keys)
    && forall id :: id in meta ==> 0 <= id
  }

  function Touch(adj: Adjacency, id: int): Adjacency {
    if id in adj then adj else adj[id := []]
  }

  lemma TouchKeeps(adj: Adjacency, id: int)
    ensures forall u :: Neighbors(Touch(adj, id), u) == Neighbors(adj, u)
    ensures Stored(Touch(adj, id)) == Stored(adj)
  {
    StoredUpdate(adj, id, []);
  }

  lemma AddNodeKeeps(meta: map<int, NodeMeta>, adj: Adjacency, radj: Adjacency, maxNodeId: int, id: int, m: NodeMeta)
    requires WellFormed(meta, adj, radj, maxNodeId)
    ensures WellFormed(meta[id := m], Touch(adj, id), Touch(radj, id), if id > maxNodeId then id else maxNodeId)
    ensures Joins(meta, adj, radj) && 0 <= id ==> Joins(meta[id := m], Touch(adj, id), Touch(radj, id))
  {
    hide Transposed, Endpoints, Neighbors;
    TouchedTransposed(adj, radj, id);
    assert meta[id := m].Keys == meta.Keys + {id};
    if Joins(meta, adj, radj) && 0 <= id {
      TouchedEndpoints(adj, id, meta.Keys);
      TouchedEndpoints(radj, id, meta.Keys);
    }
  }

  lemma TouchedEndpoints(adj: Adjacency, id: int, nodes: set<int>)
    requires Endpoints(adj, nodes)
    ensures Endpoints(Touch(adj, id), nodes + {id})
  {
    TouchKeeps(adj, id);
  }

  lemma TouchedTransposed(adj: Adjacency, radj: Adjacency, id: int)
    requires Transposed(adj, radj)
    ensures Transposed(Touch(adj, id), Touch(radj, id))
  {
    TouchKeeps(adj, id);
    TouchKeeps(radj, id);
    SameLists(adj, radj, Touch(adj, id), Touch(radj, id));
  }

  lemma SameLists(adj: Adjacency, radj: Adjacency, adj': Adjacency, radj': Adjacency)
    requires Transposed(adj, radj)
    requires forall u :: Neighbors(adj', u) == Neighbors(adj, u)
    requires forall u :: Neighbors(radj', u) == Neighbors(radj, u)
    ensures Transposed(adj', radj')
  {
    forall u, v
      ensures Mirrored(adj', radj', u, v)
    {
      assert Mirrored(adj, radj, u, v);
    }
  }

  /** Both loops of `remove_node` together. */
  lemma RemoveNodeLoops(adj: Adjacency, radj: Adjacency, radj': Adjacency, adj': Adjacency, id: int)
    requires Transposed(adj, radj) && PurgedAlong(radj, radj', Neighbors(adj, id), id)
    requires PurgedAlong(adj - {id}, adj', Neighbors(radj', id), id)
    ensures Purged(adj, adj', id) && Purged(radj, radj' - {id}, id)
    ensures Stored(adj) == Stored(adj') + |Neighbors(adj, id)| + |Neighbors(radj', id)|
  {
    FirstPurge(adj, radj, radj', id);
    SecondPurge(adj, radj, adj', id);
    StoredPurged(adj, radj, adj', id);
  }

  /** The two loops, each skipped when the node has no list there; `dropped` is how far they lower
      the counter. */
  method PurgeIncident(adj: Adjacency, radj: Adjacency, id: int)
    returns (adj': Adjacency, radj': Adjacency, dropped: nat)
    requires Transposed(adj, radj)
    ensures Purged(adj, adj', id) && Purged(radj, radj', id)
    ensures Stored(adj) == Stored(adj') + dropped
  {
    adj', radj', dropped := adj, radj, 0;
    if id in adj {
      radj' := PurgeEach(radj, adj[id], id);
      dropped := |adj[id]|;
      adj' := adj - {id};
    }
    assert adj' == adj - {id};
    ghost var middle := radj';
    if id in radj' {
      adj' := PurgeEach(adj', radj'[id], id);
      dropped := dropped + |radj'[id]|;
      radj' := radj' - {id};
    }
    assert radj' == middle - {id};
    RemoveNodeLoops(adj, radj, middle, adj', id);
  }

  lemma RemoveNodeKeeps(meta: map<int, NodeMeta>, adj: Adjacency, radj: Adjacency, maxNodeId: int,
                        adj': Adjacency, radj': Adjacency, id: int)
    requires WellFormed(meta, adj, radj, maxNodeId) && Purged(adj, adj', id) && Purged(radj, radj', id)
    ensures WellFormed(meta - {id}, adj', radj', maxNodeId)
    ensures Joins(meta, adj, radj) ==> Joins(meta - {id}, adj', radj')
  {
    PurgedTransposed(adj, radj, adj', radj', id);
    if Joins(meta, adj, radj) {
      PurgedEndpoints(adj, adj', id, meta.Keys);
      PurgedEndpoints(radj, radj', id, meta.Keys);
    }
  }

  lemma AddEdgeKeeps(meta: map<int, NodeMeta>, adj: Adjacency, radj: Adjacency, maxNodeId: int,
                     u: int, v: int, rel: string, weight: real)
    requires WellFormed(meta, adj, radj, maxNodeId)
    ensures var adj', radj' := adj[u := Neighbors(adj, u) + [Edge(v, rel, weight)]],
                               radj[v := Neighbors(radj, v) + [Edge(u, rel, weight)]];
      && WellFormed(meta, adj', radj', maxNodeId)
      && (Joins(meta, adj, radj) && u in meta && v in meta ==> Joins(meta, adj', radj'))
  {
    AddedTransposed(adj, radj, u, v, rel, weight);
    if Joins(meta, adj, radj) && u in meta && v in meta {
      GrownEndpoints(adj, u, Edge(v, rel, weight), meta.Keys);
      GrownEndpoints(radj, v, Edge(u, rel, weight), meta.Keys);
    }
  }

  lemma GrownEndpoints(adj: Adjacency, u: int, e: Edge, nodes: set<int>)
    requires Endpoints(adj, nodes) && u in nodes && e.to in nodes
    ensures Endpoints(adj[u := Neighbors(adj, u) + [e]], nodes)
  {
    var adj' := adj[u := Neighbors(adj, u) + [e]];
    forall x, y | y in Neighbors(adj', x)
      ensures x in nodes && y.to in nodes
    {
      assert y in Neighbors(adj, x) || (x == u && y == e);
    }
  }

  lemma RemoveEdgeKeeps(meta: map<int, NodeMeta>, adj: Adjacency, radj: Adjacency, maxNodeId: int,
                        u: int, v: int, rel: string)
    requires WellFormed(meta, adj, radj, maxNodeId)
    ensures var adj', radj' := adj[u := WithoutRel(Neighbors(adj, u), v, rel)],
                               radj[v := WithoutRel(Neighbors(radj, v), u, rel)];
      WellFormed(meta, adj', radj', maxNodeId) && (Joins(meta, adj, radj) ==> Joins(meta, adj', radj'))
  {
    DroppedTransposed(adj, radj, u, v, rel);
    if Joins(meta, adj, radj) {
      ShrunkEndpoints(adj, u, v, rel, meta.Keys);
      ShrunkEndpoints(radj, v, u, rel, meta.Keys);
    }
  }

  lemma ShrunkEndpoints(adj: Adjacency, u: int, v: int, rel: string, nodes: set<int>)
    requires Endpoints(adj, nodes)
    ensures Endpoints(adj[u := WithoutRel(Neighbors(adj, u), v, rel)], nodes)
  {
    BetweenWithoutRel(Neighbors(adj, u), v, rel, v);
    var adj' := adj[u := WithoutRel(Neighbors(adj, u), v, rel)];
    forall x, y | y in Neighbors(adj', x)
      ensures x in nodes && y.to in nodes
    {
      assert y in Neighbors(adj, x);
    }
  }

  /** The two lists `remove_edge` touches lose equally many edges. */
  lemma RemoveEdgeCounts(adj: Adjacency, radj: Adjacency, u: int, v: int, rel: string)
    requires Transposed(adj, radj)
    ensures |Neighbors(adj, u)| - |WithoutRel(Neighbors(adj, u), v, rel)| == Parallel(adj, u, v, rel)
    ensures |Neighbors(radj, v)| - |WithoutRel(Neighbors(radj, v), u, rel)| == Parallel(adj, u, v, rel)
    ensures Stored(adj[u := WithoutRel(Neighbors(adj, u), v, rel)]) == Stored(adj) - Parallel(adj, u, v, rel)
  {
    BetweenWithoutRel(Neighbors(adj, u), v, rel, v);
    BetweenWithoutRel(Neighbors(radj, v), u, rel, u);
    StoredUpdate(adj, u, WithoutRel(Neighbors(adj, u), v, rel));
    assert Mirrored(adj, radj, u, v);
  }

  lemma AddedTransposed(adj: Adjacency, radj: Adjacency, u: int, v: int, rel: string, weight: real)
    requires Transposed(adj, radj)
    ensures Transposed(adj[u := Neighbors(adj, u) + [Edge(v, rel, weight)]], radj[v := Neighbors(radj, v) + [Edge(u, rel, weight)]])
  {
    var adj', radj' := adj[u := Neighbors(adj, u) + [Edge(v, rel, weight)]], radj[v := Neighbors(radj, v) + [Edge(u, rel, weight)]];
    forall x, y
      ensures Mirrored(adj', radj', x, y)
    {
      assert Mirrored(adj, radj, x, y);
      BetweenAppend(Neighbors(adj, u), Edge(v, rel, weight), y);
      BetweenAppend(Neighbors(radj, v), Edge(u, rel, weight), x);
    }
  }

  lemma DroppedTransposed(adj: Adjacency, radj: Adjacency, u: int, v: int, rel: string)
    requires Transposed(adj, radj)
    ensures Transposed(adj[u := WithoutRel(Neighbors(adj, u), v, rel)], radj[v := WithoutRel(Neighbors(radj, v), u, rel)])
  {
    var adj', radj' := adj[u := WithoutRel(Neighbors(adj, u), v, rel)], radj[v := WithoutRel(Neighbors(radj, v), u, rel)];
    forall x, y
      ensures Mirrored(adj', radj', x, y)
    {
      assert Mirrored(adj, radj, x, y);
      BetweenWithoutRel(Neighbors(adj, u), v, rel, y);
      BetweenWithoutRel(Neighbors(radj, v), u, rel, x);
    }
  }

  /** How many edges from `u` to `v` carry `rel`. */
  ghost function Parallel(adj: Adjacency, u: int, v: int, rel: string): int {
    |Between(Neighbors(adj, u), v)| - |DropRel(Between(Neighbors(adj, u), v), rel)|
  }

  /** ... one for every place in the list where such an edge stands. */
  lemma ParallelCounts(adj: Adjacency, u: int, v: int, rel: string)
    ensures Parallel(adj, u, v, rel) == |Places(Neighbors(adj, u), v, rel)|
  {
    DropsPlaces(Neighbors(adj, u), v, rel);
  }

  ghost function Places(es: seq<Edge>, v: int, rel: string): set<int> {
    set i | 0 <= i < |es| && es[i].to == v && es[i].rel == rel
  }

  lemma {:induction false} DropsPlaces(es: seq<Edge>, v: int, rel: string)
    ensures |Between(es, v)| - |DropRel(Between(es, v), rel)| == |Places(es, v, rel)|
  {
    if es == [] {
      assert Places(es, v, rel) == {};
    } else {
      hide Between, DropRel, Places;
      DropsPlaces(Init(es), v, rel);
      DropsLast(es, v, rel);
      LastPlace(es, v, rel);
    }
  }

  lemma DropsLast(es: seq<Edge>, v: int, rel: string)
    requires es != []
    ensures |Between(es, v)| - |DropRel(Between(es, v), rel)| ==
            |Between(Init(es), v)| - |DropRel(Between(Init(es), v), rel)| +
            if Last(es).to == v && Last(es).rel == rel then 1 else 0
  {
    var e := Last(es);
    assert es == Init(es) + [e];
    hide Between, DropRel;
    var before := Between(Init(es), v);
    BetweenAppend(Init(es), e, v);
    DropRelAppend(before, (e.rel, e.weight), rel);
    if e.to != v {
      assert Between(es, v) == before;
    }
  }

  lemma LastPlace(es: seq<Edge>, v: int, rel: string)
    requires es != []
    ensures |Places(es, v, rel)| == |Places(Init(es), v, rel)| + if Last(es).to == v && Last(es).rel == rel then 1 else 0
  {
    var before, n := Places(Init(es), v, rel), |es| - 1;
    var more := if Last(es).to == v && Last(es).rel == rel then {n} else {};
    assert n !in before;
    forall i
      ensures i in Places(es, v, rel) <==> i in before + more
    {
      assert 0 <= i < n ==> es[i] == Init(es)[i];
    }
    assert Places(es, v, rel) == before + more;
  }

  lemma EmptyStore()
    ensures Stored(map[]) == 0
  {
  }

  lemma OneParallel(adj: Adjacency)
    requires Neighbors(adj, 0) == [Edge(1, "r", 1.0)]
    ensures Parallel(adj, 0, 1, "r") == 1
  {
    var e := Edge(1, "r", 1.0);
    assert Neighbors(adj, 0) == [] + [e];
    BetweenAppend([], e, 1);
    assert Between([e], 1) == [] + [("r", 1.0)];
    DropRelAppend([], ("r", 1.0), "r");
  }

  class DynamicGraph {
    var meta: map<int, NodeMeta>
    var adj: Adjacency
    var radj: Adjacency
    var edgeCount: int
    var maxNodeId: int
    var dirty: bool

    ghost predicate Valid()
      reads this
    {
      WellFormed(meta, adj, radj, maxNodeId)
    }

    /** Edges join nodes of the graph, and ids are not negative. */
    ghost predicate Closed()
      reads this
    {
      Joins(meta, adj, radj)
    }

    /** The counter agrees with the store. */
    ghost predicate Counted()
      reads this
    {
      edgeCount == Stored(adj)
    }

    constructor ()
      ensures Valid() && Counted() && Closed()
      ensures meta == map[] && adj == map[] && radj == map[] && !dirty && maxNodeId == -1
    {
      meta, adj, radj := map[], map[], map[];
      edgeCount, maxNodeId, dirty := 0, -1, false;
    }

    method AddNode(id: int, labelText: string, props: string)
      requires Valid()
      modifies this
      ensures Valid() && dirty && (old(Closed()) && 0 <= id ==> Closed())
      ensures meta == old(meta)[id := NodeMeta(labelText, props)]
      ensures forall u :: Neighbors(adj, u) == old(Neighbors(adj, u))
      ensures forall u :: Neighbors(radj, u) == old(Neighbors(radj, u))
      ensures edgeCount == old(edgeCount) && Stored(adj) == old(Stored(adj))
      ensures maxNodeId == if id > old(maxNodeId) then id else old(maxNodeId)
    {
      hide WellFormed, Joins, Stored;
      AddNodeKeeps(meta, adj, radj, maxNodeId, id, NodeMeta(labelText, props));
      TouchKeeps(adj, id);
      TouchKeeps(radj, id);
      meta := meta[id := NodeMeta(labelText, props)];
      if id > maxNodeId {
        maxNodeId := id;
      }
      if id !in adj {
        adj := adj[id := []];
      }
      if id !in radj {
        radj := radj[id := []];
      }
      dirty := true;
    }

    /** Takes out exactly the edges at `id`, parallel ones and self-loops included. */
    method RemoveNode(id: int)
      requires Valid()
      modifies this
      ensures Valid() && dirty && (old(Closed()) ==> Closed())
      ensures meta == old(meta) - {id}
      ensures Purged(old(adj), adj, id) && Purged(old(radj), radj, id)
      ensures edgeCount - Stored(adj) == old(edgeCount - Stored(adj))
      ensures maxNodeId == old(maxNodeId)
    {
      var dropped;
      ghost var adj0, radj0 := adj, radj;
      adj, radj, dropped := PurgeIncident(adj, radj, id);
      edgeCount := edgeCount - dropped;
      RemoveNodeKeeps(meta, adj0, radj0, maxNodeId, adj, radj, id);
      meta := meta - {id};
      dirty := true;
    }

    method AddEdge(from: int, to: int, rel: string, weight: real)
      requires Valid()
      modifies this
      ensures Valid() && dirty && (old(Closed()) && from in meta && to in meta ==> Closed())
      ensures adj == old(adj)[from := old(Neighbors(adj, from)) + [Edge(to, rel, weight)]]
      ensures radj == old(radj)[to := old(Neighbors(radj, to)) + [Edge(from, rel, weight)]]
      ensures meta == old(meta) && maxNodeId == old(maxNodeId)
      ensures edgeCount == old(edgeCount) + 1 && Stored(adj) == old(Stored(adj)) + 1
    {
      AddEdgeKeeps(meta, adj, radj, maxNodeId, from, to, rel, weight);
      StoredUpdate(adj, from, Neighbors(adj, from) + [Edge(to, rel, weight)]);
      adj := adj[from := Neighbors(adj, from) + [Edge(to, rel, weight)]];
      radj := radj[to := Neighbors(radj, to) + [Edge(from, rel, weight)]];
      edgeCount := edgeCount + 1;
      dirty := true;
    }

    /** Drops every matching edge, but lowers the counter once for each of the two lists touched: the
        counter stays right exactly when there were no matching edges, or two of them. */
    method RemoveEdge(from: int, to: int, rel: string)
      requires Valid()
      modifies this
      ensures Valid() && dirty && (old(Closed()) ==> Closed())
      ensures adj == old(adj)[from := WithoutRel(old(Neighbors(adj, from)), to, rel)]
      ensures radj == old(radj)[to := WithoutRel(old(Neighbors(radj, to)), from, rel)]
      ensures meta == old(meta) && maxNodeId == old(maxNodeId)
      ensures Stored(adj) == old(Stored(adj) - Parallel(adj, from, to, rel))
      ensures edgeCount == old(edgeCount) - if old(Parallel(adj, from, to, rel)) == 0 then 0 else 2
      ensures old(Counted()) ==> (Counted() <==> old(Parallel(adj, from, to, rel)) in {0, 2})
    {
      assert Transposed(adj, radj);
      hide WellFormed, Joins, Stored, Parallel, Transposed;
      RemoveEdgeKeeps(meta, adj, radj, maxNodeId, from, to, rel);
      RemoveEdgeCounts(adj, radj, from, to, rel);
      var fs, ts := WithoutRel(Neighbors(adj, from), to, rel), WithoutRel(Neighbors(radj, to), from, rel);
      if |fs| != |Neighbors(adj, from)| {
        edgeCount := edgeCount - 1;
      }
      if |ts| != |Neighbors(radj, to)| {
        edgeCount := edgeCount - 1;
      }
      adj, radj := adj[from := fs], radj[to := ts];
      dirty := true;
    }

    method ClearDirty()
      requires Valid()
      modifies `dirty
      ensures Valid() && !dirty && (old(Closed()) ==> Closed())
    {
      dirty := false;
    }

    /** One edge, added and removed: nothing is stored, and the counter stands at -1. */
    static method OneEdgeMiscounts() returns (g: DynamicGraph)
      ensures fresh(g) && g.Valid() && Stored(g.adj) == 0 && g.edgeCount == -1 && !g.Counted()
    {
      hide DynamicGraph.Valid, DynamicGraph.Closed, Stored, Parallel, WithoutRel;
      g := new DynamicGraph();
      EmptyStore();
      g.AddNode(0, "", "");
      g.AddNode(1, "", "");
      g.AddEdge(0, 1, "r", 1.0);
      assert Neighbors(g.adj, 0) == [Edge(1, "r", 1.0)];
      assert g.edgeCount == 1 && Stored(g.adj) == 1;
      OneParallel(g.adj);
      g.RemoveEdge(0, 1, "r");
    }

    method HasEdge(from: int, to: int) returns (b: bool)
      ensures b <==> exists e :: e in Neighbors(adj, from) && e.to == to
    {
      if from !in adj {
        return false;
      }
      for i := 0 to |adj[from]|
        invariant forall j :: 0 <= j < i ==> adj[from][j].to != to
      {
        if adj[from][i].to == to {
          assert adj[from][i] in Neighbors(adj, from);
          return true;
        }
      }
      return false;
    }
  }
}
