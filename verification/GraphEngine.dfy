/** The graph engine: the mutable graph, the compressed copy it caches, and the property index. */
module GraphEngines {
  import opened Sets
  import opened Walks
  import opened DynamicGraphs
  import opened Csr
  import opened PropertyIndexes
  import opened Options
  import Bfs

  datatype NodeRow = NodeRow(id: int, labelText: string, props: string)

  datatype EdgeRow = EdgeRow(from: int, to: int, rel: string, weight: real)

  /** Every node once, with its metadata. */
  ghost predicate ListsNodes(rows: seq<NodeRow>, meta: map<int, NodeMeta>) {
    && |rows| == |meta|
    && (forall i {:trigger rows[i]} :: 0 <= i < |rows| ==>
          rows[i].id in meta && meta[rows[i].id] == NodeMeta(rows[i].labelText, rows[i].props))
    && (forall i, j :: 0 <= i < j < |rows| ==> rows[i].id != rows[j].id)
    && (forall id :: id in meta ==> exists i :: 0 <= i < |rows| && rows[i].id == id)
  }

  function Rows(from: int, es: seq<Edge>): seq<EdgeRow> {
    if es == [] then [] else Rows(from, Init(es)) + [EdgeRow(from, Last(es).to, Last(es).rel, Last(es).weight)]
  }

  /** The adjacency lists of `sources`, one after the other. */
  function RowsAlong(adj: Adjacency, sources: seq<int>): seq<EdgeRow> {
    if sources == [] then [] else RowsAlong(adj, Init(sources)) + Rows(Last(sources), Neighbors(adj, Last(sources)))
  }

  lemma NoRows(adj: Adjacency)
    ensures RowsAlong(adj, []) == [] && forall from :: Rows(from, []) == []
  {
  }

  lemma NextRow(from: int, es: seq<Edge>, k: nat)
    requires k < |es|
    ensures Rows(from, es[..k + 1]) == Rows(from, es[..k]) + [EdgeRow(from, es[k].to, es[k].rel, es[k].weight)]
  {
    assert Init(es[..k + 1]) == es[..k];
  }

  lemma NextSource(adj: Adjacency, sources: seq<int>, n: nat)
    requires n < |sources|
    ensures RowsAlong(adj, sources[..n + 1]) == RowsAlong(adj, sources[..n]) + Rows(sources[n], Neighbors(adj, sources[n]))
  {
    assert Init(sources[..n + 1]) == sources[..n];
  }

  /** `sources` lists `ids`, each once. */
  ghost predicate Enumerates(sources: seq<int>, ids: set<int>) {
    && (forall id :: id in sources <==> id in ids)
    && (forall i, j :: 0 <= i < j < |sources| ==> sources[i] != sources[j])
  }

  /** Every node's list, whole and in order; the nodes in some order. */
  ghost predicate ListsEdges(rows: seq<EdgeRow>, adj: Adjacency) {
    exists sources :: Enumerates(sources, adj.Keys) && rows == RowsAlong(adj, sources)
  }

  /** A sound graph meets what the searches ask of it. */
  lemma GraphIsSearchable(g: DynamicGraph, src: int)
    requires g.Valid() && g.Closed() && src in g.meta
    ensures 0 <= src <= g.maxNodeId && Bfs.Below(g.adj, g.maxNodeId + 1) && NoSentinel(g.adj, src)
    ensures Endpoints(g.adj, g.meta.Keys) && Known(g.adj, g.meta.Keys) && forall id :: id in g.meta ==> 0 <= id
  {
    assert src in g.meta.Keys;
    forall u, e | e in Neighbors(g.adj, u)
      ensures 0 <= e.to < g.maxNodeId + 1
    {
      assert e.to in g.meta.Keys;
    }
    Bfs.RangeHasNoSentinel(g.adj, g.maxNodeId + 1, src);
  }

  /** Taking ids one by one in some order, as iteration over a hash table does. */
  method InSomeOrder(ids: set<int>) returns (order: seq<int>)
    ensures Enumerates(order, ids) && |order| == |ids|
  {
    order := [];
    var rest := ids;
    while rest != {}
      invariant rest <= ids && Enumerates(order, ids - rest) && |order| + |rest| == |ids|
      decreases |rest|
    {
      ghost var some := Pick(rest);
      assert some in rest;
      var id :| id in rest;
      order, rest := order + [id], rest - {id};
    }
    assert ids - rest == ids;
  }

  class GraphEngine {
    const graph: DynamicGraph
    const propIndex: PropertyIndex
    var csr: CsrGraph

    ghost predicate Apart()
      reads this, propIndex
    {
      var all: set<object> := propIndex.repr;
      this !in all && graph !in all && propIndex !in all
    }

    /** A clean graph is the one the cached copy was made of. Nothing is asked of ids and edges. */
    ghost predicate Valid()
      reads this, graph, propIndex, propIndex.repr
    {
      && Apart() && graph.Valid() && propIndex.Valid()
      && (!graph.dirty ==> Copies(csr, graph.meta, graph.adj))
    }

    constructor ()
      ensures Valid() && graph.Counted() && graph.Closed() && graph.meta == map[] && graph.adj == map[] && propIndex.Table() == map[]
      ensures fresh(graph) && fresh(propIndex) && propIndex.repr == {}
    {
      graph := new DynamicGraph();
      propIndex := new PropertyIndex();
      csr := EMPTY_CSR;
      new;
      EmptyCopies(graph.adj);
    }

    method AddNode(id: int, labelText: string, props: string)
      requires Valid()
      modifies graph
      ensures Valid() && (old(graph.Closed()) && 0 <= id ==> graph.Closed())
      ensures graph.meta == old(graph.meta)[id := NodeMeta(labelText, props)]
      ensures forall u :: Neighbors(graph.adj, u) == old(Neighbors(graph.adj, u))
      ensures graph.edgeCount - Stored(graph.adj) == old(graph.edgeCount - Stored(graph.adj))
    {
      graph.AddNode(id, labelText, props);
    }

    /** Takes out the node, the edges at it, and, when there is such a node, all its indexed values. */
    method RemoveNode(id: int)
      requires Valid()
      modifies graph, propIndex, propIndex.repr
      ensures Valid() && (old(graph.Closed()) ==> graph.Closed())
      ensures propIndex.repr == old(propIndex.repr) && graph.meta == old(graph.meta) - {id}
      ensures Purged(old(graph.adj), graph.adj, id) && Purged(old(graph.radj), graph.radj, id)
      ensures graph.edgeCount - Stored(graph.adj) == old(graph.edgeCount - Stored(graph.adj))
      ensures forall k, i :: ValueOf(propIndex.Table(), k, i) ==
                if i == id && id in old(graph.meta) then None else old(ValueOf(propIndex.Table(), k, i))
    {
      if id in graph.meta {
        propIndex.RemoveNode(graph.meta[id].labelText, id);
      }
      graph.RemoveNode(id);
    }

    method AddEdge(from: int, to: int, rel: string, weight: real)
      requires Valid()
      modifies graph
      ensures Valid() && (old(graph.Closed()) && from in graph.meta && to in graph.meta ==> graph.Closed())
      ensures graph.meta == old(graph.meta)
      ensures graph.adj == old(graph.adj)[from := old(Neighbors(graph.adj, from)) + [Edge(to, rel, weight)]]
      ensures graph.edgeCount == old(graph.edgeCount) + 1 && Stored(graph.adj) == old(Stored(graph.adj)) + 1
    {
      graph.AddEdge(from, to, rel, weight);
    }

    method RemoveEdge(from: int, to: int, rel: string)
      requires Valid()
      modifies graph
      ensures Valid() && (old(graph.Closed()) ==> graph.Closed()) && graph.meta == old(graph.meta)
      ensures graph.adj == old(graph.adj)[from := WithoutRel(old(Neighbors(graph.adj, from)), to, rel)]
    {
      graph.RemoveEdge(from, to, rel);
    }

    /** The copy handed out is always one of the current graph, and says exactly what it says if and only if no
        edge of a node dangles. Negative ids would fall outside its table. */
    method CsrOf() returns (c: CsrGraph)
      requires Valid() && forall id :: id in graph.meta ==> 0 <= id
      modifies this`csr, graph`dirty
      ensures Valid() && c == csr && Copies(c, graph.meta, graph.adj) && !graph.dirty
      ensures Represents(c, graph.meta, graph.adj) <==> Known(graph.adj, graph.meta.Keys)
      ensures !old(graph.dirty) ==> csr == old(csr)
    {
      if graph.dirty {
        Compact();
      }
      c := csr;
      FaithfulIffKnown(c, graph.meta, graph.adj);
    }

    method Compact()
      requires Valid() && forall id :: id in graph.meta ==> 0 <= id
      modifies this`csr, graph`dirty
      ensures Valid() && !graph.dirty
    {
      hide PropertyIndex.Valid, DynamicGraph.Valid, DynamicGraph.Closed, Copies;
      csr := BuildCsr(graph.meta, graph.adj);
      graph.ClearDirty();
    }

    method AllNodes() returns (rows: seq<NodeRow>)
      requires Valid()
      ensures ListsNodes(rows, graph.meta)
    {
      var ids := InSomeOrder(graph.meta.Keys);
      rows := [];
      for n := 0 to |ids|
        invariant |rows| == n && forall i :: 0 <= i < n ==>
                    ids[i] in graph.meta && rows[i] == NodeRow(ids[i], graph.meta[ids[i]].labelText, graph.meta[ids[i]].props)
      {
        assert ids[n] in ids;
        var m := graph.meta[ids[n]];
        rows := rows + [NodeRow(ids[n], m.labelText, m.props)];
      }
      forall id | id in graph.meta
        ensures exists i :: 0 <= i < |rows| && rows[i].id == id
      {
        assert id in ids;
        var i :| 0 <= i < |ids| && ids[i] == id;
        assert rows[i].id == id;
      }
    }

    method AllEdges() returns (rows: seq<EdgeRow>)
      requires Valid()
      ensures ListsEdges(rows, graph.adj)
    {
      hide GraphEngine.Valid, RowsAlong, Rows;
      var sources := InSomeOrder(graph.adj.Keys);
      rows := [];
      NoRows(graph.adj);
      assert sources[..0] == [];
      for n := 0 to |sources|
        invariant rows == RowsAlong(graph.adj, sources[..n])
      {
        assert sources[n] in sources;
        NextSource(graph.adj, sources, n);
        var es := graph.adj[sources[n]];
        ghost var before := rows;
        assert es[..0] == [];
        for k := 0 to |es|
          invariant rows == before + Rows(sources[n], es[..k])
        {
          NextRow(sources[n], es, k);
          rows := rows + [EdgeRow(sources[n], es[k].to, es[k].rel, es[k].weight)];
        }
        assert es[..|es|] == es;
      }
      assert sources[..|sources|] == sources;
    }

    method IndexProperty(labelText: string, prop: string, value: real, id: int)
      requires Valid()
      modifies propIndex, propIndex.repr
      ensures Valid() && old(propIndex.repr) <= propIndex.repr && fresh(propIndex.repr - old(propIndex.repr))
      ensures forall k, i :: ValueOf(propIndex.Table(), k, i) ==
                if k == MakeKey(labelText, prop) && i == id then Some(value) else old(ValueOf(propIndex.Table(), k, i))
    {
      propIndex.Add(labelText, prop, value, id);
    }

    method RangeQuery(labelText: string, prop: string, lo: real, hi: real) returns (ids: seq<int>)
      requires Valid()
      ensures InRange(propIndex.Table(), MakeKey(labelText, prop), lo, hi, ids)
    {
      ids := propIndex.Range(labelText, prop, lo, hi);
    }
  }
}
