/** The compressed sparse row copy of a graph, and how it is built. */
module Csr {
  import opened Sets
  import opened Walks
  import opened DynamicGraphs

  datatype CsrGraph = CsrGraph(nodeCount: nat, edgeCount: nat, idToIdx: seq<int>, idxToId: seq<int>,
                               offsets: seq<int>, targets: seq<int>, weights: seq<real>,
                               labels: seq<string>, props: seq<string>, relTypes: seq<string>)
  {
    /** -1 when the id is not in the graph. */
    function ToIdx(id: int): int {
      if id < 0 || id >= |idToIdx| then -1 else idToIdx[id]
    }
  }

  /** A default-initialised copy: the copy of the empty graph. */
  const EMPTY_CSR := CsrGraph(0, 0, [], [], [], [], [], [], [], [])

  ghost predicate Increasing(ids: seq<int>) {
    forall i, j :: 0 <= i < j < |ids| ==> ids[i] < ids[j]
  }

  /** `idToIdx` and `idxToId` are inverse to each other, and the indices follow the order of the ids. */
  ghost predicate Indexed(c: CsrGraph, nodes: set<int>) {
    && |c.idxToId| == c.nodeCount && Increasing(c.idxToId)
    && (forall i :: 0 <= i < c.nodeCount ==> c.idxToId[i] in nodes && c.ToIdx(c.idxToId[i]) == i)
    && (forall id :: id in nodes ==> 0 <= c.ToIdx(id) < c.nodeCount && c.idxToId[c.ToIdx(id)] == id)
    && (forall id :: id !in nodes ==> c.ToIdx(id) == -1)
  }

  /** Where node `i`'s slice begins: its predecessors' degrees added up. */
  ghost function Offset(adj: Adjacency, ids: seq<int>, i: nat): nat
    requires i <= |ids|
  {
    if i == 0 then 0 else Offset(adj, ids, i - 1) + |Neighbors(adj, ids[i - 1])|
  }

  /** Slot `p` holds edge `e`. */
  ghost predicate Holds(c: CsrGraph, p: int, e: Edge) {
    && 0 <= p < |c.targets| == |c.weights| == |c.relTypes|
    && c.targets[p] == c.ToIdx(e.to) && c.weights[p] == e.weight && c.relTypes[p] == e.rel
  }

  /** The slice of index `i` lists the edges of its node, in order. */
  ghost predicate Slice(c: CsrGraph, adj: Adjacency, i: nat) {
    && i < |c.idxToId| && i + 1 < |c.offsets|
    && 0 <= c.offsets[i] && c.offsets[i + 1] == c.offsets[i] + |Neighbors(adj, c.idxToId[i])| <= c.edgeCount
    && forall k {:trigger Neighbors(adj, c.idxToId[i])[k]} :: 0 <= k < |Neighbors(adj, c.idxToId[i])| ==>
         Holds(c, c.offsets[i] + k, Neighbors(adj, c.idxToId[i])[k])
  }

  /** The copy says exactly what the graph says. */
  ghost predicate Represents(c: CsrGraph, meta: map<int, NodeMeta>, adj: Adjacency) {
    && Indexed(c, meta.Keys)
    && |c.targets| == |c.weights| == |c.relTypes| == c.edgeCount
    && (c.nodeCount > 0 ==> |c.offsets| == c.nodeCount + 1 && c.offsets[0] == 0 && c.offsets[c.nodeCount] == c.edgeCount)
    && (c.nodeCount == 0 ==> c.edgeCount == 0)
    && (forall i {:trigger Slice(c, adj, i)} :: 0 <= i < c.nodeCount ==> Slice(c, adj, i))
    && |c.labels| == |c.props| == c.nodeCount
    && (forall i :: 0 <= i < c.nodeCount && c.idxToId[i] in meta ==>
          NodeMeta(c.labels[i], c.props[i]) == meta[c.idxToId[i]])
  }

  /** What a slot of the edge arrays holds, and how often it was written. */
  datatype Slot = Slot(target: int, weight: real, rel: string, writes: nat)

  /** A slot as `resize` leaves it. */
  const BLANK := Slot(0, 0.0, "", 0)

  /** The slots the fill writes for a list: one for each edge to a node of the graph, in order. */
  function KeptSlots(c: CsrGraph, es: seq<Edge>): (slots: seq<Slot>)
    ensures |slots| <= |es| && forall k :: 0 <= k < |slots| ==> slots[k].target >= 0
  {
    if es == [] then [] else
      var e := Last(es);
      KeptSlots(c, Init(es)) + if c.ToIdx(e.to) >= 0 then [Slot(c.ToIdx(e.to), e.weight, e.rel, 1)] else []
  }

  function Blanks(n: nat): seq<Slot> {
    seq(n, _ => BLANK)
  }

  /** A list's whole slice: a slot is counted for every edge, and those of dangling edges stay as they were. */
  function Laid(c: CsrGraph, es: seq<Edge>): (slots: seq<Slot>)
    ensures |slots| == |es| && forall k :: 0 <= k < |slots| ==> slots[k].target >= 0
  {
    KeptSlots(c, es) + Blanks(|es| - |KeptSlots(c, es)|)
  }

  ghost predicate SlotIs(targets: seq<int>, weights: seq<real>, rels: seq<string>, p: int, slot: Slot) {
    && 0 <= p < |targets| == |weights| == |rels|
    && targets[p] == slot.target && weights[p] == slot.weight && rels[p] == slot.rel
  }

  /** The slice of index `i` is laid out from its node's list. */
  ghost predicate LaidOut(c: CsrGraph, adj: Adjacency, i: nat) {
    && i < |c.idxToId| && i + 1 < |c.offsets|
    && 0 <= c.offsets[i] && c.offsets[i + 1] == c.offsets[i] + |Neighbors(adj, c.idxToId[i])| <= c.edgeCount
    && forall k {:trigger Laid(c, Neighbors(adj, c.idxToId[i]))[k]} :: 0 <= k < |Neighbors(adj, c.idxToId[i])| ==>
         SlotIs(c.targets, c.weights, c.relTypes, c.offsets[i] + k, Laid(c, Neighbors(adj, c.idxToId[i]))[k])
  }

  /** What `build_csr` makes of any graph, edges to ids without metadata included. */
  ghost predicate Copies(c: CsrGraph, meta: map<int, NodeMeta>, adj: Adjacency) {
    && Indexed(c, meta.Keys)
    && |c.targets| == |c.weights| == |c.relTypes| == c.edgeCount
    && (c.nodeCount > 0 ==> |c.offsets| == c.nodeCount + 1 && c.offsets[0] == 0 && c.offsets[c.nodeCount] == c.edgeCount)
    && (c.nodeCount == 0 ==> c.edgeCount == 0)
    && (forall i {:trigger LaidOut(c, adj, i)} :: 0 <= i < c.nodeCount ==> LaidOut(c, adj, i))
    && |c.labels| == |c.props| == c.nodeCount
    && (forall i :: 0 <= i < c.nodeCount && c.idxToId[i] in meta ==>
          NodeMeta(c.labels[i], c.props[i]) == meta[c.idxToId[i]])
  }

  /** What the copy says of one node: its place among the ids, and its metadata there. */
  lemma CopyTellsNode(c: CsrGraph, meta: map<int, NodeMeta>, adj: Adjacency, id: int, other: int)
    requires Copies(c, meta, adj) && id in meta && other in meta
    ensures var i, j := c.ToIdx(id), c.ToIdx(other);
      && 0 <= i < c.nodeCount && 0 <= j < c.nodeCount && (i < j <==> id < other)
      && c.idxToId[i] == id && c.labels[i] == meta[id].labelText && c.props[i] == meta[id].props
  {
    assert id in meta.Keys && other in meta.Keys;
  }

  lemma EmptyCopies(adj: Adjacency)
    ensures Copies(EMPTY_CSR, map[], adj)
  {
  }

  /** The edges of nodes of the graph lead to nodes of the graph. */
  ghost predicate Known(adj: Adjacency, nodes: set<int>) {
    forall u, e {:trigger e in Neighbors(adj, u)} :: u in nodes && e in Neighbors(adj, u) ==> e.to in nodes
  }

  /** When no edge dangles, every edge has its slot. */
  lemma {:induction false} AllKept(c: CsrGraph, es: seq<Edge>, k: nat)
    requires (forall e :: e in es ==> c.ToIdx(e.to) >= 0) && k < |es|
    ensures |KeptSlots(c, es)| == |es|
    ensures KeptSlots(c, es)[k] == Slot(c.ToIdx(es[k].to), es[k].weight, es[k].rel, 1)
  {
    assert es == Init(es) + [Last(es)];
    if Init(es) != [] {
      AllKept(c, Init(es), if k + 1 < |es| then k else 0);
    }
  }

  /** The copy says exactly what the graph says if and only if no edge of a node dangles. */
  lemma FaithfulIffKnown(c: CsrGraph, meta: map<int, NodeMeta>, adj: Adjacency)
    requires Copies(c, meta, adj)
    ensures Represents(c, meta, adj) <==> Known(adj, meta.Keys)
  {
    if Known(adj, meta.Keys) {
      forall i | 0 <= i < c.nodeCount
        ensures Slice(c, adj, i)
      {
        SliceIfKnown(c, meta.Keys, adj, i);
      }
    }
    if Represents(c, meta, adj) {
      forall u, e | u in meta.Keys && e in Neighbors(adj, u)
        ensures e.to in meta.Keys
      {
        KnownIfSlice(c, meta.Keys, adj, u, e);
      }
    }
  }

  /** An edge to an id without metadata: the copy of one node holds an edge from the node to itself instead. */
  lemma DanglingBecomesLoop(c: CsrGraph, m: NodeMeta)
    requires Copies(c, map[0 := m], map[0 := [Edge(5, "r", 1.0)]])
    ensures c.nodeCount == 1 && c.edgeCount == 1 && c.idxToId == [0] && c.targets == [0] && c.weights == [0.0]
    ensures !Represents(c, map[0 := m], map[0 := [Edge(5, "r", 1.0)]])
  {
    var meta, adj := map[0 := m], map[0 := [Edge(5, "r", 1.0)]];
    var es := [Edge(5, "r", 1.0)];
    assert 0 in meta.Keys && 5 !in meta.Keys;
    forall i | 0 <= i < c.nodeCount
      ensures c.idxToId[i] == 0 && c.ToIdx(c.idxToId[i]) == i
    {
      assert c.idxToId[i] in meta.Keys;
    }
    assert 0 <= c.ToIdx(0) < c.nodeCount;
    assert c.idxToId[0] == c.idxToId[c.nodeCount - 1] == 0;
    assert c.idxToId == [0];
    assert LaidOut(c, adj, 0);
    assert Init(es) == [] && KeptSlots(c, es) == [];
    assert Laid(c, es)[0] == BLANK;
    assert SlotIs(c.targets, c.weights, c.relTypes, 0, Laid(c, es)[0]);
    assert es[0] in Neighbors(adj, 0);
    FaithfulIffKnown(c, meta, adj);
  }

  lemma SliceIfKnown(c: CsrGraph, nodes: set<int>, adj: Adjacency, i: nat)
    requires Indexed(c, nodes) && i < c.nodeCount && LaidOut(c, adj, i) && Known(adj, nodes)
    ensures Slice(c, adj, i)
  {
    var es := Neighbors(adj, c.idxToId[i]);
    assert forall e :: e in es ==> e.to in nodes;
    forall k | 0 <= k < |es|
      ensures Holds(c, c.offsets[i] + k, es[k])
    {
      AllKept(c, es, k);
      assert SlotIs(c.targets, c.weights, c.relTypes, c.offsets[i] + k, Laid(c, es)[k]);
    }
  }

  lemma KnownIfSlice(c: CsrGraph, nodes: set<int>, adj: Adjacency, u: int, e: Edge)
    requires Indexed(c, nodes) && u in nodes && e in Neighbors(adj, u)
    requires Slice(c, adj, c.ToIdx(u)) && LaidOut(c, adj, c.ToIdx(u))
    ensures e.to in nodes
  {
    var i, es := c.ToIdx(u), Neighbors(adj, u);
    var k :| 0 <= k < |es| && es[k] == e;
    assert Holds(c, c.offsets[i] + k, es[k]);
    assert SlotIs(c.targets, c.weights, c.relTypes, c.offsets[i] + k, Laid(c, es)[k]);
  }

  ghost predicate IsLeast(s: set<int>, m: int) {
    m in s && forall x :: x in s ==> m <= x
  }

  lemma HasLeast(s: set<int>)
    requires s != {}
    ensures exists m :: IsLeast(s, m)
    decreases |s|
  {
    var x := Pick(s);
    if s == {x} {
      assert IsLeast(s, x);
    } else {
      HasLeast(s - {x});
      var m :| IsLeast(s - {x}, m);
      assert forall y :: y in s ==> y == x || y in s - {x};
      assert IsLeast(s, if m < x then m else x);
    }
  }

  /** The ids in increasing order, as `std::sort` leaves them. */
  method SortedIds(s: set<int>) returns (ids: seq<int>)
    ensures Increasing(ids) && forall id :: id in ids <==> id in s
  {
    ids := [];
    var rest := s;
    while rest != {}
      invariant rest <= s && Increasing(ids)
      invariant forall id :: id in s <==> id in ids || id in rest
      invariant forall i, id :: 0 <= i < |ids| && id in rest ==> ids[i] < id
    {
      HasLeast(rest);
      var m :| m in rest && forall x :: x in rest ==> m <= x;
      ids, rest := ids + [m], rest - {m};
    }
  }

  /** Fills `idToIdx`, -1 where there is no node. */
  method BuildIndex(ids: seq<int>) returns (idToIdx: seq<int>)
    requires Increasing(ids) && forall id :: id in ids ==> 0 <= id
    ensures forall i :: 0 <= i < |ids| ==> 0 <= ids[i] < |idToIdx| && idToIdx[ids[i]] == i
    ensures forall id :: 0 <= id < |idToIdx| && id !in ids ==> idToIdx[id] == -1
  {
    var maxId := if |ids| == 0 then 0 else ids[|ids| - 1];
    assert forall i :: 0 <= i < |ids| ==> ids[i] in ids && ids[i] <= maxId;
    var table := new int[maxId + 1](_ => -1);
    for i := 0 to |ids|
      invariant forall j :: 0 <= j < i ==> table[ids[j]] == j
      invariant forall id :: 0 <= id < table.Length && id !in ids ==> table[id] == -1
    {
      assert ids[i] in ids;
      table[ids[i]] := i;
    }
    idToIdx := table[..];
  }

  /** The degree of each index; the adjacency lists are met in no particular order. */
  method CountDegrees(c: CsrGraph, meta: map<int, NodeMeta>, adj: Adjacency) returns (degree: seq<int>)
    requires Indexed(c, meta.Keys)
    ensures |degree| == c.nodeCount
    ensures forall i :: 0 <= i < c.nodeCount ==> degree[i] == |Neighbors(adj, c.idxToId[i])|
  {
    var counts := new int[c.nodeCount](_ => 0);
    var rest := adj.Keys;
    while rest != {}
      invariant rest <= adj.Keys
      invariant forall i :: 0 <= i < c.nodeCount ==>
                  counts[i] == if c.idxToId[i] in rest then 0 else |Neighbors(adj, c.idxToId[i])|
    {
      ghost var some := Pick(rest);
      var id :| id in rest;
      var idx := c.ToIdx(id);
      if idx >= 0 {
        assert id in meta;
        counts[idx] := |adj[id]|;
      }
      rest := rest - {id};
    }
    degree := counts[..];
  }

  method PrefixSums(ghost adj: Adjacency, ghost ids: seq<int>, degree: seq<int>) returns (offsets: seq<int>)
    requires |degree| == |ids|
    requires forall i :: 0 <= i < |ids| ==> degree[i] == |Neighbors(adj, ids[i])|
    ensures |offsets| == |degree| + 1
    ensures forall i {:trigger offsets[i]} :: 0 <= i <= |degree| ==> offsets[i] == Offset(adj, ids, i)
  {
    var sums := new int[|degree| + 1];
    sums[0] := 0;
    for i := 0 to |degree|
      invariant forall j {:trigger sums[j]} :: 0 <= j <= i ==> sums[j] == Offset(adj, ids, j)
    {
      assert Offset(adj, ids, i + 1) == sums[i] + degree[i];
      sums[i + 1] := sums[i] + degree[i];
    }
    offsets := sums[..];
  }

  /** Slices do not overlap. */
  lemma {:induction false} OffsetsGrow(adj: Adjacency, ids: seq<int>, i: nat, j: nat)
    requires i < j <= |ids|
    ensures Offset(adj, ids, i) + |Neighbors(adj, ids[i])| <= Offset(adj, ids, j)
    decreases j
  {
    if i + 1 < j {
      OffsetsGrow(adj, ids, i, j - 1);
    }
  }

  /** From `lo` on, the arrays and the write counts are as `slots` say. */
  ghost predicate SliceIs(targets: seq<int>, weights: seq<real>, rels: seq<string>, writes: seq<nat>, lo: int, slots: seq<Slot>) {
    forall k {:trigger slots[k]} :: 0 <= k < |slots| ==>
      SlotIs(targets, weights, rels, lo + k, slots[k]) && lo + k < |writes| && writes[lo + k] == slots[k].writes
  }

  /** Outside `n` slots from `lo` on nothing changed. */
  ghost predicate SameBut(t0: seq<int>, w0: seq<real>, r0: seq<string>, n0: seq<nat>,
                          t1: seq<int>, w1: seq<real>, r1: seq<string>, n1: seq<nat>, lo: int, n: int) {
    && |t0| == |w0| == |r0| == |n0| == |t1| == |w1| == |r1| == |n1|
    && forall p :: 0 <= p < |t0| && !(lo <= p < lo + n) ==>
         t1[p] == t0[p] && w1[p] == w0[p] && r1[p] == r0[p] && n1[p] == n0[p]
  }

  /** The inner loop of the fill: one adjacency list, through the cursor of its node. Edges to ids without an
      index are passed over. `writes0` counts the writes to each slot so far. */
  method FillOne(c: CsrGraph, es: seq<Edge>, from: int, cursor: array<int>,
                 targets: array<int>, weights: array<real>, rels: array<string>, ghost writes0: seq<nat>)
    returns (ghost writes: seq<nat>)
    requires 0 <= from < cursor.Length && 0 <= cursor[from] && cursor[from] + |es| <= targets.Length
    requires targets.Length == weights.Length == rels.Length == |writes0| && cursor != targets
    requires SliceIs(targets[..], weights[..], rels[..], writes0, cursor[from], Blanks(|es|))
    modifies cursor, targets, weights, rels
    ensures cursor[..] == old(cursor[..])[from := old(cursor[from]) + |KeptSlots(c, es)|]
    ensures SliceIs(targets[..], weights[..], rels[..], writes, old(cursor[from]), Laid(c, es))
    ensures SameBut(old(targets[..]), old(weights[..]), old(rels[..]), writes0,
                    targets[..], weights[..], rels[..], writes, old(cursor[from]), |es|)
  {
    hide SliceIs, SameBut, SlotIs, KeptSlots, Laid, Blanks;
    ghost var lo, was := cursor[from], cursor[..];
    ghost var ts, ws, rs := targets[..], weights[..], rels[..];
    writes := writes0;
    NothingChanged(ts, ws, rs, writes, lo, |es|);
    NoneKept(c, es);
    for k := 0 to |es|
      invariant cursor[..] == was[from := lo + |KeptSlots(c, es[..k])|]
      invariant SliceIs(targets[..], weights[..], rels[..], writes, lo,
                        KeptSlots(c, es[..k]) + Blanks(|es| - |KeptSlots(c, es[..k])|))
      invariant SameBut(ts, ws, rs, writes0, targets[..], weights[..], rels[..], writes, lo, |es|)
    {
      var e := es[k];
      var toIdx := c.ToIdx(e.to);
      ghost var kept := KeptSlots(c, es[..k]);
      OneMoreKept(c, es, k);
      if toIdx >= 0 {
        var pos := cursor[from];
        assert pos == lo + |kept|;
        cursor[from] := cursor[from] + 1;
        WritesNext(ts, ws, rs, writes0, targets[..], weights[..], rels[..], writes, lo, kept, |es|,
                   Slot(toIdx, e.weight, e.rel, 1));
        WriteAt(targets, pos, toIdx);
        WriteAt(weights, pos, e.weight);
        WriteAt(rels, pos, e.rel);
        writes := writes[pos := writes[pos] + 1];
      }
    }
    AllLaid(c, es);
  }

  method WriteAt<T>(a: array<T>, pos: nat, x: T)
    requires pos < a.Length
    modifies a
    ensures a[..] == old(a[..])[pos := x]
  {
    a[pos] := x;
  }

  lemma NoneKept(c: CsrGraph, es: seq<Edge>)
    ensures KeptSlots(c, es[..0]) == [] && KeptSlots(c, es[..0]) + Blanks(|es|) == Blanks(|es|)
  {
  }

  lemma OneMoreKept(c: CsrGraph, es: seq<Edge>, k: nat)
    requires k < |es|
    ensures var i, kept := c.ToIdx(es[k].to), KeptSlots(c, es[..k]);
      && |kept| <= k
      && KeptSlots(c, es[..k + 1]) == if i >= 0 then kept + [Slot(i, es[k].weight, es[k].rel, 1)] else kept
  {
    assert Init(es[..k + 1]) == es[..k] && Last(es[..k + 1]) == es[k];
  }

  lemma AllLaid(c: CsrGraph, es: seq<Edge>)
    ensures Laid(c, es) == KeptSlots(c, es[..|es|]) + Blanks(|es| - |KeptSlots(c, es[..|es|])|)
    ensures KeptSlots(c, es) == KeptSlots(c, es[..|es|])
  {
    assert es[..|es|] == es;
  }

  lemma NothingChanged(t: seq<int>, w: seq<real>, r: seq<string>, n: seq<nat>, lo: int, size: int)
    requires |t| == |w| == |r| == |n|
    ensures SameBut(t, w, r, n, t, w, r, n, lo, size)
  {
  }

  lemma ChangesOne(t0: seq<int>, w0: seq<real>, r0: seq<string>, n0: seq<nat>,
                   t1: seq<int>, w1: seq<real>, r1: seq<string>, n1: seq<nat>, lo: nat, size: nat, pos: nat,
                   target: int, weight: real, rel: string)
    requires SameBut(t0, w0, r0, n0, t1, w1, r1, n1, lo, size)
    requires lo <= pos < lo + size && pos < |t1| && pos < |w1| && pos < |r1| && pos < |n1|
    ensures SameBut(t0, w0, r0, n0, t1[pos := target], w1[pos := weight], r1[pos := rel], n1[pos := n1[pos] + 1], lo, size)
  {
  }

  lemma SlotIsBlank(t: seq<int>, w: seq<real>, r: seq<string>, n: seq<nat>, lo: nat, kept: seq<Slot>, size: nat)
    requires |kept| < size && SliceIs(t, w, r, n, lo, kept + Blanks(size - |kept|))
    ensures SlotIs(t, w, r, lo + |kept|, BLANK) && lo + |kept| < |n| && n[lo + |kept|] == 0
  {
    assert (kept + Blanks(size - |kept|))[|kept|] == BLANK;
  }

  lemma WritesOne(t: seq<int>, w: seq<real>, r: seq<string>, n: seq<nat>, lo: nat, kept: seq<Slot>, size: nat, slot: Slot)
    requires |kept| < size && SliceIs(t, w, r, n, lo, kept + Blanks(size - |kept|)) && slot.writes == 1
    requires var pos := lo + |kept|; pos < |t| == |w| == |r| && pos < |n| && n[pos] == 0
    ensures var pos := lo + |kept|;
      SliceIs(t[pos := slot.target], w[pos := slot.weight], r[pos := slot.rel], n[pos := n[pos] + 1], lo,
              kept + [slot] + Blanks(size - |kept| - 1))
  {
    var before, after := kept + Blanks(size - |kept|), kept + [slot] + Blanks(size - |kept| - 1);
    var pos := lo + |kept|;
    assert |before| == |after| == size;
    forall k {:trigger after[k]} | 0 <= k < size
      ensures SlotIs(t[pos := slot.target], w[pos := slot.weight], r[pos := slot.rel], lo + k, after[k])
      ensures lo + k < |n| && n[pos := n[pos] + 1][lo + k] == after[k].writes
    {
      assert SlotIs(t, w, r, lo + k, before[k]);
      if k < |kept| {
        assert before[k] == kept[k] == after[k];
      } else if k > |kept| {
        assert before[k] == BLANK == after[k];
      }
    }
    assert SliceIs(t[pos := slot.target], w[pos := slot.weight], r[pos := slot.rel], n[pos := n[pos] + 1], lo, after);
  }

  ghost predicate Filled(c: CsrGraph, adj: Adjacency, targets: seq<int>, weights: seq<real>, rels: seq<string>,
                         writes: seq<nat>, i: nat)
    requires i < |c.idxToId|
  {
    SliceIs(targets, weights, rels, writes, Offset(adj, c.idxToId, i), Laid(c, Neighbors(adj, c.idxToId[i])))
  }

  ghost predicate Untouched(c: CsrGraph, adj: Adjacency, cursor: seq<int>, targets: seq<int>, weights: seq<real>,
                            rels: seq<string>, writes: seq<nat>, i: nat)
    requires i < |c.idxToId|
  {
    && i < |cursor| && cursor[i] == Offset(adj, c.idxToId, i)
    && SliceIs(targets, weights, rels, writes, cursor[i], Blanks(|Neighbors(adj, c.idxToId[i])|))
  }

  /** Filling one slice leaves the others as they are. */
  lemma SliceStays(c: CsrGraph, adj: Adjacency, i: nat, from: nat, slots: seq<Slot>,
                   t0: seq<int>, w0: seq<real>, r0: seq<string>, n0: seq<nat>,
                   t1: seq<int>, w1: seq<real>, r1: seq<string>, n1: seq<nat>)
    requires i < |c.idxToId| && from < |c.idxToId| && i != from && |slots| == |Neighbors(adj, c.idxToId[i])|
    requires SliceIs(t0, w0, r0, n0, Offset(adj, c.idxToId, i), slots)
    requires SameBut(t0, w0, r0, n0, t1, w1, r1, n1, Offset(adj, c.idxToId, from), |Neighbors(adj, c.idxToId[from])|)
    ensures SliceIs(t1, w1, r1, n1, Offset(adj, c.idxToId, i), slots)
  {
    if i < from {
      OffsetsGrow(adj, c.idxToId, i, from);
    } else {
      OffsetsGrow(adj, c.idxToId, from, i);
    }
    hide SliceIs, SameBut, Offset;
    SliceElsewhere(slots, Offset(adj, c.idxToId, i), t0, w0, r0, n0, t1, w1, r1, n1,
                   Offset(adj, c.idxToId, from), |Neighbors(adj, c.idxToId[from])|);
  }

  lemma SliceElsewhere(slots: seq<Slot>, at: int, t0: seq<int>, w0: seq<real>, r0: seq<string>, n0: seq<nat>,
                       t1: seq<int>, w1: seq<real>, r1: seq<string>, n1: seq<nat>, lo: int, n: int)
    requires SliceIs(t0, w0, r0, n0, at, slots) && SameBut(t0, w0, r0, n0, t1, w1, r1, n1, lo, n)
    requires at + |slots| <= lo || lo + n <= at
    ensures SliceIs(t1, w1, r1, n1, at, slots)
  {
    forall k {:trigger slots[k]} | 0 <= k < |slots|
      ensures SlotIs(t1, w1, r1, at + k, slots[k]) && at + k < |n1| && n1[at + k] == slots[k].writes
    {
      var p := at + k;
      assert SlotIs(t0, w0, r0, p, slots[k]) && n0[p] == slots[k].writes;
      assert t1[p] == t0[p] && w1[p] == w0[p] && r1[p] == r0[p] && n1[p] == n0[p];
    }
  }

  /** Of the nodes not in `rest`, all slices are filled; those of the nodes in it are as they began. */
  ghost predicate Filling(c: CsrGraph, adj: Adjacency, rest: set<int>, cursor: seq<int>,
                          targets: seq<int>, weights: seq<real>, rels: seq<string>, writes: seq<nat>) {
    && |cursor| == |c.idxToId| + 1
    && |targets| == |weights| == |rels| == |writes| == Offset(adj, c.idxToId, |c.idxToId|)
    && (forall i {:trigger Untouched(c, adj, cursor, targets, weights, rels, writes, i)} ::
          0 <= i < |c.idxToId| && c.idxToId[i] in rest ==> Untouched(c, adj, cursor, targets, weights, rels, writes, i))
    && (forall i {:trigger Filled(c, adj, targets, weights, rels, writes, i)} ::
          0 <= i < |c.idxToId| && c.idxToId[i] !in rest ==> Filled(c, adj, targets, weights, rels, writes, i))
  }

  lemma FillsOneMore(c: CsrGraph, nodes: set<int>, adj: Adjacency, rest: set<int>, id: int,
                     c0: seq<int>, t0: seq<int>, w0: seq<real>, r0: seq<string>, n0: seq<nat>,
                     c1: seq<int>, t1: seq<int>, w1: seq<real>, r1: seq<string>, n1: seq<nat>)
    requires Indexed(c, nodes) && id in rest && id in nodes && Filling(c, adj, rest, c0, t0, w0, r0, n0)
    requires var from, es := c.ToIdx(id), Neighbors(adj, id);
             && c1 == c0[from := c0[from] + |KeptSlots(c, es)|]
             && SliceIs(t1, w1, r1, n1, c0[from], Laid(c, es))
             && SameBut(t0, w0, r0, n0, t1, w1, r1, n1, c0[from], |es|)
    ensures Filling(c, adj, rest - {id}, c1, t1, w1, r1, n1)
  {
    hide SliceIs, SameBut, Laid, KeptSlots, Offset;
    var from := c.ToIdx(id);
    assert Untouched(c, adj, c0, t0, w0, r0, n0, from);
    assert c.idxToId[from] == id && c0[from] == Offset(adj, c.idxToId, from);
    assert Filled(c, adj, t1, w1, r1, n1, from);
    SameLengths(t0, w0, r0, n0, t1, w1, r1, n1, c0[from], |Neighbors(adj, id)|);
    forall i | 0 <= i < |c.idxToId| && c.idxToId[i] !in rest - {id}
      ensures Filled(c, adj, t1, w1, r1, n1, i)
    {
      if i != from {
        assert Filled(c, adj, t0, w0, r0, n0, i);
        FilledStays(c, adj, i, from, t0, w0, r0, n0, t1, w1, r1, n1);
      }
    }
    forall i | 0 <= i < |c.idxToId| && c.idxToId[i] in rest - {id}
      ensures Untouched(c, adj, c1, t1, w1, r1, n1, i)
    {
      assert i != from;
      assert Untouched(c, adj, c0, t0, w0, r0, n0, i);
      UntouchedStays(c, adj, i, from, c0, t0, w0, r0, n0, c1, t1, w1, r1, n1);
    }
    assert |c1| == |c.idxToId| + 1;
    assert |t1| == |w1| == |r1| == |n1| == Offset(adj, c.idxToId, |c.idxToId|);
  }

  lemma SameLengths(t0: seq<int>, w0: seq<real>, r0: seq<string>, n0: seq<nat>,
                    t1: seq<int>, w1: seq<real>, r1: seq<string>, n1: seq<nat>, lo: int, n: int)
    requires SameBut(t0, w0, r0, n0, t1, w1, r1, n1, lo, n)
    ensures |t0| == |t1| == |w1| == |r1| == |n1|
  {
  }

  lemma FilledStays(c: CsrGraph, adj: Adjacency, i: nat, from: nat,
                    t0: seq<int>, w0: seq<real>, r0: seq<string>, n0: seq<nat>,
                    t1: seq<int>, w1: seq<real>, r1: seq<string>, n1: seq<nat>)
    requires i < |c.idxToId| && from < |c.idxToId| && i != from && Filled(c, adj, t0, w0, r0, n0, i)
    requires SameBut(t0, w0, r0, n0, t1, w1, r1, n1, Offset(adj, c.idxToId, from), |Neighbors(adj, c.idxToId[from])|)
    ensures Filled(c, adj, t1, w1, r1, n1, i)
  {
    hide SliceIs, SameBut, Laid, Offset;
    LaidLength(c, Neighbors(adj, c.idxToId[i]));
    SliceStays(c, adj, i, from, Laid(c, Neighbors(adj, c.idxToId[i])), t0, w0, r0, n0, t1, w1, r1, n1);
  }

  lemma UntouchedStays(c: CsrGraph, adj: Adjacency, i: nat, from: nat,
                       c0: seq<int>, t0: seq<int>, w0: seq<real>, r0: seq<string>, n0: seq<nat>,
                       c1: seq<int>, t1: seq<int>, w1: seq<real>, r1: seq<string>, n1: seq<nat>)
    requires i < |c.idxToId| && from < |c.idxToId| && i != from && Untouched(c, adj, c0, t0, w0, r0, n0, i)
    requires i < |c1| && c1[i] == c0[i]
    requires SameBut(t0, w0, r0, n0, t1, w1, r1, n1, Offset(adj, c.idxToId, from), |Neighbors(adj, c.idxToId[from])|)
    ensures Untouched(c, adj, c1, t1, w1, r1, n1, i)
  {
    hide SliceIs, SameBut, Offset;
    SliceStays(c, adj, i, from, Blanks(|Neighbors(adj, c.idxToId[i])|), t0, w0, r0, n0, t1, w1, r1, n1);
  }

  lemma LaidLength(c: CsrGraph, es: seq<Edge>)
    ensures |Laid(c, es)| == |es|
  {
  }

  /** A key without metadata has no slice to fill. */
  lemma SkipsOne(c: CsrGraph, nodes: set<int>, adj: Adjacency, rest: set<int>, id: int, cursor: seq<int>,
                 targets: seq<int>, weights: seq<real>, rels: seq<string>, writes: seq<nat>)
    requires Indexed(c, nodes) && id !in nodes && Filling(c, adj, rest, cursor, targets, weights, rels, writes)
    ensures Filling(c, adj, rest - {id}, cursor, targets, weights, rels, writes)
  {
  }

  /** The slice about to be filled lies within the arrays and has not been touched. */
  lemma RoomInSlice(c: CsrGraph, nodes: set<int>, adj: Adjacency, rest: set<int>, id: int, cursor: seq<int>,
                    targets: seq<int>, weights: seq<real>, rels: seq<string>, writes: seq<nat>)
    requires Indexed(c, nodes) && id in rest && id in nodes
    requires Filling(c, adj, rest, cursor, targets, weights, rels, writes)
    ensures 0 <= c.ToIdx(id) < |cursor| && 0 <= cursor[c.ToIdx(id)]
    ensures cursor[c.ToIdx(id)] + |Neighbors(adj, id)| <= |targets| == |weights| == |rels| == |writes|
    ensures SliceIs(targets, weights, rels, writes, cursor[c.ToIdx(id)], Blanks(|Neighbors(adj, id)|))
  {
    assert Untouched(c, adj, cursor, targets, weights, rels, writes, c.ToIdx(id));
    SliceFits(adj, c.idxToId, c.ToIdx(id));
  }

  lemma KnownIndex(c: CsrGraph, nodes: set<int>, id: int)
    requires Indexed(c, nodes)
    ensures 0 <= c.ToIdx(id) <==> id in nodes
  {
  }

  lemma FillingStarts(c: CsrGraph, nodes: set<int>, adj: Adjacency, offsets: seq<int>,
                      targets: seq<int>, weights: seq<real>, rels: seq<string>, writes: seq<nat>)
    requires Indexed(c, nodes) && |offsets| == c.nodeCount + 1
    requires |targets| == |weights| == |rels| == |writes| == offsets[c.nodeCount]
    requires forall p :: 0 <= p < |targets| ==>
               Slot(targets[p], weights[p], rels[p], writes[p]) == BLANK
    requires forall i {:trigger offsets[i]} :: 0 <= i <= c.nodeCount ==> offsets[i] == Offset(adj, c.idxToId, i)
    ensures Filling(c, adj, adj.Keys, offsets, targets, weights, rels, writes)
  {
    hide SliceIs, Filled, Offset;
    forall i | 0 <= i < c.nodeCount
      ensures Untouched(c, adj, offsets, targets, weights, rels, writes, i)
      ensures c.idxToId[i] !in adj ==> Filled(c, adj, targets, weights, rels, writes, i)
    {
      SliceFits(adj, c.idxToId, i);
      assert offsets[i] == Offset(adj, c.idxToId, i);
      AllBlank(targets, weights, rels, writes, offsets[i], |Neighbors(adj, c.idxToId[i])|);
      if c.idxToId[i] !in adj {
        NothingToFill(c, adj, targets, weights, rels, writes, i);
      }
    }
  }

  lemma NothingToFill(c: CsrGraph, adj: Adjacency, targets: seq<int>, weights: seq<real>, rels: seq<string>,
                      writes: seq<nat>, i: nat)
    requires i < |c.idxToId| && c.idxToId[i] !in adj
    ensures Filled(c, adj, targets, weights, rels, writes, i)
  {
    hide Offset, KeptSlots;
  }

  lemma AllBlank(targets: seq<int>, weights: seq<real>, rels: seq<string>, writes: seq<nat>, lo: nat, n: nat)
    requires |targets| == |weights| == |rels| == |writes| && lo + n <= |targets|
    requires forall p :: 0 <= p < |targets| ==> Slot(targets[p], weights[p], rels[p], writes[p]) == BLANK
    ensures SliceIs(targets, weights, rels, writes, lo, Blanks(n))
  {
  }

  lemma WritesNext(t: seq<int>, w: seq<real>, r: seq<string>, n: seq<nat>,
                   t0: seq<int>, w0: seq<real>, r0: seq<string>, n0: seq<nat>, lo: nat, kept: seq<Slot>, size: nat, slot: Slot)
    requires |kept| < size && SliceIs(t0, w0, r0, n0, lo, kept + Blanks(size - |kept|)) && slot.writes == 1
    requires SameBut(t, w, r, n, t0, w0, r0, n0, lo, size)
    ensures var pos := lo + |kept|;
      && pos < |t0| == |w0| == |r0| == |n0|
      && SliceIs(t0[pos := slot.target], w0[pos := slot.weight], r0[pos := slot.rel], n0[pos := n0[pos] + 1], lo,
                 kept + [slot] + Blanks(size - |kept| - 1))
      && SameBut(t, w, r, n, t0[pos := slot.target], w0[pos := slot.weight], r0[pos := slot.rel], n0[pos := n0[pos] + 1],
                 lo, size)
  {
    hide SliceIs;
    SlotIsBlank(t0, w0, r0, n0, lo, kept, size);
    WritesOne(t0, w0, r0, n0, lo, kept, size, slot);
    ChangesOne(t, w, r, n, t0, w0, r0, n0, lo, size, lo + |kept|, slot.target, slot.weight, slot.rel);
  }

  /** Fills the three edge arrays. A slot is written once if an edge to a node of the graph falls to it, and
      never otherwise. */
  method FillEdges(c: CsrGraph, meta: map<int, NodeMeta>, adj: Adjacency, offsets: seq<int>, edgeCount: nat)
    returns (targets: seq<int>, weights: seq<real>, rels: seq<string>, ghost writes: seq<nat>)
    requires Indexed(c, meta.Keys)
    requires |offsets| == c.nodeCount + 1 && edgeCount == offsets[c.nodeCount]
    requires forall i {:trigger offsets[i]} :: 0 <= i <= c.nodeCount ==> offsets[i] == Offset(adj, c.idxToId, i)
    ensures |targets| == |weights| == |rels| == |writes| == edgeCount
    ensures forall i :: 0 <= i < c.nodeCount ==> Filled(c, adj, targets, weights, rels, writes, i)
  {
    var cursor := new int[|offsets|](i requires 0 <= i < |offsets| => offsets[i]);
    var ts, ws, rs := new int[edgeCount](_ => 0), new real[edgeCount](_ => 0.0), new string[edgeCount](_ => "");
    writes := seq(edgeCount, _ => 0);
    FillingStarts(c, meta.Keys, adj, offsets, ts[..], ws[..], rs[..], writes);
    assert cursor[..] == offsets;
    writes := FillLists(c, meta, adj, cursor, ts, ws, rs, writes);
    targets, weights, rels := ts[..], ws[..], rs[..];
  }

  /** The outer loop of the fill, over the adjacency lists in no particular order. */
  method FillLists(c: CsrGraph, meta: map<int, NodeMeta>, adj: Adjacency, cursor: array<int>,
                   ts: array<int>, ws: array<real>, rs: array<string>, ghost writes0: seq<nat>)
    returns (ghost writes: seq<nat>)
    requires Indexed(c, meta.Keys) && cursor != ts
    requires Filling(c, adj, adj.Keys, cursor[..], ts[..], ws[..], rs[..], writes0)
    modifies cursor, ts, ws, rs
    ensures Filling(c, adj, {}, cursor[..], ts[..], ws[..], rs[..], writes)
  {
    hide Filling, Indexed, SliceIs, SameBut, Laid, KeptSlots;
    writes := writes0;
    var rest := adj.Keys;
    while rest != {}
      invariant rest <= adj.Keys
      invariant Filling(c, adj, rest, cursor[..], ts[..], ws[..], rs[..], writes)
    {
      ghost var some := Pick(rest);
      var id :| id in rest;
      var from := c.ToIdx(id);
      ghost var c0, t0, w0, r0, n0 := cursor[..], ts[..], ws[..], rs[..], writes;
      KnownIndex(c, meta.Keys, id);
      if from >= 0 {
        RoomInSlice(c, meta.Keys, adj, rest, id, c0, t0, w0, r0, n0);
        writes := FillOne(c, adj[id], from, cursor, ts, ws, rs, writes);
        FillsOneMore(c, meta.Keys, adj, rest, id, c0, t0, w0, r0, n0, cursor[..], ts[..], ws[..], rs[..], writes);
      } else {
        SkipsOne(c, meta.Keys, adj, rest, id, c0, t0, w0, r0, n0);
      }
      rest := rest - {id};
    }
  }

  lemma SliceFits(adj: Adjacency, ids: seq<int>, i: nat)
    requires i < |ids|
    ensures Offset(adj, ids, i) + |Neighbors(adj, ids[i])| <= Offset(adj, ids, |ids|)
  {
    OffsetsGrow(adj, ids, i, |ids|);
  }

  /** Copies the node metadata to the index order. */
  method FillMeta(c: CsrGraph, meta: map<int, NodeMeta>) returns (labels: seq<string>, props: seq<string>)
    requires Indexed(c, meta.Keys)
    ensures |labels| == |props| == c.nodeCount
    ensures forall i :: 0 <= i < c.nodeCount && c.idxToId[i] in meta ==>
              NodeMeta(labels[i], props[i]) == meta[c.idxToId[i]]
  {
    var ls, ps := new string[c.nodeCount], new string[c.nodeCount];
    var rest := meta.Keys;
    while rest != {}
      invariant rest <= meta.Keys
      invariant forall i :: 0 <= i < c.nodeCount && c.idxToId[i] !in rest ==>
                  NodeMeta(ls[i], ps[i]) == meta[c.idxToId[i]]
    {
      ghost var some := Pick(rest);
      var id :| id in rest;
      var idx := c.ToIdx(id);
      if idx >= 0 {
        ls[idx], ps[idx] := meta[id].labelText, meta[id].props;
      }
      rest := rest - {id};
    }
    labels, props := ls[..], ps[..];
  }

  /** `build_csr`. */
  method BuildCsr(meta: map<int, NodeMeta>, adj: Adjacency) returns (c: CsrGraph)
    requires forall id :: id in meta ==> 0 <= id
    ensures Copies(c, meta, adj)
  {
    hide Indexed, Filled, Copies;
    var ids := SortedIds(meta.Keys);
    var idToIdx := BuildIndex(ids);
    c := EMPTY_CSR.(nodeCount := |ids|, idToIdx := idToIdx, idxToId := ids);
    IndexedBySort(c, ids, meta.Keys);
    var degree := CountDegrees(c, meta, adj);
    var offsets := PrefixSums(adj, ids, degree);
    var edgeCount := offsets[|ids|];
    var targets, weights, rels;
    ghost var writes;
    targets, weights, rels, writes := FillEdges(c, meta, adj, offsets, edgeCount);
    var labels, props := FillMeta(c, meta);
    ghost var index := c;
    c := CsrGraph(|ids|, edgeCount, idToIdx, ids, offsets, targets, weights, labels, props, rels);
    Reindexed(index, c, meta.Keys);
    FilledForAll(index, c, adj, targets, weights, rels, writes);
    Assembled(c, meta, adj, writes);
  }

  lemma Assembled(c: CsrGraph, meta: map<int, NodeMeta>, adj: Adjacency, writes: seq<nat>)
    requires Indexed(c, meta.Keys) && |c.offsets| == c.nodeCount + 1 && c.edgeCount == c.offsets[c.nodeCount]
    requires forall i {:trigger c.offsets[i]} :: 0 <= i <= c.nodeCount ==> c.offsets[i] == Offset(adj, c.idxToId, i)
    requires |c.targets| == |c.weights| == |c.relTypes| == c.edgeCount && |c.labels| == |c.props| == c.nodeCount
    requires forall i :: 0 <= i < c.nodeCount ==> Filled(c, adj, c.targets, c.weights, c.relTypes, writes, i)
    requires forall i :: 0 <= i < c.nodeCount && c.idxToId[i] in meta ==>
               NodeMeta(c.labels[i], c.props[i]) == meta[c.idxToId[i]]
    ensures Copies(c, meta, adj)
  {
    hide Laid, LaidOut, Filled;
    forall i | 0 <= i < c.nodeCount
      ensures LaidOut(c, adj, i)
    {
      SliceFits(adj, c.idxToId, i);
      assert Filled(c, adj, c.targets, c.weights, c.relTypes, writes, i);
      assert c.offsets[i] == Offset(adj, c.idxToId, i) && c.offsets[i + 1] == Offset(adj, c.idxToId, i + 1);
      FilledIsLaidOut(c, adj, writes, i);
    }
  }

  lemma FilledIsLaidOut(c: CsrGraph, adj: Adjacency, writes: seq<nat>, i: nat)
    requires i < |c.idxToId| && i + 1 < |c.offsets| && c.offsets[i] == Offset(adj, c.idxToId, i)
    requires c.offsets[i + 1] == c.offsets[i] + |Neighbors(adj, c.idxToId[i])| <= c.edgeCount
    requires Filled(c, adj, c.targets, c.weights, c.relTypes, writes, i)
    ensures LaidOut(c, adj, i)
  {
    hide Laid, Offset;
    LaidLength(c, Neighbors(adj, c.idxToId[i]));
  }

  lemma Reindexed(c: CsrGraph, d: CsrGraph, nodes: set<int>)
    requires Indexed(c, nodes) && d.nodeCount == c.nodeCount && d.idToIdx == c.idToIdx && d.idxToId == c.idxToId
    ensures Indexed(d, nodes)
  {
  }

  lemma FilledForAll(c: CsrGraph, d: CsrGraph, adj: Adjacency, targets: seq<int>, weights: seq<real>, rels: seq<string>,
                     writes: seq<nat>)
    requires d.idToIdx == c.idToIdx && d.idxToId == c.idxToId
    requires forall i :: 0 <= i < |c.idxToId| ==> Filled(c, adj, targets, weights, rels, writes, i)
    ensures forall i :: 0 <= i < |d.idxToId| ==> Filled(d, adj, targets, weights, rels, writes, i)
  {
    forall i | 0 <= i < |d.idxToId|
      ensures Filled(d, adj, targets, weights, rels, writes, i)
    {
      assert Filled(c, adj, targets, weights, rels, writes, i);
      SameKept(c, d, Neighbors(adj, c.idxToId[i]));
    }
  }

  lemma {:induction false} SameKept(c: CsrGraph, d: CsrGraph, es: seq<Edge>)
    requires d.idToIdx == c.idToIdx
    ensures KeptSlots(d, es) == KeptSlots(c, es)
  {
    if es != [] {
      SameKept(c, d, Init(es));
    }
  }

  lemma IndexedBySort(c: CsrGraph, ids: seq<int>, nodes: set<int>)
    requires c.idxToId == ids && c.nodeCount == |ids| && Increasing(ids)
    requires forall id :: id in ids <==> id in nodes
    requires forall i :: 0 <= i < |ids| ==> 0 <= ids[i] < |c.idToIdx| && c.idToIdx[ids[i]] == i
    requires forall id :: 0 <= id < |c.idToIdx| && id !in ids ==> c.idToIdx[id] == -1
    ensures Indexed(c, nodes)
  {
    forall id | id in nodes
      ensures 0 <= c.ToIdx(id) < c.nodeCount && c.idxToId[c.ToIdx(id)] == id
    {
      var i :| 0 <= i < |ids| && ids[i] == id;
    }
  }
}
