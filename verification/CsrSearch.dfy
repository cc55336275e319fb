/** Searches over the compressed copy, and their agreement with those over the adjacency lists. */
module CsrSearch {
  import opened Walks
  import opened Words
  import opened DynamicGraphs
  import opened Csr
  import Bfs
  import opened BfsSearch

  /** What the searches rely on: indices, offsets and targets stay within their arrays. */
  ghost predicate WellShaped(c: CsrGraph) {
    && |c.idxToId| == c.nodeCount
    && (forall id :: -1 <= c.ToIdx(id) < c.nodeCount && (0 <= c.ToIdx(id) ==> c.idxToId[c.ToIdx(id)] == id))
    && (c.nodeCount > 0 ==> |c.offsets| == c.nodeCount + 1)
    && (forall i {:trigger SliceWithin(c, i)} :: 0 <= i < c.nodeCount ==> SliceWithin(c, i))
    && |c.targets| == |c.weights| == |c.relTypes|
    && (forall p :: 0 <= p < |c.targets| ==> 0 <= c.targets[p] < c.nodeCount)
  }

  ghost predicate SliceWithin(c: CsrGraph, i: int) {
    0 <= i && i + 1 < |c.offsets| && 0 <= c.offsets[i] <= c.offsets[i + 1] <= |c.targets|
  }

  function EdgeAt(c: CsrGraph, p: int): Edge
    requires 0 <= p < |c.targets| == |c.weights| == |c.relTypes|
  {
    Edge(c.targets[p], c.relTypes[p], c.weights[p])
  }

  ghost function SliceOf(c: CsrGraph, i: int): seq<Edge>
    requires WellShaped(c) && 0 <= i < c.nodeCount
  {
    assert SliceWithin(c, i);
    seq(c.offsets[i + 1] - c.offsets[i], k requires 0 <= k < c.offsets[i + 1] - c.offsets[i] => EdgeAt(c, c.offsets[i] + k))
  }

  /** The compressed copy read as a graph over its indices. */
  ghost function Compressed(c: CsrGraph): Adjacency
    requires WellShaped(c)
  {
    map i | 0 <= i < c.nodeCount :: SliceOf(c, i)
  }

  function IdOf(c: CsrGraph, i: int): int {
    if 0 <= i < |c.idxToId| then c.idxToId[i] else -1
  }

  function IdsOf(c: CsrGraph, indices: seq<int>): (ids: seq<int>)
    ensures |ids| == |indices|
  {
    if indices == [] then [] else IdsOf(c, Init(indices)) + [IdOf(c, Last(indices))]
  }

  lemma RepresentsIsWellShaped(c: CsrGraph, meta: map<int, NodeMeta>, adj: Adjacency)
    requires Represents(c, meta, adj) && Known(adj, meta.Keys)
    ensures WellShaped(c)
  {
    forall id
      ensures -1 <= c.ToIdx(id) < c.nodeCount && (0 <= c.ToIdx(id) ==> c.idxToId[c.ToIdx(id)] == id)
    {
      if id !in meta.Keys {
        assert c.ToIdx(id) == -1;
      }
    }
    forall i | 0 <= i < c.nodeCount
      ensures SliceWithin(c, i)
    {
      assert Slice(c, adj, i);
    }
    forall p | 0 <= p < |c.targets|
      ensures 0 <= c.targets[p] < c.nodeCount
    {
      var i := SliceHolding(c, adj, p, c.nodeCount);
      var e := Neighbors(adj, c.idxToId[i])[p - c.offsets[i]];
      assert Slice(c, adj, i);
      assert Holds(c, c.offsets[i] + (p - c.offsets[i]), e);
      assert e in Neighbors(adj, c.idxToId[i]);
    }
  }

  /** Every slot belongs to a slice. */
  lemma {:induction false} SliceHolding(c: CsrGraph, adj: Adjacency, p: int, n: nat) returns (i: nat)
    requires 0 < n <= c.nodeCount && |c.offsets| == c.nodeCount + 1 && c.offsets[0] == 0 && |c.idxToId| == c.nodeCount
    requires forall i {:trigger Slice(c, adj, i)} :: 0 <= i < c.nodeCount ==> Slice(c, adj, i)
    requires 0 <= p < c.offsets[n]
    ensures i < n && c.offsets[i] <= p < c.offsets[i + 1]
    ensures p - c.offsets[i] < |Neighbors(adj, c.idxToId[i])|
  {
    assert Slice(c, adj, n - 1);
    if c.offsets[n - 1] <= p {
      i := n - 1;
    } else {
      i := SliceHolding(c, adj, p, n - 1);
    }
  }

  /** Index `i` has the edges of its node, led to the indices of their targets. */
  lemma SliceMatches(c: CsrGraph, meta: map<int, NodeMeta>, adj: Adjacency, u: int)
    requires WellShaped(c) && Represents(c, meta, adj) && Known(adj, meta.Keys) && u in meta
    ensures 0 <= c.ToIdx(u) < c.nodeCount
    ensures |Neighbors(Compressed(c), c.ToIdx(u))| == |Neighbors(adj, u)|
    ensures forall k {:trigger Neighbors(adj, u)[k]} :: 0 <= k < |Neighbors(adj, u)| ==>
              var e := Neighbors(adj, u)[k];
              e.to in meta && Neighbors(Compressed(c), c.ToIdx(u))[k] == Edge(c.ToIdx(e.to), e.rel, e.weight)
  {
    var i := c.ToIdx(u);
    assert u in meta.Keys;
    assert Slice(c, adj, i);
    forall k | 0 <= k < |Neighbors(adj, u)|
      ensures Neighbors(adj, u)[k].to in meta
      ensures SliceOf(c, i)[k] == Edge(c.ToIdx(Neighbors(adj, u)[k].to), Neighbors(adj, u)[k].rel, Neighbors(adj, u)[k].weight)
    {
      var e := Neighbors(adj, u)[k];
      assert e in Neighbors(adj, u);
      assert Holds(c, c.offsets[i] + k, e);
    }
  }

  /** The same words are words in both graphs, and they lead to corresponding places. */
  lemma {:induction false} SameWords(c: CsrGraph, meta: map<int, NodeMeta>, adj: Adjacency, src: int, w: Word)
    requires WellShaped(c) && Represents(c, meta, adj) && Known(adj, meta.Keys) && src in meta
    ensures IsWord(Compressed(c), "", c.ToIdx(src), w) <==> IsWord(adj, "", src, w)
    ensures At(adj, src, w) in meta && At(Compressed(c), c.ToIdx(src), w) == c.ToIdx(At(adj, src, w))
  {
    hide Known, Slice, Compressed;
    if w != [] {
      SameWords(c, meta, adj, src, Init(w));
      SliceMatches(c, meta, adj, At(adj, src, Init(w)));
    }
  }

  lemma NodesStep(adj: Adjacency, src: int, w: Word)
    requires w != [] && IsWord(adj, "", src, w)
    ensures NodesOf(src, Steps(adj, "", src, w)) == NodesOf(src, Steps(adj, "", src, Init(w))) + [At(adj, src, w)]
  {
    assert Init(Steps(adj, "", src, w)) == Steps(adj, "", src, Init(w));
  }

  lemma IdsOfAppend(c: CsrGraph, indices: seq<int>, i: int)
    ensures IdsOf(c, indices + [i]) == IdsOf(c, indices) + [IdOf(c, i)]
  {
    assert Init(indices + [i]) == indices;
  }

  /** Corresponding words visit corresponding nodes. */
  lemma {:induction false} SameNodes(c: CsrGraph, meta: map<int, NodeMeta>, adj: Adjacency, src: int, w: Word)
    requires WellShaped(c) && Represents(c, meta, adj) && Known(adj, meta.Keys) && src in meta
    requires IsWord(adj, "", src, w) && IsWord(Compressed(c), "", c.ToIdx(src), w)
    ensures IdsOf(c, NodesOf(c.ToIdx(src), Steps(Compressed(c), "", c.ToIdx(src), w))) == NodesOf(src, Steps(adj, "", src, w))
  {
    var s := c.ToIdx(src);
    SameWords(c, meta, adj, src, w);
    assert At(adj, src, w) in meta.Keys;
    if w != [] {
      SameNodes(c, meta, adj, src, Init(w));
      NodesStep(adj, src, w);
      NodesStep(Compressed(c), s, w);
      IdsOfAppend(c, NodesOf(s, Steps(Compressed(c), "", s, Init(w))), At(Compressed(c), s, w));
    } else {
      IdsOfAppend(c, [], s);
      assert [] + [s] == [s];
    }
  }

  /** The answer names, by ids, the walk of the first word between the two indices, or there is none. */
  ghost predicate Answers(c: CsrGraph, sourceId: int, targetId: int, path: Bfs.PathResult)
    requires WellShaped(c)
  {
    var src, dst := c.ToIdx(sourceId), c.ToIdx(targetId);
    if src >= 0 && dst >= 0 && Reachable(Compressed(c), "", src, dst) then
      exists w :: First(Compressed(c), "", src, dst, w) &&
                  path == Bfs.PathResult(IdsOf(c, NodesOf(src, Steps(Compressed(c), "", src, w))), [])
    else
      path == Bfs.NO_PATH
  }

  /** An answer is empty if and only if an id is unknown or no walk of the copy joins the two; it never tells
      relations, and starts and ends at the ids asked for. */
  lemma AnswersMean(c: CsrGraph, sourceId: int, targetId: int, path: Bfs.PathResult)
    requires WellShaped(c) && Answers(c, sourceId, targetId, path)
    ensures path.rels == []
    ensures path.nodes == [] <==>
              c.ToIdx(sourceId) < 0 || c.ToIdx(targetId) < 0 ||
              !Reachable(Compressed(c), "", c.ToIdx(sourceId), c.ToIdx(targetId))
    ensures path.nodes != [] ==> path.nodes[0] == sourceId && path.nodes[|path.nodes| - 1] == targetId
  {
    var src, dst := c.ToIdx(sourceId), c.ToIdx(targetId);
    if src >= 0 && dst >= 0 && Reachable(Compressed(c), "", src, dst) {
      var w :| First(Compressed(c), "", src, dst, w) &&
               path == Bfs.PathResult(IdsOf(c, NodesOf(src, Steps(Compressed(c), "", src, w))), []);
      WordIsWalk(Compressed(c), "", src, w);
      var steps := Steps(Compressed(c), "", src, w);
      ToldInOrder(src, steps);
      IdsAt(c, NodesOf(src, steps), 0);
      IdsAt(c, NodesOf(src, steps), |steps|);
    }
  }

  lemma {:induction false} IdsAt(c: CsrGraph, indices: seq<int>, i: nat)
    requires i < |indices|
    ensures IdsOf(c, indices)[i] == if 0 <= indices[i] < |c.idxToId| then c.idxToId[indices[i]] else -1
  {
    if i < |indices| - 1 {
      IdsAt(c, Init(indices), i);
    }
  }

  /** A first word in one graph is a first word in the other. */
  lemma SameFirst(c: CsrGraph, meta: map<int, NodeMeta>, adj: Adjacency, src: int, dst: int, w: Word)
    requires WellShaped(c) && Represents(c, meta, adj) && Known(adj, meta.Keys) && src in meta && dst in meta
    ensures First(Compressed(c), "", c.ToIdx(src), c.ToIdx(dst), w) <==> First(adj, "", src, dst, w)
  {
    assert src in meta.Keys && dst in meta.Keys;
    forall x
      ensures IsWord(Compressed(c), "", c.ToIdx(src), x) <==> IsWord(adj, "", src, x)
      ensures At(Compressed(c), c.ToIdx(src), x) == c.ToIdx(dst) <==> At(adj, src, x) == dst
    {
      SameWords(c, meta, adj, src, x);
      assert At(adj, src, x) in meta.Keys;
    }
  }

  lemma SameReachable(c: CsrGraph, meta: map<int, NodeMeta>, adj: Adjacency, src: int, dst: int)
    requires WellShaped(c) && Represents(c, meta, adj) && Known(adj, meta.Keys) && src in meta && dst in meta
    ensures Reachable(Compressed(c), "", c.ToIdx(src), c.ToIdx(dst)) <==> Reachable(adj, "", src, dst)
  {
    assert src in meta.Keys && dst in meta.Keys;
    if Reachable(Compressed(c), "", c.ToIdx(src), c.ToIdx(dst)) {
      var steps :| Walk(Compressed(c), "", c.ToIdx(src), steps) && End(c.ToIdx(src), steps) == c.ToIdx(dst);
      var w := WalkHasWord(Compressed(c), "", c.ToIdx(src), steps);
      SameWords(c, meta, adj, src, w);
      assert At(adj, src, w) in meta.Keys;
      WordIsWalk(adj, "", src, w);
    }
    if Reachable(adj, "", src, dst) {
      var steps :| Walk(adj, "", src, steps) && End(src, steps) == dst;
      var w := WalkHasWord(adj, "", src, steps);
      SameWords(c, meta, adj, src, w);
      WordIsWalk(Compressed(c), "", c.ToIdx(src), w);
    }
  }

  /** The fast search and the simple one return the same nodes. */
  lemma BfsAgrees(c: CsrGraph, meta: map<int, NodeMeta>, adj: Adjacency, src: int, dst: int,
                  fast: Bfs.PathResult, simple: Bfs.PathResult)
    requires WellShaped(c) && Represents(c, meta, adj) && Known(adj, meta.Keys) && src in meta && dst in meta
    requires Answers(c, src, dst, fast) && Bfs.Answers(adj, "", src, dst, simple)
    ensures fast.nodes == simple.nodes
  {
    assert src in meta.Keys && dst in meta.Keys;
    SameReachable(c, meta, adj, src, dst);
    if Reachable(adj, "", src, dst) {
      var s, d := c.ToIdx(src), c.ToIdx(dst);
      var v :| First(Compressed(c), "", s, d, v) &&
               fast == Bfs.PathResult(IdsOf(c, NodesOf(s, Steps(Compressed(c), "", s, v))), []);
      var w :| First(adj, "", src, dst, w) && simple.nodes == NodesOf(src, Steps(adj, "", src, w));
      SameFirst(c, meta, adj, src, dst, v);
      FirstIsUnique(adj, "", src, dst, v, w);
      SameNodes(c, meta, adj, src, w);
    }
  }

  /** The tables of the searches over indices; they keep no relations. */
  ghost predicate Tables(visited: seq<bool>, parent: seq<int>, t: Trace) {
    && |visited| == |parent|
    && (forall v :: v in t.word ==> 0 <= v < |visited| && v in t.parent && parent[v] == t.parent[v])
    && (forall v :: 0 <= v < |visited| ==> (visited[v] <==> v in t.word))
  }

  lemma TablesFound(visited: seq<bool>, parent: seq<int>, t: Trace, node: int, k: nat, x: int)
    requires Tables(visited, parent, t) && node in t.word && 0 <= x < |visited| && x !in t.word
    ensures Tables(visited[x := true], parent[x := node], Found(t, node, k, x))
  {
  }

  lemma RoomInQueue(src: int, visited: seq<bool>, parent: seq<int>, queue: seq<int>, head: nat, t: Trace, x: int)
    requires Queued(src, queue, head, t) && Tables(visited, parent, t) && 0 <= x < |visited| && x !in t.word
    ensures |queue| < |visited|
  {
    Distinct(src, queue, head, t);
    Sets.Pigeonhole(queue + [x], |visited|);
  }

  lemma CompressedHasNoSentinel(c: CsrGraph, src: int)
    requires WellShaped(c) && 0 <= src
    ensures NoSentinel(Compressed(c), src)
  {
    forall u, e | e in Neighbors(Compressed(c), u)
      ensures e.to != -1
    {
      var k :| 0 <= k < |Neighbors(Compressed(c), u)| && Neighbors(Compressed(c), u)[k] == e;
      assert SliceWithin(c, u) && e == EdgeAt(c, c.offsets[u] + k);
    }
  }

  /** The nodes a trace reaches `v` through. */
  ghost function NodesTo(c: CsrGraph, src: int, t: Trace, v: int): seq<int>
    requires WellShaped(c)
  {
    IdsOf(c, Bfs.PathTo(Compressed(c), "", src, t, v).nodes)
  }

  lemma StepBack(c: CsrGraph, src: int, visited: seq<bool>, parent: seq<int>, t: Trace, v: int)
    requires WellShaped(c) && 0 <= src && Tree(Compressed(c), "", src, t) && Tables(visited, parent, t)
    requires |visited| == c.nodeCount && v in t.word
    ensures 0 <= v < |parent| == |c.idxToId|
    ensures parent[v] == -1 ==> NodesTo(c, src, t, v) == [c.idxToId[v]]
    ensures parent[v] != -1 ==>
              && parent[v] in t.word && |t.word[parent[v]]| < |t.word[v]|
              && NodesTo(c, src, t, v) == NodesTo(c, src, t, parent[v]) + [c.idxToId[v]]
  {
    CompressedHasNoSentinel(c, src);
    Bfs.StepBack(Compressed(c), "", src, t, v);
    IdsOfAppend(c, if parent[v] == -1 then [] else Bfs.PathTo(Compressed(c), "", src, t, parent[v]).nodes, v);
    assert [] + [v] == [v];
  }

  /** Follows the parents back from `dst`, collecting ids, and reverses them. */
  method ParentWalk(c: CsrGraph, ghost src: int, dst: int, parent: array<int>, ghost visited: seq<bool>, ghost t: Trace)
    returns (nodes: seq<int>)
    requires WellShaped(c) && 0 <= src && Tree(Compressed(c), "", src, t) && Tables(visited, parent[..], t)
    requires |visited| == c.nodeCount && dst in t.word
    ensures nodes == NodesTo(c, src, t, dst) != []
  {
    hide Tree, Tables, NodesTo, Reverse, WellShaped;
    nodes := [];
    var cur := dst;
    assert Reverse(nodes) == [];
    StepBack(c, src, visited, parent[..], t, dst);
    ghost var all := NodesTo(c, src, t, dst);
    ghost var left := all;
    while cur != -1
      invariant cur != -1 ==> cur in t.word && left == NodesTo(c, src, t, cur)
      invariant cur == -1 ==> left == []
      invariant all == left + Reverse(nodes)
      decreases cur != -1, if cur == -1 then 0 else |t.word[cur]|
    {
      StepBack(c, src, visited, parent[..], t, cur);
      var next := parent[cur];
      left := if next == -1 then [] else NodesTo(c, src, t, next);
      CollectBack(all, left, c.idxToId[cur], nodes);
      nodes := nodes + [c.idxToId[cur]];
      cur := next;
    }
    nodes := Reverse(nodes);
    NodesToNotEmpty(c, src, t, dst);
  }

  lemma NodesToNotEmpty(c: CsrGraph, src: int, t: Trace, v: int)
    requires WellShaped(c) && Tree(Compressed(c), "", src, t) && v in t.word
    ensures NodesTo(c, src, t, v) != []
  {
    assert Grown(Compressed(c), "", src, t, v);
  }

  /** The slice as the loop reads it. */
  lemma EdgeInSlice(c: CsrGraph, u: int, e: int)
    requires WellShaped(c) && 0 <= u < c.nodeCount
    ensures u + 1 < |c.offsets| && 0 <= c.offsets[u] <= c.offsets[u + 1] <= |c.targets| == |c.weights| == |c.relTypes|
    ensures |Neighbors(Compressed(c), u)| == c.offsets[u + 1] - c.offsets[u]
    ensures c.offsets[u] <= e < c.offsets[u + 1] ==>
              Neighbors(Compressed(c), u)[e - c.offsets[u]] == EdgeAt(c, e) && 0 <= c.targets[e] < c.nodeCount
  {
    assert SliceWithin(c, u);
  }

  method Mark(visited: array<bool>, parent: array<int>, node: int, ghost k: nat, x: int, ghost t: Trace)
    requires Tables(visited[..], parent[..], t) && node in t.word && 0 <= x < visited.Length && x !in t.word
    modifies visited, parent
    ensures Tables(visited[..], parent[..], Found(t, node, k, x))
  {
    TablesFound(visited[..], parent[..], t, node, k, x);
    ghost var v0, p0 := visited[..], parent[..];
    visited[x], parent[x] := true, node;
    assert visited[..] == v0[x := true] && parent[..] == p0[x := node];
  }

  lemma FoundAnswers(c: CsrGraph, sourceId: int, targetId: int, t: Trace)
    requires WellShaped(c) && c.ToIdx(sourceId) >= 0 && c.ToIdx(targetId) >= 0 && c.ToIdx(targetId) in t.word
    requires First(Compressed(c), "", c.ToIdx(sourceId), c.ToIdx(targetId), t.word[c.ToIdx(targetId)])
    ensures Answers(c, sourceId, targetId, Bfs.PathResult(NodesTo(c, c.ToIdx(sourceId), t, c.ToIdx(targetId)), []))
    ensures NodesTo(c, c.ToIdx(sourceId), t, c.ToIdx(targetId)) != []
  {
    WordIsWalk(Compressed(c), "", c.ToIdx(sourceId), t.word[c.ToIdx(targetId)]);
  }

  lemma TrivialAnswer(c: CsrGraph, sourceId: int, targetId: int)
    requires WellShaped(c) && 0 <= c.ToIdx(sourceId) == c.ToIdx(targetId)
    ensures Answers(c, sourceId, targetId, Bfs.PathResult([sourceId], []))
  {
    var src := c.ToIdx(sourceId);
    ReachableSelf(Compressed(c), "", src);
    assert First(Compressed(c), "", src, src, []);
    assert Steps(Compressed(c), "", src, []) == [];
    IdsOfAppend(c, [], src);
    assert [] + [src] == [src];
  }

  lemma NoAnswer(c: CsrGraph, sourceId: int, targetId: int)
    requires WellShaped(c)
    requires c.ToIdx(sourceId) >= 0 && c.ToIdx(targetId) >= 0 ==>
               !Reachable(Compressed(c), "", c.ToIdx(sourceId), c.ToIdx(targetId))
    ensures Answers(c, sourceId, targetId, Bfs.NO_PATH)
  {
  }

  /** The inner loop; the nodes are empty unless `dst` turned up. */
  method ExpandNode(c: CsrGraph, src: int, dst: int, head: nat, tail0: nat, visited: array<bool>, parent: array<int>,
                    queue: array<int>, ghost t0: Trace)
    returns (nodes: seq<int>, tail: nat, ghost t: Trace)
    requires WellShaped(c) && 0 <= src && visited.Length == queue.Length == c.nodeCount && parent != queue
    requires 0 < head <= tail0 <= queue.Length
    requires Expanding(Compressed(c), "", src, queue[..tail0], head, t0, 0) && dst !in t0.word
    requires Tables(visited[..], parent[..], t0)
    modifies visited, parent, queue
    ensures nodes == [] ==>
              && tail0 <= tail <= queue.Length && dst !in t.word
              && Searching(Compressed(c), "", src, queue[..tail], head, t) && Tables(visited[..], parent[..], t)
    ensures nodes != [] ==> dst in t.word && nodes == NodesTo(c, src, t, dst) &&
                            First(Compressed(c), "", src, dst, t.word[dst])
  {
    hide NodesTo, Compressed, First, Done, AllCovered, ChildrenBelow, Hangs, Grown, ParentBefore, Before;
    tail, t, nodes := tail0, t0, [];
    var node := queue[head - 1];
    assert queue[..tail][head - 1] in t.word;
    EdgeInSlice(c, node, c.offsets[node]);
    var begin, end := c.offsets[node], c.offsets[node + 1];
    for e := begin to end
      invariant tail0 <= tail <= queue.Length && node == queue[..tail][head - 1]
      invariant Expanding(Compressed(c), "", src, queue[..tail], head, t, e - begin)
      invariant Tables(visited[..], parent[..], t) && dst !in t.word
    {
      var nb := c.targets[e];
      EdgeInSlice(c, node, e);
      if visited[nb] {
        Skips(Compressed(c), "", src, queue[..tail], head, t, e - begin);
      } else {
        RoomInQueue(src, visited[..], parent[..], queue[..tail], head, t, nb);
        FoundFirst(Compressed(c), "", src, queue[..tail], head, t, e - begin);
        FindsTree(Compressed(c), "", src, t, node, e - begin);
        Finds(Compressed(c), "", src, queue[..tail], head, t, e - begin);
        Mark(visited, parent, node, e - begin, nb, t);
        if nb == dst {
          t := Found(t, node, e - begin, nb);
          nodes := ParentWalk(c, src, dst, parent, visited[..], t);
          return;
        }
        Bfs.Push(queue, tail, nb);
        t := Found(t, node, e - begin, nb);
        tail := tail + 1;
      }
    }
    Closes(Compressed(c), "", src, queue[..tail], head, t);
  }

  /** `bfs_path_csr`. */
  method BfsPathCsr(c: CsrGraph, sourceId: int, targetId: int) returns (path: Bfs.PathResult)
    requires WellShaped(c)
    ensures Answers(c, sourceId, targetId, path)
  {
    hide Answers, Searching, Expanding, Tables, NodesTo, Compressed, First;
    var src, dst := c.ToIdx(sourceId), c.ToIdx(targetId);
    if src < 0 || dst < 0 {
      NoAnswer(c, sourceId, targetId);
      return Bfs.NO_PATH;
    }
    if src == dst {
      TrivialAnswer(c, sourceId, targetId);
      return Bfs.PathResult([sourceId], []);
    }
    var n := c.nodeCount;
    var parent, visited, queue := new int[n](_ => -1), new bool[n](_ => false), new int[n];
    var head, tail := 0, 1;
    queue[0], visited[src] := src, true;
    ghost var t := Trace(map[src := []], map[src := -1]);
    Starts(Compressed(c), "", src);
    TablesStart(src, visited[..], parent[..]);
    assert queue[..tail] == [src];
    while head < tail
      invariant head <= tail <= n
      invariant Searching(Compressed(c), "", src, queue[..tail], head, t)
      invariant Tables(visited[..], parent[..], t) && dst !in t.word
      decreases n - head
    {
      Opens(Compressed(c), "", src, queue[..tail], head, t);
      head := head + 1;
      var nodes;
      nodes, tail, t := ExpandNode(c, src, dst, head, tail, visited, parent, queue, t);
      if nodes != [] {
        FoundAnswers(c, sourceId, targetId, t);
        return Bfs.PathResult(nodes, []);
      }
    }
    Drained(Compressed(c), "", src, queue[..tail], t, dst);
    NoAnswer(c, sourceId, targetId);
    return Bfs.NO_PATH;
  }

  lemma TablesStart(src: int, visited: seq<bool>, parent: seq<int>)
    requires |visited| == |parent| && 0 <= src < |visited| && parent[src] == -1
    requires forall v :: 0 <= v < |visited| ==> visited[v] == (v == src)
    ensures Tables(visited, parent, Trace(map[src := []], map[src := -1]))
  {
  }
}
