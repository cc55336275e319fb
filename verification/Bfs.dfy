/** Breadth-first searches over the adjacency lists. */
module Bfs {
  import opened Sets
  import opened Walks
  import opened Words
  import opened BfsSearch

  datatype PathResult = PathResult(nodes: seq<int>, rels: seq<string>)

  const NO_PATH := PathResult([], [])

  /** The answer is the walk named by the first word to `dst`, or there is none and it is empty. */
  ghost predicate Answers(adj: Adjacency, filter: string, src: int, dst: int, path: PathResult) {
    if Reachable(adj, filter, src, dst) then
      exists w ::
        First(adj, filter, src, dst, w) &&
        path == PathResult(NodesOf(src, Steps(adj, filter, src, w)), RelsOf(Steps(adj, filter, src, w)))
    else
      path == NO_PATH
  }

  /** An answer is empty if and only if there is no walk, and then wholly; any other leads from the source to
      the target along edges that pass the filter, as few as possible. */
  lemma AnswersMean(adj: Adjacency, filter: string, src: int, dst: int, path: PathResult)
    requires Answers(adj, filter, src, dst, path)
    ensures path.nodes == [] <==> !Reachable(adj, filter, src, dst)
    ensures path.nodes == [] ==> path.rels == []
    ensures path.nodes != [] ==>
              && path.nodes[0] == src && path.nodes[|path.nodes| - 1] == dst
              && Joined(adj, filter, path.nodes, path.rels)
              && forall steps :: Walk(adj, filter, src, steps) && End(src, steps) == dst ==> |path.rels| <= |steps|
  {
    if Reachable(adj, filter, src, dst) {
      var w :| First(adj, filter, src, dst, w) &&
               path == PathResult(NodesOf(src, Steps(adj, filter, src, w)), RelsOf(Steps(adj, filter, src, w)));
      WordIsWalk(adj, filter, src, w);
      var found := Steps(adj, filter, src, w);
      WalkJoins(adj, filter, src, found);
      ToldInOrder(src, found);
      forall steps | Walk(adj, filter, src, steps) && End(src, steps) == dst
        ensures |found| <= |steps|
      {
        FirstIsShortest(adj, filter, src, dst, w, steps);
      }
    }
  }

  /** Every edge leads to an id below `n`: the tables of the search have `n` slots. */
  ghost predicate Below(adj: Adjacency, n: nat) {
    forall u, e :: e in Neighbors(adj, u) ==> 0 <= e.to < n
  }

  /** The relation of the edge `v` was found by. */
  ghost function RelOf(adj: Adjacency, t: Trace, v: int): string
    requires v in t.word && v in t.parent && t.word[v] != []
  {
    var es := Neighbors(adj, t.parent[v]);
    if Last(t.word[v]) < |es| then es[Last(t.word[v])].rel else ""
  }

  /** The arrays of the search say what the trace says. */
  ghost predicate Tables(adj: Adjacency, src: int, visited: seq<bool>, parent: seq<int>, via: seq<string>, t: Trace) {
    && |visited| == |parent| == |via|
    && (forall v :: v in t.word ==> 0 <= v < |visited| && v in t.parent && parent[v] == t.parent[v])
    && (forall v :: 0 <= v < |visited| ==> (visited[v] <==> v in t.word))
    && (forall v :: v in t.word && v != src ==> t.word[v] != [] && via[v] == RelOf(adj, t, v))
  }

  /** The path by which the trace reaches `v`. */
  ghost function PathTo(adj: Adjacency, filter: string, src: int, t: Trace, v: int): PathResult {
    if v in t.word && IsWord(adj, filter, src, t.word[v]) then
      var steps := Steps(adj, filter, src, t.word[v]);
      PathResult(NodesOf(src, steps), RelsOf(steps))
    else NO_PATH
  }

  lemma RangeHasNoSentinel(adj: Adjacency, n: nat, src: int)
    requires Below(adj, n) && 0 <= src
    ensures NoSentinel(adj, src)
  {
  }

  lemma StepBack(adj: Adjacency, filter: string, src: int, t: Trace, v: int)
    requires Tree(adj, filter, src, t) && v in t.word && NoSentinel(adj, src)
    ensures v != -1 && v in t.parent && IsWord(adj, filter, src, t.word[v])
    ensures t.parent[v] == -1 ==> PathTo(adj, filter, src, t, v) == PathResult([v], [])
    ensures t.parent[v] != -1 ==>
              && v != src && t.parent[v] in t.word && |t.word[t.parent[v]]| < |t.word[v]|
              && PathTo(adj, filter, src, t, v).nodes == PathTo(adj, filter, src, t, t.parent[v]).nodes + [v]
              && PathTo(adj, filter, src, t, v).rels == PathTo(adj, filter, src, t, t.parent[v]).rels + [RelOf(adj, t, v)]
  {
    assert Grown(adj, filter, src, t, v);
    WordIsWalk(adj, filter, src, t.word[v]);
    EndIsNoSentinel(adj, filter, src, Steps(adj, filter, src, t.word[v]));
    if v != src {
      assert Hangs(t, v);
      var u := t.parent[v];
      assert Grown(adj, filter, src, t, u);
      WordIsWalk(adj, filter, src, t.word[u]);
      EndIsNoSentinel(adj, filter, src, Steps(adj, filter, src, t.word[u]));
      assert Init(Steps(adj, filter, src, t.word[v])) == Steps(adj, filter, src, t.word[u]);
    }
  }

  lemma SlotOf(adj: Adjacency, src: int, visited: seq<bool>, parent: seq<int>, via: seq<string>, t: Trace, u: int, k: nat)
    requires Tables(adj, src, visited, parent, via, t) && Below(adj, |visited|) && k < |Neighbors(adj, u)|
    ensures var x := Neighbors(adj, u)[k].to; 0 <= x < |visited| && (visited[x] <==> x in t.word)
  {
    assert Neighbors(adj, u)[k] in Neighbors(adj, u);
  }

  lemma StepTables(adj: Adjacency, filter: string, src: int, visited: seq<bool>, parent: seq<int>, via: seq<string>, t: Trace, v: int)
    requires Tables(adj, src, visited, parent, via, t) && v in t.word && v in t.parent
    ensures 0 <= v < |parent| == |via| && parent[v] == t.parent[v]
    ensures v != src ==> t.word[v] != [] && via[v] == RelOf(adj, t, v)
  {
  }

  /** One step back moves the node and the relation from what is left to what is collected. */
  lemma CollectsStep(adj: Adjacency, filter: string, src: int, t: Trace, v: int, all: PathResult, nodes: seq<int>, rels: seq<string>)
    requires Tree(adj, filter, src, t) && v in t.word && NoSentinel(adj, src)
    requires all.nodes == PathTo(adj, filter, src, t, v).nodes + Reverse(nodes)
    requires all.rels == PathTo(adj, filter, src, t, v).rels + Reverse(rels)
    ensures v in t.parent
    ensures t.parent[v] == -1 ==> all.nodes == Reverse(nodes + [v]) && all.rels == Reverse(rels)
    ensures t.parent[v] != -1 ==>
              && t.word[v] != []
              && all.nodes == PathTo(adj, filter, src, t, t.parent[v]).nodes + Reverse(nodes + [v])
              && all.rels == PathTo(adj, filter, src, t, t.parent[v]).rels + Reverse(rels + [RelOf(adj, t, v)])
  {
    hide Tree, PathTo, Reverse, RelOf, NoSentinel;
    StepBack(adj, filter, src, t, v);
    if t.parent[v] == -1 {
      CollectBack(all.nodes, [], v, nodes);
    } else {
      CollectBack(all.nodes, PathTo(adj, filter, src, t, t.parent[v]).nodes, v, nodes);
      CollectBack(all.rels, PathTo(adj, filter, src, t, t.parent[v]).rels, RelOf(adj, t, v), rels);
    }
  }

  /** Follows the parents back from `target` and reverses what it collected. */
  method ParentWalk(adj: Adjacency, filter: string, src: int, target: int, parent: array<int>, via: array<string>,
                    ghost visited: seq<bool>, ghost t: Trace) returns (path: PathResult)
    requires Tree(adj, filter, src, t) && target in t.word && NoSentinel(adj, src)
    requires Tables(adj, src, visited, parent[..], via[..], t)
    ensures path == PathTo(adj, filter, src, t, target)
  {
    hide Tree, Tables, PathTo, Reverse, RelOf, NoSentinel, Neighbors;
    var nodes, rels: seq<string> := [], [];
    var cur := target;
    assert Reverse(nodes) == [] && Reverse(rels) == [];
    StepBack(adj, filter, src, t, target);
    ghost var all := PathTo(adj, filter, src, t, target);
    ghost var left := all;
    while cur != -1
      invariant cur != -1 ==> cur in t.word && left == PathTo(adj, filter, src, t, cur)
      invariant cur == -1 ==> left == NO_PATH
      invariant all.nodes == left.nodes + Reverse(nodes) && all.rels == left.rels + Reverse(rels)
      decreases cur != -1, if cur == -1 then 0 else |t.word[cur]|
    {
      StepBack(adj, filter, src, t, cur);
      StepTables(adj, filter, src, visited, parent[..], via[..], t, cur);
      CollectsStep(adj, filter, src, t, cur, all, nodes, rels);
      var next := parent[cur];
      left := if next == -1 then NO_PATH else PathTo(adj, filter, src, t, next);
      nodes := nodes + [cur];
      if next != -1 {
        rels := rels + [via[cur]];
      }
      cur := next;
    }
    path := PathResult(Reverse(nodes), Reverse(rels));
  }

  lemma TablesFound(adj: Adjacency, filter: string, src: int, visited: seq<bool>, parent: seq<int>, via: seq<string>,
                    t: Trace, node: int, k: nat)
    requires Tables(adj, src, visited, parent, via, t) && Tree(adj, filter, src, t) && node in t.word
    requires k < |Neighbors(adj, node)| && 0 <= Neighbors(adj, node)[k].to < |visited|
    requires Neighbors(adj, node)[k].to !in t.word
    ensures var e := Neighbors(adj, node)[k];
            Tables(adj, src, visited[e.to := true], parent[e.to := node], via[e.to := e.rel], Found(t, node, k, e.to))
  {
    var e := Neighbors(adj, node)[k];
    var r := Found(t, node, k, e.to);
    forall v | v in r.word && v != src
      ensures r.word[v] != [] && via[e.to := e.rel][v] == RelOf(adj, r, v)
    {
      if v != e.to {
        assert Hangs(t, v);
      }
    }
  }

  /** There is room for every node the queue has yet to take. */
  lemma RoomInQueue(adj: Adjacency, filter: string, src: int, visited: seq<bool>, parent: seq<int>, via: seq<string>,
                    queue: seq<int>, head: nat, t: Trace, x: int)
    requires Queued(src, queue, head, t) && Tables(adj, src, visited, parent, via, t)
    requires 0 <= x < |visited| && x !in t.word
    ensures |queue| < |visited|
  {
    Distinct(src, queue, head, t);
    Pigeonhole(queue + [x], |visited|);
  }

  lemma TrivialAnswer(adj: Adjacency, filter: string, src: int)
    ensures Answers(adj, filter, src, src, PathResult([src], []))
  {
    ReachableSelf(adj, filter, src);
    assert First(adj, filter, src, src, []);
    assert Steps(adj, filter, src, []) == [];
  }

  lemma NoAnswer(adj: Adjacency, filter: string, src: int, dst: int)
    requires !Reachable(adj, filter, src, dst)
    ensures Answers(adj, filter, src, dst, NO_PATH)
  {
  }

  lemma TablesStart(adj: Adjacency, src: int, visited: seq<bool>, parent: seq<int>, via: seq<string>)
    requires |visited| == |parent| == |via| && 0 <= src < |visited|
    requires parent[src] == -1 && forall v :: 0 <= v < |visited| ==> visited[v] == (v == src)
    ensures Tables(adj, src, visited, parent, via, Trace(map[src := []], map[src := -1]))
  {
  }

  lemma FoundAnswers(adj: Adjacency, filter: string, src: int, t: Trace, dst: int)
    requires dst in t.word && First(adj, filter, src, dst, t.word[dst])
    ensures Answers(adj, filter, src, dst, PathTo(adj, filter, src, t, dst))
    ensures PathTo(adj, filter, src, t, dst) != NO_PATH
  {
    WordIsWalk(adj, filter, src, t.word[dst]);
    assert Reachable(adj, filter, src, dst);
  }

  /** Marks the target of the `k`-th edge of `node`. */
  method Mark(adj: Adjacency, filter: string, ghost src: int, node: int, k: nat,
              visited: array<bool>, parent: array<int>, via: array<string>, ghost t: Trace)
    requires Tree(adj, filter, src, t) && node in t.word && Tables(adj, src, visited[..], parent[..], via[..], t)
    requires k < |Neighbors(adj, node)| && 0 <= Neighbors(adj, node)[k].to < visited.Length
    requires Neighbors(adj, node)[k].to !in t.word
    modifies visited, parent, via
    ensures Tables(adj, src, visited[..], parent[..], via[..], Found(t, node, k, Neighbors(adj, node)[k].to))
  {
    var e := Neighbors(adj, node)[k];
    TablesFound(adj, filter, src, visited[..], parent[..], via[..], t, node, k);
    ghost var v0, p0, r0 := visited[..], parent[..], via[..];
    visited[e.to], parent[e.to], via[e.to] := true, node, e.rel;
    assert visited[..] == v0[e.to := true] && parent[..] == p0[e.to := node] && via[..] == r0[e.to := e.rel];
  }

  method Push(queue: array<int>, tail: nat, x: int)
    requires tail < queue.Length
    modifies queue
    ensures queue[..tail + 1] == old(queue[..tail]) + [x]
  {
    queue[tail] := x;
  }

  /** The inner loop: looks at the edges of the node just taken from the queue. The path is empty
      unless the target turned up. */
  method ExpandNode(adj: Adjacency, filter: string, source: int, target: int, head: nat, tail0: nat,
                    visited: array<bool>, parent: array<int>, via: array<string>, queue: array<int>, ghost t0: Trace)
    returns (path: PathResult, tail: nat, ghost t: Trace)
    requires 0 < head <= tail0 <= queue.Length == visited.Length && 0 <= source && Below(adj, visited.Length)
    requires parent != queue
    requires Expanding(adj, filter, source, queue[..tail0], head, t0, 0) && target !in t0.word
    requires Tables(adj, source, visited[..], parent[..], via[..], t0)
    modifies visited, parent, via, queue
    ensures path == NO_PATH ==>
              && tail0 <= tail <= queue.Length && target !in t.word
              && Searching(adj, filter, source, queue[..tail], head, t)
              && Tables(adj, source, visited[..], parent[..], via[..], t)
    ensures path != NO_PATH ==> Answers(adj, filter, source, target, path)
  {
    hide Answers, Expanding, Searching, Tree, Queued, Tables, Below, IsWord, First;
    tail, t, path := tail0, t0, NO_PATH;
    var node := queue[head - 1];
    var es := Neighbors(adj, node);
    for k := 0 to |es|
      invariant tail0 <= tail <= queue.Length && node == queue[..tail][head - 1]
      invariant Expanding(adj, filter, source, queue[..tail], head, t, k)
      invariant Tables(adj, source, visited[..], parent[..], via[..], t)
      invariant target !in t.word
    {
      var e := es[k];
      Opened(adj, filter, source, queue[..tail], head, t, k);
      SlotOf(adj, source, visited[..], parent[..], via[..], t, node, k);
      if !Passes(filter, e) || visited[e.to] {
        Skips(adj, filter, source, queue[..tail], head, t, k);
      } else {
        RoomInQueue(adj, filter, source, visited[..], parent[..], via[..], queue[..tail], head, t, e.to);
        if e.to == target {
          RangeHasNoSentinel(adj, visited.Length, source);
          FoundFirst(adj, filter, source, queue[..tail], head, t, k);
          FindsTree(adj, filter, source, t, node, k);
          Mark(adj, filter, source, node, k, visited, parent, via, t);
          t := Found(t, node, k, target);
          path := ParentWalk(adj, filter, source, target, parent, via, visited[..], t);
          FoundAnswers(adj, filter, source, t, target);
          return;
        }
        Finds(adj, filter, source, queue[..tail], head, t, k);
        Mark(adj, filter, source, node, k, visited, parent, via, t);
        Push(queue, tail, e.to);
        t := Found(t, node, k, e.to);
        tail := tail + 1;
      }
    }
    Closes(adj, filter, source, queue[..tail], head, t);
  }

  /** `bfs_path`: marks a node when it is met, queues it unless it is the target. */
  method BfsPath(adj: Adjacency, maxNodeId: int, source: int, target: int, filter: string) returns (path: PathResult)
    requires source != target ==> 0 <= source <= maxNodeId && Below(adj, maxNodeId + 1)
    ensures Answers(adj, filter, source, target, path)
  {
    hide Searching, Expanding, Tables, Answers, Below;
    if source == target {
      TrivialAnswer(adj, filter, source);
      return PathResult([source], []);
    }
    var n := maxNodeId + 1;
    var parent, via, visited, queue := new int[n], new string[n], new bool[n](_ => false), new int[n];
    var head, tail := 0, 1;
    queue[0], visited[source], parent[source] := source, true, -1;
    ghost var t := Trace(map[source := []], map[source := -1]);
    Starts(adj, filter, source);
    TablesStart(adj, source, visited[..], parent[..], via[..]);
    assert queue[..tail] == [source];
    while head < tail
      invariant head <= tail <= n
      invariant Searching(adj, filter, source, queue[..tail], head, t)
      invariant Tables(adj, source, visited[..], parent[..], via[..], t)
      invariant target !in t.word
      decreases n - head
    {
      Opens(adj, filter, source, queue[..tail], head, t);
      head := head + 1;
      path, tail, t := ExpandNode(adj, filter, source, target, head, tail, visited, parent, via, queue, t);
      if path != NO_PATH {
        return;
      }
    }
    Drained(adj, filter, source, queue[..tail], t, target);
    NoAnswer(adj, filter, source, target);
    return NO_PATH;
  }

  datatype HopResult = HopResult(node: int, hop: nat, via: int, rel: string)

  /** `d` is the least number of edges on a filtered walk to `v`. */
  ghost predicate Distance(adj: Adjacency, filter: string, src: int, v: int, d: nat) {
    && (exists steps :: Walk(adj, filter, src, steps) && End(src, steps) == v && |steps| == d)
    && forall steps :: Walk(adj, filter, src, steps) && End(src, steps) == v ==> d <= |steps|
  }

  /** The entry tells the node's distance and an edge to it from a node one hop nearer. */
  ghost predicate IsHop(adj: Adjacency, filter: string, src: int, r: HopResult) {
    && Distance(adj, filter, src, r.node, r.hop) && 0 < r.hop && Distance(adj, filter, src, r.via, r.hop - 1)
    && exists e :: e in Neighbors(adj, r.via) && Passes(filter, e) && e.to == r.node && e.rel == r.rel
  }

  lemma FirstHasDistance(adj: Adjacency, filter: string, src: int, v: int, w: Word)
    requires First(adj, filter, src, v, w)
    ensures Distance(adj, filter, src, v, |w|)
  {
    WordIsWalk(adj, filter, src, w);
    forall steps | Walk(adj, filter, src, steps) && End(src, steps) == v
      ensures |w| <= |steps|
    {
      FirstIsShortest(adj, filter, src, v, w, steps);
    }
  }

  /** What the search had covered when it stopped expanding: everything before `cut`, and at `cut`
      nodes are `maxHops` away or more. */
  ghost predicate Frozen(adj: Adjacency, filter: string, src: int, maxHops: int, queue: seq<int>, cut: nat, head: nat, t: Trace) {
    Searching(adj, filter, src, queue, cut, t) && Cut(maxHops, queue, cut, head, t)
  }

  ghost predicate Cut(maxHops: int, queue: seq<int>, cut: nat, head: nat, t: Trace) {
    && cut <= head <= |queue|
    && (cut < head ==> queue[cut] in t.word && !Near(maxHops, t, queue[cut]))
    && (forall i {:trigger Near(maxHops, t, queue[i])} :: 0 <= i < cut ==> Near(maxHops, t, queue[i]))
  }

  ghost predicate Near(maxHops: int, t: Trace, v: int) {
    v in t.word && |t.word[v]| < maxHops
  }

  lemma FarFromTheCutOn(adj: Adjacency, filter: string, src: int, maxHops: int, queue: seq<int>, cut: nat, head: nat, t: Trace)
    requires Frozen(adj, filter, src, maxHops, queue, cut, head, t) && head < |queue|
    requires |t.word[queue[head]]| < maxHops
    ensures cut == head
  {
    assert cut < head ==> Before(t.word[queue[cut]], t.word[queue[head]]);
  }

  /** Nodes within `maxHops` are known, by their first words. */
  lemma WithinHops(adj: Adjacency, filter: string, src: int, maxHops: int, queue: seq<int>, cut: nat, t: Trace, w: Word)
    requires Frozen(adj, filter, src, maxHops, queue, cut, |queue|, t)
    requires IsWord(adj, filter, src, w) && |w| <= maxHops
    ensures At(adj, src, w) in t.word && AtMost(t.word[At(adj, src, w)], w)
  {
    var bound := if cut < |queue| then t.word[queue[cut]] + [0] else w + [0];
    AppendMonotone(w, w, 0, 0);
    forall v, j: nat | v in t.word
      ensures Covered(adj, filter, t.word, v, j) || AtMost(bound, t.word[v] + [j])
    {
      var i := IndexOf(src, queue, cut, t, v);
      if i < cut {
        assert AllCovered(adj, filter, t, queue[i], |Neighbors(adj, queue[i])|);
      } else {
        AppendMonotone(t.word[queue[cut]], t.word[v], 0, j);
      }
    }
    Earliest(adj, filter, src, t.word, bound, w);
  }

  /** A node known at most `maxHops` away is known by its first word. */
  lemma KnownFirst(adj: Adjacency, filter: string, src: int, maxHops: int, queue: seq<int>, cut: nat, t: Trace, v: int)
    requires Frozen(adj, filter, src, maxHops, queue, cut, |queue|, t)
    requires v in t.word && |t.word[v]| <= maxHops
    ensures First(adj, filter, src, v, t.word[v])
  {
    assert Grown(adj, filter, src, t, v);
    forall w | IsWord(adj, filter, src, w) && At(adj, src, w) == v
      ensures AtMost(t.word[v], w)
    {
      if |w| <= maxHops {
        WithinHops(adj, filter, src, maxHops, queue, cut, t, w);
      }
    }
  }

  lemma QueueFits(adj: Adjacency, filter: string, src: int, queue: seq<int>, head: nat, t: Trace)
    requires Searching(adj, filter, src, queue, head, t)
    ensures |queue| <= |Universe(adj, src)|
  {
    Distinct(src, queue, head, t);
    forall i | 0 <= i < |queue|
      ensures queue[i] in Universe(adj, src)
    {
      assert Grown(adj, filter, src, t, queue[i]);
      WordIsWalk(adj, filter, src, t.word[queue[i]]);
      EndInUniverse(adj, filter, src, Steps(adj, filter, src, t.word[queue[i]]));
    }
    Spread(queue, Universe(adj, src));
  }

  /** The entry for the `i`-th node ever queued. */
  ghost predicate Recorded(adj: Adjacency, src: int, t: Trace, v: int, r: HopResult) {
    && v in t.word && v in t.parent && v != src && t.word[v] != []
    && r == HopResult(v, |t.word[v]|, t.parent[v], RelOf(adj, t, v))
  }

  ghost predicate RecordedAt(adj: Adjacency, src: int, t: Trace, queue: seq<int>, result: seq<HopResult>, i: nat) {
    i < |result| && i + 1 < |queue| && Recorded(adj, src, t, queue[i + 1], result[i])
  }

  /** The results list the queue, its source apart, in order. */
  ghost predicate Listed(adj: Adjacency, src: int, t: Trace, queue: seq<int>, result: seq<HopResult>) {
    |queue| == |result| + 1 && queue[0] == src &&
    forall i {:trigger RecordedAt(adj, src, t, queue, result, i)} ::
      0 <= i < |result| ==> RecordedAt(adj, src, t, queue, result, i)
  }

  ghost function Hops(t: Trace, v: int): nat {
    if v in t.word then |t.word[v]| else 0
  }

  /** The live queue: what is left of the nodes ever queued, each with its hop count. */
  ghost function Live(t: Trace, queue: seq<int>, head: nat): seq<(int, int)>
    decreases |queue| - head
  {
    if head >= |queue| then [] else [(queue[head], Hops(t, queue[head]))] + Live(t, queue, head + 1)
  }

  lemma {:induction false} LiveGrows(t: Trace, queue: seq<int>, head: nat, node: int, k: nat, x: int)
    requires head <= |queue| && node in t.word && x !in t.word && forall i :: 0 <= i < |queue| ==> queue[i] in t.word
    ensures Live(Found(t, node, k, x), queue + [x], head) == Live(t, queue, head) + [(x, |t.word[node]| + 1)]
    decreases |queue| - head
  {
    if head < |queue| {
      LiveGrows(t, queue, head + 1, node, k, x);
      assert (queue + [x])[head] == queue[head] != x;
    } else {
      assert Live(Found(t, node, k, x), queue + [x], head + 1) == [];
    }
  }

  lemma ListsOneMore(adj: Adjacency, filter: string, src: int, t: Trace, queue: seq<int>,
                     result: seq<HopResult>, node: int, k: nat)
    requires Listed(adj, src, t, queue, result)
    requires node in t.word && src in t.word && IsEdgeAt(adj, filter, node, k) && Neighbors(adj, node)[k].to !in t.word
    ensures var e := Neighbors(adj, node)[k];
            Listed(adj, src, Found(t, node, k, e.to), queue + [e.to],
                   result + [HopResult(e.to, |t.word[node]| + 1, node, e.rel)])
  {
    var e := Neighbors(adj, node)[k];
    var r, queue', result' := Found(t, node, k, e.to), queue + [e.to], result + [HopResult(e.to, |t.word[node]| + 1, node, e.rel)];
    forall i | 0 <= i < |result'|
      ensures RecordedAt(adj, src, r, queue', result', i)
    {
      if i < |result| {
        assert RecordedAt(adj, src, t, queue, result, i);
      }
    }
  }

  /** What was known stays known by the same words. */
  ghost predicate Keeps(t: Trace, r: Trace) {
    forall v :: v in t.word ==> v in r.word && r.word[v] == t.word[v]
  }

  lemma KeepsMore(t0: Trace, t: Trace, queue0: seq<int>, queue: seq<int>, node: int, k: nat, x: int)
    requires Keeps(t0, t) && queue0 <= queue && node in t.word && x !in t.word
    ensures Keeps(t0, Found(t, node, k, x)) && queue0 <= queue + [x]
  {
  }

  /** The inner loop of `bfs_neighborhood`. */
  method ExpandHops(adj: Adjacency, filter: string, ghost src: int, node: int, hop: nat, visited0: map<int, int>,
                    live0: seq<(int, int)>, result0: seq<HopResult>, ghost queue0: seq<int>, ghost head: nat, ghost t0: Trace)
    returns (visited: map<int, int>, live: seq<(int, int)>, result: seq<HopResult>, ghost queue: seq<int>, ghost t: Trace)
    requires 0 < head <= |queue0| && Expanding(adj, filter, src, queue0, head, t0, 0)
    requires node == queue0[head - 1] && hop == |t0.word[node]| && visited0.Keys == t0.word.Keys
    requires Listed(adj, src, t0, queue0, result0) && live0 == Live(t0, queue0, head)
    ensures Searching(adj, filter, src, queue, head, t) && visited.Keys == t.word.Keys
    ensures Listed(adj, src, t, queue, result) && live == Live(t, queue, head)
    ensures queue0 <= queue && Keeps(t0, t)
  {
    hide Expanding, Searching, Listed, Live, Tree, Queued;
    Opened(adj, filter, src, queue0, head, t0, 0);
    visited, live, result, queue, t := visited0, live0, result0, queue0, t0;
    var es := Neighbors(adj, node);
    for k := 0 to |es|
      invariant 0 < head <= |queue| && node == queue[head - 1]
      invariant Expanding(adj, filter, src, queue, head, t, k) && node in t.word && hop == |t.word[node]|
      invariant visited.Keys == t.word.Keys && queue0 <= queue && Keeps(t0, t)
      invariant Listed(adj, src, t, queue, result) && live == Live(t, queue, head)
    {
      var e := es[k];
      if !Passes(filter, e) || e.to in visited {
        Skips(adj, filter, src, queue, head, t, k);
      } else {
        Opened(adj, filter, src, queue, head, t, k);
        Finds(adj, filter, src, queue, head, t, k);
        ListsOneMore(adj, filter, src, t, queue, result, node, k);
        LiveGrows(t, queue, head, node, k, e.to);
        KeepsMore(t0, t, queue0, queue, node, k, e.to);
        visited := visited[e.to := hop + 1];
        result := result + [HopResult(e.to, hop + 1, node, e.rel)];
        live := live + [(e.to, hop + 1)];
        queue, t := queue + [e.to], Found(t, node, k, e.to);
      }
    }
    Closes(adj, filter, src, queue, head, t);
  }

  /** The result lists exactly the nodes 1 to `maxHops` hops away, each once, nearest first, each with
      its distance and the edge it was met by. */
  ghost predicate IsNeighborhood(adj: Adjacency, filter: string, src: int, maxHops: int, result: seq<HopResult>) {
    && (forall i :: 0 <= i < |result| ==> result[i].hop <= maxHops && IsHop(adj, filter, src, result[i]))
    && (forall i, j :: 0 <= i < j < |result| ==> result[i].node != result[j].node && result[i].hop <= result[j].hop)
    && (forall v, d: nat :: Distance(adj, filter, src, v, d) && 0 < d <= maxHops ==>
          exists i :: 0 <= i < |result| && result[i].node == v)
  }

  lemma RecordedIsHop(adj: Adjacency, filter: string, src: int, maxHops: int, queue: seq<int>, cut: nat, t: Trace,
                      result: seq<HopResult>, i: nat)
    requires Frozen(adj, filter, src, maxHops, queue, cut, |queue|, t) && Listed(adj, src, t, queue, result)
    requires i < |result|
    ensures result[i].hop <= maxHops && IsHop(adj, filter, src, result[i])
  {
    var v := queue[i + 1];
    assert RecordedAt(adj, src, t, queue, result, i);
    var u := t.parent[v];
    assert Hangs(t, v) && Grown(adj, filter, src, t, v) && Grown(adj, filter, src, t, u);
    var j := ParentIndex(src, queue, cut, t, v);
    assert Near(maxHops, t, queue[j]);
    KnownFirst(adj, filter, src, maxHops, queue, cut, t, v);
    KnownFirst(adj, filter, src, maxHops, queue, cut, t, u);
    FirstHasDistance(adj, filter, src, v, t.word[v]);
    FirstHasDistance(adj, filter, src, u, t.word[u]);
    assert Neighbors(adj, u)[Last(t.word[v])] in Neighbors(adj, u);
  }

  lemma FrozenIsNeighborhood(adj: Adjacency, filter: string, src: int, maxHops: int, queue: seq<int>, cut: nat, t: Trace,
                             result: seq<HopResult>)
    requires Frozen(adj, filter, src, maxHops, queue, cut, |queue|, t) && Listed(adj, src, t, queue, result)
    ensures IsNeighborhood(adj, filter, src, maxHops, result)
  {
    forall i | 0 <= i < |result|
      ensures result[i].hop <= maxHops && IsHop(adj, filter, src, result[i])
    {
      RecordedIsHop(adj, filter, src, maxHops, queue, cut, t, result, i);
    }
    Distinct(src, queue, cut, t);
    forall i, j | 0 <= i < j < |result|
      ensures result[i].node != result[j].node && result[i].hop <= result[j].hop
    {
      assert RecordedAt(adj, src, t, queue, result, i) && RecordedAt(adj, src, t, queue, result, j);
      assert Before(t.word[queue[i + 1]], t.word[queue[j + 1]]);
    }
    forall v, d: nat | Distance(adj, filter, src, v, d) && 0 < d <= maxHops
      ensures exists i :: 0 <= i < |result| && result[i].node == v
    {
      var steps :| Walk(adj, filter, src, steps) && End(src, steps) == v && |steps| == d;
      var w := WalkHasWord(adj, filter, src, steps);
      WithinHops(adj, filter, src, maxHops, queue, cut, t, w);
      assert Walk(adj, filter, src, []) && End(src, []) == src;
      var k := IndexOf(src, queue, cut, t, v);
      assert RecordedAt(adj, src, t, queue, result, k - 1);
    }
  }

  lemma CutsLater(maxHops: int, queue: seq<int>, head: nat, t: Trace, queue': seq<int>, t': Trace)
    requires Cut(maxHops, queue, head, head, t) && head < |queue|
    requires Near(maxHops, t, queue[head]) && queue <= queue' && Keeps(t, t')
    ensures Cut(maxHops, queue', head + 1, head + 1, t')
  {
    forall i | 0 <= i < head + 1
      ensures Near(maxHops, t', queue'[i])
    {
      assert queue'[i] == queue[i] && Near(maxHops, t, queue[i]);
    }
  }

  /** The loop invariant of `bfs_neighborhood`. */
  ghost predicate Hopping(adj: Adjacency, filter: string, src: int, maxHops: int, visited: set<int>, live: seq<(int, int)>,
                          result: seq<HopResult>, queue: seq<int>, cut: nat, head: nat, t: Trace) {
    && Searching(adj, filter, src, queue, cut, t) && Cut(maxHops, queue, cut, head, t)
    && visited == t.word.Keys && Listed(adj, src, t, queue, result) && live == Live(t, queue, head)
  }

  lemma BeginsHops(adj: Adjacency, filter: string, src: int, maxHops: int)
    ensures Hopping(adj, filter, src, maxHops, {src}, [(src, 0)], [], [src], 0, 0, Trace(map[src := []], map[src := -1]))
  {
    Starts(adj, filter, src);
    assert Live(Trace(map[src := []], map[src := -1]), [src], 1) == [];
  }

  /** Taking a node `maxHops` away from the queue changes nothing else. */
  lemma PassesFar(adj: Adjacency, filter: string, src: int, maxHops: int, visited: set<int>, live: seq<(int, int)>,
                  result: seq<HopResult>, queue: seq<int>, cut: nat, head: nat, t: Trace)
    requires Hopping(adj, filter, src, maxHops, visited, live, result, queue, cut, head, t)
    requires live != [] && maxHops <= live[0].1
    ensures Hopping(adj, filter, src, maxHops, visited, live[1..], result, queue, cut, head + 1, t)
  {
  }

  /** A node nearer than that is next in line for expansion. */
  lemma OpensNear(adj: Adjacency, filter: string, src: int, maxHops: int, visited: set<int>, live: seq<(int, int)>,
                  result: seq<HopResult>, queue: seq<int>, cut: nat, head: nat, t: Trace)
    requires Hopping(adj, filter, src, maxHops, visited, live, result, queue, cut, head, t)
    requires live != [] && live[0].1 < maxHops
    ensures cut == head < |queue| && queue[head] in t.word && live[0] == (queue[head], |t.word[queue[head]]|)
    ensures Expanding(adj, filter, src, queue, head + 1, t, 0) && live[1..] == Live(t, queue, head + 1)
    ensures visited == t.word.Keys && Listed(adj, src, t, queue, result)
  {
    FarFromTheCutOn(adj, filter, src, maxHops, queue, cut, head, t);
    Opens(adj, filter, src, queue, head, t);
  }

  lemma HopsOn(adj: Adjacency, filter: string, src: int, maxHops: int, visited: set<int>, live: seq<(int, int)>,
               result: seq<HopResult>, queue: seq<int>, head: nat, t: Trace,
               visited': set<int>, live': seq<(int, int)>, result': seq<HopResult>, queue': seq<int>, t': Trace)
    requires Hopping(adj, filter, src, maxHops, visited, live, result, queue, head, head, t)
    requires head < |queue| && queue[head] in t.word && |t.word[queue[head]]| < maxHops && queue <= queue' && Keeps(t, t')
    requires Searching(adj, filter, src, queue', head + 1, t') && visited' == t'.word.Keys
    requires Listed(adj, src, t', queue', result') && live' == Live(t', queue', head + 1)
    ensures Hopping(adj, filter, src, maxHops, visited', live', result', queue', head + 1, head + 1, t')
  {
    CutsLater(maxHops, queue, head, t, queue', t');
  }

  lemma HopsEnd(adj: Adjacency, filter: string, src: int, maxHops: int, visited: set<int>, live: seq<(int, int)>,
                result: seq<HopResult>, queue: seq<int>, cut: nat, head: nat, t: Trace)
    requires Hopping(adj, filter, src, maxHops, visited, live, result, queue, cut, head, t)
    ensures live != [] ==> head < |Universe(adj, src)|
    ensures live == [] ==> IsNeighborhood(adj, filter, src, maxHops, result)
  {
    QueueFits(adj, filter, src, queue, cut, t);
    if live == [] {
      FrozenIsNeighborhood(adj, filter, src, maxHops, queue, cut, t, result);
    }
  }

  /** `bfs_neighborhood`. */
  method BfsNeighborhood(adj: Adjacency, source: int, maxHops: int, filter: string) returns (result: seq<HopResult>)
    ensures IsNeighborhood(adj, filter, source, maxHops, result)
  {
    hide *;
    result := [];
    var visited: map<int, int> := map[source := 0];
    var live := [(source, 0)];
    ghost var queue, head, cut, t := [source], 0, 0, Trace(map[source := []], map[source := -1]);
    BeginsHops(adj, filter, source, maxHops);
    assert visited.Keys == {source};
    ghost var size := |Universe(adj, source)|;
    while live != []
      invariant Hopping(adj, filter, source, maxHops, visited.Keys, live, result, queue, cut, head, t)
      decreases size - head
    {
      HopsEnd(adj, filter, source, maxHops, visited.Keys, live, result, queue, cut, head, t);
      var (node, hop) := live[0];
      if hop < maxHops {
        OpensNear(adj, filter, source, maxHops, visited.Keys, live, result, queue, cut, head, t);
        ghost var keys0, live0, result0, queue0, t0 := visited.Keys, live, result, queue, t;
        visited, live, result, queue, t :=
          ExpandHops(adj, filter, source, node, hop, visited, live[1..], result, queue, head + 1, t);
        HopsOn(adj, filter, source, maxHops, keys0, live0, result0, queue0, head, t0, visited.Keys, live, result, queue, t);
        head, cut := head + 1, head + 1;
      } else {
        PassesFar(adj, filter, source, maxHops, visited.Keys, live, result, queue, cut, head, t);
        live, head := live[1..], head + 1;
      }
    }
    HopsEnd(adj, filter, source, maxHops, visited.Keys, live, result, queue, cut, head, t);
  }

  /** The inner loop of `bfs_component`. */
  method ExpandComponent(adj: Adjacency, ghost src: int, node: int, ghost head: nat, visited0: map<int, bool>,
                         live0: seq<int>, ghost queue0: seq<int>, ghost t0: Trace)
    returns (visited: map<int, bool>, live: seq<int>, ghost queue: seq<int>, ghost t: Trace)
    requires 0 < head <= |queue0| && Expanding(adj, "", src, queue0, head, t0, 0)
    requires node == queue0[head - 1] && live0 == queue0[head..]
    requires visited0.Keys == t0.word.Keys && forall v :: v in visited0 ==> visited0[v]
    ensures Searching(adj, "", src, queue, head, t) && live == queue[head..] && queue0 <= queue
    ensures visited.Keys == t.word.Keys && forall v :: v in visited ==> visited[v]
  {
    visited, live, queue, t := visited0, live0, queue0, t0;
    var es := Neighbors(adj, node);
    for k := 0 to |es|
      invariant 0 < head <= |queue| && node == queue[head - 1]
      invariant Expanding(adj, "", src, queue, head, t, k) && live == queue[head..] && queue0 <= queue
      invariant visited.Keys == t.word.Keys && forall v :: v in visited ==> visited[v]
    {
      var e := es[k];
      if e.to in visited && visited[e.to] {
        Skips(adj, "", src, queue, head, t, k);
      } else {
        Finds(adj, "", src, queue, head, t, k);
        visited, live := visited[e.to := true], live + [e.to];
        queue, t := queue + [e.to], Found(t, node, k, e.to);
      }
    }
    Closes(adj, "", src, queue, head, t);
  }

  /** What has been taken from the queue, and what is left in it. */
  ghost predicate Split(queue: seq<int>, component: seq<int>, live: seq<int>) {
    queue == component + live
  }

  lemma Advance(queue: seq<int>, component: seq<int>, live: seq<int>)
    requires Split(queue, component, live) && live != []
    ensures |component| < |queue| && live[0] == queue[|component|] && live[1..] == queue[|component| + 1..]
  {
  }

  lemma SplitsLater(queue: seq<int>, queue': seq<int>, component: seq<int>, live: seq<int>, live': seq<int>)
    requires Split(queue, component, live) && live != [] && queue <= queue' && live' == queue'[|component| + 1..]
    ensures Split(queue', component + [live[0]], live')
  {
    assert queue'[|component|] == queue[|component|];
    assert queue'[..|component|] == queue[..|component|] == component;
  }

  lemma SplitsNone(queue: seq<int>)
    ensures Split(queue, [], queue)
  {
  }

  lemma ComponentDone(adj: Adjacency, source: int, queue: seq<int>, component: seq<int>, live: seq<int>, t: Trace)
    requires Searching(adj, "", source, queue, |component|, t) && Split(queue, component, live) && live == []
    ensures forall v :: v in component <==> Reachable(adj, "", source, v)
    ensures forall i, j :: 0 <= i < j < |component| ==> component[i] != component[j]
  {
    assert queue == component;
    Distinct(source, component, |component|, t);
    forall v
      ensures v in component <==> Reachable(adj, "", source, v)
    {
      Drained(adj, "", source, component, t, v);
    }
  }

  /** `bfs_component`: the nodes reachable from the source, each once. */
  method BfsComponent(adj: Adjacency, source: int) returns (component: seq<int>)
    ensures forall v :: v in component <==> Reachable(adj, "", source, v)
    ensures forall i, j :: 0 <= i < j < |component| ==> component[i] != component[j]
  {
    hide Searching, Expanding, Split, Universe;
    component := [];
    var visited := map[source := true];
    var live := [source];
    ghost var queue, t := [source], Trace(map[source := []], map[source := -1]);
    Starts(adj, "", source);
    SplitsNone(queue);
    ghost var size := |Universe(adj, source)|;
    while live != []
      invariant visited.Keys == t.word.Keys && (forall v :: v in visited ==> visited[v])
      invariant Split(queue, component, live)
      invariant Searching(adj, "", source, queue, |component|, t)
      decreases size - |component|
    {
      Advance(queue, component, live);
      QueueFits(adj, "", source, queue, |component|, t);
      Opens(adj, "", source, queue, |component|, t);
      ghost var queue0, live0 := queue, live;
      var node := live[0];
      visited, live, queue, t := ExpandComponent(adj, source, node, |component| + 1, visited, live[1..], queue, t);
      SplitsLater(queue0, queue, component, live0, live);
      component := component + [node];
    }
    ComponentDone(adj, source, queue, component, live, t);
  }
}
