/** What every breadth-first loop of the system keeps: the shared part of the proofs. */
module BfsSearch {
  import opened Walks
  import opened Words

  /** For each node found so far: the word of the walk that found it, and its parent. */
  datatype Trace = Trace(word: map<int, Word>, parent: map<int, int>)

  ghost predicate Grown(adj: Adjacency, filter: string, src: int, t: Trace, v: int)
    requires v in t.word
  {
    IsWord(adj, filter, src, t.word[v]) && At(adj, src, t.word[v]) == v
  }

  ghost predicate Hangs(t: Trace, v: int)
    requires v in t.word
  {
    v in t.parent && t.word[v] != [] && t.parent[v] in t.word && Init(t.word[v]) == t.word[t.parent[v]]
  }

  ghost predicate Tree(adj: Adjacency, filter: string, src: int, t: Trace) {
    && src in t.word && t.word[src] == [] && src in t.parent && t.parent[src] == -1
    && (forall v {:trigger Grown(adj, filter, src, t, v)} :: v in t.word ==> Grown(adj, filter, src, t, v))
    && (forall v {:trigger Hangs(t, v)} :: v in t.word && v != src ==> Hangs(t, v))
  }

  /** `queue` lists the found nodes in the order of their words; those before `head` are parents. */
  ghost predicate Queued(src: int, queue: seq<int>, head: nat, t: Trace) {
    && head <= |queue|
    && (forall i :: 0 <= i < |queue| ==> queue[i] in t.word)
    && (forall v {:trigger v in queue} :: v in t.word ==> v in queue)
    && (forall i, j {:trigger Before(t.word[queue[i]], t.word[queue[j]])} ::
          0 <= i < j < |queue| ==> Before(t.word[queue[i]], t.word[queue[j]]))
    && (forall v {:trigger ParentBefore(queue, head, t, v)} :: v in t.word && v != src ==> ParentBefore(queue, head, t, v))
  }

  ghost predicate ParentBefore(queue: seq<int>, head: nat, t: Trace, v: int) {
    head <= |queue| && v in t.parent && t.parent[v] in queue[..head]
  }

  ghost predicate AllCovered(adj: Adjacency, filter: string, t: Trace, v: int, upTo: nat)
    requires v in t.word
  {
    forall j: nat :: j < upTo ==> Covered(adj, filter, t.word, v, j)
  }

  ghost predicate Done(adj: Adjacency, filter: string, queue: seq<int>, head: nat, t: Trace) {
    forall i {:trigger AllCovered(adj, filter, t, queue[i], |Neighbors(adj, queue[i])|)} ::
      0 <= i < head <= |queue| && queue[i] in t.word ==>
      AllCovered(adj, filter, t, queue[i], |Neighbors(adj, queue[i])|)
  }

  /** Between two turns of the outer loop. */
  ghost predicate Searching(adj: Adjacency, filter: string, src: int, queue: seq<int>, head: nat, t: Trace) {
    Tree(adj, filter, src, t) && Queued(src, queue, head, t) && Done(adj, filter, queue, head, t)
  }

  /** Inside one: the node at `head - 1` has had its first `k` edges looked at. */
  ghost predicate Expanding(adj: Adjacency, filter: string, src: int, queue: seq<int>, head: nat, t: Trace, k: nat) {
    && Tree(adj, filter, src, t) && Queued(src, queue, head, t)
    && 0 < head && Done(adj, filter, queue, head - 1, t)
    && AllCovered(adj, filter, t, queue[head - 1], k)
    && ChildrenBelow(src, t, queue[head - 1], k)
  }

  lemma Opened(adj: Adjacency, filter: string, src: int, queue: seq<int>, head: nat, t: Trace, k: nat)
    requires Expanding(adj, filter, src, queue, head, t, k)
    ensures Tree(adj, filter, src, t) && Queued(src, queue, head, t)
    ensures 0 < head <= |queue| && queue[head - 1] in t.word
  {
  }

  /** The children of `node` hang from its first `k` edges. */
  ghost predicate ChildrenBelow(src: int, t: Trace, node: int, k: nat) {
    forall v :: v in t.word && v != src && v in t.parent && t.parent[v] == node ==>
      t.word[v] != [] && Last(t.word[v]) < k
  }

  function Found(t: Trace, node: int, k: nat, x: int): Trace
    requires node in t.word
  {
    Trace(t.word[x := t.word[node] + [k]], t.parent[x := node])
  }

  lemma Starts(adj: Adjacency, filter: string, src: int)
    ensures Searching(adj, filter, src, [src], 0, Trace(map[src := []], map[src := -1]))
  {
    assert Grown(adj, filter, src, Trace(map[src := []], map[src := -1]), src);
  }

  lemma Distinct(src: int, queue: seq<int>, head: nat, t: Trace)
    requires Queued(src, queue, head, t)
    ensures forall i, j :: 0 <= i < j < |queue| ==> queue[i] != queue[j]
  {
    forall i, j | 0 <= i < j < |queue|
      ensures queue[i] != queue[j]
    {
      assert Before(t.word[queue[i]], t.word[queue[j]]);
      if queue[i] == queue[j] {
        LexIrreflexive(t.word[queue[i]]);
      }
    }
  }

  lemma IndexOf(src: int, queue: seq<int>, head: nat, t: Trace, v: int) returns (i: nat)
    requires Queued(src, queue, head, t) && v in t.word
    ensures i < |queue| && queue[i] == v
  {
    assert v in queue;
    i :| 0 <= i < |queue| && queue[i] == v;
  }

  lemma ParentIndex(src: int, queue: seq<int>, head: nat, t: Trace, v: int) returns (i: nat)
    requires Queued(src, queue, head, t) && v in t.word && v != src
    ensures v in t.parent && i < head && queue[i] == t.parent[v]
  {
    assert ParentBefore(queue, head, t, v);
    i :| 0 <= i < head && queue[i] == t.parent[v];
  }

  lemma Opens(adj: Adjacency, filter: string, src: int, queue: seq<int>, head: nat, t: Trace)
    requires Searching(adj, filter, src, queue, head, t) && head < |queue|
    ensures Expanding(adj, filter, src, queue, head + 1, t, 0)
  {
    Distinct(src, queue, head, t);
    assert queue[..head + 1] == queue[..head] + [queue[head]];
    forall v | v in t.word && v != src
      ensures ParentBefore(queue, head + 1, t, v) && t.parent[v] != queue[head]
    {
      var i := ParentIndex(src, queue, head, t, v);
    }
  }

  lemma Closes(adj: Adjacency, filter: string, src: int, queue: seq<int>, head: nat, t: Trace)
    requires 0 < head <= |queue|
    requires Expanding(adj, filter, src, queue, head, t, |Neighbors(adj, queue[head - 1])|)
    ensures Searching(adj, filter, src, queue, head, t)
  {
  }

  /** The next word comes after all those found: first in, first out keeps the queue in order. */
  lemma NextIsLast(adj: Adjacency, filter: string, src: int, queue: seq<int>, head: nat, t: Trace, k: nat, v: int)
    requires Expanding(adj, filter, src, queue, head, t, k) && v in t.word
    ensures Before(t.word[v], t.word[queue[head - 1]] + [k])
  {
    if v != src {
      var i := ParentIndex(src, queue, head, t, v);
      var node, p := queue[head - 1], t.parent[v];
      assert Hangs(t, v);
      assert i < head - 1 ==> Before(t.word[queue[i]], t.word[queue[head - 1]]);
      NextAfterSibling(t.word[v], t.word[p], t.word[node], k);
    }
  }

  lemma NextAfterSibling(w: Word, p: Word, node: Word, k: nat)
    requires w != [] && Init(w) == p
    requires Before(p, node) || (p == node && Last(w) < k)
    ensures Before(w, node + [k])
  {
    assert w == p + [Last(w)];
    AppendMonotone(p, node, Last(w), k);
  }

  /** An edge to a known node is covered as it is. */
  lemma Skips(adj: Adjacency, filter: string, src: int, queue: seq<int>, head: nat, t: Trace, k: nat)
    requires Expanding(adj, filter, src, queue, head, t, k)
    requires k < |Neighbors(adj, queue[head - 1])|
    requires !IsEdgeAt(adj, filter, queue[head - 1], k) || Neighbors(adj, queue[head - 1])[k].to in t.word
    ensures Expanding(adj, filter, src, queue, head, t, k + 1)
  {
    if IsEdgeAt(adj, filter, queue[head - 1], k) {
      NextIsLast(adj, filter, src, queue, head, t, k, Neighbors(adj, queue[head - 1])[k].to);
    }
  }

  /** Finding a new node keeps the tree. */
  lemma FindsTree(adj: Adjacency, filter: string, src: int, t: Trace, node: int, k: nat)
    requires Tree(adj, filter, src, t) && node in t.word && IsEdgeAt(adj, filter, node, k)
    requires Neighbors(adj, node)[k].to !in t.word
    ensures Tree(adj, filter, src, Found(t, node, k, Neighbors(adj, node)[k].to))
  {
    var x := Neighbors(adj, node)[k].to;
    var r := Found(t, node, k, x);
    assert Grown(adj, filter, src, t, node);
    WordExtend(adj, filter, src, t.word[node], k);
    assert Init(t.word[node] + [k]) == t.word[node];
    assert Hangs(r, x);
    assert forall v :: v in t.word && Grown(adj, filter, src, t, v) ==> Grown(adj, filter, src, r, v);
    assert forall v :: v in t.word && v != src && Hangs(t, v) ==> Hangs(r, v);
  }

  lemma FindsSorted(adj: Adjacency, filter: string, src: int, queue: seq<int>, head: nat, t: Trace, k: nat, x: int)
    requires Expanding(adj, filter, src, queue, head, t, k) && x !in t.word
    ensures var word := Found(t, queue[head - 1], k, x).word;
            forall i, j :: 0 <= i < j < |queue + [x]| ==>
              (queue + [x])[i] in word && (queue + [x])[j] in word &&
              Before(word[(queue + [x])[i]], word[(queue + [x])[j]])
  {
    forall i | 0 <= i < |queue|
      ensures Before(t.word[queue[i]], t.word[queue[head - 1]] + [k])
    {
      NextIsLast(adj, filter, src, queue, head, t, k, queue[i]);
    }
  }

  lemma FindsQueued(adj: Adjacency, filter: string, src: int, queue: seq<int>, head: nat, t: Trace, k: nat, x: int)
    requires Expanding(adj, filter, src, queue, head, t, k) && x !in t.word
    ensures Queued(src, queue + [x], head, Found(t, queue[head - 1], k, x))
  {
    FindsSorted(adj, filter, src, queue, head, t, k, x);
    var node := queue[head - 1];
    var r := Found(t, node, k, x);
    assert (queue + [x])[..head] == queue[..head];
    assert node in queue[..head];
    assert r.word.Keys == t.word.Keys + {x};
    assert x in queue + [x];
    forall v | v in r.word && v != src
      ensures ParentBefore(queue + [x], head, r, v) && v in queue + [x]
    {
      if v != x {
        assert ParentBefore(queue, head, t, v) && v in queue;
      }
    }
    assert src in queue;
  }

  lemma FindsChildren(src: int, t: Trace, node: int, k: nat, x: int)
    requires node in t.word && ChildrenBelow(src, t, node, k)
    ensures ChildrenBelow(src, Found(t, node, k, x), node, k + 1)
  {
  }

  lemma StaysCovered(adj: Adjacency, filter: string, t: Trace, node: int, k: nat, x: int, v: int, upTo: nat)
    requires node in t.word && x !in t.word && v in t.word && AllCovered(adj, filter, t, v, upTo)
    ensures AllCovered(adj, filter, Found(t, node, k, x), v, upTo)
  {
    forall j: nat | j < upTo
      ensures Covered(adj, filter, Found(t, node, k, x).word, v, j)
    {
      assert Covered(adj, filter, t.word, v, j);
    }
  }

  lemma FindsCovered(adj: Adjacency, filter: string, src: int, queue: seq<int>, head: nat, t: Trace, k: nat)
    requires Expanding(adj, filter, src, queue, head, t, k) && IsEdgeAt(adj, filter, queue[head - 1], k)
    requires Neighbors(adj, queue[head - 1])[k].to !in t.word
    ensures var x := Neighbors(adj, queue[head - 1])[k].to;
            var r := Found(t, queue[head - 1], k, x);
            Done(adj, filter, queue + [x], head - 1, r) && AllCovered(adj, filter, r, queue[head - 1], k + 1)
  {
    var node := queue[head - 1];
    var x := Neighbors(adj, node)[k].to;
    var r := Found(t, node, k, x);
    StaysCovered(adj, filter, t, node, k, x, node, k);
    assert Covered(adj, filter, r.word, node, k);
    forall i | 0 <= i < head - 1
      ensures AllCovered(adj, filter, r, queue[i], |Neighbors(adj, queue[i])|)
    {
      StaysCovered(adj, filter, t, node, k, x, queue[i], |Neighbors(adj, queue[i])|);
    }
  }

  /** An edge to a new node appends it to the queue. */
  lemma Finds(adj: Adjacency, filter: string, src: int, queue: seq<int>, head: nat, t: Trace, k: nat)
    requires Expanding(adj, filter, src, queue, head, t, k) && IsEdgeAt(adj, filter, queue[head - 1], k)
    requires Neighbors(adj, queue[head - 1])[k].to !in t.word
    ensures var x := Neighbors(adj, queue[head - 1])[k].to;
            Expanding(adj, filter, src, queue + [x], head, Found(t, queue[head - 1], k, x), k + 1)
  {
    var x := Neighbors(adj, queue[head - 1])[k].to;
    FindsTree(adj, filter, src, t, queue[head - 1], k);
    FindsQueued(adj, filter, src, queue, head, t, k, x);
    FindsChildren(src, t, queue[head - 1], k, x);
    FindsCovered(adj, filter, src, queue, head, t, k);
  }

  /** The first time a node is met, it is met by its first word. */
  lemma FoundFirst(adj: Adjacency, filter: string, src: int, queue: seq<int>, head: nat, t: Trace, k: nat)
    requires Expanding(adj, filter, src, queue, head, t, k) && IsEdgeAt(adj, filter, queue[head - 1], k)
    requires Neighbors(adj, queue[head - 1])[k].to !in t.word
    ensures First(adj, filter, src, Neighbors(adj, queue[head - 1])[k].to, t.word[queue[head - 1]] + [k])
  {
    var node := queue[head - 1];
    var x, bound := Neighbors(adj, node)[k].to, t.word[node] + [k];
    assert Grown(adj, filter, src, t, node);
    WordExtend(adj, filter, src, t.word[node], k);
    forall v, j: nat | v in t.word
      ensures Covered(adj, filter, t.word, v, j) || AtMost(bound, t.word[v] + [j])
    {
      var i := IndexOf(src, queue, head, t, v);
      if i >= head - 1 {
        AppendMonotone(t.word[node], t.word[v], k, j);
      } else if j < |Neighbors(adj, v)| {
        assert AllCovered(adj, filter, t, v, |Neighbors(adj, v)|);
      }
    }
    forall w | IsWord(adj, filter, src, w) && At(adj, src, w) == x
      ensures AtMost(bound, w)
    {
      Earliest(adj, filter, src, t.word, bound, w);
    }
  }

  /** When the queue runs dry everything reachable has been found. */
  lemma Drained(adj: Adjacency, filter: string, src: int, queue: seq<int>, t: Trace, v: int)
    requires Searching(adj, filter, src, queue, |queue|, t)
    ensures v in t.word <==> Reachable(adj, filter, src, v)
    ensures v in t.word <==> v in queue
    ensures v in t.word ==> First(adj, filter, src, v, t.word[v])
  {
    if v in t.word {
      assert Grown(adj, filter, src, t, v);
      WordIsWalk(adj, filter, src, t.word[v]);
    }
    forall u, j: nat | u in t.word
      ensures Covered(adj, filter, t.word, u, j)
    {
      var i := IndexOf(src, queue, |queue|, t, u);
      assert AllCovered(adj, filter, t, queue[i], |Neighbors(adj, queue[i])|);
    }
    forall w | IsWord(adj, filter, src, w) && At(adj, src, w) == v
      ensures v in t.word && AtMost(t.word[v], w)
    {
      AppendMonotone(w, w, 0, 0);
      Earliest(adj, filter, src, t.word, w + [0], w);
    }
    if Reachable(adj, filter, src, v) {
      var steps :| Walk(adj, filter, src, steps) && End(src, steps) == v;
      var w := WalkHasWord(adj, filter, src, steps);
    }
  }
}
