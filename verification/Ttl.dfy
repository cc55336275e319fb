/** Deadlines in a binary min-heap with a key-to-position index. */
module Ttl {
  import opened Widths

  datatype TtlEntry = TtlEntry(expiresAt: int, key: string, heapIdx: nat)

  function Parent(j: nat): nat
    requires j > 0
  {
    (j - 1) / 2
  }

  /** The entry at `j` is due no earlier than its parent. */
  predicate HeapAt(h: seq<TtlEntry>, j: nat)
    requires j < |h|
  {
    j > 0 ==> h[Parent(j)].expiresAt <= h[j].expiresAt
  }

  ghost predicate Heap(h: seq<TtlEntry>) {
    forall j {:trigger HeapAt(h, j)} :: 0 <= j < |h| ==> HeapAt(h, j)
  }

  /** The children of `i` are due no earlier than the parent of `i`. */
  ghost predicate GrandAt(h: seq<TtlEntry>, i: nat, j: nat)
    requires i < |h| && j < |h|
  {
    i > 0 && j > 0 && Parent(j) == i ==> h[Parent(i)].expiresAt <= h[j].expiresAt
  }

  ghost predicate Grand(h: seq<TtlEntry>, i: nat)
    requires i < |h|
  {
    forall j {:trigger GrandAt(h, i, j)} :: 0 <= j < |h| ==> GrandAt(h, i, j)
  }

  /** A heap but for the children of `i`. */
  ghost predicate HeapAbove(h: seq<TtlEntry>, i: nat) {
    && i < |h| && Grand(h, i)
    && forall j {:trigger HeapAt(h, j)} :: 0 <= j < |h| && (j > 0 ==> Parent(j) != i) ==> HeapAt(h, j)
  }

  /** While an entry that started at `start` sifts up and has come to `c`: a heap but for `c` and, until
      the first move, its children. */
  ghost predicate SiftingUp(h: seq<TtlEntry>, start: nat, c: nat) {
    && c <= start < |h| && Grand(h, c)
    && forall j {:trigger HeapAt(h, j)} :: 0 <= j < |h| && j != c && (c == start && j > 0 ==> Parent(j) != start) ==> HeapAt(h, j)
  }

  /** Positions and keys agree: each entry knows its place, and so does the index. */
  ghost predicate IndexedAt(h: seq<TtlEntry>, index: map<string, nat>, i: nat)
    requires i < |h|
  {
    h[i].heapIdx == i && h[i].key in index && index[h[i].key] == i
  }

  ghost predicate KeyAt(h: seq<TtlEntry>, index: map<string, nat>, k: string)
    requires k in index
  {
    index[k] < |h| && h[index[k]].key == k
  }

  ghost predicate Indexed(h: seq<TtlEntry>, index: map<string, nat>) {
    && (forall i {:trigger IndexedAt(h, index, i)} :: 0 <= i < |h| ==> IndexedAt(h, index, i))
    && (forall k {:trigger KeyAt(h, index, k)} :: k in index ==> KeyAt(h, index, k))
  }

  /** The finite map the heap stands for. */
  ghost function Deadlines(h: seq<TtlEntry>, index: map<string, nat>): map<string, int>
    requires Indexed(h, index)
  {
    map k | k in index :: assert KeyAt(h, index, k); h[index[k]].expiresAt
  }

  function SwappedHeap(h: seq<TtlEntry>, a: nat, b: nat): seq<TtlEntry>
    requires a < |h| && b < |h|
  {
    h[a := h[b].(heapIdx := a)][b := h[a].(heapIdx := b)]
  }

  function SwappedIndex(h: seq<TtlEntry>, index: map<string, nat>, a: nat, b: nat): map<string, nat>
    requires a < |h| && b < |h|
  {
    index[h[b].key := a][h[a].key := b]
  }

  lemma SwapKeepsIndex(h: seq<TtlEntry>, index: map<string, nat>, a: nat, b: nat)
    requires Indexed(h, index) && a < |h| && b < |h| && a != b
    ensures Indexed(SwappedHeap(h, a, b), SwappedIndex(h, index, a, b))
    ensures Deadlines(SwappedHeap(h, a, b), SwappedIndex(h, index, a, b)) == Deadlines(h, index)
  {
    var h', index' := SwappedHeap(h, a, b), SwappedIndex(h, index, a, b);
    assert IndexedAt(h, index, a) && IndexedAt(h, index, b);
    forall i | 0 <= i < |h'|
      ensures IndexedAt(h', index', i)
    {
      assert IndexedAt(h, index, i);
    }
    forall k | k in index'
      ensures KeyAt(h', index', k) && k in index && h'[index'[k]].expiresAt == h[index[k]].expiresAt
    {
      assert KeyAt(h, index, k);
    }
  }

  lemma SiftsUp(h: seq<TtlEntry>, start: nat, c: nat)
    requires SiftingUp(h, start, c) && c > 0 && h[Parent(c)].expiresAt > h[c].expiresAt
    ensures SiftingUp(SwappedHeap(h, Parent(c), c), start, Parent(c))
  {
    var p := Parent(c);
    var h' := SwappedHeap(h, p, c);
    assert HeapAt(h, p);
    forall j | 0 <= j < |h'| && j != p
      ensures HeapAt(h', j)
    {
      assert GrandAt(h, c, j);
      if j != c && (j > 0 ==> Parent(j) != c) {
        assert HeapAt(h, j);
      }
    }
    forall j | 0 <= j < |h'|
      ensures GrandAt(h', p, j)
    {
      if j > 0 && Parent(j) == p && j != c {
        assert HeapAt(h, j);
      }
    }
  }

  lemma SiftedUp(h: seq<TtlEntry>, start: nat, c: nat)
    requires SiftingUp(h, start, c) && HeapAt(h, c)
    ensures HeapAbove(h, start)
  {
    if c != start {
      forall j | 0 <= j < |h|
        ensures GrandAt(h, start, j)
      {
        assert HeapAt(h, start) && HeapAt(h, j);
      }
    }
  }

  lemma SiftsDown(h: seq<TtlEntry>, c: nat, s: nat)
    requires HeapAbove(h, c) && s < |h| && s > 0 && Parent(s) == c && h[s].expiresAt < h[c].expiresAt
    requires forall j :: 0 < j < |h| && Parent(j) == c ==> h[s].expiresAt <= h[j].expiresAt
    ensures HeapAbove(SwappedHeap(h, c, s), s)
  {
    var h' := SwappedHeap(h, c, s);
    assert GrandAt(h, c, s);
    forall j | 0 <= j < |h'| && (j > 0 ==> Parent(j) != s)
      ensures HeapAt(h', j)
    {
      if j > 0 && Parent(j) != c {
        assert HeapAt(h, j);
      }
    }
    forall j | 0 <= j < |h'|
      ensures GrandAt(h', s, j)
    {
      assert j > 0 && Parent(j) == s ==> HeapAt(h, j);
    }
  }

  lemma SiftedDown(h: seq<TtlEntry>, c: nat)
    requires HeapAbove(h, c) && forall j :: 0 < j < |h| && Parent(j) == c ==> h[c].expiresAt <= h[j].expiresAt
    ensures Heap(h)
  {
  }

  /** Nothing is due before the root. */
  lemma {:induction false} RootIsLeast(h: seq<TtlEntry>, j: nat)
    requires Heap(h) && j < |h|
    ensures h[0].expiresAt <= h[j].expiresAt
  {
    if j > 0 {
      assert HeapAt(h, j);
      RootIsLeast(h, Parent(j));
    }
  }

  lemma RootIsEarliest(h: seq<TtlEntry>, index: map<string, nat>)
    requires Heap(h) && Indexed(h, index) && |h| > 0
    ensures h[0].key in index && Deadlines(h, index)[h[0].key] == h[0].expiresAt
    ensures forall k :: k in index ==> h[0].expiresAt <= Deadlines(h, index)[k]
  {
    assert IndexedAt(h, index, 0);
    forall k | k in index
      ensures h[0].expiresAt <= Deadlines(h, index)[k]
    {
      assert KeyAt(h, index, k);
      RootIsLeast(h, index[k]);
    }
  }

  lemma EmptyHeap(h: seq<TtlEntry>, index: map<string, nat>)
    requires Indexed(h, index) && |h| == 0
    ensures index == map[]
  {
    forall k
      ensures k !in index
    {
      assert k in index ==> KeyAt(h, index, k);
    }
  }

  lemma NewDeadline(h: seq<TtlEntry>, index: map<string, nat>, key: string, deadline: int)
    requires Heap(h) && Indexed(h, index) && key in index
    ensures KeyAt(h, index, key)
    ensures var h' := h[index[key] := h[index[key]].(expiresAt := deadline)];
      && SiftingUp(h', index[key], index[key]) && Indexed(h', index)
      && Deadlines(h', index) == Deadlines(h, index)[key := deadline]
  {
    assert KeyAt(h, index, key);
    var i := index[key];
    var h' := h[i := h[i].(expiresAt := deadline)];
    assert IndexedAt(h, index, i);
    forall j | 0 <= j < |h'|
      ensures GrandAt(h', i, j) && IndexedAt(h', index, j)
      ensures j != i && (j > 0 ==> Parent(j) != i) ==> HeapAt(h', j)
    {
      assert HeapAt(h, i) && HeapAt(h, j) && IndexedAt(h, index, j);
    }
    forall k | k in index
      ensures KeyAt(h', index, k) && h'[index[k]].expiresAt == Deadlines(h, index)[key := deadline][k]
    {
      assert KeyAt(h, index, k);
    }
  }

  lemma NewEntry(h: seq<TtlEntry>, index: map<string, nat>, key: string, deadline: int)
    requires Heap(h) && Indexed(h, index) && key !in index
    ensures var h', index' := h + [TtlEntry(deadline, key, |h|)], index[key := |h|];
      && SiftingUp(h', |h|, |h|) && Indexed(h', index')
      && Deadlines(h', index') == Deadlines(h, index)[key := deadline]
  {
    var h', index' := h + [TtlEntry(deadline, key, |h|)], index[key := |h|];
    forall j | 0 <= j < |h'|
      ensures GrandAt(h', |h|, j) && IndexedAt(h', index', j) && (j != |h| ==> HeapAt(h', j))
    {
      if j < |h| {
        assert HeapAt(h, j) && IndexedAt(h, index, j);
      }
    }
    forall k | k in index'
      ensures KeyAt(h', index', k) && h'[index'[k]].expiresAt == Deadlines(h, index)[key := deadline][k]
    {
      assert k != key ==> KeyAt(h, index, k);
    }
  }

  function Shrunk(h: seq<TtlEntry>, i: nat): seq<TtlEntry>
    requires i < |h|
  {
    h[i := h[|h| - 1].(heapIdx := i)][..|h| - 1]
  }

  /** Removing the last entry. */
  lemma LastRemoved(h: seq<TtlEntry>, index: map<string, nat>, key: string)
    requires Heap(h) && Indexed(h, index) && key in index && index[key] == |h| - 1
    ensures Heap(h[..|h| - 1]) && Indexed(h[..|h| - 1], index - {key})
    ensures Deadlines(h[..|h| - 1], index - {key}) == Deadlines(h, index) - {key}
  {
    var h', index' := h[..|h| - 1], index - {key};
    assert KeyAt(h, index, key);
    forall j | 0 <= j < |h'|
      ensures HeapAt(h', j) && IndexedAt(h', index', j)
    {
      assert HeapAt(h, j) && IndexedAt(h, index, j);
    }
    forall k | k in index'
      ensures KeyAt(h', index', k) && h'[index'[k]].expiresAt == Deadlines(h, index)[k]
    {
      assert KeyAt(h, index, k);
    }
  }

  /** Removing an inner entry: the last one takes its place. */
  lemma InnerRemoved(h: seq<TtlEntry>, index: map<string, nat>, key: string)
    requires Heap(h) && Indexed(h, index) && key in index && index[key] + 1 < |h|
    ensures var i := index[key]; var h', index' := Shrunk(h, i), (index - {key})[h[|h| - 1].key := i];
      && SiftingUp(h', i, i) && Indexed(h', index')
      && Deadlines(h', index') == Deadlines(h, index) - {key}
  {
    var i := index[key];
    InnerHeap(h, i);
    InnerIndexed(h, index, key);
    hide Heap, HeapAt, SiftingUp;
    var h', index' := Shrunk(h, i), (index - {key})[h[|h| - 1].key := i];
    assert KeyAt(h, index, key) && IndexedAt(h, index, |h| - 1);
    forall k | k in index'
      ensures k in index && k != key && KeyAt(h', index', k) && h'[index'[k]].expiresAt == Deadlines(h, index)[k]
    {
      assert KeyAt(h', index', k);
      assert k in index ==> KeyAt(h, index, k);
    }
  }

  lemma InnerHeap(h: seq<TtlEntry>, i: nat)
    requires Heap(h) && i + 1 < |h|
    ensures SiftingUp(Shrunk(h, i), i, i)
  {
    var h' := Shrunk(h, i);
    forall j | 0 <= j < |h'|
      ensures GrandAt(h', i, j)
      ensures j != i && (j > 0 ==> Parent(j) != i) ==> HeapAt(h', j)
    {
      assert HeapAt(h, i) && HeapAt(h, j);
    }
  }

  lemma InnerIndexed(h: seq<TtlEntry>, index: map<string, nat>, key: string)
    requires Indexed(h, index) && key in index && index[key] + 1 < |h|
    ensures Indexed(Shrunk(h, index[key]), (index - {key})[h[|h| - 1].key := index[key]])
  {
    var i := index[key];
    var h', index' := Shrunk(h, i), (index - {key})[h[|h| - 1].key := i];
    assert KeyAt(h, index, key) && IndexedAt(h, index, i) && IndexedAt(h, index, |h| - 1);
    forall j | 0 <= j < |h'|
      ensures IndexedAt(h', index', j)
    {
      assert IndexedAt(h, index, j);
    }
    forall k | k in index'
      ensures KeyAt(h', index', k)
    {
      assert k in index ==> KeyAt(h, index, k);
    }
  }

  /** `keys` are taken off `before` in the order they fall due; `after` is left, due later than all of them. */
  ghost predicate TakenInOrder(before: map<string, int>, keys: seq<string>, after: map<string, int>) {
    && (forall i :: 0 <= i < |keys| ==> keys[i] in before && keys[i] !in after)
    && (forall i, j :: 0 <= i < j < |keys| ==> keys[i] != keys[j] && before[keys[i]] <= before[keys[j]])
    && (forall i, k :: 0 <= i < |keys| && k in after && k in before ==> before[keys[i]] <= before[k])
    && (forall k :: k in before && k !in keys ==> k in after)
    && (forall k :: k in after ==> k in before && after[k] == before[k])
  }

  lemma NextIsDue(before: map<string, int>, keys: seq<string>, after: map<string, int>, key: string)
    requires TakenInOrder(before, keys, after) && key in after
    requires forall k :: k in after ==> after[key] <= after[k]
    ensures TakenInOrder(before, keys + [key], after - {key})
  {
    forall k | k in before && k !in keys + [key]
      ensures k in after - {key}
    {
      assert k !in keys;
      assert k != key by {
        assert (keys + [key])[|keys|] == key;
      }
    }
  }

  /** A key set at `now` to last for `ttl` falls due at the sum, which is 64 bits wide. */
  function Deadline(now: int, ttl: int): int {
    Wrapped(now + ttl, TWO_64)
  }

  class TtlManager {
    var heap: seq<TtlEntry>
    var index: map<string, nat>

    ghost predicate Valid()
      reads this
    {
      Heap(heap) && Indexed(heap, index)
    }

    /** When each key that has a deadline falls due. */
    ghost function Due(): map<string, int>
      requires Valid()
      reads this
    {
      Deadlines(heap, index)
    }

    constructor ()
      ensures Valid() && Due() == map[]
    {
      heap, index := [], map[];
    }

    method SwapEntries(a: nat, b: nat)
      requires a < |heap| && b < |heap| && a != b
      modifies this
      ensures heap == SwappedHeap(old(heap), a, b) && index == SwappedIndex(old(heap), old(index), a, b)
    {
      heap := heap[a := heap[b]][b := heap[a]];
      heap := heap[a := heap[a].(heapIdx := a)];
      heap := heap[b := heap[b].(heapIdx := b)];
      index := index[heap[a].key := a];
      index := index[heap[b].key := b];
    }

    method SiftUp(start: nat)
      requires SiftingUp(heap, start, start) && Indexed(heap, index)
      modifies this
      ensures HeapAbove(heap, start) && Indexed(heap, index)
      ensures Deadlines(heap, index) == Deadlines(old(heap), old(index)) && |heap| == old(|heap|)
    {
      var i: nat := start;
      while i > 0
        invariant SiftingUp(heap, start, i) && Indexed(heap, index)
        invariant Deadlines(heap, index) == Deadlines(old(heap), old(index)) && |heap| == old(|heap|)
      {
        var parent: nat := (i - 1) / 2;
        if heap[parent].expiresAt <= heap[i].expiresAt {
          break;
        }
        SiftsUp(heap, start, i);
        SwapKeepsIndex(heap, index, parent, i);
        SwapEntries(parent, i);
        i := parent;
      }
      SiftedUp(heap, start, i);
    }

    method SiftDown(start: nat)
      requires HeapAbove(heap, start) && Indexed(heap, index)
      modifies this
      ensures Valid() && Due() == Deadlines(old(heap), old(index)) && |heap| == old(|heap|)
    {
      var n, i := |heap|, start;
      while true
        invariant HeapAbove(heap, i) && Indexed(heap, index) && n == |heap| == old(|heap|)
        invariant Deadlines(heap, index) == Deadlines(old(heap), old(index))
        decreases n - i
      {
        var smallest, left, right := i, 2 * i + 1, 2 * i + 2;
        if left < n && heap[left].expiresAt < heap[smallest].expiresAt {
          smallest := left;
        }
        if right < n && heap[right].expiresAt < heap[smallest].expiresAt {
          smallest := right;
        }
        if smallest == i {
          break;
        }
        SiftsDown(heap, i, smallest);
        SwapKeepsIndex(heap, index, i, smallest);
        SwapEntries(i, smallest);
        i := smallest;
      }
      SiftedDown(heap, i);
    }

    /** The key now falls due `ttl` after `now`, in 64 bits, whatever it had before. */
    method SetExpiry(now: int, key: string, ttl: int)
      requires Valid()
      modifies this
      ensures Valid() && Due() == old(Due())[key := Deadline(now, ttl)]
    {
      var deadline := Deadline(now, ttl);
      if key in index {
        NewDeadline(heap, index, key, deadline);
        var idx := index[key];
        heap := heap[idx := heap[idx].(expiresAt := deadline)];
        SiftUp(idx);
        SiftDown(idx);
        return;
      }
      NewEntry(heap, index, key, deadline);
      var idx := |heap|;
      heap := heap + [TtlEntry(deadline, key, idx)];
      index := index[key := idx];
      SiftUp(idx);
      SiftedDown(heap, idx);
    }

    method RemoveExpiry(key: string)
      requires Valid()
      modifies this
      ensures Valid() && Due() == old(Due()) - {key}
      ensures |heap| == old(|heap|) - if key in old(Due()) then 1 else 0
    {
      if key !in index {
        return;
      }
      assert KeyAt(heap, index, key);
      var idx := index[key];
      if idx != |heap| - 1 {
        hide Heap, Indexed, SiftingUp, HeapAbove, Deadlines;
        ghost var was := heap;
        InnerRemoved(heap, index, key);
        index := index - {key};
        heap := heap[idx := heap[|heap| - 1]];
        heap := heap[idx := heap[idx].(heapIdx := idx)];
        index := index[heap[idx].key := idx];
        heap := heap[..|heap| - 1];
        assert heap == Shrunk(was, idx);
        SiftUp(idx);
        SiftDown(idx);
      } else {
        LastRemoved(heap, index, key);
        index := index - {key};
        heap := heap[..|heap| - 1];
      }
    }

    method GetExpiry(key: string) returns (deadline: int)
      requires Valid()
      ensures deadline == if key in Due() then Due()[key] else -1
    {
      if key !in index {
        return -1;
      }
      assert KeyAt(heap, index, key);
      deadline := heap[index[key]].expiresAt;
    }

    /** Takes off exactly the keys due by `now`, each once and in the order they fall due. */
    method EvictExpired(now: int) returns (expired: seq<string>)
      requires Valid()
      modifies this
      ensures Valid() && TakenInOrder(old(Due()), expired, Due())
      ensures forall k :: k in old(Due()) ==> (k in expired <==> old(Due())[k] <= now)
      ensures forall k :: k in Due() <==> k in old(Due()) && old(Due())[k] > now
    {
      expired := [];
      ghost var before := Due();
      while |heap| > 0 && heap[0].expiresAt <= now
        invariant Valid() && TakenInOrder(before, expired, Due())
        invariant forall i :: 0 <= i < |expired| ==> before[expired[i]] <= now
        decreases |heap|
      {
        RootIsEarliest(heap, index);
        NextIsDue(before, expired, Due(), heap[0].key);
        expired := expired + [heap[0].key];
        RemoveExpiry(heap[0].key);
      }
      if |heap| == 0 {
        EmptyHeap(heap, index);
      } else {
        RootIsEarliest(heap, index);
      }
    }

    /** Time left until the first key falls due, and -1 when none does; exact while no deadline is so far back
        that the difference leaves 64 bits. */
    method NextExpiryIn(now: int) returns (left: int)
      requires Valid()
      ensures left == -1 <==> Due() == map[]
      ensures Due() != map[] ==> 0 <= left
      ensures (forall k :: k in Due() ==> IsSigned(Due()[k] - now, TWO_64)) ==>
                && (forall k :: k in Due() && left > 0 ==> left <= Due()[k] - now)
                && (left > 0 ==> exists k :: k in Due() && Due()[k] - now == left)
                && (left == 0 ==> exists k :: k in Due() && Due()[k] <= now)
    {
      if |heap| == 0 {
        EmptyHeap(heap, index);
        return -1;
      }
      RootIsEarliest(heap, index);
      var delta := Wrapped(heap[0].expiresAt - now, TWO_64);
      if IsSigned(heap[0].expiresAt - now, TWO_64) {
        SignedInverts(heap[0].expiresAt - now, TWO_64);
      }
      left := if delta < 0 then 0 else delta;
    }
  }
}
