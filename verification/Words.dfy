/** Walks written as words: the position, in each adjacency list, of the edge taken. */
module Words {
  import opened Walks

  /** Two parallel edges give two words, so a word names a walk and the order its edges were added in. */
  type Word = seq<nat>

  /** Where a word leads; a position that is not there leads nowhere and stays put. */
  ghost function At(adj: Adjacency, src: int, w: Word): int {
    if w == [] then src else
    var u := At(adj, src, Init(w));
    if Last(w) < |Neighbors(adj, u)| then Neighbors(adj, u)[Last(w)].to else u
  }

  ghost predicate IsEdgeAt(adj: Adjacency, filter: string, u: int, k: nat) {
    k < |Neighbors(adj, u)| && Passes(filter, Neighbors(adj, u)[k])
  }

  ghost predicate IsWord(adj: Adjacency, filter: string, src: int, w: Word) {
    w == [] || (IsWord(adj, filter, src, Init(w)) && IsEdgeAt(adj, filter, At(adj, src, Init(w)), Last(w)))
  }

  /** The edges a word takes. */
  ghost function Steps(adj: Adjacency, filter: string, src: int, w: Word): (steps: seq<Edge>)
    requires IsWord(adj, filter, src, w)
    ensures |steps| == |w|
  {
    if w == [] then [] else
      Steps(adj, filter, src, Init(w)) + [Neighbors(adj, At(adj, src, Init(w)))[Last(w)]]
  }

  lemma {:induction false} WordIsWalk(adj: Adjacency, filter: string, src: int, w: Word)
    requires IsWord(adj, filter, src, w)
    ensures Walk(adj, filter, src, Steps(adj, filter, src, w))
    ensures End(src, Steps(adj, filter, src, w)) == At(adj, src, w)
  {
    if w != [] {
      WordIsWalk(adj, filter, src, Init(w));
      WalkExtend(adj, filter, src, Steps(adj, filter, src, Init(w)), Neighbors(adj, At(adj, src, Init(w)))[Last(w)]);
    }
  }

  /** Every walk can be written as a word. */
  lemma {:induction false} WalkHasWord(adj: Adjacency, filter: string, src: int, steps: seq<Edge>) returns (w: Word)
    requires Walk(adj, filter, src, steps)
    ensures IsWord(adj, filter, src, w) && Steps(adj, filter, src, w) == steps
    ensures At(adj, src, w) == End(src, steps)
  {
    if steps == [] {
      w := [];
    } else {
      var before := WalkHasWord(adj, filter, src, Init(steps));
      var k :| 0 <= k < |Neighbors(adj, End(src, Init(steps)))| &&
               Neighbors(adj, End(src, Init(steps)))[k] == Last(steps);
      w := before + [k];
      assert Init(w) == before && Last(w) == k;
      assert Init(steps) + [Last(steps)] == steps;
    }
  }

  /** The edges a word takes, one by one: the one at its position in the list of the node come to. */
  lemma {:induction false} WordEdgeByEdge(adj: Adjacency, filter: string, src: int, w: Word, i: nat)
    requires IsWord(adj, filter, src, w) && i < |w|
    ensures var u := NodesOf(src, Steps(adj, filter, src, w))[i];
      u in adj && w[i] < |adj[u]| && Steps(adj, filter, src, w)[i] == adj[u][w[i]]
  {
    var before := Init(w);
    var steps := Steps(adj, filter, src, before);
    if i < |before| {
      WordEdgeByEdge(adj, filter, src, before, i);
      assert Steps(adj, filter, src, w) == steps + [Last(Steps(adj, filter, src, w))];
    } else {
      WordIsWalk(adj, filter, src, before);
      ToldInOrder(src, steps);
    }
    assert Init(Steps(adj, filter, src, w)) == steps;
  }

  lemma WordExtend(adj: Adjacency, filter: string, src: int, w: Word, k: nat)
    requires IsWord(adj, filter, src, w) && IsEdgeAt(adj, filter, At(adj, src, w), k)
    ensures IsWord(adj, filter, src, w + [k])
    ensures At(adj, src, w + [k]) == Neighbors(adj, At(adj, src, w))[k].to
  {
    assert Init(w + [k]) == w;
  }

  /** Dictionary order on words of one length. */
  ghost predicate Lex(a: Word, b: Word)
    requires |a| == |b|
  {
    a != [] && (Lex(Init(a), Init(b)) || (Init(a) == Init(b) && Last(a) < Last(b)))
  }

  /** Fewer edges first, then dictionary order. */
  ghost predicate Before(a: Word, b: Word) {
    |a| < |b| || (|a| == |b| && Lex(a, b))
  }

  ghost predicate AtMost(a: Word, b: Word) {
    a == b || Before(a, b)
  }

  /** The order is decided where two words of one length first differ. */
  lemma {:induction false} DecidedAtDifference(p: Word, c: nat, a: Word, d: nat, b: Word)
    requires |a| == |b| && c < d
    ensures Before(p + [c] + a, p + [d] + b) && !Before(p + [d] + b, p + [c] + a)
  {
    var v, w := p + [c] + a, p + [d] + b;
    if a == [] {
      assert Init(v) == p == Init(w);
      LexIrreflexive(p);
    } else {
      assert Init(v) == p + [c] + Init(a) && Init(w) == p + [d] + Init(b);
      DecidedAtDifference(p, c, Init(a), d, Init(b));
      assert Init(v)[|p|] == c && Init(w)[|p|] == d;
    }
  }

  lemma {:induction false} LexTransitive(a: Word, b: Word, c: Word)
    requires |a| == |b| == |c| && Lex(a, b) && Lex(b, c)
    ensures Lex(a, c)
  {
    if Lex(Init(a), Init(b)) && Lex(Init(b), Init(c)) {
      LexTransitive(Init(a), Init(b), Init(c));
    }
  }

  lemma {:induction false} LexIrreflexive(a: Word)
    ensures !Lex(a, a)
  {
    if a != [] {
      LexIrreflexive(Init(a));
    }
  }

  lemma BeforeTransitive(a: Word, b: Word, c: Word)
    requires AtMost(a, b) && AtMost(b, c)
    ensures AtMost(a, c)
    ensures Before(a, b) || Before(b, c) ==> Before(a, c)
  {
    if |a| == |b| == |c| && a != b && b != c {
      LexTransitive(a, b, c);
    }
  }

  lemma BeforeIrreflexive(a: Word, b: Word)
    requires AtMost(a, b) && AtMost(b, a)
    ensures a == b
  {
    if a != b {
      LexTransitive(a, b, a);
      LexIrreflexive(a);
    }
  }

  /** Appending keeps the order. */
  lemma AppendMonotone(a: Word, b: Word, j: nat, k: nat)
    requires AtMost(a, b)
    ensures Before(a, b) || j < k ==> Before(a + [j], b + [k])
    ensures j <= k ==> AtMost(a + [j], b + [k])
    ensures Before(b, b + [k])
  {
    assert Init(a + [j]) == a && Init(b + [k]) == b;
  }

  /** The word is the first of all that lead to `dst`: no walk there has fewer edges, and among those
      with as few it takes the earliest-listed edges. */
  ghost predicate First(adj: Adjacency, filter: string, src: int, dst: int, w: Word) {
    && IsWord(adj, filter, src, w) && At(adj, src, w) == dst
    && forall x :: IsWord(adj, filter, src, x) && At(adj, src, x) == dst ==> AtMost(w, x)
  }

  lemma FirstIsUnique(adj: Adjacency, filter: string, src: int, dst: int, a: Word, b: Word)
    requires First(adj, filter, src, dst, a) && First(adj, filter, src, dst, b)
    ensures a == b
  {
    BeforeIrreflexive(a, b);
  }

  /** In particular a first word has the fewest edges of all walks. */
  lemma FirstIsShortest(adj: Adjacency, filter: string, src: int, dst: int, w: Word, steps: seq<Edge>)
    requires First(adj, filter, src, dst, w)
    requires Walk(adj, filter, src, steps) && End(src, steps) == dst
    ensures |w| <= |steps|
  {
    var x := WalkHasWord(adj, filter, src, steps);
  }

  /** The edge out of `v` at position `j` is accounted for: its target is known by a word that comes
      no later than the one through `v`. */
  ghost predicate Covered(adj: Adjacency, filter: string, word: map<int, Word>, v: int, j: nat)
    requires v in word
  {
    IsEdgeAt(adj, filter, v, j) ==>
      var x := Neighbors(adj, v)[j].to;
      x in word && AtMost(word[x], word[v] + [j])
  }

  /** The heart of breadth-first search. If every edge out of a known node is covered or leads to
      words no earlier than `bound`, every word is no earlier than `bound` or ends at a known node
      whose word comes no later. */
  lemma {:induction false} Earliest(adj: Adjacency, filter: string, src: int, word: map<int, Word>, bound: Word, w: Word)
    requires src in word && word[src] == [] && IsWord(adj, filter, src, w)
    requires forall v, j: nat :: v in word ==> Covered(adj, filter, word, v, j) || AtMost(bound, word[v] + [j])
    ensures AtMost(bound, w) || (At(adj, src, w) in word && AtMost(word[At(adj, src, w)], w))
  {
    if w != [] {
      var before, j := Init(w), Last(w);
      assert before + [j] == w;
      Earliest(adj, filter, src, word, bound, before);
      var v := At(adj, src, before);
      if AtMost(bound, before) {
        AppendMonotone(bound, before, 0, j);
        BeforeTransitive(bound, before, w);
      } else {
        AppendMonotone(word[v], before, j, j);
        if Covered(adj, filter, word, v, j) {
          BeforeTransitive(word[At(adj, src, w)], word[v] + [j], w);
        } else {
          BeforeTransitive(bound, word[v] + [j], w);
        }
      }
    }
  }
}
