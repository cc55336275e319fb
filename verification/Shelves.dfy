/** Named skip lists side by side. */
module Shelves {
  import opened SkipLinks
  import opened SkipLists

  type Shelf = map<string, SkipList>

  ghost function ListsOf(shelf: Shelf): set<SkipList> {
    set k | k in shelf :: shelf[k]
  }

  ghost predicate Apart(a: SkipList, b: SkipList)
    reads a, b
  {
    a != b && a.Nodes() !! b.Nodes()
  }

  ghost predicate Stands(shelf: Shelf, repr: set<object>, k: string)
    requires k in shelf
    reads repr
  {
    shelf[k] in repr && shelf[k].Nodes() <= repr && shelf[k].Valid()
  }

  ghost predicate Separate(shelf: Shelf, repr: set<object>, k: string, k': string)
    requires k in shelf && k' in shelf
    reads repr
  {
    shelf[k] in repr && shelf[k'] in repr && Apart(shelf[k], shelf[k'])
  }

  /** Every list is sound, and no two share anything; `repr` holds all their parts. */
  ghost predicate Sound(shelf: Shelf, repr: set<object>)
    reads repr
  {
    && ListsOf(shelf) <= repr
    && (forall k {:trigger Stands(shelf, repr, k)} :: k in shelf ==> Stands(shelf, repr, k))
    && (forall k, k' {:trigger Separate(shelf, repr, k, k')} :: k in shelf && k' in shelf && k != k' ==>
          Separate(shelf, repr, k, k'))
  }

  /** What the lists hold. */
  ghost function Scores(shelf: Shelf): map<string, map<string, real>>
    reads ListsOf(shelf)
  {
    map k | k in shelf :: shelf[k].memberScores
  }

  lemma ListAt(shelf: Shelf, key: string)
    requires key in shelf
    ensures key in Scores(shelf) && Scores(shelf)[key] == shelf[key].memberScores
  {
  }

  ghost function NodesIn(shelf: Shelf): map<string, set<SkipNode>>
    reads ListsOf(shelf)
  {
    map k | k in shelf :: shelf[k].Nodes()
  }

  /** What of `Sound` a change to the list at `key` does not touch. */
  ghost predicate OthersSound(shelf: Shelf, repr: set<object>, key: string, nodes: map<string, set<SkipNode>>) {
    && nodes.Keys == shelf.Keys
    && (forall k :: k in shelf ==> shelf[k] in repr && nodes[k] <= repr)
    && (forall k, k' {:trigger shelf[k], shelf[k']} :: k in shelf && k' in shelf && k != k' ==>
          shelf[k] != shelf[k'] && nodes[k] !! nodes[k'])
  }

  lemma BeforeChange(shelf: Shelf, repr: set<object>, key: string)
    requires Sound(shelf, repr) && key in shelf
    ensures OthersSound(shelf, repr, key, NodesIn(shelf))
    ensures forall k :: k in shelf ==> shelf[k].Valid()
  {
    forall k | k in shelf
      ensures shelf[k] in repr && shelf[k].Nodes() <= repr && shelf[k].Valid()
    {
      assert Stands(shelf, repr, k);
    }
    forall k, k' | k in shelf && k' in shelf && k != k'
      ensures shelf[k] != shelf[k'] && shelf[k].Nodes() !! shelf[k'].Nodes()
    {
      assert Separate(shelf, repr, k, k');
    }
  }

  lemma AfterChange(shelf: Shelf, repr: set<object>, key: string, nodes: map<string, set<SkipNode>>)
    requires key in shelf && OthersSound(shelf, repr, key, nodes) && shelf[key].Valid()
    requires forall k :: k in shelf && k != key ==> shelf[k].Nodes() == nodes[k] && shelf[k].Valid()
    requires shelf[key].Nodes() - nodes[key] !! repr
    ensures Sound(shelf, repr + shelf[key].Nodes())
  {
    hide SkipList.Valid;
    var wider := repr + shelf[key].Nodes();
    forall k | k in shelf
      ensures Stands(shelf, wider, k)
    {
    }
    forall k, k' | k in shelf && k' in shelf && k != k'
      ensures Separate(shelf, wider, k, k')
    {
      assert nodes[k] !! nodes[k'];
    }
  }

  lemma OnlyOneChanged(shelf: Shelf, key: string, before: map<string, map<string, real>>)
    requires key in shelf && before.Keys == shelf.Keys
    requires forall k :: k in shelf && k != key ==> shelf[k].memberScores == before[k]
    ensures Scores(shelf) == before[key := shelf[key].memberScores]
  {
  }

  method Put(shelf: Shelf, ghost repr: set<object>, key: string, score: real, member: string) returns (ghost wider: set<object>)
    requires Sound(shelf, repr) && key in shelf
    modifies repr
    ensures Sound(shelf, wider) && repr <= wider && fresh(wider - repr)
    ensures Scores(shelf) == old(Scores(shelf))[key := old(shelf[key].memberScores)[member := score]]
  {
    hide SkipList.Valid, Sound, OthersSound;
    BeforeChange(shelf, repr, key);
    ghost var nodes, scores := NodesIn(shelf), Scores(shelf);
    shelf[key].Insert(score, member);
    AfterChange(shelf, repr, key, nodes);
    OnlyOneChanged(shelf, key, scores);
    wider := repr + shelf[key].Nodes();
  }

  method Take(shelf: Shelf, ghost repr: set<object>, key: string, score: real, member: string) returns (removed: bool)
    requires Sound(shelf, repr) && key in shelf
    modifies repr
    ensures Sound(shelf, repr)
    ensures removed <==> member in old(shelf[key].memberScores) && old(shelf[key].memberScores)[member] == score
    ensures Scores(shelf) == if removed then old(Scores(shelf))[key := old(shelf[key].memberScores) - {member}] else old(Scores(shelf))
  {
    hide SkipList.Valid, Sound, OthersSound;
    BeforeChange(shelf, repr, key);
    ghost var nodes, scores := NodesIn(shelf), Scores(shelf);
    removed := shelf[key].Remove(score, member);
    assert shelf[key].Nodes() <= nodes[key];
    AfterChange(shelf, repr, key, nodes);
    OnlyOneChanged(shelf, key, scores);
    assert repr + shelf[key].Nodes() == repr;
  }

  /** An empty list under a new name. */
  method Open(shelf: Shelf, ghost repr: set<object>, key: string) returns (list: SkipList, ghost wider: set<object>)
    requires Sound(shelf, repr) && key !in shelf
    ensures Sound(shelf[key := list], wider) && repr <= wider && fresh(wider - repr)
    ensures Scores(shelf[key := list]) == Scores(shelf)[key := map[]]
  {
    hide SkipList.Valid;
    list := new SkipList();
    wider := repr + {list} + list.Nodes();
    var longer := shelf[key := list];
    forall k | k in longer
      ensures Stands(longer, wider, k)
    {
      assert k != key ==> old(Stands(shelf, repr, k));
    }
    forall k, k' | k in longer && k' in longer && k != k'
      ensures Separate(longer, wider, k, k')
    {
      assert k != key && k' != key ==> old(Separate(shelf, repr, k, k'));
      assert k != key ==> old(Stands(shelf, repr, k));
      assert k' != key ==> old(Stands(shelf, repr, k'));
    }
  }

  /** The entries of `scores`, by score and then by member. */
  ghost predicate InOrder(pairs: seq<(real, string)>, scores: map<string, real>) {
    && |pairs| == |scores|
    && (forall i {:trigger pairs[i]} :: 0 <= i < |pairs| ==> pairs[i].1 in scores && scores[pairs[i].1] == pairs[i].0)
    && (forall i, j {:trigger pairs[i], pairs[j]} :: 0 <= i < j < |pairs| ==>
          KeyLess(pairs[i].0, pairs[i].1, pairs[j].0, pairs[j].1))
    && (forall m :: m in scores ==> exists i :: 0 <= i < |pairs| && pairs[i] == (scores[m], m))
  }

  /** In an order, smaller scores come first, and of one score the member that comes first in a dictionary. */
  lemma InOrderMeans(pairs: seq<(real, string)>, scores: map<string, real>, i: nat, j: nat)
    requires InOrder(pairs, scores) && i < |pairs| && j < |pairs|
    ensures i < j <==> pairs[i].0 < pairs[j].0 || (pairs[i].0 == pairs[j].0 && exists n: nat :: PartsAt(pairs[i].1, pairs[j].1, n))
  {
    StrLessIsDictionary(pairs[i].1, pairs[j].1);
    StrLessTotal(pairs[i].1, pairs[j].1);
    assert i < j ==> KeyLess(pairs[i].0, pairs[i].1, pairs[j].0, pairs[j].1);
    assert j < i ==> KeyLess(pairs[j].0, pairs[j].1, pairs[i].0, pairs[i].1);
  }

  lemma ChainInOrder(list: SkipList)
    requires list.Valid()
    ensures InOrder(Pairs(list.all, 1), list.memberScores)
  {
    var all, pairs, scores := list.all, Pairs(list.all, 1), list.memberScores;
    PairsAre(all, 1, 0);
    forall i | 0 <= i < |pairs|
      ensures pairs[i] == (all[i + 1].score, all[i + 1].member) && pairs[i].1 in scores && scores[pairs[i].1] == pairs[i].0
    {
      PairsAre(all, 1, i);
      assert Told(all, scores, i + 1);
    }
    forall i, j | 0 <= i < j < |pairs|
      ensures KeyLess(pairs[i].0, pairs[i].1, pairs[j].0, pairs[j].1)
    {
      assert all[i + 1].Before(all[j + 1].score, all[j + 1].member);
    }
    forall m | m in scores
      ensures exists i :: 0 <= i < |pairs| && pairs[i] == (scores[m], m)
    {
      assert HasMember(all, m);
      var p :| 0 < p < |all| && all[p].member == m;
      assert Told(all, scores, p);
      assert pairs[p - 1] == (scores[m], m);
    }
  }

  /** There is only one order, so the answers to range queries depend on the scores alone. */
  lemma OrderIsUnique(p: seq<(real, string)>, q: seq<(real, string)>, scores: map<string, real>)
    requires InOrder(p, scores) && InOrder(q, scores)
    ensures p == q
  {
    forall k | 0 <= k < |p|
      ensures p[k] == q[k]
    {
      SameAt(p, q, scores, k);
    }
  }

  lemma {:induction false} SameAt(p: seq<(real, string)>, q: seq<(real, string)>, scores: map<string, real>, k: nat)
    requires InOrder(p, scores) && InOrder(q, scores) && k < |p|
    ensures p[k] == q[k]
    decreases k, 1
  {
    if p[k] != q[k] {
      var j := LaterIn(p, q, scores, k);
      var i := LaterIn(q, p, scores, k);
      KeyLessTransitive(q[k].0, q[k].1, q[j].0, q[j].1, p[i].0, p[i].1);
      StrLessTotal(q[k].1, q[k].1);
    }
  }

  /** If the orders differ at `k`, what one has there comes later in the other. */
  lemma LaterIn(p: seq<(real, string)>, q: seq<(real, string)>, scores: map<string, real>, k: nat) returns (j: nat)
    requires InOrder(p, scores) && InOrder(q, scores) && k < |p| && p[k] != q[k]
    ensures k < j < |q| && q[j] == p[k]
    decreases k, 0
  {
    assert p[k].1 in scores;
    j :| 0 <= j < |q| && q[j] == (scores[p[k].1], p[k].1);
    if j < k {
      SameAt(p, q, scores, j);
      StrLessTotal(p[k].1, p[k].1);
    }
  }
}
