/** The nodes of a skip list and their links: what it means that a sequence of nodes is sorted and linked
    on every level, and that relinking around one node, level by level, keeps it so. The list itself and
    what it is for are in `SkipLists`. */
module SkipLinks {

  const MAX_LEVEL: nat := 16

  /** `std::string`'s order: character by character, a proper prefix first. */
  predicate StrLess(a: string, b: string) {
    b != [] && (a == [] || a[0] < b[0] || (a[0] == b[0] && StrLess(a[1..], b[1..])))
  }

  lemma {:induction false} StrLessTransitive(a: string, b: string, c: string)
    requires StrLess(a, b) && StrLess(b, c)
    ensures StrLess(a, c)
  {
    if a != [] && a[0] == b[0] == c[0] {
      StrLessTransitive(a[1..], b[1..], c[1..]);
    }
  }

  lemma {:induction false} StrLessTotal(a: string, b: string)
    ensures StrLess(a, b) || a == b || StrLess(b, a)
    ensures !(StrLess(a, b) && StrLess(b, a)) && !StrLess(a, a)
  {
    if a != [] {
      StrLessTotal(a[1..], a[1..]);
    }
    if a != [] && b != [] && a[0] == b[0] {
      StrLessTotal(a[1..], b[1..]);
      assert a == [a[0]] + a[1..] && b == [b[0]] + b[1..];
    }
  }

  /** `a` and `b` agree up to `n`, where `a` ends or has the smaller character. */
  predicate PartsAt(a: string, b: string, n: nat) {
    && n <= |a| && n < |b| && a[..n] == b[..n]
    && (n == |a| || a[n] < b[n])
  }

  /** It is the order of the first difference. */
  lemma {:induction false} StrLessIsDictionary(a: string, b: string)
    ensures StrLess(a, b) <==> exists n: nat :: PartsAt(a, b, n)
  {
    if StrLess(a, b) {
      if a == [] || a[0] < b[0] {
        assert PartsAt(a, b, 0);
      } else {
        StrLessIsDictionary(a[1..], b[1..]);
        var n: nat :| PartsAt(a[1..], b[1..], n);
        assert a[..n + 1] == [a[0]] + a[1..][..n] && b[..n + 1] == [b[0]] + b[1..][..n];
        assert PartsAt(a, b, n + 1);
      }
    }
    if n: nat :| PartsAt(a, b, n) {
      if n > 0 {
        StrLessIsDictionary(a[1..], b[1..]);
        assert a[0] == a[..n][0] == b[..n][0] == b[0];
        assert a[1..][..n - 1] == a[..n][1..] && b[1..][..n - 1] == b[..n][1..];
        assert PartsAt(a[1..], b[1..], n - 1);
      }
    }
  }

  /** Entries are ordered by score, then by member. */
  predicate KeyLess(score: real, member: string, score': real, member': string) {
    score < score' || (score == score' && StrLess(member, member'))
  }

  lemma KeyLessTransitive(s: real, m: string, s': real, m': string, s'': real, m'': string)
    requires KeyLess(s, m, s', m') && KeyLess(s', m', s'', m'')
    ensures KeyLess(s, m, s'', m'')
  {
    if s == s' == s'' {
      StrLessTransitive(m, m', m'');
    }
  }

  class SkipNode {
    const score: real
    const member: string
    const level: nat
    var forward: seq<SkipNode?>

    constructor (level: nat, score: real, member: string)
      ensures this.level == level && this.score == score && this.member == member
      ensures forward == seq(level, _ => null)
    {
      this.level, this.score, this.member := level, score, member;
      forward := seq(level, _ => null);
    }

    predicate Before(s: real, m: string) {
      KeyLess(score, member, s, m)
    }
  }

  /** The first position from `p` on whose node takes part in level `i`. */
  ghost function NextPos(all: seq<SkipNode>, p: nat, i: nat): (r: nat)
    requires p <= |all|
    ensures p <= r <= |all| && (r < |all| ==> all[r].level > i)
    ensures forall k :: p <= k < r ==> all[k].level <= i
    decreases |all| - p
  {
    if p == |all| || all[p].level > i then p else NextPos(all, p + 1, i)
  }

  ghost function NodeAt(all: seq<SkipNode>, r: nat): SkipNode? {
    if r < |all| then all[r] else null
  }

  lemma NextPosIs(all: seq<SkipNode>, p: nat, i: nat, r: nat)
    requires p <= r <= |all| && (r < |all| ==> all[r].level > i)
    requires forall k :: p <= k < r ==> all[k].level <= i
    ensures NextPos(all, p, i) == r
  {
  }

  ghost predicate LinkOk(all: seq<SkipNode>, forward: seq<seq<SkipNode?>>, p: nat, i: nat)
    requires p < |all| == |forward| && i < |forward[p]|
  {
    forward[p][i] == NodeAt(all, NextPos(all, p + 1, i))
  }

  /** Every link of every level leads to the next node of that level. */
  ghost predicate Linked(all: seq<SkipNode>, forward: seq<seq<SkipNode?>>) {
    && |forward| == |all|
    && (forall p :: 0 <= p < |all| ==> |forward[p]| == all[p].level)
    && (forall p, i {:trigger LinkOk(all, forward, p, i)} :: 0 <= p < |all| && 0 <= i < all[p].level && i < |forward[p]| ==>
          LinkOk(all, forward, p, i))
  }

  /** `all` is the head followed by the entries, strictly sorted. */
  ghost predicate Sorted(all: seq<SkipNode>) {
    && |all| > 0 && all[0].level == MAX_LEVEL
    && (forall p :: 0 < p < |all| ==> 1 <= all[p].level <= MAX_LEVEL && all[p] != all[0])
    && (forall a, b {:trigger all[a].Before(all[b].score, all[b].member)} ::
          0 < a < b < |all| ==> all[a].Before(all[b].score, all[b].member))
  }

  ghost function Forwards(all: seq<SkipNode>): seq<seq<SkipNode?>>
    reads all
  {
    seq(|all|, p requires 0 <= p < |all| reads all => all[p].forward)
  }

  /** The side table says exactly what the chain says. */
  ghost predicate Scored(all: seq<SkipNode>, scores: map<string, real>) {
    && |scores| + 1 == |all|
    && (forall p {:trigger Told(all, scores, p)} :: 0 < p < |all| ==> Told(all, scores, p))
    && (forall m {:trigger HasMember(all, m)} :: m in scores ==> HasMember(all, m))
  }

  ghost predicate Told(all: seq<SkipNode>, scores: map<string, real>, p: int)
    requires 0 <= p < |all|
  {
    all[p].member in scores && scores[all[p].member] == all[p].score
  }

  ghost predicate HasMember(all: seq<SkipNode>, m: string) {
    exists p :: 0 < p < |all| && all[p].member == m
  }

  ghost predicate LevelsWithin(all: seq<SkipNode>, level: nat) {
    forall p :: 0 < p < |all| ==> all[p].level <= level
  }

  /** Where an entry with this key is, or would go. */
  ghost predicate IsSpot(all: seq<SkipNode>, score: real, member: string, q: nat) {
    && 0 < q <= |all|
    && (forall p :: 0 < p < q ==> all[p].Before(score, member))
    && (forall p :: q <= p < |all| ==> !all[p].Before(score, member))
  }

  /** There is such a spot. */
  lemma SpotExists(all: seq<SkipNode>, score: real, member: string) returns (q: nat)
    requires Sorted(all)
    ensures IsSpot(all, score, member, q)
  {
    q := 1;
    while q < |all| && all[q].Before(score, member)
      invariant 0 < q <= |all| && forall p :: 0 < p < q ==> all[p].Before(score, member)
    {
      q := q + 1;
    }
    forall p | q <= p < |all|
      ensures !all[p].Before(score, member)
    {
      if q < p && all[p].Before(score, member) {
        assert all[q].Before(all[p].score, all[p].member);
        KeyLessTransitive(all[q].score, all[q].member, all[p].score, all[p].member, score, member);
      }
    }
  }

  /** `pos` lists, for each level, the last position before the spot that takes part in it. */
  ghost predicate IsUpdate(all: seq<SkipNode>, q: nat, level: nat, update: seq<SkipNode>, pos: seq<nat>) {
    && |update| == |pos| == MAX_LEVEL >= level && q <= |all|
    && forall i :: 0 <= i < level ==>
         && pos[i] < q && update[i] == all[pos[i]] && all[pos[i]].level > i
         && NextPos(all, pos[i] + 1, i) >= q
  }

  /** Between a level's last node before the spot and the spot there is no other node of the level. */
  lemma UpdateIsLast(all: seq<SkipNode>, q: nat, level: nat, update: seq<SkipNode>, pos: seq<nat>, i: nat, p: nat)
    requires IsUpdate(all, q, level, update, pos) && i < level && p < q && all[p].level > i
    ensures p <= pos[i] && (p < pos[i] ==> NextPos(all, p + 1, i) < q) && (p == pos[i] ==> NextPos(all, p + 1, i) >= q)
  {
    assert p < pos[i] ==> NextPos(all, p + 1, i) <= pos[i];
  }

  /** The chain with a new node at the spot. */
  ghost function Inserted(all: seq<SkipNode>, q: nat, n: SkipNode): seq<SkipNode>
    requires q <= |all|
  {
    all[..q] + [n] + all[q..]
  }

  lemma InsertedAt(all: seq<SkipNode>, q: nat, n: SkipNode, k: nat)
    requires q <= |all|
    ensures |Inserted(all, q, n)| == |all| + 1
    ensures NodeAt(Inserted(all, q, n), k) == if k == q then n else NodeAt(all, if k < q then k else k - 1)
  {
  }

  /** Positions in the longer chain. */
  lemma NextPosInserted(all: seq<SkipNode>, q: nat, n: SkipNode, p: nat, i: nat)
    requires 0 < q <= |all| && p <= |all|
    ensures p <= q && NextPos(all, p, i) < q ==> NextPos(Inserted(all, q, n), p, i) == NextPos(all, p, i)
    ensures p <= q && NextPos(all, p, i) >= q && n.level > i ==> NextPos(Inserted(all, q, n), p, i) == q
    ensures p <= q && NextPos(all, p, i) >= q && n.level <= i ==>
              NextPos(Inserted(all, q, n), p, i) == NextPos(all, p, i) + 1
    ensures p >= q ==> NextPos(Inserted(all, q, n), p + 1, i) == NextPos(all, p, i) + 1
  {
    if p >= q {
      NextPosBeyond(all, q, n, p, i);
    }
    if p <= q {
      var all', r := Inserted(all, q, n), NextPos(all, p, i);
      assert forall k :: 0 <= k < |all'| ==> all'[k] == if k < q then all[k] else if k == q then n else all[k - 1];
      NextPosIs(all', p, i, if r < q then r else if n.level > i then q else r + 1);
    }
  }

  lemma NextPosBeyond(all: seq<SkipNode>, q: nat, n: SkipNode, p: nat, i: nat)
    requires 0 < q <= p <= |all|
    ensures NextPos(Inserted(all, q, n), p + 1, i) == NextPos(all, p, i) + 1
  {
    var all', r := Inserted(all, q, n), NextPos(all, p, i);
    assert forall k :: q < k < |all'| ==> all'[k] == all[k - 1];
    NextPosIs(all', p + 1, i, r + 1);
  }

  /** What the insertion loop leaves in the links of the node at `k` of the longer chain: of each level the
      new node takes part in, the last node before the spot leads to it, and it leads where that one led. */
  ghost predicate InsertLeaves(all: seq<SkipNode>, fw: seq<seq<SkipNode?>>, q: nat, pos: seq<nat>, n: SkipNode,
                               k: nat, links: seq<SkipNode?>) {
    && |fw| == |all| && k <= |all|
    && if k == q then
         |links| == n.level <= |pos| &&
         forall i {:trigger links[i]} :: 0 <= i < n.level ==> pos[i] < |fw| && i < |fw[pos[i]]| && links[i] == fw[pos[i]][i]
       else
         var p := if k < q then k else k - 1;
         p < |all| && |links| == all[p].level == |fw[p]| && n.level <= |pos| &&
         forall i {:trigger links[i]} :: 0 <= i < all[p].level ==> links[i] == if i < n.level && pos[i] == p then n else fw[p][i]
  }

  /** After the insertion loop the longer chain is linked. */
  lemma InsertLinks(all: seq<SkipNode>, fw: seq<seq<SkipNode?>>, q: nat, level: nat, update: seq<SkipNode>, pos: seq<nat>,
                    n: SkipNode, fw': seq<seq<SkipNode?>>)
    requires Linked(all, fw) && 0 < q && IsUpdate(all, q, level, update, pos) && n.level <= level
    requires |fw'| == |all| + 1 && forall k :: 0 <= k < |fw'| ==> InsertLeaves(all, fw, q, pos, n, k, fw'[k])
    ensures Linked(Inserted(all, q, n), fw')
  {
    hide NextPos, Inserted, IsUpdate, Linked, LinkOk, NodeAt, InsertLeaves;
    PosBelowSpot(all, q, level, update, pos);
    InsertedIs(all, q, n, q);
    forall k | 0 <= k < |fw'|
      ensures NodeLinked(Inserted(all, q, n), fw', k)
    {
      InsertLinksAt(all, fw, q, level, update, pos, n, k, fw'[k]);
      SameNode(Inserted(all, q, n), fw', k, fw'[k]);
    }
    LinkedFromNodes(Inserted(all, q, n), fw');
  }

  lemma InsertLinksAt(all: seq<SkipNode>, fw: seq<seq<SkipNode?>>, q: nat, level: nat, update: seq<SkipNode>, pos: seq<nat>,
                      n: SkipNode, k: nat, links: seq<SkipNode?>)
    requires Linked(all, fw) && 0 < q && IsUpdate(all, q, level, update, pos) && n.level <= level
    requires InsertLeaves(all, fw, q, pos, n, k, links)
    ensures LinksOf(Inserted(all, q, n), k, links)
  {
    hide NextPos, Inserted, IsUpdate, Linked, NodeAt, LinksOf;
    PosBelowSpot(all, q, level, update, pos);
    if k == q {
      InsertLinksNew(all, fw, q, level, update, pos, n, links);
    } else {
      InsertLinksOld(all, fw, q, level, update, pos, n, if k < q then k else k - 1, links);
    }
  }

  /** All links of one node are right. */
  ghost predicate NodeLinked(all: seq<SkipNode>, forward: seq<seq<SkipNode?>>, k: nat) {
    k < |all| == |forward| && LinksOf(all, k, forward[k])
  }

  ghost predicate LinksOf(all: seq<SkipNode>, k: nat, links: seq<SkipNode?>) {
    && k < |all| && |links| == all[k].level
    && forall i {:trigger links[i]} :: 0 <= i < all[k].level ==> links[i] == NodeAt(all, NextPos(all, k + 1, i))
  }

  lemma SameNode(all: seq<SkipNode>, forward: seq<seq<SkipNode?>>, k: nat, links: seq<SkipNode?>)
    requires k < |all| == |forward| && forward[k] == links && LinksOf(all, k, links)
    ensures NodeLinked(all, forward, k)
  {
  }

  lemma LinkedFromNodes(all: seq<SkipNode>, forward: seq<seq<SkipNode?>>)
    requires |all| == |forward| && forall k :: 0 <= k < |all| ==> NodeLinked(all, forward, k)
    ensures Linked(all, forward)
  {
    forall p | 0 <= p < |all|
      ensures |forward[p]| == all[p].level
      ensures forall i {:trigger LinkOk(all, forward, p, i)} :: 0 <= i < all[p].level && i < |forward[p]| ==> LinkOk(all, forward, p, i)
    {
      assert NodeLinked(all, forward, p);
    }
  }

  lemma LinkedAt(all: seq<SkipNode>, forward: seq<seq<SkipNode?>>, p: nat, i: nat)
    requires Linked(all, forward) && p < |all| && i < all[p].level
    ensures |forward| == |all| && i < |forward[p]| && forward[p][i] == NodeAt(all, NextPos(all, p + 1, i))
  {
    assert LinkOk(all, forward, p, i);
  }

  lemma InsertLinksNew(all: seq<SkipNode>, fw: seq<seq<SkipNode?>>, q: nat, level: nat, update: seq<SkipNode>, pos: seq<nat>,
                       n: SkipNode, links: seq<SkipNode?>)
    requires Linked(all, fw) && 0 < q && IsUpdate(all, q, level, update, pos) && n.level <= level
    requires InsertLeaves(all, fw, q, pos, n, q, links)
    ensures LinksOf(Inserted(all, q, n), q, links)
  {
    hide NextPos, Inserted, Linked, NodeAt;
    InsertedIs(all, q, n, q);
    forall i | 0 <= i < n.level
      ensures links[i] == NodeAt(Inserted(all, q, n), NextPos(Inserted(all, q, n), q + 1, i))
    {
      LinkedAt(all, fw, pos[i], i);
      InsertLinkNew(all, q, level, update, pos, n, i);
    }
  }

  lemma InsertLinksOld(all: seq<SkipNode>, fw: seq<seq<SkipNode?>>, q: nat, level: nat, update: seq<SkipNode>, pos: seq<nat>,
                       n: SkipNode, p: nat, links: seq<SkipNode?>)
    requires Linked(all, fw) && 0 < q && IsUpdate(all, q, level, update, pos) && n.level <= level && p < |all| == |fw|
    requires |links| == all[p].level == |fw[p]|
    requires forall i {:trigger links[i]} :: 0 <= i < all[p].level ==>
               links[i] == if i < n.level && pos[i] == p then n else fw[p][i]
    ensures LinksOf(Inserted(all, q, n), if p < q then p else p + 1, links)
  {
    hide NextPos, Inserted, Linked, NodeAt;
    var k := if p < q then p else p + 1;
    PosBelowSpot(all, q, level, update, pos);
    InsertedIs(all, q, n, k);
    forall i | 0 <= i < all[p].level
      ensures links[i] == NodeAt(Inserted(all, q, n), NextPos(Inserted(all, q, n), k + 1, i))
    {
      LinkedAt(all, fw, p, i);
      InsertLinkOld(all, q, level, update, pos, n, p, i);
    }
  }

  lemma InsertedIs(all: seq<SkipNode>, q: nat, n: SkipNode, k: nat)
    requires q <= |all| && k <= |all|
    ensures |Inserted(all, q, n)| == |all| + 1
    ensures Inserted(all, q, n)[k] == if k < q then all[k] else if k == q then n else all[k - 1]
  {
  }

  /** The new node leads where the last node before it led. */
  lemma InsertLinkNew(all: seq<SkipNode>, q: nat, level: nat, update: seq<SkipNode>, pos: seq<nat>, n: SkipNode, i: nat)
    requires 0 < q && IsUpdate(all, q, level, update, pos) && i < level
    ensures NodeAt(Inserted(all, q, n), NextPos(Inserted(all, q, n), q + 1, i)) == NodeAt(all, NextPos(all, pos[i] + 1, i))
  {
    NextPosInserted(all, q, n, q, i);
    NextPosFrom(all, pos[i] + 1, q, i);
  }

  /** An old node leads where it did, or to the new one if it is the last of the level before it. */
  lemma InsertLinkOld(all: seq<SkipNode>, q: nat, level: nat, update: seq<SkipNode>, pos: seq<nat>, n: SkipNode,
                      p: nat, i: nat)
    requires 0 < q && IsUpdate(all, q, level, update, pos) && n.level <= level && p < |all| && i < all[p].level
    ensures var k := if p < q then p else p + 1;
            NodeAt(Inserted(all, q, n), NextPos(Inserted(all, q, n), k + 1, i)) ==
            if i < n.level && pos[i] == p then n else NodeAt(all, NextPos(all, p + 1, i))
  {
    hide NextPos, Inserted, IsUpdate, NodeAt;
    PosBelowSpot(all, q, level, update, pos);
    NextPosInserted(all, q, n, p + 1, i);
    if p < q {
      if i < level {
        UpdateIsLast(all, q, level, update, pos, i, p);
      }
      InsertedAt(all, q, n, NextPos(Inserted(all, q, n), p + 1, i));
    } else {
      InsertedAt(all, q, n, NextPos(Inserted(all, q, n), p + 2, i));
    }
  }

  lemma PosBelowSpot(all: seq<SkipNode>, q: nat, level: nat, update: seq<SkipNode>, pos: seq<nat>)
    requires IsUpdate(all, q, level, update, pos)
    ensures |pos| == |update| == MAX_LEVEL >= level && q <= |all| && forall i :: 0 <= i < level ==> pos[i] < q
  {
  }

  lemma NextPosFrom(all: seq<SkipNode>, p: nat, q: nat, i: nat)
    requires p <= q <= |all| && NextPos(all, p, i) >= q
    ensures NextPos(all, p, i) == NextPos(all, q, i)
  {
    NextPosIs(all, q, i, NextPos(all, p, i));
  }

  /** The chain without the node at the spot. */
  ghost function Removed(all: seq<SkipNode>, q: nat): (r: seq<SkipNode>)
    requires q < |all|
    ensures |r| == |all| - 1
  {
    all[..q] + all[q + 1..]
  }

  lemma RemovedAt(all: seq<SkipNode>, q: nat, k: nat)
    requires q < |all|
    ensures |Removed(all, q)| == |all| - 1
    ensures NodeAt(Removed(all, q), k) == NodeAt(all, if k < q then k else k + 1)
  {
  }

  lemma NextPosRemoved(all: seq<SkipNode>, q: nat, p: nat, i: nat)
    requires p <= q < |all|
    ensures NextPos(all, p, i) < q ==> NextPos(Removed(all, q), p, i) == NextPos(all, p, i)
    ensures NextPos(all, p, i) == q ==> NextPos(Removed(all, q), p, i) == NextPos(all, q + 1, i) - 1
    ensures NextPos(all, p, i) > q ==> NextPos(Removed(all, q), p, i) == NextPos(all, p, i) - 1
  {
    hide NextPos;
    var all', r := Removed(all, q), NextPos(all, p, i);
    assert forall k :: 0 <= k < |all'| ==> all'[k] == if k < q then all[k] else all[k + 1];
    NextPosIs(all', p, i, if r < q then r else if r == q then NextPos(all, q + 1, i) - 1 else r - 1);
  }

  lemma NextPosBeyondRemoved(all: seq<SkipNode>, q: nat, p: nat, i: nat)
    requires q <= p < |all|
    ensures NextPos(Removed(all, q), p, i) == NextPos(all, p + 1, i) - 1
  {
    hide NextPos;
    var all', r := Removed(all, q), NextPos(all, p + 1, i);
    assert forall k :: q <= k < |all'| ==> all'[k] == all[k + 1];
    NextPosIs(all', p, i, r - 1);
  }

  /** Where a link leads once the node at `q` is gone. */
  lemma NextRemoved(all: seq<SkipNode>, q: nat, p: nat, i: nat)
    requires q < |all| && p < |all|
    ensures p <= q ==> NodeAt(Removed(all, q), NextPos(Removed(all, q), p, i)) ==
                       NodeAt(all, if NextPos(all, p, i) == q then NextPos(all, q + 1, i) else NextPos(all, p, i))
    ensures p >= q ==> NodeAt(Removed(all, q), NextPos(Removed(all, q), p, i)) == NodeAt(all, NextPos(all, p + 1, i))
  {
    hide NextPos, Removed, NodeAt;
    RemovedAt(all, q, NextPos(Removed(all, q), p, i));
    if p <= q {
      NextPosRemoved(all, q, p, i);
    }
    if p >= q {
      NextPosBeyondRemoved(all, q, p, i);
    }
  }

  /** The links to the node at the spot are those of the last nodes before it. */
  lemma LeadsToSpot(all: seq<SkipNode>, q: nat, level: nat, update: seq<SkipNode>, pos: seq<nat>, p: nat, i: nat)
    requires IsUpdate(all, q, level, update, pos) && p < q < |all| && i < all[p].level && all[q].level <= level
    ensures NextPos(all, p + 1, i) == q <==> i < all[q].level && i < |pos| && pos[i] == p
  {
    hide NextPos, IsUpdate;
    PosBelowSpot(all, q, level, update, pos);
    if i < all[q].level {
      UpdateIsLast(all, q, level, update, pos, i, p);
      NextPosStops(all, p + 1, q, i);
    }
  }

  /** A remaining node leads where it did, or past the removed one if it led there. */
  lemma RemoveLink(all: seq<SkipNode>, q: nat, level: nat, update: seq<SkipNode>, pos: seq<nat>, p: nat, i: nat)
    requires 0 < q < |all| && IsUpdate(all, q, level, update, pos) && p < |all| && p != q && i < all[p].level
    requires all[q].level <= level
    ensures var k := if p < q then p else p - 1;
            NodeAt(Removed(all, q), NextPos(Removed(all, q), k + 1, i)) ==
            if i < all[q].level && pos[i] == p then NodeAt(all, NextPos(all, q + 1, i)) else NodeAt(all, NextPos(all, p + 1, i))
  {
    hide NextPos, Removed, IsUpdate, NodeAt;
    PosBelowSpot(all, q, level, update, pos);
    if p < q {
      NextRemoved(all, q, p + 1, i);
      LeadsToSpot(all, q, level, update, pos, p, i);
    } else {
      NextRemoved(all, q, p, i);
    }
  }

  lemma NextPosStops(all: seq<SkipNode>, p: nat, q: nat, i: nat)
    requires p <= q < |all| && all[q].level > i
    ensures NextPos(all, p, i) <= q
  {
  }

  /** What the removal loop leaves in the links of the node at `k` of the shorter chain. */
  ghost predicate RemoveLeaves(all: seq<SkipNode>, fw: seq<seq<SkipNode?>>, q: nat, pos: seq<nat>,
                               k: nat, links: seq<SkipNode?>)
    requires q < |all|
  {
    var p := if k < q then k else k + 1;
    && |fw| == |all| && p < |all| && |links| == all[p].level == |fw[p]| && |fw[q]| == all[q].level <= |pos|
    && forall i {:trigger links[i]} :: 0 <= i < all[p].level ==>
         links[i] == if i < all[q].level && pos[i] == p then fw[q][i] else fw[p][i]
  }

  /** After the removal loop the shorter chain is linked. */
  lemma RemoveLinks(all: seq<SkipNode>, fw: seq<seq<SkipNode?>>, q: nat, level: nat, update: seq<SkipNode>, pos: seq<nat>,
                    fw': seq<seq<SkipNode?>>)
    requires Linked(all, fw) && 0 < q < |all| && IsUpdate(all, q, level, update, pos) && all[q].level <= level
    requires |fw'| == |all| - 1 && forall k :: 0 <= k < |fw'| ==> RemoveLeaves(all, fw, q, pos, k, fw'[k])
    ensures Linked(Removed(all, q), fw')
  {
    hide NextPos, Removed, IsUpdate, Linked, LinkOk, NodeAt, LinksOf;
    RemovedIs(all, q, 0);
    forall k | 0 <= k < |fw'|
      ensures NodeLinked(Removed(all, q), fw', k)
    {
      RemoveLinksAt(all, fw, q, level, update, pos, if k < q then k else k + 1, fw'[k]);
      SameNode(Removed(all, q), fw', k, fw'[k]);
    }
    LinkedFromNodes(Removed(all, q), fw');
  }

  lemma RemoveLinksAt(all: seq<SkipNode>, fw: seq<seq<SkipNode?>>, q: nat, level: nat, update: seq<SkipNode>, pos: seq<nat>,
                      p: nat, links: seq<SkipNode?>)
    requires Linked(all, fw) && 0 < q < |all| == |fw| && IsUpdate(all, q, level, update, pos) && all[q].level <= level
    requires p < |all| && p != q && |links| == all[p].level == |fw[p]| && |fw[q]| == all[q].level
    requires forall i {:trigger links[i]} :: 0 <= i < all[p].level ==>
               links[i] == if i < all[q].level && pos[i] == p then fw[q][i] else fw[p][i]
    ensures LinksOf(Removed(all, q), if p < q then p else p - 1, links)
  {
    hide NextPos, Removed, Linked, NodeAt;
    var k := if p < q then p else p - 1;
    PosBelowSpot(all, q, level, update, pos);
    RemovedIs(all, q, k);
    forall i | 0 <= i < all[p].level
      ensures links[i] == NodeAt(Removed(all, q), NextPos(Removed(all, q), k + 1, i))
    {
      LinkedAt(all, fw, p, i);
      if i < all[q].level {
        LinkedAt(all, fw, q, i);
      }
      RemoveLink(all, q, level, update, pos, p, i);
    }
  }

  lemma RemovedIs(all: seq<SkipNode>, q: nat, k: nat)
    requires q < |all| && k + 1 < |all|
    ensures |Removed(all, q)| == |all| - 1
    ensures Removed(all, q)[k] == if k < q then all[k] else all[k + 1]
  {
  }

  lemma Distinct(all: seq<SkipNode>)
    requires Sorted(all)
    ensures forall a, b :: 0 <= a < b < |all| ==> all[a] != all[b]
  {
    forall a, b | 0 <= a < b < |all|
      ensures all[a] != all[b]
    {
      if a > 0 {
        assert all[a].Before(all[b].score, all[b].member);
        StrLessTotal(all[a].member, all[b].member);
      }
    }
  }

  /** Among distinct keys, one that is not before another is after it. */
  lemma NotBeforeIsAfter(s: real, m: string, s': real, m': string)
    requires !KeyLess(s, m, s', m') && m != m'
    ensures KeyLess(s', m', s, m)
  {
    StrLessTotal(m, m');
  }

  lemma InsertedSorted(all: seq<SkipNode>, q: nat, n: SkipNode, scores: map<string, real>)
    requires Sorted(all) && Scored(all, scores) && n.member !in scores && 1 <= n.level <= MAX_LEVEL
    requires IsSpot(all, n.score, n.member, q) && n != all[0]
    ensures Sorted(Inserted(all, q, n))
  {
    var all' := Inserted(all, q, n);
    assert forall k :: 0 <= k < |all'| ==> all'[k] == if k < q then all[k] else if k == q then n else all[k - 1];
    forall a, b | 0 < a < b < |all'|
      ensures all'[a].Before(all'[b].score, all'[b].member)
    {
      if a == q {
        assert Told(all, scores, b - 1);
        NotBeforeIsAfter(all'[b].score, all'[b].member, n.score, n.member);
      } else if b != q {
        assert all[if a < q then a else a - 1].Before(all'[b].score, all'[b].member);
      }
    }
  }

  lemma InsertedScored(all: seq<SkipNode>, q: nat, n: SkipNode, scores: map<string, real>)
    requires 0 < q <= |all| && Scored(all, scores) && n.member !in scores
    ensures Scored(Inserted(all, q, n), scores[n.member := n.score])
  {
    var all', scores' := Inserted(all, q, n), scores[n.member := n.score];
    assert forall k :: 0 <= k < |all'| ==> all'[k] == if k < q then all[k] else if k == q then n else all[k - 1];
    forall p | 0 < p < |all'|
      ensures Told(all', scores', p)
    {
      if p != q {
        assert Told(all, scores, if p < q then p else p - 1);
      }
    }
    forall m | m in scores'
      ensures HasMember(all', m)
    {
      if m == n.member {
        assert all'[q].member == m;
      } else {
        assert HasMember(all, m);
        var p :| 0 < p < |all| && all[p].member == m;
        assert all'[if p < q then p else p + 1].member == m;
      }
    }
  }

  lemma RemovedSorted(all: seq<SkipNode>, q: nat)
    requires Sorted(all) && 0 < q < |all|
    ensures Sorted(Removed(all, q))
  {
    var all' := Removed(all, q);
    assert forall k :: 0 <= k < |all'| ==> all'[k] == if k < q then all[k] else all[k + 1];
    forall a, b | 0 < a < b < |all'|
      ensures all'[a].Before(all'[b].score, all'[b].member)
    {
      assert all[if a < q then a else a + 1].Before(all'[b].score, all'[b].member);
    }
  }

  /** No two entries carry one member. */
  lemma MembersDistinct(all: seq<SkipNode>, scores: map<string, real>, a: nat, b: nat)
    requires Sorted(all) && Scored(all, scores) && 0 < a < |all| && 0 < b < |all| && all[a].member == all[b].member
    ensures a == b
  {
    assert Told(all, scores, a) && Told(all, scores, b);
    StrLessTotal(all[a].member, all[b].member);
    assert a < b ==> all[a].Before(all[b].score, all[b].member);
    assert b < a ==> all[b].Before(all[a].score, all[a].member);
  }

  lemma RemovedScored(all: seq<SkipNode>, q: nat, scores: map<string, real>)
    requires Sorted(all) && Scored(all, scores) && 0 < q < |all|
    ensures all[q].member in scores && Scored(Removed(all, q), scores - {all[q].member})
  {
    var all', scores' := Removed(all, q), scores - {all[q].member};
    assert forall k :: 0 <= k < |all'| ==> all'[k] == if k < q then all[k] else all[k + 1];
    assert Told(all, scores, q);
    assert scores'.Keys == scores.Keys - {all[q].member};
    forall p | 0 < p < |all'|
      ensures Told(all', scores', p)
    {
      var r := if p < q then p else p + 1;
      assert Told(all, scores, r);
      if all[r].member == all[q].member {
        MembersDistinct(all, scores, r, q);
      }
    }
    forall m | m in scores'
      ensures HasMember(all', m)
    {
      assert HasMember(all, m);
      var p :| 0 < p < |all| && all[p].member == m;
      assert all'[if p < q then p else p - 1].member == m;
    }
  }

  /** The entry with this very key, if there is one, is at its spot. */
  lemma SpotOfKey(all: seq<SkipNode>, scores: map<string, real>, score: real, member: string, q: nat)
    requires Sorted(all) && Scored(all, scores) && IsSpot(all, score, member, q)
    ensures (member in scores && scores[member] == score) <==>
            (q < |all| && all[q].score == score && all[q].member == member)
  {
    assert q < |all| ==> Told(all, scores, q);
    if member in scores && scores[member] == score {
      assert HasMember(all, member);
      var p :| 0 < p < |all| && all[p].member == member;
      assert Told(all, scores, p);
      StrLessTotal(member, member);
      SortedAt(all, q, p);
    }
  }

  lemma SortedAt(all: seq<SkipNode>, a: nat, b: nat)
    requires Sorted(all) && 0 < a && b <= |all|
    ensures a < b < |all| ==> all[a].Before(all[b].score, all[b].member)
  {
  }

  /** The links once `i` levels have been relinked: in the old nodes, `fw'`; in the new one, `links`. */
  ghost predicate LinkStep(fw: seq<seq<SkipNode?>>, fw': seq<seq<SkipNode?>>, pos: seq<nat>, n: SkipNode,
                           links: seq<SkipNode?>, i: nat) {
    && |fw'| == |fw| && i <= n.level == |links| && n.level <= |pos|
    && (forall p :: 0 <= p < |fw| ==> |fw'[p]| == |fw[p]|)
    && (forall j :: 0 <= j < n.level ==> pos[j] < |fw| && j < |fw[pos[j]]|)
    && (forall p, j {:trigger fw'[p][j]} :: 0 <= p < |fw| && 0 <= j < |fw[p]| ==>
          fw'[p][j] == if j < i && pos[j] == p then n else fw[p][j])
    && (forall j {:trigger links[j]} :: 0 <= j < i ==> links[j] == fw[pos[j]][j])
  }

  lemma LinkStarts(fw: seq<seq<SkipNode?>>, pos: seq<nat>, n: SkipNode)
    requires n.level <= |pos| && forall j :: 0 <= j < n.level ==> pos[j] < |fw| && j < |fw[pos[j]]|
    ensures forall links: seq<SkipNode?> {:trigger LinkStep(fw, fw, pos, n, links, 0)} :: |links| == n.level ==>
              LinkStep(fw, fw, pos, n, links, 0)
  {
  }

  lemma LinkStepAt(fw: seq<seq<SkipNode?>>, fw': seq<seq<SkipNode?>>, pos: seq<nat>, n: SkipNode,
                   links: seq<SkipNode?>, i: nat)
    requires LinkStep(fw, fw', pos, n, links, i) && i < n.level
    ensures |fw'| == |fw| && i < |pos| && pos[i] < |fw| && i < |fw'[pos[i]]|
  {
  }

  lemma LinkGoesOn(fw: seq<seq<SkipNode?>>, fw': seq<seq<SkipNode?>>, pos: seq<nat>, n: SkipNode,
                   links: seq<SkipNode?>, i: nat)
    requires LinkStep(fw, fw', pos, n, links, i) && i < n.level
    requires i < |pos| && pos[i] < |fw'| && i < |fw'[pos[i]]|
    ensures LinkStep(fw, fw'[pos[i] := fw'[pos[i]][i := n]], pos, n, links[i := fw'[pos[i]][i]], i + 1)
  {
  }

  lemma LinkEnds(all: seq<SkipNode>, fw: seq<seq<SkipNode?>>, fw': seq<seq<SkipNode?>>, q: nat, pos: seq<nat>, n: SkipNode,
                 links: seq<SkipNode?>, k: nat)
    requires LinkStep(fw, fw', pos, n, links, n.level) && |fw| == |all| && k <= |all| && q <= |all|
    requires forall p :: 0 <= p < |all| ==> |fw[p]| == all[p].level
    ensures InsertLeaves(all, fw, q, pos, n, k, if k < q then fw'[k] else if k == q then links else fw'[k - 1])
  {
  }

  lemma HeadFirst(all: seq<SkipNode>, q: nat, level: nat, update: seq<SkipNode>, pos: seq<nat>, score: real, member: string)
    requires Sorted(all) && IsUpdate(all, q, level, update, pos) && IsSpot(all, score, member, q)
    ensures 0 < q <= |all| && |update| == |pos| == MAX_LEVEL
  {
  }

  /** A level no node takes part in yet starts at the head. */
  lemma UpdateRaised(all: seq<SkipNode>, q: nat, level: nat, i: nat, update: seq<SkipNode>, pos: seq<nat>)
    requires Sorted(all) && LevelsWithin(all, level) && 0 < q && level <= i < MAX_LEVEL
    requires IsUpdate(all, q, i, update, pos)
    ensures |update| == |pos| == MAX_LEVEL && IsUpdate(all, q, i + 1, update[i := all[0]], pos[i := 0])
  {
    NextPosIs(all, 1, i, |all|);
  }

  lemma LevelsWithinMore(all: seq<SkipNode>, level: nat, higher: nat)
    requires LevelsWithin(all, level) && level <= higher
    ensures LevelsWithin(all, higher)
  {
  }

  lemma InsertedLength(all: seq<SkipNode>, q: nat, n: SkipNode)
    requires 0 < q <= |all|
    ensures |Inserted(all, q, n)| == |all| + 1 && Inserted(all, q, n)[0] == all[0]
    ensures forall x :: x in Inserted(all, q, n) ==> x in all || x == n
  {
  }

  lemma InsertedLevels(all: seq<SkipNode>, q: nat, n: SkipNode, level: nat)
    requires 0 < q <= |all| && LevelsWithin(all, level) && n.level <= level
    ensures LevelsWithin(Inserted(all, q, n), level)
  {
    var all' := Inserted(all, q, n);
    assert forall k :: 0 <= k < |all'| ==> all'[k] == if k < q then all[k] else if k == q then n else all[k - 1];
  }

  /** On the lowest level the node before the spot is its neighbour. */
  lemma FirstLink(all: seq<SkipNode>, fw: seq<seq<SkipNode?>>, q: nat, level: nat, update: seq<SkipNode>, pos: seq<nat>)
    requires Sorted(all) && Linked(all, fw) && 0 < q <= |all| && level > 0 && IsUpdate(all, q, level, update, pos)
    ensures pos[0] < |fw| && 0 < |fw[pos[0]]| && fw[pos[0]][0] == NodeAt(all, q)
  {
    LinkedAt(all, fw, pos[0], 0);
    NextPosIs(all, pos[0] + 1, 0, pos[0] + 1);
  }

  lemma LevelOf(all: seq<SkipNode>, level: nat, q: nat)
    requires LevelsWithin(all, level) && 0 < q < |all|
    ensures all[q].level <= level
  {
  }

  lemma RemovedLength(all: seq<SkipNode>, q: nat, level: nat)
    requires 0 < q < |all| && LevelsWithin(all, level)
    ensures |Removed(all, q)| == |all| - 1 && Removed(all, q)[0] == all[0] && LevelsWithin(Removed(all, q), level)
    ensures forall x :: x in Removed(all, q) ==> x in all
  {
    var all' := Removed(all, q);
    assert forall k :: 0 <= k < |all'| ==> all'[k] == if k < q then all[k] else all[k + 1];
  }

  lemma LinkedAtHead(all: seq<SkipNode>, fw: seq<seq<SkipNode?>>)
    requires Sorted(all) && Linked(all, fw)
    ensures |all| > 0 && |fw| == |all| && |fw[0]| == MAX_LEVEL
    ensures forall i {:trigger fw[0][i]} :: 0 <= i < MAX_LEVEL ==> fw[0][i] == NodeAt(all, NextPos(all, 1, i))
  {
    forall i | 0 <= i < MAX_LEVEL
      ensures fw[0][i] == NodeAt(all, NextPos(all, 1, i))
    {
      LinkedAt(all, fw, 0, i);
    }
  }

  /** When the head leads nowhere on a level, no node takes part in it. */
  lemma TopIsEmpty(all: seq<SkipNode>, level: nat)
    requires |all| > 0 && level > 1 && LevelsWithin(all, level) && NodeAt(all, NextPos(all, 1, level - 1)) == null
    ensures LevelsWithin(all, level - 1)
  {
  }

  /** The links once `i` levels of the node at `q` have been bypassed. */
  ghost predicate UnlinkStep(fw: seq<seq<SkipNode?>>, fw': seq<seq<SkipNode?>>, pos: seq<nat>, q: nat, height: nat, i: nat) {
    && |fw'| == |fw| && q < |fw| && i <= height == |fw[q]| && height <= |pos|
    && (forall p :: 0 <= p < |fw| ==> |fw'[p]| == |fw[p]|)
    && (forall j :: 0 <= j < height ==> pos[j] < q && j < |fw[pos[j]]|)
    && (forall p, j {:trigger fw'[p][j]} :: 0 <= p < |fw| && 0 <= j < |fw[p]| ==>
          fw'[p][j] == if j < i && pos[j] == p then fw[q][j] else fw[p][j])
  }

  lemma UnlinkStarts(fw: seq<seq<SkipNode?>>, pos: seq<nat>, q: nat, height: nat)
    requires q < |fw| && |fw[q]| == height <= |pos| && forall j :: 0 <= j < height ==> pos[j] < q && j < |fw[pos[j]]|
    ensures UnlinkStep(fw, fw, pos, q, height, 0)
  {
  }

  lemma UnlinkStepAt(fw: seq<seq<SkipNode?>>, fw': seq<seq<SkipNode?>>, pos: seq<nat>, q: nat, height: nat, i: nat)
    requires UnlinkStep(fw, fw', pos, q, height, i) && i < |pos| && pos[i] < q && i < |fw[pos[i]]|
    ensures |fw'| == |fw| && q < |fw| && |fw'[q]| == height && |fw'[pos[i]]| == |fw[pos[i]]| && fw'[pos[i]][i] == fw[pos[i]][i]
  {
  }

  lemma UnlinkGoesOn(fw: seq<seq<SkipNode?>>, fw': seq<seq<SkipNode?>>, pos: seq<nat>, q: nat, height: nat, i: nat)
    requires UnlinkStep(fw, fw', pos, q, height, i) && i < height
    ensures i < |pos| && pos[i] < |fw'| && q < |fw'| && i < |fw'[pos[i]]| && i < |fw'[q]|
    ensures UnlinkStep(fw, fw'[pos[i] := fw'[pos[i]][i := fw'[q][i]]], pos, q, height, i + 1)
  {
  }

  /** Of the levels it takes part in, and of no other, the last node before the target leads to it. */
  lemma LeadsToTarget(all: seq<SkipNode>, fw: seq<seq<SkipNode?>>, q: nat, level: nat, update: seq<SkipNode>, pos: seq<nat>, i: nat)
    requires Sorted(all) && Linked(all, fw) && 0 < q < |all| && IsUpdate(all, q, level, update, pos) && i < level
    ensures pos[i] < |fw| && i < |fw[pos[i]]| && (fw[pos[i]][i] == all[q] <==> i < all[q].level)
  {
    Distinct(all);
    LinkedAt(all, fw, pos[i], i);
    if i < all[q].level {
      NextPosStops(all, pos[i] + 1, q, i);
    }
  }

  lemma UnlinkEnds(all: seq<SkipNode>, fw: seq<seq<SkipNode?>>, fw': seq<seq<SkipNode?>>, q: nat, pos: seq<nat>, k: nat)
    requires q < |all| && UnlinkStep(fw, fw', pos, q, all[q].level, all[q].level) && |fw| == |all| && k < |all| - 1
    requires forall p :: 0 <= p < |all| ==> |fw[p]| == all[p].level
    ensures RemoveLeaves(all, fw, q, pos, k, if k < q then fw'[k] else fw'[k + 1])
  {
    var p := if k < q then k else k + 1;
    assert |fw'[p]| == |fw[p]|;
  }

  lemma UpdateShape(all: seq<SkipNode>, fw: seq<seq<SkipNode?>>, q: nat, level: nat, update: seq<SkipNode>, pos: seq<nat>)
    requires Sorted(all) && Linked(all, fw) && IsUpdate(all, q, level, update, pos)
    ensures forall a, b :: 0 <= a < b < |all| ==> all[a] != all[b]
    ensures |fw| == |all| && forall p :: 0 <= p < |all| ==> |fw[p]| == all[p].level
    ensures |pos| == |update| == MAX_LEVEL >= level && q <= |all|
    ensures forall i :: 0 <= i < level ==> pos[i] < q && update[i] == all[pos[i]] && i < |fw[pos[i]]|
  {
    Distinct(all);
  }
}
