/** The skip list: sixteen levels and a table of scores. */
module SkipLists {
  import opened Options
  import opened SkipLinks

  /** The (score, member) pairs from position `p` on. */
  ghost function Pairs(all: seq<SkipNode>, p: nat): seq<(real, string)>
    requires p <= |all|
    decreases |all| - p
  {
    if p == |all| then [] else [(all[p].score, all[p].member)] + Pairs(all, p + 1)
  }

  class SkipList {
    var head: SkipNode
    var level: nat
    var size: nat
    var memberScores: map<string, real>
    ghost var all: seq<SkipNode>

    /** One sorted chain, linked at every level, and a side table that says the same. */
    ghost predicate Valid()
      reads this, all
    {
      && Sorted(all) && head == all[0] && Linked(all, Forwards(all)) && Scored(all, memberScores)
      && 1 <= level <= MAX_LEVEL && LevelsWithin(all, level) && size + 1 == |all|
    }

    constructor ()
      ensures Valid() && memberScores == map[] && fresh(all)
    {
      head := new SkipNode(MAX_LEVEL, -1000000000000000000.0, "");
      level, size, memberScores := 1, 0, map[];
      new;
      all := [head];
    }

    /** The nodes of the chain, the head included. */
    ghost function Nodes(): set<SkipNode>
      reads this
    {
      set x | x in all
    }

    /** Walks along one level while the next node is before the key. */
    method Descend(from: SkipNode, i: nat, score: real, member: string, ghost q: nat, ghost from0: nat)
      returns (cur: SkipNode, ghost p: nat)
      requires Linked(all, Forwards(all)) && IsSpot(all, score, member, q)
      requires from0 < q && from == all[from0] && from.level > i
      ensures p < q && cur == all[p] && cur.level > i && NextPos(all, p + 1, i) >= q
    {
      hide Linked;
      cur, p := from, from0;
      LinkedAt(all, Forwards(all), p, i);
      while cur.forward[i] != null && cur.forward[i].Before(score, member)
        invariant p < q && cur == all[p] && cur.level > i
        invariant i < |cur.forward| && cur.forward[i] == NodeAt(all, NextPos(all, p + 1, i))
        decreases q - p
      {
        cur, p := cur.forward[i], NextPos(all, p + 1, i);
        LinkedAt(all, Forwards(all), p, i);
      }
    }

    /** The search that `insert` and `remove` share: the last node before the spot, level by level. */
    method FindUpdate(score: real, member: string, ghost q: nat) returns (update: seq<SkipNode>, ghost pos: seq<nat>)
      requires Valid() && IsSpot(all, score, member, q)
      ensures IsUpdate(all, q, level, update, pos)
    {
      hide Linked, Scored, LevelsWithin, NextPos;
      var first := head;
      update, pos := seq(MAX_LEVEL, _ => first), seq(MAX_LEVEL, _ => 0);
      var cur: SkipNode := head;
      ghost var p: nat := 0;
      var i: nat := level;
      while i > 0
        invariant |update| == |pos| == MAX_LEVEL && i <= level && p < q <= |all| && cur == all[p]
        invariant i > 0 ==> cur.level > i - 1
        invariant forall j :: i <= j < level ==>
                    pos[j] < q && update[j] == all[pos[j]] && all[pos[j]].level > j && NextPos(all, pos[j] + 1, j) >= q
      {
        i := i - 1;
        cur, p := Descend(cur, i, score, member, q, p);
        update, pos := update[i := cur], pos[i := p];
      }
    }

    /** Links a new node in, level by level. */
    method LinkIn(n: SkipNode, update: seq<SkipNode>, ghost q: nat, ghost pos: seq<nat>)
      requires Valid() && 0 < q && IsUpdate(all, q, level, update, pos) && n.level <= level && n !in all
      requires |n.forward| == n.level
      modifies Nodes(), n
      ensures |n.forward| == n.level
      ensures forall k :: 0 <= k <= |all| ==>
                InsertLeaves(all, old(Forwards(all)), q, pos, n, k, Inserted(all, q, n)[k].forward)
    {
      hide Sorted, Linked, Scored, IsUpdate, InsertLeaves, LinkStep, LevelsWithin, NextPos;
      UpdateShape(all, Forwards(all), q, level, update, pos);
      ghost var fw := Forwards(all);
      LinkStarts(fw, pos, n);
      for i := 0 to n.level
        invariant |n.forward| == n.level && LinkStep(fw, Forwards(all), pos, n, n.forward, i)
      {
        ghost var fw1, links1 := Forwards(all), n.forward;
        LinkStepAt(fw, fw1, pos, n, links1, i);
        assert fw1[pos[i]] == update[i].forward;
        n.forward := n.forward[i := update[i].forward[i]];
        update[i].forward := update[i].forward[i := n];
        assert Forwards(all) == fw1[pos[i] := fw1[pos[i]][i := n]];
        LinkGoesOn(fw, fw1, pos, n, links1, i);
      }
      forall k | 0 <= k <= |all|
        ensures InsertLeaves(all, fw, q, pos, n, k, Inserted(all, q, n)[k].forward)
      {
        InsertedIs(all, q, n, k);
        LinkEnds(all, fw, Forwards(all), q, pos, n, n.forward, k);
      }
    }

    /** Unlinks a node, level by level, until one where the search did not stop before it. */
    method Unlink(target: SkipNode, update: seq<SkipNode>, ghost q: nat, ghost pos: seq<nat>)
      requires Valid() && 0 < q < |all| && target == all[q] && IsUpdate(all, q, level, update, pos)
      modifies Nodes()
      ensures forall k :: 0 <= k < |all| - 1 ==>
                RemoveLeaves(all, old(Forwards(all)), q, pos, k, Removed(all, q)[k].forward)
    {
      hide Sorted, Scored, IsUpdate, RemoveLeaves, UnlinkStep, Linked;
      UpdateShape(all, Forwards(all), q, level, update, pos);
      ghost var fw := Forwards(all);
      assert target.level <= level;
      UnlinkStarts(fw, pos, q, target.level);
      var i := 0;
      while i < level
        invariant i <= target.level && UnlinkStep(fw, Forwards(all), pos, q, target.level, i)
      {
        ghost var fw1 := Forwards(all);
        UnlinkStepAt(fw, fw1, pos, q, target.level, i);
        LeadsToTarget(all, fw, q, level, update, pos, i);
        assert fw1[pos[i]] == update[i].forward;
        if update[i].forward[i] != target {
          break;
        }
        assert fw1[q] == target.forward;
        UnlinkGoesOn(fw, fw1, pos, q, target.level, i);
        update[i].forward := update[i].forward[i := target.forward[i]];
        assert Forwards(all) == fw1[pos[i] := fw1[pos[i]][i := fw1[q][i]]];
        i := i + 1;
      }
      assert i == target.level;
      forall k | 0 <= k < |all| - 1
        ensures RemoveLeaves(all, fw, q, pos, k, Removed(all, q)[k].forward)
      {
        RemovedIs(all, q, k);
        UnlinkEnds(all, fw, Forwards(all), q, pos, k);
      }
    }

    /** `random_level`: any level from 1 to the maximum. */
    method RandomLevel() returns (lvl: nat)
      ensures 1 <= lvl <= MAX_LEVEL
    {
      lvl :| 1 <= lvl <= MAX_LEVEL;
    }

    /** Adds an entry whose member is not there yet; the levels above the present one start at the head. */
    method InsertNew(score: real, member: string, update0: seq<SkipNode>, ghost q: nat, ghost pos0: seq<nat>)
      requires Valid() && member !in memberScores && IsSpot(all, score, member, q)
      requires IsUpdate(all, q, level, update0, pos0)
      modifies this, Nodes()
      ensures Valid() && memberScores == old(memberScores)[member := score] && size == old(size) + 1
      ensures fresh(Nodes() - old(Nodes()))
    {
      hide Sorted, Linked, Scored, InsertLeaves, Inserted, IsUpdate, LevelsWithin, IsSpot, NextPos, NodeAt;
      var update: seq<SkipNode> := update0;
      ghost var pos := pos0;
      var lvl := RandomLevel();
      if lvl > level {
        HeadFirst(all, q, level, update, pos, score, member);
        for i := level to lvl
          modifies {}
          invariant IsUpdate(all, q, i, update, pos)
        {
          UpdateRaised(all, q, level, i, update, pos);
          update, pos := update[i := head], pos[i := 0];
        }
        LevelsWithinMore(all, level, lvl);
        level := lvl;
      }
      HeadFirst(all, q, level, update, pos, score, member);
      ghost var fw := Forwards(all);
      var n := new SkipNode(lvl, score, member);
      assert Forwards(all) == fw;
      LinkIn(n, update, q, pos);
      ghost var longer := Inserted(all, q, n);
      InsertedLength(all, q, n);
      InsertLinks(all, fw, q, level, update, pos, n, Forwards(longer));
      InsertedSorted(all, q, n, memberScores);
      InsertedScored(all, q, n, memberScores);
      InsertedLevels(all, q, n, level);
      all := longer;
      memberScores := memberScores[member := score];
      size := size + 1;
    }

    /** Takes the entry with this key out, if there is one. */
    method Remove(score: real, member: string) returns (removed: bool)
      requires Valid()
      modifies this, Nodes()
      ensures Valid() && Nodes() <= old(Nodes())
      ensures removed <==> member in old(memberScores) && old(memberScores)[member] == score
      ensures memberScores == (if removed then old(memberScores) - {member} else old(memberScores))
      ensures size == old(size) - if removed then 1 else 0
    {
      ghost var q := SpotExists(all, score, member);
      ghost var pos;
      var update;
      update, pos := FindUpdate(score, member, q);
      SpotOfKey(all, memberScores, score, member, q);
      FirstLink(all, Forwards(all), q, level, update, pos);
      assert Forwards(all)[pos[0]] == update[0].forward;
      var target := update[0].forward[0];
      if target == null || target.score != score || target.member != member {
        return false;
      }
      Bypass(target, update, q, pos);
      return true;
    }

    lemma HeadLinks()
      requires Sorted(all) && Linked(all, Forwards(all)) && head == all[0]
      ensures |head.forward| == MAX_LEVEL
      ensures forall i {:trigger head.forward[i]} :: 0 <= i < MAX_LEVEL ==> head.forward[i] == NodeAt(all, NextPos(all, 1, i))
    {
      LinkedAtHead(all, Forwards(all));
      assert Forwards(all)[0] == head.forward;
    }

    /** Takes the node at `q` out of the chain, lowers the level while the top one is empty, forgets the score. */
    method Bypass(target: SkipNode, update: seq<SkipNode>, ghost q: nat, ghost pos: seq<nat>)
      requires Valid() && 0 < q < |all| && target == all[q] && IsUpdate(all, q, level, update, pos)
      modifies this, Nodes()
      ensures Valid() && all == Removed(old(all), q)
      ensures target.member in old(memberScores) && memberScores == old(memberScores) - {target.member}
      ensures size == old(size) - 1
    {
      hide Sorted, Linked, Scored, RemoveLeaves, Removed, IsUpdate, LevelsWithin, NextPos, NodeAt;
      ghost var fw := Forwards(all);
      LevelOf(all, level, q);
      Unlink(target, update, q, pos);
      ghost var shorter := Removed(all, q);
      RemovedLength(all, q, level);
      RemoveLinks(all, fw, q, level, update, pos, Forwards(shorter));
      RemovedSorted(all, q);
      RemovedScored(all, q, memberScores);
      all := shorter;
      HeadLinks();
      while level > 1 && head.forward[level - 1] == null
        modifies `level
        invariant 1 <= level <= MAX_LEVEL && LevelsWithin(all, level)
      {
        TopIsEmpty(all, level);
        level := level - 1;
      }
      memberScores := memberScores - {target.member};
      size := size - 1;
    }

    method ScoreOf(member: string) returns (r: Option<real>)
      ensures r == if member in memberScores then Some(memberScores[member]) else None
    {
      r := if member in memberScores then Some(memberScores[member]) else None;
    }

    /** Adds the entry; a member that is there at another score is taken out first. */
    method Insert(score: real, member: string)
      requires Valid()
      modifies this, Nodes()
      ensures Valid() && memberScores == old(memberScores)[member := score]
      ensures size == old(size) + if member in old(memberScores) then 0 else 1
      ensures fresh(Nodes() - old(Nodes()))
    {
      hide Sorted, Linked, Scored, IsUpdate, LevelsWithin, IsSpot;
      ghost var q := SpotExists(all, score, member);
      var update: seq<SkipNode>;
      ghost var pos;
      update, pos := FindUpdate(score, member, q);
      SpotOfKey(all, memberScores, score, member, q);
      HeadFirst(all, q, level, update, pos, score, member);
      FirstLink(all, Forwards(all), q, level, update, pos);
      UpdateShape(all, Forwards(all), q, level, update, pos);
      assert Forwards(all)[pos[0]] == update[0].forward;
      var next := update[0].forward[0];
      if next != null && next.member == member && next.score == score {
        assert memberScores[member := score] == memberScores;
        return;
      }
      var oldScore := ScoreOf(member);
      if oldScore.Some? && oldScore.value != score {
        var removed := Remove(oldScore.value, member);
        q := SpotExists(all, score, member);
        update, pos := FindUpdate(score, member, q);
      }
      InsertNew(score, member, update, q, pos);
    }

    /** The pairs with a score in the range, in order. */
    method RangeByScore(minScore: real, maxScore: real) returns (result: seq<(real, string)>)
      requires Valid()
      ensures result == Within(Pairs(all, 1), minScore, maxScore)
    {
      ghost var p;
      var last: SkipNode;
      last, p := SkipBelow(minScore);
      NextIsNeighbour(all, Forwards(all), p);
      BelowContributeNothing(all, p, minScore, maxScore);
      result := Collect(last.forward[0], p + 1, minScore, maxScore);
    }

    /** Over all levels, the last node with a score below the bound. */
    method SkipBelow(minScore: real) returns (cur: SkipNode, ghost p: nat)
      requires Valid()
      ensures p < |all| && cur == all[p] && (p > 0 ==> cur.score < minScore)
      ensures p + 1 < |all| ==> all[p + 1].score >= minScore
    {
      hide Scored, Linked;
      cur, p := head, 0;
      var i: nat := level;
      while i > 0
        invariant i <= level && p < |all| && cur == all[p] && (i > 0 ==> cur.level > i - 1) && cur.level > 0
        invariant p > 0 ==> cur.score < minScore
        invariant i < level ==> i < |cur.forward| && (cur.forward[i] == null || cur.forward[i].score >= minScore)
      {
        i := i - 1;
        LinkedAt(all, Forwards(all), p, i);
        while cur.forward[i] != null && cur.forward[i].score < minScore
          invariant p < |all| && cur == all[p] && cur.level > i && (p > 0 ==> cur.score < minScore)
          invariant i < |cur.forward| && cur.forward[i] == NodeAt(all, NextPos(all, p + 1, i))
          decreases |all| - p
        {
          cur, p := cur.forward[i], NextPos(all, p + 1, i);
          LinkedAt(all, Forwards(all), p, i);
        }
      }
      NextIsNeighbour(all, Forwards(all), p);
      assert Forwards(all)[p] == cur.forward;
    }

    /** Walks the lowest level while the score is within the bound. */
    method Collect(first: SkipNode?, ghost p0: nat, ghost minScore: real, maxScore: real) returns (result: seq<(real, string)>)
      requires Valid() && 0 < p0 <= |all| && first == NodeAt(all, p0) && (p0 < |all| ==> all[p0].score >= minScore)
      ensures result == Within(Pairs(all, p0), minScore, maxScore)
    {
      hide Scored, Linked, Within, Pairs;
      var cur := first;
      ghost var p := p0;
      result := [];
      while cur != null && cur.score <= maxScore
        invariant 0 < p <= |all| && cur == NodeAt(all, p) && (p < |all| ==> all[p].score >= minScore)
        invariant Within(Pairs(all, p0), minScore, maxScore) == result + Within(Pairs(all, p), minScore, maxScore)
        decreases |all| - p
      {
        NextIsNeighbour(all, Forwards(all), p);
        assert Forwards(all)[p] == cur.forward;
        SortedAt(all, p, p + 1);
        result := result + [(cur.score, cur.member)];
        WithinStep(all, p, minScore, maxScore);
        cur, p := cur.forward[0], p + 1;
      }
      AboveContributeNothing(all, p, minScore, maxScore);
    }

    /** The pairs with ranks from `start` to `stop`, both included, counted from 0. */
    method RangeByRank(start: int, stop: int) returns (result: seq<(real, string)>)
      requires Valid()
      ensures result == Ranked(Pairs(all, 1), start, stop)
    {
      hide Sorted, Linked, Scored, Pairs, Ranked;
      result := [];
      NextIsNeighbour(all, Forwards(all), 0);
      assert Forwards(all)[0] == head.forward;
      PairsAre(all, 1, 0);
      RankedStarts(Pairs(all, 1), start);
      var cur := head.forward[0];
      var idx := 0;
      while cur != null && idx <= stop
        invariant 0 <= idx < |all| && cur == NodeAt(all, idx + 1)
        invariant idx == 0 || idx <= stop + 1
        invariant |Pairs(all, 1)| == |all| - 1 && result == Ranked(Pairs(all, 1), start, idx - 1)
        decreases |all| - idx
      {
        NextIsNeighbour(all, Forwards(all), idx + 1);
        assert Forwards(all)[idx + 1] == cur.forward;
        PairAt(all, idx);
        RankedStep(Pairs(all, 1), start, idx);
        if idx >= start {
          result := result + [(cur.score, cur.member)];
        }
        cur := cur.forward[0];
        idx := idx + 1;
      }
      RankedEnds(Pairs(all, 1), start, stop, idx);
    }
  }

  lemma RankedStarts(pairs: seq<(real, string)>, start: int)
    ensures Ranked(pairs, start, -1) == []
  {
  }

  lemma RankedStep(pairs: seq<(real, string)>, start: int, idx: nat)
    requires idx < |pairs|
    ensures Ranked(pairs, start, idx) == Ranked(pairs, start, idx - 1) + if idx >= start then [pairs[idx]] else []
  {
  }

  lemma RankedEnds(pairs: seq<(real, string)>, start: int, stop: int, idx: nat)
    requires idx <= |pairs| && (idx == 0 || idx <= stop + 1) && (idx == |pairs| || idx > stop)
    ensures Ranked(pairs, start, idx - 1) == Ranked(pairs, start, stop)
  {
  }

  /** The nodes from position `p` on that take part in level `i`. */
  ghost function OfLevel(all: seq<SkipNode>, p: nat, i: nat): seq<SkipNode>
    requires p <= |all|
    decreases |all| - p
  {
    if p == |all| then [] else (if all[p].level > i then [all[p]] else []) + OfLevel(all, p + 1, i)
  }

  /** What following the links of level `i` from a node meets. */
  ghost function Chain(nodes: set<SkipNode>, node: SkipNode?, i: nat, fuel: nat): seq<SkipNode>
    reads nodes
  {
    if node == null || node !in nodes || i >= |node.forward| || fuel == 0 then [] else
      [node] + Chain(nodes, node.forward[i], i, fuel - 1)
  }

  ghost predicate Sublist(a: seq<SkipNode>, b: seq<SkipNode>) {
    a == [] || (b != [] && (Sublist(a, b[1..]) || (a[0] == b[0] && Sublist(a[1..], b[1..]))))
  }

  /** Following a level meets exactly the nodes of that level, in the order of the chain. */
  lemma {:induction false} ChainIsLevel(list: SkipList, p: nat, i: nat, fuel: nat)
    requires list.Valid() && p <= |list.all| && fuel >= |list.all| - p
    ensures Chain(list.Nodes(), NodeAt(list.all, NextPos(list.all, p, i)), i, fuel) == OfLevel(list.all, p, i)
    decreases |list.all| - p
  {
    hide Sorted, Scored, LevelsWithin;
    var all := list.all;
    if p < |all| {
      OfLevelStep(all, p, i);
      if all[p].level > i {
        LinkedAt(all, Forwards(all), p, i);
        assert all[p] in list.Nodes() && Forwards(all)[p] == all[p].forward;
        ChainIsLevel(list, p + 1, i, fuel - 1);
      } else {
        ChainIsLevel(list, p + 1, i, fuel);
      }
    } else {
      assert NodeAt(all, NextPos(all, p, i)) == null;
    }
  }

  /** Each level's chain is a sublist of the one below. */
  lemma {:induction false} LevelsNest(all: seq<SkipNode>, p: nat, i: nat)
    requires p <= |all|
    ensures Sublist(OfLevel(all, p, i + 1), OfLevel(all, p, i))
    decreases |all| - p
  {
    if p < |all| {
      LevelsNest(all, p + 1, i);
      hide Sublist, OfLevel;
      OfLevelStep(all, p, i);
      OfLevelStep(all, p, i + 1);
      SublistCons(OfLevel(all, p + 1, i + 1), OfLevel(all, p + 1, i), all[p]);
    }
  }

  lemma SublistCons(a: seq<SkipNode>, b: seq<SkipNode>, x: SkipNode)
    requires Sublist(a, b)
    ensures Sublist(a, [x] + b) && Sublist([x] + a, [x] + b)
  {
    assert ([x] + b)[1..] == b && ([x] + a)[1..] == a;
  }

  lemma OfLevelStep(all: seq<SkipNode>, p: nat, i: nat)
    requires p < |all|
    ensures all[p].level > i ==> OfLevel(all, p, i) == [all[p]] + OfLevel(all, p + 1, i) &&
                                 OfLevel(all, p, i)[1..] == OfLevel(all, p + 1, i)
    ensures all[p].level <= i ==> OfLevel(all, p, i) == OfLevel(all, p + 1, i)
  {
  }

  /** The lowest level is the whole chain. */
  lemma {:induction false} LowestLevelIsAll(all: seq<SkipNode>, p: nat)
    requires Sorted(all) && 0 < p <= |all|
    ensures OfLevel(all, p, 0) == all[p..]
    decreases |all| - p
  {
    if p < |all| {
      LowestLevelIsAll(all, p + 1);
      assert all[p..] == [all[p]] + all[p + 1..];
    }
  }

  /** The pairs with a score from `lo` to `hi`. */
  ghost function Within(pairs: seq<(real, string)>, lo: real, hi: real): seq<(real, string)> {
    if pairs == [] then [] else
      (if lo <= pairs[0].0 <= hi then [pairs[0]] else []) + Within(pairs[1..], lo, hi)
  }

  ghost function Clamp(x: int, n: nat): nat {
    if x < 0 then 0 else if x > n then n else x
  }

  /** The pairs at positions `start` to `stop`, as far as there are any. */
  ghost function Ranked(pairs: seq<(real, string)>, start: int, stop: int): seq<(real, string)> {
    var lo, hi := Clamp(start, |pairs|), Clamp(stop + 1, |pairs|);
    if lo <= hi then pairs[lo..hi] else []
  }

  /** Exactly the ranks asked for, both ends included, as far as there are any. */
  lemma RankedIs(pairs: seq<(real, string)>, start: int, stop: int, k: nat)
    ensures var from, ranked := if start < 0 then 0 else start, Ranked(pairs, start, stop);
      && (start <= k <= stop && k < |pairs| ==> k - from < |ranked| && ranked[k - from] == pairs[k])
      && (k < |ranked| ==> from + k <= stop && from + k < |pairs| && ranked[k] == pairs[from + k])
  {
  }

  lemma {:induction false} PairsAre(all: seq<SkipNode>, p: nat, k: nat)
    requires p <= |all|
    ensures |Pairs(all, p)| == |all| - p
    ensures p + k < |all| ==> Pairs(all, p)[k] == (all[p + k].score, all[p + k].member)
    decreases |all| - p
  {
    if p < |all| {
      PairsAre(all, p + 1, if k == 0 then 0 else k - 1);
    }
  }

  lemma PairAt(all: seq<SkipNode>, idx: nat)
    requires idx + 1 < |all|
    ensures |Pairs(all, 1)| == |all| - 1 && Pairs(all, 1)[idx] == (all[idx + 1].score, all[idx + 1].member)
  {
    PairsAre(all, 1, idx);
  }

  /** On the lowest level every node leads to its neighbour. */
  lemma NextIsNeighbour(all: seq<SkipNode>, fw: seq<seq<SkipNode?>>, p: nat)
    requires Sorted(all) && Linked(all, fw) && p < |all|
    ensures |fw| == |all| && |fw[p]| > 0 && fw[p][0] == NodeAt(all, p + 1)
  {
    LinkedAt(all, fw, p, 0);
    NextPosIs(all, p + 1, 0, p + 1);
  }

  lemma WithinStep(all: seq<SkipNode>, p: nat, lo: real, hi: real)
    requires 0 < p < |all|
    ensures Within(Pairs(all, p), lo, hi) ==
            (if lo <= all[p].score <= hi then [(all[p].score, all[p].member)] else []) + Within(Pairs(all, p + 1), lo, hi)
  {
    assert Pairs(all, p)[1..] == Pairs(all, p + 1);
  }

  lemma {:induction false} BelowContributeNothing(all: seq<SkipNode>, p: nat, lo: real, hi: real)
    requires Sorted(all) && p < |all| && (p > 0 ==> all[p].score < lo)
    ensures Within(Pairs(all, 1), lo, hi) == Within(Pairs(all, p + 1), lo, hi)
  {
    if p > 0 {
      if p > 1 {
        assert all[p - 1].Before(all[p].score, all[p].member);
      }
      BelowContributeNothing(all, p - 1, lo, hi);
      WithinStep(all, p, lo, hi);
    }
  }

  lemma {:induction false} AboveContributeNothing(all: seq<SkipNode>, p: nat, lo: real, hi: real)
    requires Sorted(all) && 0 < p <= |all| && (p < |all| ==> all[p].score > hi)
    ensures Within(Pairs(all, p), lo, hi) == []
    decreases |all| - p
  {
    if p < |all| {
      if p + 1 < |all| {
        assert all[p].Before(all[p + 1].score, all[p + 1].member);
      }
      AboveContributeNothing(all, p + 1, lo, hi);
      WithinStep(all, p, lo, hi);
    }
  }
}
