/** The sorted sets: one skip list for every name. */
module SortedSets {
  import opened Options
  import opened SkipLinks
  import opened SkipLists
  import opened Shelves

  /** What a set that was never added to holds. */
  ghost function Of(scores: map<string, map<string, real>>, key: string): map<string, real> {
    if key in scores then scores[key] else map[]
  }

  lemma NoneInOrder(scores: map<string, real>)
    requires scores == map[]
    ensures InOrder([], scores) && exists pairs :: InOrder(pairs, scores)
  {
    var none: seq<(real, string)> := [];
    assert InOrder(none, scores);
  }

  class SortedSetEngine {
    var sets: Shelf
    ghost var repr: set<object>

    ghost predicate Valid()
      reads this, repr
    {
      this !in repr && Sound(sets, repr)
    }

    ghost function Scores(): map<string, map<string, real>>
      reads this, ListsOf(sets)
    {
      Shelves.Scores(sets)
    }

    constructor ()
      ensures Valid() && Scores() == map[] && repr == {}
    {
      sets, repr := map[], {};
    }

    method GetOrCreate(key: string)
      requires Valid()
      modifies this
      ensures Valid() && key in sets && old(repr) <= repr && fresh(repr - old(repr))
      ensures Scores() == old(Scores())[key := Of(old(Scores()), key)]
    {
      if key in sets {
        return;
      }
      var list;
      ghost var wider;
      list, wider := Open(sets, repr, key);
      sets, repr := sets[key := list], wider;
    }

    method Insert(key: string, score: real, member: string)
      requires Valid() && key in sets
      modifies this`repr, repr
      ensures Valid() && old(repr) <= repr && fresh(repr - old(repr))
      ensures Scores() == old(Scores())[key := old(Scores())[key][member := score]]
    {
      hide Sound, SkipList.Valid;
      repr := Put(sets, repr, key, score, member);
    }

    /** Sets the member's score; 1 if the member is new. */
    method ZAdd(key: string, score: real, member: string) returns (added: int)
      requires Valid()
      modifies this, repr
      ensures Valid() && old(repr) <= repr && fresh(repr - old(repr))
      ensures Scores() == old(Scores())[key := Of(old(Scores()), key)[member := score]]
      ensures added == if member in Of(old(Scores()), key) then 0 else 1
    {
      hide Sound, ListsOf, SkipList.Valid;
      GetOrCreate(key);
      ListAt(sets, key);
      var had := sets[key].ScoreOf(member);
      Insert(key, score, member);
      added := if had.None? then 1 else 0;
    }

    /** Takes the member out; a set that becomes empty stays. */
    method ZRem(key: string, member: string) returns (removed: bool)
      requires Valid()
      modifies repr
      ensures Valid()
      ensures removed <==> member in Of(old(Scores()), key)
      ensures Scores() == if removed then old(Scores())[key := old(Scores())[key] - {member}] else old(Scores())
    {
      if key !in sets {
        return false;
      }
      var sc := sets[key].ScoreOf(member);
      if sc.None? {
        return false;
      }
      removed := Take(sets, repr, key, sc.value, member);
    }

    method ZScore(key: string, member: string) returns (r: Option<real>)
      requires Valid()
      ensures r == if member in Of(Scores(), key) then Some(Of(Scores(), key)[member]) else None
    {
      if key !in sets {
        return None;
      }
      r := sets[key].ScoreOf(member);
    }

    /** The entries ranked from `start` to `stop`. */
    method ZRange(key: string, start: int, stop: int) returns (result: seq<(real, string)>)
      requires Valid()
      ensures exists pairs :: InOrder(pairs, Of(Scores(), key))
      ensures forall pairs :: InOrder(pairs, Of(Scores(), key)) ==> result == Ranked(pairs, start, stop)
    {
      if key !in sets {
        NoneInOrder(Of(Scores(), key));
        return [];
      }
      Chained(key);
      ghost var scores := Of(Scores(), key);
      result := sets[key].RangeByRank(start, stop);
      assert Of(Scores(), key) == scores && InOrder(Pairs(sets[key].all, 1), scores);
    }

    method ZRangeByScore(key: string, minScore: real, maxScore: real) returns (result: seq<(real, string)>)
      requires Valid()
      ensures exists pairs :: InOrder(pairs, Of(Scores(), key))
      ensures forall pairs :: InOrder(pairs, Of(Scores(), key)) ==> result == Within(pairs, minScore, maxScore)
    {
      if key !in sets {
        NoneInOrder(Of(Scores(), key));
        return [];
      }
      Chained(key);
      ghost var scores := Of(Scores(), key);
      result := sets[key].RangeByScore(minScore, maxScore);
      assert Of(Scores(), key) == scores && InOrder(Pairs(sets[key].all, 1), scores);
    }

    method ZCard(key: string) returns (n: nat)
      requires Valid()
      ensures n == |Of(Scores(), key)|
    {
      if key !in sets {
        return 0;
      }
      assert Stands(sets, repr, key);
      n := sets[key].size;
    }

    /** The member's place in the order, counted from 0; -1 if it is not there. */
    method ZRank(key: string, member: string) returns (rank: int)
      requires Valid()
      ensures exists pairs :: InOrder(pairs, Of(Scores(), key))
      ensures rank == -1 <==> member !in Of(Scores(), key)
      ensures forall pairs :: InOrder(pairs, Of(Scores(), key)) && rank != -1 ==>
                0 <= rank < |pairs| && pairs[rank] == (Of(Scores(), key)[member], member)
    {
      hide Sound, SkipList.Valid, Ranked, InOrder, Pairs;
      if key !in sets {
        NoneInOrder(Of(Scores(), key));
        return -1;
      }
      Chained(key);
      ghost var scores, pairs := Of(Scores(), key), Pairs(sets[key].all, 1);
      MemberInOrder(pairs, scores, member);
      var sc := sets[key].ScoreOf(member);
      if sc.None? {
        assert Of(Scores(), key) == scores;
        return -1;
      }
      var results := sets[key].RangeByRank(0, sets[key].size);
      WholeRange(pairs, sets[key].size);
      rank := PlaceOf(results, member);
      assert Of(Scores(), key) == scores;
    }

    lemma MemberInOrder(pairs: seq<(real, string)>, scores: map<string, real>, member: string)
      requires InOrder(pairs, scores)
      ensures member in scores ==> exists i :: 0 <= i < |pairs| && pairs[i] == (scores[member], member)
      ensures forall i :: 0 <= i < |pairs| ==> pairs[i].1 in scores && pairs[i].0 == scores[pairs[i].1]
    {
    }

    static method PlaceOf(results: seq<(real, string)>, member: string) returns (place: int)
      ensures place == -1 ==> forall i :: 0 <= i < |results| ==> results[i].1 != member
      ensures place != -1 ==> 0 <= place < |results| && results[place].1 == member
    {
      for i := 0 to |results|
        invariant forall j :: 0 <= j < i ==> results[j].1 != member
      {
        if results[i].1 == member {
          return i;
        }
      }
      return -1;
    }

    lemma WholeRange(pairs: seq<(real, string)>, n: nat)
      requires |pairs| <= n
      ensures Ranked(pairs, 0, n) == pairs
    {
    }

    lemma Chained(key: string)
      requires Valid() && key in sets
      ensures sets[key].Valid() && sets[key].size == |Pairs(sets[key].all, 1)| && InOrder(Pairs(sets[key].all, 1), Of(Scores(), key))
      ensures forall pairs :: InOrder(pairs, Of(Scores(), key)) ==> pairs == Pairs(sets[key].all, 1)
    {
      assert Stands(sets, repr, key);
      ChainInOrder(sets[key]);
      forall pairs | InOrder(pairs, Of(Scores(), key))
        ensures pairs == Pairs(sets[key].all, 1)
      {
        OrderIsUnique(pairs, Pairs(sets[key].all, 1), Of(Scores(), key));
      }
    }
  }
}
