/** The property index: one skip list for every label and property, and for every node the values that were
    ever indexed for it. */
module PropertyIndexes {
  import opened Decimals
  import opened SkipLinks
  import opened SkipLists
  import opened Shelves
  import opened Options

  type Table = map<string, map<string, real>>

  function MakeKey(labelText: string, prop: string): string {
    labelText + "." + prop
  }

  lemma DotEndsLabel(labelText: string, prop: string)
    requires '.' !in labelText
    ensures var key := MakeKey(labelText, prop);
      |labelText| < |key| && key[|labelText|] == '.' && forall i :: 0 <= i < |labelText| ==> key[i] != '.'
  {
    var key := MakeKey(labelText, prop);
    forall i | 0 <= i < |labelText|
      ensures key[i] != '.'
    {
      assert key[i] == labelText[i] && labelText[i] in labelText;
    }
  }

  /** Labels without a dot keep their properties apart. */
  lemma KeysApart(l1: string, p1: string, l2: string, p2: string)
    requires '.' !in l1 && '.' !in l2
    ensures MakeKey(l1, p1) == MakeKey(l2, p2) <==> l1 == l2 && p1 == p2
  {
    var k1, k2 := MakeKey(l1, p1), MakeKey(l2, p2);
    DotEndsLabel(l1, p1);
    DotEndsLabel(l2, p2);
    assert k1[..|l1|] == l1 && k2[..|l2|] == l2 && k1[|l1| + 1..] == p1 && k2[|l2| + 1..] == p2;
  }

  /** Wherever a key holds a dot it can be taken apart. */
  lemma SplitsAt(labelText: string, prop: string, i: nat)
    requires i < |MakeKey(labelText, prop)| && MakeKey(labelText, prop)[i] == '.'
    ensures var key := MakeKey(labelText, prop); MakeKey(key[..i], key[i + 1..]) == key
  {
    var key := MakeKey(labelText, prop);
    assert key == key[..i] + "." + key[i + 1..];
  }

  /** No other pair has this key, exactly when neither its label nor its property holds a dot. */
  lemma KeyIsItsOwn(labelText: string, prop: string)
    ensures (forall l, p :: MakeKey(l, p) == MakeKey(labelText, prop) ==> l == labelText && p == prop) <==>
              '.' !in labelText && '.' !in prop
  {
    var key := MakeKey(labelText, prop);
    var n := |labelText|;
    assert key[n] == '.';
    forall i | 0 <= i < |key| && i != n
      ensures key[i] == if i < n then labelText[i] else prop[i - n - 1]
    {
    }
    if '.' in labelText {
      var i :| 0 <= i < n && labelText[i] == '.';
      SplitsAt(labelText, prop, i);
      assert |key[..i]| == i;
    } else if '.' in prop {
      var i :| 0 <= i < |prop| && prop[i] == '.';
      assert key[n + 1 + i] == prop[i];
      SplitsAt(labelText, prop, n + 1 + i);
      assert |key[..n + 1 + i]| == n + 1 + i;
    } else {
      forall l, p | MakeKey(l, p) == key
        ensures l == labelText && p == prop
      {
        assert key[|l|] == '.';
        assert |l| == n;
        assert key[..n] == l && key[..n] == labelText && key[n + 1..] == p && key[n + 1..] == prop;
      }
    }
  }

  /** With a dot in a label or in a property, two pairs can share a list. */
  lemma KeysCanMeet()
    ensures MakeKey("a.b", "c") == MakeKey("a", "b.c")
  {
    assert "a.b" + "." + "c" == "a.b.c" == "a" + "." + "b.c";
  }

  /** The value indexed for a node under a composed key. */
  ghost function ValueOf(table: Table, key: string, id: int): Option<real> {
    if key in table && Printed(id) in table[key] then Some(table[key][Printed(id)]) else None
  }

  /** A member is some node's number, and its current value is among those remembered for the node. */
  ghost predicate Backed(table: Table, entries: map<int, seq<(string, real)>>, key: string, m: string)
    requires key in table && m in table[key]
  {
    exists id {:trigger Printed(id)} :: m == Printed(id) && id in entries && (key, table[key][m]) in entries[id]
  }

  ghost predicate AllBacked(table: Table, entries: map<int, seq<(string, real)>>) {
    forall key, m {:trigger Backed(table, entries, key, m)} :: key in table && m in table[key] ==>
      Backed(table, entries, key, m)
  }

  function Remembered(entries: map<int, seq<(string, real)>>, id: int): seq<(string, real)> {
    if id in entries then entries[id] else []
  }

  lemma AddKeepsBacked(table: Table, table': Table, entries: map<int, seq<(string, real)>>, key: string, value: real, id: int)
    requires AllBacked(table, entries)
    requires table' == table[key := (if key in table then table[key] else map[])[Printed(id) := value]]
    ensures AllBacked(table', entries[id := Remembered(entries, id) + [(key, value)]])
    ensures forall k, i :: ValueOf(table', k, i) == if k == key && i == id then Some(value) else ValueOf(table, k, i)
  {
    var entries' := entries[id := Remembered(entries, id) + [(key, value)]];
    forall k, m | k in table' && m in table'[k]
      ensures Backed(table', entries', k, m)
    {
      if k == key && m == Printed(id) {
        assert (key, value) in entries'[id];
      } else {
        assert Backed(table, entries, k, m);
        var i :| m == Printed(i) && i in entries && (k, table[k][m]) in entries[i];
        assert i in entries' && (k, table'[k][m]) in entries'[i];
      }
    }
    forall k, i
      ensures ValueOf(table', k, i) == if k == key && i == id then Some(value) else ValueOf(table, k, i)
    {
      if Printed(i) == Printed(id) {
        PrintedApart(i, id);
      }
    }
  }

  /** What `std::remove_if` leaves. */
  function Forgotten(es: seq<(string, real)>, key: string, value: real): seq<(string, real)> {
    if es == [] then [] else
      (if es[0] == (key, value) then [] else [es[0]]) + Forgotten(es[1..], key, value)
  }

  lemma {:induction false} ForgottenMembers(es: seq<(string, real)>, key: string, value: real)
    ensures forall e :: e in Forgotten(es, key, value) <==> e in es && e != (key, value)
  {
    if es != [] {
      ForgottenMembers(es[1..], key, value);
      assert es == [es[0]] + es[1..];
    }
  }

  /** The entry is gone from the list if this was its value, and this value is no longer remembered. */
  lemma RemoveKeepsBacked(table: Table, table': Table, entries: map<int, seq<(string, real)>>, key: string, value: real, id: int)
    requires AllBacked(table, entries)
    requires table' == if key in table && Printed(id) in table[key] && table[key][Printed(id)] == value
                       then table[key := table[key] - {Printed(id)}] else table
    ensures AllBacked(table', entries[id := Forgotten(Remembered(entries, id), key, value)])
    ensures forall k, i :: ValueOf(table', k, i) ==
              if k == key && i == id && ValueOf(table, k, i) == Some(value) then None else ValueOf(table, k, i)
  {
    var entries' := entries[id := Forgotten(Remembered(entries, id), key, value)];
    ForgottenMembers(Remembered(entries, id), key, value);
    forall k, m | k in table' && m in table'[k]
      ensures Backed(table', entries', k, m)
    {
      assert Backed(table, entries, k, m);
      var i :| m == Printed(i) && i in entries && (k, table[k][m]) in entries[i];
      assert i in entries' && (k, table'[k][m]) in entries'[i];
    }
    forall k, i
      ensures ValueOf(table', k, i) ==
                if k == key && i == id && ValueOf(table, k, i) == Some(value) then None else ValueOf(table, k, i)
    {
      if Printed(i) == Printed(id) {
        PrintedApart(i, id);
      }
    }
  }

  /** The first `n` remembered values of member `m` have been taken out where they were current. */
  ghost predicate Purging(before: Table, now: Table, es: seq<(string, real)>, n: nat, m: string) {
    && n <= |es| && now.Keys == before.Keys
    && (forall k :: k in before ==> now[k] == before[k] || now[k] == before[k] - {m})
    && (forall j {:trigger es[j]} :: 0 <= j < n && es[j].0 in now && m in now[es[j].0] ==> now[es[j].0][m] != es[j].1)
  }

  lemma PurgeStarts(before: Table, es: seq<(string, real)>, m: string)
    ensures Purging(before, before, es, 0, m)
  {
  }

  lemma PurgeGoesOn(before: Table, now: Table, next: Table, es: seq<(string, real)>, n: nat, m: string)
    requires Purging(before, now, es, n, m) && n < |es|
    requires next == if es[n].0 in now && m in now[es[n].0] && now[es[n].0][m] == es[n].1
                     then now[es[n].0 := now[es[n].0] - {m}] else now
    ensures Purging(before, next, es, n + 1, m)
  {
  }

  /** Because the current value is always remembered, none is left. */
  lemma PurgeEnds(before: Table, now: Table, entries: map<int, seq<(string, real)>>, id: int)
    requires AllBacked(before, entries) && Purging(before, now, Remembered(entries, id), |Remembered(entries, id)|, Printed(id))
    ensures AllBacked(now, entries - {id})
    ensures forall k, i :: ValueOf(now, k, i) == if i == id then None else ValueOf(before, k, i)
  {
    var es, me := Remembered(entries, id), Printed(id);
    forall k | k in now
      ensures me !in now[k]
    {
      if me in before[k] {
        assert Backed(before, entries, k, me);
        var i :| me == Printed(i) && i in entries && (k, before[k][me]) in entries[i];
        PrintedApart(i, id);
        var j :| 0 <= j < |es| && es[j] == (k, before[k][me]);
      }
    }
    forall k, m | k in now && m in now[k]
      ensures Backed(now, entries - {id}, k, m)
    {
      assert Backed(before, entries, k, m);
      var i :| m == Printed(i) && i in entries && (k, before[k][m]) in entries[i];
      assert i in entries - {id};
    }
    forall k, i
      ensures ValueOf(now, k, i) == if i == id then None else ValueOf(before, k, i)
    {
      if Printed(i) == me {
        PrintedApart(i, id);
      }
    }
  }

  class PropertyIndex {
    var indices: Shelf
    var nodeEntries: map<int, seq<(string, real)>>
    ghost var repr: set<object>

    ghost function Table(): Table
      reads this, ListsOf(indices)
    {
      Scores(indices)
    }

    ghost predicate Valid()
      reads this, repr
    {
      this !in repr && Sound(indices, repr) && AllBacked(Table(), nodeEntries)
    }

    constructor ()
      ensures Valid() && Table() == map[] && repr == {}
    {
      indices, nodeEntries, repr := map[], map[], {};
    }

    method Create(key: string)
      requires Valid()
      modifies this`indices, this`repr
      ensures this !in repr && Sound(indices, repr) && key in indices && old(repr) <= repr && fresh(repr - old(repr))
      ensures Table() == old(Table())[key := if key in old(Table()) then old(Table())[key] else map[]]
    {
      if key in indices {
        return;
      }
      var list;
      ghost var wider;
      list, wider := Open(indices, repr, key);
      indices, repr := indices[key := list], wider;
    }

    method Insert(key: string, value: real, member: string)
      requires this !in repr && Sound(indices, repr) && key in indices
      modifies `repr, repr
      ensures this !in repr && Sound(indices, repr) && old(repr) <= repr && fresh(repr - old(repr))
      ensures Table() == old(Table())[key := old(Table())[key][member := value]]
    {
      hide Sound, SkipList.Valid;
      repr := Put(indices, repr, key, value, member);
    }

    /** The node's value under this key is now `value`, whatever it was. */
    method Add(labelText: string, prop: string, value: real, id: int)
      requires Valid()
      modifies this, repr
      ensures Valid() && old(repr) <= repr && fresh(repr - old(repr))
      ensures forall k, i :: ValueOf(Table(), k, i) ==
                if k == MakeKey(labelText, prop) && i == id then Some(value) else old(ValueOf(Table(), k, i))
    {
      hide AllBacked, ValueOf, Sound;
      var key := MakeKey(labelText, prop);
      ghost var before := Table();
      Create(key);
      Insert(key, value, Printed(id));
      ghost var after := Table();
      AddKeepsBacked(before, after, nodeEntries, key, value, id);
      nodeEntries := nodeEntries[id := Remembered(nodeEntries, id) + [(key, value)]];
      assert Table() == after;
    }

    /** Takes the value out if it is the current one. */
    method Remove(labelText: string, prop: string, value: real, id: int)
      requires Valid()
      modifies this, repr
      ensures Valid() && repr == old(repr)
      ensures forall k, i :: ValueOf(Table(), k, i) ==
                if k == MakeKey(labelText, prop) && i == id && old(ValueOf(Table(), k, i)) == Some(value) then None
                else old(ValueOf(Table(), k, i))
    {
      hide AllBacked, ValueOf, Sound;
      var key := MakeKey(labelText, prop);
      ghost var before := Table();
      if key in indices {
        var _ := Take(indices, repr, key, value, Printed(id));
      }
      ghost var after := Table();
      RemoveKeepsBacked(before, after, nodeEntries, key, value, id);
      nodeEntries := nodeEntries[id := Forgotten(Remembered(nodeEntries, id), key, value)];
      assert Table() == after;
    }

    /** Takes the node out everywhere. The label is not looked at. */
    method RemoveNode(labelText: string, id: int)
      requires Valid()
      modifies this, repr
      ensures Valid() && repr == old(repr)
      ensures forall k, i :: ValueOf(Table(), k, i) == if i == id then None else old(ValueOf(Table(), k, i))
    {
      hide AllBacked, ValueOf, Sound, Purging;
      ghost var before := Table();
      var es := Remembered(nodeEntries, id);
      PurgeStarts(before, es, Printed(id));
      if id !in nodeEntries {
        PurgeEnds(before, before, nodeEntries, id);
        assert nodeEntries - {id} == nodeEntries;
        return;
      }
      for n := 0 to |es|
        invariant this !in repr && Sound(indices, repr) && Purging(before, Table(), es, n, Printed(id))
        modifies repr
      {
        ghost var now := Table();
        if es[n].0 in indices {
          var _ := Take(indices, repr, es[n].0, es[n].1, Printed(id));
        }
        PurgeGoesOn(before, now, Table(), es, n, Printed(id));
      }
      ghost var after := Table();
      PurgeEnds(before, after, nodeEntries, id);
      nodeEntries := nodeEntries - {id};
      assert Table() == after;
    }

    /** The nodes with a value in the range, each once, by increasing value. */
    method Range(labelText: string, prop: string, lo: real, hi: real) returns (ids: seq<int>)
      requires Valid()
      ensures InRange(Table(), MakeKey(labelText, prop), lo, hi, ids)
    {
      hide AllBacked, ValueOf, Sound, InOrder, InRange, Within, SkipList.Valid, Pairs, MakeKey;
      var key := MakeKey(labelText, prop);
      if key !in indices {
        NoneInRange(Table(), key, lo, hi);
        return [];
      }
      Chained(key);
      ghost var table, pairs := Table(), Pairs(indices[key].all, 1);
      var results := indices[key].RangeByScore(lo, hi);
      assert results == Within(pairs, lo, hi);
      ids := ReadIds(results);
      RangeIsRight(table, nodeEntries, key, lo, hi, pairs, ids);
      assert Table() == table;
    }

    lemma Chained(key: string)
      requires Valid() && key in indices
      ensures key in Table() && indices[key].Valid() && |indices[key].all| > 0
      ensures InOrder(Pairs(indices[key].all, 1), Table()[key])
    {
      assert Stands(indices, repr, key);
      ChainInOrder(indices[key]);
    }

    static method ReadIds(results: seq<(real, string)>) returns (ids: seq<int>)
      ensures |ids| == |results| && forall j :: 0 <= j < |ids| ==> ids[j] == Leading(results[j].1)
    {
      ids := [];
      for n := 0 to |results|
        invariant |ids| == n && forall j :: 0 <= j < n ==> ids[j] == Leading(results[j].1)
      {
        ids := ids + [Leading(results[n].1)];
      }
    }

    method Exact(labelText: string, prop: string, value: real) returns (ids: seq<int>)
      requires Valid()
      ensures InRange(Table(), MakeKey(labelText, prop), value, value, ids)
    {
      ids := Range(labelText, prop, value, value);
    }
  }

  ghost predicate InRange(table: Table, key: string, lo: real, hi: real, ids: seq<int>) {
    && (forall id :: id in ids <==> ValueOf(table, key, id).Some? && lo <= ValueOf(table, key, id).value <= hi)
    && (forall i, j :: 0 <= i < j < |ids| ==> ids[i] != ids[j])
    && (forall i, j :: 0 <= i < j < |ids| && ValueOf(table, key, ids[i]).Some? && ValueOf(table, key, ids[j]).Some? ==>
          ValueOf(table, key, ids[i]).value <= ValueOf(table, key, ids[j]).value)
  }

  lemma NoneInRange(table: Table, key: string, lo: real, hi: real)
    requires key !in table
    ensures InRange(table, key, lo, hi, [])
  {
  }

  lemma {:induction false} WithinMembers(pairs: seq<(real, string)>, lo: real, hi: real)
    ensures forall p :: p in Within(pairs, lo, hi) <==> p in pairs && lo <= p.0 <= hi
  {
    if pairs != [] {
      WithinMembers(pairs[1..], lo, hi);
      assert pairs == [pairs[0]] + pairs[1..];
    }
  }

  ghost predicate Increasing(pairs: seq<(real, string)>) {
    forall i, j {:trigger pairs[i], pairs[j]} :: 0 <= i < j < |pairs| ==> KeyLess(pairs[i].0, pairs[i].1, pairs[j].0, pairs[j].1)
  }

  lemma {:induction false} WithinIncreasing(pairs: seq<(real, string)>, lo: real, hi: real)
    requires Increasing(pairs)
    ensures Increasing(Within(pairs, lo, hi))
  {
    if pairs != [] {
      WithinIncreasing(pairs[1..], lo, hi);
      WithinMembers(pairs[1..], lo, hi);
      var rest := Within(pairs[1..], lo, hi);
      forall j | 0 <= j < |rest|
        ensures KeyLess(pairs[0].0, pairs[0].1, rest[j].0, rest[j].1)
      {
        assert rest[j] in pairs[1..];
        var k :| 0 <= k < |pairs[1..]| && pairs[1..][k] == rest[j];
        assert pairs[k + 1] == rest[j];
      }
    }
  }

  /** Every entry of a range is a node's. */
  lemma RangeEntry(table: Table, entries: map<int, seq<(string, real)>>, key: string, lo: real, hi: real,
                   pairs: seq<(real, string)>, r: (real, string))
    requires AllBacked(table, entries) && key in table && InOrder(pairs, table[key]) && r in Within(pairs, lo, hi)
    ensures ValueOf(table, key, Leading(r.1)) == Some(r.0) && r.1 == Printed(Leading(r.1)) && lo <= r.0 <= hi
  {
    WithinMembers(pairs, lo, hi);
    var k :| 0 <= k < |pairs| && pairs[k] == r;
    assert Backed(table, entries, key, r.1);
    var id :| r.1 == Printed(id) && id in entries && (key, table[key][r.1]) in entries[id];
    PrintedIsRead(id);
  }

  /** Every node with a value in the range has an entry. */
  lemma RangeMember(table: Table, key: string, lo: real, hi: real, pairs: seq<(real, string)>, id: int)
    requires key in table && InOrder(pairs, table[key])
    requires ValueOf(table, key, id).Some? && lo <= ValueOf(table, key, id).value <= hi
    ensures exists r :: r in Within(pairs, lo, hi) && Leading(r.1) == id
  {
    WithinMembers(pairs, lo, hi);
    var m := Printed(id);
    var p :| 0 <= p < |pairs| && pairs[p] == (table[key][m], m);
    PrintedIsRead(id);
    assert pairs[p] in Within(pairs, lo, hi);
  }

  lemma RangeIsRight(table: Table, entries: map<int, seq<(string, real)>>, key: string, lo: real, hi: real,
                     pairs: seq<(real, string)>, ids: seq<int>)
    requires AllBacked(table, entries) && key in table && InOrder(pairs, table[key])
    requires |ids| == |Within(pairs, lo, hi)| && forall j :: 0 <= j < |ids| ==> ids[j] == Leading(Within(pairs, lo, hi)[j].1)
    ensures InRange(table, key, lo, hi, ids)
  {
    var results := Within(pairs, lo, hi);
    assert Increasing(pairs);
    WithinIncreasing(pairs, lo, hi);
    hide AllBacked, InOrder, ValueOf, Within, Leading, Increasing, Printed;
    forall j | 0 <= j < |ids|
      ensures ValueOf(table, key, ids[j]) == Some(results[j].0) && results[j].1 == Printed(ids[j]) && lo <= results[j].0 <= hi
    {
      RangeEntry(table, entries, key, lo, hi, pairs, results[j]);
    }
    forall id | ValueOf(table, key, id).Some? && lo <= ValueOf(table, key, id).value <= hi
      ensures id in ids
    {
      RangeMember(table, key, lo, hi, pairs, id);
      ReadMember(results, ids, id);
    }
    forall i, j | 0 <= i < j < |ids|
      ensures ids[i] != ids[j] && results[i].0 <= results[j].0
    {
      IncreasingApart(results, i, j);
    }
  }

  lemma ReadMember(results: seq<(real, string)>, ids: seq<int>, id: int)
    requires |ids| == |results| && forall j :: 0 <= j < |ids| ==> ids[j] == Leading(results[j].1)
    requires exists r :: r in results && Leading(r.1) == id
    ensures id in ids
  {
    hide Leading;
    var r :| r in results && Leading(r.1) == id;
    var j :| 0 <= j < |results| && results[j] == r;
    assert ids[j] == id;
  }

  lemma IncreasingApart(pairs: seq<(real, string)>, i: nat, j: nat)
    requires Increasing(pairs) && i < j < |pairs|
    ensures pairs[i] != pairs[j] && pairs[i].0 <= pairs[j].0
  {
    assert KeyLess(pairs[i].0, pairs[i].1, pairs[j].0, pairs[j].1);
    StrLessTotal(pairs[i].1, pairs[j].1);
  }
}
