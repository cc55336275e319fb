/** The Robin Hood hash map: the ring its slots form and the finite map it stands for. */
module RobinHood {
  import opened Sets
  import opened Bits
  import opened Options
  import Smearing

  const EMPTY: nat := 0xFFFF_FFFF

  /** A slot. `dib` is how far the entry sits from its home slot. */
  datatype Entry = Entry(hash: nat, dib: nat, key: string, val: string) {
    predicate Empty() {
      hash == EMPTY
    }
  }

  const EMPTY_ENTRY := Entry(EMPTY, 0, "", "")

  type Hash = string -> nat

  /** All that is asked of the hash function: it never yields the mark of an empty slot. */
  ghost predicate Lawful(hash: Hash) {
    forall k :: hash(k) != EMPTY
  }

  /** FNV-1a over the bytes of the key, one at a time. */
  function Mix(key: string, h: bv32): bv32 {
    if key == "" then h else Mix(key[1..], (h ^ ((key[0] as int % 256) as bv32)) * 16777619)
  }

  /** `hash`: steps down from the mark of an empty slot. */
  function HashOf(key: string): (h: nat)
    ensures h < EMPTY
  {
    var h := Mix(key, 2166136261) as nat;
    if h == EMPTY then h - 1 else h
  }

  /** A value published for FNV-1a, that of "a". */
  lemma MixKnown()
    ensures Mix("a", 2166136261) == 0xe40c292c
  {
    assert "a"[1..] == "";
  }

  lemma HashIsLawful()
    ensures Lawful(HashOf)
  {
  }

  /** The slot after `i`, around the ring. */
  function Next(i: nat, cap: nat): nat {
    if i + 1 == cap then 0 else i + 1
  }

  function Prev(i: nat, cap: nat): int {
    if i == 0 then cap - 1 else i - 1
  }

  /** The number of steps forward from slot `a` to slot `b`. */
  function Dist(a: int, b: int, cap: int): int {
    if a <= b then b - a else b + cap - a
  }

  function Home(hash: nat, cap: nat): nat
    requires cap > 0
  {
    hash % cap
  }

  /** The entry's distance from home is the one it records. */
  ghost predicate Placed(s: seq<Entry>, hash: Hash, i: int)
    requires 0 <= i < |s|
  {
    !s[i].Empty() ==>
      s[i].hash == hash(s[i].key) && s[i].dib == Dist(Home(s[i].hash, |s|), i, |s|)
  }

  /** An entry away from home follows one that is at most one step nearer its own. */
  ghost predicate Follows(s: seq<Entry>, i: int, dib: int)
    requires 0 <= i < |s|
  {
    dib > 0 ==> !s[Prev(i, |s|)].Empty() && dib <= s[Prev(i, |s|)].dib + 1
  }

  ghost predicate Ring(s: seq<Entry>, hash: Hash) {
    && |s| > 0
    && (forall i {:trigger Placed(s, hash, i)} :: 0 <= i < |s| ==> Placed(s, hash, i))
    && (forall i {:trigger Follows(s, i, s[i].dib)} :: 0 <= i < |s| && !s[i].Empty() ==> Follows(s, i, s[i].dib))
  }

  ghost predicate Unique(s: seq<Entry>) {
    forall i, j :: 0 <= i < j < |s| && !s[i].Empty() && !s[j].Empty() ==> s[i].key != s[j].key
  }

  ghost predicate Table(s: seq<Entry>, hash: Hash) {
    Ring(s, hash) && Unique(s)
  }

  ghost predicate HasKey(s: seq<Entry>, key: string) {
    exists i :: 0 <= i < |s| && !s[i].Empty() && s[i].key == key
  }

  ghost predicate Binds(s: seq<Entry>, m: map<string, string>, i: int)
    requires 0 <= i < |s|
  {
    !s[i].Empty() ==> s[i].key in m && m[s[i].key] == s[i].val
  }

  /** The table stands for the finite map `m`. */
  ghost predicate Stands(s: seq<Entry>, m: map<string, string>) {
    && (forall i {:trigger Binds(s, m, i)} :: 0 <= i < |s| ==> Binds(s, m, i))
    && (forall k {:trigger HasKey(s, k)} :: k in m ==> HasKey(s, k))
  }

  /** There is only one map it can stand for. */
  lemma StandsForOne(s: seq<Entry>, m: map<string, string>, n: map<string, string>)
    requires Stands(s, m) && Stands(s, n)
    ensures m == n
  {
    forall k
      ensures k in m <==> k in n
      ensures k in m && k in n ==> m[k] == n[k]
    {
      if k in m || k in n {
        assert HasKey(s, k);
        var i :| 0 <= i < |s| && !s[i].Empty() && s[i].key == k;
        assert Binds(s, m, i) && Binds(s, n, i);
      }
    }
  }

  lemma KeyIsBound(s: seq<Entry>, m: map<string, string>, key: string)
    requires Stands(s, m)
    ensures HasKey(s, key) <==> key in m
  {
    if HasKey(s, key) {
      var i :| 0 <= i < |s| && !s[i].Empty() && s[i].key == key;
      assert Binds(s, m, i);
    }
    if key in m {
      assert HasKey(s, key);
    }
  }

  /** Going back from an entry toward its home, all slots are taken, by entries not much nearer theirs. */
  lemma {:induction false} TakenBack(s: seq<Entry>, hash: Hash, p: nat, back: nat) returns (q: nat)
    requires Ring(s, hash) && p < |s| && !s[p].Empty() && back <= s[p].dib < |s|
    ensures q < |s| && !s[q].Empty() && s[q].dib >= s[p].dib - back && Dist(q, p, |s|) == back
  {
    if back == 0 {
      q := p;
    } else {
      var r := TakenBack(s, hash, p, back - 1);
      assert Follows(s, r, s[r].dib);
      q := Prev(r, |s|);
    }
  }

  lemma DibInRange(s: seq<Entry>, hash: Hash, p: nat)
    requires Ring(s, hash) && p < |s| && !s[p].Empty()
    ensures s[p].dib == Dist(Home(s[p].hash, |s|), p, |s|) < |s| && s[p].hash == hash(s[p].key)
  {
    assert Placed(s, hash, p);
  }

  /** An empty slot lies beyond every entry's own slot, seen from the entry's home. */
  lemma HoleBeyond(s: seq<Entry>, hash: Hash, p: nat, hole: nat)
    requires Ring(s, hash) && p < |s| && !s[p].Empty() && hole < |s| && s[hole].Empty()
    ensures Dist(Home(s[p].hash, |s|), hole, |s|) > s[p].dib
  {
    DibInRange(s, hash, p);
    var home := Home(s[p].hash, |s|);
    if Dist(home, hole, |s|) <= s[p].dib {
      var q := TakenBack(s, hash, p, s[p].dib - Dist(home, hole, |s|));
    }
  }

  /** What a probe that has come `dib` steps from the key's home has seen: taken slots, none with the key. */
  ghost predicate Probed(s: seq<Entry>, home: nat, key: string, dib: nat) {
    forall j :: 0 <= j < |s| && Dist(home, j, |s|) < dib ==> !s[j].Empty() && s[j].key != key
  }

  /** The early exit: an empty slot, or one whose entry is nearer its home, and the key is nowhere. */
  lemma ExitMeansAbsent(s: seq<Entry>, hash: Hash, key: string, idx: nat, dib: nat)
    requires Ring(s, hash) && idx < |s| && dib == Dist(Home(hash(key), |s|), idx, |s|)
    requires Probed(s, Home(hash(key), |s|), key, dib)
    requires s[idx].Empty() || dib > s[idx].dib
    ensures !HasKey(s, key)
  {
    if HasKey(s, key) {
      var p :| 0 <= p < |s| && !s[p].Empty() && s[p].key == key;
      DibInRange(s, hash, p);
      var q := TakenBack(s, hash, p, s[p].dib - dib);
    }
  }

  /** A probe has not come full circle while there is a hole. */
  lemma ProbeGoesOn(s: seq<Entry>, home: nat, key: string, idx: nat, dib: nat, hole: nat)
    requires idx < |s| && home < |s| && hole < |s| && dib == Dist(home, idx, |s|) && Probed(s, home, key, dib)
    requires !s[idx].Empty() && s[idx].key != key && s[hole].Empty()
    ensures dib + 1 == Dist(home, Next(idx, |s|), |s|) && Probed(s, home, key, dib + 1)
    ensures Dist(Next(idx, |s|), hole, |s|) < Dist(idx, hole, |s|)
  {
    assert hole != idx && Dist(home, hole, |s|) >= dib;
  }

  lemma NextByMask(idx: nat, cap: nat)
    requires IsPow2(cap) && idx < cap
    ensures And(idx + 1, cap - 1) == Next(idx, cap) < cap
  {
    hide And;
    MaskIsMod(idx + 1, cap);
    if idx + 1 < cap {
      DivUnique(idx + 1, cap, 0, idx + 1);
    } else {
      DivUnique(cap, cap, 1, 0);
    }
  }

  lemma HomeByMask(h: nat, cap: nat)
    requires IsPow2(cap)
    ensures And(h, cap - 1) == Home(h, cap) < cap
  {
    MaskIsMod(h, cap);
  }

  /** The probe loop that `get` and `del` share. */
  method Probe(entries: array<Entry>, mask: nat, hash: Hash, key: string, ghost hole: nat) returns (found: bool, idx: nat)
    requires Table(entries[..], hash) && IsPow2(entries.Length) && mask == entries.Length - 1
    requires hole < entries.Length && entries[hole].Empty()
    ensures found ==> idx < entries.Length && !entries[idx].Empty() && entries[idx].key == key
    ensures !found ==> !HasKey(entries[..], key)
  {
    ghost var s := entries[..];
    var h := hash(key);
    HomeByMask(h, entries.Length);
    ghost var home := Home(h, entries.Length);
    idx := And(h, mask);
    var dib := 0;
    while true
      invariant idx < entries.Length && dib == Dist(home, idx, |s|) && Probed(s, home, key, dib)
      decreases Dist(idx, hole, |s|)
    {
      var slot := entries[idx];
      assert slot == s[idx];
      if slot.Empty() || dib > slot.dib {
        ExitMeansAbsent(s, hash, key, idx, dib);
        return false, idx;
      }
      if slot.hash == h && slot.key == key {
        return true, idx;
      }
      assert Placed(s, hash, idx);
      ProbeGoesOn(s, home, key, idx, dib, hole);
      NextByMask(idx, entries.Length);
      idx := And(idx + 1, mask);
      dib := dib + 1;
    }
  }

  /** An entry in hand, about to be offered slot `idx` of a table that does not hold its key. */
  ghost predicate Carried(s: seq<Entry>, hash: Hash, e: Entry, idx: nat, hole: nat) {
    && Table(s, hash) && idx < |s| && hole < |s| && s[hole].Empty()
    && !e.Empty() && e.hash == hash(e.key)
    && e.dib == Dist(Home(e.hash, |s|), idx, |s|) <= Dist(Home(e.hash, |s|), hole, |s|)
    && Follows(s, idx, e.dib)
  }

  /** Writing a slot whose old entry, if any, is not missed. */
  lemma PutStands(s: seq<Entry>, m: map<string, string>, e: Entry, idx: nat, m': map<string, string>)
    requires Unique(s) && Stands(s, m) && idx < |s| && !e.Empty()
    requires m' == (if s[idx].Empty() then m else m - {s[idx].key})[e.key := e.val]
    requires HasKey(s, e.key) ==> !s[idx].Empty() && s[idx].key == e.key
    ensures Unique(s[idx := e]) && Stands(s[idx := e], m')
  {
    var t := s[idx := e];
    forall i | 0 <= i < |t|
      ensures Binds(t, m', i)
    {
      assert Binds(s, m, i);
    }
    forall k | k in m'
      ensures HasKey(t, k)
    {
      if k == e.key {
        assert t[idx].key == k;
      } else {
        assert HasKey(s, k);
        var i :| 0 <= i < |s| && !s[i].Empty() && s[i].key == k;
        assert t[i] == s[i];
      }
    }
  }

  /** Into an empty slot. */
  lemma Lands(s: seq<Entry>, hash: Hash, m: map<string, string>, e: Entry, idx: nat, hole: nat)
    requires Carried(s, hash, e, idx, hole) && Stands(s, m) && e.key !in m && s[idx].Empty()
    ensures Table(s[idx := e], hash) && Stands(s[idx := e], m[e.key := e.val])
  {
    PutRing(s, hash, e, idx, hole);
    KeyIsBound(s, m, e.key);
    PutStands(s, m, e, idx, m[e.key := e.val]);
  }

  /** Putting the entry in hand into a slot that is empty or holds an entry nearer its home keeps the ring. */
  lemma PutRing(s: seq<Entry>, hash: Hash, e: Entry, idx: nat, hole: nat)
    requires Carried(s, hash, e, idx, hole) && (s[idx].Empty() || e.dib > s[idx].dib)
    ensures Ring(s[idx := e], hash)
  {
    var t := s[idx := e];
    forall i | 0 <= i < |t|
      ensures Placed(t, hash, i)
      ensures !t[i].Empty() ==> Follows(t, i, t[i].dib)
    {
      assert Placed(s, hash, i);
      if !s[i].Empty() {
        assert Follows(s, i, s[i].dib);
      }
    }
  }

  /** Swapping with an entry nearer its home: the table and the hand together stand for the same map. */
  lemma Swaps(s: seq<Entry>, hash: Hash, m: map<string, string>, e: Entry, idx: nat, hole: nat)
    requires Carried(s, hash, e, idx, hole) && Stands(s, m) && e.key !in m && !s[idx].Empty() && e.dib > s[idx].dib
    ensures Carried(s[idx := e], hash, s[idx], idx, hole)
    ensures var m' := (m - {s[idx].key})[e.key := e.val];
            Stands(s[idx := e], m') && s[idx].key !in m' && m'[s[idx].key := s[idx].val] == m[e.key := e.val]
  {
    PutRing(s, hash, e, idx, hole);
    DibInRange(s, hash, idx);
    HoleBeyond(s, hash, idx, hole);
    assert Follows(s, idx, s[idx].dib) && Binds(s, m, idx);
    KeyIsBound(s, m, e.key);
    PutStands(s, m, e, idx, (m - {s[idx].key})[e.key := e.val]);
  }

  /** Moving on to the next slot. */
  lemma MovesOn(s: seq<Entry>, hash: Hash, e: Entry, idx: nat, hole: nat)
    requires Carried(s, hash, e, idx, hole) && !s[idx].Empty() && e.dib <= s[idx].dib
    ensures Carried(s, hash, e.(dib := e.dib + 1), Next(idx, |s|), hole)
    ensures Dist(Next(idx, |s|), hole, |s|) < Dist(idx, hole, |s|)
  {
    assert idx != hole;
  }

  /** Writing a new value under a key the table holds. */
  lemma Overwrites(s: seq<Entry>, hash: Hash, m: map<string, string>, idx: nat, val: string)
    requires Table(s, hash) && Stands(s, m) && idx < |s| && !s[idx].Empty()
    ensures Table(s[idx := s[idx].(val := val)], hash)
    ensures Stands(s[idx := s[idx].(val := val)], m[s[idx].key := val])
  {
    var t := s[idx := s[idx].(val := val)];
    assert Binds(s, m, idx);
    PutStands(s, m, t[idx], idx, m[s[idx].key := val]);
    forall i | 0 <= i < |t|
      ensures Placed(t, hash, i)
      ensures !t[i].Empty() ==> Follows(t, i, t[i].dib)
    {
      assert Placed(s, hash, i);
      if !s[i].Empty() {
        assert Follows(s, i, s[i].dib);
      }
    }
  }

  /** Slot `idx` is the gap of a backward shift: what it still holds is not part of the map any more. */
  ghost predicate Shifting(s: seq<Entry>, hash: Hash, m: map<string, string>, idx: nat, hole: nat) {
    && Ring(s, hash) && idx < |s| && !s[idx].Empty() && hole < |s| && s[hole].Empty()
    && Unique(s[idx := EMPTY_ENTRY]) && Stands(s[idx := EMPTY_ENTRY], m)
  }

  lemma ShiftStarts(s: seq<Entry>, hash: Hash, m: map<string, string>, idx: nat, hole: nat)
    requires Table(s, hash) && Stands(s, m) && idx < |s| && !s[idx].Empty() && hole < |s| && s[hole].Empty()
    ensures s[idx].key in m && Shifting(s, hash, m - {s[idx].key}, idx, hole)
  {
    var t, m' := s[idx := EMPTY_ENTRY], m - {s[idx].key};
    forall i | 0 <= i < |t|
      ensures Binds(t, m', i)
    {
      assert Binds(s, m, i);
    }
    forall k | k in m'
      ensures HasKey(t, k)
    {
      assert HasKey(s, k);
      var i :| 0 <= i < |s| && !s[i].Empty() && s[i].key == k;
      assert t[i] == s[i];
    }
    assert Binds(s, m, idx);
  }

  /** Moving the next entry one step back into the gap. */
  lemma ShiftGoesOn(s: seq<Entry>, hash: Hash, m: map<string, string>, idx: nat, hole: nat)
    requires Shifting(s, hash, m, idx, hole)
    requires var nx := s[Next(idx, |s|)]; !nx.Empty() && nx.dib > 0
    ensures var next := Next(idx, |s|);
            && Shifting(s[idx := s[next].(dib := s[next].dib - 1)], hash, m, next, hole)
            && Dist(next, hole, |s|) < Dist(idx, hole, |s|)
  {
    var next := Next(idx, |s|);
    var nx := s[next];
    var t := s[idx := nx.(dib := nx.dib - 1)];
    assert Follows(s, next, nx.dib) && Follows(s, idx, s[idx].dib);
    assert idx != hole;
    ShiftKeepsRing(s, hash, idx, hole);
    ShiftKeepsMap(s, t, m, idx, next);
  }

  lemma ShiftKeepsRing(s: seq<Entry>, hash: Hash, idx: nat, hole: nat)
    requires Ring(s, hash) && idx < |s| && !s[idx].Empty() && hole < |s| && s[hole].Empty()
    requires var nx := s[Next(idx, |s|)]; !nx.Empty() && nx.dib > 0
    ensures var next := Next(idx, |s|); Ring(s[idx := s[next].(dib := s[next].dib - 1)], hash)
  {
    var next := Next(idx, |s|);
    var nx := s[next];
    var t := s[idx := nx.(dib := nx.dib - 1)];
    DibInRange(s, hash, next);
    assert Follows(s, next, nx.dib) && Follows(s, idx, s[idx].dib);
    forall i | 0 <= i < |t|
      ensures Placed(t, hash, i)
      ensures !t[i].Empty() ==> Follows(t, i, t[i].dib)
    {
      assert Placed(s, hash, i);
      if !s[i].Empty() {
        assert Follows(s, i, s[i].dib);
      }
    }
  }

  lemma ShiftKeepsMap(s: seq<Entry>, t: seq<Entry>, m: map<string, string>, idx: nat, next: nat)
    requires idx < |s| && next < |s| && idx != next && !s[next].Empty()
    requires s[next].dib > 0 && t == s[idx := s[next].(dib := s[next].dib - 1)]
    requires Unique(s[idx := EMPTY_ENTRY]) && Stands(s[idx := EMPTY_ENTRY], m)
    ensures Unique(t[next := EMPTY_ENTRY]) && Stands(t[next := EMPTY_ENTRY], m)
  {
    var a, b := s[idx := EMPTY_ENTRY], t[next := EMPTY_ENTRY];
    assert b[idx].key == a[next].key && b[idx].val == a[next].val;
    forall i | 0 <= i < |b|
      ensures Binds(b, m, i)
    {
      assert Binds(a, m, if i == idx then next else i);
    }
    forall k | k in m
      ensures HasKey(b, k)
    {
      assert HasKey(a, k);
      var i :| 0 <= i < |a| && !a[i].Empty() && a[i].key == k;
      assert b[if i == next then idx else i].key == k;
    }
    ShiftKeepsUnique(a, b, idx, next);
  }

  lemma ShiftKeepsUnique(a: seq<Entry>, b: seq<Entry>, idx: nat, next: nat)
    requires |a| == |b| && idx < |a| && next < |a| && idx != next && Unique(a)
    requires forall i :: 0 <= i < |a| && i != idx && i != next ==> b[i] == a[i]
    requires b[next].Empty() && a[idx].Empty() && !a[next].Empty() && b[idx].key == a[next].key
    ensures Unique(b)
  {
  }

  /** Emptying the gap, before an empty slot or an entry at home. */
  lemma ShiftEnds(s: seq<Entry>, hash: Hash, m: map<string, string>, idx: nat, hole: nat)
    requires Shifting(s, hash, m, idx, hole)
    requires var nx := s[Next(idx, |s|)]; nx.Empty() || nx.dib == 0
    ensures Table(s[idx := EMPTY_ENTRY], hash) && Stands(s[idx := EMPTY_ENTRY], m)
  {
    var t := s[idx := EMPTY_ENTRY];
    forall i | 0 <= i < |t|
      ensures Placed(t, hash, i)
      ensures !t[i].Empty() ==> Follows(t, i, t[i].dib)
    {
      assert Placed(s, hash, i);
      if !s[i].Empty() {
        assert Follows(s, i, s[i].dib);
      }
    }
  }

  /** A table with fewer bindings than slots has a hole. */
  lemma HasHole(s: seq<Entry>, m: map<string, string>) returns (hole: nat)
    requires Unique(s) && Stands(s, m) && |m| < |s|
    ensures hole < |s| && s[hole].Empty()
  {
    if forall i :: 0 <= i < |s| ==> !s[i].Empty() {
      KeysCount(s, |s|);
      var keys := KeysBelow(s, |s|);
      forall k | k in keys
        ensures k in m.Keys
      {
        var i :| 0 <= i < |s| && s[i].key == k;
        assert Binds(s, m, i);
      }
      Subset(keys, m.Keys);
    }
    hole :| 0 <= hole < |s| && s[hole].Empty();
  }

  lemma {:induction false} KeysCount(s: seq<Entry>, n: nat)
    requires Unique(s) && n <= |s| && forall i :: 0 <= i < |s| ==> !s[i].Empty()
    ensures |KeysBelow(s, n)| == n
  {
    if n > 0 {
      KeysCount(s, n - 1);
      OneMoreKey(s, n - 1);
      hide KeysBelow;
    }
  }

  ghost function KeysBelow(s: seq<Entry>, n: nat): set<string>
    requires n <= |s|
  {
    set i | 0 <= i < n :: s[i].key
  }

  lemma OneMoreKey(s: seq<Entry>, n: nat)
    requires Unique(s) && n < |s| && forall i :: 0 <= i < |s| ==> !s[i].Empty()
    ensures KeysBelow(s, n + 1) == KeysBelow(s, n) + {s[n].key} && s[n].key !in KeysBelow(s, n)
  {
  }

  lemma StartsCarrying(s: seq<Entry>, hash: Hash, key: string, val: string, hole: nat)
    requires Lawful(hash) && Table(s, hash) && hole < |s| && s[hole].Empty()
    ensures var home := Home(hash(key), |s|);
            Carried(s, hash, Entry(hash(key), 0, key, val), home, hole) && Probed(s, home, key, 0)
  {
  }

  lemma InHand(s: seq<Entry>, hash: Hash, e: Entry, idx: nat, hole: nat)
    requires Carried(s, hash, e, idx, hole)
    ensures idx < |s| && hole < |s| && s[hole].Empty() && Dist(idx, hole, |s|) >= 0
    ensures e.hash == hash(e.key) && e.dib == Dist(Home(e.hash, |s|), idx, |s|) && Ring(s, hash) && Table(s, hash)
  {
  }

  /** Swapping, then moving on. */
  lemma SwapsOn(s: seq<Entry>, hash: Hash, m: map<string, string>, e: Entry, idx: nat, hole: nat)
    requires Carried(s, hash, e, idx, hole) && Stands(s, m) && e.key !in m && !s[idx].Empty() && e.dib > s[idx].dib
    ensures var m' := (m - {s[idx].key})[e.key := e.val];
            && Carried(s[idx := e], hash, s[idx].(dib := s[idx].dib + 1), Next(idx, |s|), hole)
            && Stands(s[idx := e], m') && s[idx].key !in m' && m'[s[idx].key := s[idx].val] == m[e.key := e.val]
    ensures Dist(Next(idx, |s|), hole, |s|) < Dist(idx, hole, |s|)
  {
    Swaps(s, hash, m, e, idx, hole);
    MovesOn(s[idx := e], hash, s[idx], idx, hole);
  }

  /** A probe that stops short has not met the key. */
  lemma StopsShort(s: seq<Entry>, hash: Hash, m: map<string, string>, e: Entry, idx: nat, hole: nat)
    requires Carried(s, hash, e, idx, hole) && Stands(s, m) && Probed(s, Home(e.hash, |s|), e.key, e.dib)
    requires s[idx].Empty() || e.dib > s[idx].dib
    ensures e.key !in m
  {
    ExitMeansAbsent(s, hash, e.key, idx, e.dib);
    KeyIsBound(s, m, e.key);
  }

  /** A slot with another hash or key lets the probe go on. */
  lemma ProbesOn(s: seq<Entry>, hash: Hash, e: Entry, idx: nat, hole: nat)
    requires Carried(s, hash, e, idx, hole) && Probed(s, Home(e.hash, |s|), e.key, e.dib)
    requires !s[idx].Empty() && !(s[idx].hash == e.hash && s[idx].key == e.key)
    ensures Probed(s, Home(e.hash, |s|), e.key, e.dib + 1)
  {
    assert Placed(s, hash, idx);
    ProbeGoesOn(s, Home(e.hash, |s|), e.key, idx, e.dib, hole);
  }

  lemma SlotIsBound(s: seq<Entry>, m: map<string, string>, idx: nat)
    requires Stands(s, m) && idx < |s| && !s[idx].Empty()
    ensures s[idx].key in m && m[s[idx].key] == s[idx].val
  {
    assert Binds(s, m, idx);
  }

  /** The insertion loop of `grow`: the key is known to be new. */
  method PlaceNew(entries: array<Entry>, mask: nat, hash: Hash, hash0: nat, key: string, val: string,
                  ghost m: map<string, string>, ghost hole0: nat)
    requires Lawful(hash) && hash0 == hash(key) && Table(entries[..], hash) && Stands(entries[..], m) && key !in m
    requires IsPow2(entries.Length) && mask == entries.Length - 1 && hole0 < entries.Length && entries[hole0].Empty()
    modifies entries
    ensures Table(entries[..], hash) && Stands(entries[..], m[key := val])
  {
    hide Carried, Stands, Table, Ring, Probed, IsPow2, And, Home;
    HomeByMask(hash0, entries.Length);
    var idx := And(hash0, mask);
    var incoming := Entry(hash0, 0, key, val);
    ghost var rest := m;
    StartsCarrying(entries[..], hash, key, val, hole0);
    while true
      invariant Carried(entries[..], hash, incoming, idx, hole0) && Stands(entries[..], rest)
      invariant incoming.key !in rest && rest[incoming.key := incoming.val] == m[key := val]
      decreases Dist(idx, hole0, entries.Length)
    {
      ghost var s := entries[..];
      InHand(s, hash, incoming, idx, hole0);
      var slot := entries[idx];
      if slot.Empty() {
        Lands(s, hash, rest, incoming, idx, hole0);
        entries[idx] := incoming;
        assert entries[..] == s[idx := incoming];
        return;
      }
      if incoming.dib > slot.dib {
        SwapsOn(s, hash, rest, incoming, idx, hole0);
        rest := (rest - {slot.key})[incoming.key := incoming.val];
        entries[idx] := incoming;
        assert entries[..] == s[idx := incoming];
        incoming := slot;
      } else {
        MovesOn(s, hash, incoming, idx, hole0);
      }
      NextByMask(idx, entries.Length);
      idx := And(idx + 1, mask);
      incoming := incoming.(dib := incoming.dib + 1);
    }
  }

  /** The loop of `set`: overwrites the value if it meets the key, inserts otherwise. While nothing has
      been swapped, the entry in hand is the new one and its key has not been seen. */
  method SetLoop(entries: array<Entry>, mask: nat, hash: Hash, key: string, val: string,
                 ghost m: map<string, string>, ghost hole0: nat) returns (inserted: bool)
    requires Lawful(hash) && Table(entries[..], hash) && Stands(entries[..], m)
    requires IsPow2(entries.Length) && mask == entries.Length - 1 && hole0 < entries.Length && entries[hole0].Empty()
    modifies entries
    ensures Table(entries[..], hash) && Stands(entries[..], m[key := val])
    ensures inserted <==> key !in m
  {
    hide Carried, Stands, Table, Ring, Probed, IsPow2, And, Home;
    var h := hash(key);
    HomeByMask(h, entries.Length);
    var idx := And(h, mask);
    var incoming := Entry(h, 0, key, val);
    ghost var home := Home(h, entries.Length);
    ghost var rest, swapped := m, false;
    StartsCarrying(entries[..], hash, key, val, hole0);
    while true
      invariant Carried(entries[..], hash, incoming, idx, hole0) && Stands(entries[..], rest)
      invariant swapped ==> key !in m && incoming.key !in rest && rest[incoming.key := incoming.val] == m[key := val]
      invariant !swapped ==> rest == m && incoming == Entry(h, incoming.dib, key, val)
      invariant !swapped ==> Probed(entries[..], home, key, incoming.dib)
      decreases Dist(idx, hole0, entries.Length)
    {
      ghost var s := entries[..];
      InHand(s, hash, incoming, idx, hole0);
      var slot := entries[idx];
      if slot.Empty() {
        if !swapped {
          StopsShort(s, hash, m, incoming, idx, hole0);
        }
        Lands(s, hash, rest, incoming, idx, hole0);
        entries[idx] := incoming;
        assert entries[..] == s[idx := incoming];
        return true;
      }
      SlotIsBound(s, rest, idx);
      if slot.hash == h && slot.key == incoming.key {
        Overwrites(s, hash, rest, idx, incoming.val);
        entries[idx] := slot.(val := incoming.val);
        assert entries[..] == s[idx := slot.(val := incoming.val)];
        return false;
      }
      if incoming.dib > slot.dib {
        if !swapped {
          StopsShort(s, hash, m, incoming, idx, hole0);
        }
        SwapsOn(s, hash, rest, incoming, idx, hole0);
        rest, swapped := (rest - {slot.key})[incoming.key := incoming.val], true;
        entries[idx] := incoming;
        assert entries[..] == s[idx := incoming];
        incoming := slot;
      } else {
        if !swapped {
          ProbesOn(s, hash, incoming, idx, hole0);
        }
        MovesOn(s, hash, incoming, idx, hole0);
      }
      NextByMask(idx, entries.Length);
      idx := And(idx + 1, mask);
      incoming := incoming.(dib := incoming.dib + 1);
    }
  }

  /** `erase_at`: shifts the entries after the slot back until one is empty or at home. */
  method EraseAt(entries: array<Entry>, mask: nat, hash: Hash, idx0: nat, ghost m: map<string, string>, ghost hole: nat)
    requires Table(entries[..], hash) && Stands(entries[..], m)
    requires IsPow2(entries.Length) && mask == entries.Length - 1 && hole < entries.Length && entries[hole].Empty()
    requires idx0 < entries.Length && !entries[idx0].Empty()
    modifies entries
    ensures Table(entries[..], hash) && Stands(entries[..], m - {old(entries[idx0].key)})
  {
    var idx := idx0;
    ghost var m' := m - {entries[idx0].key};
    ShiftStarts(entries[..], hash, m, idx0, hole);
    while true
      invariant Shifting(entries[..], hash, m', idx, hole)
      decreases Dist(idx, hole, entries.Length)
    {
      ghost var s := entries[..];
      NextByMask(idx, entries.Length);
      var next := And(idx + 1, mask);
      var nx := entries[next];
      assert nx == s[next];
      if nx.Empty() || nx.dib == 0 {
        ShiftEnds(s, hash, m', idx, hole);
        entries[idx] := EMPTY_ENTRY;
        assert entries[..] == s[idx := EMPTY_ENTRY];
        return;
      }
      ShiftGoesOn(s, hash, m', idx, hole);
      entries[idx] := nx.(dib := nx.dib - 1);
      assert entries[..] == s[idx := nx.(dib := nx.dib - 1)];
      idx := next;
    }
  }

  lemma AllEmpty(s: seq<Entry>, hash: Hash)
    requires |s| > 0 && forall i :: 0 <= i < |s| ==> s[i].Empty()
    ensures Table(s, hash) && Stands(s, map[])
  {
  }

  lemma NothingStands()
    ensures Stands([], map[])
  {
  }

  /** The part of the old table that `grow` has carried over. */
  lemma CarriesOver(s: seq<Entry>, hash: Hash, i: nat, m: map<string, string>)
    requires Table(s, hash) && i < |s| && Stands(s[..i], m)
    ensures s[i].Empty() ==> Stands(s[..i + 1], m)
    ensures !s[i].Empty() ==> s[i].hash == hash(s[i].key) && s[i].key !in m && Stands(s[..i + 1], m[s[i].key := s[i].val])
  {
    assert Placed(s, hash, i);
    var a, b := s[..i], s[..i + 1];
    KeyIsBound(a, m, s[i].key);
    var m' := if s[i].Empty() then m else m[s[i].key := s[i].val];
    forall j | 0 <= j < |b|
      ensures Binds(b, m', j)
    {
      if j < i {
        assert a[j] == b[j] && Binds(a, m, j);
      }
    }
    forall k | k in m'
      ensures HasKey(b, k)
    {
      if k in m {
        assert HasKey(a, k);
        var j :| 0 <= j < |a| && !a[j].Empty() && a[j].key == k;
        assert b[j] == a[j];
      } else {
        assert b[i].key == k;
      }
    }
  }

  class RobinHoodMap {
    const hash: Hash
    var entries: array<Entry>
    var size: nat
    var capacity: nat
    var mask: nat
    ghost var contents: map<string, string>

    /** The ring, the map it stands for, and a load of at most three quarters. */
    ghost predicate Valid()
      reads this, entries
    {
      && Lawful(hash) && IsPow2(capacity) && capacity == entries.Length && mask == capacity - 1
      && Table(entries[..], hash) && Stands(entries[..], contents)
      && size == |contents| && 4 * size <= 3 * capacity
    }

    constructor (hash: Hash, initial: nat)
      requires Lawful(hash) && initial < Smearing.SIZE && IsPow2(Smearing.NextPow2(initial))
      ensures Valid() && contents == map[] && fresh(entries)
      ensures this.hash == hash && capacity >= initial && (capacity == 1 || capacity / 2 < initial)
    {
      hide Smearing.NextPow2, Smearing.Two;
      this.hash := hash;
      var cap := Smearing.NextPow2(initial);
      capacity, mask, size, contents := cap, cap - 1, 0, map[];
      entries := new Entry[cap](_ => EMPTY_ENTRY);
      new;
      Smearing.NextPow2Rounds(initial);
      AllEmpty(entries[..], hash);
    }

    /** Doubles the capacity and keeps every binding. */
    method Grow()
      requires Valid()
      modifies this
      ensures Valid() && fresh(entries)
      ensures contents == old(contents) && capacity == 2 * old(capacity) && size == old(size)
    {
      hide Ring, Unique, Stands, And;
      var oldCap, olds := capacity, entries;
      ghost var all, was := contents, entries[..];
      capacity := 2 * oldCap;
      mask := capacity - 1;
      entries := new Entry[capacity](_ => EMPTY_ENTRY);
      size, contents := 0, map[];
      assert IsPow2(capacity);
      hide IsPow2, Table;
      AllEmpty(entries[..], hash);
      assert was[..0] == [];
      NothingStands();
      for i := 0 to oldCap
        invariant IsPow2(capacity) && capacity == entries.Length == 2 * oldCap && mask == capacity - 1
        invariant Table(entries[..], hash) && Stands(entries[..], contents) && Stands(was[..i], contents)
        invariant size == |contents| <= i && fresh(entries) && olds[..] == was
      {
        CarriesOver(was, hash, i, contents);
        var e := olds[i];
        if !e.Empty() {
          ghost var hole := HasHole(entries[..], contents);
          PlaceNew(entries, mask, hash, e.hash, e.key, e.val, contents, hole);
          contents := contents[e.key := e.val];
          size := size + 1;
        }
      }
      assert was[..oldCap] == was;
      StandsForOne(was, contents, all);
    }

    /** Inserts or overwrites; says which. */
    method Set(key: string, val: string) returns (inserted: bool)
      requires Valid()
      modifies this, entries
      ensures Valid() && (entries == old(entries) || fresh(entries))
      ensures contents == old(contents)[key := val] && (inserted <==> key !in old(contents))
      ensures capacity == if 4 * (old(|contents|) + 1) > 3 * old(capacity) then 2 * old(capacity) else old(capacity)
    {
      if 4 * (size + 1) > 3 * capacity {
        Grow();
      }
      ghost var hole := HasHole(entries[..], contents);
      inserted := SetLoop(entries, mask, hash, key, val, contents, hole);
      contents := contents[key := val];
      if inserted {
        size := size + 1;
      }
    }

    method Get(key: string) returns (r: Option<string>)
      requires Valid()
      ensures r == if key in contents then Some(contents[key]) else None
    {
      ghost var hole := HasHole(entries[..], contents);
      var found, idx := Probe(entries, mask, hash, key, hole);
      KeyIsBound(entries[..], contents, key);
      if !found {
        return None;
      }
      SlotIsBound(entries[..], contents, idx);
      return Some(entries[idx].val);
    }

    method Del(key: string) returns (removed: bool)
      requires Valid()
      modifies this, entries
      ensures Valid() && entries == old(entries)
      ensures contents == old(contents) - {key} && (removed <==> key in old(contents))
    {
      ghost var hole := HasHole(entries[..], contents);
      var found, idx := Probe(entries, mask, hash, key, hole);
      KeyIsBound(entries[..], contents, key);
      if !found {
        return false;
      }
      SlotIsBound(entries[..], contents, idx);
      EraseAt(entries, mask, hash, idx, contents, hole);
      contents := contents - {key};
      size := size - 1;
      return true;
    }
  }
}
