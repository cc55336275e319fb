/** The key-value engine: lazy and background expiry. */
module KvEngines {
  import opened Options
  import opened Widths
  import opened RobinHood
  import Bits
  import Smearing
  import opened Ttl

  /** What the engine holds: expired keys stay until something evicts them. */
  datatype Store = Store(values: map<string, string>, due: map<string, int>)

  datatype Event =
    | Set(key: string, val: string, ttl: int)
    | Get(key: string)
    | Exists(key: string)
    | Del(key: string)
    | Expire(key: string, ttl: int)
    | Persist(key: string)
    | Remaining(key: string)
    | Tick

  datatype Reply = Value(found: Option<string>) | Flag(yes: bool) | Left(ms: int) | Silence

  /** Deadlines belong to keys, and are 64 bits wide. */
  predicate Sound(st: Store) {
    st.due.Keys <= st.values.Keys && forall k :: k in st.due ==> IsSigned(st.due[k], TWO_64)
  }

  /** The test every lookup makes: a negative deadline reads as none. */
  predicate Expired(st: Store, now: int, key: string) {
    key in st.due && 0 <= st.due[key] <= now
  }

  /** Expired but not yet evicted. */
  predicate Stale(st: Store, now: int, key: string) {
    key in st.values && Expired(st, now, key)
  }

  predicate Shows(st: Store, now: int, key: string) {
    key in st.values && !Expired(st, now, key)
  }

  function Forget(st: Store, key: string): Store {
    Store(st.values - {key}, st.due - {key})
  }

  function Step(st: Store, now: int, e: Event): Store {
    match e
    case Set(key, val, ttl) =>
      Store(st.values[key := val], if ttl > 0 then st.due[key := Deadline(now, ttl)] else st.due - {key})
    case Get(key) => if Expired(st, now, key) then Forget(st, key) else st
    case Exists(key) => if Expired(st, now, key) then Forget(st, key) else st
    case Del(key) => Forget(st, key)
    case Expire(key, ttl) => if key in st.values then st.(due := st.due[key := Deadline(now, ttl)]) else st
    case Persist(key) => if key in st.due && st.due[key] >= 0 then st.(due := st.due - {key}) else st
    case Remaining(_) => st
    case Tick =>
      Store(map k | k in st.values && (k in st.due ==> st.due[k] > now) :: st.values[k],
            map k | k in st.due && st.due[k] > now :: st.due[k])
  }

  function Answer(st: Store, now: int, e: Event): Reply {
    match e
    case Set(key, _, _) => Flag(key !in st.values)
    case Get(key) => Value(if Shows(st, now, key) then Some(st.values[key]) else None)
    case Exists(key) => Flag(Shows(st, now, key))
    case Del(key) => Flag(key in st.values)
    case Expire(key, _) => Flag(key in st.values)
    case Persist(key) => Flag(key in st.due && st.due[key] >= 0)
    case Remaining(key) =>
      if key !in st.values then Left(-2)
      else if key !in st.due || st.due[key] < 0 then Left(-1)
      else Left(if st.due[key] < now then 0 else st.due[key] - now)
    case Tick => Silence
  }

  // The simple timed map: every key carries its own deadline, nothing is ever evicted, and a key whose
  // deadline has passed is not there.

  datatype Timed = Timed(val: string, deadline: Option<int>)

  predicate Alive(t: map<string, Timed>, now: int, key: string) {
    key in t && (t[key].deadline.Some? ==> t[key].deadline.value > now)
  }

  function TimedStep(t: map<string, Timed>, now: int, e: Event): map<string, Timed> {
    match e
    case Set(key, val, ttl) => t[key := Timed(val, if ttl > 0 then Some(now + ttl) else None)]
    case Del(key) => t - {key}
    case Expire(key, ttl) => if Alive(t, now, key) then t[key := t[key].(deadline := Some(now + ttl))] else t
    case Persist(key) => if Alive(t, now, key) then t[key := t[key].(deadline := None)] else t
    case _ => t
  }

  function TimedAnswer(t: map<string, Timed>, now: int, e: Event): Reply {
    match e
    case Set(key, _, _) => Flag(!Alive(t, now, key))
    case Get(key) => Value(if Alive(t, now, key) then Some(t[key].val) else None)
    case Exists(key) => Flag(Alive(t, now, key))
    case Del(key) => Flag(Alive(t, now, key))
    case Expire(key, _) => Flag(Alive(t, now, key))
    case Persist(key) => Flag(Alive(t, now, key) && t[key].deadline.Some?)
    case Remaining(key) =>
      if !Alive(t, now, key) then Left(-2)
      else if t[key].deadline.None? then Left(-1) else Left(t[key].deadline.value - now)
    case Tick => Silence
  }

  /** At `now`, the engine and the timed map are the same to whoever asks about `key`, now or later. */
  predicate Same(st: Store, t: map<string, Timed>, now: int, key: string) {
    if Alive(t, now, key) then
      && key in st.values && st.values[key] == t[key].val
      && (if key in st.due then t[key].deadline == Some(st.due[key]) else t[key].deadline == None)
    else
      key in st.values ==> Expired(st, now, key)
  }

  ghost predicate Agrees(st: Store, t: map<string, Timed>, now: int) {
    && 0 <= now && Sound(st)
    && forall k {:trigger Same(st, t, now, k)} :: Same(st, t, now, k)
  }

  /** Nothing that happens while nobody asks can be noticed. */
  lemma TimePasses(st: Store, t: map<string, Timed>, now: int, later: int)
    requires Agrees(st, t, now) && now <= later
    ensures Agrees(st, t, later)
  {
    forall k
      ensures Same(st, t, later, k)
    {
      assert Same(st, t, now, k);
    }
  }

  /** Exactly when an operation keeps the two in step: `get`, `exists`, `del`, `ttl` and the background
      eviction always; `set` unless the deadline does not fit 64 bits; `persist` unless the key is expired and
      not yet evicted; `expire` if a live key gets the deadline asked for, and a key that is or falls due one
      that has passed, but not one before the origin of the clock. */
  predicate KeepsStep(st: Store, now: int, e: Event) {
    match e
    case Set(key, _, ttl) => ttl > 0 ==> Deadline(now, ttl) == now + ttl
    case Expire(key, ttl) =>
      key in st.values ==>
        if ttl > 0 && !Stale(st, now, key) then Deadline(now, ttl) == now + ttl else 0 <= Deadline(now, ttl) <= now
    case Persist(key) => !Stale(st, now, key)
    case _ => true
  }

  lemma SameAfter(st: Store, t: map<string, Timed>, now: int, e: Event, k: string)
    requires Agrees(st, t, now) && KeepsStep(st, now, e)
    ensures Same(Step(st, now, e), TimedStep(t, now, e), now, k)
  {
    assert Same(st, t, now, k);
    assert k in st.due ==> k in st.due.Keys;
  }

  lemma SoundAfter(st: Store, now: int, e: Event)
    requires Sound(st)
    ensures Sound(Step(st, now, e))
  {
    if e.Set? || e.Expire? {
      WrappedIsSigned(now + e.ttl, TWO_64);
    }
    forall k | k in Step(st, now, e).due
      ensures k in Step(st, now, e).values && IsSigned(Step(st, now, e).due[k], TWO_64)
    {
      assert k in st.due ==> k in st.due.Keys;
    }
  }

  lemma StaysInStep(st: Store, t: map<string, Timed>, now: int, e: Event)
    requires Agrees(st, t, now)
    ensures Agrees(Step(st, now, e), TimedStep(t, now, e), now) <==> KeepsStep(st, now, e)
  {
    SoundAfter(st, now, e);
    if KeepsStep(st, now, e) {
      forall k
        ensures Same(Step(st, now, e), TimedStep(t, now, e), now, k)
      {
        SameAfter(st, t, now, e, k);
      }
    } else {
      assert Same(st, t, now, e.key);
      assert !Same(Step(st, now, e), TimedStep(t, now, e), now, e.key);
    }
  }

  /** Exactly when the answers are the same: to `get` and `exists` always; otherwise unless the key is
      expired and not yet evicted. */
  lemma AnswersAlike(st: Store, t: map<string, Timed>, now: int, e: Event)
    requires Agrees(st, t, now)
    ensures Answer(st, now, e) == TimedAnswer(t, now, e) <==>
              e.Get? || e.Exists? || e.Tick? || !Stale(st, now, e.key)
  {
    if !e.Tick? {
      assert Same(st, t, now, e.key);
      assert e.key in st.due ==> e.key in st.due.Keys;
    }
  }

  /** A lookup takes out its key if that has expired, the background eviction every key that is due, and both
      leave every other key as it is. */
  lemma OnlyTheDueGo(st: Store, now: int, e: Event, k: string)
    requires Sound(st) && (e.Get? || e.Exists? || e.Tick?)
    ensures var after, goes := Step(st, now, e), k in st.due && st.due[k] <= now && (e.Tick? || (k == e.key && 0 <= st.due[k]));
      && (k in after.values <==> k in st.values && !goes) && (k in after.values ==> after.values[k] == st.values[k])
      && (k in after.due <==> k in st.due && !goes) && (k in after.due ==> after.due[k] == st.due[k])
  {
    assert k in st.due ==> k in st.due.Keys;
  }

  /** What is answered about a key that has expired and is still stored. */
  lemma StaleAnswers(st: Store, now: int, e: Event)
    requires !e.Tick? && e.key in st.values && e.key in st.due && 0 <= st.due[e.key] <= now
    ensures Answer(st, now, e) ==
              match e
              case Get(_) => Value(None)
              case Set(_, _, _) => Flag(false)
              case Exists(_) => Flag(false)
              case Remaining(_) => Left(0)
              case _ => Flag(true)
  {
  }

  /** The timed map, told by what a later `get` finds. */
  lemma TimedMapIs(t: map<string, Timed>, now: int, e: Event, later: int, k: string)
    requires now <= later
    ensures var found, before := TimedAnswer(TimedStep(t, now, e), later, Get(k)), TimedAnswer(t, now, Get(k));
      if e.Set? && e.key == k then found == Value(if e.ttl <= 0 || later < now + e.ttl then Some(e.val) else None)
      else if e.Del? && e.key == k then found == Value(None)
      else if e.Expire? && e.key == k then found == if later < now + e.ttl then before else Value(None)
      else if e.Persist? && e.key == k then found == before
      else found == TimedAnswer(t, later, Get(k))
  {
  }

  // Whole runs

  datatype Timestamped = At(now: int, event: Event)

  predicate Lookup(e: Event) {
    e.Get? || e.Exists?
  }

  /** The clock never goes back. */
  predicate Clocked(from: int, run: seq<Timestamped>)
    decreases |run|
  {
    run == [] || (from <= run[0].now && Clocked(run[0].now, run[1..]))
  }

  /** The run keeps in step, from `st` on. */
  predicate InStep(st: Store, run: seq<Timestamped>)
    decreases |run|
  {
    run == [] || (KeepsStep(st, run[0].now, run[0].event) && InStep(Step(st, run[0].now, run[0].event), run[1..]))
  }

  /** What the lookups of a run answer. */
  function Lookups(st: Store, run: seq<Timestamped>): seq<Reply>
    decreases |run|
  {
    if run == [] then [] else
      (if Lookup(run[0].event) then [Answer(st, run[0].now, run[0].event)] else [])
      + Lookups(Step(st, run[0].now, run[0].event), run[1..])
  }

  function TimedLookups(t: map<string, Timed>, run: seq<Timestamped>): seq<Reply>
    decreases |run|
  {
    if run == [] then [] else
      (if Lookup(run[0].event) then [TimedAnswer(t, run[0].now, run[0].event)] else [])
      + TimedLookups(TimedStep(t, run[0].now, run[0].event), run[1..])
  }

  lemma {:induction false} LookupsAgree(st: Store, t: map<string, Timed>, from: int, run: seq<Timestamped>)
    requires Agrees(st, t, from) && Clocked(from, run) && InStep(st, run)
    ensures Lookups(st, run) == TimedLookups(t, run)
    decreases |run|
  {
    if run != [] {
      var At(now, e) := run[0];
      TimePasses(st, t, from, now);
      StaysInStep(st, t, now, e);
      AnswersAlike(st, t, now, e);
      LookupsAgree(Step(st, now, e), TimedStep(t, now, e), now, run[1..]);
    }
  }

  /** Sets, lookups, deletions and background evictions only, and no deadline past 64 bits. */
  predicate Plain(run: seq<Timestamped>) {
    forall i {:trigger run[i]} :: 0 <= i < |run| ==>
      var e := run[i].event;
      !e.Expire? && !e.Persist? && (e.Set? && e.ttl > 0 ==> run[i].now + e.ttl < TWO_64 / 2)
  }

  lemma {:induction false} PlainStaysInStep(st: Store, from: int, run: seq<Timestamped>)
    requires 0 <= from && Clocked(from, run) && Plain(run)
    ensures InStep(st, run)
    decreases |run|
  {
    if run != [] {
      var At(now, e) := run[0];
      if e.Set? && e.ttl > 0 {
        SignedInverts(now + e.ttl, TWO_64);
      }
      PlainStaysInStep(Step(st, now, e), now, run[1..]);
    }
  }

  /** Every interleaving of the background eviction with sets, lookups and deletions looks like the timed
      map, from the empty engine on. */
  lemma EvictionIsInvisible(run: seq<Timestamped>)
    requires Clocked(0, run) && Plain(run)
    ensures Lookups(Store(map[], map[]), run) == TimedLookups(map[], run)
  {
    PlainStaysInStep(Store(map[], map[]), 0, run);
    LookupsAgree(Store(map[], map[]), map[], 0, run);
  }

  /** `expire` on a key that is expired and not yet evicted brings it back: set at 0 to last 1, expired at 1
      for 5 more, seen at 2. With the background eviction run first, it is gone. */
  lemma ExpireRevives()
    ensures var empty := Store(map[], map[]);
      && Lookups(empty, [At(0, Set("k", "v", 1)), At(1, Expire("k", 5)), At(2, Get("k"))]) == [Value(Some("v"))]
      && Lookups(empty, [At(0, Set("k", "v", 1)), At(1, Tick), At(1, Expire("k", 5)), At(2, Get("k"))]) == [Value(None)]
  {
    var empty := Store(map[], map[]);
    var put, sweep, revive, look := At(0, Set("k", "v", 1)), At(1, Tick), At(1, Expire("k", 5)), At(2, Get("k"));
    var stale := Step(empty, 0, put.event);
    var gone := Step(stale, 1, sweep.event);
    var back := Step(stale, 1, revive.event);
    assert [put, revive, look][1..] == [revive, look] && [revive, look][1..] == [look];
    assert [put, sweep, revive, look][1..] == [sweep, revive, look] && [sweep, revive, look][1..] == [revive, look];
    assert Lookups(stale, [revive, look]) == Lookups(back, [look]) == [Value(Some("v"))];
    assert Lookups(stale, [sweep, revive, look]) == Lookups(gone, [revive, look]) == Lookups(gone, [look]) == [Value(None)];
  }

  /** `persist` on such a key brings it back for good: set at 0 to last 1, persisted at 1, seen at 2. */
  lemma PersistRevives()
    ensures var empty := Store(map[], map[]);
      && Lookups(empty, [At(0, Set("k", "v", 1)), At(1, Persist("k")), At(2, Get("k"))]) == [Value(Some("v"))]
      && TimedLookups(map[], [At(0, Set("k", "v", 1)), At(1, Persist("k")), At(2, Get("k"))]) == [Value(None)]
  {
    var empty := Store(map[], map[]);
    var put, keep, look := At(0, Set("k", "v", 1)), At(1, Persist("k")), At(2, Get("k"));
    var stale := Step(empty, 0, put.event);
    assert [put, keep, look][1..] == [keep, look] && [keep, look][1..] == [look];
    assert Lookups(stale, [keep, look]) == Lookups(Step(stale, 1, keep.event), [look]) == [Value(Some("v"))];
    var t := TimedStep(map[], 0, put.event);
    assert TimedLookups(t, [keep, look]) == TimedLookups(TimedStep(t, 1, keep.event), [look]) == [Value(None)];
  }

  /** A deadline before the origin of the clock reads as none: expired at 1 for -5, the key is still seen at 2. */
  lemma NegativeDeadlineIsNone()
    ensures var empty := Store(map[], map[]);
      && Lookups(empty, [At(0, Set("k", "v", 0)), At(1, Expire("k", -5)), At(2, Get("k"))]) == [Value(Some("v"))]
      && TimedLookups(map[], [At(0, Set("k", "v", 0)), At(1, Expire("k", -5)), At(2, Get("k"))]) == [Value(None)]
  {
    var empty := Store(map[], map[]);
    var put, late, look := At(0, Set("k", "v", 0)), At(1, Expire("k", -5)), At(2, Get("k"));
    var stored := Step(empty, 0, put.event);
    assert [put, late, look][1..] == [late, look] && [late, look][1..] == [look];
    assert Lookups(stored, [late, look]) == Lookups(Step(stored, 1, late.event), [look]) == [Value(Some("v"))];
    var t := TimedStep(map[], 0, put.event);
    assert TimedLookups(t, [late, look]) == TimedLookups(TimedStep(t, 1, late.event), [look]) == [Value(None)];
  }

  /** A deadline past 64 bits wraps to one long past: at 1 the key is to last for 2^63 - 1 more, and the
      background eviction takes it at 2. */
  lemma FarDeadlineIsPast()
    ensures var empty, far := Store(map[], map[]), 0x7FFF_FFFF_FFFF_FFFF;
      && Lookups(empty, [At(0, Set("k", "v", 0)), At(1, Expire("k", far)), At(2, Tick), At(2, Get("k"))]) == [Value(None)]
      && TimedLookups(map[], [At(0, Set("k", "v", 0)), At(1, Expire("k", far)), At(2, Tick), At(2, Get("k"))]) == [Value(Some("v"))]
  {
    var empty, far := Store(map[], map[]), 0x7FFF_FFFF_FFFF_FFFF;
    var put, late, sweep, look := At(0, Set("k", "v", 0)), At(1, Expire("k", far)), At(2, Tick), At(2, Get("k"));
    var stored := Step(empty, 0, put.event);
    var past := Step(stored, 1, late.event);
    var gone := Step(past, 2, sweep.event);
    assert [put, late, sweep, look][1..] == [late, sweep, look] && [late, sweep, look][1..] == [sweep, look];
    assert [sweep, look][1..] == [look];
    assert past.due == map["k" := -(TWO_64 / 2)];
    assert Lookups(stored, [late, sweep, look]) == Lookups(past, [sweep, look]) == Lookups(gone, [look]) == [Value(None)];
    var t := TimedStep(map[], 0, put.event);
    var t' := TimedStep(t, 1, late.event);
    assert TimedLookups(t, [late, sweep, look]) == TimedLookups(t', [sweep, look]) == TimedLookups(t', [look]) == [Value(Some("v"))];
  }

  datatype KvEntry = KvEntry(key: string, val: string, deadline: int)

  function DeadlineOf(st: Store, key: string): int {
    if key in st.due then st.due[key] else -1
  }

  /** Every key that shows, once, with its value and deadline, and nothing else. */
  ghost predicate Lists(entries: seq<KvEntry>, st: Store, now: int) {
    && (forall i {:trigger entries[i]} :: 0 <= i < |entries| ==>
          && Shows(st, now, entries[i].key)
          && entries[i] == KvEntry(entries[i].key, st.values[entries[i].key], DeadlineOf(st, entries[i].key)))
    && (forall i, j :: 0 <= i < j < |entries| ==> entries[i].key != entries[j].key)
    && (forall k :: Shows(st, now, k) ==> exists i :: 0 <= i < |entries| && entries[i].key == k)
  }

  /** A key that shows is told with its value, and with its deadline or -1. */
  lemma ListsTell(entries: seq<KvEntry>, st: Store, now: int, k: string) returns (i: nat)
    requires Lists(entries, st, now) && k in st.values && !(k in st.due && 0 <= st.due[k] <= now)
    ensures i < |entries| && entries[i] == KvEntry(k, st.values[k], if k in st.due then st.due[k] else -1)
    ensures forall j :: 0 <= j < |entries| && entries[j].key == k ==> j == i
  {
    assert Shows(st, now, k);
    i :| 0 <= i < |entries| && entries[i].key == k;
  }

  function Without(m: map<string, string>, keys: seq<string>): map<string, string> {
    map k | k in m && k !in keys :: m[k]
  }

  lemma WithoutNone(m: map<string, string>)
    ensures Without(m, []) == m
  {
  }

  lemma WithoutOneMore(m: map<string, string>, keys: seq<string>, n: nat)
    requires n < |keys|
    ensures Without(m, keys[..n + 1]) == Without(m, keys[..n]) - {keys[n]}
  {
    assert keys[..n + 1] == keys[..n] + [keys[n]];
  }

  /** What the eviction takes off the deadlines, taken off the values. */
  lemma Ticks(st: Store, now: int, keys: seq<string>, due: map<string, int>)
    requires Sound(st) && TakenInOrder(st.due, keys, due)
    requires forall k :: k in st.due ==> (k in keys <==> st.due[k] <= now)
    ensures Store(Without(st.values, keys), due) == Step(st, now, Event.Tick)
  {
    var after := Step(st, now, Event.Tick);
    forall k | k in st.values
      ensures k in keys <==> k in st.due && st.due[k] <= now
    {
    }
    assert Without(st.values, keys) == after.values;
    assert due == after.due;
  }

  lemma SixteenRounds()
    ensures 16 < Smearing.SIZE && Bits.IsPow2(Smearing.NextPow2(16))
  {
    hide Smearing.NextPow2;
    Smearing.TwoGrows(4, 32);
    Smearing.SmallRounds(16);
  }

  class KvEngine {
    const map_: RobinHoodMap
    const ttl_: TtlManager

    ghost predicate Valid()
      reads this, map_, map_.entries, ttl_
    {
      map_.Valid() && ttl_.Valid() && Sound(Store(map_.contents, ttl_.Due()))
    }

    ghost function State(): Store
      requires Valid()
      reads this, map_, map_.entries, ttl_
    {
      Store(map_.contents, ttl_.Due())
    }

    constructor (hash: Hash)
      requires Lawful(hash)
      ensures Valid() && State() == Store(map[], map[])
      ensures fresh(map_) && fresh(map_.entries) && fresh(ttl_)
    {
      hide Smearing.NextPow2, RobinHoodMap.Valid, TtlManager.Valid, TtlManager.Due;
      SixteenRounds();
      map_ := new RobinHoodMap(hash, 16);
      ttl_ := new TtlManager();
    }

    method Set(now: int, key: string, val: string, ttl: int) returns (inserted: bool)
      requires Valid()
      modifies map_, map_.entries, ttl_
      ensures Valid() && (map_.entries == old(map_.entries) || fresh(map_.entries))
      ensures State() == Step(old(State()), now, Event.Set(key, val, ttl))
      ensures Flag(inserted) == Answer(old(State()), now, Event.Set(key, val, ttl))
    {
      SoundAfter(State(), now, Event.Set(key, val, ttl));
      inserted := map_.Set(key, val);
      if ttl > 0 {
        ttl_.SetExpiry(now, key, ttl);
      } else {
        ttl_.RemoveExpiry(key);
      }
    }

    method Get(now: int, key: string) returns (r: Option<string>)
      requires Valid()
      modifies map_, map_.entries, ttl_
      ensures Valid() && map_.entries == old(map_.entries)
      ensures State() == Step(old(State()), now, Event.Get(key))
      ensures Value(r) == Answer(old(State()), now, Event.Get(key))
    {
      SoundAfter(State(), now, Event.Get(key));
      var exp := ttl_.GetExpiry(key);
      if exp >= 0 && exp <= now {
        var _ := map_.Del(key);
        ttl_.RemoveExpiry(key);
        return None;
      }
      r := map_.Get(key);
    }

    method Exists(now: int, key: string) returns (r: bool)
      requires Valid()
      modifies map_, map_.entries, ttl_
      ensures Valid() && map_.entries == old(map_.entries)
      ensures State() == Step(old(State()), now, Event.Exists(key))
      ensures Flag(r) == Answer(old(State()), now, Event.Exists(key))
    {
      var v := Get(now, key);
      r := v.Some?;
    }

    method Del(now: int, key: string) returns (removed: bool)
      requires Valid()
      modifies map_, map_.entries, ttl_
      ensures Valid() && map_.entries == old(map_.entries)
      ensures State() == Step(old(State()), now, Event.Del(key))
      ensures Flag(removed) == Answer(old(State()), now, Event.Del(key))
    {
      SoundAfter(State(), now, Event.Del(key));
      ttl_.RemoveExpiry(key);
      removed := map_.Del(key);
    }

    method Expire(now: int, key: string, ttl: int) returns (r: bool)
      requires Valid()
      modifies ttl_
      ensures Valid()
      ensures State() == Step(old(State()), now, Event.Expire(key, ttl))
      ensures Flag(r) == Answer(old(State()), now, Event.Expire(key, ttl))
    {
      SoundAfter(State(), now, Event.Expire(key, ttl));
      var v := map_.Get(key);
      if v.None? {
        return false;
      }
      ttl_.SetExpiry(now, key, ttl);
      return true;
    }

    method Persist(now: int, key: string) returns (r: bool)
      requires Valid()
      modifies ttl_
      ensures Valid()
      ensures State() == Step(old(State()), now, Event.Persist(key))
      ensures Flag(r) == Answer(old(State()), now, Event.Persist(key))
    {
      SoundAfter(State(), now, Event.Persist(key));
      var exp := ttl_.GetExpiry(key);
      if exp < 0 {
        return false;
      }
      ttl_.RemoveExpiry(key);
      return true;
    }

    method Ttl(now: int, key: string) returns (left: int)
      requires Valid()
      ensures Left(left) == Answer(State(), now, Event.Remaining(key))
    {
      var v := map_.Get(key);
      if v.None? {
        return -2;
      }
      var exp := ttl_.GetExpiry(key);
      if exp < 0 {
        return -1;
      }
      var remaining := exp - now;
      left := if remaining < 0 then 0 else remaining;
    }

    method Tick(now: int)
      requires Valid()
      modifies map_, map_.entries, ttl_
      ensures Valid() && map_.entries == old(map_.entries)
      ensures State() == Step(old(State()), now, Event.Tick)
    {
      ghost var st := State();
      SoundAfter(st, now, Event.Tick);
      hide RobinHoodMap.Valid, TtlManager.Valid, TtlManager.Due, Sound, Without, TakenInOrder, Step;
      var expired := ttl_.EvictExpired(now);
      Ticks(st, now, expired, ttl_.Due());
      DelAll(expired);
    }

    method DelAll(keys: seq<string>)
      requires map_.Valid()
      modifies map_, map_.entries
      ensures map_.Valid() && map_.entries == old(map_.entries)
      ensures map_.contents == Without(old(map_.contents), keys)
    {
      hide RobinHoodMap.Valid, Without;
      ghost var was := map_.contents;
      WithoutNone(was);
      assert keys[..0] == [];
      for i := 0 to |keys|
        invariant map_.Valid() && map_.entries == old(map_.entries)
        invariant map_.contents == Without(was, keys[..i])
      {
        WithoutOneMore(was, keys, i);
        var _ := map_.Del(keys[i]);
      }
      assert keys[..|keys|] == keys;
    }

    /** The keys that show at `now`, each once. */
    method AllEntries(now: int) returns (entries: seq<KvEntry>)
      requires Valid()
      ensures Lists(entries, State(), now)
    {
      hide Lists, Listing, Ring, Unique, RobinHood.Stands, Heap, Indexed, Deadlines, Sound;
      entries := [];
      ghost var from := [];
      ghost var slots, st := map_.entries[..], State();
      ListsNone(slots, st, now);
      for i := 0 to map_.capacity
        invariant Listing(entries, from, slots, st, now, i)
      {
        var e := map_.entries[i];
        ListsOneMore(entries, from, slots, st, now, i);
        if e.Empty() {
          continue;
        }
        var exp := ttl_.GetExpiry(e.key);
        if exp >= 0 && exp <= now {
          continue;
        }
        entries := entries + [KvEntry(e.key, e.val, exp)];
        from := from + [i];
      }
      AllListed(entries, from, map_.entries[..], State(), now);
    }
  }

  /** `entries` lists what shows in the first `n` slots, `from` the slots they come from. */
  ghost predicate Listing(entries: seq<KvEntry>, from: seq<int>, slots: seq<Entry>, st: Store, now: int, n: nat) {
    && |from| == |entries| && n <= |slots|
    && (forall i {:trigger from[i]} :: 0 <= i < |from| ==> 0 <= from[i] < n && Tells(entries[i], slots[from[i]], st, now))
    && (forall i, j :: 0 <= i < j < |from| ==> from[i] < from[j])
    && (forall k {:trigger slots[k]} :: 0 <= k < n && Showing(slots[k], st, now) ==> k in from)
  }

  /** The slot holds a key that shows. */
  predicate Showing(e: Entry, st: Store, now: int) {
    !e.Empty() && Shows(st, now, e.key)
  }

  predicate Tells(entry: KvEntry, e: Entry, st: Store, now: int) {
    Showing(e, st, now) && entry == KvEntry(e.key, st.values[e.key], DeadlineOf(st, e.key))
  }

  lemma ListsNone(slots: seq<Entry>, st: Store, now: int)
    ensures Listing([], [], slots, st, now, 0)
  {
  }

  lemma ListsOneMore(entries: seq<KvEntry>, from: seq<int>, slots: seq<Entry>, st: Store, now: int, n: nat)
    requires Listing(entries, from, slots, st, now, n) && n < |slots| && RobinHood.Stands(slots, st.values)
    ensures var e := slots[n];
      if e.Empty() || Expired(st, now, e.key) then Listing(entries, from, slots, st, now, n + 1)
      else
        && e.key in st.values && e.val == st.values[e.key]
        && Listing(entries + [KvEntry(e.key, e.val, DeadlineOf(st, e.key))], from + [n], slots, st, now, n + 1)
  {
    var e := slots[n];
    if !e.Empty() {
      SlotIsBound(slots, st.values, n);
    }
    if e.Empty() || Expired(st, now, e.key) {
      assert !Showing(e, st, now);
      hide Showing, Tells;
      assert Listing(entries, from, slots, st, now, n + 1);
    } else {
      ListsThis(entries, from, slots, st, now, n, KvEntry(e.key, e.val, DeadlineOf(st, e.key)));
    }
  }

  lemma ListsThis(entries: seq<KvEntry>, from: seq<int>, slots: seq<Entry>, st: Store, now: int, n: nat, entry: KvEntry)
    requires Listing(entries, from, slots, st, now, n) && n < |slots| && Tells(entry, slots[n], st, now)
    ensures Listing(entries + [entry], from + [n], slots, st, now, n + 1)
  {
    hide Showing, Tells;
    var from' := from + [n];
    forall k {:trigger slots[k]} | 0 <= k < n + 1 && Showing(slots[k], st, now)
      ensures k in from'
    {
      assert from'[|from|] == n;
    }
  }

  lemma AllListed(entries: seq<KvEntry>, from: seq<int>, slots: seq<Entry>, st: Store, now: int)
    requires Listing(entries, from, slots, st, now, |slots|) && Unique(slots) && Stands(slots, st.values)
    ensures Lists(entries, st, now)
  {
    forall k | Shows(st, now, k)
      ensures exists i :: 0 <= i < |entries| && entries[i].key == k
    {
      assert HasKey(slots, k);
      var s :| 0 <= s < |slots| && !slots[s].Empty() && slots[s].key == k;
      var i :| 0 <= i < |from| && from[i] == s;
      assert entries[i].key == k;
    }
    forall i | 0 <= i < |entries|
      ensures Shows(st, now, entries[i].key)
      ensures entries[i] == KvEntry(entries[i].key, st.values[entries[i].key], DeadlineOf(st, entries[i].key))
    {
      assert 0 <= from[i] < |slots|;
    }
    forall i, j | 0 <= i < j < |entries|
      ensures entries[i].key != entries[j].key
    {
      assert from[i] < from[j];
    }
  }
}
