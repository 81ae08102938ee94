/** A bounded map with idle expiry (`src/runtime/state.rs`): no order log, the least recently
    seen entry is found when it is needed. Instants are counted in clock ticks. */
module TtlMap {
  import opened Bytes

  datatype Entry<+V> = Entry(value: V, lastSeen: nat)

  /** What the callers do; `Retain` keeps the entries a predicate wants. */
  datatype Op<!K, !V> =
    | Touch(key: K)
    | Insert(key: K, value: V)
    | TouchOrInsert(key: K, value: V)
    | Expire
    | Retain(keep: (K, V) -> bool)

  datatype Limits = Limits(ttl: nat, capacity: nat) {
    predicate Valid() { capacity >= 1 }
  }

  // ---- specification on map values ----

  /** `duration_since` is zero for instants in the future. */
  predicate Idle(l: Limits, now: nat, lastSeen: nat) {
    (if now >= lastSeen then now - lastSeen else 0) >= l.ttl
  }

  function Unexpired<K, V>(l: Limits, m: map<K, Entry<V>>, now: nat): map<K, Entry<V>> {
    map k | k in m && !Idle(l, now, m[k].lastSeen) :: m[k]
  }

  ghost predicate IsOldest<K, V>(m: map<K, Entry<V>>, key: K) {
    key in m && forall k :: k in m ==> m[key].lastSeen <= m[k].lastSeen
  }

  /** Any of the least recently seen entries is gone. */
  ghost predicate OldestRemoved<K, V>(m: map<K, Entry<V>>, m': map<K, Entry<V>>) {
    if m == map[] then m' == m
    else exists victim :: victim in m && IsOldest(m, victim) && m' == m - {victim}
  }

  ghost predicate Inserted<K, V>(l: Limits, m: map<K, Entry<V>>, key: K, value: V, now: nat, m': map<K, Entry<V>>) {
    var live := Unexpired(l, m, now);
    if key !in live && |live| >= l.capacity
    then exists victim :: victim in live && IsOldest(live, victim) && m' == (live - {victim})[key := Entry(value, now)]
    else m' == live[key := Entry(value, now)]
  }

  function Refreshed<K, V>(m: map<K, Entry<V>>, key: K, now: nat): map<K, Entry<V>>
    requires key in m
  {
    m[key := Entry(m[key].value, now)]
  }

  ghost predicate Step<K, V>(l: Limits, m: map<K, Entry<V>>, op: Op<K, V>, now: nat, m': map<K, Entry<V>>) {
    match op
    case Touch(key) => m' == if key in m then Refreshed(m, key, now) else m
    case Insert(key, value) => Inserted(l, m, key, value, now, m')
    case TouchOrInsert(key, value) =>
      if key in m then m' == Refreshed(m, key, now) else Inserted(l, m, key, value, now, m')
    case Expire => m' == Unexpired(l, m, now)
    case Retain(keep) => m' == map k | k in m && keep(k, m[k].value) :: m[k]
  }

  // ---- in place ----

  class BoundedTtlMap<K(==), V> {
    const ttl: nat
    const capacity: nat
    var entries: map<K, Entry<V>>

    function Bounds(): Limits { Limits(ttl, capacity) }

    constructor (ttl: nat, capacity: nat)
      ensures Bounds() == Limits(ttl, if capacity >= 1 then capacity else 1) && Bounds().Valid()
      ensures entries == map[]
    {
      this.ttl := ttl;
      this.capacity := if capacity >= 1 then capacity else 1;
      entries := map[];
    }

    method TouchOrInsertWith(key: K, value: V, now: nat)
      requires Bounds().Valid()
      modifies this
      ensures Step(Bounds(), old(entries), TouchOrInsert(key, value), now, entries)
    {
      if key in entries {
        entries := entries[key := Entry(entries[key].value, now)];
        return;
      }
      EvictExpired(now);
      if |entries| >= capacity {
        EvictOldest();
      }
      entries := entries[key := Entry(value, now)];
    }

    method TouchKey(key: K, now: nat) returns (value: Option<V>)
      modifies this
      ensures Step(Bounds(), old(entries), Touch(key), now, entries)
      ensures value == if key in old(entries) then Some(old(entries)[key].value) else None
    {
      if key in entries {
        entries := entries[key := Entry(entries[key].value, now)];
        value := Some(entries[key].value);
      } else {
        value := None;
      }
    }

    method InsertKey(key: K, value: V, now: nat)
      requires Bounds().Valid()
      modifies this
      ensures Step(Bounds(), old(entries), Insert(key, value), now, entries)
    {
      EvictExpired(now);
      if key !in entries && |entries| >= capacity {
        EvictOldest();
      }
      entries := entries[key := Entry(value, now)];
    }

    method ExpireAll(now: nat)
      modifies this
      ensures Step(Bounds(), old(entries), Op<K, V>.Expire, now, entries)
    {
      EvictExpired(now);
    }

    method RetainIf(keep: (K, V) -> bool, ghost now: nat)
      modifies this
      ensures Step(Bounds(), old(entries), Retain(keep), now, entries)
    {
      entries := map k | k in entries && keep(k, entries[k].value) :: entries[k];
    }

    method EvictExpired(now: nat)
      modifies this
      ensures entries == Unexpired(Bounds(), old(entries), now)
    {
      entries := map k | k in entries && !Idle(Limits(ttl, capacity), now, entries[k].lastSeen) :: entries[k];
    }

    /** Looks at every entry for one seen no later than any other. */
    method EvictOldest()
      modifies this
      ensures OldestRemoved(old(entries), entries)
    {
      if entries == map[] {
        return;
      }
      var oldest :| oldest in entries;
      var todo := entries.Keys - {oldest};
      while todo != {}
        invariant todo <= entries.Keys && oldest in entries
        invariant forall k :: k in entries && k !in todo ==> entries[oldest].lastSeen <= entries[k].lastSeen
        decreases |todo|
      {
        var k :| k in todo;
        todo := todo - {k};
        if entries[k].lastSeen < entries[oldest].lastSeen {
          oldest := k;
        }
      }
      assert IsOldest(entries, oldest);
      entries := entries - {oldest};
    }
  }

  // ---- runs ----

  datatype Access<K> = Access(key: K, at: nat)

  datatype Event<!K, !V> = Event(op: Op<K, V>, now: nat)

  /** The entry a step refreshes or creates. */
  function Accesses<K(==), V>(m: map<K, Entry<V>>, e: Event<K, V>): seq<Access<K>> {
    match e.op
    case Touch(key) => if key in m then [Access(key, e.now)] else []
    case Insert(key, _) => [Access(key, e.now)]
    case TouchOrInsert(key, _) => [Access(key, e.now)]
    case Expire => []
    case Retain(_) => []
  }

  /** `events`, under a clock that does not run backwards, lead from the empty map to `m`, and
      `log` is every access on the way. */
  ghost predicate RunsTo<K(!new), V(!new)>(l: Limits, events: seq<Event<K, V>>, m: map<K, Entry<V>>,
                                           log: seq<Access<K>>)
    decreases |events|
  {
    if events == [] then m == map[] && log == []
    else
      var n := |events| - 1;
      exists m0: map<K, Entry<V>>, log0: seq<Access<K>> ::
        && RunsTo(l, events[..n], m0, log0)
        && (n > 0 ==> events[n - 1].now <= events[n].now)
        && Step(l, m0, events[n].op, events[n].now, m)
        && log == log0 + Accesses(m0, events[n])
  }

  /** Each entry carries the time of an access of its key; nothing is newer than the clock. */
  ghost predicate Logged<K(!new), V>(m: map<K, Entry<V>>, log: seq<Access<K>>, now: nat) {
    && (forall k :: k in m ==> Access(k, m[k].lastSeen) in log)
    && (forall a :: a in log ==> a.at <= now)
  }

  lemma StepKeepsBounds<K, V>(l: Limits, m: map<K, Entry<V>>, op: Op<K, V>, now: nat, m': map<K, Entry<V>>)
    requires l.Valid() && |m| <= l.capacity && Step(l, m, op, now, m')
    ensures |m'| <= l.capacity
  {
    var live := Unexpired(l, m, now);
    SubmapSize(live, m);
    if op.Retain? {
      SubmapSize(m', m);
    }
  }

  lemma SubmapSize<K, V>(a: map<K, V>, b: map<K, V>)
    requires a.Keys <= b.Keys
    ensures |a| <= |b|
  {
    assert b.Keys == a.Keys + (b.Keys - a.Keys);
    assert |a| == |a.Keys| && |b| == |b.Keys|;
  }

  lemma StepKeepsLogged<K(!new), V>(l: Limits, m: map<K, Entry<V>>, e: Event<K, V>, m': map<K, Entry<V>>,
                                    log: seq<Access<K>>, before: nat)
    requires Step(l, m, e.op, e.now, m') && Logged(m, log, before) && before <= e.now
    ensures Logged(m', log + Accesses(m, e), e.now)
  {
  }

  ghost function Clock<K, V>(events: seq<Event<K, V>>): nat {
    if events == [] then 0 else events[|events| - 1].now
  }

  /** Live memory never exceeds the capacity, after any run. */
  lemma {:induction false} NeverOverCapacity<K(!new), V(!new)>(l: Limits, events: seq<Event<K, V>>,
                                                               m: map<K, Entry<V>>, log: seq<Access<K>>)
    requires l.Valid() && RunsTo(l, events, m, log)
    ensures |m| <= l.capacity && Logged(m, log, Clock(events))
    decreases |events|
  {
    if events != [] {
      var n := |events| - 1;
      var m0: map<K, Entry<V>>, log0: seq<Access<K>> :|
        && RunsTo(l, events[..n], m0, log0)
        && (n > 0 ==> events[n - 1].now <= events[n].now)
        && Step(l, m0, events[n].op, events[n].now, m)
        && log == log0 + Accesses(m0, events[n]);
      NeverOverCapacity(l, events[..n], m0, log0);
      hide Step;
      StepKeepsBounds(l, m0, events[n].op, events[n].now, m);
      StepKeepsLogged(l, m0, events[n], m, log0, Clock(events[..n]));
    }
  }

  /** The other keys accessed at `t` or later. */
  ghost function OthersSince<K>(log: seq<Access<K>>, key: K, t: nat): set<K> {
    set a | a in log && a.key != key && a.at >= t :: a.key
  }

  /** One step cannot push out an entry that is fresh and that fewer than `capacity` others
      are at least as recent as. */
  lemma StepSpares<K(!new), V>(l: Limits, m: map<K, Entry<V>>, e: Event<K, V>, m': map<K, Entry<V>>,
                               log: seq<Access<K>>, before: nat, key: K, t: nat)
    requires l.Valid() && Step(l, m, e.op, e.now, m') && !e.op.Retain?
    requires Logged(m, log, before) && before <= e.now
    requires key in m && m[key].lastSeen >= t && e.now < t + l.ttl
    requires |OthersSince(log + Accesses(m, e), key, t)| < l.capacity
    ensures key in m' && m'[key].lastSeen >= t
  {
    if e.op.Insert? || e.op.TouchOrInsert? {
      var live := Unexpired(l, m, e.now);
      assert key in live;
      var others := OthersSince(log + Accesses(m, e), key, t);
      assert |live.Keys| == |live|;
      if key !in m' {
        assert e.op.key !in live && |live| >= l.capacity && e.op.key != key;
        assert IsOldest(live, key);
        forall k | k in live && k != key ensures k in others {
          assert Access(k, m[k].lastSeen) in log + Accesses(m, e);
        }
        assert Access(e.op.key, e.now) in log + Accesses(m, e);
        assert e.op.key in others;
        SubsetSize((live.Keys - {key}) + {e.op.key}, others);
      }
    }
  }

  lemma AccessedIsThere<K(!new), V>(l: Limits, m: map<K, Entry<V>>, e: Event<K, V>, m': map<K, Entry<V>>, key: K,
                                    t: nat)
    requires Step(l, m, e.op, e.now, m') && Access(key, t) in Accesses(m, e)
    ensures key in m' && m'[key].lastSeen == t
  {
  }

  lemma SubsetSize<K>(a: set<K>, b: set<K>)
    requires a <= b
    ensures |a| <= |b|
  {
    assert b == a + (b - a);
  }

  lemma OthersGrow<K>(log: seq<Access<K>>, more: seq<Access<K>>, key: K, t: nat)
    ensures |OthersSince(log, key, t)| <= |OthersSince(log + more, key, t)|
  {
    SubsetSize(OthersSince(log, key, t), OthersSince(log + more, key, t));
  }

  /** Least-recently-seen eviction: a key accessed at `t` is still there, with that time or a
      later one, as long as its TTL has not run out and fewer than `capacity` distinct other
      keys were accessed at `t` or later. */
  lemma {:induction false} RecentlyUsedSurvives<K(!new), V(!new)>(l: Limits, events: seq<Event<K, V>>,
                                                                  m: map<K, Entry<V>>,
                                                              log: seq<Access<K>>, key: K, t: nat)
    requires l.Valid() && RunsTo(l, events, m, log)
    requires forall i :: 0 <= i < |events| ==> !events[i].op.Retain?
    requires Access(key, t) in log && Clock(events) < t + l.ttl
    requires |OthersSince(log, key, t)| < l.capacity
    ensures key in m && m[key].lastSeen >= t
    decreases |events|
  {
    if events != [] {
      var n := |events| - 1;
      var e := events[n];
      var m0: map<K, Entry<V>>, log0: seq<Access<K>> :|
        && RunsTo(l, events[..n], m0, log0)
        && (n > 0 ==> events[n - 1].now <= e.now)
        && Step(l, m0, e.op, e.now, m)
        && log == log0 + Accesses(m0, e);
      hide RunsTo, Step, Accesses, OthersSince, Logged;
      NeverOverCapacity(l, events[..n], m0, log0);
      if Access(key, t) in log0 {
        OthersGrow(log0, Accesses(m0, e), key, t);
        RecentlyUsedSurvives(l, events[..n], m0, log0, key, t);
        StepSpares(l, m0, e, m, log0, Clock(events[..n]), key, t);
      } else {
        AccessedIsThere(l, m0, e, m, key, t);
      }
    }
  }

  /** And nothing idle for the TTL survives an expiry or an insertion. */
  lemma IdleIsGone<K, V>(l: Limits, m: map<K, Entry<V>>, op: Op<K, V>, now: nat, m': map<K, Entry<V>>, key: K)
    requires l.ttl > 0 && Step(l, m, op, now, m') && (op.Expire? || op.Insert?)
    requires key in m'
    ensures m'[key].lastSeen > now || now - m'[key].lastSeen < l.ttl
  {
  }

  // ---- each operation, key by key ----

  /** A present key is seen now and keeps its value; no other entry changes. */
  lemma TouchIsExact<K, V>(l: Limits, m: map<K, Entry<V>>, key: K, now: nat, m': map<K, Entry<V>>)
    ensures Step(l, m, Touch(key), now, m')
       <==> && m'.Keys == m.Keys
            && forall k :: k in m ==> m'[k] == Entry(m[k].value, if k == key then now else m[k].lastSeen)
  {
    if m'.Keys == m.Keys && forall k :: k in m ==> m'[k] == Entry(m[k].value, if k == key then now else m[k].lastSeen) {
      forall k | k in m ensures m'[k] == if k == key then Entry(m[k].value, now) else m[k] {
        assert m[k] == Entry(m[k].value, m[k].lastSeen);
      }
      assert key in m ==> m' == Refreshed(m, key, now);
      assert key !in m ==> m' == m;
    }
  }

  /** An insertion sets its key to the new value, seen now. Of the others, those idle for the TTL
      go; if the rest fill the map and the key is not among them, one more goes, seen no later
      than any of them; all others stay as they are. */
  lemma InsertIsExact<K, V>(l: Limits, m: map<K, Entry<V>>, key: K, value: V, now: nat, m': map<K, Entry<V>>)
    requires l.Valid() && Step(l, m, Insert(key, value), now, m')
    ensures key in m' && m'[key] == Entry(value, now)
    ensures forall k :: k in m' && k != key ==> k in m && m'[k] == m[k] && Fresh(l, m[k], now)
    ensures var rest := set k | k in m && Fresh(l, m[k], now);
      if key in rest || |rest| < l.capacity then rest <= m'.Keys
      else exists victim :: victim in rest && rest - {victim} == m'.Keys - {key}
                         && forall k :: k in rest ==> m[victim].lastSeen <= m[k].lastSeen
  {
    var live := Unexpired(l, m, now);
    assert live.Keys == set k | k in m && Fresh(l, m[k], now);
    assert |live.Keys| == |live|;
  }

  /** Seen less than the TTL ago, or in the future. */
  predicate Fresh<V>(l: Limits, e: Entry<V>, now: nat) {
    if e.lastSeen <= now then now - e.lastSeen < l.ttl else l.ttl > 0
  }

  /** A lookup that inserts: a touch for a present key, else an insertion. */
  lemma TouchOrInsertIsExact<K, V>(l: Limits, m: map<K, Entry<V>>, key: K, value: V, now: nat, m': map<K, Entry<V>>)
    ensures Step(l, m, TouchOrInsert(key, value), now, m')
       <==> if key in m then Step(l, m, Touch(key), now, m') else Step(l, m, Insert(key, value), now, m')
  {
  }

  /** An expiry keeps exactly the fresh entries, a retain exactly the wanted ones, as they are. */
  lemma SweepIsExact<K, V>(l: Limits, m: map<K, Entry<V>>, keep: (K, V) -> bool, now: nat, m': map<K, Entry<V>>)
    ensures Step(l, m, Op<K, V>.Expire, now, m')
       <==> && (forall k :: k in m' <==> k in m && Fresh(l, m[k], now))
            && forall k :: k in m' ==> m'[k] == m[k]
    ensures Step(l, m, Retain(keep), now, m')
       <==> && (forall k :: k in m' <==> k in m && keep(k, m[k].value))
            && forall k :: k in m' ==> m'[k] == m[k]
  {
  }
}
