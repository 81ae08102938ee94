/** The map of `src/runtime/state.rs` keeps no order, yet behaves like a list in which an
    access moves a key to the end, and expiry and eviction drop a prefix. */
module RecencyList {
  import opened TtlMap

  datatype Row<+K, +V> = Row(key: K, value: V, seen: nat)

  // ---- the list machine ----

  predicate HasKey<K(==), V>(rows: seq<Row<K, V>>, key: K) {
    exists i :: 0 <= i < |rows| && rows[i].key == key
  }

  function ValueOf<K(==), V>(rows: seq<Row<K, V>>, key: K): V
    requires HasKey(rows, key)
  {
    if rows[0].key == key then rows[0].value else ValueOf(rows[1..], key)
  }

  function Without<K(==), V>(rows: seq<Row<K, V>>, key: K): seq<Row<K, V>> {
    if rows == [] then []
    else (if rows[0].key == key then [] else [rows[0]]) + Without(rows[1..], key)
  }

  function DropIdle<K, V>(l: Limits, rows: seq<Row<K, V>>, now: nat): seq<Row<K, V>> {
    if rows != [] && Idle(l, now, rows[0].seen) then DropIdle(l, rows[1..], now) else rows
  }

  function Kept<K, V>(rows: seq<Row<K, V>>, keep: (K, V) -> bool): seq<Row<K, V>> {
    if rows == [] then []
    else (if keep(rows[0].key, rows[0].value) then [rows[0]] else []) + Kept(rows[1..], keep)
  }

  function MoveToEnd<K(==), V>(rows: seq<Row<K, V>>, key: K, value: V, now: nat): seq<Row<K, V>> {
    Without(rows, key) + [Row(key, value, now)]
  }

  function InsertRow<K(==), V>(l: Limits, rows: seq<Row<K, V>>, key: K, value: V, now: nat): seq<Row<K, V>> {
    var live := DropIdle(l, rows, now);
    MoveToEnd(if !HasKey(live, key) && |live| >= l.capacity && live != [] then live[1..] else live, key, value, now)
  }

  function ListStep<K(==), V>(l: Limits, rows: seq<Row<K, V>>, op: Op<K, V>, now: nat): seq<Row<K, V>> {
    match op
    case Touch(key) => if HasKey(rows, key) then MoveToEnd(rows, key, ValueOf(rows, key), now) else rows
    case Insert(key, value) => InsertRow(l, rows, key, value, now)
    case TouchOrInsert(key, value) =>
      if HasKey(rows, key) then MoveToEnd(rows, key, ValueOf(rows, key), now) else InsertRow(l, rows, key, value, now)
    case Expire => DropIdle(l, rows, now)
    case Retain(keep) => Kept(rows, keep)
  }

  // ---- representation ----

  ghost predicate Ordered<K, V>(rows: seq<Row<K, V>>) {
    forall i, j :: 0 <= i < j < |rows| ==> rows[i].key != rows[j].key && rows[i].seen <= rows[j].seen
  }

  /** `rows` lists the entries of `m`, least recently seen first. */
  ghost predicate Represents<K, V>(m: map<K, Entry<V>>, rows: seq<Row<K, V>>) {
    && Ordered(rows)
    && (forall i :: 0 <= i < |rows| ==> rows[i].key in m && m[rows[i].key] == Entry(rows[i].value, rows[i].seen))
    && (forall k :: k in m ==> HasKey(rows, k))
  }

  lemma EmptyRepresents<K, V>(m: map<K, Entry<V>>)
    ensures Represents(m, []) <==> m == map[]
  {
    assert Represents(m, []) ==> m.Keys == {};
  }

  lemma FirstOf<K, V>(m: map<K, Entry<V>>, rows: seq<Row<K, V>>)
    requires Represents(m, rows) && rows != []
    ensures rows[0].key in m && m[rows[0].key] == Entry(rows[0].value, rows[0].seen)
  {
  }

  lemma HasKeyOf<K, V>(m: map<K, Entry<V>>, rows: seq<Row<K, V>>, key: K)
    requires Represents(m, rows)
    ensures HasKey(rows, key) <==> key in m
  {
  }

  lemma TailRepresents<K, V>(m: map<K, Entry<V>>, rows: seq<Row<K, V>>)
    requires Represents(m, rows) && rows != []
    ensures Represents(m - {rows[0].key}, rows[1..])
    ensures IsOldest(m, rows[0].key)
  {
  }

  lemma ConsRepresents<K, V>(m: map<K, Entry<V>>, row: Row<K, V>, rest: seq<Row<K, V>>)
    requires row.key in m && m[row.key] == Entry(row.value, row.seen) && IsOldest(m, row.key)
    requires Represents(m - {row.key}, rest)
    ensures Represents(m, [row] + rest)
  {
    var rows := [row] + rest;
    forall k | k in m ensures HasKey(rows, k) {
      if k == row.key {
        assert rows[0].key == k;
      } else {
        assert k in m - {row.key};
        var i :| 0 <= i < |rest| && rest[i].key == k;
        assert rows[i + 1].key == k;
      }
    }
    forall i, j | 0 <= i < j < |rows| ensures rows[i].key != rows[j].key && rows[i].seen <= rows[j].seen {
      assert rows[j] == rest[j - 1];
    }
  }

  lemma AppendRepresents<K, V>(m: map<K, Entry<V>>, rows: seq<Row<K, V>>, key: K, value: V, now: nat)
    requires Represents(m, rows) && key !in m
    requires forall k :: k in m ==> m[k].lastSeen <= now
    ensures Represents(m[key := Entry(value, now)], rows + [Row(key, value, now)])
  {
    var rows' := rows + [Row(key, value, now)];
    var m' := m[key := Entry(value, now)];
    forall k | k in m' ensures HasKey(rows', k) {
      if k == key {
        assert rows'[|rows|].key == k;
      } else {
        assert HasKey(rows, k);
        var i :| 0 <= i < |rows| && rows[i].key == k;
        assert rows'[i].key == k;
      }
    }
  }

  lemma {:induction false} WithoutRepresents<K, V>(m: map<K, Entry<V>>, rows: seq<Row<K, V>>, key: K)
    requires Represents(m, rows)
    ensures Represents(m - {key}, Without(rows, key))
    decreases |rows|
  {
    hide Represents;
    if rows == [] {
      EmptyRepresents(m);
      assert m - {key} == m;
    } else {
      var row := rows[0];
      FirstOf(m, rows);
      TailRepresents(m, rows);
      WithoutRepresents(m - {row.key}, rows[1..], key);
      assert m - {row.key} - {key} == m - {key} - {row.key};
      if row.key == key {
        assert m - {key} - {key} == m - {key};
        assert Without(rows, key) == Without(rows[1..], key);
      } else {
        ConsRepresents(m - {key}, row, Without(rows[1..], key));
      }
    }
  }

  lemma {:induction false} KeptRepresents<K, V>(m: map<K, Entry<V>>, rows: seq<Row<K, V>>, keep: (K, V) -> bool)
    requires Represents(m, rows)
    ensures Represents(map k | k in m && keep(k, m[k].value) :: m[k], Kept(rows, keep))
    decreases |rows|
  {
    hide Represents;
    var kept := map k | k in m && keep(k, m[k].value) :: m[k];
    if rows == [] {
      EmptyRepresents(m);
    } else {
      var row := rows[0];
      FirstOf(m, rows);
      TailRepresents(m, rows);
      var tail := m - {row.key};
      KeptRepresents(tail, rows[1..], keep);
      assert (map k | k in tail && keep(k, tail[k].value) :: tail[k]) == kept - {row.key};
      if keep(row.key, row.value) {
        ConsRepresents(kept, row, Kept(rows[1..], keep));
      } else {
        assert kept - {row.key} == kept;
        assert Kept(rows, keep) == Kept(rows[1..], keep);
      }
    }
  }

  /** In an ordered list the idle rows are a prefix. */
  lemma {:induction false} DropIdleRepresents<K, V>(l: Limits, m: map<K, Entry<V>>, rows: seq<Row<K, V>>, now: nat)
    requires Represents(m, rows)
    ensures Represents(Unexpired(l, m, now), DropIdle(l, rows, now))
    decreases |rows|
  {
    hide Represents, Unexpired, IsOldest;
    if rows == [] {
      EmptyRepresents(m);
      NothingToExpire<K, V>(l, now);
    } else {
      FirstOf(m, rows);
      TailRepresents(m, rows);
      var oldest := rows[0].key;
      if Idle(l, now, rows[0].seen) {
        DropIdleRepresents(l, m - {oldest}, rows[1..], now);
        IdleGoes(l, m, oldest, now);
      } else {
        NothingIdle(l, m, oldest, now);
      }
    }
  }

  lemma NothingToExpire<K, V>(l: Limits, now: nat)
    ensures Unexpired<K, V>(l, map[], now) == map[]
  {
  }

  lemma IdleGoes<K, V>(l: Limits, m: map<K, Entry<V>>, key: K, now: nat)
    requires key in m && Idle(l, now, m[key].lastSeen)
    ensures Unexpired(l, m - {key}, now) == Unexpired(l, m, now)
  {
  }

  lemma {:induction false} RepresentsSize<K, V>(m: map<K, Entry<V>>, rows: seq<Row<K, V>>)
    requires Represents(m, rows)
    ensures |m| == |rows|
    decreases |rows|
  {
    hide Represents;
    if rows == [] {
      EmptyRepresents(m);
    } else {
      FirstOf(m, rows);
      TailRepresents(m, rows);
      var tail := m - {rows[0].key};
      RepresentsSize(tail, rows[1..]);
      assert m == tail[rows[0].key := m[rows[0].key]];
    }
  }

  lemma {:induction false} ValueOfRepresents<K, V>(m: map<K, Entry<V>>, rows: seq<Row<K, V>>, key: K)
    requires Represents(m, rows) && key in m
    ensures HasKey(rows, key) && ValueOf(rows, key) == m[key].value
    decreases |rows|
  {
    assert HasKey(rows, key);
    if rows[0].key != key {
      TailRepresents(m, rows);
      ValueOfRepresents(m - {rows[0].key}, rows[1..], key);
    }
  }

  // ---- ties ----

  /** `rows` with `victim` pulled to the front of the rows that are not idle. */
  function VictimFirst<K(==), V>(l: Limits, rows: seq<Row<K, V>>, now: nat, victim: Row<K, V>): seq<Row<K, V>> {
    if rows != [] && Idle(l, now, rows[0].seen) then [rows[0]] + VictimFirst(l, rows[1..], now, victim)
    else [victim] + Without(rows, victim.key)
  }

  /** When `victim` is as old as any live entry, this is only another order among equals. */
  lemma {:induction false} VictimFirstRepresents<K, V>(l: Limits, m: map<K, Entry<V>>, rows: seq<Row<K, V>>, now: nat,
                                                       victim: Row<K, V>)
    requires Represents(m, rows)
    requires victim.key in Unexpired(l, m, now) && m[victim.key] == Entry(victim.value, victim.seen)
    requires IsOldest(Unexpired(l, m, now), victim.key)
    ensures Represents(m, VictimFirst(l, rows, now, victim))
    decreases |rows|
  {
    HasKeyOf(m, rows, victim.key);
    hide Represents, Without;
    FirstOf(m, rows);
    TailRepresents(m, rows);
    var first := rows[0];
    if Idle(l, now, first.seen) {
      var tail := m - {first.key};
      assert Unexpired(l, tail, now) == Unexpired(l, m, now);
      VictimFirstRepresents(l, tail, rows[1..], now, victim);
      ConsRepresents(m, first, VictimFirst(l, rows[1..], now, victim));
    } else {
      NothingIdle(l, m, first.key, now);
      WithoutRepresents(m, rows, victim.key);
      ConsRepresents(m, victim, Without(rows, victim.key));
    }
  }

  lemma NothingIdle<K, V>(l: Limits, m: map<K, Entry<V>>, oldest: K, now: nat)
    requires IsOldest(m, oldest) && !Idle(l, now, m[oldest].lastSeen)
    ensures Unexpired(l, m, now) == m
  {
  }

  lemma {:induction false} VictimIsNextOut<K, V>(l: Limits, rows: seq<Row<K, V>>, now: nat, victim: Row<K, V>)
    requires !Idle(l, now, victim.seen)
    ensures DropIdle(l, VictimFirst(l, rows, now, victim), now)
             == [victim] + Without(DropIdle(l, rows, now), victim.key)
    decreases |rows|
  {
    hide Without;
    if rows != [] && Idle(l, now, rows[0].seen) {
      var rest := VictimFirst(l, rows[1..], now, victim);
      VictimIsNextOut(l, rows[1..], now, victim);
      assert ([rows[0]] + rest)[1..] == rest;
    }
  }

  // ---- refinement ----

  lemma MoveToEndRepresents<K, V>(m: map<K, Entry<V>>, rows: seq<Row<K, V>>, key: K, value: V, now: nat)
    requires Represents(m, rows)
    requires forall k :: k in m ==> m[k].lastSeen <= now
    ensures Represents(m[key := Entry(value, now)], MoveToEnd(rows, key, value, now))
  {
    hide Represents, Without;
    WithoutRepresents(m, rows, key);
    AppendRepresents(m - {key}, Without(rows, key), key, value, now);
    assert (m - {key})[key := Entry(value, now)] == m[key := Entry(value, now)];
  }

  lemma EvictRefines<K, V>(l: Limits, m: map<K, Entry<V>>, now: nat, victim: K, rows: seq<Row<K, V>>)
      returns (ties: seq<Row<K, V>>)
    requires Represents(m, rows)
    requires victim in Unexpired(l, m, now) && IsOldest(Unexpired(l, m, now), victim)
    ensures Represents(m, ties) && Represents(Unexpired(l, m, now), DropIdle(l, ties, now))
    ensures DropIdle(l, ties, now) != []
    ensures Represents(Unexpired(l, m, now) - {victim}, DropIdle(l, ties, now)[1..])
  {
    hide Represents, Without, DropIdle, VictimFirst;
    var live := Unexpired(l, m, now);
    var row := Row(victim, live[victim].value, live[victim].lastSeen);
    ties := VictimFirst(l, rows, now, row);
    VictimFirstRepresents(l, m, rows, now, row);
    VictimIsNextOut(l, rows, now, row);
    DropIdleRepresents(l, m, rows, now);
    DropIdleRepresents(l, m, ties, now);
    WithoutRepresents(live, DropIdle(l, rows, now), victim);
    assert DropIdle(l, ties, now)[1..] == Without(DropIdle(l, rows, now), victim);
  }

  lemma InsertRefines<K, V>(l: Limits, m: map<K, Entry<V>>, key: K, value: V, now: nat, m': map<K, Entry<V>>,
                            rows: seq<Row<K, V>>)
      returns (ties: seq<Row<K, V>>)
    requires l.Valid() && Represents(m, rows) && Inserted(l, m, key, value, now, m')
    requires forall k :: k in m ==> m[k].lastSeen <= now
    ensures Represents(m, ties) && Represents(m', InsertRow(l, ties, key, value, now))
  {
    hide Represents, DropIdle, MoveToEnd, HasKey;
    var live := Unexpired(l, m, now);
    ties := rows;
    if key !in live && |live| >= l.capacity {
      var victim :| victim in live && IsOldest(live, victim) && m' == (live - {victim})[key := Entry(value, now)];
      ties := EvictRefines(l, m, now, victim, rows);
      MoveToEndRepresents(live - {victim}, DropIdle(l, ties, now)[1..], key, value, now);
    } else {
      DropIdleRepresents(l, m, rows, now);
      MoveToEndRepresents(live, DropIdle(l, ties, now), key, value, now);
    }
    HasKeyOf(live, DropIdle(l, ties, now), key);
    RepresentsSize(live, DropIdle(l, ties, now));
  }

  lemma TouchRefines<K, V>(m: map<K, Entry<V>>, key: K, now: nat, rows: seq<Row<K, V>>)
    requires Represents(m, rows) && key in m
    requires forall k :: k in m ==> m[k].lastSeen <= now
    ensures HasKey(rows, key)
    ensures Represents(Refreshed(m, key, now), MoveToEnd(rows, key, ValueOf(rows, key), now))
  {
    ValueOfRepresents(m, rows, key);
    MoveToEndRepresents(m, rows, key, m[key].value, now);
  }

  /** Every step of the map is the list machine's step, from some order of equally old rows. */
  lemma StepRefines<K, V>(l: Limits, m: map<K, Entry<V>>, op: Op<K, V>, now: nat, m': map<K, Entry<V>>,
                          rows: seq<Row<K, V>>)
      returns (ties: seq<Row<K, V>>)
    requires l.Valid() && Represents(m, rows) && Step(l, m, op, now, m')
    requires forall k :: k in m ==> m[k].lastSeen <= now
    ensures Represents(m, ties) && Represents(m', ListStep(l, ties, op, now))
  {
    ties := rows;
    match op
    case Touch(key) =>
      if key in m {
        TouchRefines(m, key, now, rows);
      }
    case Insert(key, value) =>
      ties := InsertRefines(l, m, key, value, now, m', rows);
    case TouchOrInsert(key, value) =>
      if key in m {
        TouchRefines(m, key, now, rows);
      } else {
        ties := InsertRefines(l, m, key, value, now, m', rows);
      }
    case Expire =>
      DropIdleRepresents(l, m, rows, now);
    case Retain(keep) =>
      KeptRepresents(m, rows, keep);
  }

  /** The same rows, with equally old ones possibly in another order. */
  ghost predicate TieReordered<K(!new), V(!new)>(a: seq<Row<K, V>>, b: seq<Row<K, V>>) {
    Ordered(a) && Ordered(b) && forall r: Row<K, V> :: r in a <==> r in b
  }

  lemma SameMapSameRows<K(!new), V(!new)>(m: map<K, Entry<V>>, a: seq<Row<K, V>>, b: seq<Row<K, V>>)
    requires Represents(m, a) && Represents(m, b)
    ensures TieReordered(a, b)
  {
  }

  /** A run of the list machine from the empty list. */
  ghost predicate ListRunsTo<K(!new), V(!new)>(l: Limits, events: seq<Event<K, V>>, rows: seq<Row<K, V>>)
    decreases |events|
  {
    if events == [] then rows == []
    else
      var n := |events| - 1;
      exists before: seq<Row<K, V>>, ties: seq<Row<K, V>> ::
        && ListRunsTo(l, events[..n], before)
        && TieReordered(before, ties)
        && rows == ListStep(l, ties, events[n].op, events[n].now)
  }

  /** Refinement: every run of the map is a run of the recency-ordered list. */
  lemma {:induction false} MapRefinesList<K(!new), V(!new)>(l: Limits, events: seq<Event<K, V>>, m: map<K, Entry<V>>,
                                                            log: seq<Access<K>>)
      returns (rows: seq<Row<K, V>>)
    requires l.Valid() && RunsTo(l, events, m, log)
    ensures ListRunsTo(l, events, rows) && Represents(m, rows)
    decreases |events|
  {
    if events == [] {
      rows := [];
    } else {
      var n := |events| - 1;
      var e := events[n];
      var m0: map<K, Entry<V>>, log0: seq<Access<K>> :|
        && RunsTo(l, events[..n], m0, log0)
        && (n > 0 ==> events[n - 1].now <= e.now)
        && Step(l, m0, e.op, e.now, m)
        && log == log0 + Accesses(m0, e);
      hide RunsTo, Step;
      NeverOverCapacity(l, events[..n], m0, log0);
      forall k | k in m0 ensures m0[k].lastSeen <= e.now {
        assert Access(k, m0[k].lastSeen) in log0;
      }
      var before := MapRefinesList(l, events[..n], m0, log0);
      var ties := StepRefines(l, m0, e.op, e.now, m, before);
      SameMapSameRows(m0, before, ties);
      rows := ListStep(l, ties, e.op, e.now);
    }
  }
}
