/** One poll of the panel (`src/runtime/supervisor.rs:216-382`, `src/runtime/supervisor.rs:479-505`):
    rows in, published tables, ledgers and listeners out. */
module Supervisor {
  import opened Bytes
  import opened Crypto
  import opened Maps
  import opened Policy
  import opened Traffic
  import opened Devices
  import opened RateLimit
  import opened Ledgers
  import opened Listeners
  import opened Panel
  import opened Tables

  datatype SyncError = PanelUnavailable | TooManyUsers

  class BackendRuntime {
    const prim: Primitives
    const config: Config
    const traffic: TrafficLedger
    const conns: ConnLedger
    const speeds: SpeedLedger
    var listeners: Runtime
    var tables: UserTables

    ghost predicate Valid()
      reads this, traffic, speeds, speeds.handedOut
    {
      traffic.Valid() && speeds.Valid() && listeners.Valid()
    }

    constructor (prim: Primitives, config: Config)
      ensures Valid() && fresh(traffic) && fresh(conns) && fresh(speeds)
      ensures listeners == Runtime(map[], 0) && tables.Closed()
    {
      this.prim, this.config := prim, config;
      traffic := new TrafficLedger();
      conns := new ConnLedger();
      speeds := new SpeedLedger();
      listeners := Runtime(map[], 0);
      tables := UserTables(map[], map[], map[], map[], map[]);
    }

    ghost function Held(): Books
      requires speeds.Valid()
      reads traffic, conns, speeds, speeds.handedOut
    {
      Books(traffic.counters, traffic.checkpoints, conns.sets, speeds.limiters, speeds.Buckets())
    }

    /** The row's objects in the three ledgers, the bucket at the row's rate. */
    method EnsureLedgers(user: PanelUser, now: real)
      returns (counters: UserCounters, ips: UserIpSet, limiter: RateLimiter)
      requires traffic.Valid() && speeds.Valid()
      modifies traffic, conns, speeds, speeds.handedOut
      ensures traffic.Valid() && speeds.Valid()
      ensures fresh(speeds.handedOut - old(speeds.handedOut))
      ensures Credited(old(Held()), Held(), user, now)
      ensures counters == Held().counters[user.UserId()]
      ensures ips == Held().ipSets[user.UserId()]
      ensures limiter == Held().limiters[user.UserId()]
    {
      hide Tuned, RateLimiter.State, UserCounters.Snapshot, UserIpSet.State, TrafficLedger.Valid, SpeedLedger.Valid,
           SpeedLedger.Buckets, PanelUser.UserPolicyOf, Ensured, Credited;
      ghost var before := Held();
      var uid := user.UserId();
      counters := traffic.EnsureUser(uid);
      ips := conns.EnsureUser(uid);
      assert speeds.Valid() && speeds.Buckets() == before.buckets && speeds.limiters == before.limiters;
      limiter := speeds.EnsureUser(uid, user.UserPolicyOf().speedLimitBps, now);
      IsCredited(before, Held(), user, now, counters, ips, limiter);
    }

    method AddUser(t: UserTables, user: PanelUser, now: real) returns (t': UserTables)
      requires traffic.Valid() && speeds.Valid()
      modifies traffic, conns, speeds, speeds.handedOut
      ensures traffic.Valid() && speeds.Valid()
      ensures fresh(speeds.handedOut - old(speeds.handedOut))
      ensures Credited(old(Held()), Held(), user, now)
      ensures t' == WithRow(prim, t, Held(), user)
    {
      hide Tuned, PanelUser.UserPolicyOf, UserPolicy.NeedsConnectionPolicy, TrafficLedger.Valid, SpeedLedger.Valid,
           SpeedLedger.Buckets;
      var uid := user.UserId();
      var policy := user.UserPolicyOf();
      var counters, ips, limiter := EnsureLedgers(user, now);
      t' := t.(countersByUser := t.countersByUser[uid := counters],
               connsByUser := t.connsByUser[uid := ips],
               speedsByUser := t.speedsByUser[uid := limiter]);
      if policy.NeedsConnectionPolicy() {
        t' := t'.(policies := t'.policies[uid := policy]);
      }
      if user.isMultiUser == 0 {
        t' := t'.(authUsers := t'.authUsers[uid := prim.md5(user.password)]);
      }
    }

    method BuildTables(users: seq<PanelUser>, clock: nat -> real) returns (t: UserTables)
      requires traffic.Valid() && speeds.Valid()
      modifies traffic, conns, speeds, speeds.handedOut
      ensures traffic.Valid() && speeds.Valid()
      ensures TablesFor(prim, t, Held(), users) && Grown(old(Held()), Held(), users, clock)
    {
      hide TablesFor, Grown, Credited, WithRow, TrafficLedger.Valid, SpeedLedger.Valid, Held;
      t := UserTables(map[], map[], map[], map[], map[]);
      NothingGrows(prim, Held(), clock);
      assert users[..0] == [];
      for i := 0 to |users|
        invariant traffic.Valid() && speeds.Valid()
        invariant fresh(speeds.handedOut - old(speeds.handedOut))
        invariant TablesFor(prim, t, Held(), users[..i]) && Grown(old(Held()), Held(), users[..i], clock)
      {
        ghost var before, mid := t, Held();
        t := AddUser(t, users[i], clock(i));
        GrownByRow(old(Held()), mid, Held(), users, i, clock);
        TablesByRow(prim, before, mid, Held(), users, i, clock(i));
      }
      assert users[..|users|] == users;
    }

    method MergeCarrierUsers(rows: seq<PanelUser>) returns (merged: seq<PanelUser>)
      ensures Lists(merged, ByPort(rows))
    {
      var byPort: map<u16, PanelUser> := map[];
      for i := 0 to |rows|
        invariant byPort == ByPort(rows[..i])
      {
        assert rows[..i + 1][..i] == rows[..i];
        if rows[i].port !in byPort {
          byPort := byPort[rows[i].port := rows[i]];
        }
      }
      assert rows[..|rows|] == rows;
      merged := [];
      var todo := byPort.Keys;
      ByPortKeysMatch(rows);
      while todo != {}
        invariant todo <= byPort.Keys
        invariant forall i, j :: 0 <= i < j < |merged| ==> merged[i].port != merged[j].port
        invariant forall u :: u in merged ==> u.port in byPort && u.port !in todo && byPort[u.port] == u
        invariant forall port :: port in byPort && port !in todo ==> byPort[port] in merged
        decreases |todo|
      {
        var port :| port in todo;
        todo := todo - {port};
        merged := merged + [byPort[port]];
      }
    }

    method EnsureActiveUser(user: PanelUser, profile: Profile)
      modifies this`listeners
      ensures listeners == EnsureActive(old(listeners), WishOf(user, profile))
    {
      var fingerprint := Fingerprint(user.port, user.password, profile, user.isMultiUser);
      if user.port in listeners.active && listeners.active[user.port].fingerprint == fingerprint {
        return;
      }
      var active := listeners.active - {user.port};
      listeners := Runtime(active[user.port := ActiveUser(fingerprint, user.UserId(), listeners.started)],
          listeners.started + 1);
    }

    method ReconcileListeners(rows: seq<PanelUser>)
      modifies this`listeners
      ensures listeners == Reconcile(old(listeners), Wanted(config, rows))
    {
      var livePorts: set<u16> := {};
      for i := 0 to |rows|
        invariant listeners == EnsureAll(old(listeners), Wanted(config, rows[..i]))
        invariant livePorts == Ports(Wanted(config, rows[..i]))
      {
        assert rows[..i + 1][..i] == rows[..i];
        ghost var before := Wanted(config, rows[..i]);
        var profile := ProfileOf(config, rows[i]);
        if profile.Some? {
          livePorts := livePorts + {rows[i].port};
          EnsureActiveUser(rows[i], profile.value);
          ghost var w := WishOf(rows[i], profile.value);
          PortsOfAppend(before, w);
          assert (before + [w])[..|before|] == before;
        } else {
          assert before + [] == before;
        }
      }
      assert rows[..|rows|] == rows;
      listeners := listeners.(active := map port | port in listeners.active
          && port in livePorts :: listeners.active[port]);
    }

    method PublishTables(users: seq<PanelUser>, clock: nat -> real)
      requires Valid()
      modifies this`tables, traffic, conns, speeds, speeds.handedOut
      ensures Valid()
      ensures TablesFor(prim, tables, Held(), users) && Grown(old(Held()), Held(), users, clock)
    {
      hide TablesFor, Grown, TrafficLedger.Valid, SpeedLedger.Valid, Runtime.Valid, Held;
      tables := BuildTables(users, clock);
    }

    method RemoveStaleUsers(live: set<nat>)
      requires traffic.Valid() && speeds.Valid()
      modifies traffic, conns, speeds
      ensures traffic.Valid() && speeds.Valid()
      ensures Held() == old(Held()).Pruned(live)
    {
      hide TrafficLedger.Valid, SpeedLedger.Valid, SpeedLedger.Buckets, Restricted;
      traffic.RemoveStaleUsers(live);
      conns.RemoveStaleUsers(live);
      speeds.RemoveStaleUsers(live);
    }

    /** Everyone else leaves the ledgers, which then are the published tables. */
    method PruneLedgers(users: seq<PanelUser>)
      requires Valid() && TablesFor(prim, tables, Held(), users)
      modifies traffic, conns, speeds
      ensures Valid() && Published(prim, tables, Held(), users)
      ensures Held() == old(Held()).Pruned(LiveIds(users))
    {
      hide TablesFor, Published, LiveIds, TrafficLedger.Valid, SpeedLedger.Valid, Runtime.Valid, Held, Books.Pruned;
      PrunedIsPublished(prim, tables, Held(), users);
      RemoveStaleUsers(LiveIds(users));
    }

    /** `None` is a panel that did not answer. Tables go first, so that a new listener already
        sees them; the ledgers forget the users who are gone last. */
    method SyncUsers(answer: Option<seq<PanelUser>>, clock: nat -> real) returns (r: Result<(), SyncError>)
      requires Valid()
      modifies this, traffic, conns, speeds, speeds.handedOut
      ensures Valid()
      ensures answer == None ==> r == Failure(PanelUnavailable)
      ensures answer.Some? && |answer.value| > config.maxUsers ==> r == Failure(TooManyUsers)
      ensures answer.Some? && |answer.value| <= config.maxUsers ==> r.Success?
      ensures r.Failure? ==> listeners == old(listeners) && tables == old(tables) && Held() == old(Held())
      ensures r.Success? ==> Published(prim, tables, Held(), answer.value)
      ensures r.Success? ==> Polled(old(Held()), Held(), answer.value, clock)
      ensures r.Success? ==>
        exists rows :: ListenerRows(answer.value, rows) && listeners == Reconcile(old(listeners), Wanted(config, rows))
    {
      if answer == None {
        return Failure(PanelUnavailable);
      }
      hide TablesFor, Grown, Published, Polled, LiveIds, TrafficLedger.Valid, SpeedLedger.Valid, Runtime.Valid,
           ListenerRows, Reconcile, Wanted, Held, Books.Pruned;
      var users := answer.value;
      if |users| > config.maxUsers {
        return Failure(TooManyUsers);
      }
      ApplyRows(users, clock);
      return Success(());
    }

    method ApplyRows(users: seq<PanelUser>, clock: nat -> real)
      requires Valid()
      modifies this, traffic, conns, speeds, speeds.handedOut
      ensures Valid()
      ensures Published(prim, tables, Held(), users) && Polled(old(Held()), Held(), users, clock)
      ensures exists rows ::
        ListenerRows(users, rows) && listeners == Reconcile(old(listeners), Wanted(config, rows))
    {
      hide TablesFor, Grown, Published, Polled, LiveIds, TrafficLedger.Valid, SpeedLedger.Valid, Runtime.Valid,
           ListenerRows, Reconcile, Wanted, Held, Books.Pruned;
      PublishTables(users, clock);
      ghost var grown := Held();
      ChooseListeners(users);
      PruneLedgers(users);
      GrownThenPruned(old(Held()), grown, users, clock);
    }

    method ChooseListeners(users: seq<PanelUser>)
      requires listeners.Valid()
      modifies this`listeners
      ensures listeners.Valid()
      ensures exists rows :: ListenerRows(users, rows) && listeners == Reconcile(old(listeners), Wanted(config, rows))
    {
      var carriers := Carriers(users);
      var rows := users;
      if carriers != [] {
        rows := MergeCarrierUsers(carriers);
      }
      ReconcileExact(listeners, Wanted(config, rows));
      assert ListenerRows(users, rows);
      hide Reconcile, ListenerRows, Wanted;
      ReconcileListeners(rows);
    }
  }
}
