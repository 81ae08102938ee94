/** The per-user tables and ledgers on values: what a poll's rows make of them
    (`src/runtime/supervisor.rs:226-268`, `src/runtime/supervisor.rs:310-312`). */
module Tables {
  import opened Bytes
  import opened Maps
  import opened Crypto
  import opened Policy
  import opened Traffic
  import opened Devices
  import opened RateLimit
  import opened Ledgers
  import opened Panel

  // ---- tables ----

  function LiveIds(users: seq<PanelUser>): set<nat> {
    set u | u in users :: u.UserId()
  }

  /** uid -> MD5(password) of the normal rows; a later row replaces an earlier one. */
  function AuthTable(p: Primitives, users: seq<PanelUser>): map<nat, Bytes>
    decreases |users|
  {
    if users == [] then map[]
    else
      var n := |users| - 1;
      if users[n].IsCarrier() then AuthTable(p, users[..n])
      else AuthTable(p, users[..n])[users[n].UserId() := p.md5(users[n].password)]
  }

  function PolicyTable(users: seq<PanelUser>): map<nat, UserPolicy>
    decreases |users|
  {
    if users == [] then map[]
    else
      var n := |users| - 1;
      var policy := users[n].UserPolicyOf();
      if policy.NeedsConnectionPolicy() then PolicyTable(users[..n])[users[n].UserId() := policy]
      else PolicyTable(users[..n])
  }

  function SpeedTable(users: seq<PanelUser>): map<nat, nat>
    decreases |users|
  {
    if users == [] then map[]
    else
      var n := |users| - 1;
      SpeedTable(users[..n])[users[n].UserId() := users[n].UserPolicyOf().speedLimitBps]
  }

  datatype UserTables = UserTables(
    authUsers: map<nat, Bytes>,
    countersByUser: map<nat, UserCounters>,
    connsByUser: map<nat, UserIpSet>,
    speedsByUser: map<nat, RateLimiter>,
    policies: map<nat, UserPolicy>)
  {
    /** Whoever can authenticate, or has a policy, has a counter, an IP set and a bucket. */
    ghost predicate Closed() {
      && countersByUser.Keys == connsByUser.Keys == speedsByUser.Keys
      && authUsers.Keys <= countersByUser.Keys
      && policies.Keys <= connsByUser.Keys
    }
  }

  /** What the row at `i` adds to the tables of the rows in front of it. */
  lemma TablesStep(p: Primitives, users: seq<PanelUser>, i: nat)
    requires i < |users|
    ensures LiveIds(users[..i + 1]) == LiveIds(users[..i]) + {users[i].UserId()}
    ensures SpeedTable(users[..i + 1])
             == SpeedTable(users[..i])[users[i].UserId() := users[i].UserPolicyOf().speedLimitBps]
    ensures PolicyTable(users[..i + 1]) == if users[i].UserPolicyOf().NeedsConnectionPolicy()
      then PolicyTable(users[..i])[users[i].UserId() := users[i].UserPolicyOf()] else PolicyTable(users[..i])
    ensures AuthTable(p, users[..i + 1]) == if users[i].IsCarrier()
      then AuthTable(p, users[..i]) else AuthTable(p, users[..i])[users[i].UserId() := p.md5(users[i].password)]
  {
    hide PanelUser.UserPolicyOf, UserPolicy.NeedsConnectionPolicy;
    assert users[..i + 1] == users[..i] + [users[i]];
    assert users[..i + 1][..i] == users[..i];
    LiveIdsOfAppend(users[..i], users[i]);
  }

  lemma LiveIdsOfAppend(users: seq<PanelUser>, u: PanelUser)
    ensures LiveIds(users + [u]) == LiveIds(users) + {u.UserId()}
  {
  }

  lemma {:induction false} TablesNameLiveIds(p: Primitives, users: seq<PanelUser>)
    ensures AuthTable(p, users).Keys <= LiveIds(users)
    ensures PolicyTable(users).Keys <= LiveIds(users)
    ensures SpeedTable(users).Keys == LiveIds(users)
    decreases |users|
  {
    if users != [] {
      var n := |users| - 1;
      TablesNameLiveIds(p, users[..n]);
      LiveIdsOfAppend(users[..n], users[n]);
      assert users == users[..n] + [users[n]];
      hide LiveIds;
    }
  }

  // ---- ledgers ----

  /** The three ledgers: whose object is whose, how far each user's traffic was reported, and
      what the buckets hold. */
  datatype Books = Books(
    counters: map<nat, UserCounters>,
    checkpoints: map<nat, CounterSnapshot>,
    ipSets: map<nat, UserIpSet>,
    limiters: map<nat, RateLimiter>,
    buckets: map<nat, Bucket>)
  {
    function Pruned(live: set<nat>): Books {
      Books(Restricted(counters, live), Restricted(checkpoints, live), Restricted(ipSets, live),
            Restricted(limiters, live), Restricted(buckets, live))
    }
  }

  /** Checkpoints after the rows: a user seen for the first time starts at zero. */
  function Opened(checkpoints: map<nat, CounterSnapshot>, users: seq<PanelUser>): map<nat, CounterSnapshot>
    decreases |users|
  {
    if users == [] then checkpoints
    else
      var n := |users| - 1;
      Ensured(Opened(checkpoints, users[..n]), users[n].UserId(), NO_TRAFFIC)
  }

  /** Buckets after the rows: each row brings its user's to the row's rate, row `n` at `clock(n)`. */
  function Retuned(buckets: map<nat, Bucket>, users: seq<PanelUser>, clock: nat -> real): map<nat, Bucket>
    decreases |users|
  {
    if users == [] then buckets
    else
      var n := |users| - 1;
      Tuned(Retuned(buckets, users[..n], clock), users[n].UserId(), users[n].UserPolicyOf().speedLimitBps, clock(n))
  }

  lemma {:induction false} OpenedCheckpoint(checkpoints: map<nat, CounterSnapshot>, users: seq<PanelUser>, uid: nat)
    ensures uid in Opened(checkpoints, users) <==> uid in checkpoints || uid in LiveIds(users)
    ensures uid in Opened(checkpoints, users) ==>
      Opened(checkpoints, users)[uid] == if uid in checkpoints then checkpoints[uid] else NO_TRAFFIC
    decreases |users|
  {
    if users != [] {
      var n := |users| - 1;
      OpenedCheckpoint(checkpoints, users[..n], uid);
      LiveIdsOfAppend(users[..n], users[n]);
      assert users == users[..n] + [users[n]];
      hide LiveIds;
    }
  }

  /** Every live user's bucket ends up at the rate of its last row. */
  lemma {:induction false} RetunedRate(buckets: map<nat, Bucket>, users: seq<PanelUser>, clock: nat -> real, uid: nat)
    requires uid in LiveIds(users)
    ensures uid in Retuned(buckets, users, clock) && uid in SpeedTable(users)
    ensures Retuned(buckets, users, clock)[uid].rate == SpeedTable(users)[uid] as real
    decreases |users|
  {
    var n := |users| - 1;
    LiveIdsOfAppend(users[..n], users[n]);
    assert users == users[..n] + [users[n]];
    hide LiveIds, PanelUser.UserPolicyOf, Refill;
    if uid != users[n].UserId() {
      RetunedRate(buckets, users[..n], clock, uid);
    }
  }

  /** A bucket whose rate no row changes is left alone, tokens and clock included. */
  lemma {:induction false} UnchangedRateKeepsBucket(buckets: map<nat, Bucket>, users: seq<PanelUser>,
                                                    clock: nat -> real, uid: nat)
    requires uid in buckets
    requires forall i :: 0 <= i < |users| && users[i].UserId() == uid ==>
      users[i].UserPolicyOf().speedLimitBps as real == buckets[uid].rate
    ensures uid in Retuned(buckets, users, clock) && Retuned(buckets, users, clock)[uid] == buckets[uid]
    decreases |users|
  {
    hide PanelUser.UserPolicyOf, Refill;
    if users != [] {
      UnchangedRateKeepsBucket(buckets, users[..|users| - 1], clock, uid);
    }
  }

  // ---- one row ----

  /** The row `user` gets or creates its user's objects, and nothing else changes. */
  ghost predicate Credited(before: Books, after: Books, user: PanelUser, now: real) {
    var uid := user.UserId();
    && uid in after.counters && after.counters == Ensured(before.counters, uid, after.counters[uid])
    && uid in after.ipSets && after.ipSets == Ensured(before.ipSets, uid, after.ipSets[uid])
    && uid in after.limiters && after.limiters == Ensured(before.limiters, uid, after.limiters[uid])
    && after.checkpoints == Ensured(before.checkpoints, uid, NO_TRAFFIC)
    && after.buckets == Tuned(before.buckets, uid, user.UserPolicyOf().speedLimitBps, now)
  }

  lemma IsCredited(before: Books, after: Books, user: PanelUser, now: real,
                   counters: UserCounters, ips: UserIpSet, limiter: RateLimiter)
    requires after.counters == Ensured(before.counters, user.UserId(), counters)
    requires after.ipSets == Ensured(before.ipSets, user.UserId(), ips)
    requires after.limiters == Ensured(before.limiters, user.UserId(), limiter)
    requires user.UserId() in before.counters ==> counters == before.counters[user.UserId()]
    requires user.UserId() in before.ipSets ==> ips == before.ipSets[user.UserId()]
    requires user.UserId() in before.limiters ==> limiter == before.limiters[user.UserId()]
    requires after.checkpoints == Ensured(before.checkpoints, user.UserId(), NO_TRAFFIC)
    requires after.buckets == Tuned(before.buckets, user.UserId(), user.UserPolicyOf().speedLimitBps, now)
    ensures Credited(before, after, user, now)
    ensures after.counters[user.UserId()] == counters
    ensures after.ipSets[user.UserId()] == ips
    ensures after.limiters[user.UserId()] == limiter
  {
  }

  function WithRow(p: Primitives, t: UserTables, b: Books, user: PanelUser): UserTables
    requires user.UserId() in b.counters && user.UserId() in b.ipSets && user.UserId() in b.limiters
  {
    var uid := user.UserId();
    var policy := user.UserPolicyOf();
    UserTables(
      if user.IsCarrier() then t.authUsers else t.authUsers[uid := p.md5(user.password)],
      t.countersByUser[uid := b.counters[uid]],
      t.connsByUser[uid := b.ipSets[uid]],
      t.speedsByUser[uid := b.limiters[uid]],
      if policy.NeedsConnectionPolicy() then t.policies[uid := policy] else t.policies)
  }

  // ---- all rows ----

  /** Every object is kept; the checkpoints and buckets are what the rows make of them. */
  ghost predicate Grown(before: Books, after: Books, users: seq<PanelUser>, clock: nat -> real) {
    && Kept(before.counters, after.counters)
    && Kept(before.ipSets, after.ipSets)
    && Kept(before.limiters, after.limiters)
    && after.checkpoints == Opened(before.checkpoints, users)
    && after.buckets == Retuned(before.buckets, users, clock)
  }

  /** The tables are those of `users` and name exactly their users' objects in the ledgers. */
  ghost predicate TablesFor(p: Primitives, t: UserTables, b: Books, users: seq<PanelUser>) {
    && t.authUsers == AuthTable(p, users) && t.policies == PolicyTable(users)
    && t.countersByUser.Keys == LiveIds(users) && Kept(t.countersByUser, b.counters)
    && t.connsByUser.Keys == LiveIds(users) && Kept(t.connsByUser, b.ipSets)
    && t.speedsByUser.Keys == LiveIds(users) && Kept(t.speedsByUser, b.limiters)
  }

  lemma NothingGrows(p: Primitives, b: Books, clock: nat -> real)
    ensures Grown(b, b, [], clock) && TablesFor(p, UserTables(map[], map[], map[], map[], map[]), b, [])
  {
  }

  lemma GrownByRow(before: Books, mid: Books, after: Books, users: seq<PanelUser>, i: nat, clock: nat -> real)
    requires i < |users| && Grown(before, mid, users[..i], clock) && Credited(mid, after, users[i], clock(i))
    ensures Grown(before, after, users[..i + 1], clock)
  {
    hide PanelUser.UserPolicyOf, Tuned;
    assert users[..i + 1][..i] == users[..i];
    var uid := users[i].UserId();
    KeptInsert(before.counters, mid.counters, after.counters, uid);
    KeptInsert(before.ipSets, mid.ipSets, after.ipSets, uid);
    KeptInsert(before.limiters, mid.limiters, after.limiters, uid);
    hide Kept, Ensured;
  }

  lemma TablesByRow(p: Primitives, t: UserTables, mid: Books, after: Books, users: seq<PanelUser>, i: nat,
                   now: real)
    requires i < |users| && TablesFor(p, t, mid, users[..i]) && Credited(mid, after, users[i], now)
    ensures TablesFor(p, WithRow(p, t, after, users[i]), after, users[..i + 1])
  {
    hide PanelUser.UserPolicyOf, UserPolicy.NeedsConnectionPolicy, Tuned, LiveIds, AuthTable, PolicyTable, Kept,
         Ensured;
    TablesStep(p, users, i);
    var uid := users[i].UserId();
    KeptInsert(t.countersByUser, mid.counters, after.counters, uid);
    KeptInsert(t.connsByUser, mid.ipSets, after.ipSets, uid);
    KeptInsert(t.speedsByUser, mid.limiters, after.limiters, uid);
  }

  // ---- the whole poll ----

  /** Ledgers and tables agree, name exactly the live users, and are closed. */
  ghost predicate Published(p: Primitives, t: UserTables, b: Books, users: seq<PanelUser>) {
    && t.authUsers == AuthTable(p, users) && t.policies == PolicyTable(users)
    && t.countersByUser == b.counters && b.counters.Keys == LiveIds(users)
    && t.connsByUser == b.ipSets && b.ipSets.Keys == LiveIds(users)
    && t.speedsByUser == b.limiters && b.limiters.Keys == LiveIds(users)
    && t.Closed()
  }

  /** Objects of the users who stay are the same objects; their reported traffic is not
      forgotten, and their buckets are what the rows make of them. */
  ghost predicate Polled(before: Books, after: Books, users: seq<PanelUser>, clock: nat -> real) {
    var live := LiveIds(users);
    && Kept(Restricted(before.counters, live), after.counters)
    && Kept(Restricted(before.ipSets, live), after.ipSets)
    && Kept(Restricted(before.limiters, live), after.limiters)
    && after.checkpoints == Restricted(Opened(before.checkpoints, users), live)
    && after.buckets == Restricted(Retuned(before.buckets, users, clock), live)
  }

  lemma PrunedIsPublished(p: Primitives, t: UserTables, b: Books, users: seq<PanelUser>)
    requires TablesFor(p, t, b, users)
    ensures Published(p, t, b.Pruned(LiveIds(users)), users)
  {
    hide AuthTable, PolicyTable, SpeedTable, LiveIds, Kept, Restricted;
    TablesNameLiveIds(p, users);
    KeptRestricted(t.countersByUser, b.counters, LiveIds(users));
    KeptRestricted(t.connsByUser, b.ipSets, LiveIds(users));
    KeptRestricted(t.speedsByUser, b.limiters, LiveIds(users));
  }

  lemma GrownThenPruned(before: Books, mid: Books, users: seq<PanelUser>, clock: nat -> real)
    requires Grown(before, mid, users, clock)
    ensures Polled(before, mid.Pruned(LiveIds(users)), users, clock)
  {
    hide LiveIds, Kept, Restricted, Opened, Retuned;
    KeptRestricted(before.counters, mid.counters, LiveIds(users));
    KeptRestricted(before.ipSets, mid.ipSets, LiveIds(users));
    KeptRestricted(before.limiters, mid.limiters, LiveIds(users));
  }

  /** What a poll leaves of a user who stays: what was reported, the bucket's contents if no row
      changes its rate, and in any case the rate of the user's last row. */
  lemma StayingUser(before: Books, after: Books, users: seq<PanelUser>, clock: nat -> real, uid: nat)
    requires Polled(before, after, users, clock) && uid in LiveIds(users)
    ensures uid in after.checkpoints
    ensures after.checkpoints[uid] == if uid in before.checkpoints then before.checkpoints[uid] else NO_TRAFFIC
    ensures uid in after.buckets && uid in SpeedTable(users)
    ensures after.buckets[uid].rate == SpeedTable(users)[uid] as real
    ensures uid in before.buckets && (forall i :: 0 <= i < |users| && users[i].UserId() == uid ==>
        users[i].UserPolicyOf().speedLimitBps as real == before.buckets[uid].rate) ==>
      after.buckets[uid] == before.buckets[uid]
  {
    hide LiveIds, Kept, Opened, Retuned, SpeedTable, PanelUser.UserPolicyOf;
    OpenedCheckpoint(before.checkpoints, users, uid);
    RetunedRate(before.buckets, users, clock, uid);
    if uid in before.buckets && forall i :: 0 <= i < |users| && users[i].UserId() == uid ==>
        users[i].UserPolicyOf().speedLimitBps as real == before.buckets[uid].rate {
      UnchangedRateKeepsBucket(before.buckets, users, clock, uid);
    }
  }

  // ---- the tables, row by row ----

  /** No later row is of the same user. */
  ghost predicate LastOfUser(users: seq<PanelUser>, i: nat) {
    i < |users| && forall j :: i < j < |users| ==> users[j].UserId() != users[i].UserId()
  }

  /** No later normal row is. */
  ghost predicate LastNormal(users: seq<PanelUser>, i: nat) {
    && i < |users| && users[i].isMultiUser == 0
    && forall j :: i < j < |users| && users[j].isMultiUser == 0 ==> users[j].UserId() != users[i].UserId()
  }

  /** No later row that needs a policy is. */
  ghost predicate LastLimited(users: seq<PanelUser>, i: nat) {
    && i < |users| && users[i].UserPolicyOf().NeedsConnectionPolicy()
    && forall j :: i < j < |users| && users[j].UserPolicyOf().NeedsConnectionPolicy() ==>
         users[j].UserId() != users[i].UserId()
  }

  lemma {:induction false} AuthTableHas(p: Primitives, users: seq<PanelUser>, i: nat)
    requires LastNormal(users, i)
    ensures users[i].UserId() in AuthTable(p, users)
    ensures AuthTable(p, users)[users[i].UserId()] == p.md5(users[i].password)
    decreases |users|
  {
    var n := |users| - 1;
    if i < n {
      assert forall j :: 0 <= j < n ==> users[..n][j] == users[j];
      AuthTableHas(p, users[..n], i);
    }
  }

  lemma {:induction false} AuthTableFrom(p: Primitives, users: seq<PanelUser>, uid: nat) returns (i: nat)
    requires uid in AuthTable(p, users)
    ensures LastNormal(users, i) && users[i].UserId() == uid
    decreases |users|
  {
    var n := |users| - 1;
    if users[n].isMultiUser == 0 && users[n].UserId() == uid {
      i := n;
    } else {
      i := AuthTableFrom(p, users[..n], uid);
      assert forall j :: 0 <= j < n ==> users[..n][j] == users[j];
    }
  }

  /** A user can authenticate if and only if it has a normal row, with the MD5 of the password of
      its last one. */
  lemma AuthTableIsExact(p: Primitives, users: seq<PanelUser>, uid: nat)
    ensures uid in AuthTable(p, users) <==> exists i: nat :: LastNormal(users, i) && users[i].UserId() == uid
    ensures forall i: nat :: LastNormal(users, i) && users[i].UserId() == uid ==>
      uid in AuthTable(p, users) && AuthTable(p, users)[uid] == p.md5(users[i].password)
  {
    if uid in AuthTable(p, users) {
      var i := AuthTableFrom(p, users, uid);
    }
    forall i: nat | LastNormal(users, i) && users[i].UserId() == uid
      ensures uid in AuthTable(p, users) && AuthTable(p, users)[uid] == p.md5(users[i].password)
    {
      AuthTableHas(p, users, i);
    }
  }

  lemma {:induction false} PolicyTableHas(users: seq<PanelUser>, i: nat)
    requires LastLimited(users, i)
    ensures users[i].UserId() in PolicyTable(users)
    ensures PolicyTable(users)[users[i].UserId()] == users[i].UserPolicyOf()
    decreases |users|
  {
    hide PanelUser.UserPolicyOf, UserPolicy.NeedsConnectionPolicy;
    var n := |users| - 1;
    if i < n {
      assert forall j :: 0 <= j < n ==> users[..n][j] == users[j];
      PolicyTableHas(users[..n], i);
    }
  }

  lemma {:induction false} PolicyTableFrom(users: seq<PanelUser>, uid: nat) returns (i: nat)
    requires uid in PolicyTable(users)
    ensures LastLimited(users, i) && users[i].UserId() == uid
    decreases |users|
  {
    hide PanelUser.UserPolicyOf, UserPolicy.NeedsConnectionPolicy;
    var n := |users| - 1;
    if users[n].UserPolicyOf().NeedsConnectionPolicy() && users[n].UserId() == uid {
      i := n;
    } else {
      i := PolicyTableFrom(users[..n], uid);
      assert forall j :: 0 <= j < n ==> users[..n][j] == users[j];
    }
  }

  /** A user has a policy if and only if one of its rows limits more than the speed: the last such
      row's. */
  lemma PolicyTableIsExact(users: seq<PanelUser>, uid: nat)
    ensures uid in PolicyTable(users) <==> exists i: nat :: LastLimited(users, i) && users[i].UserId() == uid
    ensures forall i: nat :: LastLimited(users, i) && users[i].UserId() == uid ==>
      uid in PolicyTable(users) && PolicyTable(users)[uid] == users[i].UserPolicyOf()
  {
    if uid in PolicyTable(users) {
      var i := PolicyTableFrom(users, uid);
    }
    forall i: nat | LastLimited(users, i) && users[i].UserId() == uid
      ensures uid in PolicyTable(users) && PolicyTable(users)[uid] == users[i].UserPolicyOf()
    {
      PolicyTableHas(users, i);
    }
  }

  /** Every user has a rate: its last row's. */
  lemma {:induction false} SpeedTableIsExact(users: seq<PanelUser>, i: nat)
    requires LastOfUser(users, i)
    ensures users[i].UserId() in SpeedTable(users)
    ensures SpeedTable(users)[users[i].UserId()] == users[i].UserPolicyOf().speedLimitBps
    decreases |users|
  {
    hide PanelUser.UserPolicyOf;
    var n := |users| - 1;
    if i < n {
      assert forall j :: 0 <= j < n ==> users[..n][j] == users[j];
      assert users[n].UserId() != users[i].UserId();
      SpeedTableIsExact(users[..n], i);
    }
  }

  /** The live users are those with a row. */
  lemma LiveIdsAreExact(users: seq<PanelUser>, uid: nat)
    ensures uid in LiveIds(users)
       <==> exists u :: u in users && uid == if u.namedId.Some? then u.namedId.value else u.id
  {
  }

  /** One row for a user brings the user's bucket to the row's rate, or makes a new one. */
  lemma {:induction false} OneRowTunes(buckets: map<nat, Bucket>, users: seq<PanelUser>, clock: nat -> real, i: nat)
    requires i < |users|
    requires forall j :: 0 <= j < |users| && j != i ==> users[j].UserId() != users[i].UserId()
    ensures var uid, bps := users[i].UserId(), users[i].UserPolicyOf().speedLimitBps;
      && uid in Retuned(buckets, users, clock)
      && Retuned(buckets, users, clock)[uid]
         == if uid in buckets then SetRate(buckets[uid], bps, clock(i)) else RateLimit.New(bps, clock(i))
    decreases |users|
  {
    hide PanelUser.UserPolicyOf, RateLimit.New, SetRate;
    var n := |users| - 1;
    assert forall j :: 0 <= j < n ==> users[..n][j] == users[j];
    if i < n {
      OneRowTunes(buckets, users[..n], clock, i);
    } else {
      OthersDoNotTune(buckets, users[..n], clock, users[i].UserId());
    }
  }

  lemma {:induction false} OthersDoNotTune(buckets: map<nat, Bucket>, users: seq<PanelUser>, clock: nat -> real,
                                           uid: nat)
    requires forall j :: 0 <= j < |users| ==> users[j].UserId() != uid
    ensures uid in Retuned(buckets, users, clock) <==> uid in buckets
    ensures uid in buckets ==> Retuned(buckets, users, clock)[uid] == buckets[uid]
    decreases |users|
  {
    hide PanelUser.UserPolicyOf, RateLimit.New, SetRate;
    if users != [] {
      OthersDoNotTune(buckets, users[..|users| - 1], clock, uid);
    }
  }
}
