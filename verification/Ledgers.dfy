/** The per-user ledgers that persist across panel polls, next to `Traffic.TrafficLedger`
    (`src/traffic.rs:125-140`, `src/traffic.rs:278-307`). */
module Ledgers {
  import opened Maps
  import opened Devices
  import opened RateLimit

  class ConnLedger {
    var sets: map<nat, UserIpSet>

    constructor ()
      ensures sets == map[]
    {
      sets := map[];
    }

    method EnsureUser(uid: nat) returns (s: UserIpSet)
      modifies this
      ensures sets == Ensured(old(sets), uid, s)
      ensures uid in old(sets) ==> s == old(sets[uid])
      ensures uid !in old(sets) ==> fresh(s) && s.State() == IpCounts(map[], multiset{})
    {
      if uid in sets {
        return sets[uid];
      }
      s := new UserIpSet();
      sets := sets[uid := s];
    }

    method RemoveStaleUsers(live: set<nat>)
      modifies this
      ensures sets == Restricted(old(sets), live)
    {
      sets := map u | u in sets && u in live :: sets[u];
    }
  }

  /** A user's bucket brought to the panel's rate: a new one full, a present one retuned. */
  function Tuned(buckets: map<nat, Bucket>, uid: nat, bps: nat, now: real): map<nat, Bucket> {
    buckets[uid := if uid in buckets then SetRate(buckets[uid], bps, now) else RateLimit.New(bps, now)]
  }

  class SpeedLedger {
    var limiters: map<nat, RateLimiter>
    /** Every bucket this ledger has handed out. */
    ghost var handedOut: set<RateLimiter>

    /** Users share no bucket. */
    ghost predicate Valid()
      reads this, handedOut
    {
      && (forall u :: u in limiters ==> limiters[u] in handedOut && limiters[u].State().Valid())
      && forall u, v :: u in limiters && v in limiters && u != v ==> limiters[u] != limiters[v]
    }

    /** The contents of all buckets. */
    ghost function Buckets(): map<nat, Bucket>
      requires Valid()
      reads this, handedOut
    {
      map u | u in limiters :: limiters[u].State()
    }

    constructor ()
      ensures Valid() && limiters == map[] && handedOut == {}
    {
      limiters, handedOut := map[], {};
    }

    /** Gets or creates the user's bucket, at the panel's current rate. */
    method EnsureUser(uid: nat, bps: nat, now: real) returns (rl: RateLimiter)
      requires Valid()
      modifies this, handedOut
      ensures Valid() && fresh(handedOut - old(handedOut))
      ensures limiters == Ensured(old(limiters), uid, rl)
      ensures uid in old(limiters) ==> rl == old(limiters[uid])
      ensures uid !in old(limiters) ==> fresh(rl)
      ensures Buckets() == Tuned(old(Buckets()), uid, bps, now)
    {
      hide SetRate, RateLimit.New;
      if uid in limiters {
        rl := limiters[uid];
        rl.ChangeRate(bps, now);
      } else {
        rl := new RateLimiter(bps, now);
        limiters := limiters[uid := rl];
        handedOut := handedOut + {rl};
      }
    }

    method RemoveStaleUsers(live: set<nat>)
      requires Valid()
      modifies this
      ensures Valid() && handedOut == old(handedOut)
      ensures limiters == Restricted(old(limiters), live)
      ensures Buckets() == Restricted(old(Buckets()), live)
    {
      limiters := map u | u in limiters && u in live :: limiters[u];
    }
  }
}
