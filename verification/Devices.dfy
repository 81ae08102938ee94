/** The distinct-IP cap (`src/traffic.rs:107-184`): a refcount per client IP, one guard per
    live connection. */
module Devices {

  type Ip = string

  /** `guards` is what is alive; the set itself only keeps the counts. */
  datatype IpCounts = IpCounts(ips: map<Ip, nat>, guards: multiset<Ip>)

  datatype Event = Acquire(ip: Ip, limit: nat) | Drop(ip: Ip)

  function AcquireIp(ips: map<Ip, nat>, ip: Ip, limit: nat): (r: (map<Ip, nat>, bool)) {
    if ip in ips then (ips[ip := ips[ip] + 1], true)
    else if limit > 0 && |ips| >= limit then (ips, false)
    else (ips[ip := 1], true)
  }

  const USIZE_MAX: nat := 0xFFFF_FFFF_FFFF_FFFF

  /** At zero the IP leaves. A count below one would wrap; see `ReleaseNeverUnderflows`. */
  function ReleaseIp(ips: map<Ip, nat>, ip: Ip): map<Ip, nat> {
    if ip !in ips then ips
    else
      var count := if ips[ip] == 0 then USIZE_MAX else ips[ip] - 1;
      if count == 0 then ips - {ip} else ips[ip := count]
  }

  /** Each count is the number of live guards, and none is zero. */
  ghost predicate Counts(d: IpCounts) {
    && (forall ip :: ip in d.ips ==> d.ips[ip] > 0)
    && (forall ip :: d.guards[ip] == if ip in d.ips then d.ips[ip] else 0)
  }

  /** Only a live guard can be dropped. */
  ghost predicate Possible(d: IpCounts, e: Event) {
    e.Drop? ==> e.ip in d.guards
  }

  ghost function Happen(d: IpCounts, e: Event): IpCounts {
    match e
    case Acquire(ip, limit) =>
      var (ips, admitted) := AcquireIp(d.ips, ip, limit);
      IpCounts(ips, if admitted then d.guards + multiset{ip} else d.guards)
    case Drop(ip) =>
      IpCounts(ReleaseIp(d.ips, ip), d.guards - multiset{ip})
  }

  lemma AcquireKeepsCounts(d: IpCounts, ip: Ip, limit: nat)
    requires Counts(d)
    ensures Counts(Happen(d, Acquire(ip, limit)))
  {
  }

  lemma DropKeepsCounts(d: IpCounts, ip: Ip)
    requires Counts(d) && ip in d.guards
    ensures Counts(Happen(d, Drop(ip)))
  {
  }

  lemma HappenKeepsCounts(d: IpCounts, e: Event)
    requires Counts(d) && Possible(d, e)
    ensures Counts(Happen(d, e))
  {
    hide Counts, Happen;
    match e
    case Acquire(ip, limit) => AcquireKeepsCounts(d, ip, limit);
    case Drop(ip) => DropKeepsCounts(d, ip);
  }

  /** An acquisition is refused if and only if the IP is new and the user at a positive limit, and
      then changes nothing; otherwise there is one guard more, of that IP. */
  lemma AcquireIsExact(d: IpCounts, ip: Ip, limit: nat)
    requires Counts(d)
    ensures var refused := d.guards[ip] == 0 && limit > 0 && |d.ips| >= limit;
      Happen(d, Acquire(ip, limit)).guards == if refused then d.guards else d.guards + multiset{ip}
  {
  }

  /** A drop takes one guard of its IP, and the IP with the last of them. */
  lemma DropIsExact(d: IpCounts, ip: Ip)
    requires Counts(d) && ip in d.guards
    ensures Happen(d, Drop(ip)).guards == d.guards - multiset{ip}
    ensures ip in Happen(d, Drop(ip)).ips <==> d.guards[ip] > 1
    ensures ip in Happen(d, Drop(ip)).ips ==> Happen(d, Drop(ip)).ips[ip] == d.guards[ip] - 1
  {
  }

  /** `events` is a run from the empty set, ending in `d`. */
  ghost predicate RunsTo(events: seq<Event>, d: IpCounts)
    decreases |events|
  {
    if events == [] then d == IpCounts(map[], multiset{})
    else
      var n := |events| - 1;
      exists before: IpCounts ::
        RunsTo(events[..n], before) && Possible(before, events[n]) && d == Happen(before, events[n])
  }

  /** In every reachable state the counts are the live guards. */
  lemma {:induction false} CountsAreLiveGuards(events: seq<Event>, d: IpCounts)
    requires RunsTo(events, d)
    ensures Counts(d)
    decreases |events|
  {
    if events != [] {
      var n := |events| - 1;
      var before: IpCounts :|
          RunsTo(events[..n], before) && Possible(before, events[n]) && d == Happen(before, events[n]);
      CountsAreLiveGuards(events[..n], before);
      HappenKeepsCounts(before, events[n]);
    }
  }

  lemma ReleaseNeverUnderflows(events: seq<Event>, d: IpCounts, ip: Ip)
    requires RunsTo(events, d) && ip in d.guards
    ensures ip in d.ips && d.ips[ip] > 0
  {
    CountsAreLiveGuards(events, d);
  }

  /** When every guard is gone, so is every IP: nothing leaks. */
  lemma AllDroppedLeavesNothing(events: seq<Event>, d: IpCounts)
    requires RunsTo(events, d) && d.guards == multiset{}
    ensures d.ips == map[]
  {
    CountsAreLiveGuards(events, d);
    assert d.ips.Keys == {};
  }

  /** The cap: if no acquisition was made under a limit above `limit` (or under none), there are
      never more than `limit` IPs, however many connections each of them has. */
  lemma {:induction false} DistinctIpsCapped(events: seq<Event>, d: IpCounts, limit: nat)
    requires RunsTo(events, d)
    requires forall i :: 0 <= i < |events| && events[i].Acquire? ==> 0 < events[i].limit <= limit
    ensures |d.ips| <= limit
    decreases |events|
  {
    if events != [] {
      var n := |events| - 1;
      var before: IpCounts :|
          RunsTo(events[..n], before) && Possible(before, events[n]) && d == Happen(before, events[n]);
      forall i | 0 <= i < n && events[..n][i].Acquire?
        ensures 0 < events[..n][i].limit <= limit
      {
        assert events[..n][i] == events[i];
      }
      DistinctIpsCapped(events[..n], before, limit);
      StepSize(before, events[n]);
    }
  }

  lemma StepSize(d: IpCounts, e: Event)
    ensures e.Drop? ==> |Happen(d, e).ips| <= |d.ips|
    ensures e.Acquire? && e.limit > 0 ==> |Happen(d, e).ips| <= if |d.ips| < e.limit then e.limit else |d.ips|
  {
  }

  // ---- in place ----

  class UserIpSet {
    var ips: map<Ip, nat>
    ghost var guards: multiset<Ip>

    ghost function State(): IpCounts
      reads this
    {
      IpCounts(ips, guards)
    }

    constructor ()
      ensures State() == IpCounts(map[], multiset{})
    {
      ips, guards := map[], multiset{};
    }
  }

  /** One live connection from `ip`. */
  class ConnGuard {
    const group: UserIpSet
    const ip: Ip

    constructor (group: UserIpSet, ip: Ip)
      ensures this.group == group && this.ip == ip
    {
      this.group, this.ip := group, ip;
    }

    /** A known IP is always admitted; a new one unless the user is at the limit. */
    static method Reserve(group: UserIpSet, ip: Ip, limit: nat) returns (guard: ConnGuard?)
      requires Counts(group.State())
      modifies group
      ensures group.State() == Happen(old(group.State()), Acquire(ip, limit)) && Counts(group.State())
      ensures guard == null <==> ip !in old(group.ips) && limit > 0 && |old(group.ips)| >= limit
      ensures guard != null ==> fresh(guard) && guard.group == group && guard.ip == ip
    {
      HappenKeepsCounts(group.State(), Acquire(ip, limit));
      if ip in group.ips {
        group.ips := group.ips[ip := group.ips[ip] + 1];
      } else {
        if limit > 0 && |group.ips| >= limit {
          return null;
        }
        group.ips := group.ips[ip := 1];
      }
      group.guards := group.guards + multiset{ip};
      guard := new ConnGuard(group, ip);
    }

    method Release()
      requires Counts(group.State()) && ip in group.guards
      modifies group
      ensures group.State() == Happen(old(group.State()), Drop(ip)) && Counts(group.State())
    {
      HappenKeepsCounts(group.State(), Drop(ip));
      if ip in group.ips {
        var count := group.ips[ip] - 1;
        group.ips := group.ips[ip := count];
        if count == 0 {
          group.ips := group.ips - {ip};
        }
      }
      group.guards := group.guards - multiset{ip};
    }
  }
}
