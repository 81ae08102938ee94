/** The shared token bucket (`src/traffic.rs:186-276`), over exact reals: bytes per second,
    tokens in bytes, and a clock in seconds that never runs backwards. */
module RateLimit {
  /** 256 KiB, so one relay chunk always fits. */
  const MIN_BURST: real := 262144.0
  /** Rates are whole numbers, so rates closer than this are equal. */
  const EPSILON: real := 0.0000000000000002220446049250313

  datatype Bucket = Bucket(rate: real, capacity: real, tokens: real, last: real) {
    ghost predicate Valid() {
      && IsWhole(rate)
      && capacity == CapacityFor(rate)
      && 0.0 <= tokens <= capacity
    }
  }

  predicate IsWhole(r: real) { r >= 0.0 && r == r.Floor as real }

  function Min(a: real, b: real): real { if a <= b then a else b }

  function Max(a: real, b: real): real { if a >= b then a else b }

  function CapacityFor(rate: real): real { Max(rate, MIN_BURST) }

  function New(bps: nat, now: real): Bucket {
    var capacity := CapacityFor(bps as real);
    Bucket(bps as real, capacity, capacity, now)
  }

  function Refill(b: Bucket, now: real): Bucket {
    if b.rate <= 0.0 then b.(last := now)
    else
      var elapsed := Max(now - b.last, 0.0);
      b.(last := now, tokens := Min(b.tokens + elapsed * b.rate, b.capacity))
  }

  function SetRate(b: Bucket, bps: nat, now: real): Bucket {
    if b.rate == bps as real then b
    else
      var r := Refill(b, now);
      var capacity := CapacityFor(bps as real);
      Bucket(bps as real, capacity, Min(r.tokens, capacity), r.last)
  }

  /** One pass through the loop of `acquire`, under the lock. */
  datatype Attempt = Unlimited | Charged(need: real) | WaitFor(seconds: real)

  function TryAcquire(b: Bucket, amount: nat, now: real): (r: (Bucket, Attempt)) {
    if b.rate <= 0.0 then (b, Unlimited)
    else
      var r := Refill(b, now);
      var need := Min(amount as real, r.capacity);
      if r.tokens >= need then (r.(tokens := r.tokens - need), Charged(need))
      else (r, WaitFor((need - r.tokens) / r.rate))
  }

  // ---- any interleaving of acquirers and rate changes ----

  datatype Event = Acquire(amount: nat, now: real) | ChangeRate(bps: nat, now: real)

  function Happen(b: Bucket, e: Event): Bucket {
    match e
    case Acquire(amount, now) => TryAcquire(b, amount, now).0
    case ChangeRate(bps, now) => SetRate(b, bps, now)
  }

  function ChargedBy(b: Bucket, e: Event): real {
    if e.Acquire? && TryAcquire(b, e.amount, e.now).1.Charged? then TryAcquire(b, e.amount, e.now).1.need else 0.0
  }

  /** Tokens charged over a whole run. */
  function TotalCharged(b: Bucket, events: seq<Event>): real
    decreases |events|
  {
    if events == [] then 0.0
    else ChargedBy(b, events[0]) + TotalCharged(Happen(b, events[0]), events[1..])
  }

  /** The clock: no event before `start`, none after `end`, none before its predecessor. */
  predicate InWindow(events: seq<Event>, start: real, end: real) {
    if events == [] then start <= end
    else start <= events[0].now && InWindow(events[1..], events[0].now, end)
  }

  /** The rate summed over time, from `start` to `end`. */
  function Supply(rate: real, events: seq<Event>, start: real, end: real): real
    decreases |events|
  {
    if events == [] then rate * (end - start)
    else
      rate * (events[0].now - start)
      + Supply(if events[0].ChangeRate? then events[0].bps as real else rate, events[1..], events[0].now, end)
  }

  /** The tokens the bucket holds at time `t`, before anything is taken. */
  function Held(b: Bucket, t: real): real { Refill(b, t).tokens }

  lemma ProductNonNegative(a: real, b: real)
    requires a >= 0.0 && b >= 0.0
    ensures a * b >= 0.0
  {
  }

  lemma RefillKeepsValid(b: Bucket, now: real)
    requires b.Valid()
    ensures Refill(b, now).Valid()
  {
    ProductNonNegative(Max(now - b.last, 0.0), Max(b.rate, 0.0));
  }

  lemma HappenKeepsValid(b: Bucket, e: Event)
    requires b.Valid()
    ensures Happen(b, e).Valid()
  {
  }

  /** Waiting adds at most the rate. */
  lemma HeldGrows(b: Bucket, t: real, later: real)
    requires b.Valid() && b.last <= t <= later
    ensures Held(b, later) <= Held(b, t) + b.rate * (later - t)
  {
    ProductNonNegative(b.rate, later - t);
    assert b.rate * (later - b.last) == b.rate * (t - b.last) + b.rate * (later - t);
  }

  /** An event charges no more than it takes out. */
  lemma EventTakesOut(b: Bucket, e: Event)
    requires b.Valid() && b.last <= e.now
    ensures ChargedBy(b, e) + Held(Happen(b, e), e.now) <= Held(b, e.now)
    ensures Happen(b, e).last <= e.now
    ensures Happen(b, e).rate == if e.ChangeRate? then e.bps as real else b.rate
  {
    RefillKeepsValid(b, e.now);
    ProductWithZero(Happen(b, e).rate);
  }

  lemma ProductWithZero(a: real)
    ensures 0.0 * a == 0.0
  {
  }

  lemma HeldWithinCapacity(b: Bucket, t: real)
    requires b.Valid()
    ensures 0.0 <= Held(b, t) <= CapacityFor(b.rate)
  {
    RefillKeepsValid(b, t);
  }

  /** Token-bucket bound across live rate changes: what is charged in a window is at most what
      the bucket held at its start plus the rate summed over the window. Time at rate 0 adds
      nothing. */
  lemma {:induction false} ChargedWithinSupply(b: Bucket, events: seq<Event>, start: real, end: real)
    requires b.Valid() && b.last <= start && InWindow(events, start, end)
    ensures TotalCharged(b, events) <= Held(b, start) + Supply(b.rate, events, start, end)
    decreases |events|
  {
    hide Happen, ChargedBy, Held;
    if events == [] {
      HeldWithinCapacity(b, start);
      ProductNonNegative(b.rate, end - start);
      assert TotalCharged(b, events) == 0.0;
      assert Supply(b.rate, events, start, end) == b.rate * (end - start);
      assert Held(b, start) >= 0.0;
    } else {
      var e := events[0];
      HeldGrows(b, start, e.now);
      EventTakesOut(b, e);
      HappenKeepsValid(b, e);
      ChargedWithinSupply(Happen(b, e), events[1..], e.now, end);
    }
  }

  lemma {:induction false} ConstantSupply(rate: real, events: seq<Event>, start: real, end: real)
    requires forall i :: 0 <= i < |events| ==> events[i].Acquire?
    ensures Supply(rate, events, start, end) == rate * (end - start)
    decreases |events|
  {
    if events != [] {
      ConstantSupply(rate, events[1..], events[0].now, end);
      assert rate * (end - start) == rate * (events[0].now - start) + rate * (end - events[0].now);
    }
  }

  /** The classic bound: over any interleaving of acquirers at a constant rate R with capacity
      C, a window of length d charges at most C + R * d. */
  lemma ConstantRateBound(b: Bucket, events: seq<Event>, start: real, end: real)
    requires b.Valid() && b.last <= start && InWindow(events, start, end)
    requires forall i :: 0 <= i < |events| ==> events[i].Acquire?
    ensures TotalCharged(b, events) <= CapacityFor(b.rate) + b.rate * (end - start)
  {
    hide Held, TotalCharged, Supply, InWindow;
    ChargedWithinSupply(b, events, start, end);
    ConstantSupply(b.rate, events, start, end);
    HeldWithinCapacity(b, start);
  }

  /** What an attempt comes to when nothing is cut to the bucket's capacity. */
  function Unclamped(b: Bucket, amount: nat, now: real): Attempt {
    if b.rate <= 0.0 then Unlimited
    else if Held(b, now) >= amount as real then Charged(amount as real)
    else WaitFor((amount as real - Held(b, now)) / b.rate)
  }

  /** What the relay passes to `acquire` is below 256 KiB, so it is charged in full, and waited
      for in full. */
  lemma SmallAmountsAreNotClamped(b: Bucket, amount: nat, now: real)
    requires b.Valid() && amount as real <= MIN_BURST
    ensures TryAcquire(b, amount, now).1 == Unclamped(b, amount, now)
  {
    RefillKeepsValid(b, now);
    RefillKeepsRate(b, now);
    hide Refill;
  }

  lemma RefillKeepsRate(b: Bucket, now: real)
    ensures Refill(b, now).rate == b.rate && Refill(b, now).capacity == b.capacity && Refill(b, now).last == now
  {
  }

  /** The bytes that acquirers asked for and got while the limit was on. */
  function TotalGranted(b: Bucket, events: seq<Event>): real
    decreases |events|
  {
    if events == [] then 0.0
    else
      (if events[0].Acquire? && TryAcquire(b, events[0].amount, events[0].now).1.Charged?
       then events[0].amount as real else 0.0)
      + TotalGranted(Happen(b, events[0]), events[1..])
  }

  /** So for the relay the bounds are bounds on bytes let through. */
  lemma {:induction false} GrantedIsCharged(b: Bucket, events: seq<Event>)
    requires b.Valid()
    requires forall i :: 0 <= i < |events| && events[i].Acquire? ==> events[i].amount as real <= MIN_BURST
    ensures TotalGranted(b, events) == TotalCharged(b, events)
    decreases |events|
  {
    if events != [] {
      var e := events[0];
      if e.Acquire? && TryAcquire(b, e.amount, e.now).1.Charged? {
        SmallAmountsAreNotClamped(b, e.amount, e.now);
      }
      HappenKeepsValid(b, e);
      hide TryAcquire, Happen;
      GrantedIsCharged(Happen(b, e), events[1..]);
    }
  }

  /** The wait is exact: left alone, a refused acquirer is served after sleeping that long, and
      not a moment earlier. So one sleep always suffices. */
  lemma WaitIsExact(b: Bucket, amount: nat, now: real, retry: real)
    requires b.Valid() && TryAcquire(b, amount, now).1.WaitFor? && now <= retry
    ensures TryAcquire(b, amount, now).1.seconds > 0.0
    ensures TryAcquire(TryAcquire(b, amount, now).0, amount, retry).1.Charged?
       <==> retry - now >= TryAcquire(b, amount, now).1.seconds
  {
    RefillKeepsValid(b, now);
    RefillKeepsRate(b, now);
    hide Refill, Earned;
    var r := Refill(b, now);
    var need := Min(amount as real, r.capacity);
    assert need <= r.capacity;
    hide Min, CapacityFor, IsWhole;
    RefillAfter(r, now, retry);
    RefilledEnough(r.tokens, need, r.rate, r.capacity, retry - now);
  }

  function Earned(tokens: real, rate: real, capacity: real, elapsed: real): real {
    Min(tokens + elapsed * rate, capacity)
  }

  lemma RefillAfter(r: Bucket, now: real, retry: real)
    requires r.rate > 0.0 && r.last == now <= retry
    ensures Refill(r, retry) == r.(last := retry, tokens := Earned(r.tokens, r.rate, r.capacity, retry - now))
  {
  }

  /** How long a bucket of `tokens` takes to hold `need`. */
  lemma RefilledEnough(tokens: real, need: real, rate: real, capacity: real, elapsed: real)
    requires rate > 0.0 && tokens < need <= capacity && elapsed >= 0.0
    ensures (need - tokens) / rate > 0.0
    ensures Earned(tokens, rate, capacity, elapsed) >= need <==> elapsed >= (need - tokens) / rate
  {
    QuotientOrder(need - tokens, rate, elapsed);
    QuotientOrder(need - tokens, rate, 0.0);
    ProductWithZero(rate);
  }

  lemma QuotientOrder(a: real, rate: real, t: real)
    requires rate > 0.0
    ensures t >= a / rate <==> t * rate >= a
  {
  }

  lemma WholeRatesApart(rate: real, bps: nat)
    requires IsWhole(rate)
    ensures -EPSILON < rate - bps as real < EPSILON <==> rate == bps as real
  {
    assert rate - bps as real == (rate.Floor - bps) as real;
  }

  // ---- exact accounting ----

  /** A new bucket is full: one second's worth, but at least 256 KiB. */
  lemma NewIsFull(bps: nat, now: real)
    ensures New(bps, now).Valid() && New(bps, now).rate == bps as real && New(bps, now).last == now
    ensures New(bps, now).tokens == New(bps, now).capacity == if bps as real >= 262144.0 then bps as real else 262144.0
  {
  }

  /** Waiting adds exactly the rate, up to the capacity; at rate 0 it adds nothing. */
  lemma HeldIsExact(b: Bucket, t: real)
    requires b.Valid() && b.last <= t
    ensures Held(b, t)
         == if b.rate == 0.0 then b.tokens
            else if b.tokens + b.rate * (t - b.last) <= b.capacity then b.tokens + b.rate * (t - b.last)
            else b.capacity
  {
    if b.rate > 0.0 {
      RefillAfter(b, b.last, t);
      hide Refill;
      EarnedWrittenOut(b.tokens, b.rate, b.capacity, t - b.last);
    }
  }

  lemma EarnedWrittenOut(tokens: real, rate: real, capacity: real, elapsed: real)
    ensures Earned(tokens, rate, capacity, elapsed)
         == if tokens + rate * elapsed <= capacity then tokens + rate * elapsed else capacity
  {
    assert elapsed * rate == rate * elapsed;
  }

  /** An acquisition takes out exactly what it charges, and nothing when it is made to wait. */
  lemma AcquireIsExact(b: Bucket, amount: nat, now: real)
    requires b.Valid() && b.last <= now
    ensures var after := Happen(b, Acquire(amount, now));
      && Held(after, now) + ChargedBy(b, Acquire(amount, now)) == Held(b, now)
      && after.rate == b.rate && after.capacity == b.capacity && after.last <= now
      && (b.rate > 0.0 ==> after.last == now)
  {
    RefillKeepsValid(b, now);
    ProductWithZero(b.rate);
  }

  /** What an attempt comes to: unlimited at rate 0; charged if and only if the bucket holds the
      amount, or is full when the amount is more than it can ever hold; else made to wait. */
  lemma AttemptIsExact(b: Bucket, amount: nat, now: real)
    requires b.Valid() && b.last <= now
    ensures var need := if amount as real <= b.capacity then amount as real else b.capacity;
      TryAcquire(b, amount, now).1
      == if b.rate == 0.0 then Unlimited
         else if Held(b, now) >= need then Charged(need)
         else WaitFor((need - Held(b, now)) / b.rate)
  {
    RefillKeepsRate(b, now);
    hide Refill;
  }

  /** A changed rate keeps what the bucket holds, up to the new capacity; an unchanged one touches
      nothing. */
  lemma RateChangeIsExact(b: Bucket, bps: nat, now: real)
    requires b.Valid() && b.last <= now
    ensures b.rate == bps as real ==> SetRate(b, bps, now) == b
    ensures b.rate != bps as real ==>
      var after := SetRate(b, bps, now);
      && after.rate == bps as real && after.last == now
      && after.capacity == (if bps as real >= 262144.0 then bps as real else 262144.0)
      && after.tokens == if Held(b, now) <= after.capacity then Held(b, now) else after.capacity
  {
  }

  function Demand(events: seq<Event>): nat {
    if events == [] then 0
    else (if events[0].Acquire? then events[0].amount else 0) + Demand(events[1..])
  }

  /** Every acquisition of the run is served at once. */
  predicate NoneWaits(b: Bucket, events: seq<Event>)
    decreases |events|
  {
    events == []
    || ((events[0].Acquire? ==> !TryAcquire(b, events[0].amount, events[0].now).1.WaitFor?)
        && NoneWaits(Happen(b, events[0]), events[1..]))
  }

  lemma HeldNeverFalls(b: Bucket, t: real, later: real)
    requires b.Valid() && b.last <= t <= later
    ensures Held(b, t) <= Held(b, later)
  {
    HeldIsExact(b, t);
    HeldIsExact(b, later);
    ProductNonNegative(b.rate, later - t);
    assert b.rate * (later - b.last) == b.rate * (t - b.last) + b.rate * (later - t);
    hide Refill;
  }

  /** The guarantee: demand within what the bucket holds is never made to wait, however many
      acquirers share it. */
  lemma {:induction false} DemandWithinHeldIsServed(b: Bucket, events: seq<Event>, start: real, end: real)
    requires b.Valid() && b.last <= start && InWindow(events, start, end)
    requires forall i :: 0 <= i < |events| ==> events[i].Acquire?
    requires Demand(events) as real <= Held(b, start)
    ensures NoneWaits(b, events)
    decreases |events|
  {
    hide TryAcquire, Happen, ChargedBy, Held;
    if events != [] {
      var e := events[0];
      HeldNeverFalls(b, start, e.now);
      AttemptIsExact(b, e.amount, e.now);
      AcquireIsExact(b, e.amount, e.now);
      HappenKeepsValid(b, e);
      ChargedAtMost(b, e);
      DemandWithinHeldIsServed(Happen(b, e), events[1..], e.now, end);
    }
  }

  lemma ChargedAtMost(b: Bucket, e: Event)
    requires e.Acquire?
    ensures ChargedBy(b, e) <= e.amount as real
  {
    hide Refill;
  }

  /** The bucket once an acquirer nobody interferes with is served, after one sleep at most. */
  function ServedAlone(b: Bucket, amount: nat, now: real, oversleep: real): Bucket {
    var (b', first) := TryAcquire(b, amount, now);
    if first.WaitFor? then TryAcquire(b', amount, now + first.seconds + oversleep).0 else b'
  }

  // ---- in place ----

  class RateLimiter {
    var rate: real
    var capacity: real
    var tokens: real
    var last: real

    ghost function State(): Bucket
      reads this
    {
      Bucket(rate, capacity, tokens, last)
    }

    constructor (bps: nat, now: real)
      ensures State() == New(bps, now) && State().Valid()
    {
      rate := bps as real;
      capacity := CapacityFor(bps as real);
      tokens := CapacityFor(bps as real);
      last := now;
    }

    method RefillNow(now: real)
      modifies this
      ensures State() == Refill(old(State()), now)
    {
      if rate <= 0.0 {
        last := now;
        return;
      }
      var elapsed := Max(now - last, 0.0);
      last := now;
      tokens := Min(tokens + elapsed * rate, capacity);
    }

    /** Changes the cap of a live bucket; an unchanged cap touches nothing. */
    method ChangeRate(bps: nat, now: real)
      requires State().Valid()
      modifies this
      ensures State() == SetRate(old(State()), bps, now) && State().Valid()
    {
      HappenKeepsValid(State(), Event.ChangeRate(bps, now));
      var difference := rate - bps as real;
      WholeRatesApart(rate, bps);
      hide Refill;
      if -EPSILON < difference < EPSILON {
        return;
      }
      RefillNow(now);
      rate := bps as real;
      capacity := CapacityFor(bps as real);
      if tokens > capacity {
        tokens := capacity;
      }
    }

    /** The locked section of `acquire`. */
    method Attempt(amount: nat, now: real) returns (r: Attempt)
      requires State().Valid()
      modifies this
      ensures (State(), r) == TryAcquire(old(State()), amount, now) && State().Valid()
    {
      HappenKeepsValid(State(), Acquire(amount, now));
      if rate <= 0.0 {
        return Unlimited;
      }
      RefillNow(now);
      var need := Min(amount as real, capacity);
      if tokens >= need {
        tokens := tokens - need;
        return Charged(need);
      }
      return WaitFor((need - tokens) / rate);
    }

    /** The whole of `acquire` when no one else uses the bucket; every sleep lasts as long as
        asked for, or `oversleep` longer. */
    method AcquireAlone(amount: nat, now: real, oversleep: real) returns (t: real)
      requires State().Valid() && oversleep >= 0.0
      modifies this
      ensures State().Valid()
      ensures var (_, first) := TryAcquire(old(State()), amount, now);
        t == if first.WaitFor? then now + first.seconds + oversleep else now
      ensures State() == ServedAlone(old(State()), amount, now, oversleep)
    {
      t := now;
      ghost var was := State();
      ghost var sleeps := 0;
      while true
        invariant State().Valid() && 0 <= sleeps <= 1
        invariant sleeps == 0 ==> State() == was && t == now
        invariant sleeps == 1 ==>
          && TryAcquire(was, amount, now).1.WaitFor?
          && State() == TryAcquire(was, amount, now).0
          && t == now + TryAcquire(was, amount, now).1.seconds + oversleep
        decreases 1 - sleeps
      {
        ghost var before := t;
        var attempt := Attempt(amount, t);
        if !attempt.WaitFor? {
          return;
        }
        if sleeps == 1 {
          WaitIsExact(was, amount, now, t);
        } else {
          WaitIsExact(was, amount, now, now);
        }
        t := t + attempt.seconds + oversleep;
        sleeps := sleeps + 1;
      }
    }
  }
}
