/** What a run's records, reads, posts and ACKs add up to (`src/traffic.rs:61-105`,
    `src/runtime/supervisor.rs:384-392`), read off the actions alone, without the ledger. */
module TrafficHistory {
  import opened Traffic

  datatype Direction = Up | Down

  /** The run's actions but the last. */
  function Before(actions: seq<Action>): seq<Action>
    requires actions != []
  {
    actions[..|actions| - 1]
  }

  function Last(actions: seq<Action>): Action
    requires actions != []
  {
    actions[|actions| - 1]
  }

  predicate Forgets(a: Action, uid: nat) { a.RemoveStale? && uid !in a.live }

  /** The bytes of the user's record actions since the user was added. */
  function Recorded(actions: seq<Action>, uid: nat, d: Direction): nat
    decreases |actions|
  {
    if actions == [] || Forgets(Last(actions), uid) then 0
    else
      Recorded(Before(actions), uid, d)
      + match Last(actions)
        case RecordUpload(u, n) => if u == uid && d == Up then n else 0
        case RecordDownload(u, n) => if u == uid && d == Down then n else 0
        case _ => 0
  }

  predicate ReadsCounter(a: Action, uid: nat, d: Direction) {
    (a.LoadUpload? && a.uid == uid && d == Up) || (a.LoadDownload? && a.uid == uid && d == Down)
  }

  /** What the last look at the user's counter saw. */
  function Seen(actions: seq<Action>, uid: nat, d: Direction): nat
    decreases |actions|
  {
    if actions == [] || Forgets(Last(actions), uid) then 0
    else if ReadsCounter(Last(actions), uid, d) then Recorded(Before(actions), uid, d) % 0x1_0000_0000_0000_0000
    else Seen(Before(actions), uid, d)
  }

  /** What the last post claimed for the user. */
  function Claimed(actions: seq<Action>, uid: nat, d: Direction): nat
    decreases |actions|, 0
  {
    if actions == [] || Forgets(Last(actions), uid) then 0
    else if Last(actions).PostDeltas? then Excess(Before(actions), uid, d)
    else Claimed(Before(actions), uid, d)
  }

  /** What the last look saw beyond what is settled. */
  function Excess(actions: seq<Action>, uid: nat, d: Direction): nat
    decreases |actions|, 1
  {
    var seen, settled := Seen(actions, uid, d), Settled(actions, uid, d);
    if seen >= settled then seen - settled else 0
  }

  /** What the counter showed in the last report that claimed anything for the user and was
      acknowledged. */
  function Settled(actions: seq<Action>, uid: nat, d: Direction): nat
    decreases |actions|, 0
  {
    if actions == [] || Forgets(Last(actions), uid) then 0
    else if Last(actions).Acknowledged?
         && (Claimed(Before(actions), uid, Up) > 0 || Claimed(Before(actions), uid, Down) > 0)
    then Seen(Before(actions), uid, d)
    else Settled(Before(actions), uid, d)
  }

  /** The bytes the panel has acknowledged: the claims of all acknowledged posts. */
  function Credited(actions: seq<Action>, uid: nat, d: Direction): nat
    decreases |actions|
  {
    if actions == [] || Forgets(Last(actions), uid) then 0
    else
      Credited(Before(actions), uid, d)
      + if Last(actions).Acknowledged? then Claimed(Before(actions), uid, d) else 0
  }

  // ---- the ledger keeps just this ----

  function CellOf(a: Account, d: Direction): Cell { if d == Up then a.up else a.down }

  ghost predicate Remembers(actions: seq<Action>, w: World, uid: nat, d: Direction) {
    if uid in w.accounts then
      var c := CellOf(w.accounts[uid], d);
      && c.recorded == Recorded(actions, uid, d)
      && c.counter == Recorded(actions, uid, d) % 0x1_0000_0000_0000_0000
      && c.loaded == Seen(actions, uid, d)
      && c.checkpoint == Settled(actions, uid, d)
      && c.acked == Credited(actions, uid, d)
      && (w.phase == Posted ==> Claimed(actions, uid, d) == Excess(actions, uid, d))
    else
      && Recorded(actions, uid, d) == Seen(actions, uid, d) == Settled(actions, uid, d) == 0
      && Claimed(actions, uid, d) == Credited(actions, uid, d) == 0
  }

  lemma {:induction false} StateIsHistory(actions: seq<Action>, w: World, uid: nat)
    requires RunsTo(actions, w)
    ensures Remembers(actions, w, uid, Up) && Remembers(actions, w, uid, Down)
    decreases |actions|
  {
    if actions != [] {
      var n := |actions| - 1;
      var before: World :|
        RunsTo(actions[..n], before) && Enabled(before, actions[n]) && w == Perform(before, actions[n]);
      StateIsHistory(actions[..n], before, uid);
      StepRemembers(actions, before, uid, Up);
      StepRemembers(actions, before, uid, Down);
    }
  }

  /** What the last action adds to the history of a user it does not forget. */
  lemma HistoryUnfolds(actions: seq<Action>, uid: nat, d: Direction)
    requires actions != [] && !Forgets(Last(actions), uid)
    ensures var prev, a := Before(actions), Last(actions);
      && Recorded(actions, uid, d) == Recorded(prev, uid, d)
         + (if a.RecordUpload? && a.uid == uid && d == Up then a.bytes
            else if a.RecordDownload? && a.uid == uid && d == Down then a.bytes else 0)
      && Seen(actions, uid, d)
         == (if ReadsCounter(a, uid, d) then Recorded(prev, uid, d) % TWO64 else Seen(prev, uid, d))
      && Claimed(actions, uid, d) == (if a.PostDeltas? then Excess(prev, uid, d) else Claimed(prev, uid, d))
      && Settled(actions, uid, d)
         == (if a.Acknowledged? && (Claimed(prev, uid, Up) > 0 || Claimed(prev, uid, Down) > 0)
             then Seen(prev, uid, d) else Settled(prev, uid, d))
      && Credited(actions, uid, d) == Credited(prev, uid, d) + if a.Acknowledged? then Claimed(prev, uid, d) else 0
  {
  }

  lemma HistoryForgets(actions: seq<Action>, uid: nat, d: Direction)
    requires actions != [] && Forgets(Last(actions), uid)
    ensures Recorded(actions, uid, d) == Seen(actions, uid, d) == Settled(actions, uid, d) == 0
    ensures Claimed(actions, uid, d) == Credited(actions, uid, d) == 0
  {
  }

  lemma ExcessUnfolds(actions: seq<Action>, uid: nat, d: Direction)
    ensures var seen, settled := Seen(actions, uid, d), Settled(actions, uid, d);
      Excess(actions, uid, d) == if seen >= settled then seen - settled else 0
  {
  }

  lemma CounterWraps(total: nat, counter: u64, n: u64)
    requires counter == total % TWO64
    ensures WrapAdd64(counter, n) == (total + n) % TWO64
  {
  }

  lemma StepRemembers(actions: seq<Action>, before: World, uid: nat, d: Direction)
    requires actions != [] && Enabled(before, Last(actions))
    requires Remembers(Before(actions), before, uid, Up) && Remembers(Before(actions), before, uid, Down)
    ensures Remembers(actions, Perform(before, Last(actions)), uid, d)
  {
    hide Recorded, Seen, Claimed, Excess, Settled, Credited, WrapAdd64;
    var a, prev := Last(actions), Before(actions);
    if Forgets(a, uid) {
      HistoryForgets(actions, uid, d);
    } else {
      HistoryUnfolds(actions, uid, d);
      ExcessUnfolds(actions, uid, d);
      ExcessUnfolds(prev, uid, Up);
      ExcessUnfolds(prev, uid, Down);
      if uid in before.accounts && (a.RecordUpload? || a.RecordDownload?) {
        CounterWraps(Recorded(prev, uid, d), CellOf(before.accounts[uid], d).counter, a.bytes);
      }
    }
  }

  /** What the next report would claim, with a fresh look at the counter. */
  function Outstanding(actions: seq<Action>, uid: nat, d: Direction): nat {
    var counter, settled := Recorded(actions, uid, d) % 0x1_0000_0000_0000_0000, Settled(actions, uid, d);
    if counter >= settled then counter - settled else 0
  }

  /** Conservation, of the actions alone: in every run, what the panel acknowledged and what the
      next report would claim is what was recorded, exactly as long as that is below 2^64, and
      never more; and until then no subtraction saturates. */
  lemma NothingIsLost(actions: seq<Action>, w: World, uid: nat, d: Direction)
    requires RunsTo(actions, w) && uid in w.accounts
    ensures Credited(actions, uid, d) + Outstanding(actions, uid, d) == Recorded(actions, uid, d)
       <==> Recorded(actions, uid, d) < 0x1_0000_0000_0000_0000
    ensures Credited(actions, uid, d) + Outstanding(actions, uid, d) <= Recorded(actions, uid, d)
    ensures Recorded(actions, uid, d) < 0x1_0000_0000_0000_0000 ==>
      && Settled(actions, uid, d) <= Recorded(actions, uid, d)
      && (w.phase == Posted ==> Settled(actions, uid, d) <= Seen(actions, uid, d))
  {
    StateIsHistory(actions, w, uid);
    assert Remembers(actions, w, uid, d);
    hide *;
    CellConserves(actions, w, uid, d);
    var c := CellOf(w.accounts[uid], d);
    HistoryOfCell(actions, w, uid, d);
    OutstandingIsUnreported(actions, uid, d, c);
  }

  /** Conservation in one cell. */
  lemma CellConserves(actions: seq<Action>, w: World, uid: nat, d: Direction)
    requires RunsTo(actions, w) && uid in w.accounts
    ensures var c := CellOf(w.accounts[uid], d);
      && (c.acked + c.Unreported() == c.recorded <==> c.recorded < TWO64)
      && c.acked + c.Unreported() <= c.recorded
      && (c.recorded < TWO64 ==> c.checkpoint <= c.counter)
      && (c.recorded < TWO64 ==> c.checkpoint <= c.recorded)
      && (w.phase == Posted && c.recorded < TWO64 ==> c.checkpoint <= c.loaded)
  {
    TrafficConservation(actions, w, uid);
    RunKeepsInvariant(actions, w);
    assert AccountInvariant(w.accounts[uid], w.phase);
    hide RunsTo;
  }

  lemma HistoryOfCell(actions: seq<Action>, w: World, uid: nat, d: Direction)
    requires uid in w.accounts && Remembers(actions, w, uid, d)
    ensures var c := CellOf(w.accounts[uid], d);
      && c.recorded == Recorded(actions, uid, d) && c.acked == Credited(actions, uid, d)
      && c.checkpoint == Settled(actions, uid, d) && c.loaded == Seen(actions, uid, d)
      && c.counter == Recorded(actions, uid, d) % TWO64
  {
    hide Recorded, Seen, Settled, Credited, Claimed, Excess;
  }

  lemma OutstandingIsUnreported(actions: seq<Action>, uid: nat, d: Direction, c: Cell)
    requires c.counter == Recorded(actions, uid, d) % TWO64 && c.checkpoint == Settled(actions, uid, d)
    ensures Outstanding(actions, uid, d) == c.Unreported()
  {
    hide Recorded, Settled;
  }

  /** A report the panel does not acknowledge leaves every counter and checkpoint as it is. */
  lemma FailedReportChangesNothing(w: World)
    requires Enabled(w, ReportFailed)
    ensures Perform(w, ReportFailed) == World(Idle, w.accounts)
  {
  }

  /** A report is posted if and only if some counter was seen beyond its checkpoint. */
  lemma PostedIfAnything(w: World)
    requires Enabled(w, PostDeltas)
    ensures Perform(w, PostDeltas).accounts == w.accounts
    ensures Perform(w, PostDeltas).phase == Posted
       <==> exists uid :: uid in w.accounts && (w.accounts[uid].up.loaded > w.accounts[uid].up.checkpoint
                                                || w.accounts[uid].down.loaded > w.accounts[uid].down.checkpoint)
    ensures Perform(w, PostDeltas).phase in {Posted, Idle}
  {
    forall uid | uid in w.accounts
      ensures w.accounts[uid].Claims() <==> w.accounts[uid].up.loaded > w.accounts[uid].up.checkpoint
                                            || w.accounts[uid].down.loaded > w.accounts[uid].down.checkpoint
    {
    }
  }

  // ---- a report no relay interferes with ----

  /** The supervisor looks at counters, in any order, and nothing else happens. */
  ghost predicate LooksTo(w: World, looks: seq<Action>, w': World)
    decreases |looks|
  {
    if looks == [] then w' == w
    else
      && (looks[0].LoadUpload? || looks[0].LoadDownload?) && Enabled(w, looks[0])
      && LooksTo(Perform(w, looks[0]), looks[1..], w')
  }

  /** `w'` differs from `w` only in what was looked at. */
  ghost predicate Looked(w: World, w': World) {
    && w'.phase == w.phase && w'.accounts.Keys == w.accounts.Keys
    && forall uid :: uid in w.accounts ==>
         var a, a' := w.accounts[uid], w'.accounts[uid];
         && a'.up == a.up.(loaded := a'.up.loaded) && a'.down == a.down.(loaded := a'.down.loaded)
         && (a'.stage != Unread && a.stage == Unread ==> a'.up.loaded == a.up.counter)
         && (a.stage == UploadRead ==> a'.up.loaded == a.up.loaded && a'.stage != Unread)
         && (a'.stage == Read && a.stage != Read ==> a'.down.loaded == a.down.counter)
         && (a.stage == Read ==> a' == a)
  }

  lemma {:induction false} LooksOnlyLook(w: World, looks: seq<Action>, w': World)
    requires LooksTo(w, looks, w')
    ensures Looked(w, w')
    decreases |looks|
  {
    if looks != [] {
      var next := Perform(w, looks[0]);
      LooksOnlyLook(next, looks[1..], w');
      forall uid | uid in w.accounts
        ensures uid in next.accounts && uid in w'.accounts
      {
        assert uid in next.accounts.Keys;
      }
    }
  }

  function CountersOf(a: Account): CounterSnapshot { CounterSnapshot(a.up.counter, a.down.counter) }

  function CheckpointsOf(a: Account): CounterSnapshot { CounterSnapshot(a.up.checkpoint, a.down.checkpoint) }

  /** A whole report of the step machine, with no record in between, is the ledger's: with an ACK
      the checkpoints of all users with a delta become their counters, without one none moves. */
  lemma QuietReport(w: World, looks: seq<Action>, looked: World, ack: bool) returns (after: World)
    requires w.phase == Idle && LooksTo(Perform(w, BeginReport), looks, looked) && Enabled(looked, PostDeltas)
    ensures after == Concluded(looked, ack)
    ensures after.phase == Idle && after.accounts.Keys == w.accounts.Keys
    ensures forall uid :: uid in w.accounts ==> QuietlyReported(w.accounts[uid], after.accounts[uid], uid, ack)
  {
    var begun := Perform(w, BeginReport);
    LooksOnlyLook(begun, looks, looked);
    AllLooked(w, begun, looked);
    after := Concluded(looked, ack);
    hide LooksTo, Looked, Perform, Enabled, Concluded, AllSeen, QuietlyReported, Account.Claims, Account.Settle;
    Concludes(looked, ack);
    forall uid | uid in w.accounts
      ensures uid in after.accounts && QuietlyReported(w.accounts[uid], after.accounts[uid], uid, ack)
    {
      assert uid in after.accounts.Keys;
      SettledFromSeen(w.accounts[uid], looked.accounts[uid], uid);
    }
  }

  /** The end of a report that has looked at everything. */
  function Concluded(looked: World, ack: bool): World
    requires Enabled(looked, PostDeltas)
  {
    var posted := Perform(looked, PostDeltas);
    if posted.phase == Idle then posted
    else if ack then Perform(posted, Acknowledged) else Perform(posted, ReportFailed)
  }

  lemma Concludes(looked: World, ack: bool)
    requires Enabled(looked, PostDeltas)
    ensures Concluded(looked, ack).phase == Idle && Concluded(looked, ack).accounts.Keys == looked.accounts.Keys
    ensures forall uid :: uid in looked.accounts ==>
      var a, a' := looked.accounts[uid], Concluded(looked, ack).accounts[uid];
      (a' == a && (ack ==> !a.Claims())) || (ack && a' == a.Settle())
  {
  }

  lemma AllLooked(w: World, begun: World, looked: World)
    requires Enabled(w, BeginReport) && begun == Perform(w, BeginReport)
    requires Looked(begun, looked) && Enabled(looked, PostDeltas)
    ensures looked.accounts.Keys == w.accounts.Keys
    ensures forall uid :: uid in w.accounts ==> AllSeen(w.accounts[uid], looked.accounts[uid])
  {
    forall uid | uid in w.accounts
      ensures uid in looked.accounts && AllSeen(w.accounts[uid], looked.accounts[uid])
    {
      assert uid in begun.accounts && uid in looked.accounts.Keys;
    }
  }

  /** `b` is `a` with both counters looked at. */
  ghost predicate AllSeen(a: Account, b: Account) {
    && b.up.loaded == a.up.counter && b.down.loaded == a.down.counter
    && CountersOf(b) == CountersOf(a) && CheckpointsOf(b) == CheckpointsOf(a)
  }

  ghost predicate QuietlyReported(a: Account, a': Account, uid: nat, ack: bool) {
    var delta := DeltaOf(uid, CountersOf(a), CheckpointsOf(a));
    && CountersOf(a') == CountersOf(a)
    && CheckpointsOf(a')
       == if ack && (delta.upload > 0 || delta.download > 0) then CountersOf(a) else CheckpointsOf(a)
  }

  lemma SettledFromSeen(a: Account, b: Account, uid: nat)
    requires AllSeen(a, b)
    ensures QuietlyReported(a, b.Settle(), uid, true) && QuietlyReported(a, b, uid, false)
    ensures !b.Claims() ==> QuietlyReported(a, b, uid, true)
  {
  }
}
