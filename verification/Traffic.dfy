/** Two-phase traffic reporting (`src/traffic.rs:13-105`, `src/runtime/supervisor.rs:384-392`).

    Relay tasks add to the counters at any moment, also while the supervisor reads them one
    by one, posts the differences to the panel, and moves the checkpoints on an ACK.
 */
module Traffic {
  import Bytes
  import opened Maps

  const TWO64: nat := 0x1_0000_0000_0000_0000

  type u64 = x: int | 0 <= x < TWO64

  /** `fetch_add` wraps. */
  function WrapAdd64(a: u64, n: u64): u64 { (a + n) % TWO64 }

  function SaturatingSub(a: u64, b: u64): u64 { if a >= b then a - b else 0 }

  // ---- one counter of one user ----

  /** `recorded` and `acked` are the bytes relayed and the bytes the panel acknowledged since
      the user was added; `loaded` is what the report in progress read. */
  datatype Cell = Cell(counter: u64, checkpoint: u64, loaded: u64, recorded: nat, acked: nat) {
    function Record(n: u64): Cell { this.(counter := WrapAdd64(counter, n), recorded := recorded + n) }

    function Load(): Cell { this.(loaded := counter) }

    /** What the report in progress claims. */
    function Claim(): u64 { SaturatingSub(loaded, checkpoint) }

    /** What the next report would claim. */
    function Unreported(): u64 { SaturatingSub(counter, checkpoint) }

    function Settle(): Cell { this.(acked := acked + Claim(), checkpoint := loaded) }

    /** Bytes that no report, past or future, accounts for, when nothing saturates. */
    ghost function Gap(): int { recorded - acked - (counter - checkpoint) }

    /** Every recorded byte was acknowledged or will be claimed. */
    predicate Conserved() { acked + Unreported() == recorded }
  }

  const EMPTY_CELL: Cell := Cell(0, 0, 0, 0, 0)

  /** Without a wrap nothing is missing and checkpoint <= loaded <= counter; once the counter
      has wrapped, something is missing for good. */
  ghost predicate CellInvariant(c: Cell, inReport: bool) {
    && (c.recorded < TWO64 ==> c.Gap() == 0 && c.checkpoint <= c.counter && c.counter == c.recorded)
    && (c.recorded >= TWO64 ==> c.Gap() > 0)
    && (c.counter < c.checkpoint ==> c.Gap() > c.checkpoint - c.counter)
    && (inReport ==>
          && (c.recorded < TWO64 ==> c.checkpoint <= c.loaded <= c.counter)
          && (c.loaded < c.checkpoint ==> c.Gap() > c.checkpoint - c.loaded)
          && (c.counter < c.loaded ==>
                c.Gap() >= TWO64 + if c.loaded < c.checkpoint then c.checkpoint - c.loaded else 0))
  }

  lemma RecordKeeps(c: Cell, n: u64, inReport: bool)
    requires CellInvariant(c, inReport)
    ensures CellInvariant(c.Record(n), inReport)
  {
    if c.counter + n >= TWO64 {
      assert WrapAdd64(c.counter, n) == c.counter + n - TWO64;
    }
  }

  lemma LoadKeeps(c: Cell, inReport: bool)
    requires CellInvariant(c, inReport)
    ensures CellInvariant(c.Load(), true)
  {
  }

  lemma SettleKeeps(c: Cell)
    requires CellInvariant(c, true)
    ensures CellInvariant(c.Settle(), false)
  {
  }

  // ---- all users ----

  /** How far the scan of a report has come with one user. */
  datatype Stage = Unread | UploadRead | Read

  datatype Account = Account(up: Cell, down: Cell, stage: Stage) {
    /** Whether the report includes this user. */
    predicate Claims() { up.Claim() > 0 || down.Claim() > 0 }

    function Settle(): Account {
      if Claims() then this.(up := up.Settle(), down := down.Settle(), stage := Unread)
      else this.(stage := Unread)
    }
  }

  datatype Phase = Idle | Scanning | Posted

  datatype World = World(phase: Phase, accounts: map<nat, Account>)

  const EMPTY_WORLD := World(Idle, map[])

  /** The atomic steps. The supervisor's own run one after another, so users come and go only
      between reports; uploads and downloads are recorded in between any two of them. */
  datatype Action =
    | EnsureUser(uid: nat)
    | RemoveStale(live: set<nat>)
    | RecordUpload(uid: nat, bytes: u64)
    | RecordDownload(uid: nat, bytes: u64)
    | BeginReport
    | LoadUpload(uid: nat)
    | LoadDownload(uid: nat)
    | PostDeltas
    | Acknowledged
    | ReportFailed

  predicate Enabled(w: World, a: Action) {
    match a
    case EnsureUser(_) => w.phase == Idle
    case RemoveStale(_) => w.phase == Idle
    case RecordUpload(uid, _) => uid in w.accounts
    case RecordDownload(uid, _) => uid in w.accounts
    case BeginReport => w.phase == Idle
    case LoadUpload(uid) => w.phase == Scanning && uid in w.accounts && w.accounts[uid].stage == Unread
    case LoadDownload(uid) => w.phase == Scanning && uid in w.accounts && w.accounts[uid].stage == UploadRead
    case PostDeltas => w.phase == Scanning && forall uid :: uid in w.accounts ==> w.accounts[uid].stage == Read
    case Acknowledged => w.phase == Posted
    case ReportFailed => w.phase == Posted
  }

  function Perform(w: World, a: Action): World
    requires Enabled(w, a)
  {
    match a
    case EnsureUser(uid) =>
      if uid in w.accounts then w
      else w.(accounts := w.accounts[uid := Account(EMPTY_CELL, EMPTY_CELL, Unread)])
    case RemoveStale(live) =>
      w.(accounts := map uid | uid in w.accounts && uid in live :: w.accounts[uid])
    case RecordUpload(uid, n) =>
      w.(accounts := w.accounts[uid := w.accounts[uid].(up := w.accounts[uid].up.Record(n))])
    case RecordDownload(uid, n) =>
      w.(accounts := w.accounts[uid := w.accounts[uid].(down := w.accounts[uid].down.Record(n))])
    case BeginReport =>
      World(Scanning, map uid | uid in w.accounts :: w.accounts[uid].(stage := Unread))
    case LoadUpload(uid) =>
      w.(accounts := w.accounts[uid := w.accounts[uid].(up := w.accounts[uid].up.Load(), stage := UploadRead)])
    case LoadDownload(uid) =>
      w.(accounts := w.accounts[uid := w.accounts[uid].(down := w.accounts[uid].down.Load(), stage := Read)])
    case PostDeltas =>
      w.(phase := if exists uid :: uid in w.accounts && w.accounts[uid].Claims() then Posted else Idle)
    case Acknowledged =>
      World(Idle, map uid | uid in w.accounts :: w.accounts[uid].Settle())
    case ReportFailed =>
      w.(phase := Idle)
  }

  ghost predicate AccountInvariant(a: Account, phase: Phase) {
    && CellInvariant(a.up, phase != Idle && a.stage != Unread)
    && CellInvariant(a.down, phase != Idle && a.stage == Read)
    && (phase == Posted ==> a.stage == Read)
  }

  ghost predicate Invariant(w: World) {
    forall uid :: uid in w.accounts ==> AccountInvariant(w.accounts[uid], w.phase)
  }

  lemma SettleAccountKeeps(a: Account)
    requires AccountInvariant(a, Posted)
    ensures AccountInvariant(a.Settle(), Idle)
  {
    SettleKeeps(a.up);
    SettleKeeps(a.down);
  }

  lemma EmptyCellHolds()
    ensures CellInvariant(EMPTY_CELL, false)
  {
  }

  /** A report that begins, or ends without an ACK, changes no cell. */
  lemma RestageKeeps(a: Account, phase: Phase, a': Account, phase': Phase)
    requires AccountInvariant(a, phase) && a'.up == a.up && a'.down == a.down
    requires phase' == Idle || a'.stage == Unread || a' == a
    requires phase' == Posted ==> a'.stage == Read
    requires phase == Idle ==> phase' == Idle || a'.stage == Unread
    ensures AccountInvariant(a', phase')
  {
  }

  lemma ActionKeepsInvariant(w: World, a: Action)
    requires Invariant(w) && Enabled(w, a)
    ensures Invariant(Perform(w, a))
  {
    hide CellInvariant;
    var w' := Perform(w, a);
    match a
    case EnsureUser(uid) =>
      EmptyCellHolds();
    case BeginReport =>
      forall uid | uid in w.accounts ensures AccountInvariant(w'.accounts[uid], w'.phase) {
        RestageKeeps(w.accounts[uid], w.phase, w'.accounts[uid], w'.phase);
      }
    case PostDeltas =>
      forall uid | uid in w.accounts ensures AccountInvariant(w'.accounts[uid], w'.phase) {
        RestageKeeps(w.accounts[uid], w.phase, w'.accounts[uid], w'.phase);
      }
    case ReportFailed =>
      forall uid | uid in w.accounts ensures AccountInvariant(w'.accounts[uid], w'.phase) {
        RestageKeeps(w.accounts[uid], w.phase, w'.accounts[uid], w'.phase);
      }
    case RecordUpload(uid, n) =>
      var x := w.accounts[uid];
      RecordKeeps(x.up, n, w.phase != Idle && x.stage != Unread);
    case RecordDownload(uid, n) =>
      var x := w.accounts[uid];
      RecordKeeps(x.down, n, w.phase != Idle && x.stage == Read);
    case LoadUpload(uid) =>
      LoadKeeps(w.accounts[uid].up, false);
    case LoadDownload(uid) =>
      LoadKeeps(w.accounts[uid].down, false);
    case Acknowledged =>
      forall uid | uid in w.accounts
        ensures AccountInvariant(w.accounts[uid].Settle(), Idle)
      {
        SettleAccountKeeps(w.accounts[uid]);
      }
    case _ =>
  }

  /** `actions` is a run from the empty ledger, ending in `w`. */
  ghost predicate RunsTo(actions: seq<Action>, w: World)
    decreases |actions|
  {
    if actions == [] then w == EMPTY_WORLD
    else
      var n := |actions| - 1;
      exists before: World ::
        RunsTo(actions[..n], before) && Enabled(before, actions[n]) && w == Perform(before, actions[n])
  }

  lemma {:induction false} RunKeepsInvariant(actions: seq<Action>, w: World)
    requires RunsTo(actions, w)
    ensures Invariant(w)
    decreases |actions|
  {
    if actions != [] {
      var n := |actions| - 1;
      var before: World :|
          RunsTo(actions[..n], before) && Enabled(before, actions[n]) && w == Perform(before, actions[n]);
      RunKeepsInvariant(actions[..n], before);
      ActionKeepsInvariant(before, actions[n]);
    }
  }

  /** Traffic conservation, in every reachable state and each direction: acknowledged plus
      unreported bytes are the bytes recorded exactly as long as these fit the 64-bit counter,
      and never more; and until then no subtraction ever saturates. */
  lemma TrafficConservation(actions: seq<Action>, w: World, uid: nat)
    requires RunsTo(actions, w) && uid in w.accounts
    ensures var a := w.accounts[uid];
      && (a.up.Conserved() <==> a.up.recorded < TWO64)
      && (a.down.Conserved() <==> a.down.recorded < TWO64)
      && a.up.acked + a.up.Unreported() <= a.up.recorded
      && a.down.acked + a.down.Unreported() <= a.down.recorded
      && (a.up.recorded < TWO64 ==> a.up.checkpoint <= a.up.counter)
      && (a.down.recorded < TWO64 ==> a.down.checkpoint <= a.down.counter)
      && (w.phase == Posted ==>
            && (a.up.recorded < TWO64 ==> a.up.checkpoint <= a.up.loaded)
            && (a.down.recorded < TWO64 ==> a.down.checkpoint <= a.down.loaded))
  {
    RunKeepsInvariant(actions, w);
    assert AccountInvariant(w.accounts[uid], w.phase);
  }

  lemma RunExtends(actions: seq<Action>, w: World, a: Action)
    requires RunsTo(actions, w) && Enabled(w, a)
    ensures RunsTo(actions + [a], Perform(w, a))
  {
    assert (actions + [a])[..|actions|] == actions;
  }

  ghost predicate ByReads(actions: seq<Action>) {
    forall a :: a in actions && a.RecordUpload? ==> a.bytes <= Bytes.READ_CHUNK
  }

  /** The ledger of one user who has uploaded `total` bytes since it was added. */
  function Uploaded(uid: nat, total: u64): World {
    World(Idle, map[uid := Account(Cell(total, 0, 0, total, 0), EMPTY_CELL, Unread)])
  }

  /** A connection that reads `n` full buffers. */
  lemma {:induction false} FullReads(uid: nat, n: nat) returns (actions: seq<Action>)
    requires n * Bytes.READ_CHUNK < TWO64
    ensures RunsTo(actions, Uploaded(uid, n * Bytes.READ_CHUNK)) && ByReads(actions)
    decreases n
  {
    if n == 0 {
      RunExtends([], EMPTY_WORLD, EnsureUser(uid));
      actions := [] + [EnsureUser(uid)];
    } else {
      var earlier := FullReads(uid, n - 1);
      var read := RecordUpload(uid, Bytes.READ_CHUNK);
      OneMoreRead(uid, (n - 1) * Bytes.READ_CHUNK);
      hide Perform, Enabled, Uploaded;
      RunExtends(earlier, Uploaded(uid, (n - 1) * Bytes.READ_CHUNK), read);
      actions := earlier + [read];
    }
  }

  lemma OneMoreRead(uid: nat, total: nat)
    requires total + Bytes.READ_CHUNK < TWO64
    ensures Enabled(Uploaded(uid, total), RecordUpload(uid, Bytes.READ_CHUNK))
    ensures Perform(Uploaded(uid, total), RecordUpload(uid, Bytes.READ_CHUNK))
         == Uploaded(uid, total + Bytes.READ_CHUNK)
  {
  }

  /** The bound is needed: when reads of at most 16 KiB, with no report among them, add up to
      2^64 bytes, the counter wraps and all of them are lost. */
  lemma WrapLosesTraffic() returns (actions: seq<Action>, w: World)
    ensures RunsTo(actions, w) && ByReads(actions) && 7 in w.accounts
    ensures w.accounts[7].up.recorded == TWO64
    ensures w.accounts[7].up.acked + w.accounts[7].up.Unreported() == 0
  {
    var n := TWO64 / Bytes.READ_CHUNK - 1;
    var earlier := FullReads(7, n);
    var before := Uploaded(7, n * Bytes.READ_CHUNK);
    var last := RecordUpload(7, Bytes.READ_CHUNK);
    RunExtends(earlier, before, last);
    actions, w := earlier + [last], Perform(before, last);
  }

  // ---- the ledger in place ----

  datatype CounterSnapshot = CounterSnapshot(upload: u64, download: u64)

  datatype TrafficDelta = TrafficDelta(userId: nat, upload: u64, download: u64, checkpoint: CounterSnapshot)

  const NO_TRAFFIC := CounterSnapshot(0, 0)

  class UserCounters {
    var upload: u64
    var download: u64

    constructor ()
      ensures Snapshot() == NO_TRAFFIC
    {
      upload, download := 0, 0;
    }

    function Snapshot(): CounterSnapshot
      reads this
    {
      CounterSnapshot(upload, download)
    }

    method RecordUploaded(bytes: u64)
      modifies this
      ensures Snapshot() == CounterSnapshot(WrapAdd64(old(upload), bytes), old(download))
    {
      upload := WrapAdd64(upload, bytes);
    }

    method RecordDownloaded(bytes: u64)
      modifies this
      ensures Snapshot() == CounterSnapshot(old(upload), WrapAdd64(old(download), bytes))
    {
      download := WrapAdd64(download, bytes);
    }
  }

  /** What `counters` read now exceeds their checkpoint by. */
  function DeltaOf(uid: nat, current: CounterSnapshot, checkpoint: CounterSnapshot): (d: TrafficDelta)
    ensures d.userId == uid
  {
    TrafficDelta(uid, SaturatingSub(current.upload, checkpoint.upload),
                 SaturatingSub(current.download, checkpoint.download), current)
  }

  /** A delta is what the world's report claims of an account once both counters are read, and
      settling the account is moving its checkpoint to the delta's. */
  lemma DeltaIsClaim(a: Account, uid: nat)
    ensures var d := DeltaOf(uid, CounterSnapshot(a.up.loaded, a.down.loaded),
                             CounterSnapshot(a.up.checkpoint, a.down.checkpoint));
      && d.upload == a.up.Claim() && d.download == a.down.Claim()
      && (a.Claims() <==> d.upload > 0 || d.download > 0)
      && CounterSnapshot(a.Settle().up.checkpoint, a.Settle().down.checkpoint)
         == (if a.Claims() then d.checkpoint else CounterSnapshot(a.up.checkpoint, a.down.checkpoint))
      && a.Settle().up.acked == a.up.acked + d.upload
      && a.Settle().down.acked == a.down.acked + d.download
  {
  }

  /** No later delta is of the same user. */
  ghost predicate LastOf(deltas: seq<TrafficDelta>, i: int)
    requires 0 <= i < |deltas|
  {
    forall j :: i < j < |deltas| ==> deltas[j].userId != deltas[i].userId
  }

  /** Checkpoints after the deltas of an ACK, for users still known. */
  function Moved(checkpoints: map<nat, CounterSnapshot>, known: set<nat>, deltas: seq<TrafficDelta>)
    : (r: map<nat, CounterSnapshot>)
    ensures known <= checkpoints.Keys ==> r.Keys == checkpoints.Keys
    decreases |deltas|
  {
    if deltas == [] then checkpoints
    else
      var n := |deltas| - 1;
      var earlier := Moved(checkpoints, known, deltas[..n]);
      if deltas[n].userId in known then earlier[deltas[n].userId := deltas[n].checkpoint] else earlier
  }

  lemma {:induction false} LastDeltaDecides(checkpoints: map<nat, CounterSnapshot>, known: set<nat>,
                                            deltas: seq<TrafficDelta>, i: nat)
    requires i < |deltas| && deltas[i].userId in known && LastOf(deltas, i)
    ensures deltas[i].userId in Moved(checkpoints, known, deltas)
    ensures Moved(checkpoints, known, deltas)[deltas[i].userId] == deltas[i].checkpoint
    decreases |deltas|
  {
    var n := |deltas| - 1;
    if i < n {
      assert forall j :: i < j < n ==> deltas[..n][j] == deltas[j];
      LastDeltaDecides(checkpoints, known, deltas[..n], i);
      assert deltas[n].userId != deltas[i].userId;
    }
  }

  lemma {:induction false} OthersUnmoved(checkpoints: map<nat, CounterSnapshot>, known: set<nat>,
                                         deltas: seq<TrafficDelta>, uid: nat)
    requires uid in checkpoints && forall i :: 0 <= i < |deltas| ==> deltas[i].userId != uid
    ensures uid in Moved(checkpoints, known, deltas)
    ensures Moved(checkpoints, known, deltas)[uid] == checkpoints[uid]
    decreases |deltas|
  {
    if deltas != [] {
      OthersUnmoved(checkpoints, known, deltas[..|deltas| - 1], uid);
    }
  }

  class TrafficLedger {
    var counters: map<nat, UserCounters>
    var checkpoints: map<nat, CounterSnapshot>

    /** Users share no counter, and each has a checkpoint. */
    ghost predicate Valid()
      reads this
    {
      && counters.Keys == checkpoints.Keys
      && forall u, v :: u in counters && v in counters && u != v ==> counters[u] != counters[v]
    }

    constructor ()
      ensures Valid() && counters == map[]
    {
      counters, checkpoints := map[], map[];
    }

    method EnsureUser(uid: nat) returns (c: UserCounters)
      requires Valid()
      modifies this
      ensures Valid()
      ensures counters == Ensured(old(counters), uid, c)
      ensures checkpoints == Ensured(old(checkpoints), uid, NO_TRAFFIC)
      ensures uid in old(counters) ==> c == old(counters[uid])
      ensures uid !in old(counters) ==> fresh(c) && c.Snapshot() == NO_TRAFFIC
    {
      if uid in counters {
        return counters[uid];
      }
      if uid !in checkpoints {
        checkpoints := checkpoints[uid := NO_TRAFFIC];
      }
      c := new UserCounters();
      assert forall u :: u in counters ==> counters[u] != c by {
        assert forall u :: u in counters ==> old(allocated(counters[u]));
      }
      counters := counters[uid := c];
    }

    method RemoveStaleUsers(live: set<nat>)
      requires Valid()
      modifies this
      ensures Valid()
      ensures counters == Restricted(old(counters), live)
      ensures checkpoints == Restricted(old(checkpoints), live)
    {
      counters := map u | u in counters && u in live :: counters[u];
      checkpoints := map u | u in checkpoints && u in live :: checkpoints[u];
    }

    /** One delta for each user with unreported traffic, none for the others. */
    method PendingDeltas() returns (deltas: seq<TrafficDelta>)
      requires Valid()
      ensures forall i :: 0 <= i < |deltas| ==>
        && deltas[i].userId in counters
        && deltas[i] == DeltaOf(deltas[i].userId, counters[deltas[i].userId].Snapshot(), checkpoints[deltas[i].userId])
        && (deltas[i].upload > 0 || deltas[i].download > 0)
      ensures forall i, j :: 0 <= i < j < |deltas| ==> deltas[i].userId != deltas[j].userId
      ensures forall uid :: uid in counters ==>
        var d := DeltaOf(uid, counters[uid].Snapshot(), checkpoints[uid]);
        d.upload > 0 || d.download > 0 ==> d in deltas
    {
      hide DeltaOf, UserCounters.Snapshot;
      deltas := [];
      var todo := counters.Keys;
      while todo != {}
        invariant todo <= counters.Keys
        invariant forall i :: 0 <= i < |deltas| ==>
          && deltas[i].userId in counters && deltas[i].userId !in todo
          && deltas[i]
              == DeltaOf(deltas[i].userId, counters[deltas[i].userId].Snapshot(), checkpoints[deltas[i].userId])
          && (deltas[i].upload > 0 || deltas[i].download > 0)
        invariant forall i, j :: 0 <= i < j < |deltas| ==> deltas[i].userId != deltas[j].userId
        invariant forall uid :: uid in counters && uid !in todo ==>
          var d := DeltaOf(uid, counters[uid].Snapshot(), checkpoints[uid]);
          d.upload > 0 || d.download > 0 ==> d in deltas
        decreases |todo|
      {
        var uid :| uid in todo;
        todo := todo - {uid};
        var current := counters[uid].Snapshot();
        var checkpoint := if uid in checkpoints then checkpoints[uid] else NO_TRAFFIC;
        var delta := DeltaOf(uid, current, checkpoint);
        if delta.upload > 0 || delta.download > 0 {
          deltas := deltas + [delta];
        }
      }
    }

    /** After an ACK: the checkpoints become what was read, not what the counters are by now. */
    method MarkReported(deltas: seq<TrafficDelta>)
      requires Valid()
      modifies this`checkpoints
      ensures Valid()
      ensures checkpoints == Moved(old(checkpoints), counters.Keys, deltas)
    {
      for k := 0 to |deltas|
        invariant checkpoints == Moved(old(checkpoints), counters.Keys, deltas[..k])
      {
        assert deltas[..k + 1][..k] == deltas[..k];
        if deltas[k].userId in counters {
          checkpoints := checkpoints[deltas[k].userId := deltas[k].checkpoint];
        }
      }
      assert deltas[..|deltas|] == deltas;
    }

    /** A report no relay task interferes with; `ack` is the panel's answer. */
    method ReportTraffic(ack: bool) returns (deltas: seq<TrafficDelta>)
      requires Valid()
      modifies this`checkpoints
      ensures Valid()
      ensures !ack ==> checkpoints == old(checkpoints)
      ensures forall uid :: uid in counters ==>
        var d := DeltaOf(uid, counters[uid].Snapshot(), old(checkpoints)[uid]);
        if d.upload > 0 || d.download > 0
        then d in deltas && (ack ==> checkpoints[uid] == counters[uid].Snapshot())
        else checkpoints[uid] == old(checkpoints)[uid]
    {
      deltas := PendingDeltas();
      if |deltas| == 0 {
        return;
      }
      forall uid | uid in counters && (forall i :: 0 <= i < |deltas| ==> deltas[i].userId != uid)
        ensures Moved(checkpoints, counters.Keys, deltas)[uid] == checkpoints[uid]
      {
        OthersUnmoved(checkpoints, counters.Keys, deltas, uid);
      }
      forall i | 0 <= i < |deltas|
        ensures Moved(checkpoints, counters.Keys, deltas)[deltas[i].userId] == deltas[i].checkpoint
      {
        LastDeltaDecides(checkpoints, counters.Keys, deltas, i);
      }
      if ack {
        MarkReported(deltas);
      }
    }
  }
}
