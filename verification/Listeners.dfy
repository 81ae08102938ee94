/** Which listeners one poll starts, stops or leaves alone (`src/runtime/supervisor.rs:270-382`). */
module Listeners {
  import opened Bytes

  datatype Profile = Profile(method_: string, protocol: string, obfs: string, timeout: nat)

  /** Socket-level identity; nothing in it is about a single user. */
  datatype Fingerprint = Fingerprint(port: u16, password: Bytes, profile: Profile, isMultiUser: int)

  /** What a row asks for: a listener, and the user whose traffic it is when a client does not
      identify itself. The user is not part of the fingerprint. */
  datatype Wish = Wish(fingerprint: Fingerprint, userId: nat) {
    function Port(): u16 { fingerprint.port }
  }

  /** A running listener; every one that is ever started has a number of its own. `owner` is the
      user id it was started with. */
  datatype ActiveUser = ActiveUser(fingerprint: Fingerprint, owner: nat, listener: nat)

  datatype Runtime = Runtime(active: map<u16, ActiveUser>, started: nat) {
    ghost predicate Valid() {
      forall port :: port in active ==> active[port].listener < started && active[port].fingerprint.port == port
    }
  }

  function EnsureActive(r: Runtime, w: Wish): Runtime {
    if w.Port() in r.active && r.active[w.Port()].fingerprint == w.fingerprint then r
    else Runtime(r.active[w.Port() := ActiveUser(w.fingerprint, w.userId, r.started)], r.started + 1)
  }

  function EnsureAll(r: Runtime, wanted: seq<Wish>): Runtime
    decreases |wanted|
  {
    if wanted == [] then r
    else EnsureActive(EnsureAll(r, wanted[..|wanted| - 1]), wanted[|wanted| - 1])
  }

  function Ports(wanted: seq<Wish>): set<u16> {
    set w | w in wanted :: w.Port()
  }

  function Fingerprints(wanted: seq<Wish>): set<Fingerprint> {
    set w | w in wanted :: w.fingerprint
  }

  function DropStale(r: Runtime, live: set<u16>): Runtime {
    r.(active := map port | port in r.active && port in live :: r.active[port])
  }

  /** One poll's effect, for what its rows ask for in the order it goes through them. */
  function Reconcile(r: Runtime, wanted: seq<Wish>): Runtime {
    DropStale(EnsureAll(r, wanted), Ports(wanted))
  }

  /** Every row of the port asks for the fingerprint its listener already has. */
  ghost predicate Undisturbed(r: Runtime, wanted: seq<Wish>, port: u16) {
    && port in r.active && port in Ports(wanted)
    && forall i :: 0 <= i < |wanted| && wanted[i].Port() == port ==> wanted[i].fingerprint == r.active[port].fingerprint
  }

  // ---- what the order of the rows can and cannot do ----

  /** The last row of `port`. */
  ghost predicate IsLast(wanted: seq<Wish>, i: nat) {
    i < |wanted| && forall j :: i < j < |wanted| ==> wanted[j].Port() != wanted[i].Port()
  }

  lemma PortsOfAppend(init: seq<Wish>, w: Wish)
    ensures Ports(init + [w]) == Ports(init) + {w.Port()}
  {
  }

  lemma {:induction false} EnsureAllKeeps(r: Runtime, wanted: seq<Wish>)
    requires r.Valid()
    ensures EnsureAll(r, wanted).Valid() && EnsureAll(r, wanted).started >= r.started
    ensures EnsureAll(r, wanted).active.Keys == r.active.Keys + Ports(wanted)
    decreases |wanted|
  {
    if wanted != [] {
      var n := |wanted| - 1;
      EnsureAllKeeps(r, wanted[..n]);
      PortsOfAppend(wanted[..n], wanted[n]);
      hide Ports;
      assert wanted == wanted[..n] + [wanted[n]];
    }
  }

  /** The last row of a port decides. */
  lemma {:induction false} LastRowDecides(r: Runtime, wanted: seq<Wish>, i: nat)
    requires IsLast(wanted, i)
    ensures wanted[i].Port() in EnsureAll(r, wanted).active
    ensures EnsureAll(r, wanted).active[wanted[i].Port()].fingerprint == wanted[i].fingerprint
    decreases |wanted|
  {
    var n := |wanted| - 1;
    if i < n {
      assert forall j :: i < j < n ==> wanted[..n][j] == wanted[j];
      LastRowDecides(r, wanted[..n], i);
      assert wanted[n].Port() != wanted[i].Port();
    }
  }

  /** A listener is the same as before exactly when every row of its port asks for the
      fingerprint it already has; otherwise it is new, and belongs to the user of a row of the
      port that asks for what it now is. */
  lemma {:induction false} EnsureAllUntouched(r: Runtime, wanted: seq<Wish>, port: u16)
    requires r.Valid() && port in r.active
    ensures port in EnsureAll(r, wanted).active
    ensures EnsureAll(r, wanted).active[port] == r.active[port] || Restarted(r, wanted, port)
    ensures EnsureAll(r, wanted).active[port] == r.active[port]
       <==> forall i :: 0 <= i < |wanted| && wanted[i].Port() == port ==>
              wanted[i].fingerprint == r.active[port].fingerprint
    decreases |wanted|
  {
    if wanted != [] {
      var n := |wanted| - 1;
      EnsureAllUntouched(r, wanted[..n], port);
      EnsureAllKeeps(r, wanted[..n]);
      RestartedStays(r, wanted, port);
      hide Restarted, EnsureAll;
      assert forall i :: 0 <= i < n ==> wanted[..n][i] == wanted[i];
      EnsureAllUnfold(r, wanted);
    }
  }

  /** The listener of `port` is a new one, of a row that asks for it. */
  ghost predicate Restarted(r: Runtime, wanted: seq<Wish>, port: u16) {
    var after := EnsureAll(r, wanted).active;
    && port in after && after[port].listener >= r.started
    && Wish(after[port].fingerprint, after[port].owner) in wanted
  }

  lemma EnsureAllUnfold(r: Runtime, wanted: seq<Wish>)
    requires wanted != []
    ensures EnsureAll(r, wanted) == EnsureActive(EnsureAll(r, wanted[..|wanted| - 1]), wanted[|wanted| - 1])
  {
  }

  /** Later rows leave a new listener alone or put another new one in its place. */
  lemma RestartedStays(r: Runtime, wanted: seq<Wish>, port: u16)
    requires r.Valid() && wanted != []
    ensures Restarted(r, wanted[..|wanted| - 1], port) ==> Restarted(r, wanted, port)
    ensures port in EnsureAll(r, wanted).active ==>
      || Restarted(r, wanted, port)
      || (port in EnsureAll(r, wanted[..|wanted| - 1]).active
          && EnsureAll(r, wanted).active[port] == EnsureAll(r, wanted[..|wanted| - 1]).active[port])
  {
    EnsureAllKeeps(r, wanted[..|wanted| - 1]);
    EnsureAllUnfold(r, wanted);
    hide EnsureAll;
  }

  /** After a poll the active ports are exactly the wanted ones, each with its last row's
      fingerprint; a listener is kept, with its owner, if and only if all rows of its port ask
      for just what it is, and every other one is new and belongs to the user of its row. */
  lemma ReconcileExact(r: Runtime, wanted: seq<Wish>)
    requires r.Valid()
    ensures Reconcile(r, wanted).Valid()
    ensures Reconcile(r, wanted).active.Keys == Ports(wanted)
    ensures forall i :: 0 <= i < |wanted| && IsLast(wanted, i) ==>
      Reconcile(r, wanted).active[wanted[i].Port()].fingerprint == wanted[i].fingerprint
    ensures forall port :: port in Ports(wanted) && port in r.active ==>
      (Reconcile(r, wanted).active[port] == r.active[port] <==> Undisturbed(r, wanted, port))
    ensures forall port :: port in Ports(wanted) && !Undisturbed(r, wanted, port) ==>
      var a := Reconcile(r, wanted).active[port];
      a.listener >= r.started && Wish(a.fingerprint, a.owner) in wanted
  {
    EnsureAllKeeps(r, wanted);
    forall i | 0 <= i < |wanted| && IsLast(wanted, i)
      ensures EnsureAll(r, wanted).active[wanted[i].Port()].fingerprint == wanted[i].fingerprint
    {
      LastRowDecides(r, wanted, i);
    }
    forall port | port in Ports(wanted)
      ensures port in r.active ==>
          (EnsureAll(r, wanted).active[port] == r.active[port] <==> Undisturbed(r, wanted, port))
      ensures !Undisturbed(r, wanted, port) ==> Restarted(r, wanted, port)
    {
      if port in r.active {
        EnsureAllUntouched(r, wanted, port);
      } else {
        EnsureAllNew(r, wanted, port);
      }
    }
  }

  lemma {:induction false} EnsureAllNew(r: Runtime, wanted: seq<Wish>, port: u16)
    requires r.Valid() && port !in r.active
    ensures port in EnsureAll(r, wanted).active ==> Restarted(r, wanted, port)
    decreases |wanted|
  {
    if wanted != [] {
      RestartedStays(r, wanted, port);
      EnsureAllNew(r, wanted[..|wanted| - 1], port);
    }
  }

  ghost predicate DistinctPorts(wanted: seq<Wish>) {
    forall i, j :: 0 <= i < j < |wanted| ==> wanted[i].Port() != wanted[j].Port()
  }

  /** A second poll that asks for the same listeners, in any order and for any users, touches none. */
  lemma {:induction false} AllSatisfied(r: Runtime, wanted: seq<Wish>)
    requires forall w :: w in wanted ==> w.Port() in r.active && r.active[w.Port()].fingerprint == w.fingerprint
    ensures EnsureAll(r, wanted) == r
    decreases |wanted|
  {
    if wanted != [] {
      AllSatisfied(r, wanted[..|wanted| - 1]);
    }
  }

  lemma ReconcileTwice(r: Runtime, first: seq<Wish>, second: seq<Wish>)
    requires r.Valid() && DistinctPorts(first)
    requires Fingerprints(first) == Fingerprints(second)
    ensures Reconcile(Reconcile(r, first), second) == Reconcile(r, first)
  {
    ReconcileExact(r, first);
    var r1 := Reconcile(r, first);
    forall w | w in second ensures w.Port() in r1.active && r1.active[w.Port()].fingerprint == w.fingerprint {
      assert w.fingerprint in Fingerprints(first);
      var i :| 0 <= i < |first| && first[i].fingerprint == w.fingerprint;
      assert IsLast(first, i);
      assert first[i].Port() in Ports(first);
    }
    AllSatisfied(r1, second);
    SamePorts(first, second);
  }

  lemma SamePorts(first: seq<Wish>, second: seq<Wish>)
    requires Fingerprints(first) == Fingerprints(second)
    ensures Ports(first) == Ports(second)
  {
    forall port ensures port in Ports(first) <==> port in Ports(second) {
      PortsOfFingerprints(first, port);
      PortsOfFingerprints(second, port);
    }
  }

  lemma PortsOfFingerprints(wanted: seq<Wish>, port: u16)
    ensures port in Ports(wanted) <==> exists f :: f in Fingerprints(wanted) && f.port == port
  {
    if port in Ports(wanted) {
      var w :| w in wanted && w.Port() == port;
      assert w.fingerprint in Fingerprints(wanted);
    }
  }

  lemma {:induction false} LastRowExists(wanted: seq<Wish>, i: nat) returns (last: nat)
    requires i < |wanted|
    ensures IsLast(wanted, last) && wanted[last].Port() == wanted[i].Port()
    decreases |wanted| - i
  {
    if IsLast(wanted, i) {
      last := i;
    } else {
      var j :| i < j < |wanted| && wanted[j].Port() == wanted[i].Port();
      last := LastRowExists(wanted, j);
    }
  }

  /** Rows that share a port ask for the same listener. */
  ghost predicate RowsAgree(wanted: seq<Wish>) {
    forall i, j :: 0 <= i < |wanted| && 0 <= j < |wanted| && wanted[i].Port() == wanted[j].Port() ==>
      wanted[i].fingerprint == wanted[j].fingerprint
  }

  /** Two differing rows on one port: whatever is running there is replaced, on every poll. */
  lemma DifferingRowsRestart(r: Runtime, wanted: seq<Wish>, i: nat, j: nat)
    requires r.Valid() && i < |wanted| && j < |wanted|
    requires wanted[i].Port() == wanted[j].Port() && wanted[i].fingerprint != wanted[j].fingerprint
    ensures wanted[i].Port() in Reconcile(r, wanted).active
    ensures Reconcile(r, wanted).active[wanted[i].Port()].listener >= r.started
  {
    ReconcileExact(r, wanted);
    assert wanted[i].Port() in Ports(wanted);
    assert !Undisturbed(r, wanted, wanted[i].Port());
  }

  /** Polling the same rows again touches no listener if and only if rows that share a port
      agree. In carrier mode they always do; two differing normal rows on one port take the
      listener from each other on every poll. */
  lemma ResyncTouchesNothing(r: Runtime, wanted: seq<Wish>)
    requires r.Valid()
    ensures Reconcile(Reconcile(r, wanted), wanted) == Reconcile(r, wanted) <==> RowsAgree(wanted)
  {
    ReconcileExact(r, wanted);
    var r1 := Reconcile(r, wanted);
    if RowsAgree(wanted) {
      forall w | w in wanted ensures w.Port() in r1.active && r1.active[w.Port()].fingerprint == w.fingerprint {
        var i :| 0 <= i < |wanted| && wanted[i] == w;
        var last := LastRowExists(wanted, i);
      }
      AllSatisfied(r1, wanted);
    } else {
      var i, j :| 0 <= i < |wanted| && 0 <= j < |wanted| && wanted[i].Port() == wanted[j].Port()
               && wanted[i].fingerprint != wanted[j].fingerprint;
      DifferingRowsRestart(r1, wanted, i, j);
      assert wanted[i].Port() in Ports(wanted);
    }
  }

  // ---- whose listeners run ----

  /** When every row's user is live, a port's listener belongs to a live user unless it was left
      alone and its owner is gone: nobody tells a running listener of its row's new user. */
  lemma OwnerIsLive(r: Runtime, wanted: seq<Wish>, live: set<nat>, port: u16)
    requires r.Valid() && port in Ports(wanted) && forall w :: w in wanted ==> w.userId in live
    ensures port in Reconcile(r, wanted).active
    ensures Reconcile(r, wanted).active[port].owner in live
       <==> (Undisturbed(r, wanted, port) ==> r.active[port].owner in live)
  {
    ReconcileExact(r, wanted);
  }

  /** Two polls with one row each, the second for another user: the first user stays the owner. */
  lemma OwnerStays(r: Runtime, first: Wish, second: Wish)
    requires r.Valid() && first.Port() !in r.active && first.fingerprint == second.fingerprint
    ensures var after := Reconcile(Reconcile(r, [first]), [second]);
      first.Port() in after.active && after.active[first.Port()].owner == first.userId
  {
    ReconcileExact(r, [first]);
    assert first in [first] && first.Port() in Ports([first]);
    var r1 := Reconcile(r, [first]);
    ReconcileExact(r1, [second]);
    assert second in [second] && second.Port() in Ports([second]);
    hide Reconcile;
    assert Undisturbed(r1, [second], first.Port());
  }
}
