/** What a poll means for the listeners (`src/runtime/supervisor.rs:270-309`). */
module Reconciliation {
  import opened Bytes
  import opened Listeners
  import opened Panel
  import Tables

  /** The listeners a poll in carrier mode asks for: for each port the first carrier row, if
      its profile is supported. */
  ghost function CarrierTargets(c: Config, users: seq<PanelUser>): map<u16, Wish> {
    var first := ByPort(Carriers(users));
    map port | port in first && ProfileOf(c, first[port]).Some? ::
      WishOf(first[port], ProfileOf(c, first[port]).value)
  }

  lemma {:induction false} WantedRows(c: Config, rows: seq<PanelUser>, w: Wish)
    ensures w in Wanted(c, rows)
       <==> exists u :: u in rows && ProfileOf(c, u).Some? && w == WishOf(u, ProfileOf(c, u).value)
    decreases |rows|
  {
    if rows != [] {
      var n := |rows| - 1;
      WantedRows(c, rows[..n], w);
      hide ProfileOf;
      assert rows == rows[..n] + [rows[n]];
    }
  }

  lemma {:induction false} WantedDistinct(c: Config, rows: seq<PanelUser>)
    requires forall i, j :: 0 <= i < j < |rows| ==> rows[i].port != rows[j].port
    ensures DistinctPorts(Wanted(c, rows))
    decreases |rows|
  {
    if rows != [] {
      var n := |rows| - 1;
      hide ProfileOf;
      WantedDistinct(c, rows[..n]);
      forall w | w in Wanted(c, rows[..n]) ensures w.Port() != rows[n].port {
        WantedRows(c, rows[..n], w);
      }
    }
  }

  /** In carrier mode the wanted listeners are the targets, in some order. */
  lemma WantedAreTargets(c: Config, users: seq<PanelUser>, rows: seq<PanelUser>, w: Wish)
    requires Carriers(users) != [] && ListenerRows(users, rows)
    ensures w in Wanted(c, rows) <==> w.Port() in CarrierTargets(c, users) && CarrierTargets(c, users)[w.Port()] == w
  {
    WantedRows(c, rows, w);
    hide ProfileOf, Wanted;
    var first := ByPort(Carriers(users));
    ByPortKeysMatch(Carriers(users));
    if w.Port() in CarrierTargets(c, users) {
      assert first[w.Port()] in rows;
    }
  }

  /** The listeners of a runtime are `targets`: those that already asked for the same fingerprint
      are left alone, with their owner, and all others are new and belong to their row's user. */
  ghost predicate Reaches(r: Runtime, r': Runtime, targets: map<u16, Wish>) {
    && r'.active.Keys == targets.Keys
    && (forall port :: port in targets ==> r'.active[port].fingerprint == targets[port].fingerprint)
    && (forall port :: port in targets && port in r.active ==>
          (r'.active[port] == r.active[port] <==> r.active[port].fingerprint == targets[port].fingerprint))
    && (forall port :: port in targets && !AsBefore(r, targets, port) ==>
          r'.active[port].listener >= r.started && r'.active[port].owner == targets[port].userId)
  }

  /** The target of `port` is the fingerprint its listener already has. */
  ghost predicate AsBefore(r: Runtime, targets: map<u16, Wish>, port: u16)
    requires port in targets
  {
    port in r.active && r.active[port].fingerprint == targets[port].fingerprint
  }

  /** Reconciliation: after a successful carrier-mode poll the active ports are exactly the
      target ports, each with its target's fingerprint; a listener survives if and only if its
      fingerprint did not change, and all others are newly started. */
  lemma CarrierSync(c: Config, r: Runtime, users: seq<PanelUser>, rows: seq<PanelUser>)
    requires r.Valid() && Carriers(users) != [] && ListenerRows(users, rows)
    ensures Reaches(r, Reconcile(r, Wanted(c, rows)), CarrierTargets(c, users))
  {
    var targets := CarrierTargets(c, users);
    var wanted := Wanted(c, rows);
    WantedDistinct(c, rows);
    forall w ensures w in wanted <==> w.Port() in targets && targets[w.Port()] == w {
      WantedAreTargets(c, users, rows, w);
    }
    ByPortKeysMatch(Carriers(users));
    hide ProfileOf, Wanted, Reconcile, Carriers;
    assert forall port :: port in targets ==> targets[port].Port() == port;
    hide *;
    ReconcileTargets(r, wanted, targets);
  }

  lemma ReconcileTargets(r: Runtime, wanted: seq<Wish>, targets: map<u16, Wish>)
    requires r.Valid() && DistinctPorts(wanted)
    requires forall w :: w in wanted <==> w.Port() in targets && targets[w.Port()] == w
    requires forall port :: port in targets ==> targets[port].Port() == port
    ensures Reaches(r, Reconcile(r, wanted), targets)
  {
    ReconcileExact(r, wanted);
    hide Reconcile;
    forall port | port in targets
      ensures port in Ports(wanted)
      ensures Reconcile(r, wanted).active[port].fingerprint == targets[port].fingerprint
      ensures forall i :: 0 <= i < |wanted| && wanted[i].Port() == port ==> wanted[i] == targets[port]
    {
      var w := targets[port];
      assert w in wanted;
      var i :| 0 <= i < |wanted| && wanted[i] == w;
      assert IsLast(wanted, i);
    }
    hide Ports;
    forall port | port in targets && !Undisturbed(r, wanted, port)
      ensures Reconcile(r, wanted).active[port].owner == targets[port].userId
    {
      var a := Reconcile(r, wanted).active[port];
      assert Wish(a.fingerprint, a.owner) == targets[port];
    }
  }

  /** Users may come, go and change: while the carrier rows stay the same, a second poll leaves
      every listener exactly as it is, whatever the order of the hash map. */
  lemma NormalRowsTouchNoListener(c: Config, r: Runtime, users: seq<PanelUser>, rows: seq<PanelUser>,
                                  users': seq<PanelUser>, rows': seq<PanelUser>)
    requires r.Valid() && Carriers(users) != [] && Carriers(users') == Carriers(users)
    requires ListenerRows(users, rows) && ListenerRows(users', rows')
    ensures Reconcile(Reconcile(r, Wanted(c, rows)), Wanted(c, rows')) == Reconcile(r, Wanted(c, rows))
  {
    WantedDistinct(c, rows);
    forall w ensures w in Wanted(c, rows) <==> w in Wanted(c, rows') {
      WantedAreTargets(c, users, rows, w);
      WantedAreTargets(c, users', rows', w);
    }
    hide Wanted, Carriers;
    assert Fingerprints(Wanted(c, rows)) == Fingerprints(Wanted(c, rows'));
    ReconcileTwice(r, Wanted(c, rows), Wanted(c, rows'));
  }

  /** Two normal rows on one port that ask for different listeners: every poll of a panel without
      carrier rows restarts that port's listener, whatever ran there before. */
  lemma DifferingNormalRowsRestart(c: Config, r: Runtime, users: seq<PanelUser>, u: PanelUser, v: PanelUser)
    requires r.Valid() && Carriers(users) == [] && u in users && v in users && u.port == v.port
    requires ProfileOf(c, u).Some? && ProfileOf(c, v).Some?
    requires FingerprintOf(u, ProfileOf(c, u).value) != FingerprintOf(v, ProfileOf(c, v).value)
    ensures ListenerRows(users, users)
    ensures u.port in Reconcile(r, Wanted(c, users)).active
    ensures Reconcile(r, Wanted(c, users)).active[u.port].listener >= r.started
  {
    var wu, wv := WishOf(u, ProfileOf(c, u).value), WishOf(v, ProfileOf(c, v).value);
    WantedRows(c, users, wu);
    WantedRows(c, users, wv);
    hide ProfileOf, Wanted, Reconcile, Carriers;
    var wanted := Wanted(c, users);
    var i :| 0 <= i < |wanted| && wanted[i] == wu;
    var j :| 0 <= j < |wanted| && wanted[j] == wv;
    DifferingRowsRestart(r, wanted, i, j);
  }

  // ---- whose listeners run ----

  lemma {:induction false} CarriersAreRows(users: seq<PanelUser>, u: PanelUser)
    requires u in Carriers(users)
    ensures u in users
    decreases |users|
  {
    if u in Carriers(users[1..]) {
      CarriersAreRows(users[1..], u);
    }
  }

  lemma ListenerRowsAreRows(users: seq<PanelUser>, rows: seq<PanelUser>, u: PanelUser)
    requires ListenerRows(users, rows) && u in rows
    ensures u in users
  {
    if Carriers(users) != [] {
      ByPortIsARow(Carriers(users), u.port);
      CarriersAreRows(users, u);
    }
  }

  /** Whatever a poll starts belongs to a live user. */
  lemma WantedUsersAreLive(c: Config, users: seq<PanelUser>, rows: seq<PanelUser>, w: Wish)
    requires ListenerRows(users, rows) && w in Wanted(c, rows)
    ensures w.userId in Tables.LiveIds(users)
  {
    WantedRows(c, rows, w);
    hide ProfileOf, Wanted, ListenerRows;
    var u :| u in rows && ProfileOf(c, u).Some? && w == WishOf(u, ProfileOf(c, u).value);
    ListenerRowsAreRows(users, rows, u);
  }

  /** After a poll the listener of a port belongs to a live user if and only if it was not left
      alone, or was left alone and its owner is still among the rows' users. */
  lemma OwnerAfterPoll(c: Config, r: Runtime, users: seq<PanelUser>, rows: seq<PanelUser>, port: u16)
    requires r.Valid() && ListenerRows(users, rows) && port in Ports(Wanted(c, rows))
    ensures port in Reconcile(r, Wanted(c, rows)).active
    ensures Reconcile(r, Wanted(c, rows)).active[port].owner in Tables.LiveIds(users)
       <==> (Undisturbed(r, Wanted(c, rows), port) ==> r.active[port].owner in Tables.LiveIds(users))
  {
    forall w | w in Wanted(c, rows) ensures w.userId in Tables.LiveIds(users) {
      WantedUsersAreLive(c, users, rows, w);
    }
    hide Reconcile, Wanted, Undisturbed, Ports, ListenerRows, Tables.LiveIds;
    OwnerIsLive(r, Wanted(c, rows), Tables.LiveIds(users), port);
  }

  /** A row whose user id changes, and nothing else of its endpoint: the listener keeps the old
      id, which is no live user any more. */
  lemma RenumberedRowStrandsListener(c: Config, r: Runtime, row: PanelUser, renumbered: PanelUser)
    requires r.Valid() && row.port !in r.active && ProfileOf(c, row).Some?
    requires renumbered == row.(id := renumbered.id, namedId := renumbered.namedId)
    requires renumbered.UserId() != row.UserId()
    ensures ListenerRows([row], [row]) && ListenerRows([renumbered], [renumbered])
    ensures var after := Reconcile(Reconcile(r, Wanted(c, [row])), Wanted(c, [renumbered]));
      && row.port in after.active && after.active[row.port].owner == row.UserId()
      && after.active[row.port].owner !in Tables.LiveIds([renumbered])
  {
    var f := FingerprintOf(row, ProfileOf(c, row).value);
    var first, second := Wish(f, row.UserId()), Wish(f, renumbered.UserId());
    OneRow(c, row);
    OneRow(c, renumbered);
    assert ProfileOf(c, renumbered) == ProfileOf(c, row);
    hide ProfileOf, Wanted;
    assert Wanted(c, [row]) == [first] && Wanted(c, [renumbered]) == [second];
    hide ListenerRows, Reconcile;
    OwnerStays(r, first, second);
  }

  lemma OneRow(c: Config, u: PanelUser)
    requires ProfileOf(c, u).Some?
    ensures Wanted(c, [u]) == [WishOf(u, ProfileOf(c, u).value)]
    ensures ListenerRows([u], [u])
  {
    assert [u][..0] == [] && [u][1..] == [];
    assert Carriers([]) == [] && Wanted(c, []) == [];
    if u.IsCarrier() {
      assert Carriers([u]) == [u];
      assert ByPort([u]) == map[u.port := u] by { assert ByPort([]) == map[]; }
    }
  }
}
