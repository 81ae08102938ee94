/** The panel's rows, and the listeners they ask for (`src/runtime/supervisor.rs:270-296`,
    `src/runtime/supervisor.rs:479-505`). */
module Panel {
  import opened Bytes
  import opened Policy
  import Traffic
  import RateLimit
  import opened Listeners

  datatype PanelUser = PanelUser(
    id: nat,
    namedId: Option<nat>,
    port: u16,
    password: Bytes,
    method_: Option<string>,
    protocol: Option<string>,
    obfs: Option<string>,
    isMultiUser: int,
    speedLimitMbit: Option<real>,
    connector: Option<int>,
    forbiddenIps: seq<Cidr>,
    forbiddenPorts: seq<PortRange>)
  {
    function UserId(): nat { if namedId.Some? then namedId.value else id }

    predicate IsCarrier() { isMultiUser != 0 }

    /** `as u64` saturates, `as u32` drops the high bits. */
    function UserPolicyOf(): UserPolicy {
      var mbits := if speedLimitMbit.Some? then RateLimit.Max(speedLimitMbit.value, 0.0) else 0.0;
      var bps := (mbits * 1024.0 * 1024.0 / 8.0).Floor;
      var connections := if connector.Some? && connector.value > 0 then connector.value else 0;
      UserPolicy(if bps < 0 then 0 else if bps >= Traffic.TWO64 then Traffic.TWO64 - 1 else bps,
                 connections % 0x1_0000_0000, forbiddenIps, forbiddenPorts)
    }
  }

  datatype Config = Config(method_: string, protocol: string, obfs: string, timeout: nat, maxUsers: nat)

  function ToAsciiLower(s: string): string {
    seq(|s|, i requires 0 <= i < |s| => if 'A' <= s[i] <= 'Z' then s[i] + 32 as char else s[i])
  }

  /** The profile of a row, with the node's settings for what the row leaves open. */
  function ProfileOf(c: Config, u: PanelUser): Option<Profile> {
    var p := Profile(ToAsciiLower(if u.method_.Some? then u.method_.value else c.method_),
                     ToAsciiLower(if u.protocol.Some? then u.protocol.value else c.protocol),
                     ToAsciiLower(if u.obfs.Some? then u.obfs.value else c.obfs),
                     c.timeout);
    if (p.method_ == "rc4-md5" || p.method_ == "chacha20-ietf") && p.protocol == "auth_aes128_md5" && p.obfs == "plain"
    then Some(p)
    else None
  }

  function FingerprintOf(u: PanelUser, p: Profile): Fingerprint {
    Fingerprint(u.port, u.password, p, u.isMultiUser)
  }

  function Carriers(users: seq<PanelUser>): seq<PanelUser> {
    if users == [] then []
    else (if users[0].IsCarrier() then [users[0]] else []) + Carriers(users[1..])
  }

  /** The first row of each port. */
  function ByPort(rows: seq<PanelUser>): map<u16, PanelUser>
    decreases |rows|
  {
    if rows == [] then map[]
    else
      var n := |rows| - 1;
      var earlier := ByPort(rows[..n]);
      if rows[n].port in earlier then earlier else earlier[rows[n].port := rows[n]]
  }

  lemma {:induction false} ByPortIsFirst(rows: seq<PanelUser>, i: nat)
    requires i < |rows| && forall j :: 0 <= j < i ==> rows[j].port != rows[i].port
    ensures rows[i].port in ByPort(rows) && ByPort(rows)[rows[i].port] == rows[i]
    decreases |rows|
  {
    var n := |rows| - 1;
    if i < n {
      ByPortIsFirst(rows[..n], i);
    } else {
      assert forall j :: 0 <= j < n ==> rows[..n][j].port != rows[n].port;
      if rows[n].port in ByPort(rows[..n]) {
        ByPortIsARow(rows[..n], rows[n].port);
      }
    }
  }

  lemma {:induction false} ByPortIsARow(rows: seq<PanelUser>, port: u16)
    requires port in ByPort(rows)
    ensures ByPort(rows)[port] in rows && ByPort(rows)[port].port == port
    ensures exists j :: 0 <= j < |rows| && rows[j].port == port
    decreases |rows|
  {
    var n := |rows| - 1;
    if port in ByPort(rows[..n]) {
      ByPortIsARow(rows[..n], port);
      var j :| 0 <= j < n && rows[..n][j].port == port;
      assert rows[j].port == port;
    } else {
      assert rows[n].port == port;
    }
  }

  /** `rows` are the values of `m`, in some order. */
  ghost predicate Lists(rows: seq<PanelUser>, m: map<u16, PanelUser>) {
    && (forall i, j :: 0 <= i < j < |rows| ==> rows[i].port != rows[j].port)
    && (forall u :: u in rows ==> u.port in m && m[u.port] == u)
    && (forall port :: port in m ==> m[port] in rows)
  }

  /** The rows that get a listener: in carrier mode one per port, in whatever order the hash
      map yields them; otherwise all. */
  ghost predicate ListenerRows(users: seq<PanelUser>, rows: seq<PanelUser>) {
    if Carriers(users) != [] then Lists(rows, ByPort(Carriers(users))) else rows == users
  }

  function WishOf(u: PanelUser, p: Profile): Wish { Wish(FingerprintOf(u, p), u.UserId()) }

  /** What the rows with a supported profile ask for. */
  function Wanted(c: Config, rows: seq<PanelUser>): seq<Wish>
    decreases |rows|
  {
    if rows == [] then []
    else
      var n := |rows| - 1;
      Wanted(c, rows[..n])
      + match ProfileOf(c, rows[n]) case Some(p) => [WishOf(rows[n], p)] case None => []
  }

  lemma ByPortKeysMatch(rows: seq<PanelUser>)
    ensures forall port :: port in ByPort(rows) ==> ByPort(rows)[port].port == port
  {
    forall port | port in ByPort(rows) ensures ByPort(rows)[port].port == port {
      ByPortIsARow(rows, port);
    }
  }

  // ---- rows, field by field ----

  /** What of a row is a listener's identity: port, password, carrier mode and profile; a change of
      anything else restarts nothing. */
  lemma FingerprintIsExact(u: PanelUser, p: Profile, v: PanelUser, q: Profile)
    ensures FingerprintOf(u, p) == FingerprintOf(v, q)
       <==> u.port == v.port && u.password == v.password && u.isMultiUser == v.isMultiUser && p == q
    ensures WishOf(u, p).userId == if u.namedId.Some? then u.namedId.value else u.id
  {
  }

  /** `t` is `s` in lower case, letter by letter. */
  predicate IsLower(s: string, t: string) {
    && |t| == |s|
    && forall i :: 0 <= i < |s| ==> t[i] as int == s[i] as int + if 'A' <= s[i] <= 'Z' then 32 else 0
  }

  /** A row runs if and only if, in lower case and with the node's settings for what it leaves
      open, its cipher is one of two, its protocol the one, and it has no obfuscation. */
  lemma ProfileIsExact(c: Config, u: PanelUser, p: Profile)
    ensures ProfileOf(c, u) == Some(p)
       <==> && IsLower(if u.method_.Some? then u.method_.value else c.method_, p.method_)
            && IsLower(if u.protocol.Some? then u.protocol.value else c.protocol, p.protocol)
            && IsLower(if u.obfs.Some? then u.obfs.value else c.obfs, p.obfs)
            && p.timeout == c.timeout
            && p.method_ in {"rc4-md5", "chacha20-ietf"} && p.protocol == "auth_aes128_md5" && p.obfs == "plain"
  {
    forall s: string, t: string ensures IsLower(s, t) <==> t == ToAsciiLower(s) {
      LowerIsExact(s, t);
    }
    hide IsLower, ToAsciiLower;
  }

  lemma LowerIsExact(s: string, t: string)
    ensures IsLower(s, t) <==> t == ToAsciiLower(s)
  {
  }

  /** A limit of m Mbit is 131072 * m bytes, rounded down and no more than 64 bits hold; none, or
      one below zero, is no limit. */
  lemma RateIsExact(u: PanelUser)
    ensures var bps := u.UserPolicyOf().speedLimitBps;
      if u.speedLimitMbit.None? || u.speedLimitMbit.value <= 0.0 then bps == 0
      else if u.speedLimitMbit.value * 131072.0 >= 0x1_0000_0000_0000_0000 as real then bps == 0xFFFF_FFFF_FFFF_FFFF
      else bps as real <= u.speedLimitMbit.value * 131072.0 < bps as real + 1.0
  {
  }

  /** The cap on devices is the row's, none for a missing or negative one, and cut to 32 bits. */
  lemma CapIsExact(u: PanelUser)
    ensures var limit := u.UserPolicyOf().connLimit;
      if u.connector.None? || u.connector.value <= 0 then limit == 0
      else limit as int == u.connector.value % 0x1_0000_0000
    ensures u.UserPolicyOf().forbiddenIps == u.forbiddenIps && u.UserPolicyOf().forbiddenPorts == u.forbiddenPorts
  {
  }

  /** The carriers are the rows whose mode is not 0, in order. */
  lemma {:induction false} CarriersAreExact(users: seq<PanelUser>, u: PanelUser)
    ensures u in Carriers(users) <==> u in users && u.isMultiUser != 0
    ensures (forall v :: v in users ==> v.isMultiUser != 0) ==> Carriers(users) == users
  {
    if users != [] {
      CarriersAreExact(users[1..], u);
    }
  }

  lemma {:induction false} CarriersKeepOrder(a: seq<PanelUser>, b: seq<PanelUser>)
    ensures Carriers(a + b) == Carriers(a) + Carriers(b)
  {
    if a == [] {
      assert a + b == b;
    } else {
      assert (a + b)[1..] == a[1..] + b;
      CarriersKeepOrder(a[1..], b);
    }
  }

  /** The first carrier row of its port. */
  ghost predicate FirstCarrier(users: seq<PanelUser>, i: nat) {
    && i < |users| && users[i].isMultiUser != 0
    && forall j :: 0 <= j < i && users[j].isMultiUser != 0 ==> users[j].port != users[i].port
  }

  lemma FirstCarrierIsKept(users: seq<PanelUser>, i: nat)
    requires FirstCarrier(users, i)
    ensures users[i].port in ByPort(Carriers(users)) && ByPort(Carriers(users))[users[i].port] == users[i]
  {
    var front, back := users[..i], users[i..];
    assert users == front + back && back[0] == users[i];
    CarriersKeepOrder(front, back);
    forall k | 0 <= k < |Carriers(front)| ensures Carriers(front)[k].port != users[i].port {
      CarriersAreExact(front, Carriers(front)[k]);
    }
    ByPortIsFirst(Carriers(users), |Carriers(front)|);
  }

  lemma FirstCarrierExists(users: seq<PanelUser>, k: nat) returns (i: nat)
    requires k < |users| && users[k].isMultiUser != 0
    ensures FirstCarrier(users, i) && users[i].port == users[k].port
    decreases k
  {
    if FirstCarrier(users, k) {
      i := k;
    } else {
      var j :| 0 <= j < k && users[j].isMultiUser != 0 && users[j].port == users[k].port;
      i := FirstCarrierExists(users, j);
    }
  }

  /** The rows that get a listener: without carriers all, else exactly the first carrier rows of
      their ports. */
  lemma ListenerRowsAreExact(users: seq<PanelUser>, rows: seq<PanelUser>)
    requires ListenerRows(users, rows)
    ensures (forall u :: u in users ==> u.isMultiUser == 0) ==> rows == users
    ensures (exists u :: u in users && u.isMultiUser != 0) ==>
      forall u :: u in rows <==> exists i: nat :: FirstCarrier(users, i) && users[i] == u
  {
    if k: nat :| k < |users| && users[k].isMultiUser != 0 {
      CarriersAreExact(users, users[k]);
      forall u ensures u in rows <==> exists i: nat :: FirstCarrier(users, i) && users[i] == u {
        if u in rows {
          ByPortIsARow(Carriers(users), u.port);
          CarriersAreExact(users, u);
          var m :| 0 <= m < |users| && users[m] == u;
          var i := FirstCarrierExists(users, m);
          FirstCarrierIsKept(users, i);
        }
        forall i: nat | FirstCarrier(users, i) && users[i] == u ensures u in rows {
          FirstCarrierIsKept(users, i);
        }
      }
    } else {
      if Carriers(users) != [] {
        CarriersAreExact(users, Carriers(users)[0]);
      }
    }
  }
}
