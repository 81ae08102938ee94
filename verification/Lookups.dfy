/** The lookups of an accepted connection (`src/tcp.rs:214-263`), in the tables it was accepted
    under. */
module Lookups {
  import opened Bytes
  import opened Protocol
  import opened Session
  import opened SocksAddress
  import opened Packets
  import opened RoundTrip
  import opened Handshake
  import opened EndToEnd
  import opened Listeners
  import opened Panel
  import opened Tables
  import opened Reconciliation

  /** Whose traffic a connection is: the authenticated user's, else the listener's own. */
  function RelayUser(h: RecvHalf, fallback: nat): nat {
    if h.Opened? && h.proto.userId.Some? then h.proto.userId.value else fallback
  }

  /** The counter lookup falls back to the listener's user. */
  ghost predicate CounterFound(t: UserTables, h: RecvHalf, fallback: nat) {
    RelayUser(h, fallback) in t.countersByUser || fallback in t.countersByUser
  }

  /** The IP set is looked up only for users with a connection limit. */
  ghost predicate IpSetFound(t: UserTables, uid: nat) {
    uid in t.policies && t.policies[uid].connLimit > 0 ==> uid in t.connsByUser
  }

  /** No lookup fails for an authenticated user, whoever owns the listener; the IP set is there
      for every connection. */
  lemma LookupsSucceed(ep: Endpoint, t: UserTables, h: RecvHalf, fallback: nat)
    requires t.Closed() && ep.users == t.authUsers && ep.role.Server? && ValidHalf(ep, h)
    ensures h.Opened? && h.proto.userId.Some? ==> RelayUser(h, fallback) in t.countersByUser
    ensures IpSetFound(t, RelayUser(h, fallback))
  {
  }

  /** What any connection comes to on the listener of `port` after a poll, whatever its client
      sent and however it was cut: its counter is found if and only if it identified a user, or
      the poll did not leave the listener alone, or it did and the listener's owner is still a
      live user. */
  lemma CounterFoundAfterPoll(c: Config, r: Runtime, users: seq<PanelUser>, rows: seq<PanelUser>, port: u16,
                              t: UserTables, ep: Endpoint, utf8: Utf8, chunks: seq<Bytes>)
    requires r.Valid() && ListenerRows(users, rows) && port in Ports(Wanted(c, rows))
    requires t.Closed() && t.countersByUser.Keys == LiveIds(users) && ep.users == t.authUsers
    requires ep.Valid() && ep.role.Server?
    requires Accept(ep, utf8, AwaitIv([]), [], 0, chunks).outcome.Connect?
    ensures port in Reconcile(r, Wanted(c, rows)).active
    ensures var half := Accept(ep, utf8, AwaitIv([]), [], 0, chunks).half;
      && Authenticated(half)
      && (CounterFound(t, half, Reconcile(r, Wanted(c, rows)).active[port].owner)
          <==> half.proto.userId.Some?
               || (Undisturbed(r, Wanted(c, rows), port) ==> r.active[port].owner in LiveIds(users)))
  {
    hide Accept, Parse, Reconcile, Wanted, Undisturbed, Ports, ListenerRows, LiveIds;
    InitialIsValid(ep);
    ConnectedIsAuthenticated(ep, utf8, AwaitIv([]), [], 0, chunks);
    ConnectedIsValid(ep, utf8, AwaitIv([]), [], 0, chunks);
    OwnerAfterPoll(c, r, users, rows, port);
  }

  /** For a client that holds the key for its uid, identified means registered. */
  lemma CounterFoundForClient(c: Config, r: Runtime, users: seq<PanelUser>, rows: seq<PanelUser>, port: u16,
                              t: UserTables, ep: Endpoint, utf8: Utf8, iv: Bytes, auth: Auth, plains: seq<Plain>,
                              address: Parsed, chunks: seq<Bytes>, a: Accepted)
    requires r.Valid() && ListenerRows(users, rows) && port in Ports(Wanted(c, rows))
    requires t.Closed() && t.countersByUser.Keys == LiveIds(users) && ep.users == t.authUsers
    requires Arrives(ep, utf8, iv, auth, plains, address, chunks, a)
    ensures a.outcome.Connect? && port in Reconcile(r, Wanted(c, rows)).active
    ensures CounterFound(t, a.half, Reconcile(r, Wanted(c, rows)).active[port].owner)
       <==> auth.uid in t.authUsers
            || (Undisturbed(r, Wanted(c, rows), port) ==> r.active[port].owner in LiveIds(users))
  {
    hide Receive, ReceiveAll, Parse, Accept, ClientWire, SelectedKey, Concat, Payloads, AllFit, Reconcile, Wanted,
         Undisturbed, Ports, ListenerRows, LiveIds, CounterFound;
    HandshakeThenUpload(ep, utf8, iv, auth, plains, address, chunks, a);
    CounterFoundAfterPoll(c, r, users, rows, port, t, ep, utf8, chunks);
  }
}
