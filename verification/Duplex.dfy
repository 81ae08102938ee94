/** The two directions of a connection do not disturb each other (`src/tcp.rs:290-343`). */
module Duplex {
  import opened Bytes
  import opened Cipher
  import opened Protocol
  import opened Segmentation
  import opened Session
  import opened Delivery
  import opened ServerCodec
  import opened RoundTrip

  /** One turn of the relay loop: client bytes to decrypt, or remote bytes to encrypt. */
  datatype Event = FromClient(raw: Bytes) | FromRemote(plaintext: Bytes)

  /** What a relay has moved when it stops, and how it stopped: what was written to either side
      before a failure stays written. */
  datatype Traffic = Traffic(toRemote: Bytes, toClient: Bytes, end: Result<Connection, RelayError>)

  datatype RelayError = Receiving(auth: AuthError) | Sending(encrypt: EncryptError)

  function Relay(ep: Endpoint, sendIv: Bytes, c: Connection, events: seq<Event>): Traffic
    requires ep.Valid()
    decreases |events|
  {
    if events == [] then Traffic([], [], Success(c))
    else
      match events[0]
      case FromClient(raw) =>
        (match Receive(ep, c.recv, raw)
         case Failure(error) => Traffic([], [], Failure(Receiving(error)))
         case Success(x) =>
           var later := Relay(ep, sendIv, c.(recv := x.half), events[1..]);
           later.(toRemote := x.out + later.toRemote))
      case FromRemote(plaintext) =>
        match Send(ep, sendIv, c, plaintext)
        case Failure(error) => Traffic([], [], Failure(Sending(error)))
        case Success(x) =>
          var later := Relay(ep, sendIv, x.conn, events[1..]);
          later.(toClient := x.wire + later.toClient)
  }

  function Uploads(events: seq<Event>): seq<Bytes> {
    if events == [] then []
    else (if events[0].FromClient? then [events[0].raw] else []) + Uploads(events[1..])
  }

  function Downloads(events: seq<Event>): seq<Bytes> {
    if events == [] then []
    else (if events[0].FromRemote? then [events[0].plaintext] else []) + Downloads(events[1..])
  }

  /** The turns up to the first read of client bytes after `count` of them, all turns if there is
      none. */
  function Served(events: seq<Event>, count: nat): seq<Event> {
    if events == [] then []
    else if events[0].FromRemote? then [events[0]] + Served(events[1..], count)
    else if count == 0 then []
    else [events[0]] + Served(events[1..], count - 1)
  }

  lemma {:induction false} AllServed(events: seq<Event>)
    ensures Served(events, |Uploads(events)|) == events
  {
    if events != [] {
      AllServed(events[1..]);
    }
  }

  function Numbered(h: RecvHalf, packId: u32): RecvHalf
    requires h.Opened?
  {
    h.(proto := h.proto.(packId := packId))
  }

  // ---- receiving ignores the send counter ----

  lemma AuthStepNumbered(e: Env, q: Proto, packId: u32)
    requires |q.recvBuf| >= 31
    ensures AuthStep(e, q.(packId := packId))
         == match AuthStep(e, q)
            case Wait(s) => Wait(s.(packId := packId))
            case Reject(error) => Reject(error)
            case Emit(s, payload) => Emit(s.(packId := packId), payload)
  {
  }

  lemma StepNumbered(e: Env, p: Proto, packId: u32)
    ensures Step(e, p.(packId := packId))
         == match Step(e, p)
            case Wait(q) => Wait(q.(packId := packId))
            case Reject(error) => Reject(error)
            case Emit(q, payload) => Emit(q.(packId := packId), payload)
  {
    hide AuthStep;
    if !p.hasRecvHeader && |p.recvBuf| >= 31 {
      AuthStepNumbered(e, SelectUser(e, p, Uid(p.recvBuf)), packId);
    }
  }

  lemma {:induction false} DrainNumbered(e: Env, p: Proto, packId: u32)
    ensures Drain(e, p.(packId := packId))
         == match Drain(e, p)
            case Success(d) => Success(d.(state := d.state.(packId := packId)))
            case Failure(error) => Failure(error)
    decreases |p.recvBuf|
  {
    StepNumbered(e, p, packId);
    hide Step;
    if Step(e, p).Emit? {
      DrainNumbered(e, Step(e, p).state, packId);
    }
  }

  lemma ReceiveNumbered(ep: Endpoint, h: RecvHalf, packId: u32, raw: Bytes)
    requires ep.Valid() && h.Opened?
    ensures Receive(ep, h, raw).Success? ==> Receive(ep, h, raw).value.half.Opened?
    ensures Receive(ep, Numbered(h, packId), raw)
         == match Receive(ep, h, raw)
            case Success(x) => Success(Received(Numbered(x.half, packId), x.out))
            case Failure(error) => Failure(error)
  {
    hide Drain, Stream.Encipher, Stream.Skip;
    DrainNumbered(h.env, h.proto.Feed(h.decryptor.Encipher(ep.prim, raw)), packId);
  }

  lemma {:induction false} DeliverNumbered(ep: Endpoint, h: RecvHalf, packId: u32, chunks: seq<Bytes>)
    requires ep.Valid() && h.Opened?
    ensures var d := Deliver(ep, h, chunks);
      && (d.end.Success? ==> d.end.value.Opened?)
      && Deliver(ep, Numbered(h, packId), chunks)
         == d.(end := if d.end.Success? then Success(Numbered(d.end.value, packId)) else d.end)
    decreases |chunks|
  {
    if chunks != [] {
      ReceiveNumbered(ep, h, packId, chunks[0]);
      hide Receive;
      if Receive(ep, h, chunks[0]).Success? {
        DeliverNumbered(ep, Receive(ep, h, chunks[0]).value.half, packId, chunks[1..]);
      }
    }
  }

  // ---- sending ignores everything but the key and the send counter ----

  ghost predicate SameSender(a: Connection, b: Connection) {
    && a.recv.Opened? && b.recv.Opened?
    && a.encryptor == b.encryptor && a.sendIvEmitted == b.sendIvEmitted
    && a.recv.proto.userKey == b.recv.proto.userKey
    && a.recv.proto.packId == b.recv.proto.packId
  }

  lemma {:induction false} SendAllSame(ep: Endpoint, sendIv: Bytes, a: Connection, b: Connection,
                                       plaintexts: seq<Bytes>)
    requires SameSender(a, b)
    ensures SendAll(ep, sendIv, a, plaintexts).Success? && SendAll(ep, sendIv, b, plaintexts).Success?
    ensures SendAll(ep, sendIv, a, plaintexts).value.wire == SendAll(ep, sendIv, b, plaintexts).value.wire
    ensures SameSender(SendAll(ep, sendIv, a, plaintexts).value.conn, SendAll(ep, sendIv, b, plaintexts).value.conn)
    decreases |plaintexts|
  {
    if plaintexts != [] {
      SendAllSame(ep, sendIv, Send(ep, sendIv, a, plaintexts[0]).value.conn,
                  Send(ep, sendIv, b, plaintexts[0]).value.conn, plaintexts[1..]);
    }
  }

  lemma ReceiveKeepsSender(ep: Endpoint, c: Connection, raw: Bytes)
    requires ep.Valid() && c.recv.Opened? && c.recv.proto.hasRecvHeader
    requires Receive(ep, c.recv, raw).Success?
    ensures var h := Receive(ep, c.recv, raw).value.half;
      SameSender(c, c.(recv := h)) && h.proto.hasRecvHeader
  {
    hide Drain, Stream.Encipher, Stream.Skip;
    if raw != [] {
      DrainKeepsKey(c.recv.env, c.recv.proto.Feed(c.recv.decryptor.Encipher(ep.prim, raw)));
    }
  }

  lemma SendNumbers(ep: Endpoint, sendIv: Bytes, c: Connection, plaintext: Bytes)
    requires c.recv.Opened?
    ensures Send(ep, sendIv, c, plaintext).Success?
    ensures Send(ep, sendIv, c, plaintext).value.conn.recv.Opened?
    ensures var conn := Send(ep, sendIv, c, plaintext).value.conn;
      conn.recv == Numbered(c.recv, conn.recv.proto.packId)
  {
  }

  /** What a relay run amounts to: all uploads decoded as one stream, and all downloads in front
      of the first refused upload encoded as one stream, each as if the other direction were
      silent. */
  function Apart(ep: Endpoint, sendIv: Bytes, c: Connection, events: seq<Event>): Traffic
    requires ep.Valid() && c.recv.Opened?
  {
    var up := Deliver(ep, c.recv, Uploads(events));
    match SendAll(ep, sendIv, c, Downloads(Served(events, up.count)))
    case Failure(error) => Traffic(up.out, [], Failure(Sending(error)))
    case Success(down) =>
      Traffic(up.out, down.wire,
              match up.end
              case Failure(error) => Failure(Receiving(error))
              case Success(half) =>
                if half.Opened? && down.conn.recv.Opened? then
                  Success(down.conn.(recv := Numbered(half, down.conn.recv.proto.packId)))
                else Failure(Sending(NoHandshakeYet)))
  }

  /** Full duplex: in every interleaving, from the first byte after the auth packet on, also when
      the relay fails. */
  lemma {:induction false} DirectionsAreIndependent(ep: Endpoint, sendIv: Bytes, c: Connection, events: seq<Event>)
    requires ep.Valid() && c.recv.Opened? && c.recv.proto.hasRecvHeader
    ensures Relay(ep, sendIv, c, events) == Apart(ep, sendIv, c, events)
    decreases |events|
  {
    hide Receive, Send;
    if events == [] {
      AllServed(events);
    } else {
      match events[0]
      case FromClient(raw) =>
        ClientTurn(ep, sendIv, c, events);
        if Receive(ep, c.recv, raw).Success? {
          ReceiveKeepsSender(ep, c, raw);
          ReceiveNumbered(ep, c.recv, c.recv.proto.packId, raw);
          DirectionsAreIndependent(ep, sendIv, c.(recv := Receive(ep, c.recv, raw).value.half), events[1..]);
        }
      case FromRemote(plaintext) =>
        RemoteTurn(ep, sendIv, c, events);
        SendNumbers(ep, sendIv, c, plaintext);
        DirectionsAreIndependent(ep, sendIv, Send(ep, sendIv, c, plaintext).value.conn, events[1..]);
    }
  }

  /** A read in front of a run that takes the directions apart. */
  lemma ClientTurn(ep: Endpoint, sendIv: Bytes, c: Connection, events: seq<Event>)
    requires ep.Valid() && c.recv.Opened? && c.recv.proto.hasRecvHeader
    requires events != [] && events[0].FromClient?
    ensures match Receive(ep, c.recv, events[0].raw)
            case Failure(error) => Apart(ep, sendIv, c, events) == Traffic([], [], Failure(Receiving(error)))
            case Success(x) =>
              && x.half.Opened?
              && var later := Apart(ep, sendIv, c.(recv := x.half), events[1..]);
                 Apart(ep, sendIv, c, events) == later.(toRemote := x.out + later.toRemote)
  {
    hide Receive, Send;
    var raw, rest := events[0].raw, events[1..];
    assert Uploads(events) == [raw] + Uploads(rest) && Uploads(events)[1..] == Uploads(rest);
    match Receive(ep, c.recv, raw)
    case Failure(_) =>
      assert Served(events, 0) == [];
    case Success(x) =>
      ReceiveKeepsSender(ep, c, raw);
      ReceiveNumbered(ep, c.recv, c.recv.proto.packId, raw);
      var c1 := c.(recv := x.half);
      var up := Deliver(ep, x.half, Uploads(rest));
      var downs := Downloads(Served(rest, up.count));
      assert Served(events, up.count + 1) == [events[0]] + Served(rest, up.count);
      assert Downloads(Served(events, up.count + 1)) == downs;
      SendAllSame(ep, sendIv, c, c1, downs);
      DeliverNumbered(ep, x.half, x.half.proto.packId, Uploads(rest));
      SendAllKeepsRecv(ep, sendIv, c, downs);
      SendAllKeepsRecv(ep, sendIv, c1, downs);
  }

  /** A send in front of it. */
  lemma RemoteTurn(ep: Endpoint, sendIv: Bytes, c: Connection, events: seq<Event>)
    requires ep.Valid() && c.recv.Opened? && c.recv.proto.hasRecvHeader
    requires events != [] && events[0].FromRemote?
    ensures var sent := Send(ep, sendIv, c, events[0].plaintext);
      && sent.Success? && sent.value.conn.recv.Opened?
      && var later := Apart(ep, sendIv, sent.value.conn, events[1..]);
         Apart(ep, sendIv, c, events) == later.(toClient := sent.value.wire + later.toClient)
  {
    hide Receive, Send;
    var plaintext, rest := events[0].plaintext, events[1..];
    SendNumbers(ep, sendIv, c, plaintext);
    var x := Send(ep, sendIv, c, plaintext).value;
    assert Uploads(events) == Uploads(rest);
    DeliverNumbered(ep, c.recv, x.conn.recv.proto.packId, Uploads(rest));
    var up := Deliver(ep, c.recv, Uploads(rest));
    var downs := Downloads(Served(rest, up.count));
    assert Served(events, up.count) == [events[0]] + Served(rest, up.count);
    assert Downloads(Served(events, up.count)) == [plaintext] + downs;
    assert ([plaintext] + downs)[1..] == downs;
    SendAllSame(ep, sendIv, x.conn, x.conn, downs);
    SendAllKeepsRecv(ep, sendIv, x.conn, downs);
  }

  lemma {:induction false} SendAllKeepsRecv(ep: Endpoint, sendIv: Bytes, c: Connection, plaintexts: seq<Bytes>)
    requires c.recv.Opened? && SendAll(ep, sendIv, c, plaintexts).Success?
    ensures SendAll(ep, sendIv, c, plaintexts).value.conn.recv.Opened?
    ensures var conn := SendAll(ep, sendIv, c, plaintexts).value.conn;
      conn.recv == Numbered(c.recv, conn.recv.proto.packId)
    decreases |plaintexts|
  {
    if plaintexts != [] {
      SendNumbers(ep, sendIv, c, plaintexts[0]);
      hide Send;
      SendAllKeepsRecv(ep, sendIv, Send(ep, sendIv, c, plaintexts[0]).value.conn, plaintexts[1..]);
    }
  }

  /** The served turns are all, or those up to the first read after `count` of them. */
  lemma {:induction false} ServedIsFront(events: seq<Event>, count: nat)
    ensures var served := Served(events, count);
      && served <= events && |Uploads(served)| <= count
      && (served != events ==> events[|served|].FromClient? && |Uploads(served)| == count)
  {
    if events != [] && (events[0].FromRemote? || count > 0) {
      ServedIsFront(events[1..], if events[0].FromRemote? then count else count - 1);
    }
  }

  /** What a relay has moved when it stops, however it stops: to the remote side what its reads
      deliver, to the client what the sends in front of the first refused read put on the wire. */
  lemma RelayMoves(ep: Endpoint, sendIv: Bytes, c: Connection, events: seq<Event>)
    requires ep.Valid() && c.recv.Opened? && c.recv.proto.hasRecvHeader
    ensures var relay, up := Relay(ep, sendIv, c, events), Deliver(ep, c.recv, Uploads(events));
      var down := SendAll(ep, sendIv, c, Downloads(Served(events, up.count)));
      && relay.toRemote == up.out
      && down.Success? && relay.toClient == down.value.wire
      && (relay.end.Success? <==> up.end.Success?)
      && (up.end.Failure? ==> relay.end == Failure(Receiving(up.end.error)))
  {
    var up := Deliver(ep, c.recv, Uploads(events));
    var downs := Downloads(Served(events, up.count));
    DirectionsAreIndependent(ep, sendIv, c, events);
    DeliverNumbered(ep, c.recv, c.recv.proto.packId, Uploads(events));
    SendAllSame(ep, sendIv, c, c, downs);
    SendAllKeepsRecv(ep, sendIv, c, downs);
    hide Relay, Deliver, SendAll, Served, Uploads, Downloads;
  }
}
