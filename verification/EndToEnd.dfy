/** A whole TCP session (`src/tcp.rs:174-348`): handshake loop, then relay, over one codec. */
module EndToEnd {
  import opened Bytes
  import opened Cipher
  import opened Protocol
  import opened Segmentation
  import opened Session
  import opened Delivery
  import opened ServerCodec
  import opened SocksAddress
  import opened Packets
  import opened RoundTrip
  import opened Handshake
  import Duplex
  import RateLimit

  /** Nothing was sent yet. */
  ghost predicate Unsent(h: RecvHalf) { h.Opened? ==> h.proto.packId == 1 }

  /** The auth packet is in, and nothing was sent yet. */
  ghost predicate Authenticated(h: RecvHalf) {
    h.Opened? && h.proto.hasRecvHeader && h.proto.packId == 1
  }

  /** No payload comes out before the auth packet is in. */
  lemma PayloadMeansAuthenticated(e: Env, p: Proto)
    requires Drain(e, p).Success? && Drain(e, p).value.out != []
    ensures Drain(e, p).value.state.hasRecvHeader
  {
    if Step(e, p).Emit? {
      DrainKeepsKey(e, Step(e, p).state);
    }
  }

  lemma ReceiveOpenedUnsent(ep: Endpoint, h: RecvHalf, data: Bytes)
    requires h.Opened? && Unsent(h) && ReceiveOpened(ep, h, data).Success?
    ensures var x := ReceiveOpened(ep, h, data).value;
      Unsent(x.half) && (x.out != [] ==> Authenticated(x.half))
  {
    hide Drain, Stream.Encipher, Stream.Skip;
    if data != [] {
      var p := h.proto.Feed(h.decryptor.Encipher(ep.prim, data));
      DrainKeepsKey(h.env, p);
      if Drain(h.env, p).value.out != [] {
        PayloadMeansAuthenticated(h.env, p);
      }
    }
  }

  lemma ReceiveUnsent(ep: Endpoint, h: RecvHalf, raw: Bytes)
    requires ep.Valid() && Unsent(h) && Receive(ep, h, raw).Success?
    ensures var x := Receive(ep, h, raw).value;
      Unsent(x.half) && (x.out != [] ==> Authenticated(x.half))
  {
    hide ReceiveOpened;
    match h
    case Opened(_, _, _) =>
      ReceiveOpenedUnsent(ep, h, raw);
    case AwaitIv(buf) =>
      var n := ep.cipher.IvLen();
      if |buf + raw| >= n {
        ReceiveOpenedUnsent(ep, ep.Open((buf + raw)[..n]), (buf + raw)[n..]);
      }
  }

  /** Whoever gets past the handshake loop is past the auth packet. */
  lemma {:induction false} ConnectedIsAuthenticated(ep: Endpoint, utf8: Utf8, h: RecvHalf, appBuf: Bytes,
                                                    uploaded: nat, chunks: seq<Bytes>)
    requires ep.Valid() && Unsent(h)
    ensures var a := Accept(ep, utf8, h, appBuf, uploaded, chunks);
      a.outcome.Connect? ==> Authenticated(a.half)
    decreases |chunks|
  {
    hide Receive, Parse, Unsent, Authenticated;
    if chunks != [] && chunks[0] != [] && Receive(ep, h, chunks[0]).Success? {
      var x := Receive(ep, h, chunks[0]).value;
      ReceiveUnsent(ep, h, chunks[0]);
      ConnectedIsAuthenticated(ep, utf8, x.half, appBuf, uploaded + |chunks[0]|, chunks[1..]);
      ConnectedIsAuthenticated(ep, utf8, x.half, appBuf + x.out, uploaded + |chunks[0]|, chunks[1..]);
    }
  }

  /** And its receiving half is valid. */
  lemma {:induction false} ConnectedIsValid(ep: Endpoint, utf8: Utf8, h: RecvHalf, appBuf: Bytes, uploaded: nat,
                                            chunks: seq<Bytes>)
    requires ep.Valid() && ValidHalf(ep, h)
    ensures var a := Accept(ep, utf8, h, appBuf, uploaded, chunks);
      a.outcome.Connect? ==> ValidHalf(ep, a.half)
    decreases |chunks|
  {
    hide Receive, Parse, ValidHalf;
    if chunks != [] && chunks[0] != [] && Receive(ep, h, chunks[0]).Success? {
      var x := Receive(ep, h, chunks[0]).value;
      ReceiveKeepsValid(ep, h, chunks[0]);
      ConnectedIsValid(ep, utf8, x.half, appBuf, uploaded + |chunks[0]|, chunks[1..]);
      ConnectedIsValid(ep, utf8, x.half, appBuf + x.out, uploaded + |chunks[0]|, chunks[1..]);
    }
  }

  /** Later packets change neither the user nor the key. */
  lemma {:induction false} UserSettledByReads(ep: Endpoint, h: RecvHalf, chunks: seq<Bytes>)
    requires ep.Valid() && h.Opened? && h.proto.hasRecvHeader && ReceiveAll(ep, h, chunks).Success?
    ensures var end := ReceiveAll(ep, h, chunks).value.half;
      end.Opened? && end.proto.userId == h.proto.userId && end.proto.userKey == h.proto.userKey
    decreases |chunks|
  {
    hide Drain, Stream.Encipher, Stream.Skip;
    if chunks != [] {
      if chunks[0] != [] {
        DrainKeepsKey(h.env, h.proto.Feed(h.decryptor.Encipher(ep.prim, chunks[0])));
      }
      UserSettledByReads(ep, Receive(ep, h, chunks[0]).value.half, chunks[1..]);
    }
  }

  /** Nor does anything else the relay does, in either direction. */
  lemma UserIsSettled(ep: Endpoint, sendIv: Bytes, c: Connection, events: seq<Duplex.Event>)
    requires ep.Valid() && c.recv.Opened? && c.recv.proto.hasRecvHeader
    requires Duplex.Relay(ep, sendIv, c, events).end.Success?
    ensures var end := Duplex.Relay(ep, sendIv, c, events).end.value.recv;
      end.Opened? && end.proto.userId == c.recv.proto.userId && end.proto.userKey == c.recv.proto.userKey
  {
    hide ReceiveAll, Deliver, SendAll, Duplex.Relay, Duplex.Served, Duplex.Uploads, Duplex.Downloads;
    Duplex.DirectionsAreIndependent(ep, sendIv, c, events);
    DeliverIsReceiveAll(ep, c.recv, Duplex.Uploads(events));
    UserSettledByReads(ep, c.recv, Duplex.Uploads(events));
  }

  /** The relay after a handshake: it moves what the two directions would move on their own. */
  lemma RelayIsApart(ep: Endpoint, sendIv: Bytes, h: RecvHalf, events: seq<Duplex.Event>)
    requires ep.Valid() && |sendIv| == ep.cipher.IvLen() && Authenticated(h)
    requires ReceiveAll(ep, h, Duplex.Uploads(events)).Success?
    ensures var c := Fresh(ep, sendIv).(recv := h);
      var relay := Duplex.Relay(ep, sendIv, c, events);
      && relay.end.Success?
      && relay.toRemote == ReceiveAll(ep, h, Duplex.Uploads(events)).value.out
      && relay.end.value.recv.Opened?
      && relay.end.value.recv.proto.userId == h.proto.userId
      && relay.end.value.recv.proto.userKey == h.proto.userKey
      && SendAll(ep, sendIv, c, Duplex.Downloads(events)).Success?
      && relay.toClient == SendAll(ep, sendIv, c, Duplex.Downloads(events)).value.wire
  {
    hide ReceiveAll, Deliver, SendAll, CipherKind.NewStream, Duplex.Relay, Duplex.Served, Duplex.Uploads,
         Duplex.Downloads;
    var c := Fresh(ep, sendIv).(recv := h);
    UserSettledByReads(ep, h, Duplex.Uploads(events));
    DeliverIsReceiveAll(ep, h, Duplex.Uploads(events));
    Duplex.AllServed(events);
    Duplex.DirectionsAreIndependent(ep, sendIv, c, events);
    SendAllSucceeds(ep, sendIv, c, Duplex.Downloads(events));
    UserIsSettled(ep, sendIv, c, events);
  }

  /** A client that holds the key for its uid sends its auth packet and any packets, with an
      address in front of the payload; TCP delivers the stream in `chunks`, and `a` is what the
      handshake loop makes of them. */
  ghost predicate Arrives(ep: Endpoint, utf8: Utf8, iv: Bytes, auth: Auth, plains: seq<Plain>, address: Parsed,
                          chunks: seq<Bytes>, a: Accepted) {
    && ep.Valid() && ep.role.Server? && |iv| == ep.cipher.IvLen() && ep.prim.AesInverts()
    && auth.Fits() && AllFit(plains)
    && Parse(utf8, auth.payload + Payloads(plains)) == Success(Some(address))
    && (forall i :: 0 <= i < |chunks| ==> chunks[i] != [])
    && Concat(chunks) == ClientWire(ep, iv, SelectedKey(ep, iv, auth.uid), auth, plains)
    && a == Accept(ep, utf8, AwaitIv([]), [], 0, chunks)
  }

  /** The upload half: where the server connects, as whom, and what the remote side gets. */
  lemma HandshakeThenUpload(ep: Endpoint, utf8: Utf8, iv: Bytes, auth: Auth, plains: seq<Plain>, address: Parsed,
                            chunks: seq<Bytes>, a: Accepted)
    requires Arrives(ep, utf8, iv, auth, plains, address, chunks, a)
    ensures a.outcome.Connect? && a.outcome.target == address.address
    ensures a.outcome.uploaded + |Concat(a.outcome.rest)| == |Concat(chunks)|
    ensures Authenticated(a.half)
    ensures a.half.proto.userId == if auth.uid in ep.users then Some(auth.uid) else None
    ensures a.half.proto.userKey == SelectedKey(ep, iv, auth.uid)
    ensures var later := ReceiveAll(ep, a.half, a.outcome.rest);
      && later.Success? && address.consumed <= |auth.payload + Payloads(plains)|
      && a.outcome.initial + later.value.out == (auth.payload + Payloads(plains))[address.consumed..]
  {
    hide Receive, ReceiveAll, Decodable, Deliver, Parse, Accept, ClientWire, SelectedKey, Concat, Payloads, AllFit;
    SegmentationIndependence(ep, AwaitIv([]), chunks);
    UploadRoundTrip(ep, iv, auth, plains, chunks);
    AllDecodable(ep, AwaitIv([]), Concat(chunks));
    HandshakeFraming(ep, utf8, chunks);
    DeliverIsReceiveAll(ep, a.half, a.outcome.rest);
    ConnectedIsAuthenticated(ep, utf8, AwaitIv([]), [], 0, chunks);
    UserSettledByReads(ep, a.half, a.outcome.rest);
  }

  /** A client reading `pieces` from the start recovers exactly `data`. */
  ghost predicate Recovers(client: Endpoint, pieces: seq<Bytes>, data: Bytes)
    requires client.Valid()
  {
    var r := ReceiveAll(client, AwaitIv([]), pieces);
    r.Success? && r.value.out == data
  }

  /** The packets of all plaintexts, and the IV if there are any. */
  function DownloadSize(sendIv: Bytes, plaintexts: seq<Bytes>): nat {
    WireSize(plaintexts) + if plaintexts == [] then 0 else |sendIv|
  }

  /** The download half: what the client reads, and how many bytes that takes. */
  lemma DownloadAfterHandshake(ep: Endpoint, sendIv: Bytes, h: RecvHalf, plaintexts: seq<Bytes>, pieces: seq<Bytes>)
    requires ep.Valid() && |sendIv| == ep.cipher.IvLen() && Authenticated(h)
    ensures var sent := SendAll(ep, sendIv, Fresh(ep, sendIv).(recv := h), plaintexts);
      && sent.Success?
      && |sent.value.wire| == DownloadSize(sendIv, plaintexts)
      && (Concat(pieces) == sent.value.wire ==>
            Recovers(Peer(ep, h.proto.userKey), pieces, Concat(plaintexts)))
  {
    hide ReceiveAll, SendAll, Send, CipherKind.NewStream, WireSize, Concat, InStep;
    var c := Fresh(ep, sendIv).(recv := h);
    SessionWireSize(ep, sendIv, c, plaintexts);
    if Concat(pieces) == SendAll(ep, sendIv, c, plaintexts).value.wire {
      DownloadRoundTrip(ep, sendIv, c, plaintexts, pieces);
    }
  }

  // ---- what a session records ----

  /** The amounts passed to the user's upload and download counter, in order. */
  datatype Records = Records(up: seq<nat>, down: seq<nat>)

  function Sum(amounts: seq<nat>): nat {
    if amounts == [] then 0 else amounts[0] + Sum(amounts[1..])
  }

  /** A read is recorded before it is deciphered, so also when it is then refused. */
  function RelayRecords(ep: Endpoint, sendIv: Bytes, c: Connection, events: seq<Duplex.Event>): Records
    requires ep.Valid()
    decreases |events|
  {
    if events == [] then Records([], [])
    else
      match events[0]
      case FromClient(raw) =>
        var later := match Receive(ep, c.recv, raw)
                     case Failure(_) => Records([], [])
                     case Success(x) => RelayRecords(ep, sendIv, c.(recv := x.half), events[1..]);
        later.(up := [|raw|] + later.up)
      case FromRemote(plaintext) =>
        match Send(ep, sendIv, c, plaintext)
        case Failure(_) => Records([], [])
        case Success(x) =>
          var later := RelayRecords(ep, sendIv, x.conn, events[1..]);
          later.(down := [|x.wire|] + later.down)
  }

  /** The handshake's reads are recorded as one amount, once the target is known. */
  function SessionRecords(ep: Endpoint, utf8: Utf8, sendIv: Bytes, chunks: seq<Bytes>,
                          events: seq<Duplex.Event>): Records
    requires ep.Valid() && |sendIv| == ep.cipher.IvLen()
  {
    var a := Accept(ep, utf8, AwaitIv([]), [], 0, chunks);
    if !a.outcome.Connect? then Records([], [])
    else
      var relay := RelayRecords(ep, sendIv, Fresh(ep, sendIv).(recv := a.half), events);
      relay.(up := [a.outcome.uploaded] + relay.up)
  }

  /** What the relay has read from its client when it stops: with a refused read, up to that. */
  function ReadFrom(ep: Endpoint, c: Connection, events: seq<Duplex.Event>): seq<Bytes>
    requires ep.Valid()
  {
    var uploads := Duplex.Uploads(events);
    var n := Deliver(ep, c.recv, uploads).count;
    if n < |uploads| then uploads[..n + 1] else uploads
  }

  /** In every run, also a failing one, the recorded amounts add up to the bytes read from the
      client and to the bytes written to it. */
  lemma {:induction false} RelayRecordsAreWire(ep: Endpoint, sendIv: Bytes, c: Connection, events: seq<Duplex.Event>)
    requires ep.Valid() && c.recv.Opened?
    ensures Sum(RelayRecords(ep, sendIv, c, events).up) == |Concat(ReadFrom(ep, c, events))|
    ensures Sum(RelayRecords(ep, sendIv, c, events).down) == |Duplex.Relay(ep, sendIv, c, events).toClient|
    decreases |events|
  {
    hide Receive, Send;
    if events != [] {
      var rest := events[1..];
      match events[0]
      case FromClient(raw) =>
        assert Duplex.Uploads(events) == [raw] + Duplex.Uploads(rest);
        assert Duplex.Uploads(events)[1..] == Duplex.Uploads(rest);
        Duplex.ReceiveNumbered(ep, c.recv, 0, raw);
        if Receive(ep, c.recv, raw).Success? {
          var c1 := c.(recv := Receive(ep, c.recv, raw).value.half);
          RelayRecordsAreWire(ep, sendIv, c1, rest);
          assert ReadFrom(ep, c, events) == [raw] + ReadFrom(ep, c1, rest);
        } else {
          assert ReadFrom(ep, c, events) == [raw];
          assert Concat([raw]) == raw + Concat([]);
        }
      case FromRemote(plaintext) =>
        assert Duplex.Uploads(events) == Duplex.Uploads(rest);
        Duplex.SendNumbers(ep, sendIv, c, plaintext);
        var c1 := Send(ep, sendIv, c, plaintext).value.conn;
        Duplex.DeliverNumbered(ep, c.recv, c1.recv.proto.packId, Duplex.Uploads(rest));
        RelayRecordsAreWire(ep, sendIv, c1, rest);
    }
  }

  lemma SessionRecordsAreWire(ep: Endpoint, utf8: Utf8, sendIv: Bytes, chunks: seq<Bytes>, events: seq<Duplex.Event>,
                              a: Accepted, relay: Duplex.Traffic)
    requires ep.Valid() && |sendIv| == ep.cipher.IvLen() && (forall i :: 0 <= i < |chunks| ==> chunks[i] != [])
    requires a == Accept(ep, utf8, AwaitIv([]), [], 0, chunks) && a.outcome.Connect?
    requires relay == Duplex.Relay(ep, sendIv, Fresh(ep, sendIv).(recv := a.half), events)
    ensures Sum(SessionRecords(ep, utf8, sendIv, chunks, events).down) == |relay.toClient|
    ensures Duplex.Uploads(events) == a.outcome.rest && relay.end.Success? ==>
      Sum(SessionRecords(ep, utf8, sendIv, chunks, events).up) == |Concat(chunks)|
  {
    ConnectedIsAuthenticated(ep, utf8, AwaitIv([]), [], 0, chunks);
    HandshakeFraming(ep, utf8, chunks);
    var c := Fresh(ep, sendIv).(recv := a.half);
    hide Accept, RelayRecords, Duplex.Relay, Deliver, Receive, Decodable, Parse, SendAll;
    RelayRecordsAreWire(ep, sendIv, c, events);
    Duplex.DirectionsAreIndependent(ep, sendIv, c, events);
    DeliverIsReceiveAll(ep, c.recv, Duplex.Uploads(events));
    var records := RelayRecords(ep, sendIv, c, events).up;
    assert ([a.outcome.uploaded] + records)[1..] == records;
  }

  /** A whole session. A client sends its auth packet and any packets whose payload starts with
      an address; TCP cuts the stream anywhere; after the handshake the two directions interleave
      in any way. The server connects to that address, the remote side gets exactly the payload
      behind it, the client gets exactly what the remote side sent, and the bytes counted are
      the bytes on the wire. */
  lemma WholeSession(ep: Endpoint, utf8: Utf8, iv: Bytes, sendIv: Bytes, auth: Auth, plains: seq<Plain>,
                     address: Parsed,
                     chunks: seq<Bytes>, a: Accepted, events: seq<Duplex.Event>, pieces: seq<Bytes>)
      returns (relay: Duplex.Traffic)
    requires Arrives(ep, utf8, iv, auth, plains, address, chunks, a) && |sendIv| == ep.cipher.IvLen()
    requires a.outcome.Connect? ==> Duplex.Uploads(events) == a.outcome.rest
    ensures a.outcome.Connect? && a.outcome.target == address.address
    ensures var recorded := SessionRecords(ep, utf8, sendIv, chunks, events);
      Sum(recorded.up) == |Concat(chunks)| && Sum(recorded.down) == |relay.toClient|
    ensures address.consumed <= |auth.payload + Payloads(plains)|
    ensures Duplex.Relay(ep, sendIv, Fresh(ep, sendIv).(recv := a.half), events) == relay && relay.end.Success?
    ensures a.outcome.initial + relay.toRemote == (auth.payload + Payloads(plains))[address.consumed..]
    ensures |relay.toClient| == DownloadSize(sendIv, Duplex.Downloads(events))
    ensures Concat(pieces) == relay.toClient ==>
      Recovers(Peer(ep, SelectedKey(ep, iv, auth.uid)), pieces, Concat(Duplex.Downloads(events)))
    ensures a.half.Opened? && relay.end.value.recv.Opened?
    ensures a.half.proto.userId == relay.end.value.recv.proto.userId
    ensures relay.end.value.recv.proto.userId == if auth.uid in ep.users then Some(auth.uid) else None
    ensures relay.end.value.recv.proto.userKey == SelectedKey(ep, iv, auth.uid)
  {
    hide Receive, ReceiveAll, SendAll, Send, Parse, Accept, ClientWire, SelectedKey, Concat, Payloads, AllFit,
         Duplex.Relay, Duplex.Uploads, Duplex.Downloads, DownloadSize, Recovers, Peer, Fresh;
    HandshakeThenUpload(ep, utf8, iv, auth, plains, address, chunks, a);
    RelayIsApart(ep, sendIv, a.half, events);
    DownloadAfterHandshake(ep, sendIv, a.half, Duplex.Downloads(events), pieces);
    relay := Duplex.Relay(ep, sendIv, Fresh(ep, sendIv).(recv := a.half), events);
    SessionRecordsAreWire(ep, utf8, sendIv, chunks, events, a, relay);
  }

  // ---- what a session charges ----

  /** Sending leaves the receiving half as valid as it was. */
  lemma SendKeepsValid(ep: Endpoint, sendIv: Bytes, c: Connection, plaintext: Bytes)
    requires ep.Valid() && c.recv.Opened? && ValidHalf(ep, c.recv)
    ensures Send(ep, sendIv, c, plaintext).Success?
    ensures var recv := Send(ep, sendIv, c, plaintext).value.conn.recv;
      recv.Opened? && ValidHalf(ep, recv)
  {
    var packId := Send(ep, sendIv, c, plaintext).value.conn.recv.proto.packId;
    Duplex.StepNumbered(c.recv.env, c.recv.proto, packId);
    Duplex.SendNumbers(ep, sendIv, c, plaintext);
    hide Step, Send;
  }

  /** Between any two turns of the relay the receiving half is valid. */
  lemma {:induction false} RelayKeepsValid(ep: Endpoint, sendIv: Bytes, c: Connection, events: seq<Duplex.Event>)
    requires ep.Valid() && c.recv.Opened? && ValidHalf(ep, c.recv)
    requires Duplex.Relay(ep, sendIv, c, events).end.Success?
    ensures var recv := Duplex.Relay(ep, sendIv, c, events).end.value.recv;
      recv.Opened? && ValidHalf(ep, recv)
    decreases |events|
  {
    hide Receive, Send, ValidHalf;
    if events != [] {
      match events[0]
      case FromClient(raw) =>
        ReceiveKeepsValid(ep, c.recv, raw);
        Duplex.ReceiveNumbered(ep, c.recv, 0, raw);
        RelayKeepsValid(ep, sendIv, c.(recv := Receive(ep, c.recv, raw).value.half), events[1..]);
      case FromRemote(plaintext) =>
        SendKeepsValid(ep, sendIv, c, plaintext);
        RelayKeepsValid(ep, sendIv, Send(ep, sendIv, c, plaintext).value.conn, events[1..]);
    }
  }

  /** What the relay loop passes to `acquire`, in order, up to its first failure. */
  function RelayCharges(ep: Endpoint, sendIv: Bytes, c: Connection, events: seq<Duplex.Event>): seq<nat>
    requires ep.Valid()
    decreases |events|
  {
    if events == [] then []
    else
      match events[0]
      case FromClient(raw) =>
        (match Receive(ep, c.recv, raw)
         case Failure(_) => []
         case Success(x) =>
           (if x.out == [] then [] else [|x.out|]) + RelayCharges(ep, sendIv, c.(recv := x.half), events[1..]))
      case FromRemote(plaintext) =>
        match Send(ep, sendIv, c, plaintext)
        case Failure(_) => []
        case Success(x) => [|x.wire|] + RelayCharges(ep, sendIv, x.conn, events[1..])
  }

  /** What a whole session does: the initial payload first, then the relay's amounts. */
  function SessionCharges(ep: Endpoint, utf8: Utf8, sendIv: Bytes, chunks: seq<Bytes>,
                          events: seq<Duplex.Event>): seq<nat>
    requires ep.Valid() && |sendIv| == ep.cipher.IvLen()
  {
    var a := Accept(ep, utf8, AwaitIv([]), [], 0, chunks);
    if !a.outcome.Connect? then []
    else
      (if a.outcome.initial == [] then [] else [|a.outcome.initial|])
      + RelayCharges(ep, sendIv, Fresh(ep, sendIv).(recv := a.half), events)
  }

  /** Every read is into a buffer of 16 KiB. */
  predicate SmallReads(events: seq<Duplex.Event>) {
    forall i :: 0 <= i < |events| ==>
      match events[i]
      case FromClient(raw) => |raw| <= READ_CHUNK
      case FromRemote(plaintext) => |plaintext| <= READ_CHUNK
  }

  lemma {:induction false} RelayChargesAreSmall(ep: Endpoint, sendIv: Bytes, c: Connection, events: seq<Duplex.Event>)
    requires ep.Valid() && |sendIv| == ep.cipher.IvLen() && SmallReads(events)
    requires c.recv.Opened? && ValidHalf(ep, c.recv)
    ensures forall n :: n in RelayCharges(ep, sendIv, c, events) ==> n < 0x4_0000
    decreases |events|
  {
    hide Receive, Send, ValidHalf;
    if events != [] {
      match events[0]
      case FromClient(raw) =>
        if Receive(ep, c.recv, raw).Success? {
          var x := Receive(ep, c.recv, raw).value;
          DecryptedIsBounded(ep, c.recv, raw);
          ReceiveKeepsValid(ep, c.recv, raw);
          Duplex.ReceiveNumbered(ep, c.recv, 0, raw);
          RelayChargesAreSmall(ep, sendIv, c.(recv := x.half), events[1..]);
        }
      case FromRemote(plaintext) =>
        EncryptedIsBounded(ep, sendIv, c, plaintext);
        SendKeepsValid(ep, sendIv, c, plaintext);
        RelayChargesAreSmall(ep, sendIv, Send(ep, sendIv, c, plaintext).value.conn, events[1..]);
    }
  }

  /** Every amount a session charges to the user's bucket, in any interleaving, is below 256 KiB:
      no attempt to acquire it, waiting ones included, is ever clamped to the bucket's capacity. */
  lemma ChargedInFull(ep: Endpoint, utf8: Utf8, sendIv: Bytes, chunks: seq<Bytes>, events: seq<Duplex.Event>,
                      amount: nat)
    requires ep.Valid() && |sendIv| == ep.cipher.IvLen()
    requires (forall i :: 0 <= i < |chunks| ==> |chunks[i]| <= READ_CHUNK) && SmallReads(events)
    requires amount in SessionCharges(ep, utf8, sendIv, chunks, events)
    ensures amount < 0x4_0000
    ensures forall b: RateLimit.Bucket, now: real :: b.Valid() ==>
      RateLimit.TryAcquire(b, amount, now).1 == RateLimit.Unclamped(b, amount, now)
  {
    hide Accept, RelayCharges, ValidHalf, RateLimit.TryAcquire, RateLimit.Unclamped, RateLimit.Bucket.Valid;
    ConnectedIsAuthenticated(ep, utf8, AwaitIv([]), [], 0, chunks);
    InitialIsValid(ep);
    InitialIsBounded(ep, utf8, AwaitIv([]), [], 0, chunks);
    var a := Accept(ep, utf8, AwaitIv([]), [], 0, chunks);
    RelayChargesAreSmall(ep, sendIv, Fresh(ep, sendIv).(recv := a.half), events);
    forall b: RateLimit.Bucket, now: real | b.Valid()
      ensures RateLimit.TryAcquire(b, amount, now).1 == RateLimit.Unclamped(b, amount, now)
    {
      RateLimit.SmallAmountsAreNotClamped(b, amount, now);
    }
  }

  lemma InitialIsValid(ep: Endpoint)
    ensures ValidHalf(ep, AwaitIv([]))
  {
  }

  // ---- the charges are the traffic ----

  lemma {:induction false} SumAppend(a: seq<nat>, b: seq<nat>)
    ensures Sum(a + b) == Sum(a) + Sum(b)
  {
    if a == [] {
      assert a + b == b;
    } else {
      assert (a + b)[1..] == a[1..] + b;
      SumAppend(a[1..], b);
    }
  }

  /** In every relay run, also a failing one, what is charged is what is moved, in both directions
      together, and nothing is charged for an empty read. */
  lemma {:induction false} RelayChargesAreBytes(ep: Endpoint, sendIv: Bytes, c: Connection, events: seq<Duplex.Event>)
    requires ep.Valid()
    ensures var relay := Duplex.Relay(ep, sendIv, c, events);
      Sum(RelayCharges(ep, sendIv, c, events)) == |relay.toRemote| + |relay.toClient|
    decreases |events|
  {
    hide Receive, Send;
    if events != [] {
      match events[0]
      case FromClient(raw) =>
        if Receive(ep, c.recv, raw).Success? {
          var x := Receive(ep, c.recv, raw).value;
          RelayChargesAreBytes(ep, sendIv, c.(recv := x.half), events[1..]);
          SumAppend(if x.out == [] then [] else [|x.out|], RelayCharges(ep, sendIv, c.(recv := x.half), events[1..]));
          assert Sum([|x.out|]) == |x.out| + Sum([]);
        }
      case FromRemote(plaintext) =>
        if Send(ep, sendIv, c, plaintext).Success? {
          var x := Send(ep, sendIv, c, plaintext).value;
          RelayChargesAreBytes(ep, sendIv, x.conn, events[1..]);
          SumAppend([|x.wire|], RelayCharges(ep, sendIv, x.conn, events[1..]));
          assert Sum([|x.wire|]) == |x.wire| + Sum([]);
        }
    }
  }

  /** Over a session the initial payload is charged too. */
  lemma SessionChargesAreBytes(ep: Endpoint, utf8: Utf8, sendIv: Bytes, chunks: seq<Bytes>, events: seq<Duplex.Event>)
    requires ep.Valid() && |sendIv| == ep.cipher.IvLen()
    ensures var a := Accept(ep, utf8, AwaitIv([]), [], 0, chunks);
      var relay := Duplex.Relay(ep, sendIv, Fresh(ep, sendIv).(recv := a.half), events);
      Sum(SessionCharges(ep, utf8, sendIv, chunks, events))
      == if a.outcome.Connect? then |a.outcome.initial| + |relay.toRemote| + |relay.toClient| else 0
  {
    hide Accept, RelayCharges, Duplex.Relay;
    var a := Accept(ep, utf8, AwaitIv([]), [], 0, chunks);
    if a.outcome.Connect? {
      var c := Fresh(ep, sendIv).(recv := a.half);
      RelayChargesAreBytes(ep, sendIv, c, events);
      SumAppend(if a.outcome.initial == [] then [] else [|a.outcome.initial|], RelayCharges(ep, sendIv, c, events));
      assert Sum([|a.outcome.initial|]) == |a.outcome.initial| + Sum([]);
    }
  }
}
