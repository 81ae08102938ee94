/** The stream codec end to end: what a client sends, the server outputs, and the reverse,
    through any segmentation and any interleaving of the two directions. */
module RoundTrip {
  import opened Bytes
  import opened Crypto
  import opened Cipher
  import opened Protocol
  import opened Session
  import opened ServerCodec
  import opened Packets

  // ---- upload ----

  /** The key a server uses for a client that names itself `uid` behind IV `iv`. */
  function SelectedKey(ep: Endpoint, iv: Bytes, uid: nat): Bytes {
    SelectUser(ep.EnvFor(iv), Initial(ep.EnvFor(iv)), uid).userKey
  }

  /** A client's whole upload: its IV, then the enciphered auth and data packets. */
  function ClientWire(ep: Endpoint, iv: Bytes, userKey: Bytes, a: Auth, plains: seq<Plain>): Bytes
    requires ep.Valid() && |iv| == ep.cipher.IvLen() && a.Fits() && AllFit(plains)
  {
    iv + ep.cipher.NewStream(ep.prim, ep.masterKey, iv).Encipher(ep.prim,
           AuthPacket(ep.EnvFor(iv), userKey, a) + DataPackets(ep.prim, userKey, 1, plains))
  }

  /** Upload round trip: whatever the padding, the segmentation and the number of packets, a
      client that holds the key selected for its uid is heard exactly; it is authenticated
      when, and only when, the uid is in the table. */
  lemma UploadRoundTrip(ep: Endpoint, iv: Bytes, a: Auth, plains: seq<Plain>, chunks: seq<Bytes>)
    requires ep.Valid() && ep.role.Server? && |iv| == ep.cipher.IvLen() && ep.prim.AesInverts()
    requires a.Fits() && AllFit(plains)
    requires Concat(chunks) == ClientWire(ep, iv, SelectedKey(ep, iv, a.uid), a, plains)
    ensures var r := ReceiveAll(ep, AwaitIv([]), chunks);
      && r.Success?
      && r.value.out == a.payload + Payloads(plains)
      && r.value.half.Opened?
      && r.value.half.proto.userId == (if a.uid in ep.users then Some(a.uid) else None)
      && r.value.half.proto.userKey == SelectedKey(ep, iv, a.uid)
      && r.value.half.proto.recvBuf == [] && r.value.half.proto.hasRecvHeader
      && r.value.half.proto.recvId == WrapAdd32(1, |plains|)
  {
    hide ReceiveAll, Receive, ClientWire, WrapAdd32, AesKeyFor;
    SegmentationIndependence(ep, AwaitIv([]), chunks);
    UploadInOnePiece(ep, iv, a, plains);
  }

  lemma UploadInOnePiece(ep: Endpoint, iv: Bytes, a: Auth, plains: seq<Plain>)
    requires ep.Valid() && ep.role.Server? && |iv| == ep.cipher.IvLen() && ep.prim.AesInverts()
    requires a.Fits() && AllFit(plains)
    ensures var e := ep.EnvFor(iv);
      var wire := ClientWire(ep, iv, SelectedKey(ep, iv, a.uid), a, plains);
      var r := Receive(ep, AwaitIv([]), wire);
      && r.Success?
      && r.value.out == a.payload + Payloads(plains)
      && r.value.half.Opened?
      && r.value.half.proto == SelectUser(e, Initial(e), a.uid).(
           recvBuf := [], hasRecvHeader := true, recvId := WrapAdd32(1, |plains|))
  {
    hide AuthPacket, DataPackets, PostDecrypt, Initial, SelectUser, WrapAdd32, Stream.Encipher, Stream.Skip,
         CipherKind.NewStream;
    var e := ep.EnvFor(iv);
    var key := SelectedKey(ep, iv, a.uid);
    var plain := AuthPacket(e, key, a) + DataPackets(ep.prim, key, 1, plains);
    var stream := ep.cipher.NewStream(ep.prim, ep.masterKey, iv);
    IvFirst(ep, iv, stream.Encipher(ep.prim, plain));
    EncipherTwice(ep.prim, stream, plain);
    HandshakeInOneFeed(e, a, plains);
  }

  lemma HandshakeInOneFeed(e: Env, a: Auth, plains: seq<Plain>)
    requires e.prim.AesInverts() && a.Fits() && AllFit(plains)
    ensures var q := SelectUser(e, Initial(e), a.uid);
      var plain := AuthPacket(e, q.userKey, a) + DataPackets(e.prim, q.userKey, 1, plains);
      && plain != []
      && PostDecrypt(e, Initial(e), plain)
         == Success(Decoded(q.(recvBuf := [], hasRecvHeader := true, recvId := WrapAdd32(1, |plains|)),
                            a.payload + Payloads(plains)))
  {
    hide AuthPacket, DataPackets, WrapAdd32, Drain, AesKeyFor;
    var q := SelectUser(e, Initial(e), a.uid);
    var plain := AuthPacket(e, q.userKey, a) + DataPackets(e.prim, q.userKey, 1, plains);
    AuthPacketLayout(e, q.userKey, a);
    var p := Initial(e).Feed(plain);
    assert p.recvBuf == plain;
    assert SelectUser(e, p, a.uid) == q.(recvBuf := plain);
    HandshakeDecodes(e, p, a, plains);
  }

  // ---- download ----

  /** The client of a server connection, which verifies every packet with its own user key. */
  function Peer(ep: Endpoint, userKey: Bytes): Endpoint { ep.(role := Client(userKey)) }

  /** The client is ready for exactly what the server sends next. */
  ghost predicate InStep(c: Connection, h: RecvHalf) {
    && c.recv.Opened? && h.Opened?
    && c.sendIvEmitted
    && h.decryptor == c.encryptor
    && h.proto.hasRecvHeader && h.proto.recvBuf == []
    && h.proto.userKey == c.recv.proto.userKey
    && h.proto.recvId == c.recv.proto.packId
  }

  /** One `encrypt` call: accepted in one piece, whatever the packet number, so also across
      the wrap of the 32-bit counter. */
  lemma SendIsReceived(ep: Endpoint, sendIv: Bytes, c: Connection, h: RecvHalf, plaintext: Bytes)
    requires ep.Valid() && InStep(c, h) && h.env.prim == ep.prim
    ensures var sent := Send(ep, sendIv, c, plaintext);
      && sent.Success?
      && var r := ReceiveOpened(Peer(ep, c.recv.proto.userKey), h, sent.value.wire);
         && r.Success? && r.value.out == plaintext
         && InStep(sent.value.conn, r.value.half) && r.value.half.env == h.env
  {
    hide PostDecrypt, PreEncrypt, Stream.Encipher, Stream.Skip;
    PacketsAreReceived(h.env, c.recv.proto, h.proto, plaintext);
    EncipherTwice(ep.prim, c.encryptor, PreEncrypt(ep.prim, c.recv.proto, plaintext).1);
  }

  /** The same below the cipher. */
  lemma PacketsAreReceived(e: Env, s: Proto, p: Proto, plaintext: Bytes)
    requires p.hasRecvHeader && p.recvBuf == [] && p.userKey == s.userKey && p.recvId == s.packId
    ensures var (s', body) := PreEncrypt(e.prim, s, plaintext);
      && body != []
      && s' == s.(packId := s'.packId)
      && PostDecrypt(e, p, body) == Success(Decoded(p.(recvId := s'.packId), plaintext))
  {
    PreEncryptSize(e.prim, s, plaintext);
    hide Units, DataPackets, WrapAdd32, Drain;
    var units := Units(plaintext);
    UnitsPartition(plaintext);
    var body := DataPackets(e.prim, s.userKey, s.packId, units);
    assert p.Feed(body).recvBuf == body;
    DataPacketsDecode(e, p.Feed(body), units);
  }

  /** All `encrypt` calls of a run, in order. */
  function SendAll(ep: Endpoint, sendIv: Bytes, c: Connection, plaintexts: seq<Bytes>): Result<Sent, EncryptError>
    decreases |plaintexts|
  {
    if plaintexts == [] then Success(Sent(c, []))
    else
      match Send(ep, sendIv, c, plaintexts[0])
      case Failure(error) => Failure(error)
      case Success(x) =>
        match SendAll(ep, sendIv, x.conn, plaintexts[1..])
        case Failure(error) => Failure(error)
        case Success(y) => Success(Sent(y.conn, x.wire + y.wire))
  }

  lemma {:induction false} SendAllIsReceived(ep: Endpoint, sendIv: Bytes, c: Connection, h: RecvHalf,
                                             plaintexts: seq<Bytes>)
    requires ep.Valid() && InStep(c, h) && h.env.prim == ep.prim
    ensures var sent := SendAll(ep, sendIv, c, plaintexts);
      && sent.Success?
      && var r := ReceiveOpened(Peer(ep, c.recv.proto.userKey), h, sent.value.wire);
         && r.Success? && r.value.out == Concat(plaintexts)
         && InStep(sent.value.conn, r.value.half)
    decreases |plaintexts|
  {
    InStepOpened(c, h);
    hide Send, ReceiveOpened, InStep;
    var peer := Peer(ep, c.recv.proto.userKey);
    if plaintexts == [] {
      ReceiveOpenedNothing(peer, h);
    } else {
      SendIsReceived(ep, sendIv, c, h, plaintexts[0]);
      var x := Send(ep, sendIv, c, plaintexts[0]).value;
      SendKeepsKey(ep, sendIv, c, plaintexts[0]);
      var first := ReceiveOpened(peer, h, x.wire).value;
      InStepOpened(x.conn, first.half);
      SendAllIsReceived(ep, sendIv, x.conn, first.half, plaintexts[1..]);
      ReceiveOpenedAppend(peer, h, x.wire, SendAll(ep, sendIv, x.conn, plaintexts[1..]).value.wire);
    }
  }

  lemma InStepOpened(c: Connection, h: RecvHalf)
    requires InStep(c, h)
    ensures c.recv.Opened? && h.Opened?
  {
  }

  lemma SendKeepsKey(ep: Endpoint, sendIv: Bytes, c: Connection, plaintext: Bytes)
    requires c.recv.Opened?
    ensures Send(ep, sendIv, c, plaintext).Success?
    ensures Send(ep, sendIv, c, plaintext).value.conn.recv.Opened?
    ensures Send(ep, sendIv, c, plaintext).value.conn.recv.proto.userKey == c.recv.proto.userKey
  {
  }

  /** Download round trip: any sequence of `encrypt` calls, read by the client through any
      segmentation, gives back the concatenated plaintexts, and the counters agree. */
  lemma DownloadRoundTrip(ep: Endpoint, sendIv: Bytes, c: Connection, plaintexts: seq<Bytes>, chunks: seq<Bytes>)
    requires ep.Valid() && |sendIv| == ep.cipher.IvLen()
    requires c.recv.Opened? && c.recv.proto.packId == 1
    requires !c.sendIvEmitted && c.encryptor == ep.cipher.NewStream(ep.prim, ep.masterKey, sendIv)
    requires SendAll(ep, sendIv, c, plaintexts).Success?
    requires Concat(chunks) == SendAll(ep, sendIv, c, plaintexts).value.wire
    ensures var r := ReceiveAll(Peer(ep, c.recv.proto.userKey), AwaitIv([]), chunks);
      && r.Success? && r.value.out == Concat(plaintexts)
      && (plaintexts != [] ==> InStep(SendAll(ep, sendIv, c, plaintexts).value.conn, r.value.half))
  {
    hide Send, SendAll, ReceiveOpened, CipherKind.NewStream;
    var peer := Peer(ep, c.recv.proto.userKey);
    SegmentationIndependence(peer, AwaitIv([]), chunks);
    if plaintexts == [] {
      NothingSent(ep, sendIv, c);
      ReceiveNothing(peer, AwaitIv([]));
    } else {
      var h := peer.Open(sendIv);
      FirstSendCarriesIv(ep, sendIv, c, plaintexts);
      assert InStep(c.(sendIvEmitted := true), h);
      SendAllIsReceived(ep, sendIv, c.(sendIvEmitted := true), h, plaintexts);
      IvFirst(peer, sendIv, SendAll(ep, sendIv, c.(sendIvEmitted := true), plaintexts).value.wire);
    }
  }

  /** Before the client's IV is complete nothing can be sent. */
  lemma SendNeedsHandshake(ep: Endpoint, sendIv: Bytes, c: Connection, plaintext: Bytes)
    ensures Send(ep, sendIv, c, plaintext) == Failure(NoHandshakeYet) <==> c.recv.AwaitIv?
  {
    hide PreEncrypt, Stream.Encipher, Stream.Skip;
  }

  lemma NothingSent(ep: Endpoint, sendIv: Bytes, c: Connection)
    ensures SendAll(ep, sendIv, c, []) == Success(Sent(c, []))
  {
  }

  lemma IvFirst(ep: Endpoint, iv: Bytes, body: Bytes)
    requires ep.Valid() && |iv| == ep.cipher.IvLen()
    ensures Receive(ep, AwaitIv([]), iv + body) == ReceiveOpened(ep, ep.Open(iv), body)
  {
    hide ReceiveOpened;
    assert [] + (iv + body) == iv + body && (iv + body)[..|iv|] == iv && (iv + body)[|iv|..] == body;
  }

  /** Over a session the IV is sent once, in front. */
  lemma FirstSendCarriesIv(ep: Endpoint, sendIv: Bytes, c: Connection, plaintexts: seq<Bytes>)
    requires c.recv.Opened? && !c.sendIvEmitted && plaintexts != []
    ensures SendAll(ep, sendIv, c, plaintexts).Success?
    ensures SendAll(ep, sendIv, c.(sendIvEmitted := true), plaintexts).Success?
    ensures SendAll(ep, sendIv, c, plaintexts).value.wire
         == sendIv + SendAll(ep, sendIv, c.(sendIvEmitted := true), plaintexts).value.wire
    ensures SendAll(ep, sendIv, c, plaintexts).value.conn
         == SendAll(ep, sendIv, c.(sendIvEmitted := true), plaintexts).value.conn
  {
    hide PreEncrypt, Stream.Encipher, Stream.Skip;
    var x := Send(ep, sendIv, c.(sendIvEmitted := true), plaintexts[0]).value;
    var y := SendAll(ep, sendIv, x.conn, plaintexts[1..]);
    SendAllSucceeds(ep, sendIv, x.conn, plaintexts[1..]);
    assert sendIv + x.wire + y.value.wire == sendIv + (x.wire + y.value.wire);
  }

  lemma {:induction false} SendAllSucceeds(ep: Endpoint, sendIv: Bytes, c: Connection, plaintexts: seq<Bytes>)
    requires c.recv.Opened?
    ensures SendAll(ep, sendIv, c, plaintexts).Success?
    ensures SendAll(ep, sendIv, c, plaintexts).value.conn.recv.Opened?
    decreases |plaintexts|
  {
    hide PreEncrypt, Stream.Encipher, Stream.Skip;
    if plaintexts != [] {
      SendAllSucceeds(ep, sendIv, Send(ep, sendIv, c, plaintexts[0]).value.conn, plaintexts[1..]);
    }
  }

  /** The bytes a session has put on the wire: the plaintexts, nine bytes per packet, one IV. */
  function WireSize(plaintexts: seq<Bytes>): nat {
    if plaintexts == [] then 0
    else |plaintexts[0]| + 9 * PacketCount(|plaintexts[0]|) + WireSize(plaintexts[1..])
  }

  lemma {:induction false} SessionWireSize(ep: Endpoint, sendIv: Bytes, c: Connection, plaintexts: seq<Bytes>)
    requires c.recv.Opened?
    ensures SendAll(ep, sendIv, c, plaintexts).Success?
    ensures |SendAll(ep, sendIv, c, plaintexts).value.wire|
         == WireSize(plaintexts) + if c.sendIvEmitted || plaintexts == [] then 0 else |sendIv|
    decreases |plaintexts|
  {
    if plaintexts != [] {
      PreEncryptSize(ep.prim, c.recv.proto, plaintexts[0]);
      hide PreEncrypt, Stream.Encipher, Stream.Skip;
      SessionWireSize(ep, sendIv, Send(ep, sendIv, c, plaintexts[0]).value.conn, plaintexts[1..]);
    }
  }
}
