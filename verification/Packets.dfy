/** A well-formed packet is taken off the buffer whole, and gives back its payload
    (`src/ssr/protocol.rs:80-220`, client shape at `src/ssr/mod.rs:349-419`). */
module Packets {
  import opened Bytes
  import opened Crypto
  import opened Protocol
  import opened Segmentation

  function Payloads(plains: seq<Plain>): Bytes {
    if plains == [] then [] else plains[0].payload + Payloads(plains[1..])
  }

  // ---- data packets ----

  /** The fields of a data packet, where the receiver looks for them. */
  lemma DataPacketLayout(p: Primitives, userKey: Bytes, id: u32, plain: Plain)
    requires plain.Fits()
    ensures var buf := DataPacket(p, userKey, id, plain);
      var macKey := userKey + LittleEndian32(id);
      var n := |plain.padding.Wire()| + |plain.payload| + 8;
      && |buf| == n
      && U16(buf[0], buf[1]) == n
      && p.Mac(macKey, buf[..2], 2) == buf[2..4]
      && p.Mac(macKey, buf[..n - 4], 4) == buf[n - 4..n]
      && buf[4..n - 4] == plain.padding.Wire() + plain.payload
  {
    hide LittleEndian16, LittleEndian32, Padding.Wire;
    var buf := DataPacket(p, userKey, id, plain);
    var data := plain.padding.Wire() + plain.payload;
    var macKey := userKey + LittleEndian32(id);
    var n := |data| + 8;
    var lenBytes := LittleEndian16(TruncateToU16(n));
    assert TruncateToU16(n) == n;
    var packet := lenBytes + p.Mac(macKey, lenBytes, 2) + data;
    assert buf == packet + p.Mac(macKey, packet, 4);
    assert buf[..2] == lenBytes;
    assert buf[0] == lenBytes[0] && buf[1] == lenBytes[1];
    assert buf[..n - 4] == packet;
    assert buf[4..n - 4] == data;
  }

  /** Where the padding ends. */
  lemma PaddingEnd(padding: Padding, payload: Bytes, data: Bytes)
    requires padding.Valid() && |padding.Wire()| + |payload| < MAX_PACKET
    requires data == padding.Wire() + payload
    ensures |data| > 0
    ensures data[0] == 255 ==> |data| >= 3
    ensures (if data[0] < 255 then data[0] as int else U16(data[1], data[2]) as int) == |padding.Wire()|
  {
  }

  lemma DataPacketDecodes(e: Env, p: Proto, plain: Plain)
    requires p.hasRecvHeader && plain.Fits()
    requires p.recvBuf == DataPacket(e.prim, p.userKey, p.recvId, plain)
    ensures Step(e, p) == Emit(p.(recvBuf := [], recvId := WrapAdd32(p.recvId, 1)), plain.payload)
  {
    hide DataPacket, LittleEndian32, WrapAdd32, Padding.Wire;
    var buf := p.recvBuf;
    var n := |buf|;
    DataPacketLayout(e.prim, p.userKey, p.recvId, plain);
    var data := buf[4..n - 4];
    PaddingEnd(plain.padding, plain.payload, data);
    assert data[0] == buf[4];
    assert |data| >= 3 ==> data[1] == buf[5] && data[2] == buf[6];
    var pos := |plain.padding.Wire()| + 4;
    assert buf[pos..n - 4] == data[pos - 4..] == plain.payload;
  }

  /** Any number of packets in the buffer: all are accepted, in order, and none is left. */
  lemma {:induction false} DataPacketsDecode(e: Env, p: Proto, plains: seq<Plain>)
    requires p.hasRecvHeader && AllFit(plains)
    requires p.recvBuf == DataPackets(e.prim, p.userKey, p.recvId, plains)
    ensures Drain(e, p)
         == Success(Decoded(p.(recvBuf := [], recvId := WrapAdd32(p.recvId, |plains|)), Payloads(plains)))
    decreases |plains|
  {
    hide DataPacket, WrapAdd32, DataStep, HeaderStep;
    if plains == [] {
      WrapAdd32Nothing(p.recvId);
    } else {
      var first := DataPacket(e.prim, p.userKey, p.recvId, plains[0]);
      var later := DataPackets(e.prim, p.userKey, WrapAdd32(p.recvId, 1), plains[1..]);
      DataPacketDecodes(e, p.(recvBuf := first), plains[0]);
      StepExtends(e, p.(recvBuf := first), later);
      assert p.(recvBuf := first).Feed(later) == p;
      var q := p.(recvBuf := [], recvId := WrapAdd32(p.recvId, 1)).Feed(later);
      assert [] + later == later;
      assert Step(e, p) == Emit(q, plains[0].payload);
      DataPacketsDecode(e, q, plains[1..]);
      WrapAdd32Compose(p.recvId, 1, |plains| - 1);
    }
  }

  // ---- the auth packet ----

  datatype Auth = Auth(checkByte: byte, uid: u32, clientData: Bytes, noise: Bytes, payload: Bytes) {
    /** 12 bytes of time and connection ids; the whole packet is one the receiver accepts. */
    predicate Fits() { |clientData| == 12 && |noise| + |payload| + 35 < MAX_PACKET }

    function Length(): nat { |noise| + |payload| + 35 }

    function Block(): Digest
      requires Fits()
    {
      clientData + LittleEndian16(Length()) + LittleEndian16(|noise|)
    }

    function Head(e: Env): Bytes {
      [checkByte] + e.prim.Mac(e.HeadKey(), [checkByte], 6)
    }

    function Identity(e: Env, userKey: Bytes): Bytes
      requires Fits()
    {
      LittleEndian32(uid) + e.prim.aesEncrypt(AesKeyFor(e.prim, userKey), Block())
    }

    function Body(e: Env, userKey: Bytes): Bytes
      requires Fits()
    {
      Head(e) + Identity(e, userKey) + e.prim.Mac(e.HeadKey(), Identity(e, userKey), 4) + noise + payload
    }
  }

  function AuthPacket(e: Env, userKey: Bytes, a: Auth): Bytes
    requires a.Fits()
  {
    a.Body(e, userKey) + e.prim.Mac(userKey, a.Body(e, userKey), 4)
  }

  lemma BlockFields(a: Auth)
    requires a.Fits()
    ensures U16(a.Block()[12], a.Block()[13]) == a.Length()
    ensures U16(a.Block()[14], a.Block()[15]) == |a.noise|
  {
    var l, r := LittleEndian16(a.Length()), LittleEndian16(|a.noise|);
    assert a.Block()[12] == l[0] && a.Block()[13] == l[1];
    assert a.Block()[14] == r[0] && a.Block()[15] == r[1];
  }

  lemma AuthPacketLayout(e: Env, userKey: Bytes, a: Auth)
    requires a.Fits()
    ensures var buf := AuthPacket(e, userKey, a);
      var n := a.Length();
      && |buf| == n
      && e.prim.Mac(e.HeadKey(), buf[..1], 6) == buf[1..7]
      && e.prim.Mac(e.HeadKey(), buf[7..27], 4) == buf[27..31]
      && Uid(buf) == a.uid
      && buf[11..27] == e.prim.aesEncrypt(AesKeyFor(e.prim, userKey), a.Block())
      && e.prim.Mac(userKey, buf[..n - 4], 4) == buf[n - 4..n]
      && buf[31 + |a.noise|..n - 4] == a.payload
  {
    hide LittleEndian16, LittleEndian32, AesKeyFor, Auth.Block;
    var buf := AuthPacket(e, userKey, a);
    var n := a.Length();
    var body := a.Body(e, userKey);
    var uid := LittleEndian32(a.uid);
    assert |body| == n - 4;
    assert buf[..n - 4] == body;
    assert buf[..1] == [a.checkByte];
    assert buf[7..27] == a.Identity(e, userKey);
    assert buf[7] == uid[0] && buf[8] == uid[1] && buf[9] == uid[2] && buf[10] == uid[3];
  }

  /** The auth packet of a client whose key is the one the server selects for its uid. */
  lemma AuthPacketDecodes(e: Env, p: Proto, a: Auth)
    requires e.prim.AesInverts() && a.Fits()
    requires !p.hasRecvHeader && p.aesKey == AesKeyFor(e.prim, p.userKey)
    requires p.recvBuf == AuthPacket(e, SelectUser(e, p, a.uid).userKey, a)
    ensures Step(e, p)
         == Emit(SelectUser(e, p, a.uid).(recvBuf := [], hasRecvHeader := true), a.payload)
  {
    var q := SelectUser(e, p, a.uid);
    AuthPacketLayout(e, q.userKey, a);
    BlockFields(a);
    hide AuthPacket, AesKeyFor, Auth.Block, SelectUser;
    assert q.aesKey == AesKeyFor(e.prim, q.userKey) by {
      SelectedKeyMatches(e, p, a.uid);
    }
    assert q.recvBuf == p.recvBuf && !q.hasRecvHeader by {
      SelectUserKeepsBuffer(e, p, a.uid);
    }
    assert e.prim.aesDecrypt(q.aesKey, q.recvBuf[11..27]) == a.Block();
    assert AuthStep(e, q) == Emit(q.(recvBuf := [], hasRecvHeader := true), a.payload);
  }

  lemma SelectedKeyMatches(e: Env, p: Proto, uid: nat)
    requires p.aesKey == AesKeyFor(e.prim, p.userKey)
    ensures SelectUser(e, p, uid).aesKey == AesKeyFor(e.prim, SelectUser(e, p, uid).userKey)
  {
  }

  lemma SelectUserKeepsBuffer(e: Env, p: Proto, uid: nat)
    ensures SelectUser(e, p, uid).recvBuf == p.recvBuf
    ensures SelectUser(e, p, uid).hasRecvHeader == p.hasRecvHeader
    ensures SelectUser(e, p, uid).recvId == p.recvId
    ensures SelectUser(e, p, uid).packId == p.packId
  {
  }

  /** Auth packet and data packets back to back, in one buffer. */
  lemma HandshakeDecodes(e: Env, p: Proto, a: Auth, plains: seq<Plain>)
    requires e.prim.AesInverts() && a.Fits() && AllFit(plains)
    requires !p.hasRecvHeader && p.aesKey == AesKeyFor(e.prim, p.userKey)
    requires p.recvBuf == AuthPacket(e, SelectUser(e, p, a.uid).userKey, a)
                          + DataPackets(e.prim, SelectUser(e, p, a.uid).userKey, p.recvId, plains)
    ensures Drain(e, p)
         == Success(Decoded(SelectUser(e, p, a.uid).(
                              recvBuf := [], hasRecvHeader := true, recvId := WrapAdd32(p.recvId, |plains|)),
                            a.payload + Payloads(plains)))
  {
    var q := SelectUser(e, p, a.uid);
    SelectUserKeepsBuffer(e, p, a.uid);
    hide AuthPacket, DataPackets, WrapAdd32, HeaderStep, DataStep, AesKeyFor;
    var first := AuthPacket(e, q.userKey, a);
    var later := DataPackets(e.prim, q.userKey, p.recvId, plains);
    var alone := p.(recvBuf := first);
    assert SelectUser(e, alone, a.uid) == q.(recvBuf := first);
    AuthPacketDecodes(e, alone, a);
    StepExtends(e, alone, later);
    assert alone.Feed(later) == p;
    var ready := q.(recvBuf := later, hasRecvHeader := true);
    assert q.(recvBuf := [], hasRecvHeader := true).Feed(later) == ready by {
      assert [] + later == later;
    }
    assert Step(e, p) == Emit(ready, a.payload);
    DataPacketsDecode(e, ready, plains);
  }

  // ---- the server's own packets ----

  /** The units are the plaintext, cut. */
  lemma {:induction false} UnitsPartition(plaintext: Bytes)
    ensures Payloads(Units(plaintext)) == plaintext
    decreases |plaintext|
  {
    if |plaintext| > UNIT_LEN {
      var first, rest := Plain(Short([]), plaintext[..UNIT_LEN]), plaintext[UNIT_LEN..];
      UnitsPartition(rest);
      assert Units(plaintext) == [first] + Units(rest);
      assert Units(plaintext)[1..] == Units(rest);
      assert first.payload + rest == plaintext;
    } else {
      assert Units(plaintext)[1..] == [];
    }
  }

  /** How many packets a plaintext of `n` bytes takes: one, or as many as cover it. */
  function PacketCount(n: nat): (c: nat)
    ensures c >= 1
  {
    if n == 0 then 1 else (n + UNIT_LEN - 1) / UNIT_LEN
  }

  lemma {:induction false} UnitsCount(plaintext: Bytes)
    ensures |Units(plaintext)| == PacketCount(|plaintext|)
    decreases |plaintext|
  {
    if |plaintext| > UNIT_LEN {
      UnitsCount(plaintext[UNIT_LEN..]);
    }
  }

  lemma {:induction false} DataPacketsSize(p: Primitives, userKey: Bytes, id: u32, plains: seq<Plain>)
    requires AllFit(plains)
    requires forall i :: 0 <= i < |plains| ==> plains[i].padding == Short([])
    ensures |DataPackets(p, userKey, id, plains)| == |Payloads(plains)| + 9 * |plains|
    decreases |plains|
  {
    if plains != [] {
      DataPacketsSize(p, userKey, WrapAdd32(id, 1), plains[1..]);
      DataPacketLayout(p, userKey, id, plains[0]);
    }
  }

  /** Send framing: `max(1, ceil(n / 8100))` packets, nine bytes each on top of the plaintext. */
  lemma PreEncryptSize(p: Primitives, s: Proto, plaintext: Bytes)
    ensures |PreEncrypt(p, s, plaintext).1| == |plaintext| + 9 * PacketCount(|plaintext|)
  {
    UnitsPartition(plaintext);
    UnitsCount(plaintext);
    DataPacketsSize(p, s.userKey, s.packId, Units(plaintext));
  }

  /** The `as u16` of the packet length never drops a bit, and the receiver's length check
      accepts the result. */
  lemma UnitLengthAccepted(p: Primitives, s: Proto, plaintext: Bytes, i: nat, id: u32)
    requires i < |Units(plaintext)|
    ensures var packet := DataPacket(p, s.userKey, id, Units(plaintext)[i]);
      && 9 <= |packet| <= 8109
      && U16(packet[0], packet[1]) == |packet|
  {
    UnitsPartition(plaintext);
    DataPacketLayout(p, s.userKey, id, Units(plaintext)[i]);
  }

  /** Unit `i` of a plaintext is its bytes from 8100 * i on, 8100 of them or what is left, behind a
      single padding byte; there is one unit even of nothing. */
  lemma {:induction false} UnitsWrittenOut(plaintext: Bytes, i: nat)
    ensures |Units(plaintext)| == if plaintext == [] then 1 else (|plaintext| + 8099) / 8100
    ensures i < |Units(plaintext)| ==>
      var from, to := 8100 * i, if 8100 * i + 8100 <= |plaintext| then 8100 * i + 8100 else |plaintext|;
      from <= to && Units(plaintext)[i] == Plain(Short([]), plaintext[from..to])
    decreases |plaintext|
  {
    if |plaintext| > 8100 {
      UnitsWrittenOut(plaintext[8100..], if i == 0 then 0 else i - 1);
    }
  }
}
