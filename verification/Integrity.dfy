/** The converse of the round trips: exactly which bytes the server accepts
    (`src/ssr/protocol.rs:80-177`). */
module Integrity {
  import opened Bytes
  import opened Crypto
  import opened Protocol
  import opened Cipher
  import opened Segmentation
  import opened Session

  // ---- data packets ----

  /** Where the payload of a data packet starts. A packet without any data has the first byte of
      its MAC where the marker would be. */
  function PayloadStart(packet: Bytes): nat
    requires |packet| >= 8
  {
    4 + if packet[4] < 255 then packet[4] as nat else U16(packet[5], packet[6]) as nat
  }

  /** `data` sealed under the user's key as number `id`. */
  datatype Frame = Frame(data: Bytes) {
    function Packet(p: Primitives, userKey: Bytes, id: u32): (r: Bytes)
      ensures |r| == |data| + 8
    {
      Seal(p, userKey, id, data)
    }

    /** The length is one the receiver takes, and the marker points into the packet. */
    predicate Accepted(p: Primitives, userKey: Bytes, id: u32) {
      |data| + 8 < MAX_PACKET && PayloadStart(Packet(p, userKey, id)) <= |data| + 4
    }

    function Payload(p: Primitives, userKey: Bytes, id: u32): Bytes
      requires Accepted(p, userKey, id)
    {
      Packet(p, userKey, id)[PayloadStart(Packet(p, userKey, id))..|data| + 4]
    }
  }

  lemma WordOfBytes(lo: byte, hi: byte)
    ensures LittleEndian16(U16(lo, hi)) == [lo, hi]
  {
  }

  /** What the receiver checked of a packet it emits. */
  lemma EmittedFields(e: Env, p: Proto) returns (n: nat)
    requires p.hasRecvHeader && Step(e, p).Emit?
    ensures 8 <= n <= |p.recvBuf| && n < MAX_PACKET
    ensures U16(p.recvBuf[0], p.recvBuf[1]) == n
    ensures e.prim.Mac(p.MacKey(p.recvId), p.recvBuf[..2], 2) == p.recvBuf[2..4]
    ensures e.prim.Mac(p.MacKey(p.recvId), p.recvBuf[..n - 4], 4) == p.recvBuf[n - 4..n]
    ensures PayloadStart(p.recvBuf) <= n - 4
    ensures Step(e, p)
         == Emit(p.(recvBuf := p.recvBuf[n..], recvId := WrapAdd32(p.recvId, 1)),
                 p.recvBuf[PayloadStart(p.recvBuf)..n - 4])
  {
    hide LittleEndian32, WrapAdd32;
    n := U16(p.recvBuf[0], p.recvBuf[1]);
  }

  lemma SealOfChecked(p: Primitives, userKey: Bytes, id: u32, buf: Bytes, n: nat)
    requires 8 <= n <= |buf| && n < MAX_PACKET && U16(buf[0], buf[1]) == n
    requires p.Mac(userKey + LittleEndian32(id), buf[..2], 2) == buf[2..4]
    requires p.Mac(userKey + LittleEndian32(id), buf[..n - 4], 4) == buf[n - 4..n]
    ensures buf[..n] == Seal(p, userKey, id, buf[4..n - 4])
  {
    hide LittleEndian16, LittleEndian32;
    WordOfBytes(buf[0], buf[1]);
    assert TruncateToU16(|buf[4..n - 4]| + 8) == n;
    assert buf[..2] == [buf[0], buf[1]];
    assert buf[..n - 4] == buf[..2] + buf[2..4] + buf[4..n - 4];
    assert buf[..n] == buf[..n - 4] + buf[n - 4..n];
  }

  /** A packet is emitted only if the buffer starts with an acceptable sealing, under the user's
      key and the expected number, and the payload is the one its marker selects. */
  lemma AcceptedWasSealed(e: Env, p: Proto) returns (f: Frame)
    requires p.hasRecvHeader && Step(e, p).Emit?
    ensures f.Accepted(e.prim, p.userKey, p.recvId)
    ensures p.recvBuf == f.Packet(e.prim, p.userKey, p.recvId) + Step(e, p).state.recvBuf
    ensures Step(e, p)
         == Emit(p.(recvBuf := Step(e, p).state.recvBuf, recvId := WrapAdd32(p.recvId, 1)),
                 f.Payload(e.prim, p.userKey, p.recvId))
  {
    hide Step, Seal, LittleEndian32, WrapAdd32, U16;
    var buf := p.recvBuf;
    var n := EmittedFields(e, p);
    SealOfChecked(e.prim, p.userKey, p.recvId, buf, n);
    f := Frame(buf[4..n - 4]);
    assert buf == buf[..n] + buf[n..];
    assert PayloadStart(buf[..n]) == PayloadStart(buf);
    assert buf[..n][PayloadStart(buf)..n - 4] == buf[PayloadStart(buf)..n - 4];
  }

  /** The fields of a sealing, where the receiver looks for them. */
  lemma SealLayout(p: Primitives, userKey: Bytes, id: u32, data: Bytes)
    requires |data| + 8 < MAX_PACKET
    ensures var buf := Seal(p, userKey, id, data);
      var macKey := userKey + LittleEndian32(id);
      var n := |data| + 8;
      && |buf| == n
      && U16(buf[0], buf[1]) == n
      && p.Mac(macKey, buf[..2], 2) == buf[2..4]
      && p.Mac(macKey, buf[..n - 4], 4) == buf[n - 4..n]
  {
    hide LittleEndian16, LittleEndian32;
    var n := |data| + 8;
    var lenBytes := LittleEndian16(TruncateToU16(n));
    assert TruncateToU16(n) == n;
    var macKey := userKey + LittleEndian32(id);
    var packet := lenBytes + p.Mac(macKey, lenBytes, 2) + data;
    var buf := Seal(p, userKey, id, data);
    assert buf == packet + p.Mac(macKey, packet, 4);
    assert buf[..2] == lenBytes && buf[..n - 4] == packet;
    assert buf[0] == lenBytes[0] && buf[1] == lenBytes[1];
  }

  /** And whenever it does, the packet is emitted. */
  lemma SealedIsAccepted(e: Env, p: Proto, f: Frame, rest: Bytes)
    requires p.hasRecvHeader && f.Accepted(e.prim, p.userKey, p.recvId)
    requires p.recvBuf == f.Packet(e.prim, p.userKey, p.recvId) + rest
    ensures Step(e, p)
         == Emit(p.(recvBuf := rest, recvId := WrapAdd32(p.recvId, 1)), f.Payload(e.prim, p.userKey, p.recvId))
  {
    SealLayout(e.prim, p.userKey, p.recvId, f.data);
    hide Seal, LittleEndian32, WrapAdd32, U16;
    var buf, packet := p.recvBuf, f.Packet(e.prim, p.userKey, p.recvId);
    var n := |packet|;
    assert buf[..n] == packet && buf[n..] == rest;
    assert buf[..2] == packet[..2] && buf[2..4] == packet[2..4];
    assert buf[..n - 4] == packet[..n - 4] && buf[n - 4..n] == packet[n - 4..n];
    var start := PayloadStart(packet);
    assert buf[start..n - 4] == packet[start..n - 4];
  }

  // ---- runs of data packets ----

  /** Consecutively numbered packets, sealed from `id` on. */
  function Sealed(p: Primitives, userKey: Bytes, id: u32, frames: seq<Frame>): Bytes
    decreases |frames|
  {
    if frames == [] then []
    else frames[0].Packet(p, userKey, id) + Sealed(p, userKey, WrapAdd32(id, 1), frames[1..])
  }

  predicate AllAccepted(p: Primitives, userKey: Bytes, id: u32, frames: seq<Frame>)
    decreases |frames|
  {
    frames == []
    || (frames[0].Accepted(p, userKey, id) && AllAccepted(p, userKey, WrapAdd32(id, 1), frames[1..]))
  }

  function Delivered(p: Primitives, userKey: Bytes, id: u32, frames: seq<Frame>): Bytes
    requires AllAccepted(p, userKey, id, frames)
    decreases |frames|
  {
    if frames == [] then []
    else frames[0].Payload(p, userKey, id) + Delivered(p, userKey, WrapAdd32(id, 1), frames[1..])
  }

  /** `d` is what is left of `p` when the front of its buffer is `frames`, and no more of the buffer
      can be decoded. */
  ghost predicate Consists(e: Env, p: Proto, frames: seq<Frame>, d: Decoded) {
    && AllAccepted(e.prim, p.userKey, p.recvId, frames)
    && p.recvBuf == Sealed(e.prim, p.userKey, p.recvId, frames) + d.state.recvBuf
    && d.state == p.(recvBuf := d.state.recvBuf, recvId := WrapAdd32(p.recvId, |frames|))
    && d.out == Delivered(e.prim, p.userKey, p.recvId, frames)
    && Quiescent(e, d.state)
  }

  lemma WaitChangesNothing(e: Env, p: Proto)
    requires p.hasRecvHeader && Step(e, p).Wait?
    ensures Step(e, p).state == p
  {
  }

  lemma ConsistsCons(e: Env, p: Proto, f: Frame, q: Proto, later: seq<Frame>, d: Decoded)
    requires p.hasRecvHeader && f.Accepted(e.prim, p.userKey, p.recvId)
    requires p.recvBuf == f.Packet(e.prim, p.userKey, p.recvId) + q.recvBuf
    requires q == p.(recvBuf := q.recvBuf, recvId := WrapAdd32(p.recvId, 1))
    requires Consists(e, q, later, d)
    ensures Consists(e, p, [f] + later, Decoded(d.state, f.Payload(e.prim, p.userKey, p.recvId) + d.out))
  {
    hide Seal, WrapAdd32, Quiescent, Frame.Packet, Frame.Accepted, Frame.Payload;
    assert ([f] + later)[1..] == later;
    WrapAdd32Compose(p.recvId, 1, |later|);
    var packet := f.Packet(e.prim, p.userKey, p.recvId);
    var sealed := Sealed(e.prim, q.userKey, q.recvId, later);
    assert packet + (sealed + d.state.recvBuf) == packet + sealed + d.state.recvBuf;
  }

  /** Everything a call gets out of the buffer came out of acceptable sealings, in order, with no
      number skipped. */
  lemma {:induction false} DrainedWasSealed(e: Env, p: Proto) returns (frames: seq<Frame>)
    requires p.hasRecvHeader && Drain(e, p).Success?
    ensures Consists(e, p, frames, Drain(e, p).value)
    decreases |p.recvBuf|
  {
    hide Seal, WrapAdd32, DataStep, HeaderStep, Consists;
    match Step(e, p)
    case Wait(q) =>
      frames := [];
      WaitChangesNothing(e, p);
      NothingConsists(e, p);
    case Emit(q, payload) =>
      var first := AcceptedWasSealed(e, p);
      var later := DrainedWasSealed(e, q);
      ConsistsCons(e, p, first, q, later, Drain(e, q).value);
      frames := [first] + later;
  }

  lemma NothingConsists(e: Env, p: Proto)
    requires Quiescent(e, p)
    ensures Consists(e, p, [], Decoded(p, []))
  {
    hide Quiescent, WrapAdd32;
    WrapAdd32Nothing(p.recvId);
    assert [] + p.recvBuf == p.recvBuf;
  }

  /** And all acceptable sealings come out. */
  lemma {:induction false} SealedIsDrained(e: Env, p: Proto, frames: seq<Frame>, d: Decoded)
    requires p.hasRecvHeader && Consists(e, p, frames, d)
    ensures Drain(e, p) == Success(d)
    decreases |frames|
  {
    hide Seal, WrapAdd32, Step, Quiescent, Frame.Packet, Frame.Accepted, Frame.Payload;
    if frames == [] {
      WrapAdd32Nothing(p.recvId);
      assert [] + d.state.recvBuf == d.state.recvBuf;
      QuiescentDrains(e, p);
    } else {
      var f := frames[0];
      var packet := f.Packet(e.prim, p.userKey, p.recvId);
      var q := p.(recvBuf := Sealed(e.prim, p.userKey, WrapAdd32(p.recvId, 1), frames[1..]) + d.state.recvBuf,
                  recvId := WrapAdd32(p.recvId, 1));
      assert p.recvBuf == packet + q.recvBuf;
      SealedIsAccepted(e, p, f, q.recvBuf);
      WrapAdd32Compose(p.recvId, 1, |frames| - 1);
      SealedIsDrained(e, q, frames[1..], Decoded(d.state, Delivered(e.prim, q.userKey, q.recvId, frames[1..])));
    }
  }

  lemma QuiescentDrains(e: Env, p: Proto)
    requires Quiescent(e, p)
    ensures Drain(e, p) == Success(Decoded(p, []))
  {
  }

  // ---- the auth packet ----

  /** The only key that can sign for `uid`: the user's own if the table has it; otherwise the
      IV on protocol-style single-port nodes, the port's own key on all others. */
  function KeyOf(e: Env, uid: nat): Bytes {
    if uid in e.users then e.users[uid]
    else if e.isMultiUser == 2 then e.recvIv
    else e.masterKey
  }

  /** The packet's AES block under the key of the uid it names. */
  function AuthBlock(e: Env, packet: Bytes): Digest
    requires |packet| >= 31
  {
    e.prim.aesDecrypt(AesKeyFor(e.prim, KeyOf(e, Uid(packet))), packet[11..27])
  }

  /** `packet` is an auth packet for this connection's IV and port password: both head MACs hold,
      the AES block gives its length and where its payload starts, and the whole is signed under
      the key of the uid it names. */
  ghost predicate Signed(e: Env, packet: Bytes) {
    var n := |packet|;
    && 35 <= n < MAX_PACKET
    && packet[1..7] == e.prim.Mac(e.HeadKey(), packet[..1], 6)
    && packet[27..31] == e.prim.Mac(e.HeadKey(), packet[7..27], 4)
    && U16(AuthBlock(e, packet)[12], AuthBlock(e, packet)[13]) == n
    && AuthStart(e, packet) <= n - 4
    && packet[n - 4..] == e.prim.Mac(KeyOf(e, Uid(packet)), packet[..n - 4], 4)
  }

  function AuthStart(e: Env, packet: Bytes): nat
    requires |packet| >= 31
  {
    31 + U16(AuthBlock(e, packet)[14], AuthBlock(e, packet)[15]) as nat
  }

  function AuthPayload(e: Env, packet: Bytes): Bytes
    requires 35 <= |packet| && AuthStart(e, packet) <= |packet| - 4
  {
    packet[AuthStart(e, packet)..|packet| - 4]
  }

  /** The state once `packet` is in and `rest` is behind it. */
  function Admitted(e: Env, packet: Bytes, rest: Bytes): Proto
    requires |packet| >= 31
  {
    var uid := Uid(packet);
    Proto(KeyOf(e, uid), AesKeyFor(e.prim, KeyOf(e, uid)), if uid in e.users then Some(uid as nat) else None,
          rest, true, 1, 1)
  }

  lemma SelectedForAuth(e: Env, p: Proto)
    requires p.(recvBuf := []) == Initial(e) && |p.recvBuf| >= 31
    ensures SelectUser(e, p, Uid(p.recvBuf)) == Admitted(e, p.recvBuf, p.recvBuf).(hasRecvHeader := false)
  {
  }

  /** What the receiver checks of an auth packet, field by field. */
  lemma AuthFields(e: Env, q: Proto, packet: Bytes, rest: Bytes)
    requires 31 <= |packet| && q.recvBuf == packet + rest
    requires q.userKey == KeyOf(e, Uid(packet)) && q.aesKey == AesKeyFor(e.prim, q.userKey)
    requires 35 <= |packet| < MAX_PACKET && U16(AuthBlock(e, packet)[12], AuthBlock(e, packet)[13]) == |packet|
    ensures AuthStep(e, q)
         == if packet[|packet| - 4..] != e.prim.Mac(q.userKey, packet[..|packet| - 4], 4)
            then Reject(AuthChecksumMismatch)
            else if AuthStart(e, packet) > |packet| - 4 then Reject(AuthPaddingOverrun)
            else Emit(q.(recvBuf := rest, hasRecvHeader := true), AuthPayload(e, packet))
  {
    hide U16, AesKeyFor, KeyOf;
    var buf, n := q.recvBuf, |packet|;
    assert buf[11..27] == packet[11..27];
    assert buf[..n - 4] == packet[..n - 4] && buf[n - 4..n] == packet[n - 4..] && buf[n..] == rest;
    var start := AuthStart(e, packet);
    if start <= n - 4 {
      assert buf[start..n - 4] == packet[start..n - 4];
    }
  }

  /** Where the packet that was emitted ends. */
  lemma EmittedAuth(e: Env, q: Proto) returns (n: nat)
    requires |q.recvBuf| >= 31 && AuthStep(e, q).Emit?
    ensures 35 <= n <= |q.recvBuf| && n < MAX_PACKET
    ensures var head := e.prim.aesDecrypt(q.aesKey, q.recvBuf[11..27]);
      U16(head[12], head[13]) == n
  {
    var head := e.prim.aesDecrypt(q.aesKey, q.recvBuf[11..27]);
    n := U16(head[12], head[13]);
  }

  /** A client is let in only with an auth packet signed under the key of the uid it names. */
  lemma AdmittedWasSigned(e: Env, p: Proto) returns (packet: Bytes)
    requires !p.hasRecvHeader && p.(recvBuf := []) == Initial(e) && Step(e, p).Emit?
    ensures Signed(e, packet)
    ensures p.recvBuf == packet + Step(e, p).state.recvBuf
    ensures Step(e, p) == Emit(Admitted(e, packet, Step(e, p).state.recvBuf), AuthPayload(e, packet))
  {
    var buf := p.recvBuf;
    SelectedForAuth(e, p);
    hide AuthStep, SelectUser, Initial, KeyOf, AesKeyFor, U16;
    var q := SelectUser(e, p, Uid(buf));
    assert Step(e, p) == AuthStep(e, q);
    var n := EmittedAuth(e, q);
    packet := buf[..n];
    assert buf == packet + buf[n..];
    SameHead(packet, buf[n..]);
    AuthFields(e, q, packet, buf[n..]);
  }

  lemma SameHead(packet: Bytes, rest: Bytes)
    requires |packet| >= 31
    ensures var buf := packet + rest;
      && buf[..1] == packet[..1] && buf[1..7] == packet[1..7]
      && buf[7..27] == packet[7..27] && buf[11..27] == packet[11..27] && buf[27..31] == packet[27..31]
      && Uid(buf) == Uid(packet)
  {
  }

  /** And with such a packet it always is. */
  lemma SignedIsAdmitted(e: Env, p: Proto, packet: Bytes, rest: Bytes)
    requires !p.hasRecvHeader && p.(recvBuf := []) == Initial(e)
    requires Signed(e, packet) && p.recvBuf == packet + rest
    ensures Step(e, p) == Emit(Admitted(e, packet, rest), AuthPayload(e, packet))
  {
    SelectedForAuth(e, p);
    SameHead(packet, rest);
    hide AuthStep, SelectUser, Initial, KeyOf, AesKeyFor, U16;
    AuthFields(e, SelectUser(e, p, Uid(p.recvBuf)), packet, rest);
  }

  // ---- the accepted streams ----

  /** `plain` is a signed auth packet, then acceptable sealings under the same key numbered from 1
      without a gap, then what `d` still buffers and cannot decode; its output is the payloads of
      just these packets, and its user is the one the auth packet names. */
  ghost predicate Certified(e: Env, plain: Bytes, d: Decoded, packet: Bytes, frames: seq<Frame>) {
    && Signed(e, packet)
    && packet <= plain
    && AuthPayload(e, packet) <= d.out
    && Consists(e, Admitted(e, packet, plain[|packet|..]), frames, Decoded(d.state, d.out[|AuthPayload(e, packet)|..]))
  }

  lemma FedInitial(e: Env, plain: Bytes)
    ensures var p := Initial(e).Feed(plain);
      p.recvBuf == plain && p.(recvBuf := []) == Initial(e) && !p.hasRecvHeader
  {
  }

  lemma WaitKeepsHeader(e: Env, p: Proto)
    requires !p.hasRecvHeader && Step(e, p).Wait?
    ensures !Step(e, p).state.hasRecvHeader
  {
  }

  lemma AuthPacketFirst(e: Env, p: Proto)
    requires !p.hasRecvHeader && Drain(e, p).Success? && Drain(e, p).value.state.hasRecvHeader
    ensures Step(e, p).Emit? && Step(e, p).state.hasRecvHeader
    ensures Drain(e, p) == Prepend(Step(e, p).payload, Drain(e, Step(e, p).state))
  {
    if Step(e, p).Wait? {
      WaitKeepsHeader(e, p);
    }
  }

  lemma AcceptedStream(e: Env, plain: Bytes) returns (packet: Bytes, frames: seq<Frame>)
    requires PostDecrypt(e, Initial(e), plain).Success?
    requires PostDecrypt(e, Initial(e), plain).value.state.hasRecvHeader
    ensures Certified(e, plain, PostDecrypt(e, Initial(e), plain).value, packet, frames)
  {
    hide Step, Drain, Consists, AesKeyFor, KeyOf, Initial, Uid, Proto.Feed;
    var p := Initial(e).Feed(plain);
    FedInitial(e, plain);
    AuthPacketFirst(e, p);
    packet := AdmittedWasSigned(e, p);
    var q := Step(e, p).state;
    frames := DrainedWasSealed(e, q);
    assert plain[|packet|..] == q.recvBuf;
    var payload, out := AuthPayload(e, packet), Drain(e, q).value.out;
    assert (payload + out)[|payload|..] == out;
  }

  lemma CertifiedIsAccepted(e: Env, plain: Bytes, d: Decoded, packet: Bytes, frames: seq<Frame>)
    requires Certified(e, plain, d, packet, frames)
    ensures PostDecrypt(e, Initial(e), plain) == Success(d)
    ensures d.state.hasRecvHeader
  {
    hide Step, AesKeyFor, KeyOf, Initial, Uid, Proto.Feed, Seal, Sealed, Delivered, WrapAdd32, Quiescent;
    var p := Initial(e).Feed(plain);
    FedInitial(e, plain);
    var q := Admitted(e, packet, plain[|packet|..]);
    assert plain == packet + plain[|packet|..];
    SignedIsAdmitted(e, p, packet, plain[|packet|..]);
    var payload := AuthPayload(e, packet);
    SealedIsDrained(e, q, frames, Decoded(d.state, d.out[|payload|..]));
    assert payload + d.out[|payload|..] == d.out;
  }

  /** The accepted language, exactly: plaintext decodes past the auth packet, to this state and
      output, if and only if it is certified. */
  lemma AcceptedExactly(e: Env, plain: Bytes, d: Decoded)
    ensures PostDecrypt(e, Initial(e), plain) == Success(d) && d.state.hasRecvHeader
       <==> exists packet, frames :: Certified(e, plain, d, packet, frames)
  {
    hide PostDecrypt, Initial, Certified;
    if PostDecrypt(e, Initial(e), plain) == Success(d) && d.state.hasRecvHeader {
      var packet, frames := AcceptedStream(e, plain);
    }
    forall packet, frames | Certified(e, plain, d, packet, frames)
      ensures PostDecrypt(e, Initial(e), plain) == Success(d) && d.state.hasRecvHeader
    {
      CertifiedIsAccepted(e, plain, d, packet, frames);
    }
  }

  /** The bytes behind the IV, deciphered under it. */
  function Deciphered(ep: Endpoint, all: Bytes): Bytes
    requires ep.Valid() && |all| >= ep.cipher.IvLen()
  {
    var n := ep.cipher.IvLen();
    ep.cipher.NewStream(ep.prim, ep.masterKey, all[..n]).Encipher(ep.prim, all[n..])
  }

  /** The same for a whole connection, however its bytes arrived and whoever they came from: its
      state and output are `d` past the auth packet if and only if the deciphered bytes are
      certified. */
  lemma ReceivedExactly(ep: Endpoint, chunks: seq<Bytes>, d: Decoded)
    requires ep.Valid() && ep.role.Server?
    ensures (var r := ReceiveAll(ep, AwaitIv([]), chunks);
             r.Success? && r.value.half.Opened? && r.value.half.proto.hasRecvHeader
             && d == Decoded(r.value.half.proto, r.value.out))
       <==> |Concat(chunks)| >= ep.cipher.IvLen()
            && exists packet, frames ::
                 Certified(ep.EnvFor(Concat(chunks)[..ep.cipher.IvLen()]), Deciphered(ep, Concat(chunks)), d, packet,
                           frames)
  {
    hide ReceiveAll, PostDecrypt, Initial, Certified, CipherKind.NewStream, Stream.Encipher, Stream.Skip;
    SegmentationIndependence(ep, AwaitIv([]), chunks);
    var all, n := Concat(chunks), ep.cipher.IvLen();
    assert [] + all == all;
    if |all| >= n {
      var e := ep.EnvFor(all[..n]);
      AcceptedExactly(e, Deciphered(ep, all), d);
      InitialHasNoHeader(e);
      if all[n..] == [] {
        NothingIsNotCertified(e, d);
      }
    }
  }

  lemma InitialHasNoHeader(e: Env)
    ensures !Initial(e).hasRecvHeader
  {
  }

  lemma NothingIsNotCertified(e: Env, d: Decoded)
    ensures !exists packet, frames :: Certified(e, [], d, packet, frames)
  {
  }
}
