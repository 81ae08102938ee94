/** What the cut of a client's stream into reads can decide, and what it cannot
    (`src/tcp.rs:188-212`). */
module Cuts {
  import opened Bytes
  import opened Cipher
  import opened Protocol
  import opened Session
  import opened Delivery
  import opened SocksAddress
  import opened Packets
  import opened RoundTrip
  import opened Handshake

  /** `chunks` are reads of at most `limit` bytes that deliver `stream`. */
  ghost predicate IsCut(limit: nat, chunks: seq<Bytes>, stream: Bytes) {
    Concat(chunks) == stream && forall i :: 0 <= i < |chunks| ==> 0 < |chunks[i]| <= limit
  }

  function Outcome(ep: Endpoint, utf8: Utf8, chunks: seq<Bytes>): Handshake.Outcome
    requires ep.Valid()
  {
    Accept(ep, utf8, AwaitIv([]), [], 0, chunks).outcome
  }

  predicate Complete(utf8: Utf8, decoded: Bytes) {
    Parse(utf8, decoded).Success? && Parse(utf8, decoded).value.Some?
  }

  /** The stream decodes, to something with a whole address in front. */
  predicate Yields(ep: Endpoint, utf8: Utf8, stream: Bytes)
    requires ep.Valid()
  {
    Receive(ep, AwaitIv([]), stream).Success? && Complete(utf8, Receive(ep, AwaitIv([]), stream).value.out)
  }

  /** Some front part of the stream does. */
  ghost predicate Addressed(ep: Endpoint, utf8: Utf8, stream: Bytes)
    requires ep.Valid()
  {
    exists k :: 0 <= k <= |stream| && Yields(ep, utf8, stream[..k])
  }

  /** One read can begin before the address is complete and end where decoding has failed. */
  ghost predicate Straddled(ep: Endpoint, utf8: Utf8, limit: nat, stream: Bytes)
    requires ep.Valid()
  {
    exists j, l :: 0 <= j < l <= |stream| && Straddles(ep, utf8, limit, stream, j, l)
  }

  ghost predicate Straddles(ep: Endpoint, utf8: Utf8, limit: nat, stream: Bytes, j: nat, l: nat)
    requires ep.Valid() && j < l <= |stream|
  {
    && l - j <= limit
    && Receive(ep, AwaitIv([]), stream[..j]).Success? && !Yields(ep, utf8, stream[..j])
    && Receive(ep, AwaitIv([]), stream[..l]).Failure?
  }

  // ---- which streams have an address to find ----

  lemma AddressedIsDecodable(ep: Endpoint, utf8: Utf8, stream: Bytes)
    requires ep.Valid()
    ensures Addressed(ep, utf8, stream) <==> Complete(utf8, Decodable(ep, AwaitIv([]), stream))
  {
    hide Receive, Decodable, Parse;
    if Complete(utf8, Decodable(ep, AwaitIv([]), stream)) {
      var k := DecodableFront(ep, AwaitIv([]), stream);
      assert Yields(ep, utf8, stream[..k]);
    }
    if Addressed(ep, utf8, stream) {
      var k :| 0 <= k <= |stream| && Yields(ep, utf8, stream[..k]);
      assert stream == stream[..k] + stream[k..];
      DecodableSplits(ep, AwaitIv([]), stream[..k], stream[k..]);
      var x := Receive(ep, AwaitIv([]), stream[..k]).value;
      ParseIsPrefixStable(utf8, x.out, Decodable(ep, x.half, stream[k..]));
    }
  }

  // ---- some cut connects ----

  lemma {:induction false} BytewiseConnects(ep: Endpoint, utf8: Utf8, h: RecvHalf, appBuf: Bytes, uploaded: nat,
                                            raw: Bytes)
    requires ep.Valid() && ValidHalf(ep, h)
    requires Parse(utf8, appBuf) == Success(None) && Complete(utf8, appBuf + Decodable(ep, h, raw))
    ensures Accept(ep, utf8, h, appBuf, uploaded, Bytewise(raw)).outcome.Connect?
    decreases |raw|
  {
    hide Receive, Decodable, Parse, ValidHalf;
    assert appBuf + [] == appBuf;
    if raw == [] {
      DecodableNothing(ep, h);
      assert false;
    } else {
      var first, rest := [raw[0]], raw[1..];
      assert raw == first + rest;
      assert Bytewise(raw)[0] == first && Bytewise(raw)[1..] == Bytewise(rest);
      if Receive(ep, h, first).Failure? {
        RefusedReadOfOne(ep, h, raw[0], rest);
        assert false;
      } else {
        var x := Receive(ep, h, first).value;
        DecodableSplits(ep, h, first, rest);
        ReceiveKeepsValid(ep, h, first);
        var buf := appBuf + x.out;
        assert appBuf + (x.out + Decodable(ep, x.half, rest)) == buf + Decodable(ep, x.half, rest);
        assert x.out == [] ==> buf == appBuf;
        if Parse(utf8, buf) == Success(None) {
          IncompleteIsShort(utf8, buf);
          BytewiseConnects(ep, utf8, x.half, buf, uploaded + 1, rest);
        } else {
          ParseIsPrefixStable(utf8, buf, Decodable(ep, x.half, rest));
        }
      }
    }
  }

  lemma {:induction false} BytewiseIsCut(raw: Bytes, limit: nat)
    requires limit > 0
    ensures IsCut(limit, Bytewise(raw), raw)
    decreases |raw|
  {
    if raw != [] {
      BytewiseIsCut(raw[1..], limit);
      assert Bytewise(raw)[1..] == Bytewise(raw[1..]);
    }
  }

  /** A stream can connect if and only if some front part of it decodes to a whole address. */
  lemma SomeCutConnects(ep: Endpoint, utf8: Utf8, limit: nat, stream: Bytes)
    requires ep.Valid() && limit > 0
    ensures (exists chunks :: IsCut(limit, chunks, stream) && Outcome(ep, utf8, chunks).Connect?)
       <==> Addressed(ep, utf8, stream)
  {
    hide Accept, Decodable, Receive, Parse, Addressed;
    AddressedIsDecodable(ep, utf8, stream);
    if Addressed(ep, utf8, stream) {
      NothingParsed(utf8);
      assert [] + Decodable(ep, AwaitIv([]), stream) == Decodable(ep, AwaitIv([]), stream);
      BytewiseConnects(ep, utf8, AwaitIv([]), [], 0, stream);
      BytewiseIsCut(stream, limit);
    }
    forall chunks | IsCut(limit, chunks, stream) && Outcome(ep, utf8, chunks).Connect?
      ensures Addressed(ep, utf8, stream)
    {
      HandshakeFraming(ep, utf8, chunks);
    }
  }

  // ---- every cut connects ----

  /** The read a refused stream was refused at. */
  lemma {:induction false} RefusedAt(ep: Endpoint, utf8: Utf8, h: RecvHalf, appBuf: Bytes, uploaded: nat,
                                     chunks: seq<Bytes>)
      returns (m: nat)
    requires ep.Valid() && ValidHalf(ep, h) && Parse(utf8, appBuf) == Success(None)
    requires Accept(ep, utf8, h, appBuf, uploaded, chunks).outcome.Refused?
    requires Accept(ep, utf8, h, appBuf, uploaded, chunks).outcome.refusal.BadStream?
    ensures m < |chunks| && Receive(ep, h, Concat(chunks[..m])).Success?
    ensures Parse(utf8, appBuf + Receive(ep, h, Concat(chunks[..m])).value.out) == Success(None)
    ensures Receive(ep, h, Concat(chunks[..m + 1])).Failure?
    decreases |chunks|
  {
    hide Receive, Parse, ValidHalf;
    if Receive(ep, h, chunks[0]).Failure? {
      m := 0;
      ReceiveNothing(ep, h);
      assert chunks[..1] == [chunks[0]] && Concat([chunks[0]]) == chunks[0] + [] == chunks[0];
      assert appBuf + [] == appBuf;
    } else {
      var x := Receive(ep, h, chunks[0]).value;
      var buf := appBuf + x.out;
      assert x.out == [] ==> buf == appBuf;
      ReceiveKeepsValid(ep, h, chunks[0]);
      m := RefusedAt(ep, utf8, x.half, buf, uploaded + |chunks[0]|, chunks[1..]);
      var front := Concat(chunks[1..][..m]);
      ReceiveAppend(ep, h, chunks[0], front);
      ReceiveAppend(ep, h, chunks[0], Concat(chunks[1..][..m + 1]));
      assert appBuf + (x.out + Receive(ep, x.half, front).value.out) == buf + Receive(ep, x.half, front).value.out;
      m := m + 1;
      assert chunks[..m] == [chunks[0]] + chunks[1..][..m - 1];
      assert chunks[..m + 1] == [chunks[0]] + chunks[1..][..m];
      assert chunks[..m][1..] == chunks[1..][..m - 1] && chunks[..m + 1][1..] == chunks[1..][..m];
    }
  }

  lemma RefusedIsStraddled(ep: Endpoint, utf8: Utf8, limit: nat, chunks: seq<Bytes>, stream: Bytes)
    requires ep.Valid() && IsCut(limit, chunks, stream)
    requires Outcome(ep, utf8, chunks).Refused? && Outcome(ep, utf8, chunks).refusal.BadStream?
    ensures Straddled(ep, utf8, limit, stream)
  {
    hide Accept, Receive, Parse;
    NothingParsed(utf8);
    var m := RefusedAt(ep, utf8, AwaitIv([]), [], 0, chunks);
    var before, upTo := Concat(chunks[..m]), Concat(chunks[..m + 1]);
    assert chunks[..m + 1] == chunks[..m] + [chunks[m]] && chunks == chunks[..m + 1] + chunks[m + 1..];
    ConcatAppend(chunks[..m], [chunks[m]]);
    ConcatAppend(chunks[..m + 1], chunks[m + 1..]);
    assert Concat([chunks[m]]) == chunks[m] + [] == chunks[m];
    assert stream[..|before|] == before && stream[..|upTo|] == upTo;
    var out := Receive(ep, AwaitIv([]), before).value.out;
    assert [] + out == out;
    assert Straddles(ep, utf8, limit, stream, |before|, |upTo|);
  }

  /** The loop over some reads, then over others. */
  lemma {:induction false} AcceptAppend(ep: Endpoint, utf8: Utf8, h: RecvHalf, appBuf: Bytes, uploaded: nat,
                                        a: seq<Bytes>, b: seq<Bytes>)
    requires ep.Valid()
    ensures var first := Accept(ep, utf8, h, appBuf, uploaded, a);
      var both := Accept(ep, utf8, h, appBuf, uploaded, a + b);
      && (first.outcome.Waiting? ==>
            both == Accept(ep, utf8, first.half, first.outcome.appBuf, uploaded + |Concat(a)|, b))
      && (first.outcome.Refused? ==> both == first)
    decreases |a|
  {
    hide Receive, Parse;
    if a == [] {
      assert a + b == b;
    } else {
      assert (a + b)[0] == a[0] && (a + b)[1..] == a[1..] + b;
      if a[0] != [] && Receive(ep, h, a[0]).Success? {
        var x := Receive(ep, h, a[0]).value;
        AcceptAppend(ep, utf8, x.half, appBuf, uploaded + |a[0]|, a[1..], b);
        AcceptAppend(ep, utf8, x.half, appBuf + x.out, uploaded + |a[0]|, a[1..], b);
      }
    }
  }

  /** The client's end of the stream, while the loop still waits, ends it without a target. */
  lemma EndOfStreamCloses(ep: Endpoint, utf8: Utf8, before: seq<Bytes>, after: seq<Bytes>)
    requires ep.Valid() && Accept(ep, utf8, AwaitIv([]), [], 0, before).outcome.Waiting?
    ensures Outcome(ep, utf8, before + ([[]] + after)) == Closed
  {
    hide Accept;
    AcceptAppend(ep, utf8, AwaitIv([]), [], 0, before, [[]] + after);
    var first := Accept(ep, utf8, AwaitIv([]), [], 0, before);
    EmptyReadCloses(ep, utf8, first.half, first.outcome.appBuf, |Concat(before)|, [[]] + after);
  }

  lemma EmptyReadCloses(ep: Endpoint, utf8: Utf8, h: RecvHalf, appBuf: Bytes, uploaded: nat, chunks: seq<Bytes>)
    requires ep.Valid() && chunks != [] && chunks[0] == []
    ensures Accept(ep, utf8, h, appBuf, uploaded, chunks).outcome == Closed
  {
    hide Receive, Parse;
  }

  /** The straddling read, and single bytes around it. */
  lemma StraddlingCut(ep: Endpoint, utf8: Utf8, limit: nat, stream: Bytes, j: nat, l: nat) returns (chunks: seq<Bytes>)
    requires ep.Valid() && j < l <= |stream| && Straddles(ep, utf8, limit, stream, j, l)
    ensures IsCut(limit, chunks, stream) && !Outcome(ep, utf8, chunks).Connect?
  {
    hide Accept, Receive, Parse, Decodable;
    var front, read, back := Bytewise(stream[..j]), stream[j..l], Bytewise(stream[l..]);
    BytewiseIsCut(stream[..j], limit);
    BytewiseIsCut(stream[l..], limit);
    chunks := front + ([read] + back);
    ConcatAppend(front, [read] + back);
    assert ([read] + back)[1..] == back;
    assert stream == stream[..j] + (stream[j..l] + stream[l..]);
    HandshakeFraming(ep, utf8, front);
    AllDecodable(ep, AwaitIv([]), stream[..j]);
    var first := Accept(ep, utf8, AwaitIv([]), [], 0, front);
    AcceptAppend(ep, utf8, AwaitIv([]), [], 0, front, [read] + back);
    if first.outcome.Waiting? {
      assert stream[..l] == stream[..j] + read;
      ReceiveAppend(ep, AwaitIv([]), stream[..j], read);
      RefusedRead(ep, utf8, first.half, first.outcome.appBuf, |Concat(front)|, [read] + back);
    }
  }

  lemma RefusedRead(ep: Endpoint, utf8: Utf8, h: RecvHalf, appBuf: Bytes, uploaded: nat, chunks: seq<Bytes>)
    requires ep.Valid() && chunks != [] && chunks[0] != [] && Receive(ep, h, chunks[0]).Failure?
    ensures Accept(ep, utf8, h, appBuf, uploaded, chunks).outcome.Refused?
  {
    hide Receive, Parse;
  }

  /** Every cut of a stream connects if and only if some front part decodes to a whole address and
      no single read can span the end of that and a refusal. */
  lemma EveryCutConnects(ep: Endpoint, utf8: Utf8, limit: nat, stream: Bytes)
    requires ep.Valid() && limit > 0
    ensures (forall chunks :: IsCut(limit, chunks, stream) ==> Outcome(ep, utf8, chunks).Connect?)
       <==> Addressed(ep, utf8, stream) && !Straddled(ep, utf8, limit, stream)
  {
    hide Accept, Receive, Parse, Addressed, Decodable;
    SomeCutConnects(ep, utf8, limit, stream);
    AddressedIsDecodable(ep, utf8, stream);
    BytewiseIsCut(stream, limit);
    if Straddled(ep, utf8, limit, stream) {
      var j, l :| 0 <= j < l <= |stream| && Straddles(ep, utf8, limit, stream, j, l);
      var chunks := StraddlingCut(ep, utf8, limit, stream, j, l);
    }
    forall chunks | IsCut(limit, chunks, stream) && Addressed(ep, utf8, stream) && !Outcome(ep, utf8, chunks).Connect?
      ensures Straddled(ep, utf8, limit, stream)
    {
      HandshakeFraming(ep, utf8, chunks);
      RefusedIsStraddled(ep, utf8, limit, chunks, stream);
    }
  }

  /** Exactly when the cut does not matter to whether the loop connects. */
  lemma CutIsIrrelevant(ep: Endpoint, utf8: Utf8, limit: nat, stream: Bytes)
    requires ep.Valid() && limit > 0
    ensures (forall a, b :: IsCut(limit, a, stream) && IsCut(limit, b, stream) ==>
               (Outcome(ep, utf8, a).Connect? <==> Outcome(ep, utf8, b).Connect?))
       <==> !Addressed(ep, utf8, stream) || !Straddled(ep, utf8, limit, stream)
  {
    hide Outcome, Addressed, Straddled, IsCut;
    SomeCutConnects(ep, utf8, limit, stream);
    EveryCutConnects(ep, utf8, limit, stream);
  }

  /** With reads of any length that is: the whole stream decodes, or there is no address. */
  lemma CutOfAnyLengthIsIrrelevant(ep: Endpoint, utf8: Utf8, limit: nat, stream: Bytes)
    requires ep.Valid() && 0 < limit && |stream| <= limit
    ensures (forall a, b :: IsCut(limit, a, stream) && IsCut(limit, b, stream) ==>
               (Outcome(ep, utf8, a).Connect? <==> Outcome(ep, utf8, b).Connect?))
       <==> Receive(ep, AwaitIv([]), stream).Success? || !Addressed(ep, utf8, stream)
  {
    hide Outcome, IsCut, Receive, Parse;
    CutIsIrrelevant(ep, utf8, limit, stream);
    if Receive(ep, AwaitIv([]), stream).Failure? {
      NothingParsed(utf8);
      ReceiveNothing(ep, AwaitIv([]));
      assert stream[..0] == [] && stream[..|stream|] == stream;
      assert stream != [];
      assert Straddles(ep, utf8, limit, stream, 0, |stream|);
    } else if Straddled(ep, utf8, limit, stream) {
      var j, l :| 0 <= j < l <= |stream| && Straddles(ep, utf8, limit, stream, j, l);
      assert stream == stream[..l] + stream[l..];
      ReceiveAppend(ep, AwaitIv([]), stream[..l], stream[l..]);
    }
  }

  // ---- what no cut can change ----

  /** Any two cuts of one stream that connect find the same target, and relay more or less of the
      same payload behind it. */
  lemma SameTarget(ep: Endpoint, utf8: Utf8, a: seq<Bytes>, b: seq<Bytes>)
    requires ep.Valid() && Concat(a) == Concat(b)
    requires (forall i :: 0 <= i < |a| ==> a[i] != []) && (forall i :: 0 <= i < |b| ==> b[i] != [])
    requires Outcome(ep, utf8, a).Connect? && Outcome(ep, utf8, b).Connect?
    ensures Outcome(ep, utf8, a).target == Outcome(ep, utf8, b).target
    ensures var x, y := Relayed(ep, utf8, a), Relayed(ep, utf8, b);
      && (x <= y || y <= x)
      && (Receive(ep, AwaitIv([]), Concat(a)).Success? ==> x == y)
  {
    hide Accept, Receive, Parse, Decodable, Deliver;
    HandshakeFraming(ep, utf8, a);
    HandshakeFraming(ep, utf8, b);
  }

  /** All that reaches the target: the initial payload, and what later reads give. */
  function Relayed(ep: Endpoint, utf8: Utf8, chunks: seq<Bytes>): Bytes
    requires ep.Valid() && Outcome(ep, utf8, chunks).Connect?
  {
    var a := Accept(ep, utf8, AwaitIv([]), [], 0, chunks);
    a.outcome.initial + Deliver(ep, a.half, a.outcome.rest).out
  }

  // ---- a stream on which the cut decides ----

  const ZEROS: Bytes := [0, 0, 0, 0, 0]

  /** No data packet starts with five zero bytes, whatever the MAC. */
  lemma ZerosAreRefused(e: Env, p: Proto)
    requires p.hasRecvHeader && p.recvBuf == []
    ensures PostDecrypt(e, p, ZEROS).Failure?
  {
    assert p.Feed(ZEROS).recvBuf == ZEROS;
  }

  lemma ZerosBehind(ep: Endpoint, h: RecvHalf) returns (tail: Bytes)
    requires ep.Valid() && h.Opened? && h.proto.hasRecvHeader && h.proto.recvBuf == []
    ensures |tail| == 5 && Receive(ep, h, tail).Failure?
  {
    hide PostDecrypt, Stream.Encipher, Stream.Skip;
    tail := h.decryptor.Encipher(ep.prim, ZEROS);
    EncipherTwice(ep.prim, h.decryptor, ZEROS);
    ZerosAreRefused(h.env, h.proto);
  }

  /** Behind any auth packet whose payload is a whole address, five enciphered zero bytes: read on
      their own they are refused after the target was connected; read with the rest, the client
      is refused at once. */
  lemma CutDecides(ep: Endpoint, utf8: Utf8, iv: Bytes, auth: Auth) returns (good: Bytes, tail: Bytes)
    requires ep.Valid() && ep.role.Server? && |iv| == ep.cipher.IvLen() && ep.prim.AesInverts()
    requires auth.Fits() && Complete(utf8, auth.payload)
    ensures IsCut(READ_CHUNK, [good, tail], good + tail) && IsCut(READ_CHUNK, [good + tail], good + tail)
    ensures Outcome(ep, utf8, [good, tail]).Connect?
    ensures Outcome(ep, utf8, [good + tail]).Refused?
  {
    hide Receive, Parse, DataPackets, SelectedKey, AuthPacket, Stream.Encipher, Stream.Skip,
         CipherKind.NewStream, SelectUser, Initial;
    good := ClientWire(ep, iv, SelectedKey(ep, iv, auth.uid), auth, []);
    WireOfAuth(ep, iv, auth);
    UploadInOnePiece(ep, iv, auth, []);
    assert auth.payload + Payloads([]) == auth.payload;
    var x := Receive(ep, AwaitIv([]), good).value;
    tail := ZerosBehind(ep, x.half);
    ReceiveAppend(ep, AwaitIv([]), good, tail);
    hide ClientWire;
    assert [good, tail][1..] == [tail];
    assert Concat([tail]) == tail + [] == tail;
    assert Concat([good + tail]) == good + tail + [] == good + tail;
    assert [] + x.out == x.out;
    NothingParsed(utf8);
  }

  lemma WireOfAuth(ep: Endpoint, iv: Bytes, auth: Auth)
    requires ep.Valid() && |iv| == ep.cipher.IvLen() && auth.Fits()
    ensures 0 < |ClientWire(ep, iv, SelectedKey(ep, iv, auth.uid), auth, [])| < MAX_PACKET + 16
  {
    hide AuthPacket, SelectedKey, CipherKind.NewStream;
    AuthPacketLayout(ep.EnvFor(iv), SelectedKey(ep, iv, auth.uid), auth);
  }
}
