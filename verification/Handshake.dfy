/** The handshake loop of a TCP connection and the amounts it hands to the rate limiter
    (`src/tcp.rs:188-212`, `src/tcp.rs:281-341`). */
module Handshake {
  import opened Bytes
  import opened Cipher
  import opened Protocol
  import opened Segmentation
  import opened Session
  import opened Delivery
  import opened ServerCodec
  import opened SocksAddress
  import opened Packets

  const MAX_HANDSHAKE_BYTES: nat := 64 * 1024

  datatype Refusal = BadStream(auth: AuthError) | BadAddress(address: AddressError) | TooLong

  datatype Outcome =
    | Closed
    | Waiting(appBuf: Bytes)
    | Refused(refusal: Refusal)
    | Connect(target: Address, initial: Bytes, uploaded: nat, rest: seq<Bytes>)

  /** An outcome, and the receiving half it leaves. */
  datatype Accepted = Accepted(outcome: Outcome, half: RecvHalf)

  /** The loop over what the socket delivers: an empty read is the end of the stream, and
      running out of reads leaves the loop waiting. */
  function Accept(ep: Endpoint, utf8: Utf8, h: RecvHalf, appBuf: Bytes, uploaded: nat, chunks: seq<Bytes>): Accepted
    requires ep.Valid()
    decreases |chunks|
  {
    if chunks == [] then Accepted(Waiting(appBuf), h)
    else if chunks[0] == [] then Accepted(Closed, h)
    else
      var uploaded' := uploaded + |chunks[0]|;
      match Receive(ep, h, chunks[0])
      case Failure(error) => Accepted(Refused(BadStream(error)), h)
      case Success(x) =>
        if x.out == [] then Accept(ep, utf8, x.half, appBuf, uploaded', chunks[1..])
        else
          match Parse(utf8, appBuf + x.out)
          case Failure(error) => Accepted(Refused(BadAddress(error)), x.half)
          case Success(Some(p)) =>
            ConsumedWithinBuffer(utf8, appBuf + x.out);
            Accepted(Connect(p.address, (appBuf + x.out)[p.consumed..], uploaded', chunks[1..]), x.half)
          case Success(None) =>
            if |appBuf + x.out| > MAX_HANDSHAKE_BYTES then Accepted(Refused(TooLong), x.half)
            else Accept(ep, utf8, x.half, appBuf + x.out, uploaded', chunks[1..])
  }

  method AcceptClient(session: ServerSession, utf8: Utf8, chunks: seq<Bytes>) returns (r: Outcome)
    requires session.Valid()
    modifies session.Repr()
    ensures var a := Accept(session.Self(), utf8, old(session.Receiving()), [], 0, chunks);
      && r == a.outcome
      && (r.Connect? || r.Waiting? ==> session.Valid() && session.Receiving() == a.half)
  {
    hide Receive, Parse;
    ghost var ep := session.Self();
    var appBuf: Bytes := [];
    var uploaded: nat := 0;
    var rest := chunks;
    while rest != []
      invariant session.Valid() && fresh(session.Repr() - old(session.Repr()))
      invariant Accept(ep, utf8, session.Receiving(), appBuf, uploaded, rest)
             == Accept(ep, utf8, old(session.Receiving()), [], 0, chunks)
      decreases |rest|
    {
      var chunk := rest[0];
      if chunk == [] {
        return Closed;
      }
      uploaded := uploaded + |chunk|;
      var decoded := session.Decrypt(chunk);
      rest := rest[1..];
      if decoded.Failure? {
        return Refused(BadStream(decoded.error));
      }
      if decoded.value == [] {
        continue;
      }
      appBuf := appBuf + decoded.value;
      var parsed := Parse(utf8, appBuf);
      if parsed.Failure? {
        return Refused(BadAddress(parsed.error));
      }
      if parsed.value.Some? {
        ConsumedWithinBuffer(utf8, appBuf);
        var initial := appBuf[parsed.value.value.consumed..];
        return Connect(parsed.value.value.address, initial, uploaded, rest);
      }
      if |appBuf| > MAX_HANDSHAKE_BYTES {
        return Refused(TooLong);
      }
    }
    return Waiting(appBuf);
  }

  // ---- framing ----

  /** What the loop must find in a stream whose decodable part is `decodable` and of which
      decoding the whole is `whole`. */
  ghost predicate Finds(ep: Endpoint, utf8: Utf8, uploaded: nat, chunks: seq<Bytes>, decodable: Bytes,
                        whole: Receiving, a: Accepted)
    requires ep.Valid()
  {
    match a.outcome
    case Closed => false
    case Refused(BadStream(error)) => whole == Failure(error)
    case Refused(BadAddress(error)) => Parse(utf8, decodable) == Failure(error)
    case Refused(TooLong) => false
    case Waiting(appBuf) =>
      Parse(utf8, decodable) == Success(None) && appBuf == decodable && whole.Success? && a.half == whole.value.half
    case Connect(target, initial, n, rest) =>
      && Parse(utf8, decodable).Success? && Parse(utf8, decodable).value.Some?
      && n + |Concat(rest)| == uploaded + |Concat(chunks)|
      && var p := Parse(utf8, decodable).value.value;
         && target == p.address && p.consumed <= |decodable|
         && Relays(ep, a.half, initial, rest, decodable[p.consumed..], whole)
  }

  /** `initial` and what comes out of the later reads is a front part of `payload`, all of it when
      the whole stream decodes; and the later reads fail if and as the whole stream does. */
  ghost predicate Relays(ep: Endpoint, h: RecvHalf, initial: Bytes, rest: seq<Bytes>, payload: Bytes, whole: Receiving)
    requires ep.Valid()
  {
    var later := Deliver(ep, h, rest);
    && initial + later.out <= payload
    && match whole
       case Success(x) => later.end == Success(x.half) && initial + later.out == payload
       case Failure(error) => later.end == Failure(error)
  }

  /** Handshake framing, for every stream, decodable or not, in every segmentation: the loop can
      only find what stands at the front of the decodable part, and all that is relayed is what
      follows it there. */
  lemma HandshakeFraming(ep: Endpoint, utf8: Utf8, chunks: seq<Bytes>)
    requires ep.Valid() && forall i :: 0 <= i < |chunks| ==> chunks[i] != []
    ensures Finds(ep, utf8, 0, chunks, Decodable(ep, AwaitIv([]), Concat(chunks)),
                  Receive(ep, AwaitIv([]), Concat(chunks)), Accept(ep, utf8, AwaitIv([]), [], 0, chunks))
  {
    hide Decodable, Receive, Parse, Finds;
    NothingParsed(utf8);
    AcceptFinds(ep, utf8, AwaitIv([]), [], 0, chunks);
    var decodable := Decodable(ep, AwaitIv([]), Concat(chunks));
    assert [] + decodable == decodable;
  }

  lemma NothingParsed(utf8: Utf8)
    ensures Parse(utf8, []) == Success(None)
  {
  }

  lemma {:induction false} AcceptFinds(ep: Endpoint, utf8: Utf8, h: RecvHalf, appBuf: Bytes, uploaded: nat,
                                       chunks: seq<Bytes>)
    requires ep.Valid() && ValidHalf(ep, h) && forall i :: 0 <= i < |chunks| ==> chunks[i] != []
    requires Parse(utf8, appBuf) == Success(None)
    ensures Finds(ep, utf8, uploaded, chunks, appBuf + Decodable(ep, h, Concat(chunks)),
                  Receive(ep, h, Concat(chunks)), Accept(ep, utf8, h, appBuf, uploaded, chunks))
    decreases |chunks|
  {
    hide Receive, Parse, ValidHalf, Decodable, Deliver, Finds;
    if chunks == [] {
      DecodableNothing(ep, h);
      ReceiveNothing(ep, h);
      assert appBuf + [] == appBuf;
      WaitingFinds(ep, utf8, h, appBuf, uploaded);
    } else {
      var rest := Concat(chunks[1..]);
      ReceiveAppend(ep, h, chunks[0], rest);
      if Receive(ep, h, chunks[0]).Success? {
        var x := Receive(ep, h, chunks[0]).value;
        ReceiveKeepsValid(ep, h, chunks[0]);
        DecodableSplits(ep, h, chunks[0], rest);
        var buf := appBuf + x.out;
        var later := Decodable(ep, x.half, rest);
        assert appBuf + (x.out + later) == buf + later;
        if Parse(utf8, buf) == Success(None) {
          IncompleteIsShort(utf8, buf);
          assert x.out == [] ==> buf == appBuf;
          AcceptFinds(ep, utf8, x.half, buf, uploaded + |chunks[0]|, chunks[1..]);
          EarlierFinds(ep, utf8, uploaded, chunks, buf + later, Receive(ep, x.half, rest), x.out,
                       Accept(ep, utf8, x.half, buf, uploaded + |chunks[0]|, chunks[1..]));
        } else {
          assert x.out == [] ==> buf == appBuf;
          ParsedFinds(ep, utf8, uploaded, chunks, x, buf);
        }
      } else {
        RefusedFinds(ep, utf8, h, appBuf, uploaded, chunks);
      }
    }
  }

  lemma WaitingFinds(ep: Endpoint, utf8: Utf8, h: RecvHalf, appBuf: Bytes, uploaded: nat)
    requires ep.Valid() && Parse(utf8, appBuf) == Success(None)
    ensures Finds(ep, utf8, uploaded, [], appBuf, Success(Received(h, [])), Accept(ep, utf8, h, appBuf, uploaded, []))
  {
    hide Parse;
  }

  lemma RefusedFinds(ep: Endpoint, utf8: Utf8, h: RecvHalf, appBuf: Bytes, uploaded: nat, chunks: seq<Bytes>)
    requires ep.Valid() && chunks != [] && chunks[0] != [] && Receive(ep, h, chunks[0]).Failure?
    requires Receive(ep, h, Concat(chunks)) == Failure(Receive(ep, h, chunks[0]).error)
    ensures Finds(ep, utf8, uploaded, chunks, appBuf + Decodable(ep, h, Concat(chunks)),
                  Receive(ep, h, Concat(chunks)), Accept(ep, utf8, h, appBuf, uploaded, chunks))
  {
    hide Parse, Receive, Decodable;
  }

  /** What is found behind a read is found in front of it. */
  lemma EarlierFinds(ep: Endpoint, utf8: Utf8, uploaded: nat, chunks: seq<Bytes>, decodable: Bytes, whole: Receiving,
                     out: Bytes, a: Accepted)
    requires ep.Valid() && chunks != []
    requires Finds(ep, utf8, uploaded + |chunks[0]|, chunks[1..], decodable, whole, a)
    ensures Finds(ep, utf8, uploaded, chunks, decodable, After(out, whole), a)
  {
    hide Parse, Deliver;
  }

  /** How the loop ends on a buffer that parses, or cannot. */
  function ParsedOutcome(utf8: Utf8, buf: Bytes, uploaded: nat, rest: seq<Bytes>): Outcome
    requires Parse(utf8, buf) != Success(None)
  {
    match Parse(utf8, buf)
    case Failure(error) => Refused(BadAddress(error))
    case Success(Some(p)) =>
      ConsumedWithinBuffer(utf8, buf);
      Connect(p.address, buf[p.consumed..], uploaded, rest)
  }

  /** The read that completes the header, or makes it unreadable. */
  lemma ParsedFinds(ep: Endpoint, utf8: Utf8, uploaded: nat, chunks: seq<Bytes>, x: Received, buf: Bytes)
    requires ep.Valid() && ValidHalf(ep, x.half) && chunks != [] && Parse(utf8, buf) != Success(None)
    ensures var rest := Concat(chunks[1..]);
      Finds(ep, utf8, uploaded, chunks, buf + Decodable(ep, x.half, rest), After(x.out, Receive(ep, x.half, rest)),
            Accepted(ParsedOutcome(utf8, buf, uploaded + |chunks[0]|, chunks[1..]), x.half))
  {
    hide Parse, ValidHalf, Receive, Decodable, Deliver;
    var later := Decodable(ep, x.half, Concat(chunks[1..]));
    ParseIsPrefixStable(utf8, buf, later);
    if Parse(utf8, buf).Success? {
      ConsumedWithinBuffer(utf8, buf);
      var n := Parse(utf8, buf).value.value.consumed;
      assert (buf + later)[n..] == buf[n..] + later;
      DeliveredIsPrefix(ep, x.half, chunks[1..]);
    }
  }

  // ---- bounds ----

  /** The 64 KiB bail-out is never taken. */
  lemma {:induction false} HandshakeNeverTooLong(ep: Endpoint, utf8: Utf8, h: RecvHalf, appBuf: Bytes, uploaded: nat,
                                                 chunks: seq<Bytes>)
    requires ep.Valid()
    ensures Accept(ep, utf8, h, appBuf, uploaded, chunks).outcome != Refused(TooLong)
    decreases |chunks|
  {
    hide Receive, Parse;
    if chunks != [] && chunks[0] != [] && Receive(ep, h, chunks[0]).Success? {
      var x := Receive(ep, h, chunks[0]).value;
      var buf := appBuf + x.out;
      if Parse(utf8, buf) == Success(None) {
        IncompleteIsShort(utf8, buf);
      }
      HandshakeNeverTooLong(ep, utf8, x.half, appBuf, uploaded + |chunks[0]|, chunks[1..]);
      HandshakeNeverTooLong(ep, utf8, x.half, buf, uploaded + |chunks[0]|, chunks[1..]);
    }
  }

  /** One `decrypt` call returns at most what was buffered plus what was read. */
  lemma DecryptedIsBounded(ep: Endpoint, h: RecvHalf, raw: Bytes)
    requires ep.Valid() && ValidHalf(ep, h) && Receive(ep, h, raw).Success?
    ensures |Receive(ep, h, raw).value.out| < MAX_PACKET + |raw|
  {
    hide Drain, CipherKind.NewStream, Stream.Encipher, Stream.Skip;
    match h
    case Opened(decryptor, env, proto) =>
      if raw != [] {
        DrainShrinks(env, proto.Feed(decryptor.Encipher(ep.prim, raw)));
      }
    case AwaitIv(buf) =>
      var n := ep.cipher.IvLen();
      if |buf + raw| > n {
        var open := ep.Open((buf + raw)[..n]);
        DrainShrinks(open.env, open.proto.Feed(open.decryptor.Encipher(ep.prim, (buf + raw)[n..])));
      }
  }

  /** The payload that came with the handshake, the first amount charged. */
  lemma {:induction false} InitialIsBounded(ep: Endpoint, utf8: Utf8, h: RecvHalf, appBuf: Bytes, uploaded: nat,
                                            chunks: seq<Bytes>)
    requires ep.Valid() && ValidHalf(ep, h) && |appBuf| < 259
    requires forall i :: 0 <= i < |chunks| ==> |chunks[i]| <= READ_CHUNK
    ensures var a := Accept(ep, utf8, h, appBuf, uploaded, chunks);
      a.outcome.Connect? ==> |a.outcome.initial| < 259 + MAX_PACKET + READ_CHUNK && ValidHalf(ep, a.half)
    decreases |chunks|
  {
    hide Receive, Parse, ValidHalf;
    if chunks != [] && chunks[0] != [] && Receive(ep, h, chunks[0]).Success? {
      var x := Receive(ep, h, chunks[0]).value;
      var buf := appBuf + x.out;
      ReceiveKeepsValid(ep, h, chunks[0]);
      DecryptedIsBounded(ep, h, chunks[0]);
      if Parse(utf8, buf) == Success(None) {
        IncompleteIsShort(utf8, buf);
        InitialIsBounded(ep, utf8, x.half, buf, uploaded + |chunks[0]|, chunks[1..]);
      } else if Parse(utf8, buf).Success? {
        ConsumedWithinBuffer(utf8, buf);
      }
      InitialIsBounded(ep, utf8, x.half, appBuf, uploaded + |chunks[0]|, chunks[1..]);
    }
  }

  /** The wire bytes of one read from the remote side, as charged on the way to the client. */
  lemma EncryptedIsBounded(ep: Endpoint, sendIv: Bytes, c: Connection, plaintext: Bytes)
    requires c.recv.Opened? && |sendIv| == ep.cipher.IvLen() && |plaintext| <= READ_CHUNK
    ensures Send(ep, sendIv, c, plaintext).Success?
    ensures |Send(ep, sendIv, c, plaintext).value.wire| <= READ_CHUNK + 9 * 3 + 16
  {
    PreEncryptSize(ep.prim, c.recv.proto, plaintext);
    hide PreEncrypt, Stream.Encipher, Stream.Skip;
  }
}
