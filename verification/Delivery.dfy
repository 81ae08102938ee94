/** What a connection has already passed on when it fails (`src/ssr/mod.rs:197-233`,
    `src/tcp.rs:300-326`). A call that fails gives nothing back, but what the calls before it gave
    was relayed, so how the stream is cut decides how much that is. */
module Delivery {
  import opened Bytes
  import opened Crypto
  import opened Cipher
  import opened Protocol
  import opened Segmentation
  import opened Session

  // ---- what could come out at most ----

  /** The payload of every packet in front of the first one that is refused or not yet whole. */
  function Drainable(e: Env, p: Proto): Bytes
    decreases |p.recvBuf|
  {
    match Step(e, p)
    case Emit(q, payload) => payload + Drainable(e, q)
    case _ => []
  }

  /** The same of all the bytes a receiver may ever read. */
  function Decodable(ep: Endpoint, h: RecvHalf, raw: Bytes): Bytes
    requires ep.Valid()
  {
    match h
    case AwaitIv(buf) =>
      var all := buf + raw;
      if |all| < ep.cipher.IvLen() then []
      else DecodableOpened(ep, ep.Open(all[..ep.cipher.IvLen()]), all[ep.cipher.IvLen()..])
    case Opened(_, _, _) => DecodableOpened(ep, h, raw)
  }

  function DecodableOpened(ep: Endpoint, h: RecvHalf, data: Bytes): Bytes
    requires h.Opened?
  {
    if data == [] then [] else Drainable(h.env, h.proto.Feed(h.decryptor.Encipher(ep.prim, data)))
  }

  // ---- what does come out ----

  /** The output of the reads in front of the first failure, how many these are, and the end. */
  datatype Progress = Progress(out: Bytes, count: nat, end: Result<RecvHalf, AuthError>)

  function Deliver(ep: Endpoint, h: RecvHalf, chunks: seq<Bytes>): Progress
    requires ep.Valid()
    decreases |chunks|
  {
    if chunks == [] then Progress([], 0, Success(h))
    else
      match Receive(ep, h, chunks[0])
      case Failure(error) => Progress([], 0, Failure(error))
      case Success(x) =>
        var later := Deliver(ep, x.half, chunks[1..]);
        Progress(x.out + later.out, later.count + 1, later.end)
  }

  /** All or nothing of it is what `ReceiveAll` gives. */
  lemma {:induction false} DeliverIsReceiveAll(ep: Endpoint, h: RecvHalf, chunks: seq<Bytes>)
    requires ep.Valid()
    ensures var d := Deliver(ep, h, chunks);
      && d.count <= |chunks| && (d.end.Success? <==> d.count == |chunks|)
      && ReceiveAll(ep, h, chunks)
         == match d.end
            case Success(end) => Success(Received(end, d.out))
            case Failure(error) => Failure(error)
    decreases |chunks|
  {
    hide Receive;
    if chunks != [] && Receive(ep, h, chunks[0]).Success? {
      DeliverIsReceiveAll(ep, Receive(ep, h, chunks[0]).value.half, chunks[1..]);
    }
  }

  // ---- how the two compare ----

  lemma {:induction false} DrainableExtends(e: Env, p: Proto, more: Bytes)
    requires Drain(e, p).Success?
    ensures Drainable(e, p) == Drain(e, p).value.out
    ensures Drainable(e, p.Feed(more)) == Drain(e, p).value.out + Drainable(e, Drain(e, p).value.state.Feed(more))
    decreases |p.recvBuf|
  {
    StepExtends(e, p, more);
    hide Step;
    match Step(e, p)
    case Wait(q) =>
      assert [] + Drainable(e, q.Feed(more)) == Drainable(e, q.Feed(more));
    case Emit(q, payload) =>
      DrainableExtends(e, q, more);
      var d := Drain(e, q).value;
      assert payload + (d.out + Drainable(e, d.state.Feed(more))) == payload + d.out + Drainable(e, d.state.Feed(more));
  }

  lemma DecodableOpenedSplits(ep: Endpoint, h: RecvHalf, a: Bytes, b: Bytes)
    requires h.Opened? && ReceiveOpened(ep, h, a).Success?
    ensures var x := ReceiveOpened(ep, h, a).value;
      && x.half.Opened?
      && DecodableOpened(ep, h, a) == x.out
      && DecodableOpened(ep, h, a + b) == x.out + DecodableOpened(ep, x.half, b)
  {
    hide Drain, Drainable, Stream.Encipher, Stream.Skip;
    if a == [] {
      assert a + b == b;
      assert [] + DecodableOpened(ep, h, b) == DecodableOpened(ep, h, b);
    } else {
      var plain := h.decryptor.Encipher(ep.prim, a);
      var p := h.proto.Feed(plain);
      if b == [] {
        assert a + b == a;
        DrainableExtends(h.env, p, []);
        assert Drain(h.env, p).value.out + [] == Drain(h.env, p).value.out;
      } else {
        EncipherAppend(ep.prim, h.decryptor, a, b);
        var more := h.decryptor.Skip(|a|).Encipher(ep.prim, b);
        DrainableExtends(h.env, p, more);
        assert h.proto.Feed(plain + more) == p.Feed(more) by {
          assert h.proto.recvBuf + (plain + more) == h.proto.recvBuf + plain + more;
        }
      }
    }
  }

  /** A read that succeeds gives the front of what is decodable, and leaves the rest decodable. */
  lemma DecodableSplits(ep: Endpoint, h: RecvHalf, a: Bytes, b: Bytes)
    requires ep.Valid() && Receive(ep, h, a).Success?
    ensures var x := Receive(ep, h, a).value;
      && Decodable(ep, h, a) == x.out
      && Decodable(ep, h, a + b) == x.out + Decodable(ep, x.half, b)
  {
    hide ReceiveOpened, DecodableOpened;
    match h
    case Opened(_, _, _) =>
      DecodableOpenedSplits(ep, h, a, b);
    case AwaitIv(buf) =>
      var n := ep.cipher.IvLen();
      assert buf + (a + b) == buf + a + b;
      if |buf + a| >= n {
        assert (buf + a + b)[..n] == (buf + a)[..n];
        assert (buf + a + b)[n..] == (buf + a)[n..] + b;
        DecodableOpenedSplits(ep, ep.Open((buf + a)[..n]), (buf + a)[n..], b);
      } else {
        assert [] + Decodable(ep, AwaitIv(buf + a), b) == Decodable(ep, AwaitIv(buf + a), b);
      }
  }

  lemma AllDecodable(ep: Endpoint, h: RecvHalf, raw: Bytes)
    requires ep.Valid() && Receive(ep, h, raw).Success?
    ensures Decodable(ep, h, raw) == Receive(ep, h, raw).value.out
  {
    DecodableSplits(ep, h, raw, []);
  }

  lemma DecodableNothing(ep: Endpoint, h: RecvHalf)
    requires ep.Valid() && ValidHalf(ep, h)
    ensures Decodable(ep, h, []) == []
  {
    ReceiveNothing(ep, h);
    DecodableSplits(ep, h, [], []);
  }

  /** Whatever the cut: the same streams fail, with the same error; what was passed on is a front
      part of what is decodable, and all of it when nothing fails. */
  lemma {:induction false} DeliveredIsPrefix(ep: Endpoint, h: RecvHalf, chunks: seq<Bytes>)
    requires ep.Valid() && ValidHalf(ep, h)
    ensures var d := Deliver(ep, h, chunks);
      && d.out <= Decodable(ep, h, Concat(chunks))
      && (d.end.Success? ==> d.out == Decodable(ep, h, Concat(chunks)))
      && match Receive(ep, h, Concat(chunks))
         case Success(x) => d.end == Success(x.half)
         case Failure(error) => d.end == Failure(error)
    decreases |chunks|
  {
    SegmentationIndependence(ep, h, chunks);
    DeliverIsReceiveAll(ep, h, chunks);
    hide Receive, ReceiveAll, Decodable;
    if chunks == [] {
      DecodableNothing(ep, h);
    } else if Receive(ep, h, chunks[0]).Success? {
      DecodableSplits(ep, h, chunks[0], Concat(chunks[1..]));
      ReceiveKeepsValid(ep, h, chunks[0]);
      DeliveredIsPrefix(ep, Receive(ep, h, chunks[0]).value.half, chunks[1..]);
    }
  }

  /** Two cuts of one stream never pass on different things, only more or less of the same. */
  lemma DeliveriesComparable(ep: Endpoint, h: RecvHalf, a: seq<Bytes>, b: seq<Bytes>)
    requires ep.Valid() && ValidHalf(ep, h) && Concat(a) == Concat(b)
    ensures var (x, y) := (Deliver(ep, h, a), Deliver(ep, h, b));
      && x.end == y.end
      && (x.out <= y.out || y.out <= x.out)
      && (x.end.Success? ==> x.out == y.out)
  {
    hide Receive, Deliver, Decodable;
    DeliveredIsPrefix(ep, h, a);
    DeliveredIsPrefix(ep, h, b);
  }

  // ---- the bound is reached ----

  function Bytewise(raw: Bytes): seq<Bytes> {
    if raw == [] then [] else [[raw[0]]] + Bytewise(raw[1..])
  }

  lemma {:induction false} BytewiseIsACut(raw: Bytes)
    ensures Concat(Bytewise(raw)) == raw
    ensures forall i :: 0 <= i < |Bytewise(raw)| ==> Bytewise(raw)[i] != []
    decreases |raw|
  {
    if raw != [] {
      BytewiseIsACut(raw[1..]);
      assert ([[raw[0]]] + Bytewise(raw[1..]))[1..] == Bytewise(raw[1..]);
    }
  }

  lemma LastAuthByte(e: Env, q: Proto, b: byte)
    requires |q.recvBuf| >= 31 && AuthStep(e, q).Wait? && AuthStep(e, q.Feed([b])).Emit?
    ensures AuthStep(e, q.Feed([b])).state.recvBuf == []
  {
    hide U16, Primitives.Mac;
    SliceOfExtended(q.recvBuf, [b], 11, 27);
  }

  lemma LastDataByte(e: Env, p: Proto, b: byte)
    requires p.hasRecvHeader && DataStep(e, p).Wait? && DataStep(e, p.Feed([b])).Emit?
    ensures DataStep(e, p.Feed([b])).state.recvBuf == []
  {
    hide LittleEndian32, WrapAdd32, U16, Primitives.Mac;
    if |p.recvBuf| > 4 {
      SliceOfExtended(p.recvBuf, [b], 0, 2);
    }
  }

  /** An auth packet is longer than its fixed part. */
  lemma ShortAuth(e: Env, q: Proto)
    requires |q.recvBuf| == 31
    ensures !AuthStep(e, q).Emit?
  {
  }

  /** A packet that one more byte makes whole ends with that byte. */
  lemma LastByteEnds(e: Env, p: Proto, b: byte)
    requires Quiescent(e, p) && Step(e, p.Feed([b])).Emit?
    ensures Step(e, p.Feed([b])).state.recvBuf == []
  {
    hide AuthStep, DataStep;
    if p.hasRecvHeader {
      LastDataByte(e, p, b);
    } else {
      var p' := p.Feed([b]);
      if |p.recvBuf| < 31 {
        ShortAuth(e, SelectUser(e, p', Uid(p'.recvBuf)));
      } else {
        SelectUserIdempotent(e, p, Uid(p.recvBuf), [b]);
        assert Uid(p'.recvBuf) == Uid(p.recvBuf);
        LastAuthByte(e, SelectUser(e, p, Uid(p.recvBuf)), b);
      }
    }
  }

  /** With nothing buffered, and the auth packet in, there is nothing to refuse. */
  lemma EmptyWaits(e: Env, p: Proto)
    requires p.recvBuf == []
    ensures Step(e, p) == Wait(p)
  {
  }

  /** If a single byte more is refused, nothing behind it comes out either. */
  lemma RefusedByte(e: Env, p: Proto, b: byte, more: Bytes)
    requires Quiescent(e, p) && Drain(e, p.Feed([b])).Failure?
    ensures Drainable(e, p.Feed([b] + more)) == []
  {
    hide Step, Proto.Feed;
    var p' := p.Feed([b]);
    FedTwice(p, b, more);
    StepExtends(e, p', more);
    if Step(e, p').Emit? {
      LastByteEnds(e, p, b);
      EmptyWaits(e, Step(e, p').state);
    }
  }

  lemma FedTwice(p: Proto, b: byte, more: Bytes)
    ensures p.Feed([b]).Feed(more) == p.Feed([b] + more)
  {
    assert p.recvBuf + ([b] + more) == p.recvBuf + [b] + more;
  }

  lemma RefusedReadOfOne(ep: Endpoint, h: RecvHalf, b: byte, more: Bytes)
    requires ep.Valid() && ValidHalf(ep, h) && Receive(ep, h, [b]).Failure?
    ensures Decodable(ep, h, [b] + more) == []
  {
    hide Drain, Drainable, Step, Stream.Encipher, Stream.Skip, CipherKind.NewStream;
    // the byte that completes the IV is never refused
    if h.Opened? {
      EncipherAppend(ep.prim, h.decryptor, [b], more);
      var plain := h.decryptor.Encipher(ep.prim, [b]);
      assert plain == [plain[0]];
      RefusedByte(h.env, h.proto, plain[0], h.decryptor.Skip(1).Encipher(ep.prim, more));
    }
  }

  /** Read byte by byte, everything decodable is passed on: no bound short of it would do. */
  lemma {:induction false} BytewiseDeliversAll(ep: Endpoint, h: RecvHalf, raw: Bytes)
    requires ep.Valid() && ValidHalf(ep, h)
    ensures Deliver(ep, h, Bytewise(raw)).out == Decodable(ep, h, raw)
    decreases |raw|
  {
    hide Receive, Decodable, ValidHalf;
    if raw == [] {
      DecodableNothing(ep, h);
    } else {
      var first, rest := [raw[0]], raw[1..];
      assert raw == first + rest;
      assert Bytewise(raw)[1..] == Bytewise(rest);
      if Receive(ep, h, first).Success? {
        DecodableSplits(ep, h, first, rest);
        ReceiveKeepsValid(ep, h, first);
        BytewiseDeliversAll(ep, Receive(ep, h, first).value.half, rest);
      } else {
        RefusedReadOfOne(ep, h, raw[0], rest);
      }
    }
  }

  /** What is decodable is what the longest decodable front part gives. */
  lemma {:induction false} DecodableFront(ep: Endpoint, h: RecvHalf, raw: Bytes) returns (k: nat)
    requires ep.Valid() && ValidHalf(ep, h)
    ensures k <= |raw| && Receive(ep, h, raw[..k]).Success?
    ensures Receive(ep, h, raw[..k]).value.out == Decodable(ep, h, raw)
    decreases |raw|
  {
    hide Receive, Decodable, ValidHalf;
    k := 0;
    ReceiveNothing(ep, h);
    if raw == [] {
      DecodableNothing(ep, h);
    } else {
      var first, rest := [raw[0]], raw[1..];
      assert raw == first + rest;
      if Receive(ep, h, first).Success? {
        DecodableSplits(ep, h, first, rest);
        ReceiveKeepsValid(ep, h, first);
        k := DecodableFront(ep, Receive(ep, h, first).value.half, rest);
        ReceiveAppend(ep, h, first, rest[..k]);
        k := k + 1;
        assert raw[..k] == first + rest[..k - 1];
      } else {
        RefusedReadOfOne(ep, h, raw[0], rest);
      }
    }
  }
}
