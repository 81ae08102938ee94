/** One TCP connection's codec (`src/ssr/mod.rs`): the cleartext IV, the stream cipher and the
    `auth_aes128_md5` layer, in both directions.
 */
module Session {
  import opened Bytes
  import opened Crypto
  import opened Cipher
  import opened Protocol
  import opened Segmentation

  /** Who receives: the server expects an auth packet first, a client only data packets keyed
      by its own user key. */
  datatype Role = Server | Client(userKey: Bytes)

  datatype Endpoint = Endpoint(
    prim: Primitives,
    cipher: CipherKind,
    masterKey: Bytes,
    users: map<nat, Bytes>,
    isMultiUser: int,
    role: Role)
  {
    predicate Valid() { |masterKey| == cipher.KeyLen() }

    function EnvFor(iv: Bytes): Env { Env(prim, masterKey, iv, users, isMultiUser) }

    function Opening(iv: Bytes): Proto {
      match role
      case Server => Initial(EnvFor(iv))
      case Client(userKey) =>
        Initial(EnvFor(iv)).(hasRecvHeader := true, userKey := userKey, aesKey := AesKeyFor(prim, userKey))
    }

    function Open(iv: Bytes): RecvHalf
      requires Valid() && |iv| == cipher.IvLen()
    {
      Opened(cipher.NewStream(prim, masterKey, iv), EnvFor(iv), Opening(iv))
    }
  }

  /** The receiving half: still collecting the IV, or past it. */
  datatype RecvHalf =
    | AwaitIv(buf: Bytes)
    | Opened(decryptor: Stream, env: Env, proto: Proto)

  datatype Received = Received(half: RecvHalf, out: Bytes)

  type Receiving = Result<Received, AuthError>

  ghost predicate ValidHalf(ep: Endpoint, h: RecvHalf) {
    match h
    case AwaitIv(buf) => |buf| < ep.cipher.IvLen()
    case Opened(_, env, proto) =>
      && env == ep.EnvFor(env.recvIv)
      && Quiescent(env, proto)
      && |proto.recvBuf| < MAX_PACKET
      && (ep.role.Server? ==> UserFromTable(env, proto))
  }

  function ReceiveOpened(ep: Endpoint, h: RecvHalf, data: Bytes): Receiving
    requires h.Opened?
  {
    if data == [] then Success(Received(h, []))
    else
      match PostDecrypt(h.env, h.proto, h.decryptor.Encipher(ep.prim, data))
      case Success(d) => Success(Received(Opened(h.decryptor.Skip(|data|), h.env, d.state), d.out))
      case Failure(error) => Failure(error)
  }

  function Receive(ep: Endpoint, h: RecvHalf, raw: Bytes): Receiving
    requires ep.Valid()
  {
    match h
    case AwaitIv(buf) =>
      var all := buf + raw;
      if |all| < ep.cipher.IvLen() then Success(Received(AwaitIv(all), []))
      else ReceiveOpened(ep, ep.Open(all[..ep.cipher.IvLen()]), all[ep.cipher.IvLen()..])
    case Opened(_, _, _) => ReceiveOpened(ep, h, raw)
  }

  function After(out: Bytes, r: Receiving): Receiving {
    match r
    case Success(x) => Success(Received(x.half, out + x.out))
    case Failure(_) => r
  }

  /** The stream in the pieces TCP delivers it in. */
  function ReceiveAll(ep: Endpoint, h: RecvHalf, chunks: seq<Bytes>): Receiving
    requires ep.Valid()
    decreases |chunks|
  {
    if chunks == [] then Success(Received(h, []))
    else
      match Receive(ep, h, chunks[0])
      case Success(x) => After(x.out, ReceiveAll(ep, x.half, chunks[1..]))
      case Failure(error) => Failure(error)
  }

  function Resume(ep: Endpoint, r: Receiving, more: Bytes): Receiving
    requires ep.Valid()
  {
    match r
    case Success(x) => After(x.out, Receive(ep, x.half, more))
    case Failure(_) => r
  }

  lemma AfterNothing(r: Receiving)
    ensures After([], r) == r
  {
    if r.Success? {
      assert [] + r.value.out == r.value.out;
    }
  }

  lemma ReceiveOpenedAppend(ep: Endpoint, h: RecvHalf, a: Bytes, b: Bytes)
    requires ep.Valid() && h.Opened?
    ensures ReceiveOpened(ep, h, a + b) == Resume(ep, ReceiveOpened(ep, h, a), b)
  {
    hide Drain, PostDecrypt, Stream.Encipher, Stream.Skip;
    if a == [] {
      assert a + b == b;
      AfterNothing(ReceiveOpened(ep, h, b));
    } else if b == [] {
      assert a + b == a;
      if ReceiveOpened(ep, h, a).Success? {
        assert ReceiveOpened(ep, h, a).value.out + [] == ReceiveOpened(ep, h, a).value.out;
      }
    } else {
      EncipherAppend(ep.prim, h.decryptor, a, b);
      SkipCompose(h.decryptor, |a|, |b|);
      PostDecryptAppend(h.env, h.proto, h.decryptor.Encipher(ep.prim, a),
                        h.decryptor.Skip(|a|).Encipher(ep.prim, b));
    }
  }

  lemma ReceiveOpenedNothing(ep: Endpoint, h: RecvHalf)
    requires h.Opened?
    ensures ReceiveOpened(ep, h, []) == Success(Received(h, []))
  {
  }

  lemma ReceiveAppend(ep: Endpoint, h: RecvHalf, a: Bytes, b: Bytes)
    requires ep.Valid()
    ensures Receive(ep, h, a + b) == Resume(ep, Receive(ep, h, a), b)
  {
    hide ReceiveOpened;
    match h
    case Opened(_, _, _) =>
      ReceiveOpenedAppend(ep, h, a, b);
    case AwaitIv(buf) =>
      var n := ep.cipher.IvLen();
      assert buf + (a + b) == buf + a + b;
      if |buf + a| >= n {
        assert (buf + a + b)[..n] == (buf + a)[..n];
        assert (buf + a + b)[n..] == (buf + a)[n..] + b;
        ReceiveOpenedAppend(ep, ep.Open((buf + a)[..n]), (buf + a)[n..], b);
      } else {
        AfterNothing(Receive(ep, AwaitIv(buf + a), b));
      }
  }

  lemma ReceiveNothing(ep: Endpoint, h: RecvHalf)
    requires ep.Valid() && ValidHalf(ep, h)
    ensures Receive(ep, h, []) == Success(Received(h, []))
  {
    if h.AwaitIv? {
      assert h.buf + [] == h.buf;
    }
  }

  /** Segmentation independence: cutting the client's bytes differently changes neither
      whether, nor with which error, decoding fails, nor the payload, nor the final state. */
  lemma {:induction false} SegmentationIndependence(ep: Endpoint, h: RecvHalf, chunks: seq<Bytes>)
    requires ep.Valid() && ValidHalf(ep, h)
    ensures ReceiveAll(ep, h, chunks) == Receive(ep, h, Concat(chunks))
    decreases |chunks|
  {
    hide Receive;
    if chunks == [] {
      ReceiveNothing(ep, h);
    } else {
      ReceiveAppend(ep, h, chunks[0], Concat(chunks[1..]));
      if Receive(ep, h, chunks[0]).Success? {
        ReceiveKeepsValid(ep, h, chunks[0]);
        SegmentationIndependence(ep, Receive(ep, h, chunks[0]).value.half, chunks[1..]);
      }
    }
  }

  lemma ReceiveOpenedKeepsValid(ep: Endpoint, h: RecvHalf, data: Bytes)
    requires ep.Valid() && h.Opened? && ValidHalf(ep, h) && ReceiveOpened(ep, h, data).Success?
    ensures ValidHalf(ep, ReceiveOpened(ep, h, data).value.half)
  {
    hide Step, Drain, Stream.Encipher, Stream.Skip;
    if data != [] {
      var p := h.proto.Feed(h.decryptor.Encipher(ep.prim, data));
      DrainLeavesQuiescent(h.env, p);
      if ep.role.Server? {
        DrainIsSound(h.env, p);
      }
    }
  }

  /** A half that has just opened is valid. */
  lemma OpenIsValid(ep: Endpoint, iv: Bytes)
    requires ep.Valid() && |iv| == ep.cipher.IvLen()
    ensures ValidHalf(ep, ep.Open(iv))
  {
    if ep.role.Server? {
      InitialIsSound(ep.EnvFor(iv));
    }
  }

  lemma ReceiveKeepsValid(ep: Endpoint, h: RecvHalf, raw: Bytes)
    requires ep.Valid() && ValidHalf(ep, h) && Receive(ep, h, raw).Success?
    ensures ValidHalf(ep, Receive(ep, h, raw).value.half)
  {
    hide Drain, ReceiveOpened, Initial;
    match h
    case Opened(_, _, _) =>
      ReceiveOpenedKeepsValid(ep, h, raw);
    case AwaitIv(buf) =>
      var n := ep.cipher.IvLen();
      if |buf + raw| >= n {
        OpenIsValid(ep, (buf + raw)[..n]);
        ReceiveOpenedKeepsValid(ep, ep.Open((buf + raw)[..n]), (buf + raw)[n..]);
      }
  }

  /** In every state a connection reaches, whatever its client sends and however it is cut, the
      buffer is bounded, nothing in it can be decoded yet, and an identified user is the table's. */
  lemma {:induction false} AlwaysValid(ep: Endpoint, h: RecvHalf, chunks: seq<Bytes>)
    requires ep.Valid() && ValidHalf(ep, h) && ReceiveAll(ep, h, chunks).Success?
    ensures ValidHalf(ep, ReceiveAll(ep, h, chunks).value.half)
    decreases |chunks|
  {
    hide Receive, ValidHalf;
    if chunks != [] {
      ReceiveKeepsValid(ep, h, chunks[0]);
      AlwaysValid(ep, Receive(ep, h, chunks[0]).value.half, chunks[1..]);
    }
  }
}
