/** Both halves of a server connection (`src/ssr/mod.rs:152-260`). */
module ServerCodec {
  import opened Bytes
  import opened Crypto
  import opened Cipher
  import opened Protocol
  import opened Session

  datatype Connection = Connection(recv: RecvHalf, encryptor: Stream, sendIvEmitted: bool)

  datatype EncryptError = NoHandshakeYet

  datatype Sent = Sent(conn: Connection, wire: Bytes)

  function Fresh(ep: Endpoint, sendIv: Bytes): Connection
    requires ep.Valid() && |sendIv| == ep.cipher.IvLen()
  {
    Connection(AwaitIv([]), ep.cipher.NewStream(ep.prim, ep.masterKey, sendIv), false)
  }

  /** The packets of `plaintext` enciphered, behind the IV when nothing was sent before. */
  function Send(ep: Endpoint, sendIv: Bytes, c: Connection, plaintext: Bytes): Result<Sent, EncryptError> {
    match c.recv
    case AwaitIv(_) => Failure(NoHandshakeYet)
    case Opened(decryptor, env, proto) =>
      var (proto', body) := PreEncrypt(ep.prim, proto, plaintext);
      var wire := c.encryptor.Encipher(ep.prim, body);
      Success(Sent(Connection(Opened(decryptor, env, proto'), c.encryptor.Skip(|body|), true),
                   if c.sendIvEmitted then wire else sendIv + wire))
  }

  // ---- in place ----

  class ServerSession {
    const prim: Primitives
    const cipher: CipherKind
    const masterKey: Bytes
    const users: map<nat, Bytes>
    const isMultiUser: int
    const sendIv: Bytes
    const encryptor: StreamCipher
    var recvIvBuf: Bytes
    var decryptor: StreamCipher?
    var protocol: AuthAes128Md5?
    var sendIvEmitted: bool

    ghost function Self(): Endpoint { Endpoint(prim, cipher, masterKey, users, isMultiUser, Server) }

    ghost function Repr(): set<object>
      reads this
    {
      {this} + encryptor.Footprint()
      + (if decryptor == null then {} else decryptor.Footprint())
      + (if protocol == null then {} else {protocol})
    }

    ghost predicate Valid()
      reads this, Repr()
    {
      && Self().Valid()
      && |sendIv| == cipher.IvLen()
      && this !in encryptor.Footprint()
      && encryptor.Valid() && encryptor.prim == prim
      && (decryptor == null <==> protocol == null)
      && (decryptor != null ==>
            && decryptor.Valid() && decryptor.prim == prim
            && this !in decryptor.Footprint()
            && decryptor.Footprint() !! encryptor.Footprint()
            && protocol !in decryptor.Footprint() + encryptor.Footprint()
            && protocol.Environment() == Self().EnvFor(protocol.recvIv))
    }

    ghost function Receiving(): RecvHalf
      requires Valid()
      reads this, Repr()
    {
      if decryptor == null then AwaitIv(recvIvBuf)
      else Opened(decryptor.State(), protocol.Environment(), protocol.State())
    }

    ghost function State(): Connection
      requires Valid()
      reads this, Repr()
    {
      Connection(Receiving(), encryptor.State(), sendIvEmitted)
    }

    constructor (prim: Primitives, password: Bytes, users: map<nat, Bytes>, isMultiUser: int,
                 cipher: CipherKind, sendIv: Bytes)
      requires |sendIv| == cipher.IvLen()
      ensures Valid() && fresh(Repr())
      ensures Self() == Endpoint(prim, cipher, DeriveKey(prim, password, cipher.KeyLen()), users, isMultiUser, Server)
      ensures this.sendIv == sendIv
      ensures State() == Fresh(Self(), sendIv)
    {
      this.prim, this.cipher, this.users, this.isMultiUser, this.sendIv := prim, cipher, users, isMultiUser, sendIv;
      var key := EvpBytesToKey(prim, password, cipher.KeyLen());
      masterKey := key;
      recvIvBuf, decryptor, protocol, sendIvEmitted := [], null, null, false;
      encryptor := new StreamCipher(prim, cipher, key, sendIv);
    }

    method Decrypt(raw: Bytes) returns (r: Result<Bytes, AuthError>)
      requires Valid()
      modifies Repr()
      ensures r.Success? ==> Valid() && fresh(Repr() - old(Repr()))
      ensures match Receive(Self(), old(Receiving()), raw)
              case Success(x) => r == Success(x.out) && Valid() && State() == old(State()).(recv := x.half)
              case Failure(error) => r == Failure(error)
    {
      hide PostDecrypt, Stream.Encipher, Stream.Skip, CipherKind.NewStream, Initial, ReceiveOpened;
      var cipherBytes: Bytes;
      if decryptor == null {
        var ivLen := cipher.IvLen();
        recvIvBuf := recvIvBuf + raw;
        if |recvIvBuf| < ivLen {
          return Success([]);
        }
        var iv := recvIvBuf[..ivLen];
        var rest := recvIvBuf[ivLen..];
        recvIvBuf := [];
        OpenStream(iv);
        cipherBytes := rest;
      } else {
        cipherBytes := raw;
      }
      if |cipherBytes| == 0 {
        ReceiveOpenedNothing(Self(), Receiving());
        return Success([]);
      }
      r := DecryptOpened(cipherBytes);
    }

    /** The IV is complete: from here on bytes are deciphered and parsed. */
    method OpenStream(iv: Bytes)
      requires Valid() && decryptor == null && |iv| == cipher.IvLen()
      modifies this`decryptor, this`protocol
      ensures Valid() && fresh(Repr() - old(Repr())) && decryptor != null
      ensures State() == old(State()).(recv := Self().Open(iv))
    {
      hide CipherKind.NewStream, AesKeyFor;
      decryptor := new StreamCipher(prim, cipher, masterKey, iv);
      protocol := new AuthAes128Md5(prim, masterKey, iv, users, isMultiUser);
    }

    /** Deciphers in place and hands the result to the protocol layer. */
    method DecryptOpened(cipherBytes: Bytes) returns (r: Result<Bytes, AuthError>)
      requires Valid() && decryptor != null && cipherBytes != []
      modifies decryptor.Footprint(), protocol
      ensures Valid() && decryptor == old(decryptor) && protocol == old(protocol)
      ensures match ReceiveOpened(Self(), old(Receiving()), cipherBytes)
              case Success(x) => r == Success(x.out) && State() == old(State()).(recv := x.half)
              case Failure(error) => r == Failure(error)
    {
      hide PostDecrypt, Stream.Encipher, Stream.Skip;
      var data := new byte[|cipherBytes|] (k requires 0 <= k < |cipherBytes| => cipherBytes[k]);
      assert data[..] == cipherBytes;
      decryptor.Process(data);
      r := protocol.ServerPostDecrypt(data[..]);
    }

    method UserId() returns (uid: Option<nat>)
      requires Valid()
      ensures uid == if Receiving().Opened? then Receiving().proto.userId else None
    {
      uid := if protocol == null then None else protocol.userId;
    }

    method Encrypt(plaintext: Bytes) returns (r: Result<Bytes, EncryptError>)
      requires Valid()
      modifies Repr()
      ensures Valid() && decryptor == old(decryptor) && protocol == old(protocol)
      ensures match Send(Self(), sendIv, old(State()), plaintext)
              case Success(x) => r == Success(x.wire) && State() == x.conn
              case Failure(error) => r == Failure(error) && State() == old(State())
    {
      hide PreEncrypt, Stream.Encipher, Stream.Skip;
      if protocol == null {
        return Failure(NoHandshakeYet);
      }
      var packets := protocol.ServerPreEncrypt(plaintext);
      var body := new byte[|packets|] (k requires 0 <= k < |packets| => packets[k]);
      assert body[..] == packets;
      encryptor.Process(body);
      if sendIvEmitted {
        return Success(body[..]);
      }
      sendIvEmitted := true;
      return Success(sendIv + body[..]);
    }
  }
}
