/** Datagrams (`src/ssr/mod.rs:98-144`, `src/ssr/protocol.rs:243-293`): each carries its own
    IV, and a trailer instead of packets. */
module Udp {
  import opened Bytes
  import opened Crypto
  import opened Cipher
  import opened SocksAddress

  datatype UdpError = ShorterThanIv | TooShort | MacMismatch

  datatype Datagram = Datagram(plain: Bytes, userId: Option<nat>)

  /** The key that must have signed a datagram of `uid`. */
  function SigningKey(masterKey: Bytes, users: map<nat, Bytes>, isMultiUser: int, recvIv: Bytes, uid: nat): Bytes {
    if uid in users then users[uid]
    else if isMultiUser == 0 then masterKey
    else recvIv
  }

  function ServerPostDecrypt(p: Primitives, masterKey: Bytes, users: map<nat, Bytes>, isMultiUser: int, recvIv: Bytes,
                             buf: Bytes)
    : Result<Datagram, UdpError>
  {
    var n := |buf|;
    if n < 8 then Failure(TooShort)
    else
      var uid := U32(buf[n - 8], buf[n - 7], buf[n - 6], buf[n - 5]);
      if p.Mac(SigningKey(masterKey, users, isMultiUser, recvIv, uid), buf[..n - 4], 4) != buf[n - 4..]
      then Failure(MacMismatch)
      else Success(Datagram(buf[..n - 8], if uid in users then Some(uid) else None))
  }

  function ServerPreEncrypt(p: Primitives, protoKey: Bytes, buf: Bytes): Bytes {
    buf + p.Mac(protoKey, buf, 4)
  }

  function Opened(p: Primitives, cipher: CipherKind, masterKey: Bytes, iv: Bytes, body: Bytes): Bytes
    requires |masterKey| == cipher.KeyLen() && |iv| == cipher.IvLen()
  {
    cipher.NewStream(p, masterKey, iv).Encipher(p, body)
  }

  method EncipherOnce(p: Primitives, cipher: CipherKind, masterKey: Bytes, iv: Bytes, body: Bytes) returns (r: Bytes)
    requires |masterKey| == cipher.KeyLen() && |iv| == cipher.IvLen()
    ensures r == Opened(p, cipher, masterKey, iv, body)
  {
    var data := new byte[|body|] (k requires 0 <= k < |body| => body[k]);
    assert data[..] == body;
    var stream := new StreamCipher(p, cipher, masterKey, iv);
    stream.Process(data);
    r := data[..];
  }

  method DecryptPacket(p: Primitives, cipher: CipherKind, masterKey: Bytes, users: map<nat, Bytes>, isMultiUser: int,
                       packet: Bytes)
    returns (r: Result<Datagram, UdpError>)
    requires |masterKey| == cipher.KeyLen()
    ensures |packet| < cipher.IvLen() ==> r == Failure(ShorterThanIv)
    ensures |packet| >= cipher.IvLen() ==>
      var iv := packet[..cipher.IvLen()];
      r == ServerPostDecrypt(p, masterKey, users, isMultiUser, iv,
                             Opened(p, cipher, masterKey, iv, packet[cipher.IvLen()..]))
  {
    var ivLen := cipher.IvLen();
    if |packet| < ivLen {
      return Failure(ShorterThanIv);
    }
    var iv := packet[..ivLen];
    var body := EncipherOnce(p, cipher, masterKey, iv, packet[ivLen..]);
    r := ServerPostDecrypt(p, masterKey, users, isMultiUser, iv, body);
  }

  method EncryptPacket(p: Primitives, cipher: CipherKind, masterKey: Bytes, protoKey: Bytes, headerAndPayload: Bytes,
                       iv: Bytes)
    returns (packet: Bytes)
    requires |masterKey| == cipher.KeyLen() && |iv| == cipher.IvLen()
    ensures packet == iv + Opened(p, cipher, masterKey, iv, ServerPreEncrypt(p, protoKey, headerAndPayload))
  {
    var data := ServerPreEncrypt(p, protoKey, headerAndPayload);
    var body := EncipherOnce(p, cipher, masterKey, iv, data);
    packet := iv + body;
  }

  // ---- round trips ----

  /** What a client sends: payload, uid and a MAC over both, enciphered behind the IV. */
  function ClientDatagram(p: Primitives, cipher: CipherKind, masterKey: Bytes, iv: Bytes, key: Bytes, uid: u32,
                          payload: Bytes): Bytes
    requires |masterKey| == cipher.KeyLen() && |iv| == cipher.IvLen()
  {
    var signed := payload + LittleEndian32(uid);
    iv + Opened(p, cipher, masterKey, iv, signed + p.Mac(key, signed, 4))
  }

  lemma TrailerRoundTrip(p: Primitives, masterKey: Bytes, users: map<nat, Bytes>, isMultiUser: int, iv: Bytes,
                         uid: u32, payload: Bytes)
    ensures var signed := payload + LittleEndian32(uid);
      ServerPostDecrypt(p, masterKey, users, isMultiUser, iv,
        signed + p.Mac(SigningKey(masterKey, users, isMultiUser, iv, uid), signed, 4))
      == Success(Datagram(payload, if uid in users then Some(uid as nat) else None))
  {
    hide LittleEndian32;
    var id := LittleEndian32(uid);
    var signed := payload + id;
    var buf := signed + p.Mac(SigningKey(masterKey, users, isMultiUser, iv, uid), signed, 4);
    var n := |buf|;
    assert buf[n - 8] == id[0] && buf[n - 7] == id[1] && buf[n - 6] == id[2] && buf[n - 5] == id[3];
    assert buf[..n - 4] == signed && buf[..n - 8] == payload;
  }

  /** The converse: an accepted datagram is a payload and a uid, signed under that uid's key. */
  lemma AcceptedWasSigned(p: Primitives, masterKey: Bytes, users: map<nat, Bytes>, isMultiUser: int, iv: Bytes,
                          buf: Bytes)
      returns (uid: u32)
    requires ServerPostDecrypt(p, masterKey, users, isMultiUser, iv, buf).Success?
    ensures var d := ServerPostDecrypt(p, masterKey, users, isMultiUser, iv, buf).value;
      var key := if uid in users then users[uid] else if isMultiUser == 0 then masterKey else iv;
      var signed := d.plain + LittleEndian32(uid);
      && buf == signed + p.hmacMd5(key, signed)[..4]
      && d.userId == if uid in users then Some(uid as nat) else None
  {
    var n := |buf|;
    uid := U32(buf[n - 8], buf[n - 7], buf[n - 6], buf[n - 5]);
    WordOfFourBytes(buf[n - 8], buf[n - 7], buf[n - 6], buf[n - 5]);
    assert buf[n - 8..n - 4] == LittleEndian32(uid);
    assert buf[..n - 4] == buf[..n - 8] + buf[n - 8..n - 4];
    assert buf == buf[..n - 4] + buf[n - 4..];
  }

  lemma WordOfFourBytes(a: byte, b: byte, c: byte, d: byte)
    ensures LittleEndian32(U32(a, b, c, d)) == [a, b, c, d]
  {
    var higher := c + 0x100 * d;
    var high := b + 0x100 * higher;
    ModuloUnique(higher, 0x100, d, c);
    ModuloUnique(high, 0x100, higher, b);
    ModuloUnique(U32(a, b, c, d), 0x100, high, a);
  }

  /** Upload: the server takes exactly the payload and the uid out of a client's datagram,
      for registered users and, under the master key or the IV, for everyone else. */
  lemma DatagramRoundTrip(p: Primitives, cipher: CipherKind, masterKey: Bytes, users: map<nat, Bytes>, isMultiUser: int,
                          iv: Bytes, uid: u32, payload: Bytes)
    requires |masterKey| == cipher.KeyLen() && |iv| == cipher.IvLen()
    ensures var key := if uid in users then users[uid] else if isMultiUser == 0 then masterKey else iv;
      var packet := ClientDatagram(p, cipher, masterKey, iv, key, uid, payload);
      && |packet| >= cipher.IvLen() && packet[..cipher.IvLen()] == iv
      && ServerPostDecrypt(p, masterKey, users, isMultiUser, iv,
          Opened(p, cipher, masterKey, iv, packet[cipher.IvLen()..]))
         == Success(Datagram(payload, if uid in users then Some(uid as nat) else None))
  {
    hide ServerPostDecrypt, CipherKind.NewStream, Stream.Encipher;
    var key := SigningKey(masterKey, users, isMultiUser, iv, uid);
    var signed := payload + LittleEndian32(uid);
    var packet := ClientDatagram(p, cipher, masterKey, iv, key, uid, payload);
    assert packet[cipher.IvLen()..] == Opened(p, cipher, masterKey, iv, signed + p.Mac(key, signed, 4));
    EncipherTwice(p, cipher.NewStream(p, masterKey, iv), signed + p.Mac(key, signed, 4));
    TrailerRoundTrip(p, masterKey, users, isMultiUser, iv, uid, payload);
  }

  /** Download: a response deciphers under the master key to its origin address, its payload
      and a MAC that verifies under the user's key; parsing stops where the payload starts. */
  lemma ResponseRoundTrip(p: Primitives, utf8: Utf8, cipher: CipherKind, masterKey: Bytes, protoKey: Bytes, iv: Bytes,
                          from: IpAddr, port: u16, payload: Bytes)
    requires |masterKey| == cipher.KeyLen() && |iv| == cipher.IvLen() && from.Valid()
    ensures var header := PackSocketAddr(from, port);
      var wire := Opened(p, cipher, masterKey, iv, ServerPreEncrypt(p, protoKey, header + payload));
      var plain := Opened(p, cipher, masterKey, iv, wire);
      var n := |plain| - 4;
      && n >= |header|
      && plain[n..] == p.Mac(protoKey, plain[..n], 4)
      && Parse(utf8, plain[..n]) == Success(Some(Parsed(Address(from.AsHost(), port), |header|)))
      && plain[|header|..n] == payload
  {
    hide CipherKind.NewStream, Stream.Encipher, PackSocketAddr;
    var header := PackSocketAddr(from, port);
    var data := ServerPreEncrypt(p, protoKey, header + payload);
    EncipherTwice(p, cipher.NewStream(p, masterKey, iv), data);
    assert data[..|data| - 4] == header + payload;
    assert data[|header|..|data| - 4] == payload;
    ParseUndoesPack(utf8, from, port, payload);
  }

  /** What becomes of a deciphered datagram, byte by byte and error by error. */
  lemma DatagramVerdict(p: Primitives, masterKey: Bytes, users: map<nat, Bytes>, isMultiUser: int, iv: Bytes,
                        buf: Bytes)
    ensures var n := |buf|;
      ServerPostDecrypt(p, masterKey, users, isMultiUser, iv, buf)
      == if n < 8 then Failure(TooShort)
         else
           var uid: nat := buf[n - 8] as nat + 0x100 * buf[n - 7] as nat + 0x1_0000 * buf[n - 6] as nat
                           + 0x100_0000 * buf[n - 5] as nat;
           var key := if uid in users then users[uid] else if isMultiUser == 0 then masterKey else iv;
           if p.hmacMd5(key, buf[..n - 4])[..4] != buf[n - 4..] then Failure(MacMismatch)
           else Success(Datagram(buf[..n - 8], if uid in users then Some(uid) else None))
  {
  }

  /** A response is signed as a whole, under the key it is given. */
  lemma ResponseWrittenOut(p: Primitives, protoKey: Bytes, buf: Bytes)
    ensures ServerPreEncrypt(p, protoKey, buf) == buf + p.hmacMd5(protoKey, buf)[..4]
  {
  }
}
