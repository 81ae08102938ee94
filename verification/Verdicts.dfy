/** When a packet is waited for, when it is refused and with which error, and when it is taken
    (`src/ssr/protocol.rs:80-177`): field by field, with every constant and every MAC written out. */
module Verdicts {
  import opened Bytes
  import opened Crypto
  import opened Protocol
  import opened Segmentation
  import opened Session

  // ---- data packets ----

  /** The user's key and the packet's number, low byte first. */
  function CounterKey(userKey: Bytes, id: u32): Bytes {
    userKey + [id % 0x100, id / 0x100 % 0x100, id / 0x1_0000 % 0x100, id / 0x100_0000]
  }

  predicate LengthSealed(prim: Primitives, key: Bytes, buf: Bytes)
    requires |buf| >= 4
  {
    prim.hmacMd5(key, buf[..2])[..2] == buf[2..4]
  }

  predicate Checksummed(prim: Primitives, key: Bytes, buf: Bytes, n: nat)
    requires 4 <= n <= |buf|
  {
    prim.hmacMd5(key, buf[..n - 4])[..4] == buf[n - 4..n]
  }

  /** Where a data packet says its payload starts. */
  function Start(buf: Bytes): nat
    requires |buf| >= 7
  {
    4 + if buf[4] < 255 then buf[4] as nat else buf[5] as nat + 0x100 * buf[6] as nat
  }

  /** What may become of a buffer that holds data packets. */
  ghost predicate DataVerdict(e: Env, p: Proto, r: StepResult) {
    var buf, key := p.recvBuf, CounterKey(p.userKey, p.recvId);
    if |buf| <= 4 then r == Wait(p)
    else
      var n := buf[0] as nat + 0x100 * buf[1] as nat;
      match r
      case Wait(q) => q == p && LengthSealed(e.prim, key, buf) && 7 <= n < 8192 && |buf| < n
      case Reject(DataLengthMismatch) => !LengthSealed(e.prim, key, buf)
      case Reject(BadDataLength) => LengthSealed(e.prim, key, buf) && !(7 <= n < 8192)
      case Reject(DataChecksumMismatch) =>
        LengthSealed(e.prim, key, buf) && 7 <= n < 8192 && n <= |buf| && !Checksummed(e.prim, key, buf, n)
      case Reject(DataPaddingOverrun) =>
        && LengthSealed(e.prim, key, buf) && 7 <= n < 8192 && n <= |buf| && Checksummed(e.prim, key, buf, n)
        && Start(buf) > n - 4
      case Reject(_) => false
      case Emit(q, payload) =>
        && LengthSealed(e.prim, key, buf) && 7 <= n < 8192 && n <= |buf| && Checksummed(e.prim, key, buf, n)
        && Start(buf) <= n - 4 && payload == buf[Start(buf)..n - 4]
        && q == p.(recvBuf := buf[n..], recvId := (p.recvId + 1) % 0x1_0000_0000)
  }

  lemma StepHasDataVerdict(e: Env, p: Proto)
    requires p.hasRecvHeader
    ensures DataVerdict(e, p, Step(e, p))
  {
    MacKeyWrittenOut(p);
    hide LittleEndian32, CounterKey, Proto.MacKey;
  }

  lemma MacKeyWrittenOut(p: Proto)
    ensures p.MacKey(p.recvId) == CounterKey(p.userKey, p.recvId)
  {
    DoubleWordLayout(p.recvId);
    hide LittleEndian32;
  }

  lemma OneDataVerdict(e: Env, p: Proto, a: StepResult, b: StepResult)
    requires DataVerdict(e, p, a) && DataVerdict(e, p, b)
    ensures a == b
  {
    hide LengthSealed, Checksummed, Start, CounterKey;
  }

  lemma DataVerdictIsExact(e: Env, p: Proto, r: StepResult)
    requires p.hasRecvHeader
    ensures Step(e, p) == r <==> DataVerdict(e, p, r)
  {
    hide Step, DataVerdict;
    StepHasDataVerdict(e, p);
    if DataVerdict(e, p, r) {
      OneDataVerdict(e, p, Step(e, p), r);
    }
  }

  // ---- the auth packet ----

  /** The key of an auth packet's sender: the user's own if the table has it, the IV on
      protocol-style single-port nodes, else the key the connection already has. */
  function SenderKey(e: Env, p: Proto, uid: nat): Bytes {
    if uid in e.users then e.users[uid]
    else if e.isMultiUser == 2 then e.recvIv
    else p.userKey
  }

  function SenderId(e: Env, p: Proto, uid: nat): Option<nat> {
    if uid in e.users then Some(uid)
    else if e.isMultiUser == 2 then None
    else p.userId
  }

  function UidAt(buf: Bytes): nat
    requires |buf| >= 31
  {
    buf[7] as nat + 0x100 * buf[8] as nat + 0x1_0000 * buf[9] as nat + 0x100_0000 * buf[10] as nat
  }

  predicate HeadSealed(e: Env, buf: Bytes)
    requires |buf| >= 7
  {
    e.prim.hmacMd5(e.recvIv + e.masterKey, buf[..1])[..6] == buf[1..7]
  }

  predicate HeaderSealed(e: Env, buf: Bytes)
    requires |buf| >= 31
  {
    e.prim.hmacMd5(e.recvIv + e.masterKey, buf[7..27])[..4] == buf[27..31]
  }

  /** The AES block, under the key that salted base64 of the sender's key hashes to. */
  function Block(e: Env, p: Proto): Digest
    requires |p.recvBuf| >= 31
  {
    var key := SenderKey(e, p, UidAt(p.recvBuf));
    e.prim.aesDecrypt(e.prim.md5(e.prim.base64(key) + Ascii("auth_aes128_md5")), p.recvBuf[11..27])
  }

  function Ascii(text: string): Bytes
    requires forall i :: 0 <= i < |text| ==> text[i] as int < 0x100
  {
    seq(|text|, i requires 0 <= i < |text| => text[i] as int)
  }

  /** The state with the sender's keys in place. */
  function Sent(e: Env, p: Proto): Proto
    requires |p.recvBuf| >= 31
  {
    var key := SenderKey(e, p, UidAt(p.recvBuf));
    p.(userKey := key, aesKey := e.prim.md5(e.prim.base64(key) + Ascii("auth_aes128_md5")),
       userId := SenderId(e, p, UidAt(p.recvBuf)))
  }

  /** What may become of a buffer that holds no auth packet yet. */
  ghost predicate AuthVerdict(e: Env, p: Proto, r: StepResult) {
    var buf := p.recvBuf;
    if |buf| >= 7 && !HeadSealed(e, buf) then r == Reject(CheckHeadMismatch)
    else if |buf| < 31 then r == Wait(p)
    else if !HeaderSealed(e, buf) then r == Reject(AuthHeaderMismatch)
    else
      var head, key := Block(e, p), SenderKey(e, p, UidAt(buf));
      var n := head[12] as nat + 0x100 * head[13] as nat;
      var start := 31 + head[14] as nat + 0x100 * head[15] as nat;
      match r
      case Wait(q) => q == Sent(e, p) && 31 <= n < 8192 && |buf| < n
      case Reject(BadAuthLength) => !(31 <= n < 8192)
      case Reject(AuthChecksumMismatch) => 31 <= n < 8192 && n <= |buf| && !Checksummed(e.prim, key, buf, n)
      case Reject(AuthPaddingOverrun) =>
        31 <= n < 8192 && n <= |buf| && Checksummed(e.prim, key, buf, n) && start > n - 4
      case Reject(_) => false
      case Emit(q, payload) =>
        && 31 <= n < 8192 && n <= |buf| && Checksummed(e.prim, key, buf, n)
        && start <= n - 4 && payload == buf[start..n - 4]
        && q == Sent(e, p).(recvBuf := buf[n..], hasRecvHeader := true)
  }

  /** The salt is the protocol's name, and the key one MD5 of it behind the encoded user key. */
  lemma AesKeyWrittenOut(p: Primitives, userKey: Bytes)
    ensures AesKeyFor(p, userKey) == p.md5(p.base64(userKey) + Ascii("auth_aes128_md5"))
  {
    var password := p.base64(userKey) + SALT;
    assert SALT == Ascii("auth_aes128_md5");
    assert [] + password == password;
    assert Blocks(p, [], password, 16) == p.md5(password) + Blocks(p, p.md5(password), password, 0);
  }

  lemma SelectUserWrittenOut(e: Env, p: Proto)
    requires |p.recvBuf| >= 31 && p.aesKey == AesKeyFor(e.prim, p.userKey)
    ensures SelectUser(e, p, Uid(p.recvBuf)) == Sent(e, p)
  {
    AesKeyWrittenOut(e.prim, SenderKey(e, p, UidAt(p.recvBuf)));
    hide AesKeyFor;
  }

  lemma StepHasAuthVerdict(e: Env, p: Proto)
    requires !p.hasRecvHeader && p.aesKey == AesKeyFor(e.prim, p.userKey)
    ensures AuthVerdict(e, p, Step(e, p))
  {
    if |p.recvBuf| >= 31 {
      SelectUserWrittenOut(e, p);
    }
    hide SelectUser, AesKeyFor, Ascii;
  }

  lemma OneAuthVerdict(e: Env, p: Proto, a: StepResult, b: StepResult)
    requires AuthVerdict(e, p, a) && AuthVerdict(e, p, b)
    ensures a == b
  {
    hide HeadSealed, HeaderSealed, Checksummed, Block, SenderKey, Sent;
  }

  lemma AuthVerdictIsExact(e: Env, p: Proto, r: StepResult)
    requires !p.hasRecvHeader && p.aesKey == AesKeyFor(e.prim, p.userKey)
    ensures Step(e, p) == r <==> AuthVerdict(e, p, r)
  {
    hide Step, AuthVerdict;
    StepHasAuthVerdict(e, p);
    if AuthVerdict(e, p, r) {
      OneAuthVerdict(e, p, Step(e, p), r);
    }
  }

  lemma InitialWrittenOut(e: Env)
    ensures Initial(e)
         == Proto(e.masterKey, e.prim.md5(e.prim.base64(e.masterKey) + Ascii("auth_aes128_md5")), None, [], false, 1, 1)
  {
    AesKeyWrittenOut(e.prim, e.masterKey);
  }

  // ---- what may be waiting ----

  /** What a receiver holds back between two calls has passed every check its length allows. */
  ghost predicate Checked(e: Env, p: Proto) {
    var buf := p.recvBuf;
    if p.hasRecvHeader then
      |buf| > 4 ==>
        var n := buf[0] as nat + 0x100 * buf[1] as nat;
        LengthSealed(e.prim, CounterKey(p.userKey, p.recvId), buf) && 7 <= n < 8192 && |buf| < n
    else
      && (|buf| >= 7 ==> HeadSealed(e, buf))
      && (|buf| >= 31 ==>
            var n := Block(e, p)[12] as nat + 0x100 * Block(e, p)[13] as nat;
            HeaderSealed(e, buf) && 31 <= n < 8192 && |buf| < n && p == Sent(e, p))
  }

  lemma QuiescentIsChecked(e: Env, p: Proto)
    requires p.hasRecvHeader || p.aesKey == AesKeyFor(e.prim, p.userKey)
    ensures Quiescent(e, p) <==> Checked(e, p)
  {
    hide Step;
    if p.hasRecvHeader {
      DataVerdictIsExact(e, p, Wait(p));
    } else {
      AuthVerdictIsExact(e, p, Wait(p));
    }
  }

  /** In every state a connection reaches, whatever its client sends and however it is cut: a
      forged head, header or length is never waited on. */
  lemma BufferedIsChecked(ep: Endpoint, chunks: seq<Bytes>)
    requires ep.Valid() && ep.role.Server? && ReceiveAll(ep, AwaitIv([]), chunks).Success?
    ensures var half := ReceiveAll(ep, AwaitIv([]), chunks).value.half;
      half.Opened? ==> Checked(half.env, half.proto)
  {
    AlwaysValid(ep, AwaitIv([]), chunks);
    hide ReceiveAll, Checked, Quiescent;
    var half := ReceiveAll(ep, AwaitIv([]), chunks).value.half;
    if half.Opened? {
      QuiescentIsChecked(half.env, half.proto);
    }
  }
}
