/** The `auth_aes128_md5` server (`src/ssr/protocol.rs`): an incremental parser of one auth
    packet followed by data packets, and the packer of the opposite direction.
 */
module Protocol {
  import opened Bytes
  import opened Crypto

  const UNIT_LEN: nat := 8100
  const MAX_PACKET: nat := 8192

  /** Everything that is fixed when a connection's IV has arrived. */
  datatype Env = Env(
    prim: Primitives,
    masterKey: Bytes,
    recvIv: Bytes,
    users: map<nat, Bytes>,
    isMultiUser: int)
  {
    function HeadKey(): Bytes { recvIv + masterKey }
  }

  datatype Proto = Proto(
    userKey: Bytes,
    aesKey: Digest,
    userId: Option<nat>,
    recvBuf: Bytes,
    hasRecvHeader: bool,
    recvId: u32,
    packId: u32)
  {
    function Feed(more: Bytes): Proto { this.(recvBuf := recvBuf + more) }

    function MacKey(id: u32): Bytes { userKey + LittleEndian32(id) }
  }

  datatype AuthError =
    | CheckHeadMismatch
    | AuthHeaderMismatch
    | BadAuthLength
    | AuthChecksumMismatch
    | AuthPaddingOverrun
    | DataLengthMismatch
    | BadDataLength
    | DataChecksumMismatch
    | DataPaddingOverrun

  /** What the front of the receive buffer allows. */
  datatype StepResult =
    | Wait(state: Proto)
    | Reject(error: AuthError)
    | Emit(state: Proto, payload: Bytes)

  datatype Decoded = Decoded(state: Proto, out: Bytes)

  type Decoding = Result<Decoded, AuthError>

  function Initial(e: Env): Proto {
    Proto(e.masterKey, AesKeyFor(e.prim, e.masterKey), None, [], false, 1, 1)
  }

  // ---- receive ----

  /** Which key checks and decrypts the auth packet of `uid`. */
  function SelectUser(e: Env, p: Proto, uid: nat): Proto {
    if uid in e.users then
      p.(userId := Some(uid), userKey := e.users[uid], aesKey := AesKeyFor(e.prim, e.users[uid]))
    else if e.isMultiUser == 2 then
      p.(userId := None, userKey := e.recvIv, aesKey := AesKeyFor(e.prim, e.recvIv))
    else
      p
  }

  /** The auth packet once its sender is known. */
  function AuthStep(e: Env, q: Proto): (r: StepResult)
    requires |q.recvBuf| >= 31
    ensures r.Emit? ==> r.state.hasRecvHeader && |r.state.recvBuf| < |q.recvBuf|
    ensures r.Wait? ==> r.state == q
  {
    var buf := q.recvBuf;
    var head := e.prim.aesDecrypt(q.aesKey, buf[11..27]);
    var length := U16(head[12], head[13]);
    if !(31 <= length < MAX_PACKET) then Reject(BadAuthLength)
    else if |buf| < length then Wait(q)
    else if e.prim.Mac(q.userKey, buf[..length - 4], 4) != buf[length - 4..length] then Reject(AuthChecksumMismatch)
    else
      var payloadStart: nat := 31 + U16(head[14], head[15]);
      if payloadStart > length - 4 then Reject(AuthPaddingOverrun)
      else Emit(q.(recvBuf := buf[length..], hasRecvHeader := true), buf[payloadStart..length - 4])
  }

  function Uid(buf: Bytes): u32
    requires |buf| >= 31
  {
    U32(buf[7], buf[8], buf[9], buf[10])
  }

  function HeaderStep(e: Env, p: Proto): (r: StepResult)
    requires !p.hasRecvHeader
    ensures r.Emit? ==> r.state.hasRecvHeader && |r.state.recvBuf| < |p.recvBuf|
    ensures r.Wait? ==> r.state.recvBuf == p.recvBuf
  {
    var buf := p.recvBuf;
    if |buf| >= 7 && e.prim.Mac(e.HeadKey(), buf[..1], 6) != buf[1..7] then Reject(CheckHeadMismatch)
    else if |buf| < 31 then Wait(p)
    else if e.prim.Mac(e.HeadKey(), buf[7..27], 4) != buf[27..31] then Reject(AuthHeaderMismatch)
    else AuthStep(e, SelectUser(e, p, Uid(buf)))
  }

  function DataStep(e: Env, p: Proto): (r: StepResult)
    requires p.hasRecvHeader
    ensures |p.recvBuf| <= 4 ==> r == Wait(p)
    ensures r.Emit? ==> r.state.hasRecvHeader && |r.state.recvBuf| < |p.recvBuf|
    ensures r.Wait? ==> r.state == p
  {
    var buf := p.recvBuf;
    var macKey := p.MacKey(p.recvId);
    if |buf| <= 4 then Wait(p)
    else if e.prim.Mac(macKey, buf[..2], 2) != buf[2..4] then Reject(DataLengthMismatch)
    else
      var length := U16(buf[0], buf[1]);
      if !(7 <= length < MAX_PACKET) then Reject(BadDataLength)
      else if length > |buf| then Wait(p)
      else if e.prim.Mac(macKey, buf[..length - 4], 4) != buf[length - 4..length] then Reject(DataChecksumMismatch)
      else
        var pos := (if buf[4] < 255 then buf[4] else U16(buf[5], buf[6])) + 4;
        if pos > length - 4 then Reject(DataPaddingOverrun)
        else Emit(p.(recvBuf := buf[length..], recvId := WrapAdd32(p.recvId, 1)), buf[pos..length - 4])
  }

  /** One packet off the front of the buffer. */
  function Step(e: Env, p: Proto): (r: StepResult)
    ensures r.Emit? ==> |r.state.recvBuf| < |p.recvBuf|
    ensures r.Wait? ==> r.state.recvBuf == p.recvBuf
  {
    if p.hasRecvHeader then DataStep(e, p) else HeaderStep(e, p)
  }

  function Prepend(out: Bytes, d: Decoding): Decoding {
    match d
    case Success(x) => Success(Decoded(x.state, out + x.out))
    case Failure(_) => d
  }

  /** Packets until the buffer holds no whole one. */
  function Drain(e: Env, p: Proto): Decoding
    decreases |p.recvBuf|
  {
    match Step(e, p)
    case Wait(q) => Success(Decoded(q, []))
    case Reject(error) => Failure(error)
    case Emit(q, payload) => Prepend(payload, Drain(e, q))
  }

  function PostDecrypt(e: Env, p: Proto, incoming: Bytes): Decoding {
    Drain(e, p.Feed(incoming))
  }

  // ---- send ----

  /** Padding in front of a data packet's payload: a 1-byte length marker, or the marker 255
      and a 16-bit length. */
  datatype Padding = Short(noise: Bytes) | Long(noise: Bytes) {
    predicate Valid() {
      Short? ==> |noise| <= 253
    }

    function Wire(): (r: Bytes)
      requires Valid()
      ensures |r| > 0
    {
      match this
      case Short(noise) => [|noise| + 1] + noise
      case Long(noise) => [255] + LittleEndian16(TruncateToU16(|noise| + 3)) + noise
    }
  }

  /** What one data packet carries. */
  datatype Plain = Plain(padding: Padding, payload: Bytes) {
    /** Padding and payload fit one packet; a longer packet is refused by the receiver. */
    predicate Fits() {
      padding.Valid() && |padding.Wire()| + |payload| + 8 < MAX_PACKET
    }
  }

  /** Length, its MAC, the data and a MAC over all of it, keyed by `userKey || id`. */
  function Seal(p: Primitives, userKey: Bytes, id: u32, data: Bytes): Bytes {
    var macKey := userKey + LittleEndian32(id);
    var lenBytes := LittleEndian16(TruncateToU16(|data| + 8));
    var packet := lenBytes + p.Mac(macKey, lenBytes, 2) + data;
    packet + p.Mac(macKey, packet, 4)
  }

  function DataPacket(p: Primitives, userKey: Bytes, id: u32, plain: Plain): Bytes
    requires plain.padding.Valid()
  {
    Seal(p, userKey, id, plain.padding.Wire() + plain.payload)
  }

  predicate AllFit(plains: seq<Plain>) {
    forall i :: 0 <= i < |plains| ==> plains[i].Fits()
  }

  /** Consecutive data packets, numbered from `id`. */
  function DataPackets(p: Primitives, userKey: Bytes, id: u32, plains: seq<Plain>): Bytes
    requires AllFit(plains)
    decreases |plains|
  {
    if plains == [] then []
    else DataPacket(p, userKey, id, plains[0]) + DataPackets(p, userKey, WrapAdd32(id, 1), plains[1..])
  }

  /** The server's packets for one plaintext: full units, then whatever is left, which may be
      empty; all with the minimal 1-byte padding. */
  function Units(plaintext: Bytes): (r: seq<Plain>)
    ensures |r| > 0 && AllFit(r)
    ensures forall i :: 0 <= i < |r| ==> r[i].padding == Short([]) && |r[i].payload| <= UNIT_LEN
  {
    if |plaintext| > UNIT_LEN then [Plain(Short([]), plaintext[..UNIT_LEN])] + Units(plaintext[UNIT_LEN..])
    else [Plain(Short([]), plaintext)]
  }

  function PreEncrypt(p: Primitives, s: Proto, plaintext: Bytes): (Proto, Bytes) {
    var units := Units(plaintext);
    (s.(packId := WrapAdd32(s.packId, |units|)), DataPackets(p, s.userKey, s.packId, units))
  }

  /** `r` and `after` are what taking the step `step` returns and leaves. */
  ghost predicate Took(step: StepResult, r: Result<Option<Bytes>, AuthError>, after: Proto) {
    match step
    case Wait(q) => r == Success(None) && after == q
    case Reject(error) => r == Failure(error)
    case Emit(q, payload) => r == Success(Some(payload)) && after == q
  }

  // ---- in place ----

  class AuthAes128Md5 {
    const prim: Primitives
    const masterKey: Bytes
    const recvIv: Bytes
    const users: map<nat, Bytes>
    const isMultiUser: int
    var userKey: Bytes
    var userId: Option<nat>
    var aesKey: Digest
    var recvBuf: Bytes
    var hasRecvHeader: bool
    var recvId: u32
    var packId: u32

    ghost function Environment(): Env { Env(prim, masterKey, recvIv, users, isMultiUser) }

    ghost function State(): Proto
      reads this
    {
      Proto(userKey, aesKey, userId, recvBuf, hasRecvHeader, recvId, packId)
    }

    constructor (prim: Primitives, masterKey: Bytes, recvIv: Bytes, users: map<nat, Bytes>, isMultiUser: int)
      ensures Environment() == Env(prim, masterKey, recvIv, users, isMultiUser)
      ensures State() == Initial(Environment())
    {
      this.prim, this.masterKey, this.recvIv := prim, masterKey, recvIv;
      this.users, this.isMultiUser := users, isMultiUser;
      userKey, userId := masterKey, None;
      recvBuf, hasRecvHeader, recvId, packId := [], false, 1, 1;
      var key := EvpBytesToKey(prim, prim.base64(masterKey) + SALT, 16);
      aesKey := key;
    }

    method RebuildAesKey()
      modifies this`aesKey
      ensures aesKey == AesKeyFor(prim, userKey)
    {
      var key := EvpBytesToKey(prim, prim.base64(userKey) + SALT, 16);
      aesKey := key;
    }

    /** The auth packet, once it is whole; `None` when more bytes are needed. */
    method ReadAuthPacket() returns (r: Result<Option<Bytes>, AuthError>)
      requires !hasRecvHeader
      modifies this
      ensures Took(HeaderStep(Environment(), old(State())), r, State())
    {
      hide AuthStep;
      var macKey := recvIv + masterKey;
      if |recvBuf| >= 7 {
        var chk := prim.Mac(macKey, recvBuf[..1], 6);
        if chk != recvBuf[1..7] {
          return Failure(CheckHeadMismatch);
        }
      }
      if |recvBuf| < 31 {
        return Success(None);
      }
      var authHmac := prim.Mac(macKey, recvBuf[7..27], 4);
      if authHmac != recvBuf[27..31] {
        return Failure(AuthHeaderMismatch);
      }
      var uid := U32(recvBuf[7], recvBuf[8], recvBuf[9], recvBuf[10]);
      if uid in users {
        userId := Some(uid);
        userKey := users[uid];
        RebuildAesKey();
      } else if isMultiUser == 2 {
        userId := None;
        userKey := recvIv;
        RebuildAesKey();
      }
      assert State() == SelectUser(Environment(), old(State()), uid);
      r := ReadAuthBody();
    }

    /** The rest of the auth packet, when its sender's key is in place. */
    method ReadAuthBody() returns (r: Result<Option<Bytes>, AuthError>)
      requires |recvBuf| >= 31
      modifies this
      ensures Took(AuthStep(Environment(), old(State())), r, State())
    {
      var head := prim.aesDecrypt(aesKey, recvBuf[11..27]);
      var length := U16(head[12], head[13]);
      if !(31 <= length < MAX_PACKET) {
        return Failure(BadAuthLength);
      }
      if |recvBuf| < length {
        return Success(None);
      }
      var rndLen: nat := U16(head[14], head[15]);
      var checksum := prim.Mac(userKey, recvBuf[..length - 4], 4);
      if checksum != recvBuf[length - 4..length] {
        return Failure(AuthChecksumMismatch);
      }
      var payloadStart := 31 + rndLen;
      if payloadStart > length - 4 {
        return Failure(AuthPaddingOverrun);
      }
      var payload := recvBuf[payloadStart..length - 4];
      recvBuf := recvBuf[length..];
      hasRecvHeader := true;
      return Success(Some(payload));
    }

    /** The data packet at the front, once it is whole; `None` when more bytes are needed. */
    method ReadDataPacket() returns (r: Result<Option<Bytes>, AuthError>)
      requires hasRecvHeader && |recvBuf| > 4
      modifies this
      ensures Took(DataStep(Environment(), old(State())), r, State())
    {
      var macKey := userKey + LittleEndian32(recvId);
      var mac := prim.Mac(macKey, recvBuf[..2], 2);
      if mac != recvBuf[2..4] {
        return Failure(DataLengthMismatch);
      }
      var length := U16(recvBuf[0], recvBuf[1]);
      if !(7 <= length < MAX_PACKET) {
        return Failure(BadDataLength);
      }
      if length > |recvBuf| {
        return Success(None);
      }
      var checksum := prim.Mac(macKey, recvBuf[..length - 4], 4);
      if checksum != recvBuf[length - 4..length] {
        return Failure(DataChecksumMismatch);
      }
      recvId := WrapAdd32(recvId, 1);
      var posMarker := recvBuf[4];
      var pos := (if posMarker < 255 then posMarker else U16(recvBuf[5], recvBuf[6])) + 4;
      if pos > length - 4 {
        return Failure(DataPaddingOverrun);
      }
      var payload := recvBuf[pos..length - 4];
      recvBuf := recvBuf[length..];
      return Success(Some(payload));
    }

    /** Feeds deciphered bytes in, takes payload out. After an error the connection is dropped. */
    method ServerPostDecrypt(incoming: Bytes) returns (r: Result<Bytes, AuthError>)
      modifies this
      ensures match PostDecrypt(Environment(), old(State()), incoming)
              case Success(d) => r == Success(d.out) && State() == d.state
              case Failure(error) => r == Failure(error)
    {
      hide HeaderStep, DataStep;
      recvBuf := recvBuf + incoming;
      ghost var e, p := Environment(), State();
      var out: Bytes := [];

      if !hasRecvHeader {
        var auth := ReadAuthPacket();
        if auth.Failure? {
          return Failure(auth.error);
        }
        if auth.value == None {
          return Success(out);
        }
        out := auth.value.value;
      } else {
        PrependNothing(Drain(e, p));
      }

      while |recvBuf| > 4
        invariant hasRecvHeader
        invariant Drain(e, p) == Prepend(out, Drain(e, State()))
        decreases |recvBuf|
      {
        ghost var s := State();
        var data := ReadDataPacket();
        if data.Failure? {
          return Failure(data.error);
        }
        if data.value == None {
          break;
        }
        PrependCompose(out, data.value.value, Drain(e, State()));
        out := out + data.value.value;
      }
      assert out + [] == out;
      return Success(out);
    }

    method PackData(buf: Bytes) returns (packet: Bytes)
      modifies this`packId
      ensures packet == DataPacket(prim, userKey, old(packId), Plain(Short([]), buf))
      ensures packId == WrapAdd32(old(packId), 1)
    {
      var data: Bytes := [1];
      data := data + buf;
      var dataLen := TruncateToU16(|data| + 8);
      var macKey := userKey + LittleEndian32(packId);
      var lenBytes := LittleEndian16(dataLen);
      var mac := prim.Mac(macKey, lenBytes, 2);
      packet := lenBytes;
      packet := packet + mac;
      packet := packet + data;
      assert data == Short([]).Wire() + buf;
      var tail := prim.Mac(macKey, packet, 4);
      packet := packet + tail;
      packId := WrapAdd32(packId, 1);
    }

    method ServerPreEncrypt(plaintext: Bytes) returns (out: Bytes)
      modifies this`packId
      ensures (State(), out) == PreEncrypt(prim, old(State()), plaintext)
    {
      hide DataPacket, DataPackets, WrapAdd32;
      out := [];
      var rest := plaintext;
      ghost var n := 0;
      assert packId == WrapAdd32(packId, 0) by { WrapAdd32Nothing(packId); }
      while |rest| > UNIT_LEN
        invariant out + DataPackets(prim, userKey, packId, Units(rest))
               == DataPackets(prim, userKey, old(packId), Units(plaintext))
        invariant n + |Units(rest)| == |Units(plaintext)|
        invariant packId == WrapAdd32(old(packId), n)
      {
        DataPacketsCons(prim, userKey, packId, Plain(Short([]), rest[..UNIT_LEN]), Units(rest[UNIT_LEN..]));
        WrapAdd32Compose(old(packId), n, 1);
        ghost var later := DataPackets(prim, userKey, WrapAdd32(packId, 1), Units(rest[UNIT_LEN..]));
        ghost var sent := out;
        var unit := PackData(rest[..UNIT_LEN]);
        assert sent + (unit + later) == sent + unit + later;
        out := out + unit;
        rest := rest[UNIT_LEN..];
        n := n + 1;
      }
      DataPacketsCons(prim, userKey, packId, Plain(Short([]), rest), []);
      WrapAdd32Compose(old(packId), n, 1);
      var last := PackData(rest);
      assert [Plain(Short([]), rest)] + [] == Units(rest);
      out := out + last;
    }
  }

  lemma DataPacketsCons(p: Primitives, userKey: Bytes, id: u32, first: Plain, rest: seq<Plain>)
    requires first.Fits() && AllFit(rest)
    ensures DataPackets(p, userKey, id, [first] + rest)
         == DataPacket(p, userKey, id, first) + DataPackets(p, userKey, WrapAdd32(id, 1), rest)
    ensures rest == [] ==> DataPackets(p, userKey, id, [first] + rest) == DataPacket(p, userKey, id, first)
  {
    assert ([first] + rest)[1..] == rest;
  }

  lemma PrependNothing(d: Decoding)
    ensures Prepend([], d) == d
  {
    if d.Success? {
      assert [] + d.value.out == d.value.out;
    }
  }

  lemma PrependCompose(a: Bytes, b: Bytes, d: Decoding)
    ensures Prepend(a, Prepend(b, d)) == Prepend(a + b, d)
  {
    if d.Success? {
      assert a + (b + d.value.out) == a + b + d.value.out;
    }
  }
}
