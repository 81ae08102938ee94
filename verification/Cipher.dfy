/** Stream ciphers (`src/ssr/cipher.rs`): RC4 keyed by MD5(key || iv), or ChaCha20. */
module Cipher {
  import opened Bytes
  import opened Crypto
  import opened Rc4Cipher

  datatype CipherKind = Rc4Md5 | Chacha20Ietf {
    function KeyLen(): nat {
      match this
      case Rc4Md5 => 16
      case Chacha20Ietf => 32
    }

    function IvLen(): (n: nat)
      ensures n > 0
    {
      match this
      case Rc4Md5 => 16
      case Chacha20Ietf => 12
    }

    /** The sizes without which building the cipher panics. */
    predicate Fits(masterKey: Bytes, iv: Bytes) {
      Chacha20Ietf? ==> |masterKey| == 32 && |iv| == 12
    }

    /** One direction's stream, before its first byte. */
    function NewStream(p: Primitives, masterKey: Bytes, iv: Bytes): Stream
      requires Fits(masterKey, iv)
    {
      match this
      case Rc4Md5 => Rc4Stream(Keyed(p.md5(masterKey + iv)))
      case Chacha20Ietf => ChaChaStream(masterKey, iv, 0)
    }
  }

  /** Where one direction's continuous keystream stands. */
  datatype Stream = Rc4Stream(st: Rc4State) | ChaChaStream(key: Bytes, nonce: Bytes, pos: nat) {
    /** The keystream byte that is `n` bytes ahead. */
    function KeyByteAhead(p: Primitives, n: nat): byte {
      match this
      case Rc4Stream(st) => KeyByte(AdvanceBy(st, n + 1))
      case ChaChaStream(key, nonce, pos) => p.chacha20(key, nonce, pos + n)
    }

    function Skip(n: nat): Stream {
      match this
      case Rc4Stream(st) => Rc4Stream(AdvanceBy(st, n))
      case ChaChaStream(key, nonce, pos) => ChaChaStream(key, nonce, pos + n)
    }

    /** `data` under the next keystream bytes. */
    function Encipher(p: Primitives, data: Bytes): (r: Bytes)
      ensures |r| == |data|
    {
      seq(|data|, (i: nat) requires i < |data| => Xor(data[i], KeyByteAhead(p, i)))
    }
  }

  lemma {:induction false} AdvanceByCompose(st: Rc4State, m: nat, n: nat)
    ensures AdvanceBy(AdvanceBy(st, m), n) == AdvanceBy(st, m + n)
  {
    hide Advance;
    if n > 0 {
      AdvanceByCompose(st, m, n - 1);
    }
  }

  lemma SkipCompose(s: Stream, m: nat, n: nat)
    ensures s.Skip(m).Skip(n) == s.Skip(m + n)
  {
    if s.Rc4Stream? {
      AdvanceByCompose(s.st, m, n);
    }
  }

  lemma KeyByteAfterSkip(p: Primitives, s: Stream, m: nat, n: nat)
    ensures s.Skip(m).KeyByteAhead(p, n) == s.KeyByteAhead(p, m + n)
  {
    if s.Rc4Stream? {
      AdvanceByCompose(s.st, m, n + 1);
    }
  }

  /** One long call does what two calls on the two halves do. */
  lemma EncipherAppend(p: Primitives, s: Stream, a: Bytes, b: Bytes)
    ensures s.Encipher(p, a + b) == s.Encipher(p, a) + s.Skip(|a|).Encipher(p, b)
  {
    hide Xor, AdvanceBy, KeyByte, Stream.KeyByteAhead, Stream.Skip;
    forall i: nat | i < |b|
      ensures s.Encipher(p, a + b)[|a| + i] == s.Skip(|a|).Encipher(p, b)[i]
    {
      KeyByteAfterSkip(p, s, |a|, i);
    }
    assert forall i :: 0 <= i < |a| ==> s.Encipher(p, a + b)[i] == s.Encipher(p, a)[i];
  }

  /** From equal start states, enciphering twice is the identity. */
  lemma EncipherTwice(p: Primitives, s: Stream, data: Bytes)
    ensures s.Encipher(p, s.Encipher(p, data)) == data
  {
    forall i: nat | i < |data|
      ensures s.Encipher(p, s.Encipher(p, data))[i] == data[i]
    {
      XorTwice(data[i], s.KeyByteAhead(p, i));
    }
  }

  /** One direction of a connection, advanced in place. */
  class StreamCipher {
    const prim: Primitives
    const rc4: Rc4?
    const key: Bytes
    const nonce: Bytes
    var pos: nat

    ghost predicate Valid()
      reads this, Footprint()
    {
      rc4 != null ==> rc4.Valid()
    }

    ghost function Footprint(): set<object> {
      {this} + if rc4 == null then {} else {rc4, rc4.s}
    }

    ghost function State(): Stream
      requires Valid()
      reads this, Footprint()
    {
      if rc4 != null then Rc4Stream(rc4.State()) else ChaChaStream(key, nonce, pos)
    }

    constructor (prim: Primitives, kind: CipherKind, masterKey: Bytes, iv: Bytes)
      requires kind.Fits(masterKey, iv)
      ensures Valid() && fresh(Footprint()) && this.prim == prim
      ensures State() == kind.NewStream(prim, masterKey, iv)
    {
      this.prim := prim;
      key, nonce, pos := masterKey, iv, 0;
      if kind.Rc4Md5? {
        rc4 := new Rc4(prim.md5(masterKey + iv));
      } else {
        rc4 := null;
      }
    }

    method Process(data: array<byte>)
      requires Valid() && data !in Footprint()
      modifies Footprint(), data
      ensures Valid()
      ensures State() == old(State()).Skip(data.Length)
      ensures data[..] == old(State()).Encipher(prim, old(data[..]))
    {
      ghost var was := State();
      if rc4 != null {
        rc4.Apply(data);
      } else {
        for k := 0 to data.Length
          invariant pos == old(pos) + k
          invariant forall m :: 0 <= m < k ==> data[m] == Xor(old(data[m]), was.KeyByteAhead(prim, m))
          invariant forall m :: k <= m < data.Length ==> data[m] == old(data[m])
        {
          data[k] := Xor(data[k], prim.chacha20(key, nonce, pos));
          pos := pos + 1;
        }
      }
    }
  }
}
