/** Key derivation (`src/ssr/kdf.rs`) over foreign primitives.

    MD5, HMAC-MD5, AES-128, base64 and the ChaCha20 keystream come from other crates. They
    are arbitrary functions with the right result sizes; every theorem holds for all choices
    of them, and none assumes that MACs do not collide.
 */
module Crypto {
  import opened Bytes

  datatype Primitives = Primitives(
    md5: Bytes -> Digest,
    hmacMd5: (Bytes, Bytes) -> Digest,
    aesEncrypt: (Digest, Digest) -> Digest,
    aesDecrypt: (Digest, Digest) -> Digest,
    base64: Bytes -> Bytes,
    chacha20: (Bytes, Bytes, nat) -> byte)
  {
    /** The one law a round trip needs: the block cipher decrypts what it encrypts. */
    ghost predicate AesInverts() {
      forall key: Digest, block: Digest :: aesDecrypt(key, aesEncrypt(key, block)) == block
    }

    /** First `n` bytes of HMAC-MD5. */
    function Mac(key: Bytes, data: Bytes, n: nat): (r: Bytes)
      requires n <= 16
      ensures |r| == n
    {
      hmacMd5(key, data)[..n]
    }
  }

  // ---- EVP_BytesToKey ----

  /** The whole MD5 blocks that follow block `prev`, enough of them to cover `need` bytes:
      `m[i] = MD5(m[i-1] || password)`. */
  function Blocks(p: Primitives, prev: Bytes, password: Bytes, need: int): (r: Bytes)
    ensures |r| >= need
    decreases need
  {
    if need <= 0 then []
    else
      var block := p.md5(prev + password);
      block + Blocks(p, block, password, need - 16)
  }

  function DeriveKey(p: Primitives, password: Bytes, keyLen: nat): Bytes {
    Blocks(p, [], password, keyLen)[..keyLen]
  }

  method EvpBytesToKey(p: Primitives, password: Bytes, keyLen: nat) returns (key: Bytes)
    ensures key == DeriveKey(p, password, keyLen)
    ensures |key| == keyLen
  {
    key := [];
    var prev: Bytes := [];
    while |key| < keyLen
      invariant key + Blocks(p, prev, password, keyLen - |key|) == Blocks(p, [], password, keyLen)
      decreases keyLen - |key|
    {
      prev := p.md5(prev + password);
      key := key + prev;
    }
    assert key + [] == key;
    key := key[..keyLen];
  }

  /** A shorter derivation reads the same blocks as a longer one. */
  lemma {:induction false} BlocksPrefix(p: Primitives, prev: Bytes, password: Bytes, short: int, long: int)
    requires short <= long
    ensures Blocks(p, prev, password, short) <= Blocks(p, prev, password, long)
    decreases long
  {
    if short > 0 {
      BlocksPrefix(p, p.md5(prev + password), password, short - 16, long - 16);
    }
  }

  /** Prefix stability: the 16-byte key is the front of the 32-byte key of the same password. */
  lemma DeriveKeyPrefixStable(p: Primitives, password: Bytes, k1: nat, k2: nat)
    requires k1 <= k2
    ensures DeriveKey(p, password, k1) == DeriveKey(p, password, k2)[..k1]
  {
    BlocksPrefix(p, [], password, k1, k2);
  }

  /** Byte `i` of the derived key is byte `i % 16` of link `i / 16` of the MD5 chain. */
  function ChainLink(p: Primitives, prev: Bytes, password: Bytes, n: nat): Digest
    decreases n
  {
    var block := p.md5(prev + password);
    if n == 0 then block else ChainLink(p, block, password, n - 1)
  }

  lemma {:induction false} BlocksAt(p: Primitives, prev: Bytes, password: Bytes, need: nat, i: nat)
    requires i < need
    ensures Blocks(p, prev, password, need)[i] == ChainLink(p, prev, password, i / 16)[i % 16]
    decreases need
  {
    if i >= 16 {
      BlocksAt(p, p.md5(prev + password), password, need - 16, i - 16);
    }
  }

  lemma DerivedKeyBytes(p: Primitives, password: Bytes, keyLen: nat, i: nat)
    requires i < keyLen
    ensures DeriveKey(p, password, keyLen)[i] == ChainLink(p, [], password, i / 16)[i % 16]
  {
    BlocksAt(p, [], password, keyLen, i);
  }

  /** `base64(user_key) || salt` through the KDF: the key of the auth header's AES block. */
  function AesKeyFor(p: Primitives, userKey: Bytes): Digest {
    DeriveKey(p, p.base64(userKey) + SALT, 16)
  }

  // "auth_aes128_md5" in ASCII
  const SALT: Bytes := [97, 117, 116, 104, 95, 97, 101, 115, 49, 50, 56, 95, 109, 100, 53]
}
