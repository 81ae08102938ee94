/** The keystreams on plain sequences of integers (`src/ssr/rc4.rs:19-75`,
    `src/ssr/cipher.rs:44-91`): what RC4 is, and that the generator produces just that. */
module KeyStreams {
  import opened Bytes
  import opened Crypto
  import opened Rc4Cipher
  import opened Cipher

  // ---- RC4, as equations ----

  /** From `s` to `t` the entries at `a` and `b` trade places, and all others stay. */
  ghost predicate Traded(s: seq<int>, t: seq<int>, a: int, b: int) {
    && |s| == |t| == 256 && 0 <= a < 256 && 0 <= b < 256
    && t[a] == s[b] && t[b] == s[a]
    && forall k :: 0 <= k < 256 && k != a && k != b ==> t[k] == s[k]
  }

  /** `boxes` and `js` are 256 rounds over the key, from the identity box. */
  ghost predicate KeyRounds(key: seq<int>, boxes: seq<seq<int>>, js: seq<int>) {
    && |key| > 0 && |boxes| == |js| == 257
    && |boxes[0]| == 256 && (forall k :: 0 <= k < 256 ==> boxes[0][k] == k) && js[0] == 0
    && forall n :: 0 <= n < 256 ==> KeyRound(key, boxes, js, n)
  }

  ghost predicate KeyRound(key: seq<int>, boxes: seq<seq<int>>, js: seq<int>, n: int)
    requires |key| > 0 && |boxes| == |js| == 257 && 0 <= n < 256
  {
    && |boxes[n]| == 256 && js[n + 1] == (js[n] + boxes[n][n] + key[n % |key|]) % 256
    && Traded(boxes[n], boxes[n + 1], n, js[n + 1])
  }

  /** `boxes` and `js` are the rounds that give `stream`, from box `first`. Round `m` visits the
      place after the last, so round 1 visits place 1; `js` adds up the entries visited; the key
      byte is the entry at the sum of the two that traded. */
  ghost predicate Rounds(first: seq<int>, boxes: seq<seq<int>>, js: seq<int>, stream: seq<int>) {
    && |boxes| == |js| == |stream| + 1 && boxes[0] == first && js[0] == 0
    && forall m :: 1 <= m <= |stream| ==> Round(boxes, js, stream, m)
  }

  ghost predicate Round(boxes: seq<seq<int>>, js: seq<int>, stream: seq<int>, m: int)
    requires |boxes| == |js| == |stream| + 1 && 1 <= m <= |stream|
  {
    var i := m % 256;
    && |boxes[m - 1]| == 256 && js[m] == (js[m - 1] + boxes[m - 1][i]) % 256
    && Traded(boxes[m - 1], boxes[m], i, js[m])
    && stream[m - 1] == boxes[m][(boxes[m][i] + boxes[m][js[m]]) % 256]
  }

  /** `stream` is the RC4 keystream of `key`. */
  ghost predicate IsRc4(key: seq<int>, stream: seq<int>) {
    exists keyBoxes, keyJs, boxes, js ::
      KeyRounds(key, keyBoxes, keyJs) && Rounds(keyBoxes[256], boxes, js, stream)
  }

  // ---- at most one stream ----

  lemma SameTrade(s: seq<int>, t: seq<int>, u: seq<int>, a: int, b: int)
    requires Traded(s, t, a, b) && Traded(s, u, a, b)
    ensures t == u
  {
    assert forall k :: 0 <= k < 256 ==> t[k] == u[k];
  }

  lemma {:induction false} SameKeyRounds(key: seq<int>, boxes: seq<seq<int>>, js: seq<int>,
                                         boxes': seq<seq<int>>, js': seq<int>, n: nat)
    requires KeyRounds(key, boxes, js) && KeyRounds(key, boxes', js') && n <= 256
    ensures boxes[n] == boxes'[n] && js[n] == js'[n]
  {
    if n == 0 {
      assert boxes[0] == boxes'[0];
    } else {
      SameKeyRounds(key, boxes, js, boxes', js', n - 1);
      assert KeyRound(key, boxes, js, n - 1) && KeyRound(key, boxes', js', n - 1);
      SameTrade(boxes[n - 1], boxes[n], boxes'[n], n - 1, js[n]);
    }
  }

  lemma {:induction false} SameRounds(first: seq<int>, boxes: seq<seq<int>>, js: seq<int>, stream: seq<int>,
                                      boxes': seq<seq<int>>, js': seq<int>, stream': seq<int>, m: nat)
    requires Rounds(first, boxes, js, stream) && Rounds(first, boxes', js', stream') && m <= |stream| == |stream'|
    ensures boxes[m] == boxes'[m] && js[m] == js'[m]
    ensures m > 0 ==> stream[m - 1] == stream'[m - 1]
  {
    if m > 0 {
      SameRounds(first, boxes, js, stream, boxes', js', stream', m - 1);
      assert Round(boxes, js, stream, m) && Round(boxes', js', stream', m);
      SameTrade(boxes[m - 1], boxes[m], boxes'[m], m % 256, js[m]);
    }
  }

  /** A key has one keystream of each length. */
  lemma Rc4IsUnique(key: seq<int>, a: seq<int>, b: seq<int>)
    requires IsRc4(key, a) && IsRc4(key, b) && |a| == |b|
    ensures a == b
  {
    var keyBoxes, keyJs, boxes, js :| KeyRounds(key, keyBoxes, keyJs) && Rounds(keyBoxes[256], boxes, js, a);
    var keyBoxes', keyJs', boxes', js' :| KeyRounds(key, keyBoxes', keyJs') && Rounds(keyBoxes'[256], boxes', js', b);
    SameKeyRounds(key, keyBoxes, keyJs, keyBoxes', keyJs', 256);
    forall m | 0 <= m < |a| ensures a[m] == b[m] {
      SameRounds(keyBoxes[256], boxes, js, a, boxes', js', b, m + 1);
    }
  }

  // ---- and the generator gives it ----

  /** The first `n` bytes the generator gives for `key`. */
  function Generated(key: Bytes, n: nat): Bytes
    requires |key| > 0
  {
    seq(n, (k: nat) requires k < n => KeyByte(AdvanceBy(Keyed(key), k + 1)))
  }

  lemma SwapTrades(s: Box, a: byte, b: byte)
    ensures Traded(s, Swap(s, a, b), a, b)
  {
  }

  lemma ScheduleIsRound(key: Bytes, n: nat)
    requires |key| > 0 && n < 256
    ensures Schedule(key, n + 1).1 as int
         == (Schedule(key, n).1 as int + Schedule(key, n).0[n] as int + key[n % |key|] as int) % 256
    ensures Traded(Schedule(key, n).0, Schedule(key, n + 1).0, n, Schedule(key, n + 1).1)
  {
    ScheduleUnfold(key, n);
    hide Schedule, Swap, WrapAdd8, Traded;
    var (s, j) := Schedule(key, n);
    var k := key[n % |key|];
    AddThree(j, s[n], k);
    SwapTrades(s, n, WrapAdd8(WrapAdd8(j, s[n]), k));
  }

  lemma ScheduleUnfold(key: Bytes, n: nat)
    requires |key| > 0 && n < 256
    ensures var (s, j) := Schedule(key, n);
      var j' := WrapAdd8(WrapAdd8(j, s[n]), key[n % |key|]);
      Schedule(key, n + 1) == (Swap(s, n, j'), j')
  {
    hide Swap, WrapAdd8;
  }

  lemma AddThree(a: byte, b: byte, c: byte)
    ensures WrapAdd8(WrapAdd8(a, b), c) as int == (a as int + b as int + c as int) % 256
  {
  }

  lemma ScheduleStart(key: Bytes)
    requires |key| > 0
    ensures Schedule(key, 0) == (Identity(), 0)
  {
  }

  lemma ScheduleRounds(key: Bytes) returns (boxes: seq<seq<int>>, js: seq<int>)
    requires |key| > 0
    ensures KeyRounds(key, boxes, js) && boxes[256] == Schedule(key, 256).0
  {
    hide Schedule, Traded;
    boxes := seq(257, (n: nat) requires n < 257 => Schedule(key, n).0);
    js := seq(257, (n: nat) requires n < 257 => Schedule(key, n).1 as int);
    ScheduleStart(key);
    assert boxes[0] == Identity();
    forall n | 0 <= n < 256 ensures KeyRound(key, boxes, js, n) {
      ScheduleIsRound(key, n);
    }
  }

  lemma AdvanceIsRound(st: Rc4State)
    ensures var next := Advance(st);
      && next.i as int == (st.i as int + 1) % 256 && next.j as int == (st.j as int + st.s[next.i] as int) % 256
      && Traded(st.s, next.s, next.i, next.j)
      && KeyByte(next) == next.s[(next.s[next.i] as int + next.s[next.j] as int) % 256]
  {
  }

  lemma AdvanceByUnfold(st: Rc4State, n: nat)
    ensures AdvanceBy(st, 0) == st && AdvanceBy(st, n + 1) == Advance(AdvanceBy(st, n))
  {
    hide Advance;
  }

  lemma {:induction false} Visits(key: Bytes, n: nat)
    requires |key| > 0
    ensures AdvanceBy(Keyed(key), n).i as int == n % 256
  {
    hide Schedule, AdvanceBy, Advance;
    if n == 0 {
      AdvanceByUnfold(Keyed(key), 0);
    } else {
      Visits(key, n - 1);
      AdvanceByUnfold(Keyed(key), n - 1);
      AdvanceIsRound(AdvanceBy(Keyed(key), n - 1));
      NextPlace(n - 1);
    }
  }

  lemma NextPlace(n: nat)
    ensures (n % 256 + 1) % 256 == (n + 1) % 256
  {
  }

  lemma GeneratedIsRc4(key: Bytes, n: nat)
    requires |key| > 0
    ensures IsRc4(key, Generated(key, n))
  {
    hide Schedule, Advance, KeyByte, Swap, Traded;
    var keyBoxes, keyJs := ScheduleRounds(key);
    var boxes: seq<seq<int>> := seq(n + 1, (m: nat) requires m < n + 1 => AdvanceBy(Keyed(key), m).s);
    var js: seq<int> := seq(n + 1, (m: nat) requires m < n + 1 => AdvanceBy(Keyed(key), m).j as int);
    var stream: seq<int> := Generated(key, n);
    forall m | 1 <= m <= n ensures Round(boxes, js, stream, m) {
      Visits(key, m);
      AdvanceIsRound(AdvanceBy(Keyed(key), m - 1));
    }
    assert Rounds(keyBoxes[256], boxes, js, stream);
  }

  // ---- what the ciphers do to data ----

  /** Byte `k` of an rc4-md5 connection's direction meets byte `k` of the one RC4 keystream of
      MD5(master key, then IV). */
  lemma Rc4Md5IsRc4(p: Primitives, masterKey: Bytes, iv: Bytes, data: Bytes, stream: seq<int>)
    requires IsRc4(p.md5(masterKey + iv), stream) && |stream| == |data|
    ensures forall k :: 0 <= k < |data| ==> 0 <= stream[k] < 0x100
    ensures forall k :: 0 <= k < |data| ==>
      Rc4Md5.NewStream(p, masterKey, iv).Encipher(p, data)[k] == Xor(data[k], stream[k])
  {
    var key := p.md5(masterKey + iv);
    hide IsRc4, Keyed, AdvanceBy, KeyByte, Xor;
    GeneratedIsRc4(key, |data|);
    Rc4IsUnique(key, Generated(key, |data|), stream);
  }

  /** Byte `k` of a chacha20-ietf direction meets byte `k` of that cipher's keystream under the
      master key and the IV, from its beginning. */
  lemma ChaChaIsChaCha(p: Primitives, masterKey: Bytes, iv: Bytes, data: Bytes)
    requires |masterKey| == 32 && |iv| == 12
    ensures forall k :: 0 <= k < |data| ==>
      Chacha20Ietf.NewStream(p, masterKey, iv).Encipher(p, data)[k] == Xor(data[k], p.chacha20(masterKey, iv, k))
  {
    hide Xor;
  }

  /** Key and IV sizes of the two ciphers. */
  lemma CipherSizes()
    ensures Rc4Md5.KeyLen() == 16 && Rc4Md5.IvLen() == 16
    ensures Chacha20Ietf.KeyLen() == 32 && Chacha20Ietf.IvLen() == 12
  {
  }

  /** Both keys, as MD5 links. */
  lemma KeysWrittenOut(p: Primitives, password: Bytes)
    ensures DeriveKey(p, password, 16) == p.md5(password)
    ensures DeriveKey(p, password, 32) == p.md5(password) + p.md5(p.md5(password) + password)
  {
    assert [] + password == password;
    var first: Bytes := p.md5(password);
    var second: Bytes := p.md5(first + password);
    assert Blocks(p, second, password, 0) == [] && Blocks(p, first, password, 0) == [];
    assert Blocks(p, first, password, 16) == second;
    assert Blocks(p, [], password, 16) == first;
    assert Blocks(p, [], password, 32) == first + second;
  }

  /** Exclusive or, bit by bit. */
  lemma XorBit(a: byte, b: byte, k: nat)
    requires k < 8
    ensures Xor(a, b) / Pow2(k) % 2 == (a / Pow2(k) + b / Pow2(k)) % 2
  {
    XorBitAt(a, b, 8, k);
  }

  ghost predicate XoredWith(before: Bytes, after: Bytes, stream: seq<int>) {
    && |before| == |after| == |stream|
    && forall k :: 0 <= k < |before| ==> 0 <= stream[k] < 0x100 && after[k] == Xor(before[k], stream[k])
  }

  /** Constructor and `apply`, end to end: a fresh generator XORs the data with its key's RC4
      keystream. */
  method EncryptInPlace(key: Bytes, data: array<byte>)
    requires |key| > 0
    modifies data
    ensures exists stream: seq<int> :: IsRc4(key, stream) && XoredWith(old(data[..]), data[..], stream)
  {
    hide IsRc4, Keyed, AdvanceBy, KeyByte, Xor;
    GeneratedIsRc4(key, data.Length);
    var rc4 := new Rc4(key);
    rc4.Apply(data);
    ghost var stream: seq<int> := Generated(key, data.Length);
    assert IsRc4(key, stream) && XoredWith(old(data[..]), data[..], stream);
  }
}
