/** Bytes, machine words and the bit operations the data plane uses on them.

    Machine words are integers in their range; every wrapping operation is written out.
 */
module Bytes {
  type byte = x: int | 0 <= x < 0x100
  type u16 = x: int | 0 <= x < 0x1_0000
  type u32 = x: int | 0 <= x < 0x1_0000_0000
  type Bytes = seq<byte>

  /** One MD5 result, one AES block or one AES-128 key. */
  type Digest = d: Bytes | |d| == 16 witness seq(16, (i: nat) => 0 as byte)

  datatype Option<+T> = None | Some(value: T)

  datatype Result<+T, +E> = Success(value: T) | Failure(error: E)

  // ---- wrapping arithmetic ----

  function WrapAdd8(a: byte, b: byte): byte { (a + b) % 0x100 }

  function WrapAdd32(a: u32, n: nat): u32 { (a + n) % 0x1_0000_0000 }

  lemma WrapAdd32Nothing(a: u32)
    ensures WrapAdd32(a, 0) == a
  {
  }

  lemma WrapAdd32Compose(a: u32, m: nat, n: nat)
    ensures WrapAdd32(WrapAdd32(a, m), n) == WrapAdd32(a, m + n)
  {
  }

  /** `usize as u16`: the high bits are dropped. */
  function TruncateToU16(n: nat): u16 { n % 0x1_0000 }

  // ---- little-endian words ----

  function U16(lo: byte, hi: byte): u16 { lo + 0x100 * hi }

  function LittleEndian16(n: u16): (r: Bytes)
    ensures |r| == 2
    ensures U16(r[0], r[1]) == n
  {
    [n % 0x100, n / 0x100]
  }

  function U32(a: byte, b: byte, c: byte, d: byte): u32 {
    a + 0x100 * b + 0x1_0000 * c + 0x100_0000 * d
  }

  function LittleEndian32(n: u32): (r: Bytes)
    ensures |r| == 4
    ensures U32(r[0], r[1], r[2], r[3]) == n
  {
    var high := n / 0x100;
    var higher := high / 0x100;
    [n % 0x100, high % 0x100, higher % 0x100, higher / 0x100]
  }

  /** Big-endian port numbers. */
  function BigEndian16(n: u16): (r: Bytes)
    ensures |r| == 2
    ensures U16(r[1], r[0]) == n
  {
    [n / 0x100, n % 0x100]
  }

  /** The bytes of a word, written out. */
  lemma WordLayout(n: u16)
    ensures LittleEndian16(n) == [n % 0x100, n / 0x100]
    ensures BigEndian16(n) == [n / 0x100, n % 0x100]
  {
  }

  lemma DoubleWordLayout(n: u32)
    ensures LittleEndian32(n) == [n % 0x100, n / 0x100 % 0x100, n / 0x1_0000 % 0x100, n / 0x100_0000]
  {
    var high := n / 0x100;
    var higher := high / 0x100;
    QuotientsCompose(n, 0x100, 0x100);
    QuotientsCompose(n, 0x1_0000, 0x100);
  }

  lemma QuotientsCompose(n: nat, a: nat, b: nat)
    requires a > 0 && b > 0
    ensures a * b > 0 && n / a / b == n / (a * b)
  {
    var q := n / a;
    var r, s := q / b, q % b;
    Parts(n, a);
    Parts(q, b);
    MultiplesApart(0, b, a);
    MultiplesApart(s, b, a);
    Regroup(r, s, a, b);
    ModuloUnique(n, a * b, r, s * a + n % a);
  }

  lemma Parts(n: nat, m: nat)
    requires m > 0
    ensures n == n / m * m + n % m && n % m < m
  {
  }

  lemma Regroup(r: nat, s: nat, a: nat, b: nat)
    ensures (r * b + s) * a == r * (a * b) + s * a
    ensures a * b == b * a
  {
  }

  // ---- bit by bit ----

  function Pow2(n: nat): (r: nat)
    ensures r > 0
  {
    if n == 0 then 1 else 2 * Pow2(n - 1)
  }

  /** Exclusive or of the low `width` bits. */
  function XorBits(a: nat, b: nat, width: nat): (r: nat)
    ensures r < Pow2(width)
  {
    if width == 0 then 0
    else (if a % 2 != b % 2 then 1 else 0) + 2 * XorBits(a / 2, b / 2, width - 1)
  }

  /** Conjunction of the low `width` bits. */
  function AndBits(a: nat, b: nat, width: nat): (r: nat)
    ensures r < Pow2(width)
  {
    if width == 0 then 0
    else (if a % 2 == 1 && b % 2 == 1 then 1 else 0) + 2 * AndBits(a / 2, b / 2, width - 1)
  }

  lemma AndBitsUnfold(a: nat, b: nat, width: nat)
    requires width > 0
    ensures AndBits(a, b, width)
         == (if a % 2 == 1 && b % 2 == 1 then 1 else 0) + 2 * AndBits(a / 2, b / 2, width - 1)
  {
  }

  lemma Pow2Zero()
    ensures Pow2(0) == 1
  {
  }

  lemma Pow2Unfold(n: nat)
    requires n > 0
    ensures Pow2(n) == 2 * Pow2(n - 1)
  {
  }

  /** Conjunction with `width` ones keeps the low `width` bits. */
  lemma {:induction false} AndBitsOfOnes(a: nat, width: nat)
    ensures AndBits(a, Pow2(width) - 1, width) == a % Pow2(width)
  {
    hide AndBits, Pow2;
    if width == 0 {
      Pow2Zero();
      assert AndBits(a, 0, 0) == 0;
    } else {
      var p := Pow2(width - 1);
      Pow2Unfold(width);
      HalfOfOnes(p);
      AndBitsUnfold(a, 2 * p - 1, width);
      AndBitsOfOnes(a / 2, width - 1);
      HalfModulo(a, p);
    }
  }

  lemma HalfOfOnes(p: nat)
    requires p > 0
    ensures (2 * p - 1) % 2 == 1 && (2 * p - 1) / 2 == p - 1
  {
  }

  lemma HalfModulo(a: nat, m: nat)
    requires m > 0
    ensures a % (2 * m) == a % 2 + 2 * (a / 2 % m)
    ensures a / (2 * m) == a / 2 / m
  {
    var h := a / 2;
    var q := h / m;
    assert h == q * m + h % m;
    assert q * (2 * m) == 2 * (q * m);
    ModuloUnique(a, 2 * m, q, a % 2 + 2 * (h % m));
  }

  lemma ModuloUnique(a: nat, m: nat, q: nat, r: nat)
    requires m > 0 && r < m && a == q * m + r
    ensures a / m == q && a % m == r
  {
    var q', r' := a / m, a % m;
    assert a == q' * m + r';
    if q' > q {
      MultiplesApart(q, q', m);
    } else if q' < q {
      MultiplesApart(q', q, m);
    }
  }

  /** Numbers with the same multiple of `m` below them have the same quotient. */
  lemma SameQuotient(a: nat, b: nat, m: nat)
    requires m > 0
    ensures a - a % m == a / m * m
    ensures a - a % m == b - b % m <==> a / m == b / m
  {
  }

  /** The multiples of `m` cut the numbers into aligned intervals. */
  lemma QuotientInterval(a: nat, q: nat, m: nat)
    requires m > 0
    ensures a / m == q <==> q * m <= a < q * m + m
  {
    var p := a / m;
    assert a == p * m + a % m;
    if p < q {
      MultiplesApart(p, q, m);
    } else if q < p {
      MultiplesApart(q, p, m);
    }
  }

  lemma {:induction false} MultiplesApart(a: nat, b: nat, m: nat)
    requires a < b
    ensures a * m + m <= b * m
    decreases b
  {
    if a + 1 < b {
      MultiplesApart(a, b - 1, m);
    }
  }

  lemma Pow2Eight()
    ensures Pow2(8) == 0x100
  {
    assert Pow2(4) == 16;
  }

  /** Each bit of the result is set if and only if the two bits at its place differ. */
  lemma {:induction false} XorBitAt(a: nat, b: nat, width: nat, k: nat)
    requires k < width
    ensures XorBits(a, b, width) / Pow2(k) % 2 == (a / Pow2(k) + b / Pow2(k)) % 2
    decreases width
  {
    hide XorBits, Pow2;
    XorBitsUnfold(a, b, width);
    var rest := XorBits(a / 2, b / 2, width - 1);
    LowBitOff(XorBits(a, b, width), if a % 2 != b % 2 then 1 else 0, rest);
    if k == 0 {
      Pow2Zero();
    } else {
      XorBitAt(a / 2, b / 2, width - 1, k - 1);
      Pow2Unfold(k);
      QuotientsCompose(XorBits(a, b, width), 2, Pow2(k - 1));
      QuotientsCompose(a, 2, Pow2(k - 1));
      QuotientsCompose(b, 2, Pow2(k - 1));
    }
  }

  function Xor(a: byte, b: byte): byte {
    Pow2Eight();
    XorBits(a, b, 8)
  }

  lemma XorBitsUnfold(a: nat, b: nat, width: nat)
    requires width > 0
    ensures XorBits(a, b, width)
         == (if a % 2 != b % 2 then 1 else 0) + 2 * XorBits(a / 2, b / 2, width - 1)
  {
  }

  lemma {:induction false} XorBitsTwice(a: nat, b: nat, width: nat)
    requires a < Pow2(width)
    ensures XorBits(XorBits(a, b, width), b, width) == a
  {
    if width > 0 {
      Pow2Unfold(width);
      XorBitsTwice(a / 2, b / 2, width - 1);
      XorBitsUnfold(a, b, width);
      XorBitsUnfold(XorBits(a, b, width), b, width);
      hide XorBits, Pow2;
      LowBitOff(XorBits(a, b, width), if a % 2 != b % 2 then 1 else 0, XorBits(a / 2, b / 2, width - 1));
    }
  }

  lemma LowBitOff(n: nat, bit: nat, rest: nat)
    requires bit < 2 && n == bit + 2 * rest
    ensures n % 2 == bit && n / 2 == rest
  {
  }

  lemma XorTwice(a: byte, b: byte)
    ensures Xor(Xor(a, b), b) == a
  {
    Pow2Eight();
    XorBitsTwice(a, b, 8);
  }

  // ---- sequences of sequences ----

  function Concat(parts: seq<Bytes>): Bytes {
    if parts == [] then [] else parts[0] + Concat(parts[1..])
  }

  lemma {:induction false} ConcatAppend(a: seq<Bytes>, b: seq<Bytes>)
    ensures Concat(a + b) == Concat(a) + Concat(b)
  {
    if a == [] {
      assert a + b == b;
    } else {
      assert (a + b)[1..] == a[1..] + b;
      ConcatAppend(a[1..], b);
    }
  }

  /** What one read from a socket returns at most. */
  const READ_CHUNK: nat := 16 * 1024
}
