/** Per-user policy (`src/policy.rs`): CIDR blocks, port ranges and the limits of one user. */
module Policy {
  import opened Bytes

  /** An address as one big-endian integer. */
  datatype IpNumber = Ipv4(bits: nat) | Ipv6(bits: nat) {
    function Width(): nat { if Ipv4? then 32 else 128 }

    predicate Valid() { bits < Pow2(Width()) }
  }

  datatype Cidr = Cidr(base: IpNumber, prefix: nat) {
    predicate Valid() { base.Valid() && prefix <= base.Width() }

    predicate Contains(ip: IpNumber)
      requires Valid() && ip.Valid()
    {
      match (base, ip)
      case (Ipv4(base), Ipv4(ip)) => InBlock(base, ip, prefix, 32)
      case (Ipv6(base), Ipv6(ip)) => InBlock(base, ip, prefix, 128)
      case (Ipv4(base), Ipv6(ip)) => IsMapped(ip) && InBlock(base, Unmapped(ip), prefix, 32)
      case (Ipv6(base), Ipv4(ip)) => InBlock(base, Mapped(ip), prefix, 128)
    }
  }

  /** `MAX << shift` in a word of `width` bits. */
  function Mask(shift: nat, width: nat): (m: nat)
    ensures m < Pow2(width)
  {
    (Pow2(width) - 1) * Pow2(shift) % Pow2(width)
  }

  /** `v4_in` and `v6_in`. A prefix of 0 is a case of its own: the shift would be too wide. */
  predicate InBlock(base: nat, ip: nat, prefix: nat, width: nat)
    requires prefix <= width
  {
    prefix == 0 ||
    AndBits(base, Mask(width - prefix, width), width) == AndBits(ip, Mask(width - prefix, width), width)
  }

  /** The IPv4-mapped form of section 2.5.5.2 of RFC 4291: `::ffff:a.b.c.d`. */
  function Mapped(v4: nat): nat { 0xFFFF * Pow2(32) + v4 }

  predicate IsMapped(v6: nat) { v6 / Pow2(32) == 0xFFFF }

  function Unmapped(v6: nat): nat { v6 % Pow2(32) }

  // ---- what the mask does ----

  lemma {:induction false} Pow2Adds(m: nat, n: nat)
    ensures Pow2(m + n) == Pow2(m) * Pow2(n)
  {
    hide Pow2;
    if m == 0 {
      Pow2Zero();
    } else {
      Pow2Adds(m - 1, n);
      Pow2Unfold(m);
      Pow2Unfold(m + n);
      assert 2 * (Pow2(m - 1) * Pow2(n)) == (2 * Pow2(m - 1)) * Pow2(n);
    }
  }

  lemma Pow2Monotone(m: nat, n: nat)
    requires m <= n
    ensures Pow2(m) <= Pow2(n)
  {
    Pow2Adds(m, n - m);
    MultipleAtLeastOne(Pow2(n - m), Pow2(m));
  }

  lemma MultipleAtLeastOne(k: nat, m: nat)
    requires k > 0
    ensures m <= m * k
  {
    if k > 1 {
      MultiplesApart(1, k, m);
    }
  }

  lemma ShiftedOnes(w: nat, s: nat)
    requires 0 < s <= w
    ensures (w - 1) * s % w == w - s
  {
    assert (w - 1) * s == w * s - s;
    assert (s - 1) * w == w * s - w;
    ModuloUnique((w - 1) * s, w, s - 1, w - s);
  }

  lemma MaskValue(shift: nat, width: nat)
    requires shift <= width
    ensures Pow2(shift) <= Pow2(width)
    ensures Mask(shift, width) == Pow2(width) - Pow2(shift)
  {
    Pow2Monotone(shift, width);
    hide Pow2;
    ShiftedOnes(Pow2(width), Pow2(shift));
  }

  lemma AndBitsEven(a: nat, half: nat, width: nat)
    requires width > 0
    ensures AndBits(a, 2 * half, width) == 2 * AndBits(a / 2, half, width - 1)
  {
    AndBitsUnfold(a, 2 * half, width);
    hide AndBits;
  }

  /** The mask clears the low bits and keeps the others. */
  lemma {:induction false} MaskClearsLowBits(a: nat, shift: nat, width: nat)
    requires shift <= width && a < Pow2(width)
    ensures Pow2(shift) <= Pow2(width)
    ensures AndBits(a, Pow2(width) - Pow2(shift), width) == a - a % Pow2(shift)
    decreases shift
  {
    hide AndBits, Pow2;
    Pow2Monotone(shift, width);
    if shift == 0 {
      AndBitsOfOnes(a, width);
      ModuloUnique(a, Pow2(width), 0, a);
      ModuloUnique(a, 1, a, 0);
      assert Pow2(shift) == 1 by { Pow2Zero(); }
    } else {
      Pow2Unfold(shift);
      Pow2Unfold(width);
      var half := Pow2(width - 1) - Pow2(shift - 1);
      MaskClearsLowBits(a / 2, shift - 1, width - 1);
      HalfModulo(a, Pow2(shift - 1));
      AndBitsEven(a, half, width);
      assert 2 * half == Pow2(width) - Pow2(shift);
    }
  }

  /** Masked equality is equality of the top `prefix` bits, as integers. */
  lemma InBlockIsTopBits(base: nat, ip: nat, prefix: nat, width: nat)
    requires prefix <= width && base < Pow2(width) && ip < Pow2(width)
    ensures InBlock(base, ip, prefix, width) <==> base / Pow2(width - prefix) == ip / Pow2(width - prefix)
  {
    hide AndBits, Pow2, Mask;
    var size := Pow2(width - prefix);
    if prefix == 0 {
      ModuloUnique(base, size, 0, base);
      ModuloUnique(ip, size, 0, ip);
    } else {
      MaskValue(width - prefix, width);
      MaskClearsLowBits(base, width - prefix, width);
      MaskClearsLowBits(ip, width - prefix, width);
      SameQuotient(base, ip, size);
    }
  }

  /** A block is one aligned interval of 2^(width - prefix) addresses. */
  lemma InBlockIsInterval(base: nat, ip: nat, prefix: nat, width: nat)
    requires prefix <= width && base < Pow2(width) && ip < Pow2(width)
    ensures var size := Pow2(width - prefix);
      var lo := base / size * size;
      InBlock(base, ip, prefix, width) <==> lo <= ip < lo + size
  {
    hide Pow2, InBlock;
    InBlockIsTopBits(base, ip, prefix, width);
    QuotientInterval(ip, base / Pow2(width - prefix), Pow2(width - prefix));
  }

  // ---- mapped addresses ----

  lemma MappedIsValid(v4: nat)
    requires v4 < Pow2(32)
    ensures Mapped(v4) < Pow2(128)
    ensures IsMapped(Mapped(v4)) && Unmapped(Mapped(v4)) == v4
  {
    Pow2Adds(96, 32);
    Pow2Monotone(16, 96);
    assert Pow2(8) == 256;
    Pow2Adds(8, 8);
    hide Pow2;
    MultiplesApart(0xFFFF, Pow2(96), Pow2(32));
    ModuloUnique(Mapped(v4), Pow2(32), 0xFFFF, v4);
  }

  /** The top bits of a mapped address: 0xFFFF, then the top bits of the IPv4 address. */
  lemma MappedTopBits(v4: nat, prefix: nat)
    requires v4 < Pow2(32) && prefix <= 32
    ensures Mapped(v4) / Pow2(32 - prefix) == 0xFFFF * Pow2(prefix) + v4 / Pow2(32 - prefix)
  {
    hide Pow2;
    Pow2Adds(prefix, 32 - prefix);
    QuotientOfSum(0xFFFF, Pow2(prefix), Pow2(32 - prefix), v4);
  }

  lemma QuotientOfSum(k: nat, p: nat, m: nat, v: nat)
    requires m > 0
    ensures (k * (p * m) + v) / m == k * p + v / m
  {
    var q := v / m;
    assert v == q * m + v % m;
    assert k * (p * m) == k * p * m;
    assert (k * p + q) * m == k * p * m + q * m;
    ModuloUnique(k * (p * m) + v, m, k * p + q, v % m);
  }

  /** A rule on IPv4 addresses treats an address and its mapped form alike. */
  lemma V4RuleOnMappedAddress(c: Cidr, v4: nat)
    requires c.Valid() && c.base.Ipv4? && Ipv4(v4).Valid()
    ensures Ipv6(Mapped(v4)).Valid()
    ensures c.Contains(Ipv6(Mapped(v4))) <==> c.Contains(Ipv4(v4))
  {
    MappedIsValid(v4);
  }

  /** A mapped rule of prefix 96 + p is the IPv4 rule of prefix p, on either form. */
  lemma MappedRuleIsV4Rule(base: nat, prefix: nat, v4: nat)
    requires Cidr(Ipv4(base), prefix).Valid() && Ipv4(v4).Valid()
    ensures Cidr(Ipv6(Mapped(base)), 96 + prefix).Valid() && Ipv6(Mapped(v4)).Valid()
    ensures
      var rule, mapped := Cidr(Ipv4(base), prefix), Cidr(Ipv6(Mapped(base)), 96 + prefix);
      && (mapped.Contains(Ipv4(v4)) <==> rule.Contains(Ipv4(v4)))
      && (mapped.Contains(Ipv6(Mapped(v4))) <==> rule.Contains(Ipv4(v4)))
  {
    hide InBlock, Pow2, Mapped;
    MappedIsValid(base);
    MappedIsValid(v4);
    InBlockIsTopBits(base, v4, prefix, 32);
    InBlockIsTopBits(Mapped(base), Mapped(v4), 96 + prefix, 128);
    MappedTopBits(base, prefix);
    MappedTopBits(v4, prefix);
  }

  // ---- one user's limits ----

  datatype PortRange = PortRange(start: u16, end: u16) {
    predicate Contains(port: u16) { start <= port <= end }
  }

  datatype UserPolicy = UserPolicy(speedLimitBps: nat, connLimit: u32, forbiddenIps: seq<Cidr>,
                                   forbiddenPorts: seq<PortRange>) {
    /** Speed is left out: it is enforced through the shared limiter, not the policy table. */
    predicate NeedsConnectionPolicy() {
      connLimit > 0 || forbiddenIps != [] || forbiddenPorts != []
    }
  }

  /** The mapped form in hexadecimal, and the addresses that have one. */
  lemma MappedWrittenOut(v4: nat, v6: nat)
    ensures Mapped(v4) == 0xFFFF_0000_0000 + v4
    ensures IsMapped(v6) <==> 0xFFFF_0000_0000 <= v6 <= 0xFFFF_FFFF_FFFF
    ensures IsMapped(v6) ==> Unmapped(v6) == v6 - 0xFFFF_0000_0000
  {
    Pow2ThirtyTwo();
    hide Pow2;
    QuotientInterval(v6, 0xFFFF, 0x1_0000_0000);
    if IsMapped(v6) {
      ModuloUnique(v6, 0x1_0000_0000, 0xFFFF, v6 - 0xFFFF_0000_0000);
    }
  }

  lemma Pow2ThirtyTwo()
    ensures Pow2(32) == 0x1_0000_0000
  {
    Pow2Eight();
    Pow2Adds(8, 8);
    Pow2Adds(16, 16);
    hide Pow2;
  }

  /** An IPv4 rule holds of an IPv6 address if and only if that is the mapped form of an address it
      holds of. */
  lemma V4RuleOnV6Address(c: Cidr, v6: nat)
    requires c.Valid() && c.base.Ipv4? && Ipv6(v6).Valid()
    ensures c.Contains(Ipv6(v6)) <==> exists v4: nat :: Ipv4(v4).Valid() && v6 == Mapped(v4) && c.Contains(Ipv4(v4))
  {
    Pow2ThirtyTwo();
    hide Pow2, InBlock, Mapped, IsMapped, Unmapped;
    MappedWrittenOut(0, v6);
    if IsMapped(v6) {
      MappedWrittenOut(Unmapped(v6), v6);
      assert Ipv4(Unmapped(v6)).Valid();
    }
    forall v4: nat | Ipv4(v4).Valid() && v6 == Mapped(v4) ensures IsMapped(v6) && Unmapped(v6) == v4 {
      MappedWrittenOut(v4, v6);
    }
  }

  /** An IPv6 rule answers for an IPv4 address as it does for its mapped form. */
  lemma V6RuleOnV4Address(c: Cidr, v4: nat)
    requires c.Valid() && c.base.Ipv6? && Ipv4(v4).Valid()
    ensures Ipv6(0xFFFF_0000_0000 + v4).Valid()
    ensures c.Contains(Ipv4(v4)) <==> c.Contains(Ipv6(0xFFFF_0000_0000 + v4))
  {
    MappedIsValid(v4);
    MappedWrittenOut(v4, 0);
    hide InBlock, Pow2, Mapped;
  }

  /** A range covers both of its ends, all between them, and nothing else. */
  lemma RangeIsInclusive(r: PortRange, port: u16)
    ensures r.Contains(port) <==> r.start <= port && port <= r.end
    ensures r.start <= r.end ==> r.Contains(r.start) && r.Contains(r.end)
  {
  }

  /** A user needs a policy entry if and only if something other than the speed is limited. */
  lemma PolicyEntryNeeded(u: UserPolicy)
    ensures u.NeedsConnectionPolicy() <==> u != UserPolicy(u.speedLimitBps, 0, [], [])
  {
  }
}
