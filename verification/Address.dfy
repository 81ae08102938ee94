/** Target-address headers (`src/ssr/address.rs`), the address forms of sections 4 and 5 of
    RFC 1928: type, address, big-endian port.
 */
module SocksAddress {
  import opened Bytes

  const ATYP_IPV4: byte := 1
  const ATYP_DOMAIN: byte := 3
  const ATYP_IPV6: byte := 4

  datatype Host = V4(octets: Bytes) | Domain(name: Bytes) | V6(octets: Bytes)

  datatype Address = Address(host: Host, port: u16)

  datatype Parsed = Parsed(address: Address, consumed: nat)

  datatype AddressError = NonUtf8Domain | UnsupportedType(atyp: byte)

  /** Whether a domain's bytes are UTF-8. */
  type Utf8 = Bytes -> bool

  /** `b & !0x08`: without the SSR connect-type flag. */
  function AddressType(b: byte): byte {
    Pow2Eight();
    AndBits(b, 0xF7, 8)
  }

  /** The address at the front of `buf`, or `None` while it is incomplete. */
  function Parse(utf8: Utf8, buf: Bytes): Result<Option<Parsed>, AddressError> {
    if buf == [] then Success(None)
    else
      var atyp := AddressType(buf[0]);
      if atyp == ATYP_IPV4 then
        if |buf| < 7 then Success(None)
        else Success(Some(Parsed(Address(V4(buf[1..5]), U16(buf[6], buf[5])), 7)))
      else if atyp == ATYP_DOMAIN then
        if |buf| < 2 then Success(None)
        else
          var end: nat := 2 + (buf[1] as nat) + 2;
          if |buf| < end then Success(None)
          else if !utf8(buf[2..end - 2]) then Failure(NonUtf8Domain)
          else Success(Some(Parsed(Address(Domain(buf[2..end - 2]), U16(buf[end - 1], buf[end - 2])), end)))
      else if atyp == ATYP_IPV6 then
        if |buf| < 19 then Success(None)
        else Success(Some(Parsed(Address(V6(buf[1..17]), U16(buf[18], buf[17])), 19)))
      else
        Failure(UnsupportedType(atyp))
  }

  /** Only bit 3, the connect-type flag, is masked off. */
  lemma ConnectTypeFlagIgnored(b: byte)
    ensures AddressType(b) == if b / 8 % 2 == 1 then b - 8 else b
  {
    hide AndBits, Pow2;
    var b1 := b / 2;
    var b2 := b1 / 2;
    var b3 := b2 / 2;
    var b4 := b3 / 2;
    NibbleOfOnes(b4);
    AndBitsUnfold(b3, 0x1E, 5);
    AndBitsUnfold(b2, 0x3D, 6);
    AndBitsUnfold(b1, 0x7B, 7);
    AndBitsUnfold(b, 0xF7, 8);
  }

  lemma NibbleOfOnes(a: nat)
    requires a < 16
    ensures AndBits(a, 15, 4) == a
  {
    hide Pow2, AndBits;
    Pow2Zero();
    Pow2Unfold(1);
    Pow2Unfold(2);
    Pow2Unfold(3);
    Pow2Unfold(4);
    AndBitsOfOnes(a, 4);
  }

  /** Prefix stability: a found address, or an error, stays when more bytes arrive. */
  lemma ParseIsPrefixStable(utf8: Utf8, buf: Bytes, more: Bytes)
    requires Parse(utf8, buf) != Success(None)
    ensures Parse(utf8, buf + more) == Parse(utf8, buf)
  {
    hide AddressType;
    var all := buf + more;
    assert all[0] == buf[0];
    if |buf| >= 7 {
      assert all[1..5] == buf[1..5];
    }
    if |buf| >= 19 {
      assert all[1..17] == buf[1..17];
    }
    if |buf| >= 2 {
      var n: nat := buf[1];
      assert |buf| >= 4 + n ==> all[2..2 + n] == buf[2..2 + n];
    }
  }

  /** `None` means no more than that bytes are missing: a whole header has at most 259. */
  lemma IncompleteIsShort(utf8: Utf8, buf: Bytes)
    requires Parse(utf8, buf) == Success(None)
    ensures |buf| < 259
  {
    hide AddressType;
  }

  lemma ConsumedWithinBuffer(utf8: Utf8, buf: Bytes)
    requires Parse(utf8, buf).Success? && Parse(utf8, buf).value.Some?
    ensures 0 < Parse(utf8, buf).value.value.consumed <= |buf|
  {
    hide AddressType;
  }

  // ---- packing a concrete address ----

  datatype IpAddr = Ipv4(octets: Bytes) | Ipv6(octets: Bytes) {
    predicate Valid() { |octets| == if Ipv4? then 4 else 16 }

    function AsHost(): Host { if Ipv4? then V4(octets) else V6(octets) }
  }

  function PackSocketAddr(ip: IpAddr, port: u16): Bytes {
    [if ip.Ipv4? then ATYP_IPV4 else ATYP_IPV6] + ip.octets + BigEndian16(port)
  }

  /** Parsing undoes packing, and consumes the header exactly. */
  lemma ParseUndoesPack(utf8: Utf8, ip: IpAddr, port: u16, payload: Bytes)
    requires ip.Valid()
    ensures var header := PackSocketAddr(ip, port);
      Parse(utf8, header + payload) == Success(Some(Parsed(Address(ip.AsHost(), port), |header|)))
  {
    var header := PackSocketAddr(ip, port);
    ConnectTypeFlagIgnored(header[0]);
    hide AddressType, BigEndian16;
    var n := |header|;
    var wire := BigEndian16(port);
    assert header[n - 2] == wire[0] && header[n - 1] == wire[1];
    assert header[1..n - 2] == ip.octets;
    assert Parse(utf8, header) == Success(Some(Parsed(Address(ip.AsHost(), port), n)));
    ParseIsPrefixStable(utf8, header, payload);
  }

  // ---- the header formats, byte by byte ----

  lemma PackWrittenOut(octets: Bytes, port: u16)
    ensures PackSocketAddr(Ipv4(octets), port) == [1] + octets + [port / 0x100, port % 0x100]
    ensures PackSocketAddr(Ipv6(octets), port) == [4] + octets + [port / 0x100, port % 0x100]
  {
    WordLayout(port);
  }

  /** `header` is `a` on the wire: type 1, 3 or 4, or that plus the flag 8; the address; the port,
      high byte first. A domain has its length in front, and is UTF-8. */
  ghost predicate IsHeader(utf8: Utf8, header: Bytes, a: Address) {
    var n := |header|;
    && n >= 4 && a.port as int == 0x100 * header[n - 2] as int + header[n - 1] as int
    && match a.host
       case V4(octets) => n == 7 && header[0] in {1, 9} && header[1..n - 2] == octets
       case Domain(name) =>
         n == 4 + header[1] as nat && header[0] in {3, 11} && header[2..n - 2] == name && utf8(name)
       case V6(octets) => n == 19 && header[0] in {4, 12} && header[1..n - 2] == octets
  }

  lemma TypesWrittenOut(b: byte)
    ensures AddressType(b) == 1 <==> b in {1, 9}
    ensures AddressType(b) == 3 <==> b in {3, 11}
    ensures AddressType(b) == 4 <==> b in {4, 12}
  {
    ConnectTypeFlagIgnored(b);
    hide AddressType;
  }

  /** An address is found if and only if its header stands at the front, and exactly the header is
      consumed. */
  lemma FoundIsExact(utf8: Utf8, buf: Bytes, p: Parsed)
    ensures Parse(utf8, buf) == Success(Some(p))
       <==> p.consumed <= |buf| && IsHeader(utf8, buf[..p.consumed], p.address)
  {
    if buf != [] {
      TypesWrittenOut(buf[0]);
    }
    hide AddressType;
    if p.consumed <= |buf| {
      var header := buf[..p.consumed];
      if p.consumed >= 4 {
        assert header[1..p.consumed - 2] == buf[1..p.consumed - 2];
        assert header[2..p.consumed - 2] == buf[2..p.consumed - 2];
      }
    }
  }

  /** More bytes are asked for if and only if the type is known and the header is cut short. */
  lemma IncompleteIsExact(utf8: Utf8, buf: Bytes)
    ensures Parse(utf8, buf) == Success(None)
       <==> || buf == []
            || (buf[0] in {1, 9} && |buf| < 7)
            || (buf[0] in {3, 11} && (|buf| < 2 || |buf| < 4 + buf[1] as nat))
            || (buf[0] in {4, 12} && |buf| < 19)
  {
    if buf != [] {
      TypesWrittenOut(buf[0]);
    }
    hide AddressType;
  }

  /** The two errors: an unknown type, reported without the flag, and a whole domain that is not
      UTF-8. */
  lemma RefusedIsExact(utf8: Utf8, buf: Bytes, error: AddressError)
    ensures Parse(utf8, buf) == Failure(error)
       <==> match error
            case UnsupportedType(t) =>
              buf != [] && buf[0] !in {1, 9, 3, 11, 4, 12} && t as int == buf[0] - if buf[0] / 8 % 2 == 1 then 8 else 0
            case NonUtf8Domain =>
              |buf| >= 2 && buf[0] in {3, 11} && |buf| >= 4 + buf[1] as nat && !utf8(buf[2..2 + buf[1] as nat])
  {
    if buf != [] {
      TypesWrittenOut(buf[0]);
      ConnectTypeFlagIgnored(buf[0]);
    }
    hide AddressType;
  }

  /** A domain header parses to its name and port, with or without the flag. */
  lemma DomainParses(utf8: Utf8, t: byte, name: Bytes, port: u16, payload: Bytes)
    requires t in {3, 11} && |name| <= 255
    ensures Parse(utf8, [t, |name|] + name + [port / 0x100, port % 0x100] + payload)
         == if utf8(name) then Success(Some(Parsed(Address(Domain(name), port), 4 + |name|)))
            else Failure(NonUtf8Domain)
  {
    var header: Bytes := [t, |name|] + name + [port / 0x100, port % 0x100];
    var buf := header + payload;
    var n := |header|;
    assert buf[..n] == header && header[2..n - 2] == name && buf[2..2 + |name|] == name;
    hide Parse;
    if utf8(name) {
      FoundIsExact(utf8, buf, Parsed(Address(Domain(name), port), n));
    } else {
      RefusedIsExact(utf8, buf, NonUtf8Domain);
    }
  }
}
