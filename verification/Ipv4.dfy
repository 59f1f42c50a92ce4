/** IPv4 addresses, CIDR ranges and their text form (section 3.1 of RFC 4632). */
module Ipv4 {
  import opened Text

  type U8 = x: int | 0 <= x < 0x100
  type U16 = x: int | 0 <= x < 0x1_0000
  type U32 = x: int | 0 <= x < 0x1_0000_0000

  datatype CidrRange = CidrRange(network: U32, prefix: U8)

  function Pow2(n: nat): (r: nat)
    ensures r >= 1
  {
    if n == 0 then 1 else 2 * Pow2(n - 1)
  }

  /** Bitwise conjunction of the low `width` bits. */
  function BitAnd(x: nat, y: nat, width: nat): nat {
    if width == 0 then 0 else
      2 * BitAnd(x / 2, y / 2, width - 1) + (if x % 2 == 1 && y % 2 == 1 then 1 else 0)
  }

  function CidrMask(prefix: U8): U32 {
    if prefix == 0 then 0
    else if prefix >= 32 then 0xffff_ffff
    else (0xffff_ffff * Pow2(32 - prefix)) % 0x1_0000_0000
  }

  function Masked(x: U32, prefix: U8): nat { BitAnd(x, CidrMask(prefix), 32) }

  predicate Contains(r: CidrRange, ip: U32) {
    Masked(ip, r.prefix) == Masked(r.network, r.prefix)
  }

  /** Bit `i` of an address, the most significant one first: `(x >> (31 - i)) & 1`. */
  predicate Bit(x: U32, i: nat)
    requires i < 32
  {
    (x / Pow2(31 - i)) % 2 == 1
  }

  function Bits(x: U32): (r: seq<bool>)
    ensures |r| == 32
  {
    seq(32, i requires 0 <= i < 32 => Bit(x, i))
  }

  /** The leading bits that a range fixes. */
  function PathOf(r: CidrRange): (path: seq<bool>)
    requires r.prefix <= 32
    ensures |path| == r.prefix
  {
    Bits(r.network)[..r.prefix]
  }

  /** What the parser produces: at most 32 fixed bits, and no bit set after them. */
  predicate IsNetwork(r: CidrRange) {
    r.prefix <= 32 && r.network == Masked(r.network, r.prefix)
  }

  lemma Pow2Facts()
    ensures Pow2(8) == 0x100 && Pow2(16) == 0x1_0000 && Pow2(24) == 0x100_0000 && Pow2(32) == 0x1_0000_0000
  {
    assert Pow2(4) == 16;
    Pow2Add(4, 4); Pow2Add(8, 8); Pow2Add(16, 8); Pow2Add(16, 16);
  }

  lemma {:induction false} Pow2Add(a: nat, b: nat)
    ensures Pow2(a + b) == Pow2(a) * Pow2(b)
  {
    if a > 0 {
      Pow2Add(a - 1, b);
      assert Pow2(a + b) == 2 * Pow2(a - 1 + b);
      assert 2 * (Pow2(a - 1) * Pow2(b)) == (2 * Pow2(a - 1)) * Pow2(b);
    }
  }

  lemma MulLe(a: nat, x: int, y: int)
    requires x <= y
    ensures a * x <= a * y
  {}

  lemma QuotientUnique(x: int, d: nat, q: int, r: int)
    requires d > 0 && x == d * q + r && 0 <= r < d
    ensures x / d == q && x % d == r
  {
    var k, r' := x / d - q, x % d;
    assert d * k == d * (x / d) - d * q;
    assert d * k == r - r';
    if k >= 1 { MulLe(d, 1, k); assert false; }
    if k <= -1 { MulLe(d, k, -1); assert false; }
  }

  /** Halving commutes with dividing by an even number. */
  lemma HalveFirst(x: nat, m: nat)
    requires m > 0
    ensures x / (2 * m) == x / 2 / m
    ensures x % (2 * m) == 2 * ((x / 2) % m) + x % 2
  {
    var q, r := x / 2 / m, (x / 2) % m;
    assert x / 2 == m * q + r;
    assert (2 * m) * q == 2 * (m * q);
    QuotientUnique(x, 2 * m, q, 2 * r + x % 2);
  }

  lemma RegroupHalves(m: nat, q: nat, r: nat)
    requires r <= 1
    ensures m * (2 * q + r) == (2 * m) * q + (if r == 1 then m else 0)
  {}

  /** Dividing again by two is dividing by the doubled number. */
  lemma HalveLast(x: nat, m: nat)
    requires m > 0
    ensures x / (2 * m) == x / m / 2
  {
    var t := x / m;
    var q, r := t / 2, t % 2;
    assert x == m * t + x % m;
    RegroupHalves(m, q, r);
    if r == 1 { QuotientUnique(x, 2 * m, q, m + x % m); } else { QuotientUnique(x, 2 * m, q, x % m); }
  }

  lemma SameQuotient(x: nat, y: nat, m: nat)
    requires m > 0
    ensures x / m == y / m <==> x - x % m == y - y % m
  {
    assert x - x % m == m * (x / m) && y - y % m == m * (y / m);
    if m * (x / m) == m * (y / m) {
      QuotientUnique(m * (x / m), m, x / m, 0);
      QuotientUnique(m * (x / m), m, y / m, 0);
    }
  }

  /** A mask made of the bits from `k` up clears the `k` low bits and keeps the others. */
  lemma {:induction false} MaskClearsLowBits(x: nat, k: nat, width: nat)
    requires k <= width && x < Pow2(width)
    ensures Pow2(k) <= Pow2(width)
    ensures BitAnd(x, Pow2(width) - Pow2(k), width) == x - x % Pow2(k)
    decreases width
  {
    hide BitAnd, Pow2;
    Pow2Step(width);
    Pow2Step(k);
    if width == 0 {
      EmptyMask(x);
    } else {
      var top := Pow2(width - 1);
      if k == 0 {
        MaskClearsLowBits(x / 2, 0, width - 1);
        Pow2Step(0);
        OddMask(x, top, width);
      } else {
        var low := Pow2(k - 1);
        MaskClearsLowBits(x / 2, k - 1, width - 1);
        EvenMask(x, top, low, width);
        HalvedRemainder(x, low);
        assert 2 * top - 2 * low == Pow2(width) - Pow2(k);
      }
    }
  }

  lemma Pow2Step(n: nat)
    ensures Pow2(n) == if n == 0 then 1 else 2 * Pow2(n - 1)
  {}

  lemma EmptyMask(x: nat)
    ensures BitAnd(x, 0, 0) == 0
  {}

  lemma HalvedRemainder(x: nat, low: nat)
    requires low > 0
    ensures 2 * (x / 2 - (x / 2) % low) == x - x % (2 * low)
  {
    HalveFirst(x, low);
  }

  lemma OddMask(x: nat, top: nat, width: nat)
    requires width > 0 && top > 0 && BitAnd(x / 2, top - 1, width - 1) == x / 2
    ensures BitAnd(x, 2 * top - 1, width) == x
  {
    assert (2 * top - 1) / 2 == top - 1 && (2 * top - 1) % 2 == 1;
  }

  lemma EvenMask(x: nat, top: nat, low: nat, width: nat)
    requires width > 0 && low <= top
    ensures BitAnd(x, 2 * top - 2 * low, width) == 2 * BitAnd(x / 2, top - low, width - 1)
  {
    assert (2 * top - 2 * low) / 2 == top - low && (2 * top - 2 * low) % 2 == 0;
  }

  lemma ShiftedOnes(m: nat)
    requires 0 < m <= 0x1_0000_0000
    ensures (0xffff_ffff * m) % 0x1_0000_0000 == 0x1_0000_0000 - m
  {
    if m == 0x1_0000_0000 {
      QuotientUnique(0xffff_ffff * m, 0x1_0000_0000, 0xffff_ffff, 0);
    } else {
      QuotientUnique(0xffff_ffff * m, 0x1_0000_0000, m - 1, 0x1_0000_0000 - m);
    }
  }

  lemma MaskIsHighBits(prefix: U8)
    requires prefix <= 32
    ensures Pow2(32 - prefix) <= Pow2(32) && CidrMask(prefix) == Pow2(32) - Pow2(32 - prefix)
  {
    var m := Pow2(32 - prefix);
    assert Pow2(32) == 0x1_0000_0000 by { Pow2Facts(); }
    assert Pow2(32) == Pow2(prefix) * m by { Pow2Add(prefix, 32 - prefix); }
    assert prefix == 0 ==> m == Pow2(32);
    assert prefix == 32 ==> m == 1;
    hide Pow2;
    AtLeastOneTimes(Pow2(prefix), m);
    if 0 < prefix < 32 { ShiftedOnes(m); }
  }

  lemma AtLeastOneTimes(a: nat, m: nat)
    requires a >= 1
    ensures m <= a * m
  {}

  /** `address & cidr_mask(p)` keeps the first `p` bits and clears the rest. */
  lemma MaskKeepsLeadingBits(x: U32, prefix: U8)
    requires prefix <= 32
    ensures Masked(x, prefix) == x - x % Pow2(32 - prefix)
    ensures Masked(x, prefix) <= x
  {
    Pow2Facts();
    MaskIsHighBits(prefix);
    MaskClearsLowBits(x, 32 - prefix, 32);
  }

  lemma {:induction false} LeadingBitsAgree(x: U32, y: U32, p: nat)
    requires p <= 32
    ensures x / Pow2(32 - p) == y / Pow2(32 - p) <==> Bits(x)[..p] == Bits(y)[..p]
  {
    if p == 0 {
      Pow2Facts();
    } else {
      LeadingBitsAgree(x, y, p - 1);
      var m := Pow2(32 - p);
      assert Pow2(32 - (p - 1)) == 2 * m;
      OneBitMore(x, y, m);
      SnocEqual(Bits(x), Bits(y), p);
      assert Bits(x)[p - 1] == Bit(x, p - 1) && Bits(y)[p - 1] == Bit(y, p - 1);
    }
  }

  lemma SnocEqual<T>(s: seq<T>, t: seq<T>, p: nat)
    requires 0 < p <= |s| && p <= |t|
    ensures s[..p] == t[..p] <==> s[..p - 1] == t[..p - 1] && s[p - 1] == t[p - 1]
  {
    assert s[..p] == s[..p - 1] + [s[p - 1]] && t[..p] == t[..p - 1] + [t[p - 1]];
  }

  lemma OneBitMore(x: nat, y: nat, m: nat)
    requires m > 0
    ensures x / m == y / m <==> x / (2 * m) == y / (2 * m) && (((x / m) % 2 == 1) == ((y / m) % 2 == 1))
  {
    HalveLast(x, m);
    HalveLast(y, m);
    var a, b := x / m, y / m;
    assert a == b <==> a / 2 == b / 2 && ((a % 2 == 1) == (b % 2 == 1));
  }

  /** Containment is agreement on the leading bits: the fact behind the binary trie. */
  lemma ContainsIsPrefixMatch(r: CidrRange, ip: U32)
    requires r.prefix <= 32
    ensures Contains(r, ip) <==> PathOf(r) == Bits(ip)[..r.prefix]
  {
    MaskKeepsLeadingBits(ip, r.prefix);
    MaskKeepsLeadingBits(r.network, r.prefix);
    LeadingBitsAgree(r.network, ip, r.prefix);
    SameQuotient(ip, r.network, Pow2(32 - r.prefix));
  }

  lemma FullRangeIsEquality(x: U32, y: U32)
    ensures Contains(CidrRange(x, 32), y) <==> x == y
  {
    MaskKeepsLeadingBits(x, 32);
    MaskKeepsLeadingBits(y, 32);
  }

  /** Two networks with the same leading bits are the same network. */
  lemma NetworkFromPath(a: CidrRange, b: CidrRange)
    requires IsNetwork(a) && IsNetwork(b) && PathOf(a) == PathOf(b)
    ensures a == b
  {
    MaskKeepsLeadingBits(a.network, a.prefix);
    MaskKeepsLeadingBits(b.network, b.prefix);
    LeadingBitsAgree(a.network, b.network, a.prefix);
    SameQuotient(a.network, b.network, Pow2(32 - a.prefix));
  }

  lemma ClearedIsMultiple(x: nat, m: nat)
    requires m > 0
    ensures (x - x % m) % m == 0
  {
    QuotientUnique(x - x % m, m, x / m, 0);
  }

  lemma MaskTwice(x: U32, prefix: U8)
    requires prefix <= 32
    ensures Masked(x, prefix) < 0x1_0000_0000
    ensures Masked(Masked(x, prefix), prefix) == Masked(x, prefix)
  {
    MaskKeepsLeadingBits(x, prefix);
    MaskKeepsLeadingBits(Masked(x, prefix), prefix);
    ClearedIsMultiple(x, Pow2(32 - prefix));
  }

  // ---- text form ----

  function Octets(x: U32): (o: seq<nat>)
    ensures |o| == 4 && forall i :: 0 <= i < 4 ==> o[i] < 256
  {
    [x / 0x100_0000, x / 0x1_0000 % 256, x / 0x100 % 256, x % 256]
  }

  function Ipv4ToString(x: U32): string {
    var o := Octets(x);
    Decimal(o[0]) + "." + Decimal(o[1]) + "." + Decimal(o[2]) + "." + Decimal(o[3])
  }

  /** One dotted part: at most three digits, at most 255. */
  function OctetValue(part: string): Option<nat> {
    if |part| > 3 then None else BoundedValue(part, 255)
  }

  function AccumulateOctets(parts: seq<string>, value: nat): Option<nat> {
    if parts == [] then Some(value)
    else match OctetValue(parts[0])
      case None => None
      case Some(octet) => AccumulateOctets(parts[1..], value * 256 + octet)
  }

  lemma {:induction false} AccumulateBound(parts: seq<string>, value: nat)
    ensures AccumulateOctets(parts, value).Some? ==>
              AccumulateOctets(parts, value).value < (value + 1) * Pow2(8 * |parts|)
  {
    if parts != [] && OctetValue(parts[0]).Some? {
      var next := value * 256 + OctetValue(parts[0]).value;
      AccumulateBound(parts[1..], next);
      var m := Pow2(8 * |parts[1..]|);
      assert Pow2(8 * |parts|) == 256 * m by { Pow2Add(8, 8 * |parts[1..]|); Pow2Facts(); }
      ScaleBound(next, value, m);
    }
  }

  lemma ScaleBound(next: nat, value: nat, m: nat)
    requires next < 256 * value + 256
    ensures (next + 1) * m <= (value + 1) * (256 * m)
  {
    MulLe(m, next + 1, 256 * value + 256);
  }

  function ParseIpv4(text: string): Option<U32> {
    var parts := Split(Trim(text), '.', true);
    if |parts| != 4 then None
    else
      AccumulateBound(parts, 0);
      Pow2Facts();
      AccumulateOctets(parts, 0)
  }

  /** The loop of the parser: shift by eight and add, never past 32 bits. */
  method ParseIpv4Loop(text: string) returns (r: Option<U32>)
    ensures r == ParseIpv4(text)
  {
    var parts := Split(Trim(text), '.', true);
    if |parts| != 4 { return None; }
    AccumulateBound(parts, 0);
    Pow2Facts();
    var value: nat := 0;
    for i := 0 to |parts|
      invariant AccumulateOctets(parts, 0) == AccumulateOctets(parts[i..], value)
    {
      assert parts[i..][0] == parts[i] && parts[i..][1..] == parts[i + 1..];
      if |parts[i]| > 3 { return None; }
      var octet := ParseBounded(parts[i], 255);
      if octet.None? { return None; }
      value := value * 256 + octet.value;
    }
    assert parts[4..] == [];
    return Some(value);
  }

  function CidrToString(r: CidrRange): string
    requires r.prefix <= 32
  {
    MaskTwice(r.network, r.prefix);
    Ipv4ToString(Masked(r.network, r.prefix)) + "/" + Decimal(r.prefix)
  }

  function ParseCidr(text: string): (r: Option<CidrRange>)
    ensures r.Some? ==> IsNetwork(r.value)
  {
    var parts := Split(Trim(text), '/', true);
    if |parts| == 1 then
      match ParseIpv4(parts[0])
      case None => None
      case Some(ip) => MaskKeepsLeadingBits(ip, 32); Some(CidrRange(ip, 32))
    else if |parts| != 2 then None
    else match BoundedValue(parts[1], 32)
      case None => None
      case Some(prefix) =>
        match ParseIpv4(parts[0])
        case None => None
        case Some(ip) =>
          MaskTwice(ip, prefix);
          Some(CidrRange(Masked(ip, prefix), prefix))
  }

  lemma OctetsRecompose(x: U32)
    ensures ((Octets(x)[0] * 256 + Octets(x)[1]) * 256 + Octets(x)[2]) * 256 + Octets(x)[3] == x
  {
    var a, b, c := x / 0x100, x / 0x1_0000, x / 0x100_0000;
    assert b == a / 256 && c == b / 256 by { ByteShifts(x); }
    assert x == 256 * a + x % 256 && a == 256 * b + a % 256 && b == 256 * c + b % 256;
  }

  lemma ByteShifts(x: nat)
    ensures x / 0x1_0000 == x / 0x100 / 256 && x / 0x100_0000 == x / 0x1_0000 / 256
  {
    var a, b := x / 0x100, x / 0x1_0000;
    QuotientUnique(x, 0x1_0000, a / 256, 256 * (a % 256) + x % 0x100);
    QuotientUnique(x, 0x100_0000, b / 256, 0x1_0000 * (b % 256) + x % 0x1_0000);
  }

  lemma OctetRoundTrip(n: U8)
    ensures OctetValue(Decimal(n)) == Some(n)
  {
    DecimalRoundTrip(n);
    DecimalLength(n, 3, 1000);
  }

  lemma AccumulateFour(parts: seq<string>, o: seq<nat>)
    requires |parts| == |o| == 4
    requires forall i :: 0 <= i < 4 ==> OctetValue(parts[i]) == Some(o[i])
    ensures AccumulateOctets(parts, 0) == Some(((o[0] * 256 + o[1]) * 256 + o[2]) * 256 + o[3])
  {
    var v1, v2 := o[0], o[0] * 256 + o[1];
    var v3 := v2 * 256 + o[2];
    assert parts[1..][1..] == parts[2..] && parts[2..][1..] == parts[3..] && parts[3..][1..] == [];
    assert AccumulateOctets(parts[3..], v3) == Some(v3 * 256 + o[3]);
    assert AccumulateOctets(parts[2..], v2) == AccumulateOctets(parts[3..], v3);
    assert AccumulateOctets(parts[1..], v1) == AccumulateOctets(parts[2..], v2);
  }

  predicate AddressChar(c: char) { IsDigit(c) || c == '.' }

  lemma Ipv4Shape(x: U32)
    ensures forall i :: 0 <= i < |Ipv4ToString(x)| ==> AddressChar(Ipv4ToString(x)[i])
    ensures |Ipv4ToString(x)| > 0 && IsDigit(Ipv4ToString(x)[0]) && Tight(Ipv4ToString(x))
    ensures Ipv4ToString(x) == Join([Decimal(Octets(x)[0]), Decimal(Octets(x)[1]), Decimal(Octets(x)[2]), Decimal(Octets(x)[3])], '.')
  {
    hide Decimal, Join;
    var o := Octets(x);
    var a, b, c, d := Decimal(o[0]), Decimal(o[1]), Decimal(o[2]), Decimal(o[3]);
    FourDecimals(a, b, c, d);
    FourJoined(a, b, c, d);
  }

  lemma FourDecimals(a: string, b: string, c: string, d: string)
    requires IsDecimal(a) && IsDecimal(b) && IsDecimal(c) && IsDecimal(d)
    ensures var s := a + "." + b + "." + c + "." + d;
            (forall i :: 0 <= i < |s| ==> AddressChar(s[i])) && IsDigit(s[0]) && Tight(s)
  {
    var s := a + "." + b + "." + c + "." + d;
    assert s[|s| - 1] == d[|d| - 1];
  }

  lemma FourJoined(a: string, b: string, c: string, d: string)
    ensures Join([a, b, c, d], '.') == a + "." + b + "." + c + "." + d
  {
    hide Join;
    assert [a] + [b, c, d] == [a, b, c, d] && [b] + [c, d] == [b, c, d] && [c] + [d] == [c, d];
    JoinCons(a, [b, c, d]);
    JoinCons(b, [c, d]);
    JoinCons(c, [d]);
    JoinOne(d);
    var cd, bcd := Join([c, d], '.'), Join([b, c, d], '.');
    assert cd == c + "." + d && bcd == b + "." + cd;
    assert a + "." + (b + "." + (c + "." + d)) == a + "." + b + "." + c + "." + d;
  }

  lemma JoinCons(first: string, rest: seq<string>)
    requires rest != []
    ensures Join([first] + rest, '.') == first + "." + Join(rest, '.')
  {
    assert ([first] + rest)[1..] == rest;
  }

  lemma JoinOne(only: string)
    ensures Join([only], '.') == only
  {}

  /** Reading a printed address gives it back, for all 2^32 addresses. */
  lemma Ipv4RoundTrip(x: U32)
    ensures ParseIpv4(Ipv4ToString(x)) == Some(x)
  {
    hide Join, Fields, Trim, Decimal, AccumulateOctets, OctetValue, Ipv4ToString;
    Ipv4Shape(x);
    var o := Octets(x);
    var parts := [Decimal(o[0]), Decimal(o[1]), Decimal(o[2]), Decimal(o[3])];
    TrimTight(Ipv4ToString(x));
    FieldsOfJoin(parts, '.');
    OctetRoundTrip(o[0]); OctetRoundTrip(o[1]); OctetRoundTrip(o[2]); OctetRoundTrip(o[3]);
    OctetsRecompose(x);
    AccumulateFour(parts, o);
  }

  function FromBytes(a: U8, b: U8, c: U8, d: U8): U32 {
    a as int * 0x100_0000 + b as int * 0x1_0000 + c as int * 0x100 + d as int
  }

  /** The text lists the four bytes from the most significant down, in decimal and with dots between. */
  lemma DottedQuad(a: U8, b: U8, c: U8, d: U8)
    ensures var text := Decimal(a) + "." + Decimal(b) + "." + Decimal(c) + "." + Decimal(d);
            Ipv4ToString(FromBytes(a, b, c, d)) == text && ParseIpv4(text) == Some(FromBytes(a, b, c, d))
  {
    hide Decimal, ParseIpv4, Octets, FromBytes;
    QuadOctets(a, b, c, d);
    Ipv4RoundTrip(FromBytes(a, b, c, d));
  }

  lemma QuadOctets(a: U8, b: U8, c: U8, d: U8)
    ensures Octets(FromBytes(a, b, c, d)) == [a, b, c, d]
  {
    var ab: int := a as int * 256 + b;
    var abc: int := ab * 256 + c;
    QuotientUnique(FromBytes(a, b, c, d), 0x100, abc, d);
    QuotientUnique(abc, 256, ab, c);
    QuotientUnique(ab, 256, a, b);
    ByteShifts(FromBytes(a, b, c, d));
  }

  predicate OctetText(part: string) { IsDecimal(part) && |part| <= 3 && DecimalValue(part) <= 255 }

  /** An address is read exactly from four dotted parts of one to three digits each, none above 255; leading zeros are allowed. */
  lemma Ipv4ReadsIff(parts: seq<string>)
    requires parts != [] && (forall i :: 0 <= i < |parts| ==> '.' !in parts[i]) && Join(parts, '.') != "" && Tight(Join(parts, '.'))
    ensures ParseIpv4(Join(parts, '.')).Some? <==> |parts| == 4 && forall i :: 0 <= i < |parts| ==> OctetText(parts[i])
    ensures ParseIpv4(Join(parts, '.')).Some? ==>
              ParseIpv4(Join(parts, '.')).value ==
                ((DecimalValue(parts[0]) * 256 + DecimalValue(parts[1])) * 256 + DecimalValue(parts[2])) * 256 + DecimalValue(parts[3])
  {
    hide Join, Fields, Trim, AccumulateOctets, DecimalValue, OctetText;
    TrimTight(Join(parts, '.'));
    FieldsOfJoin(parts, '.');
    if |parts| == 4 { FourOctets(parts); }
  }

  lemma FourOctets(parts: seq<string>)
    requires |parts| == 4
    ensures AccumulateOctets(parts, 0).Some? <==> forall i :: 0 <= i < 4 ==> OctetText(parts[i])
    ensures AccumulateOctets(parts, 0).Some? ==>
              AccumulateOctets(parts, 0).value ==
                ((DecimalValue(parts[0]) * 256 + DecimalValue(parts[1])) * 256 + DecimalValue(parts[2])) * 256 + DecimalValue(parts[3])
  {
    hide AccumulateOctets, OctetValue, DecimalValue, OctetText;
    OctetsReadIff(parts, 0);
    forall i | 0 <= i < 4 ensures OctetText(parts[i]) <==> OctetValue(parts[i]).Some? { OctetIff(parts[i]); }
    if AccumulateOctets(parts, 0).Some? {
      forall i | 0 <= i < 4 ensures OctetText(parts[i]) && IsDecimal(parts[i]) && OctetValue(parts[i]) == Some(DecimalValue(parts[i])) {
        OctetIff(parts[i]);
        OctetIsDecimal(parts[i]);
      }
      AccumulateFour(parts, [DecimalValue(parts[0]), DecimalValue(parts[1]), DecimalValue(parts[2]), DecimalValue(parts[3])]);
    }
  }

  lemma OctetIsDecimal(part: string)
    ensures OctetText(part) ==> IsDecimal(part)
  {}

  lemma OctetIff(part: string)
    ensures OctetValue(part) == if OctetText(part) then Some(DecimalValue(part)) else None
  {}

  lemma {:induction false} OctetsReadIff(parts: seq<string>, value: nat)
    ensures AccumulateOctets(parts, value).Some? <==> forall i :: 0 <= i < |parts| ==> OctetValue(parts[i]).Some?
  {
    hide OctetValue;
    if parts != [] && OctetValue(parts[0]).Some? {
      OctetsReadIff(parts[1..], value * 256 + OctetValue(parts[0]).value);
      assert forall i :: 1 <= i < |parts| ==> parts[i] == parts[1..][i - 1];
    }
  }

  lemma CidrShape(r: CidrRange)
    requires r.prefix <= 32
    ensures Tight(CidrToString(r)) && CidrToString(r) != "" && IsDigit(CidrToString(r)[0])
    ensures forall i :: 0 <= i < |CidrToString(r)| ==> AddressChar(CidrToString(r)[i]) || CidrToString(r)[i] == '/'
  {
    MaskTwice(r.network, r.prefix);
    Ipv4Shape(Masked(r.network, r.prefix));
    var s := CidrToString(r);
    assert s[|s| - 1] == Decimal(r.prefix)[|Decimal(r.prefix)| - 1];
  }

  /** Reading a printed range gives the range with its low bits cleared; a network comes back unchanged. */
  lemma CidrRoundTrip(r: CidrRange)
    requires r.prefix <= 32
    ensures Masked(r.network, r.prefix) < 0x1_0000_0000
    ensures ParseCidr(CidrToString(r)) == Some(CidrRange(Masked(r.network, r.prefix), r.prefix))
    ensures ParseCidr(CidrToString(r)) == Some(r) <==> IsNetwork(r)
  {
    MaskTwice(r.network, r.prefix);
    var x := Masked(r.network, r.prefix);
    CidrShape(r);
    Ipv4Shape(x);
    TrimTight(CidrToString(r));
    var parts := [Ipv4ToString(x), Decimal(r.prefix)];
    assert parts[1..] == [Decimal(r.prefix)];
    assert Join(parts, '/') == CidrToString(r);
    FieldsOfJoin(parts, '/');
    DecimalRoundTrip(r.prefix);
    Ipv4RoundTrip(x);
  }
}
