/** IP and CIDR validation and matching (`validateIpFormat`, `matchIp`,
    `matchIPv4`, `matchIPv6`, `createIPv6Mask` of AuthService.php).

    Prefix notation is that of section 3.1 of RFC 4632 (IPv4) and section 2.3
    of RFC 4291 (IPv6): `address/n` names every address whose first n bits
    equal those of `address`. `V4CidrMeaning` and `V6CidrMeaning` state that
    `matchIp` decides exactly this for a candidate of the subnet's family. */
module IpMatcher {
  import opened Wrappers
  import opened PhpText

  /** Sixteen octets, the binary form of an IPv6 address. */
  type Octets16 = s: seq<bv8> | |s| == 16 witness [0, 0, 0, 0, 0, 0, 0, 0, 0, 0, 0, 0, 0, 0, 0, 0]

  /** A parsed address: an IPv4 address as its 32-bit value (`ip2long`), an
      IPv6 address as its 16 octets (`inet_pton`). */
  datatype Addr = V4(value: U32) | V6(octets: Octets16)

  /** The range of `ip2long`. */
  type U32 = x: int | 0 <= x < 0x1_0000_0000

  const Loopback4: U32 := 0x7F00_0001
  const Loopback6: Octets16 := [0, 0, 0, 0, 0, 0, 0, 0, 0, 0, 0, 0, 0, 0, 0, 1]

  /** The simplest parser the type below admits; it only witnesses that the type is inhabited. */
  function ParseLoopbacksOnly(s: string): Option<Addr> {
    if s == "127.0.0.1" then Some(V4(Loopback4))
    else if s == "::1" then Some(V6(Loopback6))
    else None
  }

  /** The address parser the PHP runtime provides (`filter_var` with
      FILTER_VALIDATE_IP, `ip2long`, `inet_pton`), kept abstract: it yields the
      address a string denotes, or None when the string is not a bare address.
      What the model relies on: a string holding '/' is never a bare address,
      and the two loopback literals parse to the loopback addresses. */
  type Parser = f: string -> Option<Addr> |
    && (forall s :: f(s).Some? ==> '/' !in s)
    && f("127.0.0.1") == Some(V4(Loopback4))
    && f("::1") == Some(V6(Loopback6))
    witness ParseLoopbacksOnly

  predicate IsV4(parse: Parser, s: string) {
    parse(s).Some? && parse(s).value.V4?
  }

  predicate IsV6(parse: Parser, s: string) {
    parse(s).Some? && parse(s).value.V6?
  }

  /** The longest prefix the address family allows. */
  function MaxPrefix(a: Addr): nat {
    if a.V6? then 128 else 32
  }

  // ---------------------------------------------------------------- strings

  /** `explode('/', s)[0]`: the text before the first slash. */
  function BeforeSlash(s: string): (r: string)
    ensures '/' !in r
    ensures r <= s
  {
    if s == [] || s[0] == '/' then [] else [s[0]] + BeforeSlash(s[1..])
  }

  /** `explode('/', s, 2)[1]`: the text after the first slash. */
  function AfterSlash(s: string): string {
    if s == [] then [] else if s[0] == '/' then s[1..] else AfterSlash(s[1..])
  }

  lemma {:induction false} SplitJoin(a: string, b: string)
    requires '/' !in a
    ensures BeforeSlash(a + "/" + b) == a
    ensures AfterSlash(a + "/" + b) == b
  {
    if a != [] {
      assert (a + "/" + b)[1..] == a[1..] + "/" + b;
      SplitJoin(a[1..], b);
    } else {
      assert (a + "/" + b) == "/" + b;
    }
  }

  lemma {:induction false} NoSlashInDigits(s: string)
    requires AllDigits(s)
    ensures '/' !in s
    ensures BeforeSlash(s) == s
  {
    if s != [] {
      NoSlashInDigits(s[1..]);
    }
  }

  // ------------------------------------------------------------------ masks

  function Pow2(k: nat): (r: nat)
    ensures r > 0
  {
    if k == 0 then 1 else 2 * Pow2(k - 1)
  }

  lemma {:induction false} Pow2Add(a: nat, b: nat)
    ensures Pow2(a + b) == Pow2(a) * Pow2(b)
  {
    if a > 0 {
      Pow2Add(a - 1, b);
    }
  }

  /** The arithmetic stand-in for masking a non-negative x with `-1 << k`:
      x less its remainder modulo 2^k, the largest multiple of 2^k not above
      x. The model takes this as the meaning of the mask; the identity with
      the bitwise operation is not proved here. */
  function ClearLow(x: nat, k: nat): int {
    x - x % Pow2(k)
  }

  lemma MulSign(d: int, p: int)
    requires p > 0
    ensures d >= 1 ==> d * p >= p
    ensures d <= -1 ==> d * p <= 0 - p
  {
  }

  lemma DivOfMultiple(a: int, p: int)
    requires p > 0
    ensures (a * p) / p == a && (a * p) % p == 0
  {
    var q, r := (a * p) / p, (a * p) % p;
    assert a * p == q * p + r && 0 <= r < p;
    assert (a - q) * p == r;
    MulSign(a - q, p);
  }

  /** The stand-in keeps exactly the quotient by 2^k: its result is a
      multiple of 2^k whose quotient is that of x. */
  lemma ClearLowKeepsHigh(x: nat, k: nat)
    ensures ClearLow(x, k) == (x / Pow2(k)) * Pow2(k)
    ensures ClearLow(x, k) % Pow2(k) == 0
    ensures ClearLow(x, k) / Pow2(k) == x / Pow2(k)
  {
    DivOfMultiple(x / Pow2(k), Pow2(k));
  }

  /** Two values agree under the stand-in iff their quotients by 2^k
      agree. */
  lemma ClearLowComparesHigh(x: nat, y: nat, k: nat)
    ensures ClearLow(x, k) == ClearLow(y, k) <==> x / Pow2(k) == y / Pow2(k)
  {
    ClearLowKeepsHigh(x, k);
    ClearLowKeepsHigh(y, k);
  }

  lemma Pow2Values()
    ensures Pow2(8) == 0x100
    ensures Pow2(16) == 0x1_0000
    ensures Pow2(32) == 0x1_0000_0000
  {
    Pow2Add(8, 8);
    Pow2Add(16, 16);
  }

  /** k one-bits followed by 8 - k zero-bits (`bindec(str_pad(str_repeat('1', k), 8, '0'))`). */
  function LeadingOnes8(k: nat): bv8
    requires k <= 8
  {
    (0xFF as bv8) << (8 - k)
  }

  /** Octet i of the IPv6 mask for prefix n: floor(n / 8) octets 0xFF, then
      one partial octet, then zero octets. A prefix of 0 or less gives all
      zeros, a prefix of 128 or more all ones. */
  function MaskOctet(n: int, i: nat): bv8 {
    if 8 * (i + 1) <= n then 0xFF
    else if 8 * i < n then LeadingOnes8(n - 8 * i)
    else 0
  }

  /** Bit j (from the most significant end) of mask octet i is set exactly
      when the overall bit position 8 * i + j lies inside the prefix. */
  lemma MaskOctetBits(n: int, i: nat, j: nat)
    requires j < 8
    ensures (MaskOctet(n, i) >> (7 - j)) & 1 == if 8 * i + j < n then 1 else 0
  {
    if 8 * (i + 1) <= n {
    } else if 8 * i < n {
      LeadingOnes8Bits(n - 8 * i, j);
    } else {
    }
  }

  lemma LeadingOnes8Bits(k: nat, j: nat)
    requires k <= 8 && j < 8
    ensures (LeadingOnes8(k) >> (7 - j)) & 1 == if j < k then 1 else 0
  {
  }

  /** Bit j of an octet, counted from the most significant end. */
  function OctetBit(b: bv8, j: nat): bv8
    requires j < 8
  {
    (b >> (7 - j)) & 1
  }

  lemma AndBit(b: bv8, m: bv8, j: nat)
    requires j < 8
    ensures OctetBit(b & m, j) == OctetBit(b, j) & OctetBit(m, j)
    ensures OctetBit(m, j) == 0 || OctetBit(m, j) == 1
  {
  }

  /** Octets whose eight bits agree are equal. */
  lemma BitsDetermineOctet(u: bv8, v: bv8)
    requires forall j :: 0 <= j < 8 ==> OctetBit(u, j) == OctetBit(v, j)
    ensures u == v
  {
    assert OctetBit(u, 0) == OctetBit(v, 0) && OctetBit(u, 1) == OctetBit(v, 1);
    assert OctetBit(u, 2) == OctetBit(v, 2) && OctetBit(u, 3) == OctetBit(v, 3);
    assert OctetBit(u, 4) == OctetBit(v, 4) && OctetBit(u, 5) == OctetBit(v, 5);
    assert OctetBit(u, 6) == OctetBit(v, 6) && OctetBit(u, 7) == OctetBit(v, 7);
  }

  /** Two octets agree under a mask exactly when they agree on every bit the
      mask sets. */
  lemma MaskedOctetBits(b: bv8, c: bv8, m: bv8)
    ensures b & m == c & m <==> forall j :: 0 <= j < 8 && OctetBit(m, j) == 1 ==> OctetBit(b, j) == OctetBit(c, j)
  {
    if b & m == c & m {
      forall j | 0 <= j < 8 && OctetBit(m, j) == 1 ensures OctetBit(b, j) == OctetBit(c, j) {
        AndBit(b, m, j);
        AndBit(c, m, j);
      }
    }
    if forall j :: 0 <= j < 8 && OctetBit(m, j) == 1 ==> OctetBit(b, j) == OctetBit(c, j) {
      var u, v := b & m, c & m;
      forall j | 0 <= j < 8 ensures OctetBit(u, j) == OctetBit(v, j) {
        AndBit(b, m, j);
        AndBit(c, m, j);
      }
      BitsDetermineOctet(u, v);
    }
  }

  /** Octet i of two addresses agrees under the prefix-n mask exactly when
      they agree on every bit of that octet whose position 8 * i + j lies
      inside the prefix. */
  lemma MaskedOctetPrefix(b: bv8, c: bv8, n: int, i: nat)
    ensures b & MaskOctet(n, i) == c & MaskOctet(n, i) <==>
            forall j :: 0 <= j < 8 && 8 * i + j < n ==> OctetBit(b, j) == OctetBit(c, j)
  {
    MaskedOctetBits(b, c, MaskOctet(n, i));
    MaskOctetSetBits(n, i);
  }

  lemma MaskOctetSetBits(n: int, i: nat)
    ensures forall j :: 0 <= j < 8 ==> (OctetBit(MaskOctet(n, i), j) == 1 <==> 8 * i + j < n)
  {
    forall j | 0 <= j < 8 ensures OctetBit(MaskOctet(n, i), j) == 1 <==> 8 * i + j < n {
      MaskOctetBits(n, i, j);
    }
  }

  /** Bit p of a 128-bit address, counted from the most significant end:
      bit p % 8 of octet p / 8. */
  function AddrBit(o: Octets16, p: nat): bv8
    requires p < 128
  {
    OctetBit(o[p / 8], p % 8)
  }

  /** Masked equality under the prefix-n mask is agreement on the first n
      bits. */
  lemma MaskedEqualPrefixBits(x: Octets16, y: Octets16, n: int)
    requires n <= 128
    ensures MaskedEqual(x, y, n) <==> forall p :: 0 <= p < n ==> AddrBit(x, p) == AddrBit(y, p)
  {
    if MaskedEqual(x, y, n) {
      forall p | 0 <= p < n ensures AddrBit(x, p) == AddrBit(y, p) {
        var i, j := p / 8, p % 8;
        assert OctetAt(x, i) == x[i] && OctetAt(y, i) == y[i];
        MaskedOctetPrefix(x[i], y[i], n, i);
      }
    }
    if forall p :: 0 <= p < n ==> AddrBit(x, p) == AddrBit(y, p) {
      forall i | 0 <= i < 16 ensures OctetAt(x, i) & MaskOctet(n, i) == OctetAt(y, i) & MaskOctet(n, i) {
        forall j | 0 <= j < 8 && 8 * i + j < n ensures OctetBit(x[i], j) == OctetBit(y[i], j) {
          var p := 8 * i + j;
          assert p / 8 == i && p % 8 == j;
          assert AddrBit(x, p) == AddrBit(y, p);
        }
        MaskedOctetPrefix(x[i], y[i], n, i);
      }
    }
  }

  /** `createIPv6Mask`: builds the 16-octet mask octet by octet, spending 8
      prefix bits per full octet. */
  method CreateIPv6Mask(mask: int) returns (binary: seq<bv8>)
    ensures |binary| == 16
    ensures forall i :: 0 <= i < 16 ==> binary[i] == MaskOctet(mask, i)
  {
    binary := [];
    var m := mask;
    for i := 0 to 16
      invariant |binary| == i
      invariant m == if mask <= 0 then mask else if mask - 8 * i > 0 then mask - 8 * i else 0
      invariant forall k :: 0 <= k < i ==> binary[k] == MaskOctet(mask, k)
    {
      if m >= 8 {
        binary := binary + [0xFF];
        m := m - 8;
      } else if m > 0 {
        binary := binary + [LeadingOnes8(m)];
        m := 0;
      } else {
        binary := binary + [0];
      }
    }
  }

  // --------------------------------------------------------------- matching

  /** `inet_pton`: 4 octets for an IPv4 address, 16 for an IPv6 address. */
  function InetPton(a: Addr): (r: seq<bv8>)
    ensures |r| == if a.V4? then 4 else 16
  {
    match a
    case V4(b) => [(b / 0x100_0000) as bv8, (b / 0x1_0000 % 0x100) as bv8, (b / 0x100 % 0x100) as bv8, (b % 0x100) as bv8]
    case V6(o) => o
  }

  /** `ord($binary[$i])`: an offset past the end reads as "" and `ord("")` is 0. */
  function OctetAt(binary: seq<bv8>, i: nat): bv8 {
    if i < |binary| then binary[i] else 0
  }

  /** Octet-wise masked equality of two binary addresses over 16 offsets. */
  predicate MaskedEqual(x: seq<bv8>, y: seq<bv8>, mask: int) {
    forall i :: 0 <= i < 16 ==> OctetAt(x, i) & MaskOctet(mask, i) == OctetAt(y, i) & MaskOctet(mask, i)
  }

  /** `matchIPv4`: both strings must be IPv4 addresses (`ip2long` fails
      otherwise); then the 32-bit values are compared under the mask. */
  function MatchIPv4(parse: Parser, ip: string, subnet: string, mask: nat): bool {
    if !IsV4(parse, ip) || !IsV4(parse, subnet) then false
    else if mask > 32 then false
    else ClearLow(parse(ip).value.value, 32 - mask) == ClearLow(parse(subnet).value.value, 32 - mask)
  }

  /** What `matchIPv6` computes: both strings must parse (`inet_pton` fails
      otherwise); then 16 octets are compared under the IPv6 mask, whatever
      the families. */
  predicate MatchesIPv6(parse: Parser, ip: string, subnet: string, mask: int) {
    parse(ip).Some? && parse(subnet).Some? &&
    MaskedEqual(InetPton(parse(ip).value), InetPton(parse(subnet).value), mask)
  }

  /** `matchIPv6`. */
  method MatchIPv6(parse: Parser, ip: string, subnet: string, mask: int) returns (r: bool)
    ensures r == MatchesIPv6(parse, ip, subnet, mask)
  {
    var maskBinary := CreateIPv6Mask(mask);
    if parse(ip).None? || parse(subnet).None? {
      return false;
    }
    var ipBinary := InetPton(parse(ip).value);
    var subnetBinary := InetPton(parse(subnet).value);
    r := CompareMasked(ipBinary, subnetBinary, maskBinary, mask);
  }

  /** The loop of `matchIPv6`: the first offset where the masked octets
      differ decides false. */
  method CompareMasked(x: seq<bv8>, y: seq<bv8>, m: seq<bv8>, mask: int) returns (r: bool)
    requires |m| == 16 && forall i :: 0 <= i < 16 ==> m[i] == MaskOctet(mask, i)
    ensures r == MaskedEqual(x, y, mask)
  {
    r := true;
    for i := 0 to 16
      invariant r <==> forall k :: 0 <= k < i ==> OctetAt(x, k) & m[k] == OctetAt(y, k) & m[k]
    {
      var ipByte := OctetAt(x, i) & m[i];
      var subnetByte := OctetAt(y, i) & m[i];
      if ipByte != subnetByte {
        r := false;
        break;
      }
    }
    MaskedEqualByTable(x, y, m, mask);
  }

  /** Comparing under the table of mask octets is comparing under the mask. */
  lemma MaskedEqualByTable(x: seq<bv8>, y: seq<bv8>, m: seq<bv8>, mask: int)
    requires |m| == 16 && forall i :: 0 <= i < 16 ==> m[i] == MaskOctet(mask, i)
    ensures MaskedEqual(x, y, mask) <==> forall k :: 0 <= k < 16 ==> OctetAt(x, k) & m[k] == OctetAt(y, k) & m[k]
  {
  }

  /** The subnet part of an entry holding a slash is the text before the
      first slash; the prefix is the integer cast of the text between the
      first slash and the next one (or the end). A negative cast clears no
      mask bit in either matcher, as 0 does, so it is read as 0. */
  function EntrySubnet(allowed: string): string {
    BeforeSlash(allowed)
  }

  function EntryPrefix(allowed: string): nat {
    var n := StringIntCast(BeforeSlash(AfterSlash(allowed)));
    if n < 0 then 0 else n
  }

  /** What `matchIp` decides. An entry without '/' matches by string
      equality. Otherwise the branch is chosen by the CANDIDATE's family only:
      an IPv4 candidate goes to `matchIPv4`, anything else to `matchIPv6`. */
  predicate Matches(parse: Parser, ip: string, allowed: string) {
    if '/' !in allowed then ip == allowed
    else if IsV4(parse, ip) then MatchIPv4(parse, ip, EntrySubnet(allowed), EntryPrefix(allowed))
    else MatchesIPv6(parse, ip, EntrySubnet(allowed), EntryPrefix(allowed))
  }

  /** `matchIp`. */
  method MatchIp(parse: Parser, ip: string, allowed: string) returns (r: bool)
    ensures r == Matches(parse, ip, allowed)
  {
    if '/' !in allowed {
      return ip == allowed;
    }
    var subnet := EntrySubnet(allowed);
    var mask := EntryPrefix(allowed);
    if IsV4(parse, ip) {
      return MatchIPv4(parse, ip, subnet, mask);
    }
    r := MatchIPv6(parse, ip, subnet, mask);
  }

  // ------------------------------------------------------------- validation

  /** `validateIpFormat`: a bare address, or `address/prefix` whose address
      part is a bare address and whose prefix is numeric and at most 128 (IPv6)
      or 32 (otherwise). Numeric is modelled as a non-empty run of decimal
      digits. */
  predicate ValidateIpFormat(parse: Parser, ip: string) {
    if parse(ip).Some? then true
    else if '/' in ip then
      var subnet := BeforeSlash(ip);
      var mask := AfterSlash(ip);
      if parse(subnet).None? then false
      else |mask| > 0 && AllDigits(mask) && DigitsValue(mask) <= MaxPrefix(parse(subnet).value)
    else false
  }

  /** The CIDR string `a/n` for an address string and a prefix length. */
  function Cidr(a: string, n: nat): string {
    a + "/" + NatToString(n)
  }

  /** `a/n` is accepted exactly when n is within the family's range. */
  lemma CidrValidIff(parse: Parser, a: string, n: nat)
    requires parse(a).Some?
    ensures ValidateIpFormat(parse, Cidr(a, n)) <==> n <= MaxPrefix(parse(a).value)
  {
    SplitJoin(a, NatToString(n));
    assert '/' in Cidr(a, n) by { assert Cidr(a, n)[|a|] == '/'; }
    NatToStringValue(n);
  }

  /** Strings that are neither bare addresses nor `address/prefix` are rejected. */
  lemma RejectsWithoutSlash(parse: Parser, s: string)
    requires parse(s).None? && '/' !in s
    ensures !ValidateIpFormat(parse, s)
  {
  }

  /** The example of an IPv4 address with a prefix of 33. */
  lemma RejectsPrefix33(parse: Parser)
    requires parse("10.0.0.1").Some? && parse("10.0.0.1").value.V4?
    ensures !ValidateIpFormat(parse, "10.0.0.1/33")
  {
    assert NatToString(33) == "33";
    assert Cidr("10.0.0.1", 33) == "10.0.0.1/33";
    CidrValidIff(parse, "10.0.0.1", 33);
  }

  /** What `matchIp` reads back from a validated entry: its subnet is a bare
      address and the prefix `(int)` produces is within the family's range,
      so `matchIPv4`'s shift is never negative for a stored entry. */
  lemma ValidEntryPrefixInRange(parse: Parser, e: string)
    requires ValidateIpFormat(parse, e) && '/' in e
    ensures parse(EntrySubnet(e)).Some?
    ensures EntryPrefix(e) == DigitsValue(AfterSlash(e))
    ensures EntryPrefix(e) <= MaxPrefix(parse(EntrySubnet(e)).value)
  {
    NoSlashInDigits(AfterSlash(e));
    DigitsIntCast(AfterSlash(e));
  }

  // ---------------------------------------------------- matching properties

  /** An entry without a slash matches exactly the identical string. */
  lemma ExactEntryMatchesOnlyItself(parse: Parser, ip: string, e: string)
    requires '/' !in e
    ensures Matches(parse, ip, e) <==> ip == e
  {
  }

  lemma CidrParts(a: string, n: nat)
    requires '/' !in a
    ensures '/' in Cidr(a, n)
    ensures EntrySubnet(Cidr(a, n)) == a
    ensures EntryPrefix(Cidr(a, n)) == n
  {
    SplitJoin(a, NatToString(n));
    assert Cidr(a, n)[|a|] == '/';
    NoSlashInDigits(NatToString(n));
    DigitsIntCast(NatToString(n));
    NatToStringValue(n);
  }

  lemma {:induction false} BeforeSlashOfSlashFree(s: string)
    requires '/' !in s
    ensures BeforeSlash(s) == s
  {
    if s != [] {
      BeforeSlashOfSlashFree(s[1..]);
    }
  }

  /** An entry `a/d` with no further slash has subnet a and the cast of d as
      its prefix, a negative cast counting as 0. */
  lemma EntryParts(a: string, d: string)
    requires '/' !in a && '/' !in d
    ensures '/' in a + "/" + d
    ensures EntrySubnet(a + "/" + d) == a
    ensures EntryPrefix(a + "/" + d) == if StringIntCast(d) < 0 then 0 else StringIntCast(d)
  {
    SplitJoin(a, d);
    assert (a + "/" + d)[|a|] == '/';
    BeforeSlashOfSlashFree(d);
  }

  /** The entry `a/` followed by the character c and the digits d. */
  lemma MarkedPrefixSplit(a: string, c: char, d: string)
    requires c != '/' && AllDigits(d)
    ensures '/' !in [c] + d
    ensures a + "/" + ([c] + d) == a + ['/', c] + d
  {
    NoSlashInDigits(d);
  }

  /** `(int)` skips a leading space of the prefix and reads its sign: the
      numeral is read through a space or a plus sign, and a minus sign makes
      it negative, which counts as 0. */
  lemma SpacedPrefixParts(a: string, d: string)
    requires '/' !in a && AllDigits(d)
    ensures '/' in a + "/ " + d
    ensures EntrySubnet(a + "/ " + d) == a && EntryPrefix(a + "/ " + d) == DigitsValue(d)
  {
    MarkedPrefixSplit(a, ' ', d);
    EntryParts(a, " " + d);
    SpacedDigitsCast(d);
  }

  lemma PlusPrefixParts(a: string, d: string)
    requires '/' !in a && AllDigits(d)
    ensures '/' in a + "/+" + d
    ensures EntrySubnet(a + "/+" + d) == a && EntryPrefix(a + "/+" + d) == DigitsValue(d)
  {
    MarkedPrefixSplit(a, '+', d);
    EntryParts(a, "+" + d);
    PlusDigitsCast(d);
  }

  lemma MinusPrefixParts(a: string, d: string)
    requires '/' !in a && AllDigits(d)
    ensures '/' in a + "/-" + d
    ensures EntrySubnet(a + "/-" + d) == a && EntryPrefix(a + "/-" + d) == 0
  {
    MarkedPrefixSplit(a, '-', d);
    EntryParts(a, "-" + d);
    MinusDigitsCast(d);
  }

  /** An entry whose prefix is written with a leading space or a plus sign
      matches what the plain numeral's entry matches; one written with a
      minus sign matches what the `/0` entry matches, which is every address
      of the subnet's family. */
  lemma SpacedAndSignedPrefixes(parse: Parser, x: string, a: string, d: string)
    requires '/' !in a && AllDigits(d)
    ensures Matches(parse, x, a + "/ " + d) <==> Matches(parse, x, Cidr(a, DigitsValue(d)))
    ensures Matches(parse, x, a + "/+" + d) <==> Matches(parse, x, Cidr(a, DigitsValue(d)))
    ensures Matches(parse, x, a + "/-" + d) <==> Matches(parse, x, Cidr(a, 0))
  {
    SpacedPrefixParts(a, d);
    PlusPrefixParts(a, d);
    MinusPrefixParts(a, d);
    CidrParts(a, DigitsValue(d));
    CidrParts(a, 0);
    SamePartsSameMatch(parse, x, a + "/ " + d, Cidr(a, DigitsValue(d)));
    SamePartsSameMatch(parse, x, a + "/+" + d, Cidr(a, DigitsValue(d)));
    SamePartsSameMatch(parse, x, a + "/-" + d, Cidr(a, 0));
  }

  /** Two entries with a slash, the same subnet and the same prefix match the
      same candidates. */
  lemma SamePartsSameMatch(parse: Parser, x: string, e: string, f: string)
    requires '/' in e && '/' in f
    requires EntrySubnet(e) == EntrySubnet(f) && EntryPrefix(e) == EntryPrefix(f)
    ensures Matches(parse, x, e) == Matches(parse, x, f)
  {
  }

  /** Matching against `a/n` is the comparison the candidate's family picks,
      with subnet a and prefix n. */
  lemma CidrMatches(parse: Parser, x: string, a: string, n: nat)
    requires '/' !in a
    ensures Matches(parse, x, Cidr(a, n)) ==
            if IsV4(parse, x) then MatchIPv4(parse, x, a, n) else MatchesIPv6(parse, x, a, n)
  {
    CidrParts(a, n);
  }

  /** IPv4: a candidate matches `a/n` exactly when the first n bits of both
      32-bit values agree. */
  lemma V4CidrMeaning(parse: Parser, x: string, a: string, n: nat)
    requires IsV4(parse, x) && IsV4(parse, a) && n <= 32
    ensures Matches(parse, x, Cidr(a, n)) <==>
            parse(x).value.value / Pow2(32 - n) == parse(a).value.value / Pow2(32 - n)
  {
    CidrMatches(parse, x, a, n);
    MatchIPv4Meaning(parse, x, a, n);
  }

  /** `matchIPv4` at a prefix of at most 32 compares the first n bits. */
  lemma MatchIPv4Meaning(parse: Parser, x: string, a: string, n: nat)
    requires IsV4(parse, x) && IsV4(parse, a) && n <= 32
    ensures MatchIPv4(parse, x, a, n) <==>
            parse(x).value.value / Pow2(32 - n) == parse(a).value.value / Pow2(32 - n)
  {
    ClearLowComparesHigh(parse(x).value.value, parse(a).value.value, 32 - n);
  }

  /** `/32` behaves as an exact address comparison and `/0` admits every IPv4 address. */
  lemma V4HostAndZeroPrefix(parse: Parser, x: string, a: string)
    requires IsV4(parse, x) && IsV4(parse, a)
    ensures Matches(parse, x, Cidr(a, 32)) <==> parse(x) == parse(a)
    ensures Matches(parse, x, Cidr(a, 0))
  {
    V4CidrMeaning(parse, x, a, 32);
    V4CidrMeaning(parse, x, a, 0);
    Pow2Values();
    var vx, va := parse(x).value.value, parse(a).value.value;
    assert Pow2(32 - 32) == 1;
    assert vx / Pow2(32 - 32) == vx && va / Pow2(32 - 32) == va;
    assert vx / Pow2(32 - 0) == 0 == va / Pow2(32 - 0);
  }

  /** An IPv4 candidate never matches an IPv6 subnet (`ip2long` of the subnet fails). */
  lemma V4CandidateNeverMatchesV6Subnet(parse: Parser, x: string, a: string, d: string)
    requires IsV4(parse, x) && IsV6(parse, a) && '/' !in a
    ensures !Matches(parse, x, a + "/" + d)
  {
    SplitJoin(a, d);
    assert '/' in a + "/" + d by { assert (a + "/" + d)[|a|] == '/'; }
  }

  lemma MaskOctetFull(n: int, i: nat)
    requires 8 * (i + 1) <= n
    ensures MaskOctet(n, i) == 0xFF
  {
  }

  /** IPv6: `/128` behaves as an exact address comparison and `/0` admits
      every IPv6 address. */
  lemma V6HostAndZeroPrefix(parse: Parser, x: string, a: string)
    requires IsV6(parse, x) && IsV6(parse, a) && '/' !in a
    ensures Matches(parse, x, Cidr(a, 128)) <==> parse(x) == parse(a)
    ensures Matches(parse, x, Cidr(a, 0))
  {
    CidrParts(a, 128);
    CidrParts(a, 0);
    var ox, oa := parse(x).value.octets, parse(a).value.octets;
    if Matches(parse, x, Cidr(a, 128)) {
      forall i | 0 <= i < 16 ensures ox[i] == oa[i] {
        MaskOctetFull(128, i);
        assert OctetAt(ox, i) & MaskOctet(128, i) == OctetAt(oa, i) & MaskOctet(128, i);
      }
      assert ox == oa;
    }
  }

  /** IPv6: a candidate matches `a/n` exactly when the first n bits of both
      128-bit addresses agree. */
  lemma V6CidrMeaning(parse: Parser, x: string, a: string, n: nat)
    requires IsV6(parse, x) && IsV6(parse, a) && '/' !in a && n <= 128
    ensures Matches(parse, x, Cidr(a, n)) <==>
            forall p :: 0 <= p < n ==> AddrBit(parse(x).value.octets, p) == AddrBit(parse(a).value.octets, p)
  {
    CidrMatches(parse, x, a, n);
    MaskedEqualPrefixBits(parse(x).value.octets, parse(a).value.octets, n);
  }

  /** The family quirk: an IPv6 candidate is not guarded against an IPv4
      subnet. `inet_pton` gives the subnet 4 octets and the missing offsets
      read as 0, so with a prefix of at most 32 only the candidate's first four
      octets are compared. */
  lemma V6CandidateAgainstV4Subnet(parse: Parser, x: string, a: string, n: nat)
    requires IsV6(parse, x) && IsV4(parse, a) && n <= 32
    requires parse(x).value.octets[..4] == InetPton(parse(a).value)
    ensures Matches(parse, x, Cidr(a, n))
  {
    CidrParts(a, n);
    var bx, ba := InetPton(parse(x).value), InetPton(parse(a).value);
    forall i | 0 <= i < 16
      ensures OctetAt(bx, i) & MaskOctet(n, i) == OctetAt(ba, i) & MaskOctet(n, i)
    {
      if i < 4 {
        assert bx[i] == bx[..4][i];
      }
    }
  }

  /** The instance: "::" matches "0.0.0.0/0". */
  lemma UnspecifiedV6MatchesV4ZeroPrefix(parse: Parser)
    requires parse("::") == Some(V6([0, 0, 0, 0, 0, 0, 0, 0, 0, 0, 0, 0, 0, 0, 0, 0]))
    requires parse("0.0.0.0") == Some(V4(0))
    ensures Matches(parse, "::", "0.0.0.0/0")
  {
    assert NatToString(0) == "0";
    assert Cidr("0.0.0.0", 0) == "0.0.0.0/0";
    assert InetPton(V4(0)) == [0, 0, 0, 0];
    V6CandidateAgainstV4Subnet(parse, "::", "0.0.0.0", 0);
  }

  /** The boundary examples for 192.168.1.0/24: the last address inside,
      and the first address past it. */
  lemma V4BoundaryInside(parse: Parser)
    requires parse("192.168.1.0") == Some(V4(0xC0A8_0100))
    requires parse("192.168.1.255") == Some(V4(0xC0A8_01FF))
    ensures Matches(parse, "192.168.1.255", "192.168.1.0/24")
  {
    assert NatToString(24) == "24";
    assert Cidr("192.168.1.0", 24) == "192.168.1.0/24";
    Pow2Values();
    assert Pow2(32 - 24) == 0x100;
    assert 0xC0A8_01FF / 0x100 == 0xC0A801 == 0xC0A8_0100 / 0x100;
    V4CidrMeaning(parse, "192.168.1.255", "192.168.1.0", 24);
    assert Matches(parse, "192.168.1.255", Cidr("192.168.1.0", 24));
  }

  lemma V4BoundaryOutside(parse: Parser)
    requires parse("192.168.1.0") == Some(V4(0xC0A8_0100))
    requires parse("192.168.2.0") == Some(V4(0xC0A8_0200))
    ensures !Matches(parse, "192.168.2.0", "192.168.1.0/24")
  {
    assert NatToString(24) == "24";
    assert Cidr("192.168.1.0", 24) == "192.168.1.0/24";
    Pow2Values();
    assert Pow2(32 - 24) == 0x100;
    V4CidrMeaning(parse, "192.168.2.0", "192.168.1.0", 24);
  }
}
