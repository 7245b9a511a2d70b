/** IPv4 addresses and networks as Python's ipaddress module reads and
    writes them: an address is a 32-bit unsigned integer written as four
    dotted decimal octets; a network is a base address and a prefix length
    written `a.b.c.d/n` (prefix notation, section 3.1 of RFC 4632). */
module Ipv4 {
  import opened Wrappers
  import opened Text

  const AddressSpace: nat := 0x1_0000_0000

  type Address = a: int | 0 <= a < AddressSpace

  type PrefixLength = p: nat | p <= 32

  function Pow2(n: nat): (r: nat)
    ensures r > 0
  {
    if n == 0 then 1 else 2 * Pow2(n - 1)
  }

  lemma {:induction false} Pow2Add(a: nat, b: nat)
    ensures Pow2(a + b) == Pow2(a) * Pow2(b)
    decreases a
  {
    if a > 0 {
      Pow2Add(a - 1, b);
      assert Pow2(a + b) == 2 * Pow2(a - 1 + b);
    }
  }

  lemma Pow2Of32()
    ensures Pow2(32) == AddressSpace
  {
    assert Pow2(8) == 256 by {
      assert Pow2(1) == 2; assert Pow2(2) == 4; assert Pow2(3) == 8; assert Pow2(4) == 16;
      assert Pow2(5) == 32; assert Pow2(6) == 64; assert Pow2(7) == 128;
    }
    Pow2Add(8, 8);
    Pow2Add(16, 16);
  }

  lemma {:induction false} Pow2Monotone(a: nat, b: nat)
    requires a <= b
    ensures Pow2(a) <= Pow2(b)
    decreases b
  {
    if a < b {
      Pow2Monotone(a, b - 1);
    }
  }

  // ---------------------------------------------------------------------------
  // Euclidean division facts (Dafny's / and % on non-negative operands agree
  // with Python's //, % and the bit operations the library uses).

  lemma MulMonotone(a: int, b: int, m: int)
    requires a <= b && m >= 0
    ensures a * m <= b * m
  {
    assert b * m - a * m == (b - a) * m;
  }

  lemma DivModUnique(a: int, m: int, q: int, r: int)
    requires m > 0 && 0 <= r < m && a == q * m + r
    ensures a / m == q && a % m == r
  {
    var q', r' := a / m, a % m;
    assert a == q' * m + r';
    if q > q' {
      MulMonotone(q' + 1, q, m);
      assert false;
    }
    if q' > q {
      MulMonotone(q + 1, q', m);
      assert false;
    }
  }

  /** Rounding down to a multiple of m. */
  lemma RoundDown(a: nat, m: nat)
    requires m > 0
    ensures 0 <= a - a % m <= a < a - a % m + m
    ensures (a - a % m) % m == 0
  {
    assert a == (a / m) * m + a % m;
    DivModUnique(a - a % m, m, a / m, 0);
  }

  /** Alignment to a power of two implies alignment to every smaller one. */
  lemma AlignedToSmaller(x: nat, k: nat, j: nat)
    requires k <= j && x % Pow2(j) == 0
    ensures x % Pow2(k) == 0
  {
    Pow2Add(k, j - k);
    MultipleOfFactor(x, Pow2(k), Pow2(j - k));
  }

  lemma MultipleOfFactor(x: int, a: int, b: int)
    requires a > 0 && b > 0 && x % (a * b) == 0
    ensures x % a == 0
  {
    var q := x / (a * b);
    assert x == q * (a * b);
    assert x == (q * b) * a + 0;
    DivModUnique(x, a, q * b, 0);
  }

  lemma MultipleBelowBound(x: int, p: int, n: int)
    requires p > 0 && x >= 0 && x % p == 0 && x < n * p
    ensures x + p <= n * p
  {
    var q := x / p;
    assert x == q * p;
    if n <= q {
      MulMonotone(n, q, p);
      assert false;
    }
    MulMonotone(q + 1, n, p);
  }

  /** An aligned block that starts inside the address space ends inside it. */
  lemma AlignedBlockFits(x: nat, k: nat)
    requires k <= 32 && x < AddressSpace && x % Pow2(k) == 0
    ensures x + Pow2(k) <= AddressSpace
  {
    Pow2Of32();
    Pow2Add(32 - k, k);
    MultipleBelowBound(x, Pow2(k), Pow2(32 - k));
  }

  // ---------------------------------------------------------------------------
  // Addresses

  predicate StrictlyAscending(s: seq<Address>) {
    forall i, j :: 0 <= i < j < |s| ==> s[i] < s[j]
  }

  /** The big-endian octets of an address (a.to_bytes(4, 'big')). */
  function Octet(a: Address, i: nat): (o: nat)
    requires i < 4
    ensures o < 256
  {
    if i == 0 then a / 256 / 256 / 256
    else if i == 1 then (a / 256 / 256) % 256
    else if i == 2 then (a / 256) % 256
    else a % 256
  }

  /** int.from_bytes of four octets, big-endian. */
  function FromOctets(o0: nat, o1: nat, o2: nat, o3: nat): (a: Address)
    requires o0 < 256 && o1 < 256 && o2 < 256 && o3 < 256
    ensures Octet(a, 0) == o0 && Octet(a, 1) == o1 && Octet(a, 2) == o2 && Octet(a, 3) == o3
  {
    ((o0 * 256 + o1) * 256 + o2) * 256 + o3
  }

  lemma FromOctetsOfOctets(a: Address)
    ensures FromOctets(Octet(a, 0), Octet(a, 1), Octet(a, 2), Octet(a, 3)) == a
  {
  }

  /** str(IPv4Address): the four octets in decimal, joined by dots. */
  function FormatAddress(a: Address): (r: string)
    ensures DottedDigits(r)
  {
    var parts := [DecimalString(Octet(a, 0)), DecimalString(Octet(a, 1)),
                  DecimalString(Octet(a, 2)), DecimalString(Octet(a, 3))];
    JoinOfNumerals(parts);
    Join(parts, '.')
  }

  /** ipaddress._parse_octet: a non-empty ASCII decimal of at most three
      digits, without a leading zero, at most 255. */
  function ParseOctet(s: string): (r: Option<nat>)
    ensures r.Some? <==> CanonicalDecimal(s) && DecimalValue(s) < 256
    ensures r.Some? ==> r.value < 256 && s == DecimalString(r.value)
  {
    NumeralOfValue(s);
    if s == [] || !AllDigits(s) || |s| > 3 || (s != "0" && s[0] == '0') then None
    else if DecimalValue(s) > 255 then None
    else Some(DecimalValue(s))
  }

  lemma NumeralOfValue(s: string)
    ensures CanonicalDecimal(s) ==> DecimalString(DecimalValue(s)) == s
  {
    if CanonicalDecimal(s) {
      DecimalStringOfValue(s);
    }
  }

  /** IPv4Address(s) for a string: exactly four dot-separated octets. */
  function ParseAddress(s: string): (r: Option<Address>)
    ensures r.Some? ==> s == FormatAddress(r.value)
  {
    if s == [] then None
    else
      var parts := Split(s, '.');
      if |parts| != 4 then None
      else
        match (ParseOctet(parts[0]), ParseOctet(parts[1]), ParseOctet(parts[2]), ParseOctet(parts[3]))
        case (Some(o0), Some(o1), Some(o2), Some(o3)) =>
          JoinSplit(s, '.');
          assert parts == [parts[0], parts[1], parts[2], parts[3]];
          Some(FromOctets(o0, o1, o2, o3))
        case _ => None
  }

  lemma DigitsHaveNoSeparators(s: string)
    requires AllDigits(s)
    ensures '.' !in s && '/' !in s && '-' !in s && '#' !in s
  {
  }

  lemma ParseOctetOfDecimal(o: nat)
    requires o < 256
    ensures ParseOctet(DecimalString(o)) == Some(o)
  {
  }

  /** Formatting then parsing gives the address back. */
  lemma ParseFormatAddress(a: Address)
    ensures ParseAddress(FormatAddress(a)) == Some(a)
  {
    var parts := [DecimalString(Octet(a, 0)), DecimalString(Octet(a, 1)),
                  DecimalString(Octet(a, 2)), DecimalString(Octet(a, 3))];
    forall i | 0 <= i < 4 ensures '.' !in parts[i] && ParseOctet(parts[i]) == Some(Octet(a, i)) {
      DigitsHaveNoSeparators(parts[i]);
      ParseOctetOfDecimal(Octet(a, i));
    }
    SplitJoin(parts, '.');
    FromOctetsOfOctets(a);
  }

  /** The parser accepts exactly the canonical text: whatever it reads as an
      address is that address's str() form. */
  lemma FormatParseAddress(s: string, a: Address)
    requires ParseAddress(s) == Some(a)
    ensures s == FormatAddress(a)
  {
    var parts := Split(s, '.');
    JoinSplit(s, '.');
    forall i | 0 <= i < 4 ensures parts[i] == DecimalString(Octet(a, i)) {
      DecimalStringOfValue(parts[i]);
    }
    assert parts == [parts[0], parts[1], parts[2], parts[3]];
  }

  /** Address text holds only digits and dots, and starts and ends with a digit. */
  predicate DottedDigits(s: string) {
    && s != [] && IsDigit(s[0]) && IsDigit(s[|s| - 1])
    && forall i :: 0 <= i < |s| ==> IsDigit(s[i]) || s[i] == '.'
  }

  lemma {:induction false} JoinOfNumerals(parts: seq<string>)
    requires |parts| >= 1
    requires forall i :: 0 <= i < |parts| ==> CanonicalDecimal(parts[i])
    ensures DottedDigits(Join(parts, '.'))
  {
    if |parts| > 1 {
      JoinOfNumerals(parts[1..]);
      var rest := Join(parts[1..], '.');
      var j := parts[0] + ['.'] + rest;
      assert Join(parts, '.') == j;
      forall i | 0 <= i < |j| ensures IsDigit(j[i]) || j[i] == '.' {
        if i < |parts[0]| {
          assert j[i] == parts[0][i];
        } else if i > |parts[0]| {
          assert j[i] == rest[i - |parts[0]| - 1];
        }
      }
    }
  }

  lemma DottedDigitsAreInert(s: string)
    requires DottedDigits(s)
    ensures '/' !in s && '-' !in s && Trimmed(s) && !StartsWith(s, "#") && !StartsWith(s, "//")
  {
    forall i | 0 <= i < |s| ensures s[i] != '/' {
    }
    NetworkCharsAreInert(s);
  }

  /** Network text holds only digits, dots and slashes, and starts and ends
      with a digit. */
  predicate NetworkChars(s: string) {
    && s != [] && IsDigit(s[0]) && IsDigit(s[|s| - 1])
    && forall i :: 0 <= i < |s| ==> IsDigit(s[i]) || s[i] == '.' || s[i] == '/'
  }

  lemma DigitIsNotSpace(c: char)
    requires IsDigit(c)
    ensures !IsSpace(c)
  {
  }

  /** Such text has no dash, no surrounding whitespace, and is no comment. */
  lemma NetworkCharsAreInert(s: string)
    requires NetworkChars(s)
    ensures '-' !in s && Trimmed(s) && !StartsWith(s, "#") && !StartsWith(s, "//")
  {
    DigitIsNotSpace(s[0]);
    DigitIsNotSpace(s[|s| - 1]);
    forall i | 0 <= i < |s| ensures s[i] != '-' {
    }
    if StartsWith(s, "#") || StartsWith(s, "//") {
      assert false;
    }
  }

  /** An address, a slash and a decimal form network text. */
  lemma NetworkTextChars(x: string, y: string)
    requires DottedDigits(x) && y != [] && AllDigits(y)
    ensures NetworkChars(x + "/" + y)
  {
    var t := x + "/" + y;
    forall i | 0 <= i < |t| ensures IsDigit(t[i]) || t[i] == '.' || t[i] == '/' {
      if i < |x| {
        assert t[i] == x[i];
      } else if i > |x| {
        assert t[i] == y[i - |x| - 1];
      }
    }
    assert t[|t| - 1] == y[|y| - 1];
  }

  lemma AddressText(s: string)
    requires ParseAddress(s).Some?
    ensures DottedDigits(s)
    ensures '/' !in s && '-' !in s && Trimmed(s) && !StartsWith(s, "#") && !StartsWith(s, "//")
  {
    var a := ParseAddress(s).value;
    FormatParseAddress(s, a);
    var parts := [DecimalString(Octet(a, 0)), DecimalString(Octet(a, 1)),
                  DecimalString(Octet(a, 2)), DecimalString(Octet(a, 3))];
    assert s == Join(parts, '.');
    JoinOfNumerals(parts);
    DottedDigitsAreInert(s);
  }

  // ---------------------------------------------------------------------------
  // Networks

  /** An IPv4Network: its network address and its prefix length. */
  datatype Network = Network(base: Address, prefixLength: PrefixLength)

  /** num_addresses: 2 to the number of host bits. */
  function Size(n: Network): nat {
    Pow2(32 - n.prefixLength)
  }

  /** The base carries no host bits. */
  predicate Aligned(n: Network) {
    n.base % Size(n) == 0
  }

  /** a & netmask(p): the address with its 32 - p low (host) bits cleared,
      that is, rounded down to a multiple of 2^(32 - p). */
  function NetworkBase(a: Address, p: PrefixLength): (b: Address)
    ensures b % Pow2(32 - p) == 0
    ensures b <= a < b + Pow2(32 - p)
  {
    RoundDown(a, Pow2(32 - p));
    a - a % Pow2(32 - p)
  }

  /** The network of prefix length p that holds a: a & netmask(p), /p. */
  function Block(a: Address, p: PrefixLength): (n: Network)
    ensures n.prefixLength == p && Aligned(n)
    ensures n.base <= a < n.base + Size(n)
  {
    Network(NetworkBase(a, p), p)
  }

  /** list(network): every address of the block, ascending, from the network
      address to the broadcast address inclusive. */
  function Addresses(n: Network): (r: seq<Address>)
    requires Aligned(n)
    ensures |r| == Size(n) && StrictlyAscending(r)
  {
    AlignedBlockFits(n.base, 32 - n.prefixLength);
    seq(Size(n), i requires 0 <= i < Size(n) => (n.base + i) as Address)
  }

  /** The block holds exactly the addresses from the network address to the
      broadcast address, each once, ascending. */
  lemma AddressesMembers(n: Network)
    requires Aligned(n)
    ensures |Addresses(n)| == Size(n)
    ensures forall a: Address :: a in Addresses(n) <==> n.base <= a < n.base + Size(n)
    ensures Addresses(n)[0] == n.base && Addresses(n)[Size(n) - 1] == n.base + Size(n) - 1
  {
    var r := Addresses(n);
    forall a: Address | n.base <= a < n.base + Size(n) ensures a in r {
      assert r[a - n.base] == a;
    }
  }

  /** ipaddress's _prefix_from_prefix_string: a non-empty ASCII decimal
      whose value is at most 32 (leading zeros allowed). */
  function ParsePrefixLength(s: string): (r: Option<PrefixLength>)
    ensures r.Some? ==> ZerosThen(s, DecimalString(r.value))
  {
    if s != [] && AllDigits(s) && DecimalValue(s) <= 32 then
      ZerosThenNumeral(s);
      Some(DecimalValue(s))
    else None
  }

  /** str(p) of a prefix length is read back as p. */
  lemma ParsePrefixOfDecimal(p: PrefixLength)
    ensures ParsePrefixLength(DecimalString(p)) == Some(p)
  {
  }

  /** ip_network(s, strict=False) on IPv4 text: an address, optionally
      followed by one '/' and a prefix length (32 when absent); host bits
      set in the address are cleared instead of rejected. */
  function ParseNetwork(s: string): (r: Option<Network>)
    ensures r.Some? ==> Aligned(r.value)
  {
    var parts := Split(s, '/');
    if |parts| > 2 then None
    else
      match ParseAddress(parts[0])
      case None => None
      case Some(a) =>
        var prefix: Option<PrefixLength> := if |parts| == 1 then Some(32) else ParsePrefixLength(parts[1]);
        match prefix
        case None => None
        case Some(p) => Some(Block(a, p))
  }

  /** str(IPv4Network): the network address, '/', the prefix length. */
  function FormatNetwork(n: Network): (r: string)
    ensures NetworkChars(r)
  {
    var x, y := FormatAddress(n.base), DecimalString(n.prefixLength);
    NetworkTextChars(x, y);
    x + "/" + y
  }

  /** Non-strict parsing of `address/prefix`: the block is the one that
      contains the written address, whatever its host bits. */
  lemma ParseNetworkMasksHostBits(x: string, y: string, a: Address, p: PrefixLength)
    requires ParseAddress(x) == Some(a) && ParsePrefixLength(y) == Some(p)
    ensures ParseNetwork(x + "/" + y) == Some(Block(a, p))
  {
    AddressText(x);
    DigitsHaveNoSeparators(y);
    assert x + "/" + y == Join([x, y], '/');
    SplitJoin([x, y], '/');
  }

  /** A bare address is read as the /32 network holding just that address. */
  lemma ParseNetworkOfAddress(x: string, a: Address)
    requires ParseAddress(x) == Some(a)
    ensures ParseNetwork(x) == Some(Network(a, 32))
  {
    assert '/' !in x by {
      AddressText(x);
    }
    SplitWithoutSeparator(x, '/');
    assert NetworkBase(a, 32) == a by {
      assert Pow2(0) == 1;
    }
  }

  /** ip_network accepts nothing but the two forms above: a bare address,
      read as /32, or an address, one '/' and a prefix length, read as the
      block of that length holding the address. */
  lemma ParseNetworkShape(s: string, n: Network)
    requires ParseNetwork(s) == Some(n)
    ensures var parts := Split(s, '/');
      || ('/' !in s && ParseAddress(s) == Some(n.base) && n.prefixLength == 32)
      || (&& |parts| == 2 && s == parts[0] + "/" + parts[1] && '/' !in parts[0] && '/' !in parts[1]
          && ParseAddress(parts[0]).Some? && ParsePrefixLength(parts[1]) == Some(n.prefixLength)
          && n.base == NetworkBase(ParseAddress(parts[0]).value, n.prefixLength))
  {
    var parts := Split(s, '/');
    assert |parts| <= 2;
    var a := ParseAddress(parts[0]).value;
    JoinSplit(s, '/');
    if |parts| == 1 {
      assert s == parts[0];
      assert n == Block(a, 32);
      assert NetworkBase(a, 32) == a by {
        assert Pow2(0) == 1;
      }
    } else {
      assert ParsePrefixLength(parts[1]) == Some(n.prefixLength);
      assert n.base == NetworkBase(a, n.prefixLength);
      assert parts[1..] == [parts[1]];
      assert s == parts[0] + "/" + parts[1];
    }
  }

  /** Formatting then parsing gives an aligned network back. */
  lemma ParseFormatNetwork(n: Network)
    requires Aligned(n)
    ensures ParseNetwork(FormatNetwork(n)) == Some(n)
  {
    var x, y := FormatAddress(n.base), DecimalString(n.prefixLength);
    assert ParseAddress(x) == Some(n.base) by {
      ParseFormatAddress(n.base);
    }
    assert ParseNetwork(x + "/" + y) == Some(Block(n.base, n.prefixLength)) by {
      ParseNetworkMasksHostBits(x, y, n.base, n.prefixLength);
    }
    NetworkBaseOfAligned(n);
  }

  /** Masking an aligned base leaves it unchanged. */
  lemma NetworkBaseOfAligned(n: Network)
    requires Aligned(n)
    ensures NetworkBase(n.base, n.prefixLength) == n.base
  {
    assert n.base % Pow2(32 - n.prefixLength) == 0;
  }
}
