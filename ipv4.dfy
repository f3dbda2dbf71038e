/**
 * IPv4 addresses as the allow-list parser sees them: the two token shapes it
 * recognises (a strict dotted quad and a dotted quad with a "/n" prefix
 * length), addresses as 32-bit numbers, the dotted-quad form netaddr prints,
 * the block a CIDR names and the host addresses taken out of it.
 */
module Ipv4 {
  import opened Text

  /** An IPv4 address as an unsigned 32-bit number. */
  type Ip = x: int | 0 <= x < 0x1_0000_0000

  predicate IsDigit(c: char)
  {
    '0' <= c <= '9'
  }

  predicate IsDigits(s: string)
  {
    forall k | 0 <= k < |s| :: IsDigit(s[k])
  }

  function DigitChar(d: nat): (c: char)
    requires d < 10
    ensures IsDigit(c) && c as int - '0' as int == d
  {
    ('0' as int + d) as char
  }

  /** The number a run of decimal digits denotes (leading zeros allowed). */
  function DecimalValue(s: string): nat
    requires IsDigits(s)
  {
    if s == [] then 0 else DecimalValue(s[..|s| - 1]) * 10 + (s[|s| - 1] as int - '0' as int)
  }

  /** The decimal numeral of n < 256 without leading zeros, as Python's `str` prints it. */
  function Decimal(n: nat): (s: string)
    requires n < 256
  {
    if n < 10 then [DigitChar(n)]
    else if n < 100 then [DigitChar(n / 10), DigitChar(n % 10)]
    else [DigitChar(n / 100), DigitChar(n / 10 % 10), DigitChar(n % 10)]
  }

  /** One octet of the address pattern: `[0-9]|[1-9][0-9]|1[0-9]{2}|2[0-4][0-9]|25[0-5]`. */
  predicate IsOctetText(s: string)
  {
    || (|s| == 1 && IsDigit(s[0]))
    || (|s| == 2 && '1' <= s[0] <= '9' && IsDigit(s[1]))
    || (|s| == 3 && s[0] == '1' && IsDigit(s[1]) && IsDigit(s[2]))
    || (|s| == 3 && s[0] == '2' && '0' <= s[1] <= '4' && IsDigit(s[2]))
    || (|s| == 3 && s[0] == '2' && s[1] == '5' && '0' <= s[2] <= '5')
  }

  /** The prefix length of the CIDR pattern: `\d|[1-2]\d|3[0-2]`. */
  predicate IsPrefixText(s: string)
  {
    || (|s| == 1 && IsDigit(s[0]))
    || (|s| == 2 && '1' <= s[0] <= '2' && IsDigit(s[1]))
    || (|s| == 2 && s[0] == '3' && '0' <= s[1] <= '2')
  }

  lemma DecimalValueOfShort(s: string)
    requires IsDigits(s) && 1 <= |s| <= 3
    ensures |s| == 1 ==> DecimalValue(s) == s[0] as int - '0' as int
    ensures |s| == 2 ==> DecimalValue(s) == (s[0] as int - '0' as int) * 10 + (s[1] as int - '0' as int)
    ensures |s| == 3 ==> DecimalValue(s) == (s[0] as int - '0' as int) * 100
                                          + (s[1] as int - '0' as int) * 10 + (s[2] as int - '0' as int)
  {
    assert s[..|s| - 1][..0] == [];
    if |s| == 3 {
      assert s[..2][..1] == s[..1];
    }
  }

  /** An octet as the pattern accepts it is exactly the canonical numeral of a value below 256. */
  lemma OctetTextIsDecimal(s: string)
    requires IsOctetText(s)
    ensures IsDigits(s) && DecimalValue(s) < 256 && Decimal(DecimalValue(s)) == s
  {
    DecimalValueOfShort(s);
    ShortSeq(s);
    if |s| == 1 {
      OneDigitDecimal(DecimalValue(s), s[0]);
    } else if |s| == 2 {
      TwoDigitDecimal(DecimalValue(s), s[0], s[1]);
    } else {
      ThreeDigitDecimal(DecimalValue(s), s[0], s[1], s[2]);
    }
  }

  /** A string of one to three characters is the display of its characters. */
  lemma ShortSeq(s: string)
    ensures |s| == 1 ==> s == [s[0]]
    ensures |s| == 2 ==> s == [s[0], s[1]]
    ensures |s| == 3 ==> s == [s[0], s[1], s[2]]
  {
  }

  /** A digit is the character DigitChar gives for its value. */
  lemma DigitCharOf(c: char)
    requires IsDigit(c)
    ensures DigitChar(c as int - '0' as int) == c
  {
  }

  /** A single digit is the numeral of its value. */
  lemma OneDigitDecimal(v: nat, c0: char)
    requires IsDigit(c0) && v == c0 as int - '0' as int
    ensures v < 256 && Decimal(v) == [c0]
  {
    DigitCharOf(c0);
  }

  /** Two digits without a leading zero are the numeral of their value. */
  lemma TwoDigitDecimal(v: nat, c0: char, c1: char)
    requires '1' <= c0 <= '9' && IsDigit(c1)
    requires v == (c0 as int - '0' as int) * 10 + (c1 as int - '0' as int)
    ensures v < 256 && Decimal(v) == [c0, c1]
  {
    var d0, d1 := c0 as int - '0' as int, c1 as int - '0' as int;
    DigitCharOf(c0);
    DigitCharOf(c1);
    DivModByUnique(v, 10, d0, d1);
  }

  /** Three digits of an octet the pattern accepts are the numeral of their value, which is below 256. */
  lemma ThreeDigitDecimal(v: nat, c0: char, c1: char, c2: char)
    requires IsOctetText([c0, c1, c2])
    requires v == (c0 as int - '0' as int) * 100 + (c1 as int - '0' as int) * 10 + (c2 as int - '0' as int)
    ensures v < 256 && Decimal(v) == [c0, c1, c2]
  {
    var d0, d1, d2 := c0 as int - '0' as int, c1 as int - '0' as int, c2 as int - '0' as int;
    DigitCharOf(c0);
    DigitCharOf(c1);
    DigitCharOf(c2);
    DivModByUnique(v, 100, d0, d1 * 10 + d2);
    DivModByUnique(v, 10, d0 * 10 + d1, d2);
    DivModByUnique(d0 * 10 + d1, 10, d0, d1);
  }

  /** ... and every value below 256 prints as an octet the pattern accepts. */
  lemma DecimalIsOctetText(n: nat)
    requires n < 256
    ensures IsOctetText(Decimal(n)) && DecimalValue(Decimal(n)) == n
  {
    var s := Decimal(n);
    DecimalValueOfShort(s);
    if n >= 100 {
      var c := n % 10;
      var q := n / 10;
      var b := q % 10;
      DivModByUnique(n, 100, q / 10, b * 10 + c);
      assert s == [DigitChar(q / 10), DigitChar(b), DigitChar(c)];
    } else if n >= 10 {
      assert s == [DigitChar(n / 10), DigitChar(n % 10)];
    }
  }

  /**
   * The octet pattern accepts exactly the numerals `str` prints for 0..255,
   * so "01" (leading zero) and "256" (too large) are refused.
   */
  lemma OctetTextIsCanonical(s: string)
    ensures IsOctetText(s) <==> exists n | 0 <= n < 256 :: Decimal(n) == s
  {
    if IsOctetText(s) {
      OctetTextIsDecimal(s);
      assert Decimal(DecimalValue(s)) == s;
    }
    if exists n | 0 <= n < 256 :: Decimal(n) == s {
      var n :| 0 <= n < 256 && Decimal(n) == s;
      DecimalIsOctetText(n);
    }
  }

  /** A prefix length as the pattern accepts it is the canonical numeral of a value up to 32. */
  lemma PrefixTextIsDecimal(s: string)
    requires IsPrefixText(s)
    ensures IsDigits(s) && DecimalValue(s) <= 32 && Decimal(DecimalValue(s)) == s
  {
    DecimalValueOfShort(s);
  }

  /** ... and every value up to 32 prints as a prefix length the pattern accepts. */
  lemma DecimalIsPrefixText(n: nat)
    requires n <= 32
    ensures IsPrefixText(Decimal(n)) && DecimalValue(Decimal(n)) == n
  {
    DecimalValueOfShort(Decimal(n));
  }

  /**
   * The address pattern `^(O\.){3}O$` with O the octet pattern: four
   * dot-separated octets (an octet holds no dot, so splitting on dots
   * recovers them).
   */
  predicate IsIpv4Text(s: string)
  {
    var parts := Split(s, '.');
    |parts| == 4 && IsOctetText(parts[0]) && IsOctetText(parts[1])
    && IsOctetText(parts[2]) && IsOctetText(parts[3])
  }

  /**
   * The CIDR pattern `^(O\.){3}O(\/(\d|[1-2]\d|3[0-2]))$`: an address, a
   * slash and a prefix length (neither side holds a slash).
   */
  predicate IsCidrText(s: string)
  {
    var parts := Split(s, '/');
    |parts| == 2 && IsIpv4Text(parts[0]) && IsPrefixText(parts[1])
  }

  function OctetsToIp(a: nat, b: nat, c: nat, d: nat): Ip
    requires a < 256 && b < 256 && c < 256 && d < 256
  {
    a * 0x100_0000 + b * 0x1_0000 + c * 0x100 + d
  }

  /** The four octets of x, most significant first. */
  function Octets(x: Ip): (o: seq<nat>)
    ensures |o| == 4 && o[0] < 256 && o[1] < 256 && o[2] < 256 && o[3] < 256
    ensures OctetsToIp(o[0], o[1], o[2], o[3]) == x
  {
    var q1 := x / 256;
    var q2 := q1 / 256;
    assert x == 256 * q1 + x % 256;
    assert q1 == 256 * q2 + q1 % 256;
    assert q2 == 256 * (q2 / 256) + q2 % 256;
    [q2 / 256, q2 % 256, q1 % 256, x % 256]
  }

  lemma OctetsOfOctetsToIp(a: nat, b: nat, c: nat, d: nat)
    requires a < 256 && b < 256 && c < 256 && d < 256
    ensures Octets(OctetsToIp(a, b, c, d)) == [a, b, c, d]
  {
    var x := OctetsToIp(a, b, c, d);
    DivModByUnique(x, 256, a * 0x1_0000 + b * 0x100 + c, d);
    DivModByUnique(a * 0x1_0000 + b * 0x100 + c, 256, a * 0x100 + b, c);
    DivModByUnique(a * 0x100 + b, 256, a, b);
  }

  /** Euclidean division is determined by its quotient and remainder. */
  lemma DivModByUnique(x: int, k: int, q: int, r: int)
    requires 0 < k && 0 <= r < k && x == q * k + r
    ensures x / k == q && x % k == r
  {
    var d := x / k - q;
    assert d * k == r - x % k;
    if d > 0 {
      MulAtLeast(d, k);
    } else if d < 0 {
      MulAtLeast(-d, k);
    }
  }

  lemma MulAtLeast(d: int, k: int)
    requires d >= 1 && k >= 0
    ensures d * k >= k
  {
    assert d * k == (d - 1) * k + k;
  }

  /** Dotted-quad text of x, as netaddr's `IPAddress.format()` gives it. */
  function Format(x: Ip): string
  {
    var o := Octets(x);
    Join([Decimal(o[0]), Decimal(o[1]), Decimal(o[2]), Decimal(o[3])], '.')
  }

  /** The address a dotted-quad token denotes. */
  function Parse(s: string): Ip
    requires IsIpv4Text(s)
  {
    var parts := Split(s, '.');
    OctetTextIsDecimal(parts[0]);
    OctetTextIsDecimal(parts[1]);
    OctetTextIsDecimal(parts[2]);
    OctetTextIsDecimal(parts[3]);
    OctetsToIp(DecimalValue(parts[0]), DecimalValue(parts[1]), DecimalValue(parts[2]), DecimalValue(parts[3]))
  }

  /** Formatting always gives text the address pattern accepts, and parsing it back gives x. */
  lemma FormatParse(x: Ip)
    ensures IsIpv4Text(Format(x)) && Parse(Format(x)) == x
  {
    var o := Octets(x);
    var parts := [Decimal(o[0]), Decimal(o[1]), Decimal(o[2]), Decimal(o[3])];
    DecimalIsOctetText(o[0]);
    DecimalIsOctetText(o[1]);
    DecimalIsOctetText(o[2]);
    DecimalIsOctetText(o[3]);
    forall i | 0 <= i < 4 ensures '.' !in parts[i] {
      OctetTextHasNoSeparator(parts[i], '.');
    }
    SplitJoin(parts, '.');
    assert Split(Format(x), '.') == parts;
  }

  lemma OctetTextHasNoSeparator(s: string, sep: char)
    requires IsOctetText(s) && !IsDigit(sep)
    ensures sep !in s
  {
  }

  /** Text the address pattern accepts is already in the formatter's canonical form. */
  lemma ParseFormat(s: string)
    requires IsIpv4Text(s)
    ensures Format(Parse(s)) == s
  {
    var parts := Split(s, '.');
    SplitParts(s, '.');
    OctetTextIsDecimal(parts[0]);
    OctetTextIsDecimal(parts[1]);
    OctetTextIsDecimal(parts[2]);
    OctetTextIsDecimal(parts[3]);
    var a, b, c, d := DecimalValue(parts[0]), DecimalValue(parts[1]), DecimalValue(parts[2]), DecimalValue(parts[3]);
    OctetsOfOctetsToIp(a, b, c, d);
    assert Octets(Parse(s)) == [a, b, c, d];
    assert parts == [Decimal(a), Decimal(b), Decimal(c), Decimal(d)];
  }

  /**
   * The address pattern accepts exactly the dotted quads netaddr prints:
   * four octets, no leading zeros, nothing around them ("1.2.3" and
   * "01.2.3.4" are refused).
   */
  lemma Ipv4TextIsCanonical(s: string)
    ensures IsIpv4Text(s) <==> exists x: Ip :: Format(x) == s
  {
    if IsIpv4Text(s) {
      ParseFormat(s);
      assert Format(Parse(s)) == s;
    }
    if exists x: Ip :: Format(x) == s {
      var x: Ip :| Format(x) == s;
      FormatParse(x);
    }
  }

  /** Distinct addresses print differently. */
  lemma FormatInjective(x: Ip, y: Ip)
    ensures Format(x) == Format(y) <==> x == y
  {
    FormatParse(x);
    FormatParse(y);
  }

  function Pow2(n: nat): (p: nat)
    ensures p >= 1
  {
    if n == 0 then 1 else 2 * Pow2(n - 1)
  }

  lemma Pow2Values()
    ensures Pow2(8) == 256 && Pow2(32) == 0x1_0000_0000
  {
    Pow2Plus8(8);
    Pow2Plus8(16);
    Pow2Plus8(24);
  }

  /** The address written before the slash of a CIDR token. */
  function CidrAddress(cidr: string): Ip
    requires IsCidrText(cidr)
  {
    Parse(Split(cidr, '/')[0])
  }

  /** The prefix length written after the slash of a CIDR token; at most 32. */
  function CidrPrefix(cidr: string): (n: nat)
    requires IsCidrText(cidr)
    ensures n <= 32
  {
    var digits := Split(cidr, '/')[1];
    PrefixTextIsDecimal(digits);
    DecimalValue(digits)
  }

  /** x with its low k bits set to zero (an `and` with a mask of 32 - k leading ones). */
  function ClearLowBits(x: nat, k: nat): nat
  {
    if k == 0 then x else 2 * ClearLowBits(x / 2, k - 1)
  }

  /** Clearing k bits goes down to a multiple of 2^k at most 2^k - 1 below x, inside the range of x. */
  lemma {:induction false} ClearLowBitsBounds(x: nat, k: nat, m: nat)
    requires x < Pow2(m) && k <= m
    ensures ClearLowBits(x, k) <= x < ClearLowBits(x, k) + Pow2(k) <= Pow2(m)
  {
    if k > 0 {
      ClearLowBitsBounds(x / 2, k - 1, m - 1);
    }
  }

  /** Every address between the cleared value and the next multiple of 2^k clears to the same value. */
  lemma {:induction false} ClearLowBitsOfNeighbour(x: nat, y: nat, k: nat)
    requires ClearLowBits(x, k) <= y < ClearLowBits(x, k) + Pow2(k)
    ensures ClearLowBits(y, k) == ClearLowBits(x, k)
  {
    if k > 0 {
      ClearLowBitsOfNeighbour(x / 2, y / 2, k - 1);
    }
  }

  /** With at least j bits cleared, the value is a multiple of 2^j. */
  lemma {:induction false} ClearLowBitsMultiple(x: nat, k: nat, j: nat)
    requires j <= k
    ensures ClearLowBits(x, k) % Pow2(j) == 0
  {
    if j > 0 {
      ClearLowBitsMultiple(x / 2, k - 1, j - 1);
      DoubleMultiple(ClearLowBits(x / 2, k - 1), Pow2(j - 1));
    }
  }

  lemma DoubleMultiple(h: nat, p: nat)
    requires p >= 1 && h % p == 0
    ensures (2 * h) % (2 * p) == 0
  {
    var q := h / p;
    assert h == p * q;
    assert 2 * h == (2 * p) * q;
    DivModByUnique(2 * h, 2 * p, q, 0);
  }

  /** The number of addresses in a block with prefix length n: 2^(32 - n). */
  function BlockSize(n: nat): (size: nat)
    requires n <= 32
    ensures size >= 1
  {
    Pow2(32 - n)
  }

  /** The first address of the /n block holding x (netaddr's `first`): x with its low 32 - n bits cleared. */
  function NetworkAddress(x: Ip, n: nat): (first: Ip)
    requires n <= 32
    ensures first <= x < first + BlockSize(n) <= 0x1_0000_0000
  {
    Pow2Values();
    ClearLowBitsBounds(x, 32 - n, 32);
    ClearLowBits(x, 32 - n)
  }

  /** y lies in the /n block of x: both agree on their first n bits. */
  predicate InBlock(y: Ip, x: Ip, n: nat)
    requires n <= 32
  {
    ClearLowBits(y, 32 - n) == ClearLowBits(x, 32 - n)
  }

  /** The block of x is the range from its network address to its broadcast address. */
  lemma InBlockIsRange(y: Ip, x: Ip, n: nat)
    requires n <= 32
    ensures InBlock(y, x, n) <==> NetworkAddress(x, n) <= y < NetworkAddress(x, n) + BlockSize(n)
  {
    Pow2Values();
    ClearLowBitsBounds(y, 32 - n, 32);
    if NetworkAddress(x, n) <= y < NetworkAddress(x, n) + BlockSize(n) {
      ClearLowBitsOfNeighbour(x, y, 32 - n);
    }
  }

  /** Whether the expansion keeps x: its last octet is neither 0 nor 255. */
  predicate IsHostAddress(x: Ip)
  {
    x % 256 != 0 && x % 256 != 255
  }

  /**
   * The addresses in [lo, hi) whose last octet is neither 0 nor 255, in the
   * order netaddr enumerates a block: ascending.
   */
  function HostsBetween(lo: int, hi: int): seq<Ip>
    requires 0 <= lo <= hi <= 0x1_0000_0000
    decreases hi - lo
  {
    if lo == hi then []
    else
      var x: Ip := hi - 1;
      HostsBetween(lo, x) + if IsHostAddress(x) then [x] else []
  }

  /** Every listed address lies in [lo, hi) and is a host address, and the list strictly ascends. */
  lemma {:induction false} HostsBetweenAscending(lo: int, hi: int)
    requires 0 <= lo <= hi <= 0x1_0000_0000
    ensures forall i | 0 <= i < |HostsBetween(lo, hi)| ::
      lo <= HostsBetween(lo, hi)[i] < hi && IsHostAddress(HostsBetween(lo, hi)[i])
    ensures forall i, j | 0 <= i < j < |HostsBetween(lo, hi)| :: HostsBetween(lo, hi)[i] < HostsBetween(lo, hi)[j]
    decreases hi - lo
  {
    if lo < hi {
      HostsBetweenAscending(lo, hi - 1);
    }
  }

  /** An address is listed exactly when it lies in [lo, hi) and its last octet is neither 0 nor 255. */
  lemma {:induction false} HostsBetweenMembers(lo: int, hi: int, y: Ip)
    requires 0 <= lo <= hi <= 0x1_0000_0000
    ensures y in HostsBetween(lo, hi) <==> lo <= y < hi && IsHostAddress(y)
    decreases hi - lo
  {
    if lo < hi {
      HostsBetweenMembers(lo, hi - 1, y);
    }
  }

  lemma {:induction false} HostsBetweenSplit(lo: int, mid: int, hi: int)
    requires 0 <= lo <= mid <= hi <= 0x1_0000_0000
    ensures HostsBetween(lo, hi) == HostsBetween(lo, mid) + HostsBetween(mid, hi)
    decreases hi - mid
  {
    if mid < hi {
      HostsBetweenSplit(lo, mid, hi - 1);
    }
  }

  /** Inside one run of 256 addresses starting at a .0 address, the first k give k - 1 hosts. */
  lemma {:induction false} HostsInRun(a: int, k: int)
    requires 0 <= a && a % 256 == 0 && 1 <= k <= 255 && a + k <= 0x1_0000_0000
    ensures |HostsBetween(a, a + k)| == k - 1
  {
    if k == 1 {
      assert HostsBetween(a, a + 1) == HostsBetween(a, a) + [];
    } else {
      var x := a + k - 1;
      assert HostsBetween(a, a + k) == HostsBetween(a, x) + [x] by {
        assert x % 256 == k - 1;
      }
      HostsInRun(a, k - 1);
    }
  }

  /** A run of 256 addresses starting at a .0 address gives 254 hosts. */
  lemma HostsInRunOf256(a: int)
    requires 0 <= a && a % 256 == 0 && a + 256 <= 0x1_0000_0000
    ensures |HostsBetween(a, a + 256)| == 254
  {
    assert HostsBetween(a, a + 256) == HostsBetween(a, a + 255) by {
      assert !IsHostAddress(a + 255);
    }
    HostsInRun(a, 255);
  }

  /** m consecutive runs of 256 starting at a .0 address give 254 * m hosts. */
  lemma {:induction false} HostsInRuns(a: int, hi: int, m: nat)
    requires 0 <= a && a % 256 == 0 && hi == a + 256 * m <= 0x1_0000_0000
    ensures |HostsBetween(a, hi)| == 254 * m
  {
    if m > 0 {
      var b := hi - 256;
      HostsBetweenSplitLength(a, b, hi);
      HostsInRuns(a, b, m - 1);
      HostsInRunOf256(b);
    }
  }

  lemma HostsBetweenSplitLength(lo: int, mid: int, hi: int)
    requires 0 <= lo <= mid <= hi <= 0x1_0000_0000
    ensures |HostsBetween(lo, hi)| == |HostsBetween(lo, mid)| + |HostsBetween(mid, hi)|
  {
    HostsBetweenSplit(lo, mid, hi);
  }

  /** Each address of xs in dotted-quad form, in the same order. */
  function FormatAll(xs: seq<Ip>): (r: seq<string>)
    ensures |r| == |xs|
  {
    if xs == [] then [] else FormatAll(xs[..|xs| - 1]) + [Format(xs[|xs| - 1])]
  }

  /** FormatAll writes each address of the list as a dotted quad, in place. */
  lemma {:induction false} FormatAllElements(xs: seq<Ip>)
    ensures forall i | 0 <= i < |xs| :: FormatAll(xs)[i] == Format(xs[i])
  {
    if xs != [] {
      var init := xs[..|xs| - 1];
      FormatAllElements(init);
      assert forall i | 0 <= i < |init| :: init[i] == xs[i];
    }
  }

  /**
   * The expansion of the /n block holding x, as dotted quads: every address
   * from the network address up to the broadcast address, leaving out those
   * whose last octet is 0 or 255.
   */
  function BlockHosts(x: Ip, n: nat): seq<string>
    requires n <= 32
  {
    var first := NetworkAddress(x, n);
    RangeHosts(first, first + BlockSize(n))
  }

  /** The dotted quads of the host addresses from lo up to (not including) hi, in ascending order. */
  function RangeHosts(lo: int, hi: int): seq<string>
    requires 0 <= lo <= hi <= 0x1_0000_0000
  {
    FormatAll(HostsBetween(lo, hi))
  }

  /** The expansion of the block a CIDR token names. */
  function CidrHosts(cidr: string): seq<string>
    requires IsCidrText(cidr)
  {
    BlockHosts(CidrAddress(cidr), CidrPrefix(cidr))
  }

  lemma FormatAllMembers(xs: seq<Ip>, y: Ip)
    ensures Format(y) in FormatAll(xs) <==> y in xs
  {
    FormatAllElements(xs);
    if Format(y) in FormatAll(xs) {
      var i :| 0 <= i < |xs| && FormatAll(xs)[i] == Format(y);
      FormatInjective(xs[i], y);
    }
    if y in xs {
      var i :| 0 <= i < |xs| && xs[i] == y;
      assert FormatAll(xs)[i] == Format(y);
    }
  }

  /**
   * The expansion holds the dotted quad of an address exactly when the
   * address is in the block and its last octet is neither 0 nor 255.
   */
  lemma CidrHostsMembers(cidr: string, y: Ip)
    requires IsCidrText(cidr)
    ensures Format(y) in CidrHosts(cidr) <==> InBlock(y, CidrAddress(cidr), CidrPrefix(cidr)) && IsHostAddress(y)
  {
    BlockHostsMembers(CidrAddress(cidr), CidrPrefix(cidr), y);
  }

  lemma BlockHostsMembers(x: Ip, n: nat, y: Ip)
    requires n <= 32
    ensures Format(y) in BlockHosts(x, n) <==> InBlock(y, x, n) && IsHostAddress(y)
  {
    var first := NetworkAddress(x, n);
    var last := first + BlockSize(n);
    var hosts := HostsBetween(first, last);
    var listed := Format(y) in BlockHosts(x, n);
    assert listed <==> y in hosts by {
      FormatAllMembers(hosts, y);
    }
    assert y in hosts <==> first <= y < last && IsHostAddress(y) by {
      HostsBetweenMembers(first, last, y);
    }
    assert InBlock(y, x, n) <==> first <= y < last by {
      InBlockIsRange(y, x, n);
    }
  }

  /**
   * Every string of the expansion is a dotted quad the address pattern
   * accepts, and the addresses strictly ascend.
   */
  lemma CidrHostsAscending(cidr: string)
    requires IsCidrText(cidr)
    ensures forall i | 0 <= i < |CidrHosts(cidr)| :: IsIpv4Text(CidrHosts(cidr)[i])
    ensures forall i, j | 0 <= i < j < |CidrHosts(cidr)| :: Parse(CidrHosts(cidr)[i]) < Parse(CidrHosts(cidr)[j])
  {
    BlockHostsAscending(CidrAddress(cidr), CidrPrefix(cidr));
  }

  lemma BlockHostsAscending(x: Ip, n: nat)
    requires n <= 32
    ensures forall i | 0 <= i < |BlockHosts(x, n)| :: IsIpv4Text(BlockHosts(x, n)[i])
    ensures forall i, j | 0 <= i < j < |BlockHosts(x, n)| :: Parse(BlockHosts(x, n)[i]) < Parse(BlockHosts(x, n)[j])
  {
    var first := NetworkAddress(x, n);
    HostsBetweenAscending(first, first + BlockSize(n));
    FormatAllAscending(HostsBetween(first, first + BlockSize(n)));
  }

  /** Formatting an ascending list of addresses gives dotted quads whose addresses ascend. */
  lemma FormatAllAscending(xs: seq<Ip>)
    requires forall i, j | 0 <= i < j < |xs| :: xs[i] < xs[j]
    ensures forall i | 0 <= i < |xs| :: IsIpv4Text(FormatAll(xs)[i])
    ensures forall i, j | 0 <= i < j < |xs| :: Parse(FormatAll(xs)[i]) < Parse(FormatAll(xs)[j])
  {
    FormatAllElements(xs);
    forall i | 0 <= i < |xs| ensures IsIpv4Text(FormatAll(xs)[i]) && Parse(FormatAll(xs)[i]) == xs[i] {
      FormatParse(xs[i]);
    }
  }

  /** A /32 block is its one address, kept only when its last octet is neither 0 nor 255. */
  lemma SingleAddressBlock(x: Ip)
    ensures BlockHosts(x, 32) == if IsHostAddress(x) then [Format(x)] else []
  {
    assert ClearLowBits(x, 0) == x;
    assert BlockSize(32) == 1;
    assert HostsBetween(x, x) == [];
    assert HostsBetween(x, x + 1) == if IsHostAddress(x) then [x] else [];
    assert FormatAll([x]) == [Format(x)] by {
      assert [x][..0] == [];
    }
  }

  /** A block of prefix length n <= 24 loses two addresses in every 256: it yields 254 * 2^(24 - n). */
  lemma CidrHostsCount(cidr: string)
    requires IsCidrText(cidr) && CidrPrefix(cidr) <= 24
    ensures |CidrHosts(cidr)| == 254 * Pow2(24 - CidrPrefix(cidr))
  {
    BlockHostsCount(CidrAddress(cidr), CidrPrefix(cidr));
  }

  lemma BlockHostsCount(x: Ip, n: nat)
    requires n <= 24
    ensures |BlockHosts(x, n)| == 254 * Pow2(24 - n)
  {
    var first := NetworkAddress(x, n);
    var m := Pow2(24 - n);
    Pow2Plus8(24 - n);
    ClearLowBitsByte(x, 32 - n);
    HostsInRuns(first, first + BlockSize(n), m);
  }

  lemma {:induction false} Pow2Plus8(k: nat)
    ensures Pow2(k + 8) == 256 * Pow2(k)
  {
    if k == 0 {
      assert Pow2(2) == 4;
      assert Pow2(4) == 16;
    } else {
      Pow2Plus8(k - 1);
    }
  }

  /** With at least 8 bits cleared, the last octet is 0. */
  lemma ClearLowBitsByte(x: nat, k: nat)
    requires k >= 8
    ensures ClearLowBits(x, k) % 256 == 0
  {
    ClearLowBitsMultiple(x, k, 8);
    Pow2Values();
  }
}
