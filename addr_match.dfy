/**
 * `check4AddrMatch` and `IPCheck`: does an IPv4 address belong to a banned
 * address or network, the network given with a dotted netmask or with a
 * CIDR prefix length (section 3.1 of RFC 4632).
 *
 * Addresses are the non-negative integers below 2^32 that `ip2long`
 * returns on a 64-bit build.
 */
module AddrMatch {
  import opened Wrappers
  import opened Text

  const Two32: nat := 0x1_0000_0000

  /** One part of a dotted quad as `ip2long` accepts it: a canonical decimal of at most 255. */
  predicate IsOctet(t: string) {
    Canonical(t) && DecimalValue(t) <= 255
  }

  function Pack(a: nat, b: nat, c: nat, d: nat): (x: nat)
    requires a < 256 && b < 256 && c < 256 && d < 256
    ensures x < Two32
  {
    ((a * 256 + b) * 256 + c) * 256 + d
  }

  /** The `k`-th octet of an address, counting from the least significant. */
  function OctetOf(x: nat, k: nat): (o: nat)
    requires k < 4
    ensures o < 256
  {
    if k == 3 then x / 256 / 256 / 256 % 256
    else if k == 2 then x / 256 / 256 % 256
    else if k == 1 then x / 256 % 256
    else x % 256
  }

  predicate IsDottedQuad(parts: seq<string>) {
    |parts| == 4 && IsOctet(parts[0]) && IsOctet(parts[1]) && IsOctet(parts[2]) && IsOctet(parts[3])
  }

  function PackParts(parts: seq<string>): nat
    requires IsDottedQuad(parts)
  {
    Pack(DecimalValue(parts[0]), DecimalValue(parts[1]), DecimalValue(parts[2]), DecimalValue(parts[3]))
  }

  /**
   * `ip2long($s)`: four octets separated by dots, read big-endian; anything
   * else is `false` (None).
   */
  function Ip2Long(s: string): (r: Option<nat>)
    ensures r.Some? ==> r.value < Two32
  {
    var parts := Explode('.', s);
    if IsDottedQuad(parts) then Some(PackParts(parts)) else None
  }

  function Numerals(x: nat): seq<string> {
    [NatToDecimal(OctetOf(x, 3)), NatToDecimal(OctetOf(x, 2)),
     NatToDecimal(OctetOf(x, 1)), NatToDecimal(OctetOf(x, 0))]
  }

  /** `long2ip($x)`: the dotted quad of the low 32 bits of a value. */
  function Long2Ip(x: nat): string {
    Implode(".", Numerals(x))
  }

  lemma PackOctets(x: nat)
    requires x < Two32
    ensures Pack(OctetOf(x, 3), OctetOf(x, 2), OctetOf(x, 1), OctetOf(x, 0)) == x
  {
    var x1 := x / 256;
    var x2 := x1 / 256;
    var x3 := x2 / 256;
    assert x3 < 256;
    assert x == ((x3 * 256 + x2 % 256) * 256 + x1 % 256) * 256 + x % 256;
  }

  lemma OctetsOfPack(a: nat, b: nat, c: nat, d: nat)
    requires a < 256 && b < 256 && c < 256 && d < 256
    ensures var x := Pack(a, b, c, d);
            OctetOf(x, 3) == a && OctetOf(x, 2) == b && OctetOf(x, 1) == c && OctetOf(x, 0) == d
  {
    var x := Pack(a, b, c, d);
    ModUnique(x, 256, (a * 256 + b) * 256 + c, d);
    ModUnique(x / 256, 256, a * 256 + b, c);
    ModUnique(x / 256 / 256, 256, a, b);
    ModUnique(x / 256 / 256 / 256, 256, 0, a);
  }

  lemma OctetNumeral(o: nat)
    requires o < 256
    ensures '.' !in NatToDecimal(o)
    ensures IsOctet(NatToDecimal(o))
    ensures DecimalValue(NatToDecimal(o)) == o
  {
    var t := NatToDecimal(o);
    assert forall i :: 0 <= i < |t| ==> t[i] != '.';
    DecimalRoundTrip(o);
  }

  lemma NumeralsAreQuad(x: nat)
    requires x < Two32
    ensures IsDottedQuad(Numerals(x))
    ensures forall i :: 0 <= i < 4 ==> '.' !in Numerals(x)[i]
    ensures PackParts(Numerals(x)) == x
  {
    OctetNumeral(OctetOf(x, 3));
    OctetNumeral(OctetOf(x, 2));
    OctetNumeral(OctetOf(x, 1));
    OctetNumeral(OctetOf(x, 0));
    PackOctets(x);
  }

  /** Every address survives `long2ip` then `ip2long`. */
  lemma Long2IpRoundTrip(x: nat)
    requires x < Two32
    ensures Ip2Long(Long2Ip(x)) == Some(x)
  {
    NumeralsAreQuad(x);
    ExplodeImplode('.', Numerals(x));
  }

  lemma QuadNumerals(parts: seq<string>)
    requires IsDottedQuad(parts)
    ensures Numerals(PackParts(parts)) == parts
  {
    OctetsOfPack(DecimalValue(parts[0]), DecimalValue(parts[1]), DecimalValue(parts[2]), DecimalValue(parts[3]));
    CanonicalRoundTrip(parts[0]);
    CanonicalRoundTrip(parts[1]);
    CanonicalRoundTrip(parts[2]);
    CanonicalRoundTrip(parts[3]);
  }

  /** Every string `ip2long` accepts is the `long2ip` form of its value. */
  lemma Ip2LongRoundTrip(s: string)
    requires Ip2Long(s).Some?
    ensures Long2Ip(Ip2Long(s).value) == s
  {
    QuadNumerals(Explode('.', s));
    ImplodeExplode('.', s);
  }

  // ---------------------------------------------------------------------
  // Bitwise and

  function Pow2(n: nat): (r: nat)
    ensures r >= 1
  {
    if n == 0 then 1 else 2 * Pow2(n - 1)
  }

  /** PHP's `&` on two non-negative integers, bit by bit from the least significant. */
  function And(x: nat, y: nat): nat
    decreases x
  {
    if x == 0 || y == 0 then 0
    else 2 * And(x / 2, y / 2) + (if x % 2 == 1 && y % 2 == 1 then 1 else 0)
  }

  lemma {:induction false} Pow2Grows(k: nat, n: nat)
    requires k < n
    ensures Pow2(k) < Pow2(n)
  {
    if k < n - 1 {
      Pow2Grows(k, n - 1);
    }
  }

  lemma ModUnique(x: int, d: int, q: int, r: int)
    requires d > 0 && x == d * q + r && 0 <= r < d
    ensures x % d == r && x / d == q
  {
    var q', r' := x / d, x % d;
    assert d * q' + r' == d * q + r;
    var t := q - q';
    assert d * t == r' - r by {
      assert d * q - d * q' == d * (q - q');
    }
    if t >= 1 {
      MulAtLeast(d, t);
    } else if t <= -1 {
      MulAtLeast(d, -t);
    }
  }

  lemma MulAtLeast(d: int, t: int)
    requires d > 0 && t >= 1
    ensures d * t >= d
  {
    assert d * t == d + d * (t - 1);
  }

  lemma {:induction false} AndAllOnes(x: nat, n: nat)
    requires x < Pow2(n)
    ensures And(x, Pow2(n) - 1) == x
  {
    if x != 0 {
      assert n > 0;
      AndAllOnes(x / 2, n - 1);
      assert (Pow2(n) - 1) / 2 == Pow2(n - 1) - 1;
      assert (Pow2(n) - 1) % 2 == 1;
    }
  }

  lemma DivMod2(x: nat, k: nat)
    requires k > 0
    ensures x % Pow2(k) == 2 * ((x / 2) % Pow2(k - 1)) + x % 2
  {
    var p := Pow2(k - 1);
    var q := (x / 2) / p;
    var r := (x / 2) % p;
    assert x / 2 == p * q + r;
    assert x == (2 * p) * q + (2 * r + x % 2);
    ModUnique(x, 2 * p, q, 2 * r + x % 2);
  }

  /** and-ing an n-bit value with the mask of its leading n - k bits clears the trailing k bits. */
  lemma {:induction false} AndHighMask(x: nat, n: nat, k: nat)
    requires k <= n && x < Pow2(n)
    ensures Pow2(k) <= Pow2(n)
    ensures And(x, Pow2(n) - Pow2(k)) == x - x % Pow2(k)
  {
    if k == n {
      AndEmptyMask(x, n);
    } else if k == 0 {
      AndFullMask(x, n, k);
    } else if x == 0 {
      Pow2Grows(k, n);
    } else {
      HalveBound(x, n);
      AndHighMask(x / 2, n - 1, k - 1);
      AndHighMaskStep(x, n, k);
    }
  }

  lemma HalveBound(x: nat, n: nat)
    requires 0 < n && x < Pow2(n)
    ensures x / 2 < Pow2(n - 1)
  {
  }

  lemma AndHighMaskStep(x: nat, n: nat, k: nat)
    requires 0 < k < n && 0 < x < Pow2(n)
    requires Pow2(k - 1) <= Pow2(n - 1)
    requires And(x / 2, Pow2(n - 1) - Pow2(k - 1)) == x / 2 - (x / 2) % Pow2(k - 1)
    ensures Pow2(k) <= Pow2(n)
    ensures And(x, Pow2(n) - Pow2(k)) == x - x % Pow2(k)
  {
    Pow2Grows(k, n);
    HalveMask(x, n, k);
    HalveCleared(x, k);
  }

  lemma AndEmptyMask(x: nat, n: nat)
    requires x < Pow2(n)
    ensures And(x, Pow2(n) - Pow2(n)) == x - x % Pow2(n)
  {
    ModUnique(x, Pow2(n), 0, x);
  }

  lemma AndFullMask(x: nat, n: nat, k: nat)
    requires k == 0 < n && x < Pow2(n)
    ensures Pow2(k) < Pow2(n)
    ensures And(x, Pow2(n) - Pow2(k)) == x - x % Pow2(k)
  {
    Pow2Grows(k, n);
    AndAllOnes(x, n);
  }

  /** Clearing the trailing k bits of x doubles the result of clearing the trailing k - 1 bits of x / 2. */
  lemma HalveCleared(x: nat, k: nat)
    requires k > 0
    ensures 2 * (x / 2 - (x / 2) % Pow2(k - 1)) == x - x % Pow2(k)
  {
    DivMod2(x, k);
    DoubleCleared(x, (x / 2) % Pow2(k - 1), x % Pow2(k));
  }

  lemma DoubleCleared(x: nat, r: int, s: int)
    requires s == 2 * r + x % 2
    ensures 2 * (x / 2 - r) == x - s
  {
  }

  lemma HalveMask(x: nat, n: nat, k: nat)
    requires 0 < k < n && 0 < x < Pow2(n)
    requires Pow2(k) < Pow2(n)
    ensures x / 2 < Pow2(n - 1)
    ensures And(x, Pow2(n) - Pow2(k)) == 2 * And(x / 2, Pow2(n - 1) - Pow2(k - 1))
  {
    var m := Pow2(n) - Pow2(k);
    var h := Pow2(n - 1) - Pow2(k - 1);
    assert m == 2 * h;
    assert m / 2 == h && m % 2 == 0;
  }

  /** Two values agree once their trailing k bits are cleared exactly when they agree once those bits are shifted out. */
  lemma ClearedAgree(x: nat, y: nat, k: nat)
    ensures (x - x % Pow2(k) == y - y % Pow2(k)) <==> (x / Pow2(k) == y / Pow2(k))
  {
    var p := Pow2(k);
    assert x - x % p == p * (x / p);
    assert y - y % p == p * (y / p);
    if p * (x / p) == p * (y / p) {
      ModUnique(p * (x / p), p, x / p, 0);
      ModUnique(p * (y / p), p, y / p, 0);
    }
  }

  lemma {:induction false} Pow2Add(a: nat, b: nat)
    ensures Pow2(a + b) == Pow2(a) * Pow2(b)
  {
    if a > 0 {
      Pow2Add(a - 1, b);
    }
  }

  lemma Pow2Of32()
    ensures Pow2(32) == Two32
  {
    assert Pow2(2) == 4;
    Pow2Add(2, 2);
    Pow2Add(4, 4);
    Pow2Add(8, 8);
    Pow2Add(16, 16);
  }

  // ---------------------------------------------------------------------
  // check4AddrMatch

  /**
   * The low 32 bits of `0xffffffff << (32 - $prefix)`: the addresses it is
   * and-ed with have no higher bits. A shift count of 32 or more leaves no
   * low bits. A negative shift count has no defined result in PHP 5 (PHP 7
   * raises an ArithmeticError): the model gives None.
   */
  function CidrMask(prefix: int): (r: Option<nat>)
    ensures r.Some? ==> r.value < Two32
  {
    var k := 32 - prefix;
    Pow2Of32();
    if k < 0 then None
    else if k >= 32 then Some(0)
    else Pow2Grows(k, 32); Some(Pow2(32) - Pow2(k))
  }

  /** What `ip2long` gives check4AddrMatch to compare: PHP's `false` acts as 0 in `==` and `&`. */
  function LongOrZero(s: string): (x: nat)
    ensures x < Two32
  {
    match Ip2Long(s)
    case Some(x) => x
    case None => 0
  }

  /**
   * The netmask for the text after "/": the dotted netmask when it reads back
   * through `long2ip` unchanged, otherwise a CIDR prefix length: the
   * text's leading integer, as `(int)` reads it.
   */
  function Netmask(maskText: string): Option<nat> {
    var x := LongOrZero(maskText);
    if Long2Ip(x) == maskText then Some(x) else CidrMask(LeadingInt(maskText))
  }

  /**
   * `check4AddrMatch($ip, $network)`: without "/", the two addresses are
   * compared; with "/", both are masked first. None: the shift count is negative.
   */
  function Check4AddrMatch(ip: string, network: string): (r: Option<bool>)
    ensures '/' !in network ==> r == Some(LongOrZero(ip) == LongOrZero(network))
  {
    SplitWithoutSlash(network);
    var parts := Explode('/', network);
    var networkLong := LongOrZero(parts[0]);
    var ipLong := LongOrZero(ip);
    if |parts| < 2 then Some(networkLong == ipLong)
    else
      match Netmask(parts[1])
      case None => None
      case Some(mask) => Some(And(ipLong, mask) == And(networkLong, mask))
  }

  lemma SplitWithoutSlash(network: string)
    ensures '/' !in network ==> Explode('/', network) == [network]
  {
    if '/' !in network {
      ExplodeNoSep('/', network);
    }
  }

  /** Without "/", two well-formed addresses match exactly when they are the same text. */
  lemma AddressMatchIsEquality(ip: string, network: string)
    requires '/' !in network
    requires Ip2Long(ip).Some? && Ip2Long(network).Some?
    ensures Check4AddrMatch(ip, network) == Some(true) <==> ip == network
  {
    Ip2LongRoundTrip(ip);
    Ip2LongRoundTrip(network);
  }

  /** A netmask that `ip2long` accepts is used as it is. */
  lemma DottedNetmask(maskText: string)
    requires Ip2Long(maskText).Some?
    ensures Netmask(maskText) == Ip2Long(maskText)
  {
    Ip2LongRoundTrip(maskText);
  }

  /** Any other text after "/" is read as a prefix length. */
  lemma PrefixNetmask(maskText: string)
    requires Ip2Long(maskText).None?
    ensures Netmask(maskText) == CidrMask(LeadingInt(maskText))
  {
    Long2IpRoundTrip(0);
  }

  /**
   * The reference meaning of a prefix length p in 0..32 (section 3.1 of
   * RFC 4632): two addresses agree under the mask exactly when they agree
   * once their trailing 32 - p bits are shifted out.
   */
  lemma CidrMaskKeepsLeadingBits(p: int, a: nat, b: nat)
    requires 0 <= p <= 32 && a < Two32 && b < Two32
    ensures CidrMask(p).Some?
    ensures (And(a, CidrMask(p).value) == And(b, CidrMask(p).value)) <==> (a / Pow2(32 - p) == b / Pow2(32 - p))
  {
    var k := 32 - p;
    Pow2Of32();
    var m := MaskIsHigh(p);
    var q := Pow2(k);
    AndHighMask(a, 32, k);
    AndHighMask(b, 32, k);
    assert And(a, m) == a - a % q;
    assert And(b, m) == b - b % q;
    ClearedAgree(a, b, k);
  }

  /** The mask for prefix length `p` clears exactly the trailing 32 - p bits. */
  lemma MaskIsHigh(p: int) returns (m: nat)
    requires 0 <= p <= 32
    ensures CidrMask(p) == Some(m)
    ensures m == Pow2(32) - Pow2(32 - p)
  {
    Pow2Of32();
    m := CidrMask(p).value;
  }

  lemma LeadingIntOfNumeral(n: nat)
    ensures LeadingInt(NatToDecimal(n)) == n
  {
    var t := NatToDecimal(n);
    AllDigitsLead(t);
    DecimalRoundTrip(n);
  }

  lemma {:induction false} AllDigitsLead(t: string)
    requires AllDigits(t)
    ensures LeadingDigits(t) == t
  {
    if t != [] {
      AllDigitsLead(t[1..]);
      assert [t[0]] + t[1..] == t;
    }
  }

  /**
   * `check4AddrMatch($ip, "$net/$p")` with a prefix length 0..32 matches
   * exactly when the leading p bits of the two addresses agree, so /32
   * compares whole addresses and /0 matches every address; a prefix over
   * 32 gives a negative shift count (None).
   */
  lemma CidrMatch(ip: string, net: string, p: nat)
    requires '/' !in net
    ensures p <= 32 ==> Check4AddrMatch(ip, net + "/" + NatToDecimal(p))
                        == Some(LongOrZero(ip) / Pow2(32 - p) == LongOrZero(net) / Pow2(32 - p))
    ensures p > 32 ==> Check4AddrMatch(ip, net + "/" + NatToDecimal(p)) == None
    ensures p == 32 ==> Check4AddrMatch(ip, net + "/" + NatToDecimal(p)) == Some(LongOrZero(ip) == LongOrZero(net))
    ensures p == 0 ==> Check4AddrMatch(ip, net + "/" + NatToDecimal(p)) == Some(true)
  {
    var d := NatToDecimal(p);
    assert '/' !in d && '.' !in d by {
      assert forall i :: 0 <= i < |d| ==> d[i] != '/' && d[i] != '.';
    }
    ExplodeCons('/', net, d);
    ExplodeNoSep('/', d);
    ExplodeNoSep('.', d);
    assert net + "/" + d == net + ['/'] + d;
    PrefixNetmask(d);
    LeadingIntOfNumeral(p);
    if p <= 32 {
      CidrMaskKeepsLeadingBits(p, LongOrZero(ip), LongOrZero(net));
      ExtremeQuotients(LongOrZero(ip), LongOrZero(net), p);
    }
  }

  lemma ExtremeQuotients(a: nat, b: nat, p: nat)
    requires a < Two32 && b < Two32 && p <= 32
    ensures p == 32 ==> (a / Pow2(32 - p) == b / Pow2(32 - p)) == (a == b)
    ensures p == 0 ==> a / Pow2(32 - p) == b / Pow2(32 - p)
  {
    if p == 32 {
      assert Pow2(32 - p) == 1;
    } else if p == 0 {
      Pow2Of32();
      ModUnique(a, Pow2(32), 0, a);
      ModUnique(b, Pow2(32), 0, b);
    }
  }

  // ---------------------------------------------------------------------
  // IPCheck

  /**
   * The verdict for the results of trying the banned entries in order:
   * allowed (true) when no entry matches, refused (false) at the first entry
   * that does; None when an entry before any match had a negative shift count.
   */
  function FirstVerdict(results: seq<Option<bool>>): Option<bool> {
    if results == [] then Some(true)
    else match results[0]
      case None => None
      case Some(true) => Some(false)
      case Some(false) => FirstVerdict(results[1..])
  }

  /** The results of trying each entry against the address. */
  function Matches(ip: string, entries: seq<string>): (r: seq<Option<bool>>)
    ensures |r| == |entries|
    ensures forall i :: 0 <= i < |entries| ==> r[i] == Check4AddrMatch(ip, entries[i])
  {
    seq(|entries|, i requires 0 <= i < |entries| => Check4AddrMatch(ip, entries[i]))
  }

  /** An address is allowed exactly when every entry fails to match it. */
  lemma {:induction false} VerdictAllows(results: seq<Option<bool>>)
    ensures FirstVerdict(results) == Some(true) <==> forall i :: 0 <= i < |results| ==> results[i] == Some(false)
  {
    if results != [] {
      VerdictAllows(results[1..]);
      assert forall i :: 1 <= i < |results| ==> results[i] == results[1..][i - 1];
    }
  }

  /** An address is refused exactly when some entry matches it and every entry before that one fails to. */
  lemma {:induction false} VerdictRefuses(results: seq<Option<bool>>)
    ensures FirstVerdict(results) == Some(false) <==>
            exists i :: 0 <= i < |results| && results[i] == Some(true)
                        && forall j :: 0 <= j < i ==> results[j] == Some(false)
  {
    if results != [] {
      var tail := results[1..];
      VerdictRefuses(tail);
      if results[0] == Some(false) {
        if FirstVerdict(tail) == Some(false) {
          var i :| 0 <= i < |tail| && tail[i] == Some(true) && forall j :: 0 <= j < i ==> tail[j] == Some(false);
          assert results[i + 1] == tail[i];
          assert forall j :: 1 <= j < i + 1 ==> results[j] == tail[j - 1];
        }
        if exists i :: 0 <= i < |results| && results[i] == Some(true) && forall j :: 0 <= j < i ==> results[j] == Some(false) {
          var i :| 0 <= i < |results| && results[i] == Some(true) && forall j :: 0 <= j < i ==> results[j] == Some(false);
          assert tail[i - 1] == results[i];
          assert forall j :: 0 <= j < i - 1 ==> tail[j] == results[j + 1];
        }
      }
    }
  }

  /**
   * `IPCheck($ip)` with the configured `main.bannedIPs` passed in: the
   * entries are the space-separated pieces, tried in order.
   */
  method IPCheck(ip: string, bannedIPs: string) returns (r: Option<bool>)
    ensures r == FirstVerdict(Matches(ip, Explode(' ', bannedIPs)))
  {
    var entries := Explode(' ', bannedIPs);
    ghost var results := Matches(ip, entries);
    var i := 0;
    while i < |entries|
      invariant 0 <= i <= |entries|
      invariant FirstVerdict(results) == FirstVerdict(results[i..])
    {
      var m := Check4AddrMatch(ip, entries[i]);
      if m.None? {
        return None;
      }
      if m.value {
        return Some(false);
      }
      assert results[i..][1..] == results[i + 1..];
      i := i + 1;
    }
    return Some(true);
  }
}
