/**
 * String helpers that stand for the PHP built-ins the core relies on:
 * `explode`, `implode`, `str_replace`, `strtolower`, `trim`, `strpos`,
 * integer-to-string conversion and the leading-integer reading of `(int)`.
 * PHP strings are byte strings; here they are `seq<char>`.
 */
module Text {

  /** PCRE's `\w` in the C locale. */
  predicate IsWordChar(c: char) {
    ('a' <= c <= 'z') || ('A' <= c <= 'Z') || ('0' <= c <= '9') || c == '_'
  }

  /** PCRE's `\s`: space, tab, line feed, form feed, carriage return. */
  predicate IsSpaceChar(c: char) {
    c == ' ' || c == '\t' || c == '\n' || c as int == 12 || c == '\r'
  }

  /** The length of the maximal run of `\s` characters at the start of `s`, as `\s+` consumes it. */
  function SpaceRun(s: string): (k: nat)
    ensures k <= |s|
    ensures forall i :: 0 <= i < k ==> IsSpaceChar(s[i])
    ensures k == |s| || !IsSpaceChar(s[k])
  {
    if s != [] && IsSpaceChar(s[0]) then 1 + SpaceRun(s[1..]) else 0
  }

  predicate IsDigit(c: char) {
    '0' <= c <= '9'
  }

  predicate StartsWith(s: string, p: string) {
    |p| <= |s| && s[..|p|] == p
  }

  predicate EndsWith(s: string, p: string) {
    |p| <= |s| && s[|s| - |p|..] == p
  }

  /** `t` occurs in `s` starting at index `i`. */
  predicate OccursAt(s: string, t: string, i: int) {
    0 <= i && i + |t| <= |s| && s[i..i + |t|] == t
  }

  /** `strpos($s, $t) !== false` for a non-empty needle. */
  predicate Contains(s: string, t: string) {
    exists i :: 0 <= i <= |s| - |t| && OccursAt(s, t, i)
  }

  /** `strtolower` in the C locale: only ASCII letters change. */
  function LowerChar(c: char): char {
    if 'A' <= c <= 'Z' then (c as int + 32) as char else c
  }

  function Lower(s: string): (r: string)
    ensures |r| == |s|
    ensures forall i :: 0 <= i < |s| ==> r[i] == LowerChar(s[i])
  {
    if s == [] then [] else [LowerChar(s[0])] + Lower(s[1..])
  }

  // ---------------------------------------------------------------------
  // explode / implode

  /**
   * `explode($sep, $s)` for a one-character separator: the pieces between
   * separators, in order; there is always at least one piece.
   */
  function Explode(sep: char, s: string): (r: seq<string>)
    ensures |r| >= 1
    ensures forall i :: 0 <= i < |r| ==> sep !in r[i]
  {
    if s == [] then [[]]
    else
      var rest := Explode(sep, s[1..]);
      if s[0] == sep then [[]] + rest
      else [[s[0]] + rest[0]] + rest[1..]
  }

  /** `implode($sep, $parts)`. */
  function Implode(sep: string, parts: seq<string>): string {
    if |parts| == 0 then []
    else if |parts| == 1 then parts[0]
    else parts[0] + sep + Implode(sep, parts[1..])
  }

  /** Joining one more part adds the separator and the part, unless it is the first. */
  lemma {:induction false} ImplodeSnoc(sep: string, parts: seq<string>, p: string)
    ensures Implode(sep, parts + [p]) == if parts == [] then p else Implode(sep, parts) + sep + p
    decreases |parts|
  {
    if |parts| > 1 {
      assert (parts + [p])[1..] == parts[1..] + [p];
      ImplodeSnoc(sep, parts[1..], p);
    } else if |parts| == 1 {
      assert (parts + [p])[1..] == [p];
    }
  }

  lemma {:induction false} ImplodeExplode(sep: char, s: string)
    ensures Implode([sep], Explode(sep, s)) == s
  {
    if s != [] {
      ImplodeExplode(sep, s[1..]);
      var rest := Explode(sep, s[1..]);
      if s[0] != sep && |rest| > 1 {
        assert Implode([sep], rest) == rest[0] + [sep] + Implode([sep], rest[1..]);
        assert s == [s[0]] + s[1..];
      }
    }
  }

  lemma {:induction false} ExplodeNoSep(sep: char, p: string)
    requires sep !in p
    ensures Explode(sep, p) == [p]
  {
    if p != [] {
      ExplodeNoSep(sep, p[1..]);
      assert [p[0]] + p[1..] == p;
    }
  }

  lemma {:induction false} ExplodeCons(sep: char, p: string, t: string)
    requires sep !in p
    ensures Explode(sep, p + [sep] + t) == [p] + Explode(sep, t)
  {
    if p == [] {
      assert p + [sep] + t == [sep] + t;
      assert ([sep] + t)[1..] == t;
    } else {
      var s := p + [sep] + t;
      assert s[1..] == p[1..] + [sep] + t;
      ExplodeCons(sep, p[1..], t);
      assert [p[0]] + p[1..] == p;
    }
  }

  /** explode undoes implode when no part holds the separator. */
  lemma {:induction false} ExplodeImplode(sep: char, parts: seq<string>)
    requires |parts| >= 1
    requires forall i :: 0 <= i < |parts| ==> sep !in parts[i]
    ensures Explode(sep, Implode([sep], parts)) == parts
  {
    if |parts| == 1 {
      ExplodeNoSep(sep, parts[0]);
    } else {
      ExplodeImplode(sep, parts[1..]);
      ExplodeCons(sep, parts[0], Implode([sep], parts[1..]));
      assert [parts[0]] + parts[1..] == parts;
    }
  }

  /** Associativity of concatenation, stated on names so that no other term is unfolded. */
  lemma Regroup(x: string, y: string, z: string, u: string, v: string, w: string)
    requires u == x + v && v == y + z && w == x + y
    ensures u == w + z
  {
  }

  // ---------------------------------------------------------------------
  // Occurrences

  lemma OccursAtEnd(a: string, b: string)
    ensures OccursAt(a + b, b, |a|)
  {
    assert (a + b)[|a|..|a| + |b|] == b;
  }

  lemma OccursExtended(s: string, t: string, j: int, c: string)
    requires OccursAt(s, t, j)
    ensures OccursAt(s + c, t, j)
  {
    assert (s + c)[j..j + |t|] == s[j..j + |t|];
  }

  lemma OccursWithin(s: string, t: string, j: int, a: string, c: string)
    requires OccursAt(s, t, j)
    ensures OccursAt(a + s + c, t, |a| + j)
  {
    assert (a + s + c)[|a| + j..|a| + j + |t|] == s[j..j + |t|];
  }

  lemma OccursTrans(s: string, t: string, u: string, j: int, k: int)
    requires OccursAt(s, t, j) && OccursAt(t, u, k)
    ensures OccursAt(s, u, j + k)
  {
    forall m | 0 <= m < |u|
      ensures s[j + k + m] == u[m]
    {
      assert s[j..j + |t|][k + m] == t[k + m];
      assert t[k..k + |u|][m] == u[m];
    }
    assert s[j + k..j + k + |u|] == u;
  }

  // ---------------------------------------------------------------------
  // str_replace

  /**
   * `str_replace($needle, $rep, $s)` for a non-empty needle: occurrences are
   * found left to right and do not overlap.
   */
  function StrReplace(s: string, needle: string, rep: string): string
    requires |needle| > 0
    decreases |s|
  {
    if |s| < |needle| then s
    else if s[..|needle|] == needle then rep + StrReplace(s[|needle|..], needle, rep)
    else [s[0]] + StrReplace(s[1..], needle, rep)
  }

  /** Replacing a string by itself changes nothing. */
  lemma {:induction false} StrReplaceSelf(s: string, needle: string)
    requires |needle| > 0
    ensures StrReplace(s, needle, needle) == s
    decreases |s|
  {
    if |s| >= |needle| {
      if s[..|needle|] == needle {
        StrReplaceSelf(s[|needle|..], needle);
        assert s[..|needle|] + s[|needle|..] == s;
      } else {
        StrReplaceSelf(s[1..], needle);
        assert [s[0]] + s[1..] == s;
      }
    }
  }

  /** A needle that does not occur leaves the subject unchanged. */
  lemma {:induction false} StrReplaceAbsent(s: string, needle: string, rep: string)
    requires |needle| > 0
    requires !Contains(s, needle)
    ensures StrReplace(s, needle, rep) == s
    decreases |s|
  {
    if |s| >= |needle| {
      assert !OccursAt(s, needle, 0);
      forall i | 0 <= i <= |s[1..]| - |needle|
        ensures !OccursAt(s[1..], needle, i)
      {
        assert s[1..][i..i + |needle|] == s[i + 1..i + 1 + |needle|];
        assert !OccursAt(s, needle, i + 1);
      }
      StrReplaceAbsent(s[1..], needle, rep);
      assert [s[0]] + s[1..] == s;
    }
  }

  // ---------------------------------------------------------------------
  // trim

  /** The characters PHP's `trim` removes by default. */
  predicate IsTrimChar(c: char) {
    c == ' ' || c == '\t' || c == '\n' || c == '\r' || c == '\0' || c as int == 11
  }

  function TrimLeft(s: string): (r: string)
    ensures |r| <= |s| && r == s[|s| - |r|..]
    ensures r == [] || !IsTrimChar(r[0])
    ensures forall i :: 0 <= i < |s| - |r| ==> IsTrimChar(s[i])
  {
    if s != [] && IsTrimChar(s[0]) then TrimLeft(s[1..]) else s
  }

  function TrimRight(s: string): (r: string)
    ensures |r| <= |s| && r == s[..|r|]
    ensures r == [] || !IsTrimChar(r[|r| - 1])
    ensures forall i :: |r| <= i < |s| ==> IsTrimChar(s[i])
  {
    if s != [] && IsTrimChar(s[|s| - 1]) then TrimRight(s[..|s| - 1]) else s
  }

  /** `trim($s)`. */
  function Trim(s: string): string {
    TrimRight(TrimLeft(s))
  }

  // ---------------------------------------------------------------------
  // decimal numbers

  predicate AllDigits(t: string) {
    forall i :: 0 <= i < |t| ==> IsDigit(t[i])
  }

  /** A decimal numeral as PHP prints one: no leading zero unless it is "0". */
  predicate Canonical(t: string) {
    |t| >= 1 && AllDigits(t) && (t[0] == '0' ==> |t| == 1)
  }

  function DigitChar(d: nat): (c: char)
    requires d < 10
    ensures IsDigit(c) && c as int - '0' as int == d
  {
    ('0' as int + d) as char
  }

  /** The decimal representation of a natural number. */
  function NatToDecimal(n: nat): (r: string)
    ensures Canonical(r)
  {
    if n < 10 then [DigitChar(n)]
    else
      var p := NatToDecimal(n / 10);
      assert p[0] != '0';
      p + [DigitChar(n % 10)]
  }

  /** The value of a string of decimal digits. */
  function DecimalValue(t: string): nat
    requires AllDigits(t)
  {
    if t == [] then 0 else 10 * DecimalValue(t[..|t| - 1]) + (t[|t| - 1] as int - '0' as int)
  }

  lemma {:induction false} DecimalRoundTrip(n: nat)
    ensures DecimalValue(NatToDecimal(n)) == n
  {
    if n >= 10 {
      DecimalRoundTrip(n / 10);
      var r := NatToDecimal(n);
      assert r[..|r| - 1] == NatToDecimal(n / 10);
    }
  }

  lemma {:induction false} LeadingDigitPositive(t: string)
    requires |t| >= 1 && AllDigits(t) && t[0] != '0'
    ensures DecimalValue(t) >= 1
  {
    if |t| > 1 {
      LeadingDigitPositive(t[..|t| - 1]);
    }
  }

  /** Printing the value of a canonical numeral gives the numeral back. */
  lemma {:induction false} CanonicalRoundTrip(t: string)
    requires Canonical(t)
    ensures NatToDecimal(DecimalValue(t)) == t
  {
    if |t| > 1 {
      var p := t[..|t| - 1];
      var v, d := DecimalValue(p), t[|t| - 1] as int - '0' as int;
      LeadingDigitPositive(p);
      CanonicalRoundTrip(p);
      assert DecimalValue(t) == 10 * v + d && 0 <= d < 10;
      assert (10 * v + d) / 10 == v && (10 * v + d) % 10 == d;
      assert DigitChar(d) == t[|t| - 1];
      assert NatToDecimal(10 * v + d) == p + [t[|t| - 1]] == t;
    }
  }

  /** PHP's string form of an integer. */
  function IntToString(i: int): (r: string)
    ensures |r| >= 1
  {
    if i < 0 then "-" + NatToDecimal(-i) else NatToDecimal(i)
  }

  /** The whitespace PHP skips before a number in a string. */
  predicate IsNumericSpace(c: char) {
    c == ' ' || c == '\t' || c == '\n' || c == '\r' || c as int == 11 || c as int == 12
  }

  /** The longest prefix of digits. */
  function LeadingDigits(s: string): (r: string)
    ensures AllDigits(r) && StartsWith(s, r)
    ensures r == s || !IsDigit(s[|r|])
  {
    if s != [] && IsDigit(s[0]) then [s[0]] + LeadingDigits(s[1..]) else []
  }

  /**
   * `(int)$s`: leading white space, an optional sign, then as many digits
   * as there are; a string without leading digits reads as 0.
   */
  function LeadingInt(s: string): int {
    if s != [] && IsNumericSpace(s[0]) then LeadingInt(s[1..])
    else if s != [] && s[0] == '-' then -(DecimalValue(LeadingDigits(s[1..])) as int)
    else if s != [] && s[0] == '+' then DecimalValue(LeadingDigits(s[1..]))
    else DecimalValue(LeadingDigits(s))
  }
}
