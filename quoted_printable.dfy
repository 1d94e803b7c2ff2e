/**
 * `quoted_printable_encode`: the quoted-printable content transfer encoding
 * of section 6.7 of RFC 2045 (RFC 1521 in the code's own comment). Bytes
 * outside the literal set become "=XY", lines are broken with soft line
 * breaks "=" CRLF, and the result ends with a hard line break.
 *
 * The partner is a decoder that follows the decoding rules of the same
 * section: trailing blanks of a line are dropped, a line ending in "=" is
 * joined to the next, and "=XY" stands for the byte XY.
 */
module QuotedPrintable {
  import opened Text

  /** PHP strings are byte strings. */
  predicate IsByteString(s: string) {
    forall i :: 0 <= i < |s| ==> s[i] as int < 256
  }

  /**
   * The bytes that are copied as they are: tab, space, '.', '!' through
   * '<' and '>' through '~'. Everything else, '=' included, is encoded.
   */
  predicate IsLiteral(c: char) {
    c == '\t' || c == ' ' || c == '.' || ('!' <= c <= '<') || ('>' <= c <= '~')
  }

  predicate IsUpperHex(c: char) {
    ('0' <= c <= '9') || ('A' <= c <= 'F')
  }

  function HexDigit(d: nat): (c: char)
    requires d < 16
    ensures IsUpperHex(c)
  {
    if d < 10 then ('0' as int + d) as char else ('A' as int + d - 10) as char
  }

  function HexValue(c: char): (d: nat)
    requires IsUpperHex(c)
    ensures d < 16
  {
    if c <= '9' then c as int - '0' as int else c as int - 'A' as int + 10
  }

  lemma HexDigitValue(d: nat)
    requires d < 16
    ensures HexValue(HexDigit(d)) == d
  {
  }

  // ---------------------------------------------------------------------
  // Encoding of single bytes

  /** The encoding of one byte: itself when literal, otherwise "=" and two upper-case hex digits. */
  function EncodeChar(c: char): (r: string)
    requires c as int < 256
    ensures IsLiteral(c) ==> r == [c]
    ensures !IsLiteral(c) ==> |r| == 3 && r[0] == '='
  {
    if IsLiteral(c) then [c] else ['=', HexDigit(c as int / 16), HexDigit(c as int % 16)]
  }

  /** Every byte encoded in turn: the first two steps of the encoder. */
  function EncodeAll(s: string): string
    requires IsByteString(s)
  {
    if s == [] then [] else EncodeChar(s[0]) + EncodeAll(s[1..])
  }

  /**
   * The first step as written: the `/e` replacement evaluates
   * `sprintf('=%2X', ord('\1'))` after the matched byte has been put through
   * `addslashes`, so a NUL byte arrives as the two characters `\0` and
   * `ord` sees the backslash. `%2X` pads a single digit with a space.
   */
  function OrdAsWritten(c: char): nat {
    if c == '\0' then '\\' as int else c as int
  }

  function PaddedHex(n: nat): (r: string)
    requires n < 256
    ensures |r| == 2
  {
    if n < 16 then [' ', HexDigit(n)] else [HexDigit(n / 16), HexDigit(n % 16)]
  }

  function SprintfChar(c: char): string
    requires c as int < 256
  {
    if IsLiteral(c) then [c] else ['='] + PaddedHex(OrdAsWritten(c))
  }

  function SprintfAll(s: string): string
    requires IsByteString(s)
  {
    if s == [] then [] else SprintfChar(s[0]) + SprintfAll(s[1..])
  }

  /**
   * The second step, `preg_replace('!=\ ([A-F0-9])!', '=0\1', ...)`:
   * matches are found left to right and do not overlap.
   */
  function ZeroPad(t: string): string {
    if |t| >= 3 && t[0] == '=' && t[1] == ' ' && IsUpperHex(t[2]) then ['=', '0', t[2]] + ZeroPad(t[3..])
    else if t == [] then []
    else [t[0]] + ZeroPad(t[1..])
  }

  /** The second step completes what the first began: padding spaces become zeros. */
  lemma ZeroPadSprintfChar(c: char, rest: string)
    requires c as int < 256 && c != '\0'
    ensures ZeroPad(SprintfChar(c) + rest) == EncodeChar(c) + ZeroPad(rest)
  {
    var t := SprintfChar(c) + rest;
    if IsLiteral(c) {
      assert t[0] == c && t[1..] == rest;
    } else if c as int < 16 {
      assert t[..3] == ['=', ' ', HexDigit(c as int)] && t[3..] == rest;
    } else {
      var hi, lo := HexDigit(c as int / 16), HexDigit(c as int % 16);
      assert SprintfChar(c) == ['=', hi, lo];
      assert t == ['=', hi, lo] + rest;
      var u := [lo] + rest;
      assert u[0] == lo && u[1..] == rest;
      assert ZeroPad(u) == [lo] + ZeroPad(rest);
      var v := [hi] + u;
      assert v[0] == hi && v[1..] == u;
      assert ZeroPad(v) == [hi] + ZeroPad(u);
      assert t[0] == '=' && t[1] == hi && t[1..] == v;
      assert ZeroPad(t) == ['='] + ZeroPad(v);
    }
  }

  /** As written, the two steps encode every byte except NUL as intended. */
  lemma {:induction false} AsWrittenEncodesAll(s: string)
    requires IsByteString(s) && '\0' !in s
    ensures ZeroPad(SprintfAll(s)) == EncodeAll(s)
  {
    if s != [] {
      ZeroPadSprintfChar(s[0], SprintfAll(s[1..]));
      AsWrittenEncodesAll(s[1..]);
    }
  }

  /** As written, a NUL byte is encoded as "=5C", which decodes to a backslash. */
  lemma NulEncodedAsBackslash()
    ensures ZeroPad(SprintfAll("\0")) == "=5C"
    ensures EncodeAll("\0") == "=00"
    ensures DecodeTokens("=5C") == "\\"
  {
    assert SprintfAll("\0") == SprintfChar('\0') + SprintfAll([]);
    assert SprintfChar('\0') == "=5C";
    assert ZeroPad("=5C") == ['='] + ZeroPad("5C");
    assert ZeroPad("5C") == ['5'] + ZeroPad("C");
    assert ZeroPad("C") == ['C'] + ZeroPad([]);
    assert EncodeAll("\0") == EncodeChar('\0') + EncodeAll([]);
    assert "=5C"[3..] == [];
  }

  // ---------------------------------------------------------------------
  // Encoded text

  /**
   * Text made of whole encoded bytes: no line break characters, and every
   * "=" is followed by two upper-case hex digits (stated for each pair of
   * an "=" and one of the two positions after it).
   */
  predicate WellEncoded(t: string) {
    (forall i :: 0 <= i < |t| ==> t[i] != '\n' && t[i] != '\r')
    && (forall i :: 0 <= i < |t| && t[i] == '=' ==> i + 2 < |t|)
    && (forall i, j {:trigger t[i], t[j]} :: 0 <= i < j < |t| && j <= i + 2 && t[i] == '=' ==> IsUpperHex(t[j]))
  }

  /** Position p of t falls between two encoded bytes. */
  predicate Boundary(t: string, p: nat) {
    p <= |t| && (p >= 1 ==> t[p - 1] != '=') && (p >= 2 ==> t[p - 2] != '=')
  }

  lemma WellEncodedConcat(a: string, b: string)
    requires WellEncoded(a) && WellEncoded(b)
    ensures WellEncoded(a + b)
  {
    var t := a + b;
    forall i | 0 <= i < |t| && t[i] == '='
      ensures i + 2 < |t| && IsUpperHex(t[i + 1]) && IsUpperHex(t[i + 2])
    {
      if i < |a| {
        assert a[i] == '=';
      } else {
        assert b[i - |a|] == '=';
      }
    }
  }

  lemma {:induction false} EncodeAllWellEncoded(s: string)
    requires IsByteString(s)
    ensures WellEncoded(EncodeAll(s))
  {
    if s != [] {
      EncodeAllWellEncoded(s[1..]);
      WellEncodedConcat(EncodeChar(s[0]), EncodeAll(s[1..]));
    }
  }

  /** A piece of well-encoded text that ends on a boundary is itself well encoded. */
  lemma SliceWellEncoded(t: string, a: nat, b: nat)
    requires WellEncoded(t) && a <= b && Boundary(t, b)
    ensures WellEncoded(t[a..b])
  {
    var u := t[a..b];
    forall i | 0 <= i < |u| && u[i] == '='
      ensures i + 2 < |u| && IsUpperHex(u[i + 1]) && IsUpperHex(u[i + 2])
    {
      assert t[a + i] == '=';
    }
  }

  lemma {:induction false} EncodeAllSnoc(s: string, c: char)
    requires IsByteString(s) && c as int < 256
    ensures IsByteString(s + [c])
    ensures EncodeAll(s + [c]) == EncodeAll(s) + EncodeChar(c)
  {
    assert forall i :: 0 <= i < |s| ==> s[i] == (s + [c])[i];
    if s != [] {
      assert (s + [c])[1..] == s[1..] + [c];
      EncodeAllSnoc(s[1..], c);
    } else {
      assert EncodeAll([c]) == EncodeChar(c) + EncodeAll([]);
    }
  }

  /** Input that does not end in a blank gives encoded text that does not end in a blank or in "=". */
  lemma EncodeAllEnd(s: string)
    requires IsByteString(s) && s != []
    requires s[|s| - 1] != ' ' && s[|s| - 1] != '\t'
    ensures var t := EncodeAll(s);
            t != [] && t[|t| - 1] != ' ' && t[|t| - 1] != '\t' && t[|t| - 1] != '='
  {
    var c := s[|s| - 1];
    assert s == s[..|s| - 1] + [c];
    EncodeAllSnoc(s[..|s| - 1], c);
  }

  // ---------------------------------------------------------------------
  // Decoding (section 6.7 of RFC 2045)

  /** The byte written as the two hex digits `hi` and `lo`. */
  function HexByte(hi: char, lo: char): char
    requires IsUpperHex(hi) && IsUpperHex(lo)
  {
    (HexValue(hi) * 16 + HexValue(lo)) as char
  }

  /** "=XY" becomes the byte XY; every other character stands for itself. */
  function DecodeTokens(t: string): string {
    if |t| >= 3 && t[0] == '=' && IsUpperHex(t[1]) && IsUpperHex(t[2]) then
      [HexByte(t[1], t[2])] + DecodeTokens(t[3..])
    else if t == [] then []
    else [t[0]] + DecodeTokens(t[1..])
  }

  lemma SuffixWellEncoded(t: string, k: nat)
    requires WellEncoded(t) && k <= |t|
    ensures WellEncoded(t[k..])
  {
    var u := t[k..];
    forall i | 0 <= i < |u| && u[i] == '='
      ensures i + 2 < |u| && IsUpperHex(u[i + 1]) && IsUpperHex(u[i + 2])
    {
      assert t[k + i] == '=';
    }
  }

  lemma DecodeAtEscape(t: string)
    requires |t| >= 3 && t[0] == '=' && IsUpperHex(t[1]) && IsUpperHex(t[2])
    ensures DecodeTokens(t) == [HexByte(t[1], t[2])] + DecodeTokens(t[3..])
  {
  }

  lemma DecodeAtChar(t: string)
    requires t != [] && t[0] != '='
    ensures DecodeTokens(t) == [t[0]] + DecodeTokens(t[1..])
  {
  }

  /** The first encoded byte of `a` decodes alone, whatever follows it. */
  lemma DecodeFirst(a: string, b: string) returns (k: nat, head: string)
    requires WellEncoded(a) && a != []
    ensures 1 <= k <= |a|
    ensures DecodeTokens(a) == head + DecodeTokens(a[k..])
    ensures DecodeTokens(a + b) == head + DecodeTokens(a[k..] + b)
  {
    var t := a + b;
    if a[0] == '=' {
      assert 2 < |a| && IsUpperHex(a[1]) && IsUpperHex(a[2]);
      assert t[0] == '=' && t[1] == a[1] && t[2] == a[2];
      k, head := 3, [HexByte(a[1], a[2])];
      DecodeAtEscape(a);
      DecodeAtEscape(t);
    } else {
      assert t[0] == a[0];
      k, head := 1, [a[0]];
      DecodeAtChar(a);
      DecodeAtChar(t);
    }
    SliceOfConcat(a, b, k);
  }

  lemma SliceOfConcat(a: string, b: string, k: nat)
    requires k <= |a|
    ensures (a + b)[k..] == a[k..] + b
  {
  }

  /** Decoding distributes over a split between encoded bytes. */
  lemma {:induction false} DecodeSplit(a: string, b: string)
    requires WellEncoded(a)
    ensures DecodeTokens(a + b) == DecodeTokens(a) + DecodeTokens(b)
    decreases |a|
  {
    if a != [] {
      var k, head := DecodeFirst(a, b);
      SuffixWellEncoded(a, k);
      DecodeSplit(a[k..], b);
      Regroup(head, DecodeTokens(a[k..]), DecodeTokens(b), DecodeTokens(a + b), DecodeTokens(a[k..] + b), DecodeTokens(a));
    } else {
      assert a + b == b;
    }
  }

  lemma DecodeEncodeChar(c: char)
    requires c as int < 256
    ensures DecodeTokens(EncodeChar(c)) == [c]
  {
    if !IsLiteral(c) {
      var t := EncodeChar(c);
      HexDigitValue(c as int / 16);
      HexDigitValue(c as int % 16);
      assert t[3..] == [];
    } else {
      assert EncodeChar(c)[1..] == [];
    }
  }

  /** Decoding undoes the byte encoding. */
  lemma {:induction false} DecodeEncodeAll(s: string)
    requires IsByteString(s)
    ensures DecodeTokens(EncodeAll(s)) == s
  {
    if s != [] {
      DecodeSplit(EncodeChar(s[0]), EncodeAll(s[1..]));
      DecodeEncodeChar(s[0]);
      DecodeEncodeAll(s[1..]);
    }
  }

  function StripTrailingBlanks(l: string): (r: string)
    ensures |r| <= |l| && r == l[..|r|]
    ensures r == [] || (r[|r| - 1] != ' ' && r[|r| - 1] != '\t')
  {
    if l != [] && (l[|l| - 1] == ' ' || l[|l| - 1] == '\t') then StripTrailingBlanks(l[..|l| - 1]) else l
  }

  function DropCR(l: string): string {
    if l != [] && l[|l| - 1] == '\r' then l[..|l| - 1] else l
  }

  /**
   * The lines of an encoded body, split at LF: each line loses its CR and
   * its trailing blanks; a line then ending in "=" is a soft break and is
   * joined to the next, any other line is followed by CRLF.
   */
  function DecodeLines(lines: seq<string>): string
    requires |lines| >= 1
  {
    if |lines| == 1 then DecodeTokens(StripTrailingBlanks(lines[0]))
    else
      var body := StripTrailingBlanks(DropCR(lines[0]));
      if body != [] && body[|body| - 1] == '=' then DecodeTokens(body[..|body| - 1]) + DecodeLines(lines[1..])
      else DecodeTokens(body) + "\r\n" + DecodeLines(lines[1..])
  }

  function Decode(e: string): string {
    DecodeLines(Explode('\n', e))
  }

  // ---------------------------------------------------------------------
  // Line structure of the encoder's output

  /** Lines joined by soft line breaks, the last one left open. */
  function SoftJoin(lines: seq<string>, last: string): string {
    if lines == [] then last else lines[0] + "=\r\n" + SoftJoin(lines[1..], last)
  }

  function Concat(parts: seq<string>): string {
    if parts == [] then [] else parts[0] + Concat(parts[1..])
  }

  lemma {:induction false} ConcatSnoc(parts: seq<string>, p: string)
    ensures Concat(parts + [p]) == Concat(parts) + p
  {
    if parts != [] {
      assert (parts + [p])[1..] == parts[1..] + [p];
      ConcatSnoc(parts[1..], p);
    }
  }

  lemma {:induction false} SoftJoinSnoc(lines: seq<string>, l: string)
    ensures SoftJoin(lines + [l], []) == SoftJoin(lines, []) + l + "=\r\n"
  {
    var brk := "=\r\n";
    if lines != [] {
      var head := lines[0] + brk;
      var rest := SoftJoin(lines[1..], []);
      assert (lines + [l])[1..] == lines[1..] + [l];
      SoftJoinSnoc(lines[1..], l);
      assert SoftJoin(lines + [l], []) == head + (rest + l + brk);
      Regroup(head, rest, l, head + (rest + l), rest + l, head + rest);
      Regroup(head, rest + l, brk, head + (rest + l + brk), rest + l + brk, head + (rest + l));
    } else {
      assert (lines + [l])[1..] == [];
      assert SoftJoin([l], []) == l + brk + SoftJoin([], []);
    }
  }

  lemma {:induction false} SoftJoinAppend(lines: seq<string>, last: string, more: string)
    ensures SoftJoin(lines, last) + more == SoftJoin(lines, last + more)
  {
    if lines != [] {
      SoftJoinAppend(lines[1..], last, more);
    }
  }

  /** The encoded lines as `explode("\n", ...)` sees the finished output. */
  function OutputLines(lines: seq<string>, last: string): (r: seq<string>)
    ensures |r| == |lines| + 2
  {
    if lines == [] then [last + "\r", []] else [lines[0] + "=\r"] + OutputLines(lines[1..], last)
  }

  predicate NoLineFeed(l: string) {
    forall i :: 0 <= i < |l| ==> l[i] != '\n'
  }

  lemma {:induction false} OutputLinesJoin(lines: seq<string>, last: string)
    requires forall i :: 0 <= i < |lines| ==> NoLineFeed(lines[i])
    requires NoLineFeed(last)
    ensures Implode("\n", OutputLines(lines, last)) == SoftJoin(lines, last + "\r\n")
    ensures forall i :: 0 <= i < |OutputLines(lines, last)| ==> '\n' !in OutputLines(lines, last)[i]
  {
    var r := OutputLines(lines, last);
    if lines == [] {
      assert Implode("\n", r) == r[0] + "\n" + Implode("\n", r[1..]);
      assert '\n' !in r[0];
    } else {
      OutputLinesJoin(lines[1..], last);
      assert r[1..] == OutputLines(lines[1..], last);
      assert Implode("\n", r) == r[0] + "\n" + Implode("\n", r[1..]);
      assert '\n' !in r[0];
      assert forall i :: 1 <= i < |r| ==> r[i] == r[1..][i - 1];
    }
  }

  /** A line that ends in "=" before its CR is a soft break: it joins the next line. */
  lemma DecodeSoftLine(l: string, rest: seq<string>)
    requires |rest| >= 1
    ensures DecodeLines([l + "=\r"] + rest) == DecodeTokens(l) + DecodeLines(rest)
  {
    var lines := [l + "=\r"] + rest;
    assert lines[0] == l + "=\r" && lines[1..] == rest;
    assert DropCR(l + "=\r") == l + "=";
    assert StripTrailingBlanks(l + "=") == l + "=";
    assert (l + "=")[..|l|] == l;
  }

  /** The last line before the final CRLF keeps its contents, without trailing blanks. */
  lemma DecodeLastLine(last: string)
    requires StripTrailingBlanks(last) == [] || StripTrailingBlanks(last)[|StripTrailingBlanks(last)| - 1] != '='
    ensures DecodeLines([last + "\r", []]) == DecodeTokens(StripTrailingBlanks(last)) + "\r\n"
  {
    var lines := [last + "\r", []];
    assert DropCR(lines[0]) == last;
    assert lines[1..] == [[]];
    DecodeEmptyLine();
  }

  lemma DecodeEmptyLine()
    ensures DecodeLines([[]]) == []
  {
    assert DecodeTokens(StripTrailingBlanks([])) == [];
  }

  /** Soft-broken lines decode to their joined contents. */
  lemma {:induction false} DecodeOutputLines(lines: seq<string>, last: string)
    requires StripTrailingBlanks(last) == [] || StripTrailingBlanks(last)[|StripTrailingBlanks(last)| - 1] != '='
    ensures DecodeLines(OutputLines(lines, last))
            == Concat(DecodedAll(lines)) + (DecodeTokens(StripTrailingBlanks(last)) + "\r\n")
  {
    if lines == [] {
      DecodeLastLine(last);
      assert Concat(DecodedAll(lines)) == [];
    } else {
      var l := lines[0];
      var rest := OutputLines(lines[1..], last);
      assert OutputLines(lines, last) == [l + "=\r"] + rest;
      DecodeSoftLine(l, rest);
      DecodeOutputLines(lines[1..], last);
      assert [l] + lines[1..] == lines;
      ConcatCons(DecodeTokens(l), DecodedAll(lines[1..]));
      var tail := DecodeTokens(StripTrailingBlanks(last)) + "\r\n";
      Regroup(DecodeTokens(l), Concat(DecodedAll(lines[1..])), tail,
              DecodeLines(OutputLines(lines, last)), DecodeLines(rest), Concat(DecodedAll(lines)));
    }
  }

  function DecodedAll(lines: seq<string>): (r: seq<string>)
    ensures |r| == |lines|
  {
    if lines == [] then [] else [DecodeTokens(lines[0])] + DecodedAll(lines[1..])
  }

  lemma ConcatCons(p: string, parts: seq<string>)
    ensures Concat([p] + parts) == p + Concat(parts)
  {
    assert ([p] + parts)[1..] == parts;
  }

  lemma {:induction false} DecodeConcat(lines: seq<string>, last: string)
    requires forall i :: 0 <= i < |lines| ==> WellEncoded(lines[i])
    ensures DecodeTokens(Concat(lines) + last) == Concat(DecodedAll(lines)) + DecodeTokens(last)
  {
    if lines != [] {
      var l, more := lines[0], Concat(lines[1..]);
      var rest := more + last;
      ConcatCons(l, lines[1..]);
      assert [l] + lines[1..] == lines;
      Regroup(l, more, last, l + rest, rest, Concat(lines));
      DecodeSplit(l, rest);
      DecodeConcat(lines[1..], last);
      ConcatCons(DecodeTokens(l), DecodedAll(lines[1..]));
      Regroup(DecodeTokens(l), Concat(DecodedAll(lines[1..])), DecodeTokens(last),
              DecodeTokens(l + rest), DecodeTokens(rest), Concat(DecodedAll(lines)));
    } else {
      assert Concat(lines) + last == last;
    }
  }

  // ---------------------------------------------------------------------
  // Soft line breaks

  /**
   * `preg_match('!\=<k dots>$!', $piece)`: an "=" with k characters other
   * than LF after it at the end of the piece, or just before a final LF.
   */
  predicate EqualsBeforeEnd(a: string, k: nat) {
    (k + 1 <= |a| && a[|a| - 1 - k] == '=' && forall j :: |a| - k <= j < |a| ==> a[j] != '\n')
    || (k + 2 <= |a| && a[|a| - 1] == '\n' && a[|a| - 2 - k] == '='
        && forall j :: |a| - 1 - k <= j < |a| - 1 ==> a[j] != '\n')
  }

  /** The piece length the cut-back picks: 76, or 75, 74, 73 when an "=" sits near the end (the earliest wins). */
  function StepFor(piece: string): (step: nat)
    ensures 73 <= step <= 76
  {
    if EqualsBeforeEnd(piece, 2) then 73
    else if EqualsBeforeEnd(piece, 1) then 74
    else if EqualsBeforeEnd(piece, 0) then 75
    else 76
  }

  /** A full piece of well-encoded text is cut between two encoded bytes. */
  lemma CutIsBoundary(t: string, offset: nat)
    requires WellEncoded(t) && offset + 76 < |t|
    ensures Boundary(t, offset + StepFor(t[offset..offset + 76]))
  {
    var piece := t[offset..offset + 76];
    assert forall j :: 0 <= j < 76 ==> piece[j] == t[offset + j];
    var p := offset + StepFor(piece);
    if t[p - 1] == '=' {
      assert IsUpperHex(t[p]);
    }
    if t[p - 2] == '=' {
      assert IsUpperHex(t[p - 1]) && IsUpperHex(t[p]);
    }
  }

  // ---------------------------------------------------------------------
  // The encoder

  /** `preg_replace('!\.$!', '. ', ...)`: a space after a final '.', or after a '.' just before a final LF. */
  function DotSpace(r: string): string {
    if r != [] && r[|r| - 1] == '.' then r + " "
    else if |r| >= 2 && r[|r| - 2] == '.' && r[|r| - 1] == '\n' then r[..|r| - 1] + " \n"
    else r
  }

  /**
   * `preg_replace('!(\r\n|\r|\n)$!', '', ...)`: matches are tried left to
   * right, and `$` also holds just before a final LF, so a final "\n\n"
   * or "\r\n\n" goes entirely.
   */
  function StripFinalBreak(r: string): string {
    if |r| >= 3 && r[|r| - 3] == '\r' && r[|r| - 2] == '\n' && r[|r| - 1] == '\n' then r[..|r| - 3]
    else if |r| >= 2 && (r[|r| - 2] == '\n' || r[|r| - 2] == '\r') && r[|r| - 1] == '\n' then r[..|r| - 2]
    else if r != [] && (r[|r| - 1] == '\n' || r[|r| - 1] == '\r') then r[..|r| - 1]
    else r
  }

  /** Every line of the output, without its CR, has at most `n` characters. */
  predicate LinesAtMost(e: string, n: nat) {
    forall l :: l in Explode('\n', e) ==> |DropCR(l)| <= n
  }

  /**
   * `quoted_printable_encode($s)`. The bytes are encoded (with NUL encoded
   * as "=00"), text over 75 characters is cut into pieces of 76 characters,
   * cut back so that no "=XY" is split, with a soft line break after every
   * piece that does not reach the end; a final '.' gets a space after it,
   * and the result ends with CRLF.
   *
   * Lines carry at most 76 characters of text, one more than RFC 2045
   * allows once the soft break's "=" is counted. Input that ends in a
   * blank loses that blank when decoded, since the encoder leaves it raw.
   */
  method QuotedPrintableEncode(s: string) returns (e: string)
    requires IsByteString(s)
    ensures EndsWith(e, "\r\n")
    ensures LinesAtMost(e, 77)
    ensures s == [] || (s[|s| - 1] != ' ' && s[|s| - 1] != '\t') ==> Decode(e) == s + "\r\n"
  {
    var t := EncodeAll(s);
    EncodeAllWellEncoded(s);
    var r: string;
    ghost var lines: seq<string> := [];
    ghost var cur: string := t;
    if |t| > 75 {
      r, lines, cur := Wrap(t);
    } else {
      r := t;
      NoWrap(t);
    }
    var dotted := DotSpace(r);
    e := StripFinalBreak(dotted) + "\r\n";
    Finished(s, lines, cur, r, e);
  }

  /**
   * The wrapping loop of `quoted_printable_encode`: pieces of 76
   * characters, cut back to 75, 74 or 73 when an "=" sits among the last
   * three (the earliest such "=" decides), each followed by a soft line
   * break when the full 76 characters would not have reached the end.
   * The result is the text cut into completed lines of at most 76
   * characters, none splitting an "=XY", and an open last line.
   */
  method Wrap(t: string) returns (r: string, ghost lines: seq<string>, ghost cur: string)
    requires WellEncoded(t) && |t| > 75
    ensures lines == Cuts(t, 0) && Concat(lines) + cur == t
    ensures forall i :: 0 <= i < |lines| ==> WellEncoded(lines[i]) && 73 <= |lines[i]| <= 76
    ensures 0 < |cur| <= 76
    ensures r == SoftJoin(lines, cur)
    ensures r == SoftJoin(Cuts(t, 0), t[|Concat(Cuts(t, 0))|..])
  {
    var length := |t|;
    var offset: nat := 0;
    r := [];
    lines, cur := [], [];
    ghost var lineStart: nat := 0;
    WrapStart(t);
    // the do-while loop: its first test holds, as the text is not empty
    while offset < length
      invariant Wrapping(t, offset, lineStart, lines, cur, r)
      invariant lines + Cuts(t, lineStart) == Cuts(t, 0)
      decreases length - offset
    {
      ghost var offset0, lines0, added := offset, lines, false;
      offset, lineStart, lines, cur, r, added := WrapStep(t, offset, lineStart, lines, cur, r);
      if added {
        CutsStep(t, offset0, offset, lines0);
      }
    }
    WrapDone(t, offset, lineStart, lines, cur, r);
    CutsLength(t, 0);
  }

  /**
   * One turn of the wrapping loop: cut the piece at `offset`, then either
   * complete a line with it and a soft break, or add it to the open line.
   */
  method WrapStep(t: string, offset: nat, ghost lineStart: nat, ghost lines: seq<string>, ghost cur: string, r: string)
    returns (offset': nat, ghost lineStart': nat, ghost lines': seq<string>, ghost cur': string, r': string, ghost added: bool)
    requires offset < |t|
    requires Wrapping(t, offset, lineStart, lines, cur, r)
    ensures offset' == offset + StepFor(Substr(t, offset, 76))
    ensures Wrapping(t, offset', lineStart', lines', cur', r')
    ensures added == (offset + 76 < |t|)
    ensures added ==> lineStart == offset && lineStart' == offset' && lines' == lines + [Substr(t, offset, offset' - offset)]
    ensures !added ==> lineStart' == lineStart && lines' == lines
  {
    var addMode := offset + 76 < |t|;
    var piece := Substr(t, offset, 76);
    var step := CutBack(piece);
    ghost var firstPiece := piece;
    piece := Substr(t, offset, step);
    added := addMode;
    offset' := offset + step;
    if addMode {
      lines', lineStart', cur', r' := lines + [piece], offset', [], r + piece + "=\r\n";
      AddLineStep(t, offset, step, firstPiece, piece, lineStart, lines, cur, r);
    } else {
      lines', lineStart', cur', r' := lines, lineStart, cur + piece, r + piece;
      ExtendLineStep(t, offset, step, piece, lineStart, lines, cur, r);
    }
  }

  /**
   * The length of the piece: 76, cut back to 75, 74 or 73 when an "="
   * sits one, two or three characters before the piece's end; the later
   * tests win, so the earliest such "=" decides.
   */
  method CutBack(piece: string) returns (step: nat)
    ensures step == StepFor(piece)
  {
    step := 76;
    if EqualsBeforeEnd(piece, 0) { step := 75; }
    if EqualsBeforeEnd(piece, 1) { step := 74; }
    if EqualsBeforeEnd(piece, 2) { step := 73; }
  }

  /** `substr($t, $start, $n)` for a start inside the text. */
  function Substr(t: string, start: nat, n: nat): (r: string)
    requires start <= |t|
    ensures |r| <= n
  {
    t[start..if start + n < |t| then start + n else |t|]
  }

  /**
   * The state of the wrapping loop: the text up to `offset` (or its end)
   * has been copied into `r` as completed lines, each followed by a soft
   * break, and the open line `cur`, which starts at `lineStart`.
   */
  predicate Wrapping(t: string, offset: nat, lineStart: nat, lines: seq<string>, cur: string, r: string) {
    WellEncoded(t) && lineStart <= offset && lineStart <= |t| && Boundary(t, lineStart)
    && Concat(lines) == t[..lineStart]
    && cur == t[lineStart..if offset < |t| then offset else |t|]
    && r == SoftJoin(lines, cur)
    && (forall i :: 0 <= i < |lines| ==> WellEncoded(lines[i]) && |lines[i]| <= 76)
    && (cur != [] ==> lineStart + 76 >= |t|)
    && (offset > 0 ==> cur != [] || offset < |t|)
  }

  lemma WrapStart(t: string)
    requires WellEncoded(t)
    ensures Wrapping(t, 0, 0, [], [], [])
  {
  }

  /** Text short enough is not wrapped: it is the open line. */
  lemma NoWrap(t: string)
    ensures Concat([]) + t == t
  {
  }

  /** A piece that stops short of the end becomes a completed line. */
  lemma AddLineStep(t: string, offset: nat, step: nat, firstPiece: string, piece: string,
                    lineStart: nat, lines: seq<string>, cur: string, r: string)
    requires Wrapping(t, offset, lineStart, lines, cur, r)
    requires offset < |t| && offset + 76 < |t|
    requires firstPiece == Substr(t, offset, 76) && step == StepFor(firstPiece)
    requires piece == Substr(t, offset, step)
    ensures Wrapping(t, offset + step, offset + step, lines + [piece], [], r + piece + "=\r\n")
    ensures lineStart == offset
  {
    assert firstPiece == t[offset..offset + 76];
    CutIsBoundary(t, offset);
    var end := offset + step;
    assert piece == t[offset..end];
    assert cur == [] && lineStart == offset;
    AddLine(t, lines, lineStart, end);
    SoftJoinAppend(lines + [piece], [], []);
    var lines' := lines + [piece];
    forall i | 0 <= i < |lines'|
      ensures WellEncoded(lines'[i]) && |lines'[i]| <= 76
    {
      if i < |lines| {
        assert lines'[i] == lines[i];
      }
    }
  }

  /** A piece that reaches the end is appended to the open line. */
  lemma ExtendLineStep(t: string, offset: nat, step: nat, piece: string,
                       lineStart: nat, lines: seq<string>, cur: string, r: string)
    requires Wrapping(t, offset, lineStart, lines, cur, r)
    requires offset < |t| && !(offset + 76 < |t|) && 73 <= step
    requires piece == Substr(t, offset, step)
    ensures Wrapping(t, offset + step, lineStart, lines, cur + piece, r + piece)
  {
    var end := if offset + step < |t| then offset + step else |t|;
    OpenLineGrows(t, lineStart, offset, end);
    SoftJoinAppend(lines, cur, piece);
  }

  /**
   * When the loop ends, the lines and the open line make up the whole
   * text, and the lines are all the pieces cut from the start.
   */
  lemma WrapDone(t: string, offset: nat, lineStart: nat, lines: seq<string>, cur: string, r: string)
    requires Wrapping(t, offset, lineStart, lines, cur, r) && offset >= |t| > 0
    requires lines + Cuts(t, lineStart) == Cuts(t, 0)
    ensures Concat(lines) + cur == t && cur == t[|Concat(lines)|..]
    ensures |cur| <= 76 && cur != []
    ensures lines == Cuts(t, 0)
  {
    assert t[..lineStart] + t[lineStart..] == t;
    assert Cuts(t, lineStart) == [];
    assert lines + [] == lines;
  }

  /**
   * The completed lines the loop cuts from `offset` on: while 76
   * characters would not reach the end, a piece of 76, cut back by
   * `StepFor`, followed by the pieces after it.
   */
  function Cuts(t: string, offset: nat): seq<string>
    decreases |t| - offset
  {
    if offset + 76 < |t| then
      var step := StepFor(t[offset..offset + 76]);
      [t[offset..offset + step]] + Cuts(t, offset + step)
    else []
  }

  /** Every cut piece has 73 to 76 characters. */
  lemma {:induction false} CutsLength(t: string, offset: nat)
    ensures forall i :: 0 <= i < |Cuts(t, offset)| ==> 73 <= |Cuts(t, offset)[i]| <= 76
    decreases |t| - offset
  {
    if offset + 76 < |t| {
      var step := StepFor(t[offset..offset + 76]);
      CutsLength(t, offset + step);
      var rest := Cuts(t, offset + step);
      assert Cuts(t, offset) == [t[offset..offset + step]] + rest;
      forall i | 0 <= i < |Cuts(t, offset)|
        ensures 73 <= |Cuts(t, offset)[i]| <= 76
      {
        if i > 0 {
          assert Cuts(t, offset)[i] == rest[i - 1];
        }
      }
    }
  }

  /** A piece that stops short of the end is the next cut piece. */
  lemma CutsStep(t: string, offset: nat, offset': nat, lines: seq<string>)
    requires offset + 76 < |t| && offset' == offset + StepFor(Substr(t, offset, 76))
    requires lines + Cuts(t, offset) == Cuts(t, 0)
    ensures (lines + [Substr(t, offset, offset' - offset)]) + Cuts(t, offset') == Cuts(t, 0)
  {
    var piece := Substr(t, offset, offset' - offset);
    calc {
      (lines + [piece]) + Cuts(t, offset');
      == { SnocAssoc(lines, piece, Cuts(t, offset')); }
      lines + ([piece] + Cuts(t, offset'));
      == { CutsUnfold(t, offset, offset'); }
      lines + Cuts(t, offset);
    }
  }

  /** The cuts from a position short of the end start with the piece cut there. */
  lemma CutsUnfold(t: string, offset: nat, offset': nat)
    requires offset + 76 < |t| && offset' == offset + StepFor(Substr(t, offset, 76))
    ensures Cuts(t, offset) == [Substr(t, offset, offset' - offset)] + Cuts(t, offset')
  {
    var window := t[offset..offset + 76];
    assert Substr(t, offset, 76) == window;
    assert Substr(t, offset, offset' - offset) == t[offset..offset'];
    CutsHead(t, offset, window, offset');
  }

  lemma CutsHead(t: string, offset: nat, window: string, offset': nat)
    requires offset + 76 < |t| && window == t[offset..offset + 76] && offset' == offset + StepFor(window)
    ensures Cuts(t, offset) == [t[offset..offset']] + Cuts(t, offset')
  {
    assert t[offset..offset + 76] == window;
  }

  lemma SnocAssoc<T>(a: seq<T>, b: T, c: seq<T>)
    ensures (a + [b]) + c == a + ([b] + c)
  {
  }

  lemma OpenLineGrows(t: string, lineStart: nat, offset: nat, end: nat)
    requires lineStart <= offset <= end <= |t|
    ensures t[lineStart..offset] + t[offset..end] == t[lineStart..end]
  {
  }

  /** What the finished output promises, from the lines the loop produced. */
  lemma Finished(s: string, lines: seq<string>, cur: string, r: string, e: string)
    requires IsByteString(s)
    requires Concat(lines) + cur == EncodeAll(s)
    requires forall i :: 0 <= i < |lines| ==> WellEncoded(lines[i]) && |lines[i]| <= 76
    requires |cur| <= 76 && (cur == [] ==> lines == [])
    requires r == SoftJoin(lines, cur)
    requires e == StripFinalBreak(DotSpace(r)) + "\r\n"
    ensures EndsWith(e, "\r\n")
    ensures LinesAtMost(e, 77)
    ensures s == [] || (s[|s| - 1] != ' ' && s[|s| - 1] != '\t') ==> Decode(e) == s + "\r\n"
  {
    EncodedLines(s, lines, cur, r, e);
    OutputLinesFit(lines, LastLine(cur));
    if s == [] || (s[|s| - 1] != ' ' && s[|s| - 1] != '\t') {
      DecodeEncoded(s, lines, cur);
    }
  }

  /** A completed line is added: the text up to its end, split into lines, grows by that line. */
  lemma AddLine(t: string, lines: seq<string>, lineStart: nat, end: nat)
    requires WellEncoded(t) && lineStart <= end && Boundary(t, end)
    requires Concat(lines) == t[..lineStart]
    ensures Concat(lines + [t[lineStart..end]]) == t[..end]
    ensures WellEncoded(t[lineStart..end])
    ensures SoftJoin(lines + [t[lineStart..end]], []) == SoftJoin(lines, []) + t[lineStart..end] + "=\r\n"
  {
    SliceWellEncoded(t, lineStart, end);
    ConcatSnoc(lines, t[lineStart..end]);
    assert t[..lineStart] + t[lineStart..end] == t[..end];
    SoftJoinSnoc(lines, t[lineStart..end]);
  }

  /** The open line as it is finally written: a final '.' gets a space after it. */
  function LastLine(cur: string): string {
    if cur != [] && cur[|cur| - 1] == '.' then cur + " " else cur
  }

  /** Text that does not end in a line break character is left alone by `StripFinalBreak`. */
  lemma NoFinalBreak(x: string)
    requires x == [] || (x[|x| - 1] != '\n' && x[|x| - 1] != '\r')
    ensures StripFinalBreak(x) == x
  {
  }

  /** The finished output, read line by line, is the completed lines with their soft breaks and the open line. */
  lemma EncodedLines(s: string, lines: seq<string>, cur: string, r: string, e: string)
    requires IsByteString(s)
    requires Concat(lines) + cur == EncodeAll(s)
    requires forall i :: 0 <= i < |lines| ==> WellEncoded(lines[i])
    requires cur == [] ==> lines == []
    requires r == SoftJoin(lines, cur)
    requires e == StripFinalBreak(DotSpace(r)) + "\r\n"
    ensures Explode('\n', e) == OutputLines(lines, LastLine(cur))
  {
    OpenLineEncoded(s, lines, cur);
    FinishShape(lines, cur, r, e);
    assert NoLineFeed(LastLine(cur));
    OutputLinesJoin(lines, LastLine(cur));
    ExplodeImplode('\n', OutputLines(lines, LastLine(cur)));
  }

  lemma OpenLineEncoded(s: string, lines: seq<string>, cur: string)
    requires IsByteString(s)
    requires Concat(lines) + cur == EncodeAll(s)
    ensures WellEncoded(cur)
  {
    var t := EncodeAll(s);
    EncodeAllWellEncoded(s);
    assert t[|t| - |cur|..] == cur;
    SuffixWellEncoded(t, |t| - |cur|);
  }

  /** Finishing the wrapped text adds the space after a final '.' and the final CRLF, and nothing else. */
  lemma FinishShape(lines: seq<string>, cur: string, r: string, e: string)
    requires WellEncoded(cur) && (cur == [] ==> lines == [])
    requires r == SoftJoin(lines, cur)
    requires e == StripFinalBreak(DotSpace(r)) + "\r\n"
    ensures e == SoftJoin(lines, LastLine(cur) + "\r\n")
  {
    if cur == [] {
      assert r == [];
    } else {
      var c := cur[|cur| - 1];
      SoftJoinSuffix(lines, cur);
      assert r[|r| - 1] == c;
      if c == '.' {
        assert DotSpace(r) == r + " ";
        SoftJoinAppend(lines, cur, " ");
        NoFinalBreak(r + " ");
        SoftJoinAppend(lines, cur + " ", "\r\n");
      } else {
        assert c != '\n';
        assert DotSpace(r) == r;
        NoFinalBreak(r);
        SoftJoinAppend(lines, cur, "\r\n");
      }
    }
  }

  /** The encoded lines decode to the input followed by CRLF. */
  lemma DecodeEncoded(s: string, lines: seq<string>, cur: string)
    requires IsByteString(s)
    requires s == [] || (s[|s| - 1] != ' ' && s[|s| - 1] != '\t')
    requires Concat(lines) + cur == EncodeAll(s)
    requires forall i :: 0 <= i < |lines| ==> WellEncoded(lines[i])
    ensures DecodeLines(OutputLines(lines, LastLine(cur))) == s + "\r\n"
  {
    LastLineStrips(s, lines, cur);
    DecodeOutputLines(lines, LastLine(cur));
    DecodeConcat(lines, cur);
    DecodeEncodeAll(s);
    Regroup(Concat(DecodedAll(lines)), DecodeTokens(cur), "\r\n",
            DecodeLines(OutputLines(lines, LastLine(cur))), DecodeTokens(cur) + "\r\n", s);
  }

  /** The last line loses only the space added after a final '.', and does not end in "=". */
  lemma LastLineStrips(s: string, lines: seq<string>, cur: string)
    requires IsByteString(s)
    requires s == [] || (s[|s| - 1] != ' ' && s[|s| - 1] != '\t')
    requires Concat(lines) + cur == EncodeAll(s)
    ensures StripTrailingBlanks(LastLine(cur)) == cur
    ensures cur == [] || cur[|cur| - 1] != '='
  {
    var t := EncodeAll(s);
    if cur != [] {
      EncodeAllEnd(s);
      assert t[|t| - 1] == cur[|cur| - 1];
      assert StripTrailingBlanks(cur) == cur;
      if cur[|cur| - 1] == '.' {
        assert (cur + " ")[..|cur|] == cur;
        assert StripTrailingBlanks(cur + " ") == StripTrailingBlanks(cur);
      }
    }
  }

  lemma {:induction false} SoftJoinSuffix(lines: seq<string>, cur: string)
    requires cur != []
    ensures EndsWith(SoftJoin(lines, cur), cur)
  {
    if lines != [] {
      SoftJoinSuffix(lines[1..], cur);
    }
  }

  lemma OutputLinesFit(lines: seq<string>, last: string)
    requires forall i :: 0 <= i < |lines| ==> |lines[i]| <= 76
    requires |last| <= 77
    ensures forall l :: l in OutputLines(lines, last) ==> |DropCR(l)| <= 77
  {
  }
}
