/**
 * Escaping helpers of functions.php: `safeSQL` (a per-character SQL
 * string escaper), `EndSlash` and `fixslashes`.
 */
module Escaping {
  import opened Wrappers
  import opened Text

  // ---------------------------------------------------------------------
  // safeSQL

  /** The four characters `safeSQL` escapes. */
  predicate IsSqlSpecial(c: char) {
    c == '\'' || c == '\\' || c == '\n' || c == '\r'
  }

  /** What `safeSQL` writes for one character. */
  function EscapeSqlChar(c: char): string {
    if c == '\'' then "\\'"
    else if c == '\\' then "\\\\"
    else if c == '\n' then "\\n"
    else if c == '\r' then "\\r"
    else [c]
  }

  /** The escaped form of a whole string, character by character. */
  function SqlEscaped(s: string): string {
    if s == [] then [] else EscapeSqlChar(s[0]) + SqlEscaped(s[1..])
  }

  function CountSqlSpecials(s: string): nat {
    if s == [] then 0 else (if IsSqlSpecial(s[0]) then 1 else 0) + CountSqlSpecials(s[1..])
  }

  lemma {:induction false} SqlEscapedSnoc(s: string, c: char)
    ensures SqlEscaped(s + [c]) == SqlEscaped(s) + EscapeSqlChar(c)
  {
    if s == [] {
      assert [c][1..] == [];
    } else {
      assert (s + [c])[1..] == s[1..] + [c];
      SqlEscapedSnoc(s[1..], c);
    }
  }

  lemma {:induction false} SqlEscapedLength(s: string)
    ensures |SqlEscaped(s)| == |s| + CountSqlSpecials(s)
  {
    if s != [] {
      SqlEscapedLength(s[1..]);
    }
  }

  lemma {:induction false} SqlEscapedPlain(s: string)
    requires CountSqlSpecials(s) == 0
    ensures SqlEscaped(s) == s
  {
    if s != [] {
      SqlEscapedPlain(s[1..]);
      assert [s[0]] + s[1..] == s;
    }
  }

  /**
   * What MySQL's string-literal reader (default SQL mode) makes of the
   * character after a backslash.
   */
  function ReadEscape(c: char): string {
    if c == '0' then ['\0']
    else if c == 'b' then [8 as char]
    else if c == 'n' then "\n"
    else if c == 'r' then "\r"
    else if c == 't' then "\t"
    else if c == 'Z' then [26 as char]
    else if c == '%' then "\\%"
    else if c == '_' then "\\_"
    else [c]
  }

  /**
   * Reads the body of a single-quoted SQL string literal the way MySQL does:
   * backslash escapes, a doubled quote stands for one quote, and the first
   * other quote closes the literal. Returns the value and the text after the
   * closing quote, or None when the literal is never closed.
   */
  function ReadLiteral(t: string): Option<(string, string)>
    decreases |t|
  {
    if t == [] then None
    else if t[0] == '\\' && |t| >= 2 then
      match ReadLiteral(t[2..])
      case None => None
      case Some(p) => Some((ReadEscape(t[1]) + p.0, p.1))
    else if t[0] == '\'' && |t| >= 2 && t[1] == '\'' then
      match ReadLiteral(t[2..])
      case None => None
      case Some(p) => Some(("'" + p.0, p.1))
    else if t[0] == '\'' then Some(([], t[1..]))
    else
      match ReadLiteral(t[1..])
      case None => None
      case Some(p) => Some(([t[0]] + p.0, p.1))
  }

  /**
   * The point of `safeSQL`: placed between quotes, the escaped text reads
   * back as exactly the original string, and the literal ends at the quote
   * that follows it, whatever the string holds.
   */
  lemma {:induction false} SqlEscapedReadsBack(s: string, tail: string)
    requires tail == [] || tail[0] != '\''
    ensures ReadLiteral(SqlEscaped(s) + "'" + tail) == Some((s, tail))
  {
    if s == [] {
      var t := SqlEscaped(s) + "'" + tail;
      assert t == "'" + tail;
      assert t[1..] == tail;
    } else {
      SqlEscapedReadsBack(s[1..], tail);
      var e, r := EscapeSqlChar(s[0]), SqlEscaped(s[1..]);
      var rest := r + "'" + tail;
      assert SqlEscaped(s) == e + r;
      Regroup(e, r, "'", e + (r + "'"), r + "'", e + r);
      Regroup(e, r + "'", tail, e + rest, rest, e + (r + "'"));
      ReadEscapedChar(s[0], rest, s[1..], tail);
      assert [s[0]] + s[1..] == s;
    }
  }

  /** One escaped character in front of a literal reads back as that character. */
  lemma ReadEscapedChar(c: char, rest: string, value: string, tail: string)
    requires ReadLiteral(rest) == Some((value, tail))
    ensures ReadLiteral(EscapeSqlChar(c) + rest) == Some(([c] + value, tail))
  {
    var t := EscapeSqlChar(c) + rest;
    if IsSqlSpecial(c) {
      assert t[2..] == rest;
    } else {
      assert t[1..] == rest;
    }
  }

  /**
   * `safeSQL($string)`: copies the string, writing a backslash before
   * `'` and `\` and replacing line feed and carriage return by `\n` and `\r`.
   */
  method SafeSql(s: string) returns (str: string)
    ensures str == SqlEscaped(s)
    ensures |str| == |s| + CountSqlSpecials(s)
    ensures CountSqlSpecials(s) == 0 ==> str == s
    ensures ReadLiteral(str + "'") == Some((s, []))
  {
    str := "";
    var i := 0;
    while i < |s|
      invariant 0 <= i <= |s|
      invariant str == SqlEscaped(s[..i])
    {
      SqlEscapedSnoc(s[..i], s[i]);
      assert s[..i + 1] == s[..i] + [s[i]];
      str := str + EscapeSqlChar(s[i]);
      i := i + 1;
    }
    assert s[..i] == s;
    SqlEscapedLength(s);
    if CountSqlSpecials(s) == 0 {
      SqlEscapedPlain(s);
    }
    SqlEscapedReadsBack(s, []);
    assert str + "'" == SqlEscaped(s) + "'" + [];
  }

  // ---------------------------------------------------------------------
  // EndSlash

  /**
   * `EndSlash($string)`: appends "/" unless the string already ends with one;
   * the empty string becomes "/".
   */
  function EndSlash(s: string): (r: string)
    ensures EndsWith(r, "/")
    ensures StartsWith(r, s) && |r| <= |s| + 1
    ensures EndsWith(s, "/") <==> r == s
  {
    if s != [] && s[|s| - 1] == '/' then s else s + "/"
  }

  // ---------------------------------------------------------------------
  // fixslashes

  /** The characters `fixslashes` un-escapes: not `\w`, not `\s`, not a backslash. */
  predicate IsUnescapable(c: char) {
    !IsWordChar(c) && !IsSpaceChar(c) && c != '\\'
  }

  /**
   * `preg_replace("/(\\\\)([^\w\s\\\\])/", "$2", $text)`: scanning left to
   * right, a backslash followed by an un-escapable character is dropped.
   */
  function StripEscapes(t: string): (r: string)
    ensures |r| <= |t|
  {
    if t == [] then []
    else if |t| >= 2 && t[0] == '\\' && IsUnescapable(t[1]) then [t[1]] + StripEscapes(t[2..])
    else [t[0]] + StripEscapes(t[1..])
  }

  /** `fixslashes($text)`: the replacement runs only when the text has a backslash. */
  function FixSlashes(text: string): (r: string)
    ensures |r| <= |text|
  {
    if '\\' !in text then text else StripEscapes(text)
  }

  /** The reference escaper: a backslash before every un-escapable character. */
  function EscapeUnescapables(t: string): string {
    if t == [] then []
    else (if IsUnescapable(t[0]) then ['\\', t[0]] else [t[0]]) + EscapeUnescapables(t[1..])
  }

  /** Every backslash-free string: the replacement would change nothing. */
  lemma {:induction false} StripEscapesPlain(t: string)
    requires '\\' !in t
    ensures StripEscapes(t) == t
  {
    if t != [] {
      StripEscapesPlain(t[1..]);
      assert [t[0]] + t[1..] == t;
    }
  }

  /** The `strpos` guard in `fixslashes` is only a shortcut. */
  lemma FixSlashesIsStrip(text: string)
    ensures FixSlashes(text) == StripEscapes(text)
  {
    if '\\' !in text {
      StripEscapesPlain(text);
    }
  }

  lemma EscapedHead(t: string)
    requires EscapeUnescapables(t) != []
    ensures !IsUnescapable(EscapeUnescapables(t)[0])
  {
  }

  /** `fixslashes` undoes the reference escaper on every string. */
  lemma {:induction false} FixSlashesUndoesEscape(t: string)
    ensures FixSlashes(EscapeUnescapables(t)) == t
  {
    FixSlashesIsStrip(EscapeUnescapables(t));
    StripUndoesEscape(t);
  }

  lemma {:induction false} StripUndoesEscape(t: string)
    ensures StripEscapes(EscapeUnescapables(t)) == t
  {
    if t != [] {
      var e := EscapeUnescapables(t);
      var rest := EscapeUnescapables(t[1..]);
      StripUndoesEscape(t[1..]);
      if IsUnescapable(t[0]) {
        assert e == ['\\', t[0]] + rest;
        assert e[2..] == rest;
      } else {
        assert e == [t[0]] + rest;
        assert e[1..] == rest;
        if t[0] == '\\' && |e| >= 2 {
          EscapedHead(t[1..]);
          assert e[1] == rest[0];
        }
      }
      assert [t[0]] + t[1..] == t;
    }
  }

  /** The text without its backslashes. */
  function DropBackslashes(t: string): string {
    if t == [] then [] else (if t[0] == '\\' then [] else [t[0]]) + DropBackslashes(t[1..])
  }

  /** `fixslashes` deletes backslashes and nothing else. */
  lemma {:induction false} FixSlashesOnlyDropsBackslashes(text: string)
    ensures DropBackslashes(FixSlashes(text)) == DropBackslashes(text)
  {
    FixSlashesIsStrip(text);
    StripOnlyDropsBackslashes(text);
  }

  lemma {:induction false} StripOnlyDropsBackslashes(t: string)
    ensures DropBackslashes(StripEscapes(t)) == DropBackslashes(t)
    decreases |t|
  {
    if t != [] {
      if |t| >= 2 && t[0] == '\\' && IsUnescapable(t[1]) {
        StripOnlyDropsBackslashes(t[2..]);
        assert t[1..][1..] == t[2..];
      } else {
        StripOnlyDropsBackslashes(t[1..]);
      }
    }
  }
}
