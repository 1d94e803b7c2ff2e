/**
 * The excerpt step of `searchEngine`: the search term is cleaned of some
 * regular-expression characters and passed through `preg_quote`, split
 * into items, and every item longer than two characters is highlighted in
 * the title and the content through the callback `highlight_no_links`.
 *
 * The PCRE engine itself is not modelled: what it finds in a text is a
 * `Scan`, the text cut into unmatched gaps and matches of the highlight
 * pattern, each match telling which of the pattern's three alternatives
 * it took.
 */
module Highlight {
  import opened Text

  // ---------------------------------------------------------------------
  // Cleaning the term

  /** The characters `str_replace` deletes from the term before quoting. */
  predicate IsStripped(c: char) {
    c == '^' || c == '.' || c == '?' || c == '*' || c == '+' || c == '{' || c == '}'
    || c == '(' || c == ')' || c == '[' || c == ']' || c == '"'
  }

  /**
   * `str_replace(array('^', '.', ...), '', $s)`. The needles are single
   * characters replaced by nothing, so doing them one after the other
   * comes to deleting every such character.
   */
  function Sanitize(s: string): (r: string)
    ensures |r| <= |s|
    ensures forall i :: 0 <= i < |r| ==> !IsStripped(r[i])
  {
    if s == [] then []
    else if IsStripped(s[0]) then Sanitize(s[1..])
    else [s[0]] + Sanitize(s[1..])
  }

  /** The deletion works character by character: the kept characters stay in their order. */
  lemma {:induction false} SanitizeAppend(a: string, b: string)
    ensures Sanitize(a + b) == Sanitize(a) + Sanitize(b)
  {
    if a != [] {
      assert (a + b)[1..] == a[1..] + b;
      SanitizeAppend(a[1..], b);
    } else {
      assert a + b == b;
    }
  }

  /** A term without those characters is left as it is. */
  lemma {:induction false} SanitizeKeepsClean(s: string)
    requires forall i :: 0 <= i < |s| ==> !IsStripped(s[i])
    ensures Sanitize(s) == s
  {
    if s != [] {
      SanitizeKeepsClean(s[1..]);
    }
  }

  // ---------------------------------------------------------------------
  // preg_quote($s, '/')

  /**
   * The characters `preg_quote` puts a backslash before, with "/" as the
   * delimiter: the PHP 5 set, which has no "#".
   */
  predicate IsQuotable(c: char) {
    c == '.' || c == '\\' || c == '+' || c == '*' || c == '?' || c == '[' || c == '^'
    || c == ']' || c == '$' || c == '(' || c == ')' || c == '{' || c == '}' || c == '='
    || c == '!' || c == '<' || c == '>' || c == '|' || c == ':' || c == '-' || c == '/'
  }

  const Nul: char := 0 as char

  /** One character quoted: NUL becomes "\000", a special character gets a backslash. */
  function QuoteChar(c: char): (r: string)
    ensures |r| >= 1
  {
    if c == Nul then "\\000"
    else if IsQuotable(c) then ['\\', c]
    else [c]
  }

  function PregQuote(s: string): string {
    if s == [] then [] else QuoteChar(s[0]) + PregQuote(s[1..])
  }

  /** How many characters quoting adds. */
  function QuoteCost(s: string): nat {
    if s == [] then 0
    else (if s[0] == Nul then 3 else if IsQuotable(s[0]) then 1 else 0) + QuoteCost(s[1..])
  }

  lemma {:induction false} PregQuoteLength(s: string)
    ensures |PregQuote(s)| == |s| + QuoteCost(s)
  {
    if s != [] {
      PregQuoteLength(s[1..]);
    }
  }

  lemma {:induction false} NoCostMeansPlain(s: string)
    requires QuoteCost(s) == 0
    ensures forall i :: 0 <= i < |s| ==> s[i] != Nul && !IsQuotable(s[i])
  {
    if s != [] {
      NoCostMeansPlain(s[1..]);
      assert forall i :: 1 <= i < |s| ==> s[i] == s[1..][i - 1];
    }
  }

  lemma {:induction false} PregQuotePlain(s: string)
    requires forall i :: 0 <= i < |s| ==> s[i] != Nul && !IsQuotable(s[i])
    ensures PregQuote(s) == s
  {
    if s != [] {
      PregQuotePlain(s[1..]);
    }
  }

  /**
   * What the regular-expression parser reads back from a quoted string: a
   * backslash makes the next character literal and "\000" is NUL.
   */
  function Unquote(t: string): string
    decreases |t|
  {
    if t == [] then []
    else if |t| >= 4 && t[..4] == "\\000" then [Nul] + Unquote(t[4..])
    else if |t| >= 2 && t[0] == '\\' then [t[1]] + Unquote(t[2..])
    else [t[0]] + Unquote(t[1..])
  }

  /** Quoting loses nothing: the pattern parser reads back the original term. */
  lemma {:induction false} UnquotePregQuote(s: string)
    ensures Unquote(PregQuote(s)) == s
  {
    if s != [] {
      var q := QuoteChar(s[0]);
      var rest := PregQuote(s[1..]);
      assert PregQuote(s) == q + rest;
      UnquotePregQuote(s[1..]);
      if s[0] == Nul {
        assert (q + rest)[..4] == "\\000";
        assert (q + rest)[4..] == rest;
      } else if IsQuotable(s[0]) {
        assert (q + rest)[1] == s[0] != '0';
        assert (q + rest)[2..] == rest;
      } else {
        assert (q + rest)[1..] == rest;
      }
    }
  }

  lemma {:induction false} PregQuoteKeepsClean(s: string)
    requires forall i :: 0 <= i < |s| ==> !IsStripped(s[i])
    ensures forall i :: 0 <= i < |PregQuote(s)| ==> !IsStripped(PregQuote(s)[i])
  {
    if s != [] {
      PregQuoteKeepsClean(s[1..]);
      var q := QuoteChar(s[0]);
      var rest := PregQuote(s[1..]);
      assert PregQuote(s) == q + rest;
      forall i | 0 <= i < |q + rest|
        ensures !IsStripped((q + rest)[i])
      {
        if i >= |q| {
          assert (q + rest)[i] == rest[i - |q|];
        }
      }
    }
  }

  lemma {:induction false} QuotingAddsBackslash(s: string)
    requires QuoteCost(s) > 0
    ensures QuoteCost(PregQuote(s)) > 0
  {
    var q := QuoteChar(s[0]);
    var rest := PregQuote(s[1..]);
    assert PregQuote(s) == q + rest;
    if s[0] == Nul || IsQuotable(s[0]) {
      assert (q + rest)[0] == '\\';
    } else {
      QuotingAddsBackslash(s[1..]);
      assert (q + rest)[1..] == rest;
    }
  }

  // ---------------------------------------------------------------------
  // The term as one permitted row leaves it

  /** The term after one permitted row: cleaned, then quoted (lines 1093-1094). */
  function Requote(t: string): string {
    PregQuote(Sanitize(t))
  }

  /** A term that needs neither cleaning nor quoting. */
  predicate Plain(t: string) {
    forall i :: 0 <= i < |t| ==> !IsStripped(t[i]) && !IsQuotable(t[i]) && t[i] != Nul
  }

  /** The term survives a row unchanged exactly when it is plain. */
  lemma RequoteFixedIff(t: string)
    ensures Requote(t) == t <==> Plain(t)
  {
    if Plain(t) {
      SanitizeKeepsClean(t);
      PregQuotePlain(t);
    }
    if Requote(t) == t {
      PregQuoteKeepsClean(Sanitize(t));
      SanitizeKeepsClean(t);
      PregQuoteLength(t);
      NoCostMeansPlain(t);
    }
  }

  /**
   * Once the cleaned term has something to quote, the next row quotes the
   * backslashes again: the term still has something to quote, and grows
   * with every permitted row.
   */
  lemma RequoteCompounds(t: string)
    requires QuoteCost(Sanitize(t)) > 0
    ensures QuoteCost(Sanitize(Requote(t))) > 0
    ensures |Requote(Requote(t))| > |Requote(t)|
  {
    var q := Requote(t);
    PregQuoteKeepsClean(Sanitize(t));
    SanitizeKeepsClean(q);
    QuotingAddsBackslash(Sanitize(t));
    PregQuoteLength(q);
  }

  // ---------------------------------------------------------------------
  // The callback

  /**
   * Which alternative of the highlight pattern a match took: the item as
   * an attribute name (group 1), the item inside the value of one of the
   * listed attributes (group 2, with the attribute name as group 3), or
   * the bare item (group 4).
   */
  datatype Alternative =
    | AsAttrName(text: string)
    | InAttrValue(text: string, attr: string)
    | Bare(text: string)

  /**
   * The `$matches` array the callback receives: index 0 is the whole
   * match; groups before the last one that took part are "", and groups
   * after it are absent.
   */
  function Groups(a: Alternative): (m: seq<string>)
    ensures 2 <= |m| <= 5 && m[0] == a.text
  {
    match a
    case AsAttrName(t) => [t, t]
    case InAttrValue(t, attr) => [t, "", t, attr]
    case Bare(t) => [t, "", "", "", t]
  }

  /** `isset($m[i]) ? $m[i] : ''`. */
  function Group(m: seq<string>, i: nat): string {
    if i < |m| then m[i] else ""
  }

  /** PHP's `empty()` on a string: "" and "0". */
  predicate PhpEmpty(s: string) {
    s == "" || s == "0"
  }

  function Span(s: string): string {
    "<span class=\"highlight\">" + s + "</span>"
  }

  /**
   * `highlight_no_links($matches)`: the item with its prefix and postfix
   * in a highlight span when group 5 holds one, otherwise the match as
   * it was.
   */
  function HighlightNoLinks(m: seq<string>): string
    requires |m| >= 1
  {
    var prefix := Group(m, 4);
    var item := Group(m, 5);
    var postfix := Group(m, 6);
    if !PhpEmpty(item) then Span(prefix + item + postfix) else m[0]
  }

  /** With a group 5 to read, the callback wraps prefix, item and postfix in the span. */
  lemma HighlightWrapsItem(m: seq<string>)
    requires |m| >= 6 && !PhpEmpty(m[5])
    ensures var r := HighlightNoLinks(m);
            StartsWith(r, "<span class=\"highlight\">") && EndsWith(r, "</span>")
            && r[24..|r| - 7] == Group(m, 4) + m[5] + Group(m, 6)
  {
    var r := HighlightNoLinks(m);
    var inner := Group(m, 4) + m[5] + Group(m, 6);
    assert r == "<span class=\"highlight\">" + inner + "</span>";
    assert r[..24] == "<span class=\"highlight\">";
    assert r[24..|r| - 7] == inner;
  }

  /**
   * The pattern has four groups, so group 5 is never set and the callback
   * hands back every match unchanged, whichever alternative it took.
   */
  lemma NeverHighlights(a: Alternative)
    ensures HighlightNoLinks(Groups(a)) == a.text
  {
  }

  /**
   * The callback as its variable names describe it for this pattern: the
   * bare item (group 4) is wrapped, matches inside markup are kept.
   */
  function HighlightIntended(m: seq<string>): string
    requires |m| >= 1
  {
    var item := Group(m, 4);
    if !PhpEmpty(item) then Span(item) else m[0]
  }

  /** The intended callback highlights a bare item and leaves attribute names and values alone. */
  lemma IntendedWrapsOnlyBareItems(a: Alternative)
    ensures HighlightIntended(Groups(a))
            == if a.Bare? && !PhpEmpty(a.text) then Span(a.text) else a.text
  {
  }

  /** A bare "cat" in the text: the intended callback highlights it, the one as written does not. */
  lemma BareItemNotHighlighted()
    ensures HighlightNoLinks(Groups(Bare("cat"))) == "cat"
    ensures HighlightIntended(Groups(Bare("cat"))) == "<span class=\"highlight\">cat</span>"
  {
  }

  // ---------------------------------------------------------------------
  // preg_replace_callback

  /** An unmatched stretch of text followed by one match. */
  datatype Piece = Piece(gap: string, hit: Alternative)

  /** The text as the engine cut it: gaps and matches in order, then the rest. */
  datatype Scan = Scan(pieces: seq<Piece>, tail: string)

  /** The callback `preg_replace_callback` is given. */
  datatype Callback = AsWritten | Intended

  function Call(cb: Callback, m: seq<string>): string
    requires |m| >= 1
  {
    match cb
    case AsWritten => HighlightNoLinks(m)
    case Intended => HighlightIntended(m)
  }

  /** The text a scan was made from. */
  function Subject(pieces: seq<Piece>, tail: string): string {
    if pieces == [] then tail
    else pieces[0].gap + pieces[0].hit.text + Subject(pieces[1..], tail)
  }

  /** `preg_replace_callback`: every match replaced by what the callback returns for it. */
  function Replace(pieces: seq<Piece>, tail: string, cb: Callback): string {
    if pieces == [] then tail
    else pieces[0].gap + Call(cb, Groups(pieces[0].hit)) + Replace(pieces[1..], tail, cb)
  }

  /** With `highlight_no_links` as written, a replacement gives back the text it was made on. */
  lemma {:induction false} ReplaceAsWrittenIsIdentity(pieces: seq<Piece>, tail: string)
    ensures Replace(pieces, tail, AsWritten) == Subject(pieces, tail)
  {
    if pieces != [] {
      NeverHighlights(pieces[0].hit);
      ReplaceAsWrittenIsIdentity(pieces[1..], tail);
    }
  }

  /** With the intended callback, a text whose matches all lie in markup is left alone. */
  lemma {:induction false} ReplaceIntendedKeepsMarkup(pieces: seq<Piece>, tail: string)
    requires forall i :: 0 <= i < |pieces| ==> !pieces[i].hit.Bare?
    ensures Replace(pieces, tail, Intended) == Subject(pieces, tail)
  {
    if pieces != [] {
      IntendedWrapsOnlyBareItems(pieces[0].hit);
      ReplaceIntendedKeepsMarkup(pieces[1..], tail);
    }
  }

  // ---------------------------------------------------------------------
  // The highlight loop of one row

  /**
   * The regular-expression engine: for an item and a text, how the
   * highlight pattern built from that item cuts the text.
   */
  type Engine = (string, string) -> Scan

  /** A faithful engine cuts a text into pieces that make up that very text. */
  ghost predicate Faithful(engine: Engine) {
    forall item, s :: Subject(engine(item, s).pieces, engine(item, s).tail) == s
  }

  /** One item's replacement on a text. */
  function ReplaceItem(engine: Engine, item: string, s: string): string {
    var scan := engine(item, s);
    Replace(scan.pieces, scan.tail, AsWritten)
  }

  /** Replacing the items longer than two characters, from the first to the last. */
  function HighlightAll(engine: Engine, items: seq<string>, s: string): string
    decreases |items|
  {
    if items == [] then s
    else
      var next := if |items[0]| > 2 then ReplaceItem(engine, items[0], s) else s;
      HighlightAll(engine, items[1..], next)
  }

  /** Under a faithful engine highlighting changes nothing, whatever the items. */
  lemma {:induction false} HighlightAllUnchanged(engine: Engine, items: seq<string>, s: string)
    requires Faithful(engine)
    ensures HighlightAll(engine, items, s) == s
    decreases |items|
  {
    if items != [] {
      if |items[0]| > 2 {
        var scan := engine(items[0], s);
        ReplaceAsWrittenIsIdentity(scan.pieces, scan.tail);
      }
      HighlightAllUnchanged(engine, items[1..], s);
    }
  }

  /**
   * Lines 1096-1112: when the first item is longer than one character,
   * every item longer than two is highlighted in the title and then in the
   * content.
   */
  method HighlightExcerpt(engine: Engine, items: seq<string>, thema: string, content: string)
    returns (thema': string, content': string)
    requires |items| >= 1
    ensures |items[0]| > 1 ==> thema' == HighlightAll(engine, items, thema)
                               && content' == HighlightAll(engine, items, content)
    ensures |items[0]| <= 1 ==> thema' == thema && content' == content
  {
    thema', content' := thema, content;
    if |items[0]| > 1 {
      var i := 0;
      while i < |items|
        invariant 0 <= i <= |items|
        invariant HighlightAll(engine, items[i..], thema') == HighlightAll(engine, items, thema)
        invariant HighlightAll(engine, items[i..], content') == HighlightAll(engine, items, content)
      {
        var item := items[i];
        assert items[i..][1..] == items[i + 1..];
        if |item| > 2 {
          thema' := ReplaceItem(engine, item, thema');
          content' := ReplaceItem(engine, item, content');
        }
        i := i + 1;
      }
    }
  }
}
