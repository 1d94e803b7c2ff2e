/**
 * `PageSpan`: the page switcher of the admin area. `code` is an opening
 * link tag in which "<NUM>" stands for the page number; the translated
 * labels are parameters.
 */
module AdminPager {
  import opened Text

  /** The three translated strings `PageSpan` reads. */
  datatype Labels = Labels(previousPage: string, nextPage: string, pageDoublePoint: string)

  /** The link tag for page `n`, with `text` as its caption. */
  function Link(code: string, n: int, text: string): (r: string)
    ensures EndsWith(r, "</a>")
  {
    var l := StrReplace(code, "<NUM>", IntToString(n)) + text + "</a>";
    assert l[|l| - 4..] == "</a>";
    l
  }

  /** The entry for page `h`: a link, except for the current page `akt`, which is plain. */
  function Entry(code: string, h: int, akt: int): string {
    if h != akt then Link(code, h, IntToString(h)) else IntToString(h)
  }

  /** The entries for the `n` pages from `start` on. */
  function Entries(code: string, start: int, n: nat, akt: int): (r: seq<string>)
    ensures |r| == n
    ensures forall i :: 0 <= i < n ==> r[i] == Entry(code, start + i, akt)
  {
    if n == 0 then []
    else
      var prev := Entries(code, start, n - 1, akt);
      var r := prev + [Entry(code, start + n - 1, akt)];
      assert forall i :: 0 <= i < n - 1 ==> r[i] == prev[i];
      r
  }

  function Previous(code: string, start: int, akt: int, labels: Labels): string {
    if akt > start then Link(code, akt - 1, labels.previousPage) + " | " else ""
  }

  function Next(code: string, end: int, akt: int, labels: Labels): string {
    if akt < end then " | " + Link(code, akt + 1, labels.nextPage) else ""
  }

  /** The number of pages from `start` to `end`, both included. */
  function PageCount(start: int, end: int): nat {
    if end < start then 0 else end - start + 1
  }

  /** The whole switcher: label, previous link, the entries separated by ", ", next link. */
  function PageSpanText(code: string, start: int, end: int, akt: int, labels: Labels): string {
    labels.pageDoublePoint
    + (Previous(code, start, akt, labels)
       + Implode(", ", Entries(code, start, PageCount(start, end), akt))
       + Next(code, end, akt, labels))
  }

  lemma EntriesSnoc(code: string, start: int, n: nat, akt: int)
    ensures Entries(code, start, n + 1, akt) == Entries(code, start, n, akt) + [Entry(code, start + n, akt)]
  {
  }

  /** One turn of the loop: the separator and the next entry extend the joined entries. */
  lemma AppendEntry(head: string, parts: seq<string>, entry: string, before: string, after: string)
    requires before == head + Implode(", ", parts)
    requires after == before + (if parts != [] then ", " else "") + entry
    ensures after == head + Implode(", ", parts + [entry])
  {
    var joined := Implode(", ", parts);
    var sep := if parts != [] then ", " else "";
    assert head + joined + sep + entry == head + (joined + sep + entry);
    ImplodeSnoc(", ", parts, entry);
  }

  /** The pieces the method builds, put together, are the whole switcher. */
  lemma Assemble(code: string, start: int, end: int, akt: int, labels: Labels, head: string, body: string, tail: string)
    requires head == Previous(code, start, akt, labels)
    requires body == head + Implode(", ", Entries(code, start, PageCount(start, end), akt))
    requires tail == body + Next(code, end, akt, labels)
    ensures labels.pageDoublePoint + tail == PageSpanText(code, start, end, akt, labels)
  {
  }

  /** One turn of the page loop: a separator after the first page, then the page's link, or its number when it is the current one. */
  method AddPage(code: string, start: int, h: int, akt: int, ghost head: string, ghost n: nat, out: string)
    returns (out': string)
    requires h == start + n
    requires out == head + Implode(", ", Entries(code, start, n, akt))
    ensures out' == head + Implode(", ", Entries(code, start, n + 1, akt))
  {
    out' := out;
    if h > start {
      out' := out' + ", ";
    }
    if h != akt {
      out' := out' + Link(code, h, IntToString(h));
    } else {
      out' := out' + IntToString(h);
    }
    AppendEntry(head, Entries(code, start, n, akt), Entry(code, h, akt), out, out');
    EntriesSnoc(code, start, n, akt);
  }

  /** The page loop (lines 1367-1376): appends the entries from `start` to `end`, separated by ", ", to `out`. */
  method AppendPages(code: string, start: int, end: int, akt: int, out: string) returns (out': string)
    ensures out' == out + Implode(", ", Entries(code, start, PageCount(start, end), akt))
  {
    out' := out;
    var h := start;
    ghost var n: nat := 0;
    while h <= end
      invariant h == start + n && (h <= end + 1 || n == 0)
      invariant out' == out + Implode(", ", Entries(code, start, n, akt))
      decreases end - h
    {
      out' := AddPage(code, start, h, akt, out, n, out');
      h := h + 1;
      n := n + 1;
    }
    assert n == PageCount(start, end);
  }

  /**
   * `PageSpan($code, $start, $end, $akt)`. Each link is written with
   * `Link`, the `str_replace("<NUM>", ...)` tag followed by its caption
   * and "</a>".
   */
  method PageSpan(code: string, start: int, end: int, akt: int, labels: Labels) returns (out: string)
    ensures out == PageSpanText(code, start, end, akt, labels)
  {
    if akt > start {
      out := Link(code, akt - 1, labels.previousPage) + " | ";
    } else {
      out := "";
    }
    ghost var head := out;
    assert head == Previous(code, start, akt, labels);
    out := AppendPages(code, start, end, akt, out);
    ghost var body := out;
    if akt < end {
      out := out + (" | " + Link(code, akt + 1, labels.nextPage));
    }
    Assemble(code, start, end, akt, labels, head, body, out);
    out := labels.pageDoublePoint + out;
  }

  lemma IntToStringEndsInDigit(i: int)
    ensures var r := IntToString(i); IsDigit(r[|r| - 1])
  {
  }

  /** An entry is plain, the number alone, exactly when it is the current page. */
  lemma EntryPlainIffCurrent(code: string, h: int, akt: int)
    ensures Entry(code, h, akt) == IntToString(h) <==> h == akt
  {
    if h != akt {
      var l := Entry(code, h, akt);
      IntToStringEndsInDigit(h);
      assert l[|l| - 1] == '>';
    }
  }

  /**
   * Among the pages from `start` to `end`, exactly the current one is
   * shown without a link, and every other one links to its own number.
   */
  lemma OnlyCurrentPageUnlinked(code: string, start: int, end: int, akt: int)
    ensures var es := Entries(code, start, PageCount(start, end), akt);
            forall i :: 0 <= i < |es| ==>
              (es[i] == IntToString(start + i) <==> start + i == akt)
              && (start + i != akt ==> es[i] == Link(code, start + i, IntToString(start + i)))
  {
    var es := Entries(code, start, PageCount(start, end), akt);
    forall i | 0 <= i < |es|
      ensures es[i] == IntToString(start + i) <==> start + i == akt
    {
      EntryPlainIffCurrent(code, start + i, akt);
    }
  }
}
