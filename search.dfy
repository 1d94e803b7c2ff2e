/**
 * `searchEngine($searchterm, $cat, $allLanguages, $hasMore, $instantRespnse)`
 * (functions.php lines 928-1182) with its collaborators made explicit: the
 * database searches, the permission lists, the category paths, the link
 * builder and PHP's string library are fields of an environment, the
 * configuration and the request are values, and the redirect is returned
 * instead of being sent as a header.
 */
module Search {
  import opened Wrappers
  import opened Text
  import Chop
  import Highlight
  import Permission
  import SearchQuery

  /** A row of a result set, with the group and user lists `getPermission` gives for its record. */
  datatype Row = Row(id: int, lang: string, categoryId: int, thema: string, content: string,
                     permGroup: seq<int>, permUser: seq<int>)

  /**
   * The configuration the search reads: the table prefix, `main.numberOfRecordsPerPage`,
   * `main.permLevel`, `main.enableRewriteRules` and `PMF_SOLUTION_ID_START_VALUE`.
   */
  datatype Config = Config(prefix: string, perPage: int, permLevel: string, rewriteRules: bool,
                           solutionIdStart: int)

  /**
   * The call and its request: the term as typed; its value when
   * `is_numeric` accepts it; the category ("%" for all) and whether it is
   * numeric; the flags; the raw `seite` parameter; the language code, the
   * session id part of links, and the visitor's user id and groups.
   */
  datatype Request = Request(term: string, termValue: Option<real>, cat: string, catNumeric: bool,
                             allLanguages: bool, hasMore: bool, instantResponse: bool,
                             seiteParam: Option<string>, langCode: string, sids: string,
                             currentUser: int, currentGroups: seq<int>)

  /** The messages of the current language the page is made of. */
  datatype Labels = Labels(noArticles: string, searchAmount: string, searchAmounts: string,
                           maxRecords: int -> string, page: string, voteFrom: string, pages: string,
                           searchContent: string, previous: string, next: string)

  /**
   * What the search calls and cannot be seen here: `htmlspecialchars`,
   * `stripslashes`, `strip_tags`, `urlencode`, the category path, the
   * anchor a `PMF_Link` renders for a url, item title, text and tooltip,
   * the system and relative uris, the regular-expression engine of the
   * highlighting, the first search (None when it fails) and the fallback
   * query.
   */
  datatype Env = Env(htmlEntities: string -> string, stripSlashes: string -> string,
                     stripTags: string -> string, urlEncode: string -> string,
                     categoryPath: int -> string, anchor: (string, string, string, string) -> string,
                     systemUri: string, relativeUri: string, ajaxUri: string,
                     engine: Highlight.Engine,
                     search: (seq<SearchQuery.Condition>, bool, string) -> Option<seq<Row>>,
                     query: string -> seq<Row>)

  /** The search either sends the visitor to a record or returns a page. */
  datatype Outcome = Redirect(location: string) | Page(html: string)

  // ---------------------------------------------------------------------
  // The page window (lines 934-941, 1031-1036, 1055-1063)

  /** `$seite`: 1 unless the request has one, then `(int)` of it. */
  function Seite(seiteParam: Option<string>): int {
    if seiteParam.Some? then LeadingInt(seiteParam.value) else 1
  }

  /** `ceil($num / perPage)`, the number of pages. */
  function Pages(num: nat, perPage: int): (pages: nat)
    requires perPage > 0
    ensures pages * perPage >= num
    ensures pages > 0 ==> (pages - 1) * perPage < num
  {
    (num + perPage - 1) / perPage
  }

  /** `$first`: how many rows the loop passes over before it examines any. */
  function First(seite: int, perPage: int): int {
    (seite - 1) * perPage
  }

  /** The rows actually passed over: none when `$first` is not positive, all when it is past the end. */
  function Skipped(first: int, num: nat): (k: nat)
    ensures k <= num
  {
    if first <= 0 then 0 else if first >= num then num else first
  }

  /** The rows the loop examines after passing over `first`: at most `perPage`, denied rows included. */
  function WindowAt(rows: seq<Row>, first: int, perPage: int): (w: seq<Row>)
    requires perPage > 0
  {
    var k := Skipped(first, |rows|);
    rows[k..if k + perPage <= |rows| then k + perPage else |rows|]
  }

  /** The rows page `seite` examines. */
  function Window(rows: seq<Row>, seite: int, perPage: int): (w: seq<Row>)
    requires perPage > 0
  {
    WindowAt(rows, First(seite, perPage), perPage)
  }

  /** The examined rows the permission gate lets through, in retrieval order. */
  function Shown(level: string, groups: seq<int>, user: int, rows: seq<Row>): (r: seq<Row>)
    ensures |r| <= |rows|
    decreases |rows|
  {
    if rows == [] then []
    else
      var last := rows[|rows| - 1];
      Shown(level, groups, user, rows[..|rows| - 1])
        + (if Permission.Permitted(level, groups, user, last.permGroup, last.permUser) then [last] else [])
  }

  /** A page never examines more than `perPage` rows, and page `seite` from 1 on starts at `(seite - 1) * perPage`. */
  lemma WindowOfPage(rows: seq<Row>, seite: int, perPage: int)
    requires perPage > 0
    ensures |Window(rows, seite, perPage)| <= perPage
    ensures 1 <= seite && (seite - 1) * perPage < |rows| ==>
              Window(rows, seite, perPage)
                == rows[(seite - 1) * perPage..if seite * perPage <= |rows| then seite * perPage else |rows|]
  {
    if 1 <= seite {
      assert (seite - 1) * perPage + perPage == seite * perPage;
    }
  }

  /** Every row lies on exactly one page: row `j` is at place `j % perPage` of page `j / perPage + 1`, a page that exists. */
  lemma EveryRowOnAPage(rows: seq<Row>, perPage: int, j: int)
    requires perPage > 0 && 0 <= j < |rows|
    ensures var seite := j / perPage + 1;
            1 <= seite <= Pages(|rows|, perPage)
            && j % perPage < |Window(rows, seite, perPage)|
            && Window(rows, seite, perPage)[j % perPage] == rows[j]
  {
    var q, m := j / perPage, j % perPage;
    var first := q * perPage;
    assert first + m == j;
    assert First(q + 1, perPage) == first;
    RowInWindow(rows, first, perPage, m);
    MulLess(q, Pages(|rows|, perPage), perPage);
  }

  /** Place `m` of the window that starts at row `first` is row `first + m`. */
  lemma RowInWindow(rows: seq<Row>, first: int, perPage: int, m: int)
    requires 0 <= first && 0 <= m < perPage && first + m < |rows|
    ensures m < |WindowAt(rows, first, perPage)| && WindowAt(rows, first, perPage)[m] == rows[first + m]
  {
  }

  lemma MulLess(a: int, b: int, p: int)
    requires p > 0 && a * p < b * p
    ensures a < b
  {
    assert (b - a) * p == b * p - a * p > 0;
  }

  lemma ShownSnoc(level: string, groups: seq<int>, user: int, rows: seq<Row>, r: Row)
    ensures Shown(level, groups, user, rows + [r])
              == Shown(level, groups, user, rows)
                 + (if Permission.Permitted(level, groups, user, r.permGroup, r.permUser) then [r] else [])
  {
    assert (rows + [r])[..|rows|] == rows;
  }

  /** A row is shown exactly when it is examined and permitted. */
  lemma {:induction false} ShownIffPermitted(level: string, groups: seq<int>, user: int, rows: seq<Row>, r: Row)
    ensures (r in Shown(level, groups, user, rows))
            <==> (r in rows && Permission.Permitted(level, groups, user, r.permGroup, r.permUser))
    decreases |rows|
  {
    if rows != [] {
      var init := rows[..|rows| - 1];
      ShownIffPermitted(level, groups, user, init, r);
      assert rows == init + [rows[|rows| - 1]];
    }
  }

  /** Denied rows use up the page: a window of denied rows shows nothing, whatever follows it. */
  lemma {:induction false} DeniedRowsShowNothing(level: string, groups: seq<int>, user: int, rows: seq<Row>)
    requires forall i :: 0 <= i < |rows| ==> !Permission.Permitted(level, groups, user, rows[i].permGroup, rows[i].permUser)
    ensures Shown(level, groups, user, rows) == []
    decreases |rows|
  {
    if rows != [] {
      DeniedRowsShowNothing(level, groups, user, rows[..|rows| - 1]);
    }
  }

  // ---------------------------------------------------------------------
  // One listed row (lines 1090-1138)

  /** `$_searchterm`: the term as typed, slashes stripped, made HTML-safe. */
  function EscapedTerm(env: Env, req: Request): string {
    env.htmlEntities(env.stripSlashes(req.term))
  }

  /** The term after `k` permitted rows: each row cleans and quotes it once more (lines 1093-1094). */
  function Requoted(term: string, k: nat): string {
    if k == 0 then term else Highlight.Requote(Requoted(term, k - 1))
  }

  /** The title or the excerpt after highlighting: only when the first item is longer than one character. */
  function Excerpt(engine: Highlight.Engine, items: seq<string>, s: string): string
    requires |items| >= 1
  {
    if |items[0]| > 1 then Highlight.HighlightAll(engine, items, s) else s
  }

  /** The link to the record, from the query string of line 1115 on. */
  function ArticleUrl(env: Env, req: Request, row: Row): string {
    "?" + req.sids + "action=artikel&amp;cat=" + IntToString(row.categoryId) + "&amp;id=" + IntToString(row.id)
    + "&amp;artlang=" + row.lang + "&amp;highlight=" + env.urlEncode(EscapedTerm(env, req))
  }

  /** The page the link points to: the Ajax responder's for Instant Response, else the relative uri. */
  function CurrentUrl(env: Env, req: Request): string {
    if req.instantResponse then env.ajaxUri + "index.php" else env.relativeUri
  }

  /** The list item of a row, from its path, link, the content heading and the excerpt. */
  function RowItem(path: string, link: string, heading: string, content: string): string {
    "<li><strong>" + path + "</strong>: " + link + "<br />"
    + "<div class=\"searchpreview\"><strong>" + heading + "</strong> " + content + "...</div>"
    + "<br /></li>" + "\n"
  }

  /**
   * The item of a permitted row, given the term as that row leaves it:
   * the title cut to 15 words and made HTML-safe, the content stripped of
   * tags and cut to 25 words, both highlighted with the items of the term.
   */
  function RowHtml(env: Env, req: Request, labels: Labels, row: Row, term: string): string {
    var items := Explode(' ', term);
    var thema := Excerpt(env.engine, items, env.htmlEntities(Chop.ChopOf(row.thema, 15)));
    var content := Excerpt(env.engine, items, Chop.ChopOf(env.stripTags(row.content), 25));
    var link := env.anchor(CurrentUrl(env, req) + ArticleUrl(env, req, row), row.thema, thema, row.thema);
    RowItem(env.categoryPath(row.categoryId), link, labels.searchContent, content)
  }

  /** The item builder of a page: a row and the term it sees give its item. */
  function Item(env: Env, req: Request, labels: Labels): (Row, string) -> string {
    (row, term) => RowHtml(env, req, labels, row, term)
  }

  /**
   * `item` builds the items of this page. The link is only drawn where an
   * item has just been rendered, so the row loop reasons about `item`
   * without the markup behind it.
   */
  ghost predicate Builds(item: (Row, string) -> string, env: Env, req: Request, labels: Labels) {
    forall row, term {:trigger RowHtml(env, req, labels, row, term)} ::
      item(row, term) == RowHtml(env, req, labels, row, term)
  }

  /** The page's own item builder builds its items. */
  lemma ItemBuilds(env: Env, req: Request, labels: Labels)
    ensures Builds(Item(env, req, labels), env, req, labels)
  {
  }

  /** The items of the shown rows; the `j`-th row (from 0) sees the term quoted `j + 1` times. */
  function Listing(item: (Row, string) -> string, shown: seq<Row>, term: string): string
    decreases |shown|
  {
    if shown == [] then []
    else Listing(item, shown[..|shown| - 1], term) + item(shown[|shown| - 1], Requoted(term, |shown|))
  }

  lemma ListingSnoc(item: (Row, string) -> string, shown: seq<Row>, r: Row, term: string)
    ensures Listing(item, shown + [r], term) == Listing(item, shown, term) + item(r, Requoted(term, |shown| + 1))
  {
    assert (shown + [r])[..|shown|] == shown;
  }

  /** A term with nothing to clean or quote is the same for every row. */
  lemma {:induction false} PlainTermStays(term: string, k: nat)
    requires Highlight.Plain(term)
    ensures Requoted(term, k) == term
  {
    if k > 0 {
      PlainTermStays(term, k - 1);
      Highlight.RequoteFixedIff(term);
    }
  }

  /** A term with something to quote grows with every permitted row: each row sees a longer term than the one before. */
  lemma {:induction false} TermGrowsPerRow(term: string, k: nat)
    requires Highlight.QuoteCost(Highlight.Sanitize(term)) > 0
    ensures k > 0 ==> Highlight.QuoteCost(Highlight.Sanitize(Requoted(term, k))) > 0
    ensures |Requoted(term, k + 2)| > |Requoted(term, k + 1)|
  {
    if k == 0 {
      Highlight.RequoteCompounds(term);
    } else {
      TermGrowsPerRow(term, k - 1);
      assert Highlight.QuoteCost(Highlight.Sanitize(Requoted(term, k - 1))) > 0;
      Highlight.RequoteCompounds(Requoted(term, k - 1));
      Highlight.RequoteCompounds(Requoted(term, k));
    }
  }

  /**
   * Under an engine that cuts texts faithfully, the as-written callback
   * highlights nothing: every row shows its cut title and excerpt as they are.
   */
  lemma RowShowsPlainExcerpt(env: Env, req: Request, labels: Labels, row: Row, term: string)
    requires Highlight.Faithful(env.engine)
    ensures RowHtml(env, req, labels, row, term)
              == RowItem(env.categoryPath(row.categoryId),
                         env.anchor(CurrentUrl(env, req) + ArticleUrl(env, req, row), row.thema,
                                    env.htmlEntities(Chop.ChopOf(row.thema, 15)), row.thema),
                         labels.searchContent, Chop.ChopOf(env.stripTags(row.content), 25))
  {
    var items := Explode(' ', term);
    Highlight.HighlightAllUnchanged(env.engine, items, env.htmlEntities(Chop.ChopOf(row.thema, 15)));
    Highlight.HighlightAllUnchanged(env.engine, items, Chop.ChopOf(env.stripTags(row.content), 25));
  }

  // ---------------------------------------------------------------------
  // The row loop (lines 1053-1140)

  /** What the loop has gone through after `i` rows: nothing while skipping, then the rows after the skipped ones. */
  function Examined(rows: seq<Row>, k: nat, i: nat): seq<Row>
    requires k <= |rows| && i <= |rows|
  {
    if i <= k then [] else rows[k..i]
  }

  /**
   * The body of the loop for a permitted row (lines 1090-1138): the term
   * is cleaned and quoted once more, and the row's item is built with it.
   */
  method ListRow(env: Env, req: Request, labels: Labels, row: Row, searchterm: string)
    returns (item: string, searchterm': string)
    ensures searchterm' == Highlight.Requote(searchterm)
    ensures item == RowHtml(env, req, labels, row, searchterm')
  {
    var path := env.categoryPath(row.categoryId);
    var thema := Chop.ChopString(row.thema, 15);
    thema := env.htmlEntities(thema);
    var content := Chop.ChopString(env.stripTags(row.content), 25);
    searchterm' := Highlight.Sanitize(searchterm);
    searchterm' := Highlight.PregQuote(searchterm');
    var items := Explode(' ', searchterm');
    thema, content := Highlight.HighlightExcerpt(env.engine, items, thema, content);
    var link := env.anchor(CurrentUrl(env, req) + ArticleUrl(env, req, row), row.thema, thema, row.thema);
    item := RowItem(path, link, labels.searchContent, content);
    assert item == RowHtml(env, req, labels, row, searchterm');
  }

  /** The variables the row loop updates: `$counter`, `$displayedCounter`, the text appended so far and `$searchterm`. */
  datatype LoopVars = LoopVars(counter: int, displayed: int, listing: string, searchterm: string)

  /**
   * The loop variables `$counter`, `$displayedCounter`, the text appended
   * so far and `$searchterm` after the loop has looked at `i` rows: every
   * row counts, the rows after the skipped ones count as displayed, and
   * the text and the term are those of the permitted rows among them.
   */
  function LoopState(level: string, groups: seq<int>, user: int, item: (Row, string) -> string, term: string,
                     rows: seq<Row>, first: int, i: int): LoopVars
    requires 0 <= i <= |rows|
  {
    var k := Skipped(first, |rows|);
    var shown := Shown(level, groups, user, Examined(rows, k, i));
    LoopVars(i, if i <= k then 0 else i - k, Listing(item, shown, term), Requoted(term, |shown|))
  }

  /** A permitted row is displayed: its item is appended, built with the term quoted once more. */
  lemma LoopShow(level: string, groups: seq<int>, user: int, item: (Row, string) -> string, term: string,
                 rows: seq<Row>, first: int, i: int, counter: int, displayed: int, listing: string, searchterm: string)
    requires Skipped(first, |rows|) <= i < |rows|
    requires LoopVars(counter, displayed, listing, searchterm) == LoopState(level, groups, user, item, term, rows, first, i)
    requires Permission.Permitted(level, groups, user, rows[i].permGroup, rows[i].permUser)
    ensures var searchterm' := Highlight.Requote(searchterm);
            LoopVars(counter + 1, displayed + 1, listing + item(rows[i], searchterm'), searchterm')
            == LoopState(level, groups, user, item, term, rows, first, i + 1)
  {
    var k := Skipped(first, |rows|);
    var shown := Shown(level, groups, user, Examined(rows, k, i));
    ExaminedStep(level, groups, user, rows, k, i);
    ListingSnoc(item, shown, rows[i], term);
    assert Requoted(term, |shown| + 1) == Highlight.Requote(searchterm);
  }

  /** A denied row is displayed all the same, and leaves the text and the term as they were. */
  lemma LoopHide(level: string, groups: seq<int>, user: int, item: (Row, string) -> string, term: string,
                 rows: seq<Row>, first: int, i: int, counter: int, displayed: int, listing: string, searchterm: string)
    requires Skipped(first, |rows|) <= i < |rows|
    requires LoopVars(counter, displayed, listing, searchterm) == LoopState(level, groups, user, item, term, rows, first, i)
    requires !Permission.Permitted(level, groups, user, rows[i].permGroup, rows[i].permUser)
    ensures LoopVars(counter + 1, displayed + 1, listing, searchterm)
            == LoopState(level, groups, user, item, term, rows, first, i + 1)
  {
    var k := Skipped(first, |rows|);
    ExaminedStep(level, groups, user, rows, k, i);
    assert Shown(level, groups, user, Examined(rows, k, i + 1)) == Shown(level, groups, user, Examined(rows, k, i));
  }

  /** Examining one more row adds it to the shown rows exactly when it is permitted. */
  lemma ExaminedStep(level: string, groups: seq<int>, user: int, rows: seq<Row>, k: nat, i: nat)
    requires k <= i < |rows|
    ensures Shown(level, groups, user, Examined(rows, k, i + 1))
            == Shown(level, groups, user, Examined(rows, k, i))
               + (if Permission.Permitted(level, groups, user, rows[i].permGroup, rows[i].permUser) then [rows[i]] else [])
  {
    assert Examined(rows, k, i + 1) == Examined(rows, k, i) + [rows[i]] by {
      if i > k {
        assert rows[k..i + 1] == rows[k..i] + [rows[i]];
      }
    }
    ShownSnoc(level, groups, user, Examined(rows, k, i), rows[i]);
  }

  /** A row passed over is counted and nothing else changes: nothing has been examined yet. */
  lemma LoopSkip(level: string, groups: seq<int>, user: int, item: (Row, string) -> string, term: string,
                 rows: seq<Row>, first: int, i: int, counter: int, displayed: int, listing: string, searchterm: string)
    requires 0 <= i < Skipped(first, |rows|)
    requires LoopVars(counter, displayed, listing, searchterm) == LoopState(level, groups, user, item, term, rows, first, i)
    ensures LoopVars(counter + 1, displayed, listing, searchterm)
            == LoopState(level, groups, user, item, term, rows, first, i + 1)
  {
    var k := Skipped(first, |rows|);
    assert Examined(rows, k, i + 1) == Examined(rows, k, i) == [];
  }

  /**
   * One examined row (lines 1064-1140): the permission gate, then, for a
   * permitted row, its item with the term cleaned and quoted once more.
   */
  method ExamineRow(cfg: Config, req: Request, env: Env, labels: Labels, ghost item: (Row, string) -> string,
                    rows: seq<Row>, first: int, i: int, ghost counter: int, ghost displayed: int,
                    listing: string, searchterm: string)
    returns (listing': string, searchterm': string)
    requires Skipped(first, |rows|) <= i < |rows|
    requires Builds(item, env, req, labels)
    requires LoopVars(counter, displayed, listing, searchterm)
             == LoopState(cfg.permLevel, req.currentGroups, req.currentUser, item, req.term, rows, first, i)
    ensures LoopVars(counter + 1, displayed + 1, listing', searchterm')
            == LoopState(cfg.permLevel, req.currentGroups, req.currentUser, item, req.term, rows, first, i + 1)
  {
    var row := rows[i];
    var allowed := Permission.Gate(cfg.permLevel, req.currentGroups, req.currentUser, row.permGroup, row.permUser);
    listing', searchterm' := listing, searchterm;
    if allowed {
      var text;
      text, searchterm' := ListRow(env, req, labels, row, searchterm);
      listing' := listing + text;
      LoopShow(cfg.permLevel, req.currentGroups, req.currentUser, item, req.term,
               rows, first, i, counter, displayed, listing, searchterm);
    } else {
      LoopHide(cfg.permLevel, req.currentGroups, req.currentUser, item, req.term,
               rows, first, i, counter, displayed, listing, searchterm);
    }
  }

  /** A row, counted from 1, is passed over exactly when it is among the skipped ones. */
  lemma SkipIff(first: int, num: nat, counter: int)
    requires 1 <= counter <= num
    ensures counter <= first <==> counter <= Skipped(first, num)
  {
  }

  /** Where the loop stops, it has examined exactly the window. */
  lemma LoopEndIsWindow(rows: seq<Row>, first: int, perPage: int, k: nat, i: nat, displayed: int)
    requires perPage > 0 && k == Skipped(first, |rows|) && i <= |rows|
    requires displayed == (if i <= k then 0 else i - k) && displayed <= perPage
    requires !(i < |rows| && displayed < perPage)
    ensures Examined(rows, k, i) == WindowAt(rows, first, perPage)
  {
  }

  /**
   * One turn of the row loop (lines 1055-1141): a row up to `$first` is
   * passed over; a later one is counted as displayed and then examined.
   */
  method ScanRow(cfg: Config, req: Request, env: Env, labels: Labels, ghost item: (Row, string) -> string,
                 rows: seq<Row>, first: int,
                 i: int, counter: int, displayed: int, listing: string, searchterm: string)
    returns (counter': int, displayed': int, listing': string, searchterm': string)
    requires Builds(item, env, req, labels)
    requires 0 <= i < |rows| && displayed < cfg.perPage
    requires LoopVars(counter, displayed, listing, searchterm)
             == LoopState(cfg.permLevel, req.currentGroups, req.currentUser, item, req.term, rows, first, i)
    ensures displayed' <= cfg.perPage
    ensures LoopVars(counter', displayed', listing', searchterm')
            == LoopState(cfg.permLevel, req.currentGroups, req.currentUser, item, req.term, rows, first, i + 1)
  {
    counter' := counter + 1;
    SkipIff(first, |rows|, counter');
    if counter' <= first {
      LoopSkip(cfg.permLevel, req.currentGroups, req.currentUser, item, req.term,
               rows, first, i, counter, displayed, listing, searchterm);
      displayed', listing', searchterm' := displayed, listing, searchterm;
      return;
    }
    displayed' := displayed + 1;
    listing', searchterm' := ExamineRow(cfg, req, env, labels, item, rows, first, i, counter, displayed, listing, searchterm);
  }

  /** Before the loop nothing is counted, nothing is listed and the term is as typed. */
  lemma LoopStart(level: string, groups: seq<int>, user: int, item: (Row, string) -> string, term: string,
                  rows: seq<Row>, first: int)
    ensures LoopState(level, groups, user, item, term, rows, first, 0) == LoopVars(0, 0, "", term)
  {
  }

  /** Where the loop stops, the text lists the permitted rows of the window. */
  lemma LoopEnd(level: string, groups: seq<int>, user: int, item: (Row, string) -> string, term: string,
                rows: seq<Row>, first: int, perPage: int,
                i: int, counter: int, displayed: int, listing: string, searchterm: string)
    requires perPage > 0 && 0 <= i <= |rows| && displayed <= perPage && !(i < |rows| && displayed < perPage)
    requires LoopVars(counter, displayed, listing, searchterm) == LoopState(level, groups, user, item, term, rows, first, i)
    ensures listing == Listing(item, Shown(level, groups, user, WindowAt(rows, first, perPage)), term)
  {
    LoopEndIsWindow(rows, first, perPage, Skipped(first, |rows|), i, displayed);
  }

  /**
   * The loop over the result rows: rows up to `$first` are passed over,
   * each later row is counted as displayed before the permission gate
   * looks at it, and the loop stops after `perPage` displayed rows. Each
   * permitted row cleans and quotes the term once more and appends its
   * item. Returns the text appended to the page.
   */
  method ShowRows(cfg: Config, req: Request, env: Env, labels: Labels, ghost item: (Row, string) -> string,
                  rows: seq<Row>, first: int)
    returns (listing: string)
    requires cfg.perPage > 0 && Builds(item, env, req, labels)
    ensures listing == Listing(item,
                               Shown(cfg.permLevel, req.currentGroups, req.currentUser, WindowAt(rows, first, cfg.perPage)),
                               req.term)
  {
    var searchterm := req.term;
    var counter := 0;
    var displayedCounter := 0;
    listing := "";
    var i := 0;
    LoopStart(cfg.permLevel, req.currentGroups, req.currentUser, item, req.term, rows, first);
    while i < |rows| && displayedCounter < cfg.perPage
      invariant 0 <= i <= |rows| && displayedCounter <= cfg.perPage
      invariant LoopVars(counter, displayedCounter, listing, searchterm)
                == LoopState(cfg.permLevel, req.currentGroups, req.currentUser, item, req.term, rows, first, i)
    {
      counter, displayedCounter, listing, searchterm :=
        ScanRow(cfg, req, env, labels, item, rows, first, i, counter, displayedCounter, listing, searchterm);
      i := i + 1;
    }
    LoopEnd(cfg.permLevel, req.currentGroups, req.currentUser, item, req.term, rows, first, cfg.perPage,
            i, counter, displayedCounter, listing, searchterm);
  }

  // ---------------------------------------------------------------------
  // The count line and the navigation (lines 1026-1051, 1143-1178)

  /** The text before the items: the count, the page line when there are several pages, and the list's opening tag. */
  function Summary(labels: Labels, num: nat, hasMore: bool, pages: nat, seite: int, perPage: int): string {
    (if num == 1 then "<p>" + IntToString(num) + labels.searchAmount + "</p>\n"
     else "<p>" + IntToString(num) + labels.searchAmounts
          + (if hasMore && pages > 1 then labels.maxRecords(perPage) else "") + "</p>\n")
    + (if !hasMore && pages > 1
       then "<p><strong>" + labels.page + IntToString(seite) + " " + labels.voteFrom + " "
            + IntToString(pages) + " " + labels.pages + "</strong></p>"
       else "")
    + "<ul class=\"phpmyfaq_ul\">\n"
  }

  /** `$langs`: the flag that keeps all languages on the next page. */
  function Langs(allLanguages: bool): string {
    if allLanguages then "&amp;langs=all" else ""
  }

  /** The part of the query string both links carry: the encoded term, the page and the languages flag. */
  function PageQuery(urlTerm: string, seite: int, langs: string): string {
    "search=" + urlTerm + "&amp;seite=" + IntToString(seite) + langs
  }

  /** A text occurs in itself surrounded by more text. */
  lemma ContainsMiddle(a: string, t: string, c: string)
    ensures Contains(a + t + c, t)
  {
    assert t[0..|t|] == t;
    OccursWithin(t, t, 0, a, c);
  }

  /** Each of four joined texts occurs in the whole, and the last one ends it. */
  lemma FourParts(a: string, b: string, c: string, d: string)
    ensures Contains(a + b + c + d, b) && Contains(a + b + c + d, c) && EndsWith(a + b + c + d, d)
  {
    var s := a + b + c + d;
    assert s == a + b + (c + d);
    ContainsMiddle(a, b, c + d);
    ContainsMiddle(a + b, c, d);
    assert s[|s| - |d|..] == d;
  }

  /**
   * The link to the previous page, in the rewritten or the plain form;
   * the category is printed with `%d`, so it is `(int)` of the parameter.
   */
  function PrevLink(env: Env, req: Request, labels: Labels, rewriteRules: bool, seite: int): (r: string)
    ensures Contains(r, PageQuery(env.urlEncode(EscapedTerm(env, req)), seite - 1, Langs(req.allLanguages)))
    ensures Contains(r, "&amp;searchcategory=" + IntToString(LeadingInt(req.cat)) + "\">")
    ensures EndsWith(r, labels.previous + "</a> ]")
  {
    var start := if rewriteRules then "[ <a href=\"search.html?"
                 else "[ <a href=\"index.php?" + req.sids + "action=search&amp;";
    var q := PageQuery(env.urlEncode(EscapedTerm(env, req)), seite - 1, Langs(req.allLanguages));
    var cat := "&amp;searchcategory=" + IntToString(LeadingInt(req.cat)) + "\">";
    var tail := labels.previous + "</a> ]";
    FourParts(start, q, cat, tail);
    start + q + cat + tail
  }

  /** The query string of the link to the next page; the category is pasted in as it is. */
  function NextQuery(env: Env, req: Request, seite: int): (r: string)
    ensures Contains(r, PageQuery(env.urlEncode(EscapedTerm(env, req)), seite + 1, Langs(req.allLanguages)))
    ensures EndsWith(r, "&amp;searchcategory=" + req.cat)
  {
    var start := req.sids + "&amp;action=search&amp;";
    var q := PageQuery(env.urlEncode(EscapedTerm(env, req)), seite + 1, Langs(req.allLanguages));
    var rest := "&amp;searchcategory=" + req.cat;
    ContainsMiddle(start, q, rest);
    start + q + rest
  }

  /** The previous link, there exactly when the page is not page 1. */
  function PrevPart(env: Env, req: Request, labels: Labels, rewriteRules: bool, seite: int): (r: string)
    ensures r != [] <==> seite != 1
    ensures r != [] ==> r == PrevLink(env, req, labels, rewriteRules, seite)
  {
    if seite - 1 != 0 then PrevLink(env, req, labels, rewriteRules, seite) else ""
  }

  /** The next link, there exactly when a following page exists. */
  function NextPart(env: Env, req: Request, labels: Labels, seite: int, pages: nat): (r: string)
    ensures r != [] <==> seite + 1 <= pages
    ensures r != [] ==> r == "[ " + env.anchor(env.relativeUri + "?" + NextQuery(env, req, seite), "", labels.next, labels.next) + " ]"
  {
    if seite + 1 <= pages
    then "[ " + env.anchor(env.relativeUri + "?" + NextQuery(env, req, seite), "", labels.next, labels.next) + " ]"
    else ""
  }

  /** The navigation paragraph: the previous link, a space, the next link. */
  function Nav(env: Env, req: Request, labels: Labels, rewriteRules: bool, seite: int, pages: nat): string {
    "<p align=\"center\"><strong>" + PrevPart(env, req, labels, rewriteRules, seite) + " "
    + NextPart(env, req, labels, seite, pages) + "</strong></p>"
  }

  /**
   * With more rows than one page holds there are at least two pages;
   * page 1 links only forward and the last page only back.
   */
  lemma NavAtEnds(env: Env, req: Request, labels: Labels, rewriteRules: bool, num: nat, perPage: int)
    requires 0 < perPage < num
    ensures Pages(num, perPage) >= 2
    ensures PrevPart(env, req, labels, rewriteRules, 1) == []
    ensures NextPart(env, req, labels, 1, Pages(num, perPage)) != []
    ensures PrevPart(env, req, labels, rewriteRules, Pages(num, perPage)) != []
    ensures NextPart(env, req, labels, Pages(num, perPage), Pages(num, perPage)) == []
  {
    var pages := Pages(num, perPage);
    MulLess(1, pages, perPage);
  }

  // ---------------------------------------------------------------------
  // The whole search

  /** The rows of the first search; a failed search counts as no rows. */
  function FirstRows(cfg: Config, req: Request, env: Env): seq<Row> {
    var numeric := req.termValue.Some?;
    var cond := SearchQuery.Conditions(cfg.prefix, req.cat, req.allLanguages, numeric, req.langCode);
    match env.search(cond, numeric, req.term)
    case None => []
    case Some(rows) => rows
  }

  /** The scope of the fallback clauses. */
  function FallbackScope(cfg: Config, req: Request): SearchQuery.Scope {
    SearchQuery.Scope(cfg.prefix, req.catNumeric, req.cat, req.allLanguages, req.langCode)
  }

  /** The rows of the fallback query over the white-space separated keys of the term. */
  function FallbackRows(cfg: Config, req: Request, env: Env): seq<Row> {
    var where := SearchQuery.WhereClause(FallbackScope(cfg, req), SearchQuery.SplitWs(req.term));
    env.query(SearchQuery.FallbackQuery(cfg.prefix, where))
  }

  /** The page before the navigation: the count and the listed items, or the no-articles message. */
  function PageBody(cfg: Config, req: Request, env: Env, labels: Labels, rows: seq<Row>): string
    requires cfg.perPage > 0
  {
    var num := |rows|;
    var seite := Seite(req.seiteParam);
    var pages := Pages(num, cfg.perPage);
    var shown := Shown(cfg.permLevel, req.currentGroups, req.currentUser, Window(rows, seite, cfg.perPage));
    if num > 0
    then Summary(labels, num, req.hasMore, pages, seite, cfg.perPage)
         + Listing(Item(env, req, labels), shown, req.term) + "</ul>\n"
    else labels.noArticles
  }

  /** The page over the rows found: its body, then the navigation when there is more than one page to show. */
  function PageHtml(cfg: Config, req: Request, env: Env, labels: Labels, rows: seq<Row>): string
    requires cfg.perPage > 0
  {
    var body := PageBody(cfg, req, env, labels, rows);
    if !req.hasMore && |rows| > cfg.perPage
    then body + Nav(env, req, labels, cfg.rewriteRules, Seite(req.seiteParam), Pages(|rows|, cfg.perPage))
    else body
  }

  /**
   * The navigation closes the page exactly when the search is not Instant
   * Response and the rows fill more than one page, and then there are at
   * least two pages; no rows give the no-articles message alone.
   */
  lemma PageNav(cfg: Config, req: Request, env: Env, labels: Labels, rows: seq<Row>)
    requires cfg.perPage > 0
    ensures var pages := Pages(|rows|, cfg.perPage);
            var nav := Nav(env, req, labels, cfg.rewriteRules, Seite(req.seiteParam), pages);
            !req.hasMore && |rows| > cfg.perPage ==>
              PageHtml(cfg, req, env, labels, rows) == PageBody(cfg, req, env, labels, rows) + nav && pages >= 2
    ensures req.hasMore || |rows| <= cfg.perPage ==>
              PageHtml(cfg, req, env, labels, rows) == PageBody(cfg, req, env, labels, rows)
    ensures |rows| == 0 ==> PageHtml(cfg, req, env, labels, rows) == labels.noArticles
  {
    if !req.hasMore && |rows| > cfg.perPage {
      NavAtEnds(env, req, labels, cfg.rewriteRules, |rows|, cfg.perPage);
    }
  }

  /** With rows found, the body closes the list of items. */
  lemma PageBodyCloses(cfg: Config, req: Request, env: Env, labels: Labels, rows: seq<Row>)
    requires cfg.perPage > 0 && |rows| > 0
    ensures EndsWith(PageBody(cfg, req, env, labels, rows), "</ul>\n")
  {
    var body := PageBody(cfg, req, env, labels, rows);
    assert body[|body| - 6..] == "</ul>\n";
  }

  /** What `searchEngine` does: redirect to a record, or show the page over the first search or the fallback. */
  function SearchOutcome(cfg: Config, req: Request, env: Env, labels: Labels): Outcome
    requires cfg.perPage > 0
  {
    var found := FirstRows(cfg, req, env);
    if SearchQuery.Redirects(req.termValue, cfg.solutionIdStart, |found|)
    then Redirect(SearchQuery.RedirectTarget(env.systemUri, cfg.rewriteRules, req.term))
    else Page(PageHtml(cfg, req, env, labels, if |found| == 0 then FallbackRows(cfg, req, env) else found))
  }

  /** The page over the rows found (lines 1026-1178), built piece by piece as `$output`. */
  method ShowPage(cfg: Config, req: Request, env: Env, labels: Labels, rows: seq<Row>) returns (html: string)
    requires cfg.perPage > 0
    ensures html == PageHtml(cfg, req, env, labels, rows)
  {
    var num := |rows|;
    var seite := Seite(req.seiteParam);
    var pages := Pages(num, cfg.perPage);
    var last := seite * cfg.perPage;
    var first := last - cfg.perPage;
    assert first == First(seite, cfg.perPage);
    var body;
    if num > 0 {
      var summary := Summary(labels, num, req.hasMore, pages, seite, cfg.perPage);
      ItemBuilds(env, req, labels);
      var listing := ShowRows(cfg, req, env, labels, Item(env, req, labels), rows, first);
      body := summary + listing + "</ul>\n";
    } else {
      body := labels.noArticles;
    }
    html := body;
    if !req.hasMore && num > cfg.perPage {
      html := body + Nav(env, req, labels, cfg.rewriteRules, seite, pages);
    }
  }

  /**
   * `searchEngine`: the conditions, the first search, the redirect, the
   * fallback query when nothing was found, then the page.
   */
  method SearchEngine(cfg: Config, req: Request, env: Env, labels: Labels) returns (out: Outcome)
    requires cfg.perPage > 0
    ensures out == SearchOutcome(cfg, req, env, labels)
  {
    var numeric := req.termValue.Some?;
    var cond := SearchQuery.Conditions(cfg.prefix, req.cat, req.allLanguages, numeric, req.langCode);
    var result := env.search(cond, numeric, req.term);
    var found: seq<Row> := [];
    if result.Some? {
      found := result.value;
    }
    assert found == FirstRows(cfg, req, env);
    if SearchQuery.Redirects(req.termValue, cfg.solutionIdStart, |found|) {
      out := Redirect(SearchQuery.RedirectTarget(env.systemUri, cfg.rewriteRules, req.term));
      return;
    }
    var rows := found;
    if |found| == 0 {
      var keys := SearchQuery.SplitWs(req.term);
      var where := SearchQuery.BuildWhere(FallbackScope(cfg, req), keys);
      rows := env.query(SearchQuery.FallbackQuery(cfg.prefix, where));
      assert rows == FallbackRows(cfg, req, env);
    }
    var html := ShowPage(cfg, req, env, labels, rows);
    out := Page(html);
  }

  /**
   * The redirect is decided on the first search alone, before any
   * permission is looked at: the visitor and the permission level make no
   * difference to it.
   */
  lemma RedirectBeforePermissions(cfg: Config, req: Request, env: Env, labels: Labels,
                                  level: string, user: int, groups: seq<int>)
    requires cfg.perPage > 0
    requires SearchQuery.Redirects(req.termValue, cfg.solutionIdStart, |FirstRows(cfg, req, env)|)
    ensures SearchOutcome(cfg, req, env, labels) == Redirect(SearchQuery.RedirectTarget(env.systemUri, cfg.rewriteRules, req.term))
    ensures SearchOutcome(cfg.(permLevel := level), req.(currentUser := user, currentGroups := groups), env, labels)
              == SearchOutcome(cfg, req, env, labels)
  {
    assert FirstRows(cfg.(permLevel := level), req.(currentUser := user, currentGroups := groups), env)
           == FirstRows(cfg, req, env);
  }

  /**
   * The search redirects exactly when the term is numeric, at least the
   * first solution id, and the first search found a row.
   */
  lemma RedirectIff(cfg: Config, req: Request, env: Env, labels: Labels)
    requires cfg.perPage > 0
    ensures SearchOutcome(cfg, req, env, labels).Redirect?
            <==> req.termValue.Some? && req.termValue.value >= cfg.solutionIdStart as real
                 && |FirstRows(cfg, req, env)| > 0
  {
  }

  /** Without a redirect the answer is a page; with no rows from either query it is the no-articles message alone. */
  lemma NothingFound(cfg: Config, req: Request, env: Env, labels: Labels)
    requires cfg.perPage > 0
    requires FirstRows(cfg, req, env) == [] && FallbackRows(cfg, req, env) == []
    ensures SearchOutcome(cfg, req, env, labels) == Page(labels.noArticles)
  {
  }
}
