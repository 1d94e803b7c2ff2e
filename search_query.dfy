/**
 * The query side of `searchEngine`: the condition map handed to the
 * database search, the redirect taken for a solution id, and the WHERE
 * clause of the fallback query built from the whitespace-separated keys
 * of the term. `prefix` is the table prefix (`SQLPREFIX`).
 */
module SearchQuery {
  import opened Wrappers
  import opened Text

  // ---------------------------------------------------------------------
  // The condition map (lines 943-951)

  /** One `column => value` entry of the condition array. */
  datatype Condition = Condition(column: string, value: string)

  function ActiveColumn(prefix: string): string { prefix + "faqdata.active" }
  function CategoryColumn(prefix: string): string { prefix + "faqcategoryrelations.category_id" }
  function LangColumn(prefix: string): string { prefix + "faqdata.lang" }

  lemma ColumnsDiffer(prefix: string)
    ensures ActiveColumn(prefix) != CategoryColumn(prefix)
    ensures ActiveColumn(prefix) != LangColumn(prefix)
    ensures CategoryColumn(prefix) != LangColumn(prefix)
  {
    var n := |prefix|;
    assert ActiveColumn(prefix)[n + 8] == 'a' && LangColumn(prefix)[n + 8] == 'l';
    assert ActiveColumn(prefix)[n + 3] == 'd' && CategoryColumn(prefix)[n + 3] == 'c';
    assert LangColumn(prefix)[n + 3] == 'd';
  }

  /**
   * The conditions in array order: `array_merge` puts each added entry in
   * front, so the language comes first, then the category, and the
   * active flag last.
   */
  function Conditions(prefix: string, cat: string, allLanguages: bool, numericTerm: bool, langCode: string)
    : (r: seq<Condition>)
    ensures |r| == 1 + (if cat != "%" then 1 else 0) + (if !allLanguages && !numericTerm then 1 else 0)
    ensures r[|r| - 1] == Condition(ActiveColumn(prefix), "'yes'")
    ensures Condition(CategoryColumn(prefix), cat) in r <==> cat != "%"
    ensures Condition(LangColumn(prefix), "'" + langCode + "'") in r <==> !allLanguages && !numericTerm
  {
    ColumnsDiffer(prefix);
    var active := [Condition(ActiveColumn(prefix), "'yes'")];
    var withCat := if cat != "%" then [Condition(CategoryColumn(prefix), cat)] + active else active;
    if !allLanguages && !numericTerm then [Condition(LangColumn(prefix), "'" + langCode + "'")] + withCat
    else withCat
  }

  // ---------------------------------------------------------------------
  // The redirect (lines 993-1002)

  /**
   * The term is numeric, at least the first solution id, and the search
   * found something: the visitor is sent to the record straight away,
   * before any permission is looked at.
   */
  predicate Redirects(termValue: Option<real>, solutionIdStart: int, num: nat) {
    termValue.Some? && termValue.value >= solutionIdStart as real && num > 0
  }

  /** The `Location` of the redirect; `systemUri` is `getSystemUri('/index.php')`. */
  function RedirectTarget(systemUri: string, rewriteRules: bool, term: string): (r: string)
    ensures rewriteRules ==> r == systemUri + "/solution_id_" + term + ".html"
    ensures !rewriteRules ==> r == systemUri + "/index.php?solution_id=" + term
  {
    systemUri + (if rewriteRules then "/solution_id_" + term + ".html" else "/index.php?solution_id=" + term)
  }

  // ---------------------------------------------------------------------
  // preg_split("/\s+/", $searchterm)

  /** The length of the leading run of non-white-space characters. */
  function WordLen(s: string): (k: nat)
    ensures k <= |s|
    ensures forall i :: 0 <= i < k ==> !IsSpaceChar(s[i])
    ensures k == |s| || IsSpaceChar(s[k])
  {
    if s == [] || IsSpaceChar(s[0]) then 0 else 1 + WordLen(s[1..])
  }

  /**
   * The keys: the stretches between runs of white space. White space at
   * either end gives an empty first or last key.
   */
  function SplitWs(s: string): (keys: seq<string>)
    ensures |keys| >= 1
    ensures forall i, j :: 0 <= i < |keys| && 0 <= j < |keys[i]| ==> !IsSpaceChar(keys[i][j])
    decreases |s|
  {
    var k := WordLen(s);
    if k == |s| then [s]
    else [s[..k]] + SplitWs(s[k + SpaceRun(s[k..])..])
  }

  /** The characters of `s` that are not white space, in order. */
  function RemoveWs(s: string): string {
    if s == [] then [] else (if IsSpaceChar(s[0]) then [] else [s[0]]) + RemoveWs(s[1..])
  }

  /** All parts one after the other. */
  function Flatten(parts: seq<string>): string {
    if parts == [] then [] else parts[0] + Flatten(parts[1..])
  }

  lemma {:induction false} RemoveWsWord(s: string)
    requires forall i :: 0 <= i < |s| ==> !IsSpaceChar(s[i])
    ensures RemoveWs(s) == s
  {
    if s != [] {
      RemoveWsWord(s[1..]);
    }
  }

  /** A word in front is kept as it is. */
  lemma {:induction false} RemoveWsKeep(word: string, rest: string)
    requires forall i :: 0 <= i < |word| ==> !IsSpaceChar(word[i])
    ensures RemoveWs(word + rest) == word + RemoveWs(rest)
  {
    if word != [] {
      assert (word + rest)[1..] == word[1..] + rest;
      RemoveWsKeep(word[1..], rest);
      assert [word[0]] + (word[1..] + RemoveWs(rest)) == word + RemoveWs(rest);
    } else {
      assert word + rest == rest;
    }
  }

  /** White space in front is dropped. */
  lemma {:induction false} RemoveWsSkip(spaces: string, rest: string)
    requires forall i :: 0 <= i < |spaces| ==> IsSpaceChar(spaces[i])
    ensures RemoveWs(spaces + rest) == RemoveWs(rest)
  {
    if spaces != [] {
      assert (spaces + rest)[1..] == spaces[1..] + rest;
      RemoveWsSkip(spaces[1..], rest);
    } else {
      assert spaces + rest == rest;
    }
  }

  /** Removing white space from a word, a run of white space and a rest keeps the word and the rest's text. */
  lemma RemoveWsAround(s: string, k: nat, run: nat)
    requires k <= |s| && k + run <= |s|
    requires forall i :: 0 <= i < k ==> !IsSpaceChar(s[i])
    requires forall i :: k <= i < k + run ==> IsSpaceChar(s[i])
    ensures RemoveWs(s) == s[..k] + RemoveWs(s[k + run..])
  {
    var spaces, rest := s[k..k + run], s[k + run..];
    assert spaces + rest == s[k..];
    assert s == s[..k] + s[k..];
    RemoveWsSkip(spaces, rest);
    RemoveWsKeep(s[..k], spaces + rest);
  }

  /** The keys together are exactly the term's other characters: splitting loses nothing but white space. */
  lemma {:induction false} SplitWsFlatten(s: string)
    ensures Flatten(SplitWs(s)) == RemoveWs(s)
    decreases |s|
  {
    var k := WordLen(s);
    if k == |s| {
      RemoveWsWord(s);
      assert Flatten([s]) == s + Flatten([]);
    } else {
      var run := SpaceRun(s[k..]);
      var rest := s[k + run..];
      SplitWsFlatten(rest);
      RemoveWsAround(s, k, run);
      var keys := SplitWs(s);
      assert keys == [s[..k]] + SplitWs(rest);
      assert keys[1..] == SplitWs(rest);
    }
  }

  /** A term without white space is a single key. */
  lemma SplitWsSingle(s: string)
    requires forall i :: 0 <= i < |s| ==> !IsSpaceChar(s[i])
    ensures SplitWs(s) == [s]
  {
  }

  // ---------------------------------------------------------------------
  // The fallback WHERE clause (lines 1004-1022)

  /** The LIKE pattern of a key: the key between "%" wildcards, in quotes. */
  function Pattern(key: string): string {
    "'%" + key + "%'"
  }

  function Like(column: string, key: string): string {
    column + " LIKE " + Pattern(key)
  }

  /** The title, content and keywords tests of one key. */
  function LikeTests(prefix: string, key: string): string {
    "(" + Like(prefix + "faqdata.thema", key) + " OR " + Like(prefix + "faqdata.content", key)
    + " OR " + Like(prefix + "faqdata.keywords", key) + ")"
  }

  function CategoryAnd(prefix: string, cat: string): string {
    " AND " + prefix + "faqcategoryrelations.category_id = " + cat
  }

  function LangAnd(prefix: string, langCode: string): string {
    " AND " + prefix + "faqdata.lang = '" + langCode + "'"
  }

  /** The scope a clause is restricted to. */
  datatype Scope = Scope(prefix: string, catNumeric: bool, cat: string, allLanguages: bool, langCode: string)

  /** The category test, present when the category is numeric. */
  function CategoryTest(sc: Scope): string {
    if sc.catNumeric then CategoryAnd(sc.prefix, sc.cat) else ""
  }

  /** The language test, present when only the current language is searched. */
  function LangTest(sc: Scope): string {
    if !sc.allLanguages then LangAnd(sc.prefix, sc.langCode) else ""
  }

  /** The clause of one key: its LIKE tests, then the category and language tests when they apply. */
  function Clause(sc: Scope, key: string): string {
    LikeTests(sc.prefix, key) + CategoryTest(sc) + LangTest(sc)
  }

  /** The clauses of the keys, in order. */
  function Clauses(sc: Scope, keys: seq<string>): (r: seq<string>)
    ensures |r| == |keys|
    decreases |keys|
  {
    if keys == [] then [] else Clauses(sc, keys[..|keys| - 1]) + [Clause(sc, keys[|keys| - 1])]
  }

  /** The test that closes the WHERE clause: only active records. */
  function ActiveTest(prefix: string): string {
    ") AND " + prefix + "faqdata.active = 'yes'"
  }

  /** The whole clause: the keys' clauses joined by " OR ", and only active records. */
  function WhereClause(sc: Scope, keys: seq<string>): string {
    " WHERE (" + Implode(" OR ", Clauses(sc, keys)) + ActiveTest(sc.prefix)
  }

  /** The fallback query; the WHERE clause closes it. */
  function FallbackQuery(prefix: string, where: string): string {
    "SELECT " + prefix + "faqdata.id AS id, " + prefix + "faqdata.lang AS lang, "
    + prefix + "faqcategoryrelations.category_id AS category_id, " + prefix + "faqdata.thema AS thema, "
    + prefix + "faqdata.content AS content FROM " + prefix + "faqdata LEFT JOIN "
    + prefix + "faqcategoryrelations ON " + prefix + "faqdata.id = "
    + prefix + "faqcategoryrelations.record_id AND " + prefix + "faqdata.lang = "
    + prefix + "faqcategoryrelations.record_lang " + where
  }

  lemma ClausesSnoc(sc: Scope, keys: seq<string>, i: int)
    requires 0 <= i < |keys|
    ensures Clauses(sc, keys[..i + 1]) == Clauses(sc, keys[..i]) + [Clause(sc, keys[i])]
  {
    assert keys[..i + 1][..i] == keys[..i];
  }

  /** One more part of a join: the separator unless it is the first, then the part. */
  lemma JoinStep(sep: string, parts: seq<string>, before: string, joined: string,
                 a: string, b: string, c: string, part: string, after: string)
    requires before == Implode(sep, parts)
    requires joined == before + (if parts != [] then sep else "")
    requires part == a + b + c
    requires after == joined + a + b + c
    ensures after == Implode(sep, parts + [part])
  {
    assert after == joined + (a + b + c);
    ImplodeSnoc(sep, parts, part);
  }

  /** The text built after the first `i` keys: their clauses joined by " OR ", empty only before the first. */
  predicate Built(sc: Scope, keys: seq<string>, i: int, where: string) {
    0 <= i <= |keys| && where == Implode(" OR ", Clauses(sc, keys[..i])) && (|where| == 0 <==> i == 0)
  }

  /** One turn of the loop adds the clause of the next key. */
  lemma WhereStep(sc: Scope, keys: seq<string>, i: int, before: string, after: string)
    requires i < |keys| && Built(sc, keys, i, before)
    requires after == before + (if |before| != 0 then " OR " else "")
                      + LikeTests(sc.prefix, keys[i]) + CategoryTest(sc) + LangTest(sc)
    ensures Built(sc, keys, i + 1, after)
  {
    ClausesSnoc(sc, keys, i);
    var joined := before + (if |before| != 0 then " OR " else "");
    JoinStep(" OR ", Clauses(sc, keys[..i]), before, joined, LikeTests(sc.prefix, keys[i]),
             CategoryTest(sc), LangTest(sc), Clause(sc, keys[i]), after);
    assert |after| >= |LikeTests(sc.prefix, keys[i])| > 0;
  }

  /** The body of the loop of lines 1008-1019: the separator, then the clause of one key. */
  method AddClause(sc: Scope, where: string, key: string) returns (after: string)
    ensures after == where + (if |where| != 0 then " OR " else "")
                      + LikeTests(sc.prefix, key) + CategoryTest(sc) + LangTest(sc)
  {
    after := where;
    if |after| != 0 {
      after := after + " OR ";
    }
    ghost var joined := after;
    after := after + LikeTests(sc.prefix, key);
    ghost var liked := after;
    if sc.catNumeric {
      after := after + CategoryAnd(sc.prefix, sc.cat);
    }
    assert after == liked + CategoryTest(sc);
    ghost var catted := after;
    if !sc.allLanguages {
      after := after + LangAnd(sc.prefix, sc.langCode);
    }
    assert after == catted + LangTest(sc);
  }

  /**
   * The loop of lines 1007-1019: " OR " before every clause but the
   * first (the clause always starts with "(", so the text is never empty
   * after the first), then the clause.
   */
  method BuildWhere(sc: Scope, keys: seq<string>) returns (where: string)
    ensures where == WhereClause(sc, keys)
  {
    where := "";
    var i := 0;
    while i < |keys|
      invariant Built(sc, keys, i, where)
    {
      ghost var before := where;
      where := AddClause(sc, where, keys[i]);
      WhereStep(sc, keys, i, before, where);
      i := i + 1;
    }
    assert keys[..i] == keys;
    where := " WHERE (" + where + (") AND " + sc.prefix + "faqdata.active = 'yes'");
  }

  // ---------------------------------------------------------------------
  // Every key reaches the SQL text as it is

  /** Every part of a join appears in it. */
  lemma {:induction false} ImplodeHasPart(sep: string, parts: seq<string>, i: int) returns (j: int)
    requires 0 <= i < |parts|
    ensures OccursAt(Implode(sep, parts), parts[i], j)
    decreases |parts|
  {
    if |parts| == 1 {
      j := 0;
      assert Implode(sep, parts)[0..|parts[0]|] == parts[0];
    } else if i == 0 {
      j := 0;
      OccursWithin(parts[0], parts[0], 0, [], sep + Implode(sep, parts[1..]));
      assert [] + parts[0] + (sep + Implode(sep, parts[1..])) == Implode(sep, parts);
    } else {
      var k := ImplodeHasPart(sep, parts[1..], i - 1);
      OccursWithin(Implode(sep, parts[1..]), parts[i], k, parts[0] + sep, []);
      assert parts[0] + sep + Implode(sep, parts[1..]) + [] == Implode(sep, parts);
      j := |parts[0] + sep| + k;
    }
  }

  lemma {:induction false} ClausesAt(sc: Scope, keys: seq<string>, i: int)
    requires 0 <= i < |keys|
    ensures Clauses(sc, keys)[i] == Clause(sc, keys[i])
    decreases |keys|
  {
    if i < |keys| - 1 {
      ClausesAt(sc, keys[..|keys| - 1], i);
    }
  }

  /** A key's pattern appears in its clause, in the title test. */
  lemma ClauseHasPattern(sc: Scope, key: string) returns (j: int)
    ensures OccursAt(Clause(sc, key), Pattern(key), j)
  {
    var column := sc.prefix + "faqdata.thema";
    var title := Like(column, key);
    OccursAtEnd(column + " LIKE ", Pattern(key));
    OccursAtEnd("(", title);
    OccursTrans("(" + title, title, Pattern(key), 1, |column + " LIKE "|);
    j := 1 + |column + " LIKE "|;
    var x := "(" + title;
    OccursExtended(x, Pattern(key), j, " OR ");
    x := x + " OR ";
    OccursExtended(x, Pattern(key), j, Like(sc.prefix + "faqdata.content", key));
    x := x + Like(sc.prefix + "faqdata.content", key);
    OccursExtended(x, Pattern(key), j, " OR ");
    x := x + " OR ";
    OccursExtended(x, Pattern(key), j, Like(sc.prefix + "faqdata.keywords", key));
    x := x + Like(sc.prefix + "faqdata.keywords", key);
    OccursExtended(x, Pattern(key), j, ")");
    x := x + ")";
    assert x == LikeTests(sc.prefix, key);
    OccursExtended(x, Pattern(key), j, CategoryTest(sc));
    x := x + CategoryTest(sc);
    OccursExtended(x, Pattern(key), j, LangTest(sc));
  }

  /** Occurring in a part that occurs in a text, surrounded by more text. */
  lemma OccursNested(joined: string, part: string, p: string, j: int, k: int, a: string, c: string)
    requires OccursAt(joined, part, j) && OccursAt(part, p, k)
    ensures OccursAt(a + joined + c, p, |a| + j + k)
  {
    OccursTrans(joined, part, p, j, k);
    OccursWithin(joined, p, j + k, a, c);
  }

  /**
   * The fallback query is built by pasting the keys in unescaped: each key
   * appears, exactly as typed, between the quotes of a LIKE pattern.
   */
  lemma WhereHasEveryKey(sc: Scope, keys: seq<string>, i: int)
    requires 0 <= i < |keys|
    ensures Contains(WhereClause(sc, keys), Pattern(keys[i]))
  {
    var parts := Clauses(sc, keys);
    var k := ClauseHasPattern(sc, keys[i]);
    ClausesAt(sc, keys, i);
    var j := ImplodeHasPart(" OR ", parts, i);
    OccursNested(Implode(" OR ", parts), parts[i], Pattern(keys[i]), j, k, " WHERE (", ActiveTest(sc.prefix));
  }
}
