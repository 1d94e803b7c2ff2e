/**
 * `alignTablePrefixByPattern` and `alignTablePrefix`: while a backup is
 * restored, the table named right after "DELETE FROM" or "INSERT INTO" has
 * its prefix swapped from the prefix of the system the backup came from to
 * the prefix of the system it is restored on.
 *
 * The statement pattern is a literal keyword sequence (the two callers pass
 * "DELETE FROM" and "INSERT INTO"); the regular expression
 * `/^<pattern>\s+(\w+)(\s+|$)/i` is modelled by what it accepts.
 */
module TablePrefix {
  import opened Wrappers
  import opened Text

  /** The maximal run of `\w` characters at the start of `s`. */
  function LeadingWord(s: string): (r: string)
    ensures StartsWith(s, r)
    ensures forall i :: 0 <= i < |r| ==> IsWordChar(r[i])
    ensures r == s || !IsWordChar(s[|r|])
  {
    if s != [] && IsWordChar(s[0]) then [s[0]] + LeadingWord(s[1..]) else []
  }

  /** The start of `q` spells the pattern, ASCII letters compared without case. */
  predicate StartsWithCaseless(q: string, pattern: string) {
    |pattern| <= |q| && Lower(q[..|pattern|]) == Lower(pattern)
  }

  /**
   * The table name the pattern captures: after the keywords, at least one
   * blank, then a run of word characters followed by a blank or the end.
   */
  function TableName(q: string, pattern: string): Option<string> {
    if !StartsWithCaseless(q, pattern) then None
    else
      var rest := q[|pattern|..];
      var n := SpaceRun(rest);
      var w := LeadingWord(rest[n..]);
      var after := rest[n + |w|..];
      if n == 0 || w == [] then None
      else if after == [] || IsSpaceChar(after[0]) then Some(w)
      else None
  }

  /**
   * The regular expression's reading of `q`, written as the split it
   * demands: keywords, `n` blanks, the name `w`, then a blank or the end.
   */
  predicate MatchesWith(q: string, pattern: string, n: nat, w: string) {
    var start := |pattern| + n;
    StartsWithCaseless(q, pattern) && n >= 1 && w != [] && start + |w| <= |q|
    && (forall i :: |pattern| <= i < start ==> IsSpaceChar(q[i]))
    && q[start..start + |w|] == w
    && (forall i :: 0 <= i < |w| ==> IsWordChar(w[i]))
    && (start + |w| == |q| || IsSpaceChar(q[start + |w|]))
  }

  /** What `TableName` captures is a split the regular expression accepts. */
  lemma TableNameMatches(q: string, pattern: string, n: nat, w: string)
    requires TableName(q, pattern) == Some(w)
    requires n == SpaceRun(q[|pattern|..])
    ensures MatchesWith(q, pattern, n, w)
  {
    var rest := q[|pattern|..];
    var tail := rest[n..];
    var start := |pattern| + n;
    assert w == LeadingWord(tail);
    assert tail[..|w|] == w;
    assert q[start..start + |w|] == tail[..|w|];
    forall i | |pattern| <= i < start
      ensures IsSpaceChar(q[i])
    {
      assert q[i] == rest[i - |pattern|];
    }
    if start + |w| < |q| {
      assert q[start + |w|] == tail[|w|];
    }
  }

  /** The captured name sits right after the keywords and the blanks. */
  lemma TableNameAt(q: string, pattern: string, name: string, start: nat)
    requires TableName(q, pattern) == Some(name)
    requires start == |pattern| + SpaceRun(q[|pattern|..])
    ensures |name| > 0 && start + |name| <= |q| && q[start..start + |name|] == name
  {
    TableNameMatches(q, pattern, start - |pattern|, name);
  }

  /** Every split the regular expression accepts is the one `TableName` finds: the capture is unique. */
  lemma MatchIsTableName(q: string, pattern: string, n: nat, w: string)
    requires MatchesWith(q, pattern, n, w)
    ensures TableName(q, pattern) == Some(w)
  {
    var rest := q[|pattern|..];
    assert forall i :: 0 <= i < n ==> IsSpaceChar(rest[i]) by {
      forall i | 0 <= i < n ensures IsSpaceChar(rest[i]) {
        assert rest[i] == q[|pattern| + i];
      }
    }
    assert !IsSpaceChar(rest[n]) by {
      assert rest[n] == w[0];
    }
    SpacesRun(rest, n);
    var tail := rest[n..];
    assert tail[..|w|] == w;
    assert |w| == |tail| || !IsWordChar(tail[|w|]) by {
      if |w| < |tail| {
        assert tail[|w|] == q[|pattern| + n + |w|];
      }
    }
    WordRun(tail, w);
  }

  lemma {:induction false} SpacesRun(s: string, n: nat)
    requires n < |s| && !IsSpaceChar(s[n])
    requires forall i :: 0 <= i < n ==> IsSpaceChar(s[i])
    ensures SpaceRun(s) == n
  {
    if n > 0 {
      SpacesRun(s[1..], n - 1);
    }
  }

  lemma {:induction false} WordRun(s: string, w: string)
    requires StartsWith(s, w)
    requires forall i :: 0 <= i < |w| ==> IsWordChar(w[i])
    requires |w| == |s| || !IsWordChar(s[|w|])
    ensures LeadingWord(s) == w
  {
    if w != [] {
      WordRun(s[1..], w[1..]);
      assert [w[0]] + w[1..] == w;
    } else if s != [] {
      assert !IsWordChar(s[0]);
    }
  }

  /**
   * The new table name: the new prefix followed by what is left of the old
   * name once as many characters as the old prefix has are cut off
   * (`substr` past the end gives the empty string). The old name is not
   * checked to start with the old prefix.
   */
  function Renamed(name: string, oldPrefix: string, newPrefix: string): (r: string)
    ensures StartsWith(r, newPrefix)
    ensures |r| == |newPrefix| + (if |oldPrefix| <= |name| then |name| - |oldPrefix| else 0)
  {
    newPrefix + (if |oldPrefix| <= |name| then name[|oldPrefix|..] else [])
  }

  /** A name that carries the old prefix gets it swapped, and swapping back gives the name again. */
  lemma RenamedRoundTrip(name: string, oldPrefix: string, newPrefix: string)
    requires StartsWith(name, oldPrefix)
    ensures Renamed(name, oldPrefix, newPrefix) == newPrefix + name[|oldPrefix|..]
    ensures Renamed(Renamed(name, oldPrefix, newPrefix), newPrefix, oldPrefix) == name
  {
    var r := Renamed(name, oldPrefix, newPrefix);
    assert r[|newPrefix|..] == name[|oldPrefix|..];
    assert oldPrefix + name[|oldPrefix|..] == name;
  }

  /**
   * `alignTablePrefixByPattern($query, $pattern, $old, $new)`: every
   * occurrence of the captured table name in the whole query is replaced
   * by its renamed form; a query the pattern does not capture is returned
   * as it is.
   */
  function AlignByPattern(query: string, pattern: string, oldPrefix: string, newPrefix: string): (r: string)
    ensures TableName(query, pattern).None? ==> r == query
  {
    match TableName(query, pattern)
    case None => query
    case Some(name) => StrReplace(query, name, Renamed(name, oldPrefix, newPrefix))
  }

  /** Restoring on a system with the same prefix changes nothing. */
  lemma AlignSamePrefix(query: string, pattern: string, prefix: string)
    requires TableName(query, pattern).Some? ==> StartsWith(TableName(query, pattern).value, prefix)
    ensures AlignByPattern(query, pattern, prefix, prefix) == query
  {
    if TableName(query, pattern).Some? {
      var name := TableName(query, pattern).value;
      RenamedRoundTrip(name, prefix, prefix);
      assert prefix + name[|prefix|..] == name;
      StrReplaceSelf(query, name);
    }
  }

  /**
   * When the table name does not occur earlier in the statement, the
   * statement keeps its keywords and blanks, now names the renamed table,
   * and every later occurrence of the old name (in the values, say) is
   * renamed as well.
   */
  lemma AlignRenamesTarget(query: string, pattern: string, oldPrefix: string, newPrefix: string, name: string, start: nat)
    requires TableName(query, pattern) == Some(name)
    requires start == |pattern| + SpaceRun(query[|pattern|..])
    requires forall i :: 0 <= i < start ==> !OccursAt(query, name, i)
    ensures start + |name| <= |query|
    ensures AlignByPattern(query, pattern, oldPrefix, newPrefix)
              == query[..start] + Renamed(name, oldPrefix, newPrefix)
                 + StrReplace(query[start + |name|..], name, Renamed(name, oldPrefix, newPrefix))
  {
    TableNameAt(query, pattern, name, start);
    SplitAround(query, start, name);
    StrReplaceSkips(query[..start], name, query[start + |name|..], Renamed(name, oldPrefix, newPrefix));
  }

  lemma SplitAround(q: string, start: nat, name: string)
    requires start + |name| <= |q| && q[start..start + |name|] == name
    ensures q == q[..start] + name + q[start + |name|..]
  {
  }

  /** `str_replace` copies a head in which the needle does not start, then replaces the needle that follows it. */
  lemma {:induction false} StrReplaceSkips(head: string, needle: string, tail: string, rep: string)
    requires |needle| > 0
    requires forall i :: 0 <= i < |head| ==> !OccursAt(head + needle + tail, needle, i)
    ensures StrReplace(head + needle + tail, needle, rep) == head + rep + StrReplace(tail, needle, rep)
  {
    var s := head + needle + tail;
    var t := StrReplace(tail, needle, rep);
    if head == [] {
      assert s == needle + tail;
      assert s[..|needle|] == needle;
      assert s[|needle|..] == tail;
      assert StrReplace(s, needle, rep) == rep + t;
      assert head + rep == rep;
    } else {
      assert !OccursAt(s, needle, 0);
      var h := head[1..];
      var s1 := h + needle + tail;
      assert s[1..] == s1;
      forall i | 0 <= i < |h|
        ensures !OccursAt(s1, needle, i)
      {
        assert !OccursAt(s, needle, i + 1);
        assert s1[i..i + |needle|] == s[i + 1..i + 1 + |needle|];
      }
      StrReplaceSkips(h, needle, tail, rep);
      assert StrReplace(s, needle, rep) == [head[0]] + StrReplace(s1, needle, rep);
      assert [head[0]] + h == head;
      Regroup([head[0]], h + rep, t, [head[0]] + (h + rep + t), h + rep + t, head + rep);
    }
  }

  /**
   * `alignTablePrefix($query, $old, $new)`: the "DELETE FROM" form first,
   * then the "INSERT INTO" form.
   */
  function AlignTablePrefix(query: string, oldPrefix: string, newPrefix: string): (r: string)
    ensures TableName(query, "DELETE FROM").None? && TableName(query, "INSERT INTO").None? ==> r == query
  {
    var q := AlignByPattern(query, "DELETE FROM", oldPrefix, newPrefix);
    AlignByPattern(q, "INSERT INTO", oldPrefix, newPrefix)
  }

  /** Restoring on a system with the same prefix leaves every well-prefixed statement unchanged. */
  lemma AlignTablePrefixSame(query: string, prefix: string)
    requires TableName(query, "DELETE FROM").Some? ==> StartsWith(TableName(query, "DELETE FROM").value, prefix)
    requires TableName(query, "INSERT INTO").Some? ==> StartsWith(TableName(query, "INSERT INTO").value, prefix)
    ensures AlignTablePrefix(query, prefix, prefix) == query
  {
    AlignSamePrefix(query, "DELETE FROM", prefix);
    AlignSamePrefix(query, "INSERT INTO", prefix);
  }
}
