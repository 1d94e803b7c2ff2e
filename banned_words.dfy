/**
 * The matching part of `checkBannedWord`: content is refused when, after
 * trimming and lower-casing, it contains one of the banned words. The
 * banned-word list (read from a file) and the `spam.checkBannedWords`
 * setting are parameters.
 */
module BannedWords {
  import opened Text

  /**
   * `strpos($content, strtolower($word)) !== false` on lower-cased content.
   * An empty word never matches: `strpos` with an empty needle returns
   * `false`.
   */
  predicate WordFound(loweredContent: string, word: string) {
    |word| > 0 && Contains(loweredContent, Lower(word))
  }

  /** Some banned word occurs in the trimmed content, letters compared without case. */
  predicate HasBannedWord(content: string, bannedWords: seq<string>) {
    exists i :: 0 <= i < |bannedWords| && WordFound(Lower(Trim(content)), bannedWords[i])
  }

  /** Empty content holds no banned word. */
  lemma NothingInEmpty(word: string)
    ensures !WordFound([], word)
  {
  }

  /**
   * `checkBannedWord($content)` as written: the early acceptance needs the
   * trimmed content to be empty AND the check to be disabled, so with the
   * check disabled, non-empty content is still searched for banned words.
   */
  method CheckBannedWord(content: string, checkEnabled: bool, bannedWords: seq<string>) returns (ok: bool)
    ensures ok <==> (Trim(content) == [] && !checkEnabled) || !HasBannedWord(content, bannedWords)
    ensures Trim(content) == [] ==> ok
  {
    var c := Trim(content);
    if c == [] && !checkEnabled {
      return true;
    }
    c := Lower(c);
    var i := 0;
    while i < |bannedWords|
      invariant 0 <= i <= |bannedWords|
      invariant forall j :: 0 <= j < i ==> !WordFound(c, bannedWords[j])
    {
      if WordFound(c, bannedWords[i]) {
        NothingInEmpty(bannedWords[i]);
        return false;
      }
      i := i + 1;
    }
    return true;
  }

  /**
   * `checkBannedWord` as evidently intended: empty content, or a disabled
   * check, accepts at once; otherwise the content is searched.
   */
  method CheckBannedWordIntended(content: string, checkEnabled: bool, bannedWords: seq<string>) returns (ok: bool)
    ensures ok <==> Trim(content) == [] || !checkEnabled || !HasBannedWord(content, bannedWords)
  {
    var c := Trim(content);
    if c == [] || !checkEnabled {
      return true;
    }
    c := Lower(c);
    var i := 0;
    while i < |bannedWords|
      invariant 0 <= i <= |bannedWords|
      invariant forall j :: 0 <= j < i ==> !WordFound(c, bannedWords[j])
    {
      if WordFound(c, bannedWords[i]) {
        return false;
      }
      i := i + 1;
    }
    return true;
  }

  /**
   * The input that shows the two apart: the content "spam" with the list
   * ["spam"] is not empty after trimming and holds a banned word, so with
   * the check disabled `CheckBannedWord` refuses it while
   * `CheckBannedWordIntended` accepts it.
   */
  lemma DisabledCheckStillSearches()
    ensures Trim("spam") != [] && HasBannedWord("spam", ["spam"])
  {
    var w := "spam";
    LowerWordFound(w);
    assert [w][0] == w;
  }

  /** A word of lower-case letters is its own trimmed, lowered content, and is found in it. */
  lemma LowerWordFound(w: string)
    requires w != [] && forall i :: 0 <= i < |w| ==> 'a' <= w[i] <= 'z'
    ensures Trim(w) == w && WordFound(Lower(Trim(w)), w)
  {
    assert TrimLeft(w) == w by {
      assert !IsTrimChar(w[0]);
    }
    assert TrimRight(w) == w by {
      assert !IsTrimChar(w[|w| - 1]);
    }
    assert Lower(w) == w;
    assert OccursAt(w, w, 0) by {
      assert w[0..|w|] == w;
    }
  }
}
