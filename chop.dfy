/** `chopString`: cut a text down to a number of space-separated words. */
module Chop {
  import opened Text

  /** Each piece followed by one space, concatenated. */
  function Chopped(pieces: seq<string>): string {
    if pieces == [] then [] else pieces[0] + " " + Chopped(pieces[1..])
  }

  /** How many pieces `chopString` copies: the budget, capped by the count, at least 0. */
  function WordBudget(words: int, count: nat): nat {
    if words > count then count else if words < 0 then 0 else words
  }

  /** The value `chopString($s, $words)` returns, for use in specifications. */
  function ChopOf(s: string, words: int): string {
    var pieces := Explode(' ', s);
    Chopped(pieces[..WordBudget(words, |pieces|)])
  }

  lemma {:induction false} ChoppedSnoc(pieces: seq<string>, p: string)
    ensures Chopped(pieces + [p]) == Chopped(pieces) + p + " "
  {
    if pieces != [] {
      assert (pieces + [p])[1..] == pieces[1..] + [p];
      ChoppedSnoc(pieces[1..], p);
    } else {
      assert [p][1..] == [];
    }
  }

  /** With at least one piece, the result is the pieces joined by spaces plus one trailing space. */
  lemma {:induction false} ChoppedIsImplode(pieces: seq<string>)
    requires |pieces| >= 1
    ensures Chopped(pieces) == Implode(" ", pieces) + " "
  {
    if |pieces| > 1 {
      ChoppedIsImplode(pieces[1..]);
    }
  }

  /**
   * Splitting the result on spaces gives back exactly the copied pieces and
   * one empty piece after the trailing space: no piece is cut in two.
   */
  lemma ChoppedSplitsBack(pieces: seq<string>)
    requires forall i :: 0 <= i < |pieces| ==> ' ' !in pieces[i]
    ensures Explode(' ', Chopped(pieces)) == pieces + [[]]
  {
    var parts := pieces + [[]];
    if pieces == [] {
      assert Chopped(pieces) == [];
    } else {
      ChoppedIsImplode(pieces);
      assert Implode(" ", parts) == Implode(" ", pieces) + " " by {
        ImplodeSnocEmpty(pieces);
      }
    }
    ExplodeImplode(' ', parts);
  }

  lemma {:induction false} ImplodeSnocEmpty(pieces: seq<string>)
    requires |pieces| >= 1
    ensures Implode(" ", pieces + [[]]) == Implode(" ", pieces) + " "
  {
    if |pieces| > 1 {
      assert (pieces + [[]])[1..] == pieces[1..] + [[]];
      ImplodeSnocEmpty(pieces[1..]);
    } else {
      assert (pieces + [[]])[1..] == [[]];
    }
  }

  /** The copied pieces form a prefix of the joined text. */
  lemma {:induction false} ChoppedIsPrefix(pieces: seq<string>, k: nat)
    requires k <= |pieces|
    ensures StartsWith(Implode(" ", pieces) + " ", Chopped(pieces[..k]))
  {
    if k > 0 {
      ChoppedIsPrefix(pieces[1..], k - 1);
      assert pieces[..k][1..] == pieces[1..][..k - 1];
      if |pieces| > 1 {
        assert Implode(" ", pieces) + " " == pieces[0] + " " + (Implode(" ", pieces[1..]) + " ");
      }
    }
  }

  /**
   * `chopString($string, $words)`: the first `$words` pieces of
   * `explode(" ", $string)` (all of them when there are fewer, none when
   * `$words` is not positive), each followed by one space.
   */
  method ChopString(s: string, words: int) returns (str: string)
    ensures var pieces := Explode(' ', s);
            var k := WordBudget(words, |pieces|);
            Explode(' ', str) == pieces[..k] + [[]]
    ensures words >= |Explode(' ', s)| ==> str == s + " "
    ensures words <= 0 ==> str == []
    ensures StartsWith(s + " ", str)
    ensures str == ChopOf(s, words)
  {
    var pieces := Explode(' ', s);
    var num := |pieces|;
    var w := words;
    if w > num {
      w := num;
    }
    str := "";
    var i := 0;
    while i < w
      invariant 0 <= i <= num
      invariant i <= w || i == 0
      invariant str == Chopped(pieces[..i])
    {
      ChoppedSnoc(pieces[..i], pieces[i]);
      assert pieces[..i + 1] == pieces[..i] + [pieces[i]];
      str := str + pieces[i] + " ";
      i := i + 1;
    }
    var k := WordBudget(words, num);
    assert i == k;
    ChoppedSplitsBack(pieces[..k]);
    ImplodeExplode(' ', s);
    ChoppedIsPrefix(pieces, k);
    if words >= num {
      assert pieces[..k] == pieces;
      ChoppedIsImplode(pieces);
    }
  }
}
