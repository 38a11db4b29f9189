/** Strings of characters, one per byte, and what stands where in them. */
module Strings {

  const NUL: char := 0 as char

  lemma Assoc(a: string, b: string, c: string)
    ensures a + (b + c) == (a + b) + c
  {
  }

  /** The word stands in t at position i. */
  predicate StartsAt(t: string, i: nat, word: string) {
    i + |word| <= |t| && t[i..i + |word|] == word
  }

  lemma SplitStart(t: string, i: nat, a: string, b: string)
    requires StartsAt(t, i, a + b)
    ensures StartsAt(t, i, a) && StartsAt(t, i + |a|, b)
  {
    var w := a + b;
    assert t[i..i + |a|] == t[i..i + |w|][..|a|] == a;
    assert t[i + |a|..i + |w|] == t[i..i + |w|][|a|..] == b;
  }

  lemma FirstChar(t: string, i: nat, word: string)
    requires StartsAt(t, i, word) && word != ""
    ensures i < |t| && t[i] == word[0] && StartsAt(t, i + 1, word[1..])
  {
    assert t[i..i + |word|][0] == t[i];
    assert t[i + 1..i + |word|] == t[i..i + |word|][1..];
  }
}
