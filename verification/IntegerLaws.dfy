/** What a text is read as an integer for, from its parts: blanks, a sign, 0x, and digits in either letter case. */
module IntegerLaws {
  import opened Strings
  import opened IntegerText
  import R = References

  predicate IsPrefix(p: string, hex: bool) {
    if hex then p == "0x" || p == "0X" else p == ""
  }

  /** The character that ends a number: no digit, and no x behind a lone zero. */
  predicate Ends(c: char, s: string, hex: bool) {
    !IsDigit(c, hex) && !(!hex && s == "0" && (c == 'x' || c == 'X'))
  }

  lemma DigitIs(c: char, hex: bool, d: nat)
    requires d < Base(hex)
    ensures R.StandsFor(c, d) <==> IsDigit(c, hex) && DigitOf(c) == d
  {
  }

  lemma {:induction false} SpeltIsValue(s: string, hex: bool, n: nat)
    requires R.Spelt(s, Base(hex), n)
    ensures AllDigits(s, hex) && Value(s, hex) == n
  {
    if s != "" {
      var init, c := s[..|s| - 1], s[|s| - 1];
      SpeltIsValue(init, hex, n / Base(hex));
      DigitIs(c, hex, n % Base(hex));
      assert s == init + [c];
      ValueStep(init, c, hex);
      hide R.StandsFor, IsDigit, Value;
      assert n == n / Base(hex) * Base(hex) + n % Base(hex);
    }
  }

  lemma {:induction false} SkipsBlanks(t: string, i: nat, n: nat)
    requires i <= n < |t| && (forall k :: i <= k < n ==> IsSpace(t[k])) && !IsSpace(t[n])
    ensures SkipSpaces(t, i) == n
    decreases n - i
  {
    if i < n { SkipsBlanks(t, i + 1, n); }
  }

  /** Blanks, a sign, a hexadecimal prefix and digits that spell n, followed by something else, mean n or -n. */
  lemma MeaningOfParts(t: string, blanks: string, sign: string, prefix: string, s: string, end: char, hex: bool, n: nat)
    requires (forall c :: c in blanks ==> c in " \t\r\n") && (sign == "" || sign == "+" || sign == "-") && IsPrefix(prefix, hex)
    requires s != "" && R.Spelt(s, Base(hex), n) && Ends(end, s, hex)
    requires StartsAt(t, 0, blanks + sign + prefix + s + [end])
    ensures Meaning(t) == var v: int := n; if sign == "-" then -v else v
  {
    hide R.Spelt, Ends, IsPrefix, StartsAt, Meaning;
    var i := |blanks|;
    var j := i + |sign|;
    PartsStand(t, blanks, sign, prefix, s, end);
    MeaningAt(t, i, j, j + |prefix|, j + |prefix| + |s|, sign, prefix, s, end, hex, n);
  }

  lemma MeaningAt(t: string, i: nat, j: nat, k: nat, e: nat, sign: string, prefix: string, s: string, end: char, hex: bool, n: nat)
    requires (sign == "" || sign == "+" || sign == "-") && IsPrefix(prefix, hex) && s != "" && R.Spelt(s, Base(hex), n) && Ends(end, s, hex)
    requires j == i + |sign| && k == j + |prefix| && e == k + |s| && e < |t|
    requires t[i..j] == sign && t[j..k] == prefix && t[k..e] == s && t[e] == end && forall h :: 0 <= h < i ==> IsSpace(t[h])
    ensures Meaning(t) == var v: int := n; if sign == "-" then -v else v
  {
    PrefixLength(prefix, hex);
    hide R.Spelt, Value, Ends, IsDigit, RunEnd, IsHex, IsPrefix, SkipSpaces, Meaning, IsSpace, AllDigits;
    SpeltIsValue(s, hex, n);
    FirstAndLast(t, i, sign, prefix, s, end, hex);
    RunStands(t, k, e, s, end, hex);
    SkipsBlanks(t, 0, i);
    MeaningIs(t, i, j, k, e, hex);
  }

  lemma PrefixLength(prefix: string, hex: bool)
    requires IsPrefix(prefix, hex)
    ensures |prefix| == if hex then 2 else 0
  {
  }

  lemma MeaningIs(t: string, i: nat, j: nat, k: nat, e: nat, hex: bool)
    requires SkipSpaces(t, 0) == i && j == (if At(t, i, '+') || At(t, i, '-') then i + 1 else i)
    requires (IsHex(t, j) <==> hex) && k == (if hex then j + 2 else j) && k <= e <= |t| && RunEnd(t, k, hex) == e
    ensures Meaning(t) == var v: int := Value(t[k..e], hex); if At(t, i, '-') then -v else v
  {
    hide IsHex, Value, RunEnd;
  }

  lemma RunStands(t: string, k: nat, e: nat, s: string, end: char, hex: bool)
    requires k <= e < |t| && t[k..e] == s && t[e] == end && AllDigits(s, hex) && Ends(end, s, hex)
    ensures RunEnd(t, k, hex) == e
  {
    assert forall h :: k <= h < e ==> t[h] == t[k..e][h - k] && t[k..e][h - k] in s;
    hide IsDigit;
    RunIs(t, k, e, hex);
  }

  lemma PartsStand(t: string, blanks: string, sign: string, prefix: string, s: string, end: char)
    requires (forall c :: c in blanks ==> c in " \t\r\n") && StartsAt(t, 0, blanks + sign + prefix + s + [end])
    ensures var i := |blanks|; var j := i + |sign|; var k := j + |prefix|; var e := k + |s|;
            && e < |t| && t[i..j] == sign && t[j..k] == prefix && t[k..e] == s && t[e] == end
            && forall h :: 0 <= h < i ==> IsSpace(t[h])
  {
    var w := blanks + sign + prefix + s + [end];
    var i := |blanks|;
    assert t[0..|w|] == w;
    assert forall h :: 0 <= h < |w| ==> t[h] == w[h];
    assert forall h :: 0 <= h < i ==> w[h] == blanks[h] && blanks[h] in blanks;
  }

  /** Sign and prefix are found where they are, and nothing else is taken for them. */
  lemma FirstAndLast(t: string, i: nat, sign: string, prefix: string, s: string, end: char, hex: bool)
    requires (sign == "" || sign == "+" || sign == "-") && IsPrefix(prefix, hex) && s != "" && AllDigits(s, hex) && Ends(end, s, hex)
    requires var j := i + |sign|; var k := j + |prefix|; var e := k + |s|;
             e < |t| && t[i..j] == sign && t[j..k] == prefix && t[k..e] == s && t[e] == end
    ensures var j := i + |sign|;
            && !IsSpace(t[i]) && (At(t, i, '-') <==> sign == "-") && (At(t, i, '+') <==> sign == "+") && (IsHex(t, j) <==> hex)
  {
    var j := i + |sign|;
    var k := j + |prefix|;
    var e := k + |s|;
    assert t[k] == t[k..e][0] == s[0] && s[0] in s;
    if sign != "" { assert t[i] == t[i..j][0]; }
    if hex { assert t[j] == t[j..k][0] && t[j + 1] == t[j..k][1]; }
    if !hex && |s| > 1 { assert t[j + 1] == t[k..e][1] == s[1] && s[1] in s; }
    if !hex && |s| == 1 { assert s == [s[0]]; }
  }
}
