/**
 Integers from text, saturating although the accumulator wraps around, and integers to text.
 */
module IntegerText {
  import opened Strings
  import opened Arithmetic
  import opened DecimalText

  predicate IsSpace(c: char) {
    c == ' ' || c == '\t' || c == '\r' || c == '\n'
  }

  predicate IsDigit(c: char, hex: bool) {
    '0' <= c <= '9' || (hex && ('a' <= c <= 'f' || 'A' <= c <= 'F'))
  }

  function DigitOf(c: char): (d: nat)
    requires IsDigit(c, true)
    ensures d < 16 && (IsDigit(c, false) ==> d < 10) && (d == 0 <==> c == '0')
  {
    if c <= '9' then c as int - '0' as int
    else if 'a' <= c then c as int - 'a' as int + 10
    else c as int - 'A' as int + 10
  }

  function Base(hex: bool): nat {
    if hex then 16 else 10
  }

  predicate AllDigits(s: string, hex: bool) {
    forall c :: c in s ==> IsDigit(c, hex)
  }

  /** The number a string of digits denotes. */
  function Value(s: string, hex: bool): nat
    requires AllDigits(s, hex)
  {
    if s == "" then 0 else
      assert forall c :: c in s[..|s| - 1] ==> c in s;
      assert s[|s| - 1] in s;
      Value(s[..|s| - 1], hex) * Base(hex) + DigitOf(s[|s| - 1])
  }

  // ---- what a text means

  function SkipSpaces(t: string, i: nat): nat
    decreases |t| - i
  {
    if i < |t| && IsSpace(t[i]) then SkipSpaces(t, i + 1) else i
  }

  /** The end of the digits at i. */
  function RunEnd(t: string, i: nat, hex: bool): (e: nat)
    requires i <= |t|
    ensures i <= e <= |t| && AllDigits(t[i..e], hex)
    decreases |t| - i
  {
    if i < |t| && IsDigit(t[i], hex) then
      var e := RunEnd(t, i + 1, hex);
      assert t[i..e] == [t[i]] + t[i + 1..e];
      e
    else i
  }

  predicate At(t: string, i: nat, c: char) {
    i < |t| && t[i] == c
  }

  predicate IsHex(t: string, i: nat) {
    At(t, i, '0') && (At(t, i + 1, 'x') || At(t, i + 1, 'X'))
  }

  /** The mathematical integer at the beginning of a text: white space, a sign, 0x for hexadecimal, digits. */
  function Meaning(t: string): int {
    var i := SkipSpaces(t, 0);
    var j := if At(t, i, '+') || At(t, i, '-') then i + 1 else i;
    var hex := IsHex(t, j);
    var k := if hex then j + 2 else j;
    var v := if k > |t| then 0 else Value(t[k..RunEnd(t, k, hex)], hex);
    if At(t, i, '-') then -v else v
  }

  function Clamp(v: int, lo: int, hi: int): int {
    if v < lo then lo else if v > hi then hi else v
  }

  // ---- powers and sizes of numbers

  function Pow(b: nat, n: nat): nat {
    if n == 0 then 1 else Pow(b, n - 1) * b
  }

  lemma {:induction false} PowGrows(b: nat, m: nat, n: nat)
    requires b > 0 && m <= n
    ensures 0 < Pow(b, m) <= Pow(b, n)
    decreases n
  {
    if m < n {
      PowGrows(b, m, n - 1);
      assert Pow(b, n - 1) * b >= Pow(b, n - 1);
    } else if n > 0 {
      PowGrows(b, m - 1, n - 1);
    }
  }

  lemma OneMoreDigit(d: nat, q: nat, b: nat, v: nat, e: nat)
    requires d * q <= v < (d + 1) * q && e < b
    ensures d * (q * b) <= v * b + e < (d + 1) * (q * b)
  {
    assert d * (q * b) == (d * q) * b && (d + 1) * (q * b) == ((d + 1) * q) * b;
    Times(d * q, v, b);
    Times(v + 1, (d + 1) * q, b);
    assert (v + 1) * b == v * b + b;
  }

  lemma Times(x: nat, y: nat, b: nat)
    requires x <= y
    ensures x * b <= y * b
  {
  }

  /** n digits of which the first is d denote a number from d to d + 1 times the power of the base. */
  lemma {:induction false} ValueBounds(s: string, hex: bool)
    requires s != "" && AllDigits(s, hex)
    ensures s[0] in s
    ensures var p := Pow(Base(hex), |s| - 1); DigitOf(s[0]) * p <= Value(s, hex) < (DigitOf(s[0]) + 1) * p
  {
    var init := s[..|s| - 1];
    assert s[|s| - 1] in s && s[0] in s;
    if |s| > 1 {
      assert forall c :: c in init ==> c in s;
      ValueBounds(init, hex);
      OneMoreDigit(DigitOf(s[0]), Pow(Base(hex), |s| - 2), Base(hex), Value(init, hex), DigitOf(s[|s| - 1]));
    } else {
      assert init == "";
    }
  }

  /** Without leading zeros the number of digits tells the size. */
  lemma ValueRange(s: string, hex: bool)
    requires s != "" && AllDigits(s, hex) && s[0] != '0'
    ensures Pow(Base(hex), |s| - 1) <= Value(s, hex) < Pow(Base(hex), |s|)
  {
    ValueBounds(s, hex);
    var d, p := DigitOf(s[0]), Pow(Base(hex), |s| - 1);
    Times(1, d, p);
    Times(d + 1, Base(hex), p);
    assert Pow(Base(hex), |s|) == p * Base(hex) == Base(hex) * p;
  }

  lemma {:induction false} LeadingZeros(s: string, k: nat, hex: bool)
    requires k <= |s| && AllDigits(s, hex) && forall i :: 0 <= i < k ==> s[i] == '0'
    ensures AllDigits(s[k..], hex) && Value(s, hex) == Value(s[k..], hex)
    decreases |s|
  {
    assert forall c :: c in s[k..] ==> c in s;
    if k == |s| {
      if s != "" {
        var init := s[..|s| - 1];
        assert forall c :: c in init ==> c in s;
        LeadingZeros(init, |init|, hex);
        assert init[|init|..] == "" && s[k..] == "";
      } else {
        assert s[k..] == s;
      }
    } else {
      var init := s[..|s| - 1];
      assert forall c :: c in init ==> c in s;
      LeadingZeros(init, k, hex);
      assert s[k..][..|s[k..]| - 1] == init[k..];
    }
  }

  // ---- machine words

  predicate IsWidth(bits: nat) {
    bits == 16 || bits == 32 || bits == 64
  }

  /** 2 to the power of the width. */
  function Word(bits: nat): (m: nat)
    ensures m > 0
  {
    if bits == 16 then 0x1_0000 else if bits == 32 then 0x1_0000_0000 else 0x1_0000_0000_0000_0000
  }

  function MaxDigits10(bits: nat): nat {
    if bits == 64 then 20 else if bits == 32 then 10 else 5
  }

  function MaxLead(bits: nat): char {
    if bits == 64 then '1' else if bits == 32 then '4' else '6'
  }

  /** The decimal overflow test; `result` is the accumulator, its high bit set when it is at least half the word. */
  predicate Overflow10(s: string, bits: nat, result: nat) {
    var digits := |s|;
    digits >= MaxDigits10(bits) &&
    !(digits == MaxDigits10(bits) && (s[0] < MaxLead(bits) || (s[0] == MaxLead(bits) && result >= Word(bits) / 2)))
  }

  lemma PowerTable()
    ensures Pow(10, 4) == 10000 && Pow(10, 5) == 100000
    ensures Pow(10, 9) == 1000000000 && Pow(10, 10) == 10000000000
    ensures Pow(10, 19) == 10000000000000000000 && Pow(10, 20) == 100000000000000000000
    ensures Pow(16, 4) == Word(16) && Pow(16, 8) == Word(32) && Pow(16, 16) == Word(64)
  {
    assert Pow(10, 4) == 10000;
    assert Pow(10, 8) == 100000000;
    assert Pow(10, 12) == 1000000000000;
    assert Pow(10, 16) == 10000000000000000;
    assert Pow(16, 4) == Word(16);
    assert Pow(16, 8) == Word(32);
    assert Pow(16, 12) == 0x1_0000_0000_0000;
  }

  /** The test is right although the accumulator has wrapped around: at the critical length the leading digit and the high bit tell. */
  lemma DecimalOverflow(s: string, bits: nat, result: nat)
    requires IsWidth(bits) && AllDigits(s, false) && (s != "" ==> s[0] != '0') && result == Value(s, false) % Word(bits)
    ensures Overflow10(s, bits, result) <==> Value(s, false) >= Word(bits)
  {
    if s != "" {
      ValueRange(s, false);
      ValueBounds(s, false);
      var n, d, v, m := |s|, DigitOf(s[0]), Value(s, false), MaxDigits10(bits);
      SizesBelow(bits);
      if n < m {
        PowGrows(10, n, m - 1);
      } else if n > m {
        PowGrows(10, m, n - 1);
      } else {
        CriticalLength(bits, d, v);
        hide Value, Pow;
      }
    }
  }

  /** The word lies between the two powers of the base next to it. */
  lemma SizesBelow(bits: nat)
    requires IsWidth(bits)
    ensures Pow(10, MaxDigits10(bits) - 1) < Word(bits) < Pow(10, MaxDigits10(bits)) && Pow(16, bits / 4) == Word(bits)
  {
    PowerTable();
  }

  /** Numbers with as many digits as the largest word, by their leading digit. */
  lemma CriticalLength(bits: nat, d: nat, v: nat)
    requires IsWidth(bits) && 0 < d < 10
    requires var p := Pow(10, MaxDigits10(bits) - 1); d * p <= v < (d + 1) * p
    ensures var lead := MaxLead(bits) as int - '0' as int;
            && (d < lead ==> v < Word(bits)) && (d > lead ==> v >= Word(bits))
            && (d == lead ==> (v < Word(bits) <==> v % Word(bits) >= Word(bits) / 2))
  {
    PowerTable();
  }

  lemma HexOverflow(s: string, bits: nat)
    requires IsWidth(bits) && AllDigits(s, true) && (s != "" ==> s[0] != '0')
    ensures |s| > bits / 4 <==> Value(s, true) >= Word(bits)
  {
    SizesBelow(bits);
    if s != "" {
      ValueRange(s, true);
      if |s| <= bits / 4 { PowGrows(16, |s|, bits / 4); } else { PowGrows(16, bits / 4, |s| - 1); }
    }
  }

  // ---- string_to_integer

  predicate Terminated(t: string) {
    t != "" && t[|t| - 1] == NUL
  }

  lemma ValueStep(s: string, c: char, hex: bool)
    requires AllDigits(s, hex) && IsDigit(c, hex)
    ensures AllDigits(s + [c], hex) && Value(s + [c], hex) == Value(s, hex) * Base(hex) + DigitOf(c)
  {
    assert (s + [c])[..|s|] == s;
  }

  lemma WordStep(v: nat, b: nat, d: nat, m: nat)
    requires m > 0
    ensures ((v % m) * b + d) % m == (v * b + d) % m
  {
    var q, r := v / m, v % m;
    assert v == m * q + r;
    assert v * b + d == (r * b + d) + m * (q * b);
    ModMultiple(r * b + d, q * b, m);
  }

  /** One more digit goes into the accumulator. */
  lemma Accumulates(t: string, start: nat, end: nat, hex: bool, bits: nat)
    requires start <= end < |t| && AllDigits(t[start..end], hex) && IsDigit(t[end], hex) && IsWidth(bits)
    ensures AllDigits(t[start..end + 1], hex)
    ensures Value(t[start..end + 1], hex) % Word(bits) ==
              (Value(t[start..end], hex) % Word(bits) * Base(hex) + DigitOf(t[end])) % Word(bits)
  {
    ValueStep(t[start..end], t[end], hex);
    WordStep(Value(t[start..end], hex), Base(hex), DigitOf(t[end]), Word(bits));
    assert t[start..end + 1] == t[start..end] + [t[end]];
    hide Value, Base, Word;
  }

  lemma RunGoesOn(t: string, i: nat, hex: bool)
    requires i < |t| && IsDigit(t[i], hex)
    ensures RunEnd(t, i, hex) == RunEnd(t, i + 1, hex)
  {
  }

  lemma RunStops(t: string, i: nat, hex: bool)
    requires i < |t| && !IsDigit(t[i], hex)
    ensures RunEnd(t, i, hex) == i
  {
  }

  /** The digits at `from`: leading zeros, then the others from start to end, accumulated modulo the word. */
  method ReadDigits(t: string, from: nat, hex: bool, bits: nat) returns (result: nat, start: nat, end: nat)
    requires Terminated(t) && from < |t| && IsWidth(bits)
    ensures from <= start <= end == RunEnd(t, from, hex) && AllDigits(t[start..end], hex)
    ensures start < end ==> t[start] != '0'
    ensures Value(t[from..end], hex) == Value(t[start..end], hex) && result == Value(t[start..end], hex) % Word(bits)
  {
    hide RunEnd, Value, Word, Base, DigitOf, AllDigits;
    start := from;
    while t[start] == '0'
      invariant from <= start < |t| && RunEnd(t, from, hex) == RunEnd(t, start, hex)
      invariant forall i :: from <= i < start ==> t[i] == '0'
      decreases |t| - start
    {
      RunGoesOn(t, start, hex);
      start := start + 1;
    }
    result, end := 0, start;
    EmptyValue(t, start, hex, bits);
    while IsDigit(t[end], hex)
      invariant start <= end < |t| && RunEnd(t, from, hex) == RunEnd(t, end, hex) && AllDigits(t[start..end], hex)
      invariant result == Value(t[start..end], hex) % Word(bits)
      invariant start < end ==> t[start] != '0'
      decreases |t| - end
    {
      Accumulates(t, start, end, hex, bits);
      RunGoesOn(t, end, hex);
      result := (result * Base(hex) + DigitOf(t[end])) % Word(bits);
      end := end + 1;
    }
    RunStops(t, end, hex);
    LeadingZeros(t[from..end], start - from, hex);
    assert t[from..end][start - from..] == t[start..end];
  }

  lemma EmptyValue(t: string, i: nat, hex: bool, bits: nat)
    requires i <= |t| && IsWidth(bits)
    ensures AllDigits(t[i..i], hex) && Value(t[i..i], hex) % Word(bits) == 0
  {
    assert t[i..i] == "";
  }

  /** lo is the lower bound that the word minv stands for. */
  predicate LowerBound(lo: int, minv: nat, bits: nat) {
    0 < lo + Word(bits) && lo <= 0 && minv == (if lo == 0 then 0 else lo + Word(bits))
  }

  /** The bit pattern of an integer. */
  function Pattern(v: int, bits: nat): nat {
    v % Word(bits)
  }

  /**
   string_to_integer: the mathematical value clamped to the bounds, for every digit string of any length, although
   the accumulator wraps around.
   */
  method StringToInteger(t: string, minv: nat, maxv: nat, bits: nat, ghost lo: int) returns (r: nat)
    requires Terminated(t) && IsWidth(bits) && LowerBound(lo, minv, bits) && maxv < Word(bits)
    ensures r == Pattern(Clamp(Meaning(t), lo, maxv), bits)
  {
    hide Value, Meaning, Clamp, Pattern, Word, Negated, Overflow10;
    var negative, hex, at := ReadPrefix(t);
    var result, start, end := ReadDigits(t, at, hex, bits);
    ghost var v: int := Value(t[start..end], hex);
    var overflow: bool;
    if hex {
      overflow := end - start > bits / 4;
      HexOverflow(t[start..end], bits);
    } else {
      overflow := Overflow10(t[start..end], bits, result);
      DecimalOverflow(t[start..end], bits, result);
    }
    Saturates(v, result, minv, maxv, bits, lo);
    if negative {
      r := if overflow || result > Negated(minv, bits) then minv else Negated(result, bits);
    } else {
      r := if overflow || result > maxv then maxv else result;
    }
  }

  /** White space, sign and 0x; the digits begin at `at`. */
  method ReadPrefix(t: string) returns (negative: bool, hex: bool, at: nat)
    requires Terminated(t)
    ensures at < |t|
    ensures Meaning(t) == var v: int := Value(t[at..RunEnd(t, at, hex)], hex); if negative then -v else v
  {
    hide Value, RunEnd;
    var s := 0;
    while IsSpace(t[s])
      invariant s < |t| && SkipSpaces(t, 0) == SkipSpaces(t, s)
      decreases |t| - s
    {
      s := s + 1;
    }
    assert SkipSpaces(t, 0) == s;
    hide SkipSpaces;
    negative := t[s] == '-';
    at := if t[s] == '+' || t[s] == '-' then s + 1 else s;
    hex := t[at] == '0' && (t[at + 1] == 'x' || t[at + 1] == 'X');
    assert hex <==> IsHex(t, at);
    if hex { at := at + 2; }
  }

  /** Unsigned negation. */
  function Negated(x: int, bits: nat): nat {
    (-x) % Word(bits)
  }

  lemma Saturates(v: int, result: nat, minv: nat, maxv: nat, bits: nat, lo: int)
    requires IsWidth(bits) && LowerBound(lo, minv, bits) && maxv < Word(bits) && v >= 0 && result == v % Word(bits)
    ensures Negated(minv, bits) == -lo
    ensures Pattern(Clamp(-v, lo, maxv), bits) ==
              if v >= Word(bits) || result > Negated(minv, bits) then minv else Negated(result, bits)
    ensures Pattern(Clamp(v, lo, maxv), bits) == if v >= Word(bits) || result > maxv then maxv else result
  {
    var w := Word(bits);
    hide Word;
    var a: int, b: int := minv, result;
    Residue(v, w);
    Residue(-v, w);
    Residue(lo, w);
    Residue(-a, w);
    Residue(-b, w);
    Residue(maxv, w);
  }

  /** The residue of an integer less than one word away from zero. */
  lemma Residue(x: int, w: nat)
    requires w > 0
    ensures 0 <= x < w ==> x % w == x
    ensures x < 0 < x + w ==> x % w == x + w
  {
  }

  // ---- integer_to_string

  /** The number a word and a sign stand for. */
  function Denoted(value: nat, negative: bool, bits: nat): int
    requires value < Word(bits)
  {
    var v: int := if negative then Negated(value, bits) else value;
    if negative then -v else v
  }

  /** integer_to_string: digits from the end of the buffer backwards, and a minus sign in front that is kept only if needed. */
  method IntegerToString(buf: array<char>, value: nat, negative: bool, bits: nat) returns (begin: nat)
    requires IsWidth(bits) && value < Word(bits) && buf.Length > DigitCount(Word(bits))
    requires negative ==> value != 0
    modifies buf
    ensures begin <= buf.Length && buf[begin..] == Decimal(Denoted(value, negative, bits))
  {
    var rest: nat := if negative then Negated(value, bits) else value;
    CountGrows(rest, Word(bits));
    hide Digits, DigitCount;
    var result := WriteDigits(buf, rest);
    ghost var t := buf[..];
    assert t[result + 1..] == Digits(rest);
    buf[result] := '-';
    assert buf[..][result + 1..] == t[result + 1..] && buf[result..] == "-" + buf[..][result + 1..];
    begin := if negative then result else result + 1;
  }

  /** The digits of n at the end of the buffer; result is the place before them. */
  method WriteDigits(buf: array<char>, n: nat) returns (result: nat)
    requires buf.Length > DigitCount(n)
    modifies buf
    ensures result < buf.Length && buf[..][result + 1..] == Digits(n)
  {
    hide Digits, DigitCount, DigitChar;
    LastDigit(n);
    result := buf.Length - 1;
    var rest := n;
    buf[result] := DigitChar(rest % 10);
    result := result - 1;
    rest := rest / 10;
    assert buf[..][result + 1..] == [DigitChar(n % 10)];
    while rest != 0
      invariant DigitCountOr0(rest) <= result < buf.Length - 1
      invariant Digits(n) == DigitsOr0(rest) + buf[..][result + 1..]
      decreases rest
    {
      LastDigit(rest);
      ghost var t := buf[..];
      buf[result] := DigitChar(rest % 10);
      assert buf[..] == t[result := DigitChar(rest % 10)];
      PutInFront(t, result, DigitChar(rest % 10));
      Assoc(DigitsOr0(rest / 10), [DigitChar(rest % 10)], t[result + 1..]);
      result := result - 1;
      rest := rest / 10;
    }
  }

  lemma PutInFront(t: string, i: nat, c: char)
    requires i < |t|
    ensures t[i := c][i..] == [c] + t[i + 1..]
  {
  }

  lemma LastDigit(n: nat)
    ensures Digits(n) == DigitsOr0(n / 10) + [DigitChar(n % 10)]
    ensures DigitCount(n) == DigitCountOr0(n / 10) + 1
  {
  }

  function DigitsOr0(n: nat): string {
    if n == 0 then "" else Digits(n)
  }

  function DigitCountOr0(n: nat): nat {
    if n == 0 then 0 else DigitCount(n)
  }

  lemma {:induction false} CountGrows(m: nat, n: nat)
    requires m <= n
    ensures DigitCount(m) <= DigitCount(n)
  {
    if m >= 10 { CountGrows(m / 10, n / 10); }
  }

  // ---- round trip

  lemma {:induction false} ValueOfDigits(n: nat)
    ensures AllDigits(Digits(n), false) && Value(Digits(n), false) == n
  {
    if n < 10 {
      assert Digits(n)[..0] == "";
    } else {
      ValueOfDigits(n / 10);
      ValueStep(Digits(n / 10), DigitChar(n % 10), false);
    }
  }

  lemma {:induction false} RunIs(t: string, i: nat, e: nat, hex: bool)
    requires i <= e < |t| && (forall k :: i <= k < e ==> IsDigit(t[k], hex)) && !IsDigit(t[e], hex)
    ensures RunEnd(t, i, hex) == e
    decreases e - i
  {
    if i < e { RunIs(t, i + 1, e, hex); }
  }

  /** A written integer means itself. */
  lemma MeaningOfDecimal(v: int, t: string)
    requires Decimal(v) + [NUL] <= t
    ensures Meaning(t) == v
  {
    var n: nat := if v < 0 then -v else v;
    var k := if v < 0 then 1 else 0;
    SignInText(v, t);
    DigitsInText(t, k, n);
    ValueOfDigits(n);
    hide Value, RunEnd, Digits, Decimal;
    assert SkipSpaces(t, 0) == 0;
  }

  lemma SignInText(v: int, t: string)
    requires Decimal(v) + [NUL] <= t
    ensures t != "" && if v < 0 then t[0] == '-' && Digits(-v) + [NUL] <= t[1..] else Digits(v) + [NUL] <= t[0..]
  {
    var w := Decimal(v) + [NUL];
    assert t[0] == w[0];
    if v < 0 {
      assert w[1..] == Digits(-v) + [NUL] && w == t[..|w|];
      assert t[1..][..|w| - 1] == t[..|w|][1..];
    } else {
      assert t[0..] == t;
    }
  }

  /** The written digits are what the scan finds, and they do not look like hexadecimal. */
  lemma DigitsInText(t: string, k: nat, n: nat)
    requires k <= |t| && Digits(n) + [NUL] <= t[k..]
    ensures k < |t| && IsDigit(t[k], false) && !IsHex(t, k)
    ensures RunEnd(t, k, false) == k + |Digits(n)| <= |t| && t[k..k + |Digits(n)|] == Digits(n)
  {
    var d := Digits(n);
    var w := d + [NUL];
    assert forall i :: 0 <= i < |d| ==> d[i] in d;
    assert forall i :: 0 <= i < |w| ==> t[k..][i] == w[i];
    hide Digits;
    forall i | 0 <= i < |w| ensures t[k + i] == w[i] { assert t[k..][i] == t[k + i]; }
    forall i | k <= i < k + |d| ensures IsDigit(t[i], false) { assert t[k + (i - k)] == d[i - k]; }
    assert t[k + |d|] == NUL;
    RunIs(t, k, k + |d|, false);
    assert t[k..k + |d|] == d;
    assert |d| > 1 ==> t[k + 1] == d[1];
  }

  /** What integer_to_string writes for any representable integer, string_to_integer reads back: also the minimum. */
  lemma IntegerRoundTrip(v: int, lo: int, maxv: nat, bits: nat, t: string)
    requires IsWidth(bits) && lo <= v <= maxv && Decimal(v) + [NUL] <= t
    ensures Pattern(Clamp(Meaning(t), lo, maxv), bits) == Pattern(v, bits)
  {
    MeaningOfDecimal(v, t);
  }

  /** The word and sign that the setters pass for v stand for v. */
  lemma SetterArguments(v: int, lo: int, maxv: nat, bits: nat)
    requires IsWidth(bits) && lo <= v <= maxv < Word(bits) && 0 < lo + Word(bits)
    ensures Denoted(Pattern(v, bits), v < 0, bits) == v
  {
    if v < 0 {
      assert v % Word(bits) == v + Word(bits);
    }
  }
}
