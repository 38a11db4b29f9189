/**
 What the text converters yield, in the terms of the standards: character references become UTF-8 (RFC 3629, section 3),
 line ends and white space are normalised (XML 1.0, sections 2.11 and 3.3.3).
 */
module References {
  import opened Options
  import opened Arithmetic
  import opened Strings
  import opened DecimalText
  import opened TextConvert
  import opened EscapeRoundTrip

  // ---- decoding UTF-8

  datatype Decoded = Decoded(ch: nat, length: nat)

  function Octet(s: string, k: nat): int {
    if k < |s| then s[k] as int else -1
  }

  /** The six payload bits of an octet 10xxxxxx. */
  function Payload(o: int): Option<nat> {
    if 0x80 <= o <= 0xBF then Some(o - 0x80) else None
  }

  /** The code point and the number of octets of the character that s begins with; overlong forms are no characters. */
  function Decode(s: string): Option<Decoded> {
    var lead := Octet(s, 0);
    var p, q, r := Payload(Octet(s, 1)), Payload(Octet(s, 2)), Payload(Octet(s, 3));
    if 0x00 <= lead <= 0x7F then Some(Decoded(lead, 1))
    else if 0xC0 <= lead <= 0xDF && p.Some? then InRange((lead - 0xC0) * 64 + p.value, 2, 0x80, 0x7FF)
    else if 0xE0 <= lead <= 0xEF && p.Some? && q.Some? then
      InRange(((lead - 0xE0) * 64 + p.value) * 64 + q.value, 3, 0x800, 0xFFFF)
    else if 0xF0 <= lead <= 0xF7 && p.Some? && q.Some? && r.Some? then
      InRange((((lead - 0xF0) * 64 + p.value) * 64 + q.value) * 64 + r.value, 4, 0x1_0000, 0x10_FFFF)
    else None
  }

  function InRange(ch: nat, length: nat, low: nat, high: nat): Option<Decoded> {
    if low <= ch <= high then Some(Decoded(ch, length)) else None
  }

  lemma DecodeOne(s: string)
    requires s != "" && s[0] < 0x80 as char
    ensures Decode(s) == Some(Decoded(s[0] as int, 1))
  {
  }

  lemma DecodeTwo(s: string, a: nat, b: nat)
    requires |s| >= 2 && s[0] as int == 0xC0 + a && s[1] as int == 0x80 + b && a < 32 && b < 64
    ensures Decode(s) == InRange(a * 64 + b, 2, 0x80, 0x7FF)
  {
  }

  lemma DecodeThree(s: string, a: nat, b: nat, c: nat)
    requires |s| >= 3 && s[0] as int == 0xE0 + a && s[1] as int == 0x80 + b && s[2] as int == 0x80 + c && a < 16 && b < 64 && c < 64
    ensures Decode(s) == InRange((a * 64 + b) * 64 + c, 3, 0x800, 0xFFFF)
  {
  }

  lemma DecodeFour(s: string, a: nat, b: nat, c: nat, d: nat)
    requires |s| >= 4 && s[0] as int == 0xF0 + a && s[1] as int == 0x80 + b && s[2] as int == 0x80 + c && s[3] as int == 0x80 + d
    requires a < 8 && b < 64 && c < 64 && d < 64
    ensures Decode(s) == InRange(((a * 64 + b) * 64 + c) * 64 + d, 4, 0x1_0000, 0x10_FFFF)
  {
  }

  lemma DecodedRange(s: string)
    ensures Decode(s).Some? ==> Decode(s).value.ch < 0x11_0000
  {
  }

  lemma SixBits(ch: nat)
    ensures ch == ch / 64 * 64 + ch % 64 && ch / 64 == ch / 4096 * 64 + ch / 64 % 64
    ensures ch / 4096 == ch / 0x4_0000 * 64 + ch / 4096 % 64
  {
    assert ch / 4096 == ch / 64 / 64 && ch / 0x4_0000 == ch / 4096 / 64;
  }

  /** Decoding undoes the encoding, whatever text follows, exactly up to the last code point. */
  lemma Utf8Decodes(ch: nat, rest: string)
    ensures Decode(Utf8(ch) + rest) == Some(Decoded(ch, |Utf8(ch)|)) <==> ch < 0x11_0000
  {
    var s := Utf8(ch) + rest;
    hide Decode;
    SixBits(ch);
    if ch < 0x80 {
      DecodeOne(s);
    } else if ch < 0x800 {
      DecodeTwo(s, ch / 64, ch % 64);
    } else if ch < 0x1_0000 {
      DecodeThree(s, ch / 4096, ch / 64 % 64, ch % 64);
    } else if ch < 0x11_0000 {
      DecodeFour(s, ch / 0x4_0000, ch / 4096 % 64, ch / 64 % 64, ch % 64);
    } else {
      DecodedRange(s);
    }
  }

  // ---- numbers in references

  /** c stands for d, in either letter case. */
  predicate StandsFor(c: char, d: nat) {
    d < 16 && (c == "0123456789abcdef"[d] || c == "0123456789ABCDEF"[d])
  }

  /** s is n to the given base, perhaps with leading zeros. */
  predicate Spelt(s: string, base: nat, n: nat)
    requires base > 0
  {
    if s == "" then n == 0 else StandsFor(s[|s| - 1], n % base) && Spelt(s[..|s| - 1], base, n / base)
  }

  function Base(hex: bool): (base: nat)
    ensures base > 0
  {
    if hex then 16 else 10
  }

  function Prefix(hex: bool): string {
    if hex then "&#x" else "&#"
  }

  lemma DigitStands(c: char, hex: bool, d: nat)
    requires d < Base(hex)
    ensures StandsFor(c, d) <==> IsBaseDigit(c, hex) && DigitValue(c) == d
  {
  }

  function Accumulated(s: string, hex: bool): nat {
    if s == "" || !IsBaseDigit(s[|s| - 1], hex) then 0
    else ((if hex then 16 else 10) * Accumulated(s[..|s| - 1], hex) + DigitValue(s[|s| - 1])) % WORD
  }

  lemma OneDigitMore(base: nat, n: nat)
    requires base == 10 || base == 16
    ensures (base * (n / base % WORD) + n % base) % WORD == n % WORD
  {
    var q := n / base / WORD;
    if base == 10 {
      assert n == 10 * (n / 10 % WORD) + n % 10 + 10 * q * WORD;
      ModMultiple(10 * (n / 10 % WORD) + n % 10, 10 * q, WORD);
    } else {
      assert n == 16 * (n / 16 % WORD) + n % 16 + 16 * q * WORD;
      ModMultiple(16 * (n / 16 % WORD) + n % 16, 16 * q, WORD);
    }
  }

  lemma {:induction false} SpeltValue(s: string, hex: bool, n: nat)
    requires Spelt(s, Base(hex), n)
    ensures Accumulated(s, hex) == n % WORD && forall c :: c in s ==> IsBaseDigit(c, hex)
  {
    if s != "" {
      var init, c := s[..|s| - 1], s[|s| - 1];
      SpeltValue(init, hex, n / Base(hex));
      DigitStands(c, hex, n % Base(hex));
      OneDigitMore(Base(hex), n);
      hide StandsFor, DigitValue, IsBaseDigit;
      assert s == init + [c];
    }
  }

  lemma NumberStep(t: string, i: nat, hex: bool, acc: nat)
    requires i < |t| && IsBaseDigit(t[i], hex)
    ensures Number(t, i, hex, acc) == Number(t, i + 1, hex, ((if hex then 16 else 10) * acc + DigitValue(t[i])) % WORD)
  {
  }

  lemma {:induction false} NumberReads(t: string, i: nat, s: string, hex: bool)
    requires StartsAt(t, i, s) && forall c :: c in s ==> IsBaseDigit(c, hex)
    ensures Number(t, i, hex, 0) == Number(t, i + |s|, hex, Accumulated(s, hex))
  {
    hide StartsAt, Number, IsBaseDigit, DigitValue;
    if s != "" {
      var init, c := s[..|s| - 1], s[|s| - 1];
      assert s == init + [c] && c in s;
      SplitStart(t, i, init, [c]);
      NumberReads(t, i, init, hex);
      FirstChar(t, i + |init|, [c]);
      NumberStep(t, i + |init|, hex, Accumulated(init, hex));
    }
  }

  lemma ReferenceIsNumber(t: string, i: nat, hex: bool)
    requires StartsAt(t, i, Prefix(hex)) && i + |Prefix(hex)| < |t| && IsBaseDigit(t[i + |Prefix(hex)|], hex)
    ensures ReferenceAt(t, i) == Number(t, i + |Prefix(hex)|, hex, 0)
  {
    ReferenceChars(t, i);
    hide StartsAt, Number;
  }

  lemma NumberEnds(t: string, i: nat, hex: bool, acc: nat)
    requires i < |t| && t[i] == ';'
    ensures Number(t, i, hex, acc) == Reference(Utf8(acc), i + 1)
  {
  }

  /** A numeric reference, decimal or hexadecimal in either letter case, is recognised and yields its code point in UTF-8. */
  lemma NumericReference(t: string, i: nat, s: string, hex: bool, n: nat, rest: string)
    requires s != "" && Spelt(s, Base(hex), n) && StartsAt(t, i, Prefix(hex) + s + ";")
    ensures var r := ReferenceAt(t, i);
            && r.Reference? && r.next == i + |Prefix(hex)| + |s| + 1
            && (n < 0x11_0000 ==> Decode(r.text + rest) == Some(Decoded(n, |r.text|)))
  {
    hide Spelt, StartsAt, Decode, Utf8, Number, ReferenceAt, Accumulated, Prefix, IsBaseDigit, StandsFor;
    NumberIs(t, i, s, hex, n);
    SmallWord(n);
    Utf8Decodes(n % WORD, rest);
  }

  lemma SmallWord(n: nat)
    ensures n < 0x11_0000 ==> n % WORD == n
  {
  }

  /** Any number, modulo the word. */
  lemma NumberIs(t: string, i: nat, s: string, hex: bool, n: nat)
    requires s != "" && Spelt(s, Base(hex), n) && StartsAt(t, i, Prefix(hex) + s + ";")
    ensures ReferenceAt(t, i) == Reference(Utf8(n % WORD), i + |Prefix(hex)| + |s| + 1)
  {
    hide Spelt, StartsAt, Decode, Utf8, Number, ReferenceAt, Accumulated, Prefix, IsBaseDigit, StandsFor;
    SpeltValue(s, hex, n);
    NumberStands(t, i, s, hex);
    assert s[0] in s;
    NumberReads(t, i + |Prefix(hex)|, s, hex);
    ReferenceIsNumber(t, i, hex);
    NumberEnds(t, i + |Prefix(hex)| + |s|, hex, n % WORD);
  }

  lemma NumberStands(t: string, i: nat, s: string, hex: bool)
    requires s != "" && StartsAt(t, i, Prefix(hex) + s + ";")
    ensures var p := i + |Prefix(hex)|;
            StartsAt(t, i, Prefix(hex)) && StartsAt(t, p, s) && p + |s| < |t| && t[p + |s|] == ';' && t[p] == s[0]
  {
    hide Prefix;
    var p := i + |Prefix(hex)|;
    SplitStart(t, i, Prefix(hex) + s, ";");
    SplitStart(t, i, Prefix(hex), s);
    FirstChar(t, p + |s|, ";");
    FirstChar(t, p, s);
  }

  /** The decimal text of a number spells it. */
  lemma {:induction false} DecimalSpells(n: nat)
    ensures Spelt(Digits(n), 10, n)
  {
    var s, c := Digits(n), DigitChar(n % 10);
    if n < 10 {
      assert s == [c] && s[..0] == "";
    } else {
      DecimalSpells(n / 10);
      assert s[..|s| - 1] == Digits(n / 10) && s[|s| - 1] == c;
    }
    DigitStands(c, false, n % 10);
  }

  function HexDigit(d: nat, upper: bool): char
    requires d < 16
  {
    if d < 10 then (48 + d) as char else if upper then (55 + d) as char else (87 + d) as char
  }

  function HexText(n: nat, upper: bool): (s: string)
    ensures s != ""
  {
    if n < 16 then [HexDigit(n, upper)] else HexText(n / 16, upper) + [HexDigit(n % 16, upper)]
  }

  /** So does its hexadecimal text, in either letter case. */
  lemma {:induction false} HexSpells(n: nat, upper: bool)
    ensures Spelt(HexText(n, upper), 16, n)
  {
    var s, c := HexText(n, upper), HexDigit(n % 16, upper);
    if n < 16 {
      assert s == [c] && s[..0] == "";
    } else {
      HexSpells(n / 16, upper);
      assert s[..|s| - 1] == HexText(n / 16, upper) && s[|s| - 1] == c;
    }
    DigitStands(c, true, n % 16);
  }

  // ---- only those are recognised

  lemma {:induction false} DigitsSpell(s: string, hex: bool) returns (n: nat)
    requires forall c :: c in s ==> IsBaseDigit(c, hex)
    ensures Spelt(s, Base(hex), n)
  {
    if s == "" {
      n := 0;
    } else {
      var init, c := s[..|s| - 1], s[|s| - 1];
      assert s == init + [c] && c in s;
      var m := DigitsSpell(init, hex);
      var d := DigitValue(c);
      n := Base(hex) * m + d;
      assert d < Base(hex);
      assert n / Base(hex) == m && n % Base(hex) == d;
      DigitStands(c, hex, d);
    }
  }

  lemma {:induction false} NumberStops(t: string, i: nat, hex: bool, acc: nat) returns (j: nat)
    requires Number(t, i, hex, acc).Reference?
    ensures i <= j < |t| && t[j] == ';' && forall k :: i <= k < j ==> IsBaseDigit(t[k], hex)
    decreases |t| - i
  {
    if t[i] == ';' { j := i; } else { j := NumberStops(t, i + 1, hex, ((if hex then 16 else 10) * acc + DigitValue(t[i])) % WORD); }
  }

  /** Nothing else that begins like a numeric reference is recognised as one; a number beyond the word wraps around. */
  lemma RecognisedIsNumeric(t: string, i: nat) returns (s: string, hex: bool, n: nat)
    requires ReferenceAt(t, i).Reference? && StartsAt(t, i, "&#")
    ensures s != "" && Spelt(s, Base(hex), n) && StartsAt(t, i, Prefix(hex) + s + ";")
    ensures ReferenceAt(t, i) == Reference(Utf8(n % WORD), i + |Prefix(hex)| + |s| + 1)
  {
    ReferenceChars(t, i);
    hex := StartsAt(t, i, "&#x");
    hide StartsAt, Spelt, Utf8, IsBaseDigit, DigitValue;
    var p := i + |Prefix(hex)|;
    var j := NumberStops(t, p, hex, 0);
    s := t[p..j];
    n := DigitsSpell(s, hex);
    StartsAtByChar(t, i, Prefix(hex));
    StartsAtByChar(t, i, Prefix(hex) + s + ";");
    NumberIs(t, i, s, hex, n);
  }

  // ---- text without references

  function Blank(c: char): char {
    if c == '\t' || c == '\n' || c == '\r' then ' ' else c
  }

  function Blanks(s: string): string {
    seq(|s|, k requires 0 <= k < |s| => Blank(s[k]))
  }

  /** Line ends as section 2.11 wants them: each pair and each lone carriage return becomes a line feed. */
  lemma {:induction false} EolLaws(s: string, t: string)
    ensures EolNormal("\r\n") == EolNormal("\r") == "\n"
    ensures '\r' !in EolNormal(s)
    ensures !(s != "" && s[|s| - 1] == '\r' && t != "" && t[0] == '\n') ==> EolNormal(s + t) == EolNormal(s) + EolNormal(t)
  {
    assert "\r"[1..] == "" && "\r\n"[2..] == "";
    NoReturns(s);
    if !(s != "" && s[|s| - 1] == '\r' && t != "" && t[0] == '\n') { EolParts(s, t); }
  }

  lemma {:induction false} NoReturns(s: string)
    ensures '\r' !in EolNormal(s)
    decreases |s|
  {
    if s != "" { NoReturns(if s[0] == '\r' && |s| > 1 && s[1] == '\n' then s[2..] else s[1..]); }
  }

  lemma {:induction false} EolParts(s: string, t: string)
    requires !(s != "" && s[|s| - 1] == '\r' && t != "" && t[0] == '\n')
    ensures EolNormal(s + t) == EolNormal(s) + EolNormal(t)
    decreases |s|
  {
    if s == "" {
      assert s + t == t;
    } else {
      hide EolNormal;
      var n := if s[0] == '\r' && |s| > 1 && s[1] == '\n' then 2 else 1;
      var u := s + t;
      assert u[0] == s[0] && (|s| > 1 ==> u[1] == s[1]) && (|s| == 1 && t != "" ==> u[1] == t[0]);
      assert u[n..] == s[n..] + t;
      assert s[n..] != "" ==> s[n..][|s| - n - 1] == s[|s| - 1];
      EolParts(s[n..], t);
      EolFirst(s);
      EolFirst(u);
      Assoc([if s[0] == '\r' then '\n' else s[0]], EolNormal(s[n..]), EolNormal(t));
    }
  }

  lemma EolFirst(s: string)
    requires s != ""
    ensures var n := if s[0] == '\r' && |s| > 1 && s[1] == '\n' then 2 else 1;
            EolNormal(s) == [if s[0] == '\r' then '\n' else s[0]] + EolNormal(s[n..])
  {
  }

  /** What conversion makes of text that holds no references. */
  function Plainly(st: Style, s: string): string {
    if st.ws then Blanks(EolNormal(s)) else if st.eol then EolNormal(s) else s
  }

  /** How many characters the first line end takes, or any other first character. */
  function FirstLength(st: Style, s: string): (n: nat)
    requires s != ""
    ensures 1 <= n <= |s|
  {
    if s[0] == '\r' && (st.eol || st.ws) && |s| > 1 && s[1] == '\n' then 2 else 1
  }

  lemma PlainlyFirst(st: Style, s: string)
    requires s != ""
    ensures var n := FirstLength(st, s);
            Plainly(st, s) == Plainly(st, [s[0]]) + Plainly(st, s[n..]) && |Plainly(st, [s[0]])| == 1
  {
    var n := FirstLength(st, s);
    assert [s[0]][1..] == "" && s == [s[0]] + s[1..];
    EolEmpty();
    assert st.eol || st.ws ==> EolNormal(s) == EolNormal([s[0]]) + EolNormal(s[n..]);
    hide EolNormal;
  }

  lemma RawFirst(st: Style, t: string, i: nat, s: string)
    requires ValidStyle(st) && s != "" && s[0] != NUL && s[0] != st.stop && (st.escape ==> s[0] != '&')
    requires StartsAt(t, i, s + [st.stop])
    ensures !IsEnd(st, t, i) && Piece(st, t, i) == Reference(Plainly(st, [s[0]]), i + FirstLength(st, s))
  {
    var w := s + [st.stop];
    StartsAtByChar(t, i, w);
    hide StartsAt;
    assert w[0] == s[0] && (|s| > 1 ==> w[1] == s[1]) && (|s| == 1 ==> w[1] == st.stop);
    assert t[i + 0] == s[0] && (|s| > 1 ==> t[i + 1] == s[1]) && (|s| == 1 ==> t[i + 1] == st.stop);
    assert EolNormal([s[0]]) == if s[0] == '\r' then "\n" else [s[0]] by { assert [s[0]][1..] == ""; }
    hide EolNormal;
  }

  /** Text without references is kept but for its line ends, and for white space in attributes where that is converted. */
  lemma {:induction false} RawText(st: Style, t: string, i: nat, s: string)
    requires ValidStyle(st) && NUL !in s && st.stop !in s && (st.escape ==> '&' !in s)
    requires StartsAt(t, i, s + [st.stop])
    ensures Converted(st, t, i) == Text(Plainly(st, s), i + |s|)
    decreases |s|
  {
    if s == "" {
      assert "" + [st.stop] == s + [st.stop];
      NothingLeft(st, t, i);
      assert Blanks("") == "";
    } else {
      var n := FirstLength(st, s);
      assert s[0] in s && forall c :: c in s[n..] ==> c in s;
      assert s + [st.stop] == s[..n] + (s[n..] + [st.stop]);
      SplitStart(t, i, s[..n], s[n..] + [st.stop]);
      RawFirst(st, t, i, s);
      PlainlyFirst(st, s);
      hide Plainly, StartsAt, FirstLength, ValidStyle, Piece;
      RawText(st, t, i + n, s[n..]);
    }
  }

  lemma SpaceIs()
    ensures forall c :: IsSpace(c) <==> c in " \t\r\n"
  {
  }

  /** Trimming takes white space off the end, all of it and nothing else. */
  lemma {:induction false} TrimLaws(s: string)
    ensures var r := TrimRight(s);
            && |r| <= |s| && r == s[..|r|] && (forall k :: |r| <= k < |s| ==> s[k] in " \t\r\n")
            && (r != "" ==> r[|r| - 1] !in " \t\r\n")
    decreases |s|
  {
    SpaceIs();
    if s != "" && IsSpace(s[|s| - 1]) {
      TrimLaws(s[..|s| - 1]);
      assert s == s[..|s| - 1] + [s[|s| - 1]];
    }
  }

  // ---- what is written

  /** The characters that are written as they are; all others are written as references. */
  lemma WrittenAsIs(c: char, attr: bool, single: bool)
    ensures EscapedChar(c, attr, single) == [c] <==>
              c !in "&<" && (if attr then c >= ' ' && c != (if single then '\'' else '"') else c != '>' && (c >= ' ' || c in "\t\n\r"))
    ensures EscapedChar(c, attr, single) != [c] ==> EscapedChar(c, attr, single)[0] == '&'
  {
  }
}
