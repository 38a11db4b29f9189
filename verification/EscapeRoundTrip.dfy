/**
 Escaped output, and what the in-place converters make of it: every NUL-free attribute value comes back,
 and character data does exactly when line-end and trim options leave it alone.
 */
module EscapeRoundTrip {
  import opened Strings
  import opened TextConvert

  /** ctx_special_attr and ctx_special_pcdata. */
  predicate NeedsEscape(c: char, attr: bool) {
    || c == '&' || c == '<' || (c == '>' && !attr)
    || (c < ' ' && (attr || !(c == '\t' || c == '\r' || c == '\n')))
    || (attr && (c == '"' || c == '\''))
  }

  predicate IsControl(c: char, attr: bool) {
    c < ' ' && NeedsEscape(c, attr)
  }

  function Digit(d: nat): char
    requires d < 10
  {
    (d + 48) as char
  }

  /** What is written for one character; the flag tells which quote encloses an attribute. */
  function EscapedChar(c: char, attr: bool, single: bool): string {
    if !NeedsEscape(c, attr) then [c]
    else if c == '&' then "&amp;"
    else if c == '<' then "&lt;"
    else if c == '>' then "&gt;"
    else if c == '"' then if single then "\"" else "&quot;"
    else if c == '\'' then if single then "&apos;" else "'"
    else ['&', '#', Digit(c as int / 10), Digit(c as int % 10), ';']
  }

  function Escaped(s: string, attr: bool, single: bool, skip: bool): string {
    if s == "" then ""
    else (if skip && IsControl(s[0], attr) then "" else EscapedChar(s[0], attr, single)) + Escaped(s[1..], attr, single, skip)
  }

  lemma {:induction false} EscapedStep(s: string, i: nat, attr: bool, single: bool, skip: bool)
    requires i < |s|
    ensures Escaped(s[i..], attr, single, skip) ==
              (if skip && IsControl(s[i], attr) then "" else EscapedChar(s[i], attr, single)) + Escaped(s[i + 1..], attr, single, skip)
  {
    assert s[i..][1..] == s[i + 1..];
  }

  /** Runs that need no escape are copied in one go. */
  lemma {:induction false} EscapedRun(s: string, i: nat, j: nat, attr: bool, single: bool, skip: bool)
    requires i <= j <= |s| && forall k :: i <= k < j ==> !NeedsEscape(s[k], attr)
    ensures Escaped(s[i..], attr, single, skip) == s[i..j] + Escaped(s[j..], attr, single, skip)
    decreases j - i
  {
    if i < j {
      EscapedStep(s, i, attr, single, skip);
      EscapedRun(s, i + 1, j, attr, single, skip);
      assert s[i..j] == [s[i]] + s[i + 1..j];
      Assoc([s[i]], s[i + 1..j], Escaped(s[j..], attr, single, skip));
    } else {
      assert s[i..j] == "";
    }
  }

  /** text_output_escaped: t is zero-terminated at z. */
  method TextOutputEscaped(t: string, attr: bool, single: bool, skip: bool, ghost z: nat) returns (out: string)
    requires z < |t| && t[z] == NUL && NUL !in t[..z]
    ensures out == Escaped(t[..z], attr, single, skip)
  {
    hide Escaped, EscapedChar, NeedsEscape, IsControl;
    ghost var s := t[..z];
    out := "";
    var i := 0;
    assert s[0..] == s;
    assert forall k :: 0 <= k < z ==> s[k] == t[k] && s[k] in s;
    while t[i] != NUL
      invariant 0 <= i <= z && out + Escaped(s[i..], attr, single, skip) == Escaped(s, attr, single, skip)
      decreases z - i
    {
      var prev := i;
      while !NeedsEscape(t[i], attr) && t[i] != NUL
        invariant prev <= i <= z && forall k :: prev <= k < i ==> !NeedsEscape(s[k], attr)
        decreases z - i
      {
        assert t[i] == s[i];
        i := i + 1;
      }
      EscapedRun(s, prev, i, attr, single, skip);
      assert t[prev..i] == s[prev..i];
      Assoc(out, s[prev..i], Escaped(s[i..], attr, single, skip));
      out := out + t[prev..i];
      if t[i] != NUL {
        assert t[i] == s[i];
        EscapedStep(s, i, attr, single, skip);
        var written := if skip && IsControl(t[i], attr) then "" else EscapedChar(t[i], attr, single);
        Assoc(out, written, Escaped(s[i + 1..], attr, single, skip));
        out := out + written;
        i := i + 1;
      }
    }
    assert s[z..] == "";
    EscapedEmpty(attr, single, skip);
    assert out + "" == out;
  }

  lemma EscapedEmpty(attr: bool, single: bool, skip: bool)
    ensures Escaped("", attr, single, skip) == ""
  {
  }

  // ---- one character

  /** A two-digit reference reads back as its character. */
  lemma ControlReference(t: string, i: nat, c: char)
    requires c < ' ' && StartsAt(t, i, ['&', '#', Digit(c as int / 10), Digit(c as int % 10), ';'])
    ensures ReferenceAt(t, i) == Reference([c], i + 5)
  {
    var d, e := c as int / 10, c as int % 10;
    hide Number, Utf8;
    Word5(t, i, '&', '#', Digit(d), Digit(e), ';');
    ReferenceChars(t, i);
    hide StartsAt;
    assert ReferenceAt(t, i) == Number(t, i + 2, false, 0);
    hide ReferenceAt;
    assert DigitValue(t[i + 2]) == d && DigitValue(t[i + 3]) == e;
    TwoDigits(t, i + 2, d, e);
    AsciiUtf8(c);
  }

  lemma TwoDigits(t: string, i: nat, d: nat, e: nat)
    requires i + 2 < |t| && d < 10 && e < 10 && t[i] == Digit(d) && t[i + 1] == Digit(e) && t[i + 2] == ';'
    ensures Number(t, i, false, 0) == Reference(Utf8(10 * d + e), i + 3)
  {
    hide Utf8;
    assert Number(t, i + 1, false, d) == Number(t, i + 2, false, 10 * d + e);
  }

  lemma AsciiUtf8(c: char)
    requires c < ' '
    ensures Utf8(c as int) == [c]
  {
  }

  /** Each written reference is recognised again. */
  lemma ReferenceReadsBack(t: string, i: nat, c: char, attr: bool, single: bool)
    requires c != NUL && EscapedChar(c, attr, single) != [c] && StartsAt(t, i, EscapedChar(c, attr, single))
    ensures ReferenceAt(t, i) == Reference([c], i + |EscapedChar(c, attr, single)|)
  {
    if c < ' ' {
      ControlReference(t, i, c);
    } else {
      ReferenceChars(t, i);
      hide StartsAt;
    }
  }

  /** Converting at a written character yields it and goes on behind it, unless it is a bare carriage return under eol. */
  lemma CharReadsBack(st: Style, t: string, i: nat, c: char, attr: bool, single: bool)
    requires ValidStyle(st) && st.escape && c != NUL
    requires if attr then st.stop == if single then '\'' else '"' else st.stop == '<'
    requires StartsAt(t, i, EscapedChar(c, attr, single)) && !(c == '\r' && !attr && st.eol)
    ensures EscapedChar(c, attr, single) != "" && !IsEnd(st, t, i)
    ensures Piece(st, t, i) == Reference([c], i + |EscapedChar(c, attr, single)|)
  {
    var e := EscapedChar(c, attr, single);
    StartsAtByChar(t, i, e);
    assert t[i] == e[0];
    if e != [c] {
      ReferenceReadsBack(t, i, c, attr, single);
    }
  }

  // ---- whole strings

  /** What line-end handling leaves of a text. */
  function EolNormal(s: string): string {
    if s == "" then ""
    else if s[0] == '\r' then "\n" + EolNormal(if |s| > 1 && s[1] == '\n' then s[2..] else s[1..])
    else [s[0]] + EolNormal(s[1..])
  }

  /** The first character of what is written for a text. */
  lemma EscapedHead(s: string, attr: bool, single: bool)
    requires s != ""
    ensures var e := Escaped(s, attr, single, false);
            e != "" && (e[0] == '\n' <==> s[0] == '\n' && !attr)
  {
  }

  /** A written text whose first character survives: conversion yields that character and goes on with the rest. */
  lemma FirstReadsBack(st: Style, t: string, i: nat, s: string, attr: bool, single: bool)
    requires ValidStyle(st) && st.escape && s != "" && s[0] != NUL && !(s[0] == '\r' && !attr && st.eol)
    requires if attr then st.stop == if single then '\'' else '"' else st.stop == '<'
    requires StartsAt(t, i, Escaped(s, attr, single, false) + [st.stop])
    ensures var e := EscapedChar(s[0], attr, single);
            && i + |e| <= |t| && Escaped(s, attr, single, false) == e + Escaped(s[1..], attr, single, false)
            && StartsAt(t, i + |e|, Escaped(s[1..], attr, single, false) + [st.stop])
            && Converted(st, t, i) == Text([s[0]] + Converted(st, t, i + |e|).text, Converted(st, t, i + |e|).end)
  {
    hide EscapedChar;
    var e, rest := EscapedChar(s[0], attr, single), Escaped(s[1..], attr, single, false);
    Assoc(e, rest, [st.stop]);
    SplitStart(t, i, e, rest + [st.stop]);
    CharReadsBack(st, t, i, s[0], attr, single);
    hide Piece, IsEnd;
  }

  lemma NothingLeft(st: Style, t: string, i: nat)
    requires StartsAt(t, i, "" + [st.stop])
    ensures Converted(st, t, i) == Text("", i)
  {
    StartsAtByChar(t, i, "" + [st.stop]);
    assert ("" + [st.stop])[0] == st.stop;
  }

  /**
   An attribute value that is written escaped and then parsed in place comes back unchanged, whatever line-end
   and white-space conversion the parser applies.
   */
  lemma {:induction false} AttributeRoundTrip(st: Style, t: string, i: nat, s: string, single: bool)
    requires ValidStyle(st) && st.escape && st.stop == (if single then '\'' else '"') && NUL !in s
    requires StartsAt(t, i, Escaped(s, true, single, false) + [st.stop])
    ensures Converted(st, t, i) == Text(s, i + |Escaped(s, true, single, false)|)
    decreases |s|
  {
    hide Converted, Escaped, StartsAt, EscapedChar, ValidStyle;
    EscapedEmpty(true, single, false);
    if s == "" {
      NothingLeft(st, t, i);
    } else {
      FirstReadsBack(st, t, i, s, true, single);
      AttributeRoundTrip(st, t, i + |EscapedChar(s[0], true, single)|, s[1..], single);
      assert s == [s[0]] + s[1..];
    }
  }

  lemma EolEmpty()
    ensures EolNormal("") == ""
  {
  }

  lemma EolStep(s: string)
    requires s != "" && s[0] != '\r'
    ensures EolNormal(s) == [s[0]] + EolNormal(s[1..])
  {
  }

  /** Character data comes back up to line-end handling. */
  lemma {:induction false} PcdataRoundTrip(st: Style, t: string, i: nat, s: string)
    requires ValidStyle(st) && st.escape && st.stop == '<' && NUL !in s
    requires StartsAt(t, i, Escaped(s, false, false, false) + ['<'])
    ensures Converted(st, t, i) == Text(if st.eol then EolNormal(s) else s, i + |Escaped(s, false, false, false)|)
    decreases |s|
  {
    hide Converted, Escaped, StartsAt, EscapedChar, ValidStyle, EolNormal;
    EscapedEmpty(false, false, false);
    if s == "" {
      NothingLeft(st, t, i);
      EolEmpty();
    } else if s[0] == '\r' && st.eol {
      CarriageReturn(st, t, i, s);
    } else {
      FirstReadsBack(st, t, i, s, false, false);
      if st.eol { EolStep(s); }
      PcdataRoundTrip(st, t, i + |EscapedChar(s[0], false, false)|, s[1..]);
      assert s == [s[0]] + s[1..];
    }
  }

  lemma {:induction false} CarriageReturn(st: Style, t: string, i: nat, s: string)
    requires ValidStyle(st) && st.escape && st.stop == '<' && NUL !in s
    requires StartsAt(t, i, Escaped(s, false, false, false) + ['<'])
    requires s != "" && s[0] == '\r' && st.eol
    ensures Converted(st, t, i) == Text(EolNormal(s), i + |Escaped(s, false, false, false)|)
    decreases |s|, 0
  {
    var rest := Escaped(s[1..], false, false, false);
    ReturnWritten(t, i, s);
    LineEndConverts(st, t, i);
    hide Converted, StartsAt, ValidStyle;
    if t[i + 1] == '\n' {
      LineFeedWritten(t, i + 1, s[1..]);
      assert s[1..][1..] == s[2..];
      PcdataRoundTrip(st, t, i + 2, s[2..]);
    } else {
      PcdataRoundTrip(st, t, i + 1, s[1..]);
    }
  }

  /** A carriage return is written as it is; what follows it in the output tells whether a line feed follows in the text. */
  lemma ReturnWritten(t: string, i: nat, s: string)
    requires s != "" && s[0] == '\r' && StartsAt(t, i, Escaped(s, false, false, false) + ['<'])
    ensures Escaped(s, false, false, false) == "\r" + Escaped(s[1..], false, false, false)
    ensures StartsAt(t, i + 1, Escaped(s[1..], false, false, false) + ['<'])
    ensures i + 1 < |t| && t[i] == '\r' && (t[i + 1] == '\n' <==> |s| > 1 && s[1] == '\n')
  {
    var rest := Escaped(s[1..], false, false, false);
    Assoc("\r", rest, ['<']);
    SplitStart(t, i, "\r", rest + ['<']);
    FirstChar(t, i, "\r");
    FirstChar(t, i + 1, rest + ['<']);
    hide StartsAt;
    if |s| > 1 { EscapedHead(s[1..], false, false); }
  }

  lemma LineFeedWritten(t: string, i: nat, s: string)
    requires s != "" && s[0] == '\n' && StartsAt(t, i, Escaped(s, false, false, false) + ['<'])
    ensures Escaped(s, false, false, false) == "\n" + Escaped(s[1..], false, false, false)
    ensures StartsAt(t, i + 1, Escaped(s[1..], false, false, false) + ['<'])
  {
    var rest := Escaped(s[1..], false, false, false);
    Assoc("\n", rest, ['<']);
    SplitStart(t, i, "\n", rest + ['<']);
  }

  /** One line end of character data, of one or two characters. */
  lemma LineEndConverts(st: Style, t: string, i: nat)
    requires ValidStyle(st) && st.stop == '<' && st.eol && i + 1 < |t| && t[i] == '\r'
    ensures var next := if t[i + 1] == '\n' then i + 2 else i + 1;
            Converted(st, t, i) == Text("\n" + Converted(st, t, next).text, Converted(st, t, next).end)
  {
    assert Piece(st, t, i) == Reference("\n", if t[i + 1] == '\n' then i + 2 else i + 1);
  }

  // ---- exact conditions

  lemma {:induction false} EolNormalFacts(s: string)
    ensures |EolNormal(s)| <= |s|
    ensures EolNormal(s) == s <==> '\r' !in s
    decreases |s|
  {
    if s != "" {
      EolNormalFacts(if s[0] == '\r' && |s| > 1 && s[1] == '\n' then s[2..] else s[1..]);
      assert s == [s[0]] + s[1..];
    }
  }

  lemma {:induction false} TrimRightFacts(s: string)
    ensures |TrimRight(s)| <= |s|
    ensures |TrimRight(s)| == |s| <==> s == "" || !IsSpace(s[|s| - 1])
    ensures |TrimRight(s)| == |s| ==> TrimRight(s) == s
    decreases |s|
  {
    if s != "" && IsSpace(s[|s| - 1]) { TrimRightFacts(s[..|s| - 1]); }
  }

  /**
   Character data comes back unchanged if and only if it holds no carriage return while line ends are
   normalised, and no white space at its end while that is trimmed.
   */
  lemma {:induction false} PcdataExact(t: string, i: nat, s: string, eol: bool, trim: bool)
    requires NUL !in s && StartsAt(t, i, Escaped(s, false, false, false) + ['<'])
    ensures var text := Converted(Style('<', eol, false, true), t, i).text;
            (if trim then TrimRight(text) else text) == s <==>
              (eol ==> '\r' !in s) && (trim ==> s == "" || !IsSpace(s[|s| - 1]))
  {
    PcdataRoundTrip(Style('<', eol, false, true), t, i, s);
    EolNormalFacts(s);
    TrimRightFacts(s);
    TrimRightFacts(EolNormal(s));
    hide Converted, StartsAt, Escaped;
  }

  /** A carriage return becomes a line feed where line ends are converted, and a trailing blank goes where text is trimmed. */
  lemma PcdataLoses()
    ensures var t := Escaped("\r", false, false, false) + "<"; Converted(Style('<', true, false, true), t, 0).text == "\n"
    ensures var t := Escaped("a ", false, false, false) + "<"; TrimRight(Converted(Style('<', false, false, true), t, 0).text) == "a"
  {
    hide Converted;
    PcdataRoundTrip(Style('<', true, false, true), Escaped("\r", false, false, false) + "<", 0, "\r");
    assert EolNormal("\r") == "\n" by { EolEmpty(); assert "\r"[1..] == ""; }
    PcdataRoundTrip(Style('<', false, false, true), Escaped("a ", false, false, false) + "<", 0, "a ");
    assert "a "[..1] == "a";
  }

  // ---- leaving control characters out

  function Visible(s: string, attr: bool): string {
    if s == "" then "" else (if IsControl(s[0], attr) then "" else [s[0]]) + Visible(s[1..], attr)
  }

  /** With control characters skipped, what is written is what would be written for the text without them. */
  lemma {:induction false} SkippingWritesVisible(s: string, attr: bool, single: bool)
    ensures Escaped(s, attr, single, true) == Escaped(Visible(s, attr), attr, single, false)
    ensures Visible(s, attr) == s <==> forall k :: 0 <= k < |s| ==> !IsControl(s[k], attr)
    ensures |Visible(s, attr)| <= |s| && forall c :: c in Visible(s, attr) ==> c in s
  {
    if s != "" {
      SkippingWritesVisible(s[1..], attr, single);
      var rest := Visible(s[1..], attr);
      assert s == [s[0]] + s[1..];
      hide EscapedChar, NeedsEscape;
      if IsControl(s[0], attr) {
        assert Visible(s, attr) == rest && Escaped(s, attr, single, true) == Escaped(s[1..], attr, single, true);
      } else {
        var v := [s[0]] + rest;
        assert v[0] == s[0] && v[1..] == rest;
        assert Escaped(v, attr, single, false) == EscapedChar(s[0], attr, single) + Escaped(rest, attr, single, false);
      }
    }
  }
}
