/**
 In-place text conversion: references, line ends and white space, with a moving gap.

 The buffer holds a zero-terminated string, one char per byte. `Converted` is the left-to-right meaning of a
 conversion; the in-place methods are proved to leave exactly that text in the buffer.
 */
module TextConvert {
  import opened Strings

  /** Which characters end the text and which conversions are on (the template options of the converters). */
  datatype Style = Style(stop: char, eol: bool, ws: bool, escape: bool)

  /** '<' for character data, a quote for attributes; only attributes convert white space. */
  predicate ValidStyle(st: Style) {
    (st.stop == '<' && !st.ws) || ((st.stop == '"' || st.stop == '\'') && !(st.eol && st.ws))
  }

  predicate IsSpace(c: char) {
    c == ' ' || c == '\t' || c == '\r' || c == '\n'
  }

  /** The characters a scan stops at: ct_parse_pcdata, ct_parse_attr and ct_parse_attr_ws. */
  predicate IsSpecial(st: Style, c: char) {
    || c == NUL || c == '&' || c == '\r'
    || (if st.stop == '<' then c == '<' else c == '"' || c == '\'')
    || (st.ws && (c == '\t' || c == '\n'))
  }

  // ---- references

  datatype Reference = NoReference | Reference(text: string, next: nat)

  predicate IsDigit(c: char) {
    '0' <= c <= '9'
  }

  predicate IsHexDigit(c: char) {
    IsDigit(c) || 'a' <= c <= 'f' || 'A' <= c <= 'F'
  }

  function DigitValue(c: char): (r: nat)
    requires IsHexDigit(c)
    ensures r < 16
  {
    if IsDigit(c) then c as int - '0' as int
    else if 'a' <= c <= 'f' then c as int - 'a' as int + 10
    else c as int - 'A' as int + 10
  }

  predicate IsBaseDigit(c: char, hex: bool) {
    if hex then IsHexDigit(c) else IsDigit(c)
  }

  const WORD: nat := 0x1_0000_0000

  /** Digits up to a semicolon, as a 32-bit number that wraps around. */
  function Number(t: string, i: nat, hex: bool, acc: nat): (r: Reference)
    ensures r.Reference? ==> i < r.next <= |t| && 1 <= |r.text| <= 4
    ensures r.Reference? && t[i] != ';' ==> i + 2 <= r.next
    decreases |t| - i
  {
    if i >= |t| then NoReference
    else if IsBaseDigit(t[i], hex) then Number(t, i + 1, hex, ((if hex then 16 else 10) * acc + DigitValue(t[i])) % WORD)
    else if t[i] == ';' then Reference(Utf8(acc), i + 1)
    else NoReference
  }

  function Byte(b: nat): char
    requires b < 256
  {
    b as char
  }

  /** utf8_writer::any; a value past U+10FFFF keeps the low bits of its lead byte. */
  function Utf8(ch: nat): (r: string)
    ensures 1 <= |r| <= 4
  {
    if ch < 0x80 then [Byte(ch)]
    else if ch < 0x800 then [Byte(0xC0 + ch / 64), Byte(0x80 + ch % 64)]
    else if ch < 0x1_0000 then [Byte(0xE0 + ch / 4096), Byte(0x80 + ch / 64 % 64), Byte(0x80 + ch % 64)]
    else [Byte(0xF0 + ch / 0x4_0000 % 16), Byte(0x80 + ch / 4096 % 64), Byte(0x80 + ch / 64 % 64), Byte(0x80 + ch % 64)]
  }

  /** The reference that starts with the ampersand at i, if there is one. */
  function ReferenceAt(t: string, i: nat): Reference {
    if StartsAt(t, i, "&amp;") then Reference("&", i + 5)
    else if StartsAt(t, i, "&lt;") then Reference("<", i + 4)
    else if StartsAt(t, i, "&gt;") then Reference(">", i + 4)
    else if StartsAt(t, i, "&quot;") then Reference("\"", i + 6)
    else if StartsAt(t, i, "&apos;") then Reference("'", i + 6)
    else if StartsAt(t, i, "&#x") then
      if StartsAt(t, i, "&#x;") then NoReference else Number(t, i + 3, true, 0)
    else if StartsAt(t, i, "&#") then
      if StartsAt(t, i, "&#;") then NoReference else Number(t, i + 2, false, 0)
    else NoReference
  }

  /** A reference is at least as long as what it stands for, so expanding in place never overwrites unread text. */
  lemma ReferenceShrinks(t: string, i: nat)
    ensures var r := ReferenceAt(t, i);
            r.Reference? ==> i + 4 <= r.next <= |t| && 1 <= |r.text| <= r.next - i
  {
  }

  // ---- the meaning of a conversion

  /** The converted text and where it ends: at the stop character, or at the terminator if there is none. */
  datatype Text = Text(text: string, end: nat)

  /** One conversion step at i: what it yields, and where the next one starts. */
  function Piece(st: Style, t: string, i: nat): (r: Reference)
    requires i < |t|
    ensures r.Reference? && i < r.next <= |t|
  {
    if t[i] == '\r' && (st.eol || st.ws) then
      Reference(if st.ws then " " else "\n", if i + 1 < |t| && t[i + 1] == '\n' then i + 2 else i + 1)
    else if st.ws && IsSpace(t[i]) then Reference(" ", i + 1)
    else if t[i] == '&' && st.escape && ReferenceAt(t, i).Reference? then
      ReferenceShrinks(t, i);
      ReferenceAt(t, i)
    else Reference([t[i]], i + 1)
  }

  predicate IsEnd(st: Style, t: string, i: nat) {
    i >= |t| || t[i] == st.stop || t[i] == NUL
  }

  /** Left to right: each line end, white-space character or reference is replaced, everything else is kept. */
  function Converted(st: Style, t: string, i: nat): Text
    decreases |t| - i
  {
    if IsEnd(st, t, i) then Text("", i)
    else
      var p := Piece(st, t, i);
      var rest := Converted(st, t, p.next);
      Text(p.text + rest.text, rest.end)
  }

  // ---- the moving gap

  /** t with the characters of [from, to) moved n places down. */
  function Moved(t: string, from: nat, to: nat, n: nat): string
    requires n <= from <= to <= |t|
  {
    t[..from - n] + t[from..to] + t[to - n..]
  }

  lemma MovedParts(t: string, begin: nat, from: nat, to: nat, n: nat)
    requires begin + n <= from <= to <= |t|
    ensures var u := Moved(t, from, to, n);
            |u| == |t| && u[begin..to - n] == t[begin..from - n] + t[from..to] && u[..begin] == t[..begin] && u[to..] == t[to..]
  {
    var u := Moved(t, from, to, n);
    assert forall k :: 0 <= k < |t| ==> u[k] == if from - n <= k < to - n then t[k + n] else t[k];
  }

  /** memmove of [from, to) down by n places. */
  method MoveDown(a: array<char>, from: nat, to: nat, n: nat)
    requires n <= from <= to <= a.Length
    modifies a
    ensures a[..] == Moved(old(a[..]), from, to, n)
  {
    ghost var t := a[..];
    forall k | from <= k < to { a[k - n] := a[k]; }
    MovedIs(t, a[..], from, to, n);
  }

  lemma MovedIs(t: string, u: string, from: nat, to: nat, n: nat)
    requires n <= from <= to <= |t| == |u|
    requires forall k :: from <= k < to ==> u[k - n] == t[k]
    requires u[..from - n] == t[..from - n] && u[to - n..] == t[to - n..]
    ensures u == Moved(t, from, to, n)
  {
    assert u[from - n..to - n] == t[from..to] by {
      forall k | 0 <= k < to - from ensures u[from - n..to - n][k] == t[from..to][k] { assert u[from + k - n] == t[from + k]; }
    }
    assert u == u[..from - n] + u[from - n..to - n] + u[to - n..];
  }

  /** The text of t from begin up to s without a hole of the given size that ends at end (-1 for no hole). */
  function GapText(t: string, begin: nat, end: int, size: nat, s: nat): string
    requires begin <= s <= |t| && if end == -1 then size == 0 else begin + size <= end <= s
  {
    if end == -1 then t[begin..s] else t[begin..end - size] + t[end..s]
  }

  /** Closing a hole keeps the text, which is then in one piece; count characters more may be dropped behind it. */
  lemma GapClosed(t: string, begin: nat, end: int, size: nat, s: nat, count: nat)
    requires begin <= s && s + count <= |t| && if end == -1 then size == 0 else begin + size <= end <= s
    ensures var u := if end == -1 then t else Moved(t, end, s, size);
            && |u| == |t| && u[..begin] == t[..begin] && u[s..] == t[s..]
            && u[begin..s - size] == GapText(t, begin, end, size, s)
            && GapText(u, begin, s + count, size + count, s + count) == GapText(t, begin, end, size, s)
  {
    if end != -1 { MovedParts(t, begin, end, s, size); }
    var u := if end == -1 then t else Moved(t, end, s, size);
    hide Moved;
    assert u[s + count..s + count] == [];
  }

  /**
   The hole left behind by replacements: `size` characters ending at `end` (-1 when there is none).
   Text before it is converted already; text from `end` on still has to move down.
   */
  class Gap {
    var end: int
    var size: nat

    constructor ()
      ensures end == -1 && size == 0
    {
      end, size := -1, 0;
    }

    ghost predicate Valid(begin: nat, s: nat)
      reads this
    {
      if end == -1 then size == 0 else begin + size <= end <= s
    }

    /** The text of t from begin up to s without the hole. */
    ghost function Text(t: string, begin: nat, s: nat): string
      reads this
      requires Valid(begin, s) && begin <= s <= |t|
    {
      GapText(t, begin, end, size, s)
    }

    /** gap::push: drops count characters at s, closing an earlier hole first. */
    method Push(a: array<char>, ghost begin: nat, s: nat, count: nat) returns (next: nat)
      requires Valid(begin, s) && begin <= s && s + count <= a.Length
      modifies this, a
      ensures next == s + count && Valid(begin, next)
      ensures Text(a[..], begin, next) == old(Text(a[..], begin, s))
      ensures a[..][..begin] == old(a[..])[..begin] && a[..][s..] == old(a[..])[s..]
    {
      hide Moved, GapText;
      ghost var t := a[..];
      GapClosed(t, begin, end, size, s, count);
      if end != -1 { MoveDown(a, end, s, size); }
      next := s + count;
      end := next;
      size := size + count;
    }

    /** gap::flush: closes the hole; the text is then in one piece. */
    method Flush(a: array<char>, ghost begin: nat, s: nat) returns (past: nat)
      requires Valid(begin, s) && begin <= s <= a.Length
      modifies a
      ensures begin <= past <= s && a[..][begin..past] == old(Text(a[..], begin, s))
      ensures a[..][..begin] == old(a[..])[..begin] && a[..][s..] == old(a[..])[s..]
    {
      hide Moved, GapText;
      GapClosed(a[..], begin, end, size, s, 0);
      if end != -1 { MoveDown(a, end, s, size); }
      past := s - size;
    }
  }

  // ---- references in place

  predicate At(t: string, k: nat, c: char) {
    k < |t| && t[k] == c
  }

  lemma StartsAtByChar(t: string, i: nat, word: string)
    ensures StartsAt(t, i, word) <==> i + |word| <= |t| && forall k :: 0 <= k < |word| ==> t[i + k] == word[k]
  {
    if i + |word| <= |t| {
      var u := t[i..i + |word|];
      assert forall k :: 0 <= k < |word| ==> u[k] == t[i + k];
    }
  }

  lemma Word2(t: string, i: nat, c0: char, c1: char)
    ensures StartsAt(t, i, [c0, c1]) <==> At(t, i, c0) && At(t, i + 1, c1)
  {
    var w := [c0, c1];
    StartsAtByChar(t, i, w);
    assert w[0] == c0 && w[1] == c1;
  }

  lemma Word3(t: string, i: nat, c0: char, c1: char, c2: char)
    ensures StartsAt(t, i, [c0, c1, c2]) <==> At(t, i, c0) && At(t, i + 1, c1) && At(t, i + 2, c2)
  {
    var w := [c0, c1, c2];
    StartsAtByChar(t, i, w);
    assert w[0] == c0 && w[1] == c1 && w[2] == c2;
  }

  lemma Word4(t: string, i: nat, c0: char, c1: char, c2: char, c3: char)
    ensures StartsAt(t, i, [c0, c1, c2, c3]) <==> At(t, i, c0) && At(t, i + 1, c1) && At(t, i + 2, c2) && At(t, i + 3, c3)
  {
    var w := [c0, c1, c2, c3];
    StartsAtByChar(t, i, w);
    assert w[0] == c0 && w[1] == c1 && w[2] == c2 && w[3] == c3;
  }

  lemma Word5(t: string, i: nat, c0: char, c1: char, c2: char, c3: char, c4: char)
    ensures StartsAt(t, i, [c0, c1, c2, c3, c4]) <==> At(t, i, c0) && At(t, i + 1, c1) && At(t, i + 2, c2) && At(t, i + 3, c3) && At(t, i + 4, c4)
  {
    var w := [c0, c1, c2, c3, c4];
    StartsAtByChar(t, i, w);
    assert w[0] == c0 && w[1] == c1 && w[2] == c2 && w[3] == c3 && w[4] == c4;
  }

  lemma Word6(t: string, i: nat, c0: char, c1: char, c2: char, c3: char, c4: char, c5: char)
    ensures StartsAt(t, i, [c0, c1, c2, c3, c4, c5]) <==> At(t, i, c0) && At(t, i + 1, c1) && At(t, i + 2, c2) && At(t, i + 3, c3) && At(t, i + 4, c4) && At(t, i + 5, c5)
  {
    var w := [c0, c1, c2, c3, c4, c5];
    StartsAtByChar(t, i, w);
    assert w[0] == c0 && w[1] == c1 && w[2] == c2 && w[3] == c3 && w[4] == c4 && w[5] == c5;
  }

  /** ReferenceAt character by character. */
  lemma ReferenceChars(t: string, i: nat)
    ensures StartsAt(t, i, "&amp;") <==> At(t, i, '&') && At(t, i + 1, 'a') && At(t, i + 2, 'm') && At(t, i + 3, 'p') && At(t, i + 4, ';')
    ensures StartsAt(t, i, "&lt;") <==> At(t, i, '&') && At(t, i + 1, 'l') && At(t, i + 2, 't') && At(t, i + 3, ';')
    ensures StartsAt(t, i, "&gt;") <==> At(t, i, '&') && At(t, i + 1, 'g') && At(t, i + 2, 't') && At(t, i + 3, ';')
    ensures StartsAt(t, i, "&quot;") <==> At(t, i, '&') && At(t, i + 1, 'q') && At(t, i + 2, 'u') && At(t, i + 3, 'o') && At(t, i + 4, 't') && At(t, i + 5, ';')
    ensures StartsAt(t, i, "&apos;") <==> At(t, i, '&') && At(t, i + 1, 'a') && At(t, i + 2, 'p') && At(t, i + 3, 'o') && At(t, i + 4, 's') && At(t, i + 5, ';')
    ensures StartsAt(t, i, "&#x") <==> At(t, i, '&') && At(t, i + 1, '#') && At(t, i + 2, 'x')
    ensures StartsAt(t, i, "&#x;") <==> At(t, i, '&') && At(t, i + 1, '#') && At(t, i + 2, 'x') && At(t, i + 3, ';')
    ensures StartsAt(t, i, "&#") <==> At(t, i, '&') && At(t, i + 1, '#')
    ensures StartsAt(t, i, "&#;") <==> At(t, i, '&') && At(t, i + 1, '#') && At(t, i + 2, ';')
  {
    hide StartsAt;
    Word5(t, i, '&', 'a', 'm', 'p', ';');
    Word4(t, i, '&', 'l', 't', ';');
    Word4(t, i, '&', 'g', 't', ';');
    Word6(t, i, '&', 'q', 'u', 'o', 't', ';');
    Word6(t, i, '&', 'a', 'p', 'o', 's', ';');
    Word3(t, i, '&', '#', 'x');
    Word4(t, i, '&', '#', 'x', ';');
    Word2(t, i, '&', '#');
    Word3(t, i, '&', '#', ';');
  }

  /** The text from position s on has not been touched. */
  ghost predicate Unread(a: array<char>, t: string, s: nat)
    reads a
  {
    s <= a.Length == |t| && a[..][s..] == t[s..]
  }

  lemma UnreadAt(a: array<char>, t: string, s: nat, k: nat)
    requires Unread(a, t, s) && s <= k < |t|
    ensures a.Length == |t| && a[k] == t[k]
  {
    assert a[..][s..][k - s] == t[s..][k - s];
  }

  /** Characters that no conversion treats specially. */
  predicate IsPlain(c: char) {
    c == '#' || 'a' <= c <= 'z' || IsHexDigit(c)
  }

  predicate PlainRun(t: string, from: nat, to: nat) {
    from <= to <= |t| && forall k :: from <= k < to ==> IsPlain(t[k])
  }

  /** The digit loops of strconv_escape: up to the first character that is no digit. */
  method ReadDigits(a: array<char>, ghost t: string, from: nat, hex: bool, ghost z: nat) returns (ok: bool, at: nat, ucsc: nat)
    requires Unread(a, t, from) && from <= z < |t| && t[z] == NUL
    ensures PlainRun(t, from, at) && at <= z
    ensures if ok then Number(t, from, hex, 0) == Reference(Utf8(ucsc), at + 1) && at < z && (At(t, from, ';') <==> at == from)
            else Number(t, from, hex, 0) == NoReference
  {
    at, ucsc := from, 0;
    UnreadAt(a, t, from, at);
    while IsBaseDigit(a[at], hex)
      invariant from <= at <= z && PlainRun(t, from, at) && a[at] == t[at]
      invariant Number(t, from, hex, 0) == Number(t, at, hex, ucsc)
      decreases z - at
    {
      ucsc := ((if hex then 16 else 10) * ucsc + DigitValue(a[at])) % WORD;
      at := at + 1;
      UnreadAt(a, t, from, at);
    }
    ok := a[at] == ';';
  }

  /** t with text written over it at s. */
  function Overwritten(t: string, s: nat, text: string): string
    requires s + |text| <= |t|
  {
    t[..s] + text + t[s + |text|..]
  }

  lemma OverwrittenParts(t: string, begin: nat, end: int, size: nat, s: nat, text: string)
    requires begin <= s && s + |text| <= |t|
    requires if end == -1 then size == 0 else begin + size <= end <= s
    ensures var u := Overwritten(t, s, text); var n := s + |text|;
            && |u| == |t| && u[..begin] == t[..begin] && u[n..] == t[n..]
            && GapText(u, begin, end, size, n) == GapText(t, begin, end, size, s) + text
  {
    var u := Overwritten(t, s, text);
    var n := s + |text|;
    assert u[..s] == t[..s] && u[s..n] == text && u[..begin] == t[..begin] && u[n..] == t[n..];
    GapTextPrefix(t, u, begin, end, size, s);
    GapTextGrows(u, begin, end, size, s, n);
    hide Overwritten, GapText;
  }

  /** The text up to s depends on nothing behind s. */
  lemma GapTextPrefix(t: string, u: string, begin: nat, end: int, size: nat, s: nat)
    requires begin <= s <= |t| && s <= |u| && t[..s] == u[..s]
    requires if end == -1 then size == 0 else begin + size <= end <= s
    ensures GapText(t, begin, end, size, s) == GapText(u, begin, end, size, s)
  {
    if end == -1 {
      WithinPrefix(t, begin, s, s);
      WithinPrefix(u, begin, s, s);
    } else {
      WithinPrefix(t, begin, end - size, s);
      WithinPrefix(u, begin, end - size, s);
      WithinPrefix(t, end, s, s);
      WithinPrefix(u, end, s, s);
    }
  }

  lemma WithinPrefix(t: string, i: nat, j: nat, s: nat)
    requires i <= j <= s <= |t|
    ensures t[i..j] == t[..s][i..j]
  {
  }

  lemma SameTail(t: string, u: string, n: nat, m: nat)
    requires n <= m <= |t| == |u| && t[n..] == u[n..]
    ensures t[m..] == u[m..]
  {
    assert t[m..] == t[n..][m - n..] && u[m..] == u[n..][m - n..];
  }

  method Write(a: array<char>, s: nat, text: string)
    requires s + |text| <= a.Length
    modifies a
    ensures a[..] == Overwritten(old(a[..]), s, text)
  {
    forall k | 0 <= k < |text| { a[s + k] := text[k]; }
  }

  /** Writing text at s extends the converted text by it. */
  method WriteOver(a: array<char>, g: Gap, ghost begin: nat, s: nat, text: string)
    requires g.Valid(begin, s) && begin <= s && s + |text| <= a.Length
    modifies a
    ensures g.Valid(begin, s + |text|)
    ensures g.Text(a[..], begin, s + |text|) == old(g.Text(a[..], begin, s)) + text
    ensures a[..][..begin] == old(a[..])[..begin] && a[..][s + |text|..] == old(a[..])[s + |text|..]
  {
    hide Overwritten, GapText;
    OverwrittenParts(a[..], begin, g.end, g.size, s, text);
    Write(a, s, text);
  }

  /** Overwrites s by what it stands for and drops what is left of the reference up to `next`. */
  method Replace(a: array<char>, g: Gap, ghost begin: nat, s: nat, next: nat, text: string)
    requires g.Valid(begin, s) && begin <= s && s + |text| <= next <= a.Length
    modifies g, a
    ensures g.Valid(begin, next)
    ensures g.Text(a[..], begin, next) == old(g.Text(a[..], begin, s)) + text
    ensures a[..][..begin] == old(a[..])[..begin] && a[..][next..] == old(a[..])[next..]
  {
    hide GapText;
    ghost var t := a[..];
    WriteOver(a, g, begin, s, text);
    ghost var u := a[..];
    var n := s + |text|;
    var next' := g.Push(a, begin, n, next - n);
    SameTail(a[..], u, n, next);
    SameTail(u, t, n, next);
  }

  /** Plain characters, then a semicolon. */
  predicate IsTail(tail: string) {
    && |tail| > 0 && (forall k :: 0 <= k < |tail| ==> tail[k] == ';' || IsPlain(tail[k]))
    && (forall k :: 0 <= k < |tail| ==> (tail[k] == ';' <==> k == |tail| - 1))
  }

  lemma Tails()
    ensures IsTail("p;") && IsTail("t;") && IsTail("os;") && IsTail("uot;")
  {
  }

  lemma PlainStart(t: string, i: nat)
    requires i < |t| && IsPlain(t[i])
    ensures PlainRun(t, i, i + 1) && (i + 1 < |t| && IsPlain(t[i + 1]) ==> PlainRun(t, i, i + 2))
  {
  }

  lemma NoRun(t: string, i: nat)
    requires i <= |t|
    ensures PlainRun(t, i, i)
  {
  }

  /** Comparing on from stre as `*++stre == c0 && *++stre == c1 ...` does: stre is left at the first mismatch or the last match. */
  method MatchTail(a: array<char>, ghost t: string, s: nat, from: nat, tail: string, ghost z: nat) returns (ok: bool, stre: nat)
    requires Unread(a, t, s) && s <= from < z < |t| && t[z] == NUL && PlainRun(t, s + 1, from + 1)
    requires IsTail(tail)
    ensures ok <==> StartsAt(t, from + 1, tail)
    ensures if ok then stre == from + |tail| < z else from < stre <= z && PlainRun(t, s + 1, stre)
  {
    StartsAtByChar(t, from + 1, tail);
    stre := from;
    var k := 0;
    while k < |tail|
      invariant 0 <= k <= |tail| && stre == from + k < z
      invariant forall m :: 0 <= m < k ==> t[from + 1 + m] == tail[m]
      invariant k < |tail| ==> PlainRun(t, s + 1, stre + 1)
    {
      stre := stre + 1;
      UnreadAt(a, t, s, stre);
      if a[stre] != tail[k] { return false, stre; }
      k := k + 1;
    }
    ok := true;
  }

  /** ReferenceAt for an ampersand that no '#' follows, character by character. */
  lemma NamedReference(t: string, i: nat)
    requires At(t, i, '&') && !At(t, i + 1, '#')
    ensures ReferenceAt(t, i) ==
              if At(t, i + 1, 'a') && At(t, i + 2, 'm') && StartsAt(t, i + 3, "p;") then Reference("&", i + 5)
              else if At(t, i + 1, 'l') && StartsAt(t, i + 2, "t;") then Reference("<", i + 4)
              else if At(t, i + 1, 'g') && StartsAt(t, i + 2, "t;") then Reference(">", i + 4)
              else if At(t, i + 1, 'q') && StartsAt(t, i + 2, "uot;") then Reference("\"", i + 6)
              else if At(t, i + 1, 'a') && At(t, i + 2, 'p') && StartsAt(t, i + 3, "os;") then Reference("'", i + 6)
              else NoReference
  {
    ReferenceChars(t, i);
    hide StartsAt;
    Word2(t, i + 3, 'p', ';');
    Word2(t, i + 2, 't', ';');
    Word4(t, i + 2, 'u', 'o', 't', ';');
    Word3(t, i + 3, 'o', 's', ';');
  }

  /** The named references. */
  method FindNamed(a: array<char>, ghost t: string, s: nat, ghost z: nat) returns (found: bool, text: string, stre: nat)
    requires Unread(a, t, s) && s + 1 <= z < |t| && t[z] == NUL && t[s] == '&' && t[s + 1] != '#'
    ensures if found then ReferenceAt(t, s) == Reference(text, stre) && stre <= z
            else ReferenceAt(t, s) == NoReference && s < stre <= z && PlainRun(t, s + 1, stre)
  {
    NamedReference(t, s);
    Tails();
    hide Unread, ReferenceAt, StartsAt, IsTail, PlainRun;
    found, text, stre := false, "", s + 1;
    UnreadAt(a, t, s, stre);
    NoRun(t, stre);
    if IsPlain(a[stre]) { PlainStart(t, stre); }
    if a[stre] == 'a' {
      found, text, stre := FindAmpApos(a, t, s, z);
    } else if a[stre] == 'g' {
      text := ">";
      found, stre := MatchTail(a, t, s, stre, "t;", z);
    } else if a[stre] == 'l' {
      text := "<";
      found, stre := MatchTail(a, t, s, stre, "t;", z);
    } else if a[stre] == 'q' {
      text := "\"";
      found, stre := MatchTail(a, t, s, stre, "uot;", z);
    }
    if found && a[s + 1] != 'a' { stre := stre + 1; }
  }

  method FindAmpApos(a: array<char>, ghost t: string, s: nat, ghost z: nat) returns (found: bool, text: string, stre: nat)
    requires Unread(a, t, s) && s + 1 <= z < |t| && t[z] == NUL && t[s] == '&' && t[s + 1] == 'a'
    ensures if found then ReferenceAt(t, s) == Reference(text, stre) && stre <= z
            else ReferenceAt(t, s) == NoReference && s < stre <= z && PlainRun(t, s + 1, stre)
  {
    NamedReference(t, s);
    Tails();
    hide Unread, ReferenceAt, StartsAt, IsTail, PlainRun;
    found, text, stre := false, "", s + 2;
    UnreadAt(a, t, s, stre);
    PlainStart(t, s + 1);
    if a[stre] == 'm' {
      text := "&";
      found, stre := MatchTail(a, t, s, stre, "p;", z);
    } else if a[stre] == 'p' {
      text := "'";
      found, stre := MatchTail(a, t, s, stre, "os;", z);
    }
    if found { stre := stre + 1; }
  }

  /** The numeric references; `&#;` and `&#x;` are none. */
  method FindNumeric(a: array<char>, ghost t: string, s: nat, ghost z: nat) returns (found: bool, text: string, stre: nat)
    requires Unread(a, t, s) && s + 1 < z < |t| && t[z] == NUL && t[s] == '&' && t[s + 1] == '#'
    ensures if found then ReferenceAt(t, s) == Reference(text, stre) && stre <= z
            else ReferenceAt(t, s) == NoReference && s < stre <= z && PlainRun(t, s + 1, stre)
  {
    ReferenceChars(t, s);
    UnreadAt(a, t, s, s + 2);
    var hex := a[s + 2] == 'x';
    var from := if hex then s + 3 else s + 2;
    UnreadAt(a, t, s, from);
    if a[from] == ';' { return false, "", from; }
    assert ReferenceAt(t, s) == Number(t, from, hex, 0);
    hide ReferenceAt, StartsAt, Number;
    assert Unread(a, t, from) by { assert a[..][from..] == a[..][s..][from - s..]; assert t[from..] == t[s..][from - s..]; }
    var ucsc;
    found, stre, ucsc := ReadDigits(a, t, from, hex, z);
    text := "";
    if found { text, stre := Utf8(ucsc), stre + 1; }
  }

  /**
   strconv_escape: a reference at s is replaced by what it stands for. Anything else stays as it is,
   and the scan goes on behind characters that need no conversion.
   */
  method Escape(a: array<char>, g: Gap, ghost begin: nat, s: nat, ghost t: string, ghost z: nat) returns (stre: nat)
    requires Unread(a, t, s) && begin <= s < z < |t| && t[z] == NUL && t[s] == '&' && g.Valid(begin, s)
    modifies g, a
    ensures s < stre <= z && g.Valid(begin, stre) && Unread(a, t, stre)
    ensures a[..][..begin] == old(a[..])[..begin]
    ensures var r := ReferenceAt(t, s);
            if r.Reference? then stre == r.next && g.Text(a[..], begin, stre) == old(g.Text(a[..], begin, s)) + r.text
            else PlainRun(t, s + 1, stre) && g.Text(a[..], begin, stre) == old(g.Text(a[..], begin, s)) + t[s..stre]
  {
    ReferenceShrinks(t, s);
    hide ReferenceAt;
    UnreadAt(a, t, s, s + 1);
    ghost var u := a[..];
    assert u[s..] == t[s..];
    var found, text;
    if a[s + 1] == '#' { found, text, stre := FindNumeric(a, t, s, z); }
    else { found, text, stre := FindNamed(a, t, s, z); }
    assert u[stre..] == u[s..][stre - s..] == t[s..][stre - s..] == t[stre..];
    if found {
      Replace(a, g, begin, s, stre, text);
    } else {
      assert u[s..stre] == u[s..][..stre - s] == t[s..][..stre - s] == t[s..stre];
      GapTextGrows(u, begin, g.end, g.size, s, stre);
    }
  }

  lemma GapTextGrows(t: string, begin: nat, end: int, size: nat, s: nat, s': nat)
    requires begin <= s <= s' <= |t| && if end == -1 then size == 0 else begin + size <= end <= s
    ensures GapText(t, begin, end, size, s') == GapText(t, begin, end, size, s) + t[s..s']
  {
    if end == -1 { assert t[begin..s'] == t[begin..s] + t[s..s']; } else { assert t[end..s'] == t[end..s] + t[s..s']; }
  }

  // ---- the converters

  /** What has been converted, followed by the conversion of what is unread, is the conversion of the whole. */
  ghost predicate Progress(st: Style, t: string, begin: nat, done: string, s: nat) {
    && done + Converted(st, t, s).text == Converted(st, t, begin).text
    && Converted(st, t, s).end == Converted(st, t, begin).end
  }

  /** Text that holds no special character converts to itself. */
  lemma {:induction false} KeptRun(st: Style, t: string, i: nat, j: nat)
    requires ValidStyle(st) && i <= j <= |t| && forall k :: i <= k < j ==> !IsSpecial(st, t[k])
    ensures Converted(st, t, i) == Text(t[i..j] + Converted(st, t, j).text, Converted(st, t, j).end)
    decreases j - i
  {
    if i < j {
      KeptRun(st, t, i + 1, j);
      assert Piece(st, t, i) == Reference([t[i]], i + 1);
      hide Piece;
      assert t[i..j] == [t[i]] + t[i + 1..j];
      Assoc([t[i]], t[i + 1..j], Converted(st, t, j).text);
    } else {
      assert t[i..j] == [];
    }
  }

  lemma ProgressOverRun(st: Style, t: string, begin: nat, done: string, s: nat, s': nat)
    requires ValidStyle(st) && s <= s' <= |t| && Progress(st, t, begin, done, s)
    requires forall k :: s <= k < s' ==> !IsSpecial(st, t[k])
    ensures Progress(st, t, begin, done + t[s..s'], s')
  {
    KeptRun(st, t, s, s');
    assert done + (t[s..s'] + Converted(st, t, s').text) == (done + t[s..s']) + Converted(st, t, s').text;
  }

  lemma ProgressOverPiece(st: Style, t: string, begin: nat, done: string, s: nat)
    requires Progress(st, t, begin, done, s) && !IsEnd(st, t, s)
    ensures Progress(st, t, begin, done + Piece(st, t, s).text, Piece(st, t, s).next)
  {
    var p := Piece(st, t, s);
    assert done + (p.text + Converted(st, t, p.next).text) == (done + p.text) + Converted(st, t, p.next).text;
  }

  lemma PlainNotSpecial(st: Style, t: string, i: nat, j: nat)
    requires ValidStyle(st) && PlainRun(t, i, j)
    ensures forall k :: i <= k < j ==> !IsSpecial(st, t[k])
  {
  }

  lemma AmpersandKept(st: Style, t: string, s: nat)
    requires ValidStyle(st) && s < |t| && t[s] == '&' && ReferenceAt(t, s) == NoReference
    ensures !IsEnd(st, t, s) && Piece(st, t, s) == Reference([t[s]], s + 1)
  {
    hide ReferenceAt;
  }

  /** An ampersand that starts no reference, and the plain characters strconv_escape has looked at. */
  lemma ProgressOverAmpersand(st: Style, t: string, begin: nat, done: string, s: nat, s': nat)
    requires ValidStyle(st) && Progress(st, t, begin, done, s) && s < s' && PlainRun(t, s + 1, s')
    requires t[s] == '&' && ReferenceAt(t, s) == NoReference
    ensures Progress(st, t, begin, done + t[s..s'], s')
  {
    PlainNotSpecial(st, t, s + 1, s');
    AmpersandKept(st, t, s);
    hide Progress, Piece, IsSpecial, PlainRun, IsEnd, ReferenceAt, ValidStyle;
    ProgressOverPiece(st, t, begin, done, s);
    ProgressOverRun(st, t, begin, done + [t[s]], s + 1, s');
    assert t[s..s'] == [t[s]] + t[s + 1..s'];
    Assoc(done, [t[s]], t[s + 1..s']);
  }

  lemma UnreadLater(a: array<char>, t: string, s: nat, s': nat)
    requires Unread(a, t, s) && s <= s' <= |t|
    ensures Unread(a, t, s')
  {
    assert a[..][s'..] == a[..][s..][s' - s..];
    assert t[s'..] == t[s..][s' - s..];
  }

  /** `*s++ = c`, then dropping a line feed that follows a carriage return. */
  method PutLineEnd(a: array<char>, g: Gap, ghost begin: nat, s: nat, c: char, ghost t: string) returns (next: nat)
    requires Unread(a, t, s) && begin <= s && s + 1 < |t| && g.Valid(begin, s) && t[s] == '\r'
    modifies g, a
    ensures next == if t[s + 1] == '\n' then s + 2 else s + 1
    ensures g.Valid(begin, next) && Unread(a, t, next) && a[..][..begin] == old(a[..])[..begin]
    ensures g.Text(a[..], begin, next) == old(g.Text(a[..], begin, s)) + [c]
  {
    UnreadAt(a, t, s, s + 1);
    UnreadLater(a, t, s, s + 1);
    WriteOver(a, g, begin, s, [c]);
    next := s + 1;
    UnreadAt(a, t, next, next);
    if a[next] == '\n' {
      next := g.Push(a, begin, next, 1);
      UnreadLater(a, t, s + 1, next);
    }
  }

  method PutSpace(a: array<char>, g: Gap, ghost begin: nat, s: nat, ghost t: string) returns (next: nat)
    requires Unread(a, t, s) && begin <= s < |t| && g.Valid(begin, s)
    modifies a
    ensures next == s + 1 && Unread(a, t, next) && a[..][..begin] == old(a[..])[..begin]
    ensures g.Valid(begin, next) && g.Text(a[..], begin, next) == old(g.Text(a[..], begin, s)) + [' ']
  {
    UnreadLater(a, t, s, s + 1);
    WriteOver(a, g, begin, s, [' ']);
    next := s + 1;
  }

  /** The loop of all converters: up to the stop character or the terminator at z at the latest. */
  method ConvertUntilEnd(a: array<char>, g: Gap, begin: nat, st: Style, ghost z: nat) returns (s: nat)
    requires ValidStyle(st) && begin <= z < a.Length && a[z] == NUL && g.end == -1 && g.size == 0
    modifies g, a
    ensures begin <= s <= z && g.Valid(begin, s) && s == Converted(st, old(a[..]), begin).end
    ensures g.Text(a[..], begin, s) == Converted(st, old(a[..]), begin).text
    ensures Unread(a, old(a[..]), s) && a[..][..begin] == old(a[..])[..begin] && IsEnd(st, old(a[..]), s)
  {
    hide Progress, Piece, Unread, GapText, PlainRun, ReferenceAt;
    ghost var t := a[..];
    s := begin;
    Start(a, g, begin, st);
    while true
      invariant begin <= s <= z && g.Valid(begin, s) && Unread(a, t, s) && a[..][..begin] == t[..begin]
      invariant Progress(st, t, begin, g.Text(a[..], begin, s), s)
      decreases z - s
    {
      s := ScanPlain(a, g, begin, s, st, t, z);
      UnreadAt(a, t, s, s);
      ghost var done := g.Text(a[..], begin, s);
      if a[s] == st.stop || a[s] == NUL {
        Done(st, t, begin, done, s);
        return;
      }
      ProgressOverPiece(st, t, begin, done, s);
      PieceByChar(st, t, s);
      if a[s] == '\r' && (st.eol || st.ws) {
        s := PutLineEnd(a, g, begin, s, if st.ws then ' ' else '\n', t);
      } else if st.ws && IsSpace(a[s]) {
        s := PutSpace(a, g, begin, s, t);
      } else if st.escape && a[s] == '&' {
        ghost var s0 := s;
        s := Escape(a, g, begin, s, t, z);
        if ReferenceAt(t, s0) == NoReference { ProgressOverAmpersand(st, t, begin, done, s0, s); }
      } else {
        GapTextGrows(a[..], begin, g.end, g.size, s, s + 1);
        assert a[..][s..s + 1] == [t[s]];
        UnreadLater(a, t, s, s + 1);
        s := s + 1;
      }
    }
  }

  lemma PieceByChar(st: Style, t: string, s: nat)
    requires s < |t| && !IsEnd(st, t, s)
    ensures var p := Piece(st, t, s);
      && (t[s] == '\r' && (st.eol || st.ws) ==>
            p.text == [if st.ws then ' ' else '\n'] && p.next == if s + 1 < |t| && t[s + 1] == '\n' then s + 2 else s + 1)
      && (t[s] != '\r' && st.ws && IsSpace(t[s]) ==> p == Reference(" ", s + 1))
      && (t[s] == '&' && st.escape && ReferenceAt(t, s).Reference? ==> p == ReferenceAt(t, s))
      && (!(t[s] == '\r' && (st.eol || st.ws)) && !(st.ws && IsSpace(t[s])) && !(t[s] == '&' && st.escape) ==> p == Reference([t[s]], s + 1))
  {
  }

  lemma Start(a: array<char>, g: Gap, begin: nat, st: Style)
    requires begin < a.Length && g.end == -1 && g.size == 0
    ensures Unread(a, a[..], begin) && Progress(st, a[..], begin, g.Text(a[..], begin, begin), begin)
  {
    assert g.Text(a[..], begin, begin) == [];
  }

  lemma Done(st: Style, t: string, begin: nat, done: string, s: nat)
    requires Progress(st, t, begin, done, s) && IsEnd(st, t, s)
    ensures done == Converted(st, t, begin).text && s == Converted(st, t, begin).end
  {
  }

  /** The scan over characters that need no look. */
  method ScanPlain(a: array<char>, g: Gap, ghost begin: nat, s: nat, st: Style, ghost t: string, ghost z: nat) returns (s': nat)
    requires ValidStyle(st) && Unread(a, t, s) && begin <= s <= z < |t| && t[z] == NUL && g.Valid(begin, s)
    requires Progress(st, t, begin, g.Text(a[..], begin, s), s)
    ensures s <= s' <= z && IsSpecial(st, t[s']) && Unread(a, t, s') && g.Valid(begin, s')
    ensures Progress(st, t, begin, g.Text(a[..], begin, s'), s')
  {
    hide Progress, GapText, Unread;
    s' := s;
    UnreadAt(a, t, s, s');
    while !IsSpecial(st, a[s'])
      invariant s <= s' <= z && a[s'] == t[s'] && forall k :: s <= k < s' ==> !IsSpecial(st, t[k]) && a[k] == t[k]
      decreases z - s'
    {
      s' := s' + 1;
      UnreadAt(a, t, s, s');
    }
    ProgressOverRun(st, t, begin, g.Text(a[..], begin, s), s, s');
    GapTextGrows(a[..], begin, g.end, g.size, s, s');
    assert a[..][s..s'] == t[s..s'];
    UnreadLater(a, t, s, s');
  }

  // ---- entry points

  function TrimRight(s: string): string
    decreases |s|
  {
    if s != "" && IsSpace(s[|s| - 1]) then TrimRight(s[..|s| - 1]) else s
  }

  /** strconv_pcdata: t's character data from begin on, converted; the result is zero-terminated. */
  ghost predicate PcdataDone(t: string, u: string, begin: nat, next: nat, trim: bool, st: Style) {
    var r := Converted(st, t, begin);
    var text := if trim then TrimRight(r.text) else r.text;
    && |u| == |t| && begin + |text| <= r.end < |t|
    && u[begin..begin + |text|] == text && u[begin + |text|] == NUL
    && next == (if t[r.end] == '<' then r.end + 1 else r.end)
    && u[..begin] == t[..begin] && u[r.end + 1..] == t[r.end + 1..]
  }

  method ConvertPcdata(a: array<char>, begin: nat, trim: bool, eol: bool, escape: bool, ghost z: nat) returns (next: nat)
    requires begin <= z < a.Length && a[z] == NUL
    modifies a
    ensures PcdataDone(old(a[..]), a[..], begin, next, trim, Style('<', eol, false, escape))
  {
    hide Converted, PcdataDone, GapText, Unread, IsEnd, TrimRight;
    var st := Style('<', eol, false, escape);
    ghost var t := a[..];
    var g := new Gap();
    var s := ConvertUntilEnd(a, g, begin, st, z);
    var found := a[s] == '<';
    UnreadAt(a, t, s, s);
    UnreadTail(a, t, s);
    var end := g.Flush(a, begin, s);
    ghost var u, past := a[..], end;
    if trim { end := TrimEnd(a, begin, end); }
    a[end] := NUL;
    next := if found then s + 1 else s;
    assert a[..] == u[end := NUL];
    PcdataFinish(t, u, begin, past, end, trim, st);
  }

  lemma UnreadTail(a: array<char>, t: string, s: nat)
    requires Unread(a, t, s)
    ensures a[..][s..] == t[s..]
  {
  }

  lemma PcdataFinish(t: string, u: string, begin: nat, past: nat, end: nat, trim: bool, st: Style)
    requires var r := Converted(st, t, begin);
             begin <= past <= r.end < |t| && |u| == |t| && u[begin..past] == r.text && u[..begin] == t[..begin] && u[r.end..] == t[r.end..]
    requires begin <= end <= past && u[begin..end] == if trim then TrimRight(u[begin..past]) else u[begin..past]
    ensures var r := Converted(st, t, begin);
            PcdataDone(t, u[end := NUL], begin, if t[r.end] == '<' then r.end + 1 else r.end, trim, st)
  {
    hide Converted, TrimRight;
    var r := Converted(st, t, begin);
    var v := u[end := NUL];
    assert v[begin..end] == u[begin..end];
    assert v[r.end + 1..] == u[r.end..][1..] && t[r.end + 1..] == t[r.end..][1..];
  }

  /** Steps back over trailing white space. */
  method TrimEnd(a: array<char>, begin: nat, end: nat) returns (end': nat)
    requires begin <= end <= a.Length
    ensures begin <= end' <= end && a[..][begin..end'] == TrimRight(a[..][begin..end])
  {
    end' := end;
    while end' > begin && IsSpace(a[end' - 1])
      invariant begin <= end' <= end && TrimRight(a[..][begin..end]) == TrimRight(a[..][begin..end'])
    {
      assert a[..][begin..end'][..end' - 1 - begin] == a[..][begin..end' - 1];
      end' := end' - 1;
    }
  }

  /** strconv_attribute (simple, eol and wconv): false when the closing quote is missing. */
  method ConvertAttribute(a: array<char>, begin: nat, st: Style, ghost z: nat) returns (found: bool, next: nat)
    requires ValidStyle(st) && st.stop != '<' && begin <= z < a.Length && a[z] == NUL
    modifies a
    ensures var t := old(a[..]); var r := Converted(st, t, begin);
            r.end <= z && (found <==> t[r.end] == st.stop)
    ensures found ==> var t := old(a[..]); var r := Converted(st, t, begin);
              && next == r.end + 1 && begin + |r.text| <= r.end
              && a[..][begin..begin + |r.text|] == r.text && a[begin + |r.text|] == NUL
              && a[..][..begin] == t[..begin] && a[..][next..] == t[next..]
  {
    hide Converted;
    ghost var t := a[..];
    var g := new Gap();
    var s := ConvertUntilEnd(a, g, begin, st, z);
    UnreadAt(a, t, s, s);
    found, next := a[s] == st.stop, s + 1;
    if found {
      UnreadLater(a, t, s, s + 1);
      var end := g.Flush(a, begin, s);
      ghost var u := a[..];
      assert u[s + 1..] == u[s..][1..] && t[s + 1..] == t[s..][1..];
      a[end] := NUL;
    }
  }
}
