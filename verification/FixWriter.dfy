/**
 The FIX message writer: fields appended to a buffer, and the trailer that inserts BodyLength in place and
 appends the checksum (FIX 4.4, Volume 2: standard header, standard trailer, CheckSum calculation).
 */
module FixWriter {
  import opened Strings
  import opened DecimalText
  import opened FixText

  datatype Field = Field(tag: int, value: string)

  const BeginString := 8
  const BodyLength := 9
  const CheckSum := 10
  const MsgType := 35

  /** "tag=value" and the delimiter. */
  function FieldText(f: Field): string {
    Decimal(f.tag) + "=" + f.value + [SOH]
  }

  function BodyText(fields: seq<Field>): string {
    if fields == [] then "" else FieldText(fields[0]) + BodyText(fields[1..])
  }

  /** Pushing one more field appends it to the body. */
  lemma {:induction false} BodyTextAppend(fields: seq<Field>, f: Field)
    ensures BodyText(fields + [f]) == BodyText(fields) + FieldText(f)
  {
    if fields == [] {
      assert [f][1..] == [];
    } else {
      assert (fields + [f])[1..] == fields[1..] + [f];
      BodyTextAppend(fields[1..], f);
    }
  }

  // ---- the checksum

  function ByteSum(s: string): int {
    if s == "" then 0 else ByteSum(s[..|s| - 1]) + s[|s| - 1] as int
  }

  function SignedSum(s: string): int {
    if s == "" then 0 else SignedSum(s[..|s| - 1]) + Signed(s[|s| - 1])
  }

  const WORD := 0x1_0000_0000

  /** A 32-bit int after wrap-around. */
  function Wrap32(x: int): (r: int)
    ensures -0x8000_0000 <= r < 0x8000_0000 && (r - x) % WORD == 0
  {
    (x + 0x8000_0000) % WORD - 0x8000_0000
  }

  /** The remainder as C++ computes it, towards zero. */
  function Rem(x: int, n: int): int
    requires n > 0
  {
    if x >= 0 then x % n else -(-x % n)
  }

  /** CheckSum as the standard defines it: the sum of all bytes modulo 256. */
  function TrueCheckSum(s: string): nat {
    ByteSum(s) % 256
  }

  predicate IsText(s: string) {
    forall c :: c in s ==> c < 256 as char
  }

  lemma {:induction false} SumsAgree(s: string)
    requires IsText(s)
    ensures (ByteSum(s) - SignedSum(s)) % 256 == 0
  {
    if s != "" {
      assert forall k :: 0 <= k < |s| ==> s[k] in s;
      SumsAgree(s[..|s| - 1]);
    }
  }

  /** The number push_trailer writes for the message text s. */
  function WrittenCheckSum(s: string): int {
    Rem(Wrap32(SignedSum(s)), 256)
  }

  /**
   The written checksum is the standard's exactly when the sum of the bytes, taken as signed chars in a 32-bit
   int, is not negative or is a multiple of 256.
   */
  lemma CheckSumExact(s: string)
    requires IsText(s)
    ensures WrittenCheckSum(s) == TrueCheckSum(s) <==>
              Wrap32(SignedSum(s)) >= 0 || Wrap32(SignedSum(s)) % 256 == 0
    ensures (WrittenCheckSum(s) - TrueCheckSum(s)) % 256 == 0
  {
    SumsAgree(s);
    NotNegative(s);
    SameRemainder(SignedSum(s), Wrap32(SignedSum(s)), ByteSum(s));
    hide Wrap32, Rem, SignedSum, ByteSum;
  }

  /** The bytes that a signed char takes for negative numbers. */
  function HighBytes(s: string): nat {
    if s == "" then 0 else HighBytes(s[..|s| - 1]) + if s[|s| - 1] >= 128 as char then 1 else 0
  }

  lemma {:induction false} SignedByCount(s: string)
    requires IsText(s)
    ensures SignedSum(s) == ByteSum(s) - 256 * HighBytes(s)
    ensures 0 <= ByteSum(s) <= 255 * |s| && HighBytes(s) <= |s| && 128 * HighBytes(s) <= ByteSum(s)
  {
    if s != "" {
      assert forall k :: 0 <= k < |s| ==> s[k] in s;
      SignedByCount(s[..|s| - 1]);
    }
  }

  /**
   For texts of less than 8 MB: the written checksum is the standard's exactly when the bytes, all together, are
   worth at least 256 for each of them from 128 on, or sum up to a multiple of 256. Otherwise it is 256 less.
   */
  lemma CheckSumByCount(s: string)
    requires IsText(s) && |s| < 0x80_0000
    ensures WrittenCheckSum(s) == TrueCheckSum(s) <==> ByteSum(s) >= 256 * HighBytes(s) || ByteSum(s) % 256 == 0
    ensures WrittenCheckSum(s) == TrueCheckSum(s) || WrittenCheckSum(s) == TrueCheckSum(s) - 256
  {
    SignedByCount(s);
    var x, b := SignedSum(s), ByteSum(s);
    assert Wrap32(x) == x;
    CheckSumExact(s);
    SmallRemainders(x, b);
    MultipleToo(x, b, HighBytes(s));
  }

  lemma SmallRemainders(x: int, b: int)
    requires b >= 0
    ensures -256 < Rem(x, 256) < 256 && 0 <= b % 256 < 256
    ensures (Rem(x, 256) - b % 256) % 256 == 0 && x >= 0 ==> Rem(x, 256) == b % 256
    ensures (Rem(x, 256) - b % 256) % 256 == 0 && x < 0 ==> Rem(x, 256) == b % 256 || Rem(x, 256) == b % 256 - 256
  {
  }

  lemma MultipleToo(x: int, b: int, n: int)
    requires x == b - 256 * n
    ensures x % 256 == 0 <==> b % 256 == 0
  {
    assert b == 256 * (b / 256) + b % 256;
    assert x == 256 * (b / 256 - n) + b % 256;
    DividesAs(x, b / 256 - n, b % 256);
  }

  lemma {:induction false} NotNegative(s: string)
    ensures ByteSum(s) >= 0
  {
    if s != "" { NotNegative(s[..|s| - 1]); }
  }

  lemma SameRemainder(x: int, w: int, b: int)
    requires (b - x) % 256 == 0 && (w - x) % WORD == 0 && b >= 0
    ensures Rem(w, 256) == b % 256 <==> w >= 0 || w % 256 == 0
    ensures (Rem(w, 256) - b % 256) % 256 == 0
  {
    var i, j := (b - x) / 256, (w - x) / WORD;
    var q, r := b / 256 + 0x100_0000 * j - i, b % 256;
    assert w == 256 * q + r;
    DividesAs(w, q, r);
    if w < 0 {
      if r == 0 { DividesAs(-w, -q, 0); } else { DividesAs(-w, -q - 1, 256 - r); }
    }
  }

  lemma DividesAs(x: int, q: int, r: int)
    requires x == 256 * q + r && 0 <= r < 256
    ensures x % 256 == r
  {
  }

  lemma {:induction false} SevenBitSums(s: string)
    requires forall c :: c in s ==> c < 128 as char
    ensures SignedSum(s) == ByteSum(s) && 0 <= ByteSum(s) <= 127 * |s|
  {
    if s != "" {
      assert forall k :: 0 <= k < |s| ==> s[k] in s;
      SevenBitSums(s[..|s| - 1]);
    }
  }

  /** With 7-bit text (of less than 16 MB) the written checksum is the standard's. */
  lemma CheckSumSevenBit(s: string)
    requires (forall c :: c in s ==> c < 128 as char) && |s| < 0x100_0000
    ensures WrittenCheckSum(s) == TrueCheckSum(s)
  {
    SevenBitSums(s);
    CheckSumExact(s);
  }

  lemma SumStep(s: string, i: nat)
    requires i < |s|
    ensures SignedSum(s[..i + 1]) == SignedSum(s[..i]) + Signed(s[i])
  {
    assert s[..i + 1][..i] == s[..i];
  }

  // ---- the finished message

  function LengthField(body: string): string {
    FieldText(Field(BodyLength, Decimal(|body|)))
  }

  function CheckField(n: int): string {
    Decimal(CheckSum) + "=" + Padded(n, 3) + [SOH]
  }

  /** head, BodyLength, body, CheckSum. */
  function Sealed(head: string, body: string): string {
    var text := head + LengthField(body) + body;
    text + CheckField(WrittenCheckSum(text))
  }

  lemma ThreeDigits(n: nat)
    requires n < 256
    ensures var z := Padded(n, 3);
            && |z| == 3 && (forall k :: 0 <= k < 3 ==> IsDigit(z[k]))
            && 100 * (z[0] as int - 48) + 10 * (z[1] as int - 48) + (z[2] as int - 48) == n
  {
    var s := Digits(n);
    if n >= 10 { assert s == Digits(n / 10) + [DigitChar(n % 10)]; }
    if n < 10 {
      assert Zeros("0" + s, 3) == "0" + ("0" + s);
    } else if n < 100 {
      assert |s| == 2 && Zeros(s, 3) == "0" + s;
    } else {
      assert Digits(n / 10) == Digits(n / 100) + [DigitChar(n / 10 % 10)];
      assert |s| == 3;
    }
  }

  /**
   The trailer of 7-bit text: seven characters, "10=", the three digits of the standard's checksum of everything before
   them, and the delimiter.
   */
  lemma SealedText(head: string, body: string)
    requires (forall c :: c in head + LengthField(body) + body ==> c < 128 as char) && |head + LengthField(body) + body| < 0x100_0000
    ensures var u := Sealed(head, body); var text := head + LengthField(body) + body; var n := |text|;
            && |u| == n + 7 && u[..n] == text
            && u[n] == '1' && u[n + 1] == '0' && u[n + 2] == '=' && u[n + 6] == SOH
            && IsDigit(u[n + 3]) && IsDigit(u[n + 4]) && IsDigit(u[n + 5])
            && 100 * (u[n + 3] as int - 48) + 10 * (u[n + 4] as int - 48) + (u[n + 5] as int - 48) == TrueCheckSum(text)
  {
    var text := head + LengthField(body) + body;
    CheckSumSevenBit(text);
    ThreeDigits(TrueCheckSum(text));
    CheckText(Padded(TrueCheckSum(text), 3));
    hide TrueCheckSum, WrittenCheckSum, LengthField, Padded;
  }

  lemma CheckText(z: string)
    ensures Decimal(CheckSum) + "=" + z + [SOH] == ['1', '0', '='] + z + [SOH]
  {
    assert Digits(10) == "1" + "0";
  }

  /** BodyLength: the number of characters of the body in decimal, without leading zeros. */
  lemma LengthText(body: string)
    ensures var length := Decimal(|body|);
            && LengthField(body) == "9=" + length + [SOH] && Fold(length, 0) == |body|
            && (forall c :: c in length ==> IsDigit(c)) && (length[0] == '0' ==> |length| == 1)
  {
    FoldDigits(|body|);
    NoLeadingZeros(|body|);
    assert Decimal(9) == "9";
  }

  // ---- a message whose checksum comes out negative

  function Repeated(c: char, n: nat): string {
    if n == 0 then "" else Repeated(c, n - 1) + [c]
  }

  lemma {:induction false} RepeatedSums(c: char, n: nat)
    requires 128 as char <= c < 256 as char
    ensures |Repeated(c, n)| == n && ByteSum(Repeated(c, n)) == n * c as int && HighBytes(Repeated(c, n)) == n
    ensures forall d :: d in Repeated(c, n) ==> d == c
  {
    if n > 0 {
      RepeatedSums(c, n - 1);
      assert Repeated(c, n)[..n - 1] == Repeated(c, n - 1);
    }
  }

  lemma {:induction false} SumsAppend(s: string, t: string)
    ensures ByteSum(s + t) == ByteSum(s) + ByteSum(t) && HighBytes(s + t) == HighBytes(s) + HighBytes(t)
  {
    if t == "" {
      assert s + t == s;
    } else {
      assert (s + t)[..|s + t| - 1] == s + t[..|t| - 1];
      SumsAppend(s, t[..|t| - 1]);
    }
  }

  /** The sums of a short 7-bit text, from its parts. */
  lemma PlainSums(s: string, c: char)
    requires c < 128 as char
    ensures ByteSum(s + [c]) == ByteSum(s) + c as int && HighBytes(s + [c]) == HighBytes(s)
  {
    assert (s + [c])[..|s|] == s;
  }

  lemma FourSums(a: char, b: char, c: char, d: char)
    requires a < 128 as char && b < 128 as char && c < 128 as char && d < 128 as char
    ensures ByteSum([a, b, c, d]) == a as int + b as int + c as int + d as int && HighBytes([a, b, c, d]) == 0
  {
    PlainSums("", a);
    PlainSums([a], b);
    PlainSums([a, b], c);
    PlainSums([a, b, c], d);
    assert "" + [a] == [a] && [a] + [b] == [a, b] && [a, b] + [c] == [a, b, c] && [a, b, c] + [d] == [a, b, c, d];
  }

  const FreeText := 58

  /** A heartbeat with twenty bytes of 0x80 in its Text field. */
  function HighMessage(): seq<Field> {
    [Field(MsgType, "0"), Field(FreeText, Repeated(128 as char, 20))]
  }

  /** Its body: the fields as they are written. */
  lemma HighBody()
    ensures BodyText(HighMessage()) == ['3', '5', '=', '0'] + ([SOH, '5', '8', '='] + (Repeated(128 as char, 20) + [SOH]))
    ensures |BodyText(HighMessage())| == 29
  {
    var r := Repeated(128 as char, 20);
    RepeatedSums(128 as char, 20);
    var f, g := HighMessage()[0], HighMessage()[1];
    assert Digits(35) == "3" + "5" && Digits(58) == "5" + "8";
    assert FieldText(f) == ['3', '5', '=', '0', SOH] && FieldText(g) == ['5', '8', '='] + (r + [SOH]);
    assert HighMessage()[1..] == [g] && [g][1..] == [];
    assert BodyText([g]) == FieldText(g) + BodyText([]) == FieldText(g);
    assert BodyText(HighMessage()) == FieldText(f) + BodyText([g]);
  }

  lemma HighLength()
    ensures LengthField(BodyText(HighMessage())) == ['9', '=', '2', '9'] + [SOH]
  {
    HighBody();
    assert Digits(29) == "2" + "9";
    hide BodyText;
  }

  /**
   A message the writer can build whose written checksum is not the standard's: the bytes covered sum up to 31 modulo 256,
   and -225 is written.
   */
  lemma CheckSumDiffers()
    ensures var head, body := FieldText(Field(BeginString, "F")), BodyText(HighMessage());
            var text := head + LengthField(body) + body;
            && IsText(text) && TrueCheckSum(text) == 31 && WrittenCheckSum(text) == -225
            && Sealed(head, body) == text + "10=-225" + [SOH]
  {
    var head, body, r := FieldText(Field(BeginString, "F")), BodyText(HighMessage()), Repeated(128 as char, 20);
    var length := LengthField(body);
    var text := head + length + body;
    HighBody();
    HighLength();
    RepeatedSums(128 as char, 20);
    assert head == ['8', '=', 'F', SOH];
    hide BodyText, FieldText, LengthField, Repeated, CheckField, HighBytes, ByteSum, WrittenCheckSum, Wrap32, SignedSum, HighMessage;
    HighSums(head, length, body, r);
    BytesOnly(head + length, body);
    hide IsText;
    CheckSumByCount(text);
    SmallText();
    Assoc(text, "10=-225", [SOH]);
  }

  lemma BytesOnly(s: string, t: string)
    requires IsText(s) && IsText(t)
    ensures IsText(s + t)
  {
  }

  lemma HighSums(head: string, length: string, body: string, r: string)
    requires head == ['8', '=', 'F', SOH] && length == ['9', '=', '2', '9'] + [SOH]
    requires body == ['3', '5', '=', '0'] + ([SOH, '5', '8', '='] + (r + [SOH]))
    requires |r| == 20 && ByteSum(r) == 2560 && HighBytes(r) == 20
    ensures ByteSum(head + length + body) == 3359 && HighBytes(head + length + body) == 20 && |head + length + body| == 38
  {
    hide ByteSum, HighBytes;
    FourSums('8', '=', 'F', SOH);
    FourSums('9', '=', '2', '9');
    PlainSums(['9', '=', '2', '9'], SOH);
    FourSums('3', '5', '=', '0');
    FourSums(SOH, '5', '8', '=');
    PlainSums(r, SOH);
    SumsAppend([SOH, '5', '8', '='], r + [SOH]);
    SumsAppend(['3', '5', '=', '0'], [SOH, '5', '8', '='] + (r + [SOH]));
    SumsAppend(head, length);
    SumsAppend(head + length, body);
  }

  lemma SmallText()
    ensures 31 == 3359 % 256 && CheckField(-225) == "10=-225" + [SOH]
  {
    assert Digits(225) == "2" + "2" + "5" && Digits(10) == "1" + "0";
    assert Padded(-225, 3) == "-225";
  }

  // ---- the writer

  class Writer {
    const buf: array<char>
    var cur: nat
    var bodyLen: int     // where the body begins, -1 before BeginString was written

    ghost predicate Valid()
      reads this
    {
      cur <= buf.Length && -1 <= bodyLen <= cur
    }

    ghost function Contents(): string
      reads this, buf
      requires Valid()
    {
      buf[..cur]
    }

    constructor (begin: array<char>)
      ensures Valid() && buf == begin && cur == 0 && bodyLen == -1
    {
      buf := begin;
      cur, bodyLen := 0, -1;
    }

    /** fmt::format_to at a position. */
    method Put(at: nat, text: string)
      requires at + |text| <= buf.Length
      modifies buf
      ensures buf[..][..at] == old(buf[..])[..at] && buf[..][at..at + |text|] == text
      ensures buf[..][at + |text|..] == old(buf[..])[at + |text|..]
    {
      forall k | 0 <= k < |text| { buf[at + k] := text[k]; }
    }

    /** push_field; the buffer must have room. */
    method PushField(tag: int, value: string)
      requires Valid() && cur + |FieldText(Field(tag, value))| <= buf.Length
      modifies this, buf
      ensures Valid() && Contents() == old(Contents()) + FieldText(Field(tag, value))
      ensures bodyLen == if tag == BeginString then cur else old(bodyLen)
    {
      var text := FieldText(Field(tag, value));
      Put(cur, text);
      cur := cur + |text|;
      if tag == BeginString { bodyLen := cur; }
    }

    method Size() returns (n: nat)
      requires Valid()
      ensures n == |Contents()|
    {
      n := cur;
    }

    /** memmove of the body up by n places; the ranges overlap. */
    method MoveUp(n: nat)
      requires Valid() && bodyLen >= 0 && cur + n <= buf.Length
      modifies buf
      ensures buf[..][..bodyLen] == old(buf[..])[..bodyLen] && buf[..][bodyLen + n..cur + n] == old(buf[..])[bodyLen..cur]
    {
      forall k | bodyLen <= k < cur { buf[k + n] := buf[k]; }
    }

    /** Makes room in front of the body and writes text there. */
    method InsertText(at: nat, text: string)
      requires Valid() && at == bodyLen && cur + |text| <= buf.Length
      modifies buf
      ensures buf[..cur + |text|] == old(buf[..cur][..bodyLen] + text + buf[..cur][bodyLen..])
    {
      ghost var t := buf[..];
      MoveUp(|text|);
      ghost var u := buf[..];
      Put(at, text);
      ghost var v := buf[..];
      InsertedParts(t, u, v, bodyLen, cur, text);
      assert v[..cur + |text|] == buf[..cur + |text|] && t[..cur] == old(buf[..cur]);
    }

    /** BodyLength is inserted in front of the body. */
    method InsertLength()
      requires Valid() && 0 <= bodyLen && cur + |LengthField(Contents()[bodyLen..])| <= buf.Length
      modifies this`cur, buf
      ensures Valid()
      ensures Contents() == old(Contents()[..bodyLen] + LengthField(Contents()[bodyLen..]) + Contents()[bodyLen..])
    {
      ghost var body := Contents()[bodyLen..];
      var length := cur - bodyLen;
      var strLen := DigitCount(length) + 3;
      LengthFieldSize(body);
      var text := FieldText(Field(BodyLength, Decimal(length)));
      assert text == LengthField(body);
      hide FieldText, LengthField, DigitCount;
      InsertText(bodyLen, text);
      cur := cur + strLen;
    }

    /** The sum of everything written so far, in a 32-bit int. */
    method Sum() returns (sum: int)
      requires Valid()
      ensures sum == Wrap32(SignedSum(Contents()))
    {
      hide Wrap32, SignedSum;
      sum := 0;
      var i := 0;
      EmptySum();
      assert buf[..0] == "";
      while i < cur
        invariant i <= cur && sum == Wrap32(SignedSum(buf[..i]))
      {
        SumStep(buf[..cur], i);
        assert buf[..cur][..i + 1] == buf[..i + 1] && buf[..cur][..i] == buf[..i];
        WrapAdd(SignedSum(buf[..i]), Signed(buf[i]));
        sum := Wrap32(sum + Signed(buf[i]));
        i := i + 1;
      }
    }

    /** push_trailer: BodyLength is inserted in place, then the checksum of everything is appended. */
    method PushTrailer()
      requires Valid() && 0 <= bodyLen < cur
      requires |Sealed(Contents()[..bodyLen], Contents()[bodyLen..])| <= buf.Length
      modifies this, buf
      ensures Valid() && Contents() == old(Sealed(Contents()[..bodyLen], Contents()[bodyLen..]))
    {
      hide LengthField, CheckField, WrittenCheckSum, Wrap32, SignedSum;
      ghost var head, body := Contents()[..bodyLen], Contents()[bodyLen..];
      SealedRoom(head, body);
      InsertLength();
      ghost var text := Contents();
      var sum := Sum();
      var trailer := CheckField(Rem(sum, 256));
      assert trailer == CheckField(WrittenCheckSum(text)) by { WrittenIs(text, sum); }
      Put(cur, trailer);
      cur := cur + |trailer|;
    }
  }

  /** t with [a, c) moved up and text put in front of it: first u, then v. */
  lemma InsertedParts(t: string, u: string, v: string, a: nat, c: nat, text: string)
    requires a <= c && c + |text| <= |t| == |u| == |v|
    requires u[..a] == t[..a] && u[a + |text|..c + |text|] == t[a..c]
    requires v[..a] == u[..a] && v[a..a + |text|] == text && v[a + |text|..] == u[a + |text|..]
    ensures v[..c + |text|] == t[..c][..a] + text + t[..c][a..]
  {
    var n := |text|;
    assert v[a + n..c + n] == v[a + n..][..c - a] == u[a + n..][..c - a] == u[a + n..c + n];
    assert v[..c + n] == v[..a] + v[a..a + n] + v[a + n..c + n];
    assert t[..c][..a] == t[..a] && t[..c][a..] == t[a..c];
  }

  lemma EmptySum()
    ensures Wrap32(SignedSum("")) == 0
  {
  }

  lemma WrittenIs(text: string, sum: int)
    requires sum == Wrap32(SignedSum(text))
    ensures WrittenCheckSum(text) == Rem(sum, 256)
  {
  }

  lemma WrapAdd(x: int, y: int)
    ensures Wrap32(Wrap32(x) + y) == Wrap32(x + y)
  {
  }

  lemma LengthFieldSize(body: string)
    ensures |LengthField(body)| == DigitCount(|body|) + 3
  {
    DigitsLength(|body|);
    assert Decimal(9) == "9";
  }

  lemma SealedRoom(head: string, body: string)
    ensures |Sealed(head, body)| == |head| + |LengthField(body)| + |body| +
              |CheckField(WrittenCheckSum(head + LengthField(body) + body))|
  {
  }
}
