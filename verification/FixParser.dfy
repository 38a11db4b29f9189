/**
 The FIX message parser: the field iterator, and the message that jumps over its body by BodyLength.

 Memory is a text that ends with a zero byte; positions count from the start of the read buffer and -1 stands
 for a null pointer. What follows a message in memory is arbitrary.
 */
module FixParser {
  import opened Options
  import opened Strings
  import opened DecimalText
  import opened FixText
  import opened FixWriter

  predicate Terminated(mem: string) {
    mem != "" && mem[|mem| - 1] == NUL
  }

  // ---- one field

  /** Where the scan from i finds the first '=' (unless vb has it already) and the delimiter; -1 for none before a zero byte. */
  function Scan(mem: string, i: nat, vb: int): (int, int)
    decreases |mem| - i
  {
    if i >= |mem| || mem[i] == NUL then (vb, -1)
    else if mem[i] == '=' && vb < 0 then Scan(mem, i + 1, i + 1)
    else if mem[i] == SOH then (vb, i)
    else Scan(mem, i + 1, vb)
  }

  /** fix_field_t: begin is where the next field starts, -1 when there is none. */
  datatype Cursor = Cursor(tag: int, valBegin: int, valEnd: int, begin: int)

  lemma {:induction false} ScanRange(mem: string, i: nat, vb: int)
    requires -1 <= vb <= i <= |mem|
    ensures var (b, e) := Scan(mem, i, vb);
            -1 <= b <= |mem| && -1 <= e < |mem| && (e >= 0 ==> i <= e && b <= e)
            && (vb < 0 && b >= 0 ==> i < b && mem[b - 1] == '=') && (vb >= 0 && vb <= |mem| ==> b == vb)
    decreases |mem| - i
  {
    if i < |mem| && mem[i] != NUL {
      if mem[i] == '=' && vb < 0 { ScanRange(mem, i + 1, i + 1); }
      else if mem[i] != SOH { ScanRange(mem, i + 1, vb); }
    }
  }

  /** fix_field_iterator_t::next. Without a further field the tag keeps its old value. */
  function Advance(mem: string, c: Cursor): (r: Cursor)
    requires 0 <= c.begin < |mem|
    ensures r.begin == -1 || (c.begin < r.begin <= |mem| && r.begin == r.valEnd + 1 && 0 < r.valBegin <= r.valEnd)
  {
    var (vb, ve) := Scan(mem, c.begin, -1);
    ScanRange(mem, c.begin, -1);
    if vb < 0 || ve < 0 then Cursor(c.tag, vb, ve, -1)
    else Cursor(Atoi(mem[c.begin..vb - 1]), vb, ve, ve + 1)
  }

  class Iterator {
    var tag: int
    var valBegin: int
    var valEnd: int
    var begin: int

    function C(): Cursor
      reads this
    {
      Cursor(tag, valBegin, valEnd, begin)
    }

    method Next(mem: string)
      requires Terminated(mem) && 0 <= begin < |mem|
      modifies this
      ensures C() == Advance(mem, old(C()))
    {
      valBegin, valEnd := -1, -1;
      var i := begin;
      ScanRange(mem, i, -1);
      ghost var goal := Scan(mem, i, -1);
      while mem[i] != NUL
        invariant begin <= i < |mem| && -1 <= valBegin <= i && valEnd == -1 && Scan(mem, i, valBegin) == goal
        invariant begin == old(begin) && tag == old(tag)
        invariant valBegin > 0 ==> mem[valBegin - 1] == '='
        decreases |mem| - i
      {
        if mem[i] == '=' && valBegin < 0 {
          valBegin := i + 1;
        } else if mem[i] == SOH && valEnd < 0 {
          valEnd := i;
          break;
        }
        i := i + 1;
      }
      if valEnd < 0 || valBegin < 0 {
        begin := -1;
        return;
      }
      tag := AtoiRange(mem, begin, valBegin - 1);
      begin := valEnd + 1;
    }
  }

  // ---- a message

  /** The iterators' positions and the other fields of fix_message_t. */
  datatype Msg = Msg(beginIt: Cursor, endIt: Cursor, end: int, checksum: nat, kind: char, valid: bool)

  predicate InMemory(mem: string, i: int) {
    0 <= i < |mem|
  }

  /** fix_message_t::init at position `at`; None when it would use a null pointer or leave memory. */
  function InitOf(mem: string, at: int, m: Msg): Option<Msg> {
    if !InMemory(mem, at) then None
    else
      var b := Advance(mem, m.beginIt.(begin := at));
      if b.tag != BeginString then Some(m.(beginIt := b))
      else if !InMemory(mem, b.begin) then None
      else AfterBegin(mem, m.(beginIt := b))
  }

  /** init behind BeginString: BodyLength leads to the trailer. */
  function AfterBegin(mem: string, m: Msg): Option<Msg>
    requires m.beginIt.tag == BeginString && InMemory(mem, m.beginIt.begin)
  {
    var b := Advance(mem, m.beginIt);
    var m' := m.(beginIt := b);
    if b.tag != BodyLength then Some(m')
    else
      var len := StdAtoi(mem, b.valBegin);
      if len == 0 then Some(m')
      else if !InMemory(mem, b.valEnd + len + 1) then None
      else AfterLength(mem, m', b.valEnd + len + 1)
  }

  /** init at the trailer. */
  function AfterLength(mem: string, m: Msg, trailer: nat): Option<Msg>
    requires InMemory(mem, trailer)
  {
    var e := Advance(mem, m.endIt.(begin := trailer));
    if e.tag != CheckSum then Some(m.(endIt := e))
    else if e.begin < 0 then None
    else AfterTrailer(mem, m.(endIt := e, end := e.valEnd + 1, checksum := StdAtoi(mem, e.valBegin) % 256))
  }

  /** init back behind BodyLength: the type, and the first field after it. */
  function AfterTrailer(mem: string, m: Msg): Option<Msg> {
    if !InMemory(mem, m.beginIt.begin) then None
    else
      var b := Advance(mem, m.beginIt);
      if b.tag != MsgType then Some(m.(beginIt := b))
      else if !InMemory(mem, b.begin) then None
      else Some(m.(beginIt := Advance(mem, b), kind := mem[b.valBegin], valid := true))
  }

  class Message {
    const beginIt: Iterator
    const endIt: Iterator
    var end: int
    var checksum: nat
    var kind: char
    var valid: bool

    function M(): Msg
      reads this, beginIt, endIt
    {
      Msg(beginIt.C(), endIt.C(), end, checksum, kind, valid)
    }

    constructor ()
      ensures fresh(beginIt) && fresh(endIt) && beginIt != endIt
      ensures !valid && checksum == 0 && kind == NUL && end == -1
    {
      beginIt := new Iterator;
      endIt := new Iterator;
      end, checksum, kind, valid := -1, 0, NUL, false;
    }

    /** init; false when it would use a null pointer or leave memory. */
    method Init(mem: string, at: int) returns (ok: bool)
      requires Terminated(mem) && beginIt != endIt
      modifies this, beginIt, endIt
      ensures Became(ok, InitOf(mem, at, old(M())))
    {
      hide AfterBegin;
      if !InMemory(mem, at) { return false; }
      beginIt.begin := at;
      beginIt.Next(mem);
      if beginIt.tag != BeginString { return true; }
      if !InMemory(mem, beginIt.begin) { return false; }
      ok := ReadLength(mem);
    }

    /** The result of init is m; false stands for None. */
    predicate Became(ok: bool, m: Option<Msg>)
      reads this, beginIt, endIt
    {
      (ok <==> m.Some?) && (ok ==> M() == m.value)
    }

    method ReadLength(mem: string) returns (ok: bool)
      requires Terminated(mem) && beginIt != endIt && beginIt.tag == BeginString && InMemory(mem, beginIt.begin)
      modifies this, beginIt, endIt
      ensures Became(ok, AfterBegin(mem, old(M())))
    {
      hide AfterLength, StdAtoi;
      beginIt.Next(mem);
      if beginIt.tag != BodyLength { return true; }
      var length := StdAtoi(mem, beginIt.valBegin);
      if length == 0 { return true; }
      var trailer := beginIt.valEnd + length + 1;
      if !InMemory(mem, trailer) { return false; }
      ok := ReadTrailer(mem, trailer);
    }

    method ReadTrailer(mem: string, trailer: nat) returns (ok: bool)
      requires Terminated(mem) && beginIt != endIt && InMemory(mem, trailer)
      modifies this, beginIt, endIt
      ensures Became(ok, AfterLength(mem, old(M()), trailer))
    {
      hide AfterTrailer, StdAtoi;
      endIt.begin := trailer;
      endIt.Next(mem);
      if endIt.tag != CheckSum { return true; }
      if endIt.begin < 0 { return false; }
      end := endIt.valEnd + 1;
      checksum := StdAtoi(mem, endIt.valBegin) % 256;
      ok := ReadType(mem);
    }

    method ReadType(mem: string) returns (ok: bool)
      requires Terminated(mem) && beginIt != endIt
      modifies this, beginIt
      ensures Became(ok, AfterTrailer(mem, old(M())))
    {
      if !InMemory(mem, beginIt.begin) { return false; }
      beginIt.Next(mem);
      if beginIt.tag != MsgType { return true; }
      if !InMemory(mem, beginIt.begin) { return false; }
      kind := mem[beginIt.valBegin];
      beginIt.Next(mem);
      valid := true;
      ok := true;
    }

    /** find: the first field with this tag from begin() on, or end(). */
    method Find(mem: string, tag: int) returns (it: Cursor)
      requires Terminated(mem) && EndsAt(mem, beginIt.C(), endIt.begin)
      ensures it == FirstWith(mem, beginIt.C(), endIt.C(), tag)
    {
      it := beginIt.C();
      while it.begin != endIt.begin
        invariant EndsAt(mem, it, endIt.begin)
        invariant FirstWith(mem, it, endIt.C(), tag) == FirstWith(mem, beginIt.C(), endIt.C(), tag)
        decreases |mem| - it.begin
      {
        if it.tag == tag { return; }
        it := Advance(mem, it);
      }
      it := endIt.C();
    }
  }

  // ---- iteration

  /** Advancing from c arrives at the position stop. */
  predicate EndsAt(mem: string, c: Cursor, stop: int)
    decreases |mem| - c.begin
  {
    c.begin == stop || (InMemory(mem, c.begin) && Advance(mem, c).begin >= 0 && EndsAt(mem, Advance(mem, c), stop))
  }

  function FirstWith(mem: string, c: Cursor, end: Cursor, tag: int): Cursor
    requires EndsAt(mem, c, end.begin)
    decreases |mem| - c.begin
  {
    if c.begin == end.begin then end else if c.tag == tag then c else FirstWith(mem, Advance(mem, c), end, tag)
  }

  /** The value a cursor shows. */
  function ValueAt(mem: string, c: Cursor): string {
    if 0 <= c.valBegin <= c.valEnd <= |mem| then mem[c.valBegin..c.valEnd] else ""
  }

  /** The fields from c up to the position stop, as iteration yields them. */
  function Listed(mem: string, c: Cursor, stop: int): seq<Field>
    requires EndsAt(mem, c, stop)
    decreases |mem| - c.begin
  {
    if c.begin == stop then [] else [Field(c.tag, ValueAt(mem, c))] + Listed(mem, Advance(mem, c), stop)
  }

  /** Iteration from c ends at the position stop and yields these fields. */
  predicate Yields(mem: string, c: Cursor, stop: int, fields: seq<Field>) {
    EndsAt(mem, c, stop) && Listed(mem, c, stop) == fields
  }

  // ---- reading back what was written

  /** Values hold no delimiter and no zero byte. */
  predicate Clean(f: Field) {
    SOH !in f.value && NUL !in f.value
  }

  predicate AllClean(fields: seq<Field>) {
    forall f :: f in fields ==> Clean(f)
  }

  lemma {:induction false} ScanTag(mem: string, i: nat, tag: string)
    requires StartsAt(mem, i, tag) && forall c :: c in tag ==> c != NUL && c != '=' && c != SOH
    ensures Scan(mem, i, -1) == Scan(mem, i + |tag|, -1)
    decreases |tag|
  {
    if tag != "" {
      FirstChar(mem, i, tag);
      assert tag[0] in tag && forall c :: c in tag[1..] ==> c in tag;
      ScanTag(mem, i + 1, tag[1..]);
    }
  }

  lemma {:induction false} ScanValue(mem: string, i: nat, value: string, vb: int)
    requires StartsAt(mem, i, value + [SOH]) && SOH !in value && NUL !in value && vb >= 0
    ensures Scan(mem, i, vb) == (vb, i + |value|)
    decreases |value|
  {
    FirstChar(mem, i, value + [SOH]);
    if value == "" {
      assert value + [SOH] == [SOH];
    } else {
      assert (value + [SOH])[1..] == value[1..] + [SOH];
      assert value[0] in value && forall c :: c in value[1..] ==> c in value;
      ScanValue(mem, i + 1, value[1..], vb);
    }
  }

  /** The iterator reads a written field back and stops behind it. */
  lemma AdvanceReads(mem: string, c: Cursor, f: Field)
    requires Terminated(mem) && c.begin >= 0 && StartsAt(mem, c.begin, FieldText(f)) && Clean(f)
    ensures c.begin < |mem|
    ensures var r := Advance(mem, c);
            && r.tag == f.tag && r.begin == c.begin + |FieldText(f)| && ValueAt(mem, r) == f.value
            && r.valEnd == r.begin - 1 < |mem| - 1 && c.begin < r.valBegin == r.valEnd - |f.value| && mem[r.valEnd] == SOH
  {
    var tag := Decimal(f.tag);
    ScanField(mem, c.begin, f);
    AtoiDecimal(f.tag);
    hide FieldText, Scan, Decimal, Atoi;
  }

  lemma ScanField(mem: string, i: nat, f: Field)
    requires Terminated(mem) && StartsAt(mem, i, FieldText(f)) && Clean(f)
    ensures var vb := i + |Decimal(f.tag)| + 1; var ve := vb + |f.value|;
            && ve + 1 < |mem| && Scan(mem, i, -1) == (vb, ve) && mem[ve] == SOH && |FieldText(f)| == ve + 1 - i
            && mem[i..vb - 1] == Decimal(f.tag) && mem[vb..ve] == f.value
  {
    var tag := Decimal(f.tag);
    FieldParts(f);
    hide FieldText, Decimal, Scan;
    SplitStart(mem, i, tag, "=" + (f.value + [SOH]));
    FirstChar(mem, i + |tag|, "=" + (f.value + [SOH]));
    assert ("=" + (f.value + [SOH]))[1..] == f.value + [SOH];
    SplitStart(mem, i + |tag| + 1, f.value, [SOH]);
    FirstChar(mem, i + |tag| + 1 + |f.value|, [SOH]);
    ScanTag(mem, i, tag);
    EqualsAt(mem, i + |tag|);
    ScanValue(mem, i + |tag| + 1, f.value, i + |tag| + 1);
  }

  lemma EqualsAt(mem: string, i: nat)
    requires i < |mem| && mem[i] == '='
    ensures Scan(mem, i, -1) == Scan(mem, i + 1, i + 1)
  {
  }

  lemma FieldParts(f: Field)
    ensures FieldText(f) == Decimal(f.tag) + ("=" + (f.value + [SOH]))
  {
  }

  /** The pieces of a finished message lie one after the other. */
  lemma SealedAt(mem: string, at: nat, head: string, body: string)
    requires StartsAt(mem, at, Sealed(head, body))
    ensures var l := LengthField(body); var check := CheckField(WrittenCheckSum(head + l + body));
            var p := at + |head| + |l|;
            && StartsAt(mem, at, head) && StartsAt(mem, at + |head|, l) && StartsAt(mem, p, body)
            && StartsAt(mem, p + |body|, check) && StartsAt(mem, p, body + check)
            && |Sealed(head, body)| == |head| + |l| + |body| + |check|
  {
    var l := LengthField(body);
    var check := CheckField(WrittenCheckSum(head + l + body));
    hide LengthField, CheckField, WrittenCheckSum;
    assert Sealed(head, body) == head + (l + (body + check));
    SplitStart(mem, at, head, l + (body + check));
    SplitStart(mem, at + |head|, l, body + check);
    SplitStart(mem, at + |head| + |l|, body, check);
  }

  lemma PaddedClean(n: int)
    ensures Clean(Field(CheckSum, Padded(n, 3))) && CheckField(n) == FieldText(Field(CheckSum, Padded(n, 3)))
  {
    FoldZeros(Digits(if n < 0 then -n else n), 3);
    FoldZeros(Digits(if n < 0 then -n else n), 2);
  }

  lemma DecimalClean(n: int)
    ensures Clean(Field(BodyLength, Decimal(n)))
  {
  }

  /** A message starts with BeginString, and its first body field is MsgType. */
  predicate WellFormed(head: Field, fields: seq<Field>) {
    && head.tag == BeginString && Clean(head) && AllClean(fields)
    && fields != [] && fields[0].tag == MsgType
  }

  /** A written message has been taken in: type, checksum, extent, and the fields after MsgType in order. */
  ghost predicate Accepted(mem: string, at: nat, head: Field, fields: seq<Field>, m: Msg)
    requires fields != []
  {
    var text := FieldText(head) + LengthField(BodyText(fields)) + BodyText(fields);
    && m.valid
    && m.kind == (fields[0].value + [SOH])[0]
    && m.checksum == TrueCheckSum(text)
    && m.end == at + |Sealed(FieldText(head), BodyText(fields))|
    && m.endIt.tag == CheckSum && m.endIt.begin == m.end && ValueAt(mem, m.endIt) == Padded(WrittenCheckSum(text), 3)
    && Yields(mem, m.beginIt, m.endIt.begin, fields[1..])
    && m.beginIt.tag == (if |fields| == 1 then CheckSum else fields[1].tag)
  }

  /** Iterating from position q over written fields yields them, and stops at the trailer. */
  lemma {:induction false} IterationReads(mem: string, c: Cursor, rest: seq<Field>, trailer: Field)
    requires Terminated(mem) && c.begin >= 0 && AllClean(rest) && Clean(trailer)
    requires StartsAt(mem, c.begin, BodyText(rest) + FieldText(trailer))
    ensures var stop := c.begin + |BodyText(rest)| + |FieldText(trailer)|;
            && c.begin < |mem| && Yields(mem, Advance(mem, c), stop, rest)
            && Advance(mem, c).tag == if rest == [] then trailer.tag else rest[0].tag
    decreases |rest|
  {
    var t := FieldText(trailer);
    var stop := c.begin + |BodyText(rest)| + |t|;
    hide FieldText, Advance, StartsAt, ValueAt, Clean;
    if rest == [] {
      assert BodyText(rest) + t == t;
      AdvanceReads(mem, c, trailer);
    } else {
      var f := rest[0];
      assert f in rest && forall g :: g in rest[1..] ==> g in rest;
      Assoc(FieldText(f), BodyText(rest[1..]), t);
      SplitStart(mem, c.begin, FieldText(f), BodyText(rest[1..]) + t);
      AdvanceReads(mem, c, f);
      NotEmpty(trailer);
      IterationReads(mem, Advance(mem, c), rest[1..], trailer);
      assert rest == [f] + rest[1..];
    }
  }

  lemma NotEmpty(f: Field)
    ensures FieldText(f) != ""
  {
  }

  /** BodyLength is read back. */
  lemma LengthReads(mem: string, c: Cursor, body: string)
    requires Terminated(mem) && c.begin >= 0 && StartsAt(mem, c.begin, LengthField(body))
    ensures c.begin < |mem|
    ensures var r := Advance(mem, c);
            && r.tag == BodyLength && r.begin == c.begin + |LengthField(body)| && r.valEnd == r.begin - 1
            && 0 <= r.valBegin && StdAtoi(mem, r.valBegin) == |body|
  {
    DecimalClean(|body|);
    assert LengthField(body) == FieldText(Field(BodyLength, Decimal(|body|)));
    hide LengthField, FieldText, Decimal, Advance, StartsAt, StdAtoi, ValueAt, Clean;
    AdvanceReads(mem, c, Field(BodyLength, Decimal(|body|)));
    var r := Advance(mem, c);
    ValueStarts(mem, r, Decimal(|body|));
    StdAtoiDecimal(mem, r.valBegin, |body|);
  }

  lemma ValueStarts(mem: string, r: Cursor, value: string)
    requires 0 <= r.valBegin <= r.valEnd < |mem| && ValueAt(mem, r) == value
    ensures StartsAt(mem, r.valBegin, value) && r.valEnd == r.valBegin + |value|
  {
  }

  /** The checksum that is read back is the standard's, whatever the sign of what was written. */
  lemma CheckReads(mem: string, c: Cursor, text: string)
    requires Terminated(mem) && c.begin >= 0 && IsText(text) && StartsAt(mem, c.begin, CheckField(WrittenCheckSum(text)))
    ensures c.begin < |mem|
    ensures var r := Advance(mem, c); var n := WrittenCheckSum(text);
            && r.tag == CheckSum && r.begin == c.begin + |CheckField(n)| && r.valEnd == r.begin - 1 && 0 <= r.valBegin
            && ValueAt(mem, r) == Padded(n, 3) && StdAtoi(mem, r.valBegin) % 256 == TrueCheckSum(text)
  {
    hide WrittenCheckSum, Advance, CheckField, StartsAt, StdAtoi, Padded, FieldText, ValueAt, Clean, IsText, Wrap32, SignedSum;
    var n := WrittenCheckSum(text);
    PaddedClean(n);
    AdvanceReads(mem, c, Field(CheckSum, Padded(n, 3)));
    var r := Advance(mem, c);
    ValueStarts(mem, r, Padded(n, 3));
    StdAtoiPadded(mem, r.valBegin, n, 3);
    CheckSumExact(text);
    SameModulo(n, TrueCheckSum(text));
  }

  lemma SameModulo(n: int, t: int)
    requires (n - t) % 256 == 0 && 0 <= t < 256
    ensures n % 256 == t
  {
    DividesAs(n, (n - t) / 256, t);
  }

  /**
   Round trip: init accepts every message the writer finishes, anywhere in memory and whatever follows it, with its
   type and checksum; iteration then yields exactly the fields after MsgType, in order and without the trailer.
   */
  lemma Reads(mem: string, at: nat, head: Field, fields: seq<Field>, m: Msg)
    requires Terminated(mem) && WellFormed(head, fields)
    requires IsText(FieldText(head) + LengthField(BodyText(fields)) + BodyText(fields))
    requires StartsAt(mem, at, Sealed(FieldText(head), BodyText(fields)))
    ensures InitOf(mem, at, m).Some? && Accepted(mem, at, head, fields, InitOf(mem, at, m).value)
  {
    hide FieldText, BodyText, LengthField, CheckField, WrittenCheckSum, TrueCheckSum, Sealed, Advance, Yields, ValueAt, Padded, IsText, StartsAt, InitOf, Terminated, Clean, Accepted;
    var h, l, body := FieldText(head), LengthField(BodyText(fields)), BodyText(fields);
    var text := h + l + body;
    BodySplits(fields);
    SealedAt(mem, at, h, body);
    var b3, e := InitReads(mem, at, m, head, body, fields[0], fields[1..], text,
                           at + |h|, at + |h| + |l|, at + |text|, at + |Sealed(h, body)|);
    AcceptedHolds(mem, at, head, fields, InitOf(mem, at, m).value);
  }

  lemma BodySplits(fields: seq<Field>)
    requires fields != [] && AllClean(fields)
    ensures BodyText(fields) == FieldText(fields[0]) + BodyText(fields[1..]) && |BodyText(fields)| > 0
    ensures Clean(fields[0]) && AllClean(fields[1..])
  {
    NotEmpty(fields[0]);
    assert fields[0] in fields && forall g :: g in fields[1..] ==> g in fields;
    hide FieldText;
  }

  lemma AcceptedHolds(mem: string, at: nat, head: Field, fields: seq<Field>, m: Msg)
    requires fields != []
    requires var text := FieldText(head) + LengthField(BodyText(fields)) + BodyText(fields);
             && m.valid && m.kind == (fields[0].value + [SOH])[0] && m.checksum == TrueCheckSum(text)
             && m.end == at + |Sealed(FieldText(head), BodyText(fields))|
             && m.endIt.tag == CheckSum && m.endIt.begin == m.end && ValueAt(mem, m.endIt) == Padded(WrittenCheckSum(text), 3)
    requires Yields(mem, m.beginIt, m.endIt.begin, fields[1..])
    requires m.beginIt.tag == if |fields| == 1 then CheckSum else fields[1].tag
    ensures Accepted(mem, at, head, fields, m)
  {
    hide FieldText, BodyText, LengthField, WrittenCheckSum, TrueCheckSum, Sealed, Yields, ValueAt, Padded;
  }

  /** init, given where the pieces of the message are: BodyLength at p1, the body at p2, the trailer from p3 to p4. */
  lemma InitReads(mem: string, at: nat, m: Msg, head: Field, body: string, f: Field, rest: seq<Field>, text: string,
                  p1: nat, p2: nat, p3: nat, p4: nat) returns (b3: Cursor, e: Cursor)
    requires Terminated(mem) && IsText(text) && Clean(head) && Clean(f) && AllClean(rest)
    requires head.tag == BeginString && f.tag == MsgType && |body| > 0
    requires StartsAt(mem, at, FieldText(head)) && p1 == at + |FieldText(head)|
    requires StartsAt(mem, p1, LengthField(body)) && p2 == p1 + |LengthField(body)| && p3 == p2 + |body|
    requires StartsAt(mem, p3, CheckField(WrittenCheckSum(text))) && p4 == p3 + |CheckField(WrittenCheckSum(text))|
    requires body == FieldText(f) + BodyText(rest) && StartsAt(mem, p2, body + CheckField(WrittenCheckSum(text)))
    ensures 0 <= b3.begin < |mem| && 0 <= b3.valBegin < |mem| && mem[b3.valBegin] == (f.value + [SOH])[0]
    ensures e.tag == CheckSum && e.begin == p4 && e.valEnd == p4 - 1 && ValueAt(mem, e) == Padded(WrittenCheckSum(text), 3)
    ensures Yields(mem, Advance(mem, b3), p4, rest) && Advance(mem, b3).tag == if rest == [] then CheckSum else rest[0].tag
    ensures InitOf(mem, at, m) ==
              Some(Msg(Advance(mem, b3), e, p4, TrueCheckSum(text), (f.value + [SOH])[0], true))
  {
    PaddedClean(WrittenCheckSum(text));
    hide FieldText, BodyText, LengthField, CheckField, WrittenCheckSum, TrueCheckSum, StdAtoi, Advance, Yields, ValueAt, Padded, IsText, StartsAt, InitOf, Terminated, Clean, AllClean;
    AdvanceReads(mem, m.beginIt.(begin := at), head);
    var b1 := Advance(mem, m.beginIt.(begin := at));
    LengthReads(mem, b1, body);
    var b2 := Advance(mem, b1);
    CheckReads(mem, m.endIt.(begin := p3), text);
    e := Advance(mem, m.endIt.(begin := p3));
    b3 := BodyReads(mem, b2, f, rest, Field(CheckSum, Padded(WrittenCheckSum(text), 3)));
    KindRead(mem, b3, f.value);
    InitSteps(mem, at, m, b1, b2, e, b3);
  }

  /** From behind BodyLength: the first field is read, and iteration goes on from there to the trailer. */
  lemma BodyReads(mem: string, c: Cursor, f: Field, rest: seq<Field>, trailer: Field) returns (r: Cursor)
    requires Terminated(mem) && c.begin >= 0 && AllClean(rest) && Clean(f) && Clean(trailer)
    requires StartsAt(mem, c.begin, FieldText(f) + BodyText(rest) + FieldText(trailer))
    ensures c.begin < |mem| && r == Advance(mem, c) && r.tag == f.tag
    ensures 0 < r.valBegin <= r.valEnd < |mem| && mem[r.valEnd] == SOH && ValueAt(mem, r) == f.value
    ensures 0 <= r.begin < |mem|
    ensures Yields(mem, Advance(mem, r), c.begin + |FieldText(f)| + |BodyText(rest)| + |FieldText(trailer)|, rest)
    ensures Advance(mem, r).tag == if rest == [] then trailer.tag else rest[0].tag
  {
    hide FieldText, BodyText, Advance, Yields, ValueAt, StartsAt, Clean, AllClean, Terminated;
    Assoc(FieldText(f), BodyText(rest), FieldText(trailer));
    SplitStart(mem, c.begin, FieldText(f), BodyText(rest) + FieldText(trailer));
    AdvanceReads(mem, c, f);
    r := Advance(mem, c);
    IterationReads(mem, r, rest, trailer);
  }

  /** init when every step succeeds. */
  lemma InitSteps(mem: string, at: nat, m: Msg, b1: Cursor, b2: Cursor, e: Cursor, b3: Cursor)
    requires at < |mem| && b1 == Advance(mem, m.beginIt.(begin := at)) && b1.tag == BeginString
    requires InMemory(mem, b1.begin) && b2 == Advance(mem, b1) && b2.tag == BodyLength && b2.valBegin >= 0
    requires var len := StdAtoi(mem, b2.valBegin);
             len != 0 && InMemory(mem, b2.valEnd + len + 1) && e == Advance(mem, m.endIt.(begin := b2.valEnd + len + 1))
    requires e.tag == CheckSum && e.begin >= 0 && e.valBegin >= 0
    requires InMemory(mem, b2.begin) && b3 == Advance(mem, b2) && b3.tag == MsgType && InMemory(mem, b3.begin) && 0 <= b3.valBegin < |mem|
    ensures InitOf(mem, at, m) ==
              Some(Msg(Advance(mem, b3), e, e.valEnd + 1, StdAtoi(mem, e.valBegin) % 256, mem[b3.valBegin], true))
  {
    hide InitOf, AfterBegin, AfterLength, AfterTrailer, StdAtoi, Advance;
    var m1, m2 := m.(beginIt := b1), m.(beginIt := b2);
    var m3 := m2.(endIt := e, end := e.valEnd + 1, checksum := StdAtoi(mem, e.valBegin) % 256);
    StepBegin(mem, at, m, b1);
    StepLength(mem, m1, b2);
    StepTrailer(mem, m2, b2.valEnd + StdAtoi(mem, b2.valBegin) + 1, e);
    StepType(mem, m3, b3);
  }

  lemma StepBegin(mem: string, at: nat, m: Msg, b: Cursor)
    requires at < |mem| && b == Advance(mem, m.beginIt.(begin := at)) && b.tag == BeginString && InMemory(mem, b.begin)
    ensures InitOf(mem, at, m) == AfterBegin(mem, m.(beginIt := b))
  {
    hide AfterBegin, Advance;
  }

  lemma StepLength(mem: string, m: Msg, b: Cursor)
    requires m.beginIt.tag == BeginString && InMemory(mem, m.beginIt.begin) && b == Advance(mem, m.beginIt) && b.tag == BodyLength
    requires b.valBegin >= 0 && StdAtoi(mem, b.valBegin) != 0 && InMemory(mem, b.valEnd + StdAtoi(mem, b.valBegin) + 1)
    ensures AfterBegin(mem, m) == AfterLength(mem, m.(beginIt := b), b.valEnd + StdAtoi(mem, b.valBegin) + 1)
  {
    hide AfterLength, Advance, StdAtoi;
  }

  lemma StepTrailer(mem: string, m: Msg, trailer: nat, e: Cursor)
    requires InMemory(mem, trailer) && e == Advance(mem, m.endIt.(begin := trailer)) && e.tag == CheckSum && e.begin >= 0 && e.valBegin >= 0
    ensures AfterLength(mem, m, trailer) ==
              AfterTrailer(mem, m.(endIt := e, end := e.valEnd + 1, checksum := StdAtoi(mem, e.valBegin) % 256))
  {
    hide AfterTrailer, Advance, StdAtoi;
  }

  lemma StepType(mem: string, m: Msg, b: Cursor)
    requires InMemory(mem, m.beginIt.begin) && b == Advance(mem, m.beginIt) && b.tag == MsgType
    requires InMemory(mem, b.begin) && 0 <= b.valBegin < |mem|
    ensures AfterTrailer(mem, m) == Some(m.(beginIt := Advance(mem, b), kind := mem[b.valBegin], valid := true))
  {
    hide Advance;
  }

  lemma KindRead(mem: string, r: Cursor, value: string)
    requires 0 <= r.valBegin <= r.valEnd < |mem| && ValueAt(mem, r) == value && mem[r.valEnd] == SOH
    ensures mem[r.valBegin] == (value + [SOH])[0]
  {
    ValueStarts(mem, r, value);
    if value != "" { FirstChar(mem, r.valBegin, value); }
  }

  // ---- searching

  function IndexOf(fields: seq<Field>, tag: int): (k: nat)
    ensures k <= |fields| && (k < |fields| ==> fields[k].tag == tag)
    ensures forall j :: 0 <= j < k ==> fields[j].tag != tag
  {
    if fields == [] || fields[0].tag == tag then 0 else 1 + IndexOf(fields[1..], tag)
  }

  /** find returns the first listed field with the tag, or the end. */
  lemma {:induction false} FindsFirst(mem: string, c: Cursor, end: Cursor, tag: int, fields: seq<Field>)
    requires Yields(mem, c, end.begin, fields)
    ensures var k := IndexOf(fields, tag); var r := FirstWith(mem, c, end, tag);
            if k == |fields| then r == end
            else r.begin != end.begin && r.tag == tag && ValueAt(mem, r) == fields[k].value
    decreases |mem| - c.begin
  {
    if c.begin != end.begin && c.tag != tag {
      assert fields[1..] == Listed(mem, Advance(mem, c), end.begin);
      FindsFirst(mem, Advance(mem, c), end, tag, fields[1..]);
    }
  }
}
