/**
 The handler that splits one read into messages and pushes one queue entry for each.

 The read is the first `len` bytes of memory; what follows is left over from earlier reads. A handler call need
 not end, so it is followed for a given number of loop turns.
 */
module FixHandler {
  import opened Options
  import opened Strings
  import opened DecimalText
  import opened FixText
  import opened FixWriter
  import opened FixParser
  import P = BufferProtocol

  /** fix_msg_t, without the time stamp and the buffer address, which are the same for all entries of a read. */
  datatype Entry = Entry(kind: char, checksum: nat, final: bool)

  datatype Verdict =
    | Returned(release: bool)     // what the handler tells the poll loop
    | Faulted                     // a null pointer was used or memory left
    | Running(m: Msg)             // still looping

  /** With the stretch of memory each entry stands for. */
  datatype Outcome = Outcome(verdict: Verdict, entries: seq<Entry>, spans: seq<(int, int)>)

  function EntryOf(m: Msg, len: nat): Entry {
    Entry(m.kind, m.checksum, len - m.end == 0)
  }

  /** The loop over the messages after the first. */
  function Turns(mem: string, len: nat, m: Msg, turns: nat): Outcome
    decreases turns
  {
    if m.end >= len then Outcome(Returned(false), [], [])
    else if turns == 0 then Outcome(Running(m), [], [])
    else
      var next := InitOf(mem, m.end, m);
      if next.None? then Outcome(Faulted, [], [])
      else if !next.value.valid then Outcome(Returned(true), [], [])
      else
        var rest := Turns(mem, len, next.value, turns - 1);
        Outcome(rest.verdict, [EntryOf(next.value, len)] + rest.entries, [(m.end, next.value.end)] + rest.spans)
  }

  /** A handler call on a message object in state m. */
  function Handled(mem: string, len: nat, m: Msg, turns: nat): Outcome {
    var first := InitOf(mem, 0, m);
    if first.None? then Outcome(Faulted, [], [])
    else if !first.value.valid then Outcome(Returned(true), [], [])
    else
      var rest := Turns(mem, len, first.value, turns);
      Outcome(rest.verdict, [EntryOf(first.value, len)] + rest.entries, [(0, first.value.end)] + rest.spans)
  }

  class Handler {
    var inQueue: seq<Entry>

    constructor ()
      ensures inQueue == []
    {
      inQueue := [];
    }

    /** operator(); m is the new message object, whose iterators hold arbitrary values. */
    method Handle(mem: string, len: nat, turns: nat) returns (v: Verdict, ghost m: Msg)
      requires Terminated(mem)
      modifies this
      ensures !m.valid && v == Handled(mem, len, m, turns).verdict
      ensures inQueue == old(inQueue) + Handled(mem, len, m, turns).entries
    {
      hide InitOf, Turns;
      var msg := new Message();
      m := msg.M();
      ghost var all := Handled(mem, len, m, turns);
      var ok := msg.Init(mem, 0);
      if !ok { return Faulted, m; }
      if !msg.valid { return Returned(true), m; }
      var loss := len - msg.end;
      inQueue := inQueue + [Entry(msg.kind, msg.checksum, loss == 0)];
      Append(old(inQueue), EntryOf(msg.M(), len), Turns(mem, len, msg.M(), turns).entries);
      if loss > 0 {
        var left := turns;
        while msg.end < len
          invariant fresh(msg) && fresh(msg.beginIt) && fresh(msg.endIt) && msg.beginIt != msg.endIt && msg.valid
          invariant all.verdict == Turns(mem, len, msg.M(), left).verdict
          invariant old(inQueue) + all.entries == inQueue + Turns(mem, len, msg.M(), left).entries
          decreases left
        {
          TurnSteps(mem, len, msg.M(), left);
          if left == 0 { return Running(msg.M()), m; }
          left := left - 1;
          ghost var q := inQueue;
          ok := msg.Init(mem, msg.end);
          if !ok { return Faulted, m; }
          if !msg.valid { return Returned(true), m; }
          loss := len - msg.end;
          inQueue := inQueue + [Entry(msg.kind, msg.checksum, loss == 0)];
          Append(q, EntryOf(msg.M(), len), Turns(mem, len, msg.M(), left).entries);
        }
        TurnSteps(mem, len, msg.M(), left);
      } else {
        TurnSteps(mem, len, msg.M(), turns);
      }
      v := Returned(false);
    }
  }

  lemma Append(q: seq<Entry>, e: Entry, rest: seq<Entry>)
    ensures q + ([e] + rest) == (q + [e]) + rest
  {
  }

  /** The loop, one turn at a time. */
  lemma TurnSteps(mem: string, len: nat, m: Msg, turns: nat)
    ensures m.end >= len ==> Turns(mem, len, m, turns) == Outcome(Returned(false), [], [])
    ensures m.end < len && turns == 0 ==> Turns(mem, len, m, turns) == Outcome(Running(m), [], [])
    ensures m.end < len && turns > 0 ==>
              var next := InitOf(mem, m.end, m);
              && (next.None? ==> Turns(mem, len, m, turns) == Outcome(Faulted, [], []))
              && (next.Some? && !next.value.valid ==> Turns(mem, len, m, turns) == Outcome(Returned(true), [], []))
              && (next.Some? && next.value.valid ==>
                    var rest := Turns(mem, len, next.value, turns - 1);
                    Turns(mem, len, m, turns) == Outcome(rest.verdict, [EntryOf(next.value, len)] + rest.entries, [(m.end, next.value.end)] + rest.spans))
  {
  }

  // ---- reads that hold whole messages

  datatype Written = Written(head: Field, fields: seq<Field>)

  function TextOf(w: Written): string {
    Sealed(FieldText(w.head), BodyText(w.fields))
  }

  /** What the checksum covers. */
  function Covered(w: Written): string {
    FieldText(w.head) + LengthField(BodyText(w.fields)) + BodyText(w.fields)
  }

  predicate Good(w: Written) {
    WellFormed(w.head, w.fields) && IsText(Covered(w))
  }

  function AllText(ws: seq<Written>): string {
    if ws == [] then "" else TextOf(ws[0]) + AllText(ws[1..])
  }

  predicate AllGood(ws: seq<Written>) {
    forall w :: w in ws ==> Good(w)
  }

  lemma GoodSplit(ws: seq<Written>)
    requires AllGood(ws) && ws != []
    ensures Good(ws[0]) && AllGood(ws[1..])
  {
    assert ws[0] in ws && forall v :: v in ws[1..] ==> v in ws;
  }

  /** A message's type, as the first character of its MsgType field. */
  function KindOf(w: Written): char {
    if w.fields == [] then NUL else (w.fields[0].value + [SOH])[0]
  }

  /** One entry per message, the last one final. */
  function Expected(ws: seq<Written>): seq<Entry> {
    if ws == [] then []
    else [Entry(KindOf(ws[0]), TrueCheckSum(Covered(ws[0])), |ws| == 1)] + Expected(ws[1..])
  }

  /** Consecutive stretches from `at` on, one per message. */
  function Tiles(ws: seq<Written>, at: nat): seq<(int, int)> {
    if ws == [] then [] else [(at, at + |TextOf(ws[0])|)] + Tiles(ws[1..], at + |TextOf(ws[0])|)
  }

  /** The message object after reading w up to `end`; its first iterator is past MsgType. */
  predicate Took(r: Msg, w: Written, end: int) {
    && r.valid && r.end == end && r.kind == KindOf(w) && r.checksum == TrueCheckSum(Covered(w))
    && r.beginIt.tag == if |w.fields| <= 1 then CheckSum else w.fields[1].tag
  }

  lemma ReadsOne(mem: string, at: nat, w: Written, m: Msg)
    requires Terminated(mem) && Good(w) && StartsAt(mem, at, TextOf(w))
    ensures InitOf(mem, at, m).Some? && Took(InitOf(mem, at, m).value, w, at + |TextOf(w)|)
  {
    Reads(mem, at, w.head, w.fields, m);
    hide InitOf, FieldText, Yields, Padded;
  }

  lemma TextNotEmpty(w: Written)
    ensures TextOf(w) != ""
  {
    NotEmpty(w.head);
    hide FieldText;
  }

  /** The loop over whole messages: one turn each, ending with the read. */
  lemma {:induction false} TurnsWhole(mem: string, len: nat, m: Msg, ws: seq<Written>, turns: nat)
    requires Terminated(mem) && AllGood(ws) && m.end >= 0
    requires StartsAt(mem, m.end, AllText(ws)) && len == m.end + |AllText(ws)| && turns >= |ws|
    ensures Turns(mem, len, m, turns) == Outcome(Returned(false), Expected(ws), Tiles(ws, m.end))
    decreases |ws|
  {
    TurnSteps(mem, len, m, turns);
    hide InitOf, Turns, TextOf, Covered, TrueCheckSum, Good, AllGood, StartsAt, KindOf, Terminated;
    if ws != [] {
      var next := ReadsFirst(mem, m.end, m, ws, len);
      RestStands(mem, m.end, ws, next.end);
      TurnsWhole(mem, len, next, ws[1..], turns - 1);
    }
  }

  /** The first of the messages at `at` is read; the rest follow where it ends. */
  lemma ReadsFirst(mem: string, at: nat, m: Msg, ws: seq<Written>, len: nat) returns (next: Msg)
    requires Terminated(mem) && AllGood(ws) && ws != [] && StartsAt(mem, at, AllText(ws)) && len == at + |AllText(ws)|
    ensures InitOf(mem, at, m) == Some(next) && next.valid && next.end == at + |TextOf(ws[0])| && at < len
    ensures EntryOf(next, len) == Entry(KindOf(ws[0]), TrueCheckSum(Covered(ws[0])), |ws| == 1)
  {
    hide InitOf, TextOf, AllText, Covered, TrueCheckSum, Good, AllGood, StartsAt, KindOf, Terminated, Took, EntryOf;
    AllTextSplit(ws);
    GoodSplit(ws);
    SplitStart(mem, at, TextOf(ws[0]), AllText(ws[1..]));
    ReadsOne(mem, at, ws[0], m);
    next := InitOf(mem, at, m).value;
    TookFacts(next, ws[0], at + |TextOf(ws[0])|, len);
  }

  /** The messages after the first stand where it ends. */
  lemma RestStands(mem: string, at: nat, ws: seq<Written>, p: nat)
    requires AllGood(ws) && ws != [] && StartsAt(mem, at, AllText(ws)) && p == at + |TextOf(ws[0])|
    ensures AllGood(ws[1..]) && StartsAt(mem, p, AllText(ws[1..])) && at + |AllText(ws)| == p + |AllText(ws[1..])|
  {
    hide TextOf, AllText, Good, AllGood, StartsAt;
    AllTextSplit(ws);
    GoodSplit(ws);
    SplitStart(mem, at, TextOf(ws[0]), AllText(ws[1..]));
  }

  lemma TookFacts(r: Msg, w: Written, end: int, len: nat)
    requires Took(r, w, end)
    ensures r.valid && r.end == end && EntryOf(r, len) == Entry(KindOf(w), TrueCheckSum(Covered(w)), end == len)
  {
  }

  lemma AllTextSplit(ws: seq<Written>)
    requires ws != []
    ensures AllText(ws) == TextOf(ws[0]) + AllText(ws[1..]) && |TextOf(ws[0])| > 0
    ensures |AllText(ws[1..])| == 0 <==> |ws| == 1
  {
    TextNotEmpty(ws[0]);
    if |ws| > 1 { AllTextNotEmpty(ws[1..]); }
  }

  lemma AllTextNotEmpty(ws: seq<Written>)
    requires ws != []
    ensures AllText(ws) != ""
  {
    TextNotEmpty(ws[0]);
    hide TextOf;
  }

  /**
   A read that is a concatenation of n >= 1 whole messages: the handler needs n - 1 loop turns, pushes exactly n
   entries with the messages' types and checksums, the last one final, whose stretches tile the read, and keeps the buffer.
   */
  lemma WholeMessages(mem: string, m: Msg, ws: seq<Written>, turns: nat)
    requires Terminated(mem) && ws != [] && AllGood(ws) && turns >= |ws| - 1
    requires StartsAt(mem, 0, AllText(ws))
    ensures Handled(mem, |AllText(ws)|, m, turns) == Outcome(Returned(false), Expected(ws), Tiles(ws, 0))
  {
    hide InitOf, Turns, TextOf, Covered, TrueCheckSum, Good, AllGood, StartsAt, KindOf, Terminated;
    var len := |AllText(ws)|;
    var first := ReadsFirst(mem, 0, m, ws, len);
    RestStands(mem, 0, ws, first.end);
    TurnsWhole(mem, len, first, ws[1..], turns);
  }

  // ---- what else can happen

  /** A handler that asks for the buffer back has pushed nothing: `valid` is never reset. */
  lemma ReleaseMeansNothingPushed(mem: string, len: nat, m: Msg, turns: nat)
    requires Handled(mem, len, m, turns).verdict == Returned(true)
    ensures Handled(mem, len, m, turns).entries == []
    ensures InitOf(mem, 0, m).Some? && !InitOf(mem, 0, m).value.valid
  {
    if InitOf(mem, 0, m).Some? && InitOf(mem, 0, m).value.valid { NeverReleases(mem, len, InitOf(mem, 0, m).value, turns); }
  }

  lemma StaysValid(mem: string, at: int, m: Msg)
    requires InitOf(mem, at, m).Some? && m.valid
    ensures InitOf(mem, at, m).value.valid
  {
  }

  lemma {:induction false} NeverReleases(mem: string, len: nat, m: Msg, turns: nat)
    requires m.valid
    ensures Turns(mem, len, m, turns).verdict != Returned(true)
    decreases turns
  {
    if m.end < len && turns > 0 && InitOf(mem, m.end, m).Some? {
      StaysValid(mem, m.end, m);
      NeverReleases(mem, len, InitOf(mem, m.end, m).value, turns - 1);
    }
  }

  /** Only the last entry can be final. */
  predicate FinalLast(entries: seq<Entry>, final: bool) {
    && entries != [] && entries[|entries| - 1].final == final
    && forall i :: 0 <= i < |entries| - 1 ==> !entries[i].final
  }

  /**
   When the handler keeps the buffer, only its last entry can be final, and it is exactly when the last message
   ends with the read; a message that runs past the end leaves the buffer with nobody.
   */
  lemma KeepsFinalLast(mem: string, len: nat, m: Msg, turns: nat)
    requires Handled(mem, len, m, turns).verdict == Returned(false)
    ensures var o := Handled(mem, len, m, turns);
            |o.spans| == |o.entries| > 0 && o.spans[|o.spans| - 1].1 >= len
            && FinalLast(o.entries, o.spans[|o.spans| - 1].1 == len)
  {
    hide InitOf;
    TurnsFinalLast(mem, len, InitOf(mem, 0, m).value, turns);
  }

  lemma {:induction false} TurnsFinalLast(mem: string, len: nat, m: Msg, turns: nat)
    requires Turns(mem, len, m, turns).verdict == Returned(false)
    ensures var o := Turns(mem, len, m, turns);
            |o.spans| == |o.entries|
            && (m.end >= len ==> o.entries == [])
            && (m.end < len ==> o.entries != [] && o.spans[|o.spans| - 1].1 >= len && FinalLast(o.entries, o.spans[|o.spans| - 1].1 == len))
    decreases turns
  {
    hide InitOf;
    if m.end < len {
      var next := InitOf(mem, m.end, m).value;
      TurnsFinalLast(mem, len, next, turns - 1);
    }
  }

  /** init looks only at the memory from its position, apart from tags it keeps when it finds no field. */
  lemma InitTwice(mem: string, at: int, m: Msg)
    requires InitOf(mem, at, m).Some?
    ensures InitOf(mem, at, InitOf(mem, at, m).value) == InitOf(mem, at, m)
  {
    var b := Advance(mem, m.beginIt.(begin := at));
    if b.tag == BeginString && InMemory(mem, b.begin) { LengthTwice(mem, m.(beginIt := b), InitOf(mem, at, m).value); }
    hide AfterBegin;
  }

  /** The later stages do not depend on what they themselves store, nor on the field they found last. */
  lemma LengthTwice(mem: string, m: Msg, r: Msg)
    requires m.beginIt.tag == BeginString && InMemory(mem, m.beginIt.begin) && AfterBegin(mem, m) == Some(r)
    ensures AfterBegin(mem, r.(beginIt := m.beginIt)) == Some(r)
  {
    var b := Advance(mem, m.beginIt);
    if b.tag == BodyLength {
      var len := StdAtoi(mem, b.valBegin);
      if len != 0 && InMemory(mem, b.valEnd + len + 1) { TrailerTwice(mem, m.(beginIt := b), b.valEnd + len + 1, r); }
    }
    hide AfterLength, StdAtoi, Advance;
  }

  lemma TrailerTwice(mem: string, m: Msg, trailer: nat, r: Msg)
    requires InMemory(mem, trailer) && AfterLength(mem, m, trailer) == Some(r)
    ensures AfterLength(mem, r.(beginIt := m.beginIt), trailer) == Some(r)
  {
    hide StdAtoi;
  }

  /** A turn that does not move on is repeated for ever: no number of turns lets the handler return. */
  lemma {:induction false} NoProgressNoReturn(mem: string, len: nat, m: Msg, turns: nat)
    requires m.valid && m.end < len && InitOf(mem, m.end, m).Some? && InitOf(mem, m.end, m).value.end == m.end
    ensures Turns(mem, len, m, turns).verdict.Running? && |Turns(mem, len, m, turns).entries| == turns
    decreases turns
  {
    if turns > 0 {
      InitTwice(mem, m.end, m);
      StaysValid(mem, m.end, m);
      hide InitOf;
      NoProgressNoReturn(mem, len, InitOf(mem, m.end, m).value, turns - 1);
    }
  }

  // ---- the handler as the buffer protocol sees it

  /** consume_fix_msg's distinctions. */
  function KindClass(kind: char): P.Kind {
    if kind == '0' || kind == '1' then P.Heartbeat else if kind == 'A' then P.Logon else P.Other
  }

  function Kinds(entries: seq<Entry>): seq<P.Kind> {
    seq(|entries|, i requires 0 <= i < |entries| => KindClass(entries[i].kind))
  }

  function AsQueued(entries: seq<Entry>, b: nat): seq<P.Entry> {
    seq(|entries|, i requires 0 <= i < |entries| => P.Entry(KindClass(entries[i].kind), b, entries[i].final))
  }

  /** The protocol's description of a handler call that returned. */
  function Described(o: Outcome): P.Outcome {
    if o.entries == [] then P.Invalid
    else if o.entries[|o.entries| - 1].final then P.Whole(Kinds(o.entries))
    else P.Overrun(Kinds(o.entries))
  }

  /** All the entries the protocol's handler pushes. */
  function Pushes(b: nat, o: P.Outcome): seq<P.Entry>
    requires P.ValidOutcome(o) && !o.Endless?
    decreases match o case Whole(k) => |k| case Overrun(k) => |k| case _ => 0
  {
    if o.Invalid? then []
    else
      var (e, left) := P.NextEntry(b, o);
      [e] + Pushes(b, left)
  }

  lemma {:induction false} PushesAreQueued(b: nat, entries: seq<Entry>)
    requires entries != [] && FinalLast(entries, entries[|entries| - 1].final)
    ensures var o := if entries[|entries| - 1].final then P.Whole(Kinds(entries)) else P.Overrun(Kinds(entries));
            Pushes(b, o) == AsQueued(entries, b)
    decreases |entries|
  {
    var e, rest := entries[0], entries[1..];
    assert AsQueued(entries, b) == [P.Entry(KindClass(e.kind), b, e.final)] + AsQueued(rest, b);
    if rest == [] {
      assert AsQueued(rest, b) == [];
    } else {
      assert rest[|rest| - 1] == entries[|entries| - 1];
      assert forall i :: 0 <= i < |rest| - 1 ==> rest[i] == entries[i + 1];
      assert Kinds(entries)[1..] == Kinds(rest);
      PushesAreQueued(b, rest);
    }
  }

  /** Every handler call that returns does what the protocol allows: its buffer is given back only if nothing was pushed. */
  lemma HandlerFollowsProtocol(mem: string, len: nat, m: Msg, turns: nat, b: nat)
    requires Handled(mem, len, m, turns).verdict.Returned?
    ensures var o := Handled(mem, len, m, turns);
            && P.ValidOutcome(Described(o)) && !Described(o).Endless?
            && (Described(o).Invalid? <==> o.verdict == Returned(true))
            && Pushes(b, Described(o)) == AsQueued(o.entries, b)
  {
    var o := Handled(mem, len, m, turns);
    hide InitOf;
    if o.verdict == Returned(true) {
      ReleaseMeansNothingPushed(mem, len, m, turns);
    } else {
      KeepsFinalLast(mem, len, m, turns);
      PushesAreQueued(b, o.entries);
    }
  }

  // ---- and one that does not return

  /** The first n entries of an endless handler call. */
  function FirstPushes(b: nat, o: P.Outcome, n: nat): seq<P.Entry>
    requires o.Endless?
    decreases n
  {
    if n == 0 then []
    else
      var (e, left) := P.NextEntry(b, o);
      [e] + FirstPushes(b, left, n - 1)
  }

  lemma {:induction false} EndlessPushes(b: nat, kindAt: nat -> P.Kind, n: nat)
    ensures |FirstPushes(b, P.Endless(kindAt), n)| == n
    ensures forall i :: 0 <= i < n ==> FirstPushes(b, P.Endless(kindAt), n)[i] == P.Entry(kindAt(i), b, false)
    decreases n
  {
    if n > 0 { EndlessPushes(b, (i: nat) => kindAt(i + 1), n - 1); }
  }

  /** While the loop goes on, each turn pushes one entry that is not final, and what has been pushed stays. */
  lemma {:induction false} RunningEntries(mem: string, len: nat, m: Msg, turns: nat, more: nat)
    requires turns <= more && Turns(mem, len, m, more).verdict.Running?
    ensures var e := Turns(mem, len, m, more).entries;
            && |e| == more && (forall i :: 0 <= i < more ==> !e[i].final)
            && m.end < len && Turns(mem, len, m, turns).entries == e[..turns]
    decreases more
  {
    hide InitOf;
    if more > 0 {
      var next := InitOf(mem, m.end, m).value;
      RunningEntries(mem, len, next, if turns > 0 then turns - 1 else 0, more - 1);
    }
  }

  lemma HandlerEntries(mem: string, len: nat, m: Msg, turns: nat, more: nat)
    requires turns <= more && Handled(mem, len, m, more).verdict.Running?
    ensures var e := Handled(mem, len, m, more).entries;
            && |e| == more + 1 && (forall i :: 0 <= i <= more ==> !e[i].final)
            && Handled(mem, len, m, turns).entries == e[..turns + 1]
  {
    hide InitOf, Turns;
    RunningEntries(mem, len, InitOf(mem, 0, m).value, turns, more);
  }

  /** What a call that never returns pushes, one kind after the other. */
  function KindAt(mem: string, len: nat, m: Msg, i: nat): P.Kind {
    var e := Handled(mem, len, m, i).entries;
    if i < |e| then KindClass(e[i].kind) else P.Other
  }

  /** A handler call that never returns is the protocol's endless outcome: after any number of turns the same entries. */
  lemma StuckHandlerFollowsProtocol(mem: string, len: nat, m: Msg, turns: nat, b: nat)
    requires forall n: nat :: Handled(mem, len, m, n).verdict.Running?
    ensures var o := P.Endless((i: nat) => KindAt(mem, len, m, i));
            && P.ValidOutcome(o) && FirstPushes(b, o, turns + 1) == AsQueued(Handled(mem, len, m, turns).entries, b)
  {
    hide Handled, FirstPushes;
    var kindAt := (i: nat) => KindAt(mem, len, m, i);
    var e := Handled(mem, len, m, turns).entries;
    assert Handled(mem, len, m, turns).verdict.Running?;
    HandlerEntries(mem, len, m, turns, turns);
    EndlessPushes(b, kindAt, turns + 1);
    forall i | 0 <= i <= turns ensures kindAt(i) == KindClass(e[i].kind) {
      HandlerEntries(mem, len, m, i, turns);
      assert Handled(mem, len, m, i).entries[i] == e[..i + 1][i];
    }
  }
}
