/**
 How every handler call ends, told from the bytes of the read: it keeps the buffer with or without a final entry,
 gives it back, faults, or never returns.
 */
module FixReturn {
  import opened Options
  import opened Strings
  import opened FixText
  import opened FixWriter
  import opened FixParser
  import opened FixHandler
  import opened FixLoop
  import P = BufferProtocol

  // ---- the loop

  /** Following message after message from `at` leads to this position. */
  ghost predicate Leads(mem: string, len: nat, at: int, stop: int) {
    exists ps: seq<int> :: Walk(mem, len, ps) && ps[0] == at && ps[|ps| - 1] == stop
  }

  lemma WalkTail(mem: string, len: nat, ps: seq<int>)
    requires Walk(mem, len, ps) && |ps| > 1
    ensures ps[0] < len && Framed(mem, ps[0]) && ps[1] == FrameEnd(mem, ps[0]) && Walk(mem, len, ps[1..])
  {
    hide Framed, FrameEnd;
    assert WalkAt(mem, len, ps, 0);
    forall i | 0 <= i < |ps[1..]| - 1 ensures WalkAt(mem, len, ps[1..], i) { assert WalkAt(mem, len, ps, i + 1); }
  }

  lemma WalkBefore(mem: string, len: nat, at: int, ps: seq<int>)
    requires Walk(mem, len, ps) && at < len && Framed(mem, at) && ps[0] == FrameEnd(mem, at)
    ensures Walk(mem, len, [at] + ps)
  {
    hide Framed, FrameEnd;
    var longer := [at] + ps;
    forall i | 0 <= i < |longer| - 1 ensures WalkAt(mem, len, longer, i) {
      if i > 0 { assert WalkAt(mem, len, ps, i - 1); }
    }
  }

  /** The end of the last stretch that a stretch of the loop has gone over. */
  function LastEnd(at: int, spans: seq<(int, int)>): int {
    if spans == [] then at else spans[|spans| - 1].1
  }

  /** One turn of the loop at a framed position. */
  lemma FramedTurn(mem: string, len: nat, m: Msg, turns: nat) returns (next: Msg)
    requires Terminated(mem) && m.valid && m.endIt.tag == CheckSum && m.end < len && Framed(mem, m.end) && turns > 0
    ensures next.valid && next.endIt.tag == CheckSum && next.end == FrameEnd(mem, m.end) && next.beginIt.tag == LeftTag(mem, m.end)
    ensures var o, rest := Turns(mem, len, m, turns), Turns(mem, len, next, turns - 1);
            o.verdict == rest.verdict && LastEnd(m.end, o.spans) == LastEnd(next.end, rest.spans)
  {
    InitByFrame(mem, m);
    TurnSteps(mem, len, m, turns);
    hide Turns, InitOf, Framed, LeftTag, FrameEnd;
    next := InitOf(mem, m.end, m).value;
  }

  /** A turn at a position that is not framed faults or is repeated for ever. */
  lemma UnframedTurn(mem: string, len: nat, m: Msg, turns: nat)
    requires Terminated(mem) && m.valid && m.endIt.tag == CheckSum && m.end < len && !Framed(mem, m.end) && turns > 0
    ensures if Faults(mem, m.end, m.beginIt.tag) then Turns(mem, len, m, turns).verdict == Faulted
            else Turns(mem, len, m, turns).verdict.Running?
  {
    InitByFrame(mem, m);
    TurnSteps(mem, len, m, turns);
    hide Turns, InitOf, Framed, Faults;
    if !Faults(mem, m.end, m.beginIt.tag) { NoProgressNoReturn(mem, len, m, turns); }
  }

  lemma NoTurn(mem: string, len: nat, m: Msg, turns: nat)
    ensures m.end >= len ==> Turns(mem, len, m, turns) == Outcome(Returned(false), [], [])
    ensures m.end < len && turns == 0 ==> Turns(mem, len, m, turns).verdict.Running?
  {
  }

  /** A walk out of the read is a loop that returns there. */
  lemma {:induction false} WalkReturns(mem: string, len: nat, m: Msg, ps: seq<int>)
    requires Terminated(mem) && m.valid && m.endIt.tag == CheckSum
    requires ps != [] && Walk(mem, len, ps) && ps[0] == m.end && ps[|ps| - 1] >= len
    ensures var o := Turns(mem, len, m, |ps| - 1);
            o.verdict == Returned(false) && LastEnd(m.end, o.spans) == ps[|ps| - 1]
    decreases |ps|
  {
    hide Turns, Framed, Faults, LeftTag, FrameEnd, Terminated;
    NoTurn(mem, len, m, |ps| - 1);
    if |ps| > 1 {
      WalkTail(mem, len, ps);
      hide Walk;
      var next := FramedTurn(mem, len, m, |ps| - 1);
      WalkReturns(mem, len, next, ps[1..]);
    }
  }

  /** A loop that returns has walked out of the read. */
  lemma {:induction false} ReturnWalks(mem: string, len: nat, m: Msg, turns: nat) returns (ps: seq<int>)
    requires Terminated(mem) && m.valid && m.endIt.tag == CheckSum && Turns(mem, len, m, turns).verdict == Returned(false)
    ensures ps != [] && Walk(mem, len, ps) && ps[0] == m.end && ps[|ps| - 1] >= len
    ensures LastEnd(m.end, Turns(mem, len, m, turns).spans) == ps[|ps| - 1]
    decreases turns
  {
    hide Turns, Framed, Faults, LeftTag, FrameEnd, Walk, Terminated;
    NoTurn(mem, len, m, turns);
    NoWalkYet(mem, len, m.end);
    ps := [m.end];
    if m.end < len {
      if Framed(mem, m.end) {
        var next := FramedTurn(mem, len, m, turns);
        var rest := ReturnWalks(mem, len, next, turns - 1);
        WalkBefore(mem, len, m.end, rest);
        ps := [m.end] + rest;
      } else {
        UnframedTurn(mem, len, m, turns);
      }
    }
  }

  /** A walk to a position inside the read where init uses a null pointer or leaves memory. */
  ghost predicate LeadsToFault(mem: string, len: nat, at: int, kept: int) {
    exists ps: seq<int> :: FaultWalk(mem, len, ps, kept) && ps[0] == at
  }

  predicate FaultWalk(mem: string, len: nat, ps: seq<int>, kept: int) {
    && Walk(mem, len, ps) && ps[|ps| - 1] < len && !Framed(mem, ps[|ps| - 1])
    && Faults(mem, ps[|ps| - 1], KeptTag(mem, ps, kept))
  }

  lemma FaultTail(mem: string, len: nat, ps: seq<int>, kept: int)
    requires FaultWalk(mem, len, ps, kept) && |ps| > 1
    ensures FaultWalk(mem, len, ps[1..], LeftTag(mem, ps[0])) && ps[0] < len && Framed(mem, ps[0]) && ps[1] == FrameEnd(mem, ps[0])
  {
    hide Framed, Faults, FrameEnd, LeftTag;
    WalkTail(mem, len, ps);
  }

  lemma {:induction false} WalkFaults(mem: string, len: nat, m: Msg, ps: seq<int>)
    requires Terminated(mem) && m.valid && m.endIt.tag == CheckSum
    requires ps != [] && FaultWalk(mem, len, ps, m.beginIt.tag) && ps[0] == m.end
    ensures Turns(mem, len, m, |ps|).verdict == Faulted
    decreases |ps|
  {
    hide Turns, Framed, Faults, LeftTag, FrameEnd, Terminated;
    if |ps| > 1 {
      FaultTail(mem, len, ps, m.beginIt.tag);
      hide FaultWalk;
      var next := FramedTurn(mem, len, m, |ps|);
      WalkFaults(mem, len, next, ps[1..]);
    } else {
      UnframedTurn(mem, len, m, 1);
    }
  }

  lemma {:induction false} FaultWalks(mem: string, len: nat, m: Msg, turns: nat) returns (ps: seq<int>)
    requires Terminated(mem) && m.valid && m.endIt.tag == CheckSum && Turns(mem, len, m, turns).verdict == Faulted
    ensures ps != [] && FaultWalk(mem, len, ps, m.beginIt.tag) && ps[0] == m.end
    decreases turns
  {
    hide Turns, Framed, Faults, LeftTag, FrameEnd, Terminated;
    NoTurn(mem, len, m, turns);
    NoWalkYet(mem, len, m.end);
    ps := [m.end];
    if Framed(mem, m.end) {
      var next := FramedTurn(mem, len, m, turns);
      var rest := FaultWalks(mem, len, next, turns - 1);
      FaultBefore(mem, len, m.end, rest, m.beginIt.tag);
      ps := [m.end] + rest;
    } else {
      UnframedTurn(mem, len, m, turns);
    }
  }

  lemma FaultBefore(mem: string, len: nat, at: int, ps: seq<int>, kept: int)
    requires at < len && Framed(mem, at) && FaultWalk(mem, len, ps, LeftTag(mem, at)) && ps[0] == FrameEnd(mem, at)
    ensures FaultWalk(mem, len, [at] + ps, kept)
  {
    hide Framed, Faults, FrameEnd, LeftTag;
    WalkBefore(mem, len, at, ps);
    assert ([at] + ps)[|ps|] == ps[|ps| - 1];
  }

  /** Two walks from one position that leave the read leave it at the same place. */
  lemma {:induction false} ExitUnique(mem: string, len: nat, ps: seq<int>, qs: seq<int>)
    requires ps != [] && qs != [] && Walk(mem, len, ps) && Walk(mem, len, qs) && ps[0] == qs[0]
    requires ps[|ps| - 1] >= len && qs[|qs| - 1] >= len
    ensures ps[|ps| - 1] == qs[|qs| - 1]
    decreases |ps|
  {
    hide Walk, Framed, FrameEnd;
    if |ps| > 1 { WalkTail(mem, len, ps); }
    if |qs| > 1 { WalkTail(mem, len, qs); }
    if |ps| > 1 && |qs| > 1 { ExitUnique(mem, len, ps[1..], qs[1..]); }
  }

  // ---- the whole call

  /** A call on a whole first message is the loop from its end, with one entry and one stretch in front. */
  lemma CallIsLoop(mem: string, len: nat, m: Msg, turns: nat) returns (first: Msg)
    requires Terminated(mem) && !m.valid && WholeFirst(mem)
    ensures first.valid && first.endIt.tag == CheckSum && first.end == FrameEnd(mem, 0) && first.beginIt.tag == LeftTag(mem, 0)
    ensures var o, rest := Handled(mem, len, m, turns), Turns(mem, len, first, turns);
            o.verdict == rest.verdict && LastEnd(0, o.spans) == LastEnd(first.end, rest.spans)
  {
    hide InitOf, Turns, Handled, WholeFirst, FrameEnd, LeftTag, Terminated;
    FirstIsValid(mem, m);
    first := InitOf(mem, 0, m).value;
    CallUnfolds(mem, len, m, turns);
  }

  lemma CallUnfolds(mem: string, len: nat, m: Msg, turns: nat)
    requires InitOf(mem, 0, m).Some? && InitOf(mem, 0, m).value.valid
    ensures var first := InitOf(mem, 0, m).value;
            var o, rest := Handled(mem, len, m, turns), Turns(mem, len, first, turns);
            o.verdict == rest.verdict && LastEnd(0, o.spans) == LastEnd(first.end, rest.spans)
  {
    hide InitOf, Turns;
  }

  /** Without one, nothing is pushed. */
  lemma CallEndsAtOnce(mem: string, len: nat, m: Msg, turns: nat)
    requires Terminated(mem) && !m.valid && !WholeFirst(mem)
    ensures Handled(mem, len, m, turns) == Outcome(if InitOf(mem, 0, m).Some? then Returned(true) else Faulted, [], [])
  {
    FirstIsValid(mem, m);
    hide InitOf, Turns, WholeFirst;
  }

  /** A call that keeps the buffer: where its walk leaves the read decides whether the last entry is final. */
  lemma ReturnedAt(mem: string, len: nat, m: Msg, turns: nat) returns (stop: int)
    requires Terminated(mem) && !m.valid && Handled(mem, len, m, turns).verdict == Returned(false)
    ensures WholeFirst(mem) && Leads(mem, len, FrameEnd(mem, 0), stop) && stop >= len
    ensures FinalLast(Handled(mem, len, m, turns).entries, stop == len)
  {
    KeepsFinalLast(mem, len, m, turns);
    hide InitOf, Handled, WholeFirst, FrameEnd, LeftTag, Walk, Turns;
    if WholeFirst(mem) {
      var first := CallIsLoop(mem, len, m, turns);
      var ps := ReturnWalks(mem, len, first, turns);
      stop := ps[|ps| - 1];
    } else {
      CallEndsAtOnce(mem, len, m, turns);
    }
  }

  /** The first message is whole, and following the others leads out of the read to this position. */
  ghost predicate LeadsOut(mem: string, len: nat, stop: int) {
    WholeFirst(mem) && stop >= len && Leads(mem, len, FrameEnd(mem, 0), stop)
  }

  lemma OutUnique(mem: string, len: nat, stop: int, stop': int)
    requires LeadsOut(mem, len, stop) && LeadsOut(mem, len, stop')
    ensures stop == stop'
  {
    hide WholeFirst, FrameEnd, Walk;
    var ps :| Walk(mem, len, ps) && (ps != [] ==> ps[0] == FrameEnd(mem, 0) && ps[|ps| - 1] == stop);
    var qs :| Walk(mem, len, qs) && (qs != [] ==> qs[0] == FrameEnd(mem, 0) && qs[|qs| - 1] == stop');
    WalkNotEmpty(mem, len, ps);
    WalkNotEmpty(mem, len, qs);
    ExitUnique(mem, len, ps, qs);
  }

  lemma WalkNotEmpty(mem: string, len: nat, ps: seq<int>)
    requires Walk(mem, len, ps)
    ensures ps != []
  {
  }

  /** Such a read makes the call return there. */
  lemma OutReturns(mem: string, len: nat, m: Msg, stop: int) returns (turns: nat)
    requires Terminated(mem) && !m.valid && LeadsOut(mem, len, stop)
    ensures Handled(mem, len, m, turns).verdict == Returned(false)
  {
    hide InitOf, Handled, WholeFirst, FrameEnd, LeftTag, Turns, WalkAt, Terminated;
    var ps :| Walk(mem, len, ps) && ps[0] == FrameEnd(mem, 0) && ps[|ps| - 1] == stop;
    hide Walk;
    turns := |ps| - 1;
    var first := CallIsLoop(mem, len, m, turns);
    WalkReturns(mem, len, first, ps);
  }

  /** The call keeps the buffer, and its last entry is final or not. */
  predicate Keeps(o: Outcome, final: bool) {
    o.verdict == Returned(false) && FinalLast(o.entries, final)
  }

  /**
   A call keeps the buffer without pushing a final entry, so that nobody owns it, if and only if the first message is
   whole and following the others leads to a position behind the end of the read; it pushes exactly its last entry as
   final if and only if that leads to the very end of the read.
   */
  lemma KeepsExactly(mem: string, len: nat, m: Msg)
    requires Terminated(mem) && !m.valid
    ensures (exists turns: nat :: Keeps(Handled(mem, len, m, turns), false)) <==> exists stop :: stop > len && LeadsOut(mem, len, stop)
    ensures (exists turns: nat :: Keeps(Handled(mem, len, m, turns), true)) <==> LeadsOut(mem, len, len)
  {
    hide Handled, WholeFirst, Leads;
    forall stop | LeadsOut(mem, len, stop) ensures exists turns: nat :: Keeps(Handled(mem, len, m, turns), stop == len) {
      var turns := OutReturns(mem, len, m, stop);
      var stop' := ReturnedAt(mem, len, m, turns);
      assert LeadsOut(mem, len, stop');
      OutUnique(mem, len, stop, stop');
      assert Keeps(Handled(mem, len, m, turns), stop == len);
    }
    forall turns: nat, final | Keeps(Handled(mem, len, m, turns), final)
      ensures exists stop :: LeadsOut(mem, len, stop) && final == (stop == len)
    {
      var stop := ReturnedAt(mem, len, m, turns);
      assert LeadsOut(mem, len, stop);
    }
  }

  /** A call gives the buffer back if and only if its first message is not whole, and looking for it does not fault. */
  lemma GivesBackExactly(mem: string, len: nat, m: Msg)
    requires Terminated(mem) && !m.valid
    ensures !WholeFirst(mem) && InitOf(mem, 0, m).Some? <==> exists turns: nat :: Handled(mem, len, m, turns).verdict == Returned(true)
  {
    hide InitOf, Handled, WholeFirst;
    if !WholeFirst(mem) { CallEndsAtOnce(mem, len, m, 0); }
    forall turns: nat | Handled(mem, len, m, turns).verdict == Returned(true) ensures !WholeFirst(mem) && InitOf(mem, 0, m).Some? {
      if WholeFirst(mem) {
        ReleaseMeansNothingPushed(mem, len, m, turns);
        FirstIsValid(mem, m);
      } else {
        CallEndsAtOnce(mem, len, m, turns);
      }
    }
  }

  /** A call faults if and only if looking for the first message does, or following the others leads to a fault. */
  lemma FaultsExactly(mem: string, len: nat, m: Msg)
    requires Terminated(mem) && !m.valid
    ensures (if WholeFirst(mem) then LeadsToFault(mem, len, FrameEnd(mem, 0), LeftTag(mem, 0)) else InitOf(mem, 0, m).None?)
            <==> exists turns: nat :: Handled(mem, len, m, turns).verdict == Faulted
  {
    hide InitOf, Handled, WholeFirst, FrameEnd, LeftTag, Turns;
    if !WholeFirst(mem) {
      CallEndsAtOnce(mem, len, m, 0);
      forall turns: nat ensures Handled(mem, len, m, turns).verdict == Handled(mem, len, m, 0).verdict {
        CallEndsAtOnce(mem, len, m, turns);
      }
    } else {
      if LeadsToFault(mem, len, FrameEnd(mem, 0), LeftTag(mem, 0)) {
        var ps :| FaultWalk(mem, len, ps, LeftTag(mem, 0)) && ps[0] == FrameEnd(mem, 0);
        var first := CallIsLoop(mem, len, m, |ps|);
        WalkFaults(mem, len, first, ps);
        assert Handled(mem, len, m, |ps|).verdict == Faulted;
      }
      forall turns: nat | Handled(mem, len, m, turns).verdict == Faulted
        ensures LeadsToFault(mem, len, FrameEnd(mem, 0), LeftTag(mem, 0))
      {
        var first := CallIsLoop(mem, len, m, turns);
        var ps := FaultWalks(mem, len, first, turns);
      }
    }
  }

  /** What the buffer protocol calls an overrun is a read whose messages lead behind its end. */
  lemma OverrunExactly(mem: string, len: nat, m: Msg, turns: nat)
    requires Terminated(mem) && !m.valid && Handled(mem, len, m, turns).verdict.Returned?
    ensures var o := Described(Handled(mem, len, m, turns));
            && (o.Overrun? <==> exists stop :: stop > len && LeadsOut(mem, len, stop))
            && (o.Whole? <==> LeadsOut(mem, len, len))
            && (o.Invalid? <==> !WholeFirst(mem))
  {
    hide InitOf, Handled, WholeFirst, Leads;
    var o := Handled(mem, len, m, turns);
    if o.verdict == Returned(true) {
      ReleaseMeansNothingPushed(mem, len, m, turns);
      FirstIsValid(mem, m);
    } else {
      var stop := ReturnedAt(mem, len, m, turns);
      assert LeadsOut(mem, len, stop);
      forall stop' | LeadsOut(mem, len, stop') ensures stop' == stop { OutUnique(mem, len, stop, stop'); }
    }
  }

  // ---- reads that end inside a written message

  /** One entry per message, none of them final. */
  function Unfinished(ws: seq<Written>): seq<Entry> {
    if ws == [] then [] else [Entry(KindOf(ws[0]), TrueCheckSum(Covered(ws[0])), false)] + Unfinished(ws[1..])
  }

  /** The read ends inside the last of the messages, which stand one after the other from `at`. */
  predicate EndsInside(ws: seq<Written>, at: int, len: nat) {
    at + |AllText(ws)| > len && (ws != [] ==> at + |AllText(ws[..|ws| - 1])| < len)
  }

  lemma EndsInsideRest(ws: seq<Written>, at: int, len: nat)
    requires ws != [] && EndsInside(ws, at, len)
    ensures EndsInside(ws[1..], at + |TextOf(ws[0])|, len) && at < len && at + |TextOf(ws[0])| != len
  {
    hide TextOf;
    var most := ws[..|ws| - 1];
    if |ws| > 1 {
      assert most[0] == ws[0] && most[1..] == ws[1..][..|ws[1..]| - 1];
    }
  }

  lemma {:induction false} TurnsInside(mem: string, len: nat, m: Msg, ws: seq<Written>, turns: nat)
    requires Terminated(mem) && AllGood(ws) && m.end >= 0 && StartsAt(mem, m.end, AllText(ws))
    requires EndsInside(ws, m.end, len) && turns >= |ws|
    ensures Turns(mem, len, m, turns) == Outcome(Returned(false), Unfinished(ws), Tiles(ws, m.end))
    decreases |ws|
  {
    TurnSteps(mem, len, m, turns);
    hide InitOf, Turns, TextOf, Covered, TrueCheckSum, Good, AllGood, StartsAt, KindOf, Terminated;
    if ws != [] {
      EndsInsideRest(ws, m.end, len);
      var next := ReadsNext(mem, m.end, m, ws, len);
      RestStands(mem, m.end, ws, next.end);
      TurnsInside(mem, len, next, ws[1..], turns - 1);
    }
  }

  /** The first of the messages at `at` is read, wherever the read ends. */
  lemma ReadsNext(mem: string, at: nat, m: Msg, ws: seq<Written>, len: nat) returns (next: Msg)
    requires Terminated(mem) && AllGood(ws) && ws != [] && StartsAt(mem, at, AllText(ws))
    ensures InitOf(mem, at, m) == Some(next) && next.valid && next.end == at + |TextOf(ws[0])|
    ensures EntryOf(next, len) == Entry(KindOf(ws[0]), TrueCheckSum(Covered(ws[0])), next.end == len)
  {
    hide InitOf, TextOf, AllText, Covered, TrueCheckSum, Good, AllGood, StartsAt, KindOf, Terminated, Took, EntryOf;
    AllTextSplit(ws);
    GoodSplit(ws);
    SplitStart(mem, at, TextOf(ws[0]), AllText(ws[1..]));
    ReadsOne(mem, at, ws[0], m);
    next := InitOf(mem, at, m).value;
    TookFacts(next, ws[0], at + |TextOf(ws[0])|, len);
  }

  /**
   A read that ends inside the last of n >= 1 written messages, the rest of which is still in the buffer from an earlier
   read: n entries are pushed, none of them final, and the buffer is kept.
   */
  lemma CutOffMessages(mem: string, len: nat, m: Msg, ws: seq<Written>, turns: nat)
    requires Terminated(mem) && ws != [] && AllGood(ws) && StartsAt(mem, 0, AllText(ws))
    requires |AllText(ws[..|ws| - 1])| < len < |AllText(ws)| && turns >= |ws| - 1
    ensures Handled(mem, len, m, turns) == Outcome(Returned(false), Unfinished(ws), Tiles(ws, 0))
  {
    hide InitOf, Turns, TextOf, Covered, TrueCheckSum, Good, AllGood, StartsAt, KindOf, Terminated;
    EndsInsideRest(ws, 0, len);
    var first := ReadsNext(mem, 0, m, ws, len);
    RestStands(mem, 0, ws, first.end);
    TurnsInside(mem, len, first, ws[1..], turns);
  }
}
