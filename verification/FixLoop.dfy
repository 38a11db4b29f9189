/**
 Exactly when the handler never returns, told from the bytes of the read alone.

 A position is framed if the fields that init looks for are there: BeginString, BodyLength with a number other
 than zero, and CheckSum where that number leads. What init does at a position that is not framed depends on
 one more thing, the tag that an iterator keeps when it finds no field.
 */
module FixLoop {
  import opened Options
  import opened Strings
  import opened FixText
  import opened FixWriter
  import opened FixParser
  import opened FixHandler

  // ---- frames

  /** The field that starts at i, if there is one. */
  function FieldAt(mem: string, i: int): Option<Cursor> {
    if !InMemory(mem, i) then None
    else
      var c := Advance(mem, Cursor(0, -1, -1, i));
      if c.begin < 0 then None else Some(c)
  }

  predicate HasTag(mem: string, i: int, tag: int) {
    FieldAt(mem, i).Some? && FieldAt(mem, i).value.tag == tag
  }

  /** Behind the field at i; -1 if there is none. */
  function Behind(mem: string, i: int): int {
    if FieldAt(mem, i).Some? then FieldAt(mem, i).value.begin else -1
  }

  /** The number written in the field at i. */
  function NumberAt(mem: string, i: int): int {
    if FieldAt(mem, i).Some? && FieldAt(mem, i).value.valBegin >= 0 then StdAtoi(mem, FieldAt(mem, i).value.valBegin) else 0
  }

  /** BeginString at `at`, and a length other than zero behind it. */
  predicate Opens(mem: string, at: int) {
    HasTag(mem, at, BeginString) && HasTag(mem, Behind(mem, at), BodyLength) && NumberAt(mem, Behind(mem, at)) != 0
  }

  /** Where the length leads. */
  function TrailerAt(mem: string, at: int): int {
    Behind(mem, Behind(mem, at)) + NumberAt(mem, Behind(mem, at))
  }

  predicate Framed(mem: string, at: int) {
    Opens(mem, at) && HasTag(mem, TrailerAt(mem, at), CheckSum)
  }

  /** Where the next message is looked for. */
  function FrameEnd(mem: string, at: int): int {
    Behind(mem, TrailerAt(mem, at))
  }

  /** A null pointer is used, or memory is left; `kept` is the tag begin_it holds before. */
  predicate Faults(mem: string, at: int, kept: int) {
    || !InMemory(mem, at)
    || (FieldAt(mem, at).None? && kept == BeginString)
    || (Opens(mem, at) && FieldAt(mem, TrailerAt(mem, at)).None?)
  }

  /** The tag begin_it is left with behind a framed message: that of the first field after MsgType, if all is well. */
  function LeftTag(mem: string, at: int): int {
    var t := Behind(mem, Behind(mem, at));
    if FieldAt(mem, t).None? then BodyLength
    else if !HasTag(mem, t, MsgType) then FieldAt(mem, t).value.tag
    else if FieldAt(mem, Behind(mem, t)).None? then MsgType
    else FieldAt(mem, Behind(mem, t)).value.tag
  }

  // ---- init at a position

  /** next from any cursor at i: the field at i, or the old tag and no further position. */
  lemma AdvanceIs(mem: string, c: Cursor)
    requires InMemory(mem, c.begin)
    ensures FieldAt(mem, c.begin).Some? ==> Advance(mem, c) == FieldAt(mem, c.begin).value
    ensures FieldAt(mem, c.begin).None? ==> Advance(mem, c).tag == c.tag && Advance(mem, c).begin == -1
  {
    hide Scan, Atoi;
  }

  /** In memory that ends with a zero byte, what follows a field is still memory. */
  lemma BehindField(mem: string, i: int)
    requires Terminated(mem) && FieldAt(mem, i).Some?
    ensures var f := FieldAt(mem, i).value;
            InMemory(mem, f.begin) && f.begin == f.valEnd + 1 && 0 < f.valBegin <= f.valEnd && i < f.begin
  {
    ScanStops(mem, i, -1);
    hide Scan, Atoi;
  }

  lemma {:induction false} ScanStops(mem: string, i: nat, vb: int)
    ensures Scan(mem, i, vb).1 >= 0 ==> Scan(mem, i, vb).1 < |mem| && mem[Scan(mem, i, vb).1] == SOH
    decreases |mem| - i
  {
    if i < |mem| && mem[i] != NUL {
      if mem[i] == '=' && vb < 0 { ScanStops(mem, i + 1, i + 1); } else if mem[i] != SOH { ScanStops(mem, i + 1, vb); }
    }
  }

  /** What init leaves of a message object whose trailer iterator has seen a trailer before. */
  predicate Moves(mem: string, m: Msg, r: Option<Msg>) {
    && r.Some? && r.value.end == FrameEnd(mem, m.end) && r.value.beginIt.tag == LeftTag(mem, m.end)
    && r.value.endIt.tag == CheckSum && (m.valid ==> r.value.valid)
  }

  predicate Stays(m: Msg, r: Option<Msg>) {
    r.Some? && r.value.end == m.end && r.value.valid == m.valid
  }

  /** init at the end of a message: on to the next end if the position is framed, otherwise a fault or no move at all. */
  lemma InitByFrame(mem: string, m: Msg)
    requires Terminated(mem) && m.endIt.tag == CheckSum
    ensures var r := InitOf(mem, m.end, m);
            && (Framed(mem, m.end) ==> Moves(mem, m, r))
            && (!Framed(mem, m.end) && Faults(mem, m.end, m.beginIt.tag) ==> r.None?)
            && (!Framed(mem, m.end) && !Faults(mem, m.end, m.beginIt.tag) ==> Stays(m, r))
  {
    hide Advance, FieldAt, StdAtoi, AfterBegin;
    NowhereIsNone(mem, m.end);
    if InMemory(mem, m.end) {
      AdvanceIs(mem, m.beginIt.(begin := m.end));
      if FieldAt(mem, m.end).Some? && HasTag(mem, m.end, BeginString) {
        BehindField(mem, m.end);
        BeginByFrame(mem, m.(beginIt := FieldAt(mem, m.end).value), m.end);
      }
    }
  }

  lemma BeginByFrame(mem: string, m: Msg, at: int)
    requires Terminated(mem) && m.endIt.tag == CheckSum && HasTag(mem, at, BeginString) && m.beginIt == FieldAt(mem, at).value
    requires m.beginIt.tag == BeginString && InMemory(mem, m.beginIt.begin)
    ensures var r := AfterBegin(mem, m);
            && (Framed(mem, at) ==>
                  r.Some? && r.value.end == FrameEnd(mem, at) && r.value.beginIt.tag == LeftTag(mem, at)
                  && r.value.endIt.tag == CheckSum && (m.valid ==> r.value.valid))
            && (!Framed(mem, at) && Opens(mem, at) && FieldAt(mem, TrailerAt(mem, at)).None? ==> r.None?)
            && (!Framed(mem, at) && !(Opens(mem, at) && FieldAt(mem, TrailerAt(mem, at)).None?) ==> Stays(m, r))
  {
    hide Advance, FieldAt, StdAtoi, AfterLength;
    AdvanceIs(mem, m.beginIt);
    var i := m.beginIt.begin;
    assert i == Behind(mem, at);
    if HasTag(mem, i, BodyLength) {
      BehindField(mem, i);
      var f := FieldAt(mem, i).value;
      if StdAtoi(mem, f.valBegin) != 0 && InMemory(mem, TrailerAt(mem, at)) {
        LengthByFrame(mem, m.(beginIt := f), at);
      }
    }
    NowhereIsNone(mem, TrailerAt(mem, at));
  }

  lemma NowhereIsNone(mem: string, i: int)
    ensures !InMemory(mem, i) ==> FieldAt(mem, i).None?
  {
  }

  lemma LengthByFrame(mem: string, m: Msg, at: int)
    requires Terminated(mem) && m.endIt.tag == CheckSum && InMemory(mem, TrailerAt(mem, at))
    requires HasTag(mem, Behind(mem, at), BodyLength) && m.beginIt == FieldAt(mem, Behind(mem, at)).value
    ensures var i := TrailerAt(mem, at); var r := AfterLength(mem, m, i);
            && (FieldAt(mem, i).None? ==> r.None?)
            && (FieldAt(mem, i).Some? && !HasTag(mem, i, CheckSum) ==> Stays(m, r))
            && (HasTag(mem, i, CheckSum) ==>
                  r.Some? && r.value.end == FrameEnd(mem, at) && r.value.beginIt.tag == LeftTag(mem, at)
                  && r.value.endIt.tag == CheckSum && (m.valid ==> r.value.valid))
  {
    hide Advance, FieldAt, StdAtoi, AfterTrailer;
    var i := TrailerAt(mem, at);
    AdvanceIs(mem, m.endIt.(begin := i));
    if HasTag(mem, i, CheckSum) {
      BehindField(mem, i);
      BehindField(mem, Behind(mem, at));
      var e := FieldAt(mem, i).value;
      TypeByFrame(mem, m.(endIt := e, end := e.valEnd + 1, checksum := StdAtoi(mem, e.valBegin) % 256), at);
    }
  }

  lemma TypeByFrame(mem: string, m: Msg, at: int)
    requires Terminated(mem) && FieldAt(mem, Behind(mem, at)).Some? && m.beginIt == FieldAt(mem, Behind(mem, at)).value
    requires m.beginIt.tag == BodyLength
    ensures var r := AfterTrailer(mem, m);
            r.Some? && r.value.end == m.end && r.value.beginIt.tag == LeftTag(mem, at) && r.value.endIt == m.endIt
            && (m.valid ==> r.value.valid)
  {
    hide Advance, FieldAt;
    BehindField(mem, Behind(mem, at));
    var t := m.beginIt.begin;
    AdvanceIs(mem, m.beginIt);
    if FieldAt(mem, t).Some? {
      BehindField(mem, t);
      AdvanceIs(mem, FieldAt(mem, t).value);
    }
  }

  /**
   A message end stays where it is exactly when a guard of init fails there: no BeginString, no BodyLength
   behind it, a length of zero, or no CheckSum where it leads. The only other way is a message that ends where it begins.
   */
  lemma EndStaysExactly(mem: string, m: Msg)
    requires Terminated(mem) && m.endIt.tag == CheckSum && InitOf(mem, m.end, m).Some?
    ensures InitOf(mem, m.end, m).value.end == m.end <==>
              || !HasTag(mem, m.end, BeginString)
              || !HasTag(mem, Behind(mem, m.end), BodyLength)
              || NumberAt(mem, Behind(mem, m.end)) == 0
              || !HasTag(mem, TrailerAt(mem, m.end), CheckSum)
              || FrameEnd(mem, m.end) == m.end
  {
    hide InitOf, FieldAt, StdAtoi, HasTag;
    InitByFrame(mem, m);
  }

  // ---- the loop

  /** Message after message: each but the last of these positions lies in the read and is framed, and ends at the next. */
  predicate Walk(mem: string, len: nat, ps: seq<int>) {
    ps != [] && forall i :: 0 <= i < |ps| - 1 ==> WalkAt(mem, len, ps, i)
  }

  predicate WalkAt(mem: string, len: nat, ps: seq<int>, i: nat)
    requires i + 1 < |ps|
  {
    ps[i] < len && Framed(mem, ps[i]) && ps[i + 1] == FrameEnd(mem, ps[i])
  }

  /** The tag begin_it holds at the end of a walk. */
  function KeptTag(mem: string, ps: seq<int>, kept: int): int
    requires ps != []
  {
    if |ps| == 1 then kept else LeftTag(mem, ps[|ps| - 2])
  }

  /** A walk that ends inside the read, at a position where init stays put or that it has passed before. */
  predicate Caught(mem: string, len: nat, ps: seq<int>, kept: int) {
    && Walk(mem, len, ps) && ps[|ps| - 1] < len
    && (ps[|ps| - 1] in ps[..|ps| - 1]
        || (!Framed(mem, ps[|ps| - 1]) && !Faults(mem, ps[|ps| - 1], KeptTag(mem, ps, kept))))
  }

  ghost predicate Trap(mem: string, len: nat, at: int, kept: int) {
    exists ps: seq<int> :: Caught(mem, len, ps, kept) && ps[0] == at
  }

  /**
   The loop over the messages after the first never ends if and only if following the messages leads, still
   inside the read, to a position without a whole message or back to where it has been.
   */
  lemma LoopsExactly(mem: string, len: nat, m: Msg)
    requires Terminated(mem) && m.valid && m.endIt.tag == CheckSum
    ensures Trap(mem, len, m.end, m.beginIt.tag) <==> forall turns: nat :: Turns(mem, len, m, turns).verdict.Running?
  {
    hide Turns, InitOf, Framed, Faults;
    if Trap(mem, len, m.end, m.beginIt.tag) {
      var ps :| Caught(mem, len, ps, m.beginIt.tag) && ps[0] == m.end;
      forall turns: nat ensures Turns(mem, len, m, turns).verdict.Running? { CaughtRuns(mem, len, m, ps, turns); }
    } else {
      NoWalkYet(mem, len, m.end);
      var turns := FreeEnds(mem, len, m, [m.end], m.end, m.beginIt.tag);
    }
  }

  lemma NoWalkYet(mem: string, len: nat, at: int)
    ensures Walk(mem, len, [at])
  {
  }

  /** What is left of a walk after its first step; one that has come back to its start goes round once more. */
  function Onward(ps: seq<int>): seq<int>
    requires |ps| > 1
  {
    if ps[|ps| - 1] == ps[0] then ps[1..] + [ps[1]] else ps[1..]
  }

  lemma OnwardCaught(mem: string, len: nat, ps: seq<int>, kept: int)
    requires Caught(mem, len, ps, kept) && |ps| > 1
    ensures Caught(mem, len, Onward(ps), LeftTag(mem, ps[0])) && Onward(ps) != [] && Onward(ps)[0] == ps[1]
    ensures ps[0] < len && Framed(mem, ps[0]) && ps[1] == FrameEnd(mem, ps[0])
  {
    hide Framed, Faults, FrameEnd, LeftTag;
    assert WalkAt(mem, len, ps, 0);
    var rest, n := ps[1..], |ps| - 1;
    assert ps[1] < len by { if n > 1 { assert WalkAt(mem, len, ps, 1); } }
    forall i | 0 <= i < |Onward(ps)| - 1 ensures WalkAt(mem, len, Onward(ps), i) {
      if i + 1 < |rest| { assert WalkAt(mem, len, ps, i + 1); }
    }
    if ps[n] == ps[0] {
      assert Onward(ps)[0] == ps[1] && ps[1] in Onward(ps)[..|rest|];
    } else if ps[n] in ps[..n] {
      var k :| 0 <= k < n && ps[k] == ps[n];
      assert rest[k - 1] == ps[n] && rest[..|rest| - 1][k - 1] == ps[n];
    }
  }

  lemma CaughtHere(mem: string, len: nat, ps: seq<int>, kept: int)
    requires Caught(mem, len, ps, kept) && |ps| == 1
    ensures ps[0] < len && !Framed(mem, ps[0]) && !Faults(mem, ps[0], kept)
  {
    hide Framed, Faults;
  }

  lemma {:induction false} CaughtRuns(mem: string, len: nat, m: Msg, ps: seq<int>, turns: nat)
    requires Terminated(mem) && m.valid && m.endIt.tag == CheckSum
    requires ps != [] && Caught(mem, len, ps, m.beginIt.tag) && ps[0] == m.end
    ensures Turns(mem, len, m, turns).verdict.Running?
    decreases turns
  {
    hide Turns, InitOf, Framed, Faults, LeftTag, FrameEnd, Caught, Onward;
    InitByFrame(mem, m);
    TurnSteps(mem, len, m, turns);
    if |ps| == 1 {
      CaughtHere(mem, len, ps, m.beginIt.tag);
      NoProgressNoReturn(mem, len, m, turns);
    } else {
      OnwardCaught(mem, len, ps, m.beginIt.tag);
      if turns > 0 { CaughtRuns(mem, len, InitOf(mem, m.end, m).value, Onward(ps), turns - 1); }
    }
  }

  lemma WalkFurther(mem: string, len: nat, ps: seq<int>)
    requires Walk(mem, len, ps) && ps[|ps| - 1] < len && Framed(mem, ps[|ps| - 1])
    ensures Walk(mem, len, ps + [FrameEnd(mem, ps[|ps| - 1])])
  {
    hide Framed, FrameEnd;
    var longer := ps + [FrameEnd(mem, ps[|ps| - 1])];
    forall i | 0 <= i < |longer| - 1 ensures WalkAt(mem, len, longer, i) {
      if i < |ps| - 1 { assert WalkAt(mem, len, ps, i); }
    }
  }

  predicate Different(ps: seq<int>) {
    forall i, j :: 0 <= i < j < |ps| ==> ps[i] != ps[j]
  }

  /** Different positions in memory are no more than there is memory. */
  lemma {:induction false} DifferentBound(ps: seq<int>, n: nat)
    requires Different(ps) && forall i :: 0 <= i < |ps| ==> 0 <= ps[i] < n
    ensures |ps| <= n
    decreases n
  {
    if n > 0 {
      if n - 1 in ps {
        var k :| 0 <= k < |ps| && ps[k] == n - 1;
        var others := ps[..k] + ps[k + 1..];
        assert forall j :: 0 <= j < |others| ==> others[j] == ps[if j < k then j else j + 1];
        DifferentBound(others, n - 1);
      } else {
        assert forall i :: 0 <= i < |ps| ==> ps[i] in ps;
        DifferentBound(ps, n - 1);
      }
    }
  }

  /** One step of a walk that has not been caught: the loop faults or leaves the read, or takes a new position. */
  lemma FreeStep(mem: string, len: nat, m: Msg, ps: seq<int>, at: int, kept: int)
    requires Terminated(mem) && m.endIt.tag == CheckSum && !Trap(mem, len, at, kept) && m.end < len
    requires ps != [] && Walk(mem, len, ps) && ps[0] == at && m.end == ps[|ps| - 1] && m.beginIt.tag == KeptTag(mem, ps, kept)
    requires Different(ps)
    ensures InitOf(mem, m.end, m).Some? ==>
              var next := InitOf(mem, m.end, m).value; var longer := ps + [next.end];
              && InMemory(mem, m.end) && (m.valid ==> next.valid) && next.endIt.tag == CheckSum
              && Walk(mem, len, longer) && next.beginIt.tag == KeptTag(mem, longer, kept)
              && (next.end < len ==> Different(longer))
  {
    hide InitOf, Framed, Faults, LeftTag, FrameEnd, Walk, Trap, Different, KeptTag;
    InitByFrame(mem, m);
    FreeHere(mem, len, ps, at, kept);
    if Framed(mem, m.end) {
      FramedInMemory(mem, m.end);
      FreeFurther(mem, len, ps, at, kept);
      KeptFurther(mem, ps, FrameEnd(mem, m.end), kept);
    }
  }

  lemma KeptFurther(mem: string, ps: seq<int>, next: int, kept: int)
    requires ps != []
    ensures KeptTag(mem, ps + [next], kept) == LeftTag(mem, ps[|ps| - 1])
  {
    hide LeftTag;
  }

  /** Where a free walk cannot go on, init faults. */
  lemma FreeHere(mem: string, len: nat, ps: seq<int>, at: int, kept: int)
    requires Walk(mem, len, ps) && ps[0] == at && ps[|ps| - 1] < len && !Trap(mem, len, at, kept)
    ensures !Framed(mem, ps[|ps| - 1]) ==> Faults(mem, ps[|ps| - 1], KeptTag(mem, ps, kept))
  {
    hide Framed, Faults, Walk, KeptTag;
    assert !Caught(mem, len, ps, kept);
  }

  /** Where it can go on, it comes to a new position or out of the read. */
  lemma FreeFurther(mem: string, len: nat, ps: seq<int>, at: int, kept: int)
    requires Walk(mem, len, ps) && ps[0] == at && ps[|ps| - 1] < len && !Trap(mem, len, at, kept)
    requires Framed(mem, ps[|ps| - 1]) && Different(ps)
    ensures var longer := ps + [FrameEnd(mem, ps[|ps| - 1])];
            Walk(mem, len, longer) && (longer[|ps|] < len ==> Different(longer))
  {
    hide Framed, Faults, FrameEnd, KeptTag;
    WalkFurther(mem, len, ps);
    hide Walk;
    var longer := ps + [FrameEnd(mem, ps[|ps| - 1])];
    assert longer[..|longer| - 1] == ps && longer[0] == at;
    assert !Caught(mem, len, longer, kept);
    if longer[|ps|] < len {
      assert longer[|ps|] !in ps;
      forall i, j | 0 <= i < j < |longer| ensures longer[i] != longer[j] { assert longer[i] == ps[i] && ps[i] in ps; }
    }
  }

  lemma FramedInMemory(mem: string, at: int)
    requires Framed(mem, at)
    ensures InMemory(mem, at)
  {
    NowhereIsNone(mem, at);
  }

  /** Without a trap the walk leaves the read or faults, and so does the loop. */
  lemma {:induction false} FreeEnds(mem: string, len: nat, m: Msg, ps: seq<int>, at: int, kept: int) returns (turns: nat)
    requires Terminated(mem) && m.valid && m.endIt.tag == CheckSum && !Trap(mem, len, at, kept)
    requires ps != [] && Walk(mem, len, ps) && ps[0] == at && m.end == ps[|ps| - 1] && m.beginIt.tag == KeptTag(mem, ps, kept)
    requires Different(ps) && forall i :: 0 <= i < |ps| - 1 ==> 0 <= ps[i] < |mem|
    ensures !Turns(mem, len, m, turns).verdict.Running?
    decreases |mem| + 1 - |ps|
  {
    hide Turns, InitOf, Walk, Trap, KeptTag, Different;
    turns := 0;
    if m.end < len {
      turns := 1;
      FreeStep(mem, len, m, ps, at, kept);
      if InitOf(mem, m.end, m).Some? {
        var next := InitOf(mem, m.end, m).value;
        DifferentBound(ps, |mem|);
        if next.end < len {
          var more := FreeEnds(mem, len, next, ps + [next.end], at, kept);
          turns := more + 1;
        } else {
          TurnSteps(mem, len, next, 0);
        }
      }
    }
    TurnSteps(mem, len, m, turns);
  }

  // ---- the first message

  /** A framed message with a MsgType behind its BodyLength. */
  predicate WholeFirst(mem: string) {
    Framed(mem, 0) && HasTag(mem, Behind(mem, Behind(mem, 0)), MsgType)
  }

  /** Where a message object that has become valid stands. */
  predicate Begun(mem: string, r: Option<Msg>) {
    r.Some? && r.value.valid && r.value.end == FrameEnd(mem, 0) && r.value.beginIt.tag == LeftTag(mem, 0) && r.value.endIt.tag == CheckSum
  }

  predicate Fails(r: Option<Msg>) {
    r.Some? ==> !r.value.valid
  }

  /** Whatever a new message object's iterators hold, init makes it valid exactly if the fields are there. */
  lemma FirstIsValid(mem: string, m: Msg)
    requires Terminated(mem) && !m.valid
    ensures var r := InitOf(mem, 0, m); if WholeFirst(mem) then Begun(mem, r) else Fails(r)
  {
    hide Advance, FieldAt, StdAtoi, AfterBegin;
    NowhereIsNone(mem, 0);
    AdvanceIs(mem, m.beginIt.(begin := 0));
    if HasTag(mem, 0, BeginString) {
      BehindField(mem, 0);
      FirstLength(mem, m.(beginIt := FieldAt(mem, 0).value));
    }
  }

  lemma FirstLength(mem: string, m: Msg)
    requires Terminated(mem) && !m.valid && HasTag(mem, 0, BeginString) && m.beginIt == FieldAt(mem, 0).value
    requires m.beginIt.tag == BeginString && InMemory(mem, m.beginIt.begin)
    ensures var r := AfterBegin(mem, m); if WholeFirst(mem) then Begun(mem, r) else Fails(r)
  {
    hide Advance, FieldAt, StdAtoi, AfterLength;
    AdvanceIs(mem, m.beginIt);
    var i := m.beginIt.begin;
    assert i == Behind(mem, 0);
    NowhereIsNone(mem, TrailerAt(mem, 0));
    if HasTag(mem, i, BodyLength) {
      BehindField(mem, i);
      var f := FieldAt(mem, i).value;
      if StdAtoi(mem, f.valBegin) != 0 && InMemory(mem, TrailerAt(mem, 0)) { FirstTrailer(mem, m.(beginIt := f)); }
    }
  }

  lemma FirstTrailer(mem: string, m: Msg)
    requires Terminated(mem) && !m.valid && InMemory(mem, TrailerAt(mem, 0)) && Opens(mem, 0)
    requires HasTag(mem, Behind(mem, 0), BodyLength) && m.beginIt == FieldAt(mem, Behind(mem, 0)).value
    ensures var r := AfterLength(mem, m, TrailerAt(mem, 0)); if WholeFirst(mem) then Begun(mem, r) else Fails(r)
  {
    hide Advance, FieldAt, StdAtoi, AfterTrailer, Opens;
    var i := TrailerAt(mem, 0);
    AdvanceIs(mem, m.endIt.(begin := i));
    if HasTag(mem, i, CheckSum) {
      BehindField(mem, i);
      BehindField(mem, Behind(mem, 0));
      var e := FieldAt(mem, i).value;
      FirstType(mem, m.(endIt := e, end := e.valEnd + 1, checksum := StdAtoi(mem, e.valBegin) % 256));
    }
  }

  lemma FirstType(mem: string, m: Msg)
    requires Terminated(mem) && !m.valid && FieldAt(mem, Behind(mem, 0)).Some? && m.beginIt == FieldAt(mem, Behind(mem, 0)).value
    requires m.beginIt.tag == BodyLength
    ensures var r := AfterTrailer(mem, m);
            if HasTag(mem, Behind(mem, Behind(mem, 0)), MsgType)
            then r.Some? && r.value.valid && r.value.end == m.end && r.value.beginIt.tag == LeftTag(mem, 0) && r.value.endIt == m.endIt
            else Fails(r)
  {
    hide Advance, FieldAt;
    BehindField(mem, Behind(mem, 0));
    var t := m.beginIt.begin;
    AdvanceIs(mem, m.beginIt);
    if FieldAt(mem, t).Some? {
      BehindField(mem, t);
      AdvanceIs(mem, FieldAt(mem, t).value);
    }
  }

  /** The whole handler call: the first message is whole, and the others are followed into a trap. */
  lemma HandlerLoopsExactly(mem: string, len: nat, m: Msg)
    requires Terminated(mem) && !m.valid
    ensures WholeFirst(mem) && Trap(mem, len, FrameEnd(mem, 0), LeftTag(mem, 0))
            <==> forall turns: nat :: Handled(mem, len, m, turns).verdict.Running?
  {
    FirstIsValid(mem, m);
    hide Turns, Trap, InitOf, WholeFirst, FrameEnd, LeftTag;
    var first := InitOf(mem, 0, m);
    if WholeFirst(mem) {
      LoopsExactly(mem, len, first.value);
      if Trap(mem, len, first.value.end, first.value.beginIt.tag) {
        forall turns: nat ensures Handled(mem, len, m, turns).verdict.Running? {
          assert Turns(mem, len, first.value, turns).verdict.Running?;
        }
      } else if forall turns: nat :: Handled(mem, len, m, turns).verdict.Running? {
        forall turns: nat ensures Turns(mem, len, first.value, turns).verdict.Running? {
          assert Handled(mem, len, m, turns).verdict.Running?;
        }
      }
    } else {
      assert !Handled(mem, len, m, 0).verdict.Running?;
    }
  }

  /** Without negative numbers in memory every message ends behind its beginning, so only an unframed position is a trap. */
  lemma NoNegativeLengths(mem: string, len: nat, ps: seq<int>, kept: int)
    requires Terminated(mem) && forall i: nat :: StdAtoi(mem, i) >= 0
    requires Caught(mem, len, ps, kept)
    ensures !Framed(mem, ps[|ps| - 1]) && !Faults(mem, ps[|ps| - 1], KeptTag(mem, ps, kept))
  {
    hide Framed, Faults, FrameEnd, KeptTag, StdAtoi;
    if ps[|ps| - 1] in ps[..|ps| - 1] {
      var i :| 0 <= i < |ps| - 1 && ps[i] == ps[|ps| - 1];
      WalkClimbs(mem, len, ps, i, |ps| - 1);
      assert false;
    }
  }

  lemma {:induction false} WalkClimbs(mem: string, len: nat, ps: seq<int>, i: nat, j: nat)
    requires Terminated(mem) && (forall k: nat :: StdAtoi(mem, k) >= 0) && Walk(mem, len, ps) && i < j < |ps|
    ensures ps[i] < ps[j]
    decreases j
  {
    hide Framed, FrameEnd, StdAtoi;
    if i < j - 1 { WalkClimbs(mem, len, ps, i, j - 1); }
    assert WalkAt(mem, len, ps, j - 1);
    FrameClimbs(mem, ps[j - 1]);
  }

  lemma FrameClimbs(mem: string, at: int)
    requires Terminated(mem) && Framed(mem, at) && forall k: nat :: StdAtoi(mem, k) >= 0
    ensures FrameEnd(mem, at) > at
  {
    hide FieldAt, StdAtoi;
    BehindField(mem, at);
    BehindField(mem, Behind(mem, at));
    BehindField(mem, TrailerAt(mem, at));
  }

  /**
   A whole message followed by the beginning of another one, too short to hold a field: the handler never
   returns, and pushes an entry that is not final with every turn.
   */
  lemma TruncatedTailLoops(mem: string, len: nat, m: Msg, w: Written, turns: nat)
    requires Terminated(mem) && Good(w) && StartsAt(mem, 0, TextOf(w))
    requires |TextOf(w)| < len < |mem| && Scan(mem, |TextOf(w)|, -1).1 < 0
    requires |w.fields| > 1 ==> w.fields[1].tag != BeginString
    ensures var o := Handled(mem, len, m, turns);
            o.verdict.Running? && |o.entries| == turns + 1
  {
    hide InitOf, TextOf, Covered, TrueCheckSum, Good, StartsAt, Terminated, Scan;
    ReadsOne(mem, 0, w, m);
    var r := InitOf(mem, 0, m).value;
    NoFieldNoMove(mem, r);
    NoProgressNoReturn(mem, len, r, turns);
  }

  lemma NoFieldNoMove(mem: string, m: Msg)
    requires 0 <= m.end < |mem| && Scan(mem, m.end, -1).1 < 0 && m.beginIt.tag != BeginString
    ensures InitOf(mem, m.end, m).Some? && InitOf(mem, m.end, m).value.end == m.end
  {
  }
}
