/**
 The receive path as a protocol of two threads over one buffer pool.

 The poll thread reads into pooled buffers, lets the handler push one queue entry per message, and sends what
 was posted; the consumer thread pops entries, may post replies, and releases a buffer when it sees the entry
 marked final. Every interleaving of their steps is a run. Queues are bounded FIFOs; a step that would block
 is not enabled.
 */
module BufferProtocol {
  import opened Options

  datatype Kind = Heartbeat | Logon | Other

  /** fix_msg_t: an entry of the incoming queue. */
  datatype Entry = Entry(kind: Kind, buf: nat, final: bool)

  /**
   What the handler does with one read: nothing if the first message is invalid; one entry per message, the
   last one final; entries without a final one when a message runs past the end of the read; or entries
   without end when it never returns.
   */
  datatype Outcome =
    | Invalid
    | Whole(kinds: seq<Kind>)
    | Overrun(kinds: seq<Kind>)
    | Endless(kindAt: nat -> Kind)

  predicate ValidOutcome(o: Outcome) {
    match o
    case Invalid => true
    case Whole(kinds) => kinds != []
    case Overrun(kinds) => kinds != []
    case Endless(_) => true
  }

  datatype PollPc =
    | Starting                          // main(), before it gets a buffer for the logon message
    | LogonBuilt(buf: nat)
    | Polling
    | Reading(buf: nat)                 // got a buffer, about to read into it
    | Handling(buf: nat, left: Outcome) // inside the handler, with these messages still to push
    | GivingBack(buf: nat)              // the handler reported an invalid message
    | FailedRead(buf: nat)
    | Sending(buf: nat)                 // about to write a posted message
    | Sent(buf: nat)
    | Ended

  datatype ConsumerPc =
    | Waiting                           // at the head of its loop, about to look at the socket
    | Trying                            // the socket was open when it looked
    | Popped(e: Entry)
    | ReplyBuilt(e: Entry, buf: nat)
    | AtOnce(e: Entry)                  // before call_once
    | Requesting(e: Entry)              // inside call_once, logged in
    | RequestBuilt(e: Entry, buf: nat)
    | Finishing(e: Entry)               // before `if is_final`

  datatype State = State(
    open: bool, pool: seq<nat>, incoming: seq<Entry>, outgoing: seq<nat>,
    poll: PollPc, consumer: ConsumerPc, loggedIn: bool, requested: bool,
    lost: seq<nat>,                     // popped for a write that failed and closed the session
    stranded: seq<nat>)                 // read whose last message ran past its end

  datatype Params = Params(buffers: nat, inSize: nat, outSize: nat)

  datatype Action =
    | GetForLogon | PostLogon
    | HangUp
    | GetForRead | ReadMessages(o: Outcome) | ReadFailed | PushEntry
    | GiveBack | ReleaseAndClose
    | PopOutgoing | WriteDone | WriteFailed | ReleaseSent
    | CheckOpen | PopEntry | PopNothing | Reply | PostReply | SkipReply | Once | Request | PostRequest | Finish

  // ---- steps

  function Release(s: State, b: nat): State {
    s.(pool := s.pool + [b])
  }

  /** The next entry a handler pushes, and what is left for it to do. */
  function NextEntry(b: nat, o: Outcome): (Entry, Outcome)
    requires ValidOutcome(o) && !o.Invalid?
  {
    match o
    case Whole(kinds) => (Entry(kinds[0], b, |kinds| == 1), if |kinds| == 1 then Invalid else Whole(kinds[1..]))
    case Overrun(kinds) => (Entry(kinds[0], b, false), if |kinds| == 1 then Invalid else Overrun(kinds[1..]))
    case Endless(kindAt) => (Entry(kindAt(0), b, false), Endless((n: nat) => kindAt(n + 1)))
  }

  /** Pushing the next entry. A final entry hands the buffer over; the last of an overrun leaves it with nobody. */
  function PushOne(p: Params, s: State, b: nat, o: Outcome): Option<State> {
    if o.Invalid? || !ValidOutcome(o) || |s.incoming| >= p.inSize then None
    else
      var (e, left) := NextEntry(b, o);
      var pushed := s.(incoming := s.incoming + [e]);
      Some(if !left.Invalid? then pushed.(poll := Handling(b, left))
           else if e.final then pushed.(poll := Polling)
           else pushed.(poll := Polling, stranded := s.stranded + [b]))
  }

  function PollStep(p: Params, s: State, a: Action): Option<State> {
    match (s.poll, a)
    case (Starting, GetForLogon) =>
      if s.pool == [] then None else Some(s.(pool := s.pool[1..], poll := LogonBuilt(s.pool[0])))
    case (LogonBuilt(b), PostLogon) =>
      if |s.outgoing| >= p.outSize then None else Some(s.(outgoing := s.outgoing + [b], poll := Polling))
    case (Polling, HangUp) => Some(s.(open := false, poll := Ended))
    case (Polling, GetForRead) =>
      if s.pool == [] then None else Some(s.(pool := s.pool[1..], poll := Reading(s.pool[0])))
    case (Reading(b), ReadFailed) => Some(s.(poll := FailedRead(b)))
    case (Reading(b), ReadMessages(o)) =>
      if !ValidOutcome(o) then None else Some(s.(poll := if o.Invalid? then GivingBack(b) else Handling(b, o)))
    case (Handling(b, o), PushEntry) => PushOne(p, s, b, o)
    case (GivingBack(b), GiveBack) => Some(Release(s, b).(poll := Polling))
    case (FailedRead(b), ReleaseAndClose) => Some(Release(s, b).(open := false, poll := Ended))
    case (Polling, PopOutgoing) =>
      if s.outgoing == [] then None else Some(s.(outgoing := s.outgoing[1..], poll := Sending(s.outgoing[0])))
    case (Sending(b), WriteDone) => Some(s.(poll := Sent(b)))
    case (Sending(b), WriteFailed) => Some(s.(open := false, poll := Ended, lost := s.lost + [b]))
    case (Sent(b), ReleaseSent) => Some(Release(s, b).(poll := Polling))
    case _ => None
  }

  function ConsumerStep(p: Params, s: State, a: Action): Option<State> {
    match (s.consumer, a)
    case (Waiting, CheckOpen) =>
      if !s.open || s.poll.Starting? || s.poll.LogonBuilt? then None else Some(s.(consumer := Trying))
    case (Trying, PopNothing) => if s.incoming != [] then None else Some(s.(consumer := Waiting))
    case (Trying, PopEntry) =>
      if s.incoming == [] then None
      else
        var e := s.incoming[0];
        Some(s.(incoming := s.incoming[1..], consumer := Popped(e), loggedIn := s.loggedIn || e.kind == Logon))
    case (Popped(e), Reply) =>
      if e.kind != Heartbeat || s.pool == [] then None
      else Some(s.(pool := s.pool[1..], consumer := ReplyBuilt(e, s.pool[0])))
    case (ReplyBuilt(e, b), PostReply) =>
      if |s.outgoing| >= p.outSize then None else Some(s.(outgoing := s.outgoing + [b], consumer := AtOnce(e)))
    case (Popped(e), SkipReply) => if e.kind == Heartbeat then None else Some(s.(consumer := AtOnce(e)))
    case (AtOnce(e), Once) =>
      Some(s.(requested := true, consumer := if !s.requested && s.loggedIn then Requesting(e) else Finishing(e)))
    case (Requesting(e), Request) =>
      if s.pool == [] then None else Some(s.(pool := s.pool[1..], consumer := RequestBuilt(e, s.pool[0])))
    case (RequestBuilt(e, b), PostRequest) =>
      if |s.outgoing| >= p.outSize then None else Some(s.(outgoing := s.outgoing + [b], consumer := Finishing(e)))
    case (Finishing(e), Finish) =>
      Some((if e.final then Release(s, e.buf) else s).(consumer := Waiting))
    case _ => None
  }

  ghost predicate Step(p: Params, s: State, s': State) {
    exists a :: PollStep(p, s, a) == Some(s') || ConsumerStep(p, s, a) == Some(s')
  }

  function Buffers(n: nat): seq<nat> {
    if n == 0 then [] else Buffers(n - 1) + [n - 1]
  }

  function Init(p: Params): State {
    State(true, Buffers(p.buffers), [], [], Starting, Waiting, false, false, [], [])
  }

  ghost predicate IsRun(p: Params, run: seq<State>) {
    run != [] && run[0] == Init(p) && forall i :: 0 <= i < |run| - 1 ==> Step(p, run[i], run[i + 1])
  }

  // ---- where the buffers are

  function One(b: nat, c: nat): nat {
    if b == c then 1 else 0
  }

  function Times(b: nat, q: seq<nat>): nat {
    if q == [] then 0 else One(b, q[0]) + Times(b, q[1..])
  }

  /** The buffer in the poll thread's hands. */
  function PollHolds(pc: PollPc, b: nat): nat {
    if pc.Starting? || pc.Polling? || pc.Ended? then 0 else One(b, pc.buf)
  }

  /** The buffer an entry hands over. */
  function Owned(e: Entry, b: nat): nat {
    if e.final then One(b, e.buf) else 0
  }

  /** The buffers in the consumer's hands: a final entry's, and one it is about to post. */
  function ConsumerHolds(pc: ConsumerPc, b: nat): nat {
    if pc.Waiting? || pc.Trying? then 0
    else Owned(pc.e, b) + if pc.ReplyBuilt? || pc.RequestBuilt? then One(b, pc.buf) else 0
  }

  /** The buffers handed over through the incoming queue. */
  function Arriving(q: seq<Entry>, b: nat): nat {
    if q == [] then 0 else Owned(q[0], b) + Arriving(q[1..], b)
  }

  /** In how many places buffer b is. */
  function Places(s: State, b: nat): nat {
    Times(b, s.pool) + PollHolds(s.poll, b) + Arriving(s.incoming, b) + Times(b, s.outgoing)
    + ConsumerHolds(s.consumer, b) + Times(b, s.lost) + Times(b, s.stranded)
  }

  /** A non-final entry is followed by one for the same buffer, unless that is still being handled or was stranded. */
  predicate Chained(s: State) {
    forall i :: 0 <= i < |s.incoming| && !s.incoming[i].final ==> ChainedAt(s, i)
  }

  predicate ChainedAt(s: State, i: nat)
    requires i < |s.incoming|
  {
    var b := s.incoming[i].buf;
    || b in s.stranded
    || (if i + 1 < |s.incoming| then s.incoming[i + 1].buf == b else s.poll.Handling? && s.poll.buf == b)
  }

  predicate ValidPc(s: State) {
    && (s.poll.Handling? ==> ValidOutcome(s.poll.left) && !s.poll.left.Invalid?)
    && (s.poll.Starting? || s.poll.LogonBuilt? ==> s.consumer == Waiting && s.incoming == [])
    && (s.poll.Ended? <==> !s.open)
    && |s.lost| <= (if s.open then 0 else 1)
  }

  /** The invariant: all buffers are accounted for, each once, and entries are chained to their owner. */
  ghost predicate Inv(p: Params, s: State) {
    (forall b: nat :: Places(s, b) == if b < p.buffers then 1 else 0) && Chained(s) && ValidPc(s)
  }

  lemma {:induction false} ArrivingAppend(q: seq<Entry>, e: Entry, b: nat)
    ensures Arriving(q + [e], b) == Arriving(q, b) + Owned(e, b)
    decreases |q|
  {
    if q != [] {
      assert (q + [e])[1..] == q[1..] + [e];
      ArrivingAppend(q[1..], e, b);
    } else {
      assert q + [e] == [e] && [e][1..] == [];
    }
  }

  lemma {:induction false} TimesAppend(b: nat, q: seq<nat>, c: nat)
    ensures Times(b, q + [c]) == Times(b, q) + One(b, c)
    decreases |q|
  {
    if q != [] {
      assert (q + [c])[1..] == q[1..] + [c];
      TimesAppend(b, q[1..], c);
    } else {
      assert q + [c] == [c] && [c][1..] == [];
    }
  }

  lemma {:induction false} TimesPositive(b: nat, q: seq<nat>)
    ensures Times(b, q) > 0 <==> b in q
  {
    if q != [] {
      TimesPositive(b, q[1..]);
      assert q == [q[0]] + q[1..];
    }
  }

  lemma PushKeepsPlaces(p: Params, s: State, b: nat, o: Outcome, s': State, x: nat)
    requires s.poll == Handling(b, o) && PushOne(p, s, b, o) == Some(s')
    ensures Places(s', x) == Places(s, x)
  {
    var (e, left) := NextEntry(b, o);
    ArrivingAppend(s.incoming, e, x);
    TimesAppend(x, s.stranded, b);
    hide Arriving, Times;
  }

  lemma PollKeepsPlaces(p: Params, s: State, a: Action, s': State, x: nat)
    requires PollStep(p, s, a) == Some(s')
    ensures Places(s', x) == Places(s, x)
  {
    if s.poll.Handling? {
      PushKeepsPlaces(p, s, s.poll.buf, s.poll.left, s', x);
    } else if s.poll.Starting? || s.poll.Polling? || s.poll.Ended? {
      TimesFirst(x, s.pool);
      TimesFirst(x, s.outgoing);
      hide PushOne, Arriving, Times, One, ConsumerHolds;
    } else {
      PollGives(p, s, a, s', x);
    }
  }

  /** Steps in which the poll thread lets go of its buffer, or keeps it. */
  lemma PollGives(p: Params, s: State, a: Action, s': State, x: nat)
    requires PollStep(p, s, a) == Some(s') && !s.poll.Handling? && !s.poll.Starting? && !s.poll.Polling? && !s.poll.Ended?
    ensures Places(s', x) == Places(s, x)
  {
    if s.poll.LogonBuilt? {
      TimesAppend(x, s.outgoing, s.poll.buf);
      hide PushOne, Arriving, Times, One, ConsumerHolds;
    } else if s.poll.Sending? {
      TimesAppend(x, s.lost, s.poll.buf);
      hide PushOne, Arriving, Times, One, ConsumerHolds;
    } else {
      TimesAppend(x, s.pool, s.poll.buf);
      hide PushOne, Arriving, Times, One, ConsumerHolds;
    }
  }

  lemma TimesFirst(b: nat, q: seq<nat>)
    ensures q != [] ==> Times(b, q) == One(b, q[0]) + Times(b, q[1..])
  {
  }

  lemma ConsumerKeepsPlaces(p: Params, s: State, a: Action, s': State, x: nat)
    requires ConsumerStep(p, s, a) == Some(s')
    ensures Places(s', x) == Places(s, x)
  {
    if s.consumer.ReplyBuilt? || s.consumer.RequestBuilt? || s.consumer.Finishing? {
      ConsumerGives(p, s, a, s', x);
    } else if s.consumer.Trying? {
      hide Times, One, PollHolds;
    } else {
      TimesFirst(x, s.pool);
      hide Times, One, PollHolds, Arriving, Owned;
    }
  }

  /** Steps in which the consumer lets go of a buffer. */
  lemma ConsumerGives(p: Params, s: State, a: Action, s': State, x: nat)
    requires ConsumerStep(p, s, a) == Some(s') && (s.consumer.ReplyBuilt? || s.consumer.RequestBuilt? || s.consumer.Finishing?)
    ensures Places(s', x) == Places(s, x)
  {
    if s.consumer.Finishing? {
      TimesAppend(x, s.pool, s.consumer.e.buf);
      hide Times, One, PollHolds, Arriving;
    } else {
      TimesAppend(x, s.outgoing, s.consumer.buf);
      hide Times, One, PollHolds, Arriving;
    }
  }

  lemma PushKeepsChained(p: Params, s: State, b: nat, o: Outcome, s': State)
    requires s.poll == Handling(b, o) && PushOne(p, s, b, o) == Some(s') && Chained(s)
    ensures Chained(s')
  {
    var q, q' := s.incoming, s'.incoming;
    forall i | 0 <= i < |q'| && !q'[i].final ensures ChainedAt(s', i) {
      if i < |q| {
        assert ChainedAt(s, i) && q'[i] == q[i];
      }
    }
  }

  lemma PollStepKeeps(p: Params, s: State, a: Action, s': State)
    requires Inv(p, s) && PollStep(p, s, a) == Some(s')
    ensures Inv(p, s')
  {
    forall b: nat ensures Places(s', b) == Places(s, b) { PollKeepsPlaces(p, s, a, s', b); }
    hide Places;
    if s.poll.Handling? {
      PushKeepsChained(p, s, s.poll.buf, s.poll.left, s');
    } else {
      hide PushOne;
      assert s'.incoming == s.incoming && s.stranded == s'.stranded;
      forall i | 0 <= i < |s.incoming| && !s.incoming[i].final ensures ChainedAt(s', i) { assert ChainedAt(s, i); }
    }
  }

  lemma ConsumerStepKeeps(p: Params, s: State, a: Action, s': State)
    requires Inv(p, s) && ConsumerStep(p, s, a) == Some(s')
    ensures Inv(p, s')
  {
    forall b: nat ensures Places(s', b) == Places(s, b) { ConsumerKeepsPlaces(p, s, a, s', b); }
    hide Places;
    var k := if a == PopEntry then 1 else 0;
    assert s'.incoming == s.incoming[k..];
    forall i | 0 <= i < |s'.incoming| && !s'.incoming[i].final ensures ChainedAt(s', i) {
      assert ChainedAt(s, i + k);
    }
  }

  lemma {:induction false} InitPlaces(n: nat, b: nat)
    ensures Times(b, Buffers(n)) == if b < n then 1 else 0
  {
    if n > 0 {
      InitPlaces(n - 1, b);
      TimesAppend(b, Buffers(n - 1), n - 1);
    }
  }

  lemma {:induction false} RunKeeps(p: Params, run: seq<State>, i: nat)
    requires IsRun(p, run) && i < |run|
    ensures Inv(p, run[i])
  {
    if i == 0 {
      forall b: nat ensures Places(run[0], b) == if b < p.buffers then 1 else 0 { InitPlaces(p.buffers, b); }
    } else {
      RunKeeps(p, run, i - 1);
      var s, s' := run[i - 1], run[i];
      hide Inv, PollStep, ConsumerStep;
      assert Step(p, s, s');
      var a :| PollStep(p, s, a) == Some(s') || ConsumerStep(p, s, a) == Some(s');
      if PollStep(p, s, a) == Some(s') { PollStepKeeps(p, s, a, s'); } else { ConsumerStepKeeps(p, s, a, s'); }
    }
  }

  // ---- what the invariant means

  /** Whose hands a buffer is in, or which queue. */
  predicate PollOwns(s: State, b: nat) {
    PollHolds(s.poll, b) > 0
  }

  predicate ConsumerOwns(s: State, b: nat) {
    ConsumerHolds(s.consumer, b) > 0
  }

  predicate HandedOver(s: State, b: nat) {
    exists i :: 0 <= i < |s.incoming| && s.incoming[i].final && s.incoming[i].buf == b
  }

  lemma {:induction false} ArrivingPositive(q: seq<Entry>, b: nat, i: nat)
    requires i < |q| && q[i].final && q[i].buf == b
    ensures Arriving(q, b) > 0
  {
    if i > 0 { ArrivingPositive(q[1..], b, i - 1); }
  }

  /**
   In every reachable state no two owners share a buffer: a buffer the poll thread reads, fills, parses or writes
   is not in the pool, not posted, not with the consumer and not handed over by a final entry, and likewise for
   every other pair of places.
   */
  lemma OneOwner(p: Params, run: seq<State>, i: nat, b: nat)
    requires IsRun(p, run) && i < |run|
    ensures var s := run[i];
            && (PollOwns(s, b) ==> b !in s.pool && b !in s.outgoing && !ConsumerOwns(s, b) && !HandedOver(s, b))
            && (ConsumerOwns(s, b) ==> b !in s.pool && b !in s.outgoing && !HandedOver(s, b))
            && (HandedOver(s, b) ==> b !in s.pool && b !in s.outgoing)
            && !(b in s.pool && b in s.outgoing)
            && (b in s.lost || b in s.stranded ==>
                  b !in s.pool && b !in s.outgoing && !PollOwns(s, b) && !ConsumerOwns(s, b) && !HandedOver(s, b))
  {
    RunKeeps(p, run, i);
    var s := run[i];
    assert Places(s, b) <= 1;
    TimesPositive(b, s.pool);
    TimesPositive(b, s.outgoing);
    TimesPositive(b, s.lost);
    TimesPositive(b, s.stranded);
    if HandedOver(s, b) {
      var k :| 0 <= k < |s.incoming| && s.incoming[k].final && s.incoming[k].buf == b;
      ArrivingPositive(s.incoming, b, k);
    }
    hide Times, Arriving, PollHolds, ConsumerHolds;
  }

  /** No buffer is ever released while it is in the pool. */
  lemma NeverReleasedTwice(p: Params, run: seq<State>, i: nat, b: nat)
    requires IsRun(p, run) && i + 1 < |run| && run[i + 1].pool == run[i].pool + [b]
    ensures b !in run[i].pool && b < p.buffers
  {
    RunKeeps(p, run, i + 1);
    assert Places(run[i + 1], b) <= 1;
    TimesAppend(b, run[i].pool, b);
    TimesPositive(b, run[i].pool);
    hide Arriving, PollHolds, ConsumerHolds;
  }

  /** An entry's buffer is owned by a later final entry, is being handled, or was stranded. */
  lemma {:induction false} ChainEnds(s: State, i: nat)
    requires Chained(s) && i < |s.incoming|
    ensures var b := s.incoming[i].buf;
            HandedOver(s, b) || (s.poll.Handling? && s.poll.buf == b) || b in s.stranded
    decreases |s.incoming| - i
  {
    if !s.incoming[i].final {
      assert ChainedAt(s, i);
      if i + 1 < |s.incoming| && s.incoming[i + 1].buf == s.incoming[i].buf { ChainEnds(s, i + 1); }
    }
  }

  /** No waiting entry refers to a buffer that is free, is being filled by a read, or is on its way out. */
  lemma NoStaleEntry(p: Params, run: seq<State>, i: nat, k: nat)
    requires IsRun(p, run) && i < |run| && k < |run[i].incoming|
    ensures var s := run[i]; var b := s.incoming[k].buf;
            && b !in s.pool && b !in s.outgoing && b !in s.lost
            && (PollOwns(s, b) ==> s.poll.Handling?)
  {
    var s := run[i];
    var b := s.incoming[k].buf;
    RunKeeps(p, run, i);
    ChainEnds(s, k);
    OneOwner(p, run, i, b);
    assert Places(s, b) <= 1;
    TimesPositive(b, s.lost);
    TimesPositive(b, s.stranded);
    hide Times, Arriving, ConsumerHolds;
    if HandedOver(s, b) {
      var j :| 0 <= j < |s.incoming| && s.incoming[j].final && s.incoming[j].buf == b;
      ArrivingPositive(s.incoming, b, j);
    }
  }

  lemma PollStrands(p: Params, s: State, a: Action, s': State)
    requires PollStep(p, s, a) == Some(s')
    ensures if EndsOverrun(s) then s'.stranded == s.stranded + [s.poll.buf] else s'.stranded == s.stranded
  {
  }

  lemma ConsumerStrandsNothing(p: Params, s: State, a: Action, s': State)
    requires ConsumerStep(p, s, a) == Some(s')
    ensures s'.stranded == s.stranded && s'.poll == s.poll
  {
  }

  /** The handler has one entry left to push, of a read whose last message runs past its end. */
  predicate EndsOverrun(s: State) {
    s.poll.Handling? && s.poll.left.Overrun? && |s.poll.left.kinds| == 1
  }

  /** A step strands a buffer if and only if it pushes the last entry of a read whose last message runs past its end. */
  lemma OnlyOverrunStrands(p: Params, s: State, s': State)
    requires Step(p, s, s')
    ensures s'.stranded != s.stranded <==> EndsOverrun(s) && s'.poll != s.poll
    ensures s'.stranded != s.stranded ==> s'.stranded == s.stranded + [s.poll.buf] && s'.incoming == s.incoming + [Entry(s.poll.left.kinds[0], s.poll.buf, false)]
  {
    hide PollStep, ConsumerStep;
    var a :| PollStep(p, s, a) == Some(s') || ConsumerStep(p, s, a) == Some(s');
    if ConsumerStep(p, s, a) == Some(s') {
      ConsumerStrandsNothing(p, s, a, s');
    } else {
      PollStrands(p, s, a, s');
      if EndsOverrun(s) { PushesLast(p, s, a, s'); }
    }
  }

  lemma PushesLast(p: Params, s: State, a: Action, s': State)
    requires PollStep(p, s, a) == Some(s') && EndsOverrun(s)
    ensures s'.poll == Polling && s'.incoming == s.incoming + [Entry(s.poll.left.kinds[0], s.poll.buf, false)]
  {
  }

  // ---- bounds

  function UpTo(n: nat): set<nat> {
    if n == 0 then {} else UpTo(n - 1) + {n - 1}
  }

  lemma {:induction false} UpToFacts(n: nat)
    ensures |UpTo(n)| == n && forall b: nat :: b in UpTo(n) <==> b < n
  {
    if n > 0 { UpToFacts(n - 1); }
  }

  lemma {:induction false} DistinctSize(q: seq<nat>, within: set<nat>)
    requires forall b :: Times(b, q) <= 1 && (b in q ==> b in within)
    ensures |q| <= |within|
  {
    if q != [] {
      var t := q[1..];
      assert q == [q[0]] + t;
      TimesPositive(q[0], t);
      forall b ensures Times(b, t) <= 1 && (b in t ==> b in within - {q[0]}) {
        assert Times(b, q) == One(b, q[0]) + Times(b, t);
        TimesPositive(b, t);
      }
      DistinctSize(t, within - {q[0]});
    }
  }

  /**
   The queues of buffers cannot overflow: a release always finds room in a pool queue of N places, and, with
   at least N places for posted messages, so does a post.
   */
  lemma RoomForBuffers(p: Params, run: seq<State>, i: nat, b: nat)
    requires IsRun(p, run) && i < |run| && (PollOwns(run[i], b) || ConsumerOwns(run[i], b))
    ensures |run[i].pool| < p.buffers && |run[i].outgoing| < p.buffers
  {
    var s := run[i];
    RunKeeps(p, run, i);
    OneOwner(p, run, i, b);
    assert Places(s, b) <= 1 && b < p.buffers by { hide Times, Arriving; assert Places(s, b) > 0; }
    UpToFacts(p.buffers);
    var others := UpTo(p.buffers) - {b};
    forall c: nat ensures Times(c, s.pool) <= 1 && (c in s.pool ==> c in others)
                   && Times(c, s.outgoing) <= 1 && (c in s.outgoing ==> c in others) {
      assert Places(s, c) == if c < p.buffers then 1 else 0;
      TimesPositive(c, s.pool);
      TimesPositive(c, s.outgoing);
      hide Times, Arriving, PollHolds, ConsumerHolds;
    }
    DistinctSize(s.pool, others);
    DistinctSize(s.outgoing, others);
  }

  // ---- where progress can end

  /** A stretch of some run. */
  ghost predicate Continues(p: Params, run: seq<State>) {
    forall k :: 0 <= k < |run| - 1 ==> Step(p, run[k], run[k + 1])
  }

  lemma StepOf(p: Params, run: seq<State>, k: nat)
    requires Continues(p, run) && k + 1 < |run|
    ensures Step(p, run[k], run[k + 1])
  {
    hide Step;
  }

  /** The poll thread is inside a handler call that will never return. */
  predicate StuckInHandler(s: State) {
    s.poll.Handling? && s.poll.left.Endless?
  }

  /** A read whose handler never returns keeps the poll thread in the handler for the rest of the run. */
  lemma {:induction false} EndlessForever(p: Params, run: seq<State>, i: nat, j: nat)
    requires Continues(p, run) && i <= j < |run|
    requires StuckInHandler(run[i])
    ensures StuckInHandler(run[j]) && run[j].poll.buf == run[i].poll.buf
  {
    hide Continues, Step;
    if i < j {
      EndlessForever(p, run, i, j - 1);
      StepOf(p, run, j - 1);
      StuckStep(p, run[j - 1], run[j]);
    }
  }

  lemma StuckStep(p: Params, s: State, s': State)
    requires Step(p, s, s') && StuckInHandler(s)
    ensures StuckInHandler(s') && s'.poll.buf == s.poll.buf
  {
    hide PollStep, ConsumerStep;
    var a :| PollStep(p, s, a) == Some(s') || ConsumerStep(p, s, a) == Some(s');
    if PollStep(p, s, a) == Some(s') { PollStaysStuck(p, s, a, s'); } else { ConsumerLeavesPoll(p, s, a, s'); }
  }

  lemma PollStaysStuck(p: Params, s: State, a: Action, s': State)
    requires PollStep(p, s, a) == Some(s') && StuckInHandler(s)
    ensures StuckInHandler(s') && s'.poll.buf == s.poll.buf
  {
  }

  lemma ConsumerLeavesPoll(p: Params, s: State, a: Action, s': State)
    requires ConsumerStep(p, s, a) == Some(s')
    ensures s'.poll == s.poll
  {
  }

  /** Every free buffer is used up, nothing is on its way out, and the consumer waits for a buffer to reply with. */
  predicate Starved(s: State) {
    && s.pool == [] && s.outgoing == [] && (s.poll.Polling? || s.poll.Ended?)
    && ((s.consumer.Popped? && s.consumer.e.kind == Heartbeat) || s.consumer.Requesting?)
  }

  /** Once starved, always starved: neither thread gets a buffer again. */
  lemma {:induction false} StarvedForever(p: Params, run: seq<State>, i: nat, j: nat)
    requires Continues(p, run) && i <= j < |run|
    requires Starved(run[i])
    ensures Starved(run[j]) && run[j].consumer == run[i].consumer
  {
    hide Continues, Step, Starved;
    if i < j {
      StarvedForever(p, run, i, j - 1);
      StepOf(p, run, j - 1);
      StarvedStep(p, run[j - 1], run[j]);
    }
  }

  lemma StarvedStep(p: Params, s: State, s': State)
    requires Step(p, s, s') && Starved(s)
    ensures Starved(s') && s'.consumer == s.consumer
  {
    hide PollStep, ConsumerStep;
    var a :| PollStep(p, s, a) == Some(s') || ConsumerStep(p, s, a) == Some(s');
    ConsumerIsStarved(p, s, a);
    PollStaysStarved(p, s, a, s');
  }

  lemma PollStaysStarved(p: Params, s: State, a: Action, s': State)
    requires PollStep(p, s, a) == Some(s') && Starved(s)
    ensures Starved(s') && s'.consumer == s.consumer
  {
  }

  lemma ConsumerIsStarved(p: Params, s: State, a: Action)
    requires Starved(s)
    ensures ConsumerStep(p, s, a) == None
  {
  }

  lemma ExtendRun(p: Params, run: seq<State>, s': State)
    requires IsRun(p, run) && Step(p, run[|run| - 1], s')
    ensures IsRun(p, run + [s'])
  {
    var longer := run + [s'];
    forall i | 0 <= i < |longer| - 1 ensures Step(p, longer[i], longer[i + 1]) {
      if i < |run| - 1 { assert longer[i] == run[i] && longer[i + 1] == run[i + 1]; }
    }
  }

  // ---- when starvation can happen

  lemma PollKeepsBound(p: Params, s: State, a: Action, s': State)
    requires PollStep(p, s, a) == Some(s') && |s.incoming| <= p.inSize
    ensures |s'.incoming| <= p.inSize
  {
  }

  lemma ConsumerKeepsBound(p: Params, s: State, a: Action, s': State)
    requires ConsumerStep(p, s, a) == Some(s') && |s.incoming| <= p.inSize
    ensures |s'.incoming| <= p.inSize
  {
  }

  /** The incoming queue never holds more than it has places. */
  lemma {:induction false} QueueBound(p: Params, run: seq<State>, i: nat)
    requires IsRun(p, run) && i < |run|
    ensures |run[i].incoming| <= p.inSize
  {
    hide PollStep, ConsumerStep;
    if i > 0 {
      QueueBound(p, run, i - 1);
      var s, s' := run[i - 1], run[i];
      assert Step(p, s, s');
      var a :| PollStep(p, s, a) == Some(s') || ConsumerStep(p, s, a) == Some(s');
      if PollStep(p, s, a) == Some(s') { PollKeepsBound(p, s, a, s'); } else { ConsumerKeepsBound(p, s, a, s'); }
    }
  }

  function BufsOf(q: seq<Entry>): seq<nat> {
    if q == [] then [] else [q[0].buf] + BufsOf(q[1..])
  }

  lemma {:induction false} ArrivingIsListed(q: seq<Entry>, b: nat)
    ensures |BufsOf(q)| == |q| && (Arriving(q, b) > 0 ==> b in BufsOf(q))
  {
    if q != [] { ArrivingIsListed(q[1..], b); }
  }

  function Elements(q: seq<nat>): set<nat> {
    set b | b in q
  }

  lemma {:induction false} ElementCount(q: seq<nat>)
    ensures |Elements(q)| <= |q|
  {
    if q != [] {
      ElementCount(q[1..]);
      assert q == [q[0]] + q[1..];
      assert Elements(q) == Elements(q[1..]) + {q[0]};
    }
  }

  /** A list that holds all numbers below n is at least that long. */
  lemma ListsAll(q: seq<nat>, n: nat)
    requires forall b: nat :: b < n ==> b in q
    ensures n <= |q|
  {
    UpToFacts(n);
    ElementCount(q);
    SubsetSize(UpTo(n), Elements(q));
  }

  lemma SubsetSize(a: set<nat>, b: set<nat>)
    requires a <= b
    ensures |a| <= |b|
  {
    assert b == a + (b - a);
  }

  /**
   Starvation takes every buffer: all of them wait in the incoming queue or are in the consumer's hand, but for those
   that are stranded or lost.
   */
  lemma StarvedBound(p: Params, run: seq<State>, i: nat)
    requires IsRun(p, run) && i < |run| && Starved(run[i])
    ensures p.buffers <= p.inSize + 1 + |run[i].stranded| + |run[i].lost|
    ensures run[i].open ==> run[i].lost == []
  {
    var s := run[i];
    RunKeeps(p, run, i);
    QueueBound(p, run, i);
    hide IsRun;
    var all := BufsOf(s.incoming) + [s.consumer.e.buf] + s.lost + s.stranded;
    forall b: nat | b < p.buffers ensures b in all {
      assert Places(s, b) == 1;
      ArrivingIsListed(s.incoming, b);
      TimesPositive(b, s.lost);
      TimesPositive(b, s.stranded);
      hide Times, Arriving, BufsOf;
    }
    ListsAll(all, p.buffers);
    ArrivingIsListed(s.incoming, 0);
  }

  /** All but n buffers are stranded; k of the n have been handed over, each with one heartbeat request, and the others are free. */
  predicate Filled(p: Params, s: State, n: nat, k: nat) {
    && k <= n <= p.buffers && s.open && s.poll == Polling && s.consumer == Waiting && s.outgoing == [] && s.lost == [] && !s.loggedIn
    && |s.pool| == n - k && |s.incoming| == k && |s.stranded| == p.buffers - n
    && forall i :: 0 <= i < k ==> s.incoming[i].kind == Heartbeat
  }

  /** The logon message goes out and its buffer comes back. */
  lemma LogonSent(p: Params) returns (run: seq<State>)
    requires 0 < p.buffers && 0 < p.outSize
    ensures IsRun(p, run) && Filled(p, run[|run| - 1], p.buffers, 0)
  {
    var s0 := Init(p);
    BuffersSize(p.buffers);
    var b := s0.pool[0];
    var s1 := s0.(pool := s0.pool[1..], poll := LogonBuilt(b));
    var s2 := s1.(outgoing := s1.outgoing + [b], poll := Polling);
    assert s2.outgoing == [b];
    var s3 := s2.(outgoing := s2.outgoing[1..], poll := Sending(b));
    var s4 := s3.(poll := Sent(b));
    var s5 := s4.(pool := s4.pool + [b], poll := Polling);
    assert Filled(p, s5, p.buffers, 0);
    assert IsRun(p, [s0]);
    LogonSteps(p, s0, s1, s2, s3, s4, s5, b);
    hide IsRun, Filled, PollStep, Init;
    run := [s0];
    run := ExtendPoll(p, run, GetForLogon, s1);
    run := ExtendPoll(p, run, PostLogon, s2);
    run := ExtendPoll(p, run, PopOutgoing, s3);
    run := ExtendPoll(p, run, WriteDone, s4);
    run := ExtendPoll(p, run, ReleaseSent, s5);
  }

  lemma LogonSteps(p: Params, s0: State, s1: State, s2: State, s3: State, s4: State, s5: State, b: nat)
    requires p.outSize > 0 && s0.poll.Starting? && s0.outgoing == [] && s0.pool != [] && b == s0.pool[0]
    requires s1 == s0.(pool := s0.pool[1..], poll := LogonBuilt(b)) && s2 == s1.(outgoing := s1.outgoing + [b], poll := Polling)
    requires s3 == s2.(outgoing := s2.outgoing[1..], poll := Sending(b)) && s4 == s3.(poll := Sent(b))
    requires s5 == s4.(pool := s4.pool + [b], poll := Polling)
    ensures PollStep(p, s0, GetForLogon) == Some(s1) && PollStep(p, s1, PostLogon) == Some(s2)
    ensures PollStep(p, s2, PopOutgoing) == Some(s3) && PollStep(p, s3, WriteDone) == Some(s4) && PollStep(p, s4, ReleaseSent) == Some(s5)
  {
    assert s2.outgoing == [b];
  }

  lemma ExtendPoll(p: Params, run: seq<State>, a: Action, s': State) returns (longer: seq<State>)
    requires IsRun(p, run) && PollStep(p, run[|run| - 1], a) == Some(s')
    ensures IsRun(p, longer) && longer != [] && longer[|longer| - 1] == s'
  {
    assert Step(p, run[|run| - 1], s');
    hide PollStep, ConsumerStep, Step;
    ExtendRun(p, run, s');
    longer := run + [s'];
  }

  lemma ExtendConsumer(p: Params, run: seq<State>, a: Action, s': State) returns (longer: seq<State>)
    requires IsRun(p, run) && ConsumerStep(p, run[|run| - 1], a) == Some(s')
    ensures IsRun(p, longer) && longer != [] && longer[|longer| - 1] == s'
  {
    assert Step(p, run[|run| - 1], s');
    hide PollStep, ConsumerStep, Step;
    ExtendRun(p, run, s');
    longer := run + [s'];
  }

  /** One more read, of a single message of the given kind; whole says whether it ends with the read. */
  function ReadOutcome(kind: Kind, whole: bool): Outcome {
    if whole then Whole([kind]) else Overrun([kind])
  }

  /** The state after such a read. */
  function AfterRead(s: State, kind: Kind, whole: bool): State
    requires s.pool != []
  {
    var b := s.pool[0];
    s.(pool := s.pool[1..], incoming := s.incoming + [Entry(kind, b, whole)], stranded := if whole then s.stranded else s.stranded + [b])
  }

  lemma ReadOnce(p: Params, run: seq<State>, kind: Kind, whole: bool) returns (longer: seq<State>)
    requires IsRun(p, run) && run[|run| - 1].poll == Polling && run[|run| - 1].pool != [] && |run[|run| - 1].incoming| < p.inSize
    ensures IsRun(p, longer) && longer[|longer| - 1] == AfterRead(run[|run| - 1], kind, whole)
  {
    var s0 := run[|run| - 1];
    var b, o := s0.pool[0], ReadOutcome(kind, whole);
    var s1 := s0.(pool := s0.pool[1..], poll := Reading(b));
    var s2 := s1.(poll := Handling(b, o));
    var s3 := AfterRead(s0, kind, whole);
    assert PollStep(p, s0, GetForRead) == Some(s1) && PollStep(p, s1, ReadMessages(o)) == Some(s2);
    assert PollStep(p, s2, PushEntry) == Some(s3);
    hide IsRun, PollStep;
    longer := ExtendPoll(p, run, GetForRead, s1);
    longer := ExtendPoll(p, longer, ReadMessages(o), s2);
    longer := ExtendPoll(p, longer, PushEntry, s3);
  }

  /** The consumer takes the next entry off the queue. */
  lemma TakeEntry(p: Params, run: seq<State>) returns (longer: seq<State>)
    requires IsRun(p, run)
    requires var s := run[|run| - 1]; s.open && s.poll == Polling && s.consumer == Waiting && s.incoming != []
    ensures IsRun(p, longer)
    ensures var s := run[|run| - 1]; var e := s.incoming[0];
            longer[|longer| - 1] == s.(incoming := s.incoming[1..], consumer := Popped(e), loggedIn := s.loggedIn || e.kind == Logon)
  {
    var s0 := run[|run| - 1];
    var e := s0.incoming[0];
    var s1 := s0.(consumer := Trying);
    var s2 := s0.(incoming := s0.incoming[1..], consumer := Popped(e), loggedIn := s0.loggedIn || e.kind == Logon);
    assert ConsumerStep(p, s0, CheckOpen) == Some(s1) && ConsumerStep(p, s1, PopEntry) == Some(s2);
    hide IsRun, ConsumerStep;
    longer := ExtendConsumer(p, run, CheckOpen, s1);
    longer := ExtendConsumer(p, longer, PopEntry, s2);
  }

  /** An overrunning read of one message, whose entry the consumer then goes through: one buffer less is in circulation. */
  lemma StrandOne(p: Params, run: seq<State>, n: nat) returns (longer: seq<State>)
    requires IsRun(p, run) && 0 < n && 0 < p.inSize && Filled(p, run[|run| - 1], n, 0)
    ensures IsRun(p, longer) && Filled(p, longer[|longer| - 1], n - 1, 0)
  {
    longer := ReadOnce(p, run, Other, false);
    var s0 := longer[|longer| - 1];
    var e := s0.incoming[0];
    longer := TakeEntry(p, longer);
    var s1 := longer[|longer| - 1];
    var s2 := s1.(consumer := AtOnce(e));
    var s3 := s2.(requested := true, consumer := Finishing(e));
    var s4 := s3.(consumer := Waiting);
    assert ConsumerStep(p, s1, SkipReply) == Some(s2) && ConsumerStep(p, s2, Once) == Some(s3) && ConsumerStep(p, s3, Finish) == Some(s4);
    assert Filled(p, s4, n - 1, 0);
    hide IsRun, ConsumerStep, Filled;
    longer := ExtendConsumer(p, longer, SkipReply, s2);
    longer := ExtendConsumer(p, longer, Once, s3);
    longer := ExtendConsumer(p, longer, Finish, s4);
  }

  /** With all but n buffers stranded. */
  lemma {:induction false} Shrink(p: Params, n: nat) returns (run: seq<State>)
    requires n <= p.buffers && 0 < p.buffers && 0 < p.inSize && 0 < p.outSize
    ensures IsRun(p, run) && Filled(p, run[|run| - 1], n, 0)
    decreases p.buffers - n
  {
    hide IsRun, Filled;
    if n == p.buffers {
      run := LogonSent(p);
    } else {
      run := Shrink(p, n + 1);
      run := StrandOne(p, run, n + 1);
    }
  }

  lemma {:induction false} FillUp(p: Params, n: nat, k: nat) returns (run: seq<State>)
    requires k <= n <= p.buffers && k <= p.inSize && 0 < p.buffers && 0 < p.inSize && 0 < p.outSize
    ensures IsRun(p, run) && Filled(p, run[|run| - 1], n, k)
  {
    hide IsRun;
    if k == 0 {
      run := Shrink(p, n);
    } else {
      run := FillUp(p, n, k - 1);
      run := ReadOnce(p, run, Heartbeat, true);
    }
  }

  lemma {:induction false} BuffersSize(n: nat)
    ensures |Buffers(n)| == n
  {
    if n > 0 { BuffersSize(n - 1); }
  }

  /**
   With a heartbeat request waiting in every buffer, the consumer's first reply starves. Whatever the number of buffers
   and the sizes of the queues, some run gets there: overrunning reads strand what the incoming queue cannot take.
   */
  lemma StarvationIsReachable(p: Params) returns (run: seq<State>)
    requires 0 < p.buffers && 0 < p.inSize && 0 < p.outSize
    ensures IsRun(p, run) && Starved(run[|run| - 1]) && run[|run| - 1].open
    ensures p.buffers <= p.inSize ==> run[|run| - 1].stranded == []
  {
    hide IsRun;
    var n := if p.buffers <= p.inSize then p.buffers else p.inSize;
    run := FillUp(p, n, n);
    run := TakeEntry(p, run);
  }

  /** One buffer more than the queue has places: the consumer holds one request while another is read. */
  lemma StarvationWithOneMore(p: Params) returns (run: seq<State>)
    requires 0 < p.inSize && 0 < p.outSize && p.buffers == p.inSize + 1
    ensures IsRun(p, run) && Starved(run[|run| - 1]) && run[|run| - 1].open && run[|run| - 1].stranded == []
  {
    hide IsRun;
    run := FillUp(p, p.buffers, p.inSize);
    run := TakeEntry(p, run);
    run := ReadOnce(p, run, Heartbeat, true);
  }

  /**
   Without a stranded buffer, and with the session open, both threads can starve if and only if there is at most one
   buffer more than the incoming queue has places.
   */
  lemma StarvationExactly(p: Params)
    requires 0 < p.buffers && 0 < p.inSize && 0 < p.outSize
    ensures p.buffers <= p.inSize + 1 <==> exists run: seq<State> :: IsRun(p, run) && StarvedAtEnd(run)
  {
    hide Step, Starved;
    if p.buffers <= p.inSize {
      var run := StarvationIsReachable(p);
      assert StarvedAtEnd(run);
    } else if p.buffers == p.inSize + 1 {
      var run := StarvationWithOneMore(p);
      assert StarvedAtEnd(run);
    }
    forall run: seq<State> | IsRun(p, run) && StarvedAtEnd(run) ensures p.buffers <= p.inSize + 1 {
      StarvedBound(p, run, |run| - 1);
    }
  }

  predicate StarvedAtEnd(run: seq<State>) {
    run != [] && Starved(run[|run| - 1]) && run[|run| - 1].open && run[|run| - 1].stranded == []
  }
}
