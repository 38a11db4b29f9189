/** What the two threads do with each message, from the text that was received to the consumer's steps. */
module SessionLaws {
  import opened Options
  import opened Strings
  import opened FixWriter
  import opened FixParser
  import opened FixHandler
  import P = BufferProtocol

  // ---- the consumer's reaction to a message

  lemma {:induction false} ExpectedAt(ws: seq<Written>, i: nat)
    requires i < |ws|
    ensures |Expected(ws)| == |ws|
    ensures Expected(ws)[i] == Entry(KindOf(ws[i]), TrueCheckSum(Covered(ws[i])), i + 1 == |ws|)
    decreases |ws|
  {
    hide KindOf, TrueCheckSum, Covered;
    if |ws| > 1 { ExpectedAt(ws[1..], if i > 0 then i - 1 else 0); }
  }

  /** The first character of the MsgType value, if it has one. */
  predicate TypeBegins(w: Written, c: char) {
    w.fields != [] && w.fields[0].value != "" && w.fields[0].value[0] == c
  }

  /** The consumer can do nothing in state s but a, given a free buffer if a takes one. */
  ghost predicate Only(p: P.Params, s: P.State, a: P.Action) {
    && (forall o :: o != a ==> P.ConsumerStep(p, s, o).None?)
    && (P.ConsumerStep(p, s, a).Some? <==> (a.Reply? ==> s.pool != []))
  }

  /**
   The consumer pops the entry queued for the i-th of the messages of a read. A heartbeat or a test request is answered;
   a logon logs the session in; nothing else is either.
   */
  lemma MessageDecides(mem: string, m: Msg, ws: seq<Written>, turns: nat, i: nat, b: nat, p: P.Params, s: P.State, s': P.State)
    requires Terminated(mem) && AllGood(ws) && i < |ws| && turns >= |ws| - 1 && StartsAt(mem, 0, AllText(ws))
    requires var queued := AsQueued(Handled(mem, |AllText(ws)|, m, turns).entries, b);
             s.incoming != [] && (i < |queued| ==> s.incoming[0] == queued[i])
    requires P.ConsumerStep(p, s, P.PopEntry) == Some(s')
    ensures |Handled(mem, |AllText(ws)|, m, turns).entries| == |ws| && s'.consumer == P.Popped(s.incoming[0])
    ensures s.incoming[0].buf == b && (s.incoming[0].final <==> i == |ws| - 1)
    ensures s'.loggedIn <==> s.loggedIn || TypeBegins(ws[i], 'A')
    ensures Only(p, s', if TypeBegins(ws[i], '0') || TypeBegins(ws[i], '1') then P.Reply else P.SkipReply)
  {
    WholeMessages(mem, m, ws, turns);
    ExpectedAt(ws, i);
    assert Good(ws[i]) by { assert ws[i] in ws; }
    hide TrueCheckSum, Covered, Handled, Terminated, StartsAt, AllText, P.ConsumerStep, Only, KindOf, KindClass, Good, AllGood, TypeBegins;
    EntryDecides(ws[i], b, i == |ws| - 1, p, s, s');
  }

  lemma EntryDecides(w: Written, b: nat, final: bool, p: P.Params, s: P.State, s': P.State)
    requires Good(w) && s.incoming != [] && s.incoming[0] == P.Entry(KindClass(KindOf(w)), b, final)
    requires P.ConsumerStep(p, s, P.PopEntry) == Some(s')
    ensures s'.consumer == P.Popped(s.incoming[0])
    ensures s'.loggedIn <==> s.loggedIn || TypeBegins(w, 'A')
    ensures Only(p, s', if TypeBegins(w, '0') || TypeBegins(w, '1') then P.Reply else P.SkipReply)
  {
    KindIs(w);
    hide KindOf, Good, TypeBegins;
  }

  lemma KindIs(w: Written)
    requires Good(w)
    ensures (KindOf(w) == '0' <==> TypeBegins(w, '0')) && (KindOf(w) == '1' <==> TypeBegins(w, '1'))
    ensures KindOf(w) == 'A' <==> TypeBegins(w, 'A')
  {
  }

  // ---- the queues

  /** One element came in at the back, of a queue with room for n; or one went from the front; or nothing changed. */
  predicate Fifo<T(==)>(q: seq<T>, q': seq<T>, n: nat) {
    || q' == q
    || (q != [] && q' == q[1..])
    || (q' != [] && q' == q + [q'[|q'| - 1]] && |q'| <= n)
  }

  lemma PollQueues(p: P.Params, s: P.State, a: P.Action, s': P.State)
    requires P.PollStep(p, s, a) == Some(s')
    ensures Fifo(s.incoming, s'.incoming, p.inSize) && Fifo(s.outgoing, s'.outgoing, p.outSize) && Fifo(s.pool, s'.pool, |s.pool| + 1)
    ensures |s'.incoming| >= |s.incoming| && s'.consumer == s.consumer && s'.loggedIn == s.loggedIn && s'.requested == s.requested
  {
    PollIncoming(p, s, a, s');
    PollOutgoing(p, s, a, s');
    PollPool(p, s, a, s');
    hide P.PollStep, Fifo;
  }

  lemma PollIncoming(p: P.Params, s: P.State, a: P.Action, s': P.State)
    requires P.PollStep(p, s, a) == Some(s')
    ensures Fifo(s.incoming, s'.incoming, p.inSize) && |s'.incoming| >= |s.incoming|
    ensures s'.consumer == s.consumer && s'.loggedIn == s.loggedIn && s'.requested == s.requested
  {
    if !s.poll.Handling? {
      hide Fifo;
      assert s'.incoming == s.incoming;
      FifoSame(s.incoming, p.inSize);
    }
  }

  lemma PollOutgoing(p: P.Params, s: P.State, a: P.Action, s': P.State)
    requires P.PollStep(p, s, a) == Some(s')
    ensures Fifo(s.outgoing, s'.outgoing, p.outSize)
  {
    if !s.poll.LogonBuilt? {
      hide Fifo, P.PushOne;
      FifoSame(s.outgoing, p.outSize);
      FifoFirst(s.outgoing, p.outSize);
      if s.poll.Handling? { PushLeaves(p, s, s.poll.buf, s.poll.left, s'); }
    } else {
      FifoLast(s.outgoing, s.poll.buf, p.outSize);
    }
  }

  lemma PushLeaves(p: P.Params, s: P.State, b: nat, o: P.Outcome, s': P.State)
    requires P.PushOne(p, s, b, o) == Some(s')
    ensures s'.outgoing == s.outgoing && s'.pool == s.pool
  {
  }

  lemma PollPool(p: P.Params, s: P.State, a: P.Action, s': P.State)
    requires P.PollStep(p, s, a) == Some(s')
    ensures Fifo(s.pool, s'.pool, |s.pool| + 1)
  {
    hide Fifo, P.PushOne;
    FifoSame(s.pool, |s.pool| + 1);
    FifoFirst(s.pool, |s.pool| + 1);
    if s.poll.Handling? { PushLeaves(p, s, s.poll.buf, s.poll.left, s'); }
    if s.poll.GivingBack? || s.poll.FailedRead? || s.poll.Sent? { FifoLast(s.pool, s.poll.buf, |s.pool| + 1); }
  }

  lemma FifoSame<T>(q: seq<T>, n: nat)
    ensures Fifo(q, q, n)
  {
  }

  lemma FifoFirst<T>(q: seq<T>, n: nat)
    ensures q != [] ==> Fifo(q, q[1..], n)
  {
  }

  lemma FifoLast<T>(q: seq<T>, x: T, n: nat)
    ensures |q| < n ==> Fifo(q, q + [x], n)
  {
  }

  lemma ConsumerQueues(p: P.Params, s: P.State, a: P.Action, s': P.State)
    requires P.ConsumerStep(p, s, a) == Some(s')
    ensures Fifo(s.incoming, s'.incoming, p.inSize) && Fifo(s.outgoing, s'.outgoing, p.outSize) && Fifo(s.pool, s'.pool, |s.pool| + 1)
    ensures |s'.outgoing| >= |s.outgoing| && s'.poll == s.poll && s'.open == s.open
    ensures s'.incoming != s.incoming ==> |s.incoming| > 0 && s'.consumer == P.Popped(s.incoming[0])
  {
  }

  /**
   The three queues are bounded and first in, first out, in every step of either thread: the consumer takes the
   oldest entry, the poll thread sends the oldest posted message, and what does not fit waits.
   */
  lemma QueuesAreFifo(p: P.Params, s: P.State, s': P.State)
    requires P.Step(p, s, s')
    ensures Fifo(s.incoming, s'.incoming, p.inSize) && Fifo(s.outgoing, s'.outgoing, p.outSize) && Fifo(s.pool, s'.pool, |s.pool| + 1)
    ensures |s'.incoming| < |s.incoming| ==> s'.consumer == P.Popped(s.incoming[0])
    ensures |s'.outgoing| < |s.outgoing| ==> s'.poll == P.Sending(s.outgoing[0])
  {
    hide P.PollStep, P.ConsumerStep, Fifo;
    var a :| P.PollStep(p, s, a) == Some(s') || P.ConsumerStep(p, s, a) == Some(s');
    if P.PollStep(p, s, a) == Some(s') {
      PollQueues(p, s, a, s');
      if |s'.outgoing| < |s.outgoing| { PollSends(p, s, a, s'); }
    } else {
      ConsumerQueues(p, s, a, s');
    }
  }

  lemma PollSends(p: P.Params, s: P.State, a: P.Action, s': P.State)
    requires P.PollStep(p, s, a) == Some(s') && |s'.outgoing| < |s.outgoing|
    ensures s'.poll == P.Sending(s.outgoing[0])
  {
  }

  /** A session that was closed stays closed; the poll thread is done, and the consumer stops before the next message. */
  lemma ClosedIsFinal(p: P.Params, s: P.State, a: P.Action)
    requires P.ValidPc(s) && !s.open
    ensures P.PollStep(p, s, a).None? && (s.consumer.Waiting? ==> P.ConsumerStep(p, s, a).None?)
    ensures P.ConsumerStep(p, s, a).Some? ==> !P.ConsumerStep(p, s, a).value.open
  {
  }

  // ---- the market data request

  /** How many messages the consumer has popped before run[i]. */
  function Pops(run: seq<P.State>, i: nat): (n: nat)
    requires i < |run|
  {
    if i == 0 then 0 else Pops(run, i - 1) + if |run[i].incoming| < |run[i - 1].incoming| then 1 else 0
  }

  /** The state of call_once after n messages. */
  predicate OnceIs(s: P.State, n: nat) {
    match s.consumer
    case Waiting => (s.requested <==> n > 0) && (n == 0 ==> !s.loggedIn)
    case Trying => (s.requested <==> n > 0) && (n == 0 ==> !s.loggedIn)
    case Popped(e) => n > 0 && (s.requested <==> n > 1) && (n == 1 ==> (s.loggedIn <==> e.kind == P.Logon))
    case ReplyBuilt(e, _) => n > 0 && (s.requested <==> n > 1) && (n == 1 ==> (s.loggedIn <==> e.kind == P.Logon))
    case AtOnce(e) => n > 0 && (s.requested <==> n > 1) && (n == 1 ==> (s.loggedIn <==> e.kind == P.Logon))
    case Requesting(e) => n == 1 && s.requested && e.kind == P.Logon
    case RequestBuilt(e, _) => n == 1 && s.requested && e.kind == P.Logon
    case Finishing(_) => n > 0 && s.requested
  }

  lemma OnceStep(p: P.Params, s: P.State, a: P.Action, s': P.State, n: nat)
    requires OnceIs(s, n) && P.ConsumerStep(p, s, a) == Some(s')
    ensures OnceIs(s', n + if |s'.incoming| < |s.incoming| then 1 else 0)
  {
  }

  lemma {:induction false} OnceAt(p: P.Params, run: seq<P.State>, i: nat)
    requires P.IsRun(p, run) && i < |run|
    ensures OnceIs(run[i], Pops(run, i))
  {
    if i > 0 {
      OnceAt(p, run, i - 1);
      var s, s', n := run[i - 1], run[i], Pops(run, i - 1);
      hide P.PollStep, P.ConsumerStep, OnceIs;
      assert P.Step(p, s, s');
      var a :| P.PollStep(p, s, a) == Some(s') || P.ConsumerStep(p, s, a) == Some(s');
      if P.PollStep(p, s, a) == Some(s') {
        PollQueues(p, s, a, s');
        OnceSame(s, s', n);
      } else {
        OnceStep(p, s, a, s', n);
      }
    }
  }

  lemma OnceSame(s: P.State, s': P.State, n: nat)
    requires OnceIs(s, n) && s'.consumer == s.consumer && s'.loggedIn == s.loggedIn && s'.requested == s.requested
    ensures OnceIs(s', n)
  {
  }

  /**
   call_once in every run: the market data request is built for the first message popped and no other, exactly if that is
   a logon. A logon that comes second is never followed by a request.
   */
  lemma FirstMessageDecides(p: P.Params, run: seq<P.State>, i: nat, s': P.State)
    requires P.IsRun(p, run) && i < |run| && run[i].consumer.AtOnce? && P.ConsumerStep(p, run[i], P.Once) == Some(s')
    ensures s'.consumer.Requesting? <==> Pops(run, i) == 1 && run[i].consumer.e.kind == P.Logon
    ensures s'.consumer.Requesting? || s'.consumer.Finishing?
  {
    OnceAt(p, run, i);
  }

  lemma RequestsForFirst(p: P.Params, run: seq<P.State>, i: nat)
    requires P.IsRun(p, run) && i < |run| && (run[i].consumer.Requesting? || run[i].consumer.RequestBuilt?)
    ensures Pops(run, i) == 1 && run[i].consumer.e.kind == P.Logon
  {
    OnceAt(p, run, i);
  }

  // ---- messages out

  function One(b: bool): nat {
    if b then 1 else 0
  }

  /** One of the three messages the client writes was built in s and is so no longer in s'. */
  predicate Posts(s: P.State, s': P.State) {
    || (s.poll.LogonBuilt? && !s'.poll.LogonBuilt?)
    || ((s.consumer.ReplyBuilt? || s.consumer.RequestBuilt?) && s'.consumer != s.consumer)
  }

  predicate Writes(s: P.State, s': P.State) {
    s.poll.Polling? && s'.poll.Sending?
  }

  /** A heartbeat or test request is taken up. */
  predicate Asked(s: P.State, s': P.State) {
    s.consumer.Trying? && s'.consumer.Popped? && s'.consumer.e.kind == P.Heartbeat
  }

  predicate Answered(s: P.State, s': P.State) {
    s.consumer.ReplyBuilt? && s'.consumer != s.consumer
  }

  /** The consumer has popped a heartbeat or test request and has not posted the reply yet. */
  predicate Answering(s: P.State) {
    (s.consumer.Popped? && s.consumer.e.kind == P.Heartbeat) || s.consumer.ReplyBuilt?
  }

  /** How often something happened in the first n steps of a run. */
  function Count(run: seq<P.State>, n: nat, event: (P.State, P.State) -> bool): nat
    requires n < |run|
  {
    if n == 0 then 0 else Count(run, n - 1, event) + One(event(run[n - 1], run[n]))
  }

  lemma PollPosts(p: P.Params, s: P.State, a: P.Action, s': P.State)
    requires P.PollStep(p, s, a) == Some(s')
    ensures |s'.outgoing| + One(Writes(s, s')) == |s.outgoing| + One(Posts(s, s'))
    ensures s'.consumer == s.consumer
  {
    if s.poll.Handling? { PushLeaves(p, s, s.poll.buf, s.poll.left, s'); }
    hide P.PushOne;
  }

  lemma ConsumerPosts(p: P.Params, s: P.State, a: P.Action, s': P.State)
    requires P.ConsumerStep(p, s, a) == Some(s')
    ensures |s'.outgoing| + One(Writes(s, s')) == |s.outgoing| + One(Posts(s, s'))
  {
  }

  lemma ConsumerAnswers(p: P.Params, s: P.State, a: P.Action, s': P.State)
    requires P.ConsumerStep(p, s, a) == Some(s')
    ensures One(Answering(s)) + One(Asked(s, s')) == One(Answering(s')) + One(Answered(s, s'))
  {
  }

  /**
   In every run: every message the client built is posted, and leaves the queue to be written or still waits in it; every
   heartbeat and test request popped is answered, but for one the consumer may be busy with.
   */
  lemma {:induction false} EveryHeartbeatAnswered(p: P.Params, run: seq<P.State>, n: nat)
    requires P.IsRun(p, run) && n < |run|
    ensures Count(run, n, Posts) == Count(run, n, Writes) + |run[n].outgoing|
    ensures Count(run, n, Asked) == Count(run, n, Answered) + One(Answering(run[n]))
  {
    if n > 0 {
      EveryHeartbeatAnswered(p, run, n - 1);
      var s, s' := run[n - 1], run[n];
      hide P.PollStep, P.ConsumerStep, Posts, Writes, Asked, Answered, Answering;
      assert P.Step(p, s, s');
      var a :| P.PollStep(p, s, a) == Some(s') || P.ConsumerStep(p, s, a) == Some(s');
      if P.PollStep(p, s, a) == Some(s') {
        PollPosts(p, s, a, s');
        NothingAsked(s, s');
      } else {
        ConsumerPosts(p, s, a, s');
        ConsumerAnswers(p, s, a, s');
      }
    }
  }

  lemma NothingAsked(s: P.State, s': P.State)
    requires s'.consumer == s.consumer
    ensures Answering(s) == Answering(s') && !Asked(s, s') && !Answered(s, s')
  {
  }
}
