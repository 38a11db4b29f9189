/**
 The clock's sequence lock: one writer publishes (base_tsc, base_ns, ns_per_tsc) in single stores between two
 increments of a 32-bit sequence number; readers retry until the number has not moved.

 Steps are sequentially consistent. The fields may be stored and loaded in any order between the fences.
 `count` is the number of increments ever made; the 32-bit number is what is left of it after wrap-around.
 */
module SeqLock {

  const WORD: nat := 0x1_0000_0000

  datatype Triple = Triple(baseTsc: int, baseNs: int, nsPerTsc: real)

  datatype Field = BaseTsc | BaseNs | NsPerTsc

  predicate SameField(a: Triple, b: Triple, f: Field) {
    match f
    case BaseTsc => a.baseTsc == b.baseTsc
    case BaseNs => a.baseNs == b.baseNs
    case NsPerTsc => a.nsPerTsc == b.nsPerTsc
  }

  function Put(t: Triple, f: Field, from: Triple): Triple {
    match f
    case BaseTsc => t.(baseTsc := from.baseTsc)
    case BaseNs => t.(baseNs := from.baseNs)
    case NsPerTsc => t.(nsPerTsc := from.nsPerTsc)
  }

  datatype Writer = Idle | Storing(triple: Triple, stored: set<Field>)

  datatype Reader =
    | Outside
    | Loading(before: nat, loaded: set<Field>, copy: Triple, start: nat)   // start: `count` when before_seq was loaded
    | Returned(result: Triple)

  datatype State = State(seqNo: nat, fields: Triple, writer: Writer, reader: Reader, count: nat, published: seq<Triple>)

  datatype Action =
    | BeginSave(triple: Triple) | Store(f: Field) | EndSave
    | LoadBefore(junk: Triple) | Load(f: Field) | LoadAfter | ReadAgain

  function AllFields(): set<Field> {
    {BaseTsc, BaseNs, NsPerTsc}
  }

  /** Steps of saveParam (the first three) and of tsc2ns (the next three), and reading again later. */
  predicate Enabled(s: State, a: Action) {
    match a
    case BeginSave(_) => s.writer.Idle?
    case Store(f) => s.writer.Storing? && f !in s.writer.stored
    case EndSave => s.writer.Storing? && s.writer.stored == AllFields()
    case LoadBefore(_) => s.reader.Outside?
    case Load(f) => s.reader.Loading? && f !in s.reader.loaded
    case LoadAfter => s.reader.Loading? && s.reader.loaded == AllFields()
    case ReadAgain => s.reader.Returned?
  }

  function Next(s: State, a: Action): State
    requires Enabled(s, a)
  {
    match a
    case BeginSave(t) => s.(seqNo := (s.seqNo + 1) % WORD, count := s.count + 1, writer := Storing(t, {}))
    case Store(f) => s.(fields := Put(s.fields, f, s.writer.triple), writer := s.writer.(stored := s.writer.stored + {f}))
    case EndSave =>
      s.(seqNo := (s.seqNo + 1) % WORD, count := s.count + 1, writer := Idle, published := s.published + [s.writer.triple])
    case LoadBefore(junk) => s.(reader := Loading(s.seqNo - s.seqNo % 2, {}, junk, s.count))
    case Load(f) => s.(reader := s.reader.(copy := Put(s.reader.copy, f, s.fields), loaded := s.reader.loaded + {f}))
    case LoadAfter =>
      if s.reader.before == s.seqNo then s.(reader := Returned(s.reader.copy)) else s.(reader := Outside)
    case ReadAgain => s.(reader := Outside)
  }

  /** The clock after init: one triple has been published. */
  predicate Initial(s: State) {
    s.writer.Idle? && s.reader.Outside? && |s.published| == 1 && s.fields == s.published[0]
    && s.count % 2 == 0 && s.seqNo == s.count % WORD
  }

  ghost predicate IsRun(run: seq<State>, acts: seq<Action>) {
    && |run| == |acts| + 1 && Initial(run[0])
    && forall i :: 0 <= i < |acts| ==> Enabled(run[i], acts[i]) && run[i + 1] == Next(run[i], acts[i])
  }

  function Current(s: State): Triple
    requires s.published != []
  {
    s.published[|s.published| - 1]
  }

  /** How many saveParam calls were in progress or begun between the two counts. */
  function Overlap(start: nat, count: nat): int {
    (count + 1) / 2 - start / 2
  }

  // ---- the invariant

  predicate WriterInv(s: State) {
    && s.published != [] && s.seqNo == s.count % WORD
    && (s.writer.Idle? ==> s.count % 2 == 0 && s.fields == Current(s))
    && (s.writer.Storing? ==>
          && s.count % 2 == 1
          && forall f :: SameField(s.fields, if f in s.writer.stored then s.writer.triple else Current(s), f))
  }

  /** While nothing has been written since the first load, what has been copied is the current triple. */
  predicate ReaderInv(s: State)
    requires s.published != []
  {
    s.reader.Loading? ==>
      && s.reader.start <= s.count
      && s.reader.before == (s.reader.start - s.reader.start % 2) % WORD
      && (s.reader.start == s.count && s.count % 2 == 0 ==>
            forall f :: f in s.reader.loaded ==> SameField(s.reader.copy, Current(s), f))
  }

  lemma StepKeeps(s: State, a: Action)
    requires WriterInv(s) && ReaderInv(s) && Enabled(s, a)
    ensures WriterInv(Next(s, a)) && ReaderInv(Next(s, a))
  {
  }

  lemma {:induction false} RunKeeps(run: seq<State>, acts: seq<Action>, i: nat)
    requires IsRun(run, acts) && i < |run|
    ensures WriterInv(run[i]) && ReaderInv(run[i])
  {
    if i > 0 {
      RunKeeps(run, acts, i - 1);
      StepKeeps(run[i - 1], acts[i - 1]);
    }
  }

  /** With fewer than 2^31 overlapping saves the number can only match if nothing was saved. */
  lemma NoWrapAround(start: nat, count: nat)
    requires start <= count && Overlap(start, count) < WORD / 2
    requires (start - start % 2) % WORD == count % WORD
    ensures start == count && count % 2 == 0
  {
  }

  /**
   No torn read: in every run, a value that tsc2ns returns comes from the triple that is current at the second
   load of the sequence number, provided fewer than 2^31 saves overlap that attempt.
   */
  lemma NoTornRead(run: seq<State>, acts: seq<Action>, i: nat)
    requires IsRun(run, acts) && i < |acts| && acts[i] == LoadAfter && run[i + 1].reader.Returned?
    requires Overlap(run[i].reader.start, run[i].count) < WORD / 2
    ensures run[i].published != [] && run[i + 1].reader.result == Current(run[i])
  {
    RunKeeps(run, acts, i);
    var s := run[i];
    NoWrapAround(s.reader.start, s.count);
    var t, c := s.reader.copy, Current(s);
    assert SameField(t, c, BaseTsc) && SameField(t, c, BaseNs) && SameField(t, c, NsPerTsc);
  }

  /** Every published triple but the first was given whole to one saveParam call. */
  lemma {:induction false} PublishedWhole(run: seq<State>, acts: seq<Action>, i: nat, t: Triple)
    requires IsRun(run, acts) && i < |run|
    requires (exists k :: 1 <= k < |run[i].published| && run[i].published[k] == t) || (run[i].writer.Storing? && run[i].writer.triple == t)
    ensures BeginSave(t) in acts[..i]
  {
    if i > 0 {
      var s, s', a := run[i - 1], run[i], acts[i - 1];
      RunKeeps(run, acts, i - 1);
      assert acts[..i] == acts[..i - 1] + [a];
      assert s' == Next(s, a);
      if a != BeginSave(t) {
        if exists k :: 1 <= k < |s'.published| && s'.published[k] == t {
          var k :| 1 <= k < |s'.published| && s'.published[k] == t;
          assert k < |s.published| ==> s.published[k] == t;
        }
        PublishedWhole(run, acts, i - 1, t);
      }
    }
  }

  // ---- the bound is tight

  /** n saves of t one after the other. */
  lemma {:induction false} SaveTimes(run: seq<State>, acts: seq<Action>, t: Triple, n: nat) returns (run': seq<State>, acts': seq<Action>)
    requires IsRun(run, acts) && run[|run| - 1].writer.Idle?
    ensures IsRun(run', acts') && |run'| > 0
    ensures var s, s' := run[|run| - 1], run'[|run'| - 1];
            && s'.writer.Idle? && s'.reader == s.reader && s'.count == s.count + 2 * n
            && (n > 0 ==> s'.fields == t)
            && (forall u :: u in s'.published ==> u == t || u in s.published)
    ensures |acts'| == |acts| + 5 * n && run' [..|run|] == run
  {
    if n == 0 {
      run', acts' := run, acts;
    } else {
      run', acts' := SaveTimes(run, acts, t, n - 1);
      run', acts' := SaveOnce(run', acts', t);
    }
  }

  lemma SaveOnce(run: seq<State>, acts: seq<Action>, t: Triple) returns (run': seq<State>, acts': seq<Action>)
    requires IsRun(run, acts) && run[|run| - 1].writer.Idle?
    ensures IsRun(run', acts') && |run'| == |run| + 5 && run'[..|run|] == run
    ensures var s, s' := run[|run| - 1], run'[|run'| - 1];
            && s'.writer.Idle? && s'.reader == s.reader && s'.count == s.count + 2
            && s'.fields == t && s'.published == s.published + [t]
  {
    run', acts' := Extend(run, acts, BeginSave(t));
    run', acts' := Extend(run', acts', Store(BaseTsc));
    run', acts' := Extend(run', acts', Store(BaseNs));
    run', acts' := Extend(run', acts', Store(NsPerTsc));
    run', acts' := Extend(run', acts', EndSave);
  }

  lemma Extend(run: seq<State>, acts: seq<Action>, a: Action) returns (run': seq<State>, acts': seq<Action>)
    requires IsRun(run, acts) && Enabled(run[|run| - 1], a)
    ensures IsRun(run', acts') && acts' == acts + [a] && run' == run + [Next(run[|run| - 1], a)]
  {
    run', acts' := run + [Next(run[|run| - 1], a)], acts + [a];
    forall i | 0 <= i < |acts'| ensures Enabled(run'[i], acts'[i]) && run'[i + 1] == Next(run'[i], acts'[i]) {
      if i < |acts| { assert run'[i] == run[i] && acts'[i] == acts[i] && run'[i + 1] == run[i + 1]; }
    }
  }

  /** With 2^31 overlapping saves a read can return a triple that nobody ever published. */
  lemma TornReadAtBound() returns (run: seq<State>, acts: seq<Action>)
    ensures |acts| > 0 && IsRun(run, acts) && acts[|acts| - 1] == LoadAfter
    ensures var before, after := run[|run| - 2], run[|run| - 1];
            && before.reader.Loading? && Overlap(before.reader.start, before.count) == WORD / 2
            && after.reader.Returned? && after.reader.result !in after.published
  {
    var first, later := Triple(0, 0, 0.0), Triple(1, 1, 1.0);
    run, acts := [State(0, first, Idle, Outside, 0, [first])], [];
    run, acts := Extend(run, acts, LoadBefore(first));
    run, acts := Extend(run, acts, Load(BaseTsc));
    var s := run[|run| - 1];
    assert s.reader == Loading(0, {BaseTsc}, first, 0);
    run, acts := SaveTimes(run, acts, later, WORD / 2);
    RunKeeps(run, acts, |run| - 1);
    run, acts := Extend(run, acts, Load(BaseNs));
    run, acts := Extend(run, acts, Load(NsPerTsc));
    run, acts := Extend(run, acts, LoadAfter);
  }
}
