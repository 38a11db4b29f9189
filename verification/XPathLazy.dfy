/**
 Lazy evaluation is exact. For every classified tree and every context the evaluator's
 scalars are the meaning's, and in each mode its node list represents the meaning's set.
 */
module XPathLazy {
  import opened NodeOrder
  import opened XmlTree
  import opened XPathAst
  import opened XPathEval
  import opened XPathRefine
  import M = XPathMeaning

  /** All conversions of e agree with the meaning in context c, and its node lists represent its set. */
  ghost predicate Agrees(env: Env, e: Expr, c: Context) {
    && OperandOf(env, e, c) == M.ValueOf(env, e, c)
    && forall mode :: Represents(SetOf(env, e, c, mode), M.Nodes(env, e, c), mode)
  }

  ghost predicate AgreesEverywhere(env: Env, e: Expr) {
    forall c :: Agrees(env, e, c)
  }

  lemma {:induction false} DistinctSize(s: seq<XNode>)
    requires Distinct(s)
    ensures |NodeSet(s)| == |s|
  {
    if s != [] {
      var init := s[..|s| - 1];
      DistinctSize(init);
      assert s == init + [s[|s| - 1]];
      assert NodeSet(s) == NodeSet(init) + {s[|s| - 1]};
      assert s[|s| - 1] !in NodeSet(init);
    }
  }

  /** Representing a set in every mode is enough for every conversion of it. */
  lemma ConversionsAgree(env: Env, e: Expr, c: Context)
    requires TypeOf(e) != NodeSetT ==> Native(env, e, c) == M.Value(env, e, c)
    requires forall mode :: Represents(SetOf(env, e, c, mode), M.Nodes(env, e, c), mode)
    ensures Agrees(env, e, c)
  {
    if TypeOf(e) == NodeSetT {
      var S := M.Nodes(env, e, c);
      assert Represents(SetOf(env, e, c, Any), S, Any);
      assert Represents(SetOf(env, e, c, All), S, All);
      assert Represents(SetOf(env, e, c, FirstOnly), S, FirstOnly);
      FirstOfCover(SetOf(env, e, c, FirstOnly), S);
      OrderedIsDistinct(SetOf(env, e, c, All).nodes);
      DistinctSize(SetOf(env, e, c, All).nodes);
      var any := SetOf(env, e, c, Any).nodes;
      if any != [] { assert any[0] in NodeSet(any); }
    }
  }

  // ---- predicates

  lemma {:induction false} KeepTrueAgrees(env: Env, p: Expr, seg: seq<XNode>, i: nat)
    requires i <= |seg| && AgreesEverywhere(env, p)
    ensures KeepTrue(env, p, seg, i) == M.Selected(env, p, seg, i)
    decreases |seg| - i
  {
    if i < |seg| {
      assert Agrees(env, p, Context(seg[i], i + 1, |seg|));
      KeepTrueAgrees(env, p, seg, i + 1);
    }
  }

  /** What a constant number selects from the nodes at index i and after. */
  function PickFrom(seg: seq<XNode>, i: nat, er: Number): seq<XNode>
    requires i <= |seg|
  {
    if er.Fin? && er.r == er.r.Floor as real && i < er.r.Floor <= |seg| then [seg[er.r.Floor - 1]] else []
  }

  lemma PickFromStart(seg: seq<XNode>, er: Number)
    ensures PickConstant(seg, er) == PickFrom(seg, 0, er)
  {
  }

  lemma PickFromStep(seg: seq<XNode>, i: nat, er: Number)
    requires i < |seg|
    ensures PickFrom(seg, i, er) == (if er == Fin((i + 1) as real) then [seg[i]] else []) + PickFrom(seg, i + 1, er)
  {
    if er.Fin? && er.r == er.r.Floor as real {
      assert er.r == (i + 1) as real <==> er.r.Floor == i + 1;
    } else {
      assert er != Fin((i + 1) as real);
    }
  }

  /** A predicate whose number does not depend on the node selects at most one position. */
  lemma {:induction false} PickIsSelected(env: Env, p: Expr, seg: seq<XNode>, i: nat, er: Number)
    requires i <= |seg| && TypeOf(p) == NumberT
    requires forall k :: 0 <= k < |seg| ==> M.ValueOf(env, p, Context(seg[k], k + 1, |seg|)).asNumber == er
    ensures M.Selected(env, p, seg, i) == PickFrom(seg, i, er)
    decreases |seg| - i
  {
    hide PickFrom, M.ValueOf, TypeOf;
    if i < |seg| {
      PickIsSelected(env, p, seg, i + 1, er);
      PickFromStep(seg, i, er);
      assert M.Passes(env, p, seg[i], i, |seg|) <==> er == Fin((i + 1) as real);
    } else {
      assert PickFrom(seg, i, er) == [] by { NothingToPick(seg, er); }
    }
  }

  lemma NothingToPick(seg: seq<XNode>, er: Number)
    ensures PickFrom(seg, |seg|, er) == []
  {
  }

  lemma ConstantNumber(env: Env, p: Expr, kind: PredKind, c: Context, c': Context)
    requires KindHolds(kind, p) && (kind == Constant || kind == ConstantOne) && c.size == c'.size
    ensures OperandOf(env, p, c) == OperandOf(env, p, c') && TypeOf(p) == NumberT
  {
  }

  /** apply_predicate selects what the meaning selects, or its first node when one is enough. */
  lemma {:induction false} ApplyPredAgrees(env: Env, p: Expr, kind: PredKind, seg: seq<XNode>, once: bool)
    requires AgreesEverywhere(env, p) && KindHolds(kind, p)
    ensures var sel := M.Selected(env, p, seg, 0);
            ApplyPred(env, p, kind, seg, once) == if once then Take1(sel) else sel
  {
    KeepTrueAgrees(env, p, seg, 0);
    if seg != [] && (kind == Constant || kind == ConstantOne) {
      var er := OperandOf(env, p, Context(Null, 1, |seg|)).asNumber;
      forall k | 0 <= k < |seg| ensures M.ValueOf(env, p, Context(seg[k], k + 1, |seg|)).asNumber == er {
        assert Agrees(env, p, Context(seg[k], k + 1, |seg|));
        ConstantNumber(env, p, kind, Context(seg[k], k + 1, |seg|), Context(Null, 1, |seg|));
      }
      PickFromStart(seg, er);
      PickIsSelected(env, p, seg, 0, er);
    }
  }

  ghost predicate AllAgree(env: Env, preds: Preds) {
    match preds
    case NoPred => true
    case Pred(p, kind, next) => AgreesEverywhere(env, p) && KindHolds(kind, p) && AllAgree(env, next)
  }

  lemma {:induction false} SelectedAllEmpty(env: Env, preds: Preds)
    ensures M.SelectedAll(env, preds, []) == []
  {
    match preds
    case NoPred =>
    case Pred(p, _, next) => SelectedAllEmpty(env, next);
  }

  lemma {:induction false} ApplyPredsAgrees(env: Env, preds: Preds, seg: seq<XNode>, lastOnce: bool)
    requires AllAgree(env, preds)
    ensures var sel := M.SelectedAll(env, preds, seg);
            ApplyPreds(env, preds, seg, lastOnce) == if lastOnce && preds.Pred? then Take1(sel) else sel
    decreases preds
  {
    SelectedAllEmpty(env, preds);
    match preds
    case NoPred =>
    case Pred(p, kind, next) =>
      if seg != [] {
        ApplyPredAgrees(env, p, kind, seg, next.NoPred? && lastOnce);
        var sel := ApplyPred(env, p, kind, seg, next.NoPred? && lastOnce);
        ApplyPredsAgrees(env, next, sel, lastOnce);
        SelectedAllEmpty(env, next);
      }
  }

  // ---- steps

  /** What a step means at one context node, in axis order. */
  ghost function From(env: Env, axis: Axis, test: NodeTest, preds: Preds, x: XNode): seq<XNode> {
    M.SelectedAll(env, preds, AxisNodes(env.doc, axis, test, x))
  }

  lemma {:induction false} OneIsFirst(env: Env, seg: seq<XNode>)
    ensures M.Selected(env, Leaf(NumberConst(Fin(1.0))), seg, 0) == Take1(seg)
  {
    var p := Leaf(NumberConst(Fin(1.0)));
    PickIsSelected(env, p, seg, 0, Fin(1.0));
  }

  /** At one context node the evaluator finds all of it, or its first node when the mode allows. */
  lemma {:induction false} StepFromAgrees(env: Env, axis: Axis, test: NodeTest, preds: Preds, x: XNode, mode: Mode, lastOnce: bool)
    requires AllAgree(env, preds)
    ensures var D := From(env, axis, test, preds, x);
            var R := StepFrom(env, axis, test, preds, x, StepOnce(axis, test, preds, mode), lastOnce);
            R == D ||
            (R == Take1(D) && ((preds.NoPred? && EvalOnce(if IsReverse(axis) then SortedReverse else Sorted, mode))
                               || (preds.Pred? && lastOnce)))
  {
    var found := AxisNodes(env.doc, axis, test, x);
    var once := StepOnce(axis, test, preds, mode);
    ApplyPredsAgrees(env, preds, found, lastOnce);
    ApplyPredsAgrees(env, preds, Take1(found), lastOnce);
    if preds.Pred? && preds.next.NoPred? && preds.kind == ConstantOne {
      OneIsFirst(env, found);
      OneIsFirst(env, Take1(found));
    }
  }

  /** The nodes a step means over a set of context nodes. */
  ghost function Reach(env: Env, axis: Axis, test: NodeTest, preds: Preds, S: set<XNode>): set<XNode> {
    set x, y | x in S && y in From(env, axis, test, preds, x) :: y
  }

  lemma {:induction false} FromFacts(env: Env, axis: Axis, test: NodeTest, preds: Preds, x: XNode)
    requires ValidDoc(env.doc)
    ensures forall y :: y in From(env, axis, test, preds, x) ==> y in AxisNodes(env.doc, axis, test, x)
    ensures if IsReverse(axis) then Decreasing(From(env, axis, test, preds, x)) else Increasing(From(env, axis, test, preds, x))
    ensures axis == Self ==> |From(env, axis, test, preds, x)| <= 1
  {
    hide AxisNodes, ValidDoc, M.SelectedAll;
    var found := AxisNodes(env.doc, axis, test, x);
    AxisNodesOrdered(env.doc, axis, test, x);
    if axis == Self { SelfIsAlone(env, test, x); }
    hide Increasing, Decreasing;
    SelectedAllOrder(env, preds, found);
  }

  lemma {:induction false} SelfIsAlone(env: Env, test: NodeTest, x: XNode)
    requires ValidDoc(env.doc)
    ensures |AxisNodes(env.doc, Self, test, x)| <= 1
  {
    hide AxisNodes, ValidDoc;
    var found := AxisNodes(env.doc, Self, test, x);
    AxisNodesOrdered(env.doc, Self, test, x);
    forall k | 0 <= k < |found| ensures found[k] == x {
      assert found[k] in found;
      SelfIsSource(env, test, x, found[k]);
    }
    assert |found| > 1 ==> Less(found[0], found[1]);
  }

  /** Evaluating one more context node keeps enough of the nodes reached. */
  lemma {:induction false} StepFromCovers(env: Env, axis: Axis, test: NodeTest, preds: Preds, x: XNode, mode: Mode, order: OrderFlag)
    requires ValidDoc(env.doc) && AllAgree(env, preds)
    requires axis != Self && order == Sorted ==> !IsReverse(axis)
    ensures Covers(StepFrom(env, axis, test, preds, x, StepOnce(axis, test, preds, mode), EvalOnce(order, mode)),
                   NodeSet(From(env, axis, test, preds, x)), mode)
  {
    hide AxisNodes, Covers, From, StepFrom, AllAgree, ValidDoc, StepOnce, Increasing, Decreasing, EvalOnce, Take1, IsReverse;
    StepFromAgrees(env, axis, test, preds, x, mode, EvalOnce(order, mode));
    FromFacts(env, axis, test, preds, x);
    FoundCovers(axis, preds, mode, order, From(env, axis, test, preds, x),
                StepFrom(env, axis, test, preds, x, StepOnce(axis, test, preds, mode), EvalOnce(order, mode)));
  }

  lemma FoundCovers(axis: Axis, preds: Preds, mode: Mode, order: OrderFlag, D: seq<XNode>, R: seq<XNode>)
    requires axis != Self && order == Sorted ==> !IsReverse(axis)
    requires (if IsReverse(axis) then Decreasing(D) else Increasing(D)) && (axis == Self ==> |D| <= 1)
    requires R == D ||
             (R == Take1(D) && ((preds.NoPred? && EvalOnce(if IsReverse(axis) then SortedReverse else Sorted, mode))
                                || (preds.Pred? && EvalOnce(order, mode))))
    ensures Covers(R, NodeSet(D), mode)
  {
    OnceFits(axis, preds, mode, order);
    hide Covers, Increasing, Decreasing, EvalOnce, Take1;
    if axis == Self { ShortIsIncreasing(D); }
    PartCovers(D, R, axis == Self || !IsReverse(axis), mode);
  }

  /** Stopping early at a context node is only done in the lazy modes, and for the first node only along sorted lists. */
  lemma OnceFits(axis: Axis, preds: Preds, mode: Mode, order: OrderFlag)
    requires axis != Self && order == Sorted ==> !IsReverse(axis)
    ensures (preds.NoPred? && EvalOnce(if IsReverse(axis) then SortedReverse else Sorted, mode)) || (preds.Pred? && EvalOnce(order, mode)) ==>
              mode != All && (mode == FirstOnly ==> axis == Self || !IsReverse(axis))
  {
  }

  lemma ShortIsIncreasing(D: seq<XNode>)
    requires |D| <= 1
    ensures Increasing(D)
  {
  }

  lemma {:induction false} PartCovers(D: seq<XNode>, R: seq<XNode>, sorted: bool, mode: Mode)
    requires R == D || (R == Take1(D) && mode != All && (mode == FirstOnly ==> sorted))
    requires sorted ==> Increasing(D)
    ensures Covers(R, NodeSet(D), mode)
  {
    AllCovers(D, mode);
    if R != D {
      if mode == Any {
        if D != [] { assert D[0] in NodeSet(D); }
        assert NodeSet(Take1(D)) <= NodeSet(D);
      } else {
        CutSorted(D, mode);
      }
    }
  }

  /** Lists that may still hold duplicates, which step_do removes at the end. */
  predicate LeftToDedup(axis: Axis, order: OrderFlag) {
    order == Unsorted && axis != Child && axis != Attribute && axis != Self
  }

  /** Every node of the list is on the axis of one of the context nodes. */
  ghost predicate Sourced(env: Env, axis: Axis, test: NodeTest, done: seq<XNode>, nodes: seq<XNode>) {
    forall y :: y in nodes ==> exists z :: z in done && y in AxisNodes(env.doc, axis, test, z)
  }

  /** What the loop of step_do keeps true of the list built so far, having treated the nodes `done`. */
  ghost predicate LoopInv(env: Env, axis: Axis, test: NodeTest, preds: Preds, sourceOrder: OrderFlag, done: seq<XNode>, ns: RawSet, mode: Mode) {
    && Covers(ns.nodes, Reach(env, axis, test, preds, NodeSet(done)), mode)
    && Sourced(env, axis, test, done, ns.nodes)
    && OrderKept(axis, sourceOrder, ns.order)
    && (LeftToDedup(axis, ns.order) || Truthful(ns))
  }

  predicate OrderKept(axis: Axis, sourceOrder: OrderFlag, order: OrderFlag) {
    if axis == Self then order == sourceOrder
    else order == Unsorted || order == if IsReverse(axis) then SortedReverse else Sorted
  }

  lemma {:induction false} ReachMore(env: Env, axis: Axis, test: NodeTest, preds: Preds, done: seq<XNode>, x: XNode)
    ensures Reach(env, axis, test, preds, NodeSet(done + [x])) ==
              Reach(env, axis, test, preds, NodeSet(done)) + NodeSet(From(env, axis, test, preds, x))
  {
    assert NodeSet(done + [x]) == NodeSet(done) + {x};
    ReachUnion(env, axis, test, preds, NodeSet(done), x);
  }

  lemma {:induction false} ReachUnion(env: Env, axis: Axis, test: NodeTest, preds: Preds, S: set<XNode>, x: XNode)
    ensures Reach(env, axis, test, preds, S + {x}) == Reach(env, axis, test, preds, S) + NodeSet(From(env, axis, test, preds, x))
  {
    hide From;
    forall y ensures y in Reach(env, axis, test, preds, S + {x}) <==>
                       y in Reach(env, axis, test, preds, S) || y in From(env, axis, test, preds, x)
    {
    }
  }

  lemma AppendDistinct(a: seq<XNode>, b: seq<XNode>)
    requires Distinct(a) && Distinct(b) && forall i, j :: 0 <= i < |a| && 0 <= j < |b| ==> a[i] != b[j]
    ensures Distinct(a + b)
  {
  }

  /** A context node not treated yet is a different one. */
  lemma DoneDiffers(sourceOrder: OrderFlag, done: seq<XNode>, x: XNode, z: XNode)
    requires Truthful(RawSet(sourceOrder, done + [x])) && z in done
    ensures z != x
  {
    OrderedIsDistinct(done + [x]);
    var k :| 0 <= k < |done| && done[k] == z;
    assert (done + [x])[k] == z && (done + [x])[|done|] == x;
  }

  /** On the child, attribute and self axes, different context nodes add different nodes. */
  lemma {:induction false} NewNodesDiffer(env: Env, axis: Axis, test: NodeTest, sourceOrder: OrderFlag, done: seq<XNode>, x: XNode,
                                          nodes: seq<XNode>, more: seq<XNode>)
    requires axis == Child || axis == Attribute || axis == Self
    requires Truthful(RawSet(sourceOrder, done + [x])) && Sourced(env, axis, test, done, nodes)
    requires forall y :: y in more ==> y in AxisNodes(env.doc, axis, test, x)
    ensures forall i, j :: 0 <= i < |nodes| && 0 <= j < |more| ==> nodes[i] != more[j]
  {
    hide AxisNodes, Truthful;
    forall i, j | 0 <= i < |nodes| && 0 <= j < |more| ensures nodes[i] != more[j] {
      assert nodes[i] in nodes && more[j] in more;
      var z :| z in done && nodes[i] in AxisNodes(env.doc, axis, test, z);
      DoneDiffers(sourceOrder, done, x, z);
      if nodes[i] == more[j] { DisjointSources(env.doc, axis, test, z, x, more[j]); }
    }
  }

  lemma SelfIsSource(env: Env, test: NodeTest, x: XNode, y: XNode)
    requires y in AxisNodes(env.doc, Self, test, x)
    ensures y == x
  {
    AxisNodesMembers(env.doc, Self, test, x, y);
    hide AxisNodes;
  }

  /** The self axis keeps the order of its context nodes. */
  lemma {:induction false} SelfAppends(env: Env, test: NodeTest, done: seq<XNode>, x: XNode, ns: RawSet, more: seq<XNode>)
    requires Truthful(RawSet(ns.order, done + [x])) && Sourced(env, Self, test, done, ns.nodes) && Truthful(ns)
    requires (forall y :: y in more ==> y in AxisNodes(env.doc, Self, test, x)) && |more| <= 1
    ensures Truthful(RawSet(ns.order, ns.nodes + more))
  {
    NewNodesDiffer(env, Self, test, ns.order, done, x, ns.nodes, more);
    hide AxisNodes;
    if more != [] {
      assert more[0] in more;
      SelfIsSource(env, test, x, more[0]);
      forall i | 0 <= i < |ns.nodes|
        ensures ns.order == Sorted ==> Less(ns.nodes[i], x)
        ensures ns.order == SortedReverse ==> Less(x, ns.nodes[i])
      {
        assert ns.nodes[i] in ns.nodes;
        var z :| z in done && ns.nodes[i] in AxisNodes(env.doc, Self, test, z);
        SelfIsSource(env, test, z, ns.nodes[i]);
        var k :| 0 <= k < |done| && done[k] == ns.nodes[i];
        assert (done + [x])[k] == done[k] && (done + [x])[|done|] == x;
      }
    } else {
      assert ns.nodes + more == ns.nodes;
    }
  }

  /** Appending what one more source yields keeps the order flag truthful. */
  lemma {:induction false} AppendTruthful(env: Env, axis: Axis, test: NodeTest, sourceOrder: OrderFlag, done: seq<XNode>, x: XNode, ns: RawSet, more: seq<XNode>)
    requires ValidDoc(env.doc)
    requires Truthful(RawSet(sourceOrder, done + [x]))
    requires Sourced(env, axis, test, done, ns.nodes)
    requires forall y :: y in more ==> y in AxisNodes(env.doc, axis, test, x)
    requires if IsReverse(axis) then Decreasing(more) else Increasing(more)
    requires (axis == Self ==> |more| <= 1) && OrderKept(axis, sourceOrder, ns.order)
    requires LeftToDedup(axis, ns.order) || Truthful(ns)
    ensures var order := if axis != Self && ns.nodes != [] then Unsorted else ns.order;
            LeftToDedup(axis, order) || Truthful(RawSet(order, ns.nodes + more))
  {
    if ns.nodes == [] {
      assert ns.nodes + more == more;
      AloneTruthful(axis, ns.order, more);
    } else if axis == Self {
      hide AxisNodes, Truthful, Sourced, Increasing, Decreasing;
      SelfAppends(env, test, done, x, ns, more);
    } else if axis == Child || axis == Attribute {
      hide AxisNodes, Truthful, Sourced, Increasing, Decreasing;
      NewNodesDiffer(env, axis, test, sourceOrder, done, x, ns.nodes, more);
      TruthfulIsDistinct(ns);
      OrderedIsDistinct(more);
      AppendDistinct(ns.nodes, more);
      DistinctIsTruthful(ns.nodes + more);
    }
  }

  lemma AloneTruthful(axis: Axis, order: OrderFlag, more: seq<XNode>)
    requires if IsReverse(axis) then Decreasing(more) else Increasing(more)
    requires (axis == Self ==> |more| <= 1) && OrderKept(axis, order, order)
    ensures Truthful(RawSet(order, more))
  {
    OrderedIsDistinct(more);
  }

  lemma TruthfulIsDistinct(ns: RawSet)
    requires Truthful(ns)
    ensures Distinct(ns.nodes)
  {
    OrderedIsDistinct(ns.nodes);
  }

  lemma DistinctIsTruthful(nodes: seq<XNode>)
    requires Distinct(nodes)
    ensures Truthful(RawSet(Unsorted, nodes))
  {
  }

  /** What one context node adds comes from its axis, in axis order. */
  lemma MoreFacts(env: Env, axis: Axis, test: NodeTest, preds: Preds, x: XNode, mode: Mode, lastOnce: bool)
    requires ValidDoc(env.doc) && AllAgree(env, preds)
    ensures var more := StepFrom(env, axis, test, preds, x, StepOnce(axis, test, preds, mode), lastOnce);
            && (forall y :: y in more ==> y in AxisNodes(env.doc, axis, test, x))
            && (if IsReverse(axis) then Decreasing(more) else Increasing(more))
            && (axis == Self ==> |more| <= 1)
  {
    hide AxisNodes, From, StepFrom, AllAgree, ValidDoc, StepOnce;
    StepFromAgrees(env, axis, test, preds, x, mode, lastOnce);
    FromFacts(env, axis, test, preds, x);
    var D := From(env, axis, test, preds, x);
    if D != [] { assert D[0] in D; }
  }

  /** One turn of the loop of step_do. */
  lemma {:induction false} StepLoopTurn(env: Env, axis: Axis, test: NodeTest, preds: Preds, sourceOrder: OrderFlag,
                                        done: seq<XNode>, x: XNode, mode: Mode, ns: RawSet)
    requires ValidDoc(env.doc) && AllAgree(env, preds)
    requires Truthful(RawSet(sourceOrder, done + [x]))
    requires LoopInv(env, axis, test, preds, sourceOrder, done, ns, mode)
    ensures var order := if axis != Self && ns.nodes != [] then Unsorted else ns.order;
            var more := StepFrom(env, axis, test, preds, x, StepOnce(axis, test, preds, mode), EvalOnce(order, mode));
            LoopInv(env, axis, test, preds, sourceOrder, done + [x], RawSet(order, ns.nodes + more), mode)
  {
    hide AxisNodes, From, StepFrom, Covers, Reach, AllAgree, ValidDoc, Truthful, StepOnce, Sourced, EvalOnce, Increasing, Decreasing;
    assert OrderKept(axis, sourceOrder, ns.order) && (LeftToDedup(axis, ns.order) || Truthful(ns));
    assert Covers(ns.nodes, Reach(env, axis, test, preds, NodeSet(done)), mode) && Sourced(env, axis, test, done, ns.nodes);
    hide LoopInv;
    var order := if axis != Self && ns.nodes != [] then Unsorted else ns.order;
    var more := StepFrom(env, axis, test, preds, x, StepOnce(axis, test, preds, mode), EvalOnce(order, mode));
    MoreFacts(env, axis, test, preds, x, mode, EvalOnce(order, mode));
    AppendTruthful(env, axis, test, sourceOrder, done, x, ns, more);
    StepFromCovers(env, axis, test, preds, x, mode, order);
    TurnCovers(env, axis, test, preds, done, x, ns.nodes, more, mode);
    TurnSources(env, axis, test, done, x, ns.nodes, more);
    LoopInvHolds(env, axis, test, preds, sourceOrder, done + [x], RawSet(order, ns.nodes + more), mode);
  }

  lemma LoopInvHolds(env: Env, axis: Axis, test: NodeTest, preds: Preds, sourceOrder: OrderFlag, done: seq<XNode>, ns: RawSet, mode: Mode)
    requires Covers(ns.nodes, Reach(env, axis, test, preds, NodeSet(done)), mode) && Sourced(env, axis, test, done, ns.nodes)
    requires OrderKept(axis, sourceOrder, ns.order) && (LeftToDedup(axis, ns.order) || Truthful(ns))
    ensures LoopInv(env, axis, test, preds, sourceOrder, done, ns, mode)
  {
  }

  lemma {:induction false} TurnCovers(env: Env, axis: Axis, test: NodeTest, preds: Preds, done: seq<XNode>, x: XNode,
                                      nodes: seq<XNode>, more: seq<XNode>, mode: Mode)
    requires Covers(nodes, Reach(env, axis, test, preds, NodeSet(done)), mode)
    requires Covers(more, NodeSet(From(env, axis, test, preds, x)), mode)
    ensures Covers(nodes + more, Reach(env, axis, test, preds, NodeSet(done + [x])), mode)
  {
    ReachMore(env, axis, test, preds, done, x);
    CoverUnion(nodes, Reach(env, axis, test, preds, NodeSet(done)), more, NodeSet(From(env, axis, test, preds, x)), nodes + more, mode);
  }

  lemma TurnSources(env: Env, axis: Axis, test: NodeTest, done: seq<XNode>, x: XNode, nodes: seq<XNode>, more: seq<XNode>)
    requires Sourced(env, axis, test, done, nodes)
    requires forall y :: y in more ==> y in AxisNodes(env.doc, axis, test, x)
    ensures Sourced(env, axis, test, done + [x], nodes + more)
  {
    forall y | y in nodes + more ensures exists z :: z in done + [x] && y in AxisNodes(env.doc, axis, test, z) {
      if y in nodes {
        var z :| z in done && y in AxisNodes(env.doc, axis, test, z);
        assert z in done + [x];
      } else {
        assert x in done + [x];
      }
    }
  }

  lemma {:induction false} StepLoopAgrees(env: Env, axis: Axis, test: NodeTest, preds: Preds, sourceOrder: OrderFlag,
                                          done: seq<XNode>, sources: seq<XNode>, mode: Mode, ns: RawSet)
    requires ValidDoc(env.doc) && AllAgree(env, preds)
    requires Truthful(RawSet(sourceOrder, done + sources))
    requires LoopInv(env, axis, test, preds, sourceOrder, done, ns, mode)
    ensures LoopInv(env, axis, test, preds, sourceOrder, done + sources,
                    StepLoop(env, axis, test, preds, sources, StepOnce(axis, test, preds, mode), mode, ns), mode)
    decreases |sources|
  {
    hide LoopInv;
    if sources == [] {
      assert done + sources == done;
    } else {
      var x := sources[0];
      var order := if axis != Self && ns.nodes != [] then Unsorted else ns.order;
      var more := StepFrom(env, axis, test, preds, x, StepOnce(axis, test, preds, mode), EvalOnce(order, mode));
      assert done + sources == (done + [x]) + sources[1..];
      PrefixTruthful(sourceOrder, done + [x], sources[1..]);
      StepLoopTurn(env, axis, test, preds, sourceOrder, done, x, mode, ns);
      StepLoopAgrees(env, axis, test, preds, sourceOrder, done + [x], sources[1..], mode, RawSet(order, ns.nodes + more));
      StepLoopUnfold(env, axis, test, preds, sources, StepOnce(axis, test, preds, mode), mode, ns);
    }
  }

  lemma StepLoopUnfold(env: Env, axis: Axis, test: NodeTest, preds: Preds, sources: seq<XNode>, once: bool, mode: Mode, ns: RawSet)
    requires sources != []
    ensures var order := if axis != Self && ns.nodes != [] then Unsorted else ns.order;
            var more := StepFrom(env, axis, test, preds, sources[0], once, EvalOnce(order, mode));
            StepLoop(env, axis, test, preds, sources, once, mode, ns) ==
              StepLoop(env, axis, test, preds, sources[1..], once, mode, RawSet(order, ns.nodes + more))
  {
  }

  lemma PrefixTruthful(order: OrderFlag, a: seq<XNode>, b: seq<XNode>)
    requires Truthful(RawSet(order, a + b))
    ensures Truthful(RawSet(order, a))
  {
    assert forall k :: 0 <= k < |a| ==> (a + b)[k] == a[k];
  }

  lemma {:induction false} MeaningIsReach(env: Env, left: Left, axis: Axis, test: NodeTest, preds: Preds, c: Context)
    requires axis != Namespace
    ensures M.Nodes(env, Step(left, axis, test, preds), c) == Reach(env, axis, test, preds, M.LeftNodes(env, left, c))
  {
    assert forall x :: From(env, axis, test, preds, x) == M.SelectedAll(env, preds, AxisNodes(env.doc, axis, test, x));
  }

  lemma {:induction false} FirstStepAgrees(env: Env, axis: Axis, test: NodeTest, preds: Preds, c: Context, mode: Mode)
    requires ValidDoc(env.doc) && AllAgree(env, preds) && axis != Namespace
    ensures var axisOrder := if IsReverse(axis) then SortedReverse else Sorted;
            var R := StepFrom(env, axis, test, preds, c.n, StepOnce(axis, test, preds, mode), EvalOnce(axisOrder, mode));
            Represents(RawSet(axisOrder, R), Reach(env, axis, test, preds, {c.n}), mode)
  {
    hide AxisNodes, From, StepFrom;
    var axisOrder := if IsReverse(axis) then SortedReverse else Sorted;
    StepFromAgrees(env, axis, test, preds, c.n, mode, EvalOnce(axisOrder, mode));
    StepFromCovers(env, axis, test, preds, c.n, mode, axisOrder);
    FromFacts(env, axis, test, preds, c.n);
    assert Reach(env, axis, test, preds, {c.n}) == NodeSet(From(env, axis, test, preds, c.n));
  }

  lemma {:induction false} NextStepAgrees(env: Env, s: RawSet, axis: Axis, test: NodeTest, preds: Preds, mode: Mode)
    requires ValidDoc(env.doc) && AllAgree(env, preds) && axis != Namespace && Truthful(s)
    ensures var axisOrder := if IsReverse(axis) then SortedReverse else Sorted;
            var start := RawSet(if axis == Self then s.order else axisOrder, []);
            var ns := StepLoop(env, axis, test, preds, s.nodes, StepOnce(axis, test, preds, mode), mode, start);
            Represents(if LeftToDedup(axis, ns.order) then RawSet(Unsorted, KeepFirst(ns.nodes)) else ns,
                       Reach(env, axis, test, preds, NodeSet(s.nodes)), mode)
  {
    var axisOrder := if IsReverse(axis) then SortedReverse else Sorted;
    var start := RawSet(if axis == Self then s.order else axisOrder, []);
    LoopStarts(env, axis, test, preds, s.order, start, mode);
    assert [] + s.nodes == s.nodes;
    StepLoopAgrees(env, axis, test, preds, s.order, [], s.nodes, mode, start);
    var ns := StepLoop(env, axis, test, preds, s.nodes, StepOnce(axis, test, preds, mode), mode, start);
    DedupRepresents(ns.nodes, Reach(env, axis, test, preds, NodeSet(s.nodes)), mode);
  }

  lemma LoopStarts(env: Env, axis: Axis, test: NodeTest, preds: Preds, sourceOrder: OrderFlag, start: RawSet, mode: Mode)
    requires start == RawSet(if axis == Self then sourceOrder else if IsReverse(axis) then SortedReverse else Sorted, [])
    ensures LoopInv(env, axis, test, preds, sourceOrder, [], start, mode)
  {
    assert Reach(env, axis, test, preds, NodeSet([])) == {};
  }

  /** remove_duplicates loses no node. */
  lemma {:induction false} DedupRepresents(nodes: seq<XNode>, S: set<XNode>, mode: Mode)
    requires Covers(nodes, S, mode)
    ensures Represents(RawSet(Unsorted, KeepFirst(nodes)), S, mode)
  {
    KeepFirstFacts(nodes);
    assert NodeSet(KeepFirst(nodes)) == NodeSet(nodes);
    if nodes != [] { assert nodes[0] in KeepFirst(nodes); }
  }

  /** A step represents its meaning in every mode. */
  lemma {:induction false} StepAgrees(env: Env, left: Left, axis: Axis, test: NodeTest, preds: Preds, c: Context, mode: Mode)
    requires ValidDoc(env.doc) && AllAgree(env, preds)
    requires left.FromSet? ==> Agrees(env, left.e, c)
    ensures Represents(SetOf(env, Step(left, axis, test, preds), c, mode), M.Nodes(env, Step(left, axis, test, preds), c), mode)
  {
    hide Reach, StepFrom, StepLoop, AllAgree, ValidDoc, Covers;
    if axis == Namespace {
      NothingCovered(mode);
    } else {
      MeaningIsReach(env, left, axis, test, preds, c);
      match left
      case FromContext => FirstStepAgrees(env, axis, test, preds, c, mode);
      case FromSet(l) =>
        assert Represents(SetOf(env, l, c, All), M.Nodes(env, l, c), All);
        AllMeansAll(SetOf(env, l, c, All).nodes, M.Nodes(env, l, c));
        NextStepAgrees(env, SetOf(env, l, c, All), axis, test, preds, mode);
    }
  }

  lemma UnionUnfolds(env: Env, l: Expr, r: Expr, c: Context, mode: Mode)
    ensures SetOf(env, Union(l, r), c, mode) == RawSet(Unsorted, KeepFirst(SetOf(env, l, c, mode).nodes + SetOf(env, r, c, mode).nodes))
    ensures M.Nodes(env, Union(l, r), c) == M.Nodes(env, l, c) + M.Nodes(env, r, c)
  {
    hide KeepFirst;
  }

  lemma NothingCovered(mode: Mode)
    ensures Covers([], {}, mode)
  {
  }

  lemma AllMeansAll(nodes: seq<XNode>, S: set<XNode>)
    requires Covers(nodes, S, All)
    ensures NodeSet(nodes) == S
  {
  }

  lemma {:induction false} UnionAgrees(env: Env, l: Expr, r: Expr, c: Context, mode: Mode)
    requires Agrees(env, l, c) && Agrees(env, r, c)
    ensures Represents(SetOf(env, Union(l, r), c, mode), M.Nodes(env, Union(l, r), c), mode)
  {
    UnionUnfolds(env, l, r, c, mode);
    hide SetOf, M.Nodes, Covers;
    var a := SetOf(env, l, c, mode);
    var b := SetOf(env, r, c, mode);
    assert Represents(a, M.Nodes(env, l, c), mode) && Represents(b, M.Nodes(env, r, c), mode);
    KeepFirstFacts(a.nodes + b.nodes);
    CoverUnion(a.nodes, M.Nodes(env, l, c), b.nodes, M.Nodes(env, r, c), KeepFirst(a.nodes + b.nodes), mode);
  }

  /** [1] on a filter needs only the document-first node of its source. */
  lemma {:induction false} FirstFilter(env: Env, p: Expr, s: RawSet, S: set<XNode>, mode: Mode)
    requires AgreesEverywhere(env, p) && KindHolds(ConstantOne, p) && Represents(s, S, FirstOnly)
    ensures Represents(RawSet(Sorted, ApplyPred(env, p, ConstantOne, SortDo(s).nodes, EvalOnce(Sorted, mode))),
                       NodeSet(M.Selected(env, p, InOrder(S), 0)), mode)
  {
    SortDoFacts(s);
    var t := InOrder(NodeSet(s.nodes));
    ApplyPredAgrees(env, p, ConstantOne, t, EvalOnce(Sorted, mode));
    OneIsFirst(env, t);
    OneIsFirst(env, InOrder(S));
    FirstsEqual(NodeSet(s.nodes), S);
    AllCovers(Take1(InOrder(S)), mode);
  }

  /** Any other positional predicate counts in document order. */
  lemma {:induction false} SortedFilter(env: Env, p: Expr, kind: PredKind, s: RawSet, S: set<XNode>, mode: Mode)
    requires AgreesEverywhere(env, p) && KindHolds(kind, p) && Represents(s, S, All)
    ensures Represents(RawSet(Sorted, ApplyPred(env, p, kind, SortDo(s).nodes, EvalOnce(Sorted, mode))),
                       NodeSet(M.Selected(env, p, InOrder(S), 0)), mode)
  {
    var D := M.Selected(env, p, InOrder(S), 0);
    SortDoFacts(s);
    SelectedOrder(env, p, InOrder(S), 0);
    ApplyPredAgrees(env, p, kind, InOrder(S), EvalOnce(Sorted, mode));
    if mode == All { AllCovers(D, mode); } else { CutSorted(D, mode); }
  }

  lemma FilterUnfolds(env: Env, l: Expr, p: Expr, kind: PredKind, c: Context, mode: Mode)
    ensures var s := SetOf(env, l, c, if kind == ConstantOne then FirstOnly else All);
            var r := SetOf(env, Filter(l, p, kind), c, mode);
            if kind == PosInv then r == RawSet(s.order, ApplyPred(env, p, kind, s.nodes, EvalOnce(s.order, mode)))
            else r == RawSet(Sorted, ApplyPred(env, p, kind, SortDo(s).nodes, EvalOnce(Sorted, mode)))
    ensures M.Nodes(env, Filter(l, p, kind), c) == NodeSet(M.Selected(env, p, InOrder(M.Nodes(env, l, c)), 0))
  {
    hide ApplyPred, M.Selected;
  }

  lemma {:induction false} FilterAgrees(env: Env, l: Expr, p: Expr, kind: PredKind, c: Context, mode: Mode)
    requires Agrees(env, l, c) && AgreesEverywhere(env, p) && KindHolds(kind, p)
    ensures Represents(SetOf(env, Filter(l, p, kind), c, mode), M.Nodes(env, Filter(l, p, kind), c), mode)
  {
    FilterUnfolds(env, l, p, kind, c, mode);
    hide ApplyPred, SortDo, M.Selected, KindHolds, AgreesEverywhere, Covers, SetOf, M.Nodes, EvalOnce, Truthful, Represents;
    var S := M.Nodes(env, l, c);
    assert Represents(SetOf(env, l, c, FirstOnly), S, FirstOnly);
    assert Represents(SetOf(env, l, c, All), S, All);
    if kind == ConstantOne {
      FirstFilter(env, p, SetOf(env, l, c, FirstOnly), S, mode);
    } else if kind == PosInv {
      PosInvFilter(env, p, SetOf(env, l, c, All), S, mode);
    } else {
      SortedFilter(env, p, kind, SetOf(env, l, c, All), S, mode);
    }
  }

  lemma {:induction false} FirstsEqual(T: set<XNode>, S: set<XNode>)
    requires T <= S && (S != {} ==> First(S) in T)
    ensures Take1(InOrder(T)) == Take1(InOrder(S))
  {
    if S != {} {
      FirstNodeIsFirst(RawSet(Sorted, InOrder(S)));
      FirstNodeIsFirst(RawSet(Sorted, InOrder(T)));
      FirstUnique(InOrder(S)[0], First(S), S);
      FirstUnique(InOrder(T)[0], First(S), T);
    } else {
      assert T == {};
    }
  }

  lemma {:induction false} PosInvFilter(env: Env, p: Expr, s: RawSet, S: set<XNode>, mode: Mode)
    requires AgreesEverywhere(env, p) && KindHolds(PosInv, p) && Represents(s, S, All)
    ensures Represents(RawSet(s.order, ApplyPred(env, p, PosInv, s.nodes, EvalOnce(s.order, mode))),
                       NodeSet(M.Selected(env, p, InOrder(S), 0)), mode)
  {
    var once := EvalOnce(s.order, mode);
    var D := M.Selected(env, p, s.nodes, 0);
    ApplyPredAgrees(env, p, PosInv, s.nodes, once);
    SelectedOrder(env, p, s.nodes, 0);
    SameSelection(env, p, s.nodes, S);
    hide M.Selected, ApplyPred, KindHolds, AgreesEverywhere;
    AllCovers(D, mode);
    if once {
      if D != [] { assert D[0] in NodeSet(D); }
      assert NodeSet(Take1(D)) <= NodeSet(D);
      if s.order == Sorted { CutSorted(D, mode); }
    }
  }

  /** A positionally invariant predicate selects the same nodes in any order. */
  lemma {:induction false} SameSelection(env: Env, p: Expr, nodes: seq<XNode>, S: set<XNode>)
    requires KindHolds(PosInv, p) && NodeSet(nodes) == S
    ensures NodeSet(M.Selected(env, p, nodes, 0)) == NodeSet(M.Selected(env, p, InOrder(S), 0))
  {
    var D := M.Selected(env, p, nodes, 0);
    hide M.Selected;
    forall y ensures y in D <==> y in M.Selected(env, p, InOrder(S), 0) {
      PosInvSelected(env, p, nodes, 0, y);
      PosInvSelected(env, p, InOrder(S), 0, y);
      assert y in InOrder(S) <==> y in NodeSet(InOrder(S));
      assert y in nodes <==> y in NodeSet(nodes);
    }
  }

  // ---- the whole evaluator

  lemma {:induction false} PredsAgree(env: Env, preds: Preds)
    requires ValidEnv(env) && ClassifiedPreds(preds)
    ensures AllAgree(env, preds)
    decreases preds, 0
  {
    match preds
    case NoPred =>
    case Pred(p, _, next) =>
      forall c ensures Agrees(env, p, c) { LazyExact(env, p, c); }
      PredsAgree(env, next);
  }

  lemma {:induction false} ArgsAgree(env: Env, args: Args, c: Context)
    requires ValidEnv(env) && ClassifiedArgs(args)
    ensures ArgValues(env, args, c) == M.Arguments(env, args, c)
    decreases args, 0
  {
    match args
    case NoArg =>
    case Arg(_, e, next) =>
      LazyExact(env, e, c);
      ArgsAgree(env, next, c);
  }

  lemma {:induction false} SetAgrees(env: Env, e: Expr, c: Context, mode: Mode)
    requires ValidEnv(env) && Classified(e)
    ensures Represents(SetOf(env, e, c, mode), M.Nodes(env, e, c), mode)
    decreases e, 0
  {
    match e
    case Union(l, r) =>
      LazyExact(env, l, c);
      LazyExact(env, r, c);
      UnionAgrees(env, l, r, c, mode);
    case Filter(l, p, kind) =>
      LazyExact(env, l, c);
      forall c' ensures Agrees(env, p, c') { LazyExact(env, p, c'); }
      FilterAgrees(env, l, p, kind, c, mode);
    case Step(left, axis, test, preds) =>
      if left.FromSet? { LazyExact(env, left.e, c); }
      PredsAgree(env, preds);
      StepAgrees(env, left, axis, test, preds, c, mode);
    case Leaf(k) =>
      AllCovers(LeafSet(env, k, c.n).nodes, mode);
      assert NodeSet(LeafSet(env, k, c.n).nodes) == M.LeafNodes(env, k, c.n);
    case _ =>
  }

  lemma {:induction false} ValueAgrees(env: Env, e: Expr, c: Context)
    requires ValidEnv(env) && Classified(e)
    ensures TypeOf(e) != NodeSetT ==> Native(env, e, c) == M.Value(env, e, c)
    decreases e, 0
  {
    match e
    case Unary(_, l) => LazyExact(env, l, c);
    case Binary(_, l, r) => LazyExact(env, l, c); LazyExact(env, r, c);
    case Call(_, _, args) => ArgsAgree(env, args, c);
    case Translate(s, f, t) => LazyExact(env, s, c); LazyExact(env, f, c); LazyExact(env, t, c);
    case TranslateTable(s, _) => LazyExact(env, s, c);
    case CompareAttr(_, r) => LazyExact(env, r, c);
    case _ =>
  }

  /**
   Main result on laziness: every conversion the evaluator makes of a classified tree is the
   meaning's, and its node list represents the meaning's set in all three modes.
   */
  lemma {:induction false} LazyExact(env: Env, e: Expr, c: Context)
    requires ValidEnv(env) && Classified(e)
    ensures Agrees(env, e, c)
    decreases e, 1
  {
    ValueAgrees(env, e, c);
    forall mode ensures Represents(SetOf(env, e, c, mode), M.Nodes(env, e, c), mode) {
      SetAgrees(env, e, c, mode);
    }
    ConversionsAgree(env, e, c);
  }

  /** The same, spelt out on the evaluator alone: what each lazy mode owes to the full evaluation. */
  lemma {:induction false} LazyModes(env: Env, e: Expr, c: Context)
    requires ValidEnv(env) && Classified(e)
    ensures SetOf(env, e, c, Any).nodes != [] <==> SetOf(env, e, c, All).nodes != []
    ensures FirstNode(SetOf(env, e, c, FirstOnly)) == FirstNode(SetOf(env, e, c, All))
    ensures SetOf(env, e, c, All).nodes != [] ==>
              IsFirst(FirstNode(SetOf(env, e, c, FirstOnly)), NodeSet(SetOf(env, e, c, All).nodes))
    ensures Distinct(SetOf(env, e, c, All).nodes)
  {
    LazyExact(env, e, c);
    var S := M.Nodes(env, e, c);
    var all := SetOf(env, e, c, All);
    assert Represents(all, S, All);
    assert Represents(SetOf(env, e, c, Any), S, Any);
    assert Represents(SetOf(env, e, c, FirstOnly), S, FirstOnly);
    FirstOfCover(SetOf(env, e, c, FirstOnly), S);
    OrderedIsDistinct(all.nodes);
    var any := SetOf(env, e, c, Any).nodes;
    if any != [] { assert any[0] in NodeSet(any); }
    if all.nodes != [] {
      assert all.nodes[0] in NodeSet(all.nodes);
      FirstNodeIsFirst(all);
      FirstUnique(FirstNode(all), First(S), S);
    }
  }
}
