/**
 Predicates and steps as the evaluator runs them: the pointer walk of an axis pushes nodes on a list, whose tail is
 filtered in place and whose repeated nodes are removed through the hash table. Each loop is proved to compute what XPathEval says, so the results on lazy evaluation are about these loops.
 */
module XPathSteps {
  import opened NodeOrder
  import opened XmlTree
  import opened XPathAst
  import opened XPathEval
  import opened XmlNodes
  import W = AxisWalk
  import F = AxisFill
  import H = NodeHash
  import L = XPathLazy

  /** What has been kept so far, and what is kept of the nodes from index i on. */
  ghost predicate Filtering(env: Env, p: Expr, seg: seq<XNode>, kept: seq<XNode>, i: nat)
    requires i <= |seg|
  {
    kept + KeepTrue(env, p, seg, i) == KeepTrue(env, p, seg, 0)
  }

  predicate Accepts(env: Env, p: Expr, x: XNode, i: nat, size: nat) {
    var v := OperandOf(env, p, Context(x, i, size));
    if TypeOf(p) == NumberT then NumberEquals(v.asNumber, OfNat(i)) else v.asBool
  }

  lemma FilterStep(env: Env, p: Expr, seg: seq<XNode>, kept: seq<XNode>, i: nat)
    requires i < |seg| && Filtering(env, p, seg, kept, i)
    ensures Filtering(env, p, seg, kept + (if Accepts(env, p, seg[i], i + 1, |seg|) then [seg[i]] else []), i + 1)
  {
    var more := if Accepts(env, p, seg[i], i + 1, |seg|) then [seg[i]] else [];
    assert KeepTrue(env, p, seg, i) == more + KeepTrue(env, p, seg, i + 1);
    hide KeepTrue, Accepts;
    Assoc(kept, more, KeepTrue(env, p, seg, i + 1));
  }

  /** The first node kept is the first of all that are. */
  lemma FirstKept(env: Env, p: Expr, seg: seq<XNode>, i: nat)
    requires i < |seg| && Filtering(env, p, seg, [], i) && Accepts(env, p, seg[i], i + 1, |seg|)
    ensures Take1(KeepTrue(env, p, seg, 0)) == [seg[i]]
  {
    assert KeepTrue(env, p, seg, i) == [seg[i]] + KeepTrue(env, p, seg, i + 1);
    assert [] + KeepTrue(env, p, seg, i) == KeepTrue(env, p, seg, i);
  }

  lemma {:induction false} MinNodeAppend(s: seq<XNode>, x: XNode)
    requires s != []
    ensures MinNode(s + [x]) == if Less(x, MinNode(s)) then x else MinNode(s)
  {
    if |s| > 1 {
      assert (s + [x])[1..] == s[1..] + [x];
      MinNodeAppend(s[1..], x);
      LessTotal(MinNode(s[1..]), s[0]);
    } else {
      assert (s + [x])[1..] == [x];
    }
  }

  class NodeList {
    var items: seq<XNode>
    var order: OrderFlag

    constructor (order: OrderFlag)
      ensures items == [] && this.order == order
    {
      items, this.order := [], order;
    }

    function Value(): RawSet
      reads this
    {
      RawSet(order, items)
    }

    /** xpath_get_order: one pass over adjacent pairs. */
    method GetOrder() returns (found: OrderFlag)
      ensures found == XPathEval.GetOrder(items)
    {
      if |items| < 2 { return Sorted; }
      var first := Less(items[0], items[1]);
      var it := 1;
      while it + 1 < |items|
        invariant 1 <= it < |items| && (AllAdjacent(items, 1, first) <==> AllAdjacent(items, it, first))
      {
        if Less(items[it], items[it + 1]) != first { return Unsorted; }
        it := it + 1;
      }
      found := if first then Sorted else SortedReverse;
    }

    /** xpath_first. */
    method First() returns (x: XNode)
      ensures x == FirstNode(Value())
    {
      if items == [] { return Null; }
      match order
      case Sorted => x := items[0];
      case SortedReverse => x := items[|items| - 1];
      case Unsorted => x := MinElement();
    }

    /** min_element. */
    method MinElement() returns (x: XNode)
      requires items != []
      ensures x == MinNode(items)
    {
      x := items[0];
      var it := 1;
      while it < |items|
        invariant 1 <= it <= |items| && x == MinNode(items[..it])
      {
        MinNodeAppend(items[..it], items[it]);
        assert items[..it + 1] == items[..it] + [items[it]];
        if Less(items[it], x) { x := items[it]; }
        it := it + 1;
      }
      assert items[..it] == items;
    }

    /** remove_duplicates: a list of unknown order goes through the hash table, a sorted one has its equal nodes together. */
    method RemoveDuplicates(address: XNode -> nat)
      requires H.KeysIdentify(items, address) && (order == Unsorted || H.Grouped(items))
      modifies this`items
      ensures items == KeepFirst(if order == Unsorted && |old(items)| > 2 then H.NonNull(old(items), address) else old(items))
    {
      var s := items;
      var a := new XNode[|s|](i requires 0 <= i < |s| => s[i]);
      assert a[..] == s;
      var count := H.RemoveDuplicates(a, address, order == Unsorted);
      items := a[..count];
    }

    /** apply_predicate_boolean and apply_predicate_number: nodes that pass move down over those that do not. */
    method KeepPassing(env: Env, first: nat, p: Expr, once: bool)
      requires first <= |items|
      modifies this`items
      ensures var kept := KeepTrue(env, p, old(items)[first..], 0);
              items == old(items)[..first] + if once then Take1(kept) else kept
    {
      hide KeepTrue, Accepts, Filtering;
      ghost var start, seg, kept := items[..first], items[first..], [];
      var size := |items| - first;
      var last, it, i := first, first, 1;
      NothingYet(env, p, seg);
      while it != |items|
        invariant first <= last <= it <= |items| == first + size && i == it - first + 1
        invariant items[..last] == start + kept && items[it..] == seg[it - first..]
        invariant Filtering(env, p, seg, kept, it - first) && (once ==> kept == [])
        decreases |items| - it
      {
        TailStep(items, seg, first, it);
        FilterStep(env, p, seg, kept, it - first);
        if Accepts(env, p, items[it], i, size) {
          if once { FirstKept(env, p, seg, it - first); }
          PutDown(items, start, kept, last, it);
          kept := kept + [items[it]];
          items := items[last := items[it]];
          last := last + 1;
          if once { break; }
        } else {
          assert kept + [] == kept;
        }
        it, i := it + 1, i + 1;
      }
      if it == |items| { AllSeen(env, p, seg, kept); }
      items := items[..last];
    }

    /** apply_predicate_number_const. */
    method KeepConstant(env: Env, first: nat, p: Expr)
      requires first < |items|
      modifies this`items
      ensures items == old(items)[..first] + PickConstant(old(items)[first..], OperandOf(env, p, Context(Null, 1, |old(items)| - first)).asNumber)
    {
      hide OperandOf;
      ghost var was := items;
      var size := |items| - first;
      var last := first;
      var er := OperandOf(env, p, Context(Null, 1, size)).asNumber;
      if er.Fin? && 1.0 <= er.r <= size as real {
        var eri := er.r.Floor;
        if er.r == eri as real {
          items := items[last := items[last + eri - 1]];
          last := last + 1;
        }
      }
      items := items[..last];
      assert was[first..][..0] == [];
    }

    /** apply_predicate. */
    method ApplyPredicate(env: Env, first: nat, p: Expr, kind: PredKind, once: bool)
      requires first <= |items|
      modifies this`items
      ensures items == old(items)[..first] + ApplyPred(env, p, kind, old(items)[first..], once)
    {
      if |items| == first {
        assert items[first..] == [] && items == items[..first] + [];
        return;
      }
      hide KeepTrue, PickConstant, OperandOf;
      if kind == Constant || kind == ConstantOne {
        KeepConstant(env, first, p);
      } else {
        KeepPassing(env, first, p, once);
      }
    }

    /** apply_predicates: only the last predicate may stop at its first match. */
    method ApplyPredicates(env: Env, first: nat, preds: Preds, mode: Mode)
      requires first <= |items|
      modifies this`items
      ensures items == old(items)[..first] + ApplyPreds(env, preds, old(items)[first..], EvalOnce(order, mode))
    {
      if |items| == first {
        assert items[first..] == [] && items == items[..first] + [];
        return;
      }
      var lastOnce := EvalOnce(order, mode);
      ghost var start, goal := items[..first], ApplyPreds(env, preds, items[first..], lastOnce);
      hide ApplyPred, ApplyPreds;
      var pred := preds;
      PredsEnd(env, items[first..], lastOnce);
      while pred.Pred?
        invariant first <= |items| && items[..first] == start && goal == ApplyPreds(env, pred, items[first..], lastOnce)
        decreases pred
      {
        ghost var was := items;
        PredsStep(env, pred, items[first..], lastOnce);
        ApplyPredicate(env, first, pred.expr, pred.kind, pred.next.NoPred? && lastOnce);
        assert items[..first] == was[..first];
        assert items[first..] == ApplyPred(env, pred.expr, pred.kind, was[first..], pred.next.NoPred? && lastOnce);
        pred := pred.next;
      }
      PredsEnd(env, items[first..], lastOnce);
      assert items == items[..first] + items[first..];
    }
  }

  lemma NothingYet(env: Env, p: Expr, seg: seq<XNode>)
    ensures Filtering(env, p, seg, [], 0)
  {
  }

  lemma TailStep(t: seq<XNode>, seg: seq<XNode>, first: nat, it: nat)
    requires first <= it < |t| == first + |seg| && t[it..] == seg[it - first..]
    ensures t[it] == seg[it - first] && t[it + 1..] == seg[it + 1 - first..]
  {
    assert t[it] == t[it..][0];
    assert t[it + 1..] == t[it..][1..] && seg[it + 1 - first..] == seg[it - first..][1..];
  }

  lemma PutDown(t: seq<XNode>, start: seq<XNode>, kept: seq<XNode>, last: nat, it: nat)
    requires last <= it < |t| && t[..last] == start + kept
    ensures var u := t[last := t[it]]; u[..last + 1] == start + (kept + [t[it]]) && u[it + 1..] == t[it + 1..]
  {
    var u := t[last := t[it]];
    assert u[..last + 1] == t[..last] + [t[it]];
  }

  lemma AllSeen(env: Env, p: Expr, seg: seq<XNode>, kept: seq<XNode>)
    requires Filtering(env, p, seg, kept, |seg|)
    ensures kept == KeepTrue(env, p, seg, 0)
  {
    assert kept + [] == kept;
  }

  lemma PredsEnd(env: Env, seg: seq<XNode>, lastOnce: bool)
    ensures ApplyPreds(env, NoPred, seg, lastOnce) == seg
  {
  }

  /** Filtering an empty list by further predicates changes nothing. */
  lemma PredsStep(env: Env, preds: Preds, seg: seq<XNode>, lastOnce: bool)
    requires preds.Pred?
    ensures ApplyPreds(env, preds, seg, lastOnce) ==
              ApplyPreds(env, preds.next, ApplyPred(env, preds.expr, preds.kind, seg, preds.next.NoPred? && lastOnce), lastOnce)
  {
    hide KeepTrue, PickConstant, OperandOf;
    if seg == [] { assert ApplyPred(env, preds.expr, preds.kind, seg, preds.next.NoPred? && lastOnce) == []; }
  }

  // ---- steps

  lemma AppendTail(t: seq<XNode>, found: seq<XNode>)
    ensures (t + found)[..|t|] == t && (t + found)[|t|..] == found
  {
  }

  // ---- nodes and their objects

  /** Each node and attribute has an address of its own. */
  ghost predicate Addresses(address: XNode -> nat) {
    && (forall x, y :: x != Null && y != Null && address(x) == address(y) ==> x == y)
    && (forall x :: x != Null ==> address(x) != 0)
  }

  /** What step_fill pushes are the objects of the nodes that the specification takes. */
  lemma FillNames(d: Doc, nodes: seq<XmlNode>, axis: Axis, test: NodeTest, x: XNode, once: bool)
    requires Distinct(nodes) && |nodes| == |d| && (axis == Attribute && test.TestName? ==> once)
    ensures F.NamesOf(nodes, F.Handles(nodes, F.Reached(d, axis, test, x, once))) ==
              if once then Take1(AxisNodes(d, axis, test, x)) else AxisNodes(d, axis, test, x)
  {
    F.ReachedIsAxis(d, axis, test, x, once);
    F.AxisOfDocument(d, axis, test, x);
    hide AxisNodes;
    var all := AxisNodes(d, axis, test, x);
    if once && all != [] { assert all[0] in all; }
    F.NamesOfHandles(d, nodes, F.Reached(d, axis, test, x, once));
  }

  lemma LaidOut(d: Doc, nodes: seq<XmlNode>)
    requires W.Layout(d, nodes)
    ensures Distinct(nodes) && |nodes| == |d|
  {
  }

  /** One context node: step_fill adds the nodes of the axis, and the predicates filter what was added. */
  method StepOne(env: Env, nodes: seq<XmlNode>, ns: NodeList, axis: Axis, test: NodeTest, preds: Preds, x: XNode, once: bool, mode: Mode)
    requires W.Layout(env.doc, nodes) && axis != Namespace && (axis == Attribute && test.TestName? ==> once)
    modifies ns`items
    ensures ns.items == old(ns.items) + StepFrom(env, axis, test, preds, x, once, EvalOnce(ns.order, mode))
  {
    LaidOut(env.doc, nodes);
    hide ApplyPreds, AxisNodes;
    var found := F.StepFill(env.doc, nodes, x, axis, test, once);
    FillNames(env.doc, nodes, axis, test, x, once);
    var added := F.NamesOf(nodes, found);
    var size := |ns.items|;
    AppendTail(ns.items, added);
    PredsEnd(env, added, EvalOnce(ns.order, mode));
    ns.items := ns.items + added;
    if preds.Pred? { ns.ApplyPredicates(env, size, preds, mode); }
  }

  /** The loop of step_do over the context nodes. */
  method StepOver(env: Env, nodes: seq<XmlNode>, ns: NodeList, axis: Axis, test: NodeTest, preds: Preds, sources: seq<XNode>, once: bool, mode: Mode)
    requires W.Layout(env.doc, nodes) && axis != Namespace && (axis == Attribute && test.TestName? ==> once)
    modifies ns
    ensures ns.Value() == StepLoop(env, axis, test, preds, sources, once, mode, old(ns.Value()))
  {
    hide StepFrom, W.Layout;
    ghost var goal := StepLoop(env, axis, test, preds, sources, once, mode, ns.Value());
    var it := 0;
    assert sources[0..] == sources;
    while it != |sources|
      invariant 0 <= it <= |sources| && goal == StepLoop(env, axis, test, preds, sources[it..], once, mode, ns.Value())
      decreases |sources| - it
    {
      assert sources[it..][1..] == sources[it + 1..];
      if axis != Self && |ns.items| != 0 { ns.order := Unsorted; }
      StepOne(env, nodes, ns, axis, test, preds, sources[it], once, mode);
      it := it + 1;
    }
  }

  // ---- no null nodes

  lemma {:induction false} KeepTrueWithin(env: Env, p: Expr, seg: seq<XNode>, i: nat)
    requires i <= |seg|
    ensures forall y :: y in KeepTrue(env, p, seg, i) ==> y in seg
    decreases |seg| - i
  {
    hide OperandOf;
    if i < |seg| { KeepTrueWithin(env, p, seg, i + 1); }
  }

  lemma {:induction false} ApplyPredsWithin(env: Env, preds: Preds, seg: seq<XNode>, lastOnce: bool)
    ensures forall y :: y in ApplyPreds(env, preds, seg, lastOnce) ==> y in seg
    decreases preds
  {
    hide OperandOf;
    if seg != [] && preds.Pred? {
      var once := preds.next.NoPred? && lastOnce;
      KeepTrueWithin(env, preds.expr, seg, 0);
      hide KeepTrue;
      var kept := ApplyPred(env, preds.expr, preds.kind, seg, once);
      assert forall y :: y in kept ==> y in seg;
      hide ApplyPred;
      ApplyPredsWithin(env, preds.next, kept, lastOnce);
    }
  }

  lemma {:induction false} StepLoopNoNull(env: Env, axis: Axis, test: NodeTest, preds: Preds, sources: seq<XNode>, once: bool, mode: Mode, ns: RawSet)
    requires Null !in ns.nodes
    ensures Null !in StepLoop(env, axis, test, preds, sources, once, mode, ns).nodes
    decreases |sources|
  {
    hide StepFrom, EvalOnce;
    if sources != [] {
      L.StepLoopUnfold(env, axis, test, preds, sources, once, mode, ns);
      hide StepLoop;
      var order := if axis != Self && ns.nodes != [] then Unsorted else ns.order;
      var more := StepFrom(env, axis, test, preds, sources[0], once, EvalOnce(order, mode));
      StepFromNoNull(env, axis, test, preds, sources[0], once, EvalOnce(order, mode));
      StepLoopNoNull(env, axis, test, preds, sources[1..], once, mode, RawSet(order, ns.nodes + more));
    }
  }

  lemma StepFromNoNull(env: Env, axis: Axis, test: NodeTest, preds: Preds, x: XNode, once: bool, lastOnce: bool)
    ensures Null !in StepFrom(env, axis, test, preds, x, once, lastOnce)
  {
    var found := AxisNodes(env.doc, axis, test, x);
    F.AxisOfDocument(env.doc, axis, test, x);
    hide AxisNodes, ApplyPreds;
    var added := if once then Take1(found) else found;
    assert forall y :: y in added ==> y in found;
    ApplyPredsWithin(env, preds, added, lastOnce);
  }

  lemma {:induction false} NoneDropped(s: seq<XNode>, address: XNode -> nat)
    requires Null !in s && Addresses(address)
    ensures H.NonNull(s, address) == s && H.KeysIdentify(s, address)
    decreases |s|
  {
    if s != [] {
      assert s == s[..|s| - 1] + [s[|s| - 1]];
      NoneDropped(s[..|s| - 1], address);
    }
  }

  /** step_do, given the value of the left operand if there is one. */
  method StepDo(env: Env, nodes: seq<XmlNode>, address: XNode -> nat, left: Left, axis: Axis, test: NodeTest, preds: Preds, c: Context, mode: Mode,
                s: RawSet) returns (ns: NodeList)
    requires W.Layout(env.doc, nodes) && Addresses(address)
    requires axis != Namespace && (left.FromSet? ==> s == SetOf(env, left.e, c, All))
    ensures fresh(ns) && ns.Value() == SetOf(env, Step(left, axis, test, preds), c, mode)
  {
    StepUnfolds(env, left, axis, test, preds, c, mode);
    var once := StepOnce(axis, test, preds, mode);
    assert axis == Attribute && test.TestName? ==> once;
    hide SetOf, StepFrom, StepLoop, KeepFirst, StepOnce, W.Layout, Addresses;
    var axisOrder := if IsReverse(axis) then SortedReverse else Sorted;
    ns := new NodeList(axisOrder);
    if left.FromSet? {
      if axis == Self { ns.order := s.order; }
      StepLoopNoNull(env, axis, test, preds, s.nodes, once, mode, ns.Value());
      StepOver(env, nodes, ns, axis, test, preds, s.nodes, once, mode);
    } else {
      StepFromNoNull(env, axis, test, preds, c.n, once, EvalOnce(axisOrder, mode));
      StepOne(env, nodes, ns, axis, test, preds, c.n, once, mode);
    }
    if axis != Child && axis != Attribute && axis != Self && ns.order == Unsorted {
      NoneDropped(ns.items, address);
      ns.RemoveDuplicates(address);
    }
  }

  lemma StepUnfolds(env: Env, left: Left, axis: Axis, test: NodeTest, preds: Preds, c: Context, mode: Mode)
    requires axis != Namespace
    ensures var axisOrder := if IsReverse(axis) then SortedReverse else Sorted;
            var once := StepOnce(axis, test, preds, mode);
            var ns :=
              if left.FromContext? then RawSet(axisOrder, StepFrom(env, axis, test, preds, c.n, once, EvalOnce(axisOrder, mode)))
              else
                var s := SetOf(env, left.e, c, All);
                StepLoop(env, axis, test, preds, s.nodes, once, mode, RawSet(if axis == Self then s.order else axisOrder, []));
            SetOf(env, Step(left, axis, test, preds), c, mode) ==
              if axis != Child && axis != Attribute && axis != Self && ns.order == Unsorted
              then RawSet(Unsorted, KeepFirst(ns.nodes)) else ns
  {
    hide StepFrom, StepLoop, KeepFirst;
  }
}
