/**
 The evaluator refines the meaning: whatever the lazy mode, order flags and predicate
 classification, it yields the nodes the meaning asks for, and the same scalars.
 */
module XPathRefine {
  import opened NodeOrder
  import opened XmlTree
  import opened XPathAst
  import opened XPathEval
  import M = XPathMeaning

  // ---- classification

  /** is_posinv_expr. */
  predicate PosInvExpr(e: Expr) {
    match e
    case Leaf(k) => k != Position && k != Last
    case Unary(_, l) => PosInvExpr(l)
    case Binary(_, l, r) => PosInvExpr(l) && PosInvExpr(r)
    case Call(_, _, args) => PosInvArgs(args)
    case Translate(s, from, to) => PosInvExpr(s) && PosInvExpr(from) && PosInvExpr(to)
    case TranslateTable(s, _) => PosInvExpr(s)
    case CompareAttr(_, r) => PosInvExpr(r)
    case Union(l, r) => PosInvExpr(l) && PosInvExpr(r)
    case Id(l) => PosInvExpr(l)
    case _ => true    // steps and filters
  }

  predicate PosInvArgs(args: Args) {
    match args
    case NoArg => true
    case Arg(_, e, next) => PosInvExpr(e) && PosInvArgs(next)
  }

  /** What each classification promises about its predicate expression. */
  predicate KindHolds(kind: PredKind, p: Expr) {
    match kind
    case Default => true
    case PosInv => TypeOf(p) != NumberT && PosInvExpr(p)
    case Constant => p.Leaf? && (p.k.NumberConst? || p.k.VarNumber? || p.k.Last?)
    case ConstantOne => p == Leaf(NumberConst(Fin(1.0)))
  }

  /** Every classification in the tree holds. A freshly parsed tree has only Default ones. */
  predicate Classified(e: Expr) {
    match e
    case Leaf(_) => true
    case Unary(_, l) => Classified(l)
    case Binary(_, l, r) => Classified(l) && Classified(r)
    case Call(_, _, args) => ClassifiedArgs(args)
    case Translate(s, from, to) => Classified(s) && Classified(from) && Classified(to)
    case TranslateTable(s, _) => Classified(s)
    case CompareAttr(_, r) => Classified(r)
    case Union(l, r) => Classified(l) && Classified(r)
    case Filter(l, p, kind) => Classified(l) && Classified(p) && KindHolds(kind, p)
    case Step(left, _, _, preds) => ClassifiedLeft(left) && ClassifiedPreds(preds)
    case Id(l) => Classified(l)
  }

  predicate ClassifiedLeft(left: Left) {
    match left
    case FromContext => true
    case FromSet(e) => Classified(e)
  }

  predicate ClassifiedPreds(preds: Preds) {
    match preds
    case NoPred => true
    case Pred(p, kind, next) => Classified(p) && KindHolds(kind, p) && ClassifiedPreds(next)
  }

  predicate ClassifiedArgs(args: Args) {
    match args
    case NoArg => true
    case Arg(_, e, next) => Classified(e) && ClassifiedArgs(next)
  }

  // ---- positional invariance

  /** A positionally invariant tree means the same at every position; a node-set tree always does. */
  lemma {:induction false} PosInvMeaning(env: Env, e: Expr, x: XNode, i: nat, n: nat, j: nat, m: nat)
    ensures M.Nodes(env, e, Context(x, i, n)) == M.Nodes(env, e, Context(x, j, m))
    ensures PosInvExpr(e) ==> M.Value(env, e, Context(x, i, n)) == M.Value(env, e, Context(x, j, m))
    ensures PosInvExpr(e) || TypeOf(e) == NodeSetT ==>
              M.ValueOf(env, e, Context(x, i, n)) == M.ValueOf(env, e, Context(x, j, m))
    decreases e
  {
    match e
    case Leaf(_) =>
    case Unary(_, l) => PosInvMeaning(env, l, x, i, n, j, m);
    case Binary(_, l, r) => PosInvMeaning(env, l, x, i, n, j, m); PosInvMeaning(env, r, x, i, n, j, m);
    case Call(_, _, args) => if PosInvArgs(args) { PosInvArguments(env, args, x, i, n, j, m); }
    case Translate(s, f, t) =>
      PosInvMeaning(env, s, x, i, n, j, m); PosInvMeaning(env, f, x, i, n, j, m); PosInvMeaning(env, t, x, i, n, j, m);
    case TranslateTable(s, _) => PosInvMeaning(env, s, x, i, n, j, m);
    case CompareAttr(_, r) => PosInvMeaning(env, r, x, i, n, j, m);
    case Union(l, r) => PosInvMeaning(env, l, x, i, n, j, m); PosInvMeaning(env, r, x, i, n, j, m);
    case Filter(l, _, _) => PosInvMeaning(env, l, x, i, n, j, m);
    case Step(left, _, _, _) =>
      if left.FromSet? { PosInvMeaning(env, left.e, x, i, n, j, m); }
      assert M.LeftNodes(env, left, Context(x, i, n)) == M.LeftNodes(env, left, Context(x, j, m));
    case Id(_) =>
  }

  lemma {:induction false} PosInvArguments(env: Env, args: Args, x: XNode, i: nat, n: nat, j: nat, m: nat)
    requires PosInvArgs(args)
    ensures M.Arguments(env, args, Context(x, i, n)) == M.Arguments(env, args, Context(x, j, m))
    decreases args
  {
    match args
    case NoArg =>
    case Arg(_, e, next) =>
      PosInvMeaning(env, e, x, i, n, j, m);
      PosInvArguments(env, next, x, i, n, j, m);
  }

  /** With a positionally invariant predicate, selection is a test on each node alone. */
  lemma {:induction false} PosInvSelected(env: Env, p: Expr, seg: seq<XNode>, i: nat, y: XNode)
    requires i <= |seg| && TypeOf(p) != NumberT && PosInvExpr(p)
    ensures y in M.Selected(env, p, seg, i) <==> y in seg[i..] && M.ValueOf(env, p, Context(y, 1, 1)).asBool
    decreases |seg| - i
  {
    if i < |seg| {
      PosInvSelected(env, p, seg, i + 1, y);
      PosInvMeaning(env, p, seg[i], i + 1, |seg|, 1, 1);
      assert seg[i..] == [seg[i]] + seg[i + 1..];
    }
  }

  // ---- selection keeps order

  lemma LaterInList(seg: seq<XNode>, i: nat, y: XNode)
    requires i < |seg| && y in seg[i + 1..]
    ensures Increasing(seg) ==> Less(seg[i], y)
    ensures Decreasing(seg) ==> Less(y, seg[i])
    ensures Distinct(seg) ==> seg[i] != y
  {
    var k :| 0 <= k < |seg[i + 1..]| && seg[i + 1..][k] == y;
    assert seg[i + 1 + k] == y;
  }

  lemma {:induction false} SelectedOrder(env: Env, p: Expr, seg: seq<XNode>, i: nat)
    requires i <= |seg|
    ensures forall y :: y in M.Selected(env, p, seg, i) ==> y in seg[i..]
    ensures Increasing(seg) ==> Increasing(M.Selected(env, p, seg, i))
    ensures Decreasing(seg) ==> Decreasing(M.Selected(env, p, seg, i))
    ensures Distinct(seg) ==> Distinct(M.Selected(env, p, seg, i))
    decreases |seg| - i
  {
    if i < |seg| {
      SelectedOrder(env, p, seg, i + 1);
      var tail := M.Selected(env, p, seg, i + 1);
      assert seg[i..] == [seg[i]] + seg[i + 1..];
      forall k | 0 <= k < |tail|
        ensures Increasing(seg) ==> Less(seg[i], tail[k])
        ensures Decreasing(seg) ==> Less(tail[k], seg[i])
        ensures Distinct(seg) ==> seg[i] != tail[k]
      {
        assert tail[k] in tail;
        LaterInList(seg, i, tail[k]);
      }
      var here := M.Selected(env, p, seg, i);
      assert here == tail || here == [seg[i]] + tail;
    }
  }

  lemma {:induction false} SelectedAllOrder(env: Env, preds: Preds, seg: seq<XNode>)
    ensures forall y :: y in M.SelectedAll(env, preds, seg) ==> y in seg
    ensures Increasing(seg) ==> Increasing(M.SelectedAll(env, preds, seg))
    ensures Decreasing(seg) ==> Decreasing(M.SelectedAll(env, preds, seg))
    ensures |M.SelectedAll(env, preds, seg)| <= |seg|
    decreases preds
  {
    match preds
    case NoPred =>
    case Pred(p, _, next) =>
      SelectedOrder(env, p, seg, 0);
      SelectedLength(env, p, seg, 0);
      SelectedAllOrder(env, next, M.Selected(env, p, seg, 0));
  }

  lemma {:induction false} SelectedLength(env: Env, p: Expr, seg: seq<XNode>, i: nat)
    requires i <= |seg|
    ensures |M.Selected(env, p, seg, i)| <= |seg| - i
    decreases |seg| - i
  {
    if i < |seg| { SelectedLength(env, p, seg, i + 1); }
  }

  // ---- order flags and sorting

  lemma OrderedIsDistinct(s: seq<XNode>)
    ensures Increasing(s) || Decreasing(s) ==> Distinct(s)
  {
    forall i, j | 0 <= i < j < |s| && (Increasing(s) || Decreasing(s)) ensures s[i] != s[j] {
      assert Less(s[i], s[j]) || Less(s[j], s[i]);
    }
  }

  lemma {:induction false} MinNodeIsFirst(s: seq<XNode>)
    requires s != []
    ensures IsFirst(MinNode(s), NodeSet(s))
  {
    if |s| > 1 {
      MinNodeIsFirst(s[1..]);
      var m := MinNode(s[1..]);
      LessTotal(m, s[0]);
      assert s == [s[0]] + s[1..];
      forall y | y in s ensures y == MinNode(s) || Less(MinNode(s), y) {
        assert y == s[0] || y in s[1..];
      }
    }
  }

  /** first() is the document-first node of the list. */
  lemma {:induction false} FirstNodeIsFirst(ns: RawSet)
    requires Truthful(ns) && ns.nodes != []
    ensures IsFirst(FirstNode(ns), NodeSet(ns.nodes))
  {
    var s := ns.nodes;
    match ns.order
    case Unsorted => MinNodeIsFirst(s);
    case Sorted =>
      forall y | y in s ensures y == s[0] || Less(s[0], y) { var k :| 0 <= k < |s| && s[k] == y; }
    case SortedReverse =>
      forall y | y in s ensures y == s[|s| - 1] || Less(s[|s| - 1], y) { var k :| 0 <= k < |s| && s[k] == y; }
  }

  lemma {:induction false} InsertNodeFacts(x: XNode, s: seq<XNode>)
    requires Increasing(s) && x !in s
    ensures Increasing(InsertNode(x, s))
    ensures forall y :: y in InsertNode(x, s) <==> y == x || y in s
  {
    if s != [] {
      LessTotal(x, s[0]);
      assert s == [s[0]] + s[1..];
      if !Less(x, s[0]) {
        InsertNodeFacts(x, s[1..]);
        var t := InsertNode(x, s[1..]);
        assert forall k :: 0 <= k < |t| ==> t[k] in t;
        assert forall y :: y in s[1..] ==> Less(s[0], y);
      } else {
        assert forall k :: 0 < k < |s| ==> Less(s[0], s[k]);
      }
    }
  }

  lemma {:induction false} SortNodesFacts(s: seq<XNode>)
    requires Distinct(s)
    ensures Increasing(SortNodes(s)) && NodeSet(SortNodes(s)) == NodeSet(s)
  {
    if s != [] {
      SortNodesFacts(s[1..]);
      assert forall y :: y in s[1..] ==> exists k :: 0 < k < |s| && s[k] == y;
      assert s[0] !in NodeSet(s[1..]);
      assert s[0] !in SortNodes(s[1..]);
      InsertNodeFacts(s[0], SortNodes(s[1..]));
      assert s == [s[0]] + s[1..];
      assert forall y :: y in SortNodes(s[1..]) <==> y in NodeSet(s[1..]);
    }
  }

  lemma {:induction false} ReverseAt(s: seq<XNode>)
    ensures |Reverse(s)| == |s|
    ensures forall k :: 0 <= k < |s| ==> Reverse(s)[k] == s[|s| - 1 - k]
  {
    if s != [] { ReverseAt(s[1..]); }
  }

  lemma {:induction false} AdjacentToAll(s: seq<XNode>, i: nat, less: bool)
    requires AllAdjacent(s, i, less)
    ensures forall k :: i <= k && k + 1 < |s| ==> Less(s[k], s[k + 1]) == less
    decreases |s| - i
  {
    if i + 1 < |s| { AdjacentToAll(s, i + 1, less); }
  }

  lemma {:induction false} ChainIncreasing(s: seq<XNode>, i: nat, j: nat)
    requires i < j < |s| && forall k :: 0 <= k && k + 1 < |s| ==> Less(s[k], s[k + 1])
    ensures Less(s[i], s[j])
    decreases j
  {
    if i + 1 < j { ChainIncreasing(s, i, j - 1); }
    assert Less(s[j - 1], s[j]);
  }

  lemma {:induction false} ChainDecreasing(s: seq<XNode>, i: nat, j: nat)
    requires i < j < |s| && forall k :: 0 <= k && k + 1 < |s| ==> Less(s[k + 1], s[k])
    ensures Less(s[j], s[i])
    decreases j
  {
    if i + 1 < j { ChainDecreasing(s, i, j - 1); }
    assert Less(s[j], s[j - 1]);
  }

  /** xpath_get_order recognises lists that are already in document order or its reverse. */
  lemma {:induction false} GetOrderTruthful(s: seq<XNode>)
    requires Distinct(s)
    ensures GetOrder(s) == Sorted ==> Increasing(s)
    ensures GetOrder(s) == SortedReverse ==> Decreasing(s)
  {
    if |s| >= 2 {
      var first := Less(s[0], s[1]);
      if AllAdjacent(s, 1, first) {
        AdjacentToAll(s, 1, first);
        forall k | 0 <= k && k + 1 < |s| ensures if first then Less(s[k], s[k + 1]) else Less(s[k + 1], s[k]) {
          assert s[k] != s[k + 1];
          LessTotal(s[k], s[k + 1]);
        }
        forall i, j | 0 <= i < j < |s| ensures if first then Less(s[i], s[j]) else Less(s[j], s[i]) {
          if first { ChainIncreasing(s, i, j); } else { ChainDecreasing(s, i, j); }
        }
      }
    }
  }

  /** sort_do puts the nodes of a truthful list in document order. */
  lemma {:induction false} SortDoFacts(ns: RawSet)
    requires Truthful(ns)
    ensures SortDo(ns) == RawSet(Sorted, InOrder(NodeSet(ns.nodes)))
  {
    var s := ns.nodes;
    var t := SortDo(ns).nodes;
    OrderedIsDistinct(s);
    GetOrderTruthful(s);
    ReverseAt(s);
    SortNodesFacts(s);
    var order := if ns.order == Unsorted then GetOrder(s) else ns.order;
    if order == SortedReverse {
      forall i, j | 0 <= i < j < |t| ensures Less(t[i], t[j]) { assert Less(s[|s| - 1 - i], s[|s| - 1 - j]) || true; }
      forall y ensures y in t <==> y in s {
        if y in s { var k :| 0 <= k < |s| && s[k] == y; assert t[|s| - 1 - k] == y; }
      }
    }
    assert Increasing(t) && NodeSet(t) == NodeSet(s);
    IncreasingUnique(t, InOrder(NodeSet(s)));
  }

  // ---- what a list must contain in each mode

  /** Among a list's nodes are enough of S for the mode, and nothing else. */
  ghost predicate Covers(nodes: seq<XNode>, S: set<XNode>, mode: Mode) {
    && NodeSet(nodes) <= S
    && match mode
       case All => NodeSet(nodes) == S
       case Any => S != {} ==> nodes != []
       case FirstOnly => S != {} ==> First(S) in nodes
  }

  ghost predicate Represents(ns: RawSet, S: set<XNode>, mode: Mode) {
    Truthful(ns) && Covers(ns.nodes, S, mode)
  }

  lemma AllCovers(nodes: seq<XNode>, mode: Mode)
    ensures Covers(nodes, NodeSet(nodes), mode)
  {
    if nodes != [] { assert nodes[0] in NodeSet(nodes); }
  }

  /** A list in document order may be cut to its first node in the lazy modes. */
  lemma {:induction false} CutSorted(D: seq<XNode>, mode: Mode)
    requires Increasing(D) && mode != All
    ensures Covers(Take1(D), NodeSet(D), mode)
  {
    if D != [] {
      FirstNodeIsFirst(RawSet(Sorted, D));
      FirstUnique(D[0], First(NodeSet(D)), NodeSet(D));
    }
  }

  /** first() of a lazily evaluated list is the document-first node of the whole set. */
  lemma {:induction false} FirstOfCover(ns: RawSet, S: set<XNode>)
    requires Represents(ns, S, FirstOnly)
    ensures FirstNode(ns) == M.FirstOrNull(S)
    ensures ns.nodes == [] <==> S == {}
  {
    if ns.nodes == [] {
      assert S == {};
    } else {
      FirstNodeIsFirst(ns);
      assert ns.nodes[0] in NodeSet(ns.nodes);
      var m := First(S);
      assert m in NodeSet(ns.nodes);
      LessTotal(m, FirstNode(ns));
    }
  }

  /** Covers of two sets make a cover of their union. */
  lemma {:induction false} CoverUnion(a: seq<XNode>, A: set<XNode>, b: seq<XNode>, B: set<XNode>, nodes: seq<XNode>, mode: Mode)
    requires Covers(a, A, mode) && Covers(b, B, mode)
    requires forall x :: x in nodes <==> x in a || x in b
    ensures Covers(nodes, A + B, mode)
  {
    assert NodeSet(nodes) == NodeSet(a) + NodeSet(b);
    match mode
    case All =>
    case Any =>
      if a != [] { assert a[0] in nodes; }
      if b != [] { assert b[0] in nodes; }
    case FirstOnly =>
      if A + B != {} {
        var m := First(A + B);
        if m in A { FirstUnique(m, First(A), A); } else { FirstUnique(m, First(B), B); }
      }
  }
}
