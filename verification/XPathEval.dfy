/**
 The evaluator: what the library computes for a query tree, with its lazy modes, order
 flags, in-place predicate filtering and duplicate removal.
 */
module XPathEval {
  import opened NodeOrder
  import opened XmlTree
  import opened XPathAst

  /** nodeset_eval_t: the whole set, any one node if there is one, or enough to know the document-first node. */
  datatype Mode = All | Any | FirstOnly

  /** Whether one node is enough: any node will do, or the list is in document order. */
  predicate EvalOnce(order: OrderFlag, mode: Mode) {
    if order == Sorted then mode != All else mode == Any
  }

  // ---- order and duplicates

  /** xpath_get_order, on the adjacent pairs from i. */
  predicate AllAdjacent(s: seq<XNode>, i: nat, less: bool)
    decreases |s| - i
  {
    i + 1 >= |s| || (Less(s[i], s[i + 1]) == less && AllAdjacent(s, i + 1, less))
  }

  function GetOrder(s: seq<XNode>): OrderFlag {
    if |s| < 2 then Sorted
    else
      var first := Less(s[0], s[1]);
      if AllAdjacent(s, 1, first) then (if first then Sorted else SortedReverse) else Unsorted
  }

  /** Places x in an increasing list. */
  function InsertNode(x: XNode, s: seq<XNode>): seq<XNode> {
    if s == [] || Less(x, s[0]) then [x] + s else [s[0]] + InsertNode(x, s[1..])
  }

  function SortNodes(s: seq<XNode>): seq<XNode> {
    if s == [] then [] else InsertNode(s[0], SortNodes(s[1..]))
  }

  function Reverse(s: seq<XNode>): seq<XNode> {
    if s == [] then [] else Reverse(s[1..]) + [s[0]]
  }

  /** xpath_sort into document order: sorts only when the flag is unknown and the list is unordered. */
  function SortDo(ns: RawSet): RawSet {
    var order := if ns.order == Unsorted then GetOrder(ns.nodes) else ns.order;
    if order == Unsorted then RawSet(Sorted, SortNodes(ns.nodes))
    else if order == SortedReverse then RawSet(Sorted, Reverse(ns.nodes))
    else RawSet(Sorted, ns.nodes)
  }

  /** min_element by document order. */
  function MinNode(s: seq<XNode>): XNode
    requires s != []
  {
    if |s| == 1 then s[0]
    else
      var m := MinNode(s[1..]);
      if Less(m, s[0]) then m else s[0]
  }

  /** xpath_first. */
  function FirstNode(ns: RawSet): XNode {
    if ns.nodes == [] then Null
    else match ns.order
      case Sorted => ns.nodes[0]
      case SortedReverse => ns.nodes[|ns.nodes| - 1]
      case Unsorted => MinNode(ns.nodes)
  }

  // ---- evaluation

  /** The value of a tree of scalar type. */
  function Native(env: Env, e: Expr, c: Context): Scalar
    decreases e, 0
  {
    match e
    case Leaf(k) => LeafValue(env, k, c.position, c.size)
    case Unary(op, l) => UnaryValue(env, op, OperandOf(env, l, c))
    case Binary(op, l, r) => BinaryValue(env, op, OperandOf(env, l, c), OperandOf(env, r, c))
    case Call(t, f, args) => CallValue(env, t, f, c.n, ArgValues(env, args, c))
    case Translate(s, from, to) =>
      StringV(TranslateText(OperandOf(env, s, c).asString, OperandOf(env, from, c).asString, OperandOf(env, to, c).asString))
    case TranslateTable(s, table) => StringV(TableText(OperandOf(env, s, c).asString, table))
    case CompareAttr(name, r) => BoolV(AttrEquals(env, c.n, name, OperandOf(env, r, c).asString))
    case _ => BoolV(false)
  }

  function ArgValues(env: Env, args: Args, c: Context): seq<Scalar>
    decreases args, 0
  {
    match args
    case NoArg => []
    case Arg(asNumber, e, next) =>
      var a := OperandOf(env, e, c);
      [if asNumber then NumberV(a.asNumber) else StringV(a.asString)] + ArgValues(env, next, c)
  }

  /**
   eval_boolean, eval_number and eval_string together: a node set is evaluated in the mode
   that suffices for the conversion.
   */
  function OperandOf(env: Env, e: Expr, c: Context): Operand
    decreases e, 1
  {
    if TypeOf(e) == NodeSetT then
      var all := SetOf(env, e, c, All).nodes;
      NodesOperand(env, SetOf(env, e, c, Any).nodes != [], NodeSet(all), |all|, FirstNode(SetOf(env, e, c, FirstOnly)))
    else ScalarOperand(env, TypeOf(e), Native(env, e, c))
  }

  /** Node-set variables and the root. */
  function LeafSet(env: Env, k: LeafKind, x: XNode): RawSet {
    match k
    case VarNodes(v) => env.varNodes(v)
    case Root => RawSet(Sorted, if x == Null then [] else [Elem(0)])
    case _ => RawSet(Unsorted, [])
  }

  /** eval_node_set. */
  function SetOf(env: Env, e: Expr, c: Context, mode: Mode): RawSet
    decreases e, 0
  {
    match e
    case Leaf(k) => LeafSet(env, k, c.n)
    case Union(l, r) =>
      RawSet(Unsorted, KeepFirst(SetOf(env, l, c, mode).nodes + SetOf(env, r, c, mode).nodes))
    case Filter(l, pred, kind) =>
      var s := SetOf(env, l, c, if kind == ConstantOne then FirstOnly else All);
      var ns := if kind == PosInv then s else SortDo(s);
      RawSet(ns.order, ApplyPred(env, pred, kind, ns.nodes, EvalOnce(ns.order, mode)))
    case Step(left, axis, test, preds) =>
      if axis == Namespace then RawSet(Unsorted, [])
      else
        var axisOrder := if IsReverse(axis) then SortedReverse else Sorted;
        var once := StepOnce(axis, test, preds, mode);
        var ns :=
          match left
          case FromContext =>
            RawSet(axisOrder, StepFrom(env, axis, test, preds, c.n, once, EvalOnce(axisOrder, mode)))
          case FromSet(l) =>
            var s := SetOf(env, l, c, All);
            StepLoop(env, axis, test, preds, s.nodes, once, mode, RawSet(if axis == Self then s.order else axisOrder, []));
        if axis != Child && axis != Attribute && axis != Self && ns.order == Unsorted
        then RawSet(Unsorted, KeepFirst(ns.nodes))
        else ns
    case _ => RawSet(Unsorted, [])
  }

  /** The `once` flag of step_do. */
  predicate StepOnce(axis: Axis, test: NodeTest, preds: Preds, mode: Mode) {
    || (axis == Attribute && test.TestName?)
    || (preds.NoPred? && EvalOnce(if IsReverse(axis) then SortedReverse else Sorted, mode))
    || (preds.Pred? && preds.next.NoPred? && preds.kind == ConstantOne)
  }

  /** One context node of a step: step_fill, then the predicates on what it added. */
  function StepFrom(env: Env, axis: Axis, test: NodeTest, preds: Preds, x: XNode, once: bool, lastOnce: bool): seq<XNode>
    decreases preds, 1
  {
    var found := AxisNodes(env.doc, axis, test, x);
    ApplyPreds(env, preds, if once then Take1(found) else found, lastOnce)
  }

  /** The loop of step_do: once something has been found, a further context node leaves the order unknown. */
  function StepLoop(env: Env, axis: Axis, test: NodeTest, preds: Preds, sources: seq<XNode>, once: bool, mode: Mode, ns: RawSet): RawSet
    decreases preds, 2, |sources|
  {
    if sources == [] then ns
    else
      var order := if axis != Self && ns.nodes != [] then Unsorted else ns.order;
      var more := StepFrom(env, axis, test, preds, sources[0], once, EvalOnce(order, mode));
      StepLoop(env, axis, test, preds, sources[1..], once, mode, RawSet(order, ns.nodes + more))
  }

  /** apply_predicates: only the last predicate may stop at its first match. */
  function ApplyPreds(env: Env, preds: Preds, seg: seq<XNode>, lastOnce: bool): seq<XNode>
    decreases preds, 0
  {
    if seg == [] then []
    else match preds
      case NoPred => seg
      case Pred(p, kind, next) =>
        ApplyPreds(env, next, ApplyPred(env, p, kind, seg, next.NoPred? && lastOnce), lastOnce)
  }

  /** apply_predicate. */
  function ApplyPred(env: Env, p: Expr, kind: PredKind, seg: seq<XNode>, once: bool): seq<XNode>
    decreases p, 5
  {
    if seg == [] then []
    else if kind == Constant || kind == ConstantOne then PickConstant(seg, OperandOf(env, p, Context(Null, 1, |seg|)).asNumber)
    else
      var kept := KeepTrue(env, p, seg, 0);
      if once then Take1(kept) else kept
  }

  /** apply_predicate_number_const. */
  function PickConstant(seg: seq<XNode>, er: Number): seq<XNode> {
    if er.Fin? && 1.0 <= er.r <= |seg| as real && er.r == er.r.Floor as real then [seg[er.r.Floor - 1]] else []
  }

  /** apply_predicate_boolean and apply_predicate_number: the nodes from index i on that pass. */
  function KeepTrue(env: Env, p: Expr, seg: seq<XNode>, i: nat): seq<XNode>
    requires i <= |seg|
    decreases p, 4, |seg| - i
  {
    if i == |seg| then []
    else
      var c := Context(seg[i], i + 1, |seg|);
      var v := OperandOf(env, p, c);
      var passes := if TypeOf(p) == NumberT then NumberEquals(v.asNumber, OfNat(i + 1)) else v.asBool;
      (if passes then [seg[i]] else []) + KeepTrue(env, p, seg, i + 1)
  }
}
