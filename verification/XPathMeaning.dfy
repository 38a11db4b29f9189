/**
 What a query means (XPath 1.0, sections 2.4, 2.5 and 3.3): node sets are sets, a
 predicate of a step counts positions along the axis, one of a filter expression counts
 them in document order. There are no order flags, no lazy modes and no classification here.
 */
module XPathMeaning {
  import opened NodeOrder
  import opened XmlTree
  import opened XPathAst

  /** The value of a tree of scalar type. */
  ghost function Value(env: Env, e: Expr, c: Context): Scalar
    decreases e, 0
  {
    match e
    case Leaf(k) => LeafValue(env, k, c.position, c.size)
    case Unary(op, l) => UnaryValue(env, op, ValueOf(env, l, c))
    case Binary(op, l, r) => BinaryValue(env, op, ValueOf(env, l, c), ValueOf(env, r, c))
    case Call(t, f, args) => CallValue(env, t, f, c.n, Arguments(env, args, c))
    case Translate(s, from, to) =>
      StringV(TranslateText(ValueOf(env, s, c).asString, ValueOf(env, from, c).asString, ValueOf(env, to, c).asString))
    case TranslateTable(s, table) => StringV(TableText(ValueOf(env, s, c).asString, table))
    case CompareAttr(name, r) => BoolV(AttrEquals(env, c.n, name, ValueOf(env, r, c).asString))
    case _ => BoolV(false)
  }

  ghost function FirstOrNull(S: set<XNode>): XNode {
    if S == {} then Null else First(S)
  }

  ghost function Arguments(env: Env, args: Args, c: Context): seq<Scalar>
    decreases args, 0
  {
    match args
    case NoArg => []
    case Arg(asNumber, e, next) =>
      var a := ValueOf(env, e, c);
      [if asNumber then NumberV(a.asNumber) else StringV(a.asString)] + Arguments(env, next, c)
  }

  /** boolean(), number() and string(): a node set stands for its document-first node. */
  ghost function ValueOf(env: Env, e: Expr, c: Context): Operand
    decreases e, 1
  {
    if TypeOf(e) == NodeSetT then
      var S := Nodes(env, e, c);
      NodesOperand(env, S != {}, S, |S|, FirstOrNull(S))
    else ScalarOperand(env, TypeOf(e), Value(env, e, c))
  }

  ghost function LeafNodes(env: Env, k: LeafKind, x: XNode): set<XNode> {
    match k
    case VarNodes(v) => NodeSet(env.varNodes(v).nodes)
    case Root => if x == Null then {} else {Elem(0)}
    case _ => {}
  }

  /** The nodes a tree of node-set type stands for. */
  ghost function Nodes(env: Env, e: Expr, c: Context): set<XNode>
    decreases e, 0
  {
    match e
    case Leaf(k) => LeafNodes(env, k, c.n)
    case Union(l, r) => Nodes(env, l, c) + Nodes(env, r, c)
    case Filter(l, pred, _) => NodeSet(Selected(env, pred, InOrder(Nodes(env, l, c)), 0))
    case Step(left, axis, test, preds) =>
      if axis == Namespace then {}
      else
        set x, y | x in LeftNodes(env, left, c) && y in SelectedAll(env, preds, AxisNodes(env.doc, axis, test, x)) :: y
    case _ => {}
  }

  /** The context nodes of a step. */
  ghost function LeftNodes(env: Env, left: Left, c: Context): set<XNode>
    decreases left, 0
  {
    match left
    case FromContext => {c.n}
    case FromSet(e) => Nodes(env, e, c)
  }

  /** Whether node number i (from 0) of a list passes a predicate: a number selects a position. */
  ghost predicate Passes(env: Env, p: Expr, x: XNode, i: nat, size: nat)
    decreases p, 4
  {
    var v := ValueOf(env, p, Context(x, i + 1, size));
    if TypeOf(p) == NumberT then NumberEquals(v.asNumber, OfNat(i + 1)) else v.asBool
  }

  /** The nodes of a list, from index i on, that pass a predicate. */
  ghost function Selected(env: Env, p: Expr, seg: seq<XNode>, i: nat): seq<XNode>
    requires i <= |seg|
    decreases p, 5, |seg| - i
  {
    if i == |seg| then []
    else (if Passes(env, p, seg[i], i, |seg|) then [seg[i]] else []) + Selected(env, p, seg, i + 1)
  }

  /** The nodes of a list that pass a chain of predicates, each counting what the one before it left. */
  ghost function SelectedAll(env: Env, preds: Preds, seg: seq<XNode>): seq<XNode>
    decreases preds, 0
  {
    match preds
    case NoPred => seg
    case Pred(p, _, next) => SelectedAll(env, next, Selected(env, p, seg, 0))
  }
}
