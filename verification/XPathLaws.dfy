/**
 The laws of XPath 1.0 for what the evaluator computes: conversions (sections 4.2 to 4.4), operators (3.4 and 3.5),
 node tests (2.3) and predicates (2.4), each stated on query trees and node sets alone.
 */
module XPathLaws {
  import opened NodeOrder
  import opened XmlTree
  import opened XPathAst
  import opened XPathEval
  import opened XPathRefine
  import opened XPathLazy
  import M = XPathMeaning

  /** The nodes the evaluator finds for a tree of node-set type. */
  function Found(env: Env, e: Expr, c: Context): set<XNode> {
    NodeSet(SetOf(env, e, c, All).nodes)
  }

  function NumberOf(env: Env, x: XNode): Number {
    env.stringToNumber(env.stringValue(x))
  }

  function Bool(env: Env, e: Expr, c: Context): Scalar {
    Native(env, Unary(ToBool, e), c)
  }

  function Num(env: Env, e: Expr, c: Context): Scalar {
    Native(env, Unary(ToNumber, e), c)
  }

  function Str(env: Env, e: Expr, c: Context): Scalar {
    Native(env, Unary(ToText, e), c)
  }

  // ---- types and leaves

  /** Every scalar tree yields a value of the type the parser gives it; operators of sections 3.4 and 3.5 yield booleans and numbers. */
  lemma TypesMatch(env: Env, e: Expr, c: Context)
    requires TypeOf(e) != NodeSetT
    ensures TypeOf(e) == BoolT <==> Native(env, e, c).BoolV?
    ensures TypeOf(e) == NumberT <==> Native(env, e, c).NumberV?
    ensures TypeOf(e) == StringT <==> Native(env, e, c).StringV?
  {
    hide TranslateText, TableText, CompareEq, CompareRel, ScalarBool, ScalarNumber, ScalarString, AttrEquals;
  }

  lemma LeavesMean(env: Env, c: Context, n: Number, s: string, v: nat)
    ensures Native(env, Leaf(NumberConst(n)), c) == NumberV(n) && Native(env, Leaf(StringConst(s)), c) == StringV(s)
    ensures Native(env, Leaf(Position), c) == NumberV(Fin(c.position as real)) && Native(env, Leaf(Last), c) == NumberV(Fin(c.size as real))
    ensures Native(env, Leaf(VarNumber(v)), c) == NumberV(env.varNumber(v)) && Native(env, Leaf(VarString(v)), c) == StringV(env.varString(v))
    ensures Native(env, Leaf(VarBool(v)), c) == BoolV(env.varBool(v)) && Found(env, Leaf(VarNodes(v)), c) == NodeSet(env.varNodes(v).nodes)
    ensures c.n != Null ==> Found(env, Leaf(Root), c) == {Elem(0)}
  {
  }

  // ---- conversions

  lemma {:induction false} SelectedIn(env: Env, p: Expr, seg: seq<XNode>, i: nat, x: XNode)
    requires i <= |seg|
    ensures x in M.Selected(env, p, seg, i) ==> x in seg
    decreases |seg| - i
  {
    hide M.Passes;
    if i < |seg| { SelectedIn(env, p, seg, i + 1, x); }
  }

  lemma {:induction false} SelectedAllIn(env: Env, preds: Preds, seg: seq<XNode>, x: XNode)
    ensures x in M.SelectedAll(env, preds, seg) ==> x in seg
    decreases preds
  {
    match preds
    case NoPred =>
    case Pred(p, _, next) =>
      SelectedAllIn(env, next, M.Selected(env, p, seg, 0), x);
      SelectedIn(env, p, seg, 0, x);
  }

  lemma AxisNotNull(d: Doc, axis: Axis, test: NodeTest, x: XNode)
    ensures Null !in AxisNodes(d, axis, test, x)
  {
    if axis == Attribute {
      if Null in AxisNodes(d, axis, test, x) { AttributesOf(d, test, x, Null); }
    } else {
      AxisNodesMembers(d, axis, test, x, Null);
    }
    hide AxisNodes;
  }

  lemma {:induction false} NeverNull(env: Env, e: Expr, c: Context)
    requires ValidEnv(env)
    ensures Null !in M.Nodes(env, e, c)
    decreases e
  {
    match e
    case Union(l, r) => NeverNull(env, l, c); NeverNull(env, r, c);
    case Filter(l, p, _) =>
      NeverNull(env, l, c);
      SelectedIn(env, p, InOrder(M.Nodes(env, l, c)), 0, Null);
    case Step(left, axis, test, preds) =>
      forall x ensures Null !in M.SelectedAll(env, preds, AxisNodes(env.doc, axis, test, x)) {
        AxisNotNull(env.doc, axis, test, x);
        SelectedAllIn(env, preds, AxisNodes(env.doc, axis, test, x), Null);
      }
    case _ =>
  }

  lemma FoundIs(env: Env, e: Expr, c: Context)
    requires ValidEnv(env) && Classified(e)
    ensures Found(env, e, c) == M.Nodes(env, e, c)
  {
    LazyExact(env, e, c);
    assert Represents(SetOf(env, e, c, All), M.Nodes(env, e, c), All);
  }

  /** boolean(), not(), count(), sum(), and string() and number() of a node set. */
  lemma NodeSetConverts(env: Env, e: Expr, c: Context, x: XNode)
    requires ValidEnv(env) && Classified(e) && TypeOf(e) == NodeSetT
    ensures Bool(env, e, c) == BoolV(Found(env, e, c) != {}) && Native(env, Unary(Not, e), c) == BoolV(Found(env, e, c) == {})
    ensures Native(env, Unary(Count, e), c) == NumberV(Fin(|Found(env, e, c)| as real))
    ensures Native(env, Unary(Sum, e), c) == NumberV(env.sum(Found(env, e, c)))
    ensures Found(env, e, c) == {} ==> Str(env, e, c) == StringV("") && Num(env, e, c) == NumberV(env.stringToNumber(""))
    ensures IsFirst(x, Found(env, e, c)) ==> Str(env, e, c) == StringV(env.stringValue(x)) && Num(env, e, c) == NumberV(NumberOf(env, x))
  {
    SetOperand(env, e, c, x);
    hide SetOf, OperandOf, ValidEnv, Classified, Found, Native, IsFirst;
    UnaryIs(env, ToBool, e, c);
    UnaryIs(env, Not, e, c);
    UnaryIs(env, Count, e, c);
    UnaryIs(env, Sum, e, c);
    UnaryIs(env, ToText, e, c);
    UnaryIs(env, ToNumber, e, c);
  }

  /** local-name(), namespace-uri() and name() look at the document-first node. */
  lemma NodeSetNamed(env: Env, e: Expr, c: Context, x: XNode, op: UnaryOp)
    requires ValidEnv(env) && Classified(e) && TypeOf(e) == NodeSetT && IsFirst(x, Found(env, e, c))
    requires op == LocalName || op == NamespaceUri || op == QName
    ensures Native(env, Unary(op, e), c) == StringV(env.nodeName(op, x))
  {
    SetOperand(env, e, c, x);
    hide SetOf, OperandOf, ValidEnv, Classified, Found, Native, IsFirst;
    UnaryIs(env, op, e, c);
  }

  lemma SetOperand(env: Env, e: Expr, c: Context, x: XNode)
    requires ValidEnv(env) && Classified(e) && TypeOf(e) == NodeSetT
    ensures var o, S := OperandOf(env, e, c), Found(env, e, c);
            && o.t == NodeSetT && (o.asBool <==> S != {}) && o.nodes == S && o.count == |S|
            && (S == {} ==> o.asString == "" && o.asNumber == env.stringToNumber(""))
            && (IsFirst(x, S) ==> o.first == x && o.asString == env.stringValue(x) && o.asNumber == NumberOf(env, x))
  {
    var all, S := SetOf(env, e, c, All).nodes, Found(env, e, c);
    LazyModes(env, e, c);
    DistinctSize(all);
    EmptySet(all);
    NeverNull(env, e, c);
    FoundIs(env, e, c);
    LastResort(env, e, c);
    hide SetOf, ValidEnv, Classified, Distinct;
    if IsFirst(x, S) { FirstUnique(x, FirstNode(SetOf(env, e, c, FirstOnly)), S); }
  }

  /** Without nodes there is no first one. */
  lemma LastResort(env: Env, e: Expr, c: Context)
    requires ValidEnv(env) && Classified(e)
    ensures SetOf(env, e, c, All).nodes == [] ==> FirstNode(SetOf(env, e, c, FirstOnly)) == Null
  {
    LazyModes(env, e, c);
  }

  lemma EmptySet(s: seq<XNode>)
    ensures NodeSet(s) == {} <==> s == []
  {
    if s != [] { assert s[0] in NodeSet(s); }
  }

  /** boolean(), number() and string() of a boolean, a number and a string. */
  lemma ScalarConverts(env: Env, e: Expr, c: Context)
    requires TypeOf(e) != NodeSetT
    ensures Native(env, e, c) == BoolV(true) ==>
              Bool(env, e, c) == BoolV(true) && Num(env, e, c) == NumberV(Fin(1.0)) && Str(env, e, c) == StringV("true")
    ensures Native(env, e, c) == BoolV(false) ==>
              Bool(env, e, c) == BoolV(false) && Num(env, e, c) == NumberV(Fin(0.0)) && Str(env, e, c) == StringV("false")
    ensures forall n :: Native(env, e, c) == NumberV(n) ==>
              Bool(env, e, c) == BoolV(env.numberToBool(n)) && Num(env, e, c) == NumberV(n) && Str(env, e, c) == StringV(env.numberToString(n))
    ensures forall s :: Native(env, e, c) == StringV(s) ==>
              Bool(env, e, c) == BoolV(s != "") && Num(env, e, c) == NumberV(env.stringToNumber(s)) && Str(env, e, c) == StringV(s)
  {
    ScalarUnary(env, e, c);
    hide Native, Bool, Num, Str;
  }

  lemma ScalarUnary(env: Env, e: Expr, c: Context)
    requires TypeOf(e) != NodeSetT
    ensures var v := Native(env, e, c);
            && Bool(env, e, c) == BoolV(ScalarBool(env, v)) && Num(env, e, c) == NumberV(ScalarNumber(env, v))
            && Str(env, e, c) == StringV(ScalarString(env, v))
  {
    OperandConverts(env, e, c);
    hide Bool, Num, Str;
    ScalarIs(env, e, c);
    hide Native, OperandOf, ScalarBool, ScalarNumber, ScalarString;
  }

  lemma OperandConverts(env: Env, e: Expr, c: Context)
    ensures var o := OperandOf(env, e, c);
            Bool(env, e, c) == BoolV(o.asBool) && Num(env, e, c) == NumberV(o.asNumber) && Str(env, e, c) == StringV(o.asString)
  {
    UnaryIs(env, ToBool, e, c);
    UnaryIs(env, ToNumber, e, c);
    UnaryIs(env, ToText, e, c);
    hide Native, OperandOf;
  }

  lemma UnaryIs(env: Env, op: UnaryOp, e: Expr, c: Context)
    ensures Native(env, Unary(op, e), c) == UnaryValue(env, op, OperandOf(env, e, c))
  {
  }

  lemma ScalarIs(env: Env, e: Expr, c: Context)
    requires TypeOf(e) != NodeSetT
    ensures OperandOf(env, e, c) == ScalarOperand(env, TypeOf(e), Native(env, e, c))
  {
    hide Native;
  }

  /** A tree with its conversions by name: what boolean(), number() and string() make of it. */
  ghost predicate Converts(env: Env, e: Expr, c: Context, b: bool, n: Number, s: string) {
    Bool(env, e, c) == BoolV(b) && Num(env, e, c) == NumberV(n) && Str(env, e, c) == StringV(s)
  }

  lemma OperandIs(env: Env, e: Expr, c: Context, b: bool, n: Number, s: string)
    requires Converts(env, e, c, b, n, s)
    ensures var o := OperandOf(env, e, c);
            && o.t == TypeOf(e) && o.asBool == b && o.asNumber == n && o.asString == s
            && (TypeOf(e) == NodeSetT ==> o.nodes == Found(env, e, c))
  {
  }

  // ---- the operators

  /** not(), `and`, `or` and unary minus. */
  lemma Connectives(env: Env, l: Expr, r: Expr, c: Context, a: bool, b: bool, n: Number)
    requires Bool(env, l, c) == BoolV(a) && Bool(env, r, c) == BoolV(b)
    ensures Native(env, Binary(And, l, r), c) == BoolV(true) <==> a && b
    ensures Native(env, Binary(And, l, r), c) == BoolV(false) <==> !a || !b
    ensures Native(env, Binary(Or, l, r), c) == BoolV(true) <==> a || b
    ensures Native(env, Binary(Or, l, r), c) == BoolV(false) <==> !a && !b
    ensures Native(env, Unary(Not, l), c) == BoolV(!a)
    ensures Num(env, l, c) == NumberV(n) ==> Native(env, Unary(Negate, l), c) == NumberV(env.negate(n))
  {
    hide OperandOf, CompareEq, CompareRel;
  }

  /** +, -, *, div and mod apply to the numbers of both operands. */
  lemma ArithmeticLaws(env: Env, op: BinaryOp, l: Expr, r: Expr, c: Context, m: Number, n: Number)
    requires op == Add || op == Subtract || op == Multiply || op == Divide || op == Mod
    requires Num(env, l, c) == NumberV(m) && Num(env, r, c) == NumberV(n)
    ensures Native(env, Binary(op, l, r), c) == NumberV(env.arith(op, m, n))
  {
    hide OperandOf, CompareEq, CompareRel;
  }

  /** The value of l op r, for each of the four orderings, if comparing l to r gives lt and le, and r to l gives gt and ge. */
  ghost predicate Ordered(env: Env, l: Expr, r: Expr, c: Context, lt: bool, le: bool, gt: bool, ge: bool) {
    && Native(env, Binary(LessThan, l, r), c) == BoolV(lt) && Native(env, Binary(LessOrEqual, l, r), c) == BoolV(le)
    && Native(env, Binary(GreaterThan, l, r), c) == BoolV(gt) && Native(env, Binary(GreaterOrEqual, l, r), c) == BoolV(ge)
  }

  /** Between scalars the numbers are compared; > and >= ask for less with the operands exchanged. */
  lemma ScalarsOrdered(env: Env, l: Expr, r: Expr, c: Context, m: Number, n: Number)
    requires TypeOf(l) != NodeSetT && TypeOf(r) != NodeSetT && Num(env, l, c) == NumberV(m) && Num(env, r, c) == NumberV(n)
    ensures Ordered(env, l, r, c, env.less(false, m, n), env.less(true, m, n), env.less(false, n, m), env.less(true, n, m))
  {
    hide CompareEq, Native, SetOf;
    OperandNumber(env, l, c, m);
    OperandNumber(env, r, c, n);
    RelationalIs(env, l, r, c);
  }

  lemma OperandNumber(env: Env, e: Expr, c: Context, n: Number)
    requires Num(env, e, c) == NumberV(n)
    ensures OperandOf(env, e, c).asNumber == n && OperandOf(env, e, c).t == TypeOf(e)
    ensures TypeOf(e) == NodeSetT ==> OperandOf(env, e, c).nodes == Found(env, e, c)
  {
  }

  lemma OperandNodes(env: Env, e: Expr, c: Context)
    requires TypeOf(e) == NodeSetT
    ensures OperandOf(env, e, c).nodes == Found(env, e, c) && OperandOf(env, e, c).t == NodeSetT
  {
  }

  lemma RelationalIs(env: Env, l: Expr, r: Expr, c: Context)
    ensures var x, y := OperandOf(env, l, c), OperandOf(env, r, c);
            Ordered(env, l, r, c, CompareRel(env, false, x, y), CompareRel(env, true, x, y), CompareRel(env, false, y, x), CompareRel(env, true, y, x))
  {
    hide CompareRel, CompareEq, OperandOf;
  }

  /** Between node sets some pair of nodes has to compare. */
  lemma NodeSetsOrdered(env: Env, l: Expr, r: Expr, c: Context)
    requires TypeOf(l) == NodeSetT && TypeOf(r) == NodeSetT
    ensures Ordered(env, l, r, c,
              exists x, y :: x in Found(env, l, c) && y in Found(env, r, c) && env.less(false, NumberOf(env, x), NumberOf(env, y)),
              exists x, y :: x in Found(env, l, c) && y in Found(env, r, c) && env.less(true, NumberOf(env, x), NumberOf(env, y)),
              exists x, y :: x in Found(env, l, c) && y in Found(env, r, c) && env.less(false, NumberOf(env, y), NumberOf(env, x)),
              exists x, y :: x in Found(env, l, c) && y in Found(env, r, c) && env.less(true, NumberOf(env, y), NumberOf(env, x)))
  {
    hide CompareEq, CompareRel, Native, SetOf, Found, OperandOf, Ordered, NumberOf;
    OperandNodes(env, l, c);
    OperandNodes(env, r, c);
    RelationalIs(env, l, r, c);
    SetsCompare(env, false, OperandOf(env, l, c), OperandOf(env, r, c));
    SetsCompare(env, true, OperandOf(env, l, c), OperandOf(env, r, c));
  }

  lemma SetsCompare(env: Env, orEqual: bool, l: Operand, r: Operand)
    requires l.t == NodeSetT && r.t == NodeSetT
    ensures CompareRel(env, orEqual, l, r) <==> exists x, y :: x in l.nodes && y in r.nodes && env.less(orEqual, NumberOf(env, x), NumberOf(env, y))
    ensures CompareRel(env, orEqual, r, l) <==> exists x, y :: x in l.nodes && y in r.nodes && env.less(orEqual, NumberOf(env, y), NumberOf(env, x))
  {
    if x, y :| x in l.nodes && y in r.nodes && env.less(orEqual, NumberOf(env, y), NumberOf(env, x)) {
      assert env.less(orEqual, env.stringToNumber(env.stringValue(y)), env.stringToNumber(env.stringValue(x)));
    }
  }

  /** Between a node set and a scalar some node has to compare with the scalar's number, on either side. */
  lemma MixedOrdered(env: Env, l: Expr, r: Expr, c: Context, n: Number)
    requires TypeOf(l) == NodeSetT && TypeOf(r) != NodeSetT && Num(env, r, c) == NumberV(n)
    ensures Ordered(env, l, r, c,
              exists x :: x in Found(env, l, c) && env.less(false, NumberOf(env, x), n),
              exists x :: x in Found(env, l, c) && env.less(true, NumberOf(env, x), n),
              exists x :: x in Found(env, l, c) && env.less(false, n, NumberOf(env, x)),
              exists x :: x in Found(env, l, c) && env.less(true, n, NumberOf(env, x)))
    ensures Ordered(env, r, l, c,
              exists x :: x in Found(env, l, c) && env.less(false, n, NumberOf(env, x)),
              exists x :: x in Found(env, l, c) && env.less(true, n, NumberOf(env, x)),
              exists x :: x in Found(env, l, c) && env.less(false, NumberOf(env, x), n),
              exists x :: x in Found(env, l, c) && env.less(true, NumberOf(env, x), n))
  {
    hide CompareEq, Native, SetOf, Found, OperandOf, Ordered;
    OperandNodes(env, l, c);
    OperandNumber(env, r, c, n);
    RelationalIs(env, l, r, c);
    RelationalIs(env, r, l, c);
  }

  lemma EqualityIs(env: Env, l: Expr, r: Expr, c: Context)
    ensures var x, y := OperandOf(env, l, c), OperandOf(env, r, c);
            Equated(env, l, r, c, CompareEq(env, true, x, y), CompareEq(env, false, x, y))
  {
    hide CompareRel, CompareEq, OperandOf;
  }

  /** The values of l = r and l != r. */
  ghost predicate Equated(env: Env, l: Expr, r: Expr, c: Context, eq: bool, ne: bool) {
    Native(env, Binary(Equal, l, r), c) == BoolV(eq) && Native(env, Binary(NotEqual, l, r), c) == BoolV(ne)
  }

  /** Scalars: as booleans if one is a boolean, else as numbers if one is a number, else as strings; != is the opposite of =. */
  lemma ScalarsEqual(env: Env, l: Expr, r: Expr, c: Context, a: bool, m: Number, s: string, b: bool, n: Number, t: string)
    requires TypeOf(l) != NodeSetT && TypeOf(r) != NodeSetT && Converts(env, l, c, a, m, s) && Converts(env, r, c, b, n, t)
    ensures var eq := if TypeOf(l) == BoolT || TypeOf(r) == BoolT then a == b
                      else if TypeOf(l) == NumberT || TypeOf(r) == NumberT then m == n && m != NaN
                      else s == t;
            Equated(env, l, r, c, eq, !eq)
  {
    OperandIs(env, l, c, a, m, s);
    OperandIs(env, r, c, b, n, t);
    hide Native, OperandOf, Converts, Equated, SetOf, Found;
    EqualityIs(env, l, r, c);
  }

  /** Node sets: some pair of nodes with equal, or different, string values. Both can hold, and neither. */
  lemma NodeSetsEqual(env: Env, l: Expr, r: Expr, c: Context)
    requires TypeOf(l) == NodeSetT && TypeOf(r) == NodeSetT
    ensures Equated(env, l, r, c,
              exists x, y :: x in Found(env, l, c) && y in Found(env, r, c) && env.stringValue(x) == env.stringValue(y),
              exists x, y :: x in Found(env, l, c) && y in Found(env, r, c) && env.stringValue(x) != env.stringValue(y))
  {
    hide Native, OperandOf, Equated, SetOf, Found;
    OperandNodes(env, l, c);
    OperandNodes(env, r, c);
    EqualityIs(env, l, r, c);
    SetsEqual(env, true, OperandOf(env, l, c), OperandOf(env, r, c));
    SetsEqual(env, false, OperandOf(env, l, c), OperandOf(env, r, c));
    hide CompareEq;
  }

  lemma SetsEqual(env: Env, equal: bool, l: Operand, r: Operand)
    requires l.t == NodeSetT && r.t == NodeSetT
    ensures CompareEq(env, equal, l, r) <==>
              exists x, y :: x in l.nodes && y in r.nodes && (env.stringValue(x) == env.stringValue(y)) == equal
  {
  }

  /** A node set and a scalar, on either side: with a boolean the set's boolean counts, otherwise some node has to compare. */
  lemma MixedEqual(env: Env, l: Expr, r: Expr, c: Context, a: bool, b: bool, n: Number, t: string)
    requires TypeOf(l) == NodeSetT && TypeOf(r) != NodeSetT && Bool(env, l, c) == BoolV(a) && Converts(env, r, c, b, n, t)
    ensures var S := Found(env, l, c);
            var eq := if TypeOf(r) == BoolT then a == b
                      else if TypeOf(r) == NumberT then exists x :: x in S && NumberOf(env, x) == n && n != NaN
                      else exists x :: x in S && env.stringValue(x) == t;
            var ne := if TypeOf(r) == BoolT then a != b
                      else if TypeOf(r) == NumberT then exists x :: x in S && !(NumberOf(env, x) == n && n != NaN)
                      else exists x :: x in S && env.stringValue(x) != t;
            Equated(env, l, r, c, eq, ne) && Equated(env, r, l, c, eq, ne)
  {
    OperandBool(env, l, c, a);
    OperandIs(env, r, c, b, n, t);
    hide Native, OperandOf, Converts, Equated, SetOf, Found, Bool;
    OperandNodes(env, l, c);
    EqualityIs(env, l, r, c);
    EqualityIs(env, r, l, c);
    MixedCompare(env, true, OperandOf(env, l, c), OperandOf(env, r, c));
    MixedCompare(env, false, OperandOf(env, l, c), OperandOf(env, r, c));
    hide CompareEq;
  }

  lemma OperandBool(env: Env, e: Expr, c: Context, b: bool)
    requires Bool(env, e, c) == BoolV(b)
    ensures OperandOf(env, e, c).asBool == b
  {
  }

  lemma MixedCompare(env: Env, equal: bool, l: Operand, r: Operand)
    requires l.t == NodeSetT && r.t != NodeSetT
    ensures CompareEq(env, equal, l, r) == CompareEq(env, equal, r, l)
    ensures CompareEq(env, equal, l, r) <==>
              if r.t == BoolT then (l.asBool == r.asBool) == equal
              else if r.t == NumberT then exists x :: x in l.nodes && (NumberOf(env, x) == r.asNumber && r.asNumber != NaN) == equal
              else exists x :: x in l.nodes && (env.stringValue(x) == r.asString) == equal
  {
    if r.t == NumberT {
      if x :| x in l.nodes && (NumberOf(env, x) == r.asNumber && r.asNumber != NaN) == equal {
        assert NumberEquals(r.asNumber, env.stringToNumber(env.stringValue(x))) == equal;
      }
    }
  }

  /** For all operands: > is < with the operands exchanged, and >= is <= exchanged. */
  lemma Mirrored(env: Env, l: Expr, r: Expr, c: Context)
    ensures Native(env, Binary(GreaterThan, l, r), c) == Native(env, Binary(LessThan, r, l), c)
    ensures Native(env, Binary(GreaterOrEqual, l, r), c) == Native(env, Binary(LessOrEqual, r, l), c)
  {
    hide CompareRel, OperandOf;
  }

  /** Two number literals. */
  lemma ConstantsOrdered(env: Env, c: Context, m: Number, n: Number)
    ensures Ordered(env, Leaf(NumberConst(m)), Leaf(NumberConst(n)), c, env.less(false, m, n), env.less(true, m, n), env.less(false, n, m), env.less(true, n, m))
    ensures Equated(env, Leaf(NumberConst(m)), Leaf(NumberConst(n)), c, m == n && m != NaN, !(m == n && m != NaN))
  {
    var l, r := Leaf(NumberConst(m)), Leaf(NumberConst(n));
    assert Native(env, l, c) == NumberV(m) && Native(env, r, c) == NumberV(n);
    ScalarConverts(env, l, c);
    ScalarConverts(env, r, c);
    hide Native, Equated, Ordered, Bool, Num, Str;
    ScalarsOrdered(env, l, r, c, m, n);
    ScalarsEqual(env, l, r, c, env.numberToBool(m), m, env.numberToString(m), env.numberToBool(n), n, env.numberToString(n));
  }

  /** Every tree has all three conversions. */
  lemma AlwaysConverts(env: Env, e: Expr, c: Context) returns (b: bool, n: Number, s: string)
    ensures Converts(env, e, c, b, n, s)
  {
    var o := OperandOf(env, e, c);
    b, n, s := o.asBool, o.asNumber, o.asString;
    OperandConverts(env, e, c);
  }

  // ---- laziness

  lemma {:induction false} LastStops(env: Env, preds: Preds, seg: seq<XNode>)
    requires preds.NoPred? ==> |seg| <= 1
    ensures |ApplyPreds(env, preds, seg, true)| <= 1
    decreases preds
  {
    hide KeepTrue, PickConstant;
    if seg != [] && preds.Pred? {
      if preds.next.NoPred? { StopsAtOne(env, preds.expr, preds.kind, seg); }
      LastStops(env, preds.next, ApplyPred(env, preds.expr, preds.kind, seg, preds.next.NoPred?));
    }
  }

  lemma StopsAtOne(env: Env, p: Expr, kind: PredKind, seg: seq<XNode>)
    ensures |ApplyPred(env, p, kind, seg, true)| <= 1
  {
    hide KeepTrue;
  }

  /** Where one node is enough, a step from the context node stops at the first that passes, and so does a filter. */
  lemma LazyStops(env: Env, axis: Axis, test: NodeTest, preds: Preds, e: Expr, p: Expr, kind: PredKind, c: Context)
    ensures |SetOf(env, Step(FromContext, axis, test, preds), c, Any).nodes| <= 1
    ensures !IsReverse(axis) ==> |SetOf(env, Step(FromContext, axis, test, preds), c, FirstOnly).nodes| <= 1
    ensures |SetOf(env, Filter(e, p, kind), c, Any).nodes| <= 1
    ensures kind != PosInv ==> |SetOf(env, Filter(e, p, kind), c, FirstOnly).nodes| <= 1
  {
    StepStops(env, axis, test, preds, c, Any);
    if !IsReverse(axis) { StepStops(env, axis, test, preds, c, FirstOnly); }
    FilterStops(env, e, p, kind, c);
    hide SetOf;
  }

  lemma StepStops(env: Env, axis: Axis, test: NodeTest, preds: Preds, c: Context, mode: Mode)
    requires mode == Any || (mode == FirstOnly && !IsReverse(axis))
    ensures |SetOf(env, Step(FromContext, axis, test, preds), c, mode).nodes| <= 1
  {
    var found := AxisNodes(env.doc, axis, test, c.n);
    var once := StepOnce(axis, test, preds, mode);
    LastStops(env, preds, if once then Take1(found) else found);
    hide ApplyPreds, AxisNodes, KeepFirst;
  }

  lemma FilterStops(env: Env, e: Expr, p: Expr, kind: PredKind, c: Context)
    ensures |SetOf(env, Filter(e, p, kind), c, Any).nodes| <= 1
    ensures kind != PosInv ==> |SetOf(env, Filter(e, p, kind), c, FirstOnly).nodes| <= 1
  {
    forall seg ensures |ApplyPred(env, p, kind, seg, true)| <= 1 { StopsAtOne(env, p, kind, seg); }
    hide ApplyPred;
  }

  // ---- a comparison that departs from section 3.4

  /** The order of the numbers that booleans become. */
  predicate OrdersBooleans(env: Env) {
    && env.less(false, Fin(0.0), Fin(1.0)) && !env.less(false, Fin(1.0), Fin(0.0))
    && !env.less(false, Fin(0.0), Fin(0.0)) && !env.less(false, Fin(1.0), Fin(1.0))
    && env.less(true, Fin(0.0), Fin(1.0)) && !env.less(true, Fin(1.0), Fin(0.0))
    && env.less(true, Fin(0.0), Fin(0.0)) && env.less(true, Fin(1.0), Fin(1.0))
  }

  /** Whether comparing a node set is comparing its boolean. */
  ghost predicate AsBoolean(env: Env, op: BinaryOp, l: Expr, r: Expr, c: Context) {
    Native(env, Binary(op, l, r), c) == Native(env, Binary(op, Unary(ToBool, l), r), c)
  }

  /**
   Section 3.4 compares a node set with a boolean through boolean(). For the orderings the evaluator compares the numbers
   of the nodes instead, and these are the cases in which that comes to the same. So a set of one node with the number 0
   is less than true(), which it should not be, and an empty set is not, which it should. Exchanged operands are covered
   by Mirrored.
   */
  lemma OrderingIgnoresBoolean(env: Env, l: Expr, r: Expr, c: Context, b: bool)
    requires ValidEnv(env) && Classified(l) && OrdersBooleans(env)
    requires TypeOf(l) == NodeSetT && TypeOf(r) == BoolT && Native(env, r, c) == BoolV(b)
    ensures var n := if b then Fin(1.0) else Fin(0.0); var S := Found(env, l, c);
            && (AsBoolean(env, LessThan, l, r, c) <==> (b ==> S != {}) && !exists x :: x in S && env.less(false, NumberOf(env, x), n))
            && (AsBoolean(env, LessOrEqual, l, r, c) <==>
                  if b then exists x :: x in S && env.less(true, NumberOf(env, x), n)
                  else S != {} && !exists x :: x in S && env.less(true, NumberOf(env, x), n))
            && (AsBoolean(env, GreaterThan, l, r, c) <==>
                  if b then !exists x :: x in S && env.less(false, n, NumberOf(env, x))
                  else S == {} || exists x :: x in S && env.less(false, n, NumberOf(env, x)))
            && (AsBoolean(env, GreaterOrEqual, l, r, c) <==>
                  if b then S == {} || exists x :: x in S && env.less(true, n, NumberOf(env, x))
                  else exists x :: x in S && env.less(true, n, NumberOf(env, x)))
  {
    BothWays(env, l, r, c, b);
    hide AsBoolean, Native, Found, NumberOf, ValidEnv, Classified;
  }

  lemma BothWays(env: Env, l: Expr, r: Expr, c: Context, b: bool)
    requires ValidEnv(env) && Classified(l) && TypeOf(l) == NodeSetT && TypeOf(r) == BoolT && Native(env, r, c) == BoolV(b)
    ensures var S := Found(env, l, c); var n := if b then Fin(1.0) else Fin(0.0); var m := if S != {} then Fin(1.0) else Fin(0.0);
            && (AsBoolean(env, LessThan, l, r, c) <==> (exists x :: x in S && env.less(false, NumberOf(env, x), n)) == env.less(false, m, n))
            && (AsBoolean(env, LessOrEqual, l, r, c) <==> (exists x :: x in S && env.less(true, NumberOf(env, x), n)) == env.less(true, m, n))
            && (AsBoolean(env, GreaterThan, l, r, c) <==> (exists x :: x in S && env.less(false, n, NumberOf(env, x))) == env.less(false, n, m))
            && (AsBoolean(env, GreaterOrEqual, l, r, c) <==> (exists x :: x in S && env.less(true, n, NumberOf(env, x))) == env.less(true, n, m))
  {
    var n := if b then Fin(1.0) else Fin(0.0);
    var m := if Found(env, l, c) != {} then Fin(1.0) else Fin(0.0);
    hide Native, Found, NumberOf, ValidEnv, Classified, Num;
    BooleansAsNumbers(env, l, r, c, b);
    MixedOrdered(env, l, r, c, n);
    ScalarsOrdered(env, Unary(ToBool, l), r, c, m, n);
  }

  lemma BooleansAsNumbers(env: Env, l: Expr, r: Expr, c: Context, b: bool)
    requires ValidEnv(env) && Classified(l) && TypeOf(l) == NodeSetT && TypeOf(r) == BoolT && Native(env, r, c) == BoolV(b)
    ensures Num(env, r, c) == NumberV(if b then Fin(1.0) else Fin(0.0))
    ensures Num(env, Unary(ToBool, l), c) == NumberV(if Found(env, l, c) != {} then Fin(1.0) else Fin(0.0))
  {
    NodeSetConverts(env, l, c, Null);
    ScalarConverts(env, r, c);
    ScalarConverts(env, Unary(ToBool, l), c);
    hide Native, Found, NumberOf, ValidEnv, Classified;
  }

  // ---- function calls

  /** Arguments are passed in order, converted to numbers or strings as the function wants them, with the context node. */
  lemma CallsConvert(env: Env, t: Type, fn: nat, asNumber: bool, e: Expr, next: Args, c: Context, b: bool, n: Number, s: string)
    requires Converts(env, e, c, b, n, s)
    ensures ArgValues(env, Arg(asNumber, e, next), c) == [if asNumber then NumberV(n) else StringV(s)] + ArgValues(env, next, c)
    ensures var args := Arg(asNumber, e, next); var v := env.call(fn, c.n, ArgValues(env, args, c));
            && (t == NumberT && v.NumberV? ==> Native(env, Call(t, fn, args), c) == v)
            && (t == StringT && v.StringV? ==> Native(env, Call(t, fn, args), c) == v)
            && (t == BoolT && v.BoolV? ==> Native(env, Call(t, fn, args), c) == v)
  {
    OperandIs(env, e, c, b, n, s);
    hide OperandOf, Converts;
  }

  // ---- translate()

  /** Each character by itself. */
  lemma {:induction false} TranslateParts(s: string, t: string, from: string, to: string)
    ensures TranslateText(s + t, from, to) == TranslateText(s, from, to) + TranslateText(t, from, to)
  {
    if s == "" {
      assert s + t == t;
    } else {
      assert (s + t)[1..] == s[1..] + t;
      TranslateParts(s[1..], t, from, to);
    }
  }

  /** A character is kept, replaced by the one at the place where it first occurs, or removed if there is none. */
  lemma TranslateOne(c: char, from: string, to: string, k: nat)
    ensures c !in from ==> TranslateText([c], from, to) == [c]
    ensures k < |from| && from[k] == c && c !in from[..k] ==> TranslateText([c], from, to) == if k < |to| then [to[k]] else []
  {
    assert [c][1..] == "";
    var j := FindChar(from, c);
    if k < |from| && from[k] == c && c !in from[..k] {
      assert c in from;
      assert forall m :: 0 <= m < k ==> from[..k][m] == from[m];
      assert forall m :: 0 <= m < j ==> from[..j][m] == from[m];
    }
  }

  lemma TranslateTwice(from: string, to: string, c: char, k: nat)
    requires k < |from| && from[k] == c && c !in from[..k]
    ensures TranslateText([c, c], from, to) == if k < |to| then [to[k], to[k]] else []
  {
    TranslateOne(c, from, to, k);
    TranslateParts([c], [c], from, to);
    assert [c] + [c] == [c, c];
  }

  /** The examples of section 4.2. */
  lemma TranslateExamples()
    ensures TranslateText("bar", "abc", "ABC") == "BAr" && TranslateText("--aaa--", "abc-", "ABC") == "AAA"
  {
    hide TranslateText;
    FirstExample();
    SecondExample();
  }

  lemma FirstExample()
    ensures TranslateText("bar", "abc", "ABC") == "BAr"
  {
    TranslateOne('b', "abc", "ABC", 1);
    TranslateOne('a', "abc", "ABC", 0);
    TranslateOne('r', "abc", "ABC", 3);
    hide TranslateText;
    TranslateParts(['b'], ['a'], "abc", "ABC");
    TranslateParts(['b'] + ['a'], ['r'], "abc", "ABC");
    assert "bar" == ['b'] + ['a'] + ['r'];
  }

  lemma SecondExample()
    ensures TranslateText("--aaa--", "abc-", "ABC") == "AAA"
  {
    Dashes();
    Letters();
    hide TranslateText;
    TranslateParts("--", "aaa", "abc-", "ABC");
    TranslateParts("--aaa", "--", "abc-", "ABC");
    assert "--aaa" == "--" + "aaa" && "--aaa--" == "--aaa" + "--";
  }

  lemma Dashes()
    ensures TranslateText("--", "abc-", "ABC") == ""
  {
    assert "abc-"[..3] == "abc";
    TranslateTwice("abc-", "ABC", '-', 3);
  }

  lemma Letters()
    ensures TranslateText("aaa", "abc-", "ABC") == "AAA"
  {
    assert "abc-"[..0] == "";
    TranslateTwice("abc-", "ABC", 'a', 0);
    TranslateOne('a', "abc-", "ABC", 0);
    hide TranslateText;
    TranslateParts("aa", ['a'], "abc-", "ABC");
    assert "aaa" == "aa" + ['a'];
  }

  // ---- node tests

  /** Which children a step selects, test by test (section 2.3). */
  lemma ChildTests(d: Doc, i: nat, j: nat)
    requires i < |d| && j < |d| && d[j].parent == i
    ensures forall test: NodeTest :: Elem(j) in AxisNodes(d, Child, test, Elem(i)) <==>
              var n := d[j];
              match test
              case TestNode => true
              case TestAll => n.kind == Element
              case TestName(s) => n.kind == Element && n.name == s
              case TestAllInNamespace(p) => n.kind == Element && |p| <= |n.name| && n.name[..|p|] == p
              case TestText => n.kind == PcData || n.kind == CData
              case TestComment => n.kind == Comment
              case TestPi => n.kind == Pi
              case TestPiName(s) => n.kind == Pi && n.name == s
  {
    forall test: NodeTest ensures Elem(j) in AxisNodes(d, Child, test, Elem(i)) <==> PassesElem(d[j], test) {
      AxisNodesMembers(d, Child, test, Elem(i), Elem(j));
      hide AxisNodes;
    }
    hide AxisNodes;
  }

  /** A namespace declaration. */
  predicate Declares(name: string) {
    name == "xmlns" || (|name| > 5 && name[..6] == "xmlns:")
  }

  /** Which attributes a step selects; namespace declarations never are. By a name, at most one is. */
  lemma AttributeTests(d: Doc, i: nat, k: nat)
    requires i < |d| && k < |d[i].attrs|
    ensures forall test: NodeTest :: !test.TestName? ==> (Attr(i, k) in AxisNodes(d, Attribute, test, Elem(i)) <==>
              var name := d[i].attrs[k].name;
              !Declares(name) &&
              match test
              case TestNode => true
              case TestAll => true
              case TestAllInNamespace(p) => |p| <= |name| && name[..|p|] == p
              case _ => false)
    ensures forall s :: var found := AxisNodes(d, Attribute, TestName(s), Elem(i));
              |found| <= 1 && (Attr(i, k) in found <==> d[i].attrs[k].name == s && !Declares(s) && forall h :: 0 <= h < k ==> d[i].attrs[h].name != s)
  {
    DeclaresIs(d[i].attrs[k].name);
    forall test: NodeTest | !test.TestName? ensures Attr(i, k) in AxisNodes(d, Attribute, test, Elem(i)) <==> PassesAttr(d[i].attrs[k], test) {
      AttrsFacts(d, test, i, 0);
    }
    forall s ensures var found := AxisNodes(d, Attribute, TestName(s), Elem(i));
                |found| <= 1 && (Attr(i, k) in found <==> d[i].attrs[k].name == s && !Declares(s) && forall h :: 0 <= h < k ==> d[i].attrs[h].name != s) {
      var m := FirstNamed(d, i, 0, s);
      DeclaresIs(s);
    }
    hide AxisNodes;
  }

  lemma DeclaresIs(name: string)
    ensures Declares(name) <==> !IsXPathAttribute(name)
  {
    if |name| > 5 && name[..5] == "xmlns" { assert name[..6] == name[..5] + [name[5]]; }
    if |name| > 5 && name[..6] == "xmlns:" { assert name[..5] == name[..6][..5] && name[5] == name[..6][5]; }
    if |name| == 5 { assert name[..5] == name; }
  }

  lemma {:induction false} FirstNamed(d: Doc, i: nat, k: nat, s: string) returns (m: nat)
    requires i < |d| && k <= |d[i].attrs|
    ensures k <= m <= |d[i].attrs|
    ensures forall h :: k <= h < m ==> d[i].attrs[h].name != s || !IsXPathAttribute(s)
    ensures m < |d[i].attrs| ==> d[i].attrs[m].name == s && IsXPathAttribute(s)
    ensures Take1(AttrsFrom(d, TestName(s), i, k)) == if m < |d[i].attrs| then [Attr(i, m)] else []
    decreases |d[i].attrs| - k
  {
    hide IsXPathAttribute;
    if k == |d[i].attrs| || PassesAttr(d[i].attrs[k], TestName(s)) {
      m := k;
    } else {
      m := FirstNamed(d, i, k + 1, s);
    }
  }

  /** Document order (section 5): by element, then the element itself, its attributes as they are listed, its content. */
  lemma DocumentOrder(i: nat, j: nat, k: nat, h: nat)
    ensures Less(Elem(i), Elem(j)) <==> i < j
    ensures Less(Elem(i), Attr(j, k)) <==> i <= j
    ensures Less(Attr(i, k), Elem(j)) <==> i < j
    ensures Less(Attr(i, k), Attr(j, h)) <==> i < j || (i == j && k < h)
  {
  }

  // ---- predicates

  lemma WholeIs(r: real, k: int)
    ensures r == k as real <==> r == r.Floor as real && r.Floor == k
  {
  }

  lemma NumberPasses(env: Env, n: Number, x: XNode, i: nat, size: nat)
    ensures M.Passes(env, Leaf(NumberConst(n)), x, i, size) <==> n.Fin? && n.r == (i + 1) as real
  {
    var p, c := Leaf(NumberConst(n)), Context(x, i + 1, size);
    assert M.Value(env, p, c) == NumberV(n);
    assert M.ValueOf(env, p, c).asNumber == n;
  }

  /** A number as a predicate keeps the node at that position (section 2.4), on the meaning. */
  lemma {:induction false} NumberSelects(env: Env, n: Number, seg: seq<XNode>, i: nat)
    requires i <= |seg|
    ensures M.Selected(env, Leaf(NumberConst(n)), seg, i) ==
              if n.Fin? && n.r == n.r.Floor as real && i < n.r.Floor <= |seg| then [seg[n.r.Floor - 1]] else []
    decreases |seg| - i
  {
    hide M.Passes;
    if i < |seg| {
      NumberPasses(env, n, seg[i], i, |seg|);
      if n.Fin? { WholeIs(n.r, i + 1); }
      NumberSelects(env, n, seg, i + 1);
    }
  }

  /** last() keeps the last node. */
  lemma {:induction false} LastSelects(env: Env, seg: seq<XNode>, i: nat)
    requires i <= |seg|
    ensures M.Selected(env, Leaf(Last), seg, i) == if i < |seg| then [seg[|seg| - 1]] else []
    decreases |seg| - i
  {
    if i < |seg| { LastSelects(env, seg, i + 1); }
  }
}
