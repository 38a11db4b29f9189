/**
 Query trees, the values they compute and the environment they are evaluated in.

 A tree mirrors xpath_ast_node: a step's predicates and a call's arguments are chained
 through `next`, and a missing left operand of a step means "the context node".
 Predicates carry the classification that the optimiser writes into them.
 */
module XPathAst {
  import opened NodeOrder
  import opened XmlTree

  /** An IEEE double, up to the representation of its finite values. */
  datatype Number = NaN | NegInf | PosInf | Fin(r: real)

  datatype Type = NodeSetT | NumberT | StringT | BoolT

  datatype PredKind = Default | PosInv | Constant | ConstantOne

  datatype LeafKind =
    | NumberConst(n: Number) | StringConst(s: string)
    | VarBool(v: nat) | VarNumber(v: nat) | VarString(v: nat) | VarNodes(v: nat)
    | Position | Last | Root

  datatype UnaryOp =
    | Negate | Count | Sum | LocalName | NamespaceUri | QName
    | ToBool | Not | ToNumber | ToText       // boolean(e), not(e), number(e), string(e)

  datatype BinaryOp =
    | Or | And | Equal | NotEqual | LessThan | GreaterThan | LessOrEqual | GreaterOrEqual
    | Add | Subtract | Multiply | Divide | Mod

  datatype Expr =
    | Leaf(k: LeafKind)
    | Unary(op: UnaryOp, e: Expr)
    | Binary(bop: BinaryOp, l: Expr, r: Expr)
    | Call(ret: Type, fn: nat, args: Args)              // functions of the context node and scalar arguments
    | Translate(subject: Expr, from: Expr, to: Expr)
    | TranslateTable(subject: Expr, table: seq<nat>)    // result of optimisation
    | CompareAttr(name: string, e: Expr)                // result of optimisation: @name = e
    | Union(l: Expr, r: Expr)
    | Filter(source: Expr, pred: Expr, kind: PredKind)
    | Step(left: Left, axis: Axis, test: NodeTest, preds: Preds)
    | Id(e: Expr)

  datatype Left = FromContext | FromSet(e: Expr)

  datatype Preds = NoPred | Pred(expr: Expr, kind: PredKind, next: Preds)

  datatype Args = NoArg | Arg(asNumber: bool, e: Expr, next: Args)

  function LeafType(k: LeafKind): Type {
    match k
    case StringConst(_) => StringT
    case VarBool(_) => BoolT
    case VarString(_) => StringT
    case VarNodes(_) => NodeSetT
    case Root => NodeSetT
    case _ => NumberT
  }

  function UnaryType(op: UnaryOp): Type {
    match op
    case LocalName => StringT
    case NamespaceUri => StringT
    case QName => StringT
    case ToText => StringT
    case ToBool => BoolT
    case Not => BoolT
    case _ => NumberT
  }

  function BinaryType(op: BinaryOp): Type {
    match op
    case Add => NumberT
    case Subtract => NumberT
    case Multiply => NumberT
    case Divide => NumberT
    case Mod => NumberT
    case _ => BoolT
  }

  /** The type the parser records in a tree node. */
  function TypeOf(e: Expr): Type {
    match e
    case Leaf(k) => LeafType(k)
    case Unary(op, _) => UnaryType(op)
    case Binary(op, _, _) => BinaryType(op)
    case Call(t, _, _) => if t == NodeSetT then StringT else t
    case Translate(_, _, _) => StringT
    case TranslateTable(_, _) => StringT
    case CompareAttr(_, _) => BoolT
    case _ => NodeSetT
  }

  datatype Scalar = NumberV(n: Number) | StringV(s: string) | BoolV(b: bool)

  datatype OrderFlag = Unsorted | Sorted | SortedReverse

  /** xpath_node_set_raw: a list of nodes and what is known about its order. */
  datatype RawSet = RawSet(order: OrderFlag, nodes: seq<XNode>)

  /**
   Everything a query reads besides its tree. Arithmetic, conversions and the string functions
   are arbitrary functions, so what is proved holds for every interpretation of them,
   rounding included. `sum` is a function of the set of nodes summed.
   */
  datatype Env = Env(
    doc: Doc,
    varBool: nat -> bool,
    varNumber: nat -> Number,
    varString: nat -> string,
    varNodes: nat -> RawSet,
    arith: (BinaryOp, Number, Number) -> Number,
    negate: Number -> Number,
    less: (bool, Number, Number) -> bool,      // the flag asks for <=
    sum: set<XNode> -> Number,
    stringValue: XNode -> string,
    nodeName: (UnaryOp, XNode) -> string,
    numberToBool: Number -> bool,
    numberToString: Number -> string,
    stringToNumber: string -> Number,
    call: (nat, XNode, seq<Scalar>) -> Scalar)

  /** xpath_context: the context node with the position and size of its list. */
  datatype Context = Context(n: XNode, position: nat, size: nat)

  /** A truthful order flag: sorted lists are strictly ordered, others just free of duplicates. */
  predicate Truthful(ns: RawSet) {
    match ns.order
    case Sorted => Increasing(ns.nodes)
    case SortedReverse => Decreasing(ns.nodes)
    case Unsorted => Distinct(ns.nodes)
  }

  /** Node-set variables are proper node sets. */
  ghost predicate ValidEnv(env: Env) {
    && ValidDoc(env.doc)
    && forall v :: Truthful(env.varNodes(v)) && Null !in env.varNodes(v).nodes
  }

  predicate NumberEquals(a: Number, b: Number) {
    a == b && a != NaN
  }

  function OfNat(n: nat): Number {
    Fin(n as real)
  }

  // ---- operands

  /**
   The value of a tree by all the conversions a parent may ask for. `nodes`, `count` and
   `first` are those of a node set; a scalar has none.
   */
  datatype Operand = Operand(t: Type, asBool: bool, asNumber: Number, asString: string, nodes: set<XNode>, count: nat, first: XNode)

  function ScalarBool(env: Env, v: Scalar): bool {
    match v
    case BoolV(b) => b
    case NumberV(n) => env.numberToBool(n)
    case StringV(s) => s != ""
  }

  function ScalarNumber(env: Env, v: Scalar): Number {
    match v
    case BoolV(b) => if b then Fin(1.0) else Fin(0.0)
    case NumberV(n) => n
    case StringV(s) => env.stringToNumber(s)
  }

  function ScalarString(env: Env, v: Scalar): string {
    match v
    case BoolV(b) => if b then "true" else "false"
    case NumberV(n) => env.numberToString(n)
    case StringV(s) => s
  }

  function ScalarOperand(env: Env, t: Type, v: Scalar): Operand {
    Operand(t, ScalarBool(env, v), ScalarNumber(env, v), ScalarString(env, v), {}, 0, Null)
  }

  /** A node set converts through whether it is empty and through its document-first node. */
  function NodesOperand(env: Env, nonEmpty: bool, nodes: set<XNode>, count: nat, first: XNode): Operand {
    var text := if first == Null then "" else env.stringValue(first);
    Operand(NodeSetT, nonEmpty, env.stringToNumber(text), text, nodes, count, first)
  }

  /** compare_eq, with comp being == or !=. */
  predicate CompareEq(env: Env, equal: bool, l: Operand, r: Operand) {
    if l.t != NodeSetT && r.t != NodeSetT then
      if l.t == BoolT || r.t == BoolT then (l.asBool == r.asBool) == equal
      else if l.t == NumberT || r.t == NumberT then NumberEquals(l.asNumber, r.asNumber) == equal
      else (l.asString == r.asString) == equal
    else if l.t == NodeSetT && r.t == NodeSetT then
      exists x, y :: x in l.nodes && y in r.nodes && (env.stringValue(x) == env.stringValue(y)) == equal
    else
      var scalar := if l.t == NodeSetT then r else l;
      var other := if l.t == NodeSetT then l else r;
      if scalar.t == BoolT then (scalar.asBool == other.asBool) == equal
      else if scalar.t == NumberT then
        exists y :: y in other.nodes && NumberEquals(scalar.asNumber, env.stringToNumber(env.stringValue(y))) == equal
      else
        exists y :: y in other.nodes && (scalar.asString == env.stringValue(y)) == equal
  }

  /** compare_rel, with comp being < or <=. */
  predicate CompareRel(env: Env, orEqual: bool, l: Operand, r: Operand) {
    if l.t != NodeSetT && r.t != NodeSetT then env.less(orEqual, l.asNumber, r.asNumber)
    else if l.t == NodeSetT && r.t == NodeSetT then
      exists x, y :: x in l.nodes && y in r.nodes &&
                     env.less(orEqual, env.stringToNumber(env.stringValue(x)), env.stringToNumber(env.stringValue(y)))
    else if r.t == NodeSetT then
      exists y :: y in r.nodes && env.less(orEqual, l.asNumber, env.stringToNumber(env.stringValue(y)))
    else
      exists x :: x in l.nodes && env.less(orEqual, env.stringToNumber(env.stringValue(x)), r.asNumber)
  }

  /** The scalar leaves. */
  function LeafValue(env: Env, k: LeafKind, position: nat, size: nat): Scalar {
    match k
    case NumberConst(n) => NumberV(n)
    case StringConst(s) => StringV(s)
    case VarBool(v) => BoolV(env.varBool(v))
    case VarNumber(v) => NumberV(env.varNumber(v))
    case VarString(v) => StringV(env.varString(v))
    case Position => NumberV(OfNat(position))
    case Last => NumberV(OfNat(size))
    case _ => BoolV(false)
  }

  function UnaryValue(env: Env, op: UnaryOp, a: Operand): Scalar {
    match op
    case Negate => NumberV(env.negate(a.asNumber))
    case Count => NumberV(OfNat(a.count))
    case Sum => NumberV(env.sum(a.nodes))
    case LocalName => StringV(env.nodeName(op, a.first))
    case NamespaceUri => StringV(env.nodeName(op, a.first))
    case QName => StringV(env.nodeName(op, a.first))
    case ToBool => BoolV(a.asBool)
    case Not => BoolV(!a.asBool)
    case ToNumber => NumberV(a.asNumber)
    case ToText => StringV(a.asString)
  }

  function BinaryValue(env: Env, op: BinaryOp, l: Operand, r: Operand): Scalar {
    match op
    case Or => BoolV(l.asBool || r.asBool)
    case And => BoolV(l.asBool && r.asBool)
    case Equal => BoolV(CompareEq(env, true, l, r))
    case NotEqual => BoolV(CompareEq(env, false, l, r))
    case LessThan => BoolV(CompareRel(env, false, l, r))
    case GreaterThan => BoolV(CompareRel(env, false, r, l))
    case LessOrEqual => BoolV(CompareRel(env, true, l, r))
    case GreaterOrEqual => BoolV(CompareRel(env, true, r, l))
    case _ => NumberV(env.arith(op, l.asNumber, r.asNumber))
  }

  /** A call yields a value of the type its tree node records. */
  function CallValue(env: Env, t: Type, fn: nat, x: XNode, args: seq<Scalar>): Scalar {
    var v := env.call(fn, x, args);
    match t
    case BoolT => BoolV(ScalarBool(env, v))
    case NumberT => NumberV(ScalarNumber(env, v))
    case _ => StringV(ScalarString(env, v))
  }

  /** ast_opt_compare_attribute: the first attribute with the name, looked up on the context node alone. */
  predicate AttrEquals(env: Env, x: XNode, name: string, value: string) {
    && x.Elem? && x.i < |env.doc|
    && var k := FindAttr(env.doc[x.i].attrs, name, 0);
       && k < |env.doc[x.i].attrs| && env.stringValue(Attr(x.i, k)) == value && IsXPathAttribute(name)
  }

  /** xml_node::attribute: index of the first attribute with the name from k on, or the length. */
  function FindAttr(attrs: seq<AttrRec>, name: string, k: nat): (r: nat)
    requires k <= |attrs|
    ensures k <= r <= |attrs|
    decreases |attrs| - k
  {
    if k == |attrs| || attrs[k].name == name then k else FindAttr(attrs, name, k + 1)
  }

  // ---- translate()

  /** Index of c in s, or |s|: find_char. */
  function FindChar(s: string, c: char): (k: nat)
    ensures k <= |s|
    ensures k < |s| ==> s[k] == c && c !in s[..k]
    ensures k == |s| ==> c !in s
  {
    if s == [] then 0
    else if s[0] == c then 0
    else
      var k := FindChar(s[1..], c);
      assert s[..k + 1] == [s[0]] + s[1..][..k];
      k + 1
  }

  /** What translate() writes for one character: the character at the same index of `to`, if any. */
  function TranslateChar(c: char, from: string, to: string): string {
    var k := FindChar(from, c);
    if k == |from| then [c] else if k < |to| then [to[k]] else []
  }

  function TranslateText(s: string, from: string, to: string): string {
    if s == [] then [] else TranslateChar(s[0], from, to) + TranslateText(s[1..], from, to)
  }

  /** One entry of the 128-entry table: the replacement code, 128 for "skip", or the character itself. */
  function TableEntry(c: nat, from: string, to: string): nat
    requires c < 128
  {
    var k := FindChar(from, c as char);
    if k == |from| then c else if k < |to| then to[k] as nat else 128
  }

  /** translate_table. */
  function TableText(s: string, table: seq<nat>): string {
    if s == [] then []
    else
      var rest := TableText(s[1..], table);
      var code := s[0] as nat;
      if code < 128 && code < |table| then
        (if table[code] < 128 then [table[code] as char] else []) + rest
      else [s[0]] + rest
  }
}
