/**
 The query optimiser, and the proof that it preserves meaning.

 Optimize rewrites bottom-up, as xpath_ast_node::optimize does: operands first, then the
 node itself by the rules of optimize_self.
 */
module XPathOptimize {
  import opened Options
  import opened NodeOrder
  import opened XmlTree
  import opened XPathAst
  import opened XPathEval
  import opened XPathRefine
  import opened XPathLazy
  import M = XPathMeaning

  // ---- the rules

  /** [position()=e] becomes [e] when e is a number. */
  function DropPosition(p: Expr): Expr {
    if p.Binary? && p.bop == Equal && p.l == Leaf(Position) && TypeOf(p.r) == NumberT then p.r else p
  }

  function Classify(p: Expr): PredKind {
    if p == Leaf(NumberConst(Fin(1.0))) then ConstantOne
    else if p.Leaf? && (p.k.NumberConst? || p.k.VarNumber? || p.k.Last?) then Constant
    else if TypeOf(p) != NumberT && PosInvExpr(p) then PosInv
    else Default
  }

  /** is_posinv_step, after classification. */
  predicate PosInvStep(preds: Preds) {
    match preds
    case NoPred => true
    case Pred(_, kind, next) => kind == PosInv && PosInvStep(next)
  }

  predicate Fusible(axis: Axis) {
    axis == Child || axis == Self || axis == Descendant || axis == DescendantOrSelf
  }

  function FusedAxis(axis: Axis): Axis {
    if axis == Child || axis == Descendant then Descendant else DescendantOrSelf
  }

  /** descendant-or-self::node() followed by a fusible, positionally invariant step is a single step. */
  function FuseStep(left: Left, axis: Axis, test: NodeTest, preds: Preds): Expr {
    if && Fusible(axis) && left.FromSet? && left.e.Step? && left.e.axis == DescendantOrSelf
       && left.e.test == TestNode && left.e.preds == NoPred && PosInvStep(preds)
    then Step(left.e.left, FusedAxis(axis), test, preds)
    else Step(left, axis, test, preds)
  }

  /** Whether a pair of constants fits the 128-entry table. */
  predicate TableFits(from: string, to: string) {
    forall k :: 0 <= k < |from| ==> from[k] as nat < 128 && (k < |to| ==> to[k] as nat < 128)
  }

  function TableOf(from: string, to: string): seq<nat> {
    seq(128, c requires 0 <= c < 128 => TableEntry(c, from, to))
  }

  predicate TwoConstants(from: Expr, to: Expr) {
    from.Leaf? && from.k.StringConst? && to.Leaf? && to.k.StringConst? && TableFits(from.k.s, to.k.s)
  }

  /** translate() with two constants goes through a lookup table. */
  function TableTranslate(s: Expr, from: Expr, to: Expr): Expr {
    if TwoConstants(from, to) then TranslateTable(s, TableOf(from.k.s, to.k.s)) else Translate(s, from, to)
  }

  predicate AttrTest(op: BinaryOp, l: Expr, r: Expr) {
    && op == Equal && l.Step? && l.axis == Attribute && l.test.TestName? && l.left.FromContext? && l.preds.NoPred?
    && r.Leaf? && (r.k.StringConst? || r.k.VarString?)
  }

  /** @name = 'string' and @name = $string look the attribute up directly. */
  function AttrCompare(op: BinaryOp, l: Expr, r: Expr): Expr {
    if AttrTest(op, l, r) then CompareAttr(l.test.name, r) else Binary(op, l, r)
  }

  function Optimize(e: Expr): Expr {
    match e
    case Leaf(_) => e
    case Unary(op, l) => Unary(op, Optimize(l))
    case Binary(op, l, r) => AttrCompare(op, Optimize(l), Optimize(r))
    case Call(t, f, args) => Call(t, f, OptimizeArgs(args))
    case Translate(s, from, to) => TableTranslate(Optimize(s), Optimize(from), Optimize(to))
    case TranslateTable(s, table) => TranslateTable(Optimize(s), table)
    case CompareAttr(name, r) => CompareAttr(name, Optimize(r))
    case Union(l, r) => Union(Optimize(l), Optimize(r))
    case Filter(l, p, _) =>
      var p' := DropPosition(Optimize(p));
      Filter(Optimize(l), p', Classify(p'))
    case Step(left, axis, test, preds) => FuseStep(OptimizeLeft(left), axis, test, OptimizePreds(preds))
    case Id(l) => Id(Optimize(l))
  }

  function OptimizeLeft(left: Left): Left {
    match left
    case FromContext => FromContext
    case FromSet(e) => FromSet(Optimize(e))
  }

  function OptimizePreds(preds: Preds): Preds {
    match preds
    case NoPred => NoPred
    case Pred(p, _, next) =>
      var p' := DropPosition(Optimize(p));
      Pred(p', Classify(p'), OptimizePreds(next))
  }

  function OptimizeArgs(args: Args): Args {
    match args
    case NoArg => NoArg
    case Arg(asNumber, e, next) => Arg(asNumber, Optimize(e), OptimizeArgs(next))
  }

  // ---- the lookup table

  lemma {:induction false} FindCharUnique(s: string, c: char, k: nat)
    requires k < |s| && s[k] == c && c !in s[..k]
    ensures FindChar(s, c) == k
  {
    forall m | 0 <= m < k ensures s[m] != c {
      assert s[m] in s[..k];
    }
    var f := FindChar(s, c);
    forall m | 0 <= m < f ensures s[m] != c {
      assert s[m] in s[..f];
    }
  }

  /** The table after the first f characters of `from`: 0 where none of them has occurred. */
  function EntryAfter(c: nat, from: string, to: string, f: nat): nat
    requires c < 128 && f <= |from|
  {
    if c as char in from[..f] then TableEntry(c, from, to) else 0
  }

  ghost predicate Filled(entry: seq<nat>, from: string, to: string, f: nat)
    requires f <= |from|
  {
    |entry| == 128 && forall c: nat :: c < 128 ==> entry[c] == EntryAfter(c, from, to, f)
  }

  lemma NonZeroEntry(from: string, to: string, c: nat)
    requires 0 as char !in to && c < 128 && c as char in from
    ensures TableEntry(c, from, to) != 0
  {
    var k := FindChar(from, c as char);
    if k < |to| { assert to[k] in to; }
  }

  lemma {:induction false} FillOne(entry: seq<nat>, from: string, to: string, f: nat)
    requires f < |from| && from[f] as nat < 128 && 0 as char !in to && Filled(entry, from, to, f)
    ensures var fc := from[f] as nat;
            Filled(if entry[fc] == 0 then entry[fc := if f < |to| then to[f] as nat else 128] else entry, from, to, f + 1)
  {
    var fc := from[f] as nat;
    assert from[..f + 1] == from[..f] + [from[f]];
    assert fc as char == from[f];
    NonZeroEntry(from, to, fc);
    if entry[fc] == 0 { FindCharUnique(from, from[f], f); }
    forall c: nat | c < 128 && c != fc ensures EntryAfter(c, from, to, f + 1) == EntryAfter(c, from, to, f) {
      assert c as char != from[f];
    }
  }

  /** translate_table_generate: the first occurrence of a character wins, and 128 means "skip". */
  method GenerateTable(from: string, to: string) returns (table: Option<seq<nat>>)
    requires 0 as char !in from && 0 as char !in to
    ensures table == if TableFits(from, to) then Some(TableOf(from, to)) else None
  {
    var entry := new nat[128](_ => 0);
    var f, t := 0, 0;
    while f < |from|
      invariant 0 <= f <= |from| && t == if f < |to| then f else |to|
      invariant forall k :: 0 <= k < f ==> from[k] as nat < 128 && (k < |to| ==> to[k] as nat < 128)
      invariant Filled(entry[..], from, to, f)
    {
      var fc := from[f] as nat;
      var tc := if t < |to| then to[t] as nat else 0;
      if fc >= 128 || tc >= 128 {
        return None;
      }
      FillOne(entry[..], from, to, f);
      assert t < |to| ==> to[t] in to;
      if entry[fc] == 0 {
        entry[fc] := if tc != 0 then tc else 128;
      }
      f := f + 1;
      if tc != 0 { t := t + 1; }
    }
    ghost var firsts := entry[..];
    var i := 0;
    while i < 128
      invariant 0 <= i <= 128
      invariant forall c :: 0 <= c < i ==> entry[c] == TableEntry(c, from, to)
      invariant forall c :: i <= c < 128 ==> entry[c] == firsts[c]
    {
      assert from[..f] == from;
      assert firsts[i] == EntryAfter(i, from, to, f);
      if i as char in from { NonZeroEntry(from, to, i); }
      if entry[i] == 0 { entry[i] := i; }
      i := i + 1;
    }
    assert entry[..] == TableOf(from, to);
    table := Some(entry[..]);
  }

  /** Reading the table is translating. */
  lemma {:induction false} TableIsTranslate(s: string, from: string, to: string)
    requires TableFits(from, to)
    ensures TableText(s, TableOf(from, to)) == TranslateText(s, from, to)
  {
    if s != [] {
      TableIsTranslate(s[1..], from, to);
      var code := s[0] as nat;
      var k := FindChar(from, s[0]);
      if code < 128 {
        assert TableOf(from, to)[code] == TableEntry(code, from, to);
        assert code as char == s[0];
      }
    }
  }

  /** Every entry is a 7-bit code or 128, as translate_table expects. */
  lemma TableEntries(from: string, to: string)
    requires TableFits(from, to)
    ensures |TableOf(from, to)| == 128 && forall c :: 0 <= c < 128 ==> TableOf(from, to)[c] <= 128
  {
  }

  // ---- the attribute shortcut

  lemma {:induction false} FirstAttrFrom(d: Doc, name: string, i: nat, k: nat)
    requires i < |d| && k <= |d[i].attrs|
    ensures Take1(AttrsFrom(d, TestName(name), i, k)) ==
              var r := FindAttr(d[i].attrs, name, k);
              if r < |d[i].attrs| && IsXPathAttribute(name) then [Attr(i, r)] else []
    decreases |d[i].attrs| - k
  {
    if k < |d[i].attrs| { FirstAttrFrom(d, name, i, k + 1); }
  }

  /** @name, as a set, holds at most the attribute that a direct lookup finds. */
  lemma {:induction false} AttrStepMeaning(env: Env, name: string, c: Context)
    ensures var found := c.n.Elem? && c.n.i < |env.doc| && IsXPathAttribute(name)
                         && FindAttr(env.doc[c.n.i].attrs, name, 0) < |env.doc[c.n.i].attrs|;
            M.Nodes(env, Step(FromContext, Attribute, TestName(name), NoPred), c) ==
              if found then {Attr(c.n.i, FindAttr(env.doc[c.n.i].attrs, name, 0))} else {}
  {
    MeaningIsReach(env, FromContext, Attribute, TestName(name), NoPred, c);
    var found := From(env, Attribute, TestName(name), NoPred, c.n);
    assert found == AxisNodes(env.doc, Attribute, TestName(name), c.n);
    assert Reach(env, Attribute, TestName(name), NoPred, {c.n}) == NodeSet(found);
    if c.n.Elem? && c.n.i < |env.doc| { FirstAttrFrom(env.doc, name, c.n.i, 0); }
  }

  lemma {:induction false} AttrShortcut(env: Env, op: BinaryOp, l: Expr, r: Expr, c: Context)
    requires AttrTest(op, l, r)
    ensures M.Value(env, CompareAttr(l.test.name, r), c) == M.Value(env, Binary(op, l, r), c)
  {
    AttrStepMeaning(env, l.test.name, c);
    var value := M.ValueOf(env, r, c).asString;
    var S := M.Nodes(env, l, c);
    StringVsNodes(env, M.ValueOf(env, l, c), M.ValueOf(env, r, c));
    assert AttrEquals(env, c.n, l.test.name, value) <==> exists y :: y in S && value == env.stringValue(y);
  }

  lemma StringVsNodes(env: Env, l: Operand, r: Operand)
    requires l.t == NodeSetT && r.t == StringT
    ensures CompareEq(env, true, l, r) <==> exists y :: y in l.nodes && r.asString == env.stringValue(y)
  {
  }

  // ---- fusing steps

  /** y is among the nodes a step selects from x (all axes but attribute). */
  predicate Picks(d: Doc, axis: Axis, test: NodeTest, x: XNode, y: XNode) {
    (y == x && KeepsSelf(d, axis, test, x)) || (y.Elem? && y.i < |d| && Hit(d, axis, test, x, y.i))
  }

  lemma {:induction false} PicksCompose(d: Doc, axis: Axis, test: NodeTest, x: XNode, z: XNode, y: XNode)
    requires ValidDoc(d) && Fusible(axis)
    requires Picks(d, DescendantOrSelf, TestNode, x, z) && Picks(d, axis, test, z, y)
    ensures Picks(d, FusedAxis(axis), test, x, y)
  {
    if x.Elem? && y.i > 0 && axis == Child { AncestorByParent(d, x.i, y.i); }
    if x.Elem? { assert z.i < |d| && d[z.i].end <= d[x.i].end; }
  }

  lemma {:induction false} PicksDecompose(d: Doc, axis: Axis, test: NodeTest, x: XNode, y: XNode) returns (z: XNode)
    requires ValidDoc(d) && Fusible(axis) && Picks(d, FusedAxis(axis), test, x, y)
    ensures Picks(d, DescendantOrSelf, TestNode, x, z) && Picks(d, axis, test, z, y)
  {
    if x.Elem? && axis == Child {
      AncestorByParent(d, x.i, y.i);
      z := Elem(d[y.i].parent);
    } else if x.Elem? && axis == Self {
      z := y;
    } else {
      z := x;
      assert x.Elem? ==> x.i < d[x.i].end;
    }
  }

  /** Composing descendant-or-self::node() with a fusible axis gives the fused axis. */
  lemma {:induction false} AxesCompose(d: Doc, axis: Axis, test: NodeTest, x: XNode, y: XNode)
    requires ValidDoc(d) && Fusible(axis)
    ensures y in AxisNodes(d, FusedAxis(axis), test, x) <==>
              exists z :: z in AxisNodes(d, DescendantOrSelf, TestNode, x) && y in AxisNodes(d, axis, test, z)
  {
    AxisNodesMembers(d, FusedAxis(axis), test, x, y);
    if y in AxisNodes(d, FusedAxis(axis), test, x) {
      var z := PicksDecompose(d, axis, test, x, y);
      AxisNodesMembers(d, DescendantOrSelf, TestNode, x, z);
      AxisNodesMembers(d, axis, test, z, y);
    }
    forall z | z in AxisNodes(d, DescendantOrSelf, TestNode, x) && y in AxisNodes(d, axis, test, z)
      ensures Picks(d, FusedAxis(axis), test, x, y)
    {
      AxisNodesMembers(d, DescendantOrSelf, TestNode, x, z);
      AxisNodesMembers(d, axis, test, z, y);
      PicksCompose(d, axis, test, x, z, y);
    }
  }

  ghost predicate PassesAll(env: Env, preds: Preds, y: XNode) {
    match preds
    case NoPred => true
    case Pred(p, _, next) => M.ValueOf(env, p, Context(y, 1, 1)).asBool && PassesAll(env, next, y)
  }

  lemma {:induction false} PosInvSelectedAll(env: Env, preds: Preds, seg: seq<XNode>, y: XNode)
    requires ClassifiedPreds(preds) && PosInvStep(preds)
    ensures y in M.SelectedAll(env, preds, seg) <==> y in seg && PassesAll(env, preds, y)
    decreases preds
  {
    match preds
    case NoPred =>
    case Pred(p, _, next) =>
      PosInvSelected(env, p, seg, 0, y);
      assert seg[0..] == seg;
      PosInvSelectedAll(env, next, M.Selected(env, p, seg, 0), y);
  }

  /** The fused step reaches the same nodes. */
  lemma {:induction false} FusionPreserves(env: Env, left: Left, axis: Axis, test: NodeTest, preds: Preds, c: Context)
    requires ValidDoc(env.doc) && Fusible(axis) && ClassifiedPreds(preds) && PosInvStep(preds)
    ensures M.Nodes(env, Step(left, FusedAxis(axis), test, preds), c) ==
              M.Nodes(env, Step(FromSet(Step(left, DescendantOrSelf, TestNode, NoPred)), axis, test, preds), c)
  {
    var inner := Step(left, DescendantOrSelf, TestNode, NoPred);
    var L := M.LeftNodes(env, left, c);
    var I := Reach(env, DescendantOrSelf, TestNode, NoPred, L);
    MeaningIsReach(env, left, DescendantOrSelf, TestNode, NoPred, c);
    MeaningIsReach(env, left, FusedAxis(axis), test, preds, c);
    MeaningIsReach(env, FromSet(inner), axis, test, preds, c);
    assert M.LeftNodes(env, FromSet(inner), c) == I;
    forall y ensures y in Reach(env, FusedAxis(axis), test, preds, L) <==> y in Reach(env, axis, test, preds, I) {
      FusedReach(env, axis, test, preds, L, y);
    }
  }

  /** One context node x, through the intermediate node z. */
  lemma {:induction false} FusedFrom(env: Env, axis: Axis, test: NodeTest, preds: Preds, x: XNode, y: XNode)
    requires ValidDoc(env.doc) && Fusible(axis) && ClassifiedPreds(preds) && PosInvStep(preds)
    ensures y in From(env, FusedAxis(axis), test, preds, x) <==>
              exists z :: z in From(env, DescendantOrSelf, TestNode, NoPred, x) && y in From(env, axis, test, preds, z)
  {
    hide AxisNodes;
    var d := env.doc;
    AxesCompose(d, axis, test, x, y);
    PosInvSelectedAll(env, preds, AxisNodes(d, FusedAxis(axis), test, x), y);
    forall z ensures y in From(env, axis, test, preds, z) <==> y in AxisNodes(d, axis, test, z) && PassesAll(env, preds, y) {
      PosInvSelectedAll(env, preds, AxisNodes(d, axis, test, z), y);
    }
    assert From(env, DescendantOrSelf, TestNode, NoPred, x) == AxisNodes(d, DescendantOrSelf, TestNode, x);
  }

  lemma {:induction false} FusedReach(env: Env, axis: Axis, test: NodeTest, preds: Preds, L: set<XNode>, y: XNode)
    requires ValidDoc(env.doc) && Fusible(axis) && ClassifiedPreds(preds) && PosInvStep(preds)
    ensures y in Reach(env, FusedAxis(axis), test, preds, L) <==>
              y in Reach(env, axis, test, preds, Reach(env, DescendantOrSelf, TestNode, NoPred, L))
  {
    hide From;
    forall x ensures y in From(env, FusedAxis(axis), test, preds, x) <==>
                       exists z :: z in From(env, DescendantOrSelf, TestNode, NoPred, x) && y in From(env, axis, test, preds, z)
    {
      FusedFrom(env, axis, test, preds, x, y);
    }
  }

  // ---- the position rule

  /** Two predicates that pass the same nodes at the same positions select the same. */
  lemma {:induction false} SelectedCongruent(env: Env, p: Expr, q: Expr, seg: seq<XNode>, i: nat)
    requires i <= |seg|
    requires forall k :: 0 <= k < |seg| ==> M.Passes(env, p, seg[k], k, |seg|) == M.Passes(env, q, seg[k], k, |seg|)
    ensures M.Selected(env, p, seg, i) == M.Selected(env, q, seg, i)
    decreases |seg| - i
  {
    if i < |seg| { SelectedCongruent(env, p, q, seg, i + 1); }
  }

  lemma {:induction false} DropPositionPasses(env: Env, p: Expr, x: XNode, i: nat, n: nat)
    ensures M.Passes(env, DropPosition(p), x, i, n) == M.Passes(env, p, x, i, n)
  {
    var c := Context(x, i + 1, n);
    if DropPosition(p) != p {
      var l := M.ValueOf(env, Leaf(Position), c);
      var r := M.ValueOf(env, p.r, c);
      assert l.asNumber == OfNat(i + 1) && l.t == NumberT;
      assert r.t == NumberT;
      assert M.Value(env, p, c) == BoolV(CompareEq(env, true, l, r));
    }
  }

  // ---- the whole optimiser

  /** Trees as the parser builds them, with no NUL inside string constants. */
  predicate Parsed(e: Expr) {
    match e
    case Leaf(k) => k.StringConst? ==> 0 as char !in k.s
    case Unary(_, l) => Parsed(l)
    case Binary(_, l, r) => Parsed(l) && Parsed(r)
    case Call(_, _, args) => ParsedArgs(args)
    case Translate(s, from, to) => Parsed(s) && Parsed(from) && Parsed(to)
    case TranslateTable(_, _) => false
    case CompareAttr(_, _) => false
    case Union(l, r) => Parsed(l) && Parsed(r)
    case Filter(l, p, kind) => Parsed(l) && Parsed(p) && kind == Default
    case Step(left, _, _, preds) => (left.FromSet? ==> Parsed(left.e)) && ParsedPreds(preds)
    case Id(l) => Parsed(l)
  }

  predicate ParsedPreds(preds: Preds) {
    match preds
    case NoPred => true
    case Pred(p, kind, next) => Parsed(p) && kind == Default && ParsedPreds(next)
  }

  predicate ParsedArgs(args: Args) {
    match args
    case NoArg => true
    case Arg(_, e, next) => Parsed(e) && ParsedArgs(next)
  }

  /** e' has the type of e and means the same in every context. */
  ghost predicate SameMeaning(env: Env, e: Expr, e': Expr) {
    && TypeOf(e) == TypeOf(e')
    && forall c :: M.ValueOf(env, e, c) == M.ValueOf(env, e', c) && M.Nodes(env, e, c) == M.Nodes(env, e', c)
  }

  lemma SameOperand(env: Env, e: Expr, e': Expr, c: Context)
    requires TypeOf(e) == TypeOf(e')
    requires M.Value(env, e, c) == M.Value(env, e', c) && M.Nodes(env, e, c) == M.Nodes(env, e', c)
    ensures M.ValueOf(env, e, c) == M.ValueOf(env, e', c)
  {
  }

  lemma {:induction false} SamePasses(env: Env, p: Expr, p': Expr, x: XNode, i: nat, n: nat)
    requires SameMeaning(env, p, p')
    ensures M.Passes(env, p, x, i, n) == M.Passes(env, DropPosition(p'), x, i, n)
  {
    DropPositionPasses(env, p', x, i, n);
    assert M.ValueOf(env, p, Context(x, i + 1, n)) == M.ValueOf(env, p', Context(x, i + 1, n));
  }

  /** The two ways of treating a predicate select the same nodes. */
  lemma {:induction false} SameSelected(env: Env, p: Expr, p': Expr, seg: seq<XNode>)
    requires SameMeaning(env, p, p')
    ensures M.Selected(env, p, seg, 0) == M.Selected(env, DropPosition(p'), seg, 0)
  {
    forall k | 0 <= k < |seg| ensures M.Passes(env, p, seg[k], k, |seg|) == M.Passes(env, DropPosition(p'), seg[k], k, |seg|) {
      SamePasses(env, p, p', seg[k], k, |seg|);
    }
    SelectedCongruent(env, p, DropPosition(p'), seg, 0);
  }

  lemma ClassifyHolds(p: Expr)
    requires Classified(p)
    ensures Classified(DropPosition(p)) && KindHolds(Classify(p), p)
  {
  }

  lemma {:induction false} OptimizePredsPreserves(env: Env, preds: Preds)
    requires ValidEnv(env) && ParsedPreds(preds)
    ensures forall seg :: M.SelectedAll(env, OptimizePreds(preds), seg) == M.SelectedAll(env, preds, seg)
    decreases preds, 0
  {
    match preds
    case NoPred =>
    case Pred(p, _, next) =>
      OptimizePreserves(env, p);
      OptimizePredsPreserves(env, next);
      forall seg ensures M.SelectedAll(env, OptimizePreds(preds), seg) == M.SelectedAll(env, preds, seg) {
        SameSelected(env, p, Optimize(p), seg);
      }
  }

  lemma {:induction false} OptimizeArgsPreserves(env: Env, args: Args)
    requires ValidEnv(env) && ParsedArgs(args)
    ensures forall c :: M.Arguments(env, OptimizeArgs(args), c) == M.Arguments(env, args, c)
    decreases args, 0
  {
    match args
    case NoArg =>
    case Arg(_, e, next) =>
      OptimizePreserves(env, e);
      OptimizeArgsPreserves(env, next);
      assert forall c :: M.ValueOf(env, e, c) == M.ValueOf(env, Optimize(e), c);
  }

  /** A step whose parts mean the same means the same, fused or not. */
  lemma {:induction false} StepPreserves(env: Env, left: Left, axis: Axis, test: NodeTest, preds: Preds, c: Context)
    requires ValidEnv(env)
    requires left.FromSet? ==> SameMeaning(env, left.e, Optimize(left.e))
    requires ClassifiedPreds(OptimizePreds(preds))
    requires forall seg :: M.SelectedAll(env, OptimizePreds(preds), seg) == M.SelectedAll(env, preds, seg)
    ensures M.Nodes(env, FuseStep(OptimizeLeft(left), axis, test, OptimizePreds(preds)), c) ==
              M.Nodes(env, Step(left, axis, test, preds), c)
  {
    hide AxisNodes;
    var left', preds' := OptimizeLeft(left), OptimizePreds(preds);
    assert M.LeftNodes(env, left, c) == M.LeftNodes(env, left', c) by {
      if left.FromSet? { assert M.Nodes(env, left.e, c) == M.Nodes(env, Optimize(left.e), c); }
    }
    SameStep(env, left, left', axis, test, preds, preds', c);
    hide M.Nodes, M.LeftNodes, M.SelectedAll, Optimize, OptimizePreds, OptimizeLeft;
    if FuseStep(left', axis, test, preds') != Step(left', axis, test, preds') {
      FusionPreserves(env, left'.e.left, axis, test, preds', c);
    }
  }

  /** A step depends on what its operands mean. */
  lemma SameStep(env: Env, left: Left, left': Left, axis: Axis, test: NodeTest, preds: Preds, preds': Preds, c: Context)
    requires M.LeftNodes(env, left, c) == M.LeftNodes(env, left', c)
    requires forall seg :: M.SelectedAll(env, preds', seg) == M.SelectedAll(env, preds, seg)
    ensures M.Nodes(env, Step(left, axis, test, preds), c) == M.Nodes(env, Step(left', axis, test, preds'), c)
  {
    hide AxisNodes, M.LeftNodes, M.SelectedAll;
    if axis != Namespace {
      MeaningIsReach(env, left, axis, test, preds, c);
      MeaningIsReach(env, left', axis, test, preds', c);
      hide M.Nodes;
      assert forall x :: From(env, axis, test, preds, x) == From(env, axis, test, preds', x);
      assert Reach(env, axis, test, preds, M.LeftNodes(env, left, c)) == Reach(env, axis, test, preds', M.LeftNodes(env, left, c));
    }
  }

  /** The induction hypothesis for one operand in one context. */
  lemma {:induction false} OnePreserves(env: Env, l: Expr, c: Context)
    requires ValidEnv(env) && Parsed(l)
    ensures M.ValueOf(env, l, c) == M.ValueOf(env, Optimize(l), c)
    ensures M.Nodes(env, l, c) == M.Nodes(env, Optimize(l), c)
    decreases l, 2
  {
    OptimizePreserves(env, l);
    assert M.ValueOf(env, l, c) == M.ValueOf(env, Optimize(l), c);
  }

  lemma {:induction false} SetPreserves(env: Env, e: Expr, c: Context)
    requires ValidEnv(env) && Parsed(e)
    ensures M.Nodes(env, Optimize(e), c) == M.Nodes(env, e, c)
    decreases e, 0
  {
    match e
    case Union(l, r) => OnePreserves(env, l, c); OnePreserves(env, r, c);
    case Filter(l, p, _) =>
      OnePreserves(env, l, c);
      OptimizePreserves(env, p);
      SameSelected(env, p, Optimize(p), InOrder(M.Nodes(env, l, c)));
    case Step(left, axis, test, preds) =>
      if left.FromSet? { OptimizePreserves(env, left.e); }
      OptimizePredsPreserves(env, preds);
      PredsClassified(preds);
      StepPreserves(env, left, axis, test, preds, c);
    case _ =>
  }

  lemma {:induction false} ValuePreserves(env: Env, e: Expr, c: Context)
    requires ValidEnv(env) && Parsed(e)
    ensures M.Value(env, Optimize(e), c) == M.Value(env, e, c)
    decreases e, 0
  {
    match e
    case Unary(_, l) => OnePreserves(env, l, c);
    case Binary(op, l, r) =>
      OnePreserves(env, l, c); OnePreserves(env, r, c);
      AttrCompareMeaning(env, op, Optimize(l), Optimize(r), c);
    case Call(_, _, args) => OptimizeArgsPreserves(env, args);
    case Translate(s, from, to) =>
      OnePreserves(env, s, c); OnePreserves(env, from, c); OnePreserves(env, to, c);
      TableMeaning(env, Optimize(s), Optimize(from), Optimize(to), c);
    case _ =>
  }

  lemma {:induction false} AttrCompareMeaning(env: Env, op: BinaryOp, l: Expr, r: Expr, c: Context)
    ensures M.Value(env, AttrCompare(op, l, r), c) == BinaryValue(env, op, M.ValueOf(env, l, c), M.ValueOf(env, r, c))
  {
    if AttrTest(op, l, r) { AttrShortcut(env, op, l, r, c); }
  }

  lemma {:induction false} TableMeaning(env: Env, s: Expr, from: Expr, to: Expr, c: Context)
    ensures M.Value(env, TableTranslate(s, from, to), c) ==
              StringV(TranslateText(M.ValueOf(env, s, c).asString, M.ValueOf(env, from, c).asString, M.ValueOf(env, to, c).asString))
  {
    if TwoConstants(from, to) {
      TableIsTranslate(M.ValueOf(env, s, c).asString, from.k.s, to.k.s);
      hide TranslateText, TableText, TableOf;
    }
  }

  lemma FuseClassified(left: Left, axis: Axis, test: NodeTest, preds: Preds)
    requires ClassifiedLeft(left) && ClassifiedPreds(preds)
    ensures Classified(FuseStep(left, axis, test, preds)) && FuseStep(left, axis, test, preds).Step?
  {
    StepClassified(left, axis, test, preds);
    if left.FromSet? && left.e.Step? {
      StepClassified(left.e.left, left.e.axis, left.e.test, left.e.preds);
      StepClassified(left.e.left, FusedAxis(axis), test, preds);
    }
    hide Classified, ClassifiedPreds, PosInvStep, Fusible;
  }

  lemma StepClassified(left: Left, axis: Axis, test: NodeTest, preds: Preds)
    ensures Classified(Step(left, axis, test, preds)) <==> ClassifiedLeft(left) && ClassifiedPreds(preds)
  {
    hide ClassifiedLeft, ClassifiedPreds;
  }

  lemma RewritesClassified(op: BinaryOp, l: Expr, r: Expr, to: Expr)
    requires Classified(l) && Classified(r) && Classified(to)
    ensures Classified(AttrCompare(op, l, r)) && TypeOf(AttrCompare(op, l, r)) == BinaryType(op)
    ensures Classified(TableTranslate(l, r, to)) && TypeOf(TableTranslate(l, r, to)) == StringT
  {
  }

  lemma {:induction false} OptimizeClassified(e: Expr)
    requires Parsed(e)
    ensures Classified(Optimize(e)) && TypeOf(Optimize(e)) == TypeOf(e)
    decreases e
  {
    match e
    case Leaf(_) =>
    case Unary(_, l) => OptimizeClassified(l);
    case Binary(op, l, r) =>
      OptimizeClassified(l); OptimizeClassified(r);
      RewritesClassified(op, Optimize(l), Optimize(r), Optimize(r));
    case Call(_, _, args) => ArgsClassified(args);
    case Translate(s, from, to) =>
      OptimizeClassified(s); OptimizeClassified(from); OptimizeClassified(to);
      RewritesClassified(Equal, Optimize(s), Optimize(from), Optimize(to));
    case Union(l, r) => OptimizeClassified(l); OptimizeClassified(r);
    case Filter(l, p, _) =>
      OptimizeClassified(l); OptimizeClassified(p);
      ClassifyHolds(Optimize(p));
      ClassifyHolds(DropPosition(Optimize(p)));
    case Step(left, axis, test, preds) =>
      if left.FromSet? { OptimizeClassified(left.e); }
      PredsClassified(preds);
      FuseClassified(OptimizeLeft(left), axis, test, OptimizePreds(preds));
    case Id(l) => OptimizeClassified(l);
  }

  lemma {:induction false} PredsClassified(preds: Preds)
    requires ParsedPreds(preds)
    ensures ClassifiedPreds(OptimizePreds(preds))
    decreases preds
  {
    match preds
    case NoPred =>
    case Pred(p, _, next) =>
      OptimizeClassified(p);
      ClassifyHolds(Optimize(p));
      ClassifyHolds(DropPosition(Optimize(p)));
      PredsClassified(next);
  }

  lemma {:induction false} ArgsClassified(args: Args)
    requires ParsedArgs(args)
    ensures ClassifiedArgs(OptimizeArgs(args))
    decreases args
  {
    match args
    case NoArg =>
    case Arg(_, e, next) => OptimizeClassified(e); ArgsClassified(next);
  }

  /** Main result on the optimiser: an optimised tree is correctly classified and means the same. */
  lemma {:induction false} OptimizePreserves(env: Env, e: Expr)
    requires ValidEnv(env) && Parsed(e)
    ensures Classified(Optimize(e)) && SameMeaning(env, e, Optimize(e))
    decreases e, 1
  {
    OptimizeClassified(e);
    var e' := Optimize(e);
    forall c ensures M.ValueOf(env, e, c) == M.ValueOf(env, e', c) && M.Nodes(env, e, c) == M.Nodes(env, e', c) {
      ValuePreserves(env, e, c);
      SetPreserves(env, e, c);
      SameOperand(env, e, e', c);
    }
  }

  lemma {:induction false} ParsedIsClassified(e: Expr)
    requires Parsed(e)
    ensures Classified(e)
    decreases e
  {
    match e
    case Leaf(_) =>
    case Unary(_, l) => ParsedIsClassified(l);
    case Binary(_, l, r) => ParsedIsClassified(l); ParsedIsClassified(r);
    case Call(_, _, args) => ParsedArgsClassified(args);
    case Translate(s, from, to) => ParsedIsClassified(s); ParsedIsClassified(from); ParsedIsClassified(to);
    case Union(l, r) => ParsedIsClassified(l); ParsedIsClassified(r);
    case Filter(l, p, _) => ParsedIsClassified(l); ParsedIsClassified(p);
    case Step(left, _, _, preds) =>
      if left.FromSet? { ParsedIsClassified(left.e); }
      ParsedPredsClassified(preds);
    case Id(l) => ParsedIsClassified(l);
  }

  lemma {:induction false} ParsedPredsClassified(preds: Preds)
    requires ParsedPreds(preds)
    ensures ClassifiedPreds(preds)
    decreases preds
  {
    match preds
    case NoPred =>
    case Pred(p, _, next) => ParsedIsClassified(p); ParsedPredsClassified(next);
  }

  lemma {:induction false} ParsedArgsClassified(args: Args)
    requires ParsedArgs(args)
    ensures ClassifiedArgs(args)
    decreases args
  {
    match args
    case NoArg =>
    case Arg(_, e, next) => ParsedIsClassified(e); ParsedArgsClassified(next);
  }

  /**
   What a user of the library sees: running the optimised query gives the same boolean, number
   and string, the same set of nodes, and the same document-first node as the query as parsed.
   */
  lemma {:induction false} OptimizedQuery(env: Env, e: Expr, c: Context)
    requires ValidEnv(env) && Parsed(e)
    ensures OperandOf(env, Optimize(e), c) == OperandOf(env, e, c)
    ensures NodeSet(SetOf(env, Optimize(e), c, All).nodes) == NodeSet(SetOf(env, e, c, All).nodes)
    ensures FirstNode(SetOf(env, Optimize(e), c, FirstOnly)) == FirstNode(SetOf(env, e, c, FirstOnly))
  {
    OptimizePreserves(env, e);
    ParsedIsClassified(e);
    LazyExact(env, e, c);
    LazyExact(env, Optimize(e), c);
    assert M.ValueOf(env, e, c) == M.ValueOf(env, Optimize(e), c);
    assert Represents(SetOf(env, e, c, All), M.Nodes(env, e, c), All);
    assert Represents(SetOf(env, Optimize(e), c, All), M.Nodes(env, Optimize(e), c), All);
    assert Represents(SetOf(env, e, c, FirstOnly), M.Nodes(env, e, c), FirstOnly);
    assert Represents(SetOf(env, Optimize(e), c, FirstOnly), M.Nodes(env, Optimize(e), c), FirstOnly);
    FirstOfCover(SetOf(env, e, c, FirstOnly), M.Nodes(env, e, c));
    FirstOfCover(SetOf(env, Optimize(e), c, FirstOnly), M.Nodes(env, Optimize(e), c));
  }
}
