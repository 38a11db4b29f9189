/**
 Query trees as the heap objects the optimiser overwrites in place.

 An xpath_ast_node has three links: `left`, `right` and `next`, the last chaining the
 predicates of a step and the arguments of a call. A Shape is a picture of such a structure:
 which object is where, and what is in it. Rewriting the objects of a parsed tree leaves
 objects that hold Optimize of it.
 */
module XPathTree {
  import opened Options
  import opened XmlTree
  import opened XPathAst
  import opened XPathEval
  import opened XPathRefine
  import opened XPathOptimize

  /** A node's type together with the data that belongs to it. */
  datatype Kind =
    | LeafNode(k: LeafKind) | UnaryNode(op: UnaryOp) | BinaryNode(bop: BinaryOp)
    | CallNode(fn: nat, asNumber: seq<bool>) | TranslateNode | TableNode(table: seq<nat>) | CompareAttrNode
    | UnionNode | FilterNode | PredicateNode | StepNode | IdNode

  class AstNode {
    var kind: Kind
    var ret: Type
    var axis: Axis          // of a step
    var test: NodeTest      // of a step
    var pred: PredKind      // of a filter or predicate
    var left: AstNode?
    var right: AstNode?
    var next: AstNode?
  }

  // ---- what is on the heap

  datatype Shape =
    | Empty
    | At(obj: AstNode, kind: Kind, ret: Type, axis: Axis, test: NodeTest, pred: PredKind,
         left: Shape, right: Shape, next: Shape, foot: set<AstNode>)

  /** All objects of the structure. */
  function Foot(t: Shape): set<AstNode> {
    if t.Empty? then {} else t.foot
  }

  /** t with other links. */
  function Relinked(t: Shape, left: Shape, right: Shape, next: Shape): (u: Shape)
    requires t.At?
    ensures u.At? && u.obj == t.obj && u.left == left && u.right == right && u.next == next
  {
    t.(left := left, right := right, next := next, foot := {t.obj} + Foot(left) + Foot(right) + Foot(next))
  }

  function Obj(t: Shape): AstNode? {
    if t.Empty? then null else t.obj
  }

  ghost predicate Apart(t: Shape)
    requires t.At?
  {
    && t.foot == {t.obj} + Foot(t.left) + Foot(t.right) + Foot(t.next)
    && t.obj !in Foot(t.left) && t.obj !in Foot(t.right) && t.obj !in Foot(t.next)
    && Foot(t.left) !! Foot(t.right) && Foot(t.left) !! Foot(t.next) && Foot(t.right) !! Foot(t.next)
  }

  ghost predicate Linked(t: Shape)
    requires t.At?
    reads t.obj
  {
    && t.obj.kind == t.kind && t.obj.ret == t.ret && t.obj.axis == t.axis && t.obj.test == t.test && t.obj.pred == t.pred
    && t.obj.left == Obj(t.left) && t.obj.right == Obj(t.right) && t.obj.next == Obj(t.next)
  }

  /** The heap looks like t, and no object occurs twice. */
  ghost predicate Stands(t: Shape)
    reads Foot(t)
  {
    t.At? ==> Apart(t) && Linked(t) && Stands(t.left) && Stands(t.right) && Stands(t.next)
  }

  lemma StandsParts(t: Shape)
    requires t.At?
    ensures Stands(t) <==> Apart(t) && Linked(t) && Stands(t.left) && Stands(t.right) && Stands(t.next)
  {
  }

  // ---- what it stands for

  /** What a node and its `next` chain hold. A lookup table keeps its two strings on the right. */
  datatype Role = Exprs(args: Args) | PredList(preds: Preds) | Strings(count: nat)

  function One(e: Expr): Role {
    Exprs(Arg(false, e, NoArg))
  }

  function Flags(args: Args): seq<bool> {
    match args
    case NoArg => []
    case Arg(asNumber, _, next) => [asNumber] + Flags(next)
  }

  function KindOf(e: Expr): Kind {
    match e
    case Leaf(k) => LeafNode(k)
    case Unary(op, _) => UnaryNode(op)
    case Binary(op, _, _) => BinaryNode(op)
    case Call(_, fn, args) => CallNode(fn, Flags(args))
    case Translate(_, _, _) => TranslateNode
    case TranslateTable(_, table) => TableNode(table)
    case CompareAttr(_, _) => CompareAttrNode
    case Union(_, _) => UnionNode
    case Filter(_, _, _) => FilterNode
    case Step(_, _, _, _) => StepNode
    case Id(_) => IdNode
  }

  const Nothing: Role := Exprs(NoArg)

  function LeftOf(e: Expr): Role {
    match e
    case Leaf(_) => Nothing
    case Unary(_, l) => One(l)
    case Binary(_, l, _) => One(l)
    case Call(_, _, args) => if args.NoArg? then Nothing else One(args.e)
    case Translate(s, _, _) => One(s)
    case TranslateTable(s, _) => One(s)
    case CompareAttr(name, _) => One(Step(FromContext, Attribute, TestName(name), NoPred))
    case Union(l, _) => One(l)
    case Filter(l, _, _) => One(l)
    case Step(left, _, _, _) => if left.FromContext? then Nothing else One(left.e)
    case Id(l) => One(l)
  }

  function RightOf(e: Expr): Role {
    match e
    case Binary(_, _, r) => One(r)
    case Call(_, _, args) => if args.NoArg? then Nothing else Exprs(args.next)
    case Translate(_, from, to) => Exprs(Arg(false, from, Arg(false, to, NoArg)))
    case TranslateTable(_, _) => Strings(2)
    case CompareAttr(_, r) => One(r)
    case Union(_, r) => One(r)
    case Filter(_, p, _) => One(p)
    case Step(_, _, _, preds) => PredList(preds)
    case _ => Nothing
  }

  predicate IsNothing(r: Role) {
    match r
    case Exprs(args) => args.NoArg?
    case PredList(preds) => preds.NoPred?
    case Strings(n) => n == 0
  }

  function LeftRole(r: Role): Role
    requires !IsNothing(r)
  {
    match r
    case Exprs(args) => LeftOf(args.e)
    case _ => Nothing
  }

  function RightRole(r: Role): Role
    requires !IsNothing(r)
  {
    match r
    case Exprs(args) => RightOf(args.e)
    case PredList(preds) => One(preds.expr)
    case Strings(_) => Nothing
  }

  function NextRole(r: Role): Role
    requires !IsNothing(r)
  {
    match r
    case Exprs(args) => Exprs(args.next)
    case PredList(preds) => PredList(preds.next)
    case Strings(n) => Strings(n - 1)
  }

  predicate HoldsExpr(t: Shape, e: Expr)
    requires t.At?
  {
    && t.kind == KindOf(e) && t.ret == TypeOf(e)
    && (e.Filter? ==> t.pred == e.kind) && (e.Step? ==> t.axis == e.axis && t.test == e.test)
  }

  /** The node itself, without what it links to. */
  predicate Head(t: Shape, r: Role)
    requires t.At? && !IsNothing(r)
  {
    match r
    case Exprs(args) => HoldsExpr(t, args.e)
    case PredList(preds) => t.kind == PredicateNode && t.pred == preds.kind
    case Strings(_) => t.kind.LeafNode? && t.kind.k.StringConst?
  }

  predicate Holds(t: Shape, r: Role) {
    if t.Empty? || IsNothing(r) then t.Empty? && IsNothing(r)
    else Head(t, r) && Holds(t.left, LeftRole(r)) && Holds(t.right, RightRole(r)) && Holds(t.next, NextRole(r))
  }

  lemma HoldsParts(t: Shape, r: Role)
    ensures t.At? && !IsNothing(r) ==>
              (Holds(t, r) <==> Head(t, r) && Holds(t.left, LeftRole(r)) && Holds(t.right, RightRole(r)) && Holds(t.next, NextRole(r)))
    ensures Holds(t, r) ==> (t.Empty? <==> IsNothing(r))
    ensures t.Empty? && IsNothing(r) ==> Holds(t, r)
  {
  }

  ghost predicate Is(n: AstNode, t: Shape, r: Role)
    reads Foot(t)
  {
    t.At? && t.obj == n && Stands(t) && Holds(t, r)
  }

  // ---- is_posinv_expr and is_posinv_step

  predicate AllPosInv(r: Role) {
    match r
    case Exprs(args) => PosInvArgs(args)
    case _ => true
  }

  predicate HeadPosInv(r: Role)
    requires !IsNothing(r)
  {
    match r
    case Exprs(args) => PosInvExpr(args.e)
    case _ => true
  }

  /** What is_posinv_expr says of a node whose type it does not treat specially. */
  lemma PosInvByParts(r: Role)
    requires !IsNothing(r)
    ensures r.Exprs? ==> r.args.e.Leaf? ==> (HeadPosInv(r) <==> r.args.e.k != Position && r.args.e.k != Last)
    ensures !r.Exprs? || r.args.e.Step? || r.args.e.Filter? ==> HeadPosInv(r)
    ensures r.Exprs? && !r.args.e.Leaf? && !r.args.e.Step? && !r.args.e.Filter? ==>
              (HeadPosInv(r) <==> (IsNothing(LeftRole(r)) || HeadPosInv(LeftRole(r))) && AllPosInv(RightRole(r)))
  {
    assert PosInvArgs(NoArg);
    if r.Exprs? {
      match r.args.e
      case Unary(_, _) => assert RightRole(r) == Nothing;
      case Id(_) => assert RightRole(r) == Nothing;
      case Call(_, _, args) => assert PosInvExpr(r.args.e) == PosInvArgs(args);
      case Binary(_, _, x) => OnePosInv(x);
      case Union(_, x) => OnePosInv(x);
      case CompareAttr(_, x) => OnePosInv(x);
      case Translate(_, from, to) =>
        OnePosInv(to);
        assert PosInvArgs(Arg(false, from, Arg(false, to, NoArg))) <==> PosInvExpr(from) && PosInvArgs(Arg(false, to, NoArg));
      case _ =>
    }
  }

  lemma OnePosInv(e: Expr)
    ensures AllPosInv(One(e)) <==> PosInvExpr(e)
  {
    assert PosInvArgs(NoArg);
  }

  lemma MorePosInv(r: Role)
    requires !IsNothing(r)
    ensures AllPosInv(r) <==> HeadPosInv(r) && AllPosInv(NextRole(r))
  {
  }

  lemma NonePosInv(r: Role)
    requires IsNothing(r)
    ensures AllPosInv(r)
  {
  }

  /** is_posinv_expr. */
  method IsPosInvExpr(n: AstNode, ghost t: Shape, ghost r: Role) returns (b: bool)
    requires Is(n, t, r)
    ensures !IsNothing(r) && b == HeadPosInv(r)
    decreases t, 0
  {
    hide Stands, Holds, AllPosInv, HeadPosInv;
    StandsParts(t);
    HoldsParts(t, r);
    PosInvByParts(r);
    match n.kind
    case LeafNode(k) => b := k != Position && k != Last;
    case StepNode => b := true;
    case PredicateNode => b := true;
    case FilterNode => b := true;
    case _ =>
      HoldsParts(t.left, LeftRole(r));
      if n.left != null {
        var l := IsPosInvExpr(n.left, t.left, LeftRole(r));
        if !l { return false; }
      }
      b := IsPosInvChain(n.right, t.right, RightRole(r));
  }

  /** The loop of is_posinv_expr over the right link and what is chained to it. */
  method IsPosInvChain(first: AstNode?, ghost t: Shape, ghost r: Role) returns (b: bool)
    requires first == Obj(t) && Stands(t) && Holds(t, r)
    ensures b == AllPosInv(r)
    decreases t, 1
  {
    hide Stands, Holds, AllPosInv, HeadPosInv;
    var cur := first;
    ghost var u, q := t, r;
    HoldsParts(u, q);
    while cur != null
      invariant cur == Obj(u) && Stands(u) && Holds(u, q) && (u.Empty? <==> IsNothing(q))
      invariant u == t || u < t
      invariant AllPosInv(r) <==> AllPosInv(q)
      decreases u
    {
      StandsParts(u);
      HoldsParts(u, q);
      HoldsParts(u.next, NextRole(q));
      var p := IsPosInvExpr(cur, u, q);
      MorePosInv(q);
      if !p { return false; }
      cur := cur.next;
      u, q := u.next, NextRole(q);
    }
    NonePosInv(q);
    b := true;
  }

  /** is_posinv_step: the classification of every predicate. */
  method IsPosInvStep(n: AstNode, ghost t: Shape, ghost preds: Preds) returns (b: bool)
    requires t.At? && t.obj == n && Stands(t) && Holds(t.right, PredList(preds))
    ensures b == PosInvStep(preds)
  {
    hide Stands, Holds;
    StandsParts(t);
    var cur := n.right;
    ghost var u, ps := t.right, preds;
    HoldsParts(u, PredList(ps));
    while cur != null
      invariant cur == Obj(u) && Stands(u) && Holds(u, PredList(ps)) && (u.Empty? <==> ps.NoPred?)
      invariant PosInvStep(preds) <==> PosInvStep(ps)
      decreases u
    {
      StandsParts(u);
      HoldsParts(u, PredList(ps));
      HoldsParts(u.next, PredList(ps.next));
      if cur.pred != PosInv { return false; }
      cur := cur.next;
      u, ps := u.next, ps.next;
    }
    b := true;
  }

  // ---- optimize_self

  predicate ParsedRole(r: Role) {
    match r
    case Exprs(args) => ParsedArgs(args)
    case PredList(preds) => ParsedPreds(preds)
    case Strings(_) => false
  }

  function OptimizedRole(r: Role): Role {
    match r
    case Exprs(args) => Exprs(OptimizeArgs(args))
    case PredList(preds) => PredList(OptimizePreds(preds))
    case Strings(n) => r
  }

  /** The state when a node's links have been optimised, but not yet the node itself. */
  ghost predicate Halfway(n: AstNode, t: Shape, r: Role)
    reads Foot(t)
  {
    && t.At? && t.obj == n && Stands(t) && !IsNothing(r) && Head(t, r)
    && Holds(t.left, OptimizedRole(LeftRole(r))) && Holds(t.right, OptimizedRole(RightRole(r)))
    && Holds(t.next, OptimizedRole(NextRole(r)))
  }

  lemma OneOptimized(e: Expr)
    ensures OptimizedRole(One(e)) == One(Optimize(e))
  {
    assert OptimizeArgs(NoArg) == NoArg;
  }

  /** A node standing for one expression. */
  lemma OneHeld(t: Shape, e: Expr)
    requires Holds(t, One(e))
    ensures t.At? && t.next.Empty? && HoldsExpr(t, e) && Holds(t.left, LeftOf(e)) && Holds(t.right, RightOf(e))
  {
  }

  /** The rules for filters and predicates: `[position()=e]` becomes `[e]`, then the predicate is classified. */
  method OptimizePredicate(n: AstNode, ghost t: Shape, ghost p: Expr) returns (ghost u: Shape)
    requires t.At? && t.obj == n && Stands(t) && Holds(t.right, One(p)) && t.pred == Default
    modifies n`right, n`pred
    ensures u.At? && u.obj == n && Stands(u) && Foot(u) <= Foot(t)
    ensures u == Relinked(t.(pred := Classify(DropPosition(p))), t.left, u.right, t.next) && Holds(u.right, One(DropPosition(p)))
  {
    u := DropPositionTest(n, t, p);
    u := ClassifyPredicate(n, u, DropPosition(p));
  }

  /** The predicate is classified by its type, and by whether it looks at positions. */
  method ClassifyPredicate(n: AstNode, ghost t: Shape, ghost p: Expr) returns (ghost u: Shape)
    requires t.At? && t.obj == n && Stands(t) && Holds(t.right, One(p)) && t.pred == Default
    modifies n`pred
    ensures u == t.(pred := Classify(p)) && Stands(u)
  {
    hide Stands, Holds;
    StandsParts(t);
    OneHeld(t.right, p);
    StandsParts(t.right);
    var kind := n.right.kind;
    if kind == LeafNode(NumberConst(Fin(1.0))) {
      n.pred := ConstantOne;
    } else if n.right.ret == NumberT && kind.LeafNode? && (kind.k.NumberConst? || kind.k.VarNumber? || kind.k.Last?) {
      n.pred := Constant;
    } else if n.right.ret != NumberT {
      var posInv := IsPosInvExpr(n.right, t.right, One(p));
      if posInv { n.pred := PosInv; }
    }
    u := t.(pred := n.pred);
    StandsParts(u);
  }

  /** `[position()=e]`, e being a number, becomes `[e]`. */
  method DropPositionTest(n: AstNode, ghost t: Shape, ghost p: Expr) returns (ghost u: Shape)
    requires t.At? && t.obj == n && Stands(t) && Holds(t.right, One(p))
    modifies n`right
    ensures u.At? && u.obj == n && Stands(u) && Foot(u) <= Foot(t)
    ensures u == Relinked(t, t.left, u.right, t.next) && Holds(u.right, One(DropPosition(p)))
  {
    hide Stands, Holds;
    StandsParts(t);
    OneHeld(t.right, p);
    StandsParts(t.right);
    u := t;
    if n.right.kind == BinaryNode(Equal) {
      OneHeld(t.right.left, p.l);
      OneHeld(t.right.right, p.r);
      StandsParts(t.right.left);
      StandsParts(t.right.right);
      if n.right.left.kind == LeafNode(Position) && n.right.right.ret == NumberT {
        n.right := n.right.right;
        u := Relinked(t, t.left, t.right.right, t.next);
        StandsParts(u);
      }
    }
  }

  /** The node stands for e; nothing is said about what is chained to it. */
  ghost predicate Body(n: AstNode, t: Shape, e: Expr)
    reads Foot(t)
  {
    t.At? && t.obj == n && Stands(t) && HoldsExpr(t, e) && Holds(t.left, LeftOf(e)) && Holds(t.right, RightOf(e))
  }

  /** The same objects or fewer, with the same chain. */
  predicate Within(u: Shape, t: Shape)
    requires t.At?
  {
    u.At? && u.next == t.next && Foot(u) <= Foot(t)
  }

  /** descendant-or-self::node() before a fusible step is left out. */
  method OptimizeStep(n: AstNode, ghost t: Shape, ghost e: Expr) returns (ghost u: Shape)
    requires Body(n, t, e) && e.Step?
    modifies n`axis, n`left
    ensures Within(u, t) && Body(n, u, FuseStep(e.left, e.axis, e.test, e.preds))
  {
    hide Stands, Holds, LeftOf, RightOf, KindOf, TypeOf, FuseStep;
    StepLinks(t, e);
    var fuse := IsFusible(n, t, e);
    u := t;
    if fuse {
      StepParts(e.left.e.left, FusedAxis(e.axis), e);
      n.axis := FusedAxis(n.axis);
      n.left := n.left.left;
      u := Relinked(t.(axis := n.axis), t.left.left, t.right, t.next);
      StandsParts(u);
    }
  }

  lemma StepParts(left: Left, axis: Axis, e: Expr)
    requires e.Step? && e.left.FromSet? && e.left.e.Step? && left == e.left.e.left
    ensures var f := Step(left, axis, e.test, e.preds);
            KindOf(f) == KindOf(e) && TypeOf(f) == TypeOf(e) && LeftOf(f) == LeftOf(e.left.e) && RightOf(f) == RightOf(e)
  {
  }

  method IsFusible(n: AstNode, ghost t: Shape, ghost e: Expr) returns (b: bool)
    requires Body(n, t, e) && e.Step?
    ensures b ==> e.left.FromSet? && e.left.e.Step?
    ensures FuseStep(e.left, e.axis, e.test, e.preds) ==
              if b then Step(e.left.e.left, FusedAxis(e.axis), e.test, e.preds) else e
  {
    hide Stands, Holds;
    StepLinks(t, e);
    b := false;
    if Fusible(n.axis) && n.left != null && n.left.kind == StepNode && n.left.axis == DescendantOrSelf && n.left.test == TestNode
       && n.left.right == null {
      b := IsPosInvStep(n, t, e.preds);
    }
  }

  /** What the links of a step lead to. */
  lemma StepLinks(t: Shape, e: Expr)
    requires t.At? && Stands(t) && HoldsExpr(t, e) && e.Step? && Holds(t.left, LeftOf(e)) && Holds(t.right, RightOf(e))
    ensures Apart(t) && Linked(t) && Stands(t.left) && Stands(t.right) && Stands(t.next)
    ensures t.left.At? ==> Apart(t.left) && Linked(t.left) && Stands(t.left.left)
    ensures t.left.At? <==> e.left.FromSet?
    ensures t.left.At? ==> t.left.kind == KindOf(e.left.e) && (t.left.kind == StepNode <==> e.left.e.Step?)
    ensures t.left.At? && e.left.e.Step? ==>
              && t.left.axis == e.left.e.axis && t.left.test == e.left.e.test && Holds(t.left.left, LeftOf(e.left.e))
              && (t.left.right.Empty? <==> e.left.e.preds.NoPred?)
  {
    HoldsParts(t.left, LeftOf(e));
    if e.left.FromSet? {
      OneHeld(t.left, e.left.e);
      if e.left.e.Step? { HoldsParts(t.left.right, RightOf(e.left.e)); }
    }
  }

  /** @name = 'text' and @name = $text look the attribute up. */
  method OptimizeCompare(n: AstNode, ghost t: Shape, ghost e: Expr) returns (ghost u: Shape)
    requires Body(n, t, e) && e.Binary?
    modifies n`kind
    ensures Within(u, t) && Body(n, u, AttrCompare(e.bop, e.l, e.r))
  {
    hide Stands, Holds;
    CompareLinks(t, e);
    u := t;
    if n.kind == BinaryNode(Equal) && n.left.kind == StepNode {
      var kind := n.right.kind;
      if n.left.axis == Attribute && n.left.test.TestName? && n.left.left == null && n.left.right == null
         && kind.LeafNode? && (kind.k.StringConst? || kind.k.VarString?) {
        n.kind := CompareAttrNode;
        u := t.(kind := CompareAttrNode);
        StandsParts(u);
      }
    }
  }

  /** What the links of a comparison lead to. */
  lemma CompareLinks(t: Shape, e: Expr)
    requires t.At? && Stands(t) && e.Binary? && Holds(t.left, LeftOf(e)) && Holds(t.right, RightOf(e))
    ensures Apart(t) && Linked(t) && Stands(t.left) && Stands(t.right) && Stands(t.next)
    ensures t.left.At? && Linked(t.left) && (t.left.kind == StepNode <==> e.l.Step?)
    ensures e.l.Step? ==>
              && t.left.axis == e.l.axis && t.left.test == e.l.test
              && (t.left.left.Empty? <==> e.l.left.FromContext?) && (t.left.right.Empty? <==> e.l.preds.NoPred?)
    ensures t.right.At? && Linked(t.right) && t.right.kind == KindOf(e.r)
  {
    OneHeld(t.left, e.l);
    OneHeld(t.right, e.r);
    HoldsParts(t.left.left, LeftOf(e.l));
    HoldsParts(t.left.right, RightOf(e.l));
  }

  /** translate() with two constants gets a lookup table. */
  method OptimizeTranslate(n: AstNode, ghost t: Shape, ghost e: Expr) returns (ghost u: Shape)
    requires Body(n, t, e) && e.Translate?
    requires e.from.Leaf? && e.from.k.StringConst? ==> 0 as char !in e.from.k.s
    requires e.to.Leaf? && e.to.k.StringConst? ==> 0 as char !in e.to.k.s
    modifies n`kind
    ensures Within(u, t) && Body(n, u, TableTranslate(e.subject, e.from, e.to))
  {
    hide Stands, Holds;
    StandsParts(t);
    var role := Arg(false, e.from, Arg(false, e.to, NoArg));
    HoldsParts(t.right, Exprs(role));
    StandsParts(t.right);
    HoldsParts(t.right.next, Exprs(role.next));
    StandsParts(t.right.next);
    u := t;
    var from, to := n.right.kind, n.right.next.kind;
    if from.LeafNode? && from.k.StringConst? && to.LeafNode? && to.k.StringConst? {
      var table := GenerateTable(from.k.s, to.k.s);
      if table.Some? {
        n.kind := TableNode(table.value);
        u := t.(kind := n.kind);
        StandsParts(u);
        TwoStrings(t.right, e.from, e.to);
      }
    }
  }

  lemma TwoStrings(t: Shape, from: Expr, to: Expr)
    requires Holds(t, Exprs(Arg(false, from, Arg(false, to, NoArg))))
    requires from.Leaf? && from.k.StringConst? && to.Leaf? && to.k.StringConst?
    ensures Holds(t, Strings(2))
  {
    HoldsParts(t, Exprs(Arg(false, from, Arg(false, to, NoArg))));
    HoldsParts(t.next, Exprs(Arg(false, to, NoArg)));
    HoldsParts(t.next.next, Nothing);
    HoldsParts(t.next, Strings(1));
    HoldsParts(t, Strings(2));
  }

  /** e with its parts optimised, but not yet e itself. */
  function PartsOptimized(e: Expr): Expr {
    match e
    case Leaf(_) => e
    case Unary(op, l) => Unary(op, Optimize(l))
    case Binary(op, l, r) => Binary(op, Optimize(l), Optimize(r))
    case Call(t, f, args) => Call(t, f, OptimizeArgs(args))
    case Translate(s, from, to) => Translate(Optimize(s), Optimize(from), Optimize(to))
    case TranslateTable(s, table) => TranslateTable(Optimize(s), table)
    case CompareAttr(name, r) => CompareAttr(name, Optimize(r))
    case Union(l, r) => Union(Optimize(l), Optimize(r))
    case Filter(l, p, kind) => Filter(Optimize(l), Optimize(p), kind)
    case Step(left, axis, test, preds) => Step(OptimizeLeft(left), axis, test, OptimizePreds(preds))
    case Id(l) => Id(Optimize(l))
  }

  lemma {:induction false} SameFlags(args: Args)
    ensures Flags(OptimizeArgs(args)) == Flags(args)
    decreases args
  {
    if args.Arg? { SameFlags(args.next); }
  }

  lemma PartsAgree(e: Expr)
    requires Parsed(e)
    ensures KindOf(PartsOptimized(e)) == KindOf(e) && TypeOf(PartsOptimized(e)) == TypeOf(e)
    ensures LeftOf(PartsOptimized(e)) == OptimizedRole(LeftOf(e))
    ensures RightOf(PartsOptimized(e)) == OptimizedRole(RightOf(e))
    ensures e.Filter? ==> e.kind == Default
  {
    assert OptimizeArgs(NoArg) == NoArg;
    match e
    case Unary(_, l) => OneOptimized(l);
    case Binary(_, l, r) => OneOptimized(l); OneOptimized(r);
    case Call(_, _, args) => SameFlags(args); if args.Arg? { OneOptimized(args.e); }
    case Translate(s, from, to) => OneOptimized(s); OneOptimized(to);
    case Union(l, r) => OneOptimized(l); OneOptimized(r);
    case Filter(l, p, _) => OneOptimized(l); OneOptimized(p);
    case Step(left, _, _, _) => if left.FromSet? { OneOptimized(left.e); }
    case Id(l) => OneOptimized(l);
    case _ =>
  }

  /** Optimising never makes a leaf of something else, so constants stay as they were parsed. */
  lemma ConstantsKept(e: Expr)
    requires Parsed(e) && e.Translate?
    ensures forall x :: (x == e.from || x == e.to) && Optimize(x).Leaf? && Optimize(x).k.StringConst? ==> 0 as char !in Optimize(x).k.s
  {
  }

  /** optimize_self for a node standing for an expression. */
  method OptimizeExpr(n: AstNode, ghost t: Shape, ghost e: Expr) returns (ghost u: Shape)
    requires Parsed(e) && Body(n, t, PartsOptimized(e)) && n.kind != PredicateNode
    modifies n
    ensures Within(u, t) && Body(n, u, Optimize(e))
  {
    hide Stands, Holds, Parsed;
    StandsParts(t);
    PartsAgree(e);
    u := t;
    if n.kind == FilterNode {
      u := OptimizePredicate(n, t, Optimize(e.pred));
    } else if n.kind == StepNode {
      u := OptimizeStep(n, t, PartsOptimized(e));
    } else if n.kind == TranslateNode {
      ConstantsKept(e);
      u := OptimizeTranslate(n, t, PartsOptimized(e));
    } else if n.kind.BinaryNode? {
      u := OptimizeCompare(n, t, PartsOptimized(e));
    }
  }

  // ---- optimize

  /** optimize_self. */
  method OptimizeSelf(n: AstNode, ghost t: Shape, ghost r: Role) returns (ghost u: Shape)
    requires Halfway(n, t, r) && ParsedRole(r)
    modifies n
    ensures Foot(u) <= Foot(t) && Is(n, u, OptimizedRole(r))
  {
    hide Stands, Holds, Parsed;
    StandsParts(t);
    if n.kind == PredicateNode {
      OneOptimized(r.preds.expr);
      u := OptimizePredicate(n, t, Optimize(r.preds.expr));
    } else {
      PartsAgree(r.args.e);
      u := OptimizeExpr(n, t, r.args.e);
    }
    HoldsParts(u, OptimizedRole(r));
  }

  /** optimize: everything the node links to, then the node itself. */
  method OptimizeTree(n: AstNode, ghost t: Shape, ghost r: Role) returns (ghost u: Shape)
    requires Is(n, t, r) && ParsedRole(r)
    modifies Foot(t)
    ensures Foot(u) <= Foot(t) && Is(n, u, OptimizedRole(r))
    decreases t
  {
    hide Stands, Holds, Parsed, LeftOf, RightOf, KindOf, TypeOf, Optimize;
    StandsParts(t);
    HoldsParts(t, r);
    PartsParsed(r);
    HoldsParts(t.left, LeftRole(r));
    HoldsParts(t.right, RightRole(r));
    HoldsParts(t.next, NextRole(r));
    ghost var left, right, next := t.left, t.right, t.next;
    if n.left != null { left := OptimizeTree(n.left, t.left, LeftRole(r)); }
    if n.right != null { right := OptimizeTree(n.right, t.right, RightRole(r)); }
    if n.next != null { next := OptimizeTree(n.next, t.next, NextRole(r)); }
    u := Relinked(t, left, right, next);
    StandsParts(u);
    u := OptimizeSelf(n, u, r);
  }

  /** The constructor of a query optimises its tree in place, and every answer stays the same. */
  method OptimizeQuery(root: AstNode, ghost t: Shape, ghost e: Expr) returns (ghost u: Shape)
    requires Is(root, t, One(e)) && Parsed(e)
    modifies Foot(t)
    ensures Foot(u) <= Foot(t) && Is(root, u, One(Optimize(e)))
    ensures forall env, c :: ValidEnv(env) ==> OperandOf(env, Optimize(e), c) == OperandOf(env, e, c)
  {
    hide Stands, Holds, Parsed, Optimize;
    OneParsed(e);
    OneOptimized(e);
    u := OptimizeTree(root, t, One(e));
    forall env, c | ValidEnv(env) ensures OperandOf(env, Optimize(e), c) == OperandOf(env, e, c) {
      OptimizedQuery(env, e, c);
    }
  }

  lemma PartsParsed(r: Role)
    requires ParsedRole(r) && !IsNothing(r)
    ensures ParsedRole(LeftRole(r)) && ParsedRole(RightRole(r)) && ParsedRole(NextRole(r))
  {
    match r
    case Exprs(args) => ExprParsed(args.e);
    case PredList(preds) => OneParsed(preds.expr);
  }

  lemma ExprParsed(e: Expr)
    requires Parsed(e)
    ensures ParsedRole(LeftOf(e)) && ParsedRole(RightOf(e))
  {
    assert ParsedRole(Nothing);
    match e
    case Unary(_, l) => OneParsed(l);
    case Binary(_, l, r) => OneParsed(l); OneParsed(r);
    case Call(_, _, args) => if args.Arg? { OneParsed(args.e); }
    case Translate(s, from, to) => OneParsed(s); OneParsed(to);
    case Union(l, r) => OneParsed(l); OneParsed(r);
    case Filter(l, p, _) => OneParsed(l); OneParsed(p);
    case Step(left, _, _, _) => if left.FromSet? { OneParsed(left.e); }
    case Id(l) => OneParsed(l);
    case _ =>
  }

  lemma OneParsed(e: Expr)
    ensures ParsedRole(One(e)) <==> Parsed(e)
  {
    assert ParsedArgs(NoArg);
  }
}
