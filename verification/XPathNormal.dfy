/** The optimiser misses nothing: what it returns has none of the forms it rewrites, and comes back unchanged the second time. */
module XPathNormal {
  import opened XmlTree
  import opened XPathAst
  import opened XPathRefine
  import opened XPathOptimize

  // ---- trees with nothing left to rewrite

  /** position() or last() occurs, not counting what stands inside steps and filters. */
  predicate Mentions(e: Expr) {
    match e
    case Leaf(k) => k == Position || k == Last
    case Unary(_, l) => Mentions(l)
    case Binary(_, l, r) => Mentions(l) || Mentions(r)
    case Call(_, _, args) => ArgsMention(args)
    case Translate(s, from, to) => Mentions(s) || Mentions(from) || Mentions(to)
    case TranslateTable(s, _) => Mentions(s)
    case CompareAttr(_, r) => Mentions(r)
    case Union(l, r) => Mentions(l) || Mentions(r)
    case Filter(_, _, _) => false
    case Step(_, _, _, _) => false
    case Id(l) => Mentions(l)
  }

  predicate ArgsMention(args: Args) {
    match args
    case NoArg => false
    case Arg(_, e, next) => Mentions(e) || ArgsMention(next)
  }

  /** A predicate that is a number rather than position() = number, with the most specific classification. */
  predicate NormalPred(p: Expr, kind: PredKind) {
    && !(p.Binary? && p.bop == Equal && p.l == Leaf(Position) && TypeOf(p.r) == NumberT)
    && (kind == ConstantOne <==> p == Leaf(NumberConst(Fin(1.0))))
    && (kind == Constant <==> p != Leaf(NumberConst(Fin(1.0))) && p.Leaf? && (p.k.NumberConst? || p.k.VarNumber? || p.k == Last))
    && (kind == PosInv <==> TypeOf(p) != NumberT && !Mentions(p))
  }

  predicate AllPosInv(preds: Preds) {
    preds.NoPred? || (preds.kind == PosInv && AllPosInv(preds.next))
  }

  predicate SevenBit(s: string) {
    forall c :: c in s ==> c < 128 as char
  }

  /** descendant-or-self::node() without predicates. */
  predicate DoubleSlash(left: Left) {
    left.FromSet? && left.e.Step? && left.e.axis == DescendantOrSelf && left.e.test == TestNode && left.e.preds == NoPred
  }

  predicate Normal(e: Expr) {
    match e
    case Leaf(_) => true
    case Unary(_, l) => Normal(l)
    case Binary(op, l, r) =>
      && Normal(l) && Normal(r)
      && !(op == Equal && l.Step? && l.left == FromContext && l.axis == Attribute && l.test.TestName? && l.preds == NoPred
           && r.Leaf? && (r.k.StringConst? || r.k.VarString?))
    case Call(_, _, args) => NormalArgs(args)
    case Translate(s, from, to) =>
      && Normal(s) && Normal(from) && Normal(to)
      && !(from.Leaf? && from.k.StringConst? && to.Leaf? && to.k.StringConst? && SevenBit(from.k.s)
           && SevenBit(if |from.k.s| <= |to.k.s| then to.k.s[..|from.k.s|] else to.k.s))
    case TranslateTable(s, _) => Normal(s)
    case CompareAttr(_, r) => Normal(r)
    case Union(l, r) => Normal(l) && Normal(r)
    case Filter(l, p, kind) => Normal(l) && Normal(p) && NormalPred(p, kind)
    case Step(left, axis, _, preds) =>
      && (left.FromSet? ==> Normal(left.e)) && NormalPreds(preds)
      && !(DoubleSlash(left) && axis in {Child, Self, Descendant, DescendantOrSelf} && AllPosInv(preds))
    case Id(l) => Normal(l)
  }

  predicate NormalPreds(preds: Preds) {
    match preds
    case NoPred => true
    case Pred(p, kind, next) => Normal(p) && NormalPred(p, kind) && NormalPreds(next)
  }

  predicate NormalArgs(args: Args) {
    match args
    case NoArg => true
    case Arg(_, e, next) => Normal(e) && NormalArgs(next)
  }

  // ---- the rules in these terms

  lemma {:induction false} PosInvIs(e: Expr)
    ensures PosInvExpr(e) <==> !Mentions(e)
  {
    match e
    case Leaf(_) =>
    case Unary(_, l) => PosInvIs(l);
    case Binary(_, l, r) => PosInvIs(l); PosInvIs(r);
    case Call(_, _, args) => PosInvArgsIs(args);
    case Translate(s, from, to) => PosInvIs(s); PosInvIs(from); PosInvIs(to);
    case TranslateTable(s, _) => PosInvIs(s);
    case CompareAttr(_, r) => PosInvIs(r);
    case Union(l, r) => PosInvIs(l); PosInvIs(r);
    case Id(l) => PosInvIs(l);
    case _ =>
  }

  lemma {:induction false} PosInvArgsIs(args: Args)
    ensures PosInvArgs(args) <==> !ArgsMention(args)
  {
    match args
    case NoArg =>
    case Arg(_, e, next) => PosInvIs(e); PosInvArgsIs(next);
  }

  /** A classification is the most specific one exactly if it is the one the optimiser writes. */
  lemma KindIs(p: Expr, kind: PredKind)
    ensures NormalPred(p, kind) <==> DropPosition(p) == p && kind == Classify(p)
  {
    PosInvIs(p);
    hide PosInvExpr, Mentions;
    DropsOnce(p);
  }

  lemma DropsOnce(p: Expr)
    ensures DropPosition(p) == p <==> !(p.Binary? && p.bop == Equal && p.l == Leaf(Position) && TypeOf(p.r) == NumberT)
    ensures DropPosition(DropPosition(p)) == DropPosition(p)
  {
  }

  lemma {:induction false} PosInvStepIs(preds: Preds)
    ensures PosInvStep(preds) <==> AllPosInv(preds)
  {
    if preds.Pred? { PosInvStepIs(preds.next); }
  }

  lemma FitsIs(from: string, to: string)
    ensures TableFits(from, to) <==> SevenBit(from) && SevenBit(if |from| <= |to| then to[..|from|] else to)
  {
    var t := if |from| <= |to| then to[..|from|] else to;
    assert forall k :: 0 <= k < |t| ==> t[k] == to[k];
    if TableFits(from, to) {
      assert forall k :: 0 <= k < |from| ==> from[k] < 128 as char;
      assert forall k :: 0 <= k < |t| ==> t[k] < 128 as char;
    } else {
      var k :| 0 <= k < |from| && !(from[k] as nat < 128 && (k < |to| ==> to[k] as nat < 128));
      if from[k] as nat >= 128 { assert from[k] in from; } else { assert t[k] in t; }
    }
  }

  lemma UnderDoubleSlash(left: Left)
    requires DoubleSlash(left) && Normal(left.e)
    ensures !DoubleSlash(left.e.left) && (left.e.left.FromSet? ==> Normal(left.e.left.e))
  {
  }

  lemma StepIsNormal(left: Left, axis: Axis, test: NodeTest, preds: Preds)
    requires (left.FromSet? ==> Normal(left.e)) && NormalPreds(preds)
    requires !(DoubleSlash(left) && axis in {Child, Self, Descendant, DescendantOrSelf} && AllPosInv(preds))
    ensures Normal(Step(left, axis, test, preds))
  {
  }

  /** Fusing leaves nothing to fuse, where the left operand has nothing to fuse itself. */
  lemma FusedIsNormal(left: Left, axis: Axis, test: NodeTest, preds: Preds)
    requires (left.FromSet? ==> Normal(left.e)) && NormalPreds(preds)
    ensures Normal(FuseStep(left, axis, test, preds))
  {
    PosInvStepIs(preds);
    hide Normal, NormalPreds;
    if DoubleSlash(left) && Fusible(axis) && PosInvStep(preds) {
      UnderDoubleSlash(left);
      StepIsNormal(left.e.left, FusedAxis(axis), test, preds);
    } else {
      StepIsNormal(left, axis, test, preds);
    }
  }

  // ---- the optimiser

  /** Whatever tree the parser built, nothing that the optimiser knows how to rewrite is left in it. */
  lemma {:induction false} OptimizeFinishes(e: Expr)
    ensures Normal(Optimize(e))
  {
    match e
    case Leaf(_) =>
    case Unary(_, l) => OptimizeFinishes(l);
    case Binary(_, l, r) => OptimizeFinishes(l); OptimizeFinishes(r);
    case Call(_, _, args) => ArgsFinish(args);
    case Translate(s, from, to) =>
      OptimizeFinishes(s);
      OptimizeFinishes(from);
      OptimizeFinishes(to);
      TableIsNormal(Optimize(s), Optimize(from), Optimize(to));
    case TranslateTable(s, _) => OptimizeFinishes(s);
    case CompareAttr(_, r) => OptimizeFinishes(r);
    case Union(l, r) => OptimizeFinishes(l); OptimizeFinishes(r);
    case Filter(l, p, _) =>
      OptimizeFinishes(l);
      OptimizeFinishes(p);
      PredIsNormal(Optimize(p));
    case Step(left, axis, test, preds) =>
      if left.FromSet? { OptimizeFinishes(left.e); }
      PredsFinish(preds);
      FusedIsNormal(OptimizeLeft(left), axis, test, OptimizePreds(preds));
    case Id(l) => OptimizeFinishes(l);
  }

  lemma PredIsNormal(p: Expr)
    requires Normal(p)
    ensures Normal(DropPosition(p)) && NormalPred(DropPosition(p), Classify(DropPosition(p)))
  {
    DropsOnce(p);
    KindIs(DropPosition(p), Classify(DropPosition(p)));
    hide Classify;
  }

  lemma TableIsNormal(s: Expr, from: Expr, to: Expr)
    requires Normal(s) && Normal(from) && Normal(to)
    ensures Normal(TableTranslate(s, from, to))
  {
    if from.Leaf? && from.k.StringConst? && to.Leaf? && to.k.StringConst? { FitsIs(from.k.s, to.k.s); }
  }

  lemma {:induction false} PredsFinish(preds: Preds)
    ensures NormalPreds(OptimizePreds(preds))
  {
    match preds
    case NoPred =>
    case Pred(p, _, next) =>
      OptimizeFinishes(p);
      PredIsNormal(Optimize(p));
      PredsFinish(next);
  }

  lemma {:induction false} ArgsFinish(args: Args)
    ensures NormalArgs(OptimizeArgs(args))
  {
    match args
    case NoArg =>
    case Arg(_, e, next) => OptimizeFinishes(e); ArgsFinish(next);
  }

  /** A tree with nothing left to rewrite is left alone. */
  lemma {:induction false} NormalStays(e: Expr)
    requires Normal(e)
    ensures Optimize(e) == e
  {
    match e
    case Leaf(_) =>
    case Unary(_, l) => NormalStays(l);
    case Binary(_, l, r) => NormalStays(l); NormalStays(r);
    case Call(_, _, args) => ArgsStay(args);
    case Translate(s, from, to) =>
      NormalStays(s);
      NormalStays(from);
      NormalStays(to);
      if from.Leaf? && from.k.StringConst? && to.Leaf? && to.k.StringConst? { FitsIs(from.k.s, to.k.s); }
    case TranslateTable(s, _) => NormalStays(s);
    case CompareAttr(_, r) => NormalStays(r);
    case Union(l, r) => NormalStays(l); NormalStays(r);
    case Filter(l, p, kind) => NormalStays(l); NormalStays(p); KindIs(p, kind);
    case Step(left, _, _, preds) =>
      if left.FromSet? { NormalStays(left.e); }
      PredsStay(preds);
      PosInvStepIs(preds);
    case Id(l) => NormalStays(l);
  }

  lemma {:induction false} PredsStay(preds: Preds)
    requires NormalPreds(preds)
    ensures OptimizePreds(preds) == preds
  {
    match preds
    case NoPred =>
    case Pred(p, kind, next) => NormalStays(p); KindIs(p, kind); PredsStay(next);
  }

  lemma {:induction false} ArgsStay(args: Args)
    requires NormalArgs(args)
    ensures OptimizeArgs(args) == args
  {
    match args
    case NoArg =>
    case Arg(_, e, next) => NormalStays(e); ArgsStay(next);
  }

  /** Optimising twice is optimising once; a tree changes exactly if it has something to rewrite. */
  lemma OptimizeOnce(e: Expr)
    ensures Optimize(Optimize(e)) == Optimize(e)
    ensures Optimize(e) == e <==> Normal(e)
  {
    OptimizeFinishes(e);
    NormalStays(Optimize(e));
    if Normal(e) { NormalStays(e); }
  }
}
