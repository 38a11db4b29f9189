/**
 The precedence-climbing parser for XPath operators (XPath 1.0, sections 3.1 to 3.5).

 A token Operand stands for a whole path, filter or primary expression without operators outside brackets.
 */
module OperatorParser {
  import opened Options

  datatype BinOp =
    | Or | And | Equal | NotEqual | Less | Greater | LessOrEqual | GreaterOrEqual
    | Add | Subtract | Multiply | Divide | Mod | Union

  datatype Token = Operand(k: nat, nodeSet: bool) | Minus | Op(op: BinOp) | Open | Close

  datatype Tree = Atom(k: nat, nodeSet: bool) | Negate(e: Tree) | Binary(op: BinOp, l: Tree, r: Tree)

  /** The levels of the grammar, loosest first: OrExpr, AndExpr, EqualityExpr, RelationalExpr, AdditiveExpr, MultiplicativeExpr, UnionExpr. */
  const Levels: seq<set<BinOp>> :=
    [{Or}, {And}, {Equal, NotEqual}, {Less, Greater, LessOrEqual, GreaterOrEqual}, {Add, Subtract}, {Multiply, Divide, Mod}, {Union}]

  /** binary_op_t's precedence: the level of the grammar that has the operator. */
  function Prec(op: BinOp): (p: nat)
    ensures 1 <= p <= |Levels| && op in Levels[p - 1]
    ensures forall q :: 0 <= q < |Levels| && q != p - 1 ==> op !in Levels[q]
    ensures p == |Levels| <==> op == Union
  {
    match op
    case Or => 1
    case And => 2
    case Equal => 3
    case NotEqual => 3
    case Less => 4
    case Greater => 4
    case LessOrEqual => 4
    case GreaterOrEqual => 4
    case Add => 5
    case Subtract => 5
    case Multiply => 6
    case Divide => 6
    case Mod => 6
    case Union => 7
  }

  /** binary_op_t::parse; a minus sign is a subtraction here. */
  function OpAt(ts: seq<Token>, pos: nat): Option<BinOp> {
    if pos >= |ts| then None
    else match ts[pos]
      case Minus => Some(Subtract)
      case Op(op) => if op == Subtract then None else Some(op)
      case _ => None
  }

  predicate IsNodeSet(t: Tree) {
    match t
    case Atom(_, nodeSet) => nodeSet
    case Negate(_) => false
    case Binary(op, _, _) => op == Union
  }

  const DepthLimit: nat := 1024

  datatype Result = Error | Ok(tree: Tree, pos: nat, depth: nat)

  // ---- what the parser computes

  /** parse_path_or_unary_expression. */
  function UnaryOf(ts: seq<Token>, pos: nat, depth: nat): (r: Result)
    requires pos <= |ts|
    ensures r.Ok? ==> pos < r.pos <= |ts|
    decreases |ts| - pos, 0
  {
    if pos == |ts| then Error
    else match ts[pos]
      case Operand(k, nodeSet) => Ok(Atom(k, nodeSet), pos + 1, depth)
      case Open =>
        var e := ExpressionOf(ts, pos + 1, depth, 0);
        if e.Error? || e.pos == |ts| || ts[e.pos] != Close then Error else Ok(e.tree, e.pos + 1, e.depth)
      case Minus =>
        var e := ExpressionOf(ts, pos + 1, depth, 7);
        if e.Error? then Error else Ok(Negate(e.tree), e.pos, e.depth)
      case _ => Error
  }

  /** parse_expression; the depth is restored at the end. */
  function ExpressionOf(ts: seq<Token>, pos: nat, depth: nat, limit: nat): (r: Result)
    requires pos <= |ts|
    ensures r.Ok? ==> pos < r.pos <= |ts|
    decreases |ts| - pos, 1
  {
    if depth + 1 > DepthLimit then Error
    else
      var n := UnaryOf(ts, pos, depth + 1);
      if n.Error? then Error
      else
        var e := RestOf(ts, n.pos, n.depth, n.tree, limit);
        if e.Error? then Error else Ok(e.tree, e.pos, depth)
  }

  /** Whether an operator of at least this precedence follows. */
  predicate Follows(ts: seq<Token>, pos: nat, limit: nat) {
    OpAt(ts, pos).Some? && Prec(OpAt(ts, pos).value) >= limit
  }

  predicate TypesFit(op: BinOp, l: Tree, r: Tree) {
    op == Union ==> IsNodeSet(l) && IsNodeSet(r)
  }

  /** parse_expression_rec: the outer loop, as long as an operator of at least the limit's precedence follows. */
  function RestOf(ts: seq<Token>, pos: nat, depth: nat, lhs: Tree, limit: nat): (r: Result)
    requires pos <= |ts|
    ensures r.Ok? ==> pos <= r.pos <= |ts| && (Follows(ts, pos, limit) ==> pos < r.pos)
    decreases |ts| - pos, 3
  {
    if !Follows(ts, pos, limit) then Ok(lhs, pos, depth)
    else if depth + 1 > DepthLimit then Error
    else
      var op := OpAt(ts, pos).value;
      var n := UnaryOf(ts, pos + 1, depth + 1);
      if n.Error? then Error
      else
        var rhs := TighterOf(ts, n.pos, n.depth, n.tree, Prec(op));
        if rhs.Error? || !TypesFit(op, lhs, rhs.tree) then Error
        else RestOf(ts, rhs.pos, rhs.depth, Binary(op, lhs, rhs.tree), limit)
  }

  /** The inner loop: tighter operators are taken into the right operand. */
  function TighterOf(ts: seq<Token>, pos: nat, depth: nat, rhs: Tree, prec: nat): (r: Result)
    requires pos <= |ts|
    ensures r.Ok? ==> pos <= r.pos <= |ts|
    decreases |ts| - pos, 4
  {
    if !Follows(ts, pos, prec + 1) then Ok(rhs, pos, depth)
    else
      var e := RestOf(ts, pos, depth, rhs, Prec(OpAt(ts, pos).value));
      if e.Error? then Error else TighterOf(ts, e.pos, e.depth, e.tree, prec)
  }

  // ---- the parser

  class Parser {
    const tokens: seq<Token>
    var pos: nat
    var depth: nat

    constructor (tokens: seq<Token>)
      ensures this.tokens == tokens && pos == 0 && depth == 0
    {
      this.tokens := tokens;
      pos, depth := 0, 0;
    }

    /** The parser's position and depth after a call, or an error. */
    predicate Gave(t: Option<Tree>, r: Result)
      reads this
    {
      if r.Error? then t.None? else t == Some(r.tree) && pos == r.pos && depth == r.depth
    }

    /** parse: the whole query must be used up. */
    method Parse() returns (t: Option<Tree>)
      requires pos == 0 && depth == 0
      modifies this
      ensures t == ParseOf(tokens)
      ensures forall u :: t == Some(u) <==> SpellsWithin(tokens, u)
    {
      hide SpellsWithin;
      t := ParseExpression(0);
      if t.Some? && pos != |tokens| { t := None; }
      forall u ensures t == Some(u) <==> SpellsWithin(tokens, u) { ParsesExactly(tokens, u); }
    }

    method ParseUnary() returns (t: Option<Tree>)
      requires pos <= |tokens|
      modifies this
      ensures Gave(t, UnaryOf(tokens, old(pos), old(depth))) && (t.Some? ==> pos <= |tokens|)
      decreases |tokens| - pos, 0
    {
      if pos == |tokens| { return None; }
      match tokens[pos]
      case Operand(k, nodeSet) =>
        pos := pos + 1;
        t := Some(Atom(k, nodeSet));
      case Open =>
        pos := pos + 1;
        t := ParseExpression(0);
        if t.None? || pos == |tokens| || tokens[pos] != Close { return None; }
        pos := pos + 1;
      case Minus =>
        pos := pos + 1;
        t := ParseExpression(7);
        if t.Some? { t := Some(Negate(t.value)); }
      case _ => t := None;
    }

    method ParseExpression(limit: nat) returns (t: Option<Tree>)
      requires pos <= |tokens|
      modifies this
      ensures Gave(t, ExpressionOf(tokens, old(pos), old(depth), limit)) && (t.Some? ==> pos <= |tokens|)
      decreases |tokens| - pos, 1
    {
      var oldDepth := depth;
      depth := depth + 1;
      if depth > DepthLimit { return None; }
      t := ParseUnary();
      if t.None? { return; }
      t := ParseRest(t.value, limit);
      if t.None? { return; }
      depth := oldDepth;
    }

    method ParseRest(first: Tree, limit: nat) returns (t: Option<Tree>)
      requires pos <= |tokens|
      modifies this
      ensures Gave(t, RestOf(tokens, old(pos), old(depth), first, limit)) && (t.Some? ==> pos <= |tokens|)
      decreases |tokens| - pos, 3
    {
      hide UnaryOf, TighterOf, ExpressionOf;
      var lhs := first;
      ghost var all := RestOf(tokens, pos, depth, first, limit);
      while Follows(tokens, pos, limit)
        invariant old(pos) <= pos <= |tokens| && all == RestOf(tokens, pos, depth, lhs, limit)
        decreases |tokens| - pos
      {
        var op := OpAt(tokens, pos).value;
        pos := pos + 1;
        depth := depth + 1;
        if depth > DepthLimit { return None; }
        t := ParseUnary();
        if t.None? { return; }
        t := ParseTighter(t.value, Prec(op));
        if t.None? || !TypesFit(op, lhs, t.value) { return None; }
        lhs := Binary(op, lhs, t.value);
      }
      t := Some(lhs);
    }

    /** The loop inside parse_expression_rec that takes tighter operators into the right operand. */
    method ParseTighter(first: Tree, prec: nat) returns (t: Option<Tree>)
      requires pos <= |tokens|
      modifies this
      ensures Gave(t, TighterOf(tokens, old(pos), old(depth), first, prec)) && (t.Some? ==> pos <= |tokens|)
      decreases |tokens| - pos, 4
    {
      var rhs := first;
      ghost var all := TighterOf(tokens, pos, depth, first, prec);
      while Follows(tokens, pos, prec + 1)
        invariant old(pos) <= pos <= |tokens| && all == TighterOf(tokens, pos, depth, rhs, prec)
        decreases |tokens| - pos
      {
        t := ParseRest(rhs, Prec(OpAt(tokens, pos).value));
        if t.None? { return; }
        rhs := t.value;
      }
      t := Some(rhs);
    }
  }

  // ---- printing with no more brackets than needed

  function OpToken(op: BinOp): Token {
    if op == Subtract then Minus else Op(op)
  }

  // ---- texts

  /** Text as the grammar builds it: an operand, something in brackets, a minus sign before something, or an operator between. */
  datatype Syntax = Plain(k: nat, nodeSet: bool) | Bracket(e: Syntax) | Signed(e: Syntax) | Infix(op: BinOp, l: Syntax, r: Syntax)

  function Tokens(c: Syntax): (ts: seq<Token>)
    ensures ts != []
  {
    match c
    case Plain(k, nodeSet) => [Operand(k, nodeSet)]
    case Bracket(e) => [Open] + Tokens(e) + [Close]
    case Signed(e) => [Minus] + Tokens(e)
    case Infix(op, l, r) => Tokens(l) + [OpToken(op)] + Tokens(r)
  }

  /** The tree a text stands for: brackets only group. */
  function TreeOf(c: Syntax): Tree {
    match c
    case Plain(k, nodeSet) => Atom(k, nodeSet)
    case Bracket(e) => TreeOf(e)
    case Signed(e) => Negate(TreeOf(e))
    case Infix(op, l, r) => Binary(op, TreeOf(l), TreeOf(r))
  }

  /** The productions of sections 3.1 to 3.5, from the loosest on. */
  datatype Production =
    | OrExpr | AndExpr | EqualityExpr | RelationalExpr | AdditiveExpr | MultiplicativeExpr | UnaryExpr | UnionExpr | PathExpr

  /** The operators a production introduces between itself and the next one. */
  function OperatorsOf(x: Production): set<BinOp> {
    match x
    case OrExpr => {Or}
    case AndExpr => {And}
    case EqualityExpr => {Equal, NotEqual}
    case RelationalExpr => {Less, Greater, LessOrEqual, GreaterOrEqual}
    case AdditiveExpr => {Add, Subtract}
    case MultiplicativeExpr => {Multiply, Divide, Mod}
    case UnaryExpr => {}
    case UnionExpr => {Union}
    case PathExpr => {}
  }

  function Next(x: Production): Production {
    match x
    case OrExpr => AndExpr
    case AndExpr => EqualityExpr
    case EqualityExpr => RelationalExpr
    case RelationalExpr => AdditiveExpr
    case AdditiveExpr => MultiplicativeExpr
    case MultiplicativeExpr => UnaryExpr
    case UnaryExpr => UnionExpr
    case UnionExpr => PathExpr
    case PathExpr => PathExpr
  }

  /**
   The grammar: a production derives what the next one does, a minus sign before itself (UnaryExpr), itself followed by one
   of its operators and the next production, or an operand or a bracketed OrExpr (PathExpr). Unions are of node sets.
   */
  predicate Derives(x: Production, c: Syntax)
    decreases c, Remaining(x)
  {
    || (x != PathExpr && Derives(Next(x), c))
    || (x == UnaryExpr && c.Signed? && Derives(UnaryExpr, c.e))
    || (c.Infix? && c.op in OperatorsOf(x) && Derives(x, c.l) && Derives(Next(x), c.r)
        && (c.op == Union ==> IsNodeSet(TreeOf(c.l)) && IsNodeSet(TreeOf(c.r))))
    || (x == PathExpr && (c.Plain? || (c.Bracket? && Derives(OrExpr, c.e))))
  }

  function Remaining(x: Production): nat {
    match x
    case OrExpr => 8
    case AndExpr => 7
    case EqualityExpr => 6
    case RelationalExpr => 5
    case AdditiveExpr => 4
    case MultiplicativeExpr => 3
    case UnaryExpr => 2
    case UnionExpr => 1
    case PathExpr => 0
  }

  // ---- the grammar by precedences

  /** An operator on top binds at least as tightly as m. */
  predicate AtLeast(c: Syntax, m: nat) {
    c.Infix? ==> Prec(c.op) >= m
  }

  /** Each operator stands between operands that bind tightly enough, and unions between node sets. */
  predicate Sound(c: Syntax) {
    match c
    case Plain(_, _) => true
    case Bracket(e) => Sound(e)
    case Signed(e) => Sound(e) && AtLeast(e, 7)
    case Infix(op, l, r) =>
      Sound(l) && Sound(r) && AtLeast(l, Prec(op)) && AtLeast(r, Prec(op) + 1) && TypesFit(op, TreeOf(l), TreeOf(r))
  }

  /** The parser's number for a production. */
  function Limit(x: Production): nat {
    match x
    case OrExpr => 1
    case AndExpr => 2
    case EqualityExpr => 3
    case RelationalExpr => 4
    case AdditiveExpr => 5
    case MultiplicativeExpr => 6
    case UnaryExpr => 7
    case UnionExpr => 7
    case PathExpr => 8
  }

  lemma {:induction false} DerivedIsSound(x: Production, c: Syntax)
    requires Derives(x, c)
    ensures Sound(c) && AtLeast(c, Limit(x))
    decreases c, Remaining(x)
  {
    if x != PathExpr && Derives(Next(x), c) {
      DerivedIsSound(Next(x), c);
    } else {
      match c
      case Plain(_, _) =>
      case Bracket(e) => DerivedIsSound(OrExpr, e);
      case Signed(e) => DerivedIsSound(UnaryExpr, e);
      case Infix(op, l, r) =>
        DerivedIsSound(x, l);
        DerivedIsSound(Next(x), r);
    }
  }

  /** A sound text is derived by every production that is loose enough; a signed one only from UnaryExpr up. */
  lemma {:induction false} SoundIsDerived(x: Production, c: Syntax)
    requires Sound(c) && AtLeast(c, Limit(x)) && (c.Signed? ==> x != UnionExpr && x != PathExpr)
    ensures Derives(x, c)
    decreases c, Remaining(x)
  {
    if c.Infix? && c.op in OperatorsOf(x) {
      SoundIsDerived(x, c.l);
      SoundIsDerived(Next(x), c.r);
    } else if x == PathExpr {
      if c.Bracket? { SoundIsDerived(OrExpr, c.e); }
    } else if x == UnaryExpr && c.Signed? {
      SoundIsDerived(UnaryExpr, c.e);
    } else {
      SoundIsDerived(Next(x), c);
    }
  }

  // ---- printing with no more brackets than needed

  /** The text for t where an operand of precedence at least m is wanted: brackets only where the grammar needs them. */
  function Minimal(t: Tree, m: nat): Syntax {
    match t
    case Atom(k, nodeSet) => Plain(k, nodeSet)
    case Negate(e) => Signed(Minimal(e, 7))
    case Binary(op, l, r) =>
      var c := Infix(op, Minimal(l, Prec(op)), Minimal(r, Prec(op) + 1));
      if Prec(op) < m then Bracket(c) else c
  }

  function Printed(t: Tree, m: nat): (ts: seq<Token>)
    ensures ts != []
  {
    Tokens(Minimal(t, m))
  }

  /** Unions are of node sets. */
  predicate WellTyped(t: Tree) {
    match t
    case Atom(_, _) => true
    case Negate(e) => WellTyped(e)
    case Binary(op, l, r) => WellTyped(l) && WellTyped(r) && TypesFit(op, l, r)
  }

  /** Tree and length of the leftmost operand in a text. */
  function Head(c: Syntax): Tree {
    if c.Infix? then Head(c.l) else TreeOf(c)
  }

  function HeadLength(c: Syntax): (n: nat)
    ensures 0 < n <= |Tokens(c)|
  {
    if c.Infix? then HeadLength(c.l) else |Tokens(c)|
  }

  /** Operators on the top level of a text: outside brackets and not under a minus sign. */
  function Operators(c: Syntax): nat {
    if c.Infix? then Operators(c.l) + 1 + Operators(c.r) else 0
  }

  function Max(a: nat, b: nat): nat {
    if a < b then b else a
  }

  /** How much depth parsing a text takes: one per operator passed and one per bracket or minus sign entered. */
  function Needs(c: Syntax): nat {
    match c
    case Plain(_, _) => 0
    case Bracket(e) => 1 + Needs(e)
    case Signed(e) => 1 + Needs(e)
    case Infix(_, l, r) => Max(Needs(l), Operators(l) + 1 + Needs(r))
  }

  /** The text stands at pos. */
  predicate Stands(ts: seq<Token>, pos: nat, c: Syntax) {
    pos + |Tokens(c)| <= |ts| && ts[pos..pos + |Tokens(c)|] == Tokens(c)
  }

  /** Where the text ends. */
  function End(pos: nat, c: Syntax): (e: nat)
    ensures pos < e
  {
    pos + |Tokens(c)|
  }

  /** What may follow a text: no operator that would take its last operand away. */
  function Hold(c: Syntax): nat {
    if c.Signed? then 6 else if c.Infix? then Prec(c.op) else 7
  }

  predicate Delimited(ts: seq<Token>, pos: nat, c: Syntax) {
    !Follows(ts, pos + |Tokens(c)|, Hold(c) + 1)
  }

  lemma SplitAt(ts: seq<Token>, pos: nat, a: seq<Token>, b: seq<Token>)
    requires pos + |a + b| <= |ts| && ts[pos..pos + |a + b|] == a + b
    ensures ts[pos..pos + |a|] == a && ts[pos + |a|..pos + |a| + |b|] == b
  {
    var w := ts[pos..pos + |a + b|];
    assert ts[pos..pos + |a|] == w[..|a|] == a;
    assert ts[pos + |a|..pos + |a| + |b|] == w[|a|..] == b;
  }

  lemma InfixTokens(c: Syntax)
    requires c.Infix?
    ensures Tokens(c) == Tokens(c.l) + ([OpToken(c.op)] + Tokens(c.r))
  {
    assert Tokens(c) == Tokens(c.l) + [OpToken(c.op)] + Tokens(c.r);
  }

  /** The pieces of an operator between its operands. */
  lemma InfixAt(ts: seq<Token>, pos: nat, c: Syntax)
    requires Stands(ts, pos, c) && c.Infix?
    ensures var p := Prec(c.op); var q := End(pos, c.l);
            && Stands(ts, pos, c.l) && q < |ts| && OpAt(ts, q) == Some(c.op)
            && Stands(ts, q + 1, c.r) && End(pos, c) == End(q + 1, c.r)
  {
    var p := Prec(c.op);
    var a, b := Tokens(c.l), Tokens(c.r);
    InfixTokens(c);
    hide Tokens, Prec;
    SplitAt(ts, pos, a, [OpToken(c.op)] + b);
    SplitAt(ts, pos + |a|, [OpToken(c.op)], b);
    assert ts[pos + |a|] == ts[pos + |a|..pos + |a| + 1][0] == OpToken(c.op);
  }

  /** No operator takes an operand away from its neighbour. */
  lemma InfixDelimited(ts: seq<Token>, pos: nat, c: Syntax)
    requires c.Infix? && Sound(c) && Delimited(ts, pos, c)
    requires var q := End(pos, c.l); OpAt(ts, q) == Some(c.op) && End(pos, c) == End(q + 1, c.r)
    ensures var p := Prec(c.op); var q := End(pos, c.l);
            && Delimited(ts, pos, c.l) && Delimited(ts, q + 1, c.r) && !Follows(ts, End(pos, c), p + 1)
  {
    hide Tokens, OpAt;
  }

  lemma NegateAt(ts: seq<Token>, pos: nat, c: Syntax)
    requires Stands(ts, pos, c) && c.Signed? && Sound(c) && Delimited(ts, pos, c)
    ensures pos < |ts| && ts[pos] == Minus && Stands(ts, pos + 1, c.e) && Delimited(ts, pos + 1, c.e)
    ensures |Tokens(c)| == 1 + |Tokens(c.e)|
    ensures !Follows(ts, pos + |Tokens(c)|, 7)
  {
    SplitAt(ts, pos, [Minus], Tokens(c.e));
    assert ts[pos] == ts[pos..pos + 1][0];
  }

  lemma BracketsAt(ts: seq<Token>, pos: nat, c: Syntax)
    requires Stands(ts, pos, c) && c.Bracket?
    ensures pos < |ts| && ts[pos] == Open && Stands(ts, pos + 1, c.e) && Delimited(ts, pos + 1, c.e)
    ensures |Tokens(c)| == 2 + |Tokens(c.e)|
    ensures ts[pos + 1 + |Tokens(c.e)|] == Close
  {
    var b := Tokens(c.e);
    assert Tokens(c) == [Open] + (b + [Close]);
    SplitAt(ts, pos, [Open], b + [Close]);
    SplitAt(ts, pos + 1, b, [Close]);
    assert ts[pos] == ts[pos..pos + 1][0];
    assert ts[pos + 1 + |b|] == ts[pos + 1 + |b|..pos + 1 + |b| + 1][0];
  }

  /** The text stands at pos, is well typed, ends where it should, and the depth suffices for it. */
  predicate Fits(ts: seq<Token>, pos: nat, depth: nat, c: Syntax) {
    pos <= |ts| && Stands(ts, pos, c) && Sound(c) && Delimited(ts, pos, c) && depth + Needs(c) <= DepthLimit
  }

  /** Where its leftmost operand ends. */
  function HeadEnd(pos: nat, c: Syntax): (e: nat)
    ensures pos < e
  {
    pos + HeadLength(c)
  }

  lemma FitsInfix(ts: seq<Token>, pos: nat, depth: nat, c: Syntax)
    requires Fits(ts, pos, depth, c) && c.Infix?
    ensures var p := Prec(c.op); var q := End(pos, c.l); var d := depth + Operators(c.l) + 1;
            && Fits(ts, pos, depth, c.l) && q < |ts| && OpAt(ts, q) == Some(c.op)
            && d <= DepthLimit && Fits(ts, q + 1, d, c.r)
            && AtLeast(c.l, p) && AtLeast(c.r, p + 1)
            && End(pos, c) == End(q + 1, c.r) && !Follows(ts, End(pos, c), p + 1) && TypesFit(c.op, TreeOf(c.l), TreeOf(c.r))
            && Head(c) == Head(c.l) && HeadEnd(pos, c) == HeadEnd(pos, c.l)
            && depth + Operators(c) == d + Operators(c.r)
  {
    InfixCounts(c);
    hide Needs, Operators, Head, HeadLength, Stands, Delimited, Tokens, OpAt, Follows, Prec, End;
    InfixAt(ts, pos, c);
    InfixDelimited(ts, pos, c);
  }

  lemma InfixCounts(c: Syntax)
    requires c.Infix?
    ensures var p := Prec(c.op);
            && Needs(c.l) <= Needs(c) && Operators(c.l) + 1 + Needs(c.r) <= Needs(c)
            && Operators(c) == Operators(c.l) + 1 + Operators(c.r)
            && Head(c) == Head(c.l) && HeadLength(c) == HeadLength(c.l)
  {
  }

  lemma FitsSimple(ts: seq<Token>, pos: nat, depth: nat, c: Syntax)
    requires Fits(ts, pos, depth, c) && !c.Infix?
    ensures Head(c) == TreeOf(c) && HeadEnd(pos, c) == End(pos, c) && Operators(c) == 0
    ensures End(pos, c) <= |ts| && pos < |ts|
    ensures c.Bracket? ==>
              && ts[pos] == Open && Fits(ts, pos + 1, depth + 1, c.e)
              && End(pos, c) == End(pos + 1, c.e) + 1 && ts[End(pos + 1, c.e)] == Close
    ensures c.Signed? ==>
              && ts[pos] == Minus && Fits(ts, pos + 1, depth + 1, c.e) && AtLeast(c.e, 7)
              && End(pos, c) == End(pos + 1, c.e) && !Follows(ts, End(pos, c), 7)
    ensures c.Plain? ==> ts[pos] == Operand(c.k, c.nodeSet) && End(pos, c) == pos + 1
  {
    if c.Bracket? { BracketsAt(ts, pos, c); }
    else if c.Signed? { NegateAt(ts, pos, c); }
    else { assert ts[pos] == ts[pos..pos + 1][0]; }
  }

  /** The leftmost operand of a text is what the unary parser returns. */
  lemma {:induction false} UnaryReads(ts: seq<Token>, pos: nat, depth: nat, c: Syntax)
    requires Fits(ts, pos, depth, c)
    ensures pos < |ts| && UnaryOf(ts, pos, depth) == Ok(Head(c), HeadEnd(pos, c), depth)
    decreases c, 1
  {
    hide Fits, End, HeadEnd, Head, Operators, ExpressionOf;
    if c.Infix? {
      FitsInfix(ts, pos, depth, c);
      hide UnaryOf;
      UnaryReads(ts, pos, depth, c.l);
    } else {
      FitsSimple(ts, pos, depth, c);
      if c.Bracket? {
        ExpressionReads(ts, pos + 1, depth, c.e, 0);
      } else if c.Signed? {
        ExpressionReads(ts, pos + 1, depth, c.e, 7);
      }
    }
  }

  /** One turn of the outer loop. */
  lemma RestTurn(ts: seq<Token>, pos: nat, depth: nat, lhs: Tree, op: BinOp, limit: nat, n: Result, r: Result)
    requires pos < |ts| && OpAt(ts, pos) == Some(op) && Prec(op) >= limit && depth + 1 <= DepthLimit
    requires n == UnaryOf(ts, pos + 1, depth + 1) && n.Ok?
    requires r == TighterOf(ts, n.pos, n.depth, n.tree, Prec(op)) && r.Ok? && TypesFit(op, lhs, r.tree)
    ensures RestOf(ts, pos, depth, lhs, limit) == RestOf(ts, r.pos, r.depth, Binary(op, lhs, r.tree), limit)
  {
  }

  lemma TighterStops(ts: seq<Token>, pos: nat, depth: nat, rhs: Tree, prec: nat)
    requires pos <= |ts| && !Follows(ts, pos, prec + 1)
    ensures TighterOf(ts, pos, depth, rhs, prec) == Ok(rhs, pos, depth)
  {
  }

  lemma RestStops(ts: seq<Token>, pos: nat, depth: nat, lhs: Tree, limit: nat)
    requires pos <= |ts| && !Follows(ts, pos, limit)
    ensures RestOf(ts, pos, depth, lhs, limit) == Ok(lhs, pos, depth)
  {
  }

  /** What the inner loop makes of a result of the outer one. */
  function Then(ts: seq<Token>, e: Result, prec: nat): Result {
    if e.Error? || e.pos > |ts| then Error else TighterOf(ts, e.pos, e.depth, e.tree, prec)
  }

  lemma TighterTurn(ts: seq<Token>, pos: nat, depth: nat, rhs: Tree, op: BinOp, prec: nat)
    requires pos <= |ts| && OpAt(ts, pos) == Some(op) && Prec(op) > prec
    ensures TighterOf(ts, pos, depth, rhs, prec) == Then(ts, RestOf(ts, pos, depth, rhs, Prec(op)), prec)
  {
  }

  /** Where no operator tighter than p follows, going through the outer loop at p first makes no difference to the inner one. */
  lemma TighterMerges(ts: seq<Token>, pos: nat, depth: nat, t: Tree, p: nat, prec: nat)
    requires pos <= |ts| && prec < p && !Follows(ts, pos, p + 1)
    ensures Then(ts, RestOf(ts, pos, depth, t, p), prec) == TighterOf(ts, pos, depth, t, prec)
  {
  }

  /** Behind the left operand of a text, the outer loop takes operator and right operand. */
  lemma {:induction false} OperandReads(ts: seq<Token>, pos: nat, depth: nat, c: Syntax, limit: nat)
    requires Fits(ts, pos, depth, c) && c.Infix? && limit <= Prec(c.op)
    ensures var q := End(pos, c.l);
            q <= |ts| && End(pos, c) <= |ts|
            && RestOf(ts, q, depth + Operators(c.l), TreeOf(c.l), limit)
               == RestOf(ts, End(pos, c), depth + Operators(c), TreeOf(c), limit)
    decreases c, 0, 0
  {
    hide Fits, End, HeadEnd, Head, Operators, RestOf, TighterOf, UnaryOf, Follows;
    var p := Prec(c.op);
    FitsInfix(ts, pos, depth, c);
    var q, d := End(pos, c.l), depth + Operators(c.l) + 1;
    UnaryReads(ts, q + 1, d, c.r);
    TighterReads(ts, q + 1, d, c.r, p);
    TighterStops(ts, End(pos, c), d + Operators(c.r), TreeOf(c.r), p);
    RestTurn(ts, q, d - 1, TreeOf(c.l), c.op, limit, UnaryOf(ts, q + 1, d), Ok(TreeOf(c.r), End(pos, c), d + Operators(c.r)));
  }

  /** From the leftmost operand on, the outer loop takes in the rest of the text. */
  lemma {:induction false} RestReads(ts: seq<Token>, pos: nat, depth: nat, c: Syntax, limit: nat)
    requires Fits(ts, pos, depth, c) && AtLeast(c, limit)
    ensures HeadEnd(pos, c) <= |ts| && End(pos, c) <= |ts|
    ensures RestOf(ts, HeadEnd(pos, c), depth, Head(c), limit)
         == RestOf(ts, End(pos, c), depth + Operators(c), TreeOf(c), limit)
    decreases c, 0, 1
  {
    hide Fits, End, HeadEnd, Head, Operators, RestOf;
    if c.Infix? {
      FitsInfix(ts, pos, depth, c);
      RestReads(ts, pos, depth, c.l, limit);
      OperandReads(ts, pos, depth, c, limit);
    } else {
      FitsSimple(ts, pos, depth, c);
    }
  }

  /** From the leftmost operand on, the inner loop takes in a text of tighter operators. */
  lemma {:induction false} TighterReads(ts: seq<Token>, pos: nat, depth: nat, c: Syntax, prec: nat)
    requires Fits(ts, pos, depth, c) && AtLeast(c, prec + 1)
    ensures HeadEnd(pos, c) <= |ts| && End(pos, c) <= |ts|
    ensures TighterOf(ts, HeadEnd(pos, c), depth, Head(c), prec)
         == TighterOf(ts, End(pos, c), depth + Operators(c), TreeOf(c), prec)
    decreases c, 0, 1
  {
    hide Fits, End, HeadEnd, Head, Operators, RestOf, TighterOf, Then, Follows;
    if c.Infix? {
      var p := Prec(c.op);
      FitsInfix(ts, pos, depth, c);
      TighterReads(ts, pos, depth, c.l, prec);
      OperandReads(ts, pos, depth, c, p);
      TighterTurn(ts, End(pos, c.l), depth + Operators(c.l), TreeOf(c.l), c.op, prec);
      TighterMerges(ts, End(pos, c), depth + Operators(c), TreeOf(c), p, prec);
    } else {
      FitsSimple(ts, pos, depth, c);
    }
  }

  /** A text that no further operator belongs to is read whole. */
  lemma {:induction false} ExpressionReads(ts: seq<Token>, pos: nat, depth: nat, c: Syntax, m: nat)
    requires Fits(ts, pos, depth + 1, c) && AtLeast(c, m) && (End(pos, c) <= |ts| ==> !Follows(ts, End(pos, c), m))
    ensures pos <= |ts| && End(pos, c) <= |ts| && ExpressionOf(ts, pos, depth, m) == Ok(TreeOf(c), End(pos, c), depth)
    decreases c, 2
  {
    hide End, HeadEnd, Head, Operators, RestOf, UnaryOf, Follows, Stands, Tokens, Sound, Delimited;
    UnaryReads(ts, pos, depth + 1, c);
    RestReads(ts, pos, depth + 1, c, m);
    RestStops(ts, End(pos, c), depth + 1 + Operators(c), TreeOf(c), m);
  }

  // ---- beyond the depth limit

  /** Like Fits, but the depth does not suffice. */
  predicate TooDeep(ts: seq<Token>, pos: nat, depth: nat, c: Syntax) {
    pos <= |ts| && Stands(ts, pos, c) && Sound(c) && Delimited(ts, pos, c) && depth + Needs(c) > DepthLimit >= depth
  }

  /** Parsing fails at the leftmost operand, or in any loop that goes on from there. */
  ghost predicate Fails(ts: seq<Token>, pos: nat, depth: nat, c: Syntax)
    requires pos <= |ts|
  {
    UnaryOf(ts, pos, depth).Error? ||
    (&& UnaryOf(ts, pos, depth) == Ok(Head(c), HeadEnd(pos, c), depth)
     && (forall limit: nat :: AtLeast(c, limit) ==> RestOf(ts, HeadEnd(pos, c), depth, Head(c), limit).Error?)
     && (forall prec: nat :: AtLeast(c, prec + 1) ==> TighterOf(ts, HeadEnd(pos, c), depth, Head(c), prec).Error?))
  }

  /** Both operands stand where they should. */
  lemma InfixShape(ts: seq<Token>, pos: nat, c: Syntax)
    requires pos <= |ts| && Stands(ts, pos, c) && Sound(c) && Delimited(ts, pos, c) && c.Infix?
    ensures var q := End(pos, c.l);
            && q < |ts| && OpAt(ts, q) == Some(c.op) && AtLeast(c.l, Prec(c.op)) && AtLeast(c.r, Prec(c.op) + 1)
            && Stands(ts, pos, c.l) && Sound(c.l) && Delimited(ts, pos, c.l)
            && Stands(ts, q + 1, c.r) && Sound(c.r) && Delimited(ts, q + 1, c.r)
  {
    hide Stands, Delimited, Tokens, OpAt, Follows, Prec, End;
    InfixAt(ts, pos, c);
    InfixDelimited(ts, pos, c);
  }

  /** One of the operands is too deep. */
  lemma DeepCounts(depth: nat, c: Syntax)
    requires c.Infix? && depth + Needs(c) > DepthLimit
    ensures depth + Needs(c.l) > DepthLimit || depth + Operators(c.l) + 1 + Needs(c.r) > DepthLimit
  {
    assert Needs(c) == Max(Needs(c.l), Operators(c.l) + 1 + Needs(c.r));
  }

  lemma DeepInfix(ts: seq<Token>, pos: nat, depth: nat, c: Syntax)
    requires TooDeep(ts, pos, depth, c) && c.Infix?
    ensures var p := Prec(c.op); var q := End(pos, c.l); var d := depth + Operators(c.l) + 1;
            && q < |ts| && OpAt(ts, q) == Some(c.op) && AtLeast(c.l, p) && AtLeast(c.r, p + 1)
            && Head(c) == Head(c.l) && HeadEnd(pos, c) == HeadEnd(pos, c.l)
            && (TooDeep(ts, pos, depth, c.l) || (Fits(ts, pos, depth, c.l) && (d > DepthLimit || TooDeep(ts, q + 1, d, c.r))))
  {
    InfixCounts(c);
    hide Needs, Operators, Head, HeadLength, Stands, Delimited, Tokens, OpAt, Follows, Prec, End, Sound, AtLeast;
    DeepCounts(depth, c);
    InfixShape(ts, pos, c);
  }

  /** A bracket or a minus sign enters a new expression one level deeper. */
  lemma DeepSimple(ts: seq<Token>, pos: nat, depth: nat, c: Syntax)
    requires TooDeep(ts, pos, depth, c) && !c.Infix?
    ensures pos < |ts| && !c.Plain?
    ensures c.Bracket? ==> ts[pos] == Open && (depth + 1 > DepthLimit || TooDeep(ts, pos + 1, depth + 1, c.e))
    ensures c.Signed? ==> ts[pos] == Minus && AtLeast(c.e, 7) && (depth + 1 > DepthLimit || TooDeep(ts, pos + 1, depth + 1, c.e))
  {
    if c.Bracket? { BracketsAt(ts, pos, c); } else if c.Signed? { NegateAt(ts, pos, c); }
  }

  lemma ExpressionFails(ts: seq<Token>, pos: nat, depth: nat, c: Syntax, m: nat)
    requires pos <= |ts| && AtLeast(c, m) && (depth + 1 > DepthLimit || Fails(ts, pos, depth + 1, c))
    ensures ExpressionOf(ts, pos, depth, m).Error?
  {
  }

  /** Where the operator or the right operand is out of reach, the outer loop fails. */
  lemma OperandFails(ts: seq<Token>, q: nat, depth: nat, c: Syntax, limit: nat)
    requires q < |ts| && c.Infix? && OpAt(ts, q) == Some(c.op) && limit <= Prec(c.op) && AtLeast(c.r, Prec(c.op) + 1)
    requires depth + 1 > DepthLimit || Fails(ts, q + 1, depth + 1, c.r)
    ensures RestOf(ts, q, depth, TreeOf(c.l), limit).Error?
  {
  }

  lemma {:induction false} TooDeepFails(ts: seq<Token>, pos: nat, depth: nat, c: Syntax)
    requires TooDeep(ts, pos, depth, c)
    ensures pos <= |ts| && Fails(ts, pos, depth, c)
    decreases c
  {
    hide Fits, TooDeep, End, HeadEnd, Head, Operators, ExpressionOf, RestOf, TighterOf, Then;
    if c.Infix? {
      DeepInfix(ts, pos, depth, c);
      hide UnaryOf, Follows;
      var p := Prec(c.op);
      var q, d := End(pos, c.l), depth + Operators(c.l);
      if TooDeep(ts, pos, depth, c.l) {
        TooDeepFails(ts, pos, depth, c.l);
      } else {
        if d + 1 <= DepthLimit { TooDeepFails(ts, q + 1, d + 1, c.r); }
        UnaryReads(ts, pos, depth, c.l);
        forall limit: nat | AtLeast(c, limit) ensures RestOf(ts, HeadEnd(pos, c), depth, Head(c), limit).Error? {
          RestReads(ts, pos, depth, c.l, limit);
          OperandFails(ts, q, d, c, limit);
        }
        forall prec: nat | AtLeast(c, prec + 1) ensures TighterOf(ts, HeadEnd(pos, c), depth, Head(c), prec).Error? {
          TighterReads(ts, pos, depth, c.l, prec);
          OperandFails(ts, q, d, c, p);
          TighterTurn(ts, q, d, TreeOf(c.l), c.op, prec);
          ThenFails(ts, RestOf(ts, q, d, TreeOf(c.l), p), prec);
        }
      }
    } else {
      DeepSimple(ts, pos, depth, c);
      if c.Bracket? {
        if depth + 1 <= DepthLimit { TooDeepFails(ts, pos + 1, depth + 1, c.e); }
        ExpressionFails(ts, pos + 1, depth, c.e, 0);
      } else {
        if depth + 1 <= DepthLimit { TooDeepFails(ts, pos + 1, depth + 1, c.e); }
        ExpressionFails(ts, pos + 1, depth, c.e, 7);
      }
    }
  }

  lemma ThenFails(ts: seq<Token>, e: Result, prec: nat)
    requires e.Error?
    ensures Then(ts, e, prec).Error?
  {
  }

  // ---- what a tree spells without superfluous brackets

  lemma {:induction false} MinimalFits(t: Tree, m: nat)
    requires WellTyped(t)
    ensures TreeOf(Minimal(t, m)) == t && Sound(Minimal(t, m)) && AtLeast(Minimal(t, m), m)
  {
    match t
    case Atom(_, _) =>
    case Negate(e) => MinimalFits(e, 7);
    case Binary(op, l, r) => MinimalFits(l, Prec(op)); MinimalFits(r, Prec(op) + 1);
  }

  // ---- every text that parses is derived

  /** The text c stands in ts from `start` up to pos. */
  predicate Covers(ts: seq<Token>, start: nat, pos: nat, c: Syntax) {
    start <= pos <= |ts| && Sound(c) && ts[start..pos] == Tokens(c)
  }

  /** No operator that follows binds tighter than the one on top. */
  predicate Closed(ts: seq<Token>, pos: nat, c: Syntax) {
    c.Infix? ==> !Follows(ts, pos, Prec(c.op) + 1)
  }

  lemma OneToken(ts: seq<Token>, pos: nat)
    requires pos < |ts|
    ensures ts[pos..pos + 1] == [ts[pos]]
  {
  }

  lemma CoversBracket(ts: seq<Token>, pos: nat, q: nat, e: Syntax)
    requires Covers(ts, pos + 1, q, e) && pos < q < |ts| && ts[pos] == Open && ts[q] == Close
    ensures Covers(ts, pos, q + 1, Bracket(e))
  {
    assert ts[pos..q + 1] == [ts[pos]] + ts[pos + 1..q] + [ts[q]];
  }

  lemma CoversSigned(ts: seq<Token>, pos: nat, q: nat, e: Syntax)
    requires Covers(ts, pos + 1, q, e) && pos < q && ts[pos] == Minus && AtLeast(e, 7)
    ensures Covers(ts, pos, q, Signed(e))
  {
    assert ts[pos..q] == [ts[pos]] + ts[pos + 1..q];
  }

  lemma CoversInfix(ts: seq<Token>, start: nat, pos: nat, q: nat, op: BinOp, l: Syntax, r: Syntax)
    requires Covers(ts, start, pos, l) && pos < q && OpAt(ts, pos) == Some(op) && Covers(ts, pos + 1, q, r)
    requires AtLeast(l, Prec(op)) && AtLeast(r, Prec(op) + 1) && TypesFit(op, TreeOf(l), TreeOf(r))
    ensures Covers(ts, start, q, Infix(op, l, r))
  {
    assert ts[pos] == OpToken(op);
    assert ts[start..q] == ts[start..pos] + [ts[pos]] + ts[pos + 1..q];
  }

  lemma {:induction false} UnarySpells(ts: seq<Token>, pos: nat, depth: nat) returns (c: Syntax)
    requires pos <= |ts| && UnaryOf(ts, pos, depth).Ok?
    ensures var r := UnaryOf(ts, pos, depth); Covers(ts, pos, r.pos, c) && TreeOf(c) == r.tree && !c.Infix?
    decreases |ts| - pos, 0
  {
    hide ExpressionOf, Covers;
    match ts[pos]
    case Operand(k, nodeSet) =>
      c := Plain(k, nodeSet);
      PlainCovers(ts, pos);
    case Open =>
      var e := ExpressionSpells(ts, pos + 1, depth, 0);
      c := Bracket(e);
      CoversBracket(ts, pos, ExpressionOf(ts, pos + 1, depth, 0).pos, e);
    case Minus =>
      var e := ExpressionSpells(ts, pos + 1, depth, 7);
      c := Signed(e);
      CoversSigned(ts, pos, ExpressionOf(ts, pos + 1, depth, 7).pos, e);
  }

  lemma PlainCovers(ts: seq<Token>, pos: nat)
    requires pos < |ts| && ts[pos].Operand?
    ensures Covers(ts, pos, pos + 1, Plain(ts[pos].k, ts[pos].nodeSet))
  {
    OneToken(ts, pos);
  }

  lemma {:induction false} ExpressionSpells(ts: seq<Token>, pos: nat, depth: nat, limit: nat) returns (c: Syntax)
    requires pos <= |ts| && ExpressionOf(ts, pos, depth, limit).Ok?
    ensures var r := ExpressionOf(ts, pos, depth, limit);
            Covers(ts, pos, r.pos, c) && TreeOf(c) == r.tree && AtLeast(c, limit)
    decreases |ts| - pos, 1
  {
    hide UnaryOf, RestOf, Covers, Follows;
    var n := UnarySpells(ts, pos, depth + 1);
    var u := UnaryOf(ts, pos, depth + 1);
    c := RestSpells(ts, pos, u.pos, u.depth, n, limit);
  }

  lemma {:induction false} RestSpells(ts: seq<Token>, start: nat, pos: nat, depth: nat, lhs: Syntax, limit: nat) returns (c: Syntax)
    requires Covers(ts, start, pos, lhs) && pos <= |ts| && AtLeast(lhs, limit) && Closed(ts, pos, lhs)
    requires RestOf(ts, pos, depth, TreeOf(lhs), limit).Ok?
    ensures var r := RestOf(ts, pos, depth, TreeOf(lhs), limit);
            && Covers(ts, start, r.pos, c) && TreeOf(c) == r.tree && AtLeast(c, limit) && Closed(ts, r.pos, c)
            && !Follows(ts, r.pos, limit)
    decreases |ts| - pos, 3
  {
    hide UnaryOf, TighterOf, Covers;
    if !Follows(ts, pos, limit) {
      c := lhs;
    } else {
      var op := OpAt(ts, pos).value;
      var u := UnaryOf(ts, pos + 1, depth + 1);
      var n := UnarySpells(ts, pos + 1, depth + 1);
      var t := TighterOf(ts, u.pos, u.depth, u.tree, Prec(op));
      var rhs := TighterSpells(ts, pos + 1, u.pos, u.depth, n, Prec(op));
      CoversInfix(ts, start, pos, t.pos, op, lhs, rhs);
      c := RestSpells(ts, start, t.pos, t.depth, Infix(op, lhs, rhs), limit);
    }
  }

  lemma {:induction false} TighterSpells(ts: seq<Token>, start: nat, pos: nat, depth: nat, rhs: Syntax, prec: nat) returns (c: Syntax)
    requires Covers(ts, start, pos, rhs) && pos <= |ts| && AtLeast(rhs, prec + 1) && Closed(ts, pos, rhs)
    requires TighterOf(ts, pos, depth, TreeOf(rhs), prec).Ok?
    ensures var r := TighterOf(ts, pos, depth, TreeOf(rhs), prec);
            Covers(ts, start, r.pos, c) && TreeOf(c) == r.tree && AtLeast(c, prec + 1) && !Follows(ts, r.pos, prec + 1)
    decreases |ts| - pos, 4
  {
    hide RestOf, Covers;
    if !Follows(ts, pos, prec + 1) {
      c := rhs;
    } else {
      var p := Prec(OpAt(ts, pos).value);
      var e := RestOf(ts, pos, depth, TreeOf(rhs), p);
      var n := RestSpells(ts, start, pos, depth, rhs, p);
      c := TighterSpells(ts, start, e.pos, e.depth, n, prec);
    }
  }

  // ---- the results

  /** The tokens are a text that the grammar derives, and the tree is what it stands for. */
  ghost predicate Spells(ts: seq<Token>, t: Tree) {
    exists c: Syntax :: Derives(OrExpr, c) && Tokens(c) == ts && TreeOf(c) == t
  }

  /** The same, of a text whose depth is within the limit. */
  ghost predicate SpellsWithin(ts: seq<Token>, t: Tree) {
    exists c: Syntax :: Derives(OrExpr, c) && Tokens(c) == ts && TreeOf(c) == t && 1 + Needs(c) <= DepthLimit
  }

  /** What parse() returns. */
  function ParseOf(ts: seq<Token>): Option<Tree> {
    var r := ExpressionOf(ts, 0, 0, 0);
    if r.Ok? && r.pos == |ts| then Some(r.tree) else None
  }

  /** Every text that the grammar derives, with any number of brackets, parses to its tree exactly if the depth limit allows for it. */
  lemma ParsesDerived(c: Syntax)
    requires Derives(OrExpr, c)
    ensures ParseOf(Tokens(c)) == if 1 + Needs(c) <= DepthLimit then Some(TreeOf(c)) else None
  {
    DerivedIsSound(OrExpr, c);
    SoundParses(c);
  }

  lemma SoundParses(c: Syntax)
    requires Sound(c)
    ensures ExpressionOf(Tokens(c), 0, 0, 0) == if 1 + Needs(c) <= DepthLimit then Ok(TreeOf(c), |Tokens(c)|, 0) else Error
  {
    var ts := Tokens(c);
    assert ts[0..0 + |ts|] == ts;
    assert Stands(ts, 0, c) && Delimited(ts, 0, c);
    hide Stands, Tokens, Delimited, Sound;
    if 1 + Needs(c) <= DepthLimit {
      assert Fits(ts, 0, 1, c);
      ExpressionReads(ts, 0, 0, c, 0);
    } else {
      TooDeepFails(ts, 0, 1, c);
      ExpressionFails(ts, 0, 0, c, 0);
    }
  }

  /**
   On every token sequence: the parser returns a tree if and only if the grammar derives the tokens for that tree, with
   unions of node sets only, and their depth is within the limit.
   */
  lemma ParsesExactly(ts: seq<Token>, t: Tree)
    ensures ParseOf(ts) == Some(t) <==> SpellsWithin(ts, t)
  {
    hide ExpressionOf, Derives, Tokens, Needs;
    if ParseOf(ts) == Some(t) {
      var c := ExpressionSpells(ts, 0, 0, 0);
      assert ts[0..|ts|] == ts;
      CoversAll(ts, c);
      ParsesDerived(c);
      assert SpellsWithin(ts, t);
    }
    if SpellsWithin(ts, t) {
      var c :| Derives(OrExpr, c) && Tokens(c) == ts && TreeOf(c) == t && 1 + Needs(c) <= DepthLimit;
      ParsesDerived(c);
    }
  }

  lemma CoversAll(ts: seq<Token>, c: Syntax)
    requires Covers(ts, 0, |ts|, c)
    ensures Tokens(c) == ts && Derives(OrExpr, c)
  {
    assert ts[0..|ts|] == ts;
    assert AtLeast(c, 1);
    SoundIsDerived(OrExpr, c);
  }

  /** No text stands for two trees, as far as the depth limit allows to tell. */
  lemma Unambiguous(ts: seq<Token>, t: Tree, u: Tree)
    requires SpellsWithin(ts, t) && SpellsWithin(ts, u)
    ensures t == u
  {
    ParsesExactly(ts, t);
    ParsesExactly(ts, u);
  }

  /**
   Every well-typed operator tree comes back from its tokens printed with no more brackets than needed, exactly if the
   depth limit allows for it: operators associate to the left and bind as sections 3.1 to 3.5 say.
   */
  lemma ParsesPrinted(t: Tree)
    requires WellTyped(t)
    ensures ExpressionOf(Printed(t, 0), 0, 0, 0) ==
              if 1 + Needs(Minimal(t, 0)) <= DepthLimit then Ok(t, |Printed(t, 0)|, 0) else Error
  {
    MinimalFits(t, 0);
    SoundParses(Minimal(t, 0));
  }

  /** Two well-typed trees never print alike: no brackets are missing. */
  lemma PrintedApart(t: Tree, u: Tree)
    requires WellTyped(t) && WellTyped(u) && 1 + Needs(Minimal(t, 0)) <= DepthLimit && 1 + Needs(Minimal(u, 0)) <= DepthLimit
    ensures Printed(t, 0) == Printed(u, 0) ==> t == u
  {
    ParsesPrinted(t);
    ParsesPrinted(u);
  }
}
