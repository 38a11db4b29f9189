/**
 Every tree that inserts, removals and moves can leave is one that the pointer walks are proved for: its nodes,
 listed in document order, are linked as a document table says.
 */
module TreeLayout {
  import opened NodeOrder
  import opened XmlTree
  import opened XmlNodes
  import W = AxisWalk
  import S = SiblingList

  /** A list of siblings with all that is below them, and what their objects hold. */
  datatype Forest = Bare | Grown(top: XmlNode, name: string, attrs: seq<AttrRec>, below: Forest, rest: Forest)

  function Size(f: Forest): nat {
    if f.Bare? then 0 else 1 + Size(f.below) + Size(f.rest)
  }

  /** The objects, each before what is below it. */
  function Objs(f: Forest): seq<XmlNode> {
    if f.Bare? then [] else [f.top] + Objs(f.below) + Objs(f.rest)
  }

  /** The rows for the siblings, which start at row `at` and have their parent at row p. */
  function Rows(f: Forest, at: nat, p: int): seq<NodeRec> {
    if f.Bare? then []
    else
      var next := at + 1 + Size(f.below);
      [NodeRec(f.top.kind, f.name, p, next, f.attrs)] + Rows(f.below, at + 1, at) + Rows(f.rest, next, p)
  }

  lemma {:induction false} Lengths(f: Forest, at: nat, p: int)
    ensures |Objs(f)| == |Rows(f, at, p)| == Size(f)
  {
    if f.Grown? {
      Lengths(f.below, at + 1, at);
      Lengths(f.rest, at + 1 + Size(f.below), p);
    }
  }

  // ---- the table

  /** The forest is in the table at row `at`, with its objects. */
  predicate Sits(d: Doc, nodes: seq<XmlNode>, f: Forest, at: nat, p: int) {
    && |nodes| == |d| && at + Size(f) <= |d|
    && (f.Grown? ==>
          var next := at + 1 + Size(f.below);
          && d[at] == NodeRec(f.top.kind, f.name, p, next, f.attrs) && nodes[at] == f.top
          && Sits(d, nodes, f.below, at + 1, at) && Sits(d, nodes, f.rest, next, p))
  }

  /** u stands in s at position i. */
  predicate Within<T(==)>(s: seq<T>, i: nat, u: seq<T>) {
    i + |u| <= |s| && forall k :: 0 <= k < |u| ==> s[i + k] == u[k]
  }

  lemma Pieces<T>(s: seq<T>, i: nat, x: T, u: seq<T>, v: seq<T>)
    requires Within(s, i, [x] + u + v)
    ensures i < |s| && s[i] == x && Within(s, i + 1, u) && Within(s, i + 1 + |u|, v)
  {
    var w := [x] + u + v;
    assert s[i + 0] == w[0];
    forall k | 0 <= k < |u| ensures s[i + 1 + k] == u[k] { assert s[i + (1 + k)] == w[1 + k]; }
    forall k | 0 <= k < |v| ensures s[i + 1 + |u| + k] == v[k] { assert s[i + (1 + |u| + k)] == w[1 + |u| + k]; }
  }

  lemma {:induction false} RowsSit(d: Doc, nodes: seq<XmlNode>, f: Forest, at: nat, p: int)
    requires |nodes| == |d| && Within(d, at, Rows(f, at, p)) && Within(nodes, at, Objs(f))
    ensures Sits(d, nodes, f, at, p)
  {
    Lengths(f, at, p);
    if f.Grown? {
      var next := at + 1 + Size(f.below);
      Lengths(f.below, at + 1, at);
      Pieces(d, at, NodeRec(f.top.kind, f.name, p, next, f.attrs), Rows(f.below, at + 1, at), Rows(f.rest, next, p));
      Pieces(nodes, at, f.top, Objs(f.below), Objs(f.rest));
      hide Within;
      RowsSit(d, nodes, f.below, at + 1, at);
      RowsSit(d, nodes, f.rest, next, p);
    }
  }

  /** Row i of siblings that start at row `at`: its parent is p, or a row before it that is still open. */
  predicate RowFits(d: Doc, at: nat, p: int, i: nat)
    requires at <= i < |d|
  {
    if d[i].parent == p then forall k :: at <= k < i ==> d[k].end <= i
    else at <= d[i].parent < i && i < d[d[i].parent].end && forall k :: d[i].parent < k < i ==> d[k].end <= i
  }

  /** The rows of a forest end within it, fit, and are nested. */
  lemma {:induction false} RowsFit(d: Doc, nodes: seq<XmlNode>, f: Forest, at: nat, p: int)
    requires Sits(d, nodes, f, at, p) && p < at
    ensures forall i :: at <= i < at + Size(f) ==> i < d[i].end <= at + Size(f)
    ensures forall i :: at <= i < at + Size(f) ==> RowFits(d, at, p, i)
    ensures forall i, j :: at <= i < j < at + Size(f) && j < d[i].end ==> d[j].end <= d[i].end
  {
    if f.Grown? {
      var next := at + 1 + Size(f.below);
      RowsFit(d, nodes, f.below, at + 1, at);
      RowsFit(d, nodes, f.rest, next, p);
      forall i | at <= i < at + Size(f) ensures RowFits(d, at, p, i) {
        if at < i < next { assert RowFits(d, at + 1, at, i); }
        if next <= i { assert RowFits(d, next, p, i); }
      }
    }
  }

  /** One tree with nothing beside it. */
  predicate Alone(f: Forest) {
    f.Grown? && f.rest.Bare?
  }

  lemma TableIsValid(d: Doc, nodes: seq<XmlNode>, f: Forest)
    requires Alone(f) && Sits(d, nodes, f, 0, -1) && |d| == Size(f)
    ensures ValidDoc(d)
  {
    RowsFit(d, nodes, f, 0, -1);
    RowsFit(d, nodes, f.below, 1, 0);
    forall i | 0 < i < |d| ensures ParentRow(d, i) {
      assert RowFits(d, 1, 0, i) && RowFits(d, 0, -1, i);
    }
  }

  // ---- the links

  function FirstTop(f: Forest): XmlNode? {
    if f.Bare? then null else f.top
  }

  function LastTop(f: Forest): XmlNode? {
    if f.Bare? then null else if f.rest.Bare? then f.top else LastTop(f.rest)
  }

  function LastRow(f: Forest, at: nat): nat {
    if f.Bare? || f.rest.Bare? then at else LastRow(f.rest, at + 1 + Size(f.below))
  }

  ghost function Foot(f: Forest): set<XmlNode> {
    if f.Bare? then {} else {f.top} + Foot(f.below) + Foot(f.rest)
  }

  /** The objects are linked as siblings below p, the first one's prev_sibling_c being prev. */
  ghost predicate Hangs(f: Forest, p: XmlNode?, prev: XmlNode?)
    reads Foot(f)
  {
    f.Grown? ==>
      && f.top.name == f.name && W.AttrsOf(f.top.firstAttribute) == f.attrs
      && f.top.parent == p && f.top.firstChild == FirstTop(f.below) && f.top.nextSibling == FirstTop(f.rest) && f.top.prevSiblingC == prev
      && Hangs(f.below, f.top, LastTop(f.below)) && Hangs(f.rest, p, f.top)
  }

  lemma {:induction false} LastRowFacts(d: Doc, nodes: seq<XmlNode>, f: Forest, at: nat, p: int)
    requires Sits(d, nodes, f, at, p) && f.Grown?
    ensures var r := LastRow(f, at);
            at <= r < at + Size(f) && nodes[r] == LastTop(f) && d[r].parent == p && d[r].end == at + Size(f)
  {
    if f.rest.Grown? { LastRowFacts(d, nodes, f.rest, at + 1 + Size(f.below), p); }
  }

  lemma FirstTopAt(d: Doc, nodes: seq<XmlNode>, f: Forest, at: nat, p: int)
    requires Sits(d, nodes, f, at, p)
    ensures FirstTop(f) == if Size(f) > 0 then nodes[at] else null
  {
  }

  /** Two rows of one parent do not end together. */
  lemma EndsApart(d: Doc, q: nat, r: nat)
    requires ValidDoc(d) && 0 < q < |d| && 0 < r < |d| && d[q].parent == d[r].parent && d[q].end == d[r].end
    ensures q == r
  {
    assert ParentRow(d, q) && ParentRow(d, r);
  }

  /** q is the row of the previous sibling of row `at`, or of the last one if there is none before. */
  predicate IsPrev(d: Doc, q: nat, at: nat, p: nat) {
    && 0 < q < |d| && p < |d| && d[q].parent == p
    && d[q].end == if at == p + 1 then d[p].end else at
  }

  lemma TopLinked(d: Doc, nodes: seq<XmlNode>, f: Forest, at: nat, p: nat, q: nat)
    requires ValidDoc(d) && f.Grown? && Sits(d, nodes, f, at, p) && p < at && p < |d| && at + Size(f) == d[p].end
    requires q < |d| && Hangs(f, nodes[p], nodes[q]) && IsPrev(d, q, at, p)
    ensures W.Linked(d, nodes, at)
  {
    var next := at + 1 + Size(f.below);
    FirstTopAt(d, nodes, f.below, at + 1, at);
    FirstTopAt(d, nodes, f.rest, next, p);
    assert ParentRow(d, at);
    PrevRowIs(d, at, p, q);
    hide W.PrevRow, IsPrev, Sits, ParentRow;
  }

  lemma PrevRowIs(d: Doc, at: nat, p: nat, q: nat)
    requires ValidDoc(d) && 0 < at < |d| && d[at].parent == p && IsPrev(d, q, at, p)
    ensures W.PrevRow(d, at) == q
  {
    W.PrevRowFacts(d, at);
    hide W.PrevRow;
    assert ParentRow(d, at);
    assert d[W.PrevRow(d, at)].end == d[q].end;
    EndsApart(d, q, W.PrevRow(d, at));
  }

  lemma {:induction false} AllLinked(d: Doc, nodes: seq<XmlNode>, f: Forest, at: nat, p: nat, q: nat)
    requires ValidDoc(d) && Sits(d, nodes, f, at, p) && p < at && p < |d| && at + Size(f) == d[p].end
    requires f.Grown? ==> q < |d| && Hangs(f, nodes[p], nodes[q]) && IsPrev(d, q, at, p)
    ensures forall i :: at <= i < at + Size(f) ==> W.Linked(d, nodes, i)
  {
    if f.Grown? {
      var next := at + 1 + Size(f.below);
      TopLinked(d, nodes, f, at, p, q);
      if f.below.Grown? { LastRowFacts(d, nodes, f.below, at + 1, at); }
      hide W.Linked, ValidDoc;
      AllLinked(d, nodes, f.below, at + 1, at, LastRow(f.below, at + 1));
      AllLinked(d, nodes, f.rest, next, p, at);
    }
  }

  /** A tree of objects that are linked and different is laid out in document order. */
  lemma ForestLayout(f: Forest) returns (d: Doc, nodes: seq<XmlNode>)
    requires Alone(f) && Hangs(f, null, f.top) && Distinct(Objs(f))
    ensures W.Layout(d, nodes) && nodes == Objs(f)
  {
    d, nodes := Rows(f, 0, -1), Objs(f);
    Lengths(f, 0, -1);
    assert Within(d, 0, d) && Within(nodes, 0, nodes);
    RowsSit(d, nodes, f, 0, -1);
    TableIsValid(d, nodes, f);
    FirstTopAt(d, nodes, f.below, 1, 0);
    if f.below.Grown? { LastRowFacts(d, nodes, f.below, 1, 0); }
    AllLinked(d, nodes, f.below, 1, 0, LastRow(f.below, 1));
    assert W.Linked(d, nodes, 0);
  }

  // ---- the forest below a node of a valid tree

  /** A bound on all ranks. */
  lemma {:induction false} RankBound(ranks: map<XmlNode, nat>, ns: set<XmlNode>) returns (bound: nat)
    requires ns <= ranks.Keys
    ensures forall n :: n in ns ==> ranks[n] < bound
  {
    if ns == {} {
      bound := 0;
    } else {
      var n :| n in ns;
      var b := RankBound(ranks, ns - {n});
      bound := if ranks[n] < b then b else ranks[n] + 1;
    }
  }

  ghost predicate Bounded(t: S.Tree, bound: nat)
    reads t, t.nodes, t.doc
  {
    t.Valid() && forall n :: n in t.nodes ==> t.rank[n] < bound
  }

  /** A child is a node of the tree that ranks above its parent. */
  lemma ChildFacts(t: S.Tree, p: XmlNode, k: nat)
    requires t.Valid() && p in t.nodes && k < |t.kids[p]|
    ensures var c := t.kids[p][k]; c in t.nodes && c.parent == p && t.rank[p] < t.rank[c] && c != t.doc
  {
    var c := t.kids[p][k];
    t.ParentOfChild(p, c, null);
    assert t.PlaceAt(c, null);
  }

  /** The children of p from the k-th on. */
  ghost function Grow(t: S.Tree, bound: nat, p: XmlNode, k: nat): Forest
    requires Bounded(t, bound) && p in t.nodes && k <= |t.kids[p]|
    reads t, t.nodes, t.doc
    decreases bound - t.rank[p], |t.kids[p]| - k
  {
    if k == |t.kids[p]| then Bare
    else
      var c := t.kids[p][k];
      ChildFacts(t, p, k);
      Grown(c, c.name, W.AttrsOf(c.firstAttribute), Grow(t, bound, c, 0), Grow(t, bound, p, k + 1))
  }

  /** The last sibling of what was grown. */
  lemma {:induction false} GrowTops(t: S.Tree, bound: nat, p: XmlNode, k: nat)
    requires Bounded(t, bound) && p in t.nodes && k <= |t.kids[p]|
    ensures var f := Grow(t, bound, p, k); var ks := t.kids[p];
            && FirstTop(f) == (if k < |ks| then ks[k] else null)
            && LastTop(f) == (if k < |ks| then ks[|ks| - 1] else null)
    decreases |t.kids[p]| - k
  {
    if k < |t.kids[p]| {
      ChildFacts(t, p, k);
      GrowTops(t, bound, p, k + 1);
    }
  }

  lemma {:induction false} GrowHangs(t: S.Tree, bound: nat, p: XmlNode, k: nat)
    requires Bounded(t, bound) && p in t.nodes && k <= |t.kids[p]|
    ensures var ks := t.kids[p];
            Hangs(Grow(t, bound, p, k), p, if ks == [] then null else if k == 0 then ks[|ks| - 1] else ks[k - 1])
    decreases bound - t.rank[p], |t.kids[p]| - k
  {
    assert t.kids.Keys == t.nodes;
    hide Grow, Hangs, S.Tree.Lists, S.Tree.PlaceAt, S.Tree.Home, W.AttrsOf;
    GrowStep(t, bound, p, k);
    var f := Grow(t, bound, p, k);
    if k < |t.kids[p]| {
      var c := t.kids[p][k];
      ChildFacts(t, p, k);
      ChildLinks(t, p, k);
      GrowTops(t, bound, p, k + 1);
      GrowTops(t, bound, c, 0);
      GrowHangs(t, bound, c, 0);
      GrowHangs(t, bound, p, k + 1);
      hide Bounded, LastTop, FirstTop;
      HangsStep(f, p, c.prevSiblingC);
    } else {
      NothingHangs(p, if k == 0 then null else t.kids[p][k - 1]);
    }
  }

  lemma NothingHangs(p: XmlNode?, prev: XmlNode?)
    ensures Hangs(Bare, p, prev)
  {
  }

  lemma HangsStep(f: Forest, p: XmlNode?, prev: XmlNode?)
    requires f.Grown? && f.top.name == f.name && W.AttrsOf(f.top.firstAttribute) == f.attrs
    requires f.top.parent == p && f.top.firstChild == FirstTop(f.below) && f.top.nextSibling == FirstTop(f.rest) && f.top.prevSiblingC == prev
    requires Hangs(f.below, f.top, LastTop(f.below)) && Hangs(f.rest, p, f.top)
    ensures Hangs(f, p, prev)
  {
    hide W.AttrsOf;
  }

  lemma GrowStep(t: S.Tree, bound: nat, p: XmlNode, k: nat)
    requires Bounded(t, bound) && p in t.nodes && k <= |t.kids[p]|
    ensures k == |t.kids[p]| ==> Grow(t, bound, p, k) == Bare
    ensures k < |t.kids[p]| ==>
              var c := t.kids[p][k];
              c in t.nodes && Grow(t, bound, p, k) ==
                Grown(c, c.name, W.AttrsOf(c.firstAttribute), Grow(t, bound, c, 0), Grow(t, bound, p, k + 1))
  {
    if k < |t.kids[p]| { ChildFacts(t, p, k); }
  }

  lemma ChildLinks(t: S.Tree, p: XmlNode, k: nat)
    requires t.Valid() && p in t.nodes && k < |t.kids[p]|
    ensures var ks := t.kids[p]; var c := ks[k];
            && c in t.nodes && c.parent == p && c.nextSibling == (if k + 1 < |ks| then ks[k + 1] else null)
            && c.prevSiblingC == (if k == 0 then ks[|ks| - 1] else ks[k - 1])
            && c.firstChild == if t.kids[c] == [] then null else t.kids[c][0]
  {
    ChildFacts(t, p, k);
    assert t.ListAt(p) && S.LinkAt(p, t.kids[p], k);
    assert t.ListAt(t.kids[p][k]);
  }

  // ---- which nodes those are

  /** Below two different children of one node there is no common node. */
  lemma {:induction false} Apart(t: S.Tree, x: XmlNode, p: XmlNode, j: nat, k: nat)
    requires t.Valid() && x in t.nodes && p in t.nodes && j < |t.kids[p]| && k < |t.kids[p]| && t.kids[p][j] != t.kids[p][k]
    requires t.Under(x, t.kids[p][j], null)
    ensures !t.Under(x, t.kids[p][k], null)
    decreases t.rank[x]
  {
    var c, c' := t.kids[p][j], t.kids[p][k];
    ChildFacts(t, p, j);
    ChildFacts(t, p, k);
    assert t.PlaceAt(x, null);
    if x == c {
      if t.Under(p, c', null) { t.UnderRanks(p, c'); }
    } else if x == c' {
      if t.Under(p, c, null) { t.UnderRanks(p, c); }
    } else {
      Apart(t, x.parent, p, j, k);
    }
  }

  /** What is below a node but not the node itself is below one of its children. */
  lemma {:induction false} BelowChild(t: S.Tree, x: XmlNode, p: XmlNode) returns (j: nat)
    requires t.Valid() && x in t.nodes && p in t.nodes && t.Under(x, p, null) && x != p
    ensures j < |t.kids[p]| && t.Under(x, t.kids[p][j], null)
    decreases t.rank[x]
  {
    assert t.PlaceAt(x, null);
    if x.parent == p {
      j :| 0 <= j < |t.kids[p]| && t.kids[p][j] == x;
    } else {
      j := BelowChild(t, x.parent, p);
    }
  }

  /** x is the k-th child of p, a later one, or below one of these. */
  ghost predicate Among(t: S.Tree, p: XmlNode, k: nat, x: XmlNode)
    requires t.Valid() && p in t.nodes
    reads t, t.nodes, t.doc
  {
    x in t.nodes && exists j :: k <= j < |t.kids[p]| && t.Under(x, t.kids[p][j], null)
  }

  lemma {:induction false} GrowMembers(t: S.Tree, bound: nat, p: XmlNode, k: nat)
    requires Bounded(t, bound) && p in t.nodes && k <= |t.kids[p]|
    ensures forall x :: x in Objs(Grow(t, bound, p, k)) <==> Among(t, p, k, x)
    decreases bound - t.rank[p], |t.kids[p]| - k
  {
    if k < |t.kids[p]| {
      var c := t.kids[p][k];
      ChildFacts(t, p, k);
      GrowMembers(t, bound, c, 0);
      GrowMembers(t, bound, p, k + 1);
      forall x ensures x in Objs(Grow(t, bound, p, k)) <==> Among(t, p, k, x) {
        AmongOne(t, p, k, x);
      }
    }
  }

  lemma AmongOne(t: S.Tree, p: XmlNode, k: nat, x: XmlNode)
    requires t.Valid() && p in t.nodes && k < |t.kids[p]|
    ensures var c := t.kids[p][k];
            c in t.nodes && (Among(t, p, k, x) <==> x == c || Among(t, c, 0, x) || Among(t, p, k + 1, x))
  {
    var c := t.kids[p][k];
    ChildFacts(t, p, k);
    if x in t.nodes {
      if x != c && t.Under(x, c, null) { var j := BelowChild(t, x, c); }
      if x == c { assert t.Under(x, t.kids[p][k], null); }
      if Among(t, c, 0, x) {
        var j :| 0 <= j < |t.kids[c]| && t.Under(x, t.kids[c][j], null);
        UnderChildOf(t, x, c, j);
        assert t.Under(x, t.kids[p][k], null);
      }
    }
  }

  lemma {:induction false} UnderChildOf(t: S.Tree, x: XmlNode, c: XmlNode, j: nat)
    requires t.Valid() && x in t.nodes && c in t.nodes && j < |t.kids[c]| && t.Under(x, t.kids[c][j], null)
    ensures t.Under(x, c, null) && x != c
    decreases t.rank[x]
  {
    ChildFacts(t, c, j);
    assert t.PlaceAt(x, null);
    if x == t.kids[c][j] {
      assert t.Under(c, c, null);
    } else {
      UnderChildOf(t, x.parent, c, j);
      if x == c { t.UnderRanks(c, t.kids[c][j]); }
    }
  }

  lemma {:induction false} GrowDistinct(t: S.Tree, bound: nat, p: XmlNode, k: nat)
    requires Bounded(t, bound) && p in t.nodes && k <= |t.kids[p]|
    ensures Distinct(Objs(Grow(t, bound, p, k)))
    decreases bound - t.rank[p], |t.kids[p]| - k
  {
    if k < |t.kids[p]| {
      var c := t.kids[p][k];
      ChildFacts(t, p, k);
      GrowDistinct(t, bound, c, 0);
      GrowDistinct(t, bound, p, k + 1);
      GrowMembers(t, bound, c, 0);
      GrowMembers(t, bound, p, k + 1);
      PartsApart(t, p, k);
      forall y | y in Objs(Grow(t, bound, c, 0)) ensures y !in Objs(Grow(t, bound, p, k + 1)) { assert Among(t, c, 0, y); }
      DistinctParts(c, Objs(Grow(t, bound, c, 0)), Objs(Grow(t, bound, p, k + 1)));
    }
  }

  lemma DistinctParts<T>(x: T, u: seq<T>, v: seq<T>)
    requires Distinct(u) && Distinct(v) && x !in u && x !in v && forall y :: y in u ==> y !in v
    ensures Distinct([x] + u + v)
  {
    var s := [x] + u + v;
    forall i, j | 0 <= i < j < |s| ensures s[i] != s[j] {
      var y := s[j];
      if j <= |u| {
        assert y == u[j - 1] && y in u;
        if i > 0 { assert s[i] == u[i - 1]; }
      } else {
        assert y == v[j - 1 - |u|] && y in v;
        if 0 < i <= |u| { assert s[i] == u[i - 1] && s[i] in u; }
        if i > |u| { assert s[i] == v[i - 1 - |u|]; }
      }
    }
  }

  /** A child, what is below it, and the later children with what is below them, have nothing in common. */
  lemma PartsApart(t: S.Tree, p: XmlNode, k: nat)
    requires t.Valid() && p in t.nodes && k < |t.kids[p]|
    ensures var c := t.kids[p][k];
            && c in t.nodes && !Among(t, c, 0, c) && !Among(t, p, k + 1, c)
            && forall x :: Among(t, c, 0, x) ==> !Among(t, p, k + 1, x)
  {
    var c := t.kids[p][k];
    ChildFacts(t, p, k);
    assert t.ListAt(p);
    forall y, j | y in t.nodes && t.Under(y, c, null) && k < j < |t.kids[p]| ensures !t.Under(y, t.kids[p][j], null) {
      Apart(t, y, p, k, j);
    }
    forall y, j | y in t.nodes && 0 <= j < |t.kids[c]| && t.Under(y, t.kids[c][j], null) ensures t.Under(y, c, null) && y != c {
      UnderChildOf(t, y, c, j);
    }
    assert t.Under(c, c, null);
  }

  // ---- the whole tree

  /**
   Every valid tree has a layout: a document table for the list of its nodes, each once, in document order with
   the document first. So every walk that is proved for laid-out objects is proved for it.
   */
  lemma ValidTreeHasLayout(t: S.Tree) returns (d: Doc, nodes: seq<XmlNode>)
    requires t.Valid()
    ensures W.Layout(d, nodes) && nodes[0] == t.doc && forall n :: n in nodes <==> n in t.nodes
  {
    var bound := RankBound(t.rank, t.nodes);
    var doc := t.doc;
    var below := Grow(t, bound, doc, 0);
    var f := Grown(doc, doc.name, W.AttrsOf(doc.firstAttribute), below, Bare);
    GrowTops(t, bound, doc, 0);
    GrowHangs(t, bound, doc, 0);
    assert t.ListAt(doc);
    GrowMembers(t, bound, doc, 0);
    GrowDistinct(t, bound, doc, 0);
    forall x ensures x in t.nodes <==> x == doc || x in Objs(below) {
      if x in t.nodes && x != doc {
        t.AllBelowDocument(x);
        var j := BelowChild(t, x, doc);
      }
    }
    assert doc !in Objs(below) by {
      if Among(t, doc, 0, doc) {
        var j :| 0 <= j < |t.kids[doc]| && t.Under(doc, t.kids[doc][j], null);
        UnderChildOf(t, doc, doc, j);
      }
    }
    DistinctParts(doc, Objs(below), []);
    assert Objs(f) == [doc] + Objs(below) + [];
    d, nodes := ForestLayout(f);
  }
}
