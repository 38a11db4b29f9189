/**
 The pointer walks of step_fill over a linked tree.

 Nodes are heap objects joined by parent, first_child, next_sibling and the cyclic
 prev_sibling_c. `Layout` says that a list of objects in document order is linked up as a
 document table describes; each walk is proved to deliver exactly that table's axis.
 */
module AxisWalk {
  import opened NodeOrder
  import opened XmlTree
  import opened XmlNodes

  /** The sibling from c on that ends at e. */
  function EndingAt(d: Doc, c: nat, e: nat): nat
    decreases |d| - c
  {
    if c >= |d| || d[c].end >= e || d[c].end <= c then c else EndingAt(d, d[c].end, e)
  }

  /** Row of prev_sibling_c: the previous sibling, or the last one for a first child; the root points to itself. */
  function PrevRow(d: Doc, i: nat): nat
    requires i < |d|
  {
    var p := d[i].parent;
    if i == 0 || p < 0 || p >= |d| then 0
    else if i == p + 1 then EndingAt(d, p + 1, d[p].end)
    else EndingAt(d, p + 1, i)
  }

  function AttrsOf(chain: AttrChain): seq<AttrRec> {
    match chain
    case EndOfAttrs => []
    case AttrCell(rec, next) => [rec] + AttrsOf(next)
  }

  /** One row's links. */
  ghost predicate Linked(d: Doc, nodes: seq<XmlNode>, i: nat)
    requires ValidDoc(d) && |nodes| == |d| && i < |d|
    reads nodes[i]
  {
    var n := nodes[i];
    && n.kind == d[i].kind && n.name == d[i].name && AttrsOf(n.firstAttribute) == d[i].attrs
    && n.parent == (if i == 0 then null else assert ParentRow(d, i); nodes[d[i].parent])
    && n.firstChild == (if i + 1 < d[i].end then nodes[i + 1] else null)
    && n.nextSibling == (if i > 0 && HasNext(d, i) then nodes[d[i].end] else null)
    && PrevRow(d, i) < |d| && n.prevSiblingC == nodes[PrevRow(d, i)]
  }

  predicate HasNext(d: Doc, i: nat)
    requires ValidDoc(d) && 0 < i < |d|
  {
    assert ParentRow(d, i);
    d[i].end < d[d[i].parent].end
  }

  /** nodes lists the objects of the tree that d describes, in document order. */
  ghost predicate Layout(d: Doc, nodes: seq<XmlNode>)
    reads nodes
  {
    && ValidDoc(d) && |nodes| == |d| && Distinct(nodes)
    && forall i :: 0 <= i < |d| ==> Linked(d, nodes, i)
  }

  // ---- facts about rows

  lemma {:induction false} NextChild(d: Doc, c: nat)
    requires ValidDoc(d) && 0 < c < |d| && HasNext(d, c)
    ensures d[c].end < |d| && d[d[c].end].parent == d[c].parent
  {
    var p, n := d[c].parent, d[c].end;
    assert ParentRow(d, c);
    assert d[p].end <= |d|;
    assert ParentRow(d, n);
    AncestorByParent(d, p, n);
    var k := d[n].parent;
    assert n < d[k].end;
    assert forall m :: p < m < c ==> d[m].end <= c;
    assert forall m :: c < m < n ==> d[m].end <= d[c].end;
  }

  /** The search for a sibling boundary finds it. */
  lemma {:induction false} EndingAtFacts(d: Doc, p: nat, c: nat, e: nat)
    requires ValidDoc(d) && p < c < e <= |d| && d[c].parent == p
    requires e == d[p].end || (e < |d| && d[e].parent == p)
    ensures var q := EndingAt(d, c, e);
            c <= q < e && d[q].parent == p && d[q].end == e
    decreases |d| - c
  {
    assert ParentRow(d, c);
    if e < |d| && d[e].parent == p { assert ParentRow(d, e); }
    assert c < d[c].end <= e by {
      if e == d[p].end { assert d[c].end <= d[p].end; }
    }
    if d[c].end < e {
      assert HasNext(d, c);
      NextChild(d, c);
      EndingAtFacts(d, p, d[c].end, e);
    }
  }

  lemma {:induction false} FirstRow(d: Doc, p: nat)
    requires ValidDoc(d) && p < |d| && p + 1 < d[p].end
    ensures p + 1 < |d| && d[p + 1].parent == p
  {
    assert d[p].end <= |d|;
    assert ParentRow(d, p + 1);
    AncestorByParent(d, p, p + 1);
  }

  /** What prev_sibling_c leads to. */
  lemma {:induction false} PrevRowFacts(d: Doc, i: nat)
    requires ValidDoc(d) && 0 < i < |d|
    ensures var p, q := d[i].parent, PrevRow(d, i);
            && 0 <= p < i && p < q < |d| && d[q].parent == p
            && (i == p + 1 ==> d[q].end == d[p].end)
            && (i > p + 1 ==> q < i && d[q].end == i)
  {
    var p := d[i].parent;
    assert ParentRow(d, i);
    FirstRow(d, p);
    if i == p + 1 { EndingAtFacts(d, p, p + 1, d[p].end); } else { EndingAtFacts(d, p, p + 1, i); }
  }

  /** The test `cur->prev_sibling_c->next_sibling` asks whether there is a previous sibling. */
  lemma {:induction false} PrevHasNext(d: Doc, nodes: seq<XmlNode>, i: nat)
    requires Layout(d, nodes) && i < |d|
    ensures nodes[i].prevSiblingC != null
    ensures nodes[i].prevSiblingC.nextSibling != null <==> i > 0 && i != d[i].parent + 1
  {
    assert Linked(d, nodes, i);
    if i > 0 {
      PrevRowFacts(d, i);
      var q := PrevRow(d, i);
      assert Linked(d, nodes, q);
      assert ParentRow(d, i);
      assert HasNext(d, q) <==> d[q].end < d[d[i].parent].end;
    }
  }

  // ---- the nodes still to come

  function Objects(nodes: seq<XmlNode>, s: seq<XNode>): seq<XmlNode> {
    if s == [] then []
    else (if s[0].Elem? && s[0].i < |nodes| then [nodes[s[0].i]] else []) + Objects(nodes, s[1..])
  }

  function Cut(once: bool, s: seq<XNode>): seq<XNode> {
    if once then Take1(s) else s
  }

  lemma {:induction false} SkipUp(d: Doc, axis: Axis, test: NodeTest, x: XNode, j: nat, k: nat)
    requires j <= k <= |d|
    requires forall m :: j <= m < k ==> !Hit(d, axis, test, x, m)
    ensures Upward(d, axis, test, x, j) == Upward(d, axis, test, x, k)
    decreases k - j
  {
    if j < k { SkipUp(d, axis, test, x, j + 1, k); }
  }

  lemma {:induction false} SkipDown(d: Doc, axis: Axis, test: NodeTest, x: XNode, j: nat, k: nat)
    requires j <= k <= |d|
    requires forall m :: j <= m < k ==> !Hit(d, axis, test, x, m)
    ensures Downward(d, axis, test, x, k) == Downward(d, axis, test, x, j)
    decreases k - j
  {
    if j < k { SkipDown(d, axis, test, x, j, k - 1); }
  }

  /** ns followed by the objects of `rest` is the whole axis; with `once`, nothing has been pushed yet. */
  ghost predicate Progress(nodes: seq<XmlNode>, ns: seq<XmlNode>, rest: seq<XNode>, whole: seq<XNode>, once: bool) {
    if once then ns == [] && rest == whole else ns + Objects(nodes, rest) == Objects(nodes, whole)
  }

  /** Pushing the head of the rest, which ends a `once` walk. */
  lemma PushOnce(nodes: seq<XmlNode>, ns: seq<XmlNode>, rest: seq<XNode>, whole: seq<XNode>, j: nat)
    requires Progress(nodes, ns, rest, whole, true) && j < |nodes| && rest != [] && rest[0] == Elem(j)
    ensures ns + [nodes[j]] == Objects(nodes, Cut(true, whole))
  {
    assert Take1(whole) == [Elem(j)];
    assert [Elem(j)][1..] == [];
    assert Objects(nodes, [Elem(j)]) == [nodes[j]];
  }

  /** Pushing the head of the rest of a full walk. */
  lemma PushMore(nodes: seq<XmlNode>, ns: seq<XmlNode>, rest: seq<XNode>, whole: seq<XNode>, j: nat)
    requires Progress(nodes, ns, rest, whole, false) && j < |nodes| && rest != [] && rest[0] == Elem(j)
    ensures Progress(nodes, ns + [nodes[j]], rest[1..], whole, false)
  {
    Assoc(ns, [nodes[j]], Objects(nodes, rest[1..]));
  }

  function Opt(b: bool, j: nat): seq<XNode> {
    if b then [Elem(j)] else []
  }

  /** step_push: adds the node if it passes the test. The caller returns when it was added and one is enough. */
  method StepPush(ghost nodes: seq<XmlNode>, ghost j: nat, n: XmlNode, test: NodeTest, once: bool, before: seq<XmlNode>,
                  ghost rest: seq<XNode>, ghost rest': seq<XNode>, ghost whole: seq<XNode>)
    returns (ns: seq<XmlNode>, pushed: bool)
    requires j < |nodes| && n == nodes[j] && rest == Opt(PassesKind(n.kind, n.name, test), j) + rest'
    requires Progress(nodes, before, rest, whole, once)
    ensures if pushed && once then ns == Objects(nodes, Cut(once, whole)) else Progress(nodes, ns, rest', whole, once)
  {
    ns := before;
    pushed := PassesKind(n.kind, n.name, test);
    hide PassesKind;
    if pushed {
      assert rest[0] == Elem(j) && rest[1..] == rest';
      if once { PushOnce(nodes, before, rest, whole, j); } else { PushMore(nodes, before, rest, whole, j); }
      ns := ns + [n];
    } else {
      assert rest == rest';
    }
  }

  /** What visiting row j takes off the rest, on the way up and on the way down. */
  lemma Visit(d: Doc, nodes: seq<XmlNode>, axis: Axis, test: NodeTest, x: XNode, j: nat)
    requires Layout(d, nodes) && j < |d| && Hit(d, axis, test, x, j) == PassesElem(d[j], test)
    ensures Upward(d, axis, test, x, j) == Opt(PassesKind(nodes[j].kind, nodes[j].name, test), j) + Upward(d, axis, test, x, j + 1)
    ensures Downward(d, axis, test, x, j + 1) == Opt(PassesKind(nodes[j].kind, nodes[j].name, test), j) + Downward(d, axis, test, x, j)
  {
    hide Hit, PassesKind, PassesElem, Layout, ValidDoc;
    LayoutSize(d, nodes);
    NodeData(d, nodes, j, test);
    OneStep(d, axis, test, x, j);
  }

  lemma OneStep(d: Doc, axis: Axis, test: NodeTest, x: XNode, j: nat)
    requires j < |d|
    ensures Upward(d, axis, test, x, j) == Opt(Hit(d, axis, test, x, j), j) + Upward(d, axis, test, x, j + 1)
    ensures Downward(d, axis, test, x, j + 1) == Opt(Hit(d, axis, test, x, j), j) + Downward(d, axis, test, x, j)
  {
    hide Hit;
  }

  /** step_push on row lo of a reverse axis, when no row between lo and hi is on the axis. */
  method StepBack(ghost d: Doc, ghost nodes: seq<XmlNode>, ghost axis: Axis, ghost x: XNode, ghost lo: nat, ghost hi: nat, n: XmlNode,
                  test: NodeTest, once: bool, before: seq<XmlNode>, ghost whole: seq<XNode>)
    returns (ns: seq<XmlNode>, pushed: bool)
    requires Layout(d, nodes) && |nodes| == |d| && lo < hi <= |d| && n == nodes[lo]
    requires Hit(d, axis, test, x, lo) == PassesElem(d[lo], test) && forall m :: lo < m < hi ==> !Hit(d, axis, test, x, m)
    requires Progress(nodes, before, Downward(d, axis, test, x, hi), whole, once)
    ensures if pushed && once then ns == Objects(nodes, Cut(once, whole))
            else Progress(nodes, ns, Downward(d, axis, test, x, lo), whole, once)
  {
    hide Layout, Hit, PassesElem, PassesKind, Progress, Downward;
    SkipDown(d, axis, test, x, lo + 1, hi);
    Visit(d, nodes, axis, test, x, lo);
    ns, pushed := StepPush(nodes, lo, n, test, once, before, Downward(d, axis, test, x, lo + 1), Downward(d, axis, test, x, lo), whole);
  }

  /** step_push on row j of a forward axis. */
  method StepAhead(ghost d: Doc, ghost nodes: seq<XmlNode>, ghost axis: Axis, ghost x: XNode, ghost j: nat, n: XmlNode,
                   test: NodeTest, once: bool, before: seq<XmlNode>, ghost whole: seq<XNode>)
    returns (ns: seq<XmlNode>, pushed: bool)
    requires Layout(d, nodes) && j < |d| && n == nodes[j] && Hit(d, axis, test, x, j) == PassesElem(d[j], test)
    requires Progress(nodes, before, Upward(d, axis, test, x, j), whole, once)
    ensures if pushed && once then ns == Objects(nodes, Cut(once, whole))
            else Progress(nodes, ns, Upward(d, axis, test, x, j + 1), whole, once)
  {
    LayoutSize(d, nodes);
    Visit(d, nodes, axis, test, x, j);
    hide Layout, Hit, PassesElem, PassesKind, Progress, Upward;
    ns, pushed := StepPush(nodes, j, n, test, once, before, Upward(d, axis, test, x, j), Upward(d, axis, test, x, j + 1), whole);
  }

  /** Nothing of the axis is left at row j or after. */
  lemma FinishUp(d: Doc, nodes: seq<XmlNode>, axis: Axis, test: NodeTest, x: XNode, j: nat, ns: seq<XmlNode>, whole: seq<XNode>, once: bool)
    requires |nodes| == |d| && j <= |d| && Progress(nodes, ns, Upward(d, axis, test, x, j), whole, once)
    requires forall m :: j <= m < |d| ==> !Hit(d, axis, test, x, m)
    ensures ns == Objects(nodes, Cut(once, whole))
  {
    hide Hit;
    SkipUp(d, axis, test, x, j, |d|);
    Finish(nodes, ns, whole, once);
  }

  /** Nothing of the axis is left before row j. */
  lemma FinishDown(d: Doc, nodes: seq<XmlNode>, axis: Axis, test: NodeTest, x: XNode, j: nat, ns: seq<XmlNode>, whole: seq<XNode>, once: bool)
    requires |nodes| == |d| && j <= |d| && Progress(nodes, ns, Downward(d, axis, test, x, j), whole, once)
    requires forall m :: 0 <= m < j ==> !Hit(d, axis, test, x, m)
    ensures ns == Objects(nodes, Cut(once, whole))
  {
    hide Hit;
    SkipDown(d, axis, test, x, 0, j);
    Finish(nodes, ns, whole, once);
  }

  lemma Finish(nodes: seq<XmlNode>, ns: seq<XmlNode>, whole: seq<XNode>, once: bool)
    requires Progress(nodes, ns, [], whole, once)
    ensures ns == Objects(nodes, Cut(once, whole))
  {
  }

  // ---- the walks

  /** li is the row of the node a walk must not leave, or -1 for none; `stop` is the first row after it. */
  ghost predicate Bounds(d: Doc, nodes: seq<XmlNode>, li: int, limit: XmlNode?, stop: nat)
    requires |nodes| == |d|
  {
    && stop <= |d|
    && if li == -1 then limit == null && stop == |d| else 0 <= li < |d| && limit == nodes[li] && stop == d[li].end
  }

  /** Where climbing from row c leads, c being the last row above j with nothing after it up to j. */
  lemma {:induction false} Climb(d: Doc, nodes: seq<XmlNode>, li: int, limit: XmlNode?, stop: nat, c: nat, j: nat)
    requires Layout(d, nodes) && Bounds(d, nodes, li, limit, stop)
    requires li < c <= j < stop && d[c].end == j + 1
    ensures nodes[c].nextSibling != null ==> j + 1 < stop && nodes[c].nextSibling == nodes[j + 1]
    ensures nodes[c].nextSibling == null && nodes[c].parent == limit ==> stop == j + 1
    ensures nodes[c].nextSibling == null && nodes[c].parent != limit ==>
              var p := d[c].parent;
              li < p < c && nodes[c].parent == nodes[p] && d[p].end == j + 1
  {
    assert Linked(d, nodes, c);
    if c > 0 {
      assert ParentRow(d, c);
      var p := d[c].parent;
      if li >= 0 {
        AncestorByParent(d, li, c);
        assert p != li ==> d[p].end <= d[li].end;
      }
      assert d[c].end <= d[p].end <= |d|;
    }
  }

  /** One move in document order, from row j to row j + 1, or to null where the walk ends. */
  method Advance(ghost d: Doc, ghost nodes: seq<XmlNode>, ghost li: int, ghost stop: nat, ghost j: nat, cur0: XmlNode, limit: XmlNode?)
    returns (next: XmlNode?)
    requires Layout(d, nodes) && Bounds(d, nodes, li, limit, stop) && li < j < stop && cur0 == nodes[j]
    ensures next == if j + 1 == stop then null else nodes[j + 1]
  {
    var cur := cur0;
    assert Linked(d, nodes, j);
    assert j < d[j].end;
    if cur.firstChild != null {
      assert li >= 0 ==> d[j].end <= d[li].end;
      return cur.firstChild;
    }
    ghost var c := j;
    while cur.nextSibling == null
      invariant li < c <= j && cur == nodes[c] && d[c].end == j + 1
      decreases c
    {
      Climb(d, nodes, li, limit, stop, c, j);
      if cur.parent == limit { return null; }
      cur := cur.parent;
      c := d[c].parent;
    }
    Climb(d, nodes, li, limit, stop, c, j);
    next := cur.nextSibling;
  }

  /** The walk shared by descendant and following: the rows from j0 up to `stop`, in document order. */
  method Preorder(ghost d: Doc, ghost nodes: seq<XmlNode>, ghost axis: Axis, ghost x: XNode, ghost j0: nat, ghost li: int, ghost stop: nat,
                  start: XmlNode?, limit: XmlNode?, test: NodeTest, once: bool, before: seq<XmlNode>, ghost whole: seq<XNode>)
    returns (ns: seq<XmlNode>)
    requires Layout(d, nodes) && Bounds(d, nodes, li, limit, stop) && li < j0 <= stop
    requires start == if j0 == stop then null else nodes[j0]
    requires forall m :: j0 <= m < |d| ==> Hit(d, axis, test, x, m) == (m < stop && PassesElem(d[m], test))
    requires Progress(nodes, before, Upward(d, axis, test, x, j0), whole, once)
    ensures ns == Objects(nodes, Cut(once, whole))
  {
    var pushed;
    hide Hit, Progress, Upward;
    ns := before;
    var cur := start;
    ghost var j := j0;
    while cur != null
      invariant j0 <= j <= stop && cur == if j == stop then null else nodes[j]
      invariant Progress(nodes, ns, Upward(d, axis, test, x, j), whole, once)
      decreases stop - j
    {
      assert Linked(d, nodes, j);
      assert j < d[j].end;
      Visit(d, nodes, axis, test, x, j);
      ns, pushed := StepPush(nodes, j, cur, test, once, ns, Upward(d, axis, test, x, j), Upward(d, axis, test, x, j + 1), whole);
      if pushed && once { return; }
      cur := Advance(d, nodes, li, stop, j, cur, limit);
      j := j + 1;
    }
    FinishUp(d, nodes, axis, test, x, j, ns, whole, once);
  }

  /** The list before the first push. */
  lemma StartUp(d: Doc, nodes: seq<XmlNode>, axis: Axis, test: NodeTest, x: XNode, once: bool)
    requires axis != Attribute && !IsReverse(axis) && !KeepsSelf(d, axis, test, x)
    ensures Progress(nodes, [], Upward(d, axis, test, x, 0), AxisNodes(d, axis, test, x), once)
  {
    hide Upward, Objects;
    var all := Upward(d, axis, test, x, 0);
    assert [] + all == all;
    assert [] + Objects(nodes, all) == Objects(nodes, all);
  }

  lemma StartDown(d: Doc, nodes: seq<XmlNode>, axis: Axis, test: NodeTest, x: XNode, once: bool)
    requires IsReverse(axis) && !KeepsSelf(d, axis, test, x)
    ensures Progress(nodes, [], Downward(d, axis, test, x, |d|), AxisNodes(d, axis, test, x), once)
  {
    hide Downward, Objects;
    var all := Downward(d, axis, test, x, |d|);
    assert [] + all == all;
    assert [] + Objects(nodes, all) == Objects(nodes, all);
  }

  // ---- what each axis hits, spelt out

  lemma DescendantHits(d: Doc, test: NodeTest, i: nat)
    requires i < |d|
    ensures forall m :: 0 <= m < |d| ==> (Hit(d, Descendant, test, Elem(i), m) <==> i < m < d[i].end && PassesElem(d[m], test))
    ensures forall m :: 0 <= m < |d| ==> (Hit(d, DescendantOrSelf, test, Elem(i), m) <==> i <= m < d[i].end && PassesElem(d[m], test))
  {
  }

  lemma AncestorHits(d: Doc, test: NodeTest, i: nat)
    requires i < |d|
    ensures forall m :: 0 <= m < |d| ==> (Hit(d, Ancestor, test, Elem(i), m) <==> m < i < d[m].end && PassesElem(d[m], test))
    ensures forall m :: 0 <= m < |d| ==> (Hit(d, AncestorOrSelf, test, Elem(i), m) <==> m <= i < d[m].end && PassesElem(d[m], test))
  {
  }

  lemma ParentLink(d: Doc, nodes: seq<XmlNode>, i: nat)
    requires Layout(d, nodes) && i < |d|
    ensures nodes[i].parent == null <==> i == 0
    ensures i > 0 ==> 0 <= d[i].parent < i && nodes[i].parent == nodes[d[i].parent]
  {
    assert Linked(d, nodes, i);
    if i > 0 {
      assert ParentRow(d, i);
      var p: XmlNode := nodes[d[i].parent];
    }
  }

  /** What a method may read off a node. */
  lemma NodeData(d: Doc, nodes: seq<XmlNode>, i: nat, test: NodeTest)
    requires Layout(d, nodes) && i < |d|
    ensures PassesKind(nodes[i].kind, nodes[i].name, test) == PassesElem(d[i], test)
  {
    assert Linked(d, nodes, i);
  }

  lemma LayoutSize(d: Doc, nodes: seq<XmlNode>)
    requires Layout(d, nodes)
    ensures |nodes| == |d| && ValidDoc(d) && forall i :: 0 <= i < |d| ==> i < d[i].end <= |d|
  {
  }

  /** From an ancestor-or-self r of i to its parent. */
  lemma AncestorUp(d: Doc, i: nat, r: nat)
    requires ValidDoc(d) && 0 < r <= i < |d| && i < d[r].end
    ensures 0 <= d[r].parent < r && i < d[d[r].parent].end
    ensures forall m :: d[r].parent < m < r ==> d[m].end <= i
  {
    assert ParentRow(d, r);
    AncestorByParent(d, d[r].parent, r);
    assert d[r].end <= d[d[r].parent].end;
  }

  lemma FollowingHits(d: Doc, test: NodeTest, i: nat, k: nat)
    requires i < |d|
    ensures forall m :: 0 <= m < |d| ==> (Hit(d, Following, test, Elem(i), m) <==> d[i].end <= m && PassesElem(d[m], test))
    ensures k < |d[i].attrs| ==> forall m :: 0 <= m < |d| ==> (Hit(d, Following, test, Attr(i, k), m) <==> i < m && PassesElem(d[m], test))
  {
  }

  lemma PrecedingHits(d: Doc, test: NodeTest, i: nat)
    requires i < |d|
    ensures forall m :: 0 <= m < |d| ==> (Hit(d, Preceding, test, Elem(i), m) <==> d[m].end <= i && PassesElem(d[m], test))
  {
  }

  lemma SiblingHits(d: Doc, test: NodeTest, i: nat)
    requires i < |d|
    ensures forall m :: 0 <= m < |d| ==> (Hit(d, Child, test, Elem(i), m) <==> d[m].parent == i && PassesElem(d[m], test))
    ensures forall m :: 0 <= m < |d| ==>
              (Hit(d, FollowingSibling, test, Elem(i), m) <==> 0 < i < m && d[m].parent == d[i].parent && PassesElem(d[m], test))
    ensures forall m :: 0 <= m < |d| ==>
              (Hit(d, PrecedingSibling, test, Elem(i), m) <==> 0 < m < i && d[m].parent == d[i].parent && PassesElem(d[m], test))
  {
  }

  /** axis_descendant and axis_descendant_or_self. */
  method Descendants(ghost d: Doc, ghost nodes: seq<XmlNode>, ghost i: nat, n: XmlNode, orSelf: bool, test: NodeTest, once: bool)
    returns (ns: seq<XmlNode>)
    requires Layout(d, nodes) && i < |d| && n == nodes[i]
    ensures ns == Objects(nodes, Cut(once, AxisNodes(d, if orSelf then DescendantOrSelf else Descendant, test, Elem(i))))
  {
    DescendantHits(d, test, i);
    hide Objects, Cut, Progress, Upward, AxisNodes, Hit;
    ghost var axis := if orSelf then DescendantOrSelf else Descendant;
    ghost var whole := AxisNodes(d, axis, test, Elem(i));
    ns := [];
    StartUp(d, nodes, axis, test, Elem(i), once);
    SkipUp(d, axis, test, Elem(i), 0, i);
    assert Linked(d, nodes, i);
    if orSelf {
      Visit(d, nodes, axis, test, Elem(i), i);
      var pushed;
      ns, pushed := StepPush(nodes, i, n, test, once, ns, Upward(d, axis, test, Elem(i), i), Upward(d, axis, test, Elem(i), i + 1), whole);
      if pushed && once { return; }
    } else {
      SkipUp(d, axis, test, Elem(i), i, i + 1);
    }
    ns := Preorder(d, nodes, axis, Elem(i), i + 1, i, d[i].end, n.firstChild, n, test, once, ns, whole);
  }

  /** axis_following. */
  method Followers(ghost d: Doc, ghost nodes: seq<XmlNode>, ghost i: nat, n: XmlNode, test: NodeTest, once: bool)
    returns (ns: seq<XmlNode>)
    requires Layout(d, nodes) && i < |d| && n == nodes[i]
    ensures ns == Objects(nodes, Cut(once, AxisNodes(d, Following, test, Elem(i))))
  {
    FollowingHits(d, test, i, 0);
    hide Objects, Cut, Progress, Upward, AxisNodes, Hit;
    ghost var whole := AxisNodes(d, Following, test, Elem(i));
    ghost var j := d[i].end - 1;
    StartUp(d, nodes, Following, test, Elem(i), once);
    SkipUp(d, Following, test, Elem(i), 0, j + 1);
    ns := [];
    var cur := n;
    ghost var c := i;
    while cur.nextSibling == null
      invariant 0 <= c <= j && cur == nodes[c] && d[c].end == j + 1
      decreases c
    {
      Climb(d, nodes, -1, null, |d|, c, j);
      if cur.parent == null {
        FinishUp(d, nodes, Following, test, Elem(i), j + 1, ns, whole, once);
        return;
      }
      cur := cur.parent;
      c := d[c].parent;
    }
    Climb(d, nodes, -1, null, |d|, c, j);
    ns := Preorder(d, nodes, Following, Elem(i), j + 1, -1, |d|, cur.nextSibling, null, test, once, ns, whole);
  }

  /** axis_following from an attribute of n: everything after n, its descendants first. */
  method FollowersOfAttr(ghost d: Doc, ghost nodes: seq<XmlNode>, ghost i: nat, ghost k: nat, n: XmlNode, test: NodeTest, once: bool)
    returns (ns: seq<XmlNode>)
    requires Layout(d, nodes) && i < |d| && k < |d[i].attrs| && n == nodes[i]
    ensures ns == Objects(nodes, Cut(once, AxisNodes(d, Following, test, Attr(i, k))))
  {
    ghost var x := Attr(i, k);
    ghost var whole := AxisNodes(d, Following, test, x);
    ns := [];
    var pushed;
    StartUp(d, nodes, Following, test, x, once);
    LayoutSize(d, nodes);
    FollowingHits(d, test, i, k);
    hide Objects, Cut, Progress, Upward, AxisNodes, Hit, Layout, PassesElem, PassesKind, ValidDoc;
    SkipUp(d, Following, test, x, 0, i + 1);
    var cur := n;
    ghost var j := i;
    while true
      invariant i <= j < |d| && cur == nodes[j]
      invariant Progress(nodes, ns, Upward(d, Following, test, x, j + 1), whole, once)
      decreases |d| - j
    {
      var next := Advance(d, nodes, -1, |d|, j, cur, null);
      if next == null {
        FinishUp(d, nodes, Following, test, x, j + 1, ns, whole, once);
        return;
      }
      cur := next;
      j := j + 1;
      ns, pushed := StepAhead(d, nodes, Following, x, j, cur, test, once, ns, whole);
      if pushed && once { return; }
    }
  }

  /** node_is_ancestor, which also accepts the node itself. */
  method NodeIsAncestor(ghost d: Doc, ghost nodes: seq<XmlNode>, ghost a: nat, ghost i: nat, parent: XmlNode, node: XmlNode)
    returns (r: bool)
    requires Layout(d, nodes) && a < |d| && i < |d| && parent == nodes[a] && node == nodes[i]
    ensures r <==> a <= i < d[a].end
  {
    var cur: XmlNode? := node;
    ghost var c := i;
    while cur != null && cur != parent
      invariant cur != null ==> 0 <= c < |d| && cur == nodes[c] && (a <= i < d[a].end <==> a <= c < d[a].end)
      invariant cur == null ==> !(a <= i < d[a].end)
      decreases cur != null, c
    {
      assert Linked(d, nodes, c);
      if c > 0 { AncestorByParent(d, a, c); }
      cur := cur.parent;
      c := if c > 0 then d[c].parent else 0;
    }
    r := cur != null;
    assert a < d[a].end;
  }

  /** The loop along parent shared by the ancestor axes; the rows above hi that contain row i are still to come. */
  method AlongParents(ghost d: Doc, ghost nodes: seq<XmlNode>, ghost axis: Axis, ghost x: XNode, ghost i: nat, ghost hi: nat,
                      start: XmlNode?, test: NodeTest, once: bool, before: seq<XmlNode>, ghost whole: seq<XNode>)
    returns (ns: seq<XmlNode>)
    requires Layout(d, nodes) && i < |d| && hi <= i + 1
    requires NextAbove(d, nodes, i, start, hi)
    requires forall m :: 0 <= m < hi ==> Hit(d, axis, test, x, m) == (i < d[m].end && PassesElem(d[m], test))
    requires Progress(nodes, before, Downward(d, axis, test, x, hi), whole, once)
    ensures ns == Objects(nodes, Cut(once, whole))
  {
    LayoutSize(d, nodes);
    hide Objects, Cut, Progress, Downward, Hit, Layout, PassesElem, PassesKind, NextAbove;
    ns := before;
    var cur := start;
    ghost var r := hi;
    while cur != null
      invariant 0 <= r <= hi && NextAbove(d, nodes, i, cur, r)
      invariant Progress(nodes, ns, Downward(d, axis, test, x, r), whole, once)
      decreases r
    {
      ghost var p := ParentAbove(d, nodes, i, cur, r);
      var pushed;
      ns, pushed := StepBack(d, nodes, axis, x, p, r, cur, test, once, ns, whole);
      if pushed && once { return; }
      cur := cur.parent;
      r := p;
    }
    NoneAbove(d, nodes, i, r);
    FinishDown(d, nodes, axis, test, x, r, ns, whole, once);
  }

  /** cur is the last object before row hi whose subtree contains row i, or null if there is none. */
  ghost predicate NextAbove(d: Doc, nodes: seq<XmlNode>, i: nat, cur: XmlNode?, hi: nat)
    requires |nodes| == |d| && hi <= |d|
  {
    if cur == null then forall m :: 0 <= m < hi ==> d[m].end <= i
    else exists c: nat :: c < hi && cur == nodes[c] && i < d[c].end && forall m :: c < m < hi ==> d[m].end <= i
  }

  lemma NoneAbove(d: Doc, nodes: seq<XmlNode>, i: nat, hi: nat)
    requires |nodes| == |d| && hi <= |d| && NextAbove(d, nodes, i, null, hi)
    ensures forall m :: 0 <= m < hi ==> d[m].end <= i
  {
  }

  /** The row of that object, and what its parent link leads to. */
  lemma ParentAbove(d: Doc, nodes: seq<XmlNode>, i: nat, cur: XmlNode, hi: nat) returns (c: nat)
    requires Layout(d, nodes) && i < |d| && hi <= i + 1 && NextAbove(d, nodes, i, cur, hi)
    ensures c < hi && cur == nodes[c] && i < d[c].end && forall m :: c < m < hi ==> d[m].end <= i
    ensures NextAbove(d, nodes, i, cur.parent, c)
  {
    c :| c < hi && cur == nodes[c] && i < d[c].end && forall m :: c < m < hi ==> d[m].end <= i;
    ParentLink(d, nodes, c);
    if c > 0 { AncestorUp(d, i, c); }
  }

  /** The walk up starts at the node itself for an attribute, at its parent otherwise. */
  lemma SelfAbove(d: Doc, nodes: seq<XmlNode>, i: nat)
    requires Layout(d, nodes) && i < |d|
    ensures NextAbove(d, nodes, i, nodes[i], i + 1) && NextAbove(d, nodes, i, nodes[i].parent, i)
  {
    assert i < d[i].end;
    ParentLink(d, nodes, i);
    if i > 0 { AncestorUp(d, i, i); }
  }

  /** axis_ancestor and axis_ancestor_or_self. */
  method Ancestors(ghost d: Doc, ghost nodes: seq<XmlNode>, ghost i: nat, n: XmlNode, orSelf: bool, test: NodeTest, once: bool)
    returns (ns: seq<XmlNode>)
    requires Layout(d, nodes) && i < |d| && n == nodes[i]
    ensures ns == Objects(nodes, Cut(once, AxisNodes(d, if orSelf then AncestorOrSelf else Ancestor, test, Elem(i))))
  {
    LayoutSize(d, nodes);
    AncestorHits(d, test, i);
    hide Objects, Cut, Progress, Downward, AxisNodes, Hit, Layout, ValidDoc, PassesElem, PassesKind, NextAbove;
    ghost var axis := if orSelf then AncestorOrSelf else Ancestor;
    ghost var x, whole := Elem(i), AxisNodes(d, axis, test, Elem(i));
    ns := [];
    StartDown(d, nodes, axis, test, x, once);
    SkipDown(d, axis, test, x, i + 1, |d|);
    if orSelf {
      var pushed;
      ns, pushed := StepBack(d, nodes, axis, x, i, i + 1, n, test, once, ns, whole);
      if pushed && once { return; }
    } else {
      SkipDown(d, axis, test, x, i, i + 1);
    }
    SelfAbove(d, nodes, i);
    ns := AlongParents(d, nodes, axis, x, i, i, n.parent, test, once, ns, whole);
  }

  /** Where a backward walk stands: at the object that ends where row j begins, or nowhere. */
  ghost predicate AtPrevious(d: Doc, nodes: seq<XmlNode>, cur: XmlNode?, j: nat)
    requires |nodes| == |d| && j < |d|
  {
    if cur == null then j == 0
    else j > 0 && PrevRow(d, j) < j && cur == nodes[PrevRow(d, j)] && d[PrevRow(d, j)].end == j
  }

  /** Leaving a node backwards: to the previous sibling of the nearest ancestor-or-self that has one, or to null. */
  method LeaveBackwards(ghost d: Doc, ghost nodes: seq<XmlNode>, ghost i: nat, n: XmlNode) returns (prev: XmlNode?, ghost c: nat)
    requires Layout(d, nodes) && i < |d| && n == nodes[i]
    ensures c <= i && forall m :: c <= m <= i ==> i < d[m].end
    ensures AtPrevious(d, nodes, prev, c)
  {
    var cur := n;
    c := i;
    assert i < d[i].end;
    PrevHasNext(d, nodes, c);
    while cur.prevSiblingC.nextSibling == null
      invariant 0 <= c <= i && cur == nodes[c] && cur.prevSiblingC != null
      invariant forall m :: c <= m <= i ==> i < d[m].end
      decreases c
    {
      PrevHasNext(d, nodes, c);
      ParentLink(d, nodes, c);
      if cur.parent == null { return null, 0; }
      assert ParentRow(d, c);
      assert d[c].end <= d[c - 1].end;
      cur := cur.parent;
      c := c - 1;
      PrevHasNext(d, nodes, c);
    }
    PrevHasNext(d, nodes, c);
    PrevRowFacts(d, c);
    assert Linked(d, nodes, c);
    prev := cur.prevSiblingC;
  }

  /** Down through last children to the last leaf of a subtree. */
  method LastLeaf(ghost d: Doc, ghost nodes: seq<XmlNode>, ghost q0: nat, n: XmlNode) returns (leaf: XmlNode)
    requires Layout(d, nodes) && q0 < |d| && n == nodes[q0]
    ensures q0 < d[q0].end && leaf == nodes[d[q0].end - 1] && d[d[q0].end - 1].end == d[q0].end
  {
    leaf := n;
    ghost var q := q0;
    assert q0 < d[q0].end;
    while leaf.firstChild != null
      invariant q0 <= q < d[q0].end && leaf == nodes[q] && d[q].end == d[q0].end
      decreases d[q0].end - q
    {
      assert Linked(d, nodes, q);
      FirstRow(d, q);
      PrevRowFacts(d, q + 1);
      assert Linked(d, nodes, q + 1);
      assert PrevRow(d, q + 1) < d[PrevRow(d, q + 1)].end;
      leaf := leaf.firstChild.prevSiblingC;
      q := PrevRow(d, q + 1);
    }
    assert Linked(d, nodes, q);
    assert q < d[q].end;
  }

  /** Climbing from a finished row j0 to a previous sibling, pushing the parents that end here and do not contain i. */
  method ClimbBackwards(ghost d: Doc, ghost nodes: seq<XmlNode>, ghost i: nat, n: XmlNode, ghost j0: nat, start: XmlNode, test: NodeTest, once: bool,
                        before: seq<XmlNode>, ghost whole: seq<XNode>)
    returns (cur: XmlNode?, ns: seq<XmlNode>, stopped: bool, ghost j: nat)
    requires Layout(d, nodes) && i < |d| && n == nodes[i] && j0 <= i && start == nodes[j0]
    requires Progress(nodes, before, Downward(d, Preceding, test, Elem(i), j0), whole, once)
    ensures stopped ==> ns == Objects(nodes, Cut(once, whole))
    ensures !stopped ==> j <= j0 && AtPrevious(d, nodes, cur, j)
                         && Progress(nodes, ns, Downward(d, Preceding, test, Elem(i), j), whole, once)
  {
    LayoutSize(d, nodes);
    PrecedingHits(d, test, i);
    hide Objects, Cut, Progress, Downward, Hit, Layout, ValidDoc, PassesElem, PassesKind, PrevRow;
    ns, stopped, j := before, false, j0;
    cur := start;
    PrevHasNext(d, nodes, j);
    while cur.prevSiblingC.nextSibling == null
      invariant 0 <= j <= j0 && cur != null && cur == nodes[j] && cur.prevSiblingC != null
      invariant Progress(nodes, ns, Downward(d, Preceding, test, Elem(i), j), whole, once)
      decreases j
    {
      FirstChildLinks(d, nodes, j);
      cur := cur.parent;
      if cur == null { return; }
      var above := NodeIsAncestor(d, nodes, j - 1, i, cur, n);
      if !above {
        ns, stopped := StepBack(d, nodes, Preceding, Elem(i), j - 1, j, cur, test, once, ns, whole);
        if stopped && once { return; }
        stopped := false;
      } else {
        SkipDown(d, Preceding, test, Elem(i), j - 1, j);
      }
      j := j - 1;
    }
    PrevLink(d, nodes, j);
    cur := cur.prevSiblingC;
  }

  /** A node without a previous sibling is the root or directly follows its parent. */
  lemma FirstChildLinks(d: Doc, nodes: seq<XmlNode>, j: nat)
    requires Layout(d, nodes) && j < |d| && nodes[j].prevSiblingC != null && nodes[j].prevSiblingC.nextSibling == null
    ensures if nodes[j].parent == null then j == 0
            else j > 0 && nodes[j].parent == nodes[j - 1] && nodes[j - 1].prevSiblingC != null
  {
    PrevHasNext(d, nodes, j);
    ParentLink(d, nodes, j);
    if j > 0 { PrevHasNext(d, nodes, j - 1); }
  }

  lemma PrevLink(d: Doc, nodes: seq<XmlNode>, j: nat)
    requires Layout(d, nodes) && j < |d| && nodes[j].prevSiblingC != null && nodes[j].prevSiblingC.nextSibling != null
    ensures AtPrevious(d, nodes, nodes[j].prevSiblingC, j)
  {
    PrevHasNext(d, nodes, j);
    PrevRowFacts(d, j);
    assert Linked(d, nodes, j);
  }

  /** axis_preceding: everything before n but its ancestors, backwards, each node after its descendants. */
  method Preceders(ghost d: Doc, ghost nodes: seq<XmlNode>, ghost i: nat, n: XmlNode, test: NodeTest, once: bool)
    returns (ns: seq<XmlNode>)
    requires Layout(d, nodes) && i < |d| && n == nodes[i]
    ensures ns == Objects(nodes, Cut(once, AxisNodes(d, Preceding, test, Elem(i))))
  {
    LayoutSize(d, nodes);
    PrecedingHits(d, test, i);
    hide Objects, Cut, Progress, Downward, AxisNodes, Hit, Layout, ValidDoc, PassesElem, PassesKind;
    ghost var x := Elem(i);
    ghost var whole := AxisNodes(d, Preceding, test, x);
    ns := [];
    var pushed;
    StartDown(d, nodes, Preceding, test, Elem(i), once);
    ghost var j: nat;
    var cur;
    cur, j := LeaveBackwards(d, nodes, i, n);
    SkipDown(d, Preceding, test, x, j, |d|);
    while cur != null
      invariant j <= i && AtPrevious(d, nodes, cur, j)
      invariant Progress(nodes, ns, Downward(d, Preceding, test, x, j), whole, once)
      decreases j
    {
      var leaf := LastLeaf(d, nodes, PrevRow(d, j), cur);
      ns, pushed := StepBack(d, nodes, Preceding, x, j - 1, j, leaf, test, once, ns, whole);
      if pushed && once { return; }
      var stopped;
      cur, ns, stopped, j := ClimbBackwards(d, nodes, i, n, j - 1, leaf, test, once, ns, whole);
      if stopped { return; }
    }
    FinishDown(d, nodes, Preceding, test, x, j, ns, whole, once);
  }

  /** The rows inside a sibling's subtree are nobody's siblings of its. */
  lemma InsideSibling(d: Doc, c: nat)
    requires ValidDoc(d) && c < |d|
    ensures forall m :: c < m < d[c].end ==> c <= d[m].parent
  {
    assert d[c].end <= |d|;
    forall m | c < m < d[c].end ensures c <= d[m].parent { AncestorByParent(d, c, m); }
  }

  /** The loop along next_sibling shared by axis_child and axis_following_sibling. */
  method AlongSiblings(ghost d: Doc, ghost nodes: seq<XmlNode>, ghost axis: Axis, ghost i: nat, ghost p: nat, ghost j0: nat,
                       start: XmlNode?, test: NodeTest, once: bool, ghost whole: seq<XNode>)
    returns (ns: seq<XmlNode>)
    requires Layout(d, nodes) && p < |d| && p < j0 <= d[p].end
    requires start == if j0 == d[p].end then null else nodes[j0]
    requires j0 < d[p].end ==> j0 < |d| && d[j0].parent == p
    requires forall m :: j0 <= m < |d| ==> Hit(d, axis, test, Elem(i), m) == (d[m].parent == p && PassesElem(d[m], test))
    requires Progress(nodes, [], Upward(d, axis, test, Elem(i), j0), whole, once)
    ensures ns == Objects(nodes, Cut(once, whole))
  {
    hide Objects, Cut, Progress, Upward, Hit;
    ns := [];
    var pushed;
    var c := start;
    ghost var j := j0;
    assert d[p].end <= |d|;
    while c != null
      invariant j0 <= j <= d[p].end && c == (if j == d[p].end then null else nodes[j])
      invariant j < d[p].end ==> d[j].parent == p
      invariant Progress(nodes, ns, Upward(d, axis, test, Elem(i), j), whole, once)
      decreases d[p].end - j
    {
      assert Linked(d, nodes, j);
      Visit(d, nodes, axis, test, Elem(i), j);
      ns, pushed := StepPush(nodes, j, c, test, once, ns, Upward(d, axis, test, Elem(i), j), Upward(d, axis, test, Elem(i), j + 1), whole);
      if pushed && once { return; }
      assert ParentRow(d, j) && j < d[j].end <= d[p].end;
      InsideSibling(d, j);
      SkipUp(d, axis, test, Elem(i), j + 1, d[j].end);
      if HasNext(d, j) { NextChild(d, j); }
      c := c.nextSibling;
      j := d[j].end;
    }
    forall m | j <= m < |d| ensures d[m].parent != p { if m > 0 { assert ParentRow(d, m); } }
    FinishUp(d, nodes, axis, test, Elem(i), j, ns, whole, once);
  }

  /** axis_child. */
  method Children(ghost d: Doc, ghost nodes: seq<XmlNode>, ghost i: nat, n: XmlNode, test: NodeTest, once: bool)
    returns (ns: seq<XmlNode>)
    requires Layout(d, nodes) && i < |d| && n == nodes[i]
    ensures ns == Objects(nodes, Cut(once, AxisNodes(d, Child, test, Elem(i))))
  {
    SiblingHits(d, test, i);
    hide Objects, Cut, Progress, Upward, AxisNodes, Hit;
    StartUp(d, nodes, Child, test, Elem(i), once);
    forall m | 0 <= m <= i ensures d[m].parent != i { if m > 0 { assert ParentRow(d, m); } }
    SkipUp(d, Child, test, Elem(i), 0, i + 1);
    assert Linked(d, nodes, i);
    assert i < d[i].end;
    if i + 1 < d[i].end { FirstRow(d, i); }
    ns := AlongSiblings(d, nodes, Child, i, i, i + 1, n.firstChild, test, once, AxisNodes(d, Child, test, Elem(i)));
  }

  /** axis_following_sibling. */
  method FollowingSiblings(ghost d: Doc, ghost nodes: seq<XmlNode>, ghost i: nat, n: XmlNode, test: NodeTest, once: bool)
    returns (ns: seq<XmlNode>)
    requires Layout(d, nodes) && i < |d| && n == nodes[i]
    ensures ns == Objects(nodes, Cut(once, AxisNodes(d, FollowingSibling, test, Elem(i))))
  {
    SiblingHits(d, test, i);
    hide Objects, Cut, Progress, Upward, AxisNodes, Hit;
    ghost var whole := AxisNodes(d, FollowingSibling, test, Elem(i));
    StartUp(d, nodes, FollowingSibling, test, Elem(i), once);
    assert Linked(d, nodes, i);
    if n.parent == null {
      // the document node is the root of the list and has no siblings
      ns := [];
      ParentLink(d, nodes, i);
      FinishUp(d, nodes, FollowingSibling, test, Elem(i), 0, ns, whole, once);
    } else {
      assert ParentRow(d, i);
      ghost var p := d[i].parent;
      InsideSibling(d, i);
      SkipUp(d, FollowingSibling, test, Elem(i), 0, d[i].end);
      assert i < d[i].end <= d[p].end;
      if HasNext(d, i) { NextChild(d, i); }
      ns := AlongSiblings(d, nodes, FollowingSibling, i, p, d[i].end, n.nextSibling, test, once, whole);
    }
  }

  /** axis_preceding_sibling. */
  method PrecedingSiblings(ghost d: Doc, ghost nodes: seq<XmlNode>, ghost i: nat, n: XmlNode, test: NodeTest, once: bool)
    returns (ns: seq<XmlNode>)
    requires Layout(d, nodes) && i < |d| && n == nodes[i]
    ensures ns == Objects(nodes, Cut(once, AxisNodes(d, PrecedingSibling, test, Elem(i))))
  {
    LayoutSize(d, nodes);
    SiblingHits(d, test, i);
    hide Objects, Cut, Progress, Downward, AxisNodes, Hit, Layout, ValidDoc, PassesElem, PassesKind;
    ghost var whole := AxisNodes(d, PrecedingSibling, test, Elem(i));
    ns := [];
    var pushed;
    StartDown(d, nodes, PrecedingSibling, test, Elem(i), once);
    SkipDown(d, PrecedingSibling, test, Elem(i), i, |d|);
    PrevHasNext(d, nodes, i);
    var c := n.prevSiblingC;
    ghost var r: nat := i;
    while c.nextSibling != null
      invariant 0 <= r <= i && c != null && c == nodes[r].prevSiblingC && d[r].parent == d[i].parent
      invariant Progress(nodes, ns, Downward(d, PrecedingSibling, test, Elem(i), r), whole, once)
      decreases r
    {
      PrevHasNext(d, nodes, r);
      PrevRowFacts(d, r);
      PrevLink(d, nodes, r);
      ghost var q := PrevRow(d, r);
      InsideSibling(d, q);
      ns, pushed := StepBack(d, nodes, PrecedingSibling, Elem(i), q, r, c, test, once, ns, whole);
      if pushed && once { return; }
      PrevHasNext(d, nodes, q);
      c := c.prevSiblingC;
      r := q;
    }
    PrevHasNext(d, nodes, r);
    NoEarlierSiblings(d, r);
    FinishDown(d, nodes, PrecedingSibling, test, Elem(i), r, ns, whole, once);
  }

  lemma NoEarlierSiblings(d: Doc, r: nat)
    requires ValidDoc(d) && r < |d| && (r == 0 || r == d[r].parent + 1)
    ensures forall m :: 0 < m < r ==> d[m].parent != d[r].parent
  {
    forall m | 0 < m < r ensures d[m].parent != d[r].parent { assert ParentRow(d, m); }
  }

  /** axis_self and axis_parent: at most one node, whatever `once` says. */
  method PushAlone(ghost d: Doc, ghost nodes: seq<XmlNode>, ghost axis: Axis, ghost i: nat, ghost j: nat, n: XmlNode, test: NodeTest)
    returns (ns: seq<XmlNode>)
    requires Layout(d, nodes) && i < |d| && j < |d| && n == nodes[j]
    requires (axis == Self && j == i) || (axis == Parent && j == d[i].parent)
    ensures ns == Objects(nodes, AxisNodes(d, axis, test, Elem(i)))
  {
    OneHit(d, nodes, axis, i, j, test);
    NodeData(d, nodes, j, test);
    ns := if PassesKind(n.kind, n.name, test) then [n] else [];
  }

  lemma OneHit(d: Doc, nodes: seq<XmlNode>, axis: Axis, i: nat, j: nat, test: NodeTest)
    requires Layout(d, nodes) && i < |d| && j < |d| && ((axis == Self && j == i) || (axis == Parent && j == d[i].parent))
    ensures AxisNodes(d, axis, test, Elem(i)) == Opt(PassesElem(d[j], test), j)
    ensures Objects(nodes, Opt(PassesElem(d[j], test), j)) == if PassesElem(d[j], test) then [nodes[j]] else []
  {
    LayoutSize(d, nodes);
    hide Layout, PassesElem, ValidDoc;
    assert forall m :: 0 <= m < |d| ==> Hit(d, axis, test, Elem(i), m) == (m == j && PassesElem(d[m], test));
    OnlyHit(d, axis, test, Elem(i), j);
    assert [Elem(j)][1..] == [];
  }

  lemma OnlyHit(d: Doc, axis: Axis, test: NodeTest, x: XNode, j: nat)
    requires j < |d| && x.Elem? && axis != Attribute && !IsReverse(axis)
    requires forall m :: 0 <= m < |d| ==> Hit(d, axis, test, x, m) == (m == j && PassesElem(d[m], test))
    ensures AxisNodes(d, axis, test, x) == Opt(PassesElem(d[j], test), j)
  {
    hide Hit, PassesElem;
    SkipUp(d, axis, test, x, 0, j);
    SkipUp(d, axis, test, x, j + 1, |d|);
  }

  lemma NoParent(d: Doc, nodes: seq<XmlNode>, i: nat, test: NodeTest)
    requires Layout(d, nodes) && i < |d| && nodes[i].parent == null
    ensures AxisNodes(d, Parent, test, Elem(i)) == [] && Objects(nodes, []) == []
  {
    ParentLink(d, nodes, i);
    SkipUp(d, Parent, test, Elem(i), 0, |d|);
  }

  /** step_fill from an attribute of n: its ancestors start at n itself. The attribute itself is not pushed here. */
  method AncestorsOfAttr(ghost d: Doc, ghost nodes: seq<XmlNode>, ghost i: nat, ghost k: nat, n: XmlNode, ghost axis: Axis, test: NodeTest, once: bool)
    returns (ns: seq<XmlNode>)
    requires Layout(d, nodes) && i < |d| && k < |d[i].attrs| && n == nodes[i] && (axis == Ancestor || axis == AncestorOrSelf)
    ensures ns == Objects(nodes, Cut(once, Downward(d, axis, test, Attr(i, k), |d|)))
  {
    LayoutSize(d, nodes);
    AncestorHitsOfAttr(d, axis, test, i, k);
    hide Objects, Cut, Downward, Hit, Layout, ValidDoc, PassesElem, PassesKind, NextAbove;
    ghost var x := Attr(i, k);
    SkipDown(d, axis, test, x, i + 1, |d|);
    SelfAbove(d, nodes, i);
    ns := AlongParents(d, nodes, axis, x, i, i + 1, n, test, once, [], Downward(d, axis, test, x, |d|));
  }

  lemma AncestorHitsOfAttr(d: Doc, axis: Axis, test: NodeTest, i: nat, k: nat)
    requires i < |d| && k < |d[i].attrs| && (axis == Ancestor || axis == AncestorOrSelf)
    ensures forall m :: 0 <= m < |d| ==> (Hit(d, axis, test, Attr(i, k), m) <==> m <= i < d[m].end && PassesElem(d[m], test))
  {
  }

  // ---- document order by pointers

  /** Number of parent links above row i. */
  function Depth(d: Doc, i: nat): nat
    requires ValidDoc(d) && i < |d|
    decreases i
  {
    if i == 0 then 0 else assert ParentRow(d, i); 1 + Depth(d, d[i].parent)
  }

  /** Siblings order their whole subtrees. */
  lemma SubtreesInOrder(d: Doc, a: nat, l: nat, b: nat, r: nat)
    requires ValidDoc(d) && 0 < a < b < |d| && d[a].parent == d[b].parent
    requires a <= l < d[a].end && b <= r
    ensures d[a].end <= b && l < r
  {
    assert ParentRow(d, a) && ParentRow(d, b);
  }

  /** The next sibling of a row that has a later sibling b. */
  lemma TowardsSibling(d: Doc, nodes: seq<XmlNode>, c: nat, b: nat)
    requires Layout(d, nodes) && 0 < c < b < |d| && d[c].parent == d[b].parent
    ensures c < d[c].end <= b && d[d[c].end].parent == d[c].parent && nodes[c].nextSibling == nodes[d[c].end]
  {
    assert Linked(d, nodes, c);
    assert ParentRow(d, b) && ParentRow(d, c);
    NextChild(d, c);
  }

  /** What next_sibling of a non-root row leads to. */
  lemma NextLink(d: Doc, nodes: seq<XmlNode>, c: nat)
    requires Layout(d, nodes) && 0 < c < |d|
    ensures nodes[c].nextSibling != null ==>
              c < d[c].end < |d| && d[d[c].end].parent == d[c].parent && nodes[c].nextSibling == nodes[d[c].end]
  {
    assert Linked(d, nodes, c);
    if HasNext(d, c) { NextChild(d, c); }
  }

  lemma SameObject(d: Doc, nodes: seq<XmlNode>, a: nat, b: nat)
    requires Layout(d, nodes) && a < |d| && b < |d|
    ensures nodes[a] == nodes[b] <==> a == b
  {
  }

  /** Row bookkeeping for one of the two sibling walks: ls started at row a, and passes rows up to b if b comes later. */
  ghost predicate Walking(d: Doc, nodes: seq<XmlNode>, a: nat, b: nat, ls: XmlNode?, c: nat)
    requires ValidDoc(d) && |nodes| == |d|
  {
    && 0 < a <= c <= |d| && a < |d| && b < |d|
    && (ls != null ==> c < |d| && ls == nodes[c] && d[c].parent == d[a].parent)
    && (a < b ==> ls != null && c <= b)
  }

  lemma WalkOn(d: Doc, nodes: seq<XmlNode>, a: nat, b: nat, ls: XmlNode, c: nat) returns (c': nat)
    requires Layout(d, nodes) && Walking(d, nodes, a, b, ls, c) && 0 < b && d[a].parent == d[b].parent && c != b
    ensures Walking(d, nodes, a, b, ls.nextSibling, c') && c < c'
  {
    c' := d[c].end;
    assert c < d[c].end;
    NextLink(d, nodes, c);
    if a < b { TowardsSibling(d, nodes, c, b); }
  }

  lemma SiblingRows(d: Doc, nodes: seq<XmlNode>, a: nat, b: nat)
    requires Layout(d, nodes) && a < |d| && b < |d| && nodes[a] != nodes[b] && nodes[a].parent == nodes[b].parent != null
    ensures 0 < a && 0 < b && a != b && d[a].parent == d[b].parent
  {
    ParentLink(d, nodes, a);
    ParentLink(d, nodes, b);
    SameObject(d, nodes, d[a].parent, d[b].parent);
  }

  /** node_is_before_sibling: two children of one parent, or two documents, which are ordered by address. */
  method NodeIsBeforeSibling(ghost d: Doc, ghost nodes: seq<XmlNode>, ghost a: nat, ghost b: nat, ln: XmlNode, rn: XmlNode,
                             address: XmlNode -> nat)
    returns (before: bool)
    requires ln.parent == rn.parent && ln != rn
    requires ln.parent != null ==> Layout(d, nodes) && a < |d| && b < |d| && ln == nodes[a] && rn == nodes[b]
    ensures before <==> if ln.parent == null then address(ln) < address(rn) else a < b
  {
    if ln.parent == null { return address(ln) < address(rn); }
    SiblingRows(d, nodes, a, b);
    var ls: XmlNode?, rs: XmlNode? := ln, rn;
    ghost var c, e := a, b;
    while ls != null && rs != null
      invariant Walking(d, nodes, a, b, ls, c) && Walking(d, nodes, b, a, rs, e)
      decreases |d| - c
    {
      SameObject(d, nodes, c, b);
      SameObject(d, nodes, e, a);
      if ls == rn { return true; }
      if rs == ln { return false; }
      c := WalkOn(d, nodes, a, b, ls, c);
      e := WalkOn(d, nodes, b, a, rs, e);
      ls, rs := ls.nextSibling, rs.nextSibling;
    }
    before := rs == null;
  }

  /** cur is at row c above row l, `up` links above l, or has climbed past the root. */
  ghost predicate Climbed(d: Doc, nodes: seq<XmlNode>, l: nat, cur: XmlNode?, c: nat, up: nat)
    requires ValidDoc(d) && |nodes| == |d|
  {
    && l < |d|
    && if cur == null then up == Depth(d, l) + 1
       else c <= l < |d| && cur == nodes[c] && l < d[c].end && Depth(d, l) == Depth(d, c) + up
  }

  lemma ClimbOne(d: Doc, nodes: seq<XmlNode>, l: nat, cur: XmlNode, c: nat, up: nat) returns (c': nat)
    requires Layout(d, nodes) && Climbed(d, nodes, l, cur, c, up)
    ensures Climbed(d, nodes, l, cur.parent, c', up + 1)
  {
    ParentLink(d, nodes, c);
    if c > 0 { AncestorUp(d, l, c); c' := d[c].parent; } else { c' := 0; }
  }

  /** Two rows at one depth under one parent are ordered as everything below them is. */
  lemma MeetAtSiblings(d: Doc, nodes: seq<XmlNode>, l: nat, r: nat, lp: XmlNode, rp: XmlNode, a: nat, b: nat, up: nat, up': nat)
    requires Layout(d, nodes) && Climbed(d, nodes, l, lp, a, up) && Climbed(d, nodes, r, rp, b, up')
    requires lp.parent == rp.parent && a != b
    ensures lp.parent != null && 0 < a && 0 < b && d[a].parent == d[b].parent && (l < r <==> a < b)
    ensures Depth(d, a) == Depth(d, b)
  {
    ParentLink(d, nodes, a);
    ParentLink(d, nodes, b);
    if a > 0 && b > 0 { SameObject(d, nodes, d[a].parent, d[b].parent); }
    if a < b { SubtreesInOrder(d, a, l, b, r); } else { SubtreesInOrder(d, b, r, a, l); }
  }

  /** node_is_before: from two different nodes of one tree, which comes first in document order. */
  method NodeIsBefore(ghost d: Doc, ghost nodes: seq<XmlNode>, ghost l: nat, ghost r: nat, ln0: XmlNode, rn0: XmlNode, address: XmlNode -> nat)
    returns (before: bool)
    requires Layout(d, nodes) && l < |d| && r < |d| && l != r && ln0 == nodes[l] && rn0 == nodes[r]
    ensures before <==> l < r
  {
    assert l < d[l].end && r < d[r].end;
    var ln, rn := ln0, rn0;
    var lp: XmlNode?, rp: XmlNode? := ln, rn;
    ghost var a, b, up := l, r, 0;
    while lp != null && rp != null && lp.parent != rp.parent
      invariant Climbed(d, nodes, l, lp, a, up) && Climbed(d, nodes, r, rp, b, up)
      invariant lp != null && rp != null ==> a != b
      invariant lp == null ==> rp != null || Depth(d, l) == Depth(d, r)
      invariant lp == null || rp == null ==> Depth(d, l) != Depth(d, r)
      decreases lp != null, a
    {
      DepthOfParents(d, nodes, a, b, lp, rp);
      ghost var a' := ClimbOne(d, nodes, l, lp, a, up);
      ghost var b' := ClimbOne(d, nodes, r, rp, b, up);
      ParentLink(d, nodes, a);
      ParentLink(d, nodes, b);
      lp, rp := lp.parent, rp.parent;
      a, b, up := a', b', up + 1;
    }
    if lp != null && rp != null {
      MeetAtSiblings(d, nodes, l, r, lp, rp, a, b, up, up);
      before := NodeIsBeforeSibling(d, nodes, a, b, lp, rp, address);
      return;
    }
    var leftHigher := lp == null;
    ghost var lup, rup;
    ln, a, lup := RaiseBy(d, nodes, l, ln, lp, a, up);
    rn, b, rup := RaiseBy(d, nodes, r, rn, rp, b, up);
    SameObject(d, nodes, a, b);
    if ln == rn { return leftHigher; }
    before := BeforeAtOneDepth(d, nodes, l, r, ln, rn, a, b, lup, rup, address);
  }

  /** Height normalisation: n climbs as many links as `rest` still has above it. */
  method RaiseBy(ghost d: Doc, ghost nodes: seq<XmlNode>, ghost l: nat, n: XmlNode, rest: XmlNode?, ghost c: nat, ghost up: nat)
    returns (raised: XmlNode, ghost a: nat, ghost lup: nat)
    requires Layout(d, nodes) && Climbed(d, nodes, l, rest, c, up) && 0 < up && l < |d| && n == nodes[l]
    ensures Climbed(d, nodes, l, raised, a, lup) && lup + up == Depth(d, l) + 1
    ensures rest == null ==> a == l
  {
    assert l < d[l].end;
    var cur := rest;
    ghost var k := c;
    raised, a, lup := n, l, 0;
    while cur != null
      invariant Climbed(d, nodes, l, cur, k, up + lup) && Climbed(d, nodes, l, raised, a, lup)
      invariant rest == null ==> cur == null && a == l
      decreases cur != null, k
    {
      ghost var k' := ClimbOne(d, nodes, l, cur, k, up + lup);
      ParentLink(d, nodes, k);
      ghost var a' := ClimbOne(d, nodes, l, raised, a, lup);
      assert raised.parent != null;
      cur, raised := cur.parent, raised.parent;
      k, a, lup := k', a', lup + 1;
    }
  }

  /** The last loop of node_is_before: both sides climb until they are siblings. */
  method BeforeAtOneDepth(ghost d: Doc, ghost nodes: seq<XmlNode>, ghost l: nat, ghost r: nat, ln0: XmlNode, rn0: XmlNode,
                          ghost a0: nat, ghost b0: nat, ghost lup0: nat, ghost rup0: nat, address: XmlNode -> nat)
    returns (before: bool)
    requires Layout(d, nodes) && Climbed(d, nodes, l, ln0, a0, lup0) && Climbed(d, nodes, r, rn0, b0, rup0)
    requires a0 != b0 && Depth(d, a0) == Depth(d, b0)
    ensures before <==> l < r
  {
    var ln: XmlNode, rn: XmlNode := ln0, rn0;
    ghost var a: nat, b: nat, lup: nat, rup: nat := a0, b0, lup0, rup0;
    while ln.parent != rn.parent
      invariant Climbed(d, nodes, l, ln, a, lup) && Climbed(d, nodes, r, rn, b, rup) && a < |d| && b < |d|
      invariant a != b && Depth(d, a) == Depth(d, b)
      decreases a
    {
      DepthOfParents(d, nodes, a, b, ln, rn);
      ghost var a' := ClimbOne(d, nodes, l, ln, a, lup);
      ghost var b' := ClimbOne(d, nodes, r, rn, b, rup);
      ParentLink(d, nodes, a);
      ParentLink(d, nodes, b);
      ln, rn := ln.parent, rn.parent;
      SameObject(d, nodes, a', b');
      a, b, lup, rup := a', b', lup + 1, rup + 1;
    }
    MeetAtSiblings(d, nodes, l, r, ln, rn, a, b, lup, rup);
    before := NodeIsBeforeSibling(d, nodes, a, b, ln, rn, address);
  }

  lemma DepthOfParents(d: Doc, nodes: seq<XmlNode>, a: nat, b: nat, lp: XmlNode, rp: XmlNode)
    requires Layout(d, nodes) && a < |d| && b < |d| && lp == nodes[a] && rp == nodes[b] && lp.parent != rp.parent
    ensures (lp.parent == null) != (rp.parent == null) ==> Depth(d, a) != Depth(d, b)
    ensures !(lp.parent == null && rp.parent == null)
    ensures lp.parent != null && rp.parent != null ==> d[a].parent != d[b].parent
  {
    ParentLink(d, nodes, a);
    ParentLink(d, nodes, b);
  }
}
