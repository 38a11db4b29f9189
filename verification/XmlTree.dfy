/**
 The document table and the XPath axes over it (XPath 1.0, section 2.2).

 Row i describes the i-th tree node in document order. `parent` is -1 for the document
 node and `end` is one past the last descendant, so that the subtree of i is [i, end).
 */
module XmlTree {
  import opened NodeOrder

  datatype AttrRec = AttrRec(name: string, value: string)

  datatype NodeKind = NoNode | Document | Element | PcData | CData | Comment | Pi | Declaration | Doctype

  datatype NodeRec = NodeRec(kind: NodeKind, name: string, parent: int, end: nat, attrs: seq<AttrRec>)

  type Doc = seq<NodeRec>

  /** Row i's parent precedes it and its subtree covers row i, and everything in between is closed before i. */
  predicate ParentRow(d: Doc, i: nat)
    requires i < |d|
  {
    && 0 <= d[i].parent < i < d[d[i].parent].end
    && forall k :: d[i].parent < k < i ==> d[k].end <= i
  }

  /** d is the preorder table of some tree. */
  predicate ValidDoc(d: Doc) {
    && |d| > 0 && d[0].parent == -1 && d[0].end == |d|
    && (forall i :: 0 <= i < |d| ==> i < d[i].end <= |d|)
    && (forall i :: 0 < i < |d| ==> ParentRow(d, i))
    && (forall i, j :: 0 <= i < j < |d| && j < d[i].end ==> d[j].end <= d[i].end)
  }

  datatype Axis =
    | Ancestor | AncestorOrSelf | Attribute | Child | Descendant | DescendantOrSelf
    | Following | FollowingSibling | Namespace | Parent | Preceding | PrecedingSibling | Self

  predicate IsReverse(axis: Axis) {
    axis.Ancestor? || axis.AncestorOrSelf? || axis.Preceding? || axis.PrecedingSibling?
  }

  /** Tree node j is on `axis` of tree node i. */
  predicate OnAxis(d: Doc, axis: Axis, i: nat, j: nat)
    requires i < |d| && j < |d|
  {
    match axis
    case Self => j == i
    case Parent => j == d[i].parent
    case Child => d[j].parent == i
    case Ancestor => j < i < d[j].end
    case AncestorOrSelf => j <= i < d[j].end
    case Descendant => i < j < d[i].end
    case DescendantOrSelf => i <= j < d[i].end
    case Following => d[i].end <= j
    case Preceding => d[j].end <= i
    case FollowingSibling => i < j && i > 0 && d[j].parent == d[i].parent
    case PrecedingSibling => j < i && j > 0 && d[j].parent == d[i].parent
    case Attribute => false
    case Namespace => false
  }

  /** Tree node j is on `axis` of an attribute of tree node p (an attribute has no children or siblings). */
  predicate OnAxisOfAttr(d: Doc, axis: Axis, p: nat, j: nat)
    requires p < |d| && j < |d|
  {
    match axis
    case Parent => j == p
    case Ancestor => j <= p < d[j].end
    case AncestorOrSelf => j <= p < d[j].end
    case Following => p < j
    case Preceding => d[j].end <= p
    case _ => false
  }

  /** i is an ancestor of j exactly when it is j's parent or an ancestor of j's parent. */
  lemma AncestorByParent(d: Doc, i: nat, j: nat)
    requires ValidDoc(d) && i < |d| && 0 < j < |d|
    ensures 0 <= d[j].parent < j
    ensures i < j < d[i].end <==> i <= d[j].parent < d[i].end
  {
    assert ParentRow(d, j);
    var p := d[j].parent;
    assert p < j < d[p].end;
    assert p < i < j ==> d[i].end <= j;
    if i <= p < d[i].end && i < p {
      assert d[p].end <= d[i].end;
    }
  }

  // ---- node tests

  datatype NodeTest =
    | TestName(name: string) | TestNode | TestComment | TestPi | TestText
    | TestPiName(name: string) | TestAll | TestAllInNamespace(prefix: string)

  predicate StartsWith(s: string, prefix: string) {
    prefix <= s
  }

  /** Namespace declarations are not attributes in the XPath data model. */
  predicate IsXPathAttribute(name: string) {
    !(StartsWith(name, "xmlns") && (|name| == 5 || name[5] == ':'))
  }

  /** The node test on an axis whose principal node type is element. */
  predicate PassesKind(kind: NodeKind, name: string, test: NodeTest) {
    match test
    case TestName(s) => kind == Element && name == s
    case TestNode => true
    case TestComment => kind == Comment
    case TestText => kind == PcData || kind == CData
    case TestPi => kind == Pi
    case TestPiName(s) => kind == Pi && name == s
    case TestAll => kind == Element
    case TestAllInNamespace(p) => kind == Element && StartsWith(name, p)
  }

  predicate PassesElem(n: NodeRec, test: NodeTest) {
    PassesKind(n.kind, n.name, test)
  }

  /** The node test on the attribute axis. */
  predicate PassesAttr(a: AttrRec, test: NodeTest) {
    IsXPathAttribute(a.name) &&
    match test
    case TestName(s) => a.name == s
    case TestNode => true
    case TestAll => true
    case TestAllInNamespace(p) => StartsWith(a.name, p)
    case _ => false
  }

  // ---- the nodes of an axis that pass a test, in axis order

  predicate Hit(d: Doc, axis: Axis, test: NodeTest, x: XNode, j: nat)
    requires j < |d|
  {
    match x
    case Null => false
    case Elem(i) => i < |d| && OnAxis(d, axis, i, j) && PassesElem(d[j], test)
    case Attr(p, k) => p < |d| && k < |d[p].attrs| && OnAxisOfAttr(d, axis, p, j) && PassesElem(d[j], test)
  }

  function Upward(d: Doc, axis: Axis, test: NodeTest, x: XNode, j: nat): seq<XNode>
    requires j <= |d|
    decreases |d| - j
  {
    if j == |d| then []
    else (if Hit(d, axis, test, x, j) then [Elem(j)] else []) + Upward(d, axis, test, x, j + 1)
  }

  function Downward(d: Doc, axis: Axis, test: NodeTest, x: XNode, j: nat): seq<XNode>
    requires j <= |d|
  {
    if j == 0 then []
    else (if Hit(d, axis, test, x, j - 1) then [Elem(j - 1)] else []) + Downward(d, axis, test, x, j - 1)
  }

  function AttrsFrom(d: Doc, test: NodeTest, i: nat, k: nat): seq<XNode>
    requires i < |d| && k <= |d[i].attrs|
    decreases |d[i].attrs| - k
  {
    if k == |d[i].attrs| then []
    else (if PassesAttr(d[i].attrs[k], test) then [Attr(i, k)] else []) + AttrsFrom(d, test, i, k + 1)
  }

  function Take1<T>(s: seq<T>): seq<T> {
    if s == [] then [] else [s[0]]
  }

  /** An attribute reached through self, or-self: only node() accepts it. */
  predicate KeepsSelf(d: Doc, axis: Axis, test: NodeTest, x: XNode) {
    && x.Attr? && x.i < |d| && x.k < |d[x.i].attrs|
    && (axis == AncestorOrSelf || axis == DescendantOrSelf || axis == Self)
    && test == TestNode && PassesAttr(d[x.i].attrs[x.k], test)
  }

  /**
   The nodes a step selects from one context node, in axis order. The attribute axis with a
   name test stops at the first match, as attribute names are unique within an element.
   */
  function AxisNodes(d: Doc, axis: Axis, test: NodeTest, x: XNode): seq<XNode> {
    if axis == Attribute then
      if x.Elem? && x.i < |d| then
        var all := AttrsFrom(d, test, x.i, 0);
        if test.TestName? then Take1(all) else all
      else []
    else if IsReverse(axis) then
      (if KeepsSelf(d, axis, test, x) then [x] else []) + Downward(d, axis, test, x, |d|)
    else
      (if KeepsSelf(d, axis, test, x) then [x] else []) + Upward(d, axis, test, x, 0)
  }

  lemma {:induction false} UpwardFacts(d: Doc, axis: Axis, test: NodeTest, x: XNode, j: nat)
    requires j <= |d|
    ensures forall y :: y in Upward(d, axis, test, x, j) <==> y.Elem? && j <= y.i < |d| && Hit(d, axis, test, x, y.i)
    ensures Increasing(Upward(d, axis, test, x, j))
    decreases |d| - j
  {
    if j < |d| {
      UpwardFacts(d, axis, test, x, j + 1);
      var head := if Hit(d, axis, test, x, j) then [Elem(j)] else [];
      var tail := Upward(d, axis, test, x, j + 1);
      assert forall y :: y in head + tail <==> y in head || y in tail;
      assert forall k :: 0 <= k < |tail| ==> tail[k] in tail;
    }
  }

  lemma {:induction false} DownwardFacts(d: Doc, axis: Axis, test: NodeTest, x: XNode, j: nat)
    requires j <= |d|
    ensures forall y :: y in Downward(d, axis, test, x, j) <==> y.Elem? && y.i < j && Hit(d, axis, test, x, y.i)
    ensures Decreasing(Downward(d, axis, test, x, j))
  {
    if j > 0 {
      DownwardFacts(d, axis, test, x, j - 1);
      var head := if Hit(d, axis, test, x, j - 1) then [Elem(j - 1)] else [];
      var tail := Downward(d, axis, test, x, j - 1);
      assert forall y :: y in head + tail <==> y in head || y in tail;
      assert forall k :: 0 <= k < |tail| ==> tail[k] in tail;
    }
  }

  lemma {:induction false} AttrsFacts(d: Doc, test: NodeTest, i: nat, k: nat)
    requires i < |d| && k <= |d[i].attrs|
    ensures forall y :: y in AttrsFrom(d, test, i, k) <==>
              y.Attr? && y.i == i && k <= y.k < |d[i].attrs| && PassesAttr(d[i].attrs[y.k], test)
    ensures Increasing(AttrsFrom(d, test, i, k))
    decreases |d[i].attrs| - k
  {
    if k < |d[i].attrs| {
      AttrsFacts(d, test, i, k + 1);
      var head := if PassesAttr(d[i].attrs[k], test) then [Attr(i, k)] else [];
      var tail := AttrsFrom(d, test, i, k + 1);
      assert forall y :: y in head + tail <==> y in head || y in tail;
      assert forall m :: 0 <= m < |tail| ==> tail[m] in tail;
    }
  }

  /** Forward axes yield document order and reverse axes its reverse. */
  lemma {:induction false} AxisNodesOrdered(d: Doc, axis: Axis, test: NodeTest, x: XNode)
    requires ValidDoc(d)
    ensures if IsReverse(axis) then Decreasing(AxisNodes(d, axis, test, x)) else Increasing(AxisNodes(d, axis, test, x))
  {
    hide ValidDoc, Upward, Downward, AttrsFrom, PassesElem, PassesAttr;
    if axis == Attribute {
      if x.Elem? && x.i < |d| { AttrsFacts(d, test, x.i, 0); }
    } else if IsReverse(axis) {
      DownwardFacts(d, axis, test, x, |d|);
      SelfFirst(d, axis, test, x, Downward(d, axis, test, x, |d|));
    } else {
      UpwardFacts(d, axis, test, x, 0);
      SelfAlone(d, axis, test, x, Upward(d, axis, test, x, 0));
    }
  }

  /** On a reverse axis an attribute comes before its ancestors. */
  lemma SelfFirst(d: Doc, axis: Axis, test: NodeTest, x: XNode, tail: seq<XNode>)
    requires IsReverse(axis) && Decreasing(tail) && forall y :: y in tail ==> y.Elem? && y.i < |d| && Hit(d, axis, test, x, y.i)
    ensures Decreasing((if KeepsSelf(d, axis, test, x) then [x] else []) + tail)
  {
    hide PassesElem, PassesAttr;
    assert forall m :: 0 <= m < |tail| ==> tail[m] in tail;
  }

  /** On a forward axis an attribute is kept only where nothing else is found. */
  lemma SelfAlone(d: Doc, axis: Axis, test: NodeTest, x: XNode, tail: seq<XNode>)
    requires !IsReverse(axis) && Increasing(tail) && forall y :: y in tail ==> y.Elem? && y.i < |d| && Hit(d, axis, test, x, y.i)
    ensures Increasing((if KeepsSelf(d, axis, test, x) then [x] else []) + tail)
  {
    hide PassesElem, PassesAttr;
    assert tail != [] ==> tail[0] in tail;
  }

  /** Which nodes a step selects (all axes but attribute). */
  lemma {:induction false} AxisNodesMembers(d: Doc, axis: Axis, test: NodeTest, x: XNode, y: XNode)
    requires axis != Attribute
    ensures y in AxisNodes(d, axis, test, x) <==>
              (y == x && KeepsSelf(d, axis, test, x)) || (y.Elem? && y.i < |d| && Hit(d, axis, test, x, y.i))
  {
    UpwardFacts(d, axis, test, x, 0);
    DownwardFacts(d, axis, test, x, |d|);
  }

  /** On the child, attribute and self axes two context nodes never select a common node. */
  lemma {:induction false} DisjointSources(d: Doc, axis: Axis, test: NodeTest, x: XNode, z: XNode, y: XNode)
    requires axis == Child || axis == Attribute || axis == Self
    requires y in AxisNodes(d, axis, test, x) && y in AxisNodes(d, axis, test, z)
    ensures x == z
  {
    if axis == Attribute {
      AttributesOf(d, test, x, y);
      AttributesOf(d, test, z, y);
    } else {
      AxisNodesMembers(d, axis, test, x, y);
      AxisNodesMembers(d, axis, test, z, y);
      hide AxisNodes, PassesElem, PassesAttr;
    }
  }

  /** The attribute axis yields attributes of the context node. */
  lemma AttributesOf(d: Doc, test: NodeTest, x: XNode, y: XNode)
    requires y in AxisNodes(d, Attribute, test, x)
    ensures x.Elem? && y.Attr? && y.i == x.i
  {
    AttrsFacts(d, test, x.i, 0);
    hide PassesAttr;
  }

  lemma {:induction false} DistinctCount(s: seq<XNode>, x: XNode)
    requires Distinct(s)
    ensures multiset(s)[x] == if x in s then 1 else 0
  {
    if s != [] {
      assert s == [s[0]] + s[1..];
      DistinctCount(s[1..], x);
    }
  }

  /** One axis from node i with test node(): every node on it once. */
  lemma {:induction false} WalkCount(d: Doc, axis: Axis, i: nat, x: XNode)
    requires ValidDoc(d) && i < |d| && axis != Attribute
    ensures multiset(AxisNodes(d, axis, TestNode, Elem(i)))[x] == if x.Elem? && x.i < |d| && OnAxis(d, axis, i, x.i) then 1 else 0
  {
    var s := AxisNodes(d, axis, TestNode, Elem(i));
    AxisNodesOrdered(d, axis, TestNode, Elem(i));
    AxisNodesMembers(d, axis, TestNode, Elem(i), x);
    assert Distinct(s) by { hide AxisNodes, ValidDoc; }
    hide AxisNodes, ValidDoc;
    DistinctCount(s, x);
  }

  /**
   The five axes that section 2.2 says partition a document: from any node, together they
   visit each tree node exactly once.
   */
  lemma {:induction false} WalksPartition(d: Doc, i: nat)
    requires ValidDoc(d) && i < |d|
    ensures forall x :: VisitCount(d, i, x) == multiset(AxisNodes(d, DescendantOrSelf, TestNode, Elem(0)))[x]
  {
    forall x: XNode ensures VisitCount(d, i, x) == multiset(AxisNodes(d, DescendantOrSelf, TestNode, Elem(0)))[x] {
      WalkCount(d, Self, i, x);
      WalkCount(d, Ancestor, i, x);
      WalkCount(d, Descendant, i, x);
      WalkCount(d, Following, i, x);
      WalkCount(d, Preceding, i, x);
      WalkCount(d, DescendantOrSelf, 0, x);
      hide AxisNodes, ValidDoc, OnAxis;
      if x.Elem? && x.i < |d| { OnOneAxis(d, i, x.i); }
    }
    hide AxisNodes, ValidDoc;
  }

  /** How often the five walks from node i visit x in all. */
  function VisitCount(d: Doc, i: nat, x: XNode): nat {
    multiset(AxisNodes(d, Self, TestNode, Elem(i)))[x] + multiset(AxisNodes(d, Ancestor, TestNode, Elem(i)))[x]
    + multiset(AxisNodes(d, Descendant, TestNode, Elem(i)))[x] + multiset(AxisNodes(d, Following, TestNode, Elem(i)))[x]
    + multiset(AxisNodes(d, Preceding, TestNode, Elem(i)))[x]
  }

  lemma OnOneAxis(d: Doc, i: nat, j: nat)
    requires ValidDoc(d) && i < |d| && j < |d|
    ensures (if OnAxis(d, Self, i, j) then 1 else 0) + (if OnAxis(d, Ancestor, i, j) then 1 else 0)
          + (if OnAxis(d, Descendant, i, j) then 1 else 0) + (if OnAxis(d, Following, i, j) then 1 else 0)
          + (if OnAxis(d, Preceding, i, j) then 1 else 0) == 1
    ensures OnAxis(d, DescendantOrSelf, 0, j)
  {
    assert i < d[i].end && j < d[j].end;
  }
}
