/**
 step_fill: from any context node, tree node or attribute, the pointer walk of an axis and what it pushes.
 */
module AxisFill {
  import opened NodeOrder
  import opened XmlTree
  import opened XmlNodes
  import opened AxisWalk

  /** xpath_node: a tree node, or an attribute (by its place) with its element. */
  datatype Found = NodeFound(n: XmlNode) | AttrFound(owner: XmlNode, k: nat)

  /** What stands for the nodes of the document table. */
  function Handles(nodes: seq<XmlNode>, s: seq<XNode>): seq<Found> {
    if s == [] then []
    else Handle(nodes, s[0]) + Handles(nodes, s[1..])
  }

  function Handle(nodes: seq<XmlNode>, x: XNode): seq<Found> {
    match x
    case Null => []
    case Elem(i) => if i < |nodes| then [NodeFound(nodes[i])] else []
    case Attr(i, k) => if i < |nodes| then [AttrFound(nodes[i], k)] else []
  }

  function Wrap(ns: seq<XmlNode>): seq<Found> {
    if ns == [] then [] else [NodeFound(ns[0])] + Wrap(ns[1..])
  }

  lemma {:induction false} WrapAppend(a: seq<XmlNode>, b: seq<XmlNode>)
    ensures Wrap(a + b) == Wrap(a) + Wrap(b)
  {
    if a == [] {
      assert a + b == b;
    } else {
      assert (a + b)[1..] == a[1..] + b;
      WrapAppend(a[1..], b);
    }
  }

  lemma {:induction false} ObjectsAreHandles(nodes: seq<XmlNode>, s: seq<XNode>)
    requires forall y :: y in s ==> y.Elem?
    ensures Handles(nodes, s) == Wrap(Objects(nodes, s))
  {
    if s != [] {
      assert s[0] in s && forall y :: y in s[1..] ==> y in s;
      ObjectsAreHandles(nodes, s[1..]);
      var head := if s[0].i < |nodes| then [nodes[s[0].i]] else [];
      WrapAppend(head, Objects(nodes, s[1..]));
      if head != [] { assert head[1..] == []; }
    }
  }

  /** Cutting a list of tree nodes leaves tree nodes. */
  lemma CutElems(once: bool, s: seq<XNode>)
    requires forall y :: y in s ==> y.Elem?
    ensures forall y :: y in Cut(once, s) ==> y.Elem?
  {
    if once && s != [] { assert s[0] in s; }
  }

  /** All nodes of an axis but the attribute axis are tree nodes, except the context node itself. */
  lemma AxisElems(d: Doc, axis: Axis, test: NodeTest, x: XNode)
    requires axis != Attribute && !KeepsSelf(d, axis, test, x)
    ensures forall y :: y in AxisNodes(d, axis, test, x) ==> y.Elem?
  {
    forall y | y in AxisNodes(d, axis, test, x) ensures y.Elem? { AxisNodesMembers(d, axis, test, x, y); }
  }

  /** What step_fill pushes, cut to the first node when one is enough. The caller sees to it that `once` holds for @name. */
  function Reached(d: Doc, axis: Axis, test: NodeTest, x: XNode, once: bool): seq<XNode> {
    if axis == Attribute && x.Elem? && x.i < |d| then Cut(once, AttrsFrom(d, test, x.i, 0))
    else Cut(once, AxisNodes(d, axis, test, x))
  }

  /** With `once` for @name, that is the axis of the specification. */
  lemma ReachedIsAxis(d: Doc, axis: Axis, test: NodeTest, x: XNode, once: bool)
    requires axis == Attribute && test.TestName? ==> once
    ensures Reached(d, axis, test, x, once) == Cut(once, AxisNodes(d, axis, test, x))
  {
  }

  // ---- from a tree node

  /** The attribute axis: the loop along next_attribute. */
  method Attributes(ghost d: Doc, ghost nodes: seq<XmlNode>, ghost i: nat, n: XmlNode, test: NodeTest, once: bool) returns (ns: seq<Found>)
    requires Layout(d, nodes) && i < |d| && n == nodes[i]
    ensures ns == Handles(nodes, Cut(once, AttrsFrom(d, test, i, 0)))
  {
    assert Linked(d, nodes, i);
    hide Layout, PassesAttr;
    ghost var whole := AttrsFrom(d, test, i, 0);
    ns := [];
    var a, k: nat := n.firstAttribute, 0;
    assert d[i].attrs[0..] == d[i].attrs;
    while a.AttrCell?
      invariant k <= |d[i].attrs| && AttrsOf(a) == d[i].attrs[k..]
      invariant if once then ns == [] && AttrsFrom(d, test, i, k) == whole
                else ns + Handles(nodes, AttrsFrom(d, test, i, k)) == Handles(nodes, whole)
      decreases a
    {
      AttrTurn(d, nodes, test, i, k, a, ns);
      if PassesAttr(a.rec, test) {
        ns := ns + [AttrFound(n, k)];
        if once { return; }
      }
      a, k := a.next, k + 1;
    }
    assert ns + [] == ns;
  }

  lemma AttrTurn(d: Doc, nodes: seq<XmlNode>, test: NodeTest, i: nat, k: nat, a: AttrChain, ns: seq<Found>)
    requires i < |d| && i < |nodes| && k <= |d[i].attrs| && a.AttrCell? && AttrsOf(a) == d[i].attrs[k..]
    ensures k < |d[i].attrs| && a.rec == d[i].attrs[k] && AttrsOf(a.next) == d[i].attrs[k + 1..]
    ensures var rest := AttrsFrom(d, test, i, k + 1); var all := AttrsFrom(d, test, i, k);
            && (PassesAttr(a.rec, test) ==>
                  Cut(true, all) == [Attr(i, k)] && Handles(nodes, Cut(true, all)) == [AttrFound(nodes[i], k)]
                  && ns + Handles(nodes, all) == (ns + [AttrFound(nodes[i], k)]) + Handles(nodes, rest))
            && (!PassesAttr(a.rec, test) ==> all == rest)
  {
    hide PassesAttr;
    assert d[i].attrs[k..][1..] == d[i].attrs[k + 1..];
    assert AttrsOf(a)[1..] == AttrsOf(a.next);
    var rest := AttrsFrom(d, test, i, k + 1);
    assert ([Attr(i, k)] + rest)[1..] == rest && [Attr(i, k)][1..] == [];
    Assoc(ns, [AttrFound(nodes[i], k)], Handles(nodes, rest));
  }

  /** Every axis over tree nodes, from a tree node. */
  method FillNodes(ghost d: Doc, ghost nodes: seq<XmlNode>, ghost i: nat, n: XmlNode, axis: Axis, test: NodeTest, once: bool)
    returns (ns: seq<XmlNode>)
    requires Layout(d, nodes) && i < |d| && n == nodes[i] && axis != Attribute && axis != Namespace
    ensures ns == Objects(nodes, Cut(once, AxisNodes(d, axis, test, Elem(i))))
  {
    hide Objects, AxisNodes, Cut, Layout;
    match axis
    case Child => ns := Children(d, nodes, i, n, test, once);
    case Descendant => ns := Descendants(d, nodes, i, n, false, test, once);
    case DescendantOrSelf => ns := Descendants(d, nodes, i, n, true, test, once);
    case FollowingSibling => ns := FollowingSiblings(d, nodes, i, n, test, once);
    case PrecedingSibling => ns := PrecedingSiblings(d, nodes, i, n, test, once);
    case Following => ns := Followers(d, nodes, i, n, test, once);
    case Preceding => ns := Preceders(d, nodes, i, n, test, once);
    case Ancestor => ns := Ancestors(d, nodes, i, n, false, test, once);
    case AncestorOrSelf => ns := Ancestors(d, nodes, i, n, true, test, once);
    case Self =>
      ns := PushAlone(d, nodes, Self, i, i, n, test);
      AloneIsCut(d, nodes, Self, i, i, test, once);
    case Parent =>
      ParentLink(d, nodes, i);
      if n.parent != null {
        ns := PushAlone(d, nodes, Parent, i, d[i].parent, n.parent, test);
        AloneIsCut(d, nodes, Parent, i, d[i].parent, test, once);
      } else {
        ns := [];
        NoParent(d, nodes, i, test);
        CutNothing(once);
      }
    case _ => assert false; ns := [];
  }

  lemma CutNothing(once: bool)
    ensures Cut(once, []) == []
  {
  }

  /** A single node needs no cut. */
  lemma AloneIsCut(d: Doc, nodes: seq<XmlNode>, axis: Axis, i: nat, j: nat, test: NodeTest, once: bool)
    requires Layout(d, nodes) && i < |d| && j < |d| && ((axis == Self && j == i) || (axis == Parent && j == d[i].parent))
    ensures Cut(once, AxisNodes(d, axis, test, Elem(i))) == AxisNodes(d, axis, test, Elem(i))
  {
    hide AxisNodes, Layout;
    OneHit(d, nodes, axis, i, j, test);
  }

  /** step_fill from a tree node. */
  method FillFromNode(ghost d: Doc, ghost nodes: seq<XmlNode>, ghost i: nat, n: XmlNode, axis: Axis, test: NodeTest, once: bool)
    returns (ns: seq<Found>)
    requires Layout(d, nodes) && i < |d| && n == nodes[i] && axis != Namespace
    ensures ns == Handles(nodes, Reached(d, axis, test, Elem(i), once))
  {
    hide Layout, Handles, Objects, AxisNodes, Cut;
    if axis == Attribute {
      ns := Attributes(d, nodes, i, n, test, once);
    } else {
      var objs := FillNodes(d, nodes, i, n, axis, test, once);
      AxisElems(d, axis, test, Elem(i));
      CutElems(once, AxisNodes(d, axis, test, Elem(i)));
      ObjectsAreHandles(nodes, Cut(once, AxisNodes(d, axis, test, Elem(i))));
      ns := Wrap(objs);
    }
  }

  // ---- from an attribute

  /** On most axes an attribute is not met, but only tree nodes. */
  lemma NothingFromAttr(d: Doc, axis: Axis, test: NodeTest, i: nat, k: nat)
    requires axis == Child || axis == Descendant || axis == DescendantOrSelf || axis == FollowingSibling || axis == PrecedingSibling || axis == Self
    ensures Upward(d, axis, test, Attr(i, k), 0) == [] && Downward(d, axis, test, Attr(i, k), |d|) == []
  {
    SkipUp(d, axis, test, Attr(i, k), 0, |d|);
    SkipDown(d, axis, test, Attr(i, k), 0, |d|);
  }

  /** The nodes before an attribute are those before its element. */
  lemma {:induction false} PrecedingOfAttr(d: Doc, test: NodeTest, i: nat, k: nat, j: nat)
    requires i < |d| && k < |d[i].attrs| && j <= |d|
    ensures Downward(d, Preceding, test, Attr(i, k), j) == Downward(d, Preceding, test, Elem(i), j)
  {
    if j > 0 { PrecedingOfAttr(d, test, i, k, j - 1); }
  }

  lemma ParentOfAttr(d: Doc, test: NodeTest, i: nat, k: nat)
    requires i < |d| && k < |d[i].attrs|
    ensures Upward(d, Parent, test, Attr(i, k), 0) == Opt(PassesElem(d[i], test), i)
  {
    var x := Attr(i, k);
    hide PassesElem;
    assert forall m :: 0 <= m < |d| ==> Hit(d, Parent, test, x, m) == (m == i && PassesElem(d[m], test));
    hide Hit;
    SkipUp(d, Parent, test, x, 0, i);
    SkipUp(d, Parent, test, x, i + 1, |d|);
  }

  /** Where the attribute itself is pushed: it comes first, and node() is the only test that takes it. */
  function OwnPush(d: Doc, axis: Axis, test: NodeTest, i: nat, k: nat): seq<XNode> {
    if KeepsSelf(d, axis, test, Attr(i, k)) then [Attr(i, k)] else []
  }

  lemma {:induction false} HandlesAppend(nodes: seq<XmlNode>, s: seq<XNode>, t: seq<XNode>)
    ensures Handles(nodes, s + t) == Handles(nodes, s) + Handles(nodes, t)
  {
    if s == [] {
      assert s + t == t;
    } else {
      assert (s + t)[1..] == s[1..] + t;
      HandlesAppend(nodes, s[1..], t);
      Assoc(Handle(nodes, s[0]), Handles(nodes, s[1..]), Handles(nodes, t));
    }
  }

  /** The two parts of a reverse or forward axis from an attribute. */
  lemma AttrAxisParts(d: Doc, axis: Axis, test: NodeTest, i: nat, k: nat)
    requires axis != Attribute
    ensures AxisNodes(d, axis, test, Attr(i, k)) ==
              OwnPush(d, axis, test, i, k) +
              if IsReverse(axis) then Downward(d, axis, test, Attr(i, k), |d|) else Upward(d, axis, test, Attr(i, k), 0)
  {
    hide KeepsSelf, Upward, Downward;
  }

  /** Cutting: the attribute itself is enough where it is pushed. */
  lemma CutParts(nodes: seq<XmlNode>, own: seq<XNode>, rest: seq<XNode>, once: bool)
    requires |own| <= 1
    ensures Handles(nodes, Cut(once, own + rest)) ==
              Handles(nodes, own) + if once && own != [] then [] else Handles(nodes, Cut(once, rest))
  {
    HandlesAppend(nodes, own, rest);
    if once {
      if own != [] { assert own == [own[0]]; } else { assert own + rest == rest; }
    }
  }

  /** The walk from attribute k of n over tree nodes alone. */
  method WalkFromAttr(ghost d: Doc, ghost nodes: seq<XmlNode>, ghost i: nat, ghost k: nat, n: XmlNode, axis: Axis, test: NodeTest, once: bool)
    returns (ns: seq<XmlNode>)
    requires Layout(d, nodes) && i < |d| && k < |d[i].attrs| && n == nodes[i] && axis != Attribute && axis != Namespace
    ensures var x := Attr(i, k);
            ns == Objects(nodes, Cut(once, if IsReverse(axis) then Downward(d, axis, test, x, |d|) else Upward(d, axis, test, x, 0)))
  {
    LayoutSize(d, nodes);
    hide Layout, Objects, Cut, Upward, Downward, Hit, ValidDoc;
    ns := [];
    CutNothing(once);
    NoObjects(nodes);
    match axis
    case Ancestor => ns := AncestorsOfAttr(d, nodes, i, k, n, axis, test, once);
    case AncestorOrSelf => ns := AncestorsOfAttr(d, nodes, i, k, n, axis, test, once);
    case Following =>
      ns := FollowersOfAttr(d, nodes, i, k, n, test, once);
      OnlyWalked(d, Following, test, Attr(i, k));
    case Parent =>
      NodeData(d, nodes, i, test);
      ParentOfAttr(d, test, i, k);
      OptObject(nodes, PassesElem(d[i], test), i, once);
      if PassesKind(n.kind, n.name, test) { ns := [n]; }
    case Preceding =>
      ns := Preceders(d, nodes, i, n, test, once);
      PrecedingOfAttr(d, test, i, k, |d|);
      OnlyWalked(d, Preceding, test, Elem(i));
    case _ =>
      NothingFromAttr(d, axis, test, i, k);
  }

  lemma NoObjects(nodes: seq<XmlNode>)
    ensures Objects(nodes, []) == []
  {
  }

  lemma OptObject(nodes: seq<XmlNode>, b: bool, i: nat, once: bool)
    requires i < |nodes|
    ensures Objects(nodes, Cut(once, Opt(b, i))) == if b then [nodes[i]] else []
  {
    assert [Elem(i)][1..] == [];
  }

  /** On the following and preceding axes the context node is never met. */
  lemma OnlyWalked(d: Doc, axis: Axis, test: NodeTest, x: XNode)
    requires axis == Following || axis == Preceding
    ensures AxisNodes(d, axis, test, x) == if IsReverse(axis) then Downward(d, axis, test, x, |d|) else Upward(d, axis, test, x, 0)
  {
    hide Upward, Downward;
  }

  /** What is walked over from an attribute are tree nodes. */
  lemma WalkedElems(d: Doc, axis: Axis, test: NodeTest, x: XNode)
    ensures forall y :: y in Upward(d, axis, test, x, 0) ==> y.Elem?
    ensures forall y :: y in Downward(d, axis, test, x, |d|) ==> y.Elem?
  {
    UpwardFacts(d, axis, test, x, 0);
    DownwardFacts(d, axis, test, x, |d|);
  }

  /** step_fill from attribute k of n, whose record is a. */
  method FillFromAttr(ghost d: Doc, ghost nodes: seq<XmlNode>, ghost i: nat, k: nat, n: XmlNode, a: AttrRec, axis: Axis, test: NodeTest, once: bool)
    returns (ns: seq<Found>)
    requires Layout(d, nodes) && i < |d| && k < |d[i].attrs| && n == nodes[i] && a == d[i].attrs[k] && axis != Namespace
    ensures ns == Handles(nodes, Reached(d, axis, test, Attr(i, k), once))
  {
    LayoutSize(d, nodes);
    ghost var x := Attr(i, k);
    ns := [];
    if axis == Attribute {
      CutNothing(once);
      return;
    }
    ghost var rest := if IsReverse(axis) then Downward(d, axis, test, x, |d|) else Upward(d, axis, test, x, 0);
    AttrAxisParts(d, axis, test, i, k);
    CutParts(nodes, OwnPush(d, axis, test, i, k), rest, once);
    hide Layout, Objects, AxisNodes, Cut, Upward, Downward, Hit, ValidDoc;
    if (axis == AncestorOrSelf || axis == DescendantOrSelf || axis == Self) && test == TestNode && PassesAttr(a, test) {
      ns := [AttrFound(n, k)];
      if once { return; }
    }
    var walked := WalkFromAttr(d, nodes, i, k, n, axis, test, once);
    WalkedElems(d, axis, test, x);
    CutElems(once, rest);
    ObjectsAreHandles(nodes, Cut(once, rest));
    ns := ns + Wrap(walked);
  }

  // ---- from any context node

  /** The attribute of n at place k, if there is one. */
  function AttrAt(chain: AttrChain, k: nat): (a: seq<AttrRec>)
    ensures a == if k < |AttrsOf(chain)| then [AttrsOf(chain)[k]] else []
  {
    if chain.EndOfAttrs? then [] else if k == 0 then [chain.rec] else AttrAt(chain.next, k - 1)
  }

  /** step_fill: a null context node, and one that is not of this document, reach nothing. */
  method StepFill(ghost d: Doc, nodes: seq<XmlNode>, x: XNode, axis: Axis, test: NodeTest, once: bool) returns (ns: seq<Found>)
    requires Layout(d, nodes) && axis != Namespace
    ensures ns == Handles(nodes, Reached(d, axis, test, x, once))
  {
    LayoutSize(d, nodes);
    ns := [];
    match x
    case Null => StrangerReaches(d, axis, test, x, once);
    case Elem(i) =>
      if i < |nodes| { ns := FillFromNode(d, nodes, i, nodes[i], axis, test, once); }
      else { StrangerReaches(d, axis, test, x, once); }
    case Attr(i, k) =>
      if i < |nodes| {
        assert Linked(d, nodes, i);
        var a := AttrAt(nodes[i].firstAttribute, k);
        if a != [] { ns := FillFromAttr(d, nodes, i, k, nodes[i], a[0], axis, test, once); }
        else { StrangerReaches(d, axis, test, x, once); }
      } else { StrangerReaches(d, axis, test, x, once); }
  }

  predicate Stranger(d: Doc, x: XNode) {
    match x
    case Null => true
    case Elem(i) => i >= |d|
    case Attr(i, k) => i >= |d| || k >= |d[i].attrs|
  }

  lemma StrangerHits(d: Doc, axis: Axis, test: NodeTest, x: XNode, m: nat)
    requires Stranger(d, x) && m < |d|
    ensures !Hit(d, axis, test, x, m)
  {
    hide OnAxis, OnAxisOfAttr, PassesElem;
  }

  lemma StrangerReaches(d: Doc, axis: Axis, test: NodeTest, x: XNode, once: bool)
    requires Stranger(d, x)
    ensures Reached(d, axis, test, x, once) == []
  {
    forall m: nat | m < |d| ensures !Hit(d, axis, test, x, m) { StrangerHits(d, axis, test, x, m); }
    hide Hit;
    SkipUp(d, axis, test, x, 0, |d|);
    SkipDown(d, axis, test, x, 0, |d|);
    StrangerKept(d, axis, test, x);
    hide KeepsSelf, Stranger;
    assert Upward(d, axis, test, x, |d|) == [] && Downward(d, axis, test, x, 0) == [];
    hide Upward, Downward;
    if axis == Attribute { assert AxisNodes(d, axis, test, x) == []; }
  }

  lemma StrangerKept(d: Doc, axis: Axis, test: NodeTest, x: XNode)
    requires Stranger(d, x)
    ensures !KeepsSelf(d, axis, test, x) && !(x.Elem? && x.i < |d|)
  {
  }

  // ---- and back to the document table

  function IndexOf(nodes: seq<XmlNode>, n: XmlNode): nat {
    if nodes == [] || nodes[0] == n then 0 else 1 + IndexOf(nodes[1..], n)
  }

  lemma {:induction false} IndexFound(nodes: seq<XmlNode>, i: nat)
    requires Distinct(nodes) && i < |nodes|
    ensures IndexOf(nodes, nodes[i]) == i
    decreases |nodes|
  {
    if i > 0 {
      assert nodes[1..][i - 1] == nodes[i] && nodes[0] != nodes[i];
      IndexFound(nodes[1..], i - 1);
    }
  }

  /** The node of the table that a found object is. */
  function NameOf(nodes: seq<XmlNode>, f: Found): XNode {
    match f
    case NodeFound(n) => Elem(IndexOf(nodes, n))
    case AttrFound(n, k) => Attr(IndexOf(nodes, n), k)
  }

  function NamesOf(nodes: seq<XmlNode>, fs: seq<Found>): seq<XNode> {
    if fs == [] then [] else [NameOf(nodes, fs[0])] + NamesOf(nodes, fs[1..])
  }

  predicate OfDocument(d: Doc, x: XNode) {
    match x
    case Null => false
    case Elem(i) => i < |d|
    case Attr(i, _) => i < |d|
  }

  /** Objects stand for the nodes they were laid out for. */
  lemma {:induction false} NamesOfHandles(d: Doc, nodes: seq<XmlNode>, s: seq<XNode>)
    requires Distinct(nodes) && |nodes| == |d| && forall y :: y in s ==> OfDocument(d, y)
    ensures NamesOf(nodes, Handles(nodes, s)) == s
  {
    if s != [] {
      assert s[0] in s && forall y :: y in s[1..] ==> y in s;
      NamesOfHandles(d, nodes, s[1..]);
      IndexFound(nodes, s[0].i);
      var h := Handle(nodes, s[0]);
      assert (h + Handles(nodes, s[1..]))[1..] == Handles(nodes, s[1..]);
    }
  }

  /** An axis stays in the document. */
  lemma AxisOfDocument(d: Doc, axis: Axis, test: NodeTest, x: XNode)
    ensures forall y :: y in AxisNodes(d, axis, test, x) ==> OfDocument(d, y)
  {
    forall y | y in AxisNodes(d, axis, test, x) ensures OfDocument(d, y) {
      if axis == Attribute { AttributesOf(d, test, x, y); } else { AxisNodesMembers(d, axis, test, x, y); }
    }
  }
}
