/** compare_eq and compare_rel: the loops over node lists that stop at the first node, or pair of nodes, that compares. */
module XPathCompare {
  import opened NodeOrder
  import opened XPathAst

  /** An operand with the nodes it was evaluated to, in whatever order. */
  predicate Lists(o: Operand, nodes: seq<XNode>) {
    o.nodes == NodeSet(nodes) && (o.t != NodeSetT ==> nodes == [])
  }

  /** Two node lists, compared by what each node stands for. */
  method SomePair<V>(comp: (V, V) -> bool, value: XNode -> V, ls: seq<XNode>, rs: seq<XNode>) returns (found: bool)
    ensures found <==> exists x, y :: x in ls && y in rs && comp(value(x), value(y))
  {
    var i := 0;
    while i < |ls|
      invariant i <= |ls| && forall k, y :: 0 <= k < i && y in rs ==> !comp(value(ls[k]), value(y))
    {
      var l := value(ls[i]);
      var j := 0;
      while j < |rs|
        invariant j <= |rs| && forall k :: 0 <= k < j ==> !comp(l, value(rs[k]))
      {
        if comp(l, value(rs[j])) { return true; }
        j := j + 1;
      }
      i := i + 1;
    }
    found := false;
  }

  /** One value against a node list. */
  method SomeNode<V>(comp: (V, V) -> bool, value: XNode -> V, l: V, rs: seq<XNode>) returns (found: bool)
    ensures found <==> exists y :: y in rs && comp(l, value(y))
  {
    var j := 0;
    while j < |rs|
      invariant j <= |rs| && forall k :: 0 <= k < j ==> !comp(l, value(rs[k]))
    {
      if comp(l, value(rs[j])) { return true; }
      j := j + 1;
    }
    found := false;
  }

  /** compare_rel. */
  method CompareRelational(env: Env, orEqual: bool, l: Operand, ls: seq<XNode>, r: Operand, rs: seq<XNode>) returns (b: bool)
    requires Lists(l, ls) && Lists(r, rs)
    ensures b == CompareRel(env, orEqual, l, r)
  {
    var number := (x: XNode) => env.stringToNumber(env.stringValue(x));
    var comp := (m: Number, n: Number) => env.less(orEqual, m, n);
    if l.t != NodeSetT && r.t != NodeSetT {
      b := comp(l.asNumber, r.asNumber);
    } else if l.t == NodeSetT && r.t == NodeSetT {
      b := SomePair(comp, number, ls, rs);
    } else if r.t == NodeSetT {
      b := SomeNode(comp, number, l.asNumber, rs);
    } else {
      b := SomeNode((m: Number, n: Number) => comp(n, m), number, r.asNumber, ls);
    }
  }

  /** compare_eq; a node set on the left is exchanged with a scalar on the right. */
  method CompareEqual(env: Env, equal: bool, l: Operand, ls: seq<XNode>, r: Operand, rs: seq<XNode>) returns (b: bool)
    requires Lists(l, ls) && Lists(r, rs)
    ensures b == CompareEq(env, equal, l, r)
  {
    var texts := (s: string, t: string) => (s == t) == equal;
    if l.t != NodeSetT && r.t != NodeSetT {
      if l.t == BoolT || r.t == BoolT {
        b := (l.asBool == r.asBool) == equal;
      } else if l.t == NumberT || r.t == NumberT {
        b := NumberEquals(l.asNumber, r.asNumber) == equal;
      } else {
        b := texts(l.asString, r.asString);
      }
    } else if l.t == NodeSetT && r.t == NodeSetT {
      b := SomePair(texts, env.stringValue, ls, rs);
    } else {
      var lhs, rhs, nodes := l, r, rs;
      if l.t == NodeSetT { lhs, rhs, nodes := r, l, ls; }
      if lhs.t == BoolT {
        b := (lhs.asBool == rhs.asBool) == equal;
      } else if lhs.t == NumberT {
        b := SomeNode((m: Number, n: Number) => NumberEquals(m, n) == equal, (x: XNode) => env.stringToNumber(env.stringValue(x)), lhs.asNumber, nodes);
      } else {
        b := SomeNode(texts, env.stringValue, lhs.asString, nodes);
      }
    }
  }
}
