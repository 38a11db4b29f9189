/**
 XPath nodes, document order on them, and the ordered node lists the evaluator works with.

 A document is a flat table of its nodes in document order: row `i` is the node's
 position, `end` is one past its last descendant. Attributes sit between their element
 and the element's first child.
 */
module NodeOrder {

  datatype XNode =
    | Null                     // xpath_node(): no node
    | Elem(i: nat)             // any tree node
    | Attr(i: nat, k: nat)     // attribute k of tree node i

  function Major(x: XNode): int {
    match x
    case Null => -1
    case Elem(i) => i
    case Attr(i, _) => i
  }

  function Minor(x: XNode): int {
    match x
    case Null => 0
    case Elem(_) => 0
    case Attr(_, k) => k + 1
  }

  /** Document order: a strict total order on nodes. */
  predicate Less(a: XNode, b: XNode) {
    Major(a) < Major(b) || (Major(a) == Major(b) && Minor(a) < Minor(b))
  }

  lemma LessTotal(a: XNode, b: XNode)
    ensures a == b || Less(a, b) || Less(b, a)
    ensures !(Less(a, b) && Less(b, a)) && !Less(a, a)
  {
  }

  predicate Increasing(s: seq<XNode>) {
    forall i, j :: 0 <= i < j < |s| ==> Less(s[i], s[j])
  }

  predicate Decreasing(s: seq<XNode>) {
    forall i, j :: 0 <= i < j < |s| ==> Less(s[j], s[i])
  }

  predicate Distinct<T(==)>(s: seq<T>) {
    forall i, j :: 0 <= i < j < |s| ==> s[i] != s[j]
  }

  function NodeSet<T(!new,==)>(s: seq<T>): (r: set<T>)
    ensures forall x :: x in r <==> x in s
  {
    set x | x in s
  }

  /** remove_duplicates: the first occurrence of each node, in order. */
  function KeepFirst<T(==)>(s: seq<T>): (r: seq<T>)
    decreases |s|
  {
    if s == [] then []
    else
      var init := s[..|s| - 1];
      var last := s[|s| - 1];
      if last in init then KeepFirst(init) else KeepFirst(init) + [last]
  }

  lemma {:induction false} KeepFirstFacts<T>(s: seq<T>)
    ensures forall x :: x in KeepFirst(s) <==> x in s
    ensures Distinct(KeepFirst(s))
    decreases |s|
  {
    if s != [] {
      var init := s[..|s| - 1];
      assert s == init + [s[|s| - 1]];
      KeepFirstFacts(init);
    }
  }

  lemma Assoc<T>(a: seq<T>, b: seq<T>, c: seq<T>)
    ensures a + (b + c) == (a + b) + c
  {
  }

  /** m is the document-first node of S. */
  ghost predicate IsFirst(m: XNode, S: set<XNode>) {
    m in S && forall y :: y in S ==> y == m || Less(m, y)
  }

  lemma FirstUnique(a: XNode, b: XNode, S: set<XNode>)
    requires IsFirst(a, S) && IsFirst(b, S)
    ensures a == b
  {
  }

  lemma {:induction false} FirstExists(S: set<XNode>) returns (m: XNode)
    requires S != {}
    ensures IsFirst(m, S)
  {
    var x :| x in S;
    if S == {x} {
      m := x;
    } else {
      assert S == {x} + (S - {x});
      var m' := FirstExists(S - {x});
      m := if Less(x, m') then x else m';
      forall y | y in S ensures y == m || Less(m, y) {
        LessTotal(x, m');
        assert y == x || y in S - {x};
      }
    }
  }

  ghost function First(S: set<XNode>): (m: XNode)
    requires S != {}
    ensures IsFirst(m, S)
  {
    assert exists m :: IsFirst(m, S) by { var m := FirstExists(S); }
    var m :| IsFirst(m, S);
    m
  }

  /** The nodes of S in document order. */
  ghost function InOrder(S: set<XNode>): (s: seq<XNode>)
    ensures Increasing(s) && NodeSet(s) == S
  {
    if S == {} then []
    else
      var m := First(S);
      var rest := InOrder(S - {m});
      assert NodeSet([m] + rest) == S by { Prepend(m, rest, S); }
      [m] + rest
  }

  lemma Prepend(m: XNode, rest: seq<XNode>, S: set<XNode>)
    requires m in S && NodeSet(rest) == S - {m}
    ensures NodeSet([m] + rest) == S
  {
    forall x ensures x in [m] + rest <==> x in S {
      assert x in [m] + rest <==> x == m || x in rest;
    }
  }

  /** An increasing list is determined by its nodes. */
  lemma {:induction false} IncreasingUnique(s: seq<XNode>, t: seq<XNode>)
    requires Increasing(s) && Increasing(t) && NodeSet(s) == NodeSet(t)
    ensures s == t
  {
    if t != [] {
      assert t[0] in NodeSet(s);
    }
    if s != [] {
      assert s[0] in NodeSet(t);
      assert t != [];
      assert t[0] in NodeSet(s);
      assert s[0] == t[0];
      forall x ensures x in NodeSet(s[1..]) <==> x in NodeSet(s) && x != s[0] { TailNodes(s, x); }
      forall x ensures x in NodeSet(t[1..]) <==> x in NodeSet(t) && x != t[0] { TailNodes(t, x); }
      assert NodeSet(s[1..]) == NodeSet(t[1..]);
      IncreasingUnique(s[1..], t[1..]);
      assert s == [s[0]] + s[1..] && t == [t[0]] + t[1..];
    }
  }

  lemma TailNodes(s: seq<XNode>, x: XNode)
    requires s != [] && Increasing(s)
    ensures x in s[1..] <==> x in s && x != s[0]
  {
    if x in s[1..] {
      var j :| 0 <= j < |s[1..]| && s[1..][j] == x;
      assert Less(s[0], s[j + 1]);
    }
    if x in s && x != s[0] {
      var j :| 0 <= j < |s| && s[j] == x;
      assert s[1..][j - 1] == x;
    }
  }
}
