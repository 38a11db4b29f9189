/**
 sort_do on a node list: the order flag is looked up, and the list sorted, reversed or left alone. The sort works on
 the ranks of nodes in document order.
 */
module XPathSort {
  import opened NodeOrder
  import opened Arithmetic
  import opened XmlTree
  import opened XPathAst
  import opened XPathEval
  import opened XPathRefine
  import opened XPathSteps
  import T = ThreeWaySort

  // ---- ranks

  /** A number for each node, in document order, if no element has as many attributes as `width`. */
  function Rank(x: XNode, width: nat): int {
    Major(x) * width + Minor(x)
  }

  function Unrank(r: int, width: nat): XNode
    requires width > 0
  {
    var m, k := r / width, r % width;
    if m < 0 then Null else if k == 0 then Elem(m) else Attr(m, k - 1)
  }

  predicate Fits(s: seq<XNode>, width: nat) {
    width > 0 && forall i :: 0 <= i < |s| ==> Minor(s[i]) < width
  }

  lemma Distributes(a: int, b: int, width: int)
    ensures (a - b) * width == a * width - b * width
  {
  }

  lemma DivMod(m: int, k: nat, width: nat)
    requires k < width
    ensures (m * width + k) / width == m && (m * width + k) % width == k
  {
    var r := m * width + k;
    var q, rest := r / width, r % width;
    Distributes(q, m, width);
    SmallMultiple(q - m, width, k - rest);
  }

  lemma RankOrder(m: int, k: nat, m': int, k': nat, width: nat)
    requires k < width && k' < width
    ensures m * width + k < m' * width + k' <==> m < m' || (m == m' && k < k')
  {
    Distributes(m', m, width);
    MultipleIsLarge(m' - m, width);
  }

  lemma RankFacts(x: XNode, y: XNode, width: nat)
    requires Minor(x) < width && Minor(y) < width
    ensures Unrank(Rank(x, width), width) == x
    ensures Less(x, y) <==> Rank(x, width) < Rank(y, width)
  {
    DivMod(Major(x), Minor(x), width);
    RankOrder(Major(x), Minor(x), Major(y), Minor(y), width);
  }

  // ---- lists and their ranks

  function Ranks(s: seq<XNode>, width: nat): seq<int> {
    seq(|s|, i requires 0 <= i < |s| => Rank(s[i], width))
  }

  function Unranks(r: seq<int>, width: nat): seq<XNode>
    requires width > 0
  {
    seq(|r|, i requires 0 <= i < |r| => Unrank(r[i], width))
  }

  lemma {:induction false} OnceEach(r: seq<int>, v: int)
    requires Distinct(r)
    ensures multiset(r)[v] <= 1
  {
    if r != [] {
      assert r == [r[0]] + r[1..];
      OnceEach(r[1..], v);
    }
  }

  lemma {:induction false} TwiceIsTwo(r: seq<int>, i: nat, j: nat)
    requires i < j < |r| && r[i] == r[j]
    ensures multiset(r)[r[i]] >= 2
  {
    assert r == r[..i] + [r[i]] + r[i + 1..j] + [r[j]] + r[j + 1..];
  }

  lemma RanksDistinct(s: seq<XNode>, width: nat)
    requires Fits(s, width) && Distinct(s)
    ensures Distinct(Ranks(s, width))
  {
    forall i, j | 0 <= i < j < |s| ensures Rank(s[i], width) != Rank(s[j], width) {
      RankFacts(s[i], s[j], width);
      RankFacts(s[j], s[i], width);
    }
  }

  /** Sorted ranks of different nodes are the nodes in document order. */
  lemma SortedRanks(s: seq<XNode>, r: seq<int>, width: nat)
    requires Fits(s, width) && Distinct(s) && T.Perm(Ranks(s, width), r, 0, |s|) && T.SortedPart(r, 0, |r|)
    ensures Unranks(r, width) == SortNodes(s)
  {
    var ranks, t := Ranks(s, width), Unranks(r, width);
    assert ranks[0..|s|] == ranks && r[0..|s|] == r;
    RanksDistinct(s, width);
    forall i: nat | i < |r| ensures Sourced(s, r, width, i) {
      var k := T.PermSource(ranks, r, 0, |s|, i);
      RankFacts(s[k], s[k], width);
    }
    forall i, j | 0 <= i < j < |t| ensures Less(t[i], t[j]) {
      assert Sourced(s, r, width, i) && Sourced(s, r, width, j);
      if r[i] == r[j] {
        TwiceIsTwo(r, i, j);
        OnceEach(ranks, r[i]);
      }
      RankFacts(t[i], t[j], width);
    }
    forall x ensures x in t <==> x in s {
      if x in t {
        var i :| 0 <= i < |t| && t[i] == x;
        assert Sourced(s, r, width, i);
      }
      if x in s {
        var k :| 0 <= k < |s| && s[k] == x;
        assert ranks[k] in multiset(ranks) && ranks[k] in r;
        var i :| 0 <= i < |r| && r[i] == ranks[k];
        RankFacts(x, x, width);
        assert t[i] == x;
      }
    }
    SortNodesFacts(s);
    IncreasingUnique(t, SortNodes(s));
  }

  /** The i-th of the ranks is that of one of the nodes. */
  predicate Sourced(s: seq<XNode>, r: seq<int>, width: nat, i: nat)
    requires i < |r| && width > 0
  {
    var x := Unrank(r[i], width);
    x in s && Minor(x) < width && Rank(x, width) == r[i]
  }

  // ---- the loops

  /** A width for the nodes of a list. */
  method WidthOf(s: seq<XNode>) returns (width: nat)
    ensures Fits(s, width)
  {
    width := 1;
    for i := 0 to |s|
      invariant width > 0 && forall k :: 0 <= k < i ==> Minor(s[k]) < width
    {
      if Minor(s[i]) >= width { width := Minor(s[i]) + 1; }
    }
  }

  /** reverse. */
  method ReverseList(ns: NodeList)
    modifies ns`items
    ensures ns.items == Reverse(old(ns.items))
  {
    ghost var s := ns.items;
    var begin, end := 0, |ns.items|;
    while end - begin > 1
      invariant begin + end == |s| == |ns.items| && begin <= end + 1
      invariant forall k :: 0 <= k < begin ==> ns.items[k] == s[|s| - 1 - k] && ns.items[|s| - 1 - k] == s[k]
      invariant forall k :: begin <= k < end ==> ns.items[k] == s[k]
      decreases end - begin
    {
      end := end - 1;
      ns.items := ns.items[begin := ns.items[end]][end := ns.items[begin]];
      begin := begin + 1;
    }
    ReverseAt(s);
    assert ns.items == Reverse(s);
  }

  /** sort_do; the order flag must be right. */
  method SortList(ns: NodeList)
    requires Truthful(ns.Value())
    modifies ns
    ensures ns.Value() == SortDo(old(ns.Value()))
  {
    hide SortNodes, Reverse, T.Perm, T.SortedPart;
    var order := ns.order;
    if order == Unsorted {
      order := ns.GetOrder();
      if order == Unsorted {
        var width := WidthOf(ns.items);
        var s := ns.items;
        var a := new int[|s|](i requires 0 <= i < |s| => Rank(s[i], width));
        assert a[..] == Ranks(s, width);
        var depth := T.Sort(a, 0, a.Length);
        SortedRanks(s, a[..], width);
        ns.items := Unranks(a[..], width);
        order := Sorted;
      }
    }
    if order != Sorted { ReverseList(ns); }
    ns.order := Sorted;
  }
}
