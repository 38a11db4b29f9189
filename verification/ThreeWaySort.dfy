/**
 The sort used for node sets: three-way quicksort over large chunks, insertion sort below 17 elements.

 Elements stand for their rank in a strict total order; the algorithm only compares them.
 */
module ThreeWaySort {

  // ---- rearrangements of a part

  /** t is s with the elements of [lo, hi) rearranged. */
  ghost predicate Perm(s: seq<int>, t: seq<int>, lo: nat, hi: nat)
    requires lo <= hi <= |s|
  {
    && |s| == |t| && multiset(s[lo..hi]) == multiset(t[lo..hi])
    && s[..lo] == t[..lo] && s[hi..] == t[hi..]
  }

  function Swapped(s: seq<int>, i: nat, j: nat): seq<int>
    requires i < |s| && j < |s|
  {
    s[i := s[j]][j := s[i]]
  }

  lemma PermSwap(s: seq<int>, lo: nat, hi: nat, i: nat, j: nat)
    requires lo <= i < hi <= |s| && lo <= j < hi
    ensures Perm(s, Swapped(s, i, j), lo, hi)
  {
    var t := Swapped(s, i, j);
    var p := s[lo..hi];
    assert t[lo..hi] == p[i - lo := p[j - lo]][j - lo := p[i - lo]];
  }

  lemma PermTrans(s: seq<int>, t: seq<int>, u: seq<int>, lo: nat, hi: nat)
    requires lo <= hi <= |s| && Perm(s, t, lo, hi) && Perm(t, u, lo, hi)
    ensures Perm(s, u, lo, hi)
  {
  }

  lemma PermWiden(s: seq<int>, t: seq<int>, lo: nat, hi: nat, lo': nat, hi': nat)
    requires lo' <= lo <= hi <= hi' <= |s| && Perm(s, t, lo, hi)
    ensures Perm(s, t, lo', hi')
  {
    assert s[lo'..hi'] == s[..lo][lo'..] + s[lo..hi] + s[hi..][..hi' - hi];
    assert t[lo'..hi'] == t[..lo][lo'..] + t[lo..hi] + t[hi..][..hi' - hi];
    assert s[..lo'] == s[..lo][..lo'] && t[..lo'] == t[..lo][..lo'];
    assert s[hi'..] == s[hi..][hi' - hi..] && t[hi'..] == t[hi..][hi' - hi..];
  }

  /** Every element of the part comes from the part. */
  lemma PermSource(s: seq<int>, t: seq<int>, lo: nat, hi: nat, j: nat) returns (k: nat)
    requires lo <= hi <= |s| && Perm(s, t, lo, hi) && lo <= j < hi
    ensures lo <= k < hi && t[j] == s[k]
  {
    assert t[j] == t[lo..hi][j - lo];
    assert t[j] in multiset(t[lo..hi]);
    assert t[j] in s[lo..hi];
    var m :| 0 <= m < hi - lo && s[lo..hi][m] == t[j];
    k := lo + m;
  }

  lemma PermOutside(s: seq<int>, t: seq<int>, lo: nat, hi: nat, j: nat)
    requires lo <= hi <= |s| && Perm(s, t, lo, hi) && j < |s| && (j < lo || hi <= j)
    ensures t[j] == s[j]
  {
    if j < lo { assert s[..lo][j] == t[..lo][j]; } else { assert s[hi..][j - hi] == t[hi..][j - hi]; }
  }

  ghost predicate SortedPart(s: seq<int>, lo: nat, hi: nat)
    requires lo <= hi <= |s|
  {
    forall i, j :: lo <= i < j < hi ==> s[i] <= s[j]
  }

  // ---- insertion sort

  /** s is sorted from lo to hole and from hole + 1 to `it`, the value for the hole being smaller than the latter part. */
  ghost predicate HoleAt(s: seq<int>, lo: nat, hole: nat, it: nat)
    requires lo <= hole <= it < |s|
  {
    && SortedPart(s, lo, hole) && SortedPart(s, hole, it + 1)
    && forall i, j :: lo <= i < hole < j <= it ==> s[i] <= s[j]
  }

  lemma HoleMoves(s: seq<int>, lo: nat, hole: nat, it: nat)
    requires lo < hole <= it < |s| && HoleAt(s, lo, hole, it) && s[hole] < s[hole - 1]
    ensures HoleAt(Swapped(s, hole - 1, hole), lo, hole - 1, it)
  {
  }

  lemma HoleFits(s: seq<int>, lo: nat, hole: nat, it: nat)
    requires lo <= hole <= it < |s| && HoleAt(s, lo, hole, it) && (hole == lo || s[hole - 1] <= s[hole])
    ensures SortedPart(s, lo, it + 1)
  {
  }

  /** insertion_sort: a hole moves back until its value fits. */
  method InsertionSort(a: array<int>, begin: nat, end: nat)
    requires begin <= end <= a.Length
    modifies a
    ensures Perm(old(a[..]), a[..], begin, end) && SortedPart(a[..], begin, end)
  {
    hide Perm;
    PermRefl(a[..], begin, end);
    if begin == end { return; }
    var it := begin + 1;
    while it != end
      invariant begin < it <= end && Perm(old(a[..]), a[..], begin, end) && SortedPart(a[..], begin, it)
      decreases end - it
    {
      ghost var s := a[..];
      Insert(a, begin, end, it);
      PermTrans(old(a[..]), s, a[..], begin, end);
      it := it + 1;
    }
  }

  /** One element into the sorted part before it. */
  method Insert(a: array<int>, begin: nat, end: nat, it: nat)
    requires begin < it < end <= a.Length && SortedPart(a[..], begin, it)
    modifies a
    ensures Perm(old(a[..]), a[..], begin, end) && SortedPart(a[..], begin, it + 1)
  {
    var val := a[it];
    var hole := it;
    ghost var s := a[..];     // the array with the hole filled
    PermRefl(s, begin, end);
    assert HoleAt(s, begin, hole, it);
    hide Perm, HoleAt, SortedPart, Swapped;
    while hole > begin && val < a[hole - 1]
      invariant begin <= hole <= it && |s| == a.Length && s == a[..][hole := val]
      invariant Perm(old(a[..]), s, begin, end) && HoleAt(s, begin, hole, it)
    {
      HoleMoves(s, begin, hole, it);
      PermSwap(s, begin, end, hole - 1, hole);
      PermTrans(old(a[..]), s, Swapped(s, hole - 1, hole), begin, end);
      ghost var t := a[..];
      a[hole] := a[hole - 1];
      FilledSwap(t, hole, val);
      s := Swapped(s, hole - 1, hole);
      hole := hole - 1;
    }
    HoleFits(s, begin, hole, it);
    a[hole] := val;
    assert a[..] == s;
  }

  lemma FilledSwap(t: seq<int>, hole: nat, val: int)
    requires 0 < hole < |t|
    ensures Swapped(t[hole := val], hole - 1, hole) == t[hole := t[hole - 1]][hole - 1 := val]
  {
  }

  // ---- partition

  /** median3 swaps its iterators, not the elements: the one returned points to the middle value. */
  method Median3(a: array<int>, first: nat, middle: nat, last: nat) returns (m: nat)
    requires first < a.Length && middle < a.Length && last < a.Length
    ensures m == first || m == middle || m == last
    ensures AtMost(a[first], a[m]) + AtMost(a[middle], a[m]) + AtMost(a[last], a[m]) >= 2
    ensures AtMost(a[m], a[first]) + AtMost(a[m], a[middle]) + AtMost(a[m], a[last]) >= 2
  {
    var f, l := first, last;
    m := middle;
    if a[m] < a[f] { m, f := f, m; }
    if a[l] < a[m] { l, m := m, l; }
    if a[m] < a[f] { m, f := f, m; }
  }

  function AtMost(x: int, y: int): nat {
    if x <= y then 1 else 0
  }

  /** Less than the pivot up to b, equal up to e, greater from there. */
  ghost predicate Split3(s: seq<int>, lo: nat, b: nat, e: nat, hi: nat, pivot: int)
    requires lo <= b <= e <= hi <= |s|
  {
    && (forall k :: lo <= k < b ==> s[k] < pivot)
    && (forall k :: b <= k < e ==> s[k] == pivot)
    && (forall k :: e <= k < hi ==> s[k] > pivot)
  }

  method Swap(a: array<int>, i: nat, j: nat)
    requires i < a.Length && j < a.Length
    modifies a
    ensures a[..] == Swapped(old(a[..]), i, j)
  {
    a[i], a[j] := a[j], a[i];
  }

  /** The four groups of partition3: equal, less, unknown, greater. */
  ghost predicate Groups(s: seq<int>, begin: nat, eq: nat, lt: nat, gt: nat, end: nat, pivot: int)
    requires begin <= eq <= lt <= gt <= end <= |s|
  {
    && (forall k :: begin <= k < eq ==> s[k] == pivot)
    && (forall k :: eq <= k < lt ==> s[k] < pivot)
    && (forall k :: gt <= k < end ==> s[k] > pivot)
  }

  lemma GroupsStep(s: seq<int>, begin: nat, eq: nat, lt: nat, gt: nat, end: nat, pivot: int)
    requires begin <= eq <= lt < gt <= end <= |s| && Groups(s, begin, eq, lt, gt, end, pivot)
    ensures s[lt] < pivot ==> Groups(s, begin, eq, lt + 1, gt, end, pivot)
    ensures s[lt] == pivot ==> Groups(Swapped(s, eq, lt), begin, eq + 1, lt + 1, gt, end, pivot)
    ensures s[lt] > pivot ==> Groups(Swapped(s, lt, gt - 1), begin, eq, lt, gt - 1, end, pivot)
  {
  }

  /** partition3's first loop. */
  method Divide(a: array<int>, begin: nat, end: nat, pivot: int) returns (eq: nat, gt: nat)
    requires begin <= end <= a.Length
    modifies a
    ensures Perm(old(a[..]), a[..], begin, end) && begin <= eq <= gt <= end
    ensures Groups(a[..], begin, eq, gt, gt, end, pivot)
  {
    var lt := begin;
    eq, gt := begin, end;
    assert Groups(a[..], begin, eq, lt, gt, end, pivot);
    hide Perm, Groups, Swapped;
    PermRefl(a[..], begin, end);
    while lt < gt
      invariant begin <= eq <= lt <= gt <= end && Perm(old(a[..]), a[..], begin, end)
      invariant Groups(a[..], begin, eq, lt, gt, end, pivot)
      decreases gt - lt
    {
      ghost var s := a[..];
      GroupsStep(s, begin, eq, lt, gt, end, pivot);
      if a[lt] < pivot {
        lt := lt + 1;
      } else if a[lt] == pivot {
        PermSwap(s, begin, end, eq, lt);
        PermTrans(old(a[..]), s, Swapped(s, eq, lt), begin, end);
        Swap(a, eq, lt);
        eq := eq + 1;
        lt := lt + 1;
      } else {
        gt := gt - 1;
        PermSwap(s, begin, end, lt, gt);
        PermTrans(old(a[..]), s, Swapped(s, lt, gt), begin, end);
        Swap(a, lt, gt);
      }
    }
  }

  lemma PermRefl(s: seq<int>, lo: nat, hi: nat)
    requires lo <= hi <= |s|
    ensures Perm(s, s, lo, hi)
  {
  }

  /**
   After n swaps of the second loop: the first `done` positions hold smaller elements, and so does what is left of
   the second group; the rest up to gt are equals. When there are more equals than smaller elements the last
   swaps exchange equals with equals.
   */
  ghost predicate Moving(s: seq<int>, begin: nat, eq: nat, gt: nat, end: nat, pivot: int, n: nat)
    requires begin <= eq <= gt <= end <= |s| && n <= eq - begin
  {
    var done := if n < gt - eq then n else gt - eq;
    && (forall k :: begin <= k < begin + done || eq <= k < gt - done ==> s[k] < pivot)
    && (forall k :: begin + done <= k < eq || gt - done <= k < gt ==> s[k] == pivot)
    && (forall k :: gt <= k < end ==> s[k] > pivot)
  }

  lemma MovingStep(s: seq<int>, begin: nat, eq: nat, gt: nat, end: nat, pivot: int, n: nat)
    requires begin <= eq <= gt <= end <= |s| && n < eq - begin && Moving(s, begin, eq, gt, end, pivot, n)
    ensures Moving(Swapped(s, begin + n, gt - n - 1), begin, eq, gt, end, pivot, n + 1)
  {
  }

  /** partition3; the equal elements end up in the middle even when there are more of them than smaller ones. */
  method Partition3(a: array<int>, begin: nat, end: nat, pivot: int) returns (eqbeg: nat, eqend: nat)
    requires begin <= end <= a.Length
    modifies a
    ensures Perm(old(a[..]), a[..], begin, end) && begin <= eqbeg <= eqend <= end
    ensures Split3(a[..], begin, eqbeg, eqend, end, pivot)
  {
    hide Perm, Groups, Moving, Swapped, Split3;
    var eq, gt := Divide(a, begin, end, pivot);
    eqbeg := gt;
    var it := begin;
    MovingStart(a[..], begin, eq, gt, end, pivot);
    while it != eq
      invariant begin <= it <= eq && eqbeg == gt - (it - begin) && Perm(old(a[..]), a[..], begin, end)
      invariant Moving(a[..], begin, eq, gt, end, pivot, it - begin)
      decreases eq - it
    {
      ghost var s := a[..];
      MovingStep(s, begin, eq, gt, end, pivot, it - begin);
      eqbeg := eqbeg - 1;
      PermSwap(s, begin, end, it, eqbeg);
      PermTrans(old(a[..]), s, Swapped(s, it, eqbeg), begin, end);
      Swap(a, it, eqbeg);
      it := it + 1;
    }
    MovingEnd(a[..], begin, eq, gt, end, pivot);
    eqend := gt;
  }

  lemma MovingStart(s: seq<int>, begin: nat, eq: nat, gt: nat, end: nat, pivot: int)
    requires begin <= eq <= gt <= end <= |s| && Groups(s, begin, eq, gt, gt, end, pivot)
    ensures Moving(s, begin, eq, gt, end, pivot, 0)
  {
  }

  lemma MovingEnd(s: seq<int>, begin: nat, eq: nat, gt: nat, end: nat, pivot: int)
    requires begin <= eq <= gt <= end <= |s| && Moving(s, begin, eq, gt, end, pivot, eq - begin)
    ensures Split3(s, begin, gt - (eq - begin), gt, end, pivot)
  {
  }

  // ---- quicksort

  function Log2(n: nat): nat {
    if n <= 1 then 0 else 1 + Log2(n / 2)
  }

  lemma {:induction false} Log2Grows(m: nat, n: nat)
    requires m <= n
    ensures Log2(m) <= Log2(n)
  {
    if n > 1 && m > 1 { Log2Grows(m / 2, n / 2); }
  }

  /** Everything outside [b, e) within [lo, hi) is in its place. */
  ghost predicate Placed(s: seq<int>, lo: nat, b: nat, e: nat, hi: nat)
    requires hi <= |s|
  {
    forall i, j :: lo <= i < j < hi && (i < b || e <= j) ==> s[i] <= s[j]
  }

  lemma PlacedKept(s: seq<int>, t: seq<int>, lo: nat, b: nat, e: nat, hi: nat)
    requires lo <= b <= e <= hi <= |s| && Perm(s, t, b, e) && Placed(s, lo, b, e, hi)
    ensures Placed(t, lo, b, e, hi)
  {
    forall i, j | lo <= i < j < hi && (i < b || e <= j) ensures t[i] <= t[j] {
      var i', j' := i, j;
      if b <= i < e { i' := PermSource(s, t, b, e, i); } else { PermOutside(s, t, b, e, i); }
      if b <= j < e { j' := PermSource(s, t, b, e, j); } else { PermOutside(s, t, b, e, j); }
      assert s[i'] <= s[j'];
    }
  }

  lemma SplitKept(s: seq<int>, t: seq<int>, lo: nat, b: nat, e: nat, hi: nat, pivot: int, right: bool)
    requires lo <= b <= e <= hi <= |s| && Split3(s, lo, b, e, hi, pivot)
    requires if right then Perm(s, t, e, hi) else Perm(s, t, lo, b)
    ensures |t| == |s| && Split3(t, lo, b, e, hi, pivot)
  {
    var x, y := if right then e else lo, if right then hi else b;
    forall k | lo <= k < hi ensures exists k' :: lo <= k' < hi && t[k] == s[k'] && (k < b <==> k' < b) && (k < e <==> k' < e) {
      if x <= k < y {
        var k' := PermSource(s, t, x, y, k);
      } else {
        PermOutside(s, t, x, y, k);
        assert t[k] == s[k];
      }
    }
  }

  /** After partitioning [b, e) and sorting one outer side, only the other side is left to sort. */
  lemma Narrow(s: seq<int>, lo: nat, b: nat, eqbeg: nat, eqend: nat, e: nat, hi: nat, pivot: int, right: bool)
    requires lo <= b <= eqbeg <= eqend <= e <= hi <= |s|
    requires Placed(s, lo, b, e, hi) && Split3(s, b, eqbeg, eqend, e, pivot)
    requires if right then SortedPart(s, eqend, e) else SortedPart(s, b, eqbeg)
    ensures if right then Placed(s, lo, b, eqbeg, hi) else Placed(s, lo, eqend, e, hi)
  {
  }

  /** The pivot is an element of the part, so the group of equals is not empty. */
  lemma EqualsExist(s: seq<int>, t: seq<int>, b: nat, e: nat, m: nat, eqbeg: nat, eqend: nat)
    requires b <= m < e <= |s| && Perm(s, t, b, e) && b <= eqbeg <= eqend <= e
    requires Split3(t, b, eqbeg, eqend, e, s[m])
    ensures eqbeg < eqend
  {
    assert s[m] == s[b..e][m - b];
    assert s[m] in multiset(s[b..e]);
    assert s[m] in t[b..e];
    var k :| 0 <= k < e - b && t[b..e][k] == s[m];
    assert t[b + k] == s[m];
  }

  /** Partitions around the median of three; the group of equals is never empty. */
  method PartitionChunk(a: array<int>, begin: nat, end: nat) returns (eqbeg: nat, eqend: nat, ghost pivot: int)
    requires begin < end <= a.Length
    modifies a
    ensures Perm(old(a[..]), a[..], begin, end) && begin <= eqbeg < eqend <= end
    ensures Split3(a[..], begin, eqbeg, eqend, end, pivot)
  {
    hide Perm, Split3;
    ghost var s := a[..];
    var middle := begin + (end - begin) / 2;
    var median := Median3(a, begin, middle, end - 1);
    pivot := a[median];
    eqbeg, eqend := Partition3(a, begin, end, a[median]);
    EqualsExist(s, a[..], begin, end, median, eqbeg, eqend);
  }

  /** sort; depth is the number of nested calls below this one. */
  method Sort(a: array<int>, lo: nat, hi: nat) returns (depth: nat)
    requires lo <= hi <= a.Length
    modifies a
    ensures Perm(old(a[..]), a[..], lo, hi) && SortedPart(a[..], lo, hi)
    ensures depth <= Log2(hi - lo)
    decreases hi - lo
  {
    hide Perm, Placed, Split3, Log2, SortedPart;
    ghost var start := a[..];
    var begin, end := lo, hi;
    depth := 0;
    PermRefl(start, lo, hi);
    PlacedStart(start, lo, hi);
    while end - begin > 16
      invariant lo <= begin <= end <= hi && Perm(start, a[..], lo, hi)
      invariant Placed(a[..], lo, begin, end, hi) && depth <= Log2(hi - lo)
      decreases end - begin
    {
      ghost var s := a[..];
      var eqbeg, eqend, pivot := PartitionChunk(a, begin, end);
      ghost var t := a[..];
      PlacedKept(s, t, lo, begin, end, hi);
      var d: nat;
      if eqbeg - begin > end - eqend {
        Deeper(hi - lo, end - eqend);
        d := Sort(a, eqend, end);
        AfterSide(start, s, t, a[..], lo, begin, eqbeg, eqend, end, hi, pivot, true);
        end := eqbeg;
      } else {
        Deeper(hi - lo, eqbeg - begin);
        d := Sort(a, begin, eqbeg);
        AfterSide(start, s, t, a[..], lo, begin, eqbeg, eqend, end, hi, pivot, false);
        begin := eqend;
      }
      depth := if d + 1 > depth then d + 1 else depth;
    }
    ghost var s := a[..];
    InsertionSort(a, begin, end);
    PermWiden(s, a[..], begin, end, lo, hi);
    PermTrans(start, s, a[..], lo, hi);
    PlacedKept(s, a[..], lo, begin, end, hi);
    AllPlaced(a[..], lo, begin, end, hi);
  }

  lemma PlacedStart(s: seq<int>, lo: nat, hi: nat)
    requires lo <= hi <= |s|
    ensures Placed(s, lo, lo, hi, hi)
  {
  }

  lemma AllPlaced(s: seq<int>, lo: nat, b: nat, e: nat, hi: nat)
    requires lo <= b <= e <= hi <= |s| && Placed(s, lo, b, e, hi) && SortedPart(s, b, e)
    ensures SortedPart(s, lo, hi)
  {
  }

  lemma Deeper(n: nat, m: nat)
    requires n > 16 && 2 * m < n
    ensures Log2(m) + 1 <= Log2(n)
  {
    Log2Grows(m, n / 2);
  }

  /** One turn of the loop: s was partitioned into t, one outer side was sorted giving u. */
  lemma AfterSide(start: seq<int>, s: seq<int>, t: seq<int>, u: seq<int>, lo: nat, b: nat, eqbeg: nat, eqend: nat, e: nat, hi: nat,
                  pivot: int, right: bool)
    requires lo <= b <= eqbeg <= eqend <= e <= hi <= |start| == |s| == |t|
    requires Perm(start, s, lo, hi) && Perm(s, t, b, e) && Placed(t, lo, b, e, hi) && Split3(t, b, eqbeg, eqend, e, pivot)
    requires if right then Perm(t, u, eqend, e) && |u| == |t| && SortedPart(u, eqend, e)
             else Perm(t, u, b, eqbeg) && |u| == |t| && SortedPart(u, b, eqbeg)
    ensures Perm(start, u, lo, hi)
    ensures if right then Placed(u, lo, b, eqbeg, hi) else Placed(u, lo, eqend, e, hi)
  {
    var x, y := if right then eqend else b, if right then e else eqbeg;
    PermWiden(s, t, b, e, lo, hi);
    PermWiden(t, u, x, y, b, e);
    PlacedKept(t, u, lo, b, e, hi);
    PermWiden(t, u, x, y, lo, hi);
    PermTrans(start, s, t, lo, hi);
    PermTrans(start, t, u, lo, hi);
    SplitKept(t, u, b, eqbeg, eqend, e, pivot, right);
    Narrow(u, lo, b, eqbeg, eqend, e, hi, pivot, right);
  }
}
