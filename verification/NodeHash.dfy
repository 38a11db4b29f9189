/**
 The pointer hash set behind duplicate removal: open addressing with triangular probing in
 a table of 2^m slots, and the two in-place ways of dropping repeated nodes.
 */
module NodeHash {
  import opened NodeOrder
  import opened Arithmetic

  // ---- the probe sequence

  function Pow2(m: nat): nat {
    if m == 0 then 1 else 2 * Pow2(m - 1)
  }

  /** 1 + 2 + ... + k. */
  function Triangle(k: nat): nat {
    if k == 0 then 0 else Triangle(k - 1) + k
  }

  /** The slot looked at after k collisions. */
  function Slot(start: nat, k: nat, size: nat): (r: nat)
    requires size > 0
    ensures r < size
  {
    Wrapped(start + Triangle(k), size)
  }

  lemma {:induction false} Pow2Positive(m: nat)
    ensures Pow2(m) > 0
  {
    if m > 0 { Pow2Positive(m - 1); }
  }

  lemma Distribute(a: int, b: int, c: int)
    ensures a * (b + c) == a * b + a * c
  {
  }

  lemma OddTimesOdd(a: int, b: int)
    requires a % 2 == 1 && b % 2 == 1
    ensures (a * b) % 2 == 1
  {
    var a', x := a / 2, a / 2 * b;
    Distribute(b, 2 * a', 1);
    assert b * (2 * a') == 2 * x;
    assert a * b == 2 * x + b;
  }

  lemma EvenProduct(a: int, b: int, c: int)
    requires a % 2 == 1 && a * b == 2 * c
    ensures b % 2 == 0
  {
    if b % 2 == 1 { OddTimesOdd(a, b); }
  }

  /** A power of two that divides a product with an odd factor divides the other factor. */
  lemma {:induction false} OddFactor(n: nat, a: nat, b: nat, q: nat)
    requires a % 2 == 1 && a * b == Pow2(n) * q
    ensures b > 0 ==> b >= Pow2(n)
  {
    if n > 0 && b > 0 {
      var half := Pow2(n - 1);
      assert a * b == 2 * (half * q);
      EvenProduct(a, b, half * q);
      var b' := b / 2;
      assert a * b == 2 * (a * b');
      OddFactor(n - 1, a, b', q);
    }
  }

  lemma ModEqualMultiple(x: nat, y: nat, size: nat) returns (q: nat)
    requires size > 0 && x <= y && x % size == y % size
    ensures y - x == size * q
  {
    q := y / size - x / size;
    assert x == size * (x / size) + x % size && y == size * (y / size) + y % size;
    assert size * (y / size) - size * (x / size) == size * (y / size - x / size);
    assert y - x == size * (y / size - x / size);
    MultipleIsLarge(q, size);
  }

  lemma {:induction false} TriangleGrows(j: nat, k: nat)
    requires j <= k
    ensures Triangle(j) <= Triangle(k)
  {
    if j < k { TriangleGrows(j, k - 1); }
  }

  /** Two probes of one sequence never look at the same slot. */
  lemma {:induction false} ProbesDiffer(start: nat, m: nat, j: nat, k: nat)
    requires j < k < Pow2(m)
    ensures Pow2(m) > 0 && Slot(start, j, Pow2(m)) != Slot(start, k, Pow2(m))
  {
    var size := Pow2(m);
    Pow2Positive(m);
    if Slot(start, j, size) == Slot(start, k, size) {
      var q := SameSlot(start, j, k, size);
      var a: nat, b: nat := k - j, k + j + 1;
      assert b == a + (2 * j + 1);
      assert Pow2(m + 1) == 2 * size;
      NoCommonSlot(m + 1, a, b, q);
      assert false;
    }
  }

  lemma SameSlot(start: nat, j: nat, k: nat, size: nat) returns (q: nat)
    requires size > 0 && j < k && Slot(start, j, size) == Slot(start, k, size)
    ensures (k - j) * (k + j + 1) == (2 * size) * q
  {
    TriangleGrows(j, k);
    q := ModEqualMultiple(start + Triangle(j), start + Triangle(k), size);
    Factored(j, k, size, q);
  }

  /** Of two factors below 2^(m+1), one odd, no product is a multiple of 2^(m+1). */
  lemma NoCommonSlot(m: nat, a: nat, b: nat, q: nat)
    requires 0 < a < Pow2(m) && 0 < b < Pow2(m) && a % 2 != b % 2
    ensures a * b != Pow2(m) * q
  {
    if a * b == Pow2(m) * q {
      if a % 2 == 1 {
        OddFactor(m, a, b, q);
      } else {
        assert b * a == a * b;
        OddFactor(m, b, a, q);
      }
    }
  }

  /** Twice the n numbers after j. */
  lemma {:induction false} TriangleGap(j: nat, n: nat)
    ensures 2 * (Triangle(j + n) - Triangle(j)) == n * (j + (j + n + 1))
  {
    if n > 0 {
      TriangleGap(j, n - 1);
      Distribute(j + (j + n), n - 1, 1);
      Distribute(n, j + (j + n), 1);
    }
  }

  lemma Factored(j: nat, k: nat, size: nat, q: nat)
    requires j < k
    requires Triangle(k) - Triangle(j) == size * q
    ensures (k - j) * (k + j + 1) == (2 * size) * q
  {
    TriangleGap(j, k - j);
    Doubled(size, q);
    assert j + (j + (k - j) + 1) == k + j + 1;
  }

  lemma Doubled(x: int, q: int)
    ensures (2 * x) * q == 2 * (x * q)
  {
  }

  function Below(n: nat): set<nat> {
    if n == 0 then {} else {n - 1} + Below(n - 1)
  }

  lemma {:induction false} BelowFacts(n: nat)
    ensures |Below(n)| == n && forall x: nat :: x in Below(n) <==> x < n
  {
    if n > 0 { BelowFacts(n - 1); }
  }

  /** The first k slots of a probe sequence. */
  ghost function Probed(start: nat, k: nat, size: nat): set<nat>
    requires size > 0
  {
    if k == 0 then {} else Probed(start, k - 1, size) + {Slot(start, k - 1, size)}
  }

  lemma {:induction false} ProbedFacts(start: nat, k: nat, m: nat)
    requires k <= Pow2(m)
    ensures Pow2(m) > 0 && |Probed(start, k, Pow2(m))| == k
    ensures forall s :: s in Probed(start, k, Pow2(m)) <==> exists j :: 0 <= j < k && s == Slot(start, j, Pow2(m))
  {
    hide Slot;
    Pow2Positive(m);
    if k > 0 {
      ProbedFacts(start, k - 1, m);
      forall j | 0 <= j < k - 1 ensures Slot(start, j, Pow2(m)) != Slot(start, k - 1, Pow2(m)) {
        ProbesDiffer(start, m, j, k - 1);
      }
    }
  }

  lemma SubsetOfSameSize(a: set<nat>, b: set<nat>)
    requires a <= b && |a| == |b|
    ensures a == b
  {
    assert b == a + (b - a);
    assert |b - a| == 0;
  }

  ghost predicate Reached(start: nat, s: nat, size: nat) {
    exists k :: 0 <= k < size && s == Slot(start, k, size)
  }

  /** In a table of 2^m slots the first 2^m probes look at every slot exactly once. */
  lemma {:induction false} ProbesCover(start: nat, m: nat)
    ensures Pow2(m) > 0
    ensures forall s: nat :: s < Pow2(m) ==> Reached(start, s, Pow2(m))
    ensures forall j, k :: 0 <= j < k < Pow2(m) ==> Slot(start, j, Pow2(m)) != Slot(start, k, Pow2(m))
  {
    hide Slot;
    var size := Pow2(m);
    ProbedFacts(start, size, m);
    BelowFacts(size);
    SubsetOfSameSize(Probed(start, size, size), Below(size));
    forall s: nat | s < size ensures Reached(start, s, size) {
      assert s in Probed(start, size, size);
    }
    forall j, k | 0 <= j < k < size ensures Slot(start, j, size) != Slot(start, k, size) {
      ProbesDiffer(start, m, j, k);
    }
  }

  lemma FirstSlot(start: nat, size: nat)
    requires start < size
    ensures Slot(start, 0, size) == start
  {
  }

  lemma NextSlot(start: nat, k: nat, size: nat)
    requires size > 0
    ensures Slot(start, k + 1, size) == Wrapped(Slot(start, k, size) + k + 1, size)
  {
    var t := start + Triangle(k);
    assert Triangle(k + 1) == Triangle(k) + k + 1;
    ModAdd(t, k + 1, size);
  }

  lemma ModAdd(t: nat, u: nat, size: nat)
    requires size > 0
    ensures (t + u) % size == (t % size + u) % size
  {
    var q := t / size;
    assert t == q * size + t % size;
    ModMultiple(t % size + u, q, size);
  }

  // ---- the table

  /** x & (size - 1), size being a power of two. */
  function Wrapped(x: nat, size: nat): (r: nat)
    requires size > 0
    ensures r < size
  {
    x % size
  }

  /** The MurmurHash3 32-bit finalizer of the low half of an address. */
  function Murmur(key: nat): bv32 {
    var h0 := (key % 0x1_0000_0000) as bv32;
    var h1 := (h0 ^ (h0 >> 16)) * 0x85ebca6b;
    var h2 := (h1 ^ (h1 >> 13)) * 0xc2b2ae35;
    h2 ^ (h2 >> 16)
  }

  function Start(key: nat, size: nat): (r: nat)
    requires size > 0
    ensures r < size
  {
    Murmur(key) as nat % size
  }

  /** Slots that hold a key; 0 marks an empty slot. */
  function Occupied(t: seq<nat>): set<nat> {
    set i: nat | i < |t| && t[i] != 0
  }

  /** Slot i's key is met before any empty slot on the key's own probe sequence. */
  ghost predicate Found(t: seq<nat>, i: nat)
    requires i < |t|
  {
    exists k :: 0 <= k < |t| && Slot(Start(t[i], |t|), k, |t|) == i
                && forall j :: 0 <= j < k ==> t[Slot(Start(t[i], |t|), j, |t|)] != 0
  }

  /** Every stored key can be found again. */
  ghost predicate Searchable(t: seq<nat>) {
    forall i :: 0 <= i < |t| && t[i] != 0 ==> Found(t, i)
  }

  /** Filling an empty slot at the end of its key's own probe path keeps every key searchable. */
  lemma FillKeepsSearchable(t: seq<nat>, b: nat, key: nat, k: nat)
    requires Searchable(t) && b < |t| && t[b] == 0 && key != 0
    requires k < |t| && Slot(Start(key, |t|), k, |t|) == b
    requires forall j :: 0 <= j < k ==> t[Slot(Start(key, |t|), j, |t|)] != 0
    ensures Searchable(t[b := key])
  {
    hide Start, Slot, Triangle;
    var t' := t[b := key];
    forall i | 0 <= i < |t'| && t'[i] != 0 ensures Found(t', i) {
      if i == b {
        assert Slot(Start(t'[i], |t'|), k, |t'|) == i;
      } else {
        assert Found(t, i);
        assert |t| > 0;
        var k' :| 0 <= k' < |t| && Slot(Start(t[i], |t|), k', |t|) == i
                  && forall j :: 0 <= j < k' ==> t[Slot(Start(t[i], |t|), j, |t|)] != 0;
        assert Slot(Start(t'[i], |t'|), k', |t'|) == i;
      }
    }
  }

  /** An empty slot on the key's path, not met before, shows that the key is not in the table. */
  lemma AbsentAtEmpty(t: seq<nat>, key: nat, k: nat)
    requires |t| > 0 && Searchable(t) && key != 0
    requires t[Slot(Start(key, |t|), k, |t|)] == 0
    requires forall j :: 0 <= j < k ==> t[Slot(Start(key, |t|), j, |t|)] != key
    ensures key !in t
  {
    hide Start, Slot, Triangle;
    forall i | 0 <= i < |t| ensures t[i] != key {}
  }

  lemma FullTable(t: seq<nat>)
    requires forall i :: 0 <= i < |t| ==> t[i] != 0
    ensures |Occupied(t)| == |t|
  {
    BelowFacts(|t|);
    assert Occupied(t) == Below(|t|);
  }

  lemma EmptySlot(t: seq<nat>) returns (s: nat)
    requires |Occupied(t)| < |t|
    ensures s < |t| && t[s] == 0
  {
    if forall i :: 0 <= i < |t| ==> t[i] != 0 {
      FullTable(t);
      assert false;
    }
    s :| s < |t| && t[s] == 0;
  }

  /** With an empty slot somewhere, the probe sequence meets one. */
  lemma EmptySlotMet(t: seq<nat>, start: nat, m: nat)
    requires |t| == Pow2(m) && |Occupied(t)| < |t|
    ensures exists k :: 0 <= k < |t| && t[Slot(start, k, |t|)] == 0
  {
    hide Slot;
    var s := EmptySlot(t);
    ProbesCover(start, m);
    assert Reached(start, s, |t|);
    var k :| 0 <= k < |t| && s == Slot(start, k, |t|);
    assert t[Slot(start, k, |t|)] == 0;
  }

  /** What inserting a key does to a table. */
  ghost predicate Inserted(t: seq<nat>, t': seq<nat>, key: nat, isNew: bool) {
    && (isNew <==> key !in t)
    && Searchable(t')
    && (forall x :: x != 0 ==> (x in t' <==> x in t || x == key))
    && |Occupied(t')| <= |Occupied(t)| + 1
  }

  lemma StoreNew(t: seq<nat>, b: nat, key: nat, k: nat)
    requires Searchable(t) && b < |t| && t[b] == 0 && key != 0
    requires k < |t| && Slot(Start(key, |t|), k, |t|) == b
    requires forall j :: 0 <= j < k ==> t[Slot(Start(key, |t|), j, |t|)] != 0 && t[Slot(Start(key, |t|), j, |t|)] != key
    ensures Inserted(t, t[b := key], key, true)
  {
    hide Slot, Start;
    AbsentAtEmpty(t, key, k);
    FillKeepsSearchable(t, b, key, k);
    hide Searchable;
    var t' := t[b := key];
    assert Occupied(t') == Occupied(t) + {b};
    forall x | x != 0 ensures x in t' <==> x in t || x == key {
      if x in t {
        var i :| 0 <= i < |t| && t[i] == x;
        assert t'[i] == x;
      }
      assert t'[b] == key;
    }
  }

  /** hash_insert: true exactly for a new key, which is then stored; the table is never found full. */
  method HashInsert(table: array<nat>, ghost m: nat, key: nat) returns (isNew: bool)
    requires table.Length == Pow2(m) && key != 0
    requires Searchable(table[..]) && |Occupied(table[..])| < table.Length
    modifies table
    ensures Inserted(old(table[..]), table[..], key, isNew)
  {
    hide Murmur, Start, Slot, Triangle, Wrapped, Searchable, Occupied, Pow2, Inserted;
    ghost var t := table[..];
    Pow2Positive(m);
    var size := table.Length;
    ghost var start := Start(key, size);
    EmptySlotMet(t, start, m);
    var bucket := Start(key, size);
    FirstSlot(start, size);
    var probe := 0;
    while probe < size
      invariant 0 <= probe <= size && bucket == Slot(start, probe, size) && table[..] == t
      invariant forall j :: 0 <= j < probe ==> t[Slot(start, j, size)] != 0 && t[Slot(start, j, size)] != key
    {
      assert table[bucket] == t[bucket];
      if table[bucket] == 0 {
        StoreNew(t, bucket, key, probe);
        table[bucket] := key;
        assert table[..] == t[bucket := key];
        return true;
      }
      if table[bucket] == key {
        assert Inserted(t, t, key, false) by { assert key in t; FoundAgain(t, key); }
        return false;
      }
      NextSlot(start, probe, size);
      bucket := Wrapped(bucket + probe + 1, size);
      probe := probe + 1;
    }
    assert false;
    isNew := false;
  }

  lemma FoundAgain(t: seq<nat>, key: nat)
    requires Searchable(t) && key in t
    ensures Inserted(t, t, key, false)
  {
  }

  // ---- dropping repeated nodes

  /** xpath_node: the addresses of a node and of one of its attributes, 0 for none. */
  datatype Handle = Handle(node: nat, attr: nat)

  /** The address that tells a node apart; 0 for a null node. */
  function Key(h: Handle): nat {
    if h.attr != 0 then h.attr else h.node
  }

  ghost function KeySet<T>(s: seq<T>, key: T -> nat): set<nat> {
    set h | h in s :: key(h)
  }

  /** Distinct nodes and attributes live at distinct addresses. */
  ghost predicate KeysIdentify<T>(s: seq<T>, key: T -> nat) {
    forall g, h :: g in s && h in s && key(g) == key(h) ==> g == h
  }

  function NonNull<T>(s: seq<T>, key: T -> nat): seq<T>
    decreases |s|
  {
    if s == [] then []
    else NonNull(s[..|s| - 1], key) + (if key(s[|s| - 1]) != 0 then [s[|s| - 1]] else [])
  }

  lemma {:induction false} NonNullMembers<T>(s: seq<T>, key: T -> nat)
    ensures forall h :: h in NonNull(s, key) <==> h in s && key(h) != 0
    decreases |s|
  {
    if s != [] {
      NonNullMembers(s[..|s| - 1], key);
      assert s == s[..|s| - 1] + [s[|s| - 1]];
    }
  }

  lemma NonNullStep<T>(p: seq<T>, h: T, key: T -> nat)
    ensures NonNull(p + [h], key) == NonNull(p, key) + if key(h) != 0 then [h] else []
  {
    assert (p + [h])[..|p|] == p;
  }

  lemma KeepFirstStep<T>(p: seq<T>, h: T)
    ensures KeepFirst(p + [h]) == KeepFirst(p) + if h in p then [] else [h]
  {
    assert (p + [h])[..|p|] == p;
  }

  lemma KeySetStep<T>(s: seq<T>, p: seq<T>, h: T, key: T -> nat)
    requires KeysIdentify(s, key) && p + [h] <= s
    ensures KeySet(p + [h], key) == KeySet(p, key) + {key(h)} && (key(h) in KeySet(p, key) <==> h in p)
  {
    var q := p + [h];
    assert forall g :: g in q <==> g in p || g == h;
    assert forall g :: g in q ==> g in s;
  }

  /** One more node: kept exactly when its key is new. */
  lemma KeepOneMore<T>(s: seq<T>, p: seq<T>, h: T, key: T -> nat)
    requires KeysIdentify(s, key) && p + [h] <= s
    ensures KeepFirst(NonNull(p + [h], key)) ==
              KeepFirst(NonNull(p, key)) + if key(h) != 0 && key(h) !in KeySet(p, key) then [h] else []
    ensures KeySet(p + [h], key) == KeySet(p, key) + {key(h)}
  {
    KeySetStep(s, p, h, key);
    NonNullMembers(p, key);
    NonNullStep(p, h, key);
    KeepFirstStep(NonNull(p, key), h);
    hide NonNull, KeepFirst, KeySet, KeysIdentify;
    assert NonNull(p, key) + [] == NonNull(p, key) && KeepFirst(NonNull(p, key)) + [] == KeepFirst(NonNull(p, key));
  }

  /** remove_duplicates through the hash table: the first occurrence of each node stays, in order; null entries go. */
  method RemoveByHash<T(==)>(a: array<T>, key: T -> nat) returns (count: nat)
    requires KeysIdentify(a[..], key) && a.Length > 2
    modifies a
    ensures count <= a.Length && a[..count] == KeepFirst(NonNull(old(a[..]), key))
  {
    hide KeysIdentify, KeySet, KeepFirst, NonNull, Searchable, Occupied, Inserted;
    ghost var s := a[..];
    var n := a.Length;
    var size := 1;
    ghost var m: nat := 0;
    while size < n + n / 2
      invariant size == Pow2(m)
    {
      size := size * 2;
      m := m + 1;
    }
    var table := new nat[size](_ => 0);
    EmptyTable(table[..]);
    count := 0;
    var it := 0;
    EmptyStart(key);
    assert a[..0] == [] && s[..0] == [];
    while it < n
      invariant count <= it <= n && a[it..] == s[it..]
      invariant a[..count] == KeepFirst(NonNull(s[..it], key))
      invariant Searchable(table[..]) && |Occupied(table[..])| <= it
      invariant forall x :: x != 0 ==> (x in table[..] <==> x in KeySet(s[..it], key))
      invariant table.Length == Pow2(m) && n < table.Length && fresh(table)
    {
      var h := a[it];
      assert h == a[it..][0] == s[it];
      assert s[..it + 1] == s[..it] + [h];
      KeepOneMore(s, s[..it], h, key);
      var address := key(h);
      ghost var t := table[..];
      var isNew := false;
      if address != 0 {
        isNew := HashInsert(table, m, address);
        InsertedFacts(t, table[..], address, isNew);
      }
      assert isNew <==> address != 0 && address !in KeySet(s[..it], key);
      forall x | x != 0 ensures x in table[..] <==> x in KeySet(s[..it + 1], key) {
        assert x in t <==> x in KeySet(s[..it], key);
      }
      if isNew {
        a[count] := h;
        count := count + 1;
        assert a[..count] == a[..count - 1] + [h];
      }
      it := it + 1;
    }
    assert s[..n] == s;
  }

  lemma EmptyTable(t: seq<nat>)
    requires forall i :: 0 <= i < |t| ==> t[i] == 0
    ensures Searchable(t) && Occupied(t) == {} && forall x :: x != 0 ==> x !in t
  {
  }

  lemma EmptyStart<T>(key: T -> nat)
    ensures KeepFirst(NonNull([], key)) == [] && KeySet([], key) == {}
  {
  }

  lemma InsertedFacts(t: seq<nat>, t': seq<nat>, key: nat, isNew: bool)
    requires Inserted(t, t', key, isNew)
    ensures (isNew <==> key !in t) && Searchable(t') && |Occupied(t')| <= |Occupied(t)| + 1
    ensures forall x :: x != 0 ==> (x in t' <==> x in t || x == key)
  {
  }

  /** Drops every element equal to the one before it. */
  function Squash<T(==)>(s: seq<T>): seq<T>
    decreases |s|
  {
    if |s| <= 1 then s
    else Squash(s[..|s| - 1]) + (if s[|s| - 1] == s[|s| - 2] then [] else [s[|s| - 1]])
  }

  /** Equal elements stand together. */
  ghost predicate Grouped<T>(s: seq<T>) {
    forall i, j, k :: 0 <= i < k < j < |s| && s[i] == s[j] ==> s[k] == s[i]
  }

  /** On a list whose equal elements stand together, squashing keeps first occurrences. */
  lemma {:induction false} SquashKeepsFirst<T>(s: seq<T>)
    requires Grouped(s)
    ensures Squash(s) == KeepFirst(s)
    decreases |s|
  {
    if |s| == 1 {
      assert s[..0] == [];
    } else if |s| > 1 {
      var init := s[..|s| - 1];
      SquashKeepsFirst(init);
      var last := s[|s| - 1];
      if last in init {
        var i :| 0 <= i < |init| && init[i] == last;
        assert s[|s| - 2] == last;
      } else {
        assert s[|s| - 2] in init;
      }
    }
  }

  /** A list sorted by a rank that tells its elements apart has its equal elements together. */
  lemma SortedIsGrouped<T(!new)>(s: seq<T>, rank: T -> int)
    requires forall i, j :: 0 <= i < j < |s| ==> rank(s[i]) <= rank(s[j])
    requires forall i, j :: 0 <= i < j < |s| && rank(s[i]) == rank(s[j]) ==> s[i] == s[j]
    ensures Grouped(s)
  {
    forall i, j, k | 0 <= i < k < j < |s| && s[i] == s[j] ensures s[k] == s[i] {
      assert rank(s[i]) <= rank(s[k]) <= rank(s[j]);
    }
  }

  lemma SquashStep<T>(s: seq<T>, i: nat)
    requires 0 < i < |s|
    ensures Squash(s[..i + 1]) == Squash(s[..i]) + (if s[i] == s[i - 1] then [] else [s[i]])
  {
    assert s[..i + 1][..i] == s[..i];
  }

  /** unique: in place, skipping a head without repeats. */
  method Unique<T(==)>(a: array<T>) returns (count: nat)
    modifies a
    ensures count <= a.Length && a[..count] == Squash(old(a[..]))
  {
    hide Squash;
    ghost var s := a[..];
    var end := a.Length;
    if end == 0 { SquashShort(s); return 0; }
    var begin := 0;
    SquashShort(s[..1]);
    while end - begin > 1 && a[begin] != a[begin + 1]
      invariant begin < end && a[..] == s && Squash(s[..begin + 1]) == s[..begin + 1]
    {
      SquashStep(s, begin + 1);
      assert s[..begin + 2] == s[..begin + 1] + [s[begin + 1]];
      begin := begin + 1;
    }
    var write := begin;
    begin := begin + 1;
    while begin != end
      invariant write < begin <= end && a[..][..write + 1] == Squash(s[..begin])
      invariant a[write] == s[begin - 1] && a[..][begin..] == s[begin..]
      decreases end - begin
    {
      SquashStep(s, begin);
      assert a[begin] == a[..][begin..][0] == s[begin..][0];
      if a[begin] != a[write] {
        ghost var t := a[..];
        write := write + 1;
        a[write] := a[begin];
        KeepOne(t, write, begin, s[begin]);
        assert a[..] == t[write := s[begin]];
      } else {
        assert a[..][begin + 1..] == a[..][begin..][1..];
      }
      assert s[begin + 1..] == s[begin..][1..];
      begin := begin + 1;
    }
    count := write + 1;
    assert s[..end] == s;
  }

  lemma KeepOne<T>(t: seq<T>, write: nat, begin: nat, x: T)
    requires write <= begin < |t|
    ensures t[write := x][..write + 1] == t[..write] + [x]
    ensures t[write := x][begin + 1..] == t[begin..][1..]
  {
  }

  lemma SquashShort<T>(s: seq<T>)
    requires |s| <= 1
    ensures Squash(s) == s
  {
  }

  /** remove_duplicates. A sorted list must have its equal nodes together, as sorting leaves them. */
  method RemoveDuplicates<T(==)>(a: array<T>, key: T -> nat, unsorted: bool) returns (count: nat)
    requires KeysIdentify(a[..], key) && (unsorted || Grouped(a[..]))
    modifies a
    ensures count <= a.Length
    ensures a[..count] == KeepFirst(if unsorted && a.Length > 2 then NonNull(old(a[..]), key) else old(a[..]))
  {
    if unsorted && a.Length > 2 {
      count := RemoveByHash(a, key);
    } else {
      SquashKeepsFirst(a[..]);
      count := Unique(a);
    }
  }

  /** A null node is kept in an unsorted list of two, and dropped from one of three. */
  lemma NullDependsOnLength()
    ensures var none, x := Handle(0, 0), Handle(1, 0);
            KeepFirst([none, x]) == [none, x] && KeepFirst(NonNull([none, x, x], Key)) == [x]
  {
    var none, x := Handle(0, 0), Handle(1, 0);
    assert [none, x] == [none] + [x] && [none, x, x] == [none, x] + [x] && [none] == [] + [none] && [x] == [] + [x];
    KeepFirstStep([none], x);
    KeepFirstStep([], none);
    NonNullStep([none, x], x, Key);
    NonNullStep([none], x, Key);
    NonNullStep([], none, Key);
    KeepFirstStep([x], x);
    KeepFirstStep([], x);
    assert KeepFirst<Handle>([]) == [] && NonNull([], Key) == [];
  }
}
