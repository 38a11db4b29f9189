/**
 The page allocator of a document: blocks are cut off the end of the root page, freed bytes are only counted, and
 a page goes when everything on it has been freed. The root page's busy size is kept in the allocator.
 */
module PageAllocator {

  const PageSize: nat := 32768 - 40       // less the page header
  const Threshold: nat := PageSize / 4    // large_allocation_threshold
  const Align: nat := 8

  class Page {
    var prev: Page?
    var next: Page?
    var busySize: nat
    var freedSize: nat
    const size: nat

    constructor (size: nat)
      ensures this.size == size && prev == null && next == null && busySize == 0 && freedSize == 0
    {
      this.size := size;
      prev, next, busySize, freedSize := null, null, 0, 0;
    }
  }

  ghost predicate Removed(before: seq<Page>, after: seq<Page>, page: Page) {
    (forall p :: p in after ==> p in before && p != page) && (forall p :: p in before ==> p == page || p in after)
  }

  /** A live block: `offset` counts from the page's data. */
  datatype Block = Block(page: Page, offset: nat, size: nat)

  /** The live bytes on a page. */
  ghost function Bytes(live: seq<Block>, p: Page): nat {
    if live == [] then 0 else (if live[0].page == p then live[0].size else 0) + Bytes(live[1..], p)
  }

  lemma {:induction false} BytesAppend(live: seq<Block>, b: Block, p: Page)
    ensures Bytes(live + [b], p) == Bytes(live, p) + (if b.page == p then b.size else 0)
  {
    if live == [] {
      assert live + [b] == [b] && [b][1..] == [];
    } else {
      assert (live + [b])[1..] == live[1..] + [b];
      BytesAppend(live[1..], b, p);
    }
  }

  ghost function Without(live: seq<Block>, k: nat): seq<Block>
    requires k < |live|
  {
    live[..k] + live[k + 1..]
  }

  lemma {:induction false} BytesWithout(live: seq<Block>, k: nat, p: Page)
    requires k < |live|
    ensures Bytes(live, p) == Bytes(Without(live, k), p) + (if live[k].page == p then live[k].size else 0)
  {
    if k == 0 {
      assert Without(live, k) == live[1..];
    } else {
      assert Without(live, k)[1..] == Without(live[1..], k - 1);
      BytesWithout(live[1..], k - 1, p);
    }
  }

  /** A page has no live bytes exactly when it holds no live block. */
  lemma {:induction false} NoBytesNoBlocks(live: seq<Block>, p: Page)
    requires forall b :: b in live ==> b.size > 0
    ensures Bytes(live, p) == 0 <==> forall b :: b in live ==> b.page != p
  {
    if live != [] {
      assert live[0] in live && live == [live[0]] + live[1..];
      NoBytesNoBlocks(live[1..], p);
    }
  }

  ghost predicate Apart(b: Block, c: Block) {
    b.page != c.page || b.offset + b.size <= c.offset || c.offset + c.size <= b.offset
  }

  /** xml_memory_string_header: two 16-bit numbers. */
  datatype StringHeader = StringHeader(pageOffset: nat, fullSize: nat)

  const HeaderSize: nat := 4
  const Word16: nat := 0x1_0000
  const MaxEncodedOffset: nat := Word16 * Align

  /** Header and characters, rounded up to the block alignment. */
  function StringSize(length: nat): (r: nat)
    ensures r > 0 && r % Align == 0 && HeaderSize + length <= r < HeaderSize + length + Align
  {
    (HeaderSize + length + (Align - 1)) / Align * Align
  }

  /** What allocate_string stores; sizes that do not fit are stored as 0. */
  function HeaderFor(offset: nat, size: nat): StringHeader {
    StringHeader(offset / Align % Word16, (if size < MaxEncodedOffset then size / Align else 0) % Word16)
  }

  /** The size deallocate_string works with. */
  function SizeFrom(h: StringHeader, busySize: nat): nat {
    if h.fullSize == 0 then busySize else h.fullSize * Align
  }

  /** The header gives back offset and size; a block too large for it must fill its page. */
  lemma HeaderRoundTrip(offset: nat, size: nat, busySize: nat)
    requires offset % Align == 0 && offset < MaxEncodedOffset && size % Align == 0 && size > 0
    requires size >= MaxEncodedOffset ==> busySize == size
    ensures HeaderFor(offset, size).pageOffset * Align == offset && SizeFrom(HeaderFor(offset, size), busySize) == size
  {
  }

  class Allocator {
    var root: Page
    var busySize: nat           // of the root page; its own field may be out of date
    ghost var pages: seq<Page>  // the linked list, the root page last
    ghost var live: seq<Block>  // the first one fills the sentinel page for good
    var headers: map<(Page, nat), StringHeader>   // what is stored in front of strings, by page and offset
    ghost var strings: set<Block>

    /** The page's busy size, wherever it is kept. */
    ghost function Busy(p: Page): nat
      reads this`root, this`busySize, p
    {
      if p == root then busySize else p.busySize
    }

    ghost predicate Linked()
      reads this`root, this`pages, pages`prev, pages`next
    {
      && pages != [] && root == pages[|pages| - 1]
      && (forall i, j :: 0 <= i < j < |pages| ==> pages[i] != pages[j])
      && (forall i :: 0 <= i < |pages| ==> LinkedAt(i))
    }

    ghost predicate LinkedAt(i: nat)
      requires i < |pages|
      reads this`pages, pages`prev, pages`next
    {
      && pages[i].prev == (if i == 0 then null else pages[i - 1])
      && pages[i].next == (if i == |pages| - 1 then null else pages[i + 1])
    }

    /** Busy less freed bytes are the live bytes; only the root page may be empty, and then it is unused. */
    ghost predicate Counted(p: Page)
      reads this`root, this`busySize, this`live, p
    {
      && p.freedSize + Bytes(live, p) == Busy(p) <= p.size && Busy(p) % Align == 0
      && (p.freedSize == Busy(p) ==> p == root && Busy(p) == 0)
    }

    ghost predicate Placed(b: Block)
      reads this`root, this`busySize, this`pages, b.page
    {
      && b.page in pages && b.offset < PageSize && 0 < b.size && b.offset + b.size <= Busy(b.page)
      && b.offset % Align == 0 && b.size % Align == 0
      && (b.size > PageSize ==> b.offset == 0 && b.page != root && b.page.busySize == b.size)
    }

    ghost predicate Valid()
      reads this, pages, set b | b in live :: b.page
    {
      && Linked() && root.size == PageSize && pages[0].size == PageSize
      && (forall p :: p in pages ==> Counted(p))
      && (forall b :: b in live ==> Placed(b))
      && (forall i, j :: 0 <= i < j < |live| ==> Apart(live[i], live[j]))
      && live != [] && live[0] == Block(pages[0], 0, PageSize)
    }

    /** A document starts with a sentinel page that is full. */
    constructor ()
      ensures Valid() && StringsValid() && |live| == 1 && |pages| == 1
    {
      var page := new Page(PageSize);
      page.busySize := PageSize;
      root, busySize := page, PageSize;
      pages, live := [page], [Block(page, 0, PageSize)];
      headers, strings := map[], {};
      new;
      assert live[1..] == [];
      assert Counted(root);
    }

    /** allocate_memory; the first allocation of a document must be small. */
    method AllocateMemory(size: nat) returns (page: Page, offset: nat)
      requires Valid() && size > 0 && size % Align == 0 && (size > Threshold ==> |pages| > 1)
      modifies this`root, this`busySize, this`pages, this`live, pages
      ensures Valid() && live == old(live) + [Block(page, offset, size)]
      ensures forall p :: p in pages ==> p in old(pages) || fresh(p)
      ensures old(busySize) + size <= PageSize ==>
                page == root == old(root) && offset == old(busySize) && busySize == offset + size && pages == old(pages)
      ensures old(busySize) + size > PageSize ==> fresh(page) && offset == 0 && page.size == (if size <= Threshold then PageSize else size)
      ensures old(busySize) + size > PageSize && size <= Threshold ==> root == page && busySize == size && pages == old(pages) + [page]
      ensures old(busySize) + size > PageSize && size > Threshold ==>
                root == old(root) && busySize == old(busySize) && pages == old(pages)[..|old(pages)| - 1] + [page] + [root]
    {
      if busySize + size > PageSize {
        page := AllocateOob(size);
        offset := 0;
        return;
      }
      hide LinkedAt, Bytes;
      page, offset := root, busySize;
      busySize := busySize + size;
      ghost var b := Block(page, offset, size);
      ghost var was := live;
      live := live + [b];
      assert page == pages[|pages| - 1] && old(Counted(root));
      forall p | p in pages ensures Counted(p) { assert old(Counted(p)); BytesAppend(was, b, p); }
      forall c | c in live ensures Placed(c) { if c in was { assert old(Placed(c)); } }
      forall c | c in was ensures Apart(c, b) { assert old(Placed(c)); }
      NewBlock(was, b);
    }

    /** allocate_memory_oob: a new root page for a small block, a page of its own before the root for a large one. */
    method AllocateOob(size: nat) returns (page: Page)
      requires Valid() && size > 0 && size % Align == 0 && (size > Threshold ==> |pages| > 1) && busySize + size > PageSize
      modifies this`root, this`busySize, this`pages, this`live, pages
      ensures Valid() && live == old(live) + [Block(page, 0, size)] && fresh(page)
      ensures forall p :: p in pages ==> p in old(pages) || p == page
      ensures page.size == if size <= Threshold then PageSize else size
      ensures size <= Threshold ==> root == page && busySize == size && pages == old(pages) + [page]
      ensures size > Threshold ==>
                root == old(root) && busySize == old(busySize) && pages == old(pages)[..|old(pages)| - 1] + [page] + [root]
    {
      hide LinkedAt, Linked, Bytes, Apart, Counted, Placed;
      Ends();
      assert Counted(root);
      BlocksOnPages();
      page := new Page(if size <= Threshold then PageSize else size);
      if size <= Threshold { AppendPage(page, size); } else { InsertPage(page, size); }
      live := live + [Block(page, 0, size)];
      WithNewPage(page, size);
    }

    lemma BlocksOnPages()
      requires forall b :: b in live ==> Placed(b)
      ensures forall b :: b in live ==> b.page in pages
    {
    }

    /** A page of its own for one more block keeps everything else as it was. */
    twostate lemma WithNewPage(new page: Page, size: nat)
      requires old(Valid()) && Linked() && page !in old(pages) && root.size == PageSize && pages[0] == old(pages[0])
      requires live == old(live) + [Block(page, 0, size)] && size > 0 && size % Align == 0
      requires forall b :: b in old(live) ==> b.page != page
      requires forall p :: p in pages <==> p in old(pages) || p == page
      requires forall p :: p in old(pages) ==> p.freedSize == old(p.freedSize) && Busy(p) == old(Busy(p))
      requires page.freedSize == 0 && Busy(page) == size <= page.size && (size > PageSize ==> page != root && page.busySize == size)
      requires root == old(root) || (root == page && old(busySize) > 0)
      ensures Valid()
    {
      hide LinkedAt, Linked, Bytes;
      var b, was := Block(page, 0, size), old(live);
      NoneBytes(was, page);
      forall p | p in pages ensures Counted(p) {
        BytesAppend(was, b, p);
        assert p != page ==> old(Counted(p));
      }
      forall c | c in live ensures Placed(c) { if c in was { assert old(Placed(c)); } }
      NewBlock(was, b);
    }

    /**
     deallocate_memory of live block k. A page on which nothing lives any more goes, or, if it is the root, starts
     over; every other page stays.
     */
    method DeallocateMemory(page: Page, offset: nat, size: nat, ghost k: nat)
      requires Valid() && 0 < k < |live| && live[k] == Block(page, offset, size)
      modifies this`busySize, this`pages, this`live, pages
      ensures Valid() && live == Without(old(live), k) && root == old(root)
      ensures forall p :: p in pages <==> p in old(pages) && (p != page || p == root || exists b :: b in live && b.page == p)
      ensures busySize == if page == root && (forall b :: b in live ==> b.page != page) then 0 else old(busySize)
    {
      hide LinkedAt, Linked, Bytes, Apart;
      Ends();
      BlockFacts(k);
      ghost var was, all := live, pages;
      BytesWithout(was, k, page);
      Remaining(was, k);
      if page == root { page.busySize := busySize; }
      page.freedSize := page.freedSize + size;
      live := Without(was, k);
      NoBytesNoBlocks(live, page);
      ReleaseIfEmpty(page);
      forall p | p in pages ensures Counted(p) {
        assert p in all && old(Counted(p));
        BytesWithout(was, k, p);
      }
      forall b | b in live ensures Placed(b) { assert b in was && old(Placed(b)); }
    }

    lemma BlockFacts(k: nat)
      requires Valid() && 0 < k < |live|
      ensures live[k].page in pages && live[k].page != pages[0] && Counted(live[k].page)
    {
      assert Placed(live[k]) && Apart(live[0], live[k]);
    }

    /** The end of deallocate_memory: what happens to a page whose bytes have all been freed. */
    method ReleaseIfEmpty(page: Page)
      requires Linked() && page in pages && page != pages[0] && (page == root ==> page.busySize == busySize)
      modifies this`pages, this`busySize, pages
      ensures Linked() && root == old(root) && pages[0] == old(pages[0])
      ensures forall p :: p in old(pages) && p != page ==> p.busySize == old(p.busySize) && p.freedSize == old(p.freedSize)
      ensures old(page.freedSize != page.busySize) ==>
                pages == old(pages) && busySize == old(busySize) && page.busySize == old(page.busySize) && page.freedSize == old(page.freedSize)
      ensures old(page.freedSize == page.busySize && page == root) ==>
                pages == old(pages) && busySize == 0 && page.busySize == 0 && page.freedSize == 0
      ensures old(page.freedSize == page.busySize && page != root) ==>
                busySize == old(busySize) && Removed(old(pages), pages, page)
    {
      Neighbours(page);
      hide LinkedAt;
      if page.freedSize == page.busySize {
        if page.next == null {
          page.busySize := 0;
          page.freedSize := 0;
          busySize := 0;
        } else {
          Unlink(page);
        }
      }
    }

    /** Only the root page has no next page, and only the first one no previous page. */
    lemma Neighbours(page: Page)
      requires Linked() && page in pages
      ensures if page == root then page.next == null else page.next in pages
      ensures if page == pages[0] then page.prev == null else page.prev in pages
    {
      var i :| 0 <= i < |pages| && pages[i] == page;
      assert LinkedAt(i);
    }

    lemma Ends()
      requires Linked()
      ensures pages != [] && root == pages[|pages| - 1]
    {
    }

    /** Takes a page that is neither first nor last out of the list. */
    method Unlink(page: Page)
      requires Linked() && page in pages && page != root && page != pages[0] && page.prev != null && page.next != null
      modifies this`pages, page.prev, page.next
      ensures Linked() && pages[0] == old(pages[0])
      ensures Removed(old(pages), pages, page)
      ensures forall p :: p in old(pages) ==> p.busySize == old(p.busySize) && p.freedSize == old(p.freedSize)
    {
      ghost var was, n := pages, |pages|;
      ghost var k :| 0 <= k < n && pages[k] == page;
      assert LinkedAt(k) && LinkedAt(k - 1) && LinkedAt(k + 1);
      page.prev.next := page.next;
      page.next.prev := page.prev;
      pages := was[..k] + was[k + 1..];
      forall i | 0 <= i < |pages| ensures LinkedAt(i) {
        ghost var j := if i < k then i else i + 1;
        assert pages[i] == was[j] && old(LinkedAt(j));
        assert j != k - 1 ==> was[j] != was[k - 1];
        assert j != k + 1 ==> was[j] != was[k + 1];
      }
    }

    // ---- strings

    /** Every live string has its header in front of it. */
    ghost predicate StringsValid()
      reads this`live, this`headers, this`strings
    {
      && (forall b :: b in strings ==> b in live)
      && (forall b :: b in strings ==> (b.page, b.offset) in headers && headers[(b.page, b.offset)] == HeaderFor(b.offset, b.size))
    }

    /** allocate_string, for length characters; the string itself begins behind the header. */
    method AllocateString(length: nat) returns (page: Page, offset: nat)
      requires Valid() && StringsValid() && (StringSize(length) > Threshold ==> |pages| > 1)
      modifies this, pages
      ensures Valid() && StringsValid() && live == old(live) + [Block(page, offset, StringSize(length))]
      ensures strings == old(strings) + {Block(page, offset, StringSize(length))}
    {
      hide Linked, Counted;
      ghost var was := live;
      page, offset := AllocateMemory(StringSize(length));
      ghost var b := Block(page, offset, StringSize(length));
      assert live[|was|] == b;
      forall c | c in strings ensures (c.page, c.offset) != (page, offset) {
        var i :| 0 <= i < |was| && was[i] == c;
        assert live[i] == c && Apart(live[i], live[|was|]) && Placed(live[i]);
      }
      headers := headers[(page, offset) := HeaderFor(offset, StringSize(length))];
      strings := strings + {b};
    }

    /**
     deallocate_string: page offset and size are read from the header; the page is found by going back that far,
     which must lead to where the page begins.
     */
    method DeallocateString(page: Page, offset: nat, ghost k: nat)
      requires Valid() && StringsValid() && 0 < k < |live| && live[k] in strings && live[k].page == page && live[k].offset == offset
      modifies this, pages
      ensures Valid() && StringsValid() && live == Without(old(live), k) && strings == old(strings) - {old(live)[k]}
    {
      ghost var b, was := live[k], live;
      assert Placed(b) && Counted(page);
      var header := headers[(page, offset)];
      OffsetFits(page, b);
      HeaderRoundTrip(offset, b.size, page.busySize);
      var pageOffset := header.pageOffset * Align;
      assert offset - pageOffset == 0;
      var size := SizeFrom(header, page.busySize);
      assert size == b.size;
      hide Linked, Counted, Placed, SizeFrom, HeaderFor;
      DeallocateMemory(page, pageOffset, size, k);
      strings := strings - {b};
      forall c | c in strings ensures c in live {
        var i :| 0 <= i < |was| && was[i] == c;
        assert i != k;
        assert live[if i < k then i else i - 1] == c;
      }
    }

    /** Offsets fit the header. */
    lemma OffsetFits(page: Page, b: Block)
      requires Valid() && b in live && b.page == page
      ensures b.offset < MaxEncodedOffset
    {
      assert Placed(b);
    }

    /** The page becomes the root; the old root's busy size is stored with it. */
    method AppendPage(page: Page, size: nat)
      requires Linked() && page !in pages && page.next == null
      modifies this`root, this`busySize, this`pages, root, page
      ensures Linked() && root == page && pages == old(pages) + [page] && pages[0] == old(pages)[0]
      ensures busySize == size && old(root).busySize == old(busySize) && page.busySize == old(page.busySize)
      ensures old(root).freedSize == old(root.freedSize) && page.freedSize == old(page.freedSize)
    {
      root.busySize := busySize;
      page.prev := root;
      root.next := page;
      root := page;
      busySize := size;
      ghost var was, n := pages, |pages|;
      assert old(LinkedAt(n - 1));
      pages := pages + [page];
      forall i | 0 <= i < |pages| ensures LinkedAt(i) {
        if i < n {
          assert old(LinkedAt(i)) && pages[i] == was[i];
          if i < n - 1 { assert was[i] != was[n - 1]; }
        }
      }
    }

    /** The page goes in front of the root. */
    method InsertPage(page: Page, size: nat)
      requires Linked() && |pages| > 1 && page !in pages
      modifies this`pages, root, pages[|pages| - 2], page
      ensures Linked() && pages[0] == old(pages)[0] && root == old(root) && busySize == old(busySize) && page.busySize == size && page.freedSize == old(page.freedSize)
      ensures pages == old(pages)[..|old(pages)| - 1] + [page] + [root]
      ensures forall p :: p in old(pages) ==> p.busySize == old(p.busySize) && p.freedSize == old(p.freedSize)
    {
      ghost var n := |pages|;
      assert LinkedAt(n - 1) && LinkedAt(n - 2);
      page.prev := root.prev;
      page.next := root;
      root.prev.next := page;
      root.prev := page;
      page.busySize := size;
      ghost var was := pages;
      pages := pages[..n - 1] + [page] + [root];
      assert pages[n] == root && pages[n - 1] == page;
      forall i | 0 <= i < |pages| ensures LinkedAt(i) {
        if i < n - 1 {
          assert old(LinkedAt(i)) && pages[i] == was[i] && was[i] != root;
          if i < n - 2 { assert was[i] != was[n - 2]; }
        }
      }
    }
  }

  lemma {:induction false} NoneBytes(live: seq<Block>, p: Page)
    requires forall b :: b in live ==> b.page != p
    ensures Bytes(live, p) == 0
  {
    if live != [] {
      assert live[0] in live;
      NoneBytes(live[1..], p);
    }
  }

  lemma NewBlock(was: seq<Block>, b: Block)
    requires (forall i, j :: 0 <= i < j < |was| ==> Apart(was[i], was[j])) && forall c :: c in was ==> Apart(c, b)
    ensures var live := was + [b]; forall i, j :: 0 <= i < j < |live| ==> Apart(live[i], live[j])
  {
  }

  /** What is left when one block goes. */
  lemma Remaining(was: seq<Block>, k: nat)
    requires 0 < k < |was| && forall i, j :: 0 <= i < j < |was| ==> Apart(was[i], was[j])
    ensures var live := Without(was, k);
            && (forall b :: b in live ==> b in was) && live != [] && live[0] == was[0]
            && forall i, j :: 0 <= i < j < |live| ==> Apart(live[i], live[j])
  {
    var live := Without(was, k);
    forall i | 0 <= i < |live| ensures live[i] == was[if i < k then i else i + 1] {}
  }
}
