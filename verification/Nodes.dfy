/** When a memory node is accepted, and what a second one does. */
module Nodes {
  import opened Wrappers
  import opened Addresses
  import opened BitRanges
  import opened Heaps
  import opened Ledgers

  /** A page that is free once the bits have been moved: of the node, and not taken in the early heap; or
      behind it, and free all along. */
  predicate FreeAfter(h: Heap, base: nat, len: nat, page: nat) {
    && base / PAGE_SIZE <= page < base / PAGE_SIZE + |h.bits|
    && if page < base / PAGE_SIZE + len / PAGE_SIZE then !EarlyTaken(h, page) else !h.bits[page - base / PAGE_SIZE]
  }

  /** No assertion refuses the node: the regions nest, and every page to be marked for the kernel is free. */
  ghost predicate NodeFits(l: Layout, h: Heap, base: nat, len: nat)
    requires l.Valid()
  {
    && h.CanExpand(base, len, EARLY_HEAP_SIZE)
    && forall page: nat {:trigger FreeAfter(h, base, len, page)} | l.KernelPage(page) :: FreeAfter(h, base, len, page)
  }

  lemma ExpandedFree(h: Heap, base: nat, len: nat, page: nat)
    requires h.CanExpand(base, len, EARLY_HEAP_SIZE)
    ensures (var e := h.Expand(base, len, EARLY_HEAP_SIZE);
             FreeAfter(h, base, len, page) <==> e.Managed(page) && !e.Taken(page))
  {
    var e := h.Expand(base, len, EARLY_HEAP_SIZE);
    BasePages(h.base, base, len);
    PartsFit(h.base - base, EARLY_HEAP_SIZE, len, |h.bits|);
    ExpandIsSpread(h, base, len, EARLY_HEAP_SIZE);
    SpreadAt(h.bits, (h.base - base) / PAGE_SIZE, EARLY_PAGES, len / PAGE_SIZE, 0);
    if base / PAGE_SIZE <= page < base / PAGE_SIZE + len / PAGE_SIZE {
      ExpandMeaning(h, base, len, EARLY_HEAP_SIZE, page);
    } else if base / PAGE_SIZE <= page < base / PAGE_SIZE + |h.bits| {
      ExpandRest(h, base, len, EARLY_HEAP_SIZE, page - base / PAGE_SIZE);
    }
  }

  /** Marking is refused exactly when a page of the range is not there or not free. */
  lemma CanMark(h: Heap, addr: nat, pages: nat)
    requires h.base % PAGE_SIZE == addr % PAGE_SIZE == 0 && h.base <= addr
    requires addr + pages * PAGE_SIZE <= h.base + |h.bits| * PAGE_SIZE
    requires forall page: nat | addr / PAGE_SIZE <= page < addr / PAGE_SIZE + pages :: !h.Taken(page)
    ensures h.CanPut(addr, pages, true)
  {
    var first := (addr - h.base) / PAGE_SIZE;
    forall i | first <= i < first + pages ensures !h.bits[i] {
      assert !h.Taken(h.First() + i);
    }
  }

  /** The three ranges of kernel pages, as they lie: device tree, image before the heap, image behind it. */
  lemma KernelRanges(l: Layout, base: nat, n: nat)
    requires l.Valid() && base % PAGE_SIZE == 0
    requires forall page: nat | l.KernelPage(page) :: base / PAGE_SIZE <= page < base / PAGE_SIZE + n
    ensures base <= l.dtbStart && l.dtbStart + DTB_SIZE / PAGE_SIZE * PAGE_SIZE <= base + n * PAGE_SIZE
    ensures l.textStart + l.PagesBefore() * PAGE_SIZE == l.heapStart
    ensures l.HeapEnd() + l.PagesAfter() * PAGE_SIZE <= base + n * PAGE_SIZE
  {
    assert l.KernelPage(l.dtbStart / PAGE_SIZE);
    assert l.KernelPage(l.HeapEnd() / PAGE_SIZE + l.PagesAfter() - 1);
  }

  lemma MarksFit(l: Layout, h: Heap)
    requires l.Valid() && h.base % PAGE_SIZE == 0
    requires forall page: nat | l.KernelPage(page) :: h.Managed(page) && !h.Taken(page)
    ensures h.CanPut(l.textStart, l.PagesBefore(), true)
    ensures (var h2 := h.Put(l.textStart, l.PagesBefore(), true);
             && h2.CanPut(l.HeapEnd(), l.PagesAfter(), true)
             && h2.Put(l.HeapEnd(), l.PagesAfter(), true).CanPut(l.dtbStart, DTB_SIZE / PAGE_SIZE, true))
  {
    KernelRanges(l, h.base, |h.bits|);
    CanMark(h, l.textStart, l.PagesBefore());
    var h2 := h.Put(l.textStart, l.PagesBefore(), true);
    forall page: nat | l.HeapEnd() / PAGE_SIZE <= page < l.HeapEnd() / PAGE_SIZE + l.PagesAfter()
      ensures !h2.Taken(page)
    {
      assert l.KernelPage(page);
      PutFresh(h, l.textStart, l.PagesBefore(), page);
    }
    CanMark(h2, l.HeapEnd(), l.PagesAfter());
    var h3 := h2.Put(l.HeapEnd(), l.PagesAfter(), true);
    forall page: nat | l.dtbStart / PAGE_SIZE <= page < l.dtbStart / PAGE_SIZE + DTB_SIZE / PAGE_SIZE
      ensures !h3.Taken(page)
    {
      assert l.KernelPage(page);
      PutFresh(h, l.textStart, l.PagesBefore(), page);
      PutFresh(h2, l.HeapEnd(), l.PagesAfter(), page);
    }
    CanMark(h3, l.dtbStart, DTB_SIZE / PAGE_SIZE);
  }

  /** A node is accepted exactly when it fits. */
  lemma AddedIff(l: Layout, h: Heap, base: nat, len: nat)
    requires l.Valid()
    ensures Added(l, h, base, len).Some? <==> NodeFits(l, h, base, len)
  {
    if Added(l, h, base, len).Some? {
      forall page: nat | l.KernelPage(page) ensures FreeAfter(h, base, len, page) {
        AddedMeaning(l, h, base, len, page);
        ExpandedFree(h, base, len, page);
      }
    }
    if NodeFits(l, h, base, len) {
      var e := h.Expand(base, len, EARLY_HEAP_SIZE);
      forall page: nat | l.KernelPage(page) ensures e.Managed(page) && !e.Taken(page) {
        assert FreeAfter(h, base, len, page);
        ExpandedFree(h, base, len, page);
      }
      MarksFit(l, e);
    }
  }

  /** For the first node that depends on the arguments alone: the node must nest around the early heap, reach
      down to the device tree, and reach up past the second range of kernel pages. */
  lemma FirstNodeIff(l: Layout, b: Ledger, base: nat, len: nat)
    requires Consistent(l, b) && !b.grown
    ensures NodeFits(l, b.heap, base, len) <==>
            && b.heap.CanExpand(base, len, EARLY_HEAP_SIZE) && base <= l.dtbStart
            && l.HeapEnd() + l.PagesAfter() * PAGE_SIZE <= base + len
  {
    if NodeFits(l, b.heap, base, len) { FirstNodeReaches(l, b, base, len); }
    if b.heap.CanExpand(base, len, EARLY_HEAP_SIZE) && base <= l.dtbStart
       && l.HeapEnd() + l.PagesAfter() * PAGE_SIZE <= base + len {
      forall page: nat | l.KernelPage(page) ensures FreeAfter(b.heap, base, len, page) {
        PartsFit(b.heap.base - base, EARLY_HEAP_SIZE, len, |b.heap.bits|);
        KernelPageInside(l, base, len, page);
      }
    }
  }

  lemma FirstNodeReaches(l: Layout, b: Ledger, base: nat, len: nat)
    requires Consistent(l, b) && !b.grown && NodeFits(l, b.heap, base, len)
    ensures base <= l.dtbStart && l.HeapEnd() + l.PagesAfter() * PAGE_SIZE <= base + len
  {
    assert forall page: nat | l.KernelPage(page) :: FreeAfter(b.heap, base, len, page);
    KernelRanges(l, base, |b.heap.bits|);
    var last := l.HeapEnd() / PAGE_SIZE + l.PagesAfter() - 1;
    assert l.KernelPage(last) && FreeAfter(b.heap, base, len, last);
    PartsFit(b.heap.base - base, EARLY_HEAP_SIZE, len, |b.heap.bits|);
    assert PageOk(l, b, b.heap.First() + (last - base / PAGE_SIZE));
  }

  lemma KernelPageInside(l: Layout, base: nat, len: nat, page: nat)
    requires l.Valid() && base % PAGE_SIZE == len % PAGE_SIZE == 0 && l.KernelPage(page)
    requires base <= l.dtbStart && l.HeapEnd() + l.PagesAfter() * PAGE_SIZE <= base + len
    ensures base / PAGE_SIZE <= page < base / PAGE_SIZE + len / PAGE_SIZE
    ensures !(l.heapStart / PAGE_SIZE <= page < l.heapStart / PAGE_SIZE + EARLY_PAGES)
  {}

  /** The surplus counts: a node that holds the whole image and the device tree, but ends less than a megabyte
      behind the image, is refused as a double allocation. */
  lemma SurplusRefused(l: Layout, b: Ledger, base: nat, len: nat)
    requires Consistent(l, b) && !b.grown && b.heap.CanExpand(base, len, EARLY_HEAP_SIZE)
    requires base <= l.dtbStart && l.end <= base + len <= l.end + EARLY_HEAP_SIZE - PAGE_SIZE
    ensures Added(l, b.heap, base, len) == None
  {
    KernelBytesReserved(l, 0);
    FirstNodeIff(l, b, base, len);
    AddedIff(l, b.heap, base, len);
  }

  // Inputs for which things go wrong.

  const MEGABYTE: nat := 0x10_0000

  /** Two megabytes free, the device tree, the kernel, its early heap at the end. */
  function SmallLayout(): Layout {
    Layout(MEM_WINDOW + 2 * MEGABYTE, MEM_WINDOW + 3 * MEGABYTE, MEM_WINDOW + 4 * MEGABYTE, MEM_WINDOW + 5 * MEGABYTE)
  }

  lemma SmallKernel(page: nat)
    ensures SmallLayout().KernelPage(page) ==> MEM_WINDOW / PAGE_SIZE + 512 <= page < MEM_WINDOW / PAGE_SIZE + 1536
  {}

  /** A node of five megabytes that ends where the image ends. */
  lemma TightNodeRefused()
    ensures (var l, b := SmallLayout(), EarlyLedger(SmallLayout());
             && Consistent(l, b) && l.end == MEM_WINDOW + 5 * MEGABYTE
             && Added(l, b.heap, MEM_WINDOW, 5 * MEGABYTE) == None)
  {
    EarlyLedgerConsistent(SmallLayout());
    SurplusRefused(SmallLayout(), EarlyLedger(SmallLayout()), MEM_WINDOW, 5 * MEGABYTE);
  }

  const NODE: nat := 256 * MEGABYTE

  /** The state after a first node of 256 megabytes. */
  ghost function OneNode(): Ledger
    requires Added(SmallLayout(), EarlyLedger(SmallLayout()).heap, MEM_WINDOW, NODE).Some?
  {
    Grown(SmallLayout(), EarlyLedger(SmallLayout()), MEM_WINDOW, NODE)
  }

  lemma OneNodeIs(page: nat)
    ensures Added(SmallLayout(), EarlyLedger(SmallLayout()).heap, MEM_WINDOW, NODE).Some?
    ensures Consistent(SmallLayout(), OneNode()) && OneNode().heap.base == MEM_WINDOW
    ensures OneNode().heap.Managed(page) ==> OneNode().heap.Taken(page) == SmallLayout().KernelPage(page)
  {
    var l, b := SmallLayout(), EarlyLedger(SmallLayout());
    EarlyLedgerConsistent(l);
    FirstNodeIff(l, b, MEM_WINDOW, NODE);
    AddedIff(l, b.heap, MEM_WINDOW, NODE);
    FirstGrowKeeps(l, b, MEM_WINDOW, NODE);
    GrowKeepsIff(l, b, MEM_WINDOW, NODE);
    GrownBounds(l, b, MEM_WINDOW, NODE);
    GrownTaken(l, b, MEM_WINDOW, NODE, page);
  }

  /** A second node, of any length from six megabytes on, is accepted. */
  lemma SecondFits(b: Ledger, len: nat)
    requires Consistent(SmallLayout(), b) && b.heap.base == MEM_WINDOW
    requires len % PAGE_SIZE == 0 && 6 * MEGABYTE <= len <= NODE
    ensures Added(SmallLayout(), b.heap, MEM_WINDOW, len).Some?
  {
    var l := SmallLayout();
    forall page: nat | l.KernelPage(page) ensures FreeAfter(b.heap, MEM_WINDOW, len, page) { SmallKernel(page); }
    AddedIff(l, b.heap, MEM_WINDOW, len);
  }

  /** A shorter second node: nothing is owned, and yet free bits are left behind the managed memory. */
  lemma ShortNodeLoses()
    ensures Added(SmallLayout(), EarlyLedger(SmallLayout()).heap, MEM_WINDOW, NODE).Some?
    ensures Added(SmallLayout(), OneNode().heap, MEM_WINDOW, 8 * MEGABYTE).Some?
    ensures OneNode().live == {}
            && !Consistent(SmallLayout(), Grown(SmallLayout(), OneNode(), MEM_WINDOW, 8 * MEGABYTE))
  {
    var i := 8 * MEGABYTE / PAGE_SIZE;
    var page := MEM_WINDOW / PAGE_SIZE + i;
    OneNodeIs(page);
    SecondFits(OneNode(), 8 * MEGABYTE);
    SmallKernel(page);
    assert !OneNode().heap.Taken(page);
    GrowKeepsIff(SmallLayout(), OneNode(), MEM_WINDOW, 8 * MEGABYTE);
  }

  /** The same node twice, with a slice of 257 pages handed out in between: its last page is free again and
      still owned. */
  lemma SecondNodeLoses() returns (bs: seq<Ledger>)
    ensures IsRun(SmallLayout(), bs, [Grow(MEM_WINDOW, NODE), Allocate(257)]) && bs[0] == EarlyLedger(SmallLayout())
    ensures Consistent(SmallLayout(), bs[2]) && Added(SmallLayout(), bs[2].heap, MEM_WINDOW, NODE).Some?
    ensures !Consistent(SmallLayout(), Grown(SmallLayout(), bs[2], MEM_WINDOW, NODE))
  {
    var l := SmallLayout();
    OneNodeIs(0);
    FirstSlice();
    EarlyLedgerConsistent(l);
    FirstGrowKeeps(l, EarlyLedger(l), MEM_WINDOW, NODE);
    AllocateKeeps(l, OneNode(), 257);
    var s := OneNode().heap.Grab(257).value;
    bs := [EarlyLedger(l), OneNode(), Allocated(OneNode(), s)];
    SecondFits(bs[2], NODE);
    assert s in bs[2].live && s.Covers(MEM_WINDOW / PAGE_SIZE + EARLY_PAGES);
    assert Owned(bs[2], MEM_WINDOW / PAGE_SIZE + EARLY_PAGES);
    GrowKeepsIff(l, bs[2], MEM_WINDOW, NODE);
  }

  lemma FirstSlice()
    ensures Added(SmallLayout(), EarlyLedger(SmallLayout()).heap, MEM_WINDOW, NODE).Some?
    ensures OneNode().heap.Grab(257) == Some(PageSlice(MEM_WINDOW, 257 * PAGE_SIZE))
  {
    OneNodeIs(0);
    var bits := OneNode().heap.bits;
    forall i: nat | i < 257 ensures !bits[i] {
      OneNodeIs(MEM_WINDOW / PAGE_SIZE + i);
      SmallKernel(MEM_WINDOW / PAGE_SIZE + i);
      assert !OneNode().heap.Taken(MEM_WINDOW / PAGE_SIZE + i);
    }
    assert FreeRun(bits, 0, 257);
    FirstFitUnique(bits, 257, Some(0));
  }
}
