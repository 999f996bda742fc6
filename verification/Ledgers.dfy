/** Who owns which page: the allocator's bits against the slices that are alive, over whole runs. */
module Ledgers {
  import opened Wrappers
  import opened Addresses
  import opened BitRanges
  import opened Heaps

  const PAGE_ALLOC_CELLS: nat := 1024
  const PAGE_ALLOC_PAGES: nat := PAGE_ALLOC_CELLS * 64
  const EARLY_HEAP_SIZE: nat := 1024 * 1024
  const EARLY_PAGES: nat := EARLY_HEAP_SIZE / PAGE_SIZE
  const DTB_SIZE: nat := 0x10000

  /** Where the linker put the kernel image, the early heap inside it, and the device tree below it. */
  datatype Layout = Layout(dtbStart: nat, textStart: nat, heapStart: nat, end: nat) {
    predicate Valid() {
      && dtbStart % PAGE_SIZE == textStart % PAGE_SIZE == heapStart % PAGE_SIZE == 0
      && MEM_WINDOW <= dtbStart && dtbStart + DTB_SIZE <= textStart <= heapStart
      && heapStart + EARLY_HEAP_SIZE <= end
      && heapStart + PAGE_ALLOC_PAGES * PAGE_SIZE <= MEM_WINDOW + REACH
    }

    function HeapEnd(): nat {
      heapStart + EARLY_HEAP_SIZE
    }

    /** Pages reserved in front of the early heap, and behind it. The second count is taken from the
        start of the heap, not from its end. */
    function PagesBefore(): nat
      requires Valid()
    {
      (heapStart - textStart) / PAGE_SIZE
    }

    function PagesAfter(): nat
      requires Valid()
    {
      (end - heapStart) / PAGE_SIZE
    }

    predicate KernelPage(page: nat)
      requires Valid()
    {
      || textStart / PAGE_SIZE <= page < textStart / PAGE_SIZE + PagesBefore()
      || HeapEnd() / PAGE_SIZE <= page < HeapEnd() / PAGE_SIZE + PagesAfter()
      || dtbStart / PAGE_SIZE <= page < dtbStart / PAGE_SIZE + DTB_SIZE / PAGE_SIZE
    }

    /** A byte of the kernel image that is not in the early heap, or of the device tree. */
    predicate KernelByte(addr: nat) {
      || (textStart <= addr < end && !(heapStart <= addr < HeapEnd()))
      || dtbStart <= addr < dtbStart + DTB_SIZE
    }
  }

  /** Despite the floor division the reserved pages hold every kernel byte, and they reach almost a
      whole early heap past the end of the image. */
  lemma KernelBytesReserved(l: Layout, addr: nat)
    requires l.Valid()
    ensures l.KernelByte(addr) ==> l.KernelPage(addr / PAGE_SIZE)
    ensures (l.HeapEnd() / PAGE_SIZE + l.PagesAfter()) * PAGE_SIZE > l.end + EARLY_HEAP_SIZE - PAGE_SIZE
  {}

  /** The pages of the early heap that are taken. */
  predicate EarlyTaken(h: Heap, page: nat) {
    h.First() <= page < h.First() + EARLY_PAGES && h.Taken(page)
  }

  /** The heap after a memory node has been added, or None when one of the kernel's assertions fires
      on the way. */
  ghost function Added(l: Layout, h: Heap, newBase: nat, len: nat): Option<Heap>
    requires l.Valid()
  {
    if !h.CanExpand(newBase, len, EARLY_HEAP_SIZE) then None else
    var h1 := h.Expand(newBase, len, EARLY_HEAP_SIZE);
    if !h1.CanPut(l.textStart, l.PagesBefore(), true) then None else
    var h2 := h1.Put(l.textStart, l.PagesBefore(), true);
    if !h2.CanPut(l.HeapEnd(), l.PagesAfter(), true) then None else
    var h3 := h2.Put(l.HeapEnd(), l.PagesAfter(), true);
    if !h3.CanPut(l.dtbStart, DTB_SIZE / PAGE_SIZE, true) then None else
    Some(h3.Put(l.dtbStart, DTB_SIZE / PAGE_SIZE, true))
  }

  lemma PutFresh(h: Heap, addr: nat, pages: nat, page: nat)
    requires h.base % PAGE_SIZE == 0 && h.CanPut(addr, pages, true)
    ensures h.Put(addr, pages, true).Taken(page) ==
            (addr / PAGE_SIZE <= page < addr / PAGE_SIZE + pages || h.Taken(page))
    ensures addr / PAGE_SIZE <= page < addr / PAGE_SIZE + pages ==> h.Managed(page) && !h.Taken(page)
  {
    PutTaken(h, addr, pages, true, page);
  }

  lemma AddedMeaning(l: Layout, h: Heap, newBase: nat, len: nat, page: nat)
    requires l.Valid() && h.base % PAGE_SIZE == 0 && Added(l, h, newBase, len).Some?
    ensures (var g := Added(l, h, newBase, len).value;
             var e := h.Expand(newBase, len, EARLY_HEAP_SIZE);
             && g.base == newBase && |g.bits| == |h.bits|
             && g.Taken(page) == (e.Taken(page) || l.KernelPage(page))
             && (l.KernelPage(page) ==> e.Managed(page) && !e.Taken(page)))
  {
    var h1 := h.Expand(newBase, len, EARLY_HEAP_SIZE);
    var h2 := h1.Put(l.textStart, l.PagesBefore(), true);
    var h3 := h2.Put(l.HeapEnd(), l.PagesAfter(), true);
    PutFresh(h1, l.textStart, l.PagesBefore(), page);
    PutFresh(h2, l.HeapEnd(), l.PagesAfter(), page);
    PutFresh(h3, l.dtbStart, DTB_SIZE / PAGE_SIZE, page);
  }

  /** The allocator together with the slices its owners hold. `limit` pages are managed; the bits
      behind them are set and stand for no memory. `grown` once a memory node has been added. */
  datatype Ledger = Ledger(heap: Heap, live: set<PageSlice>, limit: nat, grown: bool)

  ghost predicate Reserved(l: Layout, b: Ledger, page: nat)
    requires l.Valid()
  {
    b.heap.First() + b.limit <= page || (b.grown && l.KernelPage(page))
  }

  predicate WholePages(s: PageSlice) {
    s.addr % PAGE_SIZE == 0 && s.len % PAGE_SIZE == 0 && s.len > 0
  }

  ghost predicate Owned(b: Ledger, page: nat) {
    exists s :: s in b.live && s.Covers(page)
  }

  ghost predicate Disjoint(s: PageSlice, t: PageSlice) {
    forall page: nat :: !(s.Covers(page) && t.Covers(page))
  }

  /** The set bits are exactly the reserved pages and the pages of live slices; live slices are
      disjoint, lie inside managed memory and touch no reserved page. */
  ghost predicate Consistent(l: Layout, b: Ledger) {
    && l.Valid()
    && |b.heap.bits| == PAGE_ALLOC_PAGES && b.heap.base % PAGE_SIZE == 0
    && MEM_WINDOW <= b.heap.base <= l.heapStart
    && EARLY_PAGES <= b.limit <= PAGE_ALLOC_PAGES
    && (!b.grown ==> b.limit == EARLY_PAGES && b.heap.base == l.heapStart)
    && (forall s {:trigger WholePages(s)} | s in b.live :: WholePages(s))
    && (forall s, t {:trigger Disjoint(s, t)} | s in b.live && t in b.live && s != t :: Disjoint(s, t))
    && (forall page: nat {:trigger PageOk(l, b, page)} :: PageOk(l, b, page))
  }

  ghost predicate PageOk(l: Layout, b: Ledger, page: nat)
    requires l.Valid()
  {
    && (b.heap.Managed(page) ==> (b.heap.Taken(page) <==> Reserved(l, b, page) || Owned(b, page)))
    && (Owned(b, page) ==> b.heap.Managed(page) && !Reserved(l, b, page))
  }

  /** A run of the allocator. `Allocate` that finds no room and every assertion that fires leave no
      successor or the same state; a slice is dropped only by its owner. */
  datatype Event = Allocate(pages: nat) | Drop(slice: PageSlice) | Grow(base: nat, len: nat)

  ghost function Allocated(b: Ledger, s: PageSlice): Ledger
    requires b.heap.base <= s.addr
  {
    b.(heap := b.heap.Put(s.addr, s.len / PAGE_SIZE, true), live := b.live + {s})
  }

  ghost function Dropped(b: Ledger, s: PageSlice): Ledger
    requires b.heap.base <= s.addr
  {
    b.(heap := b.heap.Put(s.addr, s.len / PAGE_SIZE, false), live := b.live - {s})
  }

  ghost function Grown(l: Layout, b: Ledger, base: nat, len: nat): Ledger
    requires l.Valid() && Added(l, b.heap, base, len).Some?
  {
    Ledger(Added(l, b.heap, base, len).value, b.live, len / PAGE_SIZE, true)
  }

  ghost predicate Step(l: Layout, b: Ledger, e: Event, b': Ledger)
    requires l.Valid()
  {
    match e
    case Allocate(n) =>
      (match b.heap.Grab(n)
       case None => b' == b
       case Some(s) => b' == Allocated(b, s))
    case Drop(s) => s in b.live && b.heap.base <= s.addr && b' == Dropped(b, s)
    case Grow(base, len) =>
      && Added(l, b.heap, base, len).Some? && MEM_WINDOW <= base && NodeKeeps(l, b, base, len)
      && b' == Grown(l, b, base, len)
  }

  /** A fresh slice: no live slice, no reserved page and no set bit overlaps it. */
  lemma GrabIsFresh(l: Layout, b: Ledger, n: nat)
    requires Consistent(l, b) && b.heap.Grab(n).Some?
    ensures (var s := b.heap.Grab(n).value;
             && WholePages(s) && s.len == n * PAGE_SIZE && b.heap.base <= s.addr && s !in b.live
             && b.heap.CanPut(s.addr, n, true)
             && forall page: nat | s.Covers(page) ::
                  b.heap.Managed(page) && !b.heap.Taken(page) && !Reserved(l, b, page) && !Owned(b, page))
  {
    var s := b.heap.Grab(n).value;
    var p := FirstFit(b.heap.bits, n).value;
    assert FreeRun(b.heap.bits, p, n);
    forall page: nat | s.Covers(page)
      ensures b.heap.Managed(page) && !b.heap.Taken(page) && !Reserved(l, b, page) && !Owned(b, page)
    {
      assert p <= page - b.heap.First() < p + n;
      assert PageOk(l, b, page);
    }
    assert s.Covers(s.addr / PAGE_SIZE);
  }

  lemma AllocateKeeps(l: Layout, b: Ledger, n: nat)
    requires Consistent(l, b) && b.heap.Grab(n).Some?
    ensures b.heap.base <= b.heap.Grab(n).value.addr
    ensures Consistent(l, Allocated(b, b.heap.Grab(n).value))
  {
    var s := b.heap.Grab(n).value;
    GrabIsFresh(l, b, n);
    var b' := Allocated(b, s);
    forall page: nat
      ensures b'.heap.Taken(page) == (b.heap.Taken(page) || s.Covers(page))
      ensures Owned(b', page) == (Owned(b, page) || s.Covers(page))
    {
      PutTaken(b.heap, s.addr, n, true, page);
      OwnedAdd(b, b', s, page);
    }
    forall page: nat ensures PageOk(l, b', page) { assert PageOk(l, b, page); }
  }

  lemma OwnedAdd(b: Ledger, b': Ledger, s: PageSlice, page: nat)
    requires b'.live == b.live + {s}
    ensures Owned(b', page) == (Owned(b, page) || s.Covers(page))
  {
    if Owned(b, page) {
      var t :| t in b.live && t.Covers(page);
      assert t in b'.live;
    }
    if s.Covers(page) { assert s in b'.live; }
  }

  /** Dropping a live slice, allocated under this base or an earlier one, trips no double free and
      clears exactly its own pages. */
  lemma DropKeeps(l: Layout, b: Ledger, s: PageSlice)
    requires Consistent(l, b) && s in b.live
    ensures b.heap.base <= s.addr && b.heap.CanPut(s.addr, s.len / PAGE_SIZE, false)
    ensures forall page: nat :: Dropped(b, s).heap.Taken(page) == (b.heap.Taken(page) && !s.Covers(page))
    ensures Consistent(l, Dropped(b, s))
  {
    LiveRange(l, b, s);
    assert WholePages(s);
    var b' := Dropped(b, s);
    forall page: nat
      ensures b'.heap.Taken(page) == (b.heap.Taken(page) && !s.Covers(page))
      ensures Owned(b', page) == (Owned(b, page) && !s.Covers(page))
    {
      PutTaken(b.heap, s.addr, s.len / PAGE_SIZE, false, page);
      OwnedRemove(b, b', s, page);
    }
    forall page: nat ensures PageOk(l, b', page) {
      assert PageOk(l, b, page);
      assert s.Covers(page) ==> Owned(b, page);
    }
  }

  lemma LiveRange(l: Layout, b: Ledger, s: PageSlice)
    requires Consistent(l, b) && s in b.live
    ensures b.heap.base <= s.addr && b.heap.CanPut(s.addr, s.len / PAGE_SIZE, false)
  {
    assert WholePages(s);
    assert s.Covers(s.addr / PAGE_SIZE) && s.Covers((s.addr + s.len) / PAGE_SIZE - 1);
    assert PageOk(l, b, s.addr / PAGE_SIZE) && PageOk(l, b, (s.addr + s.len) / PAGE_SIZE - 1);
    assert Owned(b, s.addr / PAGE_SIZE) && Owned(b, (s.addr + s.len) / PAGE_SIZE - 1);
    var first := (s.addr - b.heap.base) / PAGE_SIZE;
    forall i | first <= i < first + s.len / PAGE_SIZE ensures b.heap.bits[i] {
      assert s.Covers(b.heap.First() + i);
      assert PageOk(l, b, b.heap.First() + i);
      assert Owned(b, b.heap.First() + i);
      assert b.heap.Taken(b.heap.First() + i);
    }
  }

  lemma OwnedRemove(b: Ledger, b': Ledger, s: PageSlice, page: nat)
    requires s in b.live && b'.live == b.live - {s}
    requires forall t | t in b.live && t != s :: Disjoint(t, s)
    ensures Owned(b', page) == (Owned(b, page) && !s.Covers(page))
  {
    if Owned(b, page) && !s.Covers(page) {
      var t :| t in b.live && t.Covers(page);
      assert t in b'.live;
    }
    if Owned(b', page) {
      var t :| t in b'.live && t.Covers(page);
      assert Disjoint(t, s);
    }
  }

  /** What adding a node of `pages` pages does to each page. */
  ghost predicate GrownAt(l: Layout, h: Heap, g: Heap, pages: nat, page: nat)
    requires l.Valid() && |g.bits| == |h.bits|
  {
    if !g.Managed(page) then !l.KernelPage(page)
    else if page < g.First() + pages then
      && g.Taken(page) == (EarlyTaken(h, page) || l.KernelPage(page))
      && (l.KernelPage(page) ==> !EarlyTaken(h, page))
    else
      g.Taken(page) == (h.bits[page - g.First()] || l.KernelPage(page))
  }

  lemma GrownTaken(l: Layout, b: Ledger, base: nat, len: nat, page: nat)
    requires Consistent(l, b) && Added(l, b.heap, base, len).Some?
    ensures |Grown(l, b, base, len).heap.bits| == |b.heap.bits|
    ensures GrownAt(l, b.heap, Grown(l, b, base, len).heap, len / PAGE_SIZE, page)
  {
    AddedMeaning(l, b.heap, base, len, page);
    var e := b.heap.Expand(base, len, EARLY_HEAP_SIZE);
    BasePages(b.heap.base, base, len);
    if e.First() <= page < e.First() + len / PAGE_SIZE {
      ExpandMeaning(b.heap, base, len, EARLY_HEAP_SIZE, page);
    } else if e.Managed(page) {
      ExpandRest(b.heap, base, len, EARLY_HEAP_SIZE, page - e.First());
    }
  }

  lemma GrownBounds(l: Layout, b: Ledger, base: nat, len: nat)
    requires Consistent(l, b) && Added(l, b.heap, base, len).Some?
    ensures (var g := Grown(l, b, base, len).heap;
             && g.base == base && |g.bits| == PAGE_ALLOC_PAGES && base % PAGE_SIZE == 0
             && g.First() <= b.heap.First() && b.heap.First() + EARLY_PAGES <= g.First() + len / PAGE_SIZE
             && EARLY_PAGES <= len / PAGE_SIZE <= PAGE_ALLOC_PAGES)
  {
    AddedMeaning(l, b.heap, base, len, 0);
    BasePages(b.heap.base, base, len);
    PartsFit(b.heap.base - base, EARLY_HEAP_SIZE, len, |b.heap.bits|);
  }

  /** Nothing is lost by a node: every live page lies in the first megabyte of the old region, the length the
      kernel always claims for it; and if the node is shorter than the old region, no bit behind it is clear
      but for the kernel's, which are about to be set. */
  ghost predicate NodeKeeps(l: Layout, b: Ledger, base: nat, len: nat)
    requires l.Valid()
  {
    && (forall page: nat | Owned(b, page) :: page < b.heap.First() + EARLY_PAGES)
    && (forall i: nat | len / PAGE_SIZE <= i < b.limit && i < |b.heap.bits| ::
          b.heap.bits[i] || l.KernelPage(base / PAGE_SIZE + i))
  }

  /** Adding a node keeps the ledger consistent exactly when nothing is lost by it. */
  lemma GrowKeepsIff(l: Layout, b: Ledger, base: nat, len: nat)
    requires Consistent(l, b) && MEM_WINDOW <= base && Added(l, b.heap, base, len).Some?
    ensures Consistent(l, Grown(l, b, base, len)) <==> NodeKeeps(l, b, base, len)
  {
    var b' := Grown(l, b, base, len);
    GrownBounds(l, b, base, len);
    assert forall page: nat :: Owned(b', page) == Owned(b, page);
    if NodeKeeps(l, b, base, len) {
      forall page: nat ensures PageOk(l, b', page) { KeptPage(l, b, base, len, page); }
    }
    if Consistent(l, b') {
      forall page: nat | Owned(b, page) ensures page < b.heap.First() + EARLY_PAGES {
        assert PageOk(l, b, page) && PageOk(l, b', page);
        GrownTaken(l, b, base, len, page);
      }
      forall i: nat | len / PAGE_SIZE <= i < b.limit ensures b.heap.bits[i] || l.KernelPage(base / PAGE_SIZE + i) {
        assert PageOk(l, b', base / PAGE_SIZE + i);
        GrownTaken(l, b, base, len, base / PAGE_SIZE + i);
      }
    }
  }

  lemma KeptPage(l: Layout, b: Ledger, base: nat, len: nat, page: nat)
    requires Consistent(l, b) && MEM_WINDOW <= base && Added(l, b.heap, base, len).Some? && NodeKeeps(l, b, base, len)
    ensures PageOk(l, Grown(l, b, base, len), page)
  {
    var b' := Grown(l, b, base, len);
    GrownBounds(l, b, base, len);
    assert Owned(b', page) == Owned(b, page);
    GrownTaken(l, b, base, len, page);
    assert PageOk(l, b, page);
    if base / PAGE_SIZE + len / PAGE_SIZE <= page < base / PAGE_SIZE + PAGE_ALLOC_PAGES {
      var i := page - base / PAGE_SIZE;
      assert PageOk(l, b, b.heap.First() + i);
    }
  }

  /** The first node is always added safely: before it, only the early heap has been handed out. */
  lemma FirstGrowKeeps(l: Layout, b: Ledger, base: nat, len: nat)
    requires Consistent(l, b) && !b.grown && b.heap.CanExpand(base, len, EARLY_HEAP_SIZE)
    ensures NodeKeeps(l, b, base, len)
  {
    forall page: nat | Owned(b, page) ensures page < b.heap.First() + EARLY_PAGES { assert PageOk(l, b, page); }
    PartsFit(b.heap.base - base, EARLY_HEAP_SIZE, len, |b.heap.bits|);
  }

  /** Before and after the node is there, no allocation ever hands out a byte of the kernel or the device tree. */
  lemma KernelNeverHandedOut(l: Layout, b: Ledger, n: nat, addr: nat)
    requires Consistent(l, b) && b.heap.Grab(n).Some? && l.KernelByte(addr)
    ensures !b.heap.Grab(n).value.Covers(addr / PAGE_SIZE)
  {
    GrabIsFresh(l, b, n);
    KernelBytesReserved(l, addr);
    if !b.grown { OffEarlyHeap(l, addr); }
  }

  lemma OffEarlyHeap(l: Layout, addr: nat)
    requires l.Valid() && l.KernelByte(addr)
    ensures !(l.heapStart / PAGE_SIZE <= addr / PAGE_SIZE < l.heapStart / PAGE_SIZE + EARLY_PAGES)
  {}

  ghost predicate IsRun(l: Layout, bs: seq<Ledger>, es: seq<Event>) {
    l.Valid() && |bs| == |es| + 1 && forall i | 0 <= i < |es| :: Step(l, bs[i], es[i], bs[i + 1])
  }

  lemma StepKeeps(l: Layout, b: Ledger, e: Event, b': Ledger)
    requires Consistent(l, b) && Step(l, b, e, b')
    ensures Consistent(l, b')
  {
    match e
    case Allocate(n) => if b.heap.Grab(n).Some? { AllocateKeeps(l, b, n); }
    case Drop(s) => DropKeeps(l, b, s);
    case Grow(base, len) => GrowKeepsIff(l, b, base, len);
  }

  /** Over every run of allocations, drops and nodes by which nothing is lost, the first of which is always
      one, the ledger stays consistent. */
  lemma {:induction false} RunKeeps(l: Layout, bs: seq<Ledger>, es: seq<Event>, k: nat)
    requires IsRun(l, bs, es) && Consistent(l, bs[0]) && k < |bs|
    ensures Consistent(l, bs[k])
  {
    if k > 0 {
      RunKeeps(l, bs, es, k - 1);
      StepKeeps(l, bs[k - 1], es[k - 1], bs[k]);
    }
  }

  ghost predicate OneAlloc(b: Ledger, b': Ledger) {
    match b.heap.Grab(1)
    case None => false
    case Some(s) => b.heap.base <= s.addr && b' == Allocated(b, s)
  }

  ghost predicate ChainStep(bs: seq<Ledger>, i: nat) {
    i + 1 < |bs| && OneAlloc(bs[i], bs[i + 1])
  }

  ghost predicate Chain(bs: seq<Ledger>, b: Ledger, b': Ledger, k: nat) {
    && |bs| == k + 1 && bs[0] == b && bs[k] == b'
    && forall i: nat {:trigger ChainStep(bs, i)} | i < k :: ChainStep(bs, i)
  }

  /** `k` one-page allocations lead from `b` to `b'`. */
  ghost predicate Allocs(b: Ledger, b': Ledger, k: nat) {
    exists bs :: Chain(bs, b, b', k)
  }

  lemma AllocsFew(b: Ledger, b': Ledger)
    ensures Allocs(b, b, 0)
    ensures OneAlloc(b, b') ==> Allocs(b, b', 1)
  {
    assert Chain([b], b, b, 0);
    if OneAlloc(b, b') { assert Chain([b, b'], b, b', 1); }
  }

  lemma AllocsMore(b: Ledger, b1: Ledger, b2: Ledger, i: nat, j: nat)
    requires Allocs(b, b1, i) && Allocs(b1, b2, j)
    ensures Allocs(b, b2, i + j)
  {
    var p, r :| Chain(p, b, b1, i) && Chain(r, b1, b2, j);
    var bs := p + r[1..];
    forall k: nat | k < i + j ensures ChainStep(bs, k) {
      assert if k < i then ChainStep(p, k) else ChainStep(r, k - i);
    }
    assert Chain(bs, b, b2, i + j);
  }

  /** Allocations keep the ledger consistent and every slice alive. */
  lemma AllocsKeep(l: Layout, b: Ledger, b': Ledger, k: nat)
    requires Consistent(l, b) && Allocs(b, b', k)
    ensures Consistent(l, b') && b.live <= b'.live && b'.grown == b.grown
  {
    var bs :| Chain(bs, b, b', k);
    ChainKeeps(l, bs, b, b', k, k);
  }

  lemma {:induction false} ChainKeeps(l: Layout, bs: seq<Ledger>, b: Ledger, b': Ledger, k: nat, i: nat)
    requires Consistent(l, b) && Chain(bs, b, b', k) && i <= k
    ensures Consistent(l, bs[i]) && b.live <= bs[i].live && bs[i].grown == b.grown
  {
    if i > 0 {
      ChainKeeps(l, bs, b, b', k, i - 1);
      assert ChainStep(bs, i - 1);
      AllocateKeeps(l, bs[i - 1], 1);
    }
  }

  ghost function FreePages(b: Ledger): nat {
    Clear(b.heap.bits, 0, |b.heap.bits|)
  }

  /** Every one-page allocation takes one free page, and fails only when there is none. */
  lemma OneAllocFree(b: Ledger, b': Ledger)
    requires OneAlloc(b, b')
    ensures FreePages(b') + 1 == FreePages(b)
  {
    var bits, bits' := b.heap.bits, b'.heap.bits;
    var p := FirstFit(bits, 1).value;
    assert FreeRun(bits, p, 1) && (b.heap.Grab(1).value.addr - b.heap.base) / PAGE_SIZE == p;
    ClearSplit(bits, 0, p, |bits|);
    ClearSplit(bits, p, p + 1, |bits|);
    ClearSplit(bits', 0, p, |bits|);
    ClearSplit(bits', p, p + 1, |bits|);
    ClearSame(bits, bits', 0, p);
    ClearSame(bits, bits', p + 1, |bits|);
  }

  lemma {:induction false} ClearSame(bits: seq<bool>, bits': seq<bool>, lo: nat, hi: nat)
    requires lo <= hi <= |bits| == |bits'| && forall i | lo <= i < hi :: bits[i] == bits'[i]
    ensures Clear(bits, lo, hi) == Clear(bits', lo, hi)
  {
    if lo < hi { ClearSame(bits, bits', lo, hi - 1); }
  }

  lemma AllocsFree(b: Ledger, b': Ledger, k: nat)
    requires Allocs(b, b', k)
    ensures FreePages(b') + k == FreePages(b)
  {
    var bs :| Chain(bs, b, b', k);
    ChainFree(bs, b, b', k, k);
  }

  lemma {:induction false} ChainFree(bs: seq<Ledger>, b: Ledger, b': Ledger, k: nat, i: nat)
    requires Chain(bs, b, b', k) && i <= k
    ensures FreePages(bs[i]) + i == FreePages(b)
  {
    if i > 0 {
      ChainFree(bs, b, b', k, i - 1);
      assert ChainStep(bs, i - 1);
      OneAllocFree(bs[i - 1], bs[i]);
    }
  }

  lemma NoneFree(b: Ledger)
    ensures b.heap.Grab(1) == None <==> FreePages(b) == 0
  {
    var bits := b.heap.bits;
    if b.heap.Grab(1) == None {
      forall i | 0 <= i < |bits| ensures bits[i] { assert !FreeRun(bits, i, 1); }
      ClearUniform(bits, 0, |bits|, true);
    } else {
      var p := FirstFit(bits, 1).value;
      assert FreeRun(bits, p, 1);
      ClearSplit(bits, 0, p, |bits|);
      ClearSplit(bits, p, p + 1, |bits|);
    }
  }

  /** The ledger `init_early_heap` leaves behind: the early heap free, everything behind it set. */
  ghost function EarlyLedger(l: Layout): Ledger {
    Ledger(Heap(seq(PAGE_ALLOC_PAGES, i => i >= EARLY_PAGES), l.heapStart), {}, EARLY_PAGES, false)
  }

  lemma EarlyLedgerConsistent(l: Layout)
    requires l.Valid()
    ensures Consistent(l, EarlyLedger(l))
  {
    var b := EarlyLedger(l);
    assert forall page: nat :: !Owned(b, page);
  }
}
