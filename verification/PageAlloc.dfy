/** The page allocator: a bitmap and the address of its first page. Where the kernel would panic, a
    method answers false and promises nothing about the bits. */
module PageAllocs {
  import opened Wrappers
  import opened Addresses
  import opened Bitmaps
  import opened Heaps
  import opened Ledgers
  import opened Nodes

  class BitmapPageAlloc {
    const bitmap: Bitmap
    var ramBase: nat

    ghost predicate Valid()
      reads this, bitmap, bitmap.cells
    {
      bitmap.Valid() && bitmap.cells.Length == PAGE_ALLOC_CELLS
    }

    ghost function View(): Heap
      reads this, bitmap
    {
      Heap(bitmap.bits, ramBase)
    }

    constructor (base: nat)
      ensures Valid() && fresh(bitmap) && fresh(bitmap.cells)
      ensures View() == Heap(seq(PAGE_ALLOC_PAGES, _ => false), base)
    {
      bitmap := new Bitmap(PAGE_ALLOC_CELLS);
      ramBase := base;
    }

    method Alloc(pageCount: nat) returns (r: Option<PageSlice>)
      requires Valid()
      modifies this, bitmap, bitmap.cells
      ensures Valid()
      ensures r == old(View()).Grab(pageCount)
      ensures View() == if r.Some? then old(View()).Put(r.value.addr, pageCount, true) else old(View())
    {
      var pageNum := bitmap.Alloc(pageCount);
      if pageNum.Some? {
        r := Some(PageSlice(ramBase + pageNum.value * PAGE_SIZE, pageCount * PAGE_SIZE));
      } else {
        r := None;
      }
    }

    /** The three assertions in front of `mark_allocated` and `free`. */
    method InRange(addr: nat, pageCount: nat) returns (ok: bool)
      requires Valid()
      ensures ok <==> addr % PAGE_SIZE == 0 && ramBase <= addr
                      && addr + pageCount * PAGE_SIZE <= ramBase + |bitmap.bits| * PAGE_SIZE
      ensures ok ==> (addr - ramBase) / PAGE_SIZE + pageCount <= |bitmap.bits|
    {
      ok := addr % PAGE_SIZE == 0 && addr >= ramBase
            && addr + pageCount * PAGE_SIZE <= ramBase + bitmap.cells.Length * 64 * PAGE_SIZE;
    }

    method MarkAllocated(addr: nat, pageCount: nat) returns (ok: bool)
      requires Valid()
      modifies this, bitmap, bitmap.cells
      ensures Valid()
      ensures ok <==> old(View()).CanPut(addr, pageCount, true)
      ensures ok ==> View() == old(View()).Put(addr, pageCount, true)
    {
      ok := InRange(addr, pageCount);
      if ok {
        var tripped := bitmap.MarkAllocated((addr - ramBase) / PAGE_SIZE, pageCount);
        ok := !tripped;
      }
    }

    method Free(addr: nat, pageCount: nat) returns (ok: bool)
      requires Valid()
      modifies this, bitmap, bitmap.cells
      ensures Valid()
      ensures ok <==> old(View()).CanPut(addr, pageCount, false)
      ensures ok ==> View() == old(View()).Put(addr, pageCount, false)
    {
      ok := InRange(addr, pageCount);
      if ok {
        var tripped := bitmap.Free((addr - ramBase) / PAGE_SIZE, pageCount);
        ok := !tripped;
      }
    }

    /** Dropping a slice frees its pages. A live slice never trips an assertion. */
    method DropSlice(s: PageSlice, ghost l: Layout, ghost b: Ledger) returns (ok: bool)
      requires Valid() && Consistent(l, b) && b.heap == View() && s in b.live
      modifies this, bitmap, bitmap.cells
      ensures Valid() && ok
      ensures ramBase == old(ramBase) <= s.addr && View() == Dropped(b, s).heap && Consistent(l, Dropped(b, s))
    {
      DropKeeps(l, b, s);
      ok := Free(s.addr, s.len / PAGE_SIZE);
    }

    method Rebase(newBase: nat)
      modifies this
      ensures ramBase == newBase
    {
      ramBase := newBase;
    }

    method CheckRegions(newBase: nat, newLen: nat, prevLen: nat) returns (ok: bool)
      requires Valid()
      ensures ok <==> View().CanExpand(newBase, newLen, prevLen) || View().Stays(newBase, newLen, prevLen)
    {
      if ramBase % PAGE_SIZE != 0 || newBase % PAGE_SIZE != 0 || newLen % PAGE_SIZE != 0 || prevLen % PAGE_SIZE != 0
         || newBase > ramBase || newBase + newLen < ramBase + prevLen {
        return false;
      }
      ok := newLen <= bitmap.cells.Length * 64 * PAGE_SIZE || (newBase == ramBase && newLen == prevLen);
    }

    /** Re-bases the bitmap to a region that contains the old one. A region longer than the bitmap
        makes an index run off its end, which is a panic too, unless there is nothing to do. */
    method ExpandTo(newBase: nat, newLen: nat, prevLen: nat) returns (ok: bool)
      requires Valid()
      modifies this, bitmap, bitmap.cells
      ensures Valid()
      ensures ok <==> old(View()).CanExpand(newBase, newLen, prevLen) || old(View()).Stays(newBase, newLen, prevLen)
      ensures old(View()).CanExpand(newBase, newLen, prevLen) ==> View() == old(View()).Expand(newBase, newLen, prevLen)
      ensures old(View()).Stays(newBase, newLen, prevLen) ==> View() == old(View())
    {
      ok := CheckRegions(newBase, newLen, prevLen);
      if ok && newLen <= bitmap.cells.Length * 64 * PAGE_SIZE {
        MoveTo(newBase, newLen, prevLen);
      }
    }

    method MoveTo(newBase: nat, newLen: nat, prevLen: nat)
      requires Valid() && View().CanExpand(newBase, newLen, prevLen)
      modifies this, bitmap, bitmap.cells
      ensures Valid()
      ensures View() == old(View()).Expand(newBase, newLen, prevLen)
    {
      var addrDelta := ramBase - newBase;
      PartsFit(addrDelta, prevLen, newLen, |bitmap.bits|);
      SpreadBits(addrDelta / PAGE_SIZE, prevLen / PAGE_SIZE, newLen / PAGE_SIZE);
      Rebase(newBase);
    }

    /** Moves the existing bits to their new places and frees the rest of the pages. */
    method SpreadBits(delta: nat, prev: nat, pages: nat)
      requires Valid()
      requires delta + prev <= pages <= |bitmap.bits|
      modifies bitmap, bitmap.cells
      ensures Valid()
      ensures bitmap.bits == Spread(old(bitmap.bits), delta, prev, pages)
    {
      bitmap.MoveBitRangeForward(0, delta, prev);
      bitmap.ZeroBitRange(0, delta);
      bitmap.ZeroBitRange(delta + prev, pages - prev - delta);
    }

    /** From the all-zero static, leaves the early heap free and everything behind it marked. */
    method InitEarlyHeap(l: Layout)
      requires Valid() && l.Valid()
      requires View().bits == seq(PAGE_ALLOC_PAGES, _ => false)
      modifies this, bitmap, bitmap.cells
      ensures Valid()
      ensures View() == EarlyLedger(l).heap
    {
      Rebase(l.heapStart);
      var marked := MarkAllocated(l.heapStart, PAGE_ALLOC_PAGES);
      var freed := Free(l.heapStart, EARLY_HEAP_SIZE / PAGE_SIZE);
      assert View().bits == EarlyLedger(l).heap.bits;
    }

    /** Expands to the node, then marks the kernel image around the early heap, and the device tree. */
    method AddMemoryNode(l: Layout, physAddr: nat, len: nat) returns (ok: bool)
      requires Valid() && l.Valid()
      modifies this, bitmap, bitmap.cells
      ensures Valid()
      ensures ok <==> NodeFits(l, old(View()), Virt(physAddr), len)
      ensures ok ==> Added(l, old(View()), Virt(physAddr), len).Some?
      ensures ok ==> View() == Added(l, old(View()), Virt(physAddr), len).value
    {
      AddedIff(l, View(), Virt(physAddr), len);
      ok := ExpandTo(Virt(physAddr), len, EARLY_HEAP_SIZE);
      if !ok { return; }
      assert l.heapStart >= l.textStart && l.HeapEnd() <= l.end;
      ok := MarkAllocated(l.textStart, l.PagesBefore());
      if !ok { return; }
      ok := MarkAllocated(l.HeapEnd(), l.PagesAfter());
      if !ok { return; }
      ok := MarkAllocated(l.dtbStart, DTB_SIZE / PAGE_SIZE);
    }
  }
}
