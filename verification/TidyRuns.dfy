/** The address space of a thread that started as `usermode::start` leaves it: the search hands out
    ever higher slots, and a mapping never collides. */
module TidyRuns {
  import opened Wrappers
  import opened Words
  import opened Addresses
  import opened Ledgers
  import opened Descriptors
  import opened PageTables
  import opened Holes
  import opened HoleSafety
  import opened HoleLimits
  import opened HoleRuns
  import opened Mappings
  import opened AddressSpaces
  import opened Syscalls
  import opened KernelRuns
  import opened VirtualRuns

  /** The first unused slot after `n` pages from page `v` on have been mapped. */
  function EndOf(v: nat, n: nat, e: nat): nat {
    if n == 0 then e else (v + n - 1) / 512 + 1
  }

  lemma RegionLow(v: nat, n: nat, i: nat)
    requires v + n <= ALL_PAGES && i > 0
    ensures !OnWay(v, n, 0, i)
  {
    if n > 0 { SlotWay(v + n - 1); }
  }

  lemma RegionSlots(v: nat, n: nat, e: nat, s: nat)
    requires v / 512 == e
    ensures s < e || OnWay(v, n, 2, s) <==> s < EndOf(v, n, e)
    ensures e <= EndOf(v, n, e)
    ensures n > 0 && v + n <= ALL_PAGES ==> EndOf(v, n, e) <= ALL_SLOTS
  {
    SlotWay(v);
    if n > 0 { SlotWay(v + n - 1); }
  }

  /** Blocks and upper entries of the top table do not come from mapping. */
  lemma MappedFrame(t: Tables, t': Tables, v: nat, n: nat, leaf: nat -> Word)
    requires Mapped(t, t', v, n, leaf) && OnlyLow(ShapeOf(t)) && NoBlocks(ShapeOf(t)) && v + n <= ALL_PAGES
    ensures ShapeOk(ShapeOf(t')) && OnlyLow(ShapeOf(t')) && NoBlocks(ShapeOf(t'))
  {
    var f, f' := ShapeOf(t), ShapeOf(t');
    ShapeOfOk(t');
    forall i: nat | 0 < i < 512 ensures f'(0, i) == Free {
      RegionLow(v, n, i);
      UpperKinds(t, t', v, n, 0, i);
      assert f(0, i) == Free;
    }
    forall q: nat ensures f'(0, q) != Block && f'(1, q) != Block {
      UpperKinds(t, t', v, n, 0, q);
      UpperKinds(t, t', v, n, 1, q);
      assert f(0, q) != Block && f(1, q) != Block;
    }
  }

  /** A mapping that starts in the first unused slot keeps the tables tidy. */
  lemma MappedTidy(t: Tables, t': Tables, v: nat, n: nat, leaf: nat -> Word, e: nat)
    requires WellFormed(t) && Tidy(ShapeOf(t), e) && Mapped(t, t', v, n, leaf) && v / 512 == e && v + n <= ALL_PAGES
    ensures Tidy(ShapeOf(t'), EndOf(v, n, e)) && e <= EndOf(v, n, e)
  {
    MappedFrame(t, t', v, n, leaf);
    RegionSlots(v, n, e, 0);
    var f', e' := ShapeOf(t'), EndOf(v, n, e);
    forall s: nat | FIRST_SLOT <= s < ALL_SLOTS ensures SlotUsed(f', s) <==> s < e' {
      MappedSlots(t, t', v, n, leaf, s);
      RegionSlots(v, n, e, s);
    }
  }

  /** So does one below the addresses the search looks at. */
  lemma MappedBelow(t: Tables, t': Tables, v: nat, n: nat, leaf: nat -> Word, e: nat)
    requires WellFormed(t) && Tidy(ShapeOf(t), e) && Mapped(t, t', v, n, leaf) && v + n <= VMAP_START / PAGE_SIZE
    ensures Tidy(ShapeOf(t'), e)
  {
    MappedFrame(t, t', v, n, leaf);
    if n > 0 { SlotWay(v + n - 1); }
    var f' := ShapeOf(t');
    forall s: nat | FIRST_SLOT <= s < ALL_SLOTS ensures SlotUsed(f', s) <==> s < e {
      MappedSlots(t, t', v, n, leaf, s);
    }
  }

  lemma RemovedTidy(t: Tables, t': Tables, v: nat, n: nat, e: nat)
    requires Tidy(ShapeOf(t), e) && Removed(t, t', v, n)
    ensures Tidy(ShapeOf(t'), e)
  {
    var f, f' := ShapeOf(t), ShapeOf(t');
    ShapeOfOk(t');
    assert forall q: nat :: f'(0, q) == f(0, q) && f'(1, q) == f(1, q) && f'(2, q) == f(2, q);
    forall s: nat | FIRST_SLOT <= s < ALL_SLOTS ensures SlotUsed(f', s) <==> s < e {
      assert SlotUsed(f, s) <==> s < e;
    }
  }

  const CODE_PAGE: nat := 0x1000_0000 / PAGE_SIZE
  const STACK_PAGE: nat := (0x800_0000 - 0x4000) / PAGE_SIZE
  const STACK_PAGES: nat := 4

  /** The program and its stack mapped into an empty table leave it tidy. */
  lemma StartIsTidy(t0: Tables, t1: Tables, t2: Tables, n: nat, code: nat -> Word, stack: nat -> Word)
    requires WellFormed(t0) && forall level: nat, q: nat :: Entry(t0, level, q) == 0
    requires Mapped(t0, t1, CODE_PAGE, n, code) && Mapped(t1, t2, STACK_PAGE, STACK_PAGES, stack)
    requires CODE_PAGE + n <= VMAP_START / PAGE_SIZE
    ensures Tidy(ShapeOf(t2), FIRST_SLOT) && !HasBlock(t2)
  {
    ShapeOfOk(t0);
    MappedBelow(t0, t1, CODE_PAGE, n, code, FIRST_SLOT);
    MappedBelow(t1, t2, STACK_PAGE, STACK_PAGES, stack, FIRST_SLOT);
    MappedNoBlock(t0, t1, CODE_PAGE, n, code);
    MappedNoBlock(t1, t2, STACK_PAGE, STACK_PAGES, stack);
  }

  /** A new thread, on `n` pages from the allocator, with its table at the start of them. */
  ghost function FreshThread(b: Ledger, n: nat): State
    requires b.heap.Grab(n).Some? && b.heap.base <= b.heap.Grab(n).value.addr
  {
    State(EmptyTree(FromVirt(b.heap.Grab(n).value.addr)), Allocated(b, b.heap.Grab(n).value))
  }

  /** The runs can start: a new thread is sound and tidy. */
  lemma FreshThreadSound(l: Layout, b: Ledger, n: nat)
    requires Consistent(l, b) && b.heap.Grab(n).Some?
    ensures b.heap.base <= b.heap.Grab(n).value.addr
    ensures Sound(l, FreshThread(b, n)) && Tidy(ShapeOf(FreshThread(b, n).tree), FIRST_SLOT)
            && !HasBlock(FreshThread(b, n).tree)
  {
    AllocateKeeps(l, b, n);
    GrabInWindow(l, b, n);
    var buf := b.heap.Grab(n).value;
    var s := FreshThread(b, n);
    EmptyTreeTidy(s.tree.root);
    assert buf.Covers(buf.addr / PAGE_SIZE) && buf in s.ledger.live;
    assert forall a | a in s.tree.mem :: TableIsOwn(s.tree, s.ledger, a);
  }

  lemma EmptyTreeTidy(root: nat)
    ensures WellFormed(EmptyTree(root)) && Tidy(ShapeOf(EmptyTree(root)), FIRST_SLOT) && !HasBlock(EmptyTree(root))
  {
    EmptyTreeIs(root);
    ShapeOfOk(EmptyTree(root));
  }

  // One call

  function EndAfter(c: Call, ret: nat, e: nat): nat {
    if IsMap(c) then EndOf(ret / PAGE_SIZE, c.len / PAGE_SIZE, e) else e
  }

  lemma SlotOfPage(v: nat)
    ensures v / PAGE_SIZE / 512 == v / SLOT
  {}

  /** A mapping call gets the first unused slot. */
  lemma StepTidy(l: Layout, s: State, c: Call, ret: Word, s': State, e: nat)
    requires l.Valid() && CallStep(l, s, c, ret, s') && WellFormed(s.tree) && Tidy(ShapeOf(s.tree), e)
    ensures WellFormed(s'.tree) && Tidy(ShapeOf(s'.tree), EndAfter(c, ret, e)) && e <= EndAfter(c, ret, e)
    ensures IsMap(c) ==> ret / SLOT == e
  {
    match c
    case MemUnmap(vaddr, len) => RemovedTidy(s.tree, s'.tree, vaddr / PAGE_SIZE, PagesFor(len), e);
    case DownloadMoreRam(_, _) =>
    case _ =>
      MapStepIs(l, s, c, ret, s');
      TidyAnswer(ShapeOf(s.tree), e, c.len);
      SlotOfPage(ret);
      MappedTidy(s.tree, s'.tree, ret / PAGE_SIZE, c.len / PAGE_SIZE, LeafOf(s, c), e);
  }

  /** On tidy tables nothing is in the way of a user page behind the answer of the search. */
  lemma TidyRefusal(t: Tables, e: nat, size: nat, k: nat)
    requires WellFormed(t) && Tidy(ShapeOf(t), e) && FindHole(ShapeOf(t), VMAP_START, size).Some?
    ensures (var v := FindHole(ShapeOf(t), VMAP_START, size).value / PAGE_SIZE;
             Refusal(t, v + k) == if v + k < ALL_PAGES then None else Some(BadAddress))
  {
    TidyAnswer(ShapeOf(t), e, size);
    var v := FindHole(ShapeOf(t), VMAP_START, size).value;
    SlotOfPage(v);
    if v / PAGE_SIZE + k < ALL_PAGES {
      assert e <= (v / PAGE_SIZE + k) / 512 < ALL_SLOTS;
      FreeRefusal(t, v / PAGE_SIZE + k);
    }
  }

  /** So a mapping call fails only for its arguments or for lack of memory: it never finds a page
      occupied or a block in its way. */
  lemma TidyFaults(t: Tables, b: Ledger, paddr: nat, size: nat, f: Fault, e: nat)
    requires WellFormed(t) && Tidy(ShapeOf(t), e) && VmapFails(t, b, paddr, size, f)
    ensures f != AlreadyMapped && f != BlockInTheWay
    ensures f == OutOfVirtualMemory ==> e == ALL_SLOTS || size > USER_TOP
    ensures f == BadAddress ==> (e + 1) * 512 + size / PAGE_SIZE > ALL_PAGES
  {
    TidyAnswer(ShapeOf(t), e, size);
    var hole, n := FindHole(ShapeOf(t), VMAP_START, size), size / PAGE_SIZE;
    if hole.Some? && FirstFault(t, b, paddr, hole.value / PAGE_SIZE, n, f) {
      SlotOfPage(hole.value);
      TidyFirst(t, b, paddr, e, size, hole.value / PAGE_SIZE, n, f);
    }
  }

  lemma TidyFirst(t: Tables, b: Ledger, paddr: nat, e: nat, size: nat, v: nat, n: nat, f: Fault)
    requires WellFormed(t) && Tidy(ShapeOf(t), e) && FirstFault(t, b, paddr, v, n, f)
    requires FindHole(ShapeOf(t), VMAP_START, size).Some?
             && v == FindHole(ShapeOf(t), VMAP_START, size).value / PAGE_SIZE
    ensures f == Overflow || f == OutOfMemory || (f == BadAddress && v + n > ALL_PAGES)
  {
    var k: nat :| k < n && NoFault(t, b, paddr, v, k) && PageFault(t, b, paddr, v, k) == Some(f);
    TidyRefusal(t, e, size, k);
  }

  // Runs

  /** The first unused slot after `k` calls. */
  function EndAt(r: Run, k: nat, e: nat): nat
    requires k <= |r.calls| <= |r.rets|
  {
    if k == 0 then e else EndAfter(r.calls[k - 1], r.rets[k - 1], EndAt(r, k - 1, e))
  }

  lemma {:induction false} RunTidy(l: Layout, r: Run, e: nat, k: nat)
    requires r.Valid(l) && WellFormed(r.states[0].tree) && Tidy(ShapeOf(r.states[0].tree), e) && k <= |r.calls|
    ensures WellFormed(r.states[k].tree) && Tidy(ShapeOf(r.states[k].tree), EndAt(r, k, e))
  {
    if k > 0 {
      RunTidy(l, r, e, k - 1);
      assert r.At(l, k - 1);
      StepTidy(l, r.states[k - 1], r.calls[k - 1], r.rets[k - 1], r.states[k], EndAt(r, k - 1, e));
    }
  }

  lemma {:induction false} EndGrows(l: Layout, r: Run, e: nat, i: nat, j: nat)
    requires r.Valid(l) && WellFormed(r.states[0].tree) && Tidy(ShapeOf(r.states[0].tree), e) && i <= j <= |r.calls|
    ensures EndAt(r, i, e) <= EndAt(r, j, e)
  {
    if i < j {
      EndGrows(l, r, e, i, j - 1);
      RunTidy(l, r, e, j - 1);
      assert r.At(l, j - 1);
      StepTidy(l, r.states[j - 1], r.calls[j - 1], r.rets[j - 1], r.states[j], EndAt(r, j - 1, e));
    }
  }

  /** Every mapping lies in slots above those of all earlier ones, of whatever size and whatever was
      unmapped in between. */
  lemma MapsAscend(l: Layout, r: Run, e: nat, i: nat, j: nat, q: nat, q': nat)
    requires r.Valid(l) && WellFormed(r.states[0].tree) && Tidy(ShapeOf(r.states[0].tree), e) && i < j < |r.calls|
    requires MapsPage(r.calls[i], r.rets[i], q) && MapsPage(r.calls[j], r.rets[j], q')
    ensures q / 512 < q' / 512
  {
    EndGrows(l, r, e, i + 1, j);
    SlotsOf(r.calls[i], r.rets[i], q, EndAt(r, i, e));
    SlotsOf(r.calls[j], r.rets[j], q', EndAt(r, j, e));
    BeginsAt(l, r, e, j);
  }

  lemma SlotsOf(c: Call, ret: nat, q: nat, e: nat)
    requires MapsPage(c, ret, q)
    ensures ret / PAGE_SIZE / 512 <= q / 512 < EndAfter(c, ret, e)
  {}

  /** A mapping call answers with an address in the first unused slot. */
  lemma BeginsAt(l: Layout, r: Run, e: nat, j: nat)
    requires r.Valid(l) && WellFormed(r.states[0].tree) && Tidy(ShapeOf(r.states[0].tree), e) && j < |r.calls|
    ensures IsMap(r.calls[j]) ==> r.rets[j] / PAGE_SIZE / 512 == EndAt(r, j, e)
  {
    RunTidy(l, r, e, j);
    assert r.At(l, j);
    StepTidy(l, r.states[j], r.calls[j], r.rets[j], r.states[j + 1], EndAt(r, j, e));
    SlotOfPage(r.rets[j]);
  }

  lemma {:induction false} RunBlocks(l: Layout, r: Run, k: nat)
    requires r.Valid(l) && !HasBlock(r.states[0].tree) && k <= |r.calls|
    ensures !HasBlock(r.states[k].tree)
  {
    if k > 0 {
      RunBlocks(l, r, k - 1);
      assert r.At(l, k - 1);
      StepBlocks(l, r.states[k - 1], r.calls[k - 1], r.rets[k - 1], r.states[k]);
    }
  }

  /** No call makes a block. */
  lemma StepBlocks(l: Layout, s: State, c: Call, ret: Word, s': State)
    requires l.Valid() && CallStep(l, s, c, ret, s') && !HasBlock(s.tree)
    ensures !HasBlock(s'.tree)
  {
    if IsMap(c) {
      MapStepIs(l, s, c, ret, s');
      MappedNoBlock(s.tree, s'.tree, ret / PAGE_SIZE, c.len / PAGE_SIZE, LeafOf(s, c));
    }
  }

  lemma MappedNoBlock(t: Tables, t': Tables, v: nat, n: nat, leaf: nat -> Word)
    requires Mapped(t, t', v, n, leaf) && !HasBlock(t)
    ensures !HasBlock(t')
  {
    forall level: nat, q: nat | level < 3 ensures KindOf(Entry(t', level, q)) != Block {
      UpperKinds(t, t', v, n, level, q);
    }
  }

  /** No call in any run trips the "already occupied" assertion or meets a block. */
  lemma NoCollision(l: Layout, r: Run, e: nat, k: nat, c: Call, f: Fault)
    requires r.Valid(l) && WellFormed(r.states[0].tree) && Tidy(ShapeOf(r.states[0].tree), e)
             && !HasBlock(r.states[0].tree)
    requires k < |r.states| && l.Valid() && Faulted(l, r.states[k], c, f)
    ensures f != AlreadyMapped && f != BlockInTheWay
  {
    RunTidy(l, r, e, k);
    RunBlocks(l, r, k);
    var s := r.states[k];
    match c
    case PhyMap(paddr, len, _) => TidyFaults(s.tree, s.ledger, paddr, len, f, EndAt(r, k, e));
    case MemMap(len, _) =>
      if Buffer(s.ledger, len).Some? {
        var buf := Buffer(s.ledger, len).value;
        TidyFaults(s.tree, Allocated(s.ledger, buf), FromVirt(buf.addr), len, f, EndAt(r, k, e));
      }
    case _ =>
  }
}
