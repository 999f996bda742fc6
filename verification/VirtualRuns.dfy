/** What the user sees of memory over every run of system calls. */
module VirtualRuns {
  import opened Wrappers
  import opened Words
  import opened Addresses
  import opened Heaps
  import opened Ledgers
  import opened Descriptors
  import opened PageTables
  import opened Holes
  import opened HoleSafety
  import opened HoleRuns
  import opened HoleSizes
  import opened Mappings
  import opened AddressSpaces
  import opened Syscalls
  import opened KernelRuns

  predicate Within(v: nat, n: nat, q: nat) {
    v <= q < v + n
  }

  /** Page `q` is one a mapping call with answer `ret` has mapped. */
  predicate MapsPage(c: Call, ret: nat, q: nat) {
    IsMap(c) && Within(ret / PAGE_SIZE, c.len / PAGE_SIZE, q)
  }

  predicate UnmapsPage(c: Call, q: nat) {
    c.MemUnmap? && Within(c.vaddr / PAGE_SIZE, PagesFor(c.len), q)
  }

  /** What page `q` should translate to after a call, when it translated to `was` before. */
  ghost function After(s: State, c: Call, ret: nat, q: nat, was: Option<Word>): Option<Word> {
    if MapsPage(c, ret, q) then Some(LeafOf(s, c)(q - ret / PAGE_SIZE))
    else if UnmapsPage(c, q) then None
    else was
  }

  /** The translation of page `q` after `k` calls, from the calls alone: the last one that covers the
      page decides. */
  ghost function Recall(r: Run, k: nat, q: nat): Option<Word>
    requires k <= |r.calls| && |r.states| == |r.calls| + 1 == |r.rets| + 1
  {
    if k == 0 then Translate(r.states[0].tree, q)
    else After(r.states[k - 1], r.calls[k - 1], r.rets[k - 1], q, Recall(r, k - 1, q))
  }

  lemma LeavesNonzero(t: Tables, b: Ledger, paddr: nat, attrs: Word, v: nat, n: nat, k: nat)
    requires NoFault(t, b, paddr, v, n) && k < n
    ensures Leaves(paddr, attrs)(k) != 0
  {
    assert PageFault(t, b, paddr, v, k) == None;
  }

  lemma LeafNonzero(l: Layout, s: State, c: Call, ret: Word, s': State, k: nat)
    requires l.Valid() && CallStep(l, s, c, ret, s') && IsMap(c) && k < c.len / PAGE_SIZE
    ensures LeafOf(s, c)(k) != 0
  {
    match c
    case PhyMap(paddr, len, flags) =>
      LeavesNonzero(s.tree, s.ledger, paddr, PhyMapAttrs(flags), ret / PAGE_SIZE, len / PAGE_SIZE, k);
    case MemMap(len, flags) =>
      var paddr := FromVirt(Buffer(s.ledger, len).value.addr);
      LeavesNonzero(s.tree, Base(s, c), paddr, MemMapAttrs(flags), ret / PAGE_SIZE, len / PAGE_SIZE, k);
  }

  ghost predicate Translates(s: State, c: Call, ret: nat, s': State, q: nat) {
    WellFormed(s'.tree) && Translate(s'.tree, q) == After(s, c, ret, q, Translate(s.tree, q))
  }

  lemma MapTranslates(s: State, c: Call, ret: nat, s': State, q: nat)
    requires IsMap(c) && MapStep(s, c, ret, s') && WellFormed(s.tree) && q < 0x10_0000_0000
    requires MapsPage(c, ret, q) ==> LeafOf(s, c)(q - ret / PAGE_SIZE) != 0
    ensures Translates(s, c, ret, s', q)
  {
    MappedTranslates(s.tree, s'.tree, ret / PAGE_SIZE, c.len / PAGE_SIZE, LeafOf(s, c), q);
  }

  lemma UnmapTranslates(s: State, vaddr: Word, len: Word, s': State, q: nat)
    requires RemovedAll(s.tree, s'.tree, vaddr / PAGE_SIZE, PagesFor(len))
    requires WellFormed(s.tree) && q < 0x10_0000_0000
    ensures Translates(s, MemUnmap(vaddr, len), 0, s', q)
  {
    RemovedTranslates(s.tree, s'.tree, vaddr / PAGE_SIZE, PagesFor(len), q);
  }

  /** Each call changes the translation just as it should. */
  lemma StepTranslates(l: Layout, s: State, c: Call, ret: Word, s': State, q: nat)
    requires l.Valid() && CallStep(l, s, c, ret, s') && WellFormed(s.tree) && q < 0x10_0000_0000
    ensures Translates(s, c, ret, s', q)
  {
    match c
    case MemUnmap(vaddr, len) => UnmapTranslates(s, vaddr, len, s', q);
    case DownloadMoreRam(_, _) =>
    case _ =>
      MapStepIs(l, s, c, ret, s');
      if MapsPage(c, ret, q) { LeafNonzero(l, s, c, ret, s', q - ret / PAGE_SIZE); }
      MapTranslates(s, c, ret, s', q);
  }

  /** Over every run each page translates to what the history of calls says. */
  lemma {:induction false} TranslatesHistory(l: Layout, r: Run, k: nat, q: nat)
    requires r.Valid(l) && k <= |r.calls| && q < 0x10_0000_0000
    requires WellFormed(r.states[0].tree)
    ensures WellFormed(r.states[k].tree)
    ensures Translate(r.states[k].tree, q) == Recall(r, k, q)
  {
    if k > 0 {
      TranslatesHistory(l, r, k - 1, q);
      assert r.At(l, k - 1);
      StepTranslates(l, r.states[k - 1], r.calls[k - 1], r.rets[k - 1], r.states[k], q);
    }
  }

  // Slots

  /** A call uses up the slots of what it maps, and gives none back. */
  lemma StepSlots(l: Layout, s: State, c: Call, ret: Word, s': State, slot: nat)
    requires l.Valid() && CallStep(l, s, c, ret, s') && WellFormed(s.tree)
    ensures WellFormed(s'.tree)
    ensures SlotUsed(ShapeOf(s'.tree), slot) <==>
            SlotUsed(ShapeOf(s.tree), slot) || (IsMap(c) && OnWay(ret / PAGE_SIZE, c.len / PAGE_SIZE, 2, slot))
  {
    if IsMap(c) {
      MapStepIs(l, s, c, ret, s');
      MappedSlots(s.tree, s'.tree, ret / PAGE_SIZE, c.len / PAGE_SIZE, LeafOf(s, c), slot);
    }
  }

  lemma {:induction false} UsedForever(l: Layout, r: Run, i: nat, j: nat, slot: nat)
    requires r.Valid(l) && WellFormed(r.states[0].tree) && i <= j < |r.states|
    ensures WellFormed(r.states[j].tree)
    ensures SlotUsed(ShapeOf(r.states[i].tree), slot) ==> SlotUsed(ShapeOf(r.states[j].tree), slot)
  {
    if j > 0 {
      if i < j { UsedForever(l, r, i, j - 1, slot); } else { UsedForever(l, r, j - 1, j - 1, slot); }
      assert r.At(l, j - 1);
      StepSlots(l, r.states[j - 1], r.calls[j - 1], r.rets[j - 1], r.states[j], slot);
    }
  }

  /** What an earlier call mapped and what a later call of up to 2 MB maps share no slot, whatever
      the tables were to begin with and whatever was unmapped in between. */
  lemma NoVirtualReuse(l: Layout, r: Run, i: nat, j: nat, q: nat, q': nat)
    requires r.Valid(l) && WellFormed(r.states[0].tree) && i < j < |r.calls|
    requires MapsPage(r.calls[i], r.rets[i], q) && MapsPage(r.calls[j], r.rets[j], q') && r.calls[j].len <= SLOT
    ensures q / 512 != q' / 512
  {
    UsedForever(l, r, 0, j, 0);
    assert r.At(l, j);
    MapStepIs(l, r.states[j], r.calls[j], r.rets[j], r.states[j + 1]);
    ShapeOfOk(r.states[j].tree);
    SmallIsSafe(ShapeOf(r.states[j].tree), r.calls[j].len);
    HoleNotReused(l, r, i, j, q, q');
  }

  /** Nor does a larger later one in a safe hole. */
  lemma HoleNotReused(l: Layout, r: Run, i: nat, j: nat, q: nat, q': nat)
    requires r.Valid(l) && WellFormed(r.states[0].tree) && i < j < |r.calls|
    requires MapsPage(r.calls[i], r.rets[i], q) && MapsPage(r.calls[j], r.rets[j], q')
    requires SafeHole(r.rets[j], r.calls[j].len / PAGE_SIZE)
    ensures q / 512 != q' / 512
  {
    UsedAfter(l, r, i, q);
    UsedForever(l, r, i + 1, j, q / 512);
    FreeBefore(l, r, j, q');
  }

  lemma UsedAfter(l: Layout, r: Run, i: nat, q: nat)
    requires r.Valid(l) && WellFormed(r.states[0].tree) && i < |r.calls| && MapsPage(r.calls[i], r.rets[i], q)
    ensures SlotUsed(ShapeOf(r.states[i + 1].tree), q / 512)
  {
    UsedForever(l, r, 0, i, 0);
    assert r.At(l, i);
    StepSlots(l, r.states[i], r.calls[i], r.rets[i], r.states[i + 1], q / 512);
    RegionWay(r.rets[i] / PAGE_SIZE, r.calls[i].len / PAGE_SIZE, q);
    SlotWay(q);
  }

  lemma FreeBefore(l: Layout, r: Run, j: nat, q: nat)
    requires r.Valid(l) && WellFormed(r.states[0].tree) && j < |r.calls| && MapsPage(r.calls[j], r.rets[j], q)
    requires SafeHole(r.rets[j], r.calls[j].len / PAGE_SIZE)
    ensures !SlotUsed(ShapeOf(r.states[j].tree), q / 512)
  {
    UsedForever(l, r, 0, j, 0);
    assert r.At(l, j);
    var s, c := r.states[j], r.calls[j];
    MapStepIs(l, s, c, r.rets[j], r.states[j + 1]);
    ShapeOfOk(s.tree);
    HoleSound(ShapeOf(s.tree), VMAP_START, c.len);
    FreePage(ShapeOf(s.tree), r.rets[j] / PAGE_SIZE, c.len / PAGE_SIZE, q);
  }

  // Isolation

  /** The physical page behind page `k` of the region a `MemMap` call maps. */
  ghost function PhysOf(s: State, len: Word, flags: Word, k: nat): nat {
    OutputAddress(LeafOf(s, MemMap(len, flags))(k))
  }

  /** It is page `k` of the buffer. */
  lemma BehindBuffer(l: Layout, s: State, len: Word, flags: Word, k: nat)
    requires Consistent(l, s.ledger) && Buffer(s.ledger, len).Some? && k < PagesFor(len)
    ensures (var buf := Buffer(s.ledger, len).value;
             && MEM_WINDOW + PhysOf(s, len, flags, k) == buf.addr + k * PAGE_SIZE
             && buf.Covers((MEM_WINDOW + PhysOf(s, len, flags, k)) / PAGE_SIZE))
  {
    var buf := Buffer(s.ledger, len).value;
    GrabInWindow(l, s.ledger, PagesFor(len));
    BufferPage(buf, PagesFor(len), k);
    LeavesMeaning(FromVirt(buf.addr), MemMapAttrs(flags), k);
  }

  lemma BufferPage(buf: PageSlice, n: nat, k: nat)
    requires buf.len == n * PAGE_SIZE && k < n && FromVirt(buf.addr) + n * PAGE_SIZE <= REACH
    ensures FromVirt(buf.addr) + k * PAGE_SIZE < REACH && buf.Covers((buf.addr + k * PAGE_SIZE) / PAGE_SIZE)
  {}

  /** Nothing the user gets by `MemMap` is ever a translation table. */
  lemma UserPageIsNoTable(l: Layout, r: Run, i: nat, j: nat, k: nat, a: nat)
    requires SafeRun(l, r) && i < j < |r.states|
    requires r.calls[i].MemMap? && k < r.calls[i].len / PAGE_SIZE && a in r.states[j].tree.mem
    ensures PhysOf(r.states[i], r.calls[i].len, r.calls[i].flags, k) != a
  {
    BufferIsNoTable(l, r, i, j, a);
    RunBuffer(l, r, i, k);
  }

  lemma RunBuffer(l: Layout, r: Run, i: nat, k: nat)
    requires SafeRun(l, r) && i < |r.calls| && r.calls[i].MemMap? && k < r.calls[i].len / PAGE_SIZE
    ensures Buffer(r.states[i].ledger, r.calls[i].len).Some?
    ensures (var buf, phys := Buffer(r.states[i].ledger, r.calls[i].len).value,
                               PhysOf(r.states[i], r.calls[i].len, r.calls[i].flags, k);
             MEM_WINDOW + phys == buf.addr + k * PAGE_SIZE && buf.Covers((MEM_WINDOW + phys) / PAGE_SIZE))
  {
    assert r.At(l, i);
    RunSound(l, r, i);
    BehindBuffer(l, r.states[i], r.calls[i].len, r.calls[i].flags, k);
  }

  lemma BuffersApart(l: Layout, r: Run, i: nat, j: nat, page: nat)
    requires SafeRun(l, r) && i < j < |r.calls| && r.calls[i].MemMap? && r.calls[j].MemMap?
    requires Buffer(r.states[i].ledger, r.calls[i].len).Some? && Buffer(r.states[j].ledger, r.calls[j].len).Some?
    requires Buffer(r.states[i].ledger, r.calls[i].len).value.Covers(page)
    ensures !Buffer(r.states[j].ledger, r.calls[j].len).value.Covers(page)
  {
    RunSound(l, r, j);
    BufferLives(l, r, i, j);
    GrabIsFresh(l, r.states[j].ledger, PagesFor(r.calls[j].len));
    assert Owned(r.states[j].ledger, page);
  }

  /** Nothing the user gets by `MemMap` is a byte of the kernel image or of the device tree. */
  lemma UserPageIsNotKernel(l: Layout, r: Run, i: nat, k: nat, addr: nat)
    requires SafeRun(l, r) && i < |r.calls| && r.calls[i].MemMap? && k < r.calls[i].len / PAGE_SIZE
    requires l.KernelByte(addr)
    ensures (MEM_WINDOW + PhysOf(r.states[i], r.calls[i].len, r.calls[i].flags, k)) / PAGE_SIZE != addr / PAGE_SIZE
  {
    RunBuffer(l, r, i, k);
    RunSound(l, r, i);
    KernelNeverHandedOut(l, r.states[i].ledger, PagesFor(r.calls[i].len), addr);
  }

  /** No two pages the user gets by `MemMap`, in one call or in two, are the same memory. */
  lemma NoAliases(l: Layout, r: Run, i: nat, j: nat, k: nat, m: nat)
    requires SafeRun(l, r) && i <= j < |r.calls| && r.calls[i].MemMap? && r.calls[j].MemMap?
    requires k < r.calls[i].len / PAGE_SIZE && m < r.calls[j].len / PAGE_SIZE && (i == j ==> k != m)
    ensures PhysOf(r.states[i], r.calls[i].len, r.calls[i].flags, k)
            != PhysOf(r.states[j], r.calls[j].len, r.calls[j].flags, m)
  {
    RunBuffer(l, r, i, k);
    RunBuffer(l, r, j, m);
    if i < j {
      BuffersApart(l, r, i, j, (MEM_WINDOW + PhysOf(r.states[i], r.calls[i].len, r.calls[i].flags, k)) / PAGE_SIZE);
    }
  }
}
