/** A thread's page tables, and the allocator their inner tables come from. */
module AddressSpaces {
  import opened Wrappers
  import opened Words
  import opened Addresses
  import opened BitRanges
  import opened Heaps
  import opened Ledgers
  import opened Nodes
  import opened PageAllocs
  import opened Descriptors
  import opened PageTables
  import opened Holes
  import opened HoleSafety
  import opened HoleLimits
  import opened HoleRuns
  import opened HoleSizes
  import opened FullTables
  import opened Mappings

  /** Why the kernel stops. */
  datatype Fault =
    | OutOfMemory          // the page allocator has no page left
    | OutOfVirtualMemory   // the hole search finds nothing
    | AlreadyMapped        // the page entry is occupied
    | BadAddress           // beyond user memory, or not page-aligned
    | BadSize              // not a multiple of the page size
    | Overflow             // an address does not fit in 64 bits
    | BlockInTheWay        // a block descriptor where a table is needed
    | BadNode              // a memory node that an assertion of the allocator refuses
    | NotImplemented       // a call there is no code for

  datatype Result<+T> = Ok(value: T) | Panic(fault: Fault)

  /** The slice that holds the table at physical address `phys`. */
  function TableSlice(phys: nat): PageSlice {
    PageSlice(MEM_WINDOW + phys, PAGE_SIZE)
  }

  /** Every table but the root is a live one-page slice of its own; the root lies in a live slice. */
  ghost predicate TablesOwned(t: Tables, b: Ledger) {
    && (forall a {:trigger TableIsOwn(t, b, a)} | a in t.mem :: TableIsOwn(t, b, a))
    && t.root in t.mem && Owned(b, (MEM_WINDOW + t.root) / PAGE_SIZE)
  }

  ghost predicate TableIsOwn(t: Tables, b: Ledger, a: nat) {
    a % PAGE_SIZE == 0 && a < REACH && (a != t.root ==> TableSlice(a) in b.live)
  }

  lemma TableOwned(t: Tables, b: Ledger, a: nat)
    requires TablesOwned(t, b) && a in t.mem
    ensures Owned(b, (MEM_WINDOW + a) / PAGE_SIZE)
  {
    assert TableIsOwn(t, b, a);
    if a != t.root { assert TableSlice(a).Covers((MEM_WINDOW + a) / PAGE_SIZE); }
  }

  /** What the allocator hands out lies in the kernel window. */
  lemma GrabInWindow(l: Layout, b: Ledger, n: nat)
    requires Consistent(l, b) && b.heap.Grab(n).Some?
    ensures (var s := b.heap.Grab(n).value;
             var phys := FromVirt(s.addr);
             && MEM_WINDOW + phys == s.addr && phys % PAGE_SIZE == 0 && phys + n * PAGE_SIZE <= REACH && n > 0)
  {
    var s := b.heap.Grab(n).value;
    var p := FirstFit(b.heap.bits, n).value;
    assert FreeRun(b.heap.bits, p, n);
    WindowOffset(b.heap.base, p, n, l.heapStart);
  }

  lemma WindowOffset(base: nat, p: nat, n: nat, top: nat)
    requires base % PAGE_SIZE == 0 && MEM_WINDOW <= base <= top && p + n <= PAGE_ALLOC_PAGES && n > 0
    requires top + PAGE_ALLOC_PAGES * PAGE_SIZE <= MEM_WINDOW + REACH
    ensures (var addr := base + p * PAGE_SIZE;
             && MEM_WINDOW + FromVirt(addr) == addr && FromVirt(addr) % PAGE_SIZE == 0
             && FromVirt(addr) + n * PAGE_SIZE <= REACH)
  {
    WindowParts(0, base + p * PAGE_SIZE);
  }

  /** A page fresh from the allocator is reachable through the kernel window and holds no table. */
  lemma FreshTable(l: Layout, b: Ledger, t: Tables)
    requires Consistent(l, b) && TablesOwned(t, b) && b.heap.Grab(1).Some?
    ensures (var s := b.heap.Grab(1).value;
             var phys := FromVirt(s.addr);
             && phys < REACH && phys % PAGE_SIZE == 0 && s == TableSlice(phys) && phys !in t.mem)
  {
    GrabIsFresh(l, b, 1);
    GrabInWindow(l, b, 1);
    var s := b.heap.Grab(1).value;
    var phys := FromVirt(s.addr);
    assert s.Covers(s.addr / PAGE_SIZE);
    if phys in t.mem { TableOwned(t, b, phys); }
  }

  /** Tables are only added, `k` of them, each on a page allocated for it, and nothing else is allocated. */
  ghost predicate Grew(t: Tables, b: Ledger, t': Tables, b': Ledger, k: nat) {
    && t.mem.Keys <= t'.mem.Keys && |t'.mem| == |t.mem| + k
    && b.live <= b'.live && Allocs(b, b', k)
    && (forall a {:trigger Backed(b, b', a)} | a in t'.mem && a !in t.mem :: Backed(b, b', a))
  }

  /** The table at `a` has a live slice of its own, which was not there before. */
  ghost predicate Backed(b: Ledger, b': Ledger, a: nat) {
    a % PAGE_SIZE == 0 && a < REACH && TableSlice(a) in b'.live && TableSlice(a) !in b.live
  }

  lemma GrewNone(t: Tables, b: Ledger)
    ensures Grew(t, b, t, b, 0)
  {
    AllocsFew(b, b);
  }

  lemma GrewMore(t: Tables, b: Ledger, t1: Tables, b1: Ledger, t2: Tables, b2: Ledger, k: nat, m: nat)
    requires Grew(t, b, t1, b1, k) && Grew(t1, b1, t2, b2, m)
    ensures Grew(t, b, t2, b2, k + m)
  {
    AllocsMore(b, b1, b2, k, m);
    forall a | a in t2.mem && a !in t.mem ensures Backed(b, b2, a) {
      assert if a in t1.mem then Backed(b, b1, a) else Backed(b1, b2, a);
    }
  }

  /** A page fit for a table has been taken from the allocator. */
  ghost predicate PageTaken(b: Ledger, b': Ledger, t: Tables, phys: nat) {
    && OneAlloc(b, b') && b'.live == b.live + {TableSlice(phys)} && TableSlice(phys) !in b.live
    && phys !in t.mem && phys < REACH && phys % PAGE_SIZE == 0
  }

  /** Any allocation keeps the ledger consistent and the tables owned. */
  lemma BufferStep(l: Layout, b: Ledger, t: Tables, n: nat)
    requires Consistent(l, b) && TablesOwned(t, b) && b.heap.Grab(n).Some?
    ensures (var s := b.heap.Grab(n).value;
             && b.heap.base <= s.addr && s.len / PAGE_SIZE == n
             && Consistent(l, Allocated(b, s)) && TablesOwned(t, Allocated(b, s)))
  {
    var s := b.heap.Grab(n).value;
    AllocateKeeps(l, b, n);
    OwnedAdd(b, Allocated(b, s), s, (MEM_WINDOW + t.root) / PAGE_SIZE);
    forall a | a in t.mem ensures TableIsOwn(t, Allocated(b, s), a) { assert TableIsOwn(t, b, a); }
  }

  /** Adding a memory node by which nothing is lost keeps every owner. */
  lemma NodeStep(l: Layout, b: Ledger, t: Tables, base: nat, len: nat)
    requires Consistent(l, b) && TablesOwned(t, b) && MEM_WINDOW <= base && Added(l, b.heap, base, len).Some?
    requires NodeKeeps(l, b, base, len)
    ensures Consistent(l, Grown(l, b, base, len)) && TablesOwned(t, Grown(l, b, base, len))
  {
    GrowKeepsIff(l, b, base, len);
    var b' := Grown(l, b, base, len);
    var s :| s in b.live && s.Covers((MEM_WINDOW + t.root) / PAGE_SIZE);
    assert s in b'.live;
    forall a | a in t.mem ensures TableIsOwn(t, b', a) { assert TableIsOwn(t, b, a); }
  }

  lemma TakeStep(l: Layout, b: Ledger, t: Tables)
    requires Consistent(l, b) && TablesOwned(t, b) && b.heap.Grab(1).Some?
    ensures (var s := b.heap.Grab(1).value;
             && b.heap.base <= s.addr && Allocated(b, s).heap == b.heap.Put(s.addr, 1, true)
             && Consistent(l, Allocated(b, s)) && TablesOwned(t, Allocated(b, s))
             && PageTaken(b, Allocated(b, s), t, FromVirt(s.addr)))
  {
    BufferStep(l, b, t, 1);
    FreshTable(l, b, t);
    GrabIsFresh(l, b, 1);
  }

  /** The table behind entry `q` of the level is the one at `phys`, and nothing else has changed. */
  ghost predicate Linking(t: Tables, b: Ledger, t': Tables, b': Ledger, level: nat, q: nat, phys: nat) {
    && Opened(t, t', level, q) && Grew(t, b, t', b', Gap(t, level, q))
    && Pos(level + 1, q) in t'.at && t'.at[Pos(level + 1, q)] == phys
  }

  /** Linking a fresh table: the tree and the ownership of tables go on to hold. */
  lemma LinkStep(b: Ledger, b': Ledger, t: Tables, level: nat, q: nat, phys: nat, e: Word)
    requires WellFormed(t) && TablesOwned(t, b') && level < 3 && Here(t, level, q) && Entry(t, level, q) == 0
    requires PageTaken(b, b', t, phys) && KindOf(e) == EntryKind.Table && Ptr(e) == phys && IsTableEntry(e)
    ensures (var t' := Linked(t, level, q, phys, e);
             WellFormed(t') && TablesOwned(t', b') && Linking(t, b, t', b', level, q, phys))
  {
    LinkedKeeps(t, level, q, phys, e);
    LinkedOpens(t, level, q, phys, e);
    LinkedGrew(t, b, level, q, phys, e, b');
    var t' := Linked(t, level, q, phys, e);
    forall a | a in t'.mem ensures TableIsOwn(t', b', a) { assert a in t.mem ==> TableIsOwn(t, b', a); }
  }

  lemma FollowOpens(t: Tables, b: Ledger, level: nat, q: nat)
    requires WellFormed(t) && level < 3 && KindOf(Entry(t, level, q)) == EntryKind.Table
    ensures Linking(t, b, t, b, level, q, Ptr(Entry(t, level, q)))
  {
    assert EntryOk(t, level, q);
    GrewNone(t, b);
  }

  lemma LinkedOpens(t: Tables, level: nat, q: nat, phys: nat, e: Word)
    requires WellFormed(t) && level < 3 && Here(t, level, q) && Entry(t, level, q) == 0
    requires phys !in t.mem && KindOf(e) == EntryKind.Table && IsTableEntry(e)
    ensures Opened(t, Linked(t, level, q, phys, e), level, q)
  {
    var t' := Linked(t, level, q, phys, e);
    forall l: nat, q': nat ensures Entry(t', l, q') == if l == level && q' == q then e else Entry(t, l, q') {
      LinkedEntry(t, level, q, phys, e, l, q');
    }
  }

  lemma LinkedGrew(t: Tables, b: Ledger, level: nat, q: nat, phys: nat, e: Word, b': Ledger)
    requires Here(t, level, q) && PageTaken(b, b', t, phys)
    ensures Grew(t, b, Linked(t, level, q, phys, e), b', 1)
  {
    var t' := Linked(t, level, q, phys, e);
    assert t'.mem.Keys == t.mem.Keys + {phys};
    assert |t'.mem.Keys| == |t.mem.Keys| + 1;
    AllocsFew(b, b');
  }

  /** The tables on the way to page `v` are there, and nothing else has changed. */
  ghost predicate PathOpen(t: Tables, b: Ledger, t': Tables, b': Ledger, v: nat) {
    && UpperMapped(t, t', v, 1) && t'.root == t.root
    && (forall q: nat :: Entry(t', 3, q) == Entry(t, 3, q))
    && Grew(t, b, t', b', MissingAt(t, v))
  }

  lemma ThreeLinks(t0: Tables, b0: Ledger, t1: Tables, b1: Ledger,
                   t2: Tables, b2: Ledger, t3: Tables, b3: Ledger, v: nat)
    requires Opened(t0, t1, 0, Up(v, 0)) && Opened(t1, t2, 1, Up(v, 1)) && Opened(t2, t3, 2, Up(v, 2))
    requires Grew(t0, b0, t1, b1, Gap(t0, 0, Up(v, 0))) && Grew(t1, b1, t2, b2, Gap(t1, 1, Up(v, 1)))
    requires Grew(t2, b2, t3, b3, Gap(t2, 2, Up(v, 2)))
    ensures PathOpen(t0, b0, t3, b3, v)
  {
    UpperOne(t0, t1, t2, t3, v);
    var g0, g1, g2 := Gap(t0, 0, Up(v, 0)), Gap(t1, 1, Up(v, 1)), Gap(t2, 2, Up(v, 2));
    GrewMore(t0, b0, t1, b1, t2, b2, g0, g1);
    GrewMore(t0, b0, t2, b2, t3, b3, g0 + g1, g2);
  }

  /** Page `v`, free before, is mapped by descriptor `e`; and the tables missing for it have been added. */
  ghost predicate MappedOne(t: Tables, b: Ledger, t': Tables, b': Ledger, v: nat, e: Word) {
    v < ALL_PAGES && Entry(t, 3, v) == 0 && MappedPage(t, t', v, e) && Grew(t, b, t', b', MissingAt(t, v))
  }

  /** A leaf store adds and removes no table. */
  lemma LeafOwned(t: Tables, b: Ledger, q: nat, e: Word)
    requires Here(t, 3, q) && TablesOwned(t, b)
    ensures TablesOwned(WithLeaf(t, q, e), b)
  {
    var t' := WithLeaf(t, q, e);
    forall a | a in t'.mem ensures TableIsOwn(t', b, a) { assert TableIsOwn(t, b, a); }
  }

  lemma LeafGrew(t0: Tables, b0: Ledger, t: Tables, b: Ledger, q: nat, e: Word, k: nat)
    requires Here(t, 3, q) && Grew(t0, b0, t, b, k)
    ensures Grew(t0, b0, WithLeaf(t, q, e), b, k)
  {
    var t' := WithLeaf(t, q, e);
    assert t'.mem.Keys == t.mem.Keys;
  }

  /** Why page `v` can not be mapped: it is no user page, it lies in a block, or it is occupied. */
  ghost function Refusal(t: Tables, v: nat): Option<Fault> {
    if v >= ALL_PAGES then Some(BadAddress)
    else if BlockOnWay(t, v) then Some(BlockInTheWay)
    else if Entry(t, 3, v) != 0 then Some(AlreadyMapped)
    else None
  }

  /** A refusal is answered; without one the page is mapped or memory runs out. */
  predicate Answers(r: Result<()>, refusal: Option<Fault>) {
    match refusal
    case Some(f) => r == Panic(f)
    case None => r.Ok? || r == Panic(OutOfMemory)
  }

  /** The entry on the way at `level` is zero: nothing is below it. */
  lemma NothingBelow(t: Tables, level: nat, v: nat)
    requires WellFormed(t) && level < 3 && Entry(t, level, Up(v, level)) == 0
    ensures Entry(t, 3, v) == 0
    ensures level < 2 ==> Entry(t, 2, Up(v, 2)) == 0
    ensures level < 1 ==> Entry(t, 1, Up(v, 1)) == 0
  {
    assert Up(v, 2) == v / 512 && Up(v, 1) == v / 512 / 512 && Up(v, 0) == v / 512 / 512 / 512;
    BelowFree(t, 0, Up(v, 0));
    BelowFree(t, 1, Up(v, 1));
    BelowFree(t, 2, Up(v, 2));
  }

  /** The walk stops at the top table, at a block or for lack of a page: what that says about the page. */
  ghost predicate StopsHere(t: Tables, v: nat, e: Word) {
    && (KindOf(e) == Block ==> BlockOnWay(t, v))
    && (e == 0 ==> Entry(t, 3, v) == 0 && !BlockOnWay(t, v))
  }

  lemma StopsAtTop(t0: Tables, v: nat)
    requires WellFormed(t0)
    ensures StopsHere(t0, v, Entry(t0, 0, Up(v, 0)))
    ensures Entry(t0, 0, Up(v, 0)) == 0 ==> 0 < MissingAt(t0, v)
  {
    BlockLevels(t0, v);
    if Entry(t0, 0, Up(v, 0)) == 0 { NothingBelow(t0, 0, v); }
  }

  lemma StopsAtOne(t0: Tables, t1: Tables, v: nat)
    requires WellFormed(t0) && Opened(t0, t1, 0, Up(v, 0))
    ensures StopsHere(t0, v, Entry(t1, 1, Up(v, 1)))
    ensures Entry(t1, 1, Up(v, 1)) == 0 ==> Gap(t0, 0, Up(v, 0)) < MissingAt(t0, v)
  {
    BlockLevels(t0, v);
    if Entry(t0, 1, Up(v, 1)) == 0 { NothingBelow(t0, 1, v); }
  }

  lemma StopsAtTwo(t0: Tables, t1: Tables, t2: Tables, v: nat)
    requires WellFormed(t0) && Opened(t0, t1, 0, Up(v, 0)) && Opened(t1, t2, 1, Up(v, 1))
    ensures StopsHere(t0, v, Entry(t2, 2, Up(v, 2)))
    ensures Entry(t2, 2, Up(v, 2)) == 0 ==> Gap(t0, 0, Up(v, 0)) + Gap(t1, 1, Up(v, 1)) < MissingAt(t0, v)
  {
    BlockLevels(t0, v);
    if Entry(t0, 2, Up(v, 2)) == 0 { NothingBelow(t0, 2, v); }
  }

  /** There is not enough memory for the tables that are missing. */
  ghost predicate Short(t: Tables, b: Ledger, v: nat) {
    FreePages(b) < MissingAt(t, v)
  }

  /** When `j` tables have been added and no page is left, there were `j` pages. */
  lemma RunsDry(t: Tables, b: Ledger, t': Tables, b': Ledger, j: nat, v: nat)
    ensures Grew(t, b, t', b', j) && b'.heap.Grab(1) == None && j < MissingAt(t, v) ==> Short(t, b, v)
  {
    if Grew(t, b, t', b', j) && b'.heap.Grab(1) == None {
      AllocsFree(b, b', j);
      NoneFree(b');
    }
  }

  lemma RunsDryAgain(t: Tables, b: Ledger, t1: Tables, b1: Ledger, t2: Tables, b2: Ledger, j: nat, k: nat, v: nat)
    ensures Grew(t, b, t1, b1, j) && Grew(t1, b1, t2, b2, k) && b2.heap.Grab(1) == None && j + k < MissingAt(t, v)
            ==> Short(t, b, v)
  {
    if Grew(t, b, t1, b1, j) && Grew(t1, b1, t2, b2, k) {
      GrewMore(t, b, t1, b1, t2, b2, j, k);
      RunsDry(t, b, t2, b2, j + k, v);
    }
  }

  lemma NotShort(t: Tables, b: Ledger, t': Tables, b': Ledger, v: nat, e: Word)
    ensures MappedOne(t, b, t', b', v, e) ==> !Short(t, b, v)
  {
    if MappedOne(t, b, t', b', v, e) { AllocsFree(b, b', MissingAt(t, v)); }
  }

  /** A refusal is answered, and without one only a lack of memory stands in the way. */
  ghost predicate Settled(r: Result<()>, t: Tables, b: Ledger, v: nat) {
    Answers(r, Refusal(t, v)) && (r.Ok? ==> !Short(t, b, v)) && (r == Panic(OutOfMemory) ==> Short(t, b, v))
  }

  /** Where the path could be opened there was no block. */
  lemma PathClear(t: Tables, t': Tables, v: nat)
    requires UpperMapped(t, t', v, 1)
    ensures !BlockOnWay(t, v)
  {
    BlockLevels(t, v);
    RegionWay(v, 1, v);
    UpperKinds(t, t', v, 1, 0, Up(v, 0));
    UpperKinds(t, t', v, 1, 1, Up(v, 1));
    UpperKinds(t, t', v, 1, 2, Up(v, 2));
  }

  ghost predicate Blocked(t: Tables, v: nat, n: nat) {
    exists q: nat :: v <= q < v + n && BlockOnWay(t, q)
  }

  /** The `n` pages from `v` on, none of them inside a block, have been unmapped. */
  ghost predicate RemovedAll(t: Tables, t': Tables, v: nat, n: nat) {
    Removed(t, t', v, n) && !Blocked(t, v, n)
  }

  lemma RemovedAllNone(t: Tables, v: nat)
    requires WellFormed(t)
    ensures RemovedAll(t, t, v, 0)
  {
    RemovedNone(t, v);
  }

  lemma RemovedAllMore(t: Tables, t1: Tables, t2: Tables, v: nat, k: nat)
    ensures RemovedAll(t, t1, v, k) && Removed(t1, t2, v + k, 1) && !BlockOnWay(t1, v + k)
            ==> RemovedAll(t, t2, v, k + 1)
  {
    if RemovedAll(t, t1, v, k) && Removed(t1, t2, v + k, 1) && !BlockOnWay(t1, v + k) {
      RemovedMore(t, t1, t2, v, k);
      RemovedBlocks(t, t1, v, k, v + k);
    }
  }

  /** Page `k` met a block: it was there to begin with. */
  lemma RemovedStuck(t: Tables, t1: Tables, v: nat, k: nat)
    ensures RemovedAll(t, t1, v, k) && BlockOnWay(t1, v + k) ==> Blocked(t, v, k + 1)
  {
    if RemovedAll(t, t1, v, k) && BlockOnWay(t1, v + k) {
      RemovedBlocks(t, t1, v, k, v + k);
      assert v <= v + k < v + (k + 1);
    }
  }

  lemma BlockedLonger(t: Tables, v: nat, k: nat, n: nat)
    requires k <= n && Blocked(t, v, k)
    ensures Blocked(t, v, n)
  {
    var q: nat :| v <= q < v + k && BlockOnWay(t, q);
    assert v <= q < v + n;
  }

  ghost predicate HasBlock(t: Tables) {
    exists level: nat, q: nat :: level < 3 && KindOf(Entry(t, level, q)) == Block
  }

  /** The table indices of a user address are the steps of the walk to its page. */
  lemma AddressSteps(vaddr: nat)
    requires vaddr < USER_TOP
    ensures (var v := vaddr / PAGE_SIZE;
             && Up(v, 0) == 0 && vaddr / 0x80_0000_0000 == Up(v, 0) % 512
             && Up(v, 1) / 512 == Up(v, 0) && vaddr / 0x4000_0000 % 512 == Up(v, 1) % 512
             && Up(v, 2) / 512 == Up(v, 1) && vaddr / 0x20_0000 % 512 == Up(v, 2) % 512
             && v / 512 == Up(v, 2) && v / 512 / 512 == Up(v, 1) && v / 512 / 512 / 512 == Up(v, 0))
  {
    var v := vaddr / PAGE_SIZE;
    assert Up(v, 3) == v;
    AddressQuotients(vaddr);
  }

  lemma AddressQuotients(vaddr: nat)
    requires vaddr < USER_TOP
    ensures vaddr / 0x20_0000 == vaddr / PAGE_SIZE / 512
    ensures vaddr / 0x4000_0000 == vaddr / PAGE_SIZE / 512 / 512
    ensures vaddr / 0x80_0000_0000 == 0 == vaddr / PAGE_SIZE / 512 / 512 / 512
  {}

  /** The `n` pages at `vaddr` are page-aligned user addresses. */
  ghost predicate UserRange(vaddr: nat, n: nat) {
    n > 0 ==> vaddr % PAGE_SIZE == 0 && vaddr + (n - 1) * PAGE_SIZE < USER_TOP
  }

  lemma PageStep(vaddr: nat, k: nat, size: nat)
    requires k * PAGE_SIZE < size
    ensures (vaddr + k * PAGE_SIZE) / PAGE_SIZE == vaddr / PAGE_SIZE + k
    ensures (vaddr + k * PAGE_SIZE) % PAGE_SIZE == vaddr % PAGE_SIZE
    ensures k < PagesFor(size)
    ensures UserRange(vaddr, k + 1) <==> vaddr + k * PAGE_SIZE < USER_TOP && (vaddr + k * PAGE_SIZE) % PAGE_SIZE == 0
  {}

  lemma LeafAt(vaddr: nat, paddr: nat, attrs: Word, k: nat)
    ensures (vaddr + k * PAGE_SIZE) / PAGE_SIZE == vaddr / PAGE_SIZE + k
    ensures (vaddr + k * PAGE_SIZE) % PAGE_SIZE == vaddr % PAGE_SIZE
    ensures paddr + k * PAGE_SIZE < 0x1_0000_0000_0000_0000
            ==> Leaves(paddr, attrs)(k) == Leaf(paddr + k * PAGE_SIZE, attrs)
  {}

  lemma UserRangeShorter(vaddr: nat, k: nat, n: nat)
    requires 0 < k <= n && UserRange(vaddr, n)
    ensures UserRange(vaddr, k)
  {}

  /** `n` user pages from `v` on, all free before, are mapped; and the tables missing for them have been added. */
  ghost predicate MappedAll(t: Tables, b: Ledger, t': Tables, b': Ledger, v: nat, n: nat, leaf: nat -> Word) {
    && Mapped(t, t', v, n, leaf) && Grew(t, b, t', b', Missing(t, v, n))
    && (n > 0 ==> v + n <= ALL_PAGES) && (forall q: nat {:trigger Vacant(t, q)} | v <= q < v + n :: Vacant(t, q))
  }

  ghost predicate Vacant(t: Tables, q: nat) {
    Entry(t, 3, q) == 0
  }

  lemma MappedAllNone(t: Tables, b: Ledger, v: nat, leaf: nat -> Word)
    requires WellFormed(t)
    ensures MappedAll(t, b, t, b, v, 0, leaf)
  {
    MappedNone(t, v, leaf);
    GrewNone(t, b);
  }

  lemma MappedAllMore(t: Tables, b: Ledger, t1: Tables, b1: Ledger, t2: Tables, b2: Ledger,
                      v: nat, k: nat, leaf: nat -> Word)
    ensures MappedAll(t, b, t1, b1, v, k, leaf) && MappedOne(t1, b1, t2, b2, v + k, leaf(k))
            ==> MappedAll(t, b, t2, b2, v, k + 1, leaf)
  {
    if MappedAll(t, b, t1, b1, v, k, leaf) && MappedOne(t1, b1, t2, b2, v + k, leaf(k)) {
      MappedMore(t, t1, t2, v, k, leaf);
      GrewNext(t, b, t1, b1, t2, b2, v, k);
      SamePage(t, t1, v, k, leaf);
    }
  }

  lemma GrewNext(t: Tables, b: Ledger, t1: Tables, b1: Ledger, t2: Tables, b2: Ledger, v: nat, k: nat)
    requires UpperMapped(t, t1, v, k)
    requires Grew(t, b, t1, b1, Missing(t, v, k)) && Grew(t1, b1, t2, b2, MissingAt(t1, v + k))
    ensures Grew(t, b, t2, b2, Missing(t, v, k + 1))
  {
    MissingMore(t, t1, v, k);
    GrewMore(t, b, t1, b1, t2, b2, Missing(t, v, k), MissingAt(t1, v + k));
  }

  /** What is wrong with page `k` of a region: its physical address overflows, it is refused, or there is not
      enough memory for the tables missing up to it. */
  ghost function PageFault(t: Tables, b: Ledger, paddr: nat, v: nat, k: nat): Option<Fault> {
    if paddr + k * PAGE_SIZE >= 0x1_0000_0000_0000_0000 then Some(Overflow)
    else match Refusal(t, v + k)
      case Some(f) => Some(f)
      case None => if FreePages(b) < Missing(t, v, k + 1) then Some(OutOfMemory) else None
  }

  ghost predicate NoFault(t: Tables, b: Ledger, paddr: nat, v: nat, n: nat) {
    forall k: nat | k < n :: PageFault(t, b, paddr, v, k) == None
  }

  /** The first page with something wrong is one of the `n`, and `f` is what is wrong with it. */
  ghost predicate FirstFault(t: Tables, b: Ledger, paddr: nat, v: nat, n: nat, f: Fault) {
    exists k: nat :: k < n && NoFault(t, b, paddr, v, k) && PageFault(t, b, paddr, v, k) == Some(f)
  }

  /** What happens to page `k` when it is its turn. */
  ghost predicate Turns(r: Result<()>, t1: Tables, b1: Ledger, paddr: nat, v: nat, k: nat) {
    if paddr + k * PAGE_SIZE >= 0x1_0000_0000_0000_0000 then r == Panic(Overflow)
    else Settled(r, t1, b1, v + k)
  }

  /** That could be told before the first page was mapped. */
  lemma ToldBefore(t: Tables, b: Ledger, t1: Tables, b1: Ledger, paddr: nat, v: nat, k: nat, leaf: nat -> Word,
                   r: Result<()>)
    requires MappedAll(t, b, t1, b1, v, k, leaf) && Turns(r, t1, b1, paddr, v, k)
    ensures PageFault(t, b, paddr, v, k) == if r.Ok? then None else Some(r.fault)
  {
    SameRefusal(t, t1, v, k, leaf);
    SameShort(t, b, t1, b1, v, k, leaf);
    SameTurn(t, b, t1, b1, paddr, v, k, r);
  }

  lemma SameShort(t: Tables, b: Ledger, t1: Tables, b1: Ledger, v: nat, k: nat, leaf: nat -> Word)
    requires MappedAll(t, b, t1, b1, v, k, leaf)
    ensures Short(t1, b1, v + k) <==> FreePages(b) < Missing(t, v, k + 1)
  {
    MissingMore(t, t1, v, k);
    AllocsFree(b, b1, Missing(t, v, k));
  }

  lemma SameTurn(t: Tables, b: Ledger, t1: Tables, b1: Ledger, paddr: nat, v: nat, k: nat, r: Result<()>)
    requires Refusal(t1, v + k) == Refusal(t, v + k) && Turns(r, t1, b1, paddr, v, k)
    requires Short(t1, b1, v + k) <==> FreePages(b) < Missing(t, v, k + 1)
    ensures PageFault(t, b, paddr, v, k) == if r.Ok? then None else Some(r.fault)
  {}

  /** What the answer for page `k` says about the `n` pages. */
  lemma FaultSoFar(t: Tables, b: Ledger, t1: Tables, b1: Ledger, paddr: nat, v: nat, k: nat, n: nat,
                   leaf: nat -> Word, r: Result<()>)
    requires NoFault(t, b, paddr, v, k) && k < n && MappedAll(t, b, t1, b1, v, k, leaf) && Turns(r, t1, b1, paddr, v, k)
    ensures r.Ok? ==> NoFault(t, b, paddr, v, k + 1)
    ensures r.Panic? ==> FirstFault(t, b, paddr, v, n, r.fault) && r.fault !in {BadSize, OutOfVirtualMemory, BadNode}
  {
    ToldBefore(t, b, t1, b1, paddr, v, k, leaf, r);
  }

  /** Why a mapping fails, told from the tables and the ledger before it: for a size that is not whole pages, for
      want of a hole, or for what is wrong with the first page with something wrong. */
  ghost predicate VmapFails(t: Tables, b: Ledger, paddr: nat, size: nat, f: Fault) {
    var hole, n := FindHole(ShapeOf(t), VMAP_START, size), size / PAGE_SIZE;
    match f
    case BadSize => size % PAGE_SIZE != 0
    case OutOfVirtualMemory => hole == None
    case _ => hole.Some? && FirstFault(t, b, paddr, hole.value / PAGE_SIZE, n, f)
  }

  /** Whatever the tables, a mapping into a safe hole fails only for its arguments or for lack of memory. */
  lemma HoleFaults(t: Tables, b: Ledger, paddr: nat, size: nat, f: Fault)
    requires WellFormed(t) && VmapFails(t, b, paddr, size, f)
    requires (var hole := FindHole(ShapeOf(t), VMAP_START, size); hole.Some? ==> SafeHole(hole.value, PagesFor(size)))
    ensures f in {BadSize, OutOfVirtualMemory, Overflow, OutOfMemory}
  {
    var hole, n := FindHole(ShapeOf(t), VMAP_START, size), size / PAGE_SIZE;
    if hole.Some? && FirstFault(t, b, paddr, hole.value / PAGE_SIZE, n, f) {
      ShapeOfOk(t);
      HoleSound(ShapeOf(t), VMAP_START, size);
      FreeFaults(t, b, paddr, hole.value / PAGE_SIZE, PagesFor(size), n, f);
    }
  }

  /** So does any mapping of up to 2 MB, */
  lemma SafeFaults(t: Tables, b: Ledger, paddr: nat, size: nat, f: Fault)
    requires WellFormed(t) && VmapFails(t, b, paddr, size, f) && (size <= SLOT || size > USER_TOP)
    ensures f in {BadSize, OutOfVirtualMemory, Overflow, OutOfMemory}
  {
    if size > USER_TOP {
      TooLarge(ShapeOf(t), VMAP_START, size);
    } else if FindHole(ShapeOf(t), VMAP_START, size).Some? {
      ShapeOfOk(t);
      SmallIsSafe(ShapeOf(t), size);
    }
    HoleFaults(t, b, paddr, size, f);
  }

  /** Given three free pages for every page to be mapped, such a mapping of whole pages of physical memory fails
      only for want of a hole. */
  lemma EnoughMemory(t: Tables, b: Ledger, paddr: nat, size: nat, f: Fault)
    requires WellFormed(t) && VmapFails(t, b, paddr, size, f) && (size <= SLOT || size > USER_TOP)
    requires size % PAGE_SIZE == 0 && paddr + size <= 0x1_0000_0000_0000_0000 && 3 * (size / PAGE_SIZE) <= FreePages(b)
    ensures f == OutOfVirtualMemory
  {
    SafeFaults(t, b, paddr, size, f);
    if f != OutOfVirtualMemory {
      NoShortage(t, b, paddr, FindHole(ShapeOf(t), VMAP_START, size).value / PAGE_SIZE, size / PAGE_SIZE, f);
    }
  }

  lemma NoShortage(t: Tables, b: Ledger, paddr: nat, v: nat, n: nat, f: Fault)
    requires FirstFault(t, b, paddr, v, n, f)
    requires 3 * n <= FreePages(b) && paddr + n * PAGE_SIZE <= 0x1_0000_0000_0000_0000
    ensures f != Overflow && f != OutOfMemory
  {
    var k: nat :| k < n && NoFault(t, b, paddr, v, k) && PageFault(t, b, paddr, v, k) == Some(f);
    PageShortage(t, b, paddr, v, k);
  }

  lemma PageShortage(t: Tables, b: Ledger, paddr: nat, v: nat, k: nat)
    requires 3 * (k + 1) <= FreePages(b) && paddr + k * PAGE_SIZE < 0x1_0000_0000_0000_0000
    ensures PageFault(t, b, paddr, v, k) == Refusal(t, v + k)
  {
    MissingBound(t, v, k + 1);
  }

  /** In a free region nothing but an overflow or a lack of memory can be wrong. */
  lemma FreeFaults(t: Tables, b: Ledger, paddr: nat, v: nat, n: nat, m: nat, f: Fault)
    requires WellFormed(t) && PagesFree(ShapeOf(t), v, n) && m <= n && FirstFault(t, b, paddr, v, m, f)
    ensures f == Overflow || f == OutOfMemory
  {
    var k: nat :| k < m && NoFault(t, b, paddr, v, k) && PageFault(t, b, paddr, v, k) == Some(f);
    FreePageRefusal(t, v, n, v + k);
  }

  lemma FreePageRefusal(t: Tables, v: nat, n: nat, q: nat)
    requires WellFormed(t) && PagesFree(ShapeOf(t), v, n) && v <= q < v + n
    ensures Refusal(t, q) == None
  {
    FreePage(ShapeOf(t), v, n, q);
    FreeRefusal(t, q);
  }

  /** A user page in an unused slot is not refused. */
  lemma FreeRefusal(t: Tables, q: nat)
    requires WellFormed(t) && q < ALL_PAGES && !SlotUsed(ShapeOf(t), q / 512)
    ensures Refusal(t, q) == None
  {
    UnusedUnmapped(t, q);
    SlotWay(q);
    BlockLevels(t, q);
  }

  /** Mapping the pages before it changes nothing about page `k`. */
  lemma SameRefusal(t: Tables, t1: Tables, v: nat, k: nat, leaf: nat -> Word)
    requires Mapped(t, t1, v, k, leaf)
    ensures Refusal(t1, v + k) == Refusal(t, v + k)
  {
    SamePage(t, t1, v, k, leaf);
    MappedBlocks(t, t1, v, k, v + k);
    SameSight(t, t1, v + k);
  }

  lemma SameSight(t: Tables, t1: Tables, q: nat)
    requires BlockOnWay(t1, q) == BlockOnWay(t, q) && Entry(t1, 3, q) == Entry(t, 3, q)
    ensures Refusal(t1, q) == Refusal(t, q)
  {}

  /** and no larger one: for every other size there are tables on which `vmap` gets an answer and must fail,
      whatever is to be mapped. */
  lemma UnsafeStart(n: nat) returns (t: Tables)
    requires 512 < n <= ALL_PAGES
    ensures WellFormed(t) && FindHole(ShapeOf(t), VMAP_START, n * PAGE_SIZE).Some?
    ensures forall b, paddr: nat ::
              !NoFault(t, b, paddr, FindHole(ShapeOf(t), VMAP_START, n * PAGE_SIZE).value / PAGE_SIZE, n)
  {
    t := FullTree();
    LargeIsUnsafe(n);
    var v := FindHole(ShapeOf(t), VMAP_START, n * PAGE_SIZE).value / PAGE_SIZE;
    forall b, paddr: nat ensures !NoFault(t, b, paddr, v, n) {
      assert PageFault(t, b, paddr, v, n - 1) != None;
    }
  }

  /** From 768 MB on that can be memory that is mapped. */
  lemma CollidingStart(n: nat) returns (t: Tables)
    requires n <= ALL_PAGES && !SafeHole(VMAP_START, n) && VMAP_START / PAGE_SIZE + n <= ALL_PAGES
    ensures WellFormed(t) && FindHole(ShapeOf(t), VMAP_START, n * PAGE_SIZE) == Some(VMAP_START)
    ensures exists q: nat :: VMAP_START / PAGE_SIZE <= q < VMAP_START / PAGE_SIZE + n && Translate(t, q).Some?
  {
    t := UnsafeAnswer(VMAP_START, n);
  }

  lemma FreePage(f: Shape, v: nat, n: nat, q: nat)
    requires PagesFree(f, v, n) && v <= q < v + n
    ensures q < ALL_PAGES && !SlotUsed(f, q / 512)
  {}

  lemma SamePage(t: Tables, t1: Tables, v: nat, k: nat, leaf: nat -> Word)
    requires Mapped(t, t1, v, k, leaf)
    ensures Entry(t1, 3, v + k) == Entry(t, 3, v + k)
  {
    assert PageEntry(t, t1, v, k, leaf, v + k);
  }

  lemma SlotWay(q: nat)
    ensures Up(q, 2) == q / 512 && Up(q, 1) == q / 512 / 512 && Up(q, 0) == q / 512 / 512 / 512
  {}

  lemma IndexParts(prefix: nat, i: nat)
    requires i < 512
    ensures (prefix * 512 + i) / 512 == prefix && (prefix * 512 + i) % 512 == i
  {}

  class AddressSpace {
    const root: nat
    const pages: BitmapPageAlloc
    ghost const layout: Layout
    /** The tables in physical memory, by address. */
    var mem: map<nat, Table>
    /** The tables with the place of each in the tree, and who owns which page. */
    ghost var tree: Tables
    ghost var ledger: Ledger

    ghost predicate InOrder()
      reads this
    {
      tree.mem == mem && tree.root == root && WellFormed(tree)
    }

    ghost predicate Valid()
      reads this, pages, pages.bitmap, pages.bitmap.cells
    {
      && pages.Valid() && InOrder()
      && Consistent(layout, ledger) && ledger.heap == pages.View()
      && TablesOwned(tree, ledger)
    }

    /** A thread's tables as they stand, whatever was mapped before. */
    constructor (root: nat, pages: BitmapPageAlloc, mem: map<nat, Table>,
                 ghost layout: Layout, ghost tree: Tables, ghost ledger: Ledger)
      requires pages.Valid() && tree.mem == mem && tree.root == root && WellFormed(tree)
      requires Consistent(layout, ledger) && ledger.heap == pages.View() && TablesOwned(tree, ledger)
      ensures Valid() && this.tree == tree
      ensures this.pages == pages && this.layout == layout && this.ledger == ledger
    {
      this.root, this.pages, this.mem := root, pages, mem;
      this.layout, this.tree, this.ledger := layout, tree, ledger;
    }

    /** What entry `idx` of the table at `a` is, and where it points if it is a table. */
    method Get(a: nat, idx: nat) returns (kind: EntryKind, ptr: nat)
      requires a in mem && idx < 512
      ensures kind == KindOf(mem[a][idx]) && ptr == Ptr(mem[a][idx])
    {
      var raw := mem[a][idx];
      KindIsMask(raw);
      PtrIsMask(raw);
      kind := if raw == 0 then Free else if And(raw, 0x3) == PT_BLOCK then Block else EntryKind.Table;
      ptr := And(raw, ADDR_MASK);
    }

    /** The table behind entry `idx` of the table at `a`, linked in first if the entry is zero. */
    method GetMutOrAlloc(a: nat, idx: nat, ghost level: nat, ghost q: nat) returns (r: Result<nat>)
      requires Valid() && level < 3 && Here(tree, level, q) && tree.at[Pos(level, q / 512)] == a && idx == q % 512
      modifies this, pages, pages.bitmap, pages.bitmap.cells
      ensures Valid()
      ensures r.Ok? ==> Linking(old(tree), old(ledger), tree, ledger, level, q, r.value)
      ensures r.Panic? ==> tree == old(tree) && ledger == old(ledger)
      ensures r.Panic? ==> r.fault == OutOfMemory || r.fault == BlockInTheWay
      ensures r == Panic(OutOfMemory) ==> ledger.heap.Grab(1) == None && Entry(tree, level, q) == 0
      ensures r == Panic(BlockInTheWay) ==> KindOf(Entry(tree, level, q)) == Block
    {
      var kind, ptr := Get(a, idx);
      match kind
      case Free => r := LinkTable(a, idx, level, q);
      case Block => r := Panic(BlockInTheWay);
      case Table =>
        FollowOpens(tree, ledger, level, q);
        r := Ok(ptr);
    }

    /** A zeroed page from the allocator, its address stored in the zero entry `idx`. */
    method LinkTable(a: nat, idx: nat, ghost level: nat, ghost q: nat) returns (r: Result<nat>)
      requires Valid() && level < 3 && Here(tree, level, q) && tree.at[Pos(level, q / 512)] == a && idx == q % 512
      requires mem[a][idx] == 0
      modifies this, pages, pages.bitmap, pages.bitmap.cells
      ensures Valid()
      ensures r.Ok? ==> Linking(old(tree), old(ledger), tree, ledger, level, q, r.value)
      ensures r.Panic? ==> r.fault == OutOfMemory && ledger.heap.Grab(1) == None
      ensures r.Panic? ==> tree == old(tree) && ledger == old(ledger)
    {
      ghost var b := ledger;
      var page := NewTable();
      if page.None? {
        return Panic(OutOfMemory);
      }
      StoreTable(a, idx, page.value, level, q, b);
      r := Ok(page.value);
    }

    /** A page for a table: its physical address. */
    method NewTable() returns (r: Option<nat>)
      requires Valid()
      modifies this`ledger, pages, pages.bitmap, pages.bitmap.cells
      ensures Valid()
      ensures r.None? ==> ledger == old(ledger) && ledger.heap.Grab(1) == None
      ensures r.Some? ==> PageTaken(old(ledger), ledger, tree, r.value)
    {
      var slice := pages.Alloc(1);
      if slice.None? {
        return None;
      }
      TakeStep(layout, ledger, tree);
      r := Some(FromVirt(slice.value.addr));
      ledger := Allocated(ledger, slice.value);
    }

    /** Pages for a buffer. Its owner never gives them back. */
    method NewBuffer(n: nat) returns (r: Option<PageSlice>)
      requires Valid()
      modifies this`ledger, pages, pages.bitmap, pages.bitmap.cells
      ensures Valid()
      ensures r == old(ledger).heap.Grab(n)
      ensures r.None? ==> ledger == old(ledger)
      ensures r.Some? ==> old(ledger).heap.base <= r.value.addr && ledger == Allocated(old(ledger), r.value)
    {
      r := pages.Alloc(n);
      if r.Some? {
        BufferStep(layout, ledger, tree, n);
        ledger := Allocated(ledger, r.value);
      }
    }

    /** Memory for the allocator. */
    method AddMemory(l: Layout, physAddr: nat, len: nat) returns (ok: bool)
      requires Valid() && l == layout
      modifies this`ledger, pages, pages.bitmap, pages.bitmap.cells
      ensures ok <==> NodeFits(l, old(ledger).heap, Virt(physAddr), len)
      ensures ok ==> Added(l, old(ledger).heap, Virt(physAddr), len).Some?
      ensures ok ==> ledger == Grown(l, old(ledger), Virt(physAddr), len) && ledger.heap == pages.View()
      ensures ok && NodeKeeps(l, old(ledger), Virt(physAddr), len) ==> Valid()
    {
      ok := pages.AddMemoryNode(l, physAddr, len);
      if ok {
        if NodeKeeps(l, ledger, Virt(physAddr), len) { NodeStep(layout, ledger, tree, Virt(physAddr), len); }
        ledger := Grown(l, ledger, Virt(physAddr), len);
      }
    }

    method StoreTable(a: nat, idx: nat, phys: nat, ghost level: nat, ghost q: nat, ghost b: Ledger)
      requires Valid() && level < 3 && Here(tree, level, q) && tree.at[Pos(level, q / 512)] == a && idx == q % 512
      requires mem[a][idx] == 0 && PageTaken(b, ledger, tree, phys)
      modifies this`mem, this`tree
      ensures Valid() && Linking(old(tree), b, tree, ledger, level, q, phys)
    {
      var e := Encode(phys);
      LinkStep(b, ledger, tree, level, q, phys, e);
      mem := mem[a := mem[a][idx := e]][phys := ZeroTable()];
      tree := Linked(tree, level, q, phys, e);
    }

    method Encode(phys: nat) returns (e: Word)
      requires phys < REACH && phys % PAGE_SIZE == 0
      ensures IsTableEntry(e) && KindOf(e) == EntryKind.Table && Ptr(e) == phys
    {
      OrFlags(phys, TABLE_FLAGS);
      TableEntryDecodes(phys);
      e := TableEntry(phys);
    }

    /** The tables on the way to a user address, linked in where they are missing; the last of them. */
    method OpenPath(vaddr: nat, ghost v: nat) returns (r: Result<nat>)
      requires Valid() && vaddr < USER_TOP && v == vaddr / PAGE_SIZE
      modifies this, pages, pages.bitmap, pages.bitmap.cells
      ensures Valid()
      ensures r.Ok? ==> PathOpen(old(tree), old(ledger), tree, ledger, v)
      ensures r.Ok? ==> Here(tree, 3, v) && tree.at[Pos(3, v / 512)] == r.value
      ensures r.Panic? ==> r.fault == OutOfMemory || r.fault == BlockInTheWay
      ensures r == Panic(OutOfMemory) ==> Short(old(tree), old(ledger), v) && Entry(old(tree), 3, v) == 0
      ensures r == Panic(BlockInTheWay) <==> BlockOnWay(old(tree), v)
    {
      AddressSteps(vaddr);
      ghost var t0, b0 := tree, ledger;
      StopsAtTop(t0, v);
      GrewNone(t0, b0);
      r := GetMutOrAlloc(root, vaddr / 0x80_0000_0000, 0, Up(v, 0));
      if r.Panic? {
        RunsDry(t0, b0, t0, b0, 0, v);
        return;
      }
      ghost var t1, b1 := tree, ledger;
      StopsAtOne(t0, t1, v);
      r := GetMutOrAlloc(r.value, vaddr / 0x4000_0000 % 512, 1, Up(v, 1));
      if r.Panic? {
        RunsDry(t0, b0, t1, b1, Gap(t0, 0, Up(v, 0)), v);
        return;
      }
      ghost var t2, b2 := tree, ledger;
      StopsAtTwo(t0, t1, t2, v);
      r := GetMutOrAlloc(r.value, vaddr / 0x20_0000 % 512, 2, Up(v, 2));
      if r.Panic? {
        RunsDryAgain(t0, b0, t1, b1, t2, b2, Gap(t0, 0, Up(v, 0)), Gap(t1, 1, Up(v, 1)), v);
        return;
      }
      ThreeLinks(t0, b0, t1, b1, t2, b2, tree, ledger, v);
      PathClear(t0, tree, v);
    }

    /** One page, with page number `v`. */
    method VmapAt(vaddr: nat, paddr: nat, attrs: Word, ghost v: nat) returns (r: Result<()>)
      requires Valid() && paddr < 0x1_0000_0000_0000_0000 && v == vaddr / PAGE_SIZE
      modifies this, pages, pages.bitmap, pages.bitmap.cells
      ensures Valid()
      ensures r.Ok? ==> MappedOne(old(tree), old(ledger), tree, ledger, v, Leaf(paddr, attrs))
      ensures vaddr % PAGE_SIZE != 0 ==> r == Panic(BadAddress)
      ensures vaddr % PAGE_SIZE == 0 ==> Settled(r, old(tree), old(ledger), v)
    {
      ghost var t0, b0 := tree, ledger;
      r := MapLeaf(vaddr, Leaf(paddr, attrs), v);
      NotShort(t0, b0, tree, ledger, v, Leaf(paddr, attrs));
    }

    method MapLeaf(vaddr: nat, e: Word, ghost v: nat) returns (r: Result<()>)
      requires Valid() && v == vaddr / PAGE_SIZE
      modifies this, pages, pages.bitmap, pages.bitmap.cells
      ensures Valid()
      ensures r.Ok? ==> MappedOne(old(tree), old(ledger), tree, ledger, v, e)
      ensures vaddr % PAGE_SIZE != 0 ==> r == Panic(BadAddress)
      ensures vaddr % PAGE_SIZE == 0 ==> Answers(r, Refusal(old(tree), v))
      ensures r == Panic(OutOfMemory) ==> Short(old(tree), old(ledger), v)
    {
      if vaddr >= USER_TOP || vaddr % PAGE_SIZE != 0 {
        return Panic(BadAddress);
      }
      ghost var t0, b0 := tree, ledger;
      var l3 := OpenPath(vaddr, v);
      if l3.Panic? {
        return Panic(l3.fault);
      }
      var idx := vaddr / 0x1000 % 512;
      assert Entry(tree, 3, v) == mem[l3.value][idx];
      if mem[l3.value][idx] != 0 {
        return Panic(AlreadyMapped);
      }
      StoreLeaf(l3.value, idx, e, v, t0, b0);
      r := Ok(());
    }

    method StoreLeaf(a: nat, idx: nat, e: Word, ghost v: nat, ghost t0: Tables, ghost b0: Ledger)
      requires Valid() && PathOpen(t0, b0, tree, ledger, v) && v < ALL_PAGES
      requires Here(tree, 3, v) && tree.at[Pos(3, v / 512)] == a && idx == v % 512 && Entry(tree, 3, v) == 0
      modifies this`mem, this`tree
      ensures Valid() && MappedOne(t0, b0, tree, ledger, v, e)
    {
      MapOne(t0, tree, v, e);
      LeafOwned(tree, ledger, v, e);
      LeafGrew(t0, b0, tree, ledger, v, e, MissingAt(t0, v));
      mem := mem[a := mem[a][idx := e]];
      tree := WithLeaf(tree, v, e);
    }

    /** The last-level table on the way to a user address, if it is there. */
    method FindTable(vaddr: nat, ghost v: nat) returns (r: Result<Option<nat>>)
      requires InOrder() && vaddr < USER_TOP && v == vaddr / PAGE_SIZE
      ensures match r
              case Ok(None) => Entry(tree, 3, v) == 0 && !BlockOnWay(tree, v)
              case Ok(Some(a)) => Here(tree, 3, v) && tree.at[Pos(3, v / 512)] == a && !BlockOnWay(tree, v)
              case Panic(f) => f == BlockInTheWay && BlockOnWay(tree, v)
    {
      AddressSteps(vaddr);
      BelowFree(tree, 0, Up(v, 0));
      BelowFree(tree, 1, Up(v, 1));
      BelowFree(tree, 2, Up(v, 2));
      BlockLevels(tree, v);
      var kind, l1 := Get(root, vaddr / 0x80_0000_0000);
      if kind == Free { return Ok(None); }
      if kind == Block { return Panic(BlockInTheWay); }
      var l2;
      kind, l2 := Get(l1, vaddr / 0x4000_0000 % 512);
      if kind == Free { return Ok(None); }
      if kind == Block { return Panic(BlockInTheWay); }
      var l3;
      kind, l3 := Get(l2, vaddr / 0x20_0000 % 512);
      if kind == Free { return Ok(None); }
      if kind == Block { return Panic(BlockInTheWay); }
      r := Ok(Some(l3));
    }

    method VunmapSingle(vaddr: nat, ghost v: nat) returns (r: Result<()>)
      requires Valid() && v == vaddr / PAGE_SIZE
      modifies this`mem, this`tree
      ensures Valid()
      ensures r.Ok? ==> Removed(old(tree), tree, v, 1) && !BlockOnWay(old(tree), v)
      ensures r == Panic(BadAddress) <==> !(vaddr < USER_TOP && vaddr % PAGE_SIZE == 0)
      ensures r.Panic? ==> tree == old(tree) && r.fault in {BadAddress, BlockInTheWay}
      ensures r == Panic(BlockInTheWay) ==> BlockOnWay(tree, v)
    {
      if vaddr >= USER_TOP || vaddr % PAGE_SIZE != 0 {
        return Panic(BadAddress);
      }
      RemovedNone(tree, v);
      var found := FindTable(vaddr, v);
      match found
      case Panic(f) => r := Panic(f);
      case Ok(None) => r := Ok(());
      case Ok(Some(l3)) =>
        RemoveOne(tree, v);
        LeafOwned(tree, ledger, v, 0);
        mem := mem[l3 := mem[l3][vaddr / 0x1000 % 512 := 0]];
        tree := WithLeaf(tree, v, 0);
        r := Ok(());
    }

    /** What the search sees in entry `idx` of the table at `a`, and the table below it. */
    method Look(a: nat, idx: nat, level: nat, ghost q: nat) returns (kind: EntryKind, ptr: nat)
      requires InOrder() && level <= 2 && Here(tree, level, q) && tree.at[Pos(level, q / 512)] == a && idx == q % 512
      ensures kind == KindAt(ShapeOf(tree), level, q)
      ensures kind == EntryKind.Table ==> level < 2 && Pos(level + 1, q) in tree.at && tree.at[Pos(level + 1, q)] == ptr
    {
      if level != 2 {
        kind, ptr := Get(a, idx);
        BelowFree(tree, level, q);
      } else {
        kind, ptr := if mem[a][idx] == 0 then Free else Block, 0;
      }
    }

    /** One turn of the measuring loop: the answer, or the kind as which entry `idx` counts as a whole. */
    method MeasureTurn(a: nat, idx: nat, cur: nat, len: nat, alloc: bool, maxAlloc: nat, maxFree: nat,
                       level: nat, ghost prefix: nat) returns (r: Option<Region>, kind: bool)
      requires InOrder() && level <= 2 && idx < 512 && Pos(level, prefix) in tree.at && tree.at[Pos(level, prefix)] == a
      ensures MeasureFrom(ShapeOf(tree), level, prefix, idx, cur, len, alloc, maxAlloc, maxFree) ==
              if r.Some? then r.value
              else MeasureNext(ShapeOf(tree), level, prefix, idx, cur, len, kind, maxAlloc, maxFree)
      decreases 2 - level, 0
    {
      IndexParts(prefix, idx);
      var entry, ptr := Look(a, idx, level, prefix * 512 + idx);
      match entry {
        case Block =>
          if !alloc && len != 0 { return Some(Region(false, len)), alloc; }
          return None, true;
        case Free =>
          if alloc && len != 0 { return Some(Region(true, len)), alloc; }
          return None, false;
        case Table =>
          var expected := (512 - IndexAt(cur, level + 1)) * CountAt(level + 1);
          var inner := MeasureHelper(ptr, cur, maxAlloc, maxFree, level + 1, prefix * 512 + idx);
          if inner.used {
            if !alloc && len != 0 { return Some(Region(false, len)), alloc; }
            if inner.len != expected { return Some(Region(true, len + inner.len)), alloc; }
            return None, true;
          } else {
            if alloc && len != 0 { return Some(Region(true, len)), alloc; }
            if inner.len != expected { return Some(Region(false, len + inner.len)), alloc; }
            return None, false;
          }
      }
    }

    /** Measures the stretch of free or used memory that starts at `start`, within one table. */
    method MeasureHelper(a: nat, start: nat, maxAlloc: nat, maxFree: nat, level: nat, ghost prefix: nat)
      returns (r: Region)
      requires InOrder() && level <= 2 && Pos(level, prefix) in tree.at && tree.at[Pos(level, prefix)] == a
      ensures r == Measure(ShapeOf(tree), level, prefix, start, maxAlloc, maxFree)
      decreases 2 - level, 1
    {
      var cur: nat, len: nat, alloc := start, 0, false;
      var idx := cur / Span(level) % 512;
      while idx < 512
        invariant idx <= 512
        invariant MeasureFrom(ShapeOf(tree), level, prefix, idx, cur, len, alloc, maxAlloc, maxFree)
               == Measure(ShapeOf(tree), level, prefix, start, maxAlloc, maxFree)
      {
        var done, kind := MeasureTurn(a, idx, cur, len, alloc, maxAlloc, maxFree, level, prefix);
        if done.Some? {
          return done.value;
        }
        alloc, len, cur := kind, len + CountAt(level), cur + CountAt(level);
        if alloc && len >= maxAlloc {
          return Region(true, len);
        } else if !alloc && len >= maxFree {
          return Region(false, len);
        }
        idx := idx + 1;
      }
      r := Region(alloc, len);
    }

    method FindHoleFrom(start: nat, size: nat) returns (r: Option<nat>)
      requires InOrder()
      ensures r == FindHole(ShapeOf(tree), start, size)
    {
      ghost var f := ShapeOf(tree);
      var cur := start;
      while cur < USER_TOP
        invariant FindHole(f, cur, size) == FindHole(f, start, size)
      {
        var region := MeasureHelper(root, cur, USIZE_MAX, size, 0, 0);
        FindHoleStep(f, cur, size);
        if !region.used && region.len >= size {
          return Some(cur);
        }
        cur := cur + region.len;
      }
      r := None;
    }

    /** Unmaps the pages of `size` bytes from `vaddr` on. */
    method Vunmap(vaddr: nat, size: nat) returns (r: Result<()>)
      requires Valid()
      modifies this`mem, this`tree
      ensures Valid()
      ensures r.Ok? ==> RemovedAll(old(tree), tree, vaddr / PAGE_SIZE, PagesFor(size))
      ensures r.Ok? ==> UserRange(vaddr, PagesFor(size))
      ensures r.Panic? ==> r.fault in {BadAddress, BlockInTheWay}
      ensures r == Panic(BadAddress) ==> !UserRange(vaddr, PagesFor(size))
      ensures r == Panic(BlockInTheWay) ==> Blocked(old(tree), vaddr / PAGE_SIZE, PagesFor(size))
    {
      ghost var t0, v := tree, vaddr / PAGE_SIZE;
      RemovedAllNone(t0, v);
      var k: nat := 0;
      while k * PAGE_SIZE < size
        invariant Valid() && k <= PagesFor(size) && RemovedAll(t0, tree, v, k) && UserRange(vaddr, k)
        decreases PagesFor(size) - k
      {
        PageStep(vaddr, k, size);
        r := VunmapNext(vaddr, k, v, t0);
        if r.Panic? {
          if r.fault == BlockInTheWay {
            BlockedLonger(t0, v, k + 1, PagesFor(size));
          } else if UserRange(vaddr, PagesFor(size)) {
            UserRangeShorter(vaddr, k + 1, PagesFor(size));
          }
          return;
        }
        k := k + 1;
      }
      r := Ok(());
    }

    method VunmapNext(vaddr: nat, k: nat, ghost v: nat, ghost t0: Tables) returns (r: Result<()>)
      requires Valid() && v == vaddr / PAGE_SIZE && RemovedAll(t0, tree, v, k)
      modifies this`mem, this`tree
      ensures Valid()
      ensures r.Ok? ==> RemovedAll(t0, tree, v, k + 1) && UserRange(vaddr, k + 1)
      ensures r.Panic? ==> r.fault in {BadAddress, BlockInTheWay}
      ensures r == Panic(BadAddress) ==> !UserRange(vaddr, k + 1)
      ensures r == Panic(BlockInTheWay) ==> Blocked(t0, v, k + 1)
    {
      ghost var t1 := tree;
      PageStep(vaddr, k, k * PAGE_SIZE + 1);
      r := VunmapSingle(vaddr + k * PAGE_SIZE, v + k);
      RemovedAllMore(t0, t1, tree, v, k);
      RemovedStuck(t0, t1, v, k);
    }

    /** Maps a physical region to a free virtual region of its choice. */
    method Vmap(paddr: nat, size: nat, attrs: Word) returns (r: Result<Word>)
      requires Valid() && paddr < 0x1_0000_0000_0000_0000
      modifies this, pages, pages.bitmap, pages.bitmap.cells
      ensures Valid()
      ensures r.Ok? ==> size % PAGE_SIZE == 0 && FindHole(ShapeOf(old(tree)), VMAP_START, size) == Some(r.value)
      ensures r.Ok? ==> NoFault(old(tree), old(ledger), paddr, r.value / PAGE_SIZE, size / PAGE_SIZE)
      ensures r.Ok? ==> MappedAll(old(tree), old(ledger), tree, ledger, r.value / PAGE_SIZE, size / PAGE_SIZE,
                                  Leaves(paddr, attrs))
      ensures r.Panic? ==> VmapFails(old(tree), old(ledger), paddr, size, r.fault)
    {
      if size % PAGE_SIZE != 0 {
        return Panic(BadSize);
      }
      var hole := FindHoleFrom(VMAP_START, size);
      if hole.None? {
        return Panic(OutOfVirtualMemory);
      }
      FindHoleAnswer(ShapeOf(tree), VMAP_START, size);
      var f := VmapPages(hole.value, paddr, size / PAGE_SIZE, attrs, hole.value / PAGE_SIZE);
      r := if f.Panic? then Panic(f.fault) else Ok(hole.value);
    }

    /** Maps `n` pages one after the other. */
    method VmapPages(vaddr: nat, paddr: nat, n: nat, attrs: Word, ghost v: nat) returns (r: Result<()>)
      requires Valid() && v == vaddr / PAGE_SIZE && vaddr % PAGE_SIZE == 0
      modifies this, pages, pages.bitmap, pages.bitmap.cells
      ensures Valid()
      ensures r.Ok? ==> NoFault(old(tree), old(ledger), paddr, v, n)
      ensures r.Ok? ==> MappedAll(old(tree), old(ledger), tree, ledger, v, n, Leaves(paddr, attrs))
      ensures r.Panic? ==> FirstFault(old(tree), old(ledger), paddr, v, n, r.fault)
      ensures r.Panic? ==> r.fault !in {BadSize, OutOfVirtualMemory, BadNode}
    {
      ghost var t0, b0, leaf := tree, ledger, Leaves(paddr, attrs);
      MappedAllNone(t0, b0, v, leaf);
      var k: nat := 0;
      while k < n
        invariant Valid() && k <= n && NoFault(t0, b0, paddr, v, k) && MappedAll(t0, b0, tree, ledger, v, k, leaf)
      {
        ghost var t1, b1 := tree, ledger;
        r := VmapPage(vaddr, paddr, attrs, k, v, leaf);
        FaultSoFar(t0, b0, t1, b1, paddr, v, k, n, leaf, r);
        MappedAllMore(t0, b0, t1, b1, tree, ledger, v, k, leaf);
        if r.Panic? {
          return;
        }
        k := k + 1;
      }
      r := Ok(());
    }

    /** Page `k` of a region, unless its physical address overflows. */
    method VmapPage(vaddr: nat, paddr: nat, attrs: Word, k: nat, ghost v: nat, ghost leaf: nat -> Word)
      returns (r: Result<()>)
      requires Valid() && v == vaddr / PAGE_SIZE && vaddr % PAGE_SIZE == 0 && leaf == Leaves(paddr, attrs)
      modifies this, pages, pages.bitmap, pages.bitmap.cells
      ensures Valid() && Turns(r, old(tree), old(ledger), paddr, v, k)
      ensures r.Ok? ==> MappedOne(old(tree), old(ledger), tree, ledger, v + k, leaf(k))
    {
      if paddr + k * PAGE_SIZE >= 0x1_0000_0000_0000_0000 {
        return Panic(Overflow);
      }
      LeafAt(vaddr, paddr, attrs, k);
      r := VmapAt(vaddr + k * PAGE_SIZE, paddr + k * PAGE_SIZE, attrs, v + k);
    }
  }
}
