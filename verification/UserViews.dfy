/** What the processor makes of a thread's tables over every run of system calls. */
module UserViews {
  import opened Wrappers
  import opened Words
  import opened Addresses
  import opened Ledgers
  import opened Descriptors
  import opened PageTables
  import opened Hardware
  import opened Mappings
  import opened HoleLimits
  import opened AddressSpaces
  import opened Syscalls
  import opened KernelRuns
  import opened VirtualRuns
  import opened TidyRuns

  lemma LeavesArePages(paddr: nat, attrs: Word, k: nat)
    ensures Leaves(paddr, attrs)(k) == 0 || Leaves(paddr, attrs)(k) % 4 == PT_PAGE
  {
    if paddr + k * PAGE_SIZE < 0x1_0000_0000_0000_0000 { LeafIsPage(paddr + k * PAGE_SIZE, attrs); }
  }

  lemma LeafOfIsPage(s: State, c: Call, k: nat)
    ensures LeafOf(s, c)(k) == 0 || LeafOf(s, c)(k) % 4 == PT_PAGE
  {
    match c
    case PhyMap(paddr, _, flags) => LeavesArePages(paddr, PhyMapAttrs(flags), k);
    case MemMap(len, flags) =>
      if Buffer(s.ledger, len).Some? {
        LeavesArePages(FromVirt(Buffer(s.ledger, len).value.addr), MemMapAttrs(flags), k);
      }
    case _ =>
  }

  lemma MappedGenuine(t: Tables, t': Tables, v: nat, n: nat, leaf: nat -> Word)
    requires Genuine(t) && Mapped(t, t', v, n, leaf)
    requires forall k: nat :: leaf(k) == 0 || leaf(k) % 4 == PT_PAGE
    ensures Genuine(t')
  {
    forall level: nat, q: nat | level < 3 ensures Entry(t', level, q) == 0 || IsTableEntry(Entry(t', level, q)) {
      assert UpperEntry(t, t', v, n, level, q);
    }
    forall q: nat ensures Entry(t', 3, q) == 0 || Entry(t', 3, q) % 4 == PT_PAGE {
      assert PageEntry(t, t', v, n, leaf, q);
    }
  }

  /** No call writes anything the processor reads in another way than the kernel. */
  lemma StepGenuine(l: Layout, s: State, c: Call, ret: Word, s': State)
    requires l.Valid() && CallStep(l, s, c, ret, s') && Genuine(s.tree)
    ensures Genuine(s'.tree)
  {
    if IsMap(c) {
      MapStepIs(l, s, c, ret, s');
      forall k: nat ensures LeafOf(s, c)(k) == 0 || LeafOf(s, c)(k) % 4 == PT_PAGE { LeafOfIsPage(s, c, k); }
      MappedGenuine(s.tree, s'.tree, ret / PAGE_SIZE, c.len / PAGE_SIZE, LeafOf(s, c));
    }
  }

  lemma {:induction false} RunGenuine(l: Layout, r: Run, k: nat)
    requires r.Valid(l) && Genuine(r.states[0].tree) && k <= |r.calls|
    ensures Genuine(r.states[k].tree)
  {
    if k > 0 {
      RunGenuine(l, r, k - 1);
      NextGenuine(l, r, k - 1);
    }
  }

  lemma NextGenuine(l: Layout, r: Run, k: nat)
    requires r.Valid(l) && k < |r.calls| && Genuine(r.states[k].tree)
    ensures Genuine(r.states[k + 1].tree)
  {
    assert r.At(l, k);
    StepGenuine(l, r.states[k], r.calls[k], r.rets[k], r.states[k + 1]);
  }

  /** Where the processor takes user address `va` after `k` calls. */
  function Seeing(r: Run, k: nat, va: nat): Option<Found>
    requires k < |r.states|
  {
    Resolve(r.states[k].tree.mem, r.states[k].tree.root, 0, va)
  }

  /** Over every run the processor takes each address where the history of calls says, with the attributes of
      the last call that covers its page. */
  lemma HardwareHistory(l: Layout, r: Run, k: nat, va: nat)
    requires r.Valid(l) && k <= |r.calls| && va < 0x1_0000_0000_0000
    requires WellFormed(r.states[0].tree) && Genuine(r.states[0].tree)
    ensures Seeing(r, k, va) == Seen(Recall(r, k, va / PAGE_SIZE), va)
  {
    TranslatesHistory(l, r, k, va / PAGE_SIZE);
    RunGenuine(l, r, k);
    ResolveIsTranslate(r.states[k].tree, va);
  }

  // Isolation

  /** The call that mapped page `q` as it stands after `k` calls, if one did. */
  function Origin(r: Run, k: nat, q: nat): Option<nat>
    requires k <= |r.calls| <= |r.rets|
  {
    if k == 0 then None
    else if MapsPage(r.calls[k - 1], r.rets[k - 1], q) then Some(k - 1)
    else if UnmapsPage(r.calls[k - 1], q) then None
    else Origin(r, k - 1, q)
  }

  lemma {:induction false} OriginIs(r: Run, k: nat, q: nat)
    requires k <= |r.calls| && |r.states| == |r.calls| + 1 == |r.rets| + 1
    ensures match Origin(r, k, q)
            case None => Recall(r, k, q).None? || Recall(r, k, q) == Translate(r.states[0].tree, q)
            case Some(i) =>
              && i < k && MapsPage(r.calls[i], r.rets[i], q)
              && Recall(r, k, q) == Some(LeafOf(r.states[i], r.calls[i])(q - r.rets[i] / PAGE_SIZE))
  {
    if k > 0 { OriginIs(r, k - 1, q); }
  }

  /** Address `va` lies in what a `MemMap` call has mapped. */
  predicate FromMemMap(r: Run, k: nat, va: nat)
    requires k <= |r.calls| <= |r.rets|
  {
    match Origin(r, k, va / PAGE_SIZE)
    case None => false
    case Some(i) => i < |r.calls| && r.calls[i].MemMap?
  }

  /** The page of the buffer behind it. */
  ghost function PageBehind(r: Run, k: nat, va: nat): nat
    requires k <= |r.calls| && |r.states| == |r.calls| + 1 == |r.rets| + 1 && FromMemMap(r, k, va)
  {
    var i := Origin(r, k, va / PAGE_SIZE).value;
    var v := r.rets[i] / PAGE_SIZE;
    if v <= va / PAGE_SIZE then PhysOf(r.states[i], r.calls[i].len, r.calls[i].flags, va / PAGE_SIZE - v) else 0
  }

  /** It is page `m` of the buffer of call `i`. */
  lemma Behind(r: Run, k: nat, va: nat) returns (i: nat, m: nat)
    requires k <= |r.calls| && |r.states| == |r.calls| + 1 == |r.rets| + 1 && FromMemMap(r, k, va)
    ensures i < k && r.calls[i].MemMap? && m < r.calls[i].len / PAGE_SIZE && Origin(r, k, va / PAGE_SIZE) == Some(i)
    ensures va / PAGE_SIZE == r.rets[i] / PAGE_SIZE + m
    ensures PageBehind(r, k, va) == PhysOf(r.states[i], r.calls[i].len, r.calls[i].flags, m)
  {
    OriginIs(r, k, va / PAGE_SIZE);
    i := Origin(r, k, va / PAGE_SIZE).value;
    m := va / PAGE_SIZE - r.rets[i] / PAGE_SIZE;
  }

  lemma OutputIsPage(e: Word)
    ensures OutputAddress(e) % PAGE_SIZE == 0
  {}

  lemma PageAndOffset(p: nat, va: nat)
    requires p % PAGE_SIZE == 0
    ensures p / Span(3) * Span(3) + va % Span(3) == p + va % PAGE_SIZE
    ensures (p + va % PAGE_SIZE) / PAGE_SIZE == p / PAGE_SIZE && (p + va % PAGE_SIZE) % PAGE_SIZE == va % PAGE_SIZE
  {}

  lemma SeenPage(e: Word, va: nat)
    ensures Seen(Some(e), va).Some? && Seen(Some(e), va).value.phys == OutputAddress(e) + va % PAGE_SIZE
    ensures OutputAddress(e) % PAGE_SIZE == 0
  {
    OutputIsPage(e);
    PageAndOffset(OutputAddress(e), va);
  }

  lemma BehindIs(r: Run, k: nat, va: nat)
    requires k <= |r.calls| && |r.states| == |r.calls| + 1 == |r.rets| + 1 && FromMemMap(r, k, va)
    ensures Recall(r, k, va / PAGE_SIZE).Some?
    ensures PageBehind(r, k, va) == OutputAddress(Recall(r, k, va / PAGE_SIZE).value)
  {
    OriginIs(r, k, va / PAGE_SIZE);
  }

  /** The processor finds it there. */
  lemma SeesPage(l: Layout, r: Run, k: nat, va: nat)
    requires r.Valid(l) && k <= |r.calls| && va < 0x1_0000_0000_0000 && FromMemMap(r, k, va)
    requires WellFormed(r.states[0].tree) && Genuine(r.states[0].tree)
    ensures Seeing(r, k, va).Some? && Seeing(r, k, va).value.phys == PageBehind(r, k, va) + va % PAGE_SIZE
    ensures PageBehind(r, k, va) % PAGE_SIZE == 0
  {
    HardwareHistory(l, r, k, va);
    BehindIs(r, k, va);
    SeenPage(Recall(r, k, va / PAGE_SIZE).value, va);
  }

  lemma BehindApart(l: Layout, r: Run, k: nat, va: nat, va': nat)
    requires SafeRun(l, r) && k <= |r.calls| && FromMemMap(r, k, va) && FromMemMap(r, k, va')
    requires va / PAGE_SIZE != va' / PAGE_SIZE
    requires Origin(r, k, va / PAGE_SIZE).value <= Origin(r, k, va' / PAGE_SIZE).value
    ensures PageBehind(r, k, va) != PageBehind(r, k, va')
  {
    var i, m := Behind(r, k, va);
    var j, m' := Behind(r, k, va');
    NoAliases(l, r, i, j, m, m');
  }

  lemma SameByte(p: nat, va: nat, p': nat, va': nat)
    requires p % PAGE_SIZE == p' % PAGE_SIZE == 0 && p + va % PAGE_SIZE == p' + va' % PAGE_SIZE
    ensures p == p' && (va / PAGE_SIZE == va' / PAGE_SIZE ==> va == va')
  {}

  /** Two user addresses in memory from `MemMap` never lead to the same byte. */
  lemma NoTwoWays(l: Layout, r: Run, k: nat, va: nat, va': nat)
    requires SafeRun(l, r) && Genuine(r.states[0].tree) && k <= |r.calls|
    requires va < 0x1_0000_0000_0000 && va' < 0x1_0000_0000_0000
    requires FromMemMap(r, k, va) && FromMemMap(r, k, va')
    ensures Seeing(r, k, va).Some? && Seeing(r, k, va').Some?
    ensures Seeing(r, k, va).value.phys == Seeing(r, k, va').value.phys ==> va == va'
  {
    SeesPage(l, r, k, va);
    SeesPage(l, r, k, va');
    if PageBehind(r, k, va) + va % PAGE_SIZE == PageBehind(r, k, va') + va' % PAGE_SIZE {
      SameByte(PageBehind(r, k, va), va, PageBehind(r, k, va'), va');
      SamePageBehind(l, r, k, va, va');
    }
  }

  lemma SamePageBehind(l: Layout, r: Run, k: nat, va: nat, va': nat)
    requires SafeRun(l, r) && k <= |r.calls| && FromMemMap(r, k, va) && FromMemMap(r, k, va')
    requires PageBehind(r, k, va) == PageBehind(r, k, va')
    ensures va / PAGE_SIZE == va' / PAGE_SIZE
  {
    if va / PAGE_SIZE != va' / PAGE_SIZE {
      if Origin(r, k, va / PAGE_SIZE).value <= Origin(r, k, va' / PAGE_SIZE).value {
        BehindApart(l, r, k, va, va');
      } else {
        BehindApart(l, r, k, va', va);
      }
    }
  }

  /** None of them leads into a translation table, */
  lemma NoWayIntoTables(l: Layout, r: Run, k: nat, va: nat, a: nat)
    requires SafeRun(l, r) && Genuine(r.states[0].tree) && k <= |r.calls|
    requires va < 0x1_0000_0000_0000 && FromMemMap(r, k, va) && a in r.states[k].tree.mem
    ensures Seeing(r, k, va).Some? && !(a <= Seeing(r, k, va).value.phys < a + PAGE_SIZE)
  {
    SeesPage(l, r, k, va);
    BehindNoTable(l, r, k, va, a);
    OffThePage(PageBehind(r, k, va), va, a);
  }

  lemma OffThePage(p: nat, va: nat, a: nat)
    requires p % PAGE_SIZE == a % PAGE_SIZE == 0 && p != a
    ensures !(a <= p + va % PAGE_SIZE < a + PAGE_SIZE)
  {}

  /** or to a byte of the kernel or the device tree. */
  lemma NoWayIntoKernel(l: Layout, r: Run, k: nat, va: nat)
    requires SafeRun(l, r) && Genuine(r.states[0].tree) && k <= |r.calls|
    requires va < 0x1_0000_0000_0000 && FromMemMap(r, k, va)
    ensures Seeing(r, k, va).Some? && !l.KernelByte(MEM_WINDOW + Seeing(r, k, va).value.phys)
  {
    SeesPage(l, r, k, va);
    BehindNoKernel(l, r, k, va);
  }

  lemma BehindNoTable(l: Layout, r: Run, k: nat, va: nat, a: nat)
    requires SafeRun(l, r) && k <= |r.calls| && FromMemMap(r, k, va) && a in r.states[k].tree.mem
    ensures a % PAGE_SIZE == 0 && PageBehind(r, k, va) != a
  {
    var i, m := Behind(r, k, va);
    RunSound(l, r, k);
    assert TableIsOwn(r.states[k].tree, r.states[k].ledger, a);
    UserPageIsNoTable(l, r, i, k, m, a);
  }

  lemma KernelOffset(p: nat, va: nat)
    requires p % PAGE_SIZE == 0
    ensures (MEM_WINDOW + p + va % PAGE_SIZE) / PAGE_SIZE == (MEM_WINDOW + p) / PAGE_SIZE
  {}

  lemma BehindNoKernel(l: Layout, r: Run, k: nat, va: nat)
    requires SafeRun(l, r) && k <= |r.calls| && FromMemMap(r, k, va)
    requires PageBehind(r, k, va) % PAGE_SIZE == 0
    ensures !l.KernelByte(MEM_WINDOW + PageBehind(r, k, va) + va % PAGE_SIZE)
  {
    var i, m := Behind(r, k, va);
    var p := PageBehind(r, k, va);
    var addr := MEM_WINDOW + p + va % PAGE_SIZE;
    KernelOffset(p, va);
    if l.KernelByte(addr) { UserPageIsNotKernel(l, r, i, m, addr); }
  }

  /** Without `PhyMap`, all a thread can see that was not there to begin with comes from `MemMap`. */
  lemma OnlyMemMap(l: Layout, r: Run, k: nat, va: nat)
    requires r.Valid(l) && k <= |r.calls| && va < 0x1_0000_0000_0000
    requires WellFormed(r.states[0].tree) && Genuine(r.states[0].tree)
    requires Translate(r.states[0].tree, va / PAGE_SIZE) == None && forall c | c in r.calls :: !c.PhyMap?
    ensures Seeing(r, k, va).Some? <==> FromMemMap(r, k, va)
  {
    HardwareHistory(l, r, k, va);
    OriginIs(r, k, va / PAGE_SIZE);
  }

  /** All together for a thread that does not ask for physical memory: whatever it can address that was not there
      to begin with is its own, at one such address only, no translation table and no part of the kernel. */
  lemma ThreadIsolated(l: Layout, r: Run, k: nat, va: nat, va': nat, a: nat)
    requires SafeRun(l, r) && Genuine(r.states[0].tree) && forall c | c in r.calls :: !c.PhyMap?
    requires k <= |r.calls| && va < 0x1_0000_0000_0000 && va' < 0x1_0000_0000_0000
    requires Translate(r.states[0].tree, va / PAGE_SIZE) == None && Translate(r.states[0].tree, va' / PAGE_SIZE) == None
    requires Seeing(r, k, va).Some?
    ensures Seeing(r, k, va').Some? && Seeing(r, k, va').value.phys == Seeing(r, k, va).value.phys ==> va' == va
    ensures a in r.states[k].tree.mem ==> !(a <= Seeing(r, k, va).value.phys < a + PAGE_SIZE)
    ensures !l.KernelByte(MEM_WINDOW + Seeing(r, k, va).value.phys)
  {
    OnlyMemMap(l, r, k, va);
    OnlyMemMap(l, r, k, va');
    if Seeing(r, k, va').Some? { NoTwoWays(l, r, k, va, va'); }
    if a in r.states[k].tree.mem { NoWayIntoTables(l, r, k, va, a); }
    NoWayIntoKernel(l, r, k, va);
  }

  // The thread the kernel starts

  lemma LeavesGenuine(t: Tables, t': Tables, v: nat, n: nat, phys: nat, attrs: Word)
    requires Genuine(t) && Mapped(t, t', v, n, Leaves(phys, attrs))
    ensures Genuine(t')
  {
    var leaf := Leaves(phys, attrs);
    forall k: nat ensures leaf(k) == 0 || leaf(k) % 4 == PT_PAGE { LeavesArePages(phys, attrs, k); }
    MappedGenuine(t, t', v, n, leaf);
  }

  /** A mapping keeps the state sound and genuine, and pages outside of it as they were. */
  lemma StartMaps(l: Layout, s: State, s': State, v: nat, n: nat, phys: nat, attrs: Word, q: nat)
    requires Sound(l, s) && Genuine(s.tree)
    requires MappedAll(s.tree, s.ledger, s'.tree, s'.ledger, v, n, Leaves(phys, attrs))
    ensures Sound(l, s') && Genuine(s'.tree)
    ensures q < 0x10_0000_0000 && !Within(v, n, q) ==> Translate(s'.tree, q) == Translate(s.tree, q)
  {
    MapSound(l, s.tree, s.ledger, s'.tree, s'.ledger, v, n, Leaves(phys, attrs));
    LeavesGenuine(s.tree, s'.tree, v, n, phys, attrs);
    if q < 0x10_0000_0000 && !Within(v, n, q) { MappedTranslates(s.tree, s'.tree, v, n, Leaves(phys, attrs), q); }
  }

  lemma FreshThreadGenuine(b: Ledger, n: nat, q: nat)
    requires b.heap.Grab(n).Some? && b.heap.base <= b.heap.Grab(n).value.addr
    ensures Genuine(FreshThread(b, n).tree)
    ensures q < 0x10_0000_0000 ==> Translate(FreshThread(b, n).tree, q) == None
  {
    var t := FreshThread(b, n).tree;
    EmptyTreeIs(t.root);
    if q < 0x10_0000_0000 { TranslateIsView(t, q); }
  }

  /** A new thread with its program, of `m` pages, and its stack mapped: its runs are among those above, and
      nothing but program and stack is there to begin with. */
  lemma StartedThread(l: Layout, b: Ledger, n: nat, s1: State, s2: State, m: nat, code: nat, stack: nat, attrs: Word,
                      q: nat)
    requires Consistent(l, b) && b.heap.Grab(n).Some? && b.heap.base <= b.heap.Grab(n).value.addr
    requires (var s := FreshThread(b, n);
              MappedAll(s.tree, s.ledger, s1.tree, s1.ledger, CODE_PAGE, m, Leaves(code, attrs)))
    requires MappedAll(s1.tree, s1.ledger, s2.tree, s2.ledger, STACK_PAGE, STACK_PAGES, Leaves(stack, attrs))
    ensures Sound(l, s2) && Genuine(s2.tree)
    ensures q < 0x10_0000_0000 && !Within(CODE_PAGE, m, q) && !Within(STACK_PAGE, STACK_PAGES, q)
            ==> Translate(s2.tree, q) == None
  {
    FreshThreadSound(l, b, n);
    FreshThreadGenuine(b, n, q);
    StartMaps(l, FreshThread(b, n), s1, CODE_PAGE, m, code, attrs, q);
    StartMaps(l, s1, s2, STACK_PAGE, STACK_PAGES, stack, attrs, q);
  }
}
