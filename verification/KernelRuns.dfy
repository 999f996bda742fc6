/** What holds over every run of system calls. */
module KernelRuns {
  import opened Wrappers
  import opened Words
  import opened Addresses
  import opened Heaps
  import opened Ledgers
  import opened PageTables
  import opened Holes
  import opened HoleSafety
  import opened HoleRuns
  import opened Mappings
  import opened AddressSpaces
  import opened Syscalls

  /** A run: `states[i]` becomes `states[i + 1]` by `calls[i]`, which answers `rets[i]`. */
  datatype Run = Run(states: seq<State>, calls: seq<Call>, rets: seq<Word>) {
    ghost predicate At(l: Layout, i: nat) {
      && l.Valid() && i < |calls| && i < |rets| && i + 1 < |states|
      && CallStep(l, states[i], calls[i], rets[i], states[i + 1])
    }

    ghost predicate Valid(l: Layout) {
      && |states| == |calls| + 1 == |rets| + 1
      && forall i: nat {:trigger At(l, i)} | i < |calls| :: At(l, i)
    }
  }

  /** A run from a sound state in which no memory node loses anything. */
  ghost predicate SafeRun(l: Layout, r: Run) {
    && r.Valid(l) && Sound(l, r.states[0])
    && forall i: nat {:trigger r.At(l, i)} | i < |r.calls| :: Keeps(l, r.states[i], r.calls[i])
  }

  ghost predicate Sound(l: Layout, s: State) {
    WellFormed(s.tree) && Consistent(l, s.ledger) && TablesOwned(s.tree, s.ledger)
  }

  predicate IsMap(c: Call) {
    c.PhyMap? || c.MemMap?
  }

  /** The ledger a mapping starts from: with the buffer already taken, if there is one. */
  ghost function Base(s: State, c: Call): Ledger {
    match c
    case MemMap(len, _) =>
      (match Buffer(s.ledger, len)
       case None => s.ledger
       case Some(buf) => if s.ledger.heap.base <= buf.addr then Allocated(s.ledger, buf) else s.ledger)
    case _ => s.ledger
  }

  /** The descriptors a mapping call writes, page by page. */
  ghost function LeafOf(s: State, c: Call): nat -> Word {
    match c
    case PhyMap(paddr, _, flags) => Leaves(paddr, PhyMapAttrs(flags))
    case MemMap(len, flags) =>
      (match Buffer(s.ledger, len)
       case None => k => 0
       case Some(buf) => Leaves(FromVirt(buf.addr), MemMapAttrs(flags)))
    case _ => k => 0
  }

  ghost predicate MapStep(s: State, c: Call, ret: nat, s': State)
    requires IsMap(c)
  {
    && c.len % PAGE_SIZE == 0 && FindHole(ShapeOf(s.tree), VMAP_START, c.len) == Some(ret)
    && MappedAll(s.tree, Base(s, c), s'.tree, s'.ledger, ret / PAGE_SIZE, c.len / PAGE_SIZE, LeafOf(s, c))
  }

  lemma MapStepIs(l: Layout, s: State, c: Call, ret: Word, s': State)
    requires l.Valid() && CallStep(l, s, c, ret, s') && IsMap(c)
    ensures MapStep(s, c, ret, s')
  {}

  // Ownership

  lemma MapSound(l: Layout, t: Tables, b: Ledger, t': Tables, b': Ledger, v: nat, n: nat, leaf: nat -> Word)
    requires Consistent(l, b) && TablesOwned(t, b) && MappedAll(t, b, t', b', v, n, leaf)
    ensures Consistent(l, b') && TablesOwned(t', b') && WellFormed(t')
  {
    AllocsKeep(l, b, b', Missing(t, v, n));
    OwnedStays(b, b', (MEM_WINDOW + t.root) / PAGE_SIZE);
    forall a | a in t'.mem ensures TableIsOwn(t', b', a) {
      assert if a in t.mem then TableIsOwn(t, b, a) else Backed(b, b', a);
    }
  }

  lemma OwnedStays(b: Ledger, b': Ledger, page: nat)
    requires b.live <= b'.live && Owned(b, page)
    ensures Owned(b', page)
  {
    var s :| s in b.live && s.Covers(page);
    assert s in b'.live;
  }

  lemma BaseSound(l: Layout, s: State, c: Call)
    requires Sound(l, s)
    ensures Consistent(l, Base(s, c)) && TablesOwned(s.tree, Base(s, c)) && s.ledger.live <= Base(s, c).live
  {
    if c.MemMap? && Buffer(s.ledger, c.len).Some? { BufferStep(l, s.ledger, s.tree, PagesFor(c.len)); }
  }

  lemma RemovedOwned(t: Tables, t': Tables, b: Ledger, v: nat, n: nat)
    requires TablesOwned(t, b) && Removed(t, t', v, n)
    ensures TablesOwned(t', b)
  {
    forall a | a in t'.mem ensures TableIsOwn(t', b, a) {
      assert a in t.mem.Keys;
      assert TableIsOwn(t, b, a);
    }
  }

  /** Every call keeps the tree a tree, the ledger consistent and the tables owned, and takes no page
      away from an owner. */
  lemma StepSound(l: Layout, s: State, c: Call, ret: Word, s': State)
    requires Sound(l, s) && CallStep(l, s, c, ret, s') && Keeps(l, s, c)
    ensures Sound(l, s') && s.ledger.live <= s'.ledger.live
  {
    match c
    case MemUnmap(vaddr, len) => RemovedOwned(s.tree, s'.tree, s.ledger, vaddr / PAGE_SIZE, PagesFor(len));
    case DownloadMoreRam(paddr, len) => NodeStep(l, s.ledger, s.tree, Virt(paddr), len);
    case _ =>
      MapStepIs(l, s, c, ret, s');
      BaseSound(l, s, c);
      MapSound(l, s.tree, Base(s, c), s'.tree, s'.ledger, ret / PAGE_SIZE, c.len / PAGE_SIZE, LeafOf(s, c));
  }

  lemma NextSound(l: Layout, r: Run, i: nat)
    requires SafeRun(l, r) && i < |r.calls| && Sound(l, r.states[i])
    ensures Sound(l, r.states[i + 1]) && r.states[i].ledger.live <= r.states[i + 1].ledger.live
  {
    assert r.At(l, i);
    StepSound(l, r.states[i], r.calls[i], r.rets[i], r.states[i + 1]);
  }

  lemma {:induction false} RunSound(l: Layout, r: Run, k: nat)
    requires SafeRun(l, r) && k < |r.states|
    ensures Sound(l, r.states[k])
  {
    if k > 0 {
      RunSound(l, r, k - 1);
      NextSound(l, r, k - 1);
    }
  }

  lemma {:induction false} LiveForever(l: Layout, r: Run, i: nat, j: nat)
    requires SafeRun(l, r) && i <= j < |r.states|
    ensures r.states[i].ledger.live <= r.states[j].ledger.live
  {
    if i < j {
      LiveForever(l, r, i, j - 1);
      RunSound(l, r, j - 1);
      NextSound(l, r, j - 1);
    }
  }

  /** A page once handed out, for a table or a buffer, stays marked for ever, and no slice handed out
      later covers it. */
  lemma NothingReused(l: Layout, r: Run, i: nat, j: nat, page: nat, later: PageSlice)
    requires SafeRun(l, r) && i <= j < |r.states| && Owned(r.states[i].ledger, page)
    ensures Owned(r.states[j].ledger, page) && r.states[j].ledger.heap.Taken(page)
    ensures later in r.states[j].ledger.live && later !in r.states[i].ledger.live ==> !later.Covers(page)
  {
    RunSound(l, r, j);
    LiveForever(l, r, i, j);
    var b := r.states[j].ledger;
    var s :| s in r.states[i].ledger.live && s.Covers(page);
    assert s in b.live && Owned(b, page);
    assert PageOk(l, b, page);
    if later in b.live && later !in r.states[i].ledger.live { assert Disjoint(s, later); }
  }

  ghost predicate OffTable(buf: PageSlice, a: nat) {
    !buf.Covers((MEM_WINDOW + a) / PAGE_SIZE)
  }

  /** A table linked in by a call lies on none of the pages that had an owner. */
  lemma NewTableApart(l: Layout, s: State, c: Call, ret: Word, s': State, buf: PageSlice, a: nat)
    requires Sound(l, s) && CallStep(l, s, c, ret, s') && Keeps(l, s, c) && buf in Base(s, c).live && a in s'.tree.mem
    ensures a in s.tree.mem || OffTable(buf, a)
  {
    if !IsMap(c) {
      assert a in s'.tree.mem.Keys;
    } else if a !in s.tree.mem {
      MapStepIs(l, s, c, ret, s');
      StepSound(l, s, c, ret, s');
      assert Backed(Base(s, c), s'.ledger, a);
      assert Disjoint(TableSlice(a), buf);
      assert TableSlice(a).Covers((MEM_WINDOW + a) / PAGE_SIZE);
    }
  }

  /** The pages of a buffer are no table when they are handed out. */
  lemma BufferFresh(l: Layout, s: State, len: Word, flags: Word, a: nat)
    requires Sound(l, s) && Buffer(s.ledger, len).Some?
    ensures Buffer(s.ledger, len).value in Base(s, MemMap(len, flags)).live
    ensures a in s.tree.mem ==> OffTable(Buffer(s.ledger, len).value, a)
  {
    GrabIsFresh(l, s.ledger, PagesFor(len));
    if a in s.tree.mem { TableOwned(s.tree, s.ledger, a); }
  }

  /** No page of a buffer given to the user ever holds a translation table. */
  lemma {:induction false} BufferIsNoTable(l: Layout, r: Run, i: nat, j: nat, a: nat)
    requires SafeRun(l, r) && i < j < |r.states|
    requires r.calls[i].MemMap? && a in r.states[j].tree.mem
    ensures Buffer(r.states[i].ledger, r.calls[i].len).Some?
    ensures Buffer(r.states[i].ledger, r.calls[i].len).value in r.states[j].ledger.live
    ensures OffTable(Buffer(r.states[i].ledger, r.calls[i].len).value, a)
  {
    BufferLives(l, r, i, j);
    if i + 1 == j {
      FirstOff(l, r, i, a);
    } else {
      if a in r.states[j - 1].tree.mem { BufferIsNoTable(l, r, i, j - 1, a); }
      NextOff(l, r, i, j, a);
    }
  }

  lemma FirstOff(l: Layout, r: Run, i: nat, a: nat)
    requires SafeRun(l, r) && i < |r.calls|
    requires r.calls[i].MemMap? && a in r.states[i + 1].tree.mem && Buffer(r.states[i].ledger, r.calls[i].len).Some?
    ensures OffTable(Buffer(r.states[i].ledger, r.calls[i].len).value, a)
  {
    var s, c := r.states[i], r.calls[i];
    assert r.At(l, i);
    RunSound(l, r, i);
    BufferFresh(l, s, c.len, c.flags, a);
    NewTableApart(l, s, c, r.rets[i], r.states[i + 1], Buffer(s.ledger, c.len).value, a);
  }

  lemma NextOff(l: Layout, r: Run, i: nat, j: nat, a: nat)
    requires SafeRun(l, r) && i < j - 1 < |r.calls|
    requires r.calls[i].MemMap? && a in r.states[j].tree.mem && Buffer(r.states[i].ledger, r.calls[i].len).Some?
    ensures a in r.states[j - 1].tree.mem || OffTable(Buffer(r.states[i].ledger, r.calls[i].len).value, a)
  {
    var s, c := r.states[j - 1], r.calls[j - 1];
    assert r.At(l, j - 1);
    RunSound(l, r, j - 1);
    BaseSound(l, s, c);
    BufferLives(l, r, i, j - 1);
    NewTableApart(l, s, c, r.rets[j - 1], r.states[j], Buffer(r.states[i].ledger, r.calls[i].len).value, a);
  }

  lemma BufferLives(l: Layout, r: Run, i: nat, j: nat)
    requires SafeRun(l, r) && i < j < |r.states| && r.calls[i].MemMap?
    ensures Buffer(r.states[i].ledger, r.calls[i].len).Some?
    ensures Buffer(r.states[i].ledger, r.calls[i].len).value in r.states[j].ledger.live
  {
    assert r.At(l, i);
    RunSound(l, r, i);
    BufferFresh(l, r.states[i], r.calls[i].len, r.calls[i].flags, 0);
    MapStepIs(l, r.states[i], r.calls[i], r.rets[i], r.states[i + 1]);
    LiveForever(l, r, i + 1, j);
  }
}
