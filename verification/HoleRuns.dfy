/** The search on the tables a thread really has: built by `vmap` alone above 0x5000_0000. */
module HoleRuns {
  import opened Addresses
  import opened Descriptors
  import opened Holes
  import opened HoleSafety
  import opened HoleLimits

  /** Where `vmap` starts to search, and the slot of that address. */
  const VMAP_START: nat := 0x5000_0000
  const FIRST_SLOT: nat := 640

  ghost predicate NoBlocks(f: Shape) {
    forall q: nat :: f(0, q) != Block && f(1, q) != Block
  }

  /** From the first slot on, the slots in use are those before slot `e`, without a gap. */
  ghost predicate Tidy(f: Shape, e: nat) {
    && ShapeOk(f) && OnlyLow(f) && NoBlocks(f)
    && FIRST_SLOT <= e <= ALL_SLOTS
    && forall s: nat | FIRST_SLOT <= s < ALL_SLOTS :: SlotUsed(f, s) <==> s < e
  }

  /** The level-1 loop of a measurement from `start`, after `k` windows of used memory. */
  function UsedLoop(f: Shape, start: nat, k: nat, maxFree: nat): Region
    requires start / GIGABYTE + k <= 512
  {
    MeasureFrom(f, 1, 0, start / GIGABYTE + k, start + k * SLOT, k * SLOT, k > 0, USIZE_MAX, maxFree)
  }

  /** A measured stretch of used memory never reaches past slot `e`. */
  ghost predicate StaysBefore(r: Region, start: nat, e: nat) {
    r.used && r.len < (512 - start / GIGABYTE) * SLOT && (start + r.len) / SLOT <= e
  }

  /** After one more window the loop has its answer, or it goes on and `e` lies further on too. */
  ghost predicate TurnOk(f: Shape, e: nat, start: nat, k: nat, maxFree: nat)
    requires start / GIGABYTE + k < 512
  {
    || StaysBefore(UsedLoop(f, start, k, maxFree), start, e)
    || (UsedLoop(f, start, k, maxFree) == UsedLoop(f, start, k + 1, maxFree) && (start / GIGABYTE + k + 1) * 512 <= e)
  }

  /** One window of the loop, in terms of `e`: it ends before `e`, it holds `e` behind `m` used
      slots, or it is entered at or behind `e`. */
  lemma UsedWindow(f: Shape, e: nat, idx: nat, cur: nat, len: nat, alloc: bool, maxFree: nat)
    returns (used: bool, m: nat, full: bool)
    requires Tidy(f, e) && f(0, 0) == EntryKind.Table && idx < 512
    requires FIRST_SLOT <= idx * 512 + IndexAt(cur, 2)
    ensures (var s := idx * 512 + IndexAt(cur, 2);
             && 0 < m <= 512 && used == (s < e)
             && (used && full ==> (idx + 1) * 512 <= e)
             && (used && !full ==> e == s + m && m < 512))
    ensures Turn(f, idx, cur, len, alloc, USIZE_MAX, maxFree, used, m, full)
  {
    used, m, full := WindowStep(f, idx, cur, len, alloc, USIZE_MAX, maxFree);
    var s := idx * 512 + IndexAt(cur, 2);
    assert SlotUsed(f, s) == used && SlotUsed(f, s + m - 1) == used;
    assert !full && used ==> !SlotUsed(f, s + m);
  }

  /** What the loop finds in its `k`-th window, as far as the next steps need it. */
  ghost predicate WindowAt(f: Shape, e: nat, start: nat, k: nat, maxFree: nat, used: bool, m: nat, full: bool)
    requires start / GIGABYTE + k < 512
  {
    var s := (start / GIGABYTE + k) * 512 + IndexAt(start + k * SLOT, 2);
    && used == (s < e)
    && (used && full ==> (start / GIGABYTE + k + 1) * 512 <= e)
    && (used && !full ==> e == s + m && 0 < m < 512)
    && Turn(f, start / GIGABYTE + k, start + k * SLOT, k * SLOT, k > 0, USIZE_MAX, maxFree, used, m, full)
  }

  lemma UsedWindowAt(f: Shape, e: nat, start: nat, k: nat, maxFree: nat) returns (used: bool, m: nat, full: bool)
    requires Tidy(f, e) && f(0, 0) == EntryKind.Table
    requires start < USER_TOP && FIRST_SLOT <= start / SLOT && start / GIGABYTE + k < 512
    ensures WindowAt(f, e, start, k, maxFree, used, m, full)
  {
    VisitedSlot(start, start / GIGABYTE + k, ALL_SLOTS);
    used, m, full := UsedWindow(f, e, start / GIGABYTE + k, start + k * SLOT, k * SLOT, k > 0, maxFree);
  }

  lemma UsedTurn(f: Shape, e: nat, start: nat, k: nat, maxFree: nat)
    requires Tidy(f, e) && f(0, 0) == EntryKind.Table && start % PAGE_SIZE == 0
    requires start < USER_TOP && FIRST_SLOT <= start / SLOT < e && start / GIGABYTE + k < 512
    requires k == 0 || (start / GIGABYTE + k) * 512 <= e
    ensures TurnOk(f, e, start, k, maxFree)
  {
    var used, m, full := UsedWindowAt(f, e, start, k, maxFree);
    UsedCombine(f, e, start, k, maxFree, used, m, full);
  }

  lemma UsedCombine(f: Shape, e: nat, start: nat, k: nat, maxFree: nat, used: bool, m: nat, full: bool)
    requires start < USER_TOP && start % PAGE_SIZE == 0 && start / SLOT < e && start / GIGABYTE + k < 512
    requires k == 0 || (start / GIGABYTE + k) * 512 <= e
    requires WindowAt(f, e, start, k, maxFree, used, m, full)
    ensures TurnOk(f, e, start, k, maxFree)
  {
    UsedOutcome(start, k, used, m, full, e);
    UsedNext(f, start, k, maxFree);
  }

  lemma UsedOutcome(start: nat, k: nat, used: bool, m: nat, full: bool, e: nat)
    requires start < USER_TOP && start % PAGE_SIZE == 0 && start / SLOT < e && start / GIGABYTE + k < 512
    requires k == 0 || (start / GIGABYTE + k) * 512 <= e
    requires (var s := (start / GIGABYTE + k) * 512 + IndexAt(start + k * SLOT, 2);
              used == (s < e) && (used && !full ==> e == s + m && 0 < m < 512))
    ensures k == 0 ==> used
    ensures !(used && full) ==> StaysBefore(Region(true, k * SLOT + if used then m * PAGE_SIZE else 0), start, e)
  {
    if k == 0 { FirstVisited(start, k); }
    if !(used && full) {
      UsedStep(start, k, if used then m else 0, e);
    }
  }

  lemma FirstVisited(start: nat, k: nat)
    requires start < USER_TOP && k == 0
    ensures (start / GIGABYTE + k) * 512 + IndexAt(start + k * SLOT, 2) == start / SLOT
  {}

  lemma UsedNext(f: Shape, start: nat, k: nat, maxFree: nat)
    requires start / GIGABYTE + k < 512
    ensures MeasureNext(f, 1, 0, start / GIGABYTE + k, start + k * SLOT, k * SLOT, true, USIZE_MAX, maxFree)
         == UsedLoop(f, start, k + 1, maxFree)
  {
    assert start + (k + 1) * SLOT == start + k * SLOT + SLOT;
  }

  lemma UsedStep(start: nat, k: nat, m: nat, e: nat)
    requires start < USER_TOP && start % PAGE_SIZE == 0 && m < 512 && start / GIGABYTE + k < 512
    requires (k == 0 && 0 < m && e == start / SLOT + m)
             || (k > 0 && (start / GIGABYTE + k) * 512 + (if m == 0 then 0 else 1) <= e)
    ensures (start + k * SLOT + m * PAGE_SIZE) / SLOT <= e
    ensures k * SLOT + m * PAGE_SIZE < (512 - start / GIGABYTE) * SLOT
  {}

  lemma {:induction false} UsedTail(f: Shape, e: nat, start: nat, k: nat, maxFree: nat)
    requires Tidy(f, e) && f(0, 0) == EntryKind.Table && start % PAGE_SIZE == 0
    requires start < USER_TOP && FIRST_SLOT <= start / SLOT < e && start / GIGABYTE + k <= 512
    requires k == 0 || (start / GIGABYTE + k) * 512 <= e
    ensures (var r := UsedLoop(f, start, k, maxFree);
             StaysBefore(r, start, e) || (r.used && r.len == (512 - start / GIGABYTE) * SLOT && e == ALL_SLOTS))
    decreases 512 - k
  {
    if start / GIGABYTE + k < 512 {
      UsedTurn(f, e, start, k, maxFree);
      if !StaysBefore(UsedLoop(f, start, k, maxFree), start, e) {
        UsedTail(f, e, start, k + 1, maxFree);
      }
    }
  }

  /** From a used slot, the search moves on, but never past slot `e`. */
  lemma UsedMeasure(f: Shape, e: nat, start: nat, maxFree: nat)
    requires Tidy(f, e) && e < ALL_SLOTS && start % PAGE_SIZE == 0
    requires FIRST_SLOT <= start / SLOT < e
    ensures (var r := Measure(f, 0, 0, start, USIZE_MAX, maxFree); r.used && (start + r.len) / SLOT <= e)
  {
    assert SlotUsed(f, start / SLOT);
    SlotNeedsTop(f, start / SLOT);
    AddressParts(start);
    UsedTail(f, e, start, 0, maxFree);
    assert UsedLoop(f, start, 0, maxFree) == Measure(f, 1, 0, start, USIZE_MAX, maxFree);
    TopStep(f, start, USIZE_MAX, maxFree);
  }

  lemma SlotNeedsTop(f: Shape, s: nat)
    requires ShapeOk(f) && NoBlocks(f) && s < ALL_SLOTS && SlotUsed(f, s)
    ensures f(0, 0) == EntryKind.Table
  {
    if f(0, 0) == Free {
      EmptyTop(f);
    }
  }

  /** One step of the search: on to a later page, still at or before slot `e`. */
  lemma TidyStep(f: Shape, e: nat, start: nat, size: nat) returns (next: nat)
    requires Tidy(f, e) && e < ALL_SLOTS && start % PAGE_SIZE == 0 && FIRST_SLOT <= start / SLOT < e
    ensures start < next && next % PAGE_SIZE == 0 && FIRST_SLOT <= next / SLOT <= e
    ensures FindHole(f, start, size) == FindHole(f, next, size)
  {
    UsedMeasure(f, e, start, size);
    next := SearchStep(f, start, size);
    LaterSlot(start, next);
  }

  lemma SearchStep(f: Shape, start: nat, size: nat) returns (next: nat)
    requires start < USER_TOP && start % PAGE_SIZE == 0 && Measure(f, 0, 0, start, USIZE_MAX, size).used
    ensures next == start + Measure(f, 0, 0, start, USIZE_MAX, size).len && next > start && next % PAGE_SIZE == 0
    ensures FindHole(f, start, size) == FindHole(f, next, size)
  {
    MeasurePositive(f, start, USIZE_MAX, size);
    next := start + Measure(f, 0, 0, start, USIZE_MAX, size).len;
    WholeSum(start, Measure(f, 0, 0, start, USIZE_MAX, size).len);
  }

  lemma LaterSlot(start: nat, next: nat)
    requires start <= next
    ensures start / SLOT <= next / SLOT
  {}

  /** On tidy tables the search lands in slot `e`, the first unused one. */
  lemma {:induction false} TidyHole(f: Shape, e: nat, start: nat, size: nat)
    requires Tidy(f, e) && e < ALL_SLOTS && size <= USER_TOP
    requires start % PAGE_SIZE == 0 && FIRST_SLOT <= start / SLOT <= e
    ensures FindHole(f, start, size).Some? && FindHole(f, start, size).value / SLOT == e
    decreases USER_TOP - start
  {
    if start / SLOT == e {
      FreeAnswer(f, start, ALL_SLOTS, size);
    } else {
      var next := TidyStep(f, e, start, size);
      TidyHole(f, e, next, size);
    }
  }

  /** Whatever `vmap` gets from the search on tidy tables, all of it is free up to the top, and it
      gets an answer whenever a slot is left. */
  lemma TidyAnswer(f: Shape, e: nat, size: nat)
    requires Tidy(f, e)
    ensures e < ALL_SLOTS && size <= USER_TOP ==> FindHole(f, VMAP_START, size).Some?
    ensures match FindHole(f, VMAP_START, size)
            case None => true
            case Some(v) => e < ALL_SLOTS && v / SLOT == e && v < USER_TOP && v % PAGE_SIZE == 0 && size <= USER_TOP
  {
    FindHoleAnswer(f, VMAP_START, size);
    if size > USER_TOP {
      TooLarge(f, VMAP_START, size);
    } else if e < ALL_SLOTS {
      TidyHole(f, e, VMAP_START, size);
    } else if FindHole(f, VMAP_START, size).Some? {
      var v := FindHole(f, VMAP_START, size).value;
      assert SlotUsed(f, v / SLOT);
      MeasurePositive(f, v, USIZE_MAX, size);
      FreeSound(f, v, USIZE_MAX, size);
    }
  }
}
