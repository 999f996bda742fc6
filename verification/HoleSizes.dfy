/** For which sizes the answer of `vmap`'s own search is free, whatever the tables. */
module HoleSizes {
  import opened Wrappers
  import opened Addresses
  import opened Descriptors
  import opened PageTables
  import opened Holes
  import opened HoleSafety
  import opened HoleLimits
  import opened HoleRuns
  import opened FullTables

  function EndSlot(w: nat): nat {
    w * 512 + 511
  }

  /** The last slots of `c` windows from `w` on are used. */
  ghost predicate EndsUsed(f: Shape, w: nat, c: nat) {
    forall j: nat {:trigger EndSlot(j)} | w <= j < w + c :: SlotUsed(f, EndSlot(j))
  }

  /** A measurement of used memory: `c` whole windows and then `m` slots. */
  ghost predicate UsedStretch(f: Shape, start: nat, r: Region, c: nat, m: nat) {
    var w := start / GIGABYTE;
    && r == Region(true, c * SLOT + m * PAGE_SIZE) && w + c <= 512 && m < 512 && EndsUsed(f, w, c)
    && (w + c == 512 ==> m == 0)
    && (c == 0 ==> 0 < m < 512 - IndexAt(start, 2) && SlotUsed(f, start / SLOT))
  }

  lemma {:induction false} UsedRun(f: Shape, start: nat, k: nat, maxFree: nat) returns (c: nat, m: nat)
    requires ShapeOk(f) && f(0, 0) == EntryKind.Table && start < USER_TOP && start / GIGABYTE + k <= 512
    requires EndsUsed(f, start / GIGABYTE, k) && SlotUsed(f, start / SLOT)
    ensures UsedStretch(f, start, UsedLoop(f, start, k, maxFree), c, m)
    decreases 512 - k
  {
    if start / GIGABYTE + k == 512 {
      c, m := k, 0;
    } else {
      var done, m' := OneTurn(f, start, k, maxFree);
      if done {
        c, m := k, m';
      } else {
        c, m := UsedRun(f, start, k + 1, maxFree);
      }
    }
  }

  /** The stretch ends in window `k`, or the window counts as a whole. */
  lemma OneTurn(f: Shape, start: nat, k: nat, maxFree: nat) returns (done: bool, m: nat)
    requires ShapeOk(f) && f(0, 0) == EntryKind.Table && start < USER_TOP && start / GIGABYTE + k < 512
    requires EndsUsed(f, start / GIGABYTE, k) && SlotUsed(f, start / SLOT)
    ensures done ==> UsedStretch(f, start, UsedLoop(f, start, k, maxFree), k, m)
    ensures !done ==> UsedLoop(f, start, k, maxFree) == UsedLoop(f, start, k + 1, maxFree)
    ensures !done ==> EndsUsed(f, start / GIGABYTE, k + 1)
  {
    var used, m', full := WindowTurn(f, start, k, maxFree);
    m := if k > 0 && !used then 0 else m';
    done := !full || (k > 0 && !used);
    if done {
      TurnEnds(f, start, k, maxFree, used, m', full);
    } else {
      UsedNext(f, start, k, maxFree);
    }
  }

  lemma WindowTurn(f: Shape, start: nat, k: nat, maxFree: nat) returns (used: bool, m: nat, full: bool)
    requires ShapeOk(f) && f(0, 0) == EntryKind.Table && start < USER_TOP && start / GIGABYTE + k < 512
    requires EndsUsed(f, start / GIGABYTE, k) && SlotUsed(f, start / SLOT)
    ensures Turn(f, start / GIGABYTE + k, start + k * SLOT, k * SLOT, k > 0, USIZE_MAX, maxFree, used, m, full)
    ensures 0 < m <= 512 - IndexAt(start + k * SLOT, 2) && (!full ==> m < 512 - IndexAt(start + k * SLOT, 2))
    ensures k == 0 ==> used
    ensures used && full ==> EndsUsed(f, start / GIGABYTE, k + 1)
  {
    used, m, full := WindowAny(f, start, start / GIGABYTE, start + k * SLOT, k, k * SLOT, maxFree);
  }

  lemma WindowAny(f: Shape, start: nat, w: nat, cur: nat, k: nat, len: nat, maxFree: nat)
    returns (used: bool, m: nat, full: bool)
    requires ShapeOk(f) && f(0, 0) == EntryKind.Table && start < USER_TOP && w == start / GIGABYTE && w + k < 512
    requires EndsUsed(f, w, k) && SlotUsed(f, start / SLOT) && (k == 0 ==> cur == start)
    ensures Turn(f, w + k, cur, len, k > 0, USIZE_MAX, maxFree, used, m, full)
    ensures 0 < m <= 512 - IndexAt(cur, 2) && (!full ==> m < 512 - IndexAt(cur, 2))
    ensures k == 0 ==> used
    ensures used && full ==> EndsUsed(f, w, k + 1)
  {
    used, m, full := WindowStep(f, w + k, cur, len, k > 0, USIZE_MAX, maxFree);
    WindowMeans(f, start, w, k, IndexAt(cur, 2), used, m, full, Cap(used, USIZE_MAX, maxFree));
  }

  lemma WindowMeans(f: Shape, start: nat, w: nat, k: nat, i: nat, used: bool, m: nat, full: bool, cap: nat)
    requires EndsUsed(f, w, k) && SlotUsed(f, start / SLOT) && WindowIs(f, w + k, i, used, m, full, cap)
    requires w == start / GIGABYTE && (k == 0 ==> start < USER_TOP && i == IndexAt(start, 2))
    ensures 0 < m <= 512 - i && (!full ==> m < 512 - i)
    ensures k == 0 ==> used
    ensures used && full ==> EndsUsed(f, w, k + 1)
  {
    if k == 0 { FirstKind(f, start, used, m, full, cap); }
    if used && full { EndOfWindow(f, w, k, i, m, full, cap); }
  }

  lemma TurnEnds(f: Shape, start: nat, k: nat, maxFree: nat, used: bool, m: nat, full: bool)
    requires start < USER_TOP && start / GIGABYTE + k < 512
    requires EndsUsed(f, start / GIGABYTE, k) && SlotUsed(f, start / SLOT) && (k == 0 ==> used)
    requires !full || (k > 0 && !used)
    requires 0 < m <= 512 - IndexAt(start + k * SLOT, 2) && (!full ==> m < 512 - IndexAt(start + k * SLOT, 2))
    requires Turn(f, start / GIGABYTE + k, start + k * SLOT, k * SLOT, k > 0, USIZE_MAX, maxFree, used, m, full)
    ensures UsedStretch(f, start, UsedLoop(f, start, k, maxFree), k, if k > 0 && !used then 0 else m)
  {}

  lemma FirstKind(f: Shape, start: nat, used: bool, m: nat, full: bool, cap: nat)
    requires start < USER_TOP && WindowIs(f, start / GIGABYTE, IndexAt(start, 2), used, m, full, cap)
    ensures SlotUsed(f, start / SLOT) == used
  {
    AddressParts(start);
  }

  lemma EndOfWindow(f: Shape, w: nat, k: nat, i: nat, m: nat, full: bool, cap: nat)
    requires EndsUsed(f, w, k) && WindowIs(f, w + k, i, true, m, full, cap) && full
    ensures EndsUsed(f, w, k + 1)
  {
    assert SlotUsed(f, (w + k) * 512 + 511);
  }

  /** A position inside the last slot of a window, not at its start, is used. */
  ghost predicate LateOk(f: Shape, p: nat) {
    p < USER_TOP && IndexAt(p, 2) == 511 && p % SLOT != 0 ==> SlotUsed(f, p / SLOT)
  }

  /** Where a used stretch leads to. */
  lemma UsedLeads(f: Shape, start: nat, r: Region, c: nat, m: nat)
    requires start < USER_TOP && start % PAGE_SIZE == 0 && UsedStretch(f, start, r, c, m)
    ensures LateOk(f, start + r.len)
  {
    var p := start + r.len;
    if p < USER_TOP && IndexAt(p, 2) == 511 && p % SLOT != 0 {
      AddressParts(p);
      AddressParts(start);
      LateParts(start, c, m);
      assert p / SLOT == EndSlot(p / GIGABYTE);
    }
  }

  /** Such a position is still in the slot of the start, or at the end of one of the whole windows. */
  lemma LateParts(start: nat, c: nat, m: nat)
    requires start % PAGE_SIZE == 0 && m < 512 && c <= 512 && (c == 0 ==> 0 < m < 512 - start / SLOT % 512)
    requires start / SLOT % 512 + start / GIGABYTE * 512 == start / SLOT
    ensures (var p := start + c * SLOT + m * PAGE_SIZE;
             p / SLOT % 512 == 511 && p % SLOT != 0 ==>
             (c == 0 && p / SLOT == start / SLOT) || start / GIGABYTE <= p / SLOT / 512 < start / GIGABYTE + c)
  {
    var d := SlotShift(start, c, m);
    LateSlot(start / SLOT, start / GIGABYTE, c, d, m);
  }

  lemma SlotShift(start: nat, c: nat, m: nat) returns (d: nat)
    requires start % PAGE_SIZE == 0 && m < 512
    ensures d <= 1 && (d == 1 && m == 1 ==> (start + c * SLOT + m * PAGE_SIZE) % SLOT == 0)
    ensures (start + c * SLOT + m * PAGE_SIZE) / SLOT == start / SLOT + c + d
  {
    var x := start + m * PAGE_SIZE;
    d := x / SLOT - start / SLOT;
    assert (x + c * SLOT) / SLOT == x / SLOT + c && (x + c * SLOT) % SLOT == x % SLOT;
  }

  lemma LateSlot(s: nat, w: nat, c: nat, d: nat, m: nat)
    requires s % 512 + w * 512 == s && c <= 512 && d <= 1 && (c == 0 ==> 0 < m < 512 - s % 512)
    ensures (s + c + d) % 512 == 511 ==>
            (c == 0 && (d == 0 || m == 1)) || w <= (s + c + d) / 512 < w + c
  {}

  /** Free memory is passed over only when it is short, and then a used slot follows. */
  lemma FreeLeads(f: Shape, start: nat, size: nat)
    requires ShapeOk(f) && start < USER_TOP && start % PAGE_SIZE == 0 && size <= SLOT
    requires (var r := Measure(f, 0, 0, start, USIZE_MAX, size); !r.used && r.len < size)
    ensures LateOk(f, start + Measure(f, 0, 0, start, USIZE_MAX, size).len)
  {
    MeasureKind(f, start, USIZE_MAX, size);
    AddressParts(start);
    match f(0, 0)
    case Free => NextGrows(f, 0, 0, 0, start, 0, false, USIZE_MAX, size);
    case Block =>
    case Table =>
      var m := ShortStretch(f, start, size);
      ShortLeads(f, start, m);
  }

  lemma ShortLeads(f: Shape, start: nat, m: nat)
    requires start % PAGE_SIZE == 0 && 0 < m < 512 - IndexAt(start, 2) && SlotUsed(f, start / SLOT + m)
    ensures LateOk(f, start + m * PAGE_SIZE)
  {
    FreeParts(start, m);
  }

  lemma ShortStretch(f: Shape, start: nat, size: nat) returns (m: nat)
    requires ShapeOk(f) && start < USER_TOP && size <= SLOT && f(0, 0) == EntryKind.Table
    requires (var r := Measure(f, 0, 0, start, USIZE_MAX, size); !r.used && r.len < size)
    ensures Measure(f, 0, 0, start, USIZE_MAX, size).len == m * PAGE_SIZE
    ensures 0 < m < 512 - IndexAt(start, 2) && SlotUsed(f, start / SLOT + m)
  {
    AddressParts(start);
    var w := start / GIGABYTE;
    var used, m', full := WindowStep(f, w, start, 0, false, USIZE_MAX, size);
    m := m';
    TopStep(f, start, USIZE_MAX, size);
    if full { NextGrows(f, 1, 0, w, start, 0, used, USIZE_MAX, size); }
  }

  lemma FreeParts(start: nat, m: nat)
    requires start % PAGE_SIZE == 0 && 0 < m < 512 - start / SLOT % 512
    ensures (var p := start + m * PAGE_SIZE;
             p / SLOT % 512 == 511 && p % SLOT != 0 ==> m == 1 && p / SLOT == start / SLOT + 1)
  {}

  /** So does used memory. */
  lemma UsedMeasureLeads(f: Shape, start: nat, size: nat)
    requires ShapeOk(f) && start < USER_TOP && start % PAGE_SIZE == 0
    requires Measure(f, 0, 0, start, USIZE_MAX, size).used
    ensures LateOk(f, start + Measure(f, 0, 0, start, USIZE_MAX, size).len)
  {
    MeasureKind(f, start, USIZE_MAX, size);
    AddressParts(start);
    match f(0, 0)
    case Free => EmptyTop(f);
    case Block => AllBlock(f, start + Measure(f, 0, 0, start, USIZE_MAX, size).len);
    case Table =>
      UsedTableLeads(f, start, size);
  }

  lemma UsedTableLeads(f: Shape, start: nat, size: nat)
    requires ShapeOk(f) && start < USER_TOP && start % PAGE_SIZE == 0 && f(0, 0) == EntryKind.Table
    requires SlotUsed(f, start / SLOT)
    ensures LateOk(f, start + Measure(f, 0, 0, start, USIZE_MAX, size).len)
  {
    var c, m := UsedAtOne(f, start, size);
    TopStep(f, start, USIZE_MAX, size);
    EitherLeads(f, start, Measure(f, 1, 0, start, USIZE_MAX, size), Measure(f, 0, 0, start, USIZE_MAX, size), c, m);
  }

  lemma UsedAtOne(f: Shape, start: nat, size: nat) returns (c: nat, m: nat)
    requires ShapeOk(f) && start < USER_TOP && f(0, 0) == EntryKind.Table && SlotUsed(f, start / SLOT)
    ensures UsedStretch(f, start, Measure(f, 1, 0, start, USIZE_MAX, size), c, m)
  {
    AddressParts(start);
    c, m := UsedRun(f, start, 0, size);
    assert UsedLoop(f, start, 0, size) == Measure(f, 1, 0, start, USIZE_MAX, size);
  }

  /** The answer of level 1, or that of the top when level 1 has counted all windows. */
  lemma EitherLeads(f: Shape, start: nat, inner: Region, r: Region, c: nat, m: nat)
    requires start < USER_TOP && start % PAGE_SIZE == 0 && UsedStretch(f, start, inner, c, m)
    requires inner.len != (512 - start / GIGABYTE) * SLOT ==> r == inner
    ensures LateOk(f, start + r.len)
  {
    if inner.len == (512 - start / GIGABYTE) * SLOT {
      AllEnds(f, start, c, m, start + r.len);
    } else {
      UsedLeads(f, start, r, c, m);
    }
  }

  lemma AllBlock(f: Shape, p: nat)
    requires f(0, 0) == Block
    ensures LateOk(f, p)
  {
    if p < USER_TOP { AddressParts(p); }
  }

  /** All windows to the end are used: every one of them ends in a used slot. */
  lemma AllEnds(f: Shape, start: nat, c: nat, m: nat, p: nat)
    requires start < USER_TOP && EndsUsed(f, start / GIGABYTE, c) && m < 512 && start <= p
    requires c * SLOT + m * PAGE_SIZE == (512 - start / GIGABYTE) * SLOT
    ensures LateOk(f, p)
  {
    if p < USER_TOP && IndexAt(p, 2) == 511 {
      AddressParts(p);
      AddressParts(start);
      assert p / SLOT == EndSlot(p / GIGABYTE);
    }
  }

  /** The search never answers with such a position. */
  lemma {:induction false} LateHole(f: Shape, start: nat, size: nat)
    requires ShapeOk(f) && start % PAGE_SIZE == 0 && LateOk(f, start) && size <= SLOT
    ensures match FindHole(f, start, size) case None => true case Some(v) => LateOk(f, v)
    decreases USER_TOP - start
  {
    if start < USER_TOP && FindHole(f, start, size) != Some(start) {
      var next := LateStep(f, start, size);
      LateHole(f, next, size);
    }
  }

  lemma LateStep(f: Shape, start: nat, size: nat) returns (next: nat)
    requires ShapeOk(f) && start < USER_TOP && start % PAGE_SIZE == 0 && size <= SLOT
    requires FindHole(f, start, size) != Some(start)
    ensures next > start && next % PAGE_SIZE == 0 && LateOk(f, next)
    ensures FindHole(f, start, size) == FindHole(f, next, size)
  {
    var r := Measure(f, 0, 0, start, USIZE_MAX, size);
    FindHoleStep(f, start, size);
    MeasurePositive(f, start, USIZE_MAX, size);
    WholeSum(start, r.len);
    next := start + r.len;
    if r.used { UsedMeasureLeads(f, start, size); } else { FreeLeads(f, start, size); }
  }

  /** Up to 2 MB, the answer of the search is always a safe hole. */
  lemma SmallIsSafe(f: Shape, size: nat)
    requires ShapeOk(f) && size <= SLOT && FindHole(f, VMAP_START, size).Some?
    ensures SafeHole(FindHole(f, VMAP_START, size).value, PagesFor(size))
  {
    LateHole(f, VMAP_START, size);
    FindHoleAnswer(f, VMAP_START, size);
    var v := FindHole(f, VMAP_START, size).value;
    MeasureKind(f, v, USIZE_MAX, size);
    SafeParts(v, PagesFor(size));
  }

  lemma SafeParts(v: nat, n: nat)
    requires v % PAGE_SIZE == 0 && n <= 512 && !(v / SLOT % 512 == 511 && v % SLOT != 0)
    ensures SafeHole(v, n)
  {
    var q := v / PAGE_SIZE;
    assert q / 512 == v / SLOT && (v % SLOT != 0 <==> q % 512 != 0);
    RestOfWindow(q);
  }

  lemma RestOfWindow(q: nat)
    requires !(q / 512 % 512 == 511 && q % 512 != 0)
    ensures GIGABYTE_PAGES - q % GIGABYTE_PAGES >= 512
  {
    assert q % GIGABYTE_PAGES == q / 512 % 512 * 512 + q % 512;
  }

  /** A size beyond 2 MB is safe on no account: on these tables the search lands in the last slot. */
  lemma LargeIsUnsafe(n: nat)
    requires 512 < n <= ALL_PAGES
    ensures WellFormed(FullTree())
    ensures (var hole := FindHole(ShapeOf(FullTree()), VMAP_START, n * PAGE_SIZE);
             hole.Some? && hole.value / PAGE_SIZE + n > ALL_PAGES)
  {
    FullTreeIs();
    FullTidy();
    TidyAnswer(ShapeOf(FullTree()), ALL_SLOTS - 1, n * PAGE_SIZE);
    LastPages(FindHole(ShapeOf(FullTree()), VMAP_START, n * PAGE_SIZE).value, n);
  }

  lemma LastPages(v: nat, n: nat)
    requires v / SLOT == ALL_SLOTS - 1 && n > 512
    ensures v / PAGE_SIZE + n > ALL_PAGES
  {}

  lemma FullTidy()
    ensures Tidy(ShapeOf(FullTree()), ALL_SLOTS - 1)
  {
    var t := FullTree();
    FullTreeIs();
    ShapeOfOk(t);
    forall i: nat | 0 < i < 512 ensures ShapeOf(t)(0, i) == Free { FullEntries(0, i); }
    forall q: nat ensures ShapeOf(t)(0, q) != Block && ShapeOf(t)(1, q) != Block {
      FullEntries(0, q);
      FullEntries(1, q);
    }
    forall s: nat | FIRST_SLOT <= s < ALL_SLOTS ensures SlotUsed(ShapeOf(t), s) <==> s < ALL_SLOTS - 1 {
      FullEntries(0, s / 512 / 512);
      FullEntries(1, s / 512);
      FullEntries(2, s);
    }
  }

  /** Whatever the tables, what `vmap`'s search answers with is unmapped: exactly for sizes up to 2 MB, and those
      that are never found. */
  lemma SizeSafeIff(n: nat)
    ensures (forall t | WellFormed(t) && FindHole(ShapeOf(t), VMAP_START, n * PAGE_SIZE).Some? ::
               Unmapped(t, FindHole(ShapeOf(t), VMAP_START, n * PAGE_SIZE).value / PAGE_SIZE, n))
       <==> n <= 512 || n > ALL_PAGES
  {
    if n <= 512 || n > ALL_PAGES {
      forall t | WellFormed(t) && FindHole(ShapeOf(t), VMAP_START, n * PAGE_SIZE).Some?
        ensures Unmapped(t, FindHole(ShapeOf(t), VMAP_START, n * PAGE_SIZE).value / PAGE_SIZE, n)
      {
        if n > ALL_PAGES { TooLarge(ShapeOf(t), VMAP_START, n * PAGE_SIZE); } else { SmallIsFree(t, n); }
      }
    } else {
      LargeIsUnsafe(n);
      assert WellFormed(FullTree());
    }
  }

  lemma SmallIsFree(t: Tables, n: nat)
    requires WellFormed(t) && n <= 512 && FindHole(ShapeOf(t), VMAP_START, n * PAGE_SIZE).Some?
    ensures Unmapped(t, FindHole(ShapeOf(t), VMAP_START, n * PAGE_SIZE).value / PAGE_SIZE, n)
  {
    ShapeOfOk(t);
    SmallIsSafe(ShapeOf(t), n * PAGE_SIZE);
    HoleSound(ShapeOf(t), VMAP_START, n * PAGE_SIZE);
    FreeIsUnmapped(t, FindHole(ShapeOf(t), VMAP_START, n * PAGE_SIZE).value / PAGE_SIZE, n);
  }
}
