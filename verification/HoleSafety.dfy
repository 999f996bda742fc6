/** When the stretch that the hole search answers with is really free. */
module HoleSafety {
  import opened Addresses
  import opened Descriptors
  import opened Holes

  const SLOT: nat := 0x20_0000
  const GIGABYTE: nat := 0x4000_0000
  /** Slots and pages below the top of user addresses, and pages of a gigabyte. */
  const ALL_SLOTS: nat := 0x4_0000
  const ALL_PAGES: nat := 0x800_0000
  const GIGABYTE_PAGES: nat := 0x4_0000

  lemma AddressParts(start: nat)
    requires start < USER_TOP
    ensures IndexAt(start, 0) == 0 && IndexAt(start, 1) == start / GIGABYTE < 512
    ensures start / SLOT == start / GIGABYTE * 512 + IndexAt(start, 2)
    ensures start / SLOT / 512 == start / GIGABYTE && start / SLOT / 512 / 512 == 0
  {}

  /** The top level: either the level-1 answer, or that answer counted as one whole gigabyte and more. */
  lemma TopStep(f: Shape, start: nat, maxAlloc: nat, maxFree: nat)
    requires start < USER_TOP && f(0, 0) == EntryKind.Table
    ensures (var inner := Measure(f, 1, 0, start, maxAlloc, maxFree);
             var r := Measure(f, 0, 0, start, maxAlloc, maxFree);
             && r.used == inner.used
             && (inner.len != (512 - start / GIGABYTE) * SLOT ==> r == inner)
             && (inner.len == (512 - start / GIGABYTE) * SLOT ==>
                   r == MeasureNext(f, 0, 0, 0, start, 0, inner.used, maxAlloc, maxFree) && r.len >= GIGABYTE))
  {
    AddressParts(start);
    var inner := Measure(f, 1, 0, start, maxAlloc, maxFree);
    NextGrows(f, 0, 0, 0, start, 0, inner.used, maxAlloc, maxFree);
  }

  /** What a free answer of length `len` at `start` promises about the window of `start`: below 2 MB,
      one free slot for each page of the answer; from 2 MB on, the rest of the window. */
  ghost predicate RestFree(f: Shape, start: nat, len: nat) {
    var s, w := start / SLOT, start / GIGABYTE;
    if len >= SLOT then Slots(f, s, w * 512 + 512, false)
    else s + len / PAGE_SIZE <= w * 512 + 512 && Slots(f, s, s + len / PAGE_SIZE, false)
  }

  /** What it promises about the window behind, when `start` lies in the last slot of its own: the
      first `m` slots are free, and they make up the answer unless they are the whole window. */
  ghost predicate NextFree(f: Shape, w: nat, m: nat, len: nat) {
    0 < m <= 512 && Slots(f, w * 512, w * 512 + m, false) && (m == 512 || len <= SLOT + m * PAGE_SIZE)
  }

  lemma FirstWindow(f: Shape, start: nat, maxAlloc: nat, maxFree: nat)
    requires ShapeOk(f) && start < USER_TOP && f(0, 0) == EntryKind.Table
    requires !Measure(f, 1, 0, start, maxAlloc, maxFree).used
    ensures RestFree(f, start, Measure(f, 1, 0, start, maxAlloc, maxFree).len)
  {
    AddressParts(start);
    var w := start / GIGABYTE;
    var used, m, full := WindowStep(f, w, start, 0, false, maxAlloc, maxFree);
    if full {
      NextGrows(f, 1, 0, w, start, 0, used, maxAlloc, maxFree);
    }
  }

  lemma SecondWindow(f: Shape, start: nat, maxAlloc: nat, maxFree: nat) returns (m: nat)
    requires ShapeOk(f) && start < USER_TOP && f(0, 0) == EntryKind.Table
    requires IndexAt(start, 2) == 511 && start / GIGABYTE < 511
    requires (var r := Measure(f, 1, 0, start, maxAlloc, maxFree); !r.used && r.len > SLOT)
    ensures NextFree(f, start / GIGABYTE + 1, m, Measure(f, 1, 0, start, maxAlloc, maxFree).len)
  {
    AddressParts(start);
    var w := start / GIGABYTE;
    var used, m0, full := WindowStep(f, w, start, 0, false, maxAlloc, maxFree);
    assert full;
    NextGrows(f, 1, 0, w, start, 0, used, maxAlloc, maxFree);
    var cur := start + SLOT;
    assert IndexAt(cur, 2) == 0;
    var used', m', full' := WindowStep(f, w + 1, cur, SLOT, false, maxAlloc, maxFree);
    m := m';
  }

  /** With a zero top entry nothing at all is used. */
  lemma EmptyTop(f: Shape)
    requires ShapeOk(f) && f(0, 0) == Free
    ensures Slots(f, 0, ALL_SLOTS, false)
  {
    forall s: nat | s < ALL_SLOTS ensures !SlotUsed(f, s) {
      assert s / 512 / 512 == 0;
    }
  }

  lemma WindowKind(f: Shape, start: nat, maxAlloc: nat, maxFree: nat)
    requires ShapeOk(f) && start < USER_TOP && f(0, 0) == EntryKind.Table
    ensures Measure(f, 1, 0, start, maxAlloc, maxFree).used == SlotUsed(f, start / SLOT)
  {
    AddressParts(start);
    var w := start / GIGABYTE;
    var used, m, full := WindowStep(f, w, start, 0, false, maxAlloc, maxFree);
    assert SlotUsed(f, start / SLOT) == used;
    if full {
      NextGrows(f, 1, 0, w, start, 0, used, maxAlloc, maxFree);
    }
  }

  /** Every measurement is a positive number of pages, of the kind the slot of `start` is. */
  lemma MeasureKind(f: Shape, start: nat, maxAlloc: nat, maxFree: nat)
    requires ShapeOk(f) && start < USER_TOP
    ensures (var r := Measure(f, 0, 0, start, maxAlloc, maxFree);
             r.len > 0 && r.len % PAGE_SIZE == 0 && r.used == SlotUsed(f, start / SLOT))
  {
    AddressParts(start);
    MeasurePositive(f, start, maxAlloc, maxFree);
    match f(0, 0)
    case Free =>
      NextGrows(f, 0, 0, 0, start, 0, false, maxAlloc, maxFree);
      EmptyTop(f);
    case Block => NextGrows(f, 0, 0, 0, start, 0, true, maxAlloc, maxFree);
    case Table =>
      TopStep(f, start, maxAlloc, maxFree);
      WindowKind(f, start, maxAlloc, maxFree);
  }

  lemma FreeSound(f: Shape, start: nat, maxAlloc: nat, maxFree: nat)
    requires ShapeOk(f) && start < USER_TOP && !Measure(f, 0, 0, start, maxAlloc, maxFree).used
    ensures RestFree(f, start, Measure(f, 0, 0, start, maxAlloc, maxFree).len)
  {
    AddressParts(start);
    match f(0, 0)
    case Free =>
      NextGrows(f, 0, 0, 0, start, 0, false, maxAlloc, maxFree);
      EmptyTop(f);
    case Block => NextGrows(f, 0, 0, 0, start, 0, true, maxAlloc, maxFree);
    case Table =>
      TopStep(f, start, maxAlloc, maxFree);
      FirstWindow(f, start, maxAlloc, maxFree);
  }

  lemma FreeSoundNext(f: Shape, start: nat, maxAlloc: nat, maxFree: nat) returns (m: nat)
    requires ShapeOk(f) && start < USER_TOP && IndexAt(start, 2) == 511 && start / GIGABYTE < 511
    requires (var r := Measure(f, 0, 0, start, maxAlloc, maxFree); !r.used && r.len > SLOT)
    ensures NextFree(f, start / GIGABYTE + 1, m, Measure(f, 0, 0, start, maxAlloc, maxFree).len)
  {
    AddressParts(start);
    m := 512;
    match f(0, 0)
    case Free => EmptyTop(f);
    case Block => NextGrows(f, 0, 0, 0, start, 0, true, maxAlloc, maxFree);
    case Table =>
      TopStep(f, start, maxAlloc, maxFree);
      m := SecondWindow(f, start, maxAlloc, maxFree);
  }

  /** A condition on the answer `start` and the number `n` of pages asked for, and on nothing else:
      the region ends inside the window of `start`; or `start` lies in the last slot of a window,
      more than a slot is asked for, and the region ends inside the window behind. */
  predicate SafeHole(start: nat, n: nat) {
    var rest := GIGABYTE_PAGES - start / PAGE_SIZE % GIGABYTE_PAGES;
    || n <= rest
    || (rest <= 512 && start / GIGABYTE < 511 && 512 < n <= rest + GIGABYTE_PAGES)
  }

  /** The `n` pages from page `v` on are user pages in unused slots. */
  ghost predicate PagesFree(f: Shape, v: nat, n: nat) {
    forall q: nat | v <= q < v + n :: q < ALL_PAGES && !SlotUsed(f, q / 512)
  }

  /** A free answer long enough for `n` pages covers them when the hole is a safe one. */
  lemma AnswerCovers(f: Shape, start: nat, n: nat, maxAlloc: nat, maxFree: nat)
    requires ShapeOk(f) && start < USER_TOP && start % PAGE_SIZE == 0 && SafeHole(start, n)
    requires (var r := Measure(f, 0, 0, start, maxAlloc, maxFree); !r.used && n * PAGE_SIZE <= r.len)
    ensures PagesFree(f, start / PAGE_SIZE, n)
  {
    var len := Measure(f, 0, 0, start, maxAlloc, maxFree).len;
    FreeSound(f, start, maxAlloc, maxFree);
    if n <= GIGABYTE_PAGES - start / PAGE_SIZE % GIGABYTE_PAGES {
      CoversFirst(f, start, n, len);
    } else {
      LastSlot(start);
      var m := FreeSoundNext(f, start, maxAlloc, maxFree);
      CoversSecond(f, start, n, len, m);
    }
  }

  lemma LastSlot(start: nat)
    requires start < USER_TOP && GIGABYTE_PAGES - start / PAGE_SIZE % GIGABYTE_PAGES <= 512
    ensures IndexAt(start, 2) == 511
  {
    var v := start / PAGE_SIZE;
    assert start / SLOT == v / 512 && v % GIGABYTE_PAGES / 512 == v / 512 % 512;
  }

  lemma CoversFirst(f: Shape, start: nat, n: nat, len: nat)
    requires start < USER_TOP && start % PAGE_SIZE == 0 && n * PAGE_SIZE <= len && RestFree(f, start, len)
    requires n <= GIGABYTE_PAGES - start / PAGE_SIZE % GIGABYTE_PAGES
    ensures PagesFree(f, start / PAGE_SIZE, n)
  {
    forall q: nat | start / PAGE_SIZE <= q < start / PAGE_SIZE + n ensures q < ALL_PAGES && !SlotUsed(f, q / 512) {
      FirstPart(start, n, len, q);
    }
  }

  lemma CoversSecond(f: Shape, start: nat, n: nat, len: nat, m: nat)
    requires start < USER_TOP && start % PAGE_SIZE == 0 && n * PAGE_SIZE <= len && RestFree(f, start, len)
    requires NextFree(f, start / GIGABYTE + 1, m, len)
    requires n > GIGABYTE_PAGES - start / PAGE_SIZE % GIGABYTE_PAGES && SafeHole(start, n)
    ensures PagesFree(f, start / PAGE_SIZE, n)
  {
    forall q: nat | start / PAGE_SIZE <= q < start / PAGE_SIZE + n ensures q < ALL_PAGES && !SlotUsed(f, q / 512) {
      SecondPart(start, n, len, m, q);
    }
  }

  lemma FirstPart(start: nat, n: nat, len: nat, q: nat)
    requires start < USER_TOP && start % PAGE_SIZE == 0 && n * PAGE_SIZE <= len
    requires start / PAGE_SIZE <= q < start / PAGE_SIZE + n
    requires n <= GIGABYTE_PAGES - start / PAGE_SIZE % GIGABYTE_PAGES
    ensures q < ALL_PAGES && start / SLOT <= q / 512 < start / GIGABYTE * 512 + 512
    ensures len < SLOT ==> q / 512 < start / SLOT + len / PAGE_SIZE
  {
    var v := start / PAGE_SIZE;
    assert start / SLOT == v / 512 && start / GIGABYTE == v / GIGABYTE_PAGES;
  }

  lemma SecondPart(start: nat, n: nat, len: nat, m: nat, q: nat)
    requires start < USER_TOP && start % PAGE_SIZE == 0 && n * PAGE_SIZE <= len
    requires start / PAGE_SIZE <= q < start / PAGE_SIZE + n
    requires n > GIGABYTE_PAGES - start / PAGE_SIZE % GIGABYTE_PAGES && SafeHole(start, n)
    requires 0 < m <= 512 && (m == 512 || len <= SLOT + m * PAGE_SIZE)
    ensures q < ALL_PAGES && start / SLOT <= q / 512 < (start / GIGABYTE + 1) * 512 + m && len > SLOT
  {
    var v := start / PAGE_SIZE;
    assert start / SLOT == v / 512 && start / GIGABYTE == v / GIGABYTE_PAGES;
  }

  /** What the search answers with: a page address from `start` on where a long enough free stretch was measured. */
  lemma {:induction false} FindHoleAnswer(f: Shape, start: nat, size: nat)
    requires start % PAGE_SIZE == 0
    ensures match FindHole(f, start, size)
            case None => true
            case Some(v) => (var r := Measure(f, 0, 0, v, USIZE_MAX, size);
                             start <= v < USER_TOP && v % PAGE_SIZE == 0 && !r.used && r.len >= size)
    decreases USER_TOP - start
  {
    if start < USER_TOP {
      MeasurePositive(f, start, USIZE_MAX, size);
      FindHoleAnswer(f, start + Measure(f, 0, 0, start, USIZE_MAX, size).len, size);
    }
  }

  function PagesFor(size: nat): nat {
    (size + PAGE_SIZE - 1) / PAGE_SIZE
  }

  /** Whatever the tree, the pages of the answer up to the end of its window are free, and all of
      them are when the hole is a safe one. */
  lemma HoleSound(f: Shape, start: nat, size: nat)
    requires ShapeOk(f) && start % PAGE_SIZE == 0 && FindHole(f, start, size).Some?
    ensures (var v := FindHole(f, start, size).value;
             var n, rest := PagesFor(size), GIGABYTE_PAGES - v / PAGE_SIZE % GIGABYTE_PAGES;
             && start <= v < USER_TOP && v % PAGE_SIZE == 0
             && PagesFree(f, v / PAGE_SIZE, if n <= rest then n else rest)
             && (SafeHole(v, n) ==> PagesFree(f, v / PAGE_SIZE, n)))
  {
    FindHoleAnswer(f, start, size);
    var v := FindHole(f, start, size).value;
    MeasurePositive(f, v, USIZE_MAX, size);
    var n, rest := PagesFor(size), GIGABYTE_PAGES - v / PAGE_SIZE % GIGABYTE_PAGES;
    AnswerFits(f, v, if n <= rest then n else rest, size);
    if SafeHole(v, n) {
      AnswerFits(f, v, n, size);
    }
  }

  lemma AnswerFits(f: Shape, v: nat, n: nat, size: nat)
    requires ShapeOk(f) && v < USER_TOP && v % PAGE_SIZE == 0 && SafeHole(v, n) && n <= PagesFor(size)
    requires (var r := Measure(f, 0, 0, v, USIZE_MAX, size); !r.used && r.len >= size && r.len % PAGE_SIZE == 0)
    ensures PagesFree(f, v / PAGE_SIZE, n)
  {
    WholePagesFit(n, size, Measure(f, 0, 0, v, USIZE_MAX, size).len);
    AnswerCovers(f, v, n, USIZE_MAX, size);
  }

  lemma WholePagesFit(n: nat, size: nat, len: nat)
    requires n <= PagesFor(size) && size <= len && len % PAGE_SIZE == 0
    ensures n * PAGE_SIZE <= len
  {}

  // The search on trees that are free from some slot on, but for one slot it never looks at.

  /** All slots from `s` on are unused, except possibly slot `x`. */
  ghost predicate FreeBut(f: Shape, s: nat, x: nat) {
    forall slot: nat | s <= slot < ALL_SLOTS && slot != x :: !SlotUsed(f, slot)
  }

  /** Measuring from `start` enters the window of slot `x` behind `x`: `x` begins a later window, and
      each window is entered one slot further in than the one before. */
  predicate Skips(start: nat, x: nat) {
    x >= ALL_SLOTS
    || (x % 512 == 0 && x / 512 > start / GIGABYTE && (start / SLOT + x / 512 - start / GIGABYTE) % 512 != 0)
  }

  lemma FreeWindowStep(f: Shape, start: nat, idx: nat, x: nat, len: nat, maxAlloc: nat, maxFree: nat)
    returns (m: nat, full: bool)
    requires ShapeOk(f) && f(0, 0) == EntryKind.Table
    requires start < USER_TOP && FreeBut(f, start / SLOT, x) && Skips(start, x) && start / GIGABYTE <= idx < 512
    ensures m > 0 && (!full ==> m * PAGE_SIZE >= maxFree)
    ensures Turn(f, idx, start + (idx - start / GIGABYTE) * SLOT, len, false, maxAlloc, maxFree, false, m, full)
  {
    var cur := start + (idx - start / GIGABYTE) * SLOT;
    var used, m', full' := WindowStep(f, idx, cur, len, false, maxAlloc, maxFree);
    m, full := m', full';
    var s := idx * 512 + IndexAt(cur, 2);
    VisitedSlot(start, idx, x);
    assert !SlotUsed(f, s);
    assert !full ==> !SlotUsed(f, s + m);
  }

  lemma VisitedSlot(start: nat, idx: nat, x: nat)
    requires start < USER_TOP && Skips(start, x) && start / GIGABYTE <= idx < 512
    ensures (var s := idx * 512 + IndexAt(start + (idx - start / GIGABYTE) * SLOT, 2);
             start / SLOT <= s < idx * 512 + 512 && !(s <= x < idx * 512 + 512))
  {
    var k := idx - start / GIGABYTE;
    assert (start + k * SLOT) / SLOT == start / SLOT + k;
  }

  /** The level-1 loop of a measurement from `start`, after `k` windows of free memory. */
  function FreeLoop(f: Shape, start: nat, k: nat, maxAlloc: nat, maxFree: nat): Region
    requires start / GIGABYTE + k <= 512
  {
    MeasureFrom(f, 1, 0, start / GIGABYTE + k, start + k * SLOT, k * SLOT, false, maxAlloc, maxFree)
  }

  lemma FreeTurn(f: Shape, start: nat, k: nat, x: nat, maxAlloc: nat, maxFree: nat)
    requires ShapeOk(f) && f(0, 0) == EntryKind.Table
    requires start < USER_TOP && FreeBut(f, start / SLOT, x) && Skips(start, x) && start / GIGABYTE + k < 512
    ensures (var r := FreeLoop(f, start, k, maxAlloc, maxFree);
             r == FreeLoop(f, start, k + 1, maxAlloc, maxFree) || (!r.used && r.len >= maxFree))
  {
    var m, full := FreeWindowStep(f, start, start / GIGABYTE + k, x, k * SLOT, maxAlloc, maxFree);
    assert start + (k + 1) * SLOT == start + k * SLOT + SLOT;
  }

  lemma {:induction false} FreeTail(f: Shape, start: nat, k: nat, x: nat, maxAlloc: nat, maxFree: nat)
    requires ShapeOk(f) && f(0, 0) == EntryKind.Table
    requires start < USER_TOP && FreeBut(f, start / SLOT, x) && Skips(start, x) && start / GIGABYTE + k <= 512
    ensures (var r := FreeLoop(f, start, k, maxAlloc, maxFree);
             !r.used && (r.len >= maxFree || r.len == (512 - start / GIGABYTE) * SLOT))
    decreases 512 - k
  {
    if start / GIGABYTE + k < 512 {
      FreeTurn(f, start, k, x, maxAlloc, maxFree);
      FreeTail(f, start, k + 1, x, maxAlloc, maxFree);
    }
  }
}
