/** The search for a free stretch of virtual addresses. */
module Holes {
  import opened Wrappers
  import opened Addresses
  import opened Descriptors
  import opened PageTables

  /** User addresses end here. */
  const USER_TOP: nat := 0x80_0000_0000
  const USIZE_MAX: nat := 0xffff_ffff_ffff_ffff

  /** A measured stretch: its kind, and the length reported for it. */
  datatype Region = Region(used: bool, len: nat)

  /** The bytes the search counts for an entry of the level: `1 << (addr_shift - 9)`. */
  function CountAt(level: nat): nat
    requires level <= 2
  {
    if level == 0 then 0x4000_0000 else if level == 1 then 0x20_0000 else 0x1000
  }

  function IndexAt(addr: nat, level: nat): nat
    requires level <= 2
  {
    addr / Span(level) % 512
  }

  /** All the search sees of the tables: for each level, what each entry is. */
  type Shape = (nat, nat) -> EntryKind

  function ShapeOf(t: Tables): Shape {
    (level: nat, q: nat) => KindOf(Entry(t, level, q))
  }

  /** The search does not look below level 2: there, any non-zero entry counts as allocated. */
  function KindAt(f: Shape, level: nat, q: nat): EntryKind {
    if level == 2 then (if f(2, q) == Free then Free else Block) else f(level, q)
  }

  /** There is nothing below an entry that is not a table. */
  ghost predicate ShapeOk(f: Shape) {
    && (forall q: nat :: f(1, q) != Free ==> f(0, q / 512) == EntryKind.Table)
    && (forall q: nat :: f(2, q) != Free ==> f(1, q / 512) == EntryKind.Table)
  }

  lemma ShapeOfOk(t: Tables)
    requires WellFormed(t)
    ensures ShapeOk(ShapeOf(t))
  {
    var f := ShapeOf(t);
    forall q: nat ensures f(1, q) != Free ==> f(0, q / 512) == EntryKind.Table {
      BelowFree(t, 0, q / 512);
    }
    forall q: nat ensures f(2, q) != Free ==> f(1, q / 512) == EntryKind.Table {
      BelowFree(t, 1, q / 512);
    }
  }

  /** The length at which a stretch of the kind needs no further measuring. */
  function Cap(used: bool, maxAlloc: nat, maxFree: nat): nat {
    if used then maxAlloc else maxFree
  }

  /** The stretch that starts at `start`, measured within the table at `prefix`. */
  function Measure(f: Shape, level: nat, prefix: nat, start: nat, maxAlloc: nat, maxFree: nat): Region
    requires level <= 2
    decreases 2 - level, 513
  {
    MeasureFrom(f, level, prefix, IndexAt(start, level), start, 0, false, maxAlloc, maxFree)
  }

  /** The measuring loop from entry `idx` on, with `len` bytes of kind `alloc` counted so far. */
  function MeasureFrom(f: Shape, level: nat, prefix: nat, idx: nat, cur: nat, len: nat, alloc: bool,
                       maxAlloc: nat, maxFree: nat): Region
    requires level <= 2 && idx <= 512
    decreases 2 - level, 512 - idx
  {
    if idx == 512 then Region(alloc, len)
    else
      match KindAt(f, level, prefix * 512 + idx)
      case Block =>
        if !alloc && len != 0 then Region(false, len)
        else MeasureNext(f, level, prefix, idx, cur, len, true, maxAlloc, maxFree)
      case Free =>
        if alloc && len != 0 then Region(true, len)
        else MeasureNext(f, level, prefix, idx, cur, len, false, maxAlloc, maxFree)
      case Table =>
        var inner := Measure(f, level + 1, prefix * 512 + idx, cur, maxAlloc, maxFree);
        if inner.used != alloc && len != 0 then Region(alloc, len)
        else if inner.len != (512 - IndexAt(cur, level + 1)) * CountAt(level + 1) then
          Region(inner.used, len + inner.len)
        else MeasureNext(f, level, prefix, idx, cur, len, inner.used, maxAlloc, maxFree)
  }

  /** Counts entry `idx` as a whole and goes on to the next, unless the cap is reached. */
  function MeasureNext(f: Shape, level: nat, prefix: nat, idx: nat, cur: nat, len: nat, alloc: bool,
                       maxAlloc: nat, maxFree: nat): Region
    requires level <= 2 && idx < 512
    decreases 2 - level, 512 - idx, 0
  {
    var len' := len + CountAt(level);
    if len' >= Cap(alloc, maxAlloc, maxFree) then Region(alloc, len')
    else MeasureFrom(f, level, prefix, idx + 1, cur + CountAt(level), len', alloc, maxAlloc, maxFree)
  }

  /** A started stretch keeps its kind and only gets longer. */
  ghost predicate Extends(r: Region, len: nat, alloc: bool) {
    r.len >= len && (len > 0 ==> r.used == alloc)
  }

  lemma {:induction false} MeasureGrows(f: Shape, level: nat, prefix: nat, idx: nat, cur: nat, len: nat, alloc: bool,
                                        maxAlloc: nat, maxFree: nat)
    requires level <= 2 && idx <= 512
    ensures Extends(MeasureFrom(f, level, prefix, idx, cur, len, alloc, maxAlloc, maxFree), len, alloc)
    ensures idx < 512 ==> MeasureFrom(f, level, prefix, idx, cur, len, alloc, maxAlloc, maxFree).len > 0
    decreases 2 - level, 512 - idx
  {
    if idx < 512 {
      match KindAt(f, level, prefix * 512 + idx)
      case Block => NextGrows(f, level, prefix, idx, cur, len, true, maxAlloc, maxFree);
      case Free => NextGrows(f, level, prefix, idx, cur, len, false, maxAlloc, maxFree);
      case Table =>
        MeasureGrows(f, level + 1, prefix * 512 + idx, IndexAt(cur, level + 1), cur, 0, false, maxAlloc, maxFree);
        var inner := Measure(f, level + 1, prefix * 512 + idx, cur, maxAlloc, maxFree);
        NextGrows(f, level, prefix, idx, cur, len, inner.used, maxAlloc, maxFree);
    }
  }

  lemma {:induction false} NextGrows(f: Shape, level: nat, prefix: nat, idx: nat, cur: nat, len: nat, alloc: bool,
                                     maxAlloc: nat, maxFree: nat)
    requires level <= 2 && idx < 512
    ensures (var r := MeasureNext(f, level, prefix, idx, cur, len, alloc, maxAlloc, maxFree);
             r.used == alloc && Extends(r, len, alloc) && r.len >= len + CountAt(level))
    decreases 2 - level, 512 - idx, 0
  {
    MeasureGrows(f, level, prefix, idx + 1, cur + CountAt(level), len + CountAt(level), alloc, maxAlloc, maxFree);
  }

  lemma WholeSum(a: nat, b: nat)
    requires a % PAGE_SIZE == 0 && b % PAGE_SIZE == 0
    ensures (a + b) % PAGE_SIZE == 0
  {}

  /** Lengths are whole pages. */
  lemma {:induction false} MeasureWhole(f: Shape, level: nat, prefix: nat, idx: nat, cur: nat, len: nat, alloc: bool,
                                        maxAlloc: nat, maxFree: nat)
    requires level <= 2 && idx <= 512 && len % PAGE_SIZE == 0
    ensures MeasureFrom(f, level, prefix, idx, cur, len, alloc, maxAlloc, maxFree).len % PAGE_SIZE == 0
    decreases 2 - level, 512 - idx
  {
    if idx < 512 {
      match KindAt(f, level, prefix * 512 + idx)
      case Block => NextWhole(f, level, prefix, idx, cur, len, true, maxAlloc, maxFree);
      case Free => NextWhole(f, level, prefix, idx, cur, len, false, maxAlloc, maxFree);
      case Table =>
        MeasureWhole(f, level + 1, prefix * 512 + idx, IndexAt(cur, level + 1), cur, 0, false, maxAlloc, maxFree);
        var inner := Measure(f, level + 1, prefix * 512 + idx, cur, maxAlloc, maxFree);
        WholeSum(len, inner.len);
        NextWhole(f, level, prefix, idx, cur, len, inner.used, maxAlloc, maxFree);
    }
  }

  lemma {:induction false} NextWhole(f: Shape, level: nat, prefix: nat, idx: nat, cur: nat, len: nat, alloc: bool,
                                     maxAlloc: nat, maxFree: nat)
    requires level <= 2 && idx < 512 && len % PAGE_SIZE == 0
    ensures MeasureNext(f, level, prefix, idx, cur, len, alloc, maxAlloc, maxFree).len % PAGE_SIZE == 0
    decreases 2 - level, 512 - idx, 0
  {
    WholeSum(len, CountAt(level));
    MeasureWhole(f, level, prefix, idx + 1, cur + CountAt(level), len + CountAt(level), alloc, maxAlloc, maxFree);
  }

  /** Progress: every measurement is a positive number of pages. */
  lemma MeasurePositive(f: Shape, start: nat, maxAlloc: nat, maxFree: nat)
    ensures (var r := Measure(f, 0, 0, start, maxAlloc, maxFree); r.len > 0 && r.len % PAGE_SIZE == 0)
  {
    MeasureGrows(f, 0, 0, IndexAt(start, 0), start, 0, false, maxAlloc, maxFree);
    MeasureWhole(f, 0, 0, IndexAt(start, 0), start, 0, false, maxAlloc, maxFree);
  }

  /** The lowest address from `start` on at which a free stretch of the reported length begins. */
  function FindHole(f: Shape, start: nat, size: nat): Option<nat>
    decreases USER_TOP - start
  {
    if start >= USER_TOP then None
    else
      var r := Measure(f, 0, 0, start, USIZE_MAX, size);
      MeasurePositive(f, start, USIZE_MAX, size);
      if !r.used && r.len >= size then Some(start)
      else FindHole(f, start + r.len, size)
  }

  lemma FindHoleStep(f: Shape, start: nat, size: nat)
    requires start < USER_TOP
    ensures (var r := Measure(f, 0, 0, start, USIZE_MAX, size);
             && r.len > 0
             && FindHole(f, start, size) ==
                if !r.used && r.len >= size then Some(start) else FindHole(f, start + r.len, size))
  {
    MeasurePositive(f, start, USIZE_MAX, size);
  }

  // Slots: the 2 MB stretches a level-2 entry stands for. Slot `s` holds the addresses from `s * 2 MB`.

  /** Some entry on the way down to the slot is a block, or its level-2 entry is not zero. */
  predicate SlotUsed(f: Shape, s: nat) {
    || f(0, s / 512 / 512) == Block
    || f(1, s / 512) == Block
    || f(2, s) != Free
  }

  ghost predicate Slots(f: Shape, lo: nat, hi: nat, used: bool) {
    forall s: nat | lo <= s < hi :: SlotUsed(f, s) == used
  }

  /** A page of an unused slot is not mapped. */
  lemma UnusedUnmapped(t: Tables, vpn: nat)
    requires WellFormed(t) && !SlotUsed(ShapeOf(t), vpn / 512)
    ensures Entry(t, 3, vpn) == 0 && View(t, vpn) == None
  {
    BelowFree(t, 2, vpn / 512);
    assert Up(vpn, 2) == vpn / 512 && Up(vpn, 1) == vpn / 512 / 512 && Up(vpn, 0) == vpn / 512 / 512 / 512;
  }

  /** The stretch stopped where it did for a reason: the table ends, the kind changes, or the cap is reached. */
  ghost predicate StopsAt(f: Shape, w: nat, end: nat, r: Region, maxAlloc: nat, maxFree: nat) {
    || end == 512
    || (f(2, w * 512 + end) != Free) != r.used
    || r.len >= Cap(r.used, maxAlloc, maxFree)
  }

  ghost predicate Entries(f: Shape, lo: nat, hi: nat, used: bool) {
    forall s: nat | lo <= s < hi :: (f(2, s) != Free) == used
  }

  /** Measuring a level-2 table counts one page for each of the next `m` slots of one kind. */
  lemma {:induction false} SlotRun(f: Shape, w: nat, idx: nat, cur: nat, len: nat, alloc: bool,
                                   maxAlloc: nat, maxFree: nat)
    returns (m: nat)
    requires idx <= 512
    ensures (var r := MeasureFrom(f, 2, w, idx, cur, len, alloc, maxAlloc, maxFree);
             && r.len == len + m * PAGE_SIZE && idx + m <= 512
             && (len > 0 ==> r.used == alloc) && (len == 0 && idx < 512 ==> m > 0)
             && Entries(f, w * 512 + idx, w * 512 + idx + m, r.used)
             && (len > 0 || idx < 512 ==> StopsAt(f, w, idx + m, r, maxAlloc, maxFree)))
    decreases 512 - idx
  {
    if idx == 512 {
      m := 0;
    } else {
      var used := f(2, w * 512 + idx) != Free;
      if len != 0 && used != alloc {
        m := 0;
      } else if len + PAGE_SIZE >= Cap(used, maxAlloc, maxFree) {
        m := 1;
      } else {
        var m' := SlotRun(f, w, idx + 1, cur + PAGE_SIZE, len + PAGE_SIZE, used, maxAlloc, maxFree);
        m := m' + 1;
      }
    }
  }

  lemma MeasureSlots(f: Shape, w: nat, start: nat, maxAlloc: nat, maxFree: nat) returns (m: nat)
    ensures (var r := Measure(f, 2, w, start, maxAlloc, maxFree);
             var i := IndexAt(start, 2);
             && r.len == m * PAGE_SIZE && 0 < m <= 512 - i
             && Entries(f, w * 512 + i, w * 512 + i + m, r.used)
             && StopsAt(f, w, i + m, r, maxAlloc, maxFree))
  {
    m := SlotRun(f, w, IndexAt(start, 2), start, 0, false, maxAlloc, maxFree);
  }

  // One window: the 1 GB stretch a level-1 entry stands for, 512 slots.

  /** What measuring finds in window `w` from slot index `i` on: `m` slots of one kind, `full` when
      that is counted as the whole window. */
  ghost predicate WindowIs(f: Shape, w: nat, i: nat, used: bool, m: nat, full: bool, cap: nat) {
    && i < 512 && 0 < m <= 512 - i && (full ==> m == 512 - i)
    && Slots(f, w * 512 + i, w * 512 + i + m, used)
    && (!full ==> m < 512 - i && (SlotUsed(f, w * 512 + i + m) != used || m * PAGE_SIZE >= cap))
  }

  /** What the level-1 loop makes of the window: the stretch so far ends here, the window counts as a
      whole, or the stretch ends inside it. */
  ghost predicate Turn(f: Shape, w: nat, cur: nat, len: nat, alloc: bool, maxAlloc: nat, maxFree: nat,
                       used: bool, m: nat, full: bool)
    requires w < 512
  {
    MeasureFrom(f, 1, 0, w, cur, len, alloc, maxAlloc, maxFree) ==
    if used != alloc && len != 0 then Region(alloc, len)
    else if full then MeasureNext(f, 1, 0, w, cur, len, used, maxAlloc, maxFree)
    else Region(used, len + m * PAGE_SIZE)
  }

  /** One turn of the level-1 loop, whatever the entry is. */
  lemma WindowStep(f: Shape, w: nat, cur: nat, len: nat, alloc: bool, maxAlloc: nat, maxFree: nat)
    returns (used: bool, m: nat, full: bool)
    requires ShapeOk(f) && w < 512 && f(0, 0) == EntryKind.Table
    ensures WindowIs(f, w, IndexAt(cur, 2), used, m, full, Cap(used, maxAlloc, maxFree))
    ensures Turn(f, w, cur, len, alloc, maxAlloc, maxFree, used, m, full)
  {
    used, m, full := WindowFinds(f, w, cur, maxAlloc, maxFree);
  }

  lemma WindowFinds(f: Shape, w: nat, cur: nat, maxAlloc: nat, maxFree: nat) returns (used: bool, m: nat, full: bool)
    requires ShapeOk(f) && w < 512 && f(0, 0) == EntryKind.Table
    ensures WindowIs(f, w, IndexAt(cur, 2), used, m, full, Cap(used, maxAlloc, maxFree))
    ensures match f(1, w)
            case Block => used && full
            case Free => !used && full
            case Table => (var r := Measure(f, 2, w, cur, maxAlloc, maxFree);
                           r.used == used && r.len == m * PAGE_SIZE && full == (m == 512 - IndexAt(cur, 2)))
  {
    var i := IndexAt(cur, 2);
    match f(1, w) {
      case Block =>
        used, m, full := true, 512 - i, true;
        BlockWindow(f, w);
      case Free =>
        used, m, full := false, 512 - i, true;
        FreeWindow(f, w);
      case Table =>
        used := Measure(f, 2, w, cur, maxAlloc, maxFree).used;
        m := TableFinds(f, w, cur, maxAlloc, maxFree);
        full := m == 512 - i;
    }
  }

  lemma TableFinds(f: Shape, w: nat, cur: nat, maxAlloc: nat, maxFree: nat) returns (m: nat)
    requires ShapeOk(f) && w < 512
    requires f(0, 0) == EntryKind.Table && f(1, w) == EntryKind.Table
    ensures (var r := Measure(f, 2, w, cur, maxAlloc, maxFree);
             var i := IndexAt(cur, 2);
             && r.len == m * PAGE_SIZE
             && WindowIs(f, w, i, r.used, m, m == 512 - i, Cap(r.used, maxAlloc, maxFree)))
  {
    m := MeasureSlots(f, w, cur, maxAlloc, maxFree);
    TableWindow(f, w);
  }

  lemma BlockWindow(f: Shape, w: nat)
    requires f(1, w) == Block
    ensures Slots(f, w * 512, w * 512 + 512, true)
  {
    forall s: nat | w * 512 <= s < w * 512 + 512 ensures SlotUsed(f, s) { assert s / 512 == w; }
  }

  lemma FreeWindow(f: Shape, w: nat)
    requires ShapeOk(f) && w < 512 && f(0, 0) != Block && f(1, w) == Free
    ensures Slots(f, w * 512, w * 512 + 512, false)
  {
  }

  lemma TableWindow(f: Shape, w: nat)
    requires ShapeOk(f) && w < 512
    requires f(0, 0) == EntryKind.Table && f(1, w) == EntryKind.Table
    ensures forall s: nat | w * 512 <= s < w * 512 + 512 :: SlotUsed(f, s) == (f(2, s) != Free)
  {
    forall s: nat | w * 512 <= s < w * 512 + 512 ensures SlotUsed(f, s) == (f(2, s) != Free) {
      assert s / 512 == w && w / 512 == 0;
    }
  }
}
