/** Exactly which answers of the hole search can be trusted. */
module HoleLimits {
  import opened Wrappers
  import opened Words
  import opened Addresses
  import opened Descriptors
  import opened PageTables
  import opened Holes
  import opened HoleSafety

  /** Nothing hangs off the top table but its first entry, the only one user addresses use. */
  ghost predicate OnlyLow(f: Shape) {
    forall i: nat | 0 < i < 512 :: f(0, i) == Free
  }

  lemma {:induction false} TopTail(f: Shape, idx: nat, cur: nat, len: nat, maxAlloc: nat, maxFree: nat)
    requires idx <= 512 && forall i: nat | idx <= i < 512 :: f(0, i) == Free
    ensures (var r := MeasureFrom(f, 0, 0, idx, cur, len, false, maxAlloc, maxFree);
             !r.used && (r.len >= maxFree || r.len == len + (512 - idx) * GIGABYTE))
    decreases 512 - idx
  {
    if idx < 512 {
      assert KindAt(f, 0, idx) == Free;
      TopTail(f, idx + 1, cur + GIGABYTE, len + GIGABYTE, maxAlloc, maxFree);
    }
  }

  /** The search answers with its own starting point when what it looks at from there on is free. */
  lemma FreeAnswer(f: Shape, start: nat, x: nat, size: nat)
    requires ShapeOk(f) && OnlyLow(f) && f(0, 0) != Block
    requires start < USER_TOP && size <= USER_TOP && FreeBut(f, start / SLOT, x) && Skips(start, x)
    ensures FindHole(f, start, size) == Some(start)
  {
    FreeMeasure(f, start, x, USIZE_MAX, size);
  }

  lemma FreeMeasure(f: Shape, start: nat, x: nat, maxAlloc: nat, maxFree: nat)
    requires ShapeOk(f) && OnlyLow(f) && f(0, 0) != Block
    requires start < USER_TOP && FreeBut(f, start / SLOT, x) && Skips(start, x)
    ensures (var r := Measure(f, 0, 0, start, maxAlloc, maxFree); !r.used && (r.len >= maxFree || r.len == USER_TOP))
  {
    AddressParts(start);
    if f(0, 0) == Free {
      TopTail(f, 0, start, 0, maxAlloc, maxFree);
    } else {
      TopStep(f, start, maxAlloc, maxFree);
      FreeTail(f, start, 0, x, maxAlloc, maxFree);
      assert FreeLoop(f, start, 0, maxAlloc, maxFree) == Measure(f, 1, 0, start, maxAlloc, maxFree);
      TopTail(f, 1, start + GIGABYTE, GIGABYTE, maxAlloc, maxFree);
    }
  }

  /** In the last slot of a window, at most a slot's worth of pages: the next window is not looked at. */
  lemma ShortAnswer(f: Shape, start: nat, size: nat)
    requires ShapeOk(f) && f(0, 0) == EntryKind.Table
    requires start / GIGABYTE < 511 && IndexAt(start, 2) == 511 && size <= SLOT && !SlotUsed(f, start / SLOT)
    ensures FindHole(f, start, size) == Some(start)
  {
    AddressParts(start);
    var used, m, full := WindowStep(f, start / GIGABYTE, start, 0, false, USIZE_MAX, size);
    TopStep(f, start, USIZE_MAX, size);
  }

  // Trees in which a single page is mapped, the first page of window `w`.

  const ROOT: nat := 0x1000

  /** A zeroed top table and nothing else. */
  function EmptyTree(root: nat): Tables {
    Tables(map[root := ZeroTable()], root, map[Pos(0, 0) := root])
  }

  lemma EmptyTreeIs(root: nat)
    ensures WellFormed(EmptyTree(root))
    ensures forall level: nat, q: nat :: Entry(EmptyTree(root), level, q) == 0
  {}

  /** The entry number on the way to the first page of window `w`. */
  function Way(w: nat, level: nat): nat {
    if level == 0 then 0 else if level == 1 then w else if level == 2 then w * 512 else w * GIGABYTE_PAGES
  }

  /** Besides the root there is one table on each of the levels 1 to `depth`, on the way to window `w`. */
  ghost predicate OneWay(t: Tables, w: nat, depth: nat) {
    && WellFormed(t) && w < 512 && depth <= 3
    && (forall a | a in t.mem :: a <= (depth + 1) * 0x1000)
    && Here(t, depth, Way(w, depth))
    && (forall level: nat | level < depth :: KindOf(Entry(t, level, Way(w, level))) == EntryKind.Table)
    && (forall level: nat, q: nat | level < 3 && (level >= depth || q != Way(w, level)) :: Entry(t, level, q) == 0)
  }

  lemma OneWayStart(w: nat)
    requires w < 512
    ensures OneWay(EmptyTree(ROOT), w, 0)
  {
    EmptyTreeIs(ROOT);
  }

  lemma OneWayDeeper(t: Tables, w: nat, depth: nat) returns (t': Tables)
    requires OneWay(t, w, depth) && depth < 3
    ensures OneWay(t', w, depth + 1)
  {
    var q, phys := Way(w, depth), (depth + 2) * 0x1000;
    var e: Word := phys + TABLE_FLAGS;
    TableFields(phys, e);
    LinkedKeeps(t, depth, q, phys, e);
    t' := Linked(t, depth, q, phys, e);
    forall level: nat, q': nat
      ensures Entry(t', level, q') == if level == depth && q' == q then e else Entry(t, level, q')
    {
      LinkedEntry(t, depth, q, phys, e, level, q');
    }
    OneWayAfter(t, t', w, depth, phys, e);
  }

  lemma OneWayAfter(t: Tables, t': Tables, w: nat, depth: nat, phys: nat, e: Word)
    requires OneWay(t, w, depth) && depth < 3 && WellFormed(t') && phys == (depth + 2) * 0x1000
    requires t'.mem.Keys == t.mem.Keys + {phys} && Pos(depth + 1, Way(w, depth)) in t'.at
             && KindOf(e) == EntryKind.Table
    requires forall level: nat, q: nat :: Entry(t', level, q) ==
               if level == depth && q == Way(w, depth) then e else Entry(t, level, q)
    ensures OneWay(t', w, depth + 1)
  {
    assert Way(w, depth + 1) / 512 == Way(w, depth);
  }

  /** `t` has one path of tables down to slot `w * 512`, the only one in use, and one page mapped there. */
  ghost predicate OnePage(t: Tables, w: nat) {
    && WellFormed(t) && OnlyLow(ShapeOf(t)) && ShapeOf(t)(0, 0) == EntryKind.Table
    && (forall s: nat | s < ALL_SLOTS && s != w * 512 :: !SlotUsed(ShapeOf(t), s))
    && View(t, w * GIGABYTE_PAGES).Some?
  }

  lemma OnePageExists(w: nat) returns (t: Tables)
    requires w < 512
    ensures OnePage(t, w)
  {
    OneWayStart(w);
    var t1 := OneWayDeeper(EmptyTree(ROOT), w, 0);
    var t2 := OneWayDeeper(t1, w, 1);
    var t3 := OneWayDeeper(t2, w, 2);
    t := OneWayEnd(t3, w);
  }

  lemma OneWayEnd(t: Tables, w: nat) returns (t': Tables)
    requires OneWay(t, w, 3)
    ensures OnePage(t', w)
  {
    var q := w * GIGABYTE_PAGES;
    WithLeafKeeps(t, q, PT_PAGE);
    t' := WithLeaf(t, q, PT_PAGE);
    assert Entry(t', 3, q) == PT_PAGE;
    assert KindOf(Entry(t, 0, Way(w, 0))) == EntryKind.Table;
    assert forall level: nat, q: nat | level < 3 :: KindOf(Entry(t', level, q)) != Block;
  }

  /** No measurement reports more than one count for each entry it may look at. */
  lemma {:induction false} MeasureBounded(f: Shape, level: nat, prefix: nat, idx: nat, cur: nat, len: nat, alloc: bool,
                                          maxAlloc: nat, maxFree: nat)
    requires level <= 2 && idx <= 512
    ensures MeasureFrom(f, level, prefix, idx, cur, len, alloc, maxAlloc, maxFree).len
            <= len + (512 - idx) * CountAt(level)
    decreases 2 - level, 512 - idx
  {
    if idx < 512 {
      match KindAt(f, level, prefix * 512 + idx)
      case Block => NextBounded(f, level, prefix, idx, cur, len, true, maxAlloc, maxFree);
      case Free => NextBounded(f, level, prefix, idx, cur, len, false, maxAlloc, maxFree);
      case Table =>
        MeasureBounded(f, level + 1, prefix * 512 + idx, IndexAt(cur, level + 1), cur, 0, false, maxAlloc, maxFree);
        var inner := Measure(f, level + 1, prefix * 512 + idx, cur, maxAlloc, maxFree);
        CountStep(level, idx, IndexAt(cur, level + 1));
        NextBounded(f, level, prefix, idx, cur, len, inner.used, maxAlloc, maxFree);
    }
  }

  lemma CountStep(level: nat, idx: nat, j: nat)
    requires level < 2 && idx < 512 && j < 512
    ensures (512 - j) * CountAt(level + 1) <= CountAt(level) <= (512 - idx) * CountAt(level)
  {}

  lemma {:induction false} NextBounded(f: Shape, level: nat, prefix: nat, idx: nat, cur: nat, len: nat, alloc: bool,
                                       maxAlloc: nat, maxFree: nat)
    requires level <= 2 && idx < 512
    ensures MeasureNext(f, level, prefix, idx, cur, len, alloc, maxAlloc, maxFree).len
            <= len + (512 - idx) * CountAt(level)
    decreases 2 - level, 512 - idx, 0
  {
    MeasureBounded(f, level, prefix, idx + 1, cur + CountAt(level), len + CountAt(level), alloc, maxAlloc, maxFree);
  }

  /** More than all of user memory is never found. */
  lemma TooLarge(f: Shape, start: nat, size: nat)
    requires start % PAGE_SIZE == 0 && size > USER_TOP
    ensures FindHole(f, start, size) == None
  {
    FindHoleAnswer(f, start, size);
    if FindHole(f, start, size).Some? {
      var v := FindHole(f, start, size).value;
      MeasureBounded(f, 0, 0, IndexAt(v, 0), v, 0, false, USIZE_MAX, size);
    }
  }

  /** The `n` pages from page `v` on are user pages that translate to nothing. */
  ghost predicate Unmapped(t: Tables, v: nat, n: nat) {
    v + n <= ALL_PAGES && forall q: nat | v <= q < v + n :: Translate(t, q) == None
  }

  lemma FreeIsUnmapped(t: Tables, v: nat, n: nat)
    requires WellFormed(t) && PagesFree(ShapeOf(t), v, n) && v < ALL_PAGES
    ensures Unmapped(t, v, n)
  {
    assert n > 0 ==> !SlotUsed(ShapeOf(t), (v + n - 1) / 512);
    forall q: nat | v <= q < v + n ensures Translate(t, q) == None {
      UnusedUnmapped(t, q);
      TranslateIsView(t, q);
    }
  }

  /** An answer that is not safe is given for some tree in which a page of it is mapped, unless it
      runs past the end of user memory anyway. */
  lemma UnsafeAnswer(v: nat, n: nat) returns (t: Tables)
    requires v < USER_TOP && v % PAGE_SIZE == 0 && n <= ALL_PAGES && !SafeHole(v, n)
    ensures WellFormed(t) && FindHole(ShapeOf(t), v, n * PAGE_SIZE) == Some(v) && !Unmapped(t, v / PAGE_SIZE, n)
  {
    if v / PAGE_SIZE + n > ALL_PAGES {
      t := PastTheEnd(v, n);
    } else {
      t := Collision(v, n);
    }
  }

  lemma PastTheEnd(v: nat, n: nat) returns (t: Tables)
    requires v < USER_TOP && v % PAGE_SIZE == 0 && n <= ALL_PAGES && v / PAGE_SIZE + n > ALL_PAGES
    ensures WellFormed(t) && FindHole(ShapeOf(t), v, n * PAGE_SIZE) == Some(v) && !Unmapped(t, v / PAGE_SIZE, n)
  {
    EmptyTreeIs(ROOT);
    t := EmptyTree(ROOT);
    ShapeOfOk(t);
    FreeAnswer(ShapeOf(t), v, ALL_SLOTS, n * PAGE_SIZE);
  }

  lemma Collision(v: nat, n: nat) returns (t: Tables)
    requires v < USER_TOP && v % PAGE_SIZE == 0 && !SafeHole(v, n) && v / PAGE_SIZE + n <= ALL_PAGES
    ensures WellFormed(t) && FindHole(ShapeOf(t), v, n * PAGE_SIZE) == Some(v) && !Unmapped(t, v / PAGE_SIZE, n)
  {
    var rest := GIGABYTE_PAGES - v / PAGE_SIZE % GIGABYTE_PAGES;
    var w' := v / GIGABYTE + if rest <= 512 < n then 2 else 1;
    UnsafeParts(v, n, w');
    t := OnePageExists(w');
    ShapeOfOk(t);
    if rest <= 512 && n <= 512 {
      ShortAnswer(ShapeOf(t), v, n * PAGE_SIZE);
    } else {
      FreeAnswer(ShapeOf(t), v, w' * 512, n * PAGE_SIZE);
    }
    TranslateIsView(t, w' * GIGABYTE_PAGES);
  }

  lemma UnsafeParts(v: nat, n: nat, w': nat)
    requires v < USER_TOP && v % PAGE_SIZE == 0 && !SafeHole(v, n) && v / PAGE_SIZE + n <= ALL_PAGES
    requires w' == v / GIGABYTE + if GIGABYTE_PAGES - v / PAGE_SIZE % GIGABYTE_PAGES <= 512 < n then 2 else 1
    ensures v / GIGABYTE < 511 && w' < 512
    ensures v / PAGE_SIZE <= w' * GIGABYTE_PAGES < v / PAGE_SIZE + n
    ensures v / SLOT != w' * 512
    ensures if GIGABYTE_PAGES - v / PAGE_SIZE % GIGABYTE_PAGES <= 512 && n <= 512
            then IndexAt(v, 2) == 511 else Skips(v, w' * 512)
  {
    assert v / SLOT == v / PAGE_SIZE / 512 && v / GIGABYTE == v / PAGE_SIZE / GIGABYTE_PAGES;
  }

  /** Over all trees: an answer `v` to a search for `n` pages from `v` on can be relied on to be
      unmapped exactly when the hole is a safe one, or when so many pages are never found at all. */
  lemma HoleSafeIff(v: nat, n: nat)
    requires v < USER_TOP && v % PAGE_SIZE == 0
    ensures (forall t | WellFormed(t) && FindHole(ShapeOf(t), v, n * PAGE_SIZE) == Some(v)
               :: Unmapped(t, v / PAGE_SIZE, n))
       <==> SafeHole(v, n) || n > ALL_PAGES
  {
    if SafeHole(v, n) || n > ALL_PAGES {
      forall t | WellFormed(t) && FindHole(ShapeOf(t), v, n * PAGE_SIZE) == Some(v)
        ensures Unmapped(t, v / PAGE_SIZE, n) {
        if n > ALL_PAGES {
          TooLarge(ShapeOf(t), v, n * PAGE_SIZE);
        } else {
          ShapeOfOk(t);
          HoleSound(ShapeOf(t), v, n * PAGE_SIZE);
          FreeIsUnmapped(t, v / PAGE_SIZE, n);
        }
      }
    } else {
      var t := UnsafeAnswer(v, n);
    }
  }
}
