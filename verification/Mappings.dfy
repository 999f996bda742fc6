/** What mapping and unmapping do to a tree of tables, stated on its entries. */
module Mappings {
  import opened Wrappers
  import opened Words
  import opened Addresses
  import opened Descriptors
  import opened PageTables
  import opened Holes

  /** Nothing changed but entry `q` of the level, which points to a table now and was free if it did not before. */
  ghost predicate Opened(t: Tables, t': Tables, level: nat, q: nat) {
    && t'.root == t.root
    && KindOf(Entry(t', level, q)) == EntryKind.Table
    && (Entry(t', level, q) == Entry(t, level, q) || (Entry(t, level, q) == 0 && IsTableEntry(Entry(t', level, q))))
    && forall l: nat, q': nat | l != level || q' != q :: Entry(t', l, q') == Entry(t, l, q')
  }

  /** Entry `q` of level `level` lies on the way to one of the `n` pages from `v` on (see `OnWayMeans`). */
  ghost predicate OnWay(v: nat, n: nat, level: nat, q: nat)
    requires level <= 3
  {
    n > 0 && Up(v, level) <= q <= Up(v + n - 1, level)
  }

  lemma {:induction false} UpStep(v: nat, level: nat)
    requires level <= 3
    ensures Up(v, level) <= Up(v + 1, level) <= Up(v, level) + 1
    decreases 3 - level
  {
    if level < 3 { UpStep(v, level + 1); }
  }

  lemma {:induction false} UpGrows(v: nat, v': nat, level: nat)
    requires level <= 3 && v <= v'
    ensures Up(v, level) <= Up(v', level)
    decreases v' - v
  {
    if v < v' {
      UpStep(v' - 1, level);
      UpGrows(v, v' - 1, level);
    }
  }

  lemma {:induction false} OnWayMeans(v: nat, n: nat, level: nat, q: nat)
    requires level <= 3
    ensures OnWay(v, n, level, q) <==> exists page: nat :: v <= page < v + n && Up(page, level) == q
    decreases n
  {
    if n > 0 {
      OnWayMore(v, n - 1, level, q);
      OnWayMeans(v, n - 1, level, q);
      if OnWay(v, n - 1, level, q) {
        var page: nat :| v <= page < v + (n - 1) && Up(page, level) == q;
        assert v <= page < v + n;
      } else if q == Up(v + n - 1, level) {
        assert v <= v + n - 1 < v + n;
      }
      forall page: nat | v <= page < v + n && Up(page, level) == q ensures OnWay(v, n, level, q) {
        UpGrows(v, page, level);
        UpGrows(page, v + n - 1, level);
      }
    }
  }

  /** The upper levels after `n` pages from `v` on have been mapped: the entries on the way to them
      are tables, and of those only the ones that were free have changed. */
  ghost predicate UpperMapped(t: Tables, t': Tables, v: nat, n: nat) {
    forall level: nat, q: nat {:trigger UpperEntry(t, t', v, n, level, q)} | level < 3
      :: UpperEntry(t, t', v, n, level, q)
  }

  ghost predicate UpperEntry(t: Tables, t': Tables, v: nat, n: nat, level: nat, q: nat)
    requires level < 3
  {
    && (OnWay(v, n, level, q) ==> KindOf(Entry(t', level, q)) == EntryKind.Table)
    && (Entry(t, level, q) != 0 || !OnWay(v, n, level, q) ==> Entry(t', level, q) == Entry(t, level, q))
    && (Entry(t', level, q) == Entry(t, level, q) || IsTableEntry(Entry(t', level, q)))
  }

  /** The page entries: page `v + k` holds descriptor `leaf(k)`, the others are as before. */
  ghost predicate PagesMapped(t: Tables, t': Tables, v: nat, n: nat, leaf: nat -> Word) {
    forall q: nat {:trigger PageEntry(t, t', v, n, leaf, q)} :: PageEntry(t, t', v, n, leaf, q)
  }

  ghost predicate PageEntry(t: Tables, t': Tables, v: nat, n: nat, leaf: nat -> Word, q: nat) {
    Entry(t', 3, q) == if v <= q < v + n then leaf(q - v) else Entry(t, 3, q)
  }

  /** `n` pages from `v` on have been mapped, nothing else has changed. */
  ghost predicate Mapped(t: Tables, t': Tables, v: nat, n: nat, leaf: nat -> Word) {
    && WellFormed(t') && t'.root == t.root
    && UpperMapped(t, t', v, n) && PagesMapped(t, t', v, n, leaf)
  }

  /** Page `v` has been mapped by descriptor `e`. */
  ghost predicate MappedPage(t: Tables, t': Tables, v: nat, e: Word) {
    && WellFormed(t') && t'.root == t.root && UpperMapped(t, t', v, 1)
    && forall q: nat {:trigger OneEntry(t, t', v, e, q)} :: OneEntry(t, t', v, e, q)
  }

  ghost predicate OneEntry(t: Tables, t': Tables, v: nat, e: Word, q: nat) {
    Entry(t', 3, q) == if q == v then e else Entry(t, 3, q)
  }

  /** The descriptors for consecutive physical pages from `phys` on, as far as they have 64-bit addresses. */
  function Leaves(phys: nat, attrs: Word): nat -> Word {
    (k: nat) => if phys + k * PAGE_SIZE < 0x1_0000_0000_0000_0000 then Leaf(phys + k * PAGE_SIZE, attrs) else 0
  }

  lemma MappedNone(t: Tables, v: nat, leaf: nat -> Word)
    requires WellFormed(t)
    ensures Mapped(t, t, v, 0, leaf)
  {}

  /** Mapping one more page behind `n` mapped ones. */
  lemma MappedMore(t: Tables, t1: Tables, t2: Tables, v: nat, n: nat, leaf: nat -> Word)
    requires Mapped(t, t1, v, n, leaf) && MappedPage(t1, t2, v + n, leaf(n))
    ensures Mapped(t, t2, v, n + 1, leaf)
  {
    UpperMore(t, t1, t2, v, n);
    var m := n + 1;
    forall q: nat ensures PageEntry(t, t2, v, m, leaf, q) {
      assert PageEntry(t, t1, v, n, leaf, q) && OneEntry(t1, t2, v + n, leaf(n), q);
    }
  }

  lemma OnWayMore(v: nat, n: nat, level: nat, q: nat)
    requires level <= 3
    ensures OnWay(v, n + 1, level, q) <==> OnWay(v, n, level, q) || q == Up(v + n, level)
  {
    UpGrows(v, v + n, level);
    if n > 0 {
      UpStep(v + n - 1, level);
    }
  }

  lemma UpperMore(t: Tables, t1: Tables, t2: Tables, v: nat, n: nat)
    requires UpperMapped(t, t1, v, n) && UpperMapped(t1, t2, v + n, 1)
    ensures UpperMapped(t, t2, v, n + 1)
  {
    var m := n + 1;
    forall level: nat, q: nat | level < 3 ensures UpperEntry(t, t2, v, m, level, q) {
      OnWayMore(v, n, level, q);
      assert UpperEntry(t, t1, v, n, level, q) && UpperEntry(t1, t2, v + n, 1, level, q);
    }
  }

  /** The three tables on the way opened. */
  lemma UpperOne(t0: Tables, t1: Tables, t2: Tables, t3: Tables, v: nat)
    requires Opened(t0, t1, 0, Up(v, 0)) && Opened(t1, t2, 1, Up(v, 1)) && Opened(t2, t3, 2, Up(v, 2))
    ensures UpperMapped(t0, t3, v, 1) && t3.root == t0.root
    ensures forall q: nat :: Entry(t3, 3, q) == Entry(t0, 3, q)
  {}

  /** Then the page entry written: one page is mapped. */
  lemma MapOne(t0: Tables, t3: Tables, v: nat, e: Word)
    requires WellFormed(t3) && UpperMapped(t0, t3, v, 1) && t3.root == t0.root
    requires forall q: nat :: Entry(t3, 3, q) == Entry(t0, 3, q)
    ensures Here(t3, 3, v) && MappedPage(t0, WithLeaf(t3, v, e), v, e)
  {
    LeafTable(t0, t3, v);
    WithLeafKeeps(t3, v, e);
    var t' := WithLeaf(t3, v, e);
    forall level: nat, q: nat | level < 3 ensures UpperEntry(t0, t', v, 1, level, q) {
      assert UpperEntry(t0, t3, v, 1, level, q);
    }
  }

  lemma LeafTable(t0: Tables, t3: Tables, v: nat)
    requires WellFormed(t3) && UpperMapped(t0, t3, v, 1)
    ensures Here(t3, 3, v)
  {
    assert Up(v, 2) == v / 512;
    assert UpperEntry(t0, t3, v, 1, 2, v / 512);
    BelowFree(t3, 2, v / 512);
  }

  /** Mapping is a point-wise update of the translation: the region translates to its pages, every
      other page as before. */
  lemma MappedTranslates(t: Tables, t': Tables, v: nat, n: nat, leaf: nat -> Word, q: nat)
    requires WellFormed(t) && Mapped(t, t', v, n, leaf) && q < 0x10_0000_0000 && (v <= q < v + n ==> leaf(q - v) != 0)
    ensures Translate(t', q) == if v <= q < v + n then Some(leaf(q - v)) else Translate(t, q)
  {
    TranslateIsView(t, q);
    TranslateIsView(t', q);
    RegionWay(v, n, q);
    assert PageEntry(t, t', v, n, leaf, q);
    UpperKinds(t, t', v, n, 0, Up(q, 0));
    UpperKinds(t, t', v, n, 1, Up(q, 1));
    UpperKinds(t, t', v, n, 2, Up(q, 2));
  }

  /** In particular page `v + k` leads to physical page `phys + k` with the attributes asked for. */
  lemma MappedMeaning(t: Tables, t': Tables, v: nat, n: nat, phys: nat, attrs: Word, k: nat)
    requires WellFormed(t) && Mapped(t, t', v, n, Leaves(phys, attrs)) && k < n && v + k < 0x10_0000_0000
    requires phys % PAGE_SIZE == 0 && phys + k * PAGE_SIZE < 0x1_0000_0000_0000 && attrs < PAGE_SIZE
    ensures Translate(t', v + k).Some?
    ensures OutputAddress(Translate(t', v + k).value) == phys + k * PAGE_SIZE
    ensures Translate(t', v + k).value % PAGE_SIZE == Or(COMMON_FLAGS, attrs)
  {
    LeavesMeaning(phys, attrs, k);
    MappedTranslates(t, t', v, n, Leaves(phys, attrs), v + k);
  }

  lemma LeavesMeaning(phys: nat, attrs: Word, k: nat)
    requires phys % PAGE_SIZE == 0 && phys + k * PAGE_SIZE < 0x1_0000_0000_0000 && attrs < PAGE_SIZE
    ensures (var e := Leaves(phys, attrs)(k);
             e != 0 && OutputAddress(e) == phys + k * PAGE_SIZE && e % PAGE_SIZE == Or(COMMON_FLAGS, attrs))
  {
    assert (phys + k * PAGE_SIZE) % PAGE_SIZE == 0;
    LeafDecodes(phys + k * PAGE_SIZE, attrs);
  }

  lemma RegionWay(v: nat, n: nat, q: nat)
    ensures v <= q < v + n ==> OnWay(v, n, 0, Up(q, 0)) && OnWay(v, n, 1, Up(q, 1)) && OnWay(v, n, 2, Up(q, 2))
  {
    if v <= q < v + n {
      UpBetween(v, n, q, 0);
      UpBetween(v, n, q, 1);
      UpBetween(v, n, q, 2);
    }
  }

  lemma UpBetween(v: nat, n: nat, q: nat, level: nat)
    requires v <= q < v + n && level < 3
    ensures OnWay(v, n, level, Up(q, level))
  {
    UpGrows(v, q, level);
    UpGrows(q, v + n - 1, level);
  }

  /** The slots in use afterwards are those in use before and those of the region. */
  lemma MappedSlots(t: Tables, t': Tables, v: nat, n: nat, leaf: nat -> Word, s: nat)
    requires WellFormed(t) && Mapped(t, t', v, n, leaf)
    ensures SlotUsed(ShapeOf(t'), s) <==> SlotUsed(ShapeOf(t), s) || OnWay(v, n, 2, s)
  {
    UpperKinds(t, t', v, n, 0, s / 512 / 512);
    UpperKinds(t, t', v, n, 1, s / 512);
    UpperKinds(t, t', v, n, 2, s);
  }

  lemma UpperKinds(t: Tables, t': Tables, v: nat, n: nat, level: nat, q: nat)
    requires level < 3 && UpperMapped(t, t', v, n)
    ensures KindOf(Entry(t', level, q)) == if OnWay(v, n, level, q) then EntryKind.Table else KindOf(Entry(t, level, q))
    ensures KindOf(Entry(t, level, q)) == Block <==> KindOf(Entry(t', level, q)) == Block
    ensures KindOf(Entry(t, level, q)) == Block ==> Entry(t', level, q) == Entry(t, level, q)
  {
    assert UpperEntry(t, t', v, n, level, q);
  }

  // How many tables a mapping needs.

  function Gap(t: Tables, level: nat, q: nat): nat {
    if Entry(t, level, q) == 0 then 1 else 0
  }

  /** The tables that are missing on the way to page `v`, when there is no block on it. */
  function MissingAt(t: Tables, v: nat): nat {
    Gap(t, 0, Up(v, 0)) + Gap(t, 1, Up(v, 1)) + Gap(t, 2, Up(v, 2))
  }

  /** The zero entries of a level from `lo` up to `hi`. */
  function Gaps(t: Tables, level: nat, lo: nat, hi: nat): nat
    decreases hi
  {
    if hi <= lo then 0 else Gaps(t, level, lo, hi - 1) + Gap(t, level, hi - 1)
  }

  /** The zero entries of a level on the way to `n` pages from `v` on. */
  function MissingOn(t: Tables, level: nat, v: nat, n: nat): nat
    requires level <= 3
  {
    if n == 0 then 0 else Gaps(t, level, Up(v, level), Up(v + n - 1, level) + 1)
  }

  /** The tables that are missing for `n` pages from `v` on. */
  function Missing(t: Tables, v: nat, n: nat): nat {
    MissingOn(t, 0, v, n) + MissingOn(t, 1, v, n) + MissingOn(t, 2, v, n)
  }

  /** On the way to mapped pages nothing is missing. */
  lemma GapAfter(t: Tables, t1: Tables, level: nat, v: nat, n: nat, q: nat)
    requires level < 3 && UpperMapped(t, t1, v, n)
    ensures Gap(t1, level, q) == if OnWay(v, n, level, q) then 0 else Gap(t, level, q)
  {
    assert UpperEntry(t, t1, v, n, level, q);
  }

  lemma GapsNext(t: Tables, level: nat, v: nat, n: nat)
    requires level < 3
    ensures (var q := Up(v + n, level);
             MissingOn(t, level, v, n + 1)
             == MissingOn(t, level, v, n) + if OnWay(v, n, level, q) then 0 else Gap(t, level, q))
  {
    var q := Up(v + n, level);
    if n == 0 {
      assert Gaps(t, level, q, q) == 0;
    } else {
      UpStep(v + n - 1, level);
      UpGrows(v, v + n - 1, level);
    }
  }

  lemma MissingNext(t: Tables, t1: Tables, level: nat, v: nat, n: nat)
    requires level < 3 && UpperMapped(t, t1, v, n)
    ensures MissingOn(t, level, v, n + 1) == MissingOn(t, level, v, n) + Gap(t1, level, Up(v + n, level))
  {
    GapAfter(t, t1, level, v, n, Up(v + n, level));
    GapsNext(t, level, v, n);
  }

  /** What is missing for one more page, once the pages before it are mapped, is what is missing for it at all. */
  lemma MissingMore(t: Tables, t1: Tables, v: nat, n: nat)
    requires UpperMapped(t, t1, v, n)
    ensures Missing(t, v, n + 1) == Missing(t, v, n) + MissingAt(t1, v + n)
  {
    MissingNext(t, t1, 0, v, n);
    MissingNext(t, t1, 1, v, n);
    MissingNext(t, t1, 2, v, n);
  }

  lemma {:induction false} GapsBound(t: Tables, level: nat, lo: nat, hi: nat)
    requires lo <= hi
    ensures Gaps(t, level, lo, hi) <= hi - lo
    decreases hi
  {
    if lo < hi { GapsBound(t, level, lo, hi - 1); }
  }

  lemma {:induction false} UpClose(v: nat, n: nat, level: nat)
    requires level <= 3
    ensures Up(v, level) <= Up(v + n, level) <= Up(v, level) + n
    decreases n
  {
    if n > 0 {
      UpClose(v, n - 1, level);
      UpStep(v + n - 1, level);
    }
  }

  lemma MissingOnBound(t: Tables, level: nat, v: nat, n: nat)
    requires level <= 3
    ensures MissingOn(t, level, v, n) <= n
  {
    if n > 0 {
      UpClose(v, n - 1, level);
      GapsBound(t, level, Up(v, level), Up(v + n - 1, level) + 1);
    }
  }

  /** At most three tables are missing for a page. */
  lemma MissingBound(t: Tables, v: nat, n: nat)
    ensures Missing(t, v, n) <= 3 * n
  {
    MissingOnBound(t, 0, v, n);
    MissingOnBound(t, 1, v, n);
    MissingOnBound(t, 2, v, n);
  }

  /** Page entries from `v` on cleared, nothing else changed: the tables stay. */
  ghost predicate Removed(t: Tables, t': Tables, v: nat, n: nat) {
    && WellFormed(t') && t'.root == t.root && t'.mem.Keys == t.mem.Keys
    && (forall level: nat, q: nat | level < 3 :: Entry(t', level, q) == Entry(t, level, q))
    && (forall q: nat :: Entry(t', 3, q) == if v <= q < v + n then 0 else Entry(t, 3, q))
  }

  ghost predicate BlockAt(t: Tables, level: nat, v: nat)
    requires level < 3
  {
    KindOf(Entry(t, level, Up(v, level))) == Block
  }

  /** Page `v` lies in a block. */
  ghost predicate BlockOnWay(t: Tables, v: nat) {
    exists level: nat :: level < 3 && BlockAt(t, level, v)
  }

  lemma BlockLevels(t: Tables, v: nat)
    ensures BlockOnWay(t, v) <==> BlockAt(t, 0, v) || BlockAt(t, 1, v) || BlockAt(t, 2, v)
  {}

  lemma RemovedBlocks(t: Tables, t': Tables, v: nat, n: nat, q: nat)
    requires Removed(t, t', v, n)
    ensures BlockOnWay(t', q) == BlockOnWay(t, q)
  {
    BlockLevels(t, q);
    BlockLevels(t', q);
  }

  /** Mapping neither makes a block nor removes one. */
  lemma MappedBlocks(t: Tables, t': Tables, v: nat, n: nat, q: nat)
    requires UpperMapped(t, t', v, n)
    ensures BlockOnWay(t', q) == BlockOnWay(t, q)
  {
    BlockLevels(t, q);
    BlockLevels(t', q);
    UpperKinds(t, t', v, n, 0, Up(q, 0));
    UpperKinds(t, t', v, n, 1, Up(q, 1));
    UpperKinds(t, t', v, n, 2, Up(q, 2));
  }

  /** Unmapping takes exactly the region out of the translation (a block can not be taken out). */
  lemma RemovedTranslates(t: Tables, t': Tables, v: nat, n: nat, q: nat)
    requires WellFormed(t) && Removed(t, t', v, n) && q < 0x10_0000_0000
    requires v <= q < v + n ==> !BlockOnWay(t, q)
    ensures Translate(t', q) == if v <= q < v + n then None else Translate(t, q)
  {
    TranslateIsView(t, q);
    TranslateIsView(t', q);
    BlockLevels(t, q);
  }

  /** Unmapping what was just mapped restores the translation, although the tables are not the same:
      the slots stay in use. */
  lemma MapThenRemove(t: Tables, t1: Tables, t2: Tables, v: nat, n: nat, leaf: nat -> Word, q: nat)
    requires WellFormed(t) && Mapped(t, t1, v, n, leaf) && Removed(t1, t2, v, n) && q < 0x10_0000_0000
    requires forall page: nat | v <= page < v + n :: Translate(t, page) == None
    ensures Translate(t2, q) == Translate(t, q)
    ensures SlotUsed(ShapeOf(t2), q / 512) <==> SlotUsed(ShapeOf(t), q / 512) || OnWay(v, n, 2, q / 512)
  {
    MappedSlots(t, t1, v, n, leaf, q / 512);
    TranslateIsView(t, q);
    TranslateIsView(t2, q);
    RegionWay(v, n, q);
    assert PageEntry(t, t1, v, n, leaf, q);
    UpperKinds(t, t1, v, n, 0, Up(q, 0));
    UpperKinds(t, t1, v, n, 1, Up(q, 1));
    UpperKinds(t, t1, v, n, 2, Up(q, 2));
  }

  lemma RemovedNone(t: Tables, v: nat)
    requires WellFormed(t)
    ensures Removed(t, t, v, 0)
    ensures Entry(t, 3, v) == 0 ==> Removed(t, t, v, 1)
  {}

  lemma RemovedMore(t: Tables, t1: Tables, t2: Tables, v: nat, n: nat)
    requires Removed(t, t1, v, n) && Removed(t1, t2, v + n, 1)
    ensures Removed(t, t2, v, n + 1)
  {}

  lemma RemoveOne(t: Tables, v: nat)
    requires WellFormed(t) && Here(t, 3, v)
    ensures Removed(t, WithLeaf(t, v, 0), v, 1)
  {
    WithLeafKeeps(t, v, 0);
  }
}
