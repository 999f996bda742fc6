/** The page allocator as a value: which pages are taken, and what each operation makes of that. */
module Heaps {
  import opened Wrappers
  import opened Addresses
  import opened BitRanges

  /** The pages handed to one owner: `len` bytes from `addr`. */
  datatype PageSlice = PageSlice(addr: nat, len: nat) {
    predicate Covers(page: nat) {
      addr / PAGE_SIZE <= page < (addr + len) / PAGE_SIZE
    }
  }

  /** One bit a page, the first page at `base`. */
  datatype Heap = Heap(bits: seq<bool>, base: nat) {
    function First(): nat {
      base / PAGE_SIZE
    }

    predicate Managed(page: nat) {
      First() <= page < First() + |bits|
    }

    predicate Taken(page: nat) {
      Managed(page) && bits[page - First()]
    }

    /** The page range can be flipped from `!value` to `value` without an assertion firing. */
    predicate CanPut(addr: nat, pages: nat, value: bool) {
      && addr % PAGE_SIZE == 0 && base <= addr
      && addr + pages * PAGE_SIZE <= base + |bits| * PAGE_SIZE
      && Uniform(bits, (addr - base) / PAGE_SIZE, pages, !value)
    }

    ghost function Put(addr: nat, pages: nat, value: bool): Heap
      requires base <= addr
    {
      Heap(Filled(bits, (addr - base) / PAGE_SIZE, pages, value), base)
    }

    /** What an allocation of `pages` pages hands out. */
    ghost function Grab(pages: nat): Option<PageSlice> {
      match FirstFit(bits, pages)
      case None => None
      case Some(p) => Some(PageSlice(base + p * PAGE_SIZE, pages * PAGE_SIZE))
    }

    predicate CanExpand(newBase: nat, newLen: nat, prevLen: nat) {
      && base % PAGE_SIZE == newBase % PAGE_SIZE == newLen % PAGE_SIZE == prevLen % PAGE_SIZE == 0
      && newBase <= base && base + prevLen <= newBase + newLen
      && newLen <= |bits| * PAGE_SIZE
    }

    /** The same region again, if longer than the bitmap: nothing is to be moved or cleared. */
    predicate Stays(newBase: nat, newLen: nat, prevLen: nat) {
      && base % PAGE_SIZE == prevLen % PAGE_SIZE == 0
      && newBase == base && newLen == prevLen && newLen > |bits| * PAGE_SIZE
    }

    ghost function Expand(newBase: nat, newLen: nat, prevLen: nat): Heap
      requires CanExpand(newBase, newLen, prevLen)
    {
      Heap(Spread(bits, (base - newBase) / PAGE_SIZE, prevLen / PAGE_SIZE, newLen / PAGE_SIZE), newBase)
    }
  }

  /** The first `prev` bits moved up by `delta`, the rest of the first `pages` bits cleared. */
  ghost function Spread(bits: seq<bool>, delta: nat, prev: nat, pages: nat): seq<bool>
    requires delta + prev <= pages <= |bits|
  {
    var moved := if delta == 0 then bits else Moved(bits, 0, delta, prev);
    var low := Filled(moved, 0, delta, false);
    Filled(low, delta + prev, pages - prev - delta, false)
  }

  /** `Put` flips exactly the pages of the range. */
  lemma PutTaken(h: Heap, addr: nat, pages: nat, value: bool, page: nat)
    requires h.base % PAGE_SIZE == 0 && h.CanPut(addr, pages, value)
    ensures h.Put(addr, pages, value).Taken(page) ==
            if addr / PAGE_SIZE <= page < addr / PAGE_SIZE + pages then value else h.Taken(page)
  {}

  /** Expanding keeps, by address, the old region as it was; every other page of the new region
      becomes free; and bits past the new length stay. */
  lemma ExpandMeaning(h: Heap, newBase: nat, newLen: nat, prevLen: nat, page: nat)
    requires h.CanExpand(newBase, newLen, prevLen)
    requires newBase / PAGE_SIZE <= page < (newBase + newLen) / PAGE_SIZE
    ensures h.Expand(newBase, newLen, prevLen).Taken(page) ==
            (h.First() <= page < h.First() + prevLen / PAGE_SIZE && h.Taken(page))
  {
    PartsFit(h.base - newBase, prevLen, newLen, |h.bits|);
    BasePages(h.base, newBase, newLen);
    ExpandIsSpread(h, newBase, newLen, prevLen);
    SpreadTaken(h, h.Expand(newBase, newLen, prevLen),
                (h.base - newBase) / PAGE_SIZE, prevLen / PAGE_SIZE, newLen / PAGE_SIZE, page);
  }

  lemma SpreadTaken(h: Heap, e: Heap, delta: nat, prev: nat, pages: nat, page: nat)
    requires delta + prev <= pages <= |h.bits| && e.bits == Spread(h.bits, delta, prev, pages)
    requires h.First() == e.First() + delta && e.First() <= page < e.First() + pages
    ensures e.Taken(page) == (h.First() <= page < h.First() + prev && h.Taken(page))
  {
    SpreadAt(h.bits, delta, prev, pages, page - e.First());
  }

  lemma BasePages(base: nat, newBase: nat, newLen: nat)
    requires base % PAGE_SIZE == newBase % PAGE_SIZE == newLen % PAGE_SIZE == 0 && newBase <= base
    ensures base / PAGE_SIZE == newBase / PAGE_SIZE + (base - newBase) / PAGE_SIZE
    ensures (newBase + newLen) / PAGE_SIZE == newBase / PAGE_SIZE + newLen / PAGE_SIZE
  {}

  lemma SpreadAt(was: seq<bool>, delta: nat, prev: nat, pages: nat, i: nat)
    requires delta + prev <= pages <= |was| && i < |was|
    ensures |Spread(was, delta, prev, pages)| == |was|
    ensures Spread(was, delta, prev, pages)[i] ==
            if delta <= i < delta + prev then was[i - delta] else if i < pages then false else was[i]
  {}

  lemma ExpandRest(h: Heap, newBase: nat, newLen: nat, prevLen: nat, i: nat)
    requires h.CanExpand(newBase, newLen, prevLen) && newLen / PAGE_SIZE <= i < |h.bits|
    ensures h.Expand(newBase, newLen, prevLen).bits[i] == h.bits[i]
  {
    PartsFit(h.base - newBase, prevLen, newLen, |h.bits|);
    ExpandIsSpread(h, newBase, newLen, prevLen);
    SpreadAt(h.bits, (h.base - newBase) / PAGE_SIZE, prevLen / PAGE_SIZE, newLen / PAGE_SIZE, i);
  }

  /** Expanding forgets no allocation exactly when nothing is allocated in the part of the new
      region that lies behind the old one: the length the caller claims for the old region decides. */
  lemma ExpandKeepsAllIff(h: Heap, newBase: nat, newLen: nat, prevLen: nat)
    requires h.CanExpand(newBase, newLen, prevLen)
    ensures (forall page | newBase / PAGE_SIZE <= page < (newBase + newLen) / PAGE_SIZE && h.Taken(page) ::
               h.Expand(newBase, newLen, prevLen).Taken(page))
       <==> (forall page | h.First() + prevLen / PAGE_SIZE <= page < (newBase + newLen) / PAGE_SIZE :: !h.Taken(page))
  {
    var e := h.Expand(newBase, newLen, prevLen);
    forall page | newBase / PAGE_SIZE <= page < (newBase + newLen) / PAGE_SIZE
      ensures e.Taken(page) == (h.First() <= page < h.First() + prevLen / PAGE_SIZE && h.Taken(page))
    {
      ExpandMeaning(h, newBase, newLen, prevLen, page);
    }
  }

  /** When everything behind the old region is marked allocated, as it is in the early heap, an
      expansion adds exactly the pages it adds. */
  lemma ExpandAddsPages(h: Heap, newBase: nat, newLen: nat, prevLen: nat)
    requires h.CanExpand(newBase, newLen, prevLen)
    requires Uniform(h.bits, prevLen / PAGE_SIZE, |h.bits| - prevLen / PAGE_SIZE, true)
    ensures Clear(h.Expand(newBase, newLen, prevLen).bits, 0, |h.bits|)
         == Clear(h.bits, 0, |h.bits|) + (newLen - prevLen) / PAGE_SIZE
  {
    PartsFit(h.base - newBase, prevLen, newLen, |h.bits|);
    SpreadClears(h.bits, (h.base - newBase) / PAGE_SIZE, prevLen / PAGE_SIZE, newLen / PAGE_SIZE);
    ExpandIsSpread(h, newBase, newLen, prevLen);
  }

  lemma ExpandIsSpread(h: Heap, newBase: nat, newLen: nat, prevLen: nat)
    requires h.CanExpand(newBase, newLen, prevLen)
    ensures h.Expand(newBase, newLen, prevLen).bits
         == Spread(h.bits, (h.base - newBase) / PAGE_SIZE, prevLen / PAGE_SIZE, newLen / PAGE_SIZE)
  {}

  lemma SpreadClears(was: seq<bool>, delta: nat, prev: nat, pages: nat)
    requires delta + prev <= pages <= |was| && Uniform(was, prev, |was| - prev, true)
    ensures Clear(Spread(was, delta, prev, pages), 0, |was|) == Clear(was, 0, |was|) + pages - prev
  {
    SpreadIs(was, delta, prev, pages);
    ClearPieces(was, Spread(was, delta, prev, pages), delta, prev, pages);
  }

  lemma ClearPieces(was: seq<bool>, bits: seq<bool>, delta: nat, prev: nat, pages: nat)
    requires SpreadOut(was, bits, delta, prev, pages)
    requires Uniform(bits, pages, |bits| - pages, true) && prev <= |was| && Uniform(was, prev, |was| - prev, true)
    ensures Clear(bits, 0, |bits|) == Clear(was, 0, |was|) + pages - prev
  {
    ClearUniform(bits, 0, delta, false);
    ClearShifted(bits, was, delta, prev);
    ClearUniform(bits, delta + prev, pages, false);
    ClearUniform(bits, pages, |bits|, true);
    ClearUniform(was, prev, |was|, true);
    ClearParts(bits, delta, delta + prev, pages);
    ClearSplit(was, 0, prev, |was|);
  }

  lemma ClearParts(bits: seq<bool>, a: nat, b: nat, c: nat)
    requires a <= b <= c <= |bits|
    ensures Clear(bits, 0, |bits|) == Clear(bits, 0, a) + Clear(bits, a, b) + Clear(bits, b, c) + Clear(bits, c, |bits|)
  {
    ClearSplit(bits, 0, a, b);
    ClearSplit(bits, 0, b, c);
    ClearSplit(bits, 0, c, |bits|);
  }

  lemma PartsFit(delta: nat, prev: nat, len: nat, n: nat)
    requires delta % PAGE_SIZE == prev % PAGE_SIZE == len % PAGE_SIZE == 0
    requires delta + prev <= len <= n * PAGE_SIZE
    ensures delta / PAGE_SIZE + prev / PAGE_SIZE <= len / PAGE_SIZE <= n
    ensures (len - prev) / PAGE_SIZE == len / PAGE_SIZE - prev / PAGE_SIZE
  {}

  ghost predicate SpreadOut(was: seq<bool>, bits: seq<bool>, delta: nat, prev: nat, pages: nat) {
    && |bits| == |was| && delta + prev <= pages <= |bits|
    && Uniform(bits, 0, delta, false)
    && (forall i | 0 <= i < prev :: bits[delta + i] == was[i])
    && Uniform(bits, delta + prev, pages - delta - prev, false)
    && (forall i | pages <= i < |bits| :: bits[i] == was[i])
  }

  lemma SpreadIs(was: seq<bool>, delta: nat, prev: nat, pages: nat)
    requires delta + prev <= pages <= |was|
    ensures SpreadOut(was, Spread(was, delta, prev, pages), delta, prev, pages)
  {
    forall i | 0 <= i < |was|
      ensures Spread(was, delta, prev, pages)[i] ==
              if delta <= i < delta + prev then was[i - delta] else if i < pages then false else was[i]
    {
      SpreadAt(was, delta, prev, pages, i);
    }
  }
}
