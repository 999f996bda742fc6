/** What the bitmap operations mean, on plain sequences of bits. */
module BitRanges {
  import opened Wrappers

  ghost predicate IsFilled(bits: seq<bool>, r: seq<bool>, first: nat, count: nat, value: bool) {
    |r| == |bits| && forall i {:trigger r[i]} | 0 <= i < |bits| ::
      r[i] == if first <= i < first + count then value else bits[i]
  }

  /** `bits` with the `count` positions from `first` all set to `value`. */
  ghost function Filled(bits: seq<bool>, first: nat, count: nat, value: bool): (r: seq<bool>)
    ensures IsFilled(bits, r, first, count, value)
  {
    assert IsFilled(bits, seq(|bits|, i requires 0 <= i < |bits| =>
                           if first <= i < first + count then value else bits[i]),
                    first, count, value);
    var r :| IsFilled(bits, r, first, count, value);
    r
  }

  ghost predicate IsMoved(bits: seq<bool>, r: seq<bool>, src: nat, dst: nat, count: nat)
    requires src + count <= |bits|
  {
    |r| == |bits| && forall i {:trigger r[i]} | 0 <= i < |bits| ::
      r[i] == if dst <= i < dst + count then bits[i - dst + src] else bits[i]
  }

  /** `bits` with the `count` positions from `src` copied to `dst`, all reads before all writes. */
  ghost function Moved(bits: seq<bool>, src: nat, dst: nat, count: nat): (r: seq<bool>)
    requires src + count <= |bits| && dst + count <= |bits|
    ensures IsMoved(bits, r, src, dst, count)
  {
    assert IsMoved(bits, seq(|bits|, i requires 0 <= i < |bits| =>
                         if dst <= i < dst + count then bits[i - dst + src] else bits[i]),
                   src, dst, count);
    var r :| IsMoved(bits, r, src, dst, count);
    r
  }

  predicate Uniform(bits: seq<bool>, first: nat, count: nat, value: bool)
    requires first + count <= |bits|
  {
    forall i | first <= i < first + count :: bits[i] == value
  }

  /** A run of `count` clear bits, at least one, starts at `first`. */
  predicate FreeRun(bits: seq<bool>, first: nat, count: nat) {
    0 < count && first + count <= |bits| && Uniform(bits, first, count, false)
  }

  ghost predicate IsFirstFit(bits: seq<bool>, count: nat, r: Option<nat>) {
    match r
    case Some(p) => FreeRun(bits, p, count) && forall q: nat | q < p :: !FreeRun(bits, q, count)
    case None => forall q: nat :: !FreeRun(bits, q, count)
  }

  ghost function FirstFit(bits: seq<bool>, count: nat): (r: Option<nat>)
    ensures IsFirstFit(bits, count, r)
  {
    FirstFitFrom(bits, count, 0)
  }

  ghost function FirstFitFrom(bits: seq<bool>, count: nat, p: nat): (r: Option<nat>)
    requires forall q: nat | q < p :: !FreeRun(bits, q, count)
    ensures IsFirstFit(bits, count, r)
    decreases |bits| - p
  {
    if p >= |bits| then None
    else if FreeRun(bits, p, count) then Some(p)
    else FirstFitFrom(bits, count, p + 1)
  }

  lemma FirstFitUnique(bits: seq<bool>, count: nat, r: Option<nat>)
    requires IsFirstFit(bits, count, r)
    ensures r == FirstFit(bits, count)
  {
    var f := FirstFit(bits, count);
    if r.Some? && f.Some? {
      assert r.value >= f.value by { assert FreeRun(bits, r.value, count); }
    }
  }

  /** Filling a range and then the range behind it fills both, and what was there is what was there in each. */
  lemma FillMore(bits: seq<bool>, first: nat, done: nat, more: nat, value: bool)
    requires first + done + more <= |bits|
    ensures Filled(Filled(bits, first, done, value), first + done, more, value)
            == Filled(bits, first, done + more, value)
    ensures Uniform(bits, first, done + more, !value) <==>
            Uniform(bits, first, done, !value) &&
            Uniform(Filled(bits, first, done, value), first + done, more, !value)
  {
    var f := Filled(bits, first, done, value);
    assert forall i | first + done <= i < |bits| :: f[i] == bits[i];
  }

  lemma NoFill(bits: seq<bool>, first: nat, value: bool)
    ensures Filled(bits, first, 0, value) == bits
  {}

  lemma ThreeFills(bits: seq<bool>, first: nat, a: nat, b: nat, c: nat)
    requires first + a + b + c <= |bits|
    ensures (var x := if a == 0 then bits else Filled(bits, first, a, false);
             var y := Filled(x, first + a, b, false);
             var z := if c == 0 then y else Filled(y, first + a + b, c, false);
             z == Filled(bits, first, a + b + c, false))
  {
    NoFill(bits, first, false);
    FillMore(bits, first, a, b, false);
    FillMore(bits, first, a + b, c, false);
    NoFill(Filled(bits, first, a + b, false), first + a + b, false);
  }

  /** One step of a backward copy: bit `i` joins the bits above it, and had not been overwritten. */
  lemma MoveMore(bits: seq<bool>, src: nat, dst: nat, count: nat, i: nat)
    requires src < dst && dst + count <= |bits| && i < count
    ensures (var now := Moved(bits, src + i + 1, dst + i + 1, count - i - 1);
             now[dst + i := now[src + i]] == Moved(bits, src + i, dst + i, count - i))
  {
    var now := Moved(bits, src + i + 1, dst + i + 1, count - i - 1);
    var next := now[dst + i := now[src + i]];
    forall k | 0 <= k < |bits| ensures next[k] == Moved(bits, src + i, dst + i, count - i)[k] {
      assert now[src + i] == bits[src + i];
    }
  }

  lemma NoMove(bits: seq<bool>, src: nat, dst: nat)
    requires src <= |bits| && dst <= |bits|
    ensures Moved(bits, src, dst, 0) == bits
  {
    assert forall k | 0 <= k < |bits| :: Moved(bits, src, dst, 0)[k] == bits[k];
  }

  /** Setting a free range and clearing it again gives back the same bits, and the other way round. */
  lemma FillUndoes(bits: seq<bool>, first: nat, count: nat, value: bool)
    requires first + count <= |bits|
    ensures Uniform(bits, first, count, !value) <==>
            Filled(Filled(bits, first, count, value), first, count, !value) == bits
  {
    var back := Filled(Filled(bits, first, count, value), first, count, !value);
    if Uniform(bits, first, count, !value) {
      assert back == bits;
    }
    if back == bits {
      forall i | first <= i < first + count ensures bits[i] == !value { assert back[i] == !value; }
    }
  }

  /** How many bits are clear from `a` up to `b`. */
  function Clear(bits: seq<bool>, a: nat, b: nat): nat
    requires b <= |bits|
  {
    if b <= a then 0 else Clear(bits, a, b - 1) + if bits[b - 1] then 0 else 1
  }

  lemma {:induction false} ClearSplit(bits: seq<bool>, a: nat, b: nat, c: nat)
    requires a <= b <= c <= |bits|
    ensures Clear(bits, a, c) == Clear(bits, a, b) + Clear(bits, b, c)
  {
    if b < c { ClearSplit(bits, a, b, c - 1); }
  }

  lemma {:induction false} ClearUniform(bits: seq<bool>, a: nat, b: nat, value: bool)
    requires a <= b <= |bits| && Uniform(bits, a, b - a, value)
    ensures Clear(bits, a, b) == if value then 0 else b - a
  {
    if a < b { ClearUniform(bits, a, b - 1, value); }
  }

  lemma {:induction false} ClearShifted(bits: seq<bool>, was: seq<bool>, d: nat, n: nat)
    requires n <= |was| && d + n <= |bits| && forall i | 0 <= i < n :: bits[d + i] == was[i]
    ensures Clear(bits, d, d + n) == Clear(was, 0, n)
  {
    if n > 0 {
      ClearShifted(bits, was, d, n - 1);
      assert bits[d + (n - 1)] == was[n - 1];
    }
  }
}

/** The allocation bitmap: an array of 64-bit cells, one bit a page, bit set when allocated. */
module Bitmaps {
  import opened Wrappers
  import opened Words
  import opened BitRanges

  /** `1 << k` */
  function One(k: nat): Word
    requires k < 64
  {
    Pow2At64();
    Pow2Bound(k, 63);
    Pow2(k)
  }

  /** `cell | (1 << k)` or `cell & !(1 << k)` */
  function WithBit(cell: Word, k: nat, value: bool): (r: Word)
    requires k < 64
  {
    Pow2At64();
    OrBound(cell, One(k), 64);
    if value then Or(cell, One(k)) else And(cell, Not(One(k)))
  }

  lemma WithBitIs(cell: Word, k: nat, value: bool, j: nat)
    requires k < 64 && j < 64
    ensures Bit(WithBit(cell, k, value), j) == if j == k then value else Bit(cell, j)
  {
    BitOr(cell, One(k), j);
    BitAnd(cell, Not(One(k)), j);
    BitNot(One(k), j);
    BitPow2(k, j);
  }

  /** `cell & (1 << k) != 0`, the test the allocator makes, reads bit `k`. */
  lemma TestBit(cell: Word, k: nat)
    requires k < 64
    ensures And(cell, One(k)) != 0 <==> Bit(cell, k)
  {
    BitAnd(cell, One(k), k);
    BitPow2(k, k);
    BitZero(k);
    if !Bit(cell, k) {
      forall j: nat | j < 64 ensures Bit(And(cell, One(k)), j) == Bit(0, j) {
        BitAnd(cell, One(k), j);
        BitPow2(k, j);
        BitZero(j);
      }
      Pow2At64();
      SameBits(And(cell, One(k)), 0, 64);
    }
  }

  /** All 64 bits of the cell equal `value`. */
  predicate AllBits(cell: Word, value: bool) {
    forall j: nat | j < 64 :: Bit(cell, j) == value
  }

  /** The whole-cell tests `cell == 0` and `cell == 0xffffffffffffffff` look at every bit. */
  lemma WholeCell(cell: Word, value: bool)
    ensures AllBits(cell, value) <==> cell == if value then ALL_ONES else 0
  {
    var whole: Word := if value then ALL_ONES else 0;
    forall j: nat | j < 64 ensures Bit(whole, j) == value {
      BitZero(j);
      BitOnes(j);
    }
    if AllBits(cell, value) {
      Pow2At64();
      SameBits(cell, whole, 64);
    } else {
      assert AllBits(whole, value);
    }
  }

  /** `(1 << k) - 1` */
  function LowMask(k: nat): Word
    requires k < 64
  {
    One(k) - 1
  }

  /** `prefix_mask | suffix_mask`, or only the one of them that is needed. */
  function KeepMask(lo: nat, hi: nat): Word
    requires lo <= hi <= 64 && lo < 64
  {
    if hi == 64 then LowMask(lo)
    else
      Pow2At64();
      OrBound(LowMask(lo), Not(LowMask(hi)), 64);
      Or(LowMask(lo), Not(LowMask(hi)))
  }

  lemma KeepMaskIs(lo: nat, hi: nat, j: nat)
    requires lo <= hi <= 64 && lo < 64 && j < 64
    ensures Bit(KeepMask(lo, hi), j) == (j < lo || hi <= j)
  {
    BitLowMask(lo, j);
    if hi < 64 {
      BitLowMask(hi, j);
      BitNot(LowMask(hi), j);
      BitOr(LowMask(lo), Not(LowMask(hi)), j);
    }
  }

  /** Everything before `pos` has been looked at: the last `holeCount` bits are clear, they start
      at `pageNum`, and no long enough run starts before them. */
  ghost predicate Searched(bits: seq<bool>, pageCount: nat, pos: nat, pageNum: nat, holeCount: nat) {
    && holeCount <= pos <= |bits|
    && (holeCount > 0 ==> pageNum == pos - holeCount)
    && Uniform(bits, pos - holeCount, holeCount, false)
    && (0 < pageCount ==> holeCount < pageCount)
    && forall q: nat | q < pos - holeCount :: !FreeRun(bits, q, pageCount)
  }

  /** A fill of `count` bits of `bits` from `first` has `left` bits to go, from `pageNum`. */
  ghost predicate Progress(bits: seq<bool>, now: seq<bool>, first: nat, count: nat, value: bool,
                           pageNum: nat, left: nat, tripped: bool) {
    && first <= pageNum && pageNum + left == first + count <= |bits|
    && now == Filled(bits, first, pageNum - first, value)
    && (tripped <==> !Uniform(bits, first, pageNum - first, !value))
  }

  lemma ProgressStep(bits: seq<bool>, now: seq<bool>, first: nat, count: nat, value: bool,
                     pageNum: nat, left: nat, tripped: bool, step: nat, t: bool)
    requires Progress(bits, now, first, count, value, pageNum, left, tripped)
    requires step <= left && (t <==> !Uniform(now, pageNum, step, !value))
    ensures Progress(bits, Filled(now, pageNum, step, value), first, count, value,
                     pageNum + step, left - step, tripped || t)
  {
    FillMore(bits, first, pageNum - first, step, value);
  }

  class Bitmap {
    const cells: array<Word>
    /** The bits of all the cells, in page order. */
    ghost var bits: seq<bool>

    ghost predicate Valid()
      reads this, cells
    {
      && |bits| == 64 * cells.Length
      && forall c, j {:trigger Bit(cells[c], j)} | 0 <= c < cells.Length && 0 <= j < 64 ::
           bits[64 * c + j] == Bit(cells[c], j)
    }

    constructor (size: nat)
      ensures Valid() && fresh(cells)
      ensures bits == seq(64 * size, _ => false)
    {
      cells := new Word[size](_ => 0);
      bits := seq(64 * size, _ => false);
      new;
      forall j: nat | j < 64 ensures !Bit(0, j) { BitZero(j); }
    }

    /** First fit: the least page that starts `pageCount` free pages. Asking for none finds none. */
    method FindHole(pageCount: nat) returns (r: Option<nat>)
      requires Valid()
      ensures r == FirstFit(bits, pageCount)
    {
      var pageNum: nat, holeCount: nat := 0, 0;
      var i := 0;
      while i < cells.Length
        invariant i <= cells.Length
        invariant Searched(bits, pageCount, 64 * i, pageNum, holeCount)
      {
        var cell := cells[i];
        var j := 0;
        while j < 64
          invariant j <= 64
          invariant Searched(bits, pageCount, 64 * i + j, pageNum, holeCount)
        {
          TestBit(cell, j);
          if And(cell, One(j)) == 0 {
            if holeCount == 0 {
              pageNum := 64 * i + j;
            }
            holeCount := holeCount + 1;
            if holeCount == pageCount {
              FirstFitUnique(bits, pageCount, Some(pageNum));
              return Some(pageNum);
            }
          } else {
            pageNum := pageNum + holeCount;
            holeCount := 0;
          }
          j := j + 1;
        }
        i := i + 1;
      }
      FirstFitUnique(bits, pageCount, None);
      r := None;
    }

    /** Allocates the first fit, if there is one. */
    method Alloc(pageCount: nat) returns (r: Option<nat>)
      requires Valid()
      modifies this, cells
      ensures Valid()
      ensures r == FirstFit(old(bits), pageCount)
      ensures bits == if r.Some? then Filled(old(bits), r.value, pageCount, true) else old(bits)
    {
      r := FindHole(pageCount);
      if r.Some? {
        var tripped := MarkAllocated(r.value, pageCount);
        assert !tripped;
      }
    }

    /** Sets a range. `tripped` tells whether a "double alloc" debug assertion fires. */
    method MarkAllocated(first: nat, count: nat) returns (tripped: bool)
      requires Valid()
      requires first + count <= |bits|
      modifies this, cells
      ensures Valid()
      ensures bits == Filled(old(bits), first, count, true)
      ensures tripped <==> !Uniform(old(bits), first, count, false)
    {
      tripped := Fill(first, count, true);
    }

    /** Clears a range. `tripped` tells whether a "double free" debug assertion fires. */
    method Free(first: nat, count: nat) returns (tripped: bool)
      requires Valid()
      requires first + count <= |bits|
      modifies this, cells
      ensures Valid()
      ensures bits == Filled(old(bits), first, count, false)
      ensures tripped <==> !Uniform(old(bits), first, count, true)
    {
      tripped := Fill(first, count, false);
    }

    /** The three phases shared by `MarkAllocated` and `Free`: single bits up to a cell boundary,
        then whole cells, then single bits. */
    method Fill(first: nat, count: nat, value: bool) returns (tripped: bool)
      requires Valid()
      requires first + count <= |bits|
      modifies this, cells
      ensures Valid()
      ensures bits == Filled(old(bits), first, count, value)
      ensures tripped <==> !Uniform(old(bits), first, count, !value)
    {
      ghost var was := bits;
      var pageNum: nat, left: nat := first, count;
      tripped := false;
      NoFill(was, first, value);
      while pageNum % 64 != 0 && left > 0
        invariant Valid()
        invariant Progress(was, bits, first, count, value, pageNum, left, tripped)
        decreases left
      {
        ghost var now := bits;
        var t := PutBit(pageNum, value);
        ProgressStep(was, now, first, count, value, pageNum, left, tripped, 1, t);
        tripped, pageNum, left := tripped || t, pageNum + 1, left - 1;
      }
      while left >= 64
        invariant Valid()
        invariant Progress(was, bits, first, count, value, pageNum, left, tripped)
        invariant left > 0 ==> pageNum % 64 == 0
      {
        ghost var now := bits;
        var t := PutCell(pageNum / 64, value);
        ProgressStep(was, now, first, count, value, pageNum, left, tripped, 64, t);
        tripped, pageNum, left := tripped || t, pageNum + 64, left - 64;
      }
      while left > 0
        invariant Valid()
        invariant Progress(was, bits, first, count, value, pageNum, left, tripped)
      {
        ghost var now := bits;
        var t := PutBit(pageNum, value);
        ProgressStep(was, now, first, count, value, pageNum, left, tripped, 1, t);
        tripped, pageNum, left := tripped || t, pageNum + 1, left - 1;
      }
    }

    /** One single-bit step; `already` when the bit had that value. */
    method PutBit(p: nat, value: bool) returns (already: bool)
      requires Valid()
      requires p < |bits|
      modifies this, cells
      ensures Valid()
      ensures bits == old(bits)[p := value] == Filled(old(bits), p, 1, value)
      ensures already <==> !Uniform(old(bits), p, 1, !value)
    {
      var c, k := p / 64, p % 64;
      TestBit(cells[c], k);
      already := (And(cells[c], One(k)) != 0) == value;
      assert already == (bits[p] == value);
      forall j: nat | j < 64
        ensures Bit(WithBit(cells[c], k, value), j) == if j == k then value else Bit(cells[c], j)
      {
        WithBitIs(cells[c], k, value, j);
      }
      cells[c] := WithBit(cells[c], k, value);
      bits := bits[p := value];
    }

    /** One whole-cell step; `already` when some bit of the cell had that value. */
    method PutCell(c: nat, value: bool) returns (already: bool)
      requires Valid()
      requires c < cells.Length
      modifies this, cells
      ensures Valid()
      ensures bits == Filled(old(bits), 64 * c, 64, value)
      ensures already <==> !Uniform(old(bits), 64 * c, 64, !value)
    {
      UniformCell(c, !value);
      WholeCell(cells[c], !value);
      already := if value then cells[c] != 0 else cells[c] != ALL_ONES;
      cells[c] := if value then ALL_ONES else 0;
      bits := Filled(bits, 64 * c, 64, value);
      WholeCell(cells[c], value);
    }

    lemma UniformCell(c: nat, value: bool)
      requires Valid()
      requires c < cells.Length
      ensures Uniform(bits, 64 * c, 64, value) <==> AllBits(cells[c], value)
    {
      if AllBits(cells[c], value) {
        forall i | 64 * c <= i < 64 * c + 64 ensures bits[i] == value {
          assert Bit(cells[c], i - 64 * c) == value;
        }
      }
    }

    method Get(idx: nat) returns (bit: bool)
      requires Valid()
      requires idx < |bits|
      ensures bit == bits[idx]
    {
      TestBit(cells[idx / 64], idx % 64);
      bit := And(cells[idx / 64], One(idx % 64)) != 0;
    }

    method Set(idx: nat, value: bool)
      requires Valid()
      requires idx < |bits|
      modifies this, cells
      ensures Valid()
      ensures bits == old(bits)[idx := value]
    {
      var _ := PutBit(idx, value);
    }

    /** Copies a bit range to a higher position; the two ranges may overlap. */
    method MoveBitRangeForward(src: nat, dst: nat, count: nat)
      requires Valid()
      requires src <= dst
      requires src < dst ==> dst + count <= |bits|
      modifies this, cells
      ensures Valid()
      ensures bits == if src == dst then old(bits) else Moved(old(bits), src, dst, count)
    {
      if src == dst {
        return;
      }
      ghost var was := bits;
      NoMove(was, src + count, dst + count);
      var i: nat := count;
      while i > 0
        invariant Valid() && i <= count
        invariant |bits| == |was| && bits == Moved(was, src + i, dst + i, count - i)
      {
        i := i - 1;
        var bit := Get(src + i);
        MoveMore(was, src, dst, count, i);
        Set(dst + i, bit);
      }
    }

    /** Clears a range with a prefix mask, whole cells and a suffix mask. */
    method ZeroBitRange(idx: nat, count: nat)
      requires Valid()
      requires count > 0 ==> idx + count <= |bits|
      modifies this, cells
      ensures Valid()
      ensures bits == Filled(old(bits), idx, count, false)
    {
      if count == 0 {
        NoFill(bits, idx, false);
        return;
      }
      var end := idx + count;
      if idx / 64 == end / 64 {
        MaskCell(idx / 64, idx % 64, end % 64);
        return;
      }
      var first, last := (idx + 63) / 64, end / 64;
      ThreeFills(bits, idx, 64 * first - idx, 64 * (last - first), end % 64);
      if idx % 64 != 0 {
        MaskCell(idx / 64, idx % 64, 64);
      }
      ZeroCells(first, last);
      if end % 64 != 0 {
        MaskCell(last, 0, end % 64);
      }
    }

    method ZeroCells(first: nat, last: nat)
      requires Valid()
      requires first <= last <= cells.Length
      modifies this, cells
      ensures Valid()
      ensures bits == Filled(old(bits), 64 * first, 64 * (last - first), false)
    {
      ghost var was := bits;
      NoFill(was, 64 * first, false);
      var cell := first;
      while cell < last
        invariant first <= cell <= last && Valid()
        invariant bits == Filled(was, 64 * first, 64 * (cell - first), false)
      {
        FillMore(was, 64 * first, 64 * (cell - first), 64, false);
        var _ := PutCell(cell, false);
        cell := cell + 1;
      }
    }

    /** `cells[c] &= keep`, where the mask drops the bits from `lo` up to `hi`: the prefix mask
        when `hi` is 64, the suffix mask when `lo` is 0, otherwise both or'ed together. */
    method MaskCell(c: nat, lo: nat, hi: nat)
      requires Valid()
      requires c < cells.Length && lo <= hi <= 64 && (hi == 64 ==> 0 < lo < 64)
      modifies this, cells
      ensures Valid()
      ensures bits == Filled(old(bits), 64 * c + lo, hi - lo, false)
    {
      var keep := KeepMask(lo, hi);
      forall j: nat | j < 64 ensures Bit(And(cells[c], keep), j) == (Bit(cells[c], j) && (j < lo || hi <= j)) {
        KeepMaskIs(lo, hi, j);
        BitAnd(cells[c], keep, j);
      }
      cells[c] := And(cells[c], keep);
      bits := Filled(bits, 64 * c + lo, hi - lo, false);
    }
  }
}
