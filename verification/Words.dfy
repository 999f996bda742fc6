/** Unsigned 64-bit words and the bitwise operators the kernel applies to them.

    A word is a natural number below 2^64. `And`, `Or` and `Not` are defined bit by bit, and
    each is tied to `Bit` and, where the kernel masks out a field, to division and remainder. */
module Words {

  type Word = w: nat | w < 0x1_0000_0000_0000_0000

  const ALL_ONES: Word := 0xffff_ffff_ffff_ffff

  function Pow2(k: nat): (p: nat)
    ensures p > 0
  {
    if k == 0 then 1 else 2 * Pow2(k - 1)
  }

  /** Bit `j` of `w`, counted from the least significant one. */
  predicate Bit(w: nat, j: nat) {
    if j == 0 then w % 2 == 1 else Bit(w / 2, j - 1)
  }

  function And(x: nat, y: nat): (r: nat)
    ensures r <= x && r <= y
  {
    if x == 0 || y == 0 then 0
    else (if x % 2 == 1 && y % 2 == 1 then 1 else 0) + 2 * And(x / 2, y / 2)
  }

  function Or(x: nat, y: nat): (r: nat)
    ensures r >= x && r >= y && r <= x + y
  {
    if x == 0 then y else if y == 0 then x
    else (if x % 2 == 1 || y % 2 == 1 then 1 else 0) + 2 * Or(x / 2, y / 2)
  }

  function Not(w: Word): Word {
    ALL_ONES - w
  }

  function Shr(x: nat, k: nat): nat {
    if k == 0 then x else Shr(x / 2, k - 1)
  }

  function Shl(x: nat, k: nat): nat {
    if k == 0 then x else 2 * Shl(x, k - 1)
  }

  /** The `k` low bits of `x`. */
  function Low(x: nat, k: nat): (r: nat)
    ensures r < Pow2(k)
  {
    if k == 0 then 0 else x % 2 + 2 * Low(x / 2, k - 1)
  }

  lemma {:induction false} BitZero(j: nat)
    ensures !Bit(0, j)
  {
    if j > 0 { BitZero(j - 1); }
  }

  lemma {:induction false} BitAnd(x: nat, y: nat, j: nat)
    ensures Bit(And(x, y), j) == (Bit(x, j) && Bit(y, j))
  {
    if x == 0 || y == 0 {
      BitZero(j);
    } else if j > 0 {
      BitAnd(x / 2, y / 2, j - 1);
    }
  }

  lemma {:induction false} BitOr(x: nat, y: nat, j: nat)
    ensures Bit(Or(x, y), j) == (Bit(x, j) || Bit(y, j))
  {
    if x == 0 || y == 0 {
      BitZero(j);
    } else if j > 0 {
      BitOr(x / 2, y / 2, j - 1);
    }
  }

  lemma {:induction false} OrBound(x: nat, y: nat, k: nat)
    requires x < Pow2(k) && y < Pow2(k)
    ensures Or(x, y) < Pow2(k)
  {
    if x != 0 && y != 0 { OrBound(x / 2, y / 2, k - 1); }
  }

  lemma {:induction false} BitPow2(k: nat, j: nat)
    ensures Bit(Pow2(k), j) == (j == k)
  {
    if k == 0 {
      if j > 0 { BitZero(j - 1); }
    } else if j > 0 {
      BitPow2(k - 1, j - 1);
    }
  }

  /** The mask `(1 << k) - 1` holds the bits below `k`. */
  lemma {:induction false} BitLowMask(k: nat, j: nat)
    ensures Bit(Pow2(k) - 1, j) == (j < k)
  {
    if k == 0 {
      BitZero(j);
    } else if j > 0 {
      BitLowMask(k - 1, j - 1);
    }
  }

  lemma {:induction false} BitComplement(w: nat, k: nat, j: nat)
    requires w < Pow2(k) && j < k
    ensures Bit(Pow2(k) - 1 - w, j) == !Bit(w, j)
  {
    if j > 0 {
      BitComplement(w / 2, k - 1, j - 1);
      assert (Pow2(k) - 1 - w) / 2 == Pow2(k - 1) - 1 - w / 2;
    }
  }

  lemma Pow2At64()
    ensures Pow2(64) == 0x1_0000_0000_0000_0000
  {
    assert Pow2(8) == 256;
    assert Pow2(16) == 0x1_0000;
    assert Pow2(24) == 0x100_0000;
    assert Pow2(32) == 0x1_0000_0000;
    assert Pow2(40) == 0x100_0000_0000;
    assert Pow2(48) == 0x1_0000_0000_0000;
    assert Pow2(56) == 0x100_0000_0000_0000;
  }

  lemma {:induction false} Pow2Bound(k: nat, m: nat)
    requires k <= m
    ensures Pow2(k) <= Pow2(m)
  {
    if k < m { Pow2Bound(k, m - 1); }
  }

  lemma BitNot(w: Word, j: nat)
    requires j < 64
    ensures Bit(Not(w), j) == !Bit(w, j)
  {
    Pow2At64();
    BitComplement(w, 64, j);
  }

  lemma BitOnes(j: nat)
    requires j < 64
    ensures Bit(ALL_ONES, j)
  {
    BitNot(0, j);
    BitZero(j);
  }

  /** Words with the same bits are equal. */
  lemma {:induction false} SameBits(x: nat, y: nat, k: nat)
    requires x < Pow2(k) && y < Pow2(k)
    requires forall j: nat | j < k :: Bit(x, j) == Bit(y, j)
    ensures x == y
  {
    if k > 0 {
      assert Bit(x, 0) == Bit(y, 0);
      forall j: nat | j < k - 1 ensures Bit(x / 2, j) == Bit(y / 2, j) {
        assert Bit(x, j + 1) == Bit(y, j + 1);
      }
      SameBits(x / 2, y / 2, k - 1);
    }
  }

  // Masks as fields of a number: `x` is its bits above `k`, shifted back, plus its bits below `k`.

  lemma {:induction false} SplitAt(x: nat, k: nat)
    ensures x == Shl(Shr(x, k), k) + Low(x, k)
  {
    if k > 0 { SplitAt(x / 2, k - 1); }
  }

  lemma {:induction false} ShlIs(x: nat, k: nat)
    ensures Shl(x, k) == x * Pow2(k)
  {
    if k > 0 {
      ShlIs(x, k - 1);
      var p := Pow2(k - 1);
      assert x * (2 * p) == 2 * (x * p);
    }
  }

  /** `x` as a multiple of 2^k plus its low bits, for a power written out as a number. */
  lemma Fields(x: nat, k: nat, p: nat)
    requires p == Pow2(k)
    ensures x == p * Shr(x, k) + Low(x, k) && Low(x, k) < p
  {
    SplitAt(x, k);
    ShlIs(Shr(x, k), k);
  }

  lemma {:induction false} AndShift(x: nat, y: nat, k: nat)
    ensures And(x, Shl(y, k)) == Shl(And(Shr(x, k), y), k)
  {
    if k > 0 { AndShift(x / 2, y, k - 1); }
  }

  lemma {:induction false} AndLowMask(x: nat, k: nat)
    ensures And(x, Pow2(k) - 1) == Low(x, k)
  {
    if k > 0 { AndLowMask(x / 2, k - 1); }
  }

  /** Disjoint fields add up: `x` at bit `k` and above, `y` below it. */
  lemma {:induction false} OrFields(x: nat, y: nat, k: nat)
    requires y < Pow2(k)
    ensures Or(Shl(x, k), y) == Shl(x, k) + y
  {
    if k > 0 { OrFields(x, y / 2, k - 1); }
  }

  lemma {:induction false} OrDoubles(x: nat, y: nat, k: nat)
    ensures Or(Shl(x, k), Shl(y, k)) == Shl(Or(x, y), k)
  {
    if k > 0 { OrDoubles(x, y, k - 1); }
  }

  lemma OrOdd(x: nat, y: nat)
    ensures Or(2 * x + 1, 2 * y) == 2 * Or(x, y) + 1
  {}

  lemma {:induction false} OrCommutes(x: nat, y: nat)
    ensures Or(x, y) == Or(y, x)
  {
    if x != 0 && y != 0 { OrCommutes(x / 2, y / 2); }
  }

  lemma {:induction false} OrSelf(x: nat)
    ensures Or(x, x) == x
  {
    if x != 0 { OrSelf(x / 2); }
  }

  lemma OrAssociates(x: Word, y: Word, z: Word)
    ensures Or(Or(x, y), z) == Or(x, Or(y, z))
  {
    var k := 64;
    Pow2At64();
    OrBound(x, y, k);
    OrBound(y, z, k);
    OrBound(Or(x, y), z, k);
    OrBound(x, Or(y, z), k);
    forall j: nat | j < k ensures Bit(Or(Or(x, y), z), j) == Bit(Or(x, Or(y, z)), j) {
      BitOr(x, y, j);
      BitOr(y, z, j);
      BitOr(Or(x, y), z, j);
      BitOr(x, Or(y, z), j);
    }
    SameBits(Or(Or(x, y), z), Or(x, Or(y, z)), k);
  }
}
