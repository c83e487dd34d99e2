/** Unsigned machine words as naturals, with the bitwise operators of C written out bit by bit. */
module Bits {

  const UINT32_LIMIT := 0x1_0000_0000
  const UINT64_LIMIT := 0x1_0000_0000_0000_0000

  type uint8 = x: int | 0 <= x < 0x100
  type uint32 = x: int | 0 <= x < UINT32_LIMIT
  type uint64 = x: int | 0 <= x < UINT64_LIMIT

  /** The wrap-around of uint64_t arithmetic. */
  function Wrap64(x: int): (r: uint64)
    ensures 0 <= x < UINT64_LIMIT ==> r == x
    decreases if x < 0 then UINT64_LIMIT - x else x
  {
    if x < 0 then Wrap64(x + UINT64_LIMIT)
    else if x < UINT64_LIMIT then x
    else Wrap64(x - UINT64_LIMIT)
  }

  lemma {:induction false} WrapIsMod(x: int)
    ensures Wrap64(x) == x % UINT64_LIMIT
    decreases if x < 0 then UINT64_LIMIT - x else x
  {
    if x < 0 {
      WrapIsMod(x + UINT64_LIMIT);
    } else if x >= UINT64_LIMIT {
      WrapIsMod(x - UINT64_LIMIT);
    }
  }

  lemma WrapSum(x: int, y: int)
    ensures Wrap64(Wrap64(x) + y) == Wrap64(x + y)
  {
    WrapIsMod(x);
    WrapIsMod(Wrap64(x) + y);
    WrapIsMod(x + y);
    assert x == UINT64_LIMIT * (x / UINT64_LIMIT) + Wrap64(x);
  }

  function Pow2(k: nat): (r: nat)
    ensures r > 0
  {
    if k == 0 then 1 else 2 * Pow2(k - 1)
  }

  /** Bit i of x. */
  predicate Bit(x: nat, i: nat) {
    if i == 0 then x % 2 == 1 else Bit(x / 2, i - 1)
  }

  function And(x: nat, y: nat): (r: nat)
    ensures r <= x && r <= y
    decreases x
  {
    if x == 0 || y == 0 then 0
    else 2 * And(x / 2, y / 2) + (if x % 2 == 1 && y % 2 == 1 then 1 else 0)
  }

  function Or(x: nat, y: nat): (r: nat)
    ensures x <= r && y <= r <= x + y
    decreases x
  {
    if x == 0 then y
    else if y == 0 then x
    else 2 * Or(x / 2, y / 2) + (if x % 2 == 1 || y % 2 == 1 then 1 else 0)
  }

  function Shl(x: nat, k: nat): nat {
    if k == 0 then x else 2 * Shl(x, k - 1)
  }

  function Shr(x: nat, k: nat): nat {
    if k == 0 then x else Shr(x, k - 1) / 2
  }

  function Not32(x: uint32): uint32 {
    UINT32_LIMIT - 1 - x
  }

  /** The k low bits. */
  function Mask(k: nat): nat {
    Pow2(k) - 1
  }

  lemma PowerConstants()
    ensures Pow2(8) == 0x100 && Pow2(12) == 0x1000 && Pow2(32) == UINT32_LIMIT
    ensures Pow2(40) == 0x100_0000_0000 && Pow2(52) == 0x10_0000_0000_0000 && Pow2(64) == UINT64_LIMIT
  {
    assert Pow2(8) == 0x100 && Pow2(12) == 0x1000 && Pow2(16) == 0x1_0000;
    assert Pow2(24) == 0x100_0000 && Pow2(32) == UINT32_LIMIT && Pow2(40) == 0x100_0000_0000;
    assert Pow2(46) == 0x4000_0000_0000 && Pow2(52) == 0x10_0000_0000_0000;
    assert Pow2(58) == 0x400_0000_0000_0000;
  }

  lemma {:induction false} BitOfZero(i: nat)
    ensures !Bit(0, i)
  {
    if i > 0 {
      BitOfZero(i - 1);
    }
  }

  lemma Halve(h: nat, x: nat)
    requires x == 2 * h || x == 2 * h + 1
    ensures x / 2 == h
  {
  }

  lemma {:induction false} BitAnd(x: nat, y: nat, i: nat)
    ensures Bit(And(x, y), i) <==> Bit(x, i) && Bit(y, i)
    decreases i
  {
    if x == 0 || y == 0 {
      BitOfZero(i);
    } else if i > 0 {
      BitAnd(x / 2, y / 2, i - 1);
      Halve(And(x / 2, y / 2), And(x, y));
    }
  }

  lemma {:induction false} BitOr(x: nat, y: nat, i: nat)
    ensures Bit(Or(x, y), i) <==> Bit(x, i) || Bit(y, i)
    decreases i
  {
    if x == 0 || y == 0 {
      BitOfZero(i);
    } else if i > 0 {
      BitOr(x / 2, y / 2, i - 1);
      Halve(Or(x / 2, y / 2), Or(x, y));
    }
  }

  lemma {:induction false} BitShl(x: nat, k: nat, i: nat)
    ensures Bit(Shl(x, k), i) <==> i >= k && Bit(x, i - k)
  {
    if k > 0 && i > 0 {
      BitShl(x, k - 1, i - 1);
      assert Shl(x, k) / 2 == Shl(x, k - 1);
    }
  }

  lemma {:induction false} BitShr(x: nat, k: nat, i: nat)
    ensures Bit(Shr(x, k), i) <==> Bit(x, i + k)
  {
    if k > 0 {
      assert Bit(Shr(x, k), i) == Bit(Shr(x, k - 1), i + 1);
      BitShr(x, k - 1, i + 1);
    }
  }

  lemma {:induction false} BitOfMask(k: nat, i: nat)
    ensures Bit(Mask(k), i) <==> i < k
  {
    if k == 0 {
      BitOfZero(i);
    } else if i > 0 {
      BitOfMask(k - 1, i - 1);
      assert Mask(k) / 2 == Mask(k - 1);
    }
  }

  lemma {:induction false} BitNot32(x: uint32, i: nat, width: nat)
    requires i < width && x < Pow2(width)
    ensures Bit(Mask(width) - x, i) <==> !Bit(x, i)
  {
    if i > 0 {
      BitNot32(x / 2, i - 1, width - 1);
      assert (Mask(width) - x) / 2 == Mask(width - 1) - x / 2;
    }
  }

  /** A word is determined by its bits. */
  lemma {:induction false} BitsDetermine(x: nat, y: nat)
    requires forall i: nat :: Bit(x, i) == Bit(y, i)
    ensures x == y
    decreases x + y
  {
    assert Bit(x, 0) == Bit(y, 0);
    if x + y > 0 {
      forall i: nat
        ensures Bit(x / 2, i) == Bit(y / 2, i)
      {
        assert Bit(x, i + 1) == Bit(y, i + 1);
      }
      BitsDetermine(x / 2, y / 2);
    }
  }

  lemma {:induction false} Bounded(x: nat, k: nat)
    requires forall i: nat :: i >= k ==> !Bit(x, i)
    ensures x < Pow2(k)
    decreases k + x
  {
    if x > 0 {
      if k == 0 {
        assert !Bit(x, 0);
        forall i: nat
          ensures !Bit(x / 2, i)
        {
          assert !Bit(x, i + 1);
        }
        Bounded(x / 2, 0);
      } else {
        forall i: nat | i >= k - 1
          ensures !Bit(x / 2, i)
        {
          assert !Bit(x, i + 1);
        }
        Bounded(x / 2, k - 1);
      }
    }
  }

  lemma {:induction false} HighBitsZero(x: nat, k: nat, i: nat)
    requires x < Pow2(k) && i >= k
    ensures !Bit(x, i)
  {
    if k == 0 {
      BitOfZero(i);
    } else {
      HighBitsZero(x / 2, k - 1, i - 1);
    }
  }

  lemma {:induction false} ShrIsDiv(x: nat, k: nat)
    ensures Shr(x, k) == x / Pow2(k)
  {
    if k > 0 {
      ShrIsDiv(x, k - 1);
      DivDiv(x, Pow2(k - 1));
    }
  }

  lemma DivDiv(x: nat, p: nat)
    requires p > 0
    ensures x / p / 2 == x / (2 * p)
  {
    var q, r := x / p, x % p;
    assert x == p * q + r;
    var h := q / 2;
    assert x == (2 * p) * h + (if q % 2 == 1 then p + r else r) by {
      assert q == 2 * h + q % 2;
      assert p * q == p * (2 * h) + p * (q % 2);
    }
    DivUnique(x, 2 * p, h, if q % 2 == 1 then p + r else r);
  }

  lemma DivUnique(x: nat, p: nat, q: nat, r: nat)
    requires p > 0 && r < p && x == p * q + r
    ensures x / p == q && x % p == r
  {
    var d := x / p;
    assert x == p * d + x % p;
    MulGap(p, d, q);
    MulGap(p, q, d);
  }

  lemma {:induction false} MulGap(p: nat, d: nat, q: nat)
    ensures d < q ==> p * d + p <= p * q
    decreases q
  {
    if d < q {
      assert p * q == p * (q - 1) + p;
      MulGap(p, d, q - 1);
    }
  }

  lemma {:induction false} ShlIsMul(x: nat, k: nat)
    ensures Shl(x, k) == x * Pow2(k)
  {
    if k > 0 {
      ShlIsMul(x, k - 1);
    }
  }

  lemma {:induction false} AndMaskIsMod(x: nat, k: nat)
    ensures And(x, Mask(k)) == x % Pow2(k)
    decreases k
  {
    if k > 0 && x > 0 {
      AndMaskIsMod(x / 2, k - 1);
      Halve(Mask(k - 1), Mask(k));
      ModDouble(x, Pow2(k - 1));
      assert And(x, Mask(k)) == 2 * And(x / 2, Mask(k - 1)) + x % 2;
    }
  }

  lemma ModDouble(x: nat, p: nat)
    requires p > 0
    ensures x % (2 * p) == 2 * ((x / 2) % p) + x % 2
  {
    var h := x / 2;
    assert h == p * (h / p) + h % p;
    assert x == (2 * p) * (h / p) + (2 * (h % p) + x % 2);
    DivUnique(x, 2 * p, h / p, 2 * (h % p) + x % 2);
  }

  lemma ShrBound(x: nat, k: nat)
    ensures Shr(x, k) <= x
  {
    if k > 0 {
      ShrBound(x, k - 1);
    }
  }

  /** Or of two words without a common bit is their sum. */
  lemma {:induction false} OrIsSum(x: nat, y: nat)
    requires And(x, y) == 0
    ensures Or(x, y) == x + y
    decreases x
  {
    if x > 0 && y > 0 {
      OrIsSum(x / 2, y / 2);
    }
  }

  /** Only the all-ones word has every bit set. */
  lemma {:induction false} AllOnes(x: nat, k: nat)
    requires x < Pow2(k)
    ensures x == Mask(k) <==> forall i: nat :: i < k ==> Bit(x, i)
  {
    if x == Mask(k) {
      forall i: nat | i < k
        ensures Bit(x, i)
      {
        BitOfMask(k, i);
      }
    } else if k > 0 {
      AllOnes(x / 2, k - 1);
      if x / 2 == Mask(k - 1) {
        assert !Bit(x, 0);
      } else {
        var i: nat :| i < k - 1 && !Bit(x / 2, i);
        assert !Bit(x, i + 1);
      }
    }
  }
}
