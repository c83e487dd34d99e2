/** The masks and shifts on bytes of src/ssfn.c, as arithmetic. */
module ByteMasks {
  import opened Bits

  /** A mask of one bit tests that bit. */
  lemma TestMask(x: nat, k: nat)
    ensures And(x, Pow2(k)) != 0 <==> x / Pow2(k) % 2 == 1
  {
    BitShr(x, k, 0);
    ShrIsDiv(x, k);
    TestBitOf(x, k);
  }

  lemma {:induction false} TestBitOf(x: nat, k: nat)
    ensures And(x, Pow2(k)) != 0 <==> Bit(x, k)
  {
    if x > 0 {
      if k > 0 {
        TestBitOf(x / 2, k - 1);
      } else {
        assert And(x, 1) == 2 * And(x / 2, 0) + x % 2;
      }
    } else {
      BitOfZero(k);
    }
  }

  /** Bits shifted clear of y's are joined to them by a sum. */
  lemma {:induction false} OrShifted(x: nat, k: nat, y: nat)
    requires y < Pow2(k)
    ensures Or(Shl(x, k), y) == Shl(x, k) + y
  {
    if k > 0 {
      OrShifted(x, k - 1, y / 2);
      OrEven(Shl(x, k - 1), y);
    }
  }

  lemma OrEven(h: nat, y: nat)
    ensures Or(2 * h, y) == 2 * Or(h, y / 2) + y % 2
  {
    if h == 0 {
      assert Or(2 * h, y) == y && Or(h, y / 2) == y / 2;
    } else if y == 0 {
      assert Or(2 * h, y) == 2 * h && Or(h, y / 2) == h;
    } else {
      Halve(h, 2 * h);
      assert Or(2 * h, y) == 2 * Or(2 * h / 2, y / 2) + (if y % 2 == 1 then 1 else 0);
    }
  }

  lemma ShlOr(x: nat, k: nat, y: nat)
    requires y < Pow2(k)
    ensures Or(Shl(x, k), y) == x * Pow2(k) + y
  {
    OrShifted(x, k, y);
    ShlIsMul(x, k);
  }

  /** The top bits of a byte that choose the length of its sequence. */
  lemma LeadBits(b: uint8)
    ensures And(b, 0x80) != 0 <==> b >= 0x80
    ensures And(b, 0x20) != 0 <==> b / 0x20 % 2 == 1
    ensures And(b, 0x10) != 0 <==> b / 0x10 % 2 == 1
    ensures And(b, 0x08) != 0 <==> b / 0x08 % 2 == 1
  {
    assert Pow2(7) == 0x80 && Pow2(5) == 0x20 && Pow2(4) == 0x10 && Pow2(3) == 0x08;
    assert And(b, 0x80) != 0 <==> b / 0x80 == 1 by {
      TestMask(b, 7);
    }
    TestMask(b, 5);
    TestMask(b, 4);
    TestMask(b, 3);
  }

  lemma PayloadBits(b: uint8)
    ensures And(b, 0x1F) == b % 0x20 && And(b, 0x0F) == b % 0x10 && And(b, 0x07) == b % 0x08 && And(b, 0x3F) == b % 0x40
  {
    assert Pow2(5) == 0x20 && Pow2(4) == 0x10 && Pow2(3) == 0x08 && Pow2(6) == 0x40;
    AndMaskIsMod(b, 5);
    AndMaskIsMod(b, 4);
    AndMaskIsMod(b, 3);
    AndMaskIsMod(b, 6);
  }

  /** Six more payload bits behind those read so far. */
  lemma AppendSix(x: nat, y: nat)
    requires y < 0x40
    ensures Or(Shl(x, 6), y) == x * 0x40 + y
  {
    assert Pow2(6) == 0x40;
    ShlOr(x, 6, y);
  }

  /** Words shifted alike are joined before or after the shift. */
  lemma {:induction false} OrShl(x: nat, j: nat, y: nat, k: nat)
    ensures Or(Shl(x, j + k), Shl(y, k)) == Shl(Or(Shl(x, j), y), k)
  {
    if k > 0 {
      OrShl(x, j, y, k - 1);
      OrEven(Shl(x, j + k - 1), Shl(y, k));
    }
  }

  lemma ThreeParts(x: nat, y: nat, z: nat)
    requires y < 0x40 && z < 0x40
    ensures Or(Or(Shl(x, 12), Shl(y, 6)), z) == x * 0x1000 + y * 0x40 + z
  {
    OrShl(x, 6, y, 6);
    AppendSix(x, y);
    AppendSix(x * 0x40 + y, z);
  }

  lemma FourParts(w: nat, x: nat, y: nat, z: nat)
    requires x < 0x40 && y < 0x40 && z < 0x40
    ensures Or(Or(Or(Shl(w, 18), Shl(x, 12)), Shl(y, 6)), z) == w * 0x4_0000 + x * 0x1000 + y * 0x40 + z
  {
    OrShl(w, 6, x, 12);
    AppendSix(w, x);
    ThreeParts(w * 0x40 + x, y, z);
  }

  /** A mask of high bits selects them and clears the others. */
  lemma {:induction false} AndHigh(x: nat, m: nat, k: nat)
    ensures And(x, Shl(m, k)) == Shl(And(Shr(x, k), m), k)
  {
    if k > 0 {
      ShrFront(x, k);
      if x > 0 && Shl(m, k) > 0 {
        AndHigh(x / 2, m, k - 1);
        assert Shl(m, k) / 2 == Shl(m, k - 1);
        assert And(x, Shl(m, k)) == 2 * And(x / 2, Shl(m, k - 1));
      } else {
        ShlIsMul(m, k);
        ShlIsMul(And(Shr(x, k), m), k);
        ShrIsDiv(x, k);
      }
    }
  }

  lemma {:induction false} ShrFront(x: nat, k: nat)
    requires k > 0
    ensures Shr(x, k) == Shr(x / 2, k - 1)
  {
    if k > 1 {
      ShrFront(x, k - 1);
    }
  }

  /** The two top bits of a byte, and its bit 6. */
  lemma TopTwo(b: uint8)
    ensures And(b, 0xC0) == b / 0x40 * 0x40
    ensures And(b, 0x40) != 0 <==> b / 0x40 % 2 == 1
  {
    assert Pow2(6) == 0x40 && Pow2(2) == 4;
    ShlIsMul(3, 6);
    AndHigh(b, 3, 6);
    ShrIsDiv(b, 6);
    AndMaskIsMod(b / 0x40, 2);
    ShlIsMul(b / 0x40, 6);
    TestMask(b, 6);
  }

  /** The three top bits of a byte. */
  lemma TopThree(b: uint8)
    ensures And(b, 0xE0) == b / 0x20 * 0x20
  {
    var h: nat := b / 0x20;
    assert Pow2(5) == 0x20 && Pow2(3) == 8;
    assert Shr(b, 5) == h by {
      ShrIsDiv(b, 5);
    }
    assert And(h, 7) == h by {
      AndMaskIsMod(h, 3);
    }
    assert Shl(h, 5) == h * 0x20 by {
      ShlIsMul(h, 5);
    }
    assert Shl(7, 5) == 0xE0 by {
      ShlIsMul(7, 5);
    }
    AndHigh(b, 7, 5);
  }

  /** Two bytes joined by a shift of 8. */
  lemma AppendByte(x: nat, y: uint8)
    ensures Or(Shl(x, 8), y) == x * 0x100 + y
  {
    assert Pow2(8) == 0x100;
    ShlOr(x, 8, y);
  }

  /** Bytes joined by shifts are a little-endian number. */
  lemma ThreeBytes(c: nat, b: uint8, a: uint8)
    ensures Or(Or(Shl(c, 16), Shl(b, 8)), a) == c * 0x1_0000 + b * 0x100 + a
  {
    OrShl(c, 8, b, 8);
    AppendByte(c, b);
    AppendByte(c * 0x100 + b, a);
  }

  lemma FourBytes(d: nat, c: uint8, b: uint8, a: uint8)
    ensures Or(Or(Or(Shl(d, 24), Shl(c, 16)), Shl(b, 8)), a) == d * 0x100_0000 + c * 0x1_0000 + b * 0x100 + a
  {
    OrShl(d, 8, c, 16);
    AppendByte(d, c);
    ThreeBytes(d * 0x100 + c, b, a);
  }

  /** The eight masks of a byte, and the one past them. */
  lemma MaskPast(m: nat, e: nat)
    requires e <= 8 && m == Pow2(e)
    ensures m > 0x80 <==> e == 8
  {
    assert Pow2(8) == 0x100 && Pow2(7) == 0x80;
    if e < 7 {
      PowMonotone(e, 7);
    }
  }

  lemma MaskShifts(m: nat, e: nat)
    requires m == Pow2(e)
    ensures Shl(m, 1) == Pow2(e + 1)
  {
    assert Shl(m, 1) == 2 * Shl(m, 0);
  }

  lemma {:induction false} PowMonotone(a: nat, b: nat)
    requires a <= b
    ensures Pow2(a) <= Pow2(b)
  {
    if a < b {
      PowMonotone(a, b - 1);
    }
  }
}
