/** The codec of a page-table entry: address field in bits 12..51, flags in the others. */
module PageEntry {
  import opened Bits

  const PDE_P: uint64 := 1
  const P_RW: uint64 := 3  // PDE_P | PDE_RW

  const FRAME_LIMIT := 0x100_0000_0000

  /** The bits outside the address field. */
  const KEEP_FLAGS: uint64 := 0xfff0_0000_0000_0fff
  const ADDR_FIELD: uint64 := 0x000f_ffff_ffff_f000
  const ADDR_MASK: uint64 := 0x0000_00ff_ffff_ffff

  function FlagSet(entry: uint64, mask: uint64): (r: uint64)
    ensures forall i: nat :: Bit(r, i) <==> Bit(entry, i) || Bit(mask, i)
  {
    OrBits(entry, mask);
    Or(entry, mask)
  }

  predicate FlagGet(entry: uint64, mask: uint64) {
    And(entry, mask) == mask
  }

  function AddrSet(entry: uint64, addr: uint64): (r: uint64) {
    var field := Wrap64(Shl(And(addr, ADDR_MASK), 12));
    OrBits(And(entry, KEEP_FLAGS), field);
    Or(And(entry, KEEP_FLAGS), field)
  }

  function AddrGet(entry: uint64): (r: uint64) {
    ShrBound(And(entry, ADDR_FIELD), 12);
    Shr(And(entry, ADDR_FIELD), 12)
  }

  lemma Or64(x: uint64, y: uint64)
    ensures Or(x, y) < UINT64_LIMIT
  {
    forall i: nat | i >= 64
      ensures !Bit(Or(x, y), i)
    {
      PowerConstants();
      HighBitsZero(x, 64, i);
      HighBitsZero(y, 64, i);
      BitOr(x, y, i);
    }
    Bounded(Or(x, y), 64);
    PowerConstants();
  }

  lemma OrBits(x: uint64, y: uint64)
    ensures Or(x, y) < UINT64_LIMIT
    ensures forall i: nat :: Bit(Or(x, y), i) <==> Bit(x, i) || Bit(y, i)
  {
    Or64(x, y);
    forall i: nat
      ensures Bit(Or(x, y), i) <==> Bit(x, i) || Bit(y, i)
    {
      BitOr(x, y, i);
    }
  }

  lemma MaskShapes()
    ensures ADDR_MASK == Mask(40)
    ensures ADDR_FIELD == Shl(Mask(40), 12)
    ensures KEEP_FLAGS == Or(Shl(Mask(12), 52), Mask(12))
  {
    PowerConstants();
    ShlIsMul(Mask(40), 12);
    ShlIsMul(Mask(12), 52);
    AndMaskIsMod(Shl(Mask(12), 52), 12);
    assert 0xfff * 0x10_0000_0000_0000 % 0x1000 == 0;
    OrIsSum(Shl(Mask(12), 52), Mask(12));
  }

  /** The three masks, bit by bit. */
  lemma MaskBits(i: nat)
    ensures Bit(KEEP_FLAGS, i) <==> i < 12 || 52 <= i < 64
    ensures Bit(ADDR_FIELD, i) <==> 12 <= i < 52
    ensures Bit(ADDR_MASK, i) <==> i < 40
  {
    MaskShapes();
    BitOfMask(40, i);
    ShiftedMaskBits(40, 12, i);
    ShiftedMaskBits(12, 52, i);
    BitOfMask(12, i);
    BitOr(Shl(Mask(12), 52), Mask(12), i);
  }

  lemma ShiftedMaskBits(width: nat, k: nat, i: nat)
    ensures Bit(Shl(Mask(width), k), i) <==> k <= i < k + width
  {
    BitShl(Mask(width), k, i);
    if i >= k {
      BitOfMask(width, i - k);
    }
  }

  lemma AddrSetBits(entry: uint64, addr: uint64, i: nat)
    ensures Bit(AddrSet(entry, addr), i) <==>
            if 12 <= i < 52 then Bit(addr, i - 12) else Bit(entry, i)
  {
    var a := And(addr, ADDR_MASK);
    assert Shl(a, 12) < UINT64_LIMIT by {
      PowerConstants();
      ShlIsMul(a, 12);
    }
    OrBits(And(entry, KEEP_FLAGS), Shl(a, 12));
    AddrSetBit(entry, addr, i, a);
  }

  lemma AddrSetBit(entry: uint64, addr: uint64, i: nat, a: nat)
    requires a == And(addr, ADDR_MASK)
    ensures Bit(And(entry, KEEP_FLAGS), i) || Bit(Shl(a, 12), i) <==>
            if 12 <= i < 52 then Bit(addr, i - 12) else Bit(entry, i)
  {
    BitAnd(entry, KEEP_FLAGS, i);
    BitShl(a, 12, i);
    MaskBits(i);
    if i >= 12 {
      BitAnd(addr, ADDR_MASK, i - 12);
      MaskBits(i - 12);
    }
    if i >= 64 {
      PowerConstants();
      HighBitsZero(entry, 64, i);
    }
  }

  lemma AddrGetBits(entry: uint64, i: nat)
    ensures Bit(AddrGet(entry), i) <==> i < 40 && Bit(entry, i + 12)
  {
    BitShr(And(entry, ADDR_FIELD), 12, i);
    BitAnd(entry, ADDR_FIELD, i + 12);
    MaskBits(i + 12);
  }

  lemma AddrBelowLimit(entry: uint64)
    ensures AddrGet(entry) < FRAME_LIMIT
  {
    forall i: nat | i >= 40
      ensures !Bit(AddrGet(entry), i)
    {
      AddrGetBits(entry, i);
    }
    Bounded(AddrGet(entry), 40);
    PowerConstants();
  }

  /** Round trip: the address read back is the low 40 bits of the one stored. */
  lemma AddrGetSet(entry: uint64, addr: uint64)
    ensures AddrGet(AddrSet(entry, addr)) == addr % FRAME_LIMIT
  {
    PowerConstants();
    AndMaskIsMod(addr, 40);
    forall i: nat
      ensures Bit(AddrGet(AddrSet(entry, addr)), i) == Bit(And(addr, Mask(40)), i)
    {
      AddrGetBits(AddrSet(entry, addr), i);
      AddrSetBits(entry, addr, i + 12);
      BitAnd(addr, Mask(40), i);
      BitOfMask(40, i);
    }
    BitsDetermine(AddrGet(AddrSet(entry, addr)), And(addr, Mask(40)));
  }

  /** Round trip the other way: storing the address an entry already holds changes no bit. */
  lemma AddrSetGet(entry: uint64)
    ensures AddrSet(entry, AddrGet(entry)) == entry
  {
    forall i: nat
      ensures Bit(AddrSet(entry, AddrGet(entry)), i) == Bit(entry, i)
    {
      AddrSetBits(entry, AddrGet(entry), i);
      if 12 <= i < 52 {
        AddrGetBits(entry, i - 12);
      }
    }
    BitsDetermine(AddrSet(entry, AddrGet(entry)), entry);
  }

  lemma FlagSetKeepsAddr(entry: uint64, mask: uint64)
    requires mask < 0x1000
    ensures AddrGet(FlagSet(entry, mask)) == AddrGet(entry)
  {
    forall i: nat
      ensures Bit(AddrGet(FlagSet(entry, mask)), i) == Bit(AddrGet(entry), i)
    {
      AddrGetBits(FlagSet(entry, mask), i);
      AddrGetBits(entry, i);
      PowerConstants();
      HighBitsZero(mask, 12, i + 12);
    }
    BitsDetermine(AddrGet(FlagSet(entry, mask)), AddrGet(entry));
  }

  /** A flag reads as set exactly when every bit of its mask is set. */
  lemma FlagGetBits(entry: uint64, mask: uint64)
    ensures FlagGet(entry, mask) <==> forall i: nat :: Bit(mask, i) ==> Bit(entry, i)
  {
    if forall i: nat :: Bit(mask, i) ==> Bit(entry, i) {
      forall i: nat
        ensures Bit(And(entry, mask), i) == Bit(mask, i)
      {
        BitAnd(entry, mask, i);
      }
      BitsDetermine(And(entry, mask), mask);
    } else {
      var i: nat :| Bit(mask, i) && !Bit(entry, i);
      BitAnd(entry, mask, i);
    }
  }

  /** The entry that pmm_map_memory writes at each level. */
  function Link(entry: uint64, addr: uint64): uint64 {
    FlagSet(AddrSet(entry, addr), P_RW)
  }

  lemma LinkReads(entry: uint64, addr: uint64)
    ensures AddrGet(Link(entry, addr)) == addr % FRAME_LIMIT
    ensures FlagGet(Link(entry, addr), PDE_P) && FlagGet(Link(entry, addr), P_RW)
    ensures forall i: nat :: 2 <= i < 12 || i >= 52 ==> (Bit(Link(entry, addr), i) <==> Bit(entry, i))
  {
    AddrGetSet(entry, addr);
    FlagSetKeepsAddr(AddrSet(entry, addr), P_RW);
    assert forall i: nat :: Bit(PDE_P, i) ==> Bit(P_RW, i) by {
      forall i: nat | Bit(PDE_P, i)
        ensures Bit(P_RW, i)
      {
        PresentBits(i);
      }
    }
    FlagGetBits(Link(entry, addr), PDE_P);
    FlagGetBits(Link(entry, addr), P_RW);
    forall i: nat | 2 <= i < 12 || i >= 52
      ensures Bit(Link(entry, addr), i) <==> Bit(entry, i)
    {
      AddrSetBits(entry, addr, i);
      PresentBits(i);
    }
  }

  /** A linked frame is read back exactly. */
  lemma LinkToFrame(entry: uint64, f: uint64)
    requires f < FRAME_LIMIT
    ensures AddrGet(Link(entry, f)) == f
    ensures FlagGet(Link(entry, f), PDE_P) && FlagGet(Link(entry, f), P_RW)
  {
    LinkReads(entry, f);
  }

  lemma PresentBits(i: nat)
    ensures Bit(PDE_P, i) <==> i == 0
    ensures Bit(P_RW, i) <==> i < 2
  {
    BitOfMask(1, i);
    BitOfMask(2, i);
    assert Pow2(1) == 2 && Pow2(2) == 4;
  }

  /** An entry is present when its bit 0 is set, and both present and writable when its bits 0 and 1 are. */
  lemma FlagBits(entry: uint64)
    ensures FlagGet(entry, PDE_P) <==> Bit(entry, 0)
    ensures FlagGet(entry, P_RW) <==> Bit(entry, 0) && Bit(entry, 1)
  {
    forall i: nat
      ensures (Bit(PDE_P, i) <==> i == 0) && (Bit(P_RW, i) <==> i < 2)
    {
      PresentBits(i);
    }
    FlagGetBits(entry, PDE_P);
    FlagGetBits(entry, P_RW);
  }

  /** A zeroed table has no present entry. */
  lemma ZeroNotPresent()
    ensures !FlagGet(0, PDE_P)
  {
  }
}
