/** The mapper refines a finite map from pages to pages, over every run of the machine. */
module AddressSpace {
  import opened Bits
  import opened PageEntry
  import opened FrameState
  import opened PageTables
  import opened Wrappers

  // ---------- Pages and indices ----------

  lemma IndexIsDigit(v: uint64)
    ensures Index(v, 0) == v / 0x1000 % 512
    ensures Index(v, 1) == v / 0x20_0000 % 512
    ensures Index(v, 2) == v / 0x4000_0000 % 512
    ensures Index(v, 3) == v / 0x80_0000_0000 % 512
  {
    assert Pow2(9) == 512 && Mask(9) == 0x1ff;
    forall level: nat | level < 4
      ensures Index(v, level) == v / Pow2(12 + 9 * level) % 512
    {
      ShrIsDiv(v, 12 + 9 * level);
      AndMaskIsMod(Shr(v, 12 + 9 * level), 9);
    }
    LevelSizes();
    assert Index(v, 0) == v / Pow2(12 + 9 * 0) % 512;
    assert Index(v, 1) == v / Pow2(12 + 9 * 1) % 512;
    assert Index(v, 2) == v / Pow2(12 + 9 * 2) % 512;
    assert Index(v, 3) == v / Pow2(12 + 9 * 3) % 512;
  }

  lemma LevelSizes()
    ensures Pow2(12) == 0x1000 && Pow2(21) == 0x20_0000
    ensures Pow2(30) == 0x4000_0000 && Pow2(39) == 0x80_0000_0000
  {
    assert Pow2(12) == 0x1000;
    assert Pow2(21) == 0x20_0000;
    assert Pow2(30) == 0x4000_0000;
    assert Pow2(39) == 0x80_0000_0000;
  }

  /** The prefix of a 48-bit address that selects its table at a depth: v >> 39, v >> 30 or v >> 21. */
  function Prefix(v: uint64, depth: nat): nat
    requires 1 <= depth <= 3
  {
    if depth == 1 then v / 0x80_0000_0000 % 0x200
    else if depth == 2 then v / 0x4000_0000 % 0x4_0000
    else v / 0x20_0000 % 0x800_0000
  }

  /** The prefix for a depth is that for the depth above and one more index. */
  lemma PrefixStep(v: uint64, depth: nat)
    requires 1 <= depth <= 3
    ensures Prefix(v, depth) == (if depth == 1 then 0 else 512 * Prefix(v, depth - 1)) + Index(v, 4 - depth)
  {
    IndexIsDigit(v);
    Digits(v);
  }

  /** Two addresses use the same table at a depth exactly when those prefixes agree. */
  lemma {:induction false} SameTable(v: uint64, w: uint64, depth: nat)
    requires 1 <= depth <= 3
    ensures PathTo(v, depth) == PathTo(w, depth) <==> Prefix(v, depth) == Prefix(w, depth)
  {
    PrefixStep(v, depth);
    PrefixStep(w, depth);
    if depth > 1 {
      SameTable(v, w, depth - 1);
    }
    assert PathTo(v, depth) == Child(PathTo(v, depth - 1), Index(v, 4 - depth));
    assert PathTo(w, depth) == Child(PathTo(w, depth - 1), Index(w, 4 - depth));
  }

  lemma Digits(v: uint64)
    ensures Prefix(v, 2) == 512 * Prefix(v, 1) + v / 0x4000_0000 % 512
    ensures Prefix(v, 3) == 512 * Prefix(v, 2) + v / 0x20_0000 % 512
    ensures v / PAGE % 0x10_0000_0000 == 512 * Prefix(v, 3) + v / 0x1000 % 512
  {
    assert v / 0x4000_0000 / 512 == v / 0x80_0000_0000;
    assert v / 0x20_0000 / 512 == v / 0x4000_0000;
    assert v / 0x1000 / 512 == v / 0x20_0000;
    LastDigit(v / 0x4000_0000, 0x200);
    LastDigit(v / 0x20_0000, 0x4_0000);
    LastDigit(v / 0x1000, 0x800_0000);
  }

  lemma LastDigit(y: nat, k: nat)
    requires k > 0
    ensures y % (512 * k) == 512 * (y / 512 % k) + y % 512
  {
    var q := y / 512;
    assert q == k * (q / k) + q % k;
    assert y == 512 * q + y % 512;
    assert 512 * (k * (q / k)) == (512 * k) * (q / k);
    DivUnique(y, 512 * k, q / k, 512 * (q % k) + y % 512);
  }

  /** Two addresses share a page exactly when their page tables and their indices agree. */
  lemma SamePageIff(v: uint64, w: uint64)
    ensures SamePage(v, w) <==> PathTo(v, 3) == PathTo(w, 3) && Index(v, 0) == Index(w, 0)
  {
    IndexIsDigit(v);
    IndexIsDigit(w);
    SameTable(v, w, 3);
    Digits(v);
    Digits(w);
  }

  // ---------- One call ----------

  ghost predicate Separated(m: Machine) {
    exists t :: Tree(m, t)
  }

  /** How many tables a mapping of v has to grow: the levels below the first absent entry. */
  function Shortfall(mem: Memory, frame: nat, level: nat, v: uint64): nat
    decreases level, frame
  {
    var e := Entry(mem, frame, Index(v, level));
    if level == 0 then 0
    else if !Present(e) then level
    else Shortfall(mem, AddrGet(e), level - 1, v)
  }

  lemma {:induction false} NothingBelow(m: Machine, t: map<Path, nat>, v: uint64, depth: nat)
    requires Tables(m, t) && depth <= 3 && PathTo(v, depth) !in t
    ensures Missing(t.Keys, v, depth) == 3 - depth
    decreases 3 - depth
  {
    if depth < 3 {
      if PathTo(v, depth + 1) in t {
        PrefixesInTree(m, t, v, depth, depth + 1);
      }
      NothingBelow(m, t, v, depth + 1);
    }
  }

  lemma {:induction false} ShortfallIsMissing(m: Machine, t: map<Path, nat>, v: uint64, depth: nat)
    requires Tree(m, t) && depth <= 3 && PathTo(v, depth) in t
    ensures Shortfall(m.mem, t[PathTo(v, depth)], 3 - depth, v) == Missing(t.Keys, v, depth)
    decreases 3 - depth
  {
    if depth < 3 {
      var p, i := PathTo(v, depth), Index(v, 3 - depth);
      assert PathTo(v, depth + 1) == Child(p, i);
      assert EntryLinks(m, t, p, i);
      if Child(p, i) in t {
        ShortfallIsMissing(m, t, v, depth + 1);
      } else {
        NothingBelow(m, t, v, depth + 1);
      }
    }
  }

  /** A mapping of v finds the frames it needs in the allocator's window. */
  predicate CanMap(m: Machine, v: uint64) {
    Shortfall(m.mem, m.root, 3, v) <= |m.frames.Window()|
  }

  /** The page that p is in, as the 40-bit address field keeps it. */
  function PageBase(p: uint64): uint64 {
    p / PAGE % FRAME_LIMIT * PAGE
  }

  /** Below 2^52, the width of a physical address, that is p without its offset. */
  lemma PageBaseIsPage(p: uint64)
    requires p < 0x10_0000_0000_0000
    ensures PageBase(p) == p - p % PAGE
  {
  }

  /** What a mapping changes, for a known tree. */
  lemma MapInstalls(m: Machine, t: map<Path, nat>, v: uint64, p: uint64) returns (t': map<Path, nat>)
    requires Tree(m, t) && CanMap(m, v)
    ensures Installed(m, t, Map(m, v, p), t', v, p, 0)
  {
    ShortfallIsMissing(m, t, v, 0);
    t' := InstallMaps(m, t, v, p, 0);
  }

  lemma TranslateIsLeaf(m: Machine, t: map<Path, nat>, v: uint64)
    requires Tree(m, t)
    ensures Translate(m, v) == match Leaf(m, t, v) case None => None case Some(e) => Some(PageOf(e))
  {
    WalkFindsLeaf(m, t, v, 0);
  }

  /**
   * After pmm_map_memory(v, p) every address on v's page translates to p's page and every other
   * address translates, or fails to, as before, whichever tables were missing.
   */
  lemma MapRefines(m: Machine, v: uint64, p: uint64)
    requires Separated(m) && CanMap(m, v)
    ensures Separated(Map(m, v, p))
    ensures forall w :: Translate(Map(m, v, p), w) == if SamePage(v, w) then Some(PageBase(p)) else Translate(m, w)
  {
    var t :| Tree(m, t);
    var t' := MapInstalls(m, t, v, p);
    forall w: uint64
      ensures Translate(Map(m, v, p), w) == if SamePage(v, w) then Some(PageBase(p)) else Translate(m, w)
    {
      MappedPage(m, t, Map(m, v, p), t', v, p, w);
    }
  }

  lemma MappedPage(m: Machine, t: map<Path, nat>, m': Machine, t': map<Path, nat>, v: uint64, p: uint64, w: uint64)
    requires Tree(m, t) && Tree(m', t')
    requires Remapped(m, t, m', t', v, Link(RawLeaf(m, t, v), p / PAGE))
    ensures Translate(m', w) == if SamePage(v, w) then Some(PageBase(p)) else Translate(m, w)
  {
    SamePageIff(v, w);
    TranslateIsLeaf(m, t, w);
    TranslateIsLeaf(m', t', w);
    LinkReads(RawLeaf(m, t, v), p / PAGE);
  }

  /** The mapped page is writable, and the flags and high bits of an entry that was there stay. */
  lemma MappedEntry(m: Machine, v: uint64, p: uint64)
    requires Separated(m) && CanMap(m, v)
    ensures var e := Walk(Map(m, v, p).mem, m.root, 3, v);
            && e.Some? && FlagGet(e.value, P_RW)
            && (Walk(m.mem, m.root, 3, v).Some? ==>
                 forall i: nat :: 2 <= i < 12 || i >= 52 ==>
                   (Bit(e.value, i) <==> Bit(Walk(m.mem, m.root, 3, v).value, i)))
  {
    var t :| Tree(m, t);
    var t' := MapInstalls(m, t, v, p);
    WalkFindsLeaf(m, t, v, 0);
    WalkFindsLeaf(Map(m, v, p), t', v, 0);
    assert t[Root] == m.root && t'[Root] == m.root;
    LinkReads(RawLeaf(m, t, v), p / PAGE);
  }
}
