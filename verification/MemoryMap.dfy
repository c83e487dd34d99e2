/** The firmware memory map, and the allocator state that ppa_init computes from it. */
module MemoryMap {
  import opened Bits
  import opened FrameState

  /** EfiConventionalMemory in the enumeration of memory types. */
  const EFI_CONVENTIONAL_MEMORY: uint32 := 7

  /** 32 * (2^31 - 1) */
  const PAGES_LIMIT := 0xF_FFFF_FFE0

  datatype Descriptor = Descriptor(kind: uint32, physicalStart: uint64, numberOfPages: uint64)
  {
    predicate Conventional() {
      kind == EFI_CONVENTIONAL_MEMORY
    }

    /** The frames that the descriptor covers. */
    predicate Covers(frame: nat) {
      physicalStart / PAGE <= frame < physicalStart / PAGE + numberOfPages
    }
  }

  function TotalPages(mmap: seq<Descriptor>): nat {
    if mmap == [] then 0 else TotalPages(mmap[..|mmap| - 1]) + mmap[|mmap| - 1].numberOfPages
  }

  /** Start and size of the first of the largest conventional descriptors, or (0, 0). */
  function LargestSegment(mmap: seq<Descriptor>): (uint64, uint64) {
    if mmap == [] then (0, 0)
    else
      var best, desc := LargestSegment(mmap[..|mmap| - 1]), mmap[|mmap| - 1];
      var size := Wrap64(desc.numberOfPages * PAGE);
      if desc.Conventional() && size > best.1 then (desc.physicalStart, size) else best
  }

  /**
   * The sizes that the arithmetic of ppa_init needs: an int loop counter that reaches the number of
   * bitmap words, pages/32 + 1 < 2^31, and int products 4096 * i in ppa_ursvn.
   */
  ghost predicate WellSized(mmap: seq<Descriptor>) {
    && TotalPages(mmap) < PAGES_LIMIT
    && forall d <- mmap :: d.Conventional() ==>
         d.numberOfPages <= 524288 && d.physicalStart + d.numberOfPages * PAGE <= UINT64_LIMIT
  }

  /** The bitmap's own size in pages. */
  function BitmapPages(pages: nat): nat {
    var size := pages / 32 + 1;
    size / 1024 + (if size % 1024 != 0 then 1 else 0)
  }

  function FreeConventional(mmap: seq<Descriptor>): seq<Op> {
    if mmap == [] then []
    else
      var desc := mmap[|mmap| - 1];
      FreeConventional(mmap[..|mmap| - 1]) +
      (if desc.Conventional() then Ursvn(desc.physicalStart, desc.numberOfPages) else [])
  }

  function Unbooted(mmap: seq<Descriptor>, hint: uint64): State
    requires TotalPages(mmap) * PAGE < UINT64_LIMIT
  {
    State(TotalPages(mmap), {}, 0, 0, TotalPages(mmap) * PAGE, TotalPages(mmap) * PAGE, hint)
  }

  /** The operations that ppa_init performs on an empty bitmap. */
  function BootOps(mmap: seq<Descriptor>): seq<Op> {
    Rsvn(0, TotalPages(mmap)) + FreeConventional(mmap) + Rsvn(0, 0x100)
    + Lckn(LargestSegment(mmap).0, BitmapPages(TotalPages(mmap)))
  }

  function Booted(mmap: seq<Descriptor>, hint: uint64): State
    requires TotalPages(mmap) * PAGE < UINT64_LIMIT
  {
    Unbooted(mmap, hint).Run(BootOps(mmap))
  }

  lemma BootRuns(s: State, mmap: seq<Descriptor>)
    ensures s.Run(BootOps(mmap)) ==
            s.Run(Rsvn(0, TotalPages(mmap))).Run(FreeConventional(mmap)).Run(Rsvn(0, 0x100))
             .Run(Lckn(LargestSegment(mmap).0, BitmapPages(TotalPages(mmap))))
  {
    var a, b, c := Rsvn(0, TotalPages(mmap)), FreeConventional(mmap), Rsvn(0, 0x100);
    var d := Lckn(LargestSegment(mmap).0, BitmapPages(TotalPages(mmap)));
    RunConcat(s, a, b);
    RunConcat(s, a + b, c);
    RunConcat(s, a + b + c, d);
  }

  /** The pages of a map are those of its descriptors together. */
  lemma {:induction false} TotalsAdd(a: seq<Descriptor>, b: seq<Descriptor>)
    ensures TotalPages(a + b) == TotalPages(a) + TotalPages(b)
    ensures |b| == 1 ==> TotalPages(b) == b[0].numberOfPages
    decreases |b|
  {
    if b == [] {
      assert a + b == a;
    } else {
      TotalsAdd(a, b[..|b| - 1]);
      assert (a + b)[..|a + b| - 1] == a + b[..|b| - 1];
    }
  }

  lemma {:induction false} TotalsGrow(mmap: seq<Descriptor>, i: nat)
    requires i <= |mmap|
    ensures TotalPages(mmap[..i]) <= TotalPages(mmap)
    decreases |mmap|
  {
    if i < |mmap| {
      var front := mmap[..|mmap| - 1];
      assert front[..i] == mmap[..i];
      TotalsGrow(front, i);
    } else {
      assert mmap[..i] == mmap;
    }
  }

  lemma PrefixTotals(mmap: seq<Descriptor>, i: nat)
    requires i < |mmap| && WellSized(mmap)
    ensures TotalPages(mmap[..i + 1]) == TotalPages(mmap[..i]) + mmap[i].numberOfPages
    ensures TotalPages(mmap[..i + 1]) <= TotalPages(mmap)
    ensures mmap[..i + 1][..i] == mmap[..i] && mmap[..i + 1][i] == mmap[i]
  {
    assert mmap[..i + 1][..i] == mmap[..i];
    TotalsGrow(mmap, i + 1);
  }

  lemma FreeConventionalSnoc(s: State, mmap: seq<Descriptor>, i: nat)
    requires i < |mmap|
    ensures s.Run(FreeConventional(mmap[..i + 1])) ==
            var before := s.Run(FreeConventional(mmap[..i]));
            if mmap[i].Conventional() then before.Run(Ursvn(mmap[i].physicalStart, mmap[i].numberOfPages)) else before
  {
    assert mmap[..i + 1][..i] == mmap[..i];
    if mmap[i].Conventional() {
      RunConcat(s, FreeConventional(mmap[..i]), Ursvn(mmap[i].physicalStart, mmap[i].numberOfPages));
    } else {
      assert FreeConventional(mmap[..i]) + [] == FreeConventional(mmap[..i]);
    }
  }

  /** The segment chosen by ppa_init is the first conventional descriptor of maximal size. */
  lemma {:induction false} LargestIsConventional(mmap: seq<Descriptor>) returns (k: nat)
    requires LargestSegment(mmap).1 != 0
    ensures k < |mmap| && mmap[k].Conventional()
    ensures LargestSegment(mmap) == (mmap[k].physicalStart, Wrap64(mmap[k].numberOfPages * PAGE))
    ensures forall d <- mmap :: d.Conventional() ==> Wrap64(d.numberOfPages * PAGE) <= LargestSegment(mmap).1
    ensures forall j :: 0 <= j < k && mmap[j].Conventional() ==> Wrap64(mmap[j].numberOfPages * PAGE) < LargestSegment(mmap).1
    decreases |mmap|
  {
    var front, desc := mmap[..|mmap| - 1], mmap[|mmap| - 1];
    assert mmap == front + [desc];
    var size := Wrap64(desc.numberOfPages * PAGE);
    if LargestSegment(front).1 != 0 {
      k := LargestIsConventional(front);
    } else {
      NoSegment(front);
    }
    if desc.Conventional() && size > LargestSegment(front).1 {
      k := |mmap| - 1;
      forall j | 0 <= j < k && mmap[j].Conventional()
        ensures Wrap64(mmap[j].numberOfPages * PAGE) < size
      {
        assert front[j] == mmap[j] && front[j] in front;
      }
    }
  }

  lemma {:induction false} NoSegment(mmap: seq<Descriptor>)
    requires LargestSegment(mmap).1 == 0
    ensures LargestSegment(mmap).0 == 0
    ensures forall d <- mmap :: d.Conventional() ==> Wrap64(d.numberOfPages * PAGE) == 0
    decreases |mmap|
  {
    if mmap != [] {
      var front := mmap[..|mmap| - 1];
      assert mmap == front + [mmap[|mmap| - 1]];
      NoSegment(front);
    }
  }

  lemma LargestNeedsPages(mmap: seq<Descriptor>)
    requires WellSized(mmap) && LargestSegment(mmap).0 != 0
    ensures 0 < TotalPages(mmap)
  {
    if LargestSegment(mmap).1 == 0 {
      NoSegment(mmap);
    } else {
      var k := LargestIsConventional(mmap);
      PrefixTotals(mmap, k);
    }
  }

  // ---------- The bitmap after ppa_init ----------

  /** Frame is one of the n frames from address addr on. */
  predicate Within(frame: nat, addr: uint64, n: nat) {
    addr / PAGE <= frame < addr / PAGE + n
  }

  predicate InConventional(mmap: seq<Descriptor>, frame: nat) {
    exists d <- mmap :: d.Conventional() && d.Covers(frame)
  }

  /** A range that stays below 2^64 steps through consecutive frames. */
  lemma RangeStep(addr: uint64, i: nat)
    requires addr + PAGE * i < UINT64_LIMIT
    ensures PageAt(addr, i) / PAGE == addr / PAGE + i
  {
  }

  /** The frames of s2 are those of s1 with a range added (or removed), and the range is kept. */
  ghost predicate RangeTaken(s1: State, s2: State, addr: uint64, n: nat, taken: bool) {
    && s2.pages == s1.pages
    && forall f: nat :: f in s2.taken <==>
         if Within(f, addr, n) then taken && f < s1.pages else f in s1.taken
  }

  lemma {:induction false} LckRangeTakes(s: State, addr: uint64, n: nat)
    requires s.Valid() && addr + PAGE * n <= UINT64_LIMIT
    ensures RangeTaken(s, s.Run(LckRange(addr, n)), addr, n, true)
  {
    if n > 0 {
      LckRangeTakes(s, addr, n - 1);
      ExtendLck(s, addr, n - 1);
      RangeStep(addr, n - 1);
    }
  }

  lemma {:induction false} RsvRangeTakes(s: State, addr: uint64, n: nat)
    requires s.Valid() && addr + PAGE * n <= UINT64_LIMIT
    ensures RangeTaken(s, s.Run(RsvRange(addr, n)), addr, n, true)
  {
    if n > 0 {
      RsvRangeTakes(s, addr, n - 1);
      ExtendRsv(s, addr, n - 1);
      RangeStep(addr, n - 1);
    }
  }

  lemma {:induction false} UrsvRangeFrees(s: State, addr: uint64, n: nat)
    requires s.Valid() && addr + PAGE * n <= UINT64_LIMIT
    ensures RangeTaken(s, s.Run(UrsvRange(addr, n)), addr, n, false)
  {
    if n > 0 {
      UrsvRangeFrees(s, addr, n - 1);
      ExtendUrsv(s, addr, n - 1);
      RangeStep(addr, n - 1);
    }
  }

  lemma UrsvnFrees(s: State, addr: uint64, n: nat)
    requires s.Valid() && addr + PAGE * n <= UINT64_LIMIT
    ensures RangeTaken(s, s.Run(Ursvn(addr, n)), addr, n, false)
  {
    UrsvRangeFrees(s, addr, n);
    RunSnoc(s, UrsvRange(addr, n), Hint(addr / PAGE));
  }

  lemma {:induction false} UlckRangeFrees(s: State, addr: uint64, n: nat)
    requires s.Valid() && addr + PAGE * n <= UINT64_LIMIT
    ensures RangeTaken(s, s.Run(UlckRange(addr, n)), addr, n, false)
  {
    if n > 0 {
      UlckRangeFrees(s, addr, n - 1);
      ExtendUlck(s, addr, n - 1);
      RangeStep(addr, n - 1);
    }
  }

  lemma HintAtEnd(s: State, mid: State, after: State, addr: uint64, n: nat)
    requires RangeTaken(s, mid, addr, n, false) && after == mid.(lastHit := addr / PAGE)
    ensures after.pages == s.pages && after.lastHit == addr / PAGE && after.Start() == addr / 0x2_0000 * 32
    ensures forall f: nat :: f in after.taken <==> f in s.taken && !(addr / PAGE <= f < addr / PAGE + n)
  {
    assert addr / PAGE / 32 == addr / 0x2_0000;
  }

  /**
   * A range release clears exactly the frames of its range, and the next search starts at the word of
   * its first frame, whether any of them was taken or not.
   */
  lemma RangeReleases(s: State, addr: uint64, n: nat, locked: bool)
    requires s.Valid() && addr + PAGE * n <= UINT64_LIMIT
    ensures var after := s.Run(if locked then Ulckn(addr, n) else Ursvn(addr, n));
            && after.pages == s.pages && after.lastHit == addr / PAGE && after.Start() == addr / 0x2_0000 * 32
            && forall f: nat :: f in after.taken <==> f in s.taken && !(addr / PAGE <= f < addr / PAGE + n)
  {
    var range := if locked then UlckRange(addr, n) else UrsvRange(addr, n);
    var after := s.Run(if locked then Ulckn(addr, n) else Ursvn(addr, n));
    if locked {
      UlckRangeFrees(s, addr, n);
    } else {
      UrsvRangeFrees(s, addr, n);
    }
    RunSnoc(s, range, Hint(addr / PAGE));
    HintAtEnd(s, s.Run(range), after, addr, n);
  }

  lemma {:induction false} ConventionalFreed(s: State, mmap: seq<Descriptor>)
    requires s.Valid()
    requires forall d <- mmap :: d.Conventional() ==> d.physicalStart + d.numberOfPages * PAGE <= UINT64_LIMIT
    ensures var t := s.Run(FreeConventional(mmap));
            t.Valid() && t.pages == s.pages
            && forall f: nat :: f in t.taken <==> f in s.taken && !InConventional(mmap, f)
    decreases |mmap|
  {
    RunKeepsValid(s, FreeConventional(mmap));
    if mmap != [] {
      var front, d := mmap[..|mmap| - 1], mmap[|mmap| - 1];
      assert mmap == front + [d];
      ConventionalFreed(s, front);
      var before := s.Run(FreeConventional(front));
      FreeConventionalSnoc(s, mmap, |mmap| - 1);
      assert mmap[..|mmap|] == mmap;
      if d.Conventional() {
        UrsvnFrees(before, d.physicalStart, d.numberOfPages);
      }
      forall f: nat
        ensures InConventional(mmap, f) <==> InConventional(front, f) || (d.Conventional() && d.Covers(f))
      {
      }
    }
  }

  /** The bitmap's storage: the frames from the start of the largest segment on. */
  predicate InStorage(mmap: seq<Descriptor>, frame: nat) {
    Within(frame, LargestSegment(mmap).0, BitmapPages(TotalPages(mmap)))
  }

  /** The rounding covers every byte of the 32-bit words, by less than one page. */
  lemma StorageHoldsBitmap(pages: nat)
    ensures 4 * (pages / 32 + 1) <= PAGE * BitmapPages(pages) < 4 * (pages / 32 + 1) + PAGE
  {
  }

  /** The state before ppa_init locks the bitmap's storage: clear are the conventional frames from 256 on. */
  lemma BootedReserved(mmap: seq<Descriptor>, hint: uint64) returns (s: State)
    requires WellSized(mmap) && LargestSegment(mmap).0 != 0
    ensures s == Unbooted(mmap, hint).Run(Rsvn(0, TotalPages(mmap))).Run(FreeConventional(mmap)).Run(Rsvn(0, 0x100))
    ensures s.Valid() && s.pages == TotalPages(mmap)
    ensures Booted(mmap, hint) == s.Run(Lckn(LargestSegment(mmap).0, BitmapPages(TotalPages(mmap))))
    ensures forall f: nat :: f < s.pages ==> (f !in s.taken <==> f >= 0x100 && InConventional(mmap, f))
  {
    LargestNeedsPages(mmap);
    var s0, n := Unbooted(mmap, hint), TotalPages(mmap);
    BootRuns(s0, mmap);
    var s1 := s0.Run(Rsvn(0, n));
    RsvRangeTakes(s0, 0, n);
    RunKeepsValid(s0, Rsvn(0, n));
    var s2 := s1.Run(FreeConventional(mmap));
    ConventionalFreed(s1, mmap);
    s := s2.Run(Rsvn(0, 0x100));
    RsvRangeTakes(s2, 0, 0x100);
    RunKeepsValid(s2, Rsvn(0, 0x100));
  }

  /**
   * After ppa_init, whatever the order and overlap of the descriptors, an in-range frame is clear
   * exactly when it is above the first 256, conventional, and not the bitmap's own storage.
   */
  lemma BootedBitmap(mmap: seq<Descriptor>, hint: uint64)
    requires WellSized(mmap) && LargestSegment(mmap).0 != 0
    requires LargestSegment(mmap).0 + BitmapPages(TotalPages(mmap)) * PAGE <= UINT64_LIMIT
    ensures Booted(mmap, hint).Valid() && Booted(mmap, hint).pages == TotalPages(mmap)
    ensures forall f: nat :: f < TotalPages(mmap) ==>
              (f !in Booted(mmap, hint).taken <==> f >= 0x100 && InConventional(mmap, f) && !InStorage(mmap, f))
  {
    var s := BootedReserved(mmap, hint);
    RunKeepsValid(s, Lckn(LargestSegment(mmap).0, BitmapPages(TotalPages(mmap))));
    LckRangeTakes(s, LargestSegment(mmap).0, BitmapPages(TotalPages(mmap)));
  }

  // ---------- The counters after ppa_init ----------

  /** How many of the n frames from addr on are outside the range. */
  function Outside(addr: uint64, n: nat, pages: nat): nat {
    var end := addr / PAGE + n;
    if end <= pages then 0 else if addr / PAGE >= pages then n else end - pages
  }

  lemma OutsideStep(addr: uint64, i: nat, pages: nat)
    ensures Outside(addr, i + 1, pages) == Outside(addr, i, pages) + (if addr / PAGE + i < pages then 0 else 1)
  {
  }

  lemma {:induction false} RsvRangeStrays(s: State, addr: uint64, n: nat)
    requires s.Valid() && addr + PAGE * n <= UINT64_LIMIT
    ensures Strays(s, RsvRange(addr, n)) == Outside(addr, n, s.pages)
  {
    if n > 0 {
      RsvRangeStrays(s, addr, n - 1);
      RunKeepsValid(s, RsvRange(addr, n - 1));
      assert RsvRange(addr, n)[..n - 1] == RsvRange(addr, n - 1);
      RangeStep(addr, n - 1);
      OutsideStep(addr, n - 1, s.pages);
    }
  }

  lemma {:induction false} LckRangeStrays(s: State, addr: uint64, n: nat)
    requires s.Valid() && addr + PAGE * n <= UINT64_LIMIT
    ensures Strays(s, LckRange(addr, n)) == Outside(addr, n, s.pages)
  {
    if n > 0 {
      LckRangeStrays(s, addr, n - 1);
      RunKeepsValid(s, LckRange(addr, n - 1));
      assert LckRange(addr, n)[..n - 1] == LckRange(addr, n - 1);
      RangeStep(addr, n - 1);
      OutsideStep(addr, n - 1, s.pages);
    }
  }

  lemma {:induction false} ReleasesNeverStray(s: State, ops: seq<Op>)
    requires forall op <- ops :: op.Ursv? || op.Hint?
    ensures Strays(s, ops) == 0
    decreases |ops|
  {
    if ops != [] {
      var front := ops[..|ops| - 1];
      ReleasesNeverStray(s, front);
      assert ops[|front|] in ops;
    }
  }

  lemma {:induction false} FreeConventionalReleases(mmap: seq<Descriptor>)
    ensures forall op <- FreeConventional(mmap) :: op.Ursv? || op.Hint?
    decreases |mmap|
  {
    if mmap != [] {
      FreeConventionalReleases(mmap[..|mmap| - 1]);
    }
  }

  lemma BootStrays(s: State, mmap: seq<Descriptor>)
    requires s.Valid() && s.pages == TotalPages(mmap) && TotalPages(mmap) * PAGE < UINT64_LIMIT
    requires LargestSegment(mmap).0 + BitmapPages(TotalPages(mmap)) * PAGE <= UINT64_LIMIT
    ensures Strays(s, BootOps(mmap)) ==
            Outside(0, 0x100, s.pages) + Outside(LargestSegment(mmap).0, BitmapPages(s.pages), s.pages)
  {
    var n := s.pages;
    var segment, k := LargestSegment(mmap).0, BitmapPages(n);
    var a, b, c, d := Rsvn(0, n), FreeConventional(mmap), Rsvn(0, 0x100), Lckn(segment, k);
    StraysConcat(s, a + b + c, d);
    StraysConcat(s, a + b, c);
    StraysConcat(s, a, b);
    RunKeepsValid(s, a);
    RunKeepsValid(s, a + b);
    RunKeepsValid(s, a + b + c);
    RsvRangeStrays(s, 0, n);
    FreeConventionalReleases(mmap);
    ReleasesNeverStray(s.Run(a), b);
    RsvRangeStrays(s.Run(a + b), 0, 0x100);
    LckRangeStrays(s.Run(a + b + c), segment, k);
  }

  lemma BootedGapValue(mmap: seq<Descriptor>, hint: uint64)
    requires WellSized(mmap) && LargestSegment(mmap).0 != 0
    requires LargestSegment(mmap).0 + BitmapPages(TotalPages(mmap)) * PAGE <= UINT64_LIMIT
    ensures Gap(Booted(mmap, hint)) ==
            PAGE * (Outside(0, 0x100, TotalPages(mmap))
                    + Outside(LargestSegment(mmap).0, BitmapPages(TotalPages(mmap)), TotalPages(mmap)))
  {
    LargestNeedsPages(mmap);
    var s := Unbooted(mmap, hint);
    BootStrays(s, mmap);
    GapOfStrays(s, BootOps(mmap), Strays(s, BootOps(mmap)));
  }

  lemma GapOfStrays(s: State, ops: seq<Op>, strays: nat)
    requires s.Valid() && s.taken == {} && s.used == s.rsvd == 0
    requires strays == Strays(s, ops) && PAGE * strays < UINT64_LIMIT
    ensures Gap(s.Run(ops)) == PAGE * strays
  {
    assert Gap(s) == 0;
    RunGap(s, ops, PAGE * strays);
  }

  /**
   * ppa_init leaves used + rsvd equal to the bytes of the set bits exactly when the machine has at
   * least 256 pages and the bitmap's storage lies in range; else it counts frames without a bit.
   */
  lemma BootedGap(mmap: seq<Descriptor>, hint: uint64)
    requires WellSized(mmap) && LargestSegment(mmap).0 != 0
    requires LargestSegment(mmap).0 + BitmapPages(TotalPages(mmap)) * PAGE <= UINT64_LIMIT
    ensures Gap(Booted(mmap, hint)) == 0 <==>
            0x100 <= TotalPages(mmap) && forall f: nat :: InStorage(mmap, f) ==> f < TotalPages(mmap)
  {
    BootedGapValue(mmap, hint);
    var n, segment := TotalPages(mmap), LargestSegment(mmap).0;
    StorageInRange(segment, BitmapPages(n), n);
    assert forall f: nat :: InStorage(mmap, f) == Within(f, segment, BitmapPages(n));
  }

  lemma StorageInRange(addr: uint64, k: nat, n: nat)
    requires k > 0
    ensures Outside(addr, k, n) == 0 <==> forall f: nat :: Within(f, addr, k) ==> f < n
  {
    assert Within(addr / PAGE + k - 1, addr, k);
  }

  /** Every operation of the first boot phases is in range and matched: reserve all, then unreserve. */
  lemma {:induction false} RsvRangeAudit(s: State, o: Owners, addr: uint64, n: nat) returns (p: Owners)
    requires s.Valid() && Audited(s, o) && addr + PAGE * n <= UINT64_LIMIT
    requires addr / PAGE + n <= s.pages
    ensures Audited(s.Run(RsvRange(addr, n)), p) && p.locked == o.locked
  {
    p := o;
    if n > 0 {
      p := RsvRangeAudit(s, o, addr, n - 1);
      var before, op := s.Run(RsvRange(addr, n - 1)), Rsv(PageAt(addr, n - 1));
      RunKeepsValid(s, RsvRange(addr, n - 1));
      ExtendRsv(s, addr, n - 1);
      RangeStep(addr, n - 1);
      StepKeepsAudit(before, p, op);
      p := OwnersAfter(before, p, op);
      var after := before.Step(op);
      assert after == s.Run(RsvRange(addr, n));
      assert Audited(after, p);
    }
  }

  lemma LckAudit(s: State, o: Owners, addr: uint64, index: nat) returns (p: Owners)
    requires s.Valid() && Audited(s, o) && index == addr / PAGE < s.pages
    ensures Audited(s.AfterLck(addr), p)
    ensures p.locked == if index in s.taken then o.locked else o.locked + {index}
  {
    StepKeepsAudit(s, o, Lck(addr));
    p := OwnersAfter(s, o, Lck(addr));
    assert s.Step(Lck(addr)).taken - s.taken == if index in s.taken then {} else {index};
  }

  /** Locked are the frames that were before and those of the range that were clear. */
  ghost predicate LockedRange(s: State, o: Owners, p: Owners, addr: uint64, n: nat) {
    forall f: nat :: f in p.locked <==> f in o.locked || (Within(f, addr, n) && f !in s.taken)
  }

  lemma {:induction false} LckRangeAudit(s: State, o: Owners, addr: uint64, n: nat) returns (p: Owners)
    requires s.Valid() && Audited(s, o) && addr + PAGE * n <= UINT64_LIMIT
    requires addr / PAGE + n <= s.pages
    ensures Audited(s.Run(LckRange(addr, n)), p) && LockedRange(s, o, p, addr, n)
  {
    p := o;
    if n > 0 {
      var q := LckRangeAudit(s, o, addr, n - 1);
      var before, last, index := s.Run(LckRange(addr, n - 1)), PageAt(addr, n - 1), addr / PAGE + n - 1;
      RunKeepsValid(s, LckRange(addr, n - 1));
      ExtendLck(s, addr, n - 1);
      RangeStep(addr, n - 1);
      p := LckAudit(before, q, last, index);
      LckRangeTakes(s, addr, n - 1);
      LockedOneMore(s, before, o, q, p, addr, n, index);
    }
  }

  lemma LockedOneMore(s: State, before: State, o: Owners, q: Owners, p: Owners, addr: uint64, n: nat, index: nat)
    requires n > 0 && index == addr / PAGE + n - 1
    requires RangeTaken(s, before, addr, n - 1, true) && LockedRange(s, o, q, addr, n - 1)
    requires p.locked == if index in before.taken then q.locked else q.locked + {index}
    ensures LockedRange(s, o, p, addr, n)
  {
    assert index in before.taken <==> index in s.taken;
  }

  lemma {:induction false} ReleasesAudit(s: State, o: Owners, ops: seq<Op>) returns (p: Owners)
    requires s.Valid() && Audited(s, o) && o.locked == {}
    requires forall op <- ops :: op.Ursv? || op.Hint?
    ensures Audited(s.Run(ops), p) && p.locked == {}
    decreases |ops|
  {
    p := o;
    if ops != [] {
      var front := ops[..|ops| - 1];
      p := ReleasesAudit(s, o, front);
      RunKeepsValid(s, front);
      assert ops[|front|] in ops;
      StepKeepsAudit(s.Run(front), p, ops[|front|]);
      p := OwnersAfter(s.Run(front), p, ops[|front|]);
    }
  }

  /**
   * When the machine has 256 pages and the storage lies in range, ppa_init leaves every counter at
   * 4096 times the size of its own set; used counts exactly the storage frames that were clear.
   */
  lemma BootedAudit(mmap: seq<Descriptor>, hint: uint64) returns (o: Owners)
    requires WellSized(mmap) && LargestSegment(mmap).0 != 0
    requires 0x100 <= TotalPages(mmap)
    requires LargestSegment(mmap).0 / PAGE + BitmapPages(TotalPages(mmap)) <= TotalPages(mmap)
    ensures Audited(Booted(mmap, hint), o)
    ensures forall f: nat :: f in o.locked <==> InStorage(mmap, f) && f >= 0x100 && InConventional(mmap, f)
  {
    var s3 := BootedReserved(mmap, hint);
    o := ReservedAudit(mmap, hint, s3);
    o := LckRangeAudit(s3, o, LargestSegment(mmap).0, BitmapPages(TotalPages(mmap)));
  }

  lemma ReservedAudit(mmap: seq<Descriptor>, hint: uint64, s3: State) returns (o: Owners)
    requires WellSized(mmap) && 0x100 <= TotalPages(mmap)
    requires s3 == Unbooted(mmap, hint).Run(Rsvn(0, TotalPages(mmap))).Run(FreeConventional(mmap)).Run(Rsvn(0, 0x100))
    ensures Audited(s3, o) && o.locked == {}
  {
    var s, n := Unbooted(mmap, hint), TotalPages(mmap);
    o := RsvRangeAudit(s, Owners({}, {}), 0, n);
    RunKeepsValid(s, Rsvn(0, n));
    var s1 := s.Run(Rsvn(0, n));
    FreeConventionalReleases(mmap);
    o := ReleasesAudit(s1, o, FreeConventional(mmap));
    RunKeepsValid(s1, FreeConventional(mmap));
    o := RsvRangeAudit(s1.Run(FreeConventional(mmap)), o, 0, 0x100);
  }
}
