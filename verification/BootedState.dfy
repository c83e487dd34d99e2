/** What ppa_init leaves to its callers: the search window, the total, and the bitmap's own frames. */
module BootedState {
  import opened Bits
  import opened FrameState
  import opened MemoryMap

  // ---------- The hint and the window ----------

  lemma {:induction false} TakingKeepsHint(s: State, ops: seq<Op>)
    requires forall op <- ops :: op.Lck? || op.Rsv?
    ensures s.Run(ops).lastHit == s.lastHit
    decreases |ops|
  {
    if ops != [] {
      TakingKeepsHint(s, ops[..|ops| - 1]);
      assert ops[|ops| - 1] in ops;
    }
  }

  /** The start frame of the last conventional descriptor, or the hint where there is none. */
  function LastStart(mmap: seq<Descriptor>, hint: uint64): uint64 {
    if mmap == [] then hint
    else if mmap[|mmap| - 1].Conventional() then mmap[|mmap| - 1].physicalStart / PAGE
    else LastStart(mmap[..|mmap| - 1], hint)
  }

  lemma {:induction false} FreeingMovesHint(s: State, mmap: seq<Descriptor>)
    ensures s.Run(FreeConventional(mmap)).lastHit == LastStart(mmap, s.lastHit)
    decreases |mmap|
  {
    if mmap != [] {
      var front, d := mmap[..|mmap| - 1], mmap[|mmap| - 1];
      FreeingMovesHint(s, front);
      FreeConventionalSnoc(s, mmap, |mmap| - 1);
      assert mmap[..|mmap|] == mmap;
      if d.Conventional() {
        var before := s.Run(FreeConventional(front));
        RunSnoc(before, UrsvRange(d.physicalStart, d.numberOfPages), Hint(d.physicalStart / PAGE));
      }
    }
  }

  lemma {:induction false} LastConventional(mmap: seq<Descriptor>, hint: uint64) returns (k: nat)
    requires exists d <- mmap :: d.Conventional()
    ensures k < |mmap| && mmap[k].Conventional() && LastStart(mmap, hint) == mmap[k].physicalStart / PAGE
    ensures forall j :: k < j < |mmap| ==> !mmap[j].Conventional()
    decreases |mmap|
  {
    k := |mmap| - 1;
    if !mmap[k].Conventional() {
      assert mmap == mmap[..k] + [mmap[k]];
      k := LastConventional(mmap[..k], hint);
    }
  }

  /** After ppa_init the search starts at the first frame of the last conventional descriptor, wherever it stood. */
  lemma BootedHint(mmap: seq<Descriptor>, hint: uint64) returns (k: nat)
    requires WellSized(mmap) && LargestSegment(mmap).0 != 0
    ensures k < |mmap| && mmap[k].Conventional() && forall j :: k < j < |mmap| ==> !mmap[j].Conventional()
    ensures Booted(mmap, hint).lastHit == LastStart(mmap, hint) == mmap[k].physicalStart / PAGE
  {
    var s := Unbooted(mmap, hint);
    BootRuns(s, mmap);
    TakingKeepsHint(s, Rsvn(0, TotalPages(mmap)));
    var s1 := s.Run(Rsvn(0, TotalPages(mmap)));
    FreeingMovesHint(s1, mmap);
    var s2 := s1.Run(FreeConventional(mmap));
    TakingKeepsHint(s2, Rsvn(0, 0x100));
    TakingKeepsHint(s2.Run(Rsvn(0, 0x100)), Lckn(LargestSegment(mmap).0, BitmapPages(TotalPages(mmap))));
    SomeConventional(mmap);
    k := LastConventional(mmap, hint);
  }

  /** So the hint before ppa_init does not matter. */
  lemma LastStartOnly(mmap: seq<Descriptor>, hint: uint64, other: uint64)
    requires LargestSegment(mmap).0 != 0
    ensures LastStart(mmap, hint) == LastStart(mmap, other)
  {
    SomeConventional(mmap);
    var k := LastConventional(mmap, hint);
    var j := LastConventional(mmap, other);
    assert j == k;
  }

  lemma SomeConventional(mmap: seq<Descriptor>)
    requires LargestSegment(mmap).0 != 0
    ensures exists d <- mmap :: d.Conventional()
  {
    if LargestSegment(mmap).1 == 0 {
      NoSegment(mmap);
    } else {
      var k := LargestIsConventional(mmap);
      assert mmap[k] in mmap;
    }
  }

  /** The frames that the first requests can reach: usable ones from the word of the hint on. */
  function Usable(mmap: seq<Descriptor>): set<nat> {
    var first: nat := LastStart(mmap, 0) / 32 * 32;
    set f: nat | f < TotalPages(mmap) && f >= first && f >= 0x100 && InConventional(mmap, f) && !InStorage(mmap, f)
  }

  /** The window after ppa_init, read off the memory map. */
  lemma BootedWindow(mmap: seq<Descriptor>, hint: uint64)
    requires WellSized(mmap) && LargestSegment(mmap).0 != 0
    requires LargestSegment(mmap).0 + BitmapPages(TotalPages(mmap)) * PAGE <= UINT64_LIMIT
    ensures Booted(mmap, hint).Window() == Usable(mmap)
  {
    var k := BootedHint(mmap, hint);
    LastStartOnly(mmap, hint, 0);
    BootedBitmap(mmap, hint);
  }

  /** Clear frames below that word are out of reach of every request, until something is released. */
  lemma LowerFramesUnreachable(mmap: seq<Descriptor>, hint: uint64, ops: seq<Op>)
    requires WellSized(mmap) && LargestSegment(mmap).0 != 0
    requires LargestSegment(mmap).0 + BitmapPages(TotalPages(mmap)) * PAGE <= UINT64_LIMIT
    requires forall op <- ops :: Taking(op)
    ensures var t := Booted(mmap, hint).Run(ops);
            t.lastHit / 32 < t.Words() ==> t.Requested() / PAGE >= LastStart(mmap, hint) / 32 * 32
  {
    var k := BootedHint(mmap, hint);
    BootedBitmap(mmap, hint);
    SearchNeverGoesBack(Booted(mmap, hint), ops);
  }

  // ---------- The total ----------

  lemma AllFree(s: State)
    requires s.used == s.rsvd == 0
    ensures Sum(s) == s.free
  {
  }

  /** From ppa_init on, used + rsvd + free is the total, modulo 2^64, after every run whatsoever. */
  lemma BootedTotal(mmap: seq<Descriptor>, hint: uint64, ops: seq<Op>)
    requires TotalPages(mmap) * PAGE < UINT64_LIMIT
    ensures var t := Booted(mmap, hint).Run(ops);
            Sum(t) == t.total == TotalPages(mmap) * PAGE
  {
    var s := Unbooted(mmap, hint);
    RunConcat(s, BootOps(mmap), ops);
    RunConservesTotal(s, BootOps(mmap) + ops);
    RunKeepsTotal(s, BootOps(mmap) + ops);
    AllFree(s);
  }

  // ---------- The bitmap's own frames ----------

  /** All frames of the bitmap's storage, in range or not. */
  function StorageFrames(mmap: seq<Descriptor>): (r: set<nat>)
    ensures forall f: nat :: f in r <==> InStorage(mmap, f)
  {
    var first: nat, k := LargestSegment(mmap).0 / PAGE, BitmapPages(TotalPages(mmap));
    set f: nat | first <= f < first + k && InStorage(mmap, f)
  }

  /** Those in range, which alone have a bit that a release could clear. */
  function GuardedFrames(mmap: seq<Descriptor>): set<nat> {
    set f | f in StorageFrames(mmap) && f < TotalPages(mmap)
  }

  /** A run that releases no frame of the storage. */
  predicate Sparing(mmap: seq<Descriptor>, ops: seq<Op>) {
    forall op <- ops :: Spares(op, GuardedFrames(mmap))
  }

  /** The next request searches the bitmap and returns a frame of its storage. */
  predicate HandsOutStorage(mmap: seq<Descriptor>, s: State) {
    s.lastHit / 32 < s.Words() && InStorage(mmap, s.Requested() / PAGE)
  }

  /**
   * Unless the frame right behind the range is one of the bitmap's own, the allocator never hands
   * out its storage: after every run that releases none of it, the next request returns another frame.
   */
  lemma StorageNeverHandedOut(mmap: seq<Descriptor>, hint: uint64, ops: seq<Op>)
    requires WellSized(mmap) && LargestSegment(mmap).0 != 0
    requires LargestSegment(mmap).0 + BitmapPages(TotalPages(mmap)) * PAGE <= UINT64_LIMIT
    requires !InStorage(mmap, TotalPages(mmap)) && Sparing(mmap, ops)
    ensures !HandsOutStorage(mmap, Booted(mmap, hint).Run(ops))
    ensures GuardedFrames(mmap) <= Booted(mmap, hint).Run(ops).taken
  {
    BootedBitmap(mmap, hint);
    var s := Booted(mmap, hint);
    TakenStayOwned(s, ops, GuardedFrames(mmap));
    RunKeepsValid(s, ops);
    var t := s.Run(ops);
    if t.lastHit / 32 < t.Words() {
      var f := RequestedIndex(t);
      assert f in GuardedFrames(mmap) <==> InStorage(mmap, f) && f < TotalPages(mmap);
    }
  }

  /** If it is, setting the hint and requesting until nothing is left makes the allocator hand out that frame. */
  lemma StorageHandedOut(mmap: seq<Descriptor>, hint: uint64) returns (ops: seq<Op>)
    requires WellSized(mmap) && LargestSegment(mmap).0 != 0
    requires LargestSegment(mmap).0 + BitmapPages(TotalPages(mmap)) * PAGE <= UINT64_LIMIT
    requires InStorage(mmap, TotalPages(mmap))
    ensures forall op <- ops :: op.Hint? || op.Request?
    ensures Booted(mmap, hint).Run(ops).Requested() / PAGE == TotalPages(mmap)
    ensures HandsOutStorage(mmap, Booted(mmap, hint).Run(ops))
  {
    BootedBitmap(mmap, hint);
    var s, n := Booted(mmap, hint), TotalPages(mmap);
    var moved := s.Step(Hint(n));
    var rest := Exhaust(moved);
    ops := [Hint(n)] + rest;
    RunSnoc(s, [], Hint(n));
    assert [] + [Hint(n)] == [Hint(n)];
    RunConcat(s, [Hint(n)], rest);
    RequestWhenExhausted(moved.Run(rest));
  }

  /** So the condition is exact. */
  lemma StorageSafeIff(mmap: seq<Descriptor>, hint: uint64)
    requires WellSized(mmap) && LargestSegment(mmap).0 != 0
    requires LargestSegment(mmap).0 + BitmapPages(TotalPages(mmap)) * PAGE <= UINT64_LIMIT
    ensures (forall ops :: Sparing(mmap, ops) ==> !HandsOutStorage(mmap, Booted(mmap, hint).Run(ops)))
            <==> !InStorage(mmap, TotalPages(mmap))
  {
    if InStorage(mmap, TotalPages(mmap)) {
      var ops := StorageHandedOut(mmap, hint);
      assert Sparing(mmap, ops);
    } else {
      forall ops | Sparing(mmap, ops)
        ensures !HandsOutStorage(mmap, Booted(mmap, hint).Run(ops))
      {
        StorageNeverHandedOut(mmap, hint, ops);
      }
    }
  }

  /**
   * A map with a hole between its 300 low pages and the 10 conventional ones at frame 310: the total
   * is 310 pages, the bitmap lies at frame 310, and the first request returns that very frame.
   */
  lemma HoleInMap(hint: uint64)
    ensures var mmap := [Descriptor(0, 0, 300), Descriptor(7, 0x13_6000, 10)];
            && WellSized(mmap) && LargestSegment(mmap) == (0x13_6000, 0xA000) && TotalPages(mmap) == 310
            && LargestSegment(mmap).0 / PAGE == 310 && InStorage(mmap, 310)
            && Booted(mmap, hint).Requested() == 0x13_6000 && HandsOutStorage(mmap, Booted(mmap, hint))
  {
    var low, high := Descriptor(0, 0, 300), Descriptor(7, 0x13_6000, 10);
    var mmap := [low, high];
    HoleShape(low, high, mmap);
    BootedWindow(mmap, hint);
    var k := BootedHint(mmap, hint);
    assert k == 1;
    assert Usable(mmap) == {} by {
      assert forall f: nat :: InConventional(mmap, f) ==> f >= 310;
    }
    BootedBitmap(mmap, hint);
    RequestWhenExhausted(Booted(mmap, hint));
  }

  /** On that map the counters are off as well: ppa_init charges the bitmap's frame without a bit for it. */
  lemma HoleGap(hint: uint64)
    ensures Gap(Booted([Descriptor(0, 0, 300), Descriptor(7, 0x13_6000, 10)], hint)) != 0
  {
    HoleInMap(hint);
    var mmap := [Descriptor(0, 0, 300), Descriptor(7, 0x13_6000, 10)];
    BootedGap(mmap, hint);
    assert InStorage(mmap, 310);
  }

  lemma HoleShape(low: Descriptor, high: Descriptor, mmap: seq<Descriptor>)
    requires low == Descriptor(0, 0, 300) && high == Descriptor(7, 0x13_6000, 10) && mmap == [low, high]
    ensures WellSized(mmap) && LargestSegment(mmap) == (0x13_6000, 0xA000) && TotalPages(mmap) == 310
    ensures BitmapPages(TotalPages(mmap)) == 1 && InStorage(mmap, 310)
    ensures forall f: nat :: InConventional(mmap, f) <==> 310 <= f < 320
  {
    assert mmap[..1] == [low] && [low][..0] == [];
    assert TotalPages([low]) == 300 && LargestSegment([low]) == (0, 0);
    assert high in mmap;
  }
}
