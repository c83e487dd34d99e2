/** From the firmware's memory map through ppa_init and init_pmm: the address space and the bitmap's own frames. */
module BootStorage {
  import opened AddressSpace
  import opened Bits
  import opened Boot
  import opened BootedState
  import opened FrameState
  import opened MachineRuns
  import opened MemoryMap
  import opened PageEntry
  import opened PageTables
  import opened Wrappers

  /** The search of the first request starts inside the bitmap. */
  predicate StartsInside(mmap: seq<Descriptor>) {
    LastStart(mmap, 0) / 32 < TotalPages(mmap) / 32 + 1
  }

  /**
   * init_pmm takes one of the bitmap's own frames for its PML4, and zeroes it, exactly when no usable
   * frame can be reached and the frame behind the range is one of them. (A search that starts outside
   * the bitmap returns 0, so then it is frame 0 that is taken.)
   */
  lemma RootInStorage(mmap: seq<Descriptor>, hint: uint64, m: Machine)
    requires WellSized(mmap) && LargestSegment(mmap).0 != 0
    requires LargestSegment(mmap).0 + BitmapPages(TotalPages(mmap)) * PAGE <= UINT64_LIMIT
    requires m.frames == Booted(mmap, hint)
    ensures InStorage(mmap, FreshMachine(m).root) <==>
            if StartsInside(mmap) then Usable(mmap) == {} && InStorage(mmap, TotalPages(mmap)) else InStorage(mmap, 0)
    ensures forall j: nat :: j < 512 ==> Entry(FreshMachine(m).mem, FreshMachine(m).root, j) == 0
  {
    BootedBitmap(mmap, hint);
    BootedWindow(mmap, hint);
    var k := BootedHint(mmap, hint);
    LastStartOnly(mmap, hint, 0);
    if Usable(mmap) == {} {
      RequestWhenExhausted(m.frames);
    } else {
      RequestTakesLeast(m.frames);
    }
    forall j: nat | j < 512
      ensures Entry(FreshMachine(m).mem, FreshMachine(m).root, j) == 0
    {
      EntryAfterZero(m.mem, FreshMachine(m).root, FreshMachine(m).root, j);
    }
  }

  /** The map with a hole: the PML4 is frame 310, the bitmap's own, and all of it is zeroed. */
  lemma HoleTakesRoot(hint: uint64, m: Machine)
    requires m.frames == Booted([Descriptor(0, 0, 300), Descriptor(7, 0x13_6000, 10)], hint)
    ensures FreshMachine(m).root == 310
    ensures 310 in StorageFrames([Descriptor(0, 0, 300), Descriptor(7, 0x13_6000, 10)])
    ensures forall j: nat :: j < 512 ==> Entry(FreshMachine(m).mem, 310, j) == 0
  {
    HoleInMap(hint);
    forall j: nat | j < 512
      ensures Entry(FreshMachine(m).mem, 310, j) == 0
    {
      EntryAfterZero(m.mem, 310, 310, j);
    }
  }

  /** A mapping that misses a table and finds the window empty takes the frame behind the range for it, and zeroes it. */
  lemma GrowsPastRange(m: Machine, table: nat, i: nat)
    requires m.frames.Valid() && m.frames.pages < FRAME_LIMIT && m.frames.Window() == {}
    requires m.frames.lastHit / 32 < m.frames.Words() && i < 512
    requires 512 * table + 512 <= |m.mem| && table != m.frames.pages
    ensures var e := Entry(Grow(m, table, i).mem, table, i); Present(e) && AddrGet(e) == m.frames.pages
    ensures forall j: nat :: j < 512 ==> Entry(Grow(m, table, i).mem, m.frames.pages, j) == 0
  {
    RequestWhenExhausted(m.frames);
    var f := m.frames.pages;
    var e := Link(Entry(m.mem, table, i), f);
    LinkToFrame(Entry(m.mem, table, i), f);
    forall g: nat, j: nat | j < 512
      ensures Entry(Grow(m, table, i).mem, g, j) ==
              if g == table && j == i then e else if g == f then 0 else Entry(m.mem, g, j)
    {
      EntryAfterWrite(Zeroed(m.mem, f), table, i, e, g, j);
      EntryAfterZero(m.mem, f, g, j);
    }
  }

  /**
   * As long as the window holds the frames that each mapping needs, from ppa_init on no mapping
   * damages the bitmap's own storage, in range or not: through the request and the zeroing of the
   * PML4 and every run of mappings and of allocator calls that release none of its frames, no table
   * is one of them, every word of them stays as it was, and those in range stay taken.
   */
  lemma BitmapStorageSurvives(mmap: seq<Descriptor>, hint: uint64, m: Machine, ops: seq<MachineOp>)
    requires WellSized(mmap) && LargestSegment(mmap).0 != 0
    requires LargestSegment(mmap).0 + BitmapPages(TotalPages(mmap)) * PAGE <= UINT64_LIMIT
    requires m.frames == Booted(mmap, hint) && Usable(mmap) != {}
    requires 512 * m.frames.pages <= |m.mem|
    requires LegalRun(FreshMachine(m), ops)
    requires forall op <- ops :: op.FrameOp? ==> Spares(op.op, GuardedFrames(mmap))
    ensures Separated(FreshMachine(m))
    ensures StorageFrames(mmap) !! TableFrames(After(FreshMachine(m), ops))
    ensures SameFrames(m.mem, After(FreshMachine(m), ops).mem, StorageFrames(mmap))
    ensures GuardedFrames(mmap) <= After(FreshMachine(m), ops).frames.taken
  {
    BootedBitmap(mmap, hint);
    BootedWindow(mmap, hint);
    var m1, keep := FreshMachine(m), StorageFrames(mmap);
    FreshSpares(m, keep);
    assert Below(keep, m1.frames.pages) == GuardedFrames(mmap);
    RunSpares(m1, ops, keep);
    RunKeepsPages(m1, ops);
    SameFramesTwice(m.mem, m1.mem, After(m1, ops).mem, keep);
  }

  lemma FreshSpares(m: Machine, keep: set<nat>)
    requires m.frames.Valid() && m.frames.Window() != {} && Kept(m.frames, keep)
    requires 512 * m.frames.pages <= |m.mem| && m.frames.pages <= FRAME_LIMIT
    ensures Separated(FreshMachine(m)) && Kept(FreshMachine(m).frames, keep) && keep !! TableFrames(FreshMachine(m))
    ensures FreshMachine(m).frames.pages == m.frames.pages
    ensures SameFrames(m.mem, FreshMachine(m).mem, keep)
  {
    FreshTree(m);
    var f, next := RequestNarrows(m.frames);
    forall g <- keep, j: nat | j < 512
      ensures Entry(FreshMachine(m).mem, g, j) == Entry(m.mem, g, j)
    {
      EntryAfterZero(m.mem, f, g, j);
    }
  }

  /**
   * The whole boot, decided by the memory map alone: if the frames that the first requests can reach
   * are as many as the PML4 and the tables cost, ppa_init and init_pmm leave the identity map.
   */
  lemma BootFromMemoryMap(mmap: seq<Descriptor>, hint: uint64, m: Machine, fbbase: uint64, fbsize: uint64)
    requires WellSized(mmap) && LargestSegment(mmap).0 != 0
    requires LargestSegment(mmap).0 + BitmapPages(TotalPages(mmap)) * PAGE <= UINT64_LIMIT
    requires m.frames == Booted(mmap, hint)
    requires 512 * TotalPages(mmap) <= |m.mem|
    requires Below48(TotalPages(mmap) * PAGE, fbbase, fbsize)
    requires |Usable(mmap)| >= 1 + Cost(BootMappings(TotalPages(mmap) * PAGE, fbbase, fbsize))
    ensures m.frames.total == TotalPages(mmap) * PAGE
    ensures var booted := After(FreshMachine(m), BootMappings(m.frames.total, fbbase, fbsize));
            && Separated(booted) && StorageFrames(mmap) !! TableFrames(booted)
            && SameFrames(m.mem, booted.mem, StorageFrames(mmap))
            && forall w :: Translate(booted, w) ==
                 if Identity(m.frames.total, fbbase, fbsize, PageNumber(w)) then Some(PageNumber(w) * PAGE) else None
  {
    BootedBitmap(mmap, hint);
    BootedWindow(mmap, hint);
    BootedTotal(mmap, hint, []);
    var total := TotalPages(mmap) * PAGE;
    BootIdentityMap(m, total, fbbase, fbsize);
    BootMappingsAreIdentity(total, fbbase, fbsize);
    BitmapStorageSurvives(mmap, hint, m, BootMappings(total, fbbase, fbsize));
  }
}
