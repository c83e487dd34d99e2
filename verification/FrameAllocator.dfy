/** The allocator of src/page_frames.c over its bitmap words, refining the state machine FrameState. */
module FrameAllocator {
  import opened Bits
  import opened Bitmap
  import opened FrameState
  import opened MemoryMap

  class Allocator {
    var size: nat          // ppa_bitmap._size
    var maxIndex: nat      // ppa_bitmap._max_index
    var dataAddr: uint64   // ppa_bitmap._data, as an address
    var data: array<uint32>
    var memUsed: uint64
    var memRsvd: uint64
    var memFree: uint64
    var memTotal: uint64
    var initialized: bool
    var lastHit: uint64

    ghost predicate Valid()
      reads this, data
    {
      && size == data.Length == (maxIndex + 1) / 32 + 1
      && (maxIndex + 1) * PAGE < UINT64_LIMIT
      && PaddingClear(data[..], maxIndex + 1)
    }

    /** The abstract state that the words and counters stand for. */
    ghost function Abs(): (s: State)
      requires Valid()
      reads this, data
      ensures s.Valid()
    {
      State(maxIndex + 1, Taken(data[..], maxIndex + 1), memUsed, memRsvd, memFree, memTotal, lastHit)
    }

    /** Nothing but bits, counters and the hint changes. */
    twostate predicate SameBitmap()
      reads this
    {
      && size == old(size) && maxIndex == old(maxIndex)
      && data == old(data) && dataAddr == old(dataAddr)
      && initialized == old(initialized)
    }

    constructor ()
      ensures !initialized && size == maxIndex == 0 && dataAddr == 0 && data.Length == 0 && fresh(data)
      ensures memUsed == memRsvd == memFree == memTotal == 0 && lastHit == 0
    {
      size, maxIndex, dataAddr := 0, 0, 0;
      data := new uint32[0];
      memUsed, memRsvd, memFree, memTotal := 0, 0, 0, 0;
      initialized := false;
      lastHit := 0;
    }

    /** ppa_init_bitmap: the words are zeroed by an int loop, which bounds their number. */
    method InitBitmap(addr: uint64, pages: uint64)
      requires 0 < pages < PAGES_LIMIT && pages * PAGE < UINT64_LIMIT
      modifies this`size, this`maxIndex, this`dataAddr, this`data
      ensures Valid() && fresh(data) && maxIndex == pages - 1 && dataAddr == addr
      ensures Abs() == State(pages, {}, memUsed, memRsvd, memFree, memTotal, lastHit)
    {
      size := pages / 32 + 1;
      maxIndex := pages - 1;
      dataAddr := addr;
      var words := new uint32[size];
      data := words;
      for i := 0 to size
        invariant data == words && size == words.Length == pages / 32 + 1
        invariant maxIndex == pages - 1 && dataAddr == addr
        invariant forall w :: 0 <= w < i ==> words[w] == 0
      {
        data[i] := 0;
      }
      NothingTaken(data[..], pages);
    }

    /** The first loop of ppa_init: total the map and find the largest conventional segment. */
    method Survey(mmap: seq<Descriptor>) returns (largestSegment: uint64)
      requires WellSized(mmap)
      modifies this`memUsed, this`memRsvd, this`memFree, this`memTotal
      ensures memFree == memTotal == TotalPages(mmap) * PAGE && memUsed == memRsvd == 0
      ensures largestSegment == LargestSegment(mmap).0
    {
      memUsed, memRsvd, memFree, memTotal := 0, 0, 0, 0;
      var largestSize: uint64;
      largestSegment, largestSize := 0, 0;
      for i := 0 to |mmap|
        invariant memUsed == memRsvd == memFree == 0
        invariant memTotal == TotalPages(mmap[..i]) * PAGE
        invariant (largestSegment, largestSize) == LargestSegment(mmap[..i])
      {
        var desc := mmap[i];
        PrefixTotals(mmap, i);
        var crtSize := Wrap64(desc.numberOfPages * PAGE);
        memTotal := Wrap64(memTotal + crtSize);
        if desc.kind == EFI_CONVENTIONAL_MEMORY && crtSize > largestSize {
          largestSegment := desc.physicalStart;
          largestSize := crtSize;
        }
      }
      assert mmap[..|mmap|] == mmap;
      memFree := memTotal;
    }

    /** The second loop of ppa_init: release the frames of every conventional descriptor. */
    method FreeSegments(mmap: seq<Descriptor>)
      requires Valid() && WellSized(mmap)
      modifies this, data
      ensures Valid() && SameBitmap()
      ensures Abs() == old(Abs()).Run(FreeConventional(mmap))
    {
      for i := 0 to |mmap|
        invariant Valid() && SameBitmap()
        invariant Abs() == old(Abs()).Run(FreeConventional(mmap[..i]))
      {
        var desc := mmap[i];
        FreeConventionalSnoc(old(Abs()), mmap, i);
        if desc.kind == EFI_CONVENTIONAL_MEMORY {
          Ursvn(desc.physicalStart, desc.numberOfPages);
        }
      }
      assert mmap[..|mmap|] == mmap;
    }

    method MarkInitialized()
      requires Valid()
      modifies this`initialized
      ensures Valid() && initialized && Abs() == old(Abs())
    {
      initialized := true;
    }

    /** ppa_init */
    method Init(mmap: seq<Descriptor>)
      requires initialized ==> Valid()
      requires !initialized ==> WellSized(mmap)
      modifies this
      ensures old(initialized) ==> initialized && Valid() && Abs() == old(Abs()) && SameBitmap()
      ensures !old(initialized) && LargestSegment(mmap).0 == 0 ==>
                && SameBitmap() && lastHit == old(lastHit)
                && memFree == memTotal == TotalPages(mmap) * PAGE && memUsed == memRsvd == 0
      ensures !old(initialized) && LargestSegment(mmap).0 != 0 ==>
                && initialized && Valid() && fresh(data) && dataAddr == LargestSegment(mmap).0
                && Abs() == Booted(mmap, old(lastHit))
    {
      if initialized {
        return;
      }
      var largestSegment := Survey(mmap);
      if largestSegment == 0 {
        return;
      }
      LargestNeedsPages(mmap);
      var totalPages := memTotal / PAGE;
      InitBitmap(largestSegment, totalPages);
      ghost var s := Abs();
      assert s == Unbooted(mmap, old(lastHit));

      var bitmapPages := size / 1024 + (if size % 1024 != 0 then 1 else 0);
      assert bitmapPages == BitmapPages(TotalPages(mmap));
      Rsvn(0, totalPages);
      FreeSegments(mmap);
      Rsvn(0, 0x100);
      Lckn(dataAddr, bitmapPages);
      BootRuns(s, mmap);
      assert Abs() == Booted(mmap, old(lastHit));
      MarkInitialized();
    }

    /** ppa_bitmap_get: an index out of range reads as clear. */
    method BitmapGet(index: uint64) returns (r: uint8)
      requires Valid()
      ensures r == if index in Abs().taken then 1 else 0
    {
      if index > maxIndex {
        return 0;
      }
      var mask := BitMask(index % 32);
      TestBit(data[index / 32], index % 32);
      r := if And(data[index / 32], mask) != 0 then 1 else 0;
    }

    /** ppa_bitmap_set: an index out of range is ignored. */
    method BitmapSet(index: uint64, setBit: uint8) returns (r: uint8)
      requires Valid()
      modifies data
      ensures Valid()
      ensures Abs() == old(Abs()).(taken :=
                if index > maxIndex then old(Abs()).taken
                else if setBit != 0 then old(Abs()).taken + {index} else old(Abs()).taken - {index})
      ensures r == if index in Abs().taken then 1 else 0
    {
      if index > maxIndex {
        return 0;
      }
      var mask := BitMask(index % 32);
      ghost var before := data[..];
      if setBit != 0 {
        TakenAfterSet(before, maxIndex + 1, index);
        data[index / 32] := Or(data[index / 32], mask);
        assert data[..] == before[index / 32 := Or(before[index / 32], mask)];
      } else {
        TakenAfterClear(before, maxIndex + 1, index);
        data[index / 32] := And(data[index / 32], Not32(mask));
        assert data[..] == before[index / 32 := And(before[index / 32], Not32(mask))];
      }
      TestBit(data[index / 32], index % 32);
      r := if And(data[index / 32], mask) != 0 then 1 else 0;
    }

    /** ppa_lck */
    method Lck(addr: uint64)
      requires Valid()
      modifies this, data
      ensures Valid() && SameBitmap()
      ensures Abs() == old(Abs()).Step(Op.Lck(addr))
    {
      var index := addr / PAGE;
      var bit := BitmapGet(index);
      if bit != 0 {
        return;
      }
      var _ := BitmapSet(index, 1);
      memUsed := Wrap64(memUsed + PAGE);
      memFree := Wrap64(memFree - PAGE);
    }

    /** ppa_lckn */
    method Lckn(addr: uint64, n: uint64)
      requires Valid()
      modifies this, data
      ensures Valid() && SameBitmap()
      ensures Abs() == old(Abs()).Run(FrameState.Lckn(addr, n))
    {
      var left, at: uint64 := n, addr;
      ghost var i: nat, s := 0, Abs();
      while left != 0
        invariant i + left == n && Valid() && SameBitmap()
        invariant at == PageAt(addr, i)
        invariant Abs() == s.Run(LckRange(addr, i))
        decreases left
      {
        left := left - 1;
        Lck(at);
        ExtendLck(s, addr, i);
        NextPage(addr, i);
        at := Wrap64(at + PAGE);
        i := i + 1;
      }
    }

    /** ppa_ulck */
    method Ulck(addr: uint64)
      requires Valid()
      modifies this, data
      ensures Valid() && SameBitmap()
      ensures Abs() == old(Abs()).Step(Op.Ulck(addr))
    {
      var index := addr / PAGE;
      var bit := BitmapGet(index);
      if bit == 0 {
        return;
      }
      var _ := BitmapSet(index, 0);
      memUsed := Wrap64(memUsed - PAGE);
      memFree := Wrap64(memFree + PAGE);
      lastHit := index;
    }

    /** ppa_ulckn: `4096 * i` is an int product, so n is at most 2^19. */
    method Ulckn(addr: uint64, n: uint64)
      requires Valid() && n <= 524288
      modifies this, data
      ensures Valid() && SameBitmap()
      ensures Abs() == old(Abs()).Run(FrameState.Ulckn(addr, n))
    {
      for i := 0 to n
        invariant Valid() && SameBitmap()
        invariant Abs() == old(Abs()).Run(UlckRange(addr, i))
      {
        Ulck(PageAt(addr, i));
        ExtendUlck(old(Abs()), addr, i);
      }
      lastHit := addr / PAGE;
      RunSnoc(old(Abs()), UlckRange(addr, n), Hint(addr / PAGE));
    }

    /** ppa_rsv */
    method Rsv(addr: uint64)
      requires Valid()
      modifies this, data
      ensures Valid() && SameBitmap()
      ensures Abs() == old(Abs()).Step(Op.Rsv(addr))
    {
      var index := addr / PAGE;
      var bit := BitmapGet(index);
      if bit != 0 {
        return;
      }
      var _ := BitmapSet(index, 1);
      memRsvd := Wrap64(memRsvd + PAGE);
      memFree := Wrap64(memFree - PAGE);
    }

    /** ppa_rsvn */
    method Rsvn(addr: uint64, n: uint64)
      requires Valid()
      modifies this, data
      ensures Valid() && SameBitmap()
      ensures Abs() == old(Abs()).Run(FrameState.Rsvn(addr, n))
    {
      var left, at: uint64 := n, addr;
      ghost var i: nat, s := 0, Abs();
      while left != 0
        invariant i + left == n && Valid() && SameBitmap()
        invariant at == PageAt(addr, i)
        invariant Abs() == s.Run(RsvRange(addr, i))
        decreases left
      {
        left := left - 1;
        Rsv(at);
        ExtendRsv(s, addr, i);
        NextPage(addr, i);
        at := Wrap64(at + PAGE);
        i := i + 1;
      }
    }

    /** ppa_ursv */
    method Ursv(addr: uint64)
      requires Valid()
      modifies this, data
      ensures Valid() && SameBitmap()
      ensures Abs() == old(Abs()).Step(Op.Ursv(addr))
    {
      var index := addr / PAGE;
      var bit := BitmapGet(index);
      if bit == 0 {
        return;
      }
      var _ := BitmapSet(index, 0);
      memRsvd := Wrap64(memRsvd - PAGE);
      memFree := Wrap64(memFree + PAGE);
      lastHit := index;
    }

    /** ppa_ursvn, with the bound of ppa_ulckn. */
    method Ursvn(addr: uint64, n: uint64)
      requires Valid() && n <= 524288
      modifies this, data
      ensures Valid() && SameBitmap()
      ensures Abs() == old(Abs()).Run(FrameState.Ursvn(addr, n))
    {
      for i := 0 to n
        invariant Valid() && SameBitmap()
        invariant Abs() == old(Abs()).Run(UrsvRange(addr, i))
      {
        Ursv(PageAt(addr, i));
        ExtendUrsv(old(Abs()), addr, i);
      }
      lastHit := addr / PAGE;
      RunSnoc(old(Abs()), UrsvRange(addr, n), Hint(addr / PAGE));
    }

    /** The two nested loops of ppa_request, up to the first index that reads as clear. */
    method Search() returns (found: bool, index: nat)
      requires Valid()
      ensures found ==> lastHit / 32 <= index / 32 < size && NoneClear(Abs(), index) && index !in Abs().taken
      ensures !found ==> lastHit / 32 >= size
    {
      index := 0;
      var hi := lastHit / 32;
      while hi < size
        invariant hi >= lastHit / 32 && (hi > lastHit / 32 ==> hi <= size)
        invariant NoneClear(Abs(), 32 * hi)
        decreases size - hi
      {
        if data[hi] == UINT32_LIMIT - 1 {
          FullWordTaken(data[..], maxIndex + 1, hi);
          hi := hi + 1;
          continue;
        }
        for lo := 0 to 32
          invariant NoneClear(Abs(), 32 * hi + lo)
        {
          index := hi * 32 + lo;
          var bit := BitmapGet(index);
          if bit == 0 {
            return true, index;
          }
        }
        hi := hi + 1;
      }
      SearchEnds(Abs(), hi);
      return false, 0;
    }

    /** ppa_request */
    method Request() returns (r: uint64)
      requires Valid()
      modifies this, data
      ensures Valid() && SameBitmap()
      ensures r == old(Abs()).Requested()
      ensures Abs() == old(Abs()).Step(Op.Request)
    {
      var found, index := Search();
      if !found {
        return 0;
      }
      ghost var s := Abs();
      FirstClear(s, index);
      lastHit := index;
      assert Valid() && Abs() == s.(lastHit := index);
      Lck(index * PAGE);
      return index * PAGE;
    }
  }

  /** The search has found no clear frame below k. */
  predicate NoneClear(s: State, k: nat) {
    forall i :: s.Start() <= i < k ==> i in s.taken
  }

  lemma FirstClear(s: State, index: nat)
    requires s.Valid() && s.lastHit / 32 <= index / 32 < s.Words()
    requires NoneClear(s, index) && index !in s.taken
    ensures index * PAGE < UINT64_LIMIT && s.Requested() == index * PAGE
    ensures s.AfterRequest() == s.(lastHit := index).AfterLck(index * PAGE)
  {
    var found := RequestedIndex(s);
  }

  /** Because of the padding bit, the search only fails when it starts outside the bitmap. */
  lemma SearchEnds(s: State, hi: nat)
    requires s.Valid() && hi >= s.Words() && NoneClear(s, 32 * hi)
    ensures s.lastHit / 32 >= s.Words()
  {
    if s.lastHit / 32 < s.Words() {
      var found := RequestedIndex(s);
    }
  }

  lemma FullWordTaken(words: seq<uint32>, pages: nat, w: nat)
    requires w < |words| && pages < 32 * |words| && PaddingClear(words, pages)
    requires words[w] == UINT32_LIMIT - 1
    ensures forall i :: 32 * w <= i < 32 * w + 32 ==> i in Taken(words, pages)
  {
    FullWord(words, w);
  }
}
