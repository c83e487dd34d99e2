/** src/page_map.c over a physical memory that it writes in place, refining PageTables.Map. */
module PageMapper {
  import opened Bits
  import opened PageEntry
  import opened FrameState
  import opened PageTables
  import opened AddressSpace
  import opened Wrappers
  import FrameAllocator

  class Pager {
    const mem: array<uint64>              // physical memory, 512 words a frame
    const frames: FrameAllocator.Allocator
    var pml4: nat                         // the frame of PML4

    ghost const Repr: set<object>

    ghost predicate Valid()
      reads this, frames, frames.data, Repr
    {
      && this in Repr && mem in Repr && frames in Repr
      && frames.data !in Repr
      && frames.Valid()
      && 512 * frames.Abs().pages <= mem.Length
      && frames.Abs().pages <= FRAME_LIMIT
    }

    /** The abstract machine: memory, root and allocator state. */
    ghost function Abs(): Machine
      requires Valid()
      reads this, mem, frames, frames.data, Repr
    {
      Machine(mem[..], pml4, frames.Abs())
    }

    constructor (memory: array<uint64>, allocator: FrameAllocator.Allocator)
      requires allocator.Valid() && allocator.data as object != memory
      requires 512 * allocator.Abs().pages <= memory.Length && allocator.Abs().pages <= FRAME_LIMIT
      ensures Valid() && Abs() == Machine(memory[..], 0, allocator.Abs())
      ensures mem == memory && frames == allocator
    {
      mem, frames, pml4 := memory, allocator, 0;
      Repr := {this, memory, allocator};
    }

    /** pmm_init_pml4 */
    method InitPml4(frame: nat)
      requires Valid()
      modifies this`pml4
      ensures Valid() && Abs() == old(Abs()).(root := frame)
    {
      pml4 := frame;
    }

    /** ppa_memset(addr, 0, 4096) on a frame, word by word. */
    method ZeroFrame(frame: nat)
      requires Valid() && 512 * frame + 512 <= mem.Length
      modifies mem
      ensures Valid()
      ensures Abs() == old(Abs()).(mem := Zeroed(old(Abs()).mem, frame))
    {
      ghost var before := mem[..];
      for k := 0 to 512
        invariant forall w :: 0 <= w < mem.Length ==>
                    mem[w] == if 512 * frame <= w < 512 * frame + k then 0 else before[w]
      {
        mem[512 * frame + k] := 0;
      }
      assert mem[..] == Zeroed(before, frame);
    }

    /** A missing level: request a frame, zero it and link it. */
    method NewTable(table: nat, index: nat, entry: uint64) returns (next: nat)
      requires Valid() && index < 512 && 512 * table + 512 <= mem.Length && mem[512 * table + index] == entry
      requires Abs().frames.Window() != {}
      modifies mem, frames, frames.data
      ensures Valid() && frames.data == old(frames.data)
      ensures Abs() == Grow(old(Abs()), table, index) && next == old(Abs()).frames.Requested() / PAGE
    {
      RequestTakesLeast(Abs().frames);
      var addr := frames.Request();
      next := addr / PAGE;
      ZeroFrame(next);
      var pde := AddrSet(entry, addr / PAGE);
      pde := FlagSet(pde, P_RW);
      ghost var zeroed := mem[..];
      mem[512 * table + index] := pde;
      assert mem[..] == Write(zeroed, table, index, pde);
    }

    /** One level of pmm_map_memory: follow the entry, or request, zero and link a table first. */
    method NextTable(ghost vaddr: uint64, ghost paddr: uint64, table: nat, index: nat, ghost level: nat)
      returns (next: nat)
      requires Valid() && level > 0 && index == Index(vaddr, level)
      requires InstallPossible(Abs(), table, level, vaddr)
      modifies mem, frames, frames.data
      ensures Valid() && frames.data == old(frames.data)
      ensures InstallPossible(Abs(), next, level - 1, vaddr)
      ensures Install(old(Abs()), table, level, vaddr, paddr) == Install(Abs(), next, level - 1, vaddr, paddr)
    {
      ghost var m := Abs();
      var pde := mem[512 * table + index];
      if !FlagGet(pde, PDE_P) {
        next := NewTable(table, index, pde);
      } else {
        next := AddrGet(pde);
      }
    }

    /** The last level of pmm_map_memory. */
    method WriteLeaf(ghost vaddr: uint64, paddr: uint64, pt: nat, index: nat)
      requires Valid() && index == Index(vaddr, 0) && InstallPossible(Abs(), pt, 0, vaddr)
      modifies mem
      ensures Valid() && Abs() == Install(old(Abs()), pt, 0, vaddr, paddr)
    {
      ghost var before := mem[..];
      var pde := mem[512 * pt + index];
      pde := AddrSet(pde, paddr / PAGE);
      pde := FlagSet(pde, P_RW);
      mem[512 * pt + index] := pde;
      assert mem[..] == Write(before, pt, index, pde);
    }

    /** The four levels of pmm_map_memory, from the PML4 down. */
    method Descend(vaddr: uint64, paddr: uint64)
      requires Valid() && InstallPossible(Abs(), pml4, 3, vaddr)
      modifies mem, frames, frames.data
      ensures Valid() && frames.data == old(frames.data)
      ensures Abs() == Map(old(Abs()), vaddr, paddr)
    {
      var pdp := NextTable(vaddr, paddr, pml4, Index(vaddr, 3), 3);
      var pd := NextTable(vaddr, paddr, pdp, Index(vaddr, 2), 2);
      var pt := NextTable(vaddr, paddr, pd, Index(vaddr, 1), 1);
      WriteLeaf(vaddr, paddr, pt, Index(vaddr, 0));
    }

    /** pmm_map_memory */
    method MapMemory(vaddr: uint64, paddr: uint64)
      requires Valid() && Separated(Abs()) && CanMap(Abs(), vaddr)
      modifies mem, frames, frames.data
      ensures Valid() && frames.data == old(frames.data)
      ensures Abs() == Map(old(Abs()), vaddr, paddr) && Separated(Abs())
      ensures forall w :: Translate(Abs(), w) ==
                if SamePage(vaddr, w) then Some(PageBase(paddr)) else Translate(old(Abs()), w)
    {
      ghost var m := Abs();
      MappingPossible(m, vaddr);
      Descend(vaddr, paddr);
      MapRefines(m, vaddr, paddr);
    }

    /** pmm_find_paddr */
    method FindPaddr(vaddr: uint64) returns (paddr: uint64)
      requires Valid() && Separated(Abs())
      ensures paddr == match Translate(Abs(), vaddr) case None => 0 case Some(p) => p
    {
      ghost var words := mem[..];
      WalkPossible(Abs(), vaddr);
      FollowWalk(words, pml4, 3, vaddr);
      var pde := mem[512 * pml4 + Index(vaddr, 3)];
      if !FlagGet(pde, PDE_P) {
        return 0;
      }
      var pdp := AddrGet(pde);

      FollowWalk(words, pdp, 2, vaddr);
      pde := mem[512 * pdp + Index(vaddr, 2)];
      if !FlagGet(pde, PDE_P) {
        return 0;
      }
      var pd := AddrGet(pde);

      FollowWalk(words, pd, 1, vaddr);
      pde := mem[512 * pd + Index(vaddr, 1)];
      if !FlagGet(pde, PDE_P) {
        return 0;
      }
      var pt := AddrGet(pde);

      FollowWalk(words, pt, 0, vaddr);
      pde := mem[512 * pt + Index(vaddr, 0)];
      if !FlagGet(pde, PDE_P) {
        return 0;
      }
      AddrBelowLimit(pde);
      return AddrGet(pde) * PAGE;
    }
  }

  /** One step of a walk. */
  lemma FollowWalk(mem: Memory, table: nat, level: nat, v: uint64)
    requires WalkInMemory(mem, table, level, v)
    ensures 512 * table + Index(v, level) < |mem|
    ensures var e := mem[512 * table + Index(v, level)];
            if !Present(e) then Walk(mem, table, level, v) == None
            else if level == 0 then Walk(mem, table, level, v) == Some(e)
            else && WalkInMemory(mem, AddrGet(e), level - 1, v)
                 && Walk(mem, table, level, v) == Walk(mem, AddrGet(e), level - 1, v)
  {
  }

  lemma MappingPossible(m: Machine, v: uint64)
    requires Separated(m) && CanMap(m, v)
    ensures InstallPossible(m, m.root, 3, v)
  {
    var t :| Tree(m, t);
    ShortfallIsMissing(m, t, v, 0);
    TreeAllowsInstall(m, t, v, 0);
  }

  lemma WalkPossible(m: Machine, v: uint64)
    requires Separated(m)
    ensures WalkInMemory(m.mem, m.root, 3, v)
  {
    var t :| Tree(m, t);
    TreeInMemory(m, t, v, 0);
  }
}
