/** init_pmm of src/kernel.c: a fresh PML4, and the identity map of memory and framebuffer. */
module Boot {
  import opened Bits
  import opened PageEntry
  import opened FrameState
  import opened PageTables
  import opened AddressSpace
  import opened MachineRuns
  import opened PageMapper
  import opened Wrappers

  const ADDRESS_LIMIT := 0x1_0000_0000_0000

  /** The mappings of one address-stepping loop. */
  function IdentityOps(start: uint64, n: nat): (ops: seq<MachineOp>)
    ensures |ops| == n
  {
    seq(n, i requires 0 <= i => MapPage(PageAt(start, i), PageAt(start, i)))
  }

  /** How often a loop from an address runs when it steps by a page up to size bytes further. */
  function Steps(size: uint64): nat {
    (size + PAGE - 1) / PAGE
  }

  function BootMappings(total: uint64, fbbase: uint64, fbsize: uint64): seq<MachineOp> {
    IdentityOps(0, Steps(total)) + IdentityOps(fbbase, Steps(fbsize))
  }

  /** The machine once the PML4 is taken and zeroed. */
  function FreshMachine(m: Machine): Machine {
    var root := m.frames.Requested() / PAGE;
    Machine(Zeroed(m.mem, root), root, m.frames.AfterRequest())
  }

  /** The page number of the 48 bits that the tables translate. */
  function PageNumber(w: uint64): nat {
    w / PAGE % 0x10_0000_0000
  }

  /** The page numbers that init_pmm maps. */
  predicate Identity(total: uint64, fbbase: uint64, fbsize: uint64, page: nat) {
    page < Steps(total) || fbbase / PAGE <= page < fbbase / PAGE + Steps(fbsize)
  }

  lemma FreshTree(m: Machine)
    requires m.frames.Valid() && m.frames.Window() != {}
    requires 512 * m.frames.pages <= |m.mem| && m.frames.pages <= FRAME_LIMIT
    ensures Separated(FreshMachine(m)) && TreeOf(FreshMachine(m)).Keys == {Root}
    ensures |FreshMachine(m).frames.Window()| == |m.frames.Window()| - 1
    ensures forall w :: Translate(FreshMachine(m), w) == None
  {
    var f, next := RequestNarrows(m.frames);
    var m', t := FreshMachine(m), map[Root := f];
    ZeroNotPresent();
    forall p <- t, i: nat | Depth(p) < 3 && i < 512
      ensures EntryLinks(m', t, p, i)
    {
      EntryAfterZero(m.mem, f, f, i);
    }
    assert Tree(m', t);
    TreeIsUnique(m', t, TreeOf(m'));
    forall w: uint64
      ensures Translate(m', w) == None
    {
      EntryAfterZero(m.mem, f, f, Index(w, 3));
    }
  }

  /** Some mapping of the list maps the page. */
  predicate Lists(ops: seq<MachineOp>, page: nat) {
    exists op <- ops :: op.MapPage? && PageNumber(op.v) == page
  }

  lemma ListsSnoc(front: seq<MachineOp>, last: MachineOp, page: nat)
    ensures Lists(front + [last], page) <==> Lists(front, page) || (last.MapPage? && PageNumber(last.v) == page)
  {
    assert forall op :: op in front + [last] <==> op in front || op == last;
  }

  predicate IdentityOp(op: MachineOp) {
    op.MapPage? && op.p == op.v && op.v < ADDRESS_LIMIT
  }

  /** Mappings of pages below 2^48 to themselves translate to the identity on the pages they list. */
  lemma {:induction false} IdentityMapped(ops: seq<MachineOp>, w: uint64)
    requires forall op <- ops :: IdentityOp(op)
    ensures Mapped(None, ops, w) == if Lists(ops, PageNumber(w)) then Some(PageNumber(w) * PAGE) else None
    decreases |ops|
  {
    if ops != [] {
      var front, last := ops[..|ops| - 1], ops[|ops| - 1];
      assert ops == front + [last];
      assert last in ops;
      IdentityMapped(front, w);
      ListsSnoc(front, last, PageNumber(w));
      SameNumber(last, w);
    }
  }

  lemma SameNumber(op: MachineOp, w: uint64)
    requires IdentityOp(op)
    ensures SamePage(op.v, w) <==> PageNumber(op.v) == PageNumber(w)
    ensures SamePage(op.v, w) ==> PageBase(op.p) == PageNumber(w) * PAGE
  {
  }

  lemma IdentityPages(start: uint64, n: nat, page: nat)
    requires start + PAGE * n < UINT64_LIMIT && start / PAGE + n <= 0x10_0000_0000
    ensures Lists(IdentityOps(start, n), page) <==>
            start / PAGE <= page < start / PAGE + n
  {
    var ops := IdentityOps(start, n);
    forall i: nat | i < n
      ensures ops[i].v / PAGE == start / PAGE + i && PageNumber(ops[i].v) == start / PAGE + i
    {
      StepPage(start, i);
    }
    if start / PAGE <= page < start / PAGE + n {
      assert ops[page - start / PAGE] in ops;
    }
  }

  lemma StepsBound(start: uint64, size: uint64, i: nat, addr: nat, n: nat)
    requires n == Steps(size) && addr == start + PAGE * i
    ensures addr < start + size <==> i < n
  {
  }

  lemma StepPage(start: uint64, i: nat)
    requires start + PAGE * i < UINT64_LIMIT
    ensures PageAt(start, i) == start + PAGE * i && PageAt(start, i) / PAGE == start / PAGE + i
  {
  }

  /** The addresses that init_pmm can step through below 2^48. */
  predicate Below48(total: uint64, fbbase: uint64, fbsize: uint64) {
    total <= ADDRESS_LIMIT && fbbase + fbsize <= ADDRESS_LIMIT
  }

  lemma BootMappingsAreIdentity(total: uint64, fbbase: uint64, fbsize: uint64)
    requires Below48(total, fbbase, fbsize)
    ensures forall op <- BootMappings(total, fbbase, fbsize) :: IdentityOp(op)
  {
    forall i: nat | i < Steps(total)
      ensures PageAt(0, i) < ADDRESS_LIMIT
    {
      StepPage(0, i);
    }
    forall i: nat | i < Steps(fbsize)
      ensures PageAt(fbbase, i) < ADDRESS_LIMIT
    {
      StepPage(fbbase, i);
    }
  }

  /**
   * The identity map at boot: from any allocator whose window holds the exact cost of the tables,
   * after both loops every page below the total and every page that the framebuffer loop visits
   * translates to itself, and every other 48-bit page is unmapped, overlapping or not.
   */
  lemma BootIdentityMap(m: Machine, total: uint64, fbbase: uint64, fbsize: uint64)
    requires m.frames.Valid() && 512 * m.frames.pages <= |m.mem| && m.frames.pages <= FRAME_LIMIT
    requires Below48(total, fbbase, fbsize)
    requires |m.frames.Window()| >= 1 + Cost(BootMappings(total, fbbase, fbsize))
    ensures var ops := BootMappings(total, fbbase, fbsize);
            var booted := After(FreshMachine(m), ops);
            && LegalRun(FreshMachine(m), ops) && Separated(booted)
            && forall w :: Translate(booted, w) ==
                 if Identity(total, fbbase, fbsize, PageNumber(w)) then Some(PageNumber(w) * PAGE) else None
  {
    var ops, m1 := BootMappings(total, fbbase, fbsize), FreshMachine(m);
    FreshTree(m);
    BootMappingsAreIdentity(total, fbbase, fbsize);
    EnoughFrames(m1, ops);
    RunRefines(m1, ops);
    forall w: uint64
      ensures Mapped(Translate(m1, w), ops, w) ==
              if Identity(total, fbbase, fbsize, PageNumber(w)) then Some(PageNumber(w) * PAGE) else None
    {
      IdentityMapped(ops, w);
      VisitedPages(total, fbbase, fbsize, PageNumber(w));
    }
  }

  lemma LastStep(fbbase: uint64, fbsize: uint64)
    requires fbbase + fbsize <= ADDRESS_LIMIT
    ensures fbbase + PAGE * Steps(fbsize) < UINT64_LIMIT && fbbase / PAGE + Steps(fbsize) <= 0x10_0000_0000
  {
  }

  lemma VisitedPages(total: uint64, fbbase: uint64, fbsize: uint64, page: nat)
    requires Below48(total, fbbase, fbsize) && page < 0x10_0000_0000
    ensures Lists(BootMappings(total, fbbase, fbsize), page) <==>
            Identity(total, fbbase, fbsize, page)
  {
    var a, b := IdentityOps(0, Steps(total)), IdentityOps(fbbase, Steps(fbsize));
    IdentityPages(0, Steps(total), page);
    LastStep(fbbase, fbsize);
    IdentityPages(fbbase, Steps(fbsize), page);
    assert forall op :: op in a + b <==> op in a || op in b;
  }

  /** For page-aligned ranges: every byte of memory and of the framebuffer translates to its own page. */
  lemma AlignedIdentity(total: uint64, fbbase: uint64, fbsize: uint64, w: uint64)
    requires Below48(total, fbbase, fbsize) && total % PAGE == 0 && fbbase % PAGE == 0 && fbsize % PAGE == 0
    requires w < ADDRESS_LIMIT
    ensures Identity(total, fbbase, fbsize, PageNumber(w)) <==> w < total || fbbase <= w < fbbase + fbsize
    ensures PageNumber(w) * PAGE == w - w % PAGE
  {
  }

  /** The mapping of one step of a loop. */
  method MapNext(pager: Pager, addr: uint64, start: uint64, ghost m: Machine, ghost ops: seq<MachineOp>,
                 ghost done: nat, ghost last: nat, ghost k: nat, ghost i: nat)
    requires Separated(m) && LegalRun(m, ops) && done <= k < last <= |ops| && k == done + i
    requires pager.Valid() && pager.Abs() == After(m, ops[..k])
    requires ops[done..last] == IdentityOps(start, last - done) && addr == start + PAGE * i
    modifies pager.mem, pager.frames, pager.frames.data
    ensures pager.Valid() && pager.frames.data == old(pager.frames.data)
    ensures pager.Abs() == After(m, ops[..k + 1])
  {
    NextIdentity(m, ops, done, last, start, k, i, addr);
    pager.MapMemory(addr, addr);
  }

  /** One of the two loops of init_pmm: map every page from start up to limit to itself. */
  method MapIdentity(pager: Pager, start: uint64, size: uint64, ghost m: Machine, ghost ops: seq<MachineOp>,
                     ghost done: nat, ghost n: nat, ghost last: nat)
    requires pager.Valid() && start + size <= ADDRESS_LIMIT
    requires Separated(m) && LegalRun(m, ops) && n == Steps(size) && last == done + n <= |ops|
    requires ops[done..last] == IdentityOps(start, n)
    requires pager.Abs() == After(m, ops[..done])
    modifies pager.mem, pager.frames, pager.frames.data
    ensures pager.Valid() && pager.frames.data == old(pager.frames.data)
    ensures pager.Abs() == After(m, ops[..last])
  {
    var addr := start;
    ghost var k, i: nat := done, 0;
    StepsBound(start, size, i, addr, n);
    while addr < start + size
      invariant pager.Valid() && pager.frames.data == old(pager.frames.data)
      invariant k == done + i && i <= n && addr == start + PAGE * i
      invariant addr < start + size <==> i < n
      invariant pager.Abs() == After(m, ops[..k])
      decreases start + size - addr
    {
      MapNext(pager, addr, start, m, ops, done, last, k, i);
      addr, k, i := addr + PAGE, k + 1, i + 1;
      StepsBound(start, size, i, addr, n);
    }
    assert k == last;
  }

  /** init_pmm */
  method InitPmm(pager: Pager, fbbase: uint64, fbsize: uint64)
    requires pager.Valid() && Below48(pager.frames.memTotal, fbbase, fbsize)
    requires |pager.Abs().frames.Window()| >= 1 + Cost(BootMappings(pager.frames.memTotal, fbbase, fbsize))
    modifies pager, pager.mem, pager.frames, pager.frames.data
    ensures pager.Valid()
    ensures pager.Abs() == After(FreshMachine(old(pager.Abs())), BootMappings(old(pager.frames.memTotal), fbbase, fbsize))
    ensures forall w :: Translate(pager.Abs(), w) ==
              if Identity(old(pager.frames.memTotal), fbbase, fbsize, PageNumber(w)) then Some(PageNumber(w) * PAGE) else None
  {
    ghost var m := pager.Abs();
    var total := pager.frames.memTotal;
    ghost var ops := BootMappings(total, fbbase, fbsize);
    BootPossible(m, total, fbbase, fbsize);
    ghost var n := BootSlices(total, fbbase, fbsize);
    NewPml4(pager);
    MapIdentity(pager, 0, total, FreshMachine(m), ops, 0, n, n);
    MapIdentity(pager, fbbase, fbsize, FreshMachine(m), ops, n, Steps(fbsize), |ops|);
    BootIdentityMap(m, total, fbbase, fbsize);
  }

  lemma BootSlices(total: uint64, fbbase: uint64, fbsize: uint64) returns (n: nat)
    ensures n == Steps(total)
    ensures var ops := BootMappings(total, fbbase, fbsize);
            && |ops| == n + Steps(fbsize) && ops[..0] == [] && ops[..|ops|] == ops
            && ops[0..n] == IdentityOps(0, n) && ops[n..|ops|] == IdentityOps(fbbase, Steps(fbsize))
  {
    n := Steps(total);
  }

  lemma BootPossible(m: Machine, total: uint64, fbbase: uint64, fbsize: uint64)
    requires m.frames.Valid() && 512 * m.frames.pages <= |m.mem| && m.frames.pages <= FRAME_LIMIT
    requires Below48(total, fbbase, fbsize)
    requires |m.frames.Window()| >= 1 + Cost(BootMappings(total, fbbase, fbsize))
    ensures Separated(FreshMachine(m)) && LegalRun(FreshMachine(m), BootMappings(total, fbbase, fbsize))
  {
    FreshTree(m);
    BootIdentityMap(m, total, fbbase, fbsize);
  }

  /** The first lines of init_pmm: request, zero and register the PML4. */
  method NewPml4(pager: Pager)
    requires pager.Valid() && pager.Abs().frames.Window() != {}
    modifies pager, pager.mem, pager.frames, pager.frames.data
    ensures pager.Valid() && pager.frames.data == old(pager.frames.data)
    ensures pager.Abs() == FreshMachine(old(pager.Abs()))
  {
    RequestTakesLeast(pager.Abs().frames);
    var pml4 := pager.frames.Request();
    pager.ZeroFrame(pml4 / PAGE);
    pager.InitPml4(pml4 / PAGE);
  }

  lemma NextIdentity(m: Machine, ops: seq<MachineOp>, done: nat, last: nat, start: uint64,
                     k: nat, i: nat, addr: uint64)
    requires Separated(m) && LegalRun(m, ops) && done <= k < last <= |ops| && k == done + i
    requires ops[done..last] == IdentityOps(start, last - done) && addr == start + PAGE * i
    ensures Separated(After(m, ops[..k])) && CanMap(After(m, ops[..k]), addr)
    ensures After(m, ops[..k + 1]) == Map(After(m, ops[..k]), addr, addr)
  {
    StepPage(start, i);
    assert IdentityOps(start, last - done)[i] == MapPage(addr, addr);
    assert ops[k] == ops[done..last][i];
    NextMapping(m, ops, k);
  }

  /** Each mapping of the run is possible when its turn comes, and leads to the next prefix. */
  lemma NextMapping(m: Machine, ops: seq<MachineOp>, i: nat)
    requires Separated(m) && LegalRun(m, ops) && i < |ops| && ops[i].MapPage?
    ensures Separated(After(m, ops[..i])) && CanMap(After(m, ops[..i]), ops[i].v)
    ensures After(m, ops[..i + 1]) == Map(After(m, ops[..i]), ops[i].v, ops[i].p)
  {
    forall j | 0 <= j < i
      ensures Legal(After(m, ops[..i][..j]), ops[..i][j])
    {
      assert ops[..i][..j] == ops[..j];
    }
    StaysSeparated(m, ops[..i]);
    assert Legal(After(m, ops[..i]), ops[i]);
    assert ops[..i + 1][..i] == ops[..i];
  }
}
