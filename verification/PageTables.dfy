/**
 * Four-level page tables in physical memory: the walk, the mapper as a recursion over the levels,
 * and the tree of tables that every operation keeps.
 */
module PageTables {
  import opened Bits
  import opened PageEntry
  import opened FrameState
  import opened Wrappers

  /** Physical memory by 64-bit words; frame f is the words 512 * f .. 512 * f + 511. */
  type Memory = seq<uint64>

  datatype Machine = Machine(mem: Memory, root: nat, frames: State)

  function Entry(mem: Memory, frame: nat, i: nat): uint64 {
    if 512 * frame + i < |mem| then mem[512 * frame + i] else 0
  }

  function Write(mem: Memory, frame: nat, i: nat, entry: uint64): Memory {
    if 512 * frame + i < |mem| then mem[512 * frame + i := entry] else mem
  }

  function Zeroed(mem: Memory, frame: nat): (r: Memory)
    ensures |r| == |mem|
  {
    seq(|mem|, k requires 0 <= k < |mem| => if 512 * frame <= k < 512 * frame + 512 then 0 else mem[k])
  }

  /** The index of v into its table at a level; level 3 is the PML4 and level 0 the page table. */
  function Index(v: uint64, level: nat): (i: nat)
    ensures i < 512
  {
    And(Shr(v, 12 + 9 * level), 0x1ff)
  }

  predicate Present(entry: uint64) {
    FlagGet(entry, PDE_P)
  }

  // ---------- Translation ----------

  /** The leaf entry that a walk from a table reaches, if every entry on the way is present. */
  function Walk(mem: Memory, frame: nat, level: nat, v: uint64): Option<uint64>
    decreases level, frame
  {
    var e := Entry(mem, frame, Index(v, level));
    if !Present(e) then None
    else if level == 0 then Some(e)
    else Walk(mem, AddrGet(e), level - 1, v)
  }

  /** The page that v is mapped to. */
  function Translate(m: Machine, v: uint64): Option<uint64> {
    match Walk(m.mem, m.root, 3, v)
    case None => None
    case Some(e) => Some(PageOf(e))
  }

  function PageOf(entry: uint64): uint64 {
    AddrBelowLimit(entry);
    AddrGet(entry) * PAGE
  }

  /** Two addresses share a page when bits 47..12 agree. */
  predicate SamePage(v: uint64, w: uint64) {
    v / PAGE % 0x10_0000_0000 == w / PAGE % 0x10_0000_0000
  }

  // ---------- The mapper ----------

  /** Take a frame, zero it, and link it into entry i of a table. */
  function Grow(m: Machine, frame: nat, i: nat): Machine {
    var f := m.frames.Requested() / PAGE;
    Machine(
      Write(Zeroed(m.mem, f), frame, i, Link(Entry(m.mem, frame, i), f)),
      m.root,
      m.frames.AfterRequest())
  }

  /** Map v to the page of p below a table of the given level, growing the tables that are missing. */
  function Install(m: Machine, frame: nat, level: nat, v: uint64, p: uint64): Machine
    decreases level, frame
  {
    var i := Index(v, level);
    var e := Entry(m.mem, frame, i);
    if level == 0 then m.(mem := Write(m.mem, frame, i, Link(e, p / PAGE)))
    else if Present(e) then Install(m, AddrGet(e), level - 1, v, p)
    else Install(Grow(m, frame, i), m.frames.Requested() / PAGE, level - 1, v, p)
  }

  function Map(m: Machine, v: uint64, p: uint64): Machine {
    Install(m, m.root, 3, v, p)
  }

  // ---------- The tree of tables ----------

  /** A table is named by the indices that lead to it from the PML4. */
  datatype Path = Root | Child(parent: Path, idx: nat)

  function Depth(p: Path): nat {
    match p
    case Root => 0
    case Child(q, _) => Depth(q) + 1
  }

  /** The table that holds v's entry at a depth: 0 is the PML4, 3 the page table. */
  function PathTo(v: uint64, depth: nat): (p: Path)
    ensures Depth(p) == depth
  {
    if depth == 0 then Root
    else Child(PathTo(v, depth - 1), Index(v, if depth <= 4 then 4 - depth else 0))
  }

  /** t gives the frame of every table; distinct tables have distinct frames, all taken and in range. */
  ghost predicate Tables(m: Machine, t: map<Path, nat>) {
    && m.frames.Valid()
    && 512 * m.frames.pages <= |m.mem|
    && m.frames.pages <= FRAME_LIMIT
    && Root in t && t[Root] == m.root
    && (forall p <- t :: t[p] in m.frames.taken && Depth(p) <= 3)
    && (forall p <- t :: p.Child? ==> p.parent in t && p.idx < 512)
    && (forall p <- t, q <- t :: t[p] == t[q] ==> p == q)
  }

  /** An entry above the leaves is present exactly when it links a table of the tree. */
  ghost predicate EntryLinks(m: Machine, t: map<Path, nat>, p: Path, i: nat)
    requires p in t
  {
    var e := Entry(m.mem, t[p], i);
    if Child(p, i) in t then Present(e) && FlagGet(e, P_RW) && AddrGet(e) == t[Child(p, i)] else !Present(e)
  }

  ghost predicate Tree(m: Machine, t: map<Path, nat>) {
    && Tables(m, t)
    && forall p <- t, i: nat :: Depth(p) < 3 && i < 512 ==> EntryLinks(m, t, p, i)
  }

  /** The leaf entry of v, read off the tree. */
  ghost function Leaf(m: Machine, t: map<Path, nat>, v: uint64): Option<uint64> {
    if PathTo(v, 3) in t then
      var e := Entry(m.mem, t[PathTo(v, 3)], Index(v, 0));
      if Present(e) then Some(e) else None
    else
      None
  }

  lemma {:induction false} PrefixesInTree(m: Machine, t: map<Path, nat>, v: uint64, lo: nat, hi: nat)
    requires Tables(m, t) && lo <= hi && PathTo(v, hi) in t
    ensures PathTo(v, lo) in t
    decreases hi
  {
    if lo < hi {
      PrefixesInTree(m, t, v, lo, hi - 1);
    }
  }

  /** The walk through memory finds exactly the leaf of the tree. */
  lemma {:induction false} WalkFindsLeaf(m: Machine, t: map<Path, nat>, v: uint64, depth: nat)
    requires Tree(m, t) && depth <= 3 && PathTo(v, depth) in t
    ensures Walk(m.mem, t[PathTo(v, depth)], 3 - depth, v) == Leaf(m, t, v)
    decreases 3 - depth
  {
    if depth < 3 {
      var p, i := PathTo(v, depth), Index(v, 3 - depth);
      assert EntryLinks(m, t, p, i);
      assert PathTo(v, depth + 1) == Child(p, i);
      if Child(p, i) in t {
        WalkFindsLeaf(m, t, v, depth + 1);
      } else if PathTo(v, 3) in t {
        PrefixesInTree(m, t, v, depth + 1, 3);
      }
    }
  }

  lemma EntryAfterWrite(mem: Memory, frame: nat, i: nat, e: uint64, g: nat, j: nat)
    requires 512 * frame + i < |mem| && i < 512 && j < 512
    ensures Entry(Write(mem, frame, i, e), g, j) == if g == frame && j == i then e else Entry(mem, g, j)
  {
  }

  lemma EntryAfterZero(mem: Memory, frame: nat, g: nat, j: nat)
    requires j < 512
    ensures Entry(Zeroed(mem, frame), g, j) == if g == frame then 0 else Entry(mem, g, j)
  {
  }

  /** What an entry of the grown tree holds. */
  ghost predicate GrownEntries(m: Machine, t: map<Path, nat>, m': Machine, t': map<Path, nat>, p: Path, i: nat, e: uint64)
    requires p in t && t'.Keys == t.Keys + {Child(p, i)}
  {
    forall q <- t', j: nat :: j < 512 ==>
      Entry(m'.mem, t'[q], j) ==
        if q !in t then 0 else if q == p && j == i then e else Entry(m.mem, t[q], j)
  }

  lemma GrowEntries(m: Machine, t: map<Path, nat>, p: Path, i: nat, f: nat)
    requires Tables(m, t) && p in t && Depth(p) < 3 && i < 512 && Child(p, i) !in t
    requires m.frames.Window() != {} && f == m.frames.Requested() / PAGE
    ensures var t' := t[Child(p, i) := f];
            Tables(Grow(m, t[p], i), t') &&
            GrownEntries(m, t, Grow(m, t[p], i), t', p, i, Link(Entry(m.mem, t[p], i), f))
  {
    RequestTakesLeast(m.frames);
    var t' := t[Child(p, i) := f];
    var e := Link(Entry(m.mem, t[p], i), f);
    assert f !in m.frames.taken && f < m.frames.pages;
    forall q <- t', j: nat | j < 512
      ensures Entry(Grow(m, t[p], i).mem, t'[q], j) ==
              if q !in t then 0 else if q == p && j == i then e else Entry(m.mem, t[q], j)
    {
      EntryAfterWrite(Zeroed(m.mem, f), t[p], i, e, t'[q], j);
      EntryAfterZero(m.mem, f, t'[q], j);
    }
  }

  lemma GrownLinks(m: Machine, t: map<Path, nat>, m': Machine, t': map<Path, nat>, p: Path, i: nat, e: uint64)
    requires Tree(m, t) && p in t && Depth(p) < 3 && i < 512 && Child(p, i) !in t
    requires Tables(m', t') && t'.Keys == t.Keys + {Child(p, i)}
    requires forall q <- t :: t'[q] == t[q]
    requires GrownEntries(m, t, m', t', p, i, e)
    requires Present(e) && FlagGet(e, P_RW) && AddrGet(e) == t'[Child(p, i)]
    ensures Tree(m', t')
  {
    ZeroNotPresent();
    forall q <- t', j: nat | Depth(q) < 3 && j < 512
      ensures EntryLinks(m', t', q, j)
    {
      if q in t {
        assert EntryLinks(m, t, q, j);
      }
    }
  }

  lemma GrownLeaf(m: Machine, t: map<Path, nat>, m': Machine, t': map<Path, nat>, p: Path, i: nat, e: uint64, v: uint64)
    requires p in t && Depth(p) < 3 && Child(p, i) !in t
    requires t'.Keys == t.Keys + {Child(p, i)} && forall q <- t :: t'[q] == t[q]
    requires GrownEntries(m, t, m', t', p, i, e)
    ensures Leaf(m', t', v) == Leaf(m, t, v)
  {
    ZeroNotPresent();
    if PathTo(v, 3) in t' {
      assert Entry(m'.mem, t'[PathTo(v, 3)], Index(v, 0)) ==
             if PathTo(v, 3) !in t then 0 else Entry(m.mem, t[PathTo(v, 3)], Index(v, 0));
    }
  }

  /** The frame that a request gives, seen through the entry that links it. */
  lemma FreshLink(m: Machine, t: map<Path, nat>, entry: uint64) returns (f: nat)
    requires Tables(m, t) && m.frames.Window() != {}
    ensures f == m.frames.Requested() / PAGE && f < m.frames.pages && f !in m.frames.taken
    ensures |m.frames.AfterRequest().Window()| == |m.frames.Window()| - 1
    ensures Present(Link(entry, f)) && FlagGet(Link(entry, f), P_RW) && AddrGet(Link(entry, f)) == f
  {
    var next;
    f, next := RequestNarrows(m.frames);
    LinkToFrame(entry, f);
  }

  /** Growing the tree by one table: the frame is new, and no translation changes. */
  lemma GrowKeepsTree(m: Machine, t: map<Path, nat>, p: Path, i: nat) returns (t': map<Path, nat>)
    requires Tree(m, t) && p in t && Depth(p) < 3 && i < 512 && Child(p, i) !in t
    requires m.frames.Window() != {}
    ensures t' == t[Child(p, i) := m.frames.Requested() / PAGE]
    ensures Tree(Grow(m, t[p], i), t')
    ensures forall v :: Leaf(Grow(m, t[p], i), t', v) == Leaf(m, t, v)
    ensures |Grow(m, t[p], i).frames.Window()| == |m.frames.Window()| - 1
  {
    var f := FreshLink(m, t, Entry(m.mem, t[p], i));
    t' := t[Child(p, i) := f];
    GrowEntries(m, t, p, i, f);
    GrownTree(m, t, Grow(m, t[p], i), t', p, i, Link(Entry(m.mem, t[p], i), f));
  }

  lemma GrownTree(m: Machine, t: map<Path, nat>, m': Machine, t': map<Path, nat>, p: Path, i: nat, e: uint64)
    requires Tree(m, t) && p in t && Depth(p) < 3 && i < 512 && Child(p, i) !in t
    requires t' == t[Child(p, i) := AddrGet(e)] && Tables(m', t')
    requires GrownEntries(m, t, m', t', p, i, e)
    requires Present(e) && FlagGet(e, P_RW)
    ensures Tree(m', t')
    ensures forall v :: Leaf(m', t', v) == Leaf(m, t, v)
  {
    GrownLinks(m, t, m', t', p, i, e);
    forall v
      ensures Leaf(m', t', v) == Leaf(m, t, v)
    {
      GrownLeaf(m, t, m', t', p, i, e, v);
    }
  }

  // ---------- One call of the mapper ----------

  /** The tables that v needs below a depth. */
  function Needed(v: uint64, depth: nat): set<Path>
    decreases 3 - depth
  {
    if depth >= 3 then {} else {PathTo(v, depth + 1)} + Needed(v, depth + 1)
  }

  /** How many of them are missing from the tree. */
  function Missing(tables: set<Path>, v: uint64, depth: nat): nat
    decreases 3 - depth
  {
    if depth >= 3 then 0
    else (if PathTo(v, depth + 1) in tables then 0 else 1) + Missing(tables, v, depth + 1)
  }

  lemma {:induction false} MissingBelow(tables: set<Path>, c: Path, v: uint64, depth: nat)
    requires Depth(c) <= depth
    ensures Missing(tables + {c}, v, depth) == Missing(tables, v, depth)
    decreases 3 - depth
  {
    if depth < 3 {
      MissingBelow(tables, c, v, depth + 1);
    }
  }

  /** Writing the leaf entry of v: the tree stays, and only v's page changes. */
  lemma LeafWritten(m: Machine, t: map<Path, nat>, v: uint64, p: uint64)
    requires Tree(m, t) && PathTo(v, 3) in t
    ensures Tree(Install(m, t[PathTo(v, 3)], 0, v, p), t)
    ensures forall w :: Leaf(Install(m, t[PathTo(v, 3)], 0, v, p), t, w) ==
              if PathTo(w, 3) == PathTo(v, 3) && Index(w, 0) == Index(v, 0)
              then Some(Link(Entry(m.mem, t[PathTo(v, 3)], Index(v, 0)), p / PAGE)) else Leaf(m, t, w)
  {
    var q, i := PathTo(v, 3), Index(v, 0);
    var e := Link(Entry(m.mem, t[q], i), p / PAGE);
    var m' := Install(m, t[q], 0, v, p);
    LinkReads(Entry(m.mem, t[q], i), p / PAGE);
    forall r <- t, j: nat | j < 512
      ensures Entry(m'.mem, t[r], j) == if r == q && j == i then e else Entry(m.mem, t[r], j)
    {
      EntryAfterWrite(m.mem, t[q], i, e, t[r], j);
    }
    forall r <- t, j: nat | Depth(r) < 3 && j < 512
      ensures EntryLinks(m', t, r, j)
    {
      assert EntryLinks(m, t, r, j);
    }
  }

  /** v's page has the leaf entry e, and every other page translates as before. */
  ghost predicate Remapped(m: Machine, t: map<Path, nat>, m': Machine, t': map<Path, nat>, v: uint64, e: uint64) {
    forall w :: Leaf(m', t', w) ==
      if PathTo(w, 3) == PathTo(v, 3) && Index(w, 0) == Index(v, 0) then Some(e) else Leaf(m, t, w)
  }

  /** What a mapping below a depth has to do to the machine and its tree. */
  ghost predicate Installed(m: Machine, t: map<Path, nat>, m': Machine, t': map<Path, nat>, v: uint64, p: uint64, depth: nat) {
    && Tree(m', t') && |m'.mem| == |m.mem|
    && t'.Keys == t.Keys + Needed(v, depth)
    && (forall q <- t :: t'[q] == t[q])
    && m'.frames == AfterRequests(m.frames, Missing(t.Keys, v, depth))
    && PathTo(v, 3) in t'
    && Remapped(m, t, m', t', v, Link(RawLeaf(m, t, v), p / PAGE))
  }

  /** The word that the leaf entry of v held before, 0 when its table was missing. */
  ghost function RawLeaf(m: Machine, t: map<Path, nat>, v: uint64): uint64 {
    if PathTo(v, 3) in t then Entry(m.mem, t[PathTo(v, 3)], Index(v, 0)) else 0
  }

  /** The tree grew by the table c only. */
  ghost predicate GrownBy(m: Machine, t: map<Path, nat>, m1: Machine, t1: map<Path, nat>, c: Path, v: uint64) {
    && t1.Keys == t.Keys + {c} && (forall q <- t :: t1[q] == t[q])
    && m1.frames == m.frames.AfterRequest() && |m1.mem| == |m.mem|
    && (forall w :: Leaf(m1, t1, w) == Leaf(m, t, w))
    && RawLeaf(m1, t1, v) == RawLeaf(m, t, v)
  }

  /** The first missing table on v's path is grown. */
  lemma GrowStep(m: Machine, t: map<Path, nat>, v: uint64, depth: nat) returns (m1: Machine, t1: map<Path, nat>)
    requires Tree(m, t) && depth < 3 && PathTo(v, depth) in t && PathTo(v, depth + 1) !in t
    requires |m.frames.Window()| >= Missing(t.Keys, v, depth)
    ensures m1 == Grow(m, t[PathTo(v, depth)], Index(v, 3 - depth))
    ensures Tree(m1, t1) && GrownBy(m, t, m1, t1, PathTo(v, depth + 1), v)
    ensures t1[PathTo(v, depth + 1)] == m.frames.Requested() / PAGE
    ensures |m1.frames.Window()| >= Missing(t1.Keys, v, depth + 1)
  {
    var q, i := PathTo(v, depth), Index(v, 3 - depth);
    var c := PathTo(v, depth + 1);
    assert c == Child(q, i);
    m1 := Grow(m, t[q], i);
    t1 := GrowKeepsTree(m, t, q, i);
    OneMoreNeeded(t.Keys, t1.Keys, v, depth);
    RawAfterGrowth(m, t, q, i, v);
  }

  lemma RawAfterGrowth(m: Machine, t: map<Path, nat>, p: Path, i: nat, v: uint64)
    requires Tree(m, t) && p in t && Depth(p) < 3 && i < 512 && Child(p, i) !in t
    requires m.frames.Window() != {}
    ensures RawLeaf(Grow(m, t[p], i), t[Child(p, i) := m.frames.Requested() / PAGE], v) == RawLeaf(m, t, v)
  {
    GrowEntries(m, t, p, i, m.frames.Requested() / PAGE);
  }

  /** One level higher, through a table that was there already. */
  lemma InstalledBelow(m: Machine, t: map<Path, nat>, m': Machine, t': map<Path, nat>, v: uint64, p: uint64, depth: nat)
    requires depth < 3 && PathTo(v, depth + 1) in t
    requires Installed(m, t, m', t', v, p, depth + 1)
    ensures Installed(m, t, m', t', v, p, depth)
  {
  }

  /** One level higher, through a table that was grown. */
  lemma InstalledAfterGrowth(m: Machine, t: map<Path, nat>, m1: Machine, t1: map<Path, nat>,
                             m': Machine, t': map<Path, nat>, v: uint64, p: uint64, depth: nat)
    requires depth < 3 && PathTo(v, depth + 1) !in t
    requires GrownBy(m, t, m1, t1, PathTo(v, depth + 1), v)
    requires Installed(m1, t1, m', t', v, p, depth + 1)
    ensures Installed(m, t, m', t', v, p, depth)
  {
    OneMoreNeeded(t.Keys, t1.Keys, v, depth);
    assert forall q <- t :: t1[q] == t[q] && t'[q] == t1[q];
    RemappedAfterGrowth(m, t, m1, t1, m', t', v, Link(RawLeaf(m, t, v), p / PAGE));
  }

  lemma OneMoreNeeded(tables: set<Path>, grown: set<Path>, v: uint64, depth: nat)
    requires depth < 3 && PathTo(v, depth + 1) !in tables
    requires grown == tables + {PathTo(v, depth + 1)}
    ensures Missing(tables, v, depth) == Missing(grown, v, depth + 1) + 1
    ensures grown + Needed(v, depth + 1) == tables + Needed(v, depth)
  {
    MissingBelow(tables, PathTo(v, depth + 1), v, depth + 1);
  }

  lemma RemappedAfterGrowth(m: Machine, t: map<Path, nat>, m1: Machine, t1: map<Path, nat>,
                            m': Machine, t': map<Path, nat>, v: uint64, e: uint64)
    requires forall w :: Leaf(m1, t1, w) == Leaf(m, t, w)
    requires Remapped(m1, t1, m', t', v, e)
    ensures Remapped(m, t, m', t', v, e)
  {
    forall w: uint64
      ensures Leaf(m', t', w) ==
              if PathTo(w, 3) == PathTo(v, 3) && Index(w, 0) == Index(v, 0) then Some(e) else Leaf(m, t, w)
    {
      assert Leaf(m1, t1, w) == Leaf(m, t, w);
    }
  }

  /** The mapper, from any table on v's path: the tree grows by the missing tables only. */
  lemma {:induction false} InstallMaps(m: Machine, t: map<Path, nat>, v: uint64, p: uint64, depth: nat)
    returns (t': map<Path, nat>)
    requires Tree(m, t) && depth <= 3 && PathTo(v, depth) in t
    requires |m.frames.Window()| >= Missing(t.Keys, v, depth)
    ensures Installed(m, t, Install(m, t[PathTo(v, depth)], 3 - depth, v, p), t', v, p, depth)
    decreases 3 - depth, 1
  {
    if depth == 3 {
      t' := t;
      LeafWritten(m, t, v, p);
    } else if PathTo(v, depth + 1) in t {
      t' := InstallThrough(m, t, v, p, depth);
    } else {
      t' := InstallGrowing(m, t, v, p, depth);
    }
  }

  lemma {:induction false} InstallThrough(m: Machine, t: map<Path, nat>, v: uint64, p: uint64, depth: nat)
    returns (t': map<Path, nat>)
    requires Tree(m, t) && depth < 3 && PathTo(v, depth) in t && PathTo(v, depth + 1) in t
    requires |m.frames.Window()| >= Missing(t.Keys, v, depth)
    ensures Installed(m, t, Install(m, t[PathTo(v, depth)], 3 - depth, v, p), t', v, p, depth)
    decreases 3 - depth, 0
  {
    var q, c := PathTo(v, depth), PathTo(v, depth + 1);
    assert c == Child(q, Index(v, 3 - depth));
    assert EntryLinks(m, t, q, Index(v, 3 - depth));
    var m' := Install(m, t[c], 3 - depth - 1, v, p);
    t' := InstallMaps(m, t, v, p, depth + 1);
    InstalledBelow(m, t, m', t', v, p, depth);
  }

  lemma {:induction false} InstallGrowing(m: Machine, t: map<Path, nat>, v: uint64, p: uint64, depth: nat)
    returns (t': map<Path, nat>)
    requires Tree(m, t) && depth < 3 && PathTo(v, depth) in t && PathTo(v, depth + 1) !in t
    requires |m.frames.Window()| >= Missing(t.Keys, v, depth)
    ensures Installed(m, t, Install(m, t[PathTo(v, depth)], 3 - depth, v, p), t', v, p, depth)
    decreases 3 - depth, 0
  {
    var q, c := PathTo(v, depth), PathTo(v, depth + 1);
    var m1, t1 := GrowStep(m, t, v, depth);
    t' := InstallMaps(m1, t1, v, p, depth + 1);
    InstalledAfterGrowth(m, t, m1, t1, Install(m1, t1[c], 3 - depth - 1, v, p), t', v, p, depth);
    InstallOfMissing(m, t, v, p, depth);
  }

  lemma InstallOfMissing(m: Machine, t: map<Path, nat>, v: uint64, p: uint64, depth: nat)
    requires Tree(m, t) && depth < 3 && PathTo(v, depth) in t && PathTo(v, depth + 1) !in t
    ensures Install(m, t[PathTo(v, depth)], 3 - depth, v, p) ==
            Install(Grow(m, t[PathTo(v, depth)], Index(v, 3 - depth)), m.frames.Requested() / PAGE, 3 - depth - 1, v, p)
  {
    assert PathTo(v, depth + 1) == Child(PathTo(v, depth), Index(v, 3 - depth));
    assert EntryLinks(m, t, PathTo(v, depth), Index(v, 3 - depth));
  }

  // ---------- Every access of the mapper is inside memory ----------

  /** A walk from a table reads only words of memory. */
  predicate WalkInMemory(mem: Memory, frame: nat, level: nat, v: uint64)
    decreases level, frame
  {
    && 512 * frame + 512 <= |mem|
    && var e := Entry(mem, frame, Index(v, level));
       level > 0 && Present(e) ==> WalkInMemory(mem, AddrGet(e), level - 1, v)
  }

  /** A mapping below a table stays inside memory and finds a frame for every table it has to grow. */
  predicate InstallPossible(m: Machine, frame: nat, level: nat, v: uint64)
    decreases level, frame
  {
    && 512 * frame + 512 <= |m.mem|
    && var e := Entry(m.mem, frame, Index(v, level));
       level > 0 ==>
         if Present(e) then InstallPossible(m, AddrGet(e), level - 1, v)
         else
           && m.frames.Window() != {}
           && InstallPossible(Grow(m, frame, Index(v, level)), m.frames.Requested() / PAGE, level - 1, v)
  }

  /** Every table of the tree lies in memory. */
  lemma TableInMemory(m: Machine, t: map<Path, nat>, p: Path)
    requires Tables(m, t) && p in t
    ensures 512 * t[p] + 512 <= |m.mem|
  {
    assert t[p] in m.frames.taken;
  }

  lemma {:induction false} TreeInMemory(m: Machine, t: map<Path, nat>, v: uint64, depth: nat)
    requires Tree(m, t) && depth <= 3 && PathTo(v, depth) in t
    ensures WalkInMemory(m.mem, t[PathTo(v, depth)], 3 - depth, v)
    decreases 3 - depth
  {
    TableInMemory(m, t, PathTo(v, depth));
    if depth < 3 {
      EntryOnPath(m, t, v, depth);
      if PathTo(v, depth + 1) in t {
        TreeInMemory(m, t, v, depth + 1);
      }
    }
  }

  lemma {:induction false} TreeAllowsInstall(m: Machine, t: map<Path, nat>, v: uint64, depth: nat)
    requires Tree(m, t) && depth <= 3 && PathTo(v, depth) in t
    requires |m.frames.Window()| >= Missing(t.Keys, v, depth)
    ensures InstallPossible(m, t[PathTo(v, depth)], 3 - depth, v)
    decreases 3 - depth
  {
    TableInMemory(m, t, PathTo(v, depth));
    if depth < 3 {
      EntryOnPath(m, t, v, depth);
      if PathTo(v, depth + 1) in t {
        TreeAllowsInstall(m, t, v, depth + 1);
      } else {
        assert m.frames.Window() != {};
        var m1, t1 := GrowStep(m, t, v, depth);
        TreeAllowsInstall(m1, t1, v, depth + 1);
      }
    }
  }

  /** v's entry at a depth tells whether, and where, its next table is. */
  lemma EntryOnPath(m: Machine, t: map<Path, nat>, v: uint64, depth: nat)
    requires Tree(m, t) && depth < 3 && PathTo(v, depth) in t
    ensures var e := Entry(m.mem, t[PathTo(v, depth)], Index(v, 3 - depth));
            if PathTo(v, depth + 1) in t then Present(e) && AddrGet(e) == t[PathTo(v, depth + 1)] else !Present(e)
  {
    assert PathTo(v, depth + 1) == Child(PathTo(v, depth), Index(v, 3 - depth));
    assert EntryLinks(m, t, PathTo(v, depth), Index(v, 3 - depth));
  }
}
