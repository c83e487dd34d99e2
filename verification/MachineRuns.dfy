/** Whole runs of mapping and frame operations: separation, the map they build, and their cost. */
module MachineRuns {
  import opened Bits
  import opened PageEntry
  import opened FrameState
  import opened PageTables
  import opened AddressSpace
  import opened Wrappers

  datatype MachineOp =
    | MapPage(v: uint64, p: uint64)
    | FrameOp(op: Op)

  function Next(m: Machine, op: MachineOp): Machine {
    match op
    case MapPage(v, p) => Map(m, v, p)
    case FrameOp(frameOp) => m.(frames := m.frames.Step(frameOp))
  }

  function After(m: Machine, ops: seq<MachineOp>): Machine {
    if ops == [] then m else Next(After(m, ops[..|ops| - 1]), ops[|ops| - 1])
  }

  // ---------- The tree of a machine is unique ----------

  lemma {:induction false} SameTree(m: Machine, t: map<Path, nat>, u: map<Path, nat>, p: Path)
    requires Tree(m, t) && Tree(m, u) && p in t
    ensures p in u && t[p] == u[p]
    decreases p
  {
    if p.Child? {
      SameTree(m, t, u, p.parent);
      assert EntryLinks(m, t, p.parent, p.idx) && EntryLinks(m, u, p.parent, p.idx);
    }
  }

  lemma TreeIsUnique(m: Machine, t: map<Path, nat>, u: map<Path, nat>)
    requires Tree(m, t) && Tree(m, u)
    ensures t == u
  {
    forall p <- t
      ensures p in u && t[p] == u[p]
    {
      SameTree(m, t, u, p);
    }
    forall p <- u
      ensures p in t
    {
      SameTree(m, u, t, p);
    }
  }

  ghost function TreeOf(m: Machine): (t: map<Path, nat>)
    requires Separated(m)
    ensures Tree(m, t)
  {
    var t :| Tree(m, t);
    t
  }

  /** The frames of the tables reachable from the PML4. */
  ghost function TableFrames(m: Machine): set<nat> {
    if Separated(m) then TreeOf(m).Values else {}
  }

  /**
   * In a separated machine the tables are pairwise distinct in-range frames with their bits set, and
   * no two entries of them name the same table.
   */
  lemma SeparationMeans(m: Machine, p: Path, i: nat, q: Path, j: nat)
    requires Separated(m)
    requires p in TreeOf(m) && q in TreeOf(m) && i < 512 && j < 512
    ensures TreeOf(m)[p] < m.frames.pages && TreeOf(m)[p] in m.frames.taken
    ensures TreeOf(m)[p] == TreeOf(m)[q] ==> p == q
    ensures Depth(p) < 3 && Depth(q) < 3 ==>
              var e := Entry(m.mem, TreeOf(m)[p], i);
              var f := Entry(m.mem, TreeOf(m)[q], j);
              Present(e) ==>
                && AddrGet(e) in TableFrames(m) && AddrGet(e) != m.root
                && (Present(f) && AddrGet(e) == AddrGet(f) ==> p == q && i == j)
  {
    if Depth(p) < 3 && Depth(q) < 3 {
      assert EntryLinks(m, TreeOf(m), p, i) && EntryLinks(m, TreeOf(m), q, j);
    }
  }

  // ---------- Runs ----------

  /** A mapping finds its frames; a release spares the table frames. */
  ghost predicate Legal(m: Machine, op: MachineOp) {
    match op
    case MapPage(v, _) => CanMap(m, v)
    case FrameOp(frameOp) => Spares(frameOp, TableFrames(m))
  }

  ghost predicate LegalRun(m: Machine, ops: seq<MachineOp>) {
    forall i :: 0 <= i < |ops| ==> Legal(After(m, ops[..i]), ops[i])
  }

  lemma LegalFront(m: Machine, ops: seq<MachineOp>)
    requires ops != [] && LegalRun(m, ops)
    ensures LegalRun(m, ops[..|ops| - 1]) && Legal(After(m, ops[..|ops| - 1]), ops[|ops| - 1])
  {
    var front := ops[..|ops| - 1];
    forall i | 0 <= i < |front|
      ensures Legal(After(m, front[..i]), front[i])
    {
      assert front[..i] == ops[..i];
    }
  }

  lemma FrameOpKeepsTree(m: Machine, t: map<Path, nat>, op: Op)
    requires Tree(m, t) && Spares(op, t.Values)
    ensures Tree(m.(frames := m.frames.Step(op)), t)
  {
    var m' := m.(frames := m.frames.Step(op));
    StepKeepsValid(m.frames, op);
    forall p <- t
      ensures t[p] in m'.frames.taken
    {
      assert t[p] in t.Values;
    }
    forall p <- t, i: nat | Depth(p) < 3 && i < 512
      ensures EntryLinks(m', t, p, i)
    {
      assert EntryLinks(m, t, p, i);
    }
  }

  lemma StepKeepsValid(s: State, op: Op)
    requires s.Valid()
    ensures s.Step(op).Valid() && s.Step(op).pages == s.pages
  {
  }

  /** The page that w has after a run, given the one it had before: the last mapping of its page wins. */
  function Mapped(before: Option<uint64>, ops: seq<MachineOp>, w: uint64): Option<uint64> {
    if ops == [] then before
    else
      var last := ops[|ops| - 1];
      if last.MapPage? && SamePage(last.v, w) then Some(PageBase(last.p))
      else Mapped(before, ops[..|ops| - 1], w)
  }

  /**
   * Every legal interleaving of mappings and allocator operations keeps the separation, and
   * translates as the finite map that records the mappings.
   */
  lemma {:induction false} RunRefines(m: Machine, ops: seq<MachineOp>)
    requires Separated(m) && LegalRun(m, ops)
    ensures Separated(After(m, ops)) && After(m, ops).root == m.root
    ensures forall w :: Translate(After(m, ops), w) == Mapped(Translate(m, w), ops, w)
    decreases |ops|
  {
    if ops != [] {
      var front, last := ops[..|ops| - 1], ops[|ops| - 1];
      LegalFront(m, ops);
      RunRefines(m, front);
      var before := After(m, front);
      StepRefines(before, last);
    }
  }

  lemma {:induction false} InstallKeepsRoot(m: Machine, frame: nat, level: nat, v: uint64, p: uint64)
    ensures Install(m, frame, level, v, p).root == m.root
    ensures Install(m, frame, level, v, p).frames.total == m.frames.total
    ensures Install(m, frame, level, v, p).frames.pages == m.frames.pages
    decreases level
  {
    if level > 0 {
      var i := Index(v, level);
      var e := Entry(m.mem, frame, i);
      if Present(e) {
        InstallKeepsRoot(m, AddrGet(e), level - 1, v, p);
      } else {
        InstallKeepsRoot(Grow(m, frame, i), m.frames.Requested() / PAGE, level - 1, v, p);
      }
    }
  }

  lemma StepRefines(m: Machine, op: MachineOp)
    requires Separated(m) && Legal(m, op)
    ensures Separated(Next(m, op)) && Next(m, op).root == m.root
    ensures forall w :: Translate(Next(m, op), w) ==
              if op.MapPage? && SamePage(op.v, w) then Some(PageBase(op.p)) else Translate(m, w)
  {
    match op
    case MapPage(v, p) =>
      MapRefines(m, v, p);
      InstallKeepsRoot(m, m.root, 3, v, p);
    case FrameOp(frameOp) =>
      FrameOpKeepsTree(m, TreeOf(m), frameOp);
  }

  // ---------- What a run costs ----------

  /** The tables that the mappings of a run need. */
  function TablesFor(ops: seq<MachineOp>): set<Path> {
    if ops == [] then {}
    else
      TablesFor(ops[..|ops| - 1]) + (if ops[|ops| - 1].MapPage? then Needed(ops[|ops| - 1].v, 0) else {})
  }

  /** The frames that the mappings of a run request. */
  function FramesTaken(m: Machine, ops: seq<MachineOp>): nat {
    if ops == [] then 0
    else
      var before, last := After(m, ops[..|ops| - 1]), ops[|ops| - 1];
      FramesTaken(m, ops[..|ops| - 1]) +
      (if last.MapPage? then Shortfall(before.mem, before.root, 3, last.v) else 0)
  }

  lemma NeededStep(tables: set<Path>, v: uint64, depth: nat)
    requires depth < 3
    ensures var grown := tables + {PathTo(v, depth + 1)};
            && grown + Needed(v, depth + 1) == tables + Needed(v, depth)
            && |grown| == |tables| + (if PathTo(v, depth + 1) in tables then 0 else 1)
  {
    var c := PathTo(v, depth + 1);
    UnionAssociates(tables, {c}, Needed(v, depth + 1));
    if c in tables {
      assert tables + {c} == tables;
    }
  }

  lemma {:induction false} NeededSize(tables: set<Path>, v: uint64, depth: nat)
    requires depth <= 3
    ensures |tables + Needed(v, depth)| == |tables| + Missing(tables, v, depth)
    decreases 3 - depth
  {
    if depth == 3 {
      assert tables + {} == tables;
    } else {
      var c := PathTo(v, depth + 1);
      NeededStep(tables, v, depth);
      NeededSize(tables + {c}, v, depth + 1);
      MissingBelow(tables, c, v, depth + 1);
    }
  }

  lemma StepGrowsTables(m: Machine, op: MachineOp)
    requires Separated(m) && Legal(m, op)
    ensures Separated(Next(m, op))
    ensures TreeOf(Next(m, op)).Keys == TreeOf(m).Keys + (if op.MapPage? then Needed(op.v, 0) else {})
    ensures |TreeOf(Next(m, op)).Keys| ==
            |TreeOf(m).Keys| + (if op.MapPage? then Shortfall(m.mem, m.root, 3, op.v) else 0)
  {
    StepRefines(m, op);
    var t := TreeOf(m);
    match op
    case MapPage(v, p) =>
      var t' := MapInstalls(m, t, v, p);
      TreeIsUnique(Map(m, v, p), t', TreeOf(Map(m, v, p)));
      ShortfallIsMissing(m, t, v, 0);
      NeededSize(t.Keys, v, 0);
    case FrameOp(frameOp) =>
      FrameOpKeepsTree(m, t, frameOp);
      TreeIsUnique(Next(m, op), t, TreeOf(Next(m, op)));
  }

  lemma {:induction false} RunGrowsTables(m: Machine, ops: seq<MachineOp>)
    requires Separated(m) && LegalRun(m, ops)
    ensures Separated(After(m, ops))
    ensures TreeOf(After(m, ops)).Keys == TreeOf(m).Keys + TablesFor(ops)
    ensures |TreeOf(After(m, ops)).Keys| == |TreeOf(m).Keys| + FramesTaken(m, ops)
    decreases |ops|
  {
    if ops != [] {
      var front, last := ops[..|ops| - 1], ops[|ops| - 1];
      LegalFront(m, ops);
      RunGrowsTables(m, front);
      var before := After(m, front);
      StepGrowsTables(before, last);
      var needed := if last.MapPage? then Needed(last.v, 0) else {};
      UnionAssociates(TreeOf(m).Keys, TablesFor(front), needed);
      assert TablesFor(ops) == TablesFor(front) + needed;
    }
  }

  lemma UnionAssociates(a: set<Path>, b: set<Path>, c: set<Path>)
    ensures (a + b) + c == a + (b + c)
  {
  }

  /** The distinct prefixes, at one depth, of the addresses that a run maps. */
  function Prefixes(ops: seq<MachineOp>, depth: nat): set<nat>
    requires 1 <= depth <= 3
  {
    set op <- ops | op.MapPage? :: Prefix(op.v, depth)
  }

  function PathsAt(ops: seq<MachineOp>, depth: nat): set<Path>
    requires 1 <= depth <= 3
  {
    set op <- ops | op.MapPage? :: PathTo(op.v, depth)
  }

  lemma SizesGrowTogether<A, B>(a: set<A>, b: set<B>, x: A, y: B)
    requires |a| == |b| && (x in a <==> y in b)
    ensures |a + {x}| == |b + {y}|
  {
    if x in a {
      assert a + {x} == a && b + {y} == b;
    }
  }

  lemma SamePathSamePrefix(ops: seq<MachineOp>, v: uint64, depth: nat)
    requires 1 <= depth <= 3
    ensures PathTo(v, depth) in PathsAt(ops, depth) <==> Prefix(v, depth) in Prefixes(ops, depth)
  {
    forall op <- ops | op.MapPage?
      ensures PathTo(op.v, depth) == PathTo(v, depth) <==> Prefix(op.v, depth) == Prefix(v, depth)
    {
      SameTable(op.v, v, depth);
    }
  }

  lemma {:induction false} AsManyPathsAsPrefixes(ops: seq<MachineOp>, depth: nat)
    requires 1 <= depth <= 3
    ensures |PathsAt(ops, depth)| == |Prefixes(ops, depth)|
    decreases |ops|
  {
    if ops != [] {
      var front, last := ops[..|ops| - 1], ops[|ops| - 1];
      AsManyPathsAsPrefixes(front, depth);
      SetsOfLast(front, last, depth);
      assert ops == front + [last];
      if last.MapPage? {
        SamePathSamePrefix(front, last.v, depth);
        SizesGrowTogether(PathsAt(front, depth), Prefixes(front, depth), PathTo(last.v, depth), Prefix(last.v, depth));
      }
    }
  }

  lemma SetsOfLast(front: seq<MachineOp>, last: MachineOp, depth: nat)
    requires 1 <= depth <= 3
    ensures PathsAt(front + [last], depth) ==
            PathsAt(front, depth) + (if last.MapPage? then {PathTo(last.v, depth)} else {})
    ensures Prefixes(front + [last], depth) ==
            Prefixes(front, depth) + (if last.MapPage? then {Prefix(last.v, depth)} else {})
  {
  }

  lemma {:induction false} TablesByDepth(ops: seq<MachineOp>)
    ensures TablesFor(ops) == PathsAt(ops, 1) + PathsAt(ops, 2) + PathsAt(ops, 3)
    decreases |ops|
  {
    if ops != [] {
      var front, last := ops[..|ops| - 1], ops[|ops| - 1];
      assert ops == front + [last];
      TablesByDepth(front);
      SetsOfLast(front, last, 1);
      SetsOfLast(front, last, 2);
      SetsOfLast(front, last, 3);
      if last.MapPage? {
        NeededIs(last.v);
        UnionsGrow(PathsAt(front, 1), PathsAt(front, 2), PathsAt(front, 3), PathTo(last.v, 1), PathTo(last.v, 2), PathTo(last.v, 3));
      } else {
        assert TablesFor(front) + {} == TablesFor(front);
      }
    }
  }

  lemma UnionsGrow(a: set<Path>, b: set<Path>, c: set<Path>, x: Path, y: Path, z: Path)
    ensures (a + b + c) + {x, y, z} == (a + {x}) + (b + {y}) + (c + {z})
  {
  }

  lemma NeededIs(v: uint64)
    ensures Needed(v, 0) == {PathTo(v, 1), PathTo(v, 2), PathTo(v, 3)}
  {
    assert Needed(v, 2) == {PathTo(v, 3)};
    assert Needed(v, 1) == {PathTo(v, 2)} + Needed(v, 2);
  }

  lemma RootAndThreeLevels(ops: seq<MachineOp>)
    ensures |{Root} + (PathsAt(ops, 1) + PathsAt(ops, 2) + PathsAt(ops, 3))| ==
            1 + |PathsAt(ops, 1)| + |PathsAt(ops, 2)| + |PathsAt(ops, 3)|
  {
    var a, b, c := PathsAt(ops, 1), PathsAt(ops, 2), PathsAt(ops, 3);
    assert forall p <- a :: Depth(p) == 1;
    assert forall p <- b :: Depth(p) == 2;
    assert forall p <- c :: Depth(p) == 3;
    var r: set<Path> := {Root};
    assert Depth(Root) == 0;
    assert r !! a && r + a !! b && r + a + b !! c;
    assert r + (a + b + c) == r + a + b + c;
  }

  /**
   * Exact cost: from an empty PML4, the frames requested by the mappings of a run are one for every
   * distinct v >> 39, one for every distinct v >> 30 and one for every distinct v >> 21.
   */
  lemma ExactCost(m: Machine, ops: seq<MachineOp>)
    requires Separated(m) && TreeOf(m).Keys == {Root} && LegalRun(m, ops)
    ensures FramesTaken(m, ops) == |Prefixes(ops, 1)| + |Prefixes(ops, 2)| + |Prefixes(ops, 3)|
  {
    RunGrowsTables(m, ops);
    TablesByDepth(ops);
    RootAndThreeLevels(ops);
    AsManyPathsAsPrefixes(ops, 1);
    AsManyPathsAsPrefixes(ops, 2);
    AsManyPathsAsPrefixes(ops, 3);
  }

  /** Mapping the same pages again costs nothing. */
  lemma RemapIsFree(m: Machine, ops: seq<MachineOp>, v: uint64, p: uint64)
    requires Separated(m) && LegalRun(m, ops)
    requires exists op <- ops :: op.MapPage? && Prefix(op.v, 3) == Prefix(v, 3)
    ensures Map(After(m, ops), v, p).frames == After(m, ops).frames
  {
    RunGrowsTables(m, ops);
    TablesByDepth(ops);
    var m1 := After(m, ops);
    var op :| op in ops && op.MapPage? && Prefix(op.v, 3) == Prefix(v, 3);
    SameTable(op.v, v, 3);
    assert PathTo(op.v, 3) in PathsAt(ops, 3);
    var t := TreeOf(m1);
    PrefixesInTree(m1, t, v, 1, 3);
    PrefixesInTree(m1, t, v, 2, 3);
    assert Missing(t.Keys, v, 2) == 0;
    assert Missing(t.Keys, v, 1) == 0;
    assert Missing(t.Keys, v, 0) == 0;
    ShortfallIsMissing(m1, t, v, 0);
    var t' := MapInstalls(m1, t, v, p);
  }

  // ---------- The counters ----------

  /** t has k pages more in mem_used than s and k fewer in mem_free, modulo 2^64, and as many reserved. */
  predicate ChargedBy(s: State, t: State, k: nat) {
    t.used == PageAt(s.used, k) && t.rsvd == s.rsvd && t.free == PageBefore(s.free, k)
  }

  /** The value k pages below, in uint64_t arithmetic. */
  function PageBefore(free: uint64, k: nat): uint64 {
    Wrap64(free - PAGE * k)
  }

  lemma ChargeAgain(s: State, t: State, u: State, j: nat, k: nat)
    requires ChargedBy(s, t, j) && ChargedBy(t, u, k)
    ensures ChargedBy(s, u, j + k)
  {
    WrapSum(s.used + PAGE * j, PAGE * k);
    WrapSum(s.free - PAGE * j, -PAGE * k);
  }

  lemma OneRequestCharges(s: State)
    requires s.Valid() && s.Window() != {}
    ensures ChargedBy(s, s.AfterRequest(), 1)
  {
    RequestTakesLeast(s);
  }

  /** k requests move k pages from free to used. */
  lemma {:induction false} RequestsCharge(s: State, k: nat)
    requires s.Valid() && k <= |s.Window()|
    ensures ChargedBy(s, AfterRequests(s, k), k)
    decreases k
  {
    if k > 0 {
      var f, next := RequestNarrows(s);
      OneRequestCharges(s);
      RequestsCharge(next, k - 1);
      ChargeAgain(s, next, AfterRequests(next, k - 1), 1, k - 1);
    }
  }

  lemma MapCharges(m: Machine, v: uint64, p: uint64)
    requires Separated(m) && CanMap(m, v)
    ensures ChargedBy(m.frames, Map(m, v, p).frames, Shortfall(m.mem, m.root, 3, v))
  {
    var t := TreeOf(m);
    var t' := MapInstalls(m, t, v, p);
    ShortfallIsMissing(m, t, v, 0);
    RequestsCharge(m.frames, Missing(t.Keys, v, 0));
  }

  lemma StaysSeparated(m: Machine, ops: seq<MachineOp>)
    requires Separated(m) && LegalRun(m, ops)
    ensures Separated(After(m, ops))
  {
    RunRefines(m, ops);
  }

  lemma StepCharges(s: State, before: Machine, op: MachineOp, j: nat, total: nat, after: Machine)
    requires Separated(before) && Legal(before, op) && op.MapPage?
    requires ChargedBy(s, before.frames, j)
    requires after == Next(before, op) && total == j + Shortfall(before.mem, before.root, 3, op.v)
    ensures ChargedBy(s, after.frames, total)
  {
    MapCharges(before, op.v, op.p);
    ChargeAgain(s, before.frames, after.frames, j, Shortfall(before.mem, before.root, 3, op.v));
  }

  /** A run of mappings moves exactly 4096 times the frames it requested from mem_free to mem_used. */
  lemma {:induction false} MappingsCharge(m: Machine, ops: seq<MachineOp>)
    requires Separated(m) && LegalRun(m, ops) && forall op <- ops :: op.MapPage?
    ensures ChargedBy(m.frames, After(m, ops).frames, FramesTaken(m, ops))
    decreases |ops|
  {
    if ops != [] {
      var front, last := ops[..|ops| - 1], ops[|ops| - 1];
      LegalFront(m, ops);
      MappingsCharge(m, front);
      StaysSeparated(m, front);
      assert last in ops;
      StepCharges(m.frames, After(m, front), last, FramesTaken(m, front), FramesTaken(m, ops), After(m, ops));
    }
  }

  // ---------- Enough frames ----------

  /** The tables that a run of mappings costs from an empty PML4. */
  function Cost(ops: seq<MachineOp>): nat {
    |Prefixes(ops, 1)| + |Prefixes(ops, 2)| + |Prefixes(ops, 3)|
  }

  lemma CostIsTables(ops: seq<MachineOp>)
    ensures |{Root} + TablesFor(ops)| == 1 + Cost(ops)
  {
    TablesByDepth(ops);
    RootAndThreeLevels(ops);
    AsManyPathsAsPrefixes(ops, 1);
    AsManyPathsAsPrefixes(ops, 2);
    AsManyPathsAsPrefixes(ops, 3);
  }

  lemma CostGrows(ops: seq<MachineOp>, i: nat)
    requires i <= |ops|
    ensures Cost(ops[..i]) <= Cost(ops)
  {
    forall d | 1 <= d <= 3
      ensures |Prefixes(ops[..i], d)| <= |Prefixes(ops, d)|
    {
      assert Prefixes(ops[..i], d) <= Prefixes(ops, d);
      SubsetSize(Prefixes(ops[..i], d), Prefixes(ops, d));
    }
  }

  lemma SubsetSize<T>(a: set<T>, b: set<T>)
    requires a <= b
    ensures |a| <= |b|
  {
    assert |b| == |a| + |b - a| by {
      assert a + (b - a) == b;
    }
  }

  lemma MapNarrowsWindow(m: Machine, v: uint64, p: uint64)
    requires Separated(m) && CanMap(m, v)
    ensures |Map(m, v, p).frames.Window()| == |m.frames.Window()| - Shortfall(m.mem, m.root, 3, v)
  {
    var t := TreeOf(m);
    var t' := MapInstalls(m, t, v, p);
    ShortfallIsMissing(m, t, v, 0);
    RequestsRemove(m.frames, Missing(t.Keys, v, 0));
  }

  /** The next mapping of a run finds its frames when the whole run's cost is in the window. */
  lemma NextCanMap(m: Machine, front: seq<MachineOp>, op: MachineOp)
    requires Separated(m) && TreeOf(m).Keys == {Root} && LegalRun(m, front) && op.MapPage?
    requires |After(m, front).frames.Window()| == |m.frames.Window()| - Cost(front)
    requires Cost(front + [op]) <= |m.frames.Window()|
    ensures CanMap(After(m, front), op.v)
    ensures Shortfall(After(m, front).mem, After(m, front).root, 3, op.v) == Cost(front + [op]) - Cost(front)
  {
    RunGrowsTables(m, front);
    StaysSeparated(m, front);
    var before := After(m, front);
    var t := TreeOf(before);
    ShortfallIsMissing(before, t, op.v, 0);
    NeededSize(t.Keys, op.v, 0);
    assert (front + [op])[..|front|] == front;
    UnionAssociates({Root}, TablesFor(front), Needed(op.v, 0));
    CostIsTables(front);
    CostIsTables(front + [op]);
  }

  /** From an empty PML4, a run of mappings is possible when the window holds its exact cost. */
  lemma {:induction false} EnoughFrames(m: Machine, ops: seq<MachineOp>)
    requires Separated(m) && TreeOf(m).Keys == {Root} && forall op <- ops :: op.MapPage?
    requires Cost(ops) <= |m.frames.Window()|
    ensures LegalRun(m, ops)
    ensures |After(m, ops).frames.Window()| == |m.frames.Window()| - Cost(ops)
    decreases |ops|
  {
    if ops != [] {
      var front, last := ops[..|ops| - 1], ops[|ops| - 1];
      assert ops == front + [last] && last in ops;
      CostGrows(ops, |ops| - 1);
      EnoughFrames(m, front);
      NextCanMap(m, front, last);
      StaysSeparated(m, front);
      MapNarrowsWindow(After(m, front), last.v, last.p);
      LegalSnoc(m, front, last);
    }
  }

  lemma LegalSnoc(m: Machine, front: seq<MachineOp>, last: MachineOp)
    requires LegalRun(m, front) && Legal(After(m, front), last)
    ensures LegalRun(m, front + [last])
  {
    var ops := front + [last];
    forall i | 0 <= i < |ops|
      ensures Legal(After(m, ops[..i]), ops[i])
    {
      if i < |front| {
        assert ops[..i] == front[..i];
      } else {
        assert ops[..i] == front;
      }
    }
  }

  // ---------- What the mapper never writes ----------

  /** The words of the frames keep are the same in both memories. */
  ghost predicate SameFrames(mem: Memory, mem': Memory, keep: set<nat>) {
    forall g <- keep, j: nat :: j < 512 ==> Entry(mem', g, j) == Entry(mem, g, j)
  }

  /** Frames that a request cannot return: each is taken or past the range. */
  ghost predicate Kept(s: State, keep: set<nat>) {
    forall g <- keep :: g in s.taken || g >= s.pages
  }

  /** Those in range, which alone have a bit that a release could clear. */
  function Below(keep: set<nat>, pages: nat): set<nat> {
    set g | g in keep && g < pages
  }

  lemma {:induction false} RunKeepsPages(m: Machine, ops: seq<MachineOp>)
    ensures After(m, ops).frames.pages == m.frames.pages
    decreases |ops|
  {
    if ops != [] {
      var before, last := After(m, ops[..|ops| - 1]), ops[|ops| - 1];
      RunKeepsPages(m, ops[..|ops| - 1]);
      if last.MapPage? {
        InstallKeepsRoot(before, before.root, 3, last.v, last.p);
      }
    }
  }

  /** The mapper never writes a kept frame that is not one of its tables, or makes a table of it. */
  lemma {:induction false} InstallSpares(m: Machine, t: map<Path, nat>, v: uint64, p: uint64, depth: nat, keep: set<nat>)
    returns (t': map<Path, nat>)
    requires Tree(m, t) && depth <= 3 && PathTo(v, depth) in t
    requires |m.frames.Window()| >= Missing(t.Keys, v, depth)
    requires Kept(m.frames, keep) && keep !! t.Values
    ensures Spared(m, Install(m, t[PathTo(v, depth)], 3 - depth, v, p), t', keep)
    decreases 3 - depth, 1
  {
    if depth == 3 {
      t' := t;
      LeafWritten(m, t, v, p);
      TableInMemory(m, t, PathTo(v, 3));
      LeafSpares(m, t[PathTo(v, 3)], v, p, keep);
    } else {
      EntryOnPath(m, t, v, depth);
      if PathTo(v, depth + 1) in t {
        t' := InstallSpares(m, t, v, p, depth + 1, keep);
      } else {
        t' := InstallGrowingSpares(m, t, v, p, depth, keep);
      }
    }
  }

  lemma {:induction false} InstallGrowingSpares(m: Machine, t: map<Path, nat>, v: uint64, p: uint64, depth: nat, keep: set<nat>)
    returns (t': map<Path, nat>)
    requires Tree(m, t) && depth < 3 && PathTo(v, depth) in t && PathTo(v, depth + 1) !in t
    requires |m.frames.Window()| >= Missing(t.Keys, v, depth)
    requires Kept(m.frames, keep) && keep !! t.Values
    ensures Spared(m, Install(m, t[PathTo(v, depth)], 3 - depth, v, p), t', keep)
    decreases 3 - depth, 0
  {
    var m1, t1 := GrowStepSpares(m, t, v, p, depth, keep);
    t' := InstallSpares(m1, t1, v, p, depth + 1, keep);
    SparedThrough(m, m1, Install(m, t[PathTo(v, depth)], 3 - depth, v, p), t', keep);
  }

  lemma GrowStepSpares(m: Machine, t: map<Path, nat>, v: uint64, p: uint64, depth: nat, keep: set<nat>)
    returns (m1: Machine, t1: map<Path, nat>)
    requires Tree(m, t) && depth < 3 && PathTo(v, depth) in t && PathTo(v, depth + 1) !in t
    requires |m.frames.Window()| >= Missing(t.Keys, v, depth)
    requires Kept(m.frames, keep) && keep !! t.Values
    ensures Tree(m1, t1) && PathTo(v, depth + 1) in t1 && |m1.frames.Window()| >= Missing(t1.Keys, v, depth + 1)
    ensures Kept(m1.frames, keep) && keep !! t1.Values && SameFrames(m.mem, m1.mem, keep)
    ensures Install(m, t[PathTo(v, depth)], 3 - depth, v, p) ==
            Install(m1, t1[PathTo(v, depth + 1)], 3 - (depth + 1), v, p)
  {
    m1, t1 := GrowStep(m, t, v, depth);
    GrowSpares(m, t, PathTo(v, depth), Index(v, 3 - depth), keep);
    assert t1 == t[PathTo(v, depth + 1) := m.frames.Requested() / PAGE];
    InstallOfMissing(m, t, v, p, depth);
  }

  lemma SparedThrough(m: Machine, m1: Machine, m2: Machine, t': map<Path, nat>, keep: set<nat>)
    requires SameFrames(m.mem, m1.mem, keep) && Spared(m1, m2, t', keep)
    ensures Spared(m, m2, t', keep)
  {
    SameFramesTwice(m.mem, m1.mem, m2.mem, keep);
  }

  /** keep stays kept, outside the tree, and word for word as it was. */
  ghost predicate Spared(m: Machine, m': Machine, t': map<Path, nat>, keep: set<nat>) {
    && Tree(m', t') && keep !! t'.Values && Kept(m'.frames, keep) && SameFrames(m.mem, m'.mem, keep)
  }

  lemma LeafSpares(m: Machine, pt: nat, v: uint64, p: uint64, keep: set<nat>)
    requires 512 * pt + 512 <= |m.mem| && pt !in keep
    ensures SameFrames(m.mem, Install(m, pt, 0, v, p).mem, keep)
  {
    forall g <- keep, j: nat | j < 512
      ensures Entry(Install(m, pt, 0, v, p).mem, g, j) == Entry(m.mem, g, j)
    {
      EntryAfterWrite(m.mem, pt, Index(v, 0), Link(Entry(m.mem, pt, Index(v, 0)), p / PAGE), g, j);
    }
  }

  lemma GrowSpares(m: Machine, t: map<Path, nat>, q: Path, i: nat, keep: set<nat>)
    requires Tree(m, t) && q in t && i < 512 && m.frames.Window() != {}
    requires Kept(m.frames, keep) && keep !! t.Values
    ensures SameFrames(m.mem, Grow(m, t[q], i).mem, keep)
    ensures Kept(m.frames.AfterRequest(), keep)
    ensures m.frames.Requested() / PAGE !in keep
  {
    TableInMemory(m, t, q);
    assert t[q] in t.Values;
    var f, next := RequestNarrows(m.frames);
    var e := Link(Entry(m.mem, t[q], i), f);
    forall g <- keep, j: nat | j < 512
      ensures Entry(Grow(m, t[q], i).mem, g, j) == Entry(m.mem, g, j)
    {
      EntryAfterWrite(Zeroed(m.mem, f), t[q], i, e, g, j);
      EntryAfterZero(m.mem, f, g, j);
    }
  }

  lemma StepSpares(m: Machine, op: MachineOp, keep: set<nat>)
    requires Separated(m) && Legal(m, op) && Kept(m.frames, keep) && keep !! TableFrames(m)
    requires op.FrameOp? ==> Spares(op.op, Below(keep, m.frames.pages))
    ensures Separated(Next(m, op)) && Spared(m, Next(m, op), TreeOf(Next(m, op)), keep)
  {
    var t := TreeOf(m);
    match op
    case MapPage(v, p) =>
      ShortfallIsMissing(m, t, v, 0);
      var t' := InstallSpares(m, t, v, p, 0, keep);
      TreeIsUnique(Map(m, v, p), t', TreeOf(Map(m, v, p)));
    case FrameOp(frameOp) =>
      FrameOpKeepsTree(m, t, frameOp);
      TreeIsUnique(Next(m, op), t, TreeOf(Next(m, op)));
      KeptTaken(m.frames, frameOp, keep);
  }

  lemma KeptTaken(s: State, op: Op, keep: set<nat>)
    requires s.Valid() && Kept(s, keep) && Spares(op, Below(keep, s.pages))
    ensures Kept(s.Step(op), keep)
  {
  }

  /**
   * Frames that are taken or past the range, are no tables and are never released: through every
   * legal run they stay so, and no mapping writes a word of them. With the bitmap's storage for keep
   * this is why the mapper cannot damage the bitmap.
   */
  lemma {:induction false} RunSpares(m: Machine, ops: seq<MachineOp>, keep: set<nat>)
    requires Separated(m) && LegalRun(m, ops) && Kept(m.frames, keep) && keep !! TableFrames(m)
    requires forall op <- ops :: op.FrameOp? ==> Spares(op.op, Below(keep, m.frames.pages))
    ensures Separated(After(m, ops)) && Spared(m, After(m, ops), TreeOf(After(m, ops)), keep)
    decreases |ops|
  {
    if ops != [] {
      var front, last := ops[..|ops| - 1], ops[|ops| - 1];
      LegalFront(m, ops);
      RunSpares(m, front, keep);
      assert last in ops;
      RunKeepsPages(m, front);
      StepSpares(After(m, front), last, keep);
      SameFramesTwice(m.mem, After(m, front).mem, After(m, ops).mem, keep);
    }
  }

  lemma SameFramesTwice(a: Memory, b: Memory, c: Memory, keep: set<nat>)
    requires SameFrames(a, b, keep) && SameFrames(b, c, keep)
    ensures SameFrames(a, c, keep)
  {
  }
}
