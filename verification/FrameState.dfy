/**
 * The physical frame allocator as a state machine: which frames are taken, the four counters and
 * the hint from which the next search starts. Every theorem is about all runs of its operations.
 */
module FrameState {
  import opened Bits

  const PAGE := 4096

  /** The operations on the allocator; Hint is the assignment to last_hit that ends a range release. */
  datatype Op =
    | Lck(addr: uint64)
    | Ulck(addr: uint64)
    | Rsv(addr: uint64)
    | Ursv(addr: uint64)
    | Hint(index: uint64)
    | Request

  /**
   * pages is _max_index + 1, and taken the set of in-range frames whose bit is set. A frame
   * outside the range reads as clear, so it is never in taken.
   */
  datatype State = State(
    pages: nat,
    taken: set<nat>,
    used: uint64,
    rsvd: uint64,
    free: uint64,
    total: uint64,
    lastHit: uint64)
  {
    ghost predicate Valid() {
      && 0 < pages
      && pages * PAGE < UINT64_LIMIT
      && forall i <- taken :: i < pages
    }

    /** The number of bitmap words; the last one always holds a padding bit. */
    function Words(): nat {
      pages / 32 + 1
    }

    /** Where a search starts: the first frame of the word that holds last_hit. */
    function Start(): nat {
      lastHit / 32 * 32
    }

    function Take(index: nat): set<nat> {
      if index < pages then taken + {index} else taken
    }

    function AfterLck(addr: uint64): State {
      var index := addr / PAGE;
      if index in taken then this
      else this.(taken := Take(index), used := Wrap64(used + PAGE), free := Wrap64(free - PAGE))
    }

    function AfterRsv(addr: uint64): State {
      var index := addr / PAGE;
      if index in taken then this
      else this.(taken := Take(index), rsvd := Wrap64(rsvd + PAGE), free := Wrap64(free - PAGE))
    }

    function AfterUlck(addr: uint64): State {
      var index := addr / PAGE;
      if index !in taken then this
      else this.(taken := taken - {index}, used := Wrap64(used - PAGE), free := Wrap64(free + PAGE), lastHit := index)
    }

    function AfterUrsv(addr: uint64): State {
      var index := addr / PAGE;
      if index !in taken then this
      else this.(taken := taken - {index}, rsvd := Wrap64(rsvd - PAGE), free := Wrap64(free + PAGE), lastHit := index)
    }

    /** The address that ppa_request returns. */
    function Requested(): uint64 {
      if lastHit / 32 < Words() then Wrap64(NextClear(taken, Start(), pages) * PAGE) else 0
    }

    function AfterRequest(): State {
      if lastHit / 32 < Words() then
        this.(lastHit := Requested() / PAGE).AfterLck(Requested())
      else
        this
    }

    function Step(op: Op): State {
      match op
      case Lck(addr) => AfterLck(addr)
      case Ulck(addr) => AfterUlck(addr)
      case Rsv(addr) => AfterRsv(addr)
      case Ursv(addr) => AfterUrsv(addr)
      case Hint(index) => this.(lastHit := index)
      case Request => AfterRequest()
    }

    function Run(ops: seq<Op>): State {
      if ops == [] then this else Run(ops[..|ops| - 1]).Step(ops[|ops| - 1])
    }

    /** The clear in-range frames that a search can still reach. */
    function Window(): (w: set<nat>)
      ensures forall i :: i in w <==> Start() <= i < pages && i !in taken
    {
      set i: nat | Start() <= i < pages && i !in taken
    }
  }

  /** The first index from lo on that is clear, or hi when there is none below hi. */
  function NextClear(taken: set<nat>, lo: nat, hi: nat): nat
    decreases hi - lo
  {
    if lo >= hi then hi
    else if lo !in taken then lo
    else NextClear(taken, lo + 1, hi)
  }

  lemma {:induction false} NextClearIsLeast(taken: set<nat>, lo: nat, hi: nat)
    requires lo <= hi
    ensures lo <= NextClear(taken, lo, hi) <= hi
    ensures forall i :: lo <= i < NextClear(taken, lo, hi) ==> i in taken
    ensures NextClear(taken, lo, hi) < hi ==> NextClear(taken, lo, hi) !in taken
    decreases hi - lo
  {
    if lo < hi && lo in taken {
      NextClearIsLeast(taken, lo + 1, hi);
    }
  }

  /** The address of the i-th page from addr on, in uint64_t arithmetic. */
  function PageAt(addr: uint64, i: nat): uint64 {
    Wrap64(addr + PAGE * i)
  }

  /** The operations behind the range forms ppa_lckn, ppa_ulckn, ppa_rsvn and ppa_ursvn. */
  function LckRange(addr: uint64, n: nat): (ops: seq<Op>)
    ensures |ops| == n
  {
    seq(n, i requires 0 <= i => Lck(PageAt(addr, i)))
  }

  function UlckRange(addr: uint64, n: nat): (ops: seq<Op>)
    ensures |ops| == n
  {
    seq(n, i requires 0 <= i => Ulck(PageAt(addr, i)))
  }

  function RsvRange(addr: uint64, n: nat): (ops: seq<Op>)
    ensures |ops| == n
  {
    seq(n, i requires 0 <= i => Rsv(PageAt(addr, i)))
  }

  function UrsvRange(addr: uint64, n: nat): (ops: seq<Op>)
    ensures |ops| == n
  {
    seq(n, i requires 0 <= i => Ursv(PageAt(addr, i)))
  }

  function Lckn(addr: uint64, n: nat): seq<Op> { LckRange(addr, n) }

  function Ulckn(addr: uint64, n: nat): seq<Op> { UlckRange(addr, n) + [Hint(addr / PAGE)] }

  function Rsvn(addr: uint64, n: nat): seq<Op> { RsvRange(addr, n) }

  function Ursvn(addr: uint64, n: nat): seq<Op> { UrsvRange(addr, n) + [Hint(addr / PAGE)] }

  lemma RunSnoc(s: State, ops: seq<Op>, op: Op)
    ensures s.Run(ops + [op]) == s.Run(ops).Step(op)
  {
    assert (ops + [op])[..|ops|] == ops;
  }

  lemma {:induction false} RunConcat(s: State, a: seq<Op>, b: seq<Op>)
    ensures s.Run(a + b) == s.Run(a).Run(b)
    decreases |b|
  {
    if b == [] {
      assert a + b == a;
    } else {
      var front := b[..|b| - 1];
      assert a + b == (a + front) + [b[|b| - 1]];
      RunSnoc(s, a + front, b[|b| - 1]);
      RunConcat(s, a, front);
    }
  }

  lemma ExtendLck(s: State, addr: uint64, i: nat)
    ensures s.Run(LckRange(addr, i + 1)) == s.Run(LckRange(addr, i)).Step(Lck(PageAt(addr, i)))
  {
    assert LckRange(addr, i + 1) == LckRange(addr, i) + [Lck(PageAt(addr, i))];
    RunSnoc(s, LckRange(addr, i), Lck(PageAt(addr, i)));
  }

  lemma ExtendUlck(s: State, addr: uint64, i: nat)
    ensures s.Run(UlckRange(addr, i + 1)) == s.Run(UlckRange(addr, i)).Step(Ulck(PageAt(addr, i)))
  {
    assert UlckRange(addr, i + 1) == UlckRange(addr, i) + [Ulck(PageAt(addr, i))];
    RunSnoc(s, UlckRange(addr, i), Ulck(PageAt(addr, i)));
  }

  lemma ExtendRsv(s: State, addr: uint64, i: nat)
    ensures s.Run(RsvRange(addr, i + 1)) == s.Run(RsvRange(addr, i)).Step(Rsv(PageAt(addr, i)))
  {
    assert RsvRange(addr, i + 1) == RsvRange(addr, i) + [Rsv(PageAt(addr, i))];
    RunSnoc(s, RsvRange(addr, i), Rsv(PageAt(addr, i)));
  }

  lemma ExtendUrsv(s: State, addr: uint64, i: nat)
    ensures s.Run(UrsvRange(addr, i + 1)) == s.Run(UrsvRange(addr, i)).Step(Ursv(PageAt(addr, i)))
  {
    assert UrsvRange(addr, i + 1) == UrsvRange(addr, i) + [Ursv(PageAt(addr, i))];
    RunSnoc(s, UrsvRange(addr, i), Ursv(PageAt(addr, i)));
  }

  /** The address stepping of the range forms. */
  lemma NextPage(addr: uint64, i: nat)
    ensures Wrap64(PageAt(addr, i) + PAGE) == PageAt(addr, i + 1)
  {
    WrapSum(addr + PAGE * i, PAGE);
  }

  // ---------- What one request does ----------

  /** A search that starts inside the bitmap returns the least clear index from there on. */
  lemma RequestedIndex(s: State) returns (index: nat)
    requires s.Valid() && s.lastHit / 32 < s.Words()
    ensures s.Start() <= index <= s.pages
    ensures index == NextClear(s.taken, s.Start(), s.pages)
    ensures s.Requested() == index * PAGE && s.Requested() / PAGE == index
    ensures index !in s.taken
    ensures forall i :: s.Start() <= i < index ==> i in s.taken
  {
    assert s.Start() <= s.pages;
    NextClearIsLeast(s.taken, s.Start(), s.pages);
    index := NextClear(s.taken, s.Start(), s.pages);
    assert index * PAGE < UINT64_LIMIT;
    assert index !in s.taken;
  }

  /** With a clear in-range frame in the window, a request takes the least one and nothing else. */
  lemma RequestTakesLeast(s: State)
    requires s.Valid() && s.Window() != {}
    ensures s.Requested() % PAGE == 0
    ensures var f := s.Requested() / PAGE;
            && f in s.Window()
            && (forall g <- s.Window() :: f <= g)
            && s.AfterRequest() == s.(taken := s.taken + {f}, lastHit := f,
                                      used := Wrap64(s.used + PAGE), free := Wrap64(s.free - PAGE))
            && s.AfterRequest().Window() == s.Window() - {f}
  {
    var g :| g in s.Window();
    assert s.lastHit / 32 < s.Words();
    var f := RequestedIndex(s);
    assert f <= g;
  }

  /**
   * With none left, the request is not refused: it returns the frame after the last one and moves
   * the counters, but sets no bit. Only a search that starts outside the bitmap returns 0.
   */
  lemma RequestWhenExhausted(s: State)
    requires s.Valid() && s.Window() == {}
    ensures s.lastHit / 32 < s.Words() ==>
              && s.Requested() == s.pages * PAGE
              && s.AfterRequest() == s.(lastHit := s.pages, used := Wrap64(s.used + PAGE), free := Wrap64(s.free - PAGE))
    ensures s.lastHit / 32 >= s.Words() ==> s.Requested() == 0 && s.AfterRequest() == s
  {
    if s.lastHit / 32 < s.Words() {
      var f := RequestedIndex(s);
      assert f < s.pages ==> f in s.Window();
    }
  }

  lemma {:induction false} RunKeepsValid(s: State, ops: seq<Op>)
    requires s.Valid()
    ensures s.Run(ops).Valid()
    ensures s.Run(ops).pages == s.pages && s.Run(ops).total == s.total
    decreases |ops|
  {
    if ops != [] {
      RunKeepsValid(s, ops[..|ops| - 1]);
    }
  }

  // ---------- Runs of requests ----------

  /** The frames returned by k requests in a row. */
  function Frames(s: State, k: nat): (r: seq<nat>)
    ensures |r| == k
    decreases k
  {
    if k == 0 then [] else [s.Requested() / PAGE] + Frames(s.AfterRequest(), k - 1)
  }

  function AfterRequests(s: State, k: nat): State
    decreases k
  {
    if k == 0 then s else AfterRequests(s.AfterRequest(), k - 1)
  }

  function Elements(r: seq<nat>): set<nat> {
    set f | f in r
  }

  lemma RequestNarrows(s: State) returns (f: nat, next: State)
    requires s.Valid() && s.Window() != {}
    ensures f == s.Requested() / PAGE && next == s.AfterRequest() && next.Valid()
    ensures f in s.Window() && forall g <- s.Window() :: f <= g
    ensures next.taken == s.taken + {f}
    ensures next.Window() == s.Window() - {f} && |next.Window()| == |s.Window()| - 1
  {
    RequestTakesLeast(s);
    f, next := s.Requested() / PAGE, s.AfterRequest();
  }

  /** The requests removed exactly the frames r. */
  ghost predicate Removed(s: State, t: State, r: seq<nat>) {
    && Elements(r) <= s.Window()
    && t.taken == s.taken + Elements(r)
    && t.Window() == s.Window() - Elements(r)
    && |t.Window()| == |s.Window()| - |r|
  }

  lemma {:induction false} RequestsRemove(s: State, k: nat)
    requires s.Valid() && k <= |s.Window()|
    ensures Removed(s, AfterRequests(s, k), Frames(s, k))
    decreases k
  {
    if k > 0 {
      var f, next := RequestNarrows(s);
      RequestsRemove(next, k - 1);
      RemovedCons(s, f, next, AfterRequests(next, k - 1), Frames(next, k - 1));
    }
  }

  lemma RemovedCons(s: State, f: nat, next: State, t: State, tail: seq<nat>)
    requires f in s.Window() && next.taken == s.taken + {f}
    requires next.Window() == s.Window() - {f} && |next.Window()| == |s.Window()| - 1
    requires Removed(next, t, tail)
    ensures Removed(s, t, [f] + tail)
  {
    ElementsCons(f, tail);
    SetSplit(s.taken, s.Window(), f, Elements(tail));
  }

  lemma ElementsCons(f: nat, tail: seq<nat>)
    ensures Elements([f] + tail) == {f} + Elements(tail)
  {
  }

  lemma SetSplit(taken: set<nat>, window: set<nat>, f: nat, rest: set<nat>)
    ensures (taken + {f}) + rest == taken + ({f} + rest)
    ensures (window - {f}) - rest == window - ({f} + rest)
  {
  }

  /** r lists, in increasing order, the |r| least frames of w. */
  ghost predicate LeastOf(r: seq<nat>, w: set<nat>) {
    && (forall i, j :: 0 <= i < j < |r| ==> r[i] < r[j])
    && Elements(r) <= w
    && (forall i, g :: 0 <= i < |r| && g in w && g <= r[i] ==> g in r)
  }

  lemma LeastOfCons(f: nat, tail: seq<nat>, w: set<nat>)
    requires f in w && (forall g <- w :: f <= g)
    requires LeastOf(tail, w - {f})
    ensures LeastOf([f] + tail, w)
  {
    var r := [f] + tail;
    assert forall i :: 0 < i < |r| ==> r[i] == tail[i - 1] && r[i] in Elements(tail);
    assert Elements(r) == {f} + Elements(tail);
    forall i, g | 0 <= i < |r| && g in w && g <= r[i]
      ensures g in r
    {
      if g == f {
        assert r[0] == f;
      } else {
        assert g in tail;
      }
    }
  }

  lemma {:induction false} RequestsAscend(s: State, k: nat)
    requires s.Valid() && k <= |s.Window()|
    ensures LeastOf(Frames(s, k), s.Window())
    decreases k
  {
    if k > 0 {
      var f, next := RequestNarrows(s);
      RequestsAscend(next, k - 1);
      LeastOfCons(f, Frames(next, k - 1), s.Window());
    }
  }

  /**
   * k requests hand out the k least frames of the window, in strictly increasing order, and remove
   * exactly those frames from it although the hint moves. For k = |Window()| that is all of them.
   */
  lemma RequestsInOrder(s: State, k: nat)
    requires s.Valid() && k <= |s.Window()|
    ensures LeastOf(Frames(s, k), s.Window())
    ensures Removed(s, AfterRequests(s, k), Frames(s, k))
    ensures k == |s.Window()| ==> Elements(Frames(s, k)) == s.Window()
  {
    RequestsAscend(s, k);
    RequestsRemove(s, k);
    var left := AfterRequests(s, k).Window();
    if k == |s.Window()| {
      assert left == {};
      assert s.Window() <= Elements(Frames(s, k));
    }
  }

  /** Requests alone can empty the window of a search that starts inside the bitmap. */
  lemma {:induction false} Exhaust(s: State) returns (ops: seq<Op>)
    requires s.Valid() && s.lastHit / 32 < s.Words()
    ensures forall op <- ops :: op == Request
    ensures s.Run(ops).Valid() && s.Run(ops).pages == s.pages
    ensures s.Run(ops).Window() == {} && s.Run(ops).lastHit / 32 < s.Words()
    decreases |s.Window()|
  {
    ops := [];
    if s.Window() != {} {
      var f, next := RequestNarrows(s);
      var rest := Exhaust(next);
      ops := [Request] + rest;
      RunSnoc(s, [], Request);
      assert [] + [Request] == [Request];
      RunConcat(s, [Request], rest);
    }
  }

  /** op neither releases a frame nor sets the hint. */
  predicate Taking(op: Op) {
    op.Lck? || op.Rsv? || op.Request?
  }

  /**
   * Without a release the search never goes back: clear frames below the word of the hint stay out
   * of reach of every later request.
   */
  lemma {:induction false} SearchNeverGoesBack(s: State, ops: seq<Op>)
    requires s.Valid() && forall op <- ops :: Taking(op)
    ensures s.Run(ops).Valid() && s.Run(ops).Start() >= s.Start() && s.Run(ops).pages == s.pages
    ensures s.Run(ops).lastHit / 32 < s.Words() ==> s.Run(ops).Requested() / PAGE >= s.Start()
    decreases |ops|
  {
    if ops != [] {
      var front := ops[..|ops| - 1];
      SearchNeverGoesBack(s, front);
      assert ops[|front|] in ops;
      TakingGoesOn(s.Run(front), ops[|front|]);
    }
    if s.Run(ops).lastHit / 32 < s.Words() {
      var f := RequestedIndex(s.Run(ops));
    }
  }

  lemma TakingGoesOn(s: State, op: Op)
    requires s.Valid() && Taking(op)
    ensures s.Step(op).Valid() && s.Step(op).Start() >= s.Start() && s.Step(op).pages == s.pages
  {
    if op == Request && s.lastHit / 32 < s.Words() {
      var f := RequestedIndex(s);
    }
  }

  // ---------- Reuse after release ----------

  /** After a release of frame f, from either counter, the next request stays in f's word and does not pass f. */
  lemma ReuseAfterRelease(s: State, addr: uint64, locked: bool)
    requires s.Valid() && addr / PAGE in s.taken
    ensures var f := addr / PAGE;
            var got := (if locked then s.AfterUlck(addr) else s.AfterUrsv(addr)).Requested() / PAGE;
            && f / 32 * 32 <= got <= f
            && (got == f || got !in s.taken)
            && forall g :: f / 32 * 32 <= g < got ==> g in s.taken
  {
    var f := addr / PAGE;
    var released := if locked then s.AfterUlck(addr) else s.AfterUrsv(addr);
    assert released.Valid() && f in released.Window();
    RequestTakesLeast(released);
    forall g | f / 32 * 32 <= g < released.Requested() / PAGE
      ensures g in s.taken
    {
      assert g !in released.Window();
    }
  }

  // ---------- Frames that nobody releases ----------

  /** op releases no frame of keep. */
  predicate Spares(op: Op, keep: set<nat>) {
    match op
    case Ulck(addr) => addr / PAGE !in keep
    case Ursv(addr) => addr / PAGE !in keep
    case _ => true
  }

  /**
   * Frames that are taken and never released stay taken through every run, and no request of the
   * run returns one of them.
   */
  lemma {:induction false} TakenStayOwned(s: State, ops: seq<Op>, keep: set<nat>)
    requires s.Valid() && keep <= s.taken
    requires forall op <- ops :: Spares(op, keep)
    ensures keep <= s.Run(ops).taken
    ensures forall i :: 0 <= i < |ops| && ops[i] == Request && s.Run(ops[..i]).lastHit / 32 < s.Words() ==>
              s.Run(ops[..i]).Requested() / PAGE !in keep
    decreases |ops|
  {
    if ops != [] {
      var front, last := ops[..|ops| - 1], ops[|ops| - 1];
      TakenStayOwned(s, front, keep);
      RunKeepsValid(s, front);
      assert Spares(last, keep);
      var before := s.Run(front);
      if last == Request && before.lastHit / 32 < before.Words() {
        var f := RequestedIndex(before);
      }
      forall i | 0 <= i < |ops| && ops[i] == Request && s.Run(ops[..i]).lastHit / 32 < s.Words()
        ensures s.Run(ops[..i]).Requested() / PAGE !in keep
      {
        if i < |front| {
          assert front[..i] == ops[..i] && front[i] == ops[i];
        } else {
          assert ops[..i] == front;
        }
      }
    }
  }

  // ---------- Counters ----------

  lemma MoveBetween(a: uint64, b: uint64, c: uint64, d: int)
    ensures Wrap64(Wrap64(a + d) + b + Wrap64(c - d)) == Wrap64(a + b + c)
  {
    WrapSum(a + d, b + Wrap64(c - d));
    WrapSum(c - d, a + d + b);
  }

  function Sum(s: State): uint64 {
    Wrap64(s.used + s.rsvd + s.free)
  }

  predicate SameTotal(s: State, t: State) {
    Sum(t) == Sum(s)
  }

  lemma LckConservesTotal(s: State, addr: uint64)
    ensures SameTotal(s, s.AfterLck(addr))
  {
    MoveBetween(s.used, s.rsvd, s.free, PAGE);
  }

  lemma UlckConservesTotal(s: State, addr: uint64)
    ensures SameTotal(s, s.AfterUlck(addr))
  {
    MoveBetween(s.used, s.rsvd, s.free, -PAGE);
  }

  lemma RsvConservesTotal(s: State, addr: uint64)
    ensures SameTotal(s, s.AfterRsv(addr))
  {
    MoveBetween(s.rsvd, s.used, s.free, PAGE);
  }

  lemma UrsvConservesTotal(s: State, addr: uint64)
    ensures SameTotal(s, s.AfterUrsv(addr))
  {
    MoveBetween(s.rsvd, s.used, s.free, -PAGE);
  }

  lemma StepConservesTotal(s: State, op: Op)
    ensures SameTotal(s, s.Step(op))
  {
    match op
    case Lck(addr) => LckConservesTotal(s, addr);
    case Ulck(addr) => UlckConservesTotal(s, addr);
    case Rsv(addr) => RsvConservesTotal(s, addr);
    case Ursv(addr) => UrsvConservesTotal(s, addr);
    case Hint(_) =>
    case Request => LckConservesTotal(s.(lastHit := s.Requested() / PAGE), s.Requested());
  }

  /** used + rsvd + free keeps its value modulo 2^64 through every run, in range or not. */
  lemma {:induction false} RunConservesTotal(s: State, ops: seq<Op>)
    ensures SameTotal(s, s.Run(ops))
    decreases |ops|
  {
    if ops != [] {
      RunConservesTotal(s, ops[..|ops| - 1]);
      StepConservesTotal(s.Run(ops[..|ops| - 1]), ops[|ops| - 1]);
    }
  }

  lemma {:induction false} RunKeepsTotal(s: State, ops: seq<Op>)
    ensures s.Run(ops).total == s.total
    decreases |ops|
  {
    if ops != [] {
      RunKeepsTotal(s, ops[..|ops| - 1]);
    }
  }

  /** By how much used + rsvd exceeds the bytes of the set bits, modulo 2^64. */
  function Gap(s: State): uint64 {
    Wrap64(s.used + s.rsvd - PAGE * |s.taken|)
  }

  /** op takes no frame from outside the range. */
  predicate InRange(s: State, op: Op) {
    match op
    case Lck(addr) => addr / PAGE < s.pages
    case Rsv(addr) => addr / PAGE < s.pages
    case Request => s.Window() != {} || s.lastHit / 32 >= s.Words()
    case _ => true
  }

  /** How many operations of a run take a frame from outside the range. */
  function Strays(s: State, ops: seq<Op>): nat {
    if ops == [] then 0
    else
      var front := ops[..|ops| - 1];
      Strays(s, front) + (if InRange(s.Run(front), ops[|ops| - 1]) then 0 else 1)
  }

  lemma CountersMoveGap(s: State, t: State, du: int, dr: int, sum: int)
    requires t.used == Wrap64(s.used + du) && t.rsvd == Wrap64(s.rsvd + dr)
    requires sum == Gap(s) + du + dr - PAGE * (|t.taken| - |s.taken|)
    ensures Gap(t) == Wrap64(sum)
  {
    var a, b := PAGE * |s.taken|, PAGE * |t.taken|;
    WrapTwice(s.used + du, s.rsvd + dr, b);
    WrapSum(s.used + s.rsvd - a, du + dr - b + a);
  }

  lemma WrapTwice(x: int, y: int, b: int)
    ensures Wrap64(Wrap64(x) + Wrap64(y) - b) == Wrap64(x + y - b)
  {
    WrapSum(x, Wrap64(y) - b);
    WrapSum(y, x - b);
  }

  lemma LckGap(s: State, addr: uint64)
    ensures Gap(s.AfterLck(addr)) ==
            if addr / PAGE < s.pages || addr / PAGE in s.taken then Gap(s) else Wrap64(Gap(s) + PAGE)
  {
    if addr / PAGE !in s.taken {
      CountersMoveGap(s, s.AfterLck(addr), PAGE, 0, if addr / PAGE < s.pages then Gap(s) else Gap(s) + PAGE);
    }
  }

  lemma RsvGap(s: State, addr: uint64)
    ensures Gap(s.AfterRsv(addr)) ==
            if addr / PAGE < s.pages || addr / PAGE in s.taken then Gap(s) else Wrap64(Gap(s) + PAGE)
  {
    if addr / PAGE !in s.taken {
      CountersMoveGap(s, s.AfterRsv(addr), 0, PAGE, if addr / PAGE < s.pages then Gap(s) else Gap(s) + PAGE);
    }
  }

  lemma UlckGap(s: State, addr: uint64)
    ensures Gap(s.AfterUlck(addr)) == Gap(s)
  {
    if addr / PAGE in s.taken {
      CountersMoveGap(s, s.AfterUlck(addr), -PAGE, 0, Gap(s));
    }
  }

  lemma UrsvGap(s: State, addr: uint64)
    ensures Gap(s.AfterUrsv(addr)) == Gap(s)
  {
    if addr / PAGE in s.taken {
      CountersMoveGap(s, s.AfterUrsv(addr), 0, -PAGE, Gap(s));
    }
  }

  /** One operation keeps the gap exactly when it takes no frame from outside the range. */
  lemma StepGap(s: State, op: Op)
    requires s.Valid()
    ensures Gap(s.Step(op)) == if InRange(s, op) then Gap(s) else Wrap64(Gap(s) + PAGE)
  {
    match op
    case Lck(addr) => LckGap(s, addr);
    case Rsv(addr) => RsvGap(s, addr);
    case Ulck(addr) => UlckGap(s, addr);
    case Ursv(addr) => UrsvGap(s, addr);
    case Hint(_) =>
    case Request =>
      if s.lastHit / 32 < s.Words() {
        var f := RequestedIndex(s);
        assert f < s.pages <==> s.Window() != {} by {
          if f < s.pages {
            assert f in s.Window();
          }
        }
        LckGap(s.(lastHit := f), s.Requested());
      }
  }

  lemma GapAfter(s: State, op: Op, t: State, gap: int, sum: int)
    requires s.Valid() && t == s.Step(op) && Gap(s) == Wrap64(gap)
    requires sum == if InRange(s, op) then gap else gap + PAGE
    ensures Gap(t) == Wrap64(sum)
  {
    StepGap(s, op);
    WrapSum(gap, PAGE);
  }

  /**
   * used + rsvd accounts for the set bits plus 4096 bytes for every stray; so a run without strays
   * keeps used + rsvd equal to 4096 times the number of set bits, modulo 2^64.
   */
  lemma {:induction false} RunGap(s: State, ops: seq<Op>, sum: int)
    requires s.Valid() && sum == Gap(s) + PAGE * Strays(s, ops)
    ensures Gap(s.Run(ops)) == Wrap64(sum)
    decreases |ops|
  {
    if ops != [] {
      var front, last := ops[..|ops| - 1], ops[|ops| - 1];
      var gap := sum - (if InRange(s.Run(front), last) then 0 else PAGE);
      RunGap(s, front, gap);
      RunKeepsValid(s, front);
      GapAfter(s.Run(front), last, s.Run(ops), gap, sum);
    }
  }

  lemma {:induction false} StraysConcat(s: State, a: seq<Op>, b: seq<Op>)
    ensures Strays(s, a + b) == Strays(s, a) + Strays(s.Run(a), b)
    decreases |b|
  {
    if b == [] {
      assert a + b == a;
    } else {
      var front := b[..|b| - 1];
      assert (a + b)[..|a + b| - 1] == a + front;
      StraysConcat(s, a, front);
      RunConcat(s, a, front);
    }
  }

  ghost predicate RunInRange(s: State, ops: seq<Op>) {
    forall i :: 0 <= i < |ops| ==> InRange(s.Run(ops[..i]), ops[i])
  }

  lemma RunInRangeFront(s: State, ops: seq<Op>)
    requires ops != [] && RunInRange(s, ops)
    ensures RunInRange(s, ops[..|ops| - 1])
  {
    var front := ops[..|ops| - 1];
    forall i | 0 <= i < |front|
      ensures InRange(s.Run(front[..i]), front[i])
    {
      assert front[..i] == ops[..i];
    }
  }

  /** Who took each frame: the locked (or requested) ones and the reserved ones. */
  datatype Owners = Owners(locked: set<nat>, reserved: set<nat>)

  function OwnersAfter(s: State, o: Owners, op: Op): Owners {
    var gained := s.Step(op).taken - s.taken;
    match op
    case Lck(_) => o.(locked := o.locked + gained)
    case Request => o.(locked := o.locked + gained)
    case Rsv(_) => o.(reserved := o.reserved + gained)
    case Ulck(addr) => o.(locked := o.locked - {addr / PAGE})
    case Ursv(addr) => o.(reserved := o.reserved - {addr / PAGE})
    case Hint(_) => o
  }

  function RunOwners(s: State, o: Owners, ops: seq<Op>): Owners {
    if ops == [] then o
    else
      var front := ops[..|ops| - 1];
      OwnersAfter(s.Run(front), RunOwners(s, o, front), ops[|ops| - 1])
  }

  /** A release matches the way the frame was taken. */
  predicate Matched(s: State, o: Owners, op: Op) {
    match op
    case Ulck(addr) => addr / PAGE in s.taken ==> addr / PAGE in o.locked
    case Ursv(addr) => addr / PAGE in s.taken ==> addr / PAGE in o.reserved
    case _ => true
  }

  /** Every counter is 4096 times the size of its own set, as plain numbers. */
  ghost predicate Audited(s: State, o: Owners) {
    && o.locked !! o.reserved
    && o.locked + o.reserved == s.taken
    && s.used == PAGE * |o.locked|
    && s.rsvd == PAGE * |o.reserved|
    && s.free == PAGE * (s.pages - |s.taken|)
  }

  lemma {:induction false} SizeBelow(a: set<nat>, n: nat)
    requires forall i <- a :: i < n
    ensures |a| <= n
    ensures forall i: nat :: i < n && i !in a ==> |a| < n
  {
    if n == 0 {
      assert a == {};
    } else {
      SizeBelow(a - {n - 1}, n - 1);
      if n - 1 !in a {
        assert a - {n - 1} == a;
      }
      forall i: nat | i < n && i !in a
        ensures |a| < n
      {
        if n - 1 in a {
          assert i < n - 1 && i !in a - {n - 1};
        }
      }
    }
  }

  ghost predicate RunMatched(s: State, o: Owners, ops: seq<Op>) {
    forall i :: 0 <= i < |ops| ==> Matched(s.Run(ops[..i]), RunOwners(s, o, ops[..i]), ops[i])
  }

  /** An operation keeps the audit exactly when it takes no frame out of range and releases one the way it was taken. */
  lemma StepKeepsAudit(s: State, o: Owners, op: Op)
    requires s.Valid() && Audited(s, o)
    ensures Audited(s.Step(op), OwnersAfter(s, o, op)) <==> InRange(s, op) && Matched(s, o, op)
  {
    if !InRange(s, op) {
      StrayBreaksAudit(s, o, op);
    } else if !Matched(s, o, op) {
      MismatchBreaksAudit(s, o, op);
    } else {
      StepInRangeKeepsAudit(s, o, op);
    }
  }

  /** The counter moves and the set does not. */
  lemma StrayBreaksAudit(s: State, o: Owners, op: Op)
    requires s.Valid() && Audited(s, o) && !InRange(s, op)
    ensures !Audited(s.Step(op), OwnersAfter(s, o, op))
  {
    if op == Request {
      RequestWhenExhausted(s);
    }
    var t := s.Step(op);
    assert t.taken == s.taken && t.free == Wrap64(s.free - PAGE) && t.pages == s.pages;
  }

  /** A frame leaves the set and stays with its owner. */
  lemma MismatchBreaksAudit(s: State, o: Owners, op: Op)
    requires s.Valid() && Audited(s, o) && !Matched(s, o, op)
    ensures !Audited(s.Step(op), OwnersAfter(s, o, op))
  {
    var index := (if op.Ulck? then op.addr else if op.Ursv? then op.addr else 0) / PAGE;
    var p := OwnersAfter(s, o, op);
    assert index in p.locked + p.reserved && index !in s.Step(op).taken;
  }

  lemma StepInRangeKeepsAudit(s: State, o: Owners, op: Op)
    requires s.Valid() && Audited(s, o) && InRange(s, op) && Matched(s, o, op)
    ensures Audited(s.Step(op), OwnersAfter(s, o, op))
  {
    SizeBelow(s.taken, s.pages);
    assert |s.taken| == |o.locked| + |o.reserved|;
    match op
    case Lck(addr) => TakeKeepsAudit(s, o, op, addr / PAGE);
    case Rsv(addr) => TakeKeepsAudit(s, o, op, addr / PAGE);
    case Ulck(addr) => UlckKeepsAudit(s, o, addr);
    case Ursv(addr) => UrsvKeepsAudit(s, o, addr);
    case Hint(_) =>
    case Request =>
      if s.Window() == {} {
        RequestWhenExhausted(s);
        assert OwnersAfter(s, o, op) == o;
      } else {
        RequestTakesLeast(s);
        TakeKeepsAudit(s, o, op, s.Requested() / PAGE);
      }
  }

  /** What a taking operation does to one clear in-range frame. */
  predicate TakesOne(s: State, op: Op, index: nat) {
    var t := s.Step(op);
    if index in s.taken then t == s
    else
      && t.pages == s.pages && t.taken == s.taken + {index}
      && t.free == Wrap64(s.free - PAGE)
      && if op.Rsv? then t.used == s.used && t.rsvd == Wrap64(s.rsvd + PAGE)
                    else t.rsvd == s.rsvd && t.used == Wrap64(s.used + PAGE)
  }

  lemma TakeKeepsAudit(s: State, o: Owners, op: Op, index: nat)
    requires s.Valid() && Audited(s, o) && index < s.pages
    requires (op.Lck? || op.Rsv? || op.Request?) && TakesOne(s, op, index)
    ensures Audited(s.Step(op), OwnersAfter(s, o, op))
  {
    var t, gained := s.Step(op), s.Step(op).taken - s.taken;
    if index in s.taken {
      assert gained == {};
      OwnersGain(o, gained);
    } else {
      assert gained == {index};
      GainAudited(s, o, t, op.Rsv?, index);
    }
  }

  lemma GainAudited(s: State, o: Owners, t: State, reserve: bool, index: nat)
    requires s.Valid() && Audited(s, o) && index < s.pages && index !in s.taken
    requires t.pages == s.pages && t.taken == s.taken + {index} && t.free == Wrap64(s.free - PAGE)
    requires if reserve then t.used == s.used && t.rsvd == Wrap64(s.rsvd + PAGE)
             else t.rsvd == s.rsvd && t.used == Wrap64(s.used + PAGE)
    ensures Audited(t, if reserve then o.(reserved := o.reserved + {index}) else o.(locked := o.locked + {index}))
  {
    SizeBelow(s.taken, s.pages);
    OwnersSizes(o, index);
    CountersStayExact(s, |o.locked|, |o.reserved|);
  }

  lemma OwnersGain(o: Owners, gained: set<nat>)
    requires gained == {}
    ensures o.(locked := o.locked + gained) == o && o.(reserved := o.reserved + gained) == o
  {
  }

  /** Adding a frame to one side, or removing it from the side that holds it. */
  lemma OwnersSizes(o: Owners, index: nat)
    requires o.locked !! o.reserved
    ensures |o.locked + o.reserved| == |o.locked| + |o.reserved|
    ensures index !in o.locked + o.reserved ==>
              && |o.locked + {index}| == |o.locked| + 1
              && |o.reserved + {index}| == |o.reserved| + 1
              && |(o.locked + o.reserved) + {index}| == |o.locked| + |o.reserved| + 1
              && (o.locked + {index}) + o.reserved == (o.locked + o.reserved) + {index}
              && o.locked + (o.reserved + {index}) == (o.locked + o.reserved) + {index}
    ensures index in o.locked ==>
              && |o.locked - {index}| == |o.locked| - 1
              && (o.locked - {index}) + o.reserved == (o.locked + o.reserved) - {index}
              && |(o.locked + o.reserved) - {index}| == |o.locked| + |o.reserved| - 1
    ensures index in o.reserved ==>
              && |o.reserved - {index}| == |o.reserved| - 1
              && o.locked + (o.reserved - {index}) == (o.locked + o.reserved) - {index}
              && |(o.locked + o.reserved) - {index}| == |o.locked| + |o.reserved| - 1
  {
  }

  /** None of the counters wraps while it counts pages of its own set. */
  lemma CountersStayExact(s: State, u: nat, r: nat)
    requires s.Valid() && u + r <= s.pages
    requires s.used == PAGE * u && s.rsvd == PAGE * r && s.free == PAGE * (s.pages - (u + r))
    ensures u + r < s.pages ==>
              && Wrap64(s.used + PAGE) == PAGE * (u + 1) && Wrap64(s.rsvd + PAGE) == PAGE * (r + 1)
              && Wrap64(s.free - PAGE) == PAGE * (s.pages - (u + r + 1))
    ensures u > 0 ==> Wrap64(s.used - PAGE) == PAGE * (u - 1)
    ensures r > 0 ==> Wrap64(s.rsvd - PAGE) == PAGE * (r - 1)
    ensures u + r > 0 ==> Wrap64(s.free + PAGE) == PAGE * (s.pages - (u + r - 1))
  {
  }

  lemma UlckKeepsAudit(s: State, o: Owners, addr: uint64)
    requires s.Valid() && Audited(s, o) && Matched(s, o, Ulck(addr))
    ensures Audited(s.AfterUlck(addr), o.(locked := o.locked - {addr / PAGE}))
  {
    var index := addr / PAGE;
    if index in s.taken {
      SizeBelow(s.taken, s.pages);
      OwnersSizes(o, index);
      CountersStayExact(s, |o.locked|, |o.reserved|);
    } else {
      assert o.locked - {index} == o.locked;
    }
  }

  lemma UrsvKeepsAudit(s: State, o: Owners, addr: uint64)
    requires s.Valid() && Audited(s, o) && Matched(s, o, Ursv(addr))
    ensures Audited(s.AfterUrsv(addr), o.(reserved := o.reserved - {addr / PAGE}))
  {
    var index := addr / PAGE;
    if index in s.taken {
      SizeBelow(s.taken, s.pages);
      OwnersSizes(o, index);
      CountersStayExact(s, |o.locked|, |o.reserved|);
    } else {
      assert o.reserved - {index} == o.reserved;
    }
  }

  /**
   * Through every run that stays in range and releases frames the way they were taken, each
   * counter is 4096 times the size of its own set.
   */
  lemma {:induction false} RunKeepsAudit(s: State, o: Owners, ops: seq<Op>)
    requires s.Valid() && Audited(s, o) && RunInRange(s, ops) && RunMatched(s, o, ops)
    ensures Audited(s.Run(ops), RunOwners(s, o, ops))
    decreases |ops|
  {
    if ops != [] {
      var front := ops[..|ops| - 1];
      RunInRangeFront(s, ops);
      forall i | 0 <= i < |front|
        ensures Matched(s.Run(front[..i]), RunOwners(s, o, front[..i]), front[i])
      {
        assert front[..i] == ops[..i];
      }
      RunKeepsAudit(s, o, front);
      RunKeepsValid(s, front);
      assert InRange(s.Run(front), ops[|front|]);
      assert Matched(s.Run(front), RunOwners(s, o, front), ops[|front|]);
      StepKeepsAudit(s.Run(front), RunOwners(s, o, front), ops[|front|]);
    }
  }
}
