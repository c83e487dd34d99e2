/** What a glyph looks like on a frame buffer, pixel by pixel, apart from how it is painted. */
module Picture {
  import opened Bits

  /**
   * A frame buffer of w by h pixels in rows of s words, the cursor and the two colours; bg 0 is no
   * background. The cursor may stand left of the rows or above them.
   */
  datatype Target = Target(w: nat, h: int, s: nat, x: int, y: int, fg: uint32, bg: uint32)
  {
    ghost predicate Fits(length: nat) {
      w <= s && h * s <= length
    }

    /** The word of pixel X of row Y. */
    function Word(Y: nat, X: nat): (i: nat)
      requires Y < h && X < s
      ensures i < h * s
    {
      MulGap(s, Y, h);
      assert s * Y == Y * s && s * h == h * s;
      Y * s + X
    }

    /** Columns right of the cursor. */
    function Columns(): nat {
      if x < w then w - x else 0
    }
  }

  /** A bitmap of rows by columns, packed in bytes without a gap between rows, low bit first. */
  datatype Fragment = Fragment(top: nat, columns: nat, rows: nat, bits: seq<uint8>)
  {
    predicate Ink(n: nat) {
      n / 8 < |bits| && Bit(bits[n / 8], n % 8)
    }

    predicate InkAt(r: nat, c: nat) {
      r < rows && c < columns && Ink(r * columns + c)
    }
  }

  /** One stroke of the painter: a band of background, or the bitmap of a fragment. */
  datatype Stroke =
    | Band(lo: nat, hi: nat, width: nat)
    | Stamp(f: Fragment, start: nat)
  {
    function First(): nat {
      if Band? then lo else start
    }

    function Rows(): nat {
      if Band? then (if lo < hi then hi - lo else 0) else f.rows
    }

    function Width(): nat {
      if Band? then width else f.columns
    }

    /** The first n rows of it. */
    function Prefix(n: nat): Stroke {
      if Band? then Band(lo, lo + n, width) else Stamp(f.(rows := n), start)
    }

    predicate Covers(r: nat, c: nat) {
      First() <= r < First() + Rows() && c < Width()
    }
  }

  /** What a stroke makes of a pixel, r rows below and c columns right of the cursor, that showed v. */
  function Colour(t: Target, k: Stroke, r: nat, c: nat, v: uint32): uint32 {
    if !k.Covers(r, c) then v
    else if k.Stamp? && k.f.InkAt(r - k.start, c) then t.fg
    else if t.bg != 0 then t.bg
    else v
  }

  function Colours(t: Target, ks: seq<Stroke>, r: nat, c: nat, v: uint32): uint32 {
    if ks == [] then v
    else Colour(t, ks[|ks| - 1], r, c, Colours(t, ks[..|ks| - 1], r, c, v))
  }

  /** A stroke over the whole frame buffer: outside the w by h rectangle no word changes. */
  ghost predicate Painted(t: Target, before: seq<uint32>, after: seq<uint32>, k: Stroke)
    requires t.Fits(|before|)
  {
    && |after| == |before|
    && (forall Y: nat, X: nat | Y < t.h && X < t.s :: t.Word(Y, X) < |after| && PixelPainted(t, before, after, k, Y, X))
    && (forall i: nat | i < |after| && i >= t.h * t.s :: after[i] == before[i])
  }

  ghost predicate PixelPainted(t: Target, before: seq<uint32>, after: seq<uint32>, k: Stroke, Y: nat, X: nat)
    requires Y < t.h && X < t.s && t.Word(Y, X) < |before| == |after|
  {
    after[t.Word(Y, X)] ==
    if t.y <= Y && t.x <= X < t.w
    then Colour(t, k, Y - t.y, X - t.x, before[t.Word(Y, X)])
    else before[t.Word(Y, X)]
  }

  ghost predicate AllPainted(t: Target, before: seq<uint32>, after: seq<uint32>, ks: seq<Stroke>)
    requires t.Fits(|before|)
  {
    && |after| == |before|
    && (forall Y: nat, X: nat | Y < t.h && X < t.s :: t.Word(Y, X) < |after| && PixelDone(t, before, after, ks, Y, X))
    && (forall i: nat | i < |after| && i >= t.h * t.s :: after[i] == before[i])
  }

  ghost predicate PixelDone(t: Target, before: seq<uint32>, after: seq<uint32>, ks: seq<Stroke>, Y: nat, X: nat)
    requires Y < t.h && X < t.s && t.Word(Y, X) < |before| == |after|
  {
    after[t.Word(Y, X)] ==
    if t.y <= Y && t.x <= X < t.w
    then Colours(t, ks, Y - t.y, X - t.x, before[t.Word(Y, X)])
    else before[t.Word(Y, X)]
  }

  lemma WordsOf(t: Target, length: nat)
    requires t.Fits(length)
    ensures forall Y: nat, X: nat | Y < t.h && X < t.s :: t.Word(Y, X) < length
  {
  }

  /** The words of row R from the cursor's column on, painted as row r of the stroke. */
  ghost predicate RowPainted(t: Target, before: seq<uint32>, after: seq<uint32>, k: Stroke, r: nat, o: int) {
    && |after| == |before|
    && forall i: nat | i < |after| ::
         after[i] == if o <= i < o + t.Columns() && i - o + t.x >= 0 then Colour(t, k, r, i - o, before[i]) else before[i]
  }

  /** Words that lie in one row of the rectangle. */
  lemma InRow(t: Target, Y: nat, X: nat, R: nat, o: int)
    requires Y < t.h && X < t.s && t.w <= t.s && o == R * t.s + t.x
    ensures o <= t.Word(Y, X) < o + t.Columns() && t.Word(Y, X) - o + t.x >= 0 <==> Y == R && t.x <= X < t.w
    ensures Y == R ==> t.Word(Y, X) - o == X - t.x
  {
    MulGap(t.s, Y, R);
    MulGap(t.s, R, Y);
    assert t.s * Y == Y * t.s && t.s * R == R * t.s;
  }

  lemma RowsGrow(t: Target, k: Stroke, n: nat, r: nat, c: nat, v: uint32)
    requires n < k.Rows()
    ensures Colour(t, k.Prefix(n + 1), r, c, v) == Colour(t, if r == k.First() + n then k else k.Prefix(n), r, c, v)
    ensures r >= k.First() + n ==> Colour(t, k.Prefix(n), r, c, v) == v
  {
  }

  /** A row added to the rows that are painted. */
  lemma RowAdds(t: Target, before: seq<uint32>, mid: seq<uint32>, after: seq<uint32>, k: Stroke, n: nat, o: int)
    requires t.Fits(|before|) && n < k.Rows() && 0 <= t.y + k.First() + n < t.h
    requires o == (t.y + k.First() + n) * t.s + t.x
    requires Painted(t, before, mid, k.Prefix(n)) && RowPainted(t, mid, after, k, k.First() + n, o)
    ensures Painted(t, before, after, k.Prefix(n + 1))
  {
    var R := t.y + k.First() + n;
    forall Y: nat, X: nat | Y < t.h && X < t.s
      ensures t.Word(Y, X) < |after| && PixelPainted(t, before, after, k.Prefix(n + 1), Y, X)
    {
      assert PixelPainted(t, before, mid, k.Prefix(n), Y, X);
      InRow(t, Y, X, R, o);
      if t.y <= Y && t.x <= X < t.w {
        RowsGrow(t, k, n, Y - t.y, X - t.x, before[t.Word(Y, X)]);
      }
    }
    RowEnds(t, R, o);
    forall i: nat | i < |after| && i >= t.h * t.s
      ensures after[i] == before[i]
    {
      assert after[i] == mid[i];
    }
  }

  lemma RowEnds(t: Target, R: nat, o: int)
    requires t.w <= t.s && R < t.h && o == R * t.s + t.x
    ensures t.Columns() > 0 ==> o + t.Columns() <= t.h * t.s
  {
    MulGap(t.s, R, t.h);
    assert t.s * R == R * t.s && t.s * t.h == t.h * t.s;
  }

  lemma NoRows(t: Target, before: seq<uint32>, k: Stroke)
    requires t.Fits(|before|)
    ensures Painted(t, before, before, k.Prefix(0))
  {
    WordsOf(t, |before|);
    forall Y: nat, X: nat | Y < t.h && X < t.s
      ensures PixelPainted(t, before, before, k.Prefix(0), Y, X)
    {
    }
  }

  /** Strokes that agree on the rows above the lower edge cannot be told apart. */
  lemma SameOnScreen(t: Target, before: seq<uint32>, after: seq<uint32>, k: Stroke, l: Stroke)
    requires t.Fits(|before|) && Painted(t, before, after, k)
    requires forall r: nat, c: nat, v: uint32 | t.y + r < t.h :: Colour(t, k, r, c, v) == Colour(t, l, r, c, v)
    ensures Painted(t, before, after, l)
  {
    forall Y: nat, X: nat | Y < t.h && X < t.s
      ensures t.Word(Y, X) < |after| && PixelPainted(t, before, after, l, Y, X)
    {
      assert PixelPainted(t, before, after, k, Y, X);
    }
  }

  /** Where the painter's pointer stands at a row, counted from the cursor. */
  function Left(t: Target, row: nat): int {
    (t.y + row) * t.s + t.x
  }

  lemma RowLeft(t: Target, row: nat, o: int)
    requires t.w <= t.s && 0 <= t.y + row < t.h && o == Left(t, row)
    ensures Left(t, row + 1) == o + t.s && (t.x >= 0 ==> o >= 0)
    ensures t.x < 0 ==> o >= t.x
    ensures t.Columns() > 0 ==> o + t.Columns() <= t.h * t.s
  {
    RowEnds(t, t.y + row, o);
  }

  /** A row painted at the pointer, as RowAdds. */
  lemma RowJoins(t: Target, before: seq<uint32>, mid: seq<uint32>, after: seq<uint32>, k: Stroke,
                 done: Stroke, row: nat, o: int, next: Stroke)
    requires t.Fits(|before|) && k.First() <= row < k.First() + k.Rows() && 0 <= t.y + row < t.h && o == Left(t, row)
    requires done == k.Prefix(row - k.First()) && next == k.Prefix(row - k.First() + 1)
    requires Painted(t, before, mid, done) && RowPainted(t, mid, after, k, row, o)
    ensures Painted(t, before, after, next)
  {
    RowAdds(t, before, mid, after, k, row - k.First(), o);
  }

  /** What is painted when the rows run out, of the stroke or of the frame buffer, is the stroke. */
  lemma RowsDone(t: Target, before: seq<uint32>, after: seq<uint32>, k: Stroke, done: Stroke, row: nat)
    requires t.Fits(|before|) && row >= k.First() && done == k.Prefix(row - k.First())
    requires row - k.First() == k.Rows() || (row - k.First() < k.Rows() && t.y + row >= t.h)
    requires Painted(t, before, after, done)
    ensures Painted(t, before, after, k)
  {
    forall r: nat, c: nat, v: uint32 | t.y + r < t.h
      ensures Colour(t, done, r, c, v) == Colour(t, k, r, c, v)
    {
    }
    SameOnScreen(t, before, after, done, k);
  }

  // The strokes of a glyph

  /** The painter's order: a fragment goes to its own top, but with a background never above the last row painted. */
  function Strokes(t: Target, fs: seq<Fragment>, row: nat, width: nat, height: nat): seq<Stroke> {
    if fs == [] then
      if t.bg != 0 then [Band(row, height, width)] else []
    else
      var start := Start(t, fs[0], row);
      (if t.bg != 0 then [Band(row, fs[0].top, width)] else [])
      + [Stamp(fs[0], start)] + Strokes(t, fs[1..], start + fs[0].rows, width, height)
  }

  function Start(t: Target, f: Fragment, row: nat): nat {
    if t.bg != 0 && f.top < row then row else f.top
  }

  lemma {:induction false} ColoursJoin(t: Target, a: seq<Stroke>, b: seq<Stroke>, r: nat, c: nat, v: uint32)
    ensures Colours(t, a + b, r, c, v) == Colours(t, b, r, c, Colours(t, a, r, c, v))
  {
    if b == [] {
      assert a + b == a;
    } else {
      var n := |b| - 1;
      ColoursJoin(t, a, b[..n], r, c, v);
      assert (a + b)[..|a| + n] == a + b[..n];
    }
  }

  lemma ColoursOne(t: Target, k: Stroke, r: nat, c: nat, v: uint32)
    ensures Colours(t, [k], r, c, v) == Colour(t, k, r, c, v)
  {
    assert [k][..0] == [];
  }

  /** Some fragment, put at its own top, has ink at the pixel. */
  predicate Inked(fs: seq<Fragment>, r: nat, c: nat) {
    fs != [] && ((r >= fs[0].top && fs[0].InkAt(r - fs[0].top, c)) || Inked(fs[1..], r, c))
  }

  /** Without a background, a pixel turns to the foreground exactly where some fragment has ink. */
  lemma {:induction false} TransparentPicture(t: Target, fs: seq<Fragment>, row: nat, width: nat, height: nat,
                                              r: nat, c: nat, v: uint32)
    requires t.bg == 0
    ensures Colours(t, Strokes(t, fs, row, width, height), r, c, v) == if Inked(fs, r, c) then t.fg else v
  {
    if fs != [] {
      var k := Stamp(fs[0], fs[0].top);
      var rest := Strokes(t, fs[1..], fs[0].top + fs[0].rows, width, height);
      ColoursJoin(t, [k], rest, r, c, v);
      ColoursOne(t, k, r, c, v);
      TransparentPicture(t, fs[1..], fs[0].top + fs[0].rows, width, height, r, c, Colour(t, k, r, c, v));
      assert Strokes(t, fs, row, width, height) == [k] + rest;
    }
  }

  /** The strokes lie one below another without a gap. */
  predicate Tiled(ks: seq<Stroke>, row: nat) {
    ks == [] || (ks[0].First() == row && Tiled(ks[1..], row + ks[0].Rows()))
  }

  /** With a background, every row from the first on belongs to one stroke alone. */
  lemma {:induction false} OpaqueTiles(t: Target, fs: seq<Fragment>, row: nat, width: nat, height: nat)
    requires t.bg != 0
    ensures Tiled(Strokes(t, fs, row, width, height), row)
  {
    if fs != [] {
      var b, k := Band(row, fs[0].top, width), Stamp(fs[0], Start(t, fs[0], row));
      var rest := Strokes(t, fs[1..], k.start + fs[0].rows, width, height);
      OpaqueTiles(t, fs[1..], k.start + fs[0].rows, width, height);
      var ks := [b] + [k] + rest;
      assert ks[1..] == [k] + rest && ks[1..][1..] == rest;
    }
  }

  /** So the pixel shows that one stroke, whatever the painter did before and after. */
  lemma {:induction false} TileShows(t: Target, ks: seq<Stroke>, row: nat, i: nat, r: nat, c: nat, v: uint32)
    requires Tiled(ks, row) && i < |ks| && ks[i].First() <= r < ks[i].First() + ks[i].Rows()
    ensures row <= r && Colours(t, ks, r, c, v) == Colour(t, ks[i], r, c, v)
  {
    var rest := ks[1..];
    ColoursJoin(t, [ks[0]], rest, r, c, v);
    ColoursOne(t, ks[0], r, c, v);
    assert [ks[0]] + rest == ks;
    if i == 0 {
      TilesBelow(t, rest, row + ks[0].Rows(), r, c, Colour(t, ks[0], r, c, v));
    } else {
      TileShows(t, rest, row + ks[0].Rows(), i - 1, r, c, Colour(t, ks[0], r, c, v));
    }
  }

  lemma {:induction false} TilesBelow(t: Target, ks: seq<Stroke>, row: nat, r: nat, c: nat, v: uint32)
    requires Tiled(ks, row) && r < row
    ensures Colours(t, ks, r, c, v) == v
  {
    if ks != [] {
      ColoursJoin(t, [ks[0]], ks[1..], r, c, v);
      ColoursOne(t, ks[0], r, c, v);
      assert [ks[0]] + ks[1..] == ks;
      TilesBelow(t, ks[1..], row + ks[0].Rows(), r, c, v);
    }
  }

  /** Fragments from top to bottom that do not overlap. */
  predicate Ordered(fs: seq<Fragment>, row: nat) {
    fs == [] || (fs[0].top >= row && Ordered(fs[1..], fs[0].top + fs[0].rows))
  }

  /** The fragments where the painter puts them with a background: each moved down below the one before. */
  function MovedDown(t: Target, fs: seq<Fragment>, row: nat): seq<Fragment> {
    if fs == [] then []
    else
      var f := fs[0].(top := Start(t, fs[0], row));
      [f] + MovedDown(t, fs[1..], f.top + f.rows)
  }

  lemma {:induction false} MovedIsOrdered(t: Target, fs: seq<Fragment>, row: nat)
    requires t.bg != 0
    ensures Ordered(MovedDown(t, fs, row), row)
  {
    if fs != [] {
      var start := Start(t, fs[0], row);
      MovedIsOrdered(t, fs[1..], start + fs[0].rows);
      assert MovedDown(t, fs, row)[1..] == MovedDown(t, fs[1..], start + fs[0].rows);
    }
  }

  /** Exactly the ordered fragments stay where they are. */
  lemma {:induction false} OrderedStay(t: Target, fs: seq<Fragment>, row: nat)
    requires t.bg != 0
    ensures MovedDown(t, fs, row) == fs <==> Ordered(fs, row)
  {
    if fs != [] {
      var start := Start(t, fs[0], row);
      var rest := MovedDown(t, fs[1..], start + fs[0].rows);
      OrderedStay(t, fs[1..], start + fs[0].rows);
      assert MovedDown(t, fs, row) == [fs[0].(top := start)] + rest;
      assert fs == [fs[0]] + fs[1..];
      assert MovedDown(t, fs, row) == fs ==> MovedDown(t, fs, row)[0] == fs[0] && MovedDown(t, fs, row)[1..] == fs[1..];
    }
  }

  /** The background reaches as far as the fragment of the row, or as the glyph where no fragment lies. */
  predicate Backed(fs: seq<Fragment>, row: nat, width: nat, height: nat, r: nat, c: nat) {
    if fs == [] then row <= r < height && c < width
    else if r < fs[0].top then row <= r && c < width
    else if r < fs[0].top + fs[0].rows then c < fs[0].columns
    else Backed(fs[1..], fs[0].top + fs[0].rows, width, height, r, c)
  }

  /** The band above a fragment and its bitmap. */
  function Head(t: Target, f: Fragment, row: nat, width: nat, r: nat, c: nat, v: uint32): uint32 {
    Colour(t, Stamp(f, Start(t, f, row)), r, c, Colour(t, Band(row, f.top, width), r, c, v))
  }

  lemma HeadShows(t: Target, f: Fragment, g: Fragment, row: nat, width: nat, r: nat, c: nat, v: uint32)
    requires t.bg != 0 && g == f.(top := Start(t, f, row))
    ensures Head(t, f, row, width, r, c, v) ==
            if r < g.top then (if row <= r && c < width then t.bg else v)
            else if r < g.top + g.rows then (if c >= g.columns then v else if g.InkAt(r - g.top, c) then t.fg else t.bg)
            else v
  {
  }

  lemma HeadFirst(t: Target, fs: seq<Fragment>, row: nat, width: nat, height: nat, r: nat, c: nat, v: uint32)
    requires t.bg != 0 && fs != []
    ensures Colours(t, Strokes(t, fs, row, width, height), r, c, v) ==
            Colours(t, Strokes(t, fs[1..], Start(t, fs[0], row) + fs[0].rows, width, height), r, c,
                    Head(t, fs[0], row, width, r, c, v))
  {
    var b, k := Band(row, fs[0].top, width), Stamp(fs[0], Start(t, fs[0], row));
    var rest := Strokes(t, fs[1..], k.start + fs[0].rows, width, height);
    ColoursJoin(t, [b] + [k], rest, r, c, v);
    ColoursJoin(t, [b], [k], r, c, v);
    ColoursOne(t, b, r, c, v);
    ColoursOne(t, k, r, c, Colour(t, b, r, c, v));
  }

  /** The ink of ordered fragments, on their background, over v. */
  function Shown(t: Target, fs: seq<Fragment>, row: nat, width: nat, height: nat, r: nat, c: nat, v: uint32): uint32 {
    if Inked(fs, r, c) then t.fg
    else if Backed(fs, row, width, height, r, c) then t.bg
    else v
  }

  /** With a background the pixel shows the ink of the moved fragments, on as much background as they have. */
  lemma {:induction false} OpaquePicture(t: Target, fs: seq<Fragment>, row: nat, width: nat, height: nat,
                                         r: nat, c: nat, v: uint32)
    requires t.bg != 0
    ensures Colours(t, Strokes(t, fs, row, width, height), r, c, v) ==
            Shown(t, MovedDown(t, fs, row), row, width, height, r, c, v)
  {
    if fs == [] {
      ColoursOne(t, Band(row, height, width), r, c, v);
    } else {
      var g := fs[0].(top := Start(t, fs[0], row));
      var below := g.top + g.rows;
      var v1, rest := Head(t, fs[0], row, width, r, c, v), MovedDown(t, fs[1..], below);
      HeadFirst(t, fs, row, width, height, r, c, v);
      HeadShows(t, fs[0], g, row, width, r, c, v);
      OpaquePicture(t, fs[1..], below, width, height, r, c, v1);
      MovedIsOrdered(t, fs[1..], below);
      Topmost(t, g, rest, row, width, height, r, c, v, v1);
    }
  }

  lemma Topmost(t: Target, g: Fragment, rest: seq<Fragment>, row: nat, width: nat, height: nat, r: nat, c: nat,
                v: uint32, v1: uint32)
    requires Ordered(rest, g.top + g.rows) && g.top >= row
    requires v1 == if r < g.top then (if row <= r && c < width then t.bg else v)
                   else if r < g.top + g.rows then (if c >= g.columns then v else if g.InkAt(r - g.top, c) then t.fg else t.bg)
                   else v
    ensures Shown(t, [g] + rest, row, width, height, r, c, v) == Shown(t, rest, g.top + g.rows, width, height, r, c, v1)
  {
    assert ([g] + rest)[1..] == rest;
    if r < g.top + g.rows {
      NotYet(rest, g.top + g.rows, width, height, r, c);
    }
  }

  lemma {:induction false} NotYet(fs: seq<Fragment>, row: nat, width: nat, height: nat, r: nat, c: nat)
    requires Ordered(fs, row) && r < row
    ensures !Inked(fs, r, c) && !Backed(fs, row, width, height, r, c)
  {
    if fs != [] {
      NotYet(fs[1..], fs[0].top + fs[0].rows, width, height, r, c);
    }
  }

  // When the ink is the same with and without a background

  predicate Blank(f: Fragment) {
    forall r: nat, c: nat | r < f.rows && c < f.columns :: !f.InkAt(r, c)
  }

  /** Every fragment that is moved down is blank. */
  predicate MovesNoInk(t: Target, fs: seq<Fragment>, row: nat) {
    fs == [] ||
    ((Start(t, fs[0], row) == fs[0].top || Blank(fs[0])) && MovesNoInk(t, fs[1..], Start(t, fs[0], row) + fs[0].rows))
  }

  /** The first row behind the fragments. */
  function End(t: Target, fs: seq<Fragment>, row: nat): nat {
    if fs == [] then row else End(t, fs[1..], Start(t, fs[0], row) + fs[0].rows)
  }

  lemma {:induction false} LastOf(t: Target, fs: seq<Fragment>, f: Fragment, row: nat)
    ensures var g := f.(top := Start(t, f, End(t, fs, row)));
            && MovedDown(t, fs + [f], row) == MovedDown(t, fs, row) + [g]
            && (MovesNoInk(t, fs + [f], row) <==> MovesNoInk(t, fs, row) && (g.top == f.top || Blank(f)))
  {
    if fs == [] {
      assert fs + [f] == [f] && [f][1..] == [];
    } else {
      assert (fs + [f])[1..] == fs[1..] + [f];
      LastOf(t, fs[1..], f, Start(t, fs[0], row) + fs[0].rows);
    }
  }

  lemma {:induction false} InkOfLast(fs: seq<Fragment>, f: Fragment, r: nat, c: nat)
    ensures Inked(fs + [f], r, c) <==> Inked(fs, r, c) || (r >= f.top && f.InkAt(r - f.top, c))
  {
    if fs == [] {
      assert fs + [f] == [f] && [f][1..] == [];
    } else {
      assert (fs + [f])[1..] == fs[1..] + [f];
      InkOfLast(fs[1..], f, r, c);
    }
  }

  /** With a background neither the fragments nor where they are moved to reach below that row. */
  lemma {:induction false} InkEnds(t: Target, fs: seq<Fragment>, row: nat, r: nat, c: nat)
    requires t.bg != 0
    ensures End(t, fs, row) >= row
    ensures Inked(fs, r, c) || Inked(MovedDown(t, fs, row), r, c) ==> r < End(t, fs, row)
  {
    if fs != [] {
      var g := fs[0].(top := Start(t, fs[0], row));
      InkEnds(t, fs[1..], g.top + g.rows, r, c);
      assert ([g] + MovedDown(t, fs[1..], g.top + g.rows))[1..] == MovedDown(t, fs[1..], g.top + g.rows);
    }
  }

  ghost predicate SameInkAt(fs: seq<Fragment>, gs: seq<Fragment>, r: nat, c: nat) {
    Inked(fs, r, c) <==> Inked(gs, r, c)
  }

  /** A bitmap is blank if each of its ink is followed by more ink k rows below. */
  lemma {:induction false} NoEndlessInk(f: Fragment, k: nat, r: nat, c: nat)
    requires k > 0 && forall r: nat :: f.InkAt(r, c) ==> f.InkAt(r + k, c)
    ensures !f.InkAt(r, c)
    decreases f.rows - r
  {
    if f.InkAt(r, c) {
      NoEndlessInk(f, k, r + k, c);
    }
  }

  /** If the pictures agree, the last fragment is not moved or is blank, since below End it alone has ink. */
  lemma LastMovesNoInk(t: Target, fs: seq<Fragment>, f: Fragment, row: nat)
    requires t.bg != 0
    requires forall r: nat, c: nat :: SameInkAt(fs + [f], MovedDown(t, fs + [f], row), r, c)
    ensures Start(t, f, End(t, fs, row)) == f.top || Blank(f)
  {
    var end := End(t, fs, row);
    if f.top < end {
      forall r: nat, c: nat | r < f.rows && c < f.columns
        ensures !f.InkAt(r, c)
      {
        forall d: nat
          ensures f.InkAt(d, c) ==> f.InkAt(d + (end - f.top), c)
        {
          assert SameInkAt(fs + [f], MovedDown(t, fs + [f], row), end + d, c);
          LastOf(t, fs, f, row);
          InkOfLast(fs, f, end + d, c);
          InkOfLast(MovedDown(t, fs, row), f.(top := end), end + d, c);
          InkEnds(t, fs, row, end + d, c);
        }
        NoEndlessInk(f, end - f.top, r, c);
      }
    }
  }

  /** Then the pictures of the others agree as well. */
  lemma FrontAgrees(t: Target, fs: seq<Fragment>, f: Fragment, row: nat, r: nat, c: nat)
    requires t.bg != 0 && SameInkAt(fs + [f], MovedDown(t, fs + [f], row), r, c)
    requires Start(t, f, End(t, fs, row)) == f.top || Blank(f)
    ensures SameInkAt(fs, MovedDown(t, fs, row), r, c)
  {
    var g := f.(top := Start(t, f, End(t, fs, row)));
    LastOf(t, fs, f, row);
    InkOfLast(fs, f, r, c);
    InkOfLast(MovedDown(t, fs, row), g, r, c);
    InkEnds(t, fs, row, r, c);
  }

  lemma {:induction false} AgreeingMovesNoInk(t: Target, fs: seq<Fragment>, row: nat)
    requires t.bg != 0
    requires forall r: nat, c: nat :: SameInkAt(fs, MovedDown(t, fs, row), r, c)
    ensures MovesNoInk(t, fs, row)
    decreases |fs|
  {
    if fs != [] {
      var front, f := fs[..|fs| - 1], fs[|fs| - 1];
      assert fs == front + [f];
      LastMovesNoInk(t, front, f, row);
      forall r: nat, c: nat
        ensures SameInkAt(front, MovedDown(t, front, row), r, c)
      {
        assert SameInkAt(fs, MovedDown(t, fs, row), r, c);
        FrontAgrees(t, front, f, row, r, c);
      }
      AgreeingMovesNoInk(t, front, row);
      LastOf(t, front, f, row);
    }
  }

  lemma {:induction false} MovingNoInkAgrees(t: Target, fs: seq<Fragment>, row: nat, r: nat, c: nat)
    requires MovesNoInk(t, fs, row)
    ensures SameInkAt(fs, MovedDown(t, fs, row), r, c)
  {
    if fs != [] {
      var g := fs[0].(top := Start(t, fs[0], row));
      var rest := MovedDown(t, fs[1..], g.top + g.rows);
      MovingNoInkAgrees(t, fs[1..], g.top + g.rows, r, c);
      assert ([g] + rest)[1..] == rest;
      assert forall d: nat :: g.InkAt(d, c) == fs[0].InkAt(d, c);
    }
  }

  /** The pixel shows the foreground in both pictures, over v, or in none. */
  ghost predicate ShowsAlike(t: Target, u: Target, fs: seq<Fragment>, row: nat, width: nat, height: nat, r: nat, c: nat, v: uint32) {
    Colours(t, Strokes(t, fs, row, width, height), r, c, v) == t.fg <==>
    Colours(u, Strokes(u, fs, row, width, height), r, c, v) == t.fg
  }

  lemma AlikeIsSameInk(t: Target, u: Target, fs: seq<Fragment>, row: nat, width: nat, height: nat, r: nat, c: nat, v: uint32)
    requires t.bg != 0 && u.bg == 0 && t.fg == u.fg && t.fg != t.bg && t.fg != v
    ensures ShowsAlike(t, u, fs, row, width, height, r, c, v) <==> SameInkAt(fs, MovedDown(t, fs, row), r, c)
  {
    OpaquePicture(t, fs, row, width, height, r, c, v);
    TransparentPicture(u, fs, row, width, height, r, c, v);
  }

  /** The ink is the same with and without a background exactly when every fragment that is moved down is blank. */
  lemma SameInk(t: Target, u: Target, fs: seq<Fragment>, row: nat, width: nat, height: nat, v: uint32)
    requires t.bg != 0 && u.bg == 0 && t.fg == u.fg && t.fg != t.bg && t.fg != v
    ensures (forall r: nat, c: nat :: ShowsAlike(t, u, fs, row, width, height, r, c, v)) <==> MovesNoInk(t, fs, row)
  {
    if forall r: nat, c: nat :: ShowsAlike(t, u, fs, row, width, height, r, c, v) {
      forall r: nat, c: nat
        ensures SameInkAt(fs, MovedDown(t, fs, row), r, c)
      {
        assert ShowsAlike(t, u, fs, row, width, height, r, c, v);
        AlikeIsSameInk(t, u, fs, row, width, height, r, c, v);
      }
      AgreeingMovesNoInk(t, fs, row);
    }
    if MovesNoInk(t, fs, row) {
      forall r: nat, c: nat
        ensures ShowsAlike(t, u, fs, row, width, height, r, c, v)
      {
        MovingNoInkAgrees(t, fs, row, r, c);
        AlikeIsSameInk(t, u, fs, row, width, height, r, c, v);
      }
    }
  }

  /** Two fragments of one full row at row 0, of which the second moves to row 1. */
  lemma OverlapMovesInk(t: Target, u: Target, v: uint32)
    requires t.bg != 0 && u.bg == 0 && t.fg == u.fg && t.fg != t.bg && t.fg != v
    ensures var f := Fragment(0, 8, 1, [0xFF]);
            && !MovesNoInk(t, [f, f], 0)
            && Colours(t, Strokes(t, [f, f], 0, 8, 2), 1, 0, v) == t.fg
            && Colours(u, Strokes(u, [f, f], 0, 8, 2), 1, 0, v) == v
  {
    var f := Fragment(0, 8, 1, [0xFF]);
    var g := f.(top := 1);
    OpaquePicture(t, [f, f], 0, 8, 2, 1, 0, v);
    TransparentPicture(u, [f, f], 0, 8, 2, 1, 0, v);
    assert [f, f][1..] == [f] && [f][1..] == [] && [g][1..] == [] && [f, g][1..] == [g];
    assert MovedDown(t, [f], 1) == [g];
    assert MovedDown(t, [f, f], 0) == [f] + [g] == [f, g];
    assert g.InkAt(0, 0) && f.InkAt(0, 0) && !f.InkAt(1, 0);
    assert !Blank(f) && !MovesNoInk(t, [f], 1);
    assert Inked([g], 1, 0) && !Inked([f], 1, 0);
    assert !Inked([f, f], 1, 0);
  }

  // What is painted and what is still to paint

  /** Painting b over what is there gives the picture of a over what was there. */
  ghost predicate Owes(t: Target, before: seq<uint32>, after: seq<uint32>, a: seq<Stroke>, b: seq<Stroke>)
    requires t.Fits(|before|)
  {
    && |after| == |before|
    && (forall Y: nat, X: nat | Y < t.h && X < t.s :: t.Word(Y, X) < |after| && PixelOwes(t, before, after, a, b, Y, X))
    && (forall i: nat | i < |after| && i >= t.h * t.s :: after[i] == before[i])
  }

  ghost predicate PixelOwes(t: Target, before: seq<uint32>, after: seq<uint32>, a: seq<Stroke>, b: seq<Stroke>, Y: nat, X: nat)
    requires Y < t.h && X < t.s && t.Word(Y, X) < |before| == |after|
  {
    if t.y <= Y && t.x <= X < t.w
    then Colours(t, b, Y - t.y, X - t.x, after[t.Word(Y, X)]) == Colours(t, a, Y - t.y, X - t.x, before[t.Word(Y, X)])
    else after[t.Word(Y, X)] == before[t.Word(Y, X)]
  }

  lemma OwesAll(t: Target, before: seq<uint32>, a: seq<Stroke>)
    requires t.Fits(|before|)
    ensures Owes(t, before, before, a, a)
  {
    WordsOf(t, |before|);
    forall Y: nat, X: nat | Y < t.h && X < t.s
      ensures PixelOwes(t, before, before, a, a, Y, X)
    {
    }
  }

  lemma OwesNothing(t: Target, before: seq<uint32>, after: seq<uint32>, a: seq<Stroke>)
    requires t.Fits(|before|) && Owes(t, before, after, a, [])
    ensures AllPainted(t, before, after, a)
  {
    forall Y: nat, X: nat | Y < t.h && X < t.s
      ensures t.Word(Y, X) < |after| && PixelDone(t, before, after, a, Y, X)
    {
      assert PixelOwes(t, before, after, a, [], Y, X);
    }
  }

  lemma Paid(t: Target, before: seq<uint32>, mid: seq<uint32>, after: seq<uint32>, a: seq<Stroke>, k: Stroke, b: seq<Stroke>)
    requires t.Fits(|before|) && Owes(t, before, mid, a, [k] + b) && Painted(t, mid, after, k)
    ensures Owes(t, before, after, a, b)
  {
    forall Y: nat, X: nat | Y < t.h && X < t.s
      ensures t.Word(Y, X) < |after| && PixelOwes(t, before, after, a, b, Y, X)
    {
      assert PixelOwes(t, before, mid, a, [k] + b, Y, X) && PixelPainted(t, mid, after, k, Y, X);
      if t.y <= Y && t.x <= X < t.w {
        ColoursJoin(t, [k], b, Y - t.y, X - t.x, mid[t.Word(Y, X)]);
        ColoursOne(t, k, Y - t.y, X - t.x, mid[t.Word(Y, X)]);
      }
    }
  }

  /** From two rows that are the same, or both below a pixel, the rest of the glyph looks the same there. */
  lemma SameRest(t: Target, fs: seq<Fragment>, row: nat, low: nat, width: nat, height: nat, r: nat, c: nat, v: uint32)
    requires row == low || t.bg == 0 || (r < row && r < low)
    ensures Colours(t, Strokes(t, fs, row, width, height), r, c, v) == Colours(t, Strokes(t, fs, low, width, height), r, c, v)
  {
    if t.bg == 0 {
      TransparentPicture(t, fs, row, width, height, r, c, v);
      TransparentPicture(t, fs, low, width, height, r, c, v);
    } else if row != low {
      OpaqueTiles(t, fs, row, width, height);
      OpaqueTiles(t, fs, low, width, height);
      TilesBelow(t, Strokes(t, fs, row, width, height), row, r, c, v);
      TilesBelow(t, Strokes(t, fs, low, width, height), low, r, c, v);
    }
  }

  /** Below the lower edge it does not matter where the painter stands. */
  lemma RestHidden(t: Target, before: seq<uint32>, after: seq<uint32>, a: seq<Stroke>, fs: seq<Fragment>,
                   row: nat, low: nat, width: nat, height: nat)
    requires t.Fits(|before|) && Owes(t, before, after, a, Strokes(t, fs, low, width, height))
    requires row == low || t.bg == 0 || (row <= low && t.y + row >= t.h)
    ensures Owes(t, before, after, a, Strokes(t, fs, row, width, height))
  {
    var b, d := Strokes(t, fs, low, width, height), Strokes(t, fs, row, width, height);
    forall Y: nat, X: nat | Y < t.h && X < t.s
      ensures t.Word(Y, X) < |after| && PixelOwes(t, before, after, a, d, Y, X)
    {
      assert PixelOwes(t, before, after, a, b, Y, X);
      if t.y <= Y && t.x <= X < t.w {
        SameRest(t, fs, row, low, width, height, Y - t.y, X - t.x, after[t.Word(Y, X)]);
      }
    }
  }

  lemma StampHidden(t: Target, before: seq<uint32>, after: seq<uint32>, f: Fragment, row: nat, low: nat)
    requires t.Fits(|before|) && Painted(t, before, after, Stamp(f, row))
    requires row == low || (row <= low && t.y + row >= t.h)
    ensures Painted(t, before, after, Stamp(f, low))
  {
    SameOnScreen(t, before, after, Stamp(f, row), Stamp(f, low));
  }

  /** A fragment painted where the painter has come to. */
  lemma FragmentPaid(t: Target, before: seq<uint32>, now: seq<uint32>, mid: seq<uint32>, after: seq<uint32>, a: seq<Stroke>,
                     f: Fragment, fs: seq<Fragment>, first: nat, row: nat, width: nat, height: nat)
    requires t.Fits(|before|) && Owes(t, before, now, a, Strokes(t, [f] + fs, first, width, height))
    requires if t.bg != 0 then Painted(t, now, mid, Band(first, f.top, width)) else mid == now
    requires |mid| == |before| && Painted(t, mid, after, Stamp(f, Start(t, f, first)))
    requires var low := Start(t, f, first) + f.rows; row == low || (row <= low && t.y + row >= t.h)
    ensures Owes(t, before, after, a, Strokes(t, fs, row, width, height))
  {
    var k, low := Stamp(f, Start(t, f, first)), Start(t, f, first) + f.rows;
    var rest := Strokes(t, fs, low, width, height);
    assert ([f] + fs)[1..] == fs;
    if t.bg != 0 {
      var b := Band(first, f.top, width);
      assert Strokes(t, [f] + fs, first, width, height) == [b] + ([k] + rest);
      Paid(t, before, now, mid, a, b, [k] + rest);
    } else {
      assert Strokes(t, [f] + fs, first, width, height) == [k] + rest;
    }
    Paid(t, before, mid, after, a, k, rest);
    RestHidden(t, before, after, a, fs, row, low, width, height);
  }

  // Strokes on the sides that have no test

  /**
   * The stroke starts inside by itself, since nothing tests its first row against 0, and where the
   * code tests no limit across, or none down, it ends inside by itself.
   */
  predicate InRoom(t: Target, across: bool, down: bool, k: Stroke) {
    && (k.Rows() > 0 ==> t.y + k.First() >= 0)
    && (across ==> t.x + k.Width() <= t.w)
    && (down && k.Rows() > 0 ==> t.y + k.First() + k.Rows() <= t.h)
  }

  predicate Roomy(t: Target, across: bool, down: bool, ks: seq<Stroke>) {
    ks == [] || (InRoom(t, across, down, ks[0]) && Roomy(t, across, down, ks[1..]))
  }

  /** With both limits and a cursor not above the buffer there is room for everything. */
  lemma {:induction false} AlwaysRoomy(t: Target, ks: seq<Stroke>)
    requires t.y >= 0
    ensures Roomy(t, false, false, ks)
  {
    if ks != [] {
      AlwaysRoomy(t, ks[1..]);
    }
  }

  lemma RoomOfStrokes(t: Target, across: bool, down: bool, f: Fragment, fs: seq<Fragment>, row: nat, width: nat, height: nat)
    ensures var start := Start(t, f, row);
            Roomy(t, across, down, Strokes(t, [f] + fs, row, width, height)) <==>
            && (t.bg != 0 ==> InRoom(t, across, down, Band(row, f.top, width)))
            && InRoom(t, across, down, Stamp(f, start))
            && Roomy(t, across, down, Strokes(t, fs, start + f.rows, width, height))
  {
    var b, k := Band(row, f.top, width), Stamp(f, Start(t, f, row));
    var rest := Strokes(t, fs, k.start + f.rows, width, height);
    assert ([f] + fs)[1..] == fs;
    assert ([k] + rest)[1..] == rest;
    assert ([b] + [k] + rest)[1..] == [k] + rest;
  }

  /** From another row inside the buffer the rest fits as well, but for the lower edge. */
  lemma {:induction false} RoomAcross(t: Target, across: bool, fs: seq<Fragment>, row: nat, low: nat, width: nat, height: nat)
    requires Roomy(t, across, false, Strokes(t, fs, low, width, height)) && (t.bg == 0 || t.y + row >= 0)
    ensures Roomy(t, across, false, Strokes(t, fs, row, width, height))
  {
    if fs != [] {
      assert fs == [fs[0]] + fs[1..];
      RoomOfStrokes(t, across, false, fs[0], fs[1..], low, width, height);
      RoomOfStrokes(t, across, false, fs[0], fs[1..], row, width, height);
      RoomAcross(t, across, fs[1..], Start(t, fs[0], row) + fs[0].rows, Start(t, fs[0], low) + fs[0].rows, width, height);
    } else if t.bg != 0 {
      assert [Band(row, height, width)][1..] == [];
    }
  }

  /** A fragment leaves room for the rest, from the row that the painter has come to. */
  lemma RoomBelow(t: Target, across: bool, down: bool, f: Fragment, fs: seq<Fragment>, first: nat, row: nat,
                  width: nat, height: nat)
    requires f.rows > 0 && Roomy(t, across, down, Strokes(t, [f] + fs, first, width, height))
    requires var low := Start(t, f, first) + f.rows;
             row == low || (row <= low && t.y + row >= t.h && (t.bg == 0 || t.y + row >= 0))
    ensures Roomy(t, across, down, Strokes(t, fs, row, width, height))
  {
    RoomOfStrokes(t, across, down, f, fs, first, width, height);
    var low := Start(t, f, first) + f.rows;
    if row != low && !down {
      RoomAcross(t, across, fs, row, low, width, height);
    }
  }
}
