/** The console renderer: ssfn_putc finds a glyph and blits its fragments. */
module Console {
  import opened Bits
  import opened ByteMasks
  import opened GlyphTable
  import opened Picture
  import opened Wrappers

  const SSFN_OK := 0
  const SSFN_ERR_INVINP := -4
  const SSFN_ERR_NOGLYPH := -7

  function LittleEndian(a: nat, b: nat, c: nat, d: nat): nat {
    a + 0x100 * b + 0x1_0000 * c + 0x100_0000 * d
  }

  /** A font starts with SFN2 in a head of 32 bytes, which says where its character table is. */
  predicate Magic(font: seq<uint8>)
    requires |font| >= 32
  {
    font[0] == 0x53 && font[1] == 0x46 && font[2] == 0x4E && font[3] == 0x32
  }

  lemma MagicBytes(font: seq<uint8>)
    requires |font| >= 32
    ensures Magic(font) <==> font[..4] == [0x53, 0x46, 0x4E, 0x32]
  {
    var head := font[..4];
    assert head[0] == font[0] && head[1] == font[1] && head[2] == font[2] && head[3] == font[3];
    assert Magic(font) ==> head == [0x53, 0x46, 0x4E, 0x32];
  }

  function Characters(font: seq<uint8>): nat
    requires |font| >= 32
  {
    LittleEndian(font[16], font[17], font[18], font[19])
  }

  // The fragments of a glyph record

  /** A descriptor of 5 or 6 bytes: x, y and the place of the fragment in the file. */
  function Place(d: seq<uint8>): nat
    requires |d| == 5 || |d| == 6
  {
    LittleEndian(d[2], d[3], d[4], if |d| == 6 then d[5] else 0)
  }

  predicate NoFragment(d: seq<uint8>)
    requires |d| >= 2
  {
    d[0] == 255 && d[1] == 255
  }

  /** A bitmap has 100 in the top three bits of its first byte. */
  predicate IsBitmap(kind: nat) {
    kind / 0x20 == 4
  }

  function RowBytes(kind: nat): nat {
    kind % 0x20 + 1
  }

  function DataSize(kind: nat, last: nat): nat {
    RowBytes(kind) * (last + 1)
  }

  predicate Sound(font: seq<uint8>, d: seq<uint8>)
    requires |d| == 5 || |d| == 6
  {
    NoFragment(d) ||
    (Place(d) < |font| && (IsBitmap(font[Place(d)]) ==>
      Place(d) + 2 <= |font| && Place(d) + 2 + DataSize(font[Place(d)], font[Place(d) + 1]) <= |font|))
  }

  predicate Drawn(font: seq<uint8>, d: seq<uint8>)
    requires (|d| == 5 || |d| == 6) && Sound(font, d)
  {
    !NoFragment(d) && IsBitmap(font[Place(d)])
  }

  function Part(font: seq<uint8>, d: seq<uint8>): Fragment
    requires (|d| == 5 || |d| == 6) && Sound(font, d) && Drawn(font, d)
  {
    var frg := Place(d);
    var last: nat := font[frg + 1];
    Fragment(d[1], RowBytes(font[frg]) * 8, last + 1, font[frg + 2..frg + 2 + DataSize(font[frg], font[frg + 1])])
  }

  predicate AllSound(font: seq<uint8>, ds: seq<uint8>, size: nat)
    requires size == 5 || size == 6
  {
    |ds| < size || (Sound(font, ds[..size]) && AllSound(font, ds[size..], size))
  }

  /** The fragments that are drawn, in the order of their descriptors. */
  function Parts(font: seq<uint8>, ds: seq<uint8>, size: nat): seq<Fragment>
    requires (size == 5 || size == 6) && AllSound(font, ds, size)
  {
    if |ds| < size then []
    else
      var rest := Parts(font, ds[size..], size);
      if Drawn(font, ds[..size]) then [Part(font, ds[..size])] + rest else rest
  }

  ghost predicate SoundGlyph(font: seq<uint8>, r: seq<uint8>) {
    |r| >= 6 && |r| == RecordSize(r[0], r[1]) && AllSound(font, r[6..], FragmentSize(r[0]))
  }

  /** The strokes that paint a glyph record. */
  ghost function GlyphStrokes(t: Target, font: seq<uint8>, r: seq<uint8>): seq<Stroke>
    requires SoundGlyph(font, r)
  {
    Strokes(t, Parts(font, r[6..], FragmentSize(r[0])), 0, r[2], r[3])
  }

  /**
   * What a painted glyph shows: without a background the ink of its fragments at their tops, with one
   * the ink of the fragments as they are moved down, on as much background as they have.
   */
  lemma GlyphShows(t: Target, before: seq<uint32>, after: seq<uint32>, font: seq<uint8>, r: seq<uint8>, Y: nat, X: nat)
    requires t.Fits(|before|) && SoundGlyph(font, r) && AllPainted(t, before, after, GlyphStrokes(t, font, r))
    requires Y < t.h && X < t.s
    ensures t.Word(Y, X) < |before| == |after|
    ensures var v, fs := before[t.Word(Y, X)], Parts(font, r[6..], FragmentSize(r[0]));
            after[t.Word(Y, X)] ==
            if !(t.y <= Y && t.x <= X < t.w) then v
            else if t.bg == 0 then (if Inked(fs, Y - t.y, X - t.x) then t.fg else v)
            else Shown(t, MovedDown(t, fs, 0), 0, r[2], r[3], Y - t.y, X - t.x, v)
  {
    WordsOf(t, |before|);
    assert PixelDone(t, before, after, GlyphStrokes(t, font, r), Y, X);
    if t.y <= Y && t.x <= X < t.w {
      var v, fs := before[t.Word(Y, X)], Parts(font, r[6..], FragmentSize(r[0]));
      if t.bg == 0 {
        TransparentPicture(t, fs, 0, r[2], r[3], Y - t.y, X - t.x, v);
      } else {
        OpaquePicture(t, fs, 0, r[2], r[3], Y - t.y, X - t.x, v);
      }
    }
  }

  /** A fragment at its place in the file: two bytes of size and the bits. */
  ghost predicate Stored(font: seq<uint8>, place: nat, f: Fragment) {
    && place + 2 + |f.bits| <= |font| && f.bits == font[place + 2..place + 2 + |f.bits|]
    && f.columns == RowBytes(font[place]) * 8 && f.rows == font[place + 1] as nat + 1
    && |f.bits| == DataSize(font[place], font[place + 1])
  }

  lemma StoredMasks(font: seq<uint8>, place: nat, f: Fragment)
    requires Stored(font, place, f)
    ensures Shl(And(font[place], 0x1F) + 1, 3) == f.columns
    ensures 8 * |f.bits| == f.columns * f.rows
  {
    PayloadBits(font[place]);
    TimesEight(RowBytes(font[place]), f.rows);
  }

  lemma TimesEight(b: nat, n: nat)
    ensures Shl(b, 3) == b * 8
    ensures 8 * (b * n) == b * 8 * n
  {
    ShlIsMul(b, 3);
    assert Pow2(3) == 8;
  }

  /** The bits before row r. */
  function RowStart(f: Fragment, r: nat): nat {
    r * f.columns
  }

  lemma RowFits(f: Fragment, r: nat)
    requires r < f.rows && 8 * |f.bits| == f.columns * f.rows
    ensures RowStart(f, r) + f.columns <= 8 * |f.bits|
    ensures RowStart(f, r + 1) == RowStart(f, r) + f.columns
  {
    MulGap(f.columns, r, f.rows);
  }

  /** What a bit of a fragment makes of the word under it. */
  function Dot(t: Target, f: Fragment, n: nat, v: uint32): uint32 {
    if f.Ink(n) then t.fg else if t.bg != 0 then t.bg else v
  }

  /** The first l words of a row show the bits from n on, where they are inside the rectangle. */
  ghost predicate Dots(t: Target, f: Fragment, n: nat, before: seq<uint32>, after: seq<uint32>, o: int, l: nat) {
    && |after| == |before|
    && forall i: nat | i < |after| ::
         after[i] == if o <= i < o + l && i - o < t.Columns() && i - o + t.x >= 0
                     then Dot(t, f, n + (i - o), before[i]) else before[i]
  }

  lemma DotsGrow(t: Target, f: Fragment, n: nat, before: seq<uint32>, mid: seq<uint32>, after: seq<uint32>, o: int, l: nat)
    requires Dots(t, f, n, before, mid, o, l)
    requires if t.x + l >= 0 && l < t.Columns() then 0 <= o + l < |mid| && after == mid[o + l := Dot(t, f, n + l, mid[o + l])]
             else after == mid
    ensures Dots(t, f, n, before, after, o, l + 1)
  {
  }

  lemma DotsPaint(t: Target, before: seq<uint32>, after: seq<uint32>, f: Fragment, start: nat, row: nat, n: nat, o: int)
    requires start <= row < start + f.rows && n == RowStart(f, row - start)
    requires Dots(t, f, n, before, after, o, f.columns)
    ensures RowPainted(t, before, after, Stamp(f, start), row, o)
  {
  }

  /** The byte and the mask that denote bit n of the bits from base on; the mask may stand past its byte. */
  ghost predicate BitAt(base: nat, n: nat, frg: nat, m: nat, e: nat) {
    e <= 8 && m == Pow2(e) && frg >= base && n == 8 * (frg - base) + e
  }

  lemma BitUnder(font: seq<uint8>, f: Fragment, base: nat, n: nat, frg: nat, m: nat, e: nat)
    requires BitAt(base, n, frg, m, e) && e < 8 && n < 8 * |f.bits|
    requires base + |f.bits| <= |font| && font[base..base + |f.bits|] == f.bits
    ensures frg < |font| && (And(font[frg], m) != 0 <==> f.Ink(n))
  {
    assert f.bits[frg - base] == font[frg];
    assert n / 8 == frg - base && n % 8 == e;
    TestBitOf(font[frg], e);
  }

  /** A table that covers all code points, with sound glyphs, in a file whose places fit an int. */
  ghost predicate Legible(font: seq<uint8>, codes: seq<Code>)
    requires |font| >= 32
  {
    && |font| < 0x8000_0000
    && ValidTable(codes) && Holds(font, Characters(font), codes) && Spans(codes) >= CODE_POINTS
    && forall u <- Glyphs(codes, 0) :: SoundGlyph(font, Glyphs(codes, 0)[u])
  }

  /** The bytes of n descriptors. */
  function Descriptors(n: nat, size: nat): nat {
    if n == 0 then 0 else size + Descriptors(n - 1, size)
  }

  lemma {:induction false} DescriptorsSize(n: nat, size: nat)
    ensures Descriptors(n, size) == n * size
  {
    if n > 0 {
      DescriptorsSize(n - 1, size);
    }
  }

  lemma RecordHead(font: seq<uint8>, chr: nat, r: seq<uint8>)
    requires SoundGlyph(font, r) && chr + |r| <= |font| && font[chr..chr + |r|] == r
    ensures forall i: nat | i < 6 :: font[chr + i] == r[i]
    ensures FragmentSize(r[0]) == if And(font[chr], 0x40) != 0 then 6 else 5
    ensures |r| == 6 + Descriptors(r[1], FragmentSize(r[0]))
    ensures font[chr + 6..chr + |r|] == r[6..]
  {
    var w := font[chr..chr + |r|];
    assert forall i: nat | i < 6 :: font[chr + i] == w[i];
    assert w[0] == font[chr];
    TopTwo(font[chr]);
    assert font[chr + 6..chr + |r|] == w[6..];
    DescriptorsSize(r[1], FragmentSize(r[0]));
  }

  /** What the code reads of the descriptor under its pointer. */
  lemma DescriptorHead(font: seq<uint8>, ptr: nat, ds: seq<uint8>, size: nat)
    requires (size == 5 || size == 6) && |ds| >= size && AllSound(font, ds, size)
    requires ptr + |ds| <= |font| && font[ptr..ptr + |ds|] == ds
    ensures font[ptr] == ds[0] && font[ptr + 1] == ds[1]
    ensures font[ptr + size..ptr + |ds|] == ds[size..]
    ensures AllSound(font, ds[size..], size) && Sound(font, ds[..size])
    ensures size == 5 ==>
              Or(Or(Shl(font[ptr + 4], 16), Shl(font[ptr + 3], 8)), font[ptr + 2]) == Place(ds[..size])
    ensures size == 6 ==>
              Or(Or(Or(Shl(font[ptr + 5], 24), Shl(font[ptr + 4], 16)), Shl(font[ptr + 3], 8)), font[ptr + 2]) == Place(ds[..size])
    ensures !NoFragment(ds[..size]) ==>
              (And(font[Place(ds[..size])], 0xE0) == 0x80 <==> Drawn(font, ds[..size]))
    ensures Drawn(font, ds[..size]) ==> Stored(font, Place(ds[..size]), Part(font, ds[..size]))
  {
    var w, d := font[ptr..ptr + |ds|], ds[..size];
    assert forall i: nat | i < size :: font[ptr + i] == w[i] == d[i];
    assert font[ptr + size..ptr + |ds|] == w[size..];
    if size == 5 {
      ThreeBytes(d[4], d[3], d[2]);
    } else {
      FourBytes(d[5], d[4], d[3], d[2]);
    }
    if !NoFragment(d) {
      TopThree(font[Place(d)]);
    }
  }

  lemma LeftApart(t: Target, row: nat, top: nat)
    ensures Left(t, top) == Left(t, row) + (top - row) * t.s
  {
  }

  class Console {
    var src: Option<seq<uint8>>
    var pixels: array<uint32>
    var w: int
    var h: int
    var p: nat
    var x: int
    var y: int
    var fg: uint32
    var bg: uint32
    ghost var rows: nat  // how many rows the buffer has, for h = 0

    /**
     * The pitch is of whole words and holds a row. Left of the rows only a cursor without background
     * can stand, since the loops that fill it test no column against 0.
     */
    ghost predicate Valid()
      reads this
    {
      p != 0 ==> p % 4 == 0 && Frame().Fits(pixels.Length) && (bg != 0 ==> x >= 0)
    }

    /** The target: w is negative for ABGR pixels, and a w or h of 0 is no limit but the buffer's own. */
    ghost function Frame(): Target
      reads this
    {
      Target(if w == 0 then p / 4 else if w < 0 then -w else w, if h == 0 then rows else h, p / 4, x, y, fg, bg)
    }

    /** A stroke stays inside the buffer on the sides that have no test. */
    ghost predicate Room(k: Stroke)
      reads this
    {
      InRoom(Frame(), w == 0, h == 0, k)
    }

    /** One row of background. */
    method FillRow(o: nat, width: nat, ghost k: Stroke, ghost r: nat)
      requires Valid() && p != 0 && bg != 0 && k.Band? && k.lo <= r < k.hi && k.width == width && Room(k)
      requires Frame().Columns() > 0 ==> o + Frame().Columns() <= pixels.Length
      modifies pixels
      ensures RowPainted(Frame(), old(pixels[..]), pixels[..], k, r, o)
    {
      var wide := if w < 0 then -w else w;
      var q, j := o, 0;
      while j < width && (wide == 0 || x + j < wide)
        invariant 0 <= j <= width && q == o + j && j <= Frame().Columns()
        invariant forall i: nat | i < pixels.Length :: pixels[i] == if o <= i < o + j then bg else old(pixels[i])
      {
        pixels[q] := bg;
        j := j + 1;
        q := q + 1;
      }
    }

    /** The rows of background down to a row, or to the lower edge. */
    method FillRows(start: int, first: nat, end: nat, width: nat) returns (o: int, row: nat)
      requires Valid() && p != 0 && bg != 0 && start == Left(Frame(), first) && Room(Band(first, end, width))
      modifies pixels
      ensures Painted(Frame(), old(pixels[..]), pixels[..], Band(first, end, width))
      ensures first <= row && o == Left(Frame(), row)
      ensures row == first || row <= end
      ensures row >= end || (y + row >= Frame().h && y + row >= 0)
    {
      ghost var t, k, before := Frame(), Band(first, end, width), pixels[..];
      ghost var done := k.Prefix(0);
      var s := p / 4;
      o, row := start, first;
      NoRows(t, before, k);
      while row < end && (h == 0 || y + row < h)
        invariant first <= row && (row == first || row <= end) && o == Left(t, row)
        invariant done == k.Prefix(row - first)
        invariant Painted(t, before, pixels[..], done)
      {
        ghost var mid, next := pixels[..], k.Prefix(row - first + 1);
        RowLeft(t, row, o);
        FillRow(o, width, k, row);
        RowJoins(t, before, mid, pixels[..], k, done, row, o, next);
        row := row + 1;
        o := o + s;
        done := next;
      }
      RowsDone(t, before, pixels[..], k, done, row);
    }

    /** One pixel of a bitmap, inside the rectangle. */
    method PlotDot(q: nat, ink: bool, ghost f: Fragment, ghost before: seq<uint32>, ghost n: nat, ghost o: int, ghost l: nat)
      requires q < pixels.Length && q == o + l && ink == f.Ink(n + l)
      requires x + l >= 0 && l < Frame().Columns() && Dots(Frame(), f, n, before, pixels[..], o, l)
      modifies pixels
      ensures Dots(Frame(), f, n, before, pixels[..], o, l + 1)
    {
      ghost var mid := pixels[..];
      if ink {
        pixels[q] := fg;
        assert pixels[..] == mid[q := fg];
      } else if bg != 0 {
        pixels[q] := bg;
        assert pixels[..] == mid[q := bg];
      } else {
        assert mid == mid[q := mid[q]];
      }
      DotsGrow(Frame(), f, n, before, mid, pixels[..], o, l);
    }

    /** One row of a bitmap: the byte and the mask stand at bit n, and go on to bit n + k. */
    method BlitRow(font: seq<uint8>, first: nat, mask: nat, k: nat, o: int,
                   ghost f: Fragment, ghost base: nat, ghost n: nat, ghost e0: nat)
      returns (frg: nat, m: nat, ghost e: nat)
      requires Valid() && p != 0 && n + k <= 8 * |f.bits|
      requires base + |f.bits| <= |font| && font[base..base + |f.bits|] == f.bits
      requires Frame().Columns() > 0 ==> o + Frame().Columns() <= pixels.Length
      requires o >= 0 || o >= x
      requires w == 0 ==> x + k <= p / 4
      requires BitAt(base, n, first, mask, e0)
      modifies pixels
      ensures BitAt(base, n + k, frg, m, e)
      ensures Dots(Frame(), f, n, old(pixels[..]), pixels[..], o, k)
    {
      ghost var t, before := Frame(), pixels[..];
      var wide := if w < 0 then -w else w;
      var q, l := o, 0;
      frg, m, e := first, mask, e0;
      while l < k
        invariant 0 <= l <= k && q == o + l
        invariant BitAt(base, n + l, frg, m, e)
        invariant Dots(t, f, n, before, pixels[..], o, l)
      {
        MaskPast(m, e);
        if m > 0x80 {
          frg := frg + 1;
          m := 1;
          e := 0;
        }
        BitUnder(font, f, base, n + l, frg, m, e);
        if x + l >= 0 && (wide == 0 || x + l < wide) {
          PlotDot(q, And(font[frg], m) != 0, f, before, n, o, l);
        } else {
          DotsGrow(t, f, n, before, pixels[..], pixels[..], o, l);
        }
        MaskShifts(m, e);
        l := l + 1;
        q := q + 1;
        m := Shl(m, 1);
        e := e + 1;
      }
    }

    /** A bitmap, from its rows on down to the lower edge. */
    method Blit(font: seq<uint8>, place: nat, start: int, first: nat, ghost f: Fragment) returns (o: int, row: nat)
      requires Valid() && p != 0 && start == Left(Frame(), first) && Stored(font, place, f) && Room(Stamp(f, first))
      modifies pixels
      ensures Painted(Frame(), old(pixels[..]), pixels[..], Stamp(f, first))
      ensures first <= row <= first + f.rows && o == Left(Frame(), row)
      ensures row == first + f.rows || (y + row >= Frame().h && y + row >= 0)
    {
      ghost var t, stamp, before := Frame(), Stamp(f, first), pixels[..];
      ghost var done, r, n, e := stamp.Prefix(0), 0, 0, 0;
      var s := p / 4;
      StoredMasks(font, place, f);
      var k := Shl(And(font[place], 0x1F) + 1, 3);
      var j: nat := font[place + 1];
      j := j + 1;
      var frg, m := place + 2, 1;
      o, row := start, first;
      NoRows(t, before, stamp);
      while j != 0 && (h == 0 || y + row < h)
        invariant first <= row && row + j == first + f.rows && o == Left(t, row)
        invariant r == row - first && n == RowStart(f, r) && BitAt(place + 2, n, frg, m, e)
        invariant done == stamp.Prefix(r)
        invariant Painted(t, before, pixels[..], done)
        decreases j
      {
        ghost var mid, next := pixels[..], stamp.Prefix(r + 1);
        RowLeft(t, row, o);
        RowFits(f, r);
        frg, m, e := BlitRow(font, frg, m, k, o, f, place + 2, n, e);
        DotsPaint(t, mid, pixels[..], f, first, row, n, o);
        RowJoins(t, before, mid, pixels[..], stamp, done, row, o, next);
        r, n := r + 1, n + f.columns;
        j := j - 1;
        row := row + 1;
        o := o + s;
        done := next;
      }
      RowsDone(t, before, pixels[..], stamp, done, row);
    }

    /** A fragment: the rows above it, if there is a background, and its bitmap. */
    method PaintFragment(font: seq<uint8>, place: nat, top: nat, width: nat, start: int, first: nat, ghost f: Fragment)
      returns (o: int, row: nat, ghost mid: seq<uint32>)
      requires Valid() && p != 0 && start == Left(Frame(), first) && Stored(font, place, f) && f.top == top
      requires Room(Stamp(f, Picture.Start(Frame(), f, first))) && (bg != 0 ==> Room(Band(first, top, width)))
      modifies pixels
      ensures if bg != 0 then Painted(Frame(), old(pixels[..]), mid, Band(first, top, width)) else mid == old(pixels[..])
      ensures |mid| == pixels.Length && Painted(Frame(), mid, pixels[..], Stamp(f, Picture.Start(Frame(), f, first)))
      ensures o == Left(Frame(), row)
      ensures var low := Picture.Start(Frame(), f, first) + f.rows; row == low || (row <= low && y + row >= Frame().h && y + row >= 0)
    {
      ghost var t := Frame();
      o, row := start, first;
      if bg != 0 {
        o, row := FillRows(o, row, top, width);
      } else {
        LeftApart(t, row, top);
        o := o + (top - row) * (p / 4);
        row := top;
      }
      mid := pixels[..];
      ghost var from := row;
      o, row := Blit(font, place, o, row, f);
      StampHidden(t, mid, pixels[..], f, from, Picture.Start(t, f, first));
    }

    /** One descriptor: nothing, or the fragment it places. The rest of the glyph is still to paint. */
    method PaintNext(font: seq<uint8>, ptr: nat, size: nat, width: nat, start: int, first: nat,
                     ghost ds: seq<uint8>, ghost height: nat, ghost before: seq<uint32>, ghost all: seq<Stroke>)
      returns (o: int, row: nat)
      requires Valid() && p != 0 && (size == 5 || size == 6) && |ds| >= size && AllSound(font, ds, size)
      requires ptr + |ds| <= |font| && font[ptr..ptr + |ds|] == ds
      requires start == Left(Frame(), first) && |before| == pixels.Length
      requires StillToPaint(before, all, Parts(font, ds, size), first, width, height)
      modifies pixels
      ensures font[ptr + size..ptr + |ds|] == ds[size..] && AllSound(font, ds[size..], size) && o == Left(Frame(), row)
      ensures StillToPaint(before, all, Parts(font, ds[size..], size), row, width, height)
    {
      ghost var t, d := Frame(), ds[..size];
      o, row := start, first;
      DescriptorHead(font, ptr, ds, size);
      if !(font[ptr] == 255 && font[ptr + 1] == 255) {
        var place := if size == 6
          then Or(Or(Or(Shl(font[ptr + 5], 24), Shl(font[ptr + 4], 16)), Shl(font[ptr + 3], 8)), font[ptr + 2])
          else Or(Or(Shl(font[ptr + 4], 16), Shl(font[ptr + 3], 8)), font[ptr + 2]);
        if And(font[place], 0xE0) == 0x80 {
          ghost var f, fs, now, mid := Part(font, d), Parts(font, ds[size..], size), pixels[..], [];
          RoomOfStrokes(t, w == 0, h == 0, f, fs, row, width, height);
          o, row, mid := PaintFragment(font, place, font[ptr + 1], width, o, row, f);
          FragmentPaid(t, before, now, mid, pixels[..], all, f, fs, first, row, width, height);
          RoomBelow(t, w == 0, h == 0, f, fs, first, row, width, height);
        }
      }
    }

    /** What is painted and the strokes of fs make up all of the glyph, and those fit. */
    ghost predicate StillToPaint(before: seq<uint32>, all: seq<Stroke>, fs: seq<Fragment>, row: nat, width: nat, height: nat)
      requires Frame().Fits(|before|)
      reads this, pixels
    {
      && Owes(Frame(), before, pixels[..], all, Strokes(Frame(), fs, row, width, height))
      && Roomy(Frame(), w == 0, h == 0, Strokes(Frame(), fs, row, width, height))
    }

    /** The glyph whose record is at chr. */
    method PaintGlyph(font: seq<uint8>, chr: nat, ghost r: seq<uint8>)
      requires Valid() && p != 0 && SoundGlyph(font, r)
      requires chr + |r| <= |font| && font[chr..chr + |r|] == r
      requires Roomy(Frame(), w == 0, h == 0, GlyphStrokes(Frame(), font, r))
      modifies pixels
      ensures AllPainted(Frame(), old(pixels[..]), pixels[..], GlyphStrokes(Frame(), font, r))
    {
      ghost var t, before, ds := Frame(), pixels[..], r[6..];
      ghost var all := GlyphStrokes(t, font, r);
      RecordHead(font, chr, r);
      var size := if And(font[chr], 0x40) != 0 then 6 else 5;
      var width, height: nat, n: nat := font[chr + 2], font[chr + 3], font[chr + 1];
      var ptr, i := chr + 6, 0;
      ghost var left := n;
      var o, row := y * (p / 4) + x, 0;
      OwesAll(t, before, all);
      while i < n
        invariant i + left == n && |ds| == Descriptors(left, size)
        invariant ptr + |ds| <= |font| && font[ptr..ptr + |ds|] == ds && AllSound(font, ds, size)
        invariant o == Left(t, row)
        invariant StillToPaint(before, all, Parts(font, ds, size), row, width, height)
      {
        o, row := PaintNext(font, ptr, size, width, o, row, ds, height, before, all);
        i, left := i + 1, left - 1;
        ds := ds[size..];
        ptr := ptr + size;
      }
      PaintRest(o, row, height, width, before, all);
    }

    /** The rows of background below the last fragment. */
    method PaintRest(start: int, first: nat, height: nat, width: nat, ghost before: seq<uint32>, ghost all: seq<Stroke>)
      requires Valid() && p != 0 && start == Left(Frame(), first) && |before| == pixels.Length
      requires StillToPaint(before, all, [], first, width, height)
      modifies pixels
      ensures AllPainted(Frame(), before, pixels[..], all)
    {
      if bg != 0 {
        ghost var now := pixels[..];
        var o, row := FillRows(start, first, height, width);
        Paid(Frame(), before, now, pixels[..], all, Band(first, height, width), []);
      }
      OwesNothing(Frame(), before, pixels[..], all);
    }

    /** The renderer: an error and no change, or the glyph painted at the cursor and the cursor moved on. */
    method Putc(unicode: nat, ghost codes: seq<Code>) returns (err: int)
      requires Valid() && (src.Some? ==> |src.value| >= 32)
      requires src.Some? && Magic(src.value) && p != 0 ==> Legible(src.value, codes)
      requires src.Some? && Magic(src.value) && p != 0 && unicode in Glyphs(codes, 0) ==>
                 Roomy(Frame(), w == 0, h == 0, GlyphStrokes(Frame(), src.value, Glyphs(codes, 0)[unicode]))
      modifies this`x, this`y, pixels
      ensures err == -4 <==> src.None? || src.value[..4] != [0x53, 0x46, 0x4E, 0x32] || p == 0
      ensures err == -7 <==>
              && src.Some? && src.value[..4] == [0x53, 0x46, 0x4E, 0x32] && p != 0
              && (unicode >= 0x11_0000 || unicode !in Glyphs(codes, 0))
      ensures err == 0 || (pixels[..] == old(pixels[..]) && x == old(x) && y == old(y))
      ensures err == -4 || err == -7 || err == 0
      ensures err == 0 ==>
                var r := Glyphs(codes, 0)[unicode];
                && SoundGlyph(src.value, r) && x == old(x) + r[4] && y == old(y) + r[5]
                && old(Frame()).Fits(pixels.Length)
                && AllPainted(old(Frame()), old(pixels[..]), pixels[..], GlyphStrokes(old(Frame()), src.value, r))
    {
      if src.Some? {
        MagicBytes(src.value);
      }
      if src.None? || src.value[0] != 0x53 || src.value[1] != 0x46 || src.value[2] != 0x4E || src.value[3] != 0x32
         || p == 0 {
        return SSFN_ERR_INVINP;
      }
      var font := src.value;
      var chr := FindGlyph(font, Characters(font), unicode, codes);
      if chr.None? {
        return SSFN_ERR_NOGLYPH;
      }
      ghost var r := Glyphs(codes, 0)[unicode];
      RecordHead(font, chr.value, r);
      PaintGlyph(font, chr.value, r);
      x := x + font[chr.value + 4];
      y := y + font[chr.value + 5];
      return SSFN_OK;
    }
  }
}
