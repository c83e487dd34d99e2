/** What a painted glyph shows, told by the bytes of its record and of the font. */
module GlyphBytes {
  import opened Bits
  import opened GlyphTable
  import opened GlyphWriting
  import opened Picture
  import opened Console

  /** Descriptor k of a record. */
  function Descriptor(r: seq<uint8>, k: nat): (d: seq<uint8>)
    requires Whole(r) && k < r[1]
    ensures |d| == 5 || |d| == 6
  {
    if r[0] / 0x40 % 2 == 0 then r[6 + 5 * k..11 + 5 * k] else r[6 + 6 * k..12 + 6 * k]
  }

  /** The place that a descriptor names, low byte first, behind the two bytes of its column and row. */
  function Named(d: seq<uint8>): nat
    requires |d| == 5 || |d| == 6
  {
    var a: nat, b: nat, c: nat, e: nat := d[2], d[3], d[4], if |d| == 6 then d[5] else 0;
    a + 0x100 * b + 0x1_0000 * c + 0x100_0000 * e
  }

  /** A descriptor of 255, 255 is none, and a fragment of another kind than a bitmap is not drawn. */
  predicate Bitmap(font: seq<uint8>, d: seq<uint8>)
    requires |d| == 5 || |d| == 6
  {
    !(d[0] == 255 && d[1] == 255) && Named(d) + 1 < |font| && 0x80 <= font[Named(d)] <= 0x9F
  }

  /** Columns and rows of the bitmap at a place. */
  function Across(font: seq<uint8>, place: nat): nat
    requires place < |font|
  {
    var kind: nat := font[place];
    8 * (kind % 0x20 + 1)
  }

  function Down(font: seq<uint8>, place: nat): nat
    requires place + 1 < |font|
  {
    var last: nat := font[place + 1];
    last + 1
  }

  /** The bit of row i and column j of the bitmap at a place, behind its two bytes of size. */
  predicate Dotted(font: seq<uint8>, place: nat, i: nat, j: nat)
    requires place + 1 < |font|
  {
    && i < Down(font, place) && j < Across(font, place)
    && var n := i * Across(font, place) + j;
       place + 2 + n / 8 < |font| && Bit(font[place + 2 + n / 8], n % 8)
  }

  lemma DrawnIsBitmap(font: seq<uint8>, d: seq<uint8>)
    requires (|d| == 5 || |d| == 6) && Sound(font, d)
    ensures Drawn(font, d) <==> Bitmap(font, d)
  {
  }

  /** The bytes of a drawn descriptor say what its fragment is. */
  lemma PartReads(font: seq<uint8>, d: seq<uint8>, f: Fragment, place: nat, i: nat, j: nat)
    requires (|d| == 5 || |d| == 6) && Sound(font, d) && Bitmap(font, d) && place == Named(d)
    requires Drawn(font, d) && f == Part(font, d)
    ensures f.top == d[1] && f.rows == Down(font, place) && f.columns == Across(font, place)
    ensures f.InkAt(i, j) <==> Dotted(font, place, i, j)
  {
    PartIsStored(font, d, f, place);
    StoredReads(font, place, f, i, j);
  }

  lemma PartIsStored(font: seq<uint8>, d: seq<uint8>, f: Fragment, place: nat)
    requires (|d| == 5 || |d| == 6) && Sound(font, d) && Bitmap(font, d) && place == Named(d)
    requires Drawn(font, d) && f == Part(font, d)
    ensures f.top == d[1] && Stored(font, place, f)
  {
  }

  lemma StoredReads(font: seq<uint8>, place: nat, f: Fragment, i: nat, j: nat)
    requires place + 1 < |font| && Stored(font, place, f)
    ensures f.rows == Down(font, place) && f.columns == Across(font, place)
    ensures f.InkAt(i, j) <==> Dotted(font, place, i, j)
  {
    StoredMasks(font, place, f);
    if i < f.rows && j < f.columns {
      RowFits(f, i);
      var n := i * f.columns + j;
      assert f.bits[n / 8] == font[place + 2 + n / 8];
    }
  }

  // ---------- Without a background ----------

  /** A descriptor puts ink there. */
  predicate Marks(font: seq<uint8>, d: seq<uint8>, row: nat, c: nat)
    requires |d| == 5 || |d| == 6
  {
    Bitmap(font, d) && row >= d[1] && Dotted(font, Named(d), row - d[1], c)
  }

  /** One of the descriptors in these bytes does. */
  predicate Marked(font: seq<uint8>, ds: seq<uint8>, size: nat, row: nat, c: nat)
    requires size == 5 || size == 6
  {
    |ds| >= size && (Marks(font, ds[..size], row, c) || Marked(font, ds[size..], size, row, c))
  }

  lemma MarkReads(font: seq<uint8>, d: seq<uint8>, f: Fragment, row: nat, c: nat)
    requires (|d| == 5 || |d| == 6) && Sound(font, d) && Bitmap(font, d) && Drawn(font, d) && f == Part(font, d)
    ensures Marks(font, d, row, c) <==> row >= f.top && f.InkAt(row - f.top, c)
  {
    PartReads(font, d, f, Named(d), if row >= d[1] then row - d[1] else 0, c);
  }

  lemma InkedFirst(fs: seq<Fragment>, f: Fragment, rest: seq<Fragment>, row: nat, c: nat)
    requires fs == [f] + rest
    ensures Inked(fs, row, c) <==> (row >= f.top && f.InkAt(row - f.top, c)) || Inked(rest, row, c)
  {
    assert fs[1..] == rest;
  }

  /** The fragments have ink where some descriptor puts it. */
  lemma {:induction false} InkIsMarked(font: seq<uint8>, ds: seq<uint8>, size: nat, row: nat, c: nat)
    requires (size == 5 || size == 6) && AllSound(font, ds, size)
    ensures Inked(Parts(font, ds, size), row, c) <==> Marked(font, ds, size, row, c)
    decreases |ds|
  {
    if |ds| >= size {
      var d := ds[..size];
      InkIsMarked(font, ds[size..], size, row, c);
      DrawnIsBitmap(font, d);
      if Bitmap(font, d) {
        MarkReads(font, d, Part(font, d), row, c);
        InkedFirst(Parts(font, ds, size), Part(font, d), Parts(font, ds[size..], size), row, c);
      }
    }
  }

  /** Descriptor k in these bytes. */
  predicate Enough(ds: seq<uint8>, size: nat, k: nat) {
    if size == 5 then 5 * k + 5 <= |ds| else size == 6 && 6 * k + 6 <= |ds|
  }

  function Nth(ds: seq<uint8>, size: nat, k: nat): (d: seq<uint8>)
    requires Enough(ds, size, k)
    ensures |d| == size
  {
    if size == 5 then ds[5 * k..5 * k + 5] else ds[6 * k..6 * k + 6]
  }

  lemma NthBehind(ds: seq<uint8>, size: nat, k: nat, rest: seq<uint8>)
    requires (size == 5 || size == 6) && |ds| >= size && rest == ds[size..]
    ensures Nth(ds, size, 0) == ds[..size]
    ensures Enough(ds, size, k + 1) <==> Enough(rest, size, k)
    ensures Enough(rest, size, k) ==> Nth(ds, size, k + 1) == Nth(rest, size, k)
  {
  }

  lemma {:induction false} MarkedByOne(font: seq<uint8>, ds: seq<uint8>, size: nat, row: nat, c: nat) returns (k: nat)
    requires (size == 5 || size == 6) && Marked(font, ds, size, row, c)
    ensures Enough(ds, size, k) && Marks(font, Nth(ds, size, k), row, c)
    decreases |ds|
  {
    k := 0;
    if Marks(font, ds[..size], row, c) {
      NthBehind(ds, size, 0, ds[size..]);
    } else {
      var j := MarkedByOne(font, ds[size..], size, row, c);
      NthBehind(ds, size, j, ds[size..]);
      k := j + 1;
    }
  }

  lemma {:induction false} OneMarks(font: seq<uint8>, ds: seq<uint8>, size: nat, k: nat, row: nat, c: nat)
    requires (size == 5 || size == 6) && Enough(ds, size, k) && Marks(font, Nth(ds, size, k), row, c)
    ensures Marked(font, ds, size, row, c)
    decreases k
  {
    if k > 0 {
      NthBehind(ds, size, k - 1, ds[size..]);
      OneMarks(font, ds[size..], size, k - 1, row, c);
    }
  }

  /** Some descriptor of a record puts ink there. */
  ghost predicate SomeMark(font: seq<uint8>, r: seq<uint8>, row: nat, c: nat)
    requires Whole(r)
  {
    exists k: nat :: k < r[1] && Marks(font, Descriptor(r, k), row, c)
  }

  lemma RecordMarks(font: seq<uint8>, r: seq<uint8>, size: nat, row: nat, c: nat)
    requires Whole(r) && size == FragmentSize(r[0])
    ensures Marked(font, r[6..], size, row, c) <==> SomeMark(font, r, row, c)
  {
    if Marked(font, r[6..], size, row, c) {
      var k := MarkedByOne(font, r[6..], size, row, c);
      DescriptorIs(r, size, k);
    }
    if SomeMark(font, r, row, c) {
      var k: nat :| k < r[1] && Marks(font, Descriptor(r, k), row, c);
      DescriptorIs(r, size, k);
      OneMarks(font, r[6..], size, k, row, c);
    }
  }

  lemma DescriptorIs(r: seq<uint8>, size: nat, k: nat)
    requires Whole(r) && size == FragmentSize(r[0])
    ensures Enough(r[6..], size, k) <==> k < r[1]
    ensures k < r[1] ==> Descriptor(r, k) == Nth(r[6..], size, k)
  {
  }

  // ---------- With a background ----------

  /**
   * What a pixel shows that showed v: in the rows of a bitmap its bits as wide as it is, above them
   * down from the row reached a band as wide as the glyph, and below them what the rest makes of it.
   */
  function Banded(font: seq<uint8>, place: nat, top: nat, reached: nat, t: Target, width: nat, row: nat, c: nat,
                  v: uint32, below: uint32): uint32
    requires place + 1 < |font|
  {
    if row < top then
      if reached <= row && c < width then t.bg else v
    else if row < top + Down(font, place) then
      if c >= Across(font, place) then v else if Dotted(font, place, row - top, c) then t.fg else t.bg
    else
      below
  }

  /**
   * The picture of the descriptors in these bytes, below the row reached: a bitmap starts at its own
   * row or at that one, and below the last there is background as far down as the glyph goes.
   */
  function Pictured(font: seq<uint8>, ds: seq<uint8>, size: nat, reached: nat, t: Target, width: nat, height: nat,
                    row: nat, c: nat, v: uint32): uint32
    requires size == 5 || size == 6
    decreases |ds|
  {
    if |ds| < size then
      if reached <= row < height && c < width then t.bg else v
    else
      var d, rest := ds[..size], ds[size..];
      if !Bitmap(font, d) then Pictured(font, rest, size, reached, t, width, height, row, c, v)
      else
        var top := if d[1] < reached then reached else d[1];
        Banded(font, Named(d), top, reached, t, width, row, c, v,
               Pictured(font, rest, size, top + Down(font, Named(d)), t, width, height, row, c, v))
  }

  /** The strokes of the fragments below a row show the picture of their descriptors. */
  lemma {:induction false} StrokesShow(font: seq<uint8>, ds: seq<uint8>, size: nat, fs: seq<Fragment>, reached: nat, t: Target,
                                       width: nat, height: nat, row: nat, c: nat, v: uint32)
    requires (size == 5 || size == 6) && AllSound(font, ds, size) && fs == Parts(font, ds, size) && t.bg != 0
    ensures Colours(t, Strokes(t, fs, reached, width, height), row, c, v) ==
            Pictured(font, ds, size, reached, t, width, height, row, c, v)
    decreases |ds|
  {
    if |ds| < size {
      ColoursOne(t, Band(reached, height, width), row, c, v);
    } else {
      var d, rest, tail := ds[..size], ds[size..], Parts(font, ds[size..], size);
      DrawnIsBitmap(font, d);
      if !Bitmap(font, d) {
        StrokesShow(font, rest, size, tail, reached, t, width, height, row, c, v);
      } else {
        var top: nat := if d[1] < reached then reached else d[1];
        var below := top + Down(font, Named(d));
        StrokesShow(font, rest, size, tail, below, t, width, height, row, c, v);
        var later := Pictured(font, rest, size, below, t, width, height, row, c, v);
        FirstShows(font, d, Part(font, d), tail, fs, reached, top, below, t, width, height, row, c, v, later);
        PicturedFirst(font, ds, size, d, rest, reached, top, below, t, width, height, row, c, v, later);
      }
    }
  }

  lemma PicturedFirst(font: seq<uint8>, ds: seq<uint8>, size: nat, d: seq<uint8>, rest: seq<uint8>, reached: nat, top: nat,
                      below: nat, t: Target, width: nat, height: nat, row: nat, c: nat, v: uint32, later: uint32)
    requires (size == 5 || size == 6) && |ds| >= size && d == ds[..size] && rest == ds[size..] && Bitmap(font, d)
    requires top == (if d[1] < reached then reached else d[1]) && below == top + Down(font, Named(d))
    requires later == Pictured(font, rest, size, below, t, width, height, row, c, v)
    ensures Pictured(font, ds, size, reached, t, width, height, row, c, v) ==
            Banded(font, Named(d), top, reached, t, width, row, c, v, later)
  {
  }

  /** The first fragment settles the rows above its end. */
  lemma FirstShows(font: seq<uint8>, d: seq<uint8>, f: Fragment, rest: seq<Fragment>, fs: seq<Fragment>, reached: nat,
                   top: nat, below: nat, t: Target, width: nat, height: nat, row: nat, c: nat, v: uint32, later: uint32)
    requires (|d| == 5 || |d| == 6) && Sound(font, d) && Bitmap(font, d) && Drawn(font, d) && f == Part(font, d)
    requires fs == [f] + rest && top == (if d[1] < reached then reached else d[1]) && t.bg != 0
    requires below == top + Down(font, Named(d)) && later == Colours(t, Strokes(t, rest, below, width, height), row, c, v)
    ensures Colours(t, Strokes(t, fs, reached, width, height), row, c, v) ==
            Banded(font, Named(d), top, reached, t, width, row, c, v, later)
  {
    var g := f.(top := top);
    BandReads(font, d, f, g, Named(d), reached, below, t, width, row, c, v, later);
    UpperRows(t, f, g, rest, fs, reached, below, width, height, row, c, v, later);
  }

  lemma BandReads(font: seq<uint8>, d: seq<uint8>, f: Fragment, g: Fragment, place: nat, reached: nat, below: nat,
                  t: Target, width: nat, row: nat, c: nat, v: uint32, later: uint32)
    requires (|d| == 5 || |d| == 6) && Sound(font, d) && Bitmap(font, d) && Drawn(font, d) && f == Part(font, d)
    requires g == f.(top := g.top) && place == Named(d) && below == g.top + Down(font, place)
    ensures f.top == d[1] && f.rows == Down(font, place)
    ensures Banded(font, place, g.top, reached, t, width, row, c, v, later) ==
            if row < g.top then (if reached <= row && c < width then t.bg else v)
            else if row < below then (if c >= g.columns then v else if g.InkAt(row - g.top, c) then t.fg else t.bg)
            else later
  {
    PartIsStored(font, d, f, place);
    BitsBand(font, place, f, g, reached, below, t, width, row, c, v, later);
  }

  lemma BitsBand(font: seq<uint8>, place: nat, f: Fragment, g: Fragment, reached: nat, below: nat,
                 t: Target, width: nat, row: nat, c: nat, v: uint32, later: uint32)
    requires place + 1 < |font| && Stored(font, place, f) && g == f.(top := g.top) && below == g.top + Down(font, place)
    ensures f.rows == Down(font, place)
    ensures Banded(font, place, g.top, reached, t, width, row, c, v, later) ==
            if row < g.top then (if reached <= row && c < width then t.bg else v)
            else if row < below then (if c >= g.columns then v else if g.InkAt(row - g.top, c) then t.fg else t.bg)
            else later
  {
    var i := if row >= g.top then row - g.top else 0;
    StoredReads(font, place, g, i, c);
  }

  lemma UpperRows(t: Target, f: Fragment, g: Fragment, rest: seq<Fragment>, fs: seq<Fragment>, reached: nat, below: nat,
                  width: nat, height: nat, row: nat, c: nat, v: uint32, later: uint32)
    requires fs == [f] + rest && g == f.(top := Start(t, f, reached)) && below == g.top + g.rows && t.bg != 0
    requires later == Colours(t, Strokes(t, rest, below, width, height), row, c, v)
    ensures Colours(t, Strokes(t, fs, reached, width, height), row, c, v) ==
            if row < g.top then (if reached <= row && c < width then t.bg else v)
            else if row < below then (if c >= g.columns then v else if g.InkAt(row - g.top, c) then t.fg else t.bg)
            else later
  {
    var v1 := Picture.Head(t, f, reached, width, row, c, v);
    assert fs[0] == f && fs[1..] == rest;
    HeadFirst(t, fs, reached, width, height, row, c, v);
    HeadShows(t, f, g, reached, width, row, c, v);
    if row < below {
      OpaqueTiles(t, rest, below, width, height);
      TilesBelow(t, Strokes(t, rest, below, width, height), below, row, c, v1);
    }
  }

  // ---------- The glyph on the frame buffer ----------

  /**
   * A painted record, pixel by pixel and byte by byte: without a background the pixels under a set bit
   * of some bitmap turn to the foreground, with one the whole picture of its descriptors appears.
   */
  lemma GlyphAppears(t: Target, before: seq<uint32>, after: seq<uint32>, font: seq<uint8>, r: seq<uint8>, Y: nat, X: nat, i: nat)
    requires t.Fits(|before|) && SoundGlyph(font, r) && AllPainted(t, before, after, GlyphStrokes(t, font, r))
    requires Y < t.h && X < t.s && i == Y * t.s + X
    ensures Whole(r) && i < |before| == |after|
    ensures !(t.y <= Y && t.x <= X < t.w) ==> after[i] == before[i]
    ensures t.y <= Y && t.x <= X < t.w && t.bg == 0 ==>
              after[i] == if SomeMark(font, r, Y - t.y, X - t.x) then t.fg else before[i]
    ensures t.y <= Y && t.x <= X < t.w && t.bg != 0 ==>
              var size := if r[0] / 0x40 % 2 == 0 then 5 else 6;
              after[i] == Pictured(font, r[6..], size, 0, t, r[2], r[3], Y - t.y, X - t.x, before[i])
  {
    WholeRecord(r);
    WordsOf(t, |before|);
    assert i == t.Word(Y, X) && PixelDone(t, before, after, GlyphStrokes(t, font, r), Y, X);
    if t.y <= Y && t.x <= X < t.w {
      RecordShows(t, font, r, FragmentSize(r[0]), Y - t.y, X - t.x, before[i]);
    }
  }

  lemma WholeRecord(r: seq<uint8>)
    requires |r| >= 6 && |r| == RecordSize(r[0], r[1])
    ensures Whole(r) && FragmentSize(r[0]) == if r[0] / 0x40 % 2 == 0 then 5 else 6
  {
  }

  lemma RecordShows(t: Target, font: seq<uint8>, r: seq<uint8>, size: nat, row: nat, c: nat, v: uint32)
    requires SoundGlyph(font, r) && Whole(r) && size == FragmentSize(r[0])
    ensures t.bg == 0 ==> Colours(t, GlyphStrokes(t, font, r), row, c, v) == if SomeMark(font, r, row, c) then t.fg else v
    ensures t.bg != 0 ==>
              Colours(t, GlyphStrokes(t, font, r), row, c, v) == Pictured(font, r[6..], size, 0, t, r[2], r[3], row, c, v)
  {
    var ds := r[6..];
    var fs := Parts(font, ds, size);
    if t.bg == 0 {
      TransparentPicture(t, fs, 0, r[2], r[3], row, c, v);
      InkIsMarked(font, ds, size, row, c);
      RecordMarks(font, r, size, row, c);
    } else {
      StrokesShow(font, ds, size, fs, 0, t, r[2], r[3], row, c, v);
    }
  }

  // ---------- A whole font ----------

  /**
   * A font that is written out, with its magic bytes, the place of its table in bytes 16 to 19 and
   * there the table of its entries, is one that the renderer can use, and stands for those entries.
   */
  lemma WrittenFont(font: seq<uint8>, es: seq<Entry>, p: nat) returns (codes: seq<Code>)
    requires 32 <= |font| < 0x8000_0000 && font[..4] == [0x53, 0x46, 0x4E, 0x32]
    requires var a: nat, b: nat, c: nat, d: nat := font[16], font[17], font[18], font[19];
             p == a + 0x100 * b + 0x1_0000 * c + 0x100_0000 * d
    requires Ascending(es, 0, 0x11_0000)
    requires var t := TableBytes(es, 0, 0x11_0000); p + |t| <= |font| && font[p..p + |t|] == t
    requires forall u <- MapOf(es) :: SoundGlyph(font, MapOf(es)[u])
    ensures Magic(font) && Legible(font, codes) && Glyphs(codes, 0) == MapOf(es)
  {
    MagicBytes(font);
    codes := TableReads(es, 0, 0x11_0000);
  }
}
