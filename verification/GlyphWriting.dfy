/** Writing a character table byte by byte, and which map the walk of ssfn_putc then finds in it. */
module GlyphWriting {
  import opened Bits
  import opened GlyphTable

  /** A code point and the record of its glyph. */
  datatype Entry = Entry(at: nat, record: seq<uint8>)

  /** A record has a head of six bytes and as many descriptors as its byte 1 says, of five bytes or under bit 6 of six. */
  predicate Whole(r: seq<uint8>) {
    |r| >= 6 && var n: nat := r[1]; |r| == if r[0] / 0x40 % 2 == 0 then 6 + 5 * n else 6 + 6 * n
  }

  /** In a table, bytes from 0x80 on are skips. */
  predicate IsRecord(r: seq<uint8>) {
    Whole(r) && r[0] < 0x80
  }

  /** Entries in the order of their code points, from one on and before another. */
  predicate Ascending(es: seq<Entry>, at: nat, end: nat) {
    if es == [] then at <= end
    else at <= es[0].at && IsRecord(es[0].record) && Ascending(es[1..], es[0].at + 1, end)
  }

  function MapOf(es: seq<Entry>): map<nat, seq<uint8>> {
    if es == [] then map[] else MapOf(es[1..])[es[0].at := es[0].record]
  }

  /** How many code points the first skip of a gap stands for. */
  function Piece(gap: nat): (n: nat)
    requires gap > 0
    ensures 0 < n <= gap
  {
    if gap >= 0x1_0000 then 0x1_0000 else if gap > 0x3F00 then 0x3F00 else gap
  }

  /** A skip of 65536 is one byte, one of up to 64 too, and the others are two. */
  function PieceBytes(n: nat): seq<uint8>
    requires 0 < n <= 0x3F00 || n == 0x1_0000
  {
    if n == 0x1_0000 then [0xFF]
    else if n <= 64 then [0x80 + (n - 1)]
    else [0xC0 + (n - 1) / 0x100, (n - 1) % 0x100]
  }

  function GapBytes(gap: nat): seq<uint8> {
    if gap == 0 then [] else PieceBytes(Piece(gap)) + GapBytes(gap - Piece(gap))
  }

  /** The table of these entries, from one code point up to another. */
  function TableBytes(es: seq<Entry>, at: nat, end: nat): seq<uint8>
    requires Ascending(es, at, end)
  {
    if es == [] then GapBytes(end - at)
    else GapBytes(es[0].at - at) + (es[0].record + TableBytes(es[1..], es[0].at + 1, end))
  }

  // ---------- The codes of a written table ----------

  lemma Prepends(c: Code, rest: seq<Code>, all: seq<Code>, at: nat, from: nat)
    requires c.Valid() && ValidTable(rest) && all == [c] + rest && from == at + c.Span()
    ensures ValidTable(all) && Encode(all) == c.Bytes() + Encode(rest) && Spans(all) == c.Span() + Spans(rest)
    ensures Glyphs(all, at) == if c.Glyph? then Glyphs(rest, from)[at := c.record] else Glyphs(rest, from)
  {
    assert all[0] == c && all[1..] == rest;
  }

  lemma PieceReads(n: nat) returns (c: Code)
    requires 0 < n <= 0x3F00 || n == 0x1_0000
    ensures c.Valid() && !c.Glyph? && c.Bytes() == PieceBytes(n) && c.Span() == n
  {
    c := if n == 0x1_0000 then SkipPage else if n <= 64 then SkipShort(n - 1) else SkipLong(n - 1);
  }

  lemma {:induction false} GapReads(gap: nat, rest: seq<Code>, at: nat, from: nat) returns (codes: seq<Code>)
    requires ValidTable(rest) && from == at + gap
    ensures ValidTable(codes) && Encode(codes) == GapBytes(gap) + Encode(rest)
    ensures Spans(codes) == gap + Spans(rest) && Glyphs(codes, at) == Glyphs(rest, from)
    decreases gap
  {
    if gap == 0 {
      codes := rest;
      assert [] + Encode(rest) == Encode(rest);
    } else {
      var n := Piece(gap);
      var tail := GapReads(gap - n, rest, at + n, from);
      var c := PieceReads(n);
      codes := [c] + tail;
      Prepends(c, tail, codes, at, at + n);
      assert PieceBytes(n) + GapBytes(gap - n) + Encode(rest) == PieceBytes(n) + (GapBytes(gap - n) + Encode(rest));
    }
  }

  lemma EntryReads(gap: nat, r: seq<uint8>, tail: seq<Code>, at: nat, u: nat, next: nat) returns (codes: seq<Code>)
    requires ValidTable(tail) && IsRecord(r) && u == at + gap && next == u + 1
    ensures ValidTable(codes) && Encode(codes) == GapBytes(gap) + (r + Encode(tail))
    ensures Glyphs(codes, at) == Glyphs(tail, next)[u := r] && Spans(codes) == gap + 1 + Spans(tail)
  {
    var c := Glyph(r);
    var all := [c] + tail;
    Prepends(c, tail, all, u, next);
    codes := GapReads(gap, all, at, u);
  }

  lemma TableStep(es: seq<Entry>, at: nat, end: nat, u: nat, tail: seq<Code>, text: seq<uint8>, found: map<nat, seq<uint8>>)
    returns (codes: seq<Code>)
    requires es != [] && Ascending(es, at, end) && u == es[0].at && ValidTable(tail) && Encode(tail) == text
    requires text == TableBytes(es[1..], u + 1, end) && found == MapOf(es[1..])
    requires Glyphs(tail, u + 1) == found && u + 1 + Spans(tail) == end
    ensures ValidTable(codes) && Encode(codes) == TableBytes(es, at, end)
    ensures Glyphs(codes, at) == MapOf(es) && at + Spans(codes) == end
  {
    codes := EntryReads(u - at, es[0].record, tail, at, u, u + 1);
  }

  /** Round trip: a written table is the code of exactly its entries, and spans the code points up to its end. */
  lemma {:induction false} TableReads(es: seq<Entry>, at: nat, end: nat) returns (codes: seq<Code>)
    requires Ascending(es, at, end)
    ensures ValidTable(codes) && Encode(codes) == TableBytes(es, at, end)
    ensures Glyphs(codes, at) == MapOf(es) && at + Spans(codes) == end
    decreases |es|
  {
    if es == [] {
      codes := GapReads(end - at, [], at, end);
      assert GapBytes(end - at) + Encode([]) == GapBytes(end - at);
    } else {
      var u := es[0].at;
      var tail := TableReads(es[1..], u + 1, end);
      codes := TableStep(es, at, end, u, tail, TableBytes(es[1..], u + 1, end), MapOf(es[1..]));
    }
  }

  // ---------- The map is the font's own ----------

  /** Two codes at one place are the same code. */
  lemma SameCode(font: seq<uint8>, p: nat, a: Code, b: Code)
    requires a.Valid() && p + |a.Bytes()| <= |font| && font[p..p + |a.Bytes()|] == a.Bytes()
    requires b.Valid() && p + |b.Bytes()| <= |font| && font[p..p + |b.Bytes()|] == b.Bytes()
    ensures a == b
  {
    HeadBytes(font, p, a);
    HeadBytes(font, p, b);
  }

  lemma Absent(codes: seq<Code>, at: nat, u: nat)
    requires u < at || u >= at + Spans(codes)
    ensures u !in Glyphs(codes, at)
  {
    GlyphsFrom(codes, at);
  }

  /** The first code settles the code points that it spans, and no others. */
  lemma FirstCode(codes: seq<Code>, at: nat, from: nat, u: nat)
    requires codes != [] && from == at + codes[0].Span()
    ensures at <= u < from ==> (u in Glyphs(codes, at) <==> u == at && codes[0].Glyph?)
    ensures u == at && codes[0].Glyph? ==> Glyphs(codes, at)[u] == codes[0].record
    ensures u >= from ==> (u in Glyphs(codes, at) <==> u in Glyphs(codes[1..], from))
    ensures u >= from && u in Glyphs(codes, at) ==> Glyphs(codes, at)[u] == Glyphs(codes[1..], from)[u]
  {
    if u < from {
      Absent(codes[1..], from, u);
    }
  }

  /** The codes that a font is said to hold make no difference: its bytes settle the map that they cover. */
  lemma {:induction false} MapIsSettled(font: seq<uint8>, p: nat, a: seq<Code>, b: seq<Code>, at: nat, u: nat)
    requires ValidTable(a) && ValidTable(b) && Holds(font, p, a) && Holds(font, p, b)
    requires u < at + Spans(a) && u < at + Spans(b)
    ensures u in Glyphs(a, at) <==> u in Glyphs(b, at)
    ensures u in Glyphs(a, at) ==> Glyphs(a, at)[u] == Glyphs(b, at)[u]
    decreases |a|
  {
    if u < at {
      Absent(a, at, u);
      Absent(b, at, u);
    } else {
      var next, from := FirstHeld(font, p, a, b, at);
      FirstCode(a, at, from, u);
      FirstCode(b, at, from, u);
      if u >= from {
        MapIsSettled(font, next, a[1..], b[1..], from, u);
      }
    }
  }

  lemma FirstHeld(font: seq<uint8>, p: nat, a: seq<Code>, b: seq<Code>, at: nat) returns (next: nat, from: nat)
    requires ValidTable(a) && ValidTable(b) && a != [] && b != [] && Holds(font, p, a) && Holds(font, p, b)
    ensures a[0] == b[0] && from == at + a[0].Span()
    ensures Spans(a) == a[0].Span() + Spans(a[1..]) && Spans(b) == b[0].Span() + Spans(b[1..])
    ensures ValidTable(a[1..]) && ValidTable(b[1..]) && Holds(font, next, a[1..]) && Holds(font, next, b[1..])
  {
    HoldsHead(font, p, a);
    HoldsHead(font, p, b);
    SameCode(font, p, a[0], b[0]);
    next, from := p + |a[0].Bytes()|, at + a[0].Span();
  }

  /** The map that the walk finds in a font with a written table: the entries and nothing else. */
  lemma WrittenTableIsFound(font: seq<uint8>, p: nat, es: seq<Entry>, codes: seq<Code>, u: nat)
    requires Ascending(es, 0, 0x11_0000)
    requires var t := TableBytes(es, 0, 0x11_0000); p + |t| <= |font| && font[p..p + |t|] == t
    requires ValidTable(codes) && Holds(font, p, codes) && Spans(codes) >= 0x11_0000 && u < 0x11_0000
    ensures u in Glyphs(codes, 0) <==> u in MapOf(es)
    ensures u in MapOf(es) ==> Glyphs(codes, 0)[u] == MapOf(es)[u]
  {
    var written := TableReads(es, 0, 0x11_0000);
    MapIsSettled(font, p, codes, written, 0, u);
  }
}
