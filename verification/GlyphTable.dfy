/** The character table of a bitmap font, and the walk of ssfn_putc through its skip codes. */
module GlyphTable {
  import opened Bits
  import opened ByteMasks
  import opened Wrappers

  const CODE_POINTS := 0x11_0000

  /**
   * One code of the table: a skip of 65536 code points, of j + 1 in two bytes or in one, or the
   * record of a glyph.
   */
  datatype Code =
    | SkipPage
    | SkipLong(j: nat)
    | SkipShort(j: nat)
    | Glyph(record: seq<uint8>)
  {
    predicate Valid() {
      match this
      case SkipPage => true
      case SkipLong(j) => j < 0x3F00
      case SkipShort(j) => j < 0x40
      case Glyph(r) => |r| >= 6 && r[0] < 0x80 && |r| == RecordSize(r[0], r[1])
    }

    /** The bytes of a code in the font file. */
    function Bytes(): (s: seq<uint8>)
      requires Valid()
      ensures |s| >= 1
    {
      match this
      case SkipPage => [0xFF]
      case SkipLong(j) => [0xC0 + j / 0x100, j % 0x100]
      case SkipShort(j) => [0x80 + j]
      case Glyph(r) => r
    }

    /** How many code points it stands for. */
    function Span(): (n: nat)
      ensures n >= 1
    {
      match this
      case SkipPage => 0x1_0000
      case SkipLong(j) => j + 1
      case SkipShort(j) => j + 1
      case Glyph(_) => 1
    }
  }

  /** A record has a head of 6 bytes and 5 or 6 bytes for every fragment. */
  function RecordSize(kind: uint8, fragments: uint8): (n: nat)
    ensures n >= 6
  {
    6 + fragments * FragmentSize(kind)
  }

  function FragmentSize(kind: uint8): (n: nat)
    ensures n == 5 || n == 6
  {
    if kind / 0x40 % 2 == 1 then 6 else 5
  }

  ghost predicate ValidTable(codes: seq<Code>) {
    forall c <- codes :: c.Valid()
  }

  function Encode(codes: seq<Code>): seq<uint8>
    requires ValidTable(codes)
  {
    if codes == [] then [] else codes[0].Bytes() + Encode(codes[1..])
  }

  function Spans(codes: seq<Code>): nat {
    if codes == [] then 0 else codes[0].Span() + Spans(codes[1..])
  }

  /** The sparse map that a table stands for, from a code point on. */
  function Glyphs(codes: seq<Code>, at: nat): map<nat, seq<uint8>> {
    if codes == [] then map[]
    else
      var rest := Glyphs(codes[1..], at + codes[0].Span());
      if codes[0].Glyph? then rest[at := codes[0].record] else rest
  }

  lemma {:induction false} GlyphsFrom(codes: seq<Code>, at: nat)
    ensures forall u <- Glyphs(codes, at) :: at <= u < at + Spans(codes)
  {
    if codes != [] {
      GlyphsFrom(codes[1..], at + codes[0].Span());
    }
  }

  /** The bytes of the table start at a place of the font. */
  ghost predicate Holds(font: seq<uint8>, p: nat, codes: seq<Code>)
    requires ValidTable(codes)
  {
    p + |Encode(codes)| <= |font| && font[p..p + |Encode(codes)|] == Encode(codes)
  }

  lemma Halves(font: seq<uint8>, p: nat, a: seq<uint8>, b: seq<uint8>)
    requires p + |a| + |b| <= |font| && font[p..p + |a| + |b|] == a + b
    ensures font[p..p + |a|] == a && font[p + |a|..p + |a| + |b|] == b
  {
    var w := font[p..p + |a| + |b|];
    assert w[..|a|] == a && w[|a|..] == b;
    assert font[p..p + |a|] == w[..|a|];
    assert font[p + |a|..p + |a| + |b|] == w[|a|..];
  }

  lemma HoldsHead(font: seq<uint8>, p: nat, codes: seq<Code>)
    requires ValidTable(codes) && codes != [] && Holds(font, p, codes)
    ensures var b := codes[0].Bytes();
            && p + |b| <= |font| && font[p..p + |b|] == b
            && ValidTable(codes[1..]) && Holds(font, p + |b|, codes[1..])
  {
    var b := codes[0].Bytes();
    var rest := Encode(codes[1..]);
    assert Encode(codes) == b + rest;
    Halves(font, p, b, rest);
  }

  /** A skip of one byte has its low 6 bits, one of two bytes also the whole second byte. */
  function ShortSkip(b: nat): nat {
    b % 0x40
  }

  function LongSkip(b: nat, next: nat): nat {
    ShortSkip(b) * 0x100 + next
  }

  /** What the walk sees of the first code. */
  lemma HeadBytes(font: seq<uint8>, p: nat, c: Code)
    requires c.Valid() && p + |c.Bytes()| <= |font| && font[p..p + |c.Bytes()|] == c.Bytes()
    ensures font[p] == c.Bytes()[0] && (|c.Bytes()| > 1 ==> font[p + 1] == c.Bytes()[1])
    ensures c.SkipPage? <==> font[p] == 0xFF
    ensures c.SkipLong? <==> 0xC0 <= font[p] < 0xFF
    ensures c.SkipShort? <==> 0x80 <= font[p] < 0xC0
    ensures c.Glyph? <==> font[p] < 0x80
    ensures c.SkipLong? ==> c.j == LongSkip(font[p], font[p + 1])
    ensures c.SkipShort? ==> c.j == ShortSkip(font[p])
  {
    var b := c.Bytes();
    var w := font[p..p + |b|];
    assert w[0] == font[p] && (|b| > 1 ==> w[1] == font[p + 1]);
  }

  /** The walk stands at code point i with the rest of the table ahead, and all of the map still to find. */
  ghost predicate Ahead(font: seq<uint8>, codes: seq<Code>, rest: seq<Code>, ptr: nat, i: nat, unicode: nat) {
    && ValidTable(rest) && Holds(font, ptr, rest) && i + Spans(rest) >= CODE_POINTS
    && (unicode in Glyphs(codes, 0) <==> unicode in Glyphs(rest, i))
    && (unicode in Glyphs(rest, i) ==> Glyphs(codes, 0)[unicode] == Glyphs(rest, i)[unicode])
  }

  lemma Passes(font: seq<uint8>, codes: seq<Code>, rest: seq<Code>, ptr: nat, i: nat, unicode: nat,
               tail: seq<Code>, next: nat, at: nat)
    requires Ahead(font, codes, rest, ptr, i, unicode) && rest != [] && tail == rest[1..]
    requires rest[0].Valid() && next == ptr + |rest[0].Bytes()| && at == i + rest[0].Span()
    requires rest[0].Glyph? ==> i != unicode
    ensures Ahead(font, codes, tail, next, at, unicode)
  {
    HoldsHead(font, ptr, rest);
  }

  /** The record of a code point that the walk has reached. */
  lemma Finds(font: seq<uint8>, codes: seq<Code>, rest: seq<Code>, ptr: nat, i: nat)
    requires Ahead(font, codes, rest, ptr, i, i) && rest != [] && rest[0].Glyph?
    ensures i in Glyphs(codes, 0)
    ensures var r := Glyphs(codes, 0)[i]; ptr + |r| <= |font| && font[ptr..ptr + |r|] == r
  {
    HoldsHead(font, ptr, rest);
  }

  /** The masks and lengths that the walk computes are those of the code under it. */
  lemma Reads(font: seq<uint8>, ptr: nat, c: Code)
    requires c.Valid() && ptr + |c.Bytes()| <= |font| && font[ptr..ptr + |c.Bytes()|] == c.Bytes()
    ensures c.SkipPage? <==> font[ptr] == 0xFF
    ensures c.SkipLong? <==> font[ptr] != 0xFF && And(font[ptr], 0xC0) == 0xC0
    ensures c.SkipShort? <==> And(font[ptr], 0xC0) == 0x80
    ensures c.SkipLong? ==> ptr + 2 <= |font| && Or(Shl(And(font[ptr], 0x3F), 8), font[ptr + 1]) == c.j
    ensures c.SkipShort? ==> And(font[ptr], 0x3F) == c.j
    ensures c.Glyph? ==> ptr + 2 <= |font| && c.record[0] == font[ptr] && c.record[1] == font[ptr + 1]
    ensures FragmentSize(font[ptr]) == if And(font[ptr], 0x40) != 0 then 6 else 5
  {
    var b := font[ptr];
    HeadBytes(font, ptr, c);
    TopTwo(b);
    PayloadBits(b);
    if c.SkipLong? {
      AppendByte(And(b, 0x3F), font[ptr + 1]);
    }
  }

  /** Which code the walk has under it, by the masks it tests. */
  lemma Head(font: seq<uint8>, codes: seq<Code>, rest: seq<Code>, ptr: nat, i: nat, unicode: nat)
    requires Ahead(font, codes, rest, ptr, i, unicode) && i < CODE_POINTS
    ensures rest != [] && ptr < |font| && rest[0].Valid()
    ensures rest[0].SkipPage? <==> font[ptr] == 0xFF
    ensures rest[0].SkipLong? <==> font[ptr] != 0xFF && And(font[ptr], 0xC0) == 0xC0
    ensures rest[0].SkipShort? <==> And(font[ptr], 0xC0) == 0x80
    ensures rest[0].SkipLong? || rest[0].Glyph? ==> ptr + 1 < |font|
    ensures rest[0].SkipLong? ==> Or(Shl(And(font[ptr], 0x3F), 8), font[ptr + 1]) == rest[0].j
    ensures rest[0].SkipShort? ==> And(font[ptr], 0x3F) == rest[0].j
    ensures rest[0].Glyph? ==>
              var n: nat := font[ptr + 1];
              |rest[0].record| == 6 + n * (if And(font[ptr], 0x40) != 0 then 6 else 5)
  {
    HoldsHead(font, ptr, rest);
    Reads(font, ptr, rest[0]);
  }

  /** The table walk of ssfn_putc: the place of the glyph record of a code point, if it has one. */
  method FindGlyph(font: seq<uint8>, start: nat, unicode: nat, ghost codes: seq<Code>) returns (chr: Option<nat>)
    requires ValidTable(codes) && Holds(font, start, codes) && Spans(codes) >= CODE_POINTS
    ensures chr.Some? <==> unicode < 0x11_0000 && unicode in Glyphs(codes, 0)
    ensures chr.Some? ==>
              var r := Glyphs(codes, 0)[unicode];
              chr.value + |r| <= |font| && font[chr.value..chr.value + |r|] == r
  {
    var ptr: nat, i: nat := start, 0;
    ghost var rest := codes;
    while i < CODE_POINTS
      invariant Ahead(font, codes, rest, ptr, i, unicode)
      decreases CODE_POINTS - i
    {
      Head(font, codes, rest, ptr, i, unicode);
      ghost var from, at, tail := ptr, i, rest[1..];
      var b: nat := font[ptr];
      if b == 0xFF {
        i := i + 65535;
        ptr := ptr + 1;
      } else if And(b, 0xC0) == 0xC0 {
        var j := Or(Shl(And(b, 0x3F), 8), font[ptr + 1]);
        i := i + j;
        ptr := ptr + 2;
      } else if And(b, 0xC0) == 0x80 {
        var j := And(b, 0x3F);
        i := i + j;
        ptr := ptr + 1;
      } else {
        if i == unicode {
          Finds(font, codes, rest, ptr, i);
          return Some(ptr);
        }
        var n: nat := font[ptr + 1];
        ptr := ptr + 6 + n * (if And(b, 0x40) != 0 then 6 else 5);
      }
      i := i + 1;
      Passes(font, codes, rest, from, at, unicode, tail, ptr, i);
      rest := tail;
    }
    GlyphsFrom(rest, i);
    return None;
  }
}
