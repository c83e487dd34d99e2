/** What the format language guarantees: field sizes, read-back, the count, and the directive grammar. */
module FormatLaws {
  import opened Strings
  import opened Digits
  import opened FormatSpec
  import opened Wrappers

  // ---------- Number fields ----------

  /** A field has the length of its width or of sign and digits, whichever is longer. */
  lemma FieldLength(sign: seq<char>, body: seq<char>, width: int, align: bool, pad: char)
    ensures |NumberField(sign, body, width, align, pad)| == Max(width, |sign| + |body|)
  {
  }

  /** Without a precision, the digits of a 64-bit number in bases 8, 10 and 16 are at most 22. */
  lemma BodyAtMost22(n: nat, base: nat, upper: bool)
    requires n < 0x1_0000_0000_0000_0000 && (base == 8 || base == 10 || base == 16)
    ensures |NumberBody(n, -1, base, upper)| <= 22
  {
    Digits64(n, base, upper);
  }

  function SpacesEnd(s: seq<char>, p: nat): (q: nat)
    requires p <= |s|
    ensures p <= q <= |s|
    decreases |s| - p
  {
    if p < |s| && s[p] == ' ' then SpacesEnd(s, p + 1) else p
  }

  function NumeralEnd(s: seq<char>, p: nat): (q: nat)
    requires p <= |s|
    ensures p <= q <= |s|
    decreases |s| - p
  {
    if p < |s| && IsNumeralChar(s[p]) then NumeralEnd(s, p + 1) else p
  }

  function WithSign(negative: bool, v: int): int {
    if negative then -v else v
  }

  /** Reading a field back: skip spaces, take a sign, then the digits. */
  function ReadField(s: seq<char>, base: nat): int {
    var p := SpacesEnd(s, 0);
    var signed := p < |s| && (s[p] == '-' || s[p] == '+');
    var q := if signed then p + 1 else p;
    WithSign(signed && s[p] == '-', ValueOf(s[q..NumeralEnd(s, q)], base))
  }

  lemma {:induction false} SpacesEndIs(s: seq<char>, p: nat, q: nat)
    requires p <= q <= |s| && (forall k :: p <= k < q ==> s[k] == ' ') && (q < |s| ==> s[q] != ' ')
    ensures SpacesEnd(s, p) == q
    decreases q - p
  {
    if p < q {
      SpacesEndIs(s, p + 1, q);
    }
  }

  lemma {:induction false} NumeralEndIs(s: seq<char>, p: nat, q: nat)
    requires p <= q <= |s| && (forall k :: p <= k < q ==> IsNumeralChar(s[k]))
    requires q < |s| ==> !IsNumeralChar(s[q])
    ensures NumeralEnd(s, p) == q
    decreases q - p
  {
    if p < q {
      NumeralEndIs(s, p + 1, q);
    }
  }

  /** Reading a field by places: spaces up to a, a sign up to q, digits up to e. */
  lemma ReadFieldAt(s: seq<char>, a: nat, q: nat, e: nat, base: nat)
    requires a <= q < e <= |s| && forall k :: 0 <= k < a ==> s[k] == ' '
    requires (forall k :: q <= k < e ==> IsNumeralChar(s[k])) && (e < |s| ==> !IsNumeralChar(s[e]))
    requires q == a || (q == a + 1 && (s[a] == '-' || s[a] == '+'))
    ensures ReadField(s, base) == WithSign(s[a] == '-', ValueOf(s[q..e], base))
  {
    SpacesEndIs(s, 0, a);
    NumeralEndIs(s, q, e);
  }

  /** Every number field has this shape, and reads back to the number it was made from. */
  lemma ShapeReadsBack(a: nat, sign: seq<char>, digits: seq<char>, b: nat, base: nat)
    requires sign == [] || sign == ['-'] || sign == ['+']
    requires forall c <- digits :: IsNumeralChar(c)
    ensures ReadField(Repeat(' ', a) + sign + digits + Repeat(' ', b), base) ==
            WithSign(sign == ['-'], ValueOf(digits, base))
  {
    if digits == [] {
      NoDigitsReadAsZero(a, sign, b, base);
      assert Repeat(' ', a) + sign + digits + Repeat(' ', b) == Repeat(' ', a) + sign + Repeat(' ', b);
    } else {
      DigitsReadBack(a, sign, digits, b, base);
    }
  }

  lemma NoDigitsReadAsZero(a: nat, sign: seq<char>, b: nat, base: nat)
    requires sign == [] || sign == ['-'] || sign == ['+']
    ensures ReadField(Repeat(' ', a) + sign + Repeat(' ', b), base) == 0
  {
    var s := Repeat(' ', a) + sign + Repeat(' ', b);
    Pieces(Repeat(' ', a), sign, [], Repeat(' ', b));
    assert Repeat(' ', a) + sign + [] + Repeat(' ', b) == s;
    if sign == [] {
      BlankReadsAsZero(s, base);
    } else {
      SignReadsAsZero(s, a, base);
    }
  }

  lemma BlankReadsAsZero(s: seq<char>, base: nat)
    requires forall k :: 0 <= k < |s| ==> s[k] == ' '
    ensures ReadField(s, base) == 0
  {
    SpacesEndIs(s, 0, |s|);
    assert s[|s|..|s|] == [];
  }

  lemma SignReadsAsZero(s: seq<char>, a: nat, base: nat)
    requires a < |s| && (forall k :: 0 <= k < a ==> s[k] == ' ') && (s[a] == '-' || s[a] == '+')
    requires a + 1 < |s| ==> s[a + 1] == ' '
    ensures ReadField(s, base) == 0
  {
    SpacesEndIs(s, 0, a);
    NumeralEndIs(s, a + 1, a + 1);
    assert s[a + 1..a + 1] == [];
  }

  lemma DigitsReadBack(a: nat, sign: seq<char>, digits: seq<char>, b: nat, base: nat)
    requires sign == [] || sign == ['-'] || sign == ['+']
    requires digits != [] && forall c <- digits :: IsNumeralChar(c)
    ensures ReadField(Repeat(' ', a) + sign + digits + Repeat(' ', b), base) ==
            WithSign(sign == ['-'], ValueOf(digits, base))
  {
    var s := Repeat(' ', a) + sign + digits + Repeat(' ', b);
    var q, e := a + |sign|, a + |sign| + |digits|;
    Pieces(Repeat(' ', a), sign, digits, Repeat(' ', b));
    assert digits[0] in digits;
    forall k | q <= k < e
      ensures IsNumeralChar(s[k])
    {
      assert s[k] in digits;
    }
    ReadFieldAt(s, a, q, e, base);
  }

  lemma Pieces(w: seq<char>, x: seq<char>, y: seq<char>, z: seq<char>)
    ensures var s := w + x + y + z;
            && |s| == |w| + |x| + |y| + |z|
            && (forall k :: 0 <= k < |w| ==> s[k] == w[k])
            && (x != [] ==> s[|w|] == x[0]) && (y != [] ==> s[|w| + |x|] == y[0])
            && s[|w| + |x|..|w| + |x| + |y|] == y
            && (forall k :: |w| + |x| <= k < |w| + |x| + |y| ==> s[k] in y)
            && (z != [] ==> s[|w| + |x| + |y|] == z[0])
  {
  }

  /** A body with zeros in front of it, still all digits and of the same value. */
  lemma PaddedBody(n: nat, precision: int, base: nat, upper: bool, zeros: int)
    requires 2 <= base <= 16
    ensures var digits := Repeat('0', zeros) + NumberBody(n, precision, base, upper);
            (forall c <- digits :: IsNumeralChar(c)) && ValueOf(digits, base) == n
  {
    var numeral := Numeral(n, base, upper);
    NumeralReadsBack(n, base, upper);
    ZerosReadAsNothing(precision - |numeral|, numeral, base);
    ZerosReadAsNothing(zeros, NumberBody(n, precision, base, upper), base);
  }

  /** The shape of every number field: spaces, sign, zeros, body, spaces. */
  lemma FieldShape(sign: seq<char>, body: seq<char>, width: int, align: bool, pad: char)
    returns (lead: nat, zeros: int, trail: nat)
    requires pad == ' ' || pad == '0'
    ensures NumberField(sign, body, width, align, pad) ==
            Repeat(' ', lead) + sign + (Repeat('0', zeros) + body) + Repeat(' ', trail)
  {
    var fill := Max(width - |body| - |sign|, 0);
    lead, zeros, trail := 0, 0, 0;
    if align {
      trail := fill;
      assert sign + body + Repeat(' ', fill) == [] + sign + ([] + body) + Repeat(' ', fill);
    } else if pad == '0' {
      zeros := fill;
      assert sign + Repeat('0', fill) + body == [] + sign + (Repeat('0', fill) + body) + [];
    } else {
      lead := fill;
      assert Repeat(pad, fill) + sign + body == Repeat(' ', fill) + sign + ([] + body) + [];
    }
  }

  /** A prefix ' ' reads as one more leading space. */
  lemma SignedShapeReadsBack(a: nat, sign: seq<char>, digits: seq<char>, b: nat, base: nat)
    requires sign == [] || sign == ['-'] || sign == ['+'] || sign == [' ']
    requires forall c <- digits :: IsNumeralChar(c)
    ensures ReadField(Repeat(' ', a) + sign + digits + Repeat(' ', b), base) ==
            WithSign(sign == ['-'], ValueOf(digits, base))
  {
    if sign == [' '] {
      assert Repeat(' ', a + 1) == Repeat(' ', a) + [' '];
      assert Repeat(' ', a) + sign + digits + Repeat(' ', b) == Repeat(' ', a + 1) + [] + digits + Repeat(' ', b);
      ShapeReadsBack(a + 1, [], digits, b, base);
    } else {
      ShapeReadsBack(a, sign, digits, b, base);
    }
  }

  predicate LegalPrefix(prefix: char) {
    prefix == NUL || prefix == '+' || prefix == ' '
  }

  /** A signed field reads back to its number, for every width, alignment, prefix and padding. */
  lemma IntFieldReadsBack(n: int, width: int, precision: int, align: bool, prefix: char, pad: char)
    requires LegalPrefix(prefix) && (pad == ' ' || pad == '0')
    ensures ReadField(IntField(n, width, precision, align, prefix, pad), 10) == n
    ensures |IntField(n, width, precision, align, prefix, pad)| ==
            Max(width, |Sign(n, prefix)| + |NumberBody(if n < 0 then -n else n, precision, 10, false)|)
  {
    var m: nat, sign := if n < 0 then -n else n, Sign(n, prefix);
    NumberFieldReadsBack(m, sign, width, precision, align, PadFor(pad, precision), 10, false);
  }

  lemma NumberFieldReadsBack(m: nat, sign: seq<char>, width: int, precision: int, align: bool, pad: char, base: nat, upper: bool)
    requires 2 <= base <= 16 && (pad == ' ' || pad == '0')
    requires sign == [] || sign == ['-'] || sign == ['+'] || sign == [' ']
    ensures var body := NumberBody(m, precision, base, upper);
            ReadField(NumberField(sign, body, width, align, pad), base) == WithSign(sign == ['-'], m)
  {
    var body := NumberBody(m, precision, base, upper);
    var lead, zeros, trail := FieldShape(sign, body, width, align, pad);
    PaddedBody(m, precision, base, upper, zeros);
    SignedShapeReadsBack(lead, sign, Repeat('0', zeros) + body, trail, base);
  }

  /** An unsigned field reads back to its number in its base. */
  lemma UnsignedFieldReadsBack(n: nat, width: int, precision: int, align: bool, pad: char, base: nat, upper: bool)
    requires 2 <= base <= 16 && (pad == ' ' || pad == '0')
    ensures ReadField(UnsignedField(n, width, precision, align, pad, base, upper), base) == n
    ensures |UnsignedField(n, width, precision, align, pad, base, upper)| ==
            Max(width, |NumberBody(n, precision, base, upper)|)
  {
    NumberFieldReadsBack(n, [], width, precision, align, PadFor(pad, precision), base, upper);
  }

  // ---------- The 0 flag under a precision ----------

  /** Zeros or blanks in a right-aligned field make a difference exactly when there are any. */
  lemma PadsDiffer(sign: seq<char>, body: seq<char>, width: int, align: bool)
    requires sign == [] || sign == ['-'] || sign == ['+'] || sign == [' ']
    ensures NumberField(sign, body, width, align, '0') == NumberField(sign, body, width, align, ' ') <==>
            align || width <= |sign| + |body|
  {
    var fill := width - |body| - |sign|;
    var zeros, blanks := sign + Repeat('0', fill) + body, Repeat(' ', fill) + sign + body;
    if !align && fill > 0 {
      assert zeros[|sign|] == '0';
      assert blanks[|sign|] == (if fill > |sign| then ' ' else sign[0]);
    } else if !align {
      assert zeros == sign + body == blanks;
    }
  }

  /**
   * ISO C11, section 7.21.6.1, ignores the 0 flag when a precision is given. Here a field with that
   * flag is the field without it exactly when the precision is not 0 (or absent) or there is nothing
   * to pad on the left.
   */
  lemma ZeroFlagInt(n: int, width: int, precision: int, align: bool, prefix: char)
    requires LegalPrefix(prefix)
    ensures IntField(n, width, precision, align, prefix, '0') == IntField(n, width, precision, align, prefix, ' ') <==>
            || precision > 0 || align
            || width <= |Sign(n, prefix)| + |NumberBody(if n < 0 then -n else n, precision, 10, false)|
  {
    PadsDiffer(Sign(n, prefix), NumberBody(if n < 0 then -n else n, precision, 10, false), width, align);
  }

  lemma ZeroFlagUnsigned(n: nat, width: int, precision: int, align: bool, base: nat, upper: bool)
    requires 2 <= base <= 16
    ensures UnsignedField(n, width, precision, align, '0', base, upper) ==
            UnsignedField(n, width, precision, align, ' ', base, upper) <==>
            precision > 0 || align || width <= |NumberBody(n, precision, base, upper)|
  {
    PadsDiffer([], NumberBody(n, precision, base, upper), width, align);
  }

  /** "%05.0d" prints 42 as 00042, where the 0 flag should have no effect beside the precision. */
  lemma ZeroFlagStays()
    ensures var spec := FlagSpec({'0'}).(width := 5, precision := 0, conv := 'd');
            && Parse("%05.0d", 0) == Some([Directive(spec)])
            && Fits(spec, Num(42)) && Field(spec, Num(42)) == "00042"
            && Field(spec.(pad := ' '), Num(42)) == "   42"
  {
    var spec := FlagSpec({'0'}).(width := 5, precision := 0, conv := 'd');
    ZeroFlagParses("%05.0d", spec);
    FieldOf42(spec);
    FieldOf42(spec.(pad := ' '));
  }

  lemma FieldOf42(spec: Spec)
    requires spec == FlagSpec({}).(width := 5, precision := 0, conv := 'd', pad := spec.pad)
    requires spec.pad == '0' || spec.pad == ' '
    ensures Fits(spec, Num(42)) && Field(spec, Num(42)) == if spec.pad == '0' then "00042" else "   42"
  {
    assert Numeral(42, 10, false) == "42";
    var body := NumberBody(42, 0, 10, false);
    assert body == Repeat('0', -2) + "42" == "42";
    assert Field(spec, Num(42)) == NumberField([], body, 5, false, spec.pad);
    PaddedTo5(body, spec.pad);
  }

  lemma PaddedTo5(body: seq<char>, pad: char)
    requires |body| == 2
    ensures NumberField([], body, 5, false, pad) == [pad, pad, pad] + body
  {
    assert Repeat(pad, 3) == [pad, pad, pad];
    assert [] + Repeat('0', 3) + body == Repeat('0', 3) + body;
    assert Repeat(pad, 3) + [] + body == Repeat(pad, 3) + body;
  }

  lemma ZeroFlagParses(f: seq<char>, spec: Spec)
    requires f == "%05.0d" && spec == FlagSpec({'0'}).(width := 5, precision := 0, conv := 'd')
    ensures Parse(f, 0) == Some([Directive(spec)])
  {
    assert f[1..2] == "0" && CharSet(f[1..2]) == {'0'};
    FlagsEndIs(f, 1, 2);
    ZeroFlagTail(f, spec.(pad := ' '));
    assert ParseDirective(f, 1) == Some((spec, 6));
    assert Parse(f, 6) == Some([]);
    assert [Directive(spec)] + [] == [Directive(spec)];
  }

  lemma ZeroFlagTail(f: seq<char>, tail: Spec)
    requires f == "%05.0d" && tail == FlagSpec({}).(width := 5, precision := 0, conv := 'd')
    ensures ParseTail(f, 2) == Some((tail, 6))
  {
    DigitsEndIs(f, 2, 3);
    DigitsEndIs(f, 4, 5);
    assert f[2..3] == "5" && f[4..5] == "0";
    assert ValueOf("5", 10) == 5 && ValueOf("0", 10) == 0;
  }

  // ---------- The count ----------

  /** How many %c and %% of a format have no width of their own. */
  function Bare(items: seq<Item>): nat {
    if items == [] then 0
    else
      (if items[0].Directive? && (items[0].spec.conv == 'c' || items[0].spec.conv == '%') && items[0].spec.width == -1
       then 1 else 0) + Bare(items[1..])
  }

  predicate PositiveWidths(items: seq<Item>) {
    forall item <- items :: item.Directive? ==> item.spec.width == -1 || item.spec.width >= 1
  }

  /** The count is the number of emitted characters minus 2 for every %c and %% without a width. */
  lemma {:induction false} CountIsOutput(items: seq<Item>, args: seq<Arg>)
    requires Matching(items, args) && PositiveWidths(items)
    ensures Count(items, args) == |Render(items, args)| - 2 * Bare(items)
  {
    if items != [] {
      assert items[0] in items;
      CountIsOutput(items[1..], RestArgs(items, args));
    }
  }

  /** A width that was given is at least 1, because a leading '0' is read as a flag. */
  lemma ParsedWidth(f: seq<char>, p: nat)
    requires p <= |f| && ParseDirective(f, p).Some?
    ensures var w := ParseDirective(f, p).value.0.width; w == -1 || w >= 1
  {
    var q0 := FlagsEnd(f, p);
    var q1 := WidthEnd(f, q0);
    if q1 > q0 {
      FirstDigitCounts(f[q0..q1]);
    }
  }

  lemma {:induction false} FirstDigitCounts(s: seq<char>)
    requires s != [] && '1' <= s[0] <= '9'
    ensures ValueOf(s, 10) >= 1
    decreases |s|
  {
    if |s| > 1 {
      FirstDigitCounts(s[..|s| - 1]);
    } else {
      assert s == [] + [s[0]];
      ReadSnoc([], s[0], 10);
    }
  }

  lemma {:induction false} ParsedWidths(f: seq<char>, p: nat)
    requires p <= |f| && Parse(f, p).Some?
    ensures PositiveWidths(Parse(f, p).value)
    decreases |f| - p
  {
    if p < |f| {
      if f[p] == '%' {
        ParsedWidth(f, p + 1);
        ParsedWidths(f, ParseDirective(f, p + 1).value.1);
      } else {
        ParsedWidths(f, p + 1);
      }
    }
  }

  /**
   * The value that a format returns is the number of characters it emits, exactly when every %c and
   * %% in it carries a width; each one without makes the value 2 too small.
   */
  lemma ReturnValue(f: seq<char>, args: seq<Arg>)
    requires Parse(f, 0).Some? && Matching(Parse(f, 0).value, args)
    ensures var items := Parse(f, 0).value;
            && Count(items, args) == |Render(items, args)| - 2 * Bare(items)
            && (Count(items, args) == |Render(items, args)| <==> Bare(items) == 0)
  {
    ParsedWidths(f, 0);
    CountIsOutput(Parse(f, 0).value, args);
  }

  /** The shortest format that returns a wrong count: "%c" emits one character and returns -1. */
  lemma BareCharacter(v: int)
    requires 0 <= v < 0x80
    ensures Parse("%c", 0) == Some([Directive(FlagSpec({}).(conv := 'c'))])
    ensures var items := [Directive(FlagSpec({}).(conv := 'c'))];
            Matching(items, [Num(v)]) && |Render(items, [Num(v)])| == 1 && Count(items, [Num(v)]) == -1
  {
    var f, spec := "%c", FlagSpec({}).(conv := 'c');
    assert f[1..1] == [] && CharSet(f[1..1]) == {};
    assert ParseDirective(f, 1) == Some((spec, 2));
    assert Parse(f, 2) == Some([]);
    assert [Directive(spec)] + [] == [Directive(spec)];
    assert [Directive(spec)][1..] == [];
  }

  // ---------- The grammar of directives ----------

  lemma {:induction false} FlagsEndIs(f: seq<char>, p: nat, q: nat)
    requires p <= q <= |f| && (forall k :: p <= k < q ==> IsFlag(f[k])) && (q < |f| ==> !IsFlag(f[q]))
    ensures FlagsEnd(f, p) == q
    decreases q - p
  {
    if p < q {
      FlagsEndIs(f, p + 1, q);
    }
  }

  lemma {:induction false} DigitsEndIs(f: seq<char>, p: nat, q: nat)
    requires p <= q <= |f| && (forall k :: p <= k < q ==> IsDigit(f[k])) && (q < |f| ==> !IsDigit(f[q]))
    ensures DigitsEnd(f, p) == q
    decreases q - p
  {
    if p < q {
      DigitsEndIs(f, p + 1, q);
    }
  }

  lemma {:induction false} DigitsEndShift(a: seq<char>, t: seq<char>, p: nat)
    requires p <= |t|
    ensures DigitsEnd(a + t, |a| + p) == |a| + DigitsEnd(t, p)
    decreases |t| - p
  {
    if p < |t| && IsDigit(t[p]) {
      DigitsEndShift(a, t, p + 1);
    }
  }

  lemma PrecisionEndShift(a: seq<char>, t: seq<char>, p: nat)
    requires p <= |t|
    ensures PrecisionEnd(a + t, |a| + p) == |a| + PrecisionEnd(t, p)
  {
    if p < |t| && t[p] == '.' {
      DigitsEndShift(a, t, p + 1);
    }
  }

  lemma LengthShift(a: seq<char>, t: seq<char>, p: nat)
    requires p <= |t|
    ensures LengthEnd(a + t, |a| + p) == |a| + LengthEnd(t, p)
    ensures LengthOf(a + t, |a| + p) == LengthOf(t, p)
  {
  }

  lemma SliceShift(a: seq<char>, t: seq<char>, p: nat, q: nat)
    requires p <= q <= |t|
    ensures (a + t)[|a| + p..|a| + q] == t[p..q]
    ensures q < |t| ==> (a + t)[|a| + q] == t[q]
  {
  }

  lemma FlagsBeforeTail(flags: seq<char>, t: seq<char>)
    requires (forall c <- flags :: IsFlag(c)) && (t == [] || !IsFlag(t[0]))
    ensures FlagsEnd(flags + t, 0) == |flags| && (flags + t)[0..|flags|] == flags
  {
    var f := flags + t;
    assert forall k :: 0 <= k < |flags| ==> f[k] == flags[k] && flags[k] in flags;
    FlagsEndIs(f, 0, |flags|);
  }

  /** The places of the parts, in a text and behind something else. */
  lemma PlacesShift(a: seq<char>, t: seq<char>, q1: nat, q2: nat, q3: nat, r1: nat, r2: nat, r3: nat)
    requires q1 == WidthEnd(t, 0) && q2 == PrecisionEnd(t, q1) && q3 == LengthEnd(t, q2)
    requires r1 == |a| + q1 && r2 == |a| + q2 && r3 == |a| + q3
    ensures WidthEnd(a + t, |a|) == r1 && PrecisionEnd(a + t, r1) == r2 && LengthEnd(a + t, r2) == r3
  {
    DigitsEndShift(a, t, 0);
    PrecisionEndShift(a, t, q1);
    LengthShift(a, t, q2);
  }

  lemma SpecShift(a: seq<char>, t: seq<char>, q1: nat, q2: nat, q3: nat, r1: nat, r2: nat, r3: nat)
    requires q1 <= q2 <= q3 < |t| && r1 == |a| + q1 && r2 == |a| + q2 && r3 == |a| + q3
    ensures TailSpec(a + t, |a|, r1, r2, r3) == TailSpec(t, 0, q1, q2, q3)
  {
    SliceShift(a, t, 0, q1);
    if q2 > q1 {
      SliceShift(a, t, q1 + 1, q2);
    }
    LengthShift(a, t, q2);
    SliceShift(a, t, q3, q3);
  }

  /** The tail of a directive is parsed the same behind anything. */
  lemma TailShift(a: seq<char>, t: seq<char>, k: nat)
    requires k == |a|
    ensures ParseTail(a + t, k) ==
            match ParseTail(t, 0) case None => None case Some((spec, next)) => Some((spec, k + next))
  {
    var q1 := WidthEnd(t, 0);
    var q2 := PrecisionEnd(t, q1);
    var q3 := LengthEnd(t, q2);
    var r1, r2, r3 := k + q1, k + q2, k + q3;
    PlacesShift(a, t, q1, q2, q3, r1, r2, r3);
    if q3 < |t| {
      SpecShift(a, t, q1, q2, q3, r1, r2, r3);
    }
  }

  /** Flags first, then the rest: the rest is parsed the same behind any flags. */
  lemma FlagsThenTail(flags: seq<char>, t: seq<char>)
    requires (forall c <- flags :: IsFlag(c)) && (t == [] || !IsFlag(t[0]))
    ensures ParseDirective(flags + t, 0) ==
            match ParseTail(t, 0)
            case None => None
            case Some((spec, next)) => Some((WithFlags(CharSet(flags), spec), |flags| + next))
  {
    FlagsBeforeTail(flags, t);
    TailShift(flags, t, |flags|);
  }

  /**
   * The settings parsed from flags depend on the set of flag characters only, not on their order or
   * repetition.
   */
  lemma FlagOrderIrrelevant(a: seq<char>, b: seq<char>, t: seq<char>)
    requires (forall c <- a :: IsFlag(c)) && (forall c <- b :: IsFlag(c)) && (t == [] || !IsFlag(t[0]))
    requires CharSet(a) == CharSet(b)
    ensures ParseDirective(a + t, 0).Some? <==> ParseDirective(b + t, 0).Some?
    ensures ParseDirective(a + t, 0).Some? ==>
              && ParseDirective(a + t, 0).value.0 == ParseDirective(b + t, 0).value.0
              && ParseDirective(a + t, 0).value.1 - |a| == ParseDirective(b + t, 0).value.1 - |b|
  {
    FlagsThenTail(a, t);
    FlagsThenTail(b, t);
  }

  // ---------- Writing a directive and parsing it back ----------

  /** Directives that the grammar can express. */
  predicate Writable(s: Spec) {
    && LegalPrefix(s.prefix) && (s.pad == ' ' || s.pad == '0')
    && (s.width == -1 || s.width >= 1) && s.precision >= -1 && -2 <= s.length <= 2
    && !IsFlag(s.conv) && !IsDigit(s.conv) && s.conv != '.' && s.conv != 'h' && s.conv != 'l'
  }

  function WriteFlags(s: Spec): (r: seq<char>)
    ensures forall c <- r :: c == '-' || c == s.prefix || c == '0'
  {
    (if s.align then ['-'] else []) + (if s.prefix != NUL then [s.prefix] else []) + (if s.pad == '0' then ['0'] else [])
  }

  function WriteWidth(s: Spec): seq<char>
    requires Writable(s)
  {
    if s.width == -1 then [] else Numeral(s.width, 10, false)
  }

  function WritePrecision(s: Spec): seq<char>
    requires Writable(s)
  {
    if s.precision == -1 then [] else ['.'] + Numeral(s.precision, 10, false)
  }

  function WriteLength(s: Spec): seq<char> {
    if s.length == -2 then "hh" else if s.length == -1 then "h"
    else if s.length == 1 then "l" else if s.length == 2 then "ll" else ""
  }

  function Write(s: Spec): seq<char>
    requires Writable(s)
  {
    WriteFlags(s) + (WriteWidth(s) + WritePrecision(s) + WriteLength(s) + [s.conv])
  }

  lemma WrittenFlags(s: Spec)
    requires Writable(s)
    ensures forall c <- WriteFlags(s) :: IsFlag(c)
    ensures WithFlags(CharSet(WriteFlags(s)), WithFlags({}, s)) == s
  {
    var r := WriteFlags(s);
    assert '-' in r <==> s.align;
    assert '0' in r <==> s.pad == '0';
    assert '+' in r <==> s.prefix == '+';
    assert ' ' in r <==> s.prefix == ' ';
  }

  /** Decimal digits, with no leading zero and read back to their number. */
  lemma DecimalNumeral(n: nat)
    ensures forall c <- Numeral(n, 10, false) :: IsDigit(c)
    ensures ValueOf(Numeral(n, 10, false), 10) == n
    ensures n >= 1 ==> Numeral(n, 10, false)[0] != '0'
  {
    NumeralReadsBack(n, 10, false);
    DecimalDigits(n);
    if n >= 1 {
      NoLeadingZero(n, 10, false);
    }
  }

  lemma {:induction false} DecimalDigits(n: nat)
    ensures forall c <- Numeral(n, 10, false) :: IsDigit(c)
    decreases n
  {
    LastDigit(n, 10, false);
    if n >= 10 {
      QuotShrinks(n, 10);
      DecimalDigits(Quot(n, 10));
    }
  }

  /** Digits in front are the width, as far as they go. */
  lemma WidthPart(w: seq<char>, t: seq<char>)
    requires (forall x <- w :: IsDigit(x)) && (t == [] || !IsDigit(t[0]))
    ensures WidthEnd(w + t, 0) == |w| && (w + t)[..|w|] == w
  {
    var f := w + t;
    assert forall k :: 0 <= k < |w| ==> f[k] == w[k] && w[k] in w;
    DigitsEndIs(f, 0, |w|);
  }

  lemma PrecisionPart(p: seq<char>, t: seq<char>)
    requires p == [] || (p[0] == '.' && forall x <- p[1..] :: IsDigit(x))
    requires t == [] || (!IsDigit(t[0]) && t[0] != '.')
    ensures PrecisionEnd(p + t, 0) == |p| && (p != [] ==> (p + t)[1..|p|] == p[1..])
  {
    if p != [] {
      var f := p + t;
      assert forall k :: 1 <= k < |p| ==> f[k] == p[1..][k - 1] && p[1..][k - 1] in p[1..];
      DigitsEndIs(f, 1, |p|);
    } else {
      assert p + t == t;
    }
  }

  lemma LengthPart(l: seq<char>, c: char, rest: seq<char>, length: int)
    requires -2 <= length <= 2 && l == WriteLength(FlagSpec({}).(length := length))
    requires c != 'h' && c != 'l'
    ensures LengthEnd(l + [c] + rest, 0) == |l| && LengthOf(l + [c] + rest, 0) == length
    ensures (l + [c] + rest)[|l|] == c
  {
    var f := l + [c] + rest;
    assert |l| == 0 ==> f[0] == c;
    assert |l| == 1 ==> f[0] == l[0] && f[1] == c;
    assert |l| == 2 ==> f[0] == l[0] && f[1] == l[1];
  }

  /** A directive whose parts end at known places. */
  lemma AtPlaces(f: seq<char>, w: seq<char>, p: seq<char>, length: int, c: char, q1: nat, q2: nat, q3: nat,
                 spec: Spec, n: nat)
    requires n == q3 + 1 && WidthEnd(f, 0) == q1 && PrecisionEnd(f, q1) == q2 && LengthEnd(f, q2) == q3 < |f|
    requires q1 == |w| && q2 == q1 + |p| && f[0..q1] == w && (p != [] ==> f[q1 + 1..q2] == p[1..])
    requires LengthOf(f, q2) == length && f[q3] == c
    requires spec == FlagSpec({}).(width := if w == [] then -1 else ValueOf(w, 10),
                                   precision := if p == [] then -1 else ValueOf(p[1..], 10),
                                   length := length, conv := c)
    ensures ParseTail(f, 0) == Some((spec, n))
  {
  }

  /** The parts of a written directive are found at their places. */
  lemma TailParses(f: seq<char>, w: seq<char>, p: seq<char>, l: seq<char>, c: char, rest: seq<char>, length: int, q3: nat,
                   spec: Spec, n: nat)
    requires f == w + (p + (l + [c] + rest)) && q3 == |w| + |p| + |l| && n == q3 + 1
    requires (forall x <- w :: IsDigit(x)) && !IsDigit(c) && c != '.' && c != 'h' && c != 'l'
    requires p == [] || (p[0] == '.' && forall x <- p[1..] :: IsDigit(x))
    requires -2 <= length <= 2 && l == WriteLength(FlagSpec({}).(length := length))
    requires spec == FlagSpec({}).(width := if w == [] then -1 else ValueOf(w, 10),
                                   precision := if p == [] then -1 else ValueOf(p[1..], 10),
                                   length := length, conv := c)
    ensures ParseTail(f, 0) == Some((spec, n))
  {
    var q1, q2 := |w|, |w| + |p|;
    PlacesOfParts(w, p, l, c, rest, length, q1, q2, q3);
    TextPlaces(w, p, l, c, rest, q1, q2, q3);
    AtPlaces(f, w, p, length, c, q1, q2, q3, spec, n);
  }

  lemma PlacesOfParts(w: seq<char>, p: seq<char>, l: seq<char>, c: char, rest: seq<char>, length: int, q1: nat, q2: nat, q3: nat)
    requires q1 == |w| && q2 == |w| + |p| && q3 == |w| + |p| + |l|
    requires (forall x <- w :: IsDigit(x)) && !IsDigit(c) && c != '.' && c != 'h' && c != 'l'
    requires p == [] || (p[0] == '.' && forall x <- p[1..] :: IsDigit(x))
    requires -2 <= length <= 2 && l == WriteLength(FlagSpec({}).(length := length))
    ensures var f := w + (p + (l + [c] + rest));
            && WidthEnd(f, 0) == q1 && PrecisionEnd(f, q1) == q2
            && LengthEnd(f, q2) == q3 && LengthOf(f, q2) == length
  {
    var t3 := l + [c] + rest;
    LengthPart(l, c, rest, length);
    assert t3[0] == (if l == [] then c else l[0]);
    PrecisionPart(p, t3);
    assert (p + t3)[0] == (if p == [] then t3[0] else p[0]);
    WidthPart(w, p + t3);
    LengthPlace(w, p, t3, q2, length);
    PrecisionPlace(w, p, t3, q1, q2);
  }

  lemma PrecisionPlace(w: seq<char>, p: seq<char>, t3: seq<char>, q1: nat, q2: nat)
    requires q1 == |w| && q2 == |w| + |p| && PrecisionEnd(p + t3, 0) == |p|
    ensures PrecisionEnd(w + (p + t3), q1) == q2
  {
    PrecisionEndShift(w, p + t3, 0);
  }

  lemma LengthPlace(w: seq<char>, p: seq<char>, t3: seq<char>, q2: nat, length: int)
    requires q2 == |w| + |p| && LengthOf(t3, 0) == length
    ensures LengthEnd(w + (p + t3), q2) == q2 + LengthEnd(t3, 0) && LengthOf(w + (p + t3), q2) == length
  {
    assert w + (p + t3) == (w + p) + t3;
    LengthShift(w + p, t3, 0);
  }

  lemma TextPlaces(w: seq<char>, p: seq<char>, l: seq<char>, c: char, rest: seq<char>, q1: nat, q2: nat, q3: nat)
    requires q1 == |w| && q2 == |w| + |p| && q3 == |w| + |p| + |l|
    ensures var t := w + (p + (l + [c] + rest));
            q3 < |t| && t[0..q1] == w && t[q3] == c && (p != [] ==> t[q1 + 1..q2] == p[1..])
  {
  }

  /** Round trip: a directive that is written out, with anything behind it, parses back to itself. */
  lemma WrittenParses(s: Spec, rest: seq<char>)
    requires Writable(s)
    ensures ParseDirective(Write(s) + rest, 0) == Some((s, |Write(s)|))
  {
    var flags, t, tail, n := WrittenParts(s, rest);
    FlagsAndTail(flags, t, tail, n, s, |Write(s)|);
  }

  /** The flags of a written directive and what follows them. */
  lemma WrittenParts(s: Spec, rest: seq<char>) returns (flags: seq<char>, t: seq<char>, tail: Spec, n: nat)
    requires Writable(s)
    ensures Write(s) + rest == flags + t && |Write(s)| == |flags| + n
    ensures (forall c <- flags :: IsFlag(c)) && t != [] && !IsFlag(t[0])
    ensures ParseTail(t, 0) == Some((tail, n)) && WithFlags(CharSet(flags), tail) == s
  {
    flags, t := WriteFlags(s), WriteWidth(s) + (WritePrecision(s) + (WriteLength(s) + [s.conv] + rest));
    tail, n := WithFlags({}, s), |WriteWidth(s)| + |WritePrecision(s)| + |WriteLength(s)| + 1;
    WriteSplits(s, t, rest);
    WrittenTail(s, t, rest, tail, n);
    WrittenStart(s, t, rest);
    WrittenFlags(s);
  }

  lemma FlagsAndTail(flags: seq<char>, t: seq<char>, tail: Spec, k: nat, s: Spec, n: nat)
    requires (forall c <- flags :: IsFlag(c)) && t != [] && !IsFlag(t[0])
    requires ParseTail(t, 0) == Some((tail, k)) && WithFlags(CharSet(flags), tail) == s && n == |flags| + k
    ensures ParseDirective(flags + t, 0) == Some((s, n))
  {
    FlagsThenTail(flags, t);
  }

  lemma WriteSplits(s: Spec, t: seq<char>, rest: seq<char>)
    requires Writable(s)
    requires t == WriteWidth(s) + (WritePrecision(s) + (WriteLength(s) + [s.conv] + rest))
    ensures Write(s) + rest == WriteFlags(s) + t
    ensures |Write(s)| == |WriteFlags(s)| + (|WriteWidth(s)| + |WritePrecision(s)| + |WriteLength(s)| + 1)
  {
    Regrouped(WriteFlags(s), WriteWidth(s), WritePrecision(s), WriteLength(s), [s.conv], rest);
  }

  lemma Regrouped(a: seq<char>, b: seq<char>, c: seq<char>, d: seq<char>, e: seq<char>, z: seq<char>)
    ensures a + (b + c + d + e) + z == a + (b + (c + (d + e + z)))
  {
    var x := c + (d + e + z);
    assert c + d + e + z == x;
    assert b + c + d + e + z == b + x;
  }

  lemma WrittenTail(s: Spec, t: seq<char>, rest: seq<char>, tail: Spec, n: nat)
    requires Writable(s) && tail == WithFlags({}, s)
    requires t == WriteWidth(s) + (WritePrecision(s) + (WriteLength(s) + [s.conv] + rest))
    requires n == |WriteWidth(s)| + |WritePrecision(s)| + |WriteLength(s)| + 1
    ensures ParseTail(t, 0) == Some((tail, n))
  {
    WrittenNumbers(s);
    TailParses(t, WriteWidth(s), WritePrecision(s), WriteLength(s), s.conv, rest, s.length, n - 1, tail, n);
  }

  lemma WrittenStart(s: Spec, t: seq<char>, rest: seq<char>)
    requires Writable(s)
    requires t == WriteWidth(s) + (WritePrecision(s) + (WriteLength(s) + [s.conv] + rest))
    ensures t != [] && !IsFlag(t[0])
  {
    WrittenNumbers(s);
    TailStart(WriteWidth(s), WritePrecision(s), WriteLength(s), s.conv, rest);
  }

  lemma WrittenNumbers(s: Spec)
    requires Writable(s)
    ensures forall x <- WriteWidth(s) :: IsDigit(x)
    ensures if s.width == -1 then WriteWidth(s) == [] else WriteWidth(s) != [] && WriteWidth(s)[0] != '0' && ValueOf(WriteWidth(s), 10) == s.width
    ensures if s.precision == -1 then WritePrecision(s) == []
            else |WritePrecision(s)| > 1 && WritePrecision(s)[0] == '.' && ValueOf(WritePrecision(s)[1..], 10) == s.precision
                 && forall x <- WritePrecision(s)[1..] :: IsDigit(x)
  {
    if s.width >= 1 {
      DecimalNumeral(s.width);
    }
    if s.precision >= 0 {
      DecimalNumeral(s.precision);
      assert WritePrecision(s)[1..] == Numeral(s.precision, 10, false);
    }
  }

  /** What follows the flags does not start with one. */
  lemma TailStart(w: seq<char>, p: seq<char>, l: seq<char>, c: char, rest: seq<char>)
    requires w != [] ==> IsDigit(w[0]) && w[0] != '0'
    requires p != [] ==> p[0] == '.'
    requires l != [] ==> l[0] == 'h' || l[0] == 'l'
    requires !IsFlag(c)
    ensures !IsFlag((w + (p + (l + [c] + rest)))[0])
  {
    var t3 := l + [c] + rest;
    assert t3[0] == (if l == [] then c else l[0]);
    assert (p + t3)[0] == (if p == [] then t3[0] else p[0]);
  }
}
