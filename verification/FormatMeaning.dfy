/** What each directive prints, told by the characters of the output and not by how they are composed. */
module FormatMeaning {
  import opened Strings
  import opened Digits
  import opened FormatSpec
  import opened FormatLaws
  import opened Wrappers

  // ---------- Integer directives ----------

  /**
   * %d and %i print a value that reads back as the argument, under hh and h as the argument cut to 8
   * and to 16 bits in two's complement.
   */
  lemma SignedReadsBack(spec: Spec, v: int)
    requires (spec.conv == 'd' || spec.conv == 'i') && -2 <= spec.length <= 2
    requires (spec.prefix == NUL || spec.prefix == '+' || spec.prefix == ' ') && (spec.pad == ' ' || spec.pad == '0')
    requires Fits(spec, Num(v))
    ensures var x := ReadField(Field(spec, Num(v)), 10);
            && (spec.length >= 0 ==> x == v)
            && (spec.length == -1 ==> -0x8000 <= x < 0x8000 && (x - v) % 0x1_0000 == 0)
            && (spec.length == -2 ==> -0x80 <= x < 0x80 && (x - v) % 0x100 == 0)
  {
    var x := Convert(spec, v);
    SignedResidue(spec, v, x);
    SignedFieldReads(spec, v, x);
  }

  lemma SignedFieldReads(spec: Spec, v: int, x: int)
    requires (spec.conv == 'd' || spec.conv == 'i') && Fits(spec, Num(v)) && x == Convert(spec, v)
    requires LegalPrefix(spec.prefix) && (spec.pad == ' ' || spec.pad == '0')
    ensures ReadField(Field(spec, Num(v)), 10) == x
  {
    IntFieldReadsBack(x, spec.width, spec.precision, spec.align, spec.prefix, spec.pad);
  }

  lemma SignedResidue(spec: Spec, v: int, x: int)
    requires (spec.conv == 'd' || spec.conv == 'i') && x == Convert(spec, v)
    ensures spec.length >= 0 ==> x == v
    ensures spec.length == -1 ==> -0x8000 <= x < 0x8000 && (x - v) % 0x1_0000 == 0
    ensures spec.length == -2 ==> -0x80 <= x < 0x80 && (x - v) % 0x100 == 0
  {
  }

  /** The base of each unsigned directive. */
  predicate InBase(conv: char, base: nat) {
    || (conv == 'u' && base == 10) || (conv == 'o' && base == 8) || (conv == 'b' && base == 2)
    || ((conv == 'x' || conv == 'X') && base == 16)
  }

  /** %u, %o, %x, %X and %b print the argument in their base, under hh and h its low 8 and 16 bits. */
  lemma UnsignedReadsBack(spec: Spec, v: int, base: nat)
    requires InBase(spec.conv, base) && -2 <= spec.length <= 2 && (spec.pad == ' ' || spec.pad == '0')
    requires Fits(spec, Num(v))
    ensures var x := ReadField(Field(spec, Num(v)), base);
            && (spec.length >= 0 ==> x == v)
            && (spec.length == -1 ==> 0 <= x < 0x1_0000 && (x - v) % 0x1_0000 == 0)
            && (spec.length == -2 ==> 0 <= x < 0x100 && (x - v) % 0x100 == 0)
  {
    var x := UnsignedValue(spec, v, base);
    UnsignedResidue(spec, v, x);
  }

  lemma UnsignedValue(spec: Spec, v: int, base: nat) returns (x: int)
    requires InBase(spec.conv, base) && Fits(spec, Num(v)) && (spec.pad == ' ' || spec.pad == '0')
    ensures x == Convert(spec, v) == ReadField(Field(spec, Num(v)), base)
  {
    x := Convert(spec, v);
    UnsignedFieldReads(spec, v, base, x);
  }

  lemma UnsignedFieldReads(spec: Spec, v: int, base: nat, x: int)
    requires InBase(spec.conv, base) && Fits(spec, Num(v)) && x == Convert(spec, v) && (spec.pad == ' ' || spec.pad == '0')
    ensures ReadField(Field(spec, Num(v)), base) == x
  {
    UnsignedFieldOf(spec, v, base, x);
    UnsignedFieldReadsBack(x, spec.width, spec.precision, spec.align, spec.pad, base, spec.conv == 'X');
  }

  lemma UnsignedFieldOf(spec: Spec, v: int, base: nat, x: int)
    requires InBase(spec.conv, base) && Fits(spec, Num(v)) && x == Convert(spec, v)
    ensures x >= 0
    ensures Field(spec, Num(v)) ==
            UnsignedField(x, spec.width, spec.precision, spec.align, spec.pad, base, spec.conv == 'X')
  {
  }

  lemma UnsignedResidue(spec: Spec, v: int, x: int)
    requires Unsigned(spec.conv) && Fits(spec, Num(v)) && x == Convert(spec, v)
    ensures x >= 0 && (spec.length >= 0 ==> x == v)
    ensures spec.length == -1 ==> 0 <= x < 0x1_0000 && (x - v) % 0x1_0000 == 0
    ensures spec.length == -2 ==> 0 <= x < 0x100 && (x - v) % 0x100 == 0
  {
  }

  /** %X prints no small letter, %x and the others no capital one. */
  lemma UnsignedCase(spec: Spec, v: int, base: nat)
    requires InBase(spec.conv, base) && (spec.pad == ' ' || spec.pad == '0') && Fits(spec, Num(v))
    ensures spec.conv == 'X' ==> forall c <- Field(spec, Num(v)) :: !('a' <= c <= 'z')
    ensures spec.conv != 'X' ==> forall c <- Field(spec, Num(v)) :: !('A' <= c <= 'Z')
  {
    NumeralCase(Convert(spec, v), base, spec.conv == 'X');
  }

  lemma {:induction false} NumeralCase(n: nat, base: nat, upper: bool)
    requires 2 <= base <= 36
    ensures upper ==> forall c <- Numeral(n, base, upper) :: !('a' <= c <= 'z')
    ensures !upper ==> forall c <- Numeral(n, base, upper) :: !('A' <= c <= 'Z')
    decreases n
  {
    if n >= base {
      QuotShrinks(n, base);
      NumeralCase(Quot(n, base), base, upper);
    }
  }

  /**
   * The parts of a signed field from left to right: blanks, the sign, zeros, the digits, blanks.
   * Blanks stand right under a - flag and else left, unless a 0 flag puts zeros in their place; the
   * zeros are those that the precision asks for and those.
   */
  lemma SignedLooks(spec: Spec, v: int, f: seq<char>, x: int) returns (lead: nat, zeros: nat, digits: seq<char>, trail: nat)
    requires (spec.conv == 'd' || spec.conv == 'i') && Fits(spec, Num(v)) && (spec.pad == ' ' || spec.pad == '0')
    requires LegalPrefix(spec.prefix) && f == Field(spec, Num(v)) && x == ReadField(f, 10)
    ensures f == Repeat(' ', lead) + (if x < 0 then ['-'] else if spec.prefix == NUL then [] else [spec.prefix])
                 + (Repeat('0', zeros) + digits) + Repeat(' ', trail)
    ensures DigitsFor(digits, if x < 0 then -x else x, spec.precision, 10)
    ensures Filled(spec, lead, zeros, |digits|, trail)
    ensures |f| == Max(spec.width, (if x < 0 || spec.prefix != NUL then 1 else 0) + Max(|digits|, spec.precision))
  {
    var m, sign, body := SignedBody(spec, v, f, x);
    lead, zeros, digits, trail := NumberLooks(f, sign, m, body, spec, 10, false);
  }

  /** The same for an unsigned field, which has no sign, whatever its flags. */
  lemma UnsignedLooks(spec: Spec, v: int, base: nat, f: seq<char>, x: int)
    returns (lead: nat, zeros: nat, digits: seq<char>, trail: nat)
    requires InBase(spec.conv, base) && Fits(spec, Num(v)) && (spec.pad == ' ' || spec.pad == '0')
    requires f == Field(spec, Num(v)) && x == ReadField(f, base)
    ensures f == Repeat(' ', lead) + (Repeat('0', zeros) + digits) + Repeat(' ', trail)
    ensures DigitsFor(digits, x, spec.precision, base) && Filled(spec, lead, zeros, |digits|, trail)
    ensures |f| == Max(spec.width, Max(|digits|, spec.precision))
  {
    var body := UnsignedBody(spec, v, base, f, x);
    lead, zeros, digits, trail := NumberLooks(f, [], x, body, spec, base, spec.conv == 'X');
    assert Repeat(' ', lead) + [] == Repeat(' ', lead);
  }

  /** The digits of n: none for 0 at precision 0, and else its numeral without a leading zero. */
  predicate DigitsFor(digits: seq<char>, n: int, precision: int, base: nat)
    requires 2 <= base
  {
    if n == 0 then digits == if precision == 0 then [] else ['0']
    else digits != [] && digits[0] != '0' && ValueOf(digits, base) == n
  }

  /** Which filling a directive may have, beside as many digits. */
  predicate Filled(spec: Spec, lead: nat, zeros: nat, digits: nat, trail: nat) {
    && zeros + digits >= spec.precision && (trail > 0 ==> spec.align)
    && (lead > 0 ==> !spec.align && (spec.pad == ' ' || spec.precision > 0))
    && (zeros > 0 && zeros + digits > spec.precision ==> !spec.align && spec.pad == '0' && spec.precision <= 0)
  }

  lemma SignedBody(spec: Spec, v: int, f: seq<char>, x: int) returns (m: nat, sign: seq<char>, body: seq<char>)
    requires (spec.conv == 'd' || spec.conv == 'i') && Fits(spec, Num(v)) && (spec.pad == ' ' || spec.pad == '0')
    requires LegalPrefix(spec.prefix) && f == Field(spec, Num(v)) && x == ReadField(f, 10)
    ensures m == (if x < 0 then -x else x) && body == NumberBody(m, spec.precision, 10, false)
    ensures sign == if x < 0 then ['-'] else if spec.prefix == NUL then [] else [spec.prefix]
    ensures f == NumberField(sign, body, spec.width, spec.align, PadFor(spec.pad, spec.precision))
  {
    SignedFieldReads(spec, v, Convert(spec, v));
    m, sign := if x < 0 then -x else x, Sign(x, spec.prefix);
    body := NumberBody(m, spec.precision, 10, false);
  }

  lemma UnsignedBody(spec: Spec, v: int, base: nat, f: seq<char>, x: int) returns (body: seq<char>)
    requires InBase(spec.conv, base) && Fits(spec, Num(v)) && (spec.pad == ' ' || spec.pad == '0')
    requires f == Field(spec, Num(v)) && x == ReadField(f, base)
    ensures x >= 0 && body == NumberBody(x, spec.precision, base, spec.conv == 'X')
    ensures f == NumberField([], body, spec.width, spec.align, PadFor(spec.pad, spec.precision))
  {
    UnsignedFieldReads(spec, v, base, Convert(spec, v));
    UnsignedFieldOf(spec, v, base, x);
    body := NumberBody(x, spec.precision, base, spec.conv == 'X');
  }

  lemma NumberLooks(f: seq<char>, sign: seq<char>, m: nat, body: seq<char>, spec: Spec, base: nat, upper: bool)
    returns (lead: nat, zeros: nat, digits: seq<char>, trail: nat)
    requires 2 <= base <= 16 && body == NumberBody(m, spec.precision, base, upper) && (spec.pad == ' ' || spec.pad == '0')
    requires f == NumberField(sign, body, spec.width, spec.align, PadFor(spec.pad, spec.precision))
    ensures f == Repeat(' ', lead) + sign + (Repeat('0', zeros) + digits) + Repeat(' ', trail)
    ensures DigitsFor(digits, m, spec.precision, base) && Filled(spec, lead, zeros, |digits|, trail)
    ensures |f| == Max(spec.width, |sign| + Max(|digits|, spec.precision))
  {
    digits := DigitsOf(m, spec.precision, base, upper, body);
    lead, zeros, trail := FillsOf(f, sign, digits, spec, body);
  }

  lemma DigitsOf(m: nat, precision: int, base: nat, upper: bool, body: seq<char>) returns (digits: seq<char>)
    requires 2 <= base <= 16 && body == NumberBody(m, precision, base, upper)
    ensures DigitsFor(digits, m, precision, base) && body == if digits == [] then [] else ZeroPad(digits, precision)
  {
    digits := if precision == 0 && m == 0 then [] else Numeral(m, base, upper);
    NumeralReadsBack(m, base, upper);
    if m > 0 {
      NoLeadingZero(m, base, upper);
    }
  }

  lemma FillsOf(f: seq<char>, sign: seq<char>, digits: seq<char>, spec: Spec, body: seq<char>)
    returns (lead: nat, zeros: nat, trail: nat)
    requires (spec.pad == ' ' || spec.pad == '0') && (digits == [] ==> spec.precision == 0)
    requires body == if digits == [] then [] else ZeroPad(digits, spec.precision)
    requires f == NumberField(sign, body, spec.width, spec.align, PadFor(spec.pad, spec.precision))
    ensures f == Repeat(' ', lead) + sign + (Repeat('0', zeros) + digits) + Repeat(' ', trail)
    ensures Filled(spec, lead, zeros, |digits|, trail)
    ensures |f| == Max(spec.width, |sign| + Max(|digits|, spec.precision))
  {
    var given: nat := Max(spec.precision - |digits|, 0);
    GivenZeros(digits, spec.precision, given);
    var extra;
    lead, extra, trail := FieldPlaces(sign, body, spec.width, spec.align, PadFor(spec.pad, spec.precision));
    zeros := extra + given;
    ZerosJoin(extra, given, digits);
  }

  lemma GivenZeros(digits: seq<char>, precision: int, given: nat)
    requires given == Max(precision - |digits|, 0)
    ensures ZeroPad(digits, precision) == Repeat('0', given) + digits
    ensures given == 0 ==> Repeat('0', given) + digits == digits
  {
    assert precision - |digits| <= 0 ==> Repeat('0', precision - |digits|) == Repeat('0', 0);
  }

  lemma ZerosJoin(a: nat, b: nat, s: seq<char>)
    ensures Repeat('0', a) + (Repeat('0', b) + s) == Repeat('0', a + b) + s
  {
  }

  lemma FieldPlaces(sign: seq<char>, body: seq<char>, width: int, align: bool, pad: char)
    returns (lead: nat, zeros: nat, trail: nat)
    requires pad == ' ' || pad == '0'
    ensures NumberField(sign, body, width, align, pad) ==
            Repeat(' ', lead) + sign + (Repeat('0', zeros) + body) + Repeat(' ', trail)
    ensures (trail > 0 ==> align) && (lead > 0 ==> !align && pad == ' ') && (zeros > 0 ==> !align && pad == '0')
    ensures lead + zeros + trail == Max(width - |body| - |sign|, 0)
  {
    var fill: nat := Max(width - |body| - |sign|, 0);
    assert Repeat(' ', width - |body| - |sign|) == Repeat(' ', fill) && Repeat('0', width - |body| - |sign|) == Repeat('0', fill);
    lead, zeros, trail := 0, 0, 0;
    if align {
      trail := fill;
      assert sign + body + Repeat(' ', fill) == [] + sign + ([] + body) + Repeat(' ', fill);
    } else if pad == '0' {
      zeros := fill;
      assert sign + Repeat('0', fill) + body == [] + sign + (Repeat('0', fill) + body) + [];
    } else {
      lead := fill;
      assert Repeat(' ', fill) + sign + body == Repeat(' ', fill) + sign + ([] + body) + [];
    }
  }

  // ---------- The other directives ----------

  /** How many characters of a string %s prints. */
  function Shown(s: seq<char>, precision: int): nat {
    if 0 <= precision < |s| then precision else |s|
  }

  /** %s prints the first characters of the string, as many as the precision lets, on the side that the - flag asks for. */
  lemma StringShows(spec: Spec, s: seq<char>)
    requires spec.conv == 's' && NUL !in s
    ensures var n, f := Shown(s, spec.precision), Field(spec, Str(s));
            && (spec.precision < 0 ==> n == |s|)
            && |f| == (if spec.width > n then spec.width else n)
            && (spec.align ==> (forall k :: 0 <= k < n ==> f[k] == s[k]) && forall k :: n <= k < |f| ==> f[k] == ' ')
            && (!spec.align ==>
                 && (forall k :: 0 <= k < n ==> f[|f| - n + k] == s[k])
                 && forall k :: 0 <= k < |f| - n ==> f[k] == ' ')
  {
  }

  /** %c prints the low byte of its argument and %% itself, with the blanks on the side that the - flag asks for. */
  lemma CharacterShows(spec: Spec, v: int)
    requires spec.conv == 'c' || spec.conv == '%'
    requires -0x8000_0000 <= v < 0x8000_0000
    ensures var f, c := Field(spec, Num(v)), if spec.conv == 'c' then (v % 0x100) as char else '%';
            && |f| == (if spec.width > 1 then spec.width else 1)
            && f[if spec.align then 0 else |f| - 1] == c
            && (forall k :: 0 <= k < |f| && k != (if spec.align then 0 else |f| - 1) ==> f[k] == ' ')
  {
  }

  /** %p prints 16 digits of base 16 in capitals, whatever its flags, width and precision. */
  lemma PointerShows(spec: Spec, v: int)
    requires spec.conv == 'p' && 0 <= v < 0x1_0000_0000_0000_0000
    ensures var f := Field(spec, Num(v));
            && |f| == 16 && ReadField(f, 16) == v
            && forall c <- f :: '0' <= c <= '9' || 'A' <= c <= 'F'
  {
    PointerField(spec, v);
    UnsignedFieldReadsBack(v, 16, -1, false, '0', 16, true);
    PointerDigits(v, UnsignedField(v, 16, -1, false, '0', 16, true));
  }

  lemma PointerField(spec: Spec, v: int)
    requires spec.conv == 'p' && 0 <= v < 0x1_0000_0000_0000_0000
    ensures Field(spec, Num(v)) == UnsignedField(v, 16, -1, false, '0', 16, true)
  {
  }

  lemma PointerDigits(v: nat, f: seq<char>)
    requires v < 0x1_0000_0000_0000_0000 && f == UnsignedField(v, 16, -1, false, '0', 16, true)
    ensures |f| == 16 && forall c <- f :: '0' <= c <= '9' || 'A' <= c <= 'F'
  {
    SixteenDigits(v);
    HexDigits(v);
    var digits := Numeral(v, 16, true);
    GivenZeros(digits, -1, 0);
    assert f == [] + Repeat('0', 16 - |digits|) + digits;
  }

  lemma SixteenDigits(v: nat)
    requires v < 0x1_0000_0000_0000_0000
    ensures |Numeral(v, 16, true)| <= 16
  {
    assert Power(16, 8) == 0x1_0000_0000;
    PowerSum(16, 8, 8);
    NumeralLength(v, 16, true, 16);
  }

  lemma {:induction false} PowerSum(base: nat, j: nat, k: nat)
    ensures Power(base, j + k) == Power(base, j) * Power(base, k)
  {
    if j > 0 {
      PowerSum(base, j - 1, k);
      assert base * (Power(base, j - 1) * Power(base, k)) == (base * Power(base, j - 1)) * Power(base, k);
    }
  }

  lemma {:induction false} HexDigits(n: nat)
    ensures forall c <- Numeral(n, 16, true) :: '0' <= c <= '9' || 'A' <= c <= 'F'
    decreases n
  {
    if n >= 16 {
      QuotShrinks(n, 16);
      HexDigits(Quot(n, 16));
    }
  }

  // ---------- The grammar of directives ----------

  /**
   * A directive that is spelled flags, digits, a dot with digits or none, length letters and a
   * conversion means these settings: a plus wins over a blank, and a lone dot is precision 0.
   */
  lemma DirectiveReads(a: seq<char>, w: seq<char>, p: seq<char>, l: seq<char>, c: char, rest: seq<char>, length: int, n: nat)
    requires forall x <- a :: x == '-' || x == '+' || x == ' ' || x == '0'
    requires (forall x <- w :: '0' <= x <= '9') && (w != [] ==> w[0] != '0')
    requires p == [] || (p[0] == '.' && forall x <- p[1..] :: '0' <= x <= '9')
    requires -2 <= length <= 2
    requires l == if length == -2 then "hh" else if length == -1 then "h" else if length == 1 then "l"
                  else if length == 2 then "ll" else ""
    requires !('0' <= c <= '9') && c != '-' && c != '+' && c != ' ' && c != '.' && c != 'h' && c != 'l'
    requires n == |a| + (|w| + |p| + |l| + 1)
    ensures ParseDirective(a + (w + (p + (l + [c] + rest))), 0) ==
            Some((Spec('-' in a, if '+' in a then '+' else if ' ' in a then ' ' else NUL, if '0' in a then '0' else ' ',
                       if w == [] then -1 else ValueOf(w, 10), if p == [] then -1 else ValueOf(p[1..], 10), length, c), n))
  {
    var t, tail, k := TailReads(w, p, l, c, rest, length);
    FlagsAndTail(a, t, tail, k, WithFlags(CharSet(a), tail), n);
    FlagsMean(a, tail);
  }

  lemma FlagsMean(a: seq<char>, tail: Spec)
    ensures WithFlags(CharSet(a), tail) ==
            Spec('-' in a, if '+' in a then '+' else if ' ' in a then ' ' else NUL, if '0' in a then '0' else ' ',
                 tail.width, tail.precision, tail.length, tail.conv)
  {
  }

  lemma TailReads(w: seq<char>, p: seq<char>, l: seq<char>, c: char, rest: seq<char>, length: int)
    returns (t: seq<char>, tail: Spec, k: nat)
    requires (forall x <- w :: IsDigit(x)) && (w != [] ==> w[0] != '0')
    requires p == [] || (p[0] == '.' && forall x <- p[1..] :: IsDigit(x))
    requires -2 <= length <= 2
    requires l == if length == -2 then "hh" else if length == -1 then "h" else if length == 1 then "l"
                  else if length == 2 then "ll" else ""
    requires !IsDigit(c) && !IsFlag(c) && c != '.' && c != 'h' && c != 'l'
    ensures t == w + (p + (l + [c] + rest)) && t != [] && !IsFlag(t[0]) && k == |w| + |p| + |l| + 1
    ensures tail.width == (if w == [] then -1 else ValueOf(w, 10)) && tail.length == length && tail.conv == c
    ensures tail.precision == if p == [] then -1 else ValueOf(p[1..], 10)
    ensures ParseTail(t, 0) == Some((tail, k))
  {
    t, k := w + (p + (l + [c] + rest)), |w| + |p| + |l| + 1;
    tail := FlagSpec({}).(width := if w == [] then -1 else ValueOf(w, 10),
                          precision := if p == [] then -1 else ValueOf(p[1..], 10), length := length, conv := c);
    TailParses(t, w, p, l, c, rest, length, k - 1, tail, k);
    TailStart(w, p, l, c, rest);
  }

  // ---------- Whole formats ----------

  /** A format without a percent sign prints itself. */
  lemma {:induction false} PlainPrintsItself(f: seq<char>, p: nat, args: seq<Arg>)
    requires p <= |f| && '%' !in f
    ensures Parse(f, p).Some? && Matching(Parse(f, p).value, args)
    ensures Render(Parse(f, p).value, args) == f[p..] && Count(Parse(f, p).value, args) == |f| - p
    decreases |f| - p
  {
    if p < |f| {
      PlainPrintsItself(f, p + 1, args);
      var rest := Parse(f, p + 1).value;
      assert ([Plain(f[p])] + rest)[1..] == rest;
      assert f[p..] == [f[p]] + f[p + 1..];
    }
  }

  /** How many arguments the items take. */
  function Taken(items: seq<Item>): nat {
    if items == [] then 0
    else (if items[0].Directive? && TakesArg(items[0].spec.conv) then 1 else 0) + Taken(items[1..])
  }

  /** A format in two parts prints what the parts print, each with its own arguments, and returns their sum. */
  lemma {:induction false} PartsPrint(a: seq<Item>, x: seq<Arg>, b: seq<Item>, y: seq<Arg>)
    requires Matching(a, x) && |x| == Taken(a) && Matching(b, y)
    ensures Matching(a + b, x + y)
    ensures Render(a + b, x + y) == Render(a, x) + Render(b, y)
    ensures Count(a + b, x + y) == Count(a, x) + Count(b, y)
    decreases |a|
  {
    if a == [] {
      assert a + b == b && x + y == y;
    } else {
      var all, args, rest := FirstOfBoth(a, x, b, y);
      PartsPrint(a[1..], rest, b, y);
      FirstAlike(a, x, all, args, rest, b, y);
    }
  }

  lemma FirstOfBoth(a: seq<Item>, x: seq<Arg>, b: seq<Item>, y: seq<Arg>)
    returns (all: seq<Item>, args: seq<Arg>, rest: seq<Arg>)
    requires a != [] && Matching(a, x) && |x| == Taken(a)
    ensures all == a + b && args == x + y && all[0] == a[0] && all[1..] == a[1..] + b
    ensures rest == RestArgs(a, x) && Matching(a[1..], rest) && |rest| == Taken(a[1..])
  {
    all, args, rest := a + b, x + y, RestArgs(a, x);
  }

  lemma FirstAlike(a: seq<Item>, x: seq<Arg>, all: seq<Item>, args: seq<Arg>, rest: seq<Arg>, b: seq<Item>, y: seq<Arg>)
    requires a != [] && Matching(a, x) && all != [] && all[0] == a[0] && args == x + y && rest == RestArgs(a, x)
    requires all[1..] == a[1..] + b && Matching(all[1..], rest + y) && Matching(b, y) && Matching(a[1..], rest)
    requires Render(all[1..], rest + y) == Render(a[1..], rest) + Render(b, y)
    requires Count(all[1..], rest + y) == Count(a[1..], rest) + Count(b, y)
    ensures Matching(all, args)
    ensures Render(all, args) == Render(a, x) + Render(b, y)
    ensures Count(all, args) == Count(a, x) + Count(b, y)
  {
    var e, n := FirstOfEach(a, x, all, args, rest, y);
    Regroup(e, Render(a[1..], rest), Render(b, y));
  }

  lemma Regroup(a: seq<char>, b: seq<char>, c: seq<char>)
    ensures a + b + c == a + (b + c)
  {
  }

  lemma FirstOfEach(a: seq<Item>, x: seq<Arg>, all: seq<Item>, args: seq<Arg>, rest: seq<Arg>, y: seq<Arg>)
    returns (e: seq<char>, n: int)
    requires a != [] && Matching(a, x) && all != [] && all[0] == a[0] && args == x + y && rest == RestArgs(a, x)
    requires Matching(all[1..], rest + y)
    ensures Matching(all, args) && Matching(a[1..], rest)
    ensures Render(a, x) == e + Render(a[1..], rest) && Count(a, x) == n + Count(a[1..], rest)
    ensures Render(all, args) == e + Render(all[1..], rest + y) && Count(all, args) == n + Count(all[1..], rest + y)
  {
    MatchFirst(a, x, all, args, rest, y);
    e, n := SameFirst(a, x, all, args);
    FirstThenRest(a, x, rest, e, n);
    FirstThenRest(all, args, rest + y, e, n);
  }

  lemma SameFirst(a: seq<Item>, x: seq<Arg>, all: seq<Item>, args: seq<Arg>) returns (e: seq<char>, n: int)
    requires a != [] && Matching(a, x) && all != [] && all[0] == a[0] && Matching(all, args) && NextArg(all, args) == NextArg(a, x)
    ensures e == Emitted(a, x) == Emitted(all, args) && n == CountedFor(a, x) == CountedFor(all, args)
  {
    e, n := Emitted(a, x), CountedFor(a, x);
  }

  lemma FirstThenRest(items: seq<Item>, args: seq<Arg>, rest: seq<Arg>, e: seq<char>, n: int)
    requires items != [] && Matching(items, args) && rest == RestArgs(items, args)
    requires e == Emitted(items, args) && n == CountedFor(items, args)
    ensures Matching(items[1..], rest)
    ensures Render(items, args) == e + Render(items[1..], rest) && Count(items, args) == n + Count(items[1..], rest)
  {
  }

  lemma MatchFirst(a: seq<Item>, x: seq<Arg>, all: seq<Item>, args: seq<Arg>, rest: seq<Arg>, y: seq<Arg>)
    requires a != [] && Matching(a, x) && all != [] && all[0] == a[0] && args == x + y && rest == RestArgs(a, x)
    requires Matching(all[1..], rest + y)
    ensures Matching(all, args) && RestArgs(all, args) == rest + y && NextArg(all, args) == NextArg(a, x)
  {
    if a[0].Directive? && TakesArg(a[0].spec.conv) {
      assert args[1..] == rest + y;
    }
  }

  /** One directive prints its field with the letters that take an argument, and of the others only %% prints. */
  lemma OnePrints(spec: Spec, arg: Arg)
    ensures spec.conv in "dibuoxXcsp" && Fits(spec, arg) ==>
              Matching([Directive(spec)], [arg]) && Render([Directive(spec)], [arg]) == Field(spec, arg)
    ensures spec.conv !in "dibuoxXcsp" ==>
              && Matching([Directive(spec)], [])
              && Render([Directive(spec)], []) == if spec.conv == '%' then Field(spec, arg) else []
  {
    assert [Directive(spec)][1..] == [] && [arg][1..] == [];
    TakingLetters(spec.conv);
  }

  lemma TakingLetters(c: char)
    ensures c in "dibuoxXcsp" <==> TakesArg(c)
  {
    var s := "dibuoxXcsp";
    assert s[0] == 'd' && s[1] == 'i' && s[2] == 'b' && s[3] == 'u' && s[4] == 'o' && s[5] == 'x' && s[6] == 'X'
           && s[7] == 'c' && s[8] == 's' && s[9] == 'p';
  }

  // Writing a whole format and parsing it back

  predicate WritableItem(item: Item) {
    match item
    case Plain(c) => c != '%'
    case Directive(spec) => Writable(spec)
  }

  predicate WritableItems(items: seq<Item>) {
    items == [] || (WritableItem(items[0]) && WritableItems(items[1..]))
  }

  function WriteItem(item: Item): seq<char>
    requires WritableItem(item)
  {
    match item
    case Plain(c) => [c]
    case Directive(spec) => ['%'] + Write(spec)
  }

  function WriteFormat(items: seq<Item>): seq<char>
    requires WritableItems(items)
  {
    if items == [] then [] else WriteItem(items[0]) + WriteFormat(items[1..])
  }

  /** A tail is parsed the same wherever it stands. */
  lemma TailAt(f: seq<char>, k: nat, t: seq<char>, tail: Spec, m: nat, next: nat)
    requires k <= |f| && f[k..] == t && ParseTail(t, 0) == Some((tail, m)) && next == k + m
    ensures ParseTail(f, k) == Some((tail, next))
  {
    assert f[..k] + t == f;
    TailShift(f[..k], t, k);
  }

  lemma FlagsAt(f: seq<char>, k: nat, q: nat, flags: seq<char>, t: seq<char>)
    requires q == k + |flags| && k <= |f| && f[k..] == flags + t && (forall c <- flags :: IsFlag(c)) && t != [] && !IsFlag(t[0])
    ensures q <= |f| && FlagsEnd(f, k) == q && f[k..q] == flags && f[q..] == t
  {
    SliceAt(f, k, flags, t);
    assert f[q] == f[q..][0];
    assert f[k..q] == f[k..][..|flags|] == flags;
    forall j | k <= j < q
      ensures IsFlag(f[j])
    {
      assert f[j] == f[k..q][j - k] == flags[j - k];
    }
    FlagsEndIs(f, k, q);
  }

  lemma DirectiveFrom(f: seq<char>, k: nat, q: nat, flags: seq<char>, tail: Spec, next: nat, spec: Spec)
    requires k <= q <= |f| && q == FlagsEnd(f, k) && flags == f[k..q] && ParseTail(f, q) == Some((tail, next))
    requires spec == WithFlags(CharSet(flags), tail)
    ensures ParseDirective(f, k) == Some((spec, next))
  {
  }

  /** A written directive is parsed the same wherever it stands. */
  lemma WrittenAt(f: seq<char>, k: nat, spec: Spec, rest: seq<char>, next: nat)
    requires Writable(spec) && k <= |f| && f[k..] == Write(spec) + rest && next == k + |Write(spec)|
    ensures ParseDirective(f, k) == Some((spec, next))
  {
    var flags, t, tail, n := WrittenParts(spec, rest);
    PartsAt(f, k, flags, t, tail, n, spec, next);
  }

  lemma PartsAt(f: seq<char>, k: nat, flags: seq<char>, t: seq<char>, tail: Spec, n: nat, spec: Spec, next: nat)
    requires k <= |f| && f[k..] == flags + t && next == k + |flags| + n
    requires (forall c <- flags :: IsFlag(c)) && t != [] && !IsFlag(t[0])
    requires ParseTail(t, 0) == Some((tail, n)) && WithFlags(CharSet(flags), tail) == spec
    ensures ParseDirective(f, k) == Some((spec, next))
  {
    var q := k + |flags|;
    FlagsAt(f, k, q, flags, t);
    TailAt(f, q, t, tail, n, next);
    DirectiveFrom(f, k, q, flags, tail, next, spec);
  }

  lemma PercentParses(f: seq<char>, p: nat, spec: Spec, next: nat)
    requires p < |f| && f[p] == '%' && ParseDirective(f, p + 1) == Some((spec, next))
    ensures Parse(f, p) == match Parse(f, next) case None => None case Some(items) => Some([Directive(spec)] + items)
  {
  }

  lemma CharParses(f: seq<char>, p: nat)
    requires p < |f| && f[p] != '%'
    ensures Parse(f, p) == match Parse(f, p + 1) case None => None case Some(items) => Some([Plain(f[p])] + items)
  {
  }

  lemma SliceAt(f: seq<char>, p: nat, a: seq<char>, b: seq<char>)
    requires p <= |f| && f[p..] == a + b
    ensures p + |a| <= |f| && f[p + |a|..] == b && (a != [] ==> f[p] == a[0] && f[p + 1..] == a[1..] + b)
  {
    assert f[p + |a|..] == f[p..][|a|..];
    if a != [] {
      assert f[p..][0] == f[p];
      assert f[p + 1..] == f[p..][1..] == (a + b)[1..];
    }
  }

  lemma PlainParses(f: seq<char>, p: nat, c: char, rest: seq<char>)
    requires c != '%' && p <= |f| && f[p..] == [c] + rest
    ensures p < |f| && f[p + 1..] == rest
    ensures Parse(f, p) == match Parse(f, p + 1) case None => None case Some(items) => Some([Plain(c)] + items)
  {
    SliceAt(f, p, [c], rest);
    CharParses(f, p);
  }

  lemma WrittenDirectiveParses(f: seq<char>, p: nat, spec: Spec, rest: seq<char>, next: nat)
    requires Writable(spec) && p <= |f| && f[p..] == ['%'] + Write(spec) + rest && next == p + 1 + |Write(spec)|
    ensures p < next <= |f| && f[next..] == rest
    ensures Parse(f, p) == match Parse(f, next) case None => None case Some(items) => Some([Directive(spec)] + items)
  {
    var w := Write(spec);
    PercentFirst(f, p, w, rest, next);
    WrittenAt(f, p + 1, spec, rest, next);
    PercentParses(f, p, spec, next);
  }

  lemma PercentFirst(f: seq<char>, p: nat, w: seq<char>, rest: seq<char>, next: nat)
    requires p <= |f| && f[p..] == ['%'] + w + rest && next == p + 1 + |w|
    ensures p < next <= |f| && f[p] == '%' && f[p + 1..] == w + rest && f[next..] == rest
  {
    assert ['%'] + w + rest == ['%'] + (w + rest);
    SliceAt(f, p, ['%'], w + rest);
    SliceAt(f, p + 1, w, rest);
  }

  /** The first item of a written format, at a place. */
  lemma ItemParses(f: seq<char>, p: nat, item: Item, rest: seq<char>, next: nat)
    requires WritableItem(item) && p <= |f| && f[p..] == WriteItem(item) + rest && next == p + |WriteItem(item)|
    ensures p < next <= |f| && f[next..] == rest
    ensures Parse(f, p) == match Parse(f, next) case None => None case Some(items) => Some([item] + items)
  {
    match item
    case Plain(c) => PlainParses(f, p, c, rest);
    case Directive(spec) => WrittenDirectiveParses(f, p, spec, rest, next);
  }

  lemma FirstParses(f: seq<char>, p: nat, items: seq<Item>) returns (next: nat)
    requires items != [] && WritableItems(items) && p <= |f| && f[p..] == WriteFormat(items)
    ensures p < next <= |f| && WritableItems(items[1..]) && f[next..] == WriteFormat(items[1..])
    ensures Parse(f, next) == Some(items[1..]) ==> Parse(f, p) == Some(items)
  {
    next := p + |WriteItem(items[0])|;
    ItemParses(f, p, items[0], WriteFormat(items[1..]), next);
    assert items == [items[0]] + items[1..];
  }

  /** Round trip: a whole format that is written out, behind anything, parses back to its items. */
  lemma {:induction false} WrittenFormatParses(f: seq<char>, p: nat, items: seq<Item>)
    requires WritableItems(items) && p <= |f| && f[p..] == WriteFormat(items)
    ensures Parse(f, p) == Some(items)
    decreases |items|
  {
    if items == [] {
      assert |f[p..]| == 0;
    } else {
      var next := FirstParses(f, p, items);
      WrittenFormatParses(f, next, items[1..]);
    }
  }
}
