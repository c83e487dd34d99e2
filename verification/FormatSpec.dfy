/** The format language of __proto_print: how a directive is parsed, and what each one renders. */
module FormatSpec {
  import opened Strings
  import opened Digits
  import opened Wrappers

  // ---------- Directives ----------

  /** The parsed directive: prefix and pad are characters, width and precision -1 when absent. */
  datatype Spec = Spec(align: bool, prefix: char, pad: char, width: int, precision: int, length: int, conv: char)

  predicate IsFlag(c: char) {
    c == '-' || c == '+' || c == ' ' || c == '0'
  }

  predicate IsDigit(c: char) {
    '0' <= c <= '9'
  }

  /** The first index from p on that holds no flag, or the end. */
  function FlagsEnd(f: seq<char>, p: nat): (q: nat)
    requires p <= |f|
    ensures p <= q <= |f| && (q < |f| ==> !IsFlag(f[q]))
    decreases |f| - p
  {
    if p < |f| && IsFlag(f[p]) then FlagsEnd(f, p + 1) else p
  }

  function DigitsEnd(f: seq<char>, p: nat): (q: nat)
    requires p <= |f|
    ensures p <= q <= |f| && (q < |f| ==> !IsDigit(f[q]))
    decreases |f| - p
  {
    if p < |f| && IsDigit(f[p]) then DigitsEnd(f, p + 1) else p
  }

  /** The three settings that flags make; they depend on the set of flag characters only. */
  function FlagSpec(flags: set<char>): Spec {
    Spec('-' in flags,
         if '+' in flags then '+' else if ' ' in flags then ' ' else NUL,
         if '0' in flags then '0' else ' ',
         -1, -1, 0, NUL)
  }

  function CharSet(s: seq<char>): set<char> {
    set c | c in s
  }

  /** Where each part of a directive ends; the directive starts behind its '%'. */
  function WidthEnd(f: seq<char>, q0: nat): (q1: nat)
    requires q0 <= |f|
    ensures q0 <= q1 <= |f|
  {
    DigitsEnd(f, q0)
  }

  function PrecisionEnd(f: seq<char>, q1: nat): (q2: nat)
    requires q1 <= |f|
    ensures q1 <= q2 <= |f|
  {
    if q1 < |f| && f[q1] == '.' then DigitsEnd(f, q1 + 1) else q1
  }

  function LengthEnd(f: seq<char>, q2: nat): (q3: nat)
    requires q2 <= |f|
    ensures q2 <= q3 <= |f| && q3 <= q2 + 2
  {
    if q2 < |f| && (f[q2] == 'h' || f[q2] == 'l') then
      if q2 + 1 < |f| && f[q2 + 1] == f[q2] then q2 + 2 else q2 + 1
    else
      q2
  }

  function LengthOf(f: seq<char>, q2: nat): int
    requires q2 <= |f|
  {
    (LengthEnd(f, q2) - q2) * (if q2 < |f| && f[q2] == 'h' then -1 else 1)
  }

  /** The settings that a directive makes behind its flags, from the places where its parts end. */
  function TailSpec(f: seq<char>, q0: nat, q1: nat, q2: nat, q3: nat): Spec
    requires q0 <= q1 <= q2 <= q3 < |f|
  {
    var width := if q1 > q0 then ValueOf(f[q0..q1], 10) else -1;
    var precision := if q2 > q1 then ValueOf(f[q1 + 1..q2], 10) else -1;
    FlagSpec({}).(width := width, precision := precision, length := LengthOf(f, q2), conv := f[q3])
  }

  /** A directive from the end of its flags on: its settings and the index behind it. */
  function ParseTail(f: seq<char>, q0: nat): (r: Option<(Spec, nat)>)
    requires q0 <= |f|
    ensures r.Some? ==> q0 < r.value.1 <= |f|
  {
    var q1 := WidthEnd(f, q0);
    var q2 := PrecisionEnd(f, q1);
    var q3 := LengthEnd(f, q2);
    if q3 == |f| then None else Some((TailSpec(f, q0, q1, q2, q3), q3 + 1))
  }

  /** The settings of the flags put into a directive without flags. */
  function WithFlags(flags: set<char>, spec: Spec): Spec {
    var g := FlagSpec(flags);
    spec.(align := g.align, prefix := g.prefix, pad := g.pad)
  }

  /** The directive at p and the index behind it, or None when the format ends inside it. */
  function ParseDirective(f: seq<char>, p: nat): (r: Option<(Spec, nat)>)
    requires p <= |f|
    ensures r.Some? ==> p < r.value.1 <= |f|
  {
    var q0 := FlagsEnd(f, p);
    match ParseTail(f, q0)
    case None => None
    case Some((spec, next)) => Some((WithFlags(CharSet(f[p..q0]), spec), next))
  }

  datatype Item = Plain(c: char) | Directive(spec: Spec)

  /** The items of a format from p on, or None when it ends inside a directive. */
  function Parse(f: seq<char>, p: nat): Option<seq<Item>>
    requires p <= |f|
    decreases |f| - p
  {
    if p == |f| then Some([])
    else if f[p] == '%' then
      match ParseDirective(f, p + 1)
      case None => None
      case Some((spec, next)) =>
        (match Parse(f, next) case None => None case Some(rest) => Some([Directive(spec)] + rest))
    else
      (match Parse(f, p + 1) case None => None case Some(rest) => Some([Plain(f[p])] + rest))
  }

  // ---------- Arguments ----------

  /** An argument as va_arg delivers it: a number, or a string without its terminator. */
  datatype Arg = Num(v: int) | Str(s: seq<char>)

  predicate Signed(conv: char) {
    conv == 'd' || conv == 'i'
  }

  predicate Unsigned(conv: char) {
    conv == 'b' || conv == 'u' || conv == 'o' || conv == 'x' || conv == 'X'
  }

  predicate TakesArg(conv: char) {
    Signed(conv) || Unsigned(conv) || conv == 'c' || conv == 's' || conv == 'p'
  }

  function Base(conv: char): (b: nat)
    ensures 2 <= b <= 16
  {
    if conv == 'b' then 2 else if conv == 'u' then 10 else if conv == 'o' then 8 else 16
  }

  /** The assignment of the argument to a variable of the type that the length selects. */
  function Convert(spec: Spec, v: int): int {
    if Signed(spec.conv) then
      if spec.length == -2 then (v + 0x80) % 0x100 - 0x80
      else if spec.length == -1 then (v + 0x8000) % 0x1_0000 - 0x8000
      else v
    else if spec.length == -2 then v % 0x100
    else if spec.length == -1 then v % 0x1_0000
    else v
  }

  /** The type va_arg names holds the value, and the numeral fits the 32-byte buffer. */
  predicate Fits(spec: Spec, arg: Arg) {
    if spec.conv == 's' then arg.Str? && NUL !in arg.s
    else
      && arg.Num?
      && (Signed(spec.conv) || Unsigned(spec.conv) ==> spec.precision <= 31)
      && if Signed(spec.conv) then
           if spec.length <= 0 then -0x8000_0000 <= arg.v < 0x8000_0000
           else -0x8000_0000_0000_0000 < arg.v < 0x8000_0000_0000_0000
         else if Unsigned(spec.conv) then
           && (if spec.length == -2 || spec.length == -1 then -0x8000_0000 <= arg.v < 0x8000_0000
               else if spec.length <= 0 then 0 <= arg.v < 0x1_0000_0000
               else 0 <= arg.v < 0x1_0000_0000_0000_0000)
           && (spec.conv == 'b' ==> Convert(spec, arg.v) < 0x8000_0000)
         else if spec.conv == 'c' then -0x8000_0000 <= arg.v < 0x8000_0000
         else 0 <= arg.v < 0x1_0000_0000_0000_0000
  }

  /** There is a fitting argument for every directive that takes one. */
  predicate Matching(items: seq<Item>, args: seq<Arg>) {
    if items == [] then true
    else if items[0].Directive? && TakesArg(items[0].spec.conv) then
      args != [] && Fits(items[0].spec, args[0]) && Matching(items[1..], args[1..])
    else
      Matching(items[1..], args)
  }

  // ---------- Rendering ----------

  /** The digits of a number field: none for 0 at precision 0. */
  function NumberBody(n: nat, precision: int, base: nat, upper: bool): (s: seq<char>)
    requires 2 <= base <= 16
    ensures NUL !in s
  {
    if precision == 0 && n == 0 then [] else ZeroPad(Numeral(n, base, upper), precision)
  }

  function Sign(n: int, prefix: char): seq<char> {
    if n < 0 then ['-'] else if prefix != NUL then [prefix] else []
  }

  function Max(a: int, b: int): int {
    if a > b then a else b
  }

  /** A positive precision turns zero padding off. */
  function PadFor(pad: char, precision: int): char {
    if precision > 0 then ' ' else pad
  }

  /** Sign and digits in a field of at least the given width. */
  function NumberField(sign: seq<char>, body: seq<char>, width: int, align: bool, pad: char): seq<char> {
    var fill := width - |body| - |sign|;
    if align then sign + body + Repeat(' ', fill)
    else if pad == '0' then sign + Repeat('0', fill) + body
    else Repeat(pad, fill) + sign + body
  }

  function IntField(n: int, width: int, precision: int, align: bool, prefix: char, pad: char): seq<char> {
    NumberField(Sign(n, prefix), NumberBody(if n < 0 then -n else n, precision, 10, false), width, align, PadFor(pad, precision))
  }

  function UnsignedField(n: nat, width: int, precision: int, align: bool, pad: char, base: nat, upper: bool): seq<char>
    requires 2 <= base <= 16
  {
    NumberField([], NumberBody(n, precision, base, upper), width, align, PadFor(pad, precision))
  }

  function CharField(c: char, width: int, align: bool): seq<char> {
    if align then [c] + Repeat(' ', width - 1) else Repeat(' ', width - 1) + [c]
  }

  function StrField(s: seq<char>, width: int, precision: int, align: bool): seq<char> {
    var shown := if 0 <= precision < |s| then s[..precision] else s;
    if align then shown + Repeat(' ', width - |shown|) else Repeat(' ', width - |shown|) + shown
  }

  /** The characters of one directive. */
  function Field(spec: Spec, arg: Arg): seq<char>
    requires TakesArg(spec.conv) ==> Fits(spec, arg)
  {
    if Signed(spec.conv) then
      IntField(Convert(spec, arg.v), spec.width, spec.precision, spec.align, spec.prefix, spec.pad)
    else if Unsigned(spec.conv) then
      UnsignedField(Convert(spec, arg.v), spec.width, spec.precision, spec.align, spec.pad, Base(spec.conv), spec.conv == 'X')
    else if spec.conv == 'c' then CharField((arg.v % 0x100) as char, spec.width, spec.align)
    else if spec.conv == 's' then StrField(arg.s, spec.width, spec.precision, spec.align)
    else if spec.conv == 'p' then UnsignedField(arg.v, 16, -1, false, '0', 16, true)
    else if spec.conv == '%' then CharField('%', spec.width, spec.align)
    else []
  }

  /** What the count grows by: the emitted characters, except that %c and %% count their width argument. */
  function Counted(spec: Spec, arg: Arg): int
    requires TakesArg(spec.conv) ==> Fits(spec, arg)
  {
    if spec.conv == 'c' || spec.conv == '%' then spec.width else |Field(spec, arg)|
  }

  function NextArg(items: seq<Item>, args: seq<Arg>): Arg
    requires items != [] && Matching(items, args)
  {
    if items[0].Directive? && TakesArg(items[0].spec.conv) then args[0] else Num(0)
  }

  function RestArgs(items: seq<Item>, args: seq<Arg>): seq<Arg>
    requires items != [] && Matching(items, args)
  {
    if items[0].Directive? && TakesArg(items[0].spec.conv) then args[1..] else args
  }

  /** What the first item emits. */
  function Emitted(items: seq<Item>, args: seq<Arg>): seq<char>
    requires items != [] && Matching(items, args)
  {
    match items[0]
    case Plain(c) => [c]
    case Directive(spec) => Field(spec, NextArg(items, args))
  }

  /** What the first item adds to the count. */
  function CountedFor(items: seq<Item>, args: seq<Arg>): int
    requires items != [] && Matching(items, args)
  {
    match items[0]
    case Plain(_) => 1
    case Directive(spec) => Counted(spec, NextArg(items, args))
  }

  /** Everything that a format emits. */
  function Render(items: seq<Item>, args: seq<Arg>): seq<char>
    requires Matching(items, args)
  {
    if items == [] then [] else Emitted(items, args) + Render(items[1..], RestArgs(items, args))
  }

  /** The value that a format returns. */
  function Count(items: seq<Item>, args: seq<Arg>): int
    requires Matching(items, args)
  {
    if items == [] then 0 else CountedFor(items, args) + Count(items[1..], RestArgs(items, args))
  }
}
