/** __proto_print of src/fmt.c as it runs: a shared digit buffer, a moving format pointer, emitted characters. */
module FormatPrinter {
  import opened Strings
  import opened Digits
  import opened FormatSpec
  import opened Wrappers

  lemma {:induction false} ReverseRepeat(c: char, k: int, s: seq<char>)
    ensures Reverse(s + Repeat(c, k)) == Repeat(c, k) + Reverse(s)
    decreases if k < 0 then 0 else k
  {
    if k <= 0 {
      assert s + Repeat(c, k) == s;
    } else {
      assert s + Repeat(c, k) == (s + Repeat(c, k - 1)) + [c];
      ReverseSnoc(s + Repeat(c, k - 1), c);
      ReverseRepeat(c, k - 1, s);
      RepeatFront(c, k);
      Regroup([c], Repeat(c, k - 1), Reverse(s));
    }
  }

  lemma {:induction false} RepeatFront(c: char, k: int)
    requires k > 0
    ensures Repeat(c, k) == [c] + Repeat(c, k - 1)
    decreases k
  {
    if k > 1 {
      RepeatFront(c, k - 1);
    }
  }

  /** Three pieces emitted one after the other. */
  lemma Join(before: seq<char>, a: seq<char>, b: seq<char>, c: seq<char>)
    ensures ((before + a) + b) + c == before + (a + b + c)
    ensures before + [] == before && a + [] == a
    ensures |a + b + c| == |a| + |b| + |c|
  {
  }

  class Printer {
    const buff: array<char>   // __str_buff
    var out: seq<char>        // what __putchar has received

    ghost predicate Valid()
      reads this
    {
      buff.Length == 32
    }

    constructor ()
      ensures Valid() && out == [] && fresh(buff)
    {
      buff := new char[32];
      out := [];
    }

    /** __putchar */
    method PutChar(c: char)
      modifies this`out
      ensures out == old(out) + [c]
    {
      out := out + [c];
    }

    /** `while (width-- > 0) __putchar(pad);` */
    method PutRepeat(pad: char, width: int)
      modifies this`out
      ensures out == old(out) + Repeat(pad, width)
    {
      var left := width;
      ghost var done := 0;
      assert out == old(out) + Repeat(pad, 0);
      while left > 0
        invariant done + left == width && done >= 0 && (left >= 0 || done == 0)
        invariant out == old(out) + Repeat(pad, done)
      {
        left := left - 1;
        PutChar(pad);
        done := done + 1;
        assert Repeat(pad, done) == Repeat(pad, done - 1) + [pad];
      }
    }

    /** Emit the text in the buffer. */
    method PutBuffer()
      requires Valid() && Terminated(buff[..], 0)
      modifies this`out
      ensures out == old(out) + Text(buff[..], 0)
    {
      ghost var text := Text(buff[..], 0);
      var i := 0;
      while buff[i] != NUL
        invariant 0 <= i <= |text| && text == Text(buff[..], 0)
        invariant out == old(out) + text[..i]
        decreases |text| - i
      {
        PutChar(buff[i]);
        i := i + 1;
        assert text[..i] == text[..i - 1] + [text[i - 1]];
      }
      EndIs(buff[..], 0, i);
      assert text[..i] == text;
    }

    /** The common start of __print_int and __print_unsigned: digits, leading zeros, terminator, strrev. */
    method FillNumber(n: nat, precision: int, base: nat, upper: bool) returns (len: nat)
      requires Valid() && 2 <= base <= 16 && precision <= 31 && |Numeral(n, base, upper)| <= 31
      modifies buff
      ensures Valid() && Terminated(buff[..], 0) && Text(buff[..], 0) == NumberBody(n, precision, base, upper)
      ensures len == |NumberBody(n, precision, base, upper)|
    {
      len := 0;
      assert Reverse(buff[0..0]) == [];
      if precision != 0 || n != 0 {
        len := FillDigits(n, buff, 0, base, upper);
        ghost var digits := buff[0..len];
        ghost var zeros := 0;
        assert digits + Repeat('0', 0) == digits;
        while precision > len
          invariant len == |digits| + zeros && len <= 31 && (zeros > 0 ==> len <= precision)
          invariant buff[0..len] == digits + Repeat('0', zeros)
        {
          buff[len] := '0';
          assert buff[0..len + 1] == buff[0..len] + ['0'];
          Regroup(digits, Repeat('0', zeros), ['0']);
          assert Repeat('0', zeros + 1) == Repeat('0', zeros) + ['0'];
          len, zeros := len + 1, zeros + 1;
        }
        BodyOfDigits(n, precision, base, upper, digits, zeros);
      }
      assert Reverse(buff[0..len]) == NumberBody(n, precision, base, upper);
      CloseText(buff, 0, len);
    }

    /** The emitting half of __print_int: prefix, padding and the buffer, by alignment. */
    method PutField(sign: char, numLen: nat, width: int, align: bool, pad: char) returns (cnt: int)
      requires Valid() && Terminated(buff[..], 0) && numLen == |Text(buff[..], 0)|
      modifies this`out
      ensures out == old(out) + NumberField(Sign(0, sign), Text(buff[..], 0), width, align, pad)
      ensures cnt == |NumberField(Sign(0, sign), Text(buff[..], 0), width, align, pad)|
    {
      ghost var body, prefix, before := Text(buff[..], 0), Sign(0, sign), out;
      cnt := 0;
      var left := width - numLen;
      if align {
        if sign != NUL {
          PutChar(sign);
          cnt := cnt + 1;
          left := left - 1;
        }
        PutBuffer();
        PutRepeat(' ', left);
        Join(before, prefix, body, Repeat(' ', left));
      } else {
        if sign != NUL {
          if pad == '0' {
            PutChar(sign);
            cnt := cnt + 1;
          }
          left := left - 1;
        }
        PutRepeat(pad, left);
        if sign != NUL && pad != '0' {
          PutChar(sign);
          cnt := cnt + 1;
        }
        PutBuffer();
        Join(before, prefix, Repeat(pad, left), body);
        Join(before, Repeat(pad, left), prefix, body);
      }
      cnt := cnt + numLen + (if left > 0 then left else 0);
    }

    /** __print_int */
    method PrintInt(n: int, width: int, precision: int, align: bool, prefix: char, pad: char) returns (cnt: int)
      requires Valid() && precision <= 31 && -0x8000_0000_0000_0000 < n < 0x8000_0000_0000_0000
      modifies this`out, buff
      ensures Valid()
      ensures out == old(out) + IntField(n, width, precision, align, prefix, pad)
      ensures cnt == |IntField(n, width, precision, align, prefix, pad)|
    {
      var m: nat, sign := if n < 0 then -n else n, if n < 0 then '-' else prefix;
      Digits64(m, 10, false);
      ghost var body := NumberBody(m, precision, 10, false);
      var numLen := FillNumber(m, precision, 10, false);
      cnt := PutField(sign, numLen, width, align, PadFor(pad, precision));
      assert IntField(n, width, precision, align, prefix, pad) ==
             NumberField(Sign(0, sign), body, width, align, PadFor(pad, precision));
    }

    /** The emitting half of __print_unsigned. */
    method PutPlainField(len: nat, width: int, align: bool, pad: char) returns (cnt: int)
      requires Valid() && Terminated(buff[..], 0) && len == |Text(buff[..], 0)|
      modifies this`out
      ensures out == old(out) + NumberField([], Text(buff[..], 0), width, align, pad)
      ensures cnt == |NumberField([], Text(buff[..], 0), width, align, pad)|
    {
      ghost var body, before := Text(buff[..], 0), out;
      var left := width - len;
      if align {
        PutBuffer();
        PutRepeat(' ', left);
        Join(before, [], body, Repeat(' ', left));
      } else {
        PutRepeat(pad, left);
        PutBuffer();
        Join(before, [], Repeat(pad, left), body);
        Join(before, Repeat(pad, left), [], body);
      }
      cnt := len + (if left > 0 then left else 0);
    }

    /** __print_unsigned */
    method PrintUnsigned(n: nat, width: int, precision: int, align: bool, pad: char, base: nat, upper: bool)
      returns (cnt: int)
      requires Valid() && 2 <= base <= 16 && precision <= 31 && |Numeral(n, base, upper)| <= 31
      modifies this`out, buff
      ensures Valid()
      ensures out == old(out) + UnsignedField(n, width, precision, align, pad, base, upper)
      ensures cnt == |UnsignedField(n, width, precision, align, pad, base, upper)|
    {
      var len := FillNumber(n, precision, base, upper);
      cnt := PutPlainField(len, width, align, PadFor(pad, precision));
    }

    /** __print_char; it returns its width argument, whatever it emits. */
    method PrintChar(c: char, width: int, align: bool) returns (r: int)
      modifies this`out
      ensures out == old(out) + CharField(c, width, align) && r == width
    {
      if align {
        PutChar(c);
      }
      PutRepeat(' ', width - 1);
      if !align {
        PutChar(c);
      }
      r := width;
    }

    /** __print_str */
    method PrintStr(s: seq<char>, width: int, precision: int, align: bool) returns (r: int)
      modifies this`out
      ensures out == old(out) + StrField(s, width, precision, align)
      ensures r == |StrField(s, width, precision, align)|
    {
      var strLen := |s|;
      if precision >= 0 && strLen > precision {
        strLen := precision;
      }
      var padLen := if width > strLen then width - strLen else 0;
      r := strLen + padLen;
      if !align {
        PutRepeat(' ', padLen);
      }
      ghost var before := out;
      for i := 0 to strLen
        invariant out == before + s[..i]
      {
        PutChar(s[i]);
        assert s[..i + 1] == s[..i] + [s[i]];
      }
      if align {
        PutRepeat(' ', padLen);
      }
    }

    /** __is_fmtflag */
    method IsFmtFlag(c: char) returns (r: bool)
      ensures r <==> IsFlag(c)
    {
      var fmtflags := "-+ 0";
      for i := 0 to |fmtflags|
        invariant forall k :: 0 <= k < i ==> c != fmtflags[k]
      {
        if c == fmtflags[i] {
          return true;
        }
      }
      assert c != fmtflags[0] && c != fmtflags[1] && c != fmtflags[2] && c != fmtflags[3];
      return false;
    }

    /** __read_int */
    method ReadInt(f: seq<char>, p: nat) returns (ret: nat, q: nat)
      requires p <= |f|
      ensures q == DigitsEnd(f, p) && ret == ValueOf(f[p..q], 10)
    {
      ret, q := 0, p;
      assert f[p..p] == [];
      while q < |f| && IsDigit(f[q])
        invariant p <= q <= |f| && DigitsEnd(f, p) == DigitsEnd(f, q)
        invariant ret == ValueOf(f[p..q], 10)
      {
        assert f[p..q + 1] == f[p..q] + [f[q]];
        ReadSnoc(f[p..q], f[q], 10);
        ret := ret * 10 + (f[q] as int - '0' as int);
        q := q + 1;
      }
    }

    /** The flag loop of a directive. */
    method ReadFlags(f: seq<char>, p: nat) returns (spec: Spec, q: nat)
      requires p <= |f|
      ensures q == FlagsEnd(f, p) && spec == FlagSpec(CharSet(f[p..q]))
    {
      var align, prefix, pad := false, NUL, ' ';
      q := p;
      while q < |f|
        invariant p <= q <= |f| && FlagsEnd(f, p) == FlagsEnd(f, q)
        invariant Spec(align, prefix, pad, -1, -1, 0, NUL) == FlagSpec(CharSet(f[p..q]))
        decreases |f| - q
      {
        var isFlag := IsFmtFlag(f[q]);
        if !isFlag {
          break;
        }
        assert f[p..q + 1] == f[p..q] + [f[q]];
        assert CharSet(f[p..q + 1]) == CharSet(f[p..q]) + {f[q]};
        match f[q] {
          case '-' => align := true;
          case '+' => prefix := '+';
          case ' ' =>
            if prefix != '+' {
              prefix := ' ';
            }
          case '0' => pad := '0';
          case _ =>
        }
        q := q + 1;
      }
      spec := Spec(align, prefix, pad, -1, -1, 0, NUL);
    }

    /** The length modifier, single or doubled. */
    method ReadLength(f: seq<char>, p: nat) returns (length: int, q: nat)
      requires p <= |f|
      ensures q == LengthEnd(f, p) && length == LengthOf(f, p)
    {
      length, q := 0, p;
      if q < |f| && (f[q] == 'h' || f[q] == 'l') {
        var ch := f[q];
        length := if ch == 'h' then -1 else 1;
        q := q + 1;
        if q < |f| && f[q] == ch {
          length := length * 2;
          q := q + 1;
        }
      }
    }

    /** The part of a directive between '%' and the conversion character, inclusive. */
    method ReadWidth(f: seq<char>, p: nat) returns (width: int, q: nat)
      requires p <= |f|
      ensures q == WidthEnd(f, p) && width == if q > p then ValueOf(f[p..q], 10) else -1
    {
      width, q := -1, p;
      if q < |f| && IsDigit(f[q]) {
        width, q := ReadInt(f, q);
      }
    }

    method ReadPrecision(f: seq<char>, p: nat) returns (precision: int, q: nat)
      requires p <= |f|
      ensures q == PrecisionEnd(f, p) && precision == if q > p then ValueOf(f[p + 1..q], 10) else -1
    {
      precision, q := -1, p;
      if q < |f| && f[q] == '.' {
        precision, q := ReadInt(f, q + 1);
      }
    }

    method ReadDirective(f: seq<char>, p: nat) returns (spec: Spec, next: nat)
      requires p <= |f| && ParseDirective(f, p).Some?
      ensures ParseDirective(f, p) == Some((spec, next))
    {
      var q;
      spec, q := ReadFlags(f, p);
      ghost var q0, q1 := q, WidthEnd(f, q);
      ghost var q2 := PrecisionEnd(f, q1);
      var width, precision, length;
      width, q := ReadWidth(f, q);
      precision, q := ReadPrecision(f, q);
      length, q := ReadLength(f, q);
      spec := spec.(width := width, precision := precision, length := length, conv := f[q]);
      next := q + 1;
      DirectiveAt(f, p, q0, q1, q2, q, spec);
    }

    /** The switch over the conversion character. */
    method PrintDirective(spec: Spec, arg: Arg) returns (cnt: int)
      requires Valid() && (TakesArg(spec.conv) ==> Fits(spec, arg))
      modifies this`out, buff
      ensures Valid() && out == old(out) + Field(spec, arg) && cnt == Counted(spec, arg)
    {
      cnt := 0;
      if Signed(spec.conv) {
        cnt := PrintInt(Convert(spec, arg.v), spec.width, spec.precision, spec.align, spec.prefix, spec.pad);
      } else if Unsigned(spec.conv) {
        ConvertedFits(spec, arg);
        cnt := PrintUnsigned(Convert(spec, arg.v), spec.width, spec.precision, spec.align, spec.pad,
                             Base(spec.conv), spec.conv == 'X');
      } else if spec.conv == 'c' {
        cnt := PrintChar((arg.v % 0x100) as char, spec.width, spec.align);
      } else if spec.conv == 's' {
        cnt := PrintStr(arg.s, spec.width, spec.precision, spec.align);
      } else if spec.conv == 'p' {
        Digits64(arg.v, 16, true);
        cnt := PrintUnsigned(arg.v, 16, -1, false, '0', 16, true);
      } else if spec.conv == '%' {
        cnt := PrintChar('%', spec.width, spec.align);
      }
    }

    /** One turn of the loop of __proto_print: a plain character, or a whole directive. */
    method PrintItem(format: seq<char>, p: nat, ghost items: seq<Item>, args: seq<Arg>)
      returns (next: nat, rest: seq<Arg>, cnt: int)
      requires Valid() && p < |format| && Parse(format, p) == Some(items) && Matching(items, args)
      modifies this`out, buff
      ensures Valid() && items != [] && p < next <= |format|
      ensures rest == RestArgs(items, args) && Parse(format, next) == Some(items[1..])
      ensures out == old(out) + Emitted(items, args) && cnt == CountedFor(items, args)
    {
      rest := args;
      var ch := format[p];
      next := p + 1;
      if ch == '%' {
        var spec;
        spec, next := ReadDirective(format, next);
        var arg := Num(0);
        if TakesArg(spec.conv) {
          arg, rest := rest[0], rest[1..];
        }
        cnt := PrintDirective(spec, arg);
      } else {
        PutChar(ch);
        cnt := 1;
      }
    }

    /** __proto_print */
    method Print(format: seq<char>, args: seq<Arg>) returns (ret: int)
      requires Valid() && NUL !in format
      requires Parse(format, 0).Some? && Matching(Parse(format, 0).value, args)
      modifies this`out, buff
      ensures Valid()
      ensures out == old(out) + Render(Parse(format, 0).value, args)
      ensures ret == Count(Parse(format, 0).value, args)
    {
      ghost var before, all := out, Parse(format, 0).value;
      ghost var items := all;
      ghost var emitted: seq<char> := [];
      assert out == before + emitted;
      var p, rest := 0, args;
      ret := 0;
      while p < |format|
        invariant Valid() && p <= |format| && Parse(format, p) == Some(items) && Matching(items, rest)
        invariant out == before + emitted && emitted + Render(items, rest) == Render(all, args)
        invariant ret + Count(items, rest) == Count(all, args)
      {
        ghost var piece := Emitted(items, rest);
        EmitPiece(before, emitted, piece, Render(items[1..], RestArgs(items, rest)));
        var cnt;
        p, rest, cnt := PrintItem(format, p, items, rest);
        ret := ret + cnt;
        emitted := emitted + piece;
        items := items[1..];
      }
    }
  }

  lemma EmitPiece(before: seq<char>, emitted: seq<char>, piece: seq<char>, rest: seq<char>)
    ensures (before + emitted) + piece == before + (emitted + piece)
    ensures emitted + (piece + rest) == (emitted + piece) + rest
  {
  }

  /** Whatever a fitting argument converts to, its digits fit the buffer. */
  lemma ConvertedFits(spec: Spec, arg: Arg)
    requires Unsigned(spec.conv) && Fits(spec, arg)
    ensures 0 <= Convert(spec, arg.v) && |Numeral(Convert(spec, arg.v), Base(spec.conv), spec.conv == 'X')| <= 31
  {
    if spec.conv == 'b' {
      BinaryFits(Convert(spec, arg.v));
    } else {
      Digits64(Convert(spec, arg.v), Base(spec.conv), spec.conv == 'X');
    }
  }

  /** A directive by the places where its parts end. */
  lemma DirectiveAt(f: seq<char>, p: nat, q0: nat, q1: nat, q2: nat, q3: nat, spec: Spec)
    requires p <= q0 <= q1 <= q2 <= q3 < |f| && q0 == FlagsEnd(f, p)
    requires q1 == WidthEnd(f, q0) && q2 == PrecisionEnd(f, q1) && q3 == LengthEnd(f, q2)
    requires spec == WithFlags(CharSet(f[p..q0]), TailSpec(f, q0, q1, q2, q3))
    ensures ParseDirective(f, p) == Some((spec, q3 + 1))
  {
  }

  /** The digits of a number and the zeros that its precision asks for, as the buffer holds them. */
  lemma BodyOfDigits(n: nat, precision: int, base: nat, upper: bool, digits: seq<char>, zeros: nat)
    requires 2 <= base <= 16 && (precision != 0 || n != 0) && Reverse(digits) == Numeral(n, base, upper)
    requires |digits| == |Numeral(n, base, upper)| && zeros == if precision > |digits| then precision - |digits| else 0
    ensures Reverse(digits + Repeat('0', zeros)) == NumberBody(n, precision, base, upper)
  {
    ReverseRepeat('0', zeros, digits);
    assert zeros == 0 ==> Repeat('0', precision - |digits|) == Repeat('0', 0);
  }
}
