/** Numerals: what the digit loops of src/fmt.c compute, and how to read it back. */
module Digits {
  import opened Strings
  import Bits

  /** n / b and n % b, by repeated subtraction; QuotRem ties them to the operators. */
  function Quot(n: nat, b: nat): nat
    requires b > 0
    decreases n
  {
    if n < b then 0 else 1 + Quot(n - b, b)
  }

  function Rem(n: nat, b: nat): (r: nat)
    requires b > 0
    ensures r < b
    decreases n
  {
    if n < b then n else Rem(n - b, b)
  }

  lemma {:induction false} QuotRem(n: nat, b: nat)
    requires b > 0
    ensures n == Quot(n, b) * b + Rem(n, b)
    ensures Quot(n, b) == n / b && Rem(n, b) == n % b
    decreases n
  {
    if n >= b {
      QuotRem(n - b, b);
    }
    Bits.DivUnique(n, b, Quot(n, b), Rem(n, b));
  }

  lemma {:induction false} QuotShrinks(n: nat, b: nat)
    requires b > 1 && n > 0
    ensures Quot(n, b) < n && (n >= b ==> Quot(n, b) > 0) && (n < b ==> Quot(n, b) == 0 && Rem(n, b) == n)
    decreases n
  {
    if n >= b && n - b > 0 {
      QuotShrinks(n - b, b);
    }
  }

  function DigitChar(d: nat, upper: bool): (c: char)
    requires d < 36
    ensures c != NUL && c != ' ' && c != '-' && c != '+'
  {
    if d < 10 then ('0' as int + d) as char
    else ((if upper then 'A' else 'a') as int + d - 10) as char
  }

  predicate IsNumeralChar(c: char) {
    '0' <= c <= '9' || 'A' <= c <= 'Z' || 'a' <= c <= 'z'
  }

  function DigitValue(c: char): (v: nat)
    ensures v < 36
  {
    if '0' <= c <= '9' then c as int - '0' as int
    else if 'A' <= c <= 'Z' then c as int - 'A' as int + 10
    else if 'a' <= c <= 'z' then c as int - 'a' as int + 10
    else 0
  }

  /** n in the given base, most significant digit first. */
  function Numeral(n: nat, base: nat, upper: bool): (s: seq<char>)
    requires 2 <= base <= 36
    ensures |s| > 0 && NUL !in s
  {
    if n < base then [DigitChar(n, upper)]
    else
      QuotShrinks(n, base);
      Numeral(Quot(n, base), base, upper) + [DigitChar(Rem(n, base), upper)]
  }

  /** The number that a numeral denotes. */
  function ValueOf(s: seq<char>, base: nat): nat {
    if s == [] then 0 else ValueOf(s[..|s| - 1], base) * base + DigitValue(s[|s| - 1])
  }

  function Power(base: nat, k: nat): nat {
    if k == 0 then 1 else base * Power(base, k - 1)
  }

  /** The digits of the bases up to 16. */
  lemma DigitTable(d: nat, upper: bool)
    requires d < 16
    ensures DigitChar(d, upper) == (if upper then "0123456789ABCDEF" else "0123456789abcdef")[d]
  {
    if d >= 10 {
      assert "0123456789ABCDEF"[d] == "ABCDEF"[d - 10] && "0123456789abcdef"[d] == "abcdef"[d - 10];
    }
  }

  lemma DigitRoundTrip(d: nat, upper: bool)
    requires d < 36
    ensures DigitValue(DigitChar(d, upper)) == d && IsNumeralChar(DigitChar(d, upper))
  {
  }

  /** The digits read back in the base give the number. */
  lemma {:induction false} NumeralReadsBack(n: nat, base: nat, upper: bool)
    requires 2 <= base <= 36
    ensures ValueOf(Numeral(n, base, upper), base) == n
    ensures forall c <- Numeral(n, base, upper) :: IsNumeralChar(c)
    decreases n
  {
    if n < base {
      ReadSnoc([], DigitChar(n, upper), base);
      DigitRoundTrip(n, upper);
    } else {
      QuotShrinks(n, base);
      var q, r := Quot(n, base), Rem(n, base);
      NumeralReadsBack(q, base, upper);
      DigitRoundTrip(r, upper);
      ReadSnoc(Numeral(q, base, upper), DigitChar(r, upper), base);
      QuotRem(n, base);
    }
  }

  lemma ReadSnoc(s: seq<char>, c: char, base: nat)
    ensures ValueOf(s + [c], base) == ValueOf(s, base) * base + DigitValue(c)
  {
    assert (s + [c])[..|s|] == s;
  }

  /** No leading zero, except for 0 itself. */
  lemma {:induction false} NoLeadingZero(n: nat, base: nat, upper: bool)
    requires 2 <= base <= 36 && n > 0
    ensures Numeral(n, base, upper)[0] != '0'
    decreases n
  {
    QuotShrinks(n, base);
    if n >= base {
      NoLeadingZero(Quot(n, base), base, upper);
    }
  }

  /** A number has at most k digits exactly when it is below base^k. */
  lemma {:induction false} NumeralLength(n: nat, base: nat, upper: bool, k: nat)
    requires 2 <= base <= 36 && k > 0
    ensures |Numeral(n, base, upper)| <= k <==> n < Power(base, k)
    decreases n
  {
    PowerGrows(base, k - 1);
    PowerStep(base, k - 1);
    if n >= base {
      QuotShrinks(n, base);
      var q := Quot(n, base);
      assert |Numeral(n, base, upper)| == |Numeral(q, base, upper)| + 1;
      if k > 1 {
        NumeralLength(q, base, upper, k - 1);
        QuotRem(n, base);
        DivBelow(n, base, Power(base, k - 1), q, Rem(n, base));
      }
    }
  }

  lemma PowerStep(base: nat, k: nat)
    requires base >= 1
    ensures Power(base, k + 1) >= base && Power(base, 1) == base
  {
    PowerGrows(base, k);
    assert Power(base, 1) == base * Power(base, 0);
    Bits.MulGap(base, 0, Power(base, k));
  }

  lemma {:induction false} PowerGrows(base: nat, k: nat)
    requires base >= 1
    ensures Power(base, k) >= 1
  {
    if k > 0 {
      PowerGrows(base, k - 1);
    }
  }

  lemma DivBelow(n: nat, b: nat, p: nat, q: nat, r: nat)
    requires n == q * b + r && r < b
    ensures q < p <==> n < b * p
  {
    if q < p {
      Bits.MulGap(b, q, p);
    } else if p < q {
      Bits.MulGap(b, p, q);
    }
  }

  /** Sizes of 64-bit numbers: at most 22 digits in bases 8, 10 and 16. */
  lemma Digits64(n: nat, base: nat, upper: bool)
    requires n < 0x1_0000_0000_0000_0000 && (base == 8 || base == 10 || base == 16)
    ensures |Numeral(n, base, upper)| <= 22
  {
    PowersAbove64();
    NumeralLength(n, base, upper, 22);
  }

  lemma PowersAbove64()
    ensures Power(8, 22) > 0x1_0000_0000_0000_0000
    ensures Power(10, 22) > 0x1_0000_0000_0000_0000
    ensures Power(16, 22) > 0x1_0000_0000_0000_0000
  {
    assert Power(8, 5) == 32768 && Power(8, 10) == 1073741824 && Power(8, 16) == 281474976710656;
    assert Power(10, 5) == 100000 && Power(10, 10) == 10000000000 && Power(10, 16) == 10000000000000000;
    assert Power(16, 5) == 1048576 && Power(16, 10) == 1099511627776 && Power(16, 16) == 18446744073709551616;
  }

  /** In base 2 the 31 places of the buffer hold exactly the numbers below 2^31. */
  lemma BinaryFits(n: nat)
    ensures |Numeral(n, 2, false)| <= 31 <==> n < 0x8000_0000
  {
    assert Power(2, 8) == 256 && Power(2, 16) == 65536 && Power(2, 24) == 16777216 && Power(2, 31) == 0x8000_0000;
    NumeralLength(n, 2, false, 31);
  }

  function Repeat(c: char, n: int): (s: seq<char>)
    ensures |s| == if n < 0 then 0 else n
    ensures forall x <- s :: x == c
    ensures forall k :: 0 <= k < |s| ==> s[k] == c
  {
    if n <= 0 then [] else Repeat(c, n - 1) + [c]
  }

  /** Leading zeros up to a precision; a precision below the number of digits adds none. */
  function ZeroPad(s: seq<char>, precision: int): seq<char> {
    Repeat('0', precision - |s|) + s
  }

  lemma {:induction false} ZerosReadAsNothing(k: int, s: seq<char>, base: nat)
    ensures ValueOf(Repeat('0', k) + s, base) == ValueOf(s, base)
    decreases |s|, if k < 0 then 0 else k
  {
    if s == [] {
      assert Repeat('0', k) + [] == Repeat('0', k);
      OnlyZeros(k, base);
    } else {
      var front, c := s[..|s| - 1], s[|s| - 1];
      ZerosReadAsNothing(k, front, base);
      ReadSnoc(Repeat('0', k) + front, c, base);
      assert Repeat('0', k) + s == Repeat('0', k) + front + [c];
    }
  }

  lemma {:induction false} OnlyZeros(k: int, base: nat)
    ensures ValueOf(Repeat('0', k), base) == 0
    decreases if k < 0 then 0 else k
  {
    if k > 0 {
      OnlyZeros(k - 1, base);
      ReadSnoc(Repeat('0', k - 1), '0', base);
    }
  }

  // ---------- __utoa and __itoa ----------

  /** A numeral ends in its least significant digit. */
  lemma LastDigit(n: nat, base: nat, upper: bool)
    requires 2 <= base <= 36
    ensures Numeral(n, base, upper) ==
            (if Quot(n, base) > 0 then Numeral(Quot(n, base), base, upper) else []) + [DigitChar(Rem(n, base), upper)]
  {
    if n > 0 {
      QuotShrinks(n, base);
    }
  }

  /** A digit more, from the least significant end. */
  lemma PutDigit(numeral: seq<char>, head: seq<char>, done: seq<char>, c: char)
    requires numeral == (head + [c]) + Reverse(done)
    ensures |done| < |numeral| && numeral == head + Reverse(done + [c])
  {
    ReverseSnoc(done, c);
    Regroup(head, [c], Reverse(done));
  }

  lemma Regroup(a: seq<char>, b: seq<char>, c: seq<char>)
    ensures (a + b) + c == a + (b + c) && |(a + b) + c| == |a| + |b| + |c|
  {
  }

  /** One turn of the digit loop: the last digit goes behind those that are done. */
  lemma NextDigit(numeral: seq<char>, n: nat, base: nat, upper: bool, done: seq<char>, next: seq<char>)
    requires 2 <= base <= 36 && numeral == Numeral(n, base, upper) + Reverse(done)
    requires next == done + [DigitChar(n % base, upper)]
    ensures |done| < |numeral|
    ensures numeral == (if n / base != 0 then Numeral(n / base, base, upper) else []) + Reverse(next)
  {
    QuotRem(n, base);
    LastDigit(n, base, upper);
    PutDigit(numeral, if n / base != 0 then Numeral(n / base, base, upper) else [], done, DigitChar(n % base, upper));
  }

  /** The digit loop of __utoa, __print_int and __print_unsigned: digits least significant first. */
  method FillDigits(value: nat, buff: array<char>, from: nat, base: nat, upper: bool) returns (i: nat)
    requires 2 <= base <= 36 && from + |Numeral(value, base, upper)| <= buff.Length
    modifies buff
    ensures i == |Numeral(value, base, upper)|
    ensures buff[..from] == old(buff[..from]) && Reverse(buff[from..from + i]) == Numeral(value, base, upper)
  {
    i := 0;
    var n := value;
    var more := true;
    ghost var numeral := Numeral(value, base, upper);
    assert numeral == Numeral(n, base, upper) + Reverse([]);
    while more
      invariant 0 <= i <= |numeral| && n >= 0 && buff[..from] == old(buff[..from])
      invariant more ==> numeral == Numeral(n, base, upper) + Reverse(buff[from..from + i])
      invariant !more ==> numeral == [] + Reverse(buff[from..from + i])
      decreases more, n
    {
      QuotRem(n, base);
      if n > 0 {
        QuotShrinks(n, base);
      }
      var digit := n % base;
      ghost var done := buff[from..from + i];
      NextDigit(numeral, n, base, upper, done, done + [DigitChar(digit, upper)]);
      buff[from + i] := DigitChar(digit, upper);
      assert buff[from..from + i + 1] == done + [DigitChar(digit, upper)];
      i := i + 1;
      n := n / base;
      more := n != 0;
    }
    assert [] + Reverse(buff[from..from + i]) == Reverse(buff[from..from + i]);
  }

  /** __utoa(value, buff + from, base) */
  method Utoa(value: nat, buff: array<char>, from: nat, base: nat)
    requires 2 <= base <= 36 && from + |Numeral(value, base, true)| < buff.Length
    modifies buff
    ensures buff[..from] == old(buff[..from])
    ensures Terminated(buff[..], from) && Text(buff[..], from) == Numeral(value, base, true)
  {
    var i := FillDigits(value, buff, from, base, true);
    CloseText(buff, from, i);
  }

  /** `buff[i] = 0; strrev(buff);` at the end of every digit loop. */
  method CloseText(buff: array<char>, from: nat, i: nat)
    requires from + i < buff.Length && NUL !in Reverse(buff[from..from + i])
    modifies buff
    ensures buff[..from] == old(buff[..from])
    ensures Terminated(buff[..], from) && Text(buff[..], from) == Reverse(old(buff[from..from + i]))
  {
    ghost var digits := buff[from..from + i];
    ReverseKeeps(digits);
    buff[from + i] := NUL;
    assert forall k :: from <= k < from + i ==> buff[..][k] == digits[k - from];
    EndIs(buff[..], from, from + i);
    assert Text(buff[..], from) == digits;
    Strrev(buff, from);
  }

  /** __itoa; the negation needs a value above INT64_MIN. */
  method Itoa(value: int, buff: array<char>, base: nat)
    requires 2 <= base <= 36 && -0x8000_0000_0000_0000 < value < 0x8000_0000_0000_0000
    requires |Numeral(if value < 0 then -value else value, base, true)| + 1 < buff.Length
    modifies buff
    ensures Terminated(buff[..], 0)
    ensures Text(buff[..], 0) == if value < 0 then ['-'] + Numeral(-value, base, true) else Numeral(value, base, true)
  {
    if value < 0 {
      Utoa(-value, buff, 1, base);
      ghost var end := End(buff[..], 1);
      ghost var text := Text(buff[..], 1);
      buff[0] := '-';
      assert forall k :: 1 <= k < end ==> buff[..][k] == text[k - 1];
      EndIs(buff[..], 0, end);
      assert Text(buff[..], 0) == ['-'] + text;
    } else {
      Utoa(value, buff, 0, base);
    }
  }
}
