/** ssfn_utf8 of src/ssfn.c, against the encoding of RFC 3629, section 3. */
module Utf8 {
  import opened Bits
  import opened ByteMasks

  /** Unicode scalar values. */
  predicate Scalar(c: nat) {
    c < 0xD800 || 0xE000 <= c < 0x11_0000
  }

  /** The octets of one scalar value, by the table of RFC 3629, section 3. */
  function Encode(c: nat): (s: seq<uint8>)
    requires Scalar(c)
    ensures 1 <= |s| <= 4
  {
    if c < 0x80 then [c]
    else if c < 0x800 then [0xC0 + c / 0x40, 0x80 + c % 0x40]
    else if c < 0x1_0000 then [0xE0 + c / 0x1000, 0x80 + c / 0x40 % 0x40, 0x80 + c % 0x40]
    else [0xF0 + c / 0x4_0000, 0x80 + c / 0x1000 % 0x40, 0x80 + c / 0x40 % 0x40, 0x80 + c % 0x40]
  }

  function EncodeAll(cs: seq<nat>): seq<uint8>
    requires forall c <- cs :: Scalar(c)
  {
    if cs == [] then [] else Encode(cs[0]) + EncodeAll(cs[1..])
  }

  // ---------- The decoder ----------

  /** How many bytes the decoder takes from a lead byte. */
  function Length(b: uint8): (n: nat)
    ensures 1 <= n <= 4
  {
    if b < 0x80 then 1
    else if b / 0x20 % 2 == 0 then 2
    else if b / 0x10 % 2 == 0 then 3
    else if b / 0x08 % 2 == 0 then 4
    else 1
  }

  /** The payload of a continuation byte. */
  function Six(b: uint8): nat {
    b % 0x40
  }

  /** What the decoder reads from the bytes at p, in arithmetic. */
  function Decode(s: seq<uint8>, p: nat): nat
    requires p < |s| && p + Length(s[p]) <= |s|
  {
    var b: nat := s[p];
    if b < 0x80 then b
    else if Length(b) == 2 then b % 0x20 * 0x40 + Six(s[p + 1])
    else if Length(b) == 3 then b % 0x10 * 0x1000 + Six(s[p + 1]) * 0x40 + Six(s[p + 2])
    else if Length(b) == 4 then b % 0x08 * 0x4_0000 + Six(s[p + 1]) * 0x1000 + Six(s[p + 2]) * 0x40 + Six(s[p + 3])
    else 0
  }

  /** ssfn_utf8: the value, and the pointer behind it. It checks nothing, so the bytes must be there. */
  method Utf8(s: seq<uint8>, p: nat) returns (c: nat, next: nat)
    requires p < |s| && p + Length(s[p]) <= |s|
    ensures c == Decode(s, p) && next == p + Length(s[p])
  {
    c, next := s[p], p;
    var b := s[p];
    LeadBits(b);
    PayloadBits(b);
    if And(b, 0x80) != 0 {
      if And(b, 0x20) == 0 {
        PayloadBits(s[p + 1]);
        AppendSix(And(b, 0x1F), And(s[p + 1], 0x3F));
        c := Or(Shl(And(b, 0x1F), 6), And(s[p + 1], 0x3F));
        next := next + 1;
      } else if And(b, 0x10) == 0 {
        PayloadBits(s[p + 1]);
        PayloadBits(s[p + 2]);
        ThreeParts(And(b, 0x0F), And(s[p + 1], 0x3F), And(s[p + 2], 0x3F));
        c := Or(Or(Shl(And(b, 0x0F), 12), Shl(And(s[p + 1], 0x3F), 6)), And(s[p + 2], 0x3F));
        next := next + 2;
      } else if And(b, 0x08) == 0 {
        PayloadBits(s[p + 1]);
        PayloadBits(s[p + 2]);
        PayloadBits(s[p + 3]);
        FourParts(And(b, 0x07), And(s[p + 1], 0x3F), And(s[p + 2], 0x3F), And(s[p + 3], 0x3F));
        c := Or(Or(Or(Shl(And(b, 0x07), 18), Shl(And(s[p + 1], 0x3F), 12)), Shl(And(s[p + 2], 0x3F), 6)), And(s[p + 3], 0x3F));
        next := next + 3;
      } else {
        c := 0;
      }
    }
    next := next + 1;
  }

  /** All 256 lead bytes: how many bytes each one takes, and those that stand for no lead and decode to 0. */
  lemma LeadTable(s: seq<uint8>, p: nat)
    requires p < |s|
    ensures var b, n := s[p], Length(s[p]);
            && (b < 0x80 ==> n == 1)
            && (0x80 <= b < 0xA0 || 0xC0 <= b < 0xE0 ==> n == 2)
            && (0xA0 <= b < 0xB0 || 0xE0 <= b < 0xF0 ==> n == 3)
            && (0xB0 <= b < 0xB8 || 0xF0 <= b < 0xF8 ==> n == 4)
            && (0xB8 <= b < 0xC0 || 0xF8 <= b ==> n == 1 && Decode(s, p) == 0)
  {
    var b: nat := s[p];
    assert b / 0x10 % 2 == 0 <==> b % 0x20 < 0x10;
    assert b / 0x08 % 2 == 0 <==> b % 0x10 < 0x08;
  }

  // ---------- Round trip ----------

  lemma LeadOf(t: nat)
    ensures t < 0x20 ==> Length(0xC0 + t) == 2 && (0xC0 + t) % 0x20 == t
    ensures t < 0x10 ==> Length(0xE0 + t) == 3 && (0xE0 + t) % 0x10 == t
    ensures t < 0x08 ==> Length(0xF0 + t) == 4 && (0xF0 + t) % 0x08 == t
  {
  }

  /** The encoding of one scalar value, decoded. */
  lemma DecodesAlone(c: nat)
    requires Scalar(c)
    ensures Length(Encode(c)[0]) == |Encode(c)| && Decode(Encode(c), 0) == c
  {
    if c >= 0x1_0000 {
      DecodesFour(c);
    } else if c >= 0x800 {
      DecodesThree(c);
    } else if c >= 0x80 {
      LeadOf(c / 0x40);
    }
  }

  lemma DecodesThree(c: nat)
    requires Scalar(c) && 0x800 <= c < 0x1_0000
    ensures Length(Encode(c)[0]) == |Encode(c)| && Decode(Encode(c), 0) == c
  {
    LeadOf(c / 0x1000);
    ThreeDigits(c);
    var e := Encode(c);
    assert Six(e[1]) == c / 0x40 % 0x40 && Six(e[2]) == c % 0x40;
  }

  lemma DecodesFour(c: nat)
    requires Scalar(c) && 0x1_0000 <= c
    ensures Length(Encode(c)[0]) == |Encode(c)| && Decode(Encode(c), 0) == c
  {
    LeadOf(c / 0x4_0000);
    FourDigits(c);
    var e := Encode(c);
    assert Six(e[1]) == c / 0x1000 % 0x40 && Six(e[2]) == c / 0x40 % 0x40 && Six(e[3]) == c % 0x40;
  }

  /** Decoding looks at the bytes of its own sequence only. */
  lemma DecodeIsLocal(s: seq<uint8>, p: nat, e: seq<uint8>)
    requires e != [] && Length(e[0]) == |e| && p + |e| <= |s| && s[p..p + |e|] == e
    ensures Length(s[p]) == |e| && Decode(s, p) == Decode(e, 0)
  {
    var w := s[p..p + |e|];
    assert w[0] == s[p];
    assert |e| > 1 ==> w[1] == s[p + 1];
    assert |e| > 2 ==> w[2] == s[p + 2];
    assert |e| > 3 ==> w[3] == s[p + 3];
  }

  /** One scalar value, with any bytes before and behind it. */
  lemma DecodesOne(before: seq<uint8>, c: nat, behind: seq<uint8>)
    requires Scalar(c)
    ensures var s := before + Encode(c) + behind;
            var p := |before|;
            && p < |s| && Length(s[p]) == |Encode(c)| && p + Length(s[p]) <= |s|
            && Decode(s, p) == c
  {
    var e := Encode(c);
    var s := before + e + behind;
    assert s[|before|..|before| + |e|] == e;
    DecodesAlone(c);
    DecodeIsLocal(s, |before|, e);
  }

  lemma ThreeDigits(c: nat)
    ensures c == c / 0x1000 * 0x1000 + c / 0x40 % 0x40 * 0x40 + c % 0x40
  {
    assert c / 0x40 / 0x40 == c / 0x1000;
  }

  lemma FourDigits(c: nat)
    ensures c == c / 0x4_0000 * 0x4_0000 + c / 0x1000 % 0x40 * 0x1000 + c / 0x40 % 0x40 * 0x40 + c % 0x40
  {
    ThreeDigits(c);
    assert c / 0x1000 / 0x40 == c / 0x4_0000;
  }

  /** n decodings in a row from p on, and the place they end at; None when the bytes run out. */
  function DecodeRun(s: seq<uint8>, p: nat, n: nat): (seq<nat>, nat)
    decreases n
  {
    if n == 0 || p >= |s| || p + Length(s[p]) > |s| then ([], p)
    else
      var (rest, end) := DecodeRun(s, p + Length(s[p]), n - 1);
      ([Decode(s, p)] + rest, end)
  }

  /**
   * Repeated decoding over the concatenated encodings of any scalar values yields the values back,
   * advancing by exactly the length of each encoding.
   */
  lemma {:induction false} RoundTrip(before: seq<uint8>, cs: seq<nat>, behind: seq<uint8>)
    requires forall c <- cs :: Scalar(c)
    ensures DecodeRun(before + EncodeAll(cs) + behind, |before|, |cs|) == (cs, |before| + |EncodeAll(cs)|)
    decreases |cs|
  {
    if cs != [] {
      var c, rest := cs[0], cs[1..];
      var s := before + EncodeAll(cs) + behind;
      assert s == before + Encode(c) + (EncodeAll(rest) + behind);
      DecodesOne(before, c, EncodeAll(rest) + behind);
      assert s == (before + Encode(c)) + EncodeAll(rest) + behind;
      RoundTrip(before + Encode(c), rest, behind);
      assert cs == [c] + rest;
    } else {
      assert EncodeAll(cs) == [];
    }
  }
}
