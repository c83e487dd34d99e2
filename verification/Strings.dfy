/** C strings inside character arrays: strlen, strrev and strcmp of src/string.c, on places in an array. */
module Strings {

  const NUL: char := '\0'

  /** A terminator is reached from index i on. */
  predicate Terminated(s: seq<char>, i: nat) {
    exists k :: i <= k < |s| && s[k] == NUL
  }

  /** The index of the terminator of the string that starts at i. */
  function End(s: seq<char>, i: nat): (k: nat)
    requires Terminated(s, i)
    ensures i <= k < |s| && s[k] == NUL
    ensures forall j :: i <= j < k ==> s[j] != NUL
    decreases |s| - i
  {
    if s[i] == NUL then i else End(s, i + 1)
  }

  /** The characters of the string that starts at i. */
  function Text(s: seq<char>, i: nat): (t: seq<char>)
    requires Terminated(s, i)
    ensures NUL !in t && |t| == End(s, i) - i
  {
    s[i..End(s, i)]
  }

  lemma EndIs(s: seq<char>, i: nat, k: nat)
    requires i <= k < |s| && s[k] == NUL && forall j :: i <= j < k ==> s[j] != NUL
    ensures Terminated(s, i) && End(s, i) == k
  {
    var e := End(s, i);
  }

  /** strlen(str + from) */
  method Strlen(str: array<char>, from: nat) returns (len: nat)
    requires Terminated(str[..], from)
    ensures len == |Text(str[..], from)|
  {
    len := 0;
    while str[from + len] != NUL
      invariant from + len <= End(str[..], from)
      decreases str.Length - len
    {
      len := len + 1;
    }
    EndIs(str[..], from, from + len);
  }

  function Reverse(s: seq<char>): (r: seq<char>)
    ensures |r| == |s|
  {
    if s == [] then [] else Reverse(s[1..]) + [s[0]]
  }

  lemma {:induction false} ReverseAt(s: seq<char>, k: nat)
    requires k < |s|
    ensures Reverse(s)[k] == s[|s| - 1 - k]
  {
    if k < |s| - 1 {
      ReverseAt(s[1..], k);
    }
  }

  lemma {:induction false} ReverseTwice(s: seq<char>)
    ensures Reverse(Reverse(s)) == s
  {
    var r := Reverse(s);
    forall k: nat | k < |s|
      ensures Reverse(r)[k] == s[k]
    {
      ReverseAt(r, k);
      ReverseAt(s, |s| - 1 - k);
    }
  }

  lemma {:induction false} ReverseSnoc(s: seq<char>, c: char)
    ensures Reverse(s + [c]) == [c] + Reverse(s)
  {
    if s != [] {
      assert (s + [c])[1..] == s[1..] + [c];
      ReverseSnoc(s[1..], c);
    }
  }

  /** Between from and end, all but i..j is mirrored already; the rest of the string is as it was. */
  ghost predicate Swapped(s: seq<char>, now: seq<char>, from: nat, end: nat, i: int, j: int)
    requires from <= end <= |s|
  {
    && |now| == |s|
    && (forall k :: from <= k < end && (k < i || j < k) ==> now[k] == s[from + end - 1 - k])
    && (forall k :: 0 <= k < |s| && (i <= k <= j || k < from || end <= k) ==> now[k] == s[k])
  }

  lemma SwapNext(s: seq<char>, now: seq<char>, next: seq<char>, from: nat, end: nat, i: int, j: int)
    requires from <= end <= |s| && from <= i < j < end && i + j == from + end - 1
    requires Swapped(s, now, from, end, i, j) && next == now[i := now[j]][j := now[i]]
    ensures Swapped(s, next, from, end, i + 1, j - 1)
  {
  }

  /** strrev(str + from): the text is reversed in place, the rest of the array stays. */
  method Strrev(str: array<char>, from: nat)
    requires Terminated(str[..], from)
    modifies str
    ensures str[..] == old(str[..from]) + Reverse(Text(old(str[..]), from)) + old(str[..])[End(old(str[..]), from)..]
    ensures Terminated(str[..], from) && Text(str[..], from) == Reverse(Text(old(str[..]), from))
  {
    ghost var s := str[..];
    var len := Strlen(str, from);
    ghost var end := from + len;
    var i, j: int := from, from + len - 1;
    while i < j
      invariant from <= i <= j + 2 && i + j == from + end - 1
      invariant Swapped(s, str[..], from, end, i, j)
    {
      ghost var now := str[..];
      var a := str[i];
      str[i] := str[j];
      str[j] := a;
      assert str[..] == now[i := now[j]][j := now[i]];
      SwapNext(s, now, str[..], from, end, i, j);
      i, j := i + 1, j - 1;
    }
    ReversedInPlace(s, from, str[..]);
  }

  lemma ReversedInPlace(s: seq<char>, from: nat, now: seq<char>)
    requires Terminated(s, from) && |now| == |s|
    requires forall k :: from <= k < End(s, from) ==> now[k] == s[from + End(s, from) - 1 - k]
    requires forall k :: 0 <= k < from || End(s, from) <= k < |s| ==> now[k] == s[k]
    ensures now == s[..from] + Reverse(Text(s, from)) + s[End(s, from)..]
    ensures Terminated(now, from) && Text(now, from) == Reverse(Text(s, from))
  {
    var end, t := End(s, from), Text(s, from);
    MirrorIsReverse(s, from, end, now);
    ReverseKeeps(t);
    MiddleReplaced(s, now, from, end);
    NoNulInside(now, from, end, Reverse(t));
    EndIs(now, from, end);
  }

  lemma MiddleReplaced(s: seq<char>, now: seq<char>, from: nat, end: nat)
    requires from <= end <= |s| == |now|
    requires forall k :: 0 <= k < from || end <= k < |s| ==> now[k] == s[k]
    ensures now == s[..from] + now[from..end] + s[end..]
  {
  }

  lemma NoNulInside(now: seq<char>, from: nat, end: nat, t: seq<char>)
    requires from <= end <= |now| && now[from..end] == t && NUL !in t
    ensures forall k :: from <= k < end ==> now[k] != NUL
  {
    forall k | from <= k < end
      ensures now[k] != NUL
    {
      assert now[k] == t[k - from];
    }
  }

  lemma MirrorIsReverse(s: seq<char>, from: nat, end: nat, now: seq<char>)
    requires from <= end <= |s| && |now| == |s|
    requires forall k :: from <= k < end ==> now[k] == s[from + end - 1 - k]
    ensures now[from..end] == Reverse(s[from..end])
  {
    forall k: nat | k < end - from
      ensures now[from..end][k] == Reverse(s[from..end])[k]
    {
      ReverseAt(s[from..end], k);
    }
  }

  lemma {:induction false} ReverseKeeps(s: seq<char>)
    ensures forall c :: c in Reverse(s) <==> c in s
  {
    if s != [] {
      ReverseKeeps(s[1..]);
      assert s == [s[0]] + s[1..];
    }
  }

  /** The order of strcmp: by the first differing byte, a proper prefix first. */
  predicate Before(a: seq<char>, b: seq<char>) {
    b != [] && (a == [] || a[0] < b[0] || (a[0] == b[0] && Before(a[1..], b[1..])))
  }

  /** Before is told by the first place where the texts differ, or where one of them ends. */
  lemma {:induction false} FirstDifference(a: seq<char>, b: seq<char>) returns (i: nat)
    ensures i <= |a| && i <= |b| && (forall k :: 0 <= k < i ==> a[k] == b[k])
    ensures i < |a| && i < |b| ==> a[i] != b[i]
    ensures Before(a, b) <==> i < |b| && (i == |a| || a[i] < b[i])
    ensures i == |a| == |b| <==> a == b
  {
    if a == [] || b == [] || a[0] != b[0] {
      i := 0;
    } else {
      var j := FirstDifference(a[1..], b[1..]);
      i := j + 1;
      assert forall k :: 1 <= k < i ==> a[k] == a[1..][k - 1] && b[k] == b[1..][k - 1];
      assert a == [a[0]] + a[1..] && b == [b[0]] + b[1..];
    }
  }

  /** strcmp: the sign of the result orders the texts, and 0 means they are equal. */
  method Strcmp(s1: array<char>, s2: array<char>) returns (r: int)
    requires Terminated(s1[..], 0) && Terminated(s2[..], 0)
    ensures r == 0 <==> Text(s1[..], 0) == Text(s2[..], 0)
    ensures r < 0 <==> Before(Text(s1[..], 0), Text(s2[..], 0))
  {
    ghost var a, b := Text(s1[..], 0), Text(s2[..], 0);
    var i := 0;
    while s1[i] == s2[i]
      invariant i <= |a| && i <= |b| && a[..i] == b[..i]
      invariant Before(a, b) == Before(a[i..], b[i..])
      decreases |a| - i
    {
      if s1[i] == NUL {
        assert i == |a| && i == |b|;
        return 0;
      }
      i := i + 1;
    }
    assert i == |a| ==> i < |b|;
    r := s1[i] as int - s2[i] as int;
    assert a != b by {
      assert i < |a| && i < |b| ==> a[i] != b[i];
    }
  }
}
