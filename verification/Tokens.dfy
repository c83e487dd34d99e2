/** strtok of src/string.c: hidden position, in-place cuts, and what a whole run of calls returns. */
module Tokens {
  import opened Strings
  import opened Wrappers

  // ---------- The tokens of a text ----------

  /** The first index from p on that holds no delimiter. */
  function SkipDelims(text: seq<char>, d: set<char>, p: nat): (i: nat)
    requires p <= |text|
    ensures p <= i <= |text| && (i < |text| ==> text[i] !in d)
    decreases |text| - p
  {
    if p < |text| && text[p] in d then SkipDelims(text, d, p + 1) else p
  }

  lemma {:induction false} SkippedAreDelims(text: seq<char>, d: set<char>, p: nat)
    requires p <= |text|
    ensures forall k :: p <= k < SkipDelims(text, d, p) ==> text[k] in d
    decreases |text| - p
  {
    if p < |text| && text[p] in d {
      SkippedAreDelims(text, d, p + 1);
    }
  }

  /** The first index from p on that holds a delimiter, or the end. */
  function TokenEnd(text: seq<char>, d: set<char>, p: nat): (j: nat)
    requires p <= |text|
    ensures p <= j <= |text| && (j < |text| ==> text[j] in d)
    decreases |text| - p
  {
    if p < |text| && text[p] !in d then TokenEnd(text, d, p + 1) else p
  }

  lemma {:induction false} TokenHasNoDelim(text: seq<char>, d: set<char>, p: nat)
    requires p <= |text|
    ensures forall k :: p <= k < TokenEnd(text, d, p) ==> text[k] !in d
    decreases |text| - p
  {
    if p < |text| && text[p] !in d {
      TokenHasNoDelim(text, d, p + 1);
    }
  }

  datatype Span = Span(first: nat, end: nat)

  /** The first token from p on. */
  function Token(text: seq<char>, d: set<char>, p: nat): (r: Option<Span>)
    requires p <= |text|
    ensures r.Some? ==> p <= r.value.first < r.value.end <= |text| && (r.value.end == |text| || text[r.value.end] in d)
  {
    var i := SkipDelims(text, d, p);
    if i == |text| then None else Some(Span(i, TokenEnd(text, d, i)))
  }

  /** The tokens that a scan from p on meets. */
  function Spans(text: seq<char>, d: set<char>, p: nat): seq<Span>
    requires p <= |text|
    decreases |text| - p
  {
    match Token(text, d, p)
    case None => []
    case Some(s) => [s] + (if s.end < |text| then Spans(text, d, s.end + 1) else [])
  }

  /** A longest stretch of the text without a delimiter. */
  ghost predicate MaximalRun(text: seq<char>, d: set<char>, s: Span) {
    && s.first < s.end <= |text|
    && (forall k :: s.first <= k < s.end ==> text[k] !in d)
    && (s.first == 0 || text[s.first - 1] in d)
    && (s.end == |text| || text[s.end] in d)
  }

  /** s is one of the tokens that a scan from p on meets. */
  predicate InSpans(text: seq<char>, d: set<char>, p: nat, s: Span)
    requires p <= |text|
    decreases |text| - p
  {
    match Token(text, d, p)
    case None => false
    case Some(t) => s == t || (t.end < |text| && InSpans(text, d, t.end + 1, s))
  }

  lemma {:induction false} InSpansIs(text: seq<char>, d: set<char>, p: nat, s: Span)
    requires p <= |text|
    ensures InSpans(text, d, p, s) <==> s in Spans(text, d, p)
    decreases |text| - p
  {
    match Token(text, d, p)
    case None =>
    case Some(t) =>
      if t.end < |text| {
        InSpansIs(text, d, t.end + 1, s);
        InTail(Spans(text, d, p), t, Spans(text, d, t.end + 1), s);
      } else {
        InTail(Spans(text, d, p), t, [], s);
      }
  }

  lemma InTail(all: seq<Span>, first: Span, rest: seq<Span>, s: Span)
    requires all == [first] + rest
    ensures s in all <==> s == first || s in rest
  {
  }

  /** The first token from p on is the first maximal run from p on. */
  lemma TokenIsFirstRun(text: seq<char>, d: set<char>, p: nat, s: Span)
    requires p <= |text| && (p == 0 || text[p - 1] in d)
    ensures var t := Token(text, d, p);
            && (t.Some? ==> MaximalRun(text, d, t.value))
            && (MaximalRun(text, d, s) && s.first >= p ==>
                 t.Some? && (s == t.value || (t.value.end < |text| && s.first > t.value.end)))
  {
    SkippedAreDelims(text, d, p);
    match Token(text, d, p)
    case None => NoRun(text, d, p, s);
    case Some(t) =>
      TokenHasNoDelim(text, d, t.first);
      FirstRun(text, d, p, t.first, t.end, s);
      FirstRun(text, d, p, t.first, t.end, t);
  }

  lemma {:induction false} SpansFrom(text: seq<char>, d: set<char>, p: nat, s: Span)
    requires p <= |text| && (p == 0 || text[p - 1] in d)
    ensures InSpans(text, d, p, s) <==> MaximalRun(text, d, s) && s.first >= p
    decreases |text| - p
  {
    TokenIsFirstRun(text, d, p, s);
    match Token(text, d, p)
    case None =>
    case Some(t) =>
      if t.end < |text| {
        SpansFrom(text, d, t.end + 1, s);
      }
  }

  lemma NoRun(text: seq<char>, d: set<char>, p: nat, s: Span)
    requires p <= |text| && forall k :: p <= k < |text| ==> text[k] in d
    ensures !(MaximalRun(text, d, s) && s.first >= p)
  {
    assert MaximalRun(text, d, s) ==> text[s.first] !in d;
  }

  /** A maximal run from p on is the first one, or starts after its end. */
  lemma FirstRun(text: seq<char>, d: set<char>, p: nat, i: nat, j: nat, s: Span)
    requires p <= i < j <= |text| && (p == 0 || text[p - 1] in d)
    requires (forall k :: p <= k < i ==> text[k] in d) && (forall k :: i <= k < j ==> text[k] !in d)
    requires j == |text| || text[j] in d
    ensures MaximalRun(text, d, s) && s.first >= p <==>
            s == Span(i, j) || (j < |text| && MaximalRun(text, d, s) && s.first >= j + 1)
  {
    if MaximalRun(text, d, s) && s.first >= p {
      assert text[s.first] !in d;
      assert s.first >= i;
      assert s.first > i ==> text[s.first - 1] in d;
    }
  }

  ghost predicate Ascending(spans: seq<Span>) {
    forall a, b :: 0 <= a < b < |spans| ==> spans[a].end < spans[b].first
  }

  ghost predicate Inside(spans: seq<Span>, lo: nat, hi: nat) {
    forall a :: 0 <= a < |spans| ==> lo <= spans[a].first < spans[a].end <= hi
  }

  /** Tokens come in order, with a delimiter between one and the next. */
  lemma {:induction false} SpansAscend(text: seq<char>, d: set<char>, p: nat)
    requires p <= |text|
    ensures Ascending(Spans(text, d, p)) && Inside(Spans(text, d, p), p, |text|)
    decreases |text| - p
  {
    var t := Token(text, d, p);
    if t.Some? {
      var rest := if t.value.end < |text| then Spans(text, d, t.value.end + 1) else [];
      if t.value.end < |text| {
        SpansAscend(text, d, t.value.end + 1);
      }
      AscendingCons(t.value, rest, Spans(text, d, p), p, |text|);
    }
  }

  lemma AscendingCons(first: Span, rest: seq<Span>, all: seq<Span>, lo: nat, hi: nat)
    requires lo <= first.first < first.end <= hi && all == [first] + rest
    requires Ascending(rest) && Inside(rest, first.end + 1, hi)
    ensures Ascending(all) && Inside(all, lo, hi)
  {
    forall a, b | 0 <= a < b < |all|
      ensures all[a].end < all[b].first
    {
      assert all[b] == rest[b - 1];
    }
    assert forall a :: 0 < a < |all| ==> all[a] == rest[a - 1];
  }

  /** The tokens of a text are exactly its maximal delimiter-free runs, in order. */
  lemma SpansAreMaximalRuns(text: seq<char>, d: set<char>)
    ensures forall s :: s in Spans(text, d, 0) <==> MaximalRun(text, d, s)
    ensures Ascending(Spans(text, d, 0))
  {
    forall s
      ensures s in Spans(text, d, 0) <==> MaximalRun(text, d, s)
    {
      InSpansIs(text, d, 0, s);
      SpansFrom(text, d, 0, s);
    }
    SpansAscend(text, d, 0);
  }

  // ---------- One call ----------

  /** The characters of the string delim. */
  function Chars(delim: seq<char>): set<char> {
    set c | c in delim
  }

  /** The buffer and the static variable `last`, which is NULL or a place in it. */
  datatype Scan = Scan(buf: seq<char>, last: Option<nat>)

  /** What a call does: where the token starts, and the state it leaves. */
  function Call(st: Scan, s: Option<nat>, d: set<char>): (Scan, Option<nat>) {
    var from := if s.Some? then s else st.last;
    if from.None? || !Terminated(st.buf, from.value) then (st, None)
    else
      var p, text := from.value, Text(st.buf, from.value);
      var i := SkipDelims(text, d, 0);
      if i == |text| then (st.(last := None), None)
      else
        var cut := p + TokenEnd(text, d, i);
        (if cut < End(st.buf, p) then Scan(st.buf[cut := NUL], Some(cut + 1)) else st.(last := None), Some(p + i))
  }

  class Strtok {
    const buf: array<char>
    var last: Option<nat>

    ghost function Abs(): Scan
      reads this, buf
    {
      Scan(buf[..], last)
    }

    constructor (buffer: array<char>)
      ensures buf == buffer && last == None
    {
      buf, last := buffer, None;
    }

    /** c is one of the characters of delim. */
    method InDelims(c: char, delim: seq<char>) returns (found: bool)
      ensures found <==> c in delim
    {
      var k := 0;
      while k < |delim|
        invariant k <= |delim| && c !in delim[..k]
      {
        if c == delim[k] {
          return true;
        }
        k := k + 1;
      }
      return false;
    }

    /** The loop at label cont: step over leading delimiters. */
    method SkipFrom(from: nat, delim: seq<char>) returns (p: nat)
      requires Terminated(buf[..], from)
      ensures p == from + SkipDelims(Text(buf[..], from), Chars(delim), 0)
    {
      ghost var text := Text(buf[..], from);
      p := from;
      while p < buf.Length
        invariant from <= p <= from + |text|
        invariant SkipDelims(text, Chars(delim), 0) == SkipDelims(text, Chars(delim), p - from)
        invariant text == Text(buf[..], from)
      {
        var skip := InDelims(buf[p], delim);
        if !skip || buf[p] == NUL {
          return;
        }
        p := p + 1;
      }
    }

    /** The final loop: find the end of the token, cut there and remember what follows. */
    method Cut(start: nat, delim: seq<char>, ghost cut: nat)
      requires NUL !in delim && Terminated(buf[..], start)
      requires cut == start + TokenEnd(Text(buf[..], start), Chars(delim), 0)
      modifies this, buf
      ensures Abs() == if cut < End(old(buf[..]), start) then Scan(old(buf[..])[cut := NUL], Some(cut + 1))
                       else Scan(old(buf[..]), None)
    {
      ghost var before := buf[..];
      ghost var text := Text(before, start);
      var p := start;
      while true
        invariant buf[..] == before
        invariant start <= p <= start + |text|
        invariant TokenEnd(text, Chars(delim), 0) == TokenEnd(text, Chars(delim), p - start)
        decreases |before| - p
      {
        var c := buf[p];
        var stop := InDelims(c, delim);
        if c == NUL {
          last := None;
          return;
        }
        if stop {
          buf[p] := NUL;
          last := Some(p + 1);
          assert buf[..] == before[p := NUL];
          return;
        }
        p := p + 1;
      }
    }

    /** strtok(s, delim); a None for s is the NULL that continues the last scan. */
    method Next(s: Option<nat>, delim: seq<char>) returns (tok: Option<nat>)
      requires NUL !in delim
      requires s.Some? ==> Terminated(buf[..], s.value)
      requires s.None? && last.Some? ==> Terminated(buf[..], last.value)
      modifies this, buf
      ensures (Abs(), tok) == Call(old(Abs()), s, Chars(delim))
    {
      var from := if s.Some? then s else last;
      if from.None? {
        return None;
      }
      ghost var before := Abs();
      var start := SkipFrom(from.value, delim);
      assert Abs() == before;
      if buf[start] == NUL {
        last := None;
        return None;
      }
      ghost var cut := CutPlace(before, s, from.value, start, Chars(delim));
      Cut(start, delim, cut);
      return Some(start);
    }
  }

  /** The text from a place further on is the rest of the text, and ends its token where that does. */
  lemma RestOfText(b: seq<char>, p: nat, start: nat, d: set<char>)
    requires Terminated(b, p) && p <= start < End(b, p)
    ensures Terminated(b, start) && End(b, start) == End(b, p) && Text(b, start) == Text(b, p)[start - p..]
    ensures TokenEnd(Text(b, p), d, start - p) == start - p + TokenEnd(Text(b, start), d, 0)
  {
    EndIs(b, start, End(b, p));
    TokenEndShift(Text(b, p), d, start - p, start - p);
  }

  /** Where a call cuts, seen from the start of its token. */
  lemma CutPlace(st: Scan, s: Option<nat>, p: nat, start: nat, d: set<char>) returns (cut: nat)
    requires Some(p) == (if s.Some? then s else st.last) && Terminated(st.buf, p)
    requires start == p + SkipDelims(Text(st.buf, p), d, 0) < End(st.buf, p)
    ensures Terminated(st.buf, start) && End(st.buf, start) == End(st.buf, p)
    ensures cut == start + TokenEnd(Text(st.buf, start), d, 0) <= End(st.buf, p)
    ensures Call(st, s, d) ==
            (if cut < End(st.buf, p) then Scan(st.buf[cut := NUL], Some(cut + 1)) else st.(last := None), Some(start))
  {
    RestOfText(st.buf, p, start, d);
    cut := CallCuts(st, s, p, start, d);
  }

  /** Where it cuts, seen from where it started to scan. */
  lemma CallCuts(st: Scan, s: Option<nat>, p: nat, start: nat, d: set<char>) returns (cut: nat)
    requires Some(p) == (if s.Some? then s else st.last) && Terminated(st.buf, p)
    requires start == p + SkipDelims(Text(st.buf, p), d, 0) < End(st.buf, p)
    ensures cut == p + TokenEnd(Text(st.buf, p), d, start - p) <= End(st.buf, p)
    ensures Call(st, s, d) ==
            (if cut < End(st.buf, p) then Scan(st.buf[cut := NUL], Some(cut + 1)) else st.(last := None), Some(start))
  {
    cut := p + TokenEnd(Text(st.buf, p), d, start - p);
  }

  lemma {:induction false} TokenEndShift(text: seq<char>, d: set<char>, k: nat, q: nat)
    requires k <= q <= |text|
    ensures TokenEnd(text, d, q) == k + TokenEnd(text[k..], d, q - k)
    decreases |text| - q
  {
    if q < |text| && text[q] !in d {
      TokenEndShift(text, d, k, q + 1);
    }
  }

  // ---------- A whole run of calls ----------

  /** strtok(NULL, d), k times. */
  function NullCalls(st: Scan, d: set<char>, k: nat): (r: (Scan, seq<Option<nat>>))
    ensures |r.1| == k
    decreases k
  {
    if k == 0 then (st, [])
    else
      var (next, tok) := Call(st, None, d);
      var (last, toks) := NullCalls(next, d, k - 1);
      (last, [tok] + toks)
  }

  /** strtok(buffer, d), then strtok(NULL, d) k - 1 times. */
  function Run(buffer: seq<char>, last: Option<nat>, d: set<char>, k: nat): (r: (Scan, seq<Option<nat>>))
    requires k > 0
    ensures |r.1| == k
  {
    var (next, tok) := Call(Scan(buffer, last), Some(0), d);
    var (end, toks) := NullCalls(next, d, k - 1);
    (end, [tok] + toks)
  }

  lemma {:induction false} SkipShift(text: seq<char>, d: set<char>, p: nat, q: nat)
    requires p <= q <= |text|
    ensures SkipDelims(text, d, q) == p + SkipDelims(text[p..], d, q - p)
    decreases |text| - q
  {
    if q < |text| && text[q] in d {
      SkipShift(text, d, p, q + 1);
    }
  }

  /** The scan stands at place p of a text whose rest is still as it was. */
  ghost predicate Standing(st: Scan, text: seq<char>, p: nat) {
    && p <= |text| < |st.buf| && st.last == Some(p) && NUL !in text
    && st.buf[|text|] == NUL && st.buf[p..|text|] == text[p..]
  }

  lemma StandingText(st: Scan, text: seq<char>, p: nat)
    requires Standing(st, text, p)
    ensures Terminated(st.buf, p) && End(st.buf, p) == |text| && Text(st.buf, p) == text[p..]
  {
    forall x | p <= x < |text|
      ensures st.buf[x] != NUL
    {
      assert st.buf[x] == text[p..][x - p] && text[x] in text;
    }
    EndIs(st.buf, p, |text|);
  }

  lemma StandingBelow(st: Scan, text: seq<char>, p: nat, cut: nat, next: Scan)
    requires Standing(st, text, p) && p <= cut < |text| && next == Scan(st.buf[cut := NUL], Some(cut + 1))
    ensures Standing(next, text, cut + 1)
  {
    assert next.buf[cut + 1..|text|] == st.buf[p..|text|][cut + 1 - p..];
  }

  /** One continuing call: it returns the next token of the text, or NULL for good. */
  lemma CallFollowsText(st: Scan, text: seq<char>, d: set<char>, p: nat) returns (next: Scan, tok: Option<nat>)
    requires Standing(st, text, p)
    ensures (next, tok) == Call(st, None, d)
    ensures match Token(text, d, p)
            case None => tok == None && next == st.(last := None)
            case Some(t) =>
              && tok == Some(t.first)
              && if t.end < |text| then next.buf == st.buf[t.end := NUL] && Standing(next, text, t.end + 1)
                 else next == st.(last := None)
  {
    StandingText(st, text, p);
    SkipShift(text, d, p, p);
    var i := SkipDelims(text, d, p);
    if i < |text| {
      TokenEndShift(text, d, p, i);
    }
    var r := Call(st, None, d);
    next, tok := r.0, r.1;
    if i < |text| && TokenEnd(text, d, i) < |text| {
      StandingBelow(st, text, p, TokenEnd(text, d, i), next);
    }
  }

  /** What k calls return, and what they leave in the buffer. */
  ghost predicate Follows(before: seq<char>, text: seq<char>, spans: seq<Span>, after: seq<char>, toks: seq<Option<nat>>) {
    && |after| == |before|
    && (forall x :: 0 <= x < |toks| ==> toks[x] == if x < |spans| then Some(spans[x].first) else None)
    && forall x :: 0 <= x < |after| ==>
         after[x] == if CutAt(spans, |toks|, |text|, x) then NUL else before[x]
  }

  /** x is the delimiter directly behind one of the first k tokens. */
  predicate CutAt(spans: seq<Span>, k: nat, len: nat, x: nat) {
    x < len && exists m :: 0 <= m < k && m < |spans| && spans[m].end == x
  }

  /** The same call by call: each returns the next span and cuts behind it. */
  ghost predicate Gives(before: seq<char>, len: nat, spans: seq<Span>, after: seq<char>, toks: seq<Option<nat>>)
    requires len <= |before|
    decreases |toks|
  {
    if toks == [] then after == before
    else if spans == [] then toks[0] == None && Gives(before, len, [], after, toks[1..])
    else
      && toks[0] == Some(spans[0].first)
      && Gives(if spans[0].end < len then before[spans[0].end := NUL] else before, len, spans[1..], after, toks[1..])
  }

  /** The calls on the text itself: from which place on the next one scans, or None after the last. */
  function Replay(buf: seq<char>, text: seq<char>, d: set<char>, p: Option<nat>, k: nat): (r: (seq<char>, seq<Option<nat>>))
    requires |text| <= |buf| && (p.Some? ==> p.value <= |text|)
    decreases k
  {
    if k == 0 then (buf, [])
    else
      var t := if p.Some? then Token(text, d, p.value) else None;
      var r := Replay(Cutting(buf, text, t), text, d, Continuing(text, t), k - 1);
      (r.0, [if t.Some? then Some(t.value.first) else None] + r.1)
  }

  function Cutting(buf: seq<char>, text: seq<char>, t: Option<Span>): (r: seq<char>)
    requires |text| <= |buf|
    ensures |r| == |buf|
  {
    if t.Some? && t.value.end < |text| then buf[t.value.end := NUL] else buf
  }

  function Continuing(text: seq<char>, t: Option<Span>): (q: Option<nat>)
    ensures q.Some? ==> q.value <= |text|
  {
    if t.Some? && t.value.end < |text| then Some(t.value.end + 1) else None
  }

  /** The scan stands at a place of the text, or has stopped. */
  ghost predicate StandingAt(st: Scan, text: seq<char>, p: Option<nat>) {
    |text| <= |st.buf| && if p.Some? then Standing(st, text, p.value) else st.last == None
  }

  lemma CallReplays(st: Scan, text: seq<char>, d: set<char>, p: Option<nat>) returns (t: Option<Span>, next: Scan)
    requires StandingAt(st, text, p)
    ensures p.Some? ==> p.value <= |text|
    ensures t == if p.Some? then Token(text, d, p.value) else None
    ensures Call(st, None, d) == (next, if t.Some? then Some(t.value.first) else None)
    ensures next.buf == Cutting(st.buf, text, t) && StandingAt(next, text, Continuing(text, t))
  {
    if p.Some? {
      var tok;
      next, tok := CallFollowsText(st, text, d, p.value);
      t := Token(text, d, p.value);
    } else {
      t, next := None, st;
    }
  }

  lemma {:induction false} NullCallsReplay(st: Scan, text: seq<char>, d: set<char>, p: Option<nat>, k: nat)
    requires StandingAt(st, text, p)
    ensures p.Some? ==> p.value <= |text|
    ensures NullCalls(st, d, k).0.buf == Replay(st.buf, text, d, p, k).0
    ensures NullCalls(st, d, k).1 == Replay(st.buf, text, d, p, k).1
    decreases k
  {
    var t, next := CallReplays(st, text, d, p);
    if k > 0 {
      NullCallsReplay(next, text, d, Continuing(text, t), k - 1);
    }
  }

  function SpansFromPlace(text: seq<char>, d: set<char>, p: Option<nat>): seq<Span>
    requires p.Some? ==> p.value <= |text|
  {
    if p.Some? then Spans(text, d, p.value) else []
  }

  /** The first span is the token of the first call, and the others those of the calls after it. */
  lemma SpansStep(text: seq<char>, d: set<char>, p: Option<nat>) returns (t: Option<Span>)
    requires p.Some? ==> p.value <= |text|
    ensures t == if p.Some? then Token(text, d, p.value) else None
    ensures SpansFromPlace(text, d, p) == (if t.Some? then [t.value] else []) + SpansFromPlace(text, d, Continuing(text, t))
  {
    t := if p.Some? then Token(text, d, p.value) else None;
    var rest := SpansFromPlace(text, d, Continuing(text, t));
    assert [] + rest == rest;
    assert t.Some? && t.value.end == |text| ==> rest == [];
  }

  lemma {:induction false} ReplayGives(buf: seq<char>, text: seq<char>, d: set<char>, p: Option<nat>, k: nat)
    requires |text| <= |buf| && (p.Some? ==> p.value <= |text|)
    ensures var r := Replay(buf, text, d, p, k); Gives(buf, |text|, SpansFromPlace(text, d, p), r.0, r.1)
    decreases k
  {
    if k > 0 {
      var t := SpansStep(text, d, p);
      var q := Continuing(text, t);
      ReplayGives(Cutting(buf, text, t), text, d, q, k - 1);
      var r := Replay(Cutting(buf, text, t), text, d, q, k - 1);
      GivesOneMore(buf, text, t, SpansFromPlace(text, d, q), SpansFromPlace(text, d, p), r.0, r.1, Replay(buf, text, d, p, k).1);
    }
  }

  lemma GivesOneMore(buf: seq<char>, text: seq<char>, t: Option<Span>, rest: seq<Span>, spans: seq<Span>,
                     after: seq<char>, tail: seq<Option<nat>>, toks: seq<Option<nat>>)
    requires |text| <= |buf| && Gives(Cutting(buf, text, t), |text|, rest, after, tail)
    requires spans == (if t.Some? then [t.value] else []) + rest && (t.None? ==> rest == [])
    requires toks == [if t.Some? then Some(t.value.first) else None] + tail
    ensures Gives(buf, |text|, spans, after, toks)
  {
    assert toks[1..] == tail;
    if t.Some? {
      assert spans[1..] == rest;
    }
  }

  lemma {:induction false} GivesFollows(before: seq<char>, text: seq<char>, spans: seq<Span>, after: seq<char>, toks: seq<Option<nat>>)
    requires |text| < |before| && Gives(before, |text|, spans, after, toks)
    requires forall x :: 0 <= x < |spans| ==> spans[x].end <= |text|
    ensures Follows(before, text, spans, after, toks)
    decreases |toks|
  {
    if toks != [] {
      if spans == [] {
        GivesFollows(before, text, [], after, toks[1..]);
      } else {
        var t, mid := spans[0], if spans[0].end < |text| then before[spans[0].end := NUL] else before;
        GivesFollows(mid, text, spans[1..], after, toks[1..]);
        FollowsCons(before, mid, text, t, spans[1..], spans, after, toks[1..], toks);
      }
    }
  }

  lemma FollowsCons(before: seq<char>, mid: seq<char>, text: seq<char>, t: Span, rest: seq<Span>, spans: seq<Span>,
                    after: seq<char>, tail: seq<Option<nat>>, toks: seq<Option<nat>>)
    requires t.end <= |text| < |before| && mid == if t.end < |text| then before[t.end := NUL] else before
    requires Follows(mid, text, rest, after, tail)
    requires spans == [t] + rest && toks == [Some(t.first)] + tail
    ensures Follows(before, text, spans, after, toks)
  {
    forall x: nat | x < |after|
      ensures CutAt(spans, |toks|, |text|, x) <==> (x < |text| && x == t.end) || CutAt(rest, |tail|, |text|, x)
    {
      assert spans[0] == t;
      if CutAt(rest, |tail|, |text|, x) {
        var m :| 0 <= m < |tail| && m < |rest| && rest[m].end == x;
        assert spans[m + 1].end == x;
      }
    }
  }

  /**
   * A whole run: strtok(buffer, d) and then strtok(NULL, d) return exactly the starts of the maximal
   * delimiter-free runs of the original text, in order, and then NULL forever; only the delimiters
   * directly behind returned tokens are overwritten.
   */
  lemma RunReturnsTokens(buffer: seq<char>, last: Option<nat>, d: set<char>, k: nat)
    requires k > 0 && Terminated(buffer, 0)
    ensures Follows(buffer, Text(buffer, 0), Spans(Text(buffer, 0), d, 0), Run(buffer, last, d, k).0.buf, Run(buffer, last, d, k).1)
  {
    RunIsNullCalls(buffer, last, d, k);
    var st, text := Scan(buffer, Some(0)), Text(buffer, 0);
    NullCallsReplay(st, text, d, Some(0), k);
    ReplayGives(buffer, text, d, Some(0), k);
    SpansAscend(text, d, 0);
    GivesFollows(buffer, text, Spans(text, d, 0), NullCalls(st, d, k).0.buf, NullCalls(st, d, k).1);
  }

  lemma RunIsNullCalls(buffer: seq<char>, last: Option<nat>, d: set<char>, k: nat)
    requires k > 0 && Terminated(buffer, 0)
    ensures Run(buffer, last, d, k).0.buf == NullCalls(Scan(buffer, Some(0)), d, k).0.buf
    ensures Run(buffer, last, d, k).1 == NullCalls(Scan(buffer, Some(0)), d, k).1
  {
    assert Call(Scan(buffer, last), Some(0), d) == Call(Scan(buffer, Some(0)), None, d);
  }

  /** Every token that a run has returned is a string of its own in the buffer, and stays intact. */
  lemma TokensStayIntact(buffer: seq<char>, last: Option<nat>, d: set<char>, k: nat, x: nat, s: Span)
    requires Terminated(buffer, 0) && x < k && x < |Spans(Text(buffer, 0), d, 0)|
    requires s == Spans(Text(buffer, 0), d, 0)[x]
    ensures s.first < s.end <= |Text(buffer, 0)|
    ensures Run(buffer, last, d, k).1[x] == Some(s.first)
    ensures var after := Run(buffer, last, d, k).0.buf;
            Terminated(after, s.first) && Text(after, s.first) == Text(buffer, 0)[s.first..s.end]
  {
    RunReturnsTokens(buffer, last, d, k);
    SpansAscend(Text(buffer, 0), d, 0);
    IntactToken(buffer, Text(buffer, 0), Spans(Text(buffer, 0), d, 0), Run(buffer, last, d, k).0.buf, Run(buffer, last, d, k).1, x);
  }

  lemma IntactToken(before: seq<char>, text: seq<char>, spans: seq<Span>, after: seq<char>, toks: seq<Option<nat>>, x: nat)
    requires Terminated(before, 0) && text == Text(before, 0)
    requires Follows(before, text, spans, after, toks) && Ascending(spans)
    requires x < |spans| && x < |toks| && Inside(spans, 0, |text|)
    ensures spans[x].first < spans[x].end <= |text|
    ensures Terminated(after, spans[x].first) && Text(after, spans[x].first) == text[spans[x].first..spans[x].end]
  {
    var s := spans[x];
    assert s in spans;
    assert s.end < |text| ==> CutAt(spans, |toks|, |text|, s.end);
    forall y: nat | s.first <= y < s.end
      ensures after[y] == text[y]
    {
      NotCutInside(spans, |toks|, |text|, x, y);
    }
    EndIs(after, s.first, s.end);
    assert after[s.first..s.end] == text[s.first..s.end];
  }

  lemma NotCutInside(spans: seq<Span>, k: nat, len: nat, x: nat, y: nat)
    requires x < |spans| && spans[x].first <= y < spans[x].end
    requires Ascending(spans)
    requires forall s <- spans :: s.first < s.end
    ensures !CutAt(spans, k, len, y)
  {
    forall m | 0 <= m < |spans|
      ensures spans[m].end != y
    {
      assert spans[m] in spans;
      if m > x {
        assert spans[x].end < spans[m].first;
      } else if m < x {
        assert spans[m].end < spans[x].first;
      }
    }
  }
}
