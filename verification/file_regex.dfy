/**
 * `FILE_REGEX` = `\[(?P<src>.*)\](?P<spec>[^\[]*)` and `captures_iter` over
 * it, specified directly as a scan of the text rather than through a
 * general regex engine.
 *
 * A match opens at a `[`; `.*` is greedy and cannot cross a newline, so
 * `src` runs to the LAST `]` before the next `\n`; `[^\[]*` is greedy too,
 * so `spec` runs to the next `[` or the end of the text. `captures_iter`
 * reports the leftmost match, then searches again from where it ended.
 */
module FileRegex {
  import opened Wrappers
  import Text

  /** A match: the `[` at `open`, the `]` at `close`, and `end` just past `spec`. */
  datatype Span = Span(open: nat, close: nat, end: nat)

  /** The raw (untrimmed) `src` and `spec` capture groups of one match. */
  datatype Capture = Capture(src: string, spec: string)

  /** No newline in `s[lo..hi)`, i.e. `.` can consume all of it. */
  ghost predicate NoNewline(s: string, lo: nat, hi: nat)
    requires lo <= hi <= |s|
  {
    forall n :: lo <= n < hi ==> s[n] != '\n'
  }

  /** The regex can match starting at `i`: a `[` followed, on the same line, by some `]`. */
  ghost predicate CanMatchAt(s: string, i: nat)
    requires i < |s|
  {
    s[i] == '[' && exists j :: i < j < |s| && s[j] == ']' && NoNewline(s, i + 1, j)
  }

  /** No match can start anywhere in `[lo, hi)`. */
  ghost predicate NoMatchIn(s: string, lo: nat, hi: nat)
    requires lo <= hi <= |s|
  {
    forall i :: lo <= i < hi ==> !CanMatchAt(s, i)
  }

  /** `m` is the match the regex produces when it starts at `m.open`. */
  ghost predicate MatchAt(s: string, m: Span)
  {
    && m.open < m.close < m.end <= |s| + 1
    && m.close < |s| && m.close < m.end <= |s|
    && s[m.open] == '[' && s[m.close] == ']'
    // `.*` reaches `close` without crossing a newline ...
    && NoNewline(s, m.open + 1, m.close)
    // ... and is greedy: every later `]` lies beyond a newline
    && (forall j :: m.close < j < |s| && s[j] == ']' ==> !NoNewline(s, m.open + 1, j))
    // `[^\[]*` consumes no `[` ...
    && (forall n :: m.close < n < m.end ==> s[n] != '[')
    // ... and stops only at a `[` or at the end
    && (m.end == |s| || s[m.end] == '[')
  }

  /** Last index of `c` in `s[lo..hi)`, if any. */
  function LastIndexIn(s: string, lo: nat, hi: nat, c: char): (r: Option<nat>)
    requires lo <= hi <= |s|
    ensures r.Some? ==> lo <= r.value < hi && s[r.value] == c
    ensures r.Some? ==> forall m :: r.value < m < hi ==> s[m] != c
    ensures r.None? ==> forall m :: lo <= m < hi ==> s[m] != c
    decreases hi - lo
  {
    if lo == hi then None
    else if s[hi - 1] == c then Some(hi - 1)
    else LastIndexIn(s, lo, hi - 1, c)
  }

  /** The leftmost match starting at or after `from`, or `None` when there is none. */
  function NextMatch(s: string, from: nat): (r: Option<Span>)
    requires from <= |s|
    ensures r.Some? ==> from <= r.value.open && MatchAt(s, r.value) && NoMatchIn(s, from, r.value.open)
    ensures r.None? ==> NoMatchIn(s, from, |s|)
    decreases |s| - from
  {
    if from == |s| then None
    else if s[from] != '[' then NextMatch(s, from + 1)
    else
      var eol := Text.IndexFrom(s, from + 1, '\n');
      match LastIndexIn(s, from + 1, eol, ']')
      case None =>
        NoMatchWithoutClose(s, from, eol);
        NextMatch(s, from + 1)
      case Some(close) =>
        var end := Text.IndexFrom(s, close + 1, '[');
        GreedyClose(s, from, eol, close);
        Some(Span(from, close, end))
  }

  /** With no `]` before the end of the line, no match opens at `i`. */
  lemma NoMatchWithoutClose(s: string, i: nat, eol: nat)
    requires i < eol <= |s| && s[i] == '['
    requires eol < |s| ==> s[eol] == '\n'
    requires forall k :: i + 1 <= k < eol ==> s[k] != '\n'
    requires forall m :: i + 1 <= m < eol ==> s[m] != ']'
    ensures !CanMatchAt(s, i)
  {
  }

  /** The last `]` before the end of the line is the one greedy `.*` stops at. */
  lemma GreedyClose(s: string, i: nat, eol: nat, close: nat)
    requires i < close < eol <= |s|
    requires eol < |s| ==> s[eol] == '\n'
    requires forall k :: i + 1 <= k < eol ==> s[k] != '\n'
    requires forall m :: close < m < eol ==> s[m] != ']'
    ensures NoNewline(s, i + 1, close)
    ensures forall j :: close < j < |s| && s[j] == ']' ==> !NoNewline(s, i + 1, j)
  {
    forall j | close < j < |s| && s[j] == ']'
      ensures !NoNewline(s, i + 1, j)
    {
      assert eol < j && s[eol] == '\n';
    }
  }

  /** `m` is the leftmost match when the search starts at `from`. */
  ghost predicate LeftmostFrom(s: string, from: nat, m: Span)
  {
    from <= m.open && MatchAt(s, m) && NoMatchIn(s, from, m.open)
  }

  /**
   * `ms` is what `captures_iter` visits when it searches from `from`: the
   * leftmost match, then the leftmost match after it, and so on, until no
   * match opens in the rest of the text.
   */
  ghost predicate IsMatchSequence(s: string, from: nat, ms: seq<Span>)
    requires from <= |s|
    decreases ms
  {
    if ms == [] then NoMatchIn(s, from, |s|)
    else LeftmostFrom(s, from, ms[0]) && IsMatchSequence(s, ms[0].end, ms[1..])
  }

  /** The spans `captures_iter` visits from `from`. */
  function Matches(s: string, from: nat): (ms: seq<Span>)
    requires from <= |s|
    ensures IsMatchSequence(s, from, ms)
    decreases |s| - from
  {
    match NextMatch(s, from)
    case None => []
    case Some(m) =>
      var rest := Matches(s, m.end);
      assert ([m] + rest)[1..] == rest;
      [m] + rest
  }

  /** Every span of a match sequence is a match, and they come in text order. */
  lemma {:induction false} MatchSequenceSpans(s: string, from: nat, ms: seq<Span>)
    requires from <= |s| && IsMatchSequence(s, from, ms)
    ensures forall k :: 0 <= k < |ms| ==> MatchAt(s, ms[k]) && from <= ms[k].open
    ensures forall k :: 0 < k < |ms| ==> ms[k - 1].end <= ms[k].open
    decreases ms
  {
    if ms != [] {
      MatchSequenceSpans(s, ms[0].end, ms[1..]);
    }
  }

  /**
   * The greedy `.*` split: `src` ends at the last `]` of its line, so any
   * `]` left in `spec` comes after a newline in `spec`.
   */
  predicate SplitsAtLastClose(c: Capture)
  {
    forall n :: 0 <= n < |c.spec| && c.spec[n] == ']' ==> '\n' in c.spec[..n]
  }

  /** The `src` and `spec` groups of one match. */
  function CaptureOf(s: string, m: Span): (c: Capture)
    requires MatchAt(s, m)
    ensures "[" + c.src + "]" + c.spec == s[m.open..m.end]
    ensures '\n' !in c.src && '[' !in c.spec
    ensures SplitsAtLastClose(c)
  {
    var c := Capture(s[m.open + 1..m.close], s[m.close + 1..m.end]);
    assert s[m.open..m.end] == [s[m.open]] + s[m.open + 1..m.close] + [s[m.close]] + s[m.close + 1..m.end];
    forall n | 0 <= n < |c.spec| && c.spec[n] == ']'
      ensures '\n' in c.spec[..n]
    {
      var j := m.close + 1 + n;
      assert s[j] == ']';
      assert !NoNewline(s, m.open + 1, j);
      var q :| m.open + 1 <= q < j && s[q] == '\n';
      assert c.spec[..n][q - (m.close + 1)] == '\n';
    }
    c
  }

  /**
   * Of two splits of the same matched text, the one with the shorter `src`
   * leaves in its `spec` the `]` the longer one stops at; with the greedy
   * split a newline precedes that `]`, and it lies inside the longer `src`.
   */
  lemma LongerSrcCrossesNewline(short: Capture, long: Capture)
    requires "[" + short.src + "]" + short.spec == "[" + long.src + "]" + long.spec
    requires |short.src| < |long.src|
    requires SplitsAtLastClose(short)
    ensures '\n' in long.src
  {
    var t := "[" + short.src + "]" + short.spec;
    var n := |long.src| - |short.src| - 1;
    assert short.spec[n] == t[|long.src| + 1] == ']';
    assert '\n' in short.spec[..n];
    var q :| 0 <= q < n && short.spec[..n][q] == '\n';
    assert long.src[|short.src| + 1 + q] == t[|short.src| + 2 + q] == '\n';
  }

  /**
   * The contract of `CaptureOf` fixes the split point: two captures that
   * rebuild the same matched text, each with a one-line `src` and the
   * greedy split, are the same capture.
   */
  lemma CaptureSplitUnique(c1: Capture, c2: Capture)
    requires "[" + c1.src + "]" + c1.spec == "[" + c2.src + "]" + c2.spec
    requires '\n' !in c1.src && '\n' !in c2.src
    requires SplitsAtLastClose(c1) && SplitsAtLastClose(c2)
    ensures c1 == c2
  {
    var t := "[" + c1.src + "]" + c1.spec;
    if |c1.src| < |c2.src| {
      LongerSrcCrossesNewline(c1, c2);
      assert false;
    } else if |c2.src| < |c1.src| {
      LongerSrcCrossesNewline(c2, c1);
      assert false;
    }
    assert c1.src == t[1..|c1.src| + 1] == c2.src;
    assert c1.spec == t[|c1.src| + 2..] == c2.spec;
  }

  /** `FILE_REGEX.captures_iter(s)`, as capture groups. */
  function Captures(s: string): (cs: seq<Capture>)
    ensures forall k :: 0 <= k < |cs| ==> '\n' !in cs[k].src && '[' !in cs[k].spec
    ensures forall k :: 0 <= k < |cs| ==> SplitsAtLastClose(cs[k])
  {
    var ms := Matches(s, 0);
    MatchSequenceSpans(s, 0, ms);
    seq(|ms|, k requires 0 <= k < |ms| => CaptureOf(s, ms[k]))
  }

  /** A text without `[` has no entries. */
  lemma NoBracketNoCaptures(s: string)
    requires '[' !in s
    ensures Captures(s) == []
  {
  }

  /** The one-block text, when `fromTo` is on one line, can match at its first character. */
  lemma SingleBlockOpens(fromTo: string, spec: string)
    requires '\n' !in fromTo
    ensures var s := "[" + fromTo + "]" + spec;
      s[|fromTo| + 1] == ']' && NoNewline(s, 1, |fromTo| + 1) && CanMatchAt(s, 0)
  {
    var s := "[" + fromTo + "]" + spec;
    forall n | 1 <= n < |fromTo| + 1 ensures s[n] != '\n' {
      assert s[n] == fromTo[n - 1];
    }
  }

  /** In the one-block text, the first match spans the whole text when `spec` has no `[`. */
  lemma SingleBlockSpan(fromTo: string, spec: string, m: Span)
    requires '\n' !in fromTo && '[' !in spec
    requires LeftmostFrom("[" + fromTo + "]" + spec, 0, m)
    ensures m.open == 0 && m.close >= |fromTo| + 1 && m.end == |"[" + fromTo + "]" + spec|
    ensures ']' !in spec ==> m.close == |fromTo| + 1
  {
    var s := "[" + fromTo + "]" + spec;
    var c0 := |fromTo| + 1;
    SingleBlockOpens(fromTo, spec);
    assert m.close >= c0;
    forall n | c0 < n < |s| ensures s[n] != '[' {
      assert s[n] == spec[n - c0 - 1];
    }
  }

  /**
   * The one-block text `"[" + fromTo + "]" + spec` yields exactly one entry
   * when `fromTo` is on one line and `spec` has no `[`; the entry's groups
   * rebuild the whole text, and when `spec` has no `]` either they are
   * exactly `fromTo` and `spec`.
   */
  lemma SingleBlock(fromTo: string, spec: string)
    requires '\n' !in fromTo && '[' !in spec
    ensures var cs := Captures("[" + fromTo + "]" + spec);
      && |cs| == 1
      && "[" + cs[0].src + "]" + cs[0].spec == "[" + fromTo + "]" + spec
      && (']' !in spec ==> cs[0] == Capture(fromTo, spec))
  {
    var s := "[" + fromTo + "]" + spec;
    SingleBlockOpens(fromTo, spec);
    var ms := Matches(s, 0);
    assert ms != [];
    SingleBlockSpan(fromTo, spec, ms[0]);
    var cs := Captures(s);
    assert cs[0] == CaptureOf(s, ms[0]);
    if ']' !in spec {
      var c0 := |fromTo| + 1;
      assert s[1..c0] == fromTo;
      assert s[c0 + 1..] == spec;
    }
  }
}
