/**
 * The string operations of the Rust standard library that the josh-filter
 * driver relies on: `str::trim`, `str::splitn(2, ":")` and `str::replace`
 * with a one-character pattern.
 */
module Text {
  import opened Wrappers

  /** Rust's `char::is_whitespace`: the Unicode White_Space property. */
  predicate IsWhitespace(c: char)
  {
    || ('\t' <= c <= '\r')
    || c == ' '
    || c == '\U{85}'
    || c == '\U{A0}'
    || c == '\U{1680}'
    || ('\U{2000}' <= c <= '\U{200A}')
    || c == '\U{2028}'
    || c == '\U{2029}'
    || c == '\U{202F}'
    || c == '\U{205F}'
    || c == '\U{3000}'
  }

  /** First index at or after `i` that does not hold whitespace (or |s|). */
  function SkipWhitespace(s: string, i: nat): (j: nat)
    requires i <= |s|
    ensures i <= j <= |s|
    ensures forall k :: i <= k < j ==> IsWhitespace(s[k])
    ensures j < |s| ==> !IsWhitespace(s[j])
    decreases |s| - i
  {
    if i == |s| || !IsWhitespace(s[i]) then i else SkipWhitespace(s, i + 1)
  }

  /** Walking back from `hi`, the end of the last non-whitespace run above `lo`. */
  function SkipWhitespaceBack(s: string, lo: nat, hi: nat): (j: nat)
    requires lo <= hi <= |s|
    ensures lo <= j <= hi
    ensures forall k :: j <= k < hi ==> IsWhitespace(s[k])
    ensures lo < j ==> !IsWhitespace(s[j - 1])
    decreases hi - lo
  {
    if hi == lo || !IsWhitespace(s[hi - 1]) then hi else SkipWhitespaceBack(s, lo, hi - 1)
  }

  /**
   * The slice `[lo, hi)` that `str::trim` keeps: everything outside it is
   * whitespace, and when it is not empty it starts and ends on a
   * non-whitespace character.
   */
  function TrimBounds(s: string): (b: (nat, nat))
    ensures b.0 <= b.1 <= |s|
    ensures forall k :: 0 <= k < b.0 ==> IsWhitespace(s[k])
    ensures forall k :: b.1 <= k < |s| ==> IsWhitespace(s[k])
    ensures b.0 < b.1 ==> !IsWhitespace(s[b.0]) && !IsWhitespace(s[b.1 - 1])
  {
    var lo := SkipWhitespace(s, 0);
    (lo, SkipWhitespaceBack(s, lo, |s|))
  }

  /** `str::trim`. */
  function Trim(s: string): (r: string)
    ensures r != [] ==> !IsWhitespace(r[0]) && !IsWhitespace(r[|r| - 1])
  {
    var b := TrimBounds(s);
    s[b.0..b.1]
  }

  /** Trimming removes only surrounding whitespace: `s` is whitespace, then `Trim(s)`, then whitespace. */
  lemma TrimIsInfix(s: string)
    ensures var b := TrimBounds(s);
      && s == s[..b.0] + Trim(s) + s[b.1..]
      && (forall k :: 0 <= k < b.0 ==> IsWhitespace(s[k]))
      && (forall k :: b.1 <= k < |s| ==> IsWhitespace(s[k]))
  {
    var b := TrimBounds(s);
    assert s == s[..b.0] + s[b.0..b.1] + s[b.1..];
  }

  /** A non-whitespace character is in the trimmed text exactly when it is in the text. */
  lemma TrimKeepsNonWhitespace(s: string, c: char)
    requires !IsWhitespace(c)
    ensures c in Trim(s) <==> c in s
  {
    var b := TrimBounds(s);
    if c in s {
      var k :| 0 <= k < |s| && s[k] == c;
      assert s[b.0..b.1][k - b.0] == c;
    }
  }

  /** First index of `c` at or after `i`, or |s| when there is none. */
  function IndexFrom(s: string, i: nat, c: char): (j: nat)
    requires i <= |s|
    ensures i <= j <= |s|
    ensures j < |s| ==> s[j] == c
    ensures forall k :: i <= k < j ==> s[k] != c
    decreases |s| - i
  {
    if i == |s| || s[i] == c then i else IndexFrom(s, i + 1, c)
  }

  /**
   * `s.splitn(2, sep)` followed by two calls of `next()`: the text before the
   * first `sep` and everything after it, or `None` when the second `next()`
   * finds nothing because `sep` does not occur.
   */
  function SplitOnce(s: string, sep: char): (r: Option<(string, string)>)
    ensures r.Some? <==> sep in s
    ensures r.Some? ==> sep !in r.value.0 && r.value.0 + [sep] + r.value.1 == s
  {
    var i := IndexFrom(s, 0, sep);
    if i == |s| then None
    else
      assert s == s[..i] + [sep] + s[i + 1..];
      Some((s[..i], s[i + 1..]))
  }

  /** The split is the only way to write `s` as a separator-free head, `sep`, and a tail. */
  lemma SplitOnceUnique(s: string, sep: char, head: string, tail: string)
    requires sep !in head && head + [sep] + tail == s
    ensures SplitOnce(s, sep) == Some((head, tail))
  {
    var r := SplitOnce(s, sep);
    var h := r.value.0;
    assert s[|head|] == sep;
    assert |h| == |head|;
    assert h == s[..|h|] == head;
    assert r.value.1 == s[|h| + 1..] == tail;
  }

  /**
   * `s.replace(c, w)` for a one-character pattern: every occurrence of `c`,
   * left to right, is replaced by `w`.
   */
  function ReplaceChar(s: string, c: char, w: string): (r: string)
    ensures c !in w ==> c !in r
    ensures c !in s ==> r == s
    decreases |s|
  {
    if s == [] then []
    else (if s[0] == c then w else [s[0]]) + ReplaceChar(s[1..], c, w)
  }

  /** Replacement brings in no character that was in neither the text nor the replacement. */
  lemma {:induction false} ReplaceCharNoNewChar(s: string, c: char, w: string, d: char)
    requires d !in s && d !in w
    ensures d !in ReplaceChar(s, c, w)
    decreases |s|
  {
    if s != [] {
      ReplaceCharNoNewChar(s[1..], c, w, d);
    }
  }

  /** Replacement works piece by piece. */
  lemma {:induction false} ReplaceCharAppend(a: string, b: string, c: char, w: string)
    ensures ReplaceChar(a + b, c, w) == ReplaceChar(a, c, w) + ReplaceChar(b, c, w)
    decreases |a|
  {
    if a != [] {
      var head := if a[0] == c then w else [a[0]];
      assert (a + b)[0] == a[0];
      assert (a + b)[1..] == a[1..] + b;
      ReplaceCharAppend(a[1..], b, c, w);
      assert ReplaceChar(a + b, c, w) == head + (ReplaceChar(a[1..], c, w) + ReplaceChar(b, c, w));
      assert ReplaceChar(a, c, w) == head + ReplaceChar(a[1..], c, w);
    } else {
      assert a + b == b;
    }
  }
}
