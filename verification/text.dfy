/**
 * The string normalisation behind the note duplicate check: JavaScript's
 * `String.prototype.trim` and `String.prototype.toLowerCase`, and the
 * comparison key `s.trim().toLowerCase()` built from them.
 */
module Text {

  /** The ECMAScript WhiteSpace and LineTerminator code points: what `trim` strips. */
  predicate IsWhitespace(c: char) {
    || c == '\t' || c == '\n' || c == '\U{B}' || c == '\U{C}' || c == '\r' || c == ' '
    || c == '\U{A0}' || c == '\U{1680}' || ('\U{2000}' <= c <= '\U{200A}')
    || c == '\U{2028}' || c == '\U{2029}' || c == '\U{202F}' || c == '\U{205F}'
    || c == '\U{3000}' || c == '\U{FEFF}'
  }

  predicate AllWhitespace(s: string) {
    forall i :: 0 <= i < |s| ==> IsWhitespace(s[i])
  }

  /** The index of the first non-whitespace character of `s` at or after `i`, or `|s|` when there is none. */
  function SkipSpace(s: string, i: nat): (r: nat)
    requires i <= |s|
    ensures i <= r <= |s|
    ensures forall k :: i <= k < r ==> IsWhitespace(s[k])
    ensures r == |s| || !IsWhitespace(s[r])
    decreases |s| - i
  {
    if i < |s| && IsWhitespace(s[i]) then SkipSpace(s, i + 1) else i
  }

  /**
   * The index just past the last non-whitespace character of `s` before
   * `e`, looking no further back than `a`: `a` when `s[a..e]` is all whitespace.
   */
  function SkipSpaceBack(s: string, a: nat, e: nat): (r: nat)
    requires a <= e <= |s|
    ensures a <= r <= e
    ensures forall k :: r <= k < e ==> IsWhitespace(s[k])
    ensures r == a || !IsWhitespace(s[r - 1])
    decreases e
  {
    if a < e && IsWhitespace(s[e - 1]) then SkipSpaceBack(s, a, e - 1) else e
  }

  /**
   * `s.trim()`: `s` without the whitespace at either end. It is empty
   * exactly when `s` is all whitespace; otherwise it starts and ends with
   * a non-whitespace character.
   */
  function Trim(s: string): (r: string)
    ensures |r| <= |s|
    ensures r == [] <==> AllWhitespace(s)
    ensures r == [] || (!IsWhitespace(r[0]) && !IsWhitespace(r[|r| - 1]))
  {
    var a := SkipSpace(s, 0);
    s[a..SkipSpaceBack(s, a, |s|)]
  }

  /** `SkipSpace` is determined by its contract. */
  lemma {:induction false} SkipSpaceIs(s: string, i: nat, n: nat)
    requires i <= n <= |s|
    requires forall k :: i <= k < n ==> IsWhitespace(s[k])
    requires n == |s| || !IsWhitespace(s[n])
    ensures SkipSpace(s, i) == n
    decreases n - i
  {
    if i < n {
      SkipSpaceIs(s, i + 1, n);
    }
  }

  /** `SkipSpaceBack` is determined by its contract. */
  lemma {:induction false} SkipSpaceBackIs(s: string, a: nat, e: nat, n: nat)
    requires a <= n <= e <= |s|
    requires forall k :: n <= k < e ==> IsWhitespace(s[k])
    requires n == a || !IsWhitespace(s[n - 1])
    ensures SkipSpaceBack(s, a, e) == n
    decreases e
  {
    if n < e {
      SkipSpaceBackIs(s, a, e - 1, n);
    }
  }

  /** `Trim` keeps what lies between the leading and the trailing whitespace. */
  lemma TrimBetweenSpaces(s: string) returns (a: nat, e: nat)
    ensures a <= e <= |s| && Trim(s) == s[a..e]
    ensures AllWhitespace(s[..a]) && AllWhitespace(s[e..])
    ensures a == SkipSpace(s, 0) && e == SkipSpaceBack(s, a, |s|)
  {
    a := SkipSpace(s, 0);
    e := SkipSpaceBack(s, a, |s|);
    assert AllWhitespace(s[..a]);
    forall k | 0 <= k < |s| - e
      ensures IsWhitespace(s[e..][k])
    {
      assert s[e..][k] == s[e + k];
    }
  }

  /**
   * `Trim` is determined by its contract: whenever `s` splits into a
   * whitespace prefix, a middle with no whitespace at its ends, and a
   * whitespace suffix, the trimmed string is that middle.
   */
  lemma TrimOfSplit(s: string, before: string, middle: string, after: string)
    requires s == before + middle + after
    requires AllWhitespace(before) && AllWhitespace(after)
    requires middle == [] || (!IsWhitespace(middle[0]) && !IsWhitespace(middle[|middle| - 1]))
    ensures Trim(s) == middle
  {
    var i, j := |before|, |before| + |middle|;
    forall k | 0 <= k < i
      ensures IsWhitespace(s[k])
    {
      assert s[k] == before[k];
    }
    forall k | j <= k < |s|
      ensures IsWhitespace(s[k])
    {
      assert s[k] == after[k - j];
    }
    if middle == [] {
      assert AllWhitespace(s);
    } else {
      assert s[i] == middle[0];
      assert s[j - 1] == middle[|middle| - 1];
      SkipSpaceIs(s, 0, i);
      SkipSpaceBackIs(s, i, |s|, j);
      assert s[i..j] == middle;
    }
  }

  /** A blank field: `!s.trim()` holds for it in `page.tsx`. */
  predicate Blank(s: string) {
    Trim(s) == []
  }

  /** The upper-case letters `toLowerCase` folds in this model: ASCII A-Z and Latin-1 À-Þ (but not ×). */
  predicate IsUpper(c: char) {
    ('A' <= c <= 'Z') || ('\U{C0}' <= c <= '\U{DE}' && c != '\U{D7}')
  }

  function LowerChar(c: char): (r: char)
    ensures !IsUpper(r)
    ensures IsUpper(c) ==> r as int == c as int + 32
    ensures !IsUpper(c) ==> r == c
    ensures IsWhitespace(r) <==> IsWhitespace(c)
  {
    if IsUpper(c) then (c as int + 32) as char else c
  }

  /** `s.toLowerCase()`: each character folded on its own. */
  function ToLower(s: string): (r: string)
    ensures |r| == |s|
    ensures forall i :: 0 <= i < |s| ==> r[i] == LowerChar(s[i])
  {
    if s == [] then [] else [LowerChar(s[0])] + ToLower(s[1..])
  }

  /** The duplicate-check key of a field: `s.trim().toLowerCase()`. */
  function Key(s: string): (r: string)
    ensures |r| <= |s|
    ensures r == [] <==> Blank(s)
  {
    ToLower(Trim(s))
  }

  /** Lower-casing twice is lower-casing once. */
  lemma ToLowerIdempotent(s: string)
    ensures ToLower(ToLower(s)) == ToLower(s)
  {
  }

  /** Lower-casing keeps whitespace where it was, so it keeps both indices `Trim` cuts at. */
  lemma SpaceOfLower(s: string, a: nat)
    requires a == SkipSpace(s, 0)
    ensures SkipSpace(ToLower(s), 0) == a
    ensures SkipSpaceBack(ToLower(s), a, |s|) == SkipSpaceBack(s, a, |s|)
  {
    var l := ToLower(s);
    forall k | 0 <= k < |s|
      ensures IsWhitespace(l[k]) <==> IsWhitespace(s[k])
    {
      assert l[k] == LowerChar(s[k]);
    }
    SkipSpaceIs(l, 0, a);
    SkipSpaceBackIs(l, a, |s|, SkipSpaceBack(s, a, |s|));
  }

  /** Lower-casing commutes with taking a slice. */
  lemma ToLowerSlice(s: string, i: nat, j: nat)
    requires i <= j <= |s|
    ensures ToLower(s[i..j]) == ToLower(s)[i..j]
  {
    var x, y := ToLower(s[i..j]), ToLower(s)[i..j];
    forall k | 0 <= k < j - i
      ensures x[k] == y[k]
    {
      assert x[k] == LowerChar(s[i..j][k]);
      assert s[i..j][k] == s[i + k];
      assert y[k] == ToLower(s)[i + k];
    }
  }

  /** Trimming commutes with lower-casing, since folding never turns a character into whitespace or back. */
  lemma TrimOfLower(s: string)
    ensures Trim(ToLower(s)) == ToLower(Trim(s))
  {
    var a, e := TrimBetweenSpaces(s);
    SpaceOfLower(s, a);
    var a', e' := TrimBetweenSpaces(ToLower(s));
    ToLowerSlice(s, a, e);
  }

  /** The key ignores letter case: a lower-cased field has the same key as the field. */
  lemma KeyIgnoresCase(s: string)
    ensures Key(ToLower(s)) == Key(s)
  {
    TrimOfLower(s);
    var t := Trim(s);
    ToLowerIdempotent(t);
  }

  /** Two fields that lower-case to the same text have the same key. */
  lemma KeyOfSameLower(s: string, t: string)
    requires ToLower(s) == ToLower(t)
    ensures Key(s) == Key(t)
  {
    TrimOfLower(s);
    TrimOfLower(t);
  }

  lemma Regroup(before: string, s: string, after: string, i: nat, j: nat)
    requires i <= j <= |s|
    ensures before + s + after == (before + s[..i]) + s[i..j] + (s[j..] + after)
  {
    assert s == s[..i] + s[i..j] + s[j..];
  }

  /** Whitespace added around a string is removed again by `Trim`. */
  lemma TrimIgnoresPadding(before: string, s: string, after: string)
    requires AllWhitespace(before) && AllWhitespace(after)
    ensures Trim(before + s + after) == Trim(s)
  {
    var i, e := TrimBetweenSpaces(s);
    var m := Trim(s);
    var p, q := s[..i], s[e..];
    AllWhitespaceJoin(before, p);
    AllWhitespaceJoin(q, after);
    Regroup(before, s, after, i, e);
    TrimOfSplit(before + s + after, before + p, m, q + after);
  }

  /** The key ignores surrounding whitespace: padding a field on either side leaves its key unchanged. */
  lemma KeyIgnoresPadding(before: string, s: string, after: string)
    requires AllWhitespace(before) && AllWhitespace(after)
    ensures Key(before + s + after) == Key(s)
  {
    TrimIgnoresPadding(before, s, after);
  }

  lemma AllWhitespaceJoin(a: string, b: string)
    requires AllWhitespace(a) && AllWhitespace(b)
    ensures AllWhitespace(a + b)
  {
    forall k | 0 <= k < |a + b|
      ensures IsWhitespace((a + b)[k])
    {
      if k >= |a| {
        assert (a + b)[k] == b[k - |a|];
      }
    }
  }
}
