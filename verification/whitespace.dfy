/** Python's `str.strip()` with no argument. */
module Whitespace {

  /** The characters for which Python's `str.isspace` holds (the Unicode
      White_Space characters and the four information separators): TAB, LF,
      VT, FF and CR (0x09-0x0D), 0x1C-0x1F, SPACE (0x20), NEL (0x85),
      NO-BREAK SPACE (0xA0), OGHAM SPACE MARK (0x1680), the spaces
      0x2000-0x200A, LINE and PARAGRAPH SEPARATOR (0x2028, 0x2029), NARROW
      NO-BREAK SPACE (0x202F), MEDIUM MATHEMATICAL SPACE (0x205F) and
      IDEOGRAPHIC SPACE (0x3000). */
  predicate IsSpace(c: char) {
    var n := c as int;
    || 0x09 <= n <= 0x0D || 0x1C <= n <= 0x20 || n == 0x85 || n == 0xA0
    || n == 0x1680 || 0x2000 <= n <= 0x200A || n == 0x2028 || n == 0x2029
    || n == 0x202F || n == 0x205F || n == 0x3000
  }

  /** Every character of `s` from index `lo` up to `hi` is whitespace. */
  predicate SpaceBetween(s: string, lo: nat, hi: nat)
    requires lo <= hi <= |s|
  {
    forall k :: lo <= k < hi ==> IsSpace(s[k])
  }

  predicate AllSpace(t: string) {
    SpaceBetween(t, 0, |t|)
  }

  /** Neither end of `t` is whitespace. */
  predicate NoOuterSpace(t: string) {
    |t| == 0 || (!IsSpace(t[0]) && !IsSpace(t[|t| - 1]))
  }

  /** `t` is what is left of `s` after cutting away whitespace only: the
      characters before index `i` and those after `t`. */
  predicate IsCut(s: string, i: nat, t: string) {
    && i + |t| <= |s| && t == s[i..i + |t|]
    && SpaceBetween(s, 0, i) && SpaceBetween(s, i + |t|, |s|)
  }

  /** The first index at or after `i` that does not hold whitespace, or
      `|s|`: the left cut of `strip`. */
  function SkipSpace(s: string, i: nat): (j: nat)
    requires i <= |s|
    ensures i <= j <= |s| && SpaceBetween(s, i, j)
    ensures j == |s| || !IsSpace(s[j])
    decreases |s| - i
  {
    if i < |s| && IsSpace(s[i]) then SkipSpace(s, i + 1) else i
  }

  /** Stepping back from `j`, but not below `lo`, over whitespace: the right
      cut of `strip`. */
  function SkipSpaceBack(s: string, lo: nat, j: nat): (k: nat)
    requires lo <= j <= |s|
    ensures lo <= k <= j && SpaceBetween(s, k, j)
    ensures k == lo || !IsSpace(s[k - 1])
    decreases j
  {
    if lo < j && IsSpace(s[j - 1]) then SkipSpaceBack(s, lo, j - 1) else j
  }

  /** `s.strip()`: what remains of `s` once whitespace is removed at both
      ends. The result is a piece of `s` cut out by removing whitespace only,
      and it begins and ends with non-whitespace. */
  function Strip(s: string): (r: string)
    ensures NoOuterSpace(r)
    ensures exists i :: IsCut(s, i, r)
  {
    var i := SkipSpace(s, 0);
    var j := SkipSpaceBack(s, i, |s|);
    assert IsCut(s, i, s[i..j]);
    s[i..j]
  }

  /** The contract of `Strip` determines its result: any piece of `s` that
      is cut from `s` by removing only whitespace, and that has no whitespace
      at either end, is `Strip(s)`. */
  lemma StripIsUnique(s: string, i: nat, t: string)
    requires IsCut(s, i, t) && NoOuterSpace(t)
    ensures Strip(s) == t
  {
    var i' := SkipSpace(s, 0);
    if |t| == 0 {
      assert SpaceBetween(s, 0, |s|) by {
        forall k | 0 <= k < |s| ensures IsSpace(s[k]) {
          if k < i { } else { assert i + |t| <= k; }
        }
      }
      assert i' == |s|;
    } else {
      assert s[i] == t[0] && s[i + |t| - 1] == t[|t| - 1];
      assert i' == i;
      assert SkipSpaceBack(s, i, |s|) == i + |t|;
    }
  }

  /** `Strip` leaves a string without whitespace at its ends unchanged. */
  lemma StripKeepsUnpadded(t: string)
    requires NoOuterSpace(t)
    ensures Strip(t) == t
  {
    assert t[0..|t|] == t;
    StripIsUnique(t, 0, t);
  }

  /** Stripping twice is the same as stripping once. */
  lemma StripIdempotent(s: string)
    ensures Strip(Strip(s)) == Strip(s)
  {
    StripKeepsUnpadded(Strip(s));
  }

  /** A cut of `t` is also a cut of `t` padded with whitespace. */
  lemma PaddingKeepsCut(w1: string, t: string, w2: string, i: nat, r: string)
    requires AllSpace(w1) && AllSpace(w2) && IsCut(t, i, r)
    ensures IsCut(w1 + t + w2, |w1| + i, r)
  {
    var s := w1 + t + w2;
    assert forall k :: |w1| <= k < |w1| + |t| ==> s[k] == t[k - |w1|];
    assert forall k :: |w1| + |t| <= k < |s| ==> s[k] == w2[k - |w1| - |t|];
    assert s[|w1| + i..|w1| + i + |r|] == t[i..i + |r|];
  }

  /** Whitespace added around a string is removed again by `Strip`. */
  lemma StripIgnoresPadding(w1: string, t: string, w2: string)
    requires AllSpace(w1) && AllSpace(w2)
    ensures Strip(w1 + t + w2) == Strip(t)
  {
    var r := Strip(t);
    var i :| IsCut(t, i, r);
    PaddingKeepsCut(w1, t, w2, i, r);
    StripIsUnique(w1 + t + w2, |w1| + i, r);
  }
}
