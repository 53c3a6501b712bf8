/** The match of `(?P<major>\d+).(?P<minor>\d+).(?P<patch>\d+)(?P<rest>.*)`
    against the start of a string, as Python's `re.match` finds it.

    Neither dot is escaped, so each stands for any one character other than a
    newline (a digit included), and `.*` stops at the first newline. `re.match`
    anchors the pattern at the start of the string but not at its end. The
    regular-expression engine backtracks: each greedy `\d+` first takes the
    longest run of digits and gives back one digit at a time while the rest of
    the pattern fails. This module states which match that search finds
    (`IsFirstMatch`) independently of how it is searched for, and proves that
    `ParseMatch`, which follows the engine's order of attempts, finds it. */
module VersionPattern {
  import opened Wrappers
  import opened Decimal

  /** The four named groups of one match, together with the characters the two
      unescaped dots consumed. */
  datatype Match = Match(major: string, sep1: char, minor: string, sep2: char,
                         patch: string, rest: string)
  {
    /** The text the whole pattern consumed. */
    function Text(): string {
      major + [sep1] + minor + [sep2] + patch + rest
    }
  }

  predicate NoNewline(t: string) {
    forall i :: 0 <= i < |t| ==> t[i] != '\n'
  }

  /** `m` is one way in which the pattern matches at the start of `s`: each
      `\d+` group is a non-empty run of digits, each dot one character other
      than a newline, `rest` a run of characters other than a newline, and the
      consumed text is a prefix of `s`. */
  predicate IsMatch(s: string, m: Match) {
    && |m.major| >= 1 && AllDigits(m.major) && m.sep1 != '\n'
    && |m.minor| >= 1 && AllDigits(m.minor) && m.sep2 != '\n'
    && |m.patch| >= 1 && AllDigits(m.patch) && NoNewline(m.rest)
    && m.Text() <= s
  }

  /** The order in which the backtracking engine prefers matches: every
      quantifier is greedy (a longer run first), and the choice made for an
      earlier group takes precedence over the choices of later ones. */
  predicate RanksAbove(m: Match, n: Match) {
    || |m.major| > |n.major|
    || (|m.major| == |n.major| && |m.minor| > |n.minor|)
    || (|m.major| == |n.major| && |m.minor| == |n.minor| && |m.patch| > |n.patch|)
    || (|m.major| == |n.major| && |m.minor| == |n.minor| && |m.patch| == |n.patch|
        && |m.rest| > |n.rest|)
  }

  /** `m` is the match `re.match` reports: a match that no other match of the
      pattern against `s` outranks. */
  ghost predicate IsFirstMatch(s: string, m: Match) {
    IsMatch(s, m) && forall n :: IsMatch(s, n) ==> !RanksAbove(n, m)
  }

  /** `s[i..i + n]` is all digits, stated on the positions of `s` so that
      proofs need not reason about the slice. */
  predicate DigitsAt(s: string, i: nat, n: nat)
    requires i + n <= |s|
  {
    forall k :: i <= k < i + n ==> IsDigit(s[k])
  }

  lemma DigitsAtIsAllDigits(s: string, i: nat, n: nat)
    requires i + n <= |s|
    ensures DigitsAt(s, i, n) <==> AllDigits(s[i..i + n])
  {
    var t := s[i..i + n];
    assert forall k :: 0 <= k < n ==> t[k] == s[i + k];
  }

  /** Length of the longest run of digits in `s` starting at `i`. */
  function DigitRun(s: string, i: nat): (n: nat)
    requires i <= |s|
    ensures i + n <= |s| && DigitsAt(s, i, n)
    ensures i + n == |s| || !IsDigit(s[i + n])
    decreases |s| - i
  {
    if i < |s| && IsDigit(s[i]) then 1 + DigitRun(s, i + 1) else 0
  }

  /** Index of the first newline in `s` at or after `i`, or `|s|` if there is
      none: where a `.*` started at `i` stops. */
  function LineEnd(s: string, i: nat): (e: nat)
    requires i <= |s|
    ensures i <= e <= |s| && forall k :: i <= k < e ==> s[k] != '\n'
    ensures e == |s| || s[e] == '\n'
    decreases |s| - i
  {
    if i < |s| && s[i] != '\n' then LineEnd(s, i + 1) else i
  }

  /** The match whose groups have lengths `a`, `b`, `c` and `d`, read off `s`. */
  function Slice(s: string, a: nat, b: nat, c: nat, d: nat): Match
    requires a + b + c + d + 2 <= |s|
  {
    Match(s[..a], s[a], s[a + 1..a + 1 + b], s[a + 1 + b],
          s[a + b + 2..a + b + 2 + c], s[a + b + 2 + c..a + b + 2 + c + d])
  }

  /** The attempt after `major = s[..a]` and `minor = s[a + 1..a + 1 + b]`:
      the second dot, then the longest digit run as `patch` and the longest
      newline-free run as `rest`. The engine never backtracks into `patch` or
      `rest`: once `patch` has one digit, `.*` matches whatever follows. */
  function MatchTail(s: string, a: nat, b: nat): Option<Match>
    requires a + 1 + b <= |s|
  {
    var q := a + 1 + b;
    if q < |s| && s[q] != '\n' then
      var c := DigitRun(s, q + 1);
      if c == 0 then None
      else Some(Slice(s, a, b, c, LineEnd(s, q + 1 + c) - (q + 1 + c)))
    else
      None
  }

  /** The attempts with `minor` of length `b`, `b - 1`, ..., 1, in that order. */
  function TryMinor(s: string, a: nat, b: nat): Option<Match>
    requires a + 1 + b <= |s| && b <= DigitRun(s, a + 1)
  {
    if b == 0 then None
    else
      match MatchTail(s, a, b)
      case Some(m) => Some(m)
      case None => TryMinor(s, a, b - 1)
  }

  /** The attempt after `major = s[..a]`: the first dot, then `minor` from its
      longest possible run downwards. */
  function MatchMinor(s: string, a: nat): Option<Match>
    requires a <= |s|
  {
    if a < |s| && s[a] != '\n' then TryMinor(s, a, DigitRun(s, a + 1)) else None
  }

  /** The attempts with `major` of length `a`, `a - 1`, ..., 1, in that order. */
  function TryMajor(s: string, a: nat): Option<Match>
    requires a <= DigitRun(s, 0)
  {
    if a == 0 then None
    else
      match MatchMinor(s, a)
      case Some(m) => Some(m)
      case None => TryMajor(s, a - 1)
  }

  /** Where each group and separator sits in the consumed text. */
  lemma TextLayout(m: Match)
    ensures var t, a, b, c := m.Text(), |m.major|, |m.minor|, |m.patch|;
            && |t| == a + b + c + |m.rest| + 2
            && (forall k :: 0 <= k < a ==> t[k] == m.major[k])
            && t[a] == m.sep1
            && (forall k :: a + 1 <= k < a + 1 + b ==> t[k] == m.minor[k - a - 1])
            && t[a + 1 + b] == m.sep2
            && (forall k :: a + b + 2 <= k < a + b + c + 2 ==> t[k] == m.patch[k - a - b - 2])
            && (forall k :: a + b + c + 2 <= k < |t| ==> t[k] == m.rest[k - a - b - c - 2])
  {
  }

  /** The positions a match occupies in `s`. */
  lemma MatchLayout(s: string, m: Match)
    requires IsMatch(s, m)
    ensures var a, b, c, d := |m.major|, |m.minor|, |m.patch|, |m.rest|;
            && a + b + c + d + 2 <= |s|
            && m == Slice(s, a, b, c, d)
            && m.Text() == s[..a + b + c + d + 2]
            && DigitsAt(s, 0, a) && s[a] != '\n'
            && DigitsAt(s, a + 1, b) && s[a + 1 + b] != '\n'
            && DigitsAt(s, a + b + 2, c)
            && forall k :: a + b + c + 2 <= k < a + b + c + d + 2 ==> s[k] != '\n'
  {
    var a, b, c, d := |m.major|, |m.minor|, |m.patch|, |m.rest|;
    var t := m.Text();
    TextLayout(m);
    assert forall k :: 0 <= k < |t| ==> s[k] == t[k];
    var p := a + b + 2;
    assert s[..a] == m.major;
    assert s[a + 1..a + 1 + b] == m.minor;
    assert s[p..p + c] == m.patch;
    assert s[p + c..p + c + d] == m.rest;
  }

  /** Conversely, positions that satisfy the pattern give a match. */
  lemma SliceIsMatch(s: string, a: nat, b: nat, c: nat, d: nat)
    requires 1 <= a && 1 <= b && 1 <= c && a + b + c + d + 2 <= |s|
    requires DigitsAt(s, 0, a) && s[a] != '\n'
    requires DigitsAt(s, a + 1, b) && s[a + 1 + b] != '\n'
    requires DigitsAt(s, a + b + 2, c)
    requires forall k :: a + b + c + 2 <= k < a + b + c + d + 2 ==> s[k] != '\n'
    ensures IsMatch(s, Slice(s, a, b, c, d))
  {
    var m := Slice(s, a, b, c, d);
    var p := a + b + 2;
    assert forall k :: 0 <= k < |m.rest| ==> m.rest[k] == s[p + c + k];
    assert m.Text() == s[..a + b + c + d + 2];
  }

  /** The longest digit run bounds every run of digits at the same place. */
  lemma RunBound(s: string, i: nat, n: nat)
    requires i + n <= |s| && DigitsAt(s, i, n)
    ensures n <= DigitRun(s, i)
  {
  }

  /** A match with `major` of length `a` and `minor` of length `b` has a
      `patch` no longer than the digit run after the second dot, and when
      `patch` is that whole run, a `rest` that ends no later than the line. */
  lemma TailBounds(s: string, a: nat, b: nat, n: Match)
    requires IsMatch(s, n) && |n.major| == a && |n.minor| == b
    ensures a + b + 2 <= |s|
    ensures |n.patch| <= DigitRun(s, a + b + 2)
    ensures var pc := a + b + 2 + |n.patch|;
            pc <= |s| && pc + |n.rest| <= LineEnd(s, pc)
  {
    MatchLayout(s, n);
    RunBound(s, a + b + 2, |n.patch|);
  }

  /** The match `MatchTail` builds when the second dot is in place and
      `patch` is the non-empty digit run of length `c` after it. */
  lemma MatchTailFound(s: string, a: nat, b: nat, c: nat, d: nat)
    requires 1 <= a && 1 <= b && a + 1 + b < |s|
    requires DigitsAt(s, 0, a) && s[a] != '\n' && DigitsAt(s, a + 1, b)
    requires s[a + 1 + b] != '\n'
    requires c == DigitRun(s, a + b + 2) && c > 0
    requires a + b + 2 + c + d == LineEnd(s, a + b + 2 + c)
    ensures MatchTail(s, a, b) == Some(Slice(s, a, b, c, d))
  {
  }

  /** With the second dot in place and `patch` non-empty, `MatchTail` returns
      the best match among those with `major` of length `a` and `minor` of
      length `b`. */
  lemma MatchTailBest(s: string, a: nat, b: nat)
    requires 1 <= a && 1 <= b && a + 1 + b < |s|
    requires DigitsAt(s, 0, a) && s[a] != '\n' && DigitsAt(s, a + 1, b)
    requires s[a + 1 + b] != '\n' && DigitRun(s, a + b + 2) > 0
    ensures MatchTail(s, a, b).Some?
    ensures var m := MatchTail(s, a, b).value;
            && IsMatch(s, m) && |m.major| == a && |m.minor| == b
            && forall n :: IsMatch(s, n) && |n.major| == a && |n.minor| == b ==> !RanksAbove(n, m)
  {
    var p := a + b + 2;
    var c := DigitRun(s, p);
    var d := LineEnd(s, p + c) - (p + c);
    MatchTailFound(s, a, b, c, d);
    SliceIsMatch(s, a, b, c, d);
    var m := Slice(s, a, b, c, d);
    forall n | IsMatch(s, n) && |n.major| == a && |n.minor| == b
      ensures !RanksAbove(n, m)
    {
      TailBounds(s, a, b, n);
    }
  }

  /** `MatchTail` fails only when no match has `major` of length `a` and
      `minor` of length `b`. */
  lemma MatchTailFails(s: string, a: nat, b: nat)
    requires 1 <= a && 1 <= b && a + 1 + b <= |s|
    requires MatchTail(s, a, b).None?
    ensures forall n :: IsMatch(s, n) && |n.major| == a ==> |n.minor| != b
  {
    forall n | IsMatch(s, n) && |n.major| == a
      ensures |n.minor| != b
    {
      MatchLayout(s, n);
    }
  }

  /** `MatchTail` finds the best match among those with `major` of length
      `a` and `minor` of length `b`, and fails only when there is none. */
  lemma MatchTailCorrect(s: string, a: nat, b: nat)
    requires 1 <= a && 1 <= b && a + 1 + b <= |s|
    requires DigitsAt(s, 0, a) && s[a] != '\n' && DigitsAt(s, a + 1, b)
    ensures MatchTail(s, a, b).Some? ==>
              var m := MatchTail(s, a, b).value;
              && IsMatch(s, m) && |m.major| == a && |m.minor| == b
              && forall n :: IsMatch(s, n) && |n.major| == a && |n.minor| == b ==> !RanksAbove(n, m)
    ensures MatchTail(s, a, b).None? ==>
              forall n :: IsMatch(s, n) && |n.major| == a ==> |n.minor| != b
  {
    if MatchTail(s, a, b).None? {
      MatchTailFails(s, a, b);
    } else {
      MatchTailBest(s, a, b);
    }
  }

  /** `TryMinor` finds the best match among those with `major` of length `a`
      and `minor` at most `b` long, and fails only when there is none. */
  lemma {:induction false} TryMinorCorrect(s: string, a: nat, b: nat)
    requires 1 <= a && a + 1 + b <= |s| && b <= DigitRun(s, a + 1)
    requires DigitsAt(s, 0, a) && s[a] != '\n'
    ensures TryMinor(s, a, b).Some? ==>
              var m := TryMinor(s, a, b).value;
              && IsMatch(s, m) && |m.major| == a && |m.minor| <= b
              && forall n :: IsMatch(s, n) && |n.major| == a && |n.minor| <= b ==> !RanksAbove(n, m)
    ensures TryMinor(s, a, b).None? ==>
              forall n :: IsMatch(s, n) && |n.major| == a ==> |n.minor| > b
  {
    if b > 0 {
      MatchTailCorrect(s, a, b);
      if MatchTail(s, a, b).None? {
        TryMinorCorrect(s, a, b - 1);
      }
    }
  }

  /** `MatchMinor` finds the best match with `major` of length `a`. */
  lemma MatchMinorCorrect(s: string, a: nat)
    requires 1 <= a <= |s| && DigitsAt(s, 0, a)
    ensures MatchMinor(s, a).Some? ==>
              var m := MatchMinor(s, a).value;
              && IsMatch(s, m) && |m.major| == a
              && forall n :: IsMatch(s, n) && |n.major| == a ==> !RanksAbove(n, m)
    ensures MatchMinor(s, a).None? ==>
              forall n :: IsMatch(s, n) ==> |n.major| != a
  {
    if a < |s| && s[a] != '\n' {
      TryMinorCorrect(s, a, DigitRun(s, a + 1));
      forall n | IsMatch(s, n) && |n.major| == a
        ensures |n.minor| <= DigitRun(s, a + 1)
      {
        MatchLayout(s, n);
        RunBound(s, a + 1, |n.minor|);
      }
    } else {
      forall n | IsMatch(s, n)
        ensures |n.major| != a
      {
        MatchLayout(s, n);
      }
    }
  }

  /** `TryMajor` finds the best match among those with `major` at most `a`
      long, and fails only when there is none. */
  lemma {:induction false} TryMajorCorrect(s: string, a: nat)
    requires a <= DigitRun(s, 0)
    ensures TryMajor(s, a).Some? ==>
              var m := TryMajor(s, a).value;
              && IsMatch(s, m) && |m.major| <= a
              && forall n :: IsMatch(s, n) && |n.major| <= a ==> !RanksAbove(n, m)
    ensures TryMajor(s, a).None? ==>
              forall n :: IsMatch(s, n) ==> |n.major| > a
  {
    if a > 0 {
      MatchMinorCorrect(s, a);
      if MatchMinor(s, a).None? {
        TryMajorCorrect(s, a - 1);
      }
    }
  }

  /** `re.match(pattern, s)`: `None` exactly when the pattern matches no
      prefix of `s`, and otherwise the match the backtracking engine finds. */
  function ParseMatch(s: string): (r: Option<Match>)
    ensures r.Some? ==> IsFirstMatch(s, r.value)
    ensures r.None? <==> forall n :: !IsMatch(s, n)
  {
    TryMajorCorrect(s, DigitRun(s, 0));
    FirstMatchBoundsMajor(s);
    TryMajor(s, DigitRun(s, 0))
  }

  lemma FirstMatchBoundsMajor(s: string)
    ensures forall n :: IsMatch(s, n) ==> |n.major| <= DigitRun(s, 0)
  {
    forall n | IsMatch(s, n)
      ensures |n.major| <= DigitRun(s, 0)
    {
      MatchLayout(s, n);
      RunBound(s, 0, |n.major|);
    }
  }

  /** The groups are digit runs, the separators are neither digits nor
      newlines, and `rest` has no newline and does not start with a digit:
      the conditions under which a string is matched exactly as it was
      assembled. */
  predicate IsPlainMatch(m: Match) {
    && |m.major| >= 1 && AllDigits(m.major) && !IsDigit(m.sep1) && m.sep1 != '\n'
    && |m.minor| >= 1 && AllDigits(m.minor) && !IsDigit(m.sep2) && m.sep2 != '\n'
    && |m.patch| >= 1 && AllDigits(m.patch) && NoNewline(m.rest)
    && (m.rest == "" || !IsDigit(m.rest[0]))
  }

  lemma PlainMatchNotOutranked(m: Match, n: Match)
    requires IsPlainMatch(m) && IsMatch(m.Text(), n)
    ensures !RanksAbove(n, m)
  {
    var s := m.Text();
    assert IsMatch(s, m);
    MatchLayout(s, m);
    MatchLayout(s, n);
  }

  /** A string assembled from plain groups is matched as exactly those
      groups: with separators that are not digits, no group can grow into
      its neighbour. */
  lemma PlainMatchIsFirst(m: Match)
    requires IsPlainMatch(m)
    ensures IsFirstMatch(m.Text(), m)
  {
    forall n | IsMatch(m.Text(), n)
      ensures !RanksAbove(n, m)
    {
      PlainMatchNotOutranked(m, n);
    }
  }

  /** There is only one first match. */
  lemma FirstMatchUnique(s: string, m: Match, m': Match)
    requires IsFirstMatch(s, m) && IsFirstMatch(s, m')
    ensures m == m'
  {
    MatchLayout(s, m);
    MatchLayout(s, m');
  }

  /** `ParseMatch` returns every first match: together with its contract,
      `ParseMatch(s) == Some(m)` holds exactly when `IsFirstMatch(s, m)`. */
  lemma ParseMatchComplete(s: string, m: Match)
    requires IsFirstMatch(s, m)
    ensures ParseMatch(s) == Some(m)
  {
    FirstMatchUnique(s, m, ParseMatch(s).value);
  }

  /** `patch` is the whole run of digits at its position: a non-empty `rest`
      never starts with a digit, since moving that digit into `patch` would
      give a match that ranks higher. */
  lemma RestStartsWithNonDigit(s: string, m: Match)
    requires IsFirstMatch(s, m) && m.rest != ""
    ensures !IsDigit(m.rest[0])
  {
    if IsDigit(m.rest[0]) {
      var n := m.(patch := m.patch + [m.rest[0]], rest := m.rest[1..]);
      assert m.rest == [m.rest[0]] + m.rest[1..];
      assert n.Text() == m.Text();
      assert IsMatch(s, n);
      assert RanksAbove(n, m);
    }
  }

  /** The groups and separators of the reported match, joined, are `s` up to
      (not including) its first newline. */
  lemma MatchSpansFirstLine(s: string, m: Match)
    requires IsFirstMatch(s, m)
    ensures m.Text() == s[..LineEnd(s, 0)]
  {
    MatchLayout(s, m);
    var t := |m.Text()|;
    if t < |s| && s[t] != '\n' {
      var n := m.(rest := m.rest + [s[t]]);
      assert n.Text() == m.Text() + [s[t]] == s[..t + 1];
      assert IsMatch(s, n);
    }
  }

  /** A match never crosses a newline, so the matches of `s` are those of
      its first line. */
  lemma MatchesOfFirstLine(s: string, n: Match)
    ensures IsMatch(s, n) <==> IsMatch(s[..LineEnd(s, 0)], n)
  {
    var e := LineEnd(s, 0);
    if IsMatch(s, n) {
      MatchLayout(s, n);
      var t := |n.Text()|;
      assert n.Text() == s[..e][..t];
    }
  }

  /** Everything after the first newline is irrelevant to `re.match`. */
  lemma FirstLineDecides(s: string)
    ensures ParseMatch(s) == ParseMatch(s[..LineEnd(s, 0)])
  {
    var s' := s[..LineEnd(s, 0)];
    forall n ensures IsMatch(s, n) <==> IsMatch(s', n) {
      MatchesOfFirstLine(s, n);
    }
    if ParseMatch(s).Some? {
      ParseMatchComplete(s', ParseMatch(s).value);
    }
  }
}
