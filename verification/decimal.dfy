/** Strings of ASCII decimal digits and the two conversions Python applies to
    them here: `int(t)` on a run of digits and `str(n)` (what `"{}".format(n)`
    prints) on a non-negative integer. */
module Decimal {

  predicate IsDigit(c: char) {
    '0' <= c <= '9'
  }

  function DigitValue(c: char): (v: nat)
    requires IsDigit(c)
    ensures v < 10
  {
    c as int - '0' as int
  }

  function DigitChar(v: nat): (c: char)
    requires v < 10
    ensures IsDigit(c) && DigitValue(c) == v
  {
    ('0' as int + v) as char
  }

  predicate AllDigits(t: string) {
    forall i :: 0 <= i < |t| ==> IsDigit(t[i])
  }

  function Pow10(k: nat): (p: nat)
    ensures p >= 1
  {
    if k == 0 then 1 else 10 * Pow10(k - 1)
  }

  /** The value of a digit string, most significant digit first: Python's
      `int(t)` for a non-empty `t` of ASCII digits. A string of `k` digits
      denotes a number below `10^k`. */
  function Value(t: string): (v: nat)
    requires AllDigits(t)
    ensures v < Pow10(|t|)
  {
    if |t| == 0 then 0 else Value(t[..|t| - 1]) * 10 + DigitValue(t[|t| - 1])
  }

  /** The digit strings `str` produces: non-empty, and no leading zero unless
      the whole string is "0". */
  predicate IsCanonical(t: string) {
    |t| >= 1 && AllDigits(t) && (t[0] == '0' ==> |t| == 1)
  }

  /** Python's `str(n)` for a non-negative int. */
  function Str(n: nat): (t: string)
    ensures IsCanonical(t)
    ensures t == "0" <==> n == 0
  {
    if n < 10 then [DigitChar(n)] else Str(n / 10) + [DigitChar(n % 10)]
  }

  /** A leading zero does not change the value of a digit string. */
  lemma {:induction false} ValueIgnoresLeadingZero(t: string)
    requires AllDigits(t)
    ensures AllDigits(['0'] + t) && Value(['0'] + t) == Value(t)
  {
    var u := ['0'] + t;
    if |t| > 0 {
      assert u[..|u| - 1] == ['0'] + t[..|t| - 1];
      ValueIgnoresLeadingZero(t[..|t| - 1]);
    } else {
      assert u[..|u| - 1] == [];
    }
  }

  /** `t` with every leading zero removed, except that one zero is kept when
      nothing else remains. */
  function StripLeadingZeros(t: string): (r: string)
    requires |t| >= 1 && AllDigits(t)
    ensures IsCanonical(r) && Value(r) == Value(t)
    ensures |r| <= |t| && r == t[|t| - |r|..]
  {
    if |t| > 1 && t[0] == '0' then
      assert t == ['0'] + t[1..];
      ValueIgnoresLeadingZero(t[1..]);
      StripLeadingZeros(t[1..])
    else
      t
  }

  /** `int(str(n)) == n`. */
  lemma {:induction false} ValueOfStr(n: nat)
    ensures Value(Str(n)) == n
  {
    var t := Str(n);
    if n < 10 {
      assert t[..|t| - 1] == [];
    } else {
      assert t[..|t| - 1] == Str(n / 10);
      ValueOfStr(n / 10);
    }
  }

  /** A digit string without a leading zero has a positive value. */
  lemma {:induction false} ValuePositive(t: string)
    requires |t| >= 1 && AllDigits(t) && t[0] != '0'
    ensures Value(t) >= 1
  {
    if |t| > 1 {
      var p := t[..|t| - 1];
      assert p[0] == t[0];
      ValuePositive(p);
    }
  }

  /** `str(int(t)) == t` for every string `str` can produce. */
  lemma {:induction false} StrOfValue(t: string)
    requires IsCanonical(t)
    ensures Str(Value(t)) == t
  {
    var v := Value(t);
    if |t| == 1 {
      assert t[..0] == [];
      assert Str(v) == [DigitChar(DigitValue(t[0]))];
    } else {
      var p := t[..|t| - 1];
      assert p[0] == t[0];
      ValuePositive(p);
      StrOfValue(p);
      assert v / 10 == Value(p) && v % 10 == DigitValue(t[|t| - 1]);
      assert t == p + [t[|t| - 1]];
    }
  }

  /** `int` forgets exactly the leading zeros of a digit group: printing the
      parsed value gives back the group without them. */
  lemma IntDropsOnlyLeadingZeros(t: string)
    requires |t| >= 1 && AllDigits(t)
    ensures Str(Value(t)) == StripLeadingZeros(t)
  {
    StrOfValue(StripLeadingZeros(t));
  }
}
