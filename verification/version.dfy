/** The `_version` module of the kernel package: `__version__` is the
    stripped contents of the VERSION file, `version_info` the tuple parsed
    from it, and `kernel_protocol_version` the dotted form of the protocol
    version pair. Importing the module fails (its `assert` raises) when the
    version string does not match the pattern. */
module Version {
  import opened Wrappers
  import opened Decimal
  import opened Whitespace
  import opened VersionPattern

  /** One element of the `version_info` tuple: an integer component or the
      string suffix. */
  datatype Part = Num(n: nat) | Suffix(text: string)

  /** The `version_info` tuple. */
  type VersionInfo = seq<Part>

  /** The tuples `version_info` can hold: three integers, optionally followed
      by a non-empty suffix that has no newline and does not start with a
      digit. */
  predicate WellFormed(v: VersionInfo) {
    && (|v| == 3 || |v| == 4)
    && v[0].Num? && v[1].Num? && v[2].Num?
    && (|v| == 4 ==> v[3].Suffix? && v[3].text != "" && NoNewline(v[3].text)
                     && !IsDigit(v[3].text[0]))
  }

  /** The tuple built from a match: `int` of each digit group, then `rest`
      when it is a non-empty string. */
  function ToVersionInfo(m: Match): (v: VersionInfo)
    requires AllDigits(m.major) && AllDigits(m.minor) && AllDigits(m.patch)
    ensures |v| == (if m.rest == "" then 3 else 4)
    ensures v[0] == Num(Value(m.major)) && v[1] == Num(Value(m.minor)) && v[2] == Num(Value(m.patch))
    ensures |v| == 4 ==> v[3] == Suffix(m.rest)
  {
    [Num(Value(m.major)), Num(Value(m.minor)), Num(Value(m.patch))]
      + (if m.rest != "" then [Suffix(m.rest)] else [])
  }

  /** `version_info` for the version string `s`, or `None` where the module's
      assertion that the pattern matched fails. */
  function ParseVersion(s: string): (r: Option<VersionInfo>)
    ensures r.None? <==> forall m :: !IsMatch(s, m)
    ensures r.Some? ==> WellFormed(r.value)
  {
    match ParseMatch(s)
    case None => None
    case Some(m) =>
      assert m.rest != "" ==> !IsDigit(m.rest[0]) by {
        if m.rest != "" { RestStartsWithNonDigit(s, m); }
      }
      Some(ToVersionInfo(m))
  }

  /** `ParseVersion` in terms of the match `re.match` reports: the three
      integers are the values of the digit groups (so any leading zeros are
      lost), and the tuple has a fourth element, the suffix itself, exactly
      when the suffix is non-empty. */
  lemma ParseVersionOfFirstMatch(s: string, m: Match)
    requires IsFirstMatch(s, m)
    ensures ParseVersion(s) == Some(ToVersionInfo(m))
    ensures var v := ParseVersion(s).value;
            && v[..3] == [Num(Value(m.major)), Num(Value(m.minor)), Num(Value(m.patch))]
            && (|v| == 3 <==> m.rest == "")
            && (|v| == 4 <==> m.rest != "")
            && (|v| == 4 ==> v[3] == Suffix(m.rest))
  {
    ParseMatchComplete(s, m);
  }

  /** A string assembled from plain groups parses to those groups' values. */
  lemma PlainParse(m: Match)
    requires IsPlainMatch(m)
    ensures ParseVersion(m.Text()) == Some(ToVersionInfo(m))
  {
    PlainMatchIsFirst(m);
    ParseVersionOfFirstMatch(m.Text(), m);
  }

  /** The version string a well-formed tuple spells out with dots. */
  function Render(v: VersionInfo): string
    requires WellFormed(v)
  {
    Str(v[0].n) + "." + Str(v[1].n) + "." + Str(v[2].n) + (if |v| == 4 then v[3].text else "")
  }

  /** Every well-formed tuple is what `ParseVersion` makes of its dotted
      spelling, so `WellFormed` is exactly the set of possible results. */
  lemma ParseRender(v: VersionInfo)
    requires WellFormed(v)
    ensures ParseVersion(Render(v)) == Some(v)
  {
    var rest := if |v| == 4 then v[3].text else "";
    var m := Match(Str(v[0].n), '.', Str(v[1].n), '.', Str(v[2].n), rest);
    var s := Render(v);
    assert m.Text() == s;
    PlainMatchIsFirst(m);
    ParseMatchComplete(s, m);
    RenderedGroups(v, m);
  }

  lemma RenderedGroups(v: VersionInfo, m: Match)
    requires WellFormed(v)
    requires m == Match(Str(v[0].n), '.', Str(v[1].n), '.', Str(v[2].n),
                        if |v| == 4 then v[3].text else "")
    ensures ToVersionInfo(m) == v
  {
    ValueOfStr(v[0].n);
    ValueOfStr(v[1].n);
    ValueOfStr(v[2].n);
    if |v| == 3 {
      assert v == [Num(v[0].n), Num(v[1].n), Num(v[2].n)];
    } else {
      assert v == [Num(v[0].n), Num(v[1].n), Num(v[2].n), Suffix(v[3].text)];
    }
  }

  /** Only the first line of the version string affects `version_info`: a
      string whose first line spells out `v` parses to `v`. */
  lemma RenderedFirstLine(s: string, v: VersionInfo)
    requires WellFormed(v) && s[..LineEnd(s, 0)] == Render(v)
    ensures ParseVersion(s) == Some(v)
  {
    FirstLineDecides(s);
    ParseRender(v);
  }

  /** Dot-separated strings parse as expected. */
  lemma PlainExample()
    ensures ParseVersion("1.2.3") == Some([Num(1), Num(2), Num(3)])
  {
    var v := [Num(1), Num(2), Num(3)];
    assert Render(v) == "1.2.3";
    ParseRender(v);
  }

  /** A suffix becomes the fourth element. */
  lemma SuffixExample()
    ensures ParseVersion("0.10.2rc1") == Some([Num(0), Num(10), Num(2), Suffix("rc1")])
  {
    var v := [Num(0), Num(10), Num(2), Suffix("rc1")];
    assert Str(10) == "10";
    assert Render(v) == "0.10.2rc1";
    ParseRender(v);
  }

  /** `int` loses leading zeros. */
  lemma LeadingZerosExample()
    ensures ParseVersion("01.02.003") == Some([Num(1), Num(2), Num(3)])
  {
    var m := Match("01", '.', "02", '.', "003", "");
    assert m.Text() == "01.02.003";
    PlainParse(m);
    assert ToVersionInfo(m) == [Num(1), Num(2), Num(3)] by {
      assert "01"[..1] == "0" && "02"[..1] == "0" && "003"[..2] == "00" && "00"[..1] == "0";
      assert "0"[..0] == [];
      assert Value("01") == 1 && Value("02") == 2 && Value("003") == 3;
    }
  }

  /** The second dot consumes a digit: `"1.234"` is `(1, 2, 4)`. */
  lemma DigitSeparatorExample()
    ensures ParseVersion("1.234") == Some([Num(1), Num(2), Num(4)])
  {
    var s := "1.234";
    var m := Match("1", '.', "2", '3', "4", "");
    assert DigitRun(s, 5) == 0 && DigitRun(s, 4) == 1 && DigitRun(s, 3) == 2 && DigitRun(s, 2) == 3;
    assert DigitRun(s, 1) == 0 && DigitRun(s, 0) == 1;
    assert MatchTail(s, 1, 3) == None;
    assert MatchTail(s, 1, 2) == None;
    assert LineEnd(s, 5) == 5;
    assert s[..1] == "1" && s[2..3] == "2" && s[4..5] == "4" && s[5..5] == "";
    assert MatchTail(s, 1, 1) == Some(m);
    assert ParseMatch(s) == Some(m);
    assert "1"[..0] == [] && "2"[..0] == [] && "4"[..0] == [];
    assert ToVersionInfo(m) == [Num(1), Num(2), Num(4)];
  }

  /** Both dots consume digits: `"12345"` is `(1, 3, 5)`. */
  lemma AllDigitsExample()
    ensures ParseVersion("12345") == Some([Num(1), Num(3), Num(5)])
  {
    var s := "12345";
    var m := Match("1", '2', "3", '4', "5", "");
    assert DigitRun(s, 5) == 0 && DigitRun(s, 4) == 1 && DigitRun(s, 3) == 2;
    assert DigitRun(s, 2) == 3 && DigitRun(s, 1) == 4 && DigitRun(s, 0) == 5;
    assert MatchMinor(s, 5) == None;
    assert MatchMinor(s, 4) == None;
    assert MatchTail(s, 3, 1) == None;
    assert MatchMinor(s, 3) == None;
    assert MatchTail(s, 2, 2) == None;
    assert MatchTail(s, 2, 1) == None;
    assert MatchMinor(s, 2) == None;
    assert MatchTail(s, 1, 3) == None;
    assert MatchTail(s, 1, 2) == None;
    assert LineEnd(s, 5) == 5;
    assert s[..1] == "1" && s[2..3] == "3" && s[4..5] == "5" && s[5..5] == "";
    assert MatchTail(s, 1, 1) == Some(m);
    assert ParseMatch(s) == Some(m);
    assert "1"[..0] == [] && "3"[..0] == [] && "5"[..0] == [];
    assert ToVersionInfo(m) == [Num(1), Num(3), Num(5)];
  }

  /** `rest` ends at the first newline. */
  lemma NewlineExample()
    ensures ParseVersion("1.2.3-dev\nbuild") == Some([Num(1), Num(2), Num(3), Suffix("-dev")])
  {
    var s := "1.2.3-dev\nbuild";
    var v := [Num(1), Num(2), Num(3), Suffix("-dev")];
    assert s[..LineEnd(s, 0)] == Render(v) by {
      assert LineEnd(s, 0) == 9;
    }
    RenderedFirstLine(s, v);
  }

  /** Strings the pattern does not match: too few groups, or a leading
      character that is not a digit. */
  lemma RejectedExamples()
    ensures ParseVersion("1.2").None?
    ensures ParseVersion("v1.2.3").None?
  {
    var s := "1.2";
    assert DigitRun(s, 3) == 0 && DigitRun(s, 2) == 1 && DigitRun(s, 1) == 0 && DigitRun(s, 0) == 1;
    assert MatchTail(s, 1, 1) == None;
    assert ParseMatch(s) == None;
    assert DigitRun("v1.2.3", 0) == 0;
  }

  /** `kernel_protocol_version_info`. */
  const KernelProtocolVersionInfo: seq<nat> := [5, 3]

  /** `"{}.{}".format(x, y)`. */
  function FormatDotted(x: nat, y: nat): string {
    Str(x) + "." + Str(y)
  }

  /** The dotted form keeps both numbers: cutting it at the first dot and
      reading each side with `int` gives them back. */
  lemma FormatDottedSplits(x: nat, y: nat)
    ensures var t, i := FormatDotted(x, y), |Str(x)|;
            && i < |t| && t[i] == '.' && (forall k :: 0 <= k < i ==> t[k] != '.')
            && AllDigits(t[..i]) && Value(t[..i]) == x
            && AllDigits(t[i + 1..]) && Value(t[i + 1..]) == y
  {
    var t, i := FormatDotted(x, y), |Str(x)|;
    assert t[..i] == Str(x) && t[i + 1..] == Str(y);
    assert forall k :: 0 <= k < i ==> t[k] == Str(x)[k] && IsDigit(t[k]);
    ValueOfStr(x);
    ValueOfStr(y);
  }

  /** `kernel_protocol_version`. */
  function KernelProtocolVersion(): (r: string)
    ensures r == "5.3"
  {
    FormatDotted(KernelProtocolVersionInfo[0], KernelProtocolVersionInfo[1])
  }

  /** The module-level names `_version` defines. */
  datatype VersionModule = VersionModule(
    version: string,
    versionInfo: VersionInfo,
    kernelProtocolVersionInfo: seq<nat>,
    kernelProtocolVersion: string)

  /** Importing `_version` when reading the VERSION file returns `contents`:
      the text `f.read()` yields in text mode, after its translation of
      `\r\n` and `\r` to `\n`. `None` stands for the `AssertionError` raised
      when the pattern does not match. Reading the file is outside the model. */
  function ImportVersionModule(contents: string): (r: Option<VersionModule>)
    ensures r.None? <==> forall m :: !IsMatch(Strip(contents), m)
    ensures r.Some? ==>
              && NoOuterSpace(r.value.version)
              && WellFormed(r.value.versionInfo)
              && r.value.kernelProtocolVersion == "5.3"
  {
    var version := Strip(contents);
    match ParseVersion(version)
    case None => None
    case Some(info) =>
      Some(VersionModule(version, info, KernelProtocolVersionInfo, KernelProtocolVersion()))
  }

  /** Whitespace around the contents of the VERSION file, such as the usual
      final newline, changes nothing. */
  lemma ImportIgnoresPadding(w1: string, contents: string, w2: string)
    requires AllSpace(w1) && AllSpace(w2)
    ensures ImportVersionModule(w1 + contents + w2) == ImportVersionModule(contents)
  {
    StripIgnoresPadding(w1, contents, w2);
  }

  /** A VERSION file holding a version string between whitespace imports
      with that string as `__version__`. */
  lemma ImportPadded(w1: string, t: string, w2: string, v: VersionInfo)
    requires AllSpace(w1) && AllSpace(w2) && NoOuterSpace(t) && ParseVersion(t) == Some(v)
    ensures ImportVersionModule(w1 + t + w2) == Some(VersionModule(t, v, [5, 3], "5.3"))
  {
    StripIgnoresPadding(w1, t, w2);
    StripKeepsUnpadded(t);
  }

  /** A VERSION file holding a release-candidate version and a final newline. */
  lemma ImportExample()
    ensures ImportVersionModule("0.10.2rc1\n") ==
            Some(VersionModule("0.10.2rc1", [Num(0), Num(10), Num(2), Suffix("rc1")], [5, 3], "5.3"))
  {
    var t := "0.10.2rc1";
    assert [] + t + "\n" == "0.10.2rc1\n";
    assert NoOuterSpace(t) && AllSpace("\n") by {
      assert t[0] == '0' && t[|t| - 1] == '1';
    }
    SuffixExample();
    ImportPadded([], t, "\n", [Num(0), Num(10), Num(2), Suffix("rc1")]);
  }
}
