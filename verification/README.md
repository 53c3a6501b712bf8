# alpaca_kernel version metadata

A model of the `alpaca_kernel._version` module of the ALPACA Jupyter kernel.
When the module is imported it computes four names:

- `__version__`: the contents of the package's VERSION file with the
  surrounding whitespace stripped.
- `version_info`: the tuple parsed from `__version__` with `re.match`. The
  pattern has three `\d+` groups (`major`, `minor`, `patch`) and a trailing
  `.*` group (`rest`). Each group of digits becomes an `int`, and `rest` is
  appended when it is non-empty. The import fails with an `AssertionError`
  when the pattern does not match.
- `kernel_protocol_version_info`: the pair `(5, 3)`.
- `kernel_protocol_version`: that pair joined with a dot, `"5.3"`.

The model is in four modules:

- `Decimal` models `int()` of a digit string and `str()` of a non-negative
  integer, and their round trips.
- `Whitespace` models `str.strip()` and gives it a characterisation that does
  not depend on how it is computed: the unique "cut" of the string that has
  no whitespace at either end.
- `VersionPattern` models `re.match` of the version pattern.
  - `IsMatch` and `RanksAbove` describe, independently of any search
    procedure, every way the pattern can match a prefix and the order in
    which Python's backtracking engine prefers them.
  - `IsFirstMatch` is the match the engine reports.
  - `ParseMatch` follows the engine's order of attempts and is proved to
    return exactly that match.
  - Neither dot in the pattern is escaped, so each stands for any character
    other than a newline, a digit included. That is why `"1.234"` parses as
    `(1, 2, 4)` and `"12345"` as `(1, 3, 5)`.
- `Version` models `version_info`, `kernel_protocol_version` and the whole
  import, as `ImportVersionModule`. `None` stands for the failed import.

`Wrappers` holds the `Option` type.

## Model

| member | source | states |
|---|---|---|
| Whitespace.Strip | alpaca_kernel/_version.py:13 | the result has no whitespace (as `str.isspace` defines it) at either end, and is obtained from the input by removing only whitespace before and after it |
| Whitespace.StripIsUnique | alpaca_kernel/_version.py:13 | any piece of the input that is cut out by removing only surrounding whitespace and has no whitespace at its ends is the result of `strip` |
| Whitespace.StripKeepsUnpadded | alpaca_kernel/_version.py:13 | a string with no whitespace at either end is unchanged by `strip` |
| Whitespace.StripIdempotent | alpaca_kernel/_version.py:13 | stripping twice is stripping once |
| Whitespace.StripIgnoresPadding | alpaca_kernel/_version.py:13 | adding whitespace on either side of a string does not change its stripped form |
| VersionPattern.ParseMatch | alpaca_kernel/_version.py:19-21 | `re.match` yields no match exactly when no prefix of the string matches the pattern; otherwise it yields the match that no other match outranks in the engine's order of preference |
| VersionPattern.TryMajorCorrect | alpaca_kernel/_version.py:19-20 | trying `major` from length `a` down to 1 finds the best match with `major` at most `a` digits long, and fails only when every match has a longer `major` |
| VersionPattern.MatchMinorCorrect | alpaca_kernel/_version.py:19-20 | with `major` fixed at `a` digits, the first dot and the attempts on `minor` find the best match with that `major`, and fail only when there is no such match |
| VersionPattern.TryMinorCorrect | alpaca_kernel/_version.py:19-20 | trying `minor` from length `b` down to 1 finds the best match with `minor` at most `b` digits long, and fails only when every match with this `major` has a longer `minor` |
| VersionPattern.MatchTailCorrect | alpaca_kernel/_version.py:19-20 | with `major` and `minor` fixed, taking the second dot, the longest digit run as `patch` and the rest of the line as `rest` gives the best match with those two groups, and fails only when there is none |
| VersionPattern.FirstMatchUnique | alpaca_kernel/_version.py:19-20 | two matches that are both unbeaten in the engine's order are equal |
| VersionPattern.ParseMatchComplete | alpaca_kernel/_version.py:19-20 | every unbeaten match is the one `re.match` returns, so `ParseMatch` returns `m` exactly when `m` is unbeaten |
| VersionPattern.RestStartsWithNonDigit | alpaca_kernel/_version.py:19 | a non-empty `rest` of the reported match does not start with a digit, because the greedy `patch` takes the whole digit run |
| VersionPattern.MatchSpansFirstLine | alpaca_kernel/_version.py:19-20 | the groups and separators of the reported match, joined, are exactly the string up to its first newline |
| VersionPattern.MatchesOfFirstLine | alpaca_kernel/_version.py:19-20 | a match never crosses a newline: the matches of a string are the matches of its first line |
| VersionPattern.FirstLineDecides | alpaca_kernel/_version.py:19-20 | `re.match` gives the same result on a string and on its first line |
| VersionPattern.PlainMatchIsFirst | alpaca_kernel/_version.py:19 | a string assembled from digit groups, non-digit separators and a suffix that does not start with a digit is matched as exactly those parts |
| Decimal.Str | alpaca_kernel/_version.py:28 | `str()` of a non-negative integer is a non-empty digit string with no leading zero, and it is `"0"` exactly for zero |
| Decimal.ValueOfStr | alpaca_kernel/_version.py:28 | `int(str(n)) == n` |
| Decimal.StrOfValue | alpaca_kernel/_version.py:22 | `str(int(t)) == t` for a digit string without a leading zero |
| Decimal.StripLeadingZeros | alpaca_kernel/_version.py:22 | removing the leading zeros of a digit string, keeping one zero when nothing else remains, gives a suffix of it with no leading zero and the same `int` value |
| Decimal.IntDropsOnlyLeadingZeros | alpaca_kernel/_version.py:22 | `int()` of a digit group loses its leading zeros and nothing else: `str(int(t))` is `t` without them |
| Decimal.Value | alpaca_kernel/_version.py:22 | `int()` of a digit string: a number below `10^k` for `k` digits. It is tied to `str()` by the round trips `ValueOfStr` and `StrOfValue` |
| Version.ToVersionInfo | alpaca_kernel/_version.py:22-25 | the tuple built from a match: `int` of `major`, `minor` and `patch`, followed by `rest` as a fourth element exactly when `rest` is non-empty |
| Version.ParseVersion | alpaca_kernel/_version.py:19-25 | `version_info` is missing exactly when the pattern matches no prefix; otherwise it is three integers, plus a fourth element only if the suffix is non-empty, and that suffix has no newline and does not start with a digit |
| Version.ParseVersionOfFirstMatch | alpaca_kernel/_version.py:22-25 | for the reported match, the three integers are the `int` values of `major`, `minor` and `patch`; the tuple has four elements exactly when `rest` is non-empty, and the fourth is `rest` itself |
| Version.PlainParse | alpaca_kernel/_version.py:19-25 | a string assembled from plain parts parses to the values of those parts |
| Version.ParseRender | alpaca_kernel/_version.py:19-25 | every well-formed tuple is what parsing its dotted spelling yields, so the well-formed tuples are exactly the possible values of `version_info` |
| Version.RenderedFirstLine | alpaca_kernel/_version.py:19-25 | a version string whose first line spells out a tuple parses to that tuple, whatever follows the newline |
| Version.PlainExample | alpaca_kernel/_version.py:19-25 | `"1.2.3"` gives `(1, 2, 3)` |
| Version.SuffixExample | alpaca_kernel/_version.py:22-25 | `"0.10.2rc1"` gives `(0, 10, 2, "rc1")` |
| Version.LeadingZerosExample | alpaca_kernel/_version.py:22 | `"01.02.003"` gives `(1, 2, 3)` |
| Version.DigitSeparatorExample | alpaca_kernel/_version.py:19-20 | `"1.234"` gives `(1, 2, 4)`: the second unescaped dot consumes the `3` |
| Version.AllDigitsExample | alpaca_kernel/_version.py:19-20 | `"12345"` gives `(1, 3, 5)`: both dots consume digits |
| Version.NewlineExample | alpaca_kernel/_version.py:19-24 | `"1.2.3-dev\nbuild"` gives `(1, 2, 3, "-dev")`: `rest` stops at the newline |
| Version.RejectedExamples | alpaca_kernel/_version.py:20-21 | `"1.2"` and `"v1.2.3"` fail the assertion |
| Version.FormatDottedSplits | alpaca_kernel/_version.py:28 | the dot-joined form of two numbers has its first dot right after the first number, and `int` of each side gives back the two numbers |
| Version.KernelProtocolVersion | alpaca_kernel/_version.py:27-28 | the protocol version string is `"5.3"` |
| Version.ImportVersionModule | alpaca_kernel/_version.py:13-28 | the import fails exactly when the stripped file contents have no match; otherwise `__version__` has no surrounding whitespace, `version_info` is well formed and `kernel_protocol_version` is `"5.3"` |
| Version.ImportIgnoresPadding | alpaca_kernel/_version.py:13-16 | whitespace around the VERSION file's contents changes nothing in the imported module |
| Version.ImportPadded | alpaca_kernel/_version.py:13-28 | a VERSION file holding a version string between whitespace imports with that string as `__version__` and its parse as `version_info` |
| Version.ImportExample | alpaca_kernel/_version.py:13-28 | a VERSION file holding `"0.10.2rc1\n"` gives `__version__ == "0.10.2rc1"` and `version_info == (0, 10, 2, "rc1")` |

## Left out

- Reading the VERSION file (alpaca_kernel/_version.py:9-12): finding the path relative to the module and reading the file are I/O. The parameter of `ImportVersionModule` is the text `f.read()` returns. That text has already been through text mode's newline translation, which turns `\r\n` and `\r` into `\n`. The translation itself, and UTF-8 decoding, are not modelled. So a file holding `1.2.3\r4` must be given as `1.2.3\n4`.
- setup.py: it is packaging glue around the build tool and is not part of this model.
- Decimal.IsDigit: Python 3's `\d` on a `str` pattern matches every Unicode decimal digit, and `int()` accepts them. The model recognises the ASCII digits `0`-`9` only, so strings holding other decimal digits are not modelled faithfully.
- Running Python with `-O` removes the `assert` (line 21). Without it, a failed match raises a `TypeError` at line 22 instead of an `AssertionError`. Both failures are modelled as the same `None`.
- Decimal.Value: it also gives 0 for the empty string, where `int("")` raises. The parse only ever applies it to non-empty digit groups.
- Decimal.Value: it has no limit on the number of digits. Since Python 3.11, and in security releases of 3.7-3.10, `int()` of a decimal string longer than `sys.get_int_max_str_digits()` digits (4300 by default) raises `ValueError`.
- Version.ParseVersion: it returns `Some` for a version string with a digit group longer than that limit, where line 22 raises and the import fails. Its "`None` exactly when nothing matches" holds only for groups within the limit.
- Version.ImportVersionModule: for the same reason, it returns `Some` where the import fails on a digit group longer than the limit.
- `version_info` is a Python `tuple` mixing `int` and `str`. It is modelled as a sequence of `Part` values, and Python's unbounded `int` as `nat`.
