/** The harness's duration text `<H>H-<M>M-<S>S-<u>us` (optionally behind a
    `TOTAL: ` label) and its conversion to and from a microsecond count
    (`strptime` / `strftime` in tests/auto_test.py). A digit is any Unicode
    decimal digit, as for Python's `\d` and `int` on `str`; rendered text
    uses ASCII digits. */
module DurationCodec {
  import opened Wrappers

  const LABEL: string := "TOTAL: "
  const MICROS_PER_SECOND: nat := 1000000
  /** The literal text after each of the four `(\d+)` groups of the pattern. */
  const SEPARATORS: seq<string> := ["H-", "M-", "S-", "us"]

  /** The zero of the block of ten Unicode decimal digits (general
      category Nd, Unicode 15.0) that `n` would belong to: the last block
      zero at or below `n`, and the ASCII `0` below that. Python's `\d` on
      `str` matches the 680 characters of these 68 blocks, and `int` gives
      each its distance from its block's zero. */
  function BlockZero(n: int): (z: int)
    ensures 0x30 <= z && (n >= 0x30 ==> z <= n)
  {
    if n >= 0x1FBF0 then 0x1FBF0
    else if n >= 0x1E950 then 0x1E950
    else if n >= 0x1E4F0 then 0x1E4F0
    else if n >= 0x1E2F0 then 0x1E2F0
    else if n >= 0x1E140 then 0x1E140
    else if n >= 0x1D7F6 then 0x1D7F6
    else if n >= 0x1D7EC then 0x1D7EC
    else if n >= 0x1D7E2 then 0x1D7E2
    else if n >= 0x1D7D8 then 0x1D7D8
    else if n >= 0x1D7CE then 0x1D7CE
    else if n >= 0x16B50 then 0x16B50
    else if n >= 0x16AC0 then 0x16AC0
    else if n >= 0x16A60 then 0x16A60
    else if n >= 0x11F50 then 0x11F50
    else if n >= 0x11DA0 then 0x11DA0
    else if n >= 0x11D50 then 0x11D50
    else if n >= 0x11C50 then 0x11C50
    else if n >= 0x11950 then 0x11950
    else if n >= 0x118E0 then 0x118E0
    else if n >= 0x11730 then 0x11730
    else if n >= 0x116C0 then 0x116C0
    else if n >= 0x11650 then 0x11650
    else if n >= 0x114D0 then 0x114D0
    else if n >= 0x11450 then 0x11450
    else if n >= 0x112F0 then 0x112F0
    else if n >= 0x111D0 then 0x111D0
    else if n >= 0x11136 then 0x11136
    else if n >= 0x110F0 then 0x110F0
    else if n >= 0x11066 then 0x11066
    else if n >= 0x10D30 then 0x10D30
    else if n >= 0x104A0 then 0x104A0
    else if n >= 0xFF10 then 0xFF10
    else if n >= 0xABF0 then 0xABF0
    else if n >= 0xAA50 then 0xAA50
    else if n >= 0xA9F0 then 0xA9F0
    else if n >= 0xA9D0 then 0xA9D0
    else if n >= 0xA900 then 0xA900
    else if n >= 0xA8D0 then 0xA8D0
    else if n >= 0xA620 then 0xA620
    else if n >= 0x1C50 then 0x1C50
    else if n >= 0x1C40 then 0x1C40
    else if n >= 0x1BB0 then 0x1BB0
    else if n >= 0x1B50 then 0x1B50
    else if n >= 0x1A90 then 0x1A90
    else if n >= 0x1A80 then 0x1A80
    else if n >= 0x19D0 then 0x19D0
    else if n >= 0x1946 then 0x1946
    else if n >= 0x1810 then 0x1810
    else if n >= 0x17E0 then 0x17E0
    else if n >= 0x1090 then 0x1090
    else if n >= 0x1040 then 0x1040
    else if n >= 0xF20 then 0xF20
    else if n >= 0xED0 then 0xED0
    else if n >= 0xE50 then 0xE50
    else if n >= 0xDE6 then 0xDE6
    else if n >= 0xD66 then 0xD66
    else if n >= 0xCE6 then 0xCE6
    else if n >= 0xC66 then 0xC66
    else if n >= 0xBE6 then 0xBE6
    else if n >= 0xB66 then 0xB66
    else if n >= 0xAE6 then 0xAE6
    else if n >= 0xA66 then 0xA66
    else if n >= 0x9E6 then 0x9E6
    else if n >= 0x966 then 0x966
    else if n >= 0x7C0 then 0x7C0
    else if n >= 0x6F0 then 0x6F0
    else if n >= 0x660 then 0x660
    else 0x30
  }

  /** A Unicode decimal digit. */
  predicate IsDigit(c: char) { c as int >= 0x30 && c as int - BlockZero(c as int) < 10 }

  predicate AllDigits(s: string) { forall k :: 0 <= k < |s| ==> IsDigit(s[k]) }

  /** Among ASCII characters the digits are `0` to `9`, with their usual
      values; `\u0663`, the Arabic-Indic three, is a digit of value 3. */
  lemma AsciiDigits(c: char)
    requires c as int < 0x80
    ensures IsDigit(c) <==> '0' <= c <= '9'
    ensures IsDigit(c) ==> DigitValue(c) == c as int - '0' as int
    ensures IsDigit('\U{663}') && DigitValue('\U{663}') == 3
  {
  }

  /** The value of a decimal digit. */
  function DigitValue(c: char): (d: nat)
    requires IsDigit(c)
    ensures d < 10 && (c as int - d) == BlockZero(c as int)
  {
    c as int - BlockZero(c as int)
  }

  function DigitChar(d: nat): (c: char)
    requires d < 10
    ensures IsDigit(c) && DigitValue(c) == d
  {
    ('0' as int + d) as char
  }

  /** The number a run of decimal digits denotes (Python's `int`). */
  function DecimalValue(s: string): nat
    requires AllDigits(s)
  {
    if |s| == 0 then 0 else DecimalValue(s[..|s| - 1]) * 10 + DigitValue(s[|s| - 1])
  }

  /** Python's `str` of a non-negative integer: no sign, no leading zeros. */
  function NatToString(n: nat): (s: string)
    ensures |s| >= 1 && AllDigits(s)
    ensures DecimalValue(s) == n
  {
    if n < 10 then [DigitChar(n)]
    else
      var p := NatToString(n / 10);
      var s := p + [DigitChar(n % 10)];
      assert s[..|s| - 1] == p;
      s
  }

  /** The end of the longest run of digits that starts at `i`. */
  function DigitRun(s: string, i: nat): (j: nat)
    requires i <= |s|
    ensures i <= j <= |s|
    ensures AllDigits(s[i..j])
    ensures j == |s| || !IsDigit(s[j])
    decreases |s| - i
  {
    if i < |s| && IsDigit(s[i]) then
      var j := DigitRun(s, i + 1);
      assert s[i..j] == [s[i]] + s[i + 1..j];
      j
    else i
  }

  /** Digit groups, each non-empty. */
  predicate ValidGroups(ds: seq<string>)
  {
    forall k :: 0 <= k < |ds| ==> |ds[k]| > 0 && AllDigits(ds[k])
  }

  /** Groups interleaved with their separators. */
  function Render(ds: seq<string>, seps: seq<string>): string
    requires |ds| == |seps|
  {
    if |ds| == 0 then [] else ds[0] + seps[0] + Render(ds[1..], seps[1..])
  }

  /** The value of the four groups hours, minutes, seconds, microseconds. */
  function Micros(ds: seq<string>): nat
    requires |ds| == 4 && ValidGroups(ds)
  {
    (DecimalValue(ds[0]) * 3600 + DecimalValue(ds[1]) * 60 + DecimalValue(ds[2]))
      * MICROS_PER_SECOND + DecimalValue(ds[3])
  }

  /** Where the pattern match starts: after the label when there is one. */
  function Start(s: string): nat
  {
    if LABEL <= s then |LABEL| else 0
  }

  lemma PrefixJoin(s: string, i: nat, k: nat, a: string, b: string)
    requires i <= k <= |s| && s[i..k] == a && b <= s[k..]
    ensures a + b <= s[i..]
  {
    assert s[i..] == s[i..k] + s[k..];
  }

  /** The text at `j` begins with `sep`. */
  predicate SeparatorAt(s: string, j: nat, sep: string)
  {
    j + |sep| <= |s| && s[j..j + |sep|] == sep
  }

  /** `\d+` groups each followed by its separator, matched greedily from `i`
      the way `re.match` reads the pattern. */
  function MatchGroups(s: string, i: nat, seps: seq<string>): (r: Option<seq<string>>)
    requires i <= |s|
    ensures r.Some? ==> |r.value| == |seps|
    decreases |seps|
  {
    if |seps| == 0 then Some([])
    else
      var j := DigitRun(s, i);
      if j == i || !SeparatorAt(s, j, seps[0]) then None
      else
        match MatchGroups(s, j + |seps[0]|, seps[1..])
        case None => None
        case Some(rest) => Some([s[i..j]] + rest)
  }

  /** Every matched group is a non-empty run of digits. */
  lemma {:induction false} MatchGroupsValid(s: string, i: nat, seps: seq<string>)
    requires i <= |s| && MatchGroups(s, i, seps).Some?
    ensures ValidGroups(MatchGroups(s, i, seps).value)
    decreases |seps|
  {
    if |seps| > 0 {
      var j := DigitRun(s, i);
      var k := j + |seps[0]|;
      var ds := MatchGroups(s, i, seps).value;
      var rest := MatchGroups(s, k, seps[1..]).value;
      MatchGroupsValid(s, k, seps[1..]);
      assert ds == [s[i..j]] + rest;
      forall m | 0 <= m < |ds| ensures |ds[m]| > 0 && AllDigits(ds[m]) {
        if m > 0 { assert ds[m] == rest[m - 1]; }
      }
    }
  }

  /** Soundness: a successful match is exactly a prefix of the text. */
  lemma {:induction false} MatchGroupsSound(s: string, i: nat, seps: seq<string>)
    requires i <= |s| && MatchGroups(s, i, seps).Some?
    ensures Render(MatchGroups(s, i, seps).value, seps) <= s[i..]
    decreases |seps|
  {
    if |seps| > 0 {
      var j := DigitRun(s, i);
      var k := j + |seps[0]|;
      var ds := MatchGroups(s, i, seps).value;
      var rest := MatchGroups(s, k, seps[1..]).value;
      assert ds == [s[i..j]] + rest;
      assert ds[0] == s[i..j] && ds[1..] == rest;
      MatchGroupsSound(s, k, seps[1..]);
      assert s[i..k] == s[i..j] + s[j..k];
      PrefixJoin(s, i, k, s[i..j] + seps[0], Render(rest, seps[1..]));
    }
  }

  /** `strptime`: the microsecond count of a duration text, or `None`. */
  function Strptime(s: string): (r: Option<nat>)
  {
    match MatchGroups(s, Start(s), SEPARATORS)
    case None => None
    case Some(ds) =>
      MatchGroupsValid(s, Start(s), SEPARATORS);
      Some(Micros(ds))
  }

  /** Soundness of `strptime`: a result is the value of well-formed groups
      that the text carries at the match position. */
  lemma StrptimeSound(s: string)
    requires Strptime(s).Some?
    ensures var ds := MatchGroups(s, Start(s), SEPARATORS).value;
      ValidGroups(ds) && Render(ds, SEPARATORS) <= s[Start(s)..] && Strptime(s) == Some(Micros(ds))
  {
    MatchGroupsValid(s, Start(s), SEPARATORS);
    MatchGroupsSound(s, Start(s), SEPARATORS);
  }

  /** The four groups `strftime` prints: hours are the unbounded quotient,
      minutes and seconds are taken modulo 60, microseconds modulo one million. */
  function FormatGroups(t: nat): (ds: seq<string>)
    ensures |ds| == 4 && ValidGroups(ds)
  {
    var sec := t / MICROS_PER_SECOND;
    [NatToString(sec / 3600), NatToString(sec / 60 % 60),
     NatToString(sec % 60), NatToString(t % MICROS_PER_SECOND)]
  }

  /** `strftime`. */
  function Strftime(t: nat): string
  {
    Render(FormatGroups(t), SEPARATORS)
  }

  /** A digit run that stops at a non-digit is read to its end. */
  lemma {:induction false} DigitRunOf(s: string, i: nat, d: string)
    requires |d| > 0 && AllDigits(d)
    requires i + |d| <= |s| && s[i..i + |d|] == d
    requires i + |d| == |s| || !IsDigit(s[i + |d|])
    ensures DigitRun(s, i) == i + |d|
    decreases |d|
  {
    assert s[i] == d[0];
    if |d| > 1 {
      assert s[i + 1..i + |d|] == d[1..];
      DigitRunOf(s, i + 1, d[1..]);
    }
  }

  predicate SeparatorsStartWithNonDigit(seps: seq<string>)
  {
    forall k :: 0 <= k < |seps| ==> |seps[k]| > 0 && !IsDigit(seps[k][0])
  }

  /** Completeness: whenever the text at `i` begins with well-formed groups
      and separators, the match returns exactly those groups. */
  lemma {:induction false} MatchGroupsComplete(s: string, i: nat, ds: seq<string>, seps: seq<string>)
    requires i <= |s| && |ds| == |seps| && ValidGroups(ds) && SeparatorsStartWithNonDigit(seps)
    requires Render(ds, seps) <= s[i..]
    ensures MatchGroups(s, i, seps) == Some(ds)
    decreases |seps|
  {
    if |seps| > 0 {
      var d, sep := ds[0], seps[0];
      var rest := Render(ds[1..], seps[1..]);
      var j, k := i + |d|, i + |d| + |sep|;
      assert Render(ds, seps) == d + sep + rest;
      PrefixSplit(s, i, d, sep, rest);
      assert |d| > 0 && AllDigits(d) && |sep| > 0 && !IsDigit(sep[0]);
      DigitRunOf(s, i, d);
      assert ValidGroups(ds[1..]) && SeparatorsStartWithNonDigit(seps[1..]);
      MatchGroupsComplete(s, k, ds[1..], seps[1..]);
      MatchGroupsStep(s, i, seps, ds[1..]);
      assert [s[i..j]] + ds[1..] == ds;
    }
  }

  /** One step of the match, stated from outside its body. */
  lemma MatchGroupsStep(s: string, i: nat, seps: seq<string>, rest: seq<string>)
    requires i <= |s| && |seps| > 0
    requires DigitRun(s, i) > i && SeparatorAt(s, DigitRun(s, i), seps[0])
    requires MatchGroups(s, DigitRun(s, i) + |seps[0]|, seps[1..]) == Some(rest)
    ensures MatchGroups(s, i, seps) == Some([s[i..DigitRun(s, i)]] + rest)
  {
    var j := DigitRun(s, i);
    var head := s[i..j];
    assert j != i && SeparatorAt(s, j, seps[0]);
    assert MatchGroups(s, i, seps) == Some([head] + rest);
  }

  /** Reading a prefix `d + sep + rest` of `s[i..]` back piece by piece. */
  lemma PrefixSplit(s: string, i: nat, d: string, sep: string, rest: string)
    requires i <= |s| && d + sep + rest <= s[i..] && |sep| > 0
    ensures i + |d| + |sep| <= |s|
    ensures s[i..i + |d|] == d && s[i + |d|] == sep[0]
    ensures sep <= s[i + |d|..] && rest <= s[i + |d| + |sep|..]
  {
    var x := d + sep + rest;
    assert x[|d|] == sep[0];
    assert forall m :: 0 <= m < |sep| ==> s[i + |d| + m] == x[|d| + m] == sep[m];
    assert forall m :: 0 <= m < |rest| ==> s[i + |d| + |sep| + m] == x[|d| + |sep| + m] == rest[m];
  }

  /** Completeness for the four duration groups, from the match position. */
  lemma StrptimeComplete(s: string, ds: seq<string>)
    requires |ds| == 4 && ValidGroups(ds) && Render(ds, SEPARATORS) <= s[Start(s)..]
    ensures Strptime(s) == Some(Micros(ds))
  {
    MatchGroupsComplete(s, Start(s), ds, SEPARATORS);
  }

  lemma FormatValue(t: nat)
    ensures Micros(FormatGroups(t)) == t
  {
    var sec := t / MICROS_PER_SECOND;
    assert sec == (sec / 3600) * 3600 + (sec / 60 % 60) * 60 + sec % 60;
    assert t == sec * MICROS_PER_SECOND + t % MICROS_PER_SECOND;
  }

  /** Round trip: parsing a formatted duration gives the duration back. */
  lemma StrptimeStrftime(t: nat)
    ensures Strptime(Strftime(t)) == Some(t)
  {
    var ds := FormatGroups(t);
    var s := Strftime(t);
    assert s[0] == ds[0][0];
    assert !(LABEL <= s) by { assert s[0] != LABEL[0]; }
    assert s[0..] == s;
    StrptimeComplete(s, ds);
    FormatValue(t);
  }

  /** The same duration behind the `TOTAL: ` label parses to the same count. */
  lemma StrptimeLabelled(t: nat)
    ensures Strptime(LABEL + Strftime(t)) == Some(t)
  {
    var s := LABEL + Strftime(t);
    assert LABEL <= s;
    assert s[Start(s)..] == Strftime(t);
    StrptimeComplete(s, FormatGroups(t));
    FormatValue(t);
  }

  /** A text with no digits at the match position does not parse. */
  lemma StrptimeRejectsNonDigit(s: string)
    requires Start(s) < |s| && !IsDigit(s[Start(s)])
    ensures Strptime(s) == None
  {
  }
}
