/** Python's `int(text)` on a string, restricted to ASCII: surrounding
    whitespace is skipped, one optional sign, then decimal digits in which single
    underscores may separate two digits. Leading zeros are accepted. Anything
    else is a `ValueError`, here `None`. `ShowInt` is `str(n)`, the rendering the
    window uses for the computed years, and the parser's inverse. */
module IntParse {
  import opened Options

  predicate IsDigit(c: char) {
    '0' <= c <= '9'
  }

  /** Space, tab, newline, vertical tab, form feed, carriage return. */
  predicate IsSpace(c: char) {
    c == ' ' || '\t' <= c <= '\r'
  }

  /** The index of the first non-whitespace character at or after `i`
      (`|s|` when there is none). */
  function LeadingSpaces(s: string, i: nat): (r: nat)
    requires i <= |s|
    ensures i <= r <= |s|
    decreases |s| - i
  {
    if i < |s| && IsSpace(s[i]) then LeadingSpaces(s, i + 1) else i
  }

  /** The index just after the last non-whitespace character before `e`
      (`0` when there is none). */
  function TrailingEnd(s: string, e: nat): (r: nat)
    requires e <= |s|
    ensures r <= e
  {
    if e > 0 && IsSpace(s[e - 1]) then TrailingEnd(s, e - 1) else e
  }

  /** `LeadingSpaces` skips exactly the run of whitespace starting at `i`. */
  lemma {:induction false} LeadingSpacesSpec(s: string, i: nat)
    requires i <= |s|
    ensures var r := LeadingSpaces(s, i);
      && (forall j :: i <= j < r ==> IsSpace(s[j]))
      && (r == |s| || !IsSpace(s[r]))
    decreases |s| - i
  {
    if i < |s| && IsSpace(s[i]) {
      LeadingSpacesSpec(s, i + 1);
    }
  }

  /** `TrailingEnd` skips exactly the run of whitespace ending at `e`. */
  lemma {:induction false} TrailingEndSpec(s: string, e: nat)
    requires e <= |s|
    ensures var r := TrailingEnd(s, e);
      && (forall j :: r <= j < e ==> IsSpace(s[j]))
      && (r == 0 || !IsSpace(s[r - 1]))
  {
    if e > 0 && IsSpace(s[e - 1]) {
      TrailingEndSpec(s, e - 1);
    }
  }

  /** `s.strip()`: `s` without its leading and trailing whitespace. */
  function Strip(s: string): string {
    var u := s[LeadingSpaces(s, 0)..];
    u[..TrailingEnd(u, |u|)]
  }

  /** Decimal digits, with single underscores allowed between two digits:
      a digit, then any number of digits each optionally preceded by one `_`. */
  predicate IsDigitGroups(t: string)
    decreases |t|
  {
    && |t| > 0 && IsDigit(t[0])
    && (|t| == 1 || IsDigitGroups(t[1..]) || (t[1] == '_' && IsDigitGroups(t[2..])))
  }

  function DigitValue(c: char): nat {
    if IsDigit(c) then c as int - '0' as int else 0
  }

  /** The number the digits of `t` spell, underscores skipped. */
  function DigitsValue(t: string): nat {
    if t == [] then 0
    else if t[|t| - 1] == '_' then DigitsValue(t[..|t| - 1])
    else DigitsValue(t[..|t| - 1]) * 10 + DigitValue(t[|t| - 1])
  }

  /** `int(s)`. A number needs at least one digit. */
  function ParseInt(s: string): (r: Option<int>)
    ensures r.Some? ==> exists i :: 0 <= i < |s| && IsDigit(s[i])
  {
    StrippedHasDigit(s);
    ParseStripped(Strip(s))
  }

  /** Text that `int` accepts holds a digit. */
  lemma StrippedHasDigit(s: string)
    ensures ParseStripped(Strip(s)).Some? ==> exists i :: 0 <= i < |s| && IsDigit(s[i])
  {
    var k := LeadingSpaces(s, 0);
    var u := s[k..];
    var t := u[..TrailingEnd(u, |u|)];
    assert Strip(s) == t;
    if ParseStripped(t).Some? {
      var j := if t[0] == '+' || t[0] == '-' then 1 else 0;
      assert IsDigit(t[j]);
      assert t[j] == s[k + j];
    }
  }

  /** `int` on text without surrounding whitespace. */
  function ParseStripped(t: string): Option<int> {
    if |t| > 0 && (t[0] == '+' || t[0] == '-') then
      if IsDigitGroups(t[1..]) then
        var magnitude: int := DigitsValue(t[1..]);
        Some(if t[0] == '-' then -magnitude else magnitude)
      else None
    else if IsDigitGroups(t) then Some(DigitsValue(t))
    else None
  }

  function DigitChar(d: nat): (c: char)
    requires d < 10
    ensures IsDigit(c) && DigitValue(c) == d
  {
    ('0' as int + d) as char
  }

  /** `str(n)` for a natural number: its decimal digits, no leading zero. */
  function ShowNat(n: nat): (r: string)
    ensures |r| > 0 && forall i :: 0 <= i < |r| ==> IsDigit(r[i])
    ensures DigitsValue(r) == n
  {
    if n < 10 then [DigitChar(n)]
    else
      var init := ShowNat(n / 10);
      var r := init + [DigitChar(n % 10)];
      assert r[..|r| - 1] == init;
      r
  }

  /** `str(n)`. */
  function ShowInt(n: int): string {
    if n < 0 then "-" + ShowNat(-n) else ShowNat(n)
  }

  /** A well-formed group of digits holds only digits and underscores. */
  lemma {:induction false} DigitGroupsChars(t: string, i: nat)
    requires IsDigitGroups(t) && i < |t|
    ensures IsDigit(t[i]) || t[i] == '_'
    decreases |t|
  {
    if i > 0 {
      if IsDigitGroups(t[1..]) {
        DigitGroupsChars(t[1..], i - 1);
      } else if i > 1 {
        DigitGroupsChars(t[2..], i - 2);
      }
    }
  }

  /** A non-empty run of plain digits is well-formed. */
  lemma {:induction false} DigitsAreDigitGroups(d: string)
    requires |d| > 0 && forall i :: 0 <= i < |d| ==> IsDigit(d[i])
    ensures IsDigitGroups(d)
    decreases |d|
  {
    if |d| > 1 {
      DigitsAreDigitGroups(d[1..]);
    }
  }

  /** Text that neither starts nor ends with whitespace is its own strip. */
  lemma StripUnchanged(s: string)
    requires s != [] && !IsSpace(s[0]) && !IsSpace(s[|s| - 1])
    ensures Strip(s) == s
  {
    assert LeadingSpaces(s, 0) == 0;
    assert s[0..] == s;
    assert TrailingEnd(s, |s|) == |s|;
  }

  /** A non-empty run of digits parses to the number it spells. */
  lemma ParseDigits(d: string)
    requires |d| > 0 && forall i :: 0 <= i < |d| ==> IsDigit(d[i])
    ensures ParseInt(d) == Some(DigitsValue(d))
  {
    DigitsAreDigitGroups(d);
    StripUnchanged(d);
  }

  /** A minus sign before a non-empty run of digits negates it. */
  lemma ParseNegatedDigits(d: string)
    requires |d| > 0 && forall i :: 0 <= i < |d| ==> IsDigit(d[i])
    ensures ParseInt("-" + d) == Some(-(DigitsValue(d) as int))
  {
    DigitsAreDigitGroups(d);
    ParseMinus("-" + d, d);
  }

  /** A minus sign followed by well-formed digits, with no surrounding
      whitespace. */
  lemma ParseMinus(s: string, d: string)
    requires s == "-" + d && |d| > 0 && !IsSpace(d[|d| - 1])
    requires IsDigitGroups(d)
    ensures ParseInt(s) == Some(-(DigitsValue(d) as int))
  {
    assert s[0] == '-' && s[|s| - 1] == d[|d| - 1];
    StripUnchanged(s);
    assert s[1..] == d;
    assert ParseStripped(s) == Some(-(DigitsValue(d) as int));
  }

  /** Parsing what `str` renders gives the number back. */
  lemma ParseShowRoundTrip(n: int)
    ensures ParseInt(ShowInt(n)) == Some(n)
  {
    if n < 0 {
      ParseNegatedDigits(ShowNat(-n));
    } else {
      ParseDigits(ShowNat(n));
    }
  }

  /** The rendering of a four-digit year has four characters, so the first four
      characters of `str(year) + rest` parse back to the year. */
  lemma YearPrefix(year: nat, rest: string)
    requires 1000 <= year <= 9999
    ensures |ShowNat(year)| == 4
    ensures ParseInt((ShowNat(year) + rest)[..4]) == Some(year)
  {
    ShowYearLength(year);
    var r := ShowNat(year);
    assert (r + rest)[..4] == r;
    ParseDigits(r);
  }

  /** A four-digit year renders as four characters. */
  lemma ShowYearLength(year: nat)
    requires 1000 <= year <= 9999
    ensures |ShowNat(year)| == 4
  {
    assert |ShowNat(year / 1000)| == 1;
    assert |ShowNat(year / 100)| == 2;
    assert |ShowNat(year / 10)| == 3;
  }

  /** A character that is neither whitespace, a sign, a digit nor an underscore
      anywhere in the text makes `int` fail. */
  lemma ParseRejectsForeignChar(s: string, i: nat)
    requires i < |s|
    requires !IsSpace(s[i]) && !IsDigit(s[i]) && s[i] !in "+-_"
    ensures ParseInt(s) == None
  {
    LeadingSpacesSpec(s, 0);
    var k := LeadingSpaces(s, 0);
    assert k <= i;
    var u := s[k..];
    TrailingEndSpec(u, |u|);
    var e := TrailingEnd(u, |u|);
    assert u[i - k] == s[i];
    assert i - k < e;
    var t := u[..e];
    assert Strip(s) == t;
    assert t[i - k] == s[i];
    if |t| > 0 && (t[0] == '+' || t[0] == '-') {
      assert i - k > 0;
      if IsDigitGroups(t[1..]) {
        DigitGroupsChars(t[1..], i - k - 1);
      }
    } else if IsDigitGroups(t) {
      DigitGroupsChars(t, i - k);
    }
  }
}
