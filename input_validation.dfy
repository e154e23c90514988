/**
 * The input check at the top of the prediction handler: the three text fields
 * (day of week, weather, holiday) are stripped of surrounding whitespace, the
 * day and the weather must be non-empty and the holiday must be a string of
 * decimal digits, which is then converted to an integer.
 */
module InputValidation {
  import opened Wrappers

  /** The characters Python's `str.isspace` accepts, which `str.strip()` removes. */
  const Whitespace: seq<char> := [
    ' ', '\t', '\n', '\U{0B}', '\U{0C}', '\r', '\U{1C}', '\U{1D}', '\U{1E}', '\U{1F}',
    '\U{85}', '\U{A0}', '\U{1680}', '\U{2000}', '\U{2001}', '\U{2002}', '\U{2003}', '\U{2004}',
    '\U{2005}', '\U{2006}', '\U{2007}', '\U{2008}', '\U{2009}', '\U{200A}', '\U{2028}',
    '\U{2029}', '\U{202F}', '\U{205F}', '\U{3000}'
  ]

  /**
   * `c` occurs in `cs`, written as a recursion rather than as `c in cs`:
   * with `IsSpace` defined through it, the solver unfolds the whitespace
   * test only where a proof needs it, where `c in Whitespace` made every
   * proof mentioning `IsSpace` expensive. `OccursIn` links it back to `in`.
   */
  predicate Occurs(c: char, cs: seq<char>) {
    |cs| > 0 && (cs[0] == c || Occurs(c, cs[1..]))
  }

  lemma {:induction false} OccursIn(c: char, cs: seq<char>)
    requires Occurs(c, cs)
    ensures c in cs
  {
    if cs[0] != c {
      OccursIn(c, cs[1..]);
    }
  }

  predicate IsSpace(c: char) {
    Occurs(c, Whitespace)
  }

  predicate AllSpace(s: string) {
    forall k :: 0 <= k < |s| ==> IsSpace(s[k])
  }

  /** The number of whitespace characters `s` starts with. */
  function LeadingSpaces(s: string): (n: nat)
    ensures n <= |s|
    ensures forall k :: 0 <= k < n ==> IsSpace(s[k])
    ensures n == |s| || !IsSpace(s[n])
  {
    if s != [] && IsSpace(s[0]) then
      var rest := s[1..];
      assert forall k :: 1 <= k < |s| ==> s[k] == rest[k - 1];
      1 + LeadingSpaces(rest)
    else 0
  }

  /** The number of whitespace characters `s` ends with. */
  function TrailingSpaces(s: string): (n: nat)
    ensures n <= |s|
    ensures forall k :: |s| - n <= k < |s| ==> IsSpace(s[k])
    ensures n == |s| || !IsSpace(s[|s| - n - 1])
  {
    if s != [] && IsSpace(s[|s| - 1]) then
      var init := s[..|s| - 1];
      assert forall k :: 0 <= k < |init| ==> s[k] == init[k];
      1 + TrailingSpaces(init)
    else 0
  }

  /** `s.lstrip()` */
  function StripLeft(s: string): string {
    s[LeadingSpaces(s)..]
  }

  /** `s.rstrip()` */
  function StripRight(s: string): string {
    s[..|s| - TrailingSpaces(s)]
  }

  /** `s.strip()`, as applied to each entry field's text. */
  function Strip(s: string): (r: string)
    ensures r == [] || (!IsSpace(r[0]) && !IsSpace(r[|r| - 1]))
  {
    StripRight(StripLeft(s))
  }

  /**
   * `Strip(s)` is the slice of `s` starting at the `i` returned, and every
   * character cut off on either side is whitespace.
   */
  lemma StripIsSlice(s: string) returns (i: nat)
    ensures i + |Strip(s)| <= |s| && Strip(s) == s[i..i + |Strip(s)|]
    ensures forall k :: 0 <= k < i ==> IsSpace(s[k])
    ensures forall k :: i + |Strip(s)| <= k < |s| ==> IsSpace(s[k])
  {
    var l := StripLeft(s);
    i := LeadingSpaces(s);
    var t := TrailingSpaces(l);
    forall k | i + |l| - t <= k < |s| ensures IsSpace(s[k]) {
      assert s[k] == l[k - i];
    }
  }

  /** The stripped text is empty exactly when the field holds only whitespace. */
  lemma StripEmptyIff(s: string)
    ensures Strip(s) == [] <==> AllSpace(s)
  {
  }

  /** Stripping twice changes nothing more than stripping once. */
  lemma StripIdempotent(s: string)
    ensures Strip(Strip(s)) == Strip(s)
  {
  }

  predicate IsAsciiDigit(c: char) {
    '0' <= c <= '9'
  }

  /**
   * `s.isdigit()` restricted to ASCII digits: every character a digit, and
   * false for the empty string, so an empty holiday field is rejected.
   */
  predicate IsDigitString(s: string): (b: bool)
    ensures b ==> s != []
  {
    |s| > 0 && forall k :: 0 <= k < |s| ==> IsAsciiDigit(s[k])
  }

  /** Digits are not whitespace, so stripping leaves a digit string as it is. */
  lemma DigitStringIsStripped(s: string)
    requires IsDigitString(s)
    ensures Strip(s) == s
  {
    DigitNotSpace(s[0]);
    DigitNotSpace(s[|s| - 1]);
  }

  function Pow10(n: nat): nat {
    if n == 0 then 1 else 10 * Pow10(n - 1)
  }

  function DigitValue(c: char): (d: nat)
    requires IsAsciiDigit(c)
    ensures d < 10
  {
    c as int - '0' as int
  }

  /** `int(s)` for a string of decimal digits, leading zeros allowed. */
  function DecimalValue(s: string): (n: nat)
    requires forall k :: 0 <= k < |s| ==> IsAsciiDigit(s[k])
    ensures n < Pow10(|s|)
  {
    if s == [] then 0
    else DecimalValue(s[..|s| - 1]) * 10 + DigitValue(s[|s| - 1])
  }

  function DigitChar(d: nat): (c: char)
    requires d < 10
    ensures IsAsciiDigit(c) && DigitValue(c) == d
  {
    ('0' as int + d) as char
  }

  /** The canonical decimal form of `n` (what `str(n)` prints): the inverse of `DecimalValue`. */
  function DecimalDigits(n: nat): (s: string)
    ensures IsDigitString(s)
    ensures |s| > 1 ==> s[0] != '0'
  {
    if n < 10 then [DigitChar(n)] else DecimalDigits(n / 10) + [DigitChar(n % 10)]
  }

  lemma {:induction false} DecimalRoundTrip(n: nat)
    ensures DecimalValue(DecimalDigits(n)) == n
  {
    if n >= 10 {
      var s := DecimalDigits(n);
      assert s[..|s| - 1] == DecimalDigits(n / 10);
      DecimalRoundTrip(n / 10);
    }
  }

  /** A digit string without superfluous leading zeros is the canonical form of its value. */
  lemma {:induction false} DecimalCanonical(s: string)
    requires IsDigitString(s)
    requires |s| > 1 ==> s[0] != '0'
    ensures DecimalDigits(DecimalValue(s)) == s
  {
    if |s| > 1 {
      var init := s[..|s| - 1];
      var d := DigitValue(s[|s| - 1]);
      DecimalCanonical(init);
      assert DecimalValue(init) > 0 by { NonZeroLead(init); }
      var n := DecimalValue(s);
      assert n / 10 == DecimalValue(init) && n % 10 == d;
    }
  }

  /** A leading zero does not change the value: `int("007") == int("7")`. */
  lemma {:induction false} LeadingZero(s: string)
    requires forall k :: 0 <= k < |s| ==> IsAsciiDigit(s[k])
    ensures DecimalValue(['0'] + s) == DecimalValue(s)
  {
    if s != [] {
      assert (['0'] + s)[..|s|] == ['0'] + s[..|s| - 1];
      LeadingZero(s[..|s| - 1]);
    }
  }

  lemma {:induction false} NonZeroLead(s: string)
    requires IsDigitString(s) && s[0] != '0'
    ensures DecimalValue(s) > 0
  {
    if |s| > 1 {
      NonZeroLead(s[..|s| - 1]);
    }
  }

  /** The input once accepted: the stripped texts and the holiday as an integer. */
  datatype Query = Query(day: string, weather: string, holiday: nat)

  /**
   * Why an input is refused: the field check fails ("Please fill all fields
   * correctly."), or `int()` raises a ValueError, which the handler's
   * catch-all reports in its generic error dialog.
   */
  datatype InputError = InvalidInput | ConversionError

  /**
   * The interpreter's limit on the number of digits `int()` converts from a
   * decimal string (`sys.int_info.default_max_str_digits`, CPython 3.11 on).
   */
  const MaxStrDigits: nat := 4300

  /** `int(s)` for a digit string: its value, or a ValueError beyond the digit limit. */
  function ParseInt(s: string): (r: Result<nat, InputError>)
    requires IsDigitString(s)
    ensures r.Ok? <==> |s| <= MaxStrDigits
    ensures r.Err? ==> r.error == ConversionError
    ensures r.Ok? ==> r.value == DecimalValue(s)
  {
    if |s| > MaxStrDigits then Err(ConversionError) else Ok(DecimalValue(s))
  }

  /** The check of the three entry fields, then the holiday conversion. */
  function Validate(dayText: string, weatherText: string, holidayText: string): (r: Result<Query, InputError>)
    ensures r == Err(InvalidInput)
        <==> !(Strip(dayText) != [] && Strip(weatherText) != [] && IsDigitString(Strip(holidayText)))
    ensures r == Err(ConversionError)
        <==> Strip(dayText) != [] && Strip(weatherText) != [] && IsDigitString(Strip(holidayText))
             && |Strip(holidayText)| > MaxStrDigits
    ensures r.Ok? ==> r.value.day == Strip(dayText) && r.value.weather == Strip(weatherText)
    ensures r.Ok? ==> r.value.holiday == DecimalValue(Strip(holidayText))
  {
    var day := Strip(dayText);
    var weather := Strip(weatherText);
    var holiday := Strip(holidayText);
    if day == [] || weather == [] || !IsDigitString(holiday) then Err(InvalidInput)
    else
      match ParseInt(holiday)
      case Err(e) => Err(e)
      case Ok(n) => Ok(Query(day, weather, n))
  }

  /** `s` is a non-empty run of digits from `i` to `j`, with only whitespace before and after. */
  predicate DigitsBetween(s: string, i: int, j: int) {
    && 0 <= i < j <= |s|
    && (forall k :: 0 <= k < i ==> IsSpace(s[k]))
    && (forall k :: i <= k < j ==> IsAsciiDigit(s[k]))
    && (forall k :: j <= k < |s| ==> IsSpace(s[k]))
  }

  ghost predicate PaddedDigits(s: string) {
    exists i, j :: DigitsBetween(s, i, j)
  }

  /**
   * In terms of the raw texts the user typed: the field check passes exactly
   * when the day and the weather each hold a non-space character and the
   * holiday is a run of digits with only whitespace around it.
   */
  lemma AcceptedIff(dayText: string, weatherText: string, holidayText: string)
    ensures Validate(dayText, weatherText, holidayText) != Err(InvalidInput)
        <==> !AllSpace(dayText) && !AllSpace(weatherText) && PaddedDigits(holidayText)
  {
    StripEmptyIff(dayText);
    StripEmptyIff(weatherText);
    PaddedDigitsIff(holidayText);
  }

  lemma PaddedDigitsIff(s: string)
    ensures PaddedDigits(s) <==> IsDigitString(Strip(s))
  {
    if IsDigitString(Strip(s)) {
      DigitsAroundStrip(s);
    }
    if PaddedDigits(s) {
      var a, b :| DigitsBetween(s, a, b);
      StripOfPadded(s, a, b);
    }
  }

  lemma DigitsAroundStrip(s: string)
    requires IsDigitString(Strip(s))
    ensures PaddedDigits(s)
  {
    var t := Strip(s);
    var i := StripIsSlice(s);
    forall k | i <= k < i + |t| ensures IsAsciiDigit(s[k]) { assert s[k] == t[k - i]; }
    assert DigitsBetween(s, i, i + |t|);
  }

  /** Every whitespace character lies outside '0'..'9'. */
  lemma DigitNotSpace(c: char)
    requires IsAsciiDigit(c)
    ensures !IsSpace(c)
  {
    if IsSpace(c) {
      OccursIn(c, Whitespace);
    }
  }

  lemma StripOfPadded(s: string, a: int, b: int)
    requires DigitsBetween(s, a, b)
    ensures Strip(s) == s[a..b]
  {
    var t := Strip(s);
    var i := StripIsSlice(s);
    // Digits are not whitespace, so the stripped slice runs exactly from a to b.
    DigitNotSpace(s[a]);
    DigitNotSpace(s[b - 1]);
    assert t != [] by { StripEmptyIff(s); }
    assert !IsSpace(s[i]) && !IsSpace(s[i + |t| - 1]) by {
      assert s[i] == t[0] && s[i + |t| - 1] == t[|t| - 1];
    }
    assert i == a && i + |t| == b;
  }
}
