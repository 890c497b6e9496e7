/** The date conversions both services repeat: the display form `DD/MM/YYYY` a client sends,
    the canonical form `YYYY-MM-DD` the `date` columns hold, and `formatDate`, which turns a
    stored value back into the display form. */
module Dates {
  import opened Wrappers
  import opened Text

  predicate IsLeapYear(y: int) {
    (y % 4 == 0 && y % 100 != 0) || y % 400 == 0
  }

  function DaysInMonth(y: int, m: int): (n: int)
    requires 1 <= m <= 12
    ensures 28 <= n <= 31
  {
    if m == 2 then (if IsLeapYear(y) then 29 else 28)
    else if m == 4 || m == 6 || m == 9 || m == 11 then 30
    else 31
  }

  /** A day of the proleptic Gregorian calendar. */
  predicate ValidCalendarDate(y: int, m: int, d: int) {
    1 <= m <= 12 && 1 <= d <= DaysInMonth(y, m)
  }

  /** `YYYY-MM-DD` naming a real calendar day. */
  predicate IsCanonicalDate(s: string) {
    && |s| == 10 && s[4] == '-' && s[7] == '-'
    && AllDigits(s[..4]) && AllDigits(s[5..7]) && AllDigits(s[8..])
    && ValidCalendarDate(DigitsValue(s[..4]), DigitsValue(s[5..7]), DigitsValue(s[8..]))
  }

  /** `DD/MM/YYYY` naming a real calendar day. */
  predicate IsDisplayDate(s: string) {
    && |s| == 10 && s[2] == '/' && s[5] == '/'
    && AllDigits(s[..2]) && AllDigits(s[3..5]) && AllDigits(s[6..])
    && ValidCalendarDate(DigitsValue(s[6..]), DigitsValue(s[3..5]), DigitsValue(s[..2]))
  }

  /** Element k of a split, as a template renders it: a missing element is the text "undefined". */
  function Field(parts: seq<string>, k: nat): (r: string)
    ensures k < |parts| ==> r == parts[k]
    ensures |parts| <= k ==> r == "undefined"
  {
    if k < |parts| then parts[k] else "undefined"
  }

  /** Day, month and year taken from a split on '/' and reassembled as year-month-day with
      '-' between them; missing pieces are rendered as "undefined". */
  function ToCanonical(display: string): (r: string)
    ensures '/' !in display ==> r == "undefined-undefined-" + display
    ensures |Split(display, '/')| < 3 ==> "undefined" <= r
  {
    var parts := Split(display, '/');
    Field(parts, 2) + "-" + Field(parts, 1) + "-" + Field(parts, 0)
  }

  /** The conversion followed by the validity check: the canonical date, or None when the
      service rejects it as invalid. The check that the parsed date is not NaN is read
      strictly: the rearranged text must be a canonical date of a real calendar day. */
  function ConvertDisplayDate(display: string): (r: Option<string>)
    ensures r.Some? ==> IsCanonicalDate(r.value)
    ensures IsDisplayDate(display) ==> r == Some(display[6..] + "-" + display[3..5] + "-" + display[..2])
  {
    DisplayToCanonical(display);
    var canonical := ToCanonical(display);
    if IsCanonicalDate(canonical) then Some(canonical) else None
  }

  /** A stored date column value `formatDate` can handle without throwing. */
  predicate Formattable(date: Option<string>) {
    date.None? || date.value == "" || date.value == "0000-00-00" || IsCanonicalDate(date.value)
  }

  /** `formatDate(date)`: empty for a missing, empty or zero date; otherwise the date is read at
      UTC midnight and its `toISOString()` date part, which for a canonical date is the date
      itself, is split on '-', reversed and joined with '/'. None stands for the RangeError
      `toISOString` throws on an invalid date. */
  function FormatDate(date: Option<string>): (r: Option<string>)
    ensures r.Some? <==> Formattable(date)
    ensures r == Some("") <==> date.None? || date.value == "" || date.value == "0000-00-00"
    ensures date.Some? && IsCanonicalDate(date.value) ==>
              r == Some(date.value[8..] + "/" + date.value[5..7] + "/" + date.value[..4])
  {
    SentinelNotCanonical();
    if date.None? || date.value == "" || date.value == "0000-00-00" then Some("")
    else if IsCanonicalDate(date.value) then
      CanonicalParts(date.value);
      Some(Join(Reverse(Split(date.value, '-')), '/'))
    else None
  }

  /** The display text of a stored date that `formatDate` accepts. */
  function DisplayDate(date: Option<string>): (r: string)
    requires Formattable(date)
    ensures r == "" || IsDisplayDate(r)
  {
    if date.Some? && IsCanonicalDate(date.value) then CanonicalRoundTrip(date.value); FormatDate(date).value
    else FormatDate(date).value
  }

  lemma CanonicalParts(c: string)
    requires IsCanonicalDate(c)
    ensures Split(c, '-') == [c[..4], c[5..7], c[8..]]
    ensures Join(Reverse(Split(c, '-')), '/') == c[8..] + "/" + c[5..7] + "/" + c[..4]
  {
    DigitsHaveNoSeparator(c[..4], '-');
    DigitsHaveNoSeparator(c[5..7], '-');
    DigitsHaveNoSeparator(c[8..], '-');
    assert c == c[..4] + ['-'] + c[5..7] + ['-'] + c[8..];
    SplitThree(c[..4], c[5..7], c[8..], '-');
    var r := Reverse([c[..4], c[5..7], c[8..]]);
    assert r == [c[8..], c[5..7], c[..4]];
    assert r[1..] == [c[5..7], c[..4]];
    assert r[1..][1..] == [c[..4]];
    assert Join([c[..4]], '/') == c[..4];
    assert Join([c[5..7], c[..4]], '/') == c[5..7] + "/" + c[..4];
  }

  /** Any `DD/MM/YYYY`-shaped string of digits, a real day or not, is rearranged into
      `YYYY-MM-DD` field by field. */
  lemma ShapeToCanonical(y: string)
    requires |y| == 10 && y[2] == '/' && y[5] == '/'
    requires AllDigits(y[..2]) && AllDigits(y[3..5]) && AllDigits(y[6..])
    ensures ToCanonical(y) == y[6..] + "-" + y[3..5] + "-" + y[..2]
  {
    DigitsHaveNoSeparator(y[..2], '/');
    DigitsHaveNoSeparator(y[3..5], '/');
    DigitsHaveNoSeparator(y[6..], '/');
    assert y == y[..2] + ['/'] + y[3..5] + ['/'] + y[6..];
    SplitThree(y[..2], y[3..5], y[6..], '/');
  }

  /** A `DD/MM/YYYY`-shaped string of digits is accepted exactly when the rearranged date
      names a real calendar day; a day past the end of its month is rejected, not rolled over. */
  lemma ShapeAcceptedIffDay(y: string)
    requires |y| == 10 && y[2] == '/' && y[5] == '/'
    requires AllDigits(y[..2]) && AllDigits(y[3..5]) && AllDigits(y[6..])
    ensures ConvertDisplayDate(y).Some? <==> IsCanonicalDate(y[6..] + "-" + y[3..5] + "-" + y[..2])
    ensures ConvertDisplayDate(y).Some? ==> ConvertDisplayDate(y).value == y[6..] + "-" + y[3..5] + "-" + y[..2]
  {
    ShapeToCanonical(y);
  }

  /** The zero date is not a calendar day. */
  lemma SentinelNotCanonical()
    ensures !IsCanonicalDate("0000-00-00")
  {
    var z := "0000-00-00";
    assert z[5..7] == "00";
    assert DigitsValue("00") == DigitsValue("0") * 10 == 0;
  }

  lemma DisplayToCanonical(x: string)
    ensures IsDisplayDate(x) ==>
              && Split(x, '/') == [x[..2], x[3..5], x[6..]]
              && ToCanonical(x) == x[6..] + "-" + x[3..5] + "-" + x[..2]
              && IsCanonicalDate(ToCanonical(x))
  {
    if !IsDisplayDate(x) { return; }
    DigitsHaveNoSeparator(x[..2], '/');
    DigitsHaveNoSeparator(x[3..5], '/');
    DigitsHaveNoSeparator(x[6..], '/');
    assert x == x[..2] + ['/'] + x[3..5] + ['/'] + x[6..];
    SplitThree(x[..2], x[3..5], x[6..], '/');
    var c := x[6..] + "-" + x[3..5] + "-" + x[..2];
    assert c[..4] == x[6..] && c[5..7] == x[3..5] && c[8..] == x[..2];
  }

  /** Display → canonical → display is the identity on valid display dates. */
  lemma DisplayRoundTrip(x: string)
    requires IsDisplayDate(x)
    ensures ConvertDisplayDate(x).Some?
    ensures FormatDate(ConvertDisplayDate(x)) == Some(x)
  {
    var c := x[6..] + "-" + x[3..5] + "-" + x[..2];
    assert c[..4] == x[6..] && c[5..7] == x[3..5] && c[8..] == x[..2];
    assert x == x[..2] + "/" + x[3..5] + "/" + x[6..];
  }

  /** Canonical → display → canonical is the identity on valid canonical dates. */
  lemma CanonicalRoundTrip(c: string)
    requires IsCanonicalDate(c)
    ensures FormatDate(Some(c)).Some? && IsDisplayDate(FormatDate(Some(c)).value)
    ensures ConvertDisplayDate(FormatDate(Some(c)).value) == Some(c)
  {
    var x := c[8..] + "/" + c[5..7] + "/" + c[..4];
    assert x[..2] == c[8..] && x[3..5] == c[5..7] && x[6..] == c[..4];
    assert c == c[..4] + "-" + c[5..7] + "-" + c[8..];
  }
}
