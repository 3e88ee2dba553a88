/** Calendar dates as `datetime.date` holds them, read with
    `strptime(t, "%d/%m/%Y")` and written with `strftime("%Y-%m-%d")` and
    `strftime("%d/%m/%Y")`. */
module Dates {
  import opened Wrappers
  import opened Text
  import Sorting

  datatype Date = Date(year: int, month: int, day: int)

  predicate IsLeapYear(y: int) {
    y % 4 == 0 && (y % 100 != 0 || y % 400 == 0)
  }

  function DaysInMonth(y: int, m: int): int {
    if m == 2 then (if IsLeapYear(y) then 29 else 28)
    else if m == 4 || m == 6 || m == 9 || m == 11 then 30
    else 31
  }

  /** The dates `datetime.date` can represent (proleptic Gregorian, years 1 to 9999). */
  predicate ValidDate(d: Date) {
    1 <= d.year <= 9999 && 1 <= d.month <= 12 && 1 <= d.day <= DaysInMonth(d.year, d.month)
  }

  /** A date a `DateField` can hold. */
  type CalendarDate = d: Date | ValidDate(d) witness Date(2000, 1, 1)

  /** Chronological order, the order `sorted` puts dates in. */
  predicate DateLess(a: Date, b: Date) {
    a.year < b.year || (a.year == b.year && (a.month < b.month || (a.month == b.month && a.day < b.day)))
  }

  /** Shape of `DD/MM/YYYY`: ten characters, two slashes, digits elsewhere. */
  predicate DayMonthYearShape(t: string) {
    |t| == 10 && t[2] == '/' && t[5] == '/' &&
    AllDigits(t[..2]) && AllDigits(t[3..5]) && AllDigits(t[6..])
  }

  /** `datetime.strptime(t, "%d/%m/%Y")` for the two-digit day and month
      form: None where Python raises `ValueError`. */
  function ParseDayMonthYear(t: string): (r: Option<Date>)
    ensures r.Some? ==> ValidDate(r.value) && DayMonthYearShape(t)
  {
    if !DayMonthYearShape(t) then None
    else
      var d := Date(DigitsValue(t[6..]), DigitsValue(t[3..5]), DigitsValue(t[..2]));
      if ValidDate(d) then Some(d) else None
  }

  /** `d.strftime("%d/%m/%Y")` */
  function DisplayText(d: Date): string
    requires ValidDate(d)
  {
    PadDigits(d.day, 2) + "/" + PadDigits(d.month, 2) + "/" + PadDigits(d.year, 4)
  }

  /** `d.strftime("%Y-%m-%d")`, which is also how Django writes a date to JSON. */
  function IsoText(d: Date): string
    requires ValidDate(d)
  {
    PadDigits(d.year, 4) + "-" + PadDigits(d.month, 2) + "-" + PadDigits(d.day, 2)
  }

  /** A date string of the form `YYYY-MM-DD`, as a `DateField` lookup accepts it:
      None where Django raises `ValidationError`. */
  function ParseIso(t: string): (r: Option<Date>)
    ensures r.Some? ==> ValidDate(r.value) && |t| == 10
  {
    if |t| == 10 && t[4] == '-' && t[7] == '-' &&
       AllDigits(t[..4]) && AllDigits(t[5..7]) && AllDigits(t[8..])
    then
      var d := Date(DigitsValue(t[..4]), DigitsValue(t[5..7]), DigitsValue(t[8..]));
      if ValidDate(d) then Some(d) else None
    else None
  }

  /** Reading back what `DisplayText` writes gives the same date. */
  lemma DisplayTextRoundTrip(d: Date)
    requires ValidDate(d)
    ensures ParseDayMonthYear(DisplayText(d)) == Some(d)
  {
    var t := DisplayText(d);
    var dd, mm, yyyy := PadDigits(d.day, 2), PadDigits(d.month, 2), PadDigits(d.year, 4);
    assert t == dd + "/" + mm + "/" + yyyy;
    assert t[..2] == dd && t[3..5] == mm && t[6..] == yyyy;
    assert t[2] == '/' && t[5] == '/';
    assert Pow10(2) == 100 && Pow10(4) == 10000;
    PadDigitsValue(d.day, 2);
    PadDigitsValue(d.month, 2);
    PadDigitsValue(d.year, 4);
    assert Date(DigitsValue(t[6..]), DigitsValue(t[3..5]), DigitsValue(t[..2])) == d;
  }

  /** A string `ParseDayMonthYear` accepts is the display text of its date:
      only the canonical two-digit form is read. */
  lemma DisplayTextCanonical(t: string)
    requires ParseDayMonthYear(t).Some?
    ensures DisplayText(ParseDayMonthYear(t).value) == t
  {
    PadDigitsOfValue(t[..2]);
    PadDigitsOfValue(t[3..5]);
    PadDigitsOfValue(t[6..]);
    assert t == t[..2] + "/" + t[3..5] + "/" + t[6..];
  }

  /** Reading back what `IsoText` writes gives the same date. */
  lemma IsoTextRoundTrip(d: Date)
    requires ValidDate(d)
    ensures ParseIso(IsoText(d)) == Some(d)
  {
    var t := IsoText(d);
    assert t[..4] == PadDigits(d.year, 4);
    assert t[5..7] == PadDigits(d.month, 2);
    assert t[8..] == PadDigits(d.day, 2);
    assert t[4] == '-' && t[7] == '-';
    assert Pow10(2) == 100 && Pow10(4) == 10000;
    PadDigitsValue(d.day, 2);
    PadDigitsValue(d.month, 2);
    PadDigitsValue(d.year, 4);
    assert Date(DigitsValue(t[..4]), DigitsValue(t[5..7]), DigitsValue(t[8..])) == d;
  }

  /** A string `ParseIso` accepts is the ISO text of its date, so a date
      has exactly one ISO spelling: `ParseIso(t) == Some(d)` exactly when
      `t == IsoText(d)`. */
  lemma IsoTextCanonical(t: string)
    requires ParseIso(t).Some?
    ensures IsoText(ParseIso(t).value) == t
  {
    PadDigitsOfValue(t[..4]);
    PadDigitsOfValue(t[5..7]);
    PadDigitsOfValue(t[8..]);
    assert t == t[..4] + "-" + t[5..7] + "-" + t[8..];
  }

  /** Chronological order is a strict total order. */
  lemma DateLessIsStrictTotal()
    ensures Sorting.StrictTotalOrder(DateLess)
  {
  }
}
