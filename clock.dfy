/**
 * Calendar instants as the crawler stores them: naive UTC `datetime` values with
 * microsecond resolution, compared field by field, plus the day arithmetic used to
 * select "today's" papers and the `strftime('%Y-%m-%d')` rendering of a date.
 */
module Clock {

  import opened Basics
  import opened PyStr

  const MicrosPerDay: int := 86_400_000_000

  /** A `datetime`: a calendar date and the time of day in microseconds since midnight. */
  datatype DateTime = DateTime(year: int, month: int, day: int, micros: int)

  predicate IsLeapYear(y: int) {
    (y % 4 == 0 && y % 100 != 0) || y % 400 == 0
  }

  function DaysInMonth(y: int, m: int): (n: int)
    requires 1 <= m <= 12
    ensures 28 <= n <= 31
    ensures n == 29 <==> m == 2 && IsLeapYear(y)
  {
    if m == 2 then (if IsLeapYear(y) then 29 else 28)
    else if m == 4 || m == 6 || m == 9 || m == 11 then 30
    else 31
  }

  /** A value Python's `datetime` can hold (years 1 to 9999, real days of the month). */
  predicate Valid(d: DateTime) {
    && 1 <= d.year <= 9999
    && 1 <= d.month <= 12
    && 1 <= d.day <= DaysInMonth(d.year, d.month)
    && 0 <= d.micros < MicrosPerDay
  }

  /** `a < b` on `datetime` values. */
  predicate Before(a: DateTime, b: DateTime) {
    || a.year < b.year
    || (a.year == b.year && a.month < b.month)
    || (a.year == b.year && a.month == b.month && a.day < b.day)
    || (a.year == b.year && a.month == b.month && a.day == b.day && a.micros < b.micros)
  }

  predicate SameDate(a: DateTime, b: DateTime) {
    a.year == b.year && a.month == b.month && a.day == b.day
  }

  /** `d.date()`, compared against `datetime` values as midnight of that date. */
  function Midnight(d: DateTime): (r: DateTime)
    ensures SameDate(r, d) && r.micros == 0
    ensures Valid(d) ==> Valid(r) && !Before(d, r)
  {
    d.(micros := 0)
  }

  /** `d.date() + timedelta(days=1)`; `None` is the `OverflowError` raised past 9999-12-31. */
  function NextDay(d: DateTime): (r: Option<DateTime>)
    requires Valid(d)
    ensures r.None? <==> d.year == 9999 && d.month == 12 && d.day == 31
    ensures r.Some? ==> Valid(r.value) && r.value.micros == 0 && Before(d, r.value)
  {
    if d.day < DaysInMonth(d.year, d.month) then Some(DateTime(d.year, d.month, d.day + 1, 0))
    else if d.month < 12 then Some(DateTime(d.year, d.month + 1, 1, 0))
    else if d.year < 9999 then Some(DateTime(d.year + 1, 1, 1, 0))
    else None
  }

  /**
   * The window `[today, today + 1 day)` holds exactly the valid instants whose date is
   * today's: no valid date lies strictly between a date and the next one.
   */
  lemma DayWindow(p: DateTime, today: DateTime)
    requires Valid(p) && Valid(today) && NextDay(today).Some?
    ensures (!Before(p, Midnight(today)) && Before(p, NextDay(today).value)) <==> SameDate(p, today)
  {
  }

  /** A field of `width` decimal digits, zero-padded on the left (`%0<width>d`). */
  function Digits(n: nat, width: nat): (r: string)
    ensures |r| == width && AllDigits(r)
    ensures n < Pow10(width) ==> DecimalValue(r) == n
  {
    if width == 0 then []
    else
      var r := Digits(n / 10, width - 1) + [DigitChar(n % 10)];
      assert r[..|r| - 1] == Digits(n / 10, width - 1);
      r
  }

  /** `10 ** k`, the first value that no longer fits in `k` decimal digits. */
  function Pow10(k: nat): (p: nat)
    ensures p >= 1
  {
    if k == 0 then 1 else 10 * Pow10(k - 1)
  }

  /** `d.strftime('%Y-%m-%d')`: year, month and day as zero-padded fields. */
  function DateString(d: DateTime): (r: string)
    requires Valid(d)
    ensures |r| == 10 && r[4] == '-' && r[7] == '-' && '/' !in r
    ensures AllDigits(r[..4]) && DecimalValue(r[..4]) == d.year
    ensures AllDigits(r[5..7]) && DecimalValue(r[5..7]) == d.month
    ensures AllDigits(r[8..]) && DecimalValue(r[8..]) == d.day
  {
    assert Pow10(4) == 10000 && Pow10(2) == 100;
    var y, m, dd := Digits(d.year, 4), Digits(d.month, 2), Digits(d.day, 2);
    var r := y + "-" + m + "-" + dd;
    assert r[..4] == y && r[5..7] == m && r[8..] == dd;
    assert forall i :: 0 <= i < |r| ==> r[i] != '/' by {
      forall i | 0 <= i < |r| ensures r[i] != '/' {
        if i < 4 { assert r[i] == y[i]; }
        else if 5 <= i < 7 { assert r[i] == m[i - 5]; }
        else if 8 <= i { assert r[i] == dd[i - 8]; }
      }
    }
    r
  }

  /** Two valid instants render the same `%Y-%m-%d` text exactly when they fall on the same date. */
  lemma DateStringSameDate(a: DateTime, b: DateTime)
    requires Valid(a) && Valid(b)
    ensures DateString(a) == DateString(b) <==> SameDate(a, b)
  {
  }
}
