/**
 * JavaScript's `Date`, at the resolution of whole days: `new Date(y, m, d)`
 * with integer arguments (a month outside 0..11 carries into the year, a day
 * outside the month rolls into the neighbouring months), `getMonth`,
 * `getDate` and `getTime`. Time values are counted from 1970-01-01 as in
 * section 21.4.1 of ECMAScript 2024 (DayFromYear, MakeDay), taken in UTC.
 */
module Calendar {

  /** Milliseconds in one day. */
  const MsPerDay: int := 86400000

  /** A calendar date as `getFullYear`, `getMonth` (0-based) and `getDate` report it. */
  datatype Date = Date(year: int, month: int, date: int)

  predicate IsLeapYear(y: int) {
    y % 4 == 0 && (y % 100 != 0 || y % 400 == 0)
  }

  /** The length of month `m` (0-based) of year `y`. */
  function DaysInMonth(y: int, m: int): (n: int)
    requires 0 <= m < 12
    ensures 28 <= n <= 31
    ensures n == 29 <==> m == 1 && IsLeapYear(y)
  {
    if m == 1 then (if IsLeapYear(y) then 29 else 28)
    else if m == 3 || m == 5 || m == 8 || m == 10 then 30
    else 31
  }

  /** A date whose month and day exist: what `getMonth` and `getDate` can report. */
  predicate Valid(dt: Date) {
    0 <= dt.month < 12 && 1 <= dt.date <= DaysInMonth(dt.year, dt.month)
  }

  /** ECMAScript's DayFromYear: the day number of January 1 of year `y`. */
  function DayFromYear(y: int): int {
    365 * (y - 1970) + (y - 1969) / 4 - (y - 1901) / 100 + (y - 1601) / 400
  }

  /** The number of days in the first `m` months of year `y`. */
  function DaysBeforeMonth(y: int, m: int): (n: int)
    requires 0 <= m <= 12
  {
    [0, 31, 59, 90, 120, 151, 181, 212, 243, 273, 304, 334, 365][m] +
    (if m >= 2 && IsLeapYear(y) then 1 else 0)
  }

  /** Each month starts where the previous one ends. */
  lemma DaysBeforeNextMonth(y: int, m: int)
    requires 0 <= m < 12
    ensures DaysBeforeMonth(y, m + 1) == DaysBeforeMonth(y, m) + DaysInMonth(y, m)
  {
  }

  /** The day number (days since 1970-01-01) of day `d` of month `m` of year
      `y`, where `d` may lie outside the month, as ECMAScript's MakeDay
      computes it. */
  function DayOfMonthStart(y: int, m: int, d: int): int
    requires 0 <= m < 12
  {
    DayFromYear(y) + DaysBeforeMonth(y, m) + d - 1
  }

  /** The day number of a date. */
  function DayNumber(dt: Date): int
    requires 0 <= dt.month < 12
  {
    DayOfMonthStart(dt.year, dt.month, dt.date)
  }

  /** `getTime()`: the time value of the midnight that opens the date. */
  function Time(dt: Date): (t: int)
    requires 0 <= dt.month < 12
    ensures t % MsPerDay == 0
  {
    DayNumber(dt) * MsPerDay
  }

  /** A non-zero multiple of a positive number is at least that number away from 0. */
  lemma MultipleBound(d: int, n: int)
    requires n > 0
    ensures d >= 1 ==> d * n >= n
    ensures d <= -1 ==> d * n <= -n
  {
    if d >= 1 {
      assert d * n == (d - 1) * n + n;
      assert (d - 1) * n >= 0;
    } else if d <= -1 {
      assert d * n == (d + 1) * n - n;
      assert (d + 1) * n <= 0;
    }
  }

  /** Division is determined by the quotient and remainder it must produce. */
  lemma QuotientUnique(a: int, n: int, q: int, r: int)
    requires n > 0 && a == q * n + r && 0 <= r < n
    ensures a / n == q && a % n == r
  {
    var q', r' := a / n, a % n;
    assert a == q' * n + r' && 0 <= r' < n;
    var d := q - q';
    assert d * n == r' - r by {
      assert d * n == q * n - q' * n;
    }
    MultipleBound(d, n);
  }

  /** Stepping a numerator by one raises its quotient by one exactly when the
      new numerator is a multiple of the divisor. */
  lemma QuotientStep(a: int, n: int)
    requires n > 0
    ensures (a + 1) / n - a / n == if (a + 1) % n == 0 then 1 else 0
  {
    var q, r := a / n, a % n;
    if r == n - 1 {
      QuotientUnique(a + 1, n, q + 1, 0);
    } else {
      QuotientUnique(a + 1, n, q, r + 1);
    }
  }

  /** A year has as many days as the distance between consecutive DayFromYear values. */
  lemma YearLength(y: int)
    ensures DayFromYear(y + 1) == DayFromYear(y) + DaysBeforeMonth(y, 12)
  {
    QuotientStep(y - 1969, 4);
    QuotientStep(y - 1901, 100);
    QuotientStep(y - 1601, 400);
    assert (y - 1968) % 4 == 0 <==> y % 4 == 0;
    assert (y - 1900) % 100 == 0 <==> y % 100 == 0;
    assert (y - 1600) % 400 == 0 <==> y % 400 == 0;
  }

  /** The valid date that day `d` of month `m` of year `y` stands for: a day
      before the 1st moves into the previous months, a day after the month's
      end into the following ones, keeping the day number. */
  function Roll(y: int, m: int, d: int): (dt: Date)
    requires 0 <= m < 12
    ensures Valid(dt)
    ensures DayNumber(dt) == DayOfMonthStart(y, m, d)
    decreases (if d < 1 then 1 - d else 0), (if d < 1 then 0 else d)
  {
    if d < 1 then
      var py, pm := if m == 0 then y - 1 else y, if m == 0 then 11 else m - 1;
      YearLength(y - 1);
      DaysBeforeNextMonth(py, pm);
      Roll(py, pm, d + DaysInMonth(py, pm))
    else if d > DaysInMonth(y, m) then
      var ny, nm := if m == 11 then y + 1 else y, if m == 11 then 0 else m + 1;
      YearLength(y);
      DaysBeforeNextMonth(y, m);
      Roll(ny, nm, d - DaysInMonth(y, m))
    else
      Date(y, m, d)
  }

  /** `new Date(y, m, d)` for integer arguments. Its day number is MakeDay's:
      the month carries into the year, and consecutive `d` give consecutive days. */
  function MakeDate(y: int, m: int, d: int): (dt: Date)
    ensures Valid(dt)
    ensures DayNumber(dt) == DayOfMonthStart(y + m / 12, m % 12, d)
  {
    Roll(y + m / 12, m % 12, d)
  }

  /** A date that already exists is constructed unchanged. */
  lemma MakeValidDate(dt: Date)
    requires Valid(dt)
    ensures MakeDate(dt.year, dt.month, dt.date) == dt
  {
    assert dt.month / 12 == 0 && dt.month % 12 == dt.month;
  }

  /** Months later in a year start later, by at least the lengths in between. */
  lemma {:induction false} DaysBeforeMonthMonotone(y: int, m1: int, m2: int)
    requires 0 <= m1 < m2 <= 12
    ensures DaysBeforeMonth(y, m1) + DaysInMonth(y, m1) <= DaysBeforeMonth(y, m2)
    decreases m2 - m1
  {
    DaysBeforeNextMonth(y, m1);
    if m1 + 1 < m2 {
      DaysBeforeMonthMonotone(y, m1 + 1, m2);
    }
  }

  /** Within one year, valid dates in (month, date) order have increasing day
      numbers, so their time values are at least a whole day apart. */
  lemma DayNumberMonotone(d1: Date, d2: Date)
    requires Valid(d1) && Valid(d2) && d1.year == d2.year
    requires d1.month < d2.month || (d1.month == d2.month && d1.date < d2.date)
    ensures DayNumber(d1) < DayNumber(d2)
    ensures Time(d1) + MsPerDay <= Time(d2)
  {
    if d1.month < d2.month {
      DaysBeforeMonthMonotone(d1.year, d1.month, d2.month);
    }
  }
}
