/** The proleptic Gregorian calendar of Python's `datetime.date`, on plain
    integers: valid dates (years 1 through 9999), the day number of a date
    (its ordinal: 1 January of year 1 is day 1), the weekday (Monday is 0),
    the day after a date, date comparison and replacing the year. */
module Calendar {
  import opened Outcomes
  import Text

  const MinYear := 1
  const MaxYear := 9999

  datatype Date = Date(year: int, month: int, day: int)

  /** The last date Python can represent: 31 December 9999. */
  const LastDate := Date(MaxYear, 12, 31)

  predicate IsLeap(y: int) {
    y % 4 == 0 && (y % 100 != 0 || y % 400 == 0)
  }

  function DaysInYear(y: int): int {
    if IsLeap(y) then 366 else 365
  }

  function DaysInMonth(y: int, m: int): (n: int)
    requires 1 <= m <= 12
    ensures 28 <= n <= 31
    ensures n == 29 <==> m == 2 && IsLeap(y)
  {
    if m == 2 then (if IsLeap(y) then 29 else 28)
    else if m == 4 || m == 6 || m == 9 || m == 11 then 30
    else 31
  }

  /** A date `datetime.date` accepts. */
  predicate ValidDate(d: Date) {
    MinYear <= d.year <= MaxYear && 1 <= d.month <= 12 && 1 <= d.day <= DaysInMonth(d.year, d.month)
  }

  /** Days in the years before `y`. */
  function DaysBeforeYear(y: int): int
    requires y >= 1
  {
    var p := y - 1;
    p * 365 + p / 4 - p / 100 + p / 400
  }

  /** Days in the months of year `y` before month `m` (for `m == 13`, the
      whole year). */
  function DaysBeforeMonth(y: int, m: int): (n: int)
    requires 1 <= m <= 13
    ensures m == 13 ==> n == DaysInYear(y)
    ensures m <= 12 ==> DaysBeforeMonth(y, m + 1) == n + DaysInMonth(y, m)
    decreases 13 - m
  {
    var cumulative := [0, 31, 59, 90, 120, 151, 181, 212, 243, 273, 304, 334, 365];
    cumulative[m - 1] + (if m > 2 && IsLeap(y) then 1 else 0)
  }

  /** The day number of a date: 1 January of year 1 is day 1. */
  function Ordinal(d: Date): int
    requires ValidDate(d)
  {
    DaysBeforeYear(d.year) + DaysBeforeMonth(d.year, d.month) + d.day
  }

  /** Day of the week, Monday = 0 ... Sunday = 6 (1 January of year 1 was a
      Monday). */
  function Weekday(d: Date): (w: int)
    requires ValidDate(d)
    ensures 0 <= w < 7
  {
    (Ordinal(d) + 6) % 7
  }

  /** `a < b` on Python dates: by year, then month, then day. */
  predicate Before(a: Date, b: Date) {
    a.year < b.year
    || (a.year == b.year && a.month < b.month)
    || (a.year == b.year && a.month == b.month && a.day < b.day)
  }

  /** One more year adds one to the count of multiples of 4, 100 and 400
      exactly when the new year is such a multiple. */
  lemma StepOfLeapCounts(p: int)
    requires p >= 0
    ensures (p + 1) / 4 == p / 4 + (if (p + 1) % 4 == 0 then 1 else 0)
    ensures (p + 1) / 100 == p / 100 + (if (p + 1) % 100 == 0 then 1 else 0)
    ensures (p + 1) / 400 == p / 400 + (if (p + 1) % 400 == 0 then 1 else 0)
  {
  }

  /** Year `y` contributes exactly its own length to the days before the
      next year. */
  lemma DaysBeforeNextYear(y: int)
    requires y >= 1
    ensures DaysBeforeYear(y + 1) == DaysBeforeYear(y) + DaysInYear(y)
  {
    var p := y - 1;
    StepOfLeapCounts(p);
    MultiplesNest(y);
    var a, b, c := p / 4, p / 100, p / 400;
    var a', b', c' := y / 4, y / 100, y / 400;
    assert DaysBeforeYear(y) == p * 365 + a - b + c;
    assert DaysBeforeYear(y + 1) == p * 365 + 365 + a' - b' + c';
  }

  /** A multiple of 400 is a multiple of 100, and a multiple of 100 is a
      multiple of 4. */
  lemma MultiplesNest(y: int)
    ensures y % 400 == 0 ==> y % 100 == 0
    ensures y % 100 == 0 ==> y % 4 == 0
  {
    var k := y / 400;
    assert y == 400 * k + y % 400;
    var j := y / 100;
    assert y == 100 * j + y % 100;
  }

  /** Every date of year `y` lies after all days before `y` and no later than
      the last day of `y`. */
  lemma OrdinalWithinYear(d: Date)
    requires ValidDate(d)
    ensures DaysBeforeYear(d.year) < Ordinal(d) <= DaysBeforeYear(d.year) + DaysInYear(d.year)
  {
    assert DaysBeforeMonth(d.year, d.month + 1) == DaysBeforeMonth(d.year, d.month) + DaysInMonth(d.year, d.month);
    assert DaysBeforeMonth(d.year, d.month + 1) <= DaysBeforeMonth(d.year, 13);
  }

  lemma {:induction false} DaysBeforeYearMonotone(y1: int, y2: int)
    requires 1 <= y1 < y2
    ensures DaysBeforeYear(y1) + DaysInYear(y1) <= DaysBeforeYear(y2)
    decreases y2 - y1
  {
    DaysBeforeNextYear(y1);
    if y1 + 1 < y2 {
      DaysBeforeYearMonotone(y1 + 1, y2);
    }
  }

  /** Python compares dates field by field; that order is exactly the order
      of their day numbers. */
  lemma BeforeIsOrdinalOrder(a: Date, b: Date)
    requires ValidDate(a) && ValidDate(b)
    ensures Before(a, b) <==> Ordinal(a) < Ordinal(b)
    ensures a == b <==> Ordinal(a) == Ordinal(b)
  {
    OrdinalWithinYear(a);
    OrdinalWithinYear(b);
    if a.year < b.year {
      DaysBeforeYearMonotone(a.year, b.year);
    } else if b.year < a.year {
      DaysBeforeYearMonotone(b.year, a.year);
    } else if a.month < b.month {
      DaysBeforeMonthMonotone(a.year, a.month + 1, b.month);
    } else if b.month < a.month {
      DaysBeforeMonthMonotone(a.year, b.month + 1, a.month);
    }
  }

  lemma {:induction false} DaysBeforeMonthMonotone(y: int, m1: int, m2: int)
    requires 1 <= m1 <= m2 <= 13
    ensures DaysBeforeMonth(y, m1) <= DaysBeforeMonth(y, m2)
    decreases m2 - m1
  {
    if m1 < m2 {
      DaysBeforeMonthMonotone(y, m1 + 1, m2);
    }
  }

  /** The calendar day after `d`; 31 December 9999 has none. */
  function NextDay(d: Date): (r: Date)
    requires ValidDate(d) && d != LastDate
    ensures ValidDate(r)
    ensures Ordinal(r) == Ordinal(d) + 1
  {
    if d.day < DaysInMonth(d.year, d.month) then Date(d.year, d.month, d.day + 1)
    else if d.month < 12 then Date(d.year, d.month + 1, 1)
    else
      DaysBeforeNextYear(d.year);
      Date(d.year + 1, 1, 1)
  }

  /** The weekday advances by one, Sunday wrapping round to Monday. */
  lemma WeekdayOfNextDay(d: Date)
    requires ValidDate(d) && d != LastDate
    ensures Weekday(NextDay(d)) == (Weekday(d) + 1) % 7
  {
    var n := Ordinal(d) + 6;
    var e := NextDay(d);
    assert Ordinal(e) + 6 == n + 1;
    ModSevenStep(n);
  }

  lemma ModSevenStep(n: int)
    ensures (n + 1) % 7 == (n % 7 + 1) % 7
  {
  }

  /** `date.replace(year=y)`: the same month and day in year `y`, or a
      ValueError when that is not a date (29 February outside a leap year,
      or a year outside 1..9999). */
  function ReplaceYear(d: Date, y: int): (r: Result<Date>)
    requires ValidDate(d)
    ensures r.Ok? <==> MinYear <= y <= MaxYear && (d.month == 2 && d.day == 29 ==> IsLeap(y))
    ensures r.Ok? ==> ValidDate(r.value) && r.value == d.(year := y)
    ensures r.Err? ==> r.error.ValueError?
  {
    if y < MinYear || y > MaxYear then Err(ValueError("year " + Text.IntText(y) + " is out of range"))
    else if d.day > DaysInMonth(y, d.month) then Err(ValueError("day is out of range for month"))
    else Ok(d.(year := y))
  }

  /** 31 December 9999 is a Friday, so no weekend date is the last date. */
  lemma LastDateIsFriday()
    ensures ValidDate(LastDate) && Weekday(LastDate) == 4
  {
    assert DaysBeforeYear(9999) == 3651694;
  }
}
