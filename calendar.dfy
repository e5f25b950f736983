/** The proleptic Gregorian calendar of Python's `datetime.date`: dates from
    0001-01-01 to 9999-12-31, numbered by their ordinal (0001-01-01 is day 1),
    moved by whole days and mapped to a weekday. */
module Calendar {
  import opened Wrappers

  datatype Date = Date(year: int, month: int, day: int)

  const MinYear := 1
  const MaxYear := 9999

  const FirstDate := Date(MinYear, 1, 1)
  const LastDate := Date(MaxYear, 12, 31)

  /** The ordinal of date.max. */
  function MaxOrdinal(): int {
    ToOrdinal(LastDate)
  }

  predicate IsLeap(y: int) {
    y % 4 == 0 && (y % 100 != 0 || y % 400 == 0)
  }

  function DaysInYear(y: int): int {
    if IsLeap(y) then 366 else 365
  }

  function DaysInMonth(y: int, m: int): (n: int)
    requires 1 <= m <= 12
    ensures 28 <= n <= 31
    ensures n == 29 <==> m == 2 && IsLeap(y)
  {
    if m == 2 then (if IsLeap(y) then 29 else 28)
    else if m == 4 || m == 6 || m == 9 || m == 11 then 30
    else 31
  }

  /** A date that `datetime.date` accepts. */
  predicate Valid(d: Date) {
    MinYear <= d.year <= MaxYear && 1 <= d.month <= 12 && 1 <= d.day <= DaysInMonth(d.year, d.month)
  }

  /** Days in the years from 1 up to, not including, `y`. */
  function DaysBeforeYear(y: int): int
    decreases y
  {
    if y <= 1 then 0 else DaysBeforeYear(y - 1) + DaysInYear(y - 1)
  }

  /** Days in the months of year `y` before month `m`. */
  function DaysBeforeMonth(y: int, m: int): int
    requires 1 <= m <= 12
  {
    var leap := if IsLeap(y) then 1 else 0;
    if m == 1 then 0
    else if m == 2 then 31
    else if m == 3 then 59 + leap
    else if m == 4 then 90 + leap
    else if m == 5 then 120 + leap
    else if m == 6 then 151 + leap
    else if m == 7 then 181 + leap
    else if m == 8 then 212 + leap
    else if m == 9 then 243 + leap
    else if m == 10 then 273 + leap
    else if m == 11 then 304 + leap
    else 334 + leap
  }

  /** The month table adds up: each month starts where the previous one ends,
      and December ends the year. */
  lemma MonthsAddUp(y: int, m: int)
    requires 1 <= m <= 12
    ensures m < 12 ==> DaysBeforeMonth(y, m + 1) == DaysBeforeMonth(y, m) + DaysInMonth(y, m)
    ensures m == 12 ==> DaysBeforeMonth(y, m) + DaysInMonth(y, m) == DaysInYear(y)
  {
  }

  /** One more year adds one more multiple of 4, 100 or 400 exactly when it
      is one. */
  lemma DivStep(q: int)
    ensures (q + 1) / 4 == q / 4 + (if (q + 1) % 4 == 0 then 1 else 0)
    ensures (q + 1) / 100 == q / 100 + (if (q + 1) % 100 == 0 then 1 else 0)
    ensures (q + 1) / 400 == q / 400 + (if (q + 1) % 400 == 0 then 1 else 0)
  {
  }

  /** The count of days before year `y` has the closed form of
      `_days_before_year`: 365 per year plus one per leap year. */
  lemma {:induction false} DaysBeforeYearClosed(y: int)
    requires y >= 1
    ensures DaysBeforeYear(y) == (y - 1) * 365 + (y - 1) / 4 - (y - 1) / 100 + (y - 1) / 400
    decreases y
  {
    if y > 1 {
      var n := y - 1;
      DaysBeforeYearClosed(n);
      DivStep(n - 1);
      LeapCount(n);
      assert DaysBeforeYear(y) == DaysBeforeYear(n) + DaysInYear(n);
      assert n * 365 == (n - 1) * 365 + 365;
    }
  }

  /** The closed form counts a year once as a multiple of 4, takes it back
      as a multiple of 100 and counts it again as a multiple of 400: one in
      all exactly for a leap year. */
  lemma LeapCount(n: int)
    ensures (if n % 4 == 0 then 1 else 0) - (if n % 100 == 0 then 1 else 0) + (if n % 400 == 0 then 1 else 0)
         == (if IsLeap(n) then 1 else 0)
  {
    if n % 100 == 0 {
      assert n == 4 * (25 * (n / 100));
    }
    if n % 400 == 0 {
      assert n == 100 * (4 * (n / 400));
    }
  }

  /** Each year adds its own length to the count of days before it. */
  lemma YearsAddUp(y: int)
    requires y >= 1
    ensures DaysBeforeYear(y + 1) == DaysBeforeYear(y) + DaysInYear(y)
  {
  }

  /** Later years start later. */
  lemma {:induction false} DaysBeforeYearMonotone(y1: int, y2: int)
    requires 1 <= y1 <= y2
    ensures DaysBeforeYear(y1) <= DaysBeforeYear(y2)
    decreases y2 - y1
  {
    if y1 < y2 {
      YearsAddUp(y1);
      DaysBeforeYearMonotone(y1 + 1, y2);
    }
  }

  /** Later months of a year start later. */
  lemma DaysBeforeMonthMonotone(y: int, m1: int, m2: int)
    requires 1 <= m1 < m2 <= 12
    ensures DaysBeforeMonth(y, m1) + DaysInMonth(y, m1) <= DaysBeforeMonth(y, m2)
  {
  }

  /** date.toordinal(). */
  function ToOrdinal(d: Date): int
    requires Valid(d)
  {
    DaysBeforeYear(d.year) + DaysBeforeMonth(d.year, d.month) + d.day
  }

  /** A date's ordinal lies within its year's share of the count. */
  lemma OrdinalWithinYear(d: Date)
    requires Valid(d)
    ensures DaysBeforeYear(d.year) < ToOrdinal(d) <= DaysBeforeYear(d.year + 1)
  {
    YearsAddUp(d.year);
    if d.month < 12 {
      DaysBeforeMonthMonotone(d.year, d.month, 12);
    }
    MonthsAddUp(d.year, 12);
  }

  /** date.min is day 1. */
  lemma FirstOrdinal()
    ensures Valid(FirstDate) && ToOrdinal(FirstDate) == 1
  {
  }

  lemma OrdinalAtLeastOne(d: Date)
    requires Valid(d)
    ensures 1 <= ToOrdinal(d)
  {
    OrdinalWithinYear(d);
    DaysBeforeYearMonotone(1, d.year);
  }

  lemma OrdinalAtMostMax(d: Date)
    requires Valid(d)
    ensures ToOrdinal(d) <= MaxOrdinal()
  {
    if d != LastDate {
      OrdinalIncreasing(d, LastDate);
    }
  }

  /** Every valid date has an ordinal between those of date.min and date.max. */
  lemma OrdinalRange(d: Date)
    requires Valid(d)
    ensures 1 <= ToOrdinal(d) <= MaxOrdinal()
  {
    OrdinalAtLeastOne(d);
    OrdinalAtMostMax(d);
  }

  /** Earlier dates have smaller ordinals. */
  lemma OrdinalIncreasing(a: Date, b: Date)
    requires Valid(a) && Valid(b)
    requires a.year < b.year
          || (a.year == b.year && a.month < b.month)
          || (a.year == b.year && a.month == b.month && a.day < b.day)
    ensures ToOrdinal(a) < ToOrdinal(b)
  {
    if a.year < b.year {
      OrdinalWithinYear(a);
      OrdinalWithinYear(b);
      DaysBeforeYearMonotone(a.year + 1, b.year);
    } else if a.month < b.month {
      DaysBeforeMonthMonotone(a.year, a.month, b.month);
    }
  }

  /** The ordinal determines the date. */
  lemma OrdinalInjective(a: Date, b: Date)
    requires Valid(a) && Valid(b) && ToOrdinal(a) == ToOrdinal(b)
    ensures a == b
  {
    if a.year < b.year || (a.year == b.year && a.month < b.month)
      || (a.year == b.year && a.month == b.month && a.day < b.day)
    {
      OrdinalIncreasing(a, b);
    } else if b.year < a.year || (a.year == b.year && b.month < a.month)
      || (a.year == b.year && a.month == b.month && b.day < a.day)
    {
      OrdinalIncreasing(b, a);
    }
  }

  /** The calendar day after `d`. */
  function NextDay(d: Date): Date
    requires Valid(d)
  {
    if d.day < DaysInMonth(d.year, d.month) then Date(d.year, d.month, d.day + 1)
    else if d.month < 12 then Date(d.year, d.month + 1, 1)
    else Date(d.year + 1, 1, 1)
  }

  /** Stepping to the next calendar day adds one to the ordinal. */
  lemma NextDayOrdinal(d: Date)
    requires Valid(d) && d != LastDate
    ensures Valid(NextDay(d))
    ensures ToOrdinal(NextDay(d)) == ToOrdinal(d) + 1
  {
    if d.day == DaysInMonth(d.year, d.month) {
      MonthsAddUp(d.year, d.month);
      if d.month == 12 {
        YearsAddUp(d.year);
      }
    }
  }

  /** date.fromordinal(n): the date reached from 0001-01-01 by n - 1 steps. */
  function FromOrdinal(n: int): (d: Date)
    requires 1 <= n <= MaxOrdinal()
    ensures Valid(d) && ToOrdinal(d) == n
  {
    if n == 1 then FirstDate
    else
      var p := FromOrdinal(n - 1);
      OrdinalRange(p);
      NextDayOrdinal(p);
      NextDay(p)
  }

  /** `d + timedelta(days=n)`: OverflowError when the result leaves the range
      of `date`. */
  function Shift(d: Date, n: int): (r: Result<Date, Exception>)
    requires Valid(d)
    ensures r.Ok? <==> 1 <= ToOrdinal(d) + n <= MaxOrdinal()
    ensures r.Ok? ==> Valid(r.value) && ToOrdinal(r.value) == ToOrdinal(d) + n
    ensures r.Err? ==> r.error == OverflowError
  {
    var k := ToOrdinal(d) + n;
    if 1 <= k <= MaxOrdinal() then Ok(FromOrdinal(k)) else Err(OverflowError)
  }

  /** Shifting by one day is stepping to the next calendar day, and by zero
      days changes nothing. */
  lemma ShiftByOne(d: Date)
    requires Valid(d) && d != LastDate
    ensures Shift(d, 1) == Ok(NextDay(d))
    ensures Shift(d, 0) == Ok(d)
  {
    NextDayOrdinal(d);
    OrdinalRange(d);
    OrdinalRange(NextDay(d));
    OrdinalInjective(Shift(d, 1).value, NextDay(d));
    OrdinalInjective(Shift(d, 0).value, d);
  }

  /** Shifting by `n` days and back by `n` days returns the original date. */
  lemma ShiftBack(d: Date, n: int)
    requires Valid(d) && Shift(d, n).Ok?
    ensures Shift(Shift(d, n).value, -n) == Ok(d)
  {
    var e := Shift(d, n).value;
    OrdinalRange(d);
    OrdinalInjective(Shift(e, -n).value, d);
  }

  /** Shifts compose while they stay in range. */
  lemma ShiftTwice(d: Date, m: int, n: int)
    requires Valid(d) && Shift(d, m).Ok? && Shift(Shift(d, m).value, n).Ok?
    ensures Shift(d, m + n) == Shift(Shift(d, m).value, n)
  {
    OrdinalInjective(Shift(d, m + n).value, Shift(Shift(d, m).value, n).value);
  }

  /** The weekday, Monday 1 to Sunday 7, of the day with ordinal `n`. */
  function WeekDayOf(n: int): (w: int)
    ensures 1 <= w <= 7
  {
    (n + 6) % 7 + 1
  }

  /** date.weekday() + 1. */
  function WeekDay(d: Date): (w: int)
    requires Valid(d)
    ensures 1 <= w <= 7
  {
    WeekDayOf(ToOrdinal(d))
  }

  /** 0001-01-01 was a Monday. */
  lemma FirstDateIsMonday()
    ensures WeekDay(FirstDate) == 1
  {
    FirstOrdinal();
  }

  /** The weekdays cycle with the days. */
  lemma WeekDayCycles(d: Date)
    requires Valid(d) && d != LastDate
    ensures WeekDay(NextDay(d)) == WeekDay(d) % 7 + 1
  {
    NextDayOrdinal(d);
    WeekDayOfStep(ToOrdinal(d));
  }

  lemma WeekDayOfStep(n: int)
    ensures WeekDayOf(n + 1) == WeekDayOf(n) % 7 + 1
    ensures WeekDayOf(n + 7) == WeekDayOf(n)
  {
  }

  /** Seven days later is the same weekday. */
  lemma WeekDayAfterAWeek(d: Date)
    requires Valid(d) && Shift(d, 7).Ok?
    ensures WeekDay(Shift(d, 7).value) == WeekDay(d)
  {
    WeekDayOfStep(ToOrdinal(d));
  }
}
