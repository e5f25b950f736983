/** The date and time helpers of DateTimeUtils for the layouts "%Y-%m-%d",
    "%Y%m%d" and "%H:%M:%S": each reads its input with strptime, computes on
    the date or the time of day, and writes the result with strftime. A
    strptime failure is a ValueError, a date leaving 0001..9999 an
    OverflowError. The current year, which get_month_end_day reads from the
    clock, is a parameter. */
module DateTimeUtils {
  import opened Wrappers
  import opened Calendar
  import opened DateFormat

  const SecondsPerDay := 86400

  // ---------------------------------------------------------------------
  // get_day_by_caculate

  /** The day `days` days after (before, when negative) the date in `time`,
      written in the same layout; the time of day is kept. */
  function GetDayByCalculate(time: string, days: int, p: Pattern): (r: Result<string, Exception>)
    ensures Parse(time, p).Err? ==> r == Err(ValueError)
    ensures Parse(time, p).Ok? ==> (r.Ok? <==> Shift(Parse(time, p).value.date, days).Ok?)
    ensures Parse(time, p).Ok? && r.Err? ==> r.error == OverflowError
  {
    match Parse(time, p)
    case Err(e) => Err(e)
    case Ok(st) =>
      match Shift(st.date, days)
      case Err(e) => Err(e)
      case Ok(d) => Ok(Format(Stamp(d, st.hour, st.minute, st.second), p))
  }

  /** With a date layout, the result names the date `days` days from the
      input's: its ordinal is the input's plus `days`. */
  lemma GetDayMovesByDays(time: string, days: int, p: Pattern)
    requires p != ClockTime && GetDayByCalculate(time, days, p).Ok?
    ensures Parse(GetDayByCalculate(time, days, p).value, p).Ok?
    ensures ToOrdinal(Parse(GetDayByCalculate(time, days, p).value, p).value.date)
         == ToOrdinal(Parse(time, p).value.date) + days
  {
    var st := Parse(time, p).value;
    var d := Shift(st.date, days).value;
    ParseFormat(Stamp(d, st.hour, st.minute, st.second), p);
  }

  /** With a date layout, moving by `days` and back by `days` gives the input
      date again, in its zero-padded form. */
  lemma GetDayThereAndBack(time: string, days: int, p: Pattern)
    requires p != ClockTime && GetDayByCalculate(time, days, p).Ok?
    ensures GetDayByCalculate(GetDayByCalculate(time, days, p).value, -days, p)
         == Ok(Format(Parse(time, p).value, p))
  {
    var st := Parse(time, p).value;
    var d := Shift(st.date, days).value;
    ParseFormat(Stamp(d, st.hour, st.minute, st.second), p);
    ShiftBack(st.date, days);
  }

  /** With the clock layout the date is 1900-01-01 and is not written back:
      the result is the input time, zero-padded. */
  lemma GetDayKeepsClock(time: string, days: int)
    requires GetDayByCalculate(time, days, ClockTime).Ok?
    ensures GetDayByCalculate(time, days, ClockTime) == Ok(Format(Parse(time, ClockTime).value, ClockTime))
  {
  }

  /** The examples of the documentation: the day before 2023-05-11 is
      2023-05-10, the day after 2023-04-12 is 2023-04-13, and 366 days before
      2023-04-12 is 2022-04-11 (2022-04-12 to 2023-04-12 spans 365 days, so
      the documented 2022-04-13 is two days off). */
  lemma GetDayExamples()
    ensures GetDayByCalculate("2023-05-11", -1, DashedDate) == Ok("2023-05-10")
    ensures GetDayByCalculate("2023-04-12", 1, DashedDate) == Ok("2023-04-13")
    ensures GetDayByCalculate("2023-04-12", -366, DashedDate) == Ok("2022-04-11")
  {
    PreviousDayExample();
    NextDayExample();
    YearBackExample();
  }

  /** A zero-padded dashed date names the stamp of that date at midnight. */
  lemma DashedText(y: int, m: int, d: int, text: string)
    requires Valid(Date(y, m, d))
    requires text == Pad(y, 4) + "-" + Pad(m, 2) + "-" + Pad(d, 2)
    ensures Format(Stamp(Date(y, m, d), 0, 0, 0), DashedDate) == text
    ensures Parse(text, DashedDate) == Ok(Stamp(Date(y, m, d), 0, 0, 0))
  {
    ParseDashed(Stamp(Date(y, m, d), 0, 0, 0));
  }

  /** Moving a dashed date at midnight by `n` days writes the date whose
      ordinal is `n` more. */
  lemma ShiftDashed(a: Date, n: int, b: Date)
    requires Valid(a) && Valid(b) && ToOrdinal(b) == ToOrdinal(a) + n
    ensures GetDayByCalculate(Format(Stamp(a, 0, 0, 0), DashedDate), n, DashedDate)
         == Ok(Format(Stamp(b, 0, 0, 0), DashedDate))
  {
    ParseDashed(Stamp(a, 0, 0, 0));
    OrdinalRange(b);
    OrdinalInjective(Shift(a, n).value, b);
  }

  /** The digits of the years the examples use. */
  lemma YearDigits(y: int)
    requires y == 2022 || y == 2023
    ensures y / 1000 == 2 && y / 100 % 10 == 0 && y / 10 % 10 == 2 && y % 10 == y - 2020
  {
  }

  lemma Written20230511(y: int, m: int, d: int)
    requires y == 2023 && m == 5 && d == 11
    ensures Format(Stamp(Date(y, m, d), 0, 0, 0), DashedDate) == "2023-05-11"
  {
    DashedDigits(Stamp(Date(y, m, d), 0, 0, 0));
    YearDigits(y);
  }

  lemma Written20230510(y: int, m: int, d: int)
    requires y == 2023 && m == 5 && d == 10
    ensures Format(Stamp(Date(y, m, d), 0, 0, 0), DashedDate) == "2023-05-10"
  {
    DashedDigits(Stamp(Date(y, m, d), 0, 0, 0));
    YearDigits(y);
  }

  lemma Written20230412(y: int, m: int, d: int)
    requires y == 2023 && m == 4 && d == 12
    ensures Format(Stamp(Date(y, m, d), 0, 0, 0), DashedDate) == "2023-04-12"
  {
    DashedDigits(Stamp(Date(y, m, d), 0, 0, 0));
    YearDigits(y);
  }

  lemma Written20230413(y: int, m: int, d: int)
    requires y == 2023 && m == 4 && d == 13
    ensures Format(Stamp(Date(y, m, d), 0, 0, 0), DashedDate) == "2023-04-13"
  {
    DashedDigits(Stamp(Date(y, m, d), 0, 0, 0));
    YearDigits(y);
  }

  lemma Written20220411(y: int, m: int, d: int)
    requires y == 2022 && m == 4 && d == 11
    ensures Format(Stamp(Date(y, m, d), 0, 0, 0), DashedDate) == "2022-04-11"
  {
    DashedDigits(Stamp(Date(y, m, d), 0, 0, 0));
    YearDigits(y);
  }

  lemma PreviousDayExample()
    ensures GetDayByCalculate("2023-05-11", -1, DashedDate) == Ok("2023-05-10")
  {
    Written20230511(2023, 5, 11);
    Written20230510(2023, 5, 10);
    ShiftDashed(Date(2023, 5, 11), -1, Date(2023, 5, 10));
  }

  lemma NextDayExample()
    ensures GetDayByCalculate("2023-04-12", 1, DashedDate) == Ok("2023-04-13")
  {
    Written20230412(2023, 4, 12);
    Written20230413(2023, 4, 13);
    ShiftDashed(Date(2023, 4, 12), 1, Date(2023, 4, 13));
  }

  lemma YearBackExample()
    ensures GetDayByCalculate("2023-04-12", -366, DashedDate) == Ok("2022-04-11")
  {
    Written20230412(2023, 4, 12);
    Written20220411(2022, 4, 11);
    YearsAddUp(2022);
    ShiftDashed(Date(2023, 4, 12), -366, Date(2022, 4, 11));
  }

  // ---------------------------------------------------------------------
  // get_week_day

  /** The weekday of the date in `time`, Monday 1 to Sunday 7. */
  function GetWeekDay(time: string, p: Pattern): (r: Result<int, Exception>)
    ensures r.Ok? <==> Parse(time, p).Ok?
    ensures r.Ok? ==> 1 <= r.value <= 7 && r.value == WeekDay(Parse(time, p).value.date)
    ensures r.Err? ==> r.error == ValueError
  {
    match Parse(time, p)
    case Err(e) => Err(e)
    case Ok(st) => Ok(WeekDay(st.date))
  }

  /** A week later is the same weekday, and a day later the next one. */
  lemma WeekDayOfShiftedDay(time: string, p: Pattern)
    requires p != ClockTime
    ensures GetDayByCalculate(time, 7, p).Ok? ==>
              GetWeekDay(GetDayByCalculate(time, 7, p).value, p) == GetWeekDay(time, p)
    ensures GetDayByCalculate(time, 1, p).Ok? ==>
              GetWeekDay(GetDayByCalculate(time, 1, p).value, p).Ok? &&
              GetWeekDay(GetDayByCalculate(time, 1, p).value, p).value == GetWeekDay(time, p).value % 7 + 1
  {
    if GetDayByCalculate(time, 7, p).Ok? {
      WeekLater(time, p);
    }
    if GetDayByCalculate(time, 1, p).Ok? {
      DayLater(time, p);
    }
  }

  lemma WeekLater(time: string, p: Pattern)
    requires p != ClockTime && GetDayByCalculate(time, 7, p).Ok?
    ensures GetWeekDay(GetDayByCalculate(time, 7, p).value, p) == GetWeekDay(time, p)
  {
    var n := ToOrdinal(Parse(time, p).value.date);
    var later := GetDayByCalculate(time, 7, p).value;
    GetDayMovesByDays(time, 7, p);
    WeekDayOfStep(n);
    assert GetWeekDay(later, p).value == WeekDayOf(n + 7);
    assert GetWeekDay(time, p).value == WeekDayOf(n);
  }

  lemma DayLater(time: string, p: Pattern)
    requires p != ClockTime && GetDayByCalculate(time, 1, p).Ok?
    ensures GetWeekDay(GetDayByCalculate(time, 1, p).value, p).Ok?
    ensures GetWeekDay(GetDayByCalculate(time, 1, p).value, p).value == GetWeekDay(time, p).value % 7 + 1
  {
    var n := ToOrdinal(Parse(time, p).value.date);
    var later := GetDayByCalculate(time, 1, p).value;
    GetDayMovesByDays(time, 1, p);
    WeekDayOfStep(n);
    assert GetWeekDay(later, p).value == WeekDayOf(n + 1);
    assert GetWeekDay(time, p).value == WeekDayOf(n);
  }

  /** With the clock layout the date is 1900-01-01, a Monday. */
  lemma ClockWeekDay(time: string)
    requires Parse(time, ClockTime).Ok?
    ensures GetWeekDay(time, ClockTime) == Ok(1)
  {
    DaysBeforeYearClosed(1900);
    assert ToOrdinal(DefaultDate) == 693596;
  }

  // ---------------------------------------------------------------------
  // check_pattern and change_pattern

  /** check_pattern: whether strptime accepts `time`; it never raises. */
  function CheckPattern(time: string, p: Pattern): (ok: bool)
    ensures ok <==> Parse(time, p).Ok?
  {
    Parse(time, p).Ok?
  }

  /** Whatever strftime writes in a layout passes the check for it. */
  lemma CheckPatternAcceptsFormatted(st: Stamp, p: Pattern)
    requires ValidStamp(st)
    ensures CheckPattern(Format(st, p), p)
  {
    ParseFormat(st, p);
  }

  /** The documented examples: "2023-09-06" is not "%Y%m%d" and is
      "%Y-%m-%d". */
  lemma CheckPatternExamples()
    ensures !CheckPattern("2023-09-06", BasicDate)
    ensures CheckPattern("2023-09-06", DashedDate)
  {
    DashedAccepted();
    BasicRejected();
  }

  lemma DashedAccepted()
    ensures CheckPattern("2023-09-06", DashedDate)
  {
    Written20230906(2023, 9, 6);
    CheckPatternAcceptsFormatted(Stamp(Date(2023, 9, 6), 0, 0, 0), DashedDate);
  }

  lemma BasicRejected()
    ensures !CheckPattern("2023-09-06", BasicDate)
  {
    BasicRejectsDashes("2023", "-09-06");
    assert "2023-09-06" == "2023" + "-09-06";
  }

  lemma Written20230906(y: int, m: int, d: int)
    requires y == 2023 && m == 9 && d == 6
    ensures Format(Stamp(Date(y, m, d), 0, 0, 0), DashedDate) == "2023-09-06"
  {
    DashedDigits(Stamp(Date(y, m, d), 0, 0, 0));
    YearDigits(y);
  }

  /** After four digits of year, "%Y%m%d" needs a month digit: a dash there
      leaves no alternative to backtrack to. */
  lemma BasicRejectsDashes(year: string, rest: string)
    requires |year| == 4 && forall i :: 0 <= i < 4 ==> '0' <= year[i] <= '9'
    requires rest != [] && rest[0] == '-'
    ensures Parse(year + rest, BasicDate).Err?
  {
    var t := year + rest;
    var toks := Tokens(BasicDate);
    assert toks[1..] == [Directive(Month), Directive(Day)];
    assert t[4..] == rest;
    var malts := Alternatives(Month);
    assert !Matches(malts[0], rest) && !Matches(malts[1], rest) && !Matches(malts[2], rest);
    assert TryAlternatives(malts[2..][1..], [Directive(Day)], rest) == None;
    assert MatchFrom([Directive(Month), Directive(Day)], rest) == None;
    var yalts := Alternatives(Year);
    assert yalts[1..] == [];
    assert MatchFrom(toks, t) == None;
  }

  /** change_pattern: read `time` in one layout and write it in another. */
  function ChangePattern(time: string, from: Pattern, to: Pattern): (r: Result<string, Exception>)
    ensures r.Ok? <==> Parse(time, from).Ok?
    ensures r.Err? ==> r.error == ValueError
  {
    match Parse(time, from)
    case Err(e) => Err(e)
    case Ok(st) => Ok(Format(st, to))
  }

  /** Between the two date layouts the date is kept: converting there and
      back gives the zero-padded form of the input. */
  lemma ChangePatternThereAndBack(time: string, from: Pattern, to: Pattern)
    requires from != ClockTime && to != ClockTime && Parse(time, from).Ok?
    ensures Parse(ChangePattern(time, from, to).value, to) == Parse(time, from)
    ensures ChangePattern(ChangePattern(time, from, to).value, to, from) == Ok(Format(Parse(time, from).value, from))
  {
    ParseFormat(Parse(time, from).value, to);
  }

  /** The documented example converts "2023-05-11" to "20230511" (the
      documentation prints 20230510). */
  lemma ChangePatternExample()
    ensures ChangePattern("2023-05-11", DashedDate, BasicDate) == Ok("20230511")
  {
    Written20230511(2023, 5, 11);
    Basic20230511(2023, 5, 11);
    DashedToBasic(Stamp(Date(2023, 5, 11), 0, 0, 0));
  }

  /** A date strftime wrote as "%Y-%m-%d" is rewritten as "%Y%m%d". */
  lemma DashedToBasic(st: Stamp)
    requires ValidStamp(st)
    ensures ChangePattern(Format(st, DashedDate), DashedDate, BasicDate) == Ok(Format(st, BasicDate))
  {
    ParseDashed(st);
  }

  lemma Basic20230511(y: int, m: int, d: int)
    requires y == 2023 && m == 5 && d == 11
    ensures Format(Stamp(Date(y, m, d), 0, 0, 0), BasicDate) == "20230511"
  {
    PadFour(y);
    PadTwo(m);
    PadTwo(d);
    YearDigits(y);
  }

  // ---------------------------------------------------------------------
  // split_times

  /** The dictionary split_times returns. */
  datatype TimeParts = TimeParts(year: int, month: int, day: int, hour: int, minute: int,
                                 second: int, microsecond: int)

  function SplitTimes(time: string, p: Pattern): (r: Result<TimeParts, Exception>)
    ensures r.Ok? <==> Parse(time, p).Ok?
    ensures r.Err? ==> r.error == ValueError
    ensures r.Ok? ==>
              r.value.microsecond == 0 && 1 <= r.value.month <= 12 && 1 <= r.value.day <= 31
              && 0 <= r.value.hour < 24 && 0 <= r.value.minute < 60 && 0 <= r.value.second < 60
  {
    match Parse(time, p)
    case Err(e) => Err(e)
    case Ok(st) => Ok(TimeParts(st.date.year, st.date.month, st.date.day, st.hour, st.minute, st.second, 0))
  }

  /** Splitting what strftime wrote gives back the fields the layout shows,
      and 1900-01-01 or midnight for the others. */
  lemma SplitFormatted(st: Stamp, p: Pattern)
    requires ValidStamp(st)
    ensures p != ClockTime ==>
              SplitTimes(Format(st, p), p) == Ok(TimeParts(st.date.year, st.date.month, st.date.day, 0, 0, 0, 0))
    ensures p == ClockTime ==>
              SplitTimes(Format(st, p), p) == Ok(TimeParts(1900, 1, 1, st.hour, st.minute, st.second, 0))
  {
    ParseFormat(st, p);
  }

  // ---------------------------------------------------------------------
  // caculate_times

  /** The result of caculate_times: a whole number, or, for the modes that
      divide, the exact quotient before rounding. */
  datatype Difference = Whole(n: int) | Quotient(num: int, den: int)

  /** Seconds from 0001-01-01 00:00:00 to the stamp. */
  function Seconds(st: Stamp): int
    requires ValidStamp(st)
  {
    (ToOrdinal(st.date) - 1) * SecondsPerDay + st.hour * 3600 + st.minute * 60 + st.second
  }

  /** `end - start` in the unit `mode` names. */
  function CalculateTimes(start: string, end: string, p: Pattern, mode: string): (r: Result<Difference, Exception>)
    ensures r.Ok? <==> Parse(start, p).Ok? && Parse(end, p).Ok? && mode in {"s", "min", "h", "day", "month", "year"}
    ensures r.Err? ==> r.error == ValueError
    ensures r.Ok? && mode == "s" ==> r.value == Whole(Seconds(Parse(end, p).value) - Seconds(Parse(start, p).value))
    ensures r.Ok? && mode == "day" ==>
              r.value.Whole? &&
              r.value.n * SecondsPerDay <= Seconds(Parse(end, p).value) - Seconds(Parse(start, p).value)
                                         < (r.value.n + 1) * SecondsPerDay
  {
    match Parse(start, p)
    case Err(e) => Err(e)
    case Ok(d1) =>
      match Parse(end, p)
      case Err(e) => Err(e)
      case Ok(d2) =>
        var diff := Seconds(d2) - Seconds(d1);
        var days := diff / SecondsPerDay;
        if mode == "s" then Ok(Whole(diff))
        else if mode == "min" then Ok(Quotient(diff, 60))
        else if mode == "h" then Ok(Quotient(diff, 3600))
        else if mode == "day" then Ok(Whole(days))
        else if mode == "month" then Ok(Quotient(days, 30))
        else if mode == "year" then Ok(Quotient(days, 365))
        else Err(ValueError)
  }

  /** With a date layout, "day" counts the days between the dates: moving a
      date by `n` days and measuring gives `n`. */
  lemma DaysBetweenShiftedDates(time: string, n: int, p: Pattern)
    requires p != ClockTime && GetDayByCalculate(time, n, p).Ok?
    ensures CalculateTimes(time, GetDayByCalculate(time, n, p).value, p, "day") == Ok(Whole(n))
  {
    GetDayMovesByDays(time, n, p);
    var text := GetDayByCalculate(time, n, p).value;
    var a := Parse(time, p).value;
    var b := Parse(text, p).value;
    assert a.hour == 0 && a.minute == 0 && a.second == 0 by {
      assert Project(a, p) == a;
    }
    assert b.hour == 0 && b.minute == 0 && b.second == 0 by {
      assert Project(b, p) == b;
    }
    SecondsBetweenDates(a, b);
    WholeDays(n);
    assert (Seconds(b) - Seconds(a)) / SecondsPerDay == n;
  }

  /** Two stamps at the same time of day lie whole days apart. */
  lemma SecondsBetweenDates(a: Stamp, b: Stamp)
    requires ValidStamp(a) && ValidStamp(b)
    requires a.hour == b.hour && a.minute == b.minute && a.second == b.second
    ensures Seconds(b) - Seconds(a) == (ToOrdinal(b.date) - ToOrdinal(a.date)) * SecondsPerDay
  {
  }

  lemma WholeDays(n: int)
    ensures n * SecondsPerDay / SecondsPerDay == n
  {
  }

  /** Measuring is antisymmetric: swapping the ends negates the seconds. */
  lemma SecondsAntisymmetric(start: string, end: string, p: Pattern)
    requires CalculateTimes(start, end, p, "s").Ok?
    ensures CalculateTimes(end, start, p, "s") == Ok(Whole(-CalculateTimes(start, end, p, "s").value.n))
  {
  }

  // ---------------------------------------------------------------------
  // format_second_to_time

  /** str(n) for an integer. */
  function IntText(n: int): string {
    if n < 0 then "-" + Digits(-n) else Digits(n)
  }

  /** The largest day count a timedelta holds. */
  const MaxDeltaDays := 999999999

  /** str(timedelta(seconds=s)) for a whole number of seconds (None gives
      "--:--:--"): "H:MM:SS", preceded by "N day, " or "N days, " when the
      floored day count N is not 0; OverflowError beyond the range of
      timedelta. */
  function FormatSecondToTime(second: Option<int>): (r: Result<string, Exception>)
    ensures second.None? ==> r == Ok("--:--:--")
    ensures second.Some? ==> (r.Ok? <==> -MaxDeltaDays <= second.value / SecondsPerDay <= MaxDeltaDays)
    ensures r.Err? ==> r.error == OverflowError
  {
    match second
    case None => Ok("--:--:--")
    case Some(s) =>
      var days := s / SecondsPerDay;
      var rest := s % SecondsPerDay;
      if days < -MaxDeltaDays || days > MaxDeltaDays then Err(OverflowError)
      else
        var clock := Digits(rest / 3600) + ":" + Pad(rest % 3600 / 60, 2) + ":" + Pad(rest % 60, 2);
        if days == 0 then Ok(clock)
        else Ok(IntText(days) + (if days == 1 || days == -1 then " day, " else " days, ") + clock)
  }

  /** Within a day the text is a clock time that "%H:%M:%S" reads back to
      the same number of seconds after midnight. */
  lemma FormatSecondToTimeReadsBack(s: int)
    requires 0 <= s < SecondsPerDay
    ensures FormatSecondToTime(Some(s)).Ok?
    ensures Parse(FormatSecondToTime(Some(s)).value, ClockTime).Ok?
    ensures var st := Parse(FormatSecondToTime(Some(s)).value, ClockTime).value;
            st.hour * 3600 + st.minute * 60 + st.second == s
  {
    var h, m, sec := s / 3600, s % 3600 / 60, s % 60;
    ClockFields(s);
    assert s / SecondsPerDay == 0 && s % SecondsPerDay == s;
    assert FormatSecondToTime(Some(s)) == Ok(Digits(h) + ":" + Pad(m, 2) + ":" + Pad(sec, 2));
    ParseShortClock(h, m, sec);
  }

  /** Hours, minutes and seconds of a time of day add up to it again. */
  lemma ClockFields(s: int)
    requires 0 <= s < SecondsPerDay
    ensures 0 <= s / 3600 < 24 && 0 <= s % 3600 / 60 < 60 && 0 <= s % 60 < 60
    ensures s / 3600 * 3600 + s % 3600 / 60 * 60 + s % 60 == s
  {
    var r := s % 3600;
    assert s == s / 3600 * 3600 + r;
    assert r == r / 60 * 60 + r % 60;
    assert r % 60 == s % 60 by {
      assert s == (s / 3600 * 60 + r / 60) * 60 + r % 60;
    }
  }

  /** The time caculate_times measures from midnight to the text of `s`
      seconds is `s`. */
  lemma FormatThenMeasure(s: int)
    requires 0 <= s < SecondsPerDay
    ensures CalculateTimes("0:00:00", FormatSecondToTime(Some(s)).value, ClockTime, "s") == Ok(Whole(s))
  {
    var text := FormatSecondToTime(Some(s)).value;
    FormatSecondToTimeReadsBack(s);
    MidnightRead();
    var st := Parse(text, ClockTime).value;
    assert st.date == DefaultDate;
    assert Seconds(st) - Seconds(Stamp(DefaultDate, 0, 0, 0)) == s;
  }

  /** "0:00:00" is midnight. */
  lemma MidnightRead()
    ensures Parse("0:00:00", ClockTime) == Ok(Stamp(DefaultDate, 0, 0, 0))
  {
    ParseShortClock(0, 0, 0);
    assert Digits(0) + ":" + Pad(0, 2) + ":" + Pad(0, 2) == "0:00:00";
  }

  /** Whole days are written in front of the clock time. */
  lemma FormatSecondToTimeExamples()
    ensures FormatSecondToTime(Some(0)) == Ok("0:00:00")
    ensures FormatSecondToTime(Some(3661)) == Ok("1:01:01")
    ensures FormatSecondToTime(Some(90000)) == Ok("1 day, 1:00:00")
    ensures FormatSecondToTime(Some(-1)) == Ok("-1 day, 23:59:59")
  {
    MidnightText();
    OneHourText();
    OneDayText();
    MinusOneText();
  }

  lemma MidnightText()
    ensures FormatSecondToTime(Some(0)) == Ok("0:00:00")
  {
    assert Pad(0, 2) == "00" && Digits(0) == "0";
    var clock := Digits(0) + ":" + Pad(0, 2) + ":" + Pad(0, 2);
    assert clock == "0:00:00";
    assert FormatSecondToTime(Some(0)) == Ok(clock);
  }

  lemma OneHourText()
    ensures FormatSecondToTime(Some(3661)) == Ok("1:01:01")
  {
    assert 3661 / SecondsPerDay == 0 && 3661 % SecondsPerDay == 3661;
    assert 3661 / 3600 == 1 && 3661 % 3600 / 60 == 1 && 3661 % 60 == 1;
    assert Pad(1, 2) == "01" && Digits(1) == "1";
    var clock := Digits(1) + ":" + Pad(1, 2) + ":" + Pad(1, 2);
    assert clock == "1:01:01";
    assert FormatSecondToTime(Some(3661)) == Ok(clock);
  }

  lemma OneDayText()
    ensures FormatSecondToTime(Some(90000)) == Ok("1 day, 1:00:00")
  {
    assert 90000 / SecondsPerDay == 1 && 90000 % SecondsPerDay == 3600;
    assert 3600 / 3600 == 1 && 3600 % 3600 / 60 == 0 && 3600 % 60 == 0;
    assert Pad(0, 2) == "00" && Digits(1) == "1" && IntText(1) == "1";
    var clock := Digits(1) + ":" + Pad(0, 2) + ":" + Pad(0, 2);
    assert clock == "1:00:00";
    assert FormatSecondToTime(Some(90000)) == Ok(IntText(1) + " day, " + clock);
    assert IntText(1) + " day, " + clock == "1 day, 1:00:00";
  }

  lemma MinusOneText()
    ensures FormatSecondToTime(Some(-1)) == Ok("-1 day, 23:59:59")
  {
    assert -1 / SecondsPerDay == -1 && -1 % SecondsPerDay == 86399;
    assert 86399 / 3600 == 23 && 86399 % 3600 / 60 == 59 && 86399 % 60 == 59;
    LastSecondClock();
    MinusOneDay();
  }

  lemma LastSecondClock()
    ensures Digits(23) + ":" + Pad(59, 2) + ":" + Pad(59, 2) == "23:59:59"
  {
    assert Pad(59, 2) == "59" && Digits(23) == "23";
  }

  lemma MinusOneDay()
    ensures IntText(-1) + " day, " + "23:59:59" == "-1 day, 23:59:59"
  {
    assert IntText(-1) == "-1";
  }

  // ---------------------------------------------------------------------
  // get_month_end_day

  /** get_month_end_day as written: the first day of the following month is
      built in the current year, so for December it is January 1st of the
      same year, and the day before it is December 31st of the previous
      year. */
  function MonthEndDayAsWritten(thisYear: int, month: int, p: Pattern): (r: Result<string, Exception>)
    requires MinYear <= thisYear <= MaxYear
    ensures (month < 1 || month > 12) <==> r == Err(PlainException)
  {
    if month < 1 || month > 12 then Err(PlainException)
    else
      var next := if month != 12 then month + 1 else 1;
      var start := Pad(thisYear, 4) + "-" + Pad(next, 2) + "-01";
      match GetDayByCalculate(start, -1, DashedDate)
      case Err(e) => Err(e)
      case Ok(end) => if p == DashedDate then Ok(end) else ChangePattern(end, DashedDate, p)
  }

  /** The last day of `month` in `year`. */
  function LastDayOf(year: int, month: int): (d: Date)
    requires MinYear <= year <= MaxYear && 1 <= month <= 12
    ensures Valid(d) && d.year == year && d.month == month
  {
    Date(year, month, DaysInMonth(year, month))
  }

  /** get_month_end_day with December's following month in the next year:
      the last day of `month` in the current year. */
  function MonthEndDay(thisYear: int, month: int, p: Pattern): (r: Result<string, Exception>)
    requires MinYear <= thisYear <= MaxYear
    ensures (month < 1 || month > 12) <==> r == Err(PlainException)
  {
    if month < 1 || month > 12 then Err(PlainException)
    else if month == 12 then Ok(Format(Stamp(Date(thisYear, 12, 31), 0, 0, 0), p))
    else MonthEndDayAsWritten(thisYear, month, p)
  }

  /** The corrected function gives the last day of the month: a date of that
      month and year whose next day is the first of another month. */
  lemma MonthEndDayIsLastDay(thisYear: int, month: int, p: Pattern)
    requires MinYear <= thisYear <= MaxYear && 1 <= month <= 12 && p != ClockTime
    ensures MonthEndDay(thisYear, month, p) == Ok(Format(Stamp(LastDayOf(thisYear, month), 0, 0, 0), p))
    ensures LastDayOf(thisYear, month) != LastDate ==> NextDay(LastDayOf(thisYear, month)).day == 1
  {
    if month < 12 {
      AsWrittenBeforeDecember(thisYear, month, p);
    }
  }

  /** Before December the code as written finds the last day of the month. */
  lemma AsWrittenBeforeDecember(thisYear: int, month: int, p: Pattern)
    requires MinYear <= thisYear <= MaxYear && 1 <= month < 12 && p != ClockTime
    ensures MonthEndDayAsWritten(thisYear, month, p) == Ok(Format(Stamp(LastDayOf(thisYear, month), 0, 0, 0), p))
  {
    MonthEve(thisYear, month);
    ParseDashed(Stamp(LastDayOf(thisYear, month), 0, 0, 0));
  }

  /** The day before the first of the next month, read from the text
      get_month_end_day builds, is the month's last day. */
  lemma MonthEve(thisYear: int, month: int)
    requires MinYear <= thisYear <= MaxYear && 1 <= month < 12
    ensures GetDayByCalculate(Pad(thisYear, 4) + "-" + Pad(month + 1, 2) + "-01", -1, DashedDate)
         == Ok(Format(Stamp(LastDayOf(thisYear, month), 0, 0, 0), DashedDate))
  {
    var last := LastDayOf(thisYear, month);
    var first := Date(thisYear, month + 1, 1);
    DashedText(thisYear, month + 1, 1, Pad(thisYear, 4) + "-" + Pad(month + 1, 2) + "-01");
    ShiftByOne(last);
    assert NextDay(last) == first;
    ShiftBack(last, 1);
    assert Shift(first, -1) == Ok(last);
  }

  /** For December the code as written returns December 31st of the
      previous year, and raises OverflowError in year 1. */
  lemma AsWrittenDecember(thisYear: int, p: Pattern)
    requires MinYear <= thisYear <= MaxYear && p != ClockTime
    ensures thisYear > MinYear ==>
              MonthEndDayAsWritten(thisYear, 12, p) == Ok(Format(Stamp(Date(thisYear - 1, 12, 31), 0, 0, 0), p))
    ensures thisYear > MinYear ==> MonthEndDayAsWritten(thisYear, 12, p) != MonthEndDay(thisYear, 12, p)
    ensures thisYear == MinYear ==> MonthEndDayAsWritten(thisYear, 12, p) == Err(OverflowError)
  {
    if thisYear > MinYear {
      AsWrittenDecemberGoesBack(thisYear, p);
      DecemberTextsDiffer(thisYear, p);
    } else {
      AsWrittenDecemberOverflows(p);
    }
  }

  lemma AsWrittenDecemberOverflows(p: Pattern)
    ensures MonthEndDayAsWritten(MinYear, 12, p) == Err(OverflowError)
  {
    var text := Pad(MinYear, 4) + "-" + Pad(1, 2) + "-01";
    DashedText(MinYear, 1, 1, text);
    NothingBeforeFirstDate();
  }

  /** There is no day before 0001-01-01. */
  lemma NothingBeforeFirstDate()
    ensures Shift(FirstDate, -1) == Err(OverflowError)
  {
    FirstOrdinal();
  }

  lemma AsWrittenDecemberGoesBack(thisYear: int, p: Pattern)
    requires MinYear < thisYear <= MaxYear && p != ClockTime
    ensures MonthEndDayAsWritten(thisYear, 12, p) == Ok(Format(Stamp(Date(thisYear - 1, 12, 31), 0, 0, 0), p))
  {
    var last := Stamp(Date(thisYear - 1, 12, 31), 0, 0, 0);
    NewYearsEve(thisYear);
    ParseDashed(last);
  }

  /** The day before January 1st of the current year, read from the text
      get_month_end_day builds for December. */
  lemma NewYearsEve(thisYear: int)
    requires MinYear < thisYear <= MaxYear
    ensures GetDayByCalculate(Pad(thisYear, 4) + "-" + Pad(1, 2) + "-01", -1, DashedDate)
         == Ok(Format(Stamp(Date(thisYear - 1, 12, 31), 0, 0, 0), DashedDate))
  {
    var first := Date(thisYear, 1, 1);
    var last := Date(thisYear - 1, 12, 31);
    DashedText(thisYear, 1, 1, Pad(thisYear, 4) + "-" + Pad(1, 2) + "-01");
    ShiftByOne(last);
    assert NextDay(last) == first;
    ShiftBack(last, 1);
    assert Shift(first, -1) == Ok(last);
  }

  /** December 31st of two different years is written differently. */
  lemma DecemberTextsDiffer(thisYear: int, p: Pattern)
    requires MinYear < thisYear <= MaxYear && p != ClockTime
    ensures Format(Stamp(Date(thisYear - 1, 12, 31), 0, 0, 0), p)
         != Format(Stamp(Date(thisYear, 12, 31), 0, 0, 0), p)
  {
    ParseFormat(Stamp(Date(thisYear - 1, 12, 31), 0, 0, 0), p);
    ParseFormat(Stamp(Date(thisYear, 12, 31), 0, 0, 0), p);
  }
}
