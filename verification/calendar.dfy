/** The proleptic Gregorian calendar as Python's `datetime` module counts
    it: a day is an ordinal (1 is 0001-01-01, the largest is 9999-12-31),
    a date is (year, month, day), and ISO 8601 week dates are derived from
    the weekday of 1 January. */
module Calendar {
  import opened Common

  const MinYear := 1
  const MaxYear := 9999
  /** The ordinal of 9999-12-31. */
  const MaxOrdinal := 3652059

  type Ordinal = n: int | 1 <= n <= MaxOrdinal witness 1
  type SecondOfDay = s: int | 0 <= s < 86400

  datatype Date = Date(year: int, month: int, day: int)

  /** A timestamp to the second: the day and the seconds since midnight. */
  datatype DateTime = DateTime(day: Ordinal, second: SecondOfDay)

  /** Seconds since the start of day 1, the order of timestamps. */
  function Instant(t: DateTime): int
  {
    t.day * 86400 + t.second
  }

  function Midnight(n: Ordinal): DateTime
  {
    DateTime(n, 0)
  }

  function Hour(t: DateTime): (h: int)
    ensures 0 <= h < 24
  {
    t.second / 3600
  }

  datatype DateError = YearOutOfRange | InvalidWeek | DateOverflow

  // ----- Gregorian years and months -----

  predicate IsLeapYear(y: int)
  {
    y % 4 == 0 && (y % 100 != 0 || y % 400 == 0)
  }

  function DaysInYear(y: int): int
  {
    if IsLeapYear(y) then 366 else 365
  }

  function DaysInMonth(y: int, m: int): int
    requires 1 <= m <= 12
  {
    if m == 2 then (if IsLeapYear(y) then 29 else 28)
    else if m == 4 || m == 6 || m == 9 || m == 11 then 30
    else 31
  }

  /** Days of year `y` before the first of month `m`; month 13 stands for
      the end of the year. */
  function DaysBeforeMonth(y: int, m: int): int
    requires 1 <= m <= 13
  {
    [0, 31, 59, 90, 120, 151, 181, 212, 243, 273, 304, 334, 365][m - 1]
    + (if m > 2 && IsLeapYear(y) then 1 else 0)
  }

  /** Days before 1 January of year `y`, counted from 0001-01-01. */
  function DaysBeforeYear(y: int): int
    requires y >= 1
  {
    if y == 1 then 0 else DaysBeforeYear(y - 1) + DaysInYear(y - 1)
  }

  predicate ValidDate(d: Date)
  {
    MinYear <= d.year <= MaxYear && 1 <= d.month <= 12 && 1 <= d.day <= DaysInMonth(d.year, d.month)
  }

  lemma DaysBeforeMonthStep(y: int, m: int)
    requires 1 <= m <= 12
    ensures DaysBeforeMonth(y, m + 1) == DaysBeforeMonth(y, m) + DaysInMonth(y, m)
    ensures DaysBeforeMonth(y, 13) == DaysInYear(y)
  {
  }

  lemma DivStep(y: int, k: int)
    requires y >= 1 && k > 0
    ensures y / k - (y - 1) / k == (if y % k == 0 then 1 else 0)
  {
    var q, r := (y - 1) / k, (y - 1) % k;
    assert y - 1 == k * q + r && 0 <= r < k;
    if r == k - 1 {
      assert y == k * (q + 1) + 0;
      DivModUnique(y, k, q + 1, 0);
    } else {
      assert y == k * q + (r + 1);
      DivModUnique(y, k, q, r + 1);
    }
  }

  lemma DivModUnique(a: int, k: int, q: int, r: int)
    requires k > 0 && 0 <= r < k && a == k * q + r
    ensures a / k == q && a % k == r
  {
    var q', r' := a / k, a % k;
    var d := q - q';
    assert k * d == r' - r by {
      assert k * q - k * q' == k * (q - q');
    }
    if d > 0 {
      MulAtLeast(k, d);
    } else if d < 0 {
      MulAtLeast(k, -d);
    }
  }

  lemma {:induction false} MulAtLeast(k: int, d: int)
    requires k > 0 && d >= 1
    ensures k * d >= k
    decreases d
  {
    if d > 1 {
      MulAtLeast(k, d - 1);
      assert k * d == k * (d - 1) + k;
    }
  }

  lemma DaysBeforeYearStep(y: int)
    requires y >= 1
    ensures DaysBeforeYear(y + 1) == DaysBeforeYear(y) + DaysInYear(y)
  {
  }

  /** The closed form Python's `_days_before_year` uses. */
  lemma {:induction false} DaysBeforeYearClosedForm(y: int)
    requires y >= 1
    ensures var p := y - 1; DaysBeforeYear(y) == 365 * p + p / 4 - p / 100 + p / 400
  {
    if y > 1 {
      DaysBeforeYearClosedForm(y - 1);
      var p := y - 1;
      DivStep(p, 4);
      DivStep(p, 100);
      DivStep(p, 400);
      if p % 100 == 0 {
        DivModUnique(p, 4, 25 * (p / 100), 0);
      }
      if p % 400 == 0 {
        DivModUnique(p, 100, 4 * (p / 400), 0);
      }
    }
  }

  /** 9999-12-31 is the last day of year 9999. */
  lemma MaxOrdinalIsEndOfMaxYear()
    ensures DaysBeforeYear(MaxYear + 1) == MaxOrdinal
  {
    DaysBeforeYearClosedForm(MaxYear + 1);
  }

  lemma {:induction false} DaysBeforeYearMonotone(a: int, b: int)
    requires 1 <= a <= b
    ensures DaysBeforeYear(a) + 365 * (b - a) <= DaysBeforeYear(b)
    decreases b - a
  {
    if a < b {
      DaysBeforeYearMonotone(a, b - 1);
      DaysBeforeYearStep(b - 1);
    }
  }

  /** The ordinal of a valid date. */
  function ToOrdinal(d: Date): (n: Ordinal)
    requires ValidDate(d)
    ensures DaysBeforeYear(d.year) < n <= DaysBeforeYear(d.year + 1)
  {
    DaysBeforeYearStep(d.year);
    DaysBeforeMonthStep(d.year, d.month);
    DaysBeforeMonthMonotone(d.year, d.month + 1, 13);
    DaysBeforeYearMonotone(d.year + 1, MaxYear + 1);
    MaxOrdinalIsEndOfMaxYear();
    assert DaysBeforeYear(d.year) >= 0 by {
      DaysBeforeYearMonotone(1, d.year);
    }
    DaysBeforeYear(d.year) + DaysBeforeMonth(d.year, d.month) + d.day
  }

  /** Search upward from year `y` for the year holding ordinal `n`. */
  function FindYear(y: int, n: int): (r: int)
    requires 1 <= y && DaysBeforeYear(y) < n
    ensures y <= r && DaysBeforeYear(r) < n <= DaysBeforeYear(r + 1)
    decreases n - DaysBeforeYear(y)
  {
    DaysBeforeYearStep(y);
    if n <= DaysBeforeYear(y + 1) then y else FindYear(y + 1, n)
  }

  /** The calendar year an ordinal falls in. */
  function YearOf(n: Ordinal): (y: int)
    ensures MinYear <= y <= MaxYear
    ensures DaysBeforeYear(y) < n <= DaysBeforeYear(y + 1)
  {
    var y := FindYear(1, n);
    assert y <= MaxYear by {
      if y > MaxYear {
        DaysBeforeYearMonotone(MaxYear + 1, y);
        MaxOrdinalIsEndOfMaxYear();
      }
    }
    y
  }

  /** Every ordinal lies in exactly one year. */
  lemma YearOfUnique(n: Ordinal, y: int)
    requires 1 <= y && DaysBeforeYear(y) < n <= DaysBeforeYear(y + 1)
    ensures YearOf(n) == y
  {
    var z := YearOf(n);
    if z < y {
      DaysBeforeYearMonotone(z + 1, y);
    } else if y < z {
      DaysBeforeYearMonotone(y + 1, z);
    }
  }

  /** Search upward from month `m` for the month holding day `doy` of year `y`. */
  function FindMonth(y: int, m: int, doy: int): (r: int)
    requires 1 <= m <= 12 && DaysBeforeMonth(y, m) < doy <= DaysInYear(y)
    ensures m <= r <= 12 && DaysBeforeMonth(y, r) < doy <= DaysBeforeMonth(y, r + 1)
    decreases 12 - m
  {
    DaysBeforeMonthStep(y, m);
    if doy <= DaysBeforeMonth(y, m + 1) then m else FindMonth(y, m + 1, doy)
  }

  /** The date of an ordinal. */
  function FromOrdinal(n: Ordinal): (d: Date)
    ensures ValidDate(d) && ToOrdinal(d) == n
  {
    var y := YearOf(n);
    DaysBeforeYearStep(y);
    var doy := n - DaysBeforeYear(y);
    var m := FindMonth(y, 1, doy);
    DaysBeforeMonthStep(y, m);
    Date(y, m, doy - DaysBeforeMonth(y, m))
  }

  /** Ordinals and valid dates are in one-to-one correspondence. */
  lemma FromToOrdinal(d: Date)
    requires ValidDate(d)
    ensures FromOrdinal(ToOrdinal(d)) == d
  {
    var n := ToOrdinal(d);
    var e := FromOrdinal(n);
    YearOfUnique(n, d.year);
    assert e.year == d.year;
    DaysBeforeMonthStep(d.year, d.month);
    DaysBeforeMonthStep(d.year, e.month);
    if e.month < d.month {
      DaysBeforeMonthMonotone(d.year, e.month + 1, d.month);
    } else if d.month < e.month {
      DaysBeforeMonthMonotone(d.year, d.month + 1, e.month);
    }
  }

  lemma DaysBeforeMonthMonotone(y: int, a: int, b: int)
    requires 1 <= a <= b <= 13
    ensures DaysBeforeMonth(y, a) <= DaysBeforeMonth(y, b)
  {
  }

  /** The first of the month after month `m` of year `y`. */
  function NextMonthStart(y: int, m: int): Date
  {
    if m < 12 then Date(y, m + 1, 1) else Date(y + 1, 1, 1)
  }

  /** A month's days are followed directly by the next month's. */
  lemma NextMonthOrdinal(y: int, m: int)
    requires ValidDate(Date(y, m, 1)) && ValidDate(NextMonthStart(y, m))
    ensures ToOrdinal(NextMonthStart(y, m)) == ToOrdinal(Date(y, m, 1)) + DaysInMonth(y, m)
  {
    DaysBeforeMonthStep(y, m);
    DaysBeforeYearStep(y);
  }

  // ----- Weekdays and ISO 8601 week dates -----

  /** Python's `weekday()`: 0 is Monday, 6 is Sunday. */
  function Weekday(n: int): (w: int)
    ensures 0 <= w < 7
  {
    (n + 6) % 7
  }

  /** The Monday that starts the week holding day `n`. */
  function WeekStart(n: int): int
  {
    n - Weekday(n)
  }

  /** The Monday of ISO week 1 of year `y`: the Monday of the week that
      holds the year's first Thursday. */
  function Week1Monday(y: int): int
    requires y >= 1
  {
    var firstDay := DaysBeforeYear(y) + 1;
    var firstWeekday := (firstDay + 6) % 7;
    var monday := firstDay - firstWeekday;
    if firstWeekday > 3 then monday + 7 else monday
  }

  /** A year has an ISO week 53 when it starts on a Thursday, or is a leap
      year starting on a Wednesday. */
  predicate HasWeek53(y: int)
    requires y >= 1
  {
    var w := (DaysBeforeYear(y) + 1) % 7;
    w == 4 || (w == 3 && IsLeapYear(y))
  }

  datatype IsoDate = IsoDate(year: int, week: int, weekday: int)

  /** `date.isocalendar()`: ISO year, ISO week (1-based) and ISO weekday
      (1 is Monday). */
  function IsoCalendar(n: Ordinal): (d: IsoDate)
    ensures d.weekday == Weekday(n) + 1
    ensures YearOf(n) - 1 <= d.year <= YearOf(n) + 1 && d.year >= MinYear
    ensures 1 <= d.week <= 52 || (d.week == 53 && HasWeek53(d.year))
  {
    var y := YearOf(n);
    var w1 := Week1Monday(y);
    var week := (n - w1) / 7;
    var day := (n - w1) % 7;
    if week < 0 then
      assert y >= 2 by {
        Week1MondayFacts(y);
      }
      var w0 := Week1Monday(y - 1);
      LastWeekOfPreviousYear(n);
      var q := if HasWeek53(y - 1) then 52 else 51;
      DivModUnique(n - w0, 7, q, n - w0 - 7 * q);
      IsoDate(y - 1, (n - w0) / 7 + 1, (n - w0) % 7 + 1)
    else if week >= 52 && n >= Week1Monday(y + 1) then
      WeekdayInYear(n);
      IsoDate(y + 1, 1, day + 1)
    else
      WeekdayInYear(n);
      SameYearWeekExists(n, week, day);
      IsoDate(y, week + 1, day + 1)
  }

  /** `datetime.fromisocalendar(y, w, 1)` and the day six days later
      (lines 288-292 of the frequency page), with the errors Python raises:
      a year outside 1..9999, a week the year does not have, or a Sunday
      past 9999-12-31. */
  function WeekRange(y: int, w: int): (r: Result<(Ordinal, Ordinal), DateError>)
    ensures !(MinYear <= y <= MaxYear) ==> r == Err(YearOutOfRange)
    ensures MinYear <= y <= MaxYear && !(0 < w < 53 || (w == 53 && HasWeek53(y))) ==> r == Err(InvalidWeek)
    ensures r.Ok? ==> Weekday(r.value.0) == 0 && r.value.1 == r.value.0 + 6
    ensures r.Ok? ==> DaysBeforeYear(y) - 2 <= r.value.0 && r.value.0 + 3 <= DaysBeforeYear(y + 1)
  {
    if !(MinYear <= y <= MaxYear) then Err(YearOutOfRange)
    else if !(0 < w < 53) && !(w == 53 && HasWeek53(y)) then Err(InvalidWeek)
    else
      var monday := Week1Monday(y) + (w - 1) * 7;
      if !(1 <= monday <= MaxOrdinal) then Err(YearOutOfRange)
      else if monday + 6 > MaxOrdinal then Err(DateOverflow)
      else
        WeekOfYear(y, w);
        Ok((monday, monday + 6))
  }

  /** The Monday of week `w` of ISO year `y` is a Monday whose Thursday
      lies in calendar year `y`. */
  lemma WeekOfYear(y: int, w: int)
    requires MinYear <= y && (0 < w < 53 || (w == 53 && HasWeek53(y)))
    ensures var monday := Week1Monday(y) + (w - 1) * 7;
      Weekday(monday) == 0 && DaysBeforeYear(y) - 2 <= monday && monday + 3 <= DaysBeforeYear(y + 1)
  {
    var w1 := Week1Monday(y);
    Week1MondayFacts(y);
    Week1MondayFacts(y + 1);
    WeekSpan(y);
    DivModUnique((w - 1) * 7, 7, w - 1, 0);
    WeekdayFrom(w1 + (w - 1) * 7, w1);
  }

  /** Every week of the ISO years 1 to 9998 has a Monday-to-Sunday range. */
  lemma WeekRangeDefined(y: int, w: int)
    requires MinYear <= y < MaxYear && (0 < w < 53 || (w == 53 && HasWeek53(y)))
    ensures WeekRange(y, w).Ok?
  {
    WeekOfYear(y, w);
    Week1MondayFacts(y);
    DaysBeforeYearMonotone(1, y);
    DaysBeforeYearMonotone(y + 1, MaxYear);
    DaysBeforeYearStep(MaxYear);
    MaxOrdinalIsEndOfMaxYear();
  }

  // ----- Facts about ISO weeks -----

  /** Week 1 starts on a Monday at most three days away from 1 January. */
  lemma Week1MondayFacts(y: int)
    requires y >= 1
    ensures Weekday(Week1Monday(y)) == 0
    ensures DaysBeforeYear(y) - 2 <= Week1Monday(y) <= DaysBeforeYear(y) + 4
  {
    var f := DaysBeforeYear(y) + 1;
    var fw := (f + 6) % 7;
    var q := (f + 6) / 7;
    DivModUnique(f - fw + 6, 7, q, 0);
    DivModUnique(f - fw + 13, 7, q + 1, 0);
  }

  /** An ISO year has 52 weeks, or 53 exactly when `HasWeek53` says so. */
  lemma WeekSpan(y: int)
    requires y >= 1
    ensures Week1Monday(y + 1) - Week1Monday(y) == if HasWeek53(y) then 371 else 364
  {
    DaysBeforeYearStep(y);
    var f := DaysBeforeYear(y) + 1;
    var len := DaysInYear(y);
    var a := f % 7;
    var q := f / 7;
    assert f == 7 * q + a;
    assert (f + 6) % 7 == (a + 6) % 7 by {
      DivModUnique(f + 6, 7, q + (a + 6) / 7, (a + 6) % 7);
    }
    assert (f + len + 6) % 7 == (a + len - 358) % 7 by {
      DivModUnique(f + len + 6, 7, q + 52 + (a + len - 358) / 7, (a + len - 358) % 7);
    }
    SpanByWeekday(a, len);
  }

  /** Two ISO years in a row never both have a week 53: a year that has one
      starts on a Wednesday or a Thursday, so the next starts on a Friday or
      a Saturday. */
  lemma NoWeek53TwiceInARow(y: int)
    requires y >= 1 && HasWeek53(y)
    ensures !HasWeek53(y + 1)
  {
    DaysBeforeYearStep(y);
    var f := DaysBeforeYear(y) + 1;
    var len := DaysInYear(y);
    var a := f % 7;
    var q := f / 7;
    assert 5 <= a + len - 364 <= 6;
    DivModUnique(f + len, 7, q + 52, a + len - 364);
  }

  /** The week-1 arithmetic for a year whose first day has remainder `a`
      modulo 7 and which is `len` days long. */
  lemma SpanByWeekday(a: int, len: int)
    requires 0 <= a < 7 && (len == 365 || len == 366)
    ensures var (fw, fw') := ((a + 6) % 7, (a + len - 358) % 7);
      len - fw' + (if fw' > 3 then 7 else 0) + fw - (if fw > 3 then 7 else 0)
        == if a == 4 || (a == 3 && len == 366) then 371 else 364
  {
  }

  /** Counting from a Monday `m`, day `n` is in week `(n - m) / 7` and has
      weekday `(n - m) % 7`. */
  lemma WeekdayFrom(n: int, m: int)
    requires Weekday(m) == 0
    ensures Weekday(n) == (n - m) % 7
    ensures WeekStart(n) == m + 7 * ((n - m) / 7)
  {
    var t := (m + 6) / 7;
    assert m + 6 == 7 * t;
    var k, r := (n - m) / 7, (n - m) % 7;
    DivModUnique(n + 6, 7, k + t, r);
  }

  /** `isocalendar` and `fromisocalendar` agree: the week `IsoCalendar`
      assigns to a day is the Monday-to-Sunday week that holds it, and
      the ISO weekday is the weekday counted from Monday = 1. */
  lemma IsoWeekOfDay(n: Ordinal)
    requires WeekStart(n) + 6 <= MaxOrdinal
    ensures IsoCalendar(n).weekday == Weekday(n) + 1
    ensures WeekRange(IsoCalendar(n).year, IsoCalendar(n).week) == Ok((WeekStart(n), WeekStart(n) + 6))
  {
    var y := YearOf(n);
    var w1 := Week1Monday(y);
    var q := (n - w1) / 7;
    if q < 0 {
      assert n - w1 == 7 * q + (n - w1) % 7;
      IsoWeekInPreviousYear(n);
    } else if q >= 52 && n >= Week1Monday(y + 1) {
      IsoWeekInNextYear(n);
    } else {
      IsoWeekInSameYear(n, q, (n - w1) % 7);
    }
  }

  /** `WeekRange` succeeds on a week the year has whose days are all
      ordinals. */
  lemma WeekRangeOk(y: int, w: int, monday: int)
    requires MinYear <= y <= MaxYear
    requires 0 < w < 53 || (w == 53 && HasWeek53(y))
    requires monday == Week1Monday(y) + (w - 1) * 7 && 1 <= monday && monday + 6 <= MaxOrdinal
    ensures WeekRange(y, w) == Ok((monday, monday + 6))
  {
  }

  /** The three branches of `IsoCalendar`, one at a time. */
  lemma IsoCalendarSameYear(n: Ordinal, q: int, r: int)
    requires 0 <= q && 0 <= r < 7 && n - Week1Monday(YearOf(n)) == 7 * q + r
    requires !(q >= 52 && n >= Week1Monday(YearOf(n) + 1))
    ensures IsoCalendar(n) == IsoDate(YearOf(n), q + 1, r + 1)
  {
    DivModUnique(n - Week1Monday(YearOf(n)), 7, q, r);
  }

  lemma IsoCalendarPreviousYear(n: Ordinal, q: int, r: int)
    requires YearOf(n) >= 2 && n < Week1Monday(YearOf(n))
    requires 0 <= r < 7 && n - Week1Monday(YearOf(n) - 1) == 7 * q + r
    ensures IsoCalendar(n) == IsoDate(YearOf(n) - 1, q + 1, r + 1)
  {
    var d := n - Week1Monday(YearOf(n));
    assert d / 7 < 0 by {
      assert d == 7 * (d / 7) + d % 7;
    }
    DivModUnique(n - Week1Monday(YearOf(n) - 1), 7, q, r);
  }

  lemma IsoCalendarNextYear(n: Ordinal)
    requires (n - Week1Monday(YearOf(n))) / 7 >= 52 && n >= Week1Monday(YearOf(n) + 1)
    ensures IsoCalendar(n) == IsoDate(YearOf(n) + 1, 1, (n - Week1Monday(YearOf(n))) % 7 + 1)
  {
  }

  lemma IsoWeekInSameYear(n: Ordinal, q: int, r: int)
    requires WeekStart(n) + 6 <= MaxOrdinal
    requires 0 <= q && 0 <= r < 7 && n - Week1Monday(YearOf(n)) == 7 * q + r
    requires !(q >= 52 && n >= Week1Monday(YearOf(n) + 1))
    ensures IsoCalendar(n).weekday == Weekday(n) + 1
    ensures WeekRange(IsoCalendar(n).year, IsoCalendar(n).week) == Ok((WeekStart(n), WeekStart(n) + 6))
  {
    var y := YearOf(n);
    IsoCalendarSameYear(n, q, r);
    WeekOfSameYear(n, q, r);
    WeekRangeOk(y, q + 1, Week1Monday(y) + 7 * q);
  }

  /** A day from week 1 of its year up to the year's last ISO week lies in
      a week of that year that `WeekRange` can return. */
  lemma WeekOfSameYear(n: Ordinal, q: int, r: int)
    requires 0 <= q && 0 <= r < 7 && n - Week1Monday(YearOf(n)) == 7 * q + r
    requires !(q >= 52 && n >= Week1Monday(YearOf(n) + 1))
    ensures var y := YearOf(n);
      && (q + 1 < 53 || (q + 1 == 53 && HasWeek53(y)))
      && Week1Monday(y) >= 1 && WeekStart(n) == Week1Monday(y) + 7 * q && Weekday(n) == r
  {
    var y := YearOf(n);
    Week1MondayFacts(y);
    WeekOfMonday(n, Week1Monday(y), q, r);
    SameYearWeekExists(n, q, r);
    assert Week1Monday(y) >= 1 by {
      if y > 1 {
        DaysBeforeYearMonotone(1, y);
      }
    }
  }

  /** Counting from Monday m, the day 7q + r days later is a weekday r
      in the week that starts 7q days after m. */
  lemma WeekOfMonday(n: int, m: int, q: int, r: int)
    requires Weekday(m) == 0 && 0 <= r < 7 && n - m == 7 * q + r
    ensures WeekStart(n) == m + 7 * q && Weekday(n) == r
  {
    WeekdayFrom(n, m);
    DivModUnique(n - m, 7, q, r);
  }

  /** Week q + 1 of a day's own ISO year is a week that year has. */
  lemma SameYearWeekExists(n: Ordinal, q: int, r: int)
    requires 0 <= q && 0 <= r < 7 && n - Week1Monday(YearOf(n)) == 7 * q + r
    requires !(q >= 52 && n >= Week1Monday(YearOf(n) + 1))
    ensures q + 1 < 53 || (q + 1 == 53 && HasWeek53(YearOf(n)))
  {
    WeekSpan(YearOf(n));
    DaysBeforeYearStep(YearOf(n));
  }

  lemma IsoWeekInPreviousYear(n: Ordinal)
    requires WeekStart(n) + 6 <= MaxOrdinal
    requires n < Week1Monday(YearOf(n))
    ensures IsoCalendar(n).weekday == Weekday(n) + 1
    ensures WeekRange(IsoCalendar(n).year, IsoCalendar(n).week) == Ok((WeekStart(n), WeekStart(n) + 6))
  {
    var y := YearOf(n);
    LastWeekOfPreviousYear(n);
    var w0 := Week1Monday(y - 1);
    var q := if HasWeek53(y - 1) then 52 else 51;
    IsoCalendarPreviousYear(n, q, n - w0 - 7 * q);
    WeekRangeOk(y - 1, q + 1, w0 + 7 * q);
  }

  /** A day before week 1 of its year lies in the last ISO week of the
      previous year: week 53 when that year has one, week 52 otherwise. */
  lemma LastWeekOfPreviousYear(n: Ordinal)
    requires n < Week1Monday(YearOf(n))
    ensures YearOf(n) >= 2
    ensures var y := YearOf(n); var w0 := Week1Monday(y - 1);
      var q := if HasWeek53(y - 1) then 52 else 51;
      && 0 <= n - w0 - 7 * q < 7 && Weekday(n) == n - w0 - 7 * q
      && WeekStart(n) == w0 + 7 * q && WeekStart(n) >= 1
  {
    var y := YearOf(n);
    assert y >= 2 by {
      Week1MondayFacts(y);
    }
    var w0 := Week1Monday(y - 1);
    var q := if HasWeek53(y - 1) then 52 else 51;
    var r := n - w0 - 7 * q;
    assert 0 <= r < 7 by {
      Week1MondayFacts(y);
      WeekSpan(y - 1);
    }
    assert Weekday(n) == r && WeekStart(n) == w0 + 7 * q by {
      Week1MondayFacts(y - 1);
      DivModUnique(n - w0, 7, q, r);
      WeekdayFrom(n, w0);
    }
    assert WeekStart(n) >= 1 by {
      DaysBeforeYearMonotone(1, y);
    }
  }

  lemma IsoWeekInNextYear(n: Ordinal)
    requires WeekStart(n) + 6 <= MaxOrdinal
    requires (n - Week1Monday(YearOf(n))) / 7 >= 52 && n >= Week1Monday(YearOf(n) + 1)
    ensures IsoCalendar(n).weekday == Weekday(n) + 1
    ensures WeekRange(IsoCalendar(n).year, IsoCalendar(n).week) == Ok((WeekStart(n), WeekStart(n) + 6))
  {
    var y := YearOf(n);
    IsoCalendarNextYear(n);
    WeekdayInYear(n);
    FirstWeekOfNextYear(n);
    WeekRangeOk(y + 1, 1, Week1Monday(y + 1));
  }

  /** The weekday of a day, counted from week 1 of its calendar year. */
  lemma WeekdayInYear(n: Ordinal)
    ensures Weekday(n) == (n - Week1Monday(YearOf(n))) % 7
  {
    Week1MondayFacts(YearOf(n));
    WeekdayFrom(n, Week1Monday(YearOf(n)));
  }

  /** A day on or after the Monday of next year's week 1 is in that week,
      and that week is one `WeekRange` can return. */
  lemma FirstWeekOfNextYear(n: Ordinal)
    requires WeekStart(n) + 6 <= MaxOrdinal
    requires n >= Week1Monday(YearOf(n) + 1)
    ensures WeekStart(n) == Week1Monday(YearOf(n) + 1)
    ensures YearOf(n) + 1 <= MaxYear && Week1Monday(YearOf(n) + 1) >= 1
  {
    var y := YearOf(n);
    var next := Week1Monday(y + 1);
    Week1MondayFacts(y + 1);
    assert 0 <= n - next <= 2;
    DivModUnique(n - next, 7, 0, n - next);
    WeekdayFrom(n, next);
    MaxOrdinalIsEndOfMaxYear();
    DaysBeforeYearMonotone(1, y + 1);
  }

  /** The Monday that `WeekRange(y, w)` returns lies in ISO week `w` of ISO
      year `y`. */
  lemma IsoCalendarOfWeekStart(y: int, w: int)
    requires WeekRange(y, w).Ok?
    ensures IsoCalendar(WeekRange(y, w).value.0) == IsoDate(y, w, 1)
  {
    var w1 := Week1Monday(y);
    var m := w1 + (w - 1) * 7;
    assert WeekRange(y, w).value.0 == m;
    assert MinYear <= y <= MaxYear && 1 <= w <= 53 && (w == 53 ==> HasWeek53(y)) && 1 <= m && m + 6 <= MaxOrdinal;
    if m <= DaysBeforeYear(y) {
      assert w == 1 && y >= 2 by {
        Week1MondayFacts(y);
      }
      WeekStartInPreviousYear(y, m);
    } else {
      WeekStartInSameYear(y, w, m);
    }
  }

  /** A week-1 Monday that falls in December is the first day of the ISO
      year that follows its calendar year. */
  lemma WeekStartInPreviousYear(y: int, m: Ordinal)
    requires 2 <= y <= MaxYear && m == Week1Monday(y) && m <= DaysBeforeYear(y)
    ensures IsoCalendar(m) == IsoDate(y, 1, 1)
  {
    assert YearOf(m) == y - 1 by {
      Week1MondayFacts(y);
      DaysBeforeYearStep(y - 1);
      YearOfUnique(m, y - 1);
    }
    var w0 := Week1Monday(y - 1);
    assert (m - w0) / 7 >= 52 && (m - w0) % 7 == 0 by {
      var q := if HasWeek53(y - 1) then 53 else 52;
      WeekSpan(y - 1);
      DivModUnique(m - w0, 7, q, 0);
    }
    IsoCalendarNextYear(m);
  }

  /** The Monday of week w of ISO year y, when it falls in calendar year
      y, has that ISO year and week. */
  lemma WeekStartInSameYear(y: int, w: int, m: Ordinal)
    requires MinYear <= y <= MaxYear && 1 <= w <= 53 && (w == 53 ==> HasWeek53(y))
    requires m == Week1Monday(y) + (w - 1) * 7 && DaysBeforeYear(y) < m
    ensures IsoCalendar(m) == IsoDate(y, w, 1)
  {
    assert m <= DaysBeforeYear(y + 1) && !(w - 1 >= 52 && m >= Week1Monday(y + 1)) by {
      Week1MondayFacts(y);
      Week1MondayFacts(y + 1);
      WeekSpan(y);
      DaysBeforeYearStep(y);
    }
    YearOfUnique(m, y);
    IsoCalendarSameYear(m, w - 1, 0);
  }

  /** Every week `WeekRange` returns runs Monday to Sunday, and each of its
      two ends carries the ISO year and week it was asked for. */
  lemma WeekRangeIsIsoWeek(y: int, w: int)
    requires WeekRange(y, w).Ok?
    ensures var (mon, sun) := WeekRange(y, w).value;
      Weekday(mon) == 0 && Weekday(sun) == 6 && sun == mon + 6
      && IsoCalendar(mon) == IsoDate(y, w, 1) && IsoCalendar(sun) == IsoDate(y, w, 7)
  {
    var (mon, sun) := WeekRange(y, w).value;
    Week1MondayFacts(y);
    WeekdayFrom(mon, Week1Monday(y));
    WeekdayFrom(sun, mon);
    IsoCalendarOfWeekStart(y, w);
    IsoWeekOfDay(sun);
    var iso := IsoCalendar(sun);
    IsoCalendarOfWeekStart(iso.year, iso.week);
  }

  /** Two days get the same ISO (year, week) exactly when they share the
      Monday that starts their week. */
  lemma SameIsoWeek(n1: Ordinal, n2: Ordinal)
    requires WeekStart(n1) + 6 <= MaxOrdinal && WeekStart(n2) + 6 <= MaxOrdinal
    ensures (IsoCalendar(n1).year == IsoCalendar(n2).year && IsoCalendar(n1).week == IsoCalendar(n2).week)
        <==> WeekStart(n1) == WeekStart(n2)
  {
    IsoWeekOfDay(n1);
    IsoWeekOfDay(n2);
    var i1, i2 := IsoCalendar(n1), IsoCalendar(n2);
    if WeekStart(n1) == WeekStart(n2) {
      IsoCalendarOfWeekStart(i1.year, i1.week);
      IsoCalendarOfWeekStart(i2.year, i2.week);
    }
  }
}
