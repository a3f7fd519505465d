/** The filters the pages apply to a log before anything is counted: the
    exercise-type selector, the user multiselect, the ISO week picker and
    the month range picker. Each one is a boolean mask over the rows, so
    each one keeps rows in their original order. The widget values are
    parameters; a picker that is switched off or returns nothing is an
    empty pick. */
module Filters {
  import opened Common
  import opened Calendar
  import opened Text
  import opened Sheets

  // ----- Boolean masks -----

  /** `df[mask]`: the rows that satisfy `keep`, in their original order. */
  function Where<R(==,!new)>(rows: seq<R>, keep: R -> bool): (r: seq<R>)
    ensures |r| <= |rows|
    ensures forall i :: 0 <= i < |r| ==> keep(r[i])
    ensures forall x :: multiset(r)[x] == if keep(x) then multiset(rows)[x] else 0
  {
    if rows == [] then []
    else
      assert rows == [rows[0]] + rows[1..];
      (if keep(rows[0]) then [rows[0]] else []) + Where(rows[1..], keep)
  }

  /** The positions of the rows `Where` keeps: strictly increasing, so the
      kept rows stay in their original order, and covering every row the
      mask keeps. */
  function KeptIndices<R(==,!new)>(rows: seq<R>, keep: R -> bool): (idx: seq<nat>)
    ensures |idx| == |Where(rows, keep)|
    ensures forall k :: 0 <= k < |idx| ==> idx[k] < |rows| && Where(rows, keep)[k] == rows[idx[k]]
    ensures forall k, l :: 0 <= k < l < |idx| ==> idx[k] < idx[l]
    ensures forall i :: 0 <= i < |rows| && keep(rows[i]) ==> i in idx
  {
    if rows == [] then []
    else
      var rest := KeptIndices(rows[1..], keep);
      var idx := (if keep(rows[0]) then [0] else []) + Shifted(rest);
      KeptIndicesStep(rows, keep, rest, idx);
      idx
  }

  /** The kept positions of `rows` from those of `rows[1..]`. */
  lemma KeptIndicesStep<R(!new)>(rows: seq<R>, keep: R -> bool, rest: seq<nat>, idx: seq<nat>)
    requires rows != []
    requires |rest| == |Where(rows[1..], keep)|
    requires forall k :: 0 <= k < |rest| ==> rest[k] < |rows| - 1 && Where(rows[1..], keep)[k] == rows[1..][rest[k]]
    requires forall k, l :: 0 <= k < l < |rest| ==> rest[k] < rest[l]
    requires forall i :: 0 <= i < |rows| - 1 && keep(rows[1..][i]) ==> i in rest
    requires idx == (if keep(rows[0]) then [0] else []) + Shifted(rest)
    ensures |idx| == |Where(rows, keep)|
    ensures forall k :: 0 <= k < |idx| ==> idx[k] < |rows| && Where(rows, keep)[k] == rows[idx[k]]
    ensures forall k, l :: 0 <= k < l < |idx| ==> idx[k] < idx[l]
    ensures forall i :: 0 <= i < |rows| && keep(rows[i]) ==> i in idx
  {
    var head := if keep(rows[0]) then [rows[0]] else [];
    WhereStep(rows, keep);
    IndicesPick(rows, head, Where(rows[1..], keep), rest, idx);
    IndicesIncrease(rest, idx, |head|);
    IndicesCover(rows, keep, rest, idx);
  }

  /** `Where` keeps or drops the first row, then goes on with the rest. */
  lemma WhereStep<R(!new)>(rows: seq<R>, keep: R -> bool)
    requires rows != []
    ensures Where(rows, keep) == (if keep(rows[0]) then [rows[0]] else []) + Where(rows[1..], keep)
  {
  }

  /** Every index one further on. */
  function Shifted(xs: seq<nat>): (ys: seq<nat>)
    ensures |ys| == |xs| && forall k :: 0 <= k < |xs| ==> ys[k] == xs[k] + 1
  {
    seq(|xs|, k requires 0 <= k < |xs| => xs[k] + 1)
  }

  /** Positions of the kept tail, shifted past the head, pick the kept
      rows. */
  lemma IndicesPick<R>(rows: seq<R>, head: seq<R>, tail: seq<R>, rest: seq<nat>, idx: seq<nat>)
    requires rows != [] && (head == [] || head == [rows[0]])
    requires |rest| == |tail| && forall k :: 0 <= k < |rest| ==> rest[k] < |rows| - 1 && tail[k] == rows[1..][rest[k]]
    requires idx == (if head == [] then [] else [0]) + Shifted(rest)
    ensures |idx| == |head + tail|
    ensures forall k :: 0 <= k < |idx| ==> idx[k] < |rows| && (head + tail)[k] == rows[idx[k]]
  {
    var off := |head|;
    forall k | 0 <= k < |idx|
      ensures idx[k] < |rows| && (head + tail)[k] == rows[idx[k]]
    {
      if k >= off {
        assert idx[k] == rest[k - off] + 1;
        assert (head + tail)[k] == tail[k - off];
        assert rows[1..][rest[k - off]] == rows[idx[k]];
      }
    }
  }

  /** Shifted increasing positions after an optional 0 still increase. */
  lemma IndicesIncrease(rest: seq<nat>, idx: seq<nat>, off: nat)
    requires off <= 1
    requires forall k, l :: 0 <= k < l < |rest| ==> rest[k] < rest[l]
    requires idx == (if off == 0 then [] else [0]) + Shifted(rest)
    ensures forall k, l :: 0 <= k < l < |idx| ==> idx[k] < idx[l]
  {
    forall k, l | 0 <= k < l < |idx|
      ensures idx[k] < idx[l]
    {
      assert idx[l] == rest[l - off] + 1;
      if k >= off {
        assert idx[k] == rest[k - off] + 1;
      }
    }
  }

  /** A kept row is at one of the kept positions. */
  lemma IndicesCover<R>(rows: seq<R>, keep: R -> bool, rest: seq<nat>, idx: seq<nat>)
    requires rows != []
    requires forall i :: 0 <= i < |rows| - 1 && keep(rows[1..][i]) ==> i in rest
    requires idx == (if keep(rows[0]) then [0] else []) + Shifted(rest)
    ensures forall i :: 0 <= i < |rows| && keep(rows[i]) ==> i in idx
  {
    var off := if keep(rows[0]) then 1 else 0;
    forall i | 0 <= i < |rows| && keep(rows[i])
      ensures i in idx
    {
      if i > 0 {
        assert keep(rows[1..][i - 1]);
        var k :| 0 <= k < |rest| && rest[k] == i - 1;
        assert idx[off + k] == i;
      } else {
        assert idx[0] == 0;
      }
    }
  }

  /** Each row adds one to the length of the result when kept. */
  lemma WhereLengthStep<R(!new)>(rows: seq<R>, keep: R -> bool)
    requires rows != []
    ensures |Where(rows, keep)| == (if keep(rows[0]) then 1 else 0) + |Where(rows[1..], keep)|
  {
  }

  /** A mask that every row satisfies leaves the table unchanged. */
  lemma {:induction false} WhereKeepsAll<R(!new)>(rows: seq<R>, keep: R -> bool)
    requires forall i :: 0 <= i < |rows| ==> keep(rows[i])
    ensures Where(rows, keep) == rows
  {
    if rows != [] {
      WhereKeepsAll(rows[1..], keep);
    }
  }

  /** Two masks applied one after the other select what their conjunction
      selects, in the same order. */
  lemma {:induction false} WhereFuse<R(!new)>(rows: seq<R>, p: R -> bool, q: R -> bool, both: R -> bool)
    requires forall x :: both(x) == (p(x) && q(x))
    ensures Where(Where(rows, p), q) == Where(rows, both)
  {
    if rows != [] {
      var x, rest := rows[0], rows[1..];
      WhereFuse(rest, p, q, both);
      var wp := Where(rows, p);
      if p(x) {
        assert wp == [x] + Where(rest, p);
        assert wp[0] == x && wp[1..] == Where(rest, p);
        assert Where(wp, q) == (if q(x) then [x] else []) + Where(rest, both);
      } else {
        assert wp == Where(rest, p);
      }
    }
  }

  // ----- Exercise type (lines 141-142 of the overview page) -----

  const AllExerciseTypes := "All Exercise Types"

  /** The six exercise types the pages offer. */
  const ExerciseTypes: seq<string> := ["Cycling", "Strength", "Yoga", "Running", "Meditation", "Hiking"]

  function ExerciseTypeCriterion(selection: string): Session -> bool
  {
    (s: Session) => selection == AllExerciseTypes || s.exerciseType == Some(selection)
  }

  /** The exercise-type selector: the sentinel keeps the table as it is,
      any other choice keeps exactly the rows of that type. */
  function ByExerciseType(rows: seq<Session>, selection: string): (r: seq<Session>)
    ensures selection == AllExerciseTypes ==> r == rows
    ensures selection != AllExerciseTypes ==>
      forall s :: multiset(r)[s] == if s.exerciseType == Some(selection) then multiset(rows)[s] else 0
    ensures r == Where(rows, ExerciseTypeCriterion(selection))
  {
    if selection == AllExerciseTypes then
      WhereKeepsAll(rows, ExerciseTypeCriterion(selection));
      rows
    else
      Where(rows, ExerciseTypeCriterion(selection))
  }

  // ----- Users (lines 156-161 of the overview page, 107-112 of the weight page) -----

  const AllAppUsers := "All app users"

  function UserCriterion<R>(userOf: R -> Cell, selection: seq<string>): R -> bool
  {
    x => AllAppUsers in selection || (userOf(x).Some? && userOf(x).value in selection)
  }

  /** The user multiselect: when the sentinel is among the selected names
      the table is kept as it is, otherwise exactly the rows whose user is
      selected remain (an empty selection keeps nothing). */
  function ByUsers<R(==,!new)>(rows: seq<R>, userOf: R -> Cell, selection: seq<string>): (r: seq<R>)
    ensures AllAppUsers in selection ==> r == rows
    ensures AllAppUsers !in selection ==>
      forall x :: multiset(r)[x] == if userOf(x).Some? && userOf(x).value in selection then multiset(rows)[x] else 0
    ensures selection == [] ==> r == []
    ensures r == Where(rows, UserCriterion(userOf, selection))
  {
    if AllAppUsers in selection then
      WhereKeepsAll(rows, UserCriterion(userOf, selection));
      rows
    else
      Where(rows, UserCriterion(userOf, selection))
  }

  // ----- ISO week picker (lines 168-169 and 195-202 of the overview page) -----

  /** A picker string the page cannot unpack or convert (`ValueError`),
      or a month end past the last representable date (`OverflowError`). */
  datatype PickError = BadWeekPick | BadMonthPick | MonthEndOverflow

  /** Reading the year and the week out of the week picker's first string:
      it must split on '-' into exactly two parts, the first a numeral and
      the second holding at least one digit; the week is the number its
      digits spell. */
  function ParseWeekPick(text: string): (r: Result<(nat, nat), PickError>)
    ensures '-' !in text ==> r == Err(BadWeekPick)
    ensures var parts := Split(text, '-');
      r.Ok? <==> |parts| == 2 && parts[0] != [] && AllDigits(parts[0]) && Digits(parts[1]) != []
    ensures r.Ok? ==> var parts := Split(text, '-');
      r.value == (DecimalValue(parts[0]), DecimalValue(Digits(parts[1])))
    ensures r.Err? ==> r.error == BadWeekPick
  {
    assert '-' !in text ==> |Split(text, '-')| == 1 by {
      if '-' !in text {
        SplitWithoutSeparator(text, '-');
      }
    }
    var parts := Split(text, '-');
    if |parts| != 2 then Err(BadWeekPick)
    else
      var weekDigits := Digits(parts[1]);
      if weekDigits == [] || parts[0] == [] || !AllDigits(parts[0]) then Err(BadWeekPick)
      else Ok((DecimalValue(parts[0]), DecimalValue(weekDigits)))
  }

  /** A year numeral and a dash-free week text joined by one '-' read as
      that year and the number the week text's digits spell. */
  lemma ParseWeekPickOfParts(y: string, w: string)
    requires '-' !in y && '-' !in w
    requires y != [] && AllDigits(y) && Digits(w) != []
    ensures ParseWeekPick(y + "-" + w) == Ok((DecimalValue(y), DecimalValue(Digits(w))))
  {
    assert y + "-" + w == y + ['-'] + w;
    SplitAtSeparator(y, w, '-');
  }

  /** A numeral between texts with neither digits nor dashes holds no dash. */
  lemma TaggedNumeralHasNoDash(pre: string, n: string, suf: string)
    requires AllDigits(n)
    requires forall i :: 0 <= i < |pre| ==> !IsDigit(pre[i]) && pre[i] != '-'
    requires forall i :: 0 <= i < |suf| ==> !IsDigit(suf[i]) && suf[i] != '-'
    ensures '-' !in pre + n + suf
  {
    var w := pre + n + suf;
    forall i | 0 <= i < |w|
      ensures w[i] != '-'
    {
      if i < |pre| {
        assert w[i] == pre[i];
      } else if i < |pre| + |n| {
        assert w[i] == n[i - |pre|];
      } else {
        assert w[i] == suf[i - |pre| - |n|];
      }
    }
  }

  /** A year written with four digits, a '-', and a week numeral with any
      digit-free decoration around it (such as "1st" or "W01") reads back
      as that year and week. */
  lemma WeekPickRoundTrip(year: nat, week: nat, width: nat, pre: string, suf: string)
    requires year < 10000 && 1 <= width && week < Pow10(width)
    requires forall i :: 0 <= i < |pre| ==> !IsDigit(pre[i]) && pre[i] != '-'
    requires forall i :: 0 <= i < |suf| ==> !IsDigit(suf[i]) && suf[i] != '-'
    ensures ParseWeekPick(PadDecimal(year, 4) + "-" + (pre + PadDecimal(week, width) + suf)) == Ok((year, week))
  {
    var y := PadDecimal(year, 4);
    var n := PadDecimal(week, width);
    assert '-' !in y by {
      assert AllDigits(y);
    }
    TaggedNumeralHasNoDash(pre, n, suf);
    DigitsOfTaggedNumeral(pre, n, suf);
    ParseWeekPickOfParts(y, pre + n + suf);
    PadDecimalValue(year, 4);
    PadDecimalValue(week, width);
  }

  /** What the week picker selects: nothing when it is off or empty. */
  function WeekSelection(pick: seq<string>): (r: Result<Option<(nat, nat)>, PickError>)
    ensures pick == [] <==> r == Ok(None)
    ensures pick != [] ==> (r.Err? <==> ParseWeekPick(pick[0]).Err?)
    ensures pick != [] && r.Ok? ==> r.value == Some(ParseWeekPick(pick[0]).value)
  {
    if pick == [] then Ok(None)
    else match ParseWeekPick(pick[0])
      case Err(e) => Err(e)
      case Ok(yw) => Ok(Some(yw))
  }

  /** Whether a session lies in ISO week `week` of ISO year `year`; an
      unknown timestamp has no ISO week and never matches. */
  predicate InIsoWeek(s: Session, year: int, week: int)
  {
    s.timestamp.Some?
    && IsoCalendar(s.timestamp.value.day).year == year
    && IsoCalendar(s.timestamp.value.day).week == week
  }

  function WeekCriterion(selected: Option<(nat, nat)>): Session -> bool
  {
    (s: Session) => selected.None? || InIsoWeek(s, selected.value.0, selected.value.1)
  }

  /** The week filter: an empty pick keeps the table, a pick the page
      cannot read is an error, and otherwise exactly the sessions of the
      picked ISO year and week remain. */
  function ByIsoWeek(rows: seq<Session>, pick: seq<string>): (r: Result<seq<Session>, PickError>)
    ensures pick == [] ==> r == Ok(rows)
    ensures r.Err? <==> WeekSelection(pick).Err?
    ensures r.Ok? && pick != [] ==>
      var (y, w) := WeekSelection(pick).value.value;
      forall s :: multiset(r.value)[s] == if InIsoWeek(s, y, w) then multiset(rows)[s] else 0
    ensures r.Ok? ==> r.value == Where(rows, WeekCriterion(WeekSelection(pick).value))
  {
    match WeekSelection(pick)
    case Err(e) => Err(e)
    case Ok(None) =>
      WhereKeepsAll(rows, WeekCriterion(None));
      Ok(rows)
    case Ok(Some(yw)) => Ok(Where(rows, WeekCriterion(Some(yw))))
  }

  /** The week filter and the week range the frequency page prints agree:
      a session is in ISO week (y, w) exactly when its day lies between the
      Monday and the Sunday `calculate_week_range(y, w)` returns. */
  lemma InIsoWeekIsWeekRange(s: Session, y: int, w: int)
    requires s.timestamp.Some? && WeekStart(s.timestamp.value.day) + 6 <= MaxOrdinal
    ensures InIsoWeek(s, y, w) <==>
      (WeekRange(y, w).Ok? && WeekRange(y, w).value.0 <= s.timestamp.value.day <= WeekRange(y, w).value.1)
  {
    var n := s.timestamp.value.day;
    var iso := IsoCalendar(n);
    IsoWeekOfDay(n);
    assert WeekRange(iso.year, iso.week) == Ok((WeekStart(n), WeekStart(n) + 6));
    if WeekRange(y, w).Ok? && WeekRange(y, w).value.0 <= n <= WeekRange(y, w).value.1 {
      DayInWeekRange(n, y, w);
    }
  }

  /** Every day from the Monday to the Sunday of ISO week (y, w) has that
      ISO year and week. */
  lemma DayInWeekRange(n: Ordinal, y: int, w: int)
    requires WeekRange(y, w).Ok? && WeekRange(y, w).value.0 <= n <= WeekRange(y, w).value.1
    ensures IsoCalendar(n).year == y && IsoCalendar(n).week == w
  {
    var (mon, sun) := WeekRange(y, w).value;
    assert Weekday(mon) == 0 && sun == mon + 6 && IsoCalendar(mon) == IsoDate(y, w, 1) by {
      WeekRangeIsIsoWeek(y, w);
    }
    assert WeekStart(n) == mon by {
      WeekdayFrom(n, mon);
      assert (n - mon) / 7 == 0;
    }
    SameIsoWeek(n, mon);
  }

  // ----- Month range picker (lines 244-262 of the overview page) -----

  /** The `%m` field of `strptime`: the regular expression tries "10" to
      "12", then "01" to "09", then a single digit "1" to "9"; the value
      and the number of characters it consumed. */
  function MonthField(t: string): (r: Option<(int, nat)>)
    ensures r.Some? ==> 1 <= r.value.0 <= 12 && 1 <= r.value.1 <= 2 && r.value.1 <= |t|
  {
    if |t| >= 2 && t[0] == '1' && '0' <= t[1] <= '2' then Some((10 + DigitValue(t[1]), 2))
    else if |t| >= 2 && t[0] == '0' && '1' <= t[1] <= '9' then Some((DigitValue(t[1]), 2))
    else if |t| >= 1 && '1' <= t[0] <= '9' then Some((DigitValue(t[0]), 1))
    else None
  }

  /** `datetime.strptime(text, "%Y-%m")`: four digits, a '-', a month
      field, and nothing after it; year 0 is out of range. The result is
      the year and month of the first of that month. */
  function ParseYearMonth(text: string): (r: Result<(int, int), PickError>)
    ensures r.Ok? ==> ValidDate(Date(r.value.0, r.value.1, 1))
    ensures r.Ok? ==> |text| == 6 || |text| == 7
    ensures r.Err? ==> r.error == BadMonthPick
  {
    if |text| < 5 then Err(BadMonthPick)
    else YearMonthFields(text[..4], text[4], text[5..])
  }

  /** The fields of a "%Y-%m" text: the four year characters, the
      separator and the rest. */
  function YearMonthFields(yearText: string, dash: char, monthText: string): (r: Result<(int, int), PickError>)
    requires |yearText| == 4
    ensures r.Ok? ==> ValidDate(Date(r.value.0, r.value.1, 1))
    ensures r.Ok? ==> |monthText| == 1 || |monthText| == 2
    ensures r.Err? ==> r.error == BadMonthPick
  {
    if !AllDigits(yearText) || dash != '-' then Err(BadMonthPick)
    else match MonthField(monthText)
      case None => Err(BadMonthPick)
      case Some((m, used)) =>
        var y := DecimalValue(yearText);
        if used != |monthText| || y < 1 then Err(BadMonthPick)
        else
          assert y < 10000 by { DecimalValueBound(yearText); }
          Ok((y, m))
  }

  lemma {:induction false} DecimalValueBound(s: string)
    requires AllDigits(s)
    ensures DecimalValue(s) < Pow10(|s|)
  {
    if s != [] {
      DecimalValueBound(s[..|s| - 1]);
    }
  }

  lemma FieldsOfYearMonthText(yearText: string, monthText: string)
    requires |yearText| == 4
    ensures ParseYearMonth(yearText + "-" + monthText) == YearMonthFields(yearText, '-', monthText)
  {
    var text := yearText + "-" + monthText;
    assert text[..4] == yearText;
    assert text[4] == '-';
    assert text[5..] == monthText;
  }

  lemma TwoDigitValue(t: string)
    requires |t| == 2 && AllDigits(t)
    ensures DecimalValue(t) == 10 * DigitValue(t[0]) + DigitValue(t[1])
  {
    var head := t[..1];
    assert t[..|t| - 1] == head && head[..0] == [] && head[0] == t[0];
    assert DecimalValue(head) == DigitValue(t[0]);
  }

  /** The month texts `strptime` accepts after "YYYY-": one digit 1 to 9,
      or two digits from 01 to 12. */
  lemma ParseYearMonthAccepts(year: int, t: string)
    requires 1 <= year < 10000
    ensures ParseYearMonth(PadDecimal(year, 4) + "-" + t).Ok? <==>
      ((|t| == 1 && '1' <= t[0] <= '9')
       || (|t| == 2 && AllDigits(t) && 1 <= DecimalValue(t) <= 12))
  {
    var yt := PadDecimal(year, 4);
    FieldsOfYearMonthText(yt, t);
    PadDecimalValue(year, 4);
    assert AllDigits(yt) && DecimalValue(yt) >= 1;
    MonthFieldWhole(t);
  }

  /** The `%m` field takes the whole of `t` exactly for one digit 1 to 9 or
      two digits 01 to 12. */
  lemma MonthFieldWhole(t: string)
    ensures (MonthField(t).Some? && MonthField(t).value.1 == |t|) <==>
      ((|t| == 1 && '1' <= t[0] <= '9')
       || (|t| == 2 && AllDigits(t) && 1 <= DecimalValue(t) <= 12))
  {
    if |t| == 2 && AllDigits(t) {
      TwoDigitValue(t);
    }
  }

  /** The zero-padded "YYYY-MM" form of a month reads back as that month. */
  lemma YearMonthRoundTrip(year: int, month: int)
    requires 1 <= year < 10000 && 1 <= month <= 12
    ensures ParseYearMonth(PadDecimal(year, 4) + "-" + PadDecimal(month, 2)) == Ok((year, month))
  {
    var yt, t := PadDecimal(year, 4), PadDecimal(month, 2);
    FieldsOfYearMonthText(yt, t);
    PadDecimalValue(year, 4);
    PadDecimalValue(month, 2);
    MonthFieldOfTwoDigits(t);
  }

  /** Two digits spelling 1 to 12 are a whole `%m` field. */
  lemma MonthFieldOfTwoDigits(t: string)
    requires |t| == 2 && AllDigits(t) && 1 <= DecimalValue(t) <= 12
    ensures MonthField(t) == Some((DecimalValue(t), 2))
  {
    TwoDigitValue(t);
  }

  /** Lines 248-249: the first of the month plus 32 days, back to the first
      of that month, minus one day. The result is the last day of the
      month; only December 9999 overflows. */
  function MonthEnd(year: int, month: int): (r: Result<Ordinal, PickError>)
    requires ValidDate(Date(year, month, 1))
    ensures r.Err? <==> year == MaxYear && month == 12
    ensures r.Err? ==> r.error == MonthEndOverflow
    ensures r.Ok? ==> r.value == ToOrdinal(Date(year, month, DaysInMonth(year, month)))
  {
    var first := ToOrdinal(Date(year, month, 1));
    MonthEndByNextMonth(year, month);
    if first + 32 > MaxOrdinal then
      Err(MonthEndOverflow)
    else
      var later := FromOrdinal(first + 32);
      Ok(ToOrdinal(Date(later.year, later.month, 1)) - 1)
  }

  /** What `MonthEnd` computes, day by day: 32 days after the first of a
      month fall in the next month, whose first day is one past the month's
      last. */
  lemma MonthEndByNextMonth(year: int, month: int)
    requires ValidDate(Date(year, month, 1))
    ensures var first := ToOrdinal(Date(year, month, 1));
      && (first + 32 > MaxOrdinal <==> year == MaxYear && month == 12)
      && (first + 32 <= MaxOrdinal ==>
        var later := FromOrdinal(first + 32);
        && ValidDate(Date(later.year, later.month, 1))
        && ToOrdinal(Date(later.year, later.month, 1)) - 1 == ToOrdinal(Date(year, month, DaysInMonth(year, month))))
  {
    MonthEndInNextMonth(year, month);
  }

  /** First of a month plus 32 days is day 33 - d of the next month, d being
      the month's length; December 9999 has no next month. */
  lemma MonthEndInNextMonth(year: int, month: int)
    requires ValidDate(Date(year, month, 1))
    ensures var first := ToOrdinal(Date(year, month, 1));
      if year == MaxYear && month == 12 then first + 32 > MaxOrdinal
      else
        var next := NextMonthStart(year, month);
        var later := Date(next.year, next.month, 33 - DaysInMonth(year, month));
        && ValidDate(next) && ValidDate(later)
        && first + 32 <= MaxOrdinal
        && FromOrdinal(first + 32) == later
        && ToOrdinal(next) == first + DaysInMonth(year, month)
        && ToOrdinal(Date(year, month, DaysInMonth(year, month))) == first + DaysInMonth(year, month) - 1
  {
    if year == MaxYear && month == 12 {
      DaysBeforeYearStep(MaxYear);
      MaxOrdinalIsEndOfMaxYear();
    } else {
      var next := NextMonthStart(year, month);
      NextMonthOrdinal(year, month);
      var later := Date(next.year, next.month, 33 - DaysInMonth(year, month));
      FromToOrdinal(later);
    }
  }

  /** The month bounds a month pick selects: the first day of the start
      month and the last day of the end month. */
  function MonthSelection(pick: seq<string>): (r: Result<Option<(Ordinal, Ordinal)>, PickError>)
    ensures pick == [] <==> r == Ok(None)
    ensures pick != [] && |pick| != 2 ==> r == Err(BadMonthPick)
    ensures |pick| == 2 && (ParseYearMonth(pick[0]).Err? || ParseYearMonth(pick[1]).Err?) ==> r == Err(BadMonthPick)
    ensures |pick| == 2 && ParseYearMonth(pick[0]).Ok? && ParseYearMonth(pick[1]).Ok? ==>
      (r.Err? <==> ParseYearMonth(pick[1]).value == (MaxYear, 12))
      && (r.Err? ==> r.error == MonthEndOverflow)
    ensures r.Ok? && r.value.Some? ==>
      |pick| == 2 && ParseYearMonth(pick[0]).Ok? && ParseYearMonth(pick[1]).Ok?
    ensures r.Ok? && r.value.Some? ==>
      var (sy, sm) := ParseYearMonth(pick[0]).value;
      var (ey, em) := ParseYearMonth(pick[1]).value;
      && r.value.value.0 == ToOrdinal(Date(sy, sm, 1))
      && r.value.value.1 == ToOrdinal(Date(ey, em, DaysInMonth(ey, em)))
  {
    if pick == [] then Ok(None)
    else if |pick| != 2 then Err(BadMonthPick)
    else match (ParseYearMonth(pick[0]), ParseYearMonth(pick[1]))
      case (Err(e), _) => Err(e)
      case (_, Err(e)) => Err(e)
      case (Ok((sy, sm)), Ok((ey, em))) =>
        match MonthEnd(ey, em)
        case Err(e) => Err(e)
        case Ok(last) => Ok(Some((ToOrdinal(Date(sy, sm, 1)), last)))
  }

  /** The window as the code compares it: a timestamp between midnight of
      the first day and midnight of the last day, both included. */
  predicate InMonthWindowAsWritten(s: Session, first: Ordinal, last: Ordinal)
  {
    s.timestamp.Some?
    && Instant(Midnight(first)) <= Instant(s.timestamp.value) <= Instant(Midnight(last))
  }

  /** The window the picker describes: every moment of every day from the
      first day to the last. */
  predicate InMonthWindow(s: Session, first: Ordinal, last: Ordinal)
  {
    s.timestamp.Some? && first <= s.timestamp.value.day <= last
  }

  function MonthCriterionAsWritten(selected: Option<(Ordinal, Ordinal)>): Session -> bool
  {
    (s: Session) => selected.None? || InMonthWindowAsWritten(s, selected.value.0, selected.value.1)
  }

  function MonthCriterion(selected: Option<(Ordinal, Ordinal)>): Session -> bool
  {
    (s: Session) => selected.None? || InMonthWindow(s, selected.value.0, selected.value.1)
  }

  /** The month filter as written: the end bound is midnight of the last
      day, so later moments of that day fall outside it. */
  function ByMonthRangeAsWritten(rows: seq<Session>, pick: seq<string>): (r: Result<seq<Session>, PickError>)
    ensures r.Err? <==> MonthSelection(pick).Err?
    ensures r.Ok? ==> r.value == Where(rows, MonthCriterionAsWritten(MonthSelection(pick).value))
  {
    match MonthSelection(pick)
    case Err(e) => Err(e)
    case Ok(selected) => Ok(Where(rows, MonthCriterionAsWritten(selected)))
  }

  /** The month filter with the whole of the last day included: an empty
      pick keeps the table, and otherwise exactly the sessions from the
      first of the start month to the end of the end month remain. */
  function ByMonthRange(rows: seq<Session>, pick: seq<string>): (r: Result<seq<Session>, PickError>)
    ensures pick == [] ==> r == Ok(rows)
    ensures r.Err? <==> MonthSelection(pick).Err?
    ensures r.Ok? && pick != [] ==>
      var (first, last) := MonthSelection(pick).value.value;
      forall s :: multiset(r.value)[s] == if InMonthWindow(s, first, last) then multiset(rows)[s] else 0
    ensures r.Ok? ==> r.value == Where(rows, MonthCriterion(MonthSelection(pick).value))
  {
    match MonthSelection(pick)
    case Err(e) => Err(e)
    case Ok(None) =>
      WhereKeepsAll(rows, MonthCriterion(None));
      Ok(rows)
    case Ok(Some(bounds)) => Ok(Where(rows, MonthCriterion(Some(bounds))))
  }

  /** The two windows agree on every moment except the part of the last
      day after midnight, which only the corrected window keeps. */
  lemma MonthWindowsDiffer(s: Session, first: Ordinal, last: Ordinal)
    requires s.timestamp.Some?
    ensures InMonthWindowAsWritten(s, first, last) ==> InMonthWindow(s, first, last)
    ensures InMonthWindow(s, first, last) && !InMonthWindowAsWritten(s, first, last) <==>
      (first <= last && s.timestamp.value.day == last && s.timestamp.value.second > 0)
  {
  }

  /** A session the page's month window misses although the intended
      window holds it: one logged after midnight on the window's last day. */
  predicate LateOnLastDay(s: Session, selected: Option<(Ordinal, Ordinal)>)
  {
    && selected.Some? && s.timestamp.Some? && selected.value.0 <= selected.value.1
    && s.timestamp.value.day == selected.value.1 && s.timestamp.value.second > 0
  }

  /** The month step as the pages write it keeps exactly what the intended
      step keeps, less the sessions after midnight on the last day. */
  lemma MonthCriteriaDiffer(selected: Option<(Ordinal, Ordinal)>, s: Session)
    ensures MonthCriterionAsWritten(selected)(s) <==> MonthCriterion(selected)(s) && !LateOnLastDay(s, selected)
  {
    if selected.Some? && s.timestamp.Some? {
      MonthWindowsDiffer(s, selected.value.0, selected.value.1);
    }
  }

  /** With one month picked as both ends of the range, a session logged
      after midnight on that month's last day (10:00 on 31 January 2024
      with "2024-01" picked, say): the code as written drops it, the
      corrected filter keeps it. */
  lemma LastDayOfMonthDropped(year: int, month: int, s: Session)
    requires 1 <= year <= MaxYear && 1 <= month <= 12 && !(year == MaxYear && month == 12)
    requires s.timestamp.Some? && s.timestamp.value.second > 0
    requires s.timestamp.value.day == ToOrdinal(Date(year, month, DaysInMonth(year, month)))
    ensures var pick := PadDecimal(year, 4) + "-" + PadDecimal(month, 2);
      && ByMonthRangeAsWritten([s], [pick, pick]) == Ok([])
      && ByMonthRange([s], [pick, pick]) == Ok([s])
  {
    var pick := PadDecimal(year, 4) + "-" + PadDecimal(month, 2);
    YearMonthRoundTrip(year, month);
    var first, last := ToOrdinal(Date(year, month, 1)), ToOrdinal(Date(year, month, DaysInMonth(year, month)));
    assert MonthSelection([pick, pick]) == Ok(Some((first, last)));
    assert first <= last;
    assert Where([s], MonthCriterionAsWritten(Some((first, last)))) == [] by {
      assert !MonthCriterionAsWritten(Some((first, last)))(s);
    }
    assert Where([s], MonthCriterion(Some((first, last)))) == [s] by {
      assert MonthCriterion(Some((first, last)))(s);
    }
  }
}
