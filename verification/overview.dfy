/** The overview page: its filter chain (exercise type, users, ISO week,
    then month range), the four totals cards and today's scheduled
    exercise from the regime worksheet. The streak cards are in module
    `Streaks`, run on the rows this chain keeps. */
module Overview {
  import opened Common
  import opened Calendar
  import opened Sheets
  import opened Filters

  // ----- Filter chain (lines 141-161, 195-202 and 244-262) -----

  function SessionUser(s: Session): Cell
  {
    s.user
  }

  /** What the overview keeps: the selected exercise type, the selected
      users, the picked ISO week and the picked month range as the page
      compares it (up to midnight of the last day), all at once. */
  function OverviewCriterion(exerciseType: string, users: seq<string>, week: Option<(nat, nat)>, month: Option<(Ordinal, Ordinal)>)
    : Session -> bool
  {
    (s: Session) =>
      ExerciseTypeCriterion(exerciseType)(s) && UserCriterion(SessionUser, users)(s)
      && WeekCriterion(week)(s) && MonthCriterionAsWritten(month)(s)
  }

  /** The page rebinds `filtered_df` through the type, user, week and
      month filters in turn. A week pick the page cannot read is the error
      reported first, then a month pick; otherwise the result is the one
      mask that combines the four selections, in the log's order. */
  method OverviewFilters(rows: seq<Session>, exerciseType: string, users: seq<string>, weekPick: seq<string>, monthPick: seq<string>)
    returns (r: Result<seq<Session>, PickError>)
    ensures r.Err? <==> WeekSelection(weekPick).Err? || MonthSelection(monthPick).Err?
    ensures r.Err? ==> r.error == if WeekSelection(weekPick).Err? then BadWeekPick else MonthSelection(monthPick).error
    ensures r.Ok? ==>
      r.value == Where(rows, OverviewCriterion(exerciseType, users, WeekSelection(weekPick).value, MonthSelection(monthPick).value))
  {
    var filtered := rows;
    filtered := ByExerciseType(filtered, exerciseType);
    filtered := ByUsers(filtered, SessionUser, users);
    var byWeek := ByIsoWeek(filtered, weekPick);
    if byWeek.Err? {
      return Err(byWeek.error);
    }
    filtered := byWeek.value;
    var byMonth := ByMonthRangeAsWritten(filtered, monthPick);
    if byMonth.Err? {
      return Err(byMonth.error);
    }
    filtered := byMonth.value;
    ghost var ty, us := ExerciseTypeCriterion(exerciseType), UserCriterion(SessionUser, users);
    ghost var wk, mo := WeekCriterion(WeekSelection(weekPick).value), MonthCriterionAsWritten(MonthSelection(monthPick).value);
    ghost var tyUs := (s: Session) => ty(s) && us(s);
    ghost var tyUsWk := (s: Session) => tyUs(s) && wk(s);
    WhereFuse(rows, ty, us, tyUs);
    WhereFuse(rows, tyUs, wk, tyUsWk);
    WhereFuse(rows, tyUsWk, mo,
      OverviewCriterion(exerciseType, users, WeekSelection(weekPick).value, MonthSelection(monthPick).value));
    r := Ok(filtered);
  }

  // ----- Totals cards (lines 311, 324-325, 342 and 359) -----

  /** `np.sum` of a numeric column: NaN cells are skipped, and an empty
      column sums to 0. */
  function SumKnown(xs: seq<Option<real>>): real
  {
    if xs == [] then 0.0 else (if xs[0].Some? then xs[0].value else 0.0) + SumKnown(xs[1..])
  }

  /** The sum of a column over a concatenation is the sum of the sums. */
  lemma {:induction false} SumKnownAppend(a: seq<Option<real>>, b: seq<Option<real>>)
    ensures SumKnown(a + b) == SumKnown(a) + SumKnown(b)
  {
    if a != [] {
      assert (a + b)[1..] == a[1..] + b;
      SumKnownAppend(a[1..], b);
    } else {
      assert a + b == b;
    }
  }

  /** A column whose cells are all non-negative, or unknown, sums to a
      non-negative total. */
  lemma {:induction false} SumKnownNonNegative(xs: seq<Option<real>>)
    requires forall i :: 0 <= i < |xs| && xs[i].Some? ==> xs[i].value >= 0.0
    ensures SumKnown(xs) >= 0.0
  {
    if xs != [] {
      SumKnownNonNegative(xs[1..]);
    }
  }

  /** A column of the filtered log. */
  function Column(rows: seq<Session>, field: Session -> Option<real>): (xs: seq<Option<real>>)
    ensures |xs| == |rows| && forall i :: 0 <= i < |rows| ==> xs[i] == field(rows[i])
  {
    seq(|rows|, i requires 0 <= i < |rows| => field(rows[i]))
  }

  /** The four cards: sessions logged, minutes, miles and reps. */
  datatype Totals = Totals(sessions: nat, minutes: real, miles: real, reps: real)

  function Durations(s: Session): Option<real> { s.duration }
  function Distances(s: Session): Option<real> { s.distance }
  function RepCounts(s: Session): Option<real> { s.reps }

  /** `len(filtered_df['Timestamp'])` counts every row, an unknown
      timestamp included; each sum adds the known values of its column. */
  function OverviewTotals(rows: seq<Session>): (t: Totals)
    ensures t.sessions == |rows|
    ensures rows == [] ==> t == Totals(0, 0.0, 0.0, 0.0)
  {
    Totals(|rows|, SumKnown(Column(rows, Durations)), SumKnown(Column(rows, Distances)), SumKnown(Column(rows, RepCounts)))
  }

  /** The hours card before rounding to one decimal place. */
  function HoursExercised(t: Totals): (hours: real)
    ensures hours * 60.0 == t.minutes
    ensures t.minutes >= 0.0 ==> hours >= 0.0
  {
    t.minutes / 60.0
  }

  /** A log of one session: one session, and each card is that session's
      value, or nothing when its cell is empty. With `TotalsAppend` this fixes
      every card of every log. */
  lemma TotalsOfOne(s: Session)
    ensures OverviewTotals([s]) == Totals(1,
      if s.duration.Some? then s.duration.value else 0.0,
      if s.distance.Some? then s.distance.value else 0.0,
      if s.reps.Some? then s.reps.value else 0.0)
  {
    var one := [s];
    assert one[1..] == [];
    assert Column(one, Durations) == [s.duration];
    assert Column(one, Distances) == [s.distance];
    assert Column(one, RepCounts) == [s.reps];
    assert forall x: Option<real> :: SumKnown([x]) == (if x.Some? then x.value else 0.0) by {
      forall x: Option<real> ensures SumKnown([x]) == (if x.Some? then x.value else 0.0) {
        assert [x][1..] == [];
      }
    }
  }

  lemma ColumnAppend(a: seq<Session>, b: seq<Session>, field: Session -> Option<real>)
    ensures Column(a + b, field) == Column(a, field) + Column(b, field)
  {
  }

  /** The totals of a log split in two are the sums of the totals of the
      parts: every card adds up over the rows. */
  lemma TotalsAppend(a: seq<Session>, b: seq<Session>)
    ensures var (ta, tb, t) := (OverviewTotals(a), OverviewTotals(b), OverviewTotals(a + b));
      && t.sessions == ta.sessions + tb.sessions
      && t.minutes == ta.minutes + tb.minutes
      && t.miles == ta.miles + tb.miles
      && t.reps == ta.reps + tb.reps
  {
    ColumnAppend(a, b, Durations);
    ColumnAppend(a, b, Distances);
    ColumnAppend(a, b, RepCounts);
    SumKnownAppend(Column(a, Durations), Column(b, Durations));
    SumKnownAppend(Column(a, Distances), Column(b, Distances));
    SumKnownAppend(Column(a, RepCounts), Column(b, RepCounts));
  }

  /** Splitting the log by any criterion splits every card: the totals of
      the rows kept and of the rows dropped add up to the totals of the
      whole log. */
  lemma {:induction false} TotalsSplit(rows: seq<Session>, keep: Session -> bool)
    ensures var (t, k, d) := (OverviewTotals(rows), OverviewTotals(Where(rows, keep)),
                              OverviewTotals(Where(rows, (s: Session) => !keep(s))));
      && t.sessions == k.sessions + d.sessions
      && t.minutes == k.minutes + d.minutes
      && t.miles == k.miles + d.miles
      && t.reps == k.reps + d.reps
  {
    var drop := (s: Session) => !keep(s);
    if rows != [] {
      TotalsSplit(rows[1..], keep);
      TotalsAppend([rows[0]], rows[1..]);
      assert [rows[0]] + rows[1..] == rows;
      if keep(rows[0]) {
        assert Where(rows, keep) == [rows[0]] + Where(rows[1..], keep);
        assert Where(rows, drop) == Where(rows[1..], drop);
        TotalsAppend([rows[0]], Where(rows[1..], keep));
      } else {
        assert Where(rows, drop) == [rows[0]] + Where(rows[1..], drop);
        assert Where(rows, keep) == Where(rows[1..], keep);
        TotalsAppend([rows[0]], Where(rows[1..], drop));
      }
    }
  }

  // ----- Today's exercise (lines 275-282) -----

  /** One row of the regime worksheet. */
  datatype RegimeEntry = RegimeEntry(dayOfWeek: Cell, exerciseType: Cell)

  /** The English day names `strftime('%A')` writes, Monday first. */
  const DayNames: seq<string> := ["Monday", "Tuesday", "Wednesday", "Thursday", "Friday", "Saturday", "Sunday"]

  const NoExerciseScheduled := "No exercise scheduled"

  /** The regime worksheet as entries; the lookup needs its `Day of Week`
      and `Type` columns. */
  function RegimeOf(t: Table): (r: Result<seq<RegimeEntry>, ColumnError>)
    requires Rectangular(t)
    ensures r.Err? <==> ColumnIndex(t.header, "Day of Week").None? || ColumnIndex(t.header, "Type").None?
    ensures r.Ok? ==> |r.value| == |t.rows| && forall i :: 0 <= i < |t.rows| ==>
      r.value[i] == RegimeEntry(t.rows[i][ColumnIndex(t.header, "Day of Week").value], t.rows[i][ColumnIndex(t.header, "Type").value])
  {
    var dw := ColumnIndex(t.header, "Day of Week");
    var ty := ColumnIndex(t.header, "Type");
    if dw.None? then Err(MissingColumn("Day of Week"))
    else if ty.None? then Err(MissingColumn("Type"))
    else Ok(seq(|t.rows|, i requires 0 <= i < |t.rows| => RegimeEntry(t.rows[i][dw.value], t.rows[i][ty.value])))
  }

  /** The index of the first regime row for `dayName`, if any. */
  function FirstRowFor(regime: seq<RegimeEntry>, dayName: string): (r: Option<nat>)
    ensures r.None? <==> forall i :: 0 <= i < |regime| ==> regime[i].dayOfWeek != Some(dayName)
    ensures r.Some? ==> (
      && r.value < |regime| && regime[r.value].dayOfWeek == Some(dayName)
      && forall j :: 0 <= j < r.value ==> regime[j].dayOfWeek != Some(dayName))
  {
    if regime == [] then None
    else if regime[0].dayOfWeek == Some(dayName) then Some(0)
    else match FirstRowFor(regime[1..], dayName)
      case None => None
      case Some(k) => Some(k + 1)
  }

  /** The `Type` of the first regime row for `dayName`, or the default
      message when no row names that day. A matching row whose type cell
      is empty gives the empty cell. */
  function ExerciseForDay(regime: seq<RegimeEntry>, dayName: string): (r: Cell)
    ensures FirstRowFor(regime, dayName).None? ==> r == Some(NoExerciseScheduled)
    ensures FirstRowFor(regime, dayName).Some? ==> r == regime[FirstRowFor(regime, dayName).value].exerciseType
  {
    match FirstRowFor(regime, dayName)
    case None => Some(NoExerciseScheduled)
    case Some(i) => regime[i].exerciseType
  }

  /** Today's exercise: the regime entry for today's weekday name. */
  function TodaysExercise(regime: seq<RegimeEntry>, today: Ordinal): (r: Cell)
    ensures var name := DayNames[Weekday(today)];
      (forall i :: 0 <= i < |regime| ==> regime[i].dayOfWeek != Some(name)) ==> r == Some(NoExerciseScheduled)
    ensures var name := DayNames[Weekday(today)];
      forall i :: (0 <= i < |regime| && regime[i].dayOfWeek == Some(name)
                   && forall j :: 0 <= j < i ==> regime[j].dayOfWeek != Some(name)) ==> r == regime[i].exerciseType
  {
    ExerciseForDay(regime, DayNames[Weekday(today)])
  }

  /** The regime repeats every week: a day and the same weekday a week
      later get the same exercise. */
  lemma TodaysExerciseWeekly(regime: seq<RegimeEntry>, today: Ordinal)
    requires today + 7 <= MaxOrdinal
    ensures TodaysExercise(regime, today + 7) == TodaysExercise(regime, today)
  {
    assert Weekday(today + 7) == Weekday(today);
  }

  /** Rows for other days, before or after, never change today's answer;
      only the first row naming the day counts. */
  lemma ExerciseForDayIgnoresOthers(before: seq<RegimeEntry>, e: RegimeEntry, after: seq<RegimeEntry>, dayName: string)
    requires forall i :: 0 <= i < |before| ==> before[i].dayOfWeek != Some(dayName)
    requires e.dayOfWeek == Some(dayName)
    ensures ExerciseForDay(before + [e] + after, dayName) == e.exerciseType
  {
    var all := before + [e] + after;
    assert all[|before|] == e;
    assert forall j :: 0 <= j < |before| ==> all[j] == before[j];
  }

  /** 1 January 2025, a Wednesday, looks up the Wednesday row. */
  lemma NewYear2025IsWednesday()
    ensures DayNames[Weekday(ToOrdinal(Date(2025, 1, 1)))] == "Wednesday"
  {
    DaysBeforeYearClosedForm(2025);
    assert DaysBeforeYear(2025) == 739251;
    assert ToOrdinal(Date(2025, 1, 1)) == 739252;
  }
}
