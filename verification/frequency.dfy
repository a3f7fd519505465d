/** The exercise frequency page: its filter chain (week, month, then
    exercise type), the count of sessions per exercise type and the types
    that are missing, the (year, week) by weekday heatmap with its overall
    row, and the time-of-day bar chart. */
module Frequency {
  import opened Common
  import opened Calendar
  import opened Sheets
  import opened Filters

  // ----- Filter chain (lines 104-138, 180-198 and 223-224) -----

  /** What the frequency page keeps: the picked ISO week, the picked month
      range as the page compares it (up to midnight of the last day) and
      the selected exercise type, all at once. */
  function FrequencyCriterion(week: Option<(nat, nat)>, month: Option<(Ordinal, Ordinal)>, exerciseType: string): Session -> bool
  {
    (s: Session) =>
      WeekCriterion(week)(s) && MonthCriterionAsWritten(month)(s) && ExerciseTypeCriterion(exerciseType)(s)
  }

  /** The page rebinds `filtered_df` through the week filter, the month
      filter and the type filter in turn. The week pick is read first, so a
      bad week pick is the error reported; otherwise the result is the one
      mask that combines the three selections. */
  method FrequencyFilters(rows: seq<Session>, weekPick: seq<string>, monthPick: seq<string>, exerciseType: string)
    returns (r: Result<seq<Session>, PickError>)
    ensures r.Err? <==> WeekSelection(weekPick).Err? || MonthSelection(monthPick).Err?
    ensures r.Err? ==> r.error == if WeekSelection(weekPick).Err? then BadWeekPick else MonthSelection(monthPick).error
    ensures r.Ok? ==>
      r.value == Where(rows, FrequencyCriterion(WeekSelection(weekPick).value, MonthSelection(monthPick).value, exerciseType))
  {
    var filtered := rows;
    var byWeek := ByIsoWeek(filtered, weekPick);
    if byWeek.Err? {
      return Err(byWeek.error);
    }
    filtered := byWeek.value;
    var byMonth := ByMonthRangeAsWritten(filtered, monthPick);
    if byMonth.Err? {
      return Err(byMonth.error);
    }
    filtered := byMonth.value;
    filtered := ByExerciseType(filtered, exerciseType);
    ghost var week, month := WeekCriterion(WeekSelection(weekPick).value), MonthCriterionAsWritten(MonthSelection(monthPick).value);
    ghost var weekAndMonth := (s: Session) => week(s) && month(s);
    WhereFuse(rows, week, month, weekAndMonth);
    WhereFuse(rows, weekAndMonth, ExerciseTypeCriterion(exerciseType),
      FrequencyCriterion(WeekSelection(weekPick).value, MonthSelection(monthPick).value, exerciseType));
    r := Ok(filtered);
  }

  // ----- Sessions per exercise type (lines 227 and 238-239) -----

  /** The number of sessions of type `t`. */
  function CountOfType(rows: seq<Session>, t: string): (r: nat)
    ensures r <= |rows|
    ensures r == |rows| <==> forall i :: 0 <= i < |rows| ==> rows[i].exerciseType == Some(t)
  {
    if rows == [] then 0
    else
      assert forall i :: 1 <= i < |rows| ==> rows[i] == rows[1..][i - 1];
      (if rows[0].exerciseType == Some(t) then 1 else 0) + CountOfType(rows[1..], t)
  }

  /** The count of a type is the number of rows the type selector keeps
      when that type is chosen. */
  lemma {:induction false} CountOfTypeIsFilterSize(rows: seq<Session>, t: string)
    requires t != AllExerciseTypes
    ensures CountOfType(rows, t) == |ByExerciseType(rows, t)|
  {
    if rows != [] {
      CountOfTypeIsFilterSize(rows[1..], t);
    }
  }

  /** No session has type `t` exactly when its count is zero. */
  lemma {:induction false} CountOfTypeZero(rows: seq<Session>, t: string)
    ensures CountOfType(rows, t) == 0 <==> forall i :: 0 <= i < |rows| ==> rows[i].exerciseType != Some(t)
  {
    if rows != [] {
      CountOfTypeZero(rows[1..], t);
      assert forall i :: 1 <= i < |rows| ==> rows[i] == rows[1..][i - 1];
    }
  }

  /** `value_counts()` of the exercise type: one entry per type that
      occurs, holding the number of its sessions; sessions without a type
      are not counted. */
  function TypeCounts(rows: seq<Session>): (counts: map<string, nat>)
    ensures forall t :: t in counts <==> CountOfType(rows, t) > 0
    ensures forall t :: t in counts ==> counts[t] == CountOfType(rows, t)
  {
    if rows == [] then map[]
    else
      var rest := TypeCounts(rows[1..]);
      match rows[0].exerciseType
      case None => rest
      case Some(t) => rest[t := if t in rest then rest[t] + 1 else 1]
  }

  /** `set(all_exercise_types) - set(filtered_df["Exercise Type"])`: the
      offered types that no session has. */
  function MissingExercises(rows: seq<Session>): (missing: set<string>)
    ensures forall t :: t in missing <==> t in ExerciseTypes && t !in TypeCounts(rows)
  {
    var present := set i | 0 <= i < |rows| && rows[i].exerciseType.Some? :: rows[i].exerciseType.value;
    assert forall t :: t in present <==> t in TypeCounts(rows) by {
      forall t ensures t in present <==> t in TypeCounts(rows) {
        CountOfTypeZero(rows, t);
        if t in present {
          var i :| 0 <= i < |rows| && rows[i].exerciseType == Some(t);
        }
      }
    }
    (set t | t in ExerciseTypes) - present
  }

  // ----- Time of day (lines 334-353) -----

  datatype TimeOfDay = Morning | Afternoon | Evening | Night

  /** `classify_time_of_day`: 6-11 is morning, 12-16 afternoon, 17-20
      evening, and everything else night, including the NaN hour of an
      unknown timestamp, since every comparison with NaN is false. */
  function ClassifyTimeOfDay(hour: Option<int>): (t: TimeOfDay)
    ensures t == Morning <==> hour.Some? && 6 <= hour.value < 12
    ensures t == Afternoon <==> hour.Some? && 12 <= hour.value < 17
    ensures t == Evening <==> hour.Some? && 17 <= hour.value < 21
    ensures t == Night <==> hour.None? || hour.value < 6 || hour.value >= 21
  {
    if hour.Some? && 6 <= hour.value < 12 then Morning
    else if hour.Some? && 12 <= hour.value < 17 then Afternoon
    else if hour.Some? && 17 <= hour.value < 21 then Evening
    else Night
  }

  function SessionTimeOfDay(s: Session): TimeOfDay
  {
    ClassifyTimeOfDay(if s.timestamp.Some? then Some(Hour(s.timestamp.value)) else None)
  }

  function InBucket(b: TimeOfDay): Session -> bool
  {
    (s: Session) => SessionTimeOfDay(s) == b
  }

  const TimeLogicalOrder: seq<TimeOfDay> := [Morning, Afternoon, Evening, Night]

  /** The number of sessions in one bucket. */
  function BucketSize(rows: seq<Session>, b: TimeOfDay): nat
  {
    |Where(rows, InBucket(b))|
  }

  /** Every session falls in exactly one bucket, so the bucket sizes add up
      to the number of sessions. */
  lemma {:induction false} BucketsPartition(rows: seq<Session>)
    ensures BucketSize(rows, Morning) + BucketSize(rows, Afternoon)
          + BucketSize(rows, Evening) + BucketSize(rows, Night) == |rows|
  {
    if rows != [] {
      BucketsPartition(rows[1..]);
      WhereLengthStep(rows, InBucket(Morning));
      WhereLengthStep(rows, InBucket(Afternoon));
      WhereLengthStep(rows, InBucket(Evening));
      WhereLengthStep(rows, InBucket(Night));
    }
  }

  /** `value_counts()` reindexed by the logical order with zero fill:
      exactly the four buckets, in order, each with the number of its
      sessions (0 for an empty one), adding up to all sessions. */
  function TimeOfDayCounts(rows: seq<Session>): (counts: seq<(TimeOfDay, nat)>)
    ensures |counts| == 4
    ensures forall i :: 0 <= i < 4 ==> counts[i] == (TimeLogicalOrder[i], BucketSize(rows, TimeLogicalOrder[i]))
    ensures counts[0].1 + counts[1].1 + counts[2].1 + counts[3].1 == |rows|
  {
    BucketsPartition(rows);
    var (m, a, e, n) := (BucketSize(rows, Morning), BucketSize(rows, Afternoon), BucketSize(rows, Evening), BucketSize(rows, Night));
    var counts := [(Morning, m), (Afternoon, a), (Evening, e), (Night, n)];
    assert forall i :: 0 <= i < 4 ==> counts[i] == (TimeLogicalOrder[i], BucketSize(rows, TimeLogicalOrder[i])) by {
      assert TimeLogicalOrder == [Morning, Afternoon, Evening, Night];
      forall i | 0 <= i < 4
        ensures counts[i] == (TimeLogicalOrder[i], BucketSize(rows, TimeLogicalOrder[i]))
      {
        if i == 0 {} else if i == 1 {} else if i == 2 {} else {}
      }
    }
    counts
  }

  // ----- Heatmap (lines 233-235, 267-277) -----

  /** A heatmap row label: a year and an ISO week number. */
  type Label = (int, int)

  /** The label as the page computes it: the calendar year (line 235) with
      the ISO week (line 234). */
  function HeatKeyAsWritten(n: Ordinal): (r: Label)
    ensures r.0 == FromOrdinal(n).year && r.1 == IsoCalendar(n).week
    ensures 1 <= r.1 <= 53
  {
    YearOfUnique(n, FromOrdinal(n).year);
    (YearOf(n), IsoCalendar(n).week)
  }

  /** The label with the ISO year, which belongs with the ISO week. */
  function HeatKey(n: Ordinal): (r: Label)
    ensures MinYear <= r.0 && (1 <= r.1 <= 52 || (r.1 == 53 && HasWeek53(r.0)))
    ensures r.0 == YearOf(n) - 1 || r.0 == YearOf(n) || r.0 == YearOf(n) + 1
  {
    (IsoCalendar(n).year, IsoCalendar(n).week)
  }

  /** A day in week 53 of the previous ISO year gets the label (y, 53) as
      written, where y is its calendar year; the next ISO year after one with
      a week 53 has none, so `fromisocalendar` rejects that label. */
  lemma HeatKeyAsWrittenInvalidWeek(n: Ordinal)
    requires IsoCalendar(n).year == YearOf(n) - 1 && IsoCalendar(n).week == 53
    ensures HeatKeyAsWritten(n) == (YearOf(n), 53)
    ensures WeekRange(YearOf(n), 53) == Err(InvalidWeek)
  {
    var y := YearOf(n);
    assert n < Week1Monday(y);
    LastWeekOfPreviousYear(n);
    assert HasWeek53(y - 1);
    NoWeek53TwiceInARow(y - 1);
  }

  /** 1 January 2027 is a Friday in week 53 of ISO year 2026, so the label
      as written is (2027, 53), a week 2027 does not have. */
  lemma NewYear2027InWeek53(y: int)
    requires y == 2027
    ensures var n := DaysBeforeYear(y) + 1;
      && 1 <= n <= MaxOrdinal && YearOf(n) == y
      && IsoCalendar(n) == IsoDate(y - 1, 53, 5)
      && HeatKeyAsWritten(n) == (y, 53)
      && WeekRange(y, 53) == Err(InvalidWeek)
  {
    NewYear2027Ordinal(y);
    var n := DaysBeforeYear(y) + 1;
    assert Week1Monday(y) == 739985;
    assert Week1Monday(y - 1) == 739614;
    HeatKeyAsWrittenInvalidWeek(n);
  }

  /** 1 January 2027 is day 739982, and 1 January 2026 is day 739617. */
  lemma NewYear2027Ordinal(y: int)
    requires y == 2027
    ensures DaysBeforeYear(y) == 739981 && DaysBeforeYear(y - 1) == 739616
    ensures 1 <= DaysBeforeYear(y) + 1 <= MaxOrdinal && YearOf(DaysBeforeYear(y) + 1) == y
  {
    DaysBeforeYearClosedForm(y);
    DaysBeforeYearClosedForm(y - 1);
    DaysBeforeYearStep(y);
    MaxOrdinalIsEndOfMaxYear();
    DaysBeforeYearMonotone(y + 1, MaxYear + 1);
    YearOfUnique(DaysBeforeYear(y) + 1, y);
  }

  /** In a year `y` whose next ISO year starts in December (2024: ISO
      2025 starts on Monday 30 December 2024), the label as written gives
      (y, 1) both to that Monday and to the Sunday of ISO week 1 of `y`
      (7 January 2024), which lie in different weeks. */
  lemma HeatKeyAsWrittenMergesWeeks(y: int)
    requires MinYear <= y < MaxYear && Week1Monday(y + 1) <= DaysBeforeYear(y + 1)
    ensures var (late, early) := (Week1Monday(y + 1), Week1Monday(y) + 6);
      && 1 <= late <= MaxOrdinal && 1 <= early <= MaxOrdinal
      && HeatKeyAsWritten(late) == HeatKeyAsWritten(early) == (y, 1)
      && WeekStart(late) != WeekStart(early)
  {
    NextWeek1Label(y);
    Week1SundayLabel(y);
    Week1WeekStarts(y);
    Week1WeekStarts(y + 1);
  }

  /** When ISO year y + 1 starts in December of y, its first Monday is a
      day of calendar year y in ISO week 1. */
  lemma NextWeek1Label(y: int)
    requires MinYear <= y < MaxYear && Week1Monday(y + 1) <= DaysBeforeYear(y + 1)
    ensures var late := Week1Monday(y + 1);
      && 1 <= Week1Monday(y) + 6 < late <= MaxOrdinal
      && HeatKeyAsWritten(late) == (y, 1)
  {
    Week1InYear(y);
    WeekSpan(y);
    LateWeek1Label(Week1Monday(y + 1), y);
  }

  /** A day of calendar year y that is the Monday of ISO year y + 1 has
      week 1. */
  lemma LateWeek1Label(n: Ordinal, y: int)
    requires MinYear <= y < MaxYear && DaysBeforeYear(y) < n <= DaysBeforeYear(y + 1)
    requires n == Week1Monday(y + 1) && n - Week1Monday(y) >= 364
    ensures HeatKeyAsWritten(n) == (y, 1)
  {
    YearOfUnique(n, y);
    assert (n - Week1Monday(y)) / 7 >= 52;
    IsoCalendarNextYear(n);
  }

  /** ISO week 1 of year y begins in calendar year y - 1 or y, and its
      Monday and Sunday are days the calendar has, as is the Monday of
      ISO year y + 1. */
  lemma Week1InYear(y: int)
    requires MinYear <= y < MaxYear
    ensures 0 <= DaysBeforeYear(y) && DaysBeforeYear(y + 1) <= MaxOrdinal
    ensures DaysBeforeYear(y) - 2 <= Week1Monday(y) <= DaysBeforeYear(y) + 4
    ensures DaysBeforeYear(y + 1) - 2 <= Week1Monday(y + 1)
    ensures DaysBeforeYear(y + 1) - DaysBeforeYear(y) >= 365
  {
    Week1MondayFacts(y);
    Week1MondayFacts(y + 1);
    DaysBeforeYearStep(y);
    DaysBeforeYearMonotone(1, y);
    DaysBeforeYearMonotone(y + 1, MaxYear + 1);
    MaxOrdinalIsEndOfMaxYear();
  }

  /** The Sunday of ISO week 1 of y is a day of calendar year y. */
  lemma Week1SundayLabel(y: int)
    requires MinYear <= y < MaxYear
    ensures var early := Week1Monday(y) + 6;
      && 1 <= early <= MaxOrdinal
      && HeatKeyAsWritten(early) == (y, 1)
  {
    var early := Week1Monday(y) + 6;
    Week1InYear(y);
    YearOfUnique(early, y);
    IsoCalendarSameYear(early, 0, 6);
  }

  /** Every day of ISO week 1 has its Monday as week start. */
  lemma Week1WeekStarts(y: int)
    requires y >= 1
    ensures WeekStart(Week1Monday(y)) == Week1Monday(y) && WeekStart(Week1Monday(y) + 6) == Week1Monday(y)
  {
    Week1MondayFacts(y);
    WeekdayFrom(Week1Monday(y) + 6, Week1Monday(y));
  }

  /** 2024 is such a year: ISO week 1 of 2025 starts on 30 December 2024,
      day 739250, the day before 1 January 2025. */
  lemma IsoYearStartsInDecember(y: int)
    requires y == 2024
    ensures Week1Monday(y + 1) == 739250 == DaysBeforeYear(y + 1) - 1
  {
    DaysBeforeYearClosedForm(y + 1);
  }

  /** With the ISO year, two days share a label exactly when they are in
      the same Monday-to-Sunday week. */
  lemma HeatKeyIsWeek(n1: Ordinal, n2: Ordinal)
    requires WeekStart(n1) + 6 <= MaxOrdinal && WeekStart(n2) + 6 <= MaxOrdinal
    ensures HeatKey(n1) == HeatKey(n2) <==> WeekStart(n1) == WeekStart(n2)
  {
    SameIsoWeek(n1, n2);
  }

  /** With the ISO year, `calculate_week_range` of a label gives back the
      Monday and Sunday of the week its sessions fall in. */
  lemma HeatKeyWeekRange(n: Ordinal)
    requires WeekStart(n) + 6 <= MaxOrdinal
    ensures WeekRange(HeatKey(n).0, HeatKey(n).1) == Ok((WeekStart(n), WeekStart(n) + 6))
    ensures WeekStart(n) <= n <= WeekStart(n) + 6
  {
    IsoWeekOfDay(n);
  }

  /** One grouped observation: the row label and the weekday (0 is Monday). */
  datatype Observation = Observation(key: Label, weekday: int)

  predicate HasTimestamp(s: Session)
  {
    s.timestamp.Some?
  }

  /** The (label, weekday) a session with a known timestamp is grouped by. */
  function ObservationOf(keyOf: Ordinal -> Label, s: Session): Observation
    requires s.timestamp.Some?
  {
    Observation(keyOf(s.timestamp.value.day), Weekday(s.timestamp.value.day))
  }

  /** The sessions with a known timestamp, in log order. */
  function Timed(rows: seq<Session>): (r: seq<Session>)
    ensures |r| <= |rows|
    ensures forall i :: 0 <= i < |r| ==> r[i].timestamp.Some?
  {
    if rows == [] then []
    else (if rows[0].timestamp.Some? then [rows[0]] else []) + Timed(rows[1..])
  }

  /** They are what the mask `notna` on the timestamp keeps. */
  lemma {:induction false} TimedIsWhere(rows: seq<Session>)
    ensures Timed(rows) == Where(rows, HasTimestamp)
  {
    if rows != [] {
      TimedIsWhere(rows[1..]);
      WhereStep(rows, HasTimestamp);
    }
  }

  /** The (label, weekday) of every session with a known timestamp, in log
      order; the group-by drops NaT keys. */
  function Observations(rows: seq<Session>, keyOf: Ordinal -> Label): (obs: seq<Observation>)
    ensures |obs| == |Timed(rows)|
    ensures forall i :: 0 <= i < |obs| ==> obs[i] == ObservationOf(keyOf, Timed(rows)[i])
    ensures forall i :: 0 <= i < |obs| ==> 0 <= obs[i].weekday < 7
  {
    if rows == [] then []
    else
      var rest := Observations(rows[1..], keyOf);
      ObservationsStep(rows, keyOf, rest);
      match rows[0].timestamp
      case None => rest
      case Some(t) => [Observation(keyOf(t.day), Weekday(t.day))] + rest
  }

  /** One step of Observations: the head session, if timed, goes in front. */
  lemma ObservationsStep(rows: seq<Session>, keyOf: Ordinal -> Label, rest: seq<Observation>)
    requires rows != []
    requires |rest| == |Timed(rows[1..])|
    requires forall i :: 0 <= i < |rest| ==> rest[i] == ObservationOf(keyOf, Timed(rows[1..])[i])
    ensures rows[0].timestamp.None? ==>
      |rest| == |Timed(rows)| && forall i :: 0 <= i < |rest| ==> rest[i] == ObservationOf(keyOf, Timed(rows)[i])
    ensures rows[0].timestamp.Some? ==>
      var obs := [ObservationOf(keyOf, rows[0])] + rest;
      |obs| == |Timed(rows)| && forall i :: 0 <= i < |obs| ==> obs[i] == ObservationOf(keyOf, Timed(rows)[i])
  {
    if rows[0].timestamp.Some? {
      assert Timed(rows) == [rows[0]] + Timed(rows[1..]);
    } else {
      assert Timed(rows) == Timed(rows[1..]);
    }
  }

  /** Sessions with a known timestamp on weekday `d`. */
  function SessionsOnWeekday(rows: seq<Session>, d: int): nat
  {
    |Where(rows, (s: Session) => s.timestamp.Some? && Weekday(s.timestamp.value.day) == d)|
  }

  lemma {:induction false} ObservationsOnWeekday(rows: seq<Session>, keyOf: Ordinal -> Label, d: int)
    ensures CountDay(Observations(rows, keyOf), d) == SessionsOnWeekday(rows, d)
  {
    if rows != [] {
      ObservationsOnWeekday(rows[1..], keyOf, d);
    }
  }

  function CountCell(obs: seq<Observation>, k: Label, d: int): nat
  {
    if obs == [] then 0
    else (if obs[0].key == k && obs[0].weekday == d then 1 else 0) + CountCell(obs[1..], k, d)
  }

  function CountKey(obs: seq<Observation>, k: Label): nat
  {
    if obs == [] then 0
    else (if obs[0].key == k then 1 else 0) + CountKey(obs[1..], k)
  }

  function CountDay(obs: seq<Observation>, d: int): nat
  {
    if obs == [] then 0
    else (if obs[0].weekday == d then 1 else 0) + CountDay(obs[1..], d)
  }

  /** The distinct labels, one per heatmap row. */
  function DistinctKeys(obs: seq<Observation>): (keys: seq<Label>)
    ensures forall i, j :: 0 <= i < j < |keys| ==> keys[i] != keys[j]
    ensures forall k :: k in keys <==> exists i :: 0 <= i < |obs| && obs[i].key == k
  {
    if obs == [] then []
    else
      var rest := DistinctKeys(obs[1..]);
      if obs[0].key in rest then rest else [obs[0].key] + rest
  }

  /** One heatmap row: the count for each weekday, Monday to Sunday. */
  function HeatmapRow(obs: seq<Observation>, k: Label): (row: seq<nat>)
    ensures |row| == 7
    ensures forall d :: 0 <= d < 7 ==> row[d] == CountCell(obs, k, d)
  {
    var row := [CountCell(obs, k, 0), CountCell(obs, k, 1), CountCell(obs, k, 2), CountCell(obs, k, 3),
                CountCell(obs, k, 4), CountCell(obs, k, 5), CountCell(obs, k, 6)];
    assert forall d :: 0 <= d < 7 ==> row[d] == CountCell(obs, k, d) by {
      forall d | 0 <= d < 7
        ensures row[d] == CountCell(obs, k, d)
      {
        if d == 0 {} else if d == 1 {} else if d == 2 {} else if d == 3 {}
        else if d == 4 {} else if d == 5 {} else {}
      }
    }
    row
  }

  /** The sessions with a known timestamp labelled `k`. */
  function SessionsWithLabel(rows: seq<Session>, keyOf: Ordinal -> Label, k: Label): nat
  {
    |Where(rows, (s: Session) => s.timestamp.Some? && keyOf(s.timestamp.value.day) == k)|
  }

  /** The sessions with a known timestamp labelled `k` on weekday `d`. */
  function SessionsAt(rows: seq<Session>, keyOf: Ordinal -> Label, k: Label, d: int): nat
  {
    |Where(rows, (s: Session) => s.timestamp.Some? && keyOf(s.timestamp.value.day) == k
                                 && Weekday(s.timestamp.value.day) == d)|
  }

  lemma {:induction false} ObservationCells(rows: seq<Session>, keyOf: Ordinal -> Label, k: Label, d: int)
    ensures CountCell(Observations(rows, keyOf), k, d) == SessionsAt(rows, keyOf, k, d)
  {
    if rows != [] {
      ObservationCells(rows[1..], keyOf, k, d);
    }
  }

  lemma {:induction false} ObservationsWithLabel(rows: seq<Session>, keyOf: Ordinal -> Label, k: Label)
    ensures CountKey(Observations(rows, keyOf), k) == SessionsWithLabel(rows, keyOf, k)
  {
    if rows != [] {
      ObservationsWithLabel(rows[1..], keyOf, k);
    }
  }

  lemma {:induction false} CountKeyZero(obs: seq<Observation>, k: Label)
    ensures CountKey(obs, k) == 0 <==> forall i :: 0 <= i < |obs| ==> obs[i].key != k
  {
    if obs != [] {
      CountKeyZero(obs[1..], k);
      assert forall i :: 1 <= i < |obs| ==> obs[i] == obs[1..][i - 1];
    }
  }

  /** `groupby([...]).size().unstack(fill_value=0).reindex(columns=all_days,
      fill_value=0)`: one row per label that occurs, each with all seven
      weekday columns, zero where a label has no session on a weekday. */
  function Heatmap(rows: seq<Session>, keyOf: Ordinal -> Label): (heat: seq<(Label, seq<nat>)>)
    ensures forall i :: 0 <= i < |heat| ==> |heat[i].1| == 7
    ensures forall i, j :: 0 <= i < j < |heat| ==> heat[i].0 != heat[j].0
    ensures forall k :: (exists i :: 0 <= i < |heat| && heat[i].0 == k) <==> SessionsWithLabel(rows, keyOf, k) > 0
    ensures forall i, d :: 0 <= i < |heat| && 0 <= d < 7 ==> heat[i].1[d] == SessionsAt(rows, keyOf, heat[i].0, d)
  {
    var obs := Observations(rows, keyOf);
    var keys := DistinctKeys(obs);
    var heat := seq(|keys|, i requires 0 <= i < |keys| => (keys[i], HeatmapRow(obs, keys[i])));
    HeatmapLabels(rows, keyOf, heat);
    HeatmapCells(rows, keyOf, heat);
    heat
  }

  /** A label is observed exactly when some session with a known timestamp
      carries it. */
  lemma LabelObserved(rows: seq<Session>, keyOf: Ordinal -> Label, k: Label)
    ensures k in DistinctKeys(Observations(rows, keyOf)) <==> SessionsWithLabel(rows, keyOf, k) > 0
  {
    ObservationsWithLabel(rows, keyOf, k);
    CountKeyZero(Observations(rows, keyOf), k);
  }

  /** The labels of a table with one row per distinct observed label are
      exactly the labels some session with a known timestamp carries. */
  lemma HeatmapLabels(rows: seq<Session>, keyOf: Ordinal -> Label, heat: seq<(Label, seq<nat>)>)
    requires var keys := DistinctKeys(Observations(rows, keyOf));
      |heat| == |keys| && forall i :: 0 <= i < |heat| ==> heat[i].0 == keys[i]
    ensures forall k :: (exists i :: 0 <= i < |heat| && heat[i].0 == k) <==> SessionsWithLabel(rows, keyOf, k) > 0
  {
    var keys := DistinctKeys(Observations(rows, keyOf));
    forall k
      ensures (exists i :: 0 <= i < |heat| && heat[i].0 == k) <==> SessionsWithLabel(rows, keyOf, k) > 0
    {
      LabelObserved(rows, keyOf, k);
      if k in keys {
        var i :| 0 <= i < |keys| && keys[i] == k;
        assert heat[i].0 == k;
      }
    }
  }

  /** Every cell of a table of heatmap rows counts the sessions with its
      row's label on its weekday. */
  lemma HeatmapCells(rows: seq<Session>, keyOf: Ordinal -> Label, heat: seq<(Label, seq<nat>)>)
    requires forall i :: 0 <= i < |heat| ==> |heat[i].1| == 7 && heat[i].1 == HeatmapRow(Observations(rows, keyOf), heat[i].0)
    ensures forall i, d :: 0 <= i < |heat| && 0 <= d < 7 ==> heat[i].1[d] == SessionsAt(rows, keyOf, heat[i].0, d)
  {
    forall i, d | 0 <= i < |heat| && 0 <= d < 7 {
      HeatmapCell(rows, keyOf, heat[i].0, d);
    }
  }

  /** Each cell of a heatmap row counts the sessions with the row's label on
      the cell's weekday. */
  lemma HeatmapCell(rows: seq<Session>, keyOf: Ordinal -> Label, k: Label, d: int)
    requires 0 <= d < 7
    ensures HeatmapRow(Observations(rows, keyOf), k)[d] == SessionsAt(rows, keyOf, k, d)
  {
    ObservationCells(rows, keyOf, k, d);
  }

  /** Each heatmap row adds up to the number of sessions with its label. */
  lemma HeatmapRowSum(rows: seq<Session>, keyOf: Ordinal -> Label, i: nat)
    requires i < |Heatmap(rows, keyOf)|
    ensures var (k, row) := Heatmap(rows, keyOf)[i];
      Sum(row) == SessionsWithLabel(rows, keyOf, k) && Sum(row) > 0
  {
    var obs := Observations(rows, keyOf);
    var k := Heatmap(rows, keyOf)[i].0;
    var row := HeatmapRow(obs, k);
    ObservationsWithLabel(rows, keyOf, k);
    CountKeyByWeekday(obs, k);
    SumOfSeven(row);
    assert k in DistinctKeys(obs);
    var j :| 0 <= j < |obs| && obs[j].key == k;
    CountKeyPositive(obs, k, j);
  }

  lemma SumOfSeven(row: seq<nat>)
    requires |row| == 7
    ensures Sum(row) == row[0] + row[1] + row[2] + row[3] + row[4] + row[5] + row[6]
  {
    forall k | 0 <= k < 7
      ensures Sum(row[k..]) == row[k] + Sum(row[k + 1..])
    {
      assert row[k..][1..] == row[k + 1..];
    }
    assert row[0..] == row;
    assert row[7..] == [];
  }

  lemma {:induction false} CountKeyByWeekday(obs: seq<Observation>, k: Label)
    requires forall i :: 0 <= i < |obs| ==> 0 <= obs[i].weekday < 7
    ensures CountKey(obs, k) == CountCell(obs, k, 0) + CountCell(obs, k, 1) + CountCell(obs, k, 2)
      + CountCell(obs, k, 3) + CountCell(obs, k, 4) + CountCell(obs, k, 5) + CountCell(obs, k, 6)
  {
    if obs != [] {
      CountKeyByWeekday(obs[1..], k);
    }
  }

  lemma {:induction false} CountKeyPositive(obs: seq<Observation>, k: Label, j: nat)
    requires j < |obs| && obs[j].key == k
    ensures CountKey(obs, k) > 0
  {
    if j > 0 {
      CountKeyPositive(obs[1..], k, j - 1);
    }
  }

  /** The sum of column `d` over the heatmap rows. */
  function ColumnSum(heat: seq<(Label, seq<nat>)>, d: nat): nat
    requires d < 7 && forall i :: 0 <= i < |heat| ==> |heat[i].1| == 7
  {
    if heat == [] then 0 else heat[0].1[d] + ColumnSum(heat[1..], d)
  }

  /** `heatmap_data.sum(axis=0)`: the column sums, Monday to Sunday. */
  function OverallHeatmap(heat: seq<(Label, seq<nat>)>): (overall: seq<nat>)
    requires forall i :: 0 <= i < |heat| ==> |heat[i].1| == 7
    ensures |overall| == 7
  {
    seq(7, d requires 0 <= d < 7 => ColumnSum(heat, d))
  }

  /** The overall row counts, for each weekday, the sessions with a known
      timestamp on that weekday. */
  lemma OverallIsSessionsPerWeekday(rows: seq<Session>, keyOf: Ordinal -> Label, d: nat)
    requires d < 7
    ensures OverallHeatmap(Heatmap(rows, keyOf))[d] == SessionsOnWeekday(rows, d)
  {
    var obs := Observations(rows, keyOf);
    var keys := DistinctKeys(obs);
    var heat := Heatmap(rows, keyOf);
    ColumnSumIsKeySum(heat, keys, obs, d);
    KeySumIsCountDay(keys, obs, d);
    ObservationsOnWeekday(rows, keyOf, d);
  }

  /** The sum of the weekday-`d` cells over a list of labels. */
  function KeySum(keys: seq<Label>, obs: seq<Observation>, d: int): nat
  {
    if keys == [] then 0 else CountCell(obs, keys[0], d) + KeySum(keys[1..], obs, d)
  }

  lemma {:induction false} ColumnSumIsKeySum(heat: seq<(Label, seq<nat>)>, keys: seq<Label>, obs: seq<Observation>, d: nat)
    requires d < 7 && |heat| == |keys|
    requires forall i :: 0 <= i < |heat| ==> heat[i] == (keys[i], HeatmapRow(obs, keys[i]))
    requires forall i :: 0 <= i < |heat| ==> |heat[i].1| == 7
    ensures ColumnSum(heat, d) == KeySum(keys, obs, d)
  {
    if heat != [] {
      ColumnSumIsKeySum(heat[1..], keys[1..], obs, d);
    }
  }

  /** Summed over distinct labels that cover every observation, the
      weekday-`d` cells count the observations on weekday `d`. */
  lemma {:induction false} KeySumIsCountDay(keys: seq<Label>, obs: seq<Observation>, d: int)
    requires forall i, j :: 0 <= i < j < |keys| ==> keys[i] != keys[j]
    requires forall i :: 0 <= i < |obs| ==> obs[i].key in keys
    ensures KeySum(keys, obs, d) == CountDay(obs, d)
  {
    if obs != [] {
      assert obs[0].key in keys;
      assert forall i :: 0 <= i < |obs[1..]| ==> obs[1..][i] == obs[i + 1];
      KeySumIsCountDay(keys, obs[1..], d);
      KeySumCons(keys, obs, d);
      HitsOfCoveredKey(keys, obs[0], d);
    } else {
      KeySumOfNothing(keys, d);
    }
  }

  lemma {:induction false} KeySumOfNothing(keys: seq<Label>, d: int)
    ensures KeySum(keys, [], d) == 0
  {
    if keys != [] {
      KeySumOfNothing(keys[1..], d);
    }
  }

  /** How many of `keys` observation `o` falls under, in column `d`. */
  function Hits(keys: seq<Label>, o: Observation, d: int): nat
  {
    if keys == [] then 0
    else (if o.key == keys[0] && o.weekday == d then 1 else 0) + Hits(keys[1..], o, d)
  }

  lemma {:induction false} KeySumCons(keys: seq<Label>, obs: seq<Observation>, d: int)
    requires obs != []
    ensures KeySum(keys, obs, d) == Hits(keys, obs[0], d) + KeySum(keys, obs[1..], d)
  {
    if keys != [] {
      KeySumCons(keys[1..], obs, d);
    }
  }

  lemma {:induction false} HitsOfCoveredKey(keys: seq<Label>, o: Observation, d: int)
    requires forall i, j :: 0 <= i < j < |keys| ==> keys[i] != keys[j]
    requires o.key in keys
    ensures Hits(keys, o, d) == if o.weekday == d then 1 else 0
  {
    if keys[0] == o.key {
      HitsOfMissingKey(keys[1..], o, d);
    } else {
      HitsOfCoveredKey(keys[1..], o, d);
    }
  }

  lemma {:induction false} HitsOfMissingKey(keys: seq<Label>, o: Observation, d: int)
    requires o.key !in keys
    ensures Hits(keys, o, d) == 0
  {
    if keys != [] {
      HitsOfMissingKey(keys[1..], o, d);
    }
  }

  /** `format_func` of the per-week selector: every label of the heatmap is
      shown with the Monday and Sunday of its week, so the first label
      `fromisocalendar` rejects stops the page before anything is picked. */
  function WeekMenu(heat: seq<(Label, seq<nat>)>): (r: Result<seq<(Ordinal, Ordinal)>, DateError>)
    ensures r.Ok? <==> forall i :: 0 <= i < |heat| ==> WeekRange(heat[i].0.0, heat[i].0.1).Ok?
    ensures r.Ok? ==> |r.value| == |heat|
    ensures r.Ok? ==> forall i :: 0 <= i < |heat| ==> r.value[i] == WeekRange(heat[i].0.0, heat[i].0.1).value
  {
    if heat == [] then Ok([])
    else
      match WeekRange(heat[0].0.0, heat[0].0.1)
      case Err(e) => Err(e)
      case Ok(week) =>
        var rest := WeekMenu(heat[1..]);
        assert forall i :: 1 <= i < |heat| ==> heat[i] == heat[1..][i - 1];
        if rest.Err? then Err(rest.error) else Ok([week] + rest.value)
  }

  /** A session with a known timestamp contributes its label. */
  lemma {:induction false} LabelledSession(rows: seq<Session>, keyOf: Ordinal -> Label, j: int)
    requires 0 <= j < |rows| && rows[j].timestamp.Some?
    ensures SessionsWithLabel(rows, keyOf, keyOf(rows[j].timestamp.value.day)) > 0
  {
    if j > 0 {
      LabelledSession(rows[1..], keyOf, j - 1);
    }
  }

  /** A label some session carries comes from a session in the log. */
  lemma {:induction false} LabelWitness(rows: seq<Session>, keyOf: Ordinal -> Label, k: Label)
    requires SessionsWithLabel(rows, keyOf, k) > 0
    ensures exists j :: 0 <= j < |rows| && rows[j].timestamp.Some? && keyOf(rows[j].timestamp.value.day) == k
  {
    if rows[0].timestamp.None? || keyOf(rows[0].timestamp.value.day) != k {
      LabelWitness(rows[1..], keyOf, k);
      var j :| 0 <= j < |rows[1..]| && rows[1..][j].timestamp.Some? && keyOf(rows[1..][j].timestamp.value.day) == k;
      assert rows[j + 1] == rows[1..][j];
    }
  }

  /** As written, one session in week 53 of the previous ISO year (1 January
      2027, say) puts a label into the selector that `fromisocalendar`
      rejects, and the page stops. */
  lemma WeekMenuFailsAsWritten(rows: seq<Session>, j: int)
    requires 0 <= j < |rows| && rows[j].timestamp.Some?
    requires var n := rows[j].timestamp.value.day;
      IsoCalendar(n).year == YearOf(n) - 1 && IsoCalendar(n).week == 53
    ensures WeekMenu(Heatmap(rows, HeatKeyAsWritten)).Err?
  {
    var n := rows[j].timestamp.value.day;
    HeatKeyAsWrittenInvalidWeek(n);
    LabelledSession(rows, HeatKeyAsWritten, j);
    var heat := Heatmap(rows, HeatKeyAsWritten);
    var i :| 0 <= i < |heat| && heat[i].0 == HeatKeyAsWritten(n);
  }

  /** With the ISO year in the label every option names a week that exists,
      so the selector can always be drawn (given each session's week ends by
      31 December 9999). */
  lemma WeekMenuOkWithIsoYear(rows: seq<Session>)
    requires forall j :: 0 <= j < |rows| && rows[j].timestamp.Some? ==>
      WeekStart(rows[j].timestamp.value.day) + 6 <= MaxOrdinal
    ensures WeekMenu(Heatmap(rows, HeatKey)).Ok?
  {
    var heat := Heatmap(rows, HeatKey);
    forall i | 0 <= i < |heat|
      ensures WeekRange(heat[i].0.0, heat[i].0.1).Ok?
    {
      assert SessionsWithLabel(rows, HeatKey, heat[i].0) > 0;
      IsoLabelHasWeek(rows, heat[i].0);
    }
  }

  /** A label with the ISO year that some session carries names a week that
      exists. */
  lemma IsoLabelHasWeek(rows: seq<Session>, k: Label)
    requires forall j :: 0 <= j < |rows| && rows[j].timestamp.Some? ==>
      WeekStart(rows[j].timestamp.value.day) + 6 <= MaxOrdinal
    requires SessionsWithLabel(rows, HeatKey, k) > 0
    ensures WeekRange(k.0, k.1).Ok?
  {
    LabelWitness(rows, HeatKey, k);
    var j :| 0 <= j < |rows| && rows[j].timestamp.Some? && HeatKey(rows[j].timestamp.value.day) == k;
    IsoWeekOfDay(rows[j].timestamp.value.day);
  }

  /** How the per-week selector stops the page as written. */
  datatype SelectorStop =
    | WeekRejected(error: DateError)  // `fromisocalendar` rejects a label
    | FloatYearLabel                  // a kept row without a timestamp makes every year label a float
    | NothingToSelect                 // no options: the pick is `None` and unpacking it raises

  /** The per-week selector as written (lines 233-235 and 295-302). The
      options are the heatmap's labels with the calendar year. A kept row
      without a timestamp turns the whole `Year` column into floats, which
      `fromisocalendar` refuses for every label, and a heatmap with no rows
      leaves the pick `None`, which line 302 cannot unpack. */
  function WeekSelectorAsWritten(rows: seq<Session>): (r: Result<seq<(Ordinal, Ordinal)>, SelectorStop>)
    ensures !SomeTimed(rows) ==> r == Err(NothingToSelect)
    ensures SomeTimed(rows) && SomeUntimed(rows) ==> r == Err(FloatYearLabel)
    ensures SomeTimed(rows) && !SomeUntimed(rows) ==> (r.Ok? <==> WeekMenu(Heatmap(rows, HeatKeyAsWritten)).Ok?)
    ensures r.Ok? ==> r.value != [] && r.value == WeekMenu(Heatmap(rows, HeatKeyAsWritten)).value
  {
    if !SomeTimed(rows) then Err(NothingToSelect)
    else if SomeUntimed(rows) then Err(FloatYearLabel)
    else
      var menu := WeekMenu(Heatmap(rows, HeatKeyAsWritten));
      TimedMenuNotEmpty(rows, HeatKeyAsWritten);
      if menu.Err? then Err(WeekRejected(menu.error)) else Ok(menu.value)
  }

  /** Some kept row has a known timestamp. */
  predicate SomeTimed(rows: seq<Session>)
  {
    exists j :: 0 <= j < |rows| && rows[j].timestamp.Some?
  }

  /** Some kept row has no timestamp (NaT). */
  predicate SomeUntimed(rows: seq<Session>)
  {
    exists j :: 0 <= j < |rows| && rows[j].timestamp.None?
  }

  /** The selector with the ISO year in the labels and rows without a
      timestamp left out of them: it never stops the page (for weeks ending
      by 31 December 9999), and it is empty, so that the weekly view can be
      skipped, exactly when no kept row has a timestamp. */
  function WeekSelector(rows: seq<Session>): (r: Result<seq<(Ordinal, Ordinal)>, DateError>)
    ensures (forall j :: 0 <= j < |rows| && rows[j].timestamp.Some? ==>
      WeekStart(rows[j].timestamp.value.day) + 6 <= MaxOrdinal) ==> r.Ok?
    ensures r.Ok? ==> (r.value == [] <==> forall j :: 0 <= j < |rows| ==> rows[j].timestamp.None?)
  {
    IsoMenuFacts(rows);
    WeekMenu(Heatmap(rows, HeatKey))
  }

  /** The facts behind `WeekSelector`, about the menu of ISO-year labels. */
  lemma IsoMenuFacts(rows: seq<Session>)
    ensures var menu := WeekMenu(Heatmap(rows, HeatKey));
      && ((forall j :: 0 <= j < |rows| && rows[j].timestamp.Some? ==>
            WeekStart(rows[j].timestamp.value.day) + 6 <= MaxOrdinal) ==> menu.Ok?)
      && (menu.Ok? ==> (menu.value == [] <==> forall j :: 0 <= j < |rows| ==> rows[j].timestamp.None?))
  {
    if forall j | 0 <= j < |rows| && rows[j].timestamp.Some? :: WeekStart(rows[j].timestamp.value.day) + 6 <= MaxOrdinal {
      WeekMenuOkWithIsoYear(rows);
    }
    UntimedLogHasNoLabels(rows, HeatKey);
  }

  /** A log with a known timestamp gives a menu with some option. */
  lemma TimedMenuNotEmpty(rows: seq<Session>, keyOf: Ordinal -> Label)
    requires SomeTimed(rows)
    ensures WeekMenu(Heatmap(rows, keyOf)).Ok? ==> WeekMenu(Heatmap(rows, keyOf)).value != []
  {
    UntimedLogHasNoLabels(rows, keyOf);
  }

  /** A log without a known timestamp gives a heatmap without rows, and a
      heatmap without rows comes from such a log. */
  lemma UntimedLogHasNoLabels(rows: seq<Session>, keyOf: Ordinal -> Label)
    ensures Heatmap(rows, keyOf) == [] <==> forall j :: 0 <= j < |rows| ==> rows[j].timestamp.None?
  {
    var heat := Heatmap(rows, keyOf);
    if heat != [] {
      assert SessionsWithLabel(rows, keyOf, heat[0].0) > 0;
      LabelWitness(rows, keyOf, heat[0].0);
    }
    if exists j | 0 <= j < |rows| :: rows[j].timestamp.Some? {
      var j :| 0 <= j < |rows| && rows[j].timestamp.Some?;
      LabelledSession(rows, keyOf, j);
    }
  }

  /** `heatmap_data.loc[(year, week)]` for the week chosen in the sidebar:
      the row of that label, or `None` where pandas raises `KeyError`. */
  function WeeklyHeatmap(heat: seq<(Label, seq<nat>)>, k: Label): (row: Option<seq<nat>>)
    ensures row.None? <==> forall i :: 0 <= i < |heat| ==> heat[i].0 != k
    ensures row.Some? ==> exists i :: 0 <= i < |heat| && heat[i] == (k, row.value)
  {
    if heat == [] then None
    else if heat[0].0 == k then Some(heat[0].1)
    else
      var rest := WeeklyHeatmap(heat[1..], k);
      assert rest.Some? ==> exists i :: 0 <= i < |heat[1..]| && heat[1..][i] == (k, rest.value);
      rest
  }
}
