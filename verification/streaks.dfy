/** The streak cards of the overview page (lines 378-415): a day-by-day
    calendar from 1 January 2024 to today, each day flagged active when a
    session of the filtered log falls on it, a running counter over the
    flags, the current streak (the counter after the last day) and the
    longest streak (the largest counter value). */
module Streaks {
  import opened Common
  import opened Calendar
  import opened Sheets

  /** The ordinal of 2024-01-01, where the virtual calendar starts. */
  const CalendarStart: Ordinal := 738886

  lemma CalendarStartIsNewYear2024()
    ensures ValidDate(Date(2024, 1, 1)) && ToOrdinal(Date(2024, 1, 1)) == CalendarStart
  {
    DaysBeforeYearClosedForm(2024);
  }

  /** A row of the virtual date table: a day and its `Active` flag. */
  datatype CalendarDay = CalendarDay(day: Ordinal, active: bool)

  /** The days on which a session with a known timestamp took place
      (`set(filtered_df['Date'])`; an unknown timestamp matches no day). */
  function ExerciseDays(rows: seq<Session>): (days: set<Ordinal>)
    ensures forall d :: d in days <==> exists i :: 0 <= i < |rows| && rows[i].timestamp.Some? && rows[i].timestamp.value.day == d
  {
    set i | 0 <= i < |rows| && rows[i].timestamp.Some? :: rows[i].timestamp.value.day
  }

  /** `pd.date_range('2024-01-01', today)` with the `Active` column: one
      entry per day, ascending and without gaps, active exactly on the
      exercise days; empty when today is before the start. */
  function ActivityCalendar(today: Ordinal, exerciseDays: set<Ordinal>): (c: seq<CalendarDay>)
    ensures today < CalendarStart <==> c == []
    ensures c != [] ==> c[0].day == CalendarStart && c[|c| - 1].day == today
    ensures forall i :: 0 <= i < |c| - 1 ==> c[i + 1].day == c[i].day + 1
    ensures forall i :: 0 <= i < |c| ==> (c[i].active <==> c[i].day in exerciseDays)
    ensures |c| == if today < CalendarStart then 0 else today - CalendarStart + 1
  {
    if today < CalendarStart then []
    else
      seq(today - CalendarStart + 1, i requires 0 <= i <= today - CalendarStart =>
        CalendarDay(CalendarStart + i, CalendarStart + i in exerciseDays))
  }

  /** The `Active` column. */
  function Flags(c: seq<CalendarDay>): (flags: seq<bool>)
    ensures |flags| == |c| && forall i :: 0 <= i < |c| ==> flags[i] == c[i].active
  {
    seq(|c|, i requires 0 <= i < |c| => c[i].active)
  }

  // ----- The streak recurrence -----

  function LastOrZero(s: seq<nat>): nat
  {
    if s == [] then 0 else s[|s| - 1]
  }

  /** The counter values the loop appends, defined day by day from the
      left: one more than the previous value on an active day, 0 on an
      inactive one, starting from 0. */
  function StreakSeries(active: seq<bool>): (s: seq<nat>)
    ensures |s| == |active|
  {
    if active == [] then []
    else
      var prev := StreakSeries(active[..|active| - 1]);
      prev + [if active[|active| - 1] then LastOrZero(prev) + 1 else 0]
  }

  /** The series of a prefix is the prefix of the series. */
  lemma {:induction false} StreakSeriesPrefix(active: seq<bool>, k: nat)
    requires k <= |active|
    ensures StreakSeries(active)[..k] == StreakSeries(active[..k])
    decreases |active|
  {
    if k < |active| {
      var init := active[..|active| - 1];
      StreakSeriesPrefix(init, k);
      assert init[..k] == active[..k];
    } else {
      assert active[..k] == active;
    }
  }

  /** The recurrence at each index: streak[i] = streak[i-1] + 1 on an active
      day and 0 otherwise, with streak[-1] = 0. */
  lemma StreakAt(active: seq<bool>, i: nat)
    requires i < |active|
    ensures StreakSeries(active)[i] ==
      if active[i] then (if i == 0 then 0 else StreakSeries(active)[i - 1]) + 1 else 0
  {
    var pre := active[..i + 1];
    StreakSeriesPrefix(active, i + 1);
    assert pre[..i] == active[..i];
    if i > 0 {
      StreakSeriesPrefix(active, i);
    }
    assert StreakSeries(active)[i] == StreakSeries(pre)[i];
  }

  /** A day has a positive streak exactly when it is active. */
  lemma StreakPositiveIffActive(active: seq<bool>, i: nat)
    requires i < |active|
    ensures StreakSeries(active)[i] > 0 <==> active[i]
  {
    StreakAt(active, i);
  }

  /** The streak on day i is the length of the run of active days ending
      on day i: that many days up to day i are all active, it is at most
      i + 1, and the day before the run, if there is one, is inactive. */
  lemma {:induction false} StreakIsRun(active: seq<bool>, i: nat)
    requires i < |active|
    ensures var k := StreakSeries(active)[i];
      && k <= i + 1
      && (forall j :: i - k < j <= i ==> active[j])
      && (k <= i ==> !active[i - k])
  {
    StreakAt(active, i);
    if i > 0 && active[i] {
      StreakIsRun(active, i - 1);
    }
  }

  /** Every run of k active days ending on day i gives day i a streak of
      at least k. */
  lemma {:induction false} StreakCoversRun(active: seq<bool>, i: nat, k: nat)
    requires i < |active| && k <= i + 1
    requires forall j :: i - k < j <= i ==> active[j]
    ensures StreakSeries(active)[i] >= k
    decreases k
  {
    StreakAt(active, i);
    if k > 0 && i > 0 {
      StreakCoversRun(active, i - 1, k - 1);
    }
  }

  /** The loop of lines 399-409: the counter rises by one on an active day
      and drops to 0 on an inactive one, and each value is appended. */
  method ComputeStreaks(days: seq<CalendarDay>) returns (streaks: seq<nat>, current: nat)
    ensures streaks == StreakSeries(Flags(days))
    ensures current == LastOrZero(streaks)
  {
    ghost var flags := Flags(days);
    current := 0;
    streaks := [];
    var i := 0;
    while i < |days|
      invariant 0 <= i <= |days|
      invariant streaks == StreakSeries(flags[..i])
      invariant current == LastOrZero(streaks)
    {
      if days[i].active {
        current := current + 1;
      } else {
        current := 0;
      }
      streaks := streaks + [current];
      assert flags[..i + 1][..i] == flags[..i];
      i := i + 1;
    }
    assert flags[..|days|] == flags;
  }

  /** `Series.max()`: the largest value, and NaN (here `None`) for an
      empty calendar. */
  function Longest(streaks: seq<nat>): (r: Option<nat>)
    ensures streaks == [] <==> r.None?
    ensures r.Some? ==> r.value in streaks && forall x :: x in streaks ==> x <= r.value
  {
    if streaks == [] then None
    else match Longest(streaks[1..])
      case None => Some(streaks[0])
      case Some(m) =>
        assert forall x :: x in streaks ==> x == streaks[0] || x in streaks[1..];
        Some(if streaks[0] >= m then streaks[0] else m)
  }

  /** The longest streak is the length of the longest run of active days:
      some run of that length exists and no run is longer. */
  lemma LongestIsLongestRun(active: seq<bool>, i: nat, k: nat)
    requires i < |active| && k <= i + 1
    requires forall j :: i - k < j <= i ==> active[j]
    ensures Longest(StreakSeries(active)).Some?
    ensures k <= Longest(StreakSeries(active)).value
    ensures exists e :: 0 <= e < |active| && StreakSeries(active)[e] == Longest(StreakSeries(active)).value
  {
    var s := StreakSeries(active);
    StreakCoversRun(active, i, k);
    assert s[i] in s;
  }

  /** The two streak cards: the current streak and the longest streak, the
      latter never below the former. */
  method StreakCards(today: Ordinal, rows: seq<Session>) returns (current: nat, longest: Option<nat>)
    ensures var flags := Flags(ActivityCalendar(today, ExerciseDays(rows)));
      && current == LastOrZero(StreakSeries(flags))
      && longest == Longest(StreakSeries(flags))
    ensures longest.None? <==> today < CalendarStart
    ensures longest.Some? ==> current <= longest.value
    ensures current > 0 <==> (CalendarStart <= today && today in ExerciseDays(rows))
  {
    var days := ActivityCalendar(today, ExerciseDays(rows));
    var streaks;
    streaks, current := ComputeStreaks(days);
    longest := Longest(streaks);
    if streaks != [] {
      assert current == streaks[|streaks| - 1] && current in streaks;
      StreakPositiveIffActive(Flags(days), |days| - 1);
    }
  }
}
