# Exercise and Wellness Tracker — a verified model of its data layer

The Exercise and Wellness Tracker is a set of Streamlit pages over a Google
Sheets store. Users log exercise sessions and weights, and the pages draw
cards and charts from what was logged. This project models, in Dafny, the
deterministic layer beneath the pages:

- reading a worksheet into a rectangular table;
- the filter chains of the overview and frequency pages (exercise type,
  users, ISO week, month range);
- the totals cards;
- today's exercise from the regime worksheet;
- the day-by-day activity calendar from 1 January 2024 and its streak
  counter;
- the frequency page's counts per exercise type, time-of-day buckets and
  (year, week) × weekday heatmap;
- the ISO 8601 week-date arithmetic behind all of these (section 4.1.4 of
  ISO 8601:2004, as Python's `date.isocalendar` and `fromisocalendar`
  implement it);
- the weight page's column order, user filter, sort, y-axis floor, target
  lines, and the row appended when a current weight is logged.

Dates are Python's proleptic Gregorian day numbers (1 is 1 January of year
1). A timestamp is a day number plus a second of the day. "Today", "now"
and the pandas text parsers are parameters.

Modules, one per file:

- `Common`: `Option`, `Result`, sums.
- `Text`: digits, splitting, zero padding.
- `Calendar`: day numbers, months, ISO weeks.
- `Sheets`: worksheet values to tables and records.
- `Filters`: the row filters shared by the pages.
- `Overview`: the overview page.
- `Streaks`: its calendar and streak cards.
- `Frequency`: the exercise frequency page.
- `Weight`: the weight page.

Where a page rebinds `filtered_df` step by step, or a loop updates a
counter or a figure, the model is a `method` with a loop or a sequence of
steps. It is proved equal to a specification function, whose properties
are then proved as lemmas. The weight chart's target lines and the weight
worksheet are classes whose methods change their fields.

Behaviour follows the code where the code and its documentation differ:

- The streak cards count the rows left by the filter chain, not the whole
  log.
- The month filter's end bound is midnight of the month's last day (see
  Findings).
- The heatmap row label pairs the calendar year with the ISO week, and
  the per-week selector formats every label through `fromisocalendar`
  (see Findings).
- The per-week selector stops the page when the heatmap has no row, and
  when a kept row has no timestamp, which makes every year label a float
  (see Findings).

## Model

| member | source | states |
|---|---|---|
| Sheets.PadRow | Exercise_Wellness_Overview_Page.py:42 | the padded row is max(row length, header length) long, keeps every original cell in place, and every added cell is empty; a longer row is not cut |
| Sheets.PadRows | Exercise_Wellness_Overview_Page.py:42 | one padded row per data row, in order |
| Sheets.FromValues | Exercise_Wellness_Overview_Page.py:35-45 | no values give the empty table; otherwise the first row is the header, the table is rectangular with one row per later row, every cell is kept, and it is an error exactly when some row is wider than the header |
| Sheets.ColumnIndex | Exercise_Wellness_Overview_Page.py:80-84 | locates the first column whose name, after the two renames, is the wanted one, or reports that none is; whether that column is the only one is Sheets.ParsedColumn's question |
| Sheets.ParsedColumn | Exercise_Wellness_Overview_Page.py:68-85 | a column handed to `pd.to_datetime` or `pd.to_numeric` is a missing-column error exactly when no column carries its name after the renames, a duplicate-column error exactly when two do, and otherwise the position of the one column that does |
| Sheets.BothDistanceColumns | Exercise_Wellness_Overview_Page.py:80-81 | a sheet with both the legacy "Optional: Distance (miles)" column and a "Distance in Miles" column stops at the distance parse with a duplicate-column error |
| Sheets.SessionsOf | Exercise_Wellness_Overview_Page.py:68-85 | an error exactly when Timestamp, Duration, Distance in Miles or Reps is missing or, after the renames, occurs twice; the error is that of the first such column in the page's parse order; otherwise one session per row, with each field parsed from its own column and a padded (missing) cell read as unknown; a cell holding empty text is whatever the timestamp or number parser makes of it |
| Sheets.WeightEntriesOf | pages/1_Weight_Tracker.py:73-81 | an error exactly when Timestamp or Current Weight is missing or occurs twice, or User is missing; the error is that of the first such column in that order; otherwise one entry per row with its timestamp and weight parsed |
| Filters.Where | Exercise_Wellness_Overview_Page.py:142 | a boolean mask keeps exactly the rows that satisfy it, each as often as in the input, and nothing else |
| Filters.KeptIndices | Exercise_Wellness_Overview_Page.py:142 | the kept rows are the input rows at strictly increasing positions, so their order is kept, and every row the mask accepts is among them |
| Filters.WhereFuse | Exercise_Wellness_Overview_Page.py:141-262 | filtering by one mask and then another equals filtering once by both |
| Filters.ByExerciseType | Exercise_Wellness_Overview_Page.py:141-142 | under "All Exercise Types" the rows are unchanged; otherwise exactly the rows of the selected type remain |
| Filters.ByUsers | Exercise_Wellness_Overview_Page.py:156-161 | with "All app users" selected the rows are unchanged; otherwise exactly the rows whose user is selected remain, and an empty selection keeps nothing |
| Filters.ParseWeekPick | Exercise_Wellness_Overview_Page.py:195-197 | a pick parses exactly when it splits at '-' into two parts, the first all digits and non-empty and the second holding some digit; the value is the first part's number and the number the second part's digits spell; a pick without '-', like every other failure, is a bad week pick |
| Filters.ParseWeekPickOfParts | Exercise_Wellness_Overview_Page.py:195-197 | "year-week" reads back as the year's value and the value of the digits taken out of the week part |
| Filters.WeekPickRoundTrip | Exercise_Wellness_Overview_Page.py:195-197 | a four-digit year and a week numeral with any non-digit tags around it ("1st", "W05") read back as that year and week |
| Filters.WeekSelection | Exercise_Wellness_Overview_Page.py:193-197 | no pick selects nothing, a pick is an error exactly when its first string does not parse, and otherwise the week selected is that string's parse |
| Filters.ByIsoWeek | Exercise_Wellness_Overview_Page.py:168-169 | no pick keeps the rows; otherwise exactly the rows whose ISO year and ISO week are the picked ones remain, and an unreadable pick is an error |
| Filters.InIsoWeekIsWeekRange | Exercise_Wellness_Overview_Page.py:202 | a session is in ISO week (y, w) exactly when its day lies in that week's Monday-to-Sunday range |
| Filters.DayInWeekRange | Exercise_Wellness_Overview_Page.py:168-169 | every day from the Monday to the Sunday of week (y, w) has ISO year y and ISO week w |
| Filters.ParseYearMonth | Exercise_Wellness_Overview_Page.py:244-245 | an accepted "%Y-%m" text names a valid first of a month and is 6 or 7 characters long, and every failure is a bad month pick |
| Filters.ParseYearMonthAccepts | Exercise_Wellness_Overview_Page.py:244-245 | after a four-digit year, the month field is accepted exactly when it is one digit from 1 to 9 or two digits from 01 to 12 |
| Filters.YearMonthRoundTrip | Exercise_Wellness_Overview_Page.py:244-245 | a year and month written as "YYYY-MM" parse back to themselves |
| Filters.MonthEnd | Exercise_Wellness_Overview_Page.py:248-249 | jumping 32 days past the first and stepping back from the next month's first gives the month's last day, leap years included; it overflows only for December 9999 |
| Filters.MonthEndInNextMonth | Exercise_Wellness_Overview_Page.py:248 | 32 days after a month's first day lands in the next month, on day 33 minus the month's length |
| Filters.MonthSelection | Exercise_Wellness_Overview_Page.py:239-249 | no pick selects nothing; a pick that is not two strings, or either of whose strings does not parse, is a bad month pick; two parseable strings fail only when the end month is December 9999 (the month end overflows), and otherwise the window runs from the first of the start month to the last day of the end month |
| Filters.ByMonthRangeAsWritten | Exercise_Wellness_Overview_Page.py:259-262 | keeps exactly the sessions between midnight of the first day and midnight of the last day, both included |
| Filters.ByMonthRange | Exercise_Wellness_Overview_Page.py:259-262 | no pick keeps the rows; otherwise exactly the sessions on a day from the first of the start month to the last of the end month remain |
| Filters.MonthWindowsDiffer | Exercise_Wellness_Overview_Page.py:259-262 | the window as written keeps a subset of the intended one, and misses exactly the moments after midnight on the last day |
| Filters.MonthCriteriaDiffer | Exercise_Wellness_Overview_Page.py:259-262 | a session passes the month test as written exactly when it passes the intended test and is not later than midnight on the window's last day |
| Filters.LastDayOfMonthDropped | Exercise_Wellness_Overview_Page.py:248-262 | picking one month at both ends, a session after midnight on its last day is dropped as written and kept by the corrected filter |
| Overview.OverviewFilters | Exercise_Wellness_Overview_Page.py:141-262 | the page's type, user, week and month steps give exactly the rows meeting all four selections, the month window compared as written (ending at midnight of its last day); an unreadable week pick is reported first, then a bad month pick |
| Overview.OverviewTotals | Exercise_Wellness_Overview_Page.py:311 | the sessions card counts every row, unknown timestamps included, and an empty log gives zero on every card |
| Overview.TotalsOfOne | Exercise_Wellness_Overview_Page.py:311-359 | a log of one session counts one session, and each card is that session's value, or zero when its cell is empty; with TotalsAppend this fixes every card of every log |
| Overview.HoursExercised | Exercise_Wellness_Overview_Page.py:325 | the hours are the minutes total divided by 60, and non-negative minutes give non-negative hours |
| Overview.SumKnownAppend | Exercise_Wellness_Overview_Page.py:324 | the sum of a column over two logs joined is the sum of the two sums |
| Overview.SumKnownNonNegative | Exercise_Wellness_Overview_Page.py:324 | a column of non-negative or unknown values sums to a non-negative total |
| Overview.TotalsAppend | Exercise_Wellness_Overview_Page.py:311-359 | every card of two logs joined is the sum of the two logs' cards |
| Overview.TotalsSplit | Exercise_Wellness_Overview_Page.py:311-359 | for any filter, the cards of the rows kept and of the rows dropped add up to the cards of the whole log |
| Overview.RegimeOf | Exercise_Wellness_Overview_Page.py:278 | the regime worksheet is an error exactly when it lacks the Day of Week or Type column; otherwise one entry per row |
| Overview.FirstRowFor | Exercise_Wellness_Overview_Page.py:278-280 | finds the first regime row naming the day, or reports that no row does |
| Overview.ExerciseForDay | Exercise_Wellness_Overview_Page.py:278-282 | the type on the first row for the day, or "No exercise scheduled" when no row names it |
| Overview.ExerciseForDayIgnoresOthers | Exercise_Wellness_Overview_Page.py:278-280 | rows for other days, and later rows for the same day, never change the answer |
| Overview.TodaysExercise | Exercise_Wellness_Overview_Page.py:275-282 | "No exercise scheduled" when no regime row names today's weekday; otherwise the type on the first row that names it |
| Overview.TodaysExerciseWeekly | Exercise_Wellness_Overview_Page.py:275-282 | a day and the same weekday a week later get the same exercise |
| Overview.NewYear2025IsWednesday | Exercise_Wellness_Overview_Page.py:275 | 1 January 2025 is looked up under "Wednesday" |
| Streaks.CalendarStartIsNewYear2024 | Exercise_Wellness_Overview_Page.py:378 | the calendar's first day number is 1 January 2024 |
| Streaks.ExerciseDays | Exercise_Wellness_Overview_Page.py:387-388 | a day is an exercise day exactly when some session with a known timestamp falls on it |
| Streaks.ActivityCalendar | Exercise_Wellness_Overview_Page.py:378-395 | one entry per day from 1 January 2024 to today, consecutive and ascending, each active exactly when it is an exercise day; empty when today is earlier |
| Streaks.StreakAt | Exercise_Wellness_Overview_Page.py:404-409 | each streak value is the previous value plus one on an active day, and 0 otherwise |
| Streaks.StreakSeriesPrefix | Exercise_Wellness_Overview_Page.py:404-409 | the streaks of the first k days depend on those days only |
| Streaks.StreakPositiveIffActive | Exercise_Wellness_Overview_Page.py:404-409 | a day's streak is positive exactly when the day is active |
| Streaks.StreakIsRun | Exercise_Wellness_Overview_Page.py:404-409 | a day's streak k is at most the day's position plus one, the last k days are all active, and the day before them is not |
| Streaks.StreakCoversRun | Exercise_Wellness_Overview_Page.py:404-409 | a run of k active days ending on a day gives that day a streak of at least k |
| Streaks.ComputeStreaks | Exercise_Wellness_Overview_Page.py:399-409 | the loop's list is the streak series of the active flags, and the counter ends at its last value, or 0 for no days |
| Streaks.Longest | Exercise_Wellness_Overview_Page.py:415 | the largest streak value, present in the series; none for an empty calendar |
| Streaks.LongestIsLongestRun | Exercise_Wellness_Overview_Page.py:415 | the longest streak is at least the length of every run of active days, and some day reaches it |
| Streaks.StreakCards | Exercise_Wellness_Overview_Page.py:378-415 | the current and longest cards over the filtered rows; the longest is missing only before 2024, is never below the current one, and the current one is positive exactly when today is an exercise day |
| Frequency.FrequencyFilters | pages/2_Exercise_Frequency_Tracker.py:129-224 | the week, month and type steps give exactly the rows meeting all three selections, the month window compared as written (ending at midnight of its last day); an unreadable week pick is reported first, then a bad month pick |
| Frequency.CountOfType | pages/2_Exercise_Frequency_Tracker.py:238-239 | a type counts at most one per row, and counts every row exactly when every row has it |
| Frequency.CountOfTypeIsFilterSize | pages/2_Exercise_Frequency_Tracker.py:238-239 | the count for a type is the number of rows the type filter would keep |
| Frequency.CountOfTypeZero | pages/2_Exercise_Frequency_Tracker.py:238-239 | a type counts zero exactly when no row has it |
| Frequency.TypeCounts | pages/2_Exercise_Frequency_Tracker.py:238-239 | a type is a key exactly when it occurs, and its value is its number of rows |
| Frequency.MissingExercises | pages/2_Exercise_Frequency_Tracker.py:227 | exactly the listed exercise types that occur in no row |
| Frequency.ClassifyTimeOfDay | pages/2_Exercise_Frequency_Tracker.py:334-342 | hours 6-11 are Morning, 12-16 Afternoon, 17-20 Evening, and every other hour and an unknown hour Night, each in exactly one bucket |
| Frequency.BucketsPartition | pages/2_Exercise_Frequency_Tracker.py:345-349 | the four bucket sizes add up to the number of rows |
| Frequency.TimeOfDayCounts | pages/2_Exercise_Frequency_Tracker.py:349-353 | exactly four entries in the order Morning, Afternoon, Evening, Night, each the size of its bucket (zero when empty), adding up to the number of rows |
| Frequency.HeatKeyAsWritten | pages/2_Exercise_Frequency_Tracker.py:234-235 | the label as written is the calendar year of the day's date with the day's ISO week, from 1 to 53 |
| Frequency.HeatKey | pages/2_Exercise_Frequency_Tracker.py:234-235 | the label with the ISO year names a week that year has (1 to 52, or 53 in a long year), in a year within one of the calendar year |
| Frequency.HeatKeyAsWrittenInvalidWeek | pages/2_Exercise_Frequency_Tracker.py:288-298 | a day in week 53 of the previous ISO year is labelled (its calendar year, 53) as written, a week that year lacks, so `fromisocalendar` rejects the label |
| Frequency.NewYear2027InWeek53 | pages/2_Exercise_Frequency_Tracker.py:288-298 | 1 January 2027 is a Friday in ISO week 53 of 2026; its label as written is (2027, 53), which has no week range |
| Frequency.HeatKeyAsWrittenMergesWeeks | pages/2_Exercise_Frequency_Tracker.py:234-235 | in a year whose next ISO year starts in December, the label as written gives (y, 1) to two days in different weeks |
| Frequency.IsoYearStartsInDecember | pages/2_Exercise_Frequency_Tracker.py:234-235 | ISO year 2025 starts on 30 December 2024, so 2024 is such a year |
| Frequency.HeatKeyIsWeek | pages/2_Exercise_Frequency_Tracker.py:234 | with the ISO year, two days share a label exactly when they share a week |
| Frequency.HeatKeyWeekRange | pages/2_Exercise_Frequency_Tracker.py:288-292 | the week range of a day's label is that day's Monday to Sunday, and contains the day |
| Frequency.Timed | pages/2_Exercise_Frequency_Tracker.py:267-272 | the sessions the group-by keeps are at most the log, each with a known timestamp |
| Frequency.TimedIsWhere | pages/2_Exercise_Frequency_Tracker.py:267-272 | they are exactly, in log order, the rows whose timestamp is not NaT |
| Frequency.Observations | pages/2_Exercise_Frequency_Tracker.py:233-235 | one observation per session with a known timestamp, in log order: the i-th is the label and weekday of the i-th such session, weekdays from Monday (0) to Sunday (6) |
| Frequency.ObservationsWithLabel | pages/2_Exercise_Frequency_Tracker.py:267-272 | the observations with a label are the sessions with a known timestamp that carry it |
| Frequency.ObservationCells | pages/2_Exercise_Frequency_Tracker.py:267-272 | the observations with a label on a weekday are the sessions with a known timestamp that carry the label and fall on that weekday |
| Frequency.ObservationsOnWeekday | pages/2_Exercise_Frequency_Tracker.py:233 | the observations on weekday d are the sessions with a known timestamp on that weekday |
| Frequency.DistinctKeys | pages/2_Exercise_Frequency_Tracker.py:269 | the group keys are the labels that occur, each once |
| Frequency.Heatmap | pages/2_Exercise_Frequency_Tracker.py:267-272 | every row has the seven weekday columns and no label has two rows; a label has a row exactly when some session with a known timestamp carries it, and each cell is the number of those sessions on its weekday |
| Frequency.HeatmapRowSum | pages/2_Exercise_Frequency_Tracker.py:268-272 | each row adds up to the number of sessions with its label, which is positive |
| Frequency.OverallHeatmap | pages/2_Exercise_Frequency_Tracker.py:277 | the overall row has the seven weekday columns |
| Frequency.OverallIsSessionsPerWeekday | pages/2_Exercise_Frequency_Tracker.py:277 | each overall column is the number of sessions with a known timestamp on that weekday |
| Frequency.WeekMenu | pages/2_Exercise_Frequency_Tracker.py:295-299 | the week selector can be drawn exactly when every label names a week that exists, and each option then shows its week's Monday and Sunday |
| Frequency.WeekMenuFailsAsWritten | pages/2_Exercise_Frequency_Tracker.py:234-299 | as written, one session in week 53 of the previous ISO year (1 January 2027, say) makes the selector, and so the page, fail |
| Frequency.WeekMenuOkWithIsoYear | pages/2_Exercise_Frequency_Tracker.py:234-299 | with the ISO year in the label the selector can always be drawn, for sessions whose week ends by 31 December 9999 |
| Frequency.UntimedLogHasNoLabels | pages/2_Exercise_Frequency_Tracker.py:267-272 | the heatmap has no row exactly when no kept session has a timestamp |
| Frequency.WeekSelectorAsWritten | pages/2_Exercise_Frequency_Tracker.py:235-302 | as written, the selector stops the page when no kept session has a timestamp (no option, so the pick `None` cannot be unpacked at line 302), and when some kept session lacks one (every year label is then a float, which `fromisocalendar` rejects); otherwise it is the menu of the as-written labels, never empty |
| Frequency.WeekSelector | pages/2_Exercise_Frequency_Tracker.py:235-302 | with ISO-year labels taken from timed sessions only, the selector can always be drawn for weeks ending by 31 December 9999, and it is empty exactly when no kept session has a timestamp |
| Frequency.WeeklyHeatmap | pages/2_Exercise_Frequency_Tracker.py:305-321 | a label with no heatmap row is unavailable; otherwise its row is the heatmap's row for that label |
| Calendar.FromToOrdinal | pages/2_Exercise_Frequency_Tracker.py:290-292 | converting a valid date to its day number and back gives the date again |
| Calendar.FromOrdinal | pages/2_Exercise_Frequency_Tracker.py:291 | a day number converts to the valid date with that number |
| Calendar.IsoCalendar | pages/2_Exercise_Frequency_Tracker.py:234 | the ISO weekday is the weekday plus one, the ISO year is within one of the calendar year, and the week is 1 to 52, or 53 in a year that has one |
| Calendar.WeekRange | pages/2_Exercise_Frequency_Tracker.py:288-292 | a year outside 1 to 9999 or a week the year lacks is an error; a range runs from a Monday to the Sunday six days later, and the week's Thursday lies in year y |
| Calendar.WeekRangeDefined | pages/2_Exercise_Frequency_Tracker.py:288-292 | every week of ISO years 1 to 9998 has a range |
| Calendar.NoWeek53TwiceInARow | pages/2_Exercise_Frequency_Tracker.py:290 | two ISO years in a row never both have a week 53 |
| Calendar.IsoWeekOfDay | pages/2_Exercise_Frequency_Tracker.py:234 | a day's ISO weekday is its weekday plus one, and its ISO (year, week) has that day's Monday-to-Sunday as its range |
| Calendar.WeekRangeIsIsoWeek | pages/2_Exercise_Frequency_Tracker.py:288-292 | the range of ISO week (y, w) runs from a Monday to the Sunday 6 days later, which are days 1 and 7 of that week |
| Calendar.SameIsoWeek | pages/2_Exercise_Frequency_Tracker.py:234 | two days share ISO year and week exactly when they share a Monday |
| Calendar.WeekSpan | pages/2_Exercise_Frequency_Tracker.py:290 | an ISO year has 53 weeks or 52, as its first weekday and length decide |
| Weight.WithColumn | pages/1_Weight_Tracker.py:76 | assigning a new column appends it; assigning an existing one keeps the columns |
| Weight.WithoutCounts | pages/1_Weight_Tracker.py:84-89 | leaving a name out removes all its occurrences and nothing else |
| Weight.ReorderColumns | pages/1_Weight_Tracker.py:84-89 | Date comes first and Timestamp last, with the other columns between them in their original order |
| Weight.ReorderIsPermutation | pages/1_Weight_Tracker.py:84-89 | when Date and Timestamp each name one column, the reordered columns are a permutation of the original ones of the same length |
| Weight.WeightColumnsOfSheet | pages/1_Weight_Tracker.py:76-89 | a header with one Timestamp and no Date ends up with the same columns plus Date |
| Weight.SortByTimestamp | pages/1_Weight_Tracker.py:115 | the sorted entries are a permutation of the entries in which known timestamps never decrease and unknown ones come last |
| Weight.SortIdempotent | pages/1_Weight_Tracker.py:115 | sorting twice is the same as sorting once |
| Weight.ChartEntries | pages/1_Weight_Tracker.py:107-115 | the chart draws exactly the selected users' entries (all of them under the sentinel), sorted by timestamp |
| Weight.MinWeightAsWritten | pages/1_Weight_Tracker.py:247 | the builtin minimum: an error for no weights, unknown exactly when the first weight is unknown, otherwise a weight from the column below every known one |
| Weight.MinWeight | pages/1_Weight_Tracker.py:247 | an error for no weights, unknown exactly when every weight is, otherwise the smallest known weight |
| Weight.MinWeightsAgree | pages/1_Weight_Tracker.py:247 | when the first weight is known, the builtin minimum and the corrected one agree |
| Weight.YAxisFloor | pages/1_Weight_Tracker.py:248 | the floor is at most 68 and at most the minimum weight less 2, and equals one of the two |
| Weight.YAxisFloorBelowEveryWeight | pages/1_Weight_Tracker.py:247-248 | the floor lies at least 2 below every known weight |
| Weight.UnreadableFirstWeightHidesMinimum | pages/1_Weight_Tracker.py:247-248 | for the weights [unknown, 50] the builtin minimum is unknown and the floor stays at 68, where the corrected floor is 48 |
| Weight.LookupFinds | pages/1_Weight_Tracker.py:305-306 | a user's target is found exactly when the dictionary has the user, and what is found is that user's target |
| Weight.LookupOfKey | pages/1_Weight_Tracker.py:305-306 | in a dictionary every key finds its own value |
| Weight.NewLine | pages/1_Weight_Tracker.py:305-313 | a user gets a line exactly when they have a target and a colour, at their target in their colour |
| Weight.LinesForSelectedSound | pages/1_Weight_Tracker.py:304-313 | every line drawn for a selection is for a selected user with a colour, at that user's target |
| Weight.LinesForSelectedCovers | pages/1_Weight_Tracker.py:304-313 | every selected user with a target and a colour gets a line |
| Weight.LinesForSelectedDistinct | pages/1_Weight_Tracker.py:304-313 | a selection with no repeats gives no user two lines |
| Weight.LinesForAllExact | pages/1_Weight_Tracker.py:293-301 | looping over a dictionary draws one line for each key with a colour, no other line, each at its key's value |
| Weight.TargetLinesFor | pages/1_Weight_Tracker.py:291-313 | every target line sits at its user's target in that user's colour, and without "All app users" every line is for a selected user |
| Weight.AllUsersTargetLines | pages/1_Weight_Tracker.py:291-301 | under "All app users", exactly one line for each user with a target and a colour, and each line at that user's target |
| Weight.SelectedUsersTargetLines | pages/1_Weight_Tracker.py:302-313 | otherwise a user gets a line exactly when selected, with a target and with a colour, and each line sits at that user's target |
| Weight.WeightChart.AddTargetLines | pages/1_Weight_Tracker.py:291-313 | the chart's lines grow by exactly the target lines for the selection, in order |
| Weight.WeightChart.AddLinesForAllUsers | pages/1_Weight_Tracker.py:293-301 | the loop over the dictionary adds exactly the lines for its users with a colour, in the dictionary's order |
| Weight.WeightChart.AddLinesForSelection | pages/1_Weight_Tracker.py:304-313 | the loop over the selection adds exactly the lines for its users with a target and a colour, in the selection's order |
| Weight.TimestampText | pages/1_Weight_Tracker.py:162 | the "%d/%m/%Y %H:%M:%S" text has its separators in place and two-digit, two-digit, four-digit, two-digit, two-digit, two-digit fields that read back as the day, month, year and time of day |
| Weight.CurrentWeightRow | pages/1_Weight_Tracker.py:159-165 | a row exists exactly when a user is selected and the weight text is non-empty, and it is the timestamp text, the weight text and the first selected user, in that order |
| Weight.WeightSheet.LogCurrentWeight | pages/1_Weight_Tracker.py:157-174 | missing fields leave the sheet as it was; otherwise the sheet grows by exactly that row when the append succeeds, and stays as it was when it fails |

## Left out

- Google Sheets access is not modelled. The credentials, the `values().get` call and `append_data` are out. A fetch is its returned values, and an append is a success flag passed in.
- Streamlit widgets, markdown and Plotly figures are not modelled. Every selection is a parameter, and so is the colour of each user's trace (weight page line 288), which Plotly assigns.
- The inspirational quote (overview lines 105-120) is not modelled: it is sampled at random.
- `pd.to_datetime` and `pd.to_numeric` are parser parameters returning an optional value. The overview page parses day-first at line 68 and re-parses at lines 255-256; the frequency page parses at line 58 and re-parses at lines 66 and 191-192. The weight page writes timestamps day-first (line 162) but parses them month-first (lines 73-75). For these reasons no round trip through the worksheet is claimed, only the shape of the text written.
- Overview.OverviewTotals: the minutes, miles and reps cards are exact sums of reals. Floating-point rounding is not modelled, and neither is the hour card's rounding to one decimal place (line 325).
- The target-weight form (weight page lines 179-232) is not modelled. Its guard tests `current_weight_input`, which is never bound in that branch.
- The raw-data view on frequency page line 209 is not modelled: it refers to an undefined `df`.
- The user lists (overview line 146, weight page line 95) are inputs, not extracted from the users worksheet.
- Weight.SortByTimestamp: this is an insertion sort. It is proved ordered and a permutation, but not stable: pandas' default quicksort does not promise stability either.
- Frequency.Heatmap: the group-by's row order (sorted by label) is not modelled. The rows are distinct labels in first-occurrence order, and every stated property is independent of the order.
- Frequency.TypeCounts: `value_counts` gives counts sorted by frequency; the model gives a map, so that order is not modelled.
- Weight.DateText: `strftime("%Y")` of a year before 1000 is not modelled; the text is always zero-padded to four digits.
- Text.Digits: `str.isdigit` accepts non-ASCII digits. The model accepts only '0'-'9', and `int()`'s tolerance of surrounding whitespace and signs is not modelled. `int()` also accepts underscores between digits ("2_024"), which the model rejects.
- Weight.ReorderColumns: a header naming `Date` or `Timestamp` more than once is not modelled beyond the column list.
- The "Get back on the horse" message (overview lines 444-447) only renders the current streak card's zero case, which Streaks.StreakCards states.
- The per-week selector's option texts (frequency page lines 295-299) are Frequency.WeekMenu: the Monday and Sunday of each label's week, or the error that stops the page. The title at line 309 repeats the selected option's dates. The text formatting itself is not modelled.
- Frequency.WeekMenu: on its own it only formats the labels. The two other ways the selector stops the page, an empty heatmap and float year labels, are in Frequency.WeekSelectorAsWritten. The selector offers only the heatmap's own labels, so the unavailable-label branch of Frequency.WeeklyHeatmap cannot be reached from the page.
- Sheets.SessionsOf: on the overview page the timestamp parser may give no value only for an empty or missing cell. Line 68 parses without `errors="coerce"`, so unreadable timestamp text raises and stops the page, which the model does not show. Likewise a worksheet without the `Exercise Type` or `User` column raises `KeyError` at overview lines 142 and 161, and without `Exercise Type` at frequency page lines 224, 227 and 238, where the model reads those fields as empty.
- Sheets.ColumnIndex, Sheets.SessionsOf, Sheets.WeightEntriesOf: a column the pages only compare or filter on (`Exercise Type`, `User`, and the regime sheet's `Day of Week` and `Type` in Overview.RegimeOf) is read at its first occurrence when its name occurs twice. pandas selects a two-column frame there, and what the comparison, `isin` or `.loc` then does is not modelled. A duplicated column that is parsed (Timestamp, Duration, Distance in Miles, Reps, Current Weight) is modelled as the error that stops the page.

## Findings

| source | as written | input that shows it | evidently intended | confidence | as-written member | corrected member |
|---|---|---|---|---|---|---|
| Exercise_Wellness_Overview_Page.py:248-262 | the end of the month range is midnight of the last day, so sessions later on that day fail `Timestamp <= end` | "2024-01" picked at both ends, with a session at 10:00 on 31 January 2024: the session is dropped | every session on the last day of the end month is kept | high, not executed | Filters.ByMonthRangeAsWritten, Filters.LastDayOfMonthDropped | Filters.ByMonthRange, Filters.MonthWindowsDiffer |
| pages/2_Exercise_Frequency_Tracker.py:234-298 | the heatmap label pairs the calendar year (`dt.year`) with the ISO week, and the week selector's `format_func` (line 298) passes every label to `fromisocalendar` outside the `try` | 30 December 2024 (ISO week 1 of 2025) and 7 January 2024 (ISO week 1 of 2024) are both labelled (2024, 1), so one heatmap row merges two weeks; a session on 1 January 2027 (ISO week 53 of 2026) is labelled (2027, 53), a week 2027 lacks, so `fromisocalendar` raises `ValueError` and the page stops | the ISO year with the ISO week, one row per week, every label a week that exists | high, not executed | Frequency.HeatKeyAsWritten, Frequency.HeatKeyAsWrittenMergesWeeks, Frequency.IsoYearStartsInDecember, Frequency.HeatKeyAsWrittenInvalidWeek, Frequency.NewYear2027InWeek53, Frequency.WeekMenuFailsAsWritten | Frequency.HeatKey, Frequency.HeatKeyIsWeek, Frequency.HeatKeyWeekRange, Frequency.WeekMenuOkWithIsoYear |
| pages/2_Exercise_Frequency_Tracker.py:235-302 | the selector's options are the heatmap's labels, and its pick is unpacked at line 302; `dt.year` (line 235) becomes a float column once a kept row has no timestamp (line 58 coerces unreadable text to NaT) | a type filter that keeps no session leaves no option, so the pick is `None` and the unpacking raises `TypeError`; with both date pickers off, one row with an unreadable timestamp makes every label's year a float such as 2024.0, and `fromisocalendar` raises `TypeError` for every option | labels built from timed sessions only, with integer years, and the weekly view skipped when there is no label | medium, not executed | Frequency.WeekSelectorAsWritten | Frequency.WeekSelector, Frequency.UntimedLogHasNoLabels |
| pages/1_Weight_Tracker.py:247-248 | the builtin `min` over the weight column keeps a NaN first value, since every comparison with NaN is false | weights [unreadable, 50]: `min` gives NaN, so the axis floor is 68 and the 50 kg point falls below the axis | the smallest known weight (floor 48) | medium, not executed | Weight.MinWeightAsWritten, Weight.UnreadableFirstWeightHidesMinimum | Weight.MinWeight, Weight.YAxisFloorBelowEveryWeight |
