/** The weight page: the column order of the weight table, the user filter
    and the sort by timestamp, the floor of the chart's y axis, the target
    lines drawn for the users on show, and the row the page appends when a
    user logs a current weight. */
module Weight {
  import opened Common
  import opened Calendar
  import opened Text
  import opened Sheets
  import opened Filters

  // ----- Column order (lines 76 and 84-89) -----

  /** Assigning a column that does not exist yet appends it (line 76 adds
      `Date`); assigning an existing one keeps the order. */
  function WithColumn(cols: seq<string>, name: string): (r: seq<string>)
    ensures name in r
    ensures name in cols ==> r == cols
    ensures name !in cols ==> r == cols + [name]
  {
    if name in cols then cols else cols + [name]
  }

  /** `[col for col in cols if col != name]`. */
  function Without(cols: seq<string>, name: string): (r: seq<string>)
    ensures |r| <= |cols|
  {
    if cols == [] then []
    else (if cols[0] == name then [] else [cols[0]]) + Without(cols[1..], name)
  }

  /** Dropping a name removes every copy of it and keeps every other
      column as often as it occurs. */
  lemma {:induction false} WithoutCounts(cols: seq<string>, name: string)
    ensures multiset(Without(cols, name)) == multiset(cols)[name := 0]
  {
    forall x
      ensures multiset(Without(cols, name))[x] == multiset(cols)[name := 0][x]
    {
      WithoutCount(cols, name, x);
    }
  }

  lemma {:induction false} WithoutCount(cols: seq<string>, name: string, x: string)
    ensures multiset(Without(cols, name))[x] == if x == name then 0 else multiset(cols)[x]
  {
    if cols != [] {
      var c, rest := cols[0], cols[1..];
      WithoutCount(rest, name, x);
      assert cols == [c] + rest;
      var h := if c == name then [] else [c];
      assert Without(cols, name) == h + Without(rest, name);
    }
  }

  lemma {:induction false} WithoutAppend(x: seq<string>, y: seq<string>, name: string)
    ensures Without(x + y, name) == Without(x, name) + Without(y, name)
  {
    if x != [] {
      assert (x + y)[0] == x[0] && (x + y)[1..] == x[1..] + y;
      WithoutAppend(x[1..], y, name);
      var h := if x[0] == name then [] else [x[0]];
      assert Without(x + y, name) == h + Without(x[1..] + y, name);
      assert Without(x, name) == h + Without(x[1..], name);
    } else {
      assert x + y == y;
    }
  }

  /** Dropping two names is the same in either order. */
  lemma {:induction false} WithoutCommutes(cols: seq<string>, a: string, b: string)
    ensures Without(Without(cols, a), b) == Without(Without(cols, b), a)
  {
    if cols != [] {
      var h, t := cols[0], cols[1..];
      WithoutCommutes(t, a, b);
      var ha := if h == a then [] else [h];
      var hb := if h == b then [] else [h];
      assert Without(cols, a) == ha + Without(t, a);
      assert Without(cols, b) == hb + Without(t, b);
      WithoutAppend(ha, Without(t, a), b);
      WithoutAppend(hb, Without(t, b), a);
      assert Without(ha, b) == Without(hb, a);
    }
  }

  /** Lines 84-89: `Date` moved to the front, then `Timestamp` moved to the
      back. */
  function ReorderColumns(cols: seq<string>): (r: seq<string>)
    ensures r != [] && r[0] == "Date" && r[|r| - 1] == "Timestamp"
    ensures r[1..|r| - 1] == Without(Without(cols, "Date"), "Timestamp")
  {
    Without(["Date"] + Without(cols, "Date"), "Timestamp") + ["Timestamp"]
  }

  /** When `Date` and `Timestamp` each name one column, the reordered
      columns are a permutation of the original ones, and every other
      column keeps its place relative to the rest. */
  lemma ReorderIsPermutation(cols: seq<string>)
    requires multiset(cols)["Date"] == 1 && multiset(cols)["Timestamp"] == 1
    ensures multiset(ReorderColumns(cols)) == multiset(cols)
    ensures |ReorderColumns(cols)| == |cols|
    ensures ReorderColumns(cols)[1..|cols| - 1] == Without(Without(cols, "Timestamp"), "Date")
  {
    var r := ReorderColumns(cols);
    ReorderCounts(cols);
    assert |r| == |multiset(r)| == |multiset(cols)| == |cols|;
    WithoutCommutes(cols, "Date", "Timestamp");
  }

  lemma ReorderCounts(cols: seq<string>)
    requires multiset(cols)["Date"] == 1 && multiset(cols)["Timestamp"] == 1
    ensures multiset(ReorderColumns(cols)) == multiset(cols)
  {
    var front := ["Date"] + Without(cols, "Date");
    MoveToFront(cols, "Date");
    MoveToBack(front, "Timestamp");
  }

  /** Moving a name that occurs once to the front keeps the columns. */
  lemma MoveToFront(cols: seq<string>, name: string)
    requires multiset(cols)[name] == 1
    ensures multiset([name] + Without(cols, name)) == multiset(cols)
  {
    WithoutCounts(cols, name);
    assert multiset([name] + Without(cols, name)) == multiset{name} + multiset(Without(cols, name));
  }

  /** Moving a name that occurs once to the back keeps the columns. */
  lemma MoveToBack(cols: seq<string>, name: string)
    requires multiset(cols)[name] == 1
    ensures multiset(Without(cols, name) + [name]) == multiset(cols)
  {
    WithoutCounts(cols, name);
    assert multiset(Without(cols, name) + [name]) == multiset(Without(cols, name)) + multiset{name};
  }

  /** The weight table's columns: the worksheet header with `Date` added
      (line 76), then reordered. */
  function WeightColumns(header: seq<string>): (r: seq<string>)
    ensures r != [] && r[0] == "Date" && r[|r| - 1] == "Timestamp"
  {
    ReorderColumns(WithColumn(header, "Date"))
  }

  /** A worksheet whose header names `Timestamp` once and has no `Date`
      column comes out with the same columns plus `Date`, each once. */
  lemma WeightColumnsOfSheet(header: seq<string>)
    requires "Date" !in header && multiset(header)["Timestamp"] == 1
    ensures multiset(WeightColumns(header)) == multiset(header) + multiset{"Date"}
  {
    var cols := WithColumn(header, "Date");
    assert multiset(cols) == multiset(header) + multiset{"Date"};
    ReorderIsPermutation(cols);
  }

  // ----- User filter and sort (lines 107-115) -----

  function EntryUser(e: WeightEntry): Cell
  {
    e.user
  }

  /** `sort_values('Timestamp')` compares timestamps and puts NaT last. */
  predicate TimestampLe(a: Option<DateTime>, b: Option<DateTime>)
  {
    b.None? || (a.Some? && Instant(a.value) <= Instant(b.value))
  }

  predicate SortedByTimestamp(rows: seq<WeightEntry>)
  {
    forall i, j :: 0 <= i < j < |rows| ==> TimestampLe(rows[i].timestamp, rows[j].timestamp)
  }

  /** `x` placed before the first entry it does not come after. */
  function Insert(x: WeightEntry, rows: seq<WeightEntry>): (r: seq<WeightEntry>)
    ensures |r| == |rows| + 1
  {
    if rows == [] then [x]
    else if TimestampLe(x.timestamp, rows[0].timestamp) then [x] + rows
    else [rows[0]] + Insert(x, rows[1..])
  }

  /** Inserting adds `x` and keeps every entry. */
  lemma {:induction false} InsertCounts(x: WeightEntry, rows: seq<WeightEntry>)
    ensures multiset(Insert(x, rows)) == multiset(rows) + multiset{x}
  {
    if rows != [] && !TimestampLe(x.timestamp, rows[0].timestamp) {
      InsertCounts(x, rows[1..]);
      assert rows == [rows[0]] + rows[1..];
    }
  }

  /** A timestamp no later than `x` and than every entry is no later than
      any entry after the insertion. */
  lemma {:induction false} InsertLowerBound(b: Option<DateTime>, x: WeightEntry, rows: seq<WeightEntry>)
    requires TimestampLe(b, x.timestamp)
    requires forall k :: 0 <= k < |rows| ==> TimestampLe(b, rows[k].timestamp)
    ensures forall k :: 0 <= k < |Insert(x, rows)| ==> TimestampLe(b, Insert(x, rows)[k].timestamp)
  {
    if rows != [] && !TimestampLe(x.timestamp, rows[0].timestamp) {
      InsertLowerBound(b, x, rows[1..]);
      var r, tail := Insert(x, rows), Insert(x, rows[1..]);
      assert forall k :: 1 <= k < |r| ==> r[k] == tail[k - 1];
    }
  }

  /** Inserting into entries in timestamp order keeps them in order. */
  lemma {:induction false} InsertSorted(x: WeightEntry, rows: seq<WeightEntry>)
    requires SortedByTimestamp(rows)
    ensures SortedByTimestamp(Insert(x, rows))
  {
    if rows != [] && !TimestampLe(x.timestamp, rows[0].timestamp) {
      var rest := rows[1..];
      var tail := Insert(x, rest);
      InsertSorted(x, rest);
      InsertLowerBound(rows[0].timestamp, x, rest);
      var r := [rows[0]] + tail;
      forall i, j | 0 <= i < j < |r|
        ensures TimestampLe(r[i].timestamp, r[j].timestamp)
      {
        assert r[j] == tail[j - 1];
        if i > 0 {
          assert r[i] == tail[i - 1];
        }
      }
    } else if rows != [] {
      var r := [x] + rows;
      forall i, j | 0 <= i < j < |r|
        ensures TimestampLe(r[i].timestamp, r[j].timestamp)
      {
        assert r[j] == rows[j - 1];
        if i > 0 {
          assert r[i] == rows[i - 1];
        } else if j > 1 {
          assert TimestampLe(rows[0].timestamp, rows[j - 1].timestamp);
        }
      }
    }
  }

  /** The weight entries in timestamp order (insertion sort): a permutation
      of the entries in which known timestamps never decrease and unknown
      ones come last. */
  function SortByTimestamp(rows: seq<WeightEntry>): (r: seq<WeightEntry>)
    ensures multiset(r) == multiset(rows)
    ensures SortedByTimestamp(r)
    ensures forall i, j :: 0 <= i < j < |r| && r[i].timestamp.None? ==> r[j].timestamp.None?
    ensures forall i, j :: 0 <= i < j < |r| && r[j].timestamp.Some? ==>
      r[i].timestamp.Some? && Instant(r[i].timestamp.value) <= Instant(r[j].timestamp.value)
  {
    if rows == [] then []
    else
      var rest := SortByTimestamp(rows[1..]);
      InsertCounts(rows[0], rest);
      InsertSorted(rows[0], rest);
      assert rows == [rows[0]] + rows[1..];
      Insert(rows[0], rest)
  }

  /** Rows already in timestamp order are left as they are. */
  lemma {:induction false} SortKeepsSorted(rows: seq<WeightEntry>)
    requires SortedByTimestamp(rows)
    ensures SortByTimestamp(rows) == rows
  {
    if rows != [] {
      assert SortedByTimestamp(rows[1..]);
      SortKeepsSorted(rows[1..]);
    }
  }

  /** Sorting twice is sorting once. */
  lemma SortIdempotent(rows: seq<WeightEntry>)
    ensures SortByTimestamp(SortByTimestamp(rows)) == SortByTimestamp(rows)
  {
    SortKeepsSorted(SortByTimestamp(rows));
  }

  /** The table the chart draws: the selected users' entries (all of them
      under the sentinel), sorted by timestamp. */
  function ChartEntries(rows: seq<WeightEntry>, selection: seq<string>): (r: seq<WeightEntry>)
    ensures multiset(r) == multiset(Where(rows, UserCriterion(EntryUser, selection)))
    ensures AllAppUsers in selection ==> multiset(r) == multiset(rows)
    ensures SortedByTimestamp(r)
  {
    SortByTimestamp(ByUsers(rows, EntryUser, selection))
  }

  // ----- The y-axis floor (lines 247-248) -----

  /** `min(...)` over an empty column raises. */
  datatype NoWeights = NoWeights

  /** The builtin `min` walks the column keeping the first value, and
      replaces it only by a value strictly smaller. Every comparison with
      NaN is false, so a NaN first value is never replaced, and a later NaN
      never replaces anything. */
  function MinFrom(cur: Option<real>, rest: seq<Option<real>>): (m: Option<real>)
    ensures cur.None? ==> m.None?
    ensures cur.Some? ==> (
      && m.Some? && m.value <= cur.value
      && (forall i :: 0 <= i < |rest| && rest[i].Some? ==> m.value <= rest[i].value)
      && (m == cur || m in rest))
    decreases |rest|
  {
    if rest == [] then cur
    else
      var next := if rest[0].Some? && cur.Some? && rest[0].value < cur.value then rest[0] else cur;
      var m := MinFrom(next, rest[1..]);
      assert forall i :: 1 <= i < |rest| ==> rest[i] == rest[1..][i - 1];
      m
  }

  /** Line 247 as written: the builtin `min` of the weight column. The
      result is NaN (`None`) exactly when the first weight is. */
  function MinWeightAsWritten(ws: seq<Option<real>>): (r: Result<Option<real>, NoWeights>)
    ensures r.Err? <==> ws == []
    ensures r.Ok? ==> (r.value.None? <==> ws[0].None?)
    ensures r.Ok? && r.value.Some? ==> (
      && r.value in ws
      && forall i :: 0 <= i < |ws| && ws[i].Some? ==> r.value.value <= ws[i].value)
  {
    if ws == [] then Err(NoWeights)
    else
      var m := MinFrom(ws[0], ws[1..]);
      assert forall i :: 1 <= i < |ws| ==> ws[i] == ws[1..][i - 1];
      Ok(m)
  }

  /** The smallest known weight, skipping NaN as `Series.min` does; NaN
      only when no weight is known. */
  function MinKnown(ws: seq<Option<real>>): (m: Option<real>)
    ensures m.None? <==> forall i :: 0 <= i < |ws| ==> ws[i].None?
    ensures m.Some? ==> m in ws && forall i :: 0 <= i < |ws| && ws[i].Some? ==> m.value <= ws[i].value
  {
    if ws == [] then None
    else
      var rest := MinKnown(ws[1..]);
      assert forall i :: 1 <= i < |ws| ==> ws[i] == ws[1..][i - 1];
      if ws[0].None? then rest
      else if rest.Some? && rest.value < ws[0].value then rest
      else ws[0]
  }

  /** Line 247 as intended: the minimum over the known weights; an empty
      column still raises. */
  function MinWeight(ws: seq<Option<real>>): (r: Result<Option<real>, NoWeights>)
    ensures r.Err? <==> ws == []
    ensures r.Ok? ==> (r.value.None? <==> forall i :: 0 <= i < |ws| ==> ws[i].None?)
    ensures r.Ok? && r.value.Some? ==> (
      && r.value in ws
      && forall i :: 0 <= i < |ws| && ws[i].Some? ==> r.value.value <= ws[i].value)
  {
    if ws == [] then Err(NoWeights) else Ok(MinKnown(ws))
  }

  /** Both agree whenever the first weight is known. */
  lemma MinWeightsAgree(ws: seq<Option<real>>)
    requires ws != [] && ws[0].Some?
    ensures MinWeightAsWritten(ws) == MinWeight(ws)
  {
  }

  const AxisCap: real := 68.0

  /** Line 248, `min(68, min_weight - 2)`: 68 unless the weight less 2 is
      strictly smaller; a NaN weight leaves 68. */
  function YAxisFloor(minWeight: Option<real>): (r: real)
    ensures r <= AxisCap
    ensures minWeight.None? ==> r == AxisCap
    ensures minWeight.Some? ==> r <= minWeight.value - 2.0 && (r == AxisCap || r == minWeight.value - 2.0)
  {
    if minWeight.Some? && minWeight.value - 2.0 < AxisCap then minWeight.value - 2.0 else AxisCap
  }

  /** With the intended minimum every known weight sits at least 2 above
      the floor. */
  lemma YAxisFloorBelowEveryWeight(ws: seq<Option<real>>, i: nat)
    requires i < |ws| && ws[i].Some?
    ensures YAxisFloor(MinWeight(ws).value) <= ws[i].value - 2.0
  {
  }

  /** A weight log whose first weight is unreadable: as written the floor
      stays at 68 although the known weight 50 lies below it; the intended
      floor is 48. */
  lemma UnreadableFirstWeightHidesMinimum()
    ensures MinWeightAsWritten([None, Some(50.0)]) == Ok(None)
    ensures YAxisFloor(MinWeightAsWritten([None, Some(50.0)]).value) == 68.0
    ensures YAxisFloor(MinWeight([None, Some(50.0)]).value) == 48.0
  {
    assert MinKnown([None, Some(50.0)]) == Some(50.0) by {
      assert [None, Some(50.0)][1..] == [Some(50.0)];
    }
  }

  // ----- Target lines (lines 277-313) -----

  /** `user_target_weights`, in the dictionary's order. */
  const UserTargetWeights: seq<(string, int)> := [("Tom C", 72), ("Pete C", 85), ("Saffi", 53), ("Maximus", 100)]

  /** A dictionary is its (key, value) pairs in order, no key twice. */
  predicate UniqueKeys(table: seq<(string, int)>)
  {
    forall i, j :: 0 <= i < j < |table| ==> table[i].0 != table[j].0
  }

  lemma UserTargetWeightsHaveUniqueKeys()
    ensures UniqueKeys(UserTargetWeights)
  {
  }

  /** `table.get(user)`. */
  function Lookup(table: seq<(string, int)>, user: string): Option<int>
  {
    if table == [] then None
    else if table[0].0 == user then Some(table[0].1)
    else Lookup(table[1..], user)
  }

  /** `get` finds nothing exactly when no key is `user`, and what it finds
      is paired with `user` in the dictionary. */
  lemma {:induction false} LookupFinds(table: seq<(string, int)>, user: string)
    ensures Lookup(table, user).None? <==> forall i :: 0 <= i < |table| ==> table[i].0 != user
    ensures Lookup(table, user).Some? ==> (user, Lookup(table, user).value) in table
  {
    if table != [] && table[0].0 != user {
      LookupFinds(table[1..], user);
      assert forall i :: 1 <= i < |table| ==> table[i] == table[1..][i - 1];
    }
  }

  /** In a dictionary every key finds its own value. */
  lemma {:induction false} LookupOfKey(table: seq<(string, int)>, i: nat)
    requires UniqueKeys(table) && i < |table|
    ensures Lookup(table, table[i].0) == Some(table[i].1)
  {
    if i > 0 {
      assert table[0].0 != table[i].0;
      LookupOfKey(table[1..], i - 1);
    }
  }

  /** A dashed horizontal line at a user's target, in the user's colour. */
  datatype TargetLine = TargetLine(user: string, y: int, colour: string)

  /** The loop over `user_target_weights.items()`: in the dictionary's
      order, a line for each user that has a colour in the chart. */
  function LinesForAll(table: seq<(string, int)>, colours: map<string, string>): (r: seq<TargetLine>)
    ensures |r| <= |table|
  {
    if table == [] then []
    else
      var (user, target) := table[|table| - 1];
      LinesForAll(table[..|table| - 1], colours)
        + (if user in colours then [TargetLine(user, target, colours[user])] else [])
  }

  /** The line a selected user adds, if any. */
  function NewLine(table: seq<(string, int)>, u: string, colours: map<string, string>): (r: seq<TargetLine>)
    ensures |r| <= 1
    ensures r != [] <==> Lookup(table, u).Some? && u in colours
    ensures r != [] ==> r[0] == TargetLine(u, Lookup(table, u).value, colours[u])
  {
    if Lookup(table, u).Some? && u in colours then [TargetLine(u, Lookup(table, u).value, colours[u])] else []
  }

  /** The loop over the selection: in the selection's order, a line for
      each user with a target and a colour. */
  function LinesForSelected(table: seq<(string, int)>, users: seq<string>, colours: map<string, string>): (r: seq<TargetLine>)
    ensures |r| <= |users|
  {
    if users == [] then []
    else LinesForSelected(table, users[..|users| - 1], colours) + NewLine(table, users[|users| - 1], colours)
  }

  /** A line belongs to a listed user with a colour, sits at that user's
      target and has that user's colour. */
  predicate LineFits(table: seq<(string, int)>, users: seq<string>, colours: map<string, string>, line: TargetLine)
  {
    && line.user in users && line.user in colours
    && Lookup(table, line.user) == Some(line.y) && line.colour == colours[line.user]
  }

  /** Every line belongs to a listed user with a colour, sits at that
      user's target and has that user's colour. */
  lemma {:induction false} LinesForSelectedSound(table: seq<(string, int)>, users: seq<string>, colours: map<string, string>)
    ensures forall k :: 0 <= k < |LinesForSelected(table, users, colours)| ==>
      LineFits(table, users, colours, LinesForSelected(table, users, colours)[k])
  {
    if users != [] {
      var init, u := users[..|users| - 1], users[|users| - 1];
      LinesForSelectedSound(table, init, colours);
      var r0, line := LinesForSelected(table, init, colours), NewLine(table, u, colours);
      var r := LinesForSelected(table, users, colours);
      assert r == r0 + line;
      forall k | 0 <= k < |r|
        ensures LineFits(table, users, colours, r[k])
      {
        if k < |r0| {
          assert r[k] == r0[k] && LineFits(table, init, colours, r0[k]);
          var i :| 0 <= i < |init| && init[i] == r0[k].user;
          assert users[i] == init[i];
        } else {
          assert r[k] == line[0];
        }
      }
    }
  }

  lemma SelectedStep(table: seq<(string, int)>, users: seq<string>, i: nat, colours: map<string, string>)
    requires i < |users|
    ensures LinesForSelected(table, users[..i + 1], colours)
      == LinesForSelected(table, users[..i], colours) + NewLine(table, users[i], colours)
  {
    assert users[..i + 1][..i] == users[..i];
  }

  /** The loop invariant of the selection loop, carried over one user. */
  lemma SelectedPrefixStep(base: seq<TargetLine>, before: seq<TargetLine>, table: seq<(string, int)>, users: seq<string>, i: nat, colours: map<string, string>)
    requires i < |users| && before == base + LinesForSelected(table, users[..i], colours)
    ensures before + NewLine(table, users[i], colours) == base + LinesForSelected(table, users[..i + 1], colours)
  {
    SelectedStep(table, users, i, colours);
  }

  lemma AllStep(table: seq<(string, int)>, i: nat, colours: map<string, string>)
    requires i < |table|
    ensures var (user, target) := table[i];
      LinesForAll(table[..i + 1], colours)
        == LinesForAll(table[..i], colours) + (if user in colours then [TargetLine(user, target, colours[user])] else [])
  {
    assert table[..i + 1][..i] == table[..i];
  }

  /** The keys of a dictionary, in order. */
  function Keys(table: seq<(string, int)>): (ks: seq<string>)
    ensures |ks| == |table| && forall i :: 0 <= i < |table| ==> ks[i] == table[i].0
  {
    seq(|table|, i requires 0 <= i < |table| => table[i].0)
  }

  /** Going through the dictionary's items gives the same lines as going
      through its keys and looking each one up. */
  lemma {:induction false} LinesForAllIsByKeys(table: seq<(string, int)>, n: nat, colours: map<string, string>)
    requires UniqueKeys(table) && n <= |table|
    ensures LinesForAll(table[..n], colours) == LinesForSelected(table, Keys(table[..n]), colours)
  {
    if n > 0 {
      var ks, ks0 := Keys(table[..n]), Keys(table[..n - 1]);
      assert ks[..n - 1] == ks0;
      assert ks[n - 1] == table[n - 1].0;
      LinesForAllIsByKeys(table, n - 1, colours);
      AllStep(table, n - 1, colours);
      LookupOfKey(table, n - 1);
      assert LinesForSelected(table, ks, colours)
        == LinesForSelected(table, ks0, colours) + NewLine(table, table[n - 1].0, colours);
    }
  }

  /** Some line is drawn for `u`. */
  predicate HasLineFor(r: seq<TargetLine>, u: string)
  {
    exists k :: 0 <= k < |r| && r[k].user == u
  }

  /** No user has two lines. */
  predicate DistinctUsers(r: seq<TargetLine>)
  {
    forall i, j :: 0 <= i < j < |r| ==> r[i].user != r[j].user
  }

  /** Every line sits at its user's target. */
  predicate AtTargets(table: seq<(string, int)>, r: seq<TargetLine>)
  {
    forall k :: 0 <= k < |r| ==> Lookup(table, r[k].user) == Some(r[k].y)
  }

  /** Every listed user with a target and a colour gets a line. */
  lemma {:induction false} LinesForSelectedCovers(table: seq<(string, int)>, users: seq<string>, colours: map<string, string>, u: string)
    requires u in users && u in colours && Lookup(table, u).Some?
    ensures HasLineFor(LinesForSelected(table, users, colours), u)
  {
    var init, last := users[..|users| - 1], users[|users| - 1];
    var r0, line := LinesForSelected(table, init, colours), NewLine(table, last, colours);
    var r := LinesForSelected(table, users, colours);
    assert r == r0 + line;
    if u == last {
      assert r[|r0|] == line[0];
    } else {
      assert users == init + [last];
      assert u in init;
      LinesForSelectedCovers(table, init, colours, u);
      var k :| 0 <= k < |r0| && r0[k].user == u;
      assert r[k] == r0[k];
    }
  }

  /** Distinct users give distinct lines. */
  lemma {:induction false} LinesForSelectedDistinct(table: seq<(string, int)>, users: seq<string>, colours: map<string, string>)
    requires forall i, j :: 0 <= i < j < |users| ==> users[i] != users[j]
    ensures DistinctUsers(LinesForSelected(table, users, colours))
  {
    if users != [] {
      var init, u := users[..|users| - 1], users[|users| - 1];
      LinesForSelectedDistinct(table, init, colours);
      LinesForSelectedSound(table, init, colours);
      var r0, line := LinesForSelected(table, init, colours), NewLine(table, u, colours);
      var r := LinesForSelected(table, users, colours);
      assert r == r0 + line;
      assert u !in init;
      forall i, j | 0 <= i < j < |r|
        ensures r[i].user != r[j].user
      {
        assert r[i] == r0[i];
        if j < |r0| {
          assert r[j] == r0[j];
        } else {
          assert r[j] == line[0] && LineFits(table, init, colours, r0[i]);
        }
      }
    }
  }

  /** What lines 291-313 add: under the sentinel one line per target user
      with a colour, in the dictionary's order; otherwise one per selected
      user with both a target and a colour, in the selection's order. */
  function TargetLinesFor(selection: seq<string>, colours: map<string, string>): (r: seq<TargetLine>)
    ensures AtTargets(UserTargetWeights, r)
    ensures forall k :: 0 <= k < |r| ==> r[k].user in colours && r[k].colour == colours[r[k].user]
    ensures AllAppUsers !in selection ==> forall k :: 0 <= k < |r| ==> r[k].user in selection
  {
    if AllAppUsers in selection then
      UserTargetWeightsHaveUniqueKeys();
      LinesForAllExact(UserTargetWeights, colours);
      LinesForAll(UserTargetWeights, colours)
    else
      LinesForSelectedSound(UserTargetWeights, selection, colours);
      LinesForSelected(UserTargetWeights, selection, colours)
  }

  /** The keys of a dictionary are distinct. */
  lemma KeysDistinct(table: seq<(string, int)>)
    requires UniqueKeys(table)
    ensures forall i, j :: 0 <= i < j < |Keys(table)| ==> Keys(table)[i] != Keys(table)[j]
  {
  }

  /** For any dictionary: exactly one line for each key that has a colour,
      no other line, and each line at its key's value. */
  lemma LinesForAllExact(table: seq<(string, int)>, colours: map<string, string>)
    requires UniqueKeys(table)
    ensures forall u :: HasLineFor(LinesForAll(table, colours), u) <==> Lookup(table, u).Some? && u in colours
    ensures DistinctUsers(LinesForAll(table, colours))
    ensures AtTargets(table, LinesForAll(table, colours))
    ensures forall k :: 0 <= k < |LinesForAll(table, colours)| ==>
      LinesForAll(table, colours)[k].user in colours
      && LinesForAll(table, colours)[k].colour == colours[LinesForAll(table, colours)[k].user]
  {
    LinesForAllIsByKeys(table, |table|, colours);
    assert table[..|table|] == table;
    var ks := Keys(table);
    var r := LinesForSelected(table, ks, colours);
    assert LinesForAll(table, colours) == r;
    KeysDistinct(table);
    LinesForSelectedDistinct(table, ks, colours);
    LinesForSelectedSound(table, ks, colours);
    assert forall k :: 0 <= k < |r| ==> LineFits(table, ks, colours, r[k]);
    forall u
      ensures HasLineFor(r, u) <==> Lookup(table, u).Some? && u in colours
    {
      if Lookup(table, u).Some? && u in colours {
        LookupFinds(table, u);
        var i :| 0 <= i < |table| && table[i] == (u, Lookup(table, u).value);
        assert u == ks[i];
        LinesForSelectedCovers(table, ks, colours, u);
      }
    }
  }

  /** Under the sentinel there is exactly one line for each user that has
      a target and a colour, no other line, and each line sits at its
      user's target. */
  lemma AllUsersTargetLines(selection: seq<string>, colours: map<string, string>)
    requires AllAppUsers in selection
    ensures forall u :: HasLineFor(TargetLinesFor(selection, colours), u) <==> Lookup(UserTargetWeights, u).Some? && u in colours
    ensures DistinctUsers(TargetLinesFor(selection, colours))
    ensures AtTargets(UserTargetWeights, TargetLinesFor(selection, colours))
  {
    UserTargetWeightsHaveUniqueKeys();
    LinesForAllExact(UserTargetWeights, colours);
  }

  /** Otherwise a user gets a line exactly when selected, with a target
      and with a colour; each line sits at that user's target. */
  lemma SelectedUsersTargetLines(selection: seq<string>, colours: map<string, string>)
    requires AllAppUsers !in selection
    ensures forall u :: HasLineFor(TargetLinesFor(selection, colours), u) <==>
      u in selection && Lookup(UserTargetWeights, u).Some? && u in colours
    ensures AtTargets(UserTargetWeights, TargetLinesFor(selection, colours))
  {
    var r := LinesForSelected(UserTargetWeights, selection, colours);
    assert TargetLinesFor(selection, colours) == r;
    LinesForSelectedSound(UserTargetWeights, selection, colours);
    assert forall k :: 0 <= k < |r| ==> LineFits(UserTargetWeights, selection, colours, r[k]);
    forall u
      ensures HasLineFor(r, u) <==> u in selection && Lookup(UserTargetWeights, u).Some? && u in colours
    {
      if u in selection && Lookup(UserTargetWeights, u).Some? && u in colours {
        LinesForSelectedCovers(UserTargetWeights, selection, colours, u);
      }
    }
  }

  /** The weight chart, as far as the target lines go. */
  class WeightChart {
    var targetLines: seq<TargetLine>

    constructor()
      ensures targetLines == []
    {
      targetLines := [];
    }

    /** Lines 291-313: one of two loops, each adding one line at a time. */
    method AddTargetLines(selection: seq<string>, colours: map<string, string>)
      modifies this
      ensures targetLines == old(targetLines) + TargetLinesFor(selection, colours)
    {
      if AllAppUsers in selection {
        AddLinesForAllUsers(UserTargetWeights, colours);
      } else {
        AddLinesForSelection(UserTargetWeights, selection, colours);
      }
    }

    /** The loop over the dictionary's items: a line for each user that
        has a colour. */
    method AddLinesForAllUsers(table: seq<(string, int)>, colours: map<string, string>)
      modifies this
      ensures targetLines == old(targetLines) + LinesForAll(table, colours)
    {
      var i := 0;
      while i < |table|
        invariant 0 <= i <= |table|
        invariant targetLines == old(targetLines) + LinesForAll(table[..i], colours)
      {
        var (user, target) := table[i];
        if user in colours {
          targetLines := targetLines + [TargetLine(user, target, colours[user])];
        }
        AllStep(table, i, colours);
        i := i + 1;
      }
      assert table[..|table|] == table;
    }

    /** The loop over the selection: a line for each selected user with a
        target and a colour. */
    method AddLinesForSelection(table: seq<(string, int)>, selection: seq<string>, colours: map<string, string>)
      modifies this
      ensures targetLines == old(targetLines) + LinesForSelected(table, selection, colours)
    {
      var i := 0;
      while i < |selection|
        invariant 0 <= i <= |selection|
        invariant targetLines == old(targetLines) + LinesForSelected(table, selection[..i], colours)
      {
        var user := selection[i];
        var target := Lookup(table, user);
        ghost var before, added := targetLines, NewLine(table, user, colours);
        if target.Some? && user in colours {
          targetLines := targetLines + [TargetLine(user, target.value, colours[user])];
          assert added == [TargetLine(user, target.value, colours[user])];
        } else {
          assert added == [] && targetLines == before + added;
        }
        SelectedPrefixStep(old(targetLines), before, table, selection, i, colours);
        i := i + 1;
      }
      assert selection[..|selection|] == selection;
    }
  }

  // ----- Logging a current weight (lines 159-174) -----

  /** `strftime("%d/%m/%Y")`. */
  function DateText(d: Date): (t: string)
    requires ValidDate(d)
    ensures |t| == 10
  {
    PadDecimal(d.day, 2) + "/" + PadDecimal(d.month, 2) + "/" + PadDecimal(d.year, 4)
  }

  /** `strftime("%H:%M:%S")` for a second of the day. */
  function TimeText(second: SecondOfDay): (t: string)
    ensures |t| == 8
  {
    PadDecimal(second / 3600, 2) + ":" + PadDecimal(second % 3600 / 60, 2) + ":" + PadDecimal(second % 60, 2)
  }


  lemma DateTextReadsBack(d: Date)
    requires ValidDate(d)
    ensures var t := DateText(d);
      && t[2] == '/' && t[5] == '/'
      && AllDigits(t[..2]) && AllDigits(t[3..5]) && AllDigits(t[6..])
      && DecimalValue(t[..2]) == d.day && DecimalValue(t[3..5]) == d.month && DecimalValue(t[6..]) == d.year
  {
    var dd, mm, yyyy := PadDecimal(d.day, 2), PadDecimal(d.month, 2), PadDecimal(d.year, 4);
    FieldSlices(dd, "/", mm, yyyy);
    assert Pow10(2) == 100 && Pow10(4) == 10000;
    PadDecimalValue(d.day, 2);
    PadDecimalValue(d.month, 2);
    PadDecimalValue(d.year, 4);
  }

  /** Hours, minutes and seconds of a second of the day. */
  lemma SecondFields(second: SecondOfDay)
    ensures second / 3600 < 24 && second % 3600 / 60 < 60
    ensures (second / 3600) * 3600 + (second % 3600 / 60) * 60 + second % 60 == second
  {
  }

  /** Where the three fields of `aa?bb?rest` lie. */
  lemma FieldSlices(a: string, sep: string, b: string, c: string)
    requires |a| == 2 && |sep| == 1 && |b| == 2
    ensures var t := a + sep + b + sep + c;
      && t[2] == sep[0] && t[5] == sep[0] && t[..2] == a && t[3..5] == b && t[6..] == c
  {
  }

  lemma TimeTextReadsBack(second: SecondOfDay)
    ensures var t := TimeText(second);
      && t[2] == ':' && t[5] == ':'
      && AllDigits(t[..2]) && AllDigits(t[3..5]) && AllDigits(t[6..])
      && DecimalValue(t[..2]) * 3600 + DecimalValue(t[3..5]) * 60 + DecimalValue(t[6..]) == second
  {
    var hh, mi, ss := PadDecimal(second / 3600, 2), PadDecimal(second % 3600 / 60, 2), PadDecimal(second % 60, 2);
    FieldSlices(hh, ":", mi, ss);
    SecondFields(second);
    assert Pow10(2) == 100;
    PadDecimalValue(second / 3600, 2);
    PadDecimalValue(second % 3600 / 60, 2);
    PadDecimalValue(second % 60, 2);
  }

  /** Where the fields of the date and of the time lie once they are
      joined by a space. */
  lemma SpaceJoin(a: string, b: string)
    requires |a| == 10 && |b| == 8
    ensures var t := a + " " + b;
      && t[2] == a[2] && t[5] == a[5] && t[10] == ' ' && t[13] == b[2] && t[16] == b[5]
      && t[..2] == a[..2] && t[3..5] == a[3..5] && t[6..10] == a[6..]
      && t[11..13] == b[..2] && t[14..16] == b[3..5] && t[17..] == b[6..]
  {
    var t := a + " " + b;
    assert forall k :: 0 <= k < 10 ==> t[k] == a[k];
    assert forall k :: 0 <= k < 8 ==> t[11 + k] == b[k];
    assert t[..2] == a[..2];
    assert t[3..5] == a[3..5];
    assert t[6..10] == a[6..];
    assert t[11..13] == b[..2];
    assert t[14..16] == b[3..5];
    assert t[17..] == b[6..];
  }

  /** `strftime("%d/%m/%Y %H:%M:%S")`. Reading the day, month and year
      fields and the time fields of the text gives back the day and the
      second it was written at. */
  function TimestampText(now: DateTime): (t: string)
    ensures |t| == 19
    ensures t[2] == '/' && t[5] == '/' && t[10] == ' ' && t[13] == ':' && t[16] == ':'
    ensures AllDigits(t[..2]) && AllDigits(t[3..5]) && AllDigits(t[6..10])
      && AllDigits(t[11..13]) && AllDigits(t[14..16]) && AllDigits(t[17..])
    ensures var date := Date(DecimalValue(t[6..10]), DecimalValue(t[3..5]), DecimalValue(t[..2]));
      ValidDate(date) && ToOrdinal(date) == now.day
    ensures DecimalValue(t[11..13]) * 3600 + DecimalValue(t[14..16]) * 60 + DecimalValue(t[17..]) == now.second
  {
    var d := FromOrdinal(now.day);
    var dt, tt := DateText(d), TimeText(now.second);
    SpaceJoin(dt, tt);
    DateTextReadsBack(d);
    TimeTextReadsBack(now.second);
    dt + " " + tt
  }

  /** The row appended for a current weight: the timestamp, the weight text
      as typed and the first selected user, in that order; nothing when no
      user is selected or the weight text is empty. */
  function CurrentWeightRow(now: DateTime, currentUser: seq<string>, weightText: string): (r: Option<seq<string>>)
    ensures r.Some? <==> currentUser != [] && weightText != ""
    ensures r.Some? ==> |r.value| == 3 && r.value[0] == TimestampText(now) && r.value[1] == weightText && r.value[2] == currentUser[0]
  {
    if currentUser != [] && weightText != "" then Some([TimestampText(now), weightText, currentUser[0]]) else None
  }

  /** What the page reports after the button is pressed. */
  datatype LogOutcome = Saved | SaveFailed | MissingFields

  /** The weight worksheet, as far as appends go. */
  class WeightSheet {
    var rows: seq<seq<string>>

    constructor(initial: seq<seq<string>>)
      ensures rows == initial
    {
      rows := initial;
    }

    /** Lines 159-174: the guard, then one append whose success the store
        decides (`appendSucceeds`). The sheet grows by exactly the row
        built, and only when the append succeeds. */
    method LogCurrentWeight(now: DateTime, currentUser: seq<string>, weightText: string, appendSucceeds: bool)
      returns (outcome: LogOutcome)
      modifies this
      ensures outcome == MissingFields <==> CurrentWeightRow(now, currentUser, weightText).None?
      ensures outcome == Saved <==> CurrentWeightRow(now, currentUser, weightText).Some? && appendSucceeds
      ensures outcome == Saved ==> rows == old(rows) + [CurrentWeightRow(now, currentUser, weightText).value]
      ensures outcome != Saved ==> rows == old(rows)
    {
      var row := CurrentWeightRow(now, currentUser, weightText);
      if row.None? {
        return MissingFields;
      }
      if appendSucceeds {
        rows := rows + [row.value];
        outcome := Saved;
      } else {
        outcome := SaveFailed;
      }
    }
  }
}
