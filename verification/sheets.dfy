/** Reading a worksheet: the values the spreadsheet store returns become a
    rectangular table (`fetch_data`), and a table becomes typed records
    once its text cells are parsed (the data-preparation blocks of each
    page). The store call itself and the pandas parsers are parameters. */
module Sheets {
  import opened Common
  import opened Calendar

  /** A worksheet after `fetch_data`: the first row is the header, every
      other row is padded with `None` cells. */
  datatype Table = Table(header: seq<string>, rows: seq<seq<Cell>>)

  /** pandas refuses a row with more cells than the header has names. */
  datatype FetchError = RowWiderThanHeader(row: nat)

  predicate Rectangular(t: Table)
  {
    forall i :: 0 <= i < |t.rows| ==> |t.rows[i]| == |t.header|
  }

  /** `row + [None] * (len(header) - len(row))`: a short row is padded on
      the right up to `width` cells; a long row is left as it is. */
  function PadRow(row: seq<string>, width: nat): (r: seq<Cell>)
    ensures |r| == if |row| < width then width else |row|
    ensures forall i :: 0 <= i < |row| ==> r[i] == Some(row[i])
    ensures forall i :: |row| <= i < |r| ==> r[i] == None
  {
    if row == [] then seq(width, _ => None)
    else [Some(row[0])] + PadRow(row[1..], if width == 0 then 0 else width - 1)
  }

  /** The padded rows of a worksheet, one per data row. */
  function PadRows(rows: seq<seq<string>>, width: nat): (r: seq<seq<Cell>>)
    ensures |r| == |rows|
    ensures forall i :: 0 <= i < |rows| ==> r[i] == PadRow(rows[i], width)
  {
    seq(|rows|, i requires 0 <= i < |rows| => PadRow(rows[i], width))
  }

  /** The index of the first row wider than `width`, if there is one. */
  function FirstWideRow(rows: seq<seq<string>>, width: nat): (r: Option<nat>)
    ensures r.None? <==> forall i :: 0 <= i < |rows| ==> |rows[i]| <= width
    ensures r.Some? ==> (r.value < |rows| && |rows[r.value]| > width
                         && forall i :: 0 <= i < r.value ==> |rows[i]| <= width)
  {
    if rows == [] then None
    else if |rows[0]| > width then Some(0)
    else match FirstWideRow(rows[1..], width)
      case None => None
      case Some(k) => Some(k + 1)
  }

  /** `fetch_data` (lines 35-45 of the overview page): no values give an
      empty table; otherwise the first row is the header and the others
      are padded to its width, and a row wider than the header makes the
      DataFrame constructor raise. */
  function FromValues(values: seq<seq<string>>): (r: Result<Table, FetchError>)
    ensures values == [] ==> r == Ok(Table([], []))
    ensures values != [] ==>
      (r.Ok? <==> forall i :: 1 <= i < |values| ==> |values[i]| <= |values[0]|)
    ensures r.Ok? ==> Rectangular(r.value) && |r.value.rows| == if values == [] then 0 else |values| - 1
    ensures r.Ok? && values != [] ==> r.value.header == values[0]
    ensures r.Ok? ==> forall i, j :: 1 <= i < |values| && 0 <= j < |values[i]| ==> r.value.rows[i - 1][j] == Some(values[i][j])
  {
    if values == [] then Ok(Table([], []))
    else
      var header := values[0];
      match FirstWideRow(values[1..], |header|)
      case Some(k) => Err(RowWiderThanHeader(k + 1))
      case None => Ok(Table(header, PadRows(values[1..], |header|)))
  }

  // ----- Typed records -----

  /** One logged exercise session of the activity log. */
  datatype Session = Session(
    timestamp: Option<DateTime>,
    exerciseType: Cell,
    user: Cell,
    duration: Option<real>,
    distance: Option<real>,
    reps: Option<real>)

  /** One row of the weight log. */
  datatype WeightEntry = WeightEntry(timestamp: Option<DateTime>, weight: Option<real>, user: Cell)

  /** Why a column the page reads cannot be read: the worksheet lacks it
      (pandas `KeyError`), or two columns carry its name after the renames,
      so the selection is a two-column frame that `pd.to_datetime` and
      `pd.to_numeric` refuse. */
  datatype ColumnError = MissingColumn(name: string) | DuplicateColumn(name: string)

  /** The renames of lines 80 and 84: legacy form headers get the names
      the rest of the page uses. */
  function Canonical(name: string): string
  {
    if name == "Optional: Distance (miles)" then "Distance in Miles"
    else if name == "Optional: Strength: Reps" then "Reps"
    else name
  }

  /** The first column whose name, after renaming, is `name`. */
  function ColumnIndex(header: seq<string>, name: string): (r: Option<nat>)
    ensures r.Some? ==> (r.value < |header| && Canonical(header[r.value]) == name
                         && forall j :: 0 <= j < r.value ==> Canonical(header[j]) != name)
    ensures r.None? ==> forall j :: 0 <= j < |header| ==> Canonical(header[j]) != name
  {
    if header == [] then None
    else if Canonical(header[0]) == name then Some(0)
    else match ColumnIndex(header[1..], name)
      case None => None
      case Some(k) => Some(k + 1)
  }

  /** No column's name, after renaming, is `name`. */
  predicate Absent(header: seq<string>, name: string)
  {
    forall j :: 0 <= j < |header| ==> Canonical(header[j]) != name
  }

  /** Column `k` is the one column whose name, after renaming, is `name`. */
  predicate OnlyAt(header: seq<string>, name: string, k: nat)
  {
    && k < |header| && Canonical(header[k]) == name
    && forall j :: 0 <= j < |header| && j != k ==> Canonical(header[j]) != name
  }

  /** Two columns whose names, after renaming, are both `name`. */
  predicate Duplicated(header: seq<string>, name: string)
  {
    exists i, j :: 0 <= i < j < |header| && Canonical(header[i]) == name && Canonical(header[j]) == name
  }

  /** The column a page parses with `pd.to_datetime` or `pd.to_numeric`:
      it must be there, and only once. */
  function ParsedColumn(header: seq<string>, name: string): (r: Result<nat, ColumnError>)
    ensures r.Err? ==> r.error == MissingColumn(name) || r.error == DuplicateColumn(name)
    ensures r == Err(MissingColumn(name)) <==> Absent(header, name)
    ensures r == Err(DuplicateColumn(name)) <==> Duplicated(header, name)
    ensures r.Ok? ==> OnlyAt(header, name, r.value)
  {
    match ColumnIndex(header, name)
    case None => Err(MissingColumn(name))
    case Some(k) =>
      match ColumnIndex(header[k + 1..], name)
      case Some(m) =>
        assert header[k + 1..][m] == header[k + 1 + m];
        Err(DuplicateColumn(name))
      case None =>
        assert forall j :: k < j < |header| ==> header[j] == header[k + 1..][j - k - 1];
        Ok(k)
  }

  /** A coercing parse (`errors="coerce"`): a padded cell and a cell the
      parser rejects are both unknown. */
  function ParseCell<T>(c: Cell, parse: string -> Option<T>): (r: Option<T>)
    ensures c.None? ==> r.None?
  {
    match c
    case None => None
    case Some(text) => parse(text)
  }

  function CellAt(row: seq<Cell>, col: Option<nat>): Cell
  {
    if col.Some? && col.value < |row| then row[col.value] else None
  }

  /** The activity log as typed sessions (lines 67-85 of the overview
      page): the timestamp is parsed day first, duration, distance and
      reps are parsed as numbers, each from the one column of its name;
      the first of these columns, in that order, that is missing or
      duplicated stops the page. */
  function SessionsOf(t: Table, parseTime: string -> Option<DateTime>, parseNumber: string -> Option<real>)
    : (r: Result<seq<Session>, ColumnError>)
    requires Rectangular(t)
    ensures r.Err? <==>
      || ParsedColumn(t.header, "Timestamp").Err? || ParsedColumn(t.header, "Duration").Err?
      || ParsedColumn(t.header, "Distance in Miles").Err? || ParsedColumn(t.header, "Reps").Err?
    ensures ParsedColumn(t.header, "Timestamp").Err? ==> r == Err(ParsedColumn(t.header, "Timestamp").error)
    ensures ParsedColumn(t.header, "Timestamp").Ok? && ParsedColumn(t.header, "Duration").Err? ==>
      r == Err(ParsedColumn(t.header, "Duration").error)
    ensures (ParsedColumn(t.header, "Timestamp").Ok? && ParsedColumn(t.header, "Duration").Ok?
             && ParsedColumn(t.header, "Distance in Miles").Err?) ==>
      r == Err(ParsedColumn(t.header, "Distance in Miles").error)
    ensures (ParsedColumn(t.header, "Timestamp").Ok? && ParsedColumn(t.header, "Duration").Ok?
             && ParsedColumn(t.header, "Distance in Miles").Ok? && ParsedColumn(t.header, "Reps").Err?) ==>
      r == Err(ParsedColumn(t.header, "Reps").error)
    ensures r.Ok? ==> |r.value| == |t.rows|
    ensures r.Ok? ==> forall i :: 0 <= i < |t.rows| ==> (
      && r.value[i].timestamp == ParseCell(t.rows[i][ParsedColumn(t.header, "Timestamp").value], parseTime)
      && r.value[i].duration == ParseCell(t.rows[i][ParsedColumn(t.header, "Duration").value], parseNumber)
      && r.value[i].distance == ParseCell(t.rows[i][ParsedColumn(t.header, "Distance in Miles").value], parseNumber)
      && r.value[i].reps == ParseCell(t.rows[i][ParsedColumn(t.header, "Reps").value], parseNumber)
      && r.value[i].exerciseType == CellAt(t.rows[i], ColumnIndex(t.header, "Exercise Type"))
      && r.value[i].user == CellAt(t.rows[i], ColumnIndex(t.header, "User")))
  {
    var ts := ParsedColumn(t.header, "Timestamp");
    var du := ParsedColumn(t.header, "Duration");
    var di := ParsedColumn(t.header, "Distance in Miles");
    var re := ParsedColumn(t.header, "Reps");
    var ty := ColumnIndex(t.header, "Exercise Type");
    var us := ColumnIndex(t.header, "User");
    if ts.Err? then Err(ts.error)
    else if du.Err? then Err(du.error)
    else if di.Err? then Err(di.error)
    else if re.Err? then Err(re.error)
    else Ok(SessionRows(t, ts.value, du.value, di.value, re.value, ty, us, parseTime, parseNumber))
  }

  /** A response sheet holding both the legacy distance column and the
      renamed one has two "Distance in Miles" columns after the rename at
      line 80, and the numeric parse at line 81 refuses them. */
  lemma BothDistanceColumns(t: Table, i: nat, j: nat,
      parseTime: string -> Option<DateTime>, parseNumber: string -> Option<real>)
    requires Rectangular(t) && i < |t.header| && j < |t.header|
    requires t.header[i] == "Optional: Distance (miles)" && t.header[j] == "Distance in Miles"
    requires ParsedColumn(t.header, "Timestamp").Ok? && ParsedColumn(t.header, "Duration").Ok?
    ensures SessionsOf(t, parseTime, parseNumber) == Err(DuplicateColumn("Distance in Miles"))
  {
  }

  /** Every row as a session, from the given columns. */
  function SessionRows(t: Table, ts: nat, du: nat, di: nat, re: nat, ty: Option<nat>, us: Option<nat>,
                       parseTime: string -> Option<DateTime>, parseNumber: string -> Option<real>): (r: seq<Session>)
    requires Rectangular(t) && ts < |t.header| && du < |t.header| && di < |t.header| && re < |t.header|
    ensures |r| == |t.rows|
    ensures forall i :: 0 <= i < |t.rows| ==> (
      && r[i].timestamp == ParseCell(t.rows[i][ts], parseTime)
      && r[i].duration == ParseCell(t.rows[i][du], parseNumber)
      && r[i].distance == ParseCell(t.rows[i][di], parseNumber)
      && r[i].reps == ParseCell(t.rows[i][re], parseNumber)
      && r[i].exerciseType == CellAt(t.rows[i], ty)
      && r[i].user == CellAt(t.rows[i], us))
  {
    seq(|t.rows|, i requires 0 <= i < |t.rows| =>
      var row := t.rows[i];
      Session(
        ParseCell(row[ts], parseTime),
        CellAt(row, ty),
        CellAt(row, us),
        ParseCell(row[du], parseNumber),
        ParseCell(row[di], parseNumber),
        ParseCell(row[re], parseNumber)))
  }

  /** The weight log as typed entries (lines 72-81 of the weight page):
      timestamps and weights are coerced, each from the one column of its
      name, and the page needs the user column too. */
  function WeightEntriesOf(t: Table, parseTime: string -> Option<DateTime>, parseNumber: string -> Option<real>)
    : (r: Result<seq<WeightEntry>, ColumnError>)
    requires Rectangular(t)
    ensures r.Err? <==>
      || ParsedColumn(t.header, "Timestamp").Err? || ParsedColumn(t.header, "Current Weight").Err?
      || ColumnIndex(t.header, "User").None?
    ensures ParsedColumn(t.header, "Timestamp").Err? ==> r == Err(ParsedColumn(t.header, "Timestamp").error)
    ensures ParsedColumn(t.header, "Timestamp").Ok? && ParsedColumn(t.header, "Current Weight").Err? ==>
      r == Err(ParsedColumn(t.header, "Current Weight").error)
    ensures (ParsedColumn(t.header, "Timestamp").Ok? && ParsedColumn(t.header, "Current Weight").Ok?
             && ColumnIndex(t.header, "User").None?) ==> r == Err(MissingColumn("User"))
    ensures r.Ok? ==> |r.value| == |t.rows|
    ensures r.Ok? ==> forall i :: 0 <= i < |t.rows| ==> (
      && r.value[i].timestamp == ParseCell(t.rows[i][ParsedColumn(t.header, "Timestamp").value], parseTime)
      && r.value[i].weight == ParseCell(t.rows[i][ParsedColumn(t.header, "Current Weight").value], parseNumber)
      && r.value[i].user == t.rows[i][ColumnIndex(t.header, "User").value])
  {
    var ts := ParsedColumn(t.header, "Timestamp");
    var cw := ParsedColumn(t.header, "Current Weight");
    var us := ColumnIndex(t.header, "User");
    if ts.Err? then Err(ts.error)
    else if cw.Err? then Err(cw.error)
    else if us.None? then Err(MissingColumn("User"))
    else Ok(WeightRows(t, ts.value, cw.value, us.value, parseTime, parseNumber))
  }

  /** Every row as a weight entry, from the given columns. */
  function WeightRows(t: Table, ts: nat, cw: nat, us: nat,
                      parseTime: string -> Option<DateTime>, parseNumber: string -> Option<real>): (r: seq<WeightEntry>)
    requires Rectangular(t) && ts < |t.header| && cw < |t.header| && us < |t.header|
    ensures |r| == |t.rows|
    ensures forall i :: 0 <= i < |t.rows| ==> (
      && r[i].timestamp == ParseCell(t.rows[i][ts], parseTime)
      && r[i].weight == ParseCell(t.rows[i][cw], parseNumber)
      && r[i].user == t.rows[i][us])
  {
    seq(|t.rows|, i requires 0 <= i < |t.rows| =>
      var row := t.rows[i];
      WeightEntry(ParseCell(row[ts], parseTime), ParseCell(row[cw], parseNumber), row[us]))
  }
}
