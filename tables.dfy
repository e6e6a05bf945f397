/**
 * In-memory spreadsheets as the analysis functions see them, and the two
 * `safe_get_value` lookups of `analyze_evidence_comparison` and
 * `analyze_survei_comparison`.
 */
module Tables {
  import opened Values
  import opened Search

  /** A data frame: column names and rows of cells, in table order. */
  datatype Frame = Frame(columns: seq<string>, rows: seq<seq<Cell>>)

  /** Every row has one cell per column, and no column name occurs twice. */
  predicate WellFormed(f: Frame) {
    && (forall r :: 0 <= r < |f.rows| ==> |f.rows[r]| == |f.columns|)
    && (forall i, j :: 0 <= i < j < |f.columns| ==> f.columns[i] != f.columns[j])
  }

  type Table = f: Frame | WellFormed(f) witness Frame([], [])

  /** What both lookups return when there is no value to show. */
  const NotAvailable: string := "N/A"

  /** `frame.empty`: a frame without rows (or without columns) holds no cell. */
  function IsEmpty(t: Table): (b: bool)
    ensures b <==> forall r :: 0 <= r < |t.rows| ==> t.rows[r] == []
  {
    assert t.rows != [] ==> |t.rows[0]| == |t.columns|;
    t.rows == [] || t.columns == []
  }

  /** How an f-string shows a cell: its text, and `nan` for a missing value. */
  function Shown(c: Cell): (r: string)
    ensures c.Text? ==> r == c.s
    ensures c.Missing? ==> r == "nan"
  {
    match c
    case Missing => "nan"
    case Text(s) => s
  }

  predicate NameIs(name: string, column: string) {
    column == name
  }

  /** The position of a column, if the frame has one of that name. */
  function ColumnIndex(t: Table, name: string): (r: Option<nat>)
    ensures r.Some? ==> r.value < |t.columns| && t.columns[r.value] == name
    ensures r.None? <==> name !in t.columns
  {
    FirstWhere(t.columns, NameIs, name)
  }

  /** The column named `name` is at position j exactly when j holds that name. */
  lemma ColumnIndexUnique(t: Table, name: string, j: nat)
    requires j < |t.columns| && t.columns[j] == name
    ensures ColumnIndex(t, name) == Some(j)
  {
    var r := ColumnIndex(t, name);
    assert r.Some?;
  }

  /**
   * The positional `safe_get_value(dataframe, row_idx, col_idx)`: the text
   * of `iloc[row_idx, col_idx]`, or "N/A" when the column is out of range,
   * the row does not exist (the `IndexError` the bare `except` catches) or
   * the value is missing.
   */
  function SafeGetAt(t: Table, row: nat, col: nat): (r: string)
    ensures col < |t.columns| && row < |t.rows| && t.rows[row][col].Text? ==> r == t.rows[row][col].s
    ensures col >= |t.columns| || row >= |t.rows| || t.rows[row][col].Missing? ==> r == NotAvailable
  {
    if col < |t.columns| && row < |t.rows| then
      match t.rows[row][col]
      case Missing => NotAvailable
      case Text(s) => s
    else NotAvailable
  }

  /**
   * The named `safe_get_value(dataframe, row_idx, col_name, default)`: the
   * text of `iloc[row_idx][col_name]`, or `default` when the column is
   * absent, the row does not exist or the value is missing.
   */
  function SafeGetNamed(t: Table, row: nat, name: string, default: string): (r: string)
    ensures name !in t.columns || row >= |t.rows| ==> r == default
    ensures forall j :: 0 <= j < |t.columns| && t.columns[j] == name && row < |t.rows| ==>
      r == if t.rows[row][j].Text? then t.rows[row][j].s else default
  {
    match ColumnIndex(t, name)
    case None => default
    case Some(j) =>
      if row < |t.rows| then
        match t.rows[row][j]
        case Missing => default
        case Text(s) => s
      else default
  }

  /** With the default "N/A", the named lookup is the positional lookup at that column's position. */
  lemma NamedAgreesWithPositional(t: Table, row: nat, name: string, col: nat)
    requires col < |t.columns| && t.columns[col] == name
    ensures SafeGetNamed(t, row, name, NotAvailable) == SafeGetAt(t, row, col)
  {
    ColumnIndexUnique(t, name, col);
  }

  /** The sub-frame `frame.iloc[rows]` holding the given rows, in the given order. */
  function Select(t: Table, rows: seq<nat>): (s: Table)
    requires forall k :: 0 <= k < |rows| ==> rows[k] < |t.rows|
    ensures s.columns == t.columns && |s.rows| == |rows|
    ensures forall k :: 0 <= k < |rows| ==> s.rows[k] == t.rows[rows[k]]
  {
    Frame(t.columns, seq(|rows|, k requires 0 <= k < |rows| => t.rows[rows[k]]))
  }

  /** Looking up row 0 of a selection is looking up its first selected row of the whole table. */
  lemma SelectFirstRow(t: Table, rows: seq<nat>, col: nat)
    requires rows != [] && forall k :: 0 <= k < |rows| ==> rows[k] < |t.rows|
    ensures SafeGetAt(Select(t, rows), 0, col) == SafeGetAt(t, rows[0], col)
    ensures forall name, default :: SafeGetNamed(Select(t, rows), 0, name, default) == SafeGetNamed(t, rows[0], name, default)
  {
  }

  /** The cells of column j, one per row. */
  function Column(t: Table, j: nat): (cs: seq<Cell>)
    requires j < |t.columns|
    ensures |cs| == |t.rows| && forall r :: 0 <= r < |t.rows| ==> cs[r] == t.rows[r][j]
  {
    seq(|t.rows|, r requires 0 <= r < |t.rows| => t.rows[r][j])
  }

  predicate CellIs(value: string, c: Cell) {
    c == Text(value)
  }

  /** `frame[frame[name] == value]`: the rows whose cell in that column is the given text. */
  function RowsWhere(t: Table, j: nat, value: string): (rows: seq<nat>)
    requires j < |t.columns|
    ensures forall k :: 0 <= k < |rows| ==> rows[k] < |t.rows| && t.rows[rows[k]][j] == Text(value)
    ensures forall r :: 0 <= r < |t.rows| && t.rows[r][j] == Text(value) ==> r in rows
  {
    var col := Column(t, j);
    Indices(col, CellIs, value, |col|)
  }

  /** No row holds the given text in column j. */
  predicate Absent(t: Table, j: nat, value: string)
    requires j < |t.columns|
  {
    forall r :: 0 <= r < |t.rows| ==> t.rows[r][j] != Text(value)
  }

  /** The selection is empty exactly when no row holds the text. */
  lemma RowsWhereEmpty(t: Table, j: nat, value: string)
    requires j < |t.columns|
    ensures RowsWhere(t, j, value) == [] <==> Absent(t, j, value)
  {
    var rows := RowsWhere(t, j, value);
    if rows != [] {
      assert t.rows[rows[0]][j] == Text(value);
    }
  }

  /**
   * The dictionary `{name: safe_get_value(frame, row, first + i)}` the
   * source builds over a list of distinct names, as its items in insertion
   * order.
   */
  function PositionalValues(t: Table, row: nat, first: nat, names: seq<string>): (items: seq<(string, string)>)
    ensures |items| == |names|
    ensures forall i :: 0 <= i < |names| ==> items[i] == (names[i], SafeGetAt(t, row, first + i))
  {
    seq(|names|, i requires 0 <= i < |names| => (names[i], SafeGetAt(t, row, first + i)))
  }

  /**
   * The survey lookups `safe_get_value(frame, row, name, 'N/A')`, one per
   * listed column, as (name, value) pairs in the listed order.
   */
  function NamedValues(t: Table, row: nat, names: seq<string>): (items: seq<(string, string)>)
    ensures |items| == |names|
    ensures forall i :: 0 <= i < |names| ==> items[i] == (names[i], SafeGetNamed(t, row, names[i], NotAvailable))
  {
    seq(|names|, i requires 0 <= i < |names| => (names[i], SafeGetNamed(t, row, names[i], NotAvailable)))
  }

  /** The loop `for i, name in enumerate(names): values[name] = safe_get_value(frame, row, first + i)`. */
  method CollectPositional(t: Table, row: nat, first: nat, names: seq<string>) returns (items: seq<(string, string)>)
    ensures items == PositionalValues(t, row, first, names)
  {
    items := [];
    for i := 0 to |names|
      invariant items == PositionalValues(t, row, first, names[..i])
    {
      items := items + [(names[i], SafeGetAt(t, row, first + i))];
    }
    assert names[..|names|] == names;
  }

  /** Every listed column at or beyond the frame's width shows "N/A". */
  lemma PositionalBeyondWidth(t: Table, row: nat, first: nat, names: seq<string>, i: nat)
    requires i < |names| && first + i >= |t.columns|
    ensures PositionalValues(t, row, first, names)[i] == (names[i], NotAvailable)
  {
  }
}
