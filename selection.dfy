/**
 * The filter engine and the selection API of `IamDataFrame`: `select` builds a row mask by ANDing
 * one mask per filter entry (`keep_col_match` for the text axes, `keep_col_yr` for the year),
 * keeps the rows whose flag is set, and, when columns are requested, projects onto them and drops
 * duplicate rows. `models`, `scenarios` and `variables` list one projected column.
 */
module Selection {
  import opened Wrappers
  import opened Observations
  import opened Patterns

  /**
   * The value of one filter entry, as the dynamically typed dict value is told apart by
   * `isinstance`: a string, a list of strings, an int, a list of ints, or `range(start, stop)`.
   * An empty Python list is `StrList([])` or `IntList([])`; the two behave alike everywhere.
   */
  datatype FilterValue =
    | Str(s: string)
    | StrList(ss: seq<string>)
    | Int(n: int)
    | IntList(ns: seq<int>)
    | Range(start: int, stop: int)

  /** A filter dict: its (column, value) entries in insertion order. */
  type Filters = seq<(string, FilterValue)>

  /** The columns `select` can filter on. */
  datatype Axis = ModelAxis | ScenarioAxis | RegionAxis | VariableAxis | YearAxis

  function AxisOf(col: string): Option<Axis> {
    if col == "model" then Some(ModelAxis)
    else if col == "scenario" then Some(ScenarioAxis)
    else if col == "region" then Some(RegionAxis)
    else if col == "variable" then Some(VariableAxis)
    else if col == "year" then Some(YearAxis)
    else None
  }

  function TextOf(o: Observation, a: Axis): string
    requires a != YearAxis
  {
    match a
    case ModelAxis => o.model
    case ScenarioAxis => o.scenario
    case RegionAxis => o.region
    case VariableAxis => o.variable
  }

  function TextColumn(data: seq<Observation>, a: Axis): (r: seq<string>)
    requires a != YearAxis
    ensures |r| == |data| && forall i :: 0 <= i < |data| ==> r[i] == TextOf(data[i], a)
  {
    seq(|data|, i requires 0 <= i < |data| => TextOf(data[i], a))
  }

  function YearColumn(data: seq<Observation>): (r: seq<int>)
    ensures |r| == |data| && forall i :: 0 <= i < |data| ==> r[i] == data[i].year
  {
    seq(|data|, i requires 0 <= i < |data| => data[i].year)
  }

  // ---------------------------------------------------------------------------------------------
  // keep_col_match

  /**
   * The strings `keep_col_match` loops over: a string stands for a one-element list. Any other
   * value fails as soon as the loop reaches an element (iterating an int, or compiling an int as
   * a pattern), so only an empty list or an empty range gets through.
   */
  function PatternsOf(col: string, v: FilterValue): (r: Result<seq<string>, Error>)
    ensures v.Str? ==> r == Ok([v.s])
    ensures v.StrList? ==> r == Ok(v.ss)
    ensures v.Int? ==> r == Err(NonStringPattern(col))
    ensures (v.IntList? || v.Range?) ==> r.Ok? ==> r.value == []
    ensures (v.IntList? && v.ns != []) || (v.Range? && v.start < v.stop) ==> r == Err(NonStringPattern(col))
    ensures r.Err? ==> r.error == NonStringPattern(col)
  {
    match v
    case Str(s) => Ok([s])
    case StrList(ss) => Ok(ss)
    case Int(_) => Err(NonStringPattern(col))
    case IntList(ns) => if ns == [] then Ok([]) else Err(NonStringPattern(col))
    case Range(start, stop) => if start < stop then Err(NonStringPattern(col)) else Ok([])
  }

  /** The row mask of one text axis: a row is kept iff at least one pattern matches it. */
  method KeepColMatch(col: seq<string>, patterns: seq<string>, pseudoRegex: bool) returns (keep: seq<bool>)
    requires forall p :: p in patterns ==> Supported(p, pseudoRegex)
    ensures |keep| == |col|
    ensures forall i :: 0 <= i < |col| ==>
              (keep[i] <==> exists p :: p in patterns && Matches(p, col[i], pseudoRegex))
  {
    keep := seq(|col|, _ => false);
    for j := 0 to |patterns|
      invariant |keep| == |col|
      invariant forall i :: 0 <= i < |col| ==>
                  (keep[i] <==> exists p :: p in patterns[..j] && Matches(p, col[i], pseudoRegex))
    {
      var p := patterns[j];
      assert p in patterns;
      var subset := seq(|col|, i requires 0 <= i < |col| => Matches(p, col[i], pseudoRegex));
      keep := seq(|col|, i requires 0 <= i < |col| => keep[i] || subset[i]);
      assert patterns[..j + 1] == patterns[..j] + [p];
    }
    assert patterns[..|patterns|] == patterns;
  }

  // ---------------------------------------------------------------------------------------------
  // keep_col_yr

  /** Python's `range(start, stop)`: the integers from `start` up to, not including, `stop`. */
  function PyRange(start: int, stop: int): (r: seq<int>)
    ensures |r| == if start < stop then stop - start else 0
    ensures forall y :: y in r <==> start <= y < stop
  {
    var r := seq(if start < stop then stop - start else 0, i => start + i);
    forall y | start <= y < stop ensures y in r {
      assert r[y - start] == y;
    }
    r
  }

  /** `col == yrs` for an int, `col.isin(yrs)` for a list or a range. */
  function YearHolds(v: FilterValue, y: int): bool {
    match v
    case Int(n) => y == n
    case IntList(ns) => y in ns
    case Range(start, stop) => y in PyRange(start, stop)
    case StrList(ss) => false  // no string is equal to an int year
    case Str(_) => false       // rejected by keep_col_yr
  }

  /** The row mask of the year axis. */
  function KeepColYear(col: seq<int>, v: FilterValue): (r: Result<seq<bool>, Error>)
    ensures r.Err? <==> v.Str?
    ensures r.Err? ==> r.error == UnsupportedYearFilter
    ensures r.Ok? ==> |r.value| == |col|
    ensures v.Int? ==> forall i :: 0 <= i < |col| ==> (r.value[i] <==> col[i] == v.n)
    ensures v.IntList? ==> forall i :: 0 <= i < |col| ==> (r.value[i] <==> col[i] in v.ns)
    ensures v.Range? ==> forall i :: 0 <= i < |col| ==> (r.value[i] <==> v.start <= col[i] < v.stop)
    ensures v.StrList? ==> forall i :: 0 <= i < |col| ==> !r.value[i]
  {
    if v.Str? then Err(UnsupportedYearFilter)
    else Ok(seq(|col|, i requires 0 <= i < |col| => YearHolds(v, col[i])))
  }

  /** `range(a, b)` selects exactly the years of the list [a, ..., b - 1]; the last year is excluded. */
  lemma RangeIsListOfItsYears(col: seq<int>, start: int, stop: int)
    ensures KeepColYear(col, Range(start, stop)) == KeepColYear(col, IntList(PyRange(start, stop)))
    ensures stop > start ==> forall i :: 0 <= i < |col| && col[i] == stop ==> !KeepColYear(col, Range(start, stop)).value[i]
  {
    var a := KeepColYear(col, Range(start, stop)).value;
    var b := KeepColYear(col, IntList(PyRange(start, stop))).value;
    assert |a| == |b| && forall i :: 0 <= i < |col| ==> a[i] == b[i];
    assert a == b;
  }

  // ---------------------------------------------------------------------------------------------
  // The meaning of a filter dict, row by row

  /** The patterns of a text-axis entry are in the supported fragment. */
  predicate SupportedEntry(e: (string, FilterValue)) {
    match AxisOf(e.0)
    case Some(a) =>
      a != YearAxis && PatternsOf(e.0, e.1).Ok? ==>
        forall p :: p in PatternsOf(e.0, e.1).value ==> Supported(p, a == VariableAxis)
    case None => true
  }

  predicate SupportedFilters(filters: Filters) {
    forall e :: e in filters ==> SupportedEntry(e)
  }

  /** The exception `select` raises for an entry, if any. */
  function EntryError(e: (string, FilterValue)): Option<Error> {
    match AxisOf(e.0)
    case None => Some(UnsupportedFilterColumn(e.0))
    case Some(YearAxis) => if e.1.Str? then Some(UnsupportedYearFilter) else None
    case Some(_) => if PatternsOf(e.0, e.1).Err? then Some(PatternsOf(e.0, e.1).error) else None
  }

  /** Entry `i` is the first entry in dict order whose column or value is not supported. */
  predicate FailsFirstAt(filters: Filters, i: int) {
    0 <= i < |filters| && EntryError(filters[i]).Some? && forall j :: 0 <= j < i ==> EntryError(filters[j]).None?
  }

  /** The exception of the first failing entry in dict order: `select` stops there. */
  function FirstError(filters: Filters): (r: Option<Error>)
    ensures r.Some? <==> exists e :: e in filters && EntryError(e).Some?
    ensures r.Some? ==> exists e :: e in filters && EntryError(e) == r
  {
    if filters == [] then None
    else if EntryError(filters[0]).Some? then EntryError(filters[0])
    else
      assert forall e :: e in filters ==> e == filters[0] || e in filters[1..];
      FirstError(filters[1..])
  }

  /** `select` raises the error of the FIRST failing entry in dict order, not of any failing entry. */
  lemma {:induction false} FirstErrorIsFirst(filters: Filters)
    ensures FirstError(filters).Some? ==>
              exists i :: FailsFirstAt(filters, i) && EntryError(filters[i]) == FirstError(filters)
  {
    if filters != [] && EntryError(filters[0]).None? && FirstError(filters).Some? {
      FirstErrorIsFirst(filters[1..]);
      var i :| FailsFirstAt(filters[1..], i) && EntryError(filters[1..][i]) == FirstError(filters);
      forall j | 0 <= j < i + 1 ensures EntryError(filters[j]).None? {
        if j > 0 {
          assert filters[j] == filters[1..][j - 1];
        }
      }
      assert FailsFirstAt(filters, i + 1);
    } else if filters != [] && FirstError(filters).Some? {
      assert FailsFirstAt(filters, 0);
    }
  }

  /** Whether a row satisfies one entry: some pattern matches, or the year is selected. */
  predicate EntryHolds(o: Observation, e: (string, FilterValue))
    requires SupportedEntry(e)
  {
    match AxisOf(e.0)
    case None => false
    case Some(YearAxis) => YearHolds(e.1, o.year)
    case Some(a) =>
      PatternsOf(e.0, e.1).Ok? &&
      exists p :: p in PatternsOf(e.0, e.1).value && Matches(p, TextOf(o, a), a == VariableAxis)
  }

  /** The reference meaning of a filter dict: a row is kept iff it satisfies every entry. */
  predicate RowSatisfies(o: Observation, filters: Filters)
    requires SupportedFilters(filters)
  {
    forall e :: e in filters ==> EntryHolds(o, e)
  }

  function RowMask(data: seq<Observation>, filters: Filters): (r: seq<bool>)
    requires SupportedFilters(filters)
    ensures |r| == |data| && forall i :: 0 <= i < |data| ==> r[i] == RowSatisfies(data[i], filters)
  {
    seq(|data|, i requires 0 <= i < |data| => RowSatisfies(data[i], filters))
  }

  /** What `select(filters)` returns without projection: the satisfying rows in table order, or the first error. */
  function Selected(data: seq<Observation>, filters: Filters): (r: Result<seq<Observation>, Error>)
    requires SupportedFilters(filters)
    ensures r.Err? <==> exists e :: e in filters && EntryError(e).Some?
    ensures r.Err? ==> FirstError(filters) == Some(r.error)
    ensures (exists e :: e in filters && AxisOf(e.0).None?) ==> r.Err?
    ensures r.Ok? ==> forall o :: o in r.value <==> o in data && RowSatisfies(o, filters)
    ensures filters == [] ==> r == Ok(data)
  {
    match FirstError(filters)
    case Some(err) => Err(err)
    case None =>
      var rows := Mask(data, RowMask(data, filters));
      assert forall o :: o in rows <==> o in data && RowSatisfies(o, filters) by {
        forall o | o in data && RowSatisfies(o, filters) ensures o in rows {
          var i :| 0 <= i < |data| && data[i] == o;
          assert RowMask(data, filters)[i];
        }
      }
      Ok(rows)
  }

  /**
   * `select` keeps table order: the i-th selected row is the row at the i-th position, in
   * increasing order, whose row satisfies the filters.
   */
  lemma SelectKeepsOrder(data: seq<Observation>, filters: Filters)
    requires SupportedFilters(filters) && Selected(data, filters).Ok?
    ensures var positions := KeptPositions(RowMask(data, filters));
            && |Selected(data, filters).value| == |positions|
            && (forall i, j :: 0 <= i < j < |positions| ==> positions[i] < positions[j])
            && forall i :: 0 <= i < |positions| ==>
                 positions[i] < |data| && RowSatisfies(data[positions[i]], filters)
                 && Selected(data, filters).value[i] == data[positions[i]]
  {
    MaskKeepsOrder(data, RowMask(data, filters));
  }

  lemma RowSatisfiesSnoc(o: Observation, filters: Filters, e: (string, FilterValue))
    requires SupportedFilters(filters) && SupportedEntry(e)
    ensures SupportedFilters(filters + [e])
    ensures RowSatisfies(o, filters + [e]) <==> RowSatisfies(o, filters) && EntryHolds(o, e)
  {
    assert forall x :: x in filters + [e] <==> x in filters || x == e;
  }

  /**
   * The per-column dispatch of `select`: the mask of one filter entry, from `keep_col_match`
   * (with the pseudo-regex on the variable axis) or `keep_col_yr`, or the exception it raises.
   */
  method EntryMask(data: seq<Observation>, e: (string, FilterValue)) returns (r: Result<seq<bool>, Error>)
    requires SupportedEntry(e)
    ensures r.Err? <==> EntryError(e).Some?
    ensures r.Err? ==> EntryError(e) == Some(r.error)
    ensures r.Ok? ==> |r.value| == |data| && forall i :: 0 <= i < |data| ==> (r.value[i] <==> EntryHolds(data[i], e))
  {
    var (col, values) := e;
    match AxisOf(col) {
      case None =>
        return Err(UnsupportedFilterColumn(col));
      case Some(YearAxis) =>
        r := KeepColYear(YearColumn(data), values);
      case Some(axis) =>
        var patterns := PatternsOf(col, values);
        if patterns.Err? {
          return Err(patterns.error);
        }
        var keepCol := KeepColMatch(TextColumn(data, axis), patterns.value, axis == VariableAxis);
        r := Ok(keepCol);
    }
  }

  /**
   * `select(filters)`: AND one mask per entry into a mask that starts all true, failing at the
   * first entry whose column or value is not supported, then keep the flagged rows.
   */
  method Select(data: seq<Observation>, filters: Filters) returns (r: Result<seq<Observation>, Error>)
    requires SupportedFilters(filters)
    ensures r == Selected(data, filters)
  {
    var keep := seq(|data|, _ => true);
    for j := 0 to |filters|
      invariant |keep| == |data|
      invariant FirstError(filters) == FirstError(filters[j..])
      invariant SupportedFilters(filters[..j])
      invariant forall i :: 0 <= i < |data| ==> (keep[i] <==> RowSatisfies(data[i], filters[..j]))
    {
      assert filters[j] in filters;
      assert filters[j..][0] == filters[j] && filters[j..][1..] == filters[j + 1..];
      var keepCol := EntryMask(data, filters[j]);
      if keepCol.Err? {
        return Err(keepCol.error);
      }
      assert filters[..j + 1] == filters[..j] + [filters[j]];
      forall i | 0 <= i < |data| {
        RowSatisfiesSnoc(data[i], filters[..j], filters[j]);
      }
      keep := seq(|data|, i requires 0 <= i < |data| => keep[i] && keepCol.value[i]);
    }
    assert filters[..|filters|] == filters;
    assert keep == RowMask(data, filters);
    r := Ok(Mask(data, keep));
  }

  /** An empty filter dict keeps every row, in order. */
  lemma EmptyFilterKeepsAll(data: seq<Observation>)
    ensures Selected(data, []) == Ok(data)
  {
  }

  // ---------------------------------------------------------------------------------------------
  // Dict assignment, as `check` uses it

  /** `filters[k] = v`: overwrite the entry for `k` where it stands, or append one. */
  function Put(filters: Filters, k: string, v: FilterValue): (r: Filters)
    ensures (k, v) in r
    ensures forall e :: e in r && e.0 == k ==> e.1 == v
    ensures forall e :: e in r && e.0 != k ==> e in filters
    ensures forall e :: e in filters && e.0 != k ==> e in r
  {
    if exists e :: e in filters && e.0 == k then
      var r := seq(|filters|, i requires 0 <= i < |filters| => if filters[i].0 == k then (k, v) else filters[i]);
      assert forall e :: e in filters && e.0 != k ==> e in r by {
        forall e | e in filters && e.0 != k ensures e in r {
          var i :| 0 <= i < |filters| && filters[i] == e;
          assert r[i] == e;
        }
      }
      var e :| e in filters && e.0 == k;
      var i :| 0 <= i < |filters| && filters[i] == e;
      assert r[i] == (k, v);
      r
    else
      filters + [(k, v)]
  }

  /** A row satisfies `filters[k] = v` iff it satisfies the new entry and every other-column entry. */
  lemma PutSemantics(o: Observation, filters: Filters, k: string, v: FilterValue)
    requires SupportedFilters(filters) && SupportedEntry((k, v))
    ensures SupportedFilters(Put(filters, k, v))
    ensures RowSatisfies(o, Put(filters, k, v)) <==>
              EntryHolds(o, (k, v)) && forall e :: e in filters && e.0 != k ==> EntryHolds(o, e)
  {
  }

  // ---------------------------------------------------------------------------------------------
  // Projection

  /** One cell of a projected row. */
  datatype Cell = Text(text: string) | YearCell(year: int) | ValueCell(value: real)

  /** The columns of the loaded table, in order. */
  const AllColumns: seq<string> := ["model", "scenario", "region", "variable", "unit", "year", "value"]

  function CellOf(o: Observation, col: string): (r: Option<Cell>)
    ensures r.Some? <==> col in AllColumns
  {
    if col == "model" then Some(Text(o.model))
    else if col == "scenario" then Some(Text(o.scenario))
    else if col == "region" then Some(Text(o.region))
    else if col == "variable" then Some(Text(o.variable))
    else if col == "unit" then Some(Text(o.unit))
    else if col == "year" then Some(YearCell(o.year))
    else if col == "value" then Some(ValueCell(o.value))
    else None
  }

  /** `df[cols]` for one row. */
  function ProjectRow(o: Observation, cols: seq<string>): (r: seq<Cell>)
    requires forall c :: c in cols ==> c in AllColumns
    ensures |r| == |cols| && forall i :: 0 <= i < |cols| ==> Some(r[i]) == CellOf(o, cols[i])
  {
    seq(|cols|, i requires 0 <= i < |cols| => CellOf(o, cols[i]).value)
  }

  function ProjectRows(rows: seq<Observation>, cols: seq<string>): (r: seq<seq<Cell>>)
    requires forall c :: c in cols ==> c in AllColumns
    ensures forall row :: row in r <==> exists o :: o in rows && row == ProjectRow(o, cols)
  {
    var r := seq(|rows|, i requires 0 <= i < |rows| => ProjectRow(rows[i], cols));
    assert forall o :: o in rows ==> ProjectRow(o, cols) in r by {
      forall o | o in rows ensures ProjectRow(o, cols) in r {
        var i :| 0 <= i < |rows| && rows[i] == o;
        assert r[i] == ProjectRow(o, cols);
      }
    }
    r
  }

  /** The first requested column the table does not have (pandas raises `KeyError`). */
  function MissingColumn(cols: seq<string>): (r: Option<string>)
    ensures r.None? <==> forall c :: c in cols ==> c in AllColumns
    ensures r.Some? ==> r.value in cols && r.value !in AllColumns
  {
    if cols == [] then None
    else if cols[0] !in AllColumns then Some(cols[0])
    else
      assert forall c :: c in cols ==> c == cols[0] || c in cols[1..];
      MissingColumn(cols[1..])
  }

  /**
   * `select(filters, cols, idx_cols)` as rows of cells. With `cols` the rows are projected onto
   * `cols + idx_cols` and duplicates are dropped; without, every row keeps every column. Which
   * columns form the pandas index is a matter of presentation and is not modelled,
   * but `set_index` raises on an `idx_cols` column the table lacks.
   */
  function SelectColumns(data: seq<Observation>, filters: Filters, cols: seq<string>, idxCols: seq<string>)
    : (r: Result<seq<seq<Cell>>, Error>)
    requires SupportedFilters(filters)
    ensures Selected(data, filters).Err? ==> r == Err(Selected(data, filters).error)
    ensures Selected(data, filters).Ok? && cols == [] ==>
              (r.Ok? <==> forall c :: c in idxCols ==> c in AllColumns)
    ensures r.Ok? && cols == [] ==>
              && |r.value| == |Selected(data, filters).value|
              && forall i :: 0 <= i < |r.value| ==> r.value[i] == ProjectRow(Selected(data, filters).value[i], AllColumns)
    ensures Selected(data, filters).Ok? && cols != [] ==>
              (r.Ok? <==> forall c :: c in cols + idxCols ==> c in AllColumns)
    ensures r.Ok? && cols != [] ==> NoDuplicates(r.value)
    ensures r.Ok? && cols != [] ==> forall row :: row in r.value <==>
              exists o :: o in Selected(data, filters).value && row == ProjectRow(o, cols + idxCols)
  {
    var rows :- Selected(data, filters);
    if cols == [] then
      match MissingColumn(idxCols)
      case Some(c) => Err(UnknownColumn(c))
      case None => Ok(seq(|rows|, i requires 0 <= i < |rows| => ProjectRow(rows[i], AllColumns)))
    else
      match MissingColumn(cols + idxCols)
      case Some(c) => Err(UnknownColumn(c))
      case None => Ok(Dedup(ProjectRows(rows, cols + idxCols)))
  }

  /** The text in the single cell of each row of a one-column text projection (`list(df[col])`). */
  function SingleTexts(rows: seq<seq<Cell>>): (r: seq<string>)
    requires forall row: seq<Cell> :: row in rows ==> |row| == 1 && row[0].Text?
    ensures NoDuplicates(rows) ==> NoDuplicates(r)
    ensures forall x :: x in r <==> [Text(x)] in rows
  {
    var r := seq(|rows|, i requires 0 <= i < |rows| => rows[i][0].text);
    assert forall i :: 0 <= i < |rows| ==> rows[i] == [Text(r[i])] by {
      forall i | 0 <= i < |rows| ensures rows[i] == [Text(r[i])] {
        assert rows[i] in rows;
      }
    }
    forall x | [Text(x)] in rows ensures x in r {
      var i :| 0 <= i < |rows| && rows[i] == [Text(x)];
      assert r[i] == x;
    }
    r
  }

  lemma ProjectOneTextColumn(o: Observation, col: string, x: string)
    requires col in ["model", "scenario", "region", "variable", "unit"]
    ensures ProjectRow(o, [col]) == [Text(x)] <==> CellOf(o, col) == Some(Text(x))
  {
    assert ProjectRow(o, [col]) == [CellOf(o, col).value];
  }

  /** Every row of a one-column text projection is a single text cell. */
  lemma OneTextColumnRows(selected: seq<Observation>, rows: seq<seq<Cell>>, col: string)
    requires col in ["model", "scenario", "region", "variable", "unit"]
    requires forall row :: row in rows ==> exists o :: o in selected && row == ProjectRow(o, [col])
    ensures forall row: seq<Cell> :: row in rows ==> |row| == 1 && row[0].Text?
  {
    forall row: seq<Cell> | row in rows ensures |row| == 1 && row[0].Text? {
      var o :| o in selected && row == ProjectRow(o, [col]);
      assert row == [CellOf(o, col).value];
    }
  }

  /** `list(select(filters, [col])[col])` for a text column: each value of the selected rows once. */
  function ColumnValues(data: seq<Observation>, filters: Filters, col: string): (r: Result<seq<string>, Error>)
    requires SupportedFilters(filters)
    requires col in ["model", "scenario", "region", "variable", "unit"]
    ensures r.Ok? <==> Selected(data, filters).Ok?
    ensures r.Ok? ==> NoDuplicates(r.value)
    ensures r.Ok? ==> forall x :: x in r.value <==>
              exists o :: o in Selected(data, filters).value && CellOf(o, col) == Some(Text(x))
  {
    match SelectColumns(data, filters, [col], [])
    case Err(e) => Err(e)
    case Ok(rows: seq<seq<Cell>>) =>
      assert [col] + [] == [col];
      OneTextColumnRows(Selected(data, filters).value, rows, col);
      forall o, x {
        ProjectOneTextColumn(o, col, x);
      }
      Ok(SingleTexts(rows))
  }

  /** `models(filters)`: every model of the selected rows, each once. */
  function Models(data: seq<Observation>, filters: Filters): (r: Result<seq<string>, Error>)
    requires SupportedFilters(filters)
    ensures r.Ok? <==> Selected(data, filters).Ok?
    ensures r.Ok? ==> NoDuplicates(r.value)
    ensures r.Ok? ==> forall m :: m in r.value <==> exists o :: o in Selected(data, filters).value && o.model == m
  {
    ColumnValues(data, filters, "model")
  }

  /** `scenarios(filters)`: every scenario of the selected rows, each once. */
  function Scenarios(data: seq<Observation>, filters: Filters): (r: Result<seq<string>, Error>)
    requires SupportedFilters(filters)
    ensures r.Ok? <==> Selected(data, filters).Ok?
    ensures r.Ok? ==> NoDuplicates(r.value)
    ensures r.Ok? ==> forall s :: s in r.value <==> exists o :: o in Selected(data, filters).value && o.scenario == s
  {
    ColumnValues(data, filters, "scenario")
  }

  /** `variables(filters)`: every variable of the selected rows, each once. */
  function Variables(data: seq<Observation>, filters: Filters): (r: Result<seq<string>, Error>)
    requires SupportedFilters(filters)
    ensures r.Ok? <==> Selected(data, filters).Ok?
    ensures r.Ok? ==> NoDuplicates(r.value)
    ensures r.Ok? ==> forall v :: v in r.value <==> exists o :: o in Selected(data, filters).value && o.variable == v
  {
    ColumnValues(data, filters, "variable")
  }
}
