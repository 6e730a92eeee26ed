/** The model layer of the application (src/data_handler.py): validation
    of a parsed CSV table, the structural queries on a loaded table, the
    percentage-change view of one indicator between two year columns, and
    the column-sort toggle of the table view. */
module Handler {
  import opened Wrappers
  import opened Text
  import opened Floats
  import opened Ordering

  const COUNTRY: string := "COUNTRY"
  const INDICATOR: string := "INDICATOR"
  const DELTA: string := "delta"

  // ---------------------------------------------------------------------
  // tables

  /** A column with the dtype pandas inferred for it: text (object or
      string dtype) or numbers (int64 or float64, held as float64). */
  datatype Column = TextColumn(texts: seq<string>) | NumericColumn(values: seq<Float>)
  {
    function Length(): nat {
      match this
      case TextColumn(texts) => |texts|
      case NumericColumn(values) => |values|
    }
  }

  /** A table as the CSV reader hands it over: the header, and one column
      per header name, all of the same length. */
  datatype Table = Table(header: seq<string>, columns: seq<Column>)
  {
    predicate WellFormed() {
      |header| == |columns| &&
      forall i, j :: 0 <= i < |columns| && 0 <= j < |columns| ==>
        columns[i].Length() == columns[j].Length()
    }
  }

  /** `columns.str.strip()`: the column names with the surrounding
      whitespace removed. */
  function StripNames(h: seq<string>): (r: seq<string>)
    ensures |r| == |h|
  {
    if |h| == 0 then [] else StripNames(h[..|h| - 1]) + [Strip(h[|h| - 1])]
  }

  /** Each name is stripped in its place. */
  lemma {:induction false} StripNamesAt(h: seq<string>, i: nat)
    requires i < |h|
    ensures StripNames(h)[i] == Strip(h[i])
  {
    if i < |h| - 1 {
      StripNamesAt(h[..|h| - 1], i);
    }
  }

  /** The table with its column names stripped. */
  function Stripped(t: Table): (s: Table)
    ensures s.columns == t.columns && s.header == StripNames(t.header)
    ensures t.WellFormed() ==> s.WellFormed()
  {
    Table(StripNames(t.header), t.columns)
  }

  /** The first position of `name` in `h`, or `|h|` when it is absent. */
  function IndexOf(h: seq<string>, name: string): (k: nat)
    ensures k <= |h|
    ensures k < |h| <==> name in h
    ensures k < |h| ==> h[k] == name
    ensures forall j :: 0 <= j < k ==> h[j] != name
  {
    if |h| == 0 then 0
    else if h[0] == name then 0
    else 1 + IndexOf(h[1..], name)
  }

  // ---------------------------------------------------------------------
  // validation

  /** A table `load_file` accepts, named by its stripped header: both
      required columns, year names from the third column on (stripped, so
      exactly four digits), text in the first two columns and numbers in
      the others. */
  predicate IsDataset(t: Table)
    ensures IsDataset(t) ==> t.WellFormed() && FirstError(t).None?
  {
    t.WellFormed() && |t.columns| >= 2 &&
    COUNTRY in t.header && INDICATOR in t.header &&
    (forall i :: 2 <= i < |t.header| ==> IsYearName(t.header[i]) && |t.header[i]| == 4) &&
    t.columns[0].TextColumn? && t.columns[1].TextColumn? &&
    (forall i :: 2 <= i < |t.columns| ==> t.columns[i].NumericColumn?)
  }

  /** Why `load_file` refused a table (InvalidFileFormatError). The type
      errors carry the position of the offending column. */
  datatype LoadError =
    | MissingRequiredColumns
    | InvalidYearColumn(name: string)
    | NotText(position: nat)
    | NotNumeric(position: nat)

  /** Two different names in `h` make it at least two long. */
  lemma RequiredNeedTwo(h: seq<string>)
    requires COUNTRY in h && INDICATOR in h
    ensures |h| >= 2
  {
    var c := IndexOf(h, COUNTRY);
    var d := IndexOf(h, INDICATOR);
    assert c != d;
  }

  /** The first position from `i` on whose name is not a year name. */
  function FirstNonYear(h: seq<string>, i: nat): (k: nat)
    requires i <= |h|
    ensures i <= k <= |h|
    ensures forall j :: i <= j < k ==> IsYearName(h[j])
    ensures k < |h| ==> !IsYearName(h[k])
    decreases |h| - i
  {
    if i == |h| || !IsYearName(h[i]) then i else FirstNonYear(h, i + 1)
  }

  /** The first position from `i` on whose column is not numeric. */
  function FirstNonNumeric(cs: seq<Column>, i: nat): (k: nat)
    requires i <= |cs|
    ensures i <= k <= |cs|
    ensures forall j :: i <= j < k ==> cs[j].NumericColumn?
    ensures k < |cs| ==> !cs[k].NumericColumn?
    decreases |cs| - i
  {
    if i == |cs| || !cs[i].NumericColumn? then i else FirstNonNumeric(cs, i + 1)
  }

  /** The error `load_file` reports for a table whose names it has
      stripped, checks taken in their order: required names, year names,
      text columns, numeric columns; None when it accepts the table. */
  function FirstError(t: Table): (e: Option<LoadError>)
    requires t.WellFormed()
    ensures e == Some(MissingRequiredColumns) <==> COUNTRY !in t.header || INDICATOR !in t.header
  {
    var h := t.header;
    if COUNTRY !in h || INDICATOR !in h then Some(MissingRequiredColumns)
    else
      RequiredNeedTwo(h);
      var y := FirstNonYear(h, 2);
      if y < |h| then Some(InvalidYearColumn(h[y]))
      else if !t.columns[0].TextColumn? then Some(NotText(0))
      else if !t.columns[1].TextColumn? then Some(NotText(1))
      else
        var c := FirstNonNumeric(t.columns, 2);
        if c < |t.columns| then Some(NotNumeric(c)) else None
  }

  /** `load_file` accepts a table exactly when its stripped form is a
      dataset. */
  lemma LoadAcceptsExactly(raw: Table)
    requires raw.WellFormed()
    ensures FirstError(Stripped(raw)).None? <==> IsDataset(Stripped(raw))
  {
    var t := Stripped(raw);
    var h := t.header;
    if COUNTRY in h && INDICATOR in h {
      RequiredNeedTwo(h);
      var y := FirstNonYear(h, 2);
      var c := FirstNonNumeric(t.columns, 2);
      if y < |h| {
        assert !IsDataset(t) by { assert !IsYearName(h[y]); }
      }
      if c < |t.columns| {
        assert !IsDataset(t) by { assert !t.columns[c].NumericColumn?; }
      }
      forall i | 2 <= i < |h| && IsYearName(h[i])
        ensures |h[i]| == 4
      {
        StripNamesAt(raw.header, i);
        StrippedYearName(raw.header[i]);
      }
    }
  }

  /** A stripped name of the year pattern has no newline left after it. */
  lemma StrippedYearName(s: string)
    requires IsYearName(Strip(s))
    ensures |Strip(s)| == 4
  {
  }

  /** A name made of letters is no year name. */
  lemma NotYearName(s: string)
    requires |s| > 0 && !IsDigit(s[0])
    ensures !IsYearName(s)
  {
    if |s| >= 4 {
      assert s[..4][0] == s[0];
    }
  }

  /** As the year check is by position, the two required columns of a
      dataset are its first two, in either order, and every later column
      is a year column. */
  lemma DatasetLayout(t: Table)
    requires IsDataset(t)
    ensures {t.header[0], t.header[1]} == {COUNTRY, INDICATOR}
    ensures IndexOf(t.header, COUNTRY) < 2 && IndexOf(t.header, INDICATOR) < 2
  {
    NotYearName(COUNTRY);
    NotYearName(INDICATOR);
  }

  /** A column other than the two required ones sits at position two or
      later, so it holds numbers. */
  lemma ValueColumnPosition(t: Table, name: string)
    requires IsDataset(t) && name in t.header && name != COUNTRY && name != INDICATOR
    ensures 2 <= IndexOf(t.header, name)
    ensures t.columns[IndexOf(t.header, name)].NumericColumn?
  {
    DatasetLayout(t);
  }

  // ---------------------------------------------------------------------
  // queries

  /** The cells of the COUNTRY column. */
  function CountryTexts(t: Table): (r: seq<string>)
    requires IsDataset(t)
    ensures |r| == t.columns[0].Length()
  {
    DatasetLayout(t);
    t.columns[IndexOf(t.header, COUNTRY)].texts
  }

  /** The cells of the INDICATOR column. */
  function IndicatorTexts(t: Table): (r: seq<string>)
    requires IsDataset(t)
    ensures |r| == t.columns[0].Length()
  {
    DatasetLayout(t);
    t.columns[IndexOf(t.header, INDICATOR)].texts
  }

  /** `get_indicators`: the distinct indicators of the table, ascending. */
  function Indicators(t: Table): (r: seq<string>)
    requires IsDataset(t)
    ensures forall x :: x in r <==> x in IndicatorTexts(t)
    ensures forall i, j :: 0 <= i < j < |r| ==> StrLt(r[i], r[j])
  {
    SortedUnique(IndicatorTexts(t))
  }

  /** `get_years_columns`: the names from the third column on, in file
      order; each names a year and none is a required column. */
  function YearColumns(t: Table): (r: seq<string>)
    requires IsDataset(t)
    ensures |r| + 2 == |t.header|
    ensures forall i :: 0 <= i < |r| ==> r[i] == t.header[i + 2] && IsYearName(r[i]) && |r[i]| == 4
    ensures COUNTRY !in r && INDICATOR !in r
  {
    NotYearName(COUNTRY);
    NotYearName(INDICATOR);
    t.header[2..]
  }

  // ---------------------------------------------------------------------
  // the percentage-change view

  /** One line of the view: a country, its two year values and the change. */
  datatype DeltaRow = DeltaRow(country: string, start: Float, end: Float, delta: Float)

  /** The frame `get_delta_df` builds, with the columns
      COUNTRY, <start year>, <end year>, delta. */
  datatype DeltaView = DeltaView(startYear: string, endYear: string, rows: seq<DeltaRow>)
  {
    function Columns(): seq<string> {
      [COUNTRY, startYear, endYear, DELTA]
    }
  }

  /** Why `get_delta_df` failed: a year column the filtered frame lacks
      (KeyError), or the same column chosen twice, which makes the change
      two columns wide and its assignment to `delta` fail (ValueError). */
  datatype DeltaError = MissingColumn(name: string) | SameYear

  /** The row for one country, its change rounded to three decimals. */
  function MakeRow(country: string, start: Float, end: Float): DeltaRow {
    DeltaRow(country, start, end, PctChange(start, end, 3))
  }

  /** The positions, ascending, whose indicator is `indicator`. */
  function Positions(indicators: seq<string>, indicator: string): (ks: seq<nat>)
    ensures forall k :: 0 <= k < |ks| ==> ks[k] < |indicators| && indicators[ks[k]] == indicator
    ensures forall k, l :: 0 <= k < l < |ks| ==> ks[k] < ks[l]
  {
    if |indicators| == 0 then []
    else
      var n := |indicators| - 1;
      var ks := Positions(indicators[..n], indicator);
      if indicators[n] == indicator then ks + [n] else ks
  }

  /** Every row of the indicator is selected. */
  lemma {:induction false} PositionsComplete(indicators: seq<string>, indicator: string, i: nat)
    requires i < |indicators| && indicators[i] == indicator
    ensures i in Positions(indicators, indicator)
  {
    var n := |indicators| - 1;
    if i < n {
      PositionsComplete(indicators[..n], indicator, i);
    }
  }

  /** The rows of the chosen indicator, in file order: one row per
      position `Positions` selects, which is where its meaning comes from
      (see `Positions` and `PositionsComplete`). */
  function Matching(countries: seq<string>, indicators: seq<string>, starts: seq<Float>,
                    ends: seq<Float>, indicator: string): (rows: seq<DeltaRow>)
    requires |indicators| == |countries| && |starts| == |countries| && |ends| == |countries|
    ensures var ks := Positions(indicators, indicator);
      |rows| == |ks| &&
      forall k :: 0 <= k < |ks| ==> rows[k] == MakeRow(countries[ks[k]], starts[ks[k]], ends[ks[k]])
  {
    var ks := Positions(indicators, indicator);
    seq(|ks|, k requires 0 <= k < |ks| => MakeRow(countries[ks[k]], starts[ks[k]], ends[ks[k]]))
  }

  /** An indicator that occurs nowhere selects no row. */
  lemma NoPositions(indicators: seq<string>, indicator: string)
    ensures indicator !in indicators ==> Positions(indicators, indicator) == []
  {
  }

  /** A column the filtered frame offers: any name of the table except the
      dropped INDICATOR column. */
  predicate IsValueColumn(t: Table, name: string) {
    name in t.header && name != INDICATOR
  }

  /** The numbers of the value column `name`. */
  function ValuesOf(t: Table, name: string): (r: seq<Float>)
    requires IsDataset(t) && IsValueColumn(t, name) && name != COUNTRY
    ensures |r| == t.columns[0].Length()
  {
    ValueColumnPosition(t, name);
    t.columns[IndexOf(t.header, name)].values
  }

  function CountryKey(row: DeltaRow): Key {
    Str(row.country)
  }

  /** `get_delta_df`: the rows of `indicator` ordered by country, each with
      its start and end values and their percentage change rounded to
      three decimals. An indicator that occurs nowhere gives no rows. */
  function DeltaDf(t: Table, indicator: string, startYear: string, endYear: string): (r: Result<DeltaView, DeltaError>)
    requires IsDataset(t)
    requires startYear != COUNTRY && endYear != COUNTRY
    ensures !IsValueColumn(t, startYear) ==> r == Err(MissingColumn(startYear))
    ensures IsValueColumn(t, startYear) && !IsValueColumn(t, endYear) ==> r == Err(MissingColumn(endYear))
    ensures IsValueColumn(t, startYear) && IsValueColumn(t, endYear) ==> (r.Ok? <==> startYear != endYear)
    ensures r.Ok? ==> r.value.startYear == startYear && r.value.endYear == endYear
    ensures r.Ok? ==> SortedBy(r.value.rows, CountryKey, true)
    ensures r.Ok? ==> (multiset(r.value.rows) ==
      multiset(Matching(CountryTexts(t), IndicatorTexts(t), ValuesOf(t, startYear), ValuesOf(t, endYear), indicator)))
    ensures r.Ok? && indicator !in IndicatorTexts(t) ==> r.value.rows == []
  {
    if !IsValueColumn(t, startYear) then Err(MissingColumn(startYear))
    else if !IsValueColumn(t, endYear) then Err(MissingColumn(endYear))
    else if startYear == endYear then Err(SameYear)
    else
      var rows := Matching(CountryTexts(t), IndicatorTexts(t), ValuesOf(t, startYear), ValuesOf(t, endYear), indicator);
      NoPositions(IndicatorTexts(t), indicator);
      var sorted := SortBy(rows, CountryKey, true);
      Ok(DeltaView(startYear, endYear, sorted))
  }

  /** Every row of the view carries the rounded change between its own
      start and end values. */
  lemma DeltaRowsChange(t: Table, indicator: string, startYear: string, endYear: string)
    requires IsDataset(t) && startYear != COUNTRY && endYear != COUNTRY
    requires DeltaDf(t, indicator, startYear, endYear).Ok?
    ensures forall row :: row in DeltaDf(t, indicator, startYear, endYear).value.rows ==>
      row.delta == PctChange(row.start, row.end, 3)
  {
    var v := DeltaDf(t, indicator, startYear, endYear).value;
    var m := Matching(CountryTexts(t), IndicatorTexts(t), ValuesOf(t, startYear), ValuesOf(t, endYear), indicator);
    forall row | row in v.rows
      ensures row.delta == PctChange(row.start, row.end, 3)
    {
      assert row in multiset(v.rows);
      assert row in multiset(m);
      var k :| 0 <= k < |m| && m[k] == row;
    }
  }

  /** A small table: Spain and France report GDP, France also population. */
  function SampleTable(): Table {
    Table(["COUNTRY", "INDICATOR", "2000", "2001"],
          [TextColumn(["Spain", "France", "France"]),
           TextColumn(["GDP", "GDP", "POP"]),
           NumericColumn([Fin(100.0), Fin(50.0), Fin(10.0)]),
           NumericColumn([Fin(80.0), Fin(75.0), Fin(12.0)])])
  }

  lemma SampleIsDataset()
    ensures IsDataset(SampleTable())
  {
    var t := SampleTable();
    SampleYears();
    assert t.header[0] == COUNTRY && t.header[1] == INDICATOR;
  }

  /** The year columns of the sample table are named like years. */
  lemma SampleYears()
    ensures IsYearName("2000") && IsYearName("2001")
  {
  }

  lemma SampleIndicators()
    ensures IsDataset(SampleTable())
    ensures IndicatorTexts(SampleTable()) == ["GDP", "GDP", "POP"]
  {
    SampleIsDataset();
  }

  /** One more indicator adds its position exactly when it is the one
      sought. */
  lemma PositionsAppend(indicators: seq<string>, x: string, indicator: string)
    ensures Positions(indicators + [x], indicator) ==
      if x == indicator then Positions(indicators, indicator) + [|indicators|] else Positions(indicators, indicator)
  {
    assert (indicators + [x])[..|indicators|] == indicators;
  }

  lemma SamplePositions()
    ensures Positions(["GDP", "GDP", "POP"], "GDP") == [0, 1]
  {
    assert "POP" != "GDP" by {
      assert "POP"[0] != "GDP"[0];
    }
    PositionsOfTwo("GDP", "POP");
  }

  /** Two rows of `g` followed by one of another indicator. */
  lemma PositionsOfTwo(g: string, p: string)
    requires p != g
    ensures Positions([g, g, p], g) == [0, 1]
  {
    var none: seq<string> := [];
    assert Positions(none, g) == [];
    PositionsAppend(none, g, g);
    assert none + [g] == [g];
    assert Positions([g], g) == [0];
    PositionsAppend([g], g, g);
    assert [g] + [g] == [g, g];
    assert Positions([g, g], g) == [0, 1];
    PositionsAppend([g, g], p, g);
    assert [g, g] + [p] == [g, g, p];
  }

  lemma SampleColumns()
    ensures IsDataset(SampleTable())
    ensures CountryTexts(SampleTable()) == ["Spain", "France", "France"]
    ensures ValuesOf(SampleTable(), "2000") == [Fin(100.0), Fin(50.0), Fin(10.0)]
    ensures ValuesOf(SampleTable(), "2001") == [Fin(80.0), Fin(75.0), Fin(12.0)]
  {
    SampleIsDataset();
  }

  /** The GDP rows of the small table, in file order: Spain, then France. */
  lemma SampleRows()
    ensures IsDataset(SampleTable())
    ensures Matching(CountryTexts(SampleTable()), IndicatorTexts(SampleTable()),
                     ValuesOf(SampleTable(), "2000"), ValuesOf(SampleTable(), "2001"), "GDP") ==
      [DeltaRow("Spain", Fin(100.0), Fin(80.0), Fin(-20.0)),
       DeltaRow("France", Fin(50.0), Fin(75.0), Fin(50.0))]
  {
    SampleIndicators();
    SamplePositions();
    SampleColumns();
    var t := SampleTable();
    MatchingOfFirstTwo(CountryTexts(t), IndicatorTexts(t), ValuesOf(t, "2000"), ValuesOf(t, "2001"), "GDP");
    PctChangeExamples();
  }

  /** When the first two rows are the only ones of `indicator`, they are
      the view's rows. */
  lemma MatchingOfFirstTwo(countries: seq<string>, indicators: seq<string>, starts: seq<Float>,
                           ends: seq<Float>, indicator: string)
    requires |indicators| == |countries| && |starts| == |countries| && |ends| == |countries|
    requires |countries| >= 2 && Positions(indicators, indicator) == [0, 1]
    ensures Matching(countries, indicators, starts, ends, indicator) ==
      [MakeRow(countries[0], starts[0], ends[0]), MakeRow(countries[1], starts[1], ends[1])]
  {
  }

  /** Ordering by country puts France before Spain. */
  lemma SampleSorted(france: DeltaRow, spain: DeltaRow)
    requires france.country == "France" && spain.country == "Spain"
    ensures SortBy([spain, france], CountryKey, true) == [france, spain]
  {
    assert [spain, france][..1] == [spain];
    assert SortBy([spain], CountryKey, true) == [spain] by {
      assert [spain][..0] == [];
    }
    assert Precedes(CountryKey(france), CountryKey(spain), true) by {
      assert StrLe("France", "Spain");
    }
    assert Insert(france, [spain], CountryKey, true) == [france, spain];
  }

  /** On the small table, the GDP view lists France (50 to 75: +50 %)
      before Spain (100 to 80: -20 %). */
  lemma SampleDelta()
    ensures IsDataset(SampleTable())
    ensures DeltaDf(SampleTable(), "GDP", "2000", "2001") ==
      Ok(DeltaView("2000", "2001",
        [DeltaRow("France", Fin(50.0), Fin(75.0), Fin(50.0)),
         DeltaRow("Spain", Fin(100.0), Fin(80.0), Fin(-20.0))]))
  {
    SampleRows();
    SampleSorted(DeltaRow("France", Fin(50.0), Fin(75.0), Fin(50.0)),
                 DeltaRow("Spain", Fin(100.0), Fin(80.0), Fin(-20.0)));
  }

  // ---------------------------------------------------------------------
  // sorting the view by a clicked column

  /** The sort key of a row for the view's column `icol`. */
  function CellKey(icol: nat, row: DeltaRow): Key {
    if icol == 0 then Str(row.country)
    else if icol == 1 then Num(row.start)
    else if icol == 2 then Num(row.end)
    else Num(row.delta)
  }

  function ColumnKey(icol: nat): DeltaRow -> Key {
    row => CellKey(icol, row)
  }

  /** The checks of `load_file` on a table whose names are stripped, in
      their order, stopping at the first that fails. */
  method Validate(t: Table) returns (err: Option<LoadError>)
    requires t.WellFormed()
    ensures err == FirstError(t)
  {
    var h := t.header;
    if COUNTRY !in h || INDICATOR !in h {
      return Some(MissingRequiredColumns);
    }
    RequiredNeedTwo(h);
    var i := 2;
    while i < |h|
      invariant 2 <= i <= |h|
      invariant forall j :: 2 <= j < i ==> IsYearName(h[j])
    {
      if !IsYearName(h[i]) {
        return Some(InvalidYearColumn(h[i]));
      }
      i := i + 1;
    }
    i := 0;
    while i < 2
      invariant 0 <= i <= 2
      invariant forall j :: 0 <= j < i ==> t.columns[j].TextColumn?
    {
      if !t.columns[i].TextColumn? {
        return Some(NotText(i));
      }
      i := i + 1;
    }
    i := 2;
    while i < |t.columns|
      invariant 2 <= i <= |t.columns|
      invariant forall j :: 2 <= j < i ==> t.columns[j].NumericColumn?
    {
      if !t.columns[i].NumericColumn? {
        return Some(NotNumeric(i));
      }
      i := i + 1;
    }
    return None;
  }

  /** The state `load_file` and `toggle_sort` keep: the loaded table, the
      sort direction (0 ascending, 1 descending) and the column clicked
      last (-1 before any click). */
  class DataHandler {
    var df: Option<Table>
    var toggle: int
    var icolPrec: int

    predicate Valid()
      reads this
    {
      (toggle == 0 || toggle == 1) && (df.Some? ==> IsDataset(df.value))
    }

    constructor()
      ensures df == None && toggle == 0 && icolPrec == -1
      ensures Valid()
    {
      df := None;
      toggle := 0;
      icolPrec := -1;
    }

    /** `load_file`: keeps the table with stripped names if it passes every
        check; on the first failing check drops whatever was loaded before
        and reports that check. */
    method LoadFile(raw: Table) returns (err: Option<LoadError>)
      requires raw.WellFormed() && Valid()
      modifies this
      ensures err == FirstError(Stripped(raw))
      ensures df == (if err.None? then Some(Stripped(raw)) else None)
      ensures toggle == old(toggle) && icolPrec == old(icolPrec)
      ensures Valid()
    {
      var t := Stripped(raw);
      df := Some(t);
      err := Validate(t);
      if err.Some? {
        df := None;
      } else {
        LoadAcceptsExactly(raw);
      }
    }

    /** `toggle_sort`: a click on a new column sorts it ascending, a second
        click on the same column reverses the direction. The result holds
        the same rows, ordered by that column, NaN last. */
    method ToggleSort(icol: int, v: DeltaView) returns (r: DeltaView)
      requires 0 <= icol < 4 && Valid()
      modifies this
      ensures icolPrec == icol
      ensures toggle == (if old(icolPrec) != icol then 0 else 1 - old(toggle))
      ensures df == old(df) && Valid()
      ensures r.startYear == v.startYear && r.endYear == v.endYear
      ensures SortedBy(r.rows, ColumnKey(icol), toggle == 0)
      ensures multiset(r.rows) == multiset(v.rows)
    {
      if icolPrec != icol {
        toggle := 0;
      } else {
        toggle := 1 - toggle;
      }
      icolPrec := icol;
      if toggle == 0 {
        r := DeltaView(v.startYear, v.endYear, SortBy(v.rows, ColumnKey(icol), true));
      } else {
        r := DeltaView(v.startYear, v.endYear, SortBy(v.rows, ColumnKey(icol), false));
      }
    }
  }
}
