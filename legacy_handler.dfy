/** The earlier model layer (data_handler.py at the top of the repository):
    no validation, categories, and a one-column table of percentage changes
    rounded to two decimals, indexed by country. */
module LegacyHandler {
  import opened Wrappers
  import opened Text
  import opened Floats
  import opened Ordering
  import opened Handler

  /** An exception `get_categories` or `get_delta_df` lets through: a
      column that is not there (KeyError), or text where the subtraction
      needs numbers (TypeError). */
  datatype LegacyError = KeyError(name: string) | TypeError(name: string)

  /** One line of the result: a country and its change, None standing for
      Python's None. */
  datatype CountryChange = CountryChange(country: string, change: Option<Float>)

  /** The frame `get_delta_df` returns: one column, named
      "<start>-<end>", indexed by country. */
  datatype ChangeTable = ChangeTable(column: string, rows: seq<CountryChange>)

  /** The columns named COUNTRY and INDICATOR, where the table has them,
      hold text. */
  predicate TextKeys(t: Table) {
    t.WellFormed() &&
    (COUNTRY in t.header ==> t.columns[IndexOf(t.header, COUNTRY)].TextColumn?) &&
    (INDICATOR in t.header ==> t.columns[IndexOf(t.header, INDICATOR)].TextColumn?)
  }

  /** The cells of a text column the table has. */
  function TextsOf(t: Table, name: string): (r: seq<string>)
    requires TextKeys(t) && (name == COUNTRY || name == INDICATOR) && name in t.header
    ensures |r| == t.columns[0].Length()
  {
    t.columns[IndexOf(t.header, name)].texts
  }

  /** `get_categories`: the distinct indicators, ascending; KeyError when
      the table has no INDICATOR column. */
  function Categories(t: Table): (r: Result<seq<string>, LegacyError>)
    requires TextKeys(t)
    ensures r.Err? <==> INDICATOR !in t.header
    ensures r.Err? ==> r.error == KeyError(INDICATOR)
    ensures r.Ok? ==> forall x :: x in r.value <==> x in TextsOf(t, INDICATOR)
    ensures r.Ok? ==> forall i, j :: 0 <= i < j < |r.value| ==> StrLt(r.value[i], r.value[j])
  {
    if INDICATOR !in t.header then Err(KeyError(INDICATOR))
    else Ok(SortedUnique(TextsOf(t, INDICATOR)))
  }

  /** `calculate_delta` on the two looked-up values: None when either is
      None, otherwise the change rounded to two decimals. */
  function CalculateDelta(vStart: Option<Float>, vEnd: Option<Float>): (r: Option<Float>)
    ensures r.None? <==> vStart.None? || vEnd.None?
    ensures r.Some? ==> r.value == PctChange(vStart.value, vEnd.value, 2)
  {
    if vEnd.Some? && vStart.Some? then Some(PctChange(vStart.value, vEnd.value, 2))
    else None
  }

  /** From 3 to 4 is a rise of 33.33 %: two decimals, not three. */
  lemma CalculateDeltaTwoDecimals()
    ensures CalculateDelta(Some(Fin(3.0)), Some(Fin(4.0))) == Some(Fin(33.33))
  {
    var p := (4.0 - 3.0) / 3.0 * 100.0;
    PctChangeFinite(3.0, 4.0, 2);
    assert Pow10(2) == 100;
    assert Scaled(p, 2) == 10000.0 / 3.0;
    RoundHalfEvenUnique(Scaled(p, 2), 3333);
    assert RoundTo(p, 2) == 33.33;
  }

  /** A value column after `set_index('COUNTRY')` and the drop of
      INDICATOR: any name of the table but those two. */
  predicate IsLookupColumn(t: Table, name: string) {
    name in t.header && name != COUNTRY && name != INDICATOR
  }

  /** The change of each row of `category`, in file order: one row per
      position `Positions` selects, which is where its meaning comes from
      (see `Positions` and `PositionsComplete`). */
  function CategoryChanges(countries: seq<string>, indicators: seq<string>, starts: seq<Float>,
                           ends: seq<Float>, category: string): (rows: seq<CountryChange>)
    requires |indicators| == |countries| && |starts| == |countries| && |ends| == |countries|
    ensures var ks := Positions(indicators, category);
      |rows| == |ks| &&
      forall k :: 0 <= k < |ks| ==>
        rows[k] == CountryChange(countries[ks[k]], CalculateDelta(Some(starts[ks[k]]), Some(ends[ks[k]])))
  {
    var ks := Positions(indicators, category);
    seq(|ks|, k requires 0 <= k < |ks| =>
      CountryChange(countries[ks[k]], CalculateDelta(Some(starts[ks[k]]), Some(ends[ks[k]]))))
  }

  function ChangeKey(row: CountryChange): Key {
    Str(row.country)
  }

  /** The check the first looked-up value meets before the subtraction:
      the end column is read first, then the start column. A name that is
      missing, or is one of the two dropped key columns, raises KeyError;
      a text column raises TypeError at the subtraction. */
  function LookupError(t: Table, startYear: string, endYear: string): (e: Option<LegacyError>)
    requires t.WellFormed()
    ensures e.None? <==>
      IsLookupColumn(t, endYear) && IsLookupColumn(t, startYear) &&
      t.columns[IndexOf(t.header, endYear)].NumericColumn? &&
      t.columns[IndexOf(t.header, startYear)].NumericColumn?
    ensures !IsLookupColumn(t, endYear) ==> e == Some(KeyError(endYear))
    ensures IsLookupColumn(t, endYear) && !IsLookupColumn(t, startYear) ==> e == Some(KeyError(startYear))
    ensures IsLookupColumn(t, endYear) && IsLookupColumn(t, startYear) &&
      !t.columns[IndexOf(t.header, endYear)].NumericColumn?
      ==> e == Some(TypeError(endYear))
    ensures IsLookupColumn(t, endYear) && IsLookupColumn(t, startYear) &&
      t.columns[IndexOf(t.header, endYear)].NumericColumn? &&
      !t.columns[IndexOf(t.header, startYear)].NumericColumn?
      ==> e == Some(TypeError(startYear))
  {
    if !IsLookupColumn(t, endYear) then Some(KeyError(endYear))
    else if !IsLookupColumn(t, startYear) then Some(KeyError(startYear))
    else if !t.columns[IndexOf(t.header, endYear)].NumericColumn? then Some(TypeError(endYear))
    else if !t.columns[IndexOf(t.header, startYear)].NumericColumn? then Some(TypeError(startYear))
    else None
  }

  /** `get_delta_df`: the change of every country reporting `category`,
      ordered by country, in a column named "<start>-<end>". Without the
      COUNTRY or the INDICATOR column it raises KeyError. A category no
      row has gives an empty table and never looks the years up, so it
      raises nothing even for years the table lacks. */
  function GetDeltaDf(t: Table, category: string, startYear: string, endYear: string): (r: Result<ChangeTable, LegacyError>)
    requires TextKeys(t)
    ensures INDICATOR !in t.header ==> r == Err(KeyError(INDICATOR))
    ensures INDICATOR in t.header && COUNTRY !in t.header ==> r == Err(KeyError(COUNTRY))
    ensures INDICATOR in t.header && COUNTRY in t.header && category !in TextsOf(t, INDICATOR) ==>
      r == Ok(ChangeTable(startYear + "-" + endYear, []))
    ensures INDICATOR in t.header && COUNTRY in t.header && category in TextsOf(t, INDICATOR) ==>
      match LookupError(t, startYear, endYear)
      case Some(e) => r == Err(e)
      case None => r.Ok? && r.value.column == startYear + "-" + endYear
    ensures r.Ok? && category in TextsOf(t, INDICATOR) ==>
      SortedBy(r.value.rows, ChangeKey, true) &&
      multiset(r.value.rows) == multiset(CategoryChanges(TextsOf(t, COUNTRY), TextsOf(t, INDICATOR),
        t.columns[IndexOf(t.header, startYear)].values, t.columns[IndexOf(t.header, endYear)].values, category))
  {
    var column := startYear + "-" + endYear;
    if INDICATOR !in t.header then Err(KeyError(INDICATOR))
    else if COUNTRY !in t.header then Err(KeyError(COUNTRY))
    else
      var indicators := TextsOf(t, INDICATOR);
      NoPositions(indicators, category);
      if category !in indicators then Ok(ChangeTable(column, []))
      else
        var e := LookupError(t, startYear, endYear);
        if e.Some? then Err(e.value)
        else
          var starts := t.columns[IndexOf(t.header, startYear)].values;
          var ends := t.columns[IndexOf(t.header, endYear)].values;
          var rows := CategoryChanges(TextsOf(t, COUNTRY), indicators, starts, ends, category);
          Ok(ChangeTable(column, SortBy(rows, ChangeKey, true)))
  }

  /** Every line carries a change, never None: the cells of a numeric
      column are never None, a missing one being NaN, which the change
      passes on as NaN. */
  lemma ChangesNeverNone(t: Table, category: string, startYear: string, endYear: string)
    requires TextKeys(t) && GetDeltaDf(t, category, startYear, endYear).Ok?
    ensures forall row :: row in GetDeltaDf(t, category, startYear, endYear).value.rows ==>
      row.change.Some?
  {
    var r := GetDeltaDf(t, category, startYear, endYear).value;
    if category in TextsOf(t, INDICATOR) {
      var m := CategoryChanges(TextsOf(t, COUNTRY), TextsOf(t, INDICATOR),
        t.columns[IndexOf(t.header, startYear)].values, t.columns[IndexOf(t.header, endYear)].values, category);
      forall row | row in r.rows
        ensures row.change.Some?
      {
        assert row in multiset(r.rows);
        assert row in multiset(m);
        var k :| 0 <= k < |m| && m[k] == row;
      }
    }
  }
}
