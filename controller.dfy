/** The controller layer (src/controller.py): the state behind the table
    the window shows, and what each user action does to it. The GUI is
    reduced to the values the controller reads from it (the chosen file and
    its parsed table, the indicator, the two year fields, the selected
    countries) and to an outcome saying what the window is asked to show. */
module Controller {
  import opened Wrappers
  import opened Text
  import opened Ordering
  import opened Handler

  // ---------------------------------------------------------------------
  // helpers

  /** A string of digits is neither of the required column names. */
  lemma DigitsAreNoRequiredName(s: string)
    requires |s| > 0 && IsDigit(s[0])
    ensures s != COUNTRY && s != INDICATOR
  {
  }

  /** Nor is a text `^\d{4}$` accepts. */
  lemma FourDigitsAreNoRequiredName(s: string)
    requires MatchesFourDigits(s)
    ensures s != COUNTRY && s != INDICATOR
  {
    assert s[..4][0] == s[0];
  }

  /** `_min_max_years_boundary`: `int()` of the first and of the last year
      column, in file order (not necessarily the smallest and the largest);
      None where indexing an empty list of year columns raises IndexError. */
  function YearBounds(t: Table): (r: Option<(int, int)>)
    requires IsDataset(t)
    ensures r.None? <==> |YearColumns(t)| == 0
    ensures r.Some? ==> 1900 <= r.value.0 <= 2099 && 1900 <= r.value.1 <= 2099
    ensures r.Some? ==> DigitString(r.value.0) == YearColumns(t)[0]
    ensures r.Some? ==> DigitString(r.value.1) == YearColumns(t)[|YearColumns(t)| - 1]
  {
    var ys := YearColumns(t);
    if |ys| == 0 then None
    else
      YearNameInt(ys[0]);
      YearNameInt(ys[|ys| - 1]);
      Some((PyInt(ys[0]).value, PyInt(ys[|ys| - 1]).value))
  }

  /** `_validate_years_input_user`: both texts are four digits (`^\d{4}$`,
      which lets a final newline through) and both years lie within the
      bounds. */
  function ValidateYearsInput(startText: string, endText: string, minYear: int, maxYear: int): (ok: bool)
    ensures ok <==>
      MatchesFourDigits(startText) && MatchesFourDigits(endText) &&
      minYear <= FourDigitValue(startText) <= maxYear && minYear <= FourDigitValue(endText) <= maxYear
  {
    if MatchesFourDigits(startText) && MatchesFourDigits(endText) then
      FourDigitsParse(startText);
      FourDigitsParse(endText);
      var s := PyInt(startText).value;
      var e := PyInt(endText).value;
      minYear <= s <= maxYear && minYear <= e <= maxYear
    else false
  }

  /** Why `on_inputs_changed` refused the year fields (the ValueError it
      shows): a text `int()` rejects, a start not before the end, or a year
      out of format or out of bounds. */
  datatype InputError = NotAnInteger(text: string) | NotIncreasing | OutOfRange

  /** The checks of `on_inputs_changed` in their order: `int()` of the
      start, `int()` of the end, start before end, then the format and the
      bounds. */
  function CheckInput(startText: string, endText: string, minYear: int, maxYear: int): (r: Option<InputError>)
    ensures PyInt(startText).None? ==> r == Some(NotAnInteger(startText))
    ensures PyInt(startText).Some? && PyInt(endText).None? ==> r == Some(NotAnInteger(endText))
    ensures PyInt(startText).Some? && PyInt(endText).Some? && PyInt(startText).value >= PyInt(endText).value ==>
      r == Some(NotIncreasing)
    ensures PyInt(startText).Some? && PyInt(endText).Some? && PyInt(startText).value < PyInt(endText).value &&
      !ValidateYearsInput(startText, endText, minYear, maxYear)
      ==> r == Some(OutOfRange)
    ensures r.None? <==>
      PyInt(startText).Some? && PyInt(endText).Some? && PyInt(startText).value < PyInt(endText).value &&
      ValidateYearsInput(startText, endText, minYear, maxYear)
    ensures r.None? ==> MatchesFourDigits(startText) && MatchesFourDigits(endText)
    ensures r.None? ==> startText != COUNTRY && endText != COUNTRY
  {
    var s := PyInt(startText);
    var e := PyInt(endText);
    if s.None? then Some(NotAnInteger(startText))
    else if e.None? then Some(NotAnInteger(endText))
    else if !(s.value < e.value) then Some(NotIncreasing)
    else if !ValidateYearsInput(startText, endText, minYear, maxYear) then Some(OutOfRange)
    else
      FourDigitsAreNoRequiredName(startText);
      FourDigitsAreNoRequiredName(endText);
      None
  }

  /** Equal years never pass: the strict order is checked first. */
  lemma EqualYearsRejected(text: string, minYear: int, maxYear: int)
    requires PyInt(text).Some?
    ensures CheckInput(text, text, minYear, maxYear) == Some(NotIncreasing)
  {
  }

  /** Two four-digit years in bounds, the first smaller, pass. */
  lemma OrderedYearsAccepted(startText: string, endText: string, minYear: int, maxYear: int)
    requires MatchesFourDigits(startText) && MatchesFourDigits(endText)
    requires minYear <= FourDigitValue(startText) < FourDigitValue(endText) <= maxYear
    ensures CheckInput(startText, endText, minYear, maxYear) == None
  {
    FourDigitsParse(startText);
    FourDigitsParse(endText);
  }

  // ---------------------------------------------------------------------
  // the country filter

  /** The rows whose country is one of `selected`, in their order. */
  function FilterRows(rows: seq<DeltaRow>, selected: seq<string>): (r: seq<DeltaRow>)
    ensures forall row :: row in r <==> row in rows && row.country in selected
    ensures |r| <= |rows|
  {
    if |rows| == 0 then []
    else
      var last := rows[|rows| - 1];
      var rest := FilterRows(rows[..|rows| - 1], selected);
      assert forall row :: row in rows <==> row in rows[..|rows| - 1] || row == last by {
        assert rows == rows[..|rows| - 1] + [last];
      }
      if last.country in selected then rest + [last] else rest
  }

  /** Filtering a concatenation filters each part and keeps them in
      order: the filter preserves the order of the rows. */
  lemma {:induction false} FilterAppend(a: seq<DeltaRow>, b: seq<DeltaRow>, selected: seq<string>)
    ensures FilterRows(a + b, selected) == FilterRows(a, selected) + FilterRows(b, selected)
    decreases |b|
  {
    if |b| > 0 {
      var b' := b[..|b| - 1];
      assert (a + b)[..|a + b| - 1] == a + b';
      FilterAppend(a, b', selected);
    } else {
      assert a + b == a;
    }
  }

  /** Filtering twice with the same selection is filtering once. */
  lemma {:induction false} FilterIdempotent(rows: seq<DeltaRow>, selected: seq<string>)
    ensures FilterRows(FilterRows(rows, selected), selected) == FilterRows(rows, selected)
  {
    if |rows| > 0 {
      var init := rows[..|rows| - 1];
      var last := rows[|rows| - 1];
      FilterIdempotent(init, selected);
      assert rows == init + [last];
      FilterAppend(init, [last], selected);
      assert [last][..0] == [];
      FilterAppend(FilterRows(init, selected), FilterRows([last], selected), selected);
      assert FilterRows([], selected) == [];
      if last.country in selected {
        assert FilterRows([last], selected) == [last];
      } else {
        assert FilterRows([last], selected) == [];
      }
    }
  }

  /** A view ordered by some column stays ordered once filtered. */
  lemma {:induction false} FilterKeepsOrder(rows: seq<DeltaRow>, selected: seq<string>, key: DeltaRow -> Key, ascending: bool)
    requires SortedBy(rows, key, ascending)
    ensures SortedBy(FilterRows(rows, selected), key, ascending)
  {
    if |rows| > 0 {
      var init := rows[..|rows| - 1];
      var last := rows[|rows| - 1];
      FilterKeepsOrder(init, selected, key, ascending);
      var r := FilterRows(rows, selected);
      var q := FilterRows(init, selected);
      if last.country in selected {
        assert r == q + [last];
        forall i, j | 0 <= i < j < |r|
          ensures Precedes(key(r[i]), key(r[j]), ascending)
        {
          if j == |r| - 1 {
            assert r[i] in init;
            var k :| 0 <= k < |init| && init[k] == r[i];
            assert rows[k] == r[i];
          }
        }
      }
    }
  }

  /** `_filter`: the view restricted to the selected countries. */
  function Filter(v: DeltaView, selected: seq<string>): (r: DeltaView)
    ensures r.startYear == v.startYear && r.endYear == v.endYear
    ensures forall row :: row in r.rows <==> row in v.rows && row.country in selected
  {
    DeltaView(v.startYear, v.endYear, FilterRows(v.rows, selected))
  }

  // ---------------------------------------------------------------------
  // the controller

  /** An exception that escapes a handler: no year column (IndexError), no
      indicator for the combobox to show first, or a failing `get_delta_df`. */
  datatype Fault = NoYearColumns | NoIndicators | DeltaFailed(error: DeltaError)

  /** What a user action asks of the window. */
  datatype Outcome =
    | Unchanged                     // the handler returned early
    | Shown(view: DeltaView)        // display_datas with this view
    | Rejected(input: InputError)   // show_error for the year fields
    | LoadFailed(load: LoadError)   // show_error for an invalid file
    | Raised(fault: Fault)          // an exception left the handler

  /** What `on_open_clicked` goes on to do once a table has loaded: the
      year bounds it stores, if it gets that far, and the view it shows or
      the exception that stops it. */
  datatype AfterLoad = AfterLoad(bounds: Option<(int, int)>, result: Result<DeltaView, Fault>)

  function OpenLoaded(t: Table): (after: AfterLoad)
    requires IsDataset(t)
    ensures after.bounds == YearBounds(t)
    ensures after.bounds.None? ==> after.result == Err(NoYearColumns)
    ensures after.bounds.Some? && Indicators(t) == [] ==> after.result == Err(NoIndicators)
  {
    var bounds := YearBounds(t);
    if bounds.None? then AfterLoad(None, Err(NoYearColumns))
    else
      var indicators := Indicators(t);
      if indicators == [] then AfterLoad(bounds, Err(NoIndicators))
      else
        var ys := YearColumns(t);
        DigitsAreNoRequiredName(ys[0]);
        DigitsAreNoRequiredName(ys[|ys| - 1]);
        match DeltaDf(t, indicators[0], DigitString(bounds.value.0), DigitString(bounds.value.1))
        case Err(e) => AfterLoad(bounds, Err(DeltaFailed(e)))
        case Ok(v) => AfterLoad(bounds, Ok(v))
  }

  /** The bounds a load stores are years, so never negative. */
  lemma AfterLoadBounds(t: Table)
    requires IsDataset(t)
    ensures OpenLoaded(t).bounds.Some? ==> OpenLoaded(t).bounds.value.0 >= 1900 && OpenLoaded(t).bounds.value.1 >= 1900
  {
  }

  /** Opening a table with year columns and indicators shows the first
      indicator over the first and the last year column, unless these are
      the same column; the rows are that indicator's, ordered by country. */
  lemma OpenShowsFullRange(t: Table)
    requires IsDataset(t) && |YearColumns(t)| > 0 && Indicators(t) != []
    ensures var ys := YearColumns(t);
      OpenLoaded(t).result.Ok? <==> ys[0] != ys[|ys| - 1]
    ensures var ys := YearColumns(t); var after := OpenLoaded(t);
      after.result.Ok? ==>
        after.result.value.startYear == ys[0] && after.result.value.endYear == ys[|ys| - 1] &&
        SortedBy(after.result.value.rows, CountryKey, true) &&
        DeltaDf(t, Indicators(t)[0], ys[0], ys[|ys| - 1]) == Ok(after.result.value)
  {
    var ys := YearColumns(t);
    DigitsAreNoRequiredName(ys[0]);
    DigitsAreNoRequiredName(ys[|ys| - 1]);
    assert ys[0] in t.header && ys[|ys| - 1] in t.header;
  }

  class AppController {
    const handler: DataHandler
    var current: Option<DeltaView>
    var minYear: int
    var maxYear: int

    /** A view is only ever shown from a loaded table, and the bounds are
        either the initial zeros or years read from a file. */
    predicate Valid()
      reads this, handler
    {
      handler.Valid() && (current.Some? ==> handler.df.Some?) && minYear >= 0 && maxYear >= 0
    }

    constructor(h: DataHandler)
      requires h.Valid()
      ensures handler == h && current == None && minYear == 0 && maxYear == 0
      ensures Valid()
    {
      handler := h;
      current := None;
      minYear := 0;
      maxYear := 0;
    }

    /** `on_open_clicked` once the dialog returned `filename` and the file
        was read into `raw`. */
    method OnOpenClicked(filename: string, raw: Table) returns (o: Outcome)
      requires Valid() && raw.WellFormed()
      modifies this, handler
      ensures Valid()
      ensures handler.toggle == old(handler.toggle) && handler.icolPrec == old(handler.icolPrec)
      ensures filename == "" ==>
        o == Unchanged && handler.df == old(handler.df) && current == old(current) &&
        minYear == old(minYear) && maxYear == old(maxYear)
      ensures filename != "" && FirstError(Stripped(raw)).Some? ==>
        o == LoadFailed(FirstError(Stripped(raw)).value) && handler.df == None && current == None &&
        minYear == old(minYear) && maxYear == old(maxYear)
      ensures filename != "" && FirstError(Stripped(raw)).None? ==>
        handler.df == Some(Stripped(raw)) && IsDataset(Stripped(raw)) &&
        Opened(OpenLoaded(Stripped(raw)), o, old(current), old(minYear), old(maxYear))
    {
      if filename == "" {
        return Unchanged;
      }
      var err := handler.LoadFile(raw);
      if err.Some? {
        current := None;
        return LoadFailed(err.value);
      }
      o := ShowLoaded();
    }

    /** What the controller holds after `after`, starting from a view and
        bounds it held before. */
    ghost predicate Opened(after: AfterLoad, o: Outcome, current0: Option<DeltaView>, min0: int, max0: int)
      reads this
    {
      (after.bounds.Some? ==> minYear == after.bounds.value.0 && maxYear == after.bounds.value.1) &&
      (after.bounds.None? ==> minYear == min0 && maxYear == max0) &&
      (after.result.Ok? ==> o == Shown(after.result.value) && current == Some(after.result.value)) &&
      (after.result.Err? ==> o == Raised(after.result.error) && current == current0)
    }

    /** The part of `on_open_clicked` after a successful load: store the
        bounds, fill the indicator list, show the first indicator over the
        whole range. */
    method ShowLoaded() returns (o: Outcome)
      requires Valid() && handler.df.Some?
      modifies this
      ensures Valid()
      ensures Opened(OpenLoaded(handler.df.value), o, old(current), old(minYear), old(maxYear))
    {
      var t := handler.df.value;
      var after := OpenLoaded(t);
      AfterLoadBounds(t);
      o := Adopt(after);
      assert handler.df.value == t;
    }

    /** Keep the year bounds read from the file, when there are any, then
        show the view the load led to or let its exception through. */
    method Adopt(after: AfterLoad) returns (o: Outcome)
      requires Valid() && handler.df.Some?
      requires after.bounds.Some? ==> after.bounds.value.0 >= 0 && after.bounds.value.1 >= 0
      modifies this
      ensures Valid()
      ensures Opened(after, o, old(current), old(minYear), old(maxYear))
    {
      if after.bounds.Some? {
        minYear, maxYear := after.bounds.value.0, after.bounds.value.1;
      }
      match after.result
      case Err(f) =>
        o := Raised(f);
      case Ok(v) =>
        current := Some(v);
        o := Shown(v);
    }

    /** The view of `indicator` between two year columns, filtered by the
        selection when there is one, made current: the common end of
        `on_inputs_changed` and `on_clear_clicked`. */
    method ShowRange(indicator: string, startYear: string, endYear: string, selected: seq<string>)
      returns (o: Outcome)
      requires Valid() && current.Some?
      requires startYear != COUNTRY && endYear != COUNTRY
      modifies this
      ensures Valid() && minYear == old(minYear) && maxYear == old(maxYear)
      ensures match DeltaDf(handler.df.value, indicator, startYear, endYear)
        case Err(e) => o == Raised(DeltaFailed(e)) && current == old(current)
        case Ok(v) =>
          var w := if |selected| > 0 then Filter(v, selected) else v;
          o == Shown(w) && current == Some(w)
    {
      var r := DeltaDf(handler.df.value, indicator, startYear, endYear);
      if r.Err? {
        return Raised(DeltaFailed(r.error));
      }
      var view := r.value;
      if |selected| > 0 {
        view := Filter(view, selected);
      }
      current := Some(view);
      return Shown(view);
    }

    /** `on_inputs_changed` with the indicator and the two year fields as
        typed, and the countries selected for filtering. */
    method OnInputsChanged(indicator: string, startText: string, endText: string, selected: seq<string>)
      returns (o: Outcome)
      requires Valid()
      modifies this
      ensures Valid() && minYear == old(minYear) && maxYear == old(maxYear)
      ensures old(current).None? ==> o == Unchanged && current == None
      ensures old(current).Some? && CheckInput(startText, endText, minYear, maxYear).Some? ==>
        o == Rejected(CheckInput(startText, endText, minYear, maxYear).value) && current == old(current)
      ensures old(current).Some? && CheckInput(startText, endText, minYear, maxYear).None? ==>
        match DeltaDf(handler.df.value, indicator, startText, endText)
        case Err(e) => o == Raised(DeltaFailed(e)) && current == old(current)
        case Ok(v) =>
          var w := if |selected| > 0 then Filter(v, selected) else v;
          o == Shown(w) && current == Some(w)
    {
      if current.None? {
        return Unchanged;
      }
      var check := CheckInput(startText, endText, minYear, maxYear);
      if check.Some? {
        return Rejected(check.value);
      }
      o := ShowRange(indicator, startText, endText, selected);
    }

    /** `on_filter_clicked` with the countries selected for filtering. */
    method OnFilterClicked(selected: seq<string>) returns (o: Outcome)
      requires Valid()
      modifies this
      ensures Valid() && minYear == old(minYear) && maxYear == old(maxYear)
      ensures old(current).None? || |selected| == 0 ==> o == Unchanged && current == old(current)
      ensures old(current).Some? && |selected| > 0 ==>
        current == Some(Filter(old(current).value, selected)) && o == Shown(current.value)
    {
      if current.None? {
        return Unchanged;
      }
      if |selected| > 0 {
        current := Some(Filter(current.value, selected));
        return Shown(current.value);
      }
      return Unchanged;
    }

    /** `on_clear_clicked` with the indicator the combobox shows;
        `clearsSelection` tells whether the selected countries are cleared. */
    method OnClearClicked(indicator: string) returns (o: Outcome, clearsSelection: bool)
      requires Valid()
      modifies this
      ensures Valid() && minYear == old(minYear) && maxYear == old(maxYear)
      ensures old(current).None? ==> o == Unchanged && !clearsSelection && current == None
      ensures old(current).Some? ==>
        match DeltaDf(handler.df.value, indicator, DigitString(minYear), DigitString(maxYear))
        case Err(e) => o == Raised(DeltaFailed(e)) && !clearsSelection && current == old(current)
        case Ok(v) => o == Shown(v) && clearsSelection && current == Some(v)
    {
      if current.None? {
        return Unchanged, false;
      }
      DigitsAreNoRequiredName(DigitString(minYear));
      DigitsAreNoRequiredName(DigitString(maxYear));
      o := ShowRange(indicator, DigitString(minYear), DigitString(maxYear), []);
      clearsSelection := o.Shown?;
    }

    /** `on_heading_clicked` for the view's column `icol`. */
    method OnHeadingClicked(icol: int) returns (o: Outcome)
      requires Valid() && 0 <= icol < 4
      modifies this, handler
      ensures Valid() && minYear == old(minYear) && maxYear == old(maxYear)
      ensures handler.df == old(handler.df)
      ensures old(current).None? ==>
        o == Unchanged && current == None &&
        handler.toggle == old(handler.toggle) && handler.icolPrec == old(handler.icolPrec)
      ensures old(current).Some? ==>
        current.Some? && o == Shown(current.value) &&
        handler.icolPrec == icol &&
        handler.toggle == (if old(handler.icolPrec) != icol then 0 else 1 - old(handler.toggle)) &&
        SortedBy(current.value.rows, ColumnKey(icol), handler.toggle == 0) &&
        multiset(current.value.rows) == multiset(old(current).value.rows)
    {
      if current.None? {
        return Unchanged;
      }
      var sorted := handler.ToggleSort(icol, current.value);
      current := Some(sorted);
      return Shown(sorted);
    }
  }
}
