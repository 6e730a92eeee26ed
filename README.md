# Statistical Analysis Tool, modelled in Dafny

This is a model of the Statistical Analysis Tool. The tool reads a CSV file of
indicators by country, with one column per year. It shows the change of one
indicator between two years as a percentage.

The repository holds two generations of the program. Both are modelled here:

- **The desktop application** (`src/`) follows a model/view/controller split.
  - `DataHandler` validates the loaded table: the two required columns
    `COUNTRY` and `INDICATOR`, year columns named 1900–2099, text and numeric
    dtypes.
  - It lists the indicators and the year columns.
  - It builds the per-country percentage-change table, rounded to three
    decimals and ordered by country.
  - It sorts that table by a clicked heading. A second click on the same
    heading reverses the order.
  - `AppController` keeps the table on display and the year bounds. It reacts
    to the open, inputs-changed, filter, clear and heading-click events.
- **The command-line prototype** (`Main.py`, `FileHandler.py` and the first
  `data_handler.py`).
  - Its cells are written `name: value`.
  - `stringToFloat` and `extract_value` read the number of a cell.
  - `display_delta` compares two lines of the file.
  - The prompt loop moves between lines on the commands `n`, `p` and `d`, with
    an optional count.
  - The first `data_handler.py` computes the change, rounded to two decimals,
    in a one-column table indexed by country.

## Modules

| file | module | what it holds |
|---|---|---|
| `wrappers.dfy` | `Wrappers` | `Option` and `Result` |
| `text.dfy` | `Text` | `str.find`, `split(sep, 1)`, `strip()`, `int()` on text, `str()` of a count, the regular expressions `\d+(\.\d*)?`, `^\d{4}$` and `^(19\|20)\d{2}$` |
| `floats.dfy` | `Floats` | float64 values (NaN, ±inf, finite values as exact reals), IEEE subtraction and division, `round(x, d)` with half-to-even |
| `ordering.dfy` | `Ordering` | Python string order, the sort order of a column with NaN last, sorting specified by its result, `sorted(unique())` |
| `data_handler.dfy` | `Handler` | `src/data_handler.py`: tables, load validation, queries, the change table, the sort toggle (class `DataHandler`) |
| `controller.dfy` | `Controller` | `src/controller.py`: input checks, the country filter, the event handlers (class `AppController`) |
| `legacy_handler.dfy` | `LegacyHandler` | `data_handler.py` at the top level: categories and the two-decimal change table |
| `prototype.dfy` | `Prototype` | `Main.py`: cell parsing, `display_delta`, `direction`, `delta`, the prompt loop |
| `file_handler.dfy` | `FileHandling` | `FileHandler.py`: cell labels, `extract_value`, `display_delta` (class `FileHandler`) |

The GUI is reduced to two things:

- the values the controller reads from it: the chosen file's parsed table, the
  indicator, the two year fields and the selected countries;
- an `Outcome` saying what the window is asked to show.

Exceptions that escape a handler become error values (`Raised`, `Err`, `None`).

## Model

| member | source | states |
|---|---|---|
| `Text.Find` | Main.py:26 | `s.find(c)` is -1 exactly when `c` is absent; otherwise it is the index of the first `c` |
| `Text.SplitOnce` | Main.py:14 | `split(sep, 1)` gives one part (the whole text) exactly when `sep` is absent. Otherwise it gives two parts that rebuild the text around the first `sep` |
| `Text.After` | Main.py:14 | `split(sep, 1)[1]` fails (None) exactly when `sep` is absent. Otherwise it is the text after the first `sep` |
| `Text.Before` | Main.py:27 | `split(sep, 1)[0]` holds no `sep`. It is the whole text when `sep` is absent, otherwise the text before the first `sep` |
| `Text.SplitAtFirst` | Main.py:14 | splitting `pre + [sep] + post`, where `pre` has no `sep`, gives back `pre` and `post` |
| `Text.Strip` | src/data_handler.py:43 | a stripped name neither starts nor ends with whitespace |
| `Text.StripRemovesSpace` | src/data_handler.py:43 | `strip()` removes only whitespace, and only at the two ends. The result is the slice of the name between them |
| `Text.StripKeepsClean` | src/data_handler.py:43 | a name without whitespace at either end is left as it is |
| `Text.StripIdempotent` | src/data_handler.py:43 | stripping twice is stripping once |
| `Text.DigitString` | src/controller.py:71-72 | `str(n)` is a digit string with no leading zero whose value is `n` |
| `Text.DigitStringOfValue` | src/controller.py:71-72 | `str(int(s)) == s` for a digit string without a leading zero |
| `Text.SearchNumber` | Main.py:15 | `re.search(r'\d+(\.\d*)?', s)` finds nothing exactly when `s` has no digit. Otherwise it finds the leftmost, greedy match |
| `Text.MatchHere` | Main.py:15 | the match of a text that starts with a digit starts at 0 and is leftmost and greedy |
| `Text.ShiftMatch` | Main.py:15 | a leading non-digit moves the match one place and changes nothing else |
| `Text.SearchSkips` | Main.py:15 | the search skips a first character that is not a digit |
| `Text.SearchDigits` | Main.py:15 | the match in a string of digits is the whole string |
| `Text.LeftmostUnique` | Main.py:15 | the leftmost greedy match is unique, so the search has one answer |
| `Text.LeftmostIsFound` | Main.py:15 | every leftmost greedy match is the one the search returns |
| `Text.NoMatchWithoutDigit` | Main.py:15 | a text without digits has no match |
| `Text.IntLiteral` | src/controller.py:98 | `int()` of stripped text succeeds exactly on an optional sign followed by digits with single underscores between them. The value is that of the digits, negated after a minus |
| `Text.PyInt` | src/controller.py:98 | `int(text)` strips the text and then behaves as IntLiteral, in both directions. Any other text raises ValueError |
| `Text.PyIntSigned` | src/controller.py:98 | `int("+d")` is the value of `d`, and `int("-d")` is its negation |
| `Text.PyIntUnderscore` | src/controller.py:98 | an underscore between two digit runs is ignored: `int("2_000")` is 2000 |
| `Text.PyIntOfDigits` | src/controller.py:98 | `int()` of text whose stripped form is plain digits is their value |
| `Text.MatchesFourDigits` | src/controller.py:186 | what `^\d{4}$` accepts strips to exactly its four leading digits; the newline `$` lets through is the only other character |
| `Text.IsYearName` | src/data_handler.py:53 | `^(19\|20)\d{2}$` accepts exactly the `^\d{4}$` texts whose value lies in 1900..2099 |
| `Text.YearDigits` | src/data_handler.py:53 | four digits read as 1900..2099 exactly when they start with 19 or 20 |
| `Text.FourDigitsParse` | src/controller.py:184-187 | `int()` of a text that `^\d{4}$` accepts is the value of its four digits. The newline that `$` lets through counts as whitespace |
| `Text.YearNameValue` | src/controller.py:179 | the four digits of a year name read as 1900..2099, and writing that number back gives the name |
| `Text.YearNameInt` | src/controller.py:179 | `int()` of a year column name is in 1900..2099, and `str()` of it gives the name back |
| `Floats.Sub` | src/data_handler.py:100 | IEEE subtraction: exact on finite values, NaN in, NaN out |
| `Floats.Div` | src/data_handler.py:100-101 | IEEE division: exact for a non-zero finite divisor, never finite for a zero divisor |
| `Floats.RoundHalfEven` | src/data_handler.py:100-101 | the nearest integer, with an exact half going to the even one |
| `Floats.RoundHalfEvenUnique` | src/data_handler.py:100-101 | any integer closer than one half is the rounded value |
| `Floats.RoundToBound` | src/data_handler.py:100-101 | `round(x, d)` lies within half a unit of the last decimal of `x` |
| `Floats.RoundToExact` | src/data_handler.py:100-101 | a value with at most `d` decimals is not changed by `round(x, d)` |
| `Floats.RoundToMonotone` | src/data_handler.py:100-101 | rounding keeps the order of two values |
| `Floats.Round` | src/data_handler.py:100-101 | `round` leaves NaN and infinities alone and rounds finite values to `d` decimals |
| `Floats.PctChange` | src/data_handler.py:100-101 | the change is a number exactly when both values are numbers and the start is not zero |
| `Floats.PctChangeFinite` | src/data_handler.py:100-101 | between finite values with a non-zero start, the change is the exact percentage rounded to `d` decimals, and within half a unit of it |
| `Floats.PctChangeZeroStart` | src/data_handler.py:100-101 | a zero start never gives a number: +inf for a rise, -inf for a fall, NaN for no change |
| `Floats.PctChangeMissing` | src/data_handler.py:100-101 | a missing (NaN) value on either side gives NaN |
| `Floats.PctChangeSign` | src/data_handler.py:100-101 | from a positive start, a rise never gives a negative change and a fall never gives a positive one |
| `Floats.PctChangeExamples` | src/data_handler.py:100-101 | worked example, not a property: 50 to 75 is +50.0 and 100 to 80 is -20.0 at three decimals |
| `Ordering.StrLeTotal` | src/data_handler.py:77 | Python's string order is total |
| `Ordering.StrLeTransitive` | src/data_handler.py:77 | it is transitive |
| `Ordering.StrLeAntisymmetric` | src/data_handler.py:77 | and antisymmetric |
| `Ordering.PrecedesTotal` | src/data_handler.py:127-130 | the column order with NaN last is total, in both directions |
| `Ordering.PrecedesTransitive` | src/data_handler.py:127-130 | it is transitive in both directions |
| `Ordering.Insert` | src/data_handler.py:93 | inserting into a sorted list keeps it sorted and adds exactly the one element |
| `Ordering.SortBy` | src/data_handler.py:93 | `sort_values` yields rows ordered by the key in the chosen direction, NaN last, holding exactly the input rows (a permutation) |
| `Ordering.Unique` | src/data_handler.py:77 | `unique()` holds the same values as its input, each once |
| `Ordering.SortedUnique` | src/data_handler.py:77 | `sorted(unique())` holds the same values as its input, in strictly ascending order |
| `Ordering.DistinctSorted` | src/data_handler.py:77 | sorting distinct strings ascending orders them strictly |
| `Handler.StripNamesAt` | src/data_handler.py:43 | each column name is stripped in its place |
| `Handler.Stripped` | src/data_handler.py:43 | stripping the names keeps the columns and the table shape |
| `Handler.IndexOf` | src/data_handler.py:45-46 | the first position of a name, or the length when the name is absent |
| `Handler.RequiredNeedTwo` | src/data_handler.py:45-46 | a header with both required names has at least two columns |
| `Handler.FirstNonYear` | src/data_handler.py:51-58 | the first name from position 2 on that the year pattern refuses; all before it are year names |
| `Handler.FirstNonNumeric` | src/data_handler.py:67-72 | the first column from position 2 on that is not numeric; all before it are numeric |
| `Handler.FirstError` | src/data_handler.py:45-72 | the load error is MissingRequiredColumns exactly when COUNTRY or INDICATOR is missing |
| `Handler.IsDataset` | src/data_handler.py:45-72 | what `load_file` requires of a table: both required names, year names from the third column on, text then numbers. Every such table passes all of its checks |
| `Handler.LoadAcceptsExactly` | src/data_handler.py:41-72 | `load_file` accepts a table exactly when its stripped form is a dataset: required names, four-character year names from the third column on, text then numbers |
| `Handler.Validate` | src/data_handler.py:45-72 | the loops over the header and the columns report exactly FirstError: the checks in the source's order, stopping at the first failing one |
| `Handler.StrippedYearName` | src/data_handler.py:51-58 | a name that strips to a year name strips to four characters |
| `Handler.NotYearName` | src/data_handler.py:51-58 | a name that starts with a non-digit is not a year name, so COUNTRY and INDICATOR never pass the year check |
| `Handler.DatasetLayout` | src/data_handler.py:50-53 | since years are checked by position, the required columns of a dataset are its first two, in either order |
| `Handler.ValueColumnPosition` | src/data_handler.py:67-72 | any other column of a dataset holds numbers |
| `Handler.Indicators` | src/data_handler.py:75-77 | `get_indicators` holds exactly the indicators of the table, strictly ascending |
| `Handler.YearColumns` | src/data_handler.py:80-82 | `get_years_columns` holds the names from the third column on, in file order; each is a year name and neither required name is among them |
| `Handler.Positions` | src/data_handler.py:92 | the selected rows hold the chosen indicator and come in ascending file order |
| `Handler.PositionsComplete` | src/data_handler.py:92 | every row of the chosen indicator is selected |
| `Handler.PositionsAppend` | src/data_handler.py:92 | one more row is selected exactly when it holds the chosen indicator |
| `Handler.Matching` | src/data_handler.py:91-101 | row k of the selection is the k-th row of the indicator, with its country, its two year values and their change rounded to 3 decimals |
| `Handler.NoPositions` | src/data_handler.py:92 | an indicator that occurs nowhere selects no row |
| `Handler.DeltaDf` | src/data_handler.py:85-103 | a year column the filtered frame lacks raises KeyError. The same year twice raises ValueError. Otherwise the change table holds the indicator's rows ordered by country, a permutation of the matching rows; an absent indicator gives no rows |
| `Handler.DeltaRowsChange` | src/data_handler.py:100-101 | every row's `delta` is the rounded change between its own start and end values |
| `Handler.SampleDelta` | src/data_handler.py:85-103 | worked example, not a property: on a three-row table, the GDP view is France (+50 %) before Spain (-20 %) |
| `Handler.DataHandler.constructor` | src/data_handler.py:26-33 | no table, ascending, no column clicked yet (-1) |
| `Handler.DataHandler.LoadFile` | src/data_handler.py:36-72 | the table with stripped names is kept exactly when every check passes. On the first failing check the handler holds no table at all, and that check's error is reported. The sort state is unchanged |
| `Handler.DataHandler.ToggleSort` | src/data_handler.py:114-130 | a new column resets to ascending and the same column flips the direction. The clicked column is remembered, and the result is the same rows ordered by that column, NaN last |
| `Controller.FourDigitsAreNoRequiredName` | src/controller.py:184-187 | a year field that passes `^\d{4}$` never names COUNTRY or INDICATOR |
| `Controller.YearBounds` | src/controller.py:174-179 | `int()` of the first and of the last year column, in file order (each in 1900..2099). Fails (IndexError) exactly when there are no year columns |
| `Controller.ValidateYearsInput` | src/controller.py:182-194 | true exactly when both texts match `^\d{4}$` and both years lie within the stored bounds |
| `Controller.CheckInput` | src/controller.py:96-104 | the checks run in the source's order: `int()` of each year, start before end, then format and bounds. Each failure gives its own error, and bad format or bounds give OutOfRange. It passes exactly when all of them hold |
| `Controller.EqualYearsRejected` | src/controller.py:98-99 | equal years are always refused, by the start-before-end check |
| `Controller.OrderedYearsAccepted` | src/controller.py:96-101 | two in-bounds four-digit years, the first smaller, pass |
| `Controller.FilterRows` | src/controller.py:197-203 | the kept rows are exactly the rows whose country is selected |
| `Controller.FilterAppend` | src/controller.py:197-203 | filtering a concatenation filters each part in order, so the row order is kept |
| `Controller.FilterIdempotent` | src/controller.py:197-203 | filtering twice with the same selection is filtering once |
| `Controller.FilterKeepsOrder` | src/controller.py:197-203 | a view sorted by any column stays sorted once filtered |
| `Controller.Filter` | src/controller.py:197-203 | `_filter` keeps the years and exactly the rows of the selected countries |
| `Controller.OpenLoaded` | src/controller.py:63-73 | after a load, the stored bounds are YearBounds. With no year column, IndexError; with no indicator, no view |
| `Controller.OpenShowsFullRange` | src/controller.py:63-73 | opening shows the first indicator from the first to the last year column, ordered by country, unless those are the same column |
| `Controller.AppController.constructor` | src/controller.py:27-34 | no view, bounds 0 and 0 |
| `Controller.AppController.OnOpenClicked` | src/controller.py:42-74 | a cancelled dialog changes nothing. A failed load shows the error and clears the view. A good load keeps the table, stores the bounds and shows the first indicator's view (or lets the exception through) |
| `Controller.AppController.ShowLoaded` | src/controller.py:63-74 | the rest of `on_open_clicked` after a good load, as OpenLoaded describes it |
| `Controller.AppController.Adopt` | src/controller.py:63-74 | the bounds are stored if they were read. The view is shown and made current, or the exception leaves the current view as it was |
| `Controller.AppController.ShowRange` | src/controller.py:106-113 | the indicator's view over the two years, filtered when countries are selected, becomes current and is shown. A failing `get_delta_df` changes nothing |
| `Controller.AppController.OnInputsChanged` | src/controller.py:88-113 | nothing happens without a view. Refused inputs show the error and keep the view. Otherwise as ShowRange with the typed years |
| `Controller.AppController.OnFilterClicked` | src/controller.py:116-129 | with a view and a selection, the current view is filtered and shown; otherwise nothing changes |
| `Controller.AppController.OnClearClicked` | src/controller.py:132-150 | with a view, the unfiltered view over the stored bounds becomes current and the selection is cleared. A failing `get_delta_df` changes nothing |
| `Controller.AppController.OnHeadingClicked` | src/controller.py:153-162 | with a view, the toggle moves as in `toggle_sort` and the view is re-sorted by the clicked column (a permutation of its rows); otherwise nothing changes |
| `LegacyHandler.TextsOf` | data_handler.py:31-33 | the COUNTRY or INDICATOR cells, one per row |
| `LegacyHandler.Categories` | data_handler.py:13-14 | KeyError exactly when there is no INDICATOR column. Otherwise exactly the categories of the table, strictly ascending |
| `LegacyHandler.CalculateDelta` | data_handler.py:17-24 | None exactly when either value is None; otherwise the change rounded to 2 decimals |
| `LegacyHandler.CalculateDeltaTwoDecimals` | data_handler.py:22 | worked example, not a property: 3 to 4 gives 33.33 at two decimals |
| `LegacyHandler.CategoryChanges` | data_handler.py:37-42 | line k is the k-th country of the category, with its change |
| `LegacyHandler.LookupError` | data_handler.py:18-19 | the end column is looked up before the start column; KeyError for a missing or dropped column, TypeError for text |
| `LegacyHandler.GetDeltaDf` | data_handler.py:26-44 | KeyError without INDICATOR, then without COUNTRY. An absent category gives an empty table without looking the years up. Otherwise the lookup's error, or a `"<start>-<end>"` column ordered by country holding a permutation of the category's changes |
| `LegacyHandler.ChangesNeverNone` | data_handler.py:21-24 | no line of the result is None: missing numbers are NaN, never None |
| `Prototype.StringToFloat` | Main.py:9-19 | `stringToFloat` is never negative, and is 0 for a cell without ':' |
| `Prototype.StringToFloatNoDigit` | Main.py:13-19 | without a digit after the first ':' the cell reads as 0 |
| `Prototype.StringToFloatLeftmost` | Main.py:14-16 | otherwise it reads as the leftmost match after the first ':' |
| `Prototype.StringToFloatIgnoresSign` | Main.py:15 | a minus sign before the number is ignored |
| `Prototype.StringToFloatOfDigits` | Main.py:14-16 | "name:digits" reads as the value of the digits |
| `Prototype.DataName` | Main.py:22-28 | the name holds no ':'. It is the whole cell without ':', otherwise the text before the first ':' |
| `Prototype.DataNameOf` | Main.py:22-28 | the name of "name:value" is `name` |
| `Prototype.Classify` | Main.py:39-52 | "Empty cell(s)" exactly when either cell is empty. Otherwise a rise, a fall or no change, by the sign of second minus first, under the first cell's name |
| `Prototype.DisplayDelta` | Main.py:31-52 | one line per column of the first row, each classified. A shorter second row stops with IndexError at its end |
| `Prototype.ParseCount` | Main.py:75-76 | reading a count fails with AttributeError exactly when the text has no digit. A count read is the digits of a leftmost match without a point |
| `Prototype.ParseCountLeftmost` | Main.py:75-76 | the count is the digits of the leftmost match; a match with a point makes `int()` fail |
| `Prototype.ParseCountOfDigits` | Main.py:75-76 | the decimal text of a count reads back as that count |
| `Prototype.Direction` | Main.py:66-76 | a bare "n" or "p" moves by 1 |
| `Prototype.DirectionOfCount` | Main.py:72-76 | "k n..." moves by k |
| `Prototype.DirectionNeedsCount` | Main.py:70-76 | "nn", "nd" and "pp" have no count and raise |
| `Prototype.Delta` | Main.py:79-89 | a delta line read is inside the file (0 for an empty file) |
| `Prototype.DeltaSelects` | Main.py:83-89 | "d k" selects line k (counted from 1) when it is in the file, otherwise the first line |
| `Prototype.SingleLetters` | Main.py:109-118 | "n" moves one line down and "p" one line up; the delta line follows one above |
| `Prototype.Navigate` | Main.py:109-118 | the loop over a command's letters ends in the closed form Apply: each 'n' and 'p' moves by the direction. The delta line is the delta after a final 'd', else the line above. None where a letter's call raises |
| `Prototype.ApplyAppend` | Main.py:109-118 | one more letter moves the line, sets the delta line, or raises |
| `Prototype.ApplyLine` | Main.py:109-116 | after a command that does not raise, the line has moved by the number of 'n' minus the number of 'p', times the direction |
| `Prototype.ApplyNoneExtends` | Main.py:109-118 | once a prefix of a command raises, the whole command raises |
| `Prototype.Step` | Main.py:106-118 | one command raises exactly when a letter of it calls a raising `direction` or `delta`. An empty command changes nothing. After a final 'd' the delta line is a line of the file; otherwise it is the line above the new one |
| `Prototype.Prompt` | Main.py:106-118 | one command is `direction` and `delta` of it, then the letter loop |
| `Prototype.TraceExtend` | Main.py:98-118 | a run goes on with the position the last command led to |
| `Prototype.TraceLast` | Main.py:98-118 | the last position of a run is where the command before it led |
| `Prototype.MainLoop` | Main.py:96-118 | every line shown is a line of the file, the first being line 1. Each is where the previous command led. The loop ends when the line leaves the file, when a command raises, or when the commands run out |
| `Prototype.Session` | Main.py:93-118 | the summary compares the first row with the last one. It raises IndexError, and the loop never starts, exactly when the file is empty or its last row is shorter than its first. Otherwise the main loop runs as MainLoop states |
| `FileHandling.PyAt` | FileHandler.py:21 | Python indexing: present exactly for -len..len-1, a negative index counting from the end |
| `FileHandling.Cell` | FileHandler.py:39-40 | `data[line][i]` is present exactly when both indexes are in range |
| `FileHandling.CellLabel` | FileHandler.py:22-24 | a cell without ':' is its own label. Otherwise the label is the text before the first ':' followed by " :" |
| `FileHandling.CellLabelOf` | FileHandler.py:22-24 | the label of "name:value" is "name :" |
| `FileHandling.Kept` | FileHandler.py:30-32 | only digits and points are kept |
| `FileHandling.KeptAppend` | FileHandler.py:30-32 | what is kept of two texts is what is kept of each, in order |
| `FileHandling.KeptAll` | FileHandler.py:30-32 | digits and points are all kept |
| `FileHandling.ParseDecimal` | FileHandler.py:33 | `float()` of digits and points is never negative |
| `FileHandling.ParseDecimalDigits` | FileHandler.py:33 | digits read as their integer value |
| `FileHandling.ParseDecimalPoint` | FileHandler.py:33 | digits around one point read as the decimal they write ("1.", ".5" included) |
| `FileHandling.ParseDecimalTwoPoints` | FileHandler.py:33-35 | a second point makes `float()` fail |
| `FileHandling.ParseDecimalNoDigit` | FileHandler.py:33-35 | "" and points alone make `float()` fail |
| `FileHandling.ExtractSpec` | FileHandler.py:26-35 | the value is never negative and is 0 without ':' |
| `FileHandling.ExtractOf` | FileHandler.py:29-33 | the value of "name:text" is read from `text` alone |
| `FileHandling.ExtractSkips` | FileHandler.py:30-32 | a character that is neither a digit nor a point is dropped, joining the digits around it |
| `FileHandling.ExtractDropsSign` | FileHandler.py:30-32 | a minus sign is dropped: a negative value reads as positive |
| `FileHandling.ExtractOfDigits` | FileHandler.py:26-35 | "name:digits" reads as their value, as `stringToFloat` reads it |
| `FileHandling.ExtractNoDigit` | FileHandler.py:33-35 | no digit after ':' reads as 0, as with `stringToFloat` |
| `FileHandling.ExtractTwoPoints` | FileHandler.py:33-35 | "a:1.2.3" reads as 0, where `stringToFloat` reads 1.2 (the match stops at the second point) |
| `FileHandling.StringToFloatTwoPoints` | Main.py:14-16 | `stringToFloat` of "a:1.2.3" is the value of the match "1.2" |
| `FileHandling.CellDelta` | FileHandler.py:38-46 | present exactly when both cells are |
| `FileHandling.CellDeltaOfCells` | FileHandler.py:43-46 | when both cells are present, the delta is the current line's value minus the delta line's |
| `FileHandling.CellDeltaSelf` | FileHandler.py:44 | a line compared with itself gives 0 |
| `FileHandling.CellDeltaSwap` | FileHandler.py:44 | swapping the lines negates the delta |
| `FileHandling.FileHandler.constructor` | FileHandler.py:7-11 | empty path, no rows, both lines at 0 |
| `FileHandling.FileHandler.OpenFile` | FileHandler.py:14-18 | the rows read become the data and are returned; nothing else changes |
| `FileHandling.FileHandler.CellName` | FileHandler.py:20-24 | the label of column `i` of the current line; None where an index is out of range |
| `FileHandling.FileHandler.ExtractValue` | FileHandler.py:26-35 | the character loop computes ExtractSpec: `float()` of the digits and points after the first ':', 0.0 on failure |
| `FileHandling.FileHandler.DisplayDelta` | FileHandler.py:38-46 | the current line's value of column `i` minus the delta line's, CellDelta |

## Left out

- The GUI (`src/gui.py`, `src/tooltip.py`, `GUI.py`): widgets, dialogs, tooltips and what `display_*` draw. The values the controller reads from the GUI are parameters; what it asks the GUI to show is an `Outcome`.
- `pd.read_csv` and dtype inference. The parsed table is a parameter whose columns are text or float64 (int64 columns are held as float64). Other dtypes (bool, datetime, mixed) are not modelled.
- Column names repeated after `strip()`: pandas keeps duplicates, and `df[name]` then returns several columns. The model always uses the first column of that name.
- `os.getcwd()` and the `directory` field the open handler updates (src/controller.py:30, 53): they only seed the file dialog.
- `on_indicator_selected` (src/controller.py:77-85) updates a tooltip, clears the selection and calls `on_inputs_changed`. It is OnInputsChanged with an empty selection and has no member of its own.
- `get_country_col`, `get_indicator_col`, `set_gui` and `_get_user_values`: plain getters and setters, replaced by the constants COUNTRY and INDICATOR and by parameters.
- Floating point: finite float64 values are exact reals. `(end - start) / start * 100` is computed exactly before rounding, so the float64 rounding of the intermediate steps is not modelled, and neither is the sign of zero.
- Handler.DeltaDf: requires that neither year names the COUNTRY column. Only four-digit texts reach it from the controller; with COUNTRY the subtraction would raise TypeError.
- Ordering.SortBy: promises only the order and the contents. pandas' default quicksort does not keep the order of rows with equal keys, and the model does not say which order they come in.
- Handler.DeltaDf: the rows are stated as a permutation of the matching rows ordered by country, not a fixed order among rows of the same country, for the reason above.
- Handler.DataHandler.ToggleSort: the clicked column is one of the four of the view (0 to 3), the only ones a heading click gives. `df.columns[icol]` with another index is not modelled.
- Controller.AppController.OnHeadingClicked: the same restriction on `icol`.
- LegacyHandler.GetDeltaDf: requires that the COUNTRY and INDICATOR columns, where present, hold text. A country listed twice (a non-unique index, where `.loc` returns several values) is not modelled. The constructor (data_handler.py:8-10) is Handler.Stripped applied to the parsed table.
- LegacyHandler.GetDeltaDf: as with Handler.DeltaDf, the rows are stated as a permutation of the category's changes ordered by country.
- `Main.py` reads the CSV file when imported (lines 4-6) and prints throughout. The rows are parameters, and what is printed is returned as values (`DeltaLine`, positions).
- `display_line` (Main.py:55-63) only prints the cells of a line.
- Prototype.MainLoop: the `display_delta` inside the loop (Main.py:104) can itself raise IndexError when rows have different lengths. The loop records positions and not this crash; Prototype.DisplayDelta models it for one pair of rows, and Prototype.Session for the summary.
- Prototype.Navigate: takes what `direction` and `delta` give for the command as parameters. Both are pure functions of the command, so calling them once gives the same values as calling them per letter. Prototype.Prompt connects the two.
- Prototype.StringToFloat: its value for a cell with a match is stated by the lemmas StringToFloatLeftmost and StringToFloatNoDigit, not by its own ensures.
- Prototype.Direction: stated through the lemmas DirectionOfCount and DirectionNeedsCount beyond the single-letter case.
- Prototype.Delta: stated through DeltaSelects beyond the bounds.
- Digits are ASCII `0`-`9` only. Python's `\d`, `int()` and `float()` also accept every other Unicode decimal digit (Arabic-Indic ones, for instance), and `str.isdigit` is also true for non-decimal digits such as superscripts, which `float()` refuses. The model covers neither. `float()` results are exact reals.
- `FileHandler.open_file` opens the file at `self.path` (FileHandler.py:15) and ignores its argument. The rows the CSV reader gives are a parameter of OpenFile, and the file reading is not modelled. `split_data` starts as `""` in the source and as no rows here; both raise IndexError when indexed.
- FileHandling.FileHandler.DisplayDelta: its `line1` and `line2` parameters are unused, as in the source.
