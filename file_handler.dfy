/** The helper class of the command-line prototype (FileHandler.py): the
    rows of the file, the current line and the delta line, the label of a
    cell, and the value read out of a "name: value" cell by keeping its
    digits and points. Reading the file is a parameter. */
module FileHandling {
  import opened Wrappers
  import opened Text
  import opened Prototype

  // ---------------------------------------------------------------------
  // indexing

  /** `s[i]` with Python's indexing: a negative index counts from the end;
      None where Python raises IndexError. */
  function PyAt<T>(s: seq<T>, i: int): (r: Option<T>)
    ensures r.Some? <==> -|s| <= i < |s|
    ensures r.Some? && i >= 0 ==> r.value == s[i]
    ensures r.Some? && i < 0 ==> r.value == s[|s| + i]
  {
    if 0 <= i < |s| then Some(s[i])
    else if -|s| <= i < 0 then Some(s[|s| + i])
    else None
  }

  /** `data[line][i]`, None where either index is out of range. */
  function Cell(data: seq<seq<string>>, line: int, i: int): (r: Option<string>)
    ensures r.Some? <==> PyAt(data, line).Some? && PyAt(PyAt(data, line).value, i).Some?
  {
    match PyAt(data, line)
    case None => None
    case Some(row) => PyAt(row, i)
  }

  // ---------------------------------------------------------------------
  // the label of a cell

  /** What `cell_name` makes of a cell: the text before the first ':'
      followed by " :", or the cell itself when it has no ':'. */
  function CellLabel(cell: string): (r: string)
    ensures ':' !in cell ==> r == cell
    ensures ':' in cell ==> (|r| >= 2 && r[|r| - 2..] == " :" &&
      ':' !in r[..|r| - 2] && |r| - 2 < |cell| && cell[..|r| - 2] == r[..|r| - 2] && cell[|r| - 2] == ':')
  {
    if Find(cell, ':') >= 0 then DataName(cell) + " :" else cell
  }

  /** The label of "name:value" is "name :". */
  lemma CellLabelOf(name: string, value: string)
    requires ':' !in name
    ensures CellLabel(name + [':'] + value) == name + " :"
  {
    DataNameOf(name, value);
  }

  // ---------------------------------------------------------------------
  // the value of a cell

  /** The characters `extract_value` keeps. */
  predicate IsKept(c: char) {
    IsDigit(c) || c == '.'
  }

  predicate AllKept(s: string) {
    forall i :: 0 <= i < |s| ==> IsKept(s[i])
  }

  /** The digits and points of `s`, in order. */
  function Kept(s: string): (r: string)
    ensures AllKept(r) && |r| <= |s|
  {
    if |s| == 0 then []
    else Kept(s[..|s| - 1]) + (if IsKept(s[|s| - 1]) then [s[|s| - 1]] else [])
  }

  lemma {:induction false} KeptAppend(x: string, y: string)
    ensures Kept(x + y) == Kept(x) + Kept(y)
    decreases |y|
  {
    if |y| > 0 {
      var y0 := y[..|y| - 1];
      assert (x + y)[..|x + y| - 1] == x + y0;
      KeptAppend(x, y0);
    } else {
      assert x + y == x;
    }
  }

  /** Text made only of digits and points is kept whole. */
  lemma {:induction false} KeptAll(s: string)
    requires AllKept(s)
    ensures Kept(s) == s
    decreases |s|
  {
    if |s| > 0 {
      KeptAll(s[..|s| - 1]);
      assert s == s[..|s| - 1] + [s[|s| - 1]];
    }
  }

  /** Python's `float()` on text made of digits and points: "123", "1.5",
      "1." and ".5" read as decimals; "", "." and any text with two points
      raise ValueError (None). */
  function ParseDecimal(num: string): (r: Option<real>)
    requires AllKept(num)
    ensures r.Some? ==> r.value >= 0.0
  {
    match After(num, '.')
    case None =>
      if |num| == 0 then None
      else
        assert AllDigits(num) by {
          forall i | 0 <= i < |num| ensures IsDigit(num[i]) {
            assert num[i] in num;
          }
        }
        Some(DigitsValue(num) as real)
    case Some(frac) =>
      var whole := Before(num, '.');
      if '.' in frac || |whole| + |frac| == 0 then None
      else
        PartsDigits(num, whole, frac);
        Some(NumberMatch(0, whole, Some(frac)).Value())
  }

  /** Both sides of the only point of kept text are digits. */
  lemma PartsDigits(num: string, whole: string, frac: string)
    requires AllKept(num) && num == whole + ['.'] + frac
    requires '.' !in whole && '.' !in frac
    ensures AllDigits(whole) && AllDigits(frac)
  {
    forall i | 0 <= i < |whole| ensures IsDigit(whole[i]) {
      assert num[i] == whole[i];
      assert whole[i] in whole;
    }
    forall i | 0 <= i < |frac| ensures IsDigit(frac[i]) {
      assert num[|whole| + 1 + i] == frac[i];
      assert frac[i] in frac;
    }
  }

  /** Digits alone read as their integer value. */
  lemma ParseDecimalDigits(d: string)
    requires AllDigits(d) && |d| > 0
    ensures AllKept(d) && ParseDecimal(d) == Some(DigitsValue(d) as real)
  {
    NoPointInDigits(d);
  }

  /** Digits around one point read as the decimal they write. */
  lemma ParseDecimalPoint(whole: string, frac: string)
    requires AllDigits(whole) && AllDigits(frac) && |whole| + |frac| > 0
    ensures AllKept(whole + "." + frac)
    ensures ParseDecimal(whole + "." + frac) == Some(NumberMatch(0, whole, Some(frac)).Value())
  {
    NoPointInDigits(whole);
    NoPointInDigits(frac);
    assert whole + "." + frac == whole + ['.'] + frac;
    SplitAtFirst(whole, '.', frac);
  }

  lemma NoPointInDigits(d: string)
    requires AllDigits(d)
    ensures '.' !in d && AllKept(d)
  {
    forall i | 0 <= i < |d| ensures d[i] != '.' {
      assert IsDigit(d[i]);
    }
  }

  /** A second point makes `float()` fail. */
  lemma ParseDecimalTwoPoints(a: string, rest: string)
    requires AllKept(a + ['.'] + rest) && '.' !in a && '.' in rest
    ensures ParseDecimal(a + ['.'] + rest) == None
  {
    SplitAtFirst(a, '.', rest);
  }

  lemma AllKeptJoin(x: string, y: string)
    requires AllKept(x) && AllKept(y)
    ensures AllKept(x + y)
  {
    forall i | 0 <= i < |x + y| ensures IsKept((x + y)[i]) {
      if i >= |x| {
        assert (x + y)[i] == y[i - |x|];
      }
    }
  }

  /** Without a digit there is no number: "" and "." fail. */
  lemma ParseDecimalNoDigit(s: string)
    requires AllKept(s) && forall i :: 0 <= i < |s| ==> !IsDigit(s[i])
    ensures ParseDecimal(s) == None
  {
    assert forall i :: 0 <= i < |s| ==> s[i] == '.';
  }

  /** `extract_value`: the digits and points after the first ':', read by
      `float()`; 0.0 when the cell has no ':' or `float()` fails. */
  function ExtractSpec(cell: string): (v: real)
    ensures v >= 0.0
    ensures ':' !in cell ==> v == 0.0
  {
    match After(cell, ':')
    case None => 0.0
    case Some(t) => ReadKept(t)
  }

  /** `float()` of the digits and points of `t`, 0.0 when it fails. */
  function ReadKept(t: string): (v: real)
    ensures v >= 0.0
  {
    match ParseDecimal(Kept(t))
    case None => 0.0
    case Some(x) => x
  }

  /** The value of "name:text" is read from `text` alone. */
  lemma ExtractOf(pre: string, t: string)
    requires ':' !in pre
    ensures ExtractSpec(pre + [':'] + t) == ReadKept(t)
  {
    SplitAtFirst(pre, ':', t);
  }

  lemma KeptSkips(x: string, c: char, y: string)
    requires !IsKept(c)
    ensures Kept(x + [c] + y) == Kept(x + y)
  {
    KeptAppend(x + [c], y);
    KeptAppend(x, [c]);
    KeptAppend(x, y);
    assert [c][..0] == [];
  }

  /** A character that is neither a digit nor a point is skipped: the
      digits on both sides of it are read as one number. */
  lemma ExtractSkips(pre: string, x: string, c: char, y: string)
    requires ':' !in pre && !IsKept(c)
    ensures ExtractSpec(pre + [':'] + (x + [c] + y)) == ExtractSpec(pre + [':'] + (x + y))
  {
    ExtractOf(pre, x + [c] + y);
    ExtractOf(pre, x + y);
    KeptSkips(x, c, y);
  }

  /** A minus sign is dropped, so a negative value reads as positive. */
  lemma ExtractDropsSign(pre: string, t: string)
    requires ':' !in pre
    ensures ExtractSpec(pre + [':', '-'] + t) == ExtractSpec(pre + [':'] + t)
  {
    var u := ['-'] + t;
    assert pre + [':', '-'] + t == pre + [':'] + u;
    ExtractOf(pre, u);
    ExtractOf(pre, t);
    KeptAppend(['-'], t);
    assert ['-'][..0] == [];
    assert Kept(['-']) == [];
    assert Kept(u) == Kept(t);
  }

  /** A cell "name:digits" reads as the value of its digits, as with
      `stringToFloat`. */
  lemma ExtractOfDigits(pre: string, d: string)
    requires ':' !in pre && AllDigits(d) && |d| > 0
    ensures ExtractSpec(pre + [':'] + d) == DigitsValue(d) as real
    ensures ExtractSpec(pre + [':'] + d) == StringToFloat(pre + [':'] + d)
  {
    ExtractOf(pre, d);
    NoPointInDigits(d);
    KeptAll(d);
    ParseDecimalDigits(d);
    StringToFloatOfDigits(pre, d);
  }

  /** Text without a digit keeps none. */
  lemma {:induction false} KeptNoDigit(t: string)
    requires forall i :: 0 <= i < |t| ==> !IsDigit(t[i])
    ensures forall i :: 0 <= i < |Kept(t)| ==> !IsDigit(Kept(t)[i])
    decreases |t|
  {
    if |t| > 0 {
      KeptNoDigit(t[..|t| - 1]);
    }
  }

  /** With no digit after the first ':' the cell reads as 0, as with
      `stringToFloat`: "a:." and "a:-" both give 0. */
  lemma ExtractNoDigit(pre: string, t: string)
    requires ':' !in pre && forall i :: 0 <= i < |t| ==> !IsDigit(t[i])
    ensures ExtractSpec(pre + [':'] + t) == 0.0
    ensures ExtractSpec(pre + [':'] + t) == StringToFloat(pre + [':'] + t)
  {
    ExtractOf(pre, t);
    KeptNoDigit(t);
    ParseDecimalNoDigit(Kept(t));
    StringToFloatNoDigit(pre, t);
  }

  /** A second point makes the cell read as 0, where `stringToFloat`
      reads the number before it: "a:1.2.3" gives 0, not 1.2. */
  lemma ExtractTwoPoints(pre: string, a: string, b: string, c: string)
    requires ':' !in pre && AllDigits(a) && AllDigits(b) && AllDigits(c)
    ensures ExtractSpec(pre + [':'] + (a + ['.'] + (b + ['.'] + c))) == 0.0
    ensures |a| > 0 ==>
      StringToFloat(pre + [':'] + (a + ['.'] + (b + ['.'] + c))) == NumberMatch(0, a, Some(b)).Value()
  {
    if |a| > 0 {
      StringToFloatTwoPoints(pre, a, b, c);
    }
    var rest := b + ['.'] + c;
    var t := a + ['.'] + rest;
    ExtractOf(pre, t);
    NoPointInDigits(a);
    NoPointInDigits(b);
    NoPointInDigits(c);
    assert AllKept(['.']);
    AllKeptJoin(b, ['.']);
    AllKeptJoin(b + ['.'], c);
    AllKeptJoin(a, ['.']);
    AllKeptJoin(a + ['.'], rest);
    KeptAll(t);
    assert rest[|b|] == '.';
    ParseDecimalTwoPoints(a, rest);
  }

  /** `stringToFloat` of "a:1.2.3" stops its match at the second point. */
  lemma StringToFloatTwoPoints(pre: string, a: string, b: string, c: string)
    requires ':' !in pre && AllDigits(a) && |a| > 0 && AllDigits(b) && AllDigits(c)
    ensures StringToFloat(pre + [':'] + (a + ['.'] + (b + ['.'] + c))) == NumberMatch(0, a, Some(b)).Value()
  {
    var t := a + ['.'] + (b + ['.'] + c);
    assert t[..|a|] == a && t[|a|] == '.';
    assert t[|a| + 1..] == b + ['.'] + c;
    assert t[|a| + 1..][..|b|] == b;
    assert t[|a| + 1 + |b|] == '.';
    PointMatch(t, a, b);
    StringToFloatLeftmost(pre, t, NumberMatch(0, a, Some(b)));
  }

  // ---------------------------------------------------------------------
  // the delta between the current line and the delta line

  /** What `display_delta` returns for column `i`: the value of the cell
      on line `current` minus the one on line `delta`; None where an index
      is out of range. */
  function CellDelta(data: seq<seq<string>>, current: int, delta: int, i: int): (r: Option<real>)
    ensures r.Some? <==> Cell(data, current, i).Some? && Cell(data, delta, i).Some?
  {
    match (Cell(data, current, i), Cell(data, delta, i))
    case (Some(c1), Some(c2)) => Some(ExtractSpec(c1) - ExtractSpec(c2))
    case _ => None
  }

  /** The delta of two present cells is the difference of their values. */
  lemma CellDeltaOfCells(data: seq<seq<string>>, current: int, delta: int, i: int, v1: real, v2: real)
    requires Cell(data, current, i).Some? && Cell(data, delta, i).Some?
    requires v1 == ExtractSpec(Cell(data, current, i).value)
    requires v2 == ExtractSpec(Cell(data, delta, i).value)
    ensures CellDelta(data, current, delta, i) == Some(v1 - v2)
  {
  }

  /** A line compared with itself shows no change. */
  lemma CellDeltaSelf(data: seq<seq<string>>, line: int, i: int)
    requires Cell(data, line, i).Some?
    ensures CellDelta(data, line, line, i) == Some(0.0)
  {
  }

  /** Swapping the two lines negates the delta. */
  lemma CellDeltaSwap(data: seq<seq<string>>, current: int, delta: int, i: int)
    ensures CellDelta(data, current, delta, i).Some? <==> CellDelta(data, delta, current, i).Some?
    ensures CellDelta(data, current, delta, i).Some? ==>
      CellDelta(data, current, delta, i).value == -CellDelta(data, delta, current, i).value
  {
  }

  // ---------------------------------------------------------------------
  // the class

  class FileHandler {
    var path: string
    var splitData: seq<seq<string>>
    var currentLine: int
    var deltaLine: int

    /** `__init__`: no path, no rows, both lines at the first one. */
    constructor()
      ensures path == "" && splitData == [] && currentLine == 0 && deltaLine == 0
    {
      path := "";
      splitData := [];
      currentLine := 0;
      deltaLine := 0;
    }

    /** `open_file`: `rows` are the rows the CSV reader gave for the file
        at `this.path` (the argument is not used); they become the data. */
    method OpenFile(path: string, rows: seq<seq<string>>) returns (r: seq<seq<string>>)
      modifies this
      ensures splitData == rows && r == rows
      ensures this.path == old(this.path) && currentLine == old(currentLine) && deltaLine == old(deltaLine)
    {
      splitData := rows;
      r := splitData;
    }

    /** `cell_name`: the label of column `i` of the current line; None
        where an index is out of range. */
    function CellName(i: int): (r: Option<string>)
      reads this
      ensures r.Some? <==> Cell(splitData, currentLine, i).Some?
      ensures r.Some? ==> r.value == CellLabel(Cell(splitData, currentLine, i).value)
    {
      match Cell(splitData, currentLine, i)
      case None => None
      case Some(cell) => Some(CellLabel(cell))
    }

    /** `extract_value`: the loop over the characters after the first ':'
        that collects the digits and points, then `float()`. */
    method ExtractValue(cell: string) returns (v: real)
      ensures v == ExtractSpec(cell)
    {
      var parts := SplitOnce(cell, ':');
      if |parts| < 2 {
        assert After(cell, ':') == None;
        return 0.0;
      }
      var t := parts[1];
      var num := "";
      var i := 0;
      while i < |t|
        invariant 0 <= i <= |t|
        invariant num == Kept(t[..i])
      {
        var x := t[i];
        assert t[..i + 1][..i] == t[..i];
        if IsDigit(x) || x == '.' {
          num := num + [x];
        }
        i := i + 1;
      }
      assert t[..|t|] == t;
      assert ExtractSpec(cell) == ReadKept(t);
      match ParseDecimal(num)
      case None =>
        v := 0.0;
      case Some(x) =>
        v := x;
    }

    /** `display_delta`: the value of column `i` on the current line minus
        its value on the delta line; `line1` and `line2` are not used. */
    method DisplayDelta(line1: seq<string>, line2: seq<string>, i: int) returns (r: Option<real>)
      ensures r == CellDelta(splitData, currentLine, deltaLine, i)
    {
      var c1 := Cell(splitData, currentLine, i);
      var c2 := Cell(splitData, deltaLine, i);
      if c1.Some? && c2.Some? {
        var v1 := ExtractValue(c1.value);
        var v2 := ExtractValue(c2.value);
        r := Some(v1 - v2);
        CellDeltaOfCells(splitData, currentLine, deltaLine, i, v1, v2);
      } else {
        r := None;
      }
    }
  }
}
