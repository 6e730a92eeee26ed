/** The command-line prototype (Main.py): cells of the form "name: value",
    the delta between two lines of the file, and the navigation commands
    typed at the prompt. The rows of the file and the typed commands are
    parameters; what the prototype prints becomes the values returned. */
module Prototype {
  import opened Wrappers
  import opened Text

  // ---------------------------------------------------------------------
  // cells

  /** `stringToFloat`: the first unsigned number after the first ':', and
      0 when the cell has no ':'. */
  function StringToFloat(s: string): (v: real)
    ensures v >= 0.0
    ensures ':' !in s ==> v == 0.0
  {
    match After(s, ':')
    case None => 0.0
    case Some(t) =>
      match SearchNumber(t)
      case None => 0.0
      case Some(m) => m.Value()
  }

  /** Without a digit after the first ':' the cell reads as 0. */
  lemma StringToFloatNoDigit(pre: string, t: string)
    requires ':' !in pre && forall i :: 0 <= i < |t| ==> !IsDigit(t[i])
    ensures StringToFloat(pre + [':'] + t) == 0.0
  {
    SplitAtFirst(pre, ':', t);
  }

  /** Otherwise it reads as the leftmost match of `\d+(\.\d*)?` after the
      first ':'. */
  lemma StringToFloatLeftmost(pre: string, t: string, m: NumberMatch)
    requires ':' !in pre && IsLeftmostMatch(t, m)
    ensures StringToFloat(pre + [':'] + t) == m.Value()
  {
    SplitAtFirst(pre, ':', t);
    MatchStartsWithDigit(t, m);
    LeftmostIsFound(t, SearchNumber(t).value);
  }

  /** A minus sign in front of the number is not part of the match: the
      value read is the same without it. */
  lemma StringToFloatIgnoresSign(pre: string, t: string)
    requires ':' !in pre
    ensures StringToFloat(pre + [':', '-'] + t) == StringToFloat(pre + [':'] + t)
  {
    var u := ['-'] + t;
    assert pre + [':', '-'] + t == pre + [':'] + u;
    assert u[1..] == t;
    match SearchNumber(t)
    case None =>
      StringToFloatNoDigit(pre, t);
      StringToFloatNoDigit(pre, u);
    case Some(m) =>
      ShiftMatch(u, m);
      StringToFloatLeftmost(pre, t, m);
      StringToFloatLeftmost(pre, u, m.(at := m.at + 1));
  }

  /** A cell "name:digits" reads as the value of its digits. */
  lemma StringToFloatOfDigits(pre: string, d: string)
    requires ':' !in pre && AllDigits(d) && |d| > 0
    ensures StringToFloat(pre + [':'] + d) == DigitsValue(d) as real
  {
    SplitAtFirst(pre, ':', d);
    SearchDigits(d);
  }

  /** `data_name`: the text before the first ':', or the whole cell. */
  function DataName(s: string): (r: string)
    ensures ':' !in r
    ensures ':' !in s ==> r == s
    ensures ':' in s ==> |r| < |s| && s[..|r|] == r && s[|r|] == ':'
  {
    Before(s, ':')
  }

  /** The name of "name:value" is `name`. */
  lemma DataNameOf(name: string, value: string)
    requires ':' !in name
    ensures DataName(name + [':'] + value) == name
  {
    SplitAtFirst(name, ':', value);
  }

  // ---------------------------------------------------------------------
  // the delta between two lines

  /** What `display_delta` prints for one column. */
  datatype DeltaLine =
    | EmptyCells
    | Rise(name: string, change: real)
    | Fall(name: string, change: real)
    | Flat(name: string)

  /** One column of `display_delta`: "Empty cell(s)" when either cell is
      empty, otherwise the change from the first line to the second,
      classified by its sign, under the name of the first cell. */
  function Classify(cell1: string, cell2: string): (l: DeltaLine)
    ensures l.EmptyCells? <==> cell1 == "" || cell2 == ""
    ensures !l.EmptyCells? ==> l.name == DataName(cell1)
    ensures l.Rise? <==> !l.EmptyCells? && StringToFloat(cell2) > StringToFloat(cell1)
    ensures l.Fall? <==> !l.EmptyCells? && StringToFloat(cell2) < StringToFloat(cell1)
    ensures l.Rise? || l.Fall? ==> l.change == StringToFloat(cell2) - StringToFloat(cell1)
  {
    if cell1 == "" || cell2 == "" then EmptyCells
    else
      var res := StringToFloat(cell2) - StringToFloat(cell1);
      if res > 0.0 then Rise(DataName(cell1), res)
      else if res < 0.0 then Fall(DataName(cell1), res)
      else Flat(DataName(cell1))
  }

  /** `display_delta` on the two rows: one line per column of `row1`, in
      order. A shorter `row2` stops it with IndexError at its end. */
  method DisplayDelta(row1: seq<string>, row2: seq<string>) returns (lines: seq<DeltaLine>, crashed: bool)
    ensures crashed <==> |row2| < |row1|
    ensures |lines| == if crashed then |row2| else |row1|
    ensures forall i :: 0 <= i < |lines| ==> lines[i] == Classify(row1[i], row2[i])
  {
    lines := [];
    var i := 0;
    while i < |row1|
      invariant 0 <= i <= |row1| && i <= |row2|
      invariant |lines| == i
      invariant forall k :: 0 <= k < i ==> lines[k] == Classify(row1[k], row2[k])
    {
      if i >= |row2| {
        return lines, true;
      }
      lines := lines + [Classify(row1[i], row2[i])];
      i := i + 1;
    }
    crashed := false;
  }

  // ---------------------------------------------------------------------
  // commands

  /** Why reading a count fails: `re.search` found no digit (AttributeError
      on None), or the match has a point and `int()` refuses it
      (ValueError). */
  datatype CommandError = NoNumber | NotInteger

  /** `int(re.search(r'\d+(\.\d*)?', s).group())`: AttributeError exactly
      when the text has no digit; a count read is the digits of a leftmost
      match without a point. */
  function ParseCount(s: string): (r: Result<nat, CommandError>)
    ensures r == Err(NoNumber) <==> forall i :: 0 <= i < |s| ==> !IsDigit(s[i])
    ensures r.Ok? ==> exists m :: IsLeftmostMatch(s, m) && m.fraction.None? && r.value == DigitsValue(m.whole)
  {
    match SearchNumber(s)
    case None => Err(NoNumber)
    case Some(m) => if m.fraction.Some? then Err(NotInteger) else Ok(DigitsValue(m.whole))
  }

  /** With a match, the count is its digits, and a point in it is refused. */
  lemma ParseCountLeftmost(s: string, m: NumberMatch)
    requires IsLeftmostMatch(s, m)
    ensures m.fraction.Some? ==> ParseCount(s) == Err(NotInteger)
    ensures m.fraction.None? ==> ParseCount(s) == Ok(DigitsValue(m.whole))
  {
    MatchStartsWithDigit(s, m);
    LeftmostIsFound(s, SearchNumber(s).value);
  }

  /** The decimal text of a count reads back as that count. */
  lemma ParseCountOfDigits(n: nat)
    ensures ParseCount(DigitString(n)) == Ok(n)
  {
    SearchDigits(DigitString(n));
  }

  /** `direction`: 1 for exactly "n" or "p"; otherwise the count that
      starts the text before the first space. */
  function Direction(cmd: string): (r: Result<nat, CommandError>)
    ensures cmd == "n" || cmd == "p" ==> r == Ok(1)
  {
    if cmd == "n" || cmd == "p" then Ok(1)
    else ParseCount(Before(cmd, ' '))
  }

  /** A count typed before the letters moves by that count. */
  lemma DirectionOfCount(n: nat, rest: string)
    ensures Direction(DigitString(n) + [' '] + rest) == Ok(n)
  {
    var d := DigitString(n);
    assert ' ' !in d;
    SplitAtFirst(d, ' ', rest);
    ParseCountOfDigits(n);
  }

  /** A repeated letter has no count and stops the program. */
  lemma DirectionNeedsCount()
    ensures Direction("nn").Err? && Direction("nd").Err? && Direction("pp").Err?
  {
    assert ' ' !in "nn" && ' ' !in "nd" && ' ' !in "pp";
  }

  /** `delta`: the count after the first space (or in the whole command),
      as a 0-based line of the file when it names one, 0 otherwise. */
  function Delta(cmd: string, nRows: nat): (r: Result<nat, CommandError>)
    ensures r.Ok? && nRows > 0 ==> r.value < nRows
    ensures r.Ok? && nRows == 0 ==> r.value == 0
  {
    var text := if ' ' in cmd then After(cmd, ' ').value else cmd;
    match ParseCount(text)
    case Err(e) => Err(e)
    case Ok(n) => if n <= 0 || n > nRows then Ok(0) else Ok(n - 1)
  }

  /** "d k" selects line k, counted from 1, and falls back to the first
      line for a count outside the file. */
  lemma DeltaSelects(k: nat, nRows: nat)
    ensures 1 <= k <= nRows ==> Delta("d " + DigitString(k), nRows) == Ok(k - 1)
    ensures k == 0 || k > nRows ==> Delta("d " + DigitString(k), nRows) == Ok(0)
  {
    DeltaText(k);
    ParseCountOfDigits(k);
  }

  lemma DeltaText(k: nat)
    ensures ' ' in "d " + DigitString(k)
    ensures After("d " + DigitString(k), ' ') == Some(DigitString(k))
  {
    assert "d " + DigitString(k) == "d" + [' '] + DigitString(k);
    SplitAtFirst("d", ' ', DigitString(k));
  }

  // ---------------------------------------------------------------------
  // the navigation step

  /** The current line and the line deltas are taken from, both 0-based. */
  datatype Position = Position(line: int, deltaLine: int)

  /** How many times `c` occurs in `s`. */
  function Occurrences(s: string, c: char): (n: nat)
    ensures n <= |s|
    ensures n == 0 <==> c !in s
  {
    if |s| == 0 then 0
    else
      assert s == s[..|s| - 1] + [s[|s| - 1]];
      Occurrences(s[..|s| - 1], c) + (if s[|s| - 1] == c then 1 else 0)
  }

  predicate HasMove(cmd: string) {
    'n' in cmd || 'p' in cmd
  }

  /** The effect of one command, in closed form, given what `direction`
      and `delta` give for it: each 'n' moves down and each 'p' up by the
      direction; the delta line becomes the delta when the last character
      is 'd' and the line above the new current one otherwise; an empty
      command changes nothing. None when a letter calls `direction` or
      `delta` and the call raises. */
  function Apply(cmd: string, pos: Position, dir: Result<nat, CommandError>, dlt: Result<nat, CommandError>): Option<Position> {
    if (HasMove(cmd) && dir.Err?) || ('d' in cmd && dlt.Err?) then None
    else if |cmd| == 0 then Some(pos)
    else
      var stride := if dir.Ok? then dir.value else 0;
      var line := pos.line + (Occurrences(cmd, 'n') - Occurrences(cmd, 'p')) * stride;
      Some(Position(line, if cmd[|cmd| - 1] == 'd' then dlt.value else line - 1))
  }

  /** One command typed at the prompt, against a file of `nRows` lines. It
      raises exactly when a letter calls `direction` or `delta` and the
      call raises; an empty command changes nothing; after a final 'd' the
      delta line is a line of the file (the first one when the number is
      out of range), otherwise it is the line above the new current one. */
  function Step(cmd: string, pos: Position, nRows: nat): (r: Option<Position>)
    ensures r.None? <==> (HasMove(cmd) && Direction(cmd).Err?) || ('d' in cmd && Delta(cmd, nRows).Err?)
    ensures |cmd| == 0 ==> r == Some(pos)
    ensures r.Some? && |cmd| > 0 && cmd[|cmd| - 1] == 'd' ==>
      0 <= r.value.deltaLine && (nRows > 0 ==> r.value.deltaLine < nRows)
    ensures r.Some? && |cmd| > 0 && cmd[|cmd| - 1] != 'd' ==> r.value.deltaLine == r.value.line - 1
  {
    Apply(cmd, pos, Direction(cmd), Delta(cmd, nRows))
  }

  /** The loop over the characters of one command (the body of the main
      loop after `input`), given what `direction` and `delta` give for the
      command; both are pure, so only the letters that call them let their
      failure through. */
  method Navigate(cmd: string, pos: Position, dir: Result<nat, CommandError>, dlt: Result<nat, CommandError>)
    returns (r: Option<Position>)
    ensures r == Apply(cmd, pos, dir, dlt)
  {
    var line := pos.line;
    var delt := pos.deltaLine;
    var i := 0;
    while i < |cmd|
      invariant 0 <= i <= |cmd|
      invariant Apply(cmd[..i], pos, dir, dlt) == Some(Position(line, delt))
    {
      var c := cmd[i];
      ApplyAppend(cmd[..i], c, pos, dir, dlt, Position(line, delt));
      assert cmd[..i + 1] == cmd[..i] + [c];
      if ((c == 'n' || c == 'p') && dir.Err?) || (c == 'd' && dlt.Err?) {
        assert cmd[..i + 1] + cmd[i + 1..] == cmd;
        ApplyNoneExtends(cmd[..i + 1], cmd[i + 1..], pos, dir, dlt);
        return None;
      }
      if c == 'n' {
        line := line + dir.value;
      } else if c == 'p' {
        line := line - dir.value;
      }
      if c == 'd' {
        delt := dlt.value;
      } else {
        delt := line - 1;
      }
      i := i + 1;
    }
    assert cmd[..|cmd|] == cmd;
    r := Some(Position(line, delt));
  }

  /** How many times `c` occurs in `s + [x]`. */
  lemma OccurrencesAppend(s: string, x: char, c: char)
    ensures Occurrences(s + [x], c) == Occurrences(s, c) + (if x == c then 1 else 0)
  {
    assert (s + [x])[..|s|] == s;
  }

  /** Apply, one character longer: the character moves the line or sets the
      delta line, or raises. */
  lemma ApplyAppend(s: string, c: char, pos: Position, dir: Result<nat, CommandError>,
                    dlt: Result<nat, CommandError>, p: Position)
    requires Apply(s, pos, dir, dlt) == Some(p)
    ensures Apply(s + [c], pos, dir, dlt) ==
      if ((c == 'n' || c == 'p') && dir.Err?) || (c == 'd' && dlt.Err?) then None
      else
        var line := if c == 'n' then p.line + dir.value else if c == 'p' then p.line - dir.value else p.line;
        Some(Position(line, if c == 'd' then dlt.value else line - 1))
  {
    var t := s + [c];
    assert HasMove(t) <==> HasMove(s) || c == 'n' || c == 'p';
    assert 'd' in t <==> 'd' in s || c == 'd';
    if !(((c == 'n' || c == 'p') && dir.Err?) || (c == 'd' && dlt.Err?)) {
      ApplyAppendMoves(s, c, pos, dir, dlt, p);
    }
  }

  /** ApplyAppend for a character that raises nothing. */
  lemma ApplyAppendMoves(s: string, c: char, pos: Position, dir: Result<nat, CommandError>,
                         dlt: Result<nat, CommandError>, p: Position)
    requires Apply(s, pos, dir, dlt) == Some(p)
    requires (c == 'n' || c == 'p') ==> dir.Ok?
    requires c == 'd' ==> dlt.Ok?
    ensures var line := if c == 'n' then p.line + dir.value else if c == 'p' then p.line - dir.value else p.line;
      Apply(s + [c], pos, dir, dlt) == Some(Position(line, if c == 'd' then dlt.value else line - 1))
  {
    var t := s + [c];
    var stride := if dir.Ok? then dir.value else 0;
    var moves := Occurrences(s, 'n') - Occurrences(s, 'p');
    var movesT := Occurrences(t, 'n') - Occurrences(t, 'p');
    ApplyLine(s, pos, dir, dlt, p);
    OccurrencesAppend(s, c, 'n');
    OccurrencesAppend(s, c, 'p');
    if c == 'n' {
      StrideStep(movesT, moves, stride);
    } else if c == 'p' {
      StrideStep(moves, movesT, stride);
    } else {
      assert movesT == moves;
    }
    assert t[|t| - 1] == c;
    assert HasMove(t) ==> dir.Ok? && 'd' in t ==> dlt.Ok?;
  }

  lemma StrideStep(a: int, b: int, stride: int)
    requires a == b + 1
    ensures a * stride == b * stride + stride
  {
  }

  /** The line a command leads to, in the closed form, empty command included. */
  lemma ApplyLine(s: string, pos: Position, dir: Result<nat, CommandError>,
                  dlt: Result<nat, CommandError>, p: Position)
    requires Apply(s, pos, dir, dlt) == Some(p)
    ensures p.line == pos.line + (Occurrences(s, 'n') - Occurrences(s, 'p')) * (if dir.Ok? then dir.value else 0)
  {
    if |s| == 0 {
      assert Occurrences(s, 'n') - Occurrences(s, 'p') == 0;
    }
  }

  /** Once a prefix of a command raises, the whole command raises. */
  lemma ApplyNoneExtends(s: string, t: string, pos: Position, dir: Result<nat, CommandError>,
                         dlt: Result<nat, CommandError>)
    requires Apply(s, pos, dir, dlt).None?
    ensures Apply(s + t, pos, dir, dlt).None?
  {
    if HasMove(s) {
      assert HasMove(s + t);
    }
  }

  /** One command typed at the prompt: `direction` and `delta` of the
      command, then the loop over its characters. */
  method Prompt(cmd: string, pos: Position, nRows: nat) returns (r: Option<Position>)
    ensures r == Step(cmd, pos, nRows)
  {
    r := Navigate(cmd, pos, Direction(cmd), Delta(cmd, nRows));
  }

  /** A lone "n" moves one line down, a lone "p" one line up, and the
      delta line follows one line above. */
  lemma SingleLetters(pos: Position, nRows: nat)
    ensures Step("n", pos, nRows) == Some(Position(pos.line + 1, pos.line))
    ensures Step("p", pos, nRows) == Some(Position(pos.line - 1, pos.line - 2))
  {
    assert "n"[..0] == [] && "p"[..0] == [];
  }

  /** How a session ended. */
  datatype SessionEnd =
    | LeftData(last: Position)   // the loop guard failed: the line left the file
    | OutOfInput(at: Position)   // the prompt waits for a command not given
    | Raised                     // a command raised
    | SummaryRaised              // the summary before the loop raised IndexError

  /** `shown` is a run of the main loop over `commands`: each position
      displayed is the previous one moved by the command typed there. */
  ghost predicate Trace(commands: seq<string>, shown: seq<Position>, nRows: nat) {
    (|shown| > 1 ==> |shown| - 1 <= |commands|) &&
    forall k {:trigger Step(commands[k], shown[k], nRows)} :: 0 <= k < |shown| - 1 ==>
      Step(commands[k], shown[k], nRows) == Some(shown[k + 1])
  }

  /** A run goes on with the position the last command led to. */
  lemma TraceExtend(commands: seq<string>, shown: seq<Position>, pos: Position, nRows: nat)
    requires Trace(commands, shown, nRows)
    requires |shown| > 0 ==> |shown| - 1 < |commands| && Step(commands[|shown| - 1], shown[|shown| - 1], nRows) == Some(pos)
    ensures Trace(commands, shown + [pos], nRows)
  {
    var s := shown + [pos];
    forall k | 0 <= k < |s| - 1
      ensures Step(commands[k], s[k], nRows) == Some(s[k + 1])
    {
      if k + 1 < |shown| {
        assert s[k + 1] == shown[k + 1];
      }
    }
  }

  /** The last position of a run is where the command before it led. */
  lemma TraceLast(commands: seq<string>, shown: seq<Position>, pos: Position, nRows: nat)
    requires Trace(commands, shown + [pos], nRows)
    ensures Trace(commands, shown, nRows)
    ensures |shown| > 0 ==> |shown| <= |commands| && Step(commands[|shown| - 1], shown[|shown| - 1], nRows) == Some(pos)
  {
    var s := shown + [pos];
    forall k | 0 <= k < |shown| - 1
      ensures Step(commands[k], shown[k], nRows) == Some(shown[k + 1])
    {
      assert s[k] == shown[k] && s[k + 1] == shown[k + 1];
      assert Step(commands[k], s[k], nRows) == Some(s[k + 1]);
    }
    if |shown| > 0 {
      var k := |shown| - 1;
      assert Step(commands[k], s[k], nRows) == Some(s[k + 1]);
      assert s[k] == shown[k] && s[k + 1] == pos;
    }
  }

  /** How the run `shown` over `commands` came to `end`: the line left
      the file after the last command, the commands ran out at a line of
      the file, or the last command raised. */
  ghost predicate Ended(commands: seq<string>, shown: seq<Position>, end: SessionEnd, nRows: nat) {
    match end
    case LeftData(last) =>
      !(0 <= last.line < nRows) &&
      (|shown| == 0 ==> last == Position(0, 0)) &&
      (|shown| > 0 ==> |shown| <= |commands| && Step(commands[|shown| - 1], shown[|shown| - 1], nRows) == Some(last))
    case OutOfInput(at) =>
      |shown| == |commands| + 1 && at == shown[|shown| - 1]
    case Raised =>
      0 < |shown| <= |commands| && Step(commands[|shown| - 1], shown[|shown| - 1], nRows).None?
    case SummaryRaised =>
      |shown| == 0
  }

  /** A run that used every command ends waiting for the next one. */
  lemma EndedOutOfInput(commands: seq<string>, shown: seq<Position>, nRows: nat)
    requires |shown| == |commands| + 1
    ensures Ended(commands, shown, OutOfInput(shown[|shown| - 1]), nRows)
  {
  }

  /** A run whose last command raised ends there. */
  lemma EndedRaised(commands: seq<string>, shown: seq<Position>, nRows: nat)
    requires 0 < |shown| <= |commands|
    requires Step(commands[|shown| - 1], shown[|shown| - 1], nRows).None?
    ensures Ended(commands, shown, Raised, nRows)
  {
  }

  /** Every position in `shown` is on a line of a file of `nRows` lines. */
  ghost predicate InFile(shown: seq<Position>, nRows: nat) {
    forall k :: 0 <= k < |shown| ==> 0 <= shown[k].line < nRows
  }

  /** Showing a position on a line of the file keeps `InFile`. */
  lemma InFileAppend(shown: seq<Position>, pos: Position, nRows: nat)
    requires InFile(shown, nRows) && 0 <= pos.line < nRows
    ensures InFile(shown + [pos], nRows)
  {
    var s := shown + [pos];
    forall k | 0 <= k < |s|
      ensures 0 <= s[k].line < nRows
    {
      if k < |shown| {
        assert s[k] == shown[k];
      }
    }
  }

  /** The main loop: show the current line, read a command, apply it,
      while the current line is a line of the file. `shown` lists the
      positions displayed, in order; every one is a line of the file, the
      first is the first line. */
  method MainLoop(commands: seq<string>, nRows: nat) returns (shown: seq<Position>, end: SessionEnd)
    ensures InFile(shown, nRows)
    ensures nRows > 0 <==> |shown| > 0
    ensures |shown| > 0 ==> shown[0] == Position(0, 0)
    ensures Trace(commands, shown, nRows)
    ensures Ended(commands, shown, end, nRows) && !end.SummaryRaised?
  {
    var pos := Position(0, 0);
    shown := [];
    while 0 <= pos.line < nRows
      invariant |shown| <= |commands|
      invariant InFile(shown, nRows)
      invariant |shown| > 0 ==> shown[0] == Position(0, 0)
      invariant |shown| == 0 ==> pos == Position(0, 0)
      invariant Trace(commands, shown + [pos], nRows)
      decreases |commands| - |shown|
    {
      var k := |shown|;
      InFileAppend(shown, pos, nRows);
      shown := shown + [pos];
      if k == |commands| {
        EndedOutOfInput(commands, shown, nRows);
        return shown, OutOfInput(pos);
      }
      var next := Prompt(commands[k], pos, nRows);
      if next.None? {
        EndedRaised(commands, shown, nRows);
        return shown, Raised;
      }
      TraceExtend(commands, shown, next.value, nRows);
      pos := next.value;
    }
    TraceLast(commands, shown, pos, nRows);
    end := LeftData(pos);
  }

  /** The whole script on the rows of its file: the summary compares the
      first row with the last one, then the main loop runs. On an empty
      file, or a last row shorter than the first, the summary raises
      IndexError and the loop is never reached. */
  method Session(rows: seq<seq<string>>, commands: seq<string>)
    returns (summary: seq<DeltaLine>, shown: seq<Position>, end: SessionEnd)
    ensures end.SummaryRaised? <==> |rows| == 0 || |rows[|rows| - 1]| < |rows[0]|
    ensures |rows| == 0 ==> summary == []
    ensures |rows| > 0 ==> |summary| == (if end.SummaryRaised? then |rows[|rows| - 1]| else |rows[0]|)
    ensures |rows| > 0 ==> forall i :: 0 <= i < |summary| ==> summary[i] == Classify(rows[0][i], rows[|rows| - 1][i])
    ensures end.SummaryRaised? <==> |shown| == 0
    ensures InFile(shown, |rows|)
    ensures |shown| > 0 ==> shown[0] == Position(0, 0)
    ensures Trace(commands, shown, |rows|)
    ensures Ended(commands, shown, end, |rows|)
  {
    if |rows| == 0 {
      return [], [], SummaryRaised;
    }
    var crashed;
    summary, crashed := DisplayDelta(rows[0], rows[|rows| - 1]);
    if crashed {
      return summary, [], SummaryRaised;
    }
    shown, end := MainLoop(commands, |rows|);
  }
}
