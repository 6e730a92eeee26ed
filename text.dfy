/** String helpers shared by every part of the model: Python's `str.find`,
    `str.split(sep, 1)`, `str.strip()`, `int()` on text, `str()` of a
    non-negative integer, and the two regular expressions the program
    matches year strings against. Digits are ASCII digits. */
module Text {
  import opened Wrappers

  predicate IsDigit(c: char) { '0' <= c <= '9' }

  /** The characters for which Python's `str.isspace` is true. */
  predicate IsSpace(c: char) {
    var n := c as int;
    n == 32 || 9 <= n <= 13 || 28 <= n <= 31 || n == 0x85 || n == 0xA0 || n == 0x1680
    || 0x2000 <= n <= 0x200A || n == 0x2028 || n == 0x2029 || n == 0x202F || n == 0x205F
    || n == 0x3000
  }

  predicate AllDigits(s: string) {
    forall i :: 0 <= i < |s| ==> IsDigit(s[i])
  }

  function Pow10(n: nat): (p: nat)
    ensures p >= 1
  {
    if n == 0 then 1 else 10 * Pow10(n - 1)
  }

  // ---------------------------------------------------------------------
  // find and split

  /** `s.find(c)`: the index of the first `c`, or -1. */
  function Find(s: string, c: char): (k: int)
    ensures -1 <= k < |s|
    ensures k == -1 <==> c !in s
    ensures k >= 0 ==> s[k] == c && c !in s[..k]
  {
    if |s| == 0 then -1
    else if s[0] == c then 0
    else
      var k := Find(s[1..], c);
      assert s[1..][..k + 1] == s[1..k + 2] by { }
      if k < 0 then -1 else k + 1
  }

  /** `s.split(sep, 1)`: one part when `sep` does not occur, otherwise the
      text before the first `sep` and everything after it. */
  function SplitOnce(s: string, sep: char): (parts: seq<string>)
    ensures |parts| == 1 <==> sep !in s
    ensures |parts| == 1 || |parts| == 2
    ensures |parts| == 1 ==> parts[0] == s
    ensures |parts| == 2 ==> s == parts[0] + [sep] + parts[1] && sep !in parts[0]
  {
    var k := Find(s, sep);
    if k < 0 then [s]
    else
      assert s == s[..k] + [sep] + s[k + 1..];
      [s[..k], s[k + 1..]]
  }

  /** The text after the first `sep`, as `s.split(sep, 1)[1]` gives it;
      None where Python raises IndexError. */
  function After(s: string, sep: char): (r: Option<string>)
    ensures r.None? <==> sep !in s
    ensures r.Some? ==> (|r.value| < |s| &&
      var pre := s[..|s| - |r.value| - 1]; sep !in pre && s == pre + [sep] + r.value)
  {
    var parts := SplitOnce(s, sep);
    if |parts| == 1 then None else Some(parts[1])
  }

  /** The text before the first `sep`, or all of `s`: `s.split(sep, 1)[0]`. */
  function Before(s: string, sep: char): (r: string)
    ensures sep !in r
    ensures sep !in s ==> r == s
    ensures sep in s ==> |r| < |s| && s == r + [sep] + s[|r| + 1..]
  {
    SplitOnce(s, sep)[0]
  }

  /** Splitting at the first `sep` of `pre + [sep] + post`, where `pre`
      has none, gives back `pre` and `post`. */
  lemma SplitAtFirst(pre: string, sep: char, post: string)
    requires sep !in pre
    ensures Before(pre + [sep] + post, sep) == pre
    ensures After(pre + [sep] + post, sep) == Some(post)
  {
    var s := pre + [sep] + post;
    var k := Find(s, sep);
    assert s[|pre|] == sep;
    assert s[..k] == pre && s[k + 1..] == post;
  }

  // ---------------------------------------------------------------------
  // strip

  function TrimLeft(s: string): (r: string)
    ensures |r| <= |s| && r == s[|s| - |r|..]
    ensures forall i :: 0 <= i < |s| - |r| ==> IsSpace(s[i])
    ensures |r| > 0 ==> !IsSpace(r[0])
  {
    if |s| > 0 && IsSpace(s[0]) then TrimLeft(s[1..]) else s
  }

  function TrimRight(s: string): (r: string)
    ensures |r| <= |s| && r == s[..|r|]
    ensures forall i :: |r| <= i < |s| ==> IsSpace(s[i])
    ensures |r| > 0 ==> !IsSpace(r[|r| - 1])
  {
    if |s| > 0 && IsSpace(s[|s| - 1]) then TrimRight(s[..|s| - 1]) else s
  }

  /** How many whitespace characters `strip` removes at the front. */
  function StripStart(s: string): nat {
    |s| - |TrimLeft(s)|
  }

  /** `s.strip()`: removes the whitespace at both ends and nothing else. */
  function Strip(s: string): (r: string)
    ensures |r| > 0 ==> !IsSpace(r[0]) && !IsSpace(r[|r| - 1])
  {
    TrimRight(TrimLeft(s))
  }

  /** What `strip` removes is whitespace at the two ends, and nothing else. */
  lemma StripRemovesSpace(s: string)
    ensures var r := Strip(s);
      StripStart(s) + |r| <= |s| && r == s[StripStart(s)..StripStart(s) + |r|] &&
      (forall k :: 0 <= k < StripStart(s) ==> IsSpace(s[k])) &&
      (forall k :: StripStart(s) + |r| <= k < |s| ==> IsSpace(s[k]))
  {
    StripSlice(s);
    StripTrailing(s);
  }

  /** The stripped text stands in `s` right after the leading whitespace. */
  lemma StripSlice(s: string)
    ensures StripStart(s) + |Strip(s)| <= |s|
    ensures Strip(s) == s[StripStart(s)..StripStart(s) + |Strip(s)|]
  {
    var l := TrimLeft(s);
    var r := TrimRight(l);
    assert Strip(s) == r && StripStart(s) == |s| - |l|;
    PrefixOfSuffix(s, l, r);
  }

  /** A prefix of a suffix of `s` is a slice of `s`. */
  lemma PrefixOfSuffix(s: string, l: string, r: string)
    requires |l| <= |s| && l == s[|s| - |l|..]
    requires |r| <= |l| && r == l[..|r|]
    ensures r == s[|s| - |l|..|s| - |l| + |r|]
  {
  }

  /** Everything after the stripped text is whitespace. */
  lemma StripTrailing(s: string)
    ensures forall k :: StripStart(s) + |Strip(s)| <= k < |s| ==> IsSpace(s[k])
  {
    var l := TrimLeft(s);
    SpaceInSuffix(s, l, |TrimRight(l)|);
  }

  /** Whitespace from index `n` on in a suffix of `s` is whitespace in `s`. */
  lemma SpaceInSuffix(s: string, l: string, n: nat)
    requires |l| <= |s| && l == s[|s| - |l|..]
    requires forall j :: n <= j < |l| ==> IsSpace(l[j])
    ensures forall k :: |s| - |l| + n <= k < |s| ==> IsSpace(s[k])
  {
    var i := |s| - |l|;
    forall k | i + n <= k < |s|
      ensures IsSpace(s[k])
    {
      assert s[k] == l[k - i];
    }
  }

  /** Text that neither starts nor ends with whitespace is left alone, so
      stripping twice is stripping once. */
  lemma StripKeepsClean(s: string)
    requires |s| > 0 ==> !IsSpace(s[0]) && !IsSpace(s[|s| - 1])
    ensures Strip(s) == s
  {
  }

  lemma StripIdempotent(s: string)
    ensures Strip(Strip(s)) == Strip(s)
  {
    StripKeepsClean(Strip(s));
  }

  // ---------------------------------------------------------------------
  // decimal digits

  function DigitValue(c: char): (d: nat)
    requires IsDigit(c)
    ensures d < 10
  {
    (c as int) - ('0' as int)
  }

  function DigitChar(d: nat): (c: char)
    requires d < 10
    ensures IsDigit(c) && DigitValue(c) == d
  {
    (('0' as int) + d) as char
  }

  /** The value of a string of decimal digits ("" counts as 0). */
  function DigitsValue(s: string): (n: nat)
    requires AllDigits(s)
    ensures n < Pow10(|s|)
  {
    if |s| == 0 then 0 else 10 * DigitsValue(s[..|s| - 1]) + DigitValue(s[|s| - 1])
  }

  /** `str(n)` for a non-negative integer. */
  function DigitString(n: nat): (s: string)
    ensures |s| > 0 && AllDigits(s)
    ensures DigitsValue(s) == n
    ensures |s| > 1 ==> s[0] != '0'
  {
    if n < 10 then [DigitChar(n)]
    else
      var s := DigitString(n / 10) + [DigitChar(n % 10)];
      assert s[..|s| - 1] == DigitString(n / 10);
      s
  }

  /** A digit string without a leading zero is at least 10^(length-1). */
  lemma {:induction false} LeadingDigitBound(s: string)
    requires AllDigits(s) && |s| > 0 && s[0] != '0'
    ensures DigitsValue(s) >= Pow10(|s| - 1)
  {
    if |s| > 1 {
      var a := s[..|s| - 1];
      assert a[0] == s[0];
      LeadingDigitBound(a);
    }
  }

  /** `str(int(s)) == s` for a digit string without a leading zero. */
  lemma {:induction false} DigitStringOfValue(s: string)
    requires AllDigits(s) && |s| > 0 && (|s| == 1 || s[0] != '0')
    ensures DigitString(DigitsValue(s)) == s
  {
    var n := DigitsValue(s);
    if |s| == 1 {
      assert n == DigitValue(s[0]);
      assert [DigitChar(n)] == s;
    } else {
      var a := s[..|s| - 1];
      assert a[0] == s[0];
      LeadingDigitBound(a);
      assert n / 10 == DigitsValue(a) && n % 10 == DigitValue(s[|s| - 1]);
      DigitStringOfValue(a);
      assert s == a + [s[|s| - 1]];
    }
  }

  // ---------------------------------------------------------------------
  // the number regular expression \d+(\.\d*)?

  /** The longest prefix of `s` made of digits. */
  function DigitRun(s: string): (r: string)
    ensures AllDigits(r) && |r| <= |s| && r == s[..|r|]
    ensures |r| < |s| ==> !IsDigit(s[|r|])
  {
    if |s| > 0 && IsDigit(s[0]) then
      var t := DigitRun(s[1..]);
      assert [s[0]] + t == s[..|t| + 1];
      [s[0]] + t
    else []
  }

  /** A match of `\d+(\.\d*)?` starting at index `at`: the integer digits,
      and the digits after the point when the match has a point. */
  datatype NumberMatch = NumberMatch(at: nat, whole: string, fraction: Option<string>)
  {
    function Text(): string {
      whole + (if fraction.Some? then "." + fraction.value else "")
    }

    predicate Wf() {
      AllDigits(whole) && (fraction.Some? ==> AllDigits(fraction.value))
    }

    function Value(): (v: real)
      requires Wf()
      ensures v >= DigitsValue(whole) as real
    {
      DigitsValue(whole) as real + (if fraction.Some? then FractionValue(fraction.value) else 0.0)
    }
  }

  /** The value of the digits after a decimal point: 0.d1d2d3... */
  function FractionValue(f: string): (v: real)
    requires AllDigits(f)
    ensures 0.0 <= v < 1.0
  {
    if |f| == 0 then 0.0 else (DigitValue(f[0]) as real + FractionValue(f[1..])) / 10.0
  }

  /** `m` is the match `re.search(r'\d+(\.\d*)?', s)` finds: no digit
      before it, its text is in `s` at `m.at`, and each part is as long as
      it can be. */
  predicate IsLeftmostMatch(s: string, m: NumberMatch) {
    && m.Wf() && |m.whole| > 0
    && m.at + |m.Text()| <= |s| && s[m.at..m.at + |m.Text()|] == m.Text()
    && (forall i :: 0 <= i < m.at ==> !IsDigit(s[i]))
    && IsGreedy(s, m)
  }

  predicate IsGreedy(s: string, m: NumberMatch) {
    var end := m.at + |m.whole|;
    && (end < |s| ==> !IsDigit(s[end]))
    && (m.fraction.None? ==> end >= |s| || s[end] != '.')
    && (m.fraction.Some? ==> var stop := end + 1 + |m.fraction.value|; stop < |s| ==> !IsDigit(s[stop]))
  }

  /** The match of a string that starts with a digit. */
  function MatchHere(s: string): (m: NumberMatch)
    requires |s| > 0 && IsDigit(s[0])
    ensures m.at == 0 && IsLeftmostMatch(s, m)
  {
    var w := DigitRun(s);
    if |w| < |s| && s[|w|] == '.' then
      var f := DigitRun(s[|w| + 1..]);
      assert |w| + 1 + |f| < |s| ==> s[|w| + 1 + |f|] == s[|w| + 1..][|f|];
      PointMatch(s, w, f);
      NumberMatch(0, w, Some(f))
    else
      RunMatch(s, w);
      NumberMatch(0, w, None)
  }

  /** A run of digits at the start of `s`, ended by a character that is
      neither a digit nor a point, is the match. */
  lemma RunMatch(s: string, w: string)
    requires AllDigits(w) && |w| > 0 && |w| <= |s| && s[..|w|] == w
    requires |w| < |s| ==> !IsDigit(s[|w|]) && s[|w|] != '.'
    ensures IsLeftmostMatch(s, NumberMatch(0, w, None))
  {
    assert NumberMatch(0, w, None).Text() == w;
  }

  /** A run of digits at the start of `s`, a point, and the run of digits
      after it, are the match. */
  lemma PointMatch(s: string, w: string, f: string)
    requires AllDigits(w) && |w| > 0 && |w| < |s| && s[..|w|] == w && s[|w|] == '.'
    requires AllDigits(f) && |w| + 1 + |f| <= |s| && s[|w| + 1..][..|f|] == f
    requires |w| + 1 + |f| < |s| ==> !IsDigit(s[|w| + 1 + |f|])
    ensures IsLeftmostMatch(s, NumberMatch(0, w, Some(f)))
  {
    var m := NumberMatch(0, w, Some(f));
    assert m.Text() == w + "." + f;
    assert s[..|w| + 1 + |f|] == w + "." + f;
  }

  /** `re.search(r'\d+(\.\d*)?', s)`: the leftmost match, greedy. */
  function SearchNumber(s: string): (m: Option<NumberMatch>)
    ensures m.None? <==> forall i :: 0 <= i < |s| ==> !IsDigit(s[i])
    ensures m.Some? ==> IsLeftmostMatch(s, m.value)
  {
    if |s| == 0 then None
    else if IsDigit(s[0]) then Some(MatchHere(s))
    else
      var m := SearchNumber(s[1..]);
      if m.None? then None
      else
        ShiftMatch(s, m.value);
        Some(m.value.(at := m.value.at + 1))
  }

  /** A match in `s[1..]` is the match in `s` when `s[0]` is no digit. */
  lemma ShiftMatch(s: string, m: NumberMatch)
    requires |s| > 0 && !IsDigit(s[0]) && IsLeftmostMatch(s[1..], m)
    ensures IsLeftmostMatch(s, m.(at := m.at + 1))
  {
    var n := m.(at := m.at + 1);
    assert n.Text() == m.Text();
    DropFirstSlice(s, m.at, m.at + |m.Text()|);
    assert forall i :: 0 < i < n.at ==> s[i] == s[1..][i - 1];
  }

  lemma DropFirstSlice(s: string, a: nat, b: nat)
    requires a <= b < |s|
    ensures s[1..][a..b] == s[a + 1..b + 1]
  {
  }

  /** The search skips a first character that is no digit. */
  lemma SearchSkips(c: char, t: string)
    requires !IsDigit(c)
    ensures SearchNumber([c] + t) ==
      match SearchNumber(t)
      case None => None
      case Some(m) => Some(m.(at := m.at + 1))
  {
    assert ([c] + t)[1..] == t;
  }

  /** A string of digits is its own digit run. */
  lemma DigitRunAll(s: string)
    requires AllDigits(s)
    ensures DigitRun(s) == s
  {
  }

  /** The only match in a non-empty string of digits is all of it. */
  lemma SearchDigits(d: string)
    requires AllDigits(d) && |d| > 0
    ensures SearchNumber(d) == Some(NumberMatch(0, d, None))
  {
    DigitRunAll(d);
    assert d[|d|..] == [];
  }

  /** The characters of a match stand in `s` from its start on. */
  lemma MatchChars(s: string, m: NumberMatch)
    requires IsLeftmostMatch(s, m)
    ensures forall j :: 0 <= j < |m.whole| ==> s[m.at + j] == m.whole[j]
    ensures m.fraction.Some? ==> s[m.at + |m.whole|] == '.'
    ensures m.fraction.Some? ==> forall j :: 0 <= j < |m.fraction.value| ==>
      s[m.at + |m.whole| + 1 + j] == m.fraction.value[j]
  {
    var t := m.Text();
    forall j | 0 <= j < |t|
      ensures s[m.at + j] == t[j]
    {
      assert s[m.at..m.at + |t|][j] == t[j];
    }
    if m.fraction.Some? {
      var f := m.fraction.value;
      assert t == m.whole + "." + f;
      forall j | 0 <= j < |f|
        ensures s[m.at + |m.whole| + 1 + j] == f[j]
      {
        assert t[|m.whole| + 1 + j] == f[j];
      }
    } else {
      assert t == m.whole;
    }
  }

  /** Each character of a digit run read from `a` is a digit. */
  lemma DigitInRun(s: string, a: nat, w: string, k: nat)
    requires AllDigits(w) && k < |w| && a + |w| <= |s|
    requires forall j :: 0 <= j < |w| ==> s[a + j] == w[j]
    ensures IsDigit(s[a + k])
  {
    assert s[a + k] == w[k];
  }

  /** Two digit runs read from the same place, each ended by a non-digit
      or by the end of `s`, are the same run. */
  lemma SameRun(s: string, a: nat, w1: string, w2: string)
    requires AllDigits(w1) && AllDigits(w2)
    requires a + |w1| <= |s| && a + |w2| <= |s|
    requires forall j :: 0 <= j < |w1| ==> s[a + j] == w1[j]
    requires forall j :: 0 <= j < |w2| ==> s[a + j] == w2[j]
    requires a + |w1| < |s| ==> !IsDigit(s[a + |w1|])
    requires a + |w2| < |s| ==> !IsDigit(s[a + |w2|])
    ensures w1 == w2
  {
    if |w1| < |w2| {
      DigitInRun(s, a, w2, |w1|);
    } else if |w2| < |w1| {
      DigitInRun(s, a, w1, |w2|);
    }
    assert forall j :: 0 <= j < |w1| ==> w1[j] == w2[j];
  }

  /** `re.search` has one answer: the leftmost greedy match is unique. */
  lemma LeftmostUnique(s: string, m1: NumberMatch, m2: NumberMatch)
    requires IsLeftmostMatch(s, m1) && IsLeftmostMatch(s, m2)
    ensures m1 == m2
  {
    SameStart(s, m1, m2);
    SameWhole(s, m1, m2);
    SameFraction(s, m1, m2);
  }

  /** Two leftmost matches read the same integer digits. */
  lemma SameWhole(s: string, m1: NumberMatch, m2: NumberMatch)
    requires IsLeftmostMatch(s, m1) && IsLeftmostMatch(s, m2) && m1.at == m2.at
    ensures m1.whole == m2.whole
  {
    MatchChars(s, m1);
    MatchChars(s, m2);
    SameRun(s, m1.at, m1.whole, m2.whole);
  }

  /** Two leftmost matches with the same integer digits agree on the point
      and the digits after it. */
  lemma SameFraction(s: string, m1: NumberMatch, m2: NumberMatch)
    requires IsLeftmostMatch(s, m1) && IsLeftmostMatch(s, m2)
    requires m1.at == m2.at && m1.whole == m2.whole
    ensures m1.fraction == m2.fraction
  {
    MatchChars(s, m1);
    MatchChars(s, m2);
    if m1.fraction.Some? && m2.fraction.Some? {
      SameRun(s, m1.at + |m1.whole| + 1, m1.fraction.value, m2.fraction.value);
    }
  }

  /** Two leftmost matches start at the same digit. */
  lemma SameStart(s: string, m1: NumberMatch, m2: NumberMatch)
    requires IsLeftmostMatch(s, m1) && IsLeftmostMatch(s, m2)
    ensures m1.at == m2.at
  {
    MatchStartsWithDigit(s, m1);
    MatchStartsWithDigit(s, m2);
  }

  /** A text without digits has no match. */
  lemma NoMatchWithoutDigit(s: string)
    requires forall i :: 0 <= i < |s| ==> !IsDigit(s[i])
    ensures forall m :: !IsLeftmostMatch(s, m)
  {
    forall m | IsLeftmostMatch(s, m)
      ensures false
    {
      MatchStartsWithDigit(s, m);
    }
  }

  /** A match starts at a digit. */
  lemma MatchStartsWithDigit(s: string, m: NumberMatch)
    requires IsLeftmostMatch(s, m)
    ensures m.at < |s| && IsDigit(s[m.at])
  {
    MatchChars(s, m);
    assert s[m.at + 0] == m.whole[0];
  }

  /** Any leftmost greedy match is the one the search finds. */
  lemma LeftmostIsFound(s: string, found: NumberMatch)
    requires IsLeftmostMatch(s, found)
    ensures forall m :: IsLeftmostMatch(s, m) ==> m == found
  {
    forall m | IsLeftmostMatch(s, m)
      ensures m == found
    {
      LeftmostUnique(s, m, found);
    }
  }

  // ---------------------------------------------------------------------
  // int() on text, and the year patterns

  /** The digits of an integer literal as `int()` accepts them: digits with
      single underscores between them. */
  predicate IsIntBody(b: string) {
    |b| > 0 && IsDigit(b[0]) && IsDigit(b[|b| - 1])
    && (forall i :: 0 <= i < |b| ==> IsDigit(b[i]) || b[i] == '_')
    && (forall i :: 0 <= i < |b| - 1 && b[i] == '_' ==> b[i + 1] != '_')
  }

  function DropUnderscores(b: string): (d: string)
    requires forall i :: 0 <= i < |b| ==> IsDigit(b[i]) || b[i] == '_'
    ensures AllDigits(d)
    ensures AllDigits(b) ==> d == b
  {
    if |b| == 0 then [] else DropUnderscores(b[..|b| - 1]) + (if b[|b| - 1] == '_' then [] else [b[|b| - 1]])
  }

  /** `int()` of an already stripped text: an optional sign, then the
      digits; None where Python raises ValueError. */
  function IntLiteral(t: string): (r: Option<int>)
    ensures r.Some? <==> IsIntBody(t) || (|t| > 0 && (t[0] == '+' || t[0] == '-') && IsIntBody(t[1..]))
    ensures IsIntBody(t) ==> r == Some(DigitsValue(DropUnderscores(t)))
    ensures |t| > 0 && t[0] == '+' && IsIntBody(t[1..]) ==> r == Some(DigitsValue(DropUnderscores(t[1..])))
    ensures |t| > 0 && t[0] == '-' && IsIntBody(t[1..]) ==> r == Some(-(DigitsValue(DropUnderscores(t[1..])) as int))
  {
    if |t| > 0 && (t[0] == '+' || t[0] == '-') then
      var b := t[1..];
      if IsIntBody(b) then
        var v: int := DigitsValue(DropUnderscores(b));
        Some(if t[0] == '-' then -v else v)
      else None
    else if IsIntBody(t) then Some(DigitsValue(DropUnderscores(t)))
    else None
  }

  /** `int(s)` for a str `s`: surrounding whitespace, an optional sign, then
      the digits with single underscores between them; None where Python
      raises ValueError. */
  function PyInt(s: string): (r: Option<int>)
    ensures r.Some? <==>
      IsIntBody(Strip(s)) || (|Strip(s)| > 0 && (Strip(s)[0] == '+' || Strip(s)[0] == '-') && IsIntBody(Strip(s)[1..]))
    ensures IsIntBody(Strip(s)) ==> r == Some(DigitsValue(DropUnderscores(Strip(s))))
    ensures |Strip(s)| > 0 && Strip(s)[0] == '+' && IsIntBody(Strip(s)[1..]) ==>
      r == Some(DigitsValue(DropUnderscores(Strip(s)[1..])))
    ensures |Strip(s)| > 0 && Strip(s)[0] == '-' && IsIntBody(Strip(s)[1..]) ==>
      r == Some(-(DigitsValue(DropUnderscores(Strip(s)[1..])) as int))
  {
    IntLiteral(Strip(s))
  }

  /** `re.match("^\d{4}$", s)`: `$` also matches before a final newline,
      which `strip()` and `int()` then drop, leaving the four digits. */
  predicate MatchesFourDigits(s: string)
    ensures MatchesFourDigits(s) ==> |s| >= 4 && Strip(s) == s[..4] && AllDigits(Strip(s))
  {
    if (|s| == 4 || (|s| == 5 && s[4] == '\n')) && AllDigits(s[..4]) then
      StripFourDigits(s);
      true
    else false
  }

  /** `re.match("^(19|20)\d{2}$", s)`: the four-digit texts of a year from
      1900 to 2099, and no other. */
  predicate IsYearName(s: string)
    ensures IsYearName(s) <==> MatchesFourDigits(s) && 1900 <= FourDigitValue(s) <= 2099
  {
    if MatchesFourDigits(s) then
      YearDigits(s[..4]);
      (s[0] == '1' && s[1] == '9') || (s[0] == '2' && s[1] == '0')
    else false
  }

  /** Four digits read as 1900..2099 exactly when they start with 19 or 20. */
  lemma YearDigits(d: string)
    requires |d| == 4 && AllDigits(d)
    ensures 1900 <= DigitsValue(d) <= 2099 <==> (d[0] == '1' && d[1] == '9') || (d[0] == '2' && d[1] == '0')
  {
    assert d[..3][..2] == d[..2] && d[..2][..1] == d[..1] && d[..1][..0] == [];
    assert d[..|d| - 1] == d[..3];
    assert DigitsValue(d[..1]) == DigitValue(d[0]);
    assert DigitsValue(d[..2]) == 10 * DigitValue(d[0]) + DigitValue(d[1]);
    assert DigitsValue(d[..3]) == 100 * DigitValue(d[0]) + 10 * DigitValue(d[1]) + DigitValue(d[2]);
  }

  /** The value of the four digits a matching string starts with. */
  function FourDigitValue(s: string): (n: nat)
    requires MatchesFourDigits(s)
    ensures n < 10000
  {
    DigitsValue(s[..4])
  }

  /** Stripping a string accepted by `^\d{4}$` leaves its four digits. */
  lemma StripFourDigits(s: string)
    requires |s| == 4 || (|s| == 5 && s[4] == '\n')
    requires AllDigits(s[..4])
    ensures Strip(s) == s[..4]
  {
    var d := s[..4];
    assert !IsSpace(d[0]) && !IsSpace(d[3]);
    assert TrimLeft(s) == s;
    if |s| == 5 {
      assert s[..|s| - 1] == d;
      assert TrimRight(d) == d;
    } else {
      assert s == d;
    }
  }

  /** `int()` of a string accepted by `^\d{4}$` is its four-digit value: the
      newline `$` lets through is whitespace to `int()`. */
  lemma FourDigitsParse(s: string)
    requires MatchesFourDigits(s)
    ensures PyInt(s) == Some(FourDigitValue(s))
  {
    PyIntOfDigits(s, s[..4]);
  }

  /** `int()` of a text whose stripped form is plain digits is their value. */
  lemma PyIntOfDigits(s: string, d: string)
    requires Strip(s) == d && AllDigits(d) && |d| > 0
    ensures PyInt(s) == Some(DigitsValue(d))
  {
    assert IsDigit(d[0]) && IsDigit(d[|d| - 1]);
    assert d[0] != '+' && d[0] != '-';
    assert IsIntBody(d);
    assert DropUnderscores(d) == d;
  }

  /** `int()` of a sign and digits: the sign is kept. */
  lemma PyIntSigned(s: string, sign: char, d: string)
    requires sign == '+' || sign == '-'
    requires Strip(s) == [sign] + d && AllDigits(d) && |d| > 0
    ensures sign == '+' ==> PyInt(s) == Some(DigitsValue(d))
    ensures sign == '-' ==> PyInt(s) == Some(-(DigitsValue(d) as int))
  {
    var t := Strip(s);
    assert t[0] == sign && t[1..] == d;
    IntLiteralSigned(t, d);
  }

  /** The same for text that is already stripped. */
  lemma IntLiteralSigned(t: string, d: string)
    requires |t| > 0 && (t[0] == '+' || t[0] == '-') && t[1..] == d
    requires AllDigits(d) && |d| > 0
    ensures t[0] == '+' ==> IntLiteral(t) == Some(DigitsValue(d))
    ensures t[0] == '-' ==> IntLiteral(t) == Some(-(DigitsValue(d) as int))
  {
    assert IsIntBody(d) by { assert IsDigit(d[0]) && IsDigit(d[|d| - 1]); }
    assert DropUnderscores(d) == d;
  }

  /** `int()` of digits with single underscores between them is the value
      of the digits alone: "2_000" reads as 2000. */
  lemma PyIntUnderscore(s: string, a: string, b: string)
    requires AllDigits(a) && AllDigits(b) && |a| > 0 && |b| > 0
    requires Strip(s) == a + "_" + b
    ensures PyInt(s) == Some(DigitsValue(a + b))
  {
    var t := a + "_" + b;
    assert IsIntBody(t) by {
      assert IsDigit(t[0]) && IsDigit(t[|t| - 1]);
      forall i | 0 <= i < |t| - 1 && t[i] == '_'
        ensures t[i + 1] != '_'
      {
        assert i == |a|;
      }
    }
    DropUnderscoresJoin(a, b);
  }

  /** Dropping the underscore between two digit runs joins them. */
  lemma {:induction false} DropUnderscoresJoin(a: string, b: string)
    requires AllDigits(a) && AllDigits(b)
    ensures forall i :: 0 <= i < |a + "_" + b| ==> IsDigit((a + "_" + b)[i]) || (a + "_" + b)[i] == '_'
    ensures DropUnderscores(a + "_" + b) == a + b
    decreases |b|
  {
    JoinChars(a, b);
    var t := a + "_" + b;
    if |b| == 0 {
      assert t[..|t| - 1] == a;
    } else {
      var b' := b[..|b| - 1];
      DropUnderscoresJoin(a, b');
      assert t[..|t| - 1] == a + "_" + b';
      assert t[|t| - 1] == b[|b| - 1];
      assert DropUnderscores(t) == DropUnderscores(a + "_" + b') + [b[|b| - 1]];
      assert a + b == (a + b') + [b[|b| - 1]];
    }
  }

  /** Two runs of digits joined by one underscore hold only digits and
      underscores. */
  lemma JoinChars(a: string, b: string)
    requires AllDigits(a) && AllDigits(b)
    ensures forall i :: 0 <= i < |a + "_" + b| ==> IsDigit((a + "_" + b)[i]) || (a + "_" + b)[i] == '_'
  {
    var t := a + "_" + b;
    forall i | 0 <= i < |t|
      ensures IsDigit(t[i]) || t[i] == '_'
    {
      if i < |a| {
        assert t[i] == a[i];
      } else if |a| < i {
        assert t[i] == b[i - |a| - 1];
      }
    }
  }

  /** A four-character name of the year pattern stands for a year from
      1900 to 2099, and `str(int(name))` gives the name back. */
  lemma YearNameValue(s: string)
    requires IsYearName(s) && |s| == 4
    ensures 1900 <= FourDigitValue(s) <= 2099
    ensures DigitString(FourDigitValue(s)) == s
  {
    assert s[..4] == s;
    assert s[..3][..2] == s[..2] && s[..2][..1] == s[..1] && s[..1][..0] == [];
    assert DigitsValue(s[..1]) == DigitValue(s[0]);
    assert DigitsValue(s[..2]) == 10 * DigitValue(s[0]) + DigitValue(s[1]);
    assert DigitsValue(s[..3]) == 100 * DigitValue(s[0]) + 10 * DigitValue(s[1]) + DigitValue(s[2]);
    DigitStringOfValue(s);
  }

  /** `int()` of a year column name: a year from 1900 to 2099 whose
      decimal text is the name. */
  lemma YearNameInt(s: string)
    requires IsYearName(s) && |s| == 4
    ensures PyInt(s).Some? && 1900 <= PyInt(s).value <= 2099
    ensures DigitString(PyInt(s).value) == s
  {
    YearNameValue(s);
    FourDigitsParse(s);
  }
}
