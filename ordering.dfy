/** The orders pandas sorts by: Python's string comparison for text
    columns, the order of float64 values for numeric ones, NaN placed last
    whatever the direction (`na_position='last'`). Sorting is specified by
    its result: ordered, and a permutation of the input. */
module Ordering {
  import opened Floats

  // ---------------------------------------------------------------------
  // strings

  /** Python's `a <= b` on str: lexicographic by code point, a prefix first. */
  predicate StrLe(a: string, b: string)
    decreases |a|
  {
    |a| == 0 || (|b| > 0 && (a[0] < b[0] || (a[0] == b[0] && StrLe(a[1..], b[1..]))))
  }

  predicate StrLt(a: string, b: string) {
    StrLe(a, b) && a != b
  }

  lemma {:induction false} StrLeTotal(a: string, b: string)
    ensures StrLe(a, b) || StrLe(b, a)
    decreases |a|
  {
    if |a| > 0 && |b| > 0 && a[0] == b[0] {
      StrLeTotal(a[1..], b[1..]);
    }
  }

  lemma {:induction false} StrLeTransitive(a: string, b: string, c: string)
    requires StrLe(a, b) && StrLe(b, c)
    ensures StrLe(a, c)
    decreases |a|
  {
    if |a| > 0 && a[0] == b[0] && b[0] == c[0] {
      StrLeTransitive(a[1..], b[1..], c[1..]);
    }
  }

  lemma {:induction false} StrLeAntisymmetric(a: string, b: string)
    requires StrLe(a, b) && StrLe(b, a)
    ensures a == b
    decreases |a|
  {
    if |a| > 0 {
      StrLeAntisymmetric(a[1..], b[1..]);
      assert a == [a[0]] + a[1..] && b == [b[0]] + b[1..];
    }
  }

  // ---------------------------------------------------------------------
  // sort keys

  /** The value a row is sorted on: a text cell or a numeric cell. */
  datatype Key = Str(s: string) | Num(f: Float)

  predicate IsNaN(k: Key) {
    k.Num? && k.f.NaN?
  }

  /** The order of two float64 values neither of which is NaN. */
  predicate FloatLe(f: Float, g: Float)
    requires !f.NaN? && !g.NaN?
  {
    match (f, g)
    case (NegInf, _) => true
    case (_, PosInf) => true
    case (Fin(x), Fin(y)) => x <= y
    case (_, _) => false
  }

  /** The ascending order of keys that are not NaN. A column never mixes
      text and numbers; the order puts numbers first only to be total. */
  predicate KeyLe(a: Key, b: Key)
    requires !IsNaN(a) && !IsNaN(b)
  {
    match (a, b)
    case (Str(s), Str(t)) => StrLe(s, t)
    case (Num(f), Num(g)) => FloatLe(f, g)
    case (Num(_), Str(_)) => true
    case (Str(_), Num(_)) => false
  }

  /** `a` may stand before `b` in a column sorted in the given direction:
      NaN goes last both ways. */
  predicate Precedes(a: Key, b: Key, ascending: bool) {
    if IsNaN(b) then true
    else if IsNaN(a) then false
    else if ascending then KeyLe(a, b)
    else KeyLe(b, a)
  }

  lemma PrecedesTotal(a: Key, b: Key, ascending: bool)
    ensures Precedes(a, b, ascending) || Precedes(b, a, ascending)
  {
    if a.Str? && b.Str? {
      StrLeTotal(a.s, b.s);
    }
  }

  lemma PrecedesTransitive(a: Key, b: Key, c: Key, ascending: bool)
    requires Precedes(a, b, ascending) && Precedes(b, c, ascending)
    ensures Precedes(a, c, ascending)
  {
    if a.Str? && b.Str? && c.Str? {
      if ascending {
        StrLeTransitive(a.s, b.s, c.s);
      } else {
        StrLeTransitive(c.s, b.s, a.s);
      }
    }
  }

  // ---------------------------------------------------------------------
  // sorting

  /** `xs` is ordered by `key` in the given direction. */
  ghost predicate SortedBy<T>(xs: seq<T>, key: T -> Key, ascending: bool) {
    forall i, j :: 0 <= i < j < |xs| ==> Precedes(key(xs[i]), key(xs[j]), ascending)
  }

  /** Everything in `xs` may follow `x`. */
  ghost predicate PrecedesAll<T>(x: T, xs: seq<T>, key: T -> Key, ascending: bool) {
    forall j :: 0 <= j < |xs| ==> Precedes(key(x), key(xs[j]), ascending)
  }

  lemma PrecedesAllOfSorted<T>(x: T, xs: seq<T>, key: T -> Key, ascending: bool)
    requires SortedBy(xs, key, ascending) && |xs| > 0
    requires Precedes(key(x), key(xs[0]), ascending)
    ensures PrecedesAll(x, xs, key, ascending)
  {
    forall j | 0 <= j < |xs|
      ensures Precedes(key(x), key(xs[j]), ascending)
    {
      if j > 0 {
        PrecedesTransitive(key(x), key(xs[0]), key(xs[j]), ascending);
      }
    }
  }

  /** `x` put into its place in the ordered `xs`. */
  function Insert<T>(x: T, xs: seq<T>, key: T -> Key, ascending: bool): (r: seq<T>)
    requires SortedBy(xs, key, ascending)
    ensures SortedBy(r, key, ascending)
    ensures multiset(r) == multiset(xs) + multiset{x}
  {
    if |xs| == 0 then [x]
    else if Precedes(key(x), key(xs[0]), ascending) then
      PrecedesAllOfSorted(x, xs, key, ascending);
      [x] + xs
    else
      var rest := Insert(x, xs[1..], key, ascending);
      PrecedesTotal(key(x), key(xs[0]), ascending);
      HeadPrecedesInserted(x, xs, rest, key, ascending);
      assert xs == [xs[0]] + xs[1..];
      [xs[0]] + rest
  }

  /** Whatever is inserted behind the head of a sorted list may follow it. */
  lemma HeadPrecedesInserted<T>(x: T, xs: seq<T>, rest: seq<T>, key: T -> Key, ascending: bool)
    requires |xs| > 0 && SortedBy(xs, key, ascending)
    requires Precedes(key(xs[0]), key(x), ascending)
    requires multiset(rest) == multiset(xs[1..]) + multiset{x}
    ensures PrecedesAll(xs[0], rest, key, ascending)
  {
    forall j | 0 <= j < |rest|
      ensures Precedes(key(xs[0]), key(rest[j]), ascending)
    {
      assert rest[j] in multiset(rest);
      if rest[j] != x {
        assert rest[j] in multiset(xs[1..]);
        var k :| 0 <= k < |xs[1..]| && xs[1..][k] == rest[j];
        assert xs[k + 1] == rest[j];
      }
    }
  }

  /** The rows of `xs` ordered by `key`: pandas `sort_values` on one
      column. Only the order and the contents are promised; rows with equal
      keys may come in any order. */
  function SortBy<T>(xs: seq<T>, key: T -> Key, ascending: bool): (r: seq<T>)
    ensures SortedBy(r, key, ascending)
    ensures multiset(r) == multiset(xs)
  {
    if |xs| == 0 then []
    else
      var r := Insert(xs[|xs| - 1], SortBy(xs[..|xs| - 1], key, ascending), key, ascending);
      assert xs == xs[..|xs| - 1] + [xs[|xs| - 1]];
      r
  }

  // ---------------------------------------------------------------------
  // distinct values, sorted

  /** The distinct values of `xs` in order of first appearance: `unique()`. */
  function Unique(xs: seq<string>): (r: seq<string>)
    ensures forall x :: x in r <==> x in xs
    ensures forall i, j :: 0 <= i < j < |r| ==> r[i] != r[j]
  {
    if |xs| == 0 then []
    else
      var u := Unique(xs[..|xs| - 1]);
      assert forall x :: x in xs <==> x in xs[..|xs| - 1] || x == xs[|xs| - 1] by {
        assert xs == xs[..|xs| - 1] + [xs[|xs| - 1]];
      }
      if xs[|xs| - 1] in u then u else u + [xs[|xs| - 1]]
  }

  function TextKey(s: string): Key {
    Str(s)
  }

  /** `sorted(set of strings)`: the distinct values of `xs`, ascending. */
  function SortedUnique(xs: seq<string>): (r: seq<string>)
    ensures forall x :: x in r <==> x in xs
    ensures forall i, j :: 0 <= i < j < |r| ==> StrLt(r[i], r[j])
  {
    var u := Unique(xs);
    var r := SortBy(u, TextKey, true);
    assert forall x :: x in r <==> x in u by {
      forall x ensures x in r <==> x in u {
        assert x in r <==> x in multiset(r);
        assert x in u <==> x in multiset(u);
      }
    }
    DistinctSorted(u, r);
    r
  }

  /** Sorting distinct strings ascending orders them strictly. */
  lemma DistinctSorted(u: seq<string>, r: seq<string>)
    requires forall i, j :: 0 <= i < j < |u| ==> u[i] != u[j]
    requires multiset(r) == multiset(u) && SortedBy(r, TextKey, true)
    ensures forall i, j :: 0 <= i < j < |r| ==> StrLt(r[i], r[j])
  {
    forall i, j | 0 <= i < j < |r|
      ensures StrLt(r[i], r[j])
    {
      assert Precedes(TextKey(r[i]), TextKey(r[j]), true);
      if r[i] == r[j] {
        DistinctCount(u, r[i]);
        CountTwo(r, i, j);
      }
    }
  }

  /** A value found at two positions occurs at least twice. */
  lemma CountTwo<T>(r: seq<T>, i: int, j: int)
    requires 0 <= i < j < |r| && r[i] == r[j]
    ensures multiset(r)[r[i]] >= 2
  {
    assert r == r[..i] + [r[i]] + r[i + 1..j] + [r[j]] + r[j + 1..];
  }

  /** In a list without repetitions each value occurs at most once. */
  lemma {:induction false} DistinctCount<T>(u: seq<T>, x: T)
    requires forall i, j :: 0 <= i < j < |u| ==> u[i] != u[j]
    ensures multiset(u)[x] <= 1
  {
    if |u| > 0 {
      var v := u[..|u| - 1];
      DistinctCount(v, x);
      assert u == v + [u[|u| - 1]];
      if x == u[|u| - 1] {
        assert x !in v;
      }
    }
  }
}
