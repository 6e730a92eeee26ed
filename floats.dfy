/** The float64 values a pandas column holds, with the arithmetic the
    percentage change needs. Finite values are exact reals; the special
    values follow IEEE 754 (without the sign of zero). Rounding is numpy's:
    scale by 10^d, round half to even, scale back. */
module Floats {
  import opened Text

  datatype Float = NaN | NegInf | PosInf | Fin(x: real)

  /** IEEE subtraction a - b. */
  function Sub(a: Float, b: Float): (r: Float)
    ensures a.Fin? && b.Fin? ==> r == Fin(a.x - b.x)
    ensures a.NaN? || b.NaN? ==> r.NaN?
  {
    match (a, b)
    case (NaN, _) => NaN
    case (_, NaN) => NaN
    case (Fin(x), Fin(y)) => Fin(x - y)
    case (PosInf, PosInf) => NaN
    case (NegInf, NegInf) => NaN
    case (PosInf, _) => PosInf
    case (NegInf, _) => NegInf
    case (Fin(_), PosInf) => NegInf
    case (Fin(_), NegInf) => PosInf
  }

  /** IEEE division a / b, with every zero taken as +0. */
  function Div(a: Float, b: Float): (r: Float)
    ensures a.Fin? && b.Fin? && b.x != 0.0 ==> r == Fin(a.x / b.x)
    ensures b == Fin(0.0) ==> !r.Fin?
  {
    match (a, b)
    case (NaN, _) => NaN
    case (_, NaN) => NaN
    case (Fin(x), Fin(y)) =>
      if y != 0.0 then Fin(x / y)
      else if x > 0.0 then PosInf
      else if x < 0.0 then NegInf
      else NaN
    case (Fin(_), _) => Fin(0.0)
    case (PosInf, Fin(y)) => if y < 0.0 then NegInf else PosInf
    case (NegInf, Fin(y)) => if y < 0.0 then PosInf else NegInf
    case (_, _) => NaN
  }

  /** Multiplication by a positive constant. */
  function Scale(a: Float, k: real): (r: Float)
    requires k > 0.0
    ensures a.Fin? <==> r.Fin?
    ensures a.Fin? ==> r.x == a.x * k
  {
    match a
    case Fin(x) => Fin(x * k)
    case _ => a
  }

  /** The integer nearest to `y`, an exact half going to the even one. */
  function RoundHalfEven(y: real): (n: int)
    ensures n as real - y <= 0.5 && y - n as real <= 0.5
    ensures (n as real - y == 0.5 || y - n as real == 0.5) ==> n % 2 == 0
  {
    var f := y.Floor;
    var frac := y - f as real;
    if frac < 0.5 then f
    else if frac > 0.5 then f + 1
    else if f % 2 == 0 then f
    else f + 1
  }

  /** The nearest-integer property pins the rounding down: any integer
      closer than one half is the rounded value. */
  lemma RoundHalfEvenUnique(y: real, n: int)
    requires n as real - y < 0.5 && y - n as real < 0.5
    ensures RoundHalfEven(y) == n
  {
  }

  /** Rounding never reverses the order of two values. */
  lemma RoundHalfEvenMonotone(y: real, z: real)
    requires y <= z
    ensures RoundHalfEven(y) <= RoundHalfEven(z)
  {
  }

  /** Dividing by a positive number keeps order and shrinks a bound. */
  lemma DivideByPositive(a: real, b: real, p: real)
    requires p > 0.0 && a <= b
    ensures a / p <= b / p
  {
    assert b / p - a / p == (b - a) / p;
  }

  /** `x` measured in units of 10^-d. */
  function Scaled(x: real, d: nat): real {
    x * Pow10(d) as real
  }

  /** `x` rounded to `d` decimals, counted in units of 10^-d. */
  function RoundUnits(x: real, d: nat): int {
    RoundHalfEven(Scaled(x, d))
  }

  /** `x` rounded to `d` decimals. */
  function RoundTo(x: real, d: nat): real {
    RoundUnits(x, d) as real / Pow10(d) as real
  }

  /** The rounded value is a whole number of 10^-d ... */
  lemma RoundToGrid(x: real, d: nat)
    ensures RoundTo(x, d) * Pow10(d) as real == RoundUnits(x, d) as real
  {
  }

  /** ... and lies within half a unit of the last decimal of `x`. */
  lemma RoundToBound(x: real, d: nat)
    ensures RoundTo(x, d) - x <= 0.5 / Pow10(d) as real
    ensures x - RoundTo(x, d) <= 0.5 / Pow10(d) as real
  {
    var p := Pow10(d) as real;
    var n := RoundUnits(x, d) as real;
    var xp := Scaled(x, d);
    assert n - xp <= 0.5 && xp - n <= 0.5;
    ScaleBack(x, p);
    DivideDifference(n, xp, p);
    DivideDifference(xp, n, p);
    assert RoundTo(x, d) == n / p && x == xp / p;
    DivideByPositive(n - xp, 0.5, p);
    DivideByPositive(xp - n, 0.5, p);
    assert RoundTo(x, d) - x == (n - xp) / p;
    assert x - RoundTo(x, d) == (xp - n) / p;
  }

  lemma ScaleBack(x: real, p: real)
    requires p > 0.0
    ensures (x * p) / p == x
  {
  }

  lemma DivideDifference(a: real, b: real, p: real)
    requires p > 0.0
    ensures (a - b) / p == a / p - b / p
  {
  }

  /** A value with no more than `d` decimals is left as it is. */
  lemma RoundToExact(x: real, d: nat, n: int)
    requires x * Pow10(d) as real == n as real
    ensures RoundTo(x, d) == x
  {
    var p := Pow10(d) as real;
    assert Scaled(x, d) == n as real;
    RoundHalfEvenUnique(Scaled(x, d), n);
    assert RoundUnits(x, d) == n;
    assert n as real / p == x;
  }

  lemma RoundToMonotone(x: real, y: real, d: nat)
    requires x <= y
    ensures RoundTo(x, d) <= RoundTo(y, d)
  {
    var p := Pow10(d) as real;
    assert Scaled(x, d) <= Scaled(y, d) by {
      assert Scaled(y, d) - Scaled(x, d) == (y - x) * p;
    }
    RoundHalfEvenMonotone(Scaled(x, d), Scaled(y, d));
    DivideByPositive(RoundUnits(x, d) as real, RoundUnits(y, d) as real, p);
  }

  /** Python's `round(v, d)` on a float64. */
  function Round(a: Float, d: nat): (r: Float)
    ensures a.Fin? <==> r.Fin?
    ensures !a.Fin? ==> r == a
    ensures a.Fin? ==> r.x == RoundTo(a.x, d)
  {
    match a
    case Fin(x) => Fin(RoundTo(x, d))
    case _ => a
  }

  /** `round(((end - start) / start) * 100, d)` evaluated on float64: a
      number exactly when both values are numbers and the start is not
      zero. */
  function PctChange(start: Float, end: Float, d: nat): (r: Float)
    ensures r.Fin? <==> start.Fin? && end.Fin? && start.x != 0.0
  {
    Round(Scale(Div(Sub(end, start), start), 100.0), d)
  }

  /** Between finite values with a non-zero start, the change is the exact
      percentage rounded to `d` decimals, within half a unit of the last
      decimal of it. */
  lemma PctChangeFinite(a: real, b: real, d: nat)
    requires a != 0.0
    ensures PctChange(Fin(a), Fin(b), d) == Fin(RoundTo((b - a) / a * 100.0, d))
    ensures var p := (b - a) / a * 100.0; var r := PctChange(Fin(a), Fin(b), d).x;
      r - p <= 0.5 / Pow10(d) as real && p - r <= 0.5 / Pow10(d) as real
  {
    RoundToBound((b - a) / a * 100.0, d);
  }

  /** A zero start value never yields a number, zero least of all: a rise
      gives +inf, a fall -inf and no change NaN. */
  lemma PctChangeZeroStart(b: Float, d: nat)
    ensures !PctChange(Fin(0.0), b, d).Fin?
    ensures b.Fin? && b.x > 0.0 ==> PctChange(Fin(0.0), b, d) == PosInf
    ensures b.Fin? && b.x < 0.0 ==> PctChange(Fin(0.0), b, d) == NegInf
    ensures b == Fin(0.0) || b.NaN? ==> PctChange(Fin(0.0), b, d) == NaN
  {
  }

  /** A missing (NaN) value on either side gives NaN. */
  lemma PctChangeMissing(a: Float, b: Float, d: nat)
    requires a.NaN? || b.NaN?
    ensures PctChange(a, b, d) == NaN
  {
  }

  /** From a positive start, a rise never gives a negative change and a
      fall never gives a positive one. */
  lemma PctChangeSign(a: real, b: real, d: nat)
    requires a > 0.0
    ensures b >= a ==> PctChange(Fin(a), Fin(b), d).x >= 0.0
    ensures b <= a ==> PctChange(Fin(a), Fin(b), d).x <= 0.0
  {
    PctChangeFinite(a, b, d);
    var p := (b - a) / a * 100.0;
    RoundToExact(0.0, d, 0);
    if b >= a {
      assert p >= 0.0;
      RoundToMonotone(0.0, p, d);
    }
    if b <= a {
      assert (b - a) / a <= 0.0;
      assert p <= 0.0;
      RoundToMonotone(p, 0.0, d);
    }
  }

  /** 50 to 75 is a rise of 50 %, 100 to 80 a fall of 20 %, at 3 decimals. */
  lemma PctChangeExamples()
    ensures PctChange(Fin(50.0), Fin(75.0), 3) == Fin(50.0)
    ensures PctChange(Fin(100.0), Fin(80.0), 3) == Fin(-20.0)
  {
    PctChangeFinite(50.0, 75.0, 3);
    RoundToExact(50.0, 3, 50000);
    PctChangeFinite(100.0, 80.0, 3);
    RoundToExact(-20.0, 3, -20000);
  }
}
