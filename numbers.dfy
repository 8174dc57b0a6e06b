/** JavaScript numbers as the player handles them.

    Doubles are modelled by exact reals; the values that are not real
    numbers (NaN and the two infinities) are explicit constructors, because
    the player's guards and its time formatter branch on them. Rounding and
    signed zero are not modelled. */
module Numbers {

  datatype Option<T> = None | Some(value: T)

  datatype Num = NaN | PosInf | NegInf | Finite(value: real)

  /** JavaScript truthiness of a number: NaN and zero are falsy. */
  predicate Truthy(a: Num): (b: bool)
    ensures b <==> a.PosInf? || a.NegInf? || (a.Finite? && a.value != 0.0)
  {
    !a.NaN? && a != Finite(0.0)
  }

  /** The order `<=` on numbers other than NaN. */
  predicate AtMost(a: Num, b: Num)
    requires !a.NaN? && !b.NaN?
  {
    a.NegInf? || b.PosInf? || (a.Finite? && b.Finite? && a.value <= b.value)
  }

  /** Math.min: NaN as soon as one argument is NaN, else the smaller one. */
  function Min(a: Num, b: Num): (r: Num)
    ensures r.NaN? <==> a.NaN? || b.NaN?
    ensures !r.NaN? ==> (r == a || r == b) && AtMost(r, a) && AtMost(r, b)
  {
    if a.NaN? || b.NaN? then NaN else if AtMost(a, b) then a else b
  }

  /** Math.max: NaN as soon as one argument is NaN, else the larger one. */
  function Max(a: Num, b: Num): (r: Num)
    ensures r.NaN? <==> a.NaN? || b.NaN?
    ensures !r.NaN? ==> (r == a || r == b) && AtMost(a, r) && AtMost(b, r)
  {
    if a.NaN? || b.NaN? then NaN else if AtMost(a, b) then b else a
  }

  /** `a * k` for a finite factor `k`: NaN stays NaN, an infinity times
      zero is NaN, and an infinity times anything else is an infinity whose
      sign flips with a negative factor. */
  function Times(a: Num, k: real): (r: Num)
    ensures r.Finite? <==> a.Finite?
    ensures a.Finite? ==> r.value == a.value * k
    ensures a.NaN? ==> r.NaN?
    ensures !a.Finite? && k == 0.0 ==> r.NaN?
    ensures !a.Finite? && !a.NaN? && k != 0.0 ==> !r.NaN? && (r == a <==> k > 0.0)
  {
    match a
    case NaN => NaN
    case Finite(v) => Finite(v * k)
    case PosInf => if k > 0.0 then PosInf else if k < 0.0 then NegInf else NaN
    case NegInf => if k > 0.0 then NegInf else if k < 0.0 then PosInf else NaN
  }

  /** `x / d` for a finite dividend `x`: dividing by zero gives an infinity,
      or NaN for `0 / 0`; dividing by an infinity gives zero. */
  function Quotient(x: real, d: Num): (r: Num)
    ensures d.Finite? && d.value != 0.0 ==> r.Finite? && r.value * d.value == x
    ensures r.NaN? <==> d.NaN? || (d == Finite(0.0) && x == 0.0)
    ensures !d.Finite? && !d.NaN? ==> r == Finite(0.0)
    ensures d == Finite(0.0) && x > 0.0 ==> r.PosInf?
    ensures d == Finite(0.0) && x < 0.0 ==> r.NegInf?
  {
    match d
    case NaN => NaN
    case PosInf => Finite(0.0)
    case NegInf => Finite(0.0)
    case Finite(v) =>
      if v != 0.0 then Finite(x / v)
      else if x > 0.0 then PosInf
      else if x < 0.0 then NegInf
      else NaN
  }

  /** Truncation toward zero, the integer part `%` is built on. */
  function Trunc(x: real): (i: int)
    ensures x >= 0.0 ==> i as real <= x < i as real + 1.0
    ensures x < 0.0 ==> i as real - 1.0 < x <= i as real
  {
    if x >= 0.0 then x.Floor else -((-x).Floor)
  }

  /** The `%` operator on finite numbers: the remainder keeps the sign of the
      dividend (unlike Dafny's Euclidean `%`). */
  function Remainder(x: real, m: real): (r: real)
    requires m != 0.0
    ensures x - r == m * Trunc(x / m) as real
    ensures -Abs(m) < r < Abs(m)
    ensures x >= 0.0 ==> r >= 0.0
    ensures x <= 0.0 ==> r <= 0.0
  {
    var q := x / m;
    var t := Trunc(q);
    var f := q - t as real;
    assert x - m * t as real == m * f by {
      assert x == m * q;
    }
    ScaledFraction(f, m);
    FractionSign(x, m, q, f);
    x - m * t as real
  }

  function Abs(x: real): (r: real)
    ensures r >= 0.0 && (r == x || r == -x)
  {
    if x >= 0.0 then x else -x
  }

  /** When `f` is on the side of zero where `q` is, `m * f` is on the side
      of zero where `m * q` is. */
  lemma FractionSign(x: real, m: real, q: real, f: real)
    requires m != 0.0 && x == m * q
    requires q >= 0.0 ==> f >= 0.0
    requires q <= 0.0 ==> f <= 0.0
    ensures x >= 0.0 ==> m * f >= 0.0
    ensures x <= 0.0 ==> m * f <= 0.0
  {
    if q == 0.0 {
      assert f == 0.0;
    } else if m > 0.0 && q > 0.0 {
      assert m * q > 0.0 && m * f >= 0.0;
    } else if m > 0.0 {
      assert m * q < 0.0 && m * f <= 0.0;
    } else if q > 0.0 {
      assert m * q < 0.0 && m * f <= 0.0;
    } else {
      assert m * q > 0.0 && m * f >= 0.0;
    }
  }

  /** A fraction strictly between -1 and 1 of `m` lies strictly within `|m|`
      of zero. */
  lemma ScaledFraction(f: real, m: real)
    requires m != 0.0 && -1.0 < f < 1.0
    ensures -Abs(m) < m * f < Abs(m)
  {
    assert m * (1.0 - f) == m - m * f && m * (1.0 + f) == m + m * f;
    if m > 0.0 {
      assert m * (1.0 - f) > 0.0 && m * (1.0 + f) > 0.0;
    } else {
      assert m * (1.0 - f) < 0.0 && m * (1.0 + f) < 0.0;
    }
  }
}
