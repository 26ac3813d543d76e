/**
 The engine's scalar and 2D-vector helpers. JavaScript numbers are modelled
 as `real`; NaN and the infinities are not part of the model, so every
 operation that would produce one in the engine (a zero divisor) carries a
 precondition instead.
 */
module Scalar {

  /** A 2D vector with real coordinates (Vector2 in the engine). */
  datatype Vec2 = Vec2(x: real, y: real) {
    function Add(v: Vec2): Vec2 { Vec2(x + v.x, y + v.y) }
    function Subtract(v: Vec2): Vec2 { Vec2(x - v.x, y - v.y) }
    function Multiply(v: Vec2): Vec2 { Vec2(x * v.x, y * v.y) }
    function Scale(s: real): Vec2 { Vec2(x * s, y * s) }
    function LengthSquared(): real { x * x + y * y }
    function DistanceSquared(v: Vec2): real {
      (x - v.x) * (x - v.x) + (y - v.y) * (y - v.y)
    }
  }

  const Zero := Vec2(0.0, 0.0)

  function Abs(value: real): real {
    if value < 0.0 then -value else value
  }

  function Min(a: real, b: real): real { if a <= b then a else b }

  function Max(a: real, b: real): real { if a >= b then a else b }

  /** Math.sign, without the NaN and negative-zero cases. */
  function Sign(value: real): (r: real)
    ensures r * value == Abs(value)
    ensures r == 0.0 <==> value == 0.0
    ensures r == 1.0 || r == 0.0 || r == -1.0
  {
    if value > 0.0 then 1.0 else if value < 0.0 then -1.0 else 0.0
  }

  /** Truncation toward zero, the integer part `x|0` keeps (before the
      32-bit wrap-around, which the model leaves out). */
  function Trunc(x: real): (r: int)
    ensures x >= 0.0 ==> r as real <= x < r as real + 1.0
    ensures x < 0.0 ==> r as real - 1.0 < x <= r as real
  {
    if x >= 0.0 then x.Floor else -((-x).Floor)
  }

  /** JavaScript's `%` on numbers: the remainder of truncated division, with
      the sign of the dividend. */
  function JsRem(a: real, b: real): (r: real)
    requires b != 0.0
    ensures b > 0.0 ==> -b < r < b
    ensures b < 0.0 ==> b < r < -b
    ensures r == 0.0 || (r < 0.0 <==> a < 0.0)
  {
    RemainderFacts(a, b);
    a - b * (Trunc(a / b) as real)
  }

  /** The truncated remainder is the divisor times the fractional part of
      the quotient, which lies strictly between -1 and 1 and has the
      quotient's sign. */
  lemma RemainderFacts(a: real, b: real)
    requires b != 0.0
    ensures var r := a - b * (Trunc(a / b) as real);
      && (b > 0.0 ==> -b < r < b)
      && (b < 0.0 ==> b < r < -b)
      && (r == 0.0 || (r < 0.0 <==> a < 0.0))
  {
    var x := a / b;
    var q := Trunc(x) as real;
    var d := x - q;
    QuotientTimes(a, b);
    Factor(a, b, x, q);
    assert a - b * q == b * d;
    FractionBelow(b, d);
    if x >= 0.0 {
      assert 0.0 <= d;
      MulSigns(b, x);
      MulSigns(b, d);
    } else {
      assert d <= 0.0;
      MulSigns(b, x);
      MulSigns(b, d);
    }
  }

  lemma QuotientTimes(a: real, b: real)
    requires b != 0.0
    ensures a == b * (a / b)
  {
  }

  lemma Factor(a: real, b: real, x: real, q: real)
    requires a == b * x
    ensures a - b * q == b * (x - q)
  {
  }

  /** A multiple of `b` by a fraction strictly inside (-1, 1) is smaller
      than `b` in magnitude. */
  lemma FractionBelow(b: real, d: real)
    requires b != 0.0 && -1.0 < d < 1.0
    ensures Abs(b * d) < Abs(b)
  {
    if b > 0.0 {
      MulSigns(b, d);
      MulSigns(b, 1.0 - d);
      MulSigns(b, 1.0 + d);
    } else {
      MulSigns(b, d);
      MulSigns(b, 1.0 - d);
      MulSigns(b, 1.0 + d);
    }
  }

  /** Sign rules for products, which the solver does not apply unprompted. */
  lemma MulSigns(a: real, b: real)
    ensures a >= 0.0 && b >= 0.0 ==> a * b >= 0.0
    ensures a > 0.0 && b > 0.0 ==> a * b > 0.0
    ensures a >= 0.0 && b <= 0.0 ==> a * b <= 0.0
    ensures a > 0.0 && b < 0.0 ==> a * b < 0.0
    ensures a <= 0.0 && b <= 0.0 ==> a * b >= 0.0
    ensures a < 0.0 && b < 0.0 ==> a * b > 0.0
    ensures a <= 0.0 && b >= 0.0 ==> a * b <= 0.0
    ensures a < 0.0 && b > 0.0 ==> a * b < 0.0
  {
    MulNonNegative(a, b);
    MulNonNegative(-a, b);
    MulNonNegative(a, -b);
    MulNonNegative(-a, -b);
    assert (-a) * b == -(a * b) && a * (-b) == -(a * b) && (-a) * (-b) == a * b;
  }

  lemma MulNonNegative(a: real, b: real)
    ensures a >= 0.0 && b >= 0.0 ==> a * b >= 0.0
    ensures a > 0.0 && b > 0.0 ==> a * b > 0.0
  {
  }

  /** A quotient of a value in [0, d) by d lies in [0, 1). */
  lemma DivBounds(m: real, d: real)
    requires d > 0.0
    ensures (m / d) * d == m
    ensures 0.0 <= m ==> 0.0 <= m / d
    ensures m < d ==> m / d < 1.0
    ensures m <= d ==> m / d <= 1.0
  {
    var q := m / d;
    assert q * d == m;
    MulSigns(q, d);
    MulSigns(q - 1.0, d);
  }

  /** The engine's `mod`: a remainder whose sign follows the divisor. */
  function Mod(dividend: real, divisor: real): (r: real)
    requires divisor != 0.0
    ensures divisor > 0.0 ==> 0.0 <= r < divisor
    ensures divisor < 0.0 ==> divisor < r <= 0.0
  {
    JsRem(JsRem(dividend, divisor) + divisor, divisor)
  }

  /** Clamps `value` into [lo, hi], testing the lower bound first. */
  function Clamp(value: real, lo: real, hi: real): (r: real)
    ensures lo <= hi ==> lo <= r <= hi
    ensures lo <= value <= hi ==> r == value
    ensures r == value || r == lo || r == hi
  {
    if value < lo then lo else if value > hi then hi else value
  }

  function Clamp01(value: real): real { Clamp(value, 0.0, 1.0) }

  /** How far `value` lies from `a` toward `b`, clamped to [0, 1]; 0 when
      the two ends coincide. */
  function Percent(value: real, a: real, b: real): (r: real)
    ensures 0.0 <= r <= 1.0
    ensures a == b ==> r == 0.0
  {
    var span := b - a;
    if span != 0.0 then Clamp01((value - a) / span) else 0.0
  }

  /** Interpolates from `a` to `b`, clamping `t` to [0, 1]. */
  function Lerp(t: real, a: real, b: real): (r: real)
    ensures a <= b ==> a <= r <= b
    ensures b <= a ==> b <= r <= a
    ensures t <= 0.0 ==> r == a
    ensures t >= 1.0 ==> r == b
  {
    var c := Clamp01(t);
    StepWithin(c, a, b);
    a + c * (b - a)
  }

  /** A step of a fraction in [0, 1] from `a` toward `b` stays between
      them, and the fractions 0 and 1 land on the ends. */
  lemma StepWithin(c: real, a: real, b: real)
    requires 0.0 <= c <= 1.0
    ensures a <= b ==> a <= a + c * (b - a) <= b
    ensures b <= a ==> b <= a + c * (b - a) <= a
    ensures c == 0.0 ==> a + c * (b - a) == a
    ensures c == 1.0 ==> a + c * (b - a) == b
  {
    var span := b - a;
    MulSigns(c, span);
    MulSigns(1.0 - c, span);
    assert (1.0 - c) * span == span - c * span;
  }

  /** A fraction in [0, 1] of a span lies between 0 and the span. */
  lemma FractionOfSpan(c: real, span: real)
    requires 0.0 <= c <= 1.0
    ensures span >= 0.0 ==> 0.0 <= c * span <= span
    ensures span < 0.0 ==> span <= c * span <= 0.0
  {
    MulSigns(c, span);
    MulSigns(1.0 - c, span);
  }

  /** Axis-aligned box overlap of two boxes given by centre and size. */
  predicate IsOverlapping(posA: Vec2, sizeA: Vec2, posB: Vec2, sizeB: Vec2) {
    && Abs(posA.x - posB.x) * 2.0 < sizeA.x + sizeB.x
    && Abs(posA.y - posB.y) * 2.0 < sizeA.y + sizeB.y
  }

  /** The remainder `mod` computes is the floored remainder: the dividend
      minus the largest multiple of the divisor not above it. */
  lemma ModIsFlooredRemainder(dividend: real, divisor: real)
    requires divisor > 0.0
    ensures Mod(dividend, divisor) == dividend - ((dividend / divisor).Floor as real) * divisor
  {
    var r1, q1, q2, m := ModSteps(dividend, divisor);
    Combine(dividend, divisor, q1, q2, r1, m);
    FlooredOf(dividend, divisor, m, q1 + q2 - 1);
  }

  /** The two remainders `mod` takes, each as a whole multiple off its
      dividend. */
  lemma ModSteps(dividend: real, divisor: real) returns (r1: real, q1: int, q2: int, m: real)
    requires divisor != 0.0
    ensures m == Mod(dividend, divisor)
    ensures r1 == dividend - divisor * (q1 as real)
    ensures m == r1 + divisor - divisor * (q2 as real)
  {
    q1 := RemAsMultiple(dividend, divisor);
    r1 := JsRem(dividend, divisor);
    q2 := RemAsMultiple(r1 + divisor, divisor);
    m := JsRem(r1 + divisor, divisor);
  }

  /** A value in [0, d) that differs from `x` by a whole multiple `k` of
      `d` is the floored remainder. */
  lemma FlooredOf(x: real, d: real, m: real, k: int)
    requires d > 0.0
    requires m == x - d * (k as real)
    requires 0.0 <= m < d
    ensures m == x - ((x / d).Floor as real) * d
  {
    QuotientOfShifted(x, d, k as real, m);
    FloorUnique(x / d, k);
  }

  /** `%` takes a whole multiple of the divisor off the dividend. */
  lemma RemAsMultiple(a: real, b: real) returns (q: int)
    requires b != 0.0
    ensures JsRem(a, b) == a - b * (q as real)
  {
    q := Trunc(a / b);
  }

  lemma Combine(a: real, d: real, q1: int, q2: int, r1: real, m: real)
    requires r1 == a - d * (q1 as real)
    requires m == r1 + d - d * (q2 as real)
    ensures m == a - d * ((q1 + q2 - 1) as real)
  {
    Distribute(d, q1 as real, q2 as real);
  }

  lemma Distribute(d: real, x: real, y: real)
    ensures d * (x + y - 1.0) == d * x + d * y - d
  {
  }

  lemma QuotientOfShifted(dividend: real, divisor: real, k: real, m: real)
    requires divisor > 0.0
    requires m == dividend - divisor * k
    requires 0.0 <= m < divisor
    ensures k <= dividend / divisor < k + 1.0
  {
    DivBounds(m, divisor);
    assert dividend == divisor * k + m;
    assert (divisor * k + m) / divisor == k + m / divisor;
  }

  lemma FloorUnique(x: real, k: int)
    requires k as real <= x < k as real + 1.0
    ensures x.Floor == k
  {
  }

  /** `lerp` undoes `percent`: a value between the two ends is recovered. */
  lemma LerpOfPercent(value: real, a: real, b: real)
    requires a != b
    requires Min(a, b) <= value <= Max(a, b)
    ensures Lerp(Percent(value, a, b), a, b) == value
  {
    var p := (value - a) / (b - a);
    QuotientInUnit(value, a, b);
    assert Clamp01(p) == p;
    assert Percent(value, a, b) == p;
    assert Lerp(p, a, b) == a + p * (b - a);
  }

  /** The fraction `percent` computes for a value between the ends lies in
      [0, 1] and scales the span back to the offset. */
  lemma QuotientInUnit(value: real, a: real, b: real)
    requires a != b
    requires Min(a, b) <= value <= Max(a, b)
    ensures var p := (value - a) / (b - a); 0.0 <= p <= 1.0 && p * (b - a) == value - a
  {
    var p := (value - a) / (b - a);
    if a < b {
      DivBounds(value - a, b - a);
    } else {
      DivBounds(a - value, a - b);
      assert p == (a - value) / (a - b);
    }
  }

  /** `percent` undoes `lerp` for any interpolation factor, up to the clamp. */
  lemma PercentOfLerp(t: real, a: real, b: real)
    requires a != b
    ensures Percent(Lerp(t, a, b), a, b) == Clamp01(t)
  {
    var c := Clamp01(t);
    assert Lerp(t, a, b) - a == c * (b - a);
    MulDivCancel(c, b - a);
    assert Clamp01(c) == c;
  }

  /** Multiplying and then dividing by the same non-zero number gives
      the number back. */
  lemma MulDivCancel(x: real, d: real)
    requires d != 0.0
    ensures (x * d) / d == x
  {
    var q := (x * d) / d;
    assert q * d == x * d;
    assert (q - x) * d == 0.0;
    MulSigns(q - x, d);
  }

  /** Box overlap does not depend on which box is named first. */
  lemma OverlapSymmetric(posA: Vec2, sizeA: Vec2, posB: Vec2, sizeB: Vec2)
    ensures IsOverlapping(posA, sizeA, posB, sizeB) <==> IsOverlapping(posB, sizeB, posA, sizeA)
  {
    assert Abs(posA.x - posB.x) == Abs(posB.x - posA.x);
    assert Abs(posA.y - posB.y) == Abs(posB.y - posA.y);
  }
}
