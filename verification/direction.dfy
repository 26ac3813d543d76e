/**
 The four-way direction encoding of Vector2: 0 is +y, 1 is +x, 2 is -y and
 3 is -x (multiples of a quarter turn).
 */
module Direction {
  import opened Scalar

  /** `setDirection(direction, length)`: the axis vector of the given
      quarter-turn count, reduced modulo 4. Fractional counts follow the
      same branches as the engine's release build. */
  function SetDirection(direction: real, length: real): (v: Vec2)
    ensures v.x == 0.0 || v.y == 0.0
    ensures v.LengthSquared() == length * length
  {
    var d := Mod(direction, 4.0);
    var odd := JsRem(d, 2.0) != 0.0;
    Vec2(if odd then (if d - 1.0 != 0.0 then -length else length) else 0.0,
         if odd then 0.0 else (if d != 0.0 then -length else length))
  }

  /** `direction()`: the quarter-turn count of the dominant axis, with ties
      going to the y axis. */
  function DirectionOf(v: Vec2): (d: int)
    ensures 0 <= d < 4
  {
    if Abs(v.x) > Abs(v.y) then (if v.x < 0.0 then 3 else 1)
    else if v.y < 0.0 then 2 else 0
  }

  /** The engine's `mod` on a whole number is Dafny's Euclidean `%`. */
  lemma ModOfWhole(k: int, n: int)
    requires n > 0
    ensures Mod(k as real, n as real) == (k % n) as real
  {
    ModIsFlooredRemainder(k as real, n as real);
    WholeRemainder(k, n, Mod(k as real, n as real));
  }

  lemma WholeRemainder(k: int, n: int, m: real)
    requires n > 0
    requires m == k as real - ((k as real / n as real).Floor as real) * n as real
    ensures m == (k % n) as real
  {
    WholeQuotient(k, n);
    WholeProduct(k / n, n);
  }

  /** Real division of whole numbers floors to Euclidean division. */
  lemma WholeQuotient(k: int, n: int)
    requires n > 0
    ensures (k as real / n as real).Floor == k / n
  {
    var q, r := k / n, k % n;
    assert k == q * n + r;
    WholeProduct(q, n);
    QuotientOfShifted(k as real, n as real, q as real, r as real);
    FloorUnique(k as real / n as real, q);
  }

  lemma WholeProduct(a: int, b: int)
    ensures (a as real) * (b as real) == (a * b) as real
  {
  }

  /** The unit axes the four codes stand for, scaled by `length`. */
  function Axis(q: int, length: real): Vec2 {
    if q == 0 then Vec2(0.0, length)
    else if q == 1 then Vec2(length, 0.0)
    else if q == 2 then Vec2(0.0, -length)
    else Vec2(-length, 0.0)
  }

  /** The axis vector of each of the four codes, for a whole-number code. */
  lemma SetDirectionOfWhole(k: int, length: real)
    ensures SetDirection(k as real, length) == Axis(k % 4, length)
  {
    ModOfWhole(k, 4);
    var d := k % 4;
    assert Mod(k as real, 4.0) == d as real;
    if d == 1 {
      assert Trunc(0.5) == 0;
      assert JsRem(1.0, 2.0) == 1.0;
    } else if d == 2 {
      assert Trunc(1.0) == 1;
      assert JsRem(2.0, 2.0) == 0.0;
    } else if d == 3 {
      assert Trunc(1.5) == 1;
      assert JsRem(3.0, 2.0) == 1.0;
    } else {
      assert Trunc(0.0) == 0;
      assert JsRem(0.0, 2.0) == 0.0;
    }
  }

  /** Encoding then decoding a whole-number code returns it modulo 4, for
      any positive length. */
  lemma DirectionOfSetDirection(k: int, length: real)
    requires length > 0.0
    ensures DirectionOf(SetDirection(k as real, length)) == k % 4
  {
    SetDirectionOfWhole(k, length);
  }

  /** The unit vector along the larger coordinate of `v`, pointing the
      way that coordinate does; the y axis wins ties. */
  function DominantAxis(v: Vec2): Vec2 {
    if Abs(v.x) > Abs(v.y) then Vec2(if v.x < 0.0 then -1.0 else 1.0, 0.0)
    else Vec2(0.0, if v.y < 0.0 then -1.0 else 1.0)
  }

  /** Decoding then encoding gives the unit axis vector along the dominant
      component of `v`. */
  lemma SetDirectionOfDirection(v: Vec2)
    ensures var d := DirectionOf(v); SetDirection(d as real, 1.0) == DominantAxis(v)
  {
    var d := DirectionOf(v);
    SetDirectionOfCode(d);
  }

  lemma SetDirectionOfCode(d: int)
    requires 0 <= d < 4
    ensures SetDirection(d as real, 1.0) == Axis(d, 1.0)
  {
    SetDirectionOfWhole(d, 1.0);
    assert d % 4 == d;
  }

  /** That axis is the unit axis closest in direction to `v`: its dot
      product with `v` is the larger absolute coordinate. */
  lemma DominantAxisDot(v: Vec2)
    ensures var a := DominantAxis(v); a.x * v.x + a.y * v.y == Max(Abs(v.x), Abs(v.y))
  {
  }

  /** Codes that differ by a whole number of turns give the same vector. */
  lemma SetDirectionPeriodic(k: int, turns: int, length: real)
    ensures SetDirection((k + 4 * turns) as real, length) == SetDirection(k as real, length)
  {
    var j := k + 4 * turns;
    WholeTurns(k, turns);
    SetDirectionOfWhole(k, length);
    SetDirectionOfWhole(j, length);
  }

  lemma WholeTurns(k: int, turns: int)
    ensures (k + 4 * turns) % 4 == k % 4
  {
    var q, r := k / 4, k % 4;
    assert k + 4 * turns == 4 * (q + turns) + r;
  }
}
