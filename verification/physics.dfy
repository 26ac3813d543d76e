/**
 The physics step of `EngineObject.update`: the speed limit, damping and
 gravity, friction against the ground object, collisions with the solid
 objects of the collide list, and collisions with the tile map.
 */
module Physics {
  import opened Scalar
  import opened Wrappers
  import opened Objects

  /** How far a resolved object is pushed beyond the other's edge. */
  const SolidEpsilon: real := 0.001
  /** How far above a tile boundary a landing object is placed. */
  const TileEpsilon: real := 0.0001
  /** Below this separation, the push for overlapping objects is random. */
  const PushRandomBelow: real := 0.01

  /** The speed limit at the start of `update`: per axis when
      `clampSpeedLinear` is set, otherwise by rescaling a velocity whose
      length exceeds the limit. `sqrt` stands for `**.5`; a root of 0 for
      a positive number, which a true square root never gives, leaves the
      velocity alone so that the division stays defined. */
  function ClampSpeed(v: Vec2, linear: bool, maxSpeed: real, sqrt: real -> real): (r: Vec2)
    ensures linear && maxSpeed >= 0.0 ==> Abs(r.x) <= maxSpeed && Abs(r.y) <= maxSpeed
    ensures linear && Abs(v.x) <= maxSpeed ==> r.x == v.x
    ensures linear && Abs(v.y) <= maxSpeed ==> r.y == v.y
    ensures !linear && v.LengthSquared() <= maxSpeed * maxSpeed ==> r == v
  {
    if linear then Vec2(Clamp(v.x, -maxSpeed, maxSpeed), Clamp(v.y, -maxSpeed, maxSpeed))
    else
      var l2 := v.LengthSquared();
      if l2 > maxSpeed * maxSpeed && sqrt(l2) != 0.0 then v.Scale(maxSpeed / sqrt(l2)) else v
  }

  /** A velocity over the radial limit is brought back to exactly the
      limit, without changing its direction. */
  lemma ClampSpeedRadial(v: Vec2, maxSpeed: real, sqrt: real -> real)
    requires maxSpeed >= 0.0 && v.LengthSquared() > maxSpeed * maxSpeed
    requires sqrt(v.LengthSquared()) >= 0.0
    requires sqrt(v.LengthSquared()) * sqrt(v.LengthSquared()) == v.LengthSquared()
    ensures var r := ClampSpeed(v, false, maxSpeed, sqrt);
      && r.LengthSquared() == maxSpeed * maxSpeed
      && r.x * v.x >= 0.0 && r.y * v.y >= 0.0 && r.x * v.y == r.y * v.x
  {
    var l2 := v.LengthSquared();
    var root := sqrt(l2);
    var s := maxSpeed / root;
    Ratio(maxSpeed, root);
    ScaledLength(v, s);
    SquareOfRatio(s, root, maxSpeed, l2);
    ScaledDot(v.x, s);
    ScaledDot(v.y, s);
    assert (v.x * s) * v.y == (v.y * s) * v.x;
  }

  lemma ScaledLength(v: Vec2, s: real)
    ensures v.Scale(s).LengthSquared() == s * s * v.LengthSquared()
  {
    assert (v.x * s) * (v.x * s) == s * s * (v.x * v.x);
    assert (v.y * s) * (v.y * s) == s * s * (v.y * v.y);
  }

  /** A non-negative quotient by a positive divisor, times the divisor. */
  lemma Ratio(a: real, d: real)
    requires a >= 0.0 && d > 0.0
    ensures (a / d) * d == a && a / d >= 0.0
  {
  }

  lemma SquareOfRatio(s: real, root: real, a: real, l2: real)
    requires s * root == a && root * root == l2
    ensures s * s * l2 == a * a
  {
    assert s * s * (root * root) == (s * root) * (s * root);
  }

  /** Scaling by a non-negative factor keeps each coordinate's sign. */
  lemma ScaledDot(a: real, s: real)
    requires s >= 0.0
    ensures (a * s) * a >= 0.0
  {
    assert (a * s) * a == s * (a * a);
    MulSigns(s, a * a);
  }

  /** The speed gravity adds in one step: none for a static object. */
  function Fall(o: EngineObject, env: Env): (f: real)
    ensures o.mass == 0.0 ==> f == 0.0
  {
    if o.mass != 0.0 then env.gravity * o.gravityScale else 0.0
  }

  /** A moving object gains `gravity * gravityScale` in each step. */
  lemma FallMoving(o: EngineObject, env: Env)
    requires o.mass != 0.0
    ensures Fall(o, env) == env.gravity * o.gravityScale
  {
  }

  /** The integration part of `update`, for an object with the settings of
      `o`: clamp the speed, damp it, add gravity unless the object is
      static (mass 0), move by the new velocity, then damp the angular
      velocity and turn by it. */
  function Advance(k: Kin, o: EngineObject, env: Env): (r: Kin)
    ensures r.pos == k.pos.Add(r.velocity)
    ensures r.angle == k.angle + r.angleVelocity
    ensures r.groundObject == k.groundObject
  {
    var v := ClampSpeed(k.velocity, o.clampSpeedLinear, env.maxSpeed, env.sqrt).Scale(o.damping);
    var velocity := Vec2(v.x, v.y + Fall(o, env));
    var spin := k.angleVelocity * o.angleDamping;
    Kin(k.pos.Add(velocity), velocity, k.angle + spin, spin, k.groundObject)
  }

  /** Damping a value within a limit keeps it within the damped limit. */
  lemma ScaledWithin(c: real, d: real, m: real)
    requires Abs(c) <= m && d >= 0.0
    ensures Abs(c * d) <= d * m
  {
    if c >= 0.0 {
      MulSigns(c, d);
      assert d * m - c * d == d * (m - c);
      MulSigns(d, m - c);
    } else {
      assert -(c * d) == d * (-c);
      assert d * m - d * (-c) == d * (m + c);
      MulSigns(d, m + c);
      MulSigns(d, -c);
    }
  }

  /** The order of the integration step for a per-axis limit: each axis is
      clamped first and then damped, so it ends within the damped limit,
      and gravity is added to y afterwards, undamped; the angular velocity
      is only damped. */
  lemma AdvanceWithinLimit(k: Kin, o: EngineObject, env: Env)
    requires o.clampSpeedLinear && env.maxSpeed >= 0.0 && o.damping >= 0.0
    ensures var r := Advance(k, o, env);
      && Abs(r.velocity.x) <= o.damping * env.maxSpeed
      && Abs(r.velocity.y - Fall(o, env)) <= o.damping * env.maxSpeed
      && r.angleVelocity == k.angleVelocity * o.angleDamping
  {
    AdvanceXWithin(k, o, env);
    AdvanceYWithin(k, o, env);
  }

  /** The x half of `AdvanceWithinLimit`. */
  lemma AdvanceXWithin(k: Kin, o: EngineObject, env: Env)
    requires o.clampSpeedLinear && env.maxSpeed >= 0.0 && o.damping >= 0.0
    ensures Abs(Advance(k, o, env).velocity.x) <= o.damping * env.maxSpeed
  {
    var c := ClampSpeed(k.velocity, true, env.maxSpeed, env.sqrt);
    AdvanceX(k, o, env, c);
    ScaledWithin(c.x, o.damping, env.maxSpeed);
  }

  /** The y half of `AdvanceWithinLimit`. */
  lemma AdvanceYWithin(k: Kin, o: EngineObject, env: Env)
    requires o.clampSpeedLinear && env.maxSpeed >= 0.0 && o.damping >= 0.0
    ensures Abs(Advance(k, o, env).velocity.y - Fall(o, env)) <= o.damping * env.maxSpeed
  {
    var c := ClampSpeed(k.velocity, true, env.maxSpeed, env.sqrt);
    AdvanceY(k, o, env, c);
    ScaledWithin(c.y, o.damping, env.maxSpeed);
  }

  /** The new x velocity of `Advance` is the clamped one, damped. */
  lemma AdvanceX(k: Kin, o: EngineObject, env: Env, c: Vec2)
    requires c == ClampSpeed(k.velocity, o.clampSpeedLinear, env.maxSpeed, env.sqrt)
    ensures Advance(k, o, env).velocity.x == c.x * o.damping
  {
  }

  /** The new y velocity of `Advance` is the clamped one, damped, plus
      gravity. */
  lemma AdvanceY(k: Kin, o: EngineObject, env: Env, c: Vec2)
    requires c == ClampSpeed(k.velocity, o.clampSpeedLinear, env.maxSpeed, env.sqrt)
    ensures Advance(k, o, env).velocity.y - Fall(o, env) == c.y * o.damping
  {
    var v := c.Scale(o.damping);
    assert Advance(k, o, env).velocity == Vec2(v.x, v.y + Fall(o, env));
  }

  /** Within the speed limit nothing is clamped: the step damps the
      velocity, then adds gravity to y, then moves by the result. */
  lemma AdvanceUnclamped(k: Kin, o: EngineObject, env: Env)
    requires o.clampSpeedLinear ==> Abs(k.velocity.x) <= env.maxSpeed && Abs(k.velocity.y) <= env.maxSpeed
    requires !o.clampSpeedLinear ==> k.velocity.LengthSquared() <= env.maxSpeed * env.maxSpeed
    ensures var r := Advance(k, o, env);
      && r.velocity == Vec2(k.velocity.x * o.damping, k.velocity.y * o.damping + Fall(o, env))
      && r.angleVelocity == k.angleVelocity * o.angleDamping
      && r.pos == k.pos.Add(r.velocity)
  {
  }

  /** `k` integration steps of an object with the settings of `o`. */
  function AdvanceSteps(k: Kin, o: EngineObject, env: Env, n: nat): Kin
    decreases n
  {
    if n == 0 then k else AdvanceSteps(Advance(k, o, env), o, env, n - 1)
  }

  /** Within the speed limit, without damping and without gravity acting
      on it, an object keeps its velocity and moves by it each step. */
  lemma {:induction false} UniformMotion(k: Kin, o: EngineObject, env: Env, n: nat)
    requires o.damping == 1.0 && o.angleDamping == 1.0
    requires Fall(o, env) == 0.0
    requires o.clampSpeedLinear ==> Abs(k.velocity.x) <= env.maxSpeed && Abs(k.velocity.y) <= env.maxSpeed
    requires !o.clampSpeedLinear ==> k.velocity.LengthSquared() <= env.maxSpeed * env.maxSpeed
    ensures AdvanceSteps(k, o, env, n)
         == k.(pos := k.pos.Add(k.velocity.Scale(n as real)), angle := k.angle + n as real * k.angleVelocity)
    decreases n
  {
    if n > 0 {
      var next := k.(pos := k.pos.Add(k.velocity), angle := k.angle + k.angleVelocity);
      UniformStep(k, o, env);
      UniformMotion(next, o, env, n - 1);
      assert AdvanceSteps(k, o, env, n) == AdvanceSteps(next, o, env, n - 1);
      Steps(k.pos, k.velocity, k.angle, k.angleVelocity, (n - 1) as real, n as real);
    }
  }

  /** One step of uniform motion. */
  lemma UniformStep(k: Kin, o: EngineObject, env: Env)
    requires o.damping == 1.0 && o.angleDamping == 1.0
    requires Fall(o, env) == 0.0
    requires o.clampSpeedLinear ==> Abs(k.velocity.x) <= env.maxSpeed && Abs(k.velocity.y) <= env.maxSpeed
    requires !o.clampSpeedLinear ==> k.velocity.LengthSquared() <= env.maxSpeed * env.maxSpeed
    ensures Advance(k, o, env) == k.(pos := k.pos.Add(k.velocity), angle := k.angle + k.angleVelocity)
  {
    WithinLimit(k.velocity, o.clampSpeedLinear, env.maxSpeed, env.sqrt);
  }

  /** A velocity within the limit passes unchanged. */
  lemma WithinLimit(v: Vec2, linear: bool, maxSpeed: real, sqrt: real -> real)
    requires linear ==> Abs(v.x) <= maxSpeed && Abs(v.y) <= maxSpeed
    requires !linear ==> v.LengthSquared() <= maxSpeed * maxSpeed
    ensures ClampSpeed(v, linear, maxSpeed, sqrt) == v
  {
  }

  /** One step followed by `n` more is `n + 1` steps. */
  lemma Steps(p: Vec2, v: Vec2, angle: real, spin: real, n: real, next: real)
    requires next == n + 1.0
    ensures p.Add(v).Add(v.Scale(n)) == p.Add(v.Scale(next))
    ensures angle + spin + n * spin == angle + next * spin
  {
  }

  /** Gravity never reaches a static object: its step is the same in any
      gravity. */
  lemma StaticIgnoresGravity(k: Kin, o: EngineObject, env: Env, gravity: real)
    requires o.mass == 0.0
    ensures Advance(k, o, env) == Advance(k, o, env.(gravity := gravity))
  {
  }

  /** The friction step: the horizontal velocity relative to the ground's
      is multiplied by `friction`. */
  function Friction(v: real, groundSpeed: real, friction: real): (r: real)
    ensures 0.0 <= friction <= 1.0 ==>
      Abs(r - groundSpeed) <= Abs(v - groundSpeed) && (r - groundSpeed) * (v - groundSpeed) >= 0.0
    ensures friction == 0.0 ==> r == groundSpeed
    ensures friction == 1.0 ==> r == v
  {
    var d := v - groundSpeed;
    MulSigns(friction, d);
    MulSigns(1.0 - friction, d);
    MulSigns(friction * d, d);
    groundSpeed + d * friction
  }

  /** The horizontal speed of the ground: the ground object's, or 0 on
      tiles (marked by the object being its own ground). */
  function GroundSpeed(objs: Registry, self: Handle, ground: Handle): (s: real)
    requires ground in objs
    ensures ground == self ==> s == 0.0
  {
    if ground != self then objs[ground].kin.velocity.x else 0.0
  }

  /** The push given to an object that was already overlapping: `.001`
      along the separation, or a random `.001` push when the centres are
      closer than `.01`. */
  function PushVelocity(delta: Vec2, random: Vec2, sqrt: real -> real): (v: Vec2)
  {
    var length := sqrt(delta.LengthSquared());
    if length < PushRandomBelow then random else delta.Scale(PushAway / length)
  }

  /** Every push has length `.001`, and a push that is not random points
      along the separation. */
  lemma PushLength(delta: Vec2, random: Vec2, sqrt: real -> real)
    requires random.LengthSquared() == PushAway * PushAway
    requires sqrt(delta.LengthSquared()) * sqrt(delta.LengthSquared()) == delta.LengthSquared()
    ensures var v := PushVelocity(delta, random, sqrt);
      && v.LengthSquared() == PushAway * PushAway
      && (sqrt(delta.LengthSquared()) >= PushRandomBelow ==>
            v.x * delta.x >= 0.0 && v.y * delta.y >= 0.0 && v.x * delta.y == v.y * delta.x)
  {
    var l2 := delta.LengthSquared();
    var root := sqrt(l2);
    if root >= PushRandomBelow {
      var s := PushAway / root;
      Ratio(PushAway, root);
      ScaledLength(delta, s);
      SquareOfRatio(s, root, PushAway, l2);
      ScaledDot(delta.x, s);
      ScaledDot(delta.y, s);
      assert (delta.x * s) * delta.y == (delta.y * s) * delta.x;
    }
  }

  /** The velocities along one axis after a collision between a mover of
      mass `m0` and an object of mass `m1`: the elasticity, clamped to
      [0, 1], interpolates between the inelastic and elastic outcomes. */
  function Exchange(m0: real, v0: real, m1: real, v1: real, elasticity: real): (r: (real, real))
    requires m0 + m1 > 0.0
  {
    var m := m0 + m1;
    var inelastic := (m0 * v0 + m1 * v1) / m;
    var elastic0 := v0 * (m0 - m1) / m + v1 * 2.0 * m1 / m;
    var elastic1 := v1 * (m1 - m0) / m + v0 * 2.0 * m0 / m;
    (Lerp(elasticity, inelastic, elastic0), Lerp(elasticity, inelastic, elastic1))
  }

  /** The exchange conserves momentum, and the relative velocity is
      reversed and scaled by the clamped elasticity. */
  lemma ExchangeLaws(m0: real, v0: real, m1: real, v1: real, elasticity: real)
    requires m0 + m1 > 0.0
    ensures var r := Exchange(m0, v0, m1, v1, elasticity);
      && m0 * r.0 + m1 * r.1 == m0 * v0 + m1 * v1
      && r.1 - r.0 == Clamp01(elasticity) * (v0 - v1)
  {
    var m := m0 + m1;
    var c := Clamp01(elasticity);
    var inelastic := (m0 * v0 + m1 * v1) / m;
    var elastic0 := v0 * (m0 - m1) / m + v1 * 2.0 * m1 / m;
    var elastic1 := v1 * (m1 - m0) / m + v0 * 2.0 * m0 / m;
    ElasticMomentum(m0, v0, m1, v1);
    assert m0 * inelastic + m1 * inelastic == m0 * v0 + m1 * v1 by {
      assert (m0 + m1) * inelastic == m0 * v0 + m1 * v1;
    }
    var r0 := inelastic + c * (elastic0 - inelastic);
    var r1 := inelastic + c * (elastic1 - inelastic);
    assert m0 * r0 + m1 * r1 == m0 * inelastic + m1 * inelastic + c * (m0 * elastic0 + m1 * elastic1 - m0 * inelastic - m1 * inelastic);
    assert r1 - r0 == c * (elastic1 - elastic0);
  }

  /** Without elasticity both objects leave with the mass-weighted average
      of their velocities. */
  lemma InelasticAverage(m0: real, v0: real, m1: real, v1: real, elasticity: real)
    requires m0 + m1 > 0.0 && elasticity <= 0.0
    ensures var r := Exchange(m0, v0, m1, v1, elasticity);
      r.0 == r.1 == (m0 * v0 + m1 * v1) / (m0 + m1)
  {
  }

  /** The fully elastic outcome conserves momentum and swaps the relative
      velocity. */
  lemma ElasticMomentum(m0: real, v0: real, m1: real, v1: real)
    requires m0 + m1 > 0.0
    ensures var m := m0 + m1;
      var elastic0 := v0 * (m0 - m1) / m + v1 * 2.0 * m1 / m;
      var elastic1 := v1 * (m1 - m0) / m + v0 * 2.0 * m0 / m;
      && m0 * elastic0 + m1 * elastic1 == m0 * v0 + m1 * v1
      && elastic1 - elastic0 == v0 - v1
  {
    var m := m0 + m1;
    var e0 := v0 * (m0 - m1) + v1 * 2.0 * m1;
    var e1 := v1 * (m1 - m0) + v0 * 2.0 * m0;
    SumOver(v0 * (m0 - m1), v1 * 2.0 * m1, m);
    SumOver(v1 * (m1 - m0), v0 * 2.0 * m0, m);
    ElasticNumerators(m0, v0, m1, v1);
    WeightedOver(m0, e0, m1, e1, m);
    Cancel(m0 * v0 + m1 * v1, m);
    Cancel(v0 - v1, m);
  }

  /** The identities behind `ElasticMomentum`, before dividing by the
      total mass. */
  lemma ElasticNumerators(m0: real, v0: real, m1: real, v1: real)
    ensures var e0 := v0 * (m0 - m1) + v1 * 2.0 * m1;
      var e1 := v1 * (m1 - m0) + v0 * 2.0 * m0;
      && m0 * e0 + m1 * e1 == (m0 * v0 + m1 * v1) * (m0 + m1)
      && e1 - e0 == (v0 - v1) * (m0 + m1)
  {
  }

  lemma SumOver(a: real, b: real, m: real)
    requires m != 0.0
    ensures a / m + b / m == (a + b) / m
  {
  }

  lemma WeightedOver(k0: real, a: real, k1: real, b: real, m: real)
    requires m != 0.0
    ensures k0 * (a / m) + k1 * (b / m) == (k0 * a + k1 * b) / m
    ensures b / m - a / m == (b - a) / m
  {
  }

  lemma Cancel(a: real, m: real)
    requires m != 0.0
    ensures (a * m) / m == a
  {
  }

  /** The kinematic states of the mover `a` and the other object `b`. */
  datatype Pair = Pair(a: Kin, b: Kin)

  /** Resolution along y: `a` is put just outside `b` on its side of the
      old position. Landing on a static or grounded object bounces, and
      marks `b` (handle `other`) as the ground when `a` was moving down;
      otherwise the two exchange vertical momentum. */
  function ResolveY(p: Pair, ma: real, mb: real, sizeBoth: Vec2, oldPos: Vec2, wasMovingDown: bool,
                    elasticity: real, other: Handle): (r: Pair)
    requires ma > 0.0 && mb >= 0.0
  {
    var a, b := p.a, p.b;
    var moved := a.(pos := Vec2(a.pos.x, b.pos.y + (sizeBoth.y / 2.0 + SolidEpsilon) * Sign(oldPos.y - b.pos.y)));
    if (b.groundObject.Some? && wasMovingDown) || mb == 0.0 then
      var landed := if wasMovingDown then moved.(groundObject := Some(other)) else moved;
      Pair(landed.(velocity := Vec2(a.velocity.x, a.velocity.y * -elasticity)), b)
    else
      var v := Exchange(ma, a.velocity.y, mb, b.velocity.y, elasticity);
      Pair(moved.(velocity := Vec2(a.velocity.x, v.0)), b.(velocity := Vec2(b.velocity.x, v.1)))
  }

  /** Resolution along x: `a` is put just outside `b`, then bounces off a
      static `b` or exchanges horizontal momentum with a movable one. */
  function ResolveX(p: Pair, ma: real, mb: real, sizeBoth: Vec2, oldPos: Vec2, elasticity: real): (r: Pair)
    requires ma > 0.0 && mb >= 0.0
  {
    var a, b := p.a, p.b;
    var moved := a.(pos := Vec2(b.pos.x + (sizeBoth.x / 2.0 + SolidEpsilon) * Sign(oldPos.x - b.pos.x), a.pos.y));
    if mb != 0.0 then
      var v := Exchange(ma, a.velocity.x, mb, b.velocity.x, elasticity);
      Pair(moved.(velocity := Vec2(v.0, a.velocity.y)), b.(velocity := Vec2(v.1, b.velocity.y)))
    else
      Pair(moved.(velocity := Vec2(a.velocity.x * -elasticity, a.velocity.y)), b)
  }

  /** Whether the collision is resolved along y: a small step up, a
      blocked vertical path, or an open horizontal one. */
  predicate ResolvesY(b: Vec2, sizeBoth: Vec2, oldPos: Vec2, gravity: real) {
    || (oldPos.y - b.y) * 2.0 > sizeBoth.y + gravity
    || Abs(oldPos.x - b.x) * 2.0 < sizeBoth.x
    || !(Abs(oldPos.y - b.y) * 2.0 < sizeBoth.y)
  }

  /** Whether the collision is resolved along x: no small step up, and a
      blocked horizontal path. */
  predicate ResolvesX(b: Vec2, sizeBoth: Vec2, oldPos: Vec2, gravity: real) {
    !((oldPos.y - b.y) * 2.0 > sizeBoth.y + gravity) && Abs(oldPos.y - b.y) * 2.0 < sizeBoth.y
  }

  /** A collision between objects that did not overlap before the step:
      resolved along y, then along x, with the larger elasticity. */
  function Resolve(p: Pair, a: EngineObject, b: EngineObject, oldPos: Vec2, wasMovingDown: bool,
                   gravity: real, other: Handle): (r: Pair)
    requires a.mass > 0.0 && b.mass >= 0.0
  {
    var sizeBoth := a.size.Add(b.size);
    var elasticity := Max(a.elasticity, b.elasticity);
    var q := if ResolvesY(p.b.pos, sizeBoth, oldPos, gravity)
             then ResolveY(p, a.mass, b.mass, sizeBoth, oldPos, wasMovingDown, elasticity, other) else p;
    if ResolvesX(p.b.pos, sizeBoth, oldPos, gravity) then ResolveX(q, a.mass, b.mass, sizeBoth, oldPos, elasticity) else q
  }

  /** A box put just outside another along one axis no longer overlaps it
      on that axis, when the two centres differed there before. */
  lemma PushedOut(c: real, sizeBoth: real, d: real)
    requires sizeBoth >= 0.0 && d != 0.0
    ensures Abs(c + (sizeBoth / 2.0 + SolidEpsilon) * Sign(d) - c) * 2.0 > sizeBoth
  {
    var h := sizeBoth / 2.0 + SolidEpsilon;
    if d > 0.0 {
      assert c + h * Sign(d) - c == h;
    } else {
      assert c + h * Sign(d) - c == -h;
    }
  }

  /** What y resolution leaves alone and where it puts `a`. */
  lemma ResolveYFacts(p: Pair, ma: real, mb: real, sizeBoth: Vec2, oldPos: Vec2, wasMovingDown: bool,
                      elasticity: real, other: Handle)
    requires ma > 0.0 && mb >= 0.0
    ensures var r := ResolveY(p, ma, mb, sizeBoth, oldPos, wasMovingDown, elasticity, other);
      && r.a.pos == Vec2(p.a.pos.x, p.b.pos.y + (sizeBoth.y / 2.0 + SolidEpsilon) * Sign(oldPos.y - p.b.pos.y))
      && r.b.pos == p.b.pos && r.b.groundObject == p.b.groundObject
      && r.a.velocity.x == p.a.velocity.x && r.b.velocity.x == p.b.velocity.x
      && r.a.angle == p.a.angle && r.a.angleVelocity == p.a.angleVelocity
      && r.b.angle == p.b.angle && r.b.angleVelocity == p.b.angleVelocity
  {
  }

  /** What x resolution leaves alone and where it puts `a`. */
  lemma ResolveXFacts(p: Pair, ma: real, mb: real, sizeBoth: Vec2, oldPos: Vec2, elasticity: real)
    requires ma > 0.0 && mb >= 0.0
    ensures var r := ResolveX(p, ma, mb, sizeBoth, oldPos, elasticity);
      && r.a.pos == Vec2(p.b.pos.x + (sizeBoth.x / 2.0 + SolidEpsilon) * Sign(oldPos.x - p.b.pos.x), p.a.pos.y)
      && r.b.pos == p.b.pos && r.b.groundObject == p.b.groundObject && r.a.groundObject == p.a.groundObject
      && r.a.velocity.y == p.a.velocity.y && r.b.velocity.y == p.b.velocity.y
      && r.a.angle == p.a.angle && r.a.angleVelocity == p.a.angleVelocity
      && r.b.angle == p.b.angle && r.b.angleVelocity == p.b.angleVelocity
  {
  }

  /** Every collision is resolved along at least one axis. */
  lemma SomeAxisResolves(b: Vec2, sizeBoth: Vec2, oldPos: Vec2, gravity: real)
    ensures ResolvesY(b, sizeBoth, oldPos, gravity) || ResolvesX(b, sizeBoth, oldPos, gravity)
  {
  }

  /** After resolution the mover no longer overlaps the other object, as
      long as their centres differed on both axes before the step. */
  lemma ResolveSeparates(p: Pair, a: EngineObject, b: EngineObject, oldPos: Vec2, wasMovingDown: bool,
                         gravity: real, other: Handle)
    requires a.mass > 0.0 && b.mass >= 0.0
    requires a.size.x + b.size.x >= 0.0 && a.size.y + b.size.y >= 0.0
    requires oldPos.x != p.b.pos.x && oldPos.y != p.b.pos.y
    ensures var r := Resolve(p, a, b, oldPos, wasMovingDown, gravity, other);
      r.b.pos == p.b.pos && !IsOverlapping(r.a.pos, a.size, r.b.pos, b.size)
  {
    var sizeBoth := a.size.Add(b.size);
    var e := Max(a.elasticity, b.elasticity);
    var y := ResolvesY(p.b.pos, sizeBoth, oldPos, gravity);
    var q := if y then ResolveY(p, a.mass, b.mass, sizeBoth, oldPos, wasMovingDown, e, other) else p;
    if y {
      ResolveYFacts(p, a.mass, b.mass, sizeBoth, oldPos, wasMovingDown, e, other);
      PushedOut(p.b.pos.y, sizeBoth.y, oldPos.y - p.b.pos.y);
    }
    if ResolvesX(p.b.pos, sizeBoth, oldPos, gravity) {
      ResolveXFacts(q, a.mass, b.mass, sizeBoth, oldPos, e);
      PushedOut(p.b.pos.x, sizeBoth.x, oldPos.x - p.b.pos.x);
    } else {
      SomeAxisResolves(p.b.pos, sizeBoth, oldPos, gravity);
    }
  }

  /** The total momentum `m * v` of a pair. */
  function Momentum(p: Pair, ma: real, mb: real): Vec2 {
    p.a.velocity.Scale(ma).Add(p.b.velocity.Scale(mb))
  }

  /** Against a movable object that is not a grounded landing spot, a
      resolution conserves the total momentum on both axes. */
  lemma ResolveConservesMomentum(p: Pair, a: EngineObject, b: EngineObject, oldPos: Vec2,
                                 wasMovingDown: bool, gravity: real, other: Handle)
    requires a.mass > 0.0 && b.mass > 0.0
    requires !(p.b.groundObject.Some? && wasMovingDown)
    ensures Momentum(Resolve(p, a, b, oldPos, wasMovingDown, gravity, other), a.mass, b.mass)
         == Momentum(p, a.mass, b.mass)
  {
    var sizeBoth := a.size.Add(b.size);
    var e := Max(a.elasticity, b.elasticity);
    var q := if ResolvesY(p.b.pos, sizeBoth, oldPos, gravity)
             then ResolveY(p, a.mass, b.mass, sizeBoth, oldPos, wasMovingDown, e, other) else p;
    if ResolvesY(p.b.pos, sizeBoth, oldPos, gravity) {
      ResolveYMomentum(p, a.mass, b.mass, sizeBoth, oldPos, wasMovingDown, e, other);
    }
    if ResolvesX(p.b.pos, sizeBoth, oldPos, gravity) {
      ResolveXMomentum(q, a.mass, b.mass, sizeBoth, oldPos, e);
    }
  }

  lemma ResolveYMomentum(p: Pair, ma: real, mb: real, sizeBoth: Vec2, oldPos: Vec2, wasMovingDown: bool,
                         elasticity: real, other: Handle)
    requires ma > 0.0 && mb > 0.0
    requires !(p.b.groundObject.Some? && wasMovingDown)
    ensures Momentum(ResolveY(p, ma, mb, sizeBoth, oldPos, wasMovingDown, elasticity, other), ma, mb)
         == Momentum(p, ma, mb)
  {
    var r := ResolveY(p, ma, mb, sizeBoth, oldPos, wasMovingDown, elasticity, other);
    ExchangeLaws(ma, p.a.velocity.y, mb, p.b.velocity.y, elasticity);
    AxisMomentum(p.a.velocity, p.b.velocity, r.a.velocity, r.b.velocity, ma, mb);
  }

  lemma ResolveXMomentum(p: Pair, ma: real, mb: real, sizeBoth: Vec2, oldPos: Vec2, elasticity: real)
    requires ma > 0.0 && mb > 0.0
    ensures Momentum(ResolveX(p, ma, mb, sizeBoth, oldPos, elasticity), ma, mb) == Momentum(p, ma, mb)
  {
    var r := ResolveX(p, ma, mb, sizeBoth, oldPos, elasticity);
    ExchangeLaws(ma, p.a.velocity.x, mb, p.b.velocity.x, elasticity);
    AxisMomentum(p.a.velocity, p.b.velocity, r.a.velocity, r.b.velocity, ma, mb);
  }

  /** Momentum kept on each axis is momentum kept. */
  lemma AxisMomentum(va: Vec2, vb: Vec2, ra: Vec2, rb: Vec2, ma: real, mb: real)
    requires ma * ra.x + mb * rb.x == ma * va.x + mb * vb.x
    requires ma * ra.y + mb * rb.y == ma * va.y + mb * vb.y
    ensures ra.Scale(ma).Add(rb.Scale(mb)) == va.Scale(ma).Add(vb.Scale(mb))
  {
  }

  /** Against a static object, the other object is left as it was and the
      mover bounces: each resolved velocity component is reversed and
      scaled by the larger elasticity, the others are kept. */
  lemma ResolveBouncesOffStatic(p: Pair, a: EngineObject, b: EngineObject, oldPos: Vec2,
                                wasMovingDown: bool, gravity: real, other: Handle)
    requires a.mass > 0.0 && b.mass == 0.0
    ensures var r := Resolve(p, a, b, oldPos, wasMovingDown, gravity, other);
      var sizeBoth := a.size.Add(b.size);
      var e := Max(a.elasticity, b.elasticity);
      && r.b == p.b
      && r.a.velocity.y == (if ResolvesY(p.b.pos, sizeBoth, oldPos, gravity) then p.a.velocity.y * -e else p.a.velocity.y)
      && r.a.velocity.x == (if ResolvesX(p.b.pos, sizeBoth, oldPos, gravity) then p.a.velocity.x * -e else p.a.velocity.x)
  {
    var sizeBoth := a.size.Add(b.size);
    var e := Max(a.elasticity, b.elasticity);
    if ResolvesY(p.b.pos, sizeBoth, oldPos, gravity) {
      ResolveYFacts(p, a.mass, b.mass, sizeBoth, oldPos, wasMovingDown, e, other);
    }
  }

  /** Coming down onto a grounded object, the mover bounces on y as off a
      static one, and the other object keeps its vertical velocity and its
      position; only an x resolution can exchange horizontal momentum. */
  lemma ResolveBouncesOffGround(p: Pair, a: EngineObject, b: EngineObject, oldPos: Vec2,
                                wasMovingDown: bool, gravity: real, other: Handle)
    requires a.mass > 0.0 && b.mass >= 0.0
    requires p.b.groundObject.Some? && wasMovingDown
    ensures var r := Resolve(p, a, b, oldPos, wasMovingDown, gravity, other);
      var e := Max(a.elasticity, b.elasticity);
      && r.b.velocity.y == p.b.velocity.y && r.b.pos == p.b.pos
      && r.a.velocity.y == (if ResolvesY(p.b.pos, a.size.Add(b.size), oldPos, gravity) then p.a.velocity.y * -e else p.a.velocity.y)
  {
    var sizeBoth := a.size.Add(b.size);
    var e := Max(a.elasticity, b.elasticity);
    var q := if ResolvesY(p.b.pos, sizeBoth, oldPos, gravity)
             then ResolveY(p, a.mass, b.mass, sizeBoth, oldPos, wasMovingDown, e, other) else p;
    ResolveXFacts(q, a.mass, b.mass, sizeBoth, oldPos, e);
  }

  /** A mover coming down onto a static or grounded object takes it as
      its ground; nothing else changes the mover's ground. */
  lemma ResolveLands(p: Pair, a: EngineObject, b: EngineObject, oldPos: Vec2,
                     wasMovingDown: bool, gravity: real, other: Handle)
    requires a.mass > 0.0 && b.mass >= 0.0
    ensures var r := Resolve(p, a, b, oldPos, wasMovingDown, gravity, other);
      var lands := ResolvesY(p.b.pos, a.size.Add(b.size), oldPos, gravity) && wasMovingDown
                   && (p.b.groundObject.Some? || b.mass == 0.0);
      r.a.groundObject == (if lands then Some(other) else p.a.groundObject)
  {
    var sizeBoth := a.size.Add(b.size);
    var e := Max(a.elasticity, b.elasticity);
    var q := if ResolvesY(p.b.pos, sizeBoth, oldPos, gravity)
             then ResolveY(p, a.mass, b.mass, sizeBoth, oldPos, wasMovingDown, e, other) else p;
    ResolveXFacts(q, a.mass, b.mass, sizeBoth, oldPos, e);
  }

  /** The response to objects that already overlapped before the step:
      `a` gets the push, and `b` the opposite push unless it is static. */
  function Push(a: Kin, b: Kin, mb: real, oldPos: Vec2, random: Vec2, sqrt: real -> real): (r: Pair)
  {
    var v := PushVelocity(oldPos.Subtract(b.pos), random, sqrt);
    Pair(a.(velocity := a.velocity.Add(v)), if mb != 0.0 then b.(velocity := b.velocity.Subtract(v)) else b)
  }

  /** Only velocities change; a static object is left alone; between
      movable objects the two velocity changes cancel out. */
  lemma PushFacts(a: Kin, b: Kin, mb: real, oldPos: Vec2, random: Vec2, sqrt: real -> real)
    ensures var r := Push(a, b, mb, oldPos, random, sqrt);
      && r.a == a.(velocity := r.a.velocity) && r.b == b.(velocity := r.b.velocity)
      && (mb == 0.0 ==> r.b == b)
      && (mb != 0.0 ==> r.a.velocity.Add(r.b.velocity) == a.velocity.Add(b.velocity))
  {
  }

  /** Writes a resolved pair back into the registry. */
  function Store(objs: Registry, self: Handle, other: Handle, p: Pair): (r: Registry)
    requires self in objs && other in objs
  {
    objs[self := objs[self].(kin := p.a)][other := objs[other].(kin := p.b)]
  }

  /** The mover meets one object of the collide list: solid pairs that
      overlap now and both consent are pushed apart if they already
      overlapped, and resolved otherwise. */
  function Contact(objs: Registry, self: Handle, other: Handle, oldPos: Vec2, wasMovingDown: bool,
                   env: Env): (r: Registry)
    requires self in objs && other in objs && objs[self].mass > 0.0 && objs[other].mass >= 0.0
  {
    var a, b := objs[self], objs[other];
    if (!a.isSolid && !b.isSolid) || b.destroyed || b.parent.Some? || other == self then objs
    else if !IsOverlapping(a.kin.pos, a.size, b.kin.pos, b.size) then objs
    else if !(env.consent(self, other) && env.consent(other, self)) then objs
    else Store(objs, self, other, Meet(a, b, other, oldPos, wasMovingDown, env.gravity, env.randPush(self, other), env.sqrt))
  }

  /** The new kinematic states of a colliding pair. */
  function Meet(a: EngineObject, b: EngineObject, other: Handle, oldPos: Vec2, wasMovingDown: bool,
                gravity: real, random: Vec2, sqrt: real -> real): (r: Pair)
    requires a.mass > 0.0 && b.mass >= 0.0
  {
    if IsOverlapping(oldPos, a.size, b.kin.pos, b.size) then Push(a.kin, b.kin, b.mass, oldPos, random, sqrt)
    else Resolve(Pair(a.kin, b.kin), a, b, oldPos, wasMovingDown, gravity, other)
  }

  /** A meeting never changes the other object's ground, leaves a static
      other object alone, and gives the mover at most the other object as
      its new ground. */
  lemma MeetFacts(a: EngineObject, b: EngineObject, other: Handle, oldPos: Vec2, wasMovingDown: bool,
                  gravity: real, random: Vec2, sqrt: real -> real)
    requires a.mass > 0.0 && b.mass >= 0.0
    ensures var r := Meet(a, b, other, oldPos, wasMovingDown, gravity, random, sqrt);
      && r.b.groundObject == b.kin.groundObject
      && (b.mass == 0.0 ==> r.b == b.kin)
      && (r.a.groundObject == a.kin.groundObject || r.a.groundObject == Some(other))
  {
    var p := Pair(a.kin, b.kin);
    if IsOverlapping(oldPos, a.size, b.kin.pos, b.size) {
      PushFacts(a.kin, b.kin, b.mass, oldPos, random, sqrt);
    } else {
      ResolveLands(p, a, b, oldPos, wasMovingDown, gravity, other);
      ResolveGround(p, a, b, oldPos, wasMovingDown, gravity, other);
      if b.mass == 0.0 {
        ResolveBouncesOffStatic(p, a, b, oldPos, wasMovingDown, gravity, other);
      }
    }
  }

  /** Resolution keeps the other object's ground. */
  lemma ResolveGround(p: Pair, a: EngineObject, b: EngineObject, oldPos: Vec2,
                      wasMovingDown: bool, gravity: real, other: Handle)
    requires a.mass > 0.0 && b.mass >= 0.0
    ensures Resolve(p, a, b, oldPos, wasMovingDown, gravity, other).b.groundObject == p.b.groundObject
  {
    var sizeBoth := a.size.Add(b.size);
    var e := Max(a.elasticity, b.elasticity);
    var q := if ResolvesY(p.b.pos, sizeBoth, oldPos, gravity)
             then ResolveY(p, a.mass, b.mass, sizeBoth, oldPos, wasMovingDown, e, other) else p;
    ResolveYFacts(p, a.mass, b.mass, sizeBoth, oldPos, wasMovingDown, e, other);
    ResolveXFacts(q, a.mass, b.mass, sizeBoth, oldPos, e);
  }

  /** Storing a pair for two distinct handles changes their kinematic
      states and nothing else. */
  lemma StoreFacts(objs: Registry, self: Handle, other: Handle, p: Pair)
    requires self in objs && other in objs && self != other
    ensures var r := Store(objs, self, other, p);
      && KinOnly(objs, r) && r[self].kin == p.a && r[other].kin == p.b
      && forall k | k in objs && k != self && k != other :: r[k] == objs[k]
  {
  }

  /** What a pass over a collide list may change: kinematic state only;
      objects other than the mover only if listed, and never their ground
      or, when static, anything; the mover's ground only to a listed
      object. */
  ghost predicate Collided(objs: Registry, r: Registry, self: Handle, list: seq<Handle>) {
    && Updated(objs, r, self, list)
    && (self in objs ==>
          || r[self].kin.groundObject == objs[self].kin.groundObject
          || (r[self].kin.groundObject.Some? && r[self].kin.groundObject.value in list))
  }

  /** What `update` of `self` may change: kinematic state only; objects
      other than `self` only if they are in the collide list, and never
      their ground or, when static, anything at all. */
  ghost predicate Updated(objs: Registry, r: Registry, self: Handle, collide: seq<Handle>) {
    && KinOnly(objs, r)
    && (forall k | k in objs && k != self && k !in collide :: r[k] == objs[k])
    && (forall k | k in objs && k != self && objs[k].mass == 0.0 :: r[k] == objs[k])
    && (forall k | k in objs && k != self :: r[k].kin.groundObject == objs[k].kin.groundObject)
  }

  /** One contact changes at most the mover and the other object. */
  lemma ContactCollided(objs: Registry, self: Handle, other: Handle, oldPos: Vec2, wasMovingDown: bool, env: Env)
    requires self in objs && other in objs && objs[self].mass > 0.0 && objs[other].mass >= 0.0
    ensures Collided(objs, Contact(objs, self, other, oldPos, wasMovingDown, env), self, [other])
  {
    var a, b := objs[self], objs[other];
    if !((!a.isSolid && !b.isSolid) || b.destroyed || b.parent.Some? || other == self)
       && IsOverlapping(a.kin.pos, a.size, b.kin.pos, b.size)
       && env.consent(self, other) && env.consent(other, self) {
      var p := Meet(a, b, other, oldPos, wasMovingDown, env.gravity, env.randPush(self, other), env.sqrt);
      MeetFacts(a, b, other, oldPos, wasMovingDown, env.gravity, env.randPush(self, other), env.sqrt);
      assert Contact(objs, self, other, oldPos, wasMovingDown, env) == Store(objs, self, other, p);
      StoreCollided(objs, self, other, p);
    } else {
      assert Contact(objs, self, other, oldPos, wasMovingDown, env) == objs;
      CollidedRefl(objs, self, [other]);
    }
  }

  lemma CollidedRefl(objs: Registry, self: Handle, list: seq<Handle>)
    ensures Collided(objs, objs, self, list)
  {
  }

  /** Storing a pair that keeps the other object's ground, leaves a
      static other object alone and grounds the mover at most on the
      other object. */
  lemma StoreCollided(objs: Registry, self: Handle, other: Handle, p: Pair)
    requires self in objs && other in objs && self != other
    requires p.b.groundObject == objs[other].kin.groundObject
    requires objs[other].mass == 0.0 ==> p.b == objs[other].kin
    requires p.a.groundObject == objs[self].kin.groundObject || p.a.groundObject == Some(other)
    ensures Collided(objs, Store(objs, self, other, p), self, [other])
  {
    StoreFacts(objs, self, other, p);
  }

  /** Passes compose: a contact with the head of a list, then a pass over
      the rest, is a pass over the whole list. */
  lemma CollidedChain(a: Registry, b: Registry, c: Registry, self: Handle, list: seq<Handle>)
    requires |list| > 0 && Collided(a, b, self, [list[0]]) && Collided(b, c, self, list[1..])
    ensures Collided(a, c, self, list)
  {
    forall k | k in a && k != self && k !in list
      ensures c[k] == a[k]
    {
      assert k !in list[1..] && k != list[0];
    }
  }

  /** The loop over `engineObjectsCollide`. */
  function CollideAll(objs: Registry, self: Handle, list: seq<Handle>, oldPos: Vec2, wasMovingDown: bool,
                      env: Env): (r: Registry)
    requires self in objs && objs[self].mass > 0.0
    requires forall h | h in list :: h in objs && objs[h].mass >= 0.0
    decreases |list|
  {
    if |list| == 0 then objs
    else
      var next := Contact(objs, self, list[0], oldPos, wasMovingDown, env);
      ContactCollided(objs, self, list[0], oldPos, wasMovingDown, env);
      MassesKept(objs, next, list[1..]);
      CollideAll(next, self, list[1..], oldPos, wasMovingDown, env)
  }

  /** Kinematic changes keep every mass. */
  lemma MassesKept(objs: Registry, r: Registry, list: seq<Handle>)
    requires KinOnly(objs, r)
    requires forall h | h in list :: h in objs && objs[h].mass >= 0.0
    ensures forall h | h in list :: h in r && r[h].mass >= 0.0
  {
    forall h | h in list
      ensures h in r && r[h].mass >= 0.0
    {
      assert r[h] == objs[h].(kin := r[h].kin);
    }
  }

  /** A pass over the collide list changes only what `Collided` allows. */
  lemma {:induction false} CollideAllCollided(objs: Registry, self: Handle, list: seq<Handle>, oldPos: Vec2,
                                              wasMovingDown: bool, env: Env)
    requires self in objs && objs[self].mass > 0.0
    requires forall h | h in list :: h in objs && objs[h].mass >= 0.0
    ensures Collided(objs, CollideAll(objs, self, list, oldPos, wasMovingDown, env), self, list)
    decreases |list|
  {
    if |list| == 0 {
      CollidedRefl(objs, self, list);
    } else {
      var next := Contact(objs, self, list[0], oldPos, wasMovingDown, env);
      ContactCollided(objs, self, list[0], oldPos, wasMovingDown, env);
      MassesKept(objs, next, list[1..]);
      var r := CollideAll(next, self, list[1..], oldPos, wasMovingDown, env);
      assert r == CollideAll(objs, self, list, oldPos, wasMovingDown, env);
      CollideAllCollided(next, self, list[1..], oldPos, wasMovingDown, env);
      CollidedChain(objs, next, r, self, list);
    }
  }

  /** The height a landing on tiles puts an object at: its bottom edge
      `.0001` above the tile boundary `(y - height/2)|0`. */
  function LandingHeight(y: real, height: real): real {
    Trunc(y - height / 2.0) as real + height / 2.0 + TileEpsilon
  }

  /** Over non-negative ground, the landing bottom edge sits on the whole
      tile boundary at or below the old bottom edge, less than a tile
      lower. */
  lemma LandingOnBoundary(y: real, height: real)
    requires y - height / 2.0 >= 0.0
    ensures var bottom := LandingHeight(y, height) - height / 2.0 - TileEpsilon;
      && bottom == bottom.Floor as real
      && y - height / 2.0 - 1.0 < bottom <= y - height / 2.0
  {
  }

  /** The vertical part of a tile collision: bounce, then either land on
      the tile boundary (when moving down) or go back to the old height. */
  function TileBounceY(k: Kin, o: EngineObject, oldPos: Vec2, wasMovingDown: bool, self: Handle): Kin {
    var velocity := Vec2(k.velocity.x, k.velocity.y * -o.elasticity);
    if wasMovingDown then
      k.(velocity := velocity, pos := Vec2(k.pos.x, LandingHeight(oldPos.y, o.size.y)), groundObject := Some(self))
    else
      k.(velocity := velocity, pos := Vec2(k.pos.x, oldPos.y), groundObject := None)
  }

  /** Collision with the tile map, for an object with the settings of `o`
      that moved from `oldPos` to `k.pos`. `test` is `tileCollisionTest`.
      Nothing happens unless the object is in a solid tile now and was not
      before; then the blocked axes are probed one at a time. */
  function TileCollide(k: Kin, o: EngineObject, oldPos: Vec2, wasMovingDown: bool, self: Handle,
                       test: (Vec2, Vec2, Handle) -> bool): (r: Kin)
  {
    if !o.collideTiles || !test(k.pos, o.size, self) || test(oldPos, o.size, self) then k
    else
      var blockedY := test(Vec2(oldPos.x, k.pos.y), o.size, self);
      var blockedX := test(Vec2(k.pos.x, oldPos.y), o.size, self);
      var bounced := if blockedY || !blockedX then TileBounceY(k, o, oldPos, wasMovingDown, self) else k;
      if blockedX then
        bounced.(pos := Vec2(oldPos.x, bounced.pos.y), velocity := Vec2(bounced.velocity.x * -o.elasticity, bounced.velocity.y))
      else bounced
  }

  /** A tile collision that happens moves the object back on each axis it
      is blocked on (a landing goes to the tile boundary instead), turns
      the velocity around on that axis scaled by the elasticity, and sets
      the ground to the tiles on a landing and to nothing on a bump from
      below. One that does not happen changes nothing. */
  lemma TileCollideFacts(k: Kin, o: EngineObject, oldPos: Vec2, wasMovingDown: bool, self: Handle,
                         test: (Vec2, Vec2, Handle) -> bool)
    ensures var r := TileCollide(k, o, oldPos, wasMovingDown, self, test);
      var hit := o.collideTiles && test(k.pos, o.size, self) && !test(oldPos, o.size, self);
      var blockedY := test(Vec2(oldPos.x, k.pos.y), o.size, self);
      var blockedX := test(Vec2(k.pos.x, oldPos.y), o.size, self);
      var vertical := hit && (blockedY || !blockedX);
      && (!hit ==> r == k)
      && r.angle == k.angle && r.angleVelocity == k.angleVelocity
      && (hit && blockedX ==> r.pos.x == oldPos.x && r.velocity.x == k.velocity.x * -o.elasticity)
      && (!(hit && blockedX) ==> r.pos.x == k.pos.x && r.velocity.x == k.velocity.x)
      && (vertical ==> r.velocity.y == k.velocity.y * -o.elasticity)
      && (vertical && wasMovingDown ==> r.pos.y == LandingHeight(oldPos.y, o.size.y) && r.groundObject == Some(self))
      && (vertical && !wasMovingDown ==> r.pos.y == oldPos.y && r.groundObject.None?)
      && (!vertical ==> r.pos.y == k.pos.y && r.velocity.y == k.velocity.y && r.groundObject == k.groundObject)
  {
  }

  /** The friction step of `update`: on the ground, the horizontal velocity
      relative to the ground is scaled by `friction`, and the ground is
      forgotten until the next landing. */
  function GroundFriction(objs: Registry, self: Handle, k: Kin, friction: real): (r: Kin)
    requires k.groundObject.Some? ==> k.groundObject.value in objs
    ensures k.groundObject.None? ==> r == k
    ensures k.groundObject.Some? ==> r.groundObject.None? && r.pos == k.pos && r.velocity.y == k.velocity.y
    ensures r.angle == k.angle && r.angleVelocity == k.angleVelocity
  {
    if k.groundObject.Some? then
      k.(velocity := Vec2(Friction(k.velocity.x, GroundSpeed(objs, self, k.groundObject.value), friction), k.velocity.y),
         groundObject := None)
    else k
  }

  /** `update` for the object `self`, with `collide` the collide list of
      this frame. An object with a parent does nothing; the others
      integrate, and unless the solver is off or they are static, go on to
      `Solve`. */
  function Update(objs: Registry, self: Handle, collide: seq<Handle>, env: Env): (r: Registry)
    requires self in objs && Closed(objs)
    requires forall h | h in collide :: h in objs
    ensures objs[self].parent.Some? ==> r == objs
    ensures Integrates(objs[self], env) ==> r == objs[self := objs[self].(kin := Advance(objs[self].kin, objs[self], env))]
  {
    var o := objs[self];
    if o.parent.Some? then objs
    else
      var moved := Advance(o.kin, o, env);
      if !env.solver || o.mass == 0.0 then objs[self := o.(kin := moved)]
      else
        assert Refers(objs, o);
        Solve(objs, self, collide, o.kin.pos, moved, env)
  }

  /** When `update` does nothing but integrate: for a top-level object that
      is static or runs with the solver off, which return before any
      friction or collision code, and for one that stands on nothing and
      collides neither with solid objects nor with tiles. */
  predicate Integrates(o: EngineObject, env: Env) {
    && o.parent.None?
    && (|| !env.solver || o.mass == 0.0
        || (o.kin.groundObject.None? && !o.collideSolidObjects && !o.collideTiles))
  }

  /** `update` run `n` times on the same object, with the same collide
      list. */
  function UpdateTimes(objs: Registry, self: Handle, collide: seq<Handle>, env: Env, n: nat): Registry
    requires self in objs && Closed(objs)
    requires forall h | h in collide :: h in objs
    decreases n
  {
    if n == 0 then objs
    else
      UpdateFrame(objs, self, collide, env);
      UpdateTimes(Update(objs, self, collide, env), self, collide, env, n - 1)
  }

  /** Uniform motion for `n` frames: the position moves by `n` times the
      velocity and the angle by `n` times the angular velocity. */
  function Drift(k: Kin, n: nat): Kin {
    k.(pos := k.pos.Add(k.velocity.Scale(n as real)), angle := k.angle + n as real * k.angleVelocity)
  }

  /** What `UpdateUniform` asks of the object: it only integrates, without
      damping, without gravity acting on it, and within the speed limit. */
  ghost predicate Coasts(o: EngineObject, env: Env) {
    && Integrates(o, env)
    && o.damping == 1.0 && o.angleDamping == 1.0 && Fall(o, env) == 0.0
    && (o.clampSpeedLinear ==> Abs(o.kin.velocity.x) <= env.maxSpeed && Abs(o.kin.velocity.y) <= env.maxSpeed)
    && (!o.clampSpeedLinear ==> o.kin.velocity.LengthSquared() <= env.maxSpeed * env.maxSpeed)
  }

  /** Such an object moves uniformly over `n` frames of `update`, and
      nothing else in the registry changes. */
  lemma {:induction false} UpdateUniform(objs: Registry, self: Handle, collide: seq<Handle>, env: Env, n: nat)
    requires self in objs && Closed(objs)
    requires forall h | h in collide :: h in objs
    requires Coasts(objs[self], env)
    ensures UpdateTimes(objs, self, collide, env, n) == objs[self := objs[self].(kin := Drift(objs[self].kin, n))]
    decreases n
  {
    if n > 0 {
      var next := CoastStep(objs, self, collide, env, n);
      UpdateUniform(next, self, collide, env, n - 1);
    }
  }

  /** One frame of that motion, followed by the other `n - 1`. */
  lemma CoastStep(objs: Registry, self: Handle, collide: seq<Handle>, env: Env, n: nat) returns (next: Registry)
    requires self in objs && Closed(objs)
    requires forall h | h in collide :: h in objs
    requires Coasts(objs[self], env) && n > 0
    ensures self in next && Coasts(next[self], env) && Closed(next)
    ensures forall h | h in collide :: h in next
    ensures UpdateTimes(objs, self, collide, env, n) == UpdateTimes(next, self, collide, env, n - 1)
    ensures next[self := next[self].(kin := Drift(next[self].kin, n - 1))]
         == objs[self := objs[self].(kin := Drift(objs[self].kin, n))]
  {
    CoastOnce(objs, self, collide, env);
    next := Update(objs, self, collide, env);
    DriftAfter(objs, self, n);
  }

  /** One frame of that motion. */
  lemma CoastOnce(objs: Registry, self: Handle, collide: seq<Handle>, env: Env)
    requires self in objs && Closed(objs)
    requires forall h | h in collide :: h in objs
    requires Coasts(objs[self], env)
    ensures var o := objs[self]; var next := Update(objs, self, collide, env);
      next == objs[self := o.(kin := Drift(o.kin, 1))] && Coasts(next[self], env) && Closed(next)
  {
    var o := objs[self];
    UpdateFrame(objs, self, collide, env);
    UniformStep(o.kin, o, env);
    assert o.kin.velocity.Scale(1.0) == o.kin.velocity;
  }

  /** Drifting `n - 1` frames after drifting one is drifting `n`. */
  lemma DriftAfter(objs: Registry, self: Handle, n: nat)
    requires self in objs && n > 0
    ensures var o := objs[self]; var next := objs[self := o.(kin := Drift(o.kin, 1))];
      next[self := next[self].(kin := Drift(next[self].kin, n - 1))] == objs[self := o.(kin := Drift(o.kin, n))]
  {
    var o := objs[self];
    var moved := o.(kin := Drift(o.kin, 1));
    DriftStep(o.kin, n);
    assert moved.(kin := Drift(moved.kin, n - 1)) == o.(kin := Drift(o.kin, n));
  }

  /** One frame and then `n - 1` more is `n` frames. */
  lemma DriftStep(k: Kin, n: nat)
    requires n > 0
    ensures Drift(Drift(k, 1), n - 1) == Drift(k, n)
  {
    assert k.velocity.Scale(1.0) == k.velocity;
    Steps(k.pos, k.velocity, k.angle, k.angleVelocity, (n - 1) as real, n as real);
  }

  /** The collision half of `update` for a moving object: friction with
      the ground it stood on, then the solid objects, then the tiles. */
  function Solve(objs: Registry, self: Handle, collide: seq<Handle>, oldPos: Vec2, moved: Kin, env: Env): (r: Registry)
    requires self in objs && Closed(objs) && objs[self].mass > 0.0
    requires forall h | h in collide :: h in objs
    requires moved.groundObject.Some? ==> moved.groundObject.value in objs
    ensures moved.groundObject.None? && !objs[self].collideSolidObjects && !objs[self].collideTiles
            ==> r == objs[self := objs[self].(kin := moved)]
  {
    var o := objs[self];
    var wasMovingDown := moved.velocity.y < 0.0;
    var slidKin := GroundFriction(objs, self, moved, o.friction);
    var slid := objs[self := o.(kin := slidKin)];
    SlidMasses(objs, self, slidKin, collide);
    var collided := Collisions(slid, self, collide, oldPos, wasMovingDown, env);
    ToTiles(collided, self, oldPos, wasMovingDown, env)
  }

  /** On the solver path, the ground `update` leaves is set in that very
      step: friction clears the old one, so afterwards there is none, the
      tiles (the object itself), or an object of the collide list. */
  lemma UpdateGround(objs: Registry, self: Handle, collide: seq<Handle>, env: Env)
    requires self in objs && Closed(objs)
    requires forall h | h in collide :: h in objs
    requires objs[self].parent.None? && env.solver && objs[self].mass != 0.0
    ensures var g := Update(objs, self, collide, env)[self].kin.groundObject;
      g.None? || g == Some(self) || (g.Some? && g.value in collide)
  {
  }

  /** The pass over the collide list, made only by objects that collide
      with solid objects; it changes only what `Collided` allows. */
  function Collisions(objs: Registry, self: Handle, list: seq<Handle>, oldPos: Vec2, wasMovingDown: bool,
                      env: Env): (r: Registry)
    requires self in objs && objs[self].mass > 0.0
    requires forall h | h in list :: h in objs && objs[h].mass >= 0.0
    ensures Collided(objs, r, self, list)
    ensures !objs[self].collideSolidObjects ==> r == objs
  {
    if objs[self].collideSolidObjects then
      CollideAllCollided(objs, self, list, oldPos, wasMovingDown, env);
      CollideAll(objs, self, list, oldPos, wasMovingDown, env)
    else
      CollidedRefl(objs, self, list);
      objs
  }

  /** The tile collision of `update`, applied to the registry. */
  function ToTiles(objs: Registry, self: Handle, oldPos: Vec2, wasMovingDown: bool, env: Env): (r: Registry)
    requires self in objs
    ensures self in r && r == objs[self := objs[self].(kin := r[self].kin)]
    ensures var g := r[self].kin.groundObject;
      g == Some(self) || g.None? || g == objs[self].kin.groundObject
    ensures !objs[self].collideTiles ==> r == objs
  {
    var o := objs[self];
    TileCollideFacts(o.kin, o, oldPos, wasMovingDown, self, env.tileTest);
    objs[self := o.(kin := TileCollide(o.kin, o, oldPos, wasMovingDown, self, env.tileTest))]
  }

  /** `update` keeps to what `Updated` allows and keeps the registry
      closed; an object with a parent changes nothing. */
  lemma UpdateFrame(objs: Registry, self: Handle, collide: seq<Handle>, env: Env)
    requires self in objs && Closed(objs)
    requires forall h | h in collide :: h in objs
    ensures var r := Update(objs, self, collide, env);
      && Updated(objs, r, self, collide) && Closed(r)
      && (objs[self].parent.Some? ==> r == objs)
  {
    var o := objs[self];
    assert Refers(objs, o);
    var r := Update(objs, self, collide, env);
    if o.parent.None? {
      var moved := Advance(o.kin, o, env);
      if !env.solver || o.mass == 0.0 {
        assert r == objs[self := o.(kin := moved)];
        UpdatedOfOne(objs, self, moved, collide);
        UpdatedClosed(objs, r, self, collide);
      } else {
        assert r == Solve(objs, self, collide, o.kin.pos, moved, env);
        SolveFrame(objs, self, collide, o.kin.pos, moved, env);
        SolveClosed(objs, self, collide, o.kin.pos, moved, env);
      }
    } else {
      CollidedRefl(objs, self, collide);
    }
  }

  /** The collision half keeps to `Updated`. */
  lemma SolveFrame(objs: Registry, self: Handle, collide: seq<Handle>, oldPos: Vec2, moved: Kin, env: Env)
    requires self in objs && Closed(objs) && objs[self].mass > 0.0
    requires forall h | h in collide :: h in objs
    requires moved.groundObject == objs[self].kin.groundObject
    ensures Updated(objs, Solve(objs, self, collide, oldPos, moved, env), self, collide)
  {
    var o := objs[self];
    assert Refers(objs, o);
    var wasMovingDown := moved.velocity.y < 0.0;
    var slidKin := GroundFriction(objs, self, moved, o.friction);
    CollisionsFrame(objs, self, slidKin, collide, oldPos, wasMovingDown, env);
    var collided := Collisions(objs[self := o.(kin := slidKin)], self, collide, oldPos, wasMovingDown, env);
    TilesFrame(collided, self, collide, oldPos, wasMovingDown, env);
    var r := ToTiles(collided, self, oldPos, wasMovingDown, env);
    assert Solve(objs, self, collide, oldPos, moved, env) == r;
    UpdatedChain(objs, collided, r, self, collide);
  }

  /** The collision half keeps the registry closed. */
  lemma SolveClosed(objs: Registry, self: Handle, collide: seq<Handle>, oldPos: Vec2, moved: Kin, env: Env)
    requires self in objs && Closed(objs) && objs[self].mass > 0.0
    requires forall h | h in collide :: h in objs
    requires moved.groundObject == objs[self].kin.groundObject
    ensures Closed(Solve(objs, self, collide, oldPos, moved, env))
  {
    var o := objs[self];
    assert Refers(objs, o);
    var wasMovingDown := moved.velocity.y < 0.0;
    var slidKin := GroundFriction(objs, self, moved, o.friction);
    CollisionsFrame(objs, self, slidKin, collide, oldPos, wasMovingDown, env);
    var collided := Collisions(objs[self := o.(kin := slidKin)], self, collide, oldPos, wasMovingDown, env);
    TilesFrame(collided, self, collide, oldPos, wasMovingDown, env);
  }

  /** Friction followed by the pass over the collide list keeps to
      `Updated` and keeps the registry closed, as long as friction leaves
      the ground alone or clears it. */
  lemma CollisionsFrame(objs: Registry, self: Handle, k: Kin, collide: seq<Handle>, oldPos: Vec2,
                        wasMovingDown: bool, env: Env)
    requires self in objs && Closed(objs) && objs[self].mass > 0.0
    requires forall h | h in collide :: h in objs
    requires k.groundObject.None? || k.groundObject == objs[self].kin.groundObject
    ensures var slid := objs[self := objs[self].(kin := k)];
      forall h | h in collide :: h in slid && slid[h].mass >= 0.0
    ensures var slid := objs[self := objs[self].(kin := k)];
      var r := Collisions(slid, self, collide, oldPos, wasMovingDown, env);
      Updated(objs, r, self, collide) && Closed(r)
  {
    var slid := objs[self := objs[self].(kin := k)];
    assert Refers(objs, objs[self]);
    UpdatedOfOne(objs, self, k, collide);
    UpdatedClosed(objs, slid, self, collide);
    SlidMasses(objs, self, k, collide);
    var r := Collisions(slid, self, collide, oldPos, wasMovingDown, env);
    UpdatedClosed(slid, r, self, collide);
    UpdatedChain(objs, slid, r, self, collide);
  }

  /** The tile collision keeps to `Updated` and keeps the registry
      closed: the only ground it sets is the tiles, marked by `self`. */
  lemma TilesFrame(objs: Registry, self: Handle, collide: seq<Handle>, oldPos: Vec2, wasMovingDown: bool, env: Env)
    requires self in objs && Closed(objs)
    ensures var r := ToTiles(objs, self, oldPos, wasMovingDown, env);
      Updated(objs, r, self, collide) && Closed(r)
  {
    var r := ToTiles(objs, self, oldPos, wasMovingDown, env);
    assert Refers(objs, objs[self]);
    UpdatedOfOne(objs, self, r[self].kin, collide);
    UpdatedClosed(objs, r, self, collide);
  }

  /** Changing only the updated object's kinematic state keeps to
      `Updated`. */
  lemma UpdatedOfOne(objs: Registry, self: Handle, k: Kin, collide: seq<Handle>)
    requires self in objs
    ensures Updated(objs, objs[self := objs[self].(kin := k)], self, collide)
  {
  }

  /** `Updated` is transitive. */
  lemma UpdatedChain(a: Registry, b: Registry, c: Registry, self: Handle, collide: seq<Handle>)
    requires Updated(a, b, self, collide) && Updated(b, c, self, collide)
    ensures Updated(a, c, self, collide)
  {
    forall k | k in a
      ensures c[k] == a[k].(kin := c[k].kin)
    {
      assert b[k] == a[k].(kin := b[k].kin);
    }
  }

  /** The friction step keeps the masses of a closed registry. */
  lemma SlidMasses(objs: Registry, self: Handle, k: Kin, collide: seq<Handle>)
    requires self in objs && Closed(objs) && forall h | h in collide :: h in objs
    ensures var slid := objs[self := objs[self].(kin := k)];
      forall h | h in collide :: h in slid && slid[h].mass >= 0.0
  {
    forall h | h in collide
      ensures objs[h].mass >= 0.0
    {
      assert Refers(objs, objs[h]);
    }
  }

  /** A change `Updated` allows keeps the registry closed when the
      updated object's ground is in the registry. */
  lemma UpdatedClosed(objs: Registry, r: Registry, self: Handle, collide: seq<Handle>)
    requires Closed(objs) && Updated(objs, r, self, collide) && self in objs
    requires r[self].kin.groundObject.Some? ==> r[self].kin.groundObject.value in objs
    ensures Closed(r)
  {
    forall k | k in r
      ensures Refers(r, r[k])
    {
      assert Refers(objs, objs[k]);
      assert r[k] == objs[k].(kin := r[k].kin);
    }
  }
}
