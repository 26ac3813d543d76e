/**
 Engine objects and the registry that holds them. JavaScript object
 references become handles into a map that plays the part of the heap: a
 record stays in the map after it leaves the `engineObjects` list, just as a
 destroyed object stays reachable from whoever still refers to it.
 */
module Objects {
  import opened Scalar
  import opened Wrappers

  type Handle = nat

  /** The state of an object that the physics step and the transform
      update change: position, velocity, angle, angular velocity and the
      object it stands on. `groundObject` is `Some(self)` after landing on
      tiles, which is how the engine marks tile ground. */
  datatype Kin = Kin(pos: Vec2, velocity: Vec2, angle: real, angleVelocity: real,
                     groundObject: Option<Handle>)

  /** The simulated state of one `EngineObject`. Rendering-only fields
      (tile info, colors, draw size) are left out. */
  datatype EngineObject = EngineObject(
    kin: Kin,
    size: Vec2,
    mirror: bool,
    mass: real,
    damping: real,
    angleDamping: real,
    elasticity: real,
    friction: real,
    gravityScale: real,
    renderOrder: real,
    spawnTime: real,
    children: seq<Handle>,
    clampSpeedLinear: bool,
    parent: Option<Handle>,
    localPos: Vec2,
    localAngle: real,
    collideTiles: bool,
    collideSolidObjects: bool,
    isSolid: bool,
    collideRaycast: bool,
    destroyed: bool)

  type Registry = map<Handle, EngineObject>

  /** The registry and the `engineObjects` list, in creation order, plus the
      next unused handle. */
  datatype World = World(objs: Registry, live: seq<Handle>, next: Handle)

  /** The engine's settings and the collaborators the physics step calls
      but this model does not define: the tile map test, the objects'
      `collideWithObject` consent, the random push direction, the square
      root behind `length()` and the cosine and sine behind `rotate()`. */
  datatype Env = Env(
    gravity: real,
    maxSpeed: real,
    solver: bool,
    tileTest: (Vec2, Vec2, Handle) -> bool,
    consent: (Handle, Handle) -> bool,
    randPush: (Handle, Handle) -> Vec2,
    sqrt: real -> real,
    cos: real -> real,
    sin: real -> real)

  /** The global defaults `objectDefaultMass` and friends. */
  const DefaultMass: real := 1.0
  const DefaultDamping: real := 1.0
  const DefaultAngleDamping: real := 1.0
  const DefaultElasticity: real := 0.0
  const DefaultFriction: real := 0.8
  const DefaultMaxSpeed: real := 1.0
  const DefaultGravity: real := 0.0

  /** The push `randVector(.001)` stands for has length .001. */
  const PushAway: real := 0.001

  /** What the model asks of the collaborators: a true square root of
      non-negative numbers and random pushes of length .001. */
  ghost predicate ValidEnv(env: Env) {
    && (forall x: real :: x >= 0.0 ==> env.sqrt(x) >= 0.0 && env.sqrt(x) * env.sqrt(x) == x)
    && (forall a: Handle, b: Handle :: env.randPush(a, b).LengthSquared() == PushAway * PushAway)
    && env.maxSpeed >= 0.0
  }

  /** Every handle a record refers to is in the registry, and masses are
      not negative (the engine's masses are 0 for static objects and
      positive otherwise). */
  ghost predicate Closed(objs: Registry) {
    forall k {:trigger objs[k]} | k in objs :: Refers(objs, objs[k])
  }

  /** The links of one record all lead into the registry, and its mass is
      not negative. */
  ghost predicate Refers(objs: Registry, o: EngineObject) {
    && (o.parent.Some? ==> o.parent.value in objs)
    && (o.kin.groundObject.Some? ==> o.kin.groundObject.value in objs)
    && (forall c | c in o.children :: c in objs)
    && o.mass >= 0.0
  }

  /** The world invariant: a closed registry, every listed object known,
      and `next` above every handle handed out so far. */
  ghost predicate Wf(w: World) {
    && Closed(w.objs)
    && (forall h | h in w.live :: h in w.objs)
    && (forall h | h in w.objs :: h < w.next)
  }

  /** Parent and child links agree: a child names its parent exactly when
      the parent lists it, and no list repeats a child. */
  ghost predicate Linked(objs: Registry) {
    ChildrenPointBack(objs) && ParentsList(objs) && ListsUnique(objs)
  }

  ghost predicate ChildrenPointBack(objs: Registry) {
    forall p, c | p in objs && c in objs[p].children :: c in objs && objs[c].parent == Some(p)
  }

  ghost predicate ParentsList(objs: Registry) {
    forall c | c in objs && objs[c].parent.Some? ::
      objs[c].parent.value in objs && c in objs[objs[c].parent.value].children
  }

  ghost predicate ListsUnique(objs: Registry) {
    forall p | p in objs :: NoDuplicates(objs[p].children)
  }

  /** `r` differs from `objs` only in kinematic state. */
  ghost predicate KinOnly(objs: Registry, r: Registry) {
    && r.Keys == objs.Keys
    && forall k | k in objs :: r[k] == objs[k].(kin := r[k].kin)
  }

  predicate NoDuplicates(s: seq<Handle>) {
    forall i, j | 0 <= i < j < |s| :: s[i] != s[j]
  }

  /** A freshly constructed object with the engine's defaults. */
  function NewObject(pos: Vec2, size: Vec2, angle: real, renderOrder: real, time: real): (o: EngineObject)
    ensures o.kin == Kin(pos, Zero, angle, 0.0, None)
    ensures o.mass == DefaultMass && o.children == [] && o.parent.None? && !o.destroyed
    ensures !o.collideTiles && !o.collideSolidObjects && !o.isSolid
  {
    EngineObject(Kin(pos, Zero, angle, 0.0, None), size, false, DefaultMass, DefaultDamping,
                 DefaultAngleDamping, DefaultElasticity, DefaultFriction, 1.0, renderOrder, time,
                 [], true, None, Zero, 0.0, false, false, false, false, false)
  }

  /** The constructor: the new object gets a fresh handle and is appended
      to `engineObjects`; nothing else changes. */
  function Spawn(w: World, pos: Vec2, size: Vec2, angle: real, renderOrder: real, time: real): (r: (World, Handle))
    requires Wf(w)
    ensures Wf(r.0)
    ensures r.1 !in w.objs && r.0.objs == w.objs[r.1 := NewObject(pos, size, angle, renderOrder, time)]
    ensures r.0.live == w.live + [r.1]
  {
    var h := w.next;
    (World(w.objs[h := NewObject(pos, size, angle, renderOrder, time)], w.live + [h], h + 1), h)
  }

  /** `setCollision`: the four collision flags. */
  function SetCollision(o: EngineObject, collideSolidObjects: bool, isSolid: bool,
                        collideTiles: bool, collideRaycast: bool): (r: EngineObject)
    ensures r.(collideSolidObjects := o.collideSolidObjects, isSolid := o.isSolid,
               collideTiles := o.collideTiles, collideRaycast := o.collideRaycast) == o
    ensures r.collideSolidObjects == collideSolidObjects && r.isSolid == isSolid
    ensures r.collideTiles == collideTiles && r.collideRaycast == collideRaycast
  {
    o.(collideSolidObjects := collideSolidObjects, isSolid := isSolid,
       collideTiles := collideTiles, collideRaycast := collideRaycast)
  }

  /** `applyAcceleration`: static objects (mass 0) ignore it. */
  function ApplyAcceleration(o: EngineObject, acceleration: Vec2): (r: EngineObject)
    ensures r == o.(kin := o.kin.(velocity := r.kin.velocity))
    ensures o.mass == 0.0 ==> r == o
    ensures o.mass != 0.0 ==> r.kin.velocity.Subtract(o.kin.velocity) == acceleration
  {
    if o.mass != 0.0 then o.(kin := o.kin.(velocity := o.kin.velocity.Add(acceleration))) else o
  }

  /** `applyForce`: the acceleration is the force over the mass. A static
      object ignores it, as `applyAcceleration` discards the infinite
      quotient. */
  function ApplyForce(o: EngineObject, force: Vec2): (r: EngineObject)
    ensures r == o.(kin := o.kin.(velocity := r.kin.velocity))
    ensures o.mass != 0.0 ==> r.kin.velocity.Subtract(o.kin.velocity).Scale(o.mass) == force
    ensures o.mass == 0.0 ==> r == o
  {
    if o.mass != 0.0 then
      var a := force.Scale(1.0 / o.mass);
      assert a.Scale(o.mass) == force;
      ApplyAcceleration(o, a)
    else o
  }

  /** The objects of a list, in order, whose flag is set: the
      `engineObjects.filter(o => o.collideSolidObjects)` rebuild. */
  function CollideList(objs: Registry, live: seq<Handle>): (r: seq<Handle>)
    requires forall h | h in live :: h in objs
    ensures forall h :: h in r <==> h in live && objs[h].collideSolidObjects
    ensures |r| <= |live|
  {
    if |live| == 0 then []
    else
      var rest := CollideList(objs, live[1..]);
      if objs[live[0]].collideSolidObjects then [live[0]] + rest else rest
  }

  /** The objects of a list, in order, that are not destroyed:
      `engineObjects.filter(o => !o.destroyed)`. */
  function Survivors(objs: Registry, live: seq<Handle>): (r: seq<Handle>)
    requires forall h | h in live :: h in objs
    ensures forall h :: h in r <==> h in live && !objs[h].destroyed
    ensures |r| <= |live|
  {
    if |live| == 0 then []
    else
      var rest := Survivors(objs, live[1..]);
      if objs[live[0]].destroyed then rest else [live[0]] + rest
  }

  /** The rebuild is a filter: it keeps list order, so the list of a
      concatenation is the concatenation of the lists. */
  lemma {:induction false} CollideListAppend(objs: Registry, a: seq<Handle>, b: seq<Handle>)
    requires forall h | h in a + b :: h in objs
    ensures CollideList(objs, a + b) == CollideList(objs, a) + CollideList(objs, b)
  {
    if |a| > 0 {
      assert (a + b)[1..] == a[1..] + b;
      CollideListAppend(objs, a[1..], b);
    } else {
      assert a + b == b;
    }
  }

  /** Each flagged object appears as often as in the list, and no other
      object appears. */
  lemma {:induction false} CollideListCount(objs: Registry, live: seq<Handle>, h: Handle)
    requires forall k | k in live :: k in objs
    ensures multiset(CollideList(objs, live))[h]
         == if h in objs && objs[h].collideSolidObjects then multiset(live)[h] else 0
  {
    if |live| > 0 {
      assert live == [live[0]] + live[1..];
      CollideListCount(objs, live[1..], h);
    }
  }

  /** The sweep keeps list order too. */
  lemma {:induction false} SurvivorsAppend(objs: Registry, a: seq<Handle>, b: seq<Handle>)
    requires forall h | h in a + b :: h in objs
    ensures Survivors(objs, a + b) == Survivors(objs, a) + Survivors(objs, b)
  {
    if |a| > 0 {
      assert (a + b)[1..] == a[1..] + b;
      SurvivorsAppend(objs, a[1..], b);
    } else {
      assert a + b == b;
    }
  }

  /** Each surviving object appears as often as in the list, and no
      destroyed one appears. */
  lemma {:induction false} SurvivorsCount(objs: Registry, live: seq<Handle>, h: Handle)
    requires forall k | k in live :: k in objs
    ensures multiset(Survivors(objs, live))[h]
         == if h in objs && !objs[h].destroyed then multiset(live)[h] else 0
  {
    if |live| > 0 {
      assert live == [live[0]] + live[1..];
      SurvivorsCount(objs, live[1..], h);
    }
  }
}
