/**
 The engine's object loop: the recursive update of each top-level object and
 its children, the transform pass that places children on their parents, the
 removal of destroyed objects at the end of a frame, destroying every object,
 and the area query `engineObjectsCollect`.
 */
module Engine {
  import opened Scalar
  import opened Wrappers
  import opened Objects
  import Physics
  import Hierarchy

  // ---------------------------------------------------------------------
  // Registry frames

  /** Kinematic-only changes compose. */
  lemma KinOnlyChain(a: Registry, b: Registry, c: Registry)
    requires KinOnly(a, b) && KinOnly(b, c)
    ensures KinOnly(a, c)
  {
    forall k | k in a
      ensures c[k] == a[k].(kin := c[k].kin)
    {
      assert b[k] == a[k].(kin := b[k].kin);
    }
  }

  /** Kinematic changes leave every link alone, so they keep the links
      consistent. */
  lemma KinOnlyLinked(a: Registry, b: Registry)
    requires KinOnly(a, b) && Linked(a)
    ensures Linked(b)
  {
    forall k | k in a
      ensures b[k].children == a[k].children && b[k].parent == a[k].parent
    {
      assert b[k] == a[k].(kin := b[k].kin);
    }
  }

  /** Kinematic changes keep every destroyed flag. */
  lemma KinOnlyFlags(a: Registry, b: Registry)
    requires KinOnly(a, b)
    ensures forall k | k in a :: b[k].destroyed == a[k].destroyed && b[k].parent == a[k].parent
  {
    forall k | k in a
      ensures b[k].destroyed == a[k].destroyed && b[k].parent == a[k].parent
    {
      assert b[k] == a[k].(kin := b[k].kin);
    }
  }

  // ---------------------------------------------------------------------
  /** The fuel one level down the hierarchy. It is a function of its own so
      that the unfolding lemmas and their callers name one and the same
      term for it. */
  function Down(fuel: nat): nat
    requires fuel > 0
  {
    fuel - 1
  }

  // updateObject

  /** `updateObject` inside `engineObjectsUpdate`: a destroyed object is
      skipped; any other updates, then each of its children in turn. The
      children are read after the update, which leaves every list alone.
      `fuel` bounds the depth of the recursion, which the engine leaves to
      the hierarchy being a tree. */
  function UpdateObject(objs: Registry, h: Handle, collide: seq<Handle>, env: Env, fuel: nat): Registry
    requires h in objs && Closed(objs)
    requires forall c | c in collide :: c in objs
    decreases fuel, 1, 0
  {
    if objs[h].destroyed then objs
    else
      var next := Physics.Update(objs, h, collide, env);
      Physics.UpdateFrame(objs, h, collide, env);
      assert Refers(next, next[h]);
      UpdateKids(next, next[h].children, 0, collide, env, fuel)
  }

  /** The loop over the children of `updateObject`, from index `i`. */
  function UpdateKids(objs: Registry, kids: seq<Handle>, i: nat, collide: seq<Handle>, env: Env,
                      fuel: nat): Registry
    requires i <= |kids| && Closed(objs)
    requires forall c | c in kids :: c in objs
    requires forall c | c in collide :: c in objs
    decreases fuel, 0, |kids| - i
  {
    if i == |kids| || fuel == 0 then objs
    else
      UpdateObjectFrame(objs, kids[i], collide, env, fuel - 1);
      UpdateKids(UpdateObject(objs, kids[i], collide, env, fuel - 1), kids, i + 1, collide, env, fuel)
  }

  /** The recursion changes only kinematic state and keeps the registry
      closed. */
  lemma {:induction false} UpdateObjectFrame(objs: Registry, h: Handle, collide: seq<Handle>, env: Env, fuel: nat)
    requires h in objs && Closed(objs)
    requires forall c | c in collide :: c in objs
    ensures var r := UpdateObject(objs, h, collide, env, fuel); KinOnly(objs, r) && Closed(r)
    decreases fuel, 3, 0
  {
    if !objs[h].destroyed {
      var next := Physics.Update(objs, h, collide, env);
      Physics.UpdateFrame(objs, h, collide, env);
      assert Refers(next, next[h]);
      UpdateKidsFrame(next, next[h].children, 0, collide, env, fuel);
      KinOnlyChain(objs, next, UpdateKids(next, next[h].children, 0, collide, env, fuel));
    }
  }

  lemma {:induction false} UpdateKidsFrame(objs: Registry, kids: seq<Handle>, i: nat, collide: seq<Handle>, env: Env,
                                           fuel: nat)
    requires i <= |kids| && Closed(objs)
    requires forall c | c in kids :: c in objs
    requires forall c | c in collide :: c in objs
    ensures var r := UpdateKids(objs, kids, i, collide, env, fuel); KinOnly(objs, r) && Closed(r)
    decreases fuel, 2, |kids| - i
  {
    if i < |kids| && fuel > 0 {
      UpdateObjectFrame(objs, kids[i], collide, env, fuel - 1);
      var next := UpdateObject(objs, kids[i], collide, env, fuel - 1);
      UpdateKidsFrame(next, kids, i + 1, collide, env, fuel);
      KinOnlyChain(objs, next, UpdateKids(next, kids, i + 1, collide, env, fuel));
    }
  }

  /** A child's `update` returns at once, and so do its children's: the
      recursion under an object that has a parent changes nothing. */
  lemma {:induction false} ChildUpdateIsNoop(objs: Registry, h: Handle, collide: seq<Handle>, env: Env, fuel: nat)
    requires h in objs && Closed(objs) && ChildrenPointBack(objs)
    requires forall c | c in collide :: c in objs
    requires objs[h].parent.Some?
    ensures UpdateObject(objs, h, collide, env, fuel) == objs
    decreases fuel, 3, 0
  {
    if !objs[h].destroyed {
      Physics.UpdateFrame(objs, h, collide, env);
      assert Refers(objs, objs[h]);
      KidsUpdateIsNoop(objs, h, objs[h].children, 0, collide, env, fuel);
    }
  }

  /** Every child of `p` names `p` as parent, so the loop over its children
      changes nothing. */
  lemma {:induction false} KidsUpdateIsNoop(objs: Registry, p: Handle, kids: seq<Handle>, i: nat, collide: seq<Handle>,
                                            env: Env, fuel: nat)
    requires p in objs && i <= |kids| && Closed(objs) && ChildrenPointBack(objs)
    requires kids == objs[p].children
    requires forall c | c in kids :: c in objs
    requires forall c | c in collide :: c in objs
    ensures UpdateKids(objs, kids, i, collide, env, fuel) == objs
    decreases fuel, 2, |kids| - i
  {
    if i < |kids| && fuel > 0 {
      assert kids[i] in objs[p].children;
      ChildUpdateIsNoop(objs, kids[i], collide, env, fuel - 1);
      KidsUpdateIsNoop(objs, p, kids, i + 1, collide, env, fuel);
    }
  }

  /** So the whole recursion from a top-level object is that object's own
      `update`. */
  lemma TopUpdate(objs: Registry, h: Handle, collide: seq<Handle>, env: Env, fuel: nat)
    requires h in objs && Closed(objs) && Linked(objs)
    requires forall c | c in collide :: c in objs
    requires objs[h].parent.None? && !objs[h].destroyed
    ensures UpdateObject(objs, h, collide, env, fuel) == Physics.Update(objs, h, collide, env)
  {
    var next := Physics.Update(objs, h, collide, env);
    Physics.UpdateFrame(objs, h, collide, env);
    KinOnlyLinked(objs, next);
    assert Refers(next, next[h]);
    KidsUpdateIsNoop(next, h, next[h].children, 0, collide, env, fuel);
  }

  // ---------------------------------------------------------------------
  // updateTransforms

  /** `getMirrorSign`. */
  function MirrorSign(o: EngineObject): (r: real)
    ensures r * r == 1.0
    ensures r < 0.0 <==> o.mirror
  {
    if o.mirror then -1.0 else 1.0
  }

  /** `rotate(angle)`: a turn by `-angle`, through the cosine and sine the
      environment supplies. */
  function Rotate(v: Vec2, angle: real, env: Env): Vec2 {
    var c, s := env.cos(-angle), env.sin(-angle);
    Vec2(v.x * c - v.y * s, v.x * s + v.y * c)
  }

  /** The pose a child takes from its parent: its local offset, mirrored
      with the parent and turned by the parent's angle, from the parent's
      position; its local angle, mirrored, on top of the parent's. */
  function Place(o: EngineObject, parent: EngineObject, env: Env): (k: Kin)
    ensures k == o.kin.(pos := k.pos, angle := k.angle)
  {
    var mirror := MirrorSign(parent);
    o.kin.(pos := Rotate(o.localPos.Multiply(Vec2(mirror, 1.0)), parent.kin.angle, env).Add(parent.kin.pos),
           angle := mirror * o.localAngle + parent.kin.angle)
  }

  /** A child at its parent's origin with no local angle takes the
      parent's pose. */
  lemma PlaceAtOrigin(o: EngineObject, parent: EngineObject, env: Env)
    requires o.localPos == Zero && o.localAngle == 0.0
    ensures Place(o, parent, env).pos == parent.kin.pos
    ensures Place(o, parent, env).angle == parent.kin.angle
  {
    var mirror := MirrorSign(parent);
    assert o.localPos.Multiply(Vec2(mirror, 1.0)) == Zero;
    RotateZero(parent.kin.angle, env);
  }

  lemma RotateZero(angle: real, env: Env)
    ensures Rotate(Zero, angle, env) == Zero
  {
  }

  /** When the cosine and sine are those of an angle, a child sits at the
      length of its local offset from its parent, mirrored or not. */
  lemma PlaceDistance(o: EngineObject, parent: EngineObject, env: Env)
    requires var a := -parent.kin.angle; env.cos(a) * env.cos(a) + env.sin(a) * env.sin(a) == 1.0
    ensures Place(o, parent, env).pos.DistanceSquared(parent.kin.pos) == o.localPos.LengthSquared()
  {
    var mirror := MirrorSign(parent);
    var v := o.localPos.Multiply(Vec2(mirror, 1.0));
    var a := -parent.kin.angle;
    RotateLength(v.x, v.y, env.cos(a), env.sin(a));
    MirrorLength(o.localPos.x, mirror);
    var p := Place(o, parent, env).pos;
    assert p.Subtract(parent.kin.pos) == Rotate(v, parent.kin.angle, env);
  }

  lemma RotateLength(x: real, y: real, c: real, s: real)
    requires c * c + s * s == 1.0
    ensures (x * c - y * s) * (x * c - y * s) + (x * s + y * c) * (x * s + y * c) == x * x + y * y
  {
    calc {
      (x * c - y * s) * (x * c - y * s) + (x * s + y * c) * (x * s + y * c);
      x * x * (c * c + s * s) + y * y * (c * c + s * s);
    }
  }

  lemma MirrorLength(x: real, mirror: real)
    requires mirror * mirror == 1.0
    ensures (x * mirror) * (x * mirror) == x * x
  {
    assert (x * mirror) * (x * mirror) == x * x * (mirror * mirror);
  }

  /** Mirroring the parent is the same as mirroring the child's local
      offset across the y axis and negating its local angle. */
  lemma PlaceMirrored(o: EngineObject, parent: EngineObject, env: Env)
    ensures Place(o, parent.(mirror := true), env)
         == Place(o.(localPos := Vec2(-o.localPos.x, o.localPos.y), localAngle := -o.localAngle),
                  parent.(mirror := false), env)
  {
  }

  /** `updateTransforms` may change: the position and angle of objects that
      have a parent, and nothing else. */
  ghost predicate Posed(a: Registry, b: Registry) {
    && b.Keys == a.Keys
    && (forall k {:trigger a[k]} {:trigger b[k]} | k in a ::
          b[k] == a[k].(kin := a[k].kin.(pos := b[k].kin.pos, angle := b[k].kin.angle)))
    && (forall k {:trigger a[k]} {:trigger b[k]} | k in a && a[k].parent.None? :: b[k] == a[k])
  }

  /** `updateTransforms`: an object with a parent takes its pose from the
      parent; then each of its children updates its transforms in turn.
      Unlike `update`, it runs for destroyed objects too. */
  function UpdateTransforms(objs: Registry, h: Handle, env: Env, fuel: nat): (r: Registry)
    requires h in objs && Closed(objs)
    ensures Posed(objs, r) && Closed(r)
    decreases fuel, 0
  {
    var placed := PlaceSelf(objs, h, env);
    if fuel == 0 then placed
    else
      assert Refers(objs, objs[h]);
      var r := TransformKids(placed, objs[h].children, 0, env, Down(fuel));
      PosedChain(objs, placed, r);
      r
  }

  /** The first step of `updateTransforms`: an object with a parent takes
      the pose `Place` gives it on that parent; nothing else moves, and an
      object without a parent stays where it is. */
  function PlaceSelf(objs: Registry, h: Handle, env: Env): (r: Registry)
    requires h in objs && Closed(objs)
    ensures Posed(objs, r) && Closed(r)
    ensures objs[h].parent.Some? ==> r[h].kin == Place(objs[h], objs[objs[h].parent.value], env)
    ensures forall k | k in objs && k != h :: r[k] == objs[k]
  {
    var o := objs[h];
    if o.parent.None? then objs
    else
      assert Refers(objs, o);
      var k := Place(o, objs[o.parent.value], env);
      PlaceOne(objs, h, k);
      objs[h := o.(kin := k)]
  }

  /** The loop over the children of `updateTransforms`, from index `i`;
      each child gets the fuel that is left. */
  function TransformKids(objs: Registry, kids: seq<Handle>, i: nat, env: Env, fuel: nat): (r: Registry)
    requires i <= |kids| && Closed(objs)
    requires forall c | c in kids :: c in objs
    ensures Posed(objs, r) && Closed(r)
    decreases fuel, 1, |kids| - i
  {
    if i == |kids| then objs
    else
      var next := UpdateTransforms(objs, kids[i], env, fuel);
      var r := TransformKids(next, kids, i + 1, env, fuel);
      PosedChain(objs, next, r);
      r
  }

  /** Placing one object with a parent keeps to `Posed` and keeps the
      registry closed. */
  lemma PlaceOne(objs: Registry, h: Handle, k: Kin)
    requires h in objs && Closed(objs) && objs[h].parent.Some?
    requires k == objs[h].kin.(pos := k.pos, angle := k.angle)
    ensures var placed := objs[h := objs[h].(kin := k)];
      Posed(objs, placed) && Closed(placed)
  {
    var placed := objs[h := objs[h].(kin := k)];
    forall q | q in placed
      ensures Refers(placed, placed[q])
    {
      assert Refers(objs, objs[q]);
    }
  }

  /** `Posed` is transitive. */
  lemma PosedChain(a: Registry, b: Registry, c: Registry)
    requires Posed(a, b) && Posed(b, c)
    ensures Posed(a, c)
  {
    forall k | k in a
      ensures c[k] == a[k].(kin := a[k].kin.(pos := c[k].kin.pos, angle := c[k].kin.angle))
    {
      assert b[k] == a[k].(kin := a[k].kin.(pos := b[k].kin.pos, angle := b[k].kin.angle));
    }
  }

  /** Posing is a kinematic change. */
  lemma PosedKinOnly(a: Registry, b: Registry)
    requires Posed(a, b)
    ensures KinOnly(a, b)
  {
    forall k | k in a
      ensures b[k] == a[k].(kin := b[k].kin)
    {
      assert b[k] == a[k].(kin := a[k].kin.(pos := b[k].kin.pos, angle := b[k].kin.angle));
    }
  }

  // ---------------------------------------------------------------------
  // Where updateTransforms puts each object

  /** The objects `updateTransforms(h)` visits within `fuel`: `h`, then
      everything under each child in turn. `shape` supplies the child
      lists, which the transform pass never changes. */
  ghost function Below(shape: Registry, h: Handle, fuel: nat): (r: set<Handle>)
    requires h in shape && Closed(shape)
    ensures h in r && r <= shape.Keys
    decreases fuel, 0
  {
    assert Refers(shape, shape[h]);
    {h} + (if fuel == 0 then {} else BelowKids(shape, shape[h].children, 0, Down(fuel)))
  }

  ghost function BelowKids(shape: Registry, kids: seq<Handle>, i: nat, fuel: nat): (r: set<Handle>)
    requires i <= |kids| && Closed(shape)
    requires forall c | c in kids :: c in shape
    ensures r <= shape.Keys
    decreases fuel, 1, |kids| - i
  {
    if i == |kids| then {}
    else Below(shape, kids[i], fuel) + BelowKids(shape, kids, i + 1, fuel)
  }

  /** The part of the hierarchy `updateTransforms(h)` visits within `fuel`
      is a tree: neither `h` nor its parent turns up below `h`, and no
      object turns up under two of its children. */
  ghost predicate TreeWithin(shape: Registry, h: Handle, fuel: nat)
    requires h in shape && Closed(shape)
    decreases fuel, 0
  {
    assert Refers(shape, shape[h]);
    && (shape[h].parent.Some? ==> shape[h].parent.value !in Below(shape, h, fuel))
    && (fuel > 0 ==>
          && h !in BelowKids(shape, shape[h].children, 0, Down(fuel))
          && KidsTree(shape, shape[h].children, 0, Down(fuel)))
  }

  ghost predicate KidsTree(shape: Registry, kids: seq<Handle>, i: nat, fuel: nat)
    requires i <= |kids| && Closed(shape)
    requires forall c | c in kids :: c in shape
    decreases fuel, 1, |kids| - i
  {
    || i == |kids|
    || (&& TreeWithin(shape, kids[i], fuel)
        && Below(shape, kids[i], fuel) !! BelowKids(shape, kids, i + 1, fuel)
        && KidsTree(shape, kids, i + 1, fuel))
  }

  /** Every object of `a` outside `moved` is the same in `b`. */
  ghost predicate Unmoved(a: Registry, b: Registry, moved: set<Handle>) {
    forall k {:trigger a[k]} {:trigger b[k]} | k in a && k !in moved :: k in b && b[k] == a[k]
  }

  lemma UnmovedChain(a: Registry, b: Registry, c: Registry, first: set<Handle>, second: set<Handle>)
    requires Unmoved(a, b, first) && Unmoved(b, c, second) && a.Keys == b.Keys
    ensures Unmoved(a, c, first + second)
  {
  }

  /** Rewrites an `Unmoved` fact along equalities, so that the unfolding
      lemmas need not be applied inside a large proof context. */
  lemma UnmovedEq(a: Registry, b: Registry, b': Registry, moved: set<Handle>, moved': set<Handle>)
    requires Unmoved(a, b, moved) && b == b' && moved == moved'
    ensures Unmoved(a, b', moved')
  {
  }

  /** `updateTransforms(h)` leaves every object it does not visit as it
      was. */
  lemma {:induction false} TransformsFrame(shape: Registry, objs: Registry, h: Handle, env: Env, fuel: nat)
    requires h in shape && Closed(shape) && Posed(shape, objs) && Closed(objs)
    ensures Unmoved(objs, UpdateTransforms(objs, h, env, fuel), Below(shape, h, fuel))
    decreases fuel, 0
  {
    var placed := PlaceSelf(objs, h, env);
    PosedChain(shape, objs, placed);
    if fuel == 0 {
      TransformsZero(objs, h, env);
      BelowZero(shape, h);
    } else {
      var f := Down(fuel);
      FrameStep(shape, objs, placed, h, env, f);
      assert objs[h].children == shape[h].children;
      TransformsStep(objs, h, env, fuel);
      BelowStep(shape, h, fuel);
      UnmovedEq(objs, TransformKids(placed, shape[h].children, 0, env, f),
                UpdateTransforms(objs, h, env, fuel),
                {h} + BelowKids(shape, shape[h].children, 0, f), Below(shape, h, fuel));
    }
  }

  /** The children's part of `TransformsFrame`, once `h` is placed. */
  lemma {:induction false} FrameStep(shape: Registry, objs: Registry, placed: Registry, h: Handle, env: Env,
                                     fuel: nat)
    requires h in shape && Closed(shape) && Posed(shape, placed) && Closed(placed)
    requires objs.Keys == placed.Keys && Unmoved(objs, placed, {h})
    ensures Unmoved(objs, TransformKids(placed, shape[h].children, 0, env, fuel),
                    {h} + BelowKids(shape, shape[h].children, 0, fuel))
    decreases fuel, 2
  {
    var kids := shape[h].children;
    assert Refers(shape, shape[h]);
    KidsFrame(shape, placed, kids, 0, env, fuel);
    UnmovedChain(objs, placed, TransformKids(placed, kids, 0, env, fuel), {h}, BelowKids(shape, kids, 0, fuel));
  }

  /** `updateTransforms(h)` without fuel only places `h`. */
  lemma TransformsZero(objs: Registry, h: Handle, env: Env)
    requires h in objs && Closed(objs)
    ensures UpdateTransforms(objs, h, env, 0) == PlaceSelf(objs, h, env)
  {
  }

  /** One level of `updateTransforms(h)`. */
  lemma TransformsStep(objs: Registry, h: Handle, env: Env, fuel: nat)
    requires h in objs && Closed(objs) && fuel > 0
    ensures UpdateTransforms(objs, h, env, fuel)
         == TransformKids(PlaceSelf(objs, h, env), objs[h].children, 0, env, Down(fuel))
  {
  }

  /** Without fuel, `Below(h)` is `h` alone. */
  lemma BelowZero(shape: Registry, h: Handle)
    requires h in shape && Closed(shape)
    ensures Below(shape, h, 0) == {h}
  {
  }

  /** One level of `Below`. */
  lemma BelowStep(shape: Registry, h: Handle, fuel: nat)
    requires h in shape && Closed(shape) && fuel > 0
    ensures Below(shape, h, fuel) == {h} + BelowKids(shape, shape[h].children, 0, Down(fuel))
  {
    assert Refers(shape, shape[h]);
  }

  /** One level of `TreeWithin`. */
  lemma TreeStep(shape: Registry, h: Handle, fuel: nat)
    requires h in shape && Closed(shape) && fuel > 0 && TreeWithin(shape, h, fuel)
    ensures h !in BelowKids(shape, shape[h].children, 0, Down(fuel))
    ensures KidsTree(shape, shape[h].children, 0, Down(fuel))
  {
    assert Refers(shape, shape[h]);
  }

  lemma {:induction false} KidsFrame(shape: Registry, objs: Registry, kids: seq<Handle>, i: nat, env: Env,
                                     fuel: nat)
    requires i <= |kids| && Closed(shape) && Posed(shape, objs) && Closed(objs)
    requires forall c | c in kids :: c in shape
    ensures Unmoved(objs, TransformKids(objs, kids, i, env, fuel), BelowKids(shape, kids, i, fuel))
    decreases fuel, 1, |kids| - i
  {
    if i < |kids| {
      var c := kids[i];
      var next := UpdateTransforms(objs, c, env, fuel);
      TransformsFrame(shape, objs, c, env, fuel);
      PosedChain(shape, objs, next);
      KidsFrame(shape, next, kids, i + 1, env, fuel);
      UnmovedChain(objs, next, TransformKids(next, kids, i + 1, env, fuel), Below(shape, c, fuel),
                   BelowKids(shape, kids, i + 1, fuel));
    }
  }

  /** When child lists point back, everything below `h` but `h` itself has
      its parent below `h` as well. */
  lemma {:induction false} ParentBelow(shape: Registry, h: Handle, fuel: nat)
    requires h in shape && Closed(shape) && ChildrenPointBack(shape)
    ensures forall k | k in Below(shape, h, fuel) && k != h ::
      shape[k].parent.Some? && shape[k].parent.value in Below(shape, h, fuel)
    decreases fuel, 0
  {
    if fuel > 0 {
      var f := Down(fuel);
      assert Refers(shape, shape[h]);
      ParentBelowKids(shape, h, shape[h].children, 0, f);
      BelowStep(shape, h, fuel);
    }
  }

  lemma {:induction false} ParentBelowKids(shape: Registry, p: Handle, kids: seq<Handle>, i: nat, fuel: nat)
    requires p in shape && Closed(shape) && ChildrenPointBack(shape)
    requires kids == shape[p].children && i <= |kids|
    ensures forall k | k in BelowKids(shape, kids, i, fuel) ::
      shape[k].parent.Some? && (shape[k].parent.value == p || shape[k].parent.value in BelowKids(shape, kids, i, fuel))
    decreases fuel, 1, |kids| - i
  {
    if i < |kids| {
      var c := kids[i];
      assert c in shape[p].children;
      ParentBelow(shape, c, fuel);
      ParentBelowKids(shape, p, kids, i + 1, fuel);
      ParentsJoin(shape, p, c, Below(shape, c, fuel), BelowKids(shape, kids, i + 1, fuel));
    }
  }

  /** The step of `ParentBelowKids`: the parents of the first child's
      subtree and of the rest join up. */
  lemma ParentsJoin(shape: Registry, p: Handle, c: Handle, here: set<Handle>, later: set<Handle>)
    requires c in here && here <= shape.Keys && later <= shape.Keys
    requires shape[c].parent == Some(p)
    requires forall k | k in here && k != c :: shape[k].parent.Some? && shape[k].parent.value in here
    requires forall k | k in later :: shape[k].parent.Some? && (shape[k].parent.value == p || shape[k].parent.value in later)
    ensures forall k | k in here + later ::
      shape[k].parent.Some? && (shape[k].parent.value == p || shape[k].parent.value in here + later)
  {
  }

  /** Object `k` sits where `Place` puts it on its parent's pose in `r`
      (trivially so when it has no parent). */
  ghost predicate PlacedOn(shape: Registry, r: Registry, k: Handle, env: Env) {
    && k in shape && k in r
    && (shape[k].parent.Some? ==>
          shape[k].parent.value in r && r[k].kin == Place(shape[k], r[shape[k].parent.value], env))
  }

  ghost predicate AllPlaced(shape: Registry, r: Registry, s: set<Handle>, env: Env) {
    forall k | k in s :: PlacedOn(shape, r, k, env)
  }

  /** Every object below `h` ends the pass where `Place` puts it on its
      parent's final pose, provided the visited part of the hierarchy is a
      tree whose child lists point back. */
  lemma {:induction false} TransformsPlace(shape: Registry, objs: Registry, h: Handle, env: Env, fuel: nat)
    requires h in shape && Closed(shape) && ChildrenPointBack(shape) && TreeWithin(shape, h, fuel)
    requires Posed(shape, objs) && Closed(objs)
    ensures AllPlaced(shape, UpdateTransforms(objs, h, env, fuel), Below(shape, h, fuel), env)
    decreases fuel, 0
  {
    var placed := PlaceSelf(objs, h, env);
    PosedChain(shape, objs, placed);
    assert PlacedOn(shape, placed, h, env) by {
      assert objs[h].parent == shape[h].parent;
      if shape[h].parent.Some? {
        var p := shape[h].parent.value;
        PlaceOwnPose(shape[h], objs[h], objs[p], env);
      }
    }
    if fuel == 0 {
      TransformsZero(objs, h, env);
      BelowZero(shape, h);
      AddPlaced(shape, placed, h, {}, env);
    } else {
      var f := Down(fuel);
      TreeStep(shape, h, fuel);
      BelowStep(shape, h, fuel);
      PlaceStep(shape, placed, h, env, f);
      assert objs[h].children == shape[h].children;
      TransformsStep(objs, h, env, fuel);
      AllPlacedEq(shape, TransformKids(placed, shape[h].children, 0, env, f),
                  UpdateTransforms(objs, h, env, fuel),
                  {h} + BelowKids(shape, shape[h].children, 0, f), Below(shape, h, fuel), env);
    }
  }

  /** The children's part of `TransformsPlace`, once `h` is placed: their
      passes place everything below `h` and move neither `h` nor its
      parent. */
  lemma {:induction false} PlaceStep(shape: Registry, placed: Registry, h: Handle, env: Env, fuel: nat)
    requires h in shape && Closed(shape) && ChildrenPointBack(shape)
    requires h !in BelowKids(shape, shape[h].children, 0, fuel) && KidsTree(shape, shape[h].children, 0, fuel)
    requires shape[h].parent.Some? ==> shape[h].parent.value !in {h} + BelowKids(shape, shape[h].children, 0, fuel)
    requires Posed(shape, placed) && Closed(placed) && PlacedOn(shape, placed, h, env)
    ensures AllPlaced(shape, TransformKids(placed, shape[h].children, 0, env, fuel),
                      {h} + BelowKids(shape, shape[h].children, 0, fuel), env)
    decreases fuel, 2
  {
    var kids := shape[h].children;
    assert Refers(shape, shape[h]);
    var r := TransformKids(placed, kids, 0, env, fuel);
    var below := BelowKids(shape, kids, 0, fuel);
    KidsPlace(shape, placed, h, kids, 0, env, fuel);
    KidsFrame(shape, placed, kids, 0, env, fuel);
    assert PlacedOn(shape, r, h, env);
    AddPlaced(shape, r, h, below, env);
  }

  /** Rewrites an `AllPlaced` fact along equalities. */
  lemma AllPlacedEq(shape: Registry, r: Registry, r': Registry, s: set<Handle>, s': set<Handle>, env: Env)
    requires AllPlaced(shape, r, s, env) && r == r' && s == s'
    ensures AllPlaced(shape, r', s', env)
  {
  }

  lemma AddPlaced(shape: Registry, r: Registry, h: Handle, below: set<Handle>, env: Env)
    requires PlacedOn(shape, r, h, env) && AllPlaced(shape, r, below, env)
    ensures AllPlaced(shape, r, {h} + below, env)
  {
  }

  lemma {:induction false} KidsPlace(shape: Registry, objs: Registry, p: Handle, kids: seq<Handle>, i: nat,
                                     env: Env, fuel: nat)
    requires p in shape && Closed(shape) && ChildrenPointBack(shape)
    requires kids == shape[p].children && i <= |kids|
    requires KidsTree(shape, kids, i, fuel) && p !in BelowKids(shape, kids, i, fuel)
    requires Posed(shape, objs) && Closed(objs)
    ensures AllPlaced(shape, TransformKids(objs, kids, i, env, fuel), BelowKids(shape, kids, i, fuel), env)
    decreases fuel, 1, |kids| - i, 1
  {
    if i < |kids| {
      KidsPlaceStep(shape, objs, p, kids, i, env, fuel);
    }
  }

  /** One sibling of `KidsPlace`: the first child's pass places its own
      subtree, and the later siblings' passes place theirs without moving
      it. */
  lemma {:induction false} KidsPlaceStep(shape: Registry, objs: Registry, p: Handle, kids: seq<Handle>, i: nat,
                                         env: Env, fuel: nat)
    requires p in shape && Closed(shape) && ChildrenPointBack(shape)
    requires kids == shape[p].children && i < |kids|
    requires KidsTree(shape, kids, i, fuel) && p !in BelowKids(shape, kids, i, fuel)
    requires Posed(shape, objs) && Closed(objs)
    ensures AllPlaced(shape, TransformKids(objs, kids, i, env, fuel), BelowKids(shape, kids, i, fuel), env)
    decreases fuel, 1, |kids| - i, 0
  {
    var c := kids[i];
    var next := UpdateTransforms(objs, c, env, fuel);
    var later := BelowKids(shape, kids, i + 1, fuel);
    assert shape[c].parent == Some(p) by {
      assert c in shape[p].children;
    }
    assert Posed(shape, next) && AllPlaced(shape, next, Below(shape, c, fuel), env) by {
      TransformsPlace(shape, objs, c, env, fuel);
      PosedChain(shape, objs, next);
    }
    var r := TransformKids(next, kids, i + 1, env, fuel);
    assert AllPlaced(shape, r, later, env) && Unmoved(next, r, later) by {
      KidsPlace(shape, next, p, kids, i + 1, env, fuel);
      KidsFrame(shape, next, kids, i + 1, env, fuel);
    }
    KidsPlaced(shape, next, r, p, c, fuel, later, env);
  }

  /** The step of `KidsPlace`: the first child's subtree is placed by its
      own pass and not moved by the later siblings' passes, whose subtrees
      are disjoint from it. */
  lemma KidsPlaced(shape: Registry, next: Registry, r: Registry, p: Handle, c: Handle, fuel: nat,
                   later: set<Handle>, env: Env)
    requires Closed(shape) && ChildrenPointBack(shape) && c in shape && later <= shape.Keys
    requires next.Keys == shape.Keys && r.Keys == shape.Keys
    requires shape[c].parent == Some(p) && p !in Below(shape, c, fuel) + later
    requires Below(shape, c, fuel) !! later
    requires AllPlaced(shape, next, Below(shape, c, fuel), env) && AllPlaced(shape, r, later, env)
    requires Unmoved(next, r, later)
    ensures AllPlaced(shape, r, Below(shape, c, fuel) + later, env)
  {
    var here := Below(shape, c, fuel);
    ParentBelow(shape, c, fuel);
    forall k | k in here
      ensures PlacedOn(shape, r, k, env)
    {
      assert PlacedOn(shape, next, k, env);
      if shape[k].parent.Some? {
        var q := shape[k].parent.value;
        assert q == p || q in here;
        assert r[k] == next[k] && r[q] == next[q];
      }
    }
  }

  /** Where `Place` puts an object does not depend on its own position or
      angle. */
  lemma PlaceOwnPose(a: EngineObject, b: EngineObject, parent: EngineObject, env: Env)
    requires b == a.(kin := a.kin.(pos := b.kin.pos, angle := b.kin.angle))
    ensures Place(a, parent, env) == Place(b, parent, env)
  {
  }

  /** So, starting from any registry: after `updateTransforms(h)`, each
      object of the subtree that has a parent sits where `Place` puts it on
      its parent's final pose, and every object outside the subtree is as
      it was. Together with `Posed`, this fixes the whole result. */
  lemma TransformsPlaceTree(objs: Registry, h: Handle, env: Env, fuel: nat)
    requires h in objs && Closed(objs) && ChildrenPointBack(objs) && TreeWithin(objs, h, fuel)
    ensures var r := UpdateTransforms(objs, h, env, fuel);
      && (forall k | k in Below(objs, h, fuel) && objs[k].parent.Some? ::
            r[k].kin == Place(objs[k], r[objs[k].parent.value], env))
      && (forall k | k in objs && k !in Below(objs, h, fuel) :: r[k] == objs[k])
  {
    var r := UpdateTransforms(objs, h, env, fuel);
    TransformsPlace(objs, objs, h, env, fuel);
    TransformsFrame(objs, objs, h, env, fuel);
    forall k | k in Below(objs, h, fuel) && objs[k].parent.Some?
      ensures r[k].kin == Place(objs[k], r[objs[k].parent.value], env)
    {
      assert PlacedOn(objs, r, k, env);
    }
  }

  // ---------------------------------------------------------------------
  // engineObjectsUpdate and engineObjectsDestroy

  /** One top-level entry of `engineObjectsUpdate`: `updateObject`, then
      `updateTransforms`. */
  function Visit(objs: Registry, h: Handle, collide: seq<Handle>, env: Env, fuel: nat): (r: Registry)
    requires h in objs && Closed(objs)
    requires forall c | c in collide :: c in objs
    ensures KinOnly(objs, r) && Closed(r)
  {
    UpdateObjectFrame(objs, h, collide, env, fuel);
    var updated := UpdateObject(objs, h, collide, env, fuel);
    var posed := UpdateTransforms(updated, h, env, fuel);
    PosedKinOnly(updated, posed);
    KinOnlyChain(objs, updated, posed);
    posed
  }

  /** The reference for the loop of `engineObjectsUpdate` from entry `i`
      on: in list order, each entry that has no parent is visited, and an
      entry with a parent is left to its parent's visit. */
  function UpdatePass(objs: Registry, live: seq<Handle>, i: nat, collide: seq<Handle>, env: Env,
                      fuel: nat): Registry
    requires i <= |live| && Closed(objs)
    requires forall h | h in live :: h in objs
    requires forall c | c in collide :: c in objs
    decreases |live| - i
  {
    if i == |live| then objs
    else
      var h := live[i];
      var next := if objs[h].parent.None? then Visit(objs, h, collide, env, fuel) else objs;
      UpdatePass(next, live, i + 1, collide, env, fuel)
  }

  /** `engineObjectsUpdate`: rebuild the collide list, update each
      top-level object with its children and then its transforms, and
      drop the destroyed objects from the list. `fuel` bounds the depth of
      the two recursions. */
  method ObjectsUpdate(w: World, env: Env, fuel: nat) returns (r: World)
    requires Wf(w)
    ensures r.objs == UpdatePass(w.objs, w.live, 0, CollideList(w.objs, w.live), env, fuel)
    ensures Wf(r) && r.next == w.next && KinOnly(w.objs, r.objs)
    ensures r.live == Survivors(r.objs, w.live)
    ensures Linked(w.objs) ==> Linked(r.objs)
    ensures forall h :: h in r.live <==> h in w.live && !w.objs[h].destroyed
    ensures forall h | h in r.live :: h in r.objs && !r.objs[h].destroyed
  {
    var collide := CollideList(w.objs, w.live);
    var objs := w.objs;
    var i := 0;
    while i < |w.live|
      invariant 0 <= i <= |w.live|
      invariant KinOnly(w.objs, objs) && Closed(objs)
      invariant UpdatePass(objs, w.live, i, collide, env, fuel) == UpdatePass(w.objs, w.live, 0, collide, env, fuel)
    {
      var h := w.live[i];
      if objs[h].parent.None? {
        var next := Visit(objs, h, collide, env, fuel);
        KinOnlyChain(w.objs, objs, next);
        objs := next;
      }
      i := i + 1;
    }
    KinOnlyFlags(w.objs, objs);
    if Linked(w.objs) {
      KinOnlyLinked(w.objs, objs);
    }
    r := World(objs, Survivors(objs, w.live), w.next);
  }

  /** No object has a parent or a child: every object is top-level. */
  ghost predicate Flat(objs: Registry) {
    forall k | k in objs :: objs[k].parent.None? && objs[k].children == []
  }

  /** `update` on each listed object that is not destroyed, in list order,
      from entry `i` on. */
  function FlatPass(objs: Registry, live: seq<Handle>, i: nat, collide: seq<Handle>, env: Env): Registry
    requires i <= |live| && Closed(objs)
    requires forall h | h in live :: h in objs
    requires forall c | c in collide :: c in objs
    decreases |live| - i
  {
    if i == |live| then objs
    else
      var h := live[i];
      Physics.UpdateFrame(objs, h, collide, env);
      var next := if objs[h].destroyed then objs else Physics.Update(objs, h, collide, env);
      FlatPass(next, live, i + 1, collide, env)
  }

  /** Transforms change nothing on an object with neither parent nor
      children. */
  lemma TransformsLone(objs: Registry, h: Handle, env: Env, fuel: nat)
    requires h in objs && Closed(objs) && objs[h].parent.None? && objs[h].children == []
    ensures UpdateTransforms(objs, h, env, fuel) == objs
  {
    if fuel == 0 {
      TransformsZero(objs, h, env);
    } else {
      TransformsStep(objs, h, env, fuel);
    }
  }

  /** A top-level object without children: its visit is its own `update`,
      or nothing when it is destroyed. */
  lemma LoneVisit(objs: Registry, h: Handle, collide: seq<Handle>, env: Env, fuel: nat)
    requires h in objs && Closed(objs) && Linked(objs)
    requires forall c | c in collide :: c in objs
    requires objs[h].parent.None? && objs[h].children == []
    ensures Visit(objs, h, collide, env, fuel)
         == if objs[h].destroyed then objs else Physics.Update(objs, h, collide, env)
  {
    var updated := UpdateObject(objs, h, collide, env, fuel);
    if !objs[h].destroyed {
      TopUpdate(objs, h, collide, env, fuel);
      Physics.UpdateFrame(objs, h, collide, env);
    }
    TransformsLone(updated, h, env, fuel);
  }

  /** On a flat registry the loop of `engineObjectsUpdate` is `update` on
      each listed object that is not destroyed, in list order. */
  lemma {:induction false} FlatPassAgrees(objs: Registry, live: seq<Handle>, i: nat, collide: seq<Handle>,
                                          env: Env, fuel: nat)
    requires i <= |live| && Closed(objs) && Flat(objs)
    requires forall h | h in live :: h in objs
    requires forall c | c in collide :: c in objs
    ensures UpdatePass(objs, live, i, collide, env, fuel) == FlatPass(objs, live, i, collide, env)
    decreases |live| - i
  {
    if i < |live| {
      var h := live[i];
      var next := if objs[h].destroyed then objs else Physics.Update(objs, h, collide, env);
      assert Visit(objs, h, collide, env, fuel) == next by {
        FlatLinked(objs);
        LoneVisit(objs, h, collide, env, fuel);
      }
      assert Closed(next) && Flat(next) by {
        Physics.UpdateFrame(objs, h, collide, env);
        FlatKinOnly(objs, next);
      }
      FlatPassAgrees(next, live, i + 1, collide, env, fuel);
    }
  }

  lemma FlatLinked(objs: Registry)
    requires Flat(objs)
    ensures Linked(objs)
  {
  }

  lemma FlatKinOnly(a: Registry, b: Registry)
    requires Flat(a) && KinOnly(a, b)
    ensures Flat(b)
  {
    forall k | k in b
      ensures b[k].parent.None? && b[k].children == []
    {
      assert b[k] == a[k].(kin := b[k].kin);
    }
  }

  /** A world with one object: `engineObjectsUpdate` is that object's
      `update`, when it has neither parent nor children. */
  lemma LoneObjectsUpdate(objs: Registry, h: Handle, env: Env, fuel: nat)
    requires h in objs && Closed(objs) && Linked(objs) && !objs[h].destroyed
    requires objs[h].parent.None? && objs[h].children == []
    ensures UpdatePass(objs, [h], 0, CollideList(objs, [h]), env, fuel)
         == Physics.Update(objs, h, CollideList(objs, [h]), env)
  {
    var collide := CollideList(objs, [h]);
    LoneVisit(objs, h, collide, env, fuel);
    var next := Physics.Update(objs, h, collide, env);
    Physics.UpdateFrame(objs, h, collide, env);
    assert UpdatePass(objs, [h], 0, collide, env, fuel) == UpdatePass(next, [h], 1, collide, env, fuel);
  }

  /** `engineObjectsDestroy`: destroy each listed object that has no
      parent when the loop reaches it (its children go with it), then
      drop the destroyed objects from the list. */
  method ObjectsDestroy(w: World) returns (r: World)
    requires Wf(w)
    ensures Wf(r) && r.next == w.next && r.objs.Keys == w.objs.Keys
    ensures forall h | h in w.live && w.objs[h].parent.None? :: r.objs[h].destroyed
    ensures forall h | h in w.objs && w.objs[h].destroyed :: r.objs[h].destroyed
    ensures forall h :: h in r.live <==> h in w.live && !r.objs[h].destroyed
    ensures forall h | h in r.live :: w.objs[h].parent.Some?
    ensures Hierarchy.DestroyedClosed(w.objs) && RootsListed(w) ==> r.live == []
  {
    var objs := w.objs;
    var i := 0;
    while i < |w.live|
      invariant 0 <= i <= |w.live|
      invariant DestroyedSoFar(w, objs, i)
    {
      DestroyStep(w, objs, i);
      objs := DestroyTop(objs, w.live[i]);
      i := i + 1;
    }
    if Hierarchy.DestroyedClosed(w.objs) && RootsListed(w) {
      NoneSurvive(w, objs);
    }
    r := World(objs, Survivors(objs, w.live), w.next);
  }

  /** Every listed object hangs, through child lists, below a listed
      object that has no parent. */
  ghost predicate RootsListed(w: World) {
    forall h {:trigger Rooted(w, h)} | h in w.live :: Rooted(w, h)
  }

  /** `h` hangs below a listed parentless object. */
  ghost predicate Rooted(w: World, h: Handle) {
    exists s :: RootPath(w, s, h)
  }

  /** `s` runs through child lists from a listed parentless object to `h`. */
  ghost predicate RootPath(w: World, s: seq<Handle>, h: Handle) {
    && Hierarchy.IsPath(w.objs, s) && s[0] in w.live
    && w.objs[s[0]].parent.None? && s[|s| - 1] == h
  }

  /** After the loop every root is destroyed and no child list has
      changed, so everything below a root is destroyed as well: the
      sweep leaves nothing. */
  lemma {:induction false} NoneSurvive(w: World, objs: Registry)
    requires Wf(w) && DestroyedSoFar(w, objs, |w.live|)
    requires Hierarchy.DestroyedClosed(w.objs) && RootsListed(w)
    ensures Survivors(objs, w.live) == []
  {
    ListedDestroyed(w, objs);
    var r := Survivors(objs, w.live);
    forall h
      ensures multiset(r)[h] == 0
    {
      SurvivorsCount(objs, w.live, h);
    }
    assert multiset(r) == multiset{};
  }

  /** The step of `NoneSurvive` for each listed object: it lies on a path
      of child links from a destroyed root. */
  lemma {:induction false} ListedDestroyed(w: World, objs: Registry)
    requires forall h | h in w.live :: h in w.objs
    requires RootsListed(w) && objs.Keys == w.objs.Keys && Hierarchy.ListsKept(w.objs, objs)
    requires Hierarchy.DestroyedClosed(objs)
    requires forall j | 0 <= j < |w.live| && w.objs[w.live[j]].parent.None? :: objs[w.live[j]].destroyed
    ensures forall h | h in w.live :: objs[h].destroyed
  {
    forall h | h in w.live
      ensures objs[h].destroyed
    {
      assert Rooted(w, h);
      var s :| RootPath(w, s, h);
      var j :| 0 <= j < |w.live| && w.live[j] == s[0];
      KeptPath(w.objs, objs, s);
      Hierarchy.PathDestroyed(objs, s);
    }
  }

  /** A path of child links survives in a registry with the same keys and
      lists. */
  lemma KeptPath(a: Registry, b: Registry, s: seq<Handle>)
    requires Hierarchy.IsPath(a, s) && a.Keys == b.Keys && Hierarchy.ListsKept(a, b)
    ensures Hierarchy.IsPath(b, s)
  {
    forall i | 0 <= i < |s| - 1
      ensures s[i + 1] in b[s[i]].children
    {
      assert s[i + 1] in a[s[i]].children;
    }
  }

  /** One step of that loop, `o.parent || o.destroy()`. */
  function DestroyTop(objs: Registry, h: Handle): Registry
    requires h in objs
  {
    if objs[h].parent.None? then Hierarchy.Destroy(objs, h) else objs
  }

  /** The loop invariant of `ObjectsDestroy` after `i` steps: the registry
      is still closed, every destroyed object is still destroyed, no
      object gained a parent, no child list changed, a destroyed object
      still has only destroyed children if that held at the start, and
      every parentless object among the first `i` is destroyed. */
  ghost predicate DestroyedSoFar(w: World, objs: Registry, i: nat)
    requires i <= |w.live|
  {
    && objs.Keys == w.objs.Keys && Closed(objs)
    && (forall k | k in w.objs && w.objs[k].destroyed :: objs[k].destroyed)
    && Hierarchy.ParentsCleared(w.objs, objs)
    && Hierarchy.ListsKept(w.objs, objs)
    && (Hierarchy.DestroyedClosed(w.objs) ==> Hierarchy.DestroyedClosed(objs))
    && forall j | 0 <= j < i && w.live[j] in w.objs && w.objs[w.live[j]].parent.None? :: objs[w.live[j]].destroyed
  }

  lemma DestroyStep(w: World, objs: Registry, i: nat)
    requires Wf(w) && i < |w.live| && DestroyedSoFar(w, objs, i)
    ensures DestroyedSoFar(w, DestroyTop(objs, w.live[i]), i + 1)
  {
    var h := w.live[i];
    if objs[h].parent.None? {
      var next := Hierarchy.Destroy(objs, h);
      Hierarchy.DestroyKeepsClosed(objs, h);
      Hierarchy.DestroyClearsParents(objs, h);
      Hierarchy.DestroySubtree(objs, h);
      StaysDestroyed(objs, next);
      ClearedChain(w.objs, objs, next);
      KeptChain(w.objs, objs, next);
      if Hierarchy.DestroyedClosed(objs) {
        Hierarchy.DestroyKeepsDestroyedClosed(objs, h);
      }
    }
  }

  /** Nothing `destroy` leaves behind is less destroyed than before. */
  lemma StaysDestroyed(a: Registry, b: Registry)
    requires a.Keys == b.Keys && Hierarchy.Undestroyed(b) <= Hierarchy.Undestroyed(a)
    ensures forall k | k in a && a[k].destroyed :: b[k].destroyed
  {
    forall k | k in a && a[k].destroyed
      ensures b[k].destroyed
    {
      assert k !in Hierarchy.Undestroyed(a);
    }
  }

  lemma KeptChain(a: Registry, b: Registry, c: Registry)
    requires a.Keys == b.Keys == c.Keys
    requires Hierarchy.ListsKept(a, b) && Hierarchy.ListsKept(b, c)
    ensures Hierarchy.ListsKept(a, c)
  {
  }

  lemma ClearedChain(a: Registry, b: Registry, c: Registry)
    requires a.Keys == b.Keys == c.Keys
    requires Hierarchy.ParentsCleared(a, b) && Hierarchy.ParentsCleared(b, c)
    ensures Hierarchy.ParentsCleared(a, c)
  {
  }

  // ---------------------------------------------------------------------
  // engineObjectsCollect

  /** The area of `engineObjectsCollect`: everything when no position is
      given, a box when the size is a vector, and a circle when it is a
      number. */
  datatype Area = All | Box(center: Vec2, size: Vec2) | Circle(center: Vec2, radius: real)

  /** Whether an object passes the area's test: box overlap for a box,
      distance strictly under the radius for a circle. */
  predicate InArea(area: Area, o: EngineObject) {
    match area
    case All => true
    case Box(center, size) => IsOverlapping(center, size, o.kin.pos, o.size)
    case Circle(center, radius) => center.DistanceSquared(o.kin.pos) < radius * radius
  }

  /** The objects of `list` that pass the test, in list order. */
  ghost function Matching(objs: Registry, area: Area, list: seq<Handle>): (r: seq<Handle>)
    requires forall h | h in list :: h in objs
    ensures forall h :: h in r <==> h in list && InArea(area, objs[h])
    ensures |r| <= |list|
  {
    if |list| == 0 then []
    else
      var h := list[|list| - 1];
      var rest := Matching(objs, area, list[..|list| - 1]);
      if InArea(area, objs[h]) then rest + [h] else rest
  }

  /** `engineObjectsCollect(pos, size, objects)`. */
  method Collect(objs: Registry, area: Area, list: seq<Handle>) returns (r: seq<Handle>)
    requires forall h | h in list :: h in objs
    ensures r == Matching(objs, area, list)
    ensures forall h :: h in r <==> h in list && InArea(area, objs[h])
  {
    r := [];
    var i := 0;
    while i < |list|
      invariant 0 <= i <= |list|
      invariant r == Matching(objs, area, list[..i])
    {
      assert list[..i + 1][..i] == list[..i];
      if InArea(area, objs[list[i]]) {
        r := r + [list[i]];
      }
      i := i + 1;
    }
    assert list[..|list|] == list;
  }

  /** With no area, everything is collected, in order. */
  lemma {:induction false} CollectAll(objs: Registry, list: seq<Handle>)
    requires forall h | h in list :: h in objs
    ensures Matching(objs, All, list) == list
  {
    if |list| > 0 {
      CollectAll(objs, list[..|list| - 1]);
      assert list[..|list| - 1] + [list[|list| - 1]] == list;
    }
  }

  /** A circle of radius zero collects nothing: the test is strict. */
  lemma CollectEmptyCircle(objs: Registry, center: Vec2, list: seq<Handle>)
    requires forall h | h in list :: h in objs
    ensures Matching(objs, Circle(center, 0.0), list) == []
  {
    var r := Matching(objs, Circle(center, 0.0), list);
    if r != [] {
      var p := objs[r[0]].kin.pos;
      DistanceNonNegative(center, p);
      assert false;
    }
  }

  lemma DistanceNonNegative(a: Vec2, b: Vec2)
    ensures a.DistanceSquared(b) >= 0.0
  {
    Square(a.x - b.x);
    Square(a.y - b.y);
  }

  lemma Square(x: real)
    ensures x * x >= 0.0
  {
    if x < 0.0 {
      assert x * x == (-x) * (-x);
    }
  }
}
