# LittleJS simulation core in Dafny

A model of the simulation core of the LittleJS engine. The engine ships as
the single file `littlejs.custom.js`, in the build used by the game
*Bichita the cat*. The model covers the parts of the engine that decide what
happens in a frame. Drawing, sound and input are not modelled.

- **Clock** (`clock.dfy`): the fixed-timestep clock of `engineUpdate`. It
  turns browser callbacks into a whole number of fixed steps of `1e3 / 60`
  ms, taken as the double the engine computes. The
  buffer is capped at 50 ms, and a small negative delta is borrowed and
  then paid back.
- **Physics** (`physics.dfy`): one object's `update`, in the engine's
  order:
  - the speed limit, damping, gravity and integration;
  - friction against the ground object;
  - pushing apart and resolving collisions with the solid objects of the
    collide list;
  - collision with the tile map.
- **Hierarchy** (`hierarchy.dfy`): the parent/child hierarchy:
  `addChild`, `removeChild` and the recursive `destroy`.
- **Engine** (`engine.dfy`): the object loop. This is
  `engineObjectsUpdate`, which runs the recursive `updateObject`, then
  `updateTransforms`, then sweeps out destroyed objects. It also covers
  `engineObjectsDestroy` and `engineObjectsCollect`.
- **Objects** (`objects.dfy`): the records and registry:
  - `EngineObject` state and the constructor's defaults;
  - `setCollision`, `applyAcceleration` and `applyForce`;
  - the list filters of the object loop.
- **Scalar** (`scalar.dfy`), **Random** (`random.dfy`), **Direction**
  (`direction.dfy`) and **Colors** (`color.dfy`): the small helpers the
  core relies on:
  - `sign`, `mod`, `clamp`, `percent`, `lerp` and `isOverlapping`;
  - the seeded xorshift `RandomGenerator`;
  - the four-way `setDirection`/`direction` encoding;
  - `Color.setHex`, `toString` and `rgbaInt`.

**How JavaScript is modelled:**

- **Numbers** are `real`. A truncating `|0` is `Scalar.Trunc`, which rounds
  toward zero, and JavaScript's `%` is `Scalar.JsRem`.
- **Integers from bit operations.** The random generator's state is a
  `bv32`. The 32-bit wrap of `rgbaInt` is written out.
- **Object references** become handles into a `map` that plays the part of
  the heap. Records stay in the map after the sweep drops them from
  `engineObjects`, just as a destroyed object stays reachable in
  JavaScript. The tile-ground marker `groundObject = this` is
  `Some(self)`.
- **Outside collaborators** are fields of `Objects.Env`, and every operation
  takes them as a parameter. They are:
  - the tile map test `tileCollisionTest`;
  - the objects' `collideWithObject` consent;
  - the random push `randVector(.001)`;
  - the square root behind `length()`;
  - the cosine and sine behind `rotate()`.
- **Settings.** The engine settings `gravity`, `objectMaxSpeed` and
  `enablePhysicsSolver` are also fields of `Objects.Env`.

## Model

| member | source | states |
|---|---|---|
| Scalar.Sign | littlejs.custom.js:83 | the sign is -1, 0 or 1; it is 0 exactly for 0; times the value it gives the absolute value |
| Scalar.Trunc | littlejs.custom.js:1557 | `x\|0` is the whole number within 1 of x on the side of zero: at or below a non-negative x, at or above a negative one |
| Scalar.JsRem | littlejs.custom.js:90 | JavaScript `%`: the remainder is smaller in size than the divisor and, unless 0, has the sign of the dividend |
| Scalar.Mod | littlejs.custom.js:90 | `mod` always lands in [0, divisor) for a positive divisor and in (divisor, 0] for a negative one |
| Scalar.ModIsFlooredRemainder | littlejs.custom.js:90 | for a positive divisor, `mod` equals the floored remainder dividend - floor(dividend/divisor)*divisor |
| Scalar.Clamp | littlejs.custom.js:98 | when min <= max the result lies in [min, max]; a value already inside is returned as is; otherwise a bound is returned |
| Scalar.Percent | littlejs.custom.js:106-107 | `percent` lies in [0, 1] and is 0 when the two ends coincide |
| Scalar.Lerp | littlejs.custom.js:115 | `lerp` stays between the two values, gives the first at or below 0 and the second at or above 1 |
| Scalar.LerpOfPercent | littlejs.custom.js:106-115 | `lerp(percent(v, a, b), a, b) == v` for every v between distinct a and b |
| Scalar.PercentOfLerp | littlejs.custom.js:106-115 | `percent(lerp(t, a, b), a, b)` gives back t clamped to [0, 1] |
| Scalar.OverlapSymmetric | littlejs.custom.js:170-174 | the box overlap test does not depend on which box comes first |
| Random.Unit | littlejs.custom.js:315 | `(seed>>>0) / 2**32` lies in [0, 1) |
| Random.Seeded | littlejs.custom.js:299-303 | the constructor keeps the 32-bit pattern of a whole-number seed; seed 0 gives the zero state |
| Random.SeededPeriodic | littlejs.custom.js:299-314 | seeds a multiple of 2^32 apart give the same generator, since the shifts see only the 32-bit pattern |
| Random.Xorshift | littlejs.custom.js:312-314 | the three shift-xor stages of `float`; it has no contract of its own, and `Random.XorshiftInvertible` and `Random.ZeroSeedIsStuck` state its properties |
| Random.Float | littlejs.custom.js:309-316 | `float` advances the seed by exactly one xorshift step and returns a value in [b, a) when a > b, in (a, b] when a < b, and b when they are equal |
| Random.Int | littlejs.custom.js:322 | `int(a, b)` after one xorshift step: for a > b at least floor(b) and below a, for a < b at least floor(a) and at most b, and floor(b) when they are equal |
| Random.RandSign | littlejs.custom.js:326 | `sign()` is 1 or -1, and 1 exactly when the next fraction exceeds .5 |
| Random.XorshiftInvertible | littlejs.custom.js:312-314 | the three shift-xor stages (13 left, 17 right unsigned, 5 left) can be undone: `Unshift` recovers the previous seed |
| Random.XorshiftInjective | littlejs.custom.js:312-314 | two different seeds never step to the same seed |
| Random.ZeroSeedIsStuck | littlejs.custom.js:312-314 | a seed steps to 0 exactly when it is 0, so a zero seed repeats forever and no other seed reaches it |
| Random.ZeroSeedFloat | littlejs.custom.js:309-316 | a generator seeded with 0 returns `valueB` from every `float` and keeps the zero seed |
| Direction.SetDirection | littlejs.custom.js:531-537 | `setDirection` gives an axis-aligned vector whose length is the given length |
| Direction.DirectionOf | littlejs.custom.js:541-542 | `direction()` is one of 0, 1, 2, 3 |
| Direction.SetDirectionOfWhole | littlejs.custom.js:531-537 | a whole direction k gives up, right, down or left according to k mod 4, negative k included |
| Direction.SetDirectionPeriodic | littlejs.custom.js:531-537 | adding whole turns of 4 to the direction changes nothing |
| Direction.DirectionOfSetDirection | littlejs.custom.js:531-542 | `direction()` of `setDirection(k, length)` with a positive length is k mod 4 |
| Direction.SetDirectionOfDirection | littlejs.custom.js:531-542 | `setDirection(v.direction())` is the unit vector along v's dominant axis (y on a tie), with v's sign on that axis |
| Direction.DominantAxisDot | littlejs.custom.js:541-542 | that unit vector's dot product with v is max(\|v.x\|, \|v.y\|) |
| Colors.HexDigit | littlejs.custom.js:802 | the lower-case digit written for a value below 16 parses back to that value |
| Colors.HexValue | littlejs.custom.js:816 | `parseInt` of one hex digit, of either case, is a value in [0, 16) |
| Colors.Short | littlejs.custom.js:816 | a one-digit channel `clamp(d/15)` lies in [0, 1] |
| Colors.Long | littlejs.custom.js:824 | a two-digit channel `clamp(dd/255)` lies in [0, 1] |
| Colors.LongOfByte | littlejs.custom.js:824 | two digits that read as n give the channel n/255 |
| Colors.SetHexLong | littlejs.custom.js:822-829 | a well-formed 6- or 8-digit code takes its channels from the digit pairs at 1, 3 and 5, and alpha from 7 or else 1 |
| Colors.SetHex | littlejs.custom.js:809-833 | `setHex` succeeds exactly on `#` followed by 3, 4, 6 or 8 hex digits of either case, and every channel it sets lies in [0, 1] |
| Colors.ChannelByte | littlejs.custom.js:802 | `clamp(c)*255\|0` is a byte, and for c in [0, 1] it is the floor of c*255 |
| Colors.ToString | littlejs.custom.js:800-804 | `toString` gives `#` and then 6 characters, or 8 with alpha |
| Colors.Format | littlejs.custom.js:800-804 | the text for given channel bytes is `#` and then 6 characters, or 8 with alpha |
| Colors.ByteHexParses | littlejs.custom.js:802 | the two characters written for a byte are hex digits that read back as that byte |
| Colors.ChannelByteOfByte | littlejs.custom.js:802-824 | a channel n/255 read from hex quantizes back to n |
| Colors.ByteRoundTrip | littlejs.custom.js:802-824 | reading two hex digits as a channel and writing it again gives the same digits in lower case |
| Colors.SetHexOfToString | littlejs.custom.js:800-833 | parsing `toString`'s output succeeds and gives the color with each channel quantized to a byte (alpha 1 without alpha) |
| Colors.SetHexOfFormat | littlejs.custom.js:800-833 | parsing the text of four bytes gives channels byte/255 |
| Colors.ToStringOfSetHex | littlejs.custom.js:800-833 | a well-formed 6- or 8-digit code parses, and `toString` of the result gives the code back in lower case |
| Colors.RgbaInt | littlejs.custom.js:837-844 | `rgbaInt` is a signed 32-bit value, negative exactly when the alpha byte is 128 or more |
| Colors.RgbaIntLanes | littlejs.custom.js:837-844 | the four bytes of that 32-bit pattern are, low to high, the red, green, blue and alpha bytes |
| Colors.ToInt32 | littlejs.custom.js:840-842 | the result of `<<` is the signed 32-bit number with the same bit pattern |
| Clock.StepsFor | littlejs.custom.js:2569 | the catch-up loop runs the smallest number of steps that takes the buffer below zero, and none for a negative buffer |
| Clock.Drain | littlejs.custom.js:2569 | the loop as a loop: it runs that many steps and leaves the buffer negative, less one step per pass |
| Clock.StepsUnique | littlejs.custom.js:2569 | only one step count drains a buffer that way |
| Clock.EngineUpdate | littlejs.custom.js:2528-2588 | one callback: the real clock advances by the whole delta; the frame counter by exactly the steps run, at most 3; a paused callback runs none and adds nothing to the buffer; an unpaused one leaves the buffer negative; `time` is the last step's frame over 60 |
| Clock.AtMostThree | littlejs.custom.js:2541-2569 | a buffer capped at 50 ms drains in at most three steps |
| Clock.StepAboveExact | littlejs.custom.js:2569 | the step `1e3 / frameRate`, as a double, is a little more than 1000/60: two steps stay under the 50 ms cap and three exceed it |
| Clock.CappedCallback | littlejs.custom.js:2542-2569 | a slow callback that reaches the cap runs exactly three steps and leaves the buffer just below zero |
| Clock.SmoothedCallback | littlejs.custom.js:2561-2587 | a buffer in (-9, 0) runs exactly one step, and the borrowed delta comes back: the buffer ends one step lower |
| Clock.BufferStaysBounded | littlejs.custom.js:2540-2587 | with timestamps that do not go back, the buffer stays between -(one step + 9) and 50 ms |
| Clock.RunFrames | littlejs.custom.js:2528-2588 | over any run of callbacks the frame counter grows by at most three per callback, and not at all while paused |
| Objects.NewObject | littlejs.custom.js:1298-1366 | a new object starts at rest with the given position and angle, default mass, no parent, no children, and tile and object collision switched off |
| Objects.Spawn | littlejs.custom.js:1298-1368 | the constructor adds one record under an unused handle, appends it to `engineObjects`, and keeps the world well formed |
| Objects.SetCollision | littlejs.custom.js:1673-1681 | `setCollision` sets exactly the four collision flags and nothing else |
| Objects.ApplyAcceleration | littlejs.custom.js:1636 | only the velocity changes, by exactly the acceleration; a static object (mass 0) is unchanged |
| Objects.ApplyForce | littlejs.custom.js:1640 | only the velocity changes, and mass times the change is the force; a static object is unchanged |
| Objects.CollideList | littlejs.custom.js:2731 | the collide list holds exactly the listed objects that collide with solid objects |
| Objects.CollideListAppend | littlejs.custom.js:2731 | the filter keeps list order: the collide list of a concatenation is the concatenation of the collide lists |
| Objects.CollideListCount | littlejs.custom.js:2731 | an object occurs in the collide list as often as in the object list when it collides with solid objects, and not at all otherwise |
| Objects.Survivors | littlejs.custom.js:2754 | the swept list holds exactly the listed objects that are not destroyed |
| Objects.SurvivorsAppend | littlejs.custom.js:2754 | the sweep keeps list order: the sweep of a concatenation is the concatenation of the sweeps |
| Objects.SurvivorsCount | littlejs.custom.js:2754 | an undestroyed object occurs in the swept list as often as in the object list, and a destroyed one not at all |
| Physics.ClampSpeed | littlejs.custom.js:1396-1410 | in linear mode each axis ends within a non-negative limit, and an axis already within it is kept; in radial mode a velocity within the limit is kept |
| Physics.ClampSpeedRadial | littlejs.custom.js:1402-1409 | in radial mode a faster velocity ends at exactly the limit and keeps its direction |
| Physics.Fall | littlejs.custom.js:1416-1417 | gravity adds nothing to a static object |
| Physics.FallMoving | littlejs.custom.js:1416-1417 | gravity adds `gravity * gravityScale` to an object whose mass is not 0 |
| Physics.Advance | littlejs.custom.js:1413-1420 | the position moves by exactly the new velocity and the angle by exactly the new angular velocity; the ground is kept |
| Physics.AdvanceWithinLimit | littlejs.custom.js:1396-1420 | with a per-axis limit the speed is clamped before it is damped: each axis ends within damping times the limit, y before gravity is added, and the spin is only damped |
| Physics.AdvanceUnclamped | littlejs.custom.js:1396-1420 | within the limit the new velocity is the old one damped, plus gravity on y, the position moves by it, and the spin is damped |
| Physics.UniformMotion | littlejs.custom.js:1396-1420 | with damping 1, no gravity and a velocity within the limit, n steps move the object by n times its velocity and turn it by n times its spin |
| Physics.StaticIgnoresGravity | littlejs.custom.js:1416 | a static object's step is the same whatever the gravity |
| Physics.Update | littlejs.custom.js:1389-1580 | `update` of an object with a parent changes nothing; for a top-level object that only integrates (static, solver off, or standing on nothing with no collision flags) it is exactly the integration step, and nothing else changes |
| Physics.UpdateUniform | littlejs.custom.js:1389-1420 | n runs of `update` on an object that coasts (damping 1, no gravity on it, within the speed limit, only integrating) move it by n times its velocity and turn it by n times its spin; nothing else changes |
| Physics.CoastOnce | littlejs.custom.js:1389-1420 | one `update` of a coasting object is one step of uniform motion, and the object still coasts |
| Physics.Solve | littlejs.custom.js:1428-1579 | for an object standing on nothing that collides neither with solid objects nor with tiles, the collision half only stores the integrated state |
| Physics.Friction | littlejs.custom.js:1434 | the velocity relative to the ground shrinks by the friction factor without changing sign; friction 0 matches the ground's speed and friction 1 keeps the velocity |
| Physics.GroundSpeed | littlejs.custom.js:1432-1433 | standing on tiles (the object is its own ground) counts as ground speed 0 |
| Physics.GroundFriction | littlejs.custom.js:1429-1437 | with a ground, the ground is cleared and only the horizontal velocity changes; without one, nothing changes |
| Physics.PushLength | littlejs.custom.js:1462-1465 | the push given to an already overlapping pair has length exactly .001, and points along the separation unless the centres are closer than .01 |
| Physics.PushFacts | littlejs.custom.js:1466-1468 | an overlapping pair changes only velocities: the other object gets the opposite push, or nothing when it is static |
| Physics.Push | littlejs.custom.js:1459-1468 | the push apart of an already overlapping pair; it has no contract of its own, and `Physics.PushLength` and `Physics.PushFacts` state its properties |
| Physics.Exchange | littlejs.custom.js:1496-1507 | the blended velocity exchange along one axis; it has no contract of its own, and `Physics.ExchangeLaws` and `Physics.InelasticAverage` state its properties |
| Physics.ExchangeLaws | littlejs.custom.js:1496-1507 | the blended exchange conserves momentum and reverses the relative velocity, scaled by the elasticity clamped to [0, 1] |
| Physics.InelasticAverage | littlejs.custom.js:1496-1507 | without elasticity both objects leave with the mass-weighted average velocity |
| Physics.Resolve | littlejs.custom.js:1474-1531 | the resolution of a fresh collision; it has no contract of its own, and `Physics.ResolveSeparates`, `Physics.ResolveConservesMomentum`, `Physics.ResolveBouncesOffStatic`, `Physics.ResolveBouncesOffGround` and `Physics.ResolveLands` state its properties |
| Physics.ResolveY | littlejs.custom.js:1481-1509 | the y-axis branch; it has no contract of its own, and `Physics.ResolveYFacts` states its properties |
| Physics.ResolveX | littlejs.custom.js:1510-1531 | the x-axis branch; it has no contract of its own, and `Physics.ResolveXFacts` states its properties |
| Physics.ResolveSeparates | littlejs.custom.js:1474-1531 | when the centres differed on both axes before the step, a fresh collision leaves the other object where it was and the mover just outside it |
| Physics.ResolveYFacts | littlejs.custom.js:1481-1509 | y resolution puts the mover at the other's y plus or minus (half the sizes + .001) and leaves all horizontal state and the other's position and ground alone |
| Physics.ResolveXFacts | littlejs.custom.js:1510-1531 | x resolution puts the mover at the other's x plus or minus (half the sizes + .001) and leaves all vertical state alone |
| Physics.SomeAxisResolves | littlejs.custom.js:1476-1510 | every fresh collision is resolved along at least one axis |
| Physics.ResolveConservesMomentum | littlejs.custom.js:1474-1531 | against a movable object that is not a grounded landing spot, total momentum is the same before and after |
| Physics.ResolveBouncesOffStatic | littlejs.custom.js:1485-1530 | against a static object the other is untouched and each resolved component of the mover's velocity is reversed and scaled by the larger elasticity |
| Physics.ResolveBouncesOffGround | littlejs.custom.js:1485-1491 | coming down onto a grounded object, the mover's y velocity is reversed and scaled by the larger elasticity when resolved on y, and the other keeps its position and y velocity |
| Physics.ResolveLands | littlejs.custom.js:1485-1489 | the mover takes the other object as its ground exactly when it lands moving down on a static or grounded object on the y axis |
| Physics.MeetFacts | littlejs.custom.js:1459-1531 | a meeting never changes the other object's ground, leaves a static other object alone, and grounds the mover on the other object at most |
| Physics.Contact | littlejs.custom.js:1446-1531 | one pass of the loop over the collide list; it has no contract of its own, and `Physics.ContactCollided` states its frame |
| Physics.ContactCollided | littlejs.custom.js:1446-1531 | one pass of the collision loop changes at most the mover and that one object |
| Physics.CollideAllCollided | littlejs.custom.js:1443-1533 | the whole collision loop changes only kinematic state: only listed objects besides the mover, never a static one, never another's ground; the mover's ground becomes at most a listed object |
| Physics.Collisions | littlejs.custom.js:1439-1534 | the collision pass changes only what the loop may change (as for `Physics.CollideAllCollided`), and an object that does not collide with solid objects skips it |
| Physics.TileCollide | littlejs.custom.js:1535-1578 | the tile collision of one object; it has no contract of its own, and `Physics.TileCollideFacts` states its properties |
| Physics.LandingHeight | littlejs.custom.js:1557 | the height a landing on tiles gives; it has no contract of its own, and `Physics.LandingOnBoundary` states it |
| Physics.TileCollideFacts | littlejs.custom.js:1535-1578 | tiles change nothing unless the object is in a solid tile now and was not before; a blocked x puts x back and bounces it; a blocked y bounces and either lands on the tile boundary with the tiles as ground or goes back to the old height with no ground |
| Physics.LandingOnBoundary | littlejs.custom.js:1557 | over non-negative ground, a landing puts the bottom edge on the whole tile boundary at or below it, less than one tile lower (plus .0001) |
| Physics.ToTiles | littlejs.custom.js:1535-1579 | the tile step changes only the mover's kinematic state, and its ground becomes the tiles, nothing, or stays |
| Physics.UpdateFrame | littlejs.custom.js:1389-1580 | `update` changes only kinematic state; other objects only if listed for collision, never static ones, never another's ground; the registry stays closed; an object with a parent changes nothing |
| Physics.UpdateGround | littlejs.custom.js:1429-1578 | on the solver path the ground after `update` is set in that step: none, the tiles (the object itself), or an object of the collide list |
| Physics.SolveFrame | littlejs.custom.js:1428-1579 | the collision half of `update` keeps to the same frame |
| Physics.SolveClosed | littlejs.custom.js:1428-1579 | the collision half of `update` leaves every link inside the registry |
| Hierarchy.IndexOf | littlejs.custom.js:1664 | `indexOf` is the first position of the child, or -1 exactly when it is absent |
| Hierarchy.SpliceOne | littlejs.custom.js:1664 | `splice(i, 1)` removes one occurrence of the entry at i, or the last entry for i = -1 |
| Hierarchy.AddChild | littlejs.custom.js:1650-1657 | `addChild` appends the child to the parent's list and sets its parent and local transform; nothing else changes |
| Hierarchy.AddChildLinked | littlejs.custom.js:1650-1657 | under the asserted condition (no parent, not yet listed) parent and child links stay in agreement |
| Hierarchy.RemoveChild | littlejs.custom.js:1661-1666 | `removeChild` clears the child's parent and takes exactly that child out of the parent's list when listed; nothing else changes |
| Hierarchy.RemoveChildLinked | littlejs.custom.js:1661-1666 | removing a child that names the parent keeps the links in agreement |
| Hierarchy.RemoveChildOfAddChild | littlejs.custom.js:1650-1666 | removing a child just added restores the registry, except for the local transform it was given |
| Hierarchy.RemoveChildNotListed | littlejs.custom.js:1661-1666 | without the debug check, removing an unlisted object removes the parent's last child instead |
| Hierarchy.Destroy | littlejs.custom.js:1590-1600 | `destroy` never revives an object, and from a parentless object it leaves every child list as it was |
| Hierarchy.Detach | littlejs.custom.js:1592-1597 | the first half of `destroy`: the object ends destroyed and no handle is added or removed |
| Hierarchy.DestroyChildren | littlejs.custom.js:1598-1599 | the loop over the children keeps the handles, destroys only (the undestroyed set can only shrink) and leaves every child list as it was |
| Hierarchy.DestroyChild | littlejs.custom.js:1599 | `child.destroy(child.parent = 0)` keeps the same three properties |
| Hierarchy.DestroySubtree | littlejs.custom.js:1590-1600 | the object ends destroyed, every object it destroys has its whole child list destroyed, and no list gains an entry |
| Hierarchy.DestroyWholeSubtree | littlejs.custom.js:1590-1600 | everything reachable from the destroyed object through child links is destroyed |
| Hierarchy.DestroyKeepsDestroyedClosed | littlejs.custom.js:1590-1600 | no destroyed object is left with a live child |
| Hierarchy.DestroyIdempotent | littlejs.custom.js:1592-1593 | destroying twice is destroying once |
| Hierarchy.DestroyDetaches | littlejs.custom.js:1597 | a destroyed child leaves its parent's list, and only that entry goes |
| Hierarchy.DestroyKeepsClosed | littlejs.custom.js:1590-1600 | `destroy` keeps every link inside the registry |
| Hierarchy.DestroyClearsParents | littlejs.custom.js:1597-1599 | `destroy` never gives an object a parent; it only clears links |
| Engine.UpdateObject | littlejs.custom.js:2734-2742 | the recursive `updateObject`; it has no contract of its own, and `Engine.UpdateObjectFrame`, `Engine.ChildUpdateIsNoop` and `Engine.TopUpdate` state its properties |
| Engine.UpdateKids | littlejs.custom.js:2739-2740 | the loop of `updateObject` over the children; it has no contract of its own, and `Engine.KidsUpdateIsNoop` states its value below a child |
| Engine.KidsUpdateIsNoop | littlejs.custom.js:1392-1393 | with consistent links, `updateObject` over the children of an object changes nothing |
| Engine.UpdateObjectFrame | littlejs.custom.js:2734-2742 | the recursive `updateObject` changes only kinematic state and keeps the registry closed |
| Engine.ChildUpdateIsNoop | littlejs.custom.js:1392-1393 | with consistent links, `updateObject` on a child changes nothing, children included |
| Engine.TopUpdate | littlejs.custom.js:2734-2748 | so the recursion from a live top-level object is just that object's own `update` |
| Engine.KinOnlyLinked | littlejs.custom.js:2728-2751 | kinematic changes keep parent and child links in agreement |
| Engine.Rotate | littlejs.custom.js:522-526 | `Vector2.rotate` with the cosine and sine from the environment; it has no contract of its own, and `Engine.RotateZero` and `Engine.RotateLength` state its properties |
| Engine.RotateZero | littlejs.custom.js:522-526 | rotating the zero vector gives the zero vector |
| Engine.RotateLength | littlejs.custom.js:522-526 | with a true cosine and sine, rotation keeps the squared length |
| Engine.MirrorSign | littlejs.custom.js:1644 | the mirror sign squares to 1 and is negative exactly for a mirrored object |
| Engine.Place | littlejs.custom.js:1378-1380 | a child's transform update changes only its position and angle |
| Engine.PlaceAtOrigin | littlejs.custom.js:1378-1380 | a child with no local offset or angle takes its parent's pose |
| Engine.PlaceDistance | littlejs.custom.js:1379 | with a true cosine and sine, a child sits at the length of its local offset from its parent |
| Engine.PlaceMirrored | littlejs.custom.js:1378-1380 | a mirrored parent places a child as an unmirrored one places the child reflected across the y axis with its local angle negated |
| Engine.UpdateTransforms | littlejs.custom.js:1372-1386 | `updateTransforms` changes only positions and angles, only of objects with a parent, and keeps the registry closed |
| Engine.TransformKids | littlejs.custom.js:1382-1385 | the loop of `updateTransforms` over the children changes only positions and angles and keeps the registry closed |
| Engine.TransformsFrame | littlejs.custom.js:1372-1386 | `updateTransforms(h)` changes nothing outside the subtree below h |
| Engine.TransformsPlace | littlejs.custom.js:1372-1386 | every object below h with a parent ends placed on its parent's new pose (the induction, over a registry that differs from the tree only in poses) |
| Engine.TransformsPlaceTree | littlejs.custom.js:1372-1386 | with consistent links and a tree within the depth bound, every object below h with a parent ends at its local offset from its parent's new pose, and everything outside the subtree is unchanged |
| Engine.TransformsLone | littlejs.custom.js:1372-1386 | `updateTransforms` of an object with neither parent nor children changes nothing |
| Engine.Visit | littlejs.custom.js:2745-2749 | the visit of one top-level object, `updateObject` then `updateTransforms`, changes only kinematic state and keeps the registry closed |
| Engine.UpdatePass | littlejs.custom.js:2743-2750 | the loop over the list, visiting each parentless entry in list order; it has no contract of its own, and `Engine.ObjectsUpdate` states that a frame computes it |
| Engine.LoneVisit | littlejs.custom.js:2734-2749 | for an object with neither parent nor children the visit is its own `update`, or nothing when it is destroyed |
| Engine.FlatPassAgrees | littlejs.custom.js:2728-2750 | in a world without parents or children, the object loop is `update` of each undestroyed listed object, in list order |
| Engine.LoneObjectsUpdate | littlejs.custom.js:2728-2751 | a frame of a world listing one live object with neither parent nor children is that object's `update` with itself as the collide list when it collides with solid objects |
| Engine.ObjectsUpdate | littlejs.custom.js:2728-2755 | a frame's registry is the fold of `Engine.Visit` over the parentless entries in list order, with the collide list rebuilt from the list; it changes only kinematic state, keeps the world well formed and the links consistent, and afterwards the list holds exactly the listed objects not destroyed |
| Engine.ObjectsDestroy | littlejs.custom.js:2759-2764 | every listed parentless object ends destroyed, destroyed objects stay destroyed, and the list keeps exactly the objects left undestroyed, all of which had a parent; when every listed object hangs below a listed parentless object and no destroyed object has a live child, the list ends empty |
| Engine.NoneSurvive | littlejs.custom.js:2759-2764 | after the loop of `engineObjectsDestroy` under those two conditions, the sweep leaves nothing |
| Engine.DestroyTop | littlejs.custom.js:2762 | one step of that loop, `o.parent \|\| o.destroy()`; it has no contract of its own, and `Engine.DestroyStep` states what it keeps |
| Engine.DestroyStep | littlejs.custom.js:2761-2762 | each step keeps the loop invariant: handles, closure, destroyed flags, cleared parents and child lists are kept, and the current entry ends destroyed when it has no parent |
| Engine.Collect | littlejs.custom.js:2772-2792 | the result is the listed objects that pass the area test, in list order |
| Engine.CollectAll | littlejs.custom.js:2775-2779 | with no position, every listed object is collected, in order |
| Engine.CollectEmptyCircle | littlejs.custom.js:2785-2789 | a circle of radius 0 collects nothing, because the distance test is strict |

## Left out

- Rendering, canvas and WebGL, sound, input and touch, medals, the
  splash screen, `engineInit` and its image loading. These are browser I/O
  with no simulation logic.
- NaN and Infinity, and double rounding. Every number is a real. The one
  exception is the step length `1e3 / frameRate`: `Clock.StepMs` is the
  exact value of that double, because the rounding decides how many steps
  a capped callback runs.
- Random.Seeded: takes a whole-number seed. A fractional seed, which the
  engine's first shift would truncate, is not modelled.
- The int32 wrap of `|0`. `Scalar.Trunc` only truncates. The wrap is
  written out only in `rgbaInt`, where it decides the sign.
- The square root, the cosine and sine, `randVector` and
  `tileCollisionTest` are not defined. They are parameters in
  `Objects.Env`. `Objects.ValidEnv` states what the proofs ask of them.
- `rand`, `randInCircle`, `randColor`, `Timer` and the trigonometric
  vector helpers (`setAngle`, `angle`, `normalize`, `clampLength`) are not
  used by the core and are not modelled.
- Physics.ClampSpeed: when the square root yields 0 for a positive
  length squared, the velocity is kept rather than divided by zero. A true
  square root never yields 0 there.
- Masses are taken to be non-negative (`Objects.Closed`). The engine
  divides by a sum of masses and never checks the sign.
- Engine.UpdateTransforms, Engine.UpdateObject: the recursions over
  children carry a `fuel` bound on their depth. The engine instead relies
  on the hierarchy being a tree. Past the bound, deeper children are not
  visited.
- `collideWithObject` is a pure consent function (`Objects.Env.consent`).
  The side effects a game gives it, and game subclasses that override
  `update` or `render`, are not modelled.
- Objects created or destroyed by game code during a frame are not
  modelled. The object loop sees only the engine's own changes.
- `engineUpdate`'s transform pass while paused and the render-order sort
  are not modelled. They draw or change only poses.
- Clock.EngineUpdate: leaves out `averageFPS` and the debug speed keys.
  `debug` is the constant 0 in this build, so the 50 ms cap always
  applies.
- Physics.LandingOnBoundary: is stated only over non-negative ground. For
  a negative bottom edge, `|0` rounds up, so a landing lands above the old
  bottom edge. `Physics.TileCollideFacts` states the landing height for
  every input through `Physics.LandingHeight`.
- Hierarchy.RemoveChild, Hierarchy.AddChild: the engine only
  `ASSERT`s its preconditions, and `ASSERT` is an empty function in this
  build. Both are total here, with the release behaviour.
  - `indexOf` of -1 splices out the last child (`Hierarchy.RemoveChildNotListed`).
  - The link properties are stated under the asserted condition.
- Colors.SetHex: a string that is not `#` plus 3, 4, 6 or 8 hex digits
  is an error here. The engine checks nothing in this build, because
  `ASSERT` is empty (littlejs.custom.js:25), and parses what it is given:
  - the first character is never looked at, so `x123` reads like `#123`;
  - any length of 6 or more takes the two-digit path, so `#12345` reads
    blue from the single digit `5` (5/255), and lengths other than 9 get
    alpha 1 with any further characters ignored;
  - `parseInt` reads the longest hex prefix, so `#1g2233` gives red 1/255;
  - only a channel with no leading hex digit, or one past the end of the
    string, gives NaN.
- Objects.NewObject: uses the default values of `objectDefaultMass` and
  the other defaults. The `setObjectDefault...` setters are not modelled.
  The per-frame settings `gravity`, `objectMaxSpeed` and
  `enablePhysicsSolver` are `Objects.Env` fields instead.
- The overlap push uses a random vector of length .001, as
  `randVector(.001)` in the engine gives. It is not a unit vector.
- Tile-map lookups, raycasts and `isIntersecting` are not modelled.
  `collideRaycast` is only stored.
