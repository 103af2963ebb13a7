# go_engine collision and world core, modelled in Dafny

This project models the core of a small 2D rigid-body physics engine written in Go:

- **The world** (`game/world.go`): it owns the bodies and the global forces. Its `Update` loads each body with its weight, the global forces and the torques, and then integrates the body. Its `HandleCollisions` resolves collisions between every pair of bodies, in a fixed order. The two are separate operations; the world file does not fix the order in which a frame calls them.
- **Narrow-phase collision** (`collision/collision.go`), which has three detectors:
  - circle against circle, with an `int32` radius sum;
  - polygon against polygon, by a separating-axis search over edge normals: a max of mins;
  - polygon against circle, by a search for the closest edge and a classification of the neighbouring region.

  After detection it corrects positions in proportion to the inverse masses. It then applies a normal impulse and a friction impulse.
- **The earlier circle-only collision package** (`collission/collision.go`). It has a minimum-penetration threshold and a purely linear impulse.
- **The entities package**:
  - circle and box shapes, with their moments of inertia and edges;
  - the damped `Body` integrator and the undamped `Particle` integrator.
- **Vectors and forces:**
  - the value vector (`vector/vec2.go`) and the in-place vector (`physics/vec2.go`);
  - the weight and spring forces (`physics/force.go`).
- **Constants and colours:** the physical constants (`constants/contants.go`) and the colour constants with `fromHex` (`renderer/renderer.go`).

## How it is organised

- **Specification functions.** Every Go function that only computes is a Dafny `function` on values.
- **Methods.** Every Go function that loops or updates bodies through pointers is a `method`. Each method's `ensures` ties its result, or the new state, to those functions.
- **Body snapshots.** The collision code works on `BodyState` snapshots of a body. The in-place `RigidBody.Body` class is tied to them through `State()`.
- **The world** is a class:
  - its body, force and torque lists are sequences;
  - `Update` and `HandleCollisions` are loops proved against `Loaded` and `Run`;
  - `Run` is the fold of one `Resolve` call over `PairOrder.Pairs`.
- **Unseen helpers as parameters.** The source calls `math.Sqrt`, `Vec2.Normal`, `Vec2.ProjOnTo`, `Body.AngularVelocityProduct`, `Body.ApplyImpulse` and `Body.Update`, whose bodies are not part of this model. These are passed in as the fields of an `Externals` value. `Externals.Valid` requires `sqrt` to be a square root of non-negative numbers (`IsSqrt`). The field types assume more: each helper is a pure function; `ApplyImpulse` changes only the receiver's linear and angular velocity; `Body.Update` changes only its own body. "## Left out" lists these assumptions.
- **Scalars** are mathematical reals.
- **Radii** are `int32`. The circle-circle radius sum wraps around explicitly, as Go's `int32` addition does.

Files:

| file | module | contents |
|---|---|---|
| `numerics.dfy` | `Numerics` | `int32` and wrapping addition |
| `vector.dfy` | `Vector` | value vectors, squares, magnitude and unit vector |
| `constants.dfy` | `Constants` | physical constants |
| `renderer.dfy` | `Renderer` | colour constants and `fromHex` |
| `entities.dfy` | `Entities` | shapes, `Body.Integrate`, `Particle.Integrate` |
| `physics.dfy` | `Physics` | in-place vector, weight and spring forces |
| `rigid_body.dfy` | `RigidBody` | the rigid body the collision code uses, its snapshot, the helper parameters |
| `collision.dfy` | `Collision` | detectors, positional correction, impulses, `Resolve` |
| `collission.dfy` | `Collission` | the earlier circle-only collision response |
| `pairs.dfy` | `PairOrder` | the order of `HandleCollisions`' calls |
| `world.dfy` | `Game` | the world |

## Model

| member | source | states |
|---|---|---|
| Numerics.AddInt32 | collision/collision.go:135 | the `int32` sum of two radii: exact when it fits in 32 bits, otherwise shifted by 2^32 into range (wrap-around) |
| Vector.Magnitude | vector/vec2.go:33-35 | the length is non-negative, its square is x² + y², and it is zero exactly for the zero vector |
| Vector.Unit | vector/vec2.go:37-43 | for a non-zero vector: a vector of length 1 that, scaled by the original length, gives the original vector back |
| Vector.Add | vector/vec2.go:12-17 | the component-wise sum; its properties are AddThenSubtract and NeutralElements |
| Vector.Subtract | vector/vec2.go:19-24 | the component-wise difference; its property is AddThenSubtract |
| Vector.Multiply | vector/vec2.go:26-31 | scaling by a factor; its properties are NeutralElements and MagnitudeScale |
| Vector.AddThenSubtract | vector/vec2.go:12-24 | subtracting b undoes adding b |
| Vector.NeutralElements | vector/vec2.go:12-31 | multiplying by 1 and adding the zero vector change nothing |
| Vector.MagnitudeScale | vector/vec2.go:26-35 | scaling a vector by k scales its length by abs(k) |
| Vector.ScaledUnit | vector/vec2.go:26-43 | the unit vector scaled by k has length abs(k) and component k along the unit vector |
| Renderer.FromHex | renderer/renderer.go:240-247 | splits a 32-bit RRGGBBAA word into four bytes that pack back into the same word |
| Renderer.FromHexOfPack | renderer/renderer.go:240-247 | unpacking a packed colour gives the colour back, so `fromHex` is a bijection |
| Renderer.FromHexInjective | renderer/renderer.go:240-247 | different words give different colours |
| Renderer.NamedColors | renderer/renderer.go:97-102 | WHITE, RED, GREEN and DEBUG decode to opaque white, red, green and magenta |
| Entities.Circle.CircleShape | entities/circle.go:13-18 | the new circle holds exactly the given radius and colour |
| Entities.Circle.MarkDebug | entities/circle.go:47-49 | the colour becomes DEBUG; the radius stays |
| Entities.Circle.UnMarkDebug | entities/circle.go:51-53 | the colour becomes WHITE; the radius stays |
| Entities.Circle.UpdateVertices | entities/circle.go:43-45 | the circle is unchanged |
| Entities.CircleWidth | entities/circle.go:28-30 | the width equals the height, and is non-negative exactly when the radius is |
| Entities.CircleHeight | entities/circle.go:24-26 | the height is non-negative exactly when the radius is |
| Entities.CircleInBoundingBox | entities/circle.go:24-30 | every point of a circle lies in the GetWidth by GetHeight box around its centre |
| Entities.CircleMomentOfInertia | entities/circle.go:20-22 | non-negative, zero exactly for radius 0, and one eighth of the squared diameter |
| Entities.Polygon.NewBox | entities/polygon.go:15-31 | both vertex lists are the box's four corners, and the colour is the given one |
| Entities.BoxVertices | entities/polygon.go:15-31 | four corners, starting at (-w/2, -h/2), whose edges are (w,0), (0,h), (-w,0), (0,-h), and whose corners sum to the origin |
| Entities.Polygon.MarkDebug | entities/polygon.go:62-64 | the colour becomes DEBUG; both vertex lists stay |
| Entities.Polygon.UnMarkDebug | entities/polygon.go:66-68 | the colour becomes WHITE; both vertex lists stay |
| Entities.EdgeAt | entities/polygon.go:47-50 | the edge leads from vertex idx to vertex idx+1, and from the last vertex back to the first |
| Entities.EdgesSumToZero | entities/polygon.go:47-50 | walking all edges of a closed polygon returns to the start |
| Entities.PartialEdgeSum | entities/polygon.go:47-50 | the first k edges add up to the vector from vertex 0 to vertex k |
| Entities.PolygonMomentOfInertia | entities/polygon.go:37-45 | 0.083333 times the sum of the squared lengths of sides 0→1 and 0→3, so non-negative |
| Entities.InertiaReadsThreeVertices | entities/polygon.go:37-45 | polygons that agree on local vertices 0, 1 and 3 have the same moment of inertia |
| Entities.BoxMomentOfInertia | entities/polygon.go:15-45 | a NewBox(w, h) has moment of inertia 0.083333 (w² + h²) |
| Entities.Body.Integrate | entities/body.go:27-43 | massless bodies stay. Otherwise mass times acceleration is the accumulated force, velocity steps and is damped by 0.99, position moves by the new velocity, forces are cleared, and mass, radius and colour stay |
| Entities.AccelerationTimesMass | entities/body.go:32 | dividing a force by the mass and multiplying back gives the force |
| Entities.Particle.Integrate | entities/particle.go:27-48 | as Body.Integrate but undamped: the velocity grows by (F/m)·dt |
| Physics.Vec2.constructor | physics/vec2.go:3-6 | the vector holds the given components |
| Physics.Vec2.Add | physics/vec2.go:8-13 | the receiver becomes the sum and is the pointer returned |
| Physics.Vec2.Multiply | physics/vec2.go:15-20 | the receiver becomes the scaled vector and is the pointer returned |
| Physics.AddToItself | physics/vec2.go:8-13 | adding a vector's own value into it doubles it |
| Physics.AddThenScale | physics/vec2.go:8-20 | a chained Add then Multiply updates the same receiver twice: (v + a)·k |
| Physics.NeutralUpdates | physics/vec2.go:8-20 | Multiply(1) and Add(0) leave the receiver as it was |
| Physics.NewWeightForce | physics/force.go:9-11 | points straight down the y axis, accelerates any non-zero mass by GRAVITY, and is downward for a positive mass |
| Physics.WeightIsAdditive | physics/force.go:9-11 | the weight of two masses together is the sum of their weights |
| Physics.NewSpringForce | physics/force.go:13-20 | Hooke's law: size k·abs(distance − rest length); along the anchor-to-particle line it pulls in when stretched and pushes out when compressed |
| Physics.SpringAtRest | physics/force.go:13-20 | at the rest length the spring force is zero |
| RigidBody.MomentOfInertia | collision/collision.go:317-318 | the shape's moment of inertia, dispatching to the circle or the polygon formula, is non-negative |
| RigidBody.Body.Update | game/world.go:41 | the body's whole state becomes what the update helper computes from the old state |
| Collision.ArgMin | collision/collision.go:209-222 | a running minimum with strict `<` ends on the first index of the smallest value |
| Collision.ArgMax | collision/collision.go:58-76 | a running maximum with strict `>` ends on the first index of the largest value |
| Collision.Separation | collision/collision.go:211-213 | vertex j of B measured along the normal of edge i of A; its properties are EdgeMinima and PenetrationOf |
| Collision.EdgeMinima | collision/collision.go:205-222 | for each edge of A, a value no larger than the separation of any vertex of B, and attained by some vertex of B |
| Collision.DeepestVertex | collision/collision.go:209-222 | the inner loop returns the smallest separation for edge idx and the first vertex of B that attains it |
| Collision.PenetrationOf | collision/collision.go:200-232 | the edge and vertex found: the vertex is B's deepest (first on ties) behind that edge, and the edge has the largest such minimum (first on ties) |
| Collision.CalculatePenetration | collision/collision.go:200-232 | the nested loops return PenetrationOf's value, edge and vertex |
| Collision.PolygonPolygon | collision/collision.go:156-198 | no contact iff either polygon has an edge with all of the other's vertices on or in front of it, so touching counts as no contact. Otherwise depth = −max(penAB, penBA) > 0, and the normal and start or end come from the winning polygon, A winning ties |
| Collision.PolygonPolygonGap | collision/collision.go:177-188 | the contact's end is its start moved along the normal by the depth |
| Collision.CalculatePolygonPolygonCollision | collision/collision.go:156-198 | the method with two penetration searches returns PolygonPolygon's result |
| Collision.CircleContact | collision/collision.go:139-153 | unit normal from A's centre to B's; start on B's rim, end on A's rim; end − start = normal · (rA + rB − distance); depth = abs(rA + rB − distance) |
| Collision.CircleCircle | collision/collision.go:132-154 | no contact iff the centre distance exceeds the `int32` radius sum; otherwise the circle contact |
| Collision.CircleCircleDepth | collision/collision.go:132-154 | without overflow a contact's depth is rA + rB − distance |
| Collision.FaceContact | collision/collision.go:91-118 | the edge's normal; start on the circle's rim behind the edge; depth + projection = radius; end = start + normal · depth |
| Collision.VertexContact | collision/collision.go:91-118 | unit normal from the vertex to the centre; end at the vertex; start on the rim; depth = abs(distance − radius) |
| Collision.PrevIndex | collision/collision.go:82 | the previous vertex index, wrapping from 0 to n − 1 |
| Collision.NextIndex | collision/collision.go:83 | the next vertex index, wrapping from n − 1 to 0 |
| Collision.RegionContact | collision/collision.go:82-127 | chooses, in the source's order: face contact (centre inside), vertex idx (previous edge positive), the next vertex (next edge positive), face contact. The depth is non-negative within reach |
| Collision.PolygonCircle | collision/collision.go:56-130 | no contact iff the largest projection exceeds the radius; otherwise the contact its region gives, with non-negative depth |
| Collision.ClosestEdge | collision/collision.go:58-76 | the loop returns every edge's projection and the first largest, with its index |
| Collision.CalculatePolygonCircleCollision | collision/collision.go:56-130 | the method returns PolygonCircle's result |
| Collision.Detect | collision/collision.go:24-45 | the detector chosen for the shapes: a found contact has non-negative depth, and the polygon is the record's first body when a circle meets a polygon |
| Collision.DetectCollision | collision/collision.go:24-45 | the four independent shape tests give Detect's result |
| Collision.Shares | collision/collision.go:234-250 | the two position corrections add up to the depth, in the ratio of the inverse masses |
| Collision.Depenetrate | collision/collision.go:234-250 | non-static A moves back along the normal by its share and non-static B forward by its share; static bodies stay; only positions change |
| Collision.DepenetrateSeparates | collision/collision.go:234-250 | between two moving bodies the correction opens the gap by normal · depth |
| Collision.ResolvePenetration | collision/collision.go:234-250 | the in-place correction leaves the bodies as Depenetrate says |
| Collision.CalculateImpulse | collision/collision.go:305-322 | impulse times effective inverse mass along dir = dir · −(1 + e)·(vRel·dir) |
| Collision.ImpulseDenominator | collision/collision.go:316-320 | 1/mA + 1/mB + (ra × dir)²/IA + (rb × dir)²/IB; its bound is DenominatorBoundsInverseMasses |
| Collision.DenominatorBoundsInverseMasses | collision/collision.go:316-320 | the denominator is at least the sum of the inverse masses, since the angular terms are non-negative |
| Collision.LeverA | collision/collision.go:279 | A's lever arm: from A's centre to the contact's end |
| Collision.LeverB | collision/collision.go:280 | B's lever arm: from B's centre to the contact's start |
| Collision.RelativeVelocity | collision/collision.go:282-286 | the contact-point velocity of A minus that of B; its property is RelativeVelocityReverses |
| Collision.RelativeVelocityReverses | collision/collision.go:282-286 | swapping the bodies and the contact's ends negates the relative velocity |
| Collision.TotalImpulse | collision/collision.go:275-303 | with min(fA, fB) = 0, a frictionless contact, the total impulse is the normal impulse alone, with e = min(eA, eB) |
| Collision.NoImpulseWithoutRelativeMotion | collision/collision.go:289-294 | with no relative motion at the contact, both impulses and so the total are zero |
| Collision.ApplyImpulses | collision/collision.go:275-303 | non-static A gets J at its lever arm, non-static B gets −J at its own; static bodies stay; only linear and angular velocities change |
| Collision.ResolveImpulse | collision/collision.go:275-303 | the in-place impulse leaves the bodies as ApplyImpulses says |
| Collision.ResolveSpec | collision/collision.go:19-54 | two static bodies are not tested; otherwise the detected contact, and without a contact both bodies stay |
| Collision.Resolve | collision/collision.go:19-54 | the in-place Resolve returns the contact and leaves the bodies as ResolveSpec says |
| Collision.StaticBodyNeverChanges | collision/collision.go:19-54 | a static body comes out of Resolve unchanged |
| Collision.ResolveChangesOnlyMotion | collision/collision.go:19-54 | Resolve changes only positions, velocities and angular velocities |
| Collision.CirclesTouchAfterCorrection | collision/collision.go:132-250 | two moving overlapping circles end exactly rA + rB apart after the positional correction |
| Collission.Depenetrate | collission/collision.go:64-81 | contacts shallower than 0.5 move nothing; otherwise both bodies, static or not, move by their shares; only positions change |
| Collission.ResolvePenetration | collission/collision.go:64-81 | the in-place correction leaves the bodies as Depenetrate says |
| Collission.ImpulseMagnitude | collission/collision.go:83-104 | jMag times the summed inverse masses = −(1 + e) times the normal velocity |
| Collission.ApplyImpulse | collission/collision.go:83-104 | non-static A gains momentum n·jMag, non-static B loses it; static bodies stay; only velocities change |
| Collission.MomentumConserved | collission/collision.go:83-104 | between two moving bodies, mA·ΔvA + mB·ΔvB = 0 |
| Collission.Restitution | collission/collision.go:83-104 | along a unit normal, the normal velocity v becomes −e·v |
| Collission.ResolveImpulse | collission/collision.go:83-104 | the in-place impulse leaves the bodies as ApplyImpulse says |
| Collission.ResolveCollisionSpec | collission/collision.go:19-38 | static pairs and non-circle pairs stay; masses and shapes never change |
| Collission.ResolveCollision | collission/collision.go:19-38 | the in-place response leaves the bodies as ResolveCollisionSpec says |
| Collission.ShallowContactKeepsPositions | collission/collision.go:66-69 | a contact shallower than 0.5 leaves both positions where they were |
| PairOrder.Row | game/world.go:48 | the inner loop's pairs (a, a+1) … (a, n−1) |
| PairOrder.PairsUpToContents | game/world.go:47-48 | the first m rows hold exactly the pairs a < b < n with a < m, in increasing order |
| PairOrder.PairsOrder | game/world.go:45-54 | HandleCollisions visits every pair a < b < n once, in strictly increasing lexicographic order, n(n−1)/2 of them |
| PairOrder.PairsCount | game/world.go:47-48 | the first m rows hold m(2n − m − 1)/2 pairs |
| PairOrder.NoPairsBelowTwo | game/world.go:47 | fewer than two bodies: no call |
| PairOrder.PairsUpToPrefix | game/world.go:47-48 | the pairs visited after fewer rows are a prefix of those visited after more |
| Game.AccumulateIsSum | game/world.go:33-39 | adding forces one by one adds their sum |
| Game.LoadedForces | game/world.go:29-39 | the loaded body's SumForces has grown by weight + ΣForces + ΣTorques, and nothing else changed |
| Game.Loaded | game/world.go:29-39 | the snapshot after loading the weight, the forces and the torques; its property is LoadedForces |
| Game.Run | game/world.go:45-54 | the snapshots after a sequence of calls; its properties are RunStep, StaticBodiesStay and MaterialStays, and HandleCollisions ends in it |
| Game.RunStep | game/world.go:47-53 | one more call applies Resolve's step to the snapshots the earlier calls left |
| Game.RunDefinedPrefix | game/world.go:45-54 | if the whole call sequence is defined, so is every prefix of it |
| Game.ResolveStep | game/world.go:51-52 | one call of Resolve keeps the list's length and every other body |
| Game.ResolveImplements | game/world.go:51-52 | Resolve's own guard and step fulfil HandleCollisions' requirement |
| Game.StaticBodiesStay | game/world.go:45-54 | a static body keeps its snapshot through any sequence of Resolve calls |
| Game.MaterialStays | game/world.go:45-54 | mass, restitution, friction, shape, rotation and forces survive any sequence of Resolve calls |
| Game.World.States | game/world.go:10-14 | the snapshots are the bodies' states, in list order |
| Game.World.AddBody | game/world.go:16-18 | appends the body; the force lists stay |
| Game.World.AddForce | game/world.go:20-22 | appends the force to Forces |
| Game.World.AddTorque | game/world.go:24-26 | appends the torque to Forces (not Torques), as the code does |
| Game.World.Update | game/world.go:28-43 | every body ends as Body.Update(dt) of itself loaded with weight, forces and torques |
| Game.World.LoadForces | game/world.go:29-39 | SumForces grows by the weight, then each force, then each torque, in list order |
| Game.World.ResolvePair | game/world.go:49-52 | one Resolve on bodies a and b in place is one step on the snapshots |
| Game.World.ResolveRow | game/world.go:48-53 | the inner loop performs the calls of row a, in order |
| Game.World.HandleCollisions | game/world.go:45-54 | the calls are exactly Pairs(n), in order, and the bodies end as Resolve leaves them after each call in turn |
| Game.NextCall | game/world.go:47-53 | the next call is defined, and it extends the calls made so far by (a, b) |

## Left out

- **Rendering and I/O** are not modelled: SDL, drawing, textures, events, `Render`, `Draw`, `PolygonPolygonCollisionDebugger` (collision/collision.go:324-332), `game/game.go`, `main.go` and logging. Frame timing (`FPS`, `MILLISECONDS_PER_FRAME`) is not part of the physics.
- **Floating point** is not modelled: scalars are reals. `float32` and `float64` rounding, the `float32` ↔ `float64` conversions, NaN and infinities are out of scope, and so is `Particle`'s `float32` mass.
- **Search sentinels.** The source's searches start from sentinels, which the model replaces by initialising from the first element. Polygons are required to have at least one vertex (`IsPolygon`).
  - `calculatePolygonCircleCollision` starts from `math.Inf(-1)` (collision/collision.go:58). There the two agree on every non-empty list.
  - `calculatePenetration` starts from `float64(math.MinInt)` (collision/collision.go:201) and `float64(math.MaxInt)` (line 209), with strict comparisons (lines 218, 224). The two agree only when some separation of each edge is below `float64(math.MaxInt)` (about 9.2·10^18) and some edge's minimum is above `float64(math.MinInt)`. Otherwise Go keeps the sentinel and a zero edge or vertex, while `PenetrationOf` returns the actual extremum.
- **Division by zero.** The model excludes, through preconditions, the inputs on which the source divides by zero or takes the unit vector of a zero vector:
  - circles with coincident centres (`CircleCircleDefined`);
  - a circle centred on the vertex of a vertex contact (`RegionDefined`);
  - zero masses or inverse-mass sums (`PenetrationDefined`, `MassesDefined`);
  - zero moments of inertia or impulse denominators (`ImpulseDefined`).

  Go would produce NaN or infinity there.
- **Unseen helpers.** `math.Sqrt`, `Vec2.Normal`, `Vec2.ProjOnTo`, `Vec2.Dot`, `Vec2.Cross`, `Body.AngularVelocityProduct`, `Body.ApplyImpulse` and `Body.Update` belong to a later version of the vector and entities packages. That version is not part of this model.
  - `Dot` and `Cross` are given their textbook definitions.
  - The other helpers are parameters (`Externals`). The results that depend on them are stated in terms of those parameters.
- **Shape dispatch.** The body's `Shape` interface is modelled as the closed choice between the circle and the polygon of the entities package (`RigidBody.Geometry`). `Shape.MomentOfInertia()` (collision/collision.go:317-318) dispatches to entities/circle.go:20-22 and entities/polygon.go:37-45 (`RigidBody.MomentOfInertia`).
- **Assumptions in the helper types.** The types of the `Externals` fields assume things no source file here shows, and the model relies on them:
  - `normal`, `projOnTo`, `angularVelocityProduct`, `applyImpulse` and `update` are pure functions of their arguments, with no side effects.
  - `applyImpulse` yields only a new linear and angular velocity, so `Body.ApplyImpulse` is assumed to change nothing else of its receiver and no other body.
  - `update` yields a new snapshot of the one body it is given, so `Body.Update` is assumed to touch no other body.

  `Collision.ResolveChangesOnlyMotion` and `Game.MaterialStays` rest on the `applyImpulse` assumption. `Game.World.Update` rests on the `update` assumption.
- **Shapes as values.** A body's shape is held as the geometry value the collision code reads. Updating vertices through the shape pointer (`UpdateVertices` on polygons) is not modelled.
- **Force pointers.** The world's `*vector.Vec2` force and torque pointers are held as the vectors they point to. Aliasing between them, or later changes through them, is not modelled.
- **Distinct bodies.** `Game.World` requires its bodies to be distinct objects. The same pointer added twice would alias in Go.
- **Definedness of every call.** `Game.World.HandleCollisions` requires that every `Resolve` call it makes is defined on the states the earlier calls leave (`RunDefined`). The ghost parameters `ok` and `step` stand for Resolve's definedness and effect (`ResolveGuard`, `ResolveStepper`).
- **Tangential impulse.** The tangential impulse in `resolveImpulse` uses the same restitution `e` as the normal one. The code is followed, even though a tangential pass with `e = 0` would be the usual choice.
- **Inactive code.** The commented-out earlier `resolveImpulse` (collision/collision.go:252-273) is not modelled.
- **Other files.** `constraint/joint.go`, `entities/ball.go` and `entities/shape.go` are not part of this model.
- **`closestVertex`.** In `calculatePolygonCircleCollision` it is not kept as a variable: the model reads it as vertex `closestVertexIdx`.
- **`RESTITUTION_COEFFICIENT`** is declared but never read by the modelled code. It is not modelled.
- **Vector.Unit** requires a non-zero vector. Go would return NaN components for the zero vector.
- **Entities.PolygonMomentOfInertia** and `RigidBody.InertiaDefined` require at least four local vertices. For fewer, Go panics with an index out of range at entities/polygon.go:38-39.
- **Physics.NewSpringForce** reads physics/force.go:13-20 with the value semantics of vector/vec2.go. As written, a particle's `Position` is a `physics.Vec2` (entities/particle.go:12), which has no `Subtract`, `Unit` or `Magnitude` (physics/vec2.go:1-20). Also, physics/force.go imports the entities package while entities/particle.go imports the physics package, an import cycle. So force.go does not compile as written either. The model follows the evident intent: the particles' positions are vectors with those operations.
- **Entities.Particle.Integrate** reads entities/particle.go:36-45 with the value semantics of vector/vec2.go. As written, the particle's fields are `physics.Vec2`, whose `Add` and `Multiply` (physics/vec2.go:8-20) update the receiver and return a pointer. Assigning that pointer to a `physics.Vec2` field does not type-check, so the file as written does not compile. The model follows the evident intent: new values computed from the old ones.
