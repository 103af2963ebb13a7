/**
 * The rigid body that collision/collision.go and game/world.go work on.
 *
 * That code belongs to a later snapshot of entities.Body than the one in
 * entities/body.go: it also reads `Static`, `InvMass`, the restitution `E`,
 * the friction `F`, the `Shape` and the angular velocity, and it calls the
 * body's `ApplyImpulse`, `AngularVelocityProduct` and `Update`, whose bodies
 * are not part of this model. This module declares that richer body and
 * the value snapshot of it that the collision code reasons about.
 *
 * The shape is held as the geometry the collision code reads (a radius, or
 * the local and world vertex lists of a polygon).
 */
module RigidBody {
  import opened Vector
  import opened Numerics
  import Entities

  /** What a body's Shape contributes: a circle's radius or a polygon's vertices. */
  datatype Geometry =
    | CircleGeometry(radius: int32)
    | PolygonGeometry(localVertices: seq<Vec2>, worldVertices: seq<Vec2>)

  /** A polygon's moment of inertia reads local vertices 0, 1 and 3. */
  predicate InertiaDefined(g: Geometry)
  {
    g.CircleGeometry? || |g.localVertices| >= 4
  }

  /**
   * `Shape.MomentOfInertia()`: the interface call dispatches to the circle
   * or the polygon formula of the entities package.
   */
  function MomentOfInertia(sqrt: real -> real, g: Geometry): (i: real)
    requires IsSqrt(sqrt)
    requires InertiaDefined(g)
    ensures i >= 0.0
    ensures g.CircleGeometry? ==> i == Entities.CircleMomentOfInertia(g.radius)
    ensures g.PolygonGeometry? ==> i == Entities.PolygonMomentOfInertia(sqrt, g.localVertices)
  {
    match g
    case CircleGeometry(radius) => Entities.CircleMomentOfInertia(radius)
    case PolygonGeometry(local, _) => Entities.PolygonMomentOfInertia(sqrt, local)
  }

  /** A copy of every field of a body that the modelled code reads or writes. */
  datatype BodyState = BodyState(
    isStatic: bool,
    mass: real,
    invMass: real,
    e: real,
    f: real,
    shape: Geometry,
    position: Vec2,
    velocity: Vec2,
    rotation: real,
    angularVelocity: real,
    sumForces: Vec2)

  /** The linear and angular velocity a body has after `ApplyImpulse`. */
  datatype Velocities = Velocities(linear: Vec2, angular: real)

  /**
   * The helpers the modelled code calls but whose bodies are not part of
   * this model, passed in as functions:
   *  - `sqrt`: math.Sqrt;
   *  - `normal`: Vec2.Normal, the edge normal;
   *  - `projOnTo`: Vec2.ProjOnTo, the projection of one vector onto another;
   *  - `angularVelocityProduct`: Body.AngularVelocityProduct, w × r;
   *  - `applyImpulse`: the velocities Body.ApplyImpulse(j, r) leaves;
   *  - `update`: the body Body.Update(dt) leaves.
   * Their types assume more than `Valid` states: each is a pure function of
   * its arguments, `applyImpulse` yields only a new linear and angular
   * velocity (the collision code writes back nothing else), and `update`
   * reads and changes only the one body it is given.
   */
  datatype Externals = Externals(
    sqrt: real -> real,
    normal: Vec2 -> Vec2,
    projOnTo: (Vec2, Vec2) -> real,
    angularVelocityProduct: (BodyState, Vec2) -> Vec2,
    applyImpulse: (BodyState, Vec2, Vec2) -> Velocities,
    update: (BodyState, real) -> BodyState)
  {
    /** `sqrt` is a square root; the other helpers are constrained only by their types. */
    ghost predicate Valid()
    {
      IsSqrt(sqrt)
    }
  }

  /** The body of the collision snapshot, updated in place through pointers. */
  class Body {
    var Static: bool
    var Mass: real
    var InvMass: real
    var E: real
    var F: real
    var Shape: Geometry
    var Position: Vec2
    var Velocity: Vec2
    var Rotation: real
    var AngularVelocity: real
    var SumForces: Vec2

    /** The body's current fields as a value. */
    function State(): BodyState
      reads this
    {
      BodyState(Static, Mass, InvMass, E, F, Shape, Position, Velocity, Rotation, AngularVelocity, SumForces)
    }

    /** Body.Update(dt): every field becomes what the helper computes. */
    method Update(ext: Externals, dt: real)
      modifies this
      ensures State() == ext.update(old(State()), dt)
    {
      var s := ext.update(State(), dt);
      Static, Mass, InvMass, E, F, Shape := s.isStatic, s.mass, s.invMass, s.e, s.f, s.shape;
      Position, Velocity, Rotation, AngularVelocity, SumForces := s.position, s.velocity, s.rotation, s.angularVelocity, s.sumForces;
    }
  }
}
