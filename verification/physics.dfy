/**
 * The physics package: the in-place vector of physics/vec2.go and the two
 * force constructors of physics/force.go.
 *
 * physics.Vec2's methods change their receiver and return the same pointer,
 * so it is a class whose methods return `this`. The forces are pure
 * functions that build value vectors of the vector package.
 */
module Physics {
  import Vector
  import Entities
  import opened Constants

  /** physics/vec2.go: a vector updated in place. */
  class Vec2 {
    var X: real
    var Y: real

    constructor (x: real, y: real)
      ensures X == x && Y == y
    {
      X := x;
      Y := y;
    }

    /** The receiver's current components as a value vector. */
    function Value(): Vector.Vec2
      reads this
    {
      Vector.Vec2(X, Y)
    }

    /**
     * Add: adds the by-value argument into the receiver, component by
     * component, and returns the receiver itself.
     */
    method Add(other: Vector.Vec2) returns (r: Vec2)
      modifies this
      ensures r == this
      ensures Value() == Vector.Add(old(Value()), other)
    {
      X := X + other.x;
      Y := Y + other.y;
      r := this;
    }

    /** Multiply: scales the receiver in place by n and returns the receiver itself. */
    method Multiply(n: real) returns (r: Vec2)
      modifies this
      ensures r == this
      ensures Value() == Vector.Multiply(old(Value()), n)
    {
      X := X * n;
      Y := Y * n;
      r := this;
    }
  }

  /**
   * `v.Add(*v)`: the argument is a copy taken before the update, so adding
   * a vector to itself doubles it.
   */
  method AddToItself(v: Vec2)
    modifies v
    ensures v.Value() == Vector.Multiply(old(v.Value()), 2.0)
  {
    var r := v.Add(v.Value());
  }

  /**
   * `v.Add(a).Multiply(k)`: the returned pointer is the receiver, so a
   * chained call updates the same vector twice.
   */
  method AddThenScale(v: Vec2, a: Vector.Vec2, k: real)
    modifies v
    ensures v.Value() == Vector.Multiply(Vector.Add(old(v.Value()), a), k)
  {
    var r := v.Add(a);
    r := r.Multiply(k);
  }

  /** `v.Multiply(1)` and `v.Add(0)` leave the receiver as it was. */
  method NeutralUpdates(v: Vec2)
    modifies v
    ensures v.Value() == old(v.Value())
  {
    var r := v.Multiply(1.0);
    r := v.Add(Vector.Zero);
  }

  /**
   * NewWeightForce: a force straight down the screen's y axis whose size
   * is the mass times GRAVITY, so it accelerates every mass by GRAVITY.
   */
  function NewWeightForce(mass: real): (f: Vector.Vec2)
    ensures f.x == 0.0
    ensures mass != 0.0 ==> f.y / mass == GRAVITY
    ensures mass > 0.0 ==> f.y > 0.0
  {
    Vector.Vec2(0.0, mass * GRAVITY)
  }

  /** The weight of two masses together is the sum of their weights. */
  lemma WeightIsAdditive(m1: real, m2: real)
    ensures NewWeightForce(m1 + m2) == Vector.Add(NewWeightForce(m1), NewWeightForce(m2))
  {
  }

  /** The vector from the anchor to the particle. */
  function Offset(particle: Entities.Particle, anchor: Entities.Particle): Vector.Vec2
    reads particle, anchor
  {
    Vector.Subtract(particle.Position, anchor.Position)
  }

  /**
   * NewSpringForce: a Hooke spring between the particle and its anchor.
   * Its size is SPRING_CONSTANT times how far the distance is from
   * SPRING_REST_LENGTH, and it lies along the anchor-to-particle line with
   * the sign that pulls the distance back to the rest length. The unit
   * direction divides by the distance, so the two positions must differ.
   */
  function NewSpringForce(sqrt: real -> real, particle: Entities.Particle, anchor: Entities.Particle): (f: Vector.Vec2)
    reads particle, anchor
    requires Vector.IsSqrt(sqrt)
    requires particle.Position != anchor.Position
    ensures Vector.Magnitude(sqrt, f)
      == SPRING_CONSTANT * Vector.Abs(Vector.Magnitude(sqrt, Offset(particle, anchor)) - SPRING_REST_LENGTH)
    ensures Vector.Dot(f, Vector.Unit(sqrt, Offset(particle, anchor)))
      == -SPRING_CONSTANT * (Vector.Magnitude(sqrt, Offset(particle, anchor)) - SPRING_REST_LENGTH)
    ensures Vector.Magnitude(sqrt, Offset(particle, anchor)) > SPRING_REST_LENGTH
      ==> Vector.Dot(f, Vector.Unit(sqrt, Offset(particle, anchor))) < 0.0
    ensures Vector.Magnitude(sqrt, Offset(particle, anchor)) < SPRING_REST_LENGTH
      ==> Vector.Dot(f, Vector.Unit(sqrt, Offset(particle, anchor))) > 0.0
  {
    var position := Offset(particle, anchor);
    var forceDirection := Vector.Unit(sqrt, position);
    var displacement := Vector.Magnitude(sqrt, position) - SPRING_REST_LENGTH;
    var forceMagnitude := -1.0 * SPRING_CONSTANT * displacement;
    Vector.ScaledUnit(sqrt, position, forceMagnitude);
    Vector.Multiply(forceDirection, forceMagnitude)
  }

  /** At the rest length the spring exerts no force. */
  lemma SpringAtRest(sqrt: real -> real, particle: Entities.Particle, anchor: Entities.Particle)
    requires Vector.IsSqrt(sqrt)
    requires particle.Position != anchor.Position
    requires Vector.Magnitude(sqrt, Offset(particle, anchor)) == SPRING_REST_LENGTH
    ensures NewSpringForce(sqrt, particle, anchor) == Vector.Zero
  {
  }
}
