/**
 * The entities package: the circle and polygon shapes (entities/circle.go,
 * entities/polygon.go), the body of entities/body.go with its damped
 * integrator and the particle of entities/particle.go with its undamped one.
 *
 * Shapes and bodies are Go structs updated through pointers, so they are
 * classes here. The pure helpers (box vertices, `EdgeAt`, the moments of
 * inertia, the circle's extent) are functions on the values they read, so
 * the collision code can apply them to snapshots of a body.
 */
module Entities {
  import opened Vector
  import opened Numerics
  import Renderer

  // ---------------------------------------------------------------- circle

  /** entities/circle.go: a circle shape with a colour and an int32 radius. */
  class Circle {
    var Color: Renderer.Hex
    var Radius: int32

    /** CircleShape stores exactly the given radius and colour. */
    constructor CircleShape(radius: int32, color: Renderer.Hex)
      ensures Radius == radius && Color == color
    {
      Radius := radius;
      Color := color;
    }

    /** Paints the circle in the debug colour; the radius stays. */
    method MarkDebug()
      modifies this
      ensures Color == Renderer.DEBUG && Radius == old(Radius)
    {
      Color := Renderer.DEBUG;
    }

    /** Paints the circle white again; the radius stays. */
    method UnMarkDebug()
      modifies this
      ensures Color == Renderer.WHITE && Radius == old(Radius)
    {
      Color := Renderer.WHITE;
    }

    /** A circle has no vertices to move: this changes nothing. */
    method UpdateVertices(position: Vec2, rotation: real)
      ensures Color == old(Color) && Radius == old(Radius)
    {
    }
  }

  /** GetWidth: the diameter of a circle of the given radius. */
  function CircleWidth(radius: int32): (w: real)
    ensures w == CircleHeight(radius)
    ensures w >= 0.0 <==> radius >= 0
  {
    2.0 * radius as real
  }

  /** GetHeight: the same diameter, a circle's bounding box being square. */
  function CircleHeight(radius: int32): (h: real)
    ensures h >= 0.0 <==> radius >= 0
  {
    2.0 * radius as real
  }

  /**
   * The GetWidth by GetHeight box centred on a circle holds the whole
   * circle: a point within the radius of the centre is within half the
   * width of it along x and within half the height along y.
   */
  lemma CircleInBoundingBox(radius: int32, center: Vec2, p: Vec2)
    requires radius >= 0
    requires SquaredLength(Subtract(p, center)) <= Square(radius as real)
    ensures Abs(p.x - center.x) <= CircleWidth(radius) / 2.0
    ensures Abs(p.y - center.y) <= CircleHeight(radius) / 2.0
  {
    var d := Subtract(p, center);
    SquareBound(d.x, radius as real);
    SquareBound(d.y, radius as real);
  }

  /** MomentOfInertia of a circle: half the radius squared (unit mass). */
  function CircleMomentOfInertia(radius: int32): (i: real)
    ensures i >= 0.0
    ensures i == 0.0 <==> radius == 0
    ensures 8.0 * i == Square(CircleWidth(radius))
  {
    0.5 * Square(radius as real)
  }

  // --------------------------------------------------------------- polygon

  /** entities/polygon.go: a polygon with its body-local and world vertices. */
  class Polygon {
    var Color: Renderer.Hex
    var LocalVertices: seq<Vec2>
    var WorldVertices: seq<Vec2>

    /** NewBox: an axis-aligned box centred on the origin, in both vertex lists. */
    constructor NewBox(color: Renderer.Hex, width: real, height: real)
      ensures Color == color
      ensures LocalVertices == BoxVertices(width, height)
      ensures WorldVertices == BoxVertices(width, height)
    {
      Color := color;
      LocalVertices := BoxVertices(width, height);
      WorldVertices := BoxVertices(width, height);
    }

    /** Paints the polygon in the debug colour; the vertex lists stay. */
    method MarkDebug()
      modifies this
      ensures Color == Renderer.DEBUG
      ensures LocalVertices == old(LocalVertices) && WorldVertices == old(WorldVertices)
    {
      Color := Renderer.DEBUG;
    }

    /** Paints the polygon white again; the vertex lists stay. */
    method UnMarkDebug()
      modifies this
      ensures Color == Renderer.WHITE
      ensures LocalVertices == old(LocalVertices) && WorldVertices == old(WorldVertices)
    {
      Color := Renderer.WHITE;
    }
  }

  /**
   * The four corners NewBox lays out, from the top-left clockwise on a
   * screen whose y axis points down (counter-clockwise with y up): the box
   * starts at (-w/2, -h/2), its edges are (w, 0), (0, h), (-w, 0), (0, -h),
   * and its corners average to the origin.
   */
  function BoxVertices(width: real, height: real): (vs: seq<Vec2>)
    ensures |vs| == 4
    ensures vs[0] == Vec2(-width / 2.0, -height / 2.0)
    ensures Edges(vs) == [Vec2(width, 0.0), Vec2(0.0, height), Vec2(-width, 0.0), Vec2(0.0, -height)]
    ensures Sum(vs) == Zero
  {
    var vs := [
      Vec2(-width / 2.0, -height / 2.0),
      Vec2(width / 2.0, -height / 2.0),
      Vec2(width / 2.0, height / 2.0),
      Vec2(-width / 2.0, height / 2.0)];
    assert Edges(vs)[3] == Vec2(0.0, -height);
    SumAppend([vs[0], vs[1], vs[2]], vs[3]);
    SumAppend([vs[0], vs[1]], vs[2]);
    SumAppend([vs[0]], vs[1]);
    SumAppend([], vs[0]);
    assert [vs[0]] == [] + [vs[0]];
    assert [vs[0], vs[1]] == [vs[0]] + [vs[1]];
    assert [vs[0], vs[1], vs[2]] == [vs[0], vs[1]] + [vs[2]];
    assert vs == [vs[0], vs[1], vs[2]] + [vs[3]];
    vs
  }

  /**
   * EdgeAt: the vector from vertex idx to the next vertex, the last vertex
   * wrapping around to the first. Go panics on an index outside the list.
   */
  function EdgeAt(vs: seq<Vec2>, idx: int): (e: Vec2)
    requires 0 <= idx < |vs|
    ensures idx + 1 < |vs| ==> Add(vs[idx], e) == vs[idx + 1]
    ensures idx + 1 == |vs| ==> Add(vs[idx], e) == vs[0]
  {
    var next := (idx + 1) % |vs|;
    Subtract(vs[next], vs[idx])
  }

  /** All edges of a polygon, EdgeAt(0) to EdgeAt(n - 1). */
  function Edges(vs: seq<Vec2>): (es: seq<Vec2>)
    ensures |es| == |vs|
  {
    seq(|vs|, i requires 0 <= i < |vs| => EdgeAt(vs, i))
  }

  /** Walking the edges of a closed polygon gets back to the start. */
  lemma EdgesSumToZero(vs: seq<Vec2>)
    ensures Sum(Edges(vs)) == Zero
  {
    if |vs| > 0 {
      var n := |vs|;
      var es := Edges(vs);
      PartialEdgeSum(vs, n - 1);
      assert es[..n - 1] == Edges(vs)[..n - 1];
      assert es[n - 1] == Subtract(vs[0], vs[n - 1]);
    }
  }

  /** The first k edges add up to the vector from vertex 0 to vertex k. */
  lemma {:induction false} PartialEdgeSum(vs: seq<Vec2>, k: nat)
    requires k < |vs|
    ensures Sum(Edges(vs)[..k]) == Subtract(vs[k], vs[0])
  {
    if k > 0 {
      PartialEdgeSum(vs, k - 1);
      assert Edges(vs)[..k][..k - 1] == Edges(vs)[..k - 1];
    }
  }

  /**
   * MomentOfInertia of a polygon: 0.083333 times the sum of the squared
   * lengths of the sides from vertex 0 to vertices 1 and 3 (the box formula
   * (w² + h²) / 12). Go indexes vertices 0, 1 and 3, so four are needed.
   */
  function PolygonMomentOfInertia(sqrt: real -> real, local: seq<Vec2>): (i: real)
    requires IsSqrt(sqrt)
    requires |local| >= 4
    ensures i == 0.083333 * (SquaredLength(Subtract(local[1], local[0])) + SquaredLength(Subtract(local[3], local[0])))
    ensures i >= 0.0
  {
    var width := Magnitude(sqrt, Subtract(local[1], local[0]));
    var height := Magnitude(sqrt, Subtract(local[3], local[0]));
    0.083333 * (Square(width) + Square(height))
  }

  /** Only local vertices 0, 1 and 3 enter the polygon's moment of inertia. */
  lemma InertiaReadsThreeVertices(sqrt: real -> real, a: seq<Vec2>, b: seq<Vec2>)
    requires IsSqrt(sqrt)
    requires |a| >= 4 && |b| >= 4
    requires a[0] == b[0] && a[1] == b[1] && a[3] == b[3]
    ensures PolygonMomentOfInertia(sqrt, a) == PolygonMomentOfInertia(sqrt, b)
  {
  }

  /** A NewBox(w, h) polygon has moment of inertia 0.083333 (w² + h²). */
  lemma BoxMomentOfInertia(sqrt: real -> real, width: real, height: real)
    requires IsSqrt(sqrt)
    ensures PolygonMomentOfInertia(sqrt, BoxVertices(width, height)) == 0.083333 * (Square(width) + Square(height))
  {
    var vs := BoxVertices(width, height);
    assert Subtract(vs[1], vs[0]) == Vec2(width, 0.0);
    assert Subtract(vs[3], vs[0]) == Vec2(0.0, height);
  }

  // ------------------------------------------------------------------ body

  /** entities/body.go: a round body moved by a damped semi-implicit Euler step. */
  class Body {
    var Mass: real
    var Radius: int32
    var Color: Renderer.Hex
    var Position: Vec2
    var Velocity: Vec2
    var Acceleration: Vec2
    var SumForces: Vec2

    /**
     * Integrate: a massless body is left alone. Otherwise the acceleration
     * is the accumulated force over the mass (so mass times acceleration
     * gives the force back), the velocity takes one step of it and is damped
     * by 0.99, the position moves by the new velocity, and the force
     * accumulator is cleared.
     */
    method Integrate(dt: real)
      modifies this
      ensures Mass == old(Mass) && Radius == old(Radius) && Color == old(Color)
      ensures old(Mass) == 0.0 ==> unchanged(this)
      ensures old(Mass) != 0.0 ==>
        && Multiply(Acceleration, Mass) == old(SumForces)
        && Acceleration == Multiply(old(SumForces), 1.0 / Mass)
        && Velocity == Multiply(Add(old(Velocity), Multiply(Acceleration, dt)), 0.99)
        && Position == Add(old(Position), Multiply(Velocity, dt))
        && SumForces == Zero
    {
      if Mass == 0.0 {
        return;
      }
      Acceleration := Multiply(SumForces, 1.0 / Mass);
      AccelerationTimesMass(SumForces, Mass);
      var dampingFactor := 0.99;
      Velocity := Add(Velocity, Multiply(Acceleration, dt));
      Velocity := Multiply(Velocity, dampingFactor);
      Position := Add(Position, Multiply(Velocity, dt));
      SumForces := Vec2(0.0, 0.0);
    }
  }

  /** Newton's second law for the integrators: (F / m) * m == F. */
  lemma AccelerationTimesMass(force: Vec2, mass: real)
    requires mass != 0.0
    ensures Multiply(Multiply(force, 1.0 / mass), mass) == force
  {
    DivideThenMultiply(force.x, mass);
    DivideThenMultiply(force.y, mass);
  }

  lemma DivideThenMultiply(a: real, m: real)
    requires m != 0.0
    ensures a * (1.0 / m) * m == a
  {
  }

  // -------------------------------------------------------------- particle

  /** entities/particle.go: a point mass moved by an undamped Euler step. */
  class Particle {
    var Mass: real
    var Radius: int32
    var Color: Renderer.Hex
    var Position: Vec2
    var Velocity: Vec2
    var Acceleration: Vec2
    var SumForces: Vec2

    /**
     * Integrate: a massless particle is left alone. Otherwise the velocity
     * grows by the force over the mass times dt, the position moves by the
     * updated velocity times dt, and the force accumulator is cleared.
     */
    method Integrate(dt: real)
      modifies this
      ensures Mass == old(Mass) && Radius == old(Radius) && Color == old(Color)
      ensures old(Mass) == 0.0 ==> unchanged(this)
      ensures old(Mass) != 0.0 ==>
        && Multiply(Acceleration, Mass) == old(SumForces)
        && Acceleration == Multiply(old(SumForces), 1.0 / Mass)
        && Velocity == Add(old(Velocity), Multiply(Acceleration, dt))
        && Position == Add(old(Position), Multiply(Velocity, dt))
        && SumForces == Zero
    {
      if Mass == 0.0 {
        return;
      }
      Acceleration := Multiply(SumForces, 1.0 / Mass);
      AccelerationTimesMass(SumForces, Mass);
      Velocity := Add(Velocity, Multiply(Acceleration, dt));
      Position := Add(Position, Multiply(Velocity, dt));
      SumForces := Vec2(0.0, 0.0);
    }
  }
}
