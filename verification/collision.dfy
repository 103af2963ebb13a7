/**
 * collision/collision.go: narrow-phase collision detection and response.
 *
 * `Resolve` sends a pair of bodies to one of three detectors (circle with
 * circle, polygon with polygon by a separating-axis search, polygon with
 * circle by a closest-edge and neighbour-region classifier). If they touch,
 * it pushes them apart in proportion to their inverse masses and then
 * applies a normal impulse and a friction impulse.
 *
 * The detectors and responses are specified here as functions on body
 * snapshots (`BodyState`). The Go functions that loop or that update bodies
 * through pointers are methods proved equal to those functions.
 */
module Collision {
  import opened Vector
  import opened Numerics
  import opened RigidBody
  import Entities

  datatype Option<T> = None | Some(value: T)

  /**
   * collision.Collision: copies of the two bodies, the contact normal
   * (pointing from A towards B), the contact points and the depth.
   */
  datatype Collision = Collision(
    bodyA: BodyState,
    bodyB: BodyState,
    normal: Vec2,
    start: Vec2,
    end: Vec2,
    depth: real)

  function Max(x: real, y: real): real
  {
    if x >= y then x else y
  }

  function Min(x: real, y: real): real
  {
    if x <= y then x else y
  }

  // ----------------------------------------------------- running min / max

  /**
   * The index a running minimum with a strict `<` ends on: the first
   * index holding the smallest value.
   */
  function ArgMin(xs: seq<real>): (k: nat)
    requires |xs| > 0
    ensures k < |xs|
    ensures forall j :: 0 <= j < |xs| ==> xs[k] <= xs[j]
    ensures forall j :: 0 <= j < k ==> xs[k] < xs[j]
  {
    if |xs| == 1 then 0
    else
      var k := ArgMin(xs[..|xs| - 1]);
      if xs[|xs| - 1] < xs[k] then |xs| - 1 else k
  }

  /**
   * The index a running maximum with a strict `>` ends on: the first
   * index holding the largest value.
   */
  function ArgMax(xs: seq<real>): (k: nat)
    requires |xs| > 0
    ensures k < |xs|
    ensures forall j :: 0 <= j < |xs| ==> xs[j] <= xs[k]
    ensures forall j :: 0 <= j < k ==> xs[j] < xs[k]
  {
    if |xs| == 1 then 0
    else
      var k := ArgMax(xs[..|xs| - 1]);
      if xs[|xs| - 1] > xs[k] then |xs| - 1 else k
  }

  /** One more step of a running minimum over a prefix. */
  lemma ArgMinStep(xs: seq<real>, k: nat)
    requires 0 < k < |xs|
    ensures ArgMin(xs[..k + 1]) == if xs[k] < xs[ArgMin(xs[..k])] then k else ArgMin(xs[..k])
  {
    assert xs[..k + 1][..k] == xs[..k];
  }

  /** One more step of a running maximum over a prefix. */
  lemma ArgMaxStep(xs: seq<real>, k: nat)
    requires 0 < k < |xs|
    ensures ArgMax(xs[..k + 1]) == if xs[k] > xs[ArgMax(xs[..k])] then k else ArgMax(xs[..k])
  {
    assert xs[..k + 1][..k] == xs[..k];
  }

  // ------------------------------------------------ polygon vs polygon

  /**
   * How far vertex j of B lies in front of edge i of A, measured along
   * that edge's normal (negative: behind the edge, inside A's half-plane).
   */
  function Separation(ext: Externals, a: seq<Vec2>, b: seq<Vec2>, i: int, j: int): real
    requires 0 <= i < |a| && 0 <= j < |b|
  {
    Dot(Subtract(b[j], a[i]), ext.normal(Entities.EdgeAt(a, i)))
  }

  /** The separations of all of B's vertices from edge i of A. */
  function Separations(ext: Externals, a: seq<Vec2>, b: seq<Vec2>, i: int): (s: seq<real>)
    requires 0 <= i < |a|
    ensures |s| == |b|
    ensures forall j :: 0 <= j < |b| ==> s[j] == Separation(ext, a, b, i, j)
  {
    seq(|b|, j requires 0 <= j < |b| => Separation(ext, a, b, i, j))
  }

  /** Some vertex of B lies exactly v in front of edge i of A. */
  predicate Attained(ext: Externals, a: seq<Vec2>, b: seq<Vec2>, i: int, v: real)
    requires 0 <= i < |a|
  {
    exists j :: 0 <= j < |b| && Separation(ext, a, b, i, j) == v
  }

  /**
   * For each edge of A, the separation of B's deepest vertex: no vertex
   * of B is further behind that edge, and some vertex is exactly there.
   */
  function EdgeMinima(ext: Externals, a: seq<Vec2>, b: seq<Vec2>): (m: seq<real>)
    requires |b| > 0
    ensures |m| == |a|
    ensures forall i, j :: 0 <= i < |a| && 0 <= j < |b| ==> m[i] <= Separation(ext, a, b, i, j)
    ensures forall i :: 0 <= i < |a| ==> Attained(ext, a, b, i, m[i])
  {
    seq(|a|, i requires 0 <= i < |a| => Separations(ext, a, b, i)[ArgMin(Separations(ext, a, b, i))])
  }

  /** The result of calculatePenetration, with the indices it was found at. */
  datatype Penetration = Penetration(value: real, edgeIndex: nat, vertexIndex: nat, edge: Vec2, vertex: Vec2)

  /**
   * calculatePenetration(A, B): over A's edges, the largest of the
   * smallest separations of B's vertices (a max of mins), with the edge and
   * the vertex attaining it. Both searches keep the first index on ties.
   */
  function PenetrationOf(ext: Externals, a: seq<Vec2>, b: seq<Vec2>): (p: Penetration)
    requires |a| > 0 && |b| > 0
    ensures p.edgeIndex < |a| && p.vertexIndex < |b|
    ensures p.edge == Entities.EdgeAt(a, p.edgeIndex) && p.vertex == b[p.vertexIndex]
    ensures p.value == Separation(ext, a, b, p.edgeIndex, p.vertexIndex)
    ensures forall j :: 0 <= j < |b| ==> p.value <= Separation(ext, a, b, p.edgeIndex, j)
    ensures forall j :: 0 <= j < p.vertexIndex ==> p.value < Separation(ext, a, b, p.edgeIndex, j)
    ensures forall i :: 0 <= i < |a| ==> EdgeMinima(ext, a, b)[i] <= p.value
    ensures forall i :: 0 <= i < p.edgeIndex ==> EdgeMinima(ext, a, b)[i] < p.value
  {
    var minima := EdgeMinima(ext, a, b);
    var i := ArgMax(minima);
    var j := ArgMin(Separations(ext, a, b, i));
    Penetration(minima[i], i, j, Entities.EdgeAt(a, i), b[j])
  }

  /** calculatePenetration: the nested loops with a running min inside a running max. */
  method CalculatePenetration(ext: Externals, a: seq<Vec2>, b: seq<Vec2>)
    returns (penetration: real, collidingEdge: Vec2, collidingVertex: Vec2)
    requires |a| > 0 && |b| > 0
    ensures penetration == PenetrationOf(ext, a, b).value
    ensures collidingEdge == PenetrationOf(ext, a, b).edge
    ensures collidingVertex == PenetrationOf(ext, a, b).vertex
  {
    ghost var minima := EdgeMinima(ext, a, b);
    penetration, collidingEdge, collidingVertex := 0.0, Zero, Zero;
    for idx := 0 to |a|
      invariant idx > 0 ==>
        var best := ArgMax(minima[..idx]);
        && penetration == minima[best]
        && collidingEdge == Entities.EdgeAt(a, best)
        && collidingVertex == b[ArgMin(Separations(ext, a, b, best))]
    {
      var edge := Entities.EdgeAt(a, idx);
      var minPenetration, minVertex := DeepestVertex(ext, a, b, idx);
      if idx > 0 {
        ArgMaxStep(minima, idx);
      }
      if idx == 0 || minPenetration > penetration {
        penetration := minPenetration;
        collidingEdge := edge;
        collidingVertex := minVertex;
      }
    }
    assert minima[..|a|] == minima;
  }

  /**
   * The inner loop of calculatePenetration: the running minimum of the
   * separations of B's vertices from edge idx of A, replaced only on a
   * strictly smaller one.
   */
  method DeepestVertex(ext: Externals, a: seq<Vec2>, b: seq<Vec2>, idx: nat)
    returns (minPenetration: real, minVertex: Vec2)
    requires idx < |a| && |b| > 0
    ensures var seps := Separations(ext, a, b, idx);
            minPenetration == seps[ArgMin(seps)] && minVertex == b[ArgMin(seps)]
  {
    var normal := ext.normal(Entities.EdgeAt(a, idx));
    ghost var seps := Separations(ext, a, b, idx);
    minPenetration, minVertex := 0.0, Zero;
    for k := 0 to |b|
      invariant k > 0 ==>
        var deepest := ArgMin(seps[..k]);
        minPenetration == seps[deepest] && minVertex == b[deepest]
    {
      var vba := Subtract(b[k], a[idx]);
      var currPenetration := Dot(vba, normal);
      if k > 0 {
        ArgMinStep(seps, k);
      }
      if k == 0 || currPenetration < minPenetration {
        minPenetration := currPenetration;
        minVertex := b[k];
      }
    }
    assert seps[..|b|] == seps;
  }

  /** A body whose shape is a polygon with at least one world vertex. */
  predicate IsPolygon(s: BodyState)
  {
    s.shape.PolygonGeometry? && |s.shape.worldVertices| > 0
  }

  predicate IsCircle(s: BodyState)
  {
    s.shape.CircleGeometry?
  }

  /**
   * calculatePolygonPolygonCollision: no contact when either polygon has
   * an edge with all of the other's vertices in front of it. Otherwise the
   * smaller penetration (the larger of two negative numbers) decides the
   * contact, A's edge winning a tie, and the depth is positive.
   */
  function PolygonPolygon(ext: Externals, a: BodyState, b: BodyState): (r: Option<Collision>)
    requires IsPolygon(a) && IsPolygon(b)
    ensures var ab := PenetrationOf(ext, a.shape.worldVertices, b.shape.worldVertices);
            var ba := PenetrationOf(ext, b.shape.worldVertices, a.shape.worldVertices);
            && (r.None? <==> ab.value >= 0.0 || ba.value >= 0.0)
            && (r.Some? ==>
                  && r.value.bodyA == a && r.value.bodyB == b
                  && r.value.depth == -Max(ab.value, ba.value) && r.value.depth > 0.0)
            && (r.Some? && ab.value >= ba.value ==>
                  r.value.normal == ext.normal(ab.edge) && r.value.start == ab.vertex)
            && (r.Some? && ab.value < ba.value ==>
                  r.value.normal == Multiply(ext.normal(ba.edge), -1.0) && r.value.end == ba.vertex)
  {
    var ab := PenetrationOf(ext, a.shape.worldVertices, b.shape.worldVertices);
    var ba := PenetrationOf(ext, b.shape.worldVertices, a.shape.worldVertices);
    if ba.value >= 0.0 || ab.value >= 0.0 then
      None
    else if ab.value >= ba.value then
      var depth := -ab.value;
      var normal := ext.normal(ab.edge);
      Some(Collision(a, b, normal, ab.vertex, Add(ab.vertex, Multiply(normal, depth)), depth))
    else
      var depth := -ba.value;
      var edgeBNormal := ext.normal(ba.edge);
      Some(Collision(a, b, Multiply(edgeBNormal, -1.0), Add(ba.vertex, Multiply(edgeBNormal, depth)), ba.vertex, depth))
  }

  /** The end point of a polygon contact is its start point moved along the normal by the depth. */
  lemma PolygonPolygonGap(ext: Externals, a: BodyState, b: BodyState)
    requires IsPolygon(a) && IsPolygon(b)
    ensures var r := PolygonPolygon(ext, a, b);
            r.Some? ==> Subtract(r.value.end, r.value.start) == Multiply(r.value.normal, r.value.depth)
  {
    var r := PolygonPolygon(ext, a, b);
    if r.Some? {
      var ab := PenetrationOf(ext, a.shape.worldVertices, b.shape.worldVertices);
      var ba := PenetrationOf(ext, b.shape.worldVertices, a.shape.worldVertices);
      if ab.value >= ba.value {
        AddThenSubtract(ab.vertex, Multiply(r.value.normal, r.value.depth));
      } else {
        SubtractAdded(ba.vertex, ext.normal(ba.edge), r.value.depth);
      }
    }
  }

  /** calculatePolygonPolygonCollision, running the two penetration searches. */
  method CalculatePolygonPolygonCollision(ext: Externals, a: BodyState, b: BodyState) returns (r: Option<Collision>)
    requires IsPolygon(a) && IsPolygon(b)
    ensures r == PolygonPolygon(ext, a, b)
  {
    var penetrationAB, edgeA, vertexB := CalculatePenetration(ext, a.shape.worldVertices, b.shape.worldVertices);
    var penetrationBA, edgeB, vertexA := CalculatePenetration(ext, b.shape.worldVertices, a.shape.worldVertices);
    if penetrationBA >= 0.0 || penetrationAB >= 0.0 {
      return None;
    }
    if penetrationAB >= penetrationBA {
      var depth := -penetrationAB;
      var normal := ext.normal(edgeA);
      r := Some(Collision(a, b, normal, vertexB, Add(vertexB, Multiply(normal, depth)), depth));
    } else {
      var depth := -penetrationBA;
      var edgeBNormal := ext.normal(edgeB);
      r := Some(Collision(a, b, Multiply(edgeBNormal, -1.0), Add(vertexA, Multiply(edgeBNormal, depth)), vertexA, depth));
    }
  }

  // -------------------------------------------------- circle vs circle

  /** The radius of a circle body as a real. */
  function Radius(s: BodyState): real
    requires IsCircle(s)
  {
    s.shape.radius as real
  }

  /**
   * Go computes the unit normal only when the circles are not too far
   * apart; for coincident centres that divides by zero, so the model
   * excludes coincident centres unless the (int32) radius sum is negative.
   */
  predicate CircleCircleDefined(a: BodyState, b: BodyState)
    requires IsCircle(a) && IsCircle(b)
  {
    a.position != b.position || AddInt32(a.shape.radius, b.shape.radius) < 0
  }

  /**
   * The contact calculateCirCleCirCleCollission records for circles whose
   * centres differ: the normal is the unit vector from A's centre to B's,
   * the start is B's point deepest towards A, the end is A's point deepest
   * towards B, the end lies (rA + rB - distance) along the normal from the
   * start, and the depth is the length of that gap, |rA + rB - distance|.
   */
  function CircleContact(sqrt: real -> real, a: BodyState, b: BodyState): (c: Collision)
    requires IsSqrt(sqrt)
    requires IsCircle(a) && IsCircle(b) && a.position != b.position
    ensures c.bodyA == a && c.bodyB == b
    ensures Magnitude(sqrt, c.normal) == 1.0
    ensures Multiply(c.normal, Magnitude(sqrt, Subtract(b.position, a.position))) == Subtract(b.position, a.position)
    ensures Add(c.start, Multiply(c.normal, Radius(b))) == b.position
    ensures c.end == Add(a.position, Multiply(c.normal, Radius(a)))
    ensures Subtract(c.end, c.start)
      == Multiply(c.normal, Radius(a) + Radius(b) - Magnitude(sqrt, Subtract(b.position, a.position)))
    ensures c.depth == Abs(Radius(a) + Radius(b) - Magnitude(sqrt, Subtract(b.position, a.position)))
  {
    var d := Subtract(b.position, a.position);
    var collisionNormal := Unit(sqrt, d);
    var start := Subtract(b.position, Multiply(collisionNormal, Radius(b)));
    var end := Add(a.position, Multiply(collisionNormal, Radius(a)));
    CircleContactDepth(sqrt, d, Radius(a), Radius(b), a.position, b.position);
    Collision(a, b, collisionNormal, start, end, Magnitude(sqrt, Subtract(end, start)))
  }

  /** The geometry behind the circle-circle depth. */
  lemma CircleContactDepth(sqrt: real -> real, d: Vec2, ra: real, rb: real, pa: Vec2, pb: Vec2)
    requires IsSqrt(sqrt)
    requires d != Zero && d == Subtract(pb, pa)
    ensures var n := Unit(sqrt, d);
            var gap := Subtract(Add(pa, Multiply(n, ra)), Subtract(pb, Multiply(n, rb)));
            && gap == Multiply(n, ra + rb - Magnitude(sqrt, d))
            && Magnitude(sqrt, gap) == Abs(ra + rb - Magnitude(sqrt, d))
  {
    var n := Unit(sqrt, d);
    var m := Magnitude(sqrt, d);
    assert Multiply(n, m) == d;
    ScaledUnit(sqrt, d, ra + rb - m);
  }

  /**
   * calculateCirCleCirCleCollission: no contact exactly when the centres
   * are further apart than the int32 sum of the radii; otherwise the
   * contact above, whose depth is rA + rB - distance when that sum does not
   * overflow.
   */
  function CircleCircle(ext: Externals, a: BodyState, b: BodyState): (r: Option<Collision>)
    requires ext.Valid()
    requires IsCircle(a) && IsCircle(b) && CircleCircleDefined(a, b)
    ensures r.None? <==> Magnitude(ext.sqrt, Subtract(b.position, a.position)) > AddInt32(a.shape.radius, b.shape.radius) as real
    ensures r.Some? ==> a.position != b.position && r.value == CircleContact(ext.sqrt, a, b)
  {
    var d := Subtract(b.position, a.position);
    var distanceAB := Magnitude(ext.sqrt, d);
    if distanceAB > AddInt32(a.shape.radius, b.shape.radius) as real then
      None
    else
      CentresDiffer(ext.sqrt, a, b);
      Some(CircleContact(ext.sqrt, a, b))
  }

  /**
   * A contact between circles has depth rA + rB - distance when the radius
   * sum does not overflow: the contact is only found within reach, so the
   * absolute value in the depth changes nothing.
   */
  lemma CircleCircleDepth(ext: Externals, a: BodyState, b: BodyState)
    requires ext.Valid()
    requires IsCircle(a) && IsCircle(b) && CircleCircleDefined(a, b)
    ensures var r := CircleCircle(ext, a, b);
            r.Some? && NoOverflow32(a.shape.radius, b.shape.radius) ==>
              r.value.depth == Radius(a) + Radius(b) - Magnitude(ext.sqrt, Subtract(b.position, a.position))
  {
    var r := CircleCircle(ext, a, b);
    if r.Some? {
      var distance := Magnitude(ext.sqrt, Subtract(b.position, a.position));
      DepthWithoutOverflow(a.shape.radius, b.shape.radius, distance, r.value.depth);
    }
  }

  /**
   * Circles within reach have distinct centres: coincident centres with a
   * negative radius sum are out of reach, and with a non-negative sum, where Go
   * would divide by zero, `CircleCircleDefined` excludes them.
   */
  lemma CentresDiffer(sqrt: real -> real, a: BodyState, b: BodyState)
    requires IsSqrt(sqrt)
    requires IsCircle(a) && IsCircle(b) && CircleCircleDefined(a, b)
    requires Magnitude(sqrt, Subtract(b.position, a.position)) <= AddInt32(a.shape.radius, b.shape.radius) as real
    ensures a.position != b.position
  {
    var sum := AddInt32(a.shape.radius, b.shape.radius);
    assert sum < 0 ==> (sum as real) < 0.0;
    assert Magnitude(sqrt, Subtract(b.position, a.position)) >= 0.0;
  }

  /** Within the int32 range the radius sum is the real one, so the depth is not negated. */
  lemma DepthWithoutOverflow(ra: int32, rb: int32, distance: real, depth: real)
    requires distance <= AddInt32(ra, rb) as real
    requires depth == Abs(ra as real + rb as real - distance)
    ensures NoOverflow32(ra, rb) ==> depth == ra as real + rb as real - distance
  {
  }

  // -------------------------------------------------- polygon vs circle

  /**
   * For each vertex i of the polygon, the projection of the vector from
   * that vertex to the circle's centre onto the normal of edge i.
   */
  function Projections(ext: Externals, vs: seq<Vec2>, center: Vec2): (ps: seq<real>)
    ensures |ps| == |vs|
  {
    seq(|vs|, i requires 0 <= i < |vs| => ext.projOnTo(Subtract(center, vs[i]), ext.normal(Entities.EdgeAt(vs, i))))
  }

  /** (i - 1 + n) % n: the previous index, wrapping from 0 to n - 1. */
  function PrevIndex(i: int, n: int): (p: int)
    requires 0 <= i < n
    ensures 0 <= p < n
    ensures i > 0 ==> p == i - 1
    ensures i == 0 ==> p == n - 1
  {
    (i - 1 + n) % n
  }

  /** (i + 1) % n: the next index, wrapping from n - 1 to 0. */
  function NextIndex(i: int, n: int): (p: int)
    requires 0 <= i < n
    ensures 0 <= p < n
    ensures i + 1 < n ==> p == i + 1
    ensures i + 1 == n ==> p == 0
  {
    (i + 1) % n
  }

  /**
   * A face contact on edge idx: the normal is that edge's normal, the
   * start is the circle's point deepest behind the edge (the centre minus
   * the normal times the radius), the depth is the radius minus the
   * centre's projection, and the end lies that depth along the normal.
   */
  function FaceContact(ext: Externals, p: BodyState, c: BodyState, idx: int, closest: real): (col: Collision)
    requires IsPolygon(p) && IsCircle(c) && 0 <= idx < |p.shape.worldVertices|
    ensures col.bodyA == p && col.bodyB == c
    ensures col.normal == ext.normal(Entities.EdgeAt(p.shape.worldVertices, idx))
    ensures Add(col.start, Multiply(col.normal, Radius(c))) == c.position
    ensures col.depth + closest == Radius(c)
    ensures Subtract(col.end, col.start) == Multiply(col.normal, col.depth)
  {
    var normal := ext.normal(Entities.EdgeAt(p.shape.worldVertices, idx));
    var start := Subtract(c.position, Multiply(normal, Radius(c)));
    var depth := Radius(c) - closest;
    var end := Add(start, Multiply(normal, depth));
    Collision(p, c, normal, start, end, depth)
  }

  /**
   * A vertex contact at vertex v: the normal is the unit vector from v to
   * the centre, the start is the centre minus the normal times the radius,
   * the end is v itself, and the depth is the distance between them,
   * |distance(centre, v) - radius|.
   */
  function VertexContact(ext: Externals, p: BodyState, c: BodyState, v: Vec2): (col: Collision)
    requires ext.Valid()
    requires IsPolygon(p) && IsCircle(c) && c.position != v
    ensures col.bodyA == p && col.bodyB == c
    ensures col.end == v
    ensures Magnitude(ext.sqrt, col.normal) == 1.0
    ensures Multiply(col.normal, Magnitude(ext.sqrt, Subtract(c.position, v))) == Subtract(c.position, v)
    ensures Add(col.start, Multiply(col.normal, Radius(c))) == c.position
    ensures col.depth == Abs(Magnitude(ext.sqrt, Subtract(c.position, v)) - Radius(c))
  {
    var d := Subtract(c.position, v);
    var normal := Unit(ext.sqrt, d);
    var start := Subtract(c.position, Multiply(normal, Radius(c)));
    VertexContactDepth(ext.sqrt, d, Radius(c), c.position, v);
    Collision(p, c, normal, start, v, Magnitude(ext.sqrt, Subtract(start, v)))
  }

  lemma VertexContactDepth(sqrt: real -> real, d: Vec2, r: real, center: Vec2, v: Vec2)
    requires IsSqrt(sqrt)
    requires d != Zero && d == Subtract(center, v)
    ensures var n := Unit(sqrt, d);
            Magnitude(sqrt, Subtract(Subtract(center, Multiply(n, r)), v)) == Abs(Magnitude(sqrt, d) - r)
  {
    var n := Unit(sqrt, d);
    var m := Magnitude(sqrt, d);
    assert Multiply(n, m) == d;
    assert Subtract(Subtract(center, Multiply(n, r)), v) == Multiply(n, m - r);
    ScaledUnit(sqrt, d, m - r);
  }

  /**
   * The vertex branches compute a unit vector from a polygon vertex to the
   * circle's centre, which divides by zero when the centre is on that
   * vertex; the model excludes those inputs.
   */
  predicate RegionDefined(p: BodyState, c: BodyState, ps: seq<real>, idx: nat)
    requires IsPolygon(p) && |ps| == |p.shape.worldVertices| && idx < |ps|
  {
    var vs := p.shape.worldVertices;
    var prev := PrevIndex(idx, |vs|);
    var next := NextIndex(idx, |vs|);
    ps[idx] >= 0.0 ==>
      && (ps[prev] > 0.0 ==> c.position != vs[idx])
      && (ps[prev] <= 0.0 && ps[next] > 0.0 ==> c.position != vs[next])
  }

  /**
   * The contact calculatePolygonCircleCollision records once the closest
   * edge idx is known, chosen in this order: a centre behind every edge
   * (negative largest projection) gives a face contact on edge idx; a
   * positive projection on the previous edge gives a vertex contact at
   * vertex idx; a positive one on the next edge gives a vertex contact at
   * the next vertex; anything else is a face contact on edge idx. The
   * record's first body is the polygon, and the depth is not negative when
   * the projection is within the radius.
   */
  function RegionContact(ext: Externals, p: BodyState, c: BodyState, ps: seq<real>, idx: nat): (col: Collision)
    requires ext.Valid() && IsPolygon(p) && IsCircle(c)
    requires |ps| == |p.shape.worldVertices| && idx < |ps| && RegionDefined(p, c, ps, idx)
    ensures var vs := p.shape.worldVertices;
            var prev := PrevIndex(idx, |vs|);
            var next := NextIndex(idx, |vs|);
            && col.bodyA == p && col.bodyB == c
            && (ps[idx] <= Radius(c) ==> col.depth >= 0.0)
            && (ps[idx] < 0.0 ==> col == FaceContact(ext, p, c, idx, ps[idx]))
            && (ps[idx] >= 0.0 && ps[prev] > 0.0 ==> col == VertexContact(ext, p, c, vs[idx]))
            && (ps[idx] >= 0.0 && ps[prev] <= 0.0 && ps[next] > 0.0 ==> col == VertexContact(ext, p, c, vs[next]))
            && (ps[idx] >= 0.0 && ps[prev] <= 0.0 && ps[next] <= 0.0 ==> col == FaceContact(ext, p, c, idx, ps[idx]))
  {
    var vs := p.shape.worldVertices;
    var closestDistance := ps[idx];
    var prevIdx := PrevIndex(idx, |vs|);
    var nextIdx := NextIndex(idx, |vs|);
    if closestDistance < 0.0 then
      FaceContact(ext, p, c, idx, closestDistance)
    else if ps[prevIdx] > 0.0 then
      VertexContact(ext, p, c, vs[idx])
    else if ps[nextIdx] > 0.0 then
      VertexContact(ext, p, c, vs[nextIdx])
    else
      FaceContact(ext, p, c, idx, closestDistance)
  }

  /** The division guard of the vertex branches, for the edge the search picks. */
  ghost predicate PolygonCircleDefined(ext: Externals, p: BodyState, c: BodyState)
    requires IsPolygon(p) && IsCircle(c)
  {
    var ps := Projections(ext, p.shape.worldVertices, c.position);
    ps[ArgMax(ps)] <= Radius(c) ==> RegionDefined(p, c, ps, ArgMax(ps))
  }

  /**
   * calculatePolygonCircleCollision: the edge whose normal projection of
   * the centre is largest (first on ties) is the closest; there is no
   * contact exactly when that projection exceeds the radius, and otherwise
   * the contact is the one its region gives.
   */
  function PolygonCircle(ext: Externals, p: BodyState, c: BodyState): (r: Option<Collision>)
    requires ext.Valid()
    requires IsPolygon(p) && IsCircle(c) && PolygonCircleDefined(ext, p, c)
    ensures var ps := Projections(ext, p.shape.worldVertices, c.position);
            && (r.None? <==> ps[ArgMax(ps)] > Radius(c))
            && (r.Some? ==> r.value == RegionContact(ext, p, c, ps, ArgMax(ps)) && r.value.depth >= 0.0)
  {
    var projections := Projections(ext, p.shape.worldVertices, c.position);
    var closestVertexIdx := ArgMax(projections);
    if projections[closestVertexIdx] > Radius(c) then
      None
    else
      Some(RegionContact(ext, p, c, projections, closestVertexIdx))
  }

  /**
   * The loop of calculatePolygonCircleCollision: it collects the
   * projections of the centre on every edge normal and keeps the running
   * maximum, replacing it only on a strictly larger projection.
   */
  method ClosestEdge(ext: Externals, vs: seq<Vec2>, center: Vec2)
    returns (projections: seq<real>, closestDistance: real, closestVertexIdx: nat)
    requires |vs| > 0
    ensures projections == Projections(ext, vs, center)
    ensures closestVertexIdx == ArgMax(projections) && closestDistance == projections[closestVertexIdx]
  {
    ghost var all := Projections(ext, vs, center);
    closestDistance := 0.0;
    closestVertexIdx := 0;
    projections := [];
    for idx := 0 to |vs|
      invariant projections == all[..idx]
      invariant idx > 0 ==> closestVertexIdx == ArgMax(all[..idx]) && closestDistance == all[closestVertexIdx]
    {
      var edge := Entities.EdgeAt(vs, idx);
      var normal := ext.normal(edge);
      var d := Subtract(center, vs[idx]);
      var proj := ext.projOnTo(d, normal);
      assert all[..idx + 1] == all[..idx] + [proj];
      projections := projections + [proj];
      if idx > 0 {
        ArgMaxStep(all, idx);
      }
      if idx == 0 || proj > closestDistance {
        closestDistance := proj;
        closestVertexIdx := idx;
      }
    }
    assert all[..|vs|] == all;
  }

  /**
   * calculatePolygonCircleCollision: after the search for the closest
   * edge, no contact when the centre lies further out than the radius,
   * otherwise the contact its region gives.
   */
  method CalculatePolygonCircleCollision(ext: Externals, p: BodyState, c: BodyState) returns (r: Option<Collision>)
    requires ext.Valid()
    requires IsPolygon(p) && IsCircle(c) && PolygonCircleDefined(ext, p, c)
    ensures r == PolygonCircle(ext, p, c)
  {
    var projections, closestDistance, closestVertexIdx := ClosestEdge(ext, p.shape.worldVertices, c.position);
    if closestDistance > Radius(c) {
      return None;
    }
    r := Some(RegionContact(ext, p, c, projections, closestVertexIdx));
  }

  // ------------------------------------------------------------ dispatch

  /** What each detector needs to avoid a division by zero or a panic. */
  ghost predicate DetectDefined(ext: Externals, a: BodyState, b: BodyState)
    requires ext.Valid()
  {
    match (a.shape, b.shape)
    case (CircleGeometry(_), CircleGeometry(_)) => CircleCircleDefined(a, b)
    case (PolygonGeometry(_, _), PolygonGeometry(_, _)) => IsPolygon(a) && IsPolygon(b)
    case (PolygonGeometry(_, _), CircleGeometry(_)) => IsPolygon(a) && PolygonCircleDefined(ext, a, b)
    case (CircleGeometry(_), PolygonGeometry(_, _)) => IsPolygon(b) && PolygonCircleDefined(ext, b, a)
  }

  /**
   * The detector `Resolve` picks for the pair's shapes. A circle against a
   * polygon is passed to the polygon-circle detector with the polygon
   * first, so that record's first body is B. Every contact found has a
   * non-negative depth.
   */
  function Detect(ext: Externals, a: BodyState, b: BodyState): (r: Option<Collision>)
    requires ext.Valid() && DetectDefined(ext, a, b)
    ensures r.Some? ==> r.value.depth >= 0.0
    ensures r.Some? && IsCircle(a) && IsPolygon(b) ==> r.value.bodyA == b && r.value.bodyB == a
    ensures r.Some? && !(IsCircle(a) && IsPolygon(b)) ==> r.value.bodyA == a && r.value.bodyB == b
  {
    match (a.shape, b.shape)
    case (CircleGeometry(_), CircleGeometry(_)) => CircleCircle(ext, a, b)
    case (PolygonGeometry(_, _), PolygonGeometry(_, _)) => PolygonPolygon(ext, a, b)
    case (PolygonGeometry(_, _), CircleGeometry(_)) => PolygonCircle(ext, a, b)
    case (CircleGeometry(_), PolygonGeometry(_, _)) => PolygonCircle(ext, b, a)
  }

  // ------------------------------------------------ positional correction

  /** resolvePenetration divides by both masses and by the sum of their inverses. */
  predicate PenetrationDefined(a: BodyState, b: BodyState)
  {
    a.mass != 0.0 && b.mass != 0.0 && 1.0 / a.mass + 1.0 / b.mass != 0.0
  }

  /**
   * The two shares of the depth: they add up to the depth and stand in the
   * ratio of the inverse masses.
   */
  function Shares(depth: real, massA: real, massB: real): (r: (real, real))
    requires massA != 0.0 && massB != 0.0 && 1.0 / massA + 1.0 / massB != 0.0
    ensures r.0 + r.1 == depth
    ensures r.0 * (1.0 / massB) == r.1 * (1.0 / massA)
  {
    var invMassA := 1.0 / massA;
    var invMassB := 1.0 / massB;
    var invSum := invMassA + invMassB;
    SharesSplit(depth, invMassA, invMassB, invSum);
    (depth / invSum * invMassA, depth / invSum * invMassB)
  }

  lemma SharesSplit(depth: real, x: real, y: real, s: real)
    requires s == x + y && s != 0.0
    ensures depth / s * x + depth / s * y == depth
    ensures depth / s * x * y == depth / s * y * x
  {
    var q := depth / s;
    assert q * x + q * y == q * s;
  }

  /**
   * resolvePenetration: a non-static A moves back along the normal by its
   * share and a non-static B forward by its share; a static body stays and
   * its share is not passed on. Only positions change.
   */
  function Depenetrate(c: Collision, a: BodyState, b: BodyState): (r: (BodyState, BodyState))
    requires PenetrationDefined(a, b)
    ensures r.0 == a.(position := r.0.position) && r.1 == b.(position := r.1.position)
    ensures a.isStatic ==> r.0 == a
    ensures b.isStatic ==> r.1 == b
    ensures !a.isStatic ==> Subtract(a.position, r.0.position) == Multiply(c.normal, Shares(c.depth, a.mass, b.mass).0)
    ensures !b.isStatic ==> Subtract(r.1.position, b.position) == Multiply(c.normal, Shares(c.depth, a.mass, b.mass).1)
  {
    var (da, db) := Shares(c.depth, a.mass, b.mass);
    var a' := if !a.isStatic then a.(position := Subtract(a.position, Multiply(c.normal, da))) else a;
    var b' := if !b.isStatic then b.(position := Add(b.position, Multiply(c.normal, db))) else b;
    (a', b')
  }

  /**
   * When neither body is static the correction opens the gap between the
   * two positions by exactly the normal times the depth.
   */
  lemma DepenetrateSeparates(c: Collision, a: BodyState, b: BodyState)
    requires PenetrationDefined(a, b) && !a.isStatic && !b.isStatic
    ensures var r := Depenetrate(c, a, b);
            Subtract(r.1.position, r.0.position) == Add(Subtract(b.position, a.position), Multiply(c.normal, c.depth))
  {
    var (da, db) := Shares(c.depth, a.mass, b.mass);
    ScaleDistributes(c.normal, da, db);
  }

  lemma ScaleDistributes(n: Vec2, x: real, y: real)
    ensures Add(Multiply(n, x), Multiply(n, y)) == Multiply(n, x + y)
  {
  }

  /** resolvePenetration, updating the two bodies in place. */
  method ResolvePenetration(c: Collision, bodyA: Body, bodyB: Body)
    requires bodyA != bodyB
    requires PenetrationDefined(bodyA.State(), bodyB.State())
    modifies bodyA, bodyB
    ensures (bodyA.State(), bodyB.State()) == Depenetrate(c, old(bodyA.State()), old(bodyB.State()))
  {
    var invMassA := 1.0 / bodyA.Mass;
    var invMassB := 1.0 / bodyB.Mass;
    var invSum := invMassA + invMassB;
    var da := c.depth / invSum * invMassA;
    var db := c.depth / invSum * invMassB;
    assert da == Shares(c.depth, bodyA.Mass, bodyB.Mass).0;
    assert db == Shares(c.depth, bodyA.Mass, bodyB.Mass).1;
    if !bodyA.Static {
      bodyA.Position := Subtract(bodyA.Position, Multiply(c.normal, da));
    }
    if !bodyB.Static {
      bodyB.Position := Add(bodyB.Position, Multiply(c.normal, db));
    }
  }

  // ------------------------------------------------------------ impulses

  /** The denominator of calculateImpulse: the effective inverse mass along dir. */
  function ImpulseDenominator(sqrt: real -> real, a: BodyState, b: BodyState, ra: Vec2, rb: Vec2, dir: Vec2): real
    requires IsSqrt(sqrt)
    requires InertiaDefined(a.shape) && InertiaDefined(b.shape)
    requires MomentOfInertia(sqrt, a.shape) != 0.0 && MomentOfInertia(sqrt, b.shape) != 0.0
  {
    var linearDen := a.invMass + b.invMass;
    var angularDenA := Square(Cross(ra, dir)) / MomentOfInertia(sqrt, a.shape);
    var angularDenB := Square(Cross(rb, dir)) / MomentOfInertia(sqrt, b.shape);
    linearDen + angularDenA + angularDenB
  }

  /**
   * The rotational terms only add to the effective inverse mass: the
   * denominator is at least the sum of the two inverse masses.
   */
  lemma DenominatorBoundsInverseMasses(sqrt: real -> real, a: BodyState, b: BodyState, ra: Vec2, rb: Vec2, dir: Vec2)
    requires IsSqrt(sqrt)
    requires InertiaDefined(a.shape) && InertiaDefined(b.shape)
    requires MomentOfInertia(sqrt, a.shape) != 0.0 && MomentOfInertia(sqrt, b.shape) != 0.0
    ensures ImpulseDenominator(sqrt, a, b, ra, rb, dir) >= a.invMass + b.invMass
  {
    var ia := MomentOfInertia(sqrt, a.shape);
    var ib := MomentOfInertia(sqrt, b.shape);
    assert Square(Cross(ra, dir)) / ia >= 0.0;
    assert Square(Cross(rb, dir)) / ib >= 0.0;
  }

  /** What calculateImpulse divides by. */
  predicate ImpulseDefinedAlong(sqrt: real -> real, a: BodyState, b: BodyState, ra: Vec2, rb: Vec2, dir: Vec2)
    requires IsSqrt(sqrt)
  {
    && InertiaDefined(a.shape) && InertiaDefined(b.shape)
    && MomentOfInertia(sqrt, a.shape) != 0.0 && MomentOfInertia(sqrt, b.shape) != 0.0
    && ImpulseDenominator(sqrt, a, b, ra, rb, dir) != 0.0
  }

  /**
   * calculateImpulse: an impulse along dir whose size times the effective
   * inverse mass is -(1 + e) times the relative velocity along dir.
   */
  function CalculateImpulse(sqrt: real -> real, a: BodyState, b: BodyState, vRel: Vec2, ra: Vec2, rb: Vec2, dir: Vec2, e: real): (j: Vec2)
    requires IsSqrt(sqrt)
    requires ImpulseDefinedAlong(sqrt, a, b, ra, rb, dir)
    ensures Multiply(j, ImpulseDenominator(sqrt, a, b, ra, rb, dir)) == Multiply(dir, -(1.0 + e) * Dot(vRel, dir))
  {
    var vRelDirection := Dot(vRel, dir);
    var num := -(1.0 + e) * vRelDirection;
    var den := ImpulseDenominator(sqrt, a, b, ra, rb, dir);
    var jMag := num / den;
    ScaleBack(dir, num, den);
    Multiply(dir, jMag)
  }

  lemma ScaleBack(dir: Vec2, num: real, den: real)
    requires den != 0.0
    ensures Multiply(Multiply(dir, num / den), den) == Multiply(dir, num)
  {
    assert num / den * den == num;
  }

  /** The lever arms: from each body's position to its contact point. */
  function LeverA(c: Collision, a: BodyState): Vec2
  {
    Subtract(c.end, a.position)
  }

  function LeverB(c: Collision, b: BodyState): Vec2
  {
    Subtract(c.start, b.position)
  }

  /** Velocity of A relative to B at the contact, angular parts included. */
  function RelativeVelocity(ext: Externals, c: Collision, a: BodyState, b: BodyState): Vec2
  {
    var va := Add(a.velocity, ext.angularVelocityProduct(a, LeverA(c, a)));
    var vb := Add(b.velocity, ext.angularVelocityProduct(b, LeverB(c, b)));
    Subtract(va, vb)
  }

  /**
   * Seen from the other body, with the contact record's points swapped
   * (so that each lever arm still ends on its own body), the relative
   * velocity is reversed.
   */
  lemma RelativeVelocityReverses(ext: Externals, c: Collision, a: BodyState, b: BodyState)
    ensures RelativeVelocity(ext, c.(start := c.end, end := c.start), b, a)
      == Multiply(RelativeVelocity(ext, c, a, b), -1.0)
  {
    var swapped := c.(start := c.end, end := c.start);
    assert LeverA(swapped, b) == LeverB(c, b);
    assert LeverB(swapped, a) == LeverA(c, a);
  }

  /** What resolveImpulse divides by, along the normal and along its normal. */
  ghost predicate ImpulseDefined(ext: Externals, c: Collision, a: BodyState, b: BodyState)
    requires ext.Valid()
  {
    && ImpulseDefinedAlong(ext.sqrt, a, b, LeverA(c, a), LeverB(c, b), c.normal)
    && ImpulseDefinedAlong(ext.sqrt, a, b, LeverA(c, a), LeverB(c, b), ext.normal(c.normal))
  }

  /**
   * The impulse resolveImpulse applies to A: the normal impulse plus f times
   * the tangential one, both computed with the same e = min(eA, eB), where
   * f = min(fA, fB). A frictionless contact gets the normal impulse alone.
   */
  function TotalImpulse(ext: Externals, c: Collision, a: BodyState, b: BodyState): (j: Vec2)
    requires ext.Valid() && ImpulseDefined(ext, c, a, b)
    ensures Min(a.f, b.f) == 0.0 ==>
      j == CalculateImpulse(ext.sqrt, a, b, RelativeVelocity(ext, c, a, b), LeverA(c, a), LeverB(c, b), c.normal, Min(a.e, b.e))
  {
    var e := Min(a.e, b.e);
    var ra := LeverA(c, a);
    var rb := LeverB(c, b);
    var vRel := RelativeVelocity(ext, c, a, b);
    var jn := CalculateImpulse(ext.sqrt, a, b, vRel, ra, rb, c.normal, e);
    var jt := CalculateImpulse(ext.sqrt, a, b, vRel, ra, rb, ext.normal(c.normal), e);
    NeutralElements(jn);
    Add(jn, Multiply(jt, Min(a.f, b.f)))
  }

  /** Contact points that do not move relative to each other get no impulse at all. */
  lemma NoImpulseWithoutRelativeMotion(ext: Externals, c: Collision, a: BodyState, b: BodyState)
    requires ext.Valid() && ImpulseDefined(ext, c, a, b)
    requires RelativeVelocity(ext, c, a, b) == Zero
    ensures TotalImpulse(ext, c, a, b) == Zero
  {
    var vRel := RelativeVelocity(ext, c, a, b);
    var e := Min(a.e, b.e);
    NoImpulseAtRest(ext.sqrt, a, b, vRel, LeverA(c, a), LeverB(c, b), c.normal, e);
    NoImpulseAtRest(ext.sqrt, a, b, vRel, LeverA(c, a), LeverB(c, b), ext.normal(c.normal), e);
  }

  /** Without relative velocity along a direction there is nothing to cancel: no impulse. */
  lemma NoImpulseAtRest(sqrt: real -> real, a: BodyState, b: BodyState, vRel: Vec2, ra: Vec2, rb: Vec2, dir: Vec2, e: real)
    requires IsSqrt(sqrt)
    requires ImpulseDefinedAlong(sqrt, a, b, ra, rb, dir)
    ensures vRel == Zero ==> CalculateImpulse(sqrt, a, b, vRel, ra, rb, dir, e) == Zero
  {
    if vRel == Zero {
      assert Dot(vRel, dir) == 0.0;
    }
  }

  /**
   * resolveImpulse: a non-static A receives the impulse J at its lever arm
   * and a non-static B the opposite impulse -J at its own; a static body is
   * skipped. Only linear and angular velocities change.
   */
  function ApplyImpulses(ext: Externals, c: Collision, a: BodyState, b: BodyState): (r: (BodyState, BodyState))
    requires ext.Valid() && ImpulseDefined(ext, c, a, b)
    ensures r.0 == a.(velocity := r.0.velocity, angularVelocity := r.0.angularVelocity)
    ensures r.1 == b.(velocity := r.1.velocity, angularVelocity := r.1.angularVelocity)
    ensures a.isStatic ==> r.0 == a
    ensures b.isStatic ==> r.1 == b
    ensures !a.isStatic ==>
      Velocities(r.0.velocity, r.0.angularVelocity) == ext.applyImpulse(a, TotalImpulse(ext, c, a, b), LeverA(c, a))
    ensures !b.isStatic ==>
      Velocities(r.1.velocity, r.1.angularVelocity)
        == ext.applyImpulse(b, Multiply(TotalImpulse(ext, c, a, b), -1.0), LeverB(c, b))
  {
    var j := TotalImpulse(ext, c, a, b);
    var a' := if !a.isStatic then
      var v := ext.applyImpulse(a, j, LeverA(c, a)); a.(velocity := v.linear, angularVelocity := v.angular)
    else a;
    var b' := if !b.isStatic then
      var v := ext.applyImpulse(b, Multiply(j, -1.0), LeverB(c, b)); b.(velocity := v.linear, angularVelocity := v.angular)
    else b;
    (a', b')
  }

  /** resolveImpulse, updating the two bodies in place. */
  method ResolveImpulse(ext: Externals, c: Collision, bodyA: Body, bodyB: Body)
    requires bodyA != bodyB
    requires ext.Valid() && ImpulseDefined(ext, c, bodyA.State(), bodyB.State())
    modifies bodyA, bodyB
    ensures (bodyA.State(), bodyB.State()) == ApplyImpulses(ext, c, old(bodyA.State()), old(bodyB.State()))
  {
    var a := bodyA.State();
    var b := bodyB.State();
    var e := Min(bodyA.E, bodyB.E);
    var ra := Subtract(c.end, bodyA.Position);
    var rb := Subtract(c.start, bodyB.Position);
    var va := Add(bodyA.Velocity, ext.angularVelocityProduct(a, ra));
    var vb := Add(bodyB.Velocity, ext.angularVelocityProduct(b, rb));
    var vRel := Subtract(va, vb);
    var jn := CalculateImpulse(ext.sqrt, a, b, vRel, ra, rb, c.normal, e);
    var jt := CalculateImpulse(ext.sqrt, a, b, vRel, ra, rb, ext.normal(c.normal), e);
    var f := Min(bodyA.F, bodyB.F);
    jt := Multiply(jt, f);
    var j := Add(jn, jt);
    if !bodyA.Static {
      var v := ext.applyImpulse(a, j, ra);
      bodyA.Velocity, bodyA.AngularVelocity := v.linear, v.angular;
    }
    if !bodyB.Static {
      var v := ext.applyImpulse(b, Multiply(j, -1.0), rb);
      bodyB.Velocity, bodyB.AngularVelocity := v.linear, v.angular;
    }
  }

  // ------------------------------------------------------------- resolve

  /** Everything Resolve divides by, given the contact it finds. */
  ghost predicate ResolveDefined(ext: Externals, a: BodyState, b: BodyState)
  {
    && ext.Valid()
    && (!(a.isStatic && b.isStatic) ==>
          && DetectDefined(ext, a, b)
          && (Detect(ext, a, b).Some? ==>
                && PenetrationDefined(a, b)
                && var moved := Depenetrate(Detect(ext, a, b).value, a, b);
                   ImpulseDefined(ext, Detect(ext, a, b).value, moved.0, moved.1)))
  }

  /**
   * Resolve on snapshots: two static bodies are not even tested; otherwise
   * a contact, if found, is corrected positionally and then by impulses,
   * the impulses seeing the corrected positions.
   */
  function ResolveSpec(ext: Externals, a: BodyState, b: BodyState): (r: (Option<Collision>, BodyState, BodyState))
    requires ResolveDefined(ext, a, b)
    ensures a.isStatic && b.isStatic ==> r == (None, a, b)
    ensures !(a.isStatic && b.isStatic) ==> r.0 == Detect(ext, a, b)
    ensures r.0.None? ==> r.1 == a && r.2 == b
  {
    if a.isStatic && b.isStatic then
      (None, a, b)
    else
      match Detect(ext, a, b)
      case None => (None, a, b)
      case Some(c) =>
        var moved := Depenetrate(c, a, b);
        var pushed := ApplyImpulses(ext, c, moved.0, moved.1);
        (Some(c), pushed.0, pushed.1)
  }

  /**
   * The detector calls at the top of Resolve: each shape test is an
   * independent if, and for any pair of shapes exactly one of them fires.
   */
  method DetectCollision(ext: Externals, a: BodyState, b: BodyState) returns (collision: Option<Collision>)
    requires ext.Valid() && DetectDefined(ext, a, b)
    ensures collision == Detect(ext, a, b)
  {
    collision := None;
    if IsCircle(a) && IsCircle(b) {
      collision := CircleCircle(ext, a, b);
    }
    if a.shape.PolygonGeometry? && b.shape.PolygonGeometry? {
      collision := CalculatePolygonPolygonCollision(ext, a, b);
    }
    if a.shape.PolygonGeometry? && IsCircle(b) {
      collision := CalculatePolygonCircleCollision(ext, a, b);
    }
    if IsCircle(a) && b.shape.PolygonGeometry? {
      collision := CalculatePolygonCircleCollision(ext, b, a);
    }
  }

  /** Resolve: detection, then positional correction, then impulses, in place. */
  method Resolve(ext: Externals, bodyA: Body, bodyB: Body) returns (r: Option<Collision>)
    requires bodyA != bodyB
    requires ResolveDefined(ext, bodyA.State(), bodyB.State())
    modifies bodyA, bodyB
    ensures (r, bodyA.State(), bodyB.State()) == ResolveSpec(ext, old(bodyA.State()), old(bodyB.State()))
  {
    if bodyA.Static && bodyB.Static {
      return None;
    }
    var collision := DetectCollision(ext, bodyA.State(), bodyB.State());
    if collision.None? {
      return None;
    }
    ResolvePenetration(collision.value, bodyA, bodyB);
    ResolveImpulse(ext, collision.value, bodyA, bodyB);
    return collision;
  }

  // ------------------------------------------------------------ properties

  /** A static body comes out of Resolve exactly as it went in. */
  lemma StaticBodyNeverChanges(ext: Externals, a: BodyState, b: BodyState)
    requires ResolveDefined(ext, a, b)
    ensures a.isStatic ==> ResolveSpec(ext, a, b).1 == a
    ensures b.isStatic ==> ResolveSpec(ext, a, b).2 == b
  {
  }

  /**
   * Resolve changes only positions, velocities and angular velocities:
   * mass, restitution, friction, shape, rotation and forces stay.
   */
  lemma ResolveChangesOnlyMotion(ext: Externals, a: BodyState, b: BodyState)
    requires ResolveDefined(ext, a, b)
    ensures var r := ResolveSpec(ext, a, b);
            && r.1 == a.(position := r.1.position, velocity := r.1.velocity, angularVelocity := r.1.angularVelocity)
            && r.2 == b.(position := r.2.position, velocity := r.2.velocity, angularVelocity := r.2.angularVelocity)
  {
  }

  /**
   * Two moving circles that overlap without int32 overflow are pushed
   * apart until their centres are exactly rA + rB apart.
   */
  lemma CirclesTouchAfterCorrection(ext: Externals, a: BodyState, b: BodyState)
    requires ext.Valid()
    requires IsCircle(a) && IsCircle(b) && CircleCircleDefined(a, b)
    requires NoOverflow32(a.shape.radius, b.shape.radius)
    requires PenetrationDefined(a, b) && !a.isStatic && !b.isStatic
    requires CircleCircle(ext, a, b).Some?
    ensures var moved := Depenetrate(CircleCircle(ext, a, b).value, a, b);
            Magnitude(ext.sqrt, Subtract(moved.1.position, moved.0.position)) == Radius(a) + Radius(b)
  {
    var c := CircleCircle(ext, a, b).value;
    var d := Subtract(b.position, a.position);
    var distance := Magnitude(ext.sqrt, d);
    CircleCircleDepth(ext, a, b);
    DepenetrateSeparates(c, a, b);
    ScaleDistributes(c.normal, distance, c.depth);
    assert Multiply(c.normal, distance) == d;
    assert Add(d, Multiply(c.normal, c.depth)) == Multiply(c.normal, Radius(a) + Radius(b));
    assert c.normal == Unit(ext.sqrt, d);
    ScaledUnit(ext.sqrt, d, Radius(a) + Radius(b));
    assert distance <= Radius(a) + Radius(b);
  }
}
