/**
 * The value-semantics 2D vector of vector/vec2.go. Every operation builds a
 * new vector and leaves its receiver and argument alone, so each one is a
 * function. Go's float32/float64 components become mathematical reals.
 *
 * `math.Sqrt` is code outside this repository. It is passed in as `sqrt`,
 * and `IsSqrt` states all the model assumes of it.
 */
module Vector {

  datatype Vec2 = Vec2(x: real, y: real)

  const Zero := Vec2(0.0, 0.0)

  /**
   * The product a * a. The second factor goes through `Id` so that the
   * solver's nonlinear arithmetic sees an ordinary two-factor monomial.
   */
  function Square(a: real): (r: real)
    ensures r >= 0.0
    ensures r == 0.0 <==> a == 0.0
  {
    a * Id(a)
  }

  function Id(a: real): real
  {
    a
  }

  /** The square root that `math.Sqrt` computes on non-negative arguments. */
  ghost predicate IsSqrt(sqrt: real -> real)
  {
    forall s :: s >= 0.0 ==> sqrt(s) >= 0.0 && Square(sqrt(s)) == s
  }

  /** Vec2.Add: the component-wise sum (AddThenSubtract, NeutralElements). */
  function Add(a: Vec2, b: Vec2): Vec2
  {
    Vec2(a.x + b.x, a.y + b.y)
  }

  /** Vec2.Subtract: the component-wise difference (AddThenSubtract). */
  function Subtract(a: Vec2, b: Vec2): Vec2
  {
    Vec2(a.x - b.x, a.y - b.y)
  }

  /** Vec2.Multiply: scaling by a factor (NeutralElements, MagnitudeScale). */
  function Multiply(v: Vec2, n: real): Vec2
  {
    Vec2(v.x * n, v.y * n)
  }

  /**
   * Standard 2D dot product a.x*b.x + a.y*b.y (the factors from b go
   * through `Id`, as in `Square`).
   */
  function Dot(a: Vec2, b: Vec2): real
  {
    a.x * Id(b.x) + a.y * Id(b.y)
  }

  /** Standard 2D scalar cross product a.x*b.y - a.y*b.x. */
  function Cross(a: Vec2, b: Vec2): real
  {
    a.x * Id(b.y) - a.y * Id(b.x)
  }

  /** The squared length x*x + y*y, the quantity under the square root. */
  function SquaredLength(v: Vec2): (s: real)
    ensures s >= 0.0
    ensures s == 0.0 <==> v == Zero
  {
    Square(v.x) + Square(v.y)
  }

  /** Length of the vector: the non-negative root of x*x + y*y. */
  function Magnitude(sqrt: real -> real, v: Vec2): (m: real)
    requires IsSqrt(sqrt)
    ensures m >= 0.0 && Square(m) == SquaredLength(v)
    ensures m == 0.0 <==> v == Zero
  {
    sqrt(SquaredLength(v))
  }

  /**
   * The vector divided by its own length. On the zero vector Go divides by
   * zero, so the model requires a non-zero vector.
   */
  function Unit(sqrt: real -> real, v: Vec2): (u: Vec2)
    requires IsSqrt(sqrt)
    requires v != Zero
    ensures Multiply(u, Magnitude(sqrt, v)) == v
    ensures Magnitude(sqrt, u) == 1.0
  {
    var m := Magnitude(sqrt, v);
    var u := Vec2(v.x / m, v.y / m);
    UnitLength(sqrt, v, m, u);
    u
  }

  lemma UnitLength(sqrt: real -> real, v: Vec2, m: real, u: Vec2)
    requires IsSqrt(sqrt)
    requires m > 0.0 && Square(m) == SquaredLength(v)
    requires u == Vec2(v.x / m, v.y / m)
    ensures Multiply(u, m) == v
    ensures Magnitude(sqrt, u) == 1.0
  {
    assert Multiply(u, m) == v;
    ScaledSquaredLength(u, m);
    CancelFactor(SquaredLength(u), Square(m), SquaredLength(Multiply(u, m)));
    SqrtUnique(Magnitude(sqrt, u), 1.0);
  }

  /** Squared length of v scaled by k is k*k times the squared length of v. */
  lemma ScaledSquaredLength(v: Vec2, k: real)
    ensures SquaredLength(Multiply(v, k)) == SquaredLength(v) * Square(k)
  {
  }

  lemma CancelFactor(a: real, b: real, c: real)
    requires b != 0.0 && a * b == c && c == b
    ensures a == 1.0
  {
  }

  lemma SquareAbs(a: real)
    ensures Square(Abs(a)) == Square(a)
  {
  }

  lemma SquareProduct(a: real, b: real)
    ensures Square(a * b) == Square(a) * Square(b)
  {
  }

  /** Two non-negative reals with equal squares are equal. */
  lemma SqrtUnique(a: real, b: real)
    requires a >= 0.0 && b >= 0.0 && Square(a) == Square(b)
    ensures a == b
  {
  }

  /** A number whose square is at most r*r, for r >= 0, lies within r of zero. */
  lemma SquareBound(a: real, r: real)
    requires r >= 0.0 && Square(a) <= Square(r)
    ensures Abs(a) <= r
  {
    SquareAbs(a);
    if Abs(a) > r {
      var b := Abs(a);
      SquareGrows(r, b);
    }
  }

  /** Squaring is strictly increasing on the non-negative reals. */
  lemma SquareGrows(r: real, b: real)
    requires 0.0 <= r < b
    ensures Square(r) < Square(b)
  {
    var low := r * Id(b);
    assert Square(r) <= low by {
      assert r * Id(r) <= r * Id(b);
    }
    assert low < Square(b) by {
      assert (b - r) * Id(b) > 0.0;
    }
  }

  /** Scaling a vector by k scales its length by |k|. */
  lemma MagnitudeScale(sqrt: real -> real, v: Vec2, k: real)
    requires IsSqrt(sqrt)
    ensures Magnitude(sqrt, Multiply(v, k)) == Abs(k) * Magnitude(sqrt, v)
  {
    ScaledSquaredLength(v, k);
    RootOfScaledSquare(Magnitude(sqrt, Multiply(v, k)), Magnitude(sqrt, v), k);
  }

  /** A non-negative root of m*m*k*k is |k|*m. */
  lemma RootOfScaledSquare(r: real, m: real, k: real)
    requires r >= 0.0 && m >= 0.0
    requires Square(r) == Square(m) * Square(k)
    ensures r == Abs(k) * m
  {
    SquareProduct(Abs(k), m);
    SquareAbs(k);
    SqrtUnique(r, Abs(k) * m);
  }

  function Abs(a: real): (r: real)
    ensures r >= 0.0 && (r == a || r == -a)
  {
    if a >= 0.0 then a else -a
  }

  /** Subtract undoes Add: a.Add(b).Subtract(b) == a. */
  lemma AddThenSubtract(a: Vec2, b: Vec2)
    ensures Subtract(Add(a, b), b) == a
  {
  }

  /** Going back from a + n·d to a is going d along the reversed n. */
  lemma SubtractAdded(a: Vec2, n: Vec2, d: real)
    ensures Subtract(a, Add(a, Multiply(n, d))) == Multiply(Multiply(n, -1.0), d)
  {
    assert n.x * -1.0 * d == -(n.x * d);
    assert n.y * -1.0 * d == -(n.y * d);
  }

  /** Multiply(1) is the identity and Add of the zero vector changes nothing. */
  lemma NeutralElements(v: Vec2)
    ensures Multiply(v, 1.0) == v
    ensures Add(v, Zero) == v
  {
  }

  /**
   * Vector sum of a sequence, accumulated left to right from the zero vector
   * (the order in which the world loop adds forces).
   */
  function Sum(vs: seq<Vec2>): Vec2
  {
    if vs == [] then Zero else Add(Sum(vs[..|vs| - 1]), vs[|vs| - 1])
  }

  /** Appending one vector adds it to the sum. */
  lemma SumAppend(vs: seq<Vec2>, v: Vec2)
    ensures Sum(vs + [v]) == Add(Sum(vs), v)
  {
    assert (vs + [v])[..|vs|] == vs;
  }

  /** Scaling one side of a dot product scales the product. */
  lemma DotScaled(a: Vec2, b: Vec2, k: real)
    ensures Dot(Multiply(a, k), b) == k * Dot(a, b)
  {
  }

  /** A unit vector has squared length one. */
  lemma UnitSquaredLength(sqrt: real -> real, v: Vec2)
    requires IsSqrt(sqrt)
    requires v != Zero
    ensures SquaredLength(Unit(sqrt, v)) == 1.0
  {
    var u := Unit(sqrt, v);
    assert Square(Magnitude(sqrt, u)) == SquaredLength(u);
  }

  /** The component of k*a along a is k times a's squared length. */
  lemma DotScaledSelf(a: Vec2, k: real)
    ensures Dot(Multiply(a, k), a) == k * SquaredLength(a)
  {
  }

  /**
   * k times the unit vector of v has length |k| and component k along that
   * unit vector.
   */
  lemma ScaledUnit(sqrt: real -> real, v: Vec2, k: real)
    requires IsSqrt(sqrt)
    requires v != Zero
    ensures Magnitude(sqrt, Multiply(Unit(sqrt, v), k)) == Abs(k)
    ensures Dot(Multiply(Unit(sqrt, v), k), Unit(sqrt, v)) == k
  {
    var u := Unit(sqrt, v);
    MagnitudeScale(sqrt, u, k);
    DotScaledSelf(u, k);
    UnitSquaredLength(sqrt, v);
  }
}
