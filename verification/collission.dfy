/**
 * collission/collision.go: the earlier, circle-only snapshot of the
 * collision package.
 *
 * Detection is the same circle-circle test as the later package, and the
 * record has the same fields, so both are shared with module Collision.
 * The response differs: the positional correction skips contacts shallower
 * than 0.5 and moves static bodies too, and the impulse is purely linear,
 * computed from 1/Mass instead of the stored inverse masses.
 */
module Collission {
  import opened Vector
  import opened RigidBody
  import Collision

  /** Contacts shallower than this are left to the impulse alone. */
  const MIN_PENETRATION: real := 0.5

  /** What the response divides by: both masses and the sum of their inverses. */
  predicate MassesDefined(a: BodyState, b: BodyState)
  {
    a.mass != 0.0 && b.mass != 0.0 && 1.0 / a.mass + 1.0 / b.mass != 0.0
  }

  /**
   * resolvePenetration: nothing moves when the contact is shallower than
   * MIN_PENETRATION. Otherwise A moves back along the normal by its share
   * and B forward by its share, static or not, and the two shares add up
   * to the depth. Only positions change.
   */
  function Depenetrate(c: Collision.Collision, a: BodyState, b: BodyState): (r: (BodyState, BodyState))
    requires MassesDefined(a, b)
    ensures c.depth < MIN_PENETRATION ==> r == (a, b)
    ensures r.0 == a.(position := r.0.position) && r.1 == b.(position := r.1.position)
    ensures c.depth >= MIN_PENETRATION ==>
      && Subtract(a.position, r.0.position) == Multiply(c.normal, Collision.Shares(c.depth, a.mass, b.mass).0)
      && Subtract(r.1.position, b.position) == Multiply(c.normal, Collision.Shares(c.depth, a.mass, b.mass).1)
  {
    if c.depth < MIN_PENETRATION then
      (a, b)
    else
      var (da, db) := Collision.Shares(c.depth, a.mass, b.mass);
      (a.(position := Subtract(a.position, Multiply(c.normal, da))),
       b.(position := Add(b.position, Multiply(c.normal, db))))
  }

  /** resolvePenetration, updating the two bodies in place. */
  method ResolvePenetration(c: Collision.Collision, bodyA: Body, bodyB: Body)
    requires bodyA != bodyB
    requires MassesDefined(bodyA.State(), bodyB.State())
    modifies bodyA, bodyB
    ensures (bodyA.State(), bodyB.State()) == Depenetrate(c, old(bodyA.State()), old(bodyB.State()))
  {
    if c.depth < MIN_PENETRATION {
      return;
    }
    var invMassA := 1.0 / bodyA.Mass;
    var invMassB := 1.0 / bodyB.Mass;
    var invSum := invMassA + invMassB;
    var da := c.depth / invSum * invMassA;
    var db := c.depth / invSum * invMassB;
    assert da == Collision.Shares(c.depth, bodyA.Mass, bodyB.Mass).0;
    assert db == Collision.Shares(c.depth, bodyA.Mass, bodyB.Mass).1;
    bodyA.Position := Subtract(bodyA.Position, Multiply(c.normal, da));
    bodyB.Position := Add(bodyB.Position, Multiply(c.normal, db));
  }

  /** The velocity of A relative to B, measured along the contact normal. */
  function NormalVelocity(c: Collision.Collision, a: BodyState, b: BodyState): real
  {
    Dot(Subtract(a.velocity, b.velocity), c.normal)
  }

  /**
   * jMag of resolveImpulse: its product with the summed inverse masses is
   * -(1 + e) times the normal velocity, with e = min(eA, eB).
   */
  function ImpulseMagnitude(c: Collision.Collision, a: BodyState, b: BodyState): (j: real)
    requires MassesDefined(a, b)
    ensures j * (1.0 / a.mass + 1.0 / b.mass) == -(1.0 + Collision.Min(a.e, b.e)) * NormalVelocity(c, a, b)
  {
    var e := Collision.Min(a.e, b.e);
    var invMassSum := 1.0 / a.mass + 1.0 / b.mass;
    -(1.0 + e) * NormalVelocity(c, a, b) / invMassSum
  }

  /**
   * resolveImpulse: only velocities change, and a static body's not at
   * all. A non-static A gains momentum equal to the impulse, normal times
   * jMag; a non-static B loses the same amount.
   */
  function ApplyImpulse(c: Collision.Collision, a: BodyState, b: BodyState): (r: (BodyState, BodyState))
    requires MassesDefined(a, b)
    ensures r.0 == a.(velocity := r.0.velocity) && r.1 == b.(velocity := r.1.velocity)
    ensures a.isStatic ==> r.0 == a
    ensures b.isStatic ==> r.1 == b
    ensures !a.isStatic ==>
      Multiply(Subtract(r.0.velocity, a.velocity), a.mass) == Multiply(c.normal, ImpulseMagnitude(c, a, b))
    ensures !b.isStatic ==>
      Multiply(Subtract(r.1.velocity, b.velocity), b.mass) == Multiply(c.normal, -ImpulseMagnitude(c, a, b))
  {
    var invMassA := 1.0 / a.mass;
    var invMassB := 1.0 / b.mass;
    var impulse := Multiply(c.normal, ImpulseMagnitude(c, a, b));
    MomentumChange(a.velocity, impulse, a.mass, 1.0);
    MomentumChange(b.velocity, impulse, b.mass, -1.0);
    var a' := if !a.isStatic then a.(velocity := Add(a.velocity, Multiply(impulse, invMassA))) else a;
    var b' := if !b.isStatic then b.(velocity := Subtract(b.velocity, Multiply(impulse, invMassB))) else b;
    (a', b')
  }

  /** Adding (or, for sign -1, taking away) impulse / m changes m times the velocity by the impulse. */
  lemma MomentumChange(v: Vec2, impulse: Vec2, m: real, sign: real)
    requires m != 0.0 && (sign == 1.0 || sign == -1.0)
    ensures var v' := if sign == 1.0 then Add(v, Multiply(impulse, 1.0 / m)) else Subtract(v, Multiply(impulse, 1.0 / m));
            Multiply(Subtract(v', v), m) == Multiply(impulse, sign)
  {
    assert impulse.x * (1.0 / m) * m == impulse.x;
    assert impulse.y * (1.0 / m) * m == impulse.y;
  }

  /** resolveImpulse, updating the two bodies in place. */
  method ResolveImpulse(c: Collision.Collision, bodyA: Body, bodyB: Body)
    requires bodyA != bodyB
    requires MassesDefined(bodyA.State(), bodyB.State())
    modifies bodyA, bodyB
    ensures (bodyA.State(), bodyB.State()) == ApplyImpulse(c, old(bodyA.State()), old(bodyB.State()))
  {
    var e := Collision.Min(bodyA.E, bodyB.E);
    var relativeVelocity := Subtract(bodyA.Velocity, bodyB.Velocity);
    var velDotNormal := Dot(relativeVelocity, c.normal);
    var invMassA := 1.0 / bodyA.Mass;
    var invMassB := 1.0 / bodyB.Mass;
    var invMassSum := invMassA + invMassB;
    var jMag := -(1.0 + e) * velDotNormal / invMassSum;
    var impulse := Multiply(c.normal, jMag);
    assert jMag == ImpulseMagnitude(c, bodyA.State(), bodyB.State());
    if !bodyA.Static {
      bodyA.Velocity := Add(bodyA.Velocity, Multiply(impulse, invMassA));
    }
    if !bodyB.Static {
      bodyB.Velocity := Subtract(bodyB.Velocity, Multiply(impulse, invMassB));
    }
  }

  /**
   * Between two moving bodies the impulse conserves linear momentum:
   * mA·ΔvA + mB·ΔvB = 0.
   */
  lemma MomentumConserved(c: Collision.Collision, a: BodyState, b: BodyState)
    requires MassesDefined(a, b) && !a.isStatic && !b.isStatic
    ensures var r := ApplyImpulse(c, a, b);
            Add(Multiply(Subtract(r.0.velocity, a.velocity), a.mass),
                Multiply(Subtract(r.1.velocity, b.velocity), b.mass)) == Zero
  {
  }

  /**
   * Between two moving bodies and along a unit normal, the impulse turns
   * the normal velocity v into -e·v (Newton's law of restitution).
   */
  lemma Restitution(c: Collision.Collision, a: BodyState, b: BodyState)
    requires MassesDefined(a, b) && !a.isStatic && !b.isStatic
    requires SquaredLength(c.normal) == 1.0
    ensures var r := ApplyImpulse(c, a, b);
            NormalVelocity(c, r.0, r.1) == -Collision.Min(a.e, b.e) * NormalVelocity(c, a, b)
  {
    var r := ApplyImpulse(c, a, b);
    var j := ImpulseMagnitude(c, a, b);
    var invMassA := 1.0 / a.mass;
    var invMassB := 1.0 / b.mass;
    var impulse := Multiply(c.normal, j);
    var k := j * (invMassA + invMassB);
    assert Subtract(r.0.velocity, r.1.velocity)
      == Add(Subtract(a.velocity, b.velocity), Multiply(c.normal, k));
    DotAddScaled(Subtract(a.velocity, b.velocity), c.normal, k);
  }

  /** Moving a vector along n by k changes its component along n by k·|n|². */
  lemma DotAddScaled(v: Vec2, n: Vec2, k: real)
    ensures Dot(Add(v, Multiply(n, k)), n) == Dot(v, n) + k * SquaredLength(n)
  {
    DotScaledSelf(n, k);
  }

  /**
   * The snapshot's condition for the whole response: a contact, if any,
   * needs non-zero masses. Non-circle pairs never reach it.
   */
  ghost predicate ResolveCollisionDefined(ext: Externals, a: BodyState, b: BodyState)
  {
    && ext.Valid()
    && (!(a.isStatic && b.isStatic) && Collision.IsCircle(a) && Collision.IsCircle(b) ==>
          && Collision.CircleCircleDefined(a, b)
          && (Collision.CircleCircle(ext, a, b).Some? ==> MassesDefined(a, b)))
  }

  /**
   * ResolveCollision on snapshots: two static bodies and every pair that
   * is not two circles stay as they are; otherwise a circle contact, if
   * found, is corrected positionally and then by the linear impulse.
   */
  function ResolveCollisionSpec(ext: Externals, a: BodyState, b: BodyState): (r: (BodyState, BodyState))
    requires ResolveCollisionDefined(ext, a, b)
    ensures a.isStatic && b.isStatic ==> r == (a, b)
    ensures !(Collision.IsCircle(a) && Collision.IsCircle(b)) ==> r == (a, b)
    ensures r.0.mass == a.mass && r.1.mass == b.mass && r.0.shape == a.shape && r.1.shape == b.shape
  {
    if a.isStatic && b.isStatic then
      (a, b)
    else if Collision.IsCircle(a) && Collision.IsCircle(b) then
      match Collision.CircleCircle(ext, a, b)
      case None => (a, b)
      case Some(c) =>
        var moved := Depenetrate(c, a, b);
        ApplyImpulse(c, moved.0, moved.1)
    else
      (a, b)
  }

  /** ResolveCollision, updating the two bodies in place. */
  method ResolveCollision(ext: Externals, bodyA: Body, bodyB: Body)
    requires bodyA != bodyB
    requires ResolveCollisionDefined(ext, bodyA.State(), bodyB.State())
    modifies bodyA, bodyB
    ensures (bodyA.State(), bodyB.State()) == ResolveCollisionSpec(ext, old(bodyA.State()), old(bodyB.State()))
  {
    if bodyA.Static && bodyB.Static {
      return;
    }
    var a := bodyA.State();
    var b := bodyB.State();
    var collision := Collision.None;
    if Collision.IsCircle(a) && Collision.IsCircle(b) {
      collision := Collision.CircleCircle(ext, a, b);
    }
    if collision.None? {
      return;
    }
    ResolvePenetration(collision.value, bodyA, bodyB);
    ResolveImpulse(collision.value, bodyA, bodyB);
  }

  /** A contact shallower than MIN_PENETRATION leaves every position where it was. */
  lemma ShallowContactKeepsPositions(ext: Externals, a: BodyState, b: BodyState)
    requires ResolveCollisionDefined(ext, a, b)
    requires !(a.isStatic && b.isStatic) && Collision.IsCircle(a) && Collision.IsCircle(b)
    requires Collision.CircleCircle(ext, a, b).Some?
    requires Collision.CircleCircle(ext, a, b).value.depth < MIN_PENETRATION
    ensures ResolveCollisionSpec(ext, a, b).0.position == a.position
    ensures ResolveCollisionSpec(ext, a, b).1.position == b.position
  {
  }
}
