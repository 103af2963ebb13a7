/**
 * game/world.go: the world that owns the bodies and the global forces,
 * applies the forces each frame and resolves collisions between every pair
 * of bodies.
 *
 * The world's lists are sequences the methods reassign. Bodies are shared
 * objects that the world updates in place; the force and torque pointers
 * are held as the vectors they point to.
 */
module Game {
  import opened Vector
  import opened RigidBody
  import Collision
  import Physics
  import opened PairOrder

  /** No body appears twice in the list. */
  predicate Distinct(bodies: seq<Body>)
  {
    forall i, j :: 0 <= i < j < |bodies| ==> bodies[i] != bodies[j]
  }

  /** A running sum that starts from s and adds each vector in turn. */
  function Accumulate(s: Vec2, vs: seq<Vec2>): Vec2
  {
    if vs == [] then s else Add(Accumulate(s, vs[..|vs| - 1]), vs[|vs| - 1])
  }

  /** Adding the vectors one by one adds their sum. */
  lemma {:induction false} AccumulateIsSum(s: Vec2, vs: seq<Vec2>)
    ensures Accumulate(s, vs) == Add(s, Sum(vs))
  {
    if vs != [] {
      AccumulateIsSum(s, vs[..|vs| - 1]);
    }
  }

  /**
   * The body Update hands to Body.Update: its SumForces has grown by its
   * weight, then by every force, then by every torque, in list order.
   */
  function Loaded(s: BodyState, forces: seq<Vec2>, torques: seq<Vec2>): BodyState
  {
    var withWeight := Add(s.sumForces, Physics.NewWeightForce(s.mass));
    s.(sumForces := Accumulate(Accumulate(withWeight, forces), torques))
  }

  /** The forces a body is loaded with add up to weight + ΣForces + ΣTorques. */
  lemma LoadedForces(s: BodyState, forces: seq<Vec2>, torques: seq<Vec2>)
    ensures Loaded(s, forces, torques)
      == s.(sumForces := Add(s.sumForces, Add(Physics.NewWeightForce(s.mass), Add(Sum(forces), Sum(torques)))))
  {
    var weight := Physics.NewWeightForce(s.mass);
    var afterForces := Accumulate(Add(s.sumForces, weight), forces);
    AccumulateIsSum(Add(s.sumForces, weight), forces);
    AccumulateIsSum(afterForces, torques);
    AddAssociates(s.sumForces, weight, Sum(forces), Sum(torques));
  }

  lemma AddAssociates(a: Vec2, b: Vec2, c: Vec2, d: Vec2)
    ensures Add(Add(Add(a, b), c), d) == Add(a, Add(b, Add(c, d)))
  {
  }

  // ------------------------------------------------ resolving in order

  /** The snapshots after one call on a pair of indices. */
  type Step = (seq<BodyState>, (nat, nat)) -> seq<BodyState>

  /** Whether one call on a pair of indices is defined. */
  type Guard = (seq<BodyState>, (nat, nat)) -> bool

  /** The snapshots after the calls on the pairs, one after another. */
  ghost function Run(step: Step, states: seq<BodyState>, pairs: seq<(nat, nat)>): seq<BodyState>
    decreases |pairs|
  {
    if pairs == [] then states
    else step(Run(step, states, pairs[..|pairs| - 1]), pairs[|pairs| - 1])
  }

  /** Every call of the sequence is defined on the snapshots the earlier calls leave. */
  ghost predicate RunDefined(ok: Guard, step: Step, states: seq<BodyState>, pairs: seq<(nat, nat)>)
    decreases |pairs|
  {
    pairs == [] ||
      (RunDefined(ok, step, states, pairs[..|pairs| - 1])
       && ok(Run(step, states, pairs[..|pairs| - 1]), pairs[|pairs| - 1]))
  }

  /** One more call is one more step. */
  lemma RunStep(step: Step, states: seq<BodyState>, pairs: seq<(nat, nat)>, p: (nat, nat))
    ensures Run(step, states, pairs + [p]) == step(Run(step, states, pairs), p)
  {
    assert (pairs + [p])[..|pairs|] == pairs;
  }

  /** Definedness of a call sequence carries over to its prefixes. */
  lemma {:induction false} RunDefinedPrefix(ok: Guard, step: Step, states: seq<BodyState>, pairs: seq<(nat, nat)>, k: nat)
    requires RunDefined(ok, step, states, pairs) && k <= |pairs|
    ensures RunDefined(ok, step, states, pairs[..k])
    decreases |pairs|
  {
    if k < |pairs| {
      RunDefinedPrefix(ok, step, states, pairs[..|pairs| - 1], k);
      assert pairs[..|pairs| - 1][..k] == pairs[..k];
    } else {
      assert pairs[..k] == pairs;
    }
  }

  /** One call of Resolve on bodies a and b of a list of snapshots. */
  function ResolveStep(ext: Externals, states: seq<BodyState>, p: (nat, nat)): (r: seq<BodyState>)
    requires p.0 < p.1 < |states|
    requires Collision.ResolveDefined(ext, states[p.0], states[p.1])
    ensures |r| == |states|
    ensures forall i :: 0 <= i < |states| && i != p.0 && i != p.1 ==> r[i] == states[i]
  {
    var res := Collision.ResolveSpec(ext, states[p.0], states[p.1]);
    states[p.0 := res.1][p.1 := res.2]
  }

  /** Resolve is defined on the pair: both indices in range, the first smaller. */
  ghost predicate ResolvableAt(ext: Externals, states: seq<BodyState>, p: (nat, nat))
  {
    p.0 < p.1 < |states| && Collision.ResolveDefined(ext, states[p.0], states[p.1])
  }

  /** ResolveStep where it is defined, and no change elsewhere. */
  ghost function ResolveAt(ext: Externals, states: seq<BodyState>, p: (nat, nat)): seq<BodyState>
  {
    if ResolvableAt(ext, states, p) then ResolveStep(ext, states, p) else states
  }

  /**
   * `ok` and `step` are ResolvableAt and ResolveAt on every list of
   * snapshots and every pair. The agreement is put to use only where
   * ResolveAt itself is mentioned, so that reasoning about the order of
   * the calls does not unfold what one call does.
   */
  ghost predicate Implements(ext: Externals, ok: Guard, step: Step)
  {
    forall states: seq<BodyState>, p: (nat, nat) {:trigger ResolveAt(ext, states, p)} ::
      ok(states, p) == ResolvableAt(ext, states, p) && step(states, p) == ResolveAt(ext, states, p)
  }

  /** ResolvableAt and ResolveAt as a guard and a step. */
  ghost function ResolveGuard(ext: Externals): Guard
  {
    (states: seq<BodyState>, p: (nat, nat)) => ResolvableAt(ext, states, p)
  }

  ghost function ResolveStepper(ext: Externals): Step
  {
    (states: seq<BodyState>, p: (nat, nat)) => ResolveAt(ext, states, p)
  }

  /** Resolve's guard and step implement it, so Implements can always be met. */
  lemma ResolveImplements(ext: Externals)
    ensures Implements(ext, ResolveGuard(ext), ResolveStepper(ext))
  {
  }

  /** A body that is static keeps its snapshot through any sequence of calls. */
  lemma {:induction false} StaticBodiesStay(ext: Externals, ok: Guard, step: Step, states: seq<BodyState>, pairs: seq<(nat, nat)>, i: int)
    requires Implements(ext, ok, step)
    requires 0 <= i < |states| && states[i].isStatic
    ensures |Run(step, states, pairs)| == |states|
    ensures Run(step, states, pairs)[i] == states[i]
    decreases |pairs|
  {
    if pairs != [] {
      StaticBodiesStay(ext, ok, step, states, pairs[..|pairs| - 1], i);
      var before := Run(step, states, pairs[..|pairs| - 1]);
      var p := pairs[|pairs| - 1];
      var after := ResolveAt(ext, before, p);
      if ResolvableAt(ext, before, p) {
        Collision.StaticBodyNeverChanges(ext, before[p.0], before[p.1]);
      }
    }
  }

  /** Mass, restitution, friction, shape and rotation survive any sequence of calls. */
  lemma {:induction false} MaterialStays(ext: Externals, ok: Guard, step: Step, states: seq<BodyState>, pairs: seq<(nat, nat)>, i: int)
    requires Implements(ext, ok, step)
    requires 0 <= i < |states|
    ensures |Run(step, states, pairs)| == |states|
    ensures var s := Run(step, states, pairs)[i];
            s == states[i].(position := s.position, velocity := s.velocity, angularVelocity := s.angularVelocity)
    decreases |pairs|
  {
    if pairs != [] {
      MaterialStays(ext, ok, step, states, pairs[..|pairs| - 1], i);
      var before := Run(step, states, pairs[..|pairs| - 1]);
      var p := pairs[|pairs| - 1];
      var after := ResolveAt(ext, before, p);
      if ResolvableAt(ext, before, p) {
        Collision.ResolveChangesOnlyMotion(ext, before[p.0], before[p.1]);
      }
    }
  }

  // ------------------------------------------------------------ the world

  class World {
    var Bodies: seq<Body>
    var Forces: seq<Vec2>
    var Torques: seq<Vec2>

    /** The snapshots of the bodies, in list order. */
    function States(): (ss: seq<BodyState>)
      reads this, Bodies
      ensures |ss| == |Bodies|
      ensures forall i :: 0 <= i < |Bodies| ==> ss[i] == Bodies[i].State()
    {
      seq(|Bodies|, i reads this, Bodies requires 0 <= i < |Bodies| => Bodies[i].State())
    }

    /** AddBody: appends one body at the end; the force lists stay. */
    method AddBody(body: Body)
      modifies this
      ensures Bodies == old(Bodies) + [body]
      ensures Forces == old(Forces) && Torques == old(Torques)
    {
      Bodies := Bodies + [body];
    }

    /** AddForce: appends one force at the end of Forces. */
    method AddForce(force: Vec2)
      modifies this
      ensures Forces == old(Forces) + [force]
      ensures Bodies == old(Bodies) && Torques == old(Torques)
    {
      Forces := Forces + [force];
    }

    /** AddTorque: appends to Forces as well; Torques never grows. */
    method AddTorque(torque: Vec2)
      modifies this
      ensures Forces == old(Forces) + [torque]
      ensures Bodies == old(Bodies) && Torques == old(Torques)
    {
      Forces := Forces + [torque];
    }

    /**
     * Update: each body in turn has its weight, every force and every
     * torque added to SumForces and is then updated by Body.Update(dt).
     */
    method Update(ext: Externals, dt: real)
      requires Distinct(Bodies)
      modifies Bodies
      ensures forall i :: 0 <= i < |Bodies| ==>
        Bodies[i].State() == ext.update(Loaded(old(Bodies[i].State()), Forces, Torques), dt)
    {
      for idx := 0 to |Bodies|
        invariant forall i :: 0 <= i < idx ==>
          Bodies[i].State() == ext.update(Loaded(old(Bodies[i].State()), Forces, Torques), dt)
        invariant forall i :: idx <= i < |Bodies| ==> Bodies[i].State() == old(Bodies[i].State())
      {
        var body := Bodies[idx];
        LoadForces(body);
        body.Update(ext, dt);
      }
    }

    /** The body of Update's loop before Body.Update: weight, then forces, then torques. */
    method LoadForces(body: Body)
      modifies body
      ensures body.State() == Loaded(old(body.State()), Forces, Torques)
    {
      ghost var start := body.State();
      var weight := Physics.NewWeightForce(body.Mass);
      body.SumForces := Add(body.SumForces, weight);
      for k := 0 to |Forces|
        invariant body.State() == start.(sumForces := Accumulate(Add(start.sumForces, weight), Forces[..k]))
      {
        assert Forces[..k + 1][..k] == Forces[..k];
        body.SumForces := Add(body.SumForces, Forces[k]);
      }
      assert Forces[..|Forces|] == Forces;
      for k := 0 to |Torques|
        invariant body.State()
          == start.(sumForces := Accumulate(Accumulate(Add(start.sumForces, weight), Forces), Torques[..k]))
      {
        assert Torques[..k + 1][..k] == Torques[..k];
        body.SumForces := Add(body.SumForces, Torques[k]);
      }
      assert Torques[..|Torques|] == Torques;
    }

    /** `collision.Resolve(*bodyA, *bodyB)` on bodies a and b of the list. */
    method ResolvePair(ext: Externals, ghost ok: Guard, ghost step: Step, a: nat, b: nat)
      requires Distinct(Bodies) && a < b < |Bodies|
      requires Implements(ext, ok, step) && ok(States(), (a, b))
      modifies Bodies[a], Bodies[b]
      ensures States() == step(old(States()), (a, b))
    {
      ghost var before := States();
      ghost var after := ResolveAt(ext, before, (a, b));
      var bodyA := Bodies[a];
      var bodyB := Bodies[b];
      var _ := Collision.Resolve(ext, bodyA, bodyB);
      forall i | 0 <= i < |Bodies|
        ensures States()[i] == ResolveStep(ext, before, (a, b))[i]
      {
        if i != a && i != b {
          assert Bodies[i] != bodyA && Bodies[i] != bodyB;
        }
      }
    }

    /**
     * HandleCollisions: Resolve once for every pair a < b, in lexicographic
     * order; the bodies end as the calls leave them, one after another.
     * `ok` and `step` are Resolve's definedness and effect on snapshots
     * (ResolveGuard and ResolveStepper are such a pair).
     */
    method HandleCollisions(ext: Externals, ghost ok: Guard, ghost step: Step) returns (ghost calls: seq<(nat, nat)>)
      requires Distinct(Bodies) && Implements(ext, ok, step)
      requires RunDefined(ok, step, States(), Pairs(|Bodies|))
      modifies Bodies
      ensures calls == Pairs(|Bodies|)
      ensures States() == Run(step, old(States()), Pairs(|Bodies|))
    {
      ghost var start := States();
      var n := |Bodies|;
      calls := [];
      var a := 0;
      while a < n - 1
        invariant 0 <= a <= n
        invariant a <= n - 1 || n == 0
        invariant calls == PairsUpTo(a, n)
        invariant States() == Run(step, start, calls)
      {
        calls := ResolveRow(ext, ok, step, a, start, calls);
        a := a + 1;
      }
      LastRowEmpty(a, n);
    }

    /** The inner loop of HandleCollisions: Resolve on (a, b) for b = a+1 .. n-1. */
    method ResolveRow(ext: Externals, ghost ok: Guard, ghost step: Step, a: nat,
                      ghost start: seq<BodyState>, ghost done: seq<(nat, nat)>)
      returns (ghost calls: seq<(nat, nat)>)
      requires Distinct(Bodies) && a < |Bodies| == |start|
      requires Implements(ext, ok, step)
      requires RunDefined(ok, step, start, Pairs(|Bodies|))
      requires done == PairsUpTo(a, |Bodies|)
      requires States() == Run(step, start, done)
      modifies Bodies
      ensures calls == PairsUpTo(a + 1, |Bodies|)
      ensures States() == Run(step, start, calls)
    {
      var n := |Bodies|;
      calls := done;
      var b := a + 1;
      RowStart(a, n);
      while b < n
        invariant a + 1 <= b <= n
        invariant calls == PairsUpTo(a, n) + Row(a, n)[..b - a - 1]
        invariant States() == Run(step, start, calls)
      {
        NextCall(ok, step, start, n, a, b);
        RunStep(step, start, calls, (a, b));
        ResolvePair(ext, ok, step, a, b);
        calls := calls + [(a, b)];
        b := b + 1;
      }
      RowDone(a, n);
    }
  }

  /**
   * The call on (a, b) after the calls so far is defined on the snapshots
   * those calls leave, and it is the next step of the sequence.
   */
  lemma NextCall(ok: Guard, step: Step, start: seq<BodyState>, n: nat, a: nat, b: nat)
    requires a < b < n
    requires RunDefined(ok, step, start, Pairs(n))
    ensures var calls := PairsUpTo(a, n) + Row(a, n)[..b - a - 1];
            && ok(Run(step, start, calls), (a, b))
            && PairsUpTo(a, n) + Row(a, n)[..b + 1 - a - 1] == calls + [(a, b)]
  {
    var calls := PairsUpTo(a, n) + Row(a, n)[..b - a - 1];
    var next := calls + [(a, b)];
    NextIsPrefix(n, a, b);
    RunDefinedPrefix(ok, step, start, Pairs(n), |next|);
    assert next[..|next| - 1] == calls;
    RowPrefixStep(a, n, b);
  }
}
