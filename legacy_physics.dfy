/**
  The earlier fixed-step integrator of src/phy_engine.rs and
  src/systems/physics.rs.  Every movable entity either coasts, losing a
  constant amount of speed until it stops, or gains its acceleration whole
  (not scaled by the time step) and is clamped to a maximum speed; then its
  physical translation advances by the new velocity times the step, the old
  translation is kept for interpolation and the accumulated input is
  consumed.  Between two fixed steps the rendered transform is interpolated
  linearly from the previous translation to the current one.
*/
module LegacyPhysics {
  import opened Vectors

  /** `MAX_SPEED` of src/phy_engine.rs. */
  const MaxSpeed: real := 210.0

  /** `DEFAULT_DECELERATION` of src/phy_engine.rs. */
  const DefaultDeceleration: real := 10.0

  /** The player's input accumulated since the last fixed step. */
  datatype AccumulatedInput = AccumulatedInput(vec: Vec2, cnt: int)

  /**
    One entity of the `Movable` queries: physical and previous physical
    translation, accumulated input, velocity, acceleration and the
    translation of its rendered `Transform`.
  */
  datatype Movable = Movable(pos: Vec3, prev: Vec3, input: AccumulatedInput, vel: Vec3, accel: Vec3,
                             transform: Vec3)

  //------------------------------------------------------------------
  // The velocity update
  //------------------------------------------------------------------

  /**
    The new velocity: with no acceleration, zero if `deceleration` is at
    least the speed and otherwise `deceleration` less along the velocity;
    with an acceleration, `v + a`, scaled back to `maxSpeed` when faster.
  */
  function NextVelocity(m: Math, v: Vec3, a: Vec3, maxSpeed: real, deceleration: real): Vec3
    requires m.Lawful()
  {
    if a == Zero3 then
      if deceleration >= m.Length3(v) then Zero3
      else v.Sub(m.NormalizeOrZero3(v).Scale(deceleration))
    else
      var w := v.Add(a);
      if m.Length3(w) > maxSpeed then m.NormalizeOrZero3(w).Scale(maxSpeed) else w
  }

  /** Lengths scale with a non-negative factor: of two roots, the scaled one is `k` times the other. */
  lemma ScaledRoot(v: Vec3, k: real, len: real, l: real)
    requires 0.0 <= k && 0.0 <= len && len * len == v.LengthSq()
    requires 0.0 <= l && l * l == v.Scale(k).LengthSq()
    ensures l == k * len
  {
    ScaleLengthSq3(v, k);
    assert (k * len) * (k * len) == k * k * (len * len);
    MulLeft(k, 0.0, len);
    SquareMonotone(l, k * len);
  }

  /** Scaling by a non-negative factor scales the length by it. */
  lemma ScaledLength(m: Math, v: Vec3, k: real)
    requires m.Lawful() && 0.0 <= k
    ensures m.Length3(v.Scale(k)) == k * m.Length3(v)
  {
    ScaledRoot(v, k, m.Length3(v), m.Length3(v.Scale(k)));
  }

  /** A part `p` of a larger whole `len` is the fraction `p / len` of it, and the rest `1 - p / len`. */
  lemma Fraction(p: real, len: real)
    requires 0.0 <= p < len
    ensures 0.0 <= p / len && p / len * len == p
    ensures 0.0 <= 1.0 - p / len && (1.0 - p / len) * len == len - p
  {
    var q := p / len;
    assert q * len == p;
    assert (1.0 - q) * len == len - q * len;
  }

  /** Taking `v` scaled by `q` off `v` leaves `v` scaled by `1 - q`. */
  lemma SubScaled(v: Vec3, q: real)
    ensures v.Sub(v.Scale(q)) == v.Scale(1.0 - q)
  {
    assert v.x - v.x * q == v.x * (1.0 - q);
    assert v.y - v.y * q == v.y * (1.0 - q);
    assert v.z - v.z * q == v.z * (1.0 - q);
  }

  /**
    Coasting with a non-negative deceleration `d`: a speed of at most `d`
    stops the entity; a larger one keeps the direction and drops by
    exactly `d`.
  */
  lemma Coasting(m: Math, v: Vec3, maxSpeed: real, d: real)
    requires m.Lawful() && 0.0 <= d
    ensures var r := NextVelocity(m, v, Zero3, maxSpeed, d);
      && (m.Length3(v) <= d ==> r == Zero3)
      && (d < m.Length3(v) ==> r == v.Scale(1.0 - d / m.Length3(v)) && m.Length3(r) == m.Length3(v) - d)
  {
    if d < m.Length3(v) {
      SlowedBy(m, v, d);
    }
  }

  /** `v` less `d` along its own direction, for `0 <= d < |v|`, is `v` shortened by exactly `d`. */
  lemma SlowedBy(m: Math, v: Vec3, d: real)
    requires m.Lawful() && 0.0 <= d < m.Length3(v)
    ensures v.Sub(m.NormalizeOrZero3(v).Scale(d)) == v.Scale(1.0 - d / m.Length3(v))
    ensures m.Length3(v.Scale(1.0 - d / m.Length3(v))) == m.Length3(v) - d
  {
    var len := m.Length3(v);
    NormalizedScale(m, v, d);
    SubScaled(v, d / len);
    Fraction(d, len);
    ScaledLength(m, v, 1.0 - d / len);
  }

  /** `v` normalized and scaled to `0 <= s < |v|` is `v` shortened to exactly `s`. */
  lemma ClampedTo(m: Math, v: Vec3, s: real)
    requires m.Lawful() && 0.0 <= s < m.Length3(v)
    ensures m.NormalizeOrZero3(v).Scale(s) == v.Scale(s / m.Length3(v))
    ensures m.Length3(v.Scale(s / m.Length3(v))) == s
  {
    NormalizedScale(m, v, s);
    Fraction(s, m.Length3(v));
    ScaledLength(m, v, s / m.Length3(v));
  }

  /**
    Accelerating: `v + a` is kept when it is within `maxSpeed`, and
    otherwise scaled back along its own direction to exactly `maxSpeed`.
  */
  lemma Accelerating(m: Math, v: Vec3, a: Vec3, maxSpeed: real, d: real)
    requires m.Lawful() && a != Zero3 && 0.0 <= maxSpeed
    ensures m.Length3(v.Add(a)) <= maxSpeed ==> NextVelocity(m, v, a, maxSpeed, d) == v.Add(a)
    ensures maxSpeed < m.Length3(v.Add(a)) ==>
      && NextVelocity(m, v, a, maxSpeed, d) == v.Add(a).Scale(maxSpeed / m.Length3(v.Add(a)))
      && m.Length3(NextVelocity(m, v, a, maxSpeed, d)) == maxSpeed
  {
    if maxSpeed < m.Length3(v.Add(a)) {
      ClampedTo(m, v.Add(a), maxSpeed);
    }
  }

  /**
    The speed cap is an invariant of the update: an entity within
    `maxSpeed` stays within it, whether it coasts or accelerates.
  */
  lemma SpeedCapKept(m: Math, v: Vec3, a: Vec3, maxSpeed: real, d: real)
    requires m.Lawful() && 0.0 <= maxSpeed && 0.0 <= d && m.Length3(v) <= maxSpeed
    ensures m.Length3(NextVelocity(m, v, a, maxSpeed, d)) <= maxSpeed
  {
    if a == Zero3 {
      Coasting(m, v, maxSpeed, d);
    } else {
      Accelerating(m, v, a, maxSpeed, d);
    }
  }

  //------------------------------------------------------------------
  // One fixed step and the rendered interpolation
  //------------------------------------------------------------------

  /**
    One entity after one fixed step of length `dt`: the new velocity, the
    old translation kept as the previous one, the translation advanced by
    the new velocity and the input vector consumed.
  */
  function Advanced(m: Math, b: Movable, dt: real, maxSpeed: real, deceleration: real): Movable
    requires m.Lawful()
  {
    var v := NextVelocity(m, b.vel, b.accel, maxSpeed, deceleration);
    b.(prev := b.pos, pos := b.pos.Add(v.Scale(dt)), vel := v, input := b.input.(vec := Zero2))
  }

  /** The rendered transform `alpha` of the way from the previous translation to the current one. */
  function Interpolated(b: Movable, alpha: real): Movable {
    b.(transform := b.prev.Lerp(b.pos, alpha))
  }

  /**
    The interpolated transform lies on the segment of the last step: at
    `prev + alpha (pos - prev)`, which is the previous translation at zero
    and the current one at one; nothing else changes.
  */
  lemma InterpolatedSpec(b: Movable, alpha: real)
    ensures var r := Interpolated(b, alpha);
      && r.transform == b.prev.Add(b.pos.Sub(b.prev).Scale(alpha))
      && (alpha == 0.0 ==> r.transform == b.prev)
      && (alpha == 1.0 ==> r.transform == b.pos)
      && r.(transform := b.transform) == b
  {
    LerpAlong(b.prev, b.pos, alpha);
    LerpEnds(b.prev, b.pos);
  }

  /** Interpolating from `p` to `q` at `alpha` goes `alpha` of the way along `q - p`. */
  lemma LerpAlong(p: Vec3, q: Vec3, alpha: real)
    ensures p.Lerp(q, alpha) == p.Add(q.Sub(p).Scale(alpha))
  {
    SubScaled(p, alpha);
    Regroup(p, p.Scale(alpha), q.Scale(alpha));
    ScaleSub(p, q, alpha);
  }

  lemma Regroup(p: Vec3, s: Vec3, t: Vec3)
    ensures p.Sub(s).Add(t) == p.Add(t.Sub(s))
  {}

  /** Scaling distributes over the difference. */
  lemma ScaleSub(p: Vec3, q: Vec3, a: real)
    ensures q.Scale(a).Sub(p.Scale(a)) == q.Sub(p).Scale(a)
  {
    assert q.x * a - p.x * a == (q.x - p.x) * a;
    assert q.y * a - p.y * a == (q.y - p.y) * a;
    assert q.z * a - p.z * a == (q.z - p.z) * a;
  }

  /**
    After a fixed step, interpolating at `alpha` renders the entity
    `alpha · dt` seconds along its new velocity from where the step started;
    the input counter and the acceleration are left as they were.
  */
  lemma AdvanceThenInterpolate(m: Math, b: Movable, dt: real, maxSpeed: real, d: real, alpha: real)
    requires m.Lawful()
    ensures var r := Interpolated(Advanced(m, b, dt, maxSpeed, d), alpha);
      && r.prev == b.pos
      && r.transform == b.pos.Add(r.vel.Scale(dt * alpha))
      && r.input == AccumulatedInput(Zero2, b.input.cnt)
      && r.accel == b.accel
  {
    StepLerp(b.pos, NextVelocity(m, b.vel, b.accel, maxSpeed, d), dt, alpha);
  }

  /** Interpolating over a step `v · dt` from `p` at `alpha` lands `alpha · dt` along `v`. */
  lemma StepLerp(p: Vec3, v: Vec3, dt: real, alpha: real)
    ensures p.Lerp(p.Add(v.Scale(dt)), alpha) == p.Add(v.Scale(dt * alpha))
  {
    LerpAlong(p, p.Add(v.Scale(dt)), alpha);
    AddSub(p, v.Scale(dt));
    ScaleTwice(v, dt, alpha);
  }

  lemma AddSub(p: Vec3, u: Vec3)
    ensures p.Add(u).Sub(p) == u
  {}


  //------------------------------------------------------------------
  // The systems
  //------------------------------------------------------------------

  /** The body of the `advance_physics` loop for one entity. */
  method AdvanceOne(m: Math, b: Movable, dt: real, maxSpeed: real, deceleration: real) returns (r: Movable)
    requires m.Lawful()
    ensures r == Advanced(m, b, dt, maxSpeed, deceleration)
    ensures 0.0 <= maxSpeed && 0.0 <= deceleration && m.Length3(b.vel) <= maxSpeed ==> m.Length3(r.vel) <= maxSpeed
  {
    var v := b.vel;
    if b.accel == Zero3 {
      if deceleration >= m.Length3(v) {
        v := Zero3;
      } else {
        var decelerationVec := m.NormalizeOrZero3(v).Scale(deceleration);
        v := v.Sub(decelerationVec);
      }
    } else {
      v := v.Add(b.accel);
      if m.Length3(v) > maxSpeed {
        v := m.NormalizeOrZero3(v).Scale(maxSpeed);
      }
    }
    r := b.(prev := b.pos, pos := b.pos.Add(v.Scale(dt)), vel := v, input := b.input.(vec := Zero2));
    if 0.0 <= maxSpeed && 0.0 <= deceleration && m.Length3(b.vel) <= maxSpeed {
      SpeedCapKept(m, b.vel, b.accel, maxSpeed, deceleration);
    }
  }

  /** Every entity within `maxSpeed`. */
  ghost predicate WithinCap(m: Math, bs: seq<Movable>, maxSpeed: real)
    requires m.Lawful()
  {
    forall k :: 0 <= k < |bs| ==> m.Length3(bs[k].vel) <= maxSpeed
  }

  /**
    `advance_physics` with the maximum speed and the deceleration as
    parameters: every entity takes one fixed step, and the speed cap
    holds afterwards if it held before.
  */
  method AdvancePhysics(m: Math, dt: real, q: array<Movable>, maxSpeed: real, deceleration: real)
    requires m.Lawful()
    modifies q
    ensures forall k :: 0 <= k < q.Length ==> q[k] == Advanced(m, old(q[k]), dt, maxSpeed, deceleration)
    ensures 0.0 <= maxSpeed && 0.0 <= deceleration && WithinCap(m, old(q[..]), maxSpeed) ==> WithinCap(m, q[..], maxSpeed)
  {
    ghost var start := q[..];
    var i := 0;
    while i < q.Length
      invariant 0 <= i <= q.Length
      invariant forall k :: 0 <= k < i ==> q[k] == Advanced(m, start[k], dt, maxSpeed, deceleration)
      invariant forall k :: i <= k < q.Length ==> q[k] == start[k]
      invariant 0.0 <= maxSpeed && 0.0 <= deceleration && WithinCap(m, start, maxSpeed) ==>
        forall k :: 0 <= k < i ==> m.Length3(q[k].vel) <= maxSpeed
    {
      var r := AdvanceOne(m, q[i], dt, maxSpeed, deceleration);
      q[i] := r;
      i := i + 1;
    }
  }

  /** `advance_physics` of src/phy_engine.rs, with its own two constants. */
  method EngineAdvancePhysics(m: Math, dt: real, q: array<Movable>)
    requires m.Lawful()
    modifies q
    ensures forall k :: 0 <= k < q.Length ==> q[k] == Advanced(m, old(q[k]), dt, MaxSpeed, DefaultDeceleration)
    ensures WithinCap(m, old(q[..]), MaxSpeed) ==> WithinCap(m, q[..], MaxSpeed)
  {
    AdvancePhysics(m, dt, q, MaxSpeed, DefaultDeceleration);
  }

  /** `interpolate_rendered_transform`: every rendered transform is interpolated at the overstep fraction `alpha`. */
  method InterpolateRenderedTransform(q: array<Movable>, alpha: real)
    modifies q
    ensures forall k :: 0 <= k < q.Length ==> q[k] == Interpolated(old(q[k]), alpha)
  {
    var i := 0;
    while i < q.Length
      invariant 0 <= i <= q.Length
      invariant forall k :: 0 <= k < i ==> q[k] == Interpolated(old(q[k]), alpha)
      invariant forall k :: i <= k < q.Length ==> q[k] == old(q[k])
    {
      var previous := q[i].prev;
      var current := q[i].pos;
      q[i] := q[i].(transform := previous.Lerp(current, alpha));
      i := i + 1;
    }
  }
}
