/**
  The fixed-step integrator of src/physics/systems.rs.  Every movable body
  turns its accumulated input into an acceleration, has drag applied on the
  axes it is not accelerating along, gains the acceleration, is clamped to the
  maximum speed and advances; the previous translation is kept for the
  rendered interpolation between two fixed steps.
*/
module Integrator {
  import opened Vectors
  import opened Components
  import opened Collision

  /** `f32::EPSILON`, 2^-23. */
  const Epsilon: real := 0.00000011920928955078125

  //------------------------------------------------------------------
  // Drag on one velocity component
  //------------------------------------------------------------------

  /**
    `apply_drag_component`: a component below `Epsilon` in size is left alone;
    any other is moved towards zero by `drag`, but never past it.
  */
  function Drag(v: real, drag: real): real {
    if Abs(v) < Epsilon then v
    // `v - signum(v) * delta`, with the sign spelled out
    else if v < 0.0 then v + Min(drag, Abs(v))
    else v - Min(drag, Abs(v))
  }

  /** A small component is kept; any other keeps its sign and shrinks by `min(drag, |v|)`. */
  lemma DragSpec(v: real, drag: real)
    ensures Abs(v) < Epsilon ==> Drag(v, drag) == v
    ensures Epsilon <= Abs(v) ==> 0.0 <= Drag(v, drag) * v && Abs(Drag(v, drag)) == Abs(v) - Min(drag, Abs(v))
  {
    if Epsilon <= Abs(v) {
      var r := Drag(v, drag);
      var k := Abs(v) - Min(drag, Abs(v));
      assert 0.0 <= k;
      if v < 0.0 {
        assert r == -k;
        MulLeft(k, 0.0, -v);
      } else {
        assert r == k;
        MulLeft(k, 0.0, v);
      }
    }
  }

  /** A drag at least as large as the component stops it. */
  lemma DragStops(v: real, drag: real)
    requires Epsilon <= Abs(v) <= drag
    ensures Drag(v, drag) == 0.0
  {
    DragSpec(v, drag);
  }

  /** A non-negative drag never speeds a component up. */
  lemma DragSlows(v: real, drag: real)
    requires 0.0 <= drag
    ensures Abs(Drag(v, drag)) <= Abs(v)
  {
    DragSpec(v, drag);
  }

  /** `apply_drag_component`, updating the component it is given. */
  method ApplyDragComponent(v: real, dragModulo: real) returns (r: real)
    ensures r == Drag(v, dragModulo)
  {
    if Abs(v) < Epsilon {
      return v;
    }
    var delta := Min(dragModulo, Abs(v));
    r := if v < 0.0 then v + delta else v - delta;
  }

  //------------------------------------------------------------------
  // One body, one step
  //------------------------------------------------------------------

  /** `input.extend(0.0).normalize_or_zero() * cfg.acceleration`. */
  function Acceleration(m: Math, input: Vec2, a: real): Vec3 {
    m.NormalizeOrZero3(input.Extend(0.0)).Scale(a)
  }

  /** No input gives no acceleration; any other input gives an acceleration of size `|a|` in the plane, whatever its length. */
  lemma AccelerationSpec(m: Math, input: Vec2, a: real)
    requires m.Lawful()
    ensures Acceleration(m, input, a).z == 0.0
    ensures input == Zero2 ==> Acceleration(m, input, a) == Zero3
    ensures input != Zero2 ==> Acceleration(m, input, a).LengthSq() == a * a
    // along the input: the input itself, rescaled to size `a`
    ensures input != Zero2 ==> Acceleration(m, input, a) == input.Extend(0.0).Scale(a / m.Length3(input.Extend(0.0)))
  {
    var w := input.Extend(0.0);
    assert input != Zero2 ==> w != Zero3;
    m.NormalizeOrZero3Spec(w);
    ScaleLengthSq3(m.NormalizeOrZero3(w), a);
    if w != Zero3 {
      NormalizedScale(m, w, a);
    }
  }

  /** The velocity after drag and acceleration and before the speed clamp. */
  function Accelerated(vel: Vec3, accel: Vec3, drag: real, dt: real): Vec3 {
    var x := if accel.x < Epsilon then Drag(vel.x, drag) else vel.x;
    var y := if accel.y < Epsilon then Drag(vel.y, drag) else vel.y;
    Vec3(x, y, vel.z).Add(accel.Scale(dt))
  }

  /** `if |v|² > max² { v = v.normalize_or_zero() * max }`. */
  function ClampSpeed(m: Math, v: Vec3, maxSpeed: real): Vec3 {
    if v.LengthSq() > maxSpeed * maxSpeed then m.NormalizeOrZero3(v).Scale(maxSpeed) else v
  }

  /** A velocity within the limit is untouched; one beyond it is brought exactly to the limit. */
  lemma ClampSpeedSpec(m: Math, v: Vec3, maxSpeed: real)
    requires m.Lawful()
    ensures v.LengthSq() <= maxSpeed * maxSpeed ==> ClampSpeed(m, v, maxSpeed) == v
    ensures maxSpeed * maxSpeed < v.LengthSq() ==> ClampSpeed(m, v, maxSpeed).LengthSq() == maxSpeed * maxSpeed
    ensures ClampSpeed(m, v, maxSpeed).LengthSq() <= maxSpeed * maxSpeed
    // rescaled along itself: |v| times the clamped velocity is maxSpeed times v
    ensures maxSpeed * maxSpeed < v.LengthSq() ==> ClampSpeed(m, v, maxSpeed).Scale(m.Length3(v)) == v.Scale(maxSpeed)
  {
    if v.LengthSq() > maxSpeed * maxSpeed {
      SquaresZero3(v.x, v.y, v.z);
      m.NormalizeOrZero3Spec(v);
      ScaleLengthSq3(m.NormalizeOrZero3(v), maxSpeed);
      ClampAlong(m, v, maxSpeed);
    }
  }

  /** A non-zero `v` normalized and scaled to `s`, times `|v|`, is `v` times `s`. */
  lemma ClampAlong(m: Math, v: Vec3, s: real)
    requires m.Lawful() && v != Zero3
    ensures m.NormalizeOrZero3(v).Scale(s).Scale(m.Length3(v)) == v.Scale(s)
  {
    var len := m.Length3(v);
    NormalizedScale(m, v, s);
    ScaleTwice(v, s / len, len);
    assert s / len * len == s;
  }

  /** `drag_component`: how much drag takes off a component in one step. */
  function DragComponent(cfg: PhysicsConfig, dt: real): real { cfg.drag * dt }

  /** The velocity a step leaves a body with: drag, acceleration, then the speed clamp. */
  function StepVelocity(m: Math, cfg: PhysicsConfig, dt: real, b: Body): Vec3 {
    ClampSpeed(m, Accelerated(b.vel, Acceleration(m, b.input, cfg.acceleration), DragComponent(cfg, dt), dt), cfg.maxSpeed)
  }

  /** The loop body of `advance_physics` for one movable body. */
  function Advanced(m: Math, cfg: PhysicsConfig, dt: real, b: Body): Body {
    Moved(b, Acceleration(m, b.input, cfg.acceleration), StepVelocity(m, cfg, dt, b), dt)
  }

  /** The body with its new acceleration and velocity, moved by `vel * dt`, its input consumed. */
  function Moved(b: Body, accel: Vec3, vel: Vec3, dt: real): Body {
    b.(accel := accel, vel := vel, prev := b.pos, pos := b.pos.Add(vel.Scale(dt)), input := Zero2)
  }

  /**
    What a step promises besides the speed: the acceleration comes from the
    input, the previous translation is the old translation, the translation
    advances by the new velocity, the input accumulator is reset, and nothing
    else changes.
  */
  lemma AdvancedSpec(m: Math, cfg: PhysicsConfig, dt: real, b: Body)
    ensures var r := Advanced(m, cfg, dt, b);
      && r.accel == Acceleration(m, b.input, cfg.acceleration)
      && r.vel == StepVelocity(m, cfg, dt, b)
      && r.prev == b.pos
      && r.pos == b.pos.Add(r.vel.Scale(dt))
      && r.input == Zero2
      && r == b.(accel := r.accel, vel := r.vel, prev := r.prev, pos := r.pos, input := r.input)
  {}

  /** The stages of the new velocity. */
  lemma StepVelocityStages(m: Math, cfg: PhysicsConfig, dt: real, b: Body)
    ensures StepVelocity(m, cfg, dt, b)
      == ClampSpeed(m, Accelerated(b.vel, Acceleration(m, b.input, cfg.acceleration), DragComponent(cfg, dt), dt), cfg.maxSpeed)
  {}

  /** After a step the speed is within `max_speed`. */
  lemma AdvancedSpeed(m: Math, cfg: PhysicsConfig, dt: real, b: Body)
    requires m.Lawful()
    ensures Advanced(m, cfg, dt, b).vel.LengthSq() <= cfg.maxSpeed * cfg.maxSpeed
  {
    AdvancedSpec(m, cfg, dt, b);
    StepVelocityStages(m, cfg, dt, b);
    ClampSpeedSpec(m, Accelerated(b.vel, Acceleration(m, b.input, cfg.acceleration), DragComponent(cfg, dt), dt), cfg.maxSpeed);
  }

  /**
    Drag is applied on an axis exactly when the acceleration along it is
    below `Epsilon`, before the acceleration is added; the vertical
    component is never dragged.
  */
  lemma AcceleratedComponents(vel: Vec3, accel: Vec3, drag: real, dt: real)
    ensures var v := Accelerated(vel, accel, drag, dt);
      && (accel.x < Epsilon ==> v.x == Drag(vel.x, drag) + accel.x * dt)
      && (Epsilon <= accel.x ==> v.x == vel.x + accel.x * dt)
      && (accel.y < Epsilon ==> v.y == Drag(vel.y, drag) + accel.y * dt)
      && (Epsilon <= accel.y ==> v.y == vel.y + accel.y * dt)
      && v.z == vel.z + accel.z * dt
  {}

  /** Scaling by a factor in `[0, 1]` does not enlarge a number. */
  lemma ShrinkScalar(x: real, s: real)
    requires 0.0 <= s <= 1.0
    ensures Abs(x * s) <= Abs(x)
  {
    if x < 0.0 {
      MulLeft(-x, s, 1.0);
      MulLeft(-x, 0.0, s);
      assert x * s == -((-x) * s);
    } else {
      MulLeft(x, s, 1.0);
      MulLeft(x, 0.0, s);
    }
  }

  /** Scaling by a factor in `[0, 1]` does not enlarge any component. */
  lemma ShrinkComponents(v: Vec3, s: real)
    requires 0.0 <= s <= 1.0
    ensures Abs(v.Scale(s).x) <= Abs(v.x) && Abs(v.Scale(s).y) <= Abs(v.y) && Abs(v.Scale(s).z) <= Abs(v.z)
  {
    ShrinkScalar(v.x, s);
    ShrinkScalar(v.y, s);
    ShrinkScalar(v.z, s);
  }

  /** Rescaling a vector from length `len` to a length `max <= len` does not enlarge any component. */
  lemma ShrinkToLength(v: Vec3, len: real, max: real)
    requires 0.0 < len && 0.0 <= max <= len
    ensures var r := v.Scale(1.0 / len).Scale(max);
      Abs(r.x) <= Abs(v.x) && Abs(r.y) <= Abs(v.y) && Abs(r.z) <= Abs(v.z)
  {
    var s := max / len;
    assert s * len == max;
    assert 0.0 <= s by { if s < 0.0 { MulLeftStrict(len, s, 0.0); } }
    assert s <= 1.0 by { if 1.0 < s { MulLeftStrict(len, 1.0, s); } }
    assert (1.0 / len) * max == s;
    ScaleTwice(v, 1.0 / len, max);
    assert v.Scale(1.0 / len).Scale(max) == v.Scale(s);
    ShrinkComponents(v, s);
  }

  /** Clamping the speed to a non-negative maximum does not enlarge any component. */
  lemma ClampShrinks(m: Math, v: Vec3, maxSpeed: real)
    requires m.Lawful() && 0.0 <= maxSpeed
    ensures var r := ClampSpeed(m, v, maxSpeed);
      Abs(r.x) <= Abs(v.x) && Abs(r.y) <= Abs(v.y) && Abs(r.z) <= Abs(v.z)
  {
    if v.LengthSq() > maxSpeed * maxSpeed {
      var len := m.Length3(v);
      SquareMonotone(maxSpeed, len);
      assert maxSpeed < len;
      assert m.NormalizeOrZero3(v) == v.Scale(1.0 / len);
      ShrinkToLength(v, len, maxSpeed);
    }
  }

  /** Without acceleration both horizontal components are dragged and nothing is added. */
  lemma Coasting(vel: Vec3, drag: real, dt: real)
    ensures Accelerated(vel, Zero3, drag, dt) == Vec3(Drag(vel.x, drag), Drag(vel.y, drag), vel.z)
  {}

  /** No input gives no acceleration, whatever `sqrt` yields at zero. */
  lemma NoInputNoAcceleration(m: Math, a: real)
    ensures Acceleration(m, Zero2, a) == Zero3
  {
    var len := m.sqrt(Zero3.LengthSq());
    if len != 0.0 {
      assert Zero3.Scale(1.0 / len) == Zero3;
    }
  }

  /** Without input a step drags both horizontal components and clamps the result. */
  lemma CoastingStep(m: Math, cfg: PhysicsConfig, dt: real, b: Body)
    requires b.input == Zero2
    ensures var d := DragComponent(cfg, dt);
      Advanced(m, cfg, dt, b).vel == ClampSpeed(m, Vec3(Drag(b.vel.x, d), Drag(b.vel.y, d), b.vel.z), cfg.maxSpeed)
  {
    AdvancedSpec(m, cfg, dt, b);
    StepVelocityStages(m, cfg, dt, b);
    NoInputNoAcceleration(m, cfg.acceleration);
    Coasting(b.vel, DragComponent(cfg, dt), dt);
  }

  /**
    With no input and non-negative drag and maximum speed, a step never
    speeds a body up along any axis: it coasts and slows down.
  */
  lemma CoastingSlows(m: Math, cfg: PhysicsConfig, dt: real, b: Body)
    requires m.Lawful() && b.input == Zero2
    requires 0.0 <= DragComponent(cfg, dt) && 0.0 <= cfg.maxSpeed
    ensures var v := Advanced(m, cfg, dt, b).vel;
      Abs(v.x) <= Abs(b.vel.x) && Abs(v.y) <= Abs(b.vel.y) && Abs(v.z) <= Abs(b.vel.z)
  {
    var d := DragComponent(cfg, dt);
    var w := Vec3(Drag(b.vel.x, d), Drag(b.vel.y, d), b.vel.z);
    CoastingStep(m, cfg, dt, b);
    DragSlows(b.vel.x, d);
    DragSlows(b.vel.y, d);
    ClampShrinks(m, w, cfg.maxSpeed);
  }

  //------------------------------------------------------------------
  // The systems
  //------------------------------------------------------------------

  /** Drag on the axes that are not accelerating, then the acceleration times `dt`. */
  method AccelerateVelocity(vel: Vec3, accel: Vec3, dragComponent: real, dt: real) returns (v: Vec3)
    ensures v == Accelerated(vel, accel, dragComponent, dt)
  {
    v := vel;
    if accel.x < Epsilon {
      var x := ApplyDragComponent(v.x, dragComponent);
      v := v.(x := x);
    }
    if accel.y < Epsilon {
      var y := ApplyDragComponent(v.y, dragComponent);
      v := v.(y := y);
    }
    v := v.Add(accel.Scale(dt));
  }

  /** The speed clamp of `advance_physics`. */
  method ClampVelocity(m: Math, cfg: PhysicsConfig, v: Vec3) returns (r: Vec3)
    ensures r == ClampSpeed(m, v, cfg.maxSpeed)
  {
    r := v;
    if r.LengthSq() > cfg.MaxSpeedSq() {
      r := m.NormalizeOrZero3(r).Scale(cfg.maxSpeed);
    }
  }

  /** The loop body of `advance_physics`, on one body's components. */
  method AdvanceBody(m: Math, cfg: PhysicsConfig, dt: real, b: Body) returns (r: Body)
    ensures r == Advanced(m, cfg, dt, b)
  {
    var accel := Acceleration(m, b.input, cfg.acceleration);
    var vel := AccelerateVelocity(b.vel, accel, DragComponent(cfg, dt), dt);
    vel := ClampVelocity(m, cfg, vel);
    StepVelocityStages(m, cfg, dt, b);
    var prev := b.pos;
    var pos := b.pos.Add(vel.Scale(dt));
    r := b.(accel := accel, vel := vel, prev := prev, pos := pos, input := Zero2);
  }

  /** `advance_physics`: every movable body takes one fixed step of length `dt`. */
  method AdvancePhysics(m: Math, cfg: PhysicsConfig, dt: real, bodies: array<Body>)
    modifies bodies
    ensures forall i :: 0 <= i < bodies.Length ==> bodies[i] == Advanced(m, cfg, dt, old(bodies[i]))
  {
    ghost var start := bodies[..];
    for i := 0 to bodies.Length
      invariant forall j :: 0 <= j < i ==> bodies[j] == Advanced(m, cfg, dt, start[j])
      invariant forall j :: i <= j < bodies.Length ==> bodies[j] == start[j]
    {
      bodies[i] := AdvanceBody(m, cfg, dt, bodies[i]);
    }
  }

  /** The rendered translation: `previous.lerp(current, alpha)`. */
  function Rendered(b: Body, alpha: real): (r: Vec3)
    ensures alpha == 0.0 ==> r == b.prev
    ensures alpha == 1.0 ==> r == b.pos
  {
    LerpEnds(b.prev, b.pos);
    b.prev.Lerp(b.pos, alpha)
  }

  /** `interpolate_rendered_transform`: only the rendered translation changes. */
  method InterpolateRenderedTransform(bodies: array<Body>, alpha: real)
    modifies bodies
    ensures forall i :: 0 <= i < bodies.Length ==>
      bodies[i] == old(bodies[i]).(transform := Rendered(old(bodies[i]), alpha))
  {
    for i := 0 to bodies.Length
      invariant forall j :: 0 <= j < i ==> bodies[j] == old(bodies[j]).(transform := Rendered(old(bodies[j]), alpha))
      invariant forall j :: i <= j < bodies.Length ==> bodies[j] == old(bodies[j])
    {
      var previous := bodies[i].prev;
      var current := bodies[i].pos;
      bodies[i] := bodies[i].(transform := previous.Lerp(current, alpha));
    }
  }
}
