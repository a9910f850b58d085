/**
  Narrow-phase collision tests, impulse resolution with restitution and the
  per-contact summaries of the current collision pipeline
  (src/physics/collision/systems.rs).  Everything here is a function of its
  arguments: the resolvers take the position and velocity they update in place
  in the game and return the updated values.
*/
module Collision {
  import opened Vectors
  import opened Wrappers
  import opened Components

  /** Contact geometry; `normal` points from the second shape towards the first for walls. */
  datatype Contact = Contact(normal: Vec2, penetration: real)

  /** What a resolved contact reports: the impulse and both sides' normal speeds. */
  datatype ContactData = ContactData(impulse: real, vAN: real, vBN: real)

  /** The key of the contact maps. */
  type ContactKey = (Entity, Entity)

  /** Position and velocity of one body, the two components a resolver changes. */
  datatype Kinematics = Kinematics(pos: Vec3, vel: Vec3)

  //------------------------------------------------------------------
  // The canonical pair key
  //------------------------------------------------------------------

  function OrderedPair(a: Entity, b: Entity): (p: ContactKey)
    ensures p == (a, b) || p == (b, a)
    ensures a.index != b.index ==> p.0.index < p.1.index
    ensures a.index == b.index ==> p == (b, a)
  {
    if a.index < b.index then (a, b) else (b, a)
  }

  /** Two handles with different slots give the same key in either order. */
  lemma OrderedPairSymmetric(a: Entity, b: Entity)
    requires a.index != b.index
    ensures OrderedPair(a, b) == OrderedPair(b, a)
  {}

  //------------------------------------------------------------------
  // Scalar helpers with the single-precision library's meaning
  //------------------------------------------------------------------

  function Abs(x: real): real { if x < 0.0 then -x else x }

  /** `signum` of a non-NaN value; zero counts as positive. */
  function Signum(x: real): real { if x < 0.0 then -1.0 else 1.0 }

  /** `clamp(lo, hi)`: first `max(lo)`, then `min(hi)`. */
  function Clamp(x: real, lo: real, hi: real): real {
    var t := if x < lo then lo else x;
    if t > hi then hi else t
  }

  //------------------------------------------------------------------
  // Distances and directions
  //------------------------------------------------------------------

  /** A distance `dist = sqrt(|diff|²)` compares with a bound as `|diff|²` compares with its square. */
  lemma DistanceBound(diff: Vec2, dist: real, bound: real)
    requires 0.0 <= dist && dist * dist == diff.LengthSq() && 0.0 <= bound
    ensures diff.LengthSq() <= bound * bound <==> dist <= bound
    ensures diff.LengthSq() < bound * bound <==> dist < bound
  {
    SquareMonotone(dist, bound);
  }

  /** Such a distance is zero only for coincident points, and otherwise `diff / dist` is a unit vector along `diff`. */
  lemma DistanceDirection(diff: Vec2, dist: real)
    requires 0.0 <= dist && dist * dist == diff.LengthSq()
    ensures dist == 0.0 <==> diff == Zero2
    ensures dist != 0.0 ==> diff.Div(dist).IsUnit() && diff.Div(dist).Scale(dist) == diff
  {
    SquaresZero(diff.x, diff.y);
    SquareMonotone(dist, 0.0);
    if dist != 0.0 { DivByLength(diff, dist); }
  }

  /**
    The direction `diff / dist` of an offset whose length is `dist`, with
    `fallback` standing in for the direction of a zero offset; paired with the
    distance itself.
  */
  function Separation(diff: Vec2, dist: real, fallback: Vec2): (r: (Vec2, real))
    requires 0.0 <= dist && dist * dist == diff.LengthSq()
    ensures r.1 == dist
    ensures diff != Zero2 ==> r.0.IsUnit()
    ensures diff == Zero2 ==> r.0 == fallback
    ensures r.0.Scale(r.1) == diff
  {
    DistanceDirection(diff, dist);
    if dist != 0.0 then
      var n := diff.Div(dist);
      assert diff != Zero2 && n.IsUnit() && n.Scale(dist) == diff;
      (n, dist)
    else
      assert diff == Zero2 && fallback.Scale(dist) == diff;
      (fallback, dist)
  }

  //------------------------------------------------------------------
  // Circle against an axis-aligned rectangle
  //------------------------------------------------------------------

  /** The point of the rectangle's closed box nearest to `c` (per-axis clamp of the offset). */
  function ClosestPoint(c: Vec2, rectPos: Vec2, half: Vec2): Vec2 {
    var delta := c.Sub(rectPos);
    rectPos.Add(Vec2(Clamp(delta.x, -half.x, half.x), Clamp(delta.y, -half.y, half.y)))
  }

  /** `q` lies in the closed box of centre `rectPos` and half-extents `half`. */
  predicate InBox(q: Vec2, rectPos: Vec2, half: Vec2) {
    Abs(q.x - rectPos.x) <= half.x && Abs(q.y - rectPos.y) <= half.y
  }

  /**
    The normal used when the centre lies inside the box: along the axis with the
    larger offset from the rectangle's centre (ties go to y), signed like it.
  */
  function FallbackNormal(delta: Vec2): (n: Vec2)
    ensures n.IsUnit()
    // signed like the offset, where `signum(0.0)` is 1: a centre exactly on
    // the rectangle's centre is pushed along +y
    ensures Abs(delta.x) > Abs(delta.y) ==> n.y == 0.0 && (n.x == 1.0 <==> 0.0 <= delta.x)
    ensures Abs(delta.x) <= Abs(delta.y) ==> n.x == 0.0 && (n.y == 1.0 <==> 0.0 <= delta.y)
  {
    if Abs(delta.x) > Abs(delta.y) then Vec2(Signum(delta.x), 0.0)
    else Vec2(0.0, Signum(delta.y))
  }

  lemma InBoxIffClosestIsSelf(c: Vec2, rectPos: Vec2, half: Vec2)
    requires 0.0 <= half.x && 0.0 <= half.y
    ensures InBox(c, rectPos, half) <==> c.Sub(ClosestPoint(c, rectPos, half)) == Zero2
  {}

  function CircleVsRect(m: Math, circlePos: Vec2, radius: real, rectPos: Vec2, half: Vec2): (r: Option<Contact>)
    requires m.Lawful()
    requires 0.0 < radius && 0.0 <= half.x && 0.0 <= half.y
    ensures var d := circlePos.Sub(ClosestPoint(circlePos, rectPos, half));
      r.Some? <==> d.LengthSq() <= radius * radius
    ensures r.Some? ==> 0.0 <= r.value.penetration <= radius
    ensures InBox(circlePos, rectPos, half) ==>
      r == Some(Contact(FallbackNormal(circlePos.Sub(rectPos)), radius))
  {
    var delta := circlePos.Sub(rectPos);
    var closest := ClosestPoint(circlePos, rectPos, half);
    var diff := circlePos.Sub(closest);
    var distSq := diff.LengthSq();
    if distSq > radius * radius then None
    else
      var dist := m.Sqrt(distSq);
      DistanceBound(diff, dist, radius);
      InBoxIffClosestIsSelf(circlePos, rectPos, half);
      DistanceDirection(diff, dist);
      var s := Separation(diff, dist, FallbackNormal(delta));
      Some(Contact(s.0, radius - dist))
  }

  /**
    A wall contact has a unit normal along which the circle's centre lies
    `radius - penetration` away from the rectangle's closest point; the
    penetration is the full radius only when the centre is inside the box.
  */
  lemma CircleVsRectGeometry(m: Math, circlePos: Vec2, radius: real, rectPos: Vec2, half: Vec2)
    requires m.Lawful()
    requires 0.0 < radius && 0.0 <= half.x && 0.0 <= half.y
    requires CircleVsRect(m, circlePos, radius, rectPos, half).Some?
    ensures var c := CircleVsRect(m, circlePos, radius, rectPos, half).value;
      && c.normal.IsUnit()
      && ClosestPoint(circlePos, rectPos, half).Add(c.normal.Scale(radius - c.penetration)) == circlePos
      && (c.penetration == radius <==> InBox(circlePos, rectPos, half))
  {
    var closest := ClosestPoint(circlePos, rectPos, half);
    var diff := circlePos.Sub(closest);
    var dist := m.Sqrt(diff.LengthSq());
    var s := Separation(diff, dist, FallbackNormal(circlePos.Sub(rectPos)));
    var c := CircleVsRect(m, circlePos, radius, rectPos, half).value;
    assert c == Contact(s.0, radius - dist);
    DistanceDirection(diff, dist);
    InBoxIffClosestIsSelf(circlePos, rectPos, half);
    assert radius - c.penetration == dist;
    assert closest.Add(diff) == circlePos;
  }

  /** On one axis, the clamped offset is no farther from `d` than any offset in `[-h, h]`. */
  lemma ClampNearest(d: real, h: real, q: real)
    requires 0.0 <= h && -h <= q <= h
    ensures (d - Clamp(d, -h, h)) * (d - Clamp(d, -h, h)) <= (d - q) * (d - q)
  {
    var c := Clamp(d, -h, h);
    if d > h {
      SquareMonotone(d - c, d - q);
    } else if d < -h {
      SquareMonotone(c - d, q - d);
    }
  }

  /** The clamped point is the point of the box nearest to the centre. */
  lemma ClosestPointIsNearest(c: Vec2, rectPos: Vec2, half: Vec2, q: Vec2)
    requires 0.0 <= half.x && 0.0 <= half.y && InBox(q, rectPos, half)
    ensures InBox(ClosestPoint(c, rectPos, half), rectPos, half)
    ensures c.Sub(ClosestPoint(c, rectPos, half)).LengthSq() <= c.Sub(q).LengthSq()
  {
    var delta := c.Sub(rectPos);
    var dx, dy := delta.x - Clamp(delta.x, -half.x, half.x), delta.y - Clamp(delta.y, -half.y, half.y);
    var ex, ey := delta.x - (q.x - rectPos.x), delta.y - (q.y - rectPos.y);
    ClampNearest(delta.x, half.x, q.x - rectPos.x);
    ClampNearest(delta.y, half.y, q.y - rectPos.y);
    assert c.Sub(ClosestPoint(c, rectPos, half)) == Vec2(dx, dy);
    assert c.Sub(q) == Vec2(ex, ey);
    LengthSqLe(Vec2(dx, dy), Vec2(ex, ey));
  }

  lemma LengthSqLe(u: Vec2, w: Vec2)
    requires u.x * u.x <= w.x * w.x && u.y * u.y <= w.y * w.y
    ensures u.LengthSq() <= w.LengthSq()
  {}

  /**
    A wall contact is reported exactly when some point of the rectangle lies
    within the circle (boundary included).
  */
  lemma {:induction false} CircleVsRectIffOverlap(m: Math, circlePos: Vec2, radius: real, rectPos: Vec2, half: Vec2)
    requires m.Lawful()
    requires 0.0 < radius && 0.0 <= half.x && 0.0 <= half.y
    ensures CircleVsRect(m, circlePos, radius, rectPos, half).Some? <==>
      exists q :: InBox(q, rectPos, half) && circlePos.Sub(q).LengthSq() <= radius * radius
  {
    var p := ClosestPoint(circlePos, rectPos, half);
    ClosestPointIsNearest(circlePos, rectPos, half, rectPos);
    if CircleVsRect(m, circlePos, radius, rectPos, half).Some? {
      assert InBox(p, rectPos, half) && circlePos.Sub(p).LengthSq() <= radius * radius;
    }
    forall q | InBox(q, rectPos, half) && circlePos.Sub(q).LengthSq() <= radius * radius
      ensures CircleVsRect(m, circlePos, radius, rectPos, half).Some?
    {
      ClosestPointIsNearest(circlePos, rectPos, half, q);
    }
  }

  /** A circle exactly touching the box is a contact of penetration zero. */
  lemma TouchingWallIsContact(m: Math, circlePos: Vec2, radius: real, rectPos: Vec2, half: Vec2)
    requires m.Lawful()
    requires 0.0 < radius && 0.0 <= half.x && 0.0 <= half.y
    requires circlePos.Sub(ClosestPoint(circlePos, rectPos, half)).LengthSq() == radius * radius
    ensures var r := CircleVsRect(m, circlePos, radius, rectPos, half);
      r.Some? && r.value.penetration == 0.0
  {
    var diff := circlePos.Sub(ClosestPoint(circlePos, rectPos, half));
    var dist := m.Sqrt(diff.LengthSq());
    SquareMonotone(dist, radius);
    assert CircleVsRect(m, circlePos, radius, rectPos, half).value.penetration == radius - dist;
  }

  //------------------------------------------------------------------
  // Circle against circle
  //------------------------------------------------------------------

  function CircleVsCircle(m: Math, p1: Vec2, r1: real, p2: Vec2, r2: real): (r: Option<Contact>)
    requires m.Lawful()
    requires 0.0 < r1 && 0.0 < r2
    ensures r.Some? <==> m.Length(p2.Sub(p1)) < r1 + r2
    ensures r.Some? ==> 0.0 < r.value.penetration <= r1 + r2
    ensures r.Some? && p1 == p2 ==>
      r.value.normal == m.Normalize(Vec2(1.0, 1.0)) && r.value.penetration == r1 + r2
  {
    var diff := p2.Sub(p1);
    var distSq := diff.LengthSq();
    var rSum := r1 + r2;
    var len := m.Length(diff);
    DistanceBound(diff, len, rSum);
    if distSq >= rSum * rSum then None
    else
      var dist := m.Sqrt(distSq);
      assert len == dist by { SquareMonotone(len, dist); }
      SubZero(p2, p1);
      var s := Separation(diff, dist, m.Normalize(Vec2(1.0, 1.0)));
      Some(Contact(s.0, rSum - dist))
  }

  lemma SubZero(a: Vec2, b: Vec2)
    ensures a.Sub(b) == Zero2 <==> a == b
  {}

  /**
    A circle contact has a unit normal pointing from the first centre to the
    second, which lie `r1 + r2 - penetration` apart along it.
  */
  lemma CircleVsCircleGeometry(m: Math, p1: Vec2, r1: real, p2: Vec2, r2: real)
    requires m.Lawful()
    requires 0.0 < r1 && 0.0 < r2
    requires CircleVsCircle(m, p1, r1, p2, r2).Some?
    ensures var c := CircleVsCircle(m, p1, r1, p2, r2).value;
      && c.normal.IsUnit()
      && p1.Add(c.normal.Scale(r1 + r2 - c.penetration)) == p2
  {
    var diff := p2.Sub(p1);
    var dist := m.Sqrt(diff.LengthSq());
    var s := Separation(diff, dist, m.Normalize(Vec2(1.0, 1.0)));
    var c := CircleVsCircle(m, p1, r1, p2, r2).value;
    assert c == Contact(s.0, r1 + r2 - dist);
    assert r1 + r2 - c.penetration == dist;
    assert p1.Add(diff) == p2;
  }

  //------------------------------------------------------------------
  // Components along a normal
  //------------------------------------------------------------------

  /** Adding `s·n` to `v` raises its component along the unit `n` by `s` and keeps its tangential one. */
  lemma ShiftAlongNormal(v: Vec2, n: Vec2, s: real)
    ensures n.IsUnit() ==> v.Add(n.Scale(s)).Dot(n) == v.Dot(n) + s
    ensures v.Add(n.Scale(s)).Dot(n.Perp()) == v.Dot(n.Perp())
  {
    calc {
      v.Add(n.Scale(s)).Dot(n);
    == (v.x + n.x * s) * n.x + (v.y + n.y * s) * n.y;
    == v.Dot(n) + s * (n.x * n.x + n.y * n.y);
    }
  }

  /** `|v|²` splits into the squares of its normal and tangential components. */
  lemma NormalTangentSq(v: Vec2, n: Vec2)
    requires n.IsUnit()
    ensures v.LengthSq() == v.Dot(n) * v.Dot(n) + v.Dot(n.Perp()) * v.Dot(n.Perp())
  {
    calc {
      v.Dot(n) * v.Dot(n) + v.Dot(n.Perp()) * v.Dot(n.Perp());
    == (v.x * n.x + v.y * n.y) * (v.x * n.x + v.y * n.y) + (v.y * n.x - v.x * n.y) * (v.y * n.x - v.x * n.y);
    == (v.x * v.x + v.y * v.y) * (n.x * n.x + n.y * n.y);
    }
  }

  //------------------------------------------------------------------
  // Circle against wall: resolution
  //------------------------------------------------------------------

  /**
    The planar velocity a wall bounce leaves: `v - (1 + e)(v·n)n` when `v`
    points into the wall (`v·n < 0`), `v` itself otherwise.
  */
  function Bounce(v: Vec2, n: Vec2, e: real): (w: Vec2)
    ensures v.Dot(n) >= 0.0 ==> w == v
  {
    var vn := v.Dot(n);
    if vn < 0.0 then v.Add(n.Scale(-(1.0 + e) * vn)) else v
  }

  /**
    Into the wall, the bounce turns the normal speed `vn` into `-e·vn` and
    leaves the tangential speed alone.
  */
  lemma BounceComponents(v: Vec2, n: Vec2, e: real)
    requires n.IsUnit() && v.Dot(n) < 0.0
    ensures Bounce(v, n, e).Dot(n) == -e * v.Dot(n)
    ensures Bounce(v, n, e).Dot(n.Perp()) == v.Dot(n.Perp())
  {
    var vn := v.Dot(n);
    ShiftAlongNormal(v, n, -(1.0 + e) * vn);
    assert vn + -(1.0 + e) * vn == -e * vn;
  }

  /** A factor `-e` with `e` in [0, 1] does not increase a square; `e = 1` keeps it. */
  lemma DampedSquare(e: real, a: real, b: real)
    requires 0.0 <= e <= 1.0 && b == -e * a
    ensures b * b <= a * a
    ensures e == 1.0 ==> b * b == a * a
  {
    assert e * e <= 1.0 by { MulLeft(e, e, 1.0); }
    calc {
      b * b;
    == (e * e) * (a * a);
    <= { MulLeft(a * a, e * e, 1.0); }
      a * a;
    }
  }

  /** With restitution in [0, 1] a bounce never speeds the circle up; with 1 it keeps the speed. */
  lemma BounceSpeed(v: Vec2, n: Vec2, e: real)
    requires n.IsUnit() && 0.0 <= e <= 1.0
    ensures Bounce(v, n, e).LengthSq() <= v.LengthSq()
    ensures e == 1.0 ==> Bounce(v, n, e).LengthSq() == v.LengthSq()
  {
    var w := Bounce(v, n, e);
    if v.Dot(n) < 0.0 {
      BounceComponents(v, n, e);
      NormalTangentSq(v, n);
      NormalTangentSq(w, n);
      DampedSquare(e, v.Dot(n), w.Dot(n));
    }
  }

  /**
    `resolve_circle_wall`: the planar velocity bounces off the wall (the height
    component is kept) and the circle is always pushed out along the normal by
    the penetration.
  */
  function ResolveCircleWall(k: Kinematics, c: Contact, e: real): (r: Kinematics)
    ensures r.vel == Bounce(k.vel.Truncate(), c.normal, e).Extend(k.vel.z)
    ensures r.pos == k.pos.Truncate().Add(c.normal.Scale(c.penetration)).Extend(k.pos.z)
  {
    var vel2d := k.vel.Truncate();
    var vn := vel2d.Dot(c.normal);
    var vel := if vn < 0.0 then vel2d.Add(c.normal.Scale(-(1.0 + e) * vn)).Extend(k.vel.z) else k.vel;
    Kinematics(k.pos.Truncate().Add(c.normal.Scale(c.penetration)).Extend(k.pos.z), vel)
  }

  /**
    After the push-out the circle's centre lies exactly `radius` from the
    rectangle point that was nearest to it: the circle touches the wall.
  */
  lemma ResolvedWallTouches(m: Math, k: Kinematics, radius: real, rectPos: Vec2, half: Vec2, e: real)
    requires m.Lawful()
    requires 0.0 < radius && 0.0 <= half.x && 0.0 <= half.y
    requires CircleVsRect(m, k.pos.Truncate(), radius, rectPos, half).Some?
    ensures var c := CircleVsRect(m, k.pos.Truncate(), radius, rectPos, half).value;
      var q := ClosestPoint(k.pos.Truncate(), rectPos, half);
      ResolveCircleWall(k, c, e).pos.Truncate().Sub(q).LengthSq() == radius * radius
  {
    var c := CircleVsRect(m, k.pos.Truncate(), radius, rectPos, half).value;
    var q := ClosestPoint(k.pos.Truncate(), rectPos, half);
    CircleVsRectGeometry(m, k.pos.Truncate(), radius, rectPos, half);
    PushOutToRadius(k.pos.Truncate(), q, c.normal, radius, c.penetration);
  }

  /** A centre at `q + n·(radius - pen)` pushed along the unit `n` by `pen` ends `radius` from `q`. */
  lemma PushOutToRadius(p: Vec2, q: Vec2, n: Vec2, radius: real, pen: real)
    requires n.IsUnit() && q.Add(n.Scale(radius - pen)) == p
    ensures p.Add(n.Scale(pen)).Sub(q).LengthSq() == radius * radius
  {
    assert p.Add(n.Scale(pen)).Sub(q) == n.Scale(radius);
    ScaleLengthSq(n, radius);
  }

  /**
    `circle_wall_contact_data`: the circle's normal speed flipped to point into
    the wall, the wall's normal speed zero, and the impulse the bounce delivers
    when the circle moves into the wall.
  */
  function CircleWallContactData(vel: Vec2, mass: real, c: Contact, e: real): (d: ContactData)
    ensures d.vAN == -vel.Dot(c.normal) && d.vBN == 0.0
    ensures vel.Dot(c.normal) >= 0.0 ==> d.impulse == 0.0
    ensures -1.0 < e && 0.0 < mass ==> (d.impulse > 0.0 <==> vel.Dot(c.normal) < 0.0)
  {
    var vAN := vel.Dot(c.normal);
    var impulse := if vAN < 0.0 then -(1.0 + e) * vAN * mass else 0.0;
    if vAN < 0.0 && -1.0 < e && 0.0 < mass then
      assert -(1.0 + e) * vAN * mass == (1.0 + e) * (-vAN) * mass;
      MulLeftStrict(1.0 + e, 0.0, -vAN);
      MulLeftStrict(mass, 0.0, (1.0 + e) * (-vAN));
      ContactData(impulse, -vAN, 0.0)
    else
      ContactData(impulse, -vAN, 0.0)
  }

  /** The reported wall impulse is the mass times the change of normal speed the bounce produces. */
  lemma WallImpulseIsMomentumChange(v: Vec2, mass: real, c: Contact, e: real)
    requires c.normal.IsUnit()
    ensures CircleWallContactData(v, mass, c, e).impulse == mass * (Bounce(v, c.normal, e).Dot(c.normal) - v.Dot(c.normal))
  {
    var vn := v.Dot(c.normal);
    if vn < 0.0 {
      BounceComponents(v, c.normal, e);
      assert -e * vn - vn == -(1.0 + e) * vn;
    }
  }

  //------------------------------------------------------------------
  // Circle against circle: resolution
  //------------------------------------------------------------------

  /** The impulse size `j` the source computes for a closing speed `rel` (zero when not approaching). */
  function ImpulseSize(rel: real, m1: real, m2: real, e: real): (j: real)
    requires 0.0 < m1 && 0.0 < m2
    ensures rel <= 0.0 ==> j == 0.0
    ensures rel > 0.0 ==> rel + j / m1 + j / m2 == -e * rel
  {
    if rel > 0.0 then
      var w := 1.0 / m1 + 1.0 / m2;
      var j := -(1.0 + e) * rel / w;
      assert j / m1 + j / m2 == j * w;
      assert j * w == -(1.0 + e) * rel;
      j
    else 0.0
  }

  /** One component of two opposite shifts `s`, `t` whose mass-weighted sizes agree. */
  lemma OppositeShift(u: real, w: real, a: real, b: real, s: real, t: real, m1: real, m2: real)
    requires u == a - s && w == b + t && s * m1 == t * m2
    ensures u * m1 + w * m2 == a * m1 + b * m2
  {
    calc {
      u * m1 + w * m2;
    == (a - s) * m1 + (b + t) * m2;
    == a * m1 + b * m2 + (t * m2 - s * m1);
    }
  }

  /**
    Moving two masses by opposite shifts `-s1` and `+s2` with `m1·s1 == m2·s2`
    keeps their mass-weighted sum (momentum, or the centre of mass).
  */
  lemma OppositeShifts(p1: Vec3, p2: Vec3, s1: Vec3, s2: Vec3, m1: real, m2: real)
    requires s1.Scale(m1) == s2.Scale(m2)
    ensures p1.Sub(s1).Scale(m1).Add(p2.Add(s2).Scale(m2)) == p1.Scale(m1).Add(p2.Scale(m2))
  {
    var q1, q2 := p1.Sub(s1), p2.Add(s2);
    OppositeShift(q1.x, q2.x, p1.x, p2.x, s1.x, s2.x, m1, m2);
    OppositeShift(q1.y, q2.y, p1.y, p2.y, s1.y, s2.y, m1, m2);
    OppositeShift(q1.z, q2.z, p1.z, p2.z, s1.z, s2.z, m1, m2);
    WeightedSumEq(q1, q2, p1, p2, m1, m2);
  }

  lemma Undivide(u: real, a: real, m: real)
    requires m != 0.0 && u == a / m
    ensures u * m == a
  {}

  lemma DivThenScale(i: Vec3, m: real)
    requires m != 0.0
    ensures i.Div(m).Scale(m) == i
  {
    var u := i.Div(m);
    Undivide(u.x, i.x, m);
    Undivide(u.y, i.y, m);
    Undivide(u.z, i.z, m);
    assert u.Scale(m) == Vec3(u.x * m, u.y * m, u.z * m);
  }

  /** Exchanging an impulse `i` between masses `m1` and `m2` conserves momentum. */
  lemma ExchangeConservesMomentum(v1: Vec3, m1: real, v2: Vec3, m2: real, i: Vec3)
    requires m1 != 0.0 && m2 != 0.0
    ensures v1.Add(i.Div(m1)).Scale(m1).Add(v2.Sub(i.Div(m2)).Scale(m2)) == v1.Scale(m1).Add(v2.Scale(m2))
  {
    DivThenScale(i, m1);
    DivThenScale(i, m2);
    OppositeShifts(v2, v1, i.Div(m2), i.Div(m1), m2, m1);
  }

  /** `impulse / m` for an impulse `n·j` in the plane is a shift along the 2-D normal by `j / m`. */
  lemma ImpulseInPlane(v: Vec3, n: Vec2, j: real, m: real)
    requires m != 0.0
    ensures v.Add(n.Extend(0.0).Scale(j).Div(m)) == v.Truncate().Add(n.Scale(j / m)).Extend(v.z)
    ensures v.Sub(n.Extend(0.0).Scale(j).Div(m)) == v.Truncate().Add(n.Scale(-(j / m))).Extend(v.z)
  {
    assert n.x * j / m == n.x * (j / m);
    assert n.y * j / m == n.y * (j / m);
  }

  /**
    The impulse step of `resolve_circle_circle`: when the circles approach
    along `n`, an impulse `n·j` of the size given by `ImpulseSize` is added to
    the first velocity (divided by its mass) and taken from the second.
  */
  function CircleImpulse(v1: Vec3, m1: real, v2: Vec3, m2: real, n: Vec2, e: real): (r: (Vec3, Vec3))
    requires 0.0 < m1 && 0.0 < m2
    // momentum is conserved
    ensures r.0.Scale(m1).Add(r.1.Scale(m2)) == v1.Scale(m1).Add(v2.Scale(m2))
    ensures v1.Truncate().Sub(v2.Truncate()).Dot(n) <= 0.0 ==> r == (v1, v2)
    // the impulse lies in the plane: each velocity is shifted along n by the impulse over its mass
    ensures var j := ImpulseSize(v1.Truncate().Sub(v2.Truncate()).Dot(n), m1, m2, e);
      && r.0 == v1.Truncate().Add(n.Scale(j / m1)).Extend(v1.z)
      && r.1 == v2.Truncate().Add(n.Scale(-(j / m2))).Extend(v2.z)
  {
    var n3 := n.Extend(0.0);
    var relSpeed := v1.Truncate().Sub(v2.Truncate()).Dot(n);
    if relSpeed > 0.0 then
      var j := -(1.0 + e) * relSpeed / (1.0 / m1 + 1.0 / m2);
      var impulse := n3.Scale(j);
      assert j == ImpulseSize(relSpeed, m1, m2, e);
      ExchangeConservesMomentum(v1, m1, v2, m2, impulse);
      ImpulseInPlane(v1, n, j, m1);
      ImpulseInPlane(v2, n, j, m2);
      (v1.Add(impulse.Div(m1)), v2.Sub(impulse.Div(m2)))
    else
      assert 0.0 / m1 == 0.0 && -(0.0 / m2) == 0.0;
      assert n.Scale(0.0) == Zero2;
      assert v1.Truncate().Add(Zero2).Extend(v1.z) == v1;
      assert v2.Truncate().Add(Zero2).Extend(v2.z) == v2;
      (v1, v2)
  }

  /**
    Along a unit normal, each normal speed moves by the impulse over the mass
    (in opposite directions), and the tangential speeds and heights are kept.
  */
  lemma CircleImpulseComponents(v1: Vec3, m1: real, v2: Vec3, m2: real, n: Vec2, e: real)
    requires 0.0 < m1 && 0.0 < m2 && n.IsUnit()
    ensures var r := CircleImpulse(v1, m1, v2, m2, n, e);
      var j := ImpulseSize(v1.Truncate().Sub(v2.Truncate()).Dot(n), m1, m2, e);
      && r.0.Truncate().Dot(n) == v1.Truncate().Dot(n) + j / m1
      && r.1.Truncate().Dot(n) == v2.Truncate().Dot(n) - j / m2
      && r.0.Truncate().Dot(n.Perp()) == v1.Truncate().Dot(n.Perp())
      && r.1.Truncate().Dot(n.Perp()) == v2.Truncate().Dot(n.Perp())
      && r.0.z == v1.z && r.1.z == v2.z
  {
    var r := CircleImpulse(v1, m1, v2, m2, n, e);
    var j := ImpulseSize(v1.Truncate().Sub(v2.Truncate()).Dot(n), m1, m2, e);
    assert r.0.Truncate() == v1.Truncate().Add(n.Scale(j / m1));
    assert r.1.Truncate() == v2.Truncate().Add(n.Scale(-(j / m2)));
    ShiftAlongNormal(v1.Truncate(), n, j / m1);
    ShiftAlongNormal(v2.Truncate(), n, -(j / m2));
  }

  /** An approaching pair leaves with relative normal speed `-e` times the closing speed. */
  lemma CircleRestitution(v1: Vec3, m1: real, v2: Vec3, m2: real, n: Vec2, e: real)
    requires 0.0 < m1 && 0.0 < m2 && n.IsUnit()
    requires v1.Truncate().Sub(v2.Truncate()).Dot(n) > 0.0
    ensures var r := CircleImpulse(v1, m1, v2, m2, n, e);
      r.0.Truncate().Sub(r.1.Truncate()).Dot(n) == -e * v1.Truncate().Sub(v2.Truncate()).Dot(n)
  {
    var r := CircleImpulse(v1, m1, v2, m2, n, e);
    var rel := v1.Truncate().Sub(v2.Truncate()).Dot(n);
    var j := ImpulseSize(rel, m1, m2, e);
    CircleImpulseComponents(v1, m1, v2, m2, n, e);
    DotSub(r.0.Truncate(), r.1.Truncate(), n);
    DotSub(v1.Truncate(), v2.Truncate(), n);
    assert r.0.Truncate().Dot(n) - r.1.Truncate().Dot(n) == rel + j / m1 + j / m2;
  }

  /** The shares of `pen` the two circles move by: in inverse proportion to their masses, summing to `pen`. */
  lemma Shares(pen: real, m1: real, m2: real)
    requires 0.0 < m1 && 0.0 < m2
    ensures var c1, c2 := pen * (m2 / (m1 + m2)), pen * (m1 / (m1 + m2));
      c1 * m1 == c2 * m2 && c1 + c2 == pen
  {
    var t := m1 + m2;
    var c1, c2 := pen * (m2 / t), pen * (m1 / t);
    assert c1 * m1 == pen * (m1 * m2) / t;
    assert c2 * m2 == pen * (m1 * m2) / t;
    assert m2 / t + m1 / t == 1.0;
  }

  lemma Proportional(u: real, w: real, d: real, c1: real, c2: real, m1: real, m2: real)
    requires u == d * c1 && w == d * c2 && c1 * m1 == c2 * m2
    ensures u * m1 == w * m2
  {
    calc {
      u * m1;
    == d * (c1 * m1);
    == d * (c2 * m2);
    == w * m2;
    }
  }

  /** Shifts along `d` by shares `c1`, `c2` with `c1·m1 == c2·m2` have equal mass-weighted sizes. */
  lemma ProportionalShares(d: Vec3, c1: real, c2: real, m1: real, m2: real)
    requires c1 * m1 == c2 * m2
    ensures d.Scale(c1).Scale(m1) == d.Scale(c2).Scale(m2)
  {
    var u, w := d.Scale(c1), d.Scale(c2);
    Proportional(u.x, w.x, d.x, c1, c2, m1, m2);
    Proportional(u.y, w.y, d.y, c1, c2, m1, m2);
    Proportional(u.z, w.z, d.z, c1, c2, m1, m2);
    ScaledEq(u, w, m1, m2);
  }

  lemma SpreadComponent(u: real, w: real, a: real, b: real, d: real, c1: real, c2: real, pen: real)
    requires u == a - d * c1 && w == b + d * c2 && c1 + c2 == pen
    ensures w - u == b - a + d * pen
  {
    calc {
      w - u;
    == b - a + d * (c1 + c2);
    == b - a + d * pen;
    }
  }

  /** Moving `p1` back by `d·c1` and `p2` on by `d·c2` widens their gap by `d·(c1 + c2)`. */
  lemma Spread(p1: Vec3, p2: Vec3, d: Vec3, c1: real, c2: real, pen: real)
    requires c1 + c2 == pen
    ensures p2.Add(d.Scale(c2)).Sub(p1.Sub(d.Scale(c1))) == p2.Sub(p1).Add(d.Scale(pen))
  {
    var q1, q2 := p1.Sub(d.Scale(c1)), p2.Add(d.Scale(c2));
    SpreadComponent(q1.x, q2.x, p1.x, p2.x, d.x, c1, c2, pen);
    SpreadComponent(q1.y, q2.y, p1.y, p2.y, d.y, c1, c2, pen);
    SpreadComponent(q1.z, q2.z, p1.z, p2.z, d.z, c1, c2, pen);
    assert d.Scale(pen) == Vec3(d.x * pen, d.y * pen, d.z * pen);
  }

  /**
    The depenetration step of `resolve_circle_circle`: with positive
    penetration the circles move apart along `n`, each by its share of the
    penetration in inverse proportion to its mass.
  */
  function Depenetrate(p1: Vec3, m1: real, p2: Vec3, m2: real, n: Vec2, pen: real): (r: (Vec3, Vec3))
    requires 0.0 < m1 && 0.0 < m2
    ensures pen <= 0.0 ==> r == (p1, p2)
    // the gap between the centres grows by exactly the penetration along n
    ensures pen > 0.0 ==> r.1.Sub(r.0) == p2.Sub(p1).Add(n.Extend(0.0).Scale(pen))
    // the centre of mass does not move
    ensures r.0.Scale(m1).Add(r.1.Scale(m2)) == p1.Scale(m1).Add(p2.Scale(m2))
    ensures r.0.z == p1.z && r.1.z == p2.z
  {
    if pen > 0.0 then
      var n3 := n.Extend(0.0);
      var totalM := m1 + m2;
      var corr1 := pen * (m2 / totalM);
      var corr2 := pen * (m1 / totalM);
      Shares(pen, m1, m2);
      ProportionalShares(n3, corr1, corr2, m1, m2);
      OppositeShifts(p1, p2, n3.Scale(corr1), n3.Scale(corr2), m1, m2);
      Spread(p1, p2, n3, corr1, corr2, pen);
      (p1.Sub(n3.Scale(corr1)), p2.Add(n3.Scale(corr2)))
    else (p1, p2)
  }

  /**
    `resolve_circle_circle`: the velocities change by the impulse step and the
    positions by the depenetration step, the two being independent.
  */
  function ResolveCircleCircle(k1: Kinematics, m1: real, k2: Kinematics, m2: real, c: Contact, e: real)
    : (r: (Kinematics, Kinematics))
    requires 0.0 < m1 && 0.0 < m2
    ensures (r.0.vel, r.1.vel) == CircleImpulse(k1.vel, m1, k2.vel, m2, c.normal, e)
    ensures (r.0.pos, r.1.pos) == Depenetrate(k1.pos, m1, k2.pos, m2, c.normal, c.penetration)
  {
    var vs := CircleImpulse(k1.vel, m1, k2.vel, m2, c.normal, e);
    var ps := Depenetrate(k1.pos, m1, k2.pos, m2, c.normal, c.penetration);
    (Kinematics(ps.0, vs.0), Kinematics(ps.1, vs.1))
  }

  /** Resolving a detected circle contact leaves the two circles exactly touching. */
  lemma ResolvedCirclesTouch(m: Math, k1: Kinematics, r1: real, m1: real, k2: Kinematics, r2: real, m2: real, e: real)
    requires m.Lawful()
    requires 0.0 < r1 && 0.0 < r2 && 0.0 < m1 && 0.0 < m2
    requires CircleVsCircle(m, k1.pos.Truncate(), r1, k2.pos.Truncate(), r2).Some?
    ensures var c := CircleVsCircle(m, k1.pos.Truncate(), r1, k2.pos.Truncate(), r2).value;
      var r := ResolveCircleCircle(k1, m1, k2, m2, c, e);
      r.1.pos.Truncate().Sub(r.0.pos.Truncate()).LengthSq() == (r1 + r2) * (r1 + r2)
  {
    var c := CircleVsCircle(m, k1.pos.Truncate(), r1, k2.pos.Truncate(), r2).value;
    var r := ResolveCircleCircle(k1, m1, k2, m2, c, e);
    CircleVsCircleGeometry(m, k1.pos.Truncate(), r1, k2.pos.Truncate(), r2);
    var d := Depenetrate(k1.pos, m1, k2.pos, m2, c.normal, c.penetration);
    assert r.0.pos == d.0 && r.1.pos == d.1;
    DepenetrateGap(k1.pos, m1, k2.pos, m2, c.normal, c.penetration);
    SeparateToSum(k1.pos.Truncate(), k2.pos.Truncate(), c.normal, r1 + r2, c.penetration);
  }

  /** In the plane, depenetration moves the centres `pen` further apart along `n`. */
  lemma DepenetrateGap(p1: Vec3, m1: real, p2: Vec3, m2: real, n: Vec2, pen: real)
    requires 0.0 < m1 && 0.0 < m2 && pen > 0.0
    ensures var r := Depenetrate(p1, m1, p2, m2, n, pen);
      r.1.Truncate().Sub(r.0.Truncate()) == p2.Truncate().Sub(p1.Truncate()).Add(n.Scale(pen))
  {
    var r := Depenetrate(p1, m1, p2, m2, n, pen);
    var gap := r.1.Sub(r.0);
    assert gap == p2.Sub(p1).Add(n.Extend(0.0).Scale(pen));
    assert r.1.Truncate().Sub(r.0.Truncate()) == gap.Truncate();
  }

  /** Centres `rSum - pen` apart along the unit `n`, moved `pen` further apart along it, end `rSum` apart. */
  lemma SeparateToSum(p1: Vec2, p2: Vec2, n: Vec2, rSum: real, pen: real)
    requires n.IsUnit() && p1.Add(n.Scale(rSum - pen)) == p2
    ensures p2.Sub(p1).Add(n.Scale(pen)).LengthSq() == rSum * rSum
  {
    assert p2.Sub(p1).Add(n.Scale(pen)) == n.Scale(rSum);
    ScaleLengthSq(n, rSum);
  }

  /**
    `circle_circle_contact_data`: both normal speeds, and the impulse size the
    resolver exchanges when the circles approach.
  */
  function CircleCircleContactData(v1: Vec2, v2: Vec2, m1: real, m2: real, c: Contact, e: real): (d: ContactData)
    requires 0.0 < m1 && 0.0 < m2
    ensures d.vAN == v1.Dot(c.normal) && d.vBN == v2.Dot(c.normal)
    ensures v2.Sub(v1).Dot(c.normal) >= 0.0 ==> d.impulse == 0.0
    ensures -1.0 < e ==> (d.impulse > 0.0 <==> v2.Sub(v1).Dot(c.normal) < 0.0)
  {
    var closing := v2.Sub(v1).Dot(c.normal);
    var w := 1.0 / m1 + 1.0 / m2;
    var impulse := if closing < 0.0 then -(1.0 + e) * closing / w else 0.0;
    if closing < 0.0 && -1.0 < e then
      MulLeftStrict(1.0 + e, 0.0, -closing);
      assert -(1.0 + e) * closing == (1.0 + e) * (-closing);
      ContactData(impulse, v1.Dot(c.normal), v2.Dot(c.normal))
    else
      ContactData(impulse, v1.Dot(c.normal), v2.Dot(c.normal))
  }

  /**
    The reported circle impulse is the impulse size the resolver applies, with
    the opposite sign: by `CircleImpulseComponents` it is the momentum the
    second circle gains along the normal and the first one loses.
  */
  lemma ContactDataMatchesImpulse(v1: Vec2, v2: Vec2, m1: real, m2: real, c: Contact, e: real)
    requires 0.0 < m1 && 0.0 < m2
    ensures CircleCircleContactData(v1, v2, m1, m2, c, e).impulse == -ImpulseSize(v1.Sub(v2).Dot(c.normal), m1, m2, e)
  {
    var rel := v1.Sub(v2).Dot(c.normal);
    var closing := v2.Sub(v1).Dot(c.normal);
    DotSub(v1, v2, c.normal);
    DotSub(v2, v1, c.normal);
    ReportedImpulse(closing, rel, m1, m2, e);
  }

  lemma ReportedImpulse(closing: real, rel: real, m1: real, m2: real, e: real)
    requires 0.0 < m1 && 0.0 < m2 && closing == -rel
    ensures (if closing < 0.0 then -(1.0 + e) * closing / (1.0 / m1 + 1.0 / m2) else 0.0) == -ImpulseSize(rel, m1, m2, e)
  {
    if rel > 0.0 {
      var w := 1.0 / m1 + 1.0 / m2;
      assert -(1.0 + e) * closing / w == -(-(1.0 + e) * rel / w);
    }
  }
}
