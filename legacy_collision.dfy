/**
  The earlier collision systems of src/systems/collision.rs.  A circle mover
  bounces off rectangular walls by a pure reflection of its planar velocity,
  and two circle movers exchange velocity by a perfectly elastic collision
  and are pushed apart by half their overlap.  Every contact writes one
  `CollisionEvent(a, b)`.  The contact tests are those of `Collision`
  (the formulas are the same), and the pairs come in the order of
  `Detection.AllPairs`.
*/
module LegacyCollision {
  import opened Vectors
  import opened Wrappers
  import opened Components
  import opened Collision
  import Detection

  /** What the legacy queries read and write of a moving entity; `mass` is the optional `Mass` component. */
  datatype Mover = Mover(id: Entity, pos: Vec3, vel: Vec3, collider: ColliderShape, mass: Option<Positive>)

  /** `CollisionEvent(a, b)`: the mover and the wall, or the two movers of a pair. */
  datatype CollisionEvent = CollisionEvent(a: Entity, b: Entity)

  /** The mass used in a collision: the `Mass` component, or 1 when there is none. */
  function MassOf(b: Mover): (r: Positive)
    ensures b.mass.None? ==> r == 1.0
    ensures b.mass.Some? ==> r == b.mass.value
  {
    match b.mass
    case Some(m) => m
    case None => 1.0
  }

  //------------------------------------------------------------------
  // Circle against wall
  //------------------------------------------------------------------

  /** `v - 2(v·n)n`: the planar velocity mirrored across the wall's tangent. */
  function Reflect(v: Vec2, n: Vec2): Vec2 {
    v.Sub(n.Scale(2.0 * v.Dot(n)))
  }

  lemma SubScale(v: Vec2, n: Vec2, s: real)
    ensures v.Sub(n.Scale(s)) == v.Add(n.Scale(-s))
  {}

  /**
    For a unit normal the reflection negates the normal component whatever
    its sign (a circle already moving away is turned back), keeps the
    tangential component and the speed, and undoes itself.
  */
  lemma ReflectSpec(v: Vec2, n: Vec2)
    requires n.IsUnit()
    ensures Reflect(v, n).Dot(n) == -v.Dot(n)
    ensures Reflect(v, n).Dot(n.Perp()) == v.Dot(n.Perp())
    ensures Reflect(v, n).LengthSq() == v.LengthSq()
    ensures Reflect(Reflect(v, n), n) == v
  {
    var w := Reflect(v, n);
    SubScale(v, n, 2.0 * v.Dot(n));
    ShiftAlongNormal(v, n, -(2.0 * v.Dot(n)));
    NormalTangentSq(v, n);
    NormalTangentSq(w, n);
    assert w.Dot(n) == -v.Dot(n);
    assert Reflect(w, n) == w.Add(n.Scale(2.0 * v.Dot(n)));
  }

  /** The contact of the circle at `center` with wall `w`, when the wall is a rectangle. */
  function WallContact(m: Math, center: Vec2, radius: Positive, w: Wall): (r: Option<Contact>)
    requires m.Lawful()
    ensures r.Some? <==> (w.collider.Rect? &&
      center.Sub(ClosestPoint(center, w.center.Truncate(), w.collider.halfExtents)).LengthSq() <= radius * radius)
    ensures r.Some? ==> r.value.normal.IsUnit() && 0.0 <= r.value.penetration <= radius
  {
    match w.collider
    case Rect(half) =>
      var c := CircleVsRect(m, center, radius, w.center.Truncate(), half);
      if c.Some? then CircleVsRectGeometry(m, center, radius, w.center.Truncate(), half); c else c
    case _ => None
  }

  /**
    The response to one wall contact: the planar velocity is reflected, and
    the position is pushed along the normal by the penetration only when
    that is positive.  Heights are kept.
  */
  function WallResponse(k: Kinematics, c: Contact): (r: Kinematics)
    ensures r.pos.z == k.pos.z && r.vel.z == k.vel.z
    ensures c.penetration <= 0.0 ==> r.pos == k.pos
    ensures c.penetration > 0.0 ==> r.pos.Truncate() == k.pos.Truncate().Add(c.normal.Scale(c.penetration))
    ensures c.normal.IsUnit() ==> r.vel.LengthSq() == k.vel.LengthSq()
    ensures c.normal.IsUnit() ==> r.vel.Truncate().Dot(c.normal) == -k.vel.Truncate().Dot(c.normal)
  {
    var v := k.vel.Truncate();
    var reflected := Reflect(v, c.normal);
    assert c.normal.IsUnit() ==> reflected.LengthSq() == v.LengthSq() && reflected.Dot(c.normal) == -v.Dot(c.normal) by {
      if c.normal.IsUnit() { ReflectSpec(v, c.normal); }
    }
    var pos := if c.penetration > 0.0 then k.pos.Add(c.normal.Scale(c.penetration).Extend(0.0)) else k.pos;
    Kinematics(pos, reflected.Extend(k.vel.z))
  }

  /** The circle at `center` against one wall: the response when they touch, no change otherwise. */
  function WallStep(m: Math, center: Vec2, radius: Positive, k: Kinematics, w: Wall): Kinematics
    requires m.Lawful()
  {
    match WallContact(m, center, radius, w)
    case Some(c) => WallResponse(k, c)
    case None => k
  }

  /**
    A circle of the given centre and radius against the walls in query
    order.  The contact test always uses `center`, the centre before the
    first wall; the responses accumulate on `k`.
  */
  function AgainstWalls(m: Math, center: Vec2, radius: Positive, k: Kinematics, walls: seq<Wall>): (r: Kinematics)
    requires m.Lawful()
    ensures r.pos.z == k.pos.z && r.vel.z == k.vel.z
  {
    if walls == [] then k
    else
      WallStep(m, center, radius, AgainstWalls(m, center, radius, k, walls[..|walls| - 1]), walls[|walls| - 1])
  }

  /** One event per wall in contact with the circle at `center`, in query order. */
  function WallEvents(m: Math, id: Entity, center: Vec2, radius: Positive, walls: seq<Wall>): (r: seq<CollisionEvent>)
    requires m.Lawful()
    ensures |r| <= |walls|
  {
    if walls == [] then []
    else
      var w := walls[|walls| - 1];
      WallEvents(m, id, center, radius, walls[..|walls| - 1])
        + (if WallContact(m, center, radius, w).Some? then [CollisionEvent(id, w.id)] else [])
  }

  /** The outer loop body of `circle_wall_collision_system`: a circle mover against every wall. */
  function MoverVsWalls(m: Math, b: Mover, walls: seq<Wall>): (r: (Mover, seq<CollisionEvent>))
    requires m.Lawful()
    ensures r.0 == b.(pos := r.0.pos, vel := r.0.vel)
    ensures !b.collider.Circle? ==> r == (b, [])
  {
    match b.collider
    case Circle(radius) =>
      var k := AgainstWalls(m, b.pos.Truncate(), radius, Kinematics(b.pos, b.vel), walls);
      (b.(pos := k.pos, vel := k.vel), WallEvents(m, b.id, b.pos.Truncate(), radius, walls))
    case _ => (b, [])
  }

  /** The events of all movers, mover by mover. */
  function AllWallEvents(m: Math, bs: seq<Mover>, walls: seq<Wall>): seq<CollisionEvent>
    requires m.Lawful()
  {
    if bs == [] then [] else AllWallEvents(m, bs[..|bs| - 1], walls) + MoverVsWalls(m, bs[|bs| - 1], walls).1
  }

  /** The walls never change a mover's speed. */
  lemma {:induction false} WallsKeepSpeed(m: Math, center: Vec2, radius: Positive, k: Kinematics, walls: seq<Wall>)
    requires m.Lawful()
    ensures AgainstWalls(m, center, radius, k, walls).vel.LengthSq() == k.vel.LengthSq()
  {
    if walls != [] {
      WallsKeepSpeed(m, center, radius, k, walls[..|walls| - 1]);
    }
  }

  /** Walls out of contact leave the mover as it was. */
  lemma {:induction false} NoContactNoChange(m: Math, id: Entity, center: Vec2, radius: Positive, k: Kinematics, walls: seq<Wall>)
    requires m.Lawful()
    requires forall j :: 0 <= j < |walls| ==> WallContact(m, center, radius, walls[j]).None?
    ensures AgainstWalls(m, center, radius, k, walls) == k
    ensures WallEvents(m, id, center, radius, walls) == []
  {
    if walls != [] {
      NoContactNoChange(m, id, center, radius, k, walls[..|walls| - 1]);
    }
  }

  /** Exactly the walls in contact produce an event, each naming the mover and that wall. */
  lemma {:induction false} WallEventsSpec(m: Math, id: Entity, center: Vec2, radius: Positive, walls: seq<Wall>)
    requires m.Lawful()
    ensures forall j :: 0 <= j < |walls| && WallContact(m, center, radius, walls[j]).Some? ==>
      CollisionEvent(id, walls[j].id) in WallEvents(m, id, center, radius, walls)
    ensures forall ev :: ev in WallEvents(m, id, center, radius, walls) ==>
      ev.a == id && exists j :: 0 <= j < |walls| && walls[j].id == ev.b && WallContact(m, center, radius, walls[j]).Some?
  {
    if walls != [] {
      var init := walls[..|walls| - 1];
      var w := walls[|walls| - 1];
      WallEventsSpec(m, id, center, radius, init);
      var prior := WallEvents(m, id, center, radius, init);
      var evs := WallEvents(m, id, center, radius, walls);
      assert evs == prior + (if WallContact(m, center, radius, w).Some? then [CollisionEvent(id, w.id)] else []);
      forall j | 0 <= j < |walls| && WallContact(m, center, radius, walls[j]).Some?
        ensures CollisionEvent(id, walls[j].id) in evs
      {
        if j < |init| { assert walls[j] == init[j]; }
      }
      forall ev | ev in evs
        ensures ev.a == id && exists j :: 0 <= j < |walls| && walls[j].id == ev.b && WallContact(m, center, radius, walls[j]).Some?
      {
        if ev in prior {
          var j :| 0 <= j < |init| && init[j].id == ev.b && WallContact(m, center, radius, init[j]).Some?;
          assert walls[j] == init[j];
        } else {
          assert walls[|walls| - 1] == w;
        }
      }
    }
  }

  /** After a single wall the pushed circle just touches the rectangle's point that was nearest to it. */
  lemma FirstWallTouches(m: Math, k: Kinematics, radius: Positive, w: Wall)
    requires m.Lawful()
    requires WallContact(m, k.pos.Truncate(), radius, w).Some?
    requires WallContact(m, k.pos.Truncate(), radius, w).value.penetration > 0.0
    ensures var q := ClosestPoint(k.pos.Truncate(), w.center.Truncate(), w.collider.halfExtents);
      AgainstWalls(m, k.pos.Truncate(), radius, k, [w]).pos.Truncate().Sub(q).LengthSq() == radius * radius
  {
    var p := k.pos.Truncate();
    var c := WallContact(m, p, radius, w).value;
    var q := ClosestPoint(p, w.center.Truncate(), w.collider.halfExtents);
    assert [w][..0] == [];
    assert AgainstWalls(m, p, radius, k, [w]) == WallResponse(k, c);
    CircleVsRectGeometry(m, p, radius, w.center.Truncate(), w.collider.halfExtents);
    PushOutToRadius(p, q, c.normal, radius, c.penetration);
  }

  /** The inner loop body of `circle_wall_collision_system`: the mover `b`, whose centre was `center`, against wall `w`. */
  method BounceOffWall(m: Math, center: Vec2, radius: Positive, b: Mover, w: Wall) returns (r: Mover, hit: bool)
    requires m.Lawful()
    ensures Kinematics(r.pos, r.vel) == WallStep(m, center, radius, Kinematics(b.pos, b.vel), w)
    ensures r == b.(pos := r.pos, vel := r.vel)
    ensures hit == WallContact(m, center, radius, w).Some?
  {
    r, hit := b, false;
    if w.collider.Rect? {
      var contact := CircleVsRect(m, center, radius, w.center.Truncate(), w.collider.halfExtents);
      if contact.Some? {
        var normal := contact.value.normal;
        var vel2d := r.vel.Truncate();
        var reflected := vel2d.Sub(normal.Scale(2.0 * vel2d.Dot(normal)));
        r := r.(vel := reflected.Extend(r.vel.z));
        var penetration := contact.value.penetration;
        if penetration > 0.0 {
          r := r.(pos := r.pos.Add(normal.Scale(penetration).Extend(0.0)));
        }
        hit := true;
      }
    }
  }

  /** The inner loop of `circle_wall_collision_system` for one mover. */
  method MoverAgainstWalls(m: Math, b: Mover, walls: seq<Wall>) returns (r: Mover, events: seq<CollisionEvent>)
    requires m.Lawful()
    ensures (r, events) == MoverVsWalls(m, b, walls)
  {
    r, events := b, [];
    if b.collider.Circle? {
      var radius := b.collider.radius;
      var center := b.pos.Truncate();
      assert walls[..0] == [];
      for j := 0 to |walls|
        invariant Kinematics(r.pos, r.vel) == AgainstWalls(m, center, radius, Kinematics(b.pos, b.vel), walls[..j])
        invariant r == b.(pos := r.pos, vel := r.vel)
        invariant events == WallEvents(m, b.id, center, radius, walls[..j])
      {
        assert walls[..j + 1][..j] == walls[..j];
        var hit;
        r, hit := BounceOffWall(m, center, radius, r, walls[j]);
        if hit {
          events := events + [CollisionEvent(b.id, walls[j].id)];
        }
      }
      assert walls[..|walls|] == walls;
    }
  }

  /**
    `circle_wall_collision_system`: each mover in turn against every wall;
    the events of all movers, mover by mover.
  */
  method CircleWallCollisionSystem(m: Math, movers: array<Mover>, walls: seq<Wall>) returns (events: seq<CollisionEvent>)
    requires m.Lawful()
    modifies movers
    ensures forall i :: 0 <= i < movers.Length ==> movers[i] == MoverVsWalls(m, old(movers[i]), walls).0
    ensures events == AllWallEvents(m, old(movers[..]), walls)
  {
    ghost var bs := movers[..];
    events := [];
    assert bs[..0] == [];
    for i := 0 to movers.Length
      invariant forall j :: 0 <= j < i ==> movers[j] == MoverVsWalls(m, bs[j], walls).0
      invariant forall j :: i <= j < movers.Length ==> movers[j] == bs[j]
      invariant events == AllWallEvents(m, bs[..i], walls)
    {
      assert bs[..i + 1][..i] == bs[..i];
      var b, evs := MoverAgainstWalls(m, movers[i], walls);
      movers[i] := b;
      events := events + evs;
    }
    assert bs[..movers.Length] == bs;
  }

  //------------------------------------------------------------------
  // Circle against circle
  //------------------------------------------------------------------

  /** The two velocities after the first gives up `c1·n` and the second `c2·n`. */
  function Exchange(v1: Vec2, v2: Vec2, n: Vec2, c1: real, c2: real): (Vec2, Vec2) {
    (v1.Sub(n.Scale(c1)), v2.Sub(n.Scale(c2)))
  }

  /**
    The elastic exchange of two planar velocities along `n`:
    `v1 - (2 m2/(m1+m2))((v1-v2)·n) n` and `v2 - (2 m1/(m1+m2))((v2-v1)·n) n`.
  */
  function Elastic(v1: Vec2, m1: Positive, v2: Vec2, m2: Positive, n: Vec2): (Vec2, Vec2) {
    Exchange(v1, v2, n, Impulse(v1, m1, v2, m2, n), Impulse(v2, m2, v1, m1, n))
  }

  /** How much of `n` the body of mass `m1` gives up: `(2 m2/(m1+m2))((v1-v2)·n)`. */
  function Impulse(v1: Vec2, m1: Positive, v2: Vec2, m2: Positive, n: Vec2): real {
    (2.0 * m2 / (m1 + m2)) * v1.Sub(v2).Dot(n)
  }

  /** The two exchange coefficients carry equal momentum and add up to two. */
  lemma Coefficients(m1: Positive, m2: Positive)
    ensures m1 * (2.0 * m2 / (m1 + m2)) == m2 * (2.0 * m1 / (m1 + m2))
    ensures 2.0 * m2 / (m1 + m2) + 2.0 * m1 / (m1 + m2) == 2.0
  {
    var s, t := 2.0 * m2 / (m1 + m2), 2.0 * m1 / (m1 + m2);
    assert s * (m1 + m2) == 2.0 * m2 && t * (m1 + m2) == 2.0 * m1;
    assert (m1 * s) * (m1 + m2) == (m2 * t) * (m1 + m2);
    assert (s + t) * (m1 + m2) == 2.0 * (m1 + m2);
  }

  lemma OppositeDots(v1: Vec2, v2: Vec2, n: Vec2)
    ensures v2.Sub(v1).Dot(n) == -v1.Sub(v2).Dot(n)
  {}

  /** Opposite normal speeds scaled by coefficients of equal momentum cancel. */
  lemma Cancel(m1: real, m2: real, s: real, t: real, a: real, b: real)
    requires m1 * s == m2 * t && b == -a
    ensures m1 * (s * a) + m2 * (t * b) == 0.0
  {
    assert m1 * (s * a) == (m1 * s) * a && m2 * (t * b) == (m2 * t) * b;
  }

  /** On one axis, the momentum the exchange takes from one body it gives to the other. */
  lemma MomentumAxis(x1: real, x2: real, n: real, c1: real, c2: real, m1: real, m2: real)
    requires m1 * c1 + m2 * c2 == 0.0
    ensures m1 * (x1 - n * c1) + m2 * (x2 - n * c2) == m1 * x1 + m2 * x2
  {
    assert m1 * (n * c1) + m2 * (n * c2) == n * (m1 * c1 + m2 * c2);
  }

  /** An exchange whose amounts carry opposite momentum keeps the joint momentum. */
  lemma ExchangeMomentum(v1: Vec2, v2: Vec2, n: Vec2, c1: real, c2: real, m1: real, m2: real)
    requires m1 * c1 + m2 * c2 == 0.0
    ensures var r := Exchange(v1, v2, n, c1, c2);
      && m1 * r.0.x + m2 * r.1.x == m1 * v1.x + m2 * v2.x
      && m1 * r.0.y + m2 * r.1.y == m1 * v1.y + m2 * v2.y
  {
    MomentumAxis(v1.x, v2.x, n.x, c1, c2, m1, m2);
    MomentumAxis(v1.y, v2.y, n.y, c1, c2, m1, m2);
  }

  /** Taking `c` units of a unit `n` off `v` changes `|v|²` by `c² - 2c(v·n)`. */
  lemma ShiftLengthSq(v: Vec2, n: Vec2, c: real, w: Vec2)
    requires n.IsUnit() && w == v.Sub(n.Scale(c))
    ensures w.LengthSq() == v.LengthSq() - 2.0 * c * v.Dot(n) + c * c
  {
    calc {
      w.LengthSq();
    == (v.x - n.x * c) * (v.x - n.x * c) + (v.y - n.y * c) * (v.y - n.y * c);
    == v.LengthSq() - 2.0 * c * v.Dot(n) + c * c * (n.x * n.x + n.y * n.y);
    }
  }

  /**
    The one-dimensional elastic exchange along the normal: the amounts
    `c1 = s·a` and `c2 = -t·a` taken off normal speeds `u1`, `u2` with
    `a = u1 - u2` leave `m1 |v1|² + m2 |v2|²` as it was.
  */
  lemma NormalScalars(m1: real, m2: real, s: real, t: real, u1: real, u2: real, a: real, b: real,
                      c1: real, c2: real, k1: real, k2: real, l1: real, l2: real)
    requires m1 * s == m2 * t && s + t == 2.0
    requires a == u1 - u2 && b == -a && c1 == s * a && c2 == t * b
    requires l1 == k1 - 2.0 * c1 * u1 + c1 * c1 && l2 == k2 - 2.0 * c2 * u2 + c2 * c2
    ensures m1 * l1 + m2 * l2 == m1 * k1 + m2 * k2
  {
    var k := m1 * s;
    calc {
      m1 * (c1 * c1 - 2.0 * c1 * u1) + m2 * (c2 * c2 - 2.0 * c2 * u2);
    == (m1 * s) * s * a * a - 2.0 * (m1 * s) * a * u1 + (m2 * t) * t * a * a + 2.0 * (m2 * t) * a * u2;
    == k * (s + t) * a * a - 2.0 * k * a * (u1 - u2);
    == 0.0;
    }
  }

  /** Along a unit `n` an exchange takes `c1` and `c2` off the normal components and keeps the tangential ones. */
  lemma ExchangeComponents(v1: Vec2, v2: Vec2, n: Vec2, c1: real, c2: real, w1: Vec2, w2: Vec2)
    requires n.IsUnit() && (w1, w2) == Exchange(v1, v2, n, c1, c2)
    ensures w1.Dot(n) == v1.Dot(n) - c1 && w2.Dot(n) == v2.Dot(n) - c2
    ensures w1.Dot(n.Perp()) == v1.Dot(n.Perp()) && w2.Dot(n.Perp()) == v2.Dot(n.Perp())
  {
    SubScale(v1, n, c1);
    SubScale(v2, n, c2);
    ShiftAlongNormal(v1, n, -c1);
    ShiftAlongNormal(v2, n, -c2);
  }

  /**
    Along a unit normal, an exchange with coefficients of equal momentum
    summing to two keeps the kinetic energy.
  */
  lemma ExchangeEnergy(v1: Vec2, v2: Vec2, n: Vec2, s: real, t: real, m1: real, m2: real,
                       c1: real, c2: real, w1: Vec2, w2: Vec2)
    requires n.IsUnit() && m1 * s == m2 * t && s + t == 2.0
    requires c1 == s * v1.Sub(v2).Dot(n) && c2 == t * v2.Sub(v1).Dot(n)
    requires (w1, w2) == Exchange(v1, v2, n, c1, c2)
    ensures m1 * w1.LengthSq() + m2 * w2.LengthSq() == m1 * v1.LengthSq() + m2 * v2.LengthSq()
  {
    DotSub(v1, v2, n);
    DotSub(v2, v1, n);
    ShiftLengthSq(v1, n, c1, w1);
    ShiftLengthSq(v2, n, c2, w2);
    NormalScalars(m1, m2, s, t, v1.Dot(n), v2.Dot(n), v1.Sub(v2).Dot(n), v2.Sub(v1).Dot(n), c1, c2,
                  v1.LengthSq(), v2.LengthSq(), w1.LengthSq(), w2.LengthSq());
  }

  /** With coefficients summing to two, an exchange along a unit normal reverses the relative normal velocity. */
  lemma ExchangeReverses(v1: Vec2, v2: Vec2, n: Vec2, s: real, t: real, c1: real, c2: real, w1: Vec2, w2: Vec2)
    requires n.IsUnit() && s + t == 2.0
    requires c1 == s * v1.Sub(v2).Dot(n) && c2 == t * v2.Sub(v1).Dot(n)
    requires (w1, w2) == Exchange(v1, v2, n, c1, c2)
    ensures w1.Sub(w2).Dot(n) == -v1.Sub(v2).Dot(n)
  {
    DotSub(v1, v2, n);
    DotSub(v2, v1, n);
    ExchangeComponents(v1, v2, n, c1, c2, w1, w2);
    DotSub(w1, w2, n);
    assert c1 - c2 == (s + t) * v1.Sub(v2).Dot(n);
  }

  /** The elastic exchange conserves momentum along any `n`. */
  lemma ElasticMomentum(v1: Vec2, m1: Positive, v2: Vec2, m2: Positive, n: Vec2, w1: Vec2, w2: Vec2)
    requires (w1, w2) == Elastic(v1, m1, v2, m2, n)
    ensures m1 * w1.x + m2 * w2.x == m1 * v1.x + m2 * v2.x
    ensures m1 * w1.y + m2 * w2.y == m1 * v1.y + m2 * v2.y
  {
    Coefficients(m1, m2);
    OppositeDots(v1, v2, n);
    Cancel(m1, m2, 2.0 * m2 / (m1 + m2), 2.0 * m1 / (m1 + m2), v1.Sub(v2).Dot(n), v2.Sub(v1).Dot(n));
    ExchangeMomentum(v1, v2, n, Impulse(v1, m1, v2, m2, n), Impulse(v2, m2, v1, m1, n), m1, m2);
  }

  /**
    Along a unit `n` the elastic exchange also conserves kinetic energy,
    keeps each tangential component and reverses the relative normal
    velocity.
  */
  lemma ElasticAlongNormal(v1: Vec2, m1: Positive, v2: Vec2, m2: Positive, n: Vec2, w1: Vec2, w2: Vec2)
    requires n.IsUnit() && (w1, w2) == Elastic(v1, m1, v2, m2, n)
    ensures m1 * w1.LengthSq() + m2 * w2.LengthSq() == m1 * v1.LengthSq() + m2 * v2.LengthSq()
    ensures w1.Dot(n.Perp()) == v1.Dot(n.Perp()) && w2.Dot(n.Perp()) == v2.Dot(n.Perp())
    ensures w1.Sub(w2).Dot(n) == -v1.Sub(v2).Dot(n)
  {
    var c1, c2 := Impulse(v1, m1, v2, m2, n), Impulse(v2, m2, v1, m1, n);
    Coefficients(m1, m2);
    ExchangeComponents(v1, v2, n, c1, c2, w1, w2);
    ExchangeEnergy(v1, v2, n, 2.0 * m2 / (m1 + m2), 2.0 * m1 / (m1 + m2), m1, m2, c1, c2, w1, w2);
    ExchangeReverses(v1, v2, n, 2.0 * m2 / (m1 + m2), 2.0 * m1 / (m1 + m2), c1, c2, w1, w2);
  }

  /**
    The loop body of `circle_circle_collision_system` for the pair `(i, j)`:
    two overlapping circles exchange velocity elastically, move apart by
    half the penetration in inverse proportion to their masses, and write
    one event.
  */
  function PairStep(m: Math, bs: seq<Mover>, i: nat, j: nat): (r: (seq<Mover>, Option<CollisionEvent>))
    requires m.Lawful() && i < j < |bs|
    ensures |r.0| == |bs| && forall k :: 0 <= k < |bs| && k != i && k != j ==> r.0[k] == bs[k]
    ensures r.0[i] == bs[i].(pos := r.0[i].pos, vel := r.0[i].vel)
    ensures r.0[j] == bs[j].(pos := r.0[j].pos, vel := r.0[j].vel)
  {
    var b1, b2 := bs[i], bs[j];
    match (b1.collider, b2.collider)
    case (Circle(r1), Circle(r2)) =>
      (match CircleVsCircle(m, b1.pos.Truncate(), r1, b2.pos.Truncate(), r2)
       case Some(c) =>
         var m1, m2 := MassOf(b1), MassOf(b2);
         var vs := Elastic(b1.vel.Truncate(), m1, b2.vel.Truncate(), m2, c.normal);
         var ps := Depenetrate(b1.pos, m1, b2.pos, m2, c.normal, 0.5 * c.penetration);
         (bs[i := b1.(pos := ps.0, vel := vs.0.Extend(b1.vel.z))][j := b2.(pos := ps.1, vel := vs.1.Extend(b2.vel.z))],
          Some(CollisionEvent(b1.id, b2.id)))
       case None => (bs, None))
    case _ => (bs, None)
  }

  /** What one pair step does: the contact test, the event, the new velocities and positions. */
  lemma PairStepSpec(m: Math, bs: seq<Mover>, i: nat, j: nat)
    requires m.Lawful() && i < j < |bs|
    ensures PairStep(m, bs, i, j).1.None? ==> PairStep(m, bs, i, j).0 == bs
    ensures PairStep(m, bs, i, j).1.Some? <==>
      && bs[i].collider.Circle? && bs[j].collider.Circle?
      && m.Length(bs[j].pos.Truncate().Sub(bs[i].pos.Truncate())) < bs[i].collider.radius + bs[j].collider.radius
    ensures PairStep(m, bs, i, j).1.Some? ==>
      var c := CircleVsCircle(m, bs[i].pos.Truncate(), bs[i].collider.radius, bs[j].pos.Truncate(), bs[j].collider.radius).value;
      var r := PairStep(m, bs, i, j).0;
      && PairStep(m, bs, i, j).1.value == CollisionEvent(bs[i].id, bs[j].id)
      && (r[i].vel.Truncate(), r[j].vel.Truncate()) == Elastic(bs[i].vel.Truncate(), MassOf(bs[i]), bs[j].vel.Truncate(), MassOf(bs[j]), c.normal)
      && r[i].vel.z == bs[i].vel.z && r[j].vel.z == bs[j].vel.z
      && (r[i].pos, r[j].pos) == Depenetrate(bs[i].pos, MassOf(bs[i]), bs[j].pos, MassOf(bs[j]), c.normal, 0.5 * c.penetration)
  {
  }

  /** Centres `rSum - pen` apart along the unit `n`, separated by half of `pen`, end `rSum - pen/2` apart. */
  lemma HalfSeparation(p1: Vec3, m1: Positive, p2: Vec3, m2: Positive, n: Vec2, rSum: real, pen: real, q1: Vec3, q2: Vec3)
    requires n.IsUnit() && 0.0 < pen && p1.Truncate().Add(n.Scale(rSum - pen)) == p2.Truncate()
    requires (q1, q2) == Depenetrate(p1, m1, p2, m2, n, 0.5 * pen)
    ensures q2.Truncate().Sub(q1.Truncate()).LengthSq() == Square(rSum - 0.5 * pen)
  {
    DepenetrateGap(p1, m1, p2, m2, n, 0.5 * pen);
    SeparateToSum(p1.Truncate(), p2.Truncate(), n, rSum - 0.5 * pen, 0.5 * pen);
  }

  /**
    Separation removes half of the overlap: after the step the centres lie
    `r1 + r2 - pen/2` apart, where `pen` was the overlap before it.
  */
  lemma PairStepHalvesOverlap(m: Math, bs: seq<Mover>, i: nat, j: nat)
    requires m.Lawful() && i < j < |bs|
    requires PairStep(m, bs, i, j).1.Some?
    ensures bs[i].collider.Circle? && bs[j].collider.Circle?
    ensures var rSum := bs[i].collider.radius + bs[j].collider.radius;
      var c := CircleVsCircle(m, bs[i].pos.Truncate(), bs[i].collider.radius, bs[j].pos.Truncate(), bs[j].collider.radius).value;
      var r := PairStep(m, bs, i, j).0;
      r[j].pos.Truncate().Sub(r[i].pos.Truncate()).LengthSq() == Square(rSum - 0.5 * c.penetration)
  {
    PairStepSpec(m, bs, i, j);
    var p1, p2 := bs[i].pos.Truncate(), bs[j].pos.Truncate();
    var r1, r2 := bs[i].collider.radius, bs[j].collider.radius;
    var c := CircleVsCircle(m, p1, r1, p2, r2).value;
    CircleVsCircleGeometry(m, p1, r1, p2, r2);
    var r := PairStep(m, bs, i, j).0;
    HalfSeparation(bs[i].pos, MassOf(bs[i]), bs[j].pos, MassOf(bs[j]), c.normal, r1 + r2, c.penetration, r[i].pos, r[j].pos);
  }

  //------------------------------------------------------------------
  // Totals over the movers
  //------------------------------------------------------------------

  function MomentumX(b: Mover): real { MassOf(b) * b.vel.x }
  function MomentumY(b: Mover): real { MassOf(b) * b.vel.y }
  function KineticEnergy(b: Mover): real { 0.5 * MassOf(b) * b.vel.LengthSq() }

  /** The sum of `f` over the movers. */
  function Total(f: Mover -> real, bs: seq<Mover>): real {
    if bs == [] then 0.0 else Total(f, bs[..|bs| - 1]) + f(bs[|bs| - 1])
  }

  /** Two sequences that differ at `i` only have the same total apart from `i`. */
  lemma {:induction false} TotalOne(f: Mover -> real, bs: seq<Mover>, cs: seq<Mover>, i: nat)
    requires |bs| == |cs| && i < |bs|
    requires forall k :: 0 <= k < |bs| && k != i ==> bs[k] == cs[k]
    ensures Total(f, bs) - f(bs[i]) == Total(f, cs) - f(cs[i])
  {
    var n := |bs| - 1;
    if i == n {
      assert bs[..n] == cs[..n];
    } else {
      TotalOne(f, bs[..n], cs[..n], i);
      assert bs[n] == cs[n];
    }
  }

  /** Changing two movers without changing their joint share keeps the total. */
  lemma TotalPair(f: Mover -> real, bs: seq<Mover>, cs: seq<Mover>, i: nat, j: nat)
    requires |bs| == |cs| && i < j < |bs|
    requires forall k :: 0 <= k < |bs| && k != i && k != j ==> bs[k] == cs[k]
    requires f(bs[i]) + f(bs[j]) == f(cs[i]) + f(cs[j])
    ensures Total(f, bs) == Total(f, cs)
  {
    var mid := bs[i := cs[i]];
    TotalOne(f, bs, mid, i);
    TotalOne(f, mid, cs, j);
  }

  /** Heights are kept, so the planar conservation carries over to the whole kinetic energy. */
  lemma EnergyWithHeight(a1: Vec3, a2: Vec3, b1: Vec3, b2: Vec3, m1: real, m2: real)
    requires a1.z == b1.z && a2.z == b2.z
    requires m1 * b1.Truncate().LengthSq() + m2 * b2.Truncate().LengthSq()
          == m1 * a1.Truncate().LengthSq() + m2 * a2.Truncate().LengthSq()
    ensures 0.5 * m1 * b1.LengthSq() + 0.5 * m2 * b2.LengthSq() == 0.5 * m1 * a1.LengthSq() + 0.5 * m2 * a2.LengthSq()
  {
    assert a1.LengthSq() == a1.Truncate().LengthSq() + a1.z * a1.z;
    assert a2.LengthSq() == a2.Truncate().LengthSq() + a2.z * a2.z;
    assert b1.LengthSq() == b1.Truncate().LengthSq() + b1.z * b1.z;
    assert b2.LengthSq() == b2.Truncate().LengthSq() + b2.z * b2.z;
  }

  /** Movers that keep their masses and their joint planar momentum keep their momentum totals. */
  lemma MomentumKept(b1: Mover, b2: Mover, c1: Mover, c2: Mover, m1: Positive, m2: Positive)
    requires MassOf(b1) == m1 == MassOf(c1) && MassOf(b2) == m2 == MassOf(c2)
    requires m1 * c1.vel.Truncate().x + m2 * c2.vel.Truncate().x == m1 * b1.vel.Truncate().x + m2 * b2.vel.Truncate().x
    requires m1 * c1.vel.Truncate().y + m2 * c2.vel.Truncate().y == m1 * b1.vel.Truncate().y + m2 * b2.vel.Truncate().y
    ensures MomentumX(c1) + MomentumX(c2) == MomentumX(b1) + MomentumX(b2)
    ensures MomentumY(c1) + MomentumY(c2) == MomentumY(b1) + MomentumY(b2)
  {}

  /** Two movers whose planar velocities went through the elastic exchange along a unit normal keep their totals. */
  lemma ElasticMovers(b1: Mover, b2: Mover, c1: Mover, c2: Mover, n: Vec2)
    requires n.IsUnit() && c1.mass == b1.mass && c2.mass == b2.mass
    requires c1.vel.z == b1.vel.z && c2.vel.z == b2.vel.z
    requires (c1.vel.Truncate(), c2.vel.Truncate()) == Elastic(b1.vel.Truncate(), MassOf(b1), b2.vel.Truncate(), MassOf(b2), n)
    ensures MomentumX(c1) + MomentumX(c2) == MomentumX(b1) + MomentumX(b2)
    ensures MomentumY(c1) + MomentumY(c2) == MomentumY(b1) + MomentumY(b2)
    ensures KineticEnergy(c1) + KineticEnergy(c2) == KineticEnergy(b1) + KineticEnergy(b2)
  {
    var m1, m2 := MassOf(b1), MassOf(b2);
    ElasticMomentum(b1.vel.Truncate(), m1, b2.vel.Truncate(), m2, n, c1.vel.Truncate(), c2.vel.Truncate());
    MomentumKept(b1, b2, c1, c2, m1, m2);
    ElasticAlongNormal(b1.vel.Truncate(), m1, b2.vel.Truncate(), m2, n, c1.vel.Truncate(), c2.vel.Truncate());
    EnergyKept(b1, b2, c1, c2, m1, m2);
  }

  /** Movers that keep their masses, heights and joint planar energy keep their kinetic energy. */
  lemma EnergyKept(b1: Mover, b2: Mover, c1: Mover, c2: Mover, m1: Positive, m2: Positive)
    requires MassOf(b1) == m1 == MassOf(c1) && MassOf(b2) == m2 == MassOf(c2)
    requires c1.vel.z == b1.vel.z && c2.vel.z == b2.vel.z
    requires m1 * c1.vel.Truncate().LengthSq() + m2 * c2.vel.Truncate().LengthSq()
          == m1 * b1.vel.Truncate().LengthSq() + m2 * b2.vel.Truncate().LengthSq()
    ensures KineticEnergy(c1) + KineticEnergy(c2) == KineticEnergy(b1) + KineticEnergy(b2)
  {
    EnergyWithHeight(b1.vel, b2.vel, c1.vel, c2.vel, m1, m2);
  }

  /** One pair step keeps the pair's momentum and kinetic energy. */
  lemma PairStepConserves(m: Math, bs: seq<Mover>, i: nat, j: nat)
    requires m.Lawful() && i < j < |bs|
    ensures var r := PairStep(m, bs, i, j).0;
      && MomentumX(r[i]) + MomentumX(r[j]) == MomentumX(bs[i]) + MomentumX(bs[j])
      && MomentumY(r[i]) + MomentumY(r[j]) == MomentumY(bs[i]) + MomentumY(bs[j])
      && KineticEnergy(r[i]) + KineticEnergy(r[j]) == KineticEnergy(bs[i]) + KineticEnergy(bs[j])
  {
    PairStepSpec(m, bs, i, j);
    if PairStep(m, bs, i, j).1.Some? {
      var p1, p2 := bs[i].pos.Truncate(), bs[j].pos.Truncate();
      var r1, r2 := bs[i].collider.radius, bs[j].collider.radius;
      CircleVsCircleGeometry(m, p1, r1, p2, r2);
      var r := PairStep(m, bs, i, j).0;
      ElasticMovers(bs[i], bs[j], r[i], r[j], CircleVsCircle(m, p1, r1, p2, r2).value.normal);
    }
  }

  //------------------------------------------------------------------
  // The pass over all pairs
  //------------------------------------------------------------------

  function OptionToSeq(o: Option<CollisionEvent>): seq<CollisionEvent> {
    if o.Some? then [o.value] else []
  }

  /**
    The movers and events after the pairs `ps`, taken in order.  A pair
    outside `i < j < |bs|` is passed over; the iterator yields none
    (`Detection.AllPairsSpec`).
  */
  function CirclePass(m: Math, bs: seq<Mover>, ps: seq<(nat, nat)>): (r: (seq<Mover>, seq<CollisionEvent>))
    requires m.Lawful()
    ensures |r.0| == |bs| && |r.1| <= |ps|
  {
    if ps == [] then (bs, [])
    else
      var prior := CirclePass(m, bs, ps[..|ps| - 1]);
      var p := ps[|ps| - 1];
      if p.0 < p.1 < |bs| then
        var step := PairStep(m, prior.0, p.0, p.1);
        (step.0, prior.1 + OptionToSeq(step.1))
      else prior
  }

  /** The pass conserves the total momentum and the total kinetic energy of the movers. */
  lemma {:induction false} CirclePassConserves(m: Math, bs: seq<Mover>, ps: seq<(nat, nat)>)
    requires m.Lawful()
    ensures Total(MomentumX, CirclePass(m, bs, ps).0) == Total(MomentumX, bs)
    ensures Total(MomentumY, CirclePass(m, bs, ps).0) == Total(MomentumY, bs)
    ensures Total(KineticEnergy, CirclePass(m, bs, ps).0) == Total(KineticEnergy, bs)
  {
    if ps != [] {
      var init := ps[..|ps| - 1];
      CirclePassConserves(m, bs, init);
      var prior := CirclePass(m, bs, init).0;
      var p := ps[|ps| - 1];
      if p.0 < p.1 < |prior| {
        var next := PairStep(m, prior, p.0, p.1).0;
        assert CirclePass(m, bs, ps).0 == next;
        PairStepConserves(m, prior, p.0, p.1);
        TotalPair(MomentumX, prior, next, p.0, p.1);
        TotalPair(MomentumY, prior, next, p.0, p.1);
        TotalPair(KineticEnergy, prior, next, p.0, p.1);
      }
    }
  }

  /** Every event of the pass names two distinct movers of a pair that was taken. */
  lemma {:induction false} CirclePassEvents(m: Math, bs: seq<Mover>, ps: seq<(nat, nat)>)
    requires m.Lawful()
    ensures forall ev :: ev in CirclePass(m, bs, ps).1 ==>
      exists k :: 0 <= k < |ps| && ps[k].0 < ps[k].1 < |bs| && ev == CollisionEvent(bs[ps[k].0].id, bs[ps[k].1].id)
  {
    if ps != [] {
      var init := ps[..|ps| - 1];
      CirclePassEvents(m, bs, init);
      var prior := CirclePass(m, bs, init);
      var p := ps[|ps| - 1];
      CirclePassKeepsIds(m, bs, init);
      forall ev | ev in CirclePass(m, bs, ps).1
        ensures exists k :: 0 <= k < |ps| && ps[k].0 < ps[k].1 < |bs| && ev == CollisionEvent(bs[ps[k].0].id, bs[ps[k].1].id)
      {
        if ev in prior.1 {
          var k :| 0 <= k < |init| && init[k].0 < init[k].1 < |bs| && ev == CollisionEvent(bs[init[k].0].id, bs[init[k].1].id);
          assert ps[k] == init[k];
        } else {
          assert p.0 < p.1 < |bs|;
          PairStepSpec(m, prior.0, p.0, p.1);
          assert ev == CollisionEvent(prior.0[p.0].id, prior.0[p.1].id);
          assert ps[|ps| - 1] == p;
        }
      }
    }
  }

  /** The pass never changes which entity sits at which place. */
  lemma {:induction false} CirclePassKeepsIds(m: Math, bs: seq<Mover>, ps: seq<(nat, nat)>)
    requires m.Lawful()
    ensures forall k :: 0 <= k < |bs| ==> CirclePass(m, bs, ps).0[k].id == bs[k].id
  {
    if ps != [] {
      CirclePassKeepsIds(m, bs, ps[..|ps| - 1]);
    }
  }

  /** The movers `q` and events `evs` are those the pass over `ps` leaves, starting from `bs`. */
  ghost predicate Passed(m: Math, bs: seq<Mover>, ps: seq<(nat, nat)>, q: seq<Mover>, evs: seq<CollisionEvent>)
    requires m.Lawful()
  {
    var r := CirclePass(m, bs, ps);
    q == r.0 && evs == r.1
  }

  /** The pair `(i, j)` taken in place after the pairs before it in row `i`. */
  method CollideInRow(m: Math, q: array<Mover>, i: nat, j: nat, events: seq<CollisionEvent>,
                      ghost bs: seq<Mover>, ghost ps: seq<(nat, nat)>) returns (out: seq<CollisionEvent>)
    requires m.Lawful() && |bs| == q.Length && i < j < q.Length
    requires Passed(m, bs, Detection.RowOnto(ps, i, j), q[..], events)
    modifies q
    ensures Passed(m, bs, Detection.RowOnto(ps, i, j + 1), q[..], out)
  {
    ghost var done := Detection.RowOnto(ps, i, j);
    assert Detection.RowOnto(ps, i, j + 1) == done + [(i, j)];
    assert (done + [(i, j)])[..|done|] == done;
    ghost var step := PairStep(m, q[..], i, j);
    out := events;
    var b1, b2 := q[i], q[j];
    if b1.collider.Circle? && b2.collider.Circle? {
      var contact := CircleVsCircle(m, b1.pos.Truncate(), b1.collider.radius, b2.pos.Truncate(), b2.collider.radius);
      if contact.Some? {
        var m1, m2 := MassOf(b1), MassOf(b2);
        var vs := Elastic(b1.vel.Truncate(), m1, b2.vel.Truncate(), m2, contact.value.normal);
        var correction := 0.5 * contact.value.penetration;
        var ps := Depenetrate(b1.pos, m1, b2.pos, m2, contact.value.normal, correction);
        q[i] := b1.(pos := ps.0, vel := vs.0.Extend(b1.vel.z));
        q[j] := b2.(pos := ps.1, vel := vs.1.Extend(b2.vel.z));
        out := out + [CollisionEvent(b1.id, b2.id)];
      }
    }
    assert q[..] == step.0 && out == events + OptionToSeq(step.1);
  }

  /** Row `i` of the iteration: the pairs `(i, j)` for every `j > i`, in order. */
  method CollideRow(m: Math, q: array<Mover>, i: nat, events: seq<CollisionEvent>, ghost bs: seq<Mover>)
    returns (out: seq<CollisionEvent>)
    requires m.Lawful() && |bs| == q.Length && i < q.Length
    requires Passed(m, bs, Detection.PairsBefore(q.Length, i), q[..], events)
    modifies q
    ensures Passed(m, bs, Detection.PairsBefore(q.Length, i + 1), q[..], out)
  {
    var n := q.Length;
    ghost var ps := Detection.PairsBefore(n, i);
    out := events;
    for j := i + 1 to n
      invariant Passed(m, bs, Detection.RowOnto(ps, i, j), q[..], out)
    {
      out := CollideInRow(m, q, i, j, out, bs, ps);
    }
    Detection.RowCompletes(n, i);
  }

  /**
    `circle_circle_collision_system`: every pair of movers `(i, j)` with
    `i < j`, in the iterator's order, is tested and resolved in place.
  */
  method CircleCircleCollisionSystem(m: Math, q: array<Mover>) returns (events: seq<CollisionEvent>)
    requires m.Lawful()
    modifies q
    ensures Passed(m, old(q[..]), Detection.AllPairs(q.Length), q[..], events)
  {
    ghost var bs := q[..];
    events := [];
    assert Detection.PairsBefore(q.Length, 0) == [];
    for i := 0 to q.Length
      invariant Passed(m, bs, Detection.PairsBefore(q.Length, i), q[..], events)
    {
      events := CollideRow(m, q, i, events, bs);
    }
    assert Detection.PairsBefore(q.Length, q.Length) == Detection.AllPairs(q.Length);
  }
}
