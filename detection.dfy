/**
  The two detection systems of src/physics/collision/systems.rs: every
  circle mover against every rectangular wall, and every pair of circle
  movers.  The movers are an array updated in place; each detected contact
  is resolved at once and recorded in the `Contacts` resource under its
  ordered pair key, with the contact data taken before resolution.
*/
module Detection {
  import opened Vectors
  import opened Wrappers
  import opened Components
  import opened Collision
  import opened ContactTracking

  /** What a detection step records: `contacts.current.insert(key, data)`. */
  type Insert = (ContactKey, ContactData)

  /** `contacts.current` after the inserts `ins`, in order: a later insert of a key overwrites an earlier one. */
  function RecordAll(current: map<ContactKey, ContactData>, ins: seq<Insert>): map<ContactKey, ContactData> {
    if ins == [] then current
    else RecordAll(current, ins[..|ins| - 1])[ins[|ins| - 1].0 := ins[|ins| - 1].1]
  }

  function InsertKeys(ins: seq<Insert>): set<ContactKey> {
    set i | 0 <= i < |ins| :: ins[i].0
  }

  /** Recording `a` and then `b` is recording `a + b`. */
  lemma {:induction false} RecordAllAppend(current: map<ContactKey, ContactData>, a: seq<Insert>, b: seq<Insert>)
    ensures RecordAll(RecordAll(current, a), b) == RecordAll(current, a + b)
  {
    if b == [] {
      assert a + b == a;
    } else {
      var b0 := b[..|b| - 1];
      RecordAllAppend(current, a, b0);
      assert (a + b)[..|a + b| - 1] == a + b0;
      assert (a + b)[|a + b| - 1] == b[|b| - 1];
      assert RecordAll(current, a + b)
          == RecordAll(current, a + b0)[b[|b| - 1].0 := b[|b| - 1].1];
    }
  }

  /** The inserts add exactly their keys to the map. */
  lemma {:induction false} RecordAllKeys(current: map<ContactKey, ContactData>, ins: seq<Insert>)
    ensures RecordAll(current, ins).Keys == current.Keys + InsertKeys(ins)
  {
    if ins != [] {
      var init := ins[..|ins| - 1];
      RecordAllKeys(current, init);
      forall k | k in InsertKeys(init) ensures k in InsertKeys(ins) {
        var i :| 0 <= i < |init| && init[i].0 == k;
        assert ins[i] == init[i];
      }
      forall k | k in InsertKeys(ins) ensures k in InsertKeys(init) + {ins[|ins| - 1].0} {
        var i :| 0 <= i < |ins| && ins[i].0 == k;
        if i < |init| { assert init[i] == ins[i]; }
      }
    }
  }

  /** A key ends with the data of its last insert. */
  lemma {:induction false} RecordAllLastWins(current: map<ContactKey, ContactData>, ins: seq<Insert>, i: nat)
    requires i < |ins|
    requires forall j :: i < j < |ins| ==> ins[j].0 != ins[i].0
    ensures ins[i].0 in RecordAll(current, ins) && RecordAll(current, ins)[ins[i].0] == ins[i].1
  {
    if i < |ins| - 1 {
      var init := ins[..|ins| - 1];
      assert init[i] == ins[i];
      forall j | i < j < |init| ensures init[j].0 != init[i].0 {
        assert init[j] == ins[j];
      }
      RecordAllLastWins(current, init, i);
    }
  }

  //------------------------------------------------------------------
  // Circle movers against walls
  //------------------------------------------------------------------

  /**
    The inner loop body of `circle_wall_collision_system`: a circle mover
    against a rectangular wall.  The contact is tested from `center`, the
    mover's centre taken once before the wall loop; on contact the data is
    computed from the current velocity, the current kinematics are resolved
    and the ordered key of mover and wall is recorded; otherwise nothing
    changes.
  */
  function WallStep(m: Math, center: Vec2, b: Body, w: Wall, e: real): (r: (Body, Option<Insert>))
    requires m.Lawful()
    ensures r.0 == b.(pos := r.0.pos, vel := r.0.vel)
  {
    match (b.collider, w.collider)
    case (Circle(radius), Rect(half)) =>
      (match CircleVsRect(m, center, radius, w.center.Truncate(), half)
       case Some(c) =>
         var data := CircleWallContactData(b.vel.Truncate(), b.mass, c, e);
         var k := ResolveCircleWall(Kinematics(b.pos, b.vel), c, e);
         (b.(pos := k.pos, vel := k.vel), Some((OrderedPair(b.id, w.id), data)))
       case None => (b, None))
    case _ => (b, None)
  }

  /** The circle mover `b`, seen from `center`, touches the rectangular wall `w`. */
  predicate TouchesFrom(m: Math, center: Vec2, b: Body, w: Wall)
    requires m.Lawful()
  {
    && b.collider.Circle? && w.collider.Rect?
    && CircleVsRect(m, center, b.collider.radius, w.center.Truncate(), w.collider.halfExtents).Some?
  }

  /** What one wall step does: the contact test from `center`, the recorded data and key, and the resolution. */
  lemma WallStepSpec(m: Math, center: Vec2, b: Body, w: Wall, e: real)
    requires m.Lawful()
    ensures WallStep(m, center, b, w, e).1.None? ==> WallStep(m, center, b, w, e).0 == b
    ensures WallStep(m, center, b, w, e).1.Some? <==> TouchesFrom(m, center, b, w)
    ensures WallStep(m, center, b, w, e).1.Some? ==>
      var c := CircleVsRect(m, center, b.collider.radius, w.center.Truncate(), w.collider.halfExtents).value;
      && WallStep(m, center, b, w, e).1.value == (OrderedPair(b.id, w.id), CircleWallContactData(b.vel.Truncate(), b.mass, c, e))
      && Kinematics(WallStep(m, center, b, w, e).0.pos, WallStep(m, center, b, w, e).0.vel) == ResolveCircleWall(Kinematics(b.pos, b.vel), c, e)
  {
  }

  function OptionToSeq(o: Option<Insert>): seq<Insert> {
    if o.Some? then [o.value] else []
  }

  /**
    A mover against the walls in query order, every contact tested from
    `center`: the mover after every wall, and what was recorded.
  */
  function WallsFrom(m: Math, center: Vec2, b: Body, walls: seq<Wall>, e: real): (r: (Body, seq<Insert>))
    requires m.Lawful()
    // walls change only a mover's position and velocity
    ensures r.0 == b.(pos := r.0.pos, vel := r.0.vel)
    ensures |r.1| <= |walls|
  {
    if walls == [] then (b, [])
    else
      var prior := WallsFrom(m, center, b, walls[..|walls| - 1], e);
      var step := WallStep(m, center, prior.0, walls[|walls| - 1], e);
      (step.0, prior.1 + OptionToSeq(step.1))
  }

  /** The outer loop body of `circle_wall_collision_system`: the centre is taken once, before the wall loop. */
  function MoverVsWalls(m: Math, b: Body, walls: seq<Wall>, e: real): (r: (Body, seq<Insert>))
    requires m.Lawful()
  {
    WallsFrom(m, b.pos.Truncate(), b, walls, e)
  }

  /** The inserts of all movers, mover by mover. */
  function WallInserts(m: Math, bs: seq<Body>, walls: seq<Wall>, e: real): seq<Insert>
    requires m.Lawful()
  {
    if bs == [] then []
    else WallInserts(m, bs[..|bs| - 1], walls, e) + MoverVsWalls(m, bs[|bs| - 1], walls, e).1
  }

  /** Recording the inserts of the first `i + 1` movers is recording those of the first `i`, then those of mover `i`. */
  lemma WallInsertsStep(m: Math, bs: seq<Body>, i: nat, walls: seq<Wall>, e: real, start: map<ContactKey, ContactData>)
    requires m.Lawful() && i < |bs|
    ensures RecordAll(RecordAll(start, WallInserts(m, bs[..i], walls, e)), MoverVsWalls(m, bs[i], walls, e).1)
         == RecordAll(start, WallInserts(m, bs[..i + 1], walls, e))
  {
    assert bs[..i + 1][..i] == bs[..i];
    RecordAllAppend(start, WallInserts(m, bs[..i], walls, e), MoverVsWalls(m, bs[i], walls, e).1);
  }

  /** The inner loop body of `circle_wall_collision_system`, testing from `center` and recording into `contacts`. */
  method MoverAgainstWall(m: Math, center: Vec2, b: Body, w: Wall, contacts: Contacts, e: real) returns (r: Body)
    requires m.Lawful()
    modifies contacts
    ensures r == WallStep(m, center, b, w, e).0
    ensures contacts.current == RecordAll(old(contacts.current), OptionToSeq(WallStep(m, center, b, w, e).1))
    ensures contacts.prev == old(contacts.prev)
  {
    r := b;
    if b.collider.Circle? && w.collider.Rect? {
      var contact := CircleVsRect(m, center, b.collider.radius, w.center.Truncate(), w.collider.halfExtents);
      if contact.Some? {
        var data := CircleWallContactData(b.vel.Truncate(), b.mass, contact.value, e);
        var resolved := ResolveCircleWall(Kinematics(b.pos, b.vel), contact.value, e);
        contacts.Record(OrderedPair(b.id, w.id), data);
        r := b.(pos := resolved.pos, vel := resolved.vel);
      }
    }
  }

  /** A mover that is not a circle is skipped: nothing changes and nothing is recorded. */
  lemma {:induction false} NonCircleSkipped(m: Math, center: Vec2, b: Body, walls: seq<Wall>, e: real)
    requires m.Lawful() && !b.collider.Circle?
    ensures WallsFrom(m, center, b, walls, e) == (b, [])
  {
    if walls != [] {
      NonCircleSkipped(m, center, b, walls[..|walls| - 1], e);
    }
  }

  /**
    The outer loop body of `circle_wall_collision_system`: a mover that is
    not a circle is skipped; a circle's centre is taken once and the mover
    is run against every wall in turn.
  */
  method MoverAgainstWalls(m: Math, b: Body, walls: seq<Wall>, contacts: Contacts, e: real) returns (r: Body)
    requires m.Lawful()
    modifies contacts
    ensures r == MoverVsWalls(m, b, walls, e).0
    ensures contacts.current == RecordAll(old(contacts.current), MoverVsWalls(m, b, walls, e).1)
    ensures contacts.prev == old(contacts.prev)
  {
    r := b;
    if !b.collider.Circle? {
      NonCircleSkipped(m, b.pos.Truncate(), b, walls, e);
      return;
    }
    var center := Vec2(b.pos.x, b.pos.y);
    ghost var start, prev := contacts.current, contacts.prev;
    assert walls[..0] == [];
    for k := 0 to |walls|
      invariant r == WallsFrom(m, center, b, walls[..k], e).0
      invariant contacts.current == RecordAll(start, WallsFrom(m, center, b, walls[..k], e).1)
      invariant contacts.prev == prev
    {
      assert walls[..k + 1][..k] == walls[..k];
      ghost var ins := WallsFrom(m, center, b, walls[..k], e).1;
      ghost var step := WallStep(m, center, r, walls[k], e);
      r := MoverAgainstWall(m, center, r, walls[k], contacts, e);
      RecordAllAppend(start, ins, OptionToSeq(step.1));
    }
    assert walls[..|walls|] == walls;
  }

  /** The first `i` movers of `bs` have been run against the walls and the rest are untouched; `c` holds their inserts. */
  ghost predicate WallsDone(m: Math, bs: seq<Body>, walls: seq<Wall>, e: real, i: nat,
                            start: map<ContactKey, ContactData>, ms: seq<Body>, c: map<ContactKey, ContactData>)
    requires m.Lawful() && i <= |bs|
  {
    && |ms| == |bs|
    && (forall j :: 0 <= j < i ==> ms[j] == MoverVsWalls(m, bs[j], walls, e).0)
    && (forall j :: i <= j < |bs| ==> ms[j] == bs[j])
    && c == RecordAll(start, WallInserts(m, bs[..i], walls, e))
  }

  /** The outer loop body of `circle_wall_collision_system`: mover `i` against every wall, in place. */
  method MoverInPlace(m: Math, movers: array<Body>, i: nat, walls: seq<Wall>, contacts: Contacts, e: real,
                      ghost bs: seq<Body>, ghost start: map<ContactKey, ContactData>)
    requires m.Lawful() && i < |bs|
    requires WallsDone(m, bs, walls, e, i, start, movers[..], contacts.current)
    modifies movers, contacts
    ensures WallsDone(m, bs, walls, e, i + 1, start, movers[..], contacts.current)
    ensures contacts.prev == old(contacts.prev)
  {
    WallInsertsStep(m, bs, i, walls, e, start);
    var b := MoverAgainstWalls(m, movers[i], walls, contacts, e);
    movers[i] := b;
  }

  /**
    `circle_wall_collision_system`: every mover is run against every wall in
    turn; each mover ends as `MoverVsWalls` says and the contacts gain the
    inserts of all movers in order.
  */
  method CircleWallCollisionSystem(m: Math, movers: array<Body>, walls: seq<Wall>, contacts: Contacts, e: real)
    requires m.Lawful()
    modifies movers, contacts
    ensures forall i :: 0 <= i < movers.Length ==> movers[i] == MoverVsWalls(m, old(movers[i]), walls, e).0
    ensures contacts.current == RecordAll(old(contacts.current), WallInserts(m, old(movers[..]), walls, e))
    ensures contacts.prev == old(contacts.prev)
  {
    ghost var bs := movers[..];
    ghost var start, prev := contacts.current, contacts.prev;
    assert bs[..0] == [];
    for i := 0 to movers.Length
      invariant WallsDone(m, bs, walls, e, i, start, movers[..], contacts.current)
      invariant contacts.prev == prev
    {
      MoverInPlace(m, movers, i, walls, contacts, e, bs, start);
    }
    assert bs[..movers.Length] == bs;
  }

  /** The keys of the walls `walls` that a mover seen from `center` touches. */
  function TouchedKeys(m: Math, center: Vec2, b: Body, walls: seq<Wall>): set<ContactKey>
    requires m.Lawful()
  {
    set k | 0 <= k < |walls| && TouchesFrom(m, center, b, walls[k]) :: OrderedPair(b.id, walls[k].id)
  }

  /**
    The recorded keys are exactly those of the walls the circle touches at
    the centre it had before the wall loop, one insert per such wall, each
    joining the mover with that wall.
  */
  lemma {:induction false} MoverKeys(m: Math, b: Body, walls: seq<Wall>, e: real)
    requires m.Lawful()
    ensures var ins := MoverVsWalls(m, b, walls, e).1;
      && |ins| <= |walls|
      && InsertKeys(ins) == TouchedKeys(m, b.pos.Truncate(), b, walls)
      && forall i :: 0 <= i < |ins| ==> exists k :: 0 <= k < |walls| && ins[i].0 == OrderedPair(b.id, walls[k].id)
  {
    var ins := MoverVsWalls(m, b, walls, e).1;
    KeysFrom(m, b.pos.Truncate(), b, walls, e);
    forall i | 0 <= i < |ins| ensures exists k :: 0 <= k < |walls| && ins[i].0 == OrderedPair(b.id, walls[k].id) {
      assert ins[i].0 in InsertKeys(ins);
    }
  }

  lemma {:induction false} KeysFrom(m: Math, center: Vec2, b: Body, walls: seq<Wall>, e: real)
    requires m.Lawful()
    ensures InsertKeys(WallsFrom(m, center, b, walls, e).1) == TouchedKeys(m, center, b, walls)
  {
    if walls != [] {
      var init := walls[..|walls| - 1];
      var w := walls[|walls| - 1];
      KeysFrom(m, center, b, init, e);
      var prior := WallsFrom(m, center, b, init, e);
      var step := WallStep(m, center, prior.0, w, e);
      assert WallsFrom(m, center, b, walls, e).1 == prior.1 + OptionToSeq(step.1);
      InsertKeysAppend(prior.1, OptionToSeq(step.1));
      StepKeys(m, center, b, prior.0, w, e);
      TouchedKeysAppend(m, center, b, walls);
    }
  }

  /** A wall step of a mover that kept `b`'s collider and id records the key of `w` iff `b` touches `w` from `center`. */
  lemma StepKeys(m: Math, center: Vec2, b: Body, moved: Body, w: Wall, e: real)
    requires m.Lawful()
    requires moved == b.(pos := moved.pos, vel := moved.vel)
    ensures InsertKeys(OptionToSeq(WallStep(m, center, moved, w, e).1))
         == (if TouchesFrom(m, center, b, w) then {OrderedPair(b.id, w.id)} else {})
  {
    WallStepSpec(m, center, moved, w, e);
    var o := OptionToSeq(WallStep(m, center, moved, w, e).1);
    if o != [] {
      assert InsertKeys(o) == {o[0].0};
    }
  }

  lemma InsertKeysAppend(a: seq<Insert>, b: seq<Insert>)
    ensures InsertKeys(a + b) == InsertKeys(a) + InsertKeys(b)
  {
    var s := a + b;
    forall k | k in InsertKeys(s) ensures k in InsertKeys(a) + InsertKeys(b) {
      var i :| 0 <= i < |s| && s[i].0 == k;
      if i < |a| { assert s[i] == a[i]; } else { assert s[i] == b[i - |a|]; }
    }
    forall k | k in InsertKeys(a) ensures k in InsertKeys(s) {
      var i :| 0 <= i < |a| && a[i].0 == k;
      assert s[i] == a[i];
    }
    forall k | k in InsertKeys(b) ensures k in InsertKeys(s) {
      var i :| 0 <= i < |b| && b[i].0 == k;
      assert s[|a| + i] == b[i];
    }
  }

  lemma TouchedKeysAppend(m: Math, center: Vec2, b: Body, walls: seq<Wall>)
    requires m.Lawful() && walls != []
    ensures var w := walls[|walls| - 1];
      TouchedKeys(m, center, b, walls)
        == TouchedKeys(m, center, b, walls[..|walls| - 1])
         + (if TouchesFrom(m, center, b, w) then {OrderedPair(b.id, w.id)} else {})
  {
    var init := walls[..|walls| - 1];
    forall k | 0 <= k < |init| ensures init[k] == walls[k] {}
  }

  predicate ImpulsesNonNegative(ins: seq<Insert>) {
    forall i :: 0 <= i < |ins| ==> ins[i].1.impulse >= 0.0
  }

  /** With positive masses and restitution above -1, no wall contact reports a negative impulse. */
  lemma {:induction false} WallImpulsesNonNegative(m: Math, b: Body, walls: seq<Wall>, e: real)
    requires m.Lawful()
    requires -1.0 < e
    ensures ImpulsesNonNegative(MoverVsWalls(m, b, walls, e).1)
  {
    ImpulsesFrom(m, b.pos.Truncate(), b, walls, e);
  }

  lemma {:induction false} ImpulsesFrom(m: Math, center: Vec2, b: Body, walls: seq<Wall>, e: real)
    requires m.Lawful()
    requires -1.0 < e
    ensures ImpulsesNonNegative(WallsFrom(m, center, b, walls, e).1)
  {
    if walls != [] {
      var init := walls[..|walls| - 1];
      ImpulsesFrom(m, center, b, init, e);
      var prior := WallsFrom(m, center, b, init, e);
      var step := WallStep(m, center, prior.0, walls[|walls| - 1], e);
      var ins := prior.1 + OptionToSeq(step.1);
      assert WallsFrom(m, center, b, walls, e).1 == ins;
      if step.1.Some? {
        assert step.1.value.1.impulse >= 0.0;
      }
      forall i | 0 <= i < |ins| ensures ins[i].1.impulse >= 0.0 {
        if i < |prior.1| {
          assert ins[i] == prior.1[i];
        } else {
          assert step.1.Some? && OptionToSeq(step.1) == [step.1.value];
          assert ins[i] == step.1.value;
        }
      }
    }
  }

  //------------------------------------------------------------------
  // Circle movers against each other
  //------------------------------------------------------------------

  /**
    The loop body of `circle_circle_collision_system` for the pair `(i, j)`:
    two circles that overlap are resolved together and their ordered key is
    recorded with the data computed before resolution.
  */
  function PairStep(m: Math, bs: seq<Body>, i: nat, j: nat, e: real): (r: (seq<Body>, Option<Insert>))
    requires m.Lawful() && i < j < |bs|
    ensures |r.0| == |bs| && forall k :: 0 <= k < |bs| && k != i && k != j ==> r.0[k] == bs[k]
    ensures r.0[i] == bs[i].(pos := r.0[i].pos, vel := r.0[i].vel)
    ensures r.0[j] == bs[j].(pos := r.0[j].pos, vel := r.0[j].vel)
  {
    var b1, b2 := bs[i], bs[j];
    match (b1.collider, b2.collider)
    case (Circle(r1), Circle(r2)) =>
      (match CircleVsCircle(m, b1.pos.Truncate(), r1, b2.pos.Truncate(), r2)
       case Some(c) =>
         var data := CircleCircleContactData(b1.vel.Truncate(), b2.vel.Truncate(), b1.mass, b2.mass, c, e);
         var k := ResolveCircleCircle(Kinematics(b1.pos, b1.vel), b1.mass, Kinematics(b2.pos, b2.vel), b2.mass, c, e);
         (bs[i := b1.(pos := k.0.pos, vel := k.0.vel)][j := b2.(pos := k.1.pos, vel := k.1.vel)],
          Some((OrderedPair(b1.id, b2.id), data)))
       case None => (bs, None))
    case _ => (bs, None)
  }

  /** What one pair step does: the contact test, the recorded data, the resolution, and conservation of the pair's momentum. */
  lemma PairStepSpec(m: Math, bs: seq<Body>, i: nat, j: nat, e: real)
    requires m.Lawful() && i < j < |bs|
    ensures PairStep(m, bs, i, j, e).1.None? ==> PairStep(m, bs, i, j, e).0 == bs
    ensures PairStep(m, bs, i, j, e).1.Some? <==>
      && bs[i].collider.Circle? && bs[j].collider.Circle?
      && CircleVsCircle(m, bs[i].pos.Truncate(), bs[i].collider.radius, bs[j].pos.Truncate(), bs[j].collider.radius).Some?
    ensures PairStep(m, bs, i, j, e).1.Some? ==>
      var c := CircleVsCircle(m, bs[i].pos.Truncate(), bs[i].collider.radius, bs[j].pos.Truncate(), bs[j].collider.radius).value;
      && PairStep(m, bs, i, j, e).1.value == (OrderedPair(bs[i].id, bs[j].id),
                       CircleCircleContactData(bs[i].vel.Truncate(), bs[j].vel.Truncate(), bs[i].mass, bs[j].mass, c, e))
      && (Kinematics(PairStep(m, bs, i, j, e).0[i].pos, PairStep(m, bs, i, j, e).0[i].vel), Kinematics(PairStep(m, bs, i, j, e).0[j].pos, PairStep(m, bs, i, j, e).0[j].vel))
         == ResolveCircleCircle(Kinematics(bs[i].pos, bs[i].vel), bs[i].mass, Kinematics(bs[j].pos, bs[j].vel), bs[j].mass, c, e)
  {
  }

  /** One pair step leaves the pair's joint momentum unchanged. */
  lemma PairStepMomentum(m: Math, bs: seq<Body>, i: nat, j: nat, e: real)
    requires m.Lawful() && i < j < |bs|
    ensures PairStep(m, bs, i, j, e).0[i].vel.Scale(bs[i].mass).Add(PairStep(m, bs, i, j, e).0[j].vel.Scale(bs[j].mass))
         == bs[i].vel.Scale(bs[i].mass).Add(bs[j].vel.Scale(bs[j].mass))
  {
  }

  /** The pairs `(i, j)` with `i < j < n`, in the order the combinations iterator yields them. */
  function Row(i: nat, from: nat, to: nat): (ps: seq<(nat, nat)>)
    ensures |ps| == if from <= to then to - from else 0
  {
    if from < to then Row(i, from, to - 1) + [(i, to - 1)] else []
  }

  function PairsBefore(n: nat, i: nat): seq<(nat, nat)> {
    if i == 0 then [] else PairsBefore(n, i - 1) + Row(i - 1, i, n)
  }

  function AllPairs(n: nat): seq<(nat, nat)> { PairsBefore(n, n) }

  lemma {:induction false} RowSpec(i: nat, from: nat, to: nat)
    ensures forall k :: 0 <= k < |Row(i, from, to)| ==> Row(i, from, to)[k] == (i, from + k)
  {
    if from < to {
      RowSpec(i, from, to - 1);
    }
  }

  /** Every pair before row `i` is some `(a, b)` with `a < i` and `a < b < n`. */
  lemma {:induction false} PairsBeforeBounds(n: nat, i: nat)
    ensures forall k :: 0 <= k < |PairsBefore(n, i)| ==> PairsBefore(n, i)[k].0 < PairsBefore(n, i)[k].1 < n
    ensures forall k :: 0 <= k < |PairsBefore(n, i)| ==> PairsBefore(n, i)[k].0 < i
  {
    if i > 0 {
      PairsBeforeBounds(n, i - 1);
      RowSpec(i - 1, i, n);
      var prior, row := PairsBefore(n, i - 1), Row(i - 1, i, n);
      var ps: seq<(nat, nat)> := prior + row;
      assert PairsBefore(n, i) == ps;
      forall k | 0 <= k < |ps| ensures ps[k].0 < ps[k].1 < n && ps[k].0 < i {
        if k >= |prior| { assert ps[k] == row[k - |prior|]; } else { assert ps[k] == prior[k]; }
      }
    }
  }

  /** Every `(a, b)` with `a < i` and `a < b < n` is among the pairs before row `i`. */
  lemma {:induction false} PairsBeforeCover(n: nat, i: nat, a: nat, b: nat)
    requires a < i && a < b < n
    ensures (a, b) in PairsBefore(n, i)
  {
    var prior, row := PairsBefore(n, i - 1), Row(i - 1, i, n);
    assert PairsBefore(n, i) == prior + row;
    if a < i - 1 {
      PairsBeforeCover(n, i - 1, a, b);
    } else {
      RowSpec(i - 1, i, n);
      assert row[b - i] == (a, b);
    }
  }

  /** No pair comes twice. */
  lemma {:induction false} PairsBeforeDistinct(n: nat, i: nat)
    ensures forall k, l :: 0 <= k < l < |PairsBefore(n, i)| ==> PairsBefore(n, i)[k] != PairsBefore(n, i)[l]
  {
    if i > 0 {
      PairsBeforeDistinct(n, i - 1);
      PairsBeforeBounds(n, i - 1);
      RowSpec(i - 1, i, n);
      var prior, row := PairsBefore(n, i - 1), Row(i - 1, i, n);
      var ps: seq<(nat, nat)> := prior + row;
      assert PairsBefore(n, i) == ps;
      forall k, l | 0 <= k < l < |ps| ensures ps[k] != ps[l] {
        if l >= |prior| && k < |prior| {
          assert ps[k] == prior[k] && ps[l] == row[l - |prior|];
        } else if k >= |prior| {
          assert ps[k] == row[k - |prior|] && ps[l] == row[l - |prior|];
        } else {
          assert ps[k] == prior[k] && ps[l] == prior[l];
        }
      }
    }
  }

  /** The combinations iterator visits exactly the pairs `(a, b)` with `a < b < n`, each once. */
  lemma AllPairsSpec(n: nat)
    ensures forall k :: 0 <= k < |AllPairs(n)| ==> AllPairs(n)[k].0 < AllPairs(n)[k].1 < n
    ensures forall a: nat, b: nat :: a < b < n ==> (a, b) in AllPairs(n)
    ensures forall k, l :: 0 <= k < l < |AllPairs(n)| ==> AllPairs(n)[k] != AllPairs(n)[l]
  {
    PairsBeforeBounds(n, n);
    PairsBeforeDistinct(n, n);
    forall a: nat, b: nat | a < b < n ensures (a, b) in AllPairs(n) {
      PairsBeforeCover(n, n, a, b);
    }
  }

  /**
    The bodies and inserts after the pairs `ps`, taken in order.  A pair
    outside `i < j < |bs|` is passed over; the iterator yields none
    (`AllPairsSpec`).
  */
  function CirclePass(m: Math, bs: seq<Body>, ps: seq<(nat, nat)>, e: real): (r: (seq<Body>, seq<Insert>))
    requires m.Lawful()
    ensures |r.0| == |bs|
    decreases |ps|, 3
  {
    if ps == [] then (bs, [])
    else
      var step := LastPair(m, bs, ps, e);
      (step.0, CirclePass(m, bs, ps[..|ps| - 1], e).1 + OptionToSeq(step.1))
  }

  /** The step for the last pair of `ps`; one out of range leaves the bodies as they were. */
  function LastPair(m: Math, bs: seq<Body>, ps: seq<(nat, nat)>, e: real): (r: (seq<Body>, Option<Insert>))
    requires m.Lawful() && ps != []
    ensures |r.0| == |bs|
    decreases |ps|, 2
  {
    var p := ps[|ps| - 1];
    if p.0 < p.1 < |bs| then PairAfter(m, bs, ps, e) else (Prior(m, bs, ps, e), None)
  }

  /** `PairStep` for the last pair of `ps`, taken on the bodies the earlier pairs left. */
  function PairAfter(m: Math, bs: seq<Body>, ps: seq<(nat, nat)>, e: real): (r: (seq<Body>, Option<Insert>))
    requires m.Lawful() && ps != [] && ps[|ps| - 1].0 < ps[|ps| - 1].1 < |bs|
    ensures |r.0| == |bs|
    decreases |ps|, 1
  {
    var p := ps[|ps| - 1];
    PairStep(m, Prior(m, bs, ps, e), p.0, p.1, e)
  }

  /** The bodies as the pairs before the last one of `ps` left them. */
  function Prior(m: Math, bs: seq<Body>, ps: seq<(nat, nat)>, e: real): (r: seq<Body>)
    requires m.Lawful() && ps != []
    ensures |r| == |bs|
    decreases |ps|, 0
  {
    CirclePass(m, bs, ps[..|ps| - 1], e).0
  }

  /** The last pair's step, spelled out. */
  lemma LastPairIs(m: Math, bs: seq<Body>, ps: seq<(nat, nat)>, e: real)
    requires m.Lawful() && ps != []
    ensures var prior := CirclePass(m, bs, ps[..|ps| - 1], e).0;
      var p := ps[|ps| - 1];
      LastPair(m, bs, ps, e) == if p.0 < p.1 < |bs| then PairStep(m, prior, p.0, p.1, e) else (prior, None)
  {
    var p := ps[|ps| - 1];
    assert Prior(m, bs, ps, e) == CirclePass(m, bs, ps[..|ps| - 1], e).0;
    if p.0 < p.1 < |bs| {
      assert LastPair(m, bs, ps, e) == PairAfter(m, bs, ps, e);
    }
  }

  /** The pass changes only positions and velocities. */
  lemma {:induction false} CirclePassMovesOnly(m: Math, bs: seq<Body>, ps: seq<(nat, nat)>, e: real)
    requires m.Lawful()
    ensures var r := CirclePass(m, bs, ps, e).0;
      forall k :: 0 <= k < |bs| ==> r[k] == bs[k].(pos := r[k].pos, vel := r[k].vel)
  {
    if ps != [] {
      var init := ps[..|ps| - 1];
      CirclePassMovesOnly(m, bs, init, e);
      LastPairIs(m, bs, ps, e);
      assert CirclePass(m, bs, ps, e).0 == LastPair(m, bs, ps, e).0;
    }
  }

  /** The pass over the single pair `p` is that pair's step. */
  lemma SinglePair(m: Math, bs: seq<Body>, p: (nat, nat), e: real)
    requires m.Lawful() && p.0 < p.1 < |bs|
    ensures var step := PairStep(m, bs, p.0, p.1, e);
      CirclePass(m, bs, [p], e) == (step.0, OptionToSeq(step.1))
  {
    assert [p][..0] == [];
    assert CirclePass(m, bs, [], e) == (bs, []);
    LastPairIs(m, bs, [p], e);
    assert [] + OptionToSeq(PairStep(m, bs, p.0, p.1, e).1) == OptionToSeq(PairStep(m, bs, p.0, p.1, e).1);
  }

  /** The loop body of `circle_circle_collision_system` for the pair `(i, j)`, in place. */
  method CollidePair(m: Math, q: array<Body>, i: nat, j: nat, contacts: Contacts, e: real)
    requires m.Lawful() && i < j < q.Length
    modifies q, contacts
    ensures Passed(m, old(q[..]), [(i, j)], e, old(contacts.current), q[..], contacts.current)
    ensures contacts.prev == old(contacts.prev)
  {
    SinglePair(m, q[..], (i, j), e);
    ghost var step := PairStep(m, q[..], i, j, e);
    var b1, b2 := q[i], q[j];
    if b1.collider.Circle? && b2.collider.Circle? {
      var contact := CircleVsCircle(m, b1.pos.Truncate(), b1.collider.radius, b2.pos.Truncate(), b2.collider.radius);
      if contact.Some? {
        var data := CircleCircleContactData(b1.vel.Truncate(), b2.vel.Truncate(), b1.mass, b2.mass, contact.value, e);
        var k := ResolveCircleCircle(Kinematics(b1.pos, b1.vel), b1.mass, Kinematics(b2.pos, b2.vel), b2.mass, contact.value, e);
        q[i] := b1.(pos := k.0.pos, vel := k.0.vel);
        q[j] := b2.(pos := k.1.pos, vel := k.1.vel);
        contacts.Record(OrderedPair(b1.id, b2.id), data);
      }
    }
    assert q[..] == step.0;
  }

  /** Taking one more pair is one more `PairStep`. */
  lemma CirclePassAppend(m: Math, bs: seq<Body>, ps: seq<(nat, nat)>, p: (nat, nat), e: real)
    requires m.Lawful() && p.0 < p.1 < |bs|
    ensures var prior := CirclePass(m, bs, ps, e);
      var step := PairStep(m, prior.0, p.0, p.1, e);
      CirclePass(m, bs, ps + [p], e) == (step.0, prior.1 + OptionToSeq(step.1))
  {
    assert (ps + [p])[..|ps|] == ps;
    assert (ps + [p])[|ps|] == p;
    LastPairIs(m, bs, ps + [p], e);
  }

  /** `ps` followed by the pairs `(i, j')` with `i < j' < j`: the pairs taken before `(i, j)`. */
  function RowOnto(ps: seq<(nat, nat)>, i: nat, j: nat): seq<(nat, nat)> {
    if j <= i + 1 then ps else RowOnto(ps, i, j - 1) + [(i, j - 1)]
  }

  lemma {:induction false} RowOntoIsAppend(ps: seq<(nat, nat)>, i: nat, j: nat)
    ensures RowOnto(ps, i, j) == ps + Row(i, i + 1, j)
  {
    if j > i + 1 {
      RowOntoIsAppend(ps, i, j - 1);
    } else {
      assert Row(i, i + 1, j) == [];
    }
  }

  /** A whole row taken after the rows before it gives the rows up to and including it. */
  lemma RowCompletes(n: nat, i: nat)
    requires i < n
    ensures RowOnto(PairsBefore(n, i), i, n) == PairsBefore(n, i + 1)
  {
    RowOntoIsAppend(PairsBefore(n, i), i, n);
  }

  /** The movers `q` and the contacts `c` are those the pass over `ps` leaves, starting from `bs` and `start`. */
  ghost predicate Passed(m: Math, bs: seq<Body>, ps: seq<(nat, nat)>, e: real,
                         start: map<ContactKey, ContactData>, q: seq<Body>, c: map<ContactKey, ContactData>)
    requires m.Lawful()
  {
    var r := CirclePass(m, bs, ps, e);
    q == r.0 && c == RecordAll(start, r.1)
  }

  /** Before any pair, nothing has moved and nothing is recorded. */
  lemma PassedNone(m: Math, bs: seq<Body>, n: nat, e: real, start: map<ContactKey, ContactData>)
    requires m.Lawful()
    ensures Passed(m, bs, PairsBefore(n, 0), e, start, bs, start)
  {
  }

  /** One more pair of row `i`, as the inner loop of `circle_circle_collision_system` takes it. */
  lemma CircleStep(m: Math, bs: seq<Body>, ps: seq<(nat, nat)>, i: nat, j: nat, e: real,
                   start: map<ContactKey, ContactData>, q0: seq<Body>, q1: seq<Body>,
                   c0: map<ContactKey, ContactData>, c1: map<ContactKey, ContactData>)
    requires m.Lawful() && i < j < |bs|
    requires Passed(m, bs, RowOnto(ps, i, j), e, start, q0, c0)
    requires Passed(m, q0, [(i, j)], e, c0, q1, c1)
    ensures Passed(m, bs, RowOnto(ps, i, j + 1), e, start, q1, c1)
  {
    var done := RowOnto(ps, i, j);
    assert RowOnto(ps, i, j + 1) == done + [(i, j)];
    CirclePassAppend(m, bs, done, (i, j), e);
    var prior := CirclePass(m, bs, done, e);
    SinglePair(m, prior.0, (i, j), e);
    RecordAllAppend(start, prior.1, OptionToSeq(PairStep(m, prior.0, i, j, e).1));
  }

  /** The pair `(i, j)` taken in place after the pairs before it: the pass advances by one pair. */
  method CollideInRow(m: Math, q: array<Body>, i: nat, j: nat, contacts: Contacts, e: real,
                      ghost bs: seq<Body>, ghost ps: seq<(nat, nat)>, ghost start: map<ContactKey, ContactData>)
    requires m.Lawful() && |bs| == q.Length && i < j < q.Length
    requires Passed(m, bs, RowOnto(ps, i, j), e, start, q[..], contacts.current)
    modifies q, contacts
    ensures Passed(m, bs, RowOnto(ps, i, j + 1), e, start, q[..], contacts.current)
    ensures contacts.prev == old(contacts.prev)
  {
    ghost var q0, c0 := q[..], contacts.current;
    CollidePair(m, q, i, j, contacts, e);
    CircleStep(m, bs, ps, i, j, e, start, q0, q[..], c0, contacts.current);
  }

  /** Row `i` of the iteration: the pairs `(i, j)` for every `j > i`, in order. */
  method CollideRow(m: Math, q: array<Body>, i: nat, contacts: Contacts, e: real,
                    ghost bs: seq<Body>, ghost start: map<ContactKey, ContactData>)
    requires m.Lawful() && |bs| == q.Length && i < q.Length
    requires Passed(m, bs, PairsBefore(q.Length, i), e, start, q[..], contacts.current)
    modifies q, contacts
    ensures Passed(m, bs, PairsBefore(q.Length, i + 1), e, start, q[..], contacts.current)
    ensures contacts.prev == old(contacts.prev)
  {
    var n := q.Length;
    ghost var ps := PairsBefore(n, i);
    ghost var prev := contacts.prev;
    for j := i + 1 to n
      invariant Passed(m, bs, RowOnto(ps, i, j), e, start, q[..], contacts.current)
      invariant contacts.prev == prev
    {
      CollideInRow(m, q, i, j, contacts, e, bs, ps, start);
    }
    RowCompletes(n, i);
  }

  /**
    `circle_circle_collision_system`: every pair of movers `(i, j)` with
    `i < j`, in the iterator's order, is tested and resolved in place.
  */
  method CircleCircleCollisionSystem(m: Math, q: array<Body>, contacts: Contacts, e: real)
    requires m.Lawful()
    modifies q, contacts
    ensures Passed(m, old(q[..]), AllPairs(q.Length), e, old(contacts.current), q[..], contacts.current)
    ensures contacts.prev == old(contacts.prev)
  {
    ghost var bs := q[..];
    ghost var start, prev := contacts.current, contacts.prev;
    PassedNone(m, bs, q.Length, e, start);
    for i := 0 to q.Length
      invariant Passed(m, bs, PairsBefore(q.Length, i), e, start, q[..], contacts.current)
      invariant contacts.prev == prev
    {
      CollideRow(m, q, i, contacts, e, bs, start);
    }
  }

  //------------------------------------------------------------------
  // Momentum of the movers
  //------------------------------------------------------------------

  function MomentumOf(b: Body): Vec3 { b.vel.Scale(b.mass) }

  /** The total momentum `Σ m·v` of the movers. */
  function Momentum(bs: seq<Body>): Vec3 {
    if bs == [] then Zero3 else Momentum(bs[..|bs| - 1]).Add(MomentumOf(bs[|bs| - 1]))
  }

  lemma AddSubSwap(a: Vec3, l: Vec3, p: Vec3)
    ensures a.Add(l).Sub(p) == a.Sub(p).Add(l)
  {}

  lemma AddSubCancel(a: Vec3, p: Vec3)
    ensures a.Add(p).Sub(p) == a
  {}

  /** Two movers that differ in one mover only have the same momentum apart from it. */
  lemma {:induction false} MomentumOne(bs: seq<Body>, cs: seq<Body>, i: nat)
    requires |bs| == |cs| && i < |bs|
    requires forall k :: 0 <= k < |bs| && k != i ==> bs[k] == cs[k]
    ensures Momentum(bs).Sub(MomentumOf(bs[i])) == Momentum(cs).Sub(MomentumOf(cs[i]))
  {
    var n := |bs| - 1;
    var b0, c0 := bs[..n], cs[..n];
    if i == n {
      assert b0 == c0;
      AddSubCancel(Momentum(b0), MomentumOf(bs[i]));
      AddSubCancel(Momentum(c0), MomentumOf(cs[i]));
    } else {
      MomentumOne(b0, c0, i);
      assert bs[n] == cs[n] && b0[i] == bs[i] && c0[i] == cs[i];
      AddSubSwap(Momentum(b0), MomentumOf(bs[n]), MomentumOf(bs[i]));
      AddSubSwap(Momentum(c0), MomentumOf(cs[n]), MomentumOf(cs[i]));
    }
  }

  lemma ExchangeTotals(mb: Vec3, mm: Vec3, mc: Vec3, bi: Vec3, bj: Vec3, ci: Vec3, cj: Vec3)
    requires mb.Sub(bi) == mm.Sub(ci) && mm.Sub(bj) == mc.Sub(cj)
    requires bi.Add(bj) == ci.Add(cj)
    ensures mb == mc
  {
    assert mb.x - bi.x == mm.x - ci.x && mm.x - bj.x == mc.x - cj.x && bi.x + bj.x == ci.x + cj.x;
    assert mb.y - bi.y == mm.y - ci.y && mm.y - bj.y == mc.y - cj.y && bi.y + bj.y == ci.y + cj.y;
    assert mb.z - bi.z == mm.z - ci.z && mm.z - bj.z == mc.z - cj.z && bi.z + bj.z == ci.z + cj.z;
  }

  /** Changing two movers without changing their joint momentum keeps the total. */
  lemma MomentumPair(bs: seq<Body>, cs: seq<Body>, i: nat, j: nat)
    requires |bs| == |cs| && i < j < |bs|
    requires forall k :: 0 <= k < |bs| && k != i && k != j ==> bs[k] == cs[k]
    requires MomentumOf(bs[i]).Add(MomentumOf(bs[j])) == MomentumOf(cs[i]).Add(MomentumOf(cs[j]))
    ensures Momentum(bs) == Momentum(cs)
  {
    var mid := bs[i := cs[i]];
    MomentumOne(bs, mid, i);
    MomentumOne(mid, cs, j);
    ExchangeTotals(Momentum(bs), Momentum(mid), Momentum(cs),
                   MomentumOf(bs[i]), MomentumOf(bs[j]), MomentumOf(cs[i]), MomentumOf(cs[j]));
  }

  /** The circle pass conserves the total momentum of the movers. */
  lemma {:induction false} CirclePassConservesMomentum(m: Math, bs: seq<Body>, ps: seq<(nat, nat)>, e: real)
    requires m.Lawful()
    ensures Momentum(CirclePass(m, bs, ps, e).0) == Momentum(bs)
  {
    if ps != [] {
      var init := ps[..|ps| - 1];
      CirclePassConservesMomentum(m, bs, init, e);
      var prior := CirclePass(m, bs, init, e).0;
      var p := ps[|ps| - 1];
      LastPairIs(m, bs, ps, e);
      assert CirclePass(m, bs, ps, e).0 == LastPair(m, bs, ps, e).0;
      if p.0 < p.1 < |prior| {
        var next := PairStep(m, prior, p.0, p.1, e).0;
        PairStepMomentum(m, prior, p.0, p.1, e);
        MomentumPair(prior, next, p.0, p.1);
      }
    }
  }
}
