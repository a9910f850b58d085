/**
  The enemy steering overlay of src/behavior/systems.rs.  Once per fixed step
  every body that is not the player gets a fresh input vector: the sum of the
  contributions of the optional Seek, Flee, Wander, MaintainRange and
  AvoidAllies behaviours it carries.  Nothing is steered unless exactly one
  body is the player.  The random sample a Wander draws is a parameter:
  `draws(i)` is the uniform sample the body at index `i` would draw.
*/
module Steering {
  import opened Vectors
  import opened Wrappers
  import opened Components

  /** The distance band around MaintainRange's desired distance in which it does nothing. */
  const RangeTolerance: real := 5.0

  /** The length of the wander direction's contribution. */
  const WanderStrength: real := 0.0001

  /** The weight of one ally's push. */
  const AvoidWeight: real := 2.0


  //------------------------------------------------------------------
  // The queries read before the loop
  //------------------------------------------------------------------

  /** The bodies the player query matches, in order. */
  function Players(bs: seq<Body>): (r: seq<Body>)
    ensures |r| <= |bs|
    ensures forall b :: b in r <==> b in bs && b.tags.player
  {
    if bs == [] then []
    else
      var init := bs[..|bs| - 1];
      assert bs == init + [bs[|bs| - 1]];
      if bs[|bs| - 1].tags.player then Players(init) + [bs[|bs| - 1]] else Players(init)
  }

  /** `player_q.single()`: the player's position in the plane, when exactly one body is a player. */
  function PlayerPosition(bs: seq<Body>): Option<Vec2> {
    var ps := Players(bs);
    if |ps| == 1 then Some(ps[0].pos.Truncate()) else None
  }

  lemma NoPlayers(bs: seq<Body>)
    requires forall i :: 0 <= i < |bs| ==> !bs[i].tags.player
    ensures Players(bs) == []
  {
    if Players(bs) != [] {
      assert Players(bs)[0] in Players(bs);
    }
  }

  /** The player query matches exactly the one player there is. */
  lemma {:induction false} OnePlayer(bs: seq<Body>, i: nat)
    requires i < |bs| && bs[i].tags.player
    requires forall j :: 0 <= j < |bs| && j != i ==> !bs[j].tags.player
    ensures Players(bs) == [bs[i]]
  {
    var n := |bs| - 1;
    var init := bs[..n];
    if i == n {
      NoPlayers(init);
    } else {
      OnePlayer(init, i);
    }
  }

  /** Two players are counted as two. */
  lemma {:induction false} TwoPlayersCounted(bs: seq<Body>, i: nat, j: nat)
    requires i < j < |bs| && bs[i].tags.player && bs[j].tags.player
    ensures |Players(bs)| >= 2
  {
    var n := |bs| - 1;
    var init := bs[..n];
    if j == n {
      assert init[i] == bs[i];
      assert bs[i] in Players(init);
    } else {
      TwoPlayersCounted(init, i, j);
    }
  }

  /**
    With exactly one player, its position is the one steering aims at; with
    none, or with two or more, there is no player position.
  */
  lemma PlayerPositionSpec(bs: seq<Body>)
    ensures (forall i :: 0 <= i < |bs| ==> !bs[i].tags.player) ==> PlayerPosition(bs) == None
    ensures forall i, j :: 0 <= i < j < |bs| && bs[i].tags.player && bs[j].tags.player ==> PlayerPosition(bs) == None
    ensures forall i :: (0 <= i < |bs| && bs[i].tags.player && (forall j :: 0 <= j < |bs| && j != i ==> !bs[j].tags.player))
                          ==> PlayerPosition(bs) == Some(bs[i].pos.Truncate())
  {
    if forall i :: 0 <= i < |bs| ==> !bs[i].tags.player {
      NoPlayers(bs);
    }
    forall i, j | 0 <= i < j < |bs| && bs[i].tags.player && bs[j].tags.player
      ensures PlayerPosition(bs) == None
    {
      TwoPlayersCounted(bs, i, j);
    }
    forall i | 0 <= i < |bs| && bs[i].tags.player && (forall j :: 0 <= j < |bs| && j != i ==> !bs[j].tags.player)
      ensures PlayerPosition(bs) == Some(bs[i].pos.Truncate())
    {
      OnePlayer(bs, i);
    }
  }

  /** The ally entry a body contributes: its position in the plane and its circle's radius. */
  predicate AllyEntry(b: Body, a: (Vec2, real)) {
    b.tags.ally && b.collider.Circle? && a == (b.pos.Truncate(), b.collider.radius)
  }

  /** `ally_positions`: every ally with a circle collider, other allies skipped. */
  function AllyPositions(bs: seq<Body>): (r: seq<(Vec2, real)>)
    ensures forall a :: a in r ==> 0.0 < a.1
    ensures forall b :: b in bs && b.tags.ally && b.collider.Circle? ==> (b.pos.Truncate(), b.collider.radius) in r
    ensures forall a :: a in r ==> exists b :: b in bs && AllyEntry(b, a)
  {
    if bs == [] then []
    else
      var init := bs[..|bs| - 1];
      var b := bs[|bs| - 1];
      assert bs == init + [b];
      var rest := AllyPositions(init);
      if b.tags.ally && b.collider.Circle? then
        assert AllyEntry(b, (b.pos.Truncate(), b.collider.radius));
        rest + [(b.pos.Truncate(), b.collider.radius)]
      else rest
  }

  //------------------------------------------------------------------
  // What each behaviour contributes
  //------------------------------------------------------------------

  /** Seek: the unit vector towards the player, strictly inside the detection distance. */
  function SeekForce(m: Math, player: Vec2, pos: Vec2, seek: Option<real>): Vec2
    requires m.Lawful()
  {
    match seek
    case None => Zero2
    case Some(distance) =>
      var toPlayer := player.Sub(pos);
      if toPlayer.LengthSq() < Square(distance) then m.Normalize(toPlayer).Scale(1.0) else Zero2
  }

  /** Flee: the unit vector away from the player, strictly inside the detection distance. */
  function FleeForce(m: Math, player: Vec2, pos: Vec2, flee: Option<real>): Vec2
    requires m.Lawful()
  {
    match flee
    case None => Zero2
    case Some(distance) =>
      var away := pos.Sub(player);
      if away.LengthSq() < Square(distance) then m.Normalize(away).Scale(1.0) else Zero2
  }

  /**
    Seek contributes exactly when the squared distance to the player is below
    the squared detection distance, and then a unit vector pointing at the
    player; at or beyond the distance it contributes nothing.
  */
  lemma SeekSpec(m: Math, player: Vec2, pos: Vec2, distance: real)
    requires m.Lawful()
    ensures var toPlayer := player.Sub(pos); var f := SeekForce(m, player, pos, Some(distance));
      && (Square(distance) <= toPlayer.LengthSq() ==> f == Zero2)
      && (toPlayer.LengthSq() < Square(distance) && pos != player ==>
            f.IsUnit() && f.Scale(m.Length(toPlayer)) == toPlayer)
  {
    var toPlayer := player.Sub(pos);
    if toPlayer.LengthSq() < Square(distance) && pos != player {
      assert toPlayer != Zero2;
      m.NormalizeScale(toPlayer);
      assert m.Normalize(toPlayer).Scale(1.0) == m.Normalize(toPlayer);
    }
  }

  /** Flee is Seek mirrored: a unit vector pointing away from the player, under the same strict test. */
  lemma FleeSpec(m: Math, player: Vec2, pos: Vec2, distance: real)
    requires m.Lawful()
    ensures var away := pos.Sub(player); var f := FleeForce(m, player, pos, Some(distance));
      && (Square(distance) <= away.LengthSq() ==> f == Zero2)
      && (away.LengthSq() < Square(distance) && pos != player ==>
            f.IsUnit() && f.Scale(m.Length(away)) == away)
  {
    var away := pos.Sub(player);
    if away.LengthSq() < Square(distance) && pos != player {
      assert away != Zero2;
      m.NormalizeScale(away);
      assert m.Normalize(away).Scale(1.0) == m.Normalize(away);
    }
  }

  /** The random turn of one tick: `base_variation * (2u - 1) * dt`. */
  function WanderAngle(baseVariation: real, u: real, dt: real): real {
    baseVariation * (u * 2.0 - 1.0) * dt
  }

  /** A sample in `[0, 1)` turns the heading by at most `base_variation * dt` either way. */
  lemma WanderAngleBound(baseVariation: real, u: real, dt: real)
    requires 0.0 <= baseVariation && 0.0 <= dt && 0.0 <= u < 1.0
    ensures -(baseVariation * dt) <= WanderAngle(baseVariation, u, dt) <= baseVariation * dt
  {
    var k := u * 2.0 - 1.0;
    var bd := baseVariation * dt;
    assert 0.0 <= bd by { MulLeft(baseVariation, 0.0, dt); }
    assert WanderAngle(baseVariation, u, dt) == k * bd;
    MulLeft(bd, k, 1.0);
    MulLeft(bd, -1.0, k);
  }

  /** The wander state after this tick's turn. */
  function Turned(m: Math, dt: real, u: real, w: Wander): Wander
    requires m.Lawful()
  {
    w.(direction := w.direction.Rotate(m.FromAngle(WanderAngle(w.baseVariation, u, dt))))
  }

  /**
    A turn keeps the heading's length and changes nothing but the heading; a
    zero `base_variation` leaves the heading where it was.
  */
  lemma TurnedSpec(m: Math, dt: real, u: real, w: Wander)
    requires m.Lawful()
    ensures Turned(m, dt, u, w).direction.LengthSq() == w.direction.LengthSq()
    ensures Turned(m, dt, u, w) == w.(direction := Turned(m, dt, u, w).direction)
    ensures w.baseVariation == 0.0 ==> Turned(m, dt, u, w) == w
  {
    var a := WanderAngle(w.baseVariation, u, dt);
    RotateLengthSq(w.direction, m.FromAngle(a));
    if w.baseVariation == 0.0 {
      assert a == 0.0;
      assert w.direction.Rotate(Vec2(1.0, 0.0)) == w.direction;
    }
  }

  /** Wander: the turned heading, scaled down to a nudge. */
  function WanderForce(m: Math, dt: real, u: real, wander: Option<Wander>): Vec2
    requires m.Lawful()
  {
    match wander
    case None => Zero2
    case Some(w) => Turned(m, dt, u, w).direction.Scale(WanderStrength)
  }

  /** MaintainRange: towards the player when too far, away when too close, nothing in the band. */
  function RangeForce(m: Math, player: Vec2, pos: Vec2, range: Option<real>): Vec2
    requires m.Lawful()
  {
    match range
    case None => Zero2
    case Some(desired) =>
      var toPlayer := player.Sub(pos);
      var dist := m.Length(toPlayer);
      if dist > desired + RangeTolerance then m.Normalize(toPlayer).Scale(1.0)
      else if dist < desired - RangeTolerance then m.Normalize(toPlayer).Neg().Scale(1.0)
      else Zero2
  }

  /**
    MaintainRange does nothing inside the closed band `[desired - 5, desired + 5]`,
    pulls with a unit vector towards the player beyond it, and pushes with a
    unit vector away from the player short of it (unless the two coincide).
  */
  lemma RangeSpec(m: Math, player: Vec2, pos: Vec2, desired: real)
    requires m.Lawful()
    ensures var toPlayer := player.Sub(pos); var dist := m.Length(toPlayer);
      var f := RangeForce(m, player, pos, Some(desired));
      && (desired - RangeTolerance <= dist <= desired + RangeTolerance ==> f == Zero2)
      && (dist > desired + RangeTolerance && pos != player ==>
            f.IsUnit() && f.Scale(dist) == toPlayer)
      && (dist < desired - RangeTolerance && pos != player ==>
            f.IsUnit() && f.Scale(dist) == toPlayer.Neg())
  {
    var toPlayer := player.Sub(pos);
    if pos != player {
      assert toPlayer != Zero2;
      var n := m.Normalize(toPlayer);
      m.NormalizeScale(toPlayer);
      assert n.Scale(1.0) == n;
      assert n.Neg().Scale(1.0) == n.Neg();
      assert n.Neg().IsUnit();
      assert n.Neg().Scale(m.Length(toPlayer)) == toPlayer.Neg();
    }
  }

  /** The radius the entity itself counts with: its circle's, or 0 for any other collider. */
  function OwnRadius(c: ColliderShape): real {
    match c
    case Circle(radius) => radius
    case _ => 0.0
  }

  /** The gap between the two circles: centre distance minus both radii. */
  function Clearance(m: Math, pos: Vec2, ownRadius: real, ally: (Vec2, real)): real
    requires m.Lawful()
  {
    m.Length(pos.Sub(ally.0)) - ally.1 - ownRadius
  }

  /** `push_strength`: linear falloff from 1 at contact to 0 at the avoidance radius. */
  function PushStrength(r: real, clearance: real): real
    requires r != 0.0
  {
    (r - clearance) / r
  }

  /** One ally's push, non-zero only for a clearance strictly between 0 and the avoidance radius. */
  function Push(m: Math, pos: Vec2, ownRadius: real, r: real, ally: (Vec2, real)): Vec2
    requires m.Lawful()
  {
    var offset := pos.Sub(ally.0);
    var clearance := Clearance(m, pos, ownRadius, ally);
    if clearance > 0.0 && clearance < r then
      offset.Div(clearance).Scale(PushStrength(r, clearance)).Scale(AvoidWeight)
    else Zero2
  }

  /** Inside the avoidance radius the strength lies strictly between 0 and 1. */
  lemma PushStrengthBounds(r: real, clearance: real)
    requires 0.0 < clearance < r
    ensures 0.0 < PushStrength(r, clearance) < 1.0
  {
    var s := PushStrength(r, clearance);
    assert s * r == r - clearance;
    if s <= 0.0 {
      MulLeft(r, s, 0.0);
    }
    if 1.0 <= s {
      MulLeft(r, 1.0, s);
    }
  }

  /**
    An ally pushes only when the clearance is strictly between 0 and `r`, and
    then away from the ally; an overlapping ally, or one at or beyond the
    avoidance radius, does not push.
  */
  lemma PushSpec(m: Math, pos: Vec2, ownRadius: real, r: real, ally: (Vec2, real))
    requires m.Lawful() && 0.0 <= ownRadius && 0.0 < ally.1
    ensures var c := Clearance(m, pos, ownRadius, ally); var p := Push(m, pos, ownRadius, r, ally);
      && (c <= 0.0 || r <= c ==> p == Zero2)
      && (0.0 < c < r ==> p.Dot(pos.Sub(ally.0)) > 0.0)
  {
    var offset := pos.Sub(ally.0);
    var c := Clearance(m, pos, ownRadius, ally);
    if 0.0 < c < r {
      var s := PushStrength(r, c);
      PushStrengthBounds(r, c);
      var k := s / c * AvoidWeight;
      assert 0.0 < k;
      var len := m.Length(offset);
      assert 0.0 < len;
      assert offset != Zero2;
      SquaresZero(offset.x, offset.y);
      assert 0.0 < offset.LengthSq();
      var p := offset.Div(c).Scale(s).Scale(AvoidWeight);
      assert p == offset.Scale(k) by {
        assert offset.x / c * s * AvoidWeight == offset.x * k;
        assert offset.y / c * s * AvoidWeight == offset.y * k;
      }
      assert p.Dot(offset) == k * offset.LengthSq();
      MulLeftStrict(k, 0.0, offset.LengthSq());
    }
  }

  /** The entity never pushes itself away: an ally standing at its own position contributes nothing. */
  lemma NoSelfPush(m: Math, pos: Vec2, ownRadius: real, r: real, allyRadius: real)
    requires m.Lawful() && 0.0 <= ownRadius && 0.0 < allyRadius
    ensures Push(m, pos, ownRadius, r, (pos, allyRadius)) == Zero2
  {
    assert pos.Sub(pos) == Zero2;
    PushSpec(m, pos, ownRadius, r, (pos, allyRadius));
  }

  /** AvoidAllies: the pushes of the allies, added one by one onto `s`. */
  function AvoidFrom(m: Math, pos: Vec2, ownRadius: real, r: real, s: Vec2, allies: seq<(Vec2, real)>): Vec2
    requires m.Lawful()
  {
    if allies == [] then s
    else
      var n := |allies| - 1;
      AvoidFrom(m, pos, ownRadius, r, s, allies[..n]).Add(Push(m, pos, ownRadius, r, allies[n]))
  }

  /** An ally that does not push leaves the running sum as it was. */
  lemma {:induction false} AvoidFromIgnores(m: Math, pos: Vec2, ownRadius: real, r: real, s: Vec2,
                                            allies: seq<(Vec2, real)>)
    requires m.Lawful()
    requires forall k :: 0 <= k < |allies| ==> Push(m, pos, ownRadius, r, allies[k]) == Zero2
    ensures AvoidFrom(m, pos, ownRadius, r, s, allies) == s
  {
    if allies != [] {
      var n := |allies| - 1;
      AvoidFromIgnores(m, pos, ownRadius, r, s, allies[..n]);
    }
  }

  //------------------------------------------------------------------
  // One entity
  //------------------------------------------------------------------

  /** The steering sum an entity ends up with, in the order the behaviours are applied. */
  function SteeringOf(m: Math, dt: real, u: real, player: Vec2, allies: seq<(Vec2, real)>, b: Body): Vec2
    requires m.Lawful()
  {
    var pos := b.pos.Truncate();
    var bh := b.behaviours;
    var s := Zero2.Add(SeekForce(m, player, pos, bh.seek)).Add(FleeForce(m, player, pos, bh.flee))
      .Add(WanderForce(m, dt, u, bh.wander)).Add(RangeForce(m, player, pos, bh.maintainRange));
    match bh.avoidAllies
    case None => s
    case Some(r) => AvoidFrom(m, pos, OwnRadius(b.collider), r, s, allies)
  }

  /** The wander component after the step. */
  function TurnedWander(m: Math, dt: real, u: real, wander: Option<Wander>): Option<Wander>
    requires m.Lawful()
  {
    match wander
    case None => None
    case Some(w) => Some(Turned(m, dt, u, w))
  }

  /** One entity after the steering pass: the player is left alone, any other gets a new input. */
  function Steered(m: Math, dt: real, u: real, player: Vec2, allies: seq<(Vec2, real)>, b: Body): Body
    requires m.Lawful()
  {
    if b.tags.player then b
    else b.(input := SteeringOf(m, dt, u, player, allies, b),
            behaviours := b.behaviours.(wander := TurnedWander(m, dt, u, b.behaviours.wander)))
  }

  /**
    The input is overwritten, not added to: the entity's earlier input has no
    bearing on the result.  The player is never steered, and a steered
    entity changes only in its input and its wander heading.
  */
  lemma SteeredSpec(m: Math, dt: real, u: real, player: Vec2, allies: seq<(Vec2, real)>, b: Body, earlier: Vec2)
    requires m.Lawful()
    ensures !b.tags.player ==> Steered(m, dt, u, player, allies, b.(input := earlier)) == Steered(m, dt, u, player, allies, b)
    ensures b.tags.player ==> Steered(m, dt, u, player, allies, b) == b
    ensures var r := Steered(m, dt, u, player, allies, b);
      r == b.(input := r.input, behaviours := b.behaviours.(wander := r.behaviours.wander))
  {}

  /** An entity without behaviour components gets zero input. */
  lemma NoBehavioursNoInput(m: Math, dt: real, u: real, player: Vec2, allies: seq<(Vec2, real)>, b: Body)
    requires m.Lawful() && !b.tags.player
    requires b.behaviours == Behaviours(None, None, None, None, None)
    ensures Steered(m, dt, u, player, allies, b).input == Zero2
  {}

  /**
    Among the allies the avoiding entity sees, one that stands at its own
    position (the entity itself, when it is an ally) adds nothing.
  */
  lemma AvoidIgnoresSelf(m: Math, pos: Vec2, ownRadius: real, r: real, s: Vec2, allies: seq<(Vec2, real)>)
    requires m.Lawful() && 0.0 <= ownRadius
    requires forall k :: 0 <= k < |allies| ==> allies[k].0 == pos && 0.0 < allies[k].1
    ensures AvoidFrom(m, pos, ownRadius, r, s, allies) == s
  {
    forall k | 0 <= k < |allies|
      ensures Push(m, pos, ownRadius, r, allies[k]) == Zero2
    {
      NoSelfPush(m, pos, ownRadius, r, allies[k].1);
    }
    AvoidFromIgnores(m, pos, ownRadius, r, s, allies);
  }

  //------------------------------------------------------------------
  // The system
  //------------------------------------------------------------------

  /** The loop over a prefix of the bodies: each one steered in turn, with its own sample. */
  function SteerPrefix(m: Math, dt: real, draws: nat -> real, player: Vec2, allies: seq<(Vec2, real)>,
                       bs: seq<Body>): (r: seq<Body>)
    requires m.Lawful()
    ensures |r| == |bs|
  {
    if bs == [] then []
    else
      var n := |bs| - 1;
      SteerPrefix(m, dt, draws, player, allies, bs[..n]) + [Steered(m, dt, draws(n), player, allies, bs[n])]
  }

  /** Each body of the loop's result is that body steered on its own. */
  lemma {:induction false} SteerPrefixAt(m: Math, dt: real, draws: nat -> real, player: Vec2,
                                         allies: seq<(Vec2, real)>, bs: seq<Body>, i: nat)
    requires m.Lawful() && i < |bs|
    ensures SteerPrefix(m, dt, draws, player, allies, bs)[i] == Steered(m, dt, draws(i), player, allies, bs[i])
  {
    var n := |bs| - 1;
    if i < n {
      SteerPrefixAt(m, dt, draws, player, allies, bs[..n], i);
    }
  }

  /** `enemy_steering_system` over every body, as a value. */
  function SteeredAll(m: Math, dt: real, draws: nat -> real, bs: seq<Body>): seq<Body>
    requires m.Lawful()
  {
    match PlayerPosition(bs)
    case None => bs
    case Some(p) => SteerPrefix(m, dt, draws, p, AllyPositions(bs), bs)
  }

  /**
    Without exactly one player nothing changes; otherwise every body keeps its
    place, the player is untouched and every other body is steered towards
    the player's position with the allies read before the loop.
  */
  lemma SteeredAllSpec(m: Math, dt: real, draws: nat -> real, bs: seq<Body>)
    requires m.Lawful()
    ensures |SteeredAll(m, dt, draws, bs)| == |bs|
    ensures PlayerPosition(bs).None? ==> SteeredAll(m, dt, draws, bs) == bs
    ensures forall i :: 0 <= i < |bs| && bs[i].tags.player ==> SteeredAll(m, dt, draws, bs)[i] == bs[i]
    ensures PlayerPosition(bs).Some? ==> forall i :: 0 <= i < |bs| ==>
      SteeredAll(m, dt, draws, bs)[i] == Steered(m, dt, draws(i), PlayerPosition(bs).value, AllyPositions(bs), bs[i])
  {
    if PlayerPosition(bs).Some? {
      var p := PlayerPosition(bs).value;
      forall i | 0 <= i < |bs|
        ensures SteeredAll(m, dt, draws, bs)[i] == Steered(m, dt, draws(i), p, AllyPositions(bs), bs[i])
      {
        SteerPrefixAt(m, dt, draws, p, AllyPositions(bs), bs, i);
      }
    }
  }

  /** Step 1 of the loop body: Seek adds the unit vector towards the player when it is close enough. */
  method SeekStep(m: Math, player: Vec2, pos: Vec2, seek: Option<real>, steering: Vec2) returns (s: Vec2)
    requires m.Lawful()
    ensures s == steering.Add(SeekForce(m, player, pos, seek))
  {
    s := steering;
    if seek.Some? {
      var toPlayer := player.Sub(pos);
      var distanceSq := Square(seek.value);
      if toPlayer.LengthSq() < distanceSq {
        s := steering.Add(m.Normalize(toPlayer).Scale(1.0));
      }
    }
  }

  /** Step 2: Flee adds the unit vector away from the player when it is close enough. */
  method FleeStep(m: Math, player: Vec2, pos: Vec2, flee: Option<real>, steering: Vec2) returns (s: Vec2)
    requires m.Lawful()
    ensures s == steering.Add(FleeForce(m, player, pos, flee))
  {
    s := steering;
    if flee.Some? {
      var away := pos.Sub(player);
      var distanceSq := Square(flee.value);
      if away.LengthSq() < distanceSq {
        s := steering.Add(m.Normalize(away).Scale(1.0));
      }
    }
  }

  /** Step 3: Wander turns its heading by this tick's random angle and adds the nudge. */
  method WanderStep(m: Math, dt: real, u: real, wander: Option<Wander>, steering: Vec2)
    returns (s: Vec2, turned: Option<Wander>)
    requires m.Lawful()
    ensures s == steering.Add(WanderForce(m, dt, u, wander))
    ensures turned == TurnedWander(m, dt, u, wander)
  {
    s := steering;
    turned := wander;
    if wander.Some? {
      var w := wander.value;
      var randVar := WanderAngle(w.baseVariation, u, dt);
      w := w.(direction := w.direction.Rotate(m.FromAngle(randVar)));
      s := steering.Add(w.direction.Scale(WanderStrength));
      turned := Some(w);
    }
  }

  /** Step 4: MaintainRange pulls or pushes by a unit vector outside its tolerance band. */
  method RangeStep(m: Math, player: Vec2, pos: Vec2, range: Option<real>, steering: Vec2) returns (s: Vec2)
    requires m.Lawful()
    ensures s == steering.Add(RangeForce(m, player, pos, range))
  {
    s := steering;
    if range.Some? {
      var desired := range.value;
      var toPlayer := player.Sub(pos);
      var dist := m.Length(toPlayer);
      if dist > desired + RangeTolerance {
        s := steering.Add(m.Normalize(toPlayer).Scale(1.0));
      } else if dist < desired - RangeTolerance {
        s := steering.Add(m.Normalize(toPlayer).Neg().Scale(1.0));
      }
    }
  }

  /** One ally of step 5: its push is added only when the clearance lies strictly inside `(0, r)`. */
  method PushStep(m: Math, pos: Vec2, ownRadius: real, r: real, ally: (Vec2, real), steering: Vec2) returns (s: Vec2)
    requires m.Lawful()
    ensures s == steering.Add(Push(m, pos, ownRadius, r, ally))
  {
    s := steering;
    var offset := pos.Sub(ally.0);
    var dist := Clearance(m, pos, ownRadius, ally);
    if dist > 0.0 && dist < r {
      var pushStrength := PushStrength(r, dist);
      s := steering.Add(offset.Div(dist).Scale(pushStrength).Scale(AvoidWeight));
    }
  }

  /** Step 5: AvoidAllies adds the push of every ally collected before the loop, in order. */
  method AvoidStep(m: Math, pos: Vec2, ownRadius: real, r: real, allies: seq<(Vec2, real)>, steering: Vec2)
    returns (s: Vec2)
    requires m.Lawful()
    ensures s == AvoidFrom(m, pos, ownRadius, r, steering, allies)
  {
    s := steering;
    for k := 0 to |allies|
      invariant s == AvoidFrom(m, pos, ownRadius, r, steering, allies[..k])
    {
      s := PushStep(m, pos, ownRadius, r, allies[k], s);
      assert allies[..k + 1][..k] == allies[..k];
    }
    assert allies[..|allies|] == allies;
  }

  /** The steering of one entity: the body of the loop. */
  method SteerBody(m: Math, dt: real, u: real, player: Vec2, allies: seq<(Vec2, real)>, b: Body) returns (r: Body)
    requires m.Lawful() && !b.tags.player
    ensures r == Steered(m, dt, u, player, allies, b)
  {
    var pos := b.pos.Truncate();
    var behaviours := b.behaviours;
    var steering := SeekStep(m, player, pos, behaviours.seek, Zero2);
    steering := FleeStep(m, player, pos, behaviours.flee, steering);
    var wander;
    steering, wander := WanderStep(m, dt, u, behaviours.wander, steering);
    steering := RangeStep(m, player, pos, behaviours.maintainRange, steering);
    if behaviours.avoidAllies.Some? {
      steering := AvoidStep(m, pos, OwnRadius(b.collider), behaviours.avoidAllies.value, allies, steering);
    }
    r := b.(input := steering, behaviours := behaviours.(wander := wander));
  }

  /** The loop body over slot `i`: the body there, steered unless it is the player. */
  method SteerSlot(m: Math, dt: real, draws: nat -> real, player: Vec2, allies: seq<(Vec2, real)>,
                   ghost start: seq<Body>, ghost target: seq<Body>, i: nat, b: Body) returns (r: Body)
    requires m.Lawful() && i < |start| == |target| && b == start[i]
    requires forall j {:trigger Steered(m, dt, draws(j), player, allies, start[j])} :: 0 <= j < |start| ==>
      target[j] == Steered(m, dt, draws(j), player, allies, start[j])
    ensures r == target[i]
  {
    assert target[i] == Steered(m, dt, draws(i), player, allies, b);
    r := b;
    if !b.tags.player {
      r := SteerBody(m, dt, draws(i), player, allies, b);
    }
  }

  /** The loop of the system: every body but the player is steered towards `player`, in order. */
  method SteerEach(m: Math, dt: real, draws: nat -> real, player: Vec2, allies: seq<(Vec2, real)>, bodies: array<Body>,
                   ghost target: seq<Body>)
    requires m.Lawful() && |target| == bodies.Length
    requires forall j {:trigger Steered(m, dt, draws(j), player, allies, bodies[j])} :: 0 <= j < bodies.Length ==>
      target[j] == Steered(m, dt, draws(j), player, allies, bodies[j])
    modifies bodies
    ensures bodies[..] == target
  {
    ghost var start := bodies[..];
    assert forall j {:trigger Steered(m, dt, draws(j), player, allies, start[j])} :: 0 <= j < |start| ==>
      target[j] == Steered(m, dt, draws(j), player, allies, start[j]);
    for i := 0 to bodies.Length
      invariant forall j :: 0 <= j < i ==> bodies[j] == target[j]
      invariant forall j :: i <= j < bodies.Length ==> bodies[j] == start[j]
    {
      bodies[i] := SteerSlot(m, dt, draws, player, allies, start, target, i, bodies[i]);
    }
  }

  /** `enemy_steering_system`: every body but the player is steered, once there is exactly one player. */
  method EnemySteeringSystem(m: Math, dt: real, draws: nat -> real, bodies: array<Body>)
    requires m.Lawful()
    modifies bodies
    ensures bodies[..] == SteeredAll(m, dt, draws, old(bodies[..]))
  {
    var playerPos := PlayerPosition(bodies[..]);
    if playerPos.None? {
      return;
    }
    var allyPositions := AllyPositions(bodies[..]);
    SteeredAllSpec(m, dt, draws, bodies[..]);
    SteerEach(m, dt, draws, playerPos.value, allyPositions, bodies, SteeredAll(m, dt, draws, bodies[..]));
  }
}
