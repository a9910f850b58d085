/**
  The combat systems of src/combat/systems.rs.  `collision_to_damage` reads
  the tick's collision events and writes a damage event for every contact
  that starts between a player and an enemy; `apply_damage` reads the damage
  events, damages the victim's `Health` in place and issues a despawn
  command for every victim that is dead afterwards.  The player and enemy
  queries are sets of entity handles, the `Health` query a map from handles
  to components, and the despawn commands the sequence of handles issued.
*/
module Combat {
  import opened Vectors
  import opened Wrappers
  import opened Components
  import opened ContactTracking
  import opened Attributes

  /** The event `collision_to_damage` writes and `apply_damage` reads. */
  datatype DamageEvent = DamageEvent(victim: Entity, amount: real)

  //------------------------------------------------------------------
  // collision_to_damage
  //------------------------------------------------------------------

  /** The damage of a hit at normal speed `vN`: `max(vN / max_speed * base, 0)`. */
  function CollisionDamage(vN: real, maxSpeed: real, baseDamage: real): real
    requires maxSpeed != 0.0
  {
    Max(vN / maxSpeed * baseDamage, 0.0)
  }

  /**
    Damage is never negative.  With a positive speed limit and a non-negative
    base damage, a side that is not approaching does no damage, an
    approaching side does damage in proportion to its speed, and a side at
    or under the speed limit does at most the base damage.
  */
  lemma CollisionDamageSpec(vN: real, maxSpeed: real, baseDamage: real)
    requires 0.0 < maxSpeed && 0.0 <= baseDamage
    ensures 0.0 <= CollisionDamage(vN, maxSpeed, baseDamage)
    ensures vN <= 0.0 ==> CollisionDamage(vN, maxSpeed, baseDamage) == 0.0
    ensures 0.0 <= vN ==> CollisionDamage(vN, maxSpeed, baseDamage) * maxSpeed == vN * baseDamage
    ensures vN <= maxSpeed ==> CollisionDamage(vN, maxSpeed, baseDamage) <= baseDamage
  {
    var k := vN / maxSpeed;
    assert k * maxSpeed == vN;
    if vN <= 0.0 {
      assert k <= 0.0;
      MulLeft(baseDamage, k, 0.0);
      assert k * baseDamage == baseDamage * k;
    } else {
      assert 0.0 < k;
      MulLeft(baseDamage, 0.0, k);
      assert k * baseDamage * maxSpeed == vN * baseDamage;
      if vN <= maxSpeed {
        assert k <= 1.0 by {
          if 1.0 < k {
            MulLeftStrict(maxSpeed, 1.0, k);
          }
        }
        MulLeft(baseDamage, k, 1.0);
        assert k * baseDamage == baseDamage * k;
      }
    }
  }

  /** What one collision event turns into: a damage event, or nothing. */
  function DamageFor(ev: CollisionEvent, players: set<Entity>, enemies: set<Entity>,
                     maxSpeed: real, baseDamage: real): Option<DamageEvent>
    requires maxSpeed != 0.0
  {
    match ev
    case Stopped(_, _) => None
    case Started(a, b, _, vAN, vBN) =>
      var aIsPlayer := a in players;
      var bIsPlayer := b in players;
      var aIsEnemy := a in enemies;
      var bIsEnemy := b in enemies;
      if (aIsPlayer && bIsEnemy) || (aIsEnemy && bIsPlayer) then
        var victim := if aIsEnemy then a else b;
        var vN := if aIsPlayer then vAN else vBN;
        Some(DamageEvent(victim, CollisionDamage(vN, maxSpeed, baseDamage)))
      else None
  }

  /**
    A stop event never does damage.  A start event does damage exactly when
    one side is a player and the other an enemy, in either order; the victim
    is then the enemy side, the amount is not negative and it is computed
    from the normal speed of the player side.
  */
  lemma DamageForSpec(ev: CollisionEvent, players: set<Entity>, enemies: set<Entity>,
                      maxSpeed: real, baseDamage: real)
    requires maxSpeed != 0.0
    ensures ev.Stopped? ==> DamageFor(ev, players, enemies, maxSpeed, baseDamage) == None
    ensures ev.Started? ==>
      (DamageFor(ev, players, enemies, maxSpeed, baseDamage).Some? <==>
        (ev.a in players && ev.b in enemies) || (ev.a in enemies && ev.b in players))
    ensures match DamageFor(ev, players, enemies, maxSpeed, baseDamage)
      case None => true
      case Some(d) =>
        && d.victim in enemies
        && (ev.a in enemies ==> d.victim == ev.a)
        && (ev.a !in enemies ==> d.victim == ev.b)
        && 0.0 <= d.amount
        && (ev.a in players ==> d.amount == CollisionDamage(ev.vAN, maxSpeed, baseDamage))
        && (ev.a !in players ==> ev.b in players && d.amount == CollisionDamage(ev.vBN, maxSpeed, baseDamage))
  {}

  /** The damage events of a sequence of collision events, in order. */
  function DamageEvents(evs: seq<CollisionEvent>, players: set<Entity>, enemies: set<Entity>,
                        maxSpeed: real, baseDamage: real): (r: seq<DamageEvent>)
    requires maxSpeed != 0.0
    ensures |r| <= |evs|
    ensures forall i :: 0 <= i < |r| ==> r[i].victim in enemies && 0.0 <= r[i].amount
  {
    if evs == [] then []
    else
      var n := |evs| - 1;
      var before := DamageEvents(evs[..n], players, enemies, maxSpeed, baseDamage);
      DamageForSpec(evs[n], players, enemies, maxSpeed, baseDamage);
      match DamageFor(evs[n], players, enemies, maxSpeed, baseDamage)
      case None => before
      case Some(d) => before + [d]
  }

  /** Stop events alone never do damage. */
  lemma {:induction false} OnlyStoppedNoDamage(evs: seq<CollisionEvent>, players: set<Entity>, enemies: set<Entity>,
                                               maxSpeed: real, baseDamage: real)
    requires maxSpeed != 0.0
    requires forall i :: 0 <= i < |evs| ==> evs[i].Stopped?
    ensures DamageEvents(evs, players, enemies, maxSpeed, baseDamage) == []
  {
    if evs != [] {
      OnlyStoppedNoDamage(evs[..|evs| - 1], players, enemies, maxSpeed, baseDamage);
    }
  }

  /** Contacts with no player in them never do damage. */
  lemma {:induction false} NoPlayerNoDamage(evs: seq<CollisionEvent>, players: set<Entity>, enemies: set<Entity>,
                                            maxSpeed: real, baseDamage: real)
    requires maxSpeed != 0.0
    requires forall i :: 0 <= i < |evs| ==> evs[i].a !in players && evs[i].b !in players
    ensures DamageEvents(evs, players, enemies, maxSpeed, baseDamage) == []
  {
    if evs != [] {
      var n := |evs| - 1;
      NoPlayerNoDamage(evs[..n], players, enemies, maxSpeed, baseDamage);
      DamageForSpec(evs[n], players, enemies, maxSpeed, baseDamage);
    }
  }

  /** `collision_to_damage`: one pass over the collision events. */
  method CollisionToDamage(evs: seq<CollisionEvent>, players: set<Entity>, enemies: set<Entity>,
                           cfg: PhysicsConfig, baseDamage: real) returns (out: seq<DamageEvent>)
    requires cfg.maxSpeed != 0.0
    ensures out == DamageEvents(evs, players, enemies, cfg.maxSpeed, baseDamage)
  {
    out := [];
    for i := 0 to |evs|
      invariant out == DamageEvents(evs[..i], players, enemies, cfg.maxSpeed, baseDamage)
    {
      assert evs[..i + 1][..i] == evs[..i];
      var ev := evs[i];
      if ev.Started? {
        var aIsPlayer := ev.a in players;
        var bIsPlayer := ev.b in players;
        var aIsEnemy := ev.a in enemies;
        var bIsEnemy := ev.b in enemies;
        if (aIsPlayer && bIsEnemy) || (aIsEnemy && bIsPlayer) {
          var victim := if aIsEnemy then ev.a else ev.b;
          var vN := if aIsPlayer then ev.vAN else ev.vBN;
          var vNorm := vN / cfg.maxSpeed;
          var damage := Max(vNorm * baseDamage, 0.0);
          assert damage == CollisionDamage(vN, cfg.maxSpeed, baseDamage);
          assert DamageFor(ev, players, enemies, cfg.maxSpeed, baseDamage) == Some(DamageEvent(victim, damage));
          out := out + [DamageEvent(victim, damage)];
        } else {
          assert DamageFor(ev, players, enemies, cfg.maxSpeed, baseDamage) == None;
        }
      } else {
        assert DamageFor(ev, players, enemies, cfg.maxSpeed, baseDamage) == None;
      }
    }
    assert evs[..|evs|] == evs;
  }

  //------------------------------------------------------------------
  // apply_damage
  //------------------------------------------------------------------

  /** The current health values of the components in the query. */
  ghost function Currents(hp: map<Entity, Health>): map<Entity, real>
    reads hp.Values
  {
    map e | e in hp :: hp[e].current
  }

  /** The health values after a sequence of damage events; victims without health are skipped. */
  function AfterDamage(cur: map<Entity, real>, evs: seq<DamageEvent>): (r: map<Entity, real>)
    ensures r.Keys == cur.Keys
  {
    if evs == [] then cur
    else
      var n := |evs| - 1;
      var mid := AfterDamage(cur, evs[..n]);
      var v := evs[n].victim;
      if v in mid then mid[v := Damaged(mid[v], evs[n].amount)] else mid
  }

  /** The despawn commands issued: a victim each time a damage event leaves it dead. */
  function Despawned(cur: map<Entity, real>, evs: seq<DamageEvent>): (r: seq<Entity>)
    ensures forall i :: 0 <= i < |r| ==> r[i] in cur
  {
    if evs == [] then []
    else
      var n := |evs| - 1;
      var mid := AfterDamage(cur, evs[..n]);
      var v := evs[n].victim;
      Despawned(cur, evs[..n]) + (if v in mid && Dead(Damaged(mid[v], evs[n].amount)) then [v] else [])
  }

  /** Is `e` the victim of one of the events? */
  predicate Hit(e: Entity, evs: seq<DamageEvent>) {
    exists i :: 0 <= i < |evs| && evs[i].victim == e
  }

  /** An entity no event names keeps its health. */
  lemma {:induction false} UnhitUnchanged(cur: map<Entity, real>, evs: seq<DamageEvent>, e: Entity)
    requires e in cur && !Hit(e, evs)
    ensures AfterDamage(cur, evs)[e] == cur[e]
  {
    if evs != [] {
      var n := |evs| - 1;
      assert forall i :: 0 <= i < n ==> evs[..n][i] == evs[i];
      UnhitUnchanged(cur, evs[..n], e);
    }
  }

  /** Non-negative damage only ever lowers health, and never below zero once hit. */
  lemma {:induction false} DamageOnlyLowers(cur: map<Entity, real>, evs: seq<DamageEvent>, e: Entity)
    requires e in cur
    requires forall i :: 0 <= i < |evs| ==> 0.0 <= evs[i].amount
    ensures AfterDamage(cur, evs)[e] <= Max(cur[e], 0.0)
  {
    if evs != [] {
      var n := |evs| - 1;
      DamageOnlyLowers(cur, evs[..n], e);
    }
  }

  /**
    With non-negative amounts, a despawn command is issued for an entity
    with health exactly when it was hit and is dead after all the events.
  */
  lemma {:induction false} DespawnedIffDead(cur: map<Entity, real>, evs: seq<DamageEvent>, e: Entity)
    requires e in cur
    requires forall i :: 0 <= i < |evs| ==> 0.0 <= evs[i].amount
    ensures e in Despawned(cur, evs) <==> Hit(e, evs) && Dead(AfterDamage(cur, evs)[e])
  {
    if evs != [] {
      var n := |evs| - 1;
      var init := evs[..n];
      var mid := AfterDamage(cur, init);
      var v := evs[n].victim;
      DespawnedIffDead(cur, init, e);
      assert Despawned(cur, evs) == Despawned(cur, init) + (if v in mid && Dead(Damaged(mid[v], evs[n].amount)) then [v] else []);
      if Hit(e, init) {
        var i :| 0 <= i < n && init[i].victim == e;
        assert evs[i].victim == e;
      }
      if v == e {
        assert Hit(e, evs);
        if e in Despawned(cur, init) {
          // dead before this event: non-negative damage keeps it dead
          assert Dead(mid[e]);
        }
      } else {
        if Hit(e, evs) {
          var i :| 0 <= i < |evs| && evs[i].victim == e;
          assert i < n && init[i].victim == e;
        }
      }
    }
  }

  /**
    `apply_damage`: each event damages its victim's component, when it has
    one, and a despawn command is issued whenever the victim is dead
    afterwards.  Despawning is deferred, so a later event in the same pass
    still finds the component.
  */
  method ApplyDamage(evs: seq<DamageEvent>, hp: map<Entity, Health>) returns (despawns: seq<Entity>)
    requires forall e1, e2 :: e1 in hp && e2 in hp && e1 != e2 ==> hp[e1] != hp[e2]
    modifies hp.Values
    ensures forall e :: e in hp ==> hp[e].current == AfterDamage(old(Currents(hp)), evs)[e]
    ensures forall e :: e in hp ==> hp[e].max == old(hp[e].max)
    ensures despawns == Despawned(old(Currents(hp)), evs)
  {
    ghost var start := Currents(hp);
    ghost var maxes := map e | e in hp :: hp[e].max;
    despawns := [];
    for i := 0 to |evs|
      invariant forall e :: e in hp ==> hp[e].current == AfterDamage(start, evs[..i])[e]
      invariant forall e :: e in hp ==> hp[e].max == maxes[e]
      invariant despawns == Despawned(start, evs[..i])
    {
      assert evs[..i + 1][..i] == evs[..i];
      var ev := evs[i];
      if ev.victim in hp {
        var health := hp[ev.victim];
        health.Damage(ev.amount);
        if health.IsDead() {
          despawns := despawns + [ev.victim];
        }
      }
    }
    assert evs[..|evs|] == evs;
  }
}
