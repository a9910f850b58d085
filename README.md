# rustgamedev simulation core in Dafny

This project models the per-tick simulation logic of a small Bevy top-down
game. The ECS plumbing is left out. What remains is the arithmetic and
bookkeeping the systems perform on their queried components:

- **Collision geometry and contact tracking** (`src/physics/collision/systems.rs`).
  - The circle-vs-rectangle and circle-vs-circle narrow phase.
  - Restitution-based resolution of wall and circle contacts.
  - The contact summaries and the canonical pair key.
  - The two detection systems, which loop over the movers, resolve every contact
    in place and record it in the `Contacts` resource.
  - `emit_collision_events`, which diffs the current contact map against the
    previous one and emits edge-triggered `Started` / `Stopped` events.
- **The fixed-step integrator** (`src/physics/systems.rs`).
  - Input is turned into acceleration, and drag is applied per axis.
  - The speed is clamped by its square.
  - The previous translation is snapshotted, the position advanced and the
    input consumed.
  - The rendered transform is a lerp between the two last translations.
- **The enemy steering overlay** (`src/behavior/systems.rs`): Seek, Flee, Wander,
  MaintainRange and AvoidAllies contributions summed into each non-player's input.
- **Combat** (`src/combat/systems.rs`, `src/attributes/components.rs`).
  - Collision events between a player and an enemy become damage events.
  - Damage events lower the victim's `Health`, and dead victims are despawned.
  - `Health` itself clamps damage at zero and healing at the maximum.
- **The legacy revision** (`src/systems/collision.rs`, `src/phy_engine.rs`,
  `src/systems/physics.rs`).
  - Pure reflection off walls and perfectly elastic circle collisions, with the
    overlap halved.
  - An integrator that decelerates by a constant or adds the acceleration whole
    and clamps the speed.

## Modules

| module | file | models |
|---|---|---|
| `Vectors` | vectors.dfy | `Vec2`/`Vec3` over `real`; `sqrt`, `cos`, `sin` as fields of a `Math` value whose laws are the precondition `Lawful()` |
| `Wrappers` | wrappers.dfy | `Option` |
| `Components` | components.dfy | entities, colliders with positive radii and non-negative half extents, behaviours, tags, bodies, walls, `PhysicsConfig` |
| `Collision` | collision.dfy | the pure helpers of `src/physics/collision/systems.rs` |
| `ContactTracking` | contacts.dfy | the `Contacts` resource as a class with `current` and `prev` maps, and `emit_collision_events` |
| `Detection` | detection.dfy | the two detection systems over an `array` of bodies |
| `Integrator` | integrator.dfy | `src/physics/systems.rs` |
| `Steering` | steering.dfy | `src/behavior/systems.rs` |
| `Attributes` | health.dfy | `Health` as a class |
| `Combat` | combat.dfy | `src/combat/systems.rs` |
| `LegacyCollision` | legacy_collision.dfy | `src/systems/collision.rs` |
| `LegacyPhysics` | legacy_physics.dfy | `src/phy_engine.rs` and `src/systems/physics.rs` |

Conventions:

- A system that updates queried components is a method over an `array` of
  component records, proved against a function of the old array contents; its
  loop bodies follow the source's branches statement by statement.
- The combat systems work on event sequences and on a map from entities to
  `Health` objects. `Combat.CollisionToDamage` turns collision events into
  damage events. `Combat.ApplyDamage` updates each `Health` in place and
  returns the despawn commands.
- The `Contacts` resource is a class; `emit_collision_events` is its method
  `EmitCollisionEvents`.
- A query iterated in an unspecified order is modelled as follows:
  - the `HashMap` of contacts is iterated with `:|`;
  - `iter_combinations` takes the pairs `(i, j)`, `i < j`, in row order (`Detection.AllPairs`).
- The random sample of `Wander` is a function `draws` from the body's index to a
  number in `[0, 1)`.

Observations on the source, all modelled as written:

- `apply_drag_component` is applied on an axis whenever the acceleration along it
  is below `f32::EPSILON`. This includes negative accelerations, so a body that
  accelerates towards negative x is also dragged on x.
- The contact data is not reoriented when `ordered_pair` swaps the two entities:
  `v_a_n` is then the normal speed of the second entity of the key.
- AvoidAllies divides the offset by the clearance, not by the offset's length. The
  push is therefore longer than `push_strength * 2` and grows as the clearance shrinks.
- `src/systems/physics.rs` uses `DEFAULT_DECELERATION` and `MAX_SPEED`, which
  `src/constants.rs` does not define. The model takes both as parameters
  (`LegacyPhysics.AdvancePhysics`). `src/phy_engine.rs` defines them locally as
  210 and 10 (`LegacyPhysics.EngineAdvancePhysics`).

## Model

| member | source | states |
|---|---|---|
| Collision.OrderedPair | src/physics/collision/systems.rs:129-135 | the key holds the two entities; with different indices the lower index comes first; with equal indices the second argument comes first |
| Collision.OrderedPairSymmetric | src/physics/collision/systems.rs:129-135 | for entities with different indices both argument orders give the same key |
| Collision.Separation | src/physics/collision/systems.rs:149-156 | the normal of a non-zero offset is a unit vector that, times the distance, gives back the offset; a zero offset gives the fallback normal |
| Collision.FallbackNormal | src/physics/collision/systems.rs:152-155 | the fallback normal is a unit axis vector along x when the x offset is strictly larger in size and along y otherwise (ties go to y), pointing with the offset's sign; a zero offset component counts as positive, so a centre exactly on the rectangle's centre is pushed along +y |
| Collision.InBoxIffClosestIsSelf | src/physics/collision/systems.rs:139-143 | the clamped closest point equals the centre exactly when the centre is on or inside the rectangle |
| Collision.CircleVsRect | src/physics/collision/systems.rs:137-161 | a contact is reported iff the squared distance to the clamped closest point is at most r squared; the penetration lies in [0, r]; a centre on or inside the box gets the axis fallback normal with penetration r |
| Collision.CircleVsRectGeometry | src/physics/collision/systems.rs:149-160 | a wall contact has a unit normal along which the centre lies radius minus penetration from the closest point; the penetration is the full radius only for a centre inside the box |
| Collision.ClosestPointIsNearest | src/physics/collision/systems.rs:139-143 | the clamped point lies in the rectangle and no point of the rectangle is nearer to the centre |
| Collision.CircleVsRectIffOverlap | src/physics/collision/systems.rs:137-147 | a wall contact is reported iff some point of the rectangle lies within the radius of the centre |
| Collision.TouchingWallIsContact | src/physics/collision/systems.rs:145-159 | a circle exactly touching the rectangle is a contact with penetration 0 |
| Collision.CircleVsCircle | src/physics/collision/systems.rs:163-180 | a contact is reported iff the centre distance is strictly below r1 + r2; the penetration lies in (0, r1 + r2]; coincident centres use the normalised (1, 1) normal and penetration r1 + r2 |
| Collision.CircleVsCircleGeometry | src/physics/collision/systems.rs:170-179 | a circle contact has a unit normal from the first centre to the second, and the centres lie r1 + r2 minus the penetration apart along it |
| Collision.Bounce | src/physics/collision/systems.rs:189-198 | a velocity that is not moving into the wall is left unchanged |
| Collision.BounceComponents | src/physics/collision/systems.rs:193-198 | when moving into the wall, the new normal speed is minus e times the old one and the tangential speed is unchanged |
| Collision.BounceSpeed | src/physics/collision/systems.rs:193-198 | for 0 <= e <= 1 the bounce never increases the speed, and for e = 1 it keeps it |
| Collision.ResolveCircleWall | src/physics/collision/systems.rs:182-202 | the planar velocity is the bounce and the height velocity is kept; the position always moves by normal times penetration in the plane, keeping its height |
| Collision.ResolvedWallTouches | src/physics/collision/systems.rs:182-202 | after resolving a detected wall contact the centre lies exactly the radius away from the rectangle point that was nearest |
| Collision.CircleWallContactData | src/physics/collision/systems.rs:241-256 | the data reports the negated normal speed of the mover and 0 for the wall; the impulse is 0 unless the mover moves into the wall, and for e > -1 and a positive mass it is positive exactly then |
| Collision.WallImpulseIsMomentumChange | src/physics/collision/systems.rs:241-256 | the reported wall impulse equals the mass times the change of normal speed the bounce makes |
| Collision.ImpulseSize | src/physics/collision/systems.rs:221-223 | no impulse unless approaching; when approaching, the impulse over the two masses turns the relative normal speed into minus e times itself |
| Collision.CircleImpulse | src/physics/collision/systems.rs:218-227 | m1 v1 + m2 v2 is preserved; velocities are unchanged unless the circles approach along the normal; each velocity moves along the normal by the impulse over its mass, in opposite directions |
| Collision.CircleImpulseComponents | src/physics/collision/systems.rs:218-227 | along a unit normal each normal speed shifts by the impulse over its mass, and tangential speeds and heights are kept |
| Collision.CircleRestitution | src/physics/collision/systems.rs:219-227 | an approaching pair leaves with relative normal speed minus e times the closing speed (0 for e = 0, reversed for e = 1) |
| Collision.Depenetrate | src/physics/collision/systems.rs:230-238 | no movement unless the penetration is positive; then the gap between the centres grows by exactly the penetration along the normal, the mass-weighted centre does not move, and heights are kept |
| Collision.ResolveCircleCircle | src/physics/collision/systems.rs:205-239 | the velocities change by the impulse step and the positions by the depenetration step, independently |
| Collision.ResolvedCirclesTouch | src/physics/collision/systems.rs:205-239 | after resolving a detected circle contact the two circles exactly touch: their centres are r1 + r2 apart |
| Collision.DepenetrateGap | src/physics/collision/systems.rs:231-238 | in the plane, depenetration moves the centres apart by exactly the penetration along the normal |
| Collision.CircleCircleContactData | src/physics/collision/systems.rs:258-282 | both normal speeds are reported; the impulse is 0 unless closing, and for e > -1 it is positive exactly when the circles close |
| Collision.ContactDataMatchesImpulse | src/physics/collision/systems.rs:258-282 | the reported circle impulse is the negated impulse size the resolver applies |
| ContactTracking.TickEventsPerPair | src/physics/collision/systems.rs:96-123 | under the tick's event spec, a key has a Started event iff it is current and not previous, a Stopped event iff it is previous and not current, and the event count is the size of the symmetric difference |
| ContactTracking.DistinctCount | src/physics/collision/systems.rs:96-123 | events with pairwise different keys are as many as their keys |
| ContactTracking.AppendEvent | src/physics/collision/systems.rs:102-120 | adding an event that fits the maps for a key not yet reported keeps the report invariant |
| ContactTracking.StartedStep | src/physics/collision/systems.rs:102-112 | one iteration of the Started loop: a current key absent from prev adds its Started event with the current data; any other key adds nothing |
| ContactTracking.StartedEvents | src/physics/collision/systems.rs:102-112 | the Started loop reports exactly the keys of current minus prev, each once, with its current data |
| ContactTracking.StoppedStep | src/physics/collision/systems.rs:113-120 | one iteration of the Stopped loop: a previous key absent from current adds its Stopped event, any other key nothing |
| ContactTracking.StoppedEvents | src/physics/collision/systems.rs:113-120 | appending the Stopped loop to the Started events gives exactly the tick's events, Started first |
| ContactTracking.DiffContacts | src/physics/collision/systems.rs:100-120 | the events of a tick: Started exactly for current minus prev carrying the current data, Stopped exactly for prev minus current, nothing for keys in both, one event per key, all Started before any Stopped |
| ContactTracking.Contacts.constructor | src/physics/collision/resources.rs:5-9 | the default resource has both maps empty |
| ContactTracking.Contacts.Record | src/physics/collision/systems.rs:42 | an insert overwrites the key in current and leaves prev alone |
| ContactTracking.Contacts.EmitCollisionEvents | src/physics/collision/systems.rs:96-123 | writes the tick's events as DiffContacts specifies; afterwards prev is the old current and current is empty |
| ContactTracking.EdgeOfTick | src/physics/collision/systems.rs:102-120 | in one tick's events a key has a Started event iff its edge from prev to current is a start, a Stopped event iff the edge is a stop, and no event iff it has no edge; its events are exactly that edge |
| ContactTracking.HistoryAlternates | src/physics/collision/systems.rs:96-123 | over any sequence of contact sets, a key's edges alternate start and stop, the first matches the key's absence at the start and the last matches its presence at the end |
| ContactTracking.RunHistory | src/physics/collision/systems.rs:96-123 | over a run of ticks in which each tick's prev is the previous tick's current, the events written about a key are its edge history over the ticks' contact sets |
| ContactTracking.RunAlternates | src/physics/collision/systems.rs:96-123 | over a run of ticks the events written about a key alternate Started and Stopped, the first is a Started iff the key was not in contact at the start, and the last is a Started iff the key is in contact at the end |
| ContactTracking.RunTicks | src/physics/collision/systems.rs:100-122 | successive EmitCollisionEvents calls, each after the detection systems filled current, write a run of ticks from the starting prev; afterwards prev is the last tick's contacts and current is empty |
| Detection.RecordAllKeys | src/physics/collision/systems.rs:42 | the recorded map's keys are the old keys plus the inserted ones |
| Detection.RecordAllLastWins | src/physics/collision/systems.rs:42 | a key's value after a run of inserts is that of its last insert |
| Detection.RecordAllAppend | src/physics/collision/systems.rs:42 | recording two runs of inserts one after the other is recording their concatenation |
| Detection.WallStep | src/physics/collision/systems.rs:33-43 | a mover against one wall changes only its position and velocity |
| Detection.WallStepSpec | src/physics/collision/systems.rs:33-43 | no contact leaves the mover alone; a contact happens iff the mover is a circle, the wall a rectangle and the test from the centre fixed before the wall loop reports one; then the record is the ordered pair with the data taken from the current velocity before resolution, and the current kinematics are resolved by ResolveCircleWall |
| Detection.WallsFrom | src/physics/collision/systems.rs:33-43 | the wall loop with every contact tested from one fixed centre changes only the mover's position and velocity and records at most one insert per wall |
| Detection.NonCircleSkipped | src/physics/collision/systems.rs:28-30 | a mover that is not a circle is left unchanged and records nothing |
| Detection.MoverKeys | src/physics/collision/systems.rs:31-43 | the keys a mover's wall pass records are exactly the ordered pairs of the mover with the walls its circle touches at the centre taken before the wall loop, each insert joining the mover with one wall |
| Detection.WallImpulsesNonNegative | src/physics/collision/systems.rs:31-42 | for restitution above -1 every wall impulse a mover's pass records is non-negative |
| Detection.MoverAgainstWall | src/physics/collision/systems.rs:34-43 | the inner loop body, testing from the given centre: the mover as WallStep leaves it, and its insert recorded in current; prev untouched |
| Detection.MoverAgainstWalls | src/physics/collision/systems.rs:28-44 | the outer loop body for one mover: non-circles skipped, the centre taken once, then the wall loop; the mover as MoverVsWalls leaves it, its inserts recorded in order |
| Detection.CircleWallCollisionSystem | src/physics/collision/systems.rs:13-46 | every mover is updated in place as MoverVsWalls specifies; current gains all movers' inserts in order; prev is untouched |
| Detection.PairStep | src/physics/collision/systems.rs:66-92 | a pair step changes only the two bodies of the pair, and only their positions and velocities |
| Detection.PairStepSpec | src/physics/collision/systems.rs:66-92 | no contact leaves all bodies alone; a contact happens iff both are circles and the test reports one; then the record is the ordered pair with the data taken before resolution, and the pair is resolved by ResolveCircleCircle |
| Detection.PairStepMomentum | src/physics/collision/systems.rs:74-91 | a pair step keeps the pair's total momentum |
| Detection.AllPairsSpec | src/physics/collision/systems.rs:59-65 | the pair order takes every pair i < j < n exactly once and no other |
| Detection.CirclePassMovesOnly | src/physics/collision/systems.rs:59-93 | the pass over pairs changes only positions and velocities |
| Detection.CirclePassAppend | src/physics/collision/systems.rs:59-93 | the pass over one more pair is the pass so far followed by that pair's step |
| Detection.CollidePair | src/physics/collision/systems.rs:66-91 | the loop body on the array: the pair is resolved in place and its insert recorded |
| Detection.CircleCircleCollisionSystem | src/physics/collision/systems.rs:49-94 | the array and current become what the pass over all pairs in order leaves; prev is untouched |
| Detection.CirclePassConservesMomentum | src/physics/collision/systems.rs:49-94 | the circle pass keeps the total momentum of all bodies |
| Integrator.DragSpec | src/physics/systems.rs:89-95 | a component below EPSILON in size is unchanged; otherwise it never changes sign, and its size drops by min(drag, its size) |
| Integrator.DragStops | src/physics/systems.rs:93-94 | a drag at least the component's size stops it |
| Integrator.DragSlows | src/physics/systems.rs:89-95 | a non-negative drag never increases the component's size |
| Integrator.ApplyDragComponent | src/physics/systems.rs:89-95 | the in-place update computes Drag |
| Integrator.AccelerationSpec | src/physics/systems.rs:38 | the acceleration is planar; zero input gives zero acceleration; other input gives an acceleration of exactly the configured size, pointing along the input (the input scaled by acceleration over its length) |
| Integrator.ClampSpeedSpec | src/physics/systems.rs:51-53 | the velocity is untouched within max_speed; above it, it is rescaled along itself to exactly max_speed (its length times the clamped velocity is max_speed times the old one); either way its square is within max_speed squared |
| Integrator.AdvancedSpec | src/physics/systems.rs:38-60 | the acceleration is the normalised input; the velocity is the new one; prev is the old translation; the translation advances by velocity times dt; the input is reset; nothing else changes |
| Integrator.AdvancedSpeed | src/physics/systems.rs:50-53 | after a step the squared speed is within max_speed squared |
| Integrator.AcceleratedComponents | src/physics/systems.rs:40-50 | an axis is dragged exactly when its acceleration is below EPSILON (negative included), before the acceleration is added; z is never dragged |
| Integrator.CoastingSlows | src/physics/systems.rs:38-53 | with no input and non-negative drag and maximum, no velocity component grows |
| Integrator.AccelerateVelocity | src/physics/systems.rs:40-50 | the drag-then-accelerate statements compute Accelerated |
| Integrator.ClampVelocity | src/physics/systems.rs:51-53 | the clamp statement computes ClampSpeed |
| Integrator.AdvanceBody | src/physics/systems.rs:38-60 | the loop body computes Advanced |
| Integrator.AdvancePhysics | src/physics/systems.rs:10-62 | every body is advanced in place exactly as Advanced specifies |
| Integrator.Rendered | src/physics/systems.rs:75-80 | the lerp gives the previous translation at alpha 0 and the current one at alpha 1 |
| Integrator.InterpolateRenderedTransform | src/physics/systems.rs:64-83 | only the rendered translation changes, to the lerp of previous and current |
| Steering.Players | src/behavior/systems.rs:23 | the player query holds exactly the bodies tagged Player |
| Steering.PlayerPositionSpec | src/behavior/systems.rs:23-27 | no player or two players give no position; exactly one player gives its position |
| Steering.OnePlayer | src/behavior/systems.rs:23 | with exactly one Player-tagged body the query holds just that body |
| Steering.TwoPlayersCounted | src/behavior/systems.rs:23-27 | two Player-tagged bodies make the query hold at least two |
| Steering.AllyPositions | src/behavior/systems.rs:30-36 | every ally with a circle collider is collected with its radius, and nothing else is |
| Steering.SeekSpec | src/behavior/systems.rs:43-50 | Seek contributes nothing at or beyond the distance; strictly inside it, a unit vector towards the player |
| Steering.FleeSpec | src/behavior/systems.rs:52-58 | Flee contributes nothing at or beyond the distance; strictly inside it, a unit vector away from the player |
| Steering.WanderAngleBound | src/behavior/systems.rs:61-62 | the random turn lies in [-base_variation dt, base_variation dt] |
| Steering.TurnedSpec | src/behavior/systems.rs:60-63 | the turn keeps the direction's length and the other fields; with base_variation 0 nothing changes |
| Steering.RangeSpec | src/behavior/systems.rs:68-80 | MaintainRange does nothing in the closed band [desired - 5, desired + 5]; beyond it, it adds a unit vector towards the player; short of it, a unit vector away |
| Steering.PushStrengthBounds | src/behavior/systems.rs:93 | for a clearance strictly between 0 and r the push strength lies strictly between 0 and 1 |
| Steering.PushSpec | src/behavior/systems.rs:88-95 | an ally pushes only when the clearance is strictly between 0 and r, and then away from the ally |
| Steering.NoSelfPush | src/behavior/systems.rs:88-95 | an ally at the entity's own position contributes nothing |
| Steering.AvoidFromIgnores | src/behavior/systems.rs:88-96 | allies that each push nothing leave the steering unchanged |
| Steering.AvoidIgnoresSelf | src/behavior/systems.rs:82-97 | allies at the entity's own position leave the steering unchanged |
| Steering.SteeredSpec | src/behavior/systems.rs:38-100 | the input is overwritten, not added to; a player is never steered; only the input and the wander state change |
| Steering.NoBehavioursNoInput | src/behavior/systems.rs:38-99 | a non-player with no behaviour components gets zero input |
| Steering.SteerPrefixAt | src/behavior/systems.rs:38-100 | each body of the loop is steered with its own draw, independently of the others |
| Steering.SteeredAllSpec | src/behavior/systems.rs:23-100 | without a single player nothing changes; players are never changed; otherwise every body is steered towards that player's position with the collected allies |
| Steering.SeekStep | src/behavior/systems.rs:43-50 | the Seek statements add SeekForce to the steering |
| Steering.FleeStep | src/behavior/systems.rs:52-58 | the Flee statements add FleeForce |
| Steering.WanderStep | src/behavior/systems.rs:60-66 | the Wander statements turn the direction and add its contribution |
| Steering.RangeStep | src/behavior/systems.rs:68-80 | the MaintainRange statements add RangeForce |
| Steering.PushStep | src/behavior/systems.rs:89-95 | one ally's statements add its push |
| Steering.AvoidStep | src/behavior/systems.rs:82-97 | the ally loop adds every ally's push in order |
| Steering.SteerBody | src/behavior/systems.rs:39-99 | the loop body computes Steered for a non-player |
| Steering.SteerEach | src/behavior/systems.rs:38-100 | the loop leaves every body as its specified target |
| Steering.EnemySteeringSystem | src/behavior/systems.rs:5-101 | the array becomes SteeredAll of its old contents |
| Attributes.DamagedSpec | src/attributes/components.rs:17-19 | damage never leaves a negative value; it takes off exactly amt when that stays non-negative, else leaves 0 |
| Attributes.DamageKills | src/attributes/components.rs:14-19 | after damage the entity is dead iff the amount reached its current value |
| Attributes.HealedSpec | src/attributes/components.rs:20-22 | healing never exceeds max; it adds exactly amt when that fits, else fills to max |
| Attributes.AmountsKeepRange | src/attributes/components.rs:17-22 | a non-negative amount of damage or healing keeps 0 <= current <= max |
| Attributes.NewValid | src/attributes/components.rs:11-13 | a new component satisfies the range invariant iff its maximum is non-negative |
| Attributes.Health.constructor | src/attributes/components.rs:11-13 | a new component starts at full health |
| Attributes.Health.Damage | src/attributes/components.rs:17-19 | only current changes, to max(current - amt, 0); it is never negative afterwards; a non-negative amount keeps the invariant |
| Attributes.Health.Heal | src/attributes/components.rs:20-22 | only current changes, to min(current + amt, max); it never exceeds max afterwards; a non-negative amount keeps the invariant |
| Combat.CollisionDamageSpec | src/combat/systems.rs:32-34 | damage is never negative, is 0 for a non-positive normal speed, is proportional to the normal speed otherwise, and is at most the base damage up to max_speed |
| Combat.DamageForSpec | src/combat/systems.rs:13-43 | a Stopped event does no damage; a Started event does damage iff one side is a player and the other an enemy, in either order; the victim is the enemy side and the amount comes from the player side's normal speed |
| Combat.DamageEvents | src/combat/systems.rs:13-44 | at most one damage event per collision event; every victim is an enemy and every amount non-negative |
| Combat.OnlyStoppedNoDamage | src/combat/systems.rs:14-21 | Stopped events alone produce no damage |
| Combat.NoPlayerNoDamage | src/combat/systems.rs:24-30 | events without a player side produce no damage |
| Combat.CollisionToDamage | src/combat/systems.rs:4-45 | the loop writes exactly DamageEvents, in order |
| Combat.AfterDamage | src/combat/systems.rs:52-59 | applying damage events keeps the set of entities with Health |
| Combat.Despawned | src/combat/systems.rs:55-58 | only entities with Health are despawned |
| Combat.UnhitUnchanged | src/combat/systems.rs:52-59 | an entity no event hits keeps its health |
| Combat.DamageOnlyLowers | src/combat/systems.rs:52-59 | non-negative damage never raises a health above max(its value, 0) |
| Combat.DespawnedIffDead | src/combat/systems.rs:52-59 | an entity is despawned iff some event hit it and it is dead after all events |
| Combat.ApplyDamage | src/combat/systems.rs:47-61 | every Health's current becomes what AfterDamage gives, maxima are kept, and the despawn commands are exactly Despawned |
| LegacyCollision.MassOf | src/systems/collision.rs:93-95 | a missing Mass counts as 1.0 |
| LegacyCollision.ReflectSpec | src/systems/collision.rs:46-48 | for a unit normal the reflection negates the normal speed, keeps the tangential one and the speed, and undoes itself |
| LegacyCollision.WallContact | src/systems/collision.rs:17-52 | a contact is reported iff the wall is a rectangle and the squared distance to the clamped point is at most r squared; the normal is a unit vector and the penetration lies in [0, r] |
| LegacyCollision.WallResponse | src/systems/collision.rs:45-57 | the velocity is always reflected, keeping its speed and negating its normal speed; the position moves by normal times penetration only when the penetration is positive; heights are kept |
| LegacyCollision.AgainstWalls | src/systems/collision.rs:16-62 | the wall loop keeps the height of position and velocity |
| LegacyCollision.WallEvents | src/systems/collision.rs:59 | at most one event per wall |
| LegacyCollision.MoverVsWalls | src/systems/collision.rs:11-64 | only position and velocity change; a non-circle mover is untouched and writes nothing |
| LegacyCollision.WallsKeepSpeed | src/systems/collision.rs:45-50 | the wall loop never changes the speed |
| LegacyCollision.NoContactNoChange | src/systems/collision.rs:30-60 | without contacts the mover is unchanged and no event is written |
| LegacyCollision.WallEventsSpec | src/systems/collision.rs:30-59 | an event (mover, wall) is written iff that wall is in contact, and no other event is written |
| LegacyCollision.FirstWallTouches | src/systems/collision.rs:52-57 | a circle pushed out of one wall touches the rectangle point nearest to it |
| LegacyCollision.BounceOffWall | src/systems/collision.rs:17-60 | the inner loop body computes WallStep and reports whether the wall was hit |
| LegacyCollision.MoverAgainstWalls | src/systems/collision.rs:13-63 | the wall loop computes MoverVsWalls |
| LegacyCollision.CircleWallCollisionSystem | src/systems/collision.rs:5-65 | every mover is updated in place as MoverVsWalls specifies, and the events are all movers' events in order |
| LegacyCollision.ElasticMomentum | src/systems/collision.rs:101-103 | the elastic update keeps m1 v1 + m2 v2 |
| LegacyCollision.ElasticAlongNormal | src/systems/collision.rs:101-103 | for a unit normal the update keeps the kinetic energy and the tangential speeds, and reverses the relative normal speed |
| LegacyCollision.PairStep | src/systems/collision.rs:73-122 | a pair step changes only the two bodies of the pair, and only their positions and velocities |
| LegacyCollision.PairStepSpec | src/systems/collision.rs:73-122 | a contact happens iff both are circles strictly closer than r1 + r2; then the event names the pair, the planar velocities take the elastic update, heights are kept, and positions separate by half the penetration split by the masses |
| LegacyCollision.PairStepHalvesOverlap | src/systems/collision.rs:111-118 | after a pair step the centres lie r1 + r2 minus half the penetration apart |
| LegacyCollision.PairStepConserves | src/systems/collision.rs:101-109 | a pair step keeps the pair's momentum on both axes and its kinetic energy |
| LegacyCollision.CirclePass | src/systems/collision.rs:72-123 | the pass keeps the number of bodies and writes at most one event per pair |
| LegacyCollision.CirclePassConserves | src/systems/collision.rs:68-124 | the pass over all pairs keeps the total momentum and the total kinetic energy |
| LegacyCollision.CirclePassEvents | src/systems/collision.rs:121 | every event names a pair the pass took |
| LegacyCollision.CirclePassKeepsIds | src/systems/collision.rs:68-124 | the pass keeps every body's entity |
| LegacyCollision.CircleCircleCollisionSystem | src/systems/collision.rs:68-124 | the array and the events become what the pass over all pairs in order leaves |
| LegacyPhysics.Coasting | src/phy_engine.rs:171-177 | with zero acceleration, a speed at most the deceleration stops; a larger one keeps the direction and drops by exactly the deceleration |
| LegacyPhysics.Accelerating | src/phy_engine.rs:178-183 | with an acceleration, v + a is kept within the maximum and otherwise scaled along itself to exactly the maximum |
| LegacyPhysics.SpeedCapKept | src/phy_engine.rs:171-183 | a velocity within the maximum stays within it |
| LegacyPhysics.InterpolatedSpec | src/phy_engine.rs:204-210 | the transform is prev + alpha (pos - prev): prev at 0 and pos at 1; nothing else changes |
| LegacyPhysics.AdvanceThenInterpolate | src/phy_engine.rs:185-189 | after a step, interpolating at alpha renders alpha dt along the new velocity from the old position; the input counter and acceleration are untouched |
| LegacyPhysics.AdvanceOne | src/phy_engine.rs:171-189 | the loop body computes Advanced and keeps the speed cap |
| LegacyPhysics.AdvancePhysics | src/systems/physics.rs:9-52 | every entity is advanced in place; the speed cap holds afterwards if it held before |
| LegacyPhysics.EngineAdvancePhysics | src/phy_engine.rs:147-191 | the same with MAX_SPEED 210 and DEFAULT_DECELERATION 10 |
| LegacyPhysics.InterpolateRenderedTransform | src/phy_engine.rs:193-212 | every rendered transform is interpolated at alpha |

## Left out

- Numbers are `real`, so f32 rounding, NaN and infinity are not modelled.
  - `sqrt`, `cos` and `sin` satisfy only the laws in `Vectors.Math.Lawful`.
  - `normalize` of a zero vector is NaN in the source. The model's
    `Vectors.Math.Normalize` and `NormalizeOrZero3` give zero instead. This
    matters in Steering when an enemy sits exactly on the player: Seek,
    Flee and MaintainRange (closer than the desired range) then add zero
    where the source adds NaN. It also matters for a negative deceleration
    in `LegacyPhysics.NextVelocity`.
  - `signum(0.0)` is 1 in both the source and the model; `-0.0` is not modelled.
- Bevy scheduling, plugins, system ordering, `Res<Time>` and the overstep
  fraction are not modelled; `dt` and `alpha` are parameters.
- Queries, `Commands` and `EventWriter`/`EventReader` are replaced:
  - queries by arrays, sequences, sets and maps of records;
  - despawn commands by the sequence of despawned handles;
  - events by the sequences a system writes and reads.
- The iteration order of the contact `HashMap` is unspecified. The contracts
  fix only what every order shares.
- `RESTITUTION` and `BASE_COLLISION_DAMAGE` are defined in constants files that
  are not part of this model, so they are parameters (`e`, `baseDamage`).
- The legacy `DEFAULT_DECELERATION` and `MAX_SPEED` of `src/systems/physics.rs`
  are parameters, as described above.
- `println!` diagnostics, keyboard input, spawning, meshes, materials and UI are
  not modelled.
- `fastrand` is a parameter: `draws(i)` is the uniform sample for the body at index `i`.
- Positive radii and masses, and non-negative half extents, are enforced by the
  component types. The source does not check them; the legacy `Mass` could hold any f32.
- `src/physics/collision/resources.rs:11-14` declares `ContactData` with only
  `impulse`, but the systems read `v_a_n` and `v_b_n`. The model uses the
  three-field record the systems use.
- The input counter of the legacy `AccumulatedInput` is an unbounded `int`, not an `i32`.
- The effect of a despawn command (removal of the entity when commands are applied)
  is not modelled. The model returns the commands. As in the source, later events of
  the same pass still find the victim's component, so a victim can be commanded to
  despawn more than once.
- Combat.ApplyDamage: requires that the `Health` map holds a different component
  object for every entity, as an ECS query does; aliasing between entities is not modelled.
- Combat.CollisionDamageSpec: assumes a positive `max_speed` and a non-negative base
  damage; `CollisionDamage` itself requires only `max_speed != 0`, since the source divides by it.
- LegacyPhysics.SpeedCapKept: assumes a non-negative deceleration and maximum speed;
  the source's constants satisfy both.
- Integrator.CoastingSlows: assumes non-negative drag and maximum speed, as configured.
- Collision.BounceSpeed: assumes restitution in [0, 1]; the other restitution
  properties hold for any restitution.
