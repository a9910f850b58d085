/**
  The game's components and resources, as plain values.  An entity that the
  simulation moves is one `Body` record holding every component a spawned
  character carries (translation, previous translation, rendered translation,
  velocity, acceleration, accumulated input, collider, mass, behaviours and the
  Player / Enemy / Ally tags); a static wall is a `Wall` record.  Each system
  works over an array of bodies standing for the entities its query matches.
*/
module Components {
  import opened Vectors
  import opened Wrappers

  /** An entity handle: a slot index and the slot's generation. */
  datatype Entity = Entity(index: nat, generation: nat)

  /** A strictly positive quantity: a circle's radius, a body's mass. */
  type Positive = r: real | 0.0 < r witness 1.0

  /** The half extents of a rectangle, never negative. */
  type Extent = v: Vec2 | 0.0 <= v.x && 0.0 <= v.y witness Vec2(0.0, 0.0)

  /** The collider of an entity. */
  datatype ColliderShape = Circle(radius: Positive) | Rect(halfExtents: Extent) | NoShape

  /** Wandering state: a heading that drifts by a random angle every tick. */
  datatype Wander = Wander(direction: Vec2, currentVariation: real, baseVariation: real)

  /**
    The optional steering components.  `seek`, `flee` and `maintainRange` carry
    their `distance`, `avoidAllies` its `radius`.
  */
  datatype Behaviours = Behaviours(
    seek: Option<real>,
    flee: Option<real>,
    wander: Option<Wander>,
    maintainRange: Option<real>,
    avoidAllies: Option<real>)

  /** Marker components. */
  datatype Tags = Tags(player: bool, enemy: bool, ally: bool)

  datatype Body = Body(
    id: Entity,
    pos: Vec3,          // PhysicalTranslation
    prev: Vec3,         // PreviousPhysicalTranslation
    transform: Vec3,    // Transform::translation, the rendered position
    vel: Vec3,          // Velocity
    accel: Vec3,        // Acceleration
    input: Vec2,        // AccumulatedInput
    collider: ColliderShape,
    mass: Positive,     // Mass
    behaviours: Behaviours,
    tags: Tags)

  /** A static entity: a collider and a transform, but no velocity. */
  datatype Wall = Wall(id: Entity, center: Vec3, collider: ColliderShape)

  /** The tunables of the integrator. */
  datatype PhysicsConfig = PhysicsConfig(maxSpeed: real, acceleration: real, drag: real) {
    function MaxSpeedSq(): real { maxSpeed * maxSpeed }
  }
}
