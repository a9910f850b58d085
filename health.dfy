/**
  The `Health` component of src/attributes/components.rs: a current and a
  maximum value, with damage clamped at zero and healing clamped at the
  maximum.  The arithmetic is stated once as functions on values; the class
  methods update `current` in place and are proved against them.
*/
module Attributes {
  import opened Vectors

  /** The value `damage(amt)` leaves: `max(current - amt, 0)`. */
  function Damaged(current: real, amt: real): real {
    Max(current - amt, 0.0)
  }

  /** The value `heal(amt)` leaves: `min(current + amt, max)`. */
  function Healed(current: real, max: real, amt: real): real {
    Min(current + amt, max)
  }

  /** `is_dead` on a value. */
  predicate Dead(current: real) {
    current <= 0.0
  }

  /**
    Damage never leaves a negative value; it takes off exactly `amt` when
    that stays above zero, and otherwise leaves exactly zero.
  */
  lemma DamagedSpec(current: real, amt: real)
    ensures 0.0 <= Damaged(current, amt)
    ensures amt <= current ==> Damaged(current, amt) == current - amt
    ensures current <= amt ==> Damaged(current, amt) == 0.0
    ensures 0.0 <= amt ==> Damaged(current, amt) <= Max(current, 0.0)
  {}

  /** After damage the entity is dead exactly when the amount reached its current value. */
  lemma DamageKills(current: real, amt: real)
    ensures Dead(Damaged(current, amt)) <==> current <= amt
  {}

  /**
    Healing never goes above the maximum; it adds exactly `amt` when that
    stays within the maximum, and otherwise fills up to it.
  */
  lemma HealedSpec(current: real, max: real, amt: real)
    ensures Healed(current, max, amt) <= max
    ensures current + amt <= max ==> Healed(current, max, amt) == current + amt
    ensures max <= current + amt ==> Healed(current, max, amt) == max
  {}

  /** The health invariant `0 <= current <= max`. */
  predicate InRange(current: real, max: real) {
    0.0 <= current <= max
  }

  /** A non-negative amount of damage or healing keeps the health invariant. */
  lemma AmountsKeepRange(current: real, max: real, amt: real)
    requires InRange(current, max) && 0.0 <= amt
    ensures InRange(Damaged(current, amt), max)
    ensures InRange(Healed(current, max, amt), max)
  {}

  class Health {
    var current: real
    var max: real

    /** `Health::new(max)`: a fresh component at full health. */
    constructor (max: real)
      ensures current == max && this.max == max
    {
      current := max;
      this.max := max;
    }

    /** `is_dead`: the current value has reached zero or below. */
    predicate IsDead()
      reads this
    {
      Dead(current)
    }

    /** The health invariant of this component. */
    predicate Valid()
      reads this
    {
      InRange(current, max)
    }

    /** `damage(amt)`: only `current` changes, to `max(current - amt, 0)`. */
    method Damage(amt: real)
      modifies this
      ensures current == Damaged(old(current), amt) && max == old(max)
      ensures 0.0 <= current
      ensures old(Valid()) && 0.0 <= amt ==> Valid()
    {
      current := Max(current - amt, 0.0);
    }

    /** `heal(amt)`: only `current` changes, to `min(current + amt, max)`. */
    method Heal(amt: real)
      modifies this
      ensures current == Healed(old(current), old(max), amt) && max == old(max)
      ensures current <= max
      ensures old(Valid()) && 0.0 <= amt ==> Valid()
    {
      current := Min(current + amt, max);
    }
  }

  /** A freshly created component is valid exactly when its maximum is not negative. */
  lemma NewValid(max: real)
    ensures InRange(max, max) <==> 0.0 <= max
  {}
}
