/**
 * Hit points of a combatant: `u16` current, maximum and temporary points;
 * damage is absorbed by temporary points first, healing is capped at the
 * maximum.
 */
module Attributes {
  import opened Prelude

  /** Rust's `u16`. */
  newtype u16 = x: int | 0 <= x < 0x1_0000

  function Min(a: int, b: int): int { if a <= b then a else b }

  function Max(a: int, b: int): int { if a >= b then a else b }

  /** `a.saturating_sub(b)`. */
  function SaturatingSub(a: u16, b: u16): u16
  {
    if a >= b then a - b else 0
  }

  /** `a.checked_sub(b)`. */
  function CheckedSub(a: u16, b: u16): Option<u16>
  {
    if a >= b then Some(a - b) else None
  }

  /** The new current and temporary points after a hit, and whether the combatant is down. */
  datatype Hit = Hit(current: u16, temporary: u16, down: bool)

  /**
   * `Hp::damage` on the values: temporary points absorb as much of the hit as
   * they can, the remainder comes off the current points (stopping at 0), and
   * the result tells whether the current points are 0 afterwards.
   */
  function Damaged(current: u16, temporary: u16, amount: u16): (r: Hit)
    ensures r.temporary as int == temporary as int - Min(amount as int, temporary as int)
    ensures r.current as int == Max(0, current as int - (amount as int - Min(amount as int, temporary as int)))
    ensures r.down <==> r.current == 0
    ensures r.current <= current && r.temporary <= temporary
    ensures (current as int + temporary as int) - (r.current as int + r.temporary as int)
      == Min(amount as int, current as int + temporary as int)
  {
    var remainder := SaturatingSub(amount, temporary);
    var newTemporary := temporary - (amount - remainder);
    match CheckedSub(current, remainder)
    case Some(c) => Hit(c, newTemporary, c == 0)
    case None => Hit(0, newTemporary, true)
  }

  /**
   * `Hp::heal` on the values as written: `current + amount` is a `u16`
   * addition, which a release build wraps modulo 2^16 before the `min`.
   */
  function HealAsWritten(current: u16, max: u16, amount: u16): u16
  {
    var sum := ((current as int + amount as int) % 0x1_0000) as u16;
    if max <= sum then max else sum
  }

  /** A release build heals 10 points by 65530 down to 4. */
  lemma HealWrapLowersCurrent()
    ensures HealAsWritten(10, 100, 65530) == 4
  {
  }

  /** A debug build panics on that addition instead. */
  function HealDebug(current: u16, max: u16, amount: u16): (r: Result<u16>)
  {
    if current as int + amount as int >= 0x1_0000 then Panicked(Overflow)
    else Ok(Min(max as int, current as int + amount as int) as u16)
  }

  /** The debug build panics exactly when the sum leaves the `u16` range, even when the capped result fits. */
  lemma HealDebugPanicsOnOverflow(current: u16, max: u16, amount: u16)
    ensures HealDebug(current, max, amount).Panicked? <==> current as int + amount as int > 0xFFFF
    ensures HealDebug(100, 100, 65500).Panicked?
  {
  }

  /**
   * `Hp::heal` as intended: `current` becomes `min(max, current + amount)`,
   * the sum taken without overflow.
   */
  function Healed(current: u16, max: u16, amount: u16): (r: u16)
    ensures r as int == Min(max as int, current as int + amount as int)
    ensures r <= max
    ensures current <= max ==> current <= r
    ensures current as int + amount as int <= 0xFFFF ==> HealDebug(current, max, amount) == Ok(r) && HealAsWritten(current, max, amount) == r
  {
    if max as int <= current as int + amount as int then max else current + amount
  }

  /** Healing a combatant above its maximum lowers it to the maximum. */
  lemma HealAboveMaximum(current: u16, max: u16, amount: u16)
    requires current > max
    ensures Healed(current, max, amount) == max < current
  {
  }

  /** The hit points of a combatant. */
  class Hp {
    var current: u16
    var max: u16
    var temporary: u16

    constructor (current: u16, max: u16, temporary: u16)
      ensures this.current == current && this.max == max && this.temporary == temporary
    {
      this.current := current;
      this.max := max;
      this.temporary := temporary;
    }

    /** `Hp::damage`: drains temporary points, then current points; true when the combatant is down. */
    method Damage(amount: u16) returns (down: bool)
      modifies this
      ensures Hit(current, temporary, down) == Damaged(old(current), old(temporary), amount)
      ensures max == old(max)
    {
      var remainder := SaturatingSub(amount, temporary);
      temporary := temporary - (amount - remainder);
      var checked := CheckedSub(current, remainder);
      if checked.Some? {
        current := checked.value;
        down := current == 0;
      } else {
        current := 0;
        down := true;
      }
    }

    /** `Hp::heal`: current points up to the maximum. */
    method Heal(amount: u16)
      modifies this
      ensures current == Healed(old(current), max, amount)
      ensures max == old(max) && temporary == old(temporary)
    {
      current := if max as int <= current as int + amount as int then max else current + amount;
    }

    /** `Hp::set_temporary`: replaces the temporary points only. */
    method SetTemporary(amount: u16)
      modifies this
      ensures temporary == amount && current == old(current) && max == old(max)
    {
      temporary := amount;
    }
  }
}
