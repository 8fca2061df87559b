/** Bit-flag helpers over a C# `int`, modelled as a 32-bit vector (two's
    complement bitwise operators act on the bit pattern alone).

    `AddFlag` and `RemoveFlag` update a `ref int`; here they return the new
    value. Each is specified by the set of bits it changes (`old ^ new`), and
    the lemmas below derive what that means for a caller. */
module Flags {

  /** `(hash & value) == value`: bitwise inclusion, that is, no bit of
      `value` lies outside `hash`. */
  predicate IsHasFlag(hash: bv32, value: bv32): (r: bool)
    ensures r <==> value & !hash == 0
  {
    hash & value == value
  }

  /** The empty flag set is contained in every hash. */
  lemma IsHasFlagOfNone(hash: bv32)
    ensures IsHasFlag(hash, 0)
  {
  }

  /** `hash |= value`: the bits that change are exactly the bits of `value`
      that were clear. */
  method AddFlag(hash: bv32, value: bv32) returns (hash': bv32)
    ensures hash' ^ hash == value & !hash
  {
    hash' := hash | value;
  }

  /** After `AddFlag`, every bit of `value` is set. */
  lemma AddFlagSetsFlag(hash: bv32, value: bv32, hash': bv32)
    requires hash' ^ hash == value & !hash
    ensures IsHasFlag(hash', value)
  {
  }

  /** `AddFlag` leaves every bit outside `value` as it was. */
  lemma AddFlagKeepsOtherBits(hash: bv32, value: bv32, hash': bv32)
    requires hash' ^ hash == value & !hash
    ensures hash' & !value == hash & !value
  {
  }

  /** `AddFlag` of flags already present changes nothing, so adding the same
      flags a second time is a no-op. */
  lemma AddFlagIdempotent(hash: bv32, value: bv32, hash': bv32)
    requires hash' ^ hash == value & !hash
    requires IsHasFlag(hash, value)
    ensures hash' == hash
  {
  }

  /** `hash ^= value`: the bits that change are exactly the bits of `value`,
      whatever their previous state. */
  method RemoveFlag(hash: bv32, value: bv32) returns (hash': bv32)
    ensures hash' ^ hash == value
  {
    hash' := hash ^ value;
  }

  /** `RemoveFlag` clears `value` when all of its bits were set ... */
  lemma RemoveFlagClearsPresentFlag(hash: bv32, value: bv32, hash': bv32)
    requires hash' ^ hash == value
    requires IsHasFlag(hash, value)
    ensures hash' & value == 0
  {
  }

  /** ... but SETS it when none of its bits were set: it is a toggle, not a
      "clear bits" operation. */
  lemma RemoveFlagSetsAbsentFlag(hash: bv32, value: bv32, hash': bv32)
    requires hash' ^ hash == value
    requires hash & value == 0
    ensures IsHasFlag(hash', value)
  {
  }

  /** `RemoveFlag` leaves every bit outside `value` as it was. */
  lemma RemoveFlagKeepsOtherBits(hash: bv32, value: bv32, hash': bv32)
    requires hash' ^ hash == value
    ensures hash' & !value == hash & !value
  {
  }

  /** Two `RemoveFlag`s with the same `value` restore the original hash. */
  lemma RemoveFlagTwiceRestores(hash: bv32, value: bv32, hash': bv32, hash'': bv32)
    requires hash' ^ hash == value
    requires hash'' ^ hash' == value
    ensures hash'' == hash
  {
  }
}
