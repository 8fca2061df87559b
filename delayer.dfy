/** A countdown timer driven by per-frame updates. Times are `real` (the
    source uses `float`, whose rounding is not modelled); the `DelayEndEvent`
    is modelled by `endEvents`, the number of times it has fired. */
module Delaying {

  class Delayer {
    /** `_delay`: the total length of the current countdown. */
    var delay: real
    /** `_delayTime`: the time still to run. */
    var delayTime: real
    /** How many times `DelayEndEvent` has been raised. */
    var endEvents: nat

    constructor ()
      ensures delay == 0.0 && delayTime == 0.0 && endEvents == 0
    {
      delay, delayTime, endEvents := 0.0, 0.0, 0;
    }

    /** `Value`: the time still to run, which is the part of the total
        that `Normalized` has not yet counted as elapsed. */
    function Value(): (v: real)
      reads this
      ensures delay != 0.0 ==> v == delay * (1.0 - Normalized())
    {
      delayTime
    }

    /** `Normalized`: the elapsed fraction `1 - remaining / total`, or 0 when
        the total is 0. It is 0 at the start of a countdown, 1 at its end, and
        within [0, 1] while the remaining time lies between 0 and the total. */
    function Normalized(): (n: real)
      reads this
      ensures delay == 0.0 ==> n == 0.0
      ensures delay != 0.0 ==> n * delay == delay - delayTime
      ensures delay != 0.0 && delayTime == delay ==> n == 0.0
      ensures delay != 0.0 && delayTime == 0.0 ==> n == 1.0
      ensures 0.0 <= delayTime <= delay && delay != 0.0 ==> 0.0 <= n <= 1.0
    {
      1.0 - (if delay != 0.0 then delayTime / delay else 1.0)
    }

    /** Extends the countdown: total and remaining grow by the same amount;
        nothing fires, even if the remaining time drops to zero or below. */
    method AddDelay(d: real)
      modifies this
      ensures delay == old(delay) + d && delayTime == old(delayTime) + d
      ensures endEvents == old(endEvents)
    {
      delay := delay + d;
      delayTime := delayTime + d;
    }

    /** Starts a countdown of length `d`; a non-positive length ends at once
        and fires the event exactly once. */
    method SetDelay(d: real)
      modifies this
      ensures delay == d && delayTime == d
      ensures endEvents == old(endEvents) + (if d <= 0.0 then 1 else 0)
    {
      delay := d;
      delayTime := d;
      if d <= 0.0 {
        endEvents := endEvents + 1;
      }
    }

    /** Clears the countdown without firing. */
    method Reset()
      modifies this
      ensures delay == 0.0 && delayTime == 0.0 && endEvents == old(endEvents)
    {
      delay := 0.0;
      delayTime := 0.0;
    }

    /** Advances the countdown by `deltaTime`. A finished countdown (remaining
        <= 0) is left alone. A running one is decreased; if that finishes it,
        the remaining time is clamped to exactly 0 and the event fires once. */
    method Update(deltaTime: real)
      modifies this
      ensures delay == old(delay)
      ensures old(delayTime) <= 0.0 ==> delayTime == old(delayTime) && endEvents == old(endEvents)
      ensures old(delayTime) > 0.0 && old(delayTime) - deltaTime <= 0.0 ==>
                delayTime == 0.0 && endEvents == old(endEvents) + 1
      ensures old(delayTime) > 0.0 && old(delayTime) - deltaTime > 0.0 ==>
                delayTime == old(delayTime) - deltaTime && endEvents == old(endEvents)
    {
      if delayTime <= 0.0 {
        return;
      }
      delayTime := delayTime - deltaTime;
      if delayTime <= 0.0 {
        delayTime := 0.0;
        endEvents := endEvents + 1;
      }
    }
  }

  /** A positive countdown fires exactly once: the update that exhausts it
      fires, and every later update is a no-op. */
  method CountdownFiresOnce(d: real, first: real, later: real) returns (fired: nat)
    requires d > 0.0 && first >= d
    ensures fired == 1
  {
    var t := new Delayer();
    t.SetDelay(d);
    t.Update(first);
    assert t.Normalized() == 1.0;
    t.Update(later);
    fired := t.endEvents;
  }
}
