/** Time as the sketch sees it: a free-running unsigned 32-bit millisecond
    counter (`unsigned long` on the target), read through `millis()`. */
module Timing {

  const CounterModulus: int := 0x1_0000_0000

  /** One reading of the 32-bit counter. */
  newtype Uint32 = x: int | 0 <= x < 0x1_0000_0000

  /** How long the initiator waits for a reply, in milliseconds. */
  const ReplyWindow: Uint32 := 500

  /** The time from `since` to `now` as the unsigned subtraction of two
      counter readings computes it: the amount by which the wrapping counter
      advanced from `since` to reach `now`, so also across a wrap-around. */
  function Elapsed(now: Uint32, since: Uint32): (d: Uint32)
    ensures since as int + d as int == now as int
         || since as int + d as int == now as int + CounterModulus
  {
    if now >= since then now - since else (CounterModulus + now as int - since as int) as Uint32
  }

  /** Whether the reading `now` lies strictly past the reply window opened
      at `since`. */
  predicate Expired(now: Uint32, since: Uint32) {
    Elapsed(now, since) > ReplyWindow
  }

  /** A counter that wraps between the start of the wait and a reading
      600 ms later still expires the window, although that reading is the
      smaller number. */
  lemma ExpiredAcrossWrap(since: Uint32, now: Uint32)
    requires since >= 0xFFFF_FF9C
    requires now as int == (since as int + 600) % CounterModulus
    ensures now < since && Expired(now, since)
  {
  }

  /** The index of the first of `readings`, from `from` on, that lies past
      the reply window opened by the reading at `start`: every reading
      before it is still inside the window. */
  function FirstLate(readings: seq<Uint32>, start: nat, from: nat): (k: nat)
    requires start < from <= |readings|
    requires exists k :: from <= k < |readings| && Expired(readings[k], readings[start])
    ensures from <= k < |readings| && Expired(readings[k], readings[start])
    ensures forall j :: from <= j < k ==> !Expired(readings[j], readings[start])
    decreases |readings| - from
  {
    if Expired(readings[from], readings[start]) then from
    else FirstLate(readings, start, from + 1)
  }

  /** The supplied sequence of `millis()` readings; each call consumes the
      next one. */
  class Clock {
    const readings: seq<Uint32>
    var pos: nat

    ghost predicate Valid()
      reads this
    {
      pos <= |readings|
    }

    constructor (readings: seq<Uint32>)
      ensures Valid() && this.readings == readings && pos == 0
    {
      this.readings := readings;
      pos := 0;
    }

    /** Some reading after the next one lies past the reply window opened by
        the next one: time goes on. */
    ghost predicate WindowCloses()
      reads this
    {
      exists k :: pos < k < |readings| && Expired(readings[k], readings[pos])
    }

    method Millis() returns (now: Uint32)
      requires Valid() && pos < |readings|
      modifies this
      ensures Valid() && pos == old(pos) + 1
      ensures now == readings[old(pos)]
    {
      now := readings[pos];
      pos := pos + 1;
    }
  }
}
