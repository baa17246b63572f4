/**
 * Unity's global `Random`, replaced by an explicitly passed source: an
 * arbitrary infinite stream of draws and a cursor into it. Every draw the
 * maze generator makes is therefore a function of the stream, and every
 * property proved about the generator holds for every stream.
 */
module Randomness {

  class Random {
    /** The injected stream; any function is a legal source of randomness. */
    const draws: nat -> nat
    /** How many draws have been consumed. */
    var cursor: nat

    constructor (draws: nat -> nat)
      ensures this.draws == draws && cursor == 0
    {
      this.draws := draws;
      cursor := 0;
    }

    /** Random.Range(min, max) on ints: a value in [min, max). */
    method Range(min: int, max: int) returns (r: int)
      requires min < max
      modifies this
      ensures min <= r < max
      ensures r == min + draws(old(cursor)) % (max - min)
      ensures cursor == old(cursor) + 1
    {
      r := min + draws(cursor) % (max - min);
      cursor := cursor + 1;
    }

    /** Random.value in [0, 1], in thousandths: a value in [0, 1000]. */
    method Value() returns (v: int)
      modifies this
      ensures 0 <= v <= 1000
      ensures v == draws(old(cursor)) % 1001
      ensures cursor == old(cursor) + 1
    {
      v := draws(cursor) % 1001;
      cursor := cursor + 1;
    }
  }
}
