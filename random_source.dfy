/**
 * The game's source of randomness, `random.randint`, as a caller-supplied
 * stream of draws: any sequence of results in range can be produced by some
 * stream, so everything proved for every stream holds for every run.
 */
module RandomSource {

  class Random {
    /** The raw draws, one per call. */
    const source: nat -> nat
    /** How many draws have been consumed. */
    var drawn: nat

    constructor (source: nat -> nat)
      ensures this.source == source && drawn == 0
    {
      this.source := source;
      drawn := 0;
    }

    /** `random.randint(lo, hi)`: a value in [lo, hi], both ends included. */
    method RandInt(lo: int, hi: int) returns (r: int)
      requires lo <= hi
      modifies this
      ensures lo <= r <= hi
      ensures r == lo + source(old(drawn)) % (hi - lo + 1)
      ensures drawn == old(drawn) + 1
    {
      r := lo + source(drawn) % (hi - lo + 1);
      drawn := drawn + 1;
    }
  }
}
