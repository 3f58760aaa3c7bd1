/** The throughput floor of one rate window. */
module RateFloor {
  import opened Common

  /** 128-bit saturating steps, then a clamp to 64 bits, as the original
      computes it. */
  function MinimumBytesForWindow(bytesPerSecond: nat, windowNanos: nat): nat
  {
    var numerator := Min(bytesPerSecond * windowNanos, U128_MAX);
    var roundedUp := Min(numerator + (NANOS_PER_SECOND - 1), U128_MAX) / NANOS_PER_SECOND;
    Min(roundedUp, U64_MAX)
  }

  /** Main result: for every rate and window the threshold is the exact
      rounded-up product, clamped once, despite both saturations. */
  lemma FloorIsExact(bytesPerSecond: nat, windowNanos: nat)
    ensures MinimumBytesForWindow(bytesPerSecond, windowNanos)
         == Min((bytesPerSecond * windowNanos + NANOS_PER_SECOND - 1) / NANOS_PER_SECOND, U64_MAX)
  {
    FloorOfProduct(bytesPerSecond * windowNanos);
  }

  lemma FloorOfProduct(product: nat)
    ensures Min(Min(Min(product, U128_MAX) + (NANOS_PER_SECOND - 1), U128_MAX) / NANOS_PER_SECOND, U64_MAX)
         == Min((product + NANOS_PER_SECOND - 1) / NANOS_PER_SECOND, U64_MAX)
  {
  }
}
