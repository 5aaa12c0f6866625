/** Clock values in milliseconds, and the timestamp that is read as seconds or as milliseconds
    depending on its magnitude. */
module Timestamps {

  const U64_MAX: nat := 0xFFFF_FFFF_FFFF_FFFF

  type u64 = x: nat | x <= 0xFFFF_FFFF_FFFF_FFFF

  /** `Interval + Interval` and `Time + Interval` saturate. */
  function SaturatingAdd(a: u64, b: u64): u64 {
    if a + b <= U64_MAX then a + b else U64_MAX
  }

  /** `u64::saturating_add_signed`. */
  function SaturatingAddSigned(a: u64, delta: int): u64 {
    if a + delta < 0 then 0 else if a + delta <= U64_MAX then a + delta else U64_MAX
  }

  /** Values above `100_000_000_000` are milliseconds, the others are seconds. */
  function FlexibleToMillis(timestamp: u64): u64 {
    if timestamp > 100_000_000_000 then timestamp else timestamp * 1000
  }

  /** Converting a converted timestamp again is harmless exactly for zero and above
      `100_000_000` seconds (March 1973). */
  lemma FlexibleTwice(timestamp: u64)
    ensures FlexibleToMillis(FlexibleToMillis(timestamp)) == FlexibleToMillis(timestamp)
            <==> (timestamp == 0 || timestamp > 100_000_000)
  {
  }
}
