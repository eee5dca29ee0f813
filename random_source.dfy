/**
 * The random source is not modelled as such: every draw is an explicit
 * integer supplied by the caller, and the functions below map that raw
 * integer into the range the corresponding Python call returns. A raw
 * value already in range is returned unchanged, so every value the real
 * call could produce is reachable.
 */
module RandomSource {
  import opened Arithmetic

  /** `random.randint(lo, hi)` (both ends included), fed with `raw`. */
  function RandInt(lo: int, hi: int, raw: int): (x: int)
    requires lo <= hi
    ensures lo <= x <= hi
    ensures lo <= raw <= hi ==> x == raw
  {
    ModSmall(raw - lo, hi - lo + 1);
    lo + (raw - lo) % (hi - lo + 1)
  }

  /** `random.randrange(lo, hi)` (upper end excluded), fed with `raw`. */
  function RandRange(lo: int, hi: int, raw: int): (x: int)
    requires lo < hi
    ensures lo <= x < hi
    ensures lo <= raw < hi ==> x == raw
  {
    RandInt(lo, hi - 1, raw)
  }

  /** `random.getrandbits(bits)`, fed with `raw`: a value in [0, 2^bits). */
  function RandBits(bits: nat, raw: int): (x: int)
    ensures 0 <= x < Pow2(bits)
    ensures 0 <= raw < Pow2(bits) ==> x == raw
  {
    ModSmall(raw, Pow2(bits));
    raw % Pow2(bits)
  }
}
