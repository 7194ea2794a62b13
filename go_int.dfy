/** Go's `int64`: the stakes and the lottery counter of the stake-weighted draw are
    64-bit signed integers, and Go's `+` and `-` on them wrap around. */
module GoInt {
  const MinInt64: int := -0x8000_0000_0000_0000
  const MaxInt64: int := 0x7fff_ffff_ffff_ffff
  const TwoTo64: int := 0x1_0000_0000_0000_0000

  type Int64 = x: int | -0x8000_0000_0000_0000 <= x <= 0x7fff_ffff_ffff_ffff

  /** The two's-complement value Go stores for the mathematical result `x`. */
  function Wrap64(x: int): (r: Int64)
    ensures MinInt64 <= x <= MaxInt64 ==> r == x
    ensures (x - r) % TwoTo64 == 0
  {
    (x - MinInt64) % TwoTo64 + MinInt64
  }

  lemma ModShift(z: int, q: int)
    ensures (z - TwoTo64 * q) % TwoTo64 == z % TwoTo64
  {
    var d, m := z / TwoTo64, z % TwoTo64;
    assert z - TwoTo64 * q == TwoTo64 * (d - q) + m;
  }

  /** Wrapping an intermediate result does not change the final wrapped value:
      a running int64 sum equals the wrapped mathematical sum. */
  lemma WrapAddCongruent(a: int, b: int)
    ensures Wrap64(Wrap64(a) + b) == Wrap64(a + b)
  {
    var q := (a - MinInt64) / TwoTo64;
    assert Wrap64(a) == a - TwoTo64 * q;
    ModShift(a + b - MinInt64, q);
  }
}
