/** Remainder by multiplication: one 64-bit wrapping product and one 128-bit product. */
module FastMod {
  import opened Bits

  function FastModMagic(divisor: u32): (magic: u64)
    requires divisor >= 2
  {
    MagicFits(divisor);
    (TWO64 - 1) / divisor + 1
  }

  function FastModU32(value: u32, divisor: u32, magic: u64): (r: u32) {
    var low := (magic * value) % TWO64;
    ((low * divisor) / TWO64) % TWO32
  }

  lemma MagicFits(divisor: u32)
    requires divisor >= 2
    ensures (TWO64 - 1) / divisor + 1 < TWO64
  {
  }

  /** With magic * d == 2^64 + e and v == k * d + r, the wrapped product scaled back by d is
      r * 2^64 + e * v, and e * v stays below 2^64. */
  lemma FastModIsRemainder(v: u32, d: u32)
    requires d >= 2
    ensures FastModU32(v, d, FastModMagic(d)) == v % d
  {
    var magic, k, r := FastModMagic(d), v / d, v % d;
    var e := magic * d - TWO64;
    var q, rem := (TWO64 - 1) / d, (TWO64 - 1) % d;
    assert magic * d == q * d + d;
    assert 0 <= e < d && e == d - 1 - rem;
    assert 0 <= e * v <= (d - 1) * (TWO32 - 1) < TWO64 by { BoundProduct(e, d - 1, v, TWO32 - 1); }

    var low := magic * v - k * TWO64;
    assert low * d == r * TWO64 + e * v by {
      assert low * d == (magic * d) * v - (k * d) * TWO64;
      assert (magic * d) * v == TWO64 * v + e * v;
    }
    assert 0 <= low < TWO64 by {
      assert 0 <= low * d < d * TWO64 by { assert r * TWO64 <= (d - 1) * TWO64; }
      SignOfFactor(low, d, TWO64);
    }
    DivUnique(magic * v, TWO64, k, low);
    DivUnique(low * d, TWO64, r, e * v);
  }

  lemma BoundProduct(a: nat, a': nat, b: nat, b': nat)
    requires a <= a' && b <= b'
    ensures 0 <= a * b <= a' * b'
  {
    assert a * b <= a * b' <= a' * b';
  }

  lemma SignOfFactor(x: int, d: nat, bound: nat)
    requires d >= 1 && 0 <= x * d < d * bound
    ensures 0 <= x < bound
  {
  }
}
