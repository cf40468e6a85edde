/** The multiplication loop of the QR encoder, on integers wider than a byte, computes the
    product in GF(256). */
module GfLoop {
  import opened Gf256

  /** b without its low k bits. */
  function Shifted(b: bv8, k: nat): bv8 {
    if k == 0 then b else Half(Shifted(b, k - 1))
  }

  /** One doubling, reduced by 0x11D when it passes 255. */
  function Doubled(z: bv16): bv16 { (z << 1) ^ ((z >> 7) * 0x11D) }

  function Accumulated(z: bv16, bit: bv8, a: bv8): bv16 { z ^ ((bit & 1) as bv16 * a as bv16) }

  function Low(z: bv16): bv8
    requires z < 0x100
  {
    z as bv8
  }

  lemma DoubledIsXtime(z: bv16)
    requires z < 0x100
    ensures Doubled(z) < 0x100 && Low(Doubled(z)) == Xtime(Low(z))
  {}

  lemma AccumulatedIsAdd(z: bv16, bit: bv8, a: bv8)
    requires z < 0x100
    ensures Accumulated(z, bit, a) < 0x100 && Low(Accumulated(z, bit, a)) == Add(Scale(bit, a), Low(z))
  {}

  /** Horner's rule over the bits of b from the top; z stays below 256 between steps, so nine
      bits are all the shift ever needs. */
  method MulLoop(a: bv8, b: bv8) returns (product: bv8)
    ensures product == Mul(a, b)
  {
    hide Add, Xtime, Scale, Half, Low, Doubled, Accumulated;
    var z: bv16 := 0;
    assert Low(z) == 0 by { ZeroIsLow(); }
    var k := 7;
    while k >= 0
      invariant -1 <= k <= 7
      invariant z < 0x100
      invariant Low(z) == MulBits(a, Shifted(b, k + 1), 7 - k)
    {
      DoubledIsXtime(z);
      z := Doubled(z);
      AccumulatedIsAdd(z, Shifted(b, k), a);
      z := Accumulated(z, Shifted(b, k), a);
      k := k - 1;
    }
    return Low(z);
  }

  lemma ZeroIsLow()
    ensures Low(0) == 0
  {}
}
