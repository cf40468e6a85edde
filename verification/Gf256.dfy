/** The arithmetic of the QR encoder's error correction (qrMatrix in inbound_subscription.py):
    bytes as polynomials over GF(2) modulo x^8 + x^4 + x^3 + x^2 + 1 (0x11D), as section 7.5 of
    ISO/IEC 18004:2015 has them. */
module Gf256 {

  function Add(a: bv8, b: bv8): bv8 { a ^ b }

  /** Multiplication by x, which is the byte 2. */
  function Xtime(a: bv8): bv8 {
    (a << 1) ^ ((a >> 7) * 0x1D)
  }

  function Scale(bit: bv8, a: bv8): bv8 {
    (bit & 1) * a
  }

  function Half(b: bv8): bv8 { b >> 1 }

  /** The product of a and the polynomial of the low n bits of b. */
  function MulBits(a: bv8, b: bv8, n: nat): bv8 {
    if n == 0 then 0 else Add(Scale(b, a), Xtime(MulBits(a, Half(b), n - 1)))
  }

  function Mul(a: bv8, b: bv8): bv8 { MulBits(a, b, 8) }

  /** The i-th power of 2, the roots of every generator polynomial. */
  function Alpha(i: nat): bv8 {
    if i == 0 then 1 else Mul(Alpha(i - 1), 2)
  }

  // ---- Addition ----

  lemma AddAssociative(a: bv8, b: bv8, c: bv8)
    ensures Add(Add(a, b), c) == Add(a, Add(b, c))
  {}

  lemma AddCommutative(a: bv8, b: bv8)
    ensures Add(a, b) == Add(b, a)
  {}

  lemma AddSelf(a: bv8)
    ensures Add(a, a) == 0 && Add(a, 0) == a && Add(0, a) == a
  {}

  lemma AddCancels(a: bv8, b: bv8)
    ensures Add(a, b) == 0 <==> a == b
  {}

  lemma AddExchange(a: bv8, b: bv8, c: bv8, d: bv8)
    ensures Add(Add(a, b), Add(c, d)) == Add(Add(a, c), Add(b, d))
  {
    assert (a ^ b) ^ (c ^ d) == (a ^ c) ^ (b ^ d);
  }

  lemma XtimeAdditive(a: bv8, b: bv8)
    ensures Xtime(Add(a, b)) == Add(Xtime(a), Xtime(b))
  {}

  lemma XtimeZero()
    ensures Xtime(0) == 0
  {}

  lemma ScaleValue(bit: bv8, a: bv8)
    ensures Scale(bit, a) == if bit & 1 == 0 then 0 else a
  {}

  lemma ScaleAdditive(bit: bv8, a: bv8, b: bv8)
    ensures Scale(bit, Add(a, b)) == Add(Scale(bit, a), Scale(bit, b))
    ensures Scale(bit, Xtime(a)) == Xtime(Scale(bit, a))
  {}

  lemma SplitLowBit(b: bv8)
    requires Half(b) & 0x80 == 0
    ensures b == Add(Scale(b, 1), Xtime(Half(b)))
  {}

  lemma HalfHasNoTop(b: bv8)
    ensures Half(b) & 0x80 == 0
  {}

  // ---- Multiplication: a commutative ring ----

  lemma {:induction false} MulBitsAdditive(a: bv8, a': bv8, b: bv8, n: nat)
    ensures MulBits(Add(a, a'), b, n) == Add(MulBits(a, b, n), MulBits(a', b, n))
    decreases n
  {
    hide Add, Xtime, Scale, Half;
    if n == 0 {
      AddSelf(0);
    } else {
      var p, q := MulBits(a, Half(b), n - 1), MulBits(a', Half(b), n - 1);
      var s, t := Scale(b, a), Scale(b, a');
      calc {
        MulBits(Add(a, a'), b, n);
        Add(Scale(b, Add(a, a')), Xtime(MulBits(Add(a, a'), Half(b), n - 1)));
        { MulBitsAdditive(a, a', Half(b), n - 1); ScaleAdditive(b, a, a'); }
        Add(Add(s, t), Xtime(Add(p, q)));
        { XtimeAdditive(p, q); }
        Add(Add(s, t), Add(Xtime(p), Xtime(q)));
        { AddExchange(s, t, Xtime(p), Xtime(q)); }
        Add(MulBits(a, b, n), MulBits(a', b, n));
      }
    }
  }

  lemma {:induction false} MulBitsXtime(a: bv8, b: bv8, n: nat)
    ensures MulBits(Xtime(a), b, n) == Xtime(MulBits(a, b, n))
    decreases n
  {
    hide Add, Xtime, Scale, Half;
    XtimeZero();
    if n > 0 {
      var p := MulBits(a, Half(b), n - 1);
      calc {
        MulBits(Xtime(a), b, n);
        Add(Scale(b, Xtime(a)), Xtime(MulBits(Xtime(a), Half(b), n - 1)));
        { MulBitsXtime(a, Half(b), n - 1); ScaleAdditive(b, a, a); }
        Add(Xtime(Scale(b, a)), Xtime(Xtime(p)));
        { XtimeAdditive(Scale(b, a), Xtime(p)); }
        Xtime(Add(Scale(b, a), Xtime(p)));
      }
    }
  }

  /** The bits of b above the n-th are zero. */
  predicate Fits(b: bv8, n: nat) {
    if n == 0 then b == 0 else Fits(Half(b), n - 1)
  }

  lemma FitsNibble(b: bv8)
    requires b & 0xF0 == 0
    ensures Fits(b, 4)
  {
    var h := Half(Half(b));
    assert h & 0xFC == 0;
    assert Half(Half(h)) == 0;
    assert Fits(h, 2);
  }

  lemma FitsByte(b: bv8)
    ensures Fits(b, 8)
  {
    var h := Half(Half(Half(Half(b))));
    assert h & 0xF0 == 0;
    FitsNibble(h);
    assert Fits(Half(Half(b)), 6);
  }

  lemma {:induction false} MulBitsUnit(b: bv8, n: nat)
    requires Fits(b, n)
    ensures MulBits(1, b, n) == b
    decreases n
  {
    hide Add, Xtime, Half;
    if n > 0 {
      MulBitsUnit(Half(b), n - 1);
      HalfHasNoTop(b);
      SplitLowBit(b);
    }
  }

  lemma {:induction false} MulBitsZero(b: bv8, n: nat)
    ensures MulBits(0, b, n) == 0
    decreases n
  {
    hide Add, Half, Xtime;
    XtimeZero();
    if n > 0 {
      MulBitsZero(Half(b), n - 1);
      AddSelf(0);
    }
  }

  lemma MulScale(bit: bv8, a: bv8, b: bv8)
    ensures Mul(Scale(bit, a), b) == Scale(bit, Mul(a, b))
  {
    hide Scale, MulBits;
    MulBitsZero(b, 8);
    ScaleValue(bit, a);
    ScaleValue(bit, Mul(a, b));
  }

  lemma {:induction false} MulBitsCommutes(a: bv8, b: bv8, n: nat)
    requires Fits(b, n)
    ensures MulBits(a, b, n) == Mul(b, a)
    decreases n
  {
    hide Add, Xtime, Scale, Half;
    if n == 0 {
      MulBitsZero(a, 8);
    } else {
      calc {
        Mul(b, a);
        { HalfHasNoTop(b); SplitLowBit(b); }
        Mul(Add(Scale(b, 1), Xtime(Half(b))), a);
        { MulBitsAdditive(Scale(b, 1), Xtime(Half(b)), a, 8); MulBitsXtime(Half(b), a, 8); }
        Add(Mul(Scale(b, 1), a), Xtime(Mul(Half(b), a)));
        { MulScale(b, 1, a); FitsByte(a); MulBitsUnit(a, 8); MulBitsCommutes(a, Half(b), n - 1); }
        Add(Scale(b, a), Xtime(MulBits(a, Half(b), n - 1)));
        MulBits(a, b, n);
      }
    }
  }

  lemma MulCommutative(a: bv8, b: bv8)
    ensures Mul(a, b) == Mul(b, a)
  {
    hide Add, Xtime, Scale, Half, MulBits;
    FitsByte(b);
    MulBitsCommutes(a, b, 8);
  }

  lemma MulUnit(a: bv8)
    ensures Mul(1, a) == a && Mul(a, 1) == a && Mul(0, a) == 0 && Mul(a, 0) == 0
  {
    hide Add, Xtime, Scale, Half, MulBits;
    FitsByte(a);
    MulBitsUnit(a, 8);
    MulBitsZero(a, 8);
    MulCommutative(a, 1);
    MulCommutative(a, 0);
  }

  lemma MulDistributes(a: bv8, b: bv8, c: bv8)
    ensures Mul(Add(a, b), c) == Add(Mul(a, c), Mul(b, c))
    ensures Mul(c, Add(a, b)) == Add(Mul(c, a), Mul(c, b))
  {
    hide Add, Xtime, Scale, Half, MulBits;
    MulBitsAdditive(a, b, c, 8);
    MulCommutative(Add(a, b), c);
    MulCommutative(a, c);
    MulCommutative(b, c);
  }

  lemma MulXtime(a: bv8, b: bv8)
    ensures Mul(Xtime(a), b) == Xtime(Mul(a, b)) && Mul(a, Xtime(b)) == Xtime(Mul(a, b))
  {
    hide Add, Xtime, Scale, Half, MulBits;
    MulBitsXtime(a, b, 8);
    MulBitsXtime(b, a, 8);
    MulCommutative(a, Xtime(b));
    MulCommutative(a, b);
  }

  lemma {:induction false} MulBitsAssociative(a: bv8, b: bv8, c: bv8, n: nat)
    ensures MulBits(Mul(a, b), c, n) == Mul(a, MulBits(b, c, n))
    decreases n
  {
    hide Add, Xtime, Scale, Half;
    if n == 0 {
      MulUnit(a);
    } else {
      var p := MulBits(b, Half(c), n - 1);
      calc {
        Mul(a, MulBits(b, c, n));
        Mul(a, Add(Scale(c, b), Xtime(p)));
        { MulDistributes(Scale(c, b), Xtime(p), a); MulXtime(a, p); }
        Add(Mul(a, Scale(c, b)), Xtime(Mul(a, p)));
        { MulCommutative(a, Scale(c, b)); MulScale(c, b, a); MulCommutative(a, b); }
        Add(Scale(c, Mul(a, b)), Xtime(Mul(a, p)));
        { MulBitsAssociative(a, b, Half(c), n - 1); }
        MulBits(Mul(a, b), c, n);
      }
    }
  }

  lemma MulAssociative(a: bv8, b: bv8, c: bv8)
    ensures Mul(Mul(a, b), c) == Mul(a, Mul(b, c))
  {
    hide Add, Xtime, Scale, Half, MulBits;
    MulBitsAssociative(a, b, c, 8);
  }

  // ---- No divisors of zero ----

  function Step(z: bv8, bit: bv8, a: bv8): bv8 {
    Add(Scale(bit, a), Xtime(z))
  }

  /** The product with every step written out. */
  function MulFlat(a: bv8, b: bv8): bv8 {
    var z6 := Step(Step(0, b >> 7, a), b >> 6, a);
    var z4 := Step(Step(z6, b >> 5, a), b >> 4, a);
    var z2 := Step(Step(z4, b >> 3, a), b >> 2, a);
    Step(Step(z2, b >> 1, a), b, a)
  }

  lemma MulBitsStep(a: bv8, b: bv8, n: nat)
    requires n > 0
    ensures MulBits(a, b, n) == Step(MulBits(a, Half(b), n - 1), b, a)
  {
    hide Xtime, Scale, Half, Add;
  }

  lemma MulBitsNone(a: bv8, b: bv8)
    ensures MulBits(a, b, 0) == 0
  {}

  lemma MulIsFlat(a: bv8, b: bv8)
    ensures Mul(a, b) == MulFlat(a, b)
  {
    var b2, b3, b4 := Half(Half(b)), Half(Half(Half(b))), Half(Half(Half(Half(b))));
    Shifts(b);
    hide Step, Half, MulBits;
    MulBitsStep(a, b, 8);
    MulBitsStep(a, Half(b), 7);
    MulBitsStep(a, b2, 6);
    MulBitsStep(a, b3, 5);
    MulBitsStep(a, b4, 4);
    MulBitsStep(a, Half(b4), 3);
    MulBitsStep(a, Half(Half(b4)), 2);
    MulBitsStep(a, Half(Half(Half(b4))), 1);
    MulBitsNone(a, Half(Half(Half(Half(b4)))));
  }

  lemma Shifts(b: bv8)
    ensures Half(b) == b >> 1 && Half(Half(b)) == b >> 2 && Half(Half(Half(b))) == b >> 3
    ensures Half(Half(Half(Half(b)))) == b >> 4 && Half(Half(Half(Half(Half(b))))) == b >> 5
    ensures Half(Half(Half(Half(Half(Half(b)))))) == b >> 6
    ensures Half(Half(Half(Half(Half(Half(Half(b))))))) == b >> 7
  {}

  lemma OddFlat(a: bv8, b: bv8)
    requires a & 1 == 1 && b & 3 == 1
    ensures MulFlat(a, b) != 0
  {}

  lemma OddFlat3(a: bv8, b: bv8)
    requires a & 1 == 1 && b & 3 == 3
    ensures MulFlat(a, b) != 0
  {}

  lemma XtimeNonzero(a: bv8)
    ensures Xtime(a) == 0 <==> a == 0
  {}

  lemma EvenIsXtime(a: bv8)
    requires a & 1 == 0
    ensures a == Xtime(Half(a)) && (a != 0 ==> Half(a) != 0 && Half(a) < a)
  {}

  lemma {:induction false} NoZeroDivisors(a: bv8, b: bv8)
    requires a != 0 && b != 0
    ensures Mul(a, b) != 0
    decreases a, b
  {
    hide Mul, MulFlat, Xtime, Half;
    if a & 1 == 0 {
      EvenIsXtime(a);
      NoZeroDivisors(Half(a), b);
      MulXtime(Half(a), b);
      XtimeNonzero(Mul(Half(a), b));
    } else if b & 1 == 0 {
      EvenIsXtime(b);
      NoZeroDivisors(a, Half(b));
      MulXtime(a, Half(b));
      XtimeNonzero(Mul(a, Half(b)));
    } else {
      MulIsFlat(a, b);
      if b & 3 == 1 { OddFlat(a, b); } else { assert b & 3 == 3; OddFlat3(a, b); }
    }
  }

  // ---- The powers of 2: 255 of them, all different ----

  lemma {:induction false} AlphaSum(i: nat, j: nat)
    ensures Alpha(i + j) == Mul(Alpha(i), Alpha(j))
  {
    hide Mul;
    if j == 0 {
      MulUnit(Alpha(i));
    } else {
      AlphaSum(i, j - 1);
      MulAssociative(Alpha(i), Alpha(j - 1), 2);
    }
  }

  lemma {:induction false} AlphaNonzero(i: nat)
    ensures Alpha(i) != 0
  {
    hide Mul;
    if i > 0 {
      AlphaNonzero(i - 1);
      NoZeroDivisors(Alpha(i - 1), 2);
    }
  }

  lemma AlphaProduct(i: nat, j: nat, a: bv8, b: bv8)
    requires Alpha(i) == a && Alpha(j) == b
    ensures Alpha(i + j) == MulFlat(a, b)
  {
    hide Mul, MulFlat;
    AlphaSum(i, j);
    MulIsFlat(a, b);
  }

  lemma FlatProducts()
    ensures MulFlat(2, 2) == 4 && MulFlat(4, 4) == 0x10 && MulFlat(0x10, 0x10) == 0x1D
    ensures MulFlat(0x10, 4) == 0x40 && MulFlat(0x40, 2) == 0x80 && MulFlat(0x1D, 0x80) == 0x26
  {}

  lemma FlatProducts'()
    ensures MulFlat(0x26, 4) == 0x98 && MulFlat(0x98, 0x98) == 0x4E && MulFlat(0x4E, 0x98) == 0x0A
    ensures MulFlat(0x0A, 0x4E) == 0xD6 && MulFlat(0xD6, 0xD6) == 0xD7 && MulFlat(0xD7, 0xD6) == 1
  {}

  /** The values that settle the order of 2: it divides 255, and is none of 85, 51 and 15. */
  lemma AlphaValues()
    ensures Alpha(15) == 0x26 && Alpha(51) == 0x0A && Alpha(85) == 0xD6 && Alpha(255) == 1
  {
    hide MulFlat, MulBits, Mul;
    MulUnit(2);
    assert Alpha(1) == 2;
    FlatProducts();
    FlatProducts'();
    AlphaProduct(1, 1, 2, 2);
    AlphaProduct(2, 2, 4, 4);
    AlphaProduct(4, 4, 0x10, 0x10);
    AlphaProduct(4, 2, 0x10, 4);
    AlphaProduct(6, 1, 0x40, 2);
    AlphaProduct(8, 7, 0x1D, 0x80);
    AlphaProduct(15, 2, 0x26, 4);
    AlphaProduct(17, 17, 0x98, 0x98);
    AlphaProduct(34, 17, 0x4E, 0x98);
    AlphaProduct(51, 34, 0x0A, 0x4E);
    AlphaProduct(85, 85, 0xD6, 0xD6);
    AlphaProduct(170, 85, 0xD7, 0xD6);
  }
}
