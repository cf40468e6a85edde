/** Error correction of the QR encoder (qrMatrix in inbound_subscription.py): polynomials over
    GF(256), the generator polynomial, the remainder of a block, and what the result is for.
    A polynomial is the sequence of its coefficients, the highest power first. */
module ReedSolomon {
  import opened Gf256
  import opened GfLoop

  type Poly = seq<bv8>

  function Pow(x: bv8, n: nat): bv8 {
    if n == 0 then 1 else Mul(Pow(x, n - 1), x)
  }

  function Eval(p: Poly, x: bv8): bv8 {
    if p == [] then 0 else Add(Mul(Eval(p[..|p| - 1], x), x), p[|p| - 1])
  }

  function PolyAdd(p: Poly, q: Poly): (r: Poly)
    requires |p| == |q|
    ensures |r| == |p|
  {
    seq(|p|, i requires 0 <= i < |p| => Add(p[i], q[i]))
  }

  function PolyScale(c: bv8, p: Poly): (r: Poly)
    ensures |r| == |p|
  {
    seq(|p|, i requires 0 <= i < |p| => Mul(p[i], c))
  }

  /** The coefficient of x^m. */
  function Coef(p: Poly, m: nat): bv8 {
    if m < |p| then p[|p| - 1 - m] else 0
  }

  /** p times (x + r). */
  function TimesRoot(p: Poly, r: bv8): (q: Poly)
    ensures |q| == |p| + 1
  {
    PolyAdd(p + [0], [0] + PolyScale(r, p))
  }

  /** The product of (x + 2^k) for k below n: the generator polynomial of degree n. */
  function Generator(n: nat): (g: Poly)
    ensures |g| == n + 1
  {
    if n == 0 then [1] else TimesRoot(Generator(n - 1), Alpha(n - 1))
  }

  /** One byte of data through the division register. */
  function Feed(rem: Poly, d: bv8, gen: Poly): (r: Poly)
    requires |rem| == |gen| && gen != []
    ensures |r| == |gen|
  {
    PolyAdd(rem[1..] + [0], PolyScale(Add(d, rem[0]), gen))
  }

  function Remainder(data: seq<bv8>, gen: Poly): (r: Poly)
    requires gen != []
    ensures |r| == |gen|
  {
    if data == [] then seq(|gen|, _ => 0)
    else Feed(Remainder(data[..|data| - 1], gen), data[|data| - 1], gen)
  }

  /** w is zero at each of the first deg powers of 2. */
  ghost predicate IsCodeword(w: Poly, deg: nat) {
    forall i: nat :: i < deg ==> Eval(w, Alpha(i)) == 0
  }

  // ---- The encoder's loops ----

  /** gen: the coefficients of the generator below its leading one. */
  method GeneratorLoop(deg: nat) returns (g: Poly)
    requires deg >= 1
    ensures g == Generator(deg)[1..]
  {
    hide Add, Mul, Alpha, TimesRoot;
    var gen := new bv8[deg](i => 0);
    gen[deg - 1] := 1;
    var root: bv8 := 1;
    AlphaOne();
    for i := 0 to deg
      invariant root == Alpha(i)
      invariant forall j :: 0 <= j < deg ==> gen[j] == Coef(Generator(i), deg - 1 - j)
    {
      for j := 0 to deg
        invariant forall t :: 0 <= t < j ==> gen[t] == Coef(Generator(i + 1), deg - 1 - t)
        invariant forall t :: j <= t < deg ==> gen[t] == Coef(Generator(i), deg - 1 - t)
      {
        TimesRootCoef(Generator(i), root, deg - 1 - j);
        var product := MulLoop(gen[j], root);
        gen[j] := product;
        if j + 1 < deg {
          gen[j] := Add(gen[j], gen[j + 1]);
        }
      }
      AlphaNext(i);
      root := MulLoop(root, 2);
    }
    return gen[..];
  }

  method RemainderLoop(data: seq<bv8>, gen: Poly) returns (rem: Poly)
    requires gen != []
    ensures rem == Remainder(data, gen)
  {
    hide Add, Mul;
    rem := seq(|gen|, _ => 0);
    assert data[..0] == [];
    for j := 0 to |data|
      invariant rem == Remainder(data[..j], gen)
    {
      assert data[..j + 1][..j] == data[..j];
      var f := Add(data[j], rem[0]);
      rem := rem[1..];
      rem := rem + [0];
      ghost var shifted := rem;
      for k := 0 to |gen|
        invariant |rem| == |gen|
        invariant forall t :: 0 <= t < k ==> rem[t] == Add(shifted[t], Mul(gen[t], f))
        invariant forall t :: k <= t < |gen| ==> rem[t] == shifted[t]
      {
        var product := MulLoop(gen[k], f);
        rem := rem[k := Add(rem[k], product)];
      }
    }
    assert data[..|data|] == data;
  }

  // ---- Evaluation ----

  lemma AlphaOne()
    ensures Alpha(0) == 1
  {}

  lemma AlphaNext(i: nat)
    ensures Alpha(i + 1) == Mul(Alpha(i), 2)
  {}

  lemma AddZero(a: bv8)
    ensures Add(a, 0) == a && Add(0, a) == a
  {}

  lemma MulZero(a: bv8)
    ensures Mul(0, a) == 0 && Mul(a, 0) == 0
  {
    MulUnit(a);
  }

  lemma TimesRootCoef(p: Poly, r: bv8, m: nat)
    ensures Coef(TimesRoot(p, r), m) == if m == 0 then Mul(Coef(p, 0), r) else Add(Mul(Coef(p, m), r), Coef(p, m - 1))
  {
    hide Add, Mul;
    MulZero(r);
    AddZero(0);
    AddZero(Mul(Coef(p, 0), r));
    if m == 0 {
    } else if m < |p| {
      AddCommutative(Coef(p, m - 1), Mul(Coef(p, m), r));
    } else {
      AddZero(Coef(p, m - 1));
    }
  }

  lemma {:induction false} EvalAdd(p: Poly, q: Poly, x: bv8)
    requires |p| == |q|
    ensures Eval(PolyAdd(p, q), x) == Add(Eval(p, x), Eval(q, x))
    decreases |p|
  {
    hide Add, Mul;
    if p == [] {
      AddZero(0);
    } else {
      var n := |p| - 1;
      var p', q' := p[..n], q[..n];
      assert PolyAdd(p, q)[..n] == PolyAdd(p', q');
      calc {
        Eval(PolyAdd(p, q), x);
        Add(Mul(Eval(PolyAdd(p', q'), x), x), Add(p[n], q[n]));
        { EvalAdd(p', q', x); MulDistributes(Eval(p', x), Eval(q', x), x); }
        Add(Add(Mul(Eval(p', x), x), Mul(Eval(q', x), x)), Add(p[n], q[n]));
        { AddExchange(Mul(Eval(p', x), x), Mul(Eval(q', x), x), p[n], q[n]); }
        Add(Eval(p, x), Eval(q, x));
      }
    }
  }

  lemma {:induction false} EvalScale(c: bv8, p: Poly, x: bv8)
    ensures Eval(PolyScale(c, p), x) == Mul(Eval(p, x), c)
    decreases |p|
  {
    hide Add, Mul;
    if p == [] {
      MulZero(c);
    } else {
      var n := |p| - 1;
      var p' := p[..n];
      var e := Eval(p', x);
      assert PolyScale(c, p)[..n] == PolyScale(c, p');
      calc {
        Eval(PolyScale(c, p), x);
        { EvalScale(c, p', x); }
        Add(Mul(Mul(e, c), x), Mul(p[n], c));
        { MulAssociative(e, c, x); MulCommutative(c, x); MulAssociative(e, x, c); }
        Add(Mul(Mul(e, x), c), Mul(p[n], c));
        { MulDistributes(Mul(e, x), p[n], c); }
        Mul(Eval(p, x), c);
      }
    }
  }

  lemma {:induction false} EvalConcat(p: Poly, q: Poly, x: bv8)
    ensures Eval(p + q, x) == Add(Mul(Eval(p, x), Pow(x, |q|)), Eval(q, x))
    decreases |q|
  {
    hide Add, Mul;
    var e := Eval(p, x);
    if q == [] {
      assert p + q == p;
      MulUnit(e);
      AddZero(e);
    } else {
      var n := |q| - 1;
      var q' := q[..n];
      assert (p + q)[..|p| + n] == p + q';
      var y := Pow(x, n);
      calc {
        Eval(p + q, x);
        Add(Mul(Eval(p + q', x), x), q[n]);
        { EvalConcat(p, q', x); MulDistributes(Mul(e, y), Eval(q', x), x); }
        Add(Add(Mul(Mul(e, y), x), Mul(Eval(q', x), x)), q[n]);
        { MulAssociative(e, y, x); AddAssociative(Mul(e, Pow(x, |q|)), Mul(Eval(q', x), x), q[n]); }
        Add(Mul(e, Pow(x, |q|)), Eval(q, x));
      }
    }
  }

  lemma EvalAppendZero(p: Poly, x: bv8)
    ensures Eval(p + [0], x) == Mul(Eval(p, x), x)
    ensures Eval([0] + p, x) == Eval(p, x)
  {
    hide Add, Mul;
    assert (p + [0])[..|p|] == p;
    AddZero(Mul(Eval(p, x), x));
    EvalConcat([0], p, x);
    assert Eval([0], x) == Add(Mul(Eval([], x), x), 0) by { assert [0 as bv8][..0] == []; }
    MulZero(x);
    AddZero(0);
    MulZero(Pow(x, |p|));
    AddZero(Eval(p, x));
  }

  lemma EvalTimesRoot(p: Poly, r: bv8, x: bv8)
    ensures Eval(TimesRoot(p, r), x) == Mul(Eval(p, x), Add(x, r))
  {
    hide Add, Mul;
    EvalAdd(p + [0], [0] + PolyScale(r, p), x);
    EvalAppendZero(p, x);
    EvalAppendZero(PolyScale(r, p), x);
    EvalScale(r, p, x);
    MulDistributes(x, r, Eval(p, x));
  }

  // ---- The generator's roots ----

  /** y is one of the first n powers of 2. */
  ghost predicate IsRoot(y: bv8, n: nat) {
    exists k: nat :: k < n && y == Alpha(k)
  }

  lemma IsRootStep(y: bv8, n: nat)
    requires n >= 1
    ensures IsRoot(y, n) <==> IsRoot(y, n - 1) || y == Alpha(n - 1)
  {
    hide Alpha;
    if IsRoot(y, n) {
      var k: nat :| k < n && y == Alpha(k);
      assert k < n - 1 || k == n - 1;
    }
  }

  /** The generator is the product of its linear factors, so it vanishes exactly at the first
      n powers of 2. */
  lemma {:induction false} GeneratorRoots(n: nat, y: bv8)
    ensures Eval(Generator(n), y) == 0 <==> IsRoot(y, n)
    ensures Generator(n)[0] == 1
  {
    hide Add, Mul, Alpha, TimesRoot;
    if n == 0 {
      EvalOne(y);
    } else {
      var p, r := Generator(n - 1), Alpha(n - 1);
      GeneratorRoots(n - 1, y);
      IsRootStep(y, n);
      EvalTimesRoot(p, r, y);
      TimesRootCoef(p, r, n);
      MulZero(r);
      AddZero(1);
      MulZero(Eval(p, y));
      MulZero(Add(y, r));
      AddCancels(y, r);
      if Eval(p, y) != 0 && y != r {
        NoZeroDivisors(Eval(p, y), Add(y, r));
      }
    }
  }

  lemma EvalOne(y: bv8)
    ensures Eval([1], y) == 1
  {
    hide Add, Mul;
    assert [1 as bv8][..0] == [];
    MulZero(y);
    AddZero(1);
  }

  /** Where the whole generator vanishes, its tail stands for x^deg. */
  lemma GeneratorTail(deg: nat, i: nat)
    requires i < deg
    ensures Eval(Generator(deg)[1..], Alpha(i)) == Pow(Alpha(i), deg)
  {
    hide Add, Mul, Alpha;
    var g, y := Generator(deg), Alpha(i);
    GeneratorRoots(deg, y);
    assert IsRoot(y, deg) by { assert i < deg && y == Alpha(i); }
    assert g == [1] + g[1..];
    EvalConcat([1], g[1..], y);
    EvalOne(y);
    MulUnit(Pow(y, deg));
    AddCancels(Pow(y, deg), Eval(g[1..], y));
  }

  // ---- The block's error correction ----

  /** The arithmetic of one step: e and t are the values of the prefix and of the register
      below its first byte first, u = y^(deg-1). */
  lemma FeedArithmetic(e: bv8, t: bv8, y: bv8, u: bv8, d: bv8, first: bv8)
    requires Add(Mul(e, Mul(u, y)), Add(Mul(first, u), t)) == 0
    ensures Add(Mul(Add(Mul(e, y), d), Mul(u, y)), Add(Mul(t, y), Mul(Mul(u, y), Add(d, first)))) == 0
  {
    hide Add, Mul;
    var z := Mul(u, y);
    AddCancels(Mul(e, z), Add(Mul(first, u), t));
    calc {
      Mul(Add(Mul(e, y), d), z);
      { MulDistributes(Mul(e, y), d, z); }
      Add(Mul(Mul(e, y), z), Mul(d, z));
      { MulAssociative(e, y, z); MulCommutative(y, z); MulAssociative(e, z, y); }
      Add(Mul(Add(Mul(first, u), t), y), Mul(d, z));
      { MulDistributes(Mul(first, u), t, y); MulAssociative(first, u, y); }
      Add(Add(Mul(first, z), Mul(t, y)), Mul(d, z));
    }
    calc {
      Mul(z, Add(d, first));
      { MulDistributes(d, first, z); }
      Add(Mul(z, d), Mul(z, first));
      { MulCommutative(z, d); MulCommutative(z, first); }
      Add(Mul(d, z), Mul(first, z));
    }
    ThreeCancel(Mul(first, z), Mul(t, y), Mul(d, z));
  }

  lemma FeedValue(rem: Poly, d: bv8, deg: nat, i: nat)
    requires deg >= 1 && i < deg && |rem| == deg
    ensures Eval(Feed(rem, d, Generator(deg)[1..]), Alpha(i))
         == Add(Mul(Eval(rem[1..], Alpha(i)), Alpha(i)), Mul(Pow(Alpha(i), deg), Add(d, rem[0])))
  {
    hide Add, Mul, Alpha, Generator;
    var gen, y, f := Generator(deg)[1..], Alpha(i), Add(d, rem[0]);
    EvalAdd(rem[1..] + [0], PolyScale(f, gen), y);
    EvalAppendZero(rem[1..], y);
    EvalScale(f, gen, y);
    GeneratorTail(deg, i);
  }

  /** One step of the division keeps prefix + register a multiple of the generator. */
  lemma FeedKeepsRoot(prefix: Poly, rem: Poly, d: bv8, deg: nat, i: nat)
    requires deg >= 1 && i < deg && |rem| == deg
    requires Eval(prefix + rem, Alpha(i)) == 0
    ensures Eval(prefix + [d] + Feed(rem, d, Generator(deg)[1..]), Alpha(i)) == 0
  {
    hide Add, Mul, Alpha, Generator, Feed;
    var y := Alpha(i);
    var next := Feed(rem, d, Generator(deg)[1..]);
    var w := prefix + [d];
    assert w[..|prefix|] == prefix;
    RegisterValue(rem, y);
    EvalConcat(prefix, rem, y);
    EvalConcat(w, next, y);
    FeedValue(rem, d, deg, i);
    FeedArithmetic(Eval(prefix, y), Eval(rem[1..], y), y, Pow(y, deg - 1), d, rem[0]);
  }

  lemma RegisterValue(rem: Poly, y: bv8)
    requires rem != []
    ensures Eval(rem, y) == Add(Mul(rem[0], Pow(y, |rem| - 1)), Eval(rem[1..], y))
  {
    hide Add, Mul;
    assert rem == [rem[0]] + rem[1..];
    EvalConcat([rem[0]], rem[1..], y);
    assert [rem[0]][..0] == [];
    MulZero(y);
    AddZero(rem[0]);
  }

  lemma ThreeCancel(a: bv8, b: bv8, c: bv8)
    ensures Add(Add(Add(a, b), c), Add(b, Add(c, a))) == 0
  {}

  lemma EvalZeros(n: nat, y: bv8)
    ensures Eval(seq(n, _ => 0), y) == 0
  {
    hide Add, Mul;
    if n > 0 {
      var z: Poly := seq(n, _ => 0);
      assert z[..n - 1] == seq(n - 1, _ => 0);
      EvalZeros(n - 1, y);
      MulZero(y);
      AddZero(0);
    }
  }

  /** Data followed by its remainder is a codeword, whatever the data and the degree. */
  lemma {:induction false} BlockIsCodeword(data: seq<bv8>, deg: nat)
    requires deg >= 1
    ensures IsCodeword(data + Remainder(data, Generator(deg)[1..]), deg)
    decreases |data|
  {
    hide Add, Mul, Alpha, Generator, Feed;
    var gen := Generator(deg)[1..];
    forall i: nat | i < deg ensures Eval(data + Remainder(data, gen), Alpha(i)) == 0 {
      if data == [] {
        EvalZeros(deg, Alpha(i));
        assert data + Remainder(data, gen) == Remainder(data, gen);
      } else {
        var n := |data| - 1;
        var prefix, rem := data[..n], Remainder(data[..n], gen);
        BlockIsCodeword(prefix, deg);
        FeedKeepsRoot(prefix, rem, data[n], deg, i);
        assert prefix + [data[n]] == data;
      }
    }
  }
}
