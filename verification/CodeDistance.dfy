/** What the error correction bytes buy: words of at most 255 bytes that vanish at deg
    consecutive powers of 2 differ in more than deg places (the reason section 7.5 of
    ISO/IEC 18004:2015 can promise to repair deg / 2 wrong codewords a block). */
module CodeDistance {
  import opened Gf256
  import opened ReedSolomon

  // ---- The powers of 2 below the 255th are all different ----

  lemma {:induction false} AlphaMultiple(k: nat, m: nat)
    requires Alpha(k) == 1
    ensures Alpha(k * m) == 1
    decreases m
  {
    hide Mul;
    if m > 0 {
      AlphaMultiple(k, m - 1);
      AlphaSum(k * (m - 1), k);
      MulUnit(1);
      assert k * (m - 1) + k == k * m;
    } else {
      assert k * m == 0;
    }
  }

  lemma {:induction false} NoShortCycle(k: nat)
    requires 0 < k < 255
    ensures Alpha(k) != 1
    decreases k
  {
    hide Mul, Alpha;
    if Alpha(k) == 1 {
      var q, r := 255 / k, 255 % k;
      AlphaMultiple(k, q);
      AlphaValues();
      AlphaSum(k * q, r);
      MulUnit(Alpha(r));
      assert k * q + r == 255;
      if r > 0 {
        NoShortCycle(r);
      } else {
        LargeDivisor(k, q);
        if k * (q / 3) == 85 {
          AlphaMultiple(k, q / 3);
        } else if k * (q / 5) == 51 {
          AlphaMultiple(k, q / 5);
        } else {
          AlphaMultiple(k, q / 17);
        }
      }
      assert false;
    }
  }

  /** A proper divisor of 255 = 3 * 5 * 17 divides 85, 51 or 15. */
  lemma LargeDivisor(k: nat, q: nat)
    requires 0 < k < 255 && k * q == 255
    ensures k * (q / 3) == 85 || k * (q / 5) == 51 || k * (q / 17) == 15
  {
    if k <= 15 {
      SmallFactor(k, q);
    } else {
      ProductOfLarge(k, q);
      SmallFactor(q, k);
    }
  }

  lemma ProductOfLarge(k: nat, q: nat)
    ensures k < 16 || q < 16 || k * q >= 256
  {
    if k >= 16 && q >= 16 {
      assert k * q == 16 * q + (k - 16) * q;
      assert (k - 16) * q >= 0;
    }
  }

  lemma SmallFactor(k: nat, q: nat)
    requires 0 < k < 16 && k * q == 255
    ensures (k == 1 && q == 255) || (k == 3 && q == 85) || (k == 5 && q == 51) || (k == 15 && q == 17)
  {
    if k == 1 {} else if k == 2 {} else if k == 3 {} else if k == 4 {} else if k == 5 {}
    else if k == 6 {} else if k == 7 {} else if k == 8 {} else if k == 9 {} else if k == 10 {}
    else if k == 11 {} else if k == 12 {} else if k == 13 {} else if k == 14 {} else {}
  }

  lemma AlphaDistinct(i: nat, j: nat)
    requires i < j < 255
    ensures Alpha(i) != Alpha(j)
  {
    hide Mul, Alpha;
    NoShortCycle(j - i);
    AlphaSum(i, j - i);
    if Alpha(i) == Alpha(j) {
      // 2^i * (2^(j-i) + 1) == 0
      MulUnit(Alpha(i));
      MulDistributes(Alpha(j - i), 1, Alpha(i));
      AddCancels(Mul(Alpha(i), Alpha(j - i)), Mul(Alpha(i), 1));
      AddCancels(Alpha(j - i), 1);
      AlphaNonzero(i);
      NoZeroDivisors(Alpha(i), Add(Alpha(j - i), 1));
      assert false;
    }
  }

  // ---- Sparse words ----

  /** One nonzero byte of a word: its value and its place as a power of x. */
  datatype Term = Term(coef: bv8, place: bv8)

  /** Sum of coef * place^i. */
  function PowerSum(ts: seq<Term>, i: nat): bv8 {
    if ts == [] then 0 else Add(PowerSum(ts[..|ts| - 1], i), Mul(ts[|ts| - 1].coef, Pow(ts[|ts| - 1].place, i)))
  }

  ghost predicate DistinctPlaces(ts: seq<Term>) {
    forall a, b :: 0 <= a < b < |ts| ==> ts[a].place != ts[b].place
  }

  /** Each coefficient times (x + its place): what elimination of the place x leaves. */
  function Eliminate(ts: seq<Term>, x: bv8): (r: seq<Term>)
    ensures |r| == |ts|
  {
    seq(|ts|, k requires 0 <= k < |ts| => Term(Mul(ts[k].coef, Add(x, ts[k].place)), ts[k].place))
  }

  lemma {:induction false} EliminateSum(ts: seq<Term>, x: bv8, i: nat)
    ensures PowerSum(Eliminate(ts, x), i) == Add(Mul(PowerSum(ts, i), x), PowerSum(ts, i + 1))
    decreases |ts|
  {
    hide Add, Mul;
    if ts == [] {
      MulZero(x);
      AddZero(0);
    } else {
      var n := |ts| - 1;
      var rest, c, p := ts[..n], ts[n].coef, ts[n].place;
      assert Eliminate(ts, x)[..n] == Eliminate(rest, x);
      EliminateSum(rest, x, i);
      EliminateTerm(c, p, Pow(p, i), x);
      MulDistributes(PowerSum(rest, i), Mul(c, Pow(p, i)), x);
      AddExchange(Mul(PowerSum(rest, i), x), PowerSum(rest, i + 1), Mul(Mul(c, Pow(p, i)), x), Mul(c, Pow(p, i + 1)));
    }
  }

  lemma EliminateTerm(c: bv8, p: bv8, u: bv8, x: bv8)
    ensures Mul(Mul(c, Add(x, p)), u) == Add(Mul(Mul(c, u), x), Mul(c, Mul(u, p)))
  {
    hide Add, Mul;
    calc {
      Mul(Mul(c, Add(x, p)), u);
      { MulAssociative(c, Add(x, p), u); MulDistributes(x, p, u); MulDistributes(Mul(x, u), Mul(p, u), c); }
      Add(Mul(c, Mul(x, u)), Mul(c, Mul(p, u)));
      { MulCommutative(x, u); MulCommutative(p, u); MulAssociative(c, u, x); }
      Add(Mul(Mul(c, u), x), Mul(c, Mul(u, p)));
    }
  }

  /** d vanishing power sums of at most d terms at distinct places: every coefficient is zero. */
  lemma {:induction false} SparseVanishes(ts: seq<Term>, d: nat)
    requires |ts| <= d && DistinctPlaces(ts)
    requires forall i: nat :: i < d ==> PowerSum(ts, i) == 0
    ensures forall k :: 0 <= k < |ts| ==> ts[k].coef == 0
    decreases |ts|
  {
    hide Add, Mul;
    if ts != [] {
      var n := |ts| - 1;
      var rest, last := ts[..n], ts[n];
      var less := Eliminate(rest, last.place);
      forall i: nat | i < d - 1 ensures PowerSum(less, i) == 0 {
        // The last term itself is eliminated with the rest.
        EliminateSum(ts, last.place, i);
        MulZero(last.place);
        AddZero(0);
        assert Eliminate(ts, last.place)[..n] == less;
        AddCancels(last.place, last.place);
        MulZero(last.coef);
        MulZero(Pow(last.place, i));
        AddZero(PowerSum(less, i));
      }
      SparseVanishes(less, d - 1);
      forall k | 0 <= k < n ensures ts[k].coef == 0 {
        assert less[k].coef == 0;
        AddCancels(last.place, ts[k].place);
        if ts[k].coef != 0 { NoZeroDivisors(ts[k].coef, Add(last.place, ts[k].place)); }
      }
      ZeroSum(rest, 0);
      assert PowerSum(ts, 0) == 0;
      AddZero(Mul(last.coef, 1));
      MulUnit(last.coef);
    }
  }

  lemma {:induction false} ZeroSum(ts: seq<Term>, i: nat)
    requires forall k :: 0 <= k < |ts| ==> ts[k].coef == 0
    ensures PowerSum(ts, i) == 0
    decreases |ts|
  {
    hide Add, Mul;
    if ts != [] {
      ZeroSum(ts[..|ts| - 1], i);
      MulZero(Pow(ts[|ts| - 1].place, i));
      AddZero(0);
    }
  }

  // ---- Words ----

  /** The number of bytes that are not zero. */
  function Weight(w: Poly): nat {
    if w == [] then 0 else Weight(w[1..]) + if w[0] == 0 then 0 else 1
  }

  function Distance(v: Poly, w: Poly): nat
    requires |v| == |w|
  {
    if v == [] then 0 else Distance(v[1..], w[1..]) + if v[0] == w[0] then 0 else 1
  }

  /** The nonzero bytes of a word with their places, the lowest place first. */
  function Terms(w: Poly): seq<Term> {
    if w == [] then []
    else if w[0] == 0 then Terms(w[1..])
    else Terms(w[1..]) + [Term(w[0], Alpha(|w| - 1))]
  }

  lemma {:induction false} PowOfAlpha(k: nat, i: nat)
    ensures Pow(Alpha(k), i) == Alpha(k * i)
    decreases i
  {
    hide Mul, Alpha;
    if i == 0 {
      AlphaOne();
      assert k * i == 0;
    } else {
      PowOfAlpha(k, i - 1);
      AlphaSum(k * (i - 1), k);
      assert k * (i - 1) + k == k * i;
    }
  }

  lemma {:induction false} TermsEvaluate(w: Poly, i: nat)
    ensures PowerSum(Terms(w), i) == Eval(w, Alpha(i))
    decreases |w|
  {
    hide Add, Mul, Alpha;
    if w != [] {
      TermsEvaluate(w[1..], i);
      RegisterValue(w, Alpha(i));
      var m := |w| - 1;
      PowOfAlpha(i, m);
      PowOfAlpha(m, i);
      assert i * m == m * i;
      var e := Eval(w[1..], Alpha(i));
      if w[0] == 0 {
        MulZero(Pow(Alpha(i), m));
        AddZero(e);
      } else {
        var last := Term(w[0], Alpha(m));
        assert (Terms(w[1..]) + [last])[..|Terms(w[1..])|] == Terms(w[1..]);
        AddCommutative(e, Mul(w[0], Pow(Alpha(i), m)));
      }
    }
  }

  ghost predicate IsPlaceBelow(place: bv8, n: nat) {
    exists m: nat :: m < n && place == Alpha(m)
  }

  lemma {:induction false} TermsShape(w: Poly)
    ensures |Terms(w)| == Weight(w)
    ensures forall k :: 0 <= k < |Terms(w)| ==> Terms(w)[k].coef != 0
    ensures forall k :: 0 <= k < |Terms(w)| ==> IsPlaceBelow(Terms(w)[k].place, |w|)
    ensures |w| <= 255 ==> DistinctPlaces(Terms(w))
    decreases |w|
  {
    hide Mul, Alpha;
    if w != [] {
      var rest := Terms(w[1..]);
      TermsShape(w[1..]);
      assert forall k :: 0 <= k < |rest| ==> IsPlaceBelow(rest[k].place, |w| - 1);
      if w[0] != 0 {
        var last := Alpha(|w| - 1);
        assert Terms(w) == rest + [Term(w[0], last)];
        assert IsPlaceBelow(last, |w|);
        if |w| <= 255 {
          forall k | 0 <= k < |rest| ensures rest[k].place != last {
            var m: nat :| m < |w| - 1 && rest[k].place == Alpha(m);
            AlphaDistinct(m, |w| - 1);
          }
        }
      }
    }
  }

  /** A codeword that is not all zeros has more than deg nonzero bytes. */
  lemma CodewordWeight(w: Poly, deg: nat)
    requires |w| <= 255 && IsCodeword(w, deg) && Weight(w) != 0
    ensures Weight(w) > deg
  {
    hide Mul, Alpha, Eval;
    TermsShape(w);
    assert Terms(w)[0].coef != 0;
    if Weight(w) <= deg {
      forall i: nat | i < deg ensures PowerSum(Terms(w), i) == 0 {
        TermsEvaluate(w, i);
      }
      SparseVanishes(Terms(w), deg);
    }
  }

  lemma {:induction false} DistanceIsWeight(v: Poly, w: Poly)
    requires |v| == |w|
    ensures Distance(v, w) == Weight(PolyAdd(v, w))
    ensures Distance(v, w) == 0 <==> v == w
    decreases |v|
  {
    hide Add;
    if v != [] {
      AddCancels(v[0], w[0]);
      assert PolyAdd(v, w)[1..] == PolyAdd(v[1..], w[1..]);
      DistanceIsWeight(v[1..], w[1..]);
      assert v == [v[0]] + v[1..] && w == [w[0]] + w[1..];
    }
  }

  /** Two codewords of one length differ in more than deg places, or not at all. */
  lemma CodewordsFarApart(v: Poly, w: Poly, deg: nat)
    requires |v| == |w| <= 255 && IsCodeword(v, deg) && IsCodeword(w, deg) && v != w
    ensures Distance(v, w) > deg
  {
    hide Add, Alpha, Eval;
    var sum := PolyAdd(v, w);
    forall i: nat | i < deg ensures Eval(sum, Alpha(i)) == 0 {
      EvalAdd(v, w, Alpha(i));
      AddZero(0);
    }
    DistanceIsWeight(v, w);
    CodewordWeight(sum, deg);
  }

  lemma {:induction false} DistanceTriangle(u: Poly, v: Poly, w: Poly)
    requires |u| == |v| == |w|
    ensures Distance(u, w) <= Distance(u, v) + Distance(v, w)
    ensures Distance(u, v) == Distance(v, u)
    decreases |u|
  {
    if u != [] { DistanceTriangle(u[1..], v[1..], w[1..]); }
  }

  /** At most deg / 2 damaged bytes of a block leave it nearer to what was sent than to any
      other block: the block is recovered by taking the nearest. */
  lemma DamageIsRepairable(data: seq<bv8>, other: seq<bv8>, received: Poly, deg: nat)
    requires deg >= 1 && |data| == |other| && |data| + deg <= 255 && |received| == |data| + deg
    requires 2 * Distance(data + Remainder(data, Generator(deg)[1..]), received) <= deg
    requires other != data
    ensures Distance(other + Remainder(other, Generator(deg)[1..]), received)
          > Distance(data + Remainder(data, Generator(deg)[1..]), received)
  {
    hide Generator, Remainder;
    var gen := Generator(deg)[1..];
    var sent, wrong := data + Remainder(data, gen), other + Remainder(other, gen);
    BlockIsCodeword(data, deg);
    BlockIsCodeword(other, deg);
    assert sent[..|data|] == data && wrong[..|data|] == other;
    CodewordsFarApart(sent, wrong, deg);
    DistanceTriangle(sent, received, wrong);
    DistanceTriangle(received, wrong, sent);
  }

  /** The remainder is the only tail that makes a codeword of the data. */
  lemma RemainderUnique(data: seq<bv8>, tail: Poly, deg: nat)
    requires deg >= 1 && |tail| == deg && |data| + deg <= 255
    ensures IsCodeword(data + tail, deg) <==> tail == Remainder(data, Generator(deg)[1..])
  {
    hide Generator, Remainder, Add, Mul;
    var rem := Remainder(data, Generator(deg)[1..]);
    BlockIsCodeword(data, deg);
    if IsCodeword(data + tail, deg) && tail != rem {
      assert (data + tail)[|data|..] == tail && (data + rem)[|data|..] == rem;
      CodewordsFarApart(data + tail, data + rem, deg);
      SharedPrefix(data, tail, rem);
      assert false;
    }
  }

  lemma {:induction false} SharedPrefix(p: Poly, v: Poly, w: Poly)
    requires |v| == |w|
    ensures Distance(p + v, p + w) <= |v|
    decreases |p|
  {
    if p == [] {
      assert p + v == v && p + w == w;
      DistanceBound(v, w);
    } else {
      assert (p + v)[1..] == p[1..] + v && (p + w)[1..] == p[1..] + w;
      SharedPrefix(p[1..], v, w);
    }
  }

  lemma {:induction false} DistanceBound(v: Poly, w: Poly)
    requires |v| == |w|
    ensures Distance(v, w) <= |v|
    decreases |v|
  {
    if v != [] { DistanceBound(v[1..], w[1..]); }
  }
}
