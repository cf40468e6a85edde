/** Numbers as they are printed and read. */
module Decimal {

  function Digit(d: nat): char
    requires d < 10
  {
    "0123456789"[d]
  }

  predicate IsDigit(c: char) { '0' <= c <= '9' }

  function Show(n: nat): (s: string)
    ensures s != []
    ensures forall i :: 0 <= i < |s| ==> IsDigit(s[i])
  {
    if n < 10 then [Digit(n)] else Show(n / 10) + [Digit(n % 10)]
  }

  predicate AllDigits(s: string) {
    forall i :: 0 <= i < |s| ==> IsDigit(s[i])
  }

  function Read(s: string): nat
    requires AllDigits(s)
  {
    if s == [] then 0 else 10 * Read(s[..|s| - 1]) + (s[|s| - 1] as int - '0' as int)
  }

  lemma {:induction false} ReadShow(n: nat)
    ensures Read(Show(n)) == n
    decreases n
  {
    if n >= 10 {
      ReadShow(n / 10);
      assert Show(n)[..|Show(n)| - 1] == Show(n / 10);
    }
  }

  function Zeros(k: nat): string { seq(k, _ => '0') }

  lemma {:induction false} ReadZeros(k: nat, s: string)
    requires AllDigits(s)
    ensures AllDigits(Zeros(k) + s) && Read(Zeros(k) + s) == Read(s)
    decreases |s|, k
  {
    if s != [] {
      ReadZeros(k, s[..|s| - 1]);
      assert (Zeros(k) + s)[..k + |s| - 1] == Zeros(k) + s[..|s| - 1];
    } else if k > 0 {
      ReadZeros(k - 1, s);
      assert Zeros(k)[..k - 1] == Zeros(k - 1);
      assert Zeros(k) + s == Zeros(k) && Zeros(k - 1) + s == Zeros(k - 1);
    }
  }

  /** Digits are a number as it is printed, after any zeros. */
  lemma {:induction false} DigitsShow(s: string) returns (k: nat)
    requires s != [] && AllDigits(s)
    ensures s == Zeros(k) + Show(Read(s))
    decreases |s|
  {
    hide Show, Read, Zeros;
    var rest, last := s[..|s| - 1], s[|s| - 1];
    LastDigit(s);
    if rest == [] {
      k := 0;
      assert s == [last];
      NoZeros(k);
    } else {
      k := DigitsShow(rest);
      assert s == rest + [last];
      if Read(rest) == 0 {
        NoZeros(k);
        k := k + 1;
      }
    }
  }

  lemma NoZeros(k: nat)
    ensures Zeros(0) == [] && Zeros(k) + Show(0) == Zeros(k + 1)
  {
    assert Show(0) == ['0'];
  }

  lemma LastDigit(s: string)
    requires s != [] && AllDigits(s)
    ensures var rest, last := s[..|s| - 1], s[|s| - 1];
            AllDigits(rest) && Show(Read(s)) == (if Read(rest) == 0 then [] else Show(Read(rest))) + [last]
            && (rest == [] ==> Read(rest) == 0)
  {
    var rest, d := s[..|s| - 1], s[|s| - 1] as int - '0' as int;
    DigitBack(s[|s| - 1], d);
    assert Read(s) == 10 * Read(rest) + d;
    if Read(rest) > 0 { assert Read(s) / 10 == Read(rest) && Read(s) % 10 == d; }
  }

  lemma DigitBack(c: char, d: nat)
    requires IsDigit(c) && d == c as int - '0' as int
    ensures d < 10 && Digit(d) == c
  {}

  /** Different numbers look different. */
  lemma ShowInjective(a: nat, b: nat)
    requires Show(a) == Show(b)
    ensures a == b
  {
    ReadShow(a);
    ReadShow(b);
  }

  lemma DigitsEnd(s: string, x: string, t: string, y: string)
    requires s + x == t + y && AllDigits(t) && x != [] && !IsDigit(x[0])
    ensures |t| <= |s|
  {
    assert (s + x)[|s|] == x[0];
    if |s| < |t| {
      assert false;
    }
  }

  /** Up to the first character that is no digit, two texts that begin with numbers agree. */
  lemma ShowThen(a: nat, b: nat, x: string, y: string)
    requires x != [] && y != [] && !IsDigit(x[0]) && !IsDigit(y[0])
    requires Show(a) + x == Show(b) + y
    ensures a == b && x == y
  {
    var s, t := Show(a), Show(b);
    DigitsEnd(s, x, t, y);
    DigitsEnd(t, y, s, x);
    assert s == (s + x)[..|s|] == (t + y)[..|t|] == t;
    assert x == (s + x)[|s|..] == (t + y)[|t|..] == y;
    ShowInjective(a, b);
  }
}
