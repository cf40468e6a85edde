/** sorted() of a set of strings: code point order, as Python compares them. */
module Ordering {

  predicate Leq(a: string, b: string) {
    if a == [] then true
    else if b == [] then false
    else a[0] < b[0] || (a[0] == b[0] && Leq(a[1..], b[1..]))
  }

  lemma {:induction false} LeqTotal(a: string, b: string)
    ensures Leq(a, a) && (Leq(a, b) || Leq(b, a))
    ensures Leq(a, b) && Leq(b, a) ==> a == b
    decreases |a|
  {
    if a != [] {
      LeqTotal(a[1..], if b == [] then [] else b[1..]);
      if b != [] && a[0] == b[0] && a[1..] == b[1..] {
        assert a == [a[0]] + a[1..] && b == [b[0]] + b[1..];
      }
    }
  }

  lemma {:induction false} LeqTransitive(a: string, b: string, c: string)
    requires Leq(a, b) && Leq(b, c)
    ensures Leq(a, c)
    decreases |a|
  {
    if a != [] && b != [] && c != [] && a[0] == b[0] == c[0] {
      LeqTransitive(a[1..], b[1..], c[1..]);
    }
  }

  predicate IsLeast(m: string, s: set<string>) {
    m in s && forall x :: x in s ==> Leq(m, x)
  }

  lemma {:induction false} LeastExists(s: set<string>)
    requires s != {}
    ensures exists m :: IsLeast(m, s)
    decreases |s|
  {
    var x :| x in s;
    var rest := s - {x};
    LeqTotal(x, x);
    if rest == {} {
      assert s == {x};
      assert IsLeast(x, s);
    } else {
      LeastExists(rest);
      var m :| IsLeast(m, rest);
      LeqTotal(x, m);
      if Leq(x, m) {
        forall y | y in s ensures Leq(x, y) {
          if y != x { LeqTransitive(x, m, y); }
        }
        assert IsLeast(x, s);
      } else {
        forall y | y in s ensures Leq(m, y) {
          if y != x { assert y in rest; }
        }
        assert IsLeast(m, s);
      }
    }
  }

  lemma LeastUnique(s: set<string>, a: string, b: string)
    requires IsLeast(a, s) && IsLeast(b, s)
    ensures a == b
  {
    LeqTotal(a, b);
  }

  function Least(s: set<string>): (m: string)
    requires s != {}
    ensures IsLeast(m, s)
  {
    LeastExists(s);
    assert forall a, b | IsLeast(a, s) && IsLeast(b, s) :: a == b by {
      forall a, b | IsLeast(a, s) && IsLeast(b, s) ensures a == b { LeastUnique(s, a, b); }
    }
    var m :| m in s && IsLeast(m, s);
    m
  }

  function Sorted(s: set<string>): (r: seq<string>)
    ensures forall x :: x in r <==> x in s
    ensures forall i :: 0 <= i < |r| ==> r[i] in s
    ensures forall i, j :: 0 <= i < j < |r| ==> r[i] != r[j]
    ensures r == [] <==> s == {}
    decreases |s|
  {
    if s == {} then [] else
      var m := Least(s);
      var rest := Sorted(s - {m});
      assert forall i :: 0 <= i < |rest| ==> rest[i] in rest;
      [m] + rest
  }

  lemma SortedStep(s: set<string>)
    requires s != {}
    ensures IsLeast(Least(s), s) && Sorted(s) == [Least(s)] + Sorted(s - {Least(s)})
  {}

  /** Sorted() is in order. */
  lemma {:induction false} SortedInOrder(s: set<string>, i: nat, j: nat)
    requires i < j < |Sorted(s)|
    ensures Leq(Sorted(s)[i], Sorted(s)[j])
    decreases |s|
  {
    hide Least, Leq, Sorted;
    SortedStep(s);
    var m := Least(s);
    var rest := Sorted(s - {m});
    if i > 0 {
      SortedInOrder(s - {m}, i - 1, j - 1);
    } else {
      assert rest[j - 1] in s;
    }
  }

  function Elems(s: seq<string>): set<string> {
    set e | e in s
  }

  lemma SortedElems(s: set<string>)
    ensures Elems(Sorted(s)) == s
  {}

  // ---- Numbers ----

  predicate IsMinimum(m: nat, s: set<nat>) {
    m in s && forall x :: x in s ==> m <= x
  }

  lemma {:induction false} MinimumExists(s: set<nat>)
    requires s != {}
    ensures exists m :: IsMinimum(m, s)
    decreases |s|
  {
    var x :| x in s;
    var rest := s - {x};
    if rest == {} {
      assert s == {x};
      assert IsMinimum(x, s);
    } else {
      MinimumExists(rest);
      var m :| IsMinimum(m, rest);
      var least := if x < m then x else m;
      forall y | y in s ensures least <= y {
        if y != x { assert y in rest; }
      }
      assert IsMinimum(least, s);
    }
  }

  function Minimum(s: set<nat>): (m: nat)
    requires s != {}
    ensures IsMinimum(m, s)
  {
    MinimumExists(s);
    var m :| m in s && IsMinimum(m, s);
    m
  }

  /** sorted() of a set of numbers. */
  function Ascending(s: set<nat>): (r: seq<nat>)
    ensures forall x :: x in r <==> x in s
    decreases |s|
  {
    if s == {} then [] else
      var m := Minimum(s);
      [m] + Ascending(s - {m})
  }

  lemma {:induction false} AscendingInOrder(s: set<nat>)
    ensures forall i, j :: 0 <= i < j < |Ascending(s)| ==> Ascending(s)[i] < Ascending(s)[j]
    decreases |s|
  {
    if s != {} {
      var m := Minimum(s);
      var rest := Ascending(s - {m});
      AscendingInOrder(s - {m});
      forall j | 0 <= j < |rest| ensures m < rest[j] {
        assert rest[j] in rest;
      }
      assert Ascending(s) == [m] + rest;
    }
  }

  // ---- By a number, then by name ----

  predicate Before(a: string, b: string, order: map<string, int>)
    requires a in order && b in order
  {
    order[a] < order[b] || (order[a] == order[b] && Leq(a, b))
  }

  predicate IsFirst(m: string, s: set<string>, order: map<string, int>)
    requires s <= order.Keys
  {
    m in s && forall x :: x in s ==> Before(m, x, order)
  }

  lemma {:induction false} FirstExists(s: set<string>, order: map<string, int>)
    requires s != {} && s <= order.Keys
    ensures exists m :: IsFirst(m, s, order)
    decreases |s|
  {
    hide Leq;
    var x :| x in s;
    var rest := s - {x};
    LeqTotal(x, x);
    if rest == {} {
      assert s == {x};
      assert IsFirst(x, s, order);
    } else {
      FirstExists(rest, order);
      var m :| IsFirst(m, rest, order);
      LeqTotal(x, m);
      var first := if Before(x, m, order) then x else m;
      forall y | y in s ensures Before(first, y, order) {
        if y != x && first == x { BeforeTransitive(x, m, y, order); }
      }
      assert IsFirst(first, s, order);
    }
  }

  lemma BeforeTransitive(a: string, b: string, c: string, order: map<string, int>)
    requires a in order && b in order && c in order && Before(a, b, order) && Before(b, c, order)
    ensures Before(a, c, order)
  {
    hide Leq;
    if Leq(a, b) && Leq(b, c) { LeqTransitive(a, b, c); }
  }

  lemma FirstUnique(s: set<string>, order: map<string, int>, a: string, b: string)
    requires s <= order.Keys && IsFirst(a, s, order) && IsFirst(b, s, order)
    ensures a == b
  {
    LeqTotal(a, b);
  }

  function First(s: set<string>, order: map<string, int>): (m: string)
    requires s != {} && s <= order.Keys
    ensures IsFirst(m, s, order)
  {
    FirstExists(s, order);
    assert forall a, b | IsFirst(a, s, order) && IsFirst(b, s, order) :: a == b by {
      forall a, b | IsFirst(a, s, order) && IsFirst(b, s, order) ensures a == b { FirstUnique(s, order, a, b); }
    }
    var m :| m in s && IsFirst(m, s, order);
    m
  }

  /** sorted() of a set of strings by their number, then themselves. */
  function Ranked(s: set<string>, order: map<string, int>): (r: seq<string>)
    requires s <= order.Keys
    ensures forall x :: x in r <==> x in s
    ensures forall i :: 0 <= i < |r| ==> r[i] in s
    decreases |s|
  {
    if s == {} then [] else
      var m := First(s, order);
      var rest := Ranked(s - {m}, order);
      assert forall i :: 0 <= i < |rest| ==> rest[i] in rest;
      [m] + rest
  }

  /** Ranked() is in order, each once. */
  lemma {:induction false} RankedInOrder(s: set<string>, order: map<string, int>, i: nat, j: nat)
    requires s <= order.Keys && i < j < |Ranked(s, order)|
    ensures Ranked(s, order)[i] != Ranked(s, order)[j] && Before(Ranked(s, order)[i], Ranked(s, order)[j], order)
    decreases |s|
  {
    hide Leq, First;
    var m := First(s, order);
    var rest := Ranked(s - {m}, order);
    if i > 0 {
      RankedInOrder(s - {m}, order, i - 1, j - 1);
    } else {
      assert rest[j - 1] in s - {m};
    }
  }
}
