/** The backend's own check of a fetched subscription (class _Checker of
    fetch-subscription.py): a batch the backend refuses loses the entry its error names, or is
    bisected when the error names none, within a budget of runs. */
module SubscriptionCheck {
  import opened Arithmetic

  const MAX_CHECK_RUNS: nat := 256

  datatype Outbound = Outbound(tag: string, body: string)

  datatype Kind = SingBox | XRay

  /** What one run of the backend says. Stalled covers a timeout and a binary that cannot run. */
  datatype Verdict = Accepted | RefusedAtIndex(index: nat) | RefusedTag(tag: string) | RefusedUnnamed | Stalled

  /** What refused() makes of it: None, an index, -1, or the _OutOfBudget / OSError exception. */
  datatype Answer = Taken | At(index: nat) | Unnamed | GaveUp

  // ---- What the filter is for ----

  /** The entries the backend takes, in order. */
  function Good(bad: Outbound -> bool, s: seq<Outbound>): seq<Outbound> {
    if s == [] then []
    else if bad(s[0]) then Good(bad, s[1..])
    else [s[0]] + Good(bad, s[1..])
  }

  function BadCount(bad: Outbound -> bool, s: seq<Outbound>): nat {
    if s == [] then 0 else (if bad(s[0]) then 1 else 0) + BadCount(bad, s[1..])
  }

  /** small is what is left of big after dropping some of its entries. */
  ghost predicate Subsequence(small: seq<Outbound>, big: seq<Outbound>) {
    if small == [] then true
    else if big == [] then false
    else (small[0] == big[0] && Subsequence(small[1..], big[1..])) || Subsequence(small, big[1..])
  }

  function CeilLog2(n: nat): nat
    requires n >= 1
  {
    if n == 1 then 0 else 1 + CeilLog2((n + 1) / 2)
  }

  function Runs(b: nat, deep: nat): nat {
    1 + 2 * b * deep
  }

  /** The runs a batch may take: none for an empty one, else 1 + 2 * bad * ceil(log2 n). */
  function Cost(bad: Outbound -> bool, s: seq<Outbound>): nat {
    if s == [] then 0 else Runs(BadCount(bad, s), CeilLog2(|s|))
  }

  /** One run for the batch, and at most two for each bad entry and each halving that leads to it. */
  lemma CostMeaning(bad: Outbound -> bool, s: seq<Outbound>)
    ensures s == [] ==> Cost(bad, s) == 0
    ensures s != [] ==> Cost(bad, s) <= 1 + 2 * (BadCount(bad, s) * CeilLog2(|s|))
  {
    hide BadCount, CeilLog2;
    if s != [] { Doubled(BadCount(bad, s), CeilLog2(|s|)); }
  }

  lemma Doubled(a: nat, b: nat)
    ensures 2 * a * b == 2 * (a * b)
  {}

  // ---- Facts about them ----

  /** CeilLog2 is the least exponent whose power of two reaches n. */
  lemma {:induction false} CeilLog2Meaning(n: nat, k: nat)
    requires n >= 1
    ensures n <= Pow2(k) <==> CeilLog2(n) <= k
    decreases n
  {
    if n == 1 {
    } else if k == 0 {
    } else {
      CeilLog2Meaning((n + 1) / 2, k - 1);
    }
  }

  lemma {:induction false} CeilLog2Monotone(m: nat, n: nat)
    requires 1 <= m <= n
    ensures CeilLog2(m) <= CeilLog2(n)
    decreases n
  {
    if m > 1 {
      CeilLog2Monotone((m + 1) / 2, (n + 1) / 2);
    }
  }

  lemma {:induction false} GoodConcat(bad: Outbound -> bool, a: seq<Outbound>, b: seq<Outbound>)
    ensures Good(bad, a + b) == Good(bad, a) + Good(bad, b)
    ensures BadCount(bad, a + b) == BadCount(bad, a) + BadCount(bad, b)
  {
    if a == [] {
      assert a + b == b;
    } else {
      assert (a + b)[1..] == a[1..] + b;
      GoodConcat(bad, a[1..], b);
    }
  }

  /** Dropping one bad entry keeps every good one and lowers the count of bad ones. */
  lemma GoodWithout(bad: Outbound -> bool, s: seq<Outbound>, i: nat)
    requires i < |s| && bad(s[i])
    ensures Good(bad, s[..i] + s[i + 1..]) == Good(bad, s)
    ensures BadCount(bad, s[..i] + s[i + 1..]) == BadCount(bad, s) - 1
  {
    assert s == s[..i] + ([s[i]] + s[i + 1..]);
    GoodConcat(bad, s[..i], [s[i]] + s[i + 1..]);
    GoodConcat(bad, s[..i], s[i + 1..]);
    assert ([s[i]] + s[i + 1..])[1..] == s[i + 1..];
  }

  lemma {:induction false} AllGood(bad: Outbound -> bool, s: seq<Outbound>)
    ensures BadCount(bad, s) == 0 <==> forall i :: 0 <= i < |s| ==> !bad(s[i])
    ensures BadCount(bad, s) == 0 ==> Good(bad, s) == s
    ensures BadCount(bad, s) <= |s|
  {
    if s != [] {
      AllGood(bad, s[1..]);
      assert BadCount(bad, s) == 0 ==> forall i :: 0 < i < |s| ==> s[i] == s[1..][i - 1];
      assert forall i :: 0 <= i < |s[1..]| ==> s[1..][i] == s[i + 1];
    }
  }

  lemma {:induction false} SubsequenceReflexive(s: seq<Outbound>)
    ensures Subsequence(s, s)
  {
    if s != [] { SubsequenceReflexive(s[1..]); }
  }

  lemma SubsequenceLonger(a: seq<Outbound>, b: seq<Outbound>, x: Outbound)
    requires Subsequence(a, b)
    ensures Subsequence(a, [x] + b)
  {
    assert ([x] + b)[1..] == b;
  }

  lemma {:induction false} SubsequenceTransitive(a: seq<Outbound>, b: seq<Outbound>, c: seq<Outbound>)
    requires Subsequence(a, b) && Subsequence(b, c)
    ensures Subsequence(a, c)
    decreases |c|
  {
    if a != [] {
      if Subsequence(b, c[1..]) {
        SubsequenceTransitive(a, b, c[1..]);
      } else if a[0] == b[0] && Subsequence(a[1..], b[1..]) {
        SubsequenceTransitive(a[1..], b[1..], c[1..]);
      } else {
        SubsequenceTransitive(a, b[1..], c[1..]);
      }
    }
  }

  lemma {:induction false} SubsequenceConcat(a: seq<Outbound>, b: seq<Outbound>, c: seq<Outbound>, d: seq<Outbound>)
    requires Subsequence(a, b) && Subsequence(c, d)
    ensures Subsequence(a + c, b + d)
    decreases |b|
  {
    if b == [] {
      assert a + c == c && b + d == d;
    } else {
      assert (b + d)[1..] == b[1..] + d;
      if a != [] && a[0] == b[0] && Subsequence(a[1..], b[1..]) {
        SubsequenceConcat(a[1..], b[1..], c, d);
        assert (a + c)[1..] == a[1..] + c;
      } else {
        SubsequenceConcat(a, b[1..], c, d);
      }
    }
  }

  lemma SubsequenceWithout(s: seq<Outbound>, i: nat)
    requires i < |s|
    ensures Subsequence(s[..i] + s[i + 1..], s)
  {
    SubsequenceReflexive(s[..i]);
    SubsequenceReflexive(s[i + 1..]);
    SubsequenceLonger(s[i + 1..], s[i + 1..], s[i]);
    SubsequenceConcat(s[..i], s[..i], s[i + 1..], [s[i]] + s[i + 1..]);
    assert s[..i] + ([s[i]] + s[i + 1..]) == s;
  }

  /** Bisecting pays for itself: one run, then both halves, within the whole batch's bound. */
  lemma BisectCost(bad: Outbound -> bool, s: seq<Outbound>, middle: nat)
    requires |s| >= 2 && middle == |s| / 2 && BadCount(bad, s) >= 1
    ensures 1 + Cost(bad, s[..middle]) + Cost(bad, s[middle..]) <= Cost(bad, s)
  {
    hide Good, BadCount, CeilLog2, Runs;
    var l, r := s[..middle], s[middle..];
    assert s == l + r;
    GoodConcat(bad, l, r);
    CeilLog2Step(|s|);
    CeilLog2Monotone(|l|, (|s| + 1) / 2);
    CeilLog2Monotone(|r|, (|s| + 1) / 2);
    HalvesCost(BadCount(bad, l), BadCount(bad, r), CeilLog2(|l|), CeilLog2(|r|), CeilLog2(|s|));
  }

  lemma HalvesCost(bl: nat, br: nat, x: nat, y: nat, deep: nat)
    requires x < deep && y < deep && bl + br >= 1
    ensures 1 + Runs(bl, x) + Runs(br, y) <= Runs(bl + br, deep)
  {
    MulMonotone(2 * bl, x, deep - 1);
    MulMonotone(2 * br, y, deep - 1);
    assert 2 * bl * (deep - 1) + 2 * br * (deep - 1) == 2 * (bl + br) * deep - 2 * (bl + br);
  }

  lemma MulMonotone(b: nat, x: nat, y: nat)
    requires x <= y
    ensures b * x <= b * y
  {}

  /** So does dropping a named entry: one run, then the rest. */
  lemma DropCost(bad: Outbound -> bool, s: seq<Outbound>, i: nat)
    requires i < |s| && bad(s[i])
    ensures 1 + Cost(bad, s[..i] + s[i + 1..]) <= Cost(bad, s)
  {
    hide Good, BadCount, CeilLog2, Runs;
    CeilLog2Small();
    RunsPositive(BadCount(bad, s), CeilLog2(|s|));
    var rest := s[..i] + s[i + 1..];
    GoodWithout(bad, s, i);
    if rest != [] {
      CeilLog2Monotone(|rest|, |s|);
      CeilLog2Monotone(2, |s|);
      RestCost(BadCount(bad, rest), CeilLog2(|rest|), CeilLog2(|s|));
    }
  }

  lemma RunsPositive(b: nat, deep: nat)
    ensures Runs(b, deep) >= 1
  {}

  lemma CeilLog2Step(n: nat)
    requires n >= 2
    ensures CeilLog2(n) == 1 + CeilLog2((n + 1) / 2)
  {}

  lemma CeilLog2Small()
    ensures CeilLog2(1) == 0 && CeilLog2(2) == 1
  {}

  lemma CostPositive(bad: Outbound -> bool, s: seq<Outbound>)
    requires s != []
    ensures Cost(bad, s) >= 1
  {}

  lemma GoodOfFew(bad: Outbound -> bool, s: seq<Outbound>)
    ensures s == [] ==> Good(bad, s) == []
    ensures |s| == 1 && BadCount(bad, s) >= 1 ==> Good(bad, s) == []
    ensures Subsequence([], s)
  {}

  lemma RestCost(b: nat, x: nat, deep: nat)
    requires x <= deep && deep >= 1
    ensures 1 + Runs(b, x) <= Runs(b + 1, deep)
  {
    MulMonotone(2 * b, x, deep);
    assert 2 * (b + 1) * deep == 2 * b * deep + 2 * deep;
  }

  // ---- The checker ----

  /** The entry an answer is about: the one it names, or the only one there was. */
  function NamedBy(answer: Answer, batch: seq<Outbound>): multiset<Outbound> {
    if answer.At? && answer.index < |batch| then multiset{batch[answer.index]}
    else if answer == Unnamed && |batch| == 1 then multiset{batch[0]}
    else multiset{}
  }

  /** What is kept, and what has been named by then, make up what there was and had been. */
  ghost predicate Accounted(outbounds: seq<Outbound>, before: multiset<Outbound>, kept: seq<Outbound>,
      named: multiset<Outbound>)
  {
    forall o :: multiset(kept)[o] + named[o] == multiset(outbounds)[o] + before[o]
  }

  lemma WithoutNamed(s: seq<Outbound>, before: multiset<Outbound>, answer: Answer)
    ensures answer.At? && answer.index < |s| ==>
              Accounted(s, before, s[..answer.index] + s[answer.index + 1..], before + NamedBy(answer, s))
    ensures answer == Unnamed && |s| == 1 ==> Accounted(s, before, [], before + NamedBy(answer, s))
    ensures !answer.At? && !(answer == Unnamed && |s| == 1) ==> before + NamedBy(answer, s) == before
  {
    if answer.At? && answer.index < |s| {
      assert s == s[..answer.index] + [s[answer.index]] + s[answer.index + 1..];
    }
    if |s| == 1 { assert s == [s[0]]; }
  }

  /** What a batch comes to: nothing the backend takes is lost, the order stays, and gone is exactly
      what has been named. */
  ghost predicate Filtered(bad: Outbound -> bool, outbounds: seq<Outbound>, before: multiset<Outbound>,
      kept: seq<Outbound>, named: multiset<Outbound>)
  {
    Good(bad, kept) == Good(bad, outbounds) && Subsequence(kept, outbounds) && Accounted(outbounds, before, kept, named)
  }

  lemma FilteredNone(bad: Outbound -> bool, s: seq<Outbound>, x: multiset<Outbound>)
    ensures Filtered(bad, s, x, s, x)
  {
    SubsequenceReflexive(s);
  }

  /** After an answer about the whole batch: an entry named, or refused alone, goes. */
  lemma FilteredNamed(bad: Outbound -> bool, s: seq<Outbound>, x: multiset<Outbound>, answer: Answer)
    requires answer.At? ==> answer.index < |s| && bad(s[answer.index])
    requires answer == Unnamed ==> BadCount(bad, s) >= 1
    ensures answer.At? ==>
              Filtered(bad, s, x, s[..answer.index] + s[answer.index + 1..], x + NamedBy(answer, s))
    ensures answer == Unnamed && |s| == 1 ==> Filtered(bad, s, x, [], x + NamedBy(answer, s))
    ensures !answer.At? && !(answer == Unnamed && |s| == 1) ==> x + NamedBy(answer, s) == x
  {
    hide BadCount, Good, Subsequence;
    WithoutNamed(s, x, answer);
    GoodOfFew(bad, s);
    GoodOfFew(bad, []);
    if answer.At? {
      GoodWithout(bad, s, answer.index);
      SubsequenceWithout(s, answer.index);
    }
  }

  lemma FilteredThen(bad: Outbound -> bool, a: seq<Outbound>, x: multiset<Outbound>, b: seq<Outbound>,
      y: multiset<Outbound>, c: seq<Outbound>, z: multiset<Outbound>)
    requires Filtered(bad, a, x, b, y) && Filtered(bad, b, y, c, z)
    ensures Filtered(bad, a, x, c, z)
  {
    hide Good, Subsequence;
    SubsequenceTransitive(c, b, a);
  }

  lemma FilteredHalves(bad: Outbound -> bool, s: seq<Outbound>, middle: nat, x: multiset<Outbound>,
      left: seq<Outbound>, y: multiset<Outbound>, right: seq<Outbound>, z: multiset<Outbound>)
    requires middle <= |s| && Filtered(bad, s[..middle], x, left, y) && Filtered(bad, s[middle..], y, right, z)
    ensures Filtered(bad, s, x, left + right, z)
  {
    hide Good, Subsequence, Accounted;
    GoodConcat(bad, left, right);
    GoodConcat(bad, s[..middle], s[middle..]);
    SubsequenceConcat(left, s[..middle], right, s[middle..]);
    AccountedHalves(s, middle, x, left, y, right, z);
    assert s[..middle] + s[middle..] == s;
  }

  lemma AccountedHalves(s: seq<Outbound>, middle: nat, x: multiset<Outbound>, left: seq<Outbound>,
      y: multiset<Outbound>, right: seq<Outbound>, z: multiset<Outbound>)
    requires middle <= |s| && Accounted(s[..middle], x, left, y) && Accounted(s[middle..], y, right, z)
    ensures Accounted(s, x, left + right, z)
  {
    assert s == s[..middle] + s[middle..];
    assert multiset(s) == multiset(s[..middle]) + multiset(s[middle..]);
    assert multiset(left + right) == multiset(left) + multiset(right);
  }

  class Checker {
    const kind: Kind
    /** The entries the backend refuses: it accepts exactly the batches without one. */
    const bad: Outbound -> bool
    /** Whether every run finishes before the deadline. */
    const prompt: bool
    var runs: nat
    /** The entries the backend has named, or refused alone. */
    ghost var named: multiset<Outbound>

    constructor (kind: Kind, bad: Outbound -> bool, prompt: bool)
      ensures runs == 0 && named == multiset{} && this.kind == kind && this.bad == bad && this.prompt == prompt
    {
      this.kind, this.bad, this.prompt, runs, named := kind, bad, prompt, 0, multiset{};
    }

    /** One run of the backend, as far as it is known: it accepts exactly the batches with no
        bad entry, and an error that names an entry of the batch names a bad one. A sing-box
        index past the batch, or a tag no entry has, names none. */
    method RunBackend(batch: seq<Outbound>) returns (v: Verdict)
      ensures v == Accepted ==> forall i :: 0 <= i < |batch| ==> !bad(batch[i])
      ensures v.RefusedAtIndex? || v.RefusedTag? || v == RefusedUnnamed ==>
        exists i :: 0 <= i < |batch| && bad(batch[i])
      ensures v.RefusedAtIndex? ==> kind == SingBox && (v.index < |batch| ==> bad(batch[v.index]))
      ensures v.RefusedTag? ==> kind == XRay && forall i :: 0 <= i < |batch| && batch[i].tag == v.tag ==> bad(batch[i])
      ensures prompt ==> v != Stalled
    {
      var late: bool := *;
      if late && !prompt {
        return Stalled;
      }
      if forall i | 0 <= i < |batch| :: !bad(batch[i]) {
        return Accepted;
      }
      var index: nat, tag: string := *, *;
      var names: bool := *;
      if names && kind == SingBox && (index < |batch| ==> bad(batch[index])) {
        return RefusedAtIndex(index);
      }
      if names && kind == XRay && forall i | 0 <= i < |batch| :: batch[i].tag == tag ==> bad(batch[i]) {
        return RefusedTag(tag);
      }
      return RefusedUnnamed;
    }

    method Refused(batch: seq<Outbound>) returns (answer: Answer)
      modifies this
      ensures old(runs) <= runs <= old(runs) + 1
      ensures answer == Taken ==> BadCount(bad, batch) == 0
      ensures answer.At? ==> answer.index < |batch| && bad(batch[answer.index])
      ensures named == old(named) + NamedBy(answer, batch)
      ensures answer == Unnamed ==> BadCount(bad, batch) >= 1
      ensures prompt && old(runs) < MAX_CHECK_RUNS ==> answer != GaveUp
      ensures old(runs) <= MAX_CHECK_RUNS ==> runs <= MAX_CHECK_RUNS
    {
      AllGood(bad, batch);
      var past: bool := *;
      if runs >= MAX_CHECK_RUNS || (past && !prompt) {
        return GaveUp;
      }
      runs := runs + 1;
      var verdict := RunBackend(batch);
      match verdict {
        case Stalled => return GaveUp;
        case Accepted => return Taken;
        case RefusedAtIndex(i) =>
          if i < |batch| {
            named := named + multiset{batch[i]};
            return At(i);
          }
        case RefusedTag(tag) =>
          for i := 0 to |batch|
            invariant named == old(named)
          {
            if batch[i].tag == tag {
              named := named + multiset{batch[i]};
              return At(i);
            }
          }
        case RefusedUnnamed =>
      }
      named := named + NamedBy(Unnamed, batch);
      return Unnamed;
    }

    method Keep(outbounds: seq<Outbound>) returns (kept: seq<Outbound>)
      modifies this
      // Whatever happens, nothing the backend takes is lost and the order stays.
      ensures Good(bad, kept) == Good(bad, outbounds) && Subsequence(kept, outbounds)
      // Every entry that was named, or refused alone, is gone, and nothing else.
      ensures multiset(kept) + named == multiset(outbounds) + old(named)
      // With budget left, exactly those stay.
      ensures prompt && old(runs) + 1 + Cost(bad, outbounds) <= 256 ==> kept == Good(bad, outbounds)
      ensures runs <= old(runs) + 1 + Cost(bad, outbounds)
      ensures old(runs) <= 256 ==> runs <= 256
    {
      hide BadCount;
      SubsequenceReflexive(outbounds);
      AllGood(bad, []);
      if outbounds == [] {
        return outbounds;
      }
      var works := Refused([]);
      if works != Taken {
        return outbounds;
      }
      kept := KeepBatch(outbounds);
    }

    method KeepBatch(outbounds: seq<Outbound>) returns (kept: seq<Outbound>)
      modifies this
      ensures Filtered(bad, outbounds, old(named), kept, named)
      ensures prompt && old(runs) + Cost(bad, outbounds) <= MAX_CHECK_RUNS ==> kept == Good(bad, outbounds)
      ensures runs <= old(runs) + Cost(bad, outbounds)
      ensures old(runs) <= MAX_CHECK_RUNS ==> runs <= MAX_CHECK_RUNS
      decreases |outbounds|
    {
      hide Good, BadCount, Subsequence, Cost, Accounted, NamedBy;
      var batch := outbounds;
      FilteredNone(bad, outbounds, named);
      while batch != []
        invariant |batch| <= |outbounds| && Filtered(bad, outbounds, old(named), batch, named)
        invariant runs + Cost(bad, batch) <= old(runs) + Cost(bad, outbounds)
        invariant old(runs) <= MAX_CHECK_RUNS ==> runs <= MAX_CHECK_RUNS
        decreases |batch|
      {
        AllGood(bad, batch);
        CostPositive(bad, batch);
        GoodOfFew(bad, batch);
        ghost var before := named;
        var refused := Refused(batch);
        FilteredNamed(bad, batch, before, refused);
        match refused {
          case GaveUp => return batch;
          case Taken => return batch;
          case At(i) =>
            DropCost(bad, batch, i);
            var rest := batch[..i] + batch[i + 1..];
            FilteredThen(bad, outbounds, old(named), batch, before, rest, named);
            batch := rest;
          case Unnamed =>
            if |batch| == 1 {
              FilteredThen(bad, outbounds, old(named), batch, before, [], named);
              return [];
            }
            var middle := |batch| / 2;
            BisectCost(bad, batch, middle);
            GoodConcat(bad, batch[..middle], batch[middle..]);
            assert batch[..middle] + batch[middle..] == batch;
            var left := KeepBatch(batch[..middle]);
            ghost var between := named;
            var right := KeepBatch(batch[middle..]);
            FilteredHalves(bad, batch, middle, before, left, between, right, named);
            FilteredThen(bad, outbounds, old(named), batch, before, left + right, named);
            return left + right;
        }
      }
      GoodOfFew(bad, []);
      return batch;
    }
  }
}
