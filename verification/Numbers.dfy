/** Numbers and addresses of runtime users (number_users in inbound_runtime.py). */
module Numbers {
  import opened Wrappers
  import opened Ordering

  /** Addresses to give out of: how many the IPv4 subnet has and its first, and whether there is an
      IPv6 prefix, whose last group is the number. */
  datatype Source = Source(base: nat, size: Option<nat>, v6: bool)

  datatype Numbered = Numbered(name: string, number: int)

  const LAST_GROUP := 0xFFFF

  /** The least number from k on that is not taken. */
  function LeastFree(taken: set<int>, k: int): (n: int)
    ensures n >= k && n !in taken
    ensures forall j :: k <= j < n ==> j in taken
    decreases |Above(taken, k)|
  {
    if k !in taken then k
    else
      assert k in Above(taken, k) && Above(taken, k + 1) == Above(taken, k) - {k};
      LeastFree(taken, k + 1)
  }

  function Above(taken: set<int>, k: int): set<int> {
    set j | j in taken && j >= k
  }

  /** Neither the network's address nor the broadcast, and four hex digits at most. */
  predicate Fits(s: Source, n: int) {
    (s.size.Some? ==> n + 2 <= s.size.value) && (s.v6 ==> n <= LAST_GROUP)
  }

  datatype State = State(numbered: seq<Numbered>, taken: set<int>)

  /** The users in order, each with the next free number from their own on, if it fits. */
  function Number(s: Source, names: seq<string>, order: map<string, int>, taken: set<int>): State
    requires forall i :: 0 <= i < |names| ==> names[i] in order
  {
    if names == [] then State([], taken)
    else
      var before, name := Number(s, names[..|names| - 1], order, taken), names[|names| - 1];
      var n := LeastFree(before.taken, order[name]);
      if Fits(s, n) then State(before.numbered + [Numbered(name, n)], before.taken + {n}) else before
  }

  method NumberUsers(s: Source, users: set<string>, order: map<string, int>, declared: set<int>)
      returns (numbered: seq<Numbered>)
    requires users <= order.Keys
    ensures numbered == if s.size == None && !s.v6 then []
                        else Number(s, Ranked(users, order), order, declared).numbered
  {
    hide LeastFree, Number, Ranked, Above;
    numbered := [];
    if s.size == None && !s.v6 {
      return;
    }
    var names := Ranked(users, order);
    var taken := declared;
    NumberNone(s, names, order, declared);
    for i := 0 to |names|
      invariant Number(s, names[..i], order, declared) == State(numbered, taken)
    {
      NumberStep(s, names, order, declared, i);
      var name := names[i];
      var number := order[name];
      while number in taken
        invariant number >= order[name] && LeastFree(taken, number) == LeastFree(taken, order[name])
        decreases |Above(taken, number)|
      {
        OneUp(taken, number);
        number := number + 1;
      }
      Landed(taken, number);
      if s.size.Some? && number + 2 > s.size.value {
        continue;
      }
      if s.v6 && number > LAST_GROUP {
        continue;
      }
      taken := taken + {number};
      numbered := numbered + [Numbered(name, number)];
    }
    assert names[..|names|] == names;
  }

  lemma NumberNone(s: Source, names: seq<string>, order: map<string, int>, declared: set<int>)
    ensures Number(s, names[..0], order, declared) == State([], declared)
  {}

  lemma NumberStep(s: Source, names: seq<string>, order: map<string, int>, declared: set<int>, i: nat)
    requires i < |names| && forall k :: 0 <= k < |names| ==> names[k] in order
    ensures var before, name := Number(s, names[..i], order, declared), names[i];
            var n := LeastFree(before.taken, order[name]);
            Number(s, names[..i + 1], order, declared)
            == if Fits(s, n) then State(before.numbered + [Numbered(name, n)], before.taken + {n}) else before
  {
    hide LeastFree, Fits;
    assert names[..i + 1][..i] == names[..i];
  }

  lemma OneUp(taken: set<int>, k: int)
    requires k in taken
    ensures LeastFree(taken, k) == LeastFree(taken, k + 1) && |Above(taken, k + 1)| < |Above(taken, k)|
  {
    assert k in Above(taken, k) && Above(taken, k + 1) == Above(taken, k) - {k};
  }

  lemma Landed(taken: set<int>, k: int)
    requires k !in taken
    ensures LeastFree(taken, k) == k
  {}

  // ---- What it gives ----

  /** Later users have orders no less. */
  ghost predicate InOrder(names: seq<string>, order: map<string, int>)
    requires forall i :: 0 <= i < |names| ==> names[i] in order
  {
    forall i, j :: 0 <= i < j < |names| ==> order[names[i]] <= order[names[j]]
  }

  /** Every number is below the next. */
  ghost predicate Rising(numbered: seq<Numbered>) {
    forall i, j :: 0 <= i < j < |numbered| ==> numbered[i].number < numbered[j].number
  }

  /** Up to each number, from the order of its user on, all are taken. */
  ghost predicate Packed(st: State, order: map<string, int>) {
    forall i :: 0 <= i < |st.numbered| ==>
      st.numbered[i].name in order
      && forall j :: order[st.numbered[i].name] <= j <= st.numbered[i].number ==> j in st.taken
  }

  lemma {:induction false} NumberFacts(s: Source, names: seq<string>, order: map<string, int>, declared: set<int>)
    requires (forall i :: 0 <= i < |names| ==> names[i] in order) && InOrder(names, order)
    ensures var st := Number(s, names, order, declared);
            Rising(st.numbered) && Packed(st, order) && declared <= st.taken
            && (forall i :: 0 <= i < |st.numbered| ==>
                  st.numbered[i].name in names && st.numbered[i].number !in declared && Fits(s, st.numbered[i].number)
                  && order[st.numbered[i].name] <= st.numbered[i].number)
    decreases |names|
  {
    hide LeastFree;
    if names != [] {
      var rest, name := names[..|names| - 1], names[|names| - 1];
      NumberFacts(s, rest, order, declared);
      var before := Number(s, rest, order, declared);
      var n := LeastFree(before.taken, order[name]);
      forall i | 0 <= i < |before.numbered| ensures before.numbered[i].number < n {
        var x := before.numbered[i];
        var k :| 0 <= k < |rest| && rest[k] == x.name;
        assert order[names[k]] <= order[name];
        if n <= x.number {
          assert false;
        }
      }
      assert forall x :: x in rest ==> x in names;
    }
  }

  /** A user's number is the least from their order on that neither a declared user nor an earlier
      runtime user has: every one below it is a declared user's, or an earlier one's. */
  lemma {:induction false} NumberIsLeast(s: Source, names: seq<string>, order: map<string, int>, declared: set<int>,
      i: nat,
      n: int)
    requires forall k :: 0 <= k < |names| ==> names[k] in order
    requires i < |Number(s, names, order, declared).numbered|
    requires var x := Number(s, names, order, declared).numbered[i]; x.name in order && order[x.name] <= n < x.number
    ensures n in declared || exists j :: 0 <= j < i && Number(s, names, order, declared).numbered[j].number == n
    decreases |names|
  {
    hide LeastFree, Fits;
    if names != [] {
      var rest, name := names[..|names| - 1], names[|names| - 1];
      var before, after := Number(s, rest, order, declared), Number(s, names, order, declared);
      if i < |before.numbered| {
        NumberIsLeast(s, rest, order, declared, i, n);
        if n !in declared {
          var j :| 0 <= j < i && before.numbered[j].number == n;
          assert after.numbered[j].number == n;
        }
      } else {
        TakenBy(s, rest, order, declared, n);
        if n !in declared {
          var j :| 0 <= j < |before.numbered| && before.numbered[j].number == n;
          assert after.numbered[j].number == n;
        }
      }
    }
  }

  lemma {:induction false} TakenBy(s: Source, names: seq<string>, order: map<string, int>, declared: set<int>, n: int)
    requires forall k :: 0 <= k < |names| ==> names[k] in order
    ensures var st := Number(s, names, order, declared);
            n in st.taken <==> n in declared || exists j :: 0 <= j < |st.numbered| && st.numbered[j].number == n
    decreases |names|
  {
    hide LeastFree, Fits;
    if names != [] {
      var rest := names[..|names| - 1];
      TakenBy(s, rest, order, declared, n);
      var before, after := Number(s, rest, order, declared), Number(s, names, order, declared);
      assert forall j :: 0 <= j < |before.numbered| ==> after.numbered[j] == before.numbered[j];
      if after != before { assert after.numbered[|before.numbered|].number in after.taken; }
    }
  }

  /** A number fits exactly if it is below the subnet's last address, and has four hex digits at most. */
  lemma FitsMeaning(s: Source, n: int)
    ensures Fits(s, n) <==> (s.size.Some? ==> n < s.size.value - 1) && (s.v6 ==> n < 0x1_0000)
  {}

  /** A user goes without only if the least number that was free for them does not fit. */
  lemma {:induction false} LeftOut(s: Source, names: seq<string>, order: map<string, int>, declared: set<int>, k: nat)
    requires (forall i :: 0 <= i < |names| ==> names[i] in order) && k < |names|
    ensures var st, at := Number(s, names, order, declared), Number(s, names[..k], order, declared);
            var n := LeastFree(at.taken, order[names[k]]);
            if Fits(s, n) then |at.numbered| < |st.numbered| && st.numbered[|at.numbered|] == Numbered(names[k], n)
            else Number(s, names[..k + 1], order, declared) == at
    decreases |names|
  {
    hide LeastFree, Fits;
    assert names[..k + 1][..k] == names[..k];
    if k < |names| - 1 {
      var rest := names[..|names| - 1];
      assert rest[..k] == names[..k] && rest[..k + 1] == names[..k + 1];
      LeftOut(s, rest, order, declared, k);
    } else {
      assert names[..k + 1] == names;
    }
  }

  lemma RankedRises(users: set<string>, order: map<string, int>)
    requires users <= order.Keys
    ensures InOrder(Ranked(users, order), order)
  {
    hide Ranked;
    forall i, j | 0 <= i < j < |Ranked(users, order)|
      ensures order[Ranked(users, order)[i]] <= order[Ranked(users, order)[j]]
    {
      RankedInOrder(users, order, i, j);
    }
  }

  /** Numbers rise in (order, name) sequence, none is a declared user's, and with orders from 1 on
      each IPv4 address is in the subnet, neither its network's nor its broadcast. */
  lemma NumberingSound(s: Source, users: set<string>, order: map<string, int>, declared: set<int>)
    requires users <= order.Keys && forall u :: u in users ==> order[u] >= 1
    ensures var numbered := Number(s, Ranked(users, order), order, declared).numbered;
            Rising(numbered)
            && (forall i :: 0 <= i < |numbered| ==>
                  numbered[i].name in users && numbered[i].number !in declared
                      && numbered[i].number >= order[numbered[i].name]
                  && (s.size.Some? ==> s.base < s.base + numbered[i].number < s.base + s.size.value - 1)
                  && (s.v6 ==> numbered[i].number < 0x1_0000))
  {
    hide LeastFree, Ranked;
    RankedRises(users, order);
    NumberFacts(s, Ranked(users, order), order, declared);
  }
}
