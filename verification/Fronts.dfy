/** Which listeners a connection may have come through (front_ports in inbound_apply.py). */
module Fronts {
  import opened Wrappers
  import opened Decimal
  import Text

  /** A fallback's dest: a port, or text, or neither. */
  datatype Dest = Port(n: nat) | Words(t: string) | Neither

  /** port: a number, or whatever text it is. */
  datatype Inbound = Inbound(tag: string, port: Dest, listen: Option<string>, fallbacks: seq<Dest>)

  predicate IsBracket(c: char) { c == '[' || c == ']' }

  function Stripped(s: string): string
    decreases |s|
  {
    if s == [] then s
    else if IsBracket(s[0]) then Stripped(s[1..])
    else if IsBracket(s[|s| - 1]) then Stripped(s[..|s| - 1])
    else s
  }

  /** str() of an inbound's port; one that is missing is None, which no dest ends in. */
  predicate IsPort(text: string, port: Dest) {
    match port
    case Port(n) => text == Show(n)
    case Words(t) => text == t
    case Neither => text == "None"
  }

  const LOOPBACK := {"", "localhost", "127.0.0.1", "::1"}

  predicate HostIs(host: string, target: Inbound) { host in LOOPBACK || Some(host) == target.listen }

  /** Whether a fallback's dest is this inbound. */
  predicate LeadsTo(dest: Dest, target: Inbound) {
    match dest
    case Port(n) => IsPort(Show(n), target.port)
    case Words(t) => IsPort(Text.Rest(t, ':'), target.port) && HostIs(Stripped(Text.Front(t, ':')), target)
    case Neither => false
  }

  predicate Bare(s: string) {
    s == [] || (s[0] != '[' && s[0] != ']' && s[|s| - 1] != '[' && s[|s| - 1] != ']')
  }

  predicate Brackets(s: string) {
    forall i :: 0 <= i < |s| ==> s[i] == '[' || s[i] == ']'
  }

  /** Brackets go from both ends, whatever else stays. */
  lemma {:induction false} StrippedMeaning(a: string, s: string, b: string)
    requires Brackets(a) && Bare(s) && Brackets(b)
    ensures Stripped(a + s + b) == s
    decreases |a| + |b|
  {
    if a != [] {
      StrippedMeaning(a[1..], s, b);
      assert (a + s + b)[1..] == a[1..] + s + b;
      assert (a + s + b)[0] == a[0];
    } else if b != [] {
      StrippedEnd(s, b);
    } else {
      assert a + s + b == s;
    }
  }

  lemma {:induction false} StrippedEnd(s: string, b: string)
    requires Bare(s) && Brackets(b)
    ensures Stripped([] + s + b) == s
    decreases |b|
  {
    var all := [] + s + b;
    assert all == s + b;
    if b != [] && s == [] {
      StrippedEnd(s, b[1..]);
      assert all[1..] == [] + s + b[1..] && all[0] == b[0];
    } else if b != [] {
      StrippedEnd(s, b[..|b| - 1]);
      assert all[..|all| - 1] == [] + s + b[..|b| - 1] && all[0] == s[0] && all[|all| - 1] == b[|b| - 1];
    }
  }

  /** A port leads to who has it, as a number or as text. */
  lemma LeadsToPort(n: nat, target: Inbound)
    ensures LeadsTo(Port(n), target) <==> target.port == Port(n) || target.port == Words(Show(n))
  {
    if target.port.Port? && Show(n) == Show(target.port.n) { ShowInjective(n, target.port.n); }
    assert IsDigit(Show(n)[0]) && Show(n) != "None";
  }

  /** A port alone as text leads to who has it. */
  lemma LeadsToText(n: nat, target: Inbound)
    ensures LeadsTo(Words(Show(n)), target) <==> target.port == Port(n) || target.port == Words(Show(n))
  {
    LeadsToPort(n, target);
    assert ':' !in Show(n);
    assert Text.Last(Show(n), ':') == |Show(n)|;
  }

  /** So does a host and a port, with any brackets around the host, that is none, this host's or
      where the listener listens. */
  lemma LeadsToAddress(a: string, host: string, b: string, n: nat, target: Inbound)
    requires Brackets(a) && Bare(host) && Brackets(b)
    ensures LeadsTo(Words(a + host + b + [':'] + Show(n)), target) <==>
              (target.port == Port(n) || target.port == Words(Show(n)))
              && (host == "" || host == "localhost" || host == "127.0.0.1" || host == "::1"
                  || target.listen == Some(host))
  {
    LeadsToPort(n, target);
    StrippedMeaning(a, host, b);
    assert ':' !in Show(n);
    Text.FrontRest(a + host + b, ':', Show(n));
  }

  /** One of front's fallbacks leads to target. */
  predicate Fronting(front: Inbound, target: Inbound) {
    exists i :: 0 <= i < |front.fallbacks| && LeadsTo(front.fallbacks[i], target)
  }

  /** A chain of fallbacks among the inbounds, each leading to the next. */
  ghost predicate Chain(inbounds: seq<Inbound>, path: seq<Inbound>) {
    (forall i :: 0 <= i < |path| - 1 ==> path[i] in inbounds)
    && forall i :: 0 <= i < |path| - 1 ==> Fronting(path[i], path[i + 1])
  }

  ghost predicate ChainFrom(inbounds: seq<Inbound>, front: Inbound, target: Inbound, path: seq<Inbound>) {
    |path| >= 2 && path[0] == front && path[|path| - 1] == target && Chain(inbounds, path)
  }

  ghost predicate Reaches(inbounds: seq<Inbound>, front: Inbound, target: Inbound) {
    exists path :: ChainFrom(inbounds, front, target, path)
  }

  lemma OneLink(inbounds: seq<Inbound>, front: Inbound, target: Inbound)
    requires front in inbounds && Fronting(front, target)
    ensures Reaches(inbounds, front, target)
  {
    assert ChainFrom(inbounds, front, target, [front, target]);
  }

  lemma OneMoreLink(inbounds: seq<Inbound>, front: Inbound, middle: Inbound, target: Inbound)
    requires front in inbounds && Fronting(front, middle) && Reaches(inbounds, middle, target)
    ensures Reaches(inbounds, front, target)
  {
    hide Fronting;
    var path :| ChainFrom(inbounds, middle, target, path);
    var longer := [front] + path;
    assert forall i :: 1 <= i < |longer| ==> longer[i] == path[i - 1];
    assert ChainFrom(inbounds, front, target, longer);
  }

  /** Nothing outside leads in. */
  ghost predicate Closed(inbounds: seq<Inbound>, s: set<Inbound>) {
    forall front, target :: front in inbounds && target in s && Fronting(front, target) ==> front in s
  }

  lemma {:induction false} ClosedHasChain(inbounds: seq<Inbound>, s: set<Inbound>, path: seq<Inbound>)
    requires Closed(inbounds, s) && path != [] && Chain(inbounds, path) && path[|path| - 1] in s
    ensures path[0] in s
    decreases |path|
  {
    hide Fronting;
    if |path| > 1 {
      ClosedHasChain(inbounds, s, path[1..]);
      assert Fronting(path[0], path[1]);
    }
  }

  /** No two inbounds have one tag, nor has any but the target its own. */
  ghost predicate DistinctTags(inbounds: seq<Inbound>, target: Inbound) {
    (forall x, y :: x in inbounds && y in inbounds && x.tag == y.tag ==> x == y)
    && forall x :: x in inbounds && x.tag == target.tag ==> x == target
  }

  /** The inbounds found so far: the target, and those that reach it. */
  ghost predicate Found(inbounds: seq<Inbound>, target: Inbound, found: set<Inbound>, seen: set<string>,
      ports: set<nat>) {
    target in found
    && (forall x :: x in found ==> x.tag in seen && (x == target || (x in inbounds && Reaches(inbounds, x, target))))
    && (forall x :: x in inbounds && x.tag in seen ==> x in found)
    && (forall p :: p in ports <==> PortIn(found, target, p))
  }

  ghost predicate PortIn(found: set<Inbound>, target: Inbound, p: nat) {
    exists x :: x in found && x != target && x.port == Port(p)
  }

  /** Those that lead to any of found, but for todo's, are found. */
  ghost predicate Done(inbounds: seq<Inbound>, found: set<Inbound>, todo: seq<Inbound>) {
    forall front, x :: front in inbounds && x in found && x !in todo && Fronting(front, x) ==> front in found
  }

  method FrontPorts(inbounds: seq<Inbound>, target: Inbound) returns (ports: set<nat>)
    requires DistinctTags(inbounds, target)
    ensures forall p :: p in ports <==>
      exists x :: x in inbounds && x != target && Reaches(inbounds, x, target) && x.port == Port(p)
  {
    hide Fronting, Reaches, PortIn, Found;
    ports := {};
    var seen, todo := {target.tag}, [target];
    ghost var found := {target};
    NothingYet(inbounds, target);
    while todo != []
      invariant Found(inbounds, target, found, seen, ports) && Done(inbounds, found, todo)
      invariant forall x :: x in todo ==> x in found
      invariant found <= Members(inbounds, target)
      decreases |Members(inbounds, target) - found|, |todo|
    {
      var x := todo[|todo| - 1];
      ghost var before := found;
      assert todo == todo[..|todo| - 1] + [x];
      found, seen, todo, ports := AddFronts(inbounds, target, x, found, seen, todo[..|todo| - 1], ports);
      if found != before { FewerLeft(Members(inbounds, target), before, found); }
    }
    assert Closed(inbounds, found);
    FoundAll(inbounds, target, found, seen, ports);
  }

  /** One target's fronts that are not seen yet: seen now, and to do in turn. */
  method AddFronts(inbounds: seq<Inbound>, target: Inbound, x: Inbound, ghost found: set<Inbound>, seen: set<string>,
      todo: seq<Inbound>, ports: set<nat>)
      returns (ghost found': set<Inbound>, seen': set<string>, todo': seq<Inbound>, ports': set<nat>)
    requires DistinctTags(inbounds, target) && Found(inbounds, target, found, seen, ports) && x in found
      && found <= Members(inbounds, target)
    requires Done(inbounds, found, todo + [x]) && forall y :: y in todo ==> y in found
    ensures Found(inbounds, target, found', seen', ports') && Done(inbounds, found', todo')
    ensures (forall y :: y in todo' ==> y in found') && found <= found' <= Members(inbounds, target)
    ensures found' == found ==> todo' == todo
  {
    hide Fronting, Reaches, PortIn, Found, DistinctTags, Done;
    found', seen', todo', ports' := found, seen, todo, ports;
    for i := 0 to |inbounds|
      invariant Found(inbounds, target, found', seen', ports') && Done(inbounds, found', todo' + [x])
      invariant (forall y :: y in todo' ==> y in found') && found <= found' <= Members(inbounds, target)
      invariant forall j :: 0 <= j < i && Fronting(inbounds[j], x) ==> inbounds[j] in found'
      invariant found' == found ==> todo' == todo
    {
      var front := inbounds[i];
      SeenIsFound(inbounds, target, found', seen', ports', front);
      if front.tag !in seen' && Fronting(front, x) {
        FoundOne(inbounds, target, found', seen', ports', x, front);
        DoneOne(inbounds, found', todo', x, front);
        found', seen', todo' := found' + {front}, seen' + {front.tag}, todo' + [front];
        if front.port.Port? {
          ports' := ports' + {front.port.n};
        }
      }
    }
    DoneWith(inbounds, found', todo', x);
  }

  lemma SeenIsFound(inbounds: seq<Inbound>, target: Inbound, found: set<Inbound>, seen: set<string>, ports: set<nat>,
      front: Inbound)
    requires Found(inbounds, target, found, seen, ports) && front in inbounds
    ensures front.tag in seen <==> front in found
  {}

  lemma DoneOne(inbounds: seq<Inbound>, found: set<Inbound>, todo: seq<Inbound>, x: Inbound, front: Inbound)
    requires Done(inbounds, found, todo + [x])
    ensures Done(inbounds, found + {front}, todo + [front] + [x])
  {
    hide Fronting;
    assert forall y :: y in todo + [front] + [x] <==> y in todo + [x] || y == front;
  }

  lemma DoneWith(inbounds: seq<Inbound>, found: set<Inbound>, todo: seq<Inbound>, x: Inbound)
    requires Done(inbounds, found, todo + [x])
      && forall j :: 0 <= j < |inbounds| && Fronting(inbounds[j], x) ==> inbounds[j] in found
    ensures Done(inbounds, found, todo)
  {
    hide Fronting;
    forall front, y | front in inbounds && y in found && y !in todo && Fronting(front, y) ensures front in found {
      if y == x {
        var j :| 0 <= j < |inbounds| && inbounds[j] == front;
      } else {
        assert y !in todo + [x];
      }
    }
  }

  ghost function Members(inbounds: seq<Inbound>, target: Inbound): set<Inbound> {
    {target} + set x | x in inbounds
  }

  lemma NothingYet(inbounds: seq<Inbound>, target: Inbound)
    requires DistinctTags(inbounds, target)
    ensures Found(inbounds, target, {target}, {target.tag}, {})
  {}

  lemma FewerLeft(all: set<Inbound>, before: set<Inbound>, found: set<Inbound>)
    requires before < found <= all
    ensures |all - found| < |all - before|
  {
    assert all - before == (all - found) + (found - before);
    assert found - before != {};
  }

  lemma FoundOne(inbounds: seq<Inbound>, target: Inbound, found: set<Inbound>, seen: set<string>, ports: set<nat>,
      x: Inbound, front: Inbound)
    requires Found(inbounds, target, found, seen, ports) && DistinctTags(inbounds, target)
    requires x in found && front in inbounds && front.tag !in seen && Fronting(front, x)
    ensures Found(inbounds, target, found + {front}, seen + {front.tag},
                  if front.port.Port? then ports + {front.port.n} else ports)
  {
    hide Fronting, Reaches;
    if x == target { OneLink(inbounds, front, target); } else { OneMoreLink(inbounds, front, x, target); }
    var now := if front.port.Port? then ports + {front.port.n} else ports;
    forall p ensures p in now <==> PortIn(found + {front}, target, p) {
      if PortIn(found, target, p) {
        var y :| y in found && y != target && y.port == Port(p);
        assert y in found + {front};
      }
      if front.port == Port(p) { assert front in found + {front} && front != target; }
    }
  }

  /** In the end, exactly those that reach the target. */
  lemma FoundAll(inbounds: seq<Inbound>, target: Inbound, found: set<Inbound>, seen: set<string>, ports: set<nat>)
    requires Found(inbounds, target, found, seen, ports) && Closed(inbounds, found)
    ensures forall p :: p in ports <==>
      exists x :: x in inbounds && x != target && Reaches(inbounds, x, target) && x.port == Port(p)
  {
    hide Fronting;
    forall x | x in inbounds && Reaches(inbounds, x, target) ensures x in found {
      var path :| ChainFrom(inbounds, x, target, path);
      ClosedHasChain(inbounds, found, path);
    }
  }
}
