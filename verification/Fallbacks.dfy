/** Runtime listeners that may stay (merge_state in inbound_runtime.py): ports of their own, then
    fallbacks to one another, until nothing changes. */
module Fallbacks {
  import opened Wrappers
  import opened Ordering

  datatype Fallback = Fallback(listener: Option<string>, path: Option<string>)

  datatype Listener = Listener(order: int, port: nat, kind: string, tls: bool, reality: bool, listen: string,
                               transport: string, path: string, fallbacks: seq<Fallback>)

  type Listeners = map<string, Listener>

  // ---- Ports ----

  datatype Problem =
    | Shape(text: string)
    | PortTaken(port: nat)
    | NoTarget(name: string)
    | WrongListener(name: string)
    | WrongPath(name: string)
    | WrongTransport(name: string)
    | AlreadyFronted(name: string, front: string)

  /** Kept, of the listeners in this order: those that check out, on a port that is free then. */
  function KeptPorts(ls: Listeners, tags: seq<string>, declared: set<nat>, bad: map<string, seq<string>>): set<string>
    requires forall i :: 0 <= i < |tags| ==> tags[i] in ls
  {
    if tags == [] then {}
    else
      var before, tag := KeptPorts(ls, tags[..|tags| - 1], declared, bad), tags[|tags| - 1];
      if (tag in bad && bad[tag] != []) || ls[tag].port in declared || PortUsed(ls, before, ls[tag].port) then before
      else before + {tag}
  }

  predicate PortUsed(ls: Listeners, kept: set<string>, port: nat) {
    exists tag :: tag in kept && tag in ls && ls[tag].port == port
  }

  /** Kept listeners have ports of their own, none of them a declared one; whoever else checks
      out found theirs taken. */
  lemma {:induction false} KeptPortsFacts(ls: Listeners, tags: seq<string>, declared: set<nat>,
      bad: map<string, seq<string>>)
    requires forall i :: 0 <= i < |tags| ==> tags[i] in ls
    ensures var kept := KeptPorts(ls, tags, declared, bad);
            (forall t :: t in kept ==> t in tags && t in ls && ls[t].port !in declared && (t in bad ==> bad[t] == []))
            && (forall a, b :: a in kept && b in kept && a != b ==> ls[a].port != ls[b].port)
            && (forall t :: t in tags && t !in kept && (t in bad ==> bad[t] == []) ==>
                  ls[t].port in declared || PortUsed(ls, kept, ls[t].port))
    decreases |tags|
  {
    if tags != [] {
      var rest, tag := tags[..|tags| - 1], tags[|tags| - 1];
      KeptPortsFacts(ls, rest, declared, bad);
      assert tags == rest + [tag];
      var before, kept := KeptPorts(ls, rest, declared, bad), KeptPorts(ls, tags, declared, bad);
      assert before <= kept;
      forall port | PortUsed(ls, before, port) ensures PortUsed(ls, kept, port) {
        var t :| t in before && t in ls && ls[t].port == port;
        assert t in kept;
      }
    }
  }

  /** Some of the listeners. */
  ghost predicate Among(part: Listeners, ls: Listeners) {
    forall t :: t in part ==> t in ls && ls[t] == part[t]
  }

  /** The listeners that check out, each on a port nobody has, in order of their numbers. */
  method PrunePorts(all: Listeners, declared: set<nat>, bad: map<string, seq<string>>)
      returns (ls: Listeners, problems: map<string, seq<Problem>>)
    ensures ls.Keys == KeptPorts(all, Ranked(all.Keys, Orders(all)), declared, bad) && Among(ls, all)
    ensures problems.Keys == all.Keys - ls.Keys && forall t :: t in problems ==> problems[t] != []
  {
    hide KeptPorts, Ranked;
    forall i, j | 0 <= i < j < |Ranked(all.Keys, Orders(all))|
      ensures Ranked(all.Keys, Orders(all))[i] != Ranked(all.Keys, Orders(all))[j]
    {
      RankedInOrder(all.Keys, Orders(all), i, j);
    }
    ls, problems := PruneInOrder(all, Ranked(all.Keys, Orders(all)), declared, bad);
  }

  method PruneInOrder(all: Listeners, tags: seq<string>, declared: set<nat>, bad: map<string, seq<string>>)
      returns (ls: Listeners, problems: map<string, seq<Problem>>)
    requires (forall i :: 0 <= i < |tags| ==> tags[i] in all) && forall t :: t in all ==> t in tags
    requires forall i, j :: 0 <= i < j < |tags| ==> tags[i] != tags[j]
    ensures ls.Keys == KeptPorts(all, tags, declared, bad) && Among(ls, all)
    ensures problems.Keys == all.Keys - ls.Keys && forall t :: t in problems ==> problems[t] != []
  {
    hide PortUsed, PortProblems, KeptPorts, Sorting;
    ghost var kept := {};
    ls, problems := all, map[];
    var used: set<nat> := {};
    NoneUsed(all, declared, bad, tags[..0]);
    for i := 0 to |tags|
      invariant kept == KeptPorts(all, tags[..i], declared, bad)
      invariant forall port :: port in used <==> PortUsed(all, kept, port)
      invariant ls.Keys == all.Keys - problems.Keys && Among(ls, all)
      invariant Sorting(tags[..i], kept, problems)
    {
      var tag := tags[i];
      KeptStep(all, tags, i, declared, bad);
      var port := all[tag].port;
      var why := PortProblems(port, if tag in bad then bad[tag] else [], port in declared || port in used);
      SortingStep(tags, i, kept, problems, why);
      if why != [] {
        ls, problems := ls - {tag}, problems[tag := why];
      } else {
        UsedOneMore(all, kept, tag);
        used, kept := used + {all[tag].port}, kept + {tag};
      }
    }
    assert tags[..|tags|] == tags;
    AllSorted(all, tags, kept, problems);
  }

  lemma KeptStep(ls: Listeners, tags: seq<string>, i: nat, declared: set<nat>, bad: map<string, seq<string>>)
    requires i < |tags| && forall k :: 0 <= k < |tags| ==> tags[k] in ls
    ensures var before, tag := KeptPorts(ls, tags[..i], declared, bad), tags[i];
            KeptPorts(ls, tags[..i + 1], declared, bad)
            == if (tag in bad && bad[tag] != []) || ls[tag].port in declared
            || PortUsed(ls, before, ls[tag].port) then before
               else before + {tag}
  {
    hide PortUsed;
    assert tags[..i + 1][..i] == tags[..i];
  }

  lemma SortingStep(tags: seq<string>, i: nat, kept: set<string>, problems: map<string, seq<Problem>>,
      why: seq<Problem>)
    requires i < |tags| && Sorting(tags[..i], kept, problems)
      && forall k, m :: 0 <= k < m < |tags| ==> tags[k] != tags[m]
    ensures tags[i] !in problems && tags[i] !in kept
    ensures Sorting(tags[..i + 1], kept + {tags[i]}, problems)
    ensures why != [] ==> Sorting(tags[..i + 1], kept, problems[tags[i] := why])
  {
    assert tags[..i + 1] == tags[..i] + [tags[i]] && tags[i] !in tags[..i];
  }

  lemma AllSorted(ls: Listeners, tags: seq<string>, kept: set<string>, problems: map<string, seq<Problem>>)
    requires Sorting(tags, kept, problems) && (forall i :: 0 <= i < |tags| ==> tags[i] in ls)
      && forall t :: t in ls ==> t in tags
    ensures kept == ls.Keys - problems.Keys && problems.Keys <= ls.Keys
      && forall t :: t in problems ==> problems[t] != []
  {}

  /** Each listener seen so far is kept or has a problem. */
  ghost predicate Sorting(done: seq<string>, kept: set<string>, problems: map<string, seq<Problem>>) {
    (forall t :: t in done <==> t in kept || t in problems) && kept !! problems.Keys
    && forall t :: t in problems ==> problems[t] != []
  }

  lemma NoneUsed(ls: Listeners, declared: set<nat>, bad: map<string, seq<string>>, none: seq<string>)
    requires none == []
    ensures forall port :: !PortUsed(ls, {}, port)
    ensures KeptPorts(ls, none, declared, bad) == {} && Sorting(none, {}, map[])
  {}

  function PortProblems(port: nat, bad: seq<string>, taken: bool): (why: seq<Problem>)
    ensures why == [] <==> bad == [] && !taken
  {
    seq(|bad|, k requires 0 <= k < |bad| => Shape(bad[k])) + if taken then [PortTaken(port)] else []
  }

  function Orders(ls: Listeners): map<string, int> {
    map t | t in ls :: ls[t].order
  }

  lemma UsedOneMore(ls: Listeners, kept: set<string>, tag: string)
    requires tag in ls
    ensures forall port :: PortUsed(ls, kept + {tag}, port) <==> PortUsed(ls, kept, port) || port == ls[tag].port
  {
    forall port ensures PortUsed(ls, kept + {tag}, port) <==> PortUsed(ls, kept, port) || port == ls[tag].port {
      if PortUsed(ls, kept, port) {
        var t :| t in kept && t in ls && ls[t].port == port;
        assert t in kept + {tag};
      }
      assert tag in kept + {tag};
    }
  }

  // ---- Fallback targets ----

  function Targets(l: Listener): set<string> {
    set i | 0 <= i < |l.fallbacks| && l.fallbacks[i].listener.Some? :: l.fallbacks[i].listener.value
  }

  /** One fallback's problems, where fronted says which targets are taken and by whom. */
  function FallbackProblems(ls: Listeners, tag: string, fb: Fallback, fronted: map<string, string>): seq<Problem>
    requires tag in ls
  {
    if fb.listener == None then []
    else
      var name := fb.listener.value;
      (if name !in ls || name == tag then [NoTarget(name)] else TargetProblems(ls[tag], fb, name, ls[name]))
      + if name in fronted then [AlreadyFronted(name, fronted[name])] else []
  }

  /** What is wrong with a target: what it is, the path it is asked for by, how REALITY is spoken to it. */
  function TargetProblems(l: Listener, fb: Fallback, name: string, t: Listener): seq<Problem> {
    (if !(t.kind == "vless" && !t.tls && !t.reality && ("127." <= t.listen || t.listen == "::1")) then
       [WrongListener(name)]
     else [])
    + (if fb.path.Some? && !(t.transport in {"ws", "httpupgrade"} && fb.path.value == t.path) then [WrongPath(name)]
       else [])
    + if l.reality && t.transport !in {"xhttp", "grpc"} then [WrongTransport(name)] else []
  }

  function Problems(ls: Listeners, tag: string, n: nat, fronted: map<string, string>): seq<Problem>
    requires tag in ls && n <= |ls[tag].fallbacks|
  {
    if n == 0 then []
    else Problems(ls, tag, n - 1, fronted) + FallbackProblems(ls, tag, ls[tag].fallbacks[n - 1], fronted)
  }

  predicate Fine(ls: Listeners, tag: string, fronted: map<string, string>)
    requires tag in ls
  {
    Problems(ls, tag, |ls[tag].fallbacks|, fronted) == []
  }

  function Taken(l: Listener, tag: string, fronted: map<string, string>): map<string, string> {
    fronted + map t | t in Targets(l) :: tag
  }

  /** What the first n listeners front. */
  function FrontedBy(ls: Listeners, tags: seq<string>, n: nat): map<string, string>
    requires n <= |tags| && forall i :: 0 <= i < |tags| ==> tags[i] in ls
  {
    if n == 0 then map[] else Taken(ls[tags[n - 1]], tags[n - 1], FrontedBy(ls, tags, n - 1))
  }

  /** The first listener from the n-th on with a problem; |tags| when there is none. */
  function FirstBad(ls: Listeners, tags: seq<string>, n: nat): (k: nat)
    requires n <= |tags| && forall i :: 0 <= i < |tags| ==> tags[i] in ls
    ensures n <= k <= |tags|
    decreases |tags| - n
  {
    if n == |tags| then n
    else if Fine(ls, tags[n], FrontedBy(ls, tags, n)) then FirstBad(ls, tags, n + 1)
    else n
  }

  function Survivors(ls: Listeners): (r: Listeners)
    decreases |ls|
  {
    var tags := Sorted(ls.Keys);
    var k := FirstBad(ls, tags, 0);
    if k == |tags| then ls
    else
      Smaller(ls, tags[k]);
      Survivors(ls - {tags[k]})
  }

  lemma Smaller(ls: Listeners, tag: string)
    requires tag in ls
    ensures |ls - {tag}| < |ls|
  {
    assert (ls - {tag}).Keys == ls.Keys - {tag};
    assert |ls.Keys| == |(ls - {tag}).Keys| + 1;
  }

  /** Again and again: the first with a problem goes, until none has one. */
  method PruneFallbacks(all: Listeners) returns (ls: Listeners, problems: map<string, seq<Problem>>)
    ensures ls == Survivors(all)
    ensures problems.Keys == all.Keys - ls.Keys && forall t :: t in problems ==> problems[t] != []
  {
    hide FirstBad, Sorted, Survivors;
    ls, problems := all, map[];
    var changed := true;
    while changed
      invariant Survivors(ls) == Survivors(all) && ls.Keys <= all.Keys
      invariant problems.Keys == all.Keys - ls.Keys && forall t :: t in problems ==> problems[t] != []
      invariant !changed ==> ls == Survivors(ls)
      decreases |ls|, changed
    {
      var tag, why := OnePass(ls);
      SurvivorsStep(ls);
      changed := tag.Some?;
      if changed {
        Smaller(ls, tag.value);
        problems, ls := problems[tag.value := why], ls - {tag.value};
      }
    }
  }

  method OnePass(ls: Listeners) returns (bad: Option<string>, why: seq<Problem>)
    ensures var tags := Sorted(ls.Keys);
            bad == if FirstBad(ls, tags, 0) == |tags| then None else Some(tags[FirstBad(ls, tags, 0)])
    ensures bad.Some? ==> why != []
  {
    hide Problems, FallbackProblems, Taken, Sorted;
    var tags := Sorted(ls.Keys);
    var fronted: map<string, string> := map[];
    why := [];
    for i := 0 to |tags|
      invariant fronted == FrontedBy(ls, tags, i) && FirstBad(ls, tags, 0) == FirstBad(ls, tags, i)
    {
      var tag := tags[i];
      why := Problems(ls, tag, |ls[tag].fallbacks|, fronted);
      if why != [] {
        return Some(tag), why;
      }
      fronted := Taken(ls[tag], tag, fronted);
    }
    bad := None;
  }

  // ---- What survives ----

  /** Every fallback's target is there and fits. */
  ghost predicate Supported(ls: Listeners, tag: string)
    requires tag in ls
  {
    forall i :: 0 <= i < |ls[tag].fallbacks| && ls[tag].fallbacks[i].listener.Some? ==>
      TargetThere(ls, tag, ls[tag].fallbacks[i])
  }

  /** A target a fallback may lead to: plain VLESS on loopback; over WebSocket or HTTPUpgrade at the
      fallback's path, if it has one; over XHTTP or gRPC, if the fallback is REALITY's. */
  predicate FitsBehind(l: Listener, fb: Fallback, t: Listener) {
    t.kind == "vless" && !t.tls && !t.reality
    && (t.listen == "::1" || (|t.listen| >= 4 && t.listen[..4] == "127."))
    && (fb.path == None || ((t.transport == "ws" || t.transport == "httpupgrade") && t.path == fb.path.value))
    && (l.reality ==> t.transport == "xhttp" || t.transport == "grpc")
  }

  lemma TargetFits(l: Listener, fb: Fallback, name: string, t: Listener)
    ensures TargetProblems(l, fb, name, t) == [] <==> FitsBehind(l, fb, t)
  {
    assert "127." <= t.listen <==> |t.listen| >= 4 && t.listen[..4] == "127.";
  }

  ghost predicate TargetThere(ls: Listeners, tag: string, fb: Fallback)
    requires tag in ls && fb.listener.Some?
  {
    fb.listener.value in ls && fb.listener.value != tag && FitsBehind(ls[tag], fb, ls[fb.listener.value])
  }

  ghost predicate AllSupported(ls: Listeners) {
    forall tag :: tag in ls ==> Supported(ls, tag)
  }

  /** No target is behind two listeners. */
  ghost predicate OneFrontEach(ls: Listeners) {
    forall a, b :: a in ls && b in ls && a != b ==> Targets(ls[a]) !! Targets(ls[b])
  }

  lemma {:induction false} ProblemsNone(ls: Listeners, tag: string, n: nat, fronted: map<string, string>)
    requires tag in ls && n <= |ls[tag].fallbacks|
    ensures Problems(ls, tag, n, fronted) == [] <==>
      forall i :: 0 <= i < n && ls[tag].fallbacks[i].listener.Some? ==>
        TargetThere(ls, tag, ls[tag].fallbacks[i]) && ls[tag].fallbacks[i].listener.value !in fronted
  {
    hide FitsBehind, TargetProblems;
    if n > 0 {
      ProblemsNone(ls, tag, n - 1, fronted);
      var fb := ls[tag].fallbacks[n - 1];
      if fb.listener.Some? && fb.listener.value in ls {
        TargetFits(ls[tag], fb, fb.listener.value, ls[fb.listener.value]);
      }
    }
  }

  lemma FineMeaning(ls: Listeners, tag: string, fronted: map<string, string>)
    requires tag in ls
    ensures Fine(ls, tag, fronted) <==> Supported(ls, tag) && forall t :: t in Targets(ls[tag]) ==> t !in fronted
  {
    hide FitsBehind, TargetProblems, Problems, TargetThere;
    ProblemsNone(ls, tag, |ls[tag].fallbacks|, fronted);
  }

  lemma {:induction false} FrontedByMeaning(ls: Listeners, tags: seq<string>, n: nat, t: string)
    requires n <= |tags| && forall i :: 0 <= i < |tags| ==> tags[i] in ls
    ensures t in FrontedBy(ls, tags, n) <==> exists i :: 0 <= i < n && t in Targets(ls[tags[i]])
  {
    hide Targets;
    if n > 0 { FrontedByMeaning(ls, tags, n - 1, t); }
  }

  lemma {:induction false} FirstBadFine(ls: Listeners, tags: seq<string>, n: nat, i: nat)
    requires n <= i < |tags| && (forall j :: 0 <= j < |tags| ==> tags[j] in ls) && i < FirstBad(ls, tags, n)
    ensures Fine(ls, tags[i], FrontedBy(ls, tags, i))
    decreases |tags| - n
  {
    hide Fine, FrontedBy;
    if i > n { FirstBadFine(ls, tags, n + 1, i); }
  }

  lemma {:induction false} FirstBadBad(ls: Listeners, tags: seq<string>, n: nat)
    requires n <= |tags| && (forall j :: 0 <= j < |tags| ==> tags[j] in ls) && FirstBad(ls, tags, n) < |tags|
    ensures !Fine(ls, tags[FirstBad(ls, tags, n)], FrontedBy(ls, tags, FirstBad(ls, tags, n)))
    decreases |tags| - n
  {
    hide Fine, FrontedBy;
    if n < |tags| && Fine(ls, tags[n], FrontedBy(ls, tags, n)) { FirstBadBad(ls, tags, n + 1); }
  }

  /** With no listener left to drop, all are supported, each target by one front. */
  lemma NoneBad(ls: Listeners)
    requires FirstBad(ls, Sorted(ls.Keys), 0) == |ls.Keys| == |Sorted(ls.Keys)|
    ensures AllSupported(ls) && OneFrontEach(ls)
  {
    hide Supported, FirstBad, Fine, FrontedBy, Targets, Sorted;
    var tags := Sorted(ls.Keys);
    forall tag | tag in ls ensures Supported(ls, tag) {
      var i :| 0 <= i < |tags| && tags[i] == tag;
      FirstBadFine(ls, tags, 0, i);
      FineMeaning(ls, tag, FrontedBy(ls, tags, i));
    }
    forall a, b | a in ls && b in ls && a != b ensures Targets(ls[a]) !! Targets(ls[b]) {
      var i :| 0 <= i < |tags| && tags[i] == a;
      var j :| 0 <= j < |tags| && tags[j] == b;
      if i < j { NotNamedAgain(ls, tags, i, j); } else { NotNamedAgain(ls, tags, j, i); }
    }
  }

  lemma NotNamedAgain(ls: Listeners, tags: seq<string>, i: nat, j: nat)
    requires i < j < |tags| && (forall k :: 0 <= k < |tags| ==> tags[k] in ls) && FirstBad(ls, tags, 0) == |tags|
    ensures Targets(ls[tags[i]]) !! Targets(ls[tags[j]])
  {
    hide Supported, FirstBad, Fine, FrontedBy, Targets;
    FirstBadFine(ls, tags, 0, j);
    FineMeaning(ls, tags[j], FrontedBy(ls, tags, j));
    forall t | t in Targets(ls[tags[i]]) ensures t !in Targets(ls[tags[j]]) {
      FrontedByMeaning(ls, tags, j, t);
    }
  }

  lemma {:induction false} SortedLength(s: set<string>)
    ensures |Sorted(s)| == |s|
    decreases |s|
  {
    if s != {} { SortedLength(s - {Least(s)}); }
  }

  lemma SurvivorsStep(ls: Listeners)
    ensures var k := FirstBad(ls, Sorted(ls.Keys), 0);
            Survivors(ls) == if k == |Sorted(ls.Keys)| then ls else Survivors(ls - {Sorted(ls.Keys)[k]})
  {
    hide FirstBad, Sorted;
  }

  /** What survives is supported within itself, each target behind one front at most. */
  lemma {:induction false} SurvivorsSound(ls: Listeners)
    ensures Survivors(ls).Keys <= ls.Keys && (forall t :: t in Survivors(ls) ==> Survivors(ls)[t] == ls[t])
    ensures AllSupported(Survivors(ls)) && OneFrontEach(Survivors(ls))
    decreases |ls|
  {
    hide Supported, FirstBad, Sorted, Survivors, AllSupported, OneFrontEach;
    var tags := Sorted(ls.Keys);
    var k := FirstBad(ls, tags, 0);
    SurvivorsStep(ls);
    if k == |tags| {
      SortedLength(ls.Keys);
      NoneBad(ls);
    } else {
      Smaller(ls, tags[k]);
      SurvivorsSound(ls - {tags[k]});
    }
  }

  /** A contested target costs the part nothing: of two listeners that name it, the later in order
      is not in the part. */
  ghost predicate LaterFrontsOut(ls: Listeners, part: Listeners) {
    forall a, b :: a in ls && b in part && LaterFront(ls, a, b) ==> a == b
  }

  ghost predicate LaterFront(ls: Listeners, a: string, b: string) {
    a in ls && b in ls && Leq(a, b) && !(Targets(ls[a]) !! Targets(ls[b]))
  }

  /** Whatever is supported within itself survives, if none of it is a later front. */
  lemma {:induction false} SupportedSurvive(ls: Listeners, part: Listeners)
    requires Among(part, ls) && AllSupported(part) && LaterFrontsOut(ls, part)
    ensures Among(part, Survivors(ls))
    decreases |ls|
  {
    hide Supported, FirstBad, Sorted, Survivors, AllSupported, LaterFrontsOut;
    var tags := Sorted(ls.Keys);
    var k := FirstBad(ls, tags, 0);
    SurvivorsStep(ls);
    if k < |tags| {
      Smaller(ls, tags[k]);
      DroppedOutside(ls, part, k);
      FewerFronts(ls, part, tags[k]);
      SupportedSurvive(ls - {tags[k]}, part);
    }
  }

  /** When no target is named by two listeners, whatever is supported within itself survives: what
      is left is the most that could be. */
  lemma SurvivorsLargest(ls: Listeners, part: Listeners)
    requires OneFrontEach(ls) && Among(part, ls) && AllSupported(part)
    ensures Among(part, Survivors(ls))
  {
    hide Supported, Survivors, AllSupported, Leq, Targets;
    SupportedSurvive(ls, part);
  }

  lemma FewerFronts(ls: Listeners, part: Listeners, tag: string)
    requires LaterFrontsOut(ls, part)
    ensures LaterFrontsOut(ls - {tag}, part)
  {
    hide Targets, Leq;
    forall a, b | a in ls - {tag} && b in part && LaterFront(ls - {tag}, a, b) ensures a == b {
      assert LaterFront(ls, a, b);
    }
  }

  /** What a pass drops is not supported, or a later front. */
  lemma DroppedOutside(ls: Listeners, part: Listeners, k: nat)
    requires Among(part, ls) && AllSupported(part) && LaterFrontsOut(ls, part)
    requires k == FirstBad(ls, Sorted(ls.Keys), 0) < |Sorted(ls.Keys)|
    ensures Sorted(ls.Keys)[k] !in part
  {
    hide FirstBad, Sorted, Fine, FrontedBy, Targets, Supported, LaterFront;
    var tags := Sorted(ls.Keys);
    FirstBadBad(ls, tags, 0);
    FineMeaning(ls, tags[k], FrontedBy(ls, tags, k));
    if tags[k] in part {
      SupportedMore(ls, part, tags[k]);
      var t :| t in Targets(ls[tags[k]]) && t in FrontedBy(ls, tags, k);
      var i := EarlierFront(ls, k, t);
      assert false;
    }
  }

  lemma EarlierFront(ls: Listeners, k: nat, t: string) returns (i: nat)
    requires k < |Sorted(ls.Keys)| && t in Targets(ls[Sorted(ls.Keys)[k]]) && t in FrontedBy(ls, Sorted(ls.Keys), k)
    ensures i < k && LaterFront(ls, Sorted(ls.Keys)[i], Sorted(ls.Keys)[k])
  {
    hide Sorted, FrontedBy, Targets, Leq;
    var tags := Sorted(ls.Keys);
    FrontedByMeaning(ls, tags, k, t);
    i :| 0 <= i < k && t in Targets(ls[tags[i]]);
    SortedInOrder(ls.Keys, i, k);
  }

  lemma SupportedMore(ls: Listeners, part: Listeners, tag: string)
    requires Among(part, ls) && tag in part && Supported(part, tag)
    ensures Supported(ls, tag)
  {
    hide FitsBehind, TargetProblems;
    forall i | 0 <= i < |ls[tag].fallbacks| && ls[tag].fallbacks[i].listener.Some?
      ensures TargetThere(ls, tag, ls[tag].fallbacks[i])
    {
      assert TargetThere(part, tag, part[tag].fallbacks[i]);
    }
  }

  /** After both loops, ports are apart still. */
  lemma MergedPorts(all: Listeners, declared: set<nat>, bad: map<string, seq<string>>, ls: Listeners)
    requires ls.Keys == KeptPorts(all, Ranked(all.Keys, Orders(all)), declared, bad) && Among(ls, all)
    ensures forall a :: a in Survivors(ls) ==> Survivors(ls)[a].port !in declared
    ensures forall a, b :: a in Survivors(ls) && b in Survivors(ls) && a != b ==>
      Survivors(ls)[a].port != Survivors(ls)[b].port
  {
    hide KeptPorts, Ranked, Survivors;
    KeptPortsFacts(all, Ranked(all.Keys, Orders(all)), declared, bad);
    SurvivorsSound(ls);
  }

  // ---- When a target is named twice ----

  function Plain(targets: seq<string>): Listener {
    Listener(1, 443, "vless", false, false, "::1", "raw", "",
             seq(|targets|, i requires 0 <= i < |targets| => Fallback(Some(targets[i]), None)))
  }

  lemma SortedCons(m: string, rest: set<string>)
    requires m !in rest && forall x :: x in rest ==> Leq(m, x)
    ensures Sorted({m} + rest) == [m] + Sorted(rest)
  {
    hide Leq, Sorted;
    LeqTotal(m, m);
    var s := {m} + rest;
    LeastUnique(s, m, Least(s));
    SortedStep(s);
    assert s - {m} == rest;
  }

  /** Of a and b, which both front c, b is dropped; then d, which nothing supports, takes a along:
      c alone is left, though b could have stayed. */
  const CONTESTED := map["a" := Plain(["c", "d"]), "b" := Plain(["c"]), "c" := Plain([]), "d" := Plain(["e"])]

  lemma LetterOrder()
    ensures Leq("a", "b") && Leq("a", "c") && Leq("a", "d") && Leq("b", "c") && Leq("b", "d") && Leq("c", "d")
    ensures "a" != "b" && "a" != "c" && "a" != "d" && "b" != "c" && "b" != "d" && "c" != "d"
  {
    assert "a"[0] == 'a' && "b"[0] == 'b' && "c"[0] == 'c' && "d"[0] == 'd';
  }

  lemma FourSorted(a: string, b: string, c: string, d: string)
    requires Leq(a, b) && Leq(a, c) && Leq(a, d) && Leq(b, c) && Leq(b, d) && Leq(c, d)
    requires a != b && a != c && a != d && b != c && b != d && c != d
    ensures Sorted({a, b, c, d}) == [a, b, c, d]
  {
    hide Leq, Sorted;
    assert {a} + {b, c, d} == {a, b, c, d} && {b} + {c, d} == {b, c, d} && {c} + {d} == {c, d} && {d} + {} == {d};
    SortedCons(a, {b, c, d});
    SortedCons(b, {c, d});
    SortedCons(c, {d});
    SortedCons(d, {});
  }

  lemma ContestedOrder()
    ensures Sorted(CONTESTED.Keys) == ["a", "b", "c", "d"]
  {
    hide Sorted, Plain, Leq;
    LetterOrder();
    FourSorted("a", "b", "c", "d");
    assert CONTESTED.Keys == {"a", "b", "c", "d"};
  }

  lemma ContestedFirstBad()
    ensures FirstBad(CONTESTED, ["a", "b", "c", "d"], 0) == 1
  {
    hide Fine, FrontedBy;
    ContestedFine();
    ContestedBad();
  }

  lemma ContestedFine()
    ensures Fine(CONTESTED, "a", FrontedBy(CONTESTED, ["a", "b", "c", "d"], 0))
  {
    hide Fine;
    FineMeaning(CONTESTED, "a", map[]);
  }

  lemma ContestedBad()
    ensures !Fine(CONTESTED, "b", FrontedBy(CONTESTED, ["a", "b", "c", "d"], 1))
  {
    hide Fine, FrontedBy, Supported;
    var tags := ["a", "b", "c", "d"];
    FineMeaning(CONTESTED, "b", FrontedBy(CONTESTED, tags, 1));
    assert Plain(["c", "d"]).fallbacks[0].listener.value == "c";
    assert "c" in Targets(CONTESTED[tags[0]]);
    FrontedByMeaning(CONTESTED, tags, 1, "c");
    assert Plain(["c"]).fallbacks[0].listener.value == "c";
  }

  /** b and c, which need nobody else. */
  const UNCONTESTED := map["b" := Plain(["c"]), "c" := Plain([])]

  lemma UncontestedStays()
    ensures AllSupported(UNCONTESTED) && OneFrontEach(UNCONTESTED) && Among(UNCONTESTED, CONTESTED)
  {
    assert Targets(Plain([])) == {};
  }

  lemma LeftUnsupported(left: Listeners)
    requires Among(left, CONTESTED - {"b"}) && AllSupported(left)
    ensures left.Keys <= {"c"}
  {
    if "d" in left {
      TargetIn(left, "d", 0);
      assert false;
    }
    if "a" in left {
      TargetIn(left, "a", 1);
      assert false;
    }
  }

  lemma TargetIn(ls: Listeners, tag: string, i: nat)
    requires AllSupported(ls) && tag in ls && i < |ls[tag].fallbacks| && ls[tag].fallbacks[i].listener.Some?
    ensures ls[tag].fallbacks[i].listener.value in ls
  {
    hide FitsBehind, TargetProblems;
    assert TargetThere(ls, tag, ls[tag].fallbacks[i]);
  }

  /** Named twice, a target can cost a listener its place that it need not have lost. */
  lemma SurvivorsNotLargest()
    ensures Among(UNCONTESTED, CONTESTED) && AllSupported(UNCONTESTED) && OneFrontEach(UNCONTESTED)
    ensures Survivors(CONTESTED).Keys <= {"c"}
  {
    hide Sorted, FirstBad, Survivors, AllSupported, OneFrontEach, CONTESTED, UNCONTESTED;
    UncontestedStays();
    ContestedOrder();
    ContestedFirstBad();
    SurvivorsStep(CONTESTED);
    SurvivorsSound(CONTESTED - {"b"});
    LeftUnsupported(Survivors(CONTESTED));
  }
}
