/** The running XRay's config.json kept as XRay now runs (sync_config in inbound_apply.py). */
module ConfigFile {
  import opened Wrappers
  import opened Ordering
  import opened Reconcile
  import opened Apply

  datatype Config = Config(inbounds: seq<Inbound>, rules: seq<string>, outbounds: seq<Outbound>)

  ghost predicate DistinctTags(inbounds: seq<Inbound>) {
    forall i, j :: 0 <= i < j < |inbounds| ==> inbounds[i].tag != inbounds[j].tag
  }

  /** The config says what r makes XRay run: its listeners and rules, and its outbounds beside
      the others the file has. */
  ghost predicate Says(config: Config, r: Rendering, others: map<string, Outbound>) {
    DistinctTags(config.inbounds)
    && Splits(config.inbounds) == Abs(r).inbounds && config.rules == r.rules
    && others.Keys !! Abs(r).outbounds.Keys
    && OutboundsByTag(config.outbounds) == others + Abs(r).outbounds
  }

  /** The outbounds whose tag is not in gone. */
  function Without(outbounds: seq<Outbound>, gone: set<string>): seq<Outbound> {
    if outbounds == [] then []
    else
      var last := outbounds[|outbounds| - 1];
      Without(outbounds[..|outbounds| - 1], gone) + if last.tag in gone then [] else [last]
  }

  /** A changed listener that lost its user list altogether has none to copy: the file is then
      left as it was. */
  predicate Unreadable(new_: Rendering, steps: Steps) {
    exists t :: t in steps.users && t in ByTag(new_.inbounds) && ByTag(new_.inbounds)[t].clients == Absent
  }

  method SyncConfig(config: Config, ghost old_: Rendering, new_: Rendering, steps: Steps,
      ghost others: map<string, Outbound>)
    returns (r: Option<Config>)
    requires steps == Plan(old_, new_) && steps.restart == {}
    requires Says(config, old_, others) && others.Keys !! Abs(new_).outbounds.Keys
    ensures r == None <==> Unreadable(new_, steps)
    ensures r.Some? ==> Says(r.value, new_, others)
  {
    hide Abs, Plan, Sorted, OutboundsByTag, Differing, Elems, Pick, Splits, DistinctTags;
    PlanOutbounds(old_, new_);
    PlanRules(old_, new_);
    var inbounds := SyncInbounds(config.inbounds, old_, new_, steps);
    if inbounds == None {
      return None;
    }
    var gone := Elems(steps.outRemove);
    var outbounds := config.outbounds;
    if gone != {} || steps.outAdd != [] {
      outbounds := Without(config.outbounds, gone) + steps.outAdd;
    }
    OutboundsSynced(config.outbounds, others, Abs(old_).outbounds, Abs(new_).outbounds, steps.outRemove, steps.outAdd);
    r := Some(Config(inbounds.value, if steps.rules.Some? then steps.rules.value else config.rules, outbounds));
    AbsRules(old_);
    AbsRules(new_);
  }

  method SyncInbounds(inbounds: seq<Inbound>, ghost old_: Rendering, new_: Rendering, steps: Steps)
      returns (r: Option<seq<Inbound>>)
    requires steps == Plan(old_, new_) && steps.restart == {}
    requires DistinctTags(inbounds) && Splits(inbounds) == Abs(old_).inbounds
    ensures r == None <==> Unreadable(new_, steps)
    ensures r.Some? ==> DistinctTags(r.value) && Splits(r.value) == Abs(new_).inbounds
  {
    hide Abs, Plan, ChangeOf, SplitUsers, ByTag, Splits, NamedSplit;
    var byTag := ByTag(new_.inbounds);
    Unchanged(inbounds, old_, new_);
    var synced: seq<Inbound> := [];
    for i := 0 to |inbounds|
      invariant |synced| == i
      invariant forall j :: 0 <= j < i ==> IsSynced(synced[j], inbounds[j], byTag, steps)
    {
      var ib := inbounds[i];
      var want := byTag[ib.tag];
      if ib.tag in steps.users {
        if want.clients == Absent {
          return None;
        }
        ClientsCopied(ib, want);
        synced := synced + [ib.(clients := want.clients)];
      } else {
        synced := synced + [ib];
      }
    }
    AllSynced(synced, inbounds, old_, new_, steps);
    r := Some(synced);
  }

  predicate IsSynced(ib: Inbound, before: Inbound, byTag: map<string, Inbound>, steps: Steps) {
    ib.tag == before.tag && ib.tag in byTag && SplitUsers(ib) == SplitUsers(byTag[ib.tag])
    && (ib.tag in steps.users ==> byTag[ib.tag].clients != Absent)
  }

  lemma Unchanged(inbounds: seq<Inbound>, old_: Rendering, new_: Rendering)
    requires Plan(old_, new_).restart == {} && DistinctTags(inbounds) && Splits(inbounds) == Abs(old_).inbounds
    ensures var byTag, users := ByTag(new_.inbounds), Plan(old_, new_).users;
            forall i :: 0 <= i < |inbounds| ==>
              inbounds[i].tag in byTag && SplitUsers(inbounds[i]).shape == SplitUsers(byTag[inbounds[i].tag]).shape
              && (inbounds[i].tag !in users ==> SplitUsers(inbounds[i]) == SplitUsers(byTag[inbounds[i].tag]))
  {
    hide Abs, Plan, ChangeOf, SplitUsers, ByTag, Splits, NamedSplit;
    PlanUsers(old_, new_);
    AbsSplits(new_);
    var byTag, users := ByTag(new_.inbounds), Plan(old_, new_).users;
    forall i | 0 <= i < |inbounds|
      ensures inbounds[i].tag in byTag && SplitUsers(inbounds[i]).shape == SplitUsers(byTag[inbounds[i].tag]).shape
      ensures inbounds[i].tag !in users ==> SplitUsers(inbounds[i]) == SplitUsers(byTag[inbounds[i].tag])
    {
      SplitAt(inbounds, i);
    }
  }

  lemma AllSynced(synced: seq<Inbound>, inbounds: seq<Inbound>, old_: Rendering, new_: Rendering, steps: Steps)
    requires steps == Plan(old_, new_) && steps.restart == {}
    requires DistinctTags(inbounds) && Splits(inbounds) == Abs(old_).inbounds && |synced| == |inbounds|
    requires forall j :: 0 <= j < |inbounds| ==> IsSynced(synced[j], inbounds[j], ByTag(new_.inbounds), steps)
    ensures DistinctTags(synced) && Splits(synced) == Abs(new_).inbounds && !Unreadable(new_, steps)
  {
    hide Abs, Plan, ChangeOf, SplitUsers, ByTag, Splits, NamedSplit;
    PlanUsers(old_, new_);
    AbsSplits(new_);
    assert Splits(inbounds).Keys == Abs(new_).inbounds.Keys;
    SameSplits(synced, inbounds, ByTag(new_.inbounds), steps);
    assert Splits(synced) == Abs(new_).inbounds;
  }

  lemma SameSplits(synced: seq<Inbound>, inbounds: seq<Inbound>, byTag: map<string, Inbound>, steps: Steps)
    requires DistinctTags(inbounds) && |synced| == |inbounds| && Splits(inbounds).Keys == byTag.Keys
    requires forall j :: 0 <= j < |inbounds| ==> IsSynced(synced[j], inbounds[j], byTag, steps)
    ensures DistinctTags(synced) && Splits(synced).Keys == byTag.Keys
    ensures forall t :: t in byTag ==>
      Splits(synced)[t] == SplitUsers(byTag[t]) && (t in steps.users ==> byTag[t].clients != Absent)
  {
    hide SplitUsers, ByTag, Splits, IsSynced;
    SameTags(synced, inbounds, byTag, steps);
    forall t | t in byTag
      ensures t in Splits(synced) && Splits(synced)[t] == SplitUsers(byTag[t])
        && (t in steps.users ==> byTag[t].clients != Absent)
    {
      var j := IndexOf(inbounds, t);
      SyncedAt(synced[j], inbounds[j], byTag, steps);
      SplitAt(synced, j);
    }
    forall t | t in Splits(synced) ensures t in byTag {
      var j := IndexOf(synced, t);
      SyncedAt(synced[j], inbounds[j], byTag, steps);
    }
  }

  lemma SyncedAt(ib: Inbound, before: Inbound, byTag: map<string, Inbound>, steps: Steps)
    requires IsSynced(ib, before, byTag, steps)
    ensures ib.tag == before.tag && ib.tag in byTag && SplitUsers(ib) == SplitUsers(byTag[ib.tag])
    ensures ib.tag in steps.users ==> byTag[ib.tag].clients != Absent
  {
    hide SplitUsers;
  }

  lemma SameTags(synced: seq<Inbound>, inbounds: seq<Inbound>, byTag: map<string, Inbound>, steps: Steps)
    requires DistinctTags(inbounds) && |synced| == |inbounds|
    requires forall j :: 0 <= j < |inbounds| ==> IsSynced(synced[j], inbounds[j], byTag, steps)
    ensures DistinctTags(synced)
  {
    hide SplitUsers;
    assert forall j :: 0 <= j < |inbounds| ==>
      IsSynced(synced[j], inbounds[j], byTag, steps) && synced[j].tag == inbounds[j].tag;
  }

  /** Listeners alike but for their users become the same by copying the user list. */
  lemma ClientsCopied(ib: Inbound, want: Inbound)
    requires SplitUsers(ib).shape == SplitUsers(want).shape && want.clients != Absent
    ensures ib.(clients := want.clients) == want || SplitUsers(ib) == SplitUsers(want)
    ensures SplitUsers(ib.(clients := want.clients)) == SplitUsers(want)
  {
    hide ByEmail, AllNamed;
    SplitShapes(ib);
    SplitShapes(want);
  }

  lemma SplitShapes(ib: Inbound)
    ensures SplitUsers(ib) == Split(ib, map[]) || (ib.clients.Listed? && SplitUsers(ib).shape == ib.(clients := Absent))
  {
    hide ByEmail, AllNamed;
  }

  lemma {:induction false} IndexOf(inbounds: seq<Inbound>, t: string) returns (i: nat)
    requires t in Splits(inbounds)
    ensures i < |inbounds| && inbounds[i].tag == t
  {
    hide SplitUsers;
    i := |inbounds| - 1;
    if inbounds[i].tag != t {
      i := IndexOf(inbounds[..i], t);
    }
  }

  /** With distinct tags, each inbound is its tag's. */
  lemma {:induction false} SplitAt(inbounds: seq<Inbound>, i: nat)
    requires i < |inbounds| && DistinctTags(inbounds)
    ensures inbounds[i].tag in Splits(inbounds) && Splits(inbounds)[inbounds[i].tag] == SplitUsers(inbounds[i])
    decreases |inbounds|
  {
    hide SplitUsers;
    var n := |inbounds| - 1;
    if i < n {
      SplitAt(inbounds[..n], i);
      assert inbounds[i].tag != inbounds[n].tag;
    }
  }

  lemma AbsSplits(r: Rendering)
    ensures Abs(r).inbounds.Keys == ByTag(r.inbounds).Keys
    ensures forall t :: t in ByTag(r.inbounds) ==> Abs(r).inbounds[t] == SplitUsers(ByTag(r.inbounds)[t])
  {
    hide SplitUsers, ByTag;
  }

  lemma AbsRules(r: Rendering)
    ensures Abs(r).rules == r.rules
  {}

  lemma PlanRules(old_: Rendering, new_: Rendering)
    requires Plan(old_, new_).restart == {}
    ensures Plan(old_, new_).rules == if old_.rules == new_.rules then None else Some(new_.rules)
  {
    hide Splits, UserChanges, Sorted, Differing, Pick, OutboundsByTag, Addresses;
  }

  lemma {:induction false} WithoutByTag(outbounds: seq<Outbound>, gone: set<string>)
    ensures OutboundsByTag(Without(outbounds, gone)) == OutboundsByTag(outbounds) - gone
  {
    hide OutboundsByTag;
    OutboundsStep([], Outbound("", ""));
    if outbounds != [] {
      var n := |outbounds| - 1;
      WithoutByTag(outbounds[..n], gone);
      assert outbounds == outbounds[..n] + [outbounds[n]];
      OutboundsStep(outbounds[..n], outbounds[n]);
      var fewer := Without(outbounds[..n], gone);
      OutboundsStep(fewer, outbounds[n]);
      assert fewer + [] == fewer;
    }
  }

  lemma {:induction false} OutboundsConcat(a: seq<Outbound>, b: seq<Outbound>)
    ensures OutboundsByTag(a + b) == OutboundsByTag(a) + OutboundsByTag(b)
    decreases |b|
  {
    hide OutboundsByTag;
    OutboundsStep([], Outbound("", ""));
    if b == [] {
      assert a + b == a;
    } else {
      var n := |b| - 1;
      assert b == b[..n] + [b[n]] && a + b == (a + b[..n]) + [b[n]];
      OutboundsConcat(a, b[..n]);
      OutboundsStep(a + b[..n], b[n]);
      OutboundsStep(b[..n], b[n]);
    }
  }

  lemma OutboundsSynced(outbounds: seq<Outbound>, others: map<string, Outbound>, a: map<string, Outbound>,
      b: map<string, Outbound>,
                        remove: seq<string>, add: seq<Outbound>)
    requires OutboundsByTag(outbounds) == others + a && others.Keys !! a.Keys && others.Keys !! b.Keys
    requires remove == Sorted(Differing(a, b)) && add == Pick(Sorted(Differing(b, a)), b)
    requires forall t :: t in b ==> b[t].tag == t
    ensures OutboundsByTag(Without(outbounds, Elems(remove)) + add) == others + b
    ensures Elems(remove) == {} && add == [] ==> a == b
  {
    hide Sorted, Pick, Differing, OutboundsByTag, Elems, Without;
    var gone := Elems(remove);
    SortedFacts(Differing(a, b));
    DifferingWithin(a, b);
    OutboundsReplaced(a, b, remove, add);
    WithoutByTag(outbounds, gone);
    OutboundsConcat(Without(outbounds, gone), add);
    PatchBeside(others, a, b, gone, OutboundsByTag(add));
    OutboundsNone(add);
  }

  lemma OutboundsNone(add: seq<Outbound>)
    ensures add == [] ==> OutboundsByTag(add) == map[]
  {}

  /** Patching a part of a map leaves the other part alone. */
  lemma PatchBeside<V>(others: map<string, V>, a: map<string, V>, b: map<string, V>, gone: set<string>,
      add: map<string, V>)
    requires others.Keys !! a.Keys && gone <= a.Keys && (a - gone) + add == b
    ensures ((others + a) - gone) + add == others + b
    ensures gone == {} && add == map[] ==> a == b
  {
    assert ((others + a) - gone) == others + (a - gone);
    if gone == {} { assert a - gone == a; }
  }

  /** A listener whose user list goes with its last user has changed, and has none to copy. */
  lemma LostUserList(r: Rendering, ib: Inbound, last: Client)
    requires ib.protocol in USER_LISTS - {"shadowsocks"} && ib.clients == Listed([last]) && last.email.Some?
    ensures var before, after := r.(inbounds := [ib]), r.(inbounds := [ib.(clients := Absent)]);
            Plan(before, after).restart == {} && Unreadable(after, Plan(before, after))
  {
    hide Plan, Splits, SplitUsers, ByTag, OutboundsByTag, Addresses;
    var gone := ib.(clients := Absent);
    var before, after := r.(inbounds := [ib]), r.(inbounds := [gone]);
    OneListener(ib);
    OneListener(gone);
    OneUser(ib, last);
    NoUsers(gone);
    RestartMeaning(before, after);
    PlanUsers(before, after);
    assert ib.tag in Plan(before, after).users;
  }

  lemma NoUsers(ib: Inbound)
    requires ib.clients == Absent
    ensures SplitUsers(ib) == Split(ib, map[])
  {}

  lemma OneListener(ib: Inbound)
    ensures ByTag([ib]) == map[ib.tag := ib] && Splits([ib]) == map[ib.tag := SplitUsers(ib)]
  {
    hide SplitUsers;
    assert [ib][..0] == [];
  }

  lemma OneUser(ib: Inbound, last: Client)
    requires ib.protocol in USER_LISTS - {"shadowsocks"} && ib.clients == Listed([last]) && last.email.Some?
    ensures SplitUsers(ib) == Split(ib.(clients := Absent), map[last.email.value := last])
  {
    assert [last][..0] == [];
    assert ByEmail([last]) == map[last.email.value := last];
  }
}
