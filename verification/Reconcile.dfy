/** Live reconciliation, the comparison (inbound_apply.py): two renderings, what each makes
    XRay run, and the plan that goes from one to the other. */
module Reconcile {
  import opened Wrappers
  import opened Ordering

  /** A client of a listener: who, at which level, and everything else of it. */
  datatype Client = Client(email: Option<string>, level: int, body: string)

  /** What an inbound has for a user list. */
  datatype Clients = Absent | NotAList(json: string) | Listed(list: seq<Client>)

  /** An inbound: body is all of it but the fields named here. */
  datatype Inbound = Inbound(tag: string, protocol: string, body: string, clients: Clients)

  datatype Outbound = Outbound(tag: string, body: string)

  /** A serverSource entry. An absent and an empty address are the same: none. */
  datatype SelfAddress = SelfAddress(ipv4: string, ipv6: string)

  datatype Rendering = Rendering(
    inbounds: seq<Inbound>,
    rules: seq<string>,
    selfOutbounds: seq<Outbound>,
    selfAddresses: seq<SelfAddress>,
    links: string,
    subscriptions: string,
    singBox: Option<string>,
    outputsPending: bool)

  const SS_NOBODY := "proxy-suite!nobody"

  const USER_LISTS: set<string> := {"vless", "vmess", "trojan", "hysteria", "shadowsocks"}

  // ---- What a rendering makes XRay run ----

  /** An inbound without its users, and the users by email. */
  datatype Split = Split(shape: Inbound, users: map<string, Client>)

  datatype Running = Running(
    inbounds: map<string, Split>,
    rules: seq<string>,
    outbounds: map<string, Outbound>,
    addresses: set<string>)

  predicate AllNamed(list: seq<Client>) {
    forall i :: 0 <= i < |list| ==> list[i].email.Some?
  }

  /** The clients by email: a later one takes an earlier one's place. */
  function ByEmail(list: seq<Client>): (m: map<string, Client>)
    requires AllNamed(list)
    ensures forall e :: e in m ==> m[e].email == Some(e) && m[e] in list
  {
    if list == [] then map[] else
      var last := list[|list| - 1];
      ByEmail(list[..|list| - 1])[last.email.value := last]
  }

  function SplitUsers(ib: Inbound): (s: Split)
    ensures forall e :: e in s.users ==> s.users[e].email == Some(e)
    ensures s.users != map[] ==> ib.protocol in USER_LISTS && ib.clients.Listed? && s.shape == ib.(clients := Absent)
  {
    if ib.protocol !in USER_LISTS || !ib.clients.Listed? || !AllNamed(ib.clients.list) then Split(ib, map[])
    else
      var users := ByEmail(ib.clients.list);
      if |users| != |ib.clients.list| then Split(ib, map[])
      else Split(ib.(clients := Absent), if ib.protocol == "shadowsocks" then users - {SS_NOBODY} else users)
  }

  function ByTag(inbounds: seq<Inbound>): (m: map<string, Inbound>)
    ensures forall t :: t in m ==> m[t].tag == t && m[t] in inbounds
    ensures forall i :: 0 <= i < |inbounds| ==> inbounds[i].tag in m
  {
    if inbounds == [] then map[] else
      var last := inbounds[|inbounds| - 1];
      ByTag(inbounds[..|inbounds| - 1])[last.tag := last]
  }

  function OutboundsByTag(outbounds: seq<Outbound>): (m: map<string, Outbound>)
    ensures forall t :: t in m ==> m[t].tag == t
    ensures forall i :: 0 <= i < |outbounds| ==> outbounds[i].tag in m
  {
    if outbounds == [] then map[] else
      var last := outbounds[|outbounds| - 1];
      OutboundsByTag(outbounds[..|outbounds| - 1])[last.tag := last]
  }

  /** An address with its family before it, "4" or "6". */
  function Addresses(entries: seq<SelfAddress>): set<string> {
    (set i | 0 <= i < |entries| && entries[i].ipv4 != "" :: "4" + entries[i].ipv4)
    + (set i | 0 <= i < |entries| && entries[i].ipv6 != "" :: "6" + entries[i].ipv6)
  }

  function Splits(inbounds: seq<Inbound>): map<string, Split> {
    var byTag := ByTag(inbounds);
    map t | t in byTag :: SplitUsers(byTag[t])
  }

  function Abs(r: Rendering): Running {
    Running(Splits(r.inbounds), r.rules, OutboundsByTag(r.selfOutbounds), Addresses(r.selfAddresses))
  }

  // ---- The plan ----

  datatype Reason = ListenersDiffer(added: seq<string>, gone: seq<string>) | ListenerChanged(tag: string)

  datatype Change = Change(remove: seq<string>, add: seq<Client>, relevel: seq<string>)

  datatype Steps = Steps(
    restart: set<Reason>,
    users: map<string, Change>,
    rules: Option<seq<string>>,
    outRemove: seq<string>,
    outAdd: seq<Outbound>,
    addrRemove: seq<string>,
    addrAdd: seq<string>,
    outputs: bool)

  predicate SameBut(a: Client, b: Client) {
    a.(level := 0) == b.(level := 0)
  }

  /** The emails of a that b has not, or not the same. */
  function Differing<V(==)>(a: map<string, V>, b: map<string, V>): set<string> {
    set e | e in a && (e !in b || a[e] != b[e])
  }

  function Pick<V>(keys: seq<string>, m: map<string, V>): (r: seq<V>)
    requires forall i :: 0 <= i < |keys| ==> keys[i] in m
    ensures |r| == |keys| && forall i :: 0 <= i < |r| ==> r[i] == m[keys[i]]
  {
    seq(|keys|, i requires 0 <= i < |keys| => m[keys[i]])
  }

  function Filter(keys: seq<string>, p: string -> bool): (r: seq<string>)
    ensures forall e :: e in r <==> e in keys && p(e)
  {
    if keys == [] then [] else
      var rest := Filter(keys[1..], p);
      assert keys == [keys[0]] + keys[1..];
      if p(keys[0]) then [keys[0]] + rest else rest
  }

  function ChangeOf(old_: Split, new_: Split): Change {
    var remove := Sorted(Differing(old_.users, new_.users));
    Change(remove,
           Pick(Sorted(Differing(new_.users, old_.users)), new_.users),
           Filter(remove, e => e in old_.users && e in new_.users && SameBut(old_.users[e], new_.users[e])))
  }

  function UserChanges(old_: map<string, Split>, new_: map<string, Split>): map<string, Change>
    requires old_.Keys == new_.Keys
  {
    map t | t in new_ && ChangeOf(old_[t], new_[t]).(relevel := []) != Change([], [], []) :: ChangeOf(old_[t], new_[t])
  }

  const Nothing := Steps({}, map[], None, [], [], [], [], false)

  function Plan(old_: Rendering, new_: Rendering): Steps {
    var a, b := Abs(old_), Abs(new_);
    if a.inbounds.Keys != b.inbounds.Keys then
      Nothing.(restart := {ListenersDiffer(Sorted(b.inbounds.Keys - a.inbounds.Keys),
                                           Sorted(a.inbounds.Keys - b.inbounds.Keys))})
    else
      var changed := set t | t in b.inbounds && a.inbounds[t].shape != b.inbounds[t].shape :: ListenerChanged(t);
      if changed != {} then Nothing.(restart := changed)
      else
        Steps({},
              UserChanges(a.inbounds, b.inbounds),
              if a.rules != b.rules then Some(b.rules) else None,
              Sorted(Differing(a.outbounds, b.outbounds)),
              Pick(Sorted(Differing(b.outbounds, a.outbounds)), b.outbounds),
              Sorted(a.addresses - b.addresses),
              Sorted(b.addresses - a.addresses),
              old_.outputsPending || old_.links != new_.links || old_.subscriptions != new_.subscriptions)
  }

  function IsNoop(s: Steps): bool {
    s.restart == {} && s.users == map[] && s.rules == None && s.outRemove == [] && s.outAdd == []
    && s.addrRemove == [] && s.addrAdd == [] && !s.outputs
  }

  // ---- What XRay runs, by the rendering's lists ----

  /** Told apart: all named, no email twice. */
  predicate ToldApart(list: seq<Client>) {
    (forall i :: 0 <= i < |list| ==> list[i].email.Some?)
    && forall i, j :: 0 <= i < j < |list| ==> list[i].email != list[j].email
  }

  /** A listener whose users XRay can be told to change. */
  predicate Changeable(ib: Inbound) {
    ib.protocol in {"vless", "vmess", "trojan", "hysteria", "shadowsocks"} && ib.clients.Listed?
    && ToldApart(ib.clients.list)
  }

  /** Its stand-in for nobody. */
  predicate IsNobody(ib: Inbound, email: string) { ib.protocol == "shadowsocks" && email == "proxy-suite!nobody" }

  lemma {:induction false} InByEmail(list: seq<Client>, e: string)
    requires AllNamed(list)
    ensures e in ByEmail(list) <==> HasEmail(list, e)
    decreases |list|
  {
    hide ByEmail, AllNamed, HasEmail;
    if list == [] {
      NoEmail(list, e);
    } else {
      LastEmail(list, e);
      InByEmail(list[..|list| - 1], e);
    }
  }

  predicate HasEmail(list: seq<Client>, e: string) {
    exists i :: 0 <= i < |list| && list[i].email == Some(e)
  }

  lemma NoEmail(list: seq<Client>, e: string)
    requires list == []
    ensures AllNamed(list) && e !in ByEmail(list) && !HasEmail(list, e)
  {}

  lemma LastEmail(list: seq<Client>, e: string)
    requires list != [] && AllNamed(list)
    ensures var rest, last := list[..|list| - 1], list[|list| - 1];
            AllNamed(rest) && last.email.Some? && ByEmail(list) == ByEmail(rest)[last.email.value := last]
            && (HasEmail(list, e) <==> HasEmail(rest, e) || last.email == Some(e))
  {
    var rest := list[..|list| - 1];
    if HasEmail(rest, e) {
      var i :| 0 <= i < |rest| && rest[i].email == Some(e);
      assert list[i] == rest[i];
    }
    if HasEmail(list, e) && list[|list| - 1].email != Some(e) {
      var i :| 0 <= i < |list| && list[i].email == Some(e);
      assert rest[i] == list[i];
    }
  }

  /** As many emails as clients exactly when no email is there twice. */
  lemma {:induction false} ByEmailSize(list: seq<Client>)
    requires AllNamed(list)
    ensures |ByEmail(list)| <= |list| && (|ByEmail(list)| == |list| <==> ToldApart(list))
    decreases |list|
  {
    hide ToldApart, HasEmail, ByEmail, AllNamed;
    if list == [] {
      NoneApart(list);
    } else {
      var rest, last := list[..|list| - 1], list[|list| - 1];
      LastEmail(list, "");
      ByEmailSize(rest);
      InByEmail(rest, last.email.value);
      MapMore(ByEmail(rest), last.email.value, last);
      MoreApart(list);
    }
  }

  lemma NoneApart(list: seq<Client>)
    requires list == []
    ensures AllNamed(list) && ByEmail(list) == map[] && ToldApart(list)
  {}

  lemma MoreApart(list: seq<Client>)
    requires list != [] && AllNamed(list)
    ensures var rest, last := list[..|list| - 1], list[|list| - 1];
            last.email.Some? && (ToldApart(list) <==> ToldApart(rest) && !HasEmail(rest, last.email.value))
  {
    var n := |list| - 1;
    if i :| 0 <= i < n && list[..n][i].email == Some(list[n].email.value) {
      assert list[i].email == list[n].email;
    }
  }

  lemma MapMore<V>(m: map<string, V>, k: string, v: V)
    ensures |m[k := v]| == |m| + if k in m then 0 else 1
  {
    assert m[k := v].Keys == m.Keys + {k};
    assert |m[k := v].Keys| == |m[k := v]| && |m.Keys| == |m|;
  }

  lemma {:induction false} ByEmailAt(list: seq<Client>, i: nat)
    requires ToldApart(list) && AllNamed(list) && i < |list|
    ensures list[i].email.value in ByEmail(list) && ByEmail(list)[list[i].email.value] == list[i]
    decreases |list|
  {
    if i < |list| - 1 { ByEmailAt(list[..|list| - 1], i); }
  }

  /** A listener with users that can be told apart is run without its list, with exactly those
      users, each as it is in the list, the stand-in aside; any other comes whole. */
  lemma SplitMeaning(ib: Inbound)
    ensures !Changeable(ib) ==> SplitUsers(ib) == Split(ib, map[])
    ensures Changeable(ib) ==>
              var s := SplitUsers(ib);
              s.shape == ib.(clients := Absent)
              && (forall i :: 0 <= i < |ib.clients.list| && !IsNobody(ib, ib.clients.list[i].email.value) ==>
                    ib.clients.list[i].email.value in s.users
                    && s.users[ib.clients.list[i].email.value] == ib.clients.list[i])
              && (forall e :: e in s.users ==>
                    s.users[e] in ib.clients.list && s.users[e].email == Some(e) && !IsNobody(ib, e))
  {
    hide ByEmail;
    if ib.protocol in USER_LISTS && ib.clients.Listed? && AllNamed(ib.clients.list) {
      var list := ib.clients.list;
      ByEmailSize(list);
      if ToldApart(list) {
        forall i | 0 <= i < |list|
          ensures list[i].email.value in ByEmail(list) && ByEmail(list)[list[i].email.value] == list[i]
        {
          ByEmailAt(list, i);
        }
      }
    }
  }

  /** The last listener of a tag, as a dictionary has it. */
  predicate LastOfTag(inbounds: seq<Inbound>, i: nat) {
    i < |inbounds| && forall j :: i < j < |inbounds| ==> inbounds[j].tag != inbounds[i].tag
  }

  lemma {:induction false} ListenerMeaning(inbounds: seq<Inbound>, i: nat)
    requires LastOfTag(inbounds, i)
    ensures inbounds[i].tag in Splits(inbounds) && Splits(inbounds)[inbounds[i].tag] == SplitUsers(inbounds[i])
    decreases |inbounds|
  {
    hide SplitUsers;
    if i < |inbounds| - 1 { ListenerMeaning(inbounds[..|inbounds| - 1], i); }
  }

  /** What else is run: the rules, the last outbound of each tag, and each address of either family. */
  lemma RunningMeaning(r: Rendering)
    ensures Abs(r).rules == r.rules
    ensures forall a :: a in Abs(r).addresses <==>
              exists i :: 0 <= i < |r.selfAddresses|
                && (OfFamily(r.selfAddresses[i].ipv4, "4", a) || OfFamily(r.selfAddresses[i].ipv6, "6", a))
    ensures forall t :: t in Abs(r).inbounds <==> exists i :: 0 <= i < |r.inbounds| && r.inbounds[i].tag == t
    ensures forall t :: t in Abs(r).outbounds <==> exists i :: 0 <= i < |r.selfOutbounds| && r.selfOutbounds[i].tag == t
  {
    hide SplitUsers, OutboundsByTag;
    forall t ensures t in Abs(r).outbounds <==> exists i :: 0 <= i < |r.selfOutbounds| && r.selfOutbounds[i].tag == t {
      OutboundKeys(r.selfOutbounds, t);
    }
  }

  predicate OfFamily(address: string, family: string, a: string) { address != "" && a == family + address }

  lemma {:induction false} OutboundKeys(outbounds: seq<Outbound>, t: string)
    ensures t in OutboundsByTag(outbounds) <==> exists i :: 0 <= i < |outbounds| && outbounds[i].tag == t
    decreases |outbounds|
  {
    if outbounds != [] {
      var rest := outbounds[..|outbounds| - 1];
      OutboundKeys(rest, t);
      assert forall i :: 0 <= i < |rest| ==> rest[i] == outbounds[i];
    }
  }

  lemma {:induction false} OutboundMeaning(outbounds: seq<Outbound>, i: nat)
    requires i < |outbounds| && forall j :: i < j < |outbounds| ==> outbounds[j].tag != outbounds[i].tag
    ensures outbounds[i].tag in OutboundsByTag(outbounds) && OutboundsByTag(outbounds)[outbounds[i].tag] == outbounds[i]
    decreases |outbounds|
  {
    if i < |outbounds| - 1 { OutboundMeaning(outbounds[..|outbounds| - 1], i); }
  }

  // ---- What a plan says ----

  lemma DifferingNone<V>(a: map<string, V>, b: map<string, V>)
    ensures Differing(a, b) == {} && Differing(b, a) == {} <==> a == b
  {
    if Differing(a, b) == {} && Differing(b, a) == {} {
      assert forall e :: e in a ==> e !in Differing(a, b);
      assert forall e :: e in b ==> e !in Differing(b, a);
      assert a.Keys == b.Keys;
    }
  }

  lemma ChangeNone(a: Split, b: Split)
    ensures ChangeOf(a, b).remove == [] && ChangeOf(a, b).add == [] <==> a.users == b.users
  {
    DifferingNone(a.users, b.users);
  }

  /** A plan is a restart exactly when a listener came, went or changed apart from its users. */
  lemma RestartMeaning(old_: Rendering, new_: Rendering)
    ensures Plan(old_, new_).restart == {} <==>
      Abs(old_).inbounds.Keys == Abs(new_).inbounds.Keys
      && forall t :: t in Abs(new_).inbounds ==> Abs(old_).inbounds[t].shape == Abs(new_).inbounds[t].shape
  {
    hide SplitUsers, ByTag, ChangeOf, UserChanges, OutboundsByTag, Addresses;
    var a, b := Abs(old_).inbounds, Abs(new_).inbounds;
    if a.Keys == b.Keys {
      var changed := set t | t in b && a[t].shape != b[t].shape :: ListenerChanged(t);
      forall t | t in b && a[t].shape != b[t].shape ensures changed != {} {
        assert ListenerChanged(t) in changed;
      }
    }
  }

  /** Nothing to do exactly when both renderings make XRay run the same, the links and
      subscriptions are the same, and none were left to write. */
  lemma NoopMeaning(old_: Rendering, new_: Rendering)
    ensures IsNoop(Plan(old_, new_)) <==>
      Abs(old_) == Abs(new_) && old_.links == new_.links && old_.subscriptions == new_.subscriptions
      && !old_.outputsPending
  {
    hide Abs, ChangeOf, Sorted;
    var a, b := Abs(old_), Abs(new_);
    RestartMeaning(old_, new_);
    DifferingNone(a.outbounds, b.outbounds);
    if Plan(old_, new_).restart == {} {
      UserChangesNone(a.inbounds, b.inbounds);
      assert a.addresses - b.addresses == {} && b.addresses - a.addresses == {} <==> a.addresses == b.addresses;
    }
  }

  lemma UserChangesNone(a: map<string, Split>, b: map<string, Split>)
    requires a.Keys == b.Keys && forall t :: t in b ==> a[t].shape == b[t].shape
    ensures UserChanges(a, b) == map[] <==> a == b
  {
    hide ChangeOf;
    forall t | t in b ensures t in UserChanges(a, b) <==> a[t] != b[t] {
      ChangeNone(a[t], b[t]);
    }
    if UserChanges(a, b) == map[] {
      forall t | t in a ensures a[t] == b[t] { assert t !in UserChanges(a, b); }
    }
  }

  /** Exactly the users who came, went or changed are named: one whose client is the same on a
      listener appears in no command about it. */
  lemma PlanNamesOnlyChanges(old_: Rendering, new_: Rendering, t: string, e: string)
    requires Plan(old_, new_).restart == {} && t in Abs(new_).inbounds
    ensures t in Abs(old_).inbounds
    ensures var a, b := Abs(old_).inbounds[t].users, Abs(new_).inbounds[t].users;
            var same := e in a && e in b && a[e] == b[e];
            var named := t in Plan(old_, new_).users
                         && (e in Plan(old_, new_).users[t].remove
                             || exists c :: c in Plan(old_, new_).users[t].add && c.email == Some(e));
            named <==> !same && (e in a || e in b)
  {
    hide SplitUsers, ByTag, OutboundsByTag, Addresses;
    RestartMeaning(old_, new_);
    var sa, sb := Abs(old_).inbounds[t], Abs(new_).inbounds[t];
    SplitsNamed(new_.inbounds, t);
    ChangeNames(sa, sb, e);
    ChangeNone(sa, sb);
  }

  lemma SplitsNamed(inbounds: seq<Inbound>, t: string)
    requires t in Splits(inbounds)
    ensures forall e :: e in Splits(inbounds)[t].users ==> Splits(inbounds)[t].users[e].email == Some(e)
  {}

  lemma ChangeNames(a: Split, b: Split, e: string)
    requires forall x :: x in b.users ==> b.users[x].email == Some(x)
    ensures e in ChangeOf(a, b).remove <==> e in a.users && (e !in b.users || a.users[e] != b.users[e])
    ensures (exists c :: c in ChangeOf(a, b).add && c.email == Some(e))
       <==> e in b.users && (e !in a.users || a.users[e] != b.users[e])
  {
    hide Sorted, Pick, Filter;
    PickNames(Sorted(Differing(b.users, a.users)), b.users, e);
  }

  lemma PickNames(keys: seq<string>, m: map<string, Client>, e: string)
    requires forall i :: 0 <= i < |keys| ==> keys[i] in m
    requires forall x :: x in m ==> m[x].email == Some(x)
    ensures (exists c :: c in Pick(keys, m) && c.email == Some(e)) <==> e in keys
  {
    hide Pick;
    var add := Pick(keys, m);
    if c :| c in add && c.email == Some(e) {
      var i :| 0 <= i < |add| && add[i] == c;
      assert keys[i] in keys;
    }
    if e in keys {
      var i :| 0 <= i < |keys| && keys[i] == e;
      assert add[i] in add;
    }
  }

  /** Over the two lists of a listener: an email is named exactly when a client of it is in one and
      not in the other, and never the stand-in. */
  lemma PlanNamesByLists(old_: Rendering, new_: Rendering, i: nat, j: nat, e: string)
    requires Plan(old_, new_).restart == {} && LastOfTag(old_.inbounds, i) && LastOfTag(new_.inbounds, j)
    requires old_.inbounds[i].tag == new_.inbounds[j].tag && Changeable(old_.inbounds[i])
      && Changeable(new_.inbounds[j])
    requires old_.inbounds[i].protocol == new_.inbounds[j].protocol
    ensures var t, steps := new_.inbounds[j].tag, Plan(old_, new_);
            var named := t in steps.users
                         && (e in steps.users[t].remove || exists c :: c in steps.users[t].add && c.email == Some(e));
            var a, b := old_.inbounds[i].clients.list, new_.inbounds[j].clients.list;
            named <==> !IsNobody(new_.inbounds[j], e)
                       && exists c: Client :: c.email == Some(e) && (c in a) != (c in b)
  {
    hide Plan, SplitUsers, Changeable, Splits;
    ListenerMeaning(old_.inbounds, i);
    ListenerMeaning(new_.inbounds, j);
    PlanNamesOnlyChanges(old_, new_, new_.inbounds[j].tag, e);
    ListsDiffer(old_.inbounds[i], new_.inbounds[j], e);
  }

  lemma ListsDiffer(p: Inbound, q: Inbound, e: string)
    requires Changeable(p) && Changeable(q) && p.protocol == q.protocol
    ensures var a, b := SplitUsers(p).users, SplitUsers(q).users;
            (e in a || e in b) && !(e in a && e in b && a[e] == b[e])
            <==> !IsNobody(q, e)
                 && exists c: Client :: c.email == Some(e) && (c in p.clients.list) != (c in q.clients.list)
  {
    hide SplitUsers;
    var a, b := SplitUsers(p).users, SplitUsers(q).users;
    SplitMeaning(p);
    SplitMeaning(q);
    if !IsNobody(q, e) {
      InList(p, e);
      InList(q, e);
    }
    if (e in a || e in b) && !(e in a && e in b && a[e] == b[e]) {
      if e in a && a[e] !in q.clients.list {
        assert a[e] in p.clients.list;
      } else if e in b && b[e] !in p.clients.list {
        assert b[e] in q.clients.list;
      }
    }
  }

  /** A client of the list is the one the listener runs for its email. */
  lemma InList(ib: Inbound, e: string)
    requires Changeable(ib) && !IsNobody(ib, e)
    ensures forall c :: c in ib.clients.list && c.email == Some(e) ==>
      e in SplitUsers(ib).users && SplitUsers(ib).users[e] == c
  {
    hide SplitUsers;
    SplitMeaning(ib);
  }

  /** Named as changed in their level alone: those removed whose client is back with nothing else
      different. */
  lemma RelevelMeaning(a: Split, b: Split, e: string)
    requires forall x :: x in a.users ==> a.users[x].email == Some(x)
    requires forall x :: x in b.users ==> b.users[x].email == Some(x)
    ensures e in ChangeOf(a, b).relevel
       <==> e in a.users && e in b.users && a.users[e].level != b.users[e].level && a.users[e].body == b.users[e].body
  {
    hide Pick;
  }
}
