/** The AmneziaWG peers the manager limits (speed_targets in inbound_manager.py): each limited
    user's addresses on every listener's interface. */
module SpeedPeers {
  import opened Wrappers
  import opened Limits
  import AwgAddresses

  /** A listener whose state file was read: its users, each at an offset in its subnets. */
  datatype Listener = Listener(interface: string, base: nat, base6: Option<nat>, users: seq<(string, nat)>)

  function Addresses(l: Listener, offset: nat): seq<AwgAddresses.Address> {
    [AwgAddresses.Address(false, l.base + offset)]
    + if l.base6.Some? then [AwgAddresses.Address(true, l.base6.value + offset)] else []
  }

  function PeersOfUser(l: Listener, speeds: map<string, Speed>, user: (string, nat)): seq<Peer> {
    if user.0 !in speeds then []
    else
      var a := Addresses(l, user.1);
      seq(|a|, i requires 0 <= i < |a| => Peer(l.interface, a[i], speeds[user.0]))
  }

  function PeersOf(l: Listener, speeds: map<string, Speed>, n: nat): seq<Peer>
    requires n <= |l.users|
  {
    if n == 0 then [] else PeersOf(l, speeds, n - 1) + PeersOfUser(l, speeds, l.users[n - 1])
  }

  function AllPeers(ls: seq<Listener>, speeds: map<string, Speed>): seq<Peer> {
    if ls == [] then []
    else AllPeers(ls[..|ls| - 1], speeds) + PeersOf(ls[|ls| - 1], speeds, |ls[|ls| - 1].users|)
  }

  method PeerTargets(ls: seq<Listener>, speeds: map<string, Speed>) returns (peers: seq<Peer>)
    ensures peers == AllPeers(ls, speeds)
  {
    hide PeersOfUser;
    peers := [];
    assert ls[..0] == [];
    for i := 0 to |ls|
      invariant peers == AllPeers(ls[..i], speeds)
    {
      assert ls[..i + 1][..i] == ls[..i];
      var l := ls[i];
      for j := 0 to |l.users|
        invariant peers == AllPeers(ls[..i], speeds) + PeersOf(l, speeds, j)
      {
        peers := peers + PeersOfUser(l, speeds, l.users[j]);
      }
    }
    assert ls[..|ls|] == ls;
  }

  /** A peer of this listener's j-th user, who is limited: at the user's offset in either subnet. */
  predicate IsPeer(l: Listener, speeds: map<string, Speed>, j: nat, p: Peer) {
    j < |l.users|
    && var (name, offset) := l.users[j];
    name in speeds && p.speed == speeds[name] && p.interface == l.interface
    && (p.address == AwgAddresses.Address(false, l.base + offset)
        || (l.base6.Some? && p.address == AwgAddresses.Address(true, l.base6.value + offset)))
  }

  lemma PeersOfUserMeaning(l: Listener, speeds: map<string, Speed>, j: nat, p: Peer)
    requires j < |l.users|
    ensures p in PeersOfUser(l, speeds, l.users[j]) <==> IsPeer(l, speeds, j, p)
  {
    var peers := PeersOfUser(l, speeds, l.users[j]);
    if IsPeer(l, speeds, j, p) { assert p == peers[if p.address.v6 then 1 else 0]; }
  }

  lemma {:induction false} PeersOfMeaning(l: Listener, speeds: map<string, Speed>, n: nat, p: Peer)
    requires n <= |l.users|
    ensures p in PeersOf(l, speeds, n) <==> exists j: nat :: j < n && IsPeer(l, speeds, j, p)
  {
    hide PeersOfUser, IsPeer;
    if n > 0 {
      PeersOfMeaning(l, speeds, n - 1, p);
      PeersOfUserMeaning(l, speeds, n - 1, p);
    }
  }

  /** The peers listed are just those of limited users, on every listener. */
  lemma {:induction false} PeersMeaning(ls: seq<Listener>, speeds: map<string, Speed>, p: Peer)
    ensures p in AllPeers(ls, speeds) <==> exists i: nat, j: nat :: i < |ls| && IsPeer(ls[i], speeds, j, p)
    decreases |ls|
  {
    hide PeersOf, IsPeer;
    if ls != [] {
      var rest, last := ls[..|ls| - 1], ls[|ls| - 1];
      PeersMeaning(rest, speeds, p);
      PeersOfMeaning(last, speeds, |last.users|, p);
      if p in AllPeers(rest, speeds) {
        var i: nat, j: nat :| i < |rest| && IsPeer(rest[i], speeds, j, p);
        assert IsPeer(ls[i], speeds, j, p);
      }
      if i: nat, j: nat :| i < |ls| && IsPeer(ls[i], speeds, j, p) {
        PeerIndex(ls[i], speeds, j, p);
        if i < |rest| { assert IsPeer(rest[i], speeds, j, p); }
      }
    }
  }

  lemma PeerIndex(l: Listener, speeds: map<string, Speed>, j: nat, p: Peer)
    requires IsPeer(l, speeds, j, p)
    ensures j < |l.users|
  {}

  predicate Same(p: Peer, q: Peer) { p.interface == q.interface && p.address == q.address }

  ghost predicate Distinct(peers: seq<Peer>) {
    forall i, j :: 0 <= i < j < |peers| ==> !Same(peers[i], peers[j])
  }

  lemma DistinctThen(a: seq<Peer>, b: seq<Peer>)
    requires Distinct(a) && Distinct(b) && forall i, j :: 0 <= i < |a| && 0 <= j < |b| ==> !Same(a[i], b[j])
    ensures Distinct(a + b)
  {
    hide Same;
  }

  /** Where a peer comes from. */
  lemma {:induction false} PeerFrom(l: Listener, speeds: map<string, Speed>, n: nat, k: nat) returns (i: nat)
    requires n <= |l.users| && k < |PeersOf(l, speeds, n)|
    ensures i < n && PeersOf(l, speeds, n)[k] in PeersOfUser(l, speeds, l.users[i])
  {
    hide PeersOfUser;
    var before := PeersOf(l, speeds, n - 1);
    if k < |before| {
      i := PeerFrom(l, speeds, n - 1, k);
    } else {
      i := n - 1;
    }
  }

  /** Offsets are apart. */
  ghost predicate Apart(l: Listener) {
    forall i, j :: 0 <= i < j < |l.users| ==> l.users[i].1 != l.users[j].1
  }

  lemma {:induction false} PeersOfDistinct(l: Listener, speeds: map<string, Speed>, n: nat)
    requires Apart(l) && n <= |l.users|
    ensures Distinct(PeersOf(l, speeds, n))
    ensures forall k :: 0 <= k < |PeersOf(l, speeds, n)| ==> PeersOf(l, speeds, n)[k].interface == l.interface
  {
    hide PeersOfUser, Same, Apart;
    if n > 0 {
      PeersOfDistinct(l, speeds, n - 1);
      var a, b := PeersOf(l, speeds, n - 1), PeersOfUser(l, speeds, l.users[n - 1]);
      UserPeers(l, speeds, n - 1);
      forall k, m | 0 <= k < |a| && 0 <= m < |b| ensures !Same(a[k], b[m]) {
        var i := PeerFrom(l, speeds, n - 1, k);
        UsersApart(l, speeds, i, n - 1, a[k], b[m]);
      }
      DistinctThen(a, b);
    }
  }

  lemma UserPeers(l: Listener, speeds: map<string, Speed>, i: nat)
    requires i < |l.users|
    ensures Distinct(PeersOfUser(l, speeds, l.users[i]))
    ensures forall k :: 0 <= k < |PeersOfUser(l, speeds, l.users[i])| ==>
      PeersOfUser(l, speeds, l.users[i])[k].interface == l.interface
  {}

  lemma UsersApart(l: Listener, speeds: map<string, Speed>, i: nat, j: nat, p: Peer, q: Peer)
    requires Apart(l) && i < j < |l.users| && p in PeersOfUser(l, speeds, l.users[i])
      && q in PeersOfUser(l, speeds, l.users[j])
    ensures !Same(p, q)
  {}

  ghost predicate Interface(ls: seq<Listener>, interface: string) {
    exists i :: 0 <= i < |ls| && ls[i].interface == interface
  }

  /** With interfaces apart, and offsets as they are allocated, no peer is limited twice: the
      transaction never meets a key it has already added. */
  lemma {:induction false} NoPeersClash(ls: seq<Listener>, speeds: map<string, Speed>)
    requires forall i :: 0 <= i < |ls| ==> Apart(ls[i])
    requires forall i, j :: 0 <= i < j < |ls| ==> ls[i].interface != ls[j].interface
    ensures Distinct(AllPeers(ls, speeds)) && !PeersClash(AllPeers(ls, speeds))
    ensures forall k :: 0 <= k < |AllPeers(ls, speeds)| ==> Interface(ls, AllPeers(ls, speeds)[k].interface)
    decreases |ls|
  {
    hide PeersOf, Apart;
    if ls != [] {
      var rest, last := ls[..|ls| - 1], ls[|ls| - 1];
      NoPeersClash(rest, speeds);
      PeersOfDistinct(last, speeds, |last.users|);
      var a, b := AllPeers(rest, speeds), PeersOf(last, speeds, |last.users|);
      assert Interface(ls, last.interface);
      forall k | 0 <= k < |a| ensures Interface(ls, a[k].interface) && a[k].interface != last.interface {
        var i :| 0 <= i < |rest| && rest[i].interface == a[k].interface;
        assert ls[i].interface == a[k].interface;
      }
      DistinctThen(a, b);
    }
  }
}
