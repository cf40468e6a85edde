/** Tunnel addresses of an AmneziaWG listener's users (awg_inbound.py): declared, kept, then
    the lowest free. */
module AwgAddresses {
  import opened Wrappers
  import opened Arithmetic

  datatype Result<T> = Ok(value: T) | Err(error: Error)

  datatype Error = NotAClientAddress(name: string) | TakenTwice(name: string) | NoFreeAddress(name: string)

  /** An address by its family and number. */
  datatype Address = Address(v6: bool, number: nat)

  datatype User = User(name: string, address: Option<Address>)

  /** subnet: its first address and how many bits are the hosts'; subnet6, if any, likewise. */
  datatype Subnet = Subnet(base: nat, bits: nat, bits6: Option<nat>)

  /** One past the last offset a client can have: not the broadcast's, and one that fits both
      subnets. */
  function OffsetsEnd(s: Subnet): nat {
    var end := Pow2(s.bits) - if s.bits >= 2 then 1 else 0;
    if s.bits6.Some? && Pow2(s.bits6.value) < end then Pow2(s.bits6.value) else end
  }

  /** How many users the subnets hold. */
  function Capacity(s: Subnet): nat {
    if OffsetsEnd(s) < 2 then 0 else OffsetsEnd(s) - 2
  }

  /** A client's offset: not the network's, not this host's, inside both subnets, not the IPv4
      broadcast's. */
  lemma ClientOffsets(s: Subnet, offset: nat)
    ensures Fits(offset, OffsetsEnd(s)) <==>
              offset != 0 && offset != 1 && offset < Pow2(s.bits) && (s.bits6.Some? ==> offset < Pow2(s.bits6.value))
              && (s.bits >= 2 ==> offset != Pow2(s.bits) - 1)
  {}

  // ---- The allocation, pass by pass ----

  /** Who has which offset so far, and all that are taken: this host's, 1, among them. */
  datatype Alloc = Alloc(offsets: map<string, int>, taken: set<int>)

  const START := Alloc(map[], {1})

  function Give(a: Alloc, name: string, offset: int): Alloc {
    Alloc(a.offsets[name := offset], a.taken + {offset})
  }

  function Offset(s: Subnet, address: Address): int {
    address.number - s.base
  }

  predicate Fits(offset: int, end: nat) { 1 < offset < end }

  predicate InNetwork(s: Subnet, address: Address) {
    !address.v6 && s.base <= address.number < s.base + Pow2(s.bits)
  }

  function DeclaredPass(s: Subnet, users: seq<User>): Result<Alloc> {
    if users == [] then Ok(START)
    else
      var before := DeclaredPass(s, users[..|users| - 1]);
      var u := users[|users| - 1];
      if before.Err? || u.address == None then before
      else if !InNetwork(s, u.address.value) || !Fits(Offset(s, u.address.value), OffsetsEnd(s)) then
        Err(NotAClientAddress(u.name))
      else if Offset(s, u.address.value) in before.value.taken then Err(TakenTwice(u.name))
      else Ok(Give(before.value, u.name, Offset(s, u.address.value)))
  }

  predicate Keeps(a: Alloc, name: string, stored: map<string, int>, end: nat) {
    name !in a.offsets && name in stored && Fits(stored[name], end) && stored[name] !in a.taken
  }

  function KeptPass(start: Alloc, users: seq<User>, stored: map<string, int>, end: nat): Alloc {
    if users == [] then start
    else
      var before := KeptPass(start, users[..|users| - 1], stored, end);
      var name := users[|users| - 1].name;
      if Keeps(before, name, stored, end) then Give(before, name, stored[name]) else before
  }

  /** The first offset from c on that is not taken; end when there is none. */
  function LeastFree(taken: set<int>, c: nat, end: nat): (r: nat)
    ensures r == end || (c <= r < end && r !in taken)
    ensures forall x :: c <= x < r ==> x in taken
    decreases end - c
  {
    if c >= end then end else if c !in taken then c else LeastFree(taken, c + 1, end)
  }

  function FreePass(start: Alloc, users: seq<User>, end: nat): Result<Alloc> {
    if users == [] then Ok(start)
    else
      var before := FreePass(start, users[..|users| - 1], end);
      var name := users[|users| - 1].name;
      if before.Err? || name in before.value.offsets then before
      else
        var c := LeastFree(before.value.taken, 2, end);
        if c == end then Err(NoFreeAddress(name)) else Ok(Give(before.value, name, c))
  }

  function Allocate(s: Subnet, users: seq<User>, stored: map<string, int>): Result<map<string, int>> {
    var declared := DeclaredPass(s, users);
    if declared.Err? then Err(declared.error)
    else
      var all := FreePass(KeptPass(declared.value, users, stored, OffsetsEnd(s)), users, OffsetsEnd(s));
      if all.Err? then Err(all.error) else Ok(all.value.offsets)
  }

  /** The three loops; the last draws from one pass over the offsets, never looking back. */
  method AllocateAddresses(s: Subnet, users: seq<User>, stored: map<string, int>) returns (r: Result<map<string, int>>)
    ensures r == Allocate(s, users, stored)
  {
    hide DeclaredPass, KeptPass, FreePass;
    var last := OffsetsEnd(s);
    var declared := TakeDeclared(s, users, last);
    if declared.Err? {
      return Err(declared.error);
    }
    var kept := TakeStored(declared.value, users, stored, last);
    var all := TakeFree(kept, users, last);
    if all.Err? {
      return Err(all.error);
    }
    r := Ok(all.value.offsets);
  }

  method TakeDeclared(s: Subnet, users: seq<User>, last: nat) returns (r: Result<Alloc>)
    requires last == OffsetsEnd(s)
    ensures r == DeclaredPass(s, users)
  {
    hide OffsetsEnd, InNetwork, Fits, Offset;
    var a := START;
    assert users[..0] == [];
    for i := 0 to |users|
      invariant DeclaredPass(s, users[..i]) == Ok(a)
    {
      assert users[..i + 1][..i] == users[..i];
      var u := users[i];
      if u.address.Some? {
        var offset := Offset(s, u.address.value);
        if !InNetwork(s, u.address.value) || !Fits(offset, last) {
          ErrorsStay(s, users, i + 1);
          return Err(NotAClientAddress(u.name));
        }
        if offset in a.taken {
          ErrorsStay(s, users, i + 1);
          return Err(TakenTwice(u.name));
        }
        a := Give(a, u.name, offset);
      }
    }
    assert users[..|users|] == users;
    r := Ok(a);
  }

  method TakeStored(start: Alloc, users: seq<User>, stored: map<string, int>, last: nat) returns (a: Alloc)
    ensures a == KeptPass(start, users, stored, last)
  {
    a := start;
    assert users[..0] == [];
    for i := 0 to |users|
      invariant a == KeptPass(start, users[..i], stored, last)
    {
      assert users[..i + 1][..i] == users[..i];
      var name := users[i].name;
      if Keeps(a, name, stored, last) {
        a := Give(a, name, stored[name]);
      }
    }
    assert users[..|users|] == users;
  }

  method TakeFree(start: Alloc, users: seq<User>, last: nat) returns (r: Result<Alloc>)
    ensures r == FreePass(start, users, last)
  {
    hide LeastFree;
    var a, free := start, 2;
    assert users[..0] == [];
    for i := 0 to |users|
      invariant FreePass(start, users[..i], last) == Ok(a)
      invariant free >= 2 && forall x :: 2 <= x < free ==> x in a.taken
    {
      assert users[..i + 1][..i] == users[..i];
      var name := users[i].name;
      if name !in a.offsets {
        while free < last && free in a.taken
          invariant free >= 2 && forall x :: 2 <= x < free ==> x in a.taken
        {
          free := free + 1;
        }
        CursorIsLeast(a.taken, free, last);
        if free >= last {
          FreeErrorsStay(start, users, last, i + 1);
          return Err(NoFreeAddress(name));
        }
        a := Give(a, name, free);
        free := free + 1;
      }
    }
    assert users[..|users|] == users;
    r := Ok(a);
  }

  lemma CursorIsLeast(taken: set<int>, free: nat, end: nat)
    requires free >= 2 && (free >= end || free !in taken) && forall x :: 2 <= x < free ==> x in taken
    ensures LeastFree(taken, 2, end) == if free >= end then end else free
  {}

  lemma {:induction false} ErrorsStay(s: Subnet, users: seq<User>, n: nat)
    requires n <= |users| && DeclaredPass(s, users[..n]).Err?
    ensures DeclaredPass(s, users) == DeclaredPass(s, users[..n])
    decreases |users|
  {
    hide OffsetsEnd;
    if n < |users| {
      assert users[..|users| - 1][..n] == users[..n];
      ErrorsStay(s, users[..|users| - 1], n);
    } else {
      assert users[..n] == users;
    }
  }

  lemma {:induction false} FreeErrorsStay(start: Alloc, users: seq<User>, end: nat, n: nat)
    requires n <= |users| && FreePass(start, users[..n], end).Err?
    ensures FreePass(start, users, end) == FreePass(start, users[..n], end)
    decreases |users|
  {
    hide LeastFree;
    if n < |users| {
      assert users[..|users| - 1][..n] == users[..n];
      FreeErrorsStay(start, users[..|users| - 1], end, n);
    } else {
      assert users[..n] == users;
    }
  }

  // ---- What every pass keeps ----

  /** Each holder has a client offset of their own, and what is taken is theirs and this host's. */
  ghost predicate Sound(a: Alloc, end: nat) {
    (forall n :: n in a.offsets ==> Fits(a.offsets[n], end))
    && (forall m, n :: m in a.offsets && n in a.offsets && m != n ==> a.offsets[m] != a.offsets[n])
    && a.taken == {1} + a.offsets.Values
  }

  ghost predicate Extends(a: Alloc, b: Alloc) {
    (forall n :: n in a.offsets ==> n in b.offsets && b.offsets[n] == a.offsets[n]) && a.taken <= b.taken
  }

  lemma GiveSound(a: Alloc, name: string, offset: int, end: nat)
    requires Sound(a, end) && name !in a.offsets && offset !in a.taken && Fits(offset, end)
    ensures Sound(Give(a, name, offset), end) && Extends(a, Give(a, name, offset))
  {
    var b := Give(a, name, offset);
    assert forall m :: m in a.offsets ==> a.offsets[m] in a.offsets.Values;
    forall x | x in a.offsets.Values ensures x in b.offsets.Values {
      var n :| n in a.offsets && a.offsets[n] == x;
      assert b.offsets[n] == x;
    }
    assert b.offsets[name] == offset;
    assert b.offsets.Values == a.offsets.Values + {offset};
  }

  lemma ExtendsTrans(a: Alloc, b: Alloc, c: Alloc)
    ensures Extends(a, a) && (Extends(a, b) && Extends(b, c) ==> Extends(a, c))
  {}

  lemma StartSound(end: nat)
    ensures Sound(START, end)
  {}

  function Names(users: seq<User>): set<string> {
    set i | 0 <= i < |users| :: users[i].name
  }

  /** No two users of a listener have one name. */
  ghost predicate UniqueNames(users: seq<User>) {
    forall i, j :: 0 <= i < j < |users| ==> users[i].name != users[j].name
  }

  lemma NameIndex(users: seq<User>, n: string) returns (i: nat)
    requires n in Names(users)
    ensures i < |users| && users[i].name == n
  {
    i :| 0 <= i < |users| && users[i].name == n;
  }

  lemma NamesStep(users: seq<User>)
    requires users != []
    ensures Names(users) == Names(users[..|users| - 1]) + {users[|users| - 1].name}
    ensures UniqueNames(users) ==>
      UniqueNames(users[..|users| - 1]) && users[|users| - 1].name !in Names(users[..|users| - 1])
  {
    var rest, last := users[..|users| - 1], users[|users| - 1].name;
    forall n | n in Names(users) ensures n in Names(rest) + {last} {
      var i := NameIndex(users, n);
      if i < |rest| { assert rest[i].name == n; }
    }
    forall n | n in Names(rest) ensures n in Names(users) {
      var i := NameIndex(rest, n);
      assert users[i].name == n;
    }
    if UniqueNames(users) && last in Names(rest) {
      var i := NameIndex(rest, last);
      assert false;
    }
  }

  lemma {:induction false} NamesCount(users: seq<User>)
    requires UniqueNames(users)
    ensures |Names(users)| == |users|
  {
    hide Names, UniqueNames;
    if users == [] {
      NoNames(users);
    } else {
      NamesStep(users);
      NamesCount(users[..|users| - 1]);
    }
  }

  lemma NoNames(users: seq<User>)
    requires users == []
    ensures Names(users) == {} && UniqueNames(users)
  {}

  // ---- The declared ----

  /** Every declared address is a client's, and not one of an earlier user's. */
  ghost predicate DeclaredWell(s: Subnet, users: seq<User>) {
    users == []
    || (DeclaredWell(s, users[..|users| - 1])
        && (users[|users| - 1].address.Some? ==>
              var address := users[|users| - 1].address.value;
              InNetwork(s, address) && Fits(Offset(s, address), OffsetsEnd(s))
              && forall i :: 0 <= i < |users| - 1 ==> users[i].address != Some(address)))
  }

  /** What the first pass gives: each declared user their offset. */
  ghost predicate HoldsDeclared(s: Subnet, users: seq<User>, a: Alloc) {
    (forall i :: 0 <= i < |users| && users[i].address.Some? ==>
       users[i].name in a.offsets && a.offsets[users[i].name] == Offset(s, users[i].address.value))
    && (forall n :: n in a.offsets ==> IsDeclared(s, users, n, a.offsets[n]))
  }

  ghost predicate IsDeclared(s: Subnet, users: seq<User>, n: string, offset: int) {
    exists i :: 0 <= i < |users| && users[i].name == n && users[i].address.Some?
      && Offset(s, users[i].address.value) == offset
  }

  lemma IsDeclaredStep(s: Subnet, users: seq<User>, n: string, offset: int)
    requires users != []
    ensures IsDeclared(s, users, n, offset) <==>
      IsDeclared(s, users[..|users| - 1], n, offset)
      || (users[|users| - 1].name == n && users[|users| - 1].address.Some?
          && Offset(s, users[|users| - 1].address.value) == offset)
  {
    var rest := users[..|users| - 1];
    if IsDeclared(s, rest, n, offset) {
      var i :| 0 <= i < |rest| && rest[i].name == n && rest[i].address.Some?
        && Offset(s, rest[i].address.value) == offset;
      assert users[i] == rest[i];
    }
    if IsDeclared(s, users, n, offset) {
      var i :| 0 <= i < |users| && users[i].name == n && users[i].address.Some?
        && Offset(s, users[i].address.value) == offset;
      if i < |rest| { assert rest[i] == users[i]; }
    }
  }

  lemma IsDeclaredName(s: Subnet, users: seq<User>, n: string, offset: int)
    requires IsDeclared(s, users, n, offset)
    ensures n in Names(users)
  {}

  /** The first pass succeeds exactly on well declared addresses, and gives each to its user. */
  lemma {:induction false} DeclaredFacts(s: Subnet, users: seq<User>)
    requires UniqueNames(users)
    ensures DeclaredPass(s, users).Ok? <==> DeclaredWell(s, users)
    ensures DeclaredPass(s, users).Ok? ==>
      Sound(DeclaredPass(s, users).value, OffsetsEnd(s)) && HoldsDeclared(s, users, DeclaredPass(s, users).value)
    decreases |users|
  {
    hide OffsetsEnd, Sound, HoldsDeclared, UniqueNames, Names, InNetwork, Offset;
    if users == [] {
      StartSound(OffsetsEnd(s));
      NoneDeclared(s, users);
    } else {
      var rest, u := users[..|users| - 1], users[|users| - 1];
      NamesStep(users);
      DeclaredFacts(s, rest);
      var before := DeclaredPass(s, rest);
      if before.Ok? && u.address.Some? && InNetwork(s, u.address.value)
      && Fits(Offset(s, u.address.value), OffsetsEnd(s)) {
        TakenMeaning(s, rest, before.value, u.address.value);
        if Offset(s, u.address.value) !in before.value.taken {
          NotYetHeld(s, rest, before.value, u.name);
          GiveSound(before.value, u.name, Offset(s, u.address.value), OffsetsEnd(s));
          GiveDeclared(s, users, before.value);
        }
      } else if before.Ok? && u.address == None {
        PassOver(s, users, before.value);
      }
    }
  }

  lemma NoneDeclared(s: Subnet, users: seq<User>)
    requires users == []
    ensures HoldsDeclared(s, users, START)
  {}

  /** An offset that fits is taken after the first pass exactly when a user declared its address. */
  lemma TakenMeaning(s: Subnet, users: seq<User>, a: Alloc, address: Address)
    requires DeclaredWell(s, users) && Sound(a, OffsetsEnd(s)) && HoldsDeclared(s, users, a)
    requires InNetwork(s, address) && Fits(Offset(s, address), OffsetsEnd(s))
    ensures Offset(s, address) in a.taken <==> exists i :: 0 <= i < |users| && users[i].address == Some(address)
  {
    hide OffsetsEnd, DeclaredWell;
    var x := Offset(s, address);
    if x in a.taken {
      var n :| n in a.offsets && a.offsets[n] == x;
      var i :| 0 <= i < |users| && users[i].name == n && users[i].address.Some?
        && Offset(s, users[i].address.value) == x;
      DeclaredInside(s, users, i);
      assert users[i].address == Some(address);
    }
    if i :| 0 <= i < |users| && users[i].address == Some(address) {
      assert a.offsets[users[i].name] == x;
    }
  }

  lemma {:induction false} DeclaredInside(s: Subnet, users: seq<User>, i: nat)
    requires DeclaredWell(s, users) && i < |users| && users[i].address.Some?
    ensures InNetwork(s, users[i].address.value) && Fits(Offset(s, users[i].address.value), OffsetsEnd(s))
    decreases |users|
  {
    hide OffsetsEnd, InNetwork;
    if i < |users| - 1 { DeclaredInside(s, users[..|users| - 1], i); }
  }

  lemma NotYetHeld(s: Subnet, users: seq<User>, a: Alloc, name: string)
    requires HoldsDeclared(s, users, a) && name !in Names(users)
    ensures name !in a.offsets
  {
    hide Names;
    if name in a.offsets { IsDeclaredName(s, users, name, a.offsets[name]); }
  }

  lemma GiveDeclared(s: Subnet, users: seq<User>, a: Alloc)
    requires users != [] && users[|users| - 1].address.Some? && users[|users| - 1].name !in a.offsets
    requires HoldsDeclared(s, users[..|users| - 1], a)
    ensures HoldsDeclared(s, users, Give(a, users[|users| - 1].name, Offset(s, users[|users| - 1].address.value)))
  {
    hide IsDeclared;
    var rest, u := users[..|users| - 1], users[|users| - 1];
    var b := Give(a, u.name, Offset(s, u.address.value));
    forall n | n in b.offsets
      ensures IsDeclared(s, users, n, b.offsets[n])
    {
      IsDeclaredStep(s, users, n, b.offsets[n]);
    }
    forall i | 0 <= i < |users| && users[i].address.Some?
      ensures users[i].name in b.offsets && b.offsets[users[i].name] == Offset(s, users[i].address.value)
    {
      if i < |rest| { assert rest[i] == users[i]; }
    }
  }

  lemma PassOver(s: Subnet, users: seq<User>, a: Alloc)
    requires users != [] && users[|users| - 1].address == None && HoldsDeclared(s, users[..|users| - 1], a)
    ensures HoldsDeclared(s, users, a)
  {
    hide IsDeclared;
    forall n | n in a.offsets
      ensures IsDeclared(s, users, n, a.offsets[n])
    {
      IsDeclaredStep(s, users, n, a.offsets[n]);
    }
    forall i | 0 <= i < |users| && users[i].address.Some?
      ensures users[i].name in a.offsets && a.offsets[users[i].name] == Offset(s, users[i].address.value)
    {
      assert users[..|users| - 1][i] == users[i];
    }
  }

  // ---- The kept ----

  /** The second pass only adds users of the listener, each at the offset stored for them; one
      whose stored offset fits and is not theirs in the end finds it taken. */
  lemma {:induction false} KeptFacts(start: Alloc, users: seq<User>, stored: map<string, int>, end: nat)
    requires Sound(start, end)
    ensures var b := KeptPass(start, users, stored, end);
            Sound(b, end) && Extends(start, b)
            && (forall n :: n in b.offsets && n !in start.offsets ==>
                  n in stored && b.offsets[n] == stored[n] && n in Names(users))
            && (forall i :: 0 <= i < |users| && users[i].name in stored && Fits(stored[users[i].name], end) ==>
                  users[i].name in b.offsets || stored[users[i].name] in b.taken)
    decreases |users|
  {
    hide Sound, Names, Fits;
    if users != [] {
      var rest, name := users[..|users| - 1], users[|users| - 1].name;
      KeptFacts(start, rest, stored, end);
      NamesStep(users);
      var a := KeptPass(start, rest, stored, end);
      if Keeps(a, name, stored, end) { GiveSound(a, name, stored[name], end); }
      var b := KeptPass(start, users, stored, end);
      forall i | 0 <= i < |users| && users[i].name in stored && Fits(stored[users[i].name], end)
        ensures users[i].name in b.offsets || stored[users[i].name] in b.taken
      {
        if i < |rest| { assert rest[i] == users[i]; }
      }
    }
  }

  // ---- The free ----

  /** Up to each newcomer's offset, nothing is left free. */
  ghost predicate PackedBelow(start: Alloc, b: Alloc) {
    forall n, x :: n in b.offsets && n !in start.offsets && 2 <= x <= b.offsets[n] ==> x in b.taken
  }

  /** The third pass gives every other user an offset, and none that leaves a lower one free. */
  lemma {:induction false} FreeFacts(start: Alloc, users: seq<User>, end: nat)
    requires Sound(start, end)
    ensures FreePass(start, users, end).Ok? ==>
      var b := FreePass(start, users, end).value;
      Sound(b, end) && Extends(start, b) && b.offsets.Keys == start.offsets.Keys + Names(users) && PackedBelow(start, b)
    decreases |users|
  {
    hide Sound, Names, LeastFree, PackedBelow, Extends;
    if users == [] {
      NoNames(users);
      PackedStart(start);
      ExtendsTrans(start, start, start);
    } else {
      var rest, name := users[..|users| - 1], users[|users| - 1].name;
      FreeFacts(start, rest, end);
      NamesStep(users);
      if FreePass(start, users, end).Ok? {
        var a := FreePass(start, rest, end).value;
        if name !in a.offsets {
          var c := LeastFree(a.taken, 2, end);
          GiveSound(a, name, c, end);
          GivePacked(start, a, name, c, end);
          ExtendsTrans(start, a, Give(a, name, c));
        }
      }
    }
  }

  lemma PackedStart(start: Alloc)
    ensures PackedBelow(start, start)
  {}

  lemma GivePacked(start: Alloc, a: Alloc, name: string, c: nat, end: nat)
    requires PackedBelow(start, a) && name !in a.offsets && c == LeastFree(a.taken, 2, end) && c != end
    ensures PackedBelow(start, Give(a, name, c))
  {
    hide LeastFree;
    var b := Give(a, name, c);
    forall n, x | n in b.offsets && n !in start.offsets && 2 <= x <= b.offsets[n] ensures x in b.taken {
      if n != name { assert x in a.taken; }
    }
  }

  /** Newcomers get theirs in the order they come. */
  lemma {:induction false} FreeInOrder(start: Alloc, users: seq<User>, end: nat, i: nat, j: nat)
    requires Sound(start, end) && UniqueNames(users) && FreePass(start, users, end).Ok?
    requires i < j < |users| && users[i].name !in start.offsets && users[j].name !in start.offsets
    ensures var b := FreePass(start, users, end).value;
            users[i].name in b.offsets && users[j].name in b.offsets
            && b.offsets[users[i].name] < b.offsets[users[j].name]
    decreases |users|
  {
    hide Sound, Names, LeastFree, PackedBelow, UniqueNames, Extends;
    var rest, name := users[..|users| - 1], users[|users| - 1].name;
    NamesStep(users);
    FreeFacts(start, rest, end);
    var a := FreePass(start, rest, end).value;
    assert rest[i] == users[i];
    InNames(rest, i);
    if j < |rest| {
      assert rest[j] == users[j];
      FreeInOrder(start, rest, end, i, j);
      assert name != users[i].name && name != users[j].name by { InNames(rest, j); }
    } else {
      var o := a.offsets[users[i].name];
      var c := LeastFree(a.taken, 2, end);
      if c <= o { PackedTaken(start, a, users[i].name, c); }
    }
  }

  lemma InNames(users: seq<User>, i: nat)
    requires i < |users|
    ensures users[i].name in Names(users)
  {}

  lemma PackedTaken(start: Alloc, b: Alloc, n: string, x: int)
    requires PackedBelow(start, b) && n in b.offsets && n !in start.offsets && 2 <= x <= b.offsets[n]
    ensures x in b.taken
  {}

  // ---- Counting ----

  lemma {:induction false} InjectiveValues(m: map<string, int>)
    requires forall a, b :: a in m && b in m && a != b ==> m[a] != m[b]
    ensures |m.Values| == |m|
    decreases |m|
  {
    if m != map[] {
      var k :| k in m;
      var rest := m - {k};
      InjectiveValues(rest);
      assert m.Values == rest.Values + {m[k]} by {
        forall v | v in m.Values ensures v in rest.Values + {m[k]} {
          var n :| n in m && m[n] == v;
          if n != k { assert rest[n] == v; }
        }
      }
      assert m[k] !in rest.Values;
      assert |m| == |rest| + 1 by { assert m.Keys == rest.Keys + {k}; }
    }
  }

  function Range(a: int, b: int): (r: set<int>)
    ensures forall x :: x in r <==> a <= x < b
    decreases b - a
  {
    if a >= b then {} else Range(a, b - 1) + {b - 1}
  }

  lemma {:induction false} RangeCount(a: int, b: int)
    requires a <= b
    ensures |Range(a, b)| == b - a
    decreases b - a
  {
    if a < b {
      RangeCount(a, b - 1);
    }
  }

  lemma {:induction false} SubsetCount<T>(a: set<T>, b: set<T>)
    requires a <= b
    ensures |a| <= |b| && (|a| == |b| ==> a == b)
    decreases |b|
  {
    if a != {} {
      var x :| x in a;
      SubsetCount(a - {x}, b - {x});
      assert a == (a - {x}) + {x} && b == (b - {x}) + {x};
    }
  }

  /** The clients' offsets are as many as the holders, and no more than there is room for. */
  lemma HoldersCount(a: Alloc, end: nat)
    requires Sound(a, end)
    ensures |a.offsets.Values| == |a.offsets| <= if end < 2 then 0 else end - 2
    ensures end >= 2 && Range(2, end) <= a.taken ==> |a.offsets| == end - 2
  {
    InjectiveValues(a.offsets);
    if end >= 2 {
      RangeCount(2, end);
      SubsetCount(a.offsets.Values, Range(2, end));
      if Range(2, end) <= a.taken {
        assert Range(2, end) == a.offsets.Values;
      }
    } else {
      assert a.offsets.Values == {};
    }
  }

  /** The third pass fails exactly when there are more users than room. */
  lemma {:induction false} FreeFailure(start: Alloc, users: seq<User>, end: nat)
    requires Sound(start, end)
    ensures FreePass(start, users, end).Err? <==> |start.offsets.Keys + Names(users)| > (if end < 2 then 0 else end - 2)
    decreases |users|
  {
    hide Sound, Names, LeastFree, PackedBelow;
    FreeFacts(start, users, end);
    if users == [] {
      NoNames(users);
      HoldersCount(start, end);
      assert start.offsets.Keys + {} == start.offsets.Keys;
    } else {
      var rest, name := users[..|users| - 1], users[|users| - 1].name;
      NamesStep(users);
      FreeFailure(start, rest, end);
      FreeFacts(start, rest, end);
      var before, now := start.offsets.Keys + Names(rest), start.offsets.Keys + Names(users);
      assert now == before + {name};
      SubsetCount(before, now);
      if FreePass(start, users, end).Ok? {
        HoldersCount(FreePass(start, users, end).value, end);
      } else if FreePass(start, rest, end).Ok? {
        var a := FreePass(start, rest, end).value;
        HoldersCount(a, end);
        NoneFree(a.taken, end);
      }
    }
  }

  lemma NoneFree(taken: set<int>, end: nat)
    requires LeastFree(taken, 2, end) == end
    ensures Range(2, end) <= taken
  {}

  // ---- The allocation ----

  /** With unique names: well declared addresses are all it takes, and room for everyone. */
  lemma AllocateFailure(s: Subnet, users: seq<User>, stored: map<string, int>)
    requires UniqueNames(users)
    ensures Allocate(s, users, stored).Ok? <==> DeclaredWell(s, users) && |users| <= Capacity(s)
  {
    hide DeclaredWell, OffsetsEnd, Sound, Names, UniqueNames;
    DeclaredFacts(s, users);
    NamesCount(users);
    if DeclaredWell(s, users) {
      var a := DeclaredPass(s, users).value;
      KeptFacts(a, users, stored, OffsetsEnd(s));
      var kept := KeptPass(a, users, stored, OffsetsEnd(s));
      FreeFailure(kept, users, OffsetsEnd(s));
      HoldersAreUsers(s, users, a, kept);
      assert kept.offsets.Keys + Names(users) == Names(users);
    }
  }

  lemma HoldersAreUsers(s: Subnet, users: seq<User>, a: Alloc, kept: Alloc)
    requires HoldsDeclared(s, users, a)
    requires forall n :: n in kept.offsets && n !in a.offsets ==> n in Names(users)
    ensures kept.offsets.Keys <= Names(users)
  {
    hide Names;
    forall n | n in kept.offsets ensures n in Names(users) {
      if n in a.offsets { IsDeclaredName(s, users, n, a.offsets[n]); }
    }
  }

  ghost predicate IsClients(s: Subnet, address: Address) {
    InNetwork(s, address) && Fits(Offset(s, address), OffsetsEnd(s))
  }

  /** The first user whose address cannot be given, and why: it is no client's, or an earlier user's. */
  ghost predicate FirstRefused(s: Subnet, users: seq<User>, i: nat, error: Error) {
    i < |users| && users[i].address.Some? && DeclaredWell(s, users[..i])
    && var address := users[i].address.value;
       if !IsClients(s, address) then error == NotAClientAddress(users[i].name)
       else error == TakenTwice(users[i].name) && exists j :: 0 <= j < i && users[j].address == Some(address)
  }

  lemma {:induction false} DeclaredError(s: Subnet, users: seq<User>) returns (i: nat)
    requires UniqueNames(users) && DeclaredPass(s, users).Err?
    ensures FirstRefused(s, users, i, DeclaredPass(s, users).error)
    decreases |users|
  {
    hide OffsetsEnd, Sound, HoldsDeclared, Names, InNetwork, Offset;
    var n := |users| - 1;
    if DeclaredPass(s, users[..n]).Err? {
      i := DeclaredError(s, users[..n]);
      assert users[..n][..i] == users[..i];
      assert FirstRefused(s, users[..n], i, DeclaredPass(s, users).error);
    } else {
      i := n;
      DeclaredFacts(s, users[..n]);
      if IsClients(s, users[n].address.value) {
        TakenMeaning(s, users[..n], DeclaredPass(s, users[..n]).value, users[n].address.value);
      }
    }
  }

  lemma {:induction false} FreeError(start: Alloc, users: seq<User>, end: nat) returns (i: nat)
    requires FreePass(start, users, end).Err?
    ensures i < |users| && users[i].name !in start.offsets
      && FreePass(start, users, end).error == NoFreeAddress(users[i].name)
    decreases |users|
  {
    var n := |users| - 1;
    if FreePass(start, users[..n], end).Err? {
      i := FreeError(start, users[..n], end);
    } else {
      i := n;
      FreeKeeps(start, users[..n], end);
    }
  }

  lemma {:induction false} FreeKeeps(start: Alloc, users: seq<User>, end: nat)
    requires FreePass(start, users, end).Ok?
    ensures start.offsets.Keys <= FreePass(start, users, end).value.offsets.Keys
    decreases |users|
  {
    if users != [] { FreeKeeps(start, users[..|users| - 1], end); }
  }

  /** What an error says: the first user whose declared address cannot be given, or one without an
      address when there are more users than room. */
  lemma AllocateError(s: Subnet, users: seq<User>, stored: map<string, int>)
    requires UniqueNames(users) && Allocate(s, users, stored).Err?
    ensures var error := Allocate(s, users, stored).error;
            if DeclaredWell(s, users) then
              |users| > Capacity(s)
              && exists i :: 0 <= i < |users| && users[i].address == None && error == NoFreeAddress(users[i].name)
            else exists i: nat :: FirstRefused(s, users, i, error)
  {
    hide OffsetsEnd, Sound, Names, UniqueNames, FirstRefused, Capacity;
    AllocateFailure(s, users, stored);
    DeclaredFacts(s, users);
    if DeclaredWell(s, users) {
      var a := DeclaredPass(s, users).value;
      KeptFacts(a, users, stored, OffsetsEnd(s));
      var i := FreeError(KeptPass(a, users, stored, OffsetsEnd(s)), users, OffsetsEnd(s));
      assert users[i].address == None;
    } else {
      var i := DeclaredError(s, users);
    }
  }

  /** What an allocation is: every user a client offset of their own. */
  lemma AllocateSound(s: Subnet, users: seq<User>, stored: map<string, int>)
    requires UniqueNames(users) && Allocate(s, users, stored).Ok?
    ensures var offsets := Allocate(s, users, stored).value;
            offsets.Keys == Names(users)
            && (forall n :: n in offsets ==> Fits(offsets[n], OffsetsEnd(s)))
            && (forall m, n :: m in offsets && n in offsets && m != n ==> offsets[m] != offsets[n])
  {
    hide DeclaredWell, OffsetsEnd, Names, UniqueNames;
    DeclaredFacts(s, users);
    var a := DeclaredPass(s, users).value;
    KeptFacts(a, users, stored, OffsetsEnd(s));
    var kept := KeptPass(a, users, stored, OffsetsEnd(s));
    HoldersAreUsers(s, users, a, kept);
    FreeFacts(kept, users, OffsetsEnd(s));
  }

  /** A declared address is honoured. */
  lemma AllocateHonours(s: Subnet, users: seq<User>, stored: map<string, int>, i: nat)
    requires UniqueNames(users) && Allocate(s, users, stored).Ok? && i < |users| && users[i].address.Some?
    ensures users[i].name in Allocate(s, users, stored).value
    ensures Allocate(s, users, stored).value[users[i].name] == Offset(s, users[i].address.value)
    ensures users[i].address.value == Address(false, s.base + Allocate(s, users, stored).value[users[i].name])
  {
    hide DeclaredWell, OffsetsEnd, Names, UniqueNames, Sound;
    DeclaredFacts(s, users);
    DeclaredInside(s, users, i);
    var a := DeclaredPass(s, users).value;
    KeptFacts(a, users, stored, OffsetsEnd(s));
    FreeFacts(KeptPass(a, users, stored, OffsetsEnd(s)), users, OffsetsEnd(s));
  }

  /** A stored offset is kept by its user unless it no longer fits, or a declared address has
      taken it, or another user has it stored too. */
  lemma AllocateKeeps(s: Subnet, users: seq<User>, stored: map<string, int>, i: nat)
    requires UniqueNames(users) && Allocate(s, users, stored).Ok? && i < |users|
    requires users[i].address == None && users[i].name in stored && Fits(stored[users[i].name], OffsetsEnd(s))
    requires forall j :: 0 <= j < |users| && users[j].address.Some? ==>
      Offset(s, users[j].address.value) != stored[users[i].name]
    requires forall n :: n in stored && n != users[i].name ==> stored[n] != stored[users[i].name]
    ensures users[i].name in Allocate(s, users, stored).value
    ensures Allocate(s, users, stored).value[users[i].name] == stored[users[i].name]
  {
    hide DeclaredWell, OffsetsEnd, Names, Offset, FreePass, KeptPass, DeclaredPass;
    var name, end := users[i].name, OffsetsEnd(s);
    DeclaredFacts(s, users);
    var a := DeclaredPass(s, users).value;
    KeptFacts(a, users, stored, end);
    var kept := KeptPass(a, users, stored, end);
    FreeFacts(kept, users, end);
    UndeclaredFree(s, users, a, i, stored[name]);
    if name !in kept.offsets {
      assert stored[name] !in a.taken && stored[name] in kept.taken;
      var n := Holder(kept, stored[name], end);
      HoldsNot(a, n, stored[name], end);
      assert false;
    }
  }

  /** Whoever holds an offset that is taken and not this host's. */
  lemma Holder(a: Alloc, offset: int, end: nat) returns (n: string)
    requires Sound(a, end) && offset in a.taken && offset != 1
    ensures n in a.offsets && a.offsets[n] == offset
  {
    n :| n in a.offsets && a.offsets[n] == offset;
  }

  lemma HoldsNot(a: Alloc, n: string, offset: int, end: nat)
    requires Sound(a, end) && offset !in a.taken
    ensures n !in a.offsets || a.offsets[n] != offset
  {}

  lemma Declarer(s: Subnet, users: seq<User>, a: Alloc, n: string) returns (j: nat)
    requires HoldsDeclared(s, users, a) && n in a.offsets
    ensures j < |users| && users[j].name == n && users[j].address.Some?
      && Offset(s, users[j].address.value) == a.offsets[n]
  {
    j :| 0 <= j < |users| && users[j].name == n && users[j].address.Some?
      && Offset(s, users[j].address.value) == a.offsets[n];
  }

  /** Someone who declares nothing holds nothing after the first pass, and what nobody declares
      is not taken by it. */
  lemma UndeclaredFree(s: Subnet, users: seq<User>, a: Alloc, i: nat, offset: int)
    requires UniqueNames(users) && HoldsDeclared(s, users, a) && Sound(a, OffsetsEnd(s))
    requires i < |users| && users[i].address == None && offset != 1
    requires forall j :: 0 <= j < |users| && users[j].address.Some? ==> Offset(s, users[j].address.value) != offset
    ensures users[i].name !in a.offsets && offset !in a.taken
  {
    hide OffsetsEnd, Offset, HoldsDeclared, Sound;
    if users[i].name in a.offsets {
      var j := Declarer(s, users, a, users[i].name);
      assert false;
    }
    if offset in a.taken {
      var n := Holder(a, offset, OffsetsEnd(s));
      var j := Declarer(s, users, a, n);
      assert false;
    }
  }

  /** Well declared, said of the addresses all at once. */
  lemma {:induction false} DeclaredWellMeaning(s: Subnet, users: seq<User>)
    ensures DeclaredWell(s, users) <==>
      (forall i :: 0 <= i < |users| && users[i].address.Some? ==>
         InNetwork(s, users[i].address.value) && Fits(Offset(s, users[i].address.value), OffsetsEnd(s)))
      && (forall i, j :: 0 <= i < j < |users| && users[i].address.Some? ==> users[i].address != users[j].address)
    decreases |users|
  {
    hide OffsetsEnd, InNetwork, Fits, Offset;
    if users != [] {
      var rest := users[..|users| - 1];
      DeclaredWellMeaning(s, rest);
      assert forall i :: 0 <= i < |rest| ==> rest[i] == users[i];
    }
  }

  lemma SameNames(users: seq<User>, others: seq<User>)
    requires forall u :: u in users ==> u in others
    ensures Names(users) <= Names(others)
  {
    forall n | n in Names(users) ensures n in Names(others) {
      var i := NameIndex(users, n);
      assert users[i] in others;
      var j :| 0 <= j < |others| && others[j] == users[i];
      InNames(others, j);
    }
  }

  /** Well declared addresses are so in any order. */
  lemma DeclaredReordered(s: Subnet, users: seq<User>, reordered: seq<User>)
    requires UniqueNames(users) && UniqueNames(reordered) && DeclaredWell(s, users)
    requires forall u :: u in reordered ==> u in users
    ensures DeclaredWell(s, reordered)
  {
    hide OffsetsEnd, InNetwork, Fits, Offset, DeclaredWell;
    DeclaredWellMeaning(s, users);
    DeclaredWellMeaning(s, reordered);
    forall i | 0 <= i < |reordered| && reordered[i].address.Some?
      ensures InNetwork(s, reordered[i].address.value) && Fits(Offset(s, reordered[i].address.value), OffsetsEnd(s))
    {
      assert reordered[i] in users;
    }
    forall i, j | 0 <= i < j < |reordered| && reordered[i].address.Some?
      ensures reordered[i].address != reordered[j].address
    {
      assert reordered[i] in users && reordered[j] in users;
      var a :| 0 <= a < |users| && users[a] == reordered[i];
      var b :| 0 <= b < |users| && users[b] == reordered[j];
      assert a < b || b < a;
    }
  }

  /** Allocated again with the outcome as what is stored, in whatever order the users come: the
      same outcome. */
  lemma AllocateFixed(s: Subnet, users: seq<User>, reordered: seq<User>, stored: map<string, int>)
    requires UniqueNames(users) && UniqueNames(reordered) && forall u :: u in users <==> u in reordered
    requires Allocate(s, users, stored).Ok?
    ensures Allocate(s, reordered, Allocate(s, users, stored).value) == Allocate(s, users, stored)
  {
    hide OffsetsEnd, InNetwork, Fits, Offset, DeclaredWell, Allocate, Names, UniqueNames;
    var offsets := Allocate(s, users, stored).value;
    AllocateFailure(s, users, stored);
    DeclaredReordered(s, users, reordered);
    SameNames(users, reordered);
    SameNames(reordered, users);
    assert Names(users) == Names(reordered);
    NamesCount(users);
    NamesCount(reordered);
    AllocateFailure(s, reordered, offsets);
    AllocateSound(s, users, stored);
    AllocateSound(s, reordered, offsets);
    var again := Allocate(s, reordered, offsets).value;
    forall n | n in offsets ensures again[n] == offsets[n] {
      var i := NameIndex(reordered, n);
      AllocateFixedAt(s, users, reordered, stored, i);
    }
    assert again == offsets;
  }

  lemma AllocateFixedAt(s: Subnet, users: seq<User>, reordered: seq<User>, stored: map<string, int>, i: nat)
    requires UniqueNames(users) && UniqueNames(reordered) && forall u :: u in users <==> u in reordered
    requires Allocate(s, users, stored).Ok? && i < |reordered|
    requires Allocate(s, reordered, Allocate(s, users, stored).value).Ok?
    ensures reordered[i].name in Allocate(s, users, stored).value
    ensures reordered[i].name in Allocate(s, reordered, Allocate(s, users, stored).value).value
    ensures Allocate(s, reordered, Allocate(s, users, stored).value).value[reordered[i].name]
      == Allocate(s, users, stored).value[reordered[i].name]
  {
    hide OffsetsEnd, InNetwork, Fits, Offset, Allocate, Names;
    var offsets := Allocate(s, users, stored).value;
    AllocateSound(s, users, stored);
    assert reordered[i] in users;
    var k :| 0 <= k < |users| && users[k] == reordered[i];
    InNames(users, k);
    if reordered[i].address.Some? {
      AllocateHonours(s, users, stored, k);
      AllocateHonours(s, reordered, offsets, i);
    } else {
      forall j | 0 <= j < |reordered| && reordered[j].address.Some?
        ensures Offset(s, reordered[j].address.value) != offsets[reordered[i].name]
      {
        assert reordered[j] in users;
        var m :| 0 <= m < |users| && users[m] == reordered[j];
        AllocateHonours(s, users, stored, m);
        assert reordered[j].name != reordered[i].name;
      }
      AllocateKeeps(s, reordered, offsets, i);
    }
  }

  // ---- Runtime users joining ----

  /** merge_state's binding: each runtime user who is not there yet, as long as there is room. */
  method BindUsers(s: Subnet, users: seq<User>, names: seq<string>) returns (bound: seq<User>, problems: set<string>)
    ensures bound == Bound(s, users, names)
    // Whoever is not bound in the end has a problem, and nobody else does.
    ensures forall n :: n in problems <==> n in names && n !in Names(bound)
  {
    hide Capacity, Names;
    bound, problems := users, {};
    assert names[..0] == [];
    for i := 0 to |names|
      invariant bound == Bound(s, users, names[..i])
      invariant forall n :: n in problems <==> n in names[..i] && n !in Names(bound)
      invariant problems != {} ==> |bound| >= Capacity(s)
    {
      assert names[..i + 1] == names[..i] + [names[i]] && names[..i + 1][..i] == names[..i];
      if names[i] in Names(bound) {
        continue;
      }
      if |bound| >= Capacity(s) {
        problems := problems + {names[i]};
        continue;
      }
      NamesStep(bound + [User(names[i], None)]);
      assert (bound + [User(names[i], None)])[..|bound|] == bound;
      bound := bound + [User(names[i], None)];
    }
    assert names[..|names|] == names;
  }

  function Bound(s: Subnet, users: seq<User>, names: seq<string>): seq<User> {
    if names == [] then users
    else
      var before, name := Bound(s, users, names[..|names| - 1]), names[|names| - 1];
      if name in Names(before) || |before| >= Capacity(s) then before else before + [User(name, None)]
  }

  /** With that guard, and declared users who fit, the allocation cannot fail. */
  lemma {:induction false} GuardSuffices(s: Subnet, users: seq<User>, names: seq<string>, stored: map<string, int>)
    requires UniqueNames(users) && DeclaredWell(s, users) && |users| <= Capacity(s)
    ensures UniqueNames(Bound(s, users, names)) && DeclaredWell(s, Bound(s, users, names))
      && |Bound(s, users, names)| <= Capacity(s)
    ensures Allocate(s, Bound(s, users, names), stored).Ok?
    decreases |names|
  {
    hide Capacity, Allocate, OffsetsEnd, InNetwork, Offset, UniqueNames, Names;
    if names != [] {
      GuardSuffices(s, users, names[..|names| - 1], stored);
      var before, name := Bound(s, users, names[..|names| - 1]), names[|names| - 1];
      if name !in Names(before) { JoinUnique(before, name); }
      assert (before + [User(name, None)])[..|before|] == before;
    }
    AllocateFailure(s, Bound(s, users, names), stored);
  }

  lemma JoinUnique(users: seq<User>, name: string)
    requires UniqueNames(users) && name !in Names(users)
    ensures UniqueNames(users + [User(name, None)])
  {
    forall i | 0 <= i < |users| ensures users[i].name != name { InNames(users, i); }
  }
}
