/** Speed-limit slots (inbound_manager.py): which XRay policy level each limited user has. */
module Slots {
  import opened Wrappers
  import opened Ordering
  import Limits

  type Speed = Limits.Speed

  /** A policy's speed limit as one layer gives it: not at all, none, or one. */
  datatype Setting = Unset | Off | Limit(speed: Speed)

  /** What is stored for a user; a field that is no speed limit has a value that does not matter here. */
  datatype Entry = Entry(speedLimit: Setting, others: map<string, string>)

  const NO_ENTRY := Entry(Unset, map[])

  type Slots = map<string, nat>

  // ---- Slots ----

  /** A slot past the last one, lowered since it was given, is none. */
  predicate HasSlot(slots: Slots, name: string, n: nat) {
    name in slots && 0 < slots[name] <= n
  }

  predicate IsFree(slots: Slots, slot: nat) { slot !in slots.Values }

  /** The first free slot from k on, of n; 0 when there is none. */
  function FirstFree(slots: Slots, k: nat, n: nat): (slot: nat)
    requires k >= 1
    ensures slot == 0 || (k <= slot <= n && IsFree(slots, slot))
    ensures forall j :: k <= j && (j < slot || (slot == 0 && j <= n)) ==> !IsFree(slots, j)
    decreases n - k
  {
    if k > n then 0 else if IsFree(slots, k) then k else FirstFree(slots, k + 1, n)
  }

  /** The slots with one for the user, who keeps one they have; None when none is free. */
  function Allocated(slots: Slots, name: string, n: nat): Option<Slots> {
    if HasSlot(slots, name, n) then Some(slots)
    else
      var slot := FirstFree(slots - {name}, 1, n);
      if slot == 0 then None else Some((slots - {name})[name := slot])
  }

  ghost predicate Apart(slots: Slots) {
    forall a, b :: a in slots && b in slots && a != b ==> slots[a] != slots[b]
  }

  /** Every slot is someone else's. */
  ghost predicate AllTaken(slots: Slots, name: string, n: nat) {
    forall k :: 1 <= k <= n ==> Held(slots, name, k)
  }

  /** The slot is another user's. */
  ghost predicate Held(slots: Slots, name: string, k: nat) {
    exists other :: HasIt(slots, name, other, k)
  }

  ghost predicate HasIt(slots: Slots, name: string, other: string, k: nat) {
    other in slots && other != name && slots[other] == k
  }

  lemma HeldMeaning(slots: Slots, name: string, k: nat)
    ensures Held(slots, name, k) <==> !IsFree(slots - {name}, k)
  {
    var rest := slots - {name};
    if Held(slots, name, k) {
      var other :| HasIt(slots, name, other, k);
      assert rest[other] in rest.Values;
    }
    if !IsFree(rest, k) {
      var other :| other in rest && rest[other] == k;
      assert HasIt(slots, name, other, k);
    }
  }

  /** An allocation fails when every slot is another user's, and only then. */
  lemma AllocatedFails(slots: Slots, name: string, n: nat)
    ensures Allocated(slots, name, n) == None <==> !HasSlot(slots, name, n) && AllTaken(slots, name, n)
  {
    hide Held, IsFree, HasSlot;
    forall k | 1 <= k <= n ensures Held(slots, name, k) <==> !IsFree(slots - {name}, k) { HeldMeaning(slots, name, k); }
  }

  /** An allocation gives the user a slot, one of their own, and nobody else loses theirs. */
  lemma AllocatedApart(slots: Slots, name: string, n: nat)
    requires Apart(slots) && Allocated(slots, name, n).Some?
    ensures var after := Allocated(slots, name, n).value;
            Apart(after) && HasSlot(after, name, n) && after.Keys == slots.Keys + {name}
            && after - {name} == slots - {name}
  {
    if !HasSlot(slots, name, n) {
      var rest := slots - {name};
      var slot := FirstFree(rest, 1, n);
      var after := rest[name := slot];
      forall a | a in rest ensures rest[a] != slot { assert rest[a] in rest.Values; }
      assert after - {name} == rest;
    }
  }

  // ---- One tick ----

  /** What a tick does for one user. */
  function TickUser(slots: Slots, name: string, limited: bool, n: nat): Slots {
    if limited && !HasSlot(slots, name, n) then
      var without := slots - {name};
      var given := Allocated(without, name, n);
      if given.Some? then given.value else without
    else if !limited then slots - {name}
    else slots
  }

  function TickUsers(slots: Slots, names: seq<string>, limited: set<string>, n: nat): Slots {
    if names == [] then slots
    else
      var name := names[|names| - 1];
      TickUser(TickUsers(slots, names[..|names| - 1], limited, n), name, name in limited, n)
  }

  function TickSlots(slots: Slots, names: seq<string>, limited: set<string>, n: nat): Slots {
    var after := TickUsers(slots, names, limited, n);
    map name | name in after && name in names :: after[name]
  }

  /** Held by limited users alone, and every one a level that XRay has. */
  ghost predicate Clean(slots: Slots, limited: set<string>, n: nat) {
    forall name :: name in slots ==> name in limited && HasSlot(slots, name, n)
  }

  lemma TickUserApart(slots: Slots, name: string, limited: bool, n: nat)
    requires Apart(slots)
    ensures Apart(TickUser(slots, name, limited, n))
    ensures TickUser(slots, name, limited, n) - {name} == slots - {name}
    ensures name in TickUser(slots, name, limited, n) ==> limited && HasSlot(TickUser(slots, name, limited, n), name, n)
  {
    hide Allocated;
    var without := slots - {name};
    assert without - {name} == without;
    if limited && !HasSlot(slots, name, n) && Allocated(without, name, n).Some? {
      AllocatedApart(without, name, n);
    }
  }

  lemma {:induction false} TickUsersApart(slots: Slots, names: seq<string>, limited: set<string>, n: nat)
    requires Apart(slots) && forall i, j :: 0 <= i < j < |names| ==> names[i] != names[j]
    ensures var after := TickUsers(slots, names, limited, n);
            Apart(after)
            && forall i :: 0 <= i < |names| && names[i] in after ==> names[i] in limited && HasSlot(after, names[i], n)
    decreases |names|
  {
    hide Apart, TickUser;
    if names != [] {
      var rest, name := names[..|names| - 1], names[|names| - 1];
      var before := TickUsers(slots, rest, limited, n);
      TickUsersApart(slots, rest, limited, n);
      TickUserApart(before, name, name in limited, n);
      var after := TickUsers(slots, names, limited, n);
      forall i | 0 <= i < |names| && names[i] in after ensures names[i] in limited && HasSlot(after, names[i], n) {
        if i < |rest| {
          assert rest[i] == names[i] && names[i] != name;
          assert names[i] in after - {name} && (after - {name})[names[i]] == after[names[i]];
          assert names[i] in before - {name} && (before - {name})[names[i]] == before[names[i]];
        }
      }
    }
  }

  /** After any tick the slots are limited users' alone, and apart as before. */
  lemma TickCleans(slots: Slots, names: seq<string>, limited: set<string>, n: nat)
    requires Apart(slots) && forall i, j :: 0 <= i < j < |names| ==> names[i] != names[j]
    ensures Apart(TickSlots(slots, names, limited, n)) && Clean(TickSlots(slots, names, limited, n), limited, n)
    ensures TickSlots(slots, names, limited, n).Keys <= Elems(names)
  {
    TickUsersApart(slots, names, limited, n);
  }

  // ---- The second tick ----

  lemma TickUserClean(slots: Slots, name: string, limited: set<string>, n: nat)
    requires Apart(slots) && Clean(slots, limited, n)
    ensures var after := TickUser(slots, name, name in limited, n);
            Clean(after, limited, n) && Apart(after) && after.Keys <= slots.Keys + {name}
            && (forall m :: m in slots ==> m in after && after[m] == slots[m])
            && (name in limited && name !in after ==> AllTaken(after, name, n))
  {
    hide Allocated, AllTaken;
    TickUserApart(slots, name, name in limited, n);
    var after := TickUser(slots, name, name in limited, n);
    var without := slots - {name};
    assert name !in slots ==> without == slots;
    assert forall m :: m in after && m != name ==> m in after - {name};
    assert forall m :: m in slots && m != name ==>
      m in slots - {name} && m in after - {name} && after[m] == (after - {name})[m];
    if name in limited && name !in slots {
      AllocatedFails(slots, name, n);
      if Allocated(slots, name, n).Some? { AllocatedApart(slots, name, n); }
    }
  }

  lemma TakenGrows(slots: Slots, after: Slots, name: string, n: nat)
    requires AllTaken(slots, name, n) && forall m :: m in slots ==> m in after && after[m] == slots[m]
    ensures AllTaken(after, name, n)
  {
    forall k | 1 <= k <= n ensures Held(after, name, k) {
      assert Held(slots, name, k);
      var other :| HasIt(slots, name, other, k);
      assert HasIt(after, name, other, k);
    }
  }

  lemma {:induction false} TickUsersClean(slots: Slots, names: seq<string>, limited: set<string>, n: nat)
    requires Apart(slots) && Clean(slots, limited, n)
    ensures var after := TickUsers(slots, names, limited, n);
            Clean(after, limited, n) && Apart(after) && after.Keys <= slots.Keys + Elems(names)
            && (forall m :: m in slots ==> m in after && after[m] == slots[m])
            && (forall name :: name in names && name in limited && name !in after ==> AllTaken(after, name, n))
    decreases |names|
  {
    hide Apart, TickUser, Clean, AllTaken;
    if names != [] {
      var rest, last := names[..|names| - 1], names[|names| - 1];
      var before, after := TickUsers(slots, rest, limited, n), TickUsers(slots, names, limited, n);
      TickUsersClean(slots, rest, limited, n);
      TickUserClean(before, last, limited, n);
      assert names == rest + [last];
      forall name | name in names && name in limited && name !in after ensures AllTaken(after, name, n) {
        if name in rest { TakenGrows(before, after, name, n); }
      }
    }
  }

  /** Two ticks of the same policies settle it: a limited user lacks a slot only if limited users
      hold them all, n of them; and nothing changes from then on. */
  lemma TwoTicksSettle(slots: Slots, names: seq<string>, limited: set<string>, n: nat)
    requires Apart(slots) && forall i, j :: 0 <= i < j < |names| ==> names[i] != names[j]
    ensures var once := TickSlots(slots, names, limited, n);
            var twice := TickSlots(once, names, limited, n);
            Clean(twice, limited, n) && Apart(twice) && twice.Keys <= Elems(names)
            && (forall name :: name in once ==> name in twice && twice[name] == once[name])
            && (forall name :: name in names && name in limited && name !in twice ==> |twice| == n)
            && TickSlots(twice, names, limited, n) == twice
  {
    hide Apart, Clean, TickUsers, AllTaken;
    var once := TickSlots(slots, names, limited, n);
    TickCleans(slots, names, limited, n);
    TickUsersClean(once, names, limited, n);
    var twice := TickSlots(once, names, limited, n);
    assert twice == TickUsers(once, names, limited, n);
    forall name | name in names && name in limited && name !in twice ensures |twice| == n {
      AllHeld(twice, name, limited, n);
    }
    Settled(twice, names, limited, n);
  }

  lemma {:induction false} Settled(slots: Slots, names: seq<string>, limited: set<string>, n: nat)
    requires Apart(slots) && Clean(slots, limited, n) && slots.Keys <= Elems(names)
    requires forall name :: name in names && name in limited && name !in slots ==> AllTaken(slots, name, n)
    ensures TickSlots(slots, names, limited, n) == slots
  {
    hide Apart, TickUsers, AllTaken;
    SettledUsers(slots, names, limited, n);
  }

  lemma {:induction false} SettledUsers(slots: Slots, names: seq<string>, limited: set<string>, n: nat)
    requires Apart(slots) && Clean(slots, limited, n)
    requires forall name :: name in names && name in limited && name !in slots ==> AllTaken(slots, name, n)
    ensures TickUsers(slots, names, limited, n) == slots
    decreases |names|
  {
    hide Apart, AllTaken, Allocated;
    if names != [] {
      var rest, last := names[..|names| - 1], names[|names| - 1];
      assert forall name :: name in rest ==> name in names;
      SettledUsers(slots, rest, limited, n);
      assert last in names;
      if last !in slots {
        assert slots - {last} == slots;
        AllocatedFails(slots, last, n);
      }
    }
  }

  function Upto(n: nat): (s: set<nat>)
    ensures |s| == n && forall k :: k in s <==> 1 <= k <= n
  {
    if n == 0 then {} else Upto(n - 1) + {n}
  }

  lemma {:induction false} CountValues(slots: Slots)
    requires Apart(slots)
    ensures |slots.Values| == |slots|
    decreases |slots|
  {
    if slots != map[] {
      var name :| name in slots;
      var rest := slots - {name};
      CountValues(rest);
      assert slots.Keys == rest.Keys + {name};
      assert slots.Values == rest.Values + {slots[name]} by {
        forall v | v in slots.Values ensures v in rest.Values + {slots[name]} {
          var m :| m in slots && slots[m] == v;
          if m != name { assert rest[m] == v; }
        }
      }
      assert slots[name] !in rest.Values;
    }
  }

  /** All n taken, none past the last, none twice: n users. */
  lemma AllHeld(slots: Slots, name: string, limited: set<string>, n: nat)
    requires Apart(slots) && Clean(slots, limited, n) && AllTaken(slots, name, n)
    ensures |slots| == n
  {
    CountValues(slots);
    forall k | 1 <= k <= n ensures k in slots.Values {
      assert Held(slots, name, k);
      var other :| HasIt(slots, name, other, k);
      assert slots[other] in slots.Values;
    }
    assert slots.Values == Upto(n);
  }

  // ---- The manager ----

  datatype State = State(n: nat, declared: map<string, Setting>, runtime: set<string>, stored: map<string, Entry>,
      slots: Slots)

  function StoredEntry(stored: map<string, Entry>, name: string): Entry {
    if name in stored then stored[name] else NO_ENTRY
  }

  /** The declared policy, then the stored one over it. */
  function Effective(declared: map<string, Setting>, stored: map<string, Entry>, name: string): Option<Speed> {
    var mine := StoredEntry(stored, name).speedLimit;
    var setting := if mine != Unset then mine else if name in declared then declared[name] else Unset;
    if setting.Limit? then Some(setting.speed) else None
  }

  function Names(s: State): set<string> { s.declared.Keys + s.runtime }

  function Limited(s: State): set<string> {
    set name | name in Names(s) && Effective(s.declared, s.stored, name).Some?
  }

  /** An entry that says nothing is not kept. */
  function Store(stored: map<string, Entry>, name: string, e: Entry): map<string, Entry> {
    if e == NO_ENTRY then stored - {name} else stored[name := e]
  }

  /** What of an entry can be unset. */
  datatype Unsetting = Unsetting(speedLimit: bool, others: set<string>)

  function Updated(e: Entry, fields: Entry, unset: Unsetting): Entry {
    Entry(if unset.speedLimit then Unset else if fields.speedLimit != Unset then fields.speedLimit else e.speedLimit,
          (e.others + fields.others) - unset.others)
  }

  /** What can happen to the slots: the manager's calls, and the host rebuilt with other declared
      users or slots. A call may be refused for other reasons: then it is not listed. */
  datatype Op =
    | SetPolicy(name: string, fields: Entry, unset: Unsetting)
    | Create(name: string, fields: Entry)
    | Delete(name: string)
    | Tick
    | Import(users: set<string>, policies: map<string, Entry>, replace: bool, slotted: seq<string>)
    | Rebuild(n: nat, declared: map<string, Setting>)

  function Merged(stored: map<string, Entry>, incoming: map<string, Entry>, replace: bool): map<string, Entry> {
    if replace then stored + incoming else incoming + stored
  }

  function AllocatedAll(slots: Slots, names: seq<string>, declared: map<string, Setting>, stored: map<string, Entry>,
      n: nat): Option<Slots> {
    if names == [] then Some(slots)
    else
      var before := AllocatedAll(slots, names[..|names| - 1], declared, stored, n);
      var name := names[|names| - 1];
      if before == None || HasSlot(before.value, name, n) || Effective(declared, stored, name) == None then before
      else Allocated(before.value, name, n)
  }

  function Step(s: State, op: Op): State {
    match op
    case SetPolicy(name, fields, unset) =>
      var stored := Store(s.stored, name, Updated(StoredEntry(s.stored, name), fields, unset));
      var slots := if Effective(s.declared, stored, name).Some? then Allocated(s.slots, name, s.n) else Some(s.slots);
      if name !in Names(s) || slots == None then s else s.(stored := stored, slots := slots.value)
    case Create(name, fields) =>
      var without := s.slots - {name};
      var slots := if fields.speedLimit.Limit? then Allocated(without, name, s.n) else Some(without);
      if name in Names(s) || slots == None then s
      else s.(runtime := s.runtime + {name}, stored := Store(s.stored, name, fields), slots := slots.value)
    case Delete(name) =>
      if name !in s.runtime then s
      else s.(runtime := s.runtime - {name}, stored := s.stored - {name}, slots := s.slots - {name})
    case Tick => s.(slots := TickSlots(s.slots, Sorted(Names(s)), Limited(s), s.n))
    case Import(users, policies, replace, slotted) =>
      var stored := Merged(s.stored, policies, replace);
      var slots := AllocatedAll(s.slots, slotted, s.declared, stored, s.n);
      s.(runtime := s.runtime + users, stored := stored, slots := if slots.Some? then slots.value else s.slots)
    case Rebuild(n, declared) => s.(n := n, declared := declared)
  }

  function Run(s: State, ops: seq<Op>): State {
    if ops == [] then s else Step(Run(s, ops[..|ops| - 1]), ops[|ops| - 1])
  }

  lemma {:induction false} AllocatedAllApart(slots: Slots, names: seq<string>, declared: map<string, Setting>,
      stored: map<string, Entry>, n: nat)
    requires Apart(slots)
    ensures AllocatedAll(slots, names, declared, stored, n).Some? ==>
      Apart(AllocatedAll(slots, names, declared, stored, n).value)
    decreases |names|
  {
    hide Apart, Allocated, Effective;
    if names != [] {
      AllocatedAllApart(slots, names[..|names| - 1], declared, stored, n);
      var before := AllocatedAll(slots, names[..|names| - 1], declared, stored, n);
      if before.Some? && Allocated(before.value, names[|names| - 1], n).Some? {
        AllocatedApart(before.value, names[|names| - 1], n);
      }
    }
  }

  lemma WithoutApart(slots: Slots, name: string)
    requires Apart(slots)
    ensures Apart(slots - {name})
  {}

  lemma StepApart(s: State, op: Op)
    requires Apart(s.slots)
    ensures Apart(Step(s, op).slots)
  {
    hide Apart, Allocated, Effective, TickSlots, Updated, Store, Sorted, AllocatedAll, Merged;
    match op
    case SetPolicy(name, fields, unset) =>
      if Allocated(s.slots, name, s.n).Some? { AllocatedApart(s.slots, name, s.n); }
    case Create(name, fields) =>
      WithoutApart(s.slots, name);
      if Allocated(s.slots - {name}, name, s.n).Some? { AllocatedApart(s.slots - {name}, name, s.n); }
    case Delete(name) => WithoutApart(s.slots, name);
    case Tick => TickCleans(s.slots, Sorted(Names(s)), Limited(s), s.n);
    case Import(users, policies, replace, slotted) =>
      AllocatedAllApart(s.slots, slotted, s.declared, Merged(s.stored, policies, replace), s.n);
    case Rebuild(n, declared) =>
  }

  /** Whatever happens, from no slots on: no two users share one. */
  lemma {:induction false} RunApart(s: State, ops: seq<Op>)
    requires s.slots == map[]
    ensures Apart(Run(s, ops).slots)
    decreases |ops|
  {
    hide Step;
    if ops != [] {
      RunApart(s, ops[..|ops| - 1]);
      StepApart(Run(s, ops[..|ops| - 1]), ops[|ops| - 1]);
    }
  }

  /** Two ticks after any run, the slots belong to limited users and a limited user is without one
      only if there are n who have one. */
  lemma RunSettles(s: State, ops: seq<Op>, name: string)
    requires s.slots == map[]
    ensures var r := Run(s, ops + [Tick, Tick]);
            r == Run(s, ops).(slots := r.slots) && r.slots.Keys <= Limited(r) && Clean(r.slots, Limited(r), r.n)
            && (name in Limited(r) && name !in r.slots ==> |r.slots| == r.n)
  {
    hide Apart, TickSlots, Sorted, Effective, Step, Limited, Names, Run, Clean;
    var before := Run(s, ops);
    RunApart(s, ops);
    RunMore(s, ops, Tick);
    RunMore(s, ops + [Tick], Tick);
    assert ops + [Tick] + [Tick] == ops + [Tick, Tick];
    var once := Step(before, Tick);
    TickStep(before);
    TickStep(once);
    TwoTicksSettle(before.slots, Sorted(Names(before)), Limited(before), before.n);
    var twice := Step(once, Tick);
    LimitedSame(before, twice);
    CleanKeys(twice.slots, Limited(twice), twice.n);
    if name in Limited(twice) && name !in twice.slots { LimitedNamed(before, name); }
  }

  lemma RunMore(s: State, ops: seq<Op>, op: Op)
    ensures Run(s, ops + [op]) == Step(Run(s, ops), op)
  {
    assert (ops + [op])[..|ops|] == ops;
  }

  lemma TickStep(s: State)
    ensures Step(s, Tick) == s.(slots := TickSlots(s.slots, Sorted(Names(s)), Limited(s), s.n))
    ensures Names(Step(s, Tick)) == Names(s) && Limited(Step(s, Tick)) == Limited(s)
  {
    hide TickSlots, Sorted, Effective;
  }

  lemma LimitedSame(s: State, t: State)
    requires t == s.(slots := t.slots)
    ensures Limited(t) == Limited(s)
  {
    hide Effective;
  }

  lemma CleanKeys(slots: Slots, limited: set<string>, n: nat)
    requires Clean(slots, limited, n)
    ensures slots.Keys <= limited
  {}

  lemma LimitedNamed(s: State, name: string)
    requires name in Limited(s)
    ensures name in Sorted(Names(s))
  {
    hide Effective, Sorted;
  }

  // ---- What the calls do ----

  /** The user's own limit: the stored one, or the declared one if nothing is stored about it. */
  predicate LimitedTo(declared: map<string, Setting>, stored: map<string, Entry>, name: string, speed: Speed) {
    (name in stored && stored[name].speedLimit == Limit(speed))
    || ((name in stored ==> stored[name].speedLimit == Unset) && name in declared && declared[name] == Limit(speed))
  }

  lemma EffectiveMeaning(declared: map<string, Setting>, stored: map<string, Entry>, name: string, speed: Speed)
    ensures Effective(declared, stored, name) == Some(speed) <==> LimitedTo(declared, stored, name, speed)
  {}

  function SettingOf(stored: map<string, Entry>, name: string): Setting {
    if name in stored then stored[name].speedLimit else Unset
  }

  function FieldOf(stored: map<string, Entry>, name: string, field: string): Option<string> {
    if name in stored && field in stored[name].others then Some(stored[name].others[field]) else None
  }

  /** Fields given are stored, unset ones gone, the rest and everyone else's as before; an entry that
      says nothing is not kept. */
  ghost predicate EntrySet(before: map<string, Entry>, after: map<string, Entry>, name: string, fields: Entry,
      unset: Unsetting)
  {
    SettingOf(after, name) ==
      (if unset.speedLimit then Unset else if fields.speedLimit == Unset then SettingOf(before, name)
      else fields.speedLimit)
    && (forall f :: FieldOf(after, name, f) ==
         if f in unset.others then None else if f in fields.others then Some(fields.others[f])
         else FieldOf(before, name, f))
    && after - {name} == before - {name}
    && (name in after ==> after[name].speedLimit != Unset || after[name].others != map[])
  }

  /** Whether the policy limits with these fields set: by what is given, else stored, else declared. */
  predicate WillLimit(s: State, name: string, fields: Entry, unset: Unsetting) {
    var mine := if unset.speedLimit then Unset else if fields.speedLimit != Unset then fields.speedLimit
                else SettingOf(s.stored, name);
    mine.Limit? || (mine == Unset && name in s.declared && s.declared[name].Limit?)
  }

  /** The user has a slot: the one they had, or else the first that is nobody else's. */
  ghost predicate Given(before: Slots, after: Slots, name: string, n: nat) {
    HasSlot(after, name, n) && after - {name} == before - {name} && after.Keys == before.Keys + {name}
    && (HasSlot(before, name, n) ==> after == before)
    && !Held(before, name, after[name])
    && (!HasSlot(before, name, n) ==> forall k :: 1 <= k < after[name] ==> Held(before, name, k))
  }

  lemma AllocatedGiven(slots: Slots, name: string, n: nat)
    requires Apart(slots)
    ensures Allocated(slots, name, n).Some? <==> !AllTaken(slots, name, n)
    ensures Allocated(slots, name, n).Some? ==> Given(slots, Allocated(slots, name, n).value, name, n)
  {
    hide Held, IsFree, Apart;
    AllocatedFails(slots, name, n);
    if HasSlot(slots, name, n) {
      OwnSlot(slots, name);
      assert !Held(slots, name, slots[name]);
    }
    if Allocated(slots, name, n).Some? {
      AllocatedApart(slots, name, n);
      forall k | 1 <= k <= n
        ensures Held(slots, name, k) <==> !IsFree(slots - {name}, k)
      {
        HeldMeaning(slots, name, k);
      }
    }
  }

  lemma OwnSlot(slots: Slots, name: string)
    requires Apart(slots) && name in slots
    ensures !Held(slots, name, slots[name])
  {}

  /** Set or refused: refused when the name is nobody's, or the policy then limits and every slot is
      another user's, and only then. */
  ghost predicate Settable(s: State, name: string, fields: Entry, unset: Unsetting) {
    (name in s.declared || name in s.runtime) && !(WillLimit(s, name, fields, unset) && AllTaken(s.slots, name, s.n))
  }

  ghost predicate PolicySet(s: State, t: State, name: string, fields: Entry, unset: Unsetting) {
    t == s.(stored := t.stored, slots := t.slots) && EntrySet(s.stored, t.stored, name, fields, unset)
    && if WillLimit(s, name, fields, unset) then Given(s.slots, t.slots, name, s.n) else t.slots == s.slots
  }

  lemma UpdatedSet(stored: map<string, Entry>, name: string, fields: Entry, unset: Unsetting)
    ensures EntrySet(stored, Store(stored, name, Updated(StoredEntry(stored, name), fields, unset)), name, fields,
                     unset)
  {}

  lemma WillLimitMeaning(s: State, t: State, name: string, fields: Entry, unset: Unsetting)
    requires EntrySet(s.stored, t.stored, name, fields, unset) && t.declared == s.declared
    ensures WillLimit(s, name, fields, unset) <==> Effective(t.declared, t.stored, name).Some?
  {}

  lemma SettingMeaning(s: State, t: State, name: string, fields: Entry, unset: Unsetting)
    requires EntrySet(s.stored, t.stored, name, fields, unset) && t.declared == s.declared
    ensures fields.speedLimit.Limit? && !unset.speedLimit ==>
              LimitedTo(t.declared, t.stored, name, fields.speedLimit.speed)
    ensures unset.speedLimit && name in s.declared && s.declared[name].Limit? ==>
              LimitedTo(t.declared, t.stored, name, s.declared[name].speed)
    ensures fields.speedLimit == Off && !unset.speedLimit ==>
              forall speed :: !LimitedTo(t.declared, t.stored, name, speed)
  {}

  lemma SetPolicyMeaning(s: State, name: string, fields: Entry, unset: Unsetting)
    requires Apart(s.slots)
    ensures var t := Step(s, SetPolicy(name, fields, unset));
            if Settable(s, name, fields, unset) then PolicySet(s, t, name, fields, unset) else t == s
  {
    hide Apart, Allocated, Effective, Store, Updated, EntrySet, WillLimit, AllTaken, Given;
    var stored := Store(s.stored, name, Updated(StoredEntry(s.stored, name), fields, unset));
    UpdatedSet(s.stored, name, fields, unset);
    WillLimitMeaning(s, s.(stored := stored), name, fields, unset);
    AllocatedGiven(s.slots, name, s.n);
  }

  /** A user is made with what is given, or refused for the name or for want of a slot. */
  ghost predicate Creatable(s: State, name: string, fields: Entry) {
    name !in s.declared && name !in s.runtime && !(fields.speedLimit.Limit? && AllTaken(s.slots, name, s.n))
  }

  ghost predicate Created(s: State, t: State, name: string, fields: Entry) {
    t == s.(runtime := s.runtime + {name}, stored := t.stored, slots := t.slots)
    && t.stored - {name} == s.stored - {name} && SettingOf(t.stored, name) == fields.speedLimit
    && (forall f :: FieldOf(t.stored, name, f) == if f in fields.others then Some(fields.others[f]) else None)
    && (name in t.stored ==> t.stored[name].speedLimit != Unset || t.stored[name].others != map[])
    && if fields.speedLimit.Limit? then Given(s.slots - {name}, t.slots, name, s.n) else t.slots == s.slots - {name}
  }

  lemma CreateMeaning(s: State, name: string, fields: Entry)
    requires Apart(s.slots)
    ensures var t := Step(s, Create(name, fields));
            if Creatable(s, name, fields) then Created(s, t, name, fields) else t == s
  {
    hide Apart, Allocated, AllTaken, Given;
    WithoutApart(s.slots, name);
    AllocatedGiven(s.slots - {name}, name, s.n);
    TakenWithout(s.slots, name, s.n);
  }

  lemma TakenWithout(slots: Slots, name: string, n: nat)
    ensures AllTaken(slots - {name}, name, n) <==> AllTaken(slots, name, n)
  {
    forall k ensures Held(slots - {name}, name, k) <==> Held(slots, name, k) {
      if other :| HasIt(slots, name, other, k) { assert HasIt(slots - {name}, name, other, k); }
      if other :| HasIt(slots - {name}, name, other, k) { assert HasIt(slots, name, other, k); }
    }
  }

  predicate IsLimited(s: State, name: string) {
    if SettingOf(s.stored, name) != Unset then s.stored[name].speedLimit.Limit?
    else name in s.declared && s.declared[name].Limit?
  }

  lemma LimitedMeaning(s: State, name: string)
    requires name in s.declared || name in s.runtime
    ensures name in Limited(s) <==> IsLimited(s, name)
  {}

  /** A limited user keeps a slot that counts; who has one after the tick is limited; and who is
      limited and has none found every slot another's, before the tick or after it. */
  ghost predicate Ticked(s: State, t: State) {
    t == s.(slots := t.slots)
    && (forall name :: name in t.slots ==> (name in s.declared || name in s.runtime) && IsLimited(s, name))
    && forall name :: (name in s.declared || name in s.runtime) && IsLimited(s, name) ==> Served(s, t, name)
  }

  ghost predicate Served(s: State, t: State, name: string) {
    (HasSlot(s.slots, name, s.n) ==> name in t.slots && t.slots[name] == s.slots[name])
    && (name in t.slots ==> HasSlot(t.slots, name, s.n))
    && (name !in t.slots ==>
          forall k :: 1 <= k <= s.n ==> Held(s.slots, name, k) || Held(t.slots, name, k))
  }

  /** Nobody who is not named gains or loses anything by it. */
  predicate SameFor(a: Slots, b: Slots, name: string) {
    (name in a <==> name in b) && (name in a ==> a[name] == b[name])
  }

  lemma TickUserOthers(slots: Slots, name: string, limited: bool, n: nat, other: string)
    requires Apart(slots)
    ensures other != name || (limited && HasSlot(slots, name, n)) ==>
      SameFor(TickUser(slots, name, limited, n), slots, other)
  {
    hide Allocated, Apart;
    TickUserApart(slots, name, limited, n);
    var after := TickUser(slots, name, limited, n);
    assert other != name ==> SameFor(after - {name}, after, other) && SameFor(slots - {name}, slots, other);
  }

  lemma {:induction false} TickUsersOthers(slots: Slots, names: seq<string>, limited: set<string>, n: nat, name: string)
    requires Apart(slots) && forall i, j :: 0 <= i < j < |names| ==> names[i] != names[j]
    ensures name !in names || (name in limited && HasSlot(slots, name, n)) ==>
      SameFor(TickUsers(slots, names, limited, n), slots, name)
    decreases |names|
  {
    hide Apart, TickUser;
    if names != [] {
      var rest, last := names[..|names| - 1], names[|names| - 1];
      assert names == rest + [last];
      TickUsersApart(slots, rest, limited, n);
      TickUsersOthers(slots, rest, limited, n, name);
      TickUserOthers(TickUsers(slots, rest, limited, n), last, last in limited, n, name);
    }
  }

  lemma {:induction false} TickUsersLack(slots: Slots, names: seq<string>, limited: set<string>, n: nat, name: string,
      k: nat)
    requires Apart(slots) && forall i, j :: 0 <= i < j < |names| ==> names[i] != names[j]
    requires name in names && name in limited && name !in TickUsers(slots, names, limited, n) && 1 <= k <= n
    ensures Held(slots, name, k) || Held(TickUsers(slots, names, limited, n), name, k)
    decreases |names|
  {
    hide Apart, TickUser, AllTaken, Held, Allocated;
    var rest, last := names[..|names| - 1], names[|names| - 1];
    assert names == rest + [last];
    var before, after := TickUsers(slots, rest, limited, n), TickUsers(slots, names, limited, n);
    TickUsersApart(slots, rest, limited, n);
    TickUsersOthers(slots, rest, limited, n, last);
    if name == last {
      LacksAll(before, last, n);
    } else {
      TickUserOthers(before, last, last in limited, n, name);
      TickUsersLack(slots, rest, limited, n, name, k);
    }
    if !Held(slots, name, k) {
      var other := Holder(before, name, k);
      TickUsersOthers(slots, rest, limited, n, other);
      TickUserOthers(before, last, last in limited, n, other);
      HolderOf(after, name, other, k);
      HolderOf(slots, name, other, k);
      if other in rest {
        var i :| 0 <= i < |rest| && rest[i] == other;
      }
    }
  }

  lemma LacksAll(slots: Slots, name: string, n: nat)
    requires name !in TickUser(slots, name, true, n)
    ensures forall k :: 1 <= k <= n ==> Held(slots, name, k)
  {
    hide Allocated, Held;
    AllocatedFails(slots - {name}, name, n);
    TakenWithout(slots, name, n);
    assert HasSlot(slots, name, n) ==> name in slots;
    if Allocated(slots - {name}, name, n).Some? { GivenOne(slots - {name}, name, n); }
  }

  lemma GivenOne(slots: Slots, name: string, n: nat)
    requires Allocated(slots, name, n).Some?
    ensures name in Allocated(slots, name, n).value
  {}

  ghost function Holder(slots: Slots, name: string, k: nat): (other: string)
    requires Held(slots, name, k)
    ensures HasIt(slots, name, other, k)
  {
    var other :| HasIt(slots, name, other, k);
    other
  }

  lemma HolderOf(slots: Slots, name: string, other: string, k: nat)
    ensures HasIt(slots, name, other, k) ==> Held(slots, name, k)
  {}

  lemma TickMeaning(s: State)
    requires Apart(s.slots)
    ensures Ticked(s, Step(s, Tick))
  {
    hide Apart, Effective, Sorted, TickUsers, Held, IsLimited, HasSlot, Limited;
    var names, t := Sorted(Names(s)), Step(s, Tick);
    var after := TickUsers(s.slots, names, Limited(s), s.n);
    TickCleans(s.slots, names, Limited(s), s.n);
    forall name ensures (name in names <==> name in s.declared || name in s.runtime) {}
    forall name | name in t.slots ensures IsLimited(s, name) {
      LimitedMeaning(s, name);
    }
    forall name | name in names && IsLimited(s, name) ensures Served(s, t, name) {
      LimitedMeaning(s, name);
      TickUsersOthers(s.slots, names, Limited(s), s.n, name);
      HasOne(s.slots, name, s.n);
      if name !in t.slots {
        forall k | 1 <= k <= s.n ensures Held(s.slots, name, k) || Held(t.slots, name, k) {
          TickUsersLack(s.slots, names, Limited(s), s.n, name, k);
          if !Held(s.slots, name, k) {
            var other := Holder(after, name, k);
            TickUsersOthers(s.slots, names, Limited(s), s.n, other);
            HolderOf(s.slots, name, other, k);
            HolderOf(t.slots, name, other, k);
          }
        }
      }
    }
  }

  lemma HasOne(slots: Slots, name: string, n: nat)
    ensures HasSlot(slots, name, n) ==> name in slots
  {}

  /** Those of the names whose policy limits. */
  function LimitedOf(names: seq<string>, declared: map<string, Setting>, stored: map<string, Entry>): set<string> {
    set name | name in names && Effective(declared, stored, name).Some?
  }

  /** All of these users have slots, who had one that counts keeps it, and nobody else's changes. */
  ghost predicate AllGiven(before: Slots, after: Slots, wanted: set<string>, n: nat) {
    Apart(after) && (forall name :: name in wanted ==> HasSlot(after, name, n))
    && (forall name :: name !in wanted || HasSlot(before, name, n) ==> SameFor(after, before, name))
  }

  /** There is a way for all of them to have slots, everyone else as they are. */
  ghost predicate Room(slots: Slots, wanted: set<string>, n: nat) {
    exists after :: AllGiven(slots, after, wanted, n)
  }

  /** Policies taken in: one that is here already stays, unless it is to be replaced. */
  ghost predicate PoliciesTaken(before: map<string, Entry>, after: map<string, Entry>, incoming: map<string, Entry>,
      replace: bool)
  {
    (forall name :: name in after <==> name in before || name in incoming)
    && forall name :: name in after ==>
         after[name] == if name in incoming && (replace || name !in before) then incoming[name] else before[name]
  }

  lemma MergedMeaning(stored: map<string, Entry>, incoming: map<string, Entry>, replace: bool)
    ensures PoliciesTaken(stored, Merged(stored, incoming, replace), incoming, replace)
  {}

  /** They are all given slots exactly when they can be. */
  lemma ImportMeaning(slots: Slots, names: seq<string>, declared: map<string, Setting>, stored: map<string, Entry>,
      n: nat)
    requires Apart(slots)
    ensures var given, wanted := AllocatedAll(slots, names, declared, stored, n), LimitedOf(names, declared, stored);
            (given.Some? <==> Room(slots, wanted, n))
            && (given.Some? ==> AllGiven(slots, given.value, wanted, n))
  {
    hide Apart, AllocatedAll, LimitedOf, AllGiven;
    var wanted := LimitedOf(names, declared, stored);
    if AllocatedAll(slots, names, declared, stored, n).Some? {
      AllocatedAllGives(slots, names, declared, stored, n);
    }
    if after :| AllGiven(slots, after, wanted, n) {
      AllocatedAllIfRoom(slots, names, declared, stored, n, wanted, after);
    }
  }

  lemma {:induction false} AllocatedAllGives(slots: Slots, names: seq<string>, declared: map<string, Setting>,
      stored: map<string, Entry>, n: nat)
    requires Apart(slots) && AllocatedAll(slots, names, declared, stored, n).Some?
    ensures AllGiven(slots, AllocatedAll(slots, names, declared, stored, n).value, LimitedOf(names, declared, stored),
                     n)
    decreases |names|
  {
    hide Apart, Allocated, Effective, LimitedOf;
    LimitedMore(names, declared, stored);
    if names != [] {
      var rest, last := names[..|names| - 1], names[|names| - 1];
      AllocatedAllGives(slots, rest, declared, stored, n);
      var before := AllocatedAll(slots, rest, declared, stored, n).value;
      var after := AllocatedAll(slots, names, declared, stored, n).value;
      if !HasSlot(before, last, n) && Effective(declared, stored, last).Some? {
        AllocatedApart(before, last, n);
        GivenMore(slots, before, after, LimitedOf(rest, declared, stored), last, n);
      }
    }
  }

  lemma LimitedMore(names: seq<string>, declared: map<string, Setting>, stored: map<string, Entry>)
    ensures names == [] ==> LimitedOf(names, declared, stored) == {}
    ensures names != [] ==>
      var last := names[|names| - 1];
      LimitedOf(names, declared, stored) == LimitedOf(names[..|names| - 1], declared, stored)
                                            + if Effective(declared, stored, last).Some? then {last} else {}
  {
    hide Effective;
    if names != [] { assert names == names[..|names| - 1] + [names[|names| - 1]]; }
  }

  lemma GivenMore(slots: Slots, before: Slots, after: Slots, wanted: set<string>, last: string, n: nat)
    requires AllGiven(slots, before, wanted, n) && !HasSlot(before, last, n)
    requires Apart(after) && HasSlot(after, last, n) && after - {last} == before - {last}
    ensures AllGiven(slots, after, wanted + {last}, n)
  {
    hide Apart;
    assert HasSlot(slots, last, n) ==> SameFor(before, slots, last);
    forall name | name != last
      ensures SameFor(after, before, name) && (HasSlot(before, name, n) ==> HasSlot(after, name, n))
      ensures name !in wanted || HasSlot(slots, name, n) ==> SameFor(after, slots, name)
    {
      assert SameFor(after - {last}, after, name) && SameFor(before - {last}, before, name);
      assert name !in wanted || HasSlot(slots, name, n) ==> SameFor(before, slots, name);
    }
  }

  /** Whenever all can have slots, all are given them, in whatever order they come. */
  lemma {:induction false} AllocatedAllIfRoom(slots: Slots, names: seq<string>, declared: map<string, Setting>,
      stored: map<string, Entry>, n: nat, wanted: set<string>, after: Slots)
    requires Apart(slots) && LimitedOf(names, declared, stored) <= wanted && AllGiven(slots, after, wanted, n)
    ensures AllocatedAll(slots, names, declared, stored, n).Some?
    decreases |names|
  {
    hide Apart, Allocated, Effective, AllTaken;
    if names != [] {
      var rest, last := names[..|names| - 1], names[|names| - 1];
      assert names == rest + [last];
      AllocatedAllIfRoom(slots, rest, declared, stored, n, wanted, after);
      AllocatedAllGives(slots, rest, declared, stored, n);
      var before := AllocatedAll(slots, rest, declared, stored, n).value;
      if !HasSlot(before, last, n) && Effective(declared, stored, last).Some? {
        assert last in LimitedOf(names, declared, stored);
        AllocatedFails(before, last, n);
        if AllTaken(before, last, n) { NoRoom(before, after, last, n); }
      }
    }
  }

  /** Where n slots are others', another cannot have one with them. */
  lemma NoRoom(slots: Slots, after: Slots, name: string, n: nat)
    requires Apart(slots) && Apart(after) && AllTaken(slots, name, n)
    requires forall other :: HasSlot(slots, other, n) && other != name ==> HasSlot(after, other, n)
    ensures !HasSlot(after, name, n)
  {
    hide AllTaken;
    if HasSlot(after, name, n) {
      var held := map other | other in slots && HasSlot(slots, other, n) && other != name :: slots[other];
      AllHeldHere(slots, held, name, n);
      var all := map other | other in after && HasSlot(after, other, n)
        && (other in held || other == name) :: after[other];
      CountValues(all);
      assert all.Keys == held.Keys + {name};
      assert |all.Values| == |held| + 1;
      assert all.Values <= Upto(n);
      Within(all.Values, Upto(n));
    }
  }

  lemma AllHeldHere(slots: Slots, held: Slots, name: string, n: nat)
    requires Apart(slots) && AllTaken(slots, name, n)
    requires held == map other | other in slots && HasSlot(slots, other, n) && other != name :: slots[other]
    ensures |held| == n
  {
    CountValues(held);
    forall k | 1 <= k <= n ensures k in held.Values {
      assert Held(slots, name, k);
      var other :| HasIt(slots, name, other, k);
      assert held[other] in held.Values;
    }
    assert held.Values == Upto(n);
  }

  lemma {:induction false} Within(a: set<nat>, b: set<nat>)
    requires a <= b
    ensures |a| <= |b|
    decreases a
  {
    if x :| x in a { Within(a - {x}, b - {x}); }
  }

  class Manager {
    var n: nat
    var declared: map<string, Setting>
    var runtime: set<string>
    var stored: map<string, Entry>
    var slots: Slots

    function Now(): State
      reads this
    {
      State(n, declared, runtime, stored, slots)
    }

    ghost predicate Valid()
      reads this
    {
      Apart(slots)
    }

    constructor (n: nat, declared: map<string, Setting>)
      ensures Valid() && Now() == State(n, declared, {}, map[], map[])
    {
      this.n, this.declared, runtime, stored, slots := n, declared, {}, map[], map[];
    }

    /** The slots with one for the user in them; false when none is free. */
    method AllocateSlot(before: Slots, name: string) returns (ok: bool, after: Slots)
      ensures match Allocated(before, name, n)
              case Some(s) => ok && after == s
              case None => !ok
    {
      if HasSlot(before, name, n) {
        return true, before;
      }
      after := before - {name};
      var taken := after.Values;
      for slot := 1 to n + 1
        invariant FirstFree(after, 1, n) == FirstFree(after, slot, n)
      {
        if slot !in taken {
          return true, after[name := slot];
        }
      }
      ok := false;
    }

    method SetPolicy(name: string, fields: Entry, unset: Unsetting) returns (ok: bool)
      requires Valid()
      modifies this`stored, this`slots
      ensures Valid() && Now() == Step(old(Now()), Op.SetPolicy(name, fields, unset))
      ensures ok <==> Settable(old(Now()), name, fields, unset)
      ensures if ok then PolicySet(old(Now()), Now(), name, fields, unset) else Now() == old(Now())
    {
      hide Apart, Allocated, Effective, Store, Updated, AllTaken, PolicySet, WillLimit, EntrySet;
      StepApart(Now(), Op.SetPolicy(name, fields, unset));
      SetPolicyMeaning(Now(), name, fields, unset);
      AllocatedGiven(slots, name, n);
      UpdatedSet(stored, name, fields, unset);
      ghost var after_ := Now().(stored := Store(stored, name, Updated(StoredEntry(stored, name), fields, unset)));
      WillLimitMeaning(Now(), after_, name, fields, unset);
      if name !in declared.Keys + runtime {
        return false;
      }
      var policies := Store(stored, name, Updated(StoredEntry(stored, name), fields, unset));
      if Effective(declared, policies, name).Some? {
        var given, after := AllocateSlot(slots, name);
        if !given {
          return false;
        }
        slots := after;
      }
      stored := policies;
      ok := true;
    }

    /** Refused for want of a slot before the user is made, never after. */
    method CreateUser(name: string, fields: Entry) returns (ok: bool)
      requires Valid()
      modifies this`stored, this`slots, this`runtime
      ensures Valid() && Now() == Step(old(Now()), Create(name, fields))
      ensures ok <==> Creatable(old(Now()), name, fields)
      ensures if ok then Created(old(Now()), Now(), name, fields) else Now() == old(Now())
    {
      hide Apart, Allocated, Store, AllTaken, Created;
      StepApart(Now(), Create(name, fields));
      CreateMeaning(Now(), name, fields);
      WithoutApart(slots, name);
      AllocatedGiven(slots - {name}, name, n);
      TakenWithout(slots, name, n);
      if fields.speedLimit.Limit? {
        var free, _ := AllocateSlot(slots - {name}, name);
        if !free {
          return false;
        }
      }
      if name in declared.Keys + runtime {
        return false;
      }
      runtime := runtime + {name};
      stored := Store(stored, name, fields);
      slots := slots - {name};
      if fields.speedLimit.Limit? {
        var given, after := AllocateSlot(slots, name);
        assert given;
        slots := after;
      }
      ok := true;
    }

    method DeleteUser(name: string) returns (ok: bool)
      requires Valid()
      modifies this`stored, this`slots, this`runtime
      ensures Valid() && Now() == Step(old(Now()), Delete(name))
      ensures ok <==> name in old(runtime)
      ensures ok ==> name !in runtime && name !in stored && name !in slots
      ensures runtime == old(runtime) - {name} && n == old(n) && declared == old(declared)
      ensures if ok then stored == old(stored) - {name} && slots == old(slots) - {name} else Now() == old(Now())
    {
      StepApart(Now(), Delete(name));
      if name !in runtime {
        return false;
      }
      runtime, stored, slots := runtime - {name}, stored - {name}, slots - {name};
      ok := true;
    }

    method TickAll()
      requires Valid()
      modifies this`slots
      ensures Valid() && Now() == Step(old(Now()), Tick)
      ensures Ticked(old(Now()), Now())
    {
      hide Apart, Sorted, Effective, TickUsers, Ticked;
      StepApart(Now(), Tick);
      TickMeaning(Now());
      var names := Sorted(declared.Keys + runtime);
      TickEach(names, Limited(Now()));
      slots := map name | name in slots && name in names :: slots[name];
    }

    method TickEach(names: seq<string>, ghost limited: set<string>)
      requires limited == Limited(Now()) && forall i :: 0 <= i < |names| ==> names[i] in Names(Now())
      modifies this`slots
      ensures slots == TickUsers(old(slots), names, limited, n)
    {
      hide Allocated, Effective, HasSlot;
      assert names[..0] == [];
      for i := 0 to |names|
        invariant slots == TickUsers(old(slots), names[..i], limited, n)
      {
        assert names[..i + 1][..i] == names[..i];
        var name := names[i];
        if Effective(declared, stored, name).Some? {
          if !HasSlot(slots, name, n) {
            var given, after := AllocateSlot(slots - {name}, name);
            slots := if given then after else slots - {name};
          }
        } else if name in slots {
          slots := slots - {name};
        } else {
          NothingToTake(slots, name);
        }
      }
      assert names[..|names|] == names;
    }

    method ImportBundle(users: set<string>, policies: map<string, Entry>, replace: bool, slotted: seq<string>)
        returns (ok: bool)
      requires Valid()
      modifies this`stored, this`slots, this`runtime
      ensures Valid() && Now() == Step(old(Now()), Import(users, policies, replace, slotted))
      ensures Now() == old(Now()).(runtime := old(runtime) + users, stored := stored, slots := slots)
      ensures PoliciesTaken(old(stored), stored, policies, replace)
      // The users with a limit who are named: they all get a slot, unless there is no way to.
      ensures ok <==> Room(old(slots), LimitedOf(slotted, declared, stored), n)
      ensures if ok then AllGiven(old(slots), slots, LimitedOf(slotted, declared, stored), n) else slots == old(slots)
    {
      ghost var policiesAfter := Merged(stored, policies, replace);
      ImportMeaning(slots, slotted, declared, policiesAfter, n);
      MergedMeaning(stored, policies, replace);
      hide Apart, AllocatedAll, Merged, AllGiven, LimitedOf, Room, PoliciesTaken;
      StepApart(Now(), Import(users, policies, replace, slotted));
      runtime := runtime + users;
      stored := Merged(stored, policies, replace);
      var given, after := GiveSlots(slotted);
      if !given {
        return false;
      }
      slots := after;
      ok := true;
    }

    /** The slots with one for each of these users whose policy limits. */
    method GiveSlots(slotted: seq<string>) returns (ok: bool, after: Slots)
      ensures match AllocatedAll(slots, slotted, declared, stored, n)
              case Some(s) => ok && after == s
              case None => !ok
    {
      hide Apart, Allocated, Effective, HasSlot;
      after := slots;
      assert slotted[..0] == [];
      for i := 0 to |slotted|
        invariant AllocatedAll(slots, slotted[..i], declared, stored, n) == Some(after)
      {
        assert slotted[..i + 1][..i] == slotted[..i];
        var name := slotted[i];
        if !HasSlot(after, name, n) && Effective(declared, stored, name).Some? {
          var given, more := AllocateSlot(after, name);
          if !given {
            RefusedStays(slots, slotted, declared, stored, n, i + 1);
            return false, after;
          }
          after := more;
        }
      }
      assert slotted[..|slotted|] == slotted;
      ok := true;
    }

    /** The limits nftables should hold for XRay's users, by level: each active limited user who
        has a slot is there with their own, and nothing else is. */
    method SpeedTargets(active: set<string>) returns (users: map<nat, Speed>)
      requires Valid()
      ensures forall name, speed :: LimitedTo(declared, stored, name, speed) && Shown(Now(), active, name) ==>
        slots[name] in users && users[slots[name]] == speed
      ensures forall level :: level in users ==>
        exists name :: Shown(Now(), active, name) && slots[name] == level
                       && LimitedTo(declared, stored, name, users[level])
    {
      hide Effective, Sorted, Names;
      var names := Sorted(declared.Keys + runtime);
      users := map[];
      for i := 0 to |names|
        invariant TargetsOf(Now(), active, names[..i], users)
      {
        var name := names[i];
        assert names[..i + 1] == names[..i] + [name];
        var speed := Effective(declared, stored, name);
        if speed.Some? && name in active && HasSlot(slots, name, n) {
          TargetsApart(Now(), active, names[..i], names[..i + 1], users, speed.value);
          users := users[slots[name] := speed.value];
        }
      }
      assert names[..|names|] == names;
      TargetsOfAll(Now(), active, names, users);
    }

    /** A limit set is in force at the user's slot, whatever was declared or stored. */
    method SetThenTargets(name: string, fields: Entry, unset: Unsetting, active: set<string>)
        returns (ok: bool, users: map<nat, Speed>)
      requires Valid()
      modifies this`stored, this`slots
      ensures Valid() && (ok <==> Settable(old(Now()), name, fields, unset))
      ensures ok && fields.speedLimit.Limit? && !unset.speedLimit && name in active ==>
        HasSlot(slots, name, n) && slots[name] in users && users[slots[name]] == fields.speedLimit.speed
      // Unset, the declared limit is; switched off, none is.
      ensures ok && unset.speedLimit && name in declared && declared[name].Limit? && name in active ==>
        HasSlot(slots, name, n) && slots[name] in users && users[slots[name]] == declared[name].speed
      ensures ok && fields.speedLimit == Off && !unset.speedLimit && name in slots ==> slots[name] !in users
    {
      hide AllTaken, EntrySet, LimitedTo;
      ghost var before := Now();
      ok := SetPolicy(name, fields, unset);
      users := SpeedTargets(active);
      if ok { SettingMeaning(before, Now(), name, fields, unset); }
    }
  }

  lemma TargetsOfAll(s: State, active: set<string>, names: seq<string>, users: map<nat, Speed>)
    requires names == Sorted(s.declared.Keys + s.runtime) && TargetsOf(s, active, names, users)
    ensures forall name, speed :: LimitedTo(s.declared, s.stored, name, speed) && Shown(s, active, name) ==>
              s.slots[name] in users && users[s.slots[name]] == speed
    ensures forall level :: level in users ==>
              exists name :: Shown(s, active, name) && s.slots[name] == level
                             && LimitedTo(s.declared, s.stored, name, users[level])
  {
    hide Sorted, Effective, LimitedTo;
    forall name, speed | LimitedTo(s.declared, s.stored, name, speed) && Shown(s, active, name)
      ensures s.slots[name] in users && users[s.slots[name]] == speed
    {
      EffectiveMeaning(s.declared, s.stored, name, speed);
      assert name in names && TargetOf(s, active, name, users);
    }
    forall level | level in users
      ensures exists name :: Shown(s, active, name) && s.slots[name] == level
                             && LimitedTo(s.declared, s.stored, name, users[level])
    {
      var name :| name in names && IsTarget(s, active, name, level);
      assert TargetOf(s, active, name, users);
      EffectiveMeaning(s.declared, s.stored, name, users[level]);
    }
  }

  /** An active user whose slot counts. */
  predicate Shown(s: State, active: set<string>, name: string) {
    (name in s.declared || name in s.runtime) && name in active && HasSlot(s.slots, name, s.n)
  }

  /** The limits of these users, and no others. */
  ghost predicate TargetsOf(s: State, active: set<string>, names: seq<string>, users: map<nat, Speed>) {
    (forall name :: name in names ==> TargetOf(s, active, name, users))
    && forall level :: level in users ==> exists name :: name in names && IsTarget(s, active, name, level)
  }

  lemma TargetsApart(s: State, active: set<string>, done: seq<string>, now: seq<string>, users: map<nat, Speed>,
      speed: Speed)
    requires now != [] && now == done + [now[|now| - 1]]
    requires Apart(s.slots) && Targeted(s, active, now[|now| - 1])
      && Effective(s.declared, s.stored, now[|now| - 1]) == Some(speed)
    requires TargetsOf(s, active, done, users)
    ensures TargetsOf(s, active, now, users[s.slots[now[|now| - 1]] := speed])
  {
    hide Effective;
    var name := now[|now| - 1];
    var after := users[s.slots[name] := speed];
    forall level | level in after ensures exists m :: m in now && IsTarget(s, active, m, level) {
      if level == s.slots[name] {
        assert name in now && IsTarget(s, active, name, level);
      } else {
        var m :| m in done && IsTarget(s, active, m, level);
        assert m in now;
      }
    }
  }

  lemma NothingToTake(slots: Slots, name: string)
    requires name !in slots
    ensures slots - {name} == slots
  {}

  lemma {:induction false} RefusedStays(slots: Slots, names: seq<string>, declared: map<string, Setting>,
      stored: map<string, Entry>, n: nat, k: nat)
    requires k <= |names| && AllocatedAll(slots, names[..k], declared, stored, n) == None
    ensures AllocatedAll(slots, names, declared, stored, n) == None
    decreases |names|
  {
    hide Allocated, HasSlot, Effective;
    if k < |names| {
      assert names[..|names| - 1][..k] == names[..k];
      RefusedStays(slots, names[..|names| - 1], declared, stored, n, k);
    } else {
      assert names[..k] == names;
    }
  }

  predicate Targeted(s: State, active: set<string>, name: string) {
    Effective(s.declared, s.stored, name).Some? && name in active && HasSlot(s.slots, name, s.n)
  }

  predicate TargetOf(s: State, active: set<string>, name: string, users: map<nat, Speed>) {
    Targeted(s, active, name) ==>
      s.slots[name] in users && Some(users[s.slots[name]]) == Effective(s.declared, s.stored, name)
  }

  predicate IsTarget(s: State, active: set<string>, name: string, level: nat) {
    Targeted(s, active, name) && s.slots[name] == level
  }
}
