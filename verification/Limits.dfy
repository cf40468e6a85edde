/** The transaction that swaps the speed limits in nftables (inbound_netfilter.py), run on a
    table that refuses what nftables refuses. */
module Limits {
  import opened Wrappers
  import opened AwgAddresses
  import opened Decimal
  import opened Ordering

  datatype Dir = Up | Down

  /** The maps: of XRay users by mark, of AmneziaWG peers by interface and address. */
  datatype MapName = Users(dir: Dir) | Peers(dir: Dir, v6: bool)

  datatype Key = Mark(n: int) | PeerKey(interface: string, address: Address)

  datatype Rate = Rate(rate: nat, burst: nat)

  datatype Speed = Speed(up: Option<nat>, down: Option<nat>)

  datatype Peer = Peer(interface: string, address: Address, speed: Speed)

  datatype Command =
    | FlushMap(m: MapName)
    | DeleteLimit(name: string)
    | AddLimit(name: string, rate: Rate)
    | AddElement(m: MapName, key: Key, name: string)

  datatype Table = Table(limits: map<string, Rate>, elements: map<(MapName, Key), string>)

  const EMPTY := Table(map[], map[])

  const MARK_BASE := 0x0400_0000

  /** Bit/s as nftables' bytes/s, with room for a TCP window or two. */
  function LimitOf(bits: nat): Rate {
    var rate := if bits / 8 > 1 then bits / 8 else 1;
    Rate(rate, if rate / 4 > 65536 then rate / 4 else 65536)
  }

  /** A limit of 0 is none. */
  function Bits(s: Speed, d: Dir): nat {
    var bits := if d == Up then s.up else s.down;
    if bits.Some? then bits.value else 0
  }

  function DirName(d: Dir): string {
    match d case Up => "up" case Down => "down"
  }

  // ---- What nftables does ----

  /** One command; None when it refuses: a limit that is not there or is in use, or is there
      already, an element there already or of no limit. */
  function Exec(t: Table, c: Command): Option<Table> {
    match c
    case FlushMap(m) => Some(t.(elements := map k | k in t.elements && k.0 != m :: t.elements[k]))
    case DeleteLimit(name) =>
      if name !in t.limits || name in t.elements.Values then None else Some(t.(limits := t.limits - {name}))
    case AddLimit(name, rate) => if name in t.limits then None else Some(t.(limits := t.limits[name := rate]))
    case AddElement(m, key, name) =>
      if (m, key) in t.elements || name !in t.limits then None else Some(t.(elements := t.elements[(m, key) := name]))
  }

  /** A transaction: all of it, or none. */
  function Run(t: Table, cs: seq<Command>): Option<Table> {
    if cs == [] then Some(t)
    else
      var before := Run(t, cs[..|cs| - 1]);
      if before == None then None else Exec(before.value, cs[|cs| - 1])
  }

  lemma {:induction false} RunThen(t: Table, a: seq<Command>, b: seq<Command>)
    ensures Run(t, a + b) == if Run(t, a) == None then None else Run(Run(t, a).value, b)
    decreases |b|
  {
    hide Exec;
    if b == [] {
      assert a + b == a;
    } else {
      RunThen(t, a, b[..|b| - 1]);
      assert (a + b)[..|a + b| - 1] == a + b[..|b| - 1];
    }
  }

  // ---- The script ----

  const MAPS := [Users(Up), Users(Down), Peers(Up, false), Peers(Down, false), Peers(Up, true), Peers(Down, true)]

  function Flushes(n: nat): seq<Command>
    requires n <= |MAPS|
  {
    if n == 0 then [] else Flushes(n - 1) + [FlushMap(MAPS[n - 1])]
  }

  function Deletes(names: seq<string>): seq<Command> {
    if names == [] then [] else Deletes(names[..|names| - 1]) + [DeleteLimit(names[|names| - 1])]
  }

  /** A limit and the element that names it. */
  datatype Item = Item(m: MapName, key: Key, name: string, rate: Rate)

  function Adds(items: seq<Item>): seq<Command> {
    if items == [] then []
    else
      var x := items[|items| - 1];
      Adds(items[..|items| - 1]) + [AddLimit(x.name, x.rate), AddElement(x.m, x.key, x.name)]
  }

  /** What is limited: a user by slot, or a peer by its place in the list. */
  datatype Source = XrayUser(slot: nat, speed: Speed) | AwgPeer(index: nat, peer: Peer)

  function SpeedOf(s: Source): Speed { if s.XrayUser? then s.speed else s.peer.speed }

  predicate Limited(s: Source, d: Dir) { Bits(SpeedOf(s), d) > 0 }

  function Label(s: Source): string {
    if s.XrayUser? then "u" + Show(s.slot) else "p" + Show(s.index)
  }

  function Slot(s: Source, d: Dir): (MapName, Key) {
    if s.XrayUser? then (Users(d), Mark(MARK_BASE + s.slot))
    else (Peers(d, s.peer.address.v6), PeerKey(s.peer.interface, s.peer.address))
  }

  function ItemOf(s: Source, d: Dir): Item {
    Item(Slot(s, d).0, Slot(s, d).1, Label(s) + "_" + DirName(d), LimitOf(Bits(SpeedOf(s), d)))
  }

  function ItemsOf(s: Source, d: Dir): seq<Item> {
    if Limited(s, d) then [ItemOf(s, d)] else []
  }

  function Items(ss: seq<Source>): seq<Item> {
    if ss == [] then []
    else Items(ss[..|ss| - 1]) + ItemsOf(ss[|ss| - 1], Up) + ItemsOf(ss[|ss| - 1], Down)
  }

  function Sources(slots: seq<nat>, users: map<nat, Speed>, peers: seq<Peer>): (ss: seq<Source>)
    requires forall i :: 0 <= i < |slots| ==> slots[i] in users
    ensures |ss| == |slots| + |peers|
    ensures forall i :: 0 <= i < |slots| ==> ss[i] == XrayUser(slots[i], users[slots[i]])
    ensures forall i :: |slots| <= i < |ss| ==> ss[i] == AwgPeer(i - |slots|, peers[i - |slots|])
  {
    seq(|slots|, i requires 0 <= i < |slots| => XrayUser(slots[i], users[slots[i]]))
    + seq(|peers|, i requires 0 <= i < |peers| => AwgPeer(i, peers[i]))
  }

  /** Slots in ascending order. */
  ghost predicate Listed(slots: seq<nat>, users: map<nat, Speed>) {
    (forall i :: 0 <= i < |slots| ==> slots[i] in users)
    && (forall slot :: slot in users ==> slot in slots)
    && forall i, j :: 0 <= i < j < |slots| ==> slots[i] < slots[j]
  }

  function Script(existing: set<string>, slots: seq<nat>, users: map<nat, Speed>, peers: seq<Peer>): seq<Command>
    requires forall i :: 0 <= i < |slots| ==> slots[i] in users
  {
    Flushes(|MAPS|) + Deletes(Sorted(existing)) + Adds(Items(Sources(slots, users, peers)))
  }

  // ---- Running it ----

  function NamesOf(items: seq<Item>): set<string> {
    set x | x in items :: x.name
  }

  function KeysOf(items: seq<Item>): set<(MapName, Key)> {
    set x | x in items :: (x.m, x.key)
  }

  predicate NamedOnce(items: seq<Item>) {
    items == [] || (NamedOnce(items[..|items| - 1]) && items[|items| - 1].name !in NamesOf(items[..|items| - 1]))
  }

  predicate KeyedOnce(items: seq<Item>) {
    items == []
    || (KeyedOnce(items[..|items| - 1])
        && (items[|items| - 1].m, items[|items| - 1].key) !in KeysOf(items[..|items| - 1]))
  }

  /** The table with these limits and no others. */
  function Made(items: seq<Item>): Table {
    if items == [] then EMPTY
    else
      var t, x := Made(items[..|items| - 1]), items[|items| - 1];
      Table(t.limits[x.name := x.rate], t.elements[(x.m, x.key) := x.name])
  }

  lemma ItemsLast(items: seq<Item>)
    requires items != []
    ensures NamesOf(items) == NamesOf(items[..|items| - 1]) + {items[|items| - 1].name}
    ensures KeysOf(items) == KeysOf(items[..|items| - 1]) + {(items[|items| - 1].m, items[|items| - 1].key)}
  {
    var rest, last := items[..|items| - 1], items[|items| - 1];
    assert items == rest + [last];
    forall x | x in items ensures x in rest || x == last {}
    forall x | x in rest ensures x in items {}
    assert last in items;
  }

  lemma {:induction false} MadeKeys(items: seq<Item>)
    ensures Made(items).limits.Keys == NamesOf(items) && Made(items).elements.Keys == KeysOf(items)
    decreases |items|
  {
    hide NamesOf, KeysOf;
    if items != [] {
      MadeKeys(items[..|items| - 1]);
      ItemsLast(items);
    } else {
      NoItems(items);
    }
  }

  lemma NoItems(items: seq<Item>)
    requires items == []
    ensures NamesOf(items) == {} && KeysOf(items) == {}
  {}

  lemma RunTwo(t: Table, a: Command, b: Command)
    ensures Run(t, [a, b]) == if Exec(t, a) == None then None else Exec(Exec(t, a).value, b)
  {
    assert [a, b][..1] == [a] && [a][..0] == [];
    assert Run(t, []) == Some(t);
    assert Run(t, [a]) == Exec(t, a);
  }

  /** No limit is added twice; no element is, just when the keys are apart. */
  lemma {:induction false} RunAdds(items: seq<Item>)
    requires NamedOnce(items)
    ensures Run(EMPTY, Adds(items)) == if KeyedOnce(items) then Some(Made(items)) else None
    decreases |items|
  {
    hide NamesOf, KeysOf, Run;
    if items == [] {
      RunNone(EMPTY, Adds(items));
    } else {
      var rest, x := items[..|items| - 1], items[|items| - 1];
      RunAdds(rest);
      RunThen(EMPTY, Adds(rest), [AddLimit(x.name, x.rate), AddElement(x.m, x.key, x.name)]);
      if KeyedOnce(rest) {
        MadeKeys(rest);
        RunTwo(Made(rest), AddLimit(x.name, x.rate), AddElement(x.m, x.key, x.name));
      }
    }
  }

  lemma RunNone(t: Table, cs: seq<Command>)
    requires cs == []
    ensures Run(t, cs) == Some(t)
  {}

  lemma {:induction false} RunFlushes(t: Table, n: nat)
    requires n <= |MAPS|
    ensures Run(t, Flushes(n)) == Some(t.(elements := map k | k in t.elements && k.0 !in MAPS[..n] :: t.elements[k]))
  {
    hide MAPS;
    if n == 0 {
      RunNone(t, Flushes(n));
      assert (map k | k in t.elements && k.0 !in MAPS[..0] :: t.elements[k]) == t.elements;
    } else {
      RunFlushes(t, n - 1);
      assert Flushes(n)[..n - 1] == Flushes(n - 1) by { FlushesLength(n - 1); FlushesLength(n); }
      FlushesLength(n);
      assert forall m :: m in MAPS[..n] <==> m in MAPS[..n - 1] || m == MAPS[n - 1];
      assert Run(t, Flushes(n)) == Exec(Run(t, Flushes(n - 1)).value, FlushMap(MAPS[n - 1]));
      var before, after := Run(t, Flushes(n - 1)).value, Run(t, Flushes(n)).value;
      assert after.elements == map k | k in t.elements && k.0 !in MAPS[..n] :: t.elements[k];
    }
  }

  lemma {:induction false} FlushesLength(n: nat)
    requires n <= |MAPS|
    ensures |Flushes(n)| == n
  {
    hide MAPS;
    if n > 0 { FlushesLength(n - 1); }
  }

  lemma AllMaps(m: MapName)
    ensures m in MAPS
  {
    match m
    case Users(Up) => assert m == MAPS[0];
    case Users(Down) => assert m == MAPS[1];
    case Peers(d, v6) => assert m == MAPS[if d == Up then if v6 then 4 else 2 else if v6 then 5 else 3];
  }

  lemma FlushedEmpty(t: Table)
    ensures Run(t, Flushes(|MAPS|)) == Some(Table(t.limits, map[]))
  {
    hide MAPS, Run;
    RunFlushes(t, |MAPS|);
    assert MAPS[..|MAPS|] == MAPS;
    forall k | k in t.elements ensures k.0 in MAPS { AllMaps(k.0); }
  }

  lemma {:induction false} RunDeletes(t: Table, names: seq<string>)
    requires t.elements == map[] && forall i :: 0 <= i < |names| ==> names[i] in t.limits
    requires forall i, j :: 0 <= i < j < |names| ==> names[i] != names[j]
    ensures Run(t, Deletes(names)) == Some(t.(limits := t.limits - Elems(names)))
    decreases |names|
  {
    hide Exec, Run;
    if names == [] {
      RunNone(t, Deletes(names));
      assert t.limits - Elems(names) == t.limits;
    } else {
      var rest, last := names[..|names| - 1], names[|names| - 1];
      RunDeletes(t, rest);
      RunThen(t, Deletes(rest), [DeleteLimit(last)]);
      NotYetDeleted(names);
      DeleteOne(t, Elems(rest), last);
    }
  }

  lemma NotYetDeleted(names: seq<string>)
    requires names != [] && forall i, j :: 0 <= i < j < |names| ==> names[i] != names[j]
    ensures names[|names| - 1] !in Elems(names[..|names| - 1])
    ensures Elems(names) == Elems(names[..|names| - 1]) + {names[|names| - 1]}
  {
    assert names == names[..|names| - 1] + [names[|names| - 1]];
  }

  lemma DeleteOne(t: Table, gone: set<string>, name: string)
    requires t.elements == map[] && name in t.limits && name !in gone
    ensures Run(t.(limits := t.limits - gone), [DeleteLimit(name)]) == Some(t.(limits := t.limits - (gone + {name})))
  {
    var before := t.(limits := t.limits - gone);
    assert [DeleteLimit(name)][..0] == [];
    assert before.elements.Values == {};
    assert before.limits - {name} == t.limits - (gone + {name});
  }

  // ---- What is in the items ----

  lemma {:induction false} ItemFrom(ss: seq<Source>, x: Item) returns (i: nat, d: Dir)
    requires x in Items(ss)
    ensures i < |ss| && Limited(ss[i], d) && x == ItemOf(ss[i], d)
    decreases |ss|
  {
    hide ItemOf, Limited;
    var rest, last := ss[..|ss| - 1], ss[|ss| - 1];
    if x in Items(rest) {
      i, d := ItemFrom(rest, x);
    } else {
      i := |rest|;
      d := if x in ItemsOf(last, Up) then Up else Down;
    }
  }

  lemma {:induction false} ItemThere(ss: seq<Source>, i: nat, d: Dir)
    requires i < |ss| && Limited(ss[i], d)
    ensures ItemOf(ss[i], d) in Items(ss)
    decreases |ss|
  {
    hide ItemOf, Limited;
    var rest, last := ss[..|ss| - 1], ss[|ss| - 1];
    if i < |rest| {
      ItemThere(rest, i, d);
      assert ItemOf(rest[i], d) in Items(rest) + ItemsOf(last, Up) + ItemsOf(last, Down);
    } else {
      assert ItemOf(last, d) in ItemsOf(last, d);
    }
  }

  lemma Appended(items: seq<Item>, x: Item)
    ensures NamedOnce(items + [x]) <==> NamedOnce(items) && x.name !in NamesOf(items)
    ensures KeyedOnce(items + [x]) <==> KeyedOnce(items) && (x.m, x.key) !in KeysOf(items)
    ensures NamesOf(items + [x]) == NamesOf(items) + {x.name} && KeysOf(items + [x]) == KeysOf(items) + {(x.m, x.key)}
  {
    hide NamesOf, KeysOf;
    assert (items + [x])[..|items|] == items;
    ItemsLast(items + [x]);
  }

  ghost predicate NoneNamed(items: seq<Item>, s: Source) {
    forall d :: Limited(s, d) ==> ItemOf(s, d).name !in NamesOf(items)
  }

  ghost predicate NoneKeyed(items: seq<Item>, s: Source) {
    forall d :: Limited(s, d) ==> Slot(s, d) !in KeysOf(items)
  }

  /** What two more items, of one source, may do. */
  lemma AppendedBoth(items: seq<Item>, s: Source)
    ensures var all := items + ItemsOf(s, Up) + ItemsOf(s, Down);
            (NamedOnce(items) && NoneNamed(items, s) ==> NamedOnce(all))
            && (KeyedOnce(all) <==> KeyedOnce(items) && NoneKeyed(items, s))
  {
    hide NamesOf, KeysOf, NamedOnce, KeyedOnce, Limited, Label, NoneNamed, NoneKeyed;
    var one := items + ItemsOf(s, Up);
    DirsDiffer(s);
    BothDirs(items, s);
    if Limited(s, Up) { Appended(items, ItemOf(s, Up)); } else { assert one == items; }
    if Limited(s, Down) { Appended(one, ItemOf(s, Down)); } else { assert one + ItemsOf(s, Down) == one; }
  }

  lemma BothDirs(items: seq<Item>, s: Source)
    ensures NoneNamed(items, s) <==>
      (Limited(s, Up) ==> ItemOf(s, Up).name !in NamesOf(items))
      && (Limited(s, Down) ==> ItemOf(s, Down).name !in NamesOf(items))
    ensures NoneKeyed(items, s) <==>
      (Limited(s, Up) ==> Slot(s, Up) !in KeysOf(items)) && (Limited(s, Down) ==> Slot(s, Down) !in KeysOf(items))
  {
    hide NamesOf, KeysOf, Limited, Label, ItemOf, Slot;
    if !NoneNamed(items, s) {
      var d :| Limited(s, d) && ItemOf(s, d).name in NamesOf(items);
      match d case Up => case Down =>
    }
    if !NoneKeyed(items, s) {
      var d :| Limited(s, d) && Slot(s, d) in KeysOf(items);
      match d case Up => case Down =>
    }
  }

  lemma DirsDiffer(s: Source)
    ensures ItemOf(s, Up).name != ItemOf(s, Down).name && Slot(s, Up) != Slot(s, Down)
  {
    var up, down := ItemOf(s, Up).name, ItemOf(s, Down).name;
    assert up == Label(s) + "_up" && down == Label(s) + "_down";
    assert |up| != |down|;
  }

  /** Names tell sources and directions apart. */
  lemma NamesApart(s: Source, d: Dir, t: Source, e: Dir)
    requires ItemOf(s, d).name == ItemOf(t, e).name
    ensures d == e && (s.XrayUser? <==> t.XrayUser?) && (s.XrayUser? ==> s.slot == t.slot)
      && (s.AwgPeer? ==> s.index == t.index)
  {
    hide ItemOf, Label;
    NameParts(s, d);
    NameParts(t, e);
    ShowThen(Number(s), Number(t), Tail(d), Tail(e));
    TailLength(d);
    TailLength(e);
  }

  lemma TailLength(d: Dir)
    ensures |Tail(d)| == if d == Up then 3 else 5
  {}

  function Number(s: Source): nat { if s.XrayUser? then s.slot else s.index }

  function Tail(d: Dir): string { "_" + DirName(d) }

  lemma NameParts(s: Source, d: Dir)
    ensures var name := ItemOf(s, d).name;
            name != [] && name[0] == (if s.XrayUser? then 'u' else 'p') && name[1..] == Show(Number(s)) + Tail(d)
  {
    hide Show;
    var first := if s.XrayUser? then "u" else "p";
    assert ItemOf(s, d).name == first + (Show(Number(s)) + Tail(d));
  }

  ghost predicate Labelled(ss: seq<Source>) {
    forall i, j :: 0 <= i < j < |ss| ==> !SameLabel(ss[i], ss[j])
  }

  predicate SameLabel(s: Source, t: Source) {
    if s.XrayUser? then t.XrayUser? && s.slot == t.slot else t.AwgPeer? && s.index == t.index
  }

  lemma SourcesLabelled(slots: seq<nat>, users: map<nat, Speed>, peers: seq<Peer>)
    requires Listed(slots, users)
    ensures Labelled(Sources(slots, users, peers))
  {}

  /** Two limits of one direction for one user or peer. */
  ghost predicate ClashAt(ss: seq<Source>, i: nat, j: nat, d: Dir)
    requires i < |ss| && j < |ss|
  {
    Limited(ss[i], d) && Limited(ss[j], d) && Slot(ss[i], d) == Slot(ss[j], d)
  }

  ghost predicate Clash(ss: seq<Source>) {
    exists i: nat, j: nat, d :: i < j < |ss| && ClashAt(ss, i, j, d)
  }

  lemma {:induction false} ItemsOnce(ss: seq<Source>)
    requires Labelled(ss)
    ensures NamedOnce(Items(ss)) && (KeyedOnce(Items(ss)) <==> !Clash(ss))
    decreases |ss|
  {
    hide NamesOf, KeysOf, NamedOnce, KeyedOnce, ItemOf, Limited, ItemsOf, Slot;
    if ss == [] {
      NothingOnce(Items(ss));
    } else {
      var rest, last := ss[..|ss| - 1], ss[|ss| - 1];
      ItemsOnce(rest);
      AppendedBoth(Items(rest), last);
      forall d | Limited(last, d) ensures ItemOf(last, d).name !in NamesOf(Items(rest)) { NewName(ss, d); }
      ClashStep(ss);
    }
  }

  lemma NothingOnce(items: seq<Item>)
    requires items == []
    ensures NamedOnce(items) && KeyedOnce(items)
  {}

  lemma NewName(ss: seq<Source>, d: Dir)
    requires ss != [] && Labelled(ss)
    ensures ItemOf(ss[|ss| - 1], d).name !in NamesOf(Items(ss[..|ss| - 1]))
  {
    hide ItemOf, Items;
    var rest, name := ss[..|ss| - 1], ItemOf(ss[|ss| - 1], d).name;
    if name in NamesOf(Items(rest)) {
      var i, e := NamedBy(rest, name);
      NamesApart(ss[|ss| - 1], d, rest[i], e);
      assert false;
    }
  }

  lemma NamedBy(ss: seq<Source>, name: string) returns (i: nat, d: Dir)
    requires name in NamesOf(Items(ss))
    ensures i < |ss| && Limited(ss[i], d) && ItemOf(ss[i], d).name == name
  {
    hide ItemOf, Items, Limited;
    var x :| x in Items(ss) && x.name == name;
    i, d := ItemFrom(ss, x);
  }

  lemma KeyedBy(ss: seq<Source>, k: (MapName, Key)) returns (i: nat, d: Dir)
    requires k in KeysOf(Items(ss))
    ensures i < |ss| && Limited(ss[i], d) && Slot(ss[i], d) == k
  {
    hide Items, Limited, Slot;
    var x :| x in Items(ss) && (x.m, x.key) == k;
    i, d := ItemFrom(ss, x);
  }

  lemma KeyThere(ss: seq<Source>, i: nat, d: Dir)
    requires i < |ss| && Limited(ss[i], d)
    ensures Slot(ss[i], d) in KeysOf(Items(ss))
  {
    hide Items, Limited, Slot;
    ItemThere(ss, i, d);
    var x := ItemOf(ss[i], d);
    assert (x.m, x.key) == Slot(ss[i], d);
  }

  lemma SlotDir(s: Source, d: Dir, t: Source, e: Dir)
    requires Slot(s, d) == Slot(t, e)
    ensures d == e
  {}

  lemma ClashStep(ss: seq<Source>)
    requires ss != []
    ensures Clash(ss) <==> Clash(ss[..|ss| - 1]) || !NoneKeyed(Items(ss[..|ss| - 1]), ss[|ss| - 1])
  {
    hide KeysOf, Items, Limited, Slot;
    var n := |ss| - 1;
    var rest, last := ss[..n], ss[n];
    if Clash(rest) {
      var i: nat, j: nat, d :| i < j < |rest| && ClashAt(rest, i, j, d);
      assert ClashAt(ss, i, j, d);
    }
    if d :| Limited(last, d) && Slot(last, d) in KeysOf(Items(rest)) {
      var i, e := KeyedBy(rest, Slot(last, d));
      SlotDir(last, d, rest[i], e);
      assert ClashAt(ss, i, n, d);
    }
    if Clash(ss) {
      var i: nat, j: nat, d :| i < j < |ss| && ClashAt(ss, i, j, d);
      if j < n {
        assert ClashAt(rest, i, j, d);
      } else {
        assert rest[i] == ss[i];
        KeyThere(rest, i, d);
      }
    }
  }

  // ---- What the transaction leaves ----

  /** The rate a packet of this key is held to, if any. */
  function Policed(t: Table, m: MapName, key: Key): Option<Rate>
    requires (m, key) in t.elements ==> t.elements[(m, key)] in t.limits
  {
    if (m, key) in t.elements then Some(t.limits[t.elements[(m, key)]]) else None
  }

  /** Every element names a limit there is. */
  ghost predicate Sound(t: Table) {
    forall k :: k in t.elements ==> t.elements[k] in t.limits
  }

  lemma {:induction false} MadeSound(items: seq<Item>)
    requires NamedOnce(items) && KeyedOnce(items)
    ensures Sound(Made(items))
    decreases |items|
  {
    hide NamesOf, KeysOf;
    if items != [] { MadeSound(items[..|items| - 1]); }
  }

  lemma {:induction false} MadeHas(items: seq<Item>, x: Item)
    requires NamedOnce(items) && KeyedOnce(items) && x in items
    ensures var t := Made(items);
            (x.m, x.key) in t.elements && t.elements[(x.m, x.key)] == x.name && x.name in t.limits
                && t.limits[x.name] == x.rate
    decreases |items|
  {
    var rest, last := items[..|items| - 1], items[|items| - 1];
    if x in rest {
      MadeHas(rest, x);
      assert x.name in NamesOf(rest) && (x.m, x.key) in KeysOf(rest);
    } else {
      assert items == rest + [last];
    }
  }

  /** A speed's limit one way, in bit/s. */
  predicate Wanted(s: Speed, d: Dir, bits: nat) {
    bits > 0 && match d case Up => s.up == Some(bits) case Down => s.down == Some(bits)
  }

  /** As nftables has it: whole bytes a second, no fewer than one, and a burst of a quarter second,
      no less than 64 KiB. */
  predicate HeldTo(r: Option<Rate>, bits: nat) {
    r.Some? && (if bits < 8 then r.value.rate == 1 else bits - 8 < 8 * r.value.rate <= bits)
    && if r.value.rate < 0x4_0000 then r.value.burst == 0x1_0000
       else r.value.rate - 4 < 4 * r.value.burst <= r.value.rate
  }

  lemma LimitMeaning(bits: nat)
    ensures HeldTo(Some(LimitOf(bits)), bits)
  {}

  lemma BitsMeaning(s: Speed, d: Dir)
    ensures Bits(s, d) > 0 ==> Wanted(s, d, Bits(s, d))
    ensures forall bits :: Wanted(s, d, bits) ==> Bits(s, d) == bits > 0
  {}

  /** The limits of these users and peers: what is policed at each key, and nowhere else. */
  ghost predicate Holds(t: Table, users: map<nat, Speed>, peers: multiset<Peer>) {
    Sound(t)
    && (forall slot, d, bits :: slot in users && Wanted(users[slot], d, bits) ==> UserHeld(t, slot, d, bits))
    && (forall p: Peer, d, bits :: p in peers && Wanted(p.speed, d, bits) ==> PeerHeld(t, p, d, bits))
    && (forall k :: k in t.elements ==> Meant(users, peers, k.0, k.1))
  }

  ghost predicate UserHeld(t: Table, slot: nat, d: Dir, bits: nat)
    requires Sound(t)
  {
    HeldTo(Policed(t, Users(d), Mark(0x0400_0000 + slot)), bits)
  }

  ghost predicate PeerHeld(t: Table, p: Peer, d: Dir, bits: nat)
    requires Sound(t)
  {
    HeldTo(Policed(t, Peers(d, p.address.v6), PeerKey(p.interface, p.address)), bits)
  }

  ghost predicate Meant(users: map<nat, Speed>, peers: multiset<Peer>, m: MapName, key: Key) {
    match m
    case Users(d) =>
      exists slot, bits :: slot in users && Wanted(users[slot], d, bits) && key == Mark(0x0400_0000 + slot)
    case Peers(d, v6) =>
      exists p: Peer, bits ::
        p in peers && Wanted(p.speed, d, bits) && p.address.v6 == v6 && key == PeerKey(p.interface, p.address)
  }

  /** Two peers of one interface and address, both limited one way. */
  ghost predicate PeersClash(peers: seq<Peer>) {
    exists i, j, d :: 0 <= i < j < |peers| && SamePeer(peers[i], peers[j], d)
  }

  ghost predicate SamePeer(p: Peer, q: Peer, d: Dir) {
    (exists bits :: Wanted(p.speed, d, bits)) && (exists bits :: Wanted(q.speed, d, bits))
    && p.interface == q.interface && p.address == q.address
  }

  lemma SameMeaning(p: Peer, q: Peer, d: Dir)
    ensures SamePeer(p, q, d) <==>
              Bits(p.speed, d) > 0 && Bits(q.speed, d) > 0 && p.interface == q.interface && p.address == q.address
  {
    BitsMeaning(p.speed, d);
    BitsMeaning(q.speed, d);
  }

  lemma ClashMeaning(slots: seq<nat>, users: map<nat, Speed>, peers: seq<Peer>)
    requires Listed(slots, users)
    ensures Clash(Sources(slots, users, peers)) <==> PeersClash(peers)
  {
    hide Bits, Label, Slot, Limited, SamePeer;
    var ss := Sources(slots, users, peers);
    var n := |slots|;
    if Clash(ss) {
      var i: nat, j: nat, d :| i < j < |ss| && ClashAt(ss, i, j, d);
      ClashAtPeers(slots, users, peers, i, j, d);
      assert SamePeer(peers[i - n], peers[j - n], d);
    }
    if PeersClash(peers) {
      var i, j, d :| 0 <= i < j < |peers| && SamePeer(peers[i], peers[j], d);
      PeersClashAt(slots, users, peers, i, j, d);
      assert ClashAt(ss, n + i, n + j, d);
    }
  }

  lemma ClashAtPeers(slots: seq<nat>, users: map<nat, Speed>, peers: seq<Peer>, i: nat, j: nat, d: Dir)
    requires Listed(slots, users) && i < j < |slots| + |peers| && ClashAt(Sources(slots, users, peers), i, j, d)
    ensures |slots| <= i && SamePeer(peers[i - |slots|], peers[j - |slots|], d)
  {
    hide Bits, SamePeer;
    if |slots| <= i { SameMeaning(peers[i - |slots|], peers[j - |slots|], d); }
  }

  lemma PeersClashAt(slots: seq<nat>, users: map<nat, Speed>, peers: seq<Peer>, i: nat, j: nat, d: Dir)
    requires Listed(slots, users) && i < j < |peers| && SamePeer(peers[i], peers[j], d)
    ensures ClashAt(Sources(slots, users, peers), |slots| + i, |slots| + j, d)
  {
    hide Bits, SamePeer;
    SameMeaning(peers[i], peers[j], d);
    var ss := Sources(slots, users, peers);
    assert ss[|slots| + i] == AwgPeer(i, peers[i]) && ss[|slots| + j] == AwgPeer(j, peers[j]);
  }

  lemma MadeHolds(slots: seq<nat>, users: map<nat, Speed>, peers: seq<Peer>)
    requires Listed(slots, users) && !PeersClash(peers)
    ensures Holds(Made(Items(Sources(slots, users, peers))), users, multiset(peers))
  {
    hide Made, Items, NamedOnce, KeyedOnce, PeersClash, NamesOf, Clash, Labelled, Bits, LimitOf, Wanted, HeldTo;
    var ss := Sources(slots, users, peers);
    var t := Made(Items(ss));
    SourcesLabelled(slots, users, peers);
    ClashMeaning(slots, users, peers);
    ItemsOnce(ss);
    MadeSound(Items(ss));
    forall slot, d, bits | slot in users && Wanted(users[slot], d, bits) ensures UserHeld(t, slot, d, bits) {
      var i :| 0 <= i < |slots| && slots[i] == slot;
      BitsMeaning(users[slot], d);
      HeldAt(ss, i, d);
    }
    forall p: Peer, d, bits | p in multiset(peers) && Wanted(p.speed, d, bits) ensures PeerHeld(t, p, d, bits) {
      var i :| 0 <= i < |peers| && peers[i] == p;
      assert ss[|slots| + i] == AwgPeer(i, p);
      BitsMeaning(p.speed, d);
      HeldAt(ss, |slots| + i, d);
    }
    MadeKeys(Items(ss));
    forall k | k in t.elements ensures Meant(users, multiset(peers), k.0, k.1) {
      var i, d := KeyedBy(ss, k);
      BitsMeaning(SpeedOf(ss[i]), d);
      if i < |slots| {
        assert slots[i] in users;
      } else {
        assert peers[i - |slots|] in multiset(peers);
      }
    }
  }

  lemma HeldAt(ss: seq<Source>, i: nat, d: Dir)
    requires i < |ss| && Limited(ss[i], d) && NamedOnce(Items(ss)) && KeyedOnce(Items(ss)) && Sound(Made(Items(ss)))
    ensures HeldTo(Policed(Made(Items(ss)), Slot(ss[i], d).0, Slot(ss[i], d).1), Bits(SpeedOf(ss[i]), d))
  {
    LimitMeaning(Bits(SpeedOf(ss[i]), d));
    hide Made, Items, NamedOnce, KeyedOnce, Limited, Slot, LimitOf, Bits, Label, HeldTo;
    ItemThere(ss, i, d);
    MadeHas(Items(ss), ItemOf(ss[i], d));
  }

  /** The transaction goes through unless two peers clash, from whatever limits there were, and
      leaves the wanted ones alone. */
  lemma ScriptRuns(t: Table, slots: seq<nat>, users: map<nat, Speed>, peers: seq<Peer>)
    requires Listed(slots, users)
    ensures Run(t, Script(t.limits.Keys, slots, users, peers)).Some? <==> !PeersClash(peers)
    ensures !PeersClash(peers) ==>
      Holds(Run(t, Script(t.limits.Keys, slots, users, peers)).value, users, multiset(peers))
  {
    hide Run, Made, Items, NamedOnce, KeyedOnce, Adds, Deletes, Flushes, MAPS, PeersClash, Clash, Sorted, Holds,
        Labelled;
    var items := Items(Sources(slots, users, peers));
    var names := Sorted(t.limits.Keys);
    var flushes, deletes, adds := Flushes(|MAPS|), Deletes(names), Adds(items);
    RunThen(t, flushes + deletes, adds);
    RunThen(t, flushes, deletes);
    FlushedEmpty(t);
    RunDeletes(Table(t.limits, map[]), names);
    SortedElems(t.limits.Keys);
    assert t.limits - t.limits.Keys == map[];
    SourcesLabelled(slots, users, peers);
    ItemsOnce(Sources(slots, users, peers));
    RunAdds(items);
    ClashMeaning(slots, users, peers);
    if !PeersClash(peers) { MadeHolds(slots, users, peers); }
  }

  /** Two users' peers with one address on an interface, both limited downwards. */
  lemma ClashingPeers(t: Table, address: Address)
    ensures var one, other := Peer("awg0", address, Speed(None, Some(8))), Peer("awg0", address, Speed(None, Some(16)));
            Run(t, Script(t.limits.Keys, [], map[], [one, other])) == None
  {
    hide Run, Script;
    var peers := [Peer("awg0", address, Speed(None, Some(8))), Peer("awg0", address, Speed(None, Some(16)))];
    SameMeaning(peers[0], peers[1], Down);
    assert SamePeer(peers[0], peers[1], Down);
    ScriptRuns(t, [], map[], peers);
  }

  // ---- Building it ----

  method LimitsScript(existing: set<string>, users: map<nat, Speed>, peers: seq<Peer>) returns (lines: seq<Command>)
    ensures Listed(Ascending(users.Keys), users)
    ensures lines == Script(existing, Ascending(users.Keys), users, peers)
  {
    hide MAPS, Items, Adds, Deletes, Sources, Sorted, Ascending, Listed;
    var slots := Ascending(users.Keys);
    SlotsListed(users);
    lines := [];
    for i := 0 to |MAPS|
      invariant lines == Flushes(i)
    {
      lines := lines + [FlushMap(MAPS[i])];
    }
    var names := Sorted(existing);
    assert names[..0] == [];
    NoDeletes();
    for i := 0 to |names|
      invariant lines == Flushes(|MAPS|) + Deletes(names[..i])
    {
      DeletesStep(names, i);
      lines := lines + [DeleteLimit(names[i])];
    }
    assert names[..|names|] == names;
    var adds := AddLimits(slots, users, peers);
    lines := lines + adds;
  }

  lemma SlotsListed(users: map<nat, Speed>)
    ensures Listed(Ascending(users.Keys), users)
    ensures forall i :: 0 <= i < |Ascending(users.Keys)| ==> Ascending(users.Keys)[i] in users
  {
    AscendingInOrder(users.Keys);
  }

  lemma NoDeletes()
    ensures Deletes([]) == []
  {}

  lemma DeletesStep(names: seq<string>, i: nat)
    requires i < |names|
    ensures Deletes(names[..i + 1]) == Deletes(names[..i]) + [DeleteLimit(names[i])]
  {
    assert names[..i + 1][..i] == names[..i];
  }

  method AddLimits(slots: seq<nat>, users: map<nat, Speed>, peers: seq<Peer>) returns (lines: seq<Command>)
    requires forall i :: 0 <= i < |slots| ==> slots[i] in users
    ensures lines == Adds(Items(Sources(slots, users, peers)))
  {
    hide Adds, Items, Slot, LimitOf, Limited, Label;
    ghost var ss := Sources(slots, users, peers);
    lines := [];
    assert ss[..0] == [];
    NoAdds();
    for i := 0 to |slots|
      invariant lines == Adds(Items(ss[..i]))
    {
      var more := AddBoth(XrayUser(slots[i], users[slots[i]]));
      OneMore(ss, i);
      lines := lines + more;
    }
    for i := 0 to |peers|
      invariant lines == Adds(Items(ss[..|slots| + i]))
    {
      var more := AddBoth(AwgPeer(i, peers[i]));
      OneMore(ss, |slots| + i);
      lines := lines + more;
    }
    assert ss[..|ss|] == ss;
  }

  lemma NoAdds()
    ensures Adds(Items([])) == []
  {}

  /** The lines of one user or peer. */
  method AddBoth(s: Source) returns (lines: seq<Command>)
    ensures lines == Adds(ItemsOf(s, Up)) + Adds(ItemsOf(s, Down))
  {
    hide Label, Limited, LimitOf, Slot;
    lines := [];
    if Limited(s, Up) {
      var x := ItemOf(s, Up);
      lines := [AddLimit(x.name, x.rate), AddElement(x.m, x.key, x.name)];
      assert [x][..0] == [];
    }
    if Limited(s, Down) {
      var x := ItemOf(s, Down);
      lines := lines + [AddLimit(x.name, x.rate), AddElement(x.m, x.key, x.name)];
      assert [x][..0] == [];
    }
  }

  lemma OneMore(ss: seq<Source>, i: nat)
    requires i < |ss|
    ensures Adds(Items(ss[..i + 1])) == Adds(Items(ss[..i])) + (Adds(ItemsOf(ss[i], Up)) + Adds(ItemsOf(ss[i], Down)))
  {
    hide ItemOf, Limited, Adds;
    assert ss[..i + 1][..i] == ss[..i];
    AddsThen(Items(ss[..i]) + ItemsOf(ss[i], Up), ItemsOf(ss[i], Down));
    AddsThen(Items(ss[..i]), ItemsOf(ss[i], Up));
  }

  lemma {:induction false} AddsThen(a: seq<Item>, b: seq<Item>)
    ensures Adds(a + b) == Adds(a) + Adds(b)
    decreases |b|
  {
    if b == [] {
      assert a + b == a;
    } else {
      AddsThen(a, b[..|b| - 1]);
      assert (a + b)[..|a + b| - 1] == a + b[..|b| - 1];
    }
  }
}
