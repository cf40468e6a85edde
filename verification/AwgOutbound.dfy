/** The rewriting of a configuration for an outbound (amneziawg_config.py): the host keeps its
    routes and its resolver, and the tunnel's own packets carry a mark. */
module AwgOutbound {
  import opened Wrappers
  import opened Text
  import opened Decimal
  import opened AwgConfig

  // ---- The edits, on lines ----

  /** Whether a line put after these would be the interface's. */
  function InInterface(lines: seq<string>): bool {
    lines != []
    && var last := lines[|lines| - 1];
       if IsHeader(last) then IsInterface(last) else InInterface(lines[..|lines| - 1])
  }

  function RemoveLines(lines: seq<string>, key: string): seq<string> {
    if lines == [] then []
    else
      var last := lines[|lines| - 1];
      RemoveLines(lines[..|lines| - 1], key) + if InInterface(lines) && Matches(last, key) then [] else [last]
  }

  /** An address, or an Address' whole text, narrowed to the host's own; None when it is none. */
  type Narrow = string -> Option<string>

  /** Items of a text that are not blank. */
  function Items(parts: seq<string>): seq<string> {
    if parts == [] then []
    else
      var item := Trim(parts[|parts| - 1]);
      Items(parts[..|parts| - 1]) + if item == [] then [] else [item]
  }

  function NarrowAll(values: seq<string>, narrow: Narrow): Option<seq<string>> {
    if values == [] then Some([])
    else
      var before, last := NarrowAll(values[..|values| - 1], narrow), narrow(values[|values| - 1]);
      if before == None || last == None then None else Some(before.value + [last.value])
  }

  /** ", ".join() */
  function Listed(hosts: seq<string>): string {
    if hosts == [] then []
    else if |hosts| == 1 then hosts[0]
    else Listed(hosts[..|hosts| - 1]) + [','] + ([' '] + hosts[|hosts| - 1])
  }

  /** An Address' text, each of its addresses parsed. */
  function Hosts(text: string, parse: Narrow): Option<string> {
    var hosts := NarrowAll(Items(Split(text, ',')), parse);
    if hosts == None then None else Some(Listed(hosts.value))
  }

  /** A list of items narrows to the list of what they narrow to, in order, and only if all do. */
  lemma ListNarrowed(items: seq<string>, parse: Narrow)
    requires items != [] && forall i :: 0 <= i < |items| ==> ',' !in items[i] && Trim(items[i]) != []
    ensures Hosts(Join(items, ','), parse).Some? <==> forall i :: 0 <= i < |items| ==> parse(Trim(items[i])).Some?
    ensures (forall i :: 0 <= i < |items| ==>
               parse(Trim(items[i])).Some? && ',' !in parse(Trim(items[i])).value
               && Trim(parse(Trim(items[i])).value) == parse(Trim(items[i])).value != []) ==>
              var read := Items(Split(Hosts(Join(items, ','), parse).value, ','));
              |read| == |items| && forall i :: 0 <= i < |items| ==> Some(read[i]) == parse(Trim(items[i]))
  {
    hide Trim, Split, Join, NarrowAll, Listed, Items;
    SplitJoin(items, ',');
    ItemsWhole(items);
    NarrowAllMeaning(Items(items), parse);
    assert forall i :: 0 <= i < |items| ==> Items(items)[i] == Trim(items[i]);
    if Hosts(Join(items, ','), parse).Some? {
      var hosts := NarrowAll(Items(items), parse).value;
      if forall i :: 0 <= i < |hosts| ==> ',' !in hosts[i] && Trim(hosts[i]) == hosts[i] != [] { ListedRead(hosts); }
    }
  }

  lemma {:induction false} ItemsWhole(items: seq<string>)
    requires forall i :: 0 <= i < |items| ==> Trim(items[i]) != []
    ensures |Items(items)| == |items| && forall i :: 0 <= i < |items| ==> Items(items)[i] == Trim(items[i])
    decreases |items|
  {
    hide Trim;
    if items != [] { ItemsWhole(items[..|items| - 1]); }
  }

  /** A printed list of hosts is read as those hosts. */
  lemma ListedRead(hosts: seq<string>)
    requires hosts != [] && forall i :: 0 <= i < |hosts| ==> ',' !in hosts[i] && Trim(hosts[i]) == hosts[i] != []
    ensures Items(Split(Listed(hosts), ',')) == hosts
  {
    hide Trim, Split, Join, Listed, Items;
    var parts := Spaced(hosts);
    ListedJoined(hosts);
    forall i | 0 <= i < |parts| ensures ',' !in parts[i] && Trim(parts[i]) == hosts[i] { TrimSpaced(hosts[i]); }
    SplitJoin(parts, ',');
    ItemsWhole(parts);
  }

  function Spaced(hosts: seq<string>): seq<string> {
    seq(|hosts|, i requires 0 <= i < |hosts| => if i == 0 then hosts[i] else [' '] + hosts[i])
  }

  lemma TrimSpaced(host: string)
    requires host != [] && Trim(host) == host
    ensures Trim([' '] + host) == host
  {
    assert IsSpace(' ');
  }

  lemma {:induction false} ListedJoined(hosts: seq<string>)
    requires hosts != []
    ensures Listed(hosts) == Join(Spaced(hosts), ',')
    decreases |hosts|
  {
    hide Join;
    var n := |hosts| - 1;
    if n == 0 {
      JoinOne(Spaced(hosts)[0]);
      assert Spaced(hosts) == [hosts[0]];
    } else {
      ListedJoined(hosts[..n]);
      assert Spaced(hosts) == Spaced(hosts[..n]) + [[' '] + hosts[n]];
      JoinMore(Spaced(hosts[..n]), [' '] + hosts[n]);
    }
  }

  lemma JoinOne(part: string)
    ensures Join([part], ',') == part
  {}

  lemma {:induction false} JoinMore(parts: seq<string>, last: string)
    requires parts != []
    ensures Join(parts + [last], ',') == Join(parts, ',') + [','] + last
    decreases |parts|
  {
    if |parts| > 1 {
      JoinMore(parts[1..], last);
      assert (parts + [last])[1..] == parts[1..] + [last];
    } else {
      assert (parts + [last])[1..] == [last];
    }
  }

  function HostsOf(parse: Narrow): Narrow { text => Hosts(text, parse) }

  /** Up to the value: the key, the = and the spaces after it. */
  function ValueAt(line: string): nat
    requires '=' in line
    ensures ValueAt(line) <= |line|
  {
    var k := First(line, '=');
    assert k < |line| by { NotBefore(line, '='); }
    k + 1 + Lead(line[k + 1..])
  }

  function NarrowLine(line: string, narrow: Narrow): Option<string> {
    if '=' in line then
      var hosts := narrow(Head(line[ValueAt(line)..], '#'));
      if hosts == None then None else Some(line[..ValueAt(line)] + hosts.value)
    else Some(line)
  }

  function NarrowLines(lines: seq<string>, narrow: Narrow): Option<seq<string>> {
    if lines == [] then Some([])
    else
      var before, last := NarrowLines(lines[..|lines| - 1], narrow), lines[|lines| - 1];
      if before == None then None
      else if !(InInterface(lines) && Matches(last, "Address")) then Some(before.value + [last])
      else
        var line := NarrowLine(last, narrow);
        if line == None then None else Some(before.value + [line.value])
  }

  /** The first line from the k-th on that is the interface's header; |lines| when none is. */
  function InterfaceAt(lines: seq<string>, k: nat): (i: nat)
    requires k <= |lines|
    ensures k <= i <= |lines| && (i < |lines| ==> IsInterface(lines[i]))
    ensures forall j :: k <= j < i ==> !IsInterface(lines[j])
    decreases |lines| - k
  {
    if k == |lines| || IsInterface(lines[k]) then k else InterfaceAt(lines, k + 1)
  }

  /** The first header from the k-th line on; |lines| when there is none. */
  function NextHeader(lines: seq<string>, k: nat): (i: nat)
    requires k <= |lines|
    ensures k <= i <= |lines| && (i < |lines| ==> IsHeader(lines[i]))
    ensures forall j :: k <= j < i ==> !IsHeader(lines[j])
    decreases |lines| - k
  {
    if k == |lines| || IsHeader(lines[k]) then k else NextHeader(lines, k + 1)
  }

  /** Where the interface's lines end. */
  function InterfaceEnd(lines: seq<string>): (end: nat)
    ensures end <= |lines|
  {
    var i := InterfaceAt(lines, 0);
    if i == |lines| then i else NextHeader(lines, i + 1)
  }

  function MatchAt(lines: seq<string>, key: string, k: nat, end: nat): (i: nat)
    requires k <= end <= |lines|
    ensures k <= i <= end && (i < end ==> Matches(lines[i], key))
    ensures forall j :: k <= j < i ==> !Matches(lines[j], key)
    decreases end - k
  {
    if k == end || Matches(lines[k], key) then k else MatchAt(lines, key, k + 1, end)
  }

  function KeyLine(key: string, value: string): string { key + " = " + value }

  function SetLines(lines: seq<string>, key: string, value: string): Option<seq<string>> {
    var i := InterfaceAt(lines, 0);
    if i == |lines| then None
    else
      var end := InterfaceEnd(lines);
      var m := MatchAt(lines, key, i + 1, end);
      Some(if m < end then lines[m := KeyLine(key, value)] else lines[..end] + [KeyLine(key, value)] + lines[end..])
  }

  // ---- The edits, on text ----

  function RemoveKey(config: string, key: string): string { Unlines(RemoveLines(Lines(config), key)) }

  function ReplaceKey(config: string, key: string, value: string): Option<string> {
    var lines := SetLines(Lines(RemoveKey(config, key)), key, value);
    if lines == None then None else Some(Unlines(lines.value))
  }

  predicate Unprivileged(value: string) { value != [] && AllDigits(value) && Read(value) >= 1024 }

  /** Such a port is one from 1024 on, printed after any zeros, and nothing else is. */
  lemma UnprivilegedMeaning(value: string)
    ensures Unprivileged(value) <==> exists k: nat, port: nat :: port >= 1024 && value == Zeros(k) + Show(port)
  {
    hide Read, Show, Zeros;
    if Unprivileged(value) {
      var k := DigitsShow(value);
      assert value == Zeros(k) + Show(Read(value));
    }
    if k: nat, port: nat :| port >= 1024 && value == Zeros(k) + Show(port) {
      ReadZeros(k, Show(port));
      ReadShow(port);
    }
  }

  function Sections(config: string): seq<Section> { SectionsOf(Lines(config)) }

  predicate AllUnprivileged(values: seq<string>) {
    forall i :: 0 <= i < |values| ==> Unprivileged(values[i])
  }

  function DropPrivileged(config: string): string {
    if AllUnprivileged(Values(Sections(config), "interface", "listenport")) then config
    else RemoveKey(config, "ListenPort")
  }

  /** parse: how an address is narrowed, None when they stay. None as a result: a line that holds
      no address, or no interface. */
  function Outbound(config: string, mark: nat, parse: Option<Narrow>): Option<string> {
    var noDns := RemoveKey(config, "DNS");
    var narrowed := if parse == None then Some(Lines(noDns)) else NarrowLines(Lines(noDns), HostsOf(parse.value));
    if narrowed == None then None
    else
      var dropped := DropPrivileged(if parse == None then noDns else Unlines(narrowed.value));
      var off := ReplaceKey(dropped, "Table", "off");
      if off == None then None else ReplaceKey(off.value, "FwMark", Show(mark))
  }

  // ---- What the reader then sees ----

  predicate AllGood(lines: seq<string>) {
    forall i :: 0 <= i < |lines| ==> GoodHeader(lines[i])
  }

  predicate LastIsInterface(sections: seq<Section>) {
    sections != [] && sections[|sections| - 1].name == "interface"
  }

  lemma {:induction false} InInterfaceMeaning(lines: seq<string>)
    requires AllGood(lines)
    ensures InInterface(lines) <==> LastIsInterface(SectionsOf(lines))
    decreases |lines|
  {
    hide IsHeader, IsInterface, ReadLine, GoodHeader;
    if lines != [] {
      var rest, last := lines[..|lines| - 1], lines[|lines| - 1];
      InInterfaceMeaning(rest);
      if IsHeader(last) {
        HeaderRead(last);
      } else {
        NoHeader(last);
      }
    }
  }

  function RemovedPairs(pairs: seq<(string, string)>, key: string): seq<(string, string)> {
    if pairs == [] then []
    else
      var last := pairs[|pairs| - 1];
      RemovedPairs(pairs[..|pairs| - 1], key) + if Fold(last.0) == key then [] else [last]
  }

  /** The interface's pairs without a key, or one that folds to it. */
  function Removed(sections: seq<Section>, key: string): seq<Section> {
    seq(|sections|, i requires 0 <= i < |sections| =>
      if sections[i].name == "interface" then sections[i].(pairs := RemovedPairs(sections[i].pairs, key))
      else sections[i])
  }

  lemma RemovedAdd(sections: seq<Section>, item: Item, key: string)
    ensures Removed(Add(sections, item), key)
         == if item.Pair? && Fold(item.key) == key && LastIsInterface(sections) then Removed(sections, key)
            else Add(Removed(sections, key), item)
  {
    hide Fold;
    match item
    case Header(name) =>
      assert Removed(Add(sections, item), key) == Removed(sections, key) + [Section(name, [])];
    case Pair(k, value) =>
      if sections != [] {
        var n := |sections| - 1;
        var pairs := sections[n].pairs + [(k, value)];
        assert pairs[..|pairs| - 1] == sections[n].pairs;
        assert Add(sections, item)[..n] == sections[..n];
        var left, right := Removed(Add(sections, item), key),
                           if Fold(item.key) == key && LastIsInterface(sections) then Removed(sections, key)
                           else Add(Removed(sections, key), item);
        assert |left| == |right| && forall i :: 0 <= i < n ==> left[i] == right[i];
        assert left[n] == right[n];
      } else {
        assert Removed(sections, key) == [];
      }
    case Nothing =>
  }

  /** A line as the reader takes it, but an address of the interface's as it is written, up to the
      comment: this is what is narrowed. */
  function WrittenLine(line: string, inside: bool): Item {
    var item := ReadLine(line);
    if inside && item.Pair? && Fold(item.key) == "address" && '=' in line then
      Pair(item.key, Head(line[ValueAt(line)..], '#'))
    else item
  }

  /** The sections with addresses as they are written. */
  function Written(lines: seq<string>): seq<Section> {
    if lines == [] then []
    else Add(Written(lines[..|lines| - 1]), WrittenLine(lines[|lines| - 1], InInterface(lines)))
  }

  function CutPairs(pairs: seq<(string, string)>): seq<(string, string)> {
    seq(|pairs|, i requires 0 <= i < |pairs| =>
      if Fold(pairs[i].0) == "address" then (pairs[i].0, CutValue(pairs[i].1)) else pairs[i])
  }

  /** What the reader keeps of an address as written. */
  function CutValue(text: string): string { Trim(Head(text, ';')) }

  function CutAddresses(sections: seq<Section>): seq<Section> {
    seq(|sections|, i requires 0 <= i < |sections| =>
      if sections[i].name == "interface" then sections[i].(pairs := CutPairs(sections[i].pairs)) else sections[i])
  }

  function CutItem(item: Item, inside: bool): Item {
    if item.Pair? && Fold(item.key) == "address" && inside then Pair(item.key, CutValue(item.value)) else item
  }

  lemma CutAdd(sections: seq<Section>, item: Item)
    ensures CutAddresses(Add(sections, item)) == Add(CutAddresses(sections), CutItem(item, LastIsInterface(sections)))
  {
    hide CutValue, Fold;
    match item
    case Header(name) =>
      assert CutPairs([]) == [];
      assert CutAddresses(Add(sections, item)) == CutAddresses(sections) + [Section(name, [])];
    case Pair(key, value) =>
      if sections != [] {
        var n := |sections| - 1;
        var pairs := sections[n].pairs;
        CutPairsMore(pairs, key, value);
        var cut := CutItem(item, LastIsInterface(sections));
        var left, right := CutAddresses(Add(sections, item)), Add(CutAddresses(sections), cut);
        assert |left| == |right| && forall i :: 0 <= i < n ==> left[i] == right[i];
        assert left[n] == right[n];
      } else {
        assert CutAddresses(sections) == [];
      }
    case Nothing =>
  }

  lemma CutPairsMore(pairs: seq<(string, string)>, key: string, value: string)
    ensures CutPairs(pairs + [(key, value)])
         == CutPairs(pairs) + [if Fold(key) == "address" then (key, CutValue(value)) else (key, value)]
  {
    hide CutValue, Fold;
  }

  lemma WrittenLineCut(line: string)
    requires Matches(line, "Address")
    ensures ReadLine(line) == CutItem(WrittenLine(line, true), true)
  {
    hide IsSpace, Trim, Head, Tail, Lower, Fold, GoodKey, Matches, Lead, ReadLine, ValueAt, Blank;
    AddressKey();
    MatchesRead(line, "Address");
    var h, t := AddressParts(line);
    ReadPair(h, t);
    ReadAfterSpaces(t);
  }

  /** Spaces before a value are nothing to the reader. */
  lemma ReadAfterSpaces(t: string)
    ensures Trim(Head(Head(t, '#'), ';')) == CutValue(Head(t[Lead(t)..], '#'))
  {
    hide IsSpace, Trim, Head, Tail, Lead;
    var lead, text := t[..Lead(t)], t[Lead(t)..];
    EqualsNoSpace();
    LeadBlank(t);
    BlankWithout(lead, '#');
    BlankWithout(lead, ';');
    assert t == lead + text;
    HeadThrough(lead, text, '#');
    HeadThrough(lead, Head(text, '#'), ';');
    TrimMore(lead, Head(Head(text, '#'), ';'), []);
    assert lead + Head(Head(text, '#'), ';') + [] == lead + Head(Head(text, '#'), ';');
  }

  /** A line with an address, taken apart. */
  lemma AddressParts(line: string) returns (h: string, t: string)
    requires Matches(line, "Address")
    ensures '=' in line && '=' !in h && Fold(Trim(h)) == "address" && GoodKey("address") && line == h + ['='] + t
    ensures line[ValueAt(line)..] == t[Lead(t)..] && line[..ValueAt(line)] == h + ['='] + t[..Lead(t)]
  {
    hide IsSpace, Trim, Head, Tail, Lower, Fold, GoodKey, Matches, Lead;
    AddressKey();
    MatchesMeaning(line, "Address");
    h, t := Cut(line, '=');
    FirstIs(h, '=', t);
    assert line[|h| + 1..] == t;
    assert ValueAt(line) == |h| + 1 + Lead(t);
  }

  /** The reader sees the addresses as written, cut at a semicolon. */
  lemma {:induction false} WrittenCut(lines: seq<string>)
    requires AllGood(lines)
    ensures SectionsOf(lines) == CutAddresses(Written(lines))
    ensures LastIsInterface(Written(lines)) <==> InInterface(lines)
    decreases |lines|
  {
    hide IsHeader, IsInterface, ReadLine, GoodHeader, Add, Matches, CutAddresses, CutItem, WrittenLine;
    if lines == [] {
      NoneCut();
    } else {
      var rest, last := lines[..|lines| - 1], lines[|lines| - 1];
      WrittenCut(rest);
      InInterfaceMeaning(lines);
      WrittenItem(lines);
      CutAdd(Written(rest), WrittenLine(last, InInterface(lines)));
      CutNames(Written(lines));
    }
  }

  lemma WrittenItem(lines: seq<string>)
    requires AllGood(lines) && lines != []
    ensures var last, inside := lines[|lines| - 1], InInterface(lines[..|lines| - 1]);
            ReadLine(last) == CutItem(WrittenLine(last, InInterface(lines)), inside)
  {
    hide IsHeader, IsInterface, ReadLine, GoodHeader, Matches;
    var last := lines[|lines| - 1];
    AddressKey();
    MatchesRead(last, "Address");
    if IsHeader(last) { HeaderRead(last); }
    if InInterface(lines) && Matches(last, "Address") { WrittenLineCut(last); }
  }

  lemma NoneCut()
    ensures CutAddresses([]) == []
  {}

  lemma CutNames(sections: seq<Section>)
    ensures LastIsInterface(CutAddresses(sections)) <==> LastIsInterface(sections)
  {}

  /** One line more at the end. */
  lemma OneMore(lines: seq<string>, line: string, key: string)
    ensures var more := lines + [line];
            SectionsOf(more) == Add(SectionsOf(lines), ReadLine(line))
            && InInterface(more) == (if IsHeader(line) then IsInterface(line) else InInterface(lines))
            && Written(more) == Add(Written(lines), WrittenLine(line, InInterface(more)))
            && RemoveLines(more, key)
               == RemoveLines(lines, key) + (if InInterface(more) && Matches(line, key) then [] else [line])
            && (AllGood(more) <==> AllGood(lines) && GoodHeader(line))
            && (CleanLines(more) <==> CleanLines(lines) && CleanLine(line))
  {
    hide IsHeader, IsInterface, ReadLine, GoodHeader, Add, Matches, WrittenLine;
    var more := lines + [line];
    assert more[..|lines|] == lines && more[|lines|] == line;
    assert AllGood(more) ==> forall i :: 0 <= i < |lines| ==> lines[i] == more[i];
    assert CleanLines(more) ==> forall i :: 0 <= i < |lines| ==> lines[i] == more[i];
  }

  lemma {:induction false} RemoveRead(lines: seq<string>, key: string)
    requires AllGood(lines) && GoodKey(Lower(key))
    ensures AllGood(RemoveLines(lines, key)) && InInterface(RemoveLines(lines, key)) == InInterface(lines)
    ensures SectionsOf(RemoveLines(lines, key)) == Removed(SectionsOf(lines), Lower(key))
    ensures Written(RemoveLines(lines, key)) == Removed(Written(lines), Lower(key))
    ensures CleanLines(lines) ==> CleanLines(RemoveLines(lines, key))
    decreases |lines|
  {
    hide IsHeader, IsInterface, ReadLine, GoodHeader, Add, Matches, Lower, GoodKey, Removed, WrittenLine, SectionsOf,
        Written, RemoveLines, InInterface, AllGood, CleanLines, CleanLine;
    if lines == [] {
      NoneRemoved(key);
    } else {
      var rest, last := lines[..|lines| - 1], lines[|lines| - 1];
      assert lines == rest + [last];
      OneMore(rest, last, key);
      RemoveRead(rest, key);
      InInterfaceMeaning(rest);
      WrittenCut(rest);
      MatchesRead(last, key);
      if IsHeader(last) { HeaderRead(last); }
      WrittenKey(last, InInterface(lines));
      RemovedAdd(SectionsOf(rest), ReadLine(last), Lower(key));
      RemovedAdd(Written(rest), WrittenLine(last, InInterface(lines)), Lower(key));
      var kept := RemoveLines(rest, key);
      OneMore(kept, last, key);
      assert kept + [] == kept;
    }
  }

  lemma WrittenKey(line: string, inside: bool)
    ensures var item, as_read := WrittenLine(line, inside), ReadLine(line);
            item.Pair? == as_read.Pair? && item.Header? == as_read.Header? && (item.Pair? ==> item.key == as_read.key)
  {
    hide ReadLine;
  }

  lemma NoneRemoved(key: string)
    ensures RemoveLines([], key) == [] && SectionsOf([]) == Written([]) == Removed([], Lower(key)) == []
  {}

  // Addresses.

  /** Nothing the reader cuts at in what is given. */
  predicate NarrowsAt(narrow: Narrow, t: string) {
    narrow(t).Some? ==>
      var hosts := narrow(t).value;
      '#' !in hosts && ';' !in hosts && CleanLine(hosts) && Trimmed(hosts)
  }

  ghost predicate Narrows(narrow: Narrow) {
    forall t :: NarrowsAt(narrow, t)
  }

  function NarrowedPairs(pairs: seq<(string, string)>, narrow: Narrow): Option<seq<(string, string)>> {
    if pairs == [] then Some([])
    else
      var before, last := NarrowedPairs(pairs[..|pairs| - 1], narrow), pairs[|pairs| - 1];
      if before == None then None
      else if Fold(last.0) != "address" then Some(before.value + [last])
      else
        var hosts := narrow(last.1);
        if hosts == None then None else Some(before.value + [(last.0, hosts.value)])
  }

  /** The interface's addresses narrowed, in every section of that name. */
  function Narrowed(sections: seq<Section>, narrow: Narrow): Option<seq<Section>> {
    if sections == [] then Some([])
    else
      var before, last := Narrowed(sections[..|sections| - 1], narrow), sections[|sections| - 1];
      if before == None then None
      else if last.name != "interface" then Some(before.value + [last])
      else
        var pairs := NarrowedPairs(last.pairs, narrow);
        if pairs == None then None else Some(before.value + [last.(pairs := pairs.value)])
  }

  lemma {:induction false} NarrowedLength(sections: seq<Section>, narrow: Narrow)
    requires Narrowed(sections, narrow).Some?
    ensures |Narrowed(sections, narrow).value| == |sections|
    ensures forall i :: 0 <= i < |sections| ==> Narrowed(sections, narrow).value[i].name == sections[i].name
    decreases |sections|
  {
    hide NarrowedPairs;
    if sections != [] { NarrowedLength(sections[..|sections| - 1], narrow); }
  }

  /** One more line, narrowed as it comes. */
  function NarrowItem(item: Item, narrow: Narrow, inside: bool): Option<Item> {
    if item.Pair? && Fold(item.key) == "address" && inside then
      var hosts := narrow(item.value);
      if hosts == None then None else Some(Pair(item.key, hosts.value))
    else Some(item)
  }

  lemma NarrowedAdd(sections: seq<Section>, item: Item, narrow: Narrow)
    ensures Narrowed(Add(sections, item), narrow)
         == var before, now := Narrowed(sections, narrow), NarrowItem(item, narrow, LastIsInterface(sections));
            if before == None || now == None then None else Some(Add(before.value, now.value))
  {
    hide Fold;
    match item
    case Header(name) =>
      var more := sections + [Section(name, [])];
      assert more[..|more| - 1] == sections;
    case Pair(key, value) =>
      if sections != [] {
        var n := |sections| - 1;
        var more := Add(sections, item);
        assert more[..n] == sections[..n];
        NarrowedPairsAdd(sections[n].pairs, key, value, narrow);
        var before, now := Narrowed(sections[..n], narrow), NarrowItem(item, narrow, LastIsInterface(sections));
        if before.Some? && now.Some? {
          var narrowed := NarrowedPairs(sections[n].pairs, narrow);
          PutLast(before.value, sections[n], now.value);
          if narrowed.Some? { PutLast(before.value, sections[n].(pairs := narrowed.value), now.value); }
        }
      }
    case Nothing =>
  }

  lemma NarrowedPairsAdd(pairs: seq<(string, string)>, key: string, value: string, narrow: Narrow)
    ensures NarrowedPairs(pairs + [(key, value)], narrow)
         == var before, now := NarrowedPairs(pairs, narrow), NarrowItem(Pair(key, value), narrow, true);
            if before == None || now == None then None else Some(before.value + [(now.value.key, now.value.value)])
  {
    hide Fold;
    assert (pairs + [(key, value)])[..|pairs|] == pairs;
  }

  lemma PutLast(before: seq<Section>, section: Section, item: Item)
    requires item.Pair?
    ensures Add(before + [section], item) == before + [section.(pairs := section.pairs + [(item.key, item.value)])]
  {}

  lemma AddressKey()
    ensures Lower("Address") == "address" && GoodKey("address")
  {
    assert |Lower("Address")| == 7;
    assert forall c :: c in "address" ==> !IsSpace(c) && c != '=' && c != '#' && c != ';';
    assert Lower("address") == "address";
  }

  /** What is put in is what the reader then finds. */
  lemma HostsValue(lead: string, hosts: string)
    requires Blank(lead) && '#' !in hosts && ';' !in hosts && Trimmed(hosts)
    ensures Trim(Head(Head(lead + hosts, '#'), ';')) == hosts
  {
    hide IsSpace, Trim, Head, Tail;
    EqualsNoSpace();
    BlankWithout(lead, '#');
    BlankWithout(lead, ';');
    HeadAlone(lead + hosts, '#');
    HeadAlone(lead + hosts, ';');
    TrimIs(lead, hosts, []);
    assert lead + hosts + [] == lead + hosts;
  }

  lemma NarrowLineRead(line: string, narrow: Narrow)
    requires Narrows(narrow) && Matches(line, "Address") && NarrowLine(line, narrow).Some?
    ensures var after := NarrowLine(line, narrow).value;
            Some(ReadLine(after)) == NarrowItem(WrittenLine(line, true), narrow, true)
            && !IsHeader(after) && GoodHeader(after) && (CleanLine(line) ==> CleanLine(after))
  {
    hide IsSpace, Trim, Head, Tail, Lower, Fold, GoodKey, Matches, IsHeader, GoodHeader, ReadLine, Trimmed, KeyOf;
    AddressKey();
    MatchesRead(line, "Address");
    var h, t := AddressParts(line);
    var text := Head(t[Lead(t)..], '#');
    assert NarrowsAt(narrow, text);
    var hosts := narrow(text).value;
    var rest := t[..Lead(t)] + hosts;
    assert h + ['='] + t[..Lead(t)] + hosts == h + ['='] + rest;
    ReadPair(h, t);
    ReadPair(h, rest);
    PairNoHeader(h, rest);
    LeadBlank(t);
    HostsValue(t[..Lead(t)], hosts);
    CleanParts(h, t, t[..Lead(t)], hosts);
  }

  lemma CleanParts(h: string, t: string, lead: string, hosts: string)
    requires lead <= t && CleanLine(hosts)
    ensures CleanLine(h + ['='] + t) ==> CleanLine(h + ['='] + (lead + hosts))
  {
    if CleanLine(h + ['='] + t) {
      forall i | 0 <= i < |lead| ensures lead[i] in h + ['='] + t { assert (h + ['='] + t)[|h| + 1 + i] == lead[i]; }
      forall i | 0 <= i < |h| ensures h[i] in h + ['='] + t { assert (h + ['='] + t)[i] == h[i]; }
    }
  }

  /** The lines narrowed are the sections as written, narrowed; and neither fails without the other. */
  lemma {:induction false} NarrowRead(lines: seq<string>, narrow: Narrow)
    requires AllGood(lines) && Narrows(narrow)
    ensures NarrowLines(lines, narrow).Some? <==> Narrowed(Written(lines), narrow).Some?
    ensures NarrowLines(lines, narrow).Some? ==>
              var after := NarrowLines(lines, narrow).value;
              AllGood(after) && InInterface(after) == InInterface(lines) && (CleanLines(lines) ==> CleanLines(after))
              && Narrowed(Written(lines), narrow) == Some(SectionsOf(after))
    decreases |lines|
  {
    hide IsHeader, IsInterface, ReadLine, GoodHeader, Add, Matches, Narrowed, Narrows, NarrowLine, WrittenLine,
        NarrowItem;
    if lines == [] {
      NoneNarrowed(narrow);
    } else {
      var rest, last := lines[..|lines| - 1], lines[|lines| - 1];
      NarrowRead(rest, narrow);
      WrittenCut(rest);
      NarrowedAdd(Written(rest), WrittenLine(last, InInterface(lines)), narrow);
      NarrowItemRead(lines, narrow);
      if NarrowLines(lines, narrow).Some? {
        var before, after := NarrowLines(rest, narrow).value, NarrowLines(lines, narrow).value;
        assert after[..|after| - 1] == before;
      }
    }
  }

  /** One line, narrowed if it is one of the interface's addresses. */
  lemma NarrowItemRead(lines: seq<string>, narrow: Narrow)
    requires AllGood(lines) && Narrows(narrow) && lines != []
    ensures var last, inside := lines[|lines| - 1], InInterface(lines[..|lines| - 1]);
            var now := NarrowItem(WrittenLine(last, InInterface(lines)), narrow, inside);
            if !(InInterface(lines) && Matches(last, "Address")) then now == Some(ReadLine(last))
            else
              !IsHeader(last)
              && (NarrowLine(last, narrow).Some? <==> now.Some?)
              && (now.Some? ==>
                    var after := NarrowLine(last, narrow).value;
                    now == Some(ReadLine(after)) && !IsHeader(after) && GoodHeader(after)
                    && (CleanLine(last) ==> CleanLine(after)))
  {
    hide IsHeader, IsInterface, ReadLine, GoodHeader, Matches, Narrows, NarrowLine, Lead, Head, ValueAt;
    var last := lines[|lines| - 1];
    AddressKey();
    MatchesRead(last, "Address");
    if IsHeader(last) { HeaderRead(last); }
    if InInterface(lines) && Matches(last, "Address") { NarrowAddressRead(last, narrow); }
  }

  lemma NarrowAddressRead(line: string, narrow: Narrow)
    requires Narrows(narrow) && Matches(line, "Address")
    ensures var now := NarrowItem(WrittenLine(line, true), narrow, true);
            (NarrowLine(line, narrow).Some? <==> now.Some?)
            && (now.Some? ==>
                  var after := NarrowLine(line, narrow).value;
                  now == Some(ReadLine(after)) && !IsHeader(after) && GoodHeader(after)
                  && (CleanLine(line) ==> CleanLine(after)))
  {
    hide IsHeader, ReadLine, GoodHeader, Matches, Narrows, Lead, Head, CleanLine;
    AddressKey();
    MatchesRead(line, "Address");
    var h, t := AddressParts(line);
    if NarrowLine(line, narrow).Some? { NarrowLineRead(line, narrow); }
  }

  lemma NoneNarrowed(narrow: Narrow)
    ensures Narrowed([], narrow) == Some([])
  {}

  // An Address' text: addresses between commas.

  /** What addresses are printed with: nothing that anyone cuts at. */
  predicate HostChar(c: char) { '0' <= c <= ':' || 'a' <= c <= 'f' || c == '.' || c == '/' }

  predicate HostText(host: string) {
    host != [] && forall i :: 0 <= i < |host| ==> HostChar(host[i])
  }

  /** An address and its length. */
  predicate ParsesAt(parse: Narrow, t: string) { parse(t).Some? ==> HostText(parse(t).value) }

  ghost predicate Parses(parse: Narrow) {
    forall t :: ParsesAt(parse, t)
  }

  /** A text that narrows: every item that is not blank is an address. */
  predicate AllParse(text: string, parse: Narrow) {
    forall i :: 0 <= i < |Split(text, ',')| && Trim(Split(text, ',')[i]) != [] ==>
      parse(Trim(Split(text, ',')[i])).Some?
  }

  ghost predicate HostTexts(hosts: seq<string>) {
    forall i :: 0 <= i < |hosts| ==> HostText(hosts[i])
  }

  lemma {:induction false} NarrowAllMeaning(values: seq<string>, narrow: Narrow)
    ensures NarrowAll(values, narrow).Some? <==> forall i :: 0 <= i < |values| ==> narrow(values[i]).Some?
    ensures NarrowAll(values, narrow).Some? ==>
              var hosts := NarrowAll(values, narrow).value;
              |hosts| == |values| && forall i :: 0 <= i < |values| ==> narrow(values[i]) == Some(hosts[i])
    decreases |values|
  {
    if values != [] {
      var rest := values[..|values| - 1];
      NarrowAllMeaning(rest, narrow);
      assert forall i :: 0 <= i < |rest| ==> values[i] == rest[i];
      if NarrowAll(rest, narrow).None? {
        var i :| 0 <= i < |rest| && narrow(rest[i]).None?;
        assert narrow(values[i]).None?;
      }
    }
  }

  lemma {:induction false} ItemsMeaning(parts: seq<string>, parse: Narrow)
    ensures NarrowAll(Items(parts), parse).Some?
       <==> forall i :: 0 <= i < |parts| && Trim(parts[i]) != [] ==> parse(Trim(parts[i])).Some?
    decreases |parts|
  {
    hide Trim;
    if parts != [] {
      var rest, item := parts[..|parts| - 1], Trim(parts[|parts| - 1]);
      ItemsMeaning(rest, parse);
      assert forall i :: 0 <= i < |rest| ==> parts[i] == rest[i];
      if item != [] { NarrowAllOne(Items(rest), item, parse); }
      assert Items(rest) + [] == Items(rest);
    }
  }

  lemma HostsMeaning(text: string, parse: Narrow)
    ensures Hosts(text, parse).Some? <==> AllParse(text, parse)
  {
    hide Split, Trim, Items, NarrowAll;
    ItemsMeaning(Split(text, ','), parse);
  }

  lemma ParsedTexts(items: seq<string>, parse: Narrow)
    requires Parses(parse) && NarrowAll(items, parse).Some?
    ensures HostTexts(NarrowAll(items, parse).value)
  {
    hide NarrowAll, HostText;
    NarrowAllMeaning(items, parse);
    forall i | 0 <= i < |items| ensures HostText(NarrowAll(items, parse).value[i]) {
      assert ParsesAt(parse, items[i]);
    }
  }

  /** A list begins and ends in its addresses, and has but commas and spaces besides. */
  lemma {:induction false} ListedClean(hosts: seq<string>)
    requires HostTexts(hosts)
    ensures var s := Listed(hosts);
            (hosts != [] ==> s != [] && HostChar(s[0]) && HostChar(s[|s| - 1]))
            && (s == [] <==> hosts == [])
            && forall i :: 0 <= i < |s| ==> HostChar(s[i]) || s[i] == ',' || s[i] == ' '
    decreases |hosts|
  {
    hide HostChar;
    if |hosts| > 1 {
      ListedClean(hosts[..|hosts| - 1]);
    }
  }

  lemma HostChars()
    ensures forall c :: HostChar(c) ==>
      !IsSpace(c) && c != '#' && c != ';' && c != '\n' && c != '\r' && c != ',' && c != ' '
  {}

  lemma HostsNarrow(parse: Narrow)
    requires Parses(parse)
    ensures Narrows(HostsOf(parse))
  {
    forall t ensures NarrowsAt(HostsOf(parse), t) {
      HostsClean(t, parse);
    }
  }

  lemma HostsClean(t: string, parse: Narrow)
    requires Parses(parse)
    ensures NarrowsAt(HostsOf(parse), t)
  {
    hide Items, NarrowAll, Split, Listed, HostChar, IsSpace, Parses;
    if Hosts(t, parse).Some? {
      var items := Items(Split(t, ','));
      ParsedTexts(items, parse);
      ListedClean(NarrowAll(items, parse).value);
      HostChars();
    }
  }

  // Setting a key that is not there.

  function CountInterface(sections: seq<Section>): nat {
    if sections == [] then 0
    else CountInterface(sections[..|sections| - 1]) + if sections[|sections| - 1].name == "interface" then 1 else 0
  }

  lemma {:induction false} CountSame(a: seq<Section>, b: seq<Section>)
    requires |a| == |b| && forall i :: 0 <= i < |a| ==> a[i].name == b[i].name
    ensures CountInterface(a) == CountInterface(b)
    decreases |a|
  {
    if a != [] { CountSame(a[..|a| - 1], b[..|b| - 1]); }
  }

  lemma {:induction false} CountThen(a: seq<Section>, b: seq<Section>)
    ensures CountInterface(a + b) == CountInterface(a) + CountInterface(b)
    decreases |b|
  {
    if b == [] {
      assert a + b == a;
    } else {
      CountThen(a, b[..|b| - 1]);
      assert (a + b)[..|a + b| - 1] == a + b[..|b| - 1];
    }
  }

  lemma {:induction false} CountNone(sections: seq<Section>, i: nat)
    requires CountInterface(sections) == 0 && i < |sections|
    ensures sections[i].name != "interface"
    decreases |sections|
  {
    if i < |sections| - 1 { CountNone(sections[..|sections| - 1], i); }
  }

  lemma {:induction false} CountLines(lines: seq<string>)
    requires AllGood(lines)
    ensures CountInterface(SectionsOf(lines)) == InterfaceCount(lines)
    decreases |lines|
  {
    hide IsHeader, IsInterface, ReadLine, GoodHeader, StartsHeader;
    if lines != [] {
      var rest, last := lines[..|lines| - 1], lines[|lines| - 1];
      CountLines(rest);
      HeaderAsChecked(last);
      var before := SectionsOf(rest);
      if IsHeader(last) {
        HeaderRead(last);
        assert (before + [Section(HeaderName(last), [])])[..|before|] == before;
      } else {
        NoHeader(last);
        CountSame(Add(before, ReadLine(last)), before);
      }
    }
  }

  lemma InterfaceIsHeader(line: string)
    requires IsInterface(line)
    ensures IsHeader(line)
  {
    hide Trim;
    var s := Trim(line);
    assert |Lower(s)| == |s| == 11;
    LowerKeeps(s, '[');
  }

  /** From the interface's header up to the next one, every line is the interface's. */
  lemma {:induction false} InsideTo(lines: seq<string>, i: nat, j: nat)
    requires i < j <= |lines| && IsInterface(lines[i]) && forall k :: i < k < j ==> !IsHeader(lines[k])
    ensures InInterface(lines[..j])
    decreases j
  {
    hide IsHeader, IsInterface;
    InterfaceIsHeader(lines[i]);
    assert lines[..j][..j - 1] == lines[..j - 1];
    if j > i + 1 { InsideTo(lines, i, j - 1); }
  }

  /** Sections end at a header: what follows is read on its own. */
  lemma {:induction false} SectionsThen(a: seq<string>, b: seq<string>)
    requires AllGood(b) && (b != [] ==> IsHeader(b[0]))
    ensures SectionsOf(a + b) == SectionsOf(a) + SectionsOf(b) && (b != [] ==> SectionsOf(b) != [])
    decreases |b|
  {
    hide IsHeader, ReadLine, GoodHeader, Add;
    if b == [] {
      assert a + b == a;
    } else {
      var rest, last := b[..|b| - 1], b[|b| - 1];
      SectionsThen(a, rest);
      assert (a + b)[..|a + b| - 1] == a + rest && (a + b)[|a + b| - 1] == last;
      if rest == [] { HeaderRead(last); }
      AddThen(SectionsOf(a), SectionsOf(rest), ReadLine(last));
    }
  }

  lemma AddThen(a: seq<Section>, b: seq<Section>, item: Item)
    requires b != [] || item.Header?
    ensures Add(a + b, item) == a + Add(b, item) && Add(b, item) != []
  {}

  function Appended(sections: seq<Section>, key: string, value: string): seq<Section> {
    seq(|sections|, i requires 0 <= i < |sections| =>
      if sections[i].name == "interface" then sections[i].(pairs := sections[i].pairs + [(key, value)])
      else sections[i])
  }

  /** Put at the end of the one interface there is. */
  lemma AppendedAt(a: seq<Section>, b: seq<Section>, key: string, value: string)
    requires LastIsInterface(a) && CountInterface(a + b) == 1
    ensures Add(a, Pair(key, value)) + b == Appended(a + b, key, value)
  {
    var n := |a| - 1;
    CountThen(a, b);
    assert CountInterface(a[..n]) == 0 && CountInterface(b) == 0;
    forall i | 0 <= i < n ensures a[i].name != "interface" { CountNone(a[..n], i); }
    forall i | 0 <= i < |b| ensures b[i].name != "interface" { CountNone(b, i); }
  }

  /** No line of the interface's has the key. */
  predicate KeyGone(lines: seq<string>, key: string) {
    forall j :: 0 <= j < |lines| && InInterface(lines[..j + 1]) ==> !Matches(lines[j], key)
  }

  lemma {:induction false} RemoveGone(lines: seq<string>, key: string)
    requires AllGood(lines) && GoodKey(Lower(key))
    ensures KeyGone(RemoveLines(lines, key), key)
    decreases |lines|
  {
    hide IsHeader, IsInterface, GoodHeader, Matches, Lower, GoodKey, Written, SectionsOf, Removed;
    if lines != [] {
      var rest, last := lines[..|lines| - 1], lines[|lines| - 1];
      RemoveGone(rest, key);
      RemoveRead(rest, key);
      RemoveRead(lines, key);
      var before, after := RemoveLines(rest, key), RemoveLines(lines, key);
      forall j | 0 <= j < |after| && InInterface(after[..j + 1]) ensures !Matches(after[j], key) {
        if j < |before| {
          assert after[..j + 1] == before[..j + 1];
        } else {
          assert after[..j + 1] == after;
        }
      }
    }
  }

  /** The key's line as the reader takes it. */
  lemma KeyLineRead(key: string, value: string)
    requires GoodKey(Lower(key)) && '#' !in value && ';' !in value && Trimmed(value) && CleanLine(key)
      && CleanLine(value)
    ensures ReadLine(KeyLine(key, value)) == Pair(Lower(key), value)
    ensures !IsHeader(KeyLine(key, value)) && GoodHeader(KeyLine(key, value))
    ensures CleanLine(KeyLine(key, value))
  {
    hide Trim, Head, Tail, Lower, Fold, GoodKey, ReadLine, IsHeader, GoodHeader, PlainKey;
    LowerFolds(key, Lower(key));
    KeyWord(key, Lower(key));
    KeySome(Lower(key));
    TrimIs([], key, " ");
    assert [] + key + " " == key + " ";
    EqualsNoSpace();
    assert KeyLine(key, value) == (key + " ") + ['='] + (" " + value);
    ReadPair(key + " ", " " + value);
    PairNoHeader(key + " ", " " + value);
    HostsValue(" ", value);
  }

  /** Where the line goes: at the end of the interface's. */
  lemma SetShape(lines: seq<string>, key: string, value: string)
    requires AllGood(lines) && CountInterface(SectionsOf(lines)) == 1 && KeyGone(lines, key)
    ensures SetLines(lines, key, value)
      == Some(lines[..InterfaceEnd(lines)] + [KeyLine(key, value)] + lines[InterfaceEnd(lines)..])
    ensures InInterface(lines[..InterfaceEnd(lines)])
      && (InterfaceEnd(lines) < |lines| ==> IsHeader(lines[InterfaceEnd(lines)]))
  {
    hide IsHeader, IsInterface, ReadLine, GoodHeader, Matches, KeyLine, InInterface, CountInterface, StartsHeader,
        KeyGone;
    CountLines(lines);
    SomeInterface(lines);
    var i := InterfaceAt(lines, 0);
    var end := InterfaceEnd(lines);
    NoMatch(lines, key, i, end);
    InsideTo(lines, i, end);
  }

  /** A pair's line at the end of the interface's lines is a pair at the end of its section. */
  lemma PutIn(a: seq<string>, line: string, b: seq<string>, key: string, value: string)
    requires AllGood(a) && AllGood(b) && GoodHeader(line) && (b != [] ==> IsHeader(b[0]))
    requires InInterface(a) && CountInterface(SectionsOf(a + b)) == 1 && ReadLine(line) == Pair(key, value)
    ensures SectionsOf(a + [line] + b) == Appended(SectionsOf(a + b), key, value)
  {
    hide IsHeader, IsInterface, ReadLine, GoodHeader, Appended, InInterface, CountInterface, Add;
    InInterfaceMeaning(a);
    SectionsThen(a, b);
    SectionsThen(a + [line], b);
    assert (a + [line])[..|a|] == a;
    AppendedAt(SectionsOf(a), SectionsOf(b), key, value);
  }

  lemma SetRead(lines: seq<string>, key: string, value: string)
    requires AllGood(lines) && CleanLines(lines) && CountInterface(SectionsOf(lines)) == 1 && KeyGone(lines, key)
    requires GoodKey(Lower(key)) && '#' !in value && ';' !in value && Trimmed(value) && CleanLine(key)
      && CleanLine(value)
    ensures SetLines(lines, key, value).Some?
    ensures var after := SetLines(lines, key, value).value;
            AllGood(after) && CleanLines(after) && SectionsOf(after) == Appended(SectionsOf(lines), Lower(key), value)
  {
    hide IsHeader, ReadLine, GoodHeader, Lower, GoodKey, KeyLine, Appended, InInterface, CountInterface, KeyGone,
        SetLines, SectionsOf, CleanLine;
    SetShape(lines, key, value);
    var end := InterfaceEnd(lines);
    KeyLineRead(key, value);
    assert lines[..end] + lines[end..] == lines;
    PutIn(lines[..end], KeyLine(key, value), lines[end..], Lower(key), value);
  }

  lemma NoMatch(lines: seq<string>, key: string, i: nat, end: nat)
    requires i < end <= |lines| && IsInterface(lines[i]) && (forall j :: i < j < end ==> !IsHeader(lines[j]))
      && KeyGone(lines, key)
    ensures MatchAt(lines, key, i + 1, end) == end
  {
    hide IsHeader, IsInterface, Matches, InInterface;
    var m := MatchAt(lines, key, i + 1, end);
    if m < end {
      InsideTo(lines, i, m + 1);
      assert false;
    }
  }

  lemma {:induction false} SomeInterface(lines: seq<string>)
    requires InterfaceCount(lines) >= 1
    ensures InterfaceAt(lines, 0) < |lines|
  {
    hide IsInterface, StartsHeader;
    var k := InterfaceSomewhere(lines);
  }

  lemma {:induction false} InterfaceSomewhere(lines: seq<string>) returns (k: nat)
    requires InterfaceCount(lines) >= 1
    ensures k < |lines| && IsInterface(lines[k])
    decreases |lines|
  {
    hide IsInterface, StartsHeader;
    if StartsHeader(lines[|lines| - 1]) && IsInterface(lines[|lines| - 1]) {
      k := |lines| - 1;
    } else {
      k := InterfaceSomewhere(lines[..|lines| - 1]);
    }
  }

  // ---- The whole rewriting ----

  /** Everything outside the interface's section as it was. */
  ghost predicate OthersSame(a: seq<Section>, b: seq<Section>) {
    |a| == |b| && forall i :: 0 <= i < |a| ==> a[i].name == b[i].name && (a[i].name != "interface" ==> a[i] == b[i])
  }

  lemma RemovedOthers(sections: seq<Section>, key: string)
    ensures OthersSame(sections, Removed(sections, key))
      && CountInterface(Removed(sections, key)) == CountInterface(sections)
  {
    CountSame(sections, Removed(sections, key));
  }

  lemma AppendedOthers(sections: seq<Section>, key: string, value: string)
    ensures OthersSame(sections, Appended(sections, key, value))
      && CountInterface(Appended(sections, key, value)) == CountInterface(sections)
  {
    CountSame(sections, Appended(sections, key, value));
  }

  lemma NarrowedOthers(sections: seq<Section>, narrow: Narrow)
    requires Narrowed(sections, narrow).Some?
    ensures OthersSame(sections, Narrowed(sections, narrow).value)
    ensures CountInterface(Narrowed(sections, narrow).value) == CountInterface(sections)
  {
    hide Narrowed, CountInterface;
    NarrowedLength(sections, narrow);
    var after := Narrowed(sections, narrow).value;
    forall i | 0 <= i < |sections| && sections[i].name != "interface" ensures after[i] == sections[i] {
      NarrowedKeeps(sections, narrow, i);
    }
    CountSame(sections, after);
  }

  lemma {:induction false} NarrowedKeeps(sections: seq<Section>, narrow: Narrow, i: nat)
    requires Narrowed(sections, narrow).Some? && |Narrowed(sections, narrow).value| == |sections|
    requires i < |sections| && sections[i].name != "interface"
    ensures Narrowed(sections, narrow).value[i] == sections[i]
    decreases |sections|
  {
    hide NarrowedPairs;
    var rest := sections[..|sections| - 1];
    NarrowedLength(rest, narrow);
    if i < |rest| { NarrowedKeeps(rest, narrow, i); }
  }

  lemma {:induction false} ValuesRemovedPairs(pairs: seq<(string, string)>, key: string, k: string)
    ensures ValuesIn(RemovedPairs(pairs, key), k) == if Fold(k) == key then [] else ValuesIn(pairs, k)
    decreases |pairs|
  {
    hide Fold;
    if pairs != [] {
      var rest := RemovedPairs(pairs[..|pairs| - 1], key);
      ValuesRemovedPairs(pairs[..|pairs| - 1], key, k);
      var after := RemovedPairs(pairs, key);
      if Fold(pairs[|pairs| - 1].0) != key {
        assert after[..|after| - 1] == rest;
      } else {
        assert after == rest;
      }
    }
  }

  lemma {:induction false} ValuesRemoved(sections: seq<Section>, key: string, k: string)
    ensures Values(Removed(sections, key), "interface", k)
         == if Fold(k) == key then [] else Values(sections, "interface", k)
    decreases |sections|
  {
    hide ValuesIn, RemovedPairs, Fold;
    if sections != [] {
      var rest, last := sections[..|sections| - 1], sections[|sections| - 1];
      ValuesRemoved(rest, key, k);
      ValuesRemovedPairs(last.pairs, key, k);
      var after := Removed(sections, key);
      assert after[..|after| - 1] == Removed(rest, key);
    }
  }

  lemma {:induction false} ValuesAppended(sections: seq<Section>, key: string, value: string, k: string)
    requires CountInterface(sections) <= 1
    ensures Values(Appended(sections, key, value), "interface", k)
         == Values(sections, "interface", k) + if k == key && CountInterface(sections) == 1 then [value] else []
    decreases |sections|
  {
    hide ValuesIn;
    if sections != [] {
      var rest, last := sections[..|sections| - 1], sections[|sections| - 1];
      ValuesAppended(rest, key, value, k);
      ValuesInMore(last.pairs, key, value, k);
      var after := Appended(sections, key, value);
      assert after[..|after| - 1] == Appended(rest, key, value);
    }
  }

  lemma ValuesInMore(pairs: seq<(string, string)>, key: string, value: string, k: string)
    ensures ValuesIn(pairs + [(key, value)], k) == ValuesIn(pairs, k) + if k == key then [value] else []
  {
    assert (pairs + [(key, value)])[..|pairs|] == pairs;
  }

  lemma NarrowAllOne(a: seq<string>, b: string, narrow: Narrow)
    ensures NarrowAll(a + [b], narrow)
         == if NarrowAll(a, narrow) == None || narrow(b) == None then None
            else Some(NarrowAll(a, narrow).value + [narrow(b).value])
  {
    assert (a + [b])[..|a|] == a;
  }

  lemma {:induction false} NarrowAllThen(a: seq<string>, b: seq<string>, narrow: Narrow)
    ensures NarrowAll(a + b, narrow)
         == var x, y := NarrowAll(a, narrow), NarrowAll(b, narrow);
            if x == None || y == None then None else Some(x.value + y.value)
    decreases |b|
  {
    hide NarrowAll;
    NarrowNone(narrow);
    if b == [] {
      assert a + b == a;
      var x := NarrowAll(a, narrow);
      if x.Some? { assert x.value + [] == x.value; }
    } else {
      var rest, last := b[..|b| - 1], b[|b| - 1];
      NarrowAllThen(a, rest, narrow);
      NarrowAllOne(a + rest, last, narrow);
      NarrowAllOne(rest, last, narrow);
      assert b == rest + [last] && a + b == a + rest + [last];
      var x, y := NarrowAll(a, narrow), NarrowAll(rest, narrow);
      if x.Some? && y.Some? && narrow(last).Some? {
        assert x.value + y.value + [narrow(last).value] == x.value + (y.value + [narrow(last).value]);
      }
    }
  }

  /** Every value of a key that folds to this one. */
  function FoldedIn(pairs: seq<(string, string)>, key: string): seq<string> {
    if pairs == [] then []
    else
      var last := pairs[|pairs| - 1];
      FoldedIn(pairs[..|pairs| - 1], key) + if Fold(last.0) == key then [last.1] else []
  }

  /** So of the interface's. */
  function Folded(sections: seq<Section>, key: string): seq<string> {
    if sections == [] then []
    else
      var last := sections[|sections| - 1];
      Folded(sections[..|sections| - 1], key) + if last.name == "interface" then FoldedIn(last.pairs, key) else []
  }

  lemma {:induction false} FoldedRemovedPairs(pairs: seq<(string, string)>, key: string, k: string)
    requires k != key
    ensures FoldedIn(RemovedPairs(pairs, key), k) == FoldedIn(pairs, k)
    decreases |pairs|
  {
    hide Fold;
    if pairs != [] {
      var rest := RemovedPairs(pairs[..|pairs| - 1], key);
      FoldedRemovedPairs(pairs[..|pairs| - 1], key, k);
      var after := RemovedPairs(pairs, key);
      if Fold(pairs[|pairs| - 1].0) != key {
        assert after[..|after| - 1] == rest;
      } else {
        assert after == rest;
      }
    }
  }

  lemma {:induction false} FoldedRemoved(sections: seq<Section>, key: string, k: string)
    requires k != key
    ensures Folded(Removed(sections, key), k) == Folded(sections, k)
    decreases |sections|
  {
    hide FoldedIn, RemovedPairs;
    if sections != [] {
      FoldedRemoved(sections[..|sections| - 1], key, k);
      FoldedRemovedPairs(sections[|sections| - 1].pairs, key, k);
      var after := Removed(sections, key);
      assert after[..|after| - 1] == Removed(sections[..|sections| - 1], key);
    }
  }

  /** The interface's addresses narrow when each of them does. */
  lemma {:induction false} NarrowedPairsSome(pairs: seq<(string, string)>, narrow: Narrow)
    ensures NarrowedPairs(pairs, narrow).Some? <==> NarrowAll(FoldedIn(pairs, "address"), narrow).Some?
    decreases |pairs|
  {
    hide Fold;
    if pairs != [] {
      var rest, last := pairs[..|pairs| - 1], pairs[|pairs| - 1];
      NarrowedPairsSome(rest, narrow);
      NarrowAllOne(FoldedIn(rest, "address"), last.1, narrow);
      assert FoldedIn(rest, "address") + [] == FoldedIn(rest, "address");
    }
  }

  lemma {:induction false} NarrowedSome(sections: seq<Section>, narrow: Narrow)
    ensures Narrowed(sections, narrow).Some? <==> NarrowAll(Folded(sections, "address"), narrow).Some?
    decreases |sections|
  {
    hide FoldedIn, NarrowedPairs, NarrowAll;
    if sections == [] {
      NarrowNone(narrow);
    } else {
      var rest, last := sections[..|sections| - 1], sections[|sections| - 1];
      NarrowedSome(rest, narrow);
      NarrowedPairsSome(last.pairs, narrow);
      NarrowAllThen(Folded(rest, "address"), FoldedIn(last.pairs, "address"), narrow);
      assert Folded(rest, "address") + [] == Folded(rest, "address");
    }
  }

  lemma {:induction false} ValuesNarrowedPairs(pairs: seq<(string, string)>, narrow: Narrow, k: string)
    requires NarrowedPairs(pairs, narrow).Some?
    ensures var after := NarrowedPairs(pairs, narrow).value;
            if Fold(k) == "address" then NarrowAll(ValuesIn(pairs, k), narrow) == Some(ValuesIn(after, k))
            else ValuesIn(after, k) == ValuesIn(pairs, k)
    decreases |pairs|
  {
    hide Fold;
    if pairs != [] {
      var rest, last := pairs[..|pairs| - 1], pairs[|pairs| - 1];
      ValuesNarrowedPairs(rest, narrow, k);
      var before, after := NarrowedPairs(rest, narrow).value, NarrowedPairs(pairs, narrow).value;
      assert after[..|after| - 1] == before;
      NarrowAllOne(ValuesIn(rest, k), last.1, narrow);
      assert ValuesIn(rest, k) + [] == ValuesIn(rest, k) && ValuesIn(before, k) + [] == ValuesIn(before, k);
    }
  }

  lemma {:induction false} ValuesNarrowed(sections: seq<Section>, narrow: Narrow, k: string)
    requires Narrowed(sections, narrow).Some?
    ensures var after := Narrowed(sections, narrow).value;
            if Fold(k) == "address" then
              NarrowAll(Values(sections, "interface", k), narrow) == Some(Values(after, "interface", k))
            else Values(after, "interface", k) == Values(sections, "interface", k)
    decreases |sections|
  {
    hide ValuesIn, NarrowedPairs, NarrowAll, Fold;
    if sections == [] {
      NarrowNone(narrow);
    } else {
      var rest, last := sections[..|sections| - 1], sections[|sections| - 1];
      ValuesNarrowed(rest, narrow, k);
      var before, after := Narrowed(rest, narrow).value, Narrowed(sections, narrow).value;
      assert after[..|after| - 1] == before;
      if last.name == "interface" {
        ValuesNarrowedPairs(last.pairs, narrow, k);
        NarrowAllThen(Values(rest, "interface", k), ValuesIn(last.pairs, k), narrow);
      } else {
        assert Values(rest, "interface", k) + [] == Values(rest, "interface", k);
        assert Values(before, "interface", k) + [] == Values(before, "interface", k);
      }
    }
  }

  lemma NarrowNone(narrow: Narrow)
    ensures NarrowAll([], narrow) == Some([])
  {}

  function CutValues(texts: seq<string>): seq<string> {
    seq(|texts|, i requires 0 <= i < |texts| => CutValue(texts[i]))
  }

  lemma {:induction false} ValuesCutPairs(pairs: seq<(string, string)>, k: string)
    ensures ValuesIn(CutPairs(pairs), k)
         == if Fold(k) == "address" then CutValues(ValuesIn(pairs, k)) else ValuesIn(pairs, k)
    decreases |pairs|
  {
    hide CutValue, Fold;
    if pairs != [] {
      ValuesCutPairs(pairs[..|pairs| - 1], k);
      var after := CutPairs(pairs);
      assert after[..|after| - 1] == CutPairs(pairs[..|pairs| - 1]);
    }
  }

  lemma {:induction false} ValuesCut(sections: seq<Section>, k: string)
    ensures Values(CutAddresses(sections), "interface", k)
         == if Fold(k) == "address" then CutValues(Values(sections, "interface", k))
            else Values(sections, "interface", k)
    decreases |sections|
  {
    hide ValuesIn, CutPairs, CutValue, Fold;
    if sections != [] {
      var last := sections[|sections| - 1];
      ValuesCut(sections[..|sections| - 1], k);
      ValuesCutPairs(last.pairs, k);
      var after := CutAddresses(sections);
      assert after[..|after| - 1] == CutAddresses(sections[..|sections| - 1]);
    }
  }

  /** A configuration as it is between the edits. */
  ghost predicate Fit(config: string) {
    CleanLines(Lines(config)) && AllGood(Lines(config)) && CountInterface(Sections(config)) == 1
  }

  lemma ValidFits(config: string, hooks: bool)
    requires Valid(config, hooks)
    ensures Fit(config)
  {
    hide GoodHeader, AsciiKey, InterfaceCount, ReadLine;
    LinesClean(config);
    CountLines(Lines(config));
  }

  lemma RemoveKeyRead(config: string, key: string)
    requires Fit(config) && GoodKey(Lower(key))
    ensures Fit(RemoveKey(config, key)) && Sections(RemoveKey(config, key)) == Removed(Sections(config), Lower(key))
    ensures Written(Lines(RemoveKey(config, key))) == Removed(Written(Lines(config)), Lower(key))
    ensures KeyGone(Lines(RemoveKey(config, key)), key)
  {
    hide Lines, Unlines, Removed, RemoveLines, SectionsOf, CountInterface, CleanLines, AllGood, KeyGone, GoodKey,
        Lower;
    RemoveRead(Lines(config), key);
    RemoveGone(Lines(config), key);
    LinesUnlines(RemoveLines(Lines(config), key));
    RemovedOthers(Sections(config), Lower(key));
  }

  lemma ReplaceKeyRead(config: string, key: string, value: string)
    requires Fit(config) && GoodKey(Lower(key)) && '#' !in value && ';' !in value && Trimmed(value) && CleanLine(key)
      && CleanLine(value)
    ensures ReplaceKey(config, key, value).Some?
    ensures var after := ReplaceKey(config, key, value).value;
            Fit(after) && Sections(after) == Appended(Removed(Sections(config), Lower(key)), Lower(key), value)
  {
    hide Lines, Unlines, Removed, Appended, RemoveKey, SetLines, SectionsOf, CountInterface, CleanLines, AllGood,
        KeyGone, GoodKey, Lower, Trimmed;
    RemoveKeyRead(config, key);
    var removed := RemoveKey(config, key);
    SetRead(Lines(removed), key, value);
    LinesUnlines(SetLines(Lines(removed), key, value).value);
    AppendedOthers(Sections(removed), Lower(key), value);
  }

  lemma NarrowKeyRead(config: string, narrow: Narrow)
    requires Fit(config) && Narrows(narrow)
    ensures NarrowLines(Lines(config), narrow).Some? <==> Narrowed(Written(Lines(config)), narrow).Some?
    ensures NarrowLines(Lines(config), narrow).Some? ==>
              var after := Unlines(NarrowLines(Lines(config), narrow).value);
              Fit(after) && Narrowed(Written(Lines(config)), narrow) == Some(Sections(after))
  {
    hide Lines, Unlines, NarrowLines, Narrowed, Narrows, SectionsOf, CountInterface, CleanLines, AllGood, Written,
        CutAddresses;
    NarrowRead(Lines(config), narrow);
    if NarrowLines(Lines(config), narrow).Some? {
      LinesUnlines(NarrowLines(Lines(config), narrow).value);
      NarrowedOthers(Written(Lines(config)), narrow);
      WrittenCut(Lines(config));
      CutOthers(Written(Lines(config)));
    }
  }

  lemma CutOthers(sections: seq<Section>)
    ensures OthersSame(sections, CutAddresses(sections))
      && CountInterface(CutAddresses(sections)) == CountInterface(sections)
  {
    hide CutPairs;
    CountSame(sections, CutAddresses(sections));
  }

  lemma RewriteKeys()
    ensures Lower("DNS") == "dns" && Lower("Table") == "table" && Lower("FwMark") == "fwmark"
      && Lower("ListenPort") == "listenport"
  {
    assert |Lower("DNS")| == 3 && |Lower("Table")| == 5 && |Lower("FwMark")| == 6 && |Lower("ListenPort")| == 10;
  }

  lemma RewriteKeysGood()
    ensures GoodKey("dns") && GoodKey("table") && GoodKey("fwmark") && GoodKey("listenport")
    ensures CleanLine("Table") && CleanLine("FwMark") && CleanLine("off") && Trimmed("off") && '#' !in "off"
      && ';' !in "off"
  {
    PlainWord("dns");
    PlainWord("table");
    PlainWord("fwmark");
    PlainWord("listenport");
  }

  lemma PlainWord(k: string)
    requires k != [] && forall i :: 0 <= i < |k| ==> 'a' <= k[i] <= 'z'
    ensures GoodKey(k)
  {
    assert Lower(k) == k;
  }

  lemma MarkGood(mark: nat)
    ensures CleanLine(Show(mark)) && Trimmed(Show(mark)) && '#' !in Show(mark) && ';' !in Show(mark)
  {}

  lemma DropPrivilegedRead(config: string)
    requires Fit(config)
    ensures var values, after := Values(Sections(config), "interface", "listenport"), DropPrivileged(config);
            Fit(after)
            && Sections(after)
               == if AllUnprivileged(values) then Sections(config) else Removed(Sections(config), "listenport")
  {
    hide Fit, Removed, RemoveKey, AllUnprivileged, Values, Sections;
    RewriteKeys();
    RewriteKeysGood();
    if !AllUnprivileged(Values(Sections(config), "interface", "listenport")) { RemoveKeyRead(config, "ListenPort"); }
  }

  /** The sections without DNS, and with narrowed addresses. */
  function Kept(config: string, parse: Option<Narrow>): Option<seq<Section>> {
    if parse == None then Some(Removed(Sections(config), "dns"))
    else Narrowed(Removed(Written(Lines(config)), "dns"), HostsOf(parse.value))
  }

  /** The rewriting as edits of sections. */
  function Rewritten(config: string, mark: nat, parse: Option<Narrow>): Option<seq<Section>> {
    var kept := Kept(config, parse);
    if kept == None then None
    else
      var values := Values(kept.value, "interface", "listenport");
      var dropped := if AllUnprivileged(values) then kept.value else Removed(kept.value, "listenport");
      Some(Appended(Removed(Appended(Removed(dropped, "table"), "table", "off"), "fwmark"), "fwmark", Show(mark)))
  }

  /** The lines without DNS, and with narrowed addresses. */
  function KeptText(config: string, parse: Option<Narrow>): Option<string> {
    var noDns := RemoveKey(config, "DNS");
    if parse == None then Some(noDns)
    else
      var lines := NarrowLines(Lines(noDns), HostsOf(parse.value));
      if lines == None then None else Some(Unlines(lines.value))
  }

  lemma KeptRead(config: string, hooks: bool, parse: Option<Narrow>)
    requires Valid(config, hooks) && (parse.Some? ==> Parses(parse.value))
    ensures KeptText(config, parse).Some? <==> Kept(config, parse).Some?
    ensures KeptText(config, parse).Some? ==>
              var after := KeptText(config, parse).value;
              Fit(after) && Kept(config, parse) == Some(Sections(after))
  {
    hide Valid, Fit, Removed, Narrowed, Narrows, Parses, RemoveKey, SectionsOf, Lines, Unlines, NarrowLines, Lower,
        GoodKey, Written, HostsOf;
    ValidFits(config, hooks);
    RewriteKeys();
    RewriteKeysGood();
    RemoveKeyRead(config, "DNS");
    if parse.Some? {
      HostsNarrow(parse.value);
      NarrowKeyRead(RemoveKey(config, "DNS"), HostsOf(parse.value));
    }
  }

  /** The rewriting fails exactly when the narrowing does; else the reader sees the edits made. */
  lemma OutboundRead(config: string, hooks: bool, mark: nat, parse: Option<Narrow>)
    requires Valid(config, hooks) && (parse.Some? ==> Parses(parse.value))
    ensures Outbound(config, mark, parse).Some? <==> Kept(config, parse).Some?
    ensures Outbound(config, mark, parse).Some? ==>
              Rewritten(config, mark, parse) == Some(Sections(Outbound(config, mark, parse).value))
  {
    hide Valid, Fit, Kept, Parses, Removed, Appended, RemoveKey, ReplaceKey, DropPrivileged, AllUnprivileged, Values,
        SectionsOf, Lines, Unlines, NarrowLines, Lower, GoodKey, CleanLine, Trimmed, HostsOf;
    KeptRead(config, hooks, parse);
    if KeptText(config, parse).Some? {
      RewriteKeys();
      RewriteKeysGood();
      MarkGood(mark);
      var kept := KeptText(config, parse).value;
      DropPrivilegedRead(kept);
      var dropped := DropPrivileged(kept);
      ReplaceKeyRead(dropped, "Table", "off");
      ReplaceKeyRead(ReplaceKey(dropped, "Table", "off").value, "FwMark", Show(mark));
    }
  }

  /** The interface's texts under a key, an address up to its comment. */
  function Texts(config: string, key: string): seq<string> { Values(Written(Lines(config)), "interface", key) }

  /** All that are narrowed, under whatever key that folds to Address. */
  function AddressTexts(config: string): seq<string> { Folded(Written(Lines(config)), "address") }

  /** A valid configuration is rewritten, unless addresses are to be narrowed and one of the
      interface's is none. */
  lemma OutboundSucceeds(config: string, hooks: bool, mark: nat, parse: Option<Narrow>)
    requires Valid(config, hooks) && (parse.Some? ==> Parses(parse.value))
    ensures var texts := AddressTexts(config);
            Outbound(config, mark, parse).Some?
            <==> (parse.Some? ==> forall i :: 0 <= i < |texts| ==> AllParse(texts[i], parse.value))
  {
    hide Valid, Parses, Outbound, Rewritten, Removed, Narrowed, Folded, Sections, NarrowAll, Written, AllParse;
    OutboundRead(config, hooks, mark, parse);
    if parse.Some? {
      var written, texts := Written(Lines(config)), AddressTexts(config);
      NarrowedSome(Removed(written, "dns"), HostsOf(parse.value));
      FoldedRemoved(written, "dns", "address");
      NarrowAllMeaning(texts, HostsOf(parse.value));
      forall i | 0 <= i < |texts| ensures HostsOf(parse.value)(texts[i]).Some? <==> AllParse(texts[i], parse.value) {
        HostsMeaning(texts[i], parse.value);
      }
    }
  }

  lemma OthersTrans(a: seq<Section>, b: seq<Section>, c: seq<Section>)
    requires OthersSame(a, b) && OthersSame(b, c)
    ensures OthersSame(a, c)
  {}

  /** Without DNS and with narrowed addresses, other keys are as they were. */
  lemma KeptKeys(config: string, hooks: bool, parse: Option<Narrow>, key: string)
    requires Valid(config, hooks) && Kept(config, parse).Some?
    ensures var before, after := Sections(config), Kept(config, parse).value;
            var k := Fold(key);
            OthersSame(before, after) && CountInterface(after) == 1
            && (k == "dns" ==> Values(after, "interface", key) == [])
            && (k != "dns" && (k != "address" || parse == None) ==>
                  Values(after, "interface", key) == Values(before, "interface", key))
            && (k == "address" && parse.Some? ==>
                  NarrowAll(Texts(config, key), HostsOf(parse.value)) == Some(Values(after, "interface", key)))
  {
    hide Valid, Removed, Narrowed, Values, SectionsOf, Lines, NarrowAll, OthersSame, CountInterface, Written,
        CutAddresses, HostsOf, Fold;
    OneInterface(config, hooks);
    var s, written := Sections(config), Written(Lines(config));
    Edited(s, "dns", key);
    if parse.Some? {
      ValidFits(config, hooks);
      WrittenCut(Lines(config));
      CutOthers(written);
      OthersBack(written, s);
      Edited(written, "dns", key);
      ValuesCut(written, key);
      NarrowedOthers(Removed(written, "dns"), HostsOf(parse.value));
      ValuesNarrowed(Removed(written, "dns"), HostsOf(parse.value), key);
      OthersTrans(s, written, Removed(written, "dns"));
      OthersTrans(s, Removed(written, "dns"), Kept(config, parse).value);
    }
  }

  lemma OthersBack(a: seq<Section>, b: seq<Section>)
    requires OthersSame(a, b)
    ensures OthersSame(b, a)
  {}

  /** What an independent reader sees of a valid configuration rewritten, under any key: no DNS, one
      Table and one FwMark, no privileged port, the addresses as written narrowed, every other key of
      the interface's as it was, and the peers. A key that only folds to one of these goes with it. */
  lemma OutboundReads(config: string, hooks: bool, mark: nat, parse: Option<Narrow>, key: string)
    requires Valid(config, hooks) && (parse.Some? ==> Parses(parse.value)) && Outbound(config, mark, parse).Some?
    ensures var before, after := Sections(config), Sections(Outbound(config, mark, parse).value);
            var k, ports := Fold(key), Values(before, "interface", "listenport");
            OthersSame(before, after)
            && (k == "dns" ==> Values(after, "interface", key) == [])
            && (k == "table" ==> Values(after, "interface", key) == if key == "table" then ["off"] else [])
            && (k == "fwmark" ==> Values(after, "interface", key) == if key == "fwmark" then [Show(mark)] else [])
            && (k == "listenport" ==>
                  Values(after, "interface", key) == if AllUnprivileged(ports) then Values(before, "interface", key)
                                                     else [])
            && (k == "address" && parse.Some? ==>
                  NarrowAll(Texts(config, key), HostsOf(parse.value)) == Some(Values(after, "interface", key)))
            && (k !in {"dns", "table", "fwmark", "listenport"} && (k != "address" || parse == None) ==>
                  Values(after, "interface", key) == Values(before, "interface", key))
  {
    hide Valid, Parses, Kept, Removed, Appended, Outbound, Values, Sections, NarrowAll, OthersSame, CountInterface,
        HostsOf, Texts, Fold, AllUnprivileged;
    OutboundRead(config, hooks, mark, parse);
    var s, kept := Sections(config), Kept(config, parse).value;
    KeptKeys(config, hooks, parse, key);
    KeptKeys(config, hooks, parse, "listenport");
    FoldKeys();
    var drop := AllUnprivileged(Values(kept, "interface", "listenport"));
    var dropped := if drop then kept else Removed(kept, "listenport");
    SameSections(kept);
    Edited(kept, "listenport", key);
    var off := Appended(Removed(dropped, "table"), "table", "off");
    Replaced(dropped, "table", "off", key);
    Replaced(off, "fwmark", Show(mark), key);
    OthersTrans(s, kept, dropped);
    OthersTrans(s, dropped, off);
    OthersTrans(s, off, Appended(Removed(off, "fwmark"), "fwmark", Show(mark)));
  }

  lemma FoldKeys()
    ensures Fold("table") == "table" && Fold("fwmark") == "fwmark" && Fold("listenport") == "listenport"
      && Fold("address") == "address" && Fold("dns") == "dns"
  {
    assert |Fold("table")| == 5 && |Fold("fwmark")| == 6 && |Fold("listenport")| == 10 && |Fold("address")| == 7
        && |Fold("dns")| == 3;
  }

  /** The keys that the rewriting is about. */
  const REWRITTEN := {"dns", "table", "fwmark", "listenport", "address"}

  /** What other keys there are is left alone: none only folds to DNS, none to ListenPort if one is
      privileged, and addresses under such a key are narrowed already. */
  ghost predicate OthersPlain(config: string, parse: Option<Narrow>) {
    forall key :: key !in REWRITTEN ==> OtherPlain(config, parse, key)
  }

  predicate OtherPlain(config: string, parse: Option<Narrow>, key: string) {
    var values, texts := Values(Sections(config), "interface", key), Texts(config, key);
    (Fold(key) == "dns" ==> values == [])
    && (Fold(key) == "listenport" ==>
          values == [] || AllUnprivileged(Values(Sections(config), "interface", "listenport")))
    && (Fold(key) == "address" && parse.Some? ==>
          forall i :: 0 <= i < |texts| ==> Hosts(texts[i], parse.value) == Some(CutValue(texts[i])))
  }

  /** The rewriting leaves every other key as the reader saw it exactly when that is so. */
  lemma OthersKept(config: string, hooks: bool, mark: nat, parse: Option<Narrow>)
    requires Valid(config, hooks) && (parse.Some? ==> Parses(parse.value)) && Outbound(config, mark, parse).Some?
    ensures var before, after := Sections(config), Sections(Outbound(config, mark, parse).value);
            (forall key :: key !in REWRITTEN ==> Values(after, "interface", key) == Values(before, "interface", key))
            <==> OthersPlain(config, parse)
  {
    hide Valid, Parses, Outbound, Values, Sections, OtherPlain;
    var before, after := Sections(config), Sections(Outbound(config, mark, parse).value);
    forall key | key !in REWRITTEN
      ensures Values(after, "interface", key) == Values(before, "interface", key) <==> OtherPlain(config, parse, key)
    {
      OtherKept(config, hooks, mark, parse, key);
    }
  }

  lemma OtherKept(config: string, hooks: bool, mark: nat, parse: Option<Narrow>, key: string)
    requires Valid(config, hooks) && (parse.Some? ==> Parses(parse.value)) && Outbound(config, mark, parse).Some?
    requires key !in REWRITTEN
    ensures var before, after := Sections(config), Sections(Outbound(config, mark, parse).value);
            Values(after, "interface", key) == Values(before, "interface", key) <==> OtherPlain(config, parse, key)
  {
    hide Valid, Parses, Outbound, Values, SectionsOf, Lines, Written, NarrowAll, Hosts, CutValue, CutAddresses, Fold,
        AllUnprivileged, Lower;
    OutboundReads(config, hooks, mark, parse, key);
    FoldOnly(key);
    if Lower(key) != key { OnlyLower(config, key); }
    if Fold(key) == "address" && parse.Some? {
      ValidFits(config, hooks);
      WrittenCut(Lines(config));
      ValuesCut(Written(Lines(config)), key);
      NarrowAllMeaning(Texts(config, key), HostsOf(parse.value));
    }
  }

  /** A table or a mark has no letter that others fold to. */
  lemma FoldOnly(key: string)
    ensures Fold(key) in {"table", "fwmark"} ==> Lower(key) == Fold(key)
  {
    var k := Fold(key);
    if k in {"table", "fwmark"} {
      forall i | 0 <= i < |key| ensures LowerChar(key[i]) == FoldChar(key[i]) {
        assert k[i] == FoldChar(key[i]) && k[i] in {'t', 'a', 'b', 'l', 'e', 'f', 'w', 'm', 'r', 'k'};
      }
    }
  }

  // The keys a reader can see.

  ghost predicate AllKeys(sections: seq<Section>, p: string -> bool) {
    forall i, j :: 0 <= i < |sections| && 0 <= j < |sections[i].pairs| ==> p(sections[i].pairs[j].0)
  }

  lemma {:induction false} KeysFromLines(lines: seq<string>, p: string -> bool)
    requires forall i :: 0 <= i < |lines| && ReadLine(lines[i]).Pair? ==> p(ReadLine(lines[i]).key)
    ensures AllKeys(SectionsOf(lines), p)
    decreases |lines|
  {
    hide ReadLine;
    if lines != [] {
      var rest := lines[..|lines| - 1];
      assert forall i :: 0 <= i < |rest| ==> rest[i] == lines[i];
      KeysFromLines(rest, p);
    }
  }

  lemma {:induction false} NoValuesIn(pairs: seq<(string, string)>, key: string)
    requires forall j :: 0 <= j < |pairs| ==> pairs[j].0 != key
    ensures ValuesIn(pairs, key) == []
    decreases |pairs|
  {
    if pairs != [] { NoValuesIn(pairs[..|pairs| - 1], key); }
  }

  lemma {:induction false} NoValues(sections: seq<Section>, name: string, p: string -> bool, key: string)
    requires AllKeys(sections, p) && !p(key)
    ensures Values(sections, name, key) == []
    decreases |sections|
  {
    if sections != [] {
      NoValues(sections[..|sections| - 1], name, p, key);
      NoValuesIn(sections[|sections| - 1].pairs, key);
    }
  }

  lemma LowerKeys(line: string)
    ensures ReadLine(line).Pair? ==> Lower(ReadLine(line).key) == ReadLine(line).key
  {
    hide Lower, ReadLine, Trim, Head;
    if ReadLine(line).Pair? {
      PairHead(line);
      LowerTwice(Trim(Head(line, '=')));
    }
  }

  lemma LowerTwice(s: string)
    ensures Lower(Lower(s)) == Lower(s)
  {}

  /** The reader sees keys in lower case alone. */
  lemma OnlyLower(config: string, key: string)
    requires Lower(key) != key
    ensures Values(Sections(config), "interface", key) == []
  {
    hide Lower, ReadLine, Values, SectionsOf, AllKeys;
    var p := (k: string) => Lower(k) == k;
    forall i | 0 <= i < |Lines(config)| && ReadLine(Lines(config)[i]).Pair? ensures p(ReadLine(Lines(config)[i]).key) {
      LowerKeys(Lines(config)[i]);
    }
    KeysFromLines(Lines(config), p);
    NoValues(Sections(config), "interface", p, key);
  }

  /** Where the check refused hooks, no key the reader sees only folds to another. */
  lemma OnlyAscii(config: string, key: string)
    requires Valid(config, false) && Fold(key) != key
    ensures Values(Sections(config), "interface", key) == []
  {
    hide Lower, Fold, ReadLine, Values, SectionsOf, AllKeys, Lines, AsciiKey, GoodHeader, Unambiguous, InterfaceCount;
    var p := (k: string) => Fold(k) == k;
    forall i | 0 <= i < |Lines(config)| && ReadLine(Lines(config)[i]).Pair? ensures p(ReadLine(Lines(config)[i]).key) {
      FoldedKey(Lines(config)[i]);
    }
    KeysFromLines(Lines(config), p);
    NoValues(Sections(config), "interface", p, key);
  }

  lemma FoldedKey(line: string)
    requires AsciiKey(line) && ReadLine(line).Pair?
    ensures Fold(ReadLine(line).key) == ReadLine(line).key
  {
    hide Lower, Fold, Trim, Head, ReadLine;
    PairHead(line);
    PairKeyOf(line);
    AsciiPlain(line);
    FoldLower(KeyOf(line));
  }

  /** So the rewriting leaves every other key alone. */
  lemma AsciiOthersPlain(config: string, parse: Option<Narrow>)
    requires Valid(config, false)
    ensures OthersPlain(config, parse)
  {
    hide Valid, Values, SectionsOf, Lines, Written, Fold, CutAddresses, CutValue, Hosts;
    forall key | key !in REWRITTEN ensures OtherPlain(config, parse, key) {
      if Fold(key) != key {
        OnlyAscii(config, key);
        ValidFits(config, false);
        WrittenCut(Lines(config));
        ValuesCut(Written(Lines(config)), key);
      }
    }
  }

  lemma OneInterface(config: string, hooks: bool)
    requires Valid(config, hooks)
    ensures CountInterface(Sections(config)) == 1
  {
    hide Valid;
    ValidFits(config, hooks);
  }

  lemma SameSections(s: seq<Section>)
    ensures OthersSame(s, s)
  {}

  lemma Edited(s: seq<Section>, k: string, key: string)
    ensures OthersSame(s, Removed(s, k)) && CountInterface(Removed(s, k)) == CountInterface(s)
    ensures Values(Removed(s, k), "interface", key) == if Fold(key) == k then [] else Values(s, "interface", key)
  {
    hide Fold;
    RemovedOthers(s, k);
    ValuesRemoved(s, k, key);
  }

  lemma Replaced(s: seq<Section>, k: string, value: string, key: string)
    requires CountInterface(s) == 1 && Fold(k) == k
    ensures var after := Appended(Removed(s, k), k, value);
            OthersSame(s, after) && CountInterface(after) == 1
            && Values(after, "interface", key)
               == if key == k then [value] else if Fold(key) == k then [] else Values(s, "interface", key)
  {
    hide Removed, Appended, Values, OthersSame, CountInterface, Fold;
    Edited(s, k, key);
    AppendedOthers(Removed(s, k), k, value);
    ValuesAppended(Removed(s, k), k, value, key);
    OthersTrans(s, Removed(s, k), Appended(Removed(s, k), k, value));
  }

  // ---- Addresses with a semicolon, where the reader sees a comment ----

  /** The first part with a semicolon; |parts| when none has one. */
  function Semicolon(parts: seq<string>): (k: nat)
    ensures k <= |parts| && (k < |parts| ==> ';' in parts[k])
    ensures forall i :: 0 <= i < k ==> ';' !in parts[i]
  {
    if parts == [] || ';' in parts[0] then 0 else 1 + Semicolon(parts[1..])
  }

  /** Cut at the semicolon, the address it is in is the same host, and none is after it. */
  predicate CutSame(parts: seq<string>, parse: Narrow) {
    var k := Semicolon(parts);
    k < |parts| ==>
      CutValue(parts[k]) != [] && parse(CutValue(parts[k])) == parse(Trim(parts[k]))
      && forall i :: k < i < |parts| ==> Trim(parts[i]) == []
  }

  lemma FirstPast(a: string, b: string, c: char)
    ensures First(a + b, c) == if c in a then First(a, c) else |a| + First(b, c)
  {
    var k := if c in a then First(a, c) else |a| + First(b, c);
    var m := First(a + b, c);
    assert k < |a + b| ==> (a + b)[k] == c;
    assert forall i :: 0 <= i < k ==> (a + b)[i] != c;
    assert m < |a + b| ==> (a + b)[m] == c;
  }

  lemma SplitStep(s: string, c: char)
    ensures var k := First(s, c);
            Split(s, c) == (if k == |s| then [s] else [s[..k]] + Split(s[k + 1..], c)) && |Split(s, c)| >= 1
    ensures c in s <==> First(s, c) < |s|
  {
    hide First;
    assert First(s, c) == |s| ==> s[..First(s, c)] == s;
  }

  /** Texts put together are split as they were, but for the part where they meet. */
  lemma {:induction false} SplitThen(a: string, b: string, c: char)
    ensures var x, y := Split(a, c), Split(b, c);
            |x| >= 1 && |y| >= 1 && Split(a + b, c) == x[..|x| - 1] + [x[|x| - 1] + y[0]] + y[1..]
    decreases |a|
  {
    hide Split, First;
    SplitStep(b, c);
    SplitStep(a, c);
    if c in a {
      var k := First(a, c);
      FirstPast(a, b, c);
      SplitStep(a + b, c);
      SplitThen(a[k + 1..], b, c);
      assert (a + b)[..k] == a[..k] && (a + b)[k + 1..] == a[k + 1..] + b;
    } else {
      SplitOne(a, b, c);
    }
  }

  lemma SplitOne(a: string, b: string, c: char)
    requires c !in a
    ensures var y := Split(b, c);
            |y| >= 1 && Split(a + b, c) == [a + y[0]] + y[1..]
  {
    hide Split, First;
    FirstPast(a, b, c);
    SplitStep(b, c);
    SplitStep(a + b, c);
    var m := First(b, c);
    assert (a + b)[..|a| + m] == a + b[..m];
    if m < |b| {
      assert (a + b)[|a| + m + 1..] == b[m + 1..];
    } else {
      assert b[..m] == b;
    }
  }

  lemma {:induction false} SplitWithout(s: string, c: char, d: char)
    requires d !in s
    ensures forall i :: 0 <= i < |Split(s, c)| ==> d !in Split(s, c)[i]
    decreases |s|
  {
    var k := First(s, c);
    if k < |s| { SplitWithout(s[k + 1..], c, d); }
  }

  lemma {:induction false} ItemsThen(a: seq<string>, b: seq<string>)
    ensures Items(a + b) == Items(a) + Items(b)
    decreases |b|
  {
    hide Trim;
    if b == [] {
      assert a + b == a;
    } else {
      ItemsThen(a, b[..|b| - 1]);
      assert (a + b)[..|a + b| - 1] == a + b[..|b| - 1];
    }
  }

  lemma ItemsOne(part: string)
    ensures Items([part]) == if Trim(part) == [] then [] else [Trim(part)]
  {
    hide Trim;
    assert [part][..0] == [];
  }

  lemma {:induction false} ItemsNone(parts: seq<string>)
    ensures Items(parts) == [] <==> forall i :: 0 <= i < |parts| ==> Trim(parts[i]) == []
    decreases |parts|
  {
    hide Trim;
    if parts != [] { ItemsNone(parts[..|parts| - 1]); }
  }

  /** Spaces around a text are spaces around its parts. */
  lemma ItemsTrim(s: string)
    ensures Items(Split(Trim(s), ',')) == Items(Split(s, ','))
  {
    hide IsSpace, Trim, Split, Items;
    var lead, trail := TrimParts(s);
    ItemsLead(lead, Trim(s));
    ItemsTrail(lead + Trim(s), trail);
  }

  lemma CommaNoSpace()
    ensures !IsSpace(',') && !IsSpace(';')
  {}

  lemma SplitBlank(s: string)
    requires Blank(s)
    ensures Split(s, ',') == [s]
  {
    hide IsSpace;
    CommaNoSpace();
    BlankWithout(s, ',');
    assert First(s, ',') == |s|;
  }

  lemma ItemsLead(lead: string, s: string)
    requires Blank(lead)
    ensures Items(Split(lead + s, ',')) == Items(Split(s, ','))
  {
    hide IsSpace, Trim, Split, Items;
    SplitThen(lead, s, ',');
    SplitBlank(lead);
    var y := Split(s, ',');
    TrimMore(lead, y[0], []);
    assert lead + y[0] + [] == lead + y[0];
    ItemsOne(lead + y[0]);
    ItemsOne(y[0]);
    assert [lead + y[0]] + y[1..] == Split(lead + s, ',') && [y[0]] + y[1..] == y;
    ItemsThen([lead + y[0]], y[1..]);
    ItemsThen([y[0]], y[1..]);
  }

  lemma ItemsTrail(s: string, trail: string)
    requires Blank(trail)
    ensures Items(Split(s + trail, ',')) == Items(Split(s, ','))
  {
    hide IsSpace, Trim, Split, Items;
    SplitThen(s, trail, ',');
    SplitBlank(trail);
    var x := Split(s, ',');
    var n := |x| - 1;
    TrimMore([], x[n], trail);
    assert [] + x[n] + trail == x[n] + trail;
    ItemsOne(x[n] + trail);
    ItemsOne(x[n]);
    assert x[..n] + [x[n] + trail] == Split(s + trail, ',') && x[..n] + [x[n]] == x;
    ItemsThen(x[..n], [x[n] + trail]);
    ItemsThen(x[..n], [x[n]]);
  }

  /** A list tells its addresses. */
  lemma {:induction false} ListedApart(a: seq<string>, b: seq<string>)
    requires HostTexts(a) && HostTexts(b) && Listed(a) == Listed(b)
    ensures a == b
    decreases |a|
  {
    hide HostText, HostTexts, Listed, Front, Rest;
    ListedSome(a);
    ListedSome(b);
    if |a| > 1 && |b| > 1 {
      ListedFront(a);
      ListedFront(b);
      FrontTexts(a);
      FrontTexts(b);
      ListedApart(a[..|a| - 1], b[..|b| - 1]);
      assert ([' '] + a[|a| - 1])[1..] == a[|a| - 1] && ([' '] + b[|b| - 1])[1..] == b[|b| - 1];
      assert a == a[..|a| - 1] + [a[|a| - 1]] && b == b[..|b| - 1] + [b[|b| - 1]];
    }
  }

  /** How long a list is shows in whether it is empty and has a comma. */
  lemma ListedSome(hosts: seq<string>)
    requires HostTexts(hosts)
    ensures Listed(hosts) == [] <==> hosts == []
    ensures ',' in Listed(hosts) <==> |hosts| > 1
    ensures |hosts| == 1 ==> Listed(hosts) == hosts[0]
  {
    hide HostText, HostTexts, HostChar;
    ListedClean(hosts);
    if |hosts| > 1 { ListedFront(hosts); }
    if |hosts| == 1 { OneNoComma(hosts); }
  }

  lemma FrontTexts(hosts: seq<string>)
    requires HostTexts(hosts) && hosts != []
    ensures HostTexts(hosts[..|hosts| - 1])
  {}

  lemma OneNoComma(hosts: seq<string>)
    requires HostTexts(hosts) && |hosts| == 1
    ensures ',' !in Listed(hosts)
  {
    assert HostText(hosts[0]);
  }

  lemma ListedFront(hosts: seq<string>)
    requires HostTexts(hosts) && |hosts| > 1
    ensures ',' in Listed(hosts) && Front(Listed(hosts), ',') == Listed(hosts[..|hosts| - 1])
    ensures Rest(Listed(hosts), ',') == [' '] + hosts[|hosts| - 1]
  {
    var last := hosts[|hosts| - 1];
    assert HostText(last);
    FrontRest(Listed(hosts[..|hosts| - 1]), ',', [' '] + last);
  }

  /** A text and what the reader keeps of it narrow to the same exactly when the address with the
      first semicolon does, and no other follows it. */
  lemma CutHosts(text: string, parse: Narrow)
    requires Parses(parse) && Hosts(text, parse).Some?
    ensures Hosts(CutValue(text), parse) == Hosts(text, parse) <==> CutSame(Split(text, ','), parse)
  {
    hide IsSpace, Trim, Split, Items, Head, Tail, Listed, NarrowAll, Parses, CutSame, Semicolon;
    ItemsTrim(Head(text, ';'));
    if ';' in text {
      var h, y := Cut(text, ';');
      assert text == h + ([';'] + y);
      var parts, x, z := CutParts(h, y);
      CutItems(x[..|x| - 1], x[|x| - 1], z[0], z[1..], parse);
      ItemsThen(x[..|x| - 1], [x[|x| - 1]]);
      assert x == x[..|x| - 1] + [x[|x| - 1]];
    } else {
      HeadAlone(text, ';');
      SplitWithout(text, ',', ';');
      NoSemicolon(Split(text, ','), parse);
    }
  }

  lemma NoSemicolon(parts: seq<string>, parse: Narrow)
    requires forall i :: 0 <= i < |parts| ==> ';' !in parts[i]
    ensures CutSame(parts, parse)
  {}

  /** The parts of a text around its first semicolon. */
  lemma CutParts(h: string, y: string) returns (parts: seq<string>, x: seq<string>, z: seq<string>)
    requires ';' !in h
    ensures parts == Split(h + ([';'] + y), ',') && x == Split(h, ',') && |x| >= 1 && |z| >= 1
    ensures parts == x[..|x| - 1] + [x[|x| - 1] + z[0]] + z[1..]
    ensures z[0] != [] && z[0][0] == ';' && forall i :: 0 <= i < |x| ==> ';' !in x[i]
  {
    hide Split;
    x, z := Split(h, ','), Split([';'] + y, ',');
    SplitThen(h, [';'] + y, ',');
    SplitWithout(h, ',', ';');
    SplitThen([';'], y, ',');
    SplitSemicolon();
    parts := Split(h + ([';'] + y), ',');
  }

  lemma SplitSemicolon()
    ensures Split([';'], ',') == [[';']]
  {
    assert First([';'], ',') == 1;
  }

  /** Parts of which one has the first semicolon, narrowed with and without what it begins. */
  lemma CutItems(pre: seq<string>, a: string, z: string, post: seq<string>, parse: Narrow)
    requires Parses(parse) && ';' !in a && z != [] && z[0] == ';' && forall i :: 0 <= i < |pre| ==> ';' !in pre[i]
    requires NarrowAll(Items(pre + [a + z] + post), parse).Some?
    ensures var whole, cut := NarrowAll(Items(pre + [a + z] + post), parse), NarrowAll(Items(pre) + Items([a]), parse);
            (cut.Some? && Listed(cut.value) == Listed(whole.value)) <==> CutSame(pre + [a + z] + post, parse)
  {
    hide IsSpace, Trim, Items, Head, Tail, Listed, NarrowAll, Parses, Semicolon, HostTexts;
    var parts := pre + [a + z] + post;
    SemicolonAt(pre, a, z, post);
    PostParts(pre, a + z, post);
    ItemsNone(post);
    var before, after := WholeItems(pre, a + z, post, parse) by { SomeLeft(a, z); }
    ItemsOne(a);
    var whole, cut := NarrowAll(Items(parts), parse), NarrowAll(Items(pre) + Items([a]), parse);
    ParsedTexts(Items(parts), parse);
    if Trim(a) == [] {
      assert Items(pre) + [] == Items(pre);
    } else {
      NarrowAllOne(Items(pre), Trim(a), parse);
      if cut.Some? { SameLists(before, parse(Trim(a)).value, parse(Trim(a + z)).value, after); }
    }
    if cut.Some? {
      ParsedTexts(Items(pre) + Items([a]), parse);
      if Listed(cut.value) == Listed(whole.value) { ListedApart(cut.value, whole.value); }
    }
  }

  /** What parts around one that is not blank narrow to. */
  lemma WholeItems(pre: seq<string>, part: string, post: seq<string>, parse: Narrow)
      returns (before: seq<string>, after: seq<string>)
    requires Trim(part) != [] && NarrowAll(Items(pre + [part] + post), parse).Some?
    ensures NarrowAll(Items(pre), parse) == Some(before) && parse(Trim(part)).Some?
    ensures NarrowAll(Items(pre + [part] + post), parse) == Some(before + [parse(Trim(part)).value] + after)
    ensures |after| == |Items(post)|
  {
    hide Trim, Items, NarrowAll;
    ItemsThen(pre + [part], post);
    ItemsThen(pre, [part]);
    ItemsOne(part);
    NarrowAllThen(Items(pre) + [Trim(part)], Items(post), parse);
    NarrowAllOne(Items(pre), Trim(part), parse);
    NarrowAllMeaning(Items(post), parse);
    before, after := NarrowAll(Items(pre), parse).value, NarrowAll(Items(post), parse).value;
  }

  lemma SameLists(pre: seq<string>, a: string, b: string, post: seq<string>)
    ensures pre + [a] == pre + [b] + post <==> a == b && post == []
  {
    assert (pre + [a])[|pre|] == a && (pre + [b] + post)[|pre|] == b;
  }

  lemma SomeLeft(a: string, z: string)
    requires z != [] && z[0] == ';'
    ensures Trim(a + z) != []
  {
    hide IsSpace, Trim;
    CommaNoSpace();
    assert (a + z)[|a|] == ';';
    var lead, trail := TrimParts(a + z);
    BlankWithout(lead, ';');
    assert lead + [] + [] == lead;
  }

  lemma SemicolonAt(pre: seq<string>, a: string, z: string, post: seq<string>)
    requires ';' !in a && z != [] && z[0] == ';' && forall i :: 0 <= i < |pre| ==> ';' !in pre[i]
    ensures var parts := pre + [a + z] + post;
            Semicolon(parts) == |pre| && parts[|pre|] == a + z && CutValue(a + z) == Trim(a)
  {
    hide Trim, Head, Tail;
    var parts := pre + [a + z] + post;
    assert (a + z)[|a|] == ';' && parts[|pre|] == a + z;
    assert forall i :: 0 <= i < |pre| ==> parts[i] == pre[i];
    HeadTail(a, ';', z[1..]);
    assert a + z == a + [';'] + z[1..];
  }

  lemma PostParts(pre: seq<string>, part: string, post: seq<string>)
    ensures var parts := pre + [part] + post;
            (forall i :: |pre| < i < |parts| ==> Trim(parts[i]) == []) <==>
              (forall i :: 0 <= i < |post| ==> Trim(post[i]) == [])
  {
    hide Trim;
    var parts := pre + [part] + post;
    forall i | 0 <= i < |post| ensures post[i] == parts[|pre| + 1 + i] {}
    forall i | |pre| < i < |parts| ensures parts[i] == post[i - |pre| - 1] {}
  }

  /** The addresses that the reader saw before, narrowed, are those it sees after exactly when no
      semicolon cuts one short or hides one. */
  lemma AddressesAsRead(config: string, hooks: bool, mark: nat, parse: Narrow)
    requires Valid(config, hooks) && Parses(parse) && Outbound(config, mark, Some(parse)).Some?
    ensures var before, texts := Values(Sections(config), "interface", "address"), Texts(config, "address");
            var after := Values(Sections(Outbound(config, mark, Some(parse)).value), "interface", "address");
            NarrowAll(before, HostsOf(parse)) == Some(after)
            <==> forall i :: 0 <= i < |texts| ==> CutSame(Split(texts[i], ','), parse)
  {
    hide Valid, Parses, Outbound, Values, SectionsOf, NarrowAll, Written, CutSame, Hosts, CutValue, CutAddresses,
        Fold, Lines;
    OutboundReads(config, hooks, mark, Some(parse), "address");
    var texts := Texts(config, "address");
    FoldKeys();
    ValidFits(config, hooks);
    WrittenCut(Lines(config));
    ValuesCut(Written(Lines(config)), "address");
    var before := Values(Sections(config), "interface", "address");
    assert before == CutValues(texts);
    NarrowAllMeaning(texts, HostsOf(parse));
    NarrowAllMeaning(before, HostsOf(parse));
    forall i | 0 <= i < |texts|
      ensures Hosts(texts[i], parse).Some?
      ensures Hosts(before[i], parse) == Hosts(texts[i], parse) <==> CutSame(Split(texts[i], ','), parse)
    {
      assert HostsOf(parse)(texts[i]).Some?;
      CutHosts(texts[i], parse);
    }
    SameHosts(before, texts, HostsOf(parse));
  }

  /** Texts narrow to the same exactly one by one. */
  lemma SameHosts(a: seq<string>, b: seq<string>, narrow: Narrow)
    requires |a| == |b| && NarrowAll(b, narrow).Some?
    ensures NarrowAll(a, narrow) == NarrowAll(b, narrow) <==> forall i :: 0 <= i < |a| ==> narrow(a[i]) == narrow(b[i])
  {
    hide NarrowAll;
    NarrowAllMeaning(a, narrow);
    NarrowAllMeaning(b, narrow);
    if forall i :: 0 <= i < |a| ==> narrow(a[i]) == narrow(b[i]) {
      assert NarrowAll(a, narrow).value == NarrowAll(b, narrow).value;
    }
  }

  lemma ScopedParts()
    ensures Split("fe80::1%a;b, 10.0.0.2/24", ',') == ["fe80::1%a;b", " 10.0.0.2/24"]
    ensures Trim("fe80::1%a;b") == "fe80::1%a;b" && Trim(" 10.0.0.2/24") == "10.0.0.2/24"
  {
    ScopedSpaces();
    hide IsSpace, Trim, Split;
    TwoParts("fe80::1%a;b", " 10.0.0.2/24");
    assert "fe80::1%a;b, 10.0.0.2/24" == "fe80::1%a;b" + [','] + " 10.0.0.2/24";
    TrimTrimmedIs("fe80::1%a;b");
    TrimIs(" ", "10.0.0.2/24", []);
    assert " " + "10.0.0.2/24" + [] == " 10.0.0.2/24";
  }

  lemma ScopedValue()
    ensures CutValue("fe80::1%a;b, 10.0.0.2/24") == "fe80::1%a"
  {
    ScopedSpaces();
    hide IsSpace, Trim, Head, Tail;
    HeadTail("fe80::1%a", ';', "b, 10.0.0.2/24");
    assert "fe80::1%a;b, 10.0.0.2/24" == "fe80::1%a" + [';'] + "b, 10.0.0.2/24";
    TrimTrimmedIs("fe80::1%a");
  }

  lemma TrimTrimmedIs(s: string)
    requires Trimmed(s)
    ensures Trim(s) == s
  {
    hide IsSpace;
    TrimIs([], s, []);
    assert [] + s + [] == s;
  }

  lemma TwoParts(a: string, b: string)
    requires ',' !in a && ',' !in b
    ensures Split(a + [','] + b, ',') == [a, b]
  {
    hide Split, Join;
    assert Join([a, b], ',') == a + [','] + b by { JoinTwo(a, b); }
    SplitJoin([a, b], ',');
  }

  lemma JoinTwo(a: string, b: string)
    ensures Join([a, b], ',') == a + [','] + b
  {
    assert [a, b][1..] == [b];
  }

  lemma ScopedSpaces()
    ensures IsSpace(' ') && !IsSpace('f') && !IsSpace('b') && !IsSpace('a') && !IsSpace('1') && !IsSpace('4')
  {}

  /** A list of two. */
  lemma TwoHosts(a: string, b: string, x: string, y: string, parse: Narrow)
    requires Trim(a) != [] && Trim(b) != [] && parse(Trim(a)) == Some(x) && parse(Trim(b)) == Some(y)
    ensures NarrowAll(Items([a, b]), parse) == Some([x, y]) && Listed([x, y]) == x + [','] + ([' '] + y)
  {
    hide Trim, Items, NarrowAll;
    ItemsThen([a], [b]);
    ItemsOne(a);
    ItemsOne(b);
    NarrowNone(parse);
    NarrowAllOne([], Trim(a), parse);
    NarrowAllOne([Trim(a)], Trim(b), parse);
    assert [] + [Trim(a)] == [Trim(a)] && [a] + [b] == [a, b] && [Trim(a)] + [Trim(b)] == [Trim(a), Trim(b)];
    assert [] + [x] == [x] && [x] + [y] == [x, y];
    assert [x, y][..1] == [x] && Listed([x]) == x;
  }

  lemma ScopedHosts(parse: Narrow)
    requires parse("fe80::1%a;b") == Some("fe80::1/128") && parse("10.0.0.2/24") == Some("10.0.0.2/32")
    ensures Hosts("fe80::1%a;b, 10.0.0.2/24", parse) == Some("fe80::1/128, 10.0.0.2/32")
  {
    hide Trim, Split, Items, NarrowAll, Listed;
    ScopedParts();
    assert |"fe80::1%a;b"| == 11 && |"10.0.0.2/24"| == 11;
    TwoHosts("fe80::1%a;b", " 10.0.0.2/24", "fe80::1/128", "10.0.0.2/32", parse);
    assert "fe80::1/128, 10.0.0.2/32" == "fe80::1/128" + [','] + ([' '] + "10.0.0.2/32");
  }

  lemma ScopedCut(parse: Narrow)
    ensures !CutSame(Split("fe80::1%a;b, 10.0.0.2/24", ','), parse)
  {
    hide Trim, Split, CutValue;
    ScopedParts();
    var parts := Split("fe80::1%a;b, 10.0.0.2/24", ',');
    assert parts[0][9] == ';';
    assert Semicolon(parts) == 0 && Trim(parts[1]) != [];
  }

  // ---- Configurations of one key ----

  const HEADER := "[Interface]"

  /** An interface with one line. */
  function OneLine(line: string): string { Unlines([HEADER, line]) }

  predicate Printable(line: string) {
    forall i :: 0 <= i < |line| ==> !Ambiguous(line[i]) && line[i] != '\r' && line[i] != '\n'
  }

  /** A line with a pair, that passes the check. */
  predicate PairLine(line: string, hooks: bool) {
    Printable(line) && !IsHeader(line) && GoodHeader(line) && ReadLine(line).Pair? && (hooks || AsciiKey(line))
  }

  lemma OneLineText(line: string)
    ensures OneLine(line) == HEADER + (['\n'] + line + ['\n'])
  {
    assert [HEADER, line][1..] == [line] && [line][1..] == [];
    assert Unlines([line]) == line + ['\n'] + [];
  }

  lemma OneLineUnambiguous(line: string)
    requires Printable(line) && Printable(HEADER)
    ensures Unambiguous(OneLine(line))
  {
    NewLinePlain();
    hide Ambiguous;
    OneLineText(line);
    var config := OneLine(line);
    forall i | 0 <= i < |config| ensures !Ambiguous(config[i]) && config[i] != '\r' {
      if i < |HEADER| {
        assert config[i] == HEADER[i];
      } else if |HEADER| < i <= |HEADER| + |line| {
        assert config[i] == line[i - |HEADER| - 1];
      }
    }
  }

  lemma NewLinePlain()
    ensures !Ambiguous('\n')
  {}

  lemma HeaderPlain()
    ensures Printable(HEADER) && IsInterface(HEADER) && IsHeader(HEADER) && GoodHeader(HEADER) && StartsHeader(HEADER)
  {
    HeaderWord();
    hide IsSpace, Trim, Ambiguous, Lower;
    TrimTrimmedIs(HEADER);
    HeaderAsChecked(HEADER);
  }

  lemma HeaderWord()
    ensures Printable(HEADER) && Trimmed(HEADER) && Lower(HEADER) == "[interface]"
  {
    assert |Lower(HEADER)| == |"[interface]"|;
  }

  lemma HeaderAscii()
    ensures AsciiKey(HEADER)
  {
    HeaderKey();
    LowerAscii();
    SameLength(HEADER);
    hide Lower, KeyOf;
  }

  lemma HeaderKey()
    ensures KeyOf(HEADER) == HEADER
  {
    HeaderWord();
    hide IsSpace, Trim, Lower, Head;
    assert '#' !in HEADER && '=' !in HEADER;
    HeadAlone(HEADER, '#');
    HeadAlone(HEADER, '=');
    TrimTrimmedIs(HEADER);
  }

  lemma LowerAscii()
    ensures forall i :: 0 <= i < |Lower(HEADER)| ==> Lower(HEADER)[i] < '\U{80}'
  {}

  /** Its lines, one after the other. */
  lemma OneLineLines(line: string, hooks: bool)
    requires PairLine(line, hooks)
    ensures Valid(OneLine(line), hooks) && Lines(OneLine(line)) == [HEADER, line]
  {
    hide Trim, Head, IsHeader, GoodHeader, StartsHeader, IsInterface, ReadLine, AsciiKey, Unambiguous, Lines, Unlines,
        Ambiguous;
    HeaderPlain();
    HeaderAscii();
    LinesUnlines([HEADER, line]);
    OneLineUnambiguous(line);
    HeaderAsChecked(line);
    CountTwo(HEADER, line);
    assert forall i :: 0 <= i < 2 ==> GoodHeader([HEADER, line][i]) && (hooks || AsciiKey([HEADER, line][i]));
  }

  lemma CountTwo(a: string, b: string)
    ensures InterfaceCount([a, b])
         == (if StartsHeader(a) && IsInterface(a) then 1 else 0) + if StartsHeader(b) && IsInterface(b) then 1 else 0
  {
    hide StartsHeader, IsInterface;
    assert [a, b][..1] == [a] && [a][..0] == [];
    assert InterfaceCount([a]) == if StartsHeader(a) && IsInterface(a) then 1 else 0;
  }

  /** What the reader makes of them. */
  lemma OneLineRead(line: string, hooks: bool)
    requires PairLine(line, hooks)
    ensures Sections(OneLine(line)) == [Section("interface", [(ReadLine(line).key, ReadLine(line).value)])]
    ensures Values(Sections(OneLine(line)), "interface", ReadLine(line).key) == [ReadLine(line).value]
  {
    hide PairLine, IsHeader, GoodHeader, IsInterface, ReadLine, Lines, SectionsOf, WrittenLine, OneLine;
    OneLineLines(line, hooks);
    HeaderPlain();
    HeaderRead(HEADER);
    PairOnly(line, hooks);
    TwoLines(line);
    OneValue(ReadLine(line).key, ReadLine(line).value);
  }

  lemma TwoLines(line: string)
    requires ReadLine(HEADER) == Header("interface") && IsHeader(HEADER) && IsInterface(HEADER)
    requires !IsHeader(line) && ReadLine(line).Pair?
    ensures SectionsOf([HEADER, line]) == [Section("interface", [(ReadLine(line).key, ReadLine(line).value)])]
    ensures var item := WrittenLine(line, true);
            item.Pair? && Written([HEADER, line]) == [Section("interface", [(item.key, item.value)])]
  {
    hide IsHeader, IsInterface, ReadLine, SectionsOf, Written, InInterface, RemoveLines, AllGood, CleanLines,
        CleanLine, WrittenLine, Add;
    WrittenKey(line, true);
    AddTwo("interface", ReadLine(line).key, ReadLine(line).value);
    AddTwo("interface", WrittenLine(line, true).key, WrittenLine(line, true).value);
    OneMore([], HEADER, "");
    OneMore([HEADER], line, "");
    NoSections();
    WrittenHeader();
    assert [] + [HEADER] == [HEADER] && [HEADER] + [line] == [HEADER, line];
  }

  lemma AddTwo(name: string, key: string, value: string)
    ensures Add(Add([], Header(name)), Pair(key, value)) == [Section(name, [(key, value)])]
  {
    assert [] + [(key, value)] == [(key, value)];
  }

  lemma WrittenHeader()
    requires ReadLine(HEADER) == Header("interface")
    ensures WrittenLine(HEADER, true) == Header("interface")
  {
    hide ReadLine;
  }

  lemma NoSections()
    ensures SectionsOf([]) == [] && Written([]) == []
  {}

  lemma PairOnly(line: string, hooks: bool)
    requires PairLine(line, hooks)
    ensures ReadLine(line).Pair? && !IsHeader(line)
  {}

  lemma OneValue(key: string, value: string)
    ensures Values([Section("interface", [(key, value)])], "interface", key) == [value]
    ensures Fold(key) == "address" ==> Folded([Section("interface", [(key, value)])], "address") == [value]
  {
    hide Fold;
    var pairs := [(key, value)];
    assert pairs[..0] == [] && [Section("interface", pairs)][..0] == [];
    assert ValuesIn(pairs, key) == [] + [value];
    assert Fold(key) == "address" ==> FoldedIn(pairs, "address") == [] + [value];
    assert [] + [value] == [value];
  }

  /** An address of theirs, as it is written. */
  lemma OneLineAddress(line: string, hooks: bool)
    requires PairLine(line, hooks) && ReadLine(line).key == "address" && '=' in line
    ensures var texts := [Head(line[ValueAt(line)..], '#')];
            AddressTexts(OneLine(line)) == texts && Texts(OneLine(line), "address") == texts
  {
    hide PairLine, IsHeader, GoodHeader, IsInterface, ReadLine, Lines, Written, ValueAt, Head, OneLine, Fold, Values,
        Folded;
    OneLineLines(line, hooks);
    HeaderPlain();
    HeaderRead(HEADER);
    PairOnly(line, hooks);
    TwoLines(line);
    FoldKeys();
    OneValue("address", Head(line[ValueAt(line)..], '#'));
  }

  /** The text that is narrowed on a line. */
  lemma TextOf(h: string, t: string)
    requires '=' !in h
    ensures var line := h + ['='] + t;
            '=' in line && line[ValueAt(line)..] == t[Lead(t)..]
  {
    hide Lead;
    var line := h + ['='] + t;
    assert line[|h|] == '=';
    FirstIs(h, '=', t);
    assert line[|h| + 1..] == t;
  }

  /** A line of a key's, spaces around the = and no comment. */
  lemma KeyedLine(key: string, value: string, hooks: bool)
    requires GoodKey(Fold(key)) && Trimmed(value) && value != [] && '#' !in value && Printable(key) && Printable(value)
    requires hooks || Lower(key) == Fold(key)
    ensures PairLine(KeyLine(key, value), hooks) && '=' in KeyLine(key, value)
    ensures ReadLine(KeyLine(key, value)) == Pair(Lower(key), CutValue(value))
    ensures Head(KeyLine(key, value)[ValueAt(KeyLine(key, value))..], '#') == value
  {
    SpacePlain();
    hide IsSpace, Trim, Head, Tail, Lower, Fold, GoodKey, ReadLine, IsHeader, GoodHeader, Ambiguous, Lead, ValueAt,
        CutValue, AsciiKey;
    var line, h, t := KeyLine(key, value), key + " ", " " + value;
    assert line == h + ['='] + t;
    KeyWord(key, Fold(key));
    KeySome(Fold(key));
    TrimIs([], key, " ");
    assert [] + key + " " == h;
    ReadPair(h, t);
    PairNoHeader(h, t);
    KeyedText(h, value);
    if !hooks { KeyedAscii(h, key, t); }
  }

  /** The text after the = and a space is the value. */
  lemma KeyedText(h: string, value: string)
    requires '=' !in h && Trimmed(value) && value != [] && '#' !in value
    ensures var t := " " + value;
            '=' in h + ['='] + t && Head((h + ['='] + t)[ValueAt(h + ['='] + t)..], '#') == value
            && Trim(Head(Head(t, '#'), ';')) == CutValue(value)
  {
    hide IsSpace, Trim, Head, Lead, ValueAt, CutValue;
    var t := " " + value;
    SpacePlain();
    TextOf(h, t);
    SpaceLead(value);
    ReadAfterSpaces(t);
    HeadAlone(value, '#');
  }

  lemma KeyedAscii(h: string, key: string, t: string)
    requires '=' !in h && Trim(h) == key && GoodKey(Fold(key)) && Lower(key) == Fold(key)
    ensures AsciiKey(h + ['='] + t)
  {
    hide IsSpace, Trim, Head, Tail, Lower, Fold, KeyOf;
    HeadTail(h, '=', t);
    KeyBefore(h + ['='] + t, key);
    SameLength(key);
    assert KeyOf(h + ['='] + t) == key;
    forall i | 0 <= i < |Lower(key)| ensures Lower(key)[i] < '\U{80}' {
      assert PlainChar(Fold(key)[i]);
    }
  }

  lemma SpacePlain()
    ensures IsSpace(' ') && !Ambiguous(' ') && !Ambiguous('=')
  {}

  lemma SpaceLead(value: string)
    requires Trimmed(value) && value != [] && IsSpace(' ')
    ensures Lead(" " + value) == 1 && (" " + value)[1..] == value
  {
    hide IsSpace;
    LeadIs(" ", value);
  }

  /** An address with a semicolon in its scope, and one after it. */
  const SCOPED := "fe80::1%a;b, 10.0.0.2/24"

  /** The reader sees the scope cut short and no second address, and both after the rewriting: what
      it saw, narrowed, is not what it sees. */
  lemma ScopedConfig(parse: Narrow, mark: nat)
    requires Parses(parse) && parse("fe80::1%a;b") == parse("fe80::1%a") == Some("fe80::1/128")
    requires parse("10.0.0.2/24") == Some("10.0.0.2/32")
    ensures var config := OneLine(KeyLine("Address", SCOPED));
            Valid(config, false) && Outbound(config, mark, Some(parse)).Some?
            && var before, after := Sections(config), Sections(Outbound(config, mark, Some(parse)).value);
               Values(before, "interface", "address") == ["fe80::1%a"]
               && Values(after, "interface", "address") == ["fe80::1/128, 10.0.0.2/32"]
               && NarrowAll(Values(before, "interface", "address"), HostsOf(parse))
                  != Some(Values(after, "interface", "address"))
  {
    hide Valid, Parses, Outbound, ReadLine, ValueAt, Head, Sections, Values, Texts, AddressTexts, Hosts, CutSame,
        OneLine, Split, PairLine, CutValue, KeyLine, NarrowAll, Trim, AllParse, Fold;
    var line := KeyLine("Address", SCOPED);
    var config := OneLine(line);
    ScopedLine();
    OneLineLines(line, false);
    OneLineRead(line, false);
    OneLineAddress(line, false);
    ScopedHosts(parse);
    HostsMeaning(SCOPED, parse);
    OutboundSucceeds(config, false, mark, Some(parse));
    FoldKeys();
    OutboundReads(config, false, mark, Some(parse), "address");
    AddressesAsRead(config, false, mark, parse);
    ScopedCut(parse);
    assert Texts(config, "address")[0] == SCOPED && !CutSame(Split(Texts(config, "address")[0], ','), parse);
    OneHost(SCOPED, parse);
  }

  lemma OneHost(text: string, parse: Narrow)
    requires Hosts(text, parse).Some?
    ensures NarrowAll([text], HostsOf(parse)) == Some([Hosts(text, parse).value])
  {
    hide Hosts;
    NarrowNone(HostsOf(parse));
    NarrowAllOne([], text, HostsOf(parse));
    assert HostsOf(parse)(text) == Hosts(text, parse);
    assert [] + [text] == [text] && [] + [Hosts(text, parse).value] == [Hosts(text, parse).value];
  }

  lemma ScopedLine()
    ensures var line := KeyLine("Address", SCOPED);
            PairLine(line, false) && ReadLine(line) == Pair("address", "fe80::1%a") && '=' in line
            && Head(line[ValueAt(line)..], '#') == SCOPED
  {
    AddressKey();
    AddressFolds();
    ScopedPrintable();
    ScopedValue();
    hide IsSpace, Lower, Fold, GoodKey, ReadLine, PairLine, Ambiguous, ValueAt, Head, CutValue;
    KeyedLine("Address", SCOPED, false);
  }

  lemma AddressFolds()
    ensures Fold("Address") == "address"
  {
    assert |Fold("Address")| == 7;
  }

  lemma ScopedPrintable()
    ensures Printable("Address") && Printable(SCOPED) && Trimmed(SCOPED) && '#' !in SCOPED
  {
    ScopedSpaces();
    hide IsSpace;
    assert |SCOPED| == 24 && SCOPED[23] == '4';
  }

  /** A DNS line with a long s passes the check where hooks are allowed: the reader takes it for
      another key, and the rewriting removes it. */
  lemma LongSConfig(mark: nat)
    ensures var config := OneLine(KeyLine("DN\U{17f}", "x"));
            Valid(config, true) && Outbound(config, mark, None).Some?
            && var before, after := Sections(config), Sections(Outbound(config, mark, None).value);
               Values(before, "interface", "dn\U{17f}") == ["x"] && Values(after, "interface", "dn\U{17f}") == []
               && !OthersPlain(config, None)
  {
    hide Valid, Outbound, ReadLine, Sections, Values, Texts, OneLine, PairLine, KeyLine, Fold;
    var line := KeyLine("DN\U{17f}", "x");
    var config := OneLine(line);
    LongSLine();
    OneLineLines(line, true);
    OneLineRead(line, true);
    OutboundSucceeds(config, true, mark, None);
    OutboundReads(config, true, mark, None, "dn\U{17f}");
    LongSOther(config);
  }

  lemma LongSOther(config: string)
    requires Fold("dn\U{17f}") == "dns" && Values(Sections(config), "interface", "dn\U{17f}") != []
    ensures !OthersPlain(config, None)
  {
    hide Values, Sections, Texts, Fold;
    assert "dn\U{17f}"[2] == '\U{17f}' && |"listenport"| == 10;
    assert !OtherPlain(config, None, "dn\U{17f}");
  }

  lemma LongSLine()
    ensures var line := KeyLine("DN\U{17f}", "x");
            PairLine(line, true) && ReadLine(line) == Pair("dn\U{17f}", "x") && Fold("dn\U{17f}") == "dns"
  {
    LongSKey();
    LongSValue();
    hide IsSpace, Lower, Fold, GoodKey, ReadLine, PairLine, Ambiguous, ValueAt, Head, CutValue;
    KeyedLine("DN\U{17f}", "x", true);
  }

  lemma LongSKey()
    ensures Fold("DN\U{17f}") == "dns" && Lower("DN\U{17f}") == "dn\U{17f}" && Fold("dn\U{17f}") == "dns"
    ensures GoodKey("dns") && Printable("DN\U{17f}")
  {
    PlainWord("dns");
    assert |Fold("DN\U{17f}")| == 3 && |Lower("DN\U{17f}")| == 3;
    FoldLower("DN\U{17f}");
  }

  lemma LongSValue()
    ensures Printable("x") && Trimmed("x") && CutValue("x") == "x" && '#' !in "x"
  {
    HeadAlone("x", ';');
    TrimTrimmedIs("x");
  }

  // ---- The edits as they are made ----

  method RemoveInterfaceKey(config: string, key: string) returns (after: string)
    ensures after == RemoveKey(config, key)
  {
    hide Lines, Matches, IsHeader, IsInterface;
    var all := Lines(config);
    var lines: seq<string> := [];
    var inside := false;
    assert all[..0] == [];
    for i := 0 to |all|
      invariant inside == InInterface(all[..i]) && lines == RemoveLines(all[..i], key)
    {
      var line := all[i];
      assert all[..i + 1][..i] == all[..i];
      if IsHeader(line) {
        inside := IsInterface(line);
      }
      if !(inside && Matches(line, key)) {
        lines := lines + [line];
      }
    }
    assert all[..|all|] == all;
    after := Unlines(lines);
  }

  /** An Address' text: its items parsed one by one. */
  method TextHosts(text: string, parse: Narrow) returns (after: Option<string>)
    ensures after == Hosts(text, parse)
  {
    hide Split, Trim;
    var parts := Split(text, ',');
    var hosts: seq<string> := [];
    assert parts[..0] == [];
    for i := 0 to |parts|
      invariant NarrowAll(Items(parts[..i]), parse) == Some(hosts)
    {
      var item := Trim(parts[i]);
      assert parts[..i + 1][..i] == parts[..i];
      if item == [] {
        assert Items(parts[..i + 1]) == Items(parts[..i]);
        continue;
      }
      NarrowAllOne(Items(parts[..i]), item, parse);
      var host := parse(item);
      if host == None {
        ItemsMeaning(parts, parse);
        return None;
      }
      hosts := hosts + [host.value];
    }
    assert parts[..|parts|] == parts;
    after := Some(Listed(hosts));
  }

  method HostAddresses(config: string, parse: Narrow) returns (after: Option<string>)
    ensures var lines := NarrowLines(Lines(config), HostsOf(parse));
            after == if lines == None then None else Some(Unlines(lines.value))
  {
    hide Lines, Matches, IsHeader, IsInterface, Hosts, Unlines, ValueAt, Head;
    var narrow := HostsOf(parse);
    var all := Lines(config);
    var lines: seq<string> := [];
    var inside := false;
    assert all[..0] == [];
    for i := 0 to |all|
      invariant inside == InInterface(all[..i]) && NarrowLines(all[..i], narrow) == Some(lines)
    {
      var line := all[i];
      assert all[..i + 1][..i] == all[..i];
      if IsHeader(line) {
        inside := IsInterface(line);
      }
      if inside && Matches(line, "Address") && '=' in line {
        var hosts := TextHosts(Head(line[ValueAt(line)..], '#'), parse);
        if hosts == None {
          NarrowFails(all, narrow, i + 1);
          return None;
        }
        line := line[..ValueAt(line)] + hosts.value;
      }
      lines := lines + [line];
    }
    assert all[..|all|] == all;
    after := Some(Unlines(lines));
  }

  lemma {:induction false} NarrowFails(lines: seq<string>, narrow: Narrow, n: nat)
    requires n <= |lines| && NarrowLines(lines[..n], narrow) == None
    ensures NarrowLines(lines, narrow) == None
    decreases |lines|
  {
    hide InInterface, Matches, NarrowLine;
    if n < |lines| {
      assert lines[..|lines| - 1][..n] == lines[..n];
      NarrowFails(lines[..|lines| - 1], narrow, n);
    } else {
      assert lines[..n] == lines;
    }
  }

  method SetInterfaceValue(config: string, key: string, value: string) returns (after: Option<string>)
    ensures var lines := SetLines(Lines(config), key, value);
            after == if lines == None then None else Some(Unlines(lines.value))
  {
    hide Lines, Unlines, Matches, IsHeader, IsInterface, KeyLine;
    var lines := Lines(config);
    var start := 0;
    while start < |lines| && !IsInterface(lines[start])
      invariant start <= |lines| && InterfaceAt(lines, 0) == InterfaceAt(lines, start)
    {
      start := start + 1;
    }
    if start == |lines| {
      return None;
    }
    var end := start + 1;
    while end < |lines| && !IsHeader(lines[end])
      invariant start < end <= |lines| && NextHeader(lines, start + 1) == NextHeader(lines, end)
    {
      end := end + 1;
    }
    for i := start + 1 to end
      invariant MatchAt(lines, key, start + 1, end) == MatchAt(lines, key, i, end)
    {
      if Matches(lines[i], key) {
        return Some(Unlines(lines[i := KeyLine(key, value)]));
      }
    }
    after := Some(Unlines(lines[..end] + [KeyLine(key, value)] + lines[end..]));
  }

  method ReplaceInterfaceKey(config: string, key: string, value: string) returns (after: Option<string>)
    ensures after == ReplaceKey(config, key, value)
  {
    hide RemoveKey, SetLines;
    var removed := RemoveInterfaceKey(config, key);
    after := SetInterfaceValue(removed, key, value);
  }

  method DropPrivilegedListenPort(config: string) returns (after: string)
    ensures after == DropPrivileged(config)
  {
    hide RemoveKey, Unprivileged, Lines, SectionsOf, Values;
    var sections := ConfSections(config);
    var values := Values(sections, "interface", "listenport");
    for i := 0 to |values|
      invariant forall j :: 0 <= j < i ==> Unprivileged(values[j])
    {
      if !Unprivileged(values[i]) {
        after := RemoveInterfaceKey(config, "ListenPort");
        return;
      }
    }
    after := config;
  }

  method AsOutbound(config: string, mark: nat, parse: Option<Narrow>) returns (after: Option<string>)
    ensures after == Outbound(config, mark, parse)
  {
    hide RemoveKey, ReplaceKey, DropPrivileged, NarrowLines, Lines, Unlines, HostsOf;
    var text := RemoveInterfaceKey(config, "DNS");
    if parse.Some? {
      var narrowed := HostAddresses(text, parse.value);
      if narrowed == None {
        return None;
      }
      text := narrowed.value;
    }
    text := DropPrivilegedListenPort(text);
    var off := ReplaceInterfaceKey(text, "Table", "off");
    if off == None {
      return None;
    }
    after := ReplaceInterfaceKey(off.value, "FwMark", Show(mark));
  }
}
