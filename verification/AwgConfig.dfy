/** A WireGuard configuration as amneziawg_config.py reads it: its lines, the section reader, and
    what is checked before anything is rewritten. */
module AwgConfig {
  import opened Text

  // ---- Lines ----

  /** A carriage return before a line's end belongs to that end. */
  function Chomp(line: string): string {
    if line != [] && line[|line| - 1] == '\r' then line[..|line| - 1] else line
  }

  /** splitlines(), of text whose lines end at \n or \r\n alone. */
  function Lines(config: string): seq<string>
    decreases |config|
  {
    var k := First(config, '\n');
    if config == [] then []
    else if k == |config| then [config]
    else [Chomp(config[..k])] + Lines(config[k + 1..])
  }

  function Unlines(lines: seq<string>): string {
    if lines == [] then [] else lines[0] + ['\n'] + Unlines(lines[1..])
  }

  /** Characters that end no line for awg-quick but would here, or that it drops. */
  predicate Ambiguous(c: char) {
    c <= '\U{08}' || c == '\U{0b}' || c == '\U{0c}' || '\U{0e}' <= c <= '\U{1f}'
    || c == '\U{7f}' || c == '\U{85}' || c == '\U{2028}' || c == '\U{2029}'
  }

  predicate Unambiguous(config: string) {
    forall i :: 0 <= i < |config| ==> !Ambiguous(config[i]) && ReturnEnds(config, i)
  }

  predicate ReturnEnds(s: string, i: nat)
    requires i < |s|
  {
    s[i] == '\r' ==> i + 1 < |s| && s[i + 1] == '\n'
  }

  predicate CleanLine(line: string) { '\n' !in line && '\r' !in line }

  predicate CleanLines(lines: seq<string>) {
    forall i :: 0 <= i < |lines| ==> CleanLine(lines[i])
  }

  lemma {:induction false} LinesClean(config: string)
    requires Unambiguous(config)
    ensures CleanLines(Lines(config))
    decreases |config|
  {
    hide Ambiguous;
    var k := First(config, '\n');
    if config == [] {
    } else if k == |config| {
      ReturnsFollowed(config, config);
    } else {
      var line, rest := config[..k], config[k + 1..];
      forall i | 0 <= i < |rest| ensures !Ambiguous(rest[i]) && ReturnEnds(rest, i) {
        assert rest[i] == config[k + 1 + i] && ReturnEnds(config, k + 1 + i);
        assert i + 1 < |rest| ==> rest[i + 1] == config[k + 1 + i + 1];
      }
      LinesClean(rest);
      FirstLineClean(config, k);
    }
  }

  lemma ReturnsFollowed(config: string, line: string)
    requires Unambiguous(config) && line == config && '\n' !in config
    ensures CleanLine(line)
  {
    hide Ambiguous;
    forall i | 0 <= i < |config| ensures config[i] != '\r' {
      assert ReturnEnds(config, i) && (i + 1 < |config| ==> config[i + 1] in config);
    }
  }

  lemma FirstLineClean(config: string, k: nat)
    requires Unambiguous(config) && k == First(config, '\n') < |config|
    ensures CleanLine(Chomp(config[..k]))
  {
    hide Ambiguous;
    var line := config[..k];
    forall i | 0 <= i < |Chomp(line)| ensures Chomp(line)[i] != '\n' && Chomp(line)[i] != '\r' {
      assert Chomp(line)[i] == config[i] && config[i] in line && ReturnEnds(config, i);
      assert i + 1 < k ==> config[i + 1] == line[i + 1] && config[i + 1] in line;
      assert i + 1 == k ==> config[i] == line[|line| - 1];
    }
  }

  /** Lines written and read again are the same lines. */
  lemma {:induction false} LinesUnlines(lines: seq<string>)
    requires CleanLines(lines)
    ensures Lines(Unlines(lines)) == lines
    decreases |lines|
  {
    if lines != [] {
      var rest := Unlines(lines[1..]);
      LinesUnlines(lines[1..]);
      FirstIs(lines[0], '\n', rest);
      var config := Unlines(lines);
      assert config[..|lines[0]|] == lines[0] && config[|lines[0]| + 1..] == rest;
      assert Chomp(lines[0]) == lines[0];
    }
  }

  // ---- One line ----

  function LowerChar(c: char): char {
    if 'A' <= c <= 'Z' then (c as int + 32) as char else if c == '\U{212a}' then 'k' else c
  }

  /** lower(), for what may fold to a key's or a header's characters. */
  function Lower(s: string): string {
    seq(|s|, i requires 0 <= i < |s| => LowerChar(s[i]))
  }

  /** As re.IGNORECASE folds to ASCII: the long s, and the i without a dot or with one as a capital, too. */
  function FoldChar(c: char): char {
    if c == '\U{17f}' then 's' else if c == '\U{130}' || c == '\U{131}' then 'i' else LowerChar(c)
  }

  function Fold(s: string): string {
    seq(|s|, i requires 0 <= i < |s| => FoldChar(s[i]))
  }

  datatype Item = Header(name: string) | Pair(key: string, value: string) | Nothing

  /** A line without its comment. */
  function Bare(line: string): string { Trim(Head(Head(line, '#'), ';')) }

  /** What the reader makes of a line. */
  function ReadLine(line: string): Item {
    var s := Bare(line);
    if |s| >= 2 && s[0] == '[' && s[|s| - 1] == ']' then Header(Lower(Trim(s[1..|s| - 1])))
    else if '=' in s then Pair(Lower(Trim(Head(s, '='))), Trim(Tail(s, '=')))
    else Nothing
  }

  /** What the rewriters take for a header. */
  predicate IsHeader(line: string) {
    Trim(line) != [] && Trim(line)[0] == '['
  }

  predicate IsInterface(line: string) { Lower(Trim(line)) == "[interface]" }

  predicate IsPeer(line: string) { Lower(Trim(line)) == "[peer]" }

  /** ^\s*key\s*= , whatever the case. */
  predicate Matches(line: string, key: string) {
    var rest := line[Lead(line)..];
    |key| <= |rest| && Fold(rest[..|key|]) == Fold(key)
    && var rest := rest[|key|..];
       Lead(rest) < |rest| && rest[Lead(rest)] == '='
  }

  // ---- Sections ----

  datatype Section = Section(name: string, pairs: seq<(string, string)>)

  /** One more line: a header opens a section, a pair goes into the last. */
  function Add(sections: seq<Section>, item: Item): seq<Section> {
    match item
    case Header(name) => sections + [Section(name, [])]
    case Pair(key, value) =>
      if sections == [] then []
      else
        var n := |sections| - 1;
        sections[n := sections[n].(pairs := sections[n].pairs + [(key, value)])]
    case Nothing => sections
  }

  function SectionsOf(lines: seq<string>): seq<Section> {
    if lines == [] then [] else Add(SectionsOf(lines[..|lines| - 1]), ReadLine(lines[|lines| - 1]))
  }

  method ConfSections(config: string) returns (sections: seq<Section>)
    ensures sections == SectionsOf(Lines(config))
  {
    hide ReadLine, Add, Lines;
    sections := [];
    var lines := Lines(config);
    assert lines[..0] == [];
    for i := 0 to |lines|
      invariant sections == SectionsOf(lines[..i])
    {
      assert lines[..i + 1][..i] == lines[..i];
      sections := Add(sections, ReadLine(lines[i]));
    }
    assert lines[..|lines|] == lines;
  }

  function ValuesIn(pairs: seq<(string, string)>, key: string): seq<string> {
    if pairs == [] then []
    else ValuesIn(pairs[..|pairs| - 1], key) + if pairs[|pairs| - 1].0 == key then [pairs[|pairs| - 1].1] else []
  }

  /** Every value of a key in the sections of a name, in order. */
  function Values(sections: seq<Section>, name: string, key: string): seq<string> {
    if sections == [] then []
    else
      Values(sections[..|sections| - 1], name, key)
      + if sections[|sections| - 1].name == name then ValuesIn(sections[|sections| - 1].pairs, key) else []
  }

  // ---- What is checked first ----

  /** A line that starts as a header is one, alone on its line. */
  predicate GoodHeader(line: string) {
    var s := Trim(Head(Trim(line), '#'));
    s != [] && s[0] == '[' ==> IsInterface(line) || IsPeer(line)
  }

  predicate StartsHeader(line: string) {
    var s := Trim(Head(Trim(line), '#'));
    s != [] && s[0] == '['
  }

  function InterfaceCount(lines: seq<string>): nat {
    if lines == [] then 0
    else
      var last := lines[|lines| - 1];
      InterfaceCount(lines[..|lines| - 1]) + if StartsHeader(last) && IsInterface(last) then 1 else 0
  }

  /** What a line's key is to the check: all of it that is no comment, up to any =. */
  function KeyOf(line: string): string { Trim(Head(Head(line, '#'), '=')) }

  predicate AsciiKey(line: string) {
    forall i :: 0 <= i < |KeyOf(line)| ==> Lower(KeyOf(line))[i] < '\U{80}'
  }

  /** No letter in the key that folds to ASCII though lower() leaves it. */
  predicate PlainKey(line: string) { Fold(KeyOf(line)) == Lower(KeyOf(line)) }

  /** validate_config's checks of characters, headers and keys, the last unless hooks are
      allowed; a carriage return left at a line's end, as there, would be white space. */
  predicate Valid(config: string, hooks: bool) {
    Unambiguous(config)
    && (forall i :: 0 <= i < |Lines(config)| ==> GoodHeader(Lines(config)[i]))
    && InterfaceCount(Lines(config)) == 1
    && (!hooks ==> forall i :: 0 <= i < |Lines(config)| ==> AsciiKey(Lines(config)[i]))
  }

  lemma AsciiPlain(line: string)
    requires AsciiKey(line)
    ensures PlainKey(line)
  {
    hide KeyOf;
    var k := KeyOf(line);
    forall i | 0 <= i < |k| ensures FoldChar(k[i]) == LowerChar(k[i]) {
      assert Lower(k)[i] < '\U{80}';
    }
  }

  // ---- Rewriters and reader agree on lines ----

  /** A key's name: in lower case, and nothing in it that the reader cuts at. */
  predicate GoodKey(k: string) {
    k != [] && Lower(k) == k && k[0] != '['
    && forall i :: 0 <= i < |k| ==> PlainChar(k[i])
  }

  predicate PlainChar(c: char) { c < '\U{80}' && !IsSpace(c) && c != '=' && c != '#' && c != ';' }

  lemma LowerKeeps(s: string, c: char)
    requires c in {'=', '#', ';', '[', ']', ' '}
    ensures c in s <==> c in Lower(s)
    ensures forall i :: 0 <= i < |s| ==> (s[i] == c <==> Lower(s)[i] == c)
  {
    if c in s {
      var i :| 0 <= i < |s| && s[i] == c;
      assert Lower(s)[i] == c;
    }
    if c in Lower(s) {
      var i :| 0 <= i < |s| && Lower(s)[i] == c;
      assert s[i] == c;
    }
  }

  lemma LowerSpace(c: char)
    ensures IsSpace(LowerChar(c)) <==> IsSpace(c)
  {}

  /** Text before a separator that spaces cannot hide: cut before or after trimming. */
  lemma TrimHead(s: string, c: char)
    requires !IsSpace(c)
    ensures c in Trim(s) <==> c in s
    ensures c in s ==> Trim(Head(Trim(s), c)) == Trim(Head(s, c)) && Trim(Tail(Trim(s), c)) == Trim(Tail(s, c))
  {
    hide IsSpace, Trim, Head, Tail;
    var lead, trail := TrimParts(s);
    var core := Trim(s);
    BlankWithout(lead, c);
    BlankWithout(trail, c);
    if c in core {
      var k := First(core, c);
      assert c !in core[..k] by { NotBefore(core, c); }
      var a, b := core[..k], core[k + 1..];
      HeadTail(a, c, b);
      assert core == a + [c] + b;
      HeadTail(lead + a, c, b + trail);
      assert s == (lead + a) + [c] + (b + trail);
      TrimMore(lead, a, []);
      assert lead + a + [] == lead + a;
      TrimMore([], b, trail);
      assert [] + b + trail == b + trail;
    }
  }

  lemma NotBefore(s: string, c: char)
    requires c in s
    ensures First(s, c) < |s| && s[First(s, c)] == c && c !in s[..First(s, c)]
  {}

  lemma BlankWithout(s: string, c: char)
    requires Blank(s) && !IsSpace(c)
    ensures c !in s
  {
    hide IsSpace;
  }

  /** Spaces around change nothing. */
  lemma TrimMore(lead: string, s: string, trail: string)
    requires Blank(lead) && Blank(trail)
    ensures Trim(lead + s + trail) == Trim(s)
  {
    hide IsSpace, Trim;
    var l, t := TrimParts(s);
    var core := Trim(s);
    if core == [] {
      TrimIs(lead + s + trail, [], []);
      assert lead + s + trail == (lead + s + trail) + [] + [];
    } else {
      TrimIs(lead + l, core, t + trail);
      assert lead + s + trail == (lead + l) + core + (t + trail);
    }
  }

  lemma {:induction false} LeadIs(lead: string, rest: string)
    requires Blank(lead) && (rest == [] || !IsSpace(rest[0]))
    ensures Lead(lead + rest) == |lead|
    decreases |lead|
  {
    hide IsSpace;
    if lead == [] {
      assert lead + rest == rest;
    } else {
      LeadIs(lead[1..], rest);
      assert (lead + rest)[1..] == lead[1..] + rest;
    }
  }

  /** A word that is a key but for its case: trimmed, and nothing in it that anyone cuts at. */
  lemma KeyWord(word: string, k: string)
    requires GoodKey(k) && Fold(word) == k
    ensures |word| == |k| && Trimmed(word) && word[0] != '[' && '=' !in word && '#' !in word && ';' !in word
  {
    hide IsSpace;
    assert |Fold(word)| == |word|;
    forall i | 0 <= i < |word| ensures !IsSpace(word[i]) && word[i] != '=' && word[i] != '#' && word[i] != ';' {
      assert Fold(word)[i] == k[i] && PlainChar(k[i]);
      FoldSpace(word[i]);
    }
    assert Fold(word)[0] == k[0];
  }

  lemma FoldSpace(c: char)
    ensures IsSpace(FoldChar(c)) <==> IsSpace(c)
  {}

  /** What lower() makes a key folds to that key. */
  lemma LowerFolds(word: string, k: string)
    requires GoodKey(k) && Lower(word) == k
    ensures Fold(word) == k
  {
    hide IsSpace;
    assert |Lower(word)| == |word|;
    forall i | 0 <= i < |word| ensures FoldChar(word[i]) == k[i] {
      assert Lower(word)[i] == k[i] && PlainChar(k[i]);
    }
  }

  lemma MatchedHead(line: string, key: string)
    requires GoodKey(Lower(key)) && Matches(line, key)
    ensures '=' in line && Fold(Trim(Head(line, '='))) == Lower(key)
  {
    hide IsSpace, Trim, Head, Tail, Lower, Fold, GoodKey, Lead, Blank;
    SameLength(key);
    LowerFolds(key, Lower(key));
    var a := Lead(line);
    var rest := line[a..];
    var word, after := rest[..|key|], rest[|key|..];
    var b := Lead(after);
    LeadBlank(line);
    LeadBlank(after);
    KeyWord(word, Lower(key));
    EqualsNoSpace();
    BlankWithout(line[..a], '=');
    BlankWithout(after[..b], '=');
    assert line == (line[..a] + word + after[..b]) + ['='] + after[b + 1..];
    HeadTail(line[..a] + word + after[..b], '=', after[b + 1..]);
    KeySome(Lower(key));
    TrimIs(line[..a], word, after[..b]);
  }

  lemma KeySome(k: string)
    requires GoodKey(k)
    ensures k != []
  {}

  lemma HeadMatched(line: string, key: string)
    requires GoodKey(Lower(key)) && '=' in line && Fold(Trim(Head(line, '='))) == Lower(key)
    ensures Matches(line, key)
  {
    hide IsSpace, Trim, Head, Tail, Lower, Fold, GoodKey, Lead, Blank;
    SameLength(key);
    LowerFolds(key, Lower(key));
    var h, t := Cut(line, '=');
    var lead, trail := TrimParts(h);
    var word := Trim(h);
    KeyWord(word, Lower(key));
    KeySome(Lower(key));
    var after := trail + (['='] + t);
    assert line == lead + (word + after);
    EqualsNoSpace();
    LeadIs(lead, word + after);
    LeadIs(trail, ['='] + t);
    MatchesParts(line, key, lead, word, after);
    assert after[|trail|] == '=';
  }

  lemma MatchesParts(line: string, key: string, lead: string, word: string, after: string)
    requires line == lead + (word + after) && Lead(line) == |lead| && |word| == |key|
    ensures Matches(line, key) <==> Fold(word) == Fold(key) && Lead(after) < |after| && after[Lead(after)] == '='
  {
    hide Lead, Fold;
    assert line[|lead|..] == word + after;
    assert (word + after)[..|key|] == word && (word + after)[|key|..] == after;
  }

  /** The pattern matches exactly the lines with a word that folds to the key before their first =. */
  lemma MatchesMeaning(line: string, key: string)
    requires GoodKey(Lower(key))
    ensures Matches(line, key) <==> '=' in line && Fold(Trim(Head(line, '='))) == Lower(key)
  {
    hide Matches, Trim, Head, Lower, Fold, GoodKey;
    if Matches(line, key) { MatchedHead(line, key); }
    if '=' in line && Fold(Trim(Head(line, '='))) == Lower(key) { HeadMatched(line, key); }
  }

  lemma EqualsNoSpace()
    ensures !IsSpace('=') && !IsSpace('#') && !IsSpace(';') && !IsSpace('[')
  {}

  lemma SameLength(s: string)
    ensures |Lower(s)| == |s|
  {}

  /** A text at its first c. */
  lemma Cut(s: string, c: char) returns (h: string, t: string)
    requires c in s
    ensures h == Head(s, c) && t == Tail(s, c) && c !in h && s == h + [c] + t
  {
    NotBefore(s, c);
    h, t := Head(s, c), Tail(s, c);
    assert s == s[..First(s, c)] + [s[First(s, c)]] + s[First(s, c) + 1..];
  }

  /** What comes before one separator is not cut by another that comes later. */
  lemma HeadKeeps(h: string, c: char, t: string, d: char)
    requires c != d && c !in h && d !in h
    ensures c in Head(h + [c] + t, d) && Head(Head(h + [c] + t, d), c) == h
  {
    hide Head, Tail;
    var s := h + [c] + t;
    if d in t {
      var x, y := Cut(t, d);
      assert s == (h + [c] + x) + [d] + y;
      HeadTail(h + [c] + x, d, y);
      HeadTail(h, c, x);
    } else {
      HeadAlone(s, d);
      HeadTail(h, c, t);
    }
  }

  /** Cutting keeps what is before the first c, if it keeps that c. */
  lemma HeadOfHead(s: string, d: char, c: char)
    requires c in Head(s, d)
    ensures c in s && Head(Head(s, d), c) == Head(s, c)
  {
    hide Head, Tail;
    if d in s {
      var p, q := Cut(s, d);
      var h, t := Cut(p, c);
      assert s == h + [c] + (t + [d] + q);
      HeadTail(h, c, t + [d] + q);
    } else {
      HeadAlone(s, d);
    }
  }

  /** Of the lines that the rewriters take for a key, the reader finds the key on exactly those
      where it is plain, and on no other line. */
  lemma ReaderAgrees(line: string, key: string)
    requires GoodKey(Lower(key))
    ensures Matches(line, key) && PlainKey(line) <==> ReadLine(line).Pair? && ReadLine(line).key == Lower(key)
  {
    hide IsSpace, Trim, Head, Tail, Lower, Fold, Matches, KeyOf, GoodKey;
    MatchesMeaning(line, key);
    EqualsNoSpace();
    if ReadLine(line).Pair? && ReadLine(line).key == Lower(key) {
      PairHead(line);
      LowerFolds(Trim(Head(line, '=')), Lower(key));
      KeyBefore(line, key);
    }
    if Matches(line, key) && PlainKey(line) { KeyBefore(line, key); }
  }

  /** So the rewriters take a line for a key exactly when the reader's key folds to it. */
  lemma MatchesRead(line: string, key: string)
    requires GoodKey(Lower(key))
    ensures Matches(line, key) <==> ReadLine(line).Pair? && Fold(ReadLine(line).key) == Lower(key)
  {
    hide IsSpace, Trim, Head, Tail, Lower, Fold, Matches, ReadLine, GoodKey;
    MatchesMeaning(line, key);
    if '=' in line { FoldLower(Trim(Head(line, '='))); }
    if Matches(line, key) { KeyBefore(line, key); }
    if ReadLine(line).Pair? { PairHead(line); }
  }

  lemma FoldLower(s: string)
    ensures Fold(Lower(s)) == Fold(s)
  {
    forall i | 0 <= i < |s| ensures FoldChar(LowerChar(s[i])) == FoldChar(s[i]) {}
  }

  /** What the reader takes for a key is what is before the first =. */
  lemma PairHead(line: string)
    requires ReadLine(line).Pair?
    ensures '=' in line && ReadLine(line).key == Lower(Trim(Head(line, '=')))
  {
    hide IsSpace, Trim, Head, Tail, Lower;
    EqualsNoSpace();
    TrimHead(Head(Head(line, '#'), ';'), '=');
    HeadOfHead(Head(line, '#'), ';', '=');
    HeadOfHead(line, '#', '=');
  }

  /** That is the check's key too. */
  lemma PairKeyOf(line: string)
    requires ReadLine(line).Pair?
    ensures KeyOf(line) == Trim(Head(line, '='))
  {
    hide IsSpace, Trim, Head, Tail, Lower;
    EqualsNoSpace();
    TrimHead(Head(Head(line, '#'), ';'), '=');
    HeadOfHead(Head(line, '#'), ';', '=');
    HeadOfHead(line, '#', '=');
  }

  /** A word that folds to a key is read as the line's key, whatever comment follows. */
  lemma KeyBefore(line: string, key: string)
    requires GoodKey(Lower(key)) && '=' in line && Fold(Trim(Head(line, '='))) == Lower(key)
    ensures KeyOf(line) == Trim(Head(line, '='))
    ensures ReadLine(line).Pair? && ReadLine(line).key == Lower(Trim(Head(line, '=')))
  {
    hide IsSpace, Trim, Head, Tail, Lower, Fold, GoodKey;
    EqualsNoSpace();
    var cut := Head(Head(line, '#'), ';');
    TrimHead(cut, '=');
    var h, t := Cut(line, '=');
    KeyWord(Trim(h), Lower(key));
    KeySome(Lower(key));
    NoCuts(h, '#');
    NoCuts(h, ';');
    HeadKeeps(h, '=', t, '#');
    var h', t' := Cut(Head(line, '#'), '=');
    HeadKeeps(h, '=', t', ';');
    TrimTrimmed(cut);
    NotBracketed(Bare(line));
  }

  lemma NoCuts(h: string, c: char)
    requires c !in Trim(h) && !IsSpace(c)
    ensures c !in h
  {
    hide IsSpace, Trim;
    var lead, trail := TrimParts(h);
    BlankWithout(lead, c);
    BlankWithout(trail, c);
  }

  lemma TrimTrimmed(s: string)
    ensures Trimmed(Trim(s)) && (s == [] ==> Trim(s) == [])
  {
    hide IsSpace;
    var lead, trail := TrimParts(s);
  }

  /** A trimmed text begins as what is before its = does. */
  lemma NotBracketed(s: string)
    requires '=' in s && Trimmed(s) && Trim(Head(s, '=')) != [] && Trim(Head(s, '='))[0] != '['
    ensures s[0] != '['
  {
    hide IsSpace, Trim, Head, Tail;
    var h, t := Cut(s, '=');
    TrimTrimmed(h);
    if h == [] {
      assert false;
    }
    assert s[0] == h[0];
    TrimSome(h);
  }

  /** Cutting and trimming a trimmed text keeps its first character, if it keeps any. */
  lemma FirstKept(s: string, c: char)
    requires Trimmed(s) && s != [] && s[0] != c && !IsSpace(c)
    ensures Trim(Head(s, c)) != [] && Trim(Head(s, c))[0] == s[0]
  {
    hide IsSpace, Trim;
    TrimSome(Head(s, c));
  }

  /** A text that starts as a header, cut and trimmed, starts as one. */
  lemma HeaderStart(s: string, c: char)
    requires Trimmed(s) && !IsSpace(c) && c != '['
    ensures (Trim(Head(s, c)) != [] && Trim(Head(s, c))[0] == '[') <==> (s != [] && s[0] == '[')
  {
    hide IsSpace, Trim;
    if s == [] || s[0] == c {
      TrimTrimmed(Head(s, c));
    } else {
      FirstKept(s, c);
    }
  }

  lemma HeaderAsChecked(line: string)
    ensures IsHeader(line) <==> StartsHeader(line)
  {
    hide IsSpace, Trim;
    TrimTrimmed(line);
    EqualsNoSpace();
    HeaderStart(Trim(line), '#');
  }

  /** What is trimmed before the cut may as well be trimmed after. */
  lemma TrimThenCut(s: string, c: char)
    requires !IsSpace(c)
    ensures Trim(Head(Trim(s), c)) == Trim(Head(s, c))
  {
    hide IsSpace, Trim, Head;
    TrimHead(s, c);
    if c !in s {
      HeadAlone(s, c);
      HeadAlone(Trim(s), c);
      TrimTwice(s);
    }
  }

  lemma TrimTwice(s: string)
    ensures Trim(Trim(s)) == Trim(s)
  {
    hide IsSpace, Trim;
    TrimTrimmed(s);
    TrimIs([], Trim(s), []);
    assert [] + Trim(s) + [] == Trim(s);
  }

  /** A line the rewriters take for no header is none to the reader. */
  lemma NoHeader(line: string)
    requires !IsHeader(line)
    ensures !ReadLine(line).Header?
  {
    hide IsSpace, Trim, Head, Tail;
    EqualsNoSpace();
    TrimTrimmed(line);
    TrimTrimmed(Head(line, '#'));
    TrimThenCut(line, '#');
    HeaderStart(Trim(line), '#');
    TrimThenCut(Head(line, '#'), ';');
    HeaderStart(Trim(Head(line, '#')), ';');
  }

  function HeaderName(line: string): string { if IsInterface(line) then "interface" else "peer" }

  /** A header that passed the check is that section's to the reader. */
  lemma HeaderRead(line: string)
    requires IsHeader(line) && GoodHeader(line)
    ensures ReadLine(line) == Header(HeaderName(line))
  {
    hide IsSpace, Trim, Head, Tail;
    HeaderAsChecked(line);
    var s := Trim(line);
    var name := HeaderName(line);
    assert Lower(s) == ['['] + name + [']'];
    HeaderNamePlain(line);
    LowerKeeps(s, '#');
    LowerKeeps(s, ';');
    EqualsNoSpace();
    NoCuts(line, '#');
    HeadAlone(line, '#');
    NoCuts(line, ';');
    HeadAlone(line, ';');
    InnerName(s, name);
  }

  lemma InnerName(s: string, name: string)
    requires Lower(s) == ['['] + name + [']'] && forall i :: 0 <= i < |name| ==> !IsSpace(name[i])
    ensures |s| >= 2 && s[0] == '[' && s[|s| - 1] == ']' && Lower(Trim(s[1..|s| - 1])) == name
  {
    hide Trim, IsSpace, LowerChar;
    var n := |s|;
    assert |Lower(s)| == n == |name| + 2;
    LowerKeeps(s, '[');
    LowerKeeps(s, ']');
    assert Lower(s)[0] == '[' && Lower(s)[n - 1] == ']';
    var inner := s[1..n - 1];
    assert Lower(inner) == Lower(s)[1..n - 1] == name;
    forall i | 0 <= i < |inner| ensures !IsSpace(inner[i]) {
      LowerSpace(inner[i]);
      assert Lower(inner)[i] == name[i];
    }
    TrimIs([], inner, []);
    assert [] + inner + [] == inner;
  }

  lemma HeaderNamePlain(line: string)
    ensures forall i :: 0 <= i < |HeaderName(line)| ==> !IsSpace(HeaderName(line)[i])
    ensures '#' !in ['['] + HeaderName(line) + [']'] && ';' !in ['['] + HeaderName(line) + [']']
  {
    hide IsInterface;
  }

  lemma HeadThrough(p: string, t: string, d: char)
    requires d !in p
    ensures Head(p + t, d) == p + Head(t, d)
  {
    hide Head, Tail;
    if d in t {
      var x, y := Cut(t, d);
      HeadTail(p + x, d, y);
      assert p + t == (p + x) + [d] + y;
    } else {
      HeadAlone(t, d);
      HeadAlone(p + t, d);
    }
  }

  /** What the reader makes of a key, an = and the rest of a line. */
  lemma ReadPair(h: string, t: string)
    requires '=' !in h && GoodKey(Fold(Trim(h)))
    ensures ReadLine(h + ['='] + t) == Pair(Lower(Trim(h)), Trim(Head(Head(t, '#'), ';')))
  {
    hide IsSpace, Trim, Head, Tail, Lower, Fold, GoodKey;
    var line := h + ['='] + t;
    KeyWord(Trim(h), Fold(Trim(h)));
    KeySome(Fold(Trim(h)));
    EqualsNoSpace();
    NoCuts(h, '#');
    NoCuts(h, ';');
    HeadThrough(h + ['='], t, '#');
    HeadThrough(h + ['='], Head(t, '#'), ';');
    var x := Head(Head(t, '#'), ';');
    var cut := h + ['='] + x;
    assert Head(Head(line, '#'), ';') == cut;
    HeadTail(h, '=', x);
    TrimHead(cut, '=');
    TrimTrimmed(cut);
    NotBracketed(Trim(cut));
  }

  /** A line with a key is no header. */
  lemma PairNoHeader(h: string, t: string)
    requires '=' !in h && GoodKey(Fold(Trim(h)))
    ensures !IsHeader(h + ['='] + t) && GoodHeader(h + ['='] + t)
  {
    hide IsSpace, Trim, Head, Tail, Fold, GoodKey;
    var line := h + ['='] + t;
    KeyWord(Trim(h), Fold(Trim(h)));
    KeySome(Fold(Trim(h)));
    EqualsNoSpace();
    HeadTail(h, '=', t);
    TrimHead(line, '=');
    TrimTrimmed(line);
    NotBracketed(Trim(line));
    HeaderAsChecked(line);
  }
}
