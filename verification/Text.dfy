/** Cutting text at separators, as Python's partition, rpartition and split do. */
module Text {

  /** Where a character first is; |s| when it is nowhere. */
  function First(s: string, c: char): (k: nat)
    ensures k <= |s| && forall i :: 0 <= i < k ==> s[i] != c
    ensures k < |s| ==> s[k] == c
  {
    if s == [] then 0 else if s[0] == c then 0
    else
      1 + First(s[1..], c)
  }

  /** Where a character last is; |s| when it is nowhere. */
  function Last(s: string, c: char): (k: nat)
    ensures k <= |s|
    ensures k < |s| ==> s[k] == c && c !in s[k + 1..]
    ensures k == |s| ==> c !in s
  {
    if s == [] then 0
    else
      var n := |s| - 1;
      if s[n] == c then n
      else
        var k := Last(s[..n], c);
        assert s == s[..n] + [s[n]];
        assert k < n ==> s[k + 1..] == s[..n][k + 1..] + [s[n]];
        if k == n then |s| else k
  }

  /** partition: what is before the first c, and what is after; all of it and nothing when there
      is none. */
  function Head(s: string, c: char): string { s[..First(s, c)] }

  function Tail(s: string, c: char): string {
    var k := First(s, c);
    if k == |s| then [] else s[k + 1..]
  }

  /** rpartition: nothing and all of it when there is no c. */
  function Front(s: string, c: char): string {
    var k := Last(s, c);
    if k == |s| then [] else s[..k]
  }

  function Rest(s: string, c: char): string {
    var k := Last(s, c);
    if k == |s| then s else s[k + 1..]
  }

  lemma HeadTail(a: string, c: char, b: string)
    requires c !in a
    ensures Head(a + [c] + b, c) == a && Tail(a + [c] + b, c) == b
  {
    FirstIs(a, c, b);
    var s := a + [c] + b;
    assert s[..|a|] == a && s[|a| + 1..] == b;
  }

  lemma {:induction false} FirstIs(a: string, c: char, b: string)
    requires c !in a
    ensures First(a + [c] + b, c) == |a|
    decreases |a|
  {
    if a != [] {
      FirstIs(a[1..], c, b);
      assert (a + [c] + b)[1..] == a[1..] + [c] + b;
    }
  }

  lemma HeadAlone(a: string, c: char)
    requires c !in a
    ensures Head(a, c) == a && Tail(a, c) == []
  {
    assert First(a, c) == |a|;
    assert a[..|a|] == a;
  }

  lemma FrontRest(a: string, c: char, b: string)
    requires c !in b
    ensures Front(a + [c] + b, c) == a && Rest(a + [c] + b, c) == b
  {
    LastIs(a, c, b);
    var s := a + [c] + b;
    assert s[..|a|] == a && s[|a| + 1..] == b;
  }

  lemma {:induction false} LastIs(a: string, c: char, b: string)
    requires c !in b
    ensures Last(a + [c] + b, c) == |a|
    decreases |b|
  {
    if b != [] {
      var m := |b| - 1;
      LastIs(a, c, b[..m]);
      assert (a + [c] + b)[..|a| + 1 + m] == a + [c] + b[..m];
    }
  }

  function Split(s: string, c: char): seq<string>
    decreases |s|
  {
    var k := First(s, c);
    if k == |s| then [s] else [s[..k]] + Split(s[k + 1..], c)
  }

  function Join(parts: seq<string>, c: char): string {
    if parts == [] then [] else if |parts| == 1 then parts[0] else parts[0] + [c] + Join(parts[1..], c)
  }

  /** Parts without the separator come apart as they were joined. */
  lemma {:induction false} SplitJoin(parts: seq<string>, c: char)
    requires parts != [] && forall i :: 0 <= i < |parts| ==> c !in parts[i]
    ensures Split(Join(parts, c), c) == parts
    decreases |parts|
  {
    var s := Join(parts, c);
    if |parts| == 1 {
      HeadAlone(parts[0], c);
    } else {
      var rest := Join(parts[1..], c);
      HeadTail(parts[0], c, rest);
      SplitJoin(parts[1..], c);
      FirstIs(parts[0], c, rest);
      assert s == parts[0] + [c] + rest;
    }
  }

  // ---- White space ----

  /** What str.strip() takes away. */
  predicate IsSpace(c: char) {
    '\t' <= c <= '\r' || '\U{1c}' <= c <= ' ' || c == '\U{85}' || c == '\U{a0}' || c == '\U{1680}'
    || '\U{2000}' <= c <= '\U{200a}' || '\U{2028}' <= c <= '\U{2029}' || c == '\U{202f}' || c == '\U{205f}'
    || c == '\U{3000}'
  }

  /** White space by its codes: controls and separators of ASCII, next line, and the spaces and
      separators of Unicode. */
  lemma SpaceMeaning(c: char)
    ensures IsSpace(c) <==>
      var n := c as int;
      n in {9, 10, 11, 12, 13, 28, 29, 30, 31, 32, 133, 160, 5760, 8232, 8233, 8239, 8287, 12288} || 8192 <= n < 8203
  {}

  predicate Blank(s: string) {
    forall i :: 0 <= i < |s| ==> IsSpace(s[i])
  }

  /** How many spaces a text begins with. */
  function Lead(s: string): (n: nat)
    ensures n <= |s| && forall i :: 0 <= i < n ==> IsSpace(s[i])
    ensures n < |s| ==> !IsSpace(s[n])
  {
    if s == [] || !IsSpace(s[0]) then 0 else 1 + Lead(s[1..])
  }

  lemma LeadBlank(s: string)
    ensures Blank(s[..Lead(s)])
  {}

  function Trim(s: string): string
    decreases |s|
  {
    if s == [] then s
    else if IsSpace(s[0]) then Trim(s[1..])
    else if IsSpace(s[|s| - 1]) then Trim(s[..|s| - 1])
    else s
  }

  /** Neither empty at an end nor a space: as Trim leaves it. */
  predicate Trimmed(s: string) {
    s != [] ==> !IsSpace(s[0]) && !IsSpace(s[|s| - 1])
  }

  /** Between spaces, Trim finds the core. */
  lemma {:induction false} TrimIs(lead: string, core: string, trail: string)
    requires Blank(lead) && Trimmed(core) && Blank(trail) && (core == [] ==> trail == [])
    ensures Trim(lead + core + trail) == core
    decreases |lead| + |trail|
  {
    hide IsSpace;
    var s := lead + core + trail;
    if lead != [] {
      TrimIs(lead[1..], core, trail);
      assert s[1..] == lead[1..] + core + trail;
    } else if trail != [] {
      TrimIs(lead, core, trail[..|trail| - 1]);
      assert s[..|s| - 1] == lead + core + trail[..|trail| - 1];
      assert s[0] == core[0] && s[|s| - 1] == trail[|trail| - 1];
    } else {
      assert s == core;
    }
  }

  lemma {:induction false} TrimSome(s: string)
    requires s != [] && !IsSpace(s[0])
    ensures Trim(s) != [] && Trim(s)[0] == s[0]
    decreases |s|
  {
    hide IsSpace;
    if IsSpace(s[|s| - 1]) { TrimSome(s[..|s| - 1]); }
  }

  lemma TrimStep(s: string)
    ensures s == [] ==> Trim(s) == []
    ensures s != [] && IsSpace(s[0]) ==> Trim(s) == Trim(s[1..])
    ensures s != [] && !IsSpace(s[0]) ==> Trim(s) == if IsSpace(s[|s| - 1]) then Trim(s[..|s| - 1]) else s
  {
    hide IsSpace;
  }

  /** What Trim takes away is spaces. */
  lemma {:induction false} TrimParts(s: string) returns (lead: string, trail: string)
    ensures s == lead + Trim(s) + trail && Blank(lead) && Blank(trail) && Trimmed(Trim(s))
      && (Trim(s) == [] ==> trail == [])
    decreases |s|
  {
    hide IsSpace, Trim;
    TrimStep(s);
    lead, trail := [], [];
    if s != [] {
      if IsSpace(s[0]) {
        var more, end := TrimParts(s[1..]);
        trail := end;
        lead := [s[0]] + more;
        assert s == [s[0]] + s[1..] == lead + Trim(s) + trail;
      } else if IsSpace(s[|s| - 1]) {
        var start, more := TrimParts(s[..|s| - 1]);
        lead := start;
        TrimSome(s);
        trail := more + [s[|s| - 1]];
        assert s == s[..|s| - 1] + [s[|s| - 1]] == lead + Trim(s) + trail;
      }
    }
  }
}
