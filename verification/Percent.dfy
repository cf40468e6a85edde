/** Percent-encoding (section 2.1 of RFC 3986) and query strings, as urllib writes and reads them.
    Text is its UTF-8 bytes, one character each. */
module Percent {
  import opened Text

  predicate Octets(s: string) {
    forall i :: 0 <= i < |s| ==> s[i] as int < 256
  }

  const HEX := "0123456789ABCDEF"

  /** The characters that stand for themselves. */
  predicate Unreserved(c: char) {
    'A' <= c <= 'Z' || 'a' <= c <= 'z' || '0' <= c <= '9' || c == '_' || c == '.' || c == '-' || c == '~'
  }

  function QuoteChar(c: char): string
    requires c as int < 256
  {
    if Unreserved(c) then [c] else ['%', HEX[c as int / 16], HEX[c as int % 16]]
  }

  function Quote(s: string): string
    requires Octets(s)
  {
    if s == [] then [] else QuoteChar(s[0]) + Quote(s[1..])
  }

  predicate IsHex(c: char) {
    '0' <= c <= '9' || 'A' <= c <= 'F' || 'a' <= c <= 'f'
  }

  function HexValue(c: char): nat
    requires IsHex(c)
  {
    if c <= '9' then c as int - '0' as int
    else if c <= 'F' then c as int - 'A' as int + 10
    else c as int - 'a' as int + 10
  }

  /** A % and two hex digits. */
  predicate EscapeAt(s: string, i: nat) {
    i + 2 < |s| && s[i] == '%' && IsHex(s[i + 1]) && IsHex(s[i + 2])
  }

  /** A % that is no escape stands for itself. */
  function Unquote(s: string): string
    decreases |s|
  {
    if s == [] then []
    else if EscapeAt(s, 0) then [(16 * HexValue(s[1]) + HexValue(s[2])) as char] + Unquote(s[3..])
    else [s[0]] + Unquote(s[1..])
  }

  /** Letters, digits, and the hyphen, full stop, low line and tilde, by their codes: what section 2.3
      of RFC 3986 leaves unquoted. */
  lemma UnreservedMeaning(c: char)
    ensures var n := c as int;
            Unreserved(c) <==>
            65 <= n < 91 || 97 <= n < 123 || 48 <= n < 58 || n == 45 || n == 46 || n == 95 || n == 126
  {}

  /** An escape is read whether its digits are of upper or of lower case. */
  lemma UnquoteEscape(a: nat, b: nat, rest: string)
    requires a < 16 && b < 16
    ensures forall h, l :: h in {"0123456789ABCDEF"[a], "0123456789abcdef"[a]}
                           && l in {"0123456789ABCDEF"[b], "0123456789abcdef"[b]} ==>
              Unquote(['%', h, l] + rest) == [(16 * a + b) as char] + Unquote(rest)
  {
    forall h, l | h in {"0123456789ABCDEF"[a], "0123456789abcdef"[a]}
                  && l in {"0123456789ABCDEF"[b], "0123456789abcdef"[b]}
      ensures Unquote(['%', h, l] + rest) == [(16 * a + b) as char] + Unquote(rest)
    {
      HexCase(a, h);
      HexCase(b, l);
      var s := ['%', h, l] + rest;
      assert s[3..] == rest && EscapeAt(s, 0);
    }
  }

  lemma HexCase(d: nat, c: char)
    requires d < 16 && c in {"0123456789ABCDEF"[d], "0123456789abcdef"[d]}
    ensures IsHex(c) && HexValue(c) == d
  {}

  lemma HexDigits(d: nat)
    requires d < 16
    ensures IsHex(HEX[d]) && HexValue(HEX[d]) == d
  {}

  lemma UnquoteOne(c: char, rest: string)
    requires c as int < 256
    ensures Unquote(QuoteChar(c) + rest) == [c] + Unquote(rest)
  {
    var s := QuoteChar(c) + rest;
    if Unreserved(c) {
      assert s[1..] == rest;
    } else {
      HexDigits(c as int / 16);
      HexDigits(c as int % 16);
      assert EscapeAt(s, 0);
      assert s[3..] == rest;
    }
  }

  /** Unquoting undoes quoting, whatever the text. */
  lemma {:induction false} UnquoteQuote(s: string)
    requires Octets(s)
    ensures Unquote(Quote(s)) == s
  {
    hide QuoteChar;
    if s != [] {
      UnquoteOne(s[0], Quote(s[1..]));
      UnquoteQuote(s[1..]);
    }
  }

  /** What quoted text consists of. */
  predicate Coded(s: string) {
    forall i :: 0 <= i < |s| ==> Unreserved(s[i]) || s[i] == '%'
  }

  lemma HexUnreserved(d: nat)
    requires d < 16
    ensures Unreserved(HEX[d])
  {}

  lemma {:induction false} QuoteCoded(s: string)
    requires Octets(s)
    ensures Coded(Quote(s)) && (s != [] ==> Quote(s) != [])
  {
    if s != [] {
      QuoteCoded(s[1..]);
      HexUnreserved(s[0] as int / 16);
      HexUnreserved(s[0] as int % 16);
    }
  }

  /** Coded text has none of the characters that cut a URL. */
  lemma CodedPlain(s: string, c: char)
    requires Coded(s) && !Unreserved(c) && c != '%'
    ensures c !in s
  {}

  /** Text without a valid escape. */
  ghost predicate NoEscape(s: string) {
    forall i :: 0 <= i < |s| ==> !EscapeAt(s, i)
  }

  lemma {:induction false} UnquoteShorter(s: string)
    ensures |Unquote(s)| <= |s|
    decreases |s|
  {
    if s != [] {
      UnquoteShorter(s[1..]);
      if EscapeAt(s, 0) { UnquoteShorter(s[3..]); }
    }
  }

  /** Unquoting leaves text alone exactly when it has no escape. */
  lemma {:induction false} UnquoteFixed(s: string)
    ensures Unquote(s) == s <==> NoEscape(s)
    decreases |s|
  {
    if s != [] {
      if EscapeAt(s, 0) {
        UnquoteShorter(s[3..]);
      } else {
        UnquoteFixed(s[1..]);
        assert forall i :: 0 <= i < |s[1..]| ==> (EscapeAt(s[1..], i) <==> EscapeAt(s, i + 1));
        assert NoEscape(s) <==> NoEscape(s[1..]) by {
          if NoEscape(s[1..]) {
            forall i | 0 <= i < |s| ensures !EscapeAt(s, i) {
              if i > 0 { assert !EscapeAt(s[1..], i - 1); }
            }
          }
        }
        assert s == [s[0]] + s[1..];
      }
    }
  }

  // ---- Query strings ----

  datatype Param = Param(key: string, value: string)

  predicate OctetParams(params: seq<Param>) {
    forall i :: 0 <= i < |params| ==> Octets(params[i].key) && Octets(params[i].value)
  }

  function EncodeParam(p: Param): string
    requires Octets(p.key) && Octets(p.value)
  {
    Quote(p.key) + ['='] + Quote(p.value)
  }

  function EncodeParams(params: seq<Param>): seq<string>
    requires OctetParams(params)
  {
    seq(|params|, i requires 0 <= i < |params| => EncodeParam(params[i]))
  }

  function UrlEncode(params: seq<Param>): string
    requires OctetParams(params)
  {
    Join(EncodeParams(params), '&')
  }

  /** In a query a + is a space. */
  function Spaced(s: string): string {
    seq(|s|, i requires 0 <= i < |s| => if s[i] == '+' then ' ' else s[i])
  }

  function ParseParam(item: string): Param {
    Param(Unquote(Spaced(Head(item, '='))), Unquote(Spaced(Tail(item, '='))))
  }

  function ParseItems(items: seq<string>): seq<Param> {
    if items == [] then []
    else (if items[0] == [] then [] else [ParseParam(items[0])]) + ParseItems(items[1..])
  }

  function ParseQuery(query: string): seq<Param> { ParseItems(Split(query, '&')) }

  /** The last of a name counts; one that is blank, or not there, is absent. */
  function Lookup(params: seq<Param>, key: string): string {
    if params == [] then []
    else if params[|params| - 1].key == key then params[|params| - 1].value
    else Lookup(params[..|params| - 1], key)
  }

  /** Nothing, if no parameter has that name. */
  lemma {:induction false} LookupNone(params: seq<Param>, key: string)
    requires forall i :: 0 <= i < |params| ==> params[i].key != key
    ensures Lookup(params, key) == []
    decreases |params|
  {
    if params != [] { LookupNone(params[..|params| - 1], key); }
  }

  /** The value of the last parameter that has it. */
  lemma {:induction false} LookupLast(params: seq<Param>, i: nat)
    requires i < |params| && forall j :: i < j < |params| ==> params[j].key != params[i].key
    ensures Lookup(params, params[i].key) == params[i].value
    decreases |params|
  {
    if i < |params| - 1 { LookupLast(params[..|params| - 1], i); }
  }

  /** What a query parameter says, where a space is written as a plus. */
  lemma PlusIsSpace(key: string, before: string, after: string)
    requires forall s :: s in {key, before, after} ==> Coded(s)
    ensures ParseParam(key + ['='] + before + ['+'] + after).value == Unquote(before + [' '] + after)
  {
    hide Unquote, Head, Tail, Coded;
    var value := before + ['+'] + after;
    CodedPlain(key, '=');
    assert key + ['='] + before + ['+'] + after == key + ['='] + value;
    HeadTail(key, '=', value);
    SpacedCoded(before);
    SpacedCoded(after);
    assert Spaced(value) == Spaced(before) + [' '] + Spaced(after);
  }

  lemma SpacedCoded(s: string)
    requires Coded(s)
    ensures Spaced(s) == s
  {}

  lemma ParamBack(p: Param)
    requires Octets(p.key) && Octets(p.value)
    ensures ParseParam(EncodeParam(p)) == p && EncodeParam(p) != [] && '&' !in EncodeParam(p) && '#' !in EncodeParam(p)
  {
    hide Quote, Unquote, Head, Tail;
    QuoteCoded(p.key);
    QuoteCoded(p.value);
    CodedPlain(Quote(p.key), '=');
    CodedPlain(Quote(p.key), '&');
    CodedPlain(Quote(p.value), '&');
    CodedPlain(Quote(p.key), '#');
    CodedPlain(Quote(p.value), '#');
    HeadTail(Quote(p.key), '=', Quote(p.value));
    SpacedCoded(Quote(p.key));
    SpacedCoded(Quote(p.value));
    UnquoteQuote(p.key);
    UnquoteQuote(p.value);
  }

  lemma {:induction false} ItemsBack(params: seq<Param>)
    requires OctetParams(params)
    ensures ParseItems(EncodeParams(params)) == params
    decreases |params|
  {
    hide EncodeParam, ParseParam;
    if params != [] {
      ParamBack(params[0]);
      ItemsBack(params[1..]);
      assert EncodeParams(params)[1..] == EncodeParams(params[1..]);
    }
  }

  /** A query read back is the parameters that were written. */
  lemma QueryBack(params: seq<Param>)
    requires OctetParams(params)
    ensures ParseQuery(UrlEncode(params)) == params
  {
    hide EncodeParam, ParseParam;
    if params == [] {
      assert Split([], '&') == [[]];
    } else {
      forall i | 0 <= i < |params| ensures '&' !in EncodeParams(params)[i] { ParamBack(params[i]); }
      SplitJoin(EncodeParams(params), '&');
      ItemsBack(params);
    }
  }

  lemma {:induction false} JoinWithout(parts: seq<string>, c: char, d: char)
    requires c != d && forall i :: 0 <= i < |parts| ==> d !in parts[i]
    ensures d !in Join(parts, c)
    decreases |parts|
  {
    if |parts| > 1 { JoinWithout(parts[1..], c, d); }
  }

  lemma QueryPlain(params: seq<Param>)
    requires OctetParams(params)
    ensures '#' !in UrlEncode(params)
  {
    hide EncodeParam;
    forall i | 0 <= i < |params| ensures '#' !in EncodeParams(params)[i] { ParamBack(params[i]); }
    JoinWithout(EncodeParams(params), '&', '#');
  }
}
