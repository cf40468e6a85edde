/** base64url without padding (section 5 of RFC 4648). */
module Base64Url {
  import opened Wrappers
  import opened Percent

  /** What a decoder takes: the alphabet, and the + and / of plain base64. */
  predicate Readable(c: char) {
    'A' <= c <= 'Z' || 'a' <= c <= 'z' || '0' <= c <= '9' || c == '-' || c == '_' || c == '+' || c == '/'
  }

  function Char(v: nat): char
    requires v < 64
  {
    if v < 26 then ('A' as int + v) as char
    else if v < 52 then ('a' as int + v - 26) as char
    else if v < 62 then ('0' as int + v - 52) as char
    else if v == 62 then '-' else '_'
  }

  function Value(c: char): (v: nat)
    requires Readable(c)
    ensures v < 64
  {
    if c == '-' || c == '+' then 62 else if c == '_' || c == '/' then 63
    else if c <= '9' then c as int - '0' as int + 52
    else if c <= 'Z' then c as int - 'A' as int
    else c as int - 'a' as int + 26
  }

  /** The alphabet of section 5 of RFC 4648: A to Z, a to z, 0 to 9, and two more. */
  lemma AlphabetMeaning(v: nat)
    requires v < 64
    ensures [Char(0), Char(26), Char(52), Char(62), Char(63)] == ['A', 'a', '0', '-', '_']
    ensures v !in {25, 51} && v < 61 ==> Char(v + 1) as int == Char(v) as int + 1
  {}

  /** The last two of either alphabet, of section 4 and of section 5 of RFC 4648, are read alike. */
  lemma EitherAlphabet()
    ensures Readable('-') && Readable('+') && Value('-') == Value('+') == 62
    ensures Readable('_') && Readable('/') && Value('_') == Value('/') == 63
  {}

  lemma ValueChar(v: nat)
    requires v < 64
    ensures Readable(Char(v)) && Value(Char(v)) == v
  {}

  /** The four sextets of three bytes. */
  function Sextet(k: nat, a: nat, b: nat, c: nat): (v: nat)
    requires 1 <= k <= 4 && a < 256 && b < 256 && c < 256
    ensures v < 64
  {
    if k == 1 then a / 4 else if k == 2 then a % 4 * 16 + b / 16 else if k == 3 then b % 16 * 4 + c / 64 else c % 64
  }

  /** The three bytes of four sextets. */
  function Byte(k: nat, v: nat, w: nat): (b: nat)
    requires 1 <= k <= 3 && v < 64 && w < 64
    ensures b < 256
  {
    if k == 1 then v * 4 + w / 16 else if k == 2 then v % 16 * 16 + w / 4 else v % 4 * 64 + w
  }

  lemma BytesBack(a: nat, b: nat, c: nat)
    requires a < 256 && b < 256 && c < 256
    ensures Byte(1, Sextet(1, a, b, c), Sextet(2, a, b, c)) == a
    ensures Byte(2, Sextet(2, a, b, c), Sextet(3, a, b, c)) == b
    ensures Byte(3, Sextet(3, a, b, c), Sextet(4, a, b, c)) == c
  {}

  /** The sextets are the digits, base 64, of what the bytes are base 256. */
  lemma SextetsMeaning(a: nat, b: nat, c: nat)
    requires a < 256 && b < 256 && c < 256
    ensures ((Sextet(1, a, b, c) * 64 + Sextet(2, a, b, c)) * 64 + Sextet(3, a, b, c)) * 64 + Sextet(4, a, b, c)
         == (a * 256 + b) * 256 + c
  {}

  predicate Octet(c: char) { c < 256 as char }

  function Two(a: char): string
    requires Octet(a)
  {
    [Char(Sextet(1, a as int, 0, 0)), Char(Sextet(2, a as int, 0, 0))]
  }

  function Three(a: char, b: char): string
    requires Octet(a) && Octet(b)
  {
    [Char(Sextet(1, a as int, b as int, 0)), Char(Sextet(2, a as int, b as int, 0)),
     Char(Sextet(3, a as int, b as int, 0))]
  }

  function Four(a: char, b: char, c: char): string
    requires Octet(a) && Octet(b) && Octet(c)
  {
    [Char(Sextet(1, a as int, b as int, c as int)), Char(Sextet(2, a as int, b as int, c as int)),
     Char(Sextet(3, a as int, b as int, c as int)), Char(Sextet(4, a as int, b as int, c as int))]
  }

  /** Three bytes at a time, and what is left of one or two. */
  function Encode(s: string): string
    requires Octets(s)
    decreases |s|
  {
    if s == [] then []
    else if |s| == 1 then Two(s[0])
    else if |s| == 2 then Three(s[0], s[1])
    else Four(s[0], s[1], s[2]) + Encode(s[3..])
  }

  predicate AllReadable(t: string) {
    forall i :: 0 <= i < |t| ==> Readable(t[i])
  }

  /** None for a lone last character, which is less than a byte. */
  function Decode(t: string): Option<string>
    requires AllReadable(t)
    decreases |t|
  {
    if t == [] then Some([])
    else if |t| == 1 then None
    else
      var first := Byte(1, Value(t[0]), Value(t[1])) as char;
      if |t| == 2 then Some([first])
      else
        var second := Byte(2, Value(t[1]), Value(t[2])) as char;
        if |t| == 3 then Some([first, second])
        else
          var third := Byte(3, Value(t[2]), Value(t[3])) as char;
          var rest := Decode(t[4..]);
          if rest == None then None else Some([first, second, third] + rest.value)
  }

  /** Decoding undoes encoding, whatever the bytes. */
  lemma {:induction false} DecodeEncode(s: string)
    requires Octets(s)
    ensures AllReadable(Encode(s)) && Decode(Encode(s)) == Some(s)
    decreases |s|
  {
    hide Char, Value, Readable, Byte, Sextet, Two, Three, Four, Decode;
    NothingBack();
    if |s| > 2 {
      DecodeEncode(s[3..]);
      FourBack(s[0], s[1], s[2], Encode(s[3..]));
      assert s == [s[0], s[1], s[2]] + s[3..];
    } else if |s| == 2 {
      ThreeBack(s[0], s[1]);
      assert s == [s[0], s[1]];
    } else if |s| == 1 {
      TwoBack(s[0]);
      assert s == [s[0]];
    }
  }

  lemma NothingBack()
    ensures AllReadable([]) && Decode([]) == Some([])
  {}

  lemma SextetsBack(a: nat, b: nat, c: nat)
    requires a < 256 && b < 256 && c < 256
    ensures forall k :: 1 <= k <= 4 ==>
              Readable(Char(Sextet(k, a, b, c))) && Value(Char(Sextet(k, a, b, c))) == Sextet(k, a, b, c)
  {
    hide Char, Value, Readable, Sextet;
    forall k | 1 <= k <= 4
      ensures Readable(Char(Sextet(k, a, b, c))) && Value(Char(Sextet(k, a, b, c))) == Sextet(k, a, b, c)
    {
      ValueChar(Sextet(k, a, b, c));
    }
  }

  lemma TwoBack(a: char)
    requires Octet(a)
    ensures AllReadable(Two(a)) && Decode(Two(a)) == Some([a])
  {
    hide Char, Value, Readable, Sextet, Byte;
    SextetsBack(a as int, 0, 0);
    BytesBack(a as int, 0, 0);
  }

  lemma ThreeBack(a: char, b: char)
    requires Octet(a) && Octet(b)
    ensures AllReadable(Three(a, b)) && Decode(Three(a, b)) == Some([a, b])
  {
    hide Char, Value, Readable, Sextet, Byte;
    SextetsBack(a as int, b as int, 0);
    BytesBack(a as int, b as int, 0);
  }

  lemma FourBack(a: char, b: char, c: char, rest: string)
    requires Octet(a) && Octet(b) && Octet(c) && AllReadable(rest)
    ensures AllReadable(Four(a, b, c) + rest)
    ensures Decode(Four(a, b, c) + rest) == if Decode(rest) == None then None else Some([a, b, c] + Decode(rest).value)
  {
    hide Char, Value, Readable, Sextet, Byte;
    SextetsBack(a as int, b as int, c as int);
    BytesBack(a as int, b as int, c as int);
    assert (Four(a, b, c) + rest)[4..] == rest;
  }
}
