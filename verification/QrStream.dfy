/** From text to data bytes (qrMatrix in inbound_subscription.py): the smallest version that
    holds the bytes, and the byte-mode bit stream of section 7.4 of ISO/IEC 18004:2015, read
    back by an independent decoder. */
module QrStream {
  import opened Wrappers
  import opened Arithmetic

  type byte = b: int | 0 <= b < 256

  // ---- Versions at error correction level M ----

  /** Error correction bytes a block, by version. */
  const ECC: seq<nat> := [0, 10, 16, 26, 18, 24, 16, 18, 22, 22, 26, 30, 22, 22, 24, 24, 28, 28, 26, 26, 26,
                          26, 28, 28, 28, 28, 28, 28, 28, 28, 28, 28, 28, 28, 28, 28, 28, 28, 28, 28, 28]
  /** Blocks, by version. */
  const BLK: seq<nat> := [0, 1, 1, 1, 2, 2, 4, 4, 4, 5, 5, 5, 8, 9, 9, 10, 10, 11, 13, 14, 16,
                          17, 17, 18, 20, 21, 23, 25, 26, 28, 29, 31, 33, 35, 37, 38, 40, 43, 45, 47, 49]

  /** The most bytes a symbol holds in byte mode, by version (table 7 of ISO/IEC 18004:2015). */
  const BYTES: seq<nat> := [0, 14, 26, 42, 62, 84, 106, 122, 152, 180, 213, 251, 287, 331, 362, 412, 450, 504, 560, 624,
                            666, 711, 779, 857, 911, 997, 1059, 1125, 1190, 1264, 1370, 1452, 1538, 1628, 1722, 1809,
                            1911, 1989, 2099, 2213, 2331]

  function RawModules(v: nat): int
    requires 1 <= v <= 40
  {
    var r := (16 * v + 128) * v + 64;
    if v < 2 then r
    else
      var n := v / 7 + 2;
      r - ((25 * n - 10) * n - 55) - if v >= 7 then 36 else 0
  }

  /** The codewords of a version: data and error correction. */
  function Raw(v: nat): int
    requires 1 <= v <= 40
  {
    RawModules(v) / 8
  }

  /** The data bytes of a version. */
  function Capacity(v: nat): int
    requires 1 <= v <= 40
  {
    Raw(v) - ECC[v] * BLK[v]
  }

  function CountBits(v: nat): nat { if v < 10 then 8 else 16 }

  /** One more than the largest count the field can say. */
  function CountLimit(v: nat): nat { if v < 10 then 256 else 65536 }

  predicate Holds(v: nat, n: nat)
    requires 1 <= v <= 40
  {
    4 + CountBits(v) + 8 * n <= Capacity(v) * 8
  }

  /** The first version, from 1 up, whose capacity holds n bytes; none past 40. */
  method ChooseVersion(n: nat) returns (version: Option<nat>)
    ensures version == None ==> forall v :: 1 <= v <= 40 ==> !Holds(v, n)
    ensures version.Some? ==> 1 <= version.value <= 40 && Holds(version.value, n)
    ensures version.Some? ==> forall v :: 1 <= v < version.value ==> !Holds(v, n)
  {
    var v := 1;
    while true
      invariant 1 <= v <= 41
      invariant forall u :: 1 <= u < v ==> !Holds(u, n)
      decreases 41 - v
    {
      if v > 40 {
        return None;
      }
      if Holds(v, n) {
        return Some(v);
      }
      v := v + 1;
    }
  }

  /** What the tables give every version: blocks of at most 255 bytes with data in each, a count
      field wide enough for all the capacity, and room for as many bytes as the standard says. */
  predicate SoundVersion(v: nat)
    requires 1 <= v <= 40
  {
    var nb, deg := BLK[v], ECC[v];
    nb >= 1 && deg >= 1 && Raw(v) >= 0 && Raw(v) / nb - deg >= 1 && Raw(v) / nb + 1 <= 255
    && Capacity(v) < CountLimit(v) && BYTES[v] == Capacity(v) - if v < 10 then 2 else 3
  }

  lemma Pow2Counts()
    ensures Pow2(4) == 16 && Pow2(8) == 256 && Pow2(16) == 65536
  {
    assert Pow2(8) == 256;
    assert Pow2(12) == 4096;
  }

  lemma SoundFrom(v: nat, raw: nat, nb: nat, deg: nat, bytes: nat)
    requires 1 <= v <= 40 && Raw(v) == raw && BLK[v] == nb && ECC[v] == deg && BYTES[v] == bytes
    requires nb >= 1 && deg >= 1 && raw / nb - deg >= 1 && raw / nb + 1 <= 255 && raw - deg * nb < CountLimit(v)
    requires bytes == raw - deg * nb - if v < 10 then 2 else 3
    ensures SoundVersion(v)
  {
    hide Raw;
  }

  lemma SoundVersions1(v: nat)
    requires 1 <= v <= 2
    ensures SoundVersion(v)
  {
    hide SoundVersion;
    if v == 1 { SoundFrom(1, 26, 1, 10, 14); }
    else { SoundFrom(2, 44, 1, 16, 26); }
  }

  lemma SoundVersions3(v: nat)
    requires 3 <= v <= 4
    ensures SoundVersion(v)
  {
    hide SoundVersion;
    if v == 3 { SoundFrom(3, 70, 1, 26, 42); }
    else { SoundFrom(4, 100, 2, 18, 62); }
  }

  lemma SoundVersions5(v: nat)
    requires 5 <= v <= 6
    ensures SoundVersion(v)
  {
    hide SoundVersion;
    if v == 5 { SoundFrom(5, 134, 2, 24, 84); }
    else { SoundFrom(6, 172, 4, 16, 106); }
  }

  lemma SoundVersions7(v: nat)
    requires 7 <= v <= 9
    ensures SoundVersion(v)
  {
    hide SoundVersion;
    if v == 7 { SoundFrom(7, 196, 4, 18, 122); }
    else if v == 8 { SoundFrom(8, 242, 4, 22, 152); }
    else { SoundFrom(9, 292, 5, 22, 180); }
  }

  lemma SoundVersions10(v: nat)
    requires 10 <= v <= 12
    ensures SoundVersion(v)
  {
    hide SoundVersion;
    if v == 10 { SoundFrom(10, 346, 5, 26, 213); }
    else if v == 11 { SoundFrom(11, 404, 5, 30, 251); }
    else { SoundFrom(12, 466, 8, 22, 287); }
  }

  lemma SoundVersions13(v: nat)
    requires 13 <= v <= 15
    ensures SoundVersion(v)
  {
    hide SoundVersion;
    if v == 13 { SoundFrom(13, 532, 9, 22, 331); }
    else if v == 14 { SoundFrom(14, 581, 9, 24, 362); }
    else { SoundFrom(15, 655, 10, 24, 412); }
  }

  lemma SoundVersions16(v: nat)
    requires 16 <= v <= 18
    ensures SoundVersion(v)
  {
    hide SoundVersion;
    if v == 16 { SoundFrom(16, 733, 10, 28, 450); }
    else if v == 17 { SoundFrom(17, 815, 11, 28, 504); }
    else { SoundFrom(18, 901, 13, 26, 560); }
  }

  lemma SoundVersions19(v: nat)
    requires 19 <= v <= 22
    ensures SoundVersion(v)
  {
    hide SoundVersion;
    if v == 19 { SoundFrom(19, 991, 14, 26, 624); }
    else if v == 20 { SoundFrom(20, 1085, 16, 26, 666); }
    else if v == 21 { SoundFrom(21, 1156, 17, 26, 711); }
    else { SoundFrom(22, 1258, 17, 28, 779); }
  }

  lemma SoundVersions23(v: nat)
    requires 23 <= v <= 27
    ensures SoundVersion(v)
  {
    hide SoundVersion;
    if v == 23 { SoundFrom(23, 1364, 18, 28, 857); }
    else if v == 24 { SoundFrom(24, 1474, 20, 28, 911); }
    else if v == 25 { SoundFrom(25, 1588, 21, 28, 997); }
    else if v == 26 { SoundFrom(26, 1706, 23, 28, 1059); }
    else { SoundFrom(27, 1828, 25, 28, 1125); }
  }

  lemma SoundVersions28(v: nat)
    requires 28 <= v <= 33
    ensures SoundVersion(v)
  {
    hide SoundVersion;
    if v == 28 { SoundFrom(28, 1921, 26, 28, 1190); }
    else if v == 29 { SoundFrom(29, 2051, 28, 28, 1264); }
    else if v == 30 { SoundFrom(30, 2185, 29, 28, 1370); }
    else if v == 31 { SoundFrom(31, 2323, 31, 28, 1452); }
    else if v == 32 { SoundFrom(32, 2465, 33, 28, 1538); }
    else { SoundFrom(33, 2611, 35, 28, 1628); }
  }

  lemma SoundVersions34(v: nat)
    requires 34 <= v <= 40
    ensures SoundVersion(v)
  {
    hide SoundVersion;
    if v == 34 { SoundFrom(34, 2761, 37, 28, 1722); }
    else if v == 35 { SoundFrom(35, 2876, 38, 28, 1809); }
    else if v == 36 { SoundFrom(36, 3034, 40, 28, 1911); }
    else if v == 37 { SoundFrom(37, 3196, 43, 28, 1989); }
    else if v == 38 { SoundFrom(38, 3362, 45, 28, 2099); }
    else if v == 39 { SoundFrom(39, 3532, 47, 28, 2213); }
    else { SoundFrom(40, 3706, 49, 28, 2331); }
  }

  lemma EveryVersionSound(v: nat)
    requires 1 <= v <= 40
    ensures SoundVersion(v)
  {
    hide SoundVersion;
    if v <= 2 { SoundVersions1(v); }
    else if v <= 4 { SoundVersions3(v); }
    else if v <= 6 { SoundVersions5(v); }
    else if v <= 9 { SoundVersions7(v); }
    else if v <= 12 { SoundVersions10(v); }
    else if v <= 15 { SoundVersions13(v); }
    else if v <= 18 { SoundVersions16(v); }
    else if v <= 22 { SoundVersions19(v); }
    else if v <= 27 { SoundVersions23(v); }
    else if v <= 33 { SoundVersions28(v); }
    else { SoundVersions34(v); }
  }

  /** A version holds the bytes the standard says it does. */
  lemma HoldsMeaning(v: nat, n: nat)
    requires 1 <= v <= 40
    ensures Holds(v, n) <==> n <= BYTES[v]
  {
    hide ECC, BLK, BYTES, Raw;
    EveryVersionSound(v);
  }

  lemma {:induction false} BytesRise(v: nat, w: nat)
    requires 1 <= v < w <= 40
    ensures BYTES[v] < BYTES[w]
    decreases w
  {
    if v < w - 1 { BytesRise(v, w - 1); }
  }

  // ---- Bits ----

  /** The low n bits of v, the highest first. */
  function BitsOf(v: nat, n: nat): (bits: seq<bool>)
    ensures |bits| == n
  {
    if n == 0 then [] else BitsOf(v / 2, n - 1) + [v % 2 == 1]
  }

  /** The number these bits write, the highest first. */
  function NumberOf(bits: seq<bool>): nat {
    if bits == [] then 0 else 2 * NumberOf(bits[..|bits| - 1]) + if bits[|bits| - 1] then 1 else 0
  }

  function BitsOfBytes(bytes: seq<byte>): (bits: seq<bool>)
    ensures |bits| == 8 * |bytes|
  {
    if bytes == [] then [] else BitsOfBytes(bytes[..|bytes| - 1]) + BitsOf(bytes[|bytes| - 1], 8)
  }

  function BytesOfBits(bits: seq<bool>): (bytes: seq<byte>)
    requires |bits| % 8 == 0
    ensures |bytes| == |bits| / 8
  {
    if bits == [] then [] else
      var last := bits[|bits| - 8..];
      NumberBound(last);
      assert NumberOf(last) < 256 by { Pow2Counts(); }
      BytesOfBits(bits[..|bits| - 8]) + [NumberOf(last)]
  }

  lemma {:induction false} NumberBound(bits: seq<bool>)
    ensures NumberOf(bits) < Pow2(|bits|)
  {
    if bits != [] { NumberBound(bits[..|bits| - 1]); }
  }

  lemma {:induction false} NumberOfBits(v: nat, n: nat)
    requires v < Pow2(n)
    ensures NumberOf(BitsOf(v, n)) == v
  {
    if n > 0 {
      NumberOfBits(v / 2, n - 1);
      assert BitsOf(v, n)[..n - 1] == BitsOf(v / 2, n - 1);
    }
  }

  lemma {:induction false} BitsOfNumber(bits: seq<bool>)
    ensures BitsOf(NumberOf(bits), |bits|) == bits
  {
    if bits != [] {
      var rest := bits[..|bits| - 1];
      BitsOfNumber(rest);
      assert NumberOf(bits) / 2 == NumberOf(rest);
      assert bits == rest + [bits[|bits| - 1]];
    }
  }

  lemma {:induction false} BytesRoundTrip(bytes: seq<byte>)
    ensures BytesOfBits(BitsOfBytes(bytes)) == bytes
  {
    hide NumberOf, BitsOf, Pow2;
    if bytes != [] {
      var n := |bytes| - 1;
      BytesRoundTrip(bytes[..n]);
      Pow2Counts();
      NumberOfBits(bytes[n], 8);
      var bits := BitsOfBytes(bytes);
      assert bits[..|bits| - 8] == BitsOfBytes(bytes[..n]);
      assert bits[|bits| - 8..] == BitsOf(bytes[n], 8);
      assert bytes == bytes[..n] + [bytes[n]];
    }
  }

  lemma {:induction false} BitsRoundTrip(bits: seq<bool>)
    requires |bits| % 8 == 0
    ensures BitsOfBytes(BytesOfBits(bits)) == bits
    decreases |bits|
  {
    hide NumberOf, BitsOf, Pow2, BytesOfBits, BitsOfBytes;
    if bits == [] {
      NoBytes();
      NoBits();
    } else {
      Octets(0, |bits|);
      var n := |bits| - 8;
      BitsRoundTrip(bits[..n]);
      BitsOfNumber(bits[n..]);
      BytesStep(bits[..n], bits[n..]);
      BitsStep(BytesOfBits(bits[..n]), NumberOf(bits[n..]));
      assert bits == bits[..n] + bits[n..];
    }
  }

  lemma NoBits()
    ensures BitsOfBytes([]) == []
  {}

  lemma BitsStep(bytes: seq<byte>, last: byte)
    ensures BitsOfBytes(bytes + [last]) == BitsOfBytes(bytes) + BitsOf(last, 8)
  {
    hide BitsOf;
    assert (bytes + [last])[..|bytes|] == bytes;
  }

  // ---- The encoder's stream ----

  /** put(v, n): the bits of v, one push at a time from bit n - 1 down. */
  method Put(bits: seq<bool>, v: nat, n: nat) returns (r: seq<bool>)
    ensures r == bits + BitsOf(v, n)
  {
    hide Pow2;
    Pow2Zero();
    r := bits;
    var k := n - 1;
    while k >= 0
      invariant -1 <= k < n && Pow2(k + 1) >= 1
      invariant r == bits + BitsOf(v / Pow2(k + 1), n - 1 - k)
    {
      HalfShift(v, k);
      r := r + [v / Pow2(k) % 2 == 1];
      k := k - 1;
    }
  }

  lemma Pow2Zero()
    ensures Pow2(0) == 1
  {}

  lemma HalfShift(v: nat, k: nat)
    requires Pow2(k) >= 1
    ensures v / Pow2(k + 1) == v / Pow2(k) / 2
  {
    DivDiv(v, Pow2(k));
  }

  lemma DivDiv(v: nat, p: nat)
    requires p >= 1
    ensures v / (2 * p) == v / p / 2
  {
    var q := v / p;
    var r := v % p;
    assert v == q * p + r;
    var h := q / 2;
    assert q * p == h * (2 * p) + (q % 2) * p;
    assert 0 <= (q % 2) * p + r < 2 * p by {
      if q % 2 == 0 { assert (q % 2) * p == 0; } else { assert (q % 2) * p == p; }
    }
    DivUnique(v, 2 * p, h, (q % 2) * p + r);
  }

  lemma DivUnique(v: nat, d: nat, q: nat, r: nat)
    requires d >= 1 && v == q * d + r && r < d
    ensures v / d == q && v % d == r
  {
    var q' := v / d;
    assert (q' - q) * d == r - v % d;
    LargeMultiple(q' - q, d);
  }

  lemma LargeMultiple(x: int, d: int)
    requires d >= 1
    ensures x == 0 || x * d >= d || x * d <= -d
  {
    if x >= 1 {
      assert x * d == d + (x - 1) * d;
      assert (x - 1) * d >= 0;
    } else if x <= -1 {
      assert x * d == -d + (x + 1) * d;
      assert (x + 1) * d <= 0;
    }
  }

  function Zeros(n: nat): (bits: seq<bool>)
    ensures |bits| == n
  {
    seq(n, _ => false)
  }

  /** n pad bytes, 0xEC and 0x11 by turns. */
  function Pads(n: nat): (bytes: seq<byte>)
    ensures |bytes| == n
  {
    seq(n, i => if i % 2 == 0 then 0xEC else 0x11)
  }

  /** Mode, count and the bytes themselves. */
  function Message(bytes: seq<byte>, v: nat): seq<bool> {
    BitsOf(4, 4) + BitsOf(|bytes|, CountBits(v)) + BitsOfBytes(bytes)
  }

  /** Zero bits after the message: up to four, and on to the next byte. */
  function Fill(used: nat, all: nat): nat
    requires used <= all
  {
    var t := if all - used < 4 then all - used else 4;
    t + (8 - (used + t) % 8) % 8
  }

  /** All the bits of a symbol: the message, zeros, pad bytes. */
  function Stream(m: seq<bool>, all: nat): seq<bool>
    requires |m| <= all && all % 8 == 0
  {
    var fill := Fill(|m|, all);
    FillAligns(|m|, all);
    m + Zeros(fill) + BitsOfBytes(Pads((all - |m| - fill) / 8))
  }

  lemma FillAligns(used: nat, all: nat)
    requires used <= all && all % 8 == 0
    ensures used + Fill(used, all) <= all && (used + Fill(used, all)) % 8 == 0
  {
    AlignUp(used + if all - used < 4 then all - used else 4, all);
  }

  lemma AlignUp(n: nat, all: nat)
    requires n <= all && all % 8 == 0
    ensures n + (8 - n % 8) % 8 <= all && (n + (8 - n % 8) % 8) % 8 == 0
  {
    var q, r := n / 8, n % 8;
    if r > 0 {
      assert n + (8 - r) == 8 * (q + 1);
      assert q < all / 8;
    }
  }

  method EncodeData(bytes: seq<byte>, v: nat) returns (data: seq<byte>)
    requires 1 <= v <= 40 && Holds(v, |bytes|)
    ensures |data| == Capacity(v)
    ensures |Message(bytes, v)| <= Capacity(v) * 8
    ensures BitsOfBytes(data) == Stream(Message(bytes, v), Capacity(v) * 8)
  {
    hide ECC, BLK, Raw, Capacity, Pow2, BitsOf, Stream;
    var bits := PutMessage(bytes, v);
    bits := PadOut(bits, Capacity(v) * 8);
    data := Pack(bits);
    BitsRoundTrip(bits);
  }

  method PutMessage(bytes: seq<byte>, v: nat) returns (bits: seq<bool>)
    ensures bits == Message(bytes, v)
  {
    hide Pow2, BitsOf;
    bits := Put([], 4, 4);
    bits := Put(bits, |bytes|, CountBits(v));
    ghost var head := bits;
    for i := 0 to |bytes|
      invariant bits == head + BitsOfBytes(bytes[..i])
    {
      bits := Put(bits, bytes[i], 8);
      assert bytes[..i + 1][..i] == bytes[..i];
    }
    assert bytes[..|bytes|] == bytes;
  }

  method PadOut(m: seq<bool>, all: nat) returns (bits: seq<bool>)
    requires |m| <= all && all % 8 == 0
    ensures |bits| == all && bits == Stream(m, all)
  {
    hide Pow2, BitsOf, Fill, Pads, BitsOfBytes;
    FillAligns(|m|, all);
    bits := FillZeros(m, all);
    bits := PadBytes(bits, all);
  }

  method FillZeros(m: seq<bool>, all: nat) returns (bits: seq<bool>)
    requires |m| <= all && all % 8 == 0
    ensures bits == m + Zeros(Fill(|m|, all))
  {
    hide Pow2, BitsOf;
    bits := m;
    var t := if all - |bits| < 4 then all - |bits| else 4;
    BitsOfZero(t);
    bits := Put(bits, 0, t);
    var align := (8 - |bits| % 8) % 8;
    BitsOfZero(align);
    bits := Put(bits, 0, align);
  }

  method PadBytes(start: seq<bool>, all: nat) returns (bits: seq<bool>)
    requires |start| <= all && (all - |start|) % 8 == 0
    ensures |bits| == all && bits == start + BitsOfBytes(Pads((all - |start|) / 8))
  {
    hide Pow2, BitsOf;
    bits := start;
    var pad: byte := 0xEC;
    ghost var n: nat := 0;
    while |bits| < all
      invariant |bits| == |start| + 8 * n && |bits| <= all
      invariant pad == if n % 2 == 0 then 0xEC else 0x11
      invariant bits == start + BitsOfBytes(Pads(n))
      decreases all - |bits|
    {
      assert Pads(n + 1)[..n] == Pads(n);
      bits := Put(bits, pad, 8);
      pad := if pad == 0xEC then 0x11 else 0xEC;
      n := n + 1;
    }
  }

  /** Bytes from bits, each by eight shifts of x. */
  method Pack(bits: seq<bool>) returns (data: seq<byte>)
    requires |bits| % 8 == 0
    ensures data == BytesOfBits(bits)
  {
    hide Pow2, NumberOf, BytesOfBits;
    data := [];
    var i := 0;
    NoBytes();
    assert bits[..0] == [];
    while i < |bits|
      invariant 0 <= i <= |bits| && i % 8 == 0
      invariant data == BytesOfBits(bits[..i])
    {
      Octets(i, |bits|);
      var eight := bits[i..i + 8];
      var x: nat := 0;
      assert eight[..0] == [];
      NoNumber();
      for j := 0 to 8
        invariant x == NumberOf(eight[..j])
      {
        NumberStep(eight[..j], eight[j]);
        assert eight[..j + 1] == eight[..j] + [eight[j]];
        x := 2 * x + if bits[i + j] then 1 else 0;
      }
      assert eight[..8] == eight;
      BytesStep(bits[..i], eight);
      assert bits[..i + 8] == bits[..i] + eight;
      data := data + [x];
      i := i + 8;
    }
    assert bits[..|bits|] == bits;
  }

  /** A multiple of eight below another is at least eight below. */
  lemma Octets(i: nat, n: nat)
    requires i < n && i % 8 == 0 && n % 8 == 0
    ensures i + 8 <= n && (i + 8) % 8 == 0
  {}

  lemma NoBytes()
    ensures BytesOfBits([]) == []
  {}

  lemma NoNumber()
    ensures NumberOf([]) == 0
  {}

  lemma NumberStep(bits: seq<bool>, bit: bool)
    ensures NumberOf(bits + [bit]) == 2 * NumberOf(bits) + if bit then 1 else 0
  {
    assert (bits + [bit])[..|bits|] == bits;
  }

  lemma BytesStep(bits: seq<bool>, eight: seq<bool>)
    requires |bits| % 8 == 0 && |eight| == 8
    ensures NumberOf(eight) < 256
    ensures (|bits| + 8) % 8 == 0 && BytesOfBits(bits + eight) == BytesOfBits(bits) + [NumberOf(eight)]
  {
    NumberBound(eight);
    Pow2Counts();
    hide NumberOf, Pow2;
    var all := bits + eight;
    assert all[..|all| - 8] == bits && all[|all| - 8..] == eight;
  }

  lemma {:induction false} BitsOfZero(n: nat)
    ensures BitsOf(0, n) == Zeros(n)
  {
    if n > 0 { BitsOfZero(n - 1); }
  }

  // ---- A reader of the stream ----

  /** The bytes of a byte-mode symbol of version v, if that is what data says. */
  function DecodeData(data: seq<byte>, v: nat): Option<seq<byte>> {
    var bits := BitsOfBytes(data);
    var cb := if v < 10 then 8 else 16;
    if |bits| < 4 + cb || NumberOf(bits[..4]) != 4 then None
    else
      var n := NumberOf(bits[4..4 + cb]);
      if |bits| < 4 + cb + 8 * n then None
      else
        WholeBytes(n);
        Some(BytesOfBits(bits[4 + cb..4 + cb + 8 * n]))
  }

  lemma WholeBytes(n: nat)
    ensures 8 * n % 8 == 0
  {}

  /** A stream that starts with the message of bytes reads as those bytes. */
  lemma DecodeMessage(data: seq<byte>, bytes: seq<byte>, v: nat)
    requires 1 <= v <= 40 && Holds(v, |bytes|)
    requires |Message(bytes, v)| <= |BitsOfBytes(data)|
    requires BitsOfBytes(data)[..|Message(bytes, v)|] == Message(bytes, v)
    ensures DecodeData(data, v) == Some(bytes)
  {
    hide ECC, BLK, Raw, Capacity, Pow2, SoundVersion, Holds, BitsOf, NumberOf, BitsOfBytes, BytesOfBits, Message;
    EveryVersionSound(v);
    CountFits(v, |bytes|);
    MessageParts(bytes, v);
    var bits, cb, m := BitsOfBytes(data), CountBits(v), Message(bytes, v);
    assert bits[..4] == m[..4] && bits[4..4 + cb] == m[4..4 + cb];
    assert bits[4 + cb..4 + cb + 8 * |bytes|] == m[4 + cb..];
    Pow2Counts();
    NumberOfBits(4, 4);
    NumberOfBits(|bytes|, cb);
    BytesRoundTrip(bytes);
  }

  lemma MessageParts(bytes: seq<byte>, v: nat)
    ensures var m, cb := Message(bytes, v), CountBits(v);
            |m| == 4 + cb + 8 * |bytes| && m[..4] == BitsOf(4, 4) && m[4..4 + cb] == BitsOf(|bytes|, cb)
                && m[4 + cb..] == BitsOfBytes(bytes)
  {
    hide BitsOf, BitsOfBytes;
  }

  lemma CountFits(v: nat, n: nat)
    requires 1 <= v <= 40 && SoundVersion(v) && Holds(v, n)
    ensures n < Pow2(CountBits(v))
  {
    hide ECC, BLK, Raw, Capacity;
    Pow2Counts();
  }
}
