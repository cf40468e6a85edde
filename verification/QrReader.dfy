/** A reader of the format and of the version (sections 7.9 and 7.10 of ISO/IEC 18004:2015), from
    the modules themselves: either copy, all of its bits, checked against its code. */
module QrReader {
  import opened Wrappers
  import opened QrLayout
  import opened QrPatterns

  // ---- Words of bits ----

  function One(b: bool): bv32 { if b then 1 else 0 }

  /** Bits, the lowest first, as a word. */
  function Joined(b: seq<bool>): bv32 {
    if b == [] then 0 else One(b[0]) | (Joined(b[1..]) << 1)
  }

  /** A word's own bits join to it. */
  lemma {:induction false} JoinedBack(b: seq<bool>, w: bv32)
    requires Shifted(w, |b|) == 0 && forall k :: 0 <= k < |b| ==> b[k] == (Shifted(w, k) & 1 == 1)
    ensures Joined(b) == w
    decreases |b|
  {
    hide Joined, Shifted;
    NoShift(w);
    if b == [] {
      NoneJoined();
    } else {
      var rest := b[1..];
      OneShift(w, |rest|);
      forall k | 0 <= k < |rest| ensures rest[k] == (Shifted(w >> 1, k) & 1 == 1) {
        OneShift(w, k);
        assert rest[k] == b[k + 1];
      }
      JoinedBack(rest, w >> 1);
      assert b[0] == (Shifted(w, 0) & 1 == 1);
      OneJoined(b, w);
    }
  }

  lemma NoShift(w: bv32)
    ensures Shifted(w, 0) == w
  {}

  lemma OneShift(w: bv32, k: nat)
    ensures Shifted(w, k + 1) == Shifted(w >> 1, k)
  {}

  lemma NoneJoined()
    ensures Joined([]) == 0
  {}

  lemma OneJoined(b: seq<bool>, w: bv32)
    requires b != [] && Joined(b[1..]) == w >> 1 && b[0] == (w & 1 == 1)
    ensures Joined(b) == w
  {
    LowBit(w);
    BitBack(w & 1);
    Halves(w);
    hide One;
  }

  lemma Halves(w: bv32)
    ensures (w & 1) | ((w >> 1) << 1) == w
  {}

  lemma ThreeShifts(w: bv32, k: nat)
    ensures Shifted(w, k + 3) == Shifted(w >> 3, k)
  {
    assert Shifted(w, k + 3) == Shifted(w >> 1, k + 2) == Shifted((w >> 1) >> 1, k + 1)
        == Shifted(((w >> 1) >> 1) >> 1, k);
    Shifts(w);
  }

  lemma Shifts(w: bv32)
    ensures ((w >> 1) >> 1) >> 1 == w >> 3
  {}

  /** Polynomials over two elements: six terms of q times g. */
  function Product(q: bv32, g: bv32): bv32 {
    ((q & 1) * g) ^ (((q >> 1) & 1) * (g << 1)) ^ (((q >> 2) & 1) * (g << 2))
    ^ (((q >> 3) & 1) * (g << 3)) ^ (((q >> 4) & 1) * (g << 4)) ^ (((q >> 5) & 1) * (g << 5))
  }

  predicate IsQuotient(q: bv32, word: bv32, g: bv32) { Product(q, g) == word }

  /** A word of the code that g generates. */
  ghost predicate IsWord(word: bv32, g: bv32) {
    exists q: bv32 :: IsQuotient(q, word, g)
  }

  lemma BitBack(x: bv32)
    requires x < 2
    ensures One(x == 1) == x
  {}

  lemma LowBit(w: bv32)
    ensures w & 1 < 2
  {}

  // ---- The format ----

  /** x^10 + x^8 + x^5 + x^4 + x^2 + x + 1 */
  const FORMAT_CODE: bv32 := 0x537
  const FORMAT_PATTERN: bv32 := 0x5412

  /** The format's modules around the corner finder, the lowest bit first. */
  function FirstFormat(g: Grid, size: nat): seq<bool>
    requires size >= 21 && Square(g, size)
  {
    [g[0][8], g[1][8], g[2][8], g[3][8], g[4][8], g[5][8], g[7][8], g[8][8],
     g[8][7], g[8][5], g[8][4], g[8][3], g[8][2], g[8][1], g[8][0]]
  }

  /** And along the two other finders. */
  function SecondFormat(g: Grid, size: nat): seq<bool>
    requires size >= 21 && Square(g, size)
  {
    [g[8][size - 1], g[8][size - 2], g[8][size - 3], g[8][size - 4], g[8][size - 5], g[8][size - 6], g[8][size - 7],
     g[8][size - 8], g[size - 7][8], g[size - 6][8], g[size - 5][8], g[size - 4][8], g[size - 3][8], g[size - 2][8],
     g[size - 1][8]]
  }

  /** A copy's word with the pattern undone. */
  function FormatRead(g: Grid, size: nat, first: bool): bv32
    requires size >= 21 && Square(g, size)
  {
    Joined(if first then FirstFormat(g, size) else SecondFormat(g, size)) ^ FORMAT_PATTERN
  }

  function Bit(b: bool): nat { if b then 1 else 0 }

  /** Error correction levels by their two bits. */
  datatype Level = M | L | H | Q

  function LevelOf(word: bv32): Level {
    if (word >> 14) & 1 == 0 then if (word >> 13) & 1 == 0 then M else L
    else if (word >> 13) & 1 == 0 then H else Q
  }

  function MaskOf(word: bv32): (mask: nat)
    ensures mask < 8
  {
    4 * Bit((word >> 12) & 1 == 1) + 2 * Bit((word >> 11) & 1 == 1) + Bit((word >> 10) & 1 == 1)
  }

  /** The level and the mask that a copy names, if it is a word of the format's code. */
  ghost function ReadFormat(g: Grid, size: nat, first: bool): Option<(Level, nat)>
    requires size >= 21 && Square(g, size)
  {
    var word := FormatRead(g, size, first);
    if IsWord(word, FORMAT_CODE) then Some((LevelOf(word), MaskOf(word))) else None
  }

  /** The quotient of a mask's format. */
  function FormatQuotient(mask: bv32): bv32 {
    (mask & 1) ^ (((mask >> 1) & 1) * 2) ^ (((mask >> 2) & 1) * 5)
  }

  lemma FormatWordSound(mask: bv32)
    requires mask < 8
    ensures FormatWord(mask) < 0x8000 && (FormatWord(mask) ^ FORMAT_PATTERN) >> 10 == mask
    ensures FormatWord(mask) ^ FORMAT_PATTERN == Product(FormatQuotient(mask), FORMAT_CODE)
  {}

  lemma FormatEnds(w: bv32)
    requires w < 0x8000
    ensures Shifted(w, 15) == 0
  {
    ThreeShifts(w, 12);
    ThreeShifts(w >> 3, 9);
    ThreeShifts((w >> 3) >> 3, 6);
    ThreeShifts(((w >> 3) >> 3) >> 3, 3);
    ThreeShifts((((w >> 3) >> 3) >> 3) >> 3, 0);
    assert Shifted(((((w >> 3) >> 3) >> 3) >> 3) >> 3, 0) == ((((w >> 3) >> 3) >> 3) >> 3) >> 3;
    FormatGone(w);
  }

  lemma FormatGone(w: bv32)
    requires w < 0x8000
    ensures ((((w >> 3) >> 3) >> 3) >> 3) >> 3 == 0
  {}

  lemma FormatCells(size: nat)
    requires size >= 21
    ensures FormatCell(size, 0) == Cell(8, 0) && FormatCell(size, 1) == Cell(8, 1)
        && FormatCell(size, 2) == Cell(8, 2) && FormatCell(size, 3) == Cell(8, 3)
        && FormatCell(size, 4) == Cell(8, 4) && FormatCell(size, 5) == Cell(8, 5)
        && FormatCell(size, 6) == Cell(8, 7) && FormatCell(size, 7) == Cell(8, 8)
        && FormatCell(size, 8) == Cell(7, 8) && FormatCell(size, 9) == Cell(5, 8)
        && FormatCell(size, 10) == Cell(4, 8) && FormatCell(size, 11) == Cell(3, 8)
        && FormatCell(size, 12) == Cell(2, 8) && FormatCell(size, 13) == Cell(1, 8)
        && FormatCell(size, 14) == Cell(0, 8)
    ensures FormatCell(size, 15) == Cell(size - 1, 8) && FormatCell(size, 16) == Cell(size - 2, 8)
        && FormatCell(size, 17) == Cell(size - 3, 8) && FormatCell(size, 18) == Cell(size - 4, 8)
        && FormatCell(size, 19) == Cell(size - 5, 8) && FormatCell(size, 20) == Cell(size - 6, 8)
        && FormatCell(size, 21) == Cell(size - 7, 8) && FormatCell(size, 22) == Cell(size - 8, 8)
        && FormatCell(size, 23) == Cell(8, size - 7) && FormatCell(size, 24) == Cell(8, size - 6)
        && FormatCell(size, 25) == Cell(8, size - 5) && FormatCell(size, 26) == Cell(8, size - 4)
        && FormatCell(size, 27) == Cell(8, size - 3) && FormatCell(size, 28) == Cell(8, size - 2)
        && FormatCell(size, 29) == Cell(8, size - 1)
  {}

  /** Both copies hold the format's bits. */
  lemma FormatModules(size: nat, mask: nat, g: Grid, k: nat)
    requires size >= 21 && mask < 8 && Square(g, size) && k < 15
    ensures var r := DrawFormat(size, mask, g, 31);
            FirstFormat(r, size)[k] == FormatBit(mask, k) == SecondFormat(r, size)[k]
  {
    hide FormatBit, DrawFormat, FormatCell, IsFormat;
    DrawnFormat(size, mask, g, 31);
    FormatCells(size);
    assert FormatValue(mask, k) == FormatBit(mask, k) == FormatValue(mask, 15 + k);
  }

  lemma MaskSmall(mask: nat)
    requires mask < 8
    ensures MaskNumber(mask) < 8
    ensures mask == 4 * Bit((MaskNumber(mask) >> 2) & 1 == 1) + 2 * Bit((MaskNumber(mask) >> 1) & 1 == 1)
                    + Bit(MaskNumber(mask) & 1 == 1)
  {
    if mask == 0 {} else if mask == 1 {} else if mask == 2 {} else if mask == 3 {}
    else if mask == 4 {} else if mask == 5 {} else if mask == 6 {} else {}
  }

  lemma UpperBits(w: bv32, m: bv32)
    requires w >> 10 == m && m < 8
    ensures (w >> 14) & 1 == 0 && (w >> 13) & 1 == 0
    ensures (w >> 12) & 1 == (m >> 2) & 1 && (w >> 11) & 1 == (m >> 1) & 1 && (w >> 10) & 1 == m & 1
  {}

  /** From either copy a reader takes level M and the mask that was drawn, and finds a word of the
      format's code. */
  lemma FormatReads(size: nat, mask: nat, g: Grid, first: bool)
    requires size >= 21 && mask < 8 && Square(g, size)
    ensures ReadFormat(DrawFormat(size, mask, g, 31), size, first) == Some((M, mask))
  {
    hide FormatBit, FormatWord, MaskNumber, DrawFormat, Joined, FirstFormat, SecondFormat, IsWord, LevelOf, MaskOf;
    var r := DrawFormat(size, mask, g, 31);
    var b := if first then FirstFormat(r, size) else SecondFormat(r, size);
    FormatLengths(r, size);
    MaskSmall(mask);
    FormatWordSound(MaskNumber(mask));
    FormatEnds(FormatWord(MaskNumber(mask)));
    forall k | 0 <= k < 15 ensures b[k] == (Shifted(FormatWord(MaskNumber(mask)), k) & 1 == 1) {
      assert b[k] == FormatBit(mask, k) by { FormatModules(size, mask, g, k); }
      FormatBitIs(mask, k);
    }
    JoinedBack(b, FormatWord(MaskNumber(mask)));
    WordNames(FormatWord(MaskNumber(mask)) ^ FORMAT_PATTERN, mask);
  }

  lemma FormatBitIs(mask: nat, k: nat)
    requires mask < 8 && k < 15
    ensures FormatBit(mask, k) == (Shifted(FormatWord(MaskNumber(mask)), k) & 1 == 1)
  {
    hide FormatWord, MaskNumber, Shifted;
  }

  lemma WordNames(word: bv32, mask: nat)
    requires mask < 8 && word == FormatWord(MaskNumber(mask)) ^ FORMAT_PATTERN
    ensures IsWord(word, FORMAT_CODE) && LevelOf(word) == M && MaskOf(word) == mask
  {
    hide FormatWord, MaskNumber, Product, Bit;
    MaskSmall(mask);
    FormatWordSound(MaskNumber(mask));
    assert IsQuotient(FormatQuotient(MaskNumber(mask)), word, FORMAT_CODE);
    UpperBits(word, MaskNumber(mask));
  }

  lemma FormatLengths(g: Grid, size: nat)
    requires size >= 21 && Square(g, size)
    ensures |FirstFormat(g, size)| == |SecondFormat(g, size)| == 15
  {}

  // ---- The version ----

  /** x^12 + x^11 + x^10 + x^9 + x^8 + x^5 + x^2 + 1 */
  const VERSION_CODE: bv32 := 0x1F25

  /** The version's modules beside the upper right finder, the lowest bit first. */
  function FirstVersion(g: Grid, size: nat): seq<bool>
    requires size >= 21 && Square(g, size)
  {
    [g[0][size - 11], g[0][size - 10], g[0][size - 9], g[1][size - 11], g[1][size - 10], g[1][size - 9],
     g[2][size - 11], g[2][size - 10], g[2][size - 9], g[3][size - 11], g[3][size - 10], g[3][size - 9],
     g[4][size - 11], g[4][size - 10], g[4][size - 9], g[5][size - 11], g[5][size - 10], g[5][size - 9]]
  }

  /** And above the lower left one. */
  function SecondVersion(g: Grid, size: nat): seq<bool>
    requires size >= 21 && Square(g, size)
  {
    [g[size - 11][0], g[size - 10][0], g[size - 9][0], g[size - 11][1], g[size - 10][1], g[size - 9][1],
     g[size - 11][2], g[size - 10][2], g[size - 9][2], g[size - 11][3], g[size - 10][3], g[size - 9][3],
     g[size - 11][4], g[size - 10][4], g[size - 9][4], g[size - 11][5], g[size - 10][5], g[size - 9][5]]
  }

  function VersionRead(g: Grid, size: nat, first: bool): bv32
    requires size >= 21 && Square(g, size)
  {
    Joined(if first then FirstVersion(g, size) else SecondVersion(g, size))
  }

  /** The number that six bits write, the lowest first. */
  function Six(a: bool, b: bool, c: bool, d: bool, e: bool, f: bool): nat {
    Bit(a) + 2 * Bit(b) + 4 * Bit(c) + 8 * Bit(d) + 16 * Bit(e) + 32 * Bit(f)
  }

  function VersionOf(word: bv32): nat {
    Six((word >> 12) & 1 == 1, (word >> 13) & 1 == 1, (word >> 14) & 1 == 1, (word >> 15) & 1 == 1,
        (word >> 16) & 1 == 1, (word >> 17) & 1 == 1)
  }

  /** The version that a copy names, if it is a word of the version's code. */
  ghost function ReadVersion(g: Grid, size: nat, first: bool): Option<nat>
    requires size >= 21 && Square(g, size)
  {
    var word := VersionRead(g, size, first);
    if IsWord(word, VERSION_CODE) then Some(VersionOf(word)) else None
  }

  /** The quotient of a version's word. */
  function VersionQuotient(v: bv32): bv32 {
    (v & 1) ^ (((v >> 1) & 1) * 3) ^ (((v >> 2) & 1) * 6) ^ (((v >> 3) & 1) * 12) ^ (((v >> 4) & 1) * 24)
    ^ (((v >> 5) & 1) * 49)
  }

  lemma VersionWordSound(v: bv32)
    requires v < 64
    ensures VersionWord(v) < 0x40000 && VersionWord(v) >> 12 == v
    ensures VersionWord(v) == Product(VersionQuotient(v), VERSION_CODE)
  {}

  lemma VersionEnds(w: bv32)
    requires w < 0x40000
    ensures Shifted(w, 18) == 0
  {
    ThreeShifts(w, 15);
    FormatShort(w);
    FormatEnds(w >> 3);
  }

  lemma FormatShort(w: bv32)
    requires w < 0x40000
    ensures w >> 3 < 0x8000
  {}

  /** A version's number bit by bit, as an integer and as bits. */
  lemma NumberBits(v: nat)
    requires v <= 40
    ensures var w := VersionNumber(v);
            w < 64 && ((w >> 0) & 1 == 1) == (v % 2 == 1) && ((w >> 1) & 1 == 1) == (v / 2 % 2 == 1)
            && ((w >> 2) & 1 == 1) == (v / 4 % 2 == 1) && ((w >> 3) & 1 == 1) == (v / 8 % 2 == 1)
            && ((w >> 4) & 1 == 1) == (v / 16 % 2 == 1) && ((w >> 5) & 1 == 1) == (v / 32 % 2 == 1)
  {
    if v == 0 {} else if v == 1 {} else if v == 2 {} else if v == 3 {} else if v == 4 {} else if v == 5 {}
    else if v == 6 {} else if v == 7 {} else if v == 8 {} else if v == 9 {} else if v == 10 {} else if v == 11 {}
    else if v == 12 {} else if v == 13 {} else if v == 14 {} else if v == 15 {} else if v == 16 {} else if v == 17 {}
    else if v == 18 {} else if v == 19 {} else if v == 20 {} else if v == 21 {} else if v == 22 {} else if v == 23 {}
    else if v == 24 {} else if v == 25 {} else if v == 26 {} else if v == 27 {} else if v == 28 {} else if v == 29 {}
    else if v == 30 {} else if v == 31 {} else if v == 32 {} else if v == 33 {} else if v == 34 {} else if v == 35 {}
    else if v == 36 {} else if v == 37 {} else if v == 38 {} else if v == 39 {} else if v == 40 {}
  }

  lemma NumberSmall(v: nat)
    requires v <= 40
    ensures VersionNumber(v) < 64
  {
    hide VersionNumber;
    NumberBits(v);
  }

  lemma VersionUpper(w: bv32, v: bv32)
    requires w >> 12 == v
    ensures (w >> 12) & 1 == (v >> 0) & 1 && (w >> 13) & 1 == (v >> 1) & 1 && (w >> 14) & 1 == (v >> 2) & 1
    ensures (w >> 15) & 1 == (v >> 3) & 1 && (w >> 16) & 1 == (v >> 4) & 1 && (w >> 17) & 1 == (v >> 5) & 1
  {}

  /** From either copy a reader takes the version that is drawn, and finds a word of its code. */
  lemma VersionReads(v: nat, m: Grid, first: bool)
    requires 7 <= v <= 40 && Square(m, SizeOf(v)) && VersionDrawn(v, m)
    ensures ReadVersion(m, SizeOf(v), first) == Some(v)
  {
    hide VersionBit, VersionWord, VersionNumber, Joined, FirstVersion, SecondVersion, IsWord, VersionOf, VersionDrawn;
    var b := if first then FirstVersion(m, SizeOf(v)) else SecondVersion(m, SizeOf(v));
    VersionLengths(m, SizeOf(v));
    NumberSmall(v);
    VersionWordSound(VersionNumber(v));
    VersionEnds(VersionWord(VersionNumber(v)));
    forall k | 0 <= k < 18 ensures b[k] == (Shifted(VersionWord(VersionNumber(v)), k) & 1 == 1) {
      assert b[k] == VersionBit(v, k) by { VersionModules(v, m, k); }
      VersionBitIs(v, k);
    }
    JoinedBack(b, VersionWord(VersionNumber(v)));
    VersionNames(VersionWord(VersionNumber(v)), v);
  }

  lemma VersionBitIs(v: nat, k: nat)
    requires v <= 40 && k < 18
    ensures VersionBit(v, k) == (Shifted(VersionWord(VersionNumber(v)), k) & 1 == 1)
  {
    hide VersionWord, VersionNumber, Shifted;
  }

  lemma VersionModules(v: nat, m: Grid, k: nat)
    requires 7 <= v <= 40 && Square(m, SizeOf(v)) && VersionDrawn(v, m) && k < 18
    ensures FirstVersion(m, SizeOf(v))[k] == VersionBit(v, k) == SecondVersion(m, SizeOf(v))[k]
  {
    hide VersionBit, FirstVersion, SecondVersion, VersionCell;
    var size, cell := SizeOf(v), VersionCell(SizeOf(v), k);
    VersionPlaces(m, size, k);
    assert m[cell.y][cell.x] == VersionBit(v, k) == m[cell.x][cell.y];
  }

  lemma VersionPlaces(g: Grid, size: nat, k: nat)
    requires size >= 21 && Square(g, size) && k < 18
    ensures var cell := VersionCell(size, k);
            cell.x < size && cell.y < size
            && FirstVersion(g, size)[k] == g[cell.y][cell.x] && SecondVersion(g, size)[k] == g[cell.x][cell.y]
  {}

  lemma VersionNames(word: bv32, v: nat)
    requires v <= 40 && word == VersionWord(VersionNumber(v))
    ensures IsWord(word, VERSION_CODE) && VersionOf(word) == v
  {
    hide VersionWord, VersionNumber, Product, VersionOf;
    NumberBits(v);
    VersionWordSound(VersionNumber(v));
    assert IsQuotient(VersionQuotient(VersionNumber(v)), word, VERSION_CODE);
    VersionOfNumber(word, v);
  }

  lemma VersionOfNumber(word: bv32, v: nat)
    requires v <= 40 && word >> 12 == VersionNumber(v)
    ensures VersionOf(word) == v
  {
    hide VersionNumber, Six;
    NumberBits(v);
    VersionUpper(word, VersionNumber(v));
    SixBits(v);
  }

  lemma VersionLengths(g: Grid, size: nat)
    requires size >= 21 && Square(g, size)
    ensures |FirstVersion(g, size)| == |SecondVersion(g, size)| == 18
  {}

  lemma SixBits(v: nat)
    requires v < 64
    ensures Six(v % 2 == 1, v / 2 % 2 == 1, v / 4 % 2 == 1, v / 8 % 2 == 1, v / 16 % 2 == 1, v / 32 % 2 == 1) == v
  {
    LastBit(v);
    LastBit(v / 2);
    LastBit(v / 4);
    LastBit(v / 8);
    LastBit(v / 16);
    LastBit(v / 32);
    hide Bit;
    assert v / 2 / 2 == v / 4 && v / 4 / 2 == v / 8 && v / 8 / 2 == v / 16 && v / 16 / 2 == v / 32 && v / 32 / 2 == 0;
  }

  lemma LastBit(v: nat)
    ensures v == 2 * (v / 2) + Bit(v % 2 == 1)
  {}
}
