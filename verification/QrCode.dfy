/** The whole encoder (qrMatrix in inbound_subscription.py) and a reader of its symbols: what
    the reader gets is what was encoded. */
module QrCode {
  import opened Wrappers
  import opened ReedSolomon
  import opened Arithmetic
  import opened QrStream
  import opened QrBlocks
  import opened QrLayout
  import opened QrPatterns
  import opened QrMatrix
  import opened QrReader

  /** The block shape of version v. */
  predicate IsShapeOf(s: Shape, v: nat)
    requires 1 <= v <= 40
  {
    s.raw == Raw(v) && s.nb == BLK[v] && s.deg == ECC[v]
  }

  // ---- The reader ----

  /** The codewords of a symbol under a mask: the free modules, unmasked. */
  function ReadWords(g: Grid, fn: Grid, size: nat, mask: nat, raw: nat): seq<byte>
    requires IsSize(size) && Square(g, size) && Square(fn, size) && mask < 8
  {
    var bits := ReadBits(size, fn, g, mask, Strips(size), 0);
    if |bits| < 8 * raw then [] else BytesOfBits(bits[..8 * raw])
  }

  function ReadEcc(s: Shape, words: seq<byte>, j: nat): (ecc: seq<byte>)
    requires s.Valid() && |words| == s.raw && j < s.nb
  {
    seq(s.deg, i requires 0 <= i < s.deg => EccInside(s, i, j); words[s.EccAt(i, j)])
  }

  lemma EccInside(s: Shape, i: nat, j: nat)
    requires s.Valid() && j < s.nb && i < s.deg
    ensures s.EccAt(i, j) < s.raw
  {
    hide Shape.Valid, Shape.Cap;
    BlocksFillCapacity(s);
    assert (i + 1) * s.nb <= s.deg * s.nb;
  }

  /** The codewords of a symbol of version v at level M: the format read from one of its copies,
      the version too where there is one, and both as they should be. */
  ghost function SymbolWords(g: Grid, fn: Grid, v: nat, raw: nat, first: bool): (words: Option<seq<byte>>)
    requires Square(g, SizeOf(v)) && Square(fn, SizeOf(v)) && v >= 1
    ensures words.Some? ==> |words.value| == raw
  {
    var format := ReadFormat(g, SizeOf(v), first);
    if format == None || format.value.0 != M || (v >= 7 && ReadVersion(g, SizeOf(v), first) != Some(v)) then None
    else
      var words := ReadWords(g, fn, SizeOf(v), format.value.1, raw);
      if |words| != raw then None else Some(words)
  }

  /** The bytes of a symbol of version v, whose blocks have shape s. */
  ghost function DecodeSymbol(g: Grid, fn: Grid, v: nat, s: Shape, first: bool): Option<seq<byte>>
    requires s.Valid() && Square(g, SizeOf(v)) && Square(fn, SizeOf(v)) && v >= 1
  {
    var words := SymbolWords(g, fn, v, s.raw, first);
    if words == None then None else DecodeData(ReadData(s, words.value, s.nb), v)
  }

  /** Every block of the symbol, data and error correction, is a codeword of its generator. */
  ghost predicate BlocksAreCodewords(s: Shape, words: seq<byte>)
    requires s.Valid() && |words| == s.raw
  {
    forall j :: 0 <= j < s.nb ==> IsCodeword(ToFields(ReadBlock(s, words, j)) + ToFields(ReadEcc(s, words, j)), s.deg)
  }

  lemma ShapeValid(s: Shape, v: nat)
    requires 1 <= v <= 40 && IsShapeOf(s, v)
    ensures s.Valid() && s.Cap() == Capacity(v)
  {
    hide ECC, BLK, Raw;
    EveryVersionSound(v);
    BlocksFillCapacity(s);
  }

  lemma ToFieldsInverse(p: Poly)
    ensures ToFields(FromFields(p)) == p
  {
    forall i | 0 <= i < |p| ensures ToField(FromField(p[i])) == p[i] { FieldBack(p[i]); }
  }

  lemma FieldBack(v: bv8)
    ensures ToField(FromField(v)) == v
  {}

  /** The codewords of the data: each block and its error correction, interleaved. */
  method Codewords(data: seq<byte>, s: Shape) returns (words: seq<byte>)
    requires s.Valid() && |data| == s.Cap()
    ensures |words| == s.raw && ReadData(s, words, s.nb) == data && BlocksAreCodewords(s, words)
  {
    hide Shape.Valid, Shape.At, Shape.EccAt, Shape.Len, Shape.Start, EccOf, ReadEcc, ReadBlock, IsCodeword;
    var blocks, eccs := MakeBlocks(data, s);
    EccLengths(s, blocks, eccs);
    words := Interleave(s, blocks, eccs);
    DeinterleaveInverts(s, data, blocks, words, s.nb);
    CapIs(s);
    assert data[..|data|] == data;
    forall j | 0 <= j < s.nb
      ensures IsCodeword(ToFields(ReadBlock(s, words, j)) + ToFields(ReadEcc(s, words, j)), s.deg)
    {
      BlockRead(s, words, blocks, eccs, j);
      BlockWithEcc(blocks[j], s.deg);
    }
  }

  lemma CapIs(s: Shape)
    requires s.Valid()
    ensures s.Cap() == s.Start(s.nb)
  {}

  lemma EccLengths(s: Shape, blocks: seq<seq<byte>>, eccs: seq<seq<byte>>)
    requires s.Valid() && |blocks| == s.nb && |eccs| == s.nb
      && forall j :: 0 <= j < s.nb ==> eccs[j] == EccOf(blocks[j], s.deg)
    ensures s.deg >= 1 && forall j :: 0 <= j < s.nb ==> |eccs[j]| == s.deg
  {
    hide Remainder, Generator;
  }

  lemma BlockRead(s: Shape, words: seq<byte>, blocks: seq<seq<byte>>, eccs: seq<seq<byte>>, j: nat)
    requires s.Valid() && |blocks| == s.nb && |eccs| == s.nb && j < s.nb && |words| == s.raw
    requires |blocks[j]| == s.Len(j) && |eccs[j]| == s.deg
    requires forall i :: 0 <= i < s.Len(j) ==> s.At(i, j) < s.raw && words[s.At(i, j)] == blocks[j][i]
    requires forall i :: 0 <= i < s.deg ==> s.EccAt(i, j) < s.raw && words[s.EccAt(i, j)] == eccs[j][i]
    ensures ReadBlock(s, words, j) == blocks[j] && ReadEcc(s, words, j) == eccs[j]
  {
    hide Shape.Valid, Shape.At, Shape.EccAt, Shape.Len;
  }

  lemma BlockWithEcc(block: seq<byte>, deg: nat)
    requires deg >= 1
    ensures IsCodeword(ToFields(block) + ToFields(EccOf(block, deg)), deg)
  {
    hide IsCodeword, Remainder, Generator, ToFields, FromFields;
    ToFieldsInverse(Remainder(ToFields(block), Generator(deg)[1..]));
    BlockIsCodeword(ToFields(block), deg);
  }

  // ---- The encoder ----

  datatype Symbol = Symbol(version: nat, shape: Shape, g: Grid)

  ghost predicate WellSized(sym: Symbol, fn: Grid) {
    sym.version >= 1 && sym.shape.Valid() && Square(sym.g, SizeOf(sym.version)) && Square(fn, SizeOf(sym.version))
  }

  /** A reader of the symbol gets these bytes, whichever copy of the format it goes by. */
  ghost predicate ReadsAs(sym: Symbol, fn: Grid, bytes: seq<byte>) {
    WellSized(sym, fn)
    && forall first :: DecodeSymbol(sym.g, fn, sym.version, sym.shape, first) == Some(bytes)
  }

  /** A reader of the symbol finds every block a codeword. */
  ghost predicate BlocksSound(sym: Symbol, fn: Grid) {
    WellSized(sym, fn)
    && forall first :: SoundBy(sym, fn, first)
  }

  ghost predicate SoundBy(sym: Symbol, fn: Grid, first: bool)
    requires WellSized(sym, fn)
  {
    var words := SymbolWords(sym.g, fn, sym.version, sym.shape.raw, first);
    words.Some? && BlocksAreCodewords(sym.shape, words.value)
  }

  /** The smallest version that holds the bytes, and a symbol of it that reads as them, its
      function patterns as they should be; none only when no version holds the bytes. */
  method QrMatrixOf(bytes: seq<byte>, score: Grid -> int) returns (r: Option<Symbol>)
    ensures r == None <==> |bytes| > BYTES[40]
    ensures r.Some? ==>
      var v := r.value.version;
      1 <= v <= 40 && |bytes| <= BYTES[v] && (v > 1 ==> |bytes| > BYTES[v - 1]) && IsShapeOf(r.value.shape, v)
    ensures r.Some? ==> ReadsAs(r.value, FunctionMap(r.value.version), bytes)
    ensures r.Some? ==> BlocksSound(r.value, FunctionMap(r.value.version))
    ensures r.Some? ==>
      var size := SizeOf(r.value.version);
      Square(r.value.g, size) && PatternsDrawn(r.value.version, r.value.g) && r.value.g[size - 8][8]
  {
    hide ECC, BLK, BYTES, Raw, Capacity, SoundVersion, Holds, ReadsAs, BlocksSound, IsShapeOf, FunctionMap,
        PatternsDrawn, BitsOfBytes, Message, Stream, DecodeData, ReadData, BlocksAreCodewords, SymbolWords, Shape.Valid,
        Shape.Cap;
    var version := ChooseVersion(|bytes|);
    ChosenMeaning(|bytes|, version);
    if version == None {
      return None;
    }
    var v := version.value;
    EveryVersionSound(v);
    var s := VersionShape(v);
    ShapeValid(s, v);
    var data := EncodeData(bytes, v);
    var words := Codewords(data, s);
    MessageFirst(data, bytes, v);
    RawIsShape(s, v);
    var g := Draw(words, v, score);
    SymbolReads(Symbol(v, s, g), FunctionMap(v), bytes, data, words);
    return Some(Symbol(v, s, g));
  }

  /** The smallest version, by the standard's capacities. */
  lemma ChosenMeaning(n: nat, version: Option<nat>)
    requires version == None ==> forall v :: 1 <= v <= 40 ==> !Holds(v, n)
    requires version.Some? ==> 1 <= version.value <= 40 && Holds(version.value, n)
    requires version.Some? ==> forall v :: 1 <= v < version.value ==> !Holds(v, n)
    ensures version == None <==> n > BYTES[40]
    ensures version.Some? ==>
      n <= BYTES[version.value] && (version.value > 1 ==> n > BYTES[version.value - 1])
  {
    hide Holds, BYTES;
    HoldsMeaning(40, n);
    if version.Some? {
      var v := version.value;
      HoldsMeaning(v, n);
      if v > 1 { HoldsMeaning(v - 1, n); }
      if v < 40 { BytesRise(v, 40); }
    }
  }

  function VersionShape(v: nat): (s: Shape)
    requires 1 <= v <= 40 && SoundVersion(v)
    ensures IsShapeOf(s, v)
  {
    Shape(Raw(v), BLK[v], ECC[v])
  }

  lemma RawIsShape(s: Shape, v: nat)
    requires 1 <= v <= 40 && IsShapeOf(s, v)
    ensures s.raw == Raw(v)
  {
    hide ECC, BLK, Raw;
  }

  lemma SymbolReads(sym: Symbol, fn: Grid, bytes: seq<byte>, data: seq<byte>, words: seq<byte>)
    requires WellSized(sym, fn) && |words| == sym.shape.raw
    requires ReadData(sym.shape, words, sym.shape.nb) == data && BlocksAreCodewords(sym.shape, words)
    requires forall first :: SymbolWords(sym.g, fn, sym.version, sym.shape.raw, first) == Some(words)
    requires DecodeData(data, sym.version) == Some(bytes)
    ensures ReadsAs(sym, fn, bytes) && BlocksSound(sym, fn)
  {
    hide SymbolWords, BlocksAreCodewords, DecodeData, ReadData, Shape.Valid;
  }

  lemma MessageFirst(data: seq<byte>, bytes: seq<byte>, v: nat)
    requires 1 <= v <= 40 && Holds(v, |bytes|) && |data| == Capacity(v) && |Message(bytes, v)| <= Capacity(v) * 8
    requires BitsOfBytes(data) == Stream(Message(bytes, v), Capacity(v) * 8)
    ensures DecodeData(data, v) == Some(bytes)
  {
    hide ECC, BLK, Raw, Capacity, Holds, Message, DecodeData;
    var m := Message(bytes, v);
    FillAligns(|m|, Capacity(v) * 8);
    assert BitsOfBytes(data)[..|m|] == m;
    DecodeMessage(data, bytes, v);
  }

  /** The function patterns, and the codewords on what they leave, under the mask that scores
      lowest. */
  method Draw(words: seq<byte>, v: nat, score: Grid -> int) returns (g: Grid)
    requires 1 <= v <= 40 && |words| == Raw(v)
    ensures Square(g, SizeOf(v)) && PatternsDrawn(v, g) && g[SizeOf(v) - 8][8]
    ensures forall first :: SymbolWords(g, FunctionMap(v), v, |words|, first) == Some(words)
  {
    hide FreeBefore, PlacedTo, Candidate, FormatReserved, SymbolWords, FunctionMap, PatternsDrawn, RawModules, Marked,
        VersionDrawn;
    var size := SizeOf(v);
    var matrix := new Matrix(size);
    matrix.DrawPatterns(v);
    ghost var fn, start := matrix.fn, matrix.m;
    matrix.Place(words);
    ghost var placed := matrix.m;
    var best := matrix.ChooseMask(score);
    g := matrix.m;
    PatternsLeft(v, words, start, placed, best);
    VersionLeft(v, g);
    RoomFor(v);
    DrawnReadsBack(words, v, start, placed, best);
  }

  lemma VersionLeft(v: nat, g: Grid)
    requires 1 <= v <= 40 && Square(g, SizeOf(v)) && PatternsDrawn(v, g)
    ensures VersionDrawn(v, g)
  {}

  lemma RoomFor(v: nat)
    requires 1 <= v <= 40
    ensures IsSize(SizeOf(v)) && FreeBefore(SizeOf(v), FunctionMap(v), Strips(SizeOf(v)), 0) >= 8 * Raw(v)
  {
    hide FreeBefore, FunctionMap, RawModules;
    FreeModules(v);
  }

  /** Codewords, masks and formats leave the other patterns alone. */
  lemma PatternsLeft(v: nat, words: seq<byte>, start: Grid, placed: Grid, best: nat)
    requires 1 <= v <= 40 && best < 8 && Square(start, SizeOf(v)) && Square(placed, SizeOf(v))
      && PatternsDrawn(v, start)
    requires PlacedTo(SizeOf(v), FunctionMap(v), start, words, placed, Strips(SizeOf(v)), 0)
    ensures PatternsDrawn(v, Candidate(SizeOf(v), FunctionMap(v), placed, best))
  {
    hide FixedDrawn, VersionDrawn, IsFixed, IsVersion, IsFormat, DrawFormat, Candidate;
    var size, fn := SizeOf(v), FunctionMap(v);
    var g := Candidate(size, fn, placed, best);
    CandidateIs(size, fn, placed, best);
    forall x, y | 0 <= x < size && 0 <= y < size && (IsFixed(v, x, y) || IsVersion(v, x, y))
      ensures g[y][x] == start[y][x]
    {
      ModuleLeft(v, words, start, placed, best, x, y);
    }
    FixedKept(v, start, g);
    VersionKept(v, start, g);
  }

  lemma ModuleLeft(v: nat, words: seq<byte>, start: Grid, placed: Grid, best: nat, x: nat, y: nat)
    requires 1 <= v <= 40 && best < 8 && Square(start, SizeOf(v)) && Square(placed, SizeOf(v))
    requires PlacedTo(SizeOf(v), FunctionMap(v), start, words, placed, Strips(SizeOf(v)), 0)
    requires x < SizeOf(v) && y < SizeOf(v) && (IsFixed(v, x, y) || IsVersion(v, x, y))
    ensures DrawFormat(SizeOf(v), best, Flipped(SizeOf(v), FunctionMap(v), placed, best), 31)[y][x] == start[y][x]
  {
    hide IsFinder, IsAlignment, IsVersion, IsFormat, DrawFormat, FreeBefore, WordBit, Mask, StripOf, StepOf;
    var size, fn := SizeOf(v), FunctionMap(v);
    if IsFixed(v, x, y) { FixedAlone(v, x, y); }
    if IsVersion(v, x, y) { VersionAlone(v, x, y); }
    assert fn[y][x];
    var flipped := Flipped(size, fn, placed, best);
    DrawPoint(size, best, flipped, flipped, x, y);
    assert placed[y][x] == Expected(size, fn, start, words, x, y, Strips(size), 0);
  }

  lemma DrawnReadsBack(words: seq<byte>, v: nat, start: Grid, placed: Grid, best: nat)
    requires 1 <= v <= 40 && best < 8 && Square(start, SizeOf(v)) && Square(placed, SizeOf(v))
    requires FormatReserved(SizeOf(v), FunctionMap(v))
    requires PlacedTo(SizeOf(v), FunctionMap(v), start, words, placed, Strips(SizeOf(v)), 0)
    requires FreeBefore(SizeOf(v), FunctionMap(v), Strips(SizeOf(v)), 0) >= 8 * |words|
    requires VersionDrawn(v, Candidate(SizeOf(v), FunctionMap(v), placed, best))
    ensures var g := Candidate(SizeOf(v), FunctionMap(v), placed, best);
            g[SizeOf(v) - 8][8]
            && forall first :: SymbolWords(g, FunctionMap(v), v, |words|, first) == Some(words)
  {
    hide FreeBefore, Candidate, FormatReserved, ReadWords, ReadFormat, ReadVersion, FunctionMap, PlacedTo, VersionDrawn,
        SymbolWords, DrawFormat, Flipped;
    var size, fn := SizeOf(v), FunctionMap(v);
    var g := Candidate(size, fn, placed, best);
    CandidateIs(size, fn, placed, best);
    DarkDrawn(size, best, Flipped(size, fn, placed, best));
    WordsReadBack(words, size, fn, start, placed, best);
    forall first ensures SymbolWords(g, fn, v, |words|, first) == Some(words) {
      FormatReads(size, best, Flipped(size, fn, placed, best), first);
      if v >= 7 { VersionReads(v, g, first); }
      WordsFound(g, fn, v, words, best, first);
    }
  }

  lemma WordsFound(g: Grid, fn: Grid, v: nat, words: seq<byte>, mask: nat, first: bool)
    requires Square(g, SizeOf(v)) && Square(fn, SizeOf(v)) && v >= 1 && mask < 8
    requires ReadFormat(g, SizeOf(v), first) == Some((M, mask))
    requires v >= 7 ==> ReadVersion(g, SizeOf(v), first) == Some(v)
    requires ReadWords(g, fn, SizeOf(v), mask, |words|) == words
    ensures SymbolWords(g, fn, v, |words|, first) == Some(words)
  {
    hide ReadFormat, ReadVersion, ReadWords;
  }

  lemma DarkDrawn(size: nat, mask: nat, g: Grid)
    requires size >= 21 && mask < 8 && Square(g, size)
    ensures DrawFormat(size, mask, g, 31)[size - 8][8]
  {
    hide DrawFormat, FormatBit, IsFormat;
    DrawnFormat(size, mask, g, 31);
    assert FormatCell(size, 30) == Cell(8, size - 8) && FormatValue(mask, 30);
  }

  lemma WordsReadBack(words: seq<byte>, size: nat, fn: Grid, start: Grid, placed: Grid, best: nat)
    requires IsSize(size) && best < 8
    requires Square(fn, size) && Square(start, size) && FormatReserved(size, fn)
    requires PlacedTo(size, fn, start, words, placed, Strips(size), 0)
    requires FreeBefore(size, fn, Strips(size), 0) >= 8 * |words|
    ensures Square(placed, size) && ReadWords(Candidate(size, fn, placed, best), fn, size, best, |words|) == words
  {
    hide FreeBefore, Candidate, FormatReserved, ReadBits, WordBit, BytesOfBits, Expected;
    assert Square(placed, size);
    var g := Candidate(size, fn, placed, best);
    ReadBackPlaced(size, fn, start, words, placed, best, Strips(size), 0);
    var bits := ReadBits(size, fn, g, best, Strips(size), 0);
    WordBits(words);
    assert bits[..8 * |words|] == BitsOfBytes(words);
    BytesRoundTrip(words);
  }

  lemma {:induction false} WordBits(words: seq<byte>)
    ensures forall i :: 0 <= i < 8 * |words| ==> BitsOfBytes(words)[i] == WordBit(words, i)
  {
    hide Pow2, BitsOf;
    if words != [] {
      var n := |words| - 1;
      var rest := words[..n];
      WordBits(rest);
      forall i | 0 <= i < 8 * |words| ensures BitsOfBytes(words)[i] == WordBit(words, i) {
        if i < 8 * n {
          EarlierWord(words, i);
        } else {
          BitOf(words[n], 8, i - 8 * n);
          LastWord(words, i);
        }
      }
    }
  }

  lemma EarlierWord(words: seq<byte>, i: nat)
    requires words != [] && i < 8 * (|words| - 1)
    ensures WordBit(words, i) == WordBit(words[..|words| - 1], i)
  {
    hide Pow2;
  }

  lemma LastWord(words: seq<byte>, i: nat)
    requires words != [] && 8 * (|words| - 1) <= i < 8 * |words|
    ensures var t := i - 8 * (|words| - 1);
            Pow2(7 - t) >= 1 && WordBit(words, i) == (words[|words| - 1] / Pow2(7 - t) % 2 == 1)
  {
    hide Pow2;
    assert i / 8 == |words| - 1 && i % 8 == i - 8 * (|words| - 1);
  }

  lemma {:induction false} BitOf(v: nat, n: nat, t: nat)
    requires t < n
    ensures Pow2(n - 1 - t) >= 1 && BitsOf(v, n)[t] == (v / Pow2(n - 1 - t) % 2 == 1)
  {
    if t < n - 1 {
      BitOf(v / 2, n - 1, t);
      DivSwap(v, Pow2(n - 2 - t));
    }
  }

  lemma DivSwap(v: nat, p: nat)
    requires p >= 1
    ensures v / (2 * p) == v / 2 / p
  {
    var h := v / 2;
    assert h == h / p * p + h % p;
    assert v == h / p * (2 * p) + (2 * (h % p) + v % 2);
    DivUnique(v, 2 * p, h / p, 2 * (h % p) + v % 2);
  }
}
