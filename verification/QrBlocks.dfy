/** Blocks and interleaving (qrMatrix in inbound_subscription.py; section 7.6 of
    ISO/IEC 18004:2015): the data cut into blocks, each with its error correction, laid out
    column by column, and read back by position. */
module QrBlocks {
  import opened ReedSolomon
  import opened QrStream

  /** raw codewords in nb blocks, deg of each for error correction. */
  datatype Shape = Shape(raw: nat, nb: nat, deg: nat) {
    ghost predicate Valid() {
      nb >= 1 && deg >= 1 && raw / nb > deg
    }

    /** Data bytes of a short block; a long one has one more. */
    function Short(): nat
      requires Valid()
    {
      raw / nb - deg
    }

    function ShortBlocks(): (n: nat)
      requires Valid()
      ensures 1 <= n <= nb && nb * (Short() + deg) + (nb - n) == raw
    {
      nb - raw % nb
    }

    function Len(j: nat): nat
      requires Valid()
    {
      Short() + if j < ShortBlocks() then 0 else 1
    }

    /** Where block j starts in the data; Start(nb) is where the data ends. */
    function Start(j: nat): nat
      requires Valid()
    {
      j * Short() + if j < ShortBlocks() then 0 else j - ShortBlocks()
    }

    function Cap(): nat
      requires Valid()
    {
      Start(nb)
    }

    /** Where byte i of data block j stands among the codewords. */
    function At(i: nat, j: nat): nat
      requires Valid() && j < nb && i < Len(j)
    {
      if i < Short() then i * nb + j else Short() * nb + (j - ShortBlocks())
    }

    /** Where byte i of the error correction of block j stands. */
    function EccAt(i: nat, j: nat): nat
      requires Valid()
    {
      Cap() + i * nb + j
    }
  }

  lemma BlocksFillCapacity(s: Shape)
    requires s.Valid()
    ensures s.Cap() == s.raw - s.nb * s.deg
  {
    assert s.nb * (s.Short() + s.deg) == s.nb * s.Short() + s.nb * s.deg;
  }

  lemma StartSteps(s: Shape, j: nat)
    requires s.Valid()
    ensures s.Start(0) == 0 && s.Start(j + 1) == s.Start(j) + s.Len(j)
  {
    assert (j + 1) * s.Short() == j * s.Short() + s.Short();
  }

  lemma {:induction false} StartMonotone(s: Shape, j: nat, k: nat)
    requires s.Valid() && j <= k
    ensures s.Start(j) <= s.Start(k)
    decreases k - j
  {
    if j < k {
      StartSteps(s, j);
      StartMonotone(s, j + 1, k);
    }
  }

  /** The blocks hold the data, in order. */
  ghost predicate Splits(s: Shape, data: seq<byte>, blocks: seq<seq<byte>>)
    requires s.Valid() && |data| == s.Cap()
  {
    |blocks| == s.nb
    && forall j :: 0 <= j < s.nb ==> |blocks[j]| == s.Len(j) && s.Start(j) + s.Len(j) <= |data|
                                     && blocks[j] == data[s.Start(j)..s.Start(j) + s.Len(j)]
  }

  function ToField(b: byte): bv8 { b as bv8 }

  function FromField(v: bv8): byte { v as int }

  function ToFields(bytes: seq<byte>): (r: Poly)
    ensures |r| == |bytes|
  {
    seq(|bytes|, i requires 0 <= i < |bytes| => ToField(bytes[i]))
  }

  function FromFields(p: Poly): (r: seq<byte>)
    ensures |r| == |p|
  {
    seq(|p|, i requires 0 <= i < |p| => FromField(p[i]))
  }

  /** The error correction bytes of a block. */
  function EccOf(block: seq<byte>, deg: nat): (r: seq<byte>)
    requires deg >= 1
    ensures |r| == deg
  {
    FromFields(Remainder(ToFields(block), Generator(deg)[1..]))
  }

  method MakeBlocks(data: seq<byte>, s: Shape) returns (blocks: seq<seq<byte>>, eccs: seq<seq<byte>>)
    requires s.Valid() && |data| == s.Cap()
    ensures Splits(s, data, blocks)
    ensures |eccs| == s.nb && forall j :: 0 <= j < s.nb ==> eccs[j] == EccOf(blocks[j], s.deg)
  {
    hide Remainder, Generator, ToFields, FromFields, Shape.Len, Shape.Start;
    var gen := GeneratorLoop(s.deg);
    var nshort := s.nb - s.raw % s.nb;
    var slen := s.raw / s.nb;
    blocks, eccs := [], [];
    var at := 0;
    StartSteps(s, 0);
    for i := 0 to s.nb
      invariant |blocks| == i && |eccs| == i && at == s.Start(i)
      invariant forall j :: 0 <= j < i ==> |blocks[j]| == s.Len(j) && s.Start(j) + s.Len(j) <= |data|
                                           && blocks[j] == data[s.Start(j)..s.Start(j) + s.Len(j)]
      invariant forall j :: 0 <= j < i ==> eccs[j] == EccOf(blocks[j], s.deg)
    {
      StartSteps(s, i);
      StartMonotone(s, i + 1, s.nb);
      LenIs(s, i);
      var len := slen - s.deg + if i < nshort then 0 else 1;
      var d := data[at..at + len];
      at := at + len;
      var rem := RemainderLoop(ToFields(d), gen);
      blocks := blocks + [d];
      eccs := eccs + [FromFields(rem)];
    }
  }

  lemma LenIs(s: Shape, j: nat)
    requires s.Valid()
    ensures s.Len(j) == s.raw / s.nb - s.deg + if j < s.nb - s.raw % s.nb then 0 else 1
  {}

  /** Column by column: the i-th byte of every block that has one, then the same of the error
      correction. */
  method Interleave(s: Shape, blocks: seq<seq<byte>>, eccs: seq<seq<byte>>) returns (words: seq<byte>)
    requires s.Valid() && |blocks| == s.nb && |eccs| == s.nb
    requires forall j :: 0 <= j < s.nb ==> |blocks[j]| == s.Len(j) && |eccs[j]| == s.deg
    ensures |words| == s.raw
    ensures forall j, i :: 0 <= j < s.nb && 0 <= i < s.Len(j) ==>
      s.At(i, j) < s.raw && words[s.At(i, j)] == blocks[j][i]
    ensures forall j, i :: 0 <= j < s.nb && 0 <= i < s.deg ==>
      s.EccAt(i, j) < s.raw && words[s.EccAt(i, j)] == eccs[j][i]
  {
    var data := DataColumns(s, blocks);
    words := EccColumns(s, data, eccs);
    forall j, i | 0 <= j < s.nb && 0 <= i < s.Len(j) ensures s.At(i, j) < s.raw && words[s.At(i, j)] == blocks[j][i] {
      assert s.At(i, j) < |data| && words[s.At(i, j)] == data[s.At(i, j)];
    }
  }

  method DataColumns(s: Shape, blocks: seq<seq<byte>>) returns (words: seq<byte>)
    requires s.Valid() && |blocks| == s.nb
    requires forall j :: 0 <= j < s.nb ==> |blocks[j]| == s.Len(j)
    ensures |words| == s.Cap()
    ensures forall j, i :: 0 <= j < s.nb && 0 <= i < s.Len(j) ==>
      s.At(i, j) < |words| && words[s.At(i, j)] == blocks[j][i]
  {
    hide Shape.Valid, Shape.Short, Shape.ShortBlocks, Shape.At, Shape.Cap, Shape.Len;
    words := [];
    var short := s.Short();
    ghost var nshort := s.ShortBlocks();
    ColumnsStart(s);
    for i := 0 to short + 1
      invariant |words| == ColumnStart(s, i)
      invariant forall j, r :: 0 <= j < s.nb && 0 <= r < i && r < s.Len(j) ==>
        s.At(r, j) < |words| && words[s.At(r, j)] == blocks[j][r]
    {
      ghost var before := words;
      for j := 0 to s.nb
        invariant before <= words
        invariant |words| == |before| + RowOffset(s, i, j)
        invariant forall b :: 0 <= b < j && i < s.Len(b) ==> s.At(i, b) < |words| && words[s.At(i, b)] == blocks[b][i]
      {
        RowStep(s, i, j);
        if i < |blocks[j]| {
          words := words + [blocks[j][i]];
        }
      }
      ColumnStep(s, i);
    }
    LensFit(s);
  }

  /** Where column i starts. */
  ghost function ColumnStart(s: Shape, i: nat): int
    requires s.Valid()
  {
    i * s.nb - if i <= s.Short() then 0 else s.ShortBlocks()
  }

  /** How much of column i comes before block j. */
  ghost function RowOffset(s: Shape, i: nat, j: nat): int
    requires s.Valid()
  {
    if i < s.Short() then j else if j < s.ShortBlocks() then 0 else j - s.ShortBlocks()
  }

  lemma ColumnsStart(s: Shape)
    requires s.Valid()
    ensures ColumnStart(s, 0) == 0 && RowOffset(s, 0, 0) == 0 && ColumnStart(s, s.Short() + 1) == s.Cap()
    ensures forall i: nat :: RowOffset(s, i, 0) == 0
  {}

  lemma RowStep(s: Shape, i: nat, j: nat)
    requires s.Valid() && i <= s.Short() && j < s.nb
    ensures i < s.Len(j) ==> s.At(i, j) == ColumnStart(s, i) + RowOffset(s, i, j)
    ensures RowOffset(s, i, j + 1) == RowOffset(s, i, j) + if i < s.Len(j) then 1 else 0
  {}

  lemma ColumnStep(s: Shape, i: nat)
    requires s.Valid() && i <= s.Short()
    ensures ColumnStart(s, i + 1) == ColumnStart(s, i) + RowOffset(s, i, s.nb)
  {}

  lemma LensFit(s: Shape)
    requires s.Valid()
    ensures forall j: nat :: s.Len(j) <= s.Short() + 1
  {}

  method EccColumns(s: Shape, data: seq<byte>, eccs: seq<seq<byte>>) returns (words: seq<byte>)
    requires s.Valid() && |data| == s.Cap() && |eccs| == s.nb
    requires forall j :: 0 <= j < s.nb ==> |eccs[j]| == s.deg
    ensures |words| == s.raw && data <= words
    ensures forall j, i :: 0 <= j < s.nb && 0 <= i < s.deg ==>
      s.EccAt(i, j) < s.raw && words[s.EccAt(i, j)] == eccs[j][i]
  {
    hide Shape.Valid, Shape.EccAt;
    words := data;
    BlocksFillCapacity(s);
    EccStart(s);
    for i := 0 to s.deg
      invariant |words| == s.EccAt(i, 0) && data <= words
      invariant forall j, r :: 0 <= j < s.nb && 0 <= r < i ==>
        s.EccAt(r, j) < |words| && words[s.EccAt(r, j)] == eccs[j][r]
    {
      ghost var before := words;
      for j := 0 to s.nb
        invariant before <= words && |words| == s.EccAt(i, j)
        invariant forall b :: 0 <= b < j ==> s.EccAt(i, b) < |words| && words[s.EccAt(i, b)] == eccs[b][i]
      {
        EccStep(s, i, j);
        words := words + [eccs[j][i]];
      }
      EccRow(s, i);
    }
  }

  lemma EccStart(s: Shape)
    requires s.Valid()
    ensures s.EccAt(0, 0) == s.Cap() && s.EccAt(s.deg, 0) == s.raw
  {
    BlocksFillCapacity(s);
  }

  lemma EccStep(s: Shape, i: nat, j: nat)
    requires s.Valid() && j < s.nb
    ensures s.EccAt(i, j + 1) == s.EccAt(i, j) + 1
  {
    hide Shape.Cap;
  }

  lemma EccRow(s: Shape, i: nat)
    requires s.Valid()
    ensures s.EccAt(i + 1, 0) == s.EccAt(i, s.nb)
  {
    hide Shape.Cap;
    assert (i + 1) * s.nb == i * s.nb + s.nb;
  }

  // ---- A reader of the codewords ----

  function ReadBlock(s: Shape, words: seq<byte>, j: nat): (block: seq<byte>)
    requires s.Valid() && |words| == s.raw && j < s.nb
    ensures |block| == s.Len(j)
  {
    seq(s.Len(j), i requires 0 <= i < s.Len(j) => AtInside(s, i, j); words[s.At(i, j)])
  }

  lemma AtInside(s: Shape, i: nat, j: nat)
    requires s.Valid() && j < s.nb && i < s.Len(j)
    ensures s.At(i, j) < s.Cap() <= s.raw
  {
    hide Shape.Short, Shape.ShortBlocks;
    BlocksFillCapacity(s);
    RowsInside(i, j, s.nb, s.Short());
  }

  lemma RowsInside(i: nat, j: nat, nb: nat, rows: nat)
    requires j < nb
    ensures i < rows ==> i * nb + j < nb * rows
  {
    if i < rows {
      assert (i + 1) * nb <= rows * nb;
    }
  }

  /** The data of the first n blocks. */
  function ReadData(s: Shape, words: seq<byte>, n: nat): seq<byte>
    requires s.Valid() && |words| == s.raw && n <= s.nb
  {
    if n == 0 then [] else ReadData(s, words, n - 1) + ReadBlock(s, words, n - 1)
  }

  /** Interleaving can be undone: the reader gets the data back. */
  lemma {:induction false} DeinterleaveInverts(s: Shape, data: seq<byte>, blocks: seq<seq<byte>>, words: seq<byte>,
      n: nat)
    requires s.Valid() && |data| == s.Cap() && Splits(s, data, blocks) && |words| == s.raw && n <= s.nb
    requires forall j, i :: 0 <= j < s.nb && 0 <= i < s.Len(j) ==>
      s.At(i, j) < s.raw && words[s.At(i, j)] == blocks[j][i]
    ensures s.Start(n) <= |data| && ReadData(s, words, n) == data[..s.Start(n)]
    decreases n
  {
    hide Shape.Valid, Shape.Short, Shape.ShortBlocks, Shape.Len, Shape.Start, Shape.At, ReadBlock;
    StartSteps(s, 0);
    StartMonotone(s, n, s.nb);
    if n > 0 {
      DeinterleaveInverts(s, data, blocks, words, n - 1);
      StartSteps(s, n - 1);
      BlockBack(s, blocks[n - 1], words, n - 1);
    }
  }

  lemma BlockBack(s: Shape, block: seq<byte>, words: seq<byte>, j: nat)
    requires s.Valid() && |words| == s.raw && j < s.nb && |block| == s.Len(j)
    requires forall i :: 0 <= i < s.Len(j) ==> s.At(i, j) < s.raw && words[s.At(i, j)] == block[i]
    ensures ReadBlock(s, words, j) == block
  {
    hide Shape.Valid, Shape.Len, Shape.At;
  }
}
