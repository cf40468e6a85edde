/** The matrix (qrMatrix in inbound_subscription.py; sections 7.7 to 7.9 of ISO/IEC
    18004:2015): codewords placed in a zigzag over the free modules, the eight masks tried and
    the best kept, the format bits that say which; and how a reader gets the codewords back. */
module QrLayout {
  import opened Arithmetic
  import opened QrStream

  type Grid = seq<seq<bool>>

  ghost predicate Square(g: Grid, size: nat) {
    |g| == size && forall y :: 0 <= y < size ==> |g[y]| == size
  }

  /** The size of a version's matrix. */
  predicate IsSize(size: nat) {
    size >= 21 && size % 4 == 1
  }

  // ---- The zigzag ----

  datatype Cell = Cell(x: nat, y: nat)

  /** The right column of the s-th strip: from the right edge by twos, past column 6. */
  function StripX(size: nat, s: nat): int {
    var x := size - 1 - 2 * s;
    if x <= 6 then x - 1 else x
  }

  function Strips(size: nat): nat { size / 2 }

  /** Upwards in every other strip. */
  predicate Upward(x: int) {
    (x + 1) / 2 % 2 == 0
  }

  /** The module at step k of strip s: both columns of a row, the right one first. */
  function ZigzagAt(size: nat, s: nat, k: nat): Cell
    requires IsSize(size) && s < Strips(size) && k < 2 * size
  {
    var x := StripX(size, s);
    StripBounds(size, s);
    Cell(x - k % 2, if Upward(x) then size - 1 - k / 2 else k / 2)
  }

  lemma StripBounds(size: nat, s: nat)
    requires IsSize(size) && s < Strips(size)
    ensures 1 <= StripX(size, s) < size && StripX(size, s) != 6 && StripX(size, s) != 7
  {}

  /** The strip a column is in. */
  function StripOf(size: nat, x: nat): nat
    requires IsSize(size) && x < size && x != 6
  {
    if x > 6 then (size - 1 - x) / 2 else (size - 2 - x) / 2
  }

  /** The step of its strip a module comes at. */
  function StepOf(size: nat, c: Cell): nat
    requires IsSize(size) && c.x < size && c.x != 6 && c.y < size
  {
    var x := StripX(size, StripOf(size, c.x));
    2 * (if Upward(x) then size - 1 - c.y else c.y) + if c.x == x then 0 else 1
  }

  /** Every module outside column 6 is visited. */
  lemma ZigzagVisitsAll(size: nat, c: Cell)
    requires IsSize(size) && c.x < size && c.x != 6 && c.y < size
    ensures StripOf(size, c.x) < Strips(size) && StepOf(size, c) < 2 * size
    ensures ZigzagAt(size, StripOf(size, c.x), StepOf(size, c)) == c
  {}

  /** No module is visited twice, and none in column 6 or outside the matrix. */
  lemma ZigzagVisitsOnce(size: nat, s: nat, k: nat)
    requires IsSize(size) && s < Strips(size) && k < 2 * size
    ensures var c := ZigzagAt(size, s, k);
            c.x < size && c.x != 6 && c.y < size && StripOf(size, c.x) == s && StepOf(size, c) == k
  {}

  // ---- What the free modules hold ----

  /** Bit i of the codewords, the highest of each byte first. */
  function WordBit(words: seq<byte>, i: nat): bool
    requires i < 8 * |words|
  {
    words[i / 8] / Pow2(7 - i % 8) % 2 == 1
  }

  /** The free modules the zigzag visits before step k of strip s. */
  function FreeBefore(size: nat, fn: Grid, s: nat, k: nat): nat
    requires IsSize(size) && Square(fn, size) && s <= Strips(size) && k <= 2 * size && (s == Strips(size) ==> k == 0)
    decreases s, k
  {
    if k > 0 then
      var c := ZigzagAt(size, s, k - 1);
      FreeBefore(size, fn, s, k - 1) + if fn[c.y][c.x] then 0 else 1
    else if s > 0 then FreeBefore(size, fn, s - 1, 2 * size)
    else 0
  }

  predicate Before(s: nat, k: nat, s': nat, k': nat) {
    s < s' || (s == s' && k < k')
  }

  /** The module at x, y once the zigzag has come to step k of strip s. */
  function Expected(size: nat, fn: Grid, start: Grid, words: seq<byte>, x: nat, y: nat, s: nat, k: nat): bool
    requires IsSize(size) && Square(fn, size) && Square(start, size) && x < size && y < size
  {
    if x == 6 || fn[y][x] then start[y][x]
    else
      var c := Cell(x, y);
      ZigzagVisitsAll(size, c);
      var n := FreeBefore(size, fn, StripOf(size, x), StepOf(size, c));
      if Before(StripOf(size, x), StepOf(size, c), s, k) && n < 8 * |words| then WordBit(words, n) else start[y][x]
  }

  /** g is start with the codewords placed up to step k of strip s. */
  ghost predicate PlacedTo(size: nat, fn: Grid, start: Grid, words: seq<byte>, g: Grid, s: nat, k: nat)
    requires IsSize(size) && Square(fn, size) && Square(start, size)
  {
    Square(g, size)
    && forall x, y :: 0 <= x < size && 0 <= y < size ==> g[y][x] == Expected(size, fn, start, words, x, y, s, k)
  }

  function Update(g: Grid, x: nat, y: nat, dark: bool): Grid
    requires y < |g| && x < |g[y]|
  {
    g[y := g[y][x := dark]]
  }

  /** One module of the zigzag: a free one takes the next bit. */
  lemma PlaceStep(size: nat, fn: Grid, start: Grid, words: seq<byte>, g: Grid, s: nat, k: nat)
    requires IsSize(size) && Square(fn, size) && Square(start, size) && s < Strips(size) && k < 2 * size
    requires PlacedTo(size, fn, start, words, g, s, k)
    ensures var c := ZigzagAt(size, s, k);
            var n := FreeBefore(size, fn, s, k);
            c.x < size && c.y < size
            && FreeBefore(size, fn, s, k + 1) == n + (if fn[c.y][c.x] then 0 else 1)
            && PlacedTo(size, fn, start, words,
                        if !fn[c.y][c.x] && n < 8 * |words| then Update(g, c.x, c.y, WordBit(words, n))
                        else g, s, k + 1)
  {
    hide FreeBefore, WordBit, ZigzagAt, StripOf, StepOf;
    var c := ZigzagAt(size, s, k);
    ZigzagVisitsOnce(size, s, k);
    var n := FreeBefore(size, fn, s, k);
    FreeStep(size, fn, s, k);
    var g' := if !fn[c.y][c.x] && n < 8 * |words| then Update(g, c.x, c.y, WordBit(words, n)) else g;
    forall x, y | 0 <= x < size && 0 <= y < size
      ensures g'[y][x] == Expected(size, fn, start, words, x, y, s, k + 1)
    {
      assert g[y][x] == Expected(size, fn, start, words, x, y, s, k);
      if x != 6 && Cell(x, y) != c {
        ZigzagVisitsAll(size, Cell(x, y));
      }
    }
  }

  lemma FreeStep(size: nat, fn: Grid, s: nat, k: nat)
    requires IsSize(size) && Square(fn, size) && s < Strips(size) && k < 2 * size
    ensures var c := ZigzagAt(size, s, k);
            c.x < size && c.y < size
            && FreeBefore(size, fn, s, k + 1) == FreeBefore(size, fn, s, k) + (if fn[c.y][c.x] then 0 else 1)
  {
    StripBounds(size, s);
  }

  /** Coming to the end of a strip is coming to the start of the next. */
  lemma NextStrip(size: nat, fn: Grid, start: Grid, words: seq<byte>, g: Grid, s: nat)
    requires IsSize(size) && Square(fn, size) && Square(start, size) && s < Strips(size)
    requires PlacedTo(size, fn, start, words, g, s, 2 * size)
    ensures PlacedTo(size, fn, start, words, g, s + 1, 0)
    ensures FreeBefore(size, fn, s + 1, 0) == FreeBefore(size, fn, s, 2 * size)
  {
    hide WordBit, ZigzagAt, StripOf, StepOf;
    forall x, y | 0 <= x < size && 0 <= y < size
      ensures g[y][x] == Expected(size, fn, start, words, x, y, s + 1, 0)
    {
      assert g[y][x] == Expected(size, fn, start, words, x, y, s, 2 * size);
      if x != 6 { ZigzagVisitsAll(size, Cell(x, y)); }
    }
  }

  // ---- Masks ----

  /** The eight mask patterns. */
  predicate Mask(k: nat, x: nat, y: nat)
    requires k < 8
  {
    if k == 0 then (x + y) % 2 == 0
    else if k == 1 then y % 2 == 0
    else if k == 2 then x % 3 == 0
    else if k == 3 then (x + y) % 3 == 0
    else if k == 4 then (x / 3 + y / 2) % 2 == 0
    else if k == 5 then x * y % 2 + x * y % 3 == 0
    else if k == 6 then (x * y % 2 + x * y % 3) % 2 == 0
    else ((x + y) % 2 + x * y % 3) % 2 == 0
  }

  /** Every free module under the mask turned over. */
  function Flipped(size: nat, fn: Grid, g: Grid, k: nat): (r: Grid)
    requires Square(fn, size) && Square(g, size) && k < 8
    ensures Square(r, size)
  {
    seq(size, y requires 0 <= y < size =>
      seq(size, x requires 0 <= x < size => if !fn[y][x] && Mask(k, x, y) then !g[y][x] else g[y][x]))
  }

  /** Masking twice is not masking. */
  lemma FlipTwice(size: nat, fn: Grid, g: Grid, k: nat)
    requires Square(fn, size) && Square(g, size) && k < 8
    ensures Flipped(size, fn, Flipped(size, fn, g, k), k) == g
  {
    hide Mask;
    var twice := Flipped(size, fn, Flipped(size, fn, g, k), k);
    forall y | 0 <= y < size ensures twice[y] == g[y] {}
  }

  // ---- Format bits ----

  function BchStep(r: bv32): bv32 { (r << 1) ^ ((r >> 9) * 0x537) }

  /** The fifteen format bits of level M (00) and a mask: both, ten check bits, and the pattern
      0x5412 over all. */
  function FormatWord(mask: bv32): bv32 {
    var r5 := BchStep(BchStep(BchStep(BchStep(BchStep(mask)))));
    var r := BchStep(BchStep(BchStep(BchStep(BchStep(r5)))));
    ((mask << 10) | r) ^ 0x5412
  }

  function MaskNumber(mask: nat): bv32
    requires mask < 8
  {
    mask as bv32
  }

  /** k times to the right. */
  function Shifted(w: bv32, k: nat): bv32
    decreases k
  {
    if k == 0 then w else Shifted(w >> 1, k - 1)
  }

  function FormatBit(mask: nat, k: nat): bool
    requires mask < 8 && k < 15
  {
    Shifted(FormatWord(MaskNumber(mask)), k) & 1 == 1
  }

  /** Where format bit k stands beside the corner finder. */
  function FirstCopy(k: nat): Cell
    requires k < 15
  {
    if k <= 5 then Cell(8, k)
    else if k == 6 then Cell(8, 7)
    else if k == 7 then Cell(8, 8)
    else if k == 8 then Cell(7, 8)
    else Cell(14 - k, 8)
  }

  /** And where its other copy does, along the two other finders. */
  function SecondCopy(size: nat, k: nat): Cell
    requires k < 15 && size >= 21
  {
    if k < 8 then Cell(size - 1 - k, 8) else Cell(8, size - 15 + k)
  }

  /** The module that is always dark. */
  function DarkModule(size: nat): Cell
    requires size >= 21
  {
    Cell(8, size - 8)
  }

  /** The i-th module the format draws: the first copy, the second, the dark one. */
  function FormatCell(size: nat, i: nat): Cell
    requires size >= 21 && i < 31
  {
    if i < 15 then FirstCopy(i) else if i < 30 then SecondCopy(size, i - 15) else DarkModule(size)
  }

  function FormatValue(mask: nat, i: nat): bool
    requires mask < 8 && i < 31
  {
    if i < 15 then FormatBit(mask, i) else if i < 30 then FormatBit(mask, i - 15) else true
  }

  lemma FormatCellsInside(size: nat, i: nat)
    requires size >= 21 && i < 31
    ensures FormatCell(size, i).x < size && FormatCell(size, i).y < size
  {}

  lemma FormatCellsDiffer(size: nat, i: nat, j: nat)
    requires size >= 21 && i < j < 31
    ensures FormatCell(size, i) != FormatCell(size, j)
  {}

  /** The first n modules of the format drawn over g. */
  function DrawFormat(size: nat, mask: nat, g: Grid, n: nat): (r: Grid)
    requires size >= 21 && mask < 8 && n <= 31 && Square(g, size)
    ensures Square(r, size)
  {
    if n == 0 then g else
      FormatCellsInside(size, n - 1);
      Update(DrawFormat(size, mask, g, n - 1), FormatCell(size, n - 1).x, FormatCell(size, n - 1).y,
             FormatValue(mask, n - 1))
  }

  /** Those modules marked as belonging to a function pattern. */
  function MarkFormat(size: nat, fn: Grid, n: nat): (r: Grid)
    requires size >= 21 && n <= 31 && Square(fn, size)
    ensures Square(r, size)
  {
    if n == 0 then fn else
      FormatCellsInside(size, n - 1);
      Update(MarkFormat(size, fn, n - 1), FormatCell(size, n - 1).x, FormatCell(size, n - 1).y, true)
  }

  ghost predicate IsFormat(size: nat, x: nat, y: nat, n: nat)
    requires size >= 21 && n <= 31
  {
    exists i :: 0 <= i < n && FormatCell(size, i) == Cell(x, y)
  }

  lemma {:induction false} DrawnFormat(size: nat, mask: nat, g: Grid, n: nat)
    requires size >= 21 && mask < 8 && n <= 31 && Square(g, size)
    ensures var r := DrawFormat(size, mask, g, n);
            (forall i :: 0 <= i < n ==> FormatCell(size, i).x < size && FormatCell(size, i).y < size
                                        && r[FormatCell(size, i).y][FormatCell(size, i).x] == FormatValue(mask, i))
            && forall x, y :: 0 <= x < size && 0 <= y < size && !IsFormat(size, x, y, n) ==> r[y][x] == g[y][x]
  {
    hide FormatCell, FormatValue;
    if n > 0 {
      DrawnFormat(size, mask, g, n - 1);
      forall i | 0 <= i < n
        ensures FormatCell(size, i).x < size && FormatCell(size, i).y < size
        ensures i < n - 1 ==> FormatCell(size, i) != FormatCell(size, n - 1)
      {
        FormatCellsInside(size, i);
        if i < n - 1 { FormatCellsDiffer(size, i, n - 1); }
      }
      forall x, y | 0 <= x < size && 0 <= y < size && !IsFormat(size, x, y, n)
        ensures DrawFormat(size, mask, g, n)[y][x] == g[y][x]
      {
        assert FormatCell(size, n - 1) != Cell(x, y);
        assert !IsFormat(size, x, y, n - 1);
      }
    }
  }

  lemma {:induction false} MarkedFormat(size: nat, fn: Grid, n: nat)
    requires size >= 21 && n <= 31 && Square(fn, size)
    ensures var r := MarkFormat(size, fn, n);
            forall x, y :: 0 <= x < size && 0 <= y < size ==> r[y][x] == (fn[y][x] || IsFormat(size, x, y, n))
  {
    hide FormatCell;
    if n > 0 {
      MarkedFormat(size, fn, n - 1);
      FormatCellsInside(size, n - 1);
      var c := FormatCell(size, n - 1);
      forall x, y | 0 <= x < size && 0 <= y < size
        ensures MarkFormat(size, fn, n)[y][x] == (fn[y][x] || IsFormat(size, x, y, n))
      {
        assert IsFormat(size, x, y, n) <==> IsFormat(size, x, y, n - 1) || c == Cell(x, y);
      }
    }
  }

  /** All of the format's modules belong to function patterns. */
  ghost predicate FormatReserved(size: nat, fn: Grid)
    requires size >= 21 && Square(fn, size)
  {
    forall x, y :: 0 <= x < size && 0 <= y < size && IsFormat(size, x, y, 31) ==> fn[y][x]
  }

  /** Drawing a format again reserves nothing new. */
  lemma MarkAgain(size: nat, fn: Grid)
    requires size >= 21 && Square(fn, size)
    ensures FormatReserved(size, MarkFormat(size, fn, 31))
    ensures FormatReserved(size, fn) ==> MarkFormat(size, fn, 31) == fn
  {
    hide IsFormat, MarkFormat;
    MarkedFormat(size, fn, 31);
    if FormatReserved(size, fn) {
      var r := MarkFormat(size, fn, 31);
      forall y | 0 <= y < size ensures r[y] == fn[y] {}
    }
  }

  /** What is drawn over the format's modules hides what was there; the rest shows through. */
  lemma DrawPoint(size: nat, mask: nat, a: Grid, b: Grid, x: nat, y: nat)
    requires size >= 21 && mask < 8 && Square(a, size) && Square(b, size) && x < size && y < size
    ensures IsFormat(size, x, y, 31) ==> DrawFormat(size, mask, a, 31)[y][x] == DrawFormat(size, mask, b, 31)[y][x]
    ensures !IsFormat(size, x, y, 31) ==> DrawFormat(size, mask, a, 31)[y][x] == a[y][x]
  {
    hide DrawFormat, FormatCell, FormatValue;
    DrawnFormat(size, mask, a, 31);
    DrawnFormat(size, mask, b, 31);
    if IsFormat(size, x, y, 31) {
      var i :| 0 <= i < 31 && FormatCell(size, i) == Cell(x, y);
    }
  }

  lemma DrawSame(size: nat, mask: nat, a: Grid, b: Grid)
    requires size >= 21 && mask < 8 && Square(a, size) && Square(b, size)
    requires forall x, y :: 0 <= x < size && 0 <= y < size && !IsFormat(size, x, y, 31) ==> a[y][x] == b[y][x]
    ensures DrawFormat(size, mask, a, 31) == DrawFormat(size, mask, b, 31)
  {
    hide DrawFormat, IsFormat;
    var p, q := DrawFormat(size, mask, a, 31), DrawFormat(size, mask, b, 31);
    forall y | 0 <= y < size ensures p[y] == q[y] {
      forall x | 0 <= x < size ensures p[y][x] == q[y][x] {
        DrawPoint(size, mask, a, b, x, y);
        DrawPoint(size, mask, b, a, x, y);
      }
    }
  }

  // ---- Trying a mask ----

  /** The matrix with mask k applied and named. */
  function Candidate(size: nat, fn: Grid, base: Grid, k: nat): (r: Grid)
    requires size >= 21 && Square(fn, size) && Square(base, size) && k < 8
    ensures Square(r, size)
  {
    DrawFormat(size, k, Flipped(size, fn, base, k), 31)
  }

  /** The format of an earlier trial does not show in a later one, and the second flip takes
      the mask off again. */
  lemma TrialsIndependent(size: nat, fn: Grid, base: Grid, earlier: nat, k: nat)
    requires size >= 21 && Square(fn, size) && Square(base, size) && FormatReserved(size, fn) && earlier < 8 && k < 8
    ensures DrawFormat(size, k, Flipped(size, fn, DrawFormat(size, earlier, base, 31), k), 31)
      == Candidate(size, fn, base, k)
    ensures Flipped(size, fn, Candidate(size, fn, base, k), k) == DrawFormat(size, k, base, 31)
  {
    hide IsFormat, DrawFormat, FormatCell, FormatValue, Mask;
    var drawn := DrawFormat(size, earlier, base, 31);
    forall x, y | 0 <= x < size && 0 <= y < size && !IsFormat(size, x, y, 31) ensures drawn[y][x] == base[y][x] {
      DrawPoint(size, earlier, base, base, x, y);
    }
    DrawSame(size, k, Flipped(size, fn, drawn, k), Flipped(size, fn, base, k));
    var flipped := Flipped(size, fn, base, k);
    var back, want := Flipped(size, fn, Candidate(size, fn, base, k), k), DrawFormat(size, k, base, 31);
    forall y | 0 <= y < size ensures back[y] == want[y] {
      forall x | 0 <= x < size ensures back[y][x] == want[y][x] {
        DrawPoint(size, k, flipped, base, x, y);
        DrawPoint(size, k, base, flipped, x, y);
      }
    }
  }

  // ---- Reading back ----

  /** The mask conditions as a reader has them (table 10 of ISO/IEC 18004:2015), by columns and
      rows: which modules it turns back. */
  predicate Covered(mask: nat, x: nat, y: nat)
    requires mask < 8
  {
    match mask
    case 0 => x % 2 == y % 2
    case 1 => y % 2 == 0
    case 2 => x % 3 == 0
    case 3 => (x - 2 * y) % 3 == 0
    case 4 => x % 6 < 3 <==> y % 4 < 2
    case 5 => x * y % 6 == 0
    case 6 => x * y % 6 < 3
    case 7 => x % 2 == y % 2 <==> x * y % 3 != 1
  }

  lemma MaskCovers(mask: nat, x: nat, y: nat)
    requires mask < 8
    ensures Mask(mask, x, y) <==> Covered(mask, x, y)
  {
    hide Mask, Covered;
    if mask < 5 { ByRemainder(mask, x, y); } else { ByProduct(mask, x, y, x * y); }
  }

  lemma ByRemainder(mask: nat, x: nat, y: nat)
    requires mask < 5
    ensures Mask(mask, x, y) <==> Covered(mask, x, y)
  {
    if mask == 0 { Parity(x, y); }
    if mask == 3 { Thirds(x, y); }
    if mask == 4 {
      Parity(x / 3, y / 2);
      HalfOfSix(x);
      HalfOfFour(y);
    }
  }

  lemma ByProduct(mask: nat, x: nat, y: nat, t: nat)
    requires 5 <= mask < 8 && t == x * y
    ensures Mask(mask, x, y) <==> Covered(mask, x, y)
  {
    Parity(x, y);
    Sixth(t, t / 6, t % 6);
  }

  lemma Parity(x: nat, y: nat)
    ensures (x + y) % 2 == 0 <==> x % 2 == y % 2
  {}

  lemma Thirds(x: nat, y: nat)
    ensures (x + y) % 3 == 0 <==> (x - 2 * y) % 3 == 0
  {
    var q := (x + y) / 3;
    assert x - 2 * y == 3 * (q - y) + (x + y) % 3;
  }

  lemma HalfOfSix(x: nat)
    ensures x / 3 % 2 == 0 <==> x % 6 < 3
  {
    var q, r := x / 6, x % 6;
    assert x == 6 * q + r;
    if r < 3 { assert x / 3 == 2 * q; } else { assert x / 3 == 2 * q + 1; }
  }

  lemma HalfOfFour(y: nat)
    ensures y / 2 % 2 == 0 <==> y % 4 < 2
  {
    var q, r := y / 4, y % 4;
    assert y == 4 * q + r;
    if r < 2 { assert y / 2 == 2 * q; } else { assert y / 2 == 2 * q + 1; }
  }

  lemma Sixth(t: nat, q: nat, r: nat)
    requires t == 6 * q + r && r < 6
    ensures t % 6 == r && t % 2 == r % 2 && t % 3 == r % 3
  {
    assert t == 2 * (3 * q) + r && t == 3 * (2 * q) + r;
    if r == 0 {} else if r == 1 {} else if r == 2 {} else if r == 3 {} else if r == 4 {} else {}
  }

  /** What a reader that knows the mask takes from the free modules, in zigzag order, before
      step k of strip s. */
  function ReadBits(size: nat, fn: Grid, g: Grid, mask: nat, s: nat, k: nat): seq<bool>
    requires IsSize(size) && Square(fn, size) && Square(g, size) && mask < 8
    requires s <= Strips(size) && k <= 2 * size && (s == Strips(size) ==> k == 0)
    decreases s, k
  {
    if k > 0 then
      var c := ZigzagAt(size, s, k - 1);
      StripBounds(size, s);
      ReadBits(size, fn, g, mask, s, k - 1) + if fn[c.y][c.x] then [] else [g[c.y][c.x] != Covered(mask, c.x, c.y)]
    else if s > 0 then ReadBits(size, fn, g, mask, s - 1, 2 * size)
    else []
  }

  /** Unmasking the finished matrix and reading the zigzag gives the codewords' bits. */
  lemma {:induction false} ReadBackPlaced(size: nat, fn: Grid, start: Grid, words: seq<byte>, placed: Grid, mask: nat,
      s: nat, k: nat)
    requires IsSize(size) && Square(fn, size) && Square(start, size) && mask < 8 && FormatReserved(size, fn)
    requires s <= Strips(size) && k <= 2 * size && (s == Strips(size) ==> k == 0)
    requires PlacedTo(size, fn, start, words, placed, Strips(size), 0)
    ensures var bits := ReadBits(size, fn, Candidate(size, fn, placed, mask), mask, s, k);
            |bits| == FreeBefore(size, fn, s, k)
            && forall i :: 0 <= i < |bits| && i < 8 * |words| ==> bits[i] == WordBit(words, i)
    decreases s, k
  {
    hide WordBit, Covered, Candidate, FormatReserved, PlacedTo, StripX;
    if k > 0 {
      ReadBackPlaced(size, fn, start, words, placed, mask, s, k - 1);
      ReadModule(size, fn, start, words, placed, mask, s, k - 1);
    } else if s > 0 {
      ReadBackPlaced(size, fn, start, words, placed, mask, s - 1, 2 * size);
    }
  }

  lemma ReadModule(size: nat, fn: Grid, start: Grid, words: seq<byte>, placed: Grid, mask: nat, s: nat, k: nat)
    requires IsSize(size) && Square(fn, size) && Square(start, size) && mask < 8 && FormatReserved(size, fn)
    requires s < Strips(size) && k < 2 * size
    requires PlacedTo(size, fn, start, words, placed, Strips(size), 0)
    ensures var c := ZigzagAt(size, s, k);
            c.x < size && c.y < size
            && (!fn[c.y][c.x] && FreeBefore(size, fn, s, k) < 8 * |words| ==>
                  (Candidate(size, fn, placed, mask)[c.y][c.x] != Covered(mask, c.x, c.y))
                    == WordBit(words, FreeBefore(size, fn, s, k)))
  {
    hide WordBit, Mask, Covered, FreeBefore, ZigzagAt, StripOf, StepOf, IsFormat, DrawFormat;
    var c := ZigzagAt(size, s, k);
    MaskCovers(mask, c.x, c.y);
    ZigzagVisitsOnce(size, s, k);
    assert placed[c.y][c.x] == Expected(size, fn, start, words, c.x, c.y, Strips(size), 0);
    DrawPoint(size, mask, Flipped(size, fn, placed, mask), placed, c.x, c.y);
  }
}
