/** The function patterns (qrMatrix in inbound_subscription.py; section 6.3 of ISO/IEC
    18004:2015): which modules they take, and that they leave room for a version's codewords. */
module QrPatterns {
  import opened QrStream
  import opened QrLayout

  function SizeOf(v: nat): nat { 4 * v + 17 }

  // ---- Where they are ----

  function Abs(d: int): nat { if d < 0 then -d else d }

  /** Which ring around a centre a module is on. */
  function Ring(x: int, y: int, cx: int, cy: int): nat {
    if Abs(x - cx) < Abs(y - cy) then Abs(y - cy) else Abs(x - cx)
  }

  predicate IsTiming(x: nat, y: nat) { x == 6 || y == 6 }

  /** The finders' centres. */
  function Finder(size: nat, k: nat): (int, int)
    requires k < 3
  {
    if k == 0 then (3, 3) else if k == 1 then (size - 4, 3) else (3, size - 4)
  }

  predicate InFinder(size: nat, x: nat, y: nat, k: nat)
    requires k < 3
  {
    Ring(x, y, Finder(size, k).0, Finder(size, k).1) <= 4
  }

  predicate IsFinder(size: nat, x: nat, y: nat) {
    InFinder(size, x, y, 0) || InFinder(size, x, y, 1) || InFinder(size, x, y, 2)
  }

  /** How many lines of alignment patterns there are, across and down. */
  function Lines(v: nat): nat { if v == 1 then 0 else v / 7 + 2 }

  /** How far apart they are, from the last one back. */
  function Gap(v: nat): nat
    requires v >= 2
  {
    (8 * v + 3 * Lines(v) + 5) / (4 * Lines(v) - 4) * 2
  }

  function Centre(v: nat, i: nat): int
    requires v >= 1 && i < Lines(v)
  {
    if i == 0 then 6 else SizeOf(v) - 7 - (Lines(v) - 1 - i) * Gap(v)
  }

  /** The three places where there is a finder instead. */
  predicate AtFinder(v: nat, i: nat, j: nat) {
    (i == 0 && (j == 0 || j == Lines(v) - 1)) || (i == Lines(v) - 1 && j == 0)
  }

  predicate InAlignment(v: nat, x: nat, y: nat, i: nat, j: nat)
    requires v >= 1 && i < Lines(v) && j < Lines(v)
  {
    !AtFinder(v, i, j) && Ring(x, y, Centre(v, i), Centre(v, j)) <= 2
  }

  ghost predicate IsAlignment(v: nat, x: nat, y: nat)
    requires v >= 1
  {
    exists i, j :: 0 <= i < Lines(v) && 0 <= j < Lines(v) && InAlignment(v, x, y, i, j)
  }

  predicate IsVersion(v: nat, x: nat, y: nat) {
    v >= 7
    && ((SizeOf(v) - 11 <= x <= SizeOf(v) - 9 && y <= 5) || (SizeOf(v) - 11 <= y <= SizeOf(v) - 9 && x <= 5))
  }

  ghost predicate IsFunction(v: nat, x: nat, y: nat)
    requires v >= 1
  {
    IsTiming(x, y) || IsFinder(SizeOf(v), x, y) || IsAlignment(v, x, y) || IsFormat(SizeOf(v), x, y, 31)
    || IsVersion(v, x, y)
  }

  /** The map of a version's function patterns. */
  ghost function FunctionMap(v: nat): (fn: Grid)
    requires v >= 1
    ensures Square(fn, SizeOf(v))
  {
    seq(SizeOf(v), y requires 0 <= y < SizeOf(v) =>
      seq(SizeOf(v), x requires 0 <= x < SizeOf(v) => IsFunction(v, x, y)))
  }

  // ---- Counting the modules left free ----

  function Marked(size: nat, cells: set<Cell>): (fn: Grid)
    ensures Square(fn, size)
  {
    seq(size, y requires 0 <= y < size => seq(size, x requires 0 <= x < size => Cell(x, y) in cells))
  }

  /** A module reserved is one free module less from where the zigzag has passed it. */
  lemma {:induction false} FreeAfterOne(size: nat, fn: Grid, c: Cell, s: nat, k: nat)
    requires IsSize(size) && Square(fn, size) && s <= Strips(size) && k <= 2 * size && (s == Strips(size) ==> k == 0)
    requires c.x < size && c.x != 6 && c.y < size && !fn[c.y][c.x]
    ensures FreeBefore(size, Update(fn, c.x, c.y, true), s, k)
         == FreeBefore(size, fn, s, k) - if Before(StripOf(size, c.x), StepOf(size, c), s, k) then 1 else 0
    decreases s, k
  {
    hide ZigzagAt, StripOf, StepOf;
    ZigzagVisitsAll(size, c);
    if k > 0 {
      FreeAfterOne(size, fn, c, s, k - 1);
      ZigzagVisitsOnce(size, s, k - 1);
    } else if s > 0 {
      FreeAfterOne(size, fn, c, s - 1, 2 * size);
    }
  }

  /** The zigzag does not see column 6. */
  lemma {:induction false} FreeSame(size: nat, a: Grid, b: Grid, s: nat, k: nat)
    requires IsSize(size) && Square(a, size) && Square(b, size)
    requires s <= Strips(size) && k <= 2 * size && (s == Strips(size) ==> k == 0)
    requires forall x, y :: 0 <= x < size && 0 <= y < size && x != 6 ==> a[y][x] == b[y][x]
    ensures FreeBefore(size, a, s, k) == FreeBefore(size, b, s, k)
    decreases s, k
  {
    hide ZigzagAt, StripOf, StepOf;
    if k > 0 {
      FreeSame(size, a, b, s, k - 1);
      ZigzagVisitsOnce(size, s, k - 1);
    } else if s > 0 {
      FreeSame(size, a, b, s - 1, 2 * size);
    }
  }

  lemma {:induction false} FreeNone(size: nat, s: nat, k: nat)
    requires IsSize(size) && s <= Strips(size) && k <= 2 * size && (s == Strips(size) ==> k == 0)
    ensures FreeBefore(size, Marked(size, {}), s, k) == s * (2 * size) + k
    decreases s, k
  {
    hide ZigzagAt, StripOf, StepOf;
    if k > 0 {
      FreeNone(size, s, k - 1);
      ZigzagVisitsOnce(size, s, k - 1);
    } else if s > 0 {
      FreeNone(size, s - 1, 2 * size);
    }
  }

  /** The free modules are those that are left. */
  lemma {:induction false} FreeCount(size: nat, cells: set<Cell>)
    requires IsSize(size) && forall c :: c in cells ==> c.x < size && c.y < size && c.x != 6
    ensures FreeBefore(size, Marked(size, cells), Strips(size), 0) == size * (size - 1) - |cells|
    decreases |cells|
  {
    hide FreeBefore, StripOf, StepOf, Strips, Marked;
    if cells == {} {
      FreeNone(size, Strips(size), 0);
      AllModules(size);
    } else {
      var c :| c in cells;
      var rest := cells - {c};
      FreeCount(size, rest);
      MarkedAt(size, rest, c);
      FreeAfterOne(size, Marked(size, rest), c, Strips(size), 0);
      ZigzagVisitsAll(size, c);
      MarkedMore(size, rest, c);
      assert cells == rest + {c};
    }
  }

  lemma AllModules(size: nat)
    requires IsSize(size)
    ensures Strips(size) * (2 * size) == size * (size - 1)
  {
    assert 2 * Strips(size) == size - 1;
  }

  lemma MarkedAt(size: nat, cells: set<Cell>, c: Cell)
    requires c.x < size && c.y < size
    ensures Marked(size, cells)[c.y][c.x] <==> c in cells
  {}

  lemma MarkedMore(size: nat, cells: set<Cell>, c: Cell)
    requires c.x < size && c.y < size
    ensures Marked(size, cells + {c}) == Update(Marked(size, cells), c.x, c.y, true)
  {
    var a, b := Marked(size, cells + {c}), Update(Marked(size, cells), c.x, c.y, true);
    forall y | 0 <= y < size ensures a[y] == b[y] {}
  }

  // ---- How many they take ----

  function Rect(x: nat, y: nat, w: nat, h: nat): set<Cell> {
    set i: nat, j: nat | x <= i < x + w && y <= j < y + h :: Cell(i, j)
  }

  lemma {:induction false} RowSize(x: nat, y: nat, w: nat)
    ensures |Rect(x, y, w, 1)| == w
  {
    if w == 0 {
      assert Rect(x, y, w, 1) == {};
    } else {
      RowSize(x, y, w - 1);
      assert Rect(x, y, w, 1) == Rect(x, y, w - 1, 1) + {Cell(x + w - 1, y)};
    }
  }

  lemma {:induction false} RectSize(x: nat, y: nat, w: nat, h: nat)
    ensures |Rect(x, y, w, h)| == w * h
  {
    if h == 0 {
      assert Rect(x, y, w, h) == {};
    } else {
      RectSize(x, y, w, h - 1);
      RowSize(x, y + h - 1, w);
      assert Rect(x, y, w, h) == Rect(x, y, w, h - 1) + Rect(x, y + h - 1, w, 1);
      assert w * h == w * (h - 1) + w;
    }
  }

  /** A rectangle's modules outside row 6 and column 6. */
  function Off(x: nat, y: nat, w: nat, h: nat): set<Cell> {
    set c | c in Rect(x, y, w, h) && c.x != 6 && c.y != 6
  }

  /** How many of w numbers from x on are not 6. */
  function Not6(x: nat, w: nat): nat { if x <= 6 < x + w then w - 1 else w }

  lemma OffSize(x: nat, y: nat, w: nat, h: nat)
    ensures |Off(x, y, w, h)| == Not6(x, w) * Not6(y, h)
  {
    hide Off;
    if x <= 6 < x + w {
      OffColumns(x, y, 6 - x, h);
      OffColumns(7, y, x + w - 7, h);
      OffAround(x, y, w, h);
      UnionSize(Off(x, y, 6 - x, h), Off(7, y, x + w - 7, h));
      Distribute(6 - x, x + w - 7, Not6(y, h));
    } else {
      OffColumns(x, y, w, h);
    }
  }

  lemma Distribute(a: nat, b: nat, c: nat)
    ensures a * c + b * c == (a + b) * c
  {}

  lemma DistributeRight(a: nat, b: nat, c: nat)
    ensures a * b + a * c == a * (b + c)
  {}

  lemma OffAround(x: nat, y: nat, w: nat, h: nat)
    requires x <= 6 < x + w
    ensures Off(x, y, w, h) == Off(x, y, 6 - x, h) + Off(7, y, x + w - 7, h)
    ensures Off(x, y, 6 - x, h) !! Off(7, y, x + w - 7, h)
  {}

  lemma RectAround(x: nat, y: nat, w: nat, h: nat)
    requires !(x <= 6 < x + w) && y <= 6 < y + h
    ensures Off(x, y, w, h) == Rect(x, y, w, 6 - y) + Rect(x, 7, w, y + h - 7)
    ensures Rect(x, y, w, 6 - y) !! Rect(x, 7, w, y + h - 7)
  {}

  lemma RectOff(x: nat, y: nat, w: nat, h: nat)
    requires !(x <= 6 < x + w) && !(y <= 6 < y + h)
    ensures Off(x, y, w, h) == Rect(x, y, w, h)
  {}

  /** Columns without column 6. */
  lemma OffColumns(x: nat, y: nat, w: nat, h: nat)
    requires !(x <= 6 < x + w)
    ensures |Off(x, y, w, h)| == w * Not6(y, h)
  {
    hide Off, Rect;
    if y <= 6 < y + h {
      RectSize(x, y, w, 6 - y);
      RectSize(x, 7, w, y + h - 7);
      RectAround(x, y, w, h);
      UnionSize(Rect(x, y, w, 6 - y), Rect(x, 7, w, y + h - 7));
      assert Not6(y, h) == (6 - y) + (y + h - 7);
      DistributeRight(w, 6 - y, y + h - 7);
    } else {
      RectSize(x, y, w, h);
      RectOff(x, y, w, h);
    }
  }

  lemma UnionSize<T>(a: set<T>, b: set<T>)
    requires a !! b
    ensures |a + b| == |a| + |b|
  {}

  // Alignment patterns: none meets another, a finder or a version.

  /** What the standard's positions keep clear of. */
  predicate WellSpaced(v: nat)
    requires v >= 2
  {
    Gap(v) >= 7 && (Lines(v) >= 3 ==> (Lines(v) - 2) * Gap(v) <= SizeOf(v) - 18)
  }

  lemma EveryVersionSpaced(v: nat)
    requires 2 <= v <= 40
    ensures WellSpaced(v)
  {
    if v < 7 {} else if v < 14 {} else if v < 21 {} else if v < 28 {} else if v < 35 {} else {}
  }

  lemma CentreStep(v: nat, i: nat)
    requires v >= 2 && 1 <= i && i + 1 < Lines(v)
    ensures Centre(v, i + 1) == Centre(v, i) + Gap(v)
  {
    hide Gap, Lines;
    assert (Lines(v) - 1 - i) * Gap(v) == (Lines(v) - 2 - i) * Gap(v) + Gap(v);
  }

  lemma {:induction false} CentreBefore(v: nat, i: nat, j: nat)
    requires v >= 2 && WellSpaced(v) && 1 <= i < j < Lines(v)
    ensures Centre(v, i) + 7 <= Centre(v, j)
    decreases j
  {
    hide Gap, Lines, Centre;
    CentreStep(v, j - 1);
    if i < j - 1 { CentreBefore(v, i, j - 1); }
  }

  lemma CentreEnds(v: nat)
    requires 2 <= v <= 40
    ensures Lines(v) >= 2 && Centre(v, Lines(v) - 1) == SizeOf(v) - 7 && Centre(v, 1) >= 11 && Centre(v, 0) == 6
  {
    EveryVersionSpaced(v);
  }

  /** A line of alignment patterns but the first is well inside, and but the last short of the
      version's modules. */
  lemma CentreInside(v: nat, i: nat)
    requires 2 <= v <= 40 && 1 <= i < Lines(v)
    ensures 11 <= Centre(v, i) <= SizeOf(v) - 7
    ensures i < Lines(v) - 1 ==> Centre(v, i) <= SizeOf(v) - 14
  {
    hide Gap, Lines, Centre;
    EveryVersionSpaced(v);
    CentreEnds(v);
    if i > 1 { CentreBefore(v, 1, i); }
    if i < Lines(v) - 1 { CentreBefore(v, i, Lines(v) - 1); }
  }

  /** The modules of one alignment pattern that no timing pattern has. */
  function Block(v: nat, i: nat, j: nat): set<Cell>
    requires 2 <= v <= 40 && i < Lines(v) && j < Lines(v)
  {
    if AtFinder(v, i, j) then {} else
      CentreLow(v, i);
      CentreLow(v, j);
      Off(Centre(v, i) - 2, Centre(v, j) - 2, 5, 5)
  }

  lemma CentreLow(v: nat, i: nat)
    requires 2 <= v <= 40 && i < Lines(v)
    ensures Centre(v, i) >= 2
  {
    hide Gap, Lines, Centre;
    CentreEnds(v);
    if i > 0 { CentreInside(v, i); }
  }

  function BlockCount(lines: nat, i: nat, j: nat): nat
    requires lines >= 2
  {
    if (i == 0 && (j == 0 || j == lines - 1)) || (i == lines - 1 && j == 0) then 0
    else (if i == 0 then 4 else 5) * (if j == 0 then 4 else 5)
  }

  lemma BlockSize(v: nat, i: nat, j: nat)
    requires 2 <= v <= 40 && i < Lines(v) && j < Lines(v)
    ensures |Block(v, i, j)| == BlockCount(Lines(v), i, j)
  {
    hide Gap, Lines, Centre, Off;
    CentreEnds(v);
    CentreLow(v, i);
    CentreLow(v, j);
    if i > 0 { CentreInside(v, i); }
    if j > 0 { CentreInside(v, j); }
    OffSize(Centre(v, i) - 2, Centre(v, j) - 2, 5, 5);
  }

  /** Different patterns share no module. */
  lemma BlocksApart(v: nat, i: nat, j: nat, i': nat, j': nat)
    requires 2 <= v <= 40 && i < Lines(v) && j < Lines(v) && i' < Lines(v) && j' < Lines(v)
    requires i != i' || j != j'
    ensures Block(v, i, j) !! Block(v, i', j')
  {
    hide Gap, Lines, Centre;
    CentresApart(v, i, i');
    CentresApart(v, j, j');
  }

  lemma CentresApart(v: nat, i: nat, j: nat)
    requires 2 <= v <= 40 && i < Lines(v) && j < Lines(v)
    ensures i != j ==> Abs(Centre(v, i) - Centre(v, j)) >= 5
  {
    hide Gap, Lines, Centre;
    CentreEnds(v);
    EveryVersionSpaced(v);
    if i > 0 { CentreInside(v, i); }
    if j > 0 { CentreInside(v, j); }
    if 1 <= i < j { CentreBefore(v, i, j); }
    if 1 <= j < i { CentreBefore(v, j, i); }
  }

  /** The alignment patterns' modules, line by line: the first i lines, and j of the next. */
  function Blocks(v: nat, i: nat, j: nat): set<Cell>
    requires 2 <= v <= 40 && i <= Lines(v) && j <= Lines(v) && (i == Lines(v) ==> j == 0)
    decreases i, j
  {
    if j > 0 then Blocks(v, i, j - 1) + Block(v, i, j - 1)
    else if i > 0 then Blocks(v, i - 1, Lines(v))
    else {}
  }

  function BlocksCount(lines: nat, i: nat, j: nat): nat
    requires lines >= 2
    decreases i, j
  {
    if j > 0 then BlocksCount(lines, i, j - 1) + BlockCount(lines, i, j - 1)
    else if i > 0 then BlocksCount(lines, i - 1, lines)
    else 0
  }

  predicate Earlier(i: nat, j: nat, i': nat, j': nat) { i < i' || (i == i' && j < j') }

  lemma {:induction false} BlocksMeaning(v: nat, i: nat, j: nat, c: Cell)
    requires 2 <= v <= 40 && i <= Lines(v) && j <= Lines(v) && (i == Lines(v) ==> j == 0)
    ensures c in Blocks(v, i, j)
       <==> exists a, b :: 0 <= a < Lines(v) && 0 <= b < Lines(v) && Earlier(a, b, i, j) && c in Block(v, a, b)
    decreases i, j
  {
    hide Block, Lines;
    if j > 0 {
      BlocksMeaning(v, i, j - 1, c);
    } else if i > 0 {
      BlocksMeaning(v, i - 1, Lines(v), c);
    }
  }

  lemma {:induction false} BlocksSize(v: nat, i: nat, j: nat)
    requires 2 <= v <= 40 && i <= Lines(v) && j <= Lines(v) && (i == Lines(v) ==> j == 0)
    ensures Lines(v) >= 2 && |Blocks(v, i, j)| == BlocksCount(Lines(v), i, j)
    decreases i, j
  {
    hide Block, Lines, BlockCount;
    CentreEnds(v);
    if j > 0 {
      BlocksSize(v, i, j - 1);
      BlockSize(v, i, j - 1);
      BlockNew(v, i, j - 1);
      UnionSize(Blocks(v, i, j - 1), Block(v, i, j - 1));
    } else if i > 0 {
      BlocksSize(v, i - 1, Lines(v));
    }
  }

  lemma BlockNew(v: nat, i: nat, j: nat)
    requires 2 <= v <= 40 && i < Lines(v) && j < Lines(v)
    ensures Blocks(v, i, j) !! Block(v, i, j)
  {
    hide Block, Blocks, Lines;
    forall c | c in Blocks(v, i, j) ensures c !in Block(v, i, j) {
      BlocksMeaning(v, i, j, c);
      var a, b :| 0 <= a < Lines(v) && 0 <= b < Lines(v) && Earlier(a, b, i, j) && c in Block(v, a, b);
      BlocksApart(v, a, b, i, j);
    }
  }

  /** All alignment patterns have the modules the capacity formula takes off for them. */
  lemma BlocksTotal(lines: nat)
    requires 2 <= lines <= 7
    ensures BlocksCount(lines, lines, 0) == (25 * lines - 10) * lines - 55
  {
    hide BlocksCount;
    LinesCount(lines, lines);
    if lines == 2 {} else if lines == 3 {} else if lines == 4 {} else if lines == 5 {} else if lines == 6 {} else {}
  }

  lemma {:induction false} LineCount(lines: nat, i: nat, j: nat)
    requires 2 <= lines <= 7 && i < lines && j <= lines
    ensures BlocksCount(lines, i, j) == BlocksCount(lines, i, 0)
         + (if i == 0 then 20 * (if j == 0 then 0 else if j == lines then lines - 2 else j - 1)
            else if j == 0 then 0
            else (if i == lines - 1 then 0 else 20) + 25 * (j - 1))
    decreases j
  {
    if j > 0 { LineCount(lines, i, j - 1); }
  }

  lemma {:induction false} LinesCount(lines: nat, i: nat)
    requires 2 <= lines <= 7 && i <= lines
    ensures BlocksCount(lines, i, 0)
         == if i == 0 then 0
            else 20 * (lines - 2) + (i - 1) * (20 + 25 * (lines - 1)) - if i == lines then 20 else 0
    decreases i
  {
    hide BlocksCount;
    CountSteps(lines, i);
    if i > 0 {
      LinesCount(lines, i - 1);
      LineCount(lines, i - 1, lines);
      assert (i - 1) * (20 + 25 * (lines - 1)) == (i - 2) * (20 + 25 * (lines - 1)) + (20 + 25 * (lines - 1));
    }
  }

  lemma CountSteps(lines: nat, i: nat)
    requires 2 <= lines <= 7
    ensures BlocksCount(lines, 0, 0) == 0 && (i > 0 ==> BlocksCount(lines, i, 0) == BlocksCount(lines, i - 1, lines))
  {}

  // All of them.

  /** Row 6, but for column 6. */
  function Row6(size: nat): set<Cell>
    requires size >= 21
  {
    Rect(0, 6, 6, 1) + Rect(7, 6, size - 7, 1)
  }

  /** The finders and the format beside them. */
  function Corners(size: nat): set<Cell>
    requires size >= 21
  {
    Off(0, 0, 9, 9) + Off(size - 8, 0, 8, 9) + Off(0, size - 8, 9, 8)
  }

  function VersionCells(v: nat): set<Cell> {
    if v < 7 then {} else Off(SizeOf(v) - 11, 0, 3, 6) + Off(0, SizeOf(v) - 11, 6, 3)
  }

  function Alignments(v: nat): set<Cell>
    requires 1 <= v <= 40
  {
    if v == 1 then {} else Blocks(v, Lines(v), 0)
  }

  /** The function patterns' modules outside column 6. */
  function Reserved(v: nat): set<Cell>
    requires 1 <= v <= 40
  {
    Row6(SizeOf(v)) + Corners(SizeOf(v)) + VersionCells(v) + Alignments(v)
  }

  lemma Row6Size(size: nat)
    requires size >= 21
    ensures |Row6(size)| == size - 1
    ensures forall c :: c in Row6(size) <==> c.x < size && c.x != 6 && c.y == 6
  {
    RowSize(0, 6, 6);
    RowSize(7, 6, size - 7);
    UnionSize(Rect(0, 6, 6, 1), Rect(7, 6, size - 7, 1));
  }

  lemma CornersSize(size: nat)
    requires size >= 21
    ensures |Corners(size)| == 192
  {
    var a, b, c := Off(0, 0, 9, 9), Off(size - 8, 0, 8, 9), Off(0, size - 8, 9, 8);
    OffSize(0, 0, 9, 9);
    OffSize(size - 8, 0, 8, 9);
    OffSize(0, size - 8, 9, 8);
    UnionSize(a, b);
    UnionSize(a + b, c);
  }

  lemma CornersMeaning(size: nat, c: Cell)
    requires size >= 21
    ensures c in Corners(size)
       <==> c.x < size && c.y < size && c.x != 6 && c.y != 6
            && ((c.x <= 8 && c.y <= 8) || (c.x >= size - 8 && c.y <= 8) || (c.x <= 8 && c.y >= size - 8))
  {}

  lemma VersionSize(v: nat)
    requires v >= 1
    ensures |VersionCells(v)| == if v < 7 then 0 else 36
    ensures forall c :: c in VersionCells(v) <==> c.x != 6 && c.y != 6 && IsVersion(v, c.x, c.y)
  {
    if v >= 7 {
      OffSize(SizeOf(v) - 11, 0, 3, 6);
      OffSize(0, SizeOf(v) - 11, 6, 3);
      UnionSize(Off(SizeOf(v) - 11, 0, 3, 6), Off(0, SizeOf(v) - 11, 6, 3));
    }
  }

  lemma AlignmentsSize(v: nat)
    requires 1 <= v <= 40
    ensures |Alignments(v)| == if v == 1 then 0 else (25 * Lines(v) - 10) * Lines(v) - 55
  {
    hide Blocks, BlocksCount;
    if v > 1 {
      CentreEnds(v);
      BlocksSize(v, Lines(v), 0);
      BlocksTotal(Lines(v));
    }
  }

  lemma AlignmentsMeaning(v: nat, c: Cell)
    requires 1 <= v <= 40
    ensures c in Alignments(v) <==> c.x != 6 && c.y != 6 && IsAlignment(v, c.x, c.y)
  {
    hide Blocks, Block, Lines, Centre, InAlignment;
    if v == 1 {
      assert Lines(v) == 0 by { NoLines(); }
    } else {
      BlocksMeaning(v, Lines(v), 0, c);
      forall i, j | 0 <= i < Lines(v) && 0 <= j < Lines(v)
        ensures c in Block(v, i, j) <==> c.x != 6 && c.y != 6 && InAlignment(v, c.x, c.y, i, j)
      {
        BlockMeaning(v, i, j, c);
      }
    }
  }

  lemma NoLines()
    ensures Lines(1) == 0
  {}

  lemma BlockMeaning(v: nat, i: nat, j: nat, c: Cell)
    requires 2 <= v <= 40 && i < Lines(v) && j < Lines(v)
    ensures c in Block(v, i, j) <==> c.x != 6 && c.y != 6 && InAlignment(v, c.x, c.y, i, j)
  {
    hide Lines, Centre;
    CentreLow(v, i);
    CentreLow(v, j);
  }

  /** Where alignment patterns keep off the rest. */
  lemma AlignmentsAway(v: nat, c: Cell)
    requires 1 <= v <= 40 && c in Alignments(v)
    ensures c.x < SizeOf(v) && c.y < SizeOf(v) && c.x != 6 && c.y != 6 && !IsVersion(v, c.x, c.y)
    ensures c !in Corners(SizeOf(v))
  {
    hide Blocks, Lines, Centre, Gap, Corners;
    CornersMeaning(SizeOf(v), c);
    AlignmentsMeaning(v, c);
    var i, j :| 0 <= i < Lines(v) && 0 <= j < Lines(v) && InAlignment(v, c.x, c.y, i, j);
    CentreEnds(v);
    if i > 0 { CentreInside(v, i); }
    if j > 0 { CentreInside(v, j); }
  }

  lemma ReservedSize(v: nat)
    requires 1 <= v <= 40
    ensures |Reserved(v)| == |Row6(SizeOf(v))| + |Corners(SizeOf(v))| + |VersionCells(v)| + |Alignments(v)|
    ensures forall c :: c in Reserved(v) ==> c.x < SizeOf(v) && c.y < SizeOf(v) && c.x != 6
  {
    hide Row6, Corners, VersionCells, Alignments;
    var size := SizeOf(v);
    Row6Size(size);
    VersionSize(v);
    forall c | c in Alignments(v)
      ensures c.x < size && c.y < size && c.x != 6 && c.y != 6 && c !in Corners(size) && c !in VersionCells(v)
    {
      AlignmentsAway(v, c);
    }
    forall c | c in Corners(size)
      ensures c.x < size && c.y < size && c.x != 6 && c.y != 6 && c !in VersionCells(v)
    {
      CornersMeaning(size, c);
    }
    UnionSize(Row6(size), Corners(size));
    UnionSize(Row6(size) + Corners(size), VersionCells(v));
    UnionSize(Row6(size) + Corners(size) + VersionCells(v), Alignments(v));
  }

  /** Where the format is. */
  lemma FormatArea(size: nat, x: nat, y: nat)
    requires size >= 21 && x < size && y < size
    ensures IsFormat(size, x, y, 31)
       <==> (x == 8 && y != 6 && (y <= 8 || y >= size - 8)) || (y == 8 && x != 6 && (x <= 8 || x >= size - 8))
  {
    if x == 8 && y != 6 && (y <= 8 || y >= size - 8) {
      var i := if y <= 5 then y else if y <= 8 then y - 1 else if y == size - 8 then 30 else y + 30 - size;
      assert FormatCell(size, i) == Cell(x, y);
    } else if y == 8 && x != 6 && (x <= 8 || x >= size - 8) {
      var i := if x <= 5 then 14 - x else if x == 7 then 8 else 14 + size - x;
      assert FormatCell(size, i) == Cell(x, y);
    }
  }

  lemma ReservedMeaning(v: nat, c: Cell)
    requires 1 <= v <= 40 && c.x < SizeOf(v) && c.y < SizeOf(v) && c.x != 6
    ensures IsFunction(v, c.x, c.y) <==> c in Reserved(v)
  {
    hide Row6, Corners, VersionCells, Alignments, IsFormat, IsAlignment, IsVersion;
    var size := SizeOf(v);
    Row6Size(size);
    CornersMeaning(size, c);
    FormatArea(size, c.x, c.y);
    VersionSize(v);
    AlignmentsMeaning(v, c);
  }

  /** The function patterns of a version leave free just the modules its capacity is made of. */
  lemma FreeModules(v: nat)
    requires 1 <= v <= 40
    ensures IsSize(SizeOf(v)) && FreeBefore(SizeOf(v), FunctionMap(v), Strips(SizeOf(v)), 0) == RawModules(v)
  {
    hide Reserved, FreeBefore, Row6, Corners, VersionCells, Alignments, IsFunction, Strips, RawModules;
    var size := SizeOf(v);
    assert IsSize(size);
    ReservedSize(v);
    FreeCount(size, Reserved(v));
    forall x, y | 0 <= x < size && 0 <= y < size && x != 6
      ensures FunctionMap(v)[y][x] == Marked(size, Reserved(v))[y][x]
    {
      ReservedMeaning(v, Cell(x, y));
    }
    FreeSame(size, FunctionMap(v), Marked(size, Reserved(v)), Strips(size), 0);
    Row6Size(size);
    CornersSize(size);
    VersionSize(v);
    AlignmentsSize(v);
    RawIs(v);
  }

  lemma RawIs(v: nat)
    requires 1 <= v <= 40
    ensures RawModules(v)
         == SizeOf(v) * (SizeOf(v) - 1) - (SizeOf(v) - 1) - 192 - (if v < 7 then 0 else 36)
            - if v == 1 then 0 else (25 * Lines(v) - 10) * Lines(v) - 55
  {}

  // ---- What is drawn on them ----

  function VersionStep(r: bv32): bv32 { (r << 1) ^ ((r >> 11) * 0x1F25) }

  /** The eighteen version bits: the version, and twelve check bits. */
  function VersionWord(v: bv32): bv32 {
    var r4 := VersionStep(VersionStep(VersionStep(VersionStep(v))));
    var r8 := VersionStep(VersionStep(VersionStep(VersionStep(r4))));
    (v << 12) | VersionStep(VersionStep(VersionStep(VersionStep(r8))))
  }

  function VersionNumber(v: nat): bv32
    requires v <= 40
  {
    v as bv32
  }

  function VersionBit(v: nat, i: nat): bool
    requires v <= 40 && i < 18
  {
    Shifted(VersionWord(VersionNumber(v)), i) & 1 == 1
  }

  /** Where bit i of the version stands above the corner finder's right neighbour; its other copy
      is across the diagonal. */
  function VersionCell(size: nat, i: nat): Cell
    requires size >= 21 && i < 18
  {
    Cell(size - 11 + i % 3, i / 3)
  }

  ghost predicate TimingDrawn(v: nat, m: Grid)
    requires v >= 1 && Square(m, SizeOf(v))
  {
    forall x, y :: 0 <= x < SizeOf(v) && 0 <= y < SizeOf(v) && OnlyTiming(v, x, y) ==> m[y][x] == ((x + y) % 2 == 0)
  }

  ghost predicate OnlyTiming(v: nat, x: nat, y: nat)
    requires v >= 1
  {
    IsTiming(x, y) && !IsFinder(SizeOf(v), x, y) && !IsAlignment(v, x, y)
  }

  /** A finder with its border, and an alignment pattern, as the standard shows them. */
  const FINDER: seq<string> := [
    ".........",
    ".#######.",
    ".#.....#.",
    ".#.###.#.",
    ".#.###.#.",
    ".#.###.#.",
    ".#.....#.",
    ".#######.",
    "........."]

  const ALIGNMENT: seq<string> := [
    "#####",
    "#...#",
    "#.#.#",
    "#...#",
    "#####"]

  predicate FinderDark(x: int, y: int, cx: int, cy: int) {
    -4 <= x - cx <= 4 && -4 <= y - cy <= 4 && FINDER[y - cy + 4][x - cx + 4] == '#'
  }

  predicate AlignmentDark(x: int, y: int, cx: int, cy: int) {
    -2 <= x - cx <= 2 && -2 <= y - cy <= 2 && ALIGNMENT[y - cy + 2][x - cx + 2] == '#'
  }

  /** The pictures ring by ring. */
  lemma FinderRings(x: int, y: int, cx: int, cy: int)
    requires Ring(x, y, cx, cy) <= 4
    ensures FinderDark(x, y, cx, cy) <==> Ring(x, y, cx, cy) !in {2, 4}
  {
    var dx, dy := x - cx, y - cy;
    if dy == -4 {} else if dy == -3 {} else if dy == -2 {} else if dy == -1 {} else if dy == 0 {}
    else if dy == 1 {} else if dy == 2 {} else if dy == 3 {} else {}
  }

  lemma AlignmentRings(x: int, y: int, cx: int, cy: int)
    requires Ring(x, y, cx, cy) <= 2
    ensures AlignmentDark(x, y, cx, cy) <==> Ring(x, y, cx, cy) != 1
  {
    var dx, dy := x - cx, y - cy;
    if dy == -2 {} else if dy == -1 {} else if dy == 0 {} else if dy == 1 {} else {}
  }

  ghost predicate FinderDrawn(size: nat, m: Grid, k: nat)
    requires Square(m, size) && k < 3
  {
    forall x, y :: 0 <= x < size && 0 <= y < size && InFinder(size, x, y, k) ==>
      m[y][x] == FinderDark(x, y, Finder(size, k).0, Finder(size, k).1)
  }

  ghost predicate AlignmentDrawn(v: nat, m: Grid, i: nat, j: nat)
    requires v >= 1 && Square(m, SizeOf(v)) && i < Lines(v) && j < Lines(v)
  {
    forall x, y :: 0 <= x < SizeOf(v) && 0 <= y < SizeOf(v) && InAlignment(v, x, y, i, j) ==>
      m[y][x] == AlignmentDark(x, y, Centre(v, i), Centre(v, j))
  }

  ghost predicate VersionDrawn(v: nat, m: Grid)
    requires 1 <= v <= 40 && Square(m, SizeOf(v))
  {
    v >= 7 ==> forall i :: 0 <= i < 18 ==>
      m[VersionCell(SizeOf(v), i).y][VersionCell(SizeOf(v), i).x] == VersionBit(v, i)
      && m[VersionCell(SizeOf(v), i).x][VersionCell(SizeOf(v), i).y] == VersionBit(v, i)
  }

  ghost predicate FixedDrawn(v: nat, m: Grid)
    requires v >= 1 && Square(m, SizeOf(v))
  {
    TimingDrawn(v, m) && FinderDrawn(SizeOf(v), m, 0) && FinderDrawn(SizeOf(v), m, 1) && FinderDrawn(SizeOf(v), m, 2)
    && forall i, j :: 0 <= i < Lines(v) && 0 <= j < Lines(v) ==> AlignmentDrawn(v, m, i, j)
  }

  /** Every function pattern but the format as the standard has it. */
  ghost predicate PatternsDrawn(v: nat, m: Grid)
    requires 1 <= v <= 40 && Square(m, SizeOf(v))
  {
    FixedDrawn(v, m) && VersionDrawn(v, m)
  }

  // ---- The patterns share no module ----

  /** The format's modules and the version's belong to no other pattern but the map's. */
  lemma FinderAlone(v: nat, x: nat, y: nat)
    requires v >= 1 && IsFinder(SizeOf(v), x, y) && x < SizeOf(v) && y < SizeOf(v)
    ensures !IsVersion(v, x, y) && !IsFormat(SizeOf(v), x, y, 31)
  {
    hide IsFormat;
    FormatArea(SizeOf(v), x, y);
  }

  lemma TimingAlone(v: nat, x: nat, y: nat)
    requires v >= 1 && IsTiming(x, y) && x < SizeOf(v) && y < SizeOf(v)
    ensures !IsVersion(v, x, y) && !IsFormat(SizeOf(v), x, y, 31)
  {
    hide IsFormat;
    FormatArea(SizeOf(v), x, y);
  }

  lemma VersionAlone(v: nat, x: nat, y: nat)
    requires v >= 1 && IsVersion(v, x, y)
    ensures x < SizeOf(v) && y < SizeOf(v) && !IsFormat(SizeOf(v), x, y, 31)
  {
    hide IsFormat;
    FormatArea(SizeOf(v), x, y);
  }

  lemma AlignmentAlone(v: nat, x: nat, y: nat, i: nat, j: nat)
    requires 1 <= v <= 40 && i < Lines(v) && j < Lines(v) && InAlignment(v, x, y, i, j)
    ensures x < SizeOf(v) && y < SizeOf(v)
    ensures !IsFinder(SizeOf(v), x, y) && !IsVersion(v, x, y) && !IsFormat(SizeOf(v), x, y, 31)
  {
    hide IsFormat, Lines, Centre, Gap;
    if v == 1 {
      NoLines();
      assert false;
    }
    CentreEnds(v);
    if i > 0 { CentreInside(v, i); }
    if j > 0 { CentreInside(v, j); }
    assert x < SizeOf(v) && y < SizeOf(v);
    FormatArea(SizeOf(v), x, y);
  }

  lemma AlignmentsApart(v: nat, x: nat, y: nat, i: nat, j: nat, i': nat, j': nat)
    requires 1 <= v <= 40 && i < Lines(v) && j < Lines(v) && i' < Lines(v) && j' < Lines(v)
    requires InAlignment(v, x, y, i, j) && (i != i' || j != j')
    ensures Ring(x, y, Centre(v, i'), Centre(v, j')) > 2
  {
    hide Lines, Centre, Gap;
    if v == 1 {
      NoLines();
      assert false;
    }
    CentresApart(v, i, i');
    CentresApart(v, j, j');
  }

  /** Alignment patterns before the j-th of line i. */
  ghost predicate AlignedTo(v: nat, x: nat, y: nat, i: nat, j: nat)
    requires v >= 1
  {
    exists a, b :: 0 <= a < Lines(v) && 0 <= b < Lines(v) && Earlier(a, b, i, j) && InAlignment(v, x, y, a, b)
  }

  lemma AlignedNext(v: nat, x: nat, y: nat, i: nat, j: nat)
    requires v >= 1 && i < Lines(v) && j < Lines(v)
    ensures AlignedTo(v, x, y, i, j + 1) <==> AlignedTo(v, x, y, i, j) || InAlignment(v, x, y, i, j)
  {
    hide InAlignment, Lines;
  }

  lemma AlignedLine(v: nat, x: nat, y: nat, i: nat)
    requires v >= 1
    ensures AlignedTo(v, x, y, i, Lines(v)) <==> AlignedTo(v, x, y, i + 1, 0)
  {
    hide InAlignment, Lines;
  }

  lemma AlignedAll(v: nat, x: nat, y: nat)
    requires v >= 1
    ensures !AlignedTo(v, x, y, 0, 0) && (AlignedTo(v, x, y, Lines(v), 0) <==> IsAlignment(v, x, y))
  {
    hide InAlignment, Lines;
  }

  /** Only alignment patterns are drawn, up to the j-th of line i. */
  ghost predicate Aligned(v: nat, start: Grid, marks: Grid, m: Grid, fn: Grid, i: nat, j: nat)
    requires v >= 1 && Square(start, SizeOf(v)) && Square(marks, SizeOf(v)) && Square(m, SizeOf(v))
      && Square(fn, SizeOf(v))
  {
    (forall x, y :: 0 <= x < SizeOf(v) && 0 <= y < SizeOf(v) ==>
       fn[y][x] == (marks[y][x] || AlignedTo(v, x, y, i, j)) && (AlignedTo(v, x, y, i, j) || m[y][x] == start[y][x]))
    && forall a, b :: 0 <= a < Lines(v) && 0 <= b < Lines(v) && Earlier(a, b, i, j) ==> AlignmentDrawn(v, m, a, b)
  }

  lemma AlignedStart(v: nat, m: Grid, fn: Grid)
    requires v >= 1 && Square(m, SizeOf(v)) && Square(fn, SizeOf(v))
    ensures Aligned(v, m, fn, m, fn, 0, 0)
  {
    hide AlignedTo;
    forall x, y ensures !AlignedTo(v, x, y, 0, 0) { AlignedAll(v, x, y); }
  }

  /** One more alignment pattern, or the place of a finder passed by. */
  lemma AlignedStep(v: nat, start: Grid, marks: Grid, m: Grid, fn: Grid, m': Grid, fn': Grid, i: nat, j: nat)
    requires 1 <= v <= 40 && i < Lines(v) && j < Lines(v)
    requires Square(start, SizeOf(v)) && Square(marks, SizeOf(v)) && Square(m, SizeOf(v)) && Square(fn, SizeOf(v))
    requires Square(m', SizeOf(v)) && Square(fn', SizeOf(v)) && Aligned(v, start, marks, m, fn, i, j)
    requires forall x, y :: 0 <= x < SizeOf(v) && 0 <= y < SizeOf(v) ==>
      var q, here := Ring(x, y, Centre(v, i), Centre(v, j)), InAlignment(v, x, y, i, j);
      fn'[y][x] == (fn[y][x] || here) && m'[y][x] == if here then q != 1 else m[y][x]
    ensures Aligned(v, start, marks, m', fn', i, j + 1)
  {
    hide AlignedTo, Centre, Lines, Ring, AlignmentDark;
    forall x: nat, y: nat | InAlignment(v, x, y, i, j)
      ensures AlignmentDark(x, y, Centre(v, i), Centre(v, j)) <==> Ring(x, y, Centre(v, i), Centre(v, j)) != 1
    {
      AlignmentRings(x, y, Centre(v, i), Centre(v, j));
    }
    forall x, y ensures AlignedTo(v, x, y, i, j + 1) <==> AlignedTo(v, x, y, i, j) || InAlignment(v, x, y, i, j) {
      AlignedNext(v, x, y, i, j);
    }
    forall a, b | 0 <= a < Lines(v) && 0 <= b < Lines(v) && Earlier(a, b, i, j + 1)
      ensures AlignmentDrawn(v, m', a, b)
    {
      if a != i || b != j { AlignmentStays(v, m, m', a, b, i, j); }
    }
  }

  /** An alignment pattern stays where only another one is drawn. */
  lemma AlignmentStays(v: nat, m: Grid, m': Grid, a: nat, b: nat, i: nat, j: nat)
    requires 1 <= v <= 40 && i < Lines(v) && j < Lines(v) && a < Lines(v) && b < Lines(v) && (a != i || b != j)
    requires Square(m, SizeOf(v)) && Square(m', SizeOf(v)) && AlignmentDrawn(v, m, a, b)
    requires forall x, y :: 0 <= x < SizeOf(v) && 0 <= y < SizeOf(v) && !InAlignment(v, x, y, i, j) ==>
      m'[y][x] == m[y][x]
    ensures AlignmentDrawn(v, m', a, b)
  {
    hide Centre, Lines, Ring, AlignmentDark;
    forall x, y | 0 <= x < SizeOf(v) && 0 <= y < SizeOf(v) && InAlignment(v, x, y, a, b)
      ensures !InAlignment(v, x, y, i, j)
    {
      AlignmentsApart(v, x, y, a, b, i, j);
    }
  }

  lemma AlignedLineDone(v: nat, start: Grid, marks: Grid, m: Grid, fn: Grid, i: nat)
    requires v >= 1 && Square(start, SizeOf(v)) && Square(marks, SizeOf(v)) && Square(m, SizeOf(v))
      && Square(fn, SizeOf(v))
    requires Aligned(v, start, marks, m, fn, i, Lines(v))
    ensures Aligned(v, start, marks, m, fn, i + 1, 0)
  {
    hide AlignedTo, Lines, AlignmentDrawn;
    forall x, y ensures AlignedTo(v, x, y, i, Lines(v)) <==> AlignedTo(v, x, y, i + 1, 0) { AlignedLine(v, x, y, i); }
  }

  /** Where the version is drawn in i steps. */
  ghost predicate VersionTo(size: nat, x: nat, y: nat, i: nat)
    requires size >= 21 && i <= 18
  {
    exists k :: 0 <= k < i && VersionAt(size, x, y, k)
  }

  predicate VersionAt(size: nat, x: nat, y: nat, k: nat)
    requires size >= 21 && k < 18
  {
    VersionCell(size, k) == Cell(x, y) || VersionCell(size, k) == Cell(y, x)
  }

  /** Only the version is drawn, i bits of it. */
  ghost predicate Versioned(v: nat, start: Grid, marks: Grid, m: Grid, fn: Grid, i: nat)
    requires 7 <= v <= 40 && i <= 18 && Square(start, SizeOf(v)) && Square(marks, SizeOf(v)) && Square(m, SizeOf(v))
      && Square(fn, SizeOf(v))
  {
    (forall x, y :: 0 <= x < SizeOf(v) && 0 <= y < SizeOf(v) ==>
       fn[y][x] == (marks[y][x] || VersionTo(SizeOf(v), x, y, i))
       && (VersionTo(SizeOf(v), x, y, i) || m[y][x] == start[y][x]))
    && forall x, y, k :: 0 <= x < SizeOf(v) && 0 <= y < SizeOf(v) && 0 <= k < i && VersionAt(SizeOf(v), x, y, k) ==>
         m[y][x] == VersionBit(v, k)
  }

  lemma VersionedStep(v: nat, start: Grid, marks: Grid, m: Grid, fn: Grid, m': Grid, fn': Grid, i: nat)
    requires 7 <= v <= 40 && i < 18 && Square(start, SizeOf(v)) && Square(marks, SizeOf(v)) && Square(m, SizeOf(v))
      && Square(fn, SizeOf(v)) && Square(m', SizeOf(v)) && Square(fn', SizeOf(v))
    requires Versioned(v, start, marks, m, fn, i)
    requires forall x, y :: 0 <= x < SizeOf(v) && 0 <= y < SizeOf(v) ==>
      var here := VersionAt(SizeOf(v), x, y, i);
      fn'[y][x] == (fn[y][x] || here) && m'[y][x] == if here then VersionBit(v, i) else m[y][x]
    ensures Versioned(v, start, marks, m', fn', i + 1)
  {
    hide VersionBit, VersionAt;
    forall x, y, k | 0 <= k < i && VersionAt(SizeOf(v), x, y, k) ensures !VersionAt(SizeOf(v), x, y, i) {
      VersionsApart(v, x, y, k, i);
    }
  }

  lemma VersionsApart(v: nat, x: nat, y: nat, k: nat, i: nat)
    requires v >= 7 && k < i < 18 && VersionAt(SizeOf(v), x, y, k)
    ensures !VersionAt(SizeOf(v), x, y, i)
  {}

  lemma VersionedAll(v: nat, start: Grid, marks: Grid, m: Grid, fn: Grid)
    requires 7 <= v <= 40 && Square(start, SizeOf(v)) && Square(marks, SizeOf(v)) && Square(m, SizeOf(v))
      && Square(fn, SizeOf(v))
    requires Versioned(v, start, marks, m, fn, 18)
    ensures VersionDrawn(v, m)
    ensures forall x, y :: 0 <= x < SizeOf(v) && 0 <= y < SizeOf(v) ==>
      fn[y][x] == (marks[y][x] || IsVersion(v, x, y)) && (IsVersion(v, x, y) || m[y][x] == start[y][x])
  {
    hide VersionBit, VersionTo, IsVersion;
    forall x, y ensures VersionTo(SizeOf(v), x, y, 18) <==> IsVersion(v, x, y) { VersionArea(v, x, y); }
    forall k | 0 <= k < 18
      ensures VersionAt(SizeOf(v), VersionCell(SizeOf(v), k).x, VersionCell(SizeOf(v), k).y, k)
      ensures VersionAt(SizeOf(v), VersionCell(SizeOf(v), k).y, VersionCell(SizeOf(v), k).x, k)
    {}
  }

  lemma VersionArea(v: nat, x: nat, y: nat)
    requires v >= 7
    ensures VersionTo(SizeOf(v), x, y, 18) <==> IsVersion(v, x, y)
  {
    var size := SizeOf(v);
    if size - 11 <= x <= size - 9 && y <= 5 {
      assert VersionAt(size, x, y, 3 * y + x - (size - 11));
    } else if size - 11 <= y <= size - 9 && x <= 5 {
      assert VersionAt(size, x, y, 3 * x + y - (size - 11));
    }
  }

  /** Patterns that neither the format nor the version is part of. */
  ghost predicate IsFixed(v: nat, x: nat, y: nat)
    requires v >= 1
  {
    IsTiming(x, y) || IsFinder(SizeOf(v), x, y) || IsAlignment(v, x, y)
  }

  lemma FixedAlone(v: nat, x: nat, y: nat)
    requires 1 <= v <= 40 && IsFixed(v, x, y) && x < SizeOf(v) && y < SizeOf(v)
    ensures !IsVersion(v, x, y) && !IsFormat(SizeOf(v), x, y, 31)
  {
    hide IsTiming, IsFinder, IsVersion, IsFormat, InAlignment, Lines;
    if IsTiming(x, y) { TimingAlone(v, x, y); }
    if IsFinder(SizeOf(v), x, y) { FinderAlone(v, x, y); }
    if IsAlignment(v, x, y) {
      var i, j :| 0 <= i < Lines(v) && 0 <= j < Lines(v) && InAlignment(v, x, y, i, j);
      AlignmentAlone(v, x, y, i, j);
    }
  }

  /** What is drawn stays drawn where its modules do not change. */
  lemma FixedKept(v: nat, a: Grid, b: Grid)
    requires 1 <= v <= 40 && Square(a, SizeOf(v)) && Square(b, SizeOf(v)) && FixedDrawn(v, a)
    requires forall x, y :: 0 <= x < SizeOf(v) && 0 <= y < SizeOf(v) && IsFixed(v, x, y) ==> a[y][x] == b[y][x]
    ensures FixedDrawn(v, b)
  {
    hide Ring, FinderDark, AlignmentDark, Centre, Lines, IsTiming, InFinder, InAlignment;
    forall i, j | 0 <= i < Lines(v) && 0 <= j < Lines(v) ensures AlignmentDrawn(v, b, i, j) {
      assert AlignmentDrawn(v, a, i, j);
      forall x, y | 0 <= x < SizeOf(v) && 0 <= y < SizeOf(v) && InAlignment(v, x, y, i, j) ensures IsFixed(v, x, y) {}
    }
  }

  /** Timing, finders and alignment patterns drawn in turn: where they meet, the later shows. */
  lemma FixedInTurn(v: nat, timed: Grid, found: Grid, marks: Grid, m: Grid, fn: Grid)
    requires 1 <= v <= 40 && Square(timed, SizeOf(v)) && Square(found, SizeOf(v)) && Square(marks, SizeOf(v))
      && Square(m, SizeOf(v)) && Square(fn, SizeOf(v))
    requires forall x, y :: 0 <= x < SizeOf(v) && 0 <= y < SizeOf(v) ==>
      (IsTiming(x, y) ==> timed[y][x] == ((x + y) % 2 == 0))
      && (IsFinder(SizeOf(v), x, y) || found[y][x] == timed[y][x])
    requires forall k :: 0 <= k < 3 ==> FinderDrawn(SizeOf(v), found, k)
    requires Aligned(v, found, marks, m, fn, Lines(v), 0)
    ensures FixedDrawn(v, m)
    ensures forall x, y :: 0 <= x < SizeOf(v) && 0 <= y < SizeOf(v) ==>
      fn[y][x] == (marks[y][x] || IsAlignment(v, x, y))
  {
    hide AlignedTo, IsTiming, Lines, Ring, FinderDark, AlignmentDrawn, Centre;
    forall x, y
      ensures AlignedTo(v, x, y, Lines(v), 0) <==> IsAlignment(v, x, y)
      ensures IsFinder(SizeOf(v), x, y) ==> !IsAlignment(v, x, y)
    {
      AlignedAll(v, x, y);
      FinderNoAlignment(v, x, y);
    }
    assert FinderDrawn(SizeOf(v), found, 0) && FinderDrawn(SizeOf(v), found, 1) && FinderDrawn(SizeOf(v), found, 2);
  }

  lemma FinderNoAlignment(v: nat, x: nat, y: nat)
    requires 1 <= v <= 40
    ensures IsFinder(SizeOf(v), x, y) ==> !IsAlignment(v, x, y)
  {
    hide IsFinder, InAlignment, Lines;
    forall i, j | 0 <= i < Lines(v) && 0 <= j < Lines(v) && InAlignment(v, x, y, i, j)
      ensures !IsFinder(SizeOf(v), x, y)
    {
      AlignmentAlone(v, x, y, i, j);
    }
  }

  lemma VersionKept(v: nat, a: Grid, b: Grid)
    requires 1 <= v <= 40 && Square(a, SizeOf(v)) && Square(b, SizeOf(v)) && VersionDrawn(v, a)
    requires forall x, y :: 0 <= x < SizeOf(v) && 0 <= y < SizeOf(v) && IsVersion(v, x, y) ==> a[y][x] == b[y][x]
    ensures VersionDrawn(v, b)
  {
    hide VersionBit;
    if v >= 7 {
      forall i | 0 <= i < 18
        ensures IsVersion(v, VersionCell(SizeOf(v), i).x, VersionCell(SizeOf(v), i).y)
        ensures IsVersion(v, VersionCell(SizeOf(v), i).y, VersionCell(SizeOf(v), i).x)
      {}
    }
  }
}
