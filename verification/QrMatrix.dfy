/** The matrix as the encoder changes it in place: drawing the format, placing the codewords,
    trying the masks. */
module QrMatrix {
  import opened Wrappers
  import opened Arithmetic
  import opened QrStream
  import opened QrLayout
  import opened QrPatterns

  class Matrix {
    const size: nat
    var m: Grid
    var fn: Grid

    ghost predicate Valid()
      reads this
    {
      IsSize(size) && Square(m, size) && Square(fn, size)
    }

    /** All light and free. */
    constructor (size: nat)
      requires IsSize(size)
      ensures Valid() && this.size == size && this.m == this.fn == Marked(size, {})
    {
      this.size := size;
      m := seq(size, y => seq(size, x => false));
      fn := m;
      new;
      assert forall y :: 0 <= y < size ==> m[y] == Marked(size, {})[y];
    }

    method SetModule(x: nat, y: nat, dark: bool)
      requires Valid() && x < size && y < size
      modifies this
      ensures Valid() && m == Update(old(m), x, y, dark) && fn == Update(old(fn), x, y, true)
    {
      m := m[y := m[y][x := dark]];
      fn := fn[y := fn[y][x := true]];
    }

    /** The two lines that count modules, dark and light by turns. */
    method Timing()
      requires Valid()
      modifies this
      ensures Valid()
      ensures forall x, y :: 0 <= x < size && 0 <= y < size ==>
        fn[y][x] == (old(fn[y][x]) || IsTiming(x, y))
        && m[y][x] == if IsTiming(x, y) then (x + y) % 2 == 0 else old(m[y][x])
    {
      ghost var start, marks := m, fn;
      for i := 0 to size
        invariant Valid()
        invariant forall x, y :: 0 <= x < size && 0 <= y < size ==>
          fn[y][x] == (marks[y][x] || TimingTo(x, y, i))
          && m[y][x] == if TimingTo(x, y, i) then (x + y) % 2 == 0 else start[y][x]
      {
        SetModule(6, i, i % 2 == 0);
        SetModule(i, 6, i % 2 == 0);
      }
    }

    /** Rings around a centre, as far as they are inside: dark, but for those that are light. */
    method Rings(cx: int, cy: int, r: nat, light: set<nat>)
      requires Valid()
      modifies this
      ensures Valid()
      ensures forall x, y :: 0 <= x < size && 0 <= y < size ==>
        var q := Ring(x, y, cx, cy);
        fn[y][x] == (old(fn[y][x]) || q <= r) && m[y][x] == if q <= r then q !in light else old(m[y][x])
    {
      hide Ring;
      ghost var start, marks := m, fn;
      AllInside(cx, cy, r);
      for y := cy - r to cy + r + 1
        invariant Valid()
        invariant forall x', y' :: 0 <= x' < size && 0 <= y' < size ==>
          var q, done := Ring(x', y', cx, cy), y' < y;
          fn[y'][x'] == (marks[y'][x'] || (q <= r && done))
          && m[y'][x'] == if q <= r && done then q !in light else start[y'][x']
      {
        RowInside(y, cx, cy, r);
        for x := cx - r to cx + r + 1
          invariant Valid()
          invariant forall x', y' :: 0 <= x' < size && 0 <= y' < size ==>
            var q, done := Ring(x', y', cx, cy), y' < y || (y' == y && x' < x);
            fn[y'][x'] == (marks[y'][x'] || (q <= r && done))
            && m[y'][x'] == if q <= r && done then q !in light else start[y'][x']
        {
          RingInside(x, y, cx, cy, r);
          if 0 <= x < size && 0 <= y < size {
            SetModule(x, y, Ring(x, y, cx, cy) !in light);
          }
        }
      }
    }

    /** The finders, each with its light border. */
    method Finders()
      requires Valid()
      modifies this
      ensures Valid() && forall k :: 0 <= k < 3 ==> FinderDrawn(size, m, k)
      ensures forall x, y :: 0 <= x < size && 0 <= y < size ==>
        fn[y][x] == (old(fn[y][x]) || IsFinder(size, x, y)) && (IsFinder(size, x, y) || m[y][x] == old(m[y][x]))
    {
      hide Ring, FinderDark;
      FindersApart(size);
      FinderPictures(size);
      Rings(3, 3, 4, {2, 4});
      Rings(size - 4, 3, 4, {2, 4});
      Rings(3, size - 4, 4, {2, 4});
    }

    /** Every function pattern, in the encoder's order. */
    method DrawPatterns(v: nat)
      requires Valid() && 1 <= v <= 40 && size == SizeOf(v) && fn == Marked(size, {})
      modifies this
      ensures Valid() && fn == FunctionMap(v) && FormatReserved(size, fn) && PatternsDrawn(v, m)
    {
      hide IsTiming, IsFinder, IsAlignment, IsVersion, FinderDrawn, Aligned, FixedDrawn, VersionDrawn, DrawFormat,
          MarkFormat, IsFormat;
      Timing();
      ghost var timed := m;
      Finders();
      ghost var found, marks := m, fn;
      Alignment(v);
      FixedInTurn(v, timed, found, marks, m, fn);
      ghost var fixed, before := m, fn;
      Format(0);
      FormatOver(v, fixed, before);
      ghost var formatted := m;
      if v >= 7 {
        Version(v);
      } else {
        NoVersion(v, m);
      }
      VersionOver(v, formatted, m);
      assert forall y :: 0 <= y < size ==> fn[y] == FunctionMap(v)[y];
    }

    /** The lines' positions: 6, then from the last one back, each put before the others. */
    static method Positions(v: nat) returns (pos: seq<int>)
      requires 1 <= v <= 40
      ensures |pos| == Lines(v) && forall i :: 0 <= i < |pos| ==> pos[i] == Centre(v, i)
    {
      pos := [];
      if v > 1 {
        var na := v / 7 + 2;
        var step := (v * 8 + na * 3 + 5) / (na * 4 - 4) * 2;
        pos := [6];
        var x: int := SizeOf(v) - 7;
        while |pos| < na
          invariant 1 <= |pos| <= na && pos[0] == 6 && x == SizeOf(v) - 7 - (|pos| - 1) * step
          invariant forall i :: 1 <= i < |pos| ==> pos[i] == SizeOf(v) - 7 - (|pos| - 1 - i) * step
        {
          assert (|pos| - 1) * step + step == |pos| * step;
          pos := pos[..1] + [x] + pos[1..];
          x := x - step;
        }
      }
    }

    method Alignment(v: nat)
      requires Valid() && 1 <= v <= 40 && size == SizeOf(v)
      modifies this
      ensures Valid() && Aligned(v, old(m), old(fn), m, fn, Lines(v), 0)
    {
      hide Lines, Centre, Aligned;
      ghost var start, marks := m, fn;
      var pos := Positions(v);
      AlignedStart(v, m, fn);
      for i := 0 to |pos|
        invariant Valid() && Aligned(v, start, marks, m, fn, i, 0)
      {
        for j := 0 to |pos|
          invariant Valid() && Aligned(v, start, marks, m, fn, i, j)
        {
          ghost var m0, fn0 := m, fn;
          if !((i == 0 && (j == 0 || j == |pos| - 1)) || (i == |pos| - 1 && j == 0)) {
            Rings(pos[i], pos[j], 2, {1});
          }
          AlignedStep(v, start, marks, m0, fn0, m, fn, i, j);
        }
        AlignedLineDone(v, start, marks, m, fn, i);
      }
    }

    /** Both copies of the version, each bit in both. */
    method Version(v: nat)
      requires Valid() && 7 <= v <= 40 && size == SizeOf(v)
      modifies this
      ensures Valid() && VersionDrawn(v, m)
      ensures forall x, y :: 0 <= x < size && 0 <= y < size ==>
        fn[y][x] == (old(fn[y][x]) || IsVersion(v, x, y)) && (IsVersion(v, x, y) || m[y][x] == old(m[y][x]))
    {
      hide VersionBit, Versioned;
      ghost var start, marks := m, fn;
      assert Versioned(v, start, marks, m, fn, 0) by { VersionedNone(v, m, fn); }
      for i := 0 to 18
        invariant Valid() && Versioned(v, start, marks, m, fn, i)
      {
        ghost var m0, fn0 := m, fn;
        var bit := VersionBit(v, i);
        var a, c := size - 11 + i % 3, i / 3;
        SetModule(a, c, bit);
        SetModule(c, a, bit);
        VersionedStep(v, start, marks, m0, fn0, m, fn, i);
      }
      VersionedAll(v, start, marks, m, fn);
    }

    method Format(mask: nat)
      requires Valid() && mask < 8
      modifies this
      ensures Valid() && m == DrawFormat(size, mask, old(m), 31) && fn == MarkFormat(size, old(fn), 31)
    {
      hide FormatBit, DrawFormat, MarkFormat;
      FormatCorner(mask);
      FormatEdges(mask, old(m), old(fn));
    }

    /** The copy beside the corner finder. */
    method FormatCorner(mask: nat)
      requires Valid() && mask < 8
      modifies this
      ensures Valid() && m == DrawFormat(size, mask, old(m), 15) && fn == MarkFormat(size, old(fn), 15)
    {
      hide FormatBit, DrawFormat, MarkFormat;
      ghost var start, marks := m, fn;
      DrawNone(size, mask, start, marks);
      for k := 0 to 6
        invariant Valid() && m == DrawFormat(size, mask, start, k) && fn == MarkFormat(size, marks, k)
      {
        DrawNext(size, mask, start, marks, k, 8, k, FormatBit(mask, k));
        SetModule(8, k, FormatBit(mask, k));
      }
      DrawNext(size, mask, start, marks, 6, 8, 7, FormatBit(mask, 6));
      SetModule(8, 7, FormatBit(mask, 6));
      DrawNext(size, mask, start, marks, 7, 8, 8, FormatBit(mask, 7));
      SetModule(8, 8, FormatBit(mask, 7));
      DrawNext(size, mask, start, marks, 8, 7, 8, FormatBit(mask, 8));
      SetModule(7, 8, FormatBit(mask, 8));
      for k := 9 to 15
        invariant Valid() && m == DrawFormat(size, mask, start, k) && fn == MarkFormat(size, marks, k)
      {
        DrawNext(size, mask, start, marks, k, 14 - k, 8, FormatBit(mask, k));
        SetModule(14 - k, 8, FormatBit(mask, k));
      }
    }

    /** The copy along the other two finders, and the dark module. */
    method FormatEdges(mask: nat, ghost start: Grid, ghost marks: Grid)
      requires Valid() && mask < 8 && Square(start, size) && Square(marks, size)
      requires m == DrawFormat(size, mask, start, 15) && fn == MarkFormat(size, marks, 15)
      modifies this
      ensures Valid() && m == DrawFormat(size, mask, start, 31) && fn == MarkFormat(size, marks, 31)
    {
      hide FormatBit, DrawFormat, MarkFormat;
      for k := 0 to 8
        invariant Valid() && m == DrawFormat(size, mask, start, 15 + k) && fn == MarkFormat(size, marks, 15 + k)
      {
        DrawNext(size, mask, start, marks, 15 + k, size - 1 - k, 8, FormatBit(mask, k));
        SetModule(size - 1 - k, 8, FormatBit(mask, k));
      }
      for k := 8 to 15
        invariant Valid() && m == DrawFormat(size, mask, start, 15 + k) && fn == MarkFormat(size, marks, 15 + k)
      {
        DrawNext(size, mask, start, marks, 15 + k, 8, size - 15 + k, FormatBit(mask, k));
        SetModule(8, size - 15 + k, FormatBit(mask, k));
      }
      DrawNext(size, mask, start, marks, 30, 8, size - 8, true);
      SetModule(8, size - 8, true);
    }

    /** The zigzag: every free module takes the next bit, while there are any. */
    method Place(words: seq<byte>)
      requires Valid()
      modifies this`m
      ensures Valid() && PlacedTo(size, fn, old(m), words, m, Strips(size), 0)
    {
      hide FreeBefore, WordBit, Expected, PlacedTo, ZigzagAt;
      ghost var start := m;
      ghost var s: nat := 0;
      var i := 0;
      var x: int := size - 1;
      NothingPlaced(size, fn, start, words);
      while x >= 1
        invariant Valid() && s <= Strips(size)
        invariant x == if size - 1 - 2 * s >= 6 then size - 1 - 2 * s else StripX(size, s)
        invariant i == Min(FreeBefore(size, fn, s, 0), 8 * |words|)
        invariant PlacedTo(size, fn, start, words, m, s, 0)
      {
        if x == 6 {
          x := 5;
        }
        i := PlaceStrip(words, start, s, x, i);
        NextStrip(size, fn, start, words, m, s);
        s := s + 1;
        x := x - 2;
      }
    }

    /** The two columns of a strip, up or down. */
    method PlaceStrip(words: seq<byte>, ghost start: Grid, ghost s: nat, x: int, taken: nat) returns (i: nat)
      requires Valid() && Square(start, size) && s < Strips(size) && x == StripX(size, s)
      requires taken == Min(FreeBefore(size, fn, s, 0), 8 * |words|) && PlacedTo(size, fn, start, words, m, s, 0)
      modifies this`m
      ensures Valid() && PlacedTo(size, fn, start, words, m, s, 2 * size)
      ensures i == Min(FreeBefore(size, fn, s, 2 * size), 8 * |words|)
    {
      hide FreeBefore, WordBit, Expected, PlacedTo, ZigzagAt, Strips, StripX;
      i := taken;
      for v := 0 to size
        invariant Valid()
        invariant i == Min(FreeBefore(size, fn, s, 2 * v), 8 * |words|)
        invariant PlacedTo(size, fn, start, words, m, s, 2 * v)
      {
        for j := 0 to 2
          invariant Valid()
          invariant i == Min(FreeBefore(size, fn, s, 2 * v + j), 8 * |words|)
          invariant PlacedTo(size, fn, start, words, m, s, 2 * v + j)
        {
          var xx := x - j;
          var y := if (x + 1) / 2 % 2 == 0 then size - 1 - v else v;
          ZigzagCell(size, s, v, j);
          PlaceStep(size, fn, start, words, m, s, 2 * v + j);
          if !fn[y][xx] && i < 8 * |words| {
            var bit := TakeBit(words, i);
            m := m[y := m[y][xx := bit]];
            i := i + 1;
          }
        }
      }
    }

    /** Each free module under the mask turned over, row by row. */
    method Flip(k: nat)
      requires Valid() && k < 8
      modifies this`m
      ensures Valid() && m == Flipped(size, fn, old(m), k)
    {
      hide Mask;
      ghost var start := m;
      for y := 0 to size
        invariant Valid()
        invariant forall y' :: 0 <= y' < y ==> m[y'] == Flipped(size, fn, start, k)[y']
        invariant forall y' :: y <= y' < size ==> m[y'] == start[y']
      {
        for x := 0 to size
          invariant Valid()
          invariant forall y' :: 0 <= y' < size && y' != y ==>
            m[y'] == if y' < y then Flipped(size, fn, start, k)[y'] else start[y']
          invariant forall x' :: 0 <= x' < x ==> m[y][x'] == Flipped(size, fn, start, k)[y][x']
          invariant forall x' :: x <= x' < size ==> m[y][x'] == start[y][x']
        {
          if !fn[y][x] && Mask(k, x, y) {
            m := m[y := m[y][x := !m[y][x]]];
          }
        }
        assert m[y] == Flipped(size, fn, start, k)[y];
      }
      assert m == Flipped(size, fn, start, k);
    }

    /** Each mask on trial, by a penalty the caller gives: the first of the lowest stays. */
    method ChooseMask(score: Grid -> int) returns (best: nat)
      requires Valid() && FormatReserved(size, fn)
      modifies this
      ensures Valid() && fn == old(fn) && best < 8
      ensures m == Candidate(size, fn, old(m), best)
      ensures forall k :: 0 <= k < 8 ==> score(m) <= score(Candidate(size, fn, old(m), k))
      ensures forall k :: 0 <= k < best ==> score(m) < score(Candidate(size, fn, old(m), k))
    {
      hide DrawFormat, MarkFormat, Flipped, FormatReserved, Candidate;
      ghost var base, marks := m, fn;
      MarkAgain(size, marks);
      var low: Option<int> := None;
      best := 0;
      TrialsIndependent(size, fn, base, 0, 0);
      for k := 0 to 8
        invariant Valid() && fn == marks
        invariant m == if k == 0 then base else DrawFormat(size, k - 1, base, 31)
        invariant best < 8 && (k > 0 ==> best < k)
        invariant low == if k == 0 then None else Some(score(Candidate(size, fn, base, best)))
        invariant forall j :: 0 <= j < k ==>
          score(Candidate(size, fn, base, best)) <= score(Candidate(size, fn, base, j))
        invariant k > 0 ==>
          forall j :: 0 <= j < best ==> score(Candidate(size, fn, base, best)) < score(Candidate(size, fn, base, j))
      {
        if k > 0 { TrialsIndependent(size, fn, base, k - 1, k); }
        CandidateIs(size, fn, base, k);
        Flip(k);
        Format(k);
        assert m == Candidate(size, fn, base, k);
        var s := score(m);
        if low == None || s < low.value {
          low := Some(s);
          best := k;
        }
        Flip(k);
        TrialsIndependent(size, fn, base, k, k);
      }
      TrialsIndependent(size, fn, base, 7, best);
      Flip(best);
      Format(best);
    }
  }

  /** Timing modules drawn after i steps. */
  predicate TimingTo(x: nat, y: nat, i: nat) { (x == 6 && y < i) || (y == 6 && x < i) }

  lemma FinderPictures(size: nat)
    requires size >= 21
    ensures forall x: nat, y: nat, k: nat :: k < 3 && InFinder(size, x, y, k) ==>
      var (cx, cy) := Finder(size, k); FinderDark(x, y, cx, cy) == (Ring(x, y, cx, cy) !in {2, 4})
  {
    hide Ring, FinderDark;
    forall x: nat, y: nat, k: nat | k < 3 && InFinder(size, x, y, k)
      ensures var (cx, cy) := Finder(size, k); FinderDark(x, y, cx, cy) == (Ring(x, y, cx, cy) !in {2, 4})
    {
      FinderRings(x, y, Finder(size, k).0, Finder(size, k).1);
    }
  }

  lemma FindersApart(size: nat)
    requires size >= 21
    ensures forall x, y :: InFinder(size, x, y, 0) ==> !InFinder(size, x, y, 1) && !InFinder(size, x, y, 2)
    ensures forall x, y :: InFinder(size, x, y, 1) ==> !InFinder(size, x, y, 2)
  {}

  /** The format leaves the patterns before it. */
  lemma FormatOver(v: nat, m: Grid, fn: Grid)
    requires 1 <= v <= 40 && Square(m, SizeOf(v)) && Square(fn, SizeOf(v)) && FixedDrawn(v, m)
    ensures FixedDrawn(v, DrawFormat(SizeOf(v), 0, m, 31))
    ensures forall x, y :: 0 <= x < SizeOf(v) && 0 <= y < SizeOf(v) ==>
      MarkFormat(SizeOf(v), fn, 31)[y][x] == (fn[y][x] || IsFormat(SizeOf(v), x, y, 31))
  {
    hide FixedDrawn, IsFixed, DrawFormat, MarkFormat, IsFormat;
    MarkedFormat(SizeOf(v), fn, 31);
    DrawnFormat(SizeOf(v), 0, m, 31);
    forall x, y | 0 <= x < SizeOf(v) && 0 <= y < SizeOf(v) && IsFixed(v, x, y) ensures !IsFormat(SizeOf(v), x, y, 31) {
      FixedAlone(v, x, y);
    }
    FixedKept(v, m, DrawFormat(SizeOf(v), 0, m, 31));
  }

  /** So does the version. */
  lemma VersionOver(v: nat, m: Grid, m': Grid)
    requires 1 <= v <= 40 && Square(m, SizeOf(v)) && Square(m', SizeOf(v)) && FixedDrawn(v, m)
    requires forall x, y :: 0 <= x < SizeOf(v) && 0 <= y < SizeOf(v) && !IsVersion(v, x, y) ==> m'[y][x] == m[y][x]
    ensures FixedDrawn(v, m')
  {
    hide FixedDrawn, IsFixed, IsVersion;
    forall x, y | 0 <= x < SizeOf(v) && 0 <= y < SizeOf(v) && IsFixed(v, x, y) ensures !IsVersion(v, x, y) {
      FixedAlone(v, x, y);
    }
    FixedKept(v, m, m');
  }

  lemma NoVersion(v: nat, m: Grid)
    requires 1 <= v < 7 && Square(m, SizeOf(v))
    ensures VersionDrawn(v, m) && forall x, y :: !IsVersion(v, x, y)
  {}

  lemma VersionedNone(v: nat, m: Grid, fn: Grid)
    requires 7 <= v <= 40 && Square(m, SizeOf(v)) && Square(fn, SizeOf(v))
    ensures Versioned(v, m, fn, m, fn, 0)
  {
    hide VersionBit;
  }

  lemma RingInside(x: int, y: int, cx: int, cy: int, r: nat)
    requires cx - r <= x <= cx + r && cy - r <= y <= cy + r
    ensures Ring(x, y, cx, cy) <= r
  {}

  /** Modules of a row that are on the rings are between these columns. */
  lemma RowInside(y: int, cx: int, cy: int, r: nat)
    ensures forall x :: Ring(x, y, cx, cy) <= r ==> cx - r <= x <= cx + r
  {}

  lemma AllInside(cx: int, cy: int, r: nat)
    ensures forall x, y :: Ring(x, y, cx, cy) <= r ==> cx - r <= x <= cx + r && cy - r <= y <= cy + r
  {}

  lemma CandidateIs(size: nat, fn: Grid, base: Grid, k: nat)
    requires size >= 21 && Square(fn, size) && Square(base, size) && k < 8
    ensures Candidate(size, fn, base, k) == DrawFormat(size, k, Flipped(size, fn, base, k), 31)
  {}

  lemma DrawNone(size: nat, mask: nat, g: Grid, fn: Grid)
    requires size >= 21 && mask < 8 && Square(g, size) && Square(fn, size)
    ensures DrawFormat(size, mask, g, 0) == g && MarkFormat(size, fn, 0) == fn
  {}

  lemma DrawNext(size: nat, mask: nat, g: Grid, fn: Grid, n: nat, x: nat, y: nat, bit: bool)
    requires size >= 21 && mask < 8 && Square(g, size) && Square(fn, size) && n < 31
    requires FormatCell(size, n) == Cell(x, y) && FormatValue(mask, n) == bit
    ensures x < size && y < size
    ensures DrawFormat(size, mask, g, n + 1) == Update(DrawFormat(size, mask, g, n), x, y, bit)
    ensures MarkFormat(size, fn, n + 1) == Update(MarkFormat(size, fn, n), x, y, true)
  {
    hide FormatCell, FormatValue;
    FormatCellsInside(size, n);
  }

  lemma NothingPlaced(size: nat, fn: Grid, start: Grid, words: seq<byte>)
    requires IsSize(size) && Square(fn, size) && Square(start, size)
    ensures PlacedTo(size, fn, start, words, start, 0, 0) && FreeBefore(size, fn, 0, 0) == 0
  {
    hide WordBit;
  }

  lemma ZigzagCell(size: nat, s: nat, v: nat, j: nat)
    requires IsSize(size) && s < Strips(size) && v < size && j < 2
    ensures var x := StripX(size, s);
            1 <= x < size
            && ZigzagAt(size, s, 2 * v + j) == Cell(x - j, if (x + 1) / 2 % 2 == 0 then size - 1 - v else v)
  {
    StripBounds(size, s);
  }

  method TakeBit(words: seq<byte>, i: nat) returns (bit: bool)
    requires i < 8 * |words|
    ensures bit == WordBit(words, i)
  {
    return words[i / 8] / Pow2(7 - i % 8) % 2 == 1;
  }
}
