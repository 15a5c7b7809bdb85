/** How much room the function patterns of src/main/qr.ts leave: enough for every codeword,
    in each of the twenty versions. Counted by covering the function cells with blocks. */
module QrRoom {
  import opened Basics
  import opened QrCodewords
  import opened QrMatrix

  function Interval(lo: int, hi: int): (s: set<int>)
    ensures forall x :: x in s <==> lo <= x < hi
    decreases hi - lo
  {
    if lo >= hi then {} else Interval(lo, hi - 1) + {hi - 1}
  }

  lemma {:induction false} IntervalSize(lo: int, hi: int)
    requires lo <= hi
    ensures |Interval(lo, hi)| == hi - lo
    decreases hi - lo
  {
    if lo < hi {
      IntervalSize(lo, hi - 1);
    }
  }

  lemma UnionSize<T>(a: set<T>, b: set<T>)
    ensures |a + b| <= |a| + |b|
  {
    assert |a + b| == |a| + |b| - |a * b|;
  }

  lemma Pick<T>(s: set<T>) returns (x: T)
    requires |s| > 0
    ensures x in s
  {
    x :| x in s;
  }

  /** All the cells in some rows and some columns. */
  function Block(rows: set<int>, cols: set<int>): set<(int, int)> {
    set r, c | r in rows && c in cols :: (r, c)
  }

  lemma BlockWithoutRow(rows: set<int>, cols: set<int>, r: int)
    requires r in rows
    ensures Block(rows, cols) == Block(rows - {r}, cols) + Block({r}, cols)
    ensures Block(rows - {r}, cols) * Block({r}, cols) == {}
  {
  }

  lemma {:induction false} BlockSize(rows: set<int>, cols: set<int>)
    ensures |Block(rows, cols)| == |rows| * |cols|
    decreases rows
  {
    if |rows| == 0 {
      assert Block(rows, cols) == {};
    } else {
      var r := Pick(rows);
      BlockSize(rows - {r}, cols);
      BlockRowSize(r, cols);
      BlockWithoutRow(rows, cols, r);
      hide Block;
      MulAdd(|rows| - 1, 1, |cols|);
    }
  }

  lemma {:induction false} BlockRowSize(r: int, cols: set<int>)
    ensures |Block({r}, cols)| == |cols|
    decreases cols
  {
    if |cols| == 0 {
      assert Block({r}, cols) == {};
    } else {
      var c := Pick(cols);
      BlockRowSize(r, cols - {c});
      assert Block({r}, cols) == Block({r}, cols - {c}) + {(r, c)};
    }
  }

  lemma BlockBound(rows: set<int>, cols: set<int>, h: nat, w: nat)
    requires |rows| <= h && |cols| <= w
    ensures |Block(rows, cols)| <= h * w
  {
    BlockSize(rows, cols);
    MulMono(|rows|, h, |cols|);
    MulMono(|cols|, w, h);
  }

  function Band(centre: int): set<int> {
    Interval(centre - 2, centre + 3)
  }

  lemma BandSize(centre: int)
    ensures |Band(centre)| == 5
  {
    hide Interval;
    IntervalSize(centre - 2, centre + 3);
  }

  /** The cells within two of some centre. */
  function Bands(centres: seq<nat>): set<int>
    decreases centres
  {
    if centres == [] then {} else Band(centres[0]) + Bands(centres[1..])
  }

  lemma {:induction false} BandsSize(centres: seq<nat>)
    ensures |Bands(centres)| <= 5 * |centres|
    decreases centres
  {
    hide Band;
    if centres != [] {
      BandsSize(centres[1..]);
      BandSize(centres[0]);
      UnionSize(Band(centres[0]), Bands(centres[1..]));
    }
  }

  lemma {:induction false} InBands(centres: seq<nat>, i: nat, x: int)
    requires i < |centres| && Near(x, centres[i])
    ensures x in Bands(centres)
    decreases centres
  {
    if i > 0 {
      InBands(centres[1..], i - 1, x);
    }
  }

  /* ---------- The cover ---------- */

  predicate AlignShape(ap: seq<nat>, size: nat) {
    && (|ap| == 0 || 2 <= |ap| <= 4)
    && (|ap| > 0 ==> ap[0] == 6 && ap[|ap| - 1] == size - 7)
    && (forall i :: 1 <= i < |ap| - 1 ==> 10 <= ap[i] <= size - 11)
  }

  function AlignCount(v: nat): nat {
    if v == 0 then 0 else if v < 6 then 2 else if v < 13 then 3 else 4
  }

  lemma AlignShapes(v: nat)
    requires v < VERSIONS
    ensures |Align(v)| == AlignCount(v) && AlignShape(Align(v), Size(v))
  {
  }

  function Middle(ap: seq<nat>): seq<nat> {
    if |ap| < 2 then [] else ap[1..|ap| - 1]
  }

  function Outer(ap: seq<nat>): seq<nat> {
    if |ap| < 2 then [] else ap[1..]
  }

  /** The rows or columns beside the timing line that a pattern centred on it covers. */
  const BESIDE: set<int> := {4, 5, 7, 8}

  ghost function FinderCover(size: nat): set<(int, int)> {
    Block(Interval(0, 8), Interval(0, 8) + Interval(size - 8, size)) + Block(Interval(size - 8, size), Interval(0, 8))
  }

  ghost function TimingCover(size: nat): set<(int, int)> {
    Block({6}, Interval(8, size - 8)) + Block(Interval(8, size - 8), {6})
  }

  ghost function AlignCover(ap: seq<nat>): set<(int, int)> {
    Block(BESIDE, Bands(Middle(ap))) + Block(Bands(Middle(ap)), BESIDE) + Block(Bands(Outer(ap)), Bands(Outer(ap)))
  }

  ghost function FormatCover(size: nat): set<(int, int)> {
    Block({8}, Interval(0, 6) + Interval(7, 9) + Interval(size - 8, size))
      + Block(Interval(0, 6) + {7} + Interval(size - 8, size), {8})
  }

  ghost function VersionCover(v: nat): set<(int, int)> {
    if v + 1 < 7 then {}
    else
      Block(Interval(Size(v) - 11, Size(v) - 8), Interval(0, 6)) +
      Block(Interval(0, 6), Interval(Size(v) - 11, Size(v) - 8))
  }

  lemma FinderCoverSize(size: nat)
    requires size >= 21
    ensures |FinderCover(size)| <= 192
  {
    hide Interval, Block;
    var a, b := Interval(0, 8), Interval(size - 8, size);
    IntervalSize(0, 8);
    IntervalSize(size - 8, size);
    UnionSize(a, b);
    BlockBound(a, a + b, 8, 16);
    BlockBound(b, a, 8, 8);
    UnionSize(Block(a, a + b), Block(b, a));
  }

  lemma TimingCoverSize(size: nat)
    requires size >= 21
    ensures |TimingCover(size)| <= 2 * (size - 16)
  {
    hide Interval, Block;
    var a := Interval(8, size - 8);
    IntervalSize(8, size - 8);
    BlockBound({6}, a, 1, size - 16);
    BlockBound(a, {6}, size - 16, 1);
    UnionSize(Block({6}, a), Block(a, {6}));
  }

  function AlignArea(k: nat): nat {
    if k < 2 then 0 else 40 * (k - 2) + 25 * (k - 1) * (k - 1)
  }

  lemma AlignCoverSize(ap: seq<nat>)
    requires |ap| <= 4 && |ap| != 1
    ensures |AlignCover(ap)| <= AlignArea(|ap|)
  {
    hide Block, Bands;
    var k := |ap|;
    var m, o := Bands(Middle(ap)), Bands(Outer(ap));
    BandsSize(Middle(ap));
    BandsSize(Outer(ap));
    var a, b := |Middle(ap)|, |Outer(ap)|;
    BlockBound(BESIDE, m, 4, 5 * a);
    BlockBound(m, BESIDE, 5 * a, 4);
    BlockBound(o, o, 5 * b, 5 * b);
    UnionSize(Block(BESIDE, m), Block(m, BESIDE));
    UnionSize(Block(BESIDE, m) + Block(m, BESIDE), Block(o, o));
    assert b == 0 || b == 1 || b == 2 || b == 3;
  }

  lemma FormatCoverSize(size: nat)
    requires size >= 21
    ensures |FormatCover(size)| <= 31
  {
    hide Interval, Block;
    var a, b, e := Interval(0, 6), Interval(7, 9), Interval(size - 8, size);
    IntervalSize(0, 6);
    IntervalSize(7, 9);
    IntervalSize(size - 8, size);
    UnionSize(a, b);
    UnionSize(a + b, e);
    UnionSize(a, {7});
    UnionSize(a + {7}, e);
    BlockBound({8}, a + b + e, 1, 16);
    BlockBound(a + {7} + e, {8}, 15, 1);
    UnionSize(Block({8}, a + b + e), Block(a + {7} + e, {8}));
  }

  lemma VersionCoverSize(v: nat)
    ensures |VersionCover(v)| <= if v + 1 < 7 then 0 else 36
  {
    hide Interval, Block;
    if v + 1 >= 7 {
      var a, b := Interval(Size(v) - 11, Size(v) - 8), Interval(0, 6);
      IntervalSize(Size(v) - 11, Size(v) - 8);
      IntervalSize(0, 6);
      BlockBound(a, b, 3, 6);
      BlockBound(b, a, 6, 3);
      UnionSize(Block(a, b), Block(b, a));
    }
  }

  ghost function Cover(v: nat): set<(int, int)>
    requires v < VERSIONS
  {
    FinderCover(Size(v)) + TimingCover(Size(v)) + AlignCover(Align(v)) + FormatCover(Size(v)) + VersionCover(v)
  }

  function CoverArea(v: nat): nat {
    192 + 2 * (Size(v) - 16) + AlignArea(AlignCount(v)) + 31 + (if v + 1 < 7 then 0 else 36)
  }

  lemma CoverSize(v: nat)
    requires v < VERSIONS
    ensures |Cover(v)| <= CoverArea(v)
  {
    hide FinderCover, TimingCover, AlignCover, FormatCover, VersionCover, Align, AlignArea;
    var size := Size(v);
    AlignShapes(v);
    FinderCoverSize(size);
    TimingCoverSize(size);
    AlignCoverSize(Align(v));
    FormatCoverSize(size);
    VersionCoverSize(v);
    UnionSize(FinderCover(size), TimingCover(size));
    UnionSize(FinderCover(size) + TimingCover(size), AlignCover(Align(v)));
    UnionSize(FinderCover(size) + TimingCover(size) + AlignCover(Align(v)), FormatCover(size));
    UnionSize(FinderCover(size) + TimingCover(size) + AlignCover(Align(v)) + FormatCover(size), VersionCover(v));
  }

  lemma AlignCovered(ap: seq<nat>, size: nat, i: nat, j: nat, r: int, c: int)
    requires AlignShape(ap, size) && i < |ap| && j < |ap| && OnPattern(size, ap[i], ap[j], r, c)
    ensures (r, c) in AlignCover(ap) || (r, c) in TimingCover(size)
  {
    hide Bands;
    var k := |ap|;
    if i == 0 {
      InBands(Middle(ap), j - 1, c);
    } else if j == 0 {
      InBands(Middle(ap), i - 1, r);
    } else {
      InBands(Outer(ap), i - 1, r);
      InBands(Outer(ap), j - 1, c);
    }
  }

  lemma Covered(v: nat, r: int, c: int)
    requires v < VERSIONS && 0 <= r < Size(v) && 0 <= c < Size(v) && FunctionCell(v, r, c)
    ensures (r, c) in Cover(v)
  {
    hide Align, AlignCover, AlignShape, OnPattern;
    if AlignCell(v, r, c) {
      var i, j :| 0 <= i < |Align(v)| && 0 <= j < |Align(v)| && OnPattern(Size(v), Align(v)[i], Align(v)[j], r, c);
      AlignShapes(v);
      AlignCovered(Align(v), Size(v), i, j, r, c);
    } else if FormatCell(Size(v), r, c) {
    } else if TimingCell(Size(v), r, c) {
    }
  }

  /* ---------- The free cells ---------- */

  ghost function FunctionSet(v: nat): set<(int, int)>
    requires v < VERSIONS
  {
    set cell | cell in Block(Interval(0, Size(v)), Interval(0, Size(v))) && !Free(v, cell)
  }

  ghost function FreeSet(v: nat): set<(int, int)>
    requires v < VERSIONS
  {
    Block(Interval(0, Size(v)), Interval(0, Size(v))) - FunctionSet(v)
  }

  ghost function FreeVisited(v: nat, t: nat): set<(int, int)>
    requires v < VERSIONS
  {
    set s | 0 <= s < t && Free(v, CellAt(Size(v), s)) :: CellAt(Size(v), s)
  }

  lemma {:induction false} FreeVisitedSize(v: nat, t: nat)
    requires v < VERSIONS && t <= Steps(Size(v))
    ensures |FreeVisited(v, t)| == FreeRank(v, t)
  {
    hide Free, CellAt, StepOf, Steps;
    if t > 0 {
      FreeVisitedSize(v, t - 1);
      var cell := CellAt(Size(v), t - 1);
      WalkStays(Size(v), t - 1);
      forall s | 0 <= s < t - 1 ensures CellAt(Size(v), s) != cell {
        WalkStays(Size(v), s);
      }
      if Free(v, cell) {
        assert FreeVisited(v, t) == FreeVisited(v, t - 1) + {cell};
      } else {
        assert FreeVisited(v, t) == FreeVisited(v, t - 1);
      }
    }
  }

  lemma FreeIsVisited(v: nat, cell: (int, int))
    requires v < VERSIONS && cell in FreeSet(v)
    ensures cell in FreeVisited(v, Steps(Size(v)))
  {
    hide Free, CellAt, StepOf, Steps, Interval, Block, FreeSet;
    FreeCells(v, cell);
    FreeColumns(v);
    WalkCovers(Size(v), cell.0, cell.1);
    var s := StepOf(Size(v), cell);
    assert CellAt(Size(v), s) == cell;
  }

  lemma FreeCells(v: nat, cell: (int, int))
    requires v < VERSIONS && cell in FreeSet(v)
    ensures 0 <= cell.0 < Size(v) && 0 <= cell.1 < Size(v) && Free(v, cell)
  {
    hide Free;
  }

  /** The walk meets every free cell of the grid. */
  lemma FreeRankIsCount(v: nat)
    requires v < VERSIONS
    ensures FreeRank(v, Steps(Size(v))) >= |FreeSet(v)|
  {
    hide Free, CellAt, StepOf, Steps, FreeRank, FreeSet, FreeVisited;
    var n := Steps(Size(v));
    FreeVisitedSize(v, n);
    forall cell | cell in FreeSet(v) ensures cell in FreeVisited(v, n) {
      FreeIsVisited(v, cell);
    }
    SubsetSize(FreeSet(v), FreeVisited(v, n));
  }

  lemma Arithmetic(v: nat)
    requires v < VERSIONS
    ensures CoverArea(v) + 8 * EcM(v).total <= Size(v) * Size(v)
  {
    hide Consistent;
    assert v == 0 || v == 1 || v == 2 || v == 3 || v == 4 || v == 5 || v == 6 || v == 7 || v == 8 || v == 9
        || v == 10 || v == 11 || v == 12 || v == 13 || v == 14 || v == 15 || v == 16 || v == 17 || v == 18 || v == 19;
  }

  /** Every version has a free cell for each bit of its codewords. */
  lemma EnoughRoom(v: nat)
    requires v < VERSIONS
    ensures 8 * EcM(v).total <= FreeRank(v, Steps(Size(v)))
  {
    hide Free, CellAt, StepOf, Steps, FreeRank, EcM, CoverArea, Cover, Block, Interval, FunctionCell;
    var size := Size(v);
    var grid := Block(Interval(0, size), Interval(0, size));
    IntervalSize(0, size);
    BlockSize(Interval(0, size), Interval(0, size));
    FunctionsCovered(v);
    SubsetSize(FunctionSet(v), Cover(v));
    CoverSize(v);
    assert FunctionSet(v) <= grid;
    assert |grid - FunctionSet(v)| == |grid| - |FunctionSet(v)|;
    FreeRankIsCount(v);
    Arithmetic(v);
  }

  lemma FunctionsCovered(v: nat)
    requires v < VERSIONS
    ensures FunctionSet(v) <= Cover(v)
  {
    hide Cover, FunctionCell;
    forall cell | cell in FunctionSet(v) ensures cell in Cover(v) {
      Covered(v, cell.0, cell.1);
    }
  }
}
