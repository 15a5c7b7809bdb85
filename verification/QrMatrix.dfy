/** The matrix half of `encodeQr` in src/main/qr.ts: function patterns, the zig-zag walk,
    masking and format stamping, on a matrix written cell by cell. */
module QrMatrix {
  import opened Gf256
  import opened Options
  import opened QrCodewords

  type Cells = array2<Option<bool>>

  function Size(v: nat): nat {
    17 + 4 * (v + 1)
  }

  /* ---------- Which cells are function patterns ---------- */

  /** Centre coordinates of the alignment patterns. */
  function Align(v: nat): seq<nat>
    requires v < VERSIONS
  {
    match v
    case 0 => []
    case 1 => [6, 18]
    case 2 => [6, 22]
    case 3 => [6, 26]
    case 4 => [6, 30]
    case 5 => [6, 34]
    case 6 => [6, 22, 38]
    case 7 => [6, 24, 42]
    case 8 => [6, 26, 46]
    case 9 => [6, 28, 50]
    case 10 => [6, 30, 54]
    case 11 => [6, 32, 58]
    case 12 => [6, 34, 62]
    case 13 => [6, 26, 46, 66]
    case 14 => [6, 26, 48, 70]
    case 15 => [6, 26, 50, 74]
    case 16 => [6, 30, 54, 78]
    case 17 => [6, 30, 56, 82]
    case 18 => [6, 30, 58, 86]
    case _ => [6, 34, 62, 90]
  }

  predicate FinderCell(size: nat, r: int, c: int) {
    (r < 8 && c < 8) || (r < 8 && c >= size - 8) || (r >= size - 8 && c < 8)
  }

  predicate TimingCell(size: nat, r: int, c: int) {
    (r == 6 && 8 <= c < size - 8) || (c == 6 && 8 <= r < size - 8)
  }

  /** The alignment centres that would sit on a finder pattern. */
  predicate Skipped(size: nat, r: nat, c: nat) {
    (r < 9 && c < 9) || (r < 9 && c > size - 9) || (r > size - 9 && c < 9)
  }

  predicate Near(x: int, centre: int) {
    centre - 2 <= x <= centre + 2
  }

  predicate OnPattern(size: nat, centreR: nat, centreC: nat, r: int, c: int) {
    !Skipped(size, centreR, centreC) && Near(r, centreR) && Near(c, centreC)
  }

  ghost predicate AlignCell(v: nat, r: int, c: int)
    requires v < VERSIONS
  {
    exists i, j :: 0 <= i < |Align(v)| && 0 <= j < |Align(v)| && OnPattern(Size(v), Align(v)[i], Align(v)[j], r, c)
  }

  predicate FormatCell(size: nat, r: int, c: int) {
    (r == 8 && (c < 9 || c >= size - 8)) || (c == 8 && (r < 9 || r >= size - 8))
  }

  predicate VersionCell(v: nat, r: int, c: int) {
    v + 1 >= 7 && ((Size(v) - 11 <= r < Size(v) - 8 && c < 6) || (Size(v) - 11 <= c < Size(v) - 8 && r < 6))
  }

  ghost predicate FunctionCell(v: nat, r: int, c: int)
    requires v < VERSIONS
  {
    FinderCell(Size(v), r, c) || TimingCell(Size(v), r, c) || AlignCell(v, r, c) || FormatCell(Size(v), r, c) ||
      VersionCell(v, r, c)
  }

  ghost predicate Free(v: nat, cell: (int, int))
    requires v < VERSIONS
  {
    !FunctionCell(v, cell.0, cell.1)
  }

  lemma ColumnSixIsFunction(v: nat, r: int)
    requires v < VERSIONS && 0 <= r < Size(v)
    ensures FunctionCell(v, r, 6)
  {
  }

  /* ---------- The zig-zag walk ---------- */

  /** Right column of the `p`-th pair of columns: column 6 is stepped over. */
  function PairColumn(size: nat, p: nat): int {
    if size - 1 - 2 * p > 6 then size - 1 - 2 * p else size - 2 - 2 * p
  }

  /** The cell `t` steps into the walk: two cells a row, upwards in even pairs, downwards in odd ones. */
  function CellAt(size: nat, t: nat): (cell: (int, int))
    requires size > 0
  {
    WalkCell(size, t / (2 * size), t % (2 * size) / 2, t % (2 * size) % 2)
  }

  function WalkCell(size: nat, p: nat, k: nat, side: nat): (int, int) {
    (if p % 2 == 0 then size - 1 - k else k, PairColumn(size, p) - side)
  }

  /** Pair of columns, row within the pair's direction, and side of a cell. */
  function PartsOf(size: nat, cell: (int, int)): (int, int, int) {
    var d := size - 1 - (if cell.1 > 6 then cell.1 else cell.1 + 1);
    (d / 2, if d / 2 % 2 == 0 then size - 1 - cell.0 else cell.0, d % 2)
  }

  /** The step at which the walk stands on a cell. */
  function StepOf(size: nat, cell: (int, int)): int {
    var parts := PartsOf(size, cell);
    parts.0 * (2 * size) + (2 * parts.1 + parts.2)
  }

  function Steps(size: nat): nat
    requires size > 0
  {
    size * (size - 1)
  }

  lemma DivModOf(a: nat, b: nat, d: nat)
    requires d > 0 && b < d
    ensures (a * d + b) / d == a && (a * d + b) % d == b
  {
    DivUnique(a * d + b, d, a, b);
  }

  lemma PartsOfWalkCell(size: nat, p: nat, k: nat, side: nat)
    requires size >= 21 && size % 2 == 1 && 2 * p <= size - 3 && k < size && side < 2
    ensures var cell := WalkCell(size, p, k, side);
      0 <= cell.0 < size && 0 <= cell.1 < size && cell.1 != 6 && PartsOf(size, cell) == (p, k, side)
  {
  }

  lemma WalkCellOfParts(size: nat, r: int, c: int)
    requires size >= 21 && size % 2 == 1 && 0 <= r < size && 0 <= c < size && c != 6
    ensures var parts := PartsOf(size, (r, c));
      0 <= parts.0 && 2 * parts.0 <= size - 3 && 0 <= parts.1 < size && 0 <= parts.2 < 2 &&
      WalkCell(size, parts.0, parts.1, parts.2) == (r, c)
  {
  }

  /** The walk is on the grid, outside column 6, and knows where it is: no cell twice. */
  lemma WalkStays(size: nat, t: nat)
    requires size >= 21 && size % 2 == 1 && t < Steps(size)
    ensures var cell := CellAt(size, t);
      0 <= cell.0 < size && 0 <= cell.1 < size && cell.1 != 6 && StepOf(size, cell) == t
  {
    hide WalkCell, StepOf;
    var w := 2 * size;
    QuotientAndRest(t, w);
    WalkStaysInPair(size, t, t / w, t % w, w);
  }

  lemma QuotientAndRest(t: nat, w: nat)
    requires w > 0
    ensures t / w >= 0 && 0 <= t % w < w && t == (t / w) * w + t % w
  {
  }

  lemma WalkStaysInPair(size: nat, t: nat, p: nat, rest: nat, w: nat)
    requires size >= 21 && size % 2 == 1 && t < size * (size - 1)
    requires w == 2 * size && t == p * w + rest && rest < w
    ensures var cell := WalkCell(size, p, rest / 2, rest % 2);
      0 <= cell.0 < size && 0 <= cell.1 < size && cell.1 != 6 && StepOf(size, cell) == t
  {
    hide WalkCell, PartsOf;
    PairBound(size, p, t);
    PartsOfWalkCell(size, p, rest / 2, rest % 2);
  }

  lemma PairTooFar(size: nat, p: nat)
    requires size >= 3 && 2 * p >= size - 1
    ensures p * (2 * size) >= size * (size - 1)
  {
    MulMono(size - 1, 2 * p, size);
    assert (2 * p) * size == p * (2 * size);
    assert (size - 1) * size == size * (size - 1);
  }

  lemma PairBound(size: nat, p: nat, t: nat)
    requires size >= 3 && size % 2 == 1 && t < size * (size - 1) && p * (2 * size) <= t
    ensures 2 * p <= size - 3
  {
    if 2 * p >= size - 1 {
      PairTooFar(size, p);
    }
  }

  /** Every cell outside column 6 is on the walk. */
  lemma WalkCovers(size: nat, r: int, c: int)
    requires size >= 21 && size % 2 == 1 && 0 <= r < size && 0 <= c < size && c != 6
    ensures 0 <= StepOf(size, (r, c)) < Steps(size)
    ensures CellAt(size, StepOf(size, (r, c))) == (r, c)
  {
    hide WalkCell, PartsOf;
    WalkCellOfParts(size, r, c);
    var parts := PartsOf(size, (r, c));
    var p, k, side := parts.0, parts.1, parts.2;
    var rest := 2 * k + side;
    DivModOf(p, rest, 2 * size);
    DivModOf(k, side, 2);
    StepBound(size, p, rest);
  }

  /** The right column of the strip of two that a column belongs to; the timing column 6 belongs to none. */
  function Strip(c: int): int {
    if c > 6 then c + c % 2 else c + 1 - c % 2
  }

  /** Strips are read from the right, the first one upwards and the next always the other way. */
  predicate Upwards(size: nat, strip: int) {
    (size - 1 - strip) % 4 == if strip > 6 then 0 else 1
  }

  /** The order in which a reader takes the modules: strip by strip, row by row, the right one of two first. */
  predicate Earlier(size: nat, a: (int, int), b: (int, int)) {
    var s := Strip(a.1);
    if s != Strip(b.1) then s > Strip(b.1)
    else if a.0 != b.0 then (if Upwards(size, s) then a.0 > b.0 else a.0 < b.0)
    else a.1 > b.1
  }

  predicate OnWalk(size: nat, cell: (int, int)) {
    0 <= cell.0 < size && 0 <= cell.1 < size && cell.1 != 6
  }

  lemma Evens(m: nat, e: nat, d: nat, p: nat, side: nat)
    requires d == 4 * m - e && p == d / 2 && side == d % 2
    ensures side == e % 2 && 2 * p == 4 * m - (e + e % 2)
  {
  }

  lemma FourthsOf(p: nat)
    ensures (2 * p) % 4 == 0 <==> p % 2 == 0
    ensures (2 * p + 1) % 4 == 1 <==> p % 2 == 0
  {
    var q, r := p / 2, p % 2;
    DivModOf(q, 2 * r, 4);
    DivModOf(q, 2 * r + 1, 4);
    assert 2 * p == q * 4 + 2 * r;
  }

  lemma PartsAndStrips(size: nat, cell: (int, int))
    requires size >= 21 && size % 4 == 1 && OnWalk(size, cell)
    ensures var (p, k, side) := PartsOf(size, cell);
      && 0 <= p && 0 <= k < size && 0 <= side < 2
      && Strip(cell.1) == (if 2 * p < size - 7 then size - 1 - 2 * p else size - 2 - 2 * p)
      && cell.1 == Strip(cell.1) - side && (Upwards(size, Strip(cell.1)) <==> p % 2 == 0)
      && k == if p % 2 == 0 then size - 1 - cell.0 else cell.0
  {
    var m := size / 4;
    var e := if cell.1 > 6 then cell.1 else cell.1 + 1;
    var d := size - 1 - e;
    Evens(m, e, d, d / 2, d % 2);
    FourthsOf(d / 2);
  }

  lemma StepsInOrder(w: nat, p: nat, x: nat, q: nat, y: nat)
    requires x < w && y < w
    ensures p * w + x < q * w + y <==> p < q || (p == q && x < y)
  {
    if p < q {
      MulMono(p + 1, q, w);
      MulAdd(p, 1, w);
    } else if q < p {
      MulMono(q + 1, p, w);
      MulAdd(q, 1, w);
    }
  }

  /** The walk is in the reader's order. */
  lemma WalkOrder(size: nat, a: (int, int), b: (int, int))
    requires size >= 21 && size % 4 == 1 && OnWalk(size, a) && OnWalk(size, b)
    ensures StepOf(size, a) < StepOf(size, b) <==> Earlier(size, a, b)
  {
    PartsAndStrips(size, a);
    PartsAndStrips(size, b);
    var (p, k, side) := PartsOf(size, a);
    var (q, l, edge) := PartsOf(size, b);
    StepsInOrder(2 * size, p, 2 * k + side, q, 2 * l + edge);
    hide PartsOf, Strip, Upwards;
  }

  lemma StepBound(size: nat, p: nat, rest: nat)
    requires size >= 3 && size % 2 == 1 && 2 * p <= size - 3 && rest < 2 * size
    ensures p * (2 * size) + rest < size * (size - 1)
  {
    MulMono(2 * p + 2, size - 1, size);
    MulAdd(2 * p, 2, size);
    assert (2 * p) * size == p * (2 * size);
    assert (size - 1) * size == size * (size - 1);
  }

  /** How many of the first `t` steps stand on free cells. */
  ghost function FreeRank(v: nat, t: nat): nat
    requires v < VERSIONS
  {
    if t == 0 then 0 else FreeRank(v, t - 1) + (if Free(v, CellAt(Size(v), t - 1)) then 1 else 0)
  }

  lemma OneStepPerCell(size: nat, t: nat)
    requires size >= 21 && size % 2 == 1 && t < Steps(size)
    ensures forall r, c :: 0 <= r < size && 0 <= c < size && c != 6 && StepOf(size, (r, c)) == t ==>
      (r, c) == CellAt(size, t)
  {
    hide CellAt, StepOf, Steps;
    forall r, c | 0 <= r < size && 0 <= c < size && c != 6 && StepOf(size, (r, c)) == t
      ensures (r, c) == CellAt(size, t) {
      WalkCovers(size, r, c);
    }
  }

  /* ---------- Placing the bits ---------- */

  /** Bit `i` of the code stream; past its end the remainder bits are zero. */
  function StreamBit(stream: seq<bv8>, i: nat): bool {
    i < 8 * |stream| && Shr(Value(stream[i / 8]), 7 - i % 8) % 2 == 1
  }

  ghost predicate Square(m: Cells, v: nat)
  {
    m.Length0 == m.Length1 == Size(v)
  }

  /** What a free cell holds once the walk has taken `t` steps. */
  ghost function PlacedCell(v: nat, stream: seq<bv8>, cell: (int, int), t: nat): Option<bool>
    requires v < VERSIONS
  {
    var step := StepOf(Size(v), cell);
    if 0 <= step < t then Some(StreamBit(stream, FreeRank(v, step))) else None
  }

  ghost predicate Placed(m: Cells, v: nat, stream: seq<bv8>, t: nat)
    requires v < VERSIONS && Square(m, v)
    reads m
  {
    && (forall r, c :: 0 <= r < Size(v) && 0 <= c < Size(v) && !Free(v, (r, c)) ==> m[r, c].Some?)
    && (forall r, c :: 0 <= r < Size(v) && 0 <= c < Size(v) && Free(v, (r, c)) ==>
         m[r, c] == PlacedCell(v, stream, (r, c), t))
  }

  /** One cell of the walk: skip it when it is set, else write the next bit. */
  method PlaceStep(m: Cells, v: nat, stream: seq<bv8>, ghost t: nat, row: nat, col: nat, bitIdx: nat)
    returns (next: nat)
    requires v < VERSIONS && Square(m, v) && t < Steps(Size(v))
    requires CellAt(Size(v), t) == (row as int, col as int) && bitIdx == FreeRank(v, t)
    requires Placed(m, v, stream, t)
    modifies m
    ensures Placed(m, v, stream, t + 1) && next == FreeRank(v, t + 1)
    ensures forall r, c :: 0 <= r < Size(v) && 0 <= c < Size(v) && !Free(v, (r, c)) ==> m[r, c] == old(m[r, c])
  {
    hide CellAt, StepOf, Steps, FunctionCell, StreamBit;
    WalkStays(Size(v), t);
    OneStepPerCell(Size(v), t);
    FreeColumns(v);
    next := bitIdx;
    if m[row, col].None? {
      m[row, col] := Some(StreamBit(stream, bitIdx));
      next := bitIdx + 1;
    }
  }

  lemma FreeColumns(v: nat)
    requires v < VERSIONS
    ensures forall r, c :: 0 <= r < Size(v) && 0 <= c < Size(v) && Free(v, (r, c)) ==> c != 6
  {
    forall r, c | 0 <= r < Size(v) && 0 <= c < Size(v) && Free(v, (r, c)) ensures c != 6 {
      if c == 6 {
        ColumnSixIsFunction(v, r);
      }
    }
  }

  lemma PlacedStart(m: Cells, v: nat, stream: seq<bv8>)
    requires v < VERSIONS && Square(m, v)
    requires forall r, c :: 0 <= r < Size(v) && 0 <= c < Size(v) ==> (m[r, c].Some? <==> !Free(v, (r, c)))
    ensures Placed(m, v, stream, 0)
  {
  }

  /** One pair of columns, all rows. */
  method PlacePair(m: Cells, v: nat, stream: seq<bv8>, ghost p: nat, upward: bool, col: nat, bitIdx: nat)
    returns (next: nat)
    requires v < VERSIONS && Square(m, v) && 2 * p <= Size(v) - 3
    requires col == PairColumn(Size(v), p) && upward == (p % 2 == 0)
    requires bitIdx == FreeRank(v, PairStart(v, p))
    requires Placed(m, v, stream, PairStart(v, p))
    modifies m
    ensures next == FreeRank(v, PairStart(v, p + 1))
    ensures Placed(m, v, stream, PairStart(v, p + 1))
    ensures forall r, c :: 0 <= r < Size(v) && 0 <= c < Size(v) && !Free(v, (r, c)) ==> m[r, c] == old(m[r, c])
  {
    hide CellAt, Placed, Free, FreeRank;
    next := bitIdx;
    var size := Size(v);
    ghost var t := p * (2 * size);
    StepBound(size, p, 2 * size - 1);
    for k := 0 to size
      invariant t == p * (2 * size) + 2 * k && next == FreeRank(v, t)
      invariant Placed(m, v, stream, t)
      invariant forall r, c :: 0 <= r < size && 0 <= c < size && !Free(v, (r, c)) ==> m[r, c] == old(m[r, c])
    {
      var row := if upward then size - 1 - k else k;
      CellOfStep(size, p, k, 0);
      next := PlaceStep(m, v, stream, t, row, col, next);
      t := t + 1;
      CellOfStep(size, p, k, 1);
      next := PlaceStep(m, v, stream, t, row, col - 1, next);
      t := t + 1;
    }
    MulAdd(p, 1, 2 * size);
  }

  /** The step at which the walk enters pair `p`. */
  function PairStart(v: nat, p: nat): nat {
    p * (2 * Size(v))
  }

  lemma PairStarts(v: nat)
    ensures PairStart(v, 0) == 0
    ensures forall p :: 2 * p == Size(v) - 1 ==> PairStart(v, p) == Steps(Size(v))
  {
    forall p | 2 * p == Size(v) - 1 ensures PairStart(v, p) == Steps(Size(v)) {
      assert p * (2 * Size(v)) == (2 * p) * Size(v);
    }
  }

  lemma FreeRankZero(v: nat)
    requires v < VERSIONS
    ensures FreeRank(v, 0) == 0
  {
  }

  /** The zig-zag: pairs of columns from the right, alternately upwards and downwards. */
  method PlaceData(m: Cells, v: nat, stream: seq<bv8>)
    requires v < VERSIONS && Square(m, v)
    requires forall r, c :: 0 <= r < Size(v) && 0 <= c < Size(v) ==> (m[r, c].Some? <==> !Free(v, (r, c)))
    modifies m
    ensures Placed(m, v, stream, Steps(Size(v)))
    ensures forall r, c :: 0 <= r < Size(v) && 0 <= c < Size(v) && !Free(v, (r, c)) ==> m[r, c] == old(m[r, c])
  {
    hide CellAt, Placed, Free, FreeRank, PairStart, Steps;
    PairStarts(v);
    FreeRankZero(v);
    PlacedStart(m, v, stream);
    var size: int := Size(v);
    var bitIdx := 0;
    var upward := true;
    var col := size - 1;
    ghost var p := 0;
    while col > 0
      invariant 0 <= 2 * p <= size - 1
      invariant col == if size - 1 - 2 * p >= 6 then size - 1 - 2 * p else size - 2 - 2 * p
      invariant upward == (p % 2 == 0)
      invariant bitIdx == FreeRank(v, PairStart(v, p))
      invariant Placed(m, v, stream, PairStart(v, p))
      invariant forall r, c :: 0 <= r < size && 0 <= c < size && !Free(v, (r, c)) ==> m[r, c] == old(m[r, c])
      decreases size - p
    {
      if col == 6 {
        col := col - 1;
      }
      bitIdx := PlacePair(m, v, stream, p, upward, col, bitIdx);
      upward := !upward;
      col := col - 2;
      p := p + 1;
    }
  }

  lemma CellOfStep(size: nat, p: nat, k: nat, side: nat)
    requires size > 0 && k < size && side < 2
    ensures CellAt(size, p * (2 * size) + 2 * k + side) == WalkCell(size, p, k, side)
  {
    DivModOf(p, 2 * k + side, 2 * size);
    DivModOf(k, side, 2);
  }

  /** After the walk every cell is set. */
  lemma PlacedComplete(m: Cells, v: nat, stream: seq<bv8>)
    requires v < VERSIONS && Square(m, v) && Placed(m, v, stream, Steps(Size(v)))
    ensures forall r, c :: 0 <= r < Size(v) && 0 <= c < Size(v) ==> m[r, c].Some?
  {
    hide CellAt, StepOf, Steps, Free, StreamBit;
    FreeColumns(v);
    forall r, c | 0 <= r < Size(v) && 0 <= c < Size(v) ensures m[r, c].Some? {
      if Free(v, (r, c)) {
        WalkCovers(Size(v), r, c);
      }
    }
  }
}
