/** The rest of `encodeQr` in src/main/qr.ts, and the reader that gets the bytes back from
    the finished matrix alone. */
module QrSymbol {
  import opened Bch
  import opened CarryLess
  import opened Gf256
  import opened Options
  import opened QrCodewords
  import opened QrMatrix

  type Modules = array2<bool>

  /* ---------- Masks ---------- */

  /** The mask conditions, in the order of the table. */
  predicate MaskBit(mask: nat, r: nat, c: nat) {
    match mask
    case 0 => (r + c) % 2 == 0
    case 1 => r % 2 == 0
    case 2 => c % 3 == 0
    case 3 => (r + c) % 3 == 0
    case 4 => (r / 2 + c / 3) % 2 == 0
    case 5 => (r * c) % 2 + (r * c) % 3 == 0
    case 6 => ((r * c) % 2 + (r * c) % 3) % 2 == 0
    case _ => ((r + c) % 2 + (r * c) % 3) % 2 == 0
  }

  /** What a reader knows of the masks: where row and column have the same parity, even rows, every third column, every
      third diagonal, blocks of two by three, and three patterns by the residue of the product by six. */
  predicate Inverted(mask: nat, r: nat, c: nat) {
    match mask
    case 0 => r % 2 == c % 2
    case 1 => r == r / 2 * 2
    case 2 => c == c / 3 * 3
    case 3 => r % 3 + c % 3 == 0 || r % 3 + c % 3 == 3
    case 4 => r % 4 < 2 <==> c % 6 < 3
    case 5 => (r * c) % 6 == 0
    case 6 => (r * c) % 6 < 3
    case _ => r % 2 == c % 2 <==> (r * c) % 3 != 1
  }

  lemma Halves(r: nat, c: nat)
    ensures (r + c) % 2 == 0 <==> r % 2 == c % 2
    ensures r % 2 == 0 <==> r == r / 2 * 2
  {
  }

  lemma Thirds(r: nat, c: nat)
    ensures (r + c) % 3 == 0 <==> r % 3 + c % 3 == 0 || r % 3 + c % 3 == 3
    ensures c % 3 == 0 <==> c == c / 3 * 3
  {
  }

  lemma Blocks(r: nat, c: nat)
    ensures (r / 2 + c / 3) % 2 == 0 <==> (r % 4 < 2 <==> c % 6 < 3)
  {
    assert r / 2 % 2 == 0 <==> r % 4 < 2;
    assert c / 3 % 2 == 0 <==> c % 6 < 3;
    Halves(r / 2, c / 3);
  }

  lemma SameParity(q: nat, m: nat)
    ensures (6 * q + m) % 2 == m % 2
  {
    assert 6 * q + m == 2 * (3 * q) + m;
  }

  lemma SameThird(q: nat, m: nat)
    ensures (6 * q + m) % 3 == m % 3
  {
    assert 6 * q + m == 3 * (2 * q) + m;
  }

  lemma Sixths(x: nat)
    ensures x % 2 == x % 6 % 2 && x % 3 == x % 6 % 3
  {
    SameParity(x / 6, x % 6);
    SameThird(x / 6, x % 6);
  }

  lemma Residues(x: nat, m: nat)
    requires m < 6 && x % 2 == m % 2 && x % 3 == m % 3
    ensures x % 2 + x % 3 == 0 <==> m == 0
    ensures (x % 2 + x % 3) % 2 == 0 <==> m < 3
  {
  }

  lemma ParityAndThird(s: nat, x: nat)
    ensures (s % 2 + x % 3) % 2 == 0 <==> (s % 2 == 0 <==> x % 3 != 1)
  {
  }

  /** The conditions of the table invert what the reader expects. */
  lemma MaskIsInverted(mask: nat, r: nat, c: nat)
    ensures MaskBit(mask, r, c) <==> Inverted(mask, r, c)
  {
    var x := r * c;
    match mask
    case 0 => Halves(r, c);
    case 1 => Halves(r, c);
    case 2 => Thirds(r, c);
    case 3 => Thirds(r, c);
    case 4 => Blocks(r, c);
    case 5 => ProductResidues(r, c, x);
    case 6 => ProductResidues(r, c, x);
    case _ =>
      ParityAndThird(r + c, x);
      Halves(r, c);
  }

  lemma ProductResidues(r: nat, c: nat, x: nat)
    requires x == r * c
    ensures (r * c) % 2 + (r * c) % 3 == 0 <==> (r * c) % 6 == 0
    ensures ((r * c) % 2 + (r * c) % 3) % 2 == 0 <==> (r * c) % 6 < 3
  {
    Sixths(x);
    Residues(x, x % 6);
  }

  method ReservedMap(m: Cells) returns (reserved: Modules)
    ensures fresh(reserved) && reserved.Length0 == m.Length0 && reserved.Length1 == m.Length1
    ensures forall r, c :: 0 <= r < m.Length0 && 0 <= c < m.Length1 ==> reserved[r, c] == m[r, c].Some?
  {
    reserved := new bool[m.Length0, m.Length1];
    for i := 0 to m.Length0
      invariant forall r, c :: 0 <= r < i && 0 <= c < m.Length1 ==> reserved[r, c] == m[r, c].Some?
    {
      for j := 0 to m.Length1
        invariant forall r, c :: 0 <= r < i && 0 <= c < m.Length1 ==> reserved[r, c] == m[r, c].Some?
        invariant forall c :: 0 <= c < j ==> reserved[i, c] == m[i, c].Some?
      {
        reserved[i, j] := m[i, j].Some?;
      }
    }
  }

  /** A module after masking: function patterns as they are, data inverted where the mask says so. */
  function Masked(cell: Option<bool>, reserved: bool, mask: nat, r: nat, c: nat): bool {
    var dark := cell.Some? && cell.value;
    if reserved then dark else dark != Inverted(mask, r, c)
  }

  lemma MaskIsMasked(cell: Option<bool>, reserved: bool, mask: nat, r: nat, c: nat)
    ensures var dark := cell.Some? && cell.value;
      Masked(cell, reserved, mask, r, c) == if reserved then dark else dark != MaskBit(mask, r, c)
  {
    hide MaskBit, Inverted;
    MaskIsInverted(mask, r, c);
  }

  method ApplyMask(m: Cells, reserved: Modules, mask: nat) returns (g: Modules)
    requires reserved.Length0 == m.Length0 && reserved.Length1 == m.Length1
    ensures fresh(g) && g.Length0 == m.Length0 && g.Length1 == m.Length1
    ensures forall r, c :: 0 <= r < m.Length0 && 0 <= c < m.Length1 ==>
      g[r, c] == Masked(m[r, c], reserved[r, c], mask, r, c)
  {
    hide Masked, MaskBit;
    g := new bool[m.Length0, m.Length1];
    for i := 0 to m.Length0
      invariant forall r, c :: 0 <= r < i && 0 <= c < m.Length1 ==>
        g[r, c] == Masked(m[r, c], reserved[r, c], mask, r, c)
    {
      for j := 0 to m.Length1
        invariant forall r, c :: 0 <= r < i && 0 <= c < m.Length1 ==>
          g[r, c] == Masked(m[r, c], reserved[r, c], mask, r, c)
        invariant forall c :: 0 <= c < j ==> g[i, c] == Masked(m[i, c], reserved[i, c], mask, i, c)
      {
        var dark := m[i, j].Some? && m[i, j].value;
        g[i, j] := if reserved[i, j] then dark else dark != MaskBit(mask, i, j);
        MaskIsMasked(m[i, j], reserved[i, j], mask, i, j);
      }
    }
  }

  /* ---------- Format information ---------- */

  /** Level M is 00, so the five data bits are the mask number. */
  function FormatWord(mask: nat): bv32
    requires mask < 8
  {
    var data := mask as bv32;
    FormatFrom(data, FormatRegister(data, 10))
  }

  function WordBit(word: bv32, i: nat): bool
    requires i < 15
  {
    (word >> i) & 1 == 1
  }

  /** The mask number, from the three format bits that carry it. */
  function MaskFrom(b12: bool, b11: bool, b10: bool): (mask: nat)
    ensures mask < 8
  {
    (if b12 then 0 else 4) + (if b11 then 2 else 0) + (if b10 then 0 else 1)
  }

  /** Without the constant, the format word is the mask number with its remainder by 0x537 behind it: the multiple of
      the generator that begins with these five bits. */
  lemma FormatIsCodeword(mask: nat)
    requires mask < 8
    ensures Multiple(Unmasked(FormatWord(mask)), 0x537, 10) && HighFive(Unmasked(FormatWord(mask))) == mask as bv32
  {
    hide FormatRegister, FormatFrom, Multiple, Unmasked, HighFive;
    MaskBits(mask);
    FormatCodeword(mask as bv32, 0x537);
  }

  lemma HighFormatBits(data: bv32, rem: bv32)
    requires data < 8 && rem < 0x400
    ensures var word := ((data << 10) | rem) ^ 0x5412;
      && ((word >> 12) & 1 == 1 <==> data & 4 == 0)
      && ((word >> 11) & 1 == 1 <==> data & 2 != 0)
      && ((word >> 10) & 1 == 1 <==> data & 1 == 0)
  {
  }

  lemma MaskBits(mask: nat)
    requires mask < 8
    ensures mask as bv32 < 8
    ensures MaskFrom(mask as bv32 & 4 == 0, mask as bv32 & 2 != 0, mask as bv32 & 1 == 0) == mask
  {
    assert mask == 0 || mask == 1 || mask == 2 || mask == 3 || mask == 4 || mask == 5 || mask == 6 || mask == 7;
  }

  lemma MaskInFormat(mask: nat)
    requires mask < 8
    ensures MaskFrom(WordBit(FormatWord(mask), 12), WordBit(FormatWord(mask), 11), WordBit(FormatWord(mask), 10)) ==
      mask
  {
    hide FormatRegister, MaskFrom;
    var data := mask as bv32;
    MaskBits(mask);
    FormatStaysShort(data, 10);
    HighFormatBits(data, FormatRegister(data, 10));
  }

  /** Both copies of the format word stand in place, with the dark module. */
  ghost predicate FormatWritten(g: Modules, size: nat, word: bv32)
    requires size >= 21 && g.Length0 == g.Length1 == size
    reads g
  {
    && (forall c :: 0 <= c < 6 ==> g[8, c] == WordBit(word, 14 - c))
    && g[8, 7] == WordBit(word, 8) && g[8, 8] == WordBit(word, 7) && g[7, 8] == WordBit(word, 6)
    && (forall r :: 0 <= r < 6 ==> g[r, 8] == WordBit(word, r))
    && (forall c :: size - 8 <= c < size ==> g[8, c] == WordBit(word, size - 1 - c))
    && (forall r :: size - 7 <= r < size ==> g[r, 8] == WordBit(word, r + 15 - size))
    && g[size - 8, 8]
  }

  /** The format word, by the loop of shifts. */
  method FormatBits(mask: nat) returns (word: bv32)
    requires mask < 8
    ensures word == FormatWord(mask)
    ensures Multiple(Unmasked(word), 0x537, 10) && HighFive(Unmasked(word)) == mask as bv32
  {
    hide FormatStep, FormatFrom, Multiple, Unmasked, HighFive;
    FormatIsCodeword(mask);
    var data := mask as bv32;
    var rem := data;
    for i := 0 to 10
      invariant rem == FormatRegister(data, i)
    {
      rem := FormatStep(rem);
    }
    word := FormatFrom(data, rem);
  }

  /** The modules the format is written to: all that are reserved for it but the two on the timing lines. */
  predicate Stamped(size: nat, r: int, c: int) {
    FormatCell(size, r, c) && !(r == 8 && c == 6) && !(r == 6 && c == 8)
  }

  method WriteFirstCopy(g: Modules, size: nat, word: bv32)
    requires size >= 21 && g.Length0 == g.Length1 == size
    modifies g
    ensures forall c :: 0 <= c < 6 ==> g[8, c] == WordBit(word, 14 - c)
    ensures g[8, 7] == WordBit(word, 8) && g[8, 8] == WordBit(word, 7) && g[7, 8] == WordBit(word, 6)
    ensures forall r :: 0 <= r < 6 ==> g[r, 8] == WordBit(word, r)
    ensures forall r, c :: 0 <= r < size && 0 <= c < size && !FirstCopy(r, c) ==> g[r, c] == old(g[r, c])
  {
    hide WordBit;
    for i := 0 to 6
      invariant forall c :: 0 <= c < i ==> g[8, c] == WordBit(word, 14 - c)
      invariant forall r, c :: 0 <= r < size && 0 <= c < size && !FirstCopy(r, c) ==> g[r, c] == old(g[r, c])
    {
      g[8, i] := WordBit(word, 14 - i);
    }
    g[8, 7] := WordBit(word, 8);
    g[8, 8] := WordBit(word, 7);
    g[7, 8] := WordBit(word, 6);
    for i := 0 to 6
      invariant forall c :: 0 <= c < 6 ==> g[8, c] == WordBit(word, 14 - c)
      invariant g[8, 7] == WordBit(word, 8) && g[8, 8] == WordBit(word, 7) && g[7, 8] == WordBit(word, 6)
      invariant forall r :: 5 - i < r < 6 ==> g[r, 8] == WordBit(word, r)
      invariant forall r, c :: 0 <= r < size && 0 <= c < size && !FirstCopy(r, c) ==> g[r, c] == old(g[r, c])
    {
      g[5 - i, 8] := WordBit(word, 5 - i);
    }
  }

  predicate SecondCopy(size: nat, r: int, c: int) {
    (r == 8 && c >= size - 8) || (c == 8 && r >= size - 8)
  }

  predicate FirstCopy(r: int, c: int) {
    (r == 8 && (0 <= c < 6 || c == 7 || c == 8)) || (c == 8 && (0 <= r < 6 || r == 7))
  }

  method WriteFormat(g: Modules, size: nat, mask: nat)
    requires mask < 8 && size >= 21 && g.Length0 == g.Length1 == size
    modifies g
    ensures FormatWritten(g, size, FormatWord(mask))
    ensures forall r, c :: 0 <= r < size && 0 <= c < size && !Stamped(size, r, c) ==> g[r, c] == old(g[r, c])
  {
    hide WordBit, FormatWord;
    var word := FormatBits(mask);
    WriteFirstCopy(g, size, word);
    WriteSecondCopy(g, size, word);
  }

  method WriteSecondCopy(g: Modules, size: nat, word: bv32)
    requires size >= 21 && g.Length0 == g.Length1 == size
    modifies g
    ensures forall c :: size - 8 <= c < size ==> g[8, c] == WordBit(word, size - 1 - c)
    ensures forall r :: size - 7 <= r < size ==> g[r, 8] == WordBit(word, r + 15 - size)
    ensures g[size - 8, 8]
    ensures forall r, c :: 0 <= r < size && 0 <= c < size && !SecondCopy(size, r, c) ==> g[r, c] == old(g[r, c])
  {
    hide WordBit;
    for i := 0 to 8
      invariant forall c :: size - 1 - i < c < size ==> g[8, c] == WordBit(word, size - 1 - c)
      invariant forall r, c :: 0 <= r < size && 0 <= c < size && !(r == 8 && c >= size - 8) ==> g[r, c] == old(g[r, c])
    {
      g[8, size - 1 - i] := WordBit(word, i);
    }
    for i := 8 to 15
      invariant forall c :: size - 8 <= c < size ==> g[8, c] == WordBit(word, size - 1 - c)
      invariant forall r :: size - 7 <= r < size - 15 + i ==> g[r, 8] == WordBit(word, r + 15 - size)
      invariant forall r, c :: 0 <= r < size && 0 <= c < size && !SecondCopy(size, r, c) ==> g[r, c] == old(g[r, c])
    {
      g[size - 15 + i, 8] := WordBit(word, i);
    }
    g[size - 8, 8] := true;
  }

  /* ---------- Reading ---------- */

  /** The cell of step `t`, which is on the grid. */
  ghost function Visited(v: nat, t: nat): (cell: (int, int))
    requires v < VERSIONS && t < Steps(Size(v))
    ensures 0 <= cell.0 < Size(v) && 0 <= cell.1 < Size(v)
  {
    WalkStays(Size(v), t);
    CellAt(Size(v), t)
  }

  /** The unmasked bits on the free cells among the first `t` steps of the walk. */
  ghost function ReadWalk(g: Modules, v: nat, mask: nat, t: nat): seq<bool>
    requires v < VERSIONS && g.Length0 == g.Length1 == Size(v) && t <= Steps(Size(v))
    reads g
  {
    if t == 0 then []
    else
      var cell := Visited(v, t - 1);
      ReadWalk(g, v, mask, t - 1) + (if Free(v, cell) then [g[cell.0, cell.1] != Inverted(mask, cell.0, cell.1)] else
      []) }

  /** Group bits into codewords, eight at a time. */
  function Pack(bits: seq<bool>): (r: seq<bv8>)
    ensures |r| == |bits| / 8
  {
    seq(|bits| / 8, i requires 0 <= i < |bits| / 8 => ByteAt(bits, 8 * i))
  }

  function ReadMask(g: Modules): nat
    requires g.Length0 > 8 && g.Length1 > 8
    reads g
  {
    MaskFrom(g[8, 2], g[8, 3], g[8, 4])
  }

  /** A reader that knows the standard but not the text: version from the size, mask from the
      format bits, bits along the walk, then the code stream. */
  ghost function Decode(g: Modules): Option<seq<bv8>>
    reads g
  {
    if g.Length0 != g.Length1 || g.Length0 < 21 || g.Length0 % 4 != 1 || g.Length0 > Size(VERSIONS - 1) then None
    else
      var v := (g.Length0 - 17) / 4 - 1;
      var bits := ReadWalk(g, v, ReadMask(g), Steps(Size(v)));
      var n := 8 * EcM(v).total;
      if |bits| < n then None else ReadBytes(v, Pack(bits[..n]))
  }

  /** Every free cell holds its bit of the stream, masked. */
  ghost predicate Carries(g: Modules, v: nat, stream: seq<bv8>, mask: nat)
    requires v < VERSIONS && g.Length0 == g.Length1 == Size(v)
    reads g
  {
    forall r, c :: 0 <= r < Size(v) && 0 <= c < Size(v) && Free(v, (r, c)) ==>
      0 <= StepOf(Size(v), (r, c)) &&
        g[r, c] == (StreamBit(stream, FreeRank(v, StepOf(Size(v), (r, c)))) != Inverted(mask, r, c))
  }

  lemma {:induction false} WalkReadsStream(g: Modules, v: nat, stream: seq<bv8>, mask: nat, t: nat)
    requires v < VERSIONS && g.Length0 == g.Length1 == Size(v) && t <= Steps(Size(v))
    requires Carries(g, v, stream, mask)
    ensures |ReadWalk(g, v, mask, t)| == FreeRank(v, t)
    ensures forall i :: 0 <= i < FreeRank(v, t) ==> ReadWalk(g, v, mask, t)[i] == StreamBit(stream, i)
  {
    hide Inverted, StreamBit, CellAt, StepOf, Steps, Free;
    if t > 0 {
      WalkReadsStream(g, v, stream, mask, t - 1);
      WalkStays(Size(v), t - 1);
    }
  }

  lemma {:induction false} BitAt(val: nat, len: nat, j: nat)
    requires j < len
    ensures BitsOf(val, len)[j] == (Shr(val, len - 1 - j) % 2 == 1)
  {
    if j < len - 1 {
      BitAt(val / 2, len - 1, j);
      ShrHalf(val, len - 2 - j);
    }
  }

  lemma StreamBitIsUnpacked(stream: seq<bv8>, i: nat)
    requires i < 8 * |stream|
    ensures StreamBit(stream, i) == Unpack(stream)[i]
  {
    hide Value, Unpack, BitsOf;
    UnpackAt(stream, i / 8);
    BitAt(Value(stream[i / 8]), 8, i % 8);
    assert Unpack(stream)[8 * (i / 8)..8 * (i / 8) + 8][i % 8] == Unpack(stream)[i];
  }

  lemma PackUnpack(stream: seq<bv8>)
    ensures Pack(Unpack(stream)) == stream
  {
    hide Value, Unpack, BitsOf;
    forall k | 0 <= k < |stream| ensures ByteAt(Unpack(stream), 8 * k) == stream[k] {
      UnpackAt(stream, k);
      ByteFromBits(stream[k]);
    }
  }

  /** A symbol that carries a stream and names its mask is read back. */
  lemma SymbolReadsBack(g: Modules, v: nat, stream: seq<bv8>, mask: nat)
    requires v < VERSIONS && g.Length0 == g.Length1 == Size(v) && mask < 8
    requires Carries(g, v, stream, mask) && FormatWritten(g, Size(v), FormatWord(mask))
    requires |stream| == EcM(v).total && 8 * |stream| <= FreeRank(v, Steps(Size(v)))
    ensures Decode(g) == ReadBytes(v, stream)
  {
    hide Carries, ReadWalk, FormatWord, EcM, Pack, ReadBytes, Steps, StreamBit, FreeRank, Unpack, MaskFrom;
    FormatNamesMask(g, Size(v), mask);
    var bits := ReadWalk(g, v, mask, Steps(Size(v)));
    WalkReadsStream(g, v, stream, mask, Steps(Size(v)));
    var n := 8 * |stream|;
    forall i | 0 <= i < n ensures bits[..n][i] == Unpack(stream)[i] {
      StreamBitIsUnpacked(stream, i);
    }
    assert bits[..n] == Unpack(stream);
    PackUnpack(stream);
  }

  lemma FormatNamesMask(g: Modules, size: nat, mask: nat)
    requires mask < 8 && size >= 21 && g.Length0 == g.Length1 == size
    requires FormatWritten(g, size, FormatWord(mask))
    ensures ReadMask(g) == mask
  {
    hide WordBit, FormatWord, MaskFrom;
    MaskInFormat(mask);
    assert g[8, 2] == WordBit(FormatWord(mask), 14 - 2);
    assert g[8, 3] == WordBit(FormatWord(mask), 14 - 3);
    assert g[8, 4] == WordBit(FormatWord(mask), 14 - 4);
  }

}
