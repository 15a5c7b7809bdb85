/** The function patterns of `encodeQr` in src/main/qr.ts: which modules they set, and how (ISO/IEC 18004:2015, sections
    6.3 and 7.10). */
module QrPatterns {
  import opened Bch
  import opened CarryLess
  import opened Options
  import opened QrCodewords
  import opened QrMatrix

  function Abs(x: int): nat {
    if x < 0 then -x else x
  }

  /** Which of the square rings around a centre a module lies on. */
  function Ring(r: int, c: int, x: int, y: int): nat {
    if Abs(x - r) > Abs(y - c) then Abs(x - r) else Abs(y - c)
  }

  /** A finder pattern is a dark core, a light ring, a dark ring, and the light separator. */
  predicate FinderDark(ring: nat) {
    ring <= 1 || ring == 3
  }

  /** An alignment pattern is a dark dot, a light ring and a dark ring. */
  predicate AlignDark(ring: nat) {
    ring != 1
  }

  predicate TimingDark(x: int, y: int) {
    (x + y) % 2 == 0
  }

  predicate InFinder(r: int, c: int, x: int, y: int) {
    r - 1 <= x <= r + 7 && c - 1 <= y <= c + 7
  }

  method SetFn(m: Cells, r: int, c: int, dark: bool)
    modifies m
    ensures forall x, y :: 0 <= x < m.Length0 && 0 <= y < m.Length1 ==>
      m[x, y] == if x == r && y == c then Some(dark) else old(m[x, y])
  {
    if 0 <= r < m.Length0 && 0 <= c < m.Length1 {
      m[r, c] := Some(dark);
    }
  }

  lemma FinderShape(r: int, c: int, dr: int, dc: int)
    requires -1 <= dr <= 7 && -1 <= dc <= 7
    ensures (0 <= dr <= 6 && 0 <= dc <= 6 &&
      (dr == 0 || dr == 6 || dc == 0 || dc == 6 || (2 <= dr <= 4 && 2 <= dc <= 4)))
      <==> FinderDark(Ring(r + 3, c + 3, r + dr, c + dc))
  {
  }

  /** A finder pattern and its separator, clipped to the grid. */
  method DrawFinder(m: Cells, r: int, c: int)
    modifies m
    ensures forall x, y :: 0 <= x < m.Length0 && 0 <= y < m.Length1 ==>
      m[x, y] == if InFinder(r, c, x, y) then Some(FinderDark(Ring(r + 3, c + 3, x, y))) else old(m[x, y])
  {
    hide FinderDark, Ring;
    for dr := -1 to 8
      invariant forall x, y :: 0 <= x < m.Length0 && 0 <= y < m.Length1 ==>
        m[x, y] == if InFinder(r, c, x, y) && x < r + dr then Some(FinderDark(Ring(r + 3, c + 3, x, y)))
          else old(m[x, y])
    {
      for dc := -1 to 8
        invariant forall x, y :: 0 <= x < m.Length0 && 0 <= y < m.Length1 ==>
          m[x, y] == if InFinder(r, c, x, y) && (x < r + dr || (x == r + dr && y < c + dc))
            then Some(FinderDark(Ring(r + 3, c + 3, x, y))) else old(m[x, y])
      {
        var inside := 0 <= dr <= 6 && 0 <= dc <= 6;
        var on := inside && (dr == 0 || dr == 6 || dc == 0 || dc == 6 || (2 <= dr <= 4 && 2 <= dc <= 4));
        FinderShape(r, c, dr, dc);
        SetFn(m, r + dr, c + dc, on);
      }
    }
  }

  method DrawTiming(m: Cells, size: nat)
    requires size >= 21 && m.Length0 == m.Length1 == size
    modifies m
    ensures forall x, y :: 0 <= x < size && 0 <= y < size ==>
      m[x, y] == if TimingCell(size, x, y) then Some(TimingDark(x, y)) else old(m[x, y])
  {
    for i := 8 to size - 8
      invariant forall x, y :: 0 <= x < size && 0 <= y < size ==>
        m[x, y] == if (x == 6 && 8 <= y < i) || (y == 6 && 8 <= x < i) then Some(TimingDark(x, y)) else old(m[x, y])
    {
      m[6, i] := Some(i % 2 == 0);
      m[i, 6] := Some(i % 2 == 0);
    }
  }

  method DrawAlignment(m: Cells, r: int, c: int)
    modifies m
    ensures forall x, y :: 0 <= x < m.Length0 && 0 <= y < m.Length1 ==>
      m[x, y] == if Near(x, r) && Near(y, c) then Some(AlignDark(Ring(r, c, x, y))) else old(m[x, y])
  {
    for dr := -2 to 3
      invariant forall x, y :: 0 <= x < m.Length0 && 0 <= y < m.Length1 ==>
        m[x, y] == if Near(x, r) && Near(y, c) && x < r + dr then Some(AlignDark(Ring(r, c, x, y))) else old(m[x, y])
    {
      for dc := -2 to 3
        invariant forall x, y :: 0 <= x < m.Length0 && 0 <= y < m.Length1 ==>
          m[x, y] == if Near(x, r) && Near(y, c) && (x < r + dr || (x == r + dr && y < c + dc))
            then Some(AlignDark(Ring(r, c, x, y))) else old(m[x, y])
      {
        SetFn(m, r + dr, c + dc, (if Abs(dr) > Abs(dc) then Abs(dr) else Abs(dc)) != 1);
      }
    }
  }

  /** What the table of alignment centres holds: 6 first, the last opposite to it, and even numbers well apart. */
  predicate AlignTable(ap: seq<nat>, size: nat) {
    && (forall i :: 0 <= i < |ap| ==> ap[i] % 2 == 0 && (ap[i] == 6 || ap[i] == size - 7 || 18 <= ap[i] <= size - 21))
    && (forall i, j :: 0 <= i < j < |ap| ==> ap[i] + 12 <= ap[j])
  }

  lemma TwoCentres(size: nat, a: nat)
    requires a == size - 7 && a % 2 == 0 && 18 <= a
    ensures AlignTable([6, a], size)
  {
  }

  lemma ThreeCentres(size: nat, a: nat, b: nat)
    requires b == size - 7 && a % 2 == 0 && b % 2 == 0 && 18 <= a <= b - 14
    ensures AlignTable([6, a, b], size)
  {
  }

  lemma FourCentres(size: nat, a: nat, b: nat, c: nat)
    requires c == size - 7 && a % 2 == 0 && b % 2 == 0 && c % 2 == 0 && 18 <= a <= b - 12 && b <= c - 14
    ensures AlignTable([6, a, b, c], size)
  {
  }

  lemma AlignTables(v: nat)
    requires v < VERSIONS
    ensures AlignTable(Align(v), Size(v))
  {
    hide AlignTable;
    match v
    case 0 => NoCentres();
    case 1 => TwoCentres(Size(v), 18);
    case 2 => TwoCentres(Size(v), 22);
    case 3 => TwoCentres(Size(v), 26);
    case 4 => TwoCentres(Size(v), 30);
    case 5 => TwoCentres(Size(v), 34);
    case 6 => ThreeCentres(Size(v), 22, 38);
    case 7 => ThreeCentres(Size(v), 24, 42);
    case 8 => ThreeCentres(Size(v), 26, 46);
    case 9 => ThreeCentres(Size(v), 28, 50);
    case 10 => ThreeCentres(Size(v), 30, 54);
    case 11 => ThreeCentres(Size(v), 32, 58);
    case 12 => ThreeCentres(Size(v), 34, 62);
    case 13 => FourCentres(Size(v), 26, 46, 66);
    case 14 => FourCentres(Size(v), 26, 48, 70);
    case 15 => FourCentres(Size(v), 26, 50, 74);
    case 16 => FourCentres(Size(v), 30, 54, 78);
    case 17 => FourCentres(Size(v), 30, 56, 82);
    case 18 => FourCentres(Size(v), 30, 58, 86);
    case _ => FourCentres(Size(v), 34, 62, 90);
  }

  lemma NoCentres()
    ensures AlignTable([], Size(0))
  {
  }

  /** The alignment cells of the centres visited before (`i`, `j`). */
  predicate Before(a: nat, b: nat, i: nat, j: nat) {
    a < i || (a == i && b < j)
  }

  ghost predicate AlignCellBefore(v: nat, r: int, c: int, i: nat, j: nat)
    requires v < VERSIONS && i <= |Align(v)| && j <= |Align(v)|
  {
    exists a, b :: 0 <= a < |Align(v)| && 0 <= b < |Align(v)| && Before(a, b, i, j) &&
      OnPattern(Size(v), Align(v)[a], Align(v)[b], r, c)
  }

  /** Patterns do not overlap. */
  lemma OnePattern(v: nat, a: nat, b: nat, i: nat, j: nat, x: int, y: int)
    requires v < VERSIONS && a < |Align(v)| && b < |Align(v)| && i < |Align(v)| && j < |Align(v)|
    requires OnPattern(Size(v), Align(v)[a], Align(v)[b], x, y) && OnPattern(Size(v), Align(v)[i], Align(v)[j], x, y)
    ensures a == i && b == j
  {
    hide Align;
    AlignTables(v);
  }

  lemma AlignStep(v: nat, i: nat, j: nat)
    requires v < VERSIONS && i < |Align(v)| && j < |Align(v)|
    ensures forall x, y :: AlignCellBefore(v, x, y, i, j + 1) <==>
      AlignCellBefore(v, x, y, i, j) || OnPattern(Size(v), Align(v)[i], Align(v)[j], x, y)
    ensures forall x, y :: OnPattern(Size(v), Align(v)[i], Align(v)[j], x, y) <==>
      !Skipped(Size(v), Align(v)[i], Align(v)[j]) && Near(x, Align(v)[i]) && Near(y, Align(v)[j])
  {
    hide Align;
  }

  lemma AlignRowDone(v: nat, i: nat)
    requires v < VERSIONS && i < |Align(v)|
    ensures forall x, y :: AlignCellBefore(v, x, y, i, |Align(v)|) <==> AlignCellBefore(v, x, y, i + 1, 0)
  {
    hide Align, OnPattern;
  }

  lemma AlignAllDone(v: nat)
    requires v < VERSIONS
    ensures forall x, y :: AlignCellBefore(v, x, y, |Align(v)|, 0) <==> AlignCell(v, x, y)
  {
    hide Align, OnPattern;
  }

  /** Module (x, y) has the colour of alignment pattern (a, b), if it lies on it. */
  ghost predicate ShowsAlign(m: Cells, v: nat, a: nat, b: nat, x: int, y: int)
    requires v < VERSIONS && Square(m, v) && a < |Align(v)| && b < |Align(v)|
    reads m
  {
    var r, c := Align(v)[a], Align(v)[b];
    0 <= x < Size(v) && 0 <= y < Size(v) && OnPattern(Size(v), r, c, x, y) ==>
      m[x, y] == Some(AlignDark(Ring(r, c, x, y)))
  }

  method DrawAlignments(m: Cells, v: nat)
    requires v < VERSIONS && Square(m, v)
    modifies m
    ensures forall x, y :: 0 <= x < Size(v) && 0 <= y < Size(v) && !AlignCell(v, x, y) ==> m[x, y] == old(m[x, y])
    ensures forall a, b, x, y :: 0 <= a < |Align(v)| && 0 <= b < |Align(v)| ==> ShowsAlign(m, v, a, b, x, y)
  {
    hide Align, OnPattern, Ring, AlignDark, AlignCellBefore, AlignCell;
    var ap := Align(v);
    NoneBefore(v);
    for i := 0 to |ap|
      invariant forall x, y :: 0 <= x < Size(v) && 0 <= y < Size(v) && !AlignCellBefore(v, x, y, i, 0) ==>
        m[x, y] == old(m[x, y])
      invariant forall a, b, x, y :: 0 <= a < i && 0 <= b < |Align(v)| ==> ShowsAlign(m, v, a, b, x, y)
    {
      for j := 0 to |ap|
        invariant forall x, y :: 0 <= x < Size(v) && 0 <= y < Size(v) && !AlignCellBefore(v, x, y, i, j) ==>
          m[x, y] == old(m[x, y])
        invariant forall a, b, x, y :: 0 <= a < |Align(v)| && 0 <= b < |Align(v)| && Before(a, b, i, j) ==>
          ShowsAlign(m, v, a, b, x, y)
      {
        AlignStep(v, i, j);
        label Next:
        if !Skipped(Size(v), ap[i], ap[j]) {
          DrawAlignment(m, ap[i], ap[j]);
        }
        forall a, b, x, y | 0 <= a < |Align(v)| && 0 <= b < |Align(v)| && Before(a, b, i, j + 1)
          ensures ShowsAlign(m, v, a, b, x, y) {
          if a != i || b != j {
            assert Before(a, b, i, j);
            assert old@Next(ShowsAlign(m, v, a, b, x, y));
            if OnPattern(Size(v), ap[a], ap[b], x, y) && OnPattern(Size(v), ap[i], ap[j], x, y) {
              OnePattern(v, a, b, i, j, x, y);
            }
          }
        }
      }
      AlignRowDone(v, i);
    }
    AlignAllDone(v);
  }

  lemma NoneBefore(v: nat)
    requires v < VERSIONS
    ensures forall x, y :: !AlignCellBefore(v, x, y, 0, 0)
  {
  }

  /** Reserve the format areas where nothing is drawn yet. */
  method ReserveFormat(m: Cells, size: nat)
    requires size >= 21 && m.Length0 == m.Length1 == size && m[size - 8, 8].Some?
    modifies m
    ensures forall x, y :: 0 <= x < size && 0 <= y < size ==>
      m[x, y] == if FormatCell(size, x, y) && old(m[x, y]).None? then Some(false) else old(m[x, y])
  {
    for i := 0 to 8
      invariant forall x, y :: 0 <= x < size && 0 <= y < size ==>
        m[x, y] == if ((x == 8 && (y < i || y >= size - i)) || (y == 8 && (x < i || x >= size - i))) &&
          old(m[x, y]).None?
          then Some(false) else old(m[x, y])
    {
      Reserve(m, 8, i);
      Reserve(m, i, 8);
      Reserve(m, 8, size - 1 - i);
      Reserve(m, size - 1 - i, 8);
    }
    Reserve(m, 8, 8);
  }

  method Reserve(m: Cells, r: nat, c: nat)
    requires r < m.Length0 && c < m.Length1
    modifies m
    ensures forall x, y :: 0 <= x < m.Length0 && 0 <= y < m.Length1 ==>
      m[x, y] == if x == r && y == c && old(m[x, y]).None? then Some(false) else old(m[x, y])
  {
    if m[r, c].None? {
      m[r, c] := Some(false);
    }
  }

  /** Six bits of version and the twelve of its remainder. */
  function VersionWord(v: nat): bv32
    requires v < VERSIONS
  {
    var ver := (v + 1) as bv32;
    VersionFrom(ver, VersionRegister(ver, 12))
  }

  lemma VersionIsSmall(v: nat)
    requires v < VERSIONS
    ensures (v + 1) as bv32 < 0x20
  {
  }

  /** The version word is the version with its remainder by 0x1f25 behind it: the multiple of the generator that begins
      with these six bits. */
  lemma VersionIsCodeword(v: nat)
    requires v < VERSIONS
    ensures Multiple(VersionWord(v), 0x1f25, 12) && HighSix(VersionWord(v)) == (v + 1) as bv32
  {
    hide VersionRegister, VersionFrom, Multiple, HighSix;
    VersionIsSmall(v);
    VersionCodeword((v + 1) as bv32, 0x1f25);
  }

  predicate VersionBit(word: bv32, i: nat)
    requires i < 18
  {
    (word >> i) & 1 == 1
  }

  /** The version, from the six highest bits, the lowest first. */
  function VersionFromBits(b0: bool, b1: bool, b2: bool, b3: bool, b4: bool, b5: bool): nat {
    (if b0 then 1 else 0) + (if b1 then 2 else 0) + (if b2 then 4 else 0) + (if b3 then 8 else 0)
    + (if b4 then 16 else 0) + (if b5 then 32 else 0)
  }

  lemma HighBits(word: bv32, ver: bv32)
    requires HighSix(word) == ver
    ensures VersionBit(word, 12) == (ver & 1 != 0) && VersionBit(word, 13) == (ver & 2 != 0)
    ensures VersionBit(word, 14) == (ver & 4 != 0) && VersionBit(word, 15) == (ver & 8 != 0)
    ensures VersionBit(word, 16) == (ver & 16 != 0) && VersionBit(word, 17) == (ver & 32 != 0)
  {
  }

  lemma BitsOfVersion(v: nat)
    requires v < VERSIONS
    ensures var x := (v + 1) as bv32;
      VersionFromBits(x & 1 != 0, x & 2 != 0, x & 4 != 0, x & 8 != 0, x & 16 != 0, x & 32 != 0) == v + 1
  {
    assert v == 0 || v == 1 || v == 2 || v == 3 || v == 4 || v == 5 || v == 6 || v == 7 || v == 8 || v == 9
        || v == 10 || v == 11 || v == 12 || v == 13 || v == 14 || v == 15 || v == 16 || v == 17 || v == 18 || v == 19;
  }

  /** The bits of the version word name the version. */
  lemma VersionInBits(v: nat)
    requires v < VERSIONS
    ensures var w := VersionWord(v);
      VersionFromBits(VersionBit(w, 12), VersionBit(w, 13), VersionBit(w, 14), VersionBit(w, 15), VersionBit(w, 16),
        VersionBit(w, 17)) == v + 1
  {
    hide VersionWord, VersionBit, VersionFromBits, HighSix, Multiple;
    VersionIsCodeword(v);
    HighBits(VersionWord(v), (v + 1) as bv32);
    BitsOfVersion(v);
  }

  /** The bit of the version word that a module of the copy at the bottom left shows; the other copy is its mirror
      image. */
  function VersionIndex(size: nat, x: int, y: int): (i: nat)
    requires size - 11 <= x < size - 8 && 0 <= y < 6
    ensures i < 18
  {
    y * 3 + (x - (size - 11))
  }

  predicate VersionCopy(size: nat, x: int, y: int) {
    size - 11 <= x < size - 8 && 0 <= y < 6
  }

  predicate VersionDark(v: nat, x: int, y: int)
    requires v < VERSIONS && (VersionCopy(Size(v), x, y) || VersionCopy(Size(v), y, x))
  {
    VersionBit(VersionWord(v), if VersionCopy(Size(v), x, y) then VersionIndex(Size(v), x, y)
      else VersionIndex(Size(v), y, x))
  }

  /** One of the first `i` cells of a copy. */
  predicate VersionCellBefore(size: nat, x: int, y: int, i: nat) {
    VersionCopy(size, x, y) && VersionIndex(size, x, y) < i
  }

  /** The version word, by the loop of shifts. */
  method VersionBits(v: nat) returns (word: bv32)
    requires v < VERSIONS
    ensures word == VersionWord(v)
    ensures Multiple(word, 0x1f25, 12) && HighSix(word) == (v + 1) as bv32
  {
    hide VersionStep, VersionFrom, Multiple, HighSix;
    VersionIsCodeword(v);
    var ver := (v + 1) as bv32;
    var rem := ver;
    for i := 0 to 12
      invariant rem == VersionRegister(ver, i)
    {
      rem := VersionStep(rem);
    }
    word := VersionFrom(ver, rem);
  }

  method DrawVersion(m: Cells, v: nat)
    requires v < VERSIONS && Square(m, v) && v + 1 >= 7
    modifies m
    ensures forall x, y :: 0 <= x < Size(v) && 0 <= y < Size(v) ==>
      m[x, y] == if VersionCopy(Size(v), x, y) || VersionCopy(Size(v), y, x) then Some(VersionDark(v, x, y))
        else old(m[x, y])
  {
    hide VersionWord, VersionBit;
    var size := Size(v);
    var word := VersionBits(v);
    for i := 0 to 18
      invariant forall x, y :: 0 <= x < size && 0 <= y < size ==>
        m[x, y] == if VersionCellBefore(size, x, y, i) || VersionCellBefore(size, y, x, i)
          then Some(VersionDark(v, x, y)) else old(m[x, y])
    {
      var bit := VersionBit(word, i);
      var a, b := size - 11 + i % 3, i / 3;
      m[a, b] := Some(bit);
      m[b, a] := Some(bit);
    }
  }

  /* ---------- All of them ---------- */

  /** The centre of the finder a module belongs to. */
  function FinderCentre(size: nat, x: int, y: int): (int, int) {
    (if x < 8 then 3 else size - 4, if y < 8 then 3 else size - 4)
  }

  /** The patterns settle that module (x, y) is dark, or that it is light. */
  ghost predicate Settles(v: nat, x: int, y: int, dark: bool)
    requires v < VERSIONS
  {
    var size := Size(v);
    || (FinderCell(size, x, y) &&
         dark == FinderDark(Ring(FinderCentre(size, x, y).0, FinderCentre(size, x, y).1, x, y)))
    || (TimingCell(size, x, y) && dark == TimingDark(x, y))
    || SettlesAlign(v, x, y, dark)
    || (x == size - 8 && y == 8 && dark)
    || SettlesVersion(v, x, y, dark)
  }

  ghost predicate SettlesAlign(v: nat, x: int, y: int, dark: bool)
    requires v < VERSIONS
  {
    exists a, b :: 0 <= a < |Align(v)| && 0 <= b < |Align(v)| && OnPattern(Size(v), Align(v)[a], Align(v)[b], x, y)
      && dark == AlignDark(Ring(Align(v)[a], Align(v)[b], x, y))
  }

  predicate SettlesVersion(v: nat, x: int, y: int, dark: bool)
    requires v < VERSIONS
  {
    v + 1 >= 7 && (VersionCopy(Size(v), x, y) || VersionCopy(Size(v), y, x)) && dark == VersionDark(v, x, y)
  }

  /** No format module but the dark one belongs to a pattern, the two on the timing lines aside. */
  lemma StampsApart(v: nat, x: int, y: int, dark: bool)
    requires v < VERSIONS && Settles(v, x, y, dark) && FormatCell(Size(v), x, y)
    ensures (x == 8 && y == 6) || (x == 6 && y == 8) || (x == Size(v) - 8 && y == 8 && dark)
  {
    hide Align, Ring, FinderDark, AlignDark, VersionDark;
    AlignTables(v);
  }

  /** Where an alignment pattern lies on a timing line, the two agree. */
  lemma AlignAgrees(v: nat, a: nat, b: nat, x: int, y: int)
    requires v < VERSIONS && a < |Align(v)| && b < |Align(v)| && OnPattern(Size(v), Align(v)[a], Align(v)[b], x, y)
    requires TimingCell(Size(v), x, y)
    ensures AlignDark(Ring(Align(v)[a], Align(v)[b], x, y)) == TimingDark(x, y)
  {
    hide Align;
    AlignTables(v);
    var r, c := Align(v)[a], Align(v)[b];
    if x == 6 {
      assert r == 6;
    } else {
      assert c == 6;
    }
  }

  lemma AlignApart(v: nat, x: int, y: int)
    requires v < VERSIONS && AlignCell(v, x, y)
    ensures !FinderCell(Size(v), x, y) && !(x == Size(v) - 8 && y == 8)
    ensures !VersionCopy(Size(v), x, y) && !VersionCopy(Size(v), y, x)
  {
    hide Align;
    AlignTables(v);
  }

  /** The colour a finder gives a module. */
  function FinderColour(size: nat, x: int, y: int): bool {
    var centre := FinderCentre(size, x, y);
    FinderDark(Ring(centre.0, centre.1, x, y))
  }

  /** A module before the alignment patterns are drawn. */
  function Unaligned(v: nat, x: int, y: int): Option<bool> {
    if TimingCell(Size(v), x, y) then Some(TimingDark(x, y))
    else if FinderCell(Size(v), x, y) then Some(FinderColour(Size(v), x, y))
    else None
  }

  /** The modules after the alignment patterns: `drawn` is what one of them holds. */
  ghost predicate EarlyPatterns(v: nat, x: int, y: int, drawn: Option<bool>)
    requires v < VERSIONS
  {
    && (AlignCell(v, x, y) ==> drawn.Some? && forall dark :: SettlesAlign(v, x, y, dark) ==> drawn == Some(dark))
    && (!AlignCell(v, x, y) ==> drawn == Unaligned(v, x, y))
  }

  lemma EarlyIsSettled(v: nat, x: int, y: int, drawn: Option<bool>)
    requires v < VERSIONS && EarlyPatterns(v, x, y, drawn)
    ensures drawn.Some? <==> FinderCell(Size(v), x, y) || TimingCell(Size(v), x, y) || AlignCell(v, x, y)
    ensures FinderCell(Size(v), x, y) ==> drawn == Some(FinderColour(Size(v), x, y))
    ensures TimingCell(Size(v), x, y) ==> drawn == Some(TimingDark(x, y))
    ensures forall dark :: SettlesAlign(v, x, y, dark) ==> drawn == Some(dark)
  {
    hide Align, Ring, FinderDark, AlignDark, TimingDark, FinderColour, OnPattern;
    if AlignCell(v, x, y) {
      AlignApart(v, x, y);
      if TimingCell(Size(v), x, y) {
        var a, b :| 0 <= a < |Align(v)| && 0 <= b < |Align(v)| && OnPattern(Size(v), Align(v)[a], Align(v)[b], x, y);
        AlignAgrees(v, a, b, x, y);
        assert SettlesAlign(v, x, y, TimingDark(x, y));
      }
    }
  }

  /** What the later steps make of a module: the dark one, the reserved ones and the version information. */
  lemma PatternsDone(v: nat, x: int, y: int, early: Option<bool>, last: Option<bool>)
    requires v < VERSIONS && EarlyPatterns(v, x, y, early) && 0 <= x < Size(v) && 0 <= y < Size(v)
    requires last ==
      if v + 1 >= 7 && (VersionCopy(Size(v), x, y) || VersionCopy(Size(v), y, x)) then Some(VersionDark(v, x, y))
      else if x == Size(v) - 8 && y == 8 then Some(true)
      else if FormatCell(Size(v), x, y) && early.None? then Some(false)
      else early
    ensures last.Some? <==> FunctionCell(v, x, y)
    ensures forall dark :: Settles(v, x, y, dark) ==> last == Some(dark)
  {
    EarlyIsSettled(v, x, y, early);
    hide EarlyPatterns, SettlesAlign, AlignCell, VersionDark, Ring, FinderDark, TimingDark;
    if AlignCell(v, x, y) {
      AlignApart(v, x, y);
    } else {
      NoAlign(v, x, y);
    }
  }

  lemma NoAlign(v: nat, x: int, y: int)
    requires v < VERSIONS && !AlignCell(v, x, y)
    ensures forall dark :: !SettlesAlign(v, x, y, dark)
  {
    hide Align, OnPattern, Ring, AlignDark;
  }

  /** The finders, the timing lines and the alignment patterns. */
  method DrawEarly(m: Cells, v: nat)
    requires v < VERSIONS && Square(m, v)
    requires forall x, y :: 0 <= x < Size(v) && 0 <= y < Size(v) ==> m[x, y].None?
    modifies m
    ensures forall x, y :: 0 <= x < Size(v) && 0 <= y < Size(v) ==> EarlyPatterns(v, x, y, m[x, y])
  {
    hide AlignCell, Ring, FinderDark, AlignDark, TimingDark, Align, OnPattern, EarlyPatterns, ShowsAlign;
    var size := Size(v);
    DrawFinder(m, 0, 0);
    DrawFinder(m, 0, size - 7);
    DrawFinder(m, size - 7, 0);
    DrawTiming(m, size);
    DrawAlignments(m, v);
    forall x, y | 0 <= x < size && 0 <= y < size ensures EarlyPatterns(v, x, y, m[x, y]) {
      if AlignCell(v, x, y) {
        AlignShows(m, v, x, y);
      } else {
        NoAlignEarly(v, x, y, m[x, y]);
      }
    }
  }

  lemma AlignShows(m: Cells, v: nat, x: int, y: int)
    requires v < VERSIONS && Square(m, v) && 0 <= x < Size(v) && 0 <= y < Size(v) && AlignCell(v, x, y)
    requires forall a, b :: 0 <= a < |Align(v)| && 0 <= b < |Align(v)| ==> ShowsAlign(m, v, a, b, x, y)
    ensures EarlyPatterns(v, x, y, m[x, y])
  {
    hide Align, OnPattern, Ring, AlignDark;
    var a, b :| 0 <= a < |Align(v)| && 0 <= b < |Align(v)| && OnPattern(Size(v), Align(v)[a], Align(v)[b], x, y);
    assert ShowsAlign(m, v, a, b, x, y);
    forall dark | SettlesAlign(v, x, y, dark) ensures m[x, y] == Some(dark) {
      var i, j :| 0 <= i < |Align(v)| && 0 <= j < |Align(v)| && OnPattern(Size(v), Align(v)[i], Align(v)[j], x, y)
        && dark == AlignDark(Ring(Align(v)[i], Align(v)[j], x, y));
      assert ShowsAlign(m, v, i, j, x, y);
    }
  }

  lemma NoAlignEarly(v: nat, x: int, y: int, drawn: Option<bool>)
    requires v < VERSIONS && !AlignCell(v, x, y)
    requires drawn == Unaligned(v, x, y)
    ensures EarlyPatterns(v, x, y, drawn)
  {
  }

  /** Everything drawn before the data: exactly the function cells are set, and every module of a pattern has the colour
      the pattern gives it. */
  method DrawFunctionPatterns(v: nat) returns (m: Cells)
    requires v < VERSIONS
    ensures fresh(m) && Square(m, v)
    ensures forall r, c :: 0 <= r < Size(v) && 0 <= c < Size(v) ==> (m[r, c].Some? <==> FunctionCell(v, r, c))
    ensures forall r, c, dark :: 0 <= r < Size(v) && 0 <= c < Size(v) && Settles(v, r, c, dark) ==>
      m[r, c] == Some(dark)
  {
    hide EarlyPatterns, VersionDark, Settles, FunctionCell, FormatCell, VersionCopy;
    var size := Size(v);
    m := new Option<bool>[size, size]((_, _) => None);
    DrawEarly(m, v);
    label Early:
    m[size - 8, 8] := Some(true);
    ReserveFormat(m, size);
    if v + 1 >= 7 {
      DrawVersion(m, v);
    }
    forall r, c | 0 <= r < size && 0 <= c < size
      ensures m[r, c].Some? <==> FunctionCell(v, r, c)
      ensures forall dark :: Settles(v, r, c, dark) ==> m[r, c] == Some(dark)
    {
      PatternsDone(v, r, c, old@Early(m[r, c]), m[r, c]);
    }
  }
}
