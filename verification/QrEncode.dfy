/** `encodeQr` of src/main/qr.ts, end to end. */
module QrEncode {
  import opened ReedSolomon
  import opened Options
  import opened QrCodewords
  import opened QrMatrix
  import opened QrPatterns
  import opened QrSymbol
  import opened QrRoom

  /** The finished matrix, or the length of a text that fits no version. */
  datatype Encoded = Encoded(modules: Modules) | Failed(length: nat)

  /** Every module of a function pattern has the colour the pattern gives it. */
  ghost predicate PatternsShown(g: Modules, v: nat)
    requires v < VERSIONS && g.Length0 == g.Length1 == Size(v)
    reads g
  {
    forall r, c, dark :: 0 <= r < Size(v) && 0 <= c < Size(v) && Settles(v, r, c, dark) ==> g[r, c] == dark
  }

  /** What a reader finds in the two version areas of a symbol from version 7 on. */
  ghost predicate ShowsVersion(g: Modules, version: nat)
    requires g.Length0 == g.Length1 >= 21
    reads g
  {
    var n := g.Length0;
    && VersionFromBits(g[n - 11, 4], g[n - 10, 4], g[n - 9, 4], g[n - 11, 5], g[n - 10, 5], g[n - 9, 5]) == version
    && VersionFromBits(g[4, n - 11], g[4, n - 10], g[4, n - 9], g[5, n - 11], g[5, n - 10], g[5, n - 9]) == version
  }

  lemma VersionCell(g: Modules, v: nat, x: int, y: int)
    requires v < VERSIONS && v + 1 >= 7 && g.Length0 == g.Length1 == Size(v) && PatternsShown(g, v)
    requires VersionCopy(Size(v), x, y)
    ensures var bit := VersionBit(VersionWord(v), VersionIndex(Size(v), x, y)); g[x, y] == bit && g[y, x] == bit
  {
    hide VersionWord, VersionBit, Settles;
    var bit := VersionBit(VersionWord(v), VersionIndex(Size(v), x, y));
    VersionSettles(v, x, y);
    assert Settles(v, x, y, bit) && Settles(v, y, x, bit);
  }

  lemma VersionSettles(v: nat, x: int, y: int)
    requires v < VERSIONS && v + 1 >= 7 && VersionCopy(Size(v), x, y)
    ensures var bit := VersionBit(VersionWord(v), VersionIndex(Size(v), x, y));
      Settles(v, x, y, bit) && Settles(v, y, x, bit)
  {
    hide VersionWord, VersionBit, SettlesAlign, FinderDark, TimingDark, Ring;
  }

  lemma VersionIsShown(g: Modules, v: nat)
    requires v < VERSIONS && v + 1 >= 7 && g.Length0 == g.Length1 == Size(v) && PatternsShown(g, v)
    ensures ShowsVersion(g, v + 1)
  {
    hide PatternsShown, VersionWord, VersionBit, VersionFromBits;
    var n := Size(v);
    VersionCell(g, v, n - 11, 4);
    VersionCell(g, v, n - 10, 4);
    VersionCell(g, v, n - 9, 4);
    VersionCell(g, v, n - 11, 5);
    VersionCell(g, v, n - 10, 5);
    VersionCell(g, v, n - 9, 5);
    VersionInBits(v);
  }

  /** The patterns are drawn, and nothing but data is missing. */
  ghost predicate Drawn(m: Cells, v: nat)
    requires v < VERSIONS && Square(m, v)
    reads m
  {
    forall r, c, dark :: 0 <= r < Size(v) && 0 <= c < Size(v) && Settles(v, r, c, dark) ==>
      m[r, c] == Some(dark) && !Free(v, (r, c))
  }

  /** `g` is the symbol of `stream` under `mask`. */
  ghost predicate IsSymbol(g: Modules, v: nat, stream: seq<bv8>, mask: nat)
    requires v < VERSIONS && mask < 8
    reads g
  {
    && g.Length0 == g.Length1 == Size(v)
    && Carries(g, v, stream, mask) && FormatWritten(g, Size(v), FormatWord(mask)) && PatternsShown(g, v)
  }

  /** Mask the placed matrix and stamp the format. */
  method MakeSymbol(m: Cells, reserved: Modules, v: nat, stream: seq<bv8>, mask: nat) returns (g: Modules)
    requires v < VERSIONS && mask < 8 && Square(m, v)
    requires reserved.Length0 == reserved.Length1 == Size(v)
    requires forall r, c :: 0 <= r < Size(v) && 0 <= c < Size(v) ==> (reserved[r, c] <==> !Free(v, (r, c)))
    requires Placed(m, v, stream, Steps(Size(v))) && Drawn(m, v)
    ensures fresh(g) && IsSymbol(g, v, stream, mask)
  {
    hide FormatWritten, FormatWord, Inverted, StreamBit, Free, StepOf, Steps, Settles, PatternsShown;
    g := ApplyMask(m, reserved, mask);
    label Masked_:
    WriteFormat(g, Size(v), mask);
    PatternsStay(g, v, mask) by {
      forall r, c, dark | 0 <= r < Size(v) && 0 <= c < Size(v) && Settles(v, r, c, dark) && !Stamped(Size(v), r, c)
        ensures g[r, c] == dark {
        assert old@Masked_(g[r, c]) == dark;
      }
    }
    forall r, c | 0 <= r < Size(v) && 0 <= c < Size(v) && Free(v, (r, c))
      ensures 0 <= StepOf(Size(v), (r, c))
      ensures g[r, c] == (StreamBit(stream, FreeRank(v, StepOf(Size(v), (r, c)))) != Inverted(mask, r, c))
    {
      if FormatCell(Size(v), r, c) {
        FormatIsFunction(v, r, c);
      }
      FreeColumns(v);
      WalkCovers(Size(v), r, c);
    }
  }

  lemma PatternsStay(g: Modules, v: nat, mask: nat)
    requires v < VERSIONS && mask < 8 && g.Length0 == g.Length1 == Size(v) &&
      FormatWritten(g, Size(v), FormatWord(mask))
    requires forall r, c, dark ::
      0 <= r < Size(v) && 0 <= c < Size(v) && Settles(v, r, c, dark) && !Stamped(Size(v), r, c) ==> g[r, c] == dark
    ensures PatternsShown(g, v)
  {
    hide Settles, FormatWord;
    forall r, c, dark | 0 <= r < Size(v) && 0 <= c < Size(v) && Settles(v, r, c, dark) ensures g[r, c] == dark {
      if FormatCell(Size(v), r, c) {
        StampsApart(v, r, c, dark);
      }
    }
  }

  lemma FormatIsFunction(v: nat, r: int, c: int)
    requires v < VERSIONS && FormatCell(Size(v), r, c)
    ensures !Free(v, (r, c))
  {
  }

  /** Some mask is allowed, it is the requested one if there is one, and no allowed mask scores lower. */
  ghost predicate BestMask(mask: nat, wanted: Option<nat>, penalty: nat -> nat) {
    && mask < 8
    && (wanted.Some? ==> mask == wanted.value)
    && (wanted.None? ==> forall k :: 0 <= k < 8 ==>
         penalty(mask) < penalty(k) || (penalty(mask) == penalty(k) && mask <= k))
  }

  /** The loop over the masks: the first with the lowest score, among those asked for. No mask
      is asked for when the request is out of range, and the matrix stays empty. */
  method ChooseMask(m: Cells, reserved: Modules, v: nat, stream: seq<bv8>, wanted: Option<nat>, penalty: nat -> nat)
    returns (best: Modules, ghost chosen: nat)
    requires v < VERSIONS && Square(m, v)
    requires reserved.Length0 == reserved.Length1 == Size(v)
    requires forall r, c :: 0 <= r < Size(v) && 0 <= c < Size(v) ==> (reserved[r, c] <==> !Free(v, (r, c)))
    requires Placed(m, v, stream, Steps(Size(v))) && Drawn(m, v)
    ensures wanted.Some? && wanted.value >= 8 ==> best.Length0 == best.Length1 == 0
    ensures wanted.None? || wanted.value < 8 ==> BestMask(chosen, wanted, penalty) && IsSymbol(best, v, stream, chosen)
  {
    hide Placed, IsSymbol, Free, Drawn;
    best := new bool[0, 0];
    var bestScore: Option<nat> := None;
    chosen := 0;
    for mask := 0 to 8
      invariant bestScore.None? <==> mask == 0 || (wanted.Some? && wanted.value >= mask)
      invariant bestScore.None? ==> best.Length0 == best.Length1 == 0
      invariant bestScore.Some? ==>
        chosen < mask && bestScore.value == penalty(chosen) && IsSymbol(best, v, stream, chosen)
      invariant bestScore.Some? && wanted.Some? ==> chosen == wanted.value
      invariant bestScore.Some? && wanted.None? ==>
        forall k :: 0 <= k < mask ==> penalty(chosen) < penalty(k) || (penalty(chosen) == penalty(k) && chosen <= k)
    {
      if wanted.None? || mask == wanted.value {
        var g := MakeSymbol(m, reserved, v, stream, mask);
        var score := penalty(mask);
        if bestScore.None? || score < bestScore.value {
          bestScore, best, chosen := Some(score), g, mask;
        }
      }
    }
  }

  /** Every text of at most 666 bytes becomes a symbol from which a reader gets the text back,
      whatever mask is asked for or preferred by the score. */
  method EncodeQr(t: Tables, bytes: seq<bv8>, wanted: Option<nat>, penalty: nat -> nat) returns (r: Encoded)
    requires t.Valid()
    ensures r.Failed? <==> |bytes| > QR_MAX_BYTES
    ensures r.Failed? ==> r.length == |bytes|
    ensures r.Encoded? && wanted.Some? && wanted.value >= 8 ==> r.modules.Length0 == r.modules.Length1 == 0
    ensures r.Encoded? && (wanted.None? || wanted.value < 8) ==> Decode(r.modules) == Some(bytes)
    ensures r.Encoded? && (wanted.None? || wanted.value < 8) ==>
      r.modules.Length0 > 8 && r.modules.Length1 > 8 && BestMask(ReadMask(r.modules), wanted, penalty)
    ensures r.Encoded? && (wanted.None? || wanted.value < 8) ==>
      exists v :: 0 <= v < VERSIONS && r.modules.Length0 == r.modules.Length1 == Size(v) && Fits(v, |bytes|)
        && PatternsShown(r.modules, v) && (v >= 6 ==> ShowsVersion(r.modules, v + 1))
        && forall u :: 0 <= u < v ==> !Fits(u, |bytes|)
  {
    hide Decode, ReadBytes, AllBlocksValid, HoldsBytes, Fits, EcM, Placed, IsSymbol, Free, FunctionCell, BestMask,
      ReadMask, PatternsShown, Settles, ShowsVersion;
    var built := BuildCodewords(t, bytes);
    if built.TooLong? {
      return Failed(built.length);
    }
    var v, stream := built.version, built.stream;
    var m := DrawFunctionPatterns(v);
    var reserved := ReservedMap(m);
    ReservedIsFunction(v, m, reserved);
    PlaceData(m, v, stream);
    var best, chosen := ChooseMask(m, reserved, v, stream, wanted, penalty);
    if wanted.None? || wanted.value < 8 {
      BestIsMask(chosen, wanted, penalty);
      FinishedSymbol(best, v, stream, chosen);
    }
    r := Encoded(best);
  }

  lemma BestIsMask(mask: nat, wanted: Option<nat>, penalty: nat -> nat)
    requires BestMask(mask, wanted, penalty)
    ensures mask < 8
  {
  }

  lemma ReservedIsFunction(v: nat, m: Cells, reserved: Modules)
    requires v < VERSIONS && Square(m, v) && reserved.Length0 == reserved.Length1 == Size(v)
    requires forall r, c :: 0 <= r < Size(v) && 0 <= c < Size(v) ==> (m[r, c].Some? <==> FunctionCell(v, r, c))
    requires forall r, c :: 0 <= r < Size(v) && 0 <= c < Size(v) ==> reserved[r, c] == m[r, c].Some?
    ensures forall r, c :: 0 <= r < Size(v) && 0 <= c < Size(v) ==> (reserved[r, c] <==> !Free(v, (r, c)))
    ensures forall r, c :: 0 <= r < Size(v) && 0 <= c < Size(v) ==> (m[r, c].Some? <==> !Free(v, (r, c)))
  {
    hide FunctionCell;
  }

  lemma FinishedSymbol(g: Modules, v: nat, stream: seq<bv8>, mask: nat)
    requires v < VERSIONS && mask < 8 && IsSymbol(g, v, stream, mask)
    requires |stream| == EcM(v).total
    ensures g.Length0 == g.Length1 == Size(v)
    ensures Decode(g) == ReadBytes(v, stream) && ReadMask(g) == mask && PatternsShown(g, v)
    ensures v >= 6 ==> ShowsVersion(g, v + 1)
  {
    hide Decode, ReadBytes, EcM, FreeRank, Steps, FormatWritten, FormatWord, Carries, PatternsShown, ShowsVersion;
    if v >= 6 {
      VersionIsShown(g, v);
    }
    EnoughRoom(v);
    SymbolReadsBack(g, v, stream, mask);
    FormatNamesMask(g, Size(v), mask);
  }
}
