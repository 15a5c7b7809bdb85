/** The check bits of the format and version words in src/main/qr.ts, by the shift registers of the code, and what they
    are: remainders of a division by a generator polynomial (ISO/IEC 18004:2015, Annexes C and D). */
module Bch {
  import opened CarryLess

  /* ---------- The format code ---------- */

  /** The remainder register of the format code after `k` steps. */
  function FormatRegister(data: bv32, k: nat): bv32 {
    if k == 0 then data else FormatStep(FormatRegister(data, k - 1))
  }

  /** One step of the division by the generator 0x537. */
  function FormatStep(rem: bv32): bv32 {
    if FormatTop(rem) then Sum(Shift(rem), 0x537) else Shift(rem)
  }

  predicate FormatTop(rem: bv32) {
    (rem >> 9) & 1 != 0
  }

  function FormatFrom(data: bv32, rem: bv32): bv32 {
    ((data << 10) | rem) ^ 0x5412
  }

  /** A format word without the constant that is laid over it. */
  function Unmasked(word: bv32): bv32 {
    word ^ 0x5412
  }

  function HighFive(word: bv32): bv32 {
    word >> 10
  }

  lemma FormatShift(x: bv32, rem: bv32)
    ensures Sum(Shift(x), FormatStep(rem)) == ShiftIn(Sum(x, rem), 0x537, FormatTop(rem))
  {
    hide Sum, Shift, FormatTop;
    SumShift(x, rem);
    SumShiftPlus(x, rem, 0x537);
  }

  /** Each step of the division takes a multiple of the generator off. */
  lemma {:induction false} FormatDivides(data: bv32, g: bv32, k: nat) returns (q: seq<bool>)
    requires g == 0x537
    ensures |q| == k && Sum(Shifted(data, k), FormatRegister(data, k)) == Product(g, q)
  {
    hide FormatStep, Product, ShiftIn, Sum, Shift, FormatTop;
    if k == 0 {
      q := [];
      ProductNone(g);
      SumSelf(data);
    } else {
      q := FormatDivides(data, g, k - 1);
      var rem := FormatRegister(data, k - 1);
      ProductSnoc(g, q, FormatTop(rem));
      FormatShift(Shifted(data, k - 1), rem);
      q := q + [FormatTop(rem)];
    }
  }

  lemma FormatStepShort(rem: bv32)
    requires rem < 0x400
    ensures FormatStep(rem) < 0x400
  {
  }

  lemma {:induction false} FormatStaysShort(data: bv32, k: nat)
    requires data < 0x20
    ensures FormatRegister(data, k) < 0x400
  {
    hide FormatStep;
    if k > 0 {
      FormatStaysShort(data, k - 1);
      FormatStepShort(FormatRegister(data, k - 1));
    }
  }

  lemma FormatParts(data: bv32, rem: bv32)
    requires data < 0x20 && rem < 0x400
    ensures Unmasked(FormatFrom(data, rem)) == Sum(ShiftTen(data), rem)
    ensures HighFive(Unmasked(FormatFrom(data, rem))) == data
  {
  }

  /** The word is a multiple of the generator and begins with the data, so the rest is the remainder. */
  lemma FormatCodeword(data: bv32, g: bv32)
    requires data < 0x20 && g == 0x537
    ensures var word := Unmasked(FormatFrom(data, FormatRegister(data, 10)));
      Multiple(word, g, 10) && HighFive(word) == data
  {
    hide *;
    FormatStaysShort(data, 10);
    FormatParts(data, FormatRegister(data, 10));
    var q := FormatDivides(data, g, 10);
    ShiftedFar(data);
    IsMultiple(Unmasked(FormatFrom(data, FormatRegister(data, 10))), g, q);
  }

  /* ---------- The version code ---------- */

  /** The remainder register of the version code after `k` steps. */
  function VersionRegister(data: bv32, k: nat): bv32 {
    if k == 0 then data else VersionStep(VersionRegister(data, k - 1))
  }

  /** One step of the division by the generator 0x1f25. */
  function VersionStep(rem: bv32): bv32 {
    if VersionTop(rem) then Sum(Shift(rem), 0x1f25) else Shift(rem)
  }

  predicate VersionTop(rem: bv32) {
    rem >> 11 != 0
  }

  function VersionFrom(ver: bv32, rem: bv32): bv32 {
    (ver << 12) | rem
  }

  function HighSix(word: bv32): bv32 {
    word >> 12
  }

  lemma VersionShift(x: bv32, rem: bv32)
    ensures Sum(Shift(x), VersionStep(rem)) == ShiftIn(Sum(x, rem), 0x1f25, VersionTop(rem))
  {
    hide Sum, Shift, VersionTop;
    SumShift(x, rem);
    SumShiftPlus(x, rem, 0x1f25);
  }

  /** Each step of the division takes a multiple of the generator off. */
  lemma {:induction false} VersionDivides(data: bv32, g: bv32, k: nat) returns (q: seq<bool>)
    requires g == 0x1f25
    ensures |q| == k && Sum(Shifted(data, k), VersionRegister(data, k)) == Product(g, q)
  {
    hide VersionStep, Product, ShiftIn, Sum, Shift, VersionTop;
    if k == 0 {
      q := [];
      ProductNone(g);
      SumSelf(data);
    } else {
      q := VersionDivides(data, g, k - 1);
      var rem := VersionRegister(data, k - 1);
      ProductSnoc(g, q, VersionTop(rem));
      VersionShift(Shifted(data, k - 1), rem);
      q := q + [VersionTop(rem)];
    }
  }

  lemma VersionStepShort(rem: bv32)
    requires rem < 0x1000
    ensures VersionStep(rem) < 0x1000
  {
  }

  lemma {:induction false} VersionStaysShort(data: bv32, k: nat)
    requires data < 0x20
    ensures VersionRegister(data, k) < 0x1000
  {
    hide VersionStep;
    if k > 0 {
      VersionStaysShort(data, k - 1);
      VersionStepShort(VersionRegister(data, k - 1));
    }
  }

  lemma VersionParts(ver: bv32, rem: bv32)
    requires ver < 0x20 && rem < 0x1000
    ensures VersionFrom(ver, rem) == Sum(ShiftTwelve(ver), rem) && HighSix(VersionFrom(ver, rem)) == ver
  {
  }

  lemma VersionCodeword(ver: bv32, g: bv32)
    requires ver < 0x20 && g == 0x1f25
    ensures var word := VersionFrom(ver, VersionRegister(ver, 12)); Multiple(word, g, 12) && HighSix(word) == ver
  {
    hide *;
    VersionStaysShort(ver, 12);
    VersionParts(ver, VersionRegister(ver, 12));
    var q := VersionDivides(ver, g, 12);
    ShiftedFar(ver);
    IsMultiple(VersionFrom(ver, VersionRegister(ver, 12)), g, q);
  }
}
