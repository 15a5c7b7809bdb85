/** Arithmetic of GF(256) modulo x^8 + x^4 + x^3 + x^2 + 1 (0x11d). */
module Gf256 {
  import opened Basics
  import opened CarryLess

  /** Addition of the field. */
  function Plus(x: bv8, y: bv8): bv8 {
    x ^ y
  }

  /** Multiplication by x, with the reduction by 0x11d folded into eight bits. */
  function Double(x: bv8): bv8 {
    if x & 0x80 != 0 then (x << 1) ^ 0x1d else x << 1
  }

  function Bits(b: bv8): seq<bool> {
    [b & 0x80 != 0, b & 0x40 != 0, b & 0x20 != 0, b & 0x10 != 0,
     b & 0x08 != 0, b & 0x04 != 0, b & 0x02 != 0, b & 0x01 != 0]
  }

  /** One step of Horner's rule. */
  function Step(acc: bv8, a: bv8, bit: bool): bv8 {
    if bit then Plus(Double(acc), a) else Double(acc)
  }

  /** Horner's rule over bits, most significant first. */
  function Horner(acc: bv8, a: bv8, bits: seq<bool>): bv8
    decreases bits
  {
    if bits == [] then acc else Horner(Step(acc, a, bits[0]), a, bits[1..])
  }

  /** The product of the field. */
  function Times(a: bv8, b: bv8): bv8 {
    Horner(0, a, Bits(b))
  }

  /** The powers of the generator alpha = 2. */
  function Alpha(n: nat): bv8 {
    if n == 0 then 1 else Double(Alpha(n - 1))
  }

  /* ---------- Addition ---------- */

  lemma PlusLaws(x: bv8, y: bv8, z: bv8)
    ensures Plus(x, y) == Plus(y, x)
    ensures Plus(Plus(x, y), z) == Plus(x, Plus(y, z))
    ensures Plus(x, 0) == x && Plus(x, x) == 0
    ensures Plus(x, y) == 0 ==> x == y
  {
  }

  lemma PlusSwap(x: bv8, y: bv8, p: bv8, q: bv8)
    ensures Plus(Plus(x, y), Plus(p, q)) == Plus(Plus(x, p), Plus(y, q))
  {
    hide Plus;
    PlusLaws(x, y, Plus(p, q));
    PlusLaws(y, p, q);
    PlusLaws(p, y, q);
    PlusLaws(x, p, Plus(y, q));
  }

  lemma DoublePlus(x: bv8, y: bv8)
    ensures Double(Plus(x, y)) == Plus(Double(x), Double(y))
  {
    if x & 0x80 != 0 {
      if y & 0x80 != 0 {
      } else {
      }
    } else if y & 0x80 != 0 {
    } else {
    }
  }

  lemma DoubleInjective(x: bv8, y: bv8)
    requires Double(x) == Double(y)
    ensures x == y
  {
  }

  lemma StepPlus(x: bv8, y: bv8, a: bv8, c: bv8, bit: bool)
    ensures Step(Plus(x, y), Plus(a, c), bit) == Plus(Step(x, a, bit), Step(y, c, bit))
  {
    hide Double, Plus;
    DoublePlus(x, y);
    PlusSwap(Double(x), Double(y), a, c);
  }

  /* ---------- Multiplication ---------- */

  lemma {:induction false} HornerPlus(x: bv8, y: bv8, a: bv8, c: bv8, bits: seq<bool>)
    ensures Horner(Plus(x, y), Plus(a, c), bits) == Plus(Horner(x, a, bits), Horner(y, c, bits))
    decreases bits
  {
    hide Double, Plus, Step;
    if bits != [] {
      StepPlus(x, y, a, c, bits[0]);
      HornerPlus(Step(x, a, bits[0]), Step(y, c, bits[0]), a, c, bits[1..]);
    }
  }

  lemma {:induction false} HornerDouble(x: bv8, a: bv8, bits: seq<bool>)
    ensures Horner(Double(x), Double(a), bits) == Double(Horner(x, a, bits))
    decreases bits
  {
    hide Double, Plus;
    if bits != [] {
      DoublePlus(Double(x), a);
      HornerDouble(Step(x, a, bits[0]), a, bits[1..]);
    }
  }

  lemma HornerZero(bits: seq<bool>)
    ensures Horner(0, 0, bits) == 0
    decreases bits
  {
    if bits != [] {
      HornerZero(bits[1..]);
    }
  }

  lemma TimesPlusLeft(a: bv8, b: bv8, c: bv8)
    ensures Times(Plus(a, b), c) == Plus(Times(a, c), Times(b, c))
  {
    hide Plus, Double, Horner;
    PlusLaws(0, 0, 0);
    HornerPlus(0, 0, a, b, Bits(c));
  }

  /** Multiplying a Horner sum by `c` multiplies each of its terms. */
  lemma {:induction false} HornerTimes(x: bv8, a: bv8, bits: seq<bool>, c: bv8)
    ensures Times(Horner(x, a, bits), c) == Horner(Times(x, c), Times(a, c), bits)
    decreases bits
  {
    hide Double, Plus, Times;
    if bits != [] {
      TimesDouble(x, c);
      TimesPlusLeft(Double(x), a, c);
      HornerTimes(Step(x, a, bits[0]), a, bits[1..], c);
    }
  }

  lemma TimesDouble(a: bv8, b: bv8)
    ensures Times(Double(a), b) == Double(Times(a, b))
  {
    hide Plus, Horner;
    assert Double(0) == 0;
    HornerDouble(0, a, Bits(b));
  }

  lemma {:induction false} HornerSnoc(acc: bv8, a: bv8, s: seq<bool>, bit: bool)
    ensures Horner(acc, a, s + [bit]) == Step(Horner(acc, a, s), a, bit)
    decreases s
  {
    hide Step;
    if s != [] {
      assert (s + [bit])[1..] == s[1..] + [bit];
      HornerSnoc(Step(acc, a, s[0]), a, s[1..], bit);
    } else {
      assert [bit][1..] == [];
    }
  }

  /** The number the first `k` bits of a byte make. */
  function TopBits(b: bv8, k: nat): bv8 {
    match k
    case 0 => 0
    case 1 => b >> 7
    case 2 => b >> 6
    case 3 => b >> 5
    case 4 => b >> 4
    case 5 => b >> 3
    case 6 => b >> 2
    case 7 => b >> 1
    case _ => b
  }

  lemma HighSteps(b: bv8)
    ensures Step(0, 1, b & 0x80 != 0) == b >> 7
    ensures Step(b >> 7, 1, b & 0x40 != 0) == b >> 6
    ensures Step(b >> 6, 1, b & 0x20 != 0) == b >> 5
    ensures Step(b >> 5, 1, b & 0x10 != 0) == b >> 4
  {
  }

  lemma LowSteps(b: bv8)
    ensures Step(b >> 4, 1, b & 0x08 != 0) == b >> 3
    ensures Step(b >> 3, 1, b & 0x04 != 0) == b >> 2
    ensures Step(b >> 2, 1, b & 0x02 != 0) == b >> 1
    ensures Step(b >> 1, 1, b & 0x01 != 0) == b
  {
  }

  lemma NextTopBit(b: bv8, k: nat)
    requires k < 8
    ensures Step(TopBits(b, k), 1, Bits(b)[k]) == TopBits(b, k + 1)
  {
    hide Step;
    HighSteps(b);
    LowSteps(b);
  }

  lemma {:induction false} HornerOfTopBits(b: bv8, k: nat)
    requires k <= 8
    ensures Horner(0, 1, Bits(b)[..k]) == TopBits(b, k)
    decreases k
  {
    hide Step, TopBits, Bits;
    if k == 0 {
      NoTopBits(b, k);
    } else {
      EightBits(b);
      var s := Bits(b);
      assert s[..k] == s[..k - 1] + [s[k - 1]];
      HornerSnoc(0, 1, s[..k - 1], s[k - 1]);
      HornerOfTopBits(b, k - 1);
      NextTopBit(b, k - 1);
    }
  }

  lemma EightBits(b: bv8)
    ensures |Bits(b)| == 8
  {
  }

  lemma NoTopBits(b: bv8, k: nat)
    requires k == 0
    ensures Horner(0, 1, Bits(b)[..k]) == TopBits(b, k)
  {
  }

  /** Alpha is 2: the powers begin with 1 and 2, and each is twice the one before. */
  lemma AlphaIsTwo(n: nat)
    ensures Alpha(0) == 1 && Alpha(1) == 2 && Alpha(n + 1) == Times(2, Alpha(n))
  {
    hide Times;
    TimesTwo(Alpha(n));
  }

  lemma TimesTwo(b: bv8)
    ensures Times(2, b) == Double(b)
  {
    hide Times;
    TimesOne(b);
    DoubleOne();
    TimesDouble(1, b);
  }

  lemma DoubleOne()
    ensures Double(1) == 2
  {
  }

  lemma TimesOne(b: bv8)
    ensures Times(1, b) == b
  {
    hide Horner, Bits;
    EightBits(b);
    assert Bits(b)[..8] == Bits(b);
    HornerOfTopBits(b, 8);
  }

  lemma TimesCommutes(a: bv8, b: bv8)
    ensures Times(a, b) == Times(b, a)
  {
    hide Double, Plus;
    TimesOne(a);
    TimesOne(b);
    HornerZero(Bits(b));
    HornerTimes(0, 1, Bits(a), b);
  }

  lemma TimesAssociates(a: bv8, b: bv8, c: bv8)
    ensures Times(Times(a, b), c) == Times(a, Times(b, c))
  {
    hide Double, Plus;
    HornerZero(Bits(c));
    TimesCommutes(a, b);
    HornerTimes(0, b, Bits(a), c);
    TimesCommutes(Times(b, c), a);
  }

  lemma TimesPlus(a: bv8, b: bv8, c: bv8)
    ensures Times(Plus(a, b), c) == Plus(Times(a, c), Times(b, c))
    ensures Times(c, Plus(a, b)) == Plus(Times(c, a), Times(c, b))
  {
    hide Double, Plus, Times;
    TimesPlusLeft(a, b, c);
    TimesCommutes(c, Plus(a, b));
    TimesCommutes(c, a);
    TimesCommutes(c, b);
  }

  lemma TimesZero(a: bv8)
    ensures Times(0, a) == 0 == Times(a, 0)
  {
    hide Double, Plus, Horner;
    HornerZero(Bits(a));
    TimesCommutes(0, a);
  }

  /* ---------- The product is the carry-less product modulo 0x11d ---------- */

  function Wide(h: bv8): bv32 {
    h as bv32
  }

  predicate TopBitSet(h: bv8) {
    h & 0x80 != 0
  }

  lemma DoubleWide(h: bv8)
    ensures Shift(Wide(h)) == if TopBitSet(h) then Sum(0x11d, Wide(Double(h))) else Wide(Double(h))
  {
  }

  lemma PlusWide(x: bv8, y: bv8)
    ensures Wide(Plus(x, y)) == Sum(Wide(x), Wide(y))
  {
  }

  lemma ReduceStep(u: bv32, h: bv8, a: bv8, bit: bool, g: bv32)
    requires g == 0x11d
    ensures ShiftIn(Sum(u, Wide(h)), Wide(a), bit) == Sum(ShiftIn(u, g, TopBitSet(h)), Wide(Step(h, a, bit)))
  {
    hide Sum, Shift, Wide, Double, Plus, TopBitSet;
    SumShift(u, Wide(h));
    DoubleWide(h);
    var d := Wide(Double(h));
    PlusWide(Double(h), a);
    SumAssociates(Shift(u), g, d);
    SumAssociates(if TopBitSet(h) then Sum(Shift(u), g) else Shift(u), d, Wide(a));
  }

  lemma {:induction false} HornerReduces(a: bv8, g: bv32, s: seq<bool>) returns (q: seq<bool>)
    requires g == 0x11d
    ensures |q| == |s| && Product(Wide(a), s) == Sum(Product(g, q), Wide(Horner(0, a, s)))
    decreases s
  {
    hide *;
    if s == [] {
      q := [];
      ProductNone(g);
      ProductNone(Wide(a));
      HornerZeroSteps(a);
    } else {
      var n := |s| - 1;
      var h := Horner(0, a, s[..n]);
      var p := HornerReduces(a, g, s[..n]);
      q := p + [TopBitSet(h)];
      assert s == s[..n] + [s[n]];
      ProductSnoc(g, p, TopBitSet(h));
      ProductSnoc(Wide(a), s[..n], s[n]);
      ReduceStep(Product(g, p), h, a, s[n], g);
      HornerSnoc(0, a, s[..n], s[n]);
    }
  }

  lemma HornerZeroSteps(a: bv8)
    ensures Horner(0, a, []) == 0 && Sum(0, Wide(0)) == 0
  {
  }

  /** `Times(a, b)` is the remainder of the carry-less product of `a` and `b` by 0x11d:
      they differ by a multiple of 0x11d, and a `bv8` has degree below eight. */
  lemma TimesIsProductModulo(a: bv8, b: bv8)
    ensures exists q: seq<bool> :: |q| == 8 && Product(Wide(a), Bits(b)) == Sum(Product(0x11d, q), Wide(Times(a, b)))
  {
    hide *;
    TimesIsHorner(a, b);
    var q := HornerReduces(a, 0x11d, Bits(b));
    assert |q| == 8 && Product(Wide(a), Bits(b)) == Sum(Product(0x11d, q), Wide(Times(a, b)));
  }

  lemma TimesIsHorner(a: bv8, b: bv8)
    ensures Times(a, b) == Horner(0, a, Bits(b)) && |Bits(b)| == 8
  {
    hide Horner;
  }

  /* ---------- Powers of alpha ---------- */

  lemma {:induction false} AlphaPlus(i: nat, j: nat)
    ensures Times(Alpha(i), Alpha(j)) == Alpha(i + j)
  {
    hide Double, Times;
    if i == 0 {
      TimesOne(Alpha(j));
    } else {
      AlphaPlus(i - 1, j);
      TimesDouble(Alpha(i - 1), Alpha(j));
    }
  }

  lemma {:induction false} AlphaNonZero(i: nat)
    ensures Alpha(i) != 0
  {
    if i > 0 {
      AlphaNonZero(i - 1);
    }
  }

  lemma AlphaValues()
    ensures Alpha(1) != 1 && Alpha(3) != 1 && Alpha(5) != 1 && Alpha(15) != 1
    ensures Alpha(17) != 1 && Alpha(51) != 1 && Alpha(85) != 1 && Alpha(255) == 1
  {
    assert Alpha(8) == 0x1d;
    assert Alpha(16) == 0x4c;
    assert Alpha(17) == 0x98;
    assert Alpha(24) == 0x8f;
    assert Alpha(32) == 0x9d;
    assert Alpha(40) == 0x6a;
    assert Alpha(48) == 0x46;
    assert Alpha(51) == 0x0a;
    assert Alpha(56) == 0x5d;
    assert Alpha(64) == 0x5f;
    assert Alpha(72) == 0x65;
    assert Alpha(80) == 0xfd;
    assert Alpha(85) == 0xd6;
    assert Alpha(88) == 0xfe;
    assert Alpha(96) == 0xd9;
    assert Alpha(104) == 0x0d;
    assert Alpha(112) == 0x81;
    assert Alpha(120) == 0x3b;
    assert Alpha(128) == 0x85;
    assert Alpha(136) == 0x4f;
    assert Alpha(144) == 0xa8;
    assert Alpha(152) == 0x49;
    assert Alpha(160) == 0xe6;
    assert Alpha(168) == 0xfc;
    assert Alpha(176) == 0xe3;
    assert Alpha(184) == 0x95;
    assert Alpha(192) == 0x82;
    assert Alpha(200) == 0x1c;
    assert Alpha(208) == 0x51;
    assert Alpha(216) == 0xc3;
    assert Alpha(224) == 0x12;
    assert Alpha(232) == 0xf7;
    assert Alpha(240) == 0x2c;
    assert Alpha(248) == 0x1b;
    assert Alpha(255) == 0x01;
  }

  lemma {:induction false} AlphaMultiple(k: nat, q: nat)
    requires Alpha(k) == 1
    ensures Alpha(k * q) == 1
  {
    hide Times, Double;
    if q > 0 {
      AlphaMultiple(k, q - 1);
      AlphaPlus(k, k * (q - 1));
      TimesOne(1);
      assert k * q == k + k * (q - 1);
    } else {
      assert k * q == 0;
    }
  }

  lemma MulAtLeast(k: nat, q: nat)
    requires k >= 16 && q >= 16
    ensures k * q >= 256
  {
    assert k * q >= 16 * q;
  }

  lemma DivisorsOf255(k: nat, q: nat)
    requires k * q == 255 && k < 255
    ensures k in {1, 3, 5, 15, 17, 51, 85}
  {
    if k <= 15 {
      assert k == 1 || k == 2 || k == 3 || k == 4 || k == 5 || k == 6 || k == 7 || k == 8
          || k == 9 || k == 10 || k == 11 || k == 12 || k == 13 || k == 14 || k == 15;
    } else {
      assert q <= 15 by {
        if q >= 16 {
          MulAtLeast(k, q);
        }
      }
      assert q == 1 || q == 2 || q == 3 || q == 4 || q == 5 || q == 6 || q == 7 || q == 8
          || q == 9 || q == 10 || q == 11 || q == 12 || q == 13 || q == 14 || q == 15;
    }
  }

  /** No power of alpha below 255 is 1. */
  lemma {:induction false} AlphaBelowOrder(k: nat)
    requires 0 < k < 255
    ensures Alpha(k) != 1
  {
    hide Times, Double, Alpha;
    AlphaValues();
    if Alpha(k) == 1 {
      var q, r := 255 / k, 255 % k;
      assert 255 == k * q + r;
      AlphaMultiple(k, q);
      AlphaPlus(k * q, r);
      TimesOne(Alpha(r));
      if r > 0 {
        AlphaBelowOrder(r);
      } else {
        DivisorsOf255(k, q);
      }
    }
  }

  /** Alpha has multiplicative order 255: it generates all non-zero elements. */
  lemma AlphaOrder(k: nat)
    ensures Alpha(k) == 1 <==> k % 255 == 0
  {
    hide Times, Alpha;
    var q, r := k / 255, k % 255;
    AlphaValues();
    AlphaMultiple(255, q);
    AlphaPlus(255 * q, r);
    TimesOne(Alpha(r));
    if r > 0 {
      AlphaBelowOrder(r);
    }
  }

  lemma {:induction false} AlphaCancel(i: nat, k: nat)
    requires Alpha(i) == Alpha(i + k)
    ensures Alpha(k) == 1
  {
    hide Double;
    if i > 0 {
      DoubleInjective(Alpha(i - 1), Alpha(i - 1 + k));
      AlphaCancel(i - 1, k);
    }
  }

  lemma AlphaInjective(i: nat, j: nat)
    requires i < j < 255
    ensures Alpha(i) != Alpha(j)
  {
    hide Alpha;
    if Alpha(i) == Alpha(j) {
      AlphaCancel(i, j - i);
      AlphaBelowOrder(j - i);
    }
  }

  /* ---------- Discrete logarithms ---------- */

  ghost function Below(n: nat): (s: set<int>)
    ensures forall i :: i in s <==> 0 <= i < n
  {
    if n == 0 then {} else Below(n - 1) + {n - 1}
  }

  lemma {:induction false} BelowSize(n: nat)
    ensures |Below(n)| == n
  {
    if n > 0 {
      BelowSize(n - 1);
    }
  }

  /** The number an element stands for. */
  function Value(x: bv8): (n: nat)
    ensures n < 256
  {
    x as int
  }

  lemma ValueLaws(x: bv8, y: bv8)
    ensures Value(x) == Value(y) <==> x == y
    ensures Value(0) == 0
  {
  }

  ghost function Powers(n: nat): set<int> {
    set i | 0 <= i < n :: Value(Alpha(i)) as int
  }

  lemma {:induction false} PowersSize(n: nat)
    requires n <= 255
    ensures |Powers(n)| == n
  {
    hide Alpha, Value;
    if n > 0 {
      PowersSize(n - 1);
      assert Powers(n) == Powers(n - 1) + {Value(Alpha(n - 1))};
      forall i | 0 <= i < n - 1 ensures Value(Alpha(i)) != Value(Alpha(n - 1)) {
        AlphaInjective(i, n - 1);
        ValueLaws(Alpha(i), Alpha(n - 1));
      }
    }
  }

  /** Every non-zero element is a power of alpha below 255. */
  lemma LogExists(x: bv8) returns (i: nat)
    requires x != 0
    ensures i < 255 && Alpha(i) == x
  {
    ValueLaws(x, 0);
    i := LogBelow(x, 255);
  }

  lemma LogBelow(x: bv8, n: nat) returns (i: nat)
    requires x != 0 && n == 255
    ensures i < n && Alpha(i) == x
  {
    hide Alpha, Value;
    PowersSize(n);
    var v: int := Value(x);
    ValueLaws(x, 0);
    if v !in Powers(n) {
      PowersAvoid(v, n, n + 1);
      assert false;
    }
    i :| 0 <= i < n && Value(Alpha(i)) as int == v;
    ValueLaws(Alpha(i), x);
  }

  lemma PowersAvoid(v: int, n: nat, top: nat)
    requires 0 < v < top && 256 <= top
    requires v !in Powers(n)
    ensures |Powers(n)| + 2 <= top
  {
    hide Alpha, Value;
    BelowSize(top);
    var rest := Below(top) - {0, v};
    forall i | 0 <= i < n ensures Value(Alpha(i)) as int in rest {
      AlphaNonZero(i);
      ValueLaws(Alpha(i), 0);
    }
    assert rest + {0, v} == Below(top);
    SubsetSize(Powers(n), rest);
  }

  /** The field has no zero divisors. */
  lemma TimesNonZero(a: bv8, b: bv8)
    requires a != 0 && b != 0
    ensures Times(a, b) != 0
  {
    hide Times, Alpha;
    var i := LogExists(a);
    var j := LogExists(b);
    AlphaPlus(i, j);
    AlphaNonZero(i + j);
  }
}
