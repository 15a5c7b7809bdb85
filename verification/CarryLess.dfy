/** Polynomials over one bit, the bits of a word being the coefficients: the carry-less product. */
module CarryLess {

  /** The product of `a` and the polynomial with these coefficients, the highest first. */
  function Product(a: bv32, bits: seq<bool>): bv32
    decreases bits
  {
    if bits == [] then 0
    else ShiftIn(Product(a, bits[..|bits| - 1]), a, bits[|bits| - 1])
  }

  function ShiftIn(u: bv32, a: bv32, bit: bool): bv32 {
    if bit then Sum(Shift(u), a) else Shift(u)
  }

  function Shift(x: bv32): bv32 {
    x << 1
  }

  /** The sum of two polynomials, and their difference. */
  function Sum(x: bv32, y: bv32): bv32 {
    x ^ y
  }

  lemma ProductSnoc(a: bv32, s: seq<bool>, bit: bool)
    ensures Product(a, s + [bit]) == ShiftIn(Product(a, s), a, bit)
  {
    hide ShiftIn;
    assert (s + [bit])[..|s|] == s;
  }

  lemma ProductNone(a: bv32)
    ensures Product(a, []) == 0
  {
  }

  /** `word` is a multiple of `g`, the quotient having `n` coefficients. */
  ghost predicate Multiple(word: bv32, g: bv32, n: nat) {
    exists q: seq<bool> :: |q| == n && Product(g, q) == word
  }

  lemma IsMultiple(word: bv32, g: bv32, q: seq<bool>)
    requires Product(g, q) == word
    ensures Multiple(word, g, |q|)
  {
  }

  /** What `k` shifts make of a word. */
  function Shifted(x: bv32, k: nat): bv32 {
    if k == 0 then x else Shift(Shifted(x, k - 1))
  }

  lemma SumShift(x: bv32, y: bv32)
    ensures Sum(Shift(x), Shift(y)) == Shift(Sum(x, y))
  {
  }

  lemma SumShiftPlus(x: bv32, y: bv32, g: bv32)
    ensures Sum(Shift(x), Sum(Shift(y), g)) == Sum(Shift(Sum(x, y)), g)
  {
  }

  lemma SumAssociates(x: bv32, y: bv32, z: bv32)
    ensures Sum(Sum(x, y), z) == Sum(x, Sum(y, z))
  {
  }

  lemma SumSelf(x: bv32)
    ensures Sum(x, x) == 0
  {
  }

  lemma {:induction false} ShiftedAdd(x: bv32, j: nat, k: nat)
    ensures Shifted(x, j + k) == Shifted(Shifted(x, j), k)
    decreases k
  {
    hide Shift;
    if k > 0 {
      ShiftedAdd(x, j, k - 1);
    }
  }

  lemma ShiftedNext(x: bv32, k: nat)
    ensures Shifted(x, k + 1) == Shift(Shifted(x, k)) && Shifted(x, 0) == x
  {
    hide Shift;
  }

  lemma FewShifts(x: bv32)
    ensures Shifted(x, 4) == Shift(Shift(Shift(Shift(x))))
    ensures Shifted(x, 6) == Shift(Shift(Shift(Shift(Shift(Shift(x))))))
  {
    hide Shift, Shifted;
    ShiftedNext(x, 0);
    ShiftedNext(x, 1);
    ShiftedNext(x, 2);
    ShiftedNext(x, 3);
    ShiftedNext(x, 4);
    ShiftedNext(x, 5);
  }

  function ShiftFour(x: bv32): bv32 {
    x << 4
  }

  function ShiftSix(x: bv32): bv32 {
    x << 6
  }

  function ShiftTen(x: bv32): bv32 {
    x << 10
  }

  function ShiftTwelve(x: bv32): bv32 {
    x << 12
  }

  lemma ShiftsAtOnce(x: bv32)
    ensures Shift(Shift(Shift(Shift(x)))) == ShiftFour(x)
    ensures Shift(Shift(Shift(Shift(Shift(Shift(x)))))) == ShiftSix(x)
  {
  }

  lemma ShiftsInTwo(x: bv32)
    ensures ShiftFour(ShiftSix(x)) == ShiftTen(x) && ShiftSix(ShiftSix(x)) == ShiftTwelve(x)
  {
  }

  lemma FewAtOnce(x: bv32)
    ensures Shifted(x, 4) == ShiftFour(x) && Shifted(x, 6) == ShiftSix(x)
  {
    hide *;
    FewShifts(x);
    ShiftsAtOnce(x);
  }

  lemma ShiftedFar(x: bv32)
    ensures Shifted(x, 10) == ShiftTen(x) && Shifted(x, 12) == ShiftTwelve(x)
  {
    hide *;
    FewAtOnce(x);
    FewAtOnce(ShiftSix(x));
    ShiftsInTwo(x);
    ShiftedAdd(x, 6, 4);
    ShiftedAdd(x, 6, 6);
  }
}
