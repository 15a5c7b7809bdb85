/** The Reed-Solomon coder of src/main/qr.ts: log tables, generator polynomial and
    shift register, and the code they produce. A polynomial is the sequence of its
    coefficients, highest degree first. */
module ReedSolomon {
  import opened Gf256

  /* ---------- Polynomials over GF(256) ---------- */

  function Eval(p: seq<bv8>, z: bv8): bv8
    decreases p
  {
    if p == [] then 0 else Plus(Times(Eval(p[..|p| - 1], z), z), p[|p| - 1])
  }

  function Add(p: seq<bv8>, q: seq<bv8>): (r: seq<bv8>)
    requires |p| == |q|
    ensures |r| == |p|
  {
    seq(|p|, i requires 0 <= i < |p| => Plus(p[i], q[i]))
  }

  function Scale(p: seq<bv8>, c: bv8): (r: seq<bv8>)
    ensures |r| == |p|
  {
    seq(|p|, i requires 0 <= i < |p| => Times(p[i], c))
  }

  function Zeros(n: nat): (r: seq<bv8>)
    ensures |r| == n
  {
    seq(n, _ => 0)
  }

  /** `EXP[i]` as `mul` sees it: the table has 512 entries, and behind them `undefined` multiplies to 0. */
  function Root(i: nat): bv8 {
    if i < 512 then Alpha(i) else 0
  }

  /** The product (x + 1)(x + alpha) ... (x + alpha^(n-1)), with (x + 0) for every root the table lacks: multiplying
      by x appends a zero coefficient, multiplying by a constant scales. */
  function Generator(n: nat): (g: seq<bv8>)
    ensures |g| == n + 1
  {
    if n == 0 then [1]
    else var g := Generator(n - 1); Add(g + [0], [0] + Scale(g, Root(n - 1)))
  }

  /** A codeword of the code with `n` check symbols vanishes at the first `n` powers of alpha. */
  ghost predicate IsCodeword(p: seq<bv8>, n: nat) {
    forall i :: 0 <= i < n ==> Eval(p, Alpha(i)) == 0
  }

  lemma EvalAppend(p: seq<bv8>, c: bv8, z: bv8)
    ensures Eval(p + [c], z) == Plus(Times(Eval(p, z), z), c)
  {
    hide Plus, Times;
    assert (p + [c])[..|p|] == p;
  }

  lemma {:induction false} EvalAdd(p: seq<bv8>, q: seq<bv8>, z: bv8)
    requires |p| == |q|
    ensures Eval(Add(p, q), z) == Plus(Eval(p, z), Eval(q, z))
    decreases p
  {
    hide Plus, Times;
    if p != [] {
      var n := |p| - 1;
      assert Add(p, q)[..n] == Add(p[..n], q[..n]);
      EvalAdd(p[..n], q[..n], z);
      var u, v := Eval(p[..n], z), Eval(q[..n], z);
      TimesPlus(u, v, z);
      PlusSwap(Times(u, z), Times(v, z), p[n], q[n]);
    } else {
      PlusLaws(0, 0, 0);
    }
  }

  lemma {:induction false} EvalScale(p: seq<bv8>, c: bv8, z: bv8)
    ensures Eval(Scale(p, c), z) == Times(Eval(p, z), c)
    decreases p
  {
    hide Plus, Times;
    if p != [] {
      var n := |p| - 1;
      assert Scale(p, c)[..n] == Scale(p[..n], c);
      EvalScale(p[..n], c, z);
      var u := Eval(p[..n], z);
      TimesPlus(Times(u, z), p[n], c);
      TimesAssociates(u, c, z);
      TimesAssociates(u, z, c);
      TimesCommutes(c, z);
    } else {
      TimesZero(c);
    }
  }

  lemma {:induction false} EvalLeadingZeros(k: nat, p: seq<bv8>, z: bv8)
    ensures Eval(Zeros(k) + p, z) == Eval(p, z)
    decreases k + |p|
  {
    hide Plus, Times;
    if p != [] {
      var n := |p| - 1;
      EvalLeadingZeros(k, p[..n], z);
      assert p == p[..n] + [p[n]];
      assert Zeros(k) + p == (Zeros(k) + p[..n]) + [p[n]];
      EvalAppend(Zeros(k) + p[..n], p[n], z);
    } else if k > 0 {
      assert Zeros(k) + p == (Zeros(k - 1) + []) + [0];
      EvalAppend(Zeros(k - 1) + [], 0, z);
      EvalLeadingZeros(k - 1, [], z);
      TimesZero(z);
      PlusLaws(0, 0, 0);
    } else {
      assert Zeros(0) + p == p;
    }
  }

  /** Multiplying `g` by (x + r) as the generator does multiplies its values by (z + r). */
  lemma EvalTimesRoot(g: seq<bv8>, r: bv8, z: bv8)
    ensures Eval(Add(g + [0], [0] + Scale(g, r)), z) == Times(Eval(g, z), Plus(z, r))
  {
    hide Plus, Times;
    EvalAdd(g + [0], [0] + Scale(g, r), z);
    EvalAppend(g, 0, z);
    assert [0] + Scale(g, r) == Zeros(1) + Scale(g, r);
    EvalLeadingZeros(1, Scale(g, r), z);
    EvalScale(g, r, z);
    var e := Eval(g, z);
    PlusLaws(Times(e, z), 0, 0);
    TimesPlus(z, r, e);
  }

  /** Each of the first `n` powers of alpha is a root of the generator, whose leading coefficient is 1. */
  lemma {:induction false} GeneratorRoots(n: nat)
    ensures Generator(n)[0] == 1
    ensures IsCodeword(Generator(n), n)
  {
    hide Plus, Times, Alpha, Eval, Root;
    if n > 0 {
      var g, r := Generator(n - 1), Root(n - 1);
      GeneratorRoots(n - 1);
      PlusLaws(g[0], 0, 0);
      forall i | 0 <= i < n ensures Eval(Generator(n), Alpha(i)) == 0 {
        GeneratorRoot(n, i);
      }
    }
  }

  lemma GeneratorRoot(n: nat, i: nat)
    requires i < n && IsCodeword(Generator(n - 1), n - 1)
    ensures Eval(Generator(n), Alpha(i)) == 0
  {
    hide Plus, Times, Alpha, Eval;
    var g, r, z := Generator(n - 1), Root(n - 1), Alpha(i);
    EvalTimesRoot(g, r, z);
    if i < n - 1 || i >= 512 {
      if i >= 512 {
        AlphaPeriod(i - 255);
        assert Eval(g, Alpha(i - 255)) == 0;
      }
      assert Eval(g, z) == 0;
      TimesZero(Plus(z, r));
    } else {
      PlusLaws(z, z, 0);
      TimesZero(Eval(g, z));
    }
  }

  /* ---------- The log and antilog tables ---------- */

  type byte = n: nat | n < 256

  lemma AlphaStart()
    ensures Alpha(0) == 1
  {
  }

  /** The first loop over the tables. */
  method FillPowers(exp: array<bv8>, log: array<byte>)
    requires exp.Length == 512 && log.Length == 256
    modifies exp, log
    ensures forall j :: 0 <= j < 255 ==> exp[j] == Alpha(j) && log[Value(Alpha(j))] == j
  {
    hide Alpha, Value, ShiftedAndReduced;
    var x: bv8 := 1;
    AlphaStart();
    for i := 0 to 255
      invariant x == Alpha(i)
      invariant forall j :: 0 <= j < i ==> exp[j] == Alpha(j)
      invariant forall j :: 0 <= j < i ==> log[Value(Alpha(j))] == j
    {
      exp[i] := x;
      log[Value(x)] := i;
      DistinctIndices(i);
      x := ShiftedAndReduced(x);
      AlphaNext(i);
    }
  }

  /** The second loop, so that the sum of two logarithms is an index. */
  method ExtendPowers(exp: array<bv8>)
    requires exp.Length == 512
    requires forall j :: 0 <= j < 255 ==> exp[j] == Alpha(j)
    modifies exp
    ensures forall j :: 0 <= j < 512 ==> exp[j] == Alpha(j)
  {
    hide Alpha;
    for i := 255 to 512
      invariant forall j :: 0 <= j < i ==> exp[j] == Alpha(j)
    {
      exp[i] := exp[i - 255];
      AlphaPeriod(i - 255);
    }
  }

  class Tables {
    const exp: array<bv8>
    const log: array<byte>

    ghost predicate Valid()
      reads this, exp, log
    {
      && exp.Length == 512 && log.Length == 256
      && (forall i :: 0 <= i < 512 ==> exp[i] == Alpha(i))
      && (forall i :: 0 <= i < 255 ==> log[Value(Alpha(i))] == i)
    }

    constructor ()
      ensures Valid() && fresh(exp) && fresh(log)
    {
      exp := new bv8[512](_ => 0);
      log := new byte[256](_ => 0);
      new;
      FillPowers(exp, log);
      ExtendPowers(exp);
    }

    /** The product through the tables is the product of the field. */
    function Mul(a: bv8, b: bv8): (c: bv8)
      requires Valid()
      reads this, exp, log
      ensures c == Times(a, b)
    {
      hide Times, Alpha, Value;
      MulByLogs(a, b);
      if a != 0 && b != 0 then exp[log[Value(a)] as int + log[Value(b)] as int] else 0
    }

    lemma MulByLogs(a: bv8, b: bv8)
      requires Valid()
      ensures a == 0 || b == 0 ==> Times(a, b) == 0
      ensures a != 0 && b != 0 ==>
        log[Value(a)] as int + log[Value(b)] as int < 512 &&
        exp[log[Value(a)] as int + log[Value(b)] as int] == Times(a, b)
    {
      hide Times, Alpha, Value;
      if a == 0 {
        TimesZero(b);
      } else if b == 0 {
        TimesZero(a);
      } else {
        var i := LogExists(a);
        var j := LogExists(b);
        AlphaPlus(i, j);
      }
    }
  }

  lemma DistinctIndices(i: nat)
    requires i < 255
    ensures forall j :: 0 <= j < i ==> Value(Alpha(j)) != Value(Alpha(i))
  {
    hide Alpha, Value;
    forall j | 0 <= j < i ensures Value(Alpha(j)) != Value(Alpha(i)) {
      AlphaInjective(j, i);
      ValueLaws(Alpha(j), Alpha(i));
    }
  }

  /** `x <<= 1; if (x & 0x100) x ^= 0x11d`, on a value below 256. */
  function ShiftedAndReduced(x: bv8): bv8 {
    var y := (x as bv16) << 1;
    var z := if y & 0x100 != 0 then y ^ 0x11d else y;
    (z & 0xff) as bv8
  }

  lemma AlphaNext(i: nat)
    ensures ShiftedAndReduced(Alpha(i)) == Alpha(i + 1)
  {
  }

  lemma AlphaPeriod(i: nat)
    ensures Alpha(i + 255) == Alpha(i)
  {
    hide Alpha, Times;
    AlphaValues();
    AlphaPlus(255, i);
    TimesOne(Alpha(i));
  }

  /* ---------- Generator polynomial and shift register ---------- */

  /** The generator polynomial, one root after the other. */
  method RsGenerator(t: Tables, n: nat) returns (g: seq<bv8>)
    requires t.Valid()
    ensures g == Generator(n)
  {
    hide Times, Plus, Alpha;
    g := [1];
    for i := 0 to n
      invariant g == Generator(i)
    {
      g := TimesRoot(t, g, if i < 512 then t.exp[i] else 0);
    }
  }

  /** One pass over the generator's coefficients. */
  method TimesRoot(t: Tables, g: seq<bv8>, r: bv8) returns (h: seq<bv8>)
    requires t.Valid()
    ensures h == Add(g + [0], [0] + Scale(g, r))
  {
    hide Times, Alpha;
    var next := new bv8[|g| + 1](_ => 0);
    for j := 0 to |g|
      invariant forall k :: 0 <= k < j ==> next[k] == Plus(g[k], if k == 0 then 0 else Times(g[k - 1], r))
      invariant next[j] == if j == 0 then 0 else Times(g[j - 1], r)
      invariant forall k :: j < k <= |g| ==> next[k] == 0
    {
      PlusLaws(next[j], g[j], 0);
      PlusLaws(0, t.Mul(g[j], r), 0);
      next[j] := Plus(next[j], g[j]);
      next[j + 1] := Plus(next[j + 1], t.Mul(g[j], r));
    }
    h := next[..];
    PlusLaws(0, next[|g|], 0);
    forall k | 0 <= k <= |g| ensures h[k] == Term(g, r, k) {
      if k < |g| {
        assert h[k] == Plus(g[k], if k == 0 then 0 else Times(g[k - 1], r));
      }
    }
    TimesRootAt(g, r, h);
  }

  /** Coefficient `k` of the product of `g` and (x + r). */
  function Term(g: seq<bv8>, r: bv8, k: nat): bv8
    requires k <= |g|
  {
    Plus(if k == |g| then 0 else g[k], if k == 0 then 0 else Times(g[k - 1], r))
  }

  lemma TermIsSum(g: seq<bv8>, r: bv8, k: nat)
    requires k <= |g|
    ensures Term(g, r, k) == Plus((g + [0])[k], ([0] + Scale(g, r))[k])
  {
    hide Times, Plus;
  }

  lemma TimesRootAt(g: seq<bv8>, r: bv8, h: seq<bv8>)
    requires |h| == |g| + 1 && forall k :: 0 <= k <= |g| ==> h[k] == Term(g, r, k)
    ensures h == Add(g + [0], [0] + Scale(g, r))
  {
    hide *;
    var p, q := g + [0], [0] + Scale(g, r);
    forall k | 0 <= k <= |g| ensures h[k] == Add(p, q)[k] {
      TermIsSum(g, r, k);
      AddAt(p, q, k);
    }
  }

  lemma AddAt(p: seq<bv8>, q: seq<bv8>, k: nat)
    requires |p| == |q| && k < |p|
    ensures Add(p, q)[k] == Plus(p[k], q[k])
  {
    hide Plus;
  }

  /** One data symbol through the shift register. */
  function Shift(out: seq<bv8>, d: bv8, gen: seq<bv8>): (r: seq<bv8>)
    requires |gen| == |out| + 1 && |out| > 0
    ensures |r| == |out|
  {
    Add(out[1..] + [0], Scale(gen[1..], Plus(d, out[0])))
  }

  /** Shifting a symbol in keeps every root of the generator a root of data and register. */
  lemma ShiftKeepsRoot(prefix: seq<bv8>, out: seq<bv8>, d: bv8, gen: seq<bv8>, z: bv8)
    requires |gen| == |out| + 1 && |out| > 0 && gen[0] == 1
    requires Eval(gen, z) == 0 && Eval(prefix + out, z) == 0
    ensures Eval(prefix + [d] + Shift(out, d, gen), z) == 0
  {
    hide Plus, Times, Eval;
    var f := Plus(d, out[0]);
    var p, q := prefix + out + [0], Zeros(|prefix|) + Scale(gen, f);
    EvalAppend(prefix + out, 0, z);
    EvalLeadingZeros(|prefix|, Scale(gen, f), z);
    EvalScale(gen, f, z);
    TimesZero(z);
    TimesZero(f);
    PlusLaws(0, 0, 0);
    EvalAdd(p, q, z);
    var sum, goal := Add(p, q), prefix + [d] + Shift(out, d, gen);
    var m := |prefix|;
    forall i | 0 <= i < |sum| ensures sum[i] == goal[i] {
      if i < m {
        PlusLaws(prefix[i], 0, 0);
      } else if i == m {
        TimesOne(f);
        PlusLaws(out[0], f, 0);
        PlusLaws(out[0], d, out[0]);
        PlusLaws(d, out[0], out[0]);
        PlusLaws(d, 0, 0);
      } else {
        assert p[i] == (out[1..] + [0])[i - m - 1];
        assert q[i] == Times(gen[1..][i - m - 1], f);
      }
    }
    assert sum == goal;
  }

  /** The body of the loop over the data. A register that is empty or too short for its
      generator, as without check symbols, is pushed to but not updated. */
  method ShiftSymbol(t: Tables, register: seq<bv8>, d: bv8, gen: seq<bv8>, ecLen: nat) returns (out: seq<bv8>)
    requires t.Valid() && |gen| == ecLen + 1
    requires ecLen > 0 ==> |register| == ecLen
    ensures ecLen > 0 ==> out == Shift(register, d, gen)
    ensures ecLen == 0 ==> |out| == if register == [] then 1 else |register|
  {
    hide Times, Plus, Alpha;
    var factor := Plus(d, if |register| > 0 then register[0] else 0);
    out := (if |register| > 0 then register[1..] else []) + [0];
    ghost var shifted := out;
    if factor != 0 {
      for i := 0 to ecLen
        invariant |out| == |shifted|
        invariant forall j :: 0 <= j < i ==> out[j] == Plus(shifted[j], Times(gen[1..][j], factor))
        invariant forall j :: i <= j < |out| ==> out[j] == shifted[j]
      {
        out := out[i := Plus(out[i], t.Mul(gen[i + 1], factor))];
      }
    } else {
      forall j | 0 <= j < ecLen ensures out[j] == Plus(shifted[j], Times(gen[1..][j], factor)) {
        TimesZero(gen[1..][j]);
        PlusLaws(shifted[j], 0, 0);
      }
    }
  }

  /** The check symbols of `data`. The register keeps its length, except that with no check
      symbols the first push leaves a single zero behind. */
  method RsEncode(t: Tables, data: seq<bv8>, ecLen: nat) returns (out: seq<bv8>)
    requires t.Valid()
    ensures |out| == if ecLen == 0 && data != [] then 1 else ecLen
    ensures IsCodeword(data + out, ecLen)
  {
    hide Times, Plus, Alpha, Eval, IsCodeword, Generator, Shift;
    var gen := RsGenerator(t, ecLen);
    out := Zeros(ecLen);
    ZerosAreCodeword(ecLen);
    assert data[..0] + out == out;
    for k := 0 to |data|
      invariant |out| == if ecLen == 0 && k > 0 then 1 else ecLen
      invariant IsCodeword(data[..k] + out, ecLen)
    {
      ghost var before := out;
      out := ShiftSymbol(t, out, data[k], gen, ecLen);
      assert data[..k + 1] == data[..k] + [data[k]];
      if ecLen > 0 {
        ShiftKeepsCodeword(data[..k], before, data[k], ecLen);
      } else {
        NoCheckSymbols(data[..k + 1] + out, ecLen);
      }
    }
    assert data[..|data|] == data;
  }

  lemma NoCheckSymbols(p: seq<bv8>, ecLen: nat)
    requires ecLen == 0
    ensures IsCodeword(p, ecLen)
  {
  }

  lemma ShiftKeepsCodeword(prefix: seq<bv8>, out: seq<bv8>, d: bv8, ecLen: nat)
    requires |out| == ecLen > 0 && IsCodeword(prefix + out, ecLen)
    ensures IsCodeword(prefix + [d] + Shift(out, d, Generator(ecLen)), ecLen)
  {
    hide Times, Plus, Alpha, Eval, Shift;
    GeneratorRoots(ecLen);
    var next := prefix + [d] + Shift(out, d, Generator(ecLen));
    forall i | 0 <= i < ecLen ensures Eval(next, Alpha(i)) == 0 {
      ShiftKeepsRoot(prefix, out, d, Generator(ecLen), Alpha(i));
    }
  }

  lemma ZerosAreCodeword(k: nat)
    ensures IsCodeword(Zeros(k), k)
  {
    hide Times, Plus, Alpha;
    forall i | 0 <= i < k ensures Eval(Zeros(k), Alpha(i)) == 0 {
      EvalLeadingZeros(k, [], Alpha(i));
      assert Zeros(k) + [] == Zeros(k);
    }
  }

  /* ---------- Minimum distance ---------- */

  function Pow(x: bv8, i: nat): bv8 {
    if i == 0 then 1 else Times(Pow(x, i - 1), x)
  }

  /** The sum of e * x^i over the pairs (e, x). */
  function Sum(es: seq<(bv8, bv8)>, i: nat): bv8
    decreases es
  {
    if es == [] then 0 else Plus(Times(es[0].0, Pow(es[0].1, i)), Sum(es[1..], i))
  }

  ghost predicate DistinctLocators(es: seq<(bv8, bv8)>) {
    forall i, j :: 0 <= i < j < |es| ==> es[i].1 != es[j].1
  }

  /** The terms with the locator `x` eliminated: each coefficient times (its locator + x). */
  function Eliminate(es: seq<(bv8, bv8)>, x: bv8): (r: seq<(bv8, bv8)>)
    ensures |r| == |es|
  {
    seq(|es|, i requires 0 <= i < |es| => (Times(es[i].0, Plus(es[i].1, x)), es[i].1))
  }

  lemma TermEliminated(e: bv8, y: bv8, x: bv8, i: nat)
    ensures Times(Times(e, Plus(y, x)), Pow(y, i)) == Plus(Times(e, Pow(y, i + 1)), Times(x, Times(e, Pow(y, i))))
  {
    hide Plus, Times;
    var p := Pow(y, i);
    TimesPlus(y, x, e);
    TimesPlus(Times(e, y), Times(e, x), p);
    TimesAssociates(e, y, p);
    TimesCommutes(y, p);
    TimesCommutes(e, x);
    TimesAssociates(x, e, p);
  }

  lemma {:induction false} SumEliminated(es: seq<(bv8, bv8)>, x: bv8, i: nat)
    ensures Sum(Eliminate(es, x), i) == Plus(Sum(es, i + 1), Times(x, Sum(es, i)))
    decreases es
  {
    hide Plus, Times, Pow;
    if es == [] {
      TimesZero(x);
      PlusLaws(0, 0, 0);
    } else {
      assert Eliminate(es, x)[1..] == Eliminate(es[1..], x);
      SumEliminated(es[1..], x, i);
      TermEliminated(es[0].0, es[0].1, x, i);
      var a, b := Times(es[0].0, Pow(es[0].1, i + 1)), Times(es[0].0, Pow(es[0].1, i));
      TimesPlus(b, Sum(es[1..], i), x);
      PlusSwap(a, Times(x, b), Sum(es[1..], i + 1), Times(x, Sum(es[1..], i)));
    }
  }

  /** A Vandermonde system with at most as many unknowns as equations has only the zero solution. */
  lemma {:induction false} Vandermonde(es: seq<(bv8, bv8)>, n: nat)
    requires |es| <= n && DistinctLocators(es)
    requires forall i :: 0 <= i < n ==> Sum(es, i) == 0
    ensures forall j :: 0 <= j < |es| ==> es[j].0 == 0
    decreases |es|
  {
    hide Plus, Times;
    if es != [] {
      var e, x, rest := es[0].0, es[0].1, es[1..];
      var reduced := Eliminate(rest, x);
      forall i | 0 <= i < n - 1 ensures Sum(reduced, i) == 0 {
        SumEliminated(rest, x, i);
        EliminatedSumIsZero(es, i);
      }
      Vandermonde(reduced, n - 1);
      forall j | 0 <= j < |rest| ensures rest[j].0 == 0 {
        assert reduced[j].0 == Times(rest[j].0, Plus(rest[j].1, x));
        PlusLaws(rest[j].1, x, 0);
        assert rest[j] == es[j + 1];
        if rest[j].0 != 0 {
          TimesNonZero(rest[j].0, Plus(rest[j].1, x));
        }
      }
      SumOfZeros(rest, 0);
      assert Sum(es, 0) == 0;
      TimesOne(e);
      TimesCommutes(1, e);
      PlusLaws(e, 0, 0);
      forall j | 0 <= j < |es| ensures es[j].0 == 0 {
        assert j > 0 ==> es[j] == rest[j - 1];
      }
    }
  }

  lemma EliminatedSumIsZero(es: seq<(bv8, bv8)>, i: nat)
    requires es != [] && Sum(es, i) == 0 && Sum(es, i + 1) == 0
    ensures Plus(Sum(es[1..], i + 1), Times(es[0].1, Sum(es[1..], i))) == 0
  {
    hide Plus, Times;
    var e, x := es[0].0, es[0].1;
    var a, b := Times(e, Pow(x, i)), Sum(es[1..], i);
    PlusLaws(a, b, 0);
    PlusLaws(Times(e, Pow(x, i + 1)), Sum(es[1..], i + 1), 0);
    TimesAssociates(e, Pow(x, i), x);
    TimesCommutes(a, x);
    PlusLaws(Times(x, b), 0, 0);
  }

  lemma {:induction false} SumOfZeros(es: seq<(bv8, bv8)>, i: nat)
    requires forall j :: 0 <= j < |es| ==> es[j].0 == 0
    ensures Sum(es, i) == 0
    decreases es
  {
    hide Plus, Times, Pow;
    if es != [] {
      SumOfZeros(es[1..], i);
      TimesZero(Pow(es[0].1, i));
      PlusLaws(0, 0, 0);
    }
  }

  /** The non-zero coefficients of `p`, each with the power of alpha its position stands for. */
  function Support(p: seq<bv8>): seq<(bv8, bv8)>
    decreases p
  {
    if p == [] then []
    else (if p[0] == 0 then [] else [(p[0], Alpha(|p| - 1))]) + Support(p[1..])
  }

  /** The number of non-zero coefficients. */
  function Weight(p: seq<bv8>): nat
    decreases p
  {
    if p == [] then 0 else (if p[0] == 0 then 0 else 1) + Weight(p[1..])
  }

  ghost predicate HasLogBelow(x: bv8, n: nat) {
    exists k :: 0 <= k < n && x == Alpha(k)
  }

  /** Locations are different powers of alpha below the length, and the first is that of a coefficient. */
  ghost predicate WellLocated(es: seq<(bv8, bv8)>, n: nat) {
    && (es != [] ==> es[0].0 != 0)
    && (forall j :: 0 <= j < |es| ==> HasLogBelow(es[j].1, n))
    && DistinctLocators(es)
  }

  lemma SupportNext(p: seq<bv8>)
    requires p != []
    ensures Support(p) == if p[0] == 0 then Support(p[1..]) else [(p[0], Alpha(|p| - 1))] + Support(p[1..])
    ensures Weight(p) == Weight(p[1..]) + if p[0] == 0 then 0 else 1
  {
    hide Alpha;
    assert [] + Support(p[1..]) == Support(p[1..]);
  }

  lemma StaysLocated(es: seq<(bv8, bv8)>, n: nat, c: bv8, x: bv8)
    requires n < 255 && WellLocated(es, n) && x == Alpha(n)
    ensures WellLocated(es, n + 1)
    ensures c != 0 ==> WellLocated([(c, x)] + es, n + 1)
  {
    hide Alpha;
    assert HasLogBelow(x, n + 1);
    forall j | 0 <= j < |es| ensures es[j].1 != x && HasLogBelow(es[j].1, n + 1) {
      var k :| 0 <= k < n && es[j].1 == Alpha(k);
      AlphaInjective(k, n);
    }
  }

  lemma {:induction false} SupportShape(p: seq<bv8>)
    requires |p| <= 255
    ensures |Support(p)| == Weight(p) && WellLocated(Support(p), |p|)
    decreases p
  {
    hide Alpha, Support, Weight, WellLocated;
    if p == [] {
      SupportNone();
    } else {
      SupportShape(p[1..]);
      SupportNext(p);
      StaysLocated(Support(p[1..]), |p| - 1, p[0], Alpha(|p| - 1));
    }
  }

  lemma SupportNone()
    ensures Support([]) == [] && Weight([]) == 0 && WellLocated([], 0)
  {
  }

  lemma {:induction false} PowOfAlpha(m: nat, i: nat)
    ensures Pow(Alpha(m), i) == Alpha(m * i)
  {
    hide Times, Alpha;
    if i > 0 {
      PowOfAlpha(m, i - 1);
      AlphaPlus(m * (i - 1), m);
      assert m * (i - 1) + m == m * i;
    } else {
      assert m * i == 0;
      AlphaAtZero();
    }
  }

  lemma AlphaAtZero()
    ensures Alpha(0) == 1
  {
  }

  lemma {:induction false} EvalHead(c: bv8, p: seq<bv8>, z: bv8)
    ensures Eval([c] + p, z) == Plus(Times(c, Pow(z, |p|)), Eval(p, z))
    decreases p
  {
    hide Plus, Times;
    if p == [] {
      assert [c] + p == [] + [c];
      EvalAppend([], c, z);
      TimesZero(z);
      TimesOne(c);
      TimesCommutes(1, c);
      PlusLaws(0, c, 0);
    } else {
      var n := |p| - 1;
      assert [c] + p == ([c] + p[..n]) + [p[n]];
      EvalAppend([c] + p[..n], p[n], z);
      EvalHead(c, p[..n], z);
      var a, b := Times(c, Pow(z, n)), Eval(p[..n], z);
      TimesPlus(a, b, z);
      TimesAssociates(c, Pow(z, n), z);
      PlusLaws(Times(a, z), Times(b, z), p[n]);
    }
  }

  /** The value of `p` at alpha^i is the sum over its support. */
  lemma {:induction false} EvalIsSum(p: seq<bv8>, i: nat)
    ensures Eval(p, Alpha(i)) == Sum(Support(p), i)
    decreases p
  {
    hide Plus, Times, Alpha, Pow, Eval;
    if p == [] {
      EvalEmpty(Alpha(i));
    } else {
      var m := |p| - 1;
      EvalIsSum(p[1..], i);
      assert p == [p[0]] + p[1..];
      EvalHead(p[0], p[1..], Alpha(i));
      PowOfAlpha(i, m);
      PowOfAlpha(m, i);
      assert i * m == m * i;
      TimesZero(Alpha(m * i));
      PlusLaws(0, Eval(p[1..], Alpha(i)), 0);
      PlusLaws(Eval(p[1..], Alpha(i)), 0, 0);
      if p[0] != 0 {
        assert Support(p)[0] == (p[0], Alpha(m)) && Support(p)[1..] == Support(p[1..]);
      } else {
        assert Support(p) == Support(p[1..]);
      }
    }
  }

  lemma EvalEmpty(z: bv8)
    ensures Eval([], z) == 0
  {
  }

  /** The number of positions at which two blocks differ. */
  function Distance(p: seq<bv8>, q: seq<bv8>): nat
    requires |p| == |q|
    decreases p
  {
    if p == [] then 0 else (if p[0] == q[0] then 0 else 1) + Distance(p[1..], q[1..])
  }

  lemma {:induction false} DistanceIsWeight(p: seq<bv8>, q: seq<bv8>)
    requires |p| == |q|
    ensures Distance(p, q) == Weight(Add(p, q))
    decreases p
  {
    hide Plus;
    if p != [] {
      assert Add(p, q)[1..] == Add(p[1..], q[1..]);
      DistanceIsWeight(p[1..], q[1..]);
      PlusLaws(p[0], q[0], 0);
    }
  }

  /** A codeword of at most 255 symbols with at most `n` non-zero ones is zero. */
  lemma LightCodewordIsZero(e: seq<bv8>, n: nat)
    requires |e| <= 255 && IsCodeword(e, n) && Weight(e) <= n
    ensures Weight(e) == 0
  {
    hide Plus, Times, Alpha, Eval;
    SupportShape(e);
    forall i | 0 <= i < n ensures Sum(Support(e), i) == 0 {
      EvalIsSum(e, i);
    }
    Vandermonde(Support(e), n);
  }

  /** Two different blocks of at most 255 symbols with `n` check symbols differ in more than `n` places. */
  lemma MinimumDistance(p: seq<bv8>, q: seq<bv8>, n: nat)
    requires |p| == |q| <= 255 && p != q
    requires IsCodeword(p, n) && IsCodeword(q, n)
    ensures Distance(p, q) > n
  {
    hide Plus, Times, Alpha, Eval;
    var e := Add(p, q);
    forall i | 0 <= i < n ensures Eval(e, Alpha(i)) == 0 {
      EvalAdd(p, q, Alpha(i));
      PlusLaws(0, 0, 0);
    }
    DistanceIsWeight(p, q);
    if Distance(p, q) <= n {
      LightCodewordIsZero(e, n);
      DistanceZero(p, q);
    }
  }

  lemma {:induction false} DistanceZero(p: seq<bv8>, q: seq<bv8>)
    requires |p| == |q| && Distance(p, q) == 0
    ensures p == q
    decreases p
  {
    if p != [] {
      DistanceZero(p[1..], q[1..]);
      assert p == [p[0]] + p[1..] && q == [q[0]] + q[1..];
    }
  }

  lemma {:induction false} DistanceTriangle(p: seq<bv8>, r: seq<bv8>, q: seq<bv8>)
    requires |p| == |r| == |q|
    ensures Distance(p, q) <= Distance(p, r) + Distance(r, q)
    ensures Distance(p, r) == Distance(r, p)
    decreases p
  {
    if p != [] {
      DistanceTriangle(p[1..], r[1..], q[1..]);
    }
  }

  /** A received block determines the block sent when at most half the check symbols' number of symbols are damaged. */
  lemma UniqueCorrection(p: seq<bv8>, q: seq<bv8>, received: seq<bv8>, n: nat)
    requires |p| == |received| == |q| <= 255
    requires IsCodeword(p, n) && IsCodeword(q, n)
    requires 2 * Distance(p, received) <= n && 2 * Distance(q, received) <= n
    ensures p == q
  {
    DistanceTriangle(p, received, q);
    DistanceTriangle(q, received, p);
    if p != q {
      MinimumDistance(p, q, n);
    }
  }

  lemma {:induction false} DistanceSamePrefix(a: seq<bv8>, x: seq<bv8>, y: seq<bv8>)
    requires |x| == |y|
    ensures Distance(a + x, a + y) <= |x|
    decreases a, x
  {
    if a != [] {
      assert (a + x)[1..] == a[1..] + x && (a + y)[1..] == a[1..] + y;
      DistanceSamePrefix(a[1..], x, y);
    } else if x != [] {
      assert a + x == x && a + y == y;
      assert [] + x[1..] == x[1..] && [] + y[1..] == y[1..];
      DistanceSamePrefix([], x[1..], y[1..]);
    }
  }

  /** The check symbols are determined by being check symbols: there is one way to complete `data`. */
  lemma CheckSymbolsUnique(data: seq<bv8>, x: seq<bv8>, y: seq<bv8>, n: nat)
    requires |x| == |y| == n && |data| + n <= 255
    requires IsCodeword(data + x, n) && IsCodeword(data + y, n)
    ensures x == y
  {
    if x != y {
      assert (data + x)[|data|..] == x && (data + y)[|data|..] == y;
      DistanceSamePrefix(data, x, y);
      MinimumDistance(data + x, data + y, n);
    }
  }
}
