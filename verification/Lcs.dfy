/** `lcsFlags` of src/renderer/lib/conflictDiff.ts: the backward table and the greedy walk. */
module Lcs {

  const MAX_CELLS := 250000

  function Max(x: nat, y: nat): nat {
    if x >= y then x else y
  }

  /** Length the table holds for the suffixes of `a` and `b`. */
  function Length<T(==)>(a: seq<T>, b: seq<T>): nat
    decreases |a| + |b|
  {
    if a == [] || b == [] then 0
    else if a[0] == b[0] then Length(a[1..], b[1..]) + 1
    else Max(Length(a[1..], b), Length(a, b[1..]))
  }

  /** `s` can be had from `a` by deleting elements. */
  ghost predicate IsSubsequence<T>(s: seq<T>, a: seq<T>)
    decreases |a|
  {
    s == [] || (a != [] && ((s[0] == a[0] && IsSubsequence(s[1..], a[1..])) || IsSubsequence(s, a[1..])))
  }

  ghost predicate IsCommon<T>(s: seq<T>, a: seq<T>, b: seq<T>) {
    IsSubsequence(s, a) && IsSubsequence(s, b)
  }

  /** The flagged elements, in order. */
  function Picked<T>(a: seq<T>, flags: seq<bool>): (r: seq<T>)
    requires |a| == |flags|
    decreases |a|
  {
    if a == [] then [] else (if flags[0] then [a[0]] else []) + Picked(a[1..], flags[1..])
  }

  lemma {:induction false} PickedIsSubsequence<T>(a: seq<T>, flags: seq<bool>)
    requires |a| == |flags|
    ensures IsSubsequence(Picked(a, flags), a)
    decreases |a|
  {
    if a != [] {
      PickedIsSubsequence(a[1..], flags[1..]);
      if flags[0] {
        assert Picked(a, flags)[1..] == Picked(a[1..], flags[1..]);
      } else {
        assert Picked(a, flags) == Picked(a[1..], flags[1..]);
      }
    }
  }

  /** Dropping the first element keeps a subsequence one. */
  lemma {:induction false} SubsequenceTail<T>(s: seq<T>, a: seq<T>)
    requires s != [] && IsSubsequence(s, a)
    ensures IsSubsequence(s[1..], a)
    ensures IsSubsequence(s[1..], a[1..])
    decreases |a|
  {
    if s[0] == a[0] && IsSubsequence(s[1..], a[1..]) {
    } else {
      SubsequenceTail(s, a[1..]);
    }
  }

  /** No common subsequence is longer than the table says. */
  lemma {:induction false} LengthIsBound<T>(s: seq<T>, a: seq<T>, b: seq<T>)
    requires IsCommon(s, a, b)
    ensures |s| <= Length(a, b)
    decreases |a| + |b|
  {
    if s != [] {
      if a[0] == b[0] {
        SubsequenceTail(s, a);
        SubsequenceTail(s, b);
        LengthIsBound(s[1..], a[1..], b[1..]);
      } else if s[0] == a[0] {
        assert IsSubsequence(s, b[1..]);
        LengthIsBound(s, a, b[1..]);
      } else {
        assert IsSubsequence(s, a[1..]);
        LengthIsBound(s, a[1..], b);
      }
    }
  }

  /** What the flags promise: both sides pick out the same sequence, and it is a longest common one. */
  ghost predicate IsLongest<T>(a: seq<T>, b: seq<T>, fa: seq<bool>, fb: seq<bool>)
  {
    && |fa| == |a| && |fb| == |b|
    && Picked(a, fa) == Picked(b, fb)
    && |Picked(a, fa)| == Length(a, b)
  }

  /** The flagged elements are a common subsequence, and none is longer. */
  lemma LongestIsOptimal<T>(a: seq<T>, b: seq<T>, fa: seq<bool>, fb: seq<bool>, s: seq<T>)
    requires IsLongest(a, b, fa, fb)
    ensures IsCommon(Picked(a, fa), a, b)
    ensures IsCommon(s, a, b) ==> |s| <= |Picked(a, fa)|
  {
    PickedIsSubsequence(a, fa);
    PickedIsSubsequence(b, fb);
    if IsCommon(s, a, b) {
      LengthIsBound(s, a, b);
    }
  }

  /* ---------- The table ---------- */

  /** The table index of (i, j): rows of width |b| + 1. */
  function Cell(i: nat, w: nat, j: nat): nat {
    i * w + j
  }

  lemma RowsApart(i: nat, k: nat, w: nat)
    requires i < k
    ensures i * w + w <= k * w
  {
    assert k * w == i * w + (k - i) * w;
    assert (k - i) * w == (k - i - 1) * w + w;
  }

  lemma CellsDiffer(i: nat, j: nat, k: nat, l: nat, w: nat)
    requires j < w && l < w && (i != k || j != l)
    ensures Cell(i, w, j) != Cell(k, w, l)
  {
    if i < k {
      RowsApart(i, k, w);
    } else if k < i {
      RowsApart(k, i, w);
    }
  }

  lemma CellInTable(i: nat, j: nat, n: nat, w: nat)
    requires i <= n && j < w
    ensures Cell(i, w, j) < (n + 1) * w
  {
    assert (n - i) * w >= 0;
    assert (n + 1) * w == i * w + (n - i) * w + w;
  }

  ghost predicate Filled<T>(dp: array<nat>, a: seq<T>, b: seq<T>, i: nat, j: nat)
    requires dp.Length == (|a| + 1) * (|b| + 1) && i <= |a| && j <= |b|
    reads dp
  {
    CellInTable(i, j, |a|, |b| + 1);
    dp[Cell(i, |b| + 1, j)] == Length(a[i..], b[j..])
  }

  /** One cell from its three neighbours; no other cell changes. */
  method FillCell<T(==)>(dp: array<nat>, a: seq<T>, b: seq<T>, i: nat, j: nat)
    requires dp.Length == (|a| + 1) * (|b| + 1) && i < |a| && j < |b|
    requires Filled(dp, a, b, i + 1, j) && Filled(dp, a, b, i, j + 1) && Filled(dp, a, b, i + 1, j + 1)
    modifies dp
    ensures Filled(dp, a, b, i, j)
    ensures forall k, l :: 0 <= k <= |a| && 0 <= l <= |b| && old(Filled(dp, a, b, k, l)) ==> Filled(dp, a, b, k, l)
  {
    var n, w := |a|, |b| + 1;
    CellInTable(i, j, n, w);
    CellInTable(i + 1, j, n, w);
    CellInTable(i, j + 1, n, w);
    CellInTable(i + 1, j + 1, n, w);
    LengthNext(a, b, i, j);
    hide Cell, Length;
    dp[Cell(i, w, j)] :=
      if a[i] == b[j] then dp[Cell(i + 1, w, j + 1)] + 1 else Max(dp[Cell(i + 1, w, j)], dp[Cell(i, w, j + 1)]);
    forall k, l | 0 <= k <= n && 0 <= l < w && old(Filled(dp, a, b, k, l)) ensures Filled(dp, a, b, k, l) {
      CellInTable(k, l, n, w);
      if k != i || l != j {
        CellsDiffer(k, l, i, j, w);
      }
    }
  }

  lemma LengthNext<T>(a: seq<T>, b: seq<T>, i: nat, j: nat)
    requires i < |a| && j < |b|
    ensures Length(a[i..], b[j..]) ==
      if a[i] == b[j] then Length(a[i + 1..], b[j + 1..]) + 1
      else Max(Length(a[i + 1..], b[j..]), Length(a[i..], b[j + 1..]))
  {
    assert a[i..][1..] == a[i + 1..] && b[j..][1..] == b[j + 1..];
  }

  method FillTable<T(==)>(a: seq<T>, b: seq<T>) returns (dp: array<nat>)
    ensures fresh(dp) && dp.Length == (|a| + 1) * (|b| + 1)
    ensures forall i, j :: 0 <= i <= |a| && 0 <= j <= |b| ==> Filled(dp, a, b, i, j)
  {
    var n, m := |a|, |b|;
    dp := new nat[(n + 1) * (m + 1)](_ => 0);
    forall i, j | 0 <= i <= n && 0 <= j <= m && (i == n || j == m) ensures Filled(dp, a, b, i, j) {
      CellInTable(i, j, n, m + 1);
    }
    hide Filled;
    for i := n downto 0
      invariant forall k, l :: 0 <= k <= n && 0 <= l <= m && (i <= k || l == m) ==> Filled(dp, a, b, k, l)
    {
      for j := m downto 0
        invariant forall k, l :: 0 <= k <= n && 0 <= l <= m && (i < k || l == m || (k == i && j <= l)) ==>
          Filled(dp, a, b, k, l)
      {
        FillCell(dp, a, b, i, j);
      }
    }
  }

  /* ---------- The walk ---------- */

  lemma {:induction false} PickedNone<T>(a: seq<T>, flags: seq<bool>)
    requires |a| == |flags| && forall k :: 0 <= k < |flags| ==> !flags[k]
    ensures Picked(a, flags) == []
    decreases |a|
  {
    if a != [] {
      PickedNone(a[1..], flags[1..]);
    }
  }

  lemma {:induction false} PickedConcat<T>(a: seq<T>, fa: seq<bool>, b: seq<T>, fb: seq<bool>)
    requires |a| == |fa| && |b| == |fb|
    ensures Picked(a + b, fa + fb) == Picked(a, fa) + Picked(b, fb)
    decreases |a|
  {
    if a == [] {
      assert a + b == b && fa + fb == fb;
      assert Picked(a, fa) + Picked(b, fb) == Picked(b, fb);
    } else {
      assert (a + b)[1..] == a[1..] + b && (fa + fb)[1..] == fa[1..] + fb;
      PickedConcat(a[1..], fa[1..], b, fb);
      var head, x, y := (if fa[0] then [a[0]] else []), Picked(a[1..], fa[1..]), Picked(b, fb);
      assert Picked(a + b, fa + fb) == head + (x + y);
      assert head + (x + y) == (head + x) + y;
    }
  }

  lemma PickedSnoc<T>(a: seq<T>, fa: seq<bool>, i: nat)
    requires i < |a| == |fa|
    ensures Picked(a[..i + 1], fa[..i + 1]) == Picked(a[..i], fa[..i]) + (if fa[i] then [a[i]] else [])
  {
    assert a[..i + 1] == a[..i] + [a[i]] && fa[..i + 1] == fa[..i] + [fa[i]];
    PickedConcat(a[..i], fa[..i], [a[i]], [fa[i]]);
    assert [a[i]][1..] == [] && [fa[i]][1..] == [];
  }

  lemma PickedRest<T>(a: seq<T>, fa: seq<bool>, i: nat)
    requires i <= |a| == |fa| && forall k :: i <= k < |fa| ==> !fa[k]
    ensures Picked(a, fa) == Picked(a[..i], fa[..i])
  {
    assert a == a[..i] + a[i..] && fa == fa[..i] + fa[i..];
    PickedConcat(a[..i], fa[..i], a[i..], fa[i..]);
    PickedNone(a[i..], fa[i..]);
  }

  /** Where the walk stands: what is flagged so far, with the table's promise for the rest, is as long as the
      longest. */
  ghost predicate Walked<T>(a: seq<T>, b: seq<T>, fa: seq<bool>, fb: seq<bool>, i: nat, j: nat) {
    && i <= |a| == |fa| && j <= |b| == |fb|
    && (forall k :: i <= k < |a| ==> !fa[k])
    && (forall k :: j <= k < |b| ==> !fb[k])
    && Picked(a[..i], fa[..i]) == Picked(b[..j], fb[..j])
    && |Picked(a[..i], fa[..i])| + Length(a[i..], b[j..]) == Length(a, b)
  }

  lemma StepMatch<T>(a: seq<T>, b: seq<T>, fa: seq<bool>, fb: seq<bool>, i: nat, j: nat)
    requires Walked(a, b, fa, fb, i, j) && i < |a| && j < |b| && a[i] == b[j]
    ensures Walked(a, b, fa[i := true], fb[j := true], i + 1, j + 1)
  {
    hide Picked;
    var ga, gb := fa[i := true], fb[j := true];
    PickedSnoc(a, ga, i);
    PickedSnoc(b, gb, j);
    assert ga[..i] == fa[..i] && gb[..j] == fb[..j];
    assert a[i..][1..] == a[i + 1..] && b[j..][1..] == b[j + 1..];
  }

  lemma StepA<T>(a: seq<T>, b: seq<T>, fa: seq<bool>, fb: seq<bool>, i: nat, j: nat)
    requires Walked(a, b, fa, fb, i, j) && i < |a| && Length(a[i..], b[j..]) == Length(a[i + 1..], b[j..])
    ensures Walked(a, b, fa, fb, i + 1, j)
  {
    hide Picked, Length;
    PickedSnoc(a, fa, i);
  }

  lemma StepB<T>(a: seq<T>, b: seq<T>, fa: seq<bool>, fb: seq<bool>, i: nat, j: nat)
    requires Walked(a, b, fa, fb, i, j) && j < |b| && Length(a[i..], b[j..]) == Length(a[i..], b[j + 1..])
    ensures Walked(a, b, fa, fb, i, j + 1)
  {
    hide Picked, Length;
    PickedSnoc(b, fb, j);
  }

  lemma LengthMismatch<T>(a: seq<T>, b: seq<T>, i: nat, j: nat)
    requires i < |a| && j < |b| && a[i] != b[j]
    ensures Length(a[i..], b[j..]) == Max(Length(a[i + 1..], b[j..]), Length(a[i..], b[j + 1..]))
  {
    assert a[i..][1..] == a[i + 1..] && b[j..][1..] == b[j + 1..];
  }

  lemma WalkDone<T>(a: seq<T>, b: seq<T>, fa: seq<bool>, fb: seq<bool>, i: nat, j: nat)
    requires Walked(a, b, fa, fb, i, j) && (i == |a| || j == |b|)
    ensures IsLongest(a, b, fa, fb)
  {
    PickedRest(a, fa, i);
    PickedRest(b, fb, j);
  }

  lemma NothingFlagged<T>(a: seq<T>, b: seq<T>, fa: seq<bool>, fb: seq<bool>)
    requires |fa| == |a| && |fb| == |b|
    requires (forall k :: 0 <= k < |a| ==> !fa[k]) && (forall k :: 0 <= k < |b| ==> !fb[k])
    ensures Picked(a, fa) == [] == Picked(b, fb)
    ensures Walked(a, b, fa, fb, 0, 0)
  {
    PickedNone(a, fa);
    PickedNone(b, fb);
    assert a[0..] == a && b[0..] == b;
  }

  /** Flags for both sides. A table above the cap flags nothing. */
  method LcsFlags<T(==)>(a: seq<T>, b: seq<T>) returns (fa: seq<bool>, fb: seq<bool>)
    ensures |fa| == |a| && |fb| == |b| && Picked(a, fa) == Picked(b, fb)
    ensures |a| * |b| <= MAX_CELLS ==> IsLongest(a, b, fa, fb)
    ensures |a| * |b| > MAX_CELLS ==> Picked(a, fa) == [] && fa == seq(|a|, _ => false) && fb == seq(|b|, _ => false)
  {
    hide Picked, Length, Walked, IsLongest;
    var n, m := |a|, |b|;
    fa, fb := seq(n, _ => false), seq(m, _ => false);
    NothingFlagged(a, b, fa, fb);
    if n == 0 || m == 0 || n * m > MAX_CELLS {
      if n == 0 || m == 0 {
        WalkDone(a, b, fa, fb, 0, 0);
        assert n * m == 0;
      }
      return;
    }
    var w := m + 1;
    var dp := FillTable(a, b);
    var i, j := 0, 0;
    while i < n && j < m
      invariant i <= n && j <= m && |fa| == n && |fb| == m
      invariant Walked(a, b, fa, fb, i, j)
      modifies {}
      decreases n - i + m - j
    {
      if a[i] == b[j] {
        StepMatch(a, b, fa, fb, i, j);
        fa, fb := fa[i := true], fb[j := true];
        i, j := i + 1, j + 1;
      } else {
        CellInTable(i + 1, j, n, w);
        CellInTable(i, j + 1, n, w);
        assert Filled(dp, a, b, i + 1, j) && Filled(dp, a, b, i, j + 1);
        LengthMismatch(a, b, i, j);
        if dp[Cell(i + 1, w, j)] >= dp[Cell(i, w, j + 1)] {
          StepA(a, b, fa, fb, i, j);
          i := i + 1;
        } else {
          StepB(a, b, fa, fb, i, j);
          j := j + 1;
        }
      }
    }
    WalkDone(a, b, fa, fb, i, j);
    LongestAgrees(a, b, fa, fb);
  }

  lemma LongestAgrees<T>(a: seq<T>, b: seq<T>, fa: seq<bool>, fb: seq<bool>)
    requires IsLongest(a, b, fa, fb)
    ensures |fa| == |a| && |fb| == |b| && Picked(a, fa) == Picked(b, fb)
  {
  }
}
