/** `diffBlock` of src/renderer/lib/conflictDiff.ts: line flags, and word ranges for the lines
    that stand at the same place of the same gap between common lines. */
module BlockDiff {
  import opened Options
  import opened Lcs
  import opened WordDiff

  datatype BlockLine = BlockLine(text: string, same: bool, ranges: Option<seq<Range>>)

  /** How many common lines come before line `i`: the number of its gap. */
  function Gap(flags: seq<bool>, i: nat): nat
    requires i <= |flags|
  {
    if i == 0 then 0 else Gap(flags, i - 1) + (if flags[i - 1] then 1 else 0)
  }

  /** How far line `i` stands behind the last common line before it. */
  function Place(flags: seq<bool>, i: nat): nat
    requires i <= |flags|
  {
    if i == 0 || flags[i - 1] then 0 else Place(flags, i - 1) + 1
  }

  /** Lines that differ, in the same gap and at the same place in it. */
  predicate Paired(fa: seq<bool>, fb: seq<bool>, x: nat, y: nat) {
    x < |fa| && y < |fb| && !fa[x] && !fb[y] && Gap(fa, x) == Gap(fb, y) && Place(fa, x) == Place(fb, y)
  }

  ghost predicate HasPartner(fa: seq<bool>, fb: seq<bool>, x: nat) {
    exists y :: Paired(fa, fb, x, y)
  }

  ghost predicate IsPartner(fa: seq<bool>, fb: seq<bool>, y: nat) {
    exists x :: Paired(fa, fb, x, y)
  }

  function Changed(ranges: seq<Range>): int {
    if ranges == [] then 0
    else Changed(ranges[..|ranges| - 1]) + (ranges[|ranges| - 1].end - ranges[|ranges| - 1].start)
  }

  /** How many of the first `n` characters are covered. */
  ghost function CoveredBefore(ranges: seq<Range>, n: nat): nat {
    if n == 0 then 0 else CoveredBefore(ranges, n - 1) + if Covered(ranges, n - 1) then 1 else 0
  }

  lemma {:induction false} NoneBehind(ranges: seq<Range>, lo: nat, n: nat)
    requires lo <= n && forall p :: lo <= p < n ==> !Covered(ranges, p)
    ensures CoveredBefore(ranges, n) == CoveredBefore(ranges, lo)
  {
    hide Covered;
    if lo < n {
      NoneBehind(ranges, lo, n - 1);
    }
  }

  lemma {:induction false} AllBehind(ranges: seq<Range>, lo: nat, n: nat)
    requires lo <= n && forall p :: lo <= p < n ==> Covered(ranges, p)
    ensures CoveredBefore(ranges, n) == CoveredBefore(ranges, lo) + (n - lo)
  {
    hide Covered;
    if lo < n {
      AllBehind(ranges, lo, n - 1);
    }
  }

  lemma {:induction false} SameBefore(ranges: seq<Range>, others: seq<Range>, n: nat)
    requires forall p :: 0 <= p < n ==> (Covered(ranges, p) <==> Covered(others, p))
    ensures CoveredBefore(ranges, n) == CoveredBefore(others, n)
  {
    hide Covered;
    if n > 0 {
      SameBefore(ranges, others, n - 1);
    }
  }

  /** What is counted as changed is the number of characters in the ranges. */
  lemma {:induction false} ChangedIsCovered(ranges: seq<Range>, length: nat)
    requires Separated(ranges, length)
    ensures Changed(ranges) == CoveredBefore(ranges, length)
    decreases |ranges|
  {
    if ranges == [] {
      NoneBehind(ranges, 0, length);
    } else {
      var n := |ranges| - 1;
      var r, before := ranges[n], ranges[..n];
      RangesEarlier(ranges, length);
      ChangedIsCovered(before, r.start);
      SameBefore(ranges, before, r.start);
      AllBehind(ranges, r.start, r.end);
      NoneBehind(ranges, r.end, length);
    }
  }

  lemma {:induction false} EndsBefore(ranges: seq<Range>, length: nat, k: nat, n: nat)
    requires Separated(ranges, length) && k < n < |ranges|
    ensures ranges[k].end < ranges[n].start
    decreases n
  {
    if k < n - 1 {
      EndsBefore(ranges, length, k, n - 1);
    }
  }

  lemma RangesEarlier(ranges: seq<Range>, length: nat)
    requires Separated(ranges, length) && ranges != []
    ensures var n := |ranges| - 1; var r := ranges[n];
      && Separated(ranges[..n], r.start)
      && (forall p :: 0 <= p < r.start ==> (Covered(ranges, p) <==> Covered(ranges[..n], p)))
      && (forall p :: r.start <= p < r.end ==> Covered(ranges, p))
      && (forall p :: r.end <= p ==> !Covered(ranges, p))
  {
    var n := |ranges| - 1;
    forall k | 0 <= k < n ensures ranges[k].end < ranges[n].start {
      EndsBefore(ranges, length, k, n);
    }
    forall p | 0 <= p < ranges[n].start && Covered(ranges, p) ensures Covered(ranges[..n], p) {
      var k :| 0 <= k < |ranges| && Contains(ranges[k], p);
      assert ranges[..n][k] == ranges[k];
    }
    forall p | 0 <= p < ranges[n].start && Covered(ranges[..n], p) ensures Covered(ranges, p) {
      var k :| 0 <= k < n && Contains(ranges[..n][k], p);
      assert ranges[k] == ranges[..n][k];
    }
    forall p | ranges[n].start <= p < ranges[n].end ensures Covered(ranges, p) {
      assert Contains(ranges[n], p);
    }
  }

  /** A pair after its word diff: both lines get their ranges, or neither when the lines have too little in common. */
  ghost predicate WordDiffed(x: BlockLine, y: BlockLine, mostly: (int, nat) -> bool) {
    exists ra, rb ::
      && Highlights(x.text, y.text, ra, rb) && LeavesLongest(x.text, y.text, ra)
      && if mostly(Changed(ra), |x.text|) && mostly(Changed(rb), |y.text|)
         then x.ranges == None && y.ranges == None
         else x.ranges == Some(ra) && y.ranges == Some(rb)
  }

  /** `lines` still shows the texts and flags it was made from. */
  ghost predicate Shows(lines: array<BlockLine>, texts: seq<string>, flags: seq<bool>)
    reads lines
  {
    lines.Length == |texts| == |flags| && forall i :: 0 <= i < |texts| ==>
      lines[i].text == texts[i] && lines[i].same == flags[i]
  }

  /** Which lines are marked as common. */
  ghost function Flags(lines: array<BlockLine>): (f: seq<bool>)
    reads lines
    ensures |f| == lines.Length
  {
    FlagsOf(lines[..])
  }

  function FlagsOf(lines: seq<BlockLine>): (f: seq<bool>)
    ensures |f| == |lines|
  {
    seq(|lines|, i requires 0 <= i < |lines| => lines[i].same)
  }

  predicate NoneCommon(flags: seq<bool>) {
    forall k :: 0 <= k < |flags| ==> !flags[k]
  }

  /** The same lines are flagged on both sides: a longest common subsequence up to the cap, and none above it. */
  ghost predicate CommonFlags(a: seq<string>, b: seq<string>, fa: seq<bool>, fb: seq<bool>) {
    && |fa| == |a| && |fb| == |b| && Picked(a, fa) == Picked(b, fb)
    && (if |a| * |b| <= MAX_CELLS then IsLongest(a, b, fa, fb) else NoneCommon(fa) && NoneCommon(fb))
  }

  method FlagCommon(a: seq<string>, b: seq<string>) returns (fa: seq<bool>, fb: seq<bool>)
    ensures CommonFlags(a, b, fa, fb)
  {
    hide IsLongest, Picked;
    fa, fb := LcsFlags(a, b);
  }

  lemma CommonPicked(a: seq<string>, b: seq<string>, fa: seq<bool>, fb: seq<bool>)
    requires CommonFlags(a, b, fa, fb)
    ensures |fa| == |a| && |fb| == |b| && Picked(a, fa) == Picked(b, fb)
  {
  }

  lemma FlagsShown(lines: array<BlockLine>, texts: seq<string>, flags: seq<bool>)
    requires Shows(lines, texts, flags)
    ensures Flags(lines) == flags
  {
  }

  /* ---------- Gaps ---------- */

  lemma {:induction false} GapMonotone(f: seq<bool>, x: nat, y: nat)
    requires x <= y <= |f|
    ensures Gap(f, x) <= Gap(f, y)
    ensures x < y && f[x] ==> Gap(f, x) < Gap(f, y)
    decreases y
  {
    if x < y {
      GapMonotone(f, x, y - 1);
    }
  }

  predicate StartsGap(f: seq<bool>, i: nat) {
    i <= |f| && (i == 0 || f[i - 1])
  }

  /** `lo..hi` is a whole gap. */
  predicate IsGap(f: seq<bool>, lo: nat, hi: nat) {
    StartsGap(f, lo) && lo <= hi <= |f| && (forall k :: lo <= k < hi ==> !f[k]) && (hi < |f| ==> f[hi])
  }

  lemma {:induction false} InsideGap(f: seq<bool>, lo: nat, hi: nat, x: nat)
    requires IsGap(f, lo, hi) && lo <= x <= hi
    ensures Gap(f, x) == Gap(f, lo) && Place(f, x) == x - lo
    decreases x
  {
    if x > lo {
      InsideGap(f, lo, hi, x - 1);
    }
  }

  /** A differing line is in the gap, before it or behind it, as its number says. */
  lemma GapOf(f: seq<bool>, lo: nat, hi: nat, x: nat)
    requires IsGap(f, lo, hi) && x < |f| && !f[x]
    ensures Gap(f, x) == Gap(f, lo) <==> lo <= x < hi
    ensures Gap(f, x) < Gap(f, lo) <==> x < lo
  {
    if x < lo {
      GapMonotone(f, x, lo - 1);
      GapMonotone(f, lo - 1, lo);
    } else if x < hi {
      InsideGap(f, lo, hi, x);
    } else {
      InsideGap(f, lo, hi, hi);
      GapMonotone(f, hi, x);
    }
  }

  lemma BeforeStart(f: seq<bool>, lo: nat, x: nat)
    requires StartsGap(f, lo) && x < lo && !f[x]
    ensures Gap(f, x) < Gap(f, lo)
  {
    GapMonotone(f, x, lo - 1);
    GapMonotone(f, lo - 1, lo);
  }

  lemma {:induction false} PickedSize(a: seq<string>, f: seq<bool>, i: nat)
    requires |a| == |f| && i <= |a|
    ensures |Picked(a[..i], f[..i])| == Gap(f, i)
    decreases i
  {
    hide Picked;
    if i > 0 {
      PickedSize(a, f, i - 1);
      PickedSnoc(a, f, i - 1);
    } else {
      PickedNone(a[..0], f[..0]);
    }
  }

  /** A common line is the entry of the common sequence that its gap number says. */
  lemma PickedAt(a: seq<string>, f: seq<bool>, i: nat)
    requires |a| == |f| && i < |a| && f[i]
    ensures Gap(f, i) < |Picked(a, f)| && Picked(a, f)[Gap(f, i)] == a[i]
  {
    hide Picked;
    PickedSize(a, f, i);
    PickedSnoc(a, f, i);
    assert a == a[..i + 1] + a[i + 1..] && f == f[..i + 1] + f[i + 1..];
    PickedConcat(a[..i + 1], f[..i + 1], a[i + 1..], f[i + 1..]);
  }

  /** Common lines with the same number are equal. */
  lemma CommonLinesAgree(a: seq<string>, b: seq<string>, fa: seq<bool>, fb: seq<bool>, i: nat, j: nat)
    requires |a| == |fa| && |b| == |fb| && Picked(a, fa) == Picked(b, fb)
    requires i < |a| && j < |b| && fa[i] && fb[j] && Gap(fa, i) == Gap(fb, j)
    ensures a[i] == b[j]
  {
    PickedAt(a, fa, i);
    PickedAt(b, fb, j);
  }

  lemma SameTotal(a: seq<string>, b: seq<string>, fa: seq<bool>, fb: seq<bool>)
    requires |a| == |fa| && |b| == |fb| && Picked(a, fa) == Picked(b, fb)
    ensures Gap(fa, |fa|) == Gap(fb, |fb|)
  {
    hide Picked;
    PickedSize(a, fa, |a|);
    PickedSize(b, fb, |b|);
    assert a[..|a|] == a && fa[..|fa|] == fa && b[..|b|] == b && fb[..|fb|] == fb;
  }

  /** When one side runs out behind a gap, so does the other. */
  lemma BothRunOut(f: seq<bool>, lo: nat, hi: nat, total: nat)
    requires IsGap(f, lo, hi) && Gap(f, |f|) == total
    ensures hi == |f| <==> total == Gap(f, lo)
  {
    InsideGap(f, lo, hi, hi);
    if hi < |f| {
      GapMonotone(f, hi, |f|);
    }
  }

  /* ---------- The walk ---------- */

  /** The pairs of the gaps numbered below `g` are done, and no other line has ranges. */
  ghost predicate DoneBelow(cur: array<BlockLine>, inc: array<BlockLine>, fa: seq<bool>, fb: seq<bool>,
    mostly: (int, nat) -> bool, g: nat)
    requires cur.Length == |fa| && inc.Length == |fb|
    reads cur, inc
  {
    && (forall x: nat, y: nat :: Paired(fa, fb, x, y) && Gap(fa, x) < g ==> WordDiffed(cur[x], inc[y], mostly))
    && (forall x :: 0 <= x < |fa| && cur[x].ranges.Some? ==> HasPartner(fa, fb, x) && Gap(fa, x) < g)
    && (forall y :: 0 <= y < |fb| && inc[y].ranges.Some? ==> IsPartner(fa, fb, y) && Gap(fb, y) < g)
  }

  /** Word-diff one pair, and keep the ranges unless both lines mostly differ. */
  method DiffPair(cur: array<BlockLine>, inc: array<BlockLine>, x: nat, y: nat, mostly: (int, nat) -> bool)
    requires cur != inc && x < cur.Length && y < inc.Length
    requires cur[x].ranges == None && inc[y].ranges == None
    modifies cur, inc
    ensures cur[x].text == old(cur[x].text) && cur[x].same == old(cur[x].same)
    ensures inc[y].text == old(inc[y].text) && inc[y].same == old(inc[y].same)
    ensures forall k :: 0 <= k < cur.Length && k != x ==> cur[k] == old(cur[k])
    ensures forall k :: 0 <= k < inc.Length && k != y ==> inc[k] == old(inc[k])
    ensures WordDiffed(cur[x], inc[y], mostly)
  {
    hide Highlights, LeavesLongest, WordDiffed;
    var a, b := cur[x], inc[y];
    var ra, rb := WordRanges(a.text, b.text);
    var mostlyDifferent := mostly(Changed(ra), |a.text|) && mostly(Changed(rb), |b.text|);
    if !mostlyDifferent {
      cur[x] := a.(ranges := Some(ra));
      inc[y] := b.(ranges := Some(rb));
    }
    PairIsDone(cur[x], inc[y], ra, rb, mostly);
  }

  /** Word-diff the lines of one gap, first with first. */
  method PairGap(cur: array<BlockLine>, inc: array<BlockLine>, ci: seq<nat>, ij: seq<nat>, ghost lo: nat,
    ghost jo: nat, mostly: (int, nat) -> bool)
    requires cur != inc && lo + |ci| <= cur.Length && jo + |ij| <= inc.Length
    requires forall k :: 0 <= k < |ci| ==> ci[k] == lo + k
    requires forall k :: 0 <= k < |ij| ==> ij[k] == jo + k
    requires forall x :: lo <= x < lo + |ci| ==> cur[x].ranges == None
    requires forall y :: jo <= y < jo + |ij| ==> inc[y].ranges == None
    modifies cur, inc
    ensures forall x :: 0 <= x < cur.Length ==> cur[x].text == old(cur[x].text) && cur[x].same == old(cur[x].same)
    ensures forall y :: 0 <= y < inc.Length ==> inc[y].text == old(inc[y].text) && inc[y].same == old(inc[y].same)
    ensures forall x :: 0 <= x < cur.Length && !(lo <= x < lo + |ci| && x - lo < |ij|) ==> cur[x] == old(cur[x])
    ensures forall y :: 0 <= y < inc.Length && !(jo <= y < jo + |ij| && y - jo < |ci|) ==> inc[y] == old(inc[y])
    ensures forall x, y :: lo <= x < lo + |ci| && jo <= y < jo + |ij| && x - lo == y - jo ==>
      WordDiffed(cur[x], inc[y], mostly)
  {
    hide WordDiffed;
    var n := if |ci| < |ij| then |ci| else |ij|;
    for k := 0 to n
      invariant forall x :: 0 <= x < cur.Length ==> cur[x].text == old(cur[x].text) && cur[x].same == old(cur[x].same)
      invariant forall y :: 0 <= y < inc.Length ==> inc[y].text == old(inc[y].text) && inc[y].same == old(inc[y].same)
      invariant forall x :: 0 <= x < cur.Length && !(lo <= x < lo + k) ==> cur[x] == old(cur[x])
      invariant forall y :: 0 <= y < inc.Length && !(jo <= y < jo + k) ==> inc[y] == old(inc[y])
      invariant forall x, y :: lo <= x < lo + k && jo <= y < jo + k && x - lo == y - jo ==>
        WordDiffed(cur[x], inc[y], mostly)
    {
      DiffPair(cur, inc, ci[k], ij[k], mostly);
    }
  }

  lemma PairIsDone(x: BlockLine, y: BlockLine, ra: seq<Range>, rb: seq<Range>, mostly: (int, nat) -> bool)
    requires Highlights(x.text, y.text, ra, rb) && LeavesLongest(x.text, y.text, ra)
    requires if mostly(Changed(ra), |x.text|) && mostly(Changed(rb), |y.text|)
             then x.ranges == None && y.ranges == None
             else x.ranges == Some(ra) && y.ranges == Some(rb)
    ensures WordDiffed(x, y, mostly)
  {
    hide Highlights, LeavesLongest;
  }

  /** Finishing the gap `lo..hi` against `jo..ho` finishes the pairs with its number. */
  lemma GapDone(cur: array<BlockLine>, inc: array<BlockLine>, fa: seq<bool>, fb: seq<bool>, mostly: (int, nat) -> bool,
      lo: nat, hi: nat, jo: nat, ho: nat)
    requires cur.Length == |fa| && inc.Length == |fb|
    requires IsGap(fa, lo, hi) && IsGap(fb, jo, ho) && Gap(fa, lo) == Gap(fb, jo)
    requires forall x: nat, y: nat :: Paired(fa, fb, x, y) && Gap(fa, x) < Gap(fa, lo) ==>
      WordDiffed(cur[x], inc[y], mostly)
    requires forall x :: 0 <= x < |fa| && !(lo <= x < hi) && cur[x].ranges.Some? ==>
      HasPartner(fa, fb, x) && Gap(fa, x) < Gap(fa, lo)
    requires forall y :: 0 <= y < |fb| && !(jo <= y < ho) && inc[y].ranges.Some? ==>
      IsPartner(fa, fb, y) && Gap(fb, y) < Gap(fa, lo)
    requires forall x :: lo <= x < hi && cur[x].ranges.Some? ==> x - lo < ho - jo
    requires forall y :: jo <= y < ho && inc[y].ranges.Some? ==> y - jo < hi - lo
    requires forall x, y :: lo <= x < hi && jo <= y < ho && x - lo == y - jo ==> WordDiffed(cur[x], inc[y], mostly)
    ensures DoneBelow(cur, inc, fa, fb, mostly, Gap(fa, lo) + 1)
  {
    hide WordDiffed, Gap, Place, HasPartner, IsPartner, IsGap;
    PairsBelow(fa, fb, lo, hi, jo, ho);
    PartnersOfGap(fa, fb, lo, hi, jo, ho);
  }

  lemma PartnersOfGap(fa: seq<bool>, fb: seq<bool>, lo: nat, hi: nat, jo: nat, ho: nat)
    requires IsGap(fa, lo, hi) && IsGap(fb, jo, ho) && Gap(fa, lo) == Gap(fb, jo)
    ensures forall x :: lo <= x < hi && x - lo < ho - jo ==> HasPartner(fa, fb, x) && Gap(fa, x) == Gap(fa, lo)
    ensures forall y :: jo <= y < ho && y - jo < hi - lo ==> IsPartner(fa, fb, y) && Gap(fb, y) == Gap(fa, lo)
  {
    hide Gap, HasPartner, IsPartner;
    forall x | lo <= x < hi && x - lo < ho - jo ensures HasPartner(fa, fb, x) && Gap(fa, x) == Gap(fa, lo) {
      GapPartners(fa, fb, lo, hi, jo, ho, x - lo);
    }
    forall y | jo <= y < ho && y - jo < hi - lo ensures IsPartner(fa, fb, y) && Gap(fb, y) == Gap(fa, lo) {
      GapPartners(fa, fb, lo, hi, jo, ho, y - jo);
    }
  }

  lemma PairsBelow(fa: seq<bool>, fb: seq<bool>, lo: nat, hi: nat, jo: nat, ho: nat)
    requires IsGap(fa, lo, hi) && IsGap(fb, jo, ho) && Gap(fa, lo) == Gap(fb, jo)
    ensures forall x: nat, y: nat :: Paired(fa, fb, x, y) && Gap(fa, x) < Gap(fa, lo) + 1 ==>
      Gap(fa, x) < Gap(fa, lo) || (lo <= x < hi && jo <= y < ho && x - lo == y - jo)
  {
    hide Gap, Place;
    forall x: nat, y: nat | Paired(fa, fb, x, y) && Gap(fa, x) < Gap(fa, lo) + 1
      ensures Gap(fa, x) < Gap(fa, lo) || (lo <= x < hi && jo <= y < ho && x - lo == y - jo)
    {
      PairBelow(fa, fb, lo, hi, jo, ho, x, y);
    }
  }

  lemma PairBelow(fa: seq<bool>, fb: seq<bool>, lo: nat, hi: nat, jo: nat, ho: nat, x: nat, y: nat)
    requires IsGap(fa, lo, hi) && IsGap(fb, jo, ho) && Gap(fa, lo) == Gap(fb, jo)
    requires Paired(fa, fb, x, y) && Gap(fa, x) < Gap(fa, lo) + 1
    ensures x < |fa| && y < |fb|
    ensures Gap(fa, x) < Gap(fa, lo) || (lo <= x < hi && jo <= y < ho && x - lo == y - jo)
  {
    hide Gap, Place;
    GapOf(fa, lo, hi, x);
    GapOf(fb, jo, ho, y);
    if Gap(fa, x) == Gap(fa, lo) {
      InsideGap(fa, lo, hi, x);
      InsideGap(fb, jo, ho, y);
    }
  }

  lemma GapPartners(fa: seq<bool>, fb: seq<bool>, lo: nat, hi: nat, jo: nat, ho: nat, k: nat)
    requires IsGap(fa, lo, hi) && IsGap(fb, jo, ho) && Gap(fa, lo) == Gap(fb, jo)
    requires k < hi - lo && k < ho - jo
    ensures HasPartner(fa, fb, lo + k) && IsPartner(fa, fb, jo + k)
    ensures Gap(fa, lo + k) == Gap(fa, lo) == Gap(fb, jo + k)
  {
    hide Gap, Place;
    InsideGap(fa, lo, hi, lo + k);
    InsideGap(fb, jo, ho, jo + k);
    assert Paired(fa, fb, lo + k, jo + k);
  }

  /** Skip the differing lines from `at` on, collecting their indices. */
  method TakeGap(lines: array<BlockLine>, ghost flags: seq<bool>, at: nat) returns (hi: nat, gap: seq<nat>)
    requires lines.Length == |flags| && forall i :: 0 <= i < |flags| ==> lines[i].same == flags[i]
    requires StartsGap(flags, at)
    ensures IsGap(flags, at, hi) && |gap| == hi - at && forall k :: 0 <= k < |gap| ==> gap[k] == at + k
  {
    hi, gap := at, [];
    while hi < lines.Length && !lines[hi].same
      invariant at <= hi <= lines.Length && (forall k :: at <= k < hi ==> !flags[k])
      invariant |gap| == hi - at && forall k :: 0 <= k < |gap| ==> gap[k] == at + k
    {
      gap := gap + [hi];
      hi := hi + 1;
    }
  }

  method MakeLines(texts: seq<string>, flags: seq<bool>) returns (lines: array<BlockLine>)
    requires |texts| == |flags|
    ensures fresh(lines) && Shows(lines, texts, flags)
    ensures forall i :: 0 <= i < lines.Length ==> lines[i].ranges == None
  {
    lines := new BlockLine[|texts|](_ => BlockLine("", false, None));
    for i := 0 to |texts|
      invariant forall k :: 0 <= k < i ==> lines[k] == BlockLine(texts[k], flags[k], None)
    {
      lines[i] := BlockLine(texts[i], flags[i], None);
    }
  }

  /** Compare the two sides of a conflict block. `mostly` says of a number of changed characters
      and a length whether that is too much of the line to highlight. */
  method DiffBlock(current: seq<string>, incoming: seq<string>, mostly: (int, nat) -> bool)
    returns (cur: array<BlockLine>, inc: array<BlockLine>)
    ensures Shows(cur, current, Flags(cur)) && Shows(inc, incoming, Flags(inc))
    ensures CommonFlags(current, incoming, Flags(cur), Flags(inc))
    ensures forall x: nat, y: nat :: Paired(Flags(cur), Flags(inc), x, y) ==> WordDiffed(cur[x], inc[y], mostly)
    ensures forall x :: 0 <= x < cur.Length && cur[x].ranges.Some? ==> HasPartner(Flags(cur), Flags(inc), x)
    ensures forall y :: 0 <= y < inc.Length && inc[y].ranges.Some? ==> IsPartner(Flags(cur), Flags(inc), y)
  {
    hide CommonFlags, Picked, WordDiffed, HasPartner, IsPartner, Gap, Place, Paired, IsGap, DoneBelow, Flags;
    var flagsA, flagsB := FlagCommon(current, incoming);
    CommonPicked(current, incoming, flagsA, flagsB);
    ghost var fa, fb := flagsA, flagsB;
    cur := MakeLines(current, flagsA);
    inc := MakeLines(incoming, flagsB);
    GapZero(fa, fb);
    var i, j := 0, 0;
    NothingBelowZero(cur, inc, fa, fb, mostly);
    while i < cur.Length || j < inc.Length
      invariant fa == flagsA && fb == flagsB && Shows(cur, current, fa) && Shows(inc, incoming, fb)
      invariant StartsGap(fa, i) && StartsGap(fb, j) && Gap(fa, i) == Gap(fb, j)
      invariant DoneBelow(cur, inc, fa, fb, mostly, Gap(fa, i))
      decreases cur.Length - i + inc.Length - j
    {
      ghost var lo, jo := i, j;
      i, j := DiffGap(cur, inc, current, incoming, fa, fb, i, j, mostly);
      GapShape(fa, lo, i);
      GapShape(fb, jo, j);
      RunOutTogether(current, incoming, fa, fb, lo, i, jo, j);
      if i < cur.Length && j < inc.Length {
        NextGap(fa, lo, i);
        NextGap(fb, jo, j);
        CommonLinesAgree(current, incoming, fa, fb, i, j);
        assert cur[i].text == inc[j].text;
        i, j := i + 1, j + 1;
      } else {
        assert i == cur.Length && j == inc.Length;
        AllBelow(fa, lo, i);
        AllDone(cur, inc, fa, fb, mostly, Gap(fa, lo) + 1);
        FlagsShown(cur, current, fa);
        FlagsShown(inc, incoming, fb);
        return;
      }
    }
    AllBelowStart(fa, i);
    AllDone(cur, inc, fa, fb, mostly, Gap(fa, i));
    FlagsShown(cur, current, fa);
    FlagsShown(inc, incoming, fb);
  }

  /** Collect the gap on both sides and word-diff its pairs. */
  method DiffGap(cur: array<BlockLine>, inc: array<BlockLine>, ghost current: seq<string>, ghost incoming: seq<string>,
      ghost fa: seq<bool>, ghost fb: seq<bool>, i: nat, j: nat, mostly: (int, nat) -> bool) returns (hi: nat, ho: nat)
    requires cur != inc && Shows(cur, current, fa) && Shows(inc, incoming, fb)
    requires StartsGap(fa, i) && StartsGap(fb, j) && Gap(fa, i) == Gap(fb, j)
    requires DoneBelow(cur, inc, fa, fb, mostly, Gap(fa, i))
    modifies cur, inc
    ensures Shows(cur, current, fa) && Shows(inc, incoming, fb)
    ensures IsGap(fa, i, hi) && IsGap(fb, j, ho)
    ensures DoneBelow(cur, inc, fa, fb, mostly, Gap(fa, i) + 1)
  {
    hide WordDiffed, HasPartner, IsPartner, Gap, Place, Paired, IsGap;
    var gapC, gapI;
    hi, gapC := TakeGap(cur, fa, i);
    ho, gapI := TakeGap(inc, fb, j);
    GapShape(fa, i, hi);
    GapShape(fb, j, ho);
    GapUntouched(cur, inc, fa, fb, mostly, i, hi, j, ho);
    PairGap(cur, inc, gapC, gapI, i, j, mostly);
    OutsideGap(fa, fb, i, hi, j, ho);
    GapDone(cur, inc, fa, fb, mostly, i, hi, j, ho);
  }

  lemma GapZero(fa: seq<bool>, fb: seq<bool>)
    ensures Gap(fa, 0) == 0 == Gap(fb, 0)
  {
  }

  lemma NextGap(f: seq<bool>, lo: nat, hi: nat)
    requires IsGap(f, lo, hi) && hi < |f|
    ensures f[hi] && StartsGap(f, hi + 1) && Gap(f, hi) == Gap(f, lo) && Gap(f, hi + 1) == Gap(f, lo) + 1
  {
    InsideGap(f, lo, hi, hi);
  }

  lemma RunOutTogether(a: seq<string>, b: seq<string>, fa: seq<bool>, fb: seq<bool>, lo: nat, hi: nat, jo: nat, ho: nat)
    requires |a| == |fa| && |b| == |fb| && Picked(a, fa) == Picked(b, fb)
    requires IsGap(fa, lo, hi) && IsGap(fb, jo, ho) && Gap(fa, lo) == Gap(fb, jo)
    ensures hi == |fa| <==> ho == |fb|
  {
    hide Picked, Gap;
    SameTotal(a, b, fa, fb);
    BothRunOut(fa, lo, hi, Gap(fa, |fa|));
    BothRunOut(fb, jo, ho, Gap(fb, |fb|));
  }

  lemma GapShape(f: seq<bool>, lo: nat, hi: nat)
    requires IsGap(f, lo, hi)
    ensures lo <= hi <= |f|
  {
  }

  lemma NothingBelowZero(cur: array<BlockLine>, inc: array<BlockLine>, fa: seq<bool>, fb: seq<bool>,
    mostly: (int, nat) -> bool)
    requires cur.Length == |fa| && inc.Length == |fb|
    requires forall x :: 0 <= x < cur.Length ==> cur[x].ranges == None
    requires forall y :: 0 <= y < inc.Length ==> inc[y].ranges == None
    ensures DoneBelow(cur, inc, fa, fb, mostly, 0)
  {
    hide WordDiffed, HasPartner, IsPartner;
  }

  lemma AllDone(cur: array<BlockLine>, inc: array<BlockLine>, fa: seq<bool>, fb: seq<bool>,
    mostly: (int, nat) -> bool, g: nat)
    requires cur.Length == |fa| && inc.Length == |fb|
    requires DoneBelow(cur, inc, fa, fb, mostly, g)
    requires forall x :: 0 <= x < |fa| && !fa[x] ==> Gap(fa, x) < g
    ensures forall x: nat, y: nat :: Paired(fa, fb, x, y) ==> WordDiffed(cur[x], inc[y], mostly)
    ensures forall x :: 0 <= x < cur.Length && cur[x].ranges.Some? ==> HasPartner(fa, fb, x)
    ensures forall y :: 0 <= y < inc.Length && inc[y].ranges.Some? ==> IsPartner(fa, fb, y)
  {
    hide WordDiffed, HasPartner, IsPartner;
  }

  /** The lines of the gap still without ranges. */
  lemma GapUntouched(cur: array<BlockLine>, inc: array<BlockLine>, fa: seq<bool>, fb: seq<bool>,
      mostly: (int, nat) -> bool,
      lo: nat, hi: nat, jo: nat, ho: nat)
    requires cur.Length == |fa| && inc.Length == |fb|
    requires IsGap(fa, lo, hi) && IsGap(fb, jo, ho) && Gap(fa, lo) == Gap(fb, jo)
    requires DoneBelow(cur, inc, fa, fb, mostly, Gap(fa, lo))
    ensures forall x :: lo <= x < hi ==> cur[x].ranges == None
    ensures forall y :: jo <= y < ho ==> inc[y].ranges == None
  {
    hide WordDiffed, HasPartner, IsPartner;
    forall x | lo <= x < hi ensures cur[x].ranges == None {
      InsideGap(fa, lo, hi, x);
    }
    forall y | jo <= y < ho ensures inc[y].ranges == None {
      InsideGap(fb, jo, ho, y);
    }
  }

  lemma OutsideGap(fa: seq<bool>, fb: seq<bool>, lo: nat, hi: nat, jo: nat, ho: nat)
    requires IsGap(fa, lo, hi) && IsGap(fb, jo, ho) && Gap(fa, lo) == Gap(fb, jo)
    ensures forall x: nat, y: nat :: Paired(fa, fb, x, y) && Gap(fa, x) < Gap(fa, lo) ==> x < lo && y < jo
  {
    forall x: nat, y: nat | Paired(fa, fb, x, y) && Gap(fa, x) < Gap(fa, lo) ensures x < lo && y < jo {
      GapOf(fa, lo, hi, x);
      GapOf(fb, jo, ho, y);
    }
  }

  lemma AllBelow(f: seq<bool>, lo: nat, hi: nat)
    requires IsGap(f, lo, hi) && hi == |f|
    ensures forall x :: 0 <= x < |f| && !f[x] ==> Gap(f, x) < Gap(f, lo) + 1
  {
    forall x | 0 <= x < |f| && !f[x] ensures Gap(f, x) < Gap(f, lo) + 1 {
      GapOf(f, lo, hi, x);
    }
  }

  lemma AllBelowStart(f: seq<bool>, lo: nat)
    requires StartsGap(f, lo) && lo == |f|
    ensures forall x :: 0 <= x < |f| && !f[x] ==> Gap(f, x) < Gap(f, lo)
  {
    forall x | 0 <= x < |f| && !f[x] ensures Gap(f, x) < Gap(f, lo) {
      BeforeStart(f, lo, x);
    }
  }
}
