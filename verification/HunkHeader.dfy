/** Hunks as git writes them: the header from numbers, the body from lines that are kept, removed or added; and that
    `parseFileChunk` of packages/peer-protocol/src/forge.ts reads the numbers back. */
module HunkHeader {
  import opened Options
  import opened UnifiedDiff

  /* ---------- Numerals ---------- */

  function Digit(d: nat): char
    requires d < 10
  {
    "0123456789"[d]
  }

  /** A number in decimal, without leading zeros. */
  function Numeral(n: nat): string {
    if n < 10 then [Digit(n)] else Numeral(n / 10) + [Digit(n % 10)]
  }

  predicate AllDigits(s: string) {
    forall i :: 0 <= i < |s| ==> '0' <= s[i] <= '9'
  }

  lemma DigitIsDigit(d: nat)
    requires d < 10
    ensures '0' <= Digit(d) <= '9' && Digit(d) as int - '0' as int == d
  {
  }

  lemma {:induction false} NumeralIsRead(n: nat)
    ensures Numeral(n) != "" && AllDigits(Numeral(n)) && Decimal(Numeral(n)) == n
  {
    hide Digit;
    DigitIsDigit(n % 10);
    if n < 10 {
      assert [Digit(n)][..0] == "";
    } else {
      NumeralIsRead(n / 10);
      var front := Numeral(n / 10);
      assert (front + [Digit(n % 10)])[..|front|] == front;
    }
  }

  /* ---------- Ranges ---------- */

  /** A line number and a count; the count may be left out, and is 1 then. */
  function Range(start: nat, count: Option<nat>): string {
    Numeral(start) + if count.Some? then "," + Numeral(count.value) else ""
  }

  /** How many lines a range stands for. */
  function Extent(count: Option<nat>): nat {
    if count.Some? then count.value else 1
  }

  function HeaderText(a: nat, b: Option<nat>, c: nat, d: Option<nat>, rest: string): string {
    "@@ -" + Range(a, b) + " +" + Range(c, d) + " @@" + rest
  }

  /** The digits at `i` end where another character follows. */
  lemma {:induction false} DigitsEndAt(l: string, i: nat, e: nat)
    requires i <= e <= |l| && AllDigits(l[i..e]) && (e < |l| ==> !('0' <= l[e] <= '9'))
    ensures DigitsEnd(l, i) == e
    decreases e - i
  {
    if i < e {
      assert l[i] == l[i..e][0];
      assert l[i..e][1..] == l[i + 1..e];
      DigitsEndAt(l, i + 1, e);
    }
  }

  /** Where a range stands in a line and a space follows, its count is read and its end found. */
  lemma RangeIsRead(p: string, start: nat, count: Option<nat>, rest: string)
    requires rest != "" && rest[0] == ' '
    ensures var l := p + Range(start, count) + rest;
      CountAt(l, |p|) == Some((Extent(count), |p| + |Range(start, count)|))
  {
    hide Numeral, Decimal, DigitsEnd;
    var n := Numeral(start);
    NumeralIsRead(start);
    if count.None? {
      var l := p + Range(start, count) + rest;
      assert Range(start, count) == n;
      Placed(p, n, rest);
      DigitsEndAt(l, |p|, |p| + |n|);
    } else {
      var m := Numeral(count.value);
      NumeralIsRead(count.value);
      var l := p + Range(start, count) + rest;
      assert l == p + n + ("," + m + rest) && l == (p + n + ",") + m + rest;
      Placed(p, n, "," + m + rest);
      Placed(p + n + ",", m, rest);
      DigitsEndAt(l, |p|, |p| + |n|);
      DigitsEndAt(l, |p| + |n| + 1, |p| + |n| + 1 + |m|);
    }
  }

  lemma Placed(a: string, b: string, c: string)
    requires c != ""
    ensures (a + b + c)[|a|..|a| + |b|] == b && (a + b + c)[|a| + |b|] == c[0] && |a + b + c| > |a| + |b|
  {
  }

  /** The counts of a header are read back. */
  lemma HeaderIsRead(a: nat, b: Option<nat>, c: nat, d: Option<nat>, rest: string)
    ensures HunkCounts(HeaderText(a, b, c, d, rest)) == Some((Extent(b), Extent(d)))
  {
    hide Range, CountAt, Extent;
    var l := HeaderText(a, b, c, d, rest);
    var p, q := "@@ -", "@@ -" + Range(a, b) + " +";
    var tail := " +" + Range(c, d) + " @@" + rest;
    assert l == p + Range(a, b) + tail && l == q + Range(c, d) + (" @@" + rest);
    RangeIsRead(p, a, b, tail);
    RangeIsRead(q, c, d, " @@" + rest);
    assert l[..4] == p;
    assert l[|p| + |Range(a, b)|..] == tail && tail[..2] == " +";
    assert l[|q| + |Range(c, d)|..] == " @@" + rest && (" @@" + rest)[..3] == " @@";
  }

  /* ---------- Hunks ---------- */

  /** A line of a hunk: in both files, only in the old one, only in the new one, or the remark that a file does not end
      with a line break. */
  datatype HunkEntry = Kept(text: string) | Removed(text: string) | Added(text: string) | NoNewline

  function EntryText(e: HunkEntry): string {
    match e
    case Kept(x) => " " + x
    case Removed(x) => "-" + x
    case Added(x) => "+" + x
    case NoNewline => "\\ No newline at end of file"
  }

  function EntryTexts(entries: seq<HunkEntry>): seq<string> {
    seq(|entries|, i requires 0 <= i < |entries| => EntryText(entries[i]))
  }

  /** The lines of the old file, of the new one, and those that differ. */
  function OldLines(entries: seq<HunkEntry>): nat
    decreases |entries|
  {
    if entries == [] then 0
    else
      var e := entries[|entries| - 1];
      OldLines(entries[..|entries| - 1]) + if e.Kept? || e.Removed? then 1 else 0
  }

  function NewLines(entries: seq<HunkEntry>): nat
    decreases |entries|
  {
    if entries == [] then 0
    else
      var e := entries[|entries| - 1];
      NewLines(entries[..|entries| - 1]) + if e.Kept? || e.Added? then 1 else 0
  }

  function RemovedLines(entries: seq<HunkEntry>): nat
    decreases |entries|
  {
    if entries == [] then 0
    else RemovedLines(entries[..|entries| - 1]) + if entries[|entries| - 1].Removed? then 1 else 0
  }

  function AddedLines(entries: seq<HunkEntry>): nat
    decreases |entries|
  {
    if entries == [] then 0
    else AddedLines(entries[..|entries| - 1]) + if entries[|entries| - 1].Added? then 1 else 0
  }

  /** A hunk: where it starts in both files, its lines, and what stands behind the header. A count of 1 may be left
      out. */
  datatype GitHunk = GitHunk(oldStart: nat, newStart: nat, entries: seq<HunkEntry>, short: bool, section: string)

  function Stated(n: nat, short: bool): Option<nat> {
    if short && n == 1 then None else Some(n)
  }

  function HunkOf(g: GitHunk): Hunk {
    Hunk(HeaderText(g.oldStart, Stated(OldLines(g.entries), g.short), g.newStart,
        Stated(NewLines(g.entries), g.short), g.section), EntryTexts(g.entries))
  }

  lemma EntryKind(e: HunkEntry)
    ensures KindOf(EntryText(e)) == match e
      case Kept(_) => Context
      case Removed(_) => Minus
      case Added(_) => Plus
      case NoNewline => Mark
  {
    assert EntryText(e)[0] == match e
      case Kept(_) => ' '
      case Removed(_) => '-'
      case Added(_) => '+'
      case NoNewline => '\\';
  }

  /** Each line counts as what it is. */
  lemma {:induction false} EntriesCount(entries: seq<HunkEntry>)
    ensures Count(EntryTexts(entries), Plus) == AddedLines(entries)
    ensures Count(EntryTexts(entries), Minus) == RemovedLines(entries)
    ensures Olds(EntryTexts(entries)) == OldLines(entries) && News(EntryTexts(entries)) == NewLines(entries)
    decreases |entries|
  {
    hide EntryText, KindOf;
    if entries != [] {
      var n := |entries| - 1;
      EntriesCount(entries[..n]);
      EntryKind(entries[n]);
      assert EntryTexts(entries)[..n] == EntryTexts(entries[..n]);
    }
  }

  /** The header that git writes announces the lines that follow. */
  lemma HunkIsAnnounced(g: GitHunk)
    ensures Announced(HunkOf(g))
  {
    hide HeaderText, EntryTexts, OldLines, NewLines, Olds, News, HunkCounts;
    EntriesCount(g.entries);
    HeaderIsRead(g.oldStart, Stated(OldLines(g.entries), g.short), g.newStart, Stated(NewLines(g.entries), g.short),
      g.section);
  }

  function HunksOf(hunks: seq<GitHunk>): seq<Hunk> {
    seq(|hunks|, i requires 0 <= i < |hunks| => HunkOf(hunks[i]))
  }

  function AllAdded(hunks: seq<GitHunk>): nat
    decreases |hunks|
  {
    if hunks == [] then 0 else AllAdded(hunks[..|hunks| - 1]) + AddedLines(hunks[|hunks| - 1].entries)
  }

  function AllRemoved(hunks: seq<GitHunk>): nat
    decreases |hunks|
  {
    if hunks == [] then 0 else AllRemoved(hunks[..|hunks| - 1]) + RemovedLines(hunks[|hunks| - 1].entries)
  }

  lemma {:induction false} HunksCount(hunks: seq<GitHunk>)
    ensures Total(HunksOf(hunks), Plus) == AllAdded(hunks) && Total(HunksOf(hunks), Minus) == AllRemoved(hunks)
    ensures forall i :: 0 <= i < |hunks| ==> Announced(HunksOf(hunks)[i])
    decreases |hunks|
  {
    hide AddedLines, RemovedLines, EntryTexts, Announced, HeaderText;
    if hunks != [] {
      var n := |hunks| - 1;
      HunksCount(hunks[..n]);
      EntriesCount(hunks[n].entries);
      HunkIsAnnounced(hunks[n]);
      assert HunksOf(hunks)[..n] == HunksOf(hunks[..n]);
    }
  }
}
