/** `splitUnifiedDiff` of packages/peer-protocol/src/forge.ts: where the files of a diff begin, and what comes back
    from a diff put together from well-formed patches. */
module PatchSplit {
  import opened Lines
  import opened Options
  import opened UnifiedDiff

  /** What `^` with the m flag takes for the end of a line (ECMAScript, LineTerminator). */
  predicate Terminator(c: char) {
    c == '\n' || c == '\r' || c == '\U{2028}' || c == '\U{2029}'
  }

  function Head(): string {
    "diff --git "
  }

  predicate HeadAt(text: string, i: nat) {
    i + 11 <= |text| && text[i..i + 11] == Head()
  }

  /** `/^diff --git /gm` matches here. */
  predicate StartsAt(text: string, i: nat) {
    HeadAt(text, i) && (i == 0 || Terminator(text[i - 1]))
  }

  /** All matches from `i` on. */
  function Starts(text: string, i: nat): (r: seq<nat>)
    decreases |text| - i
  {
    if i >= |text| then [] else if StartsAt(text, i) then [i] + Starts(text, i + 1) else Starts(text, i + 1)
  }

  lemma {:induction false} StartsSkip(text: string, i: nat, j: nat)
    requires i <= j && forall k: nat :: i <= k < j ==> !StartsAt(text, k)
    ensures Starts(text, i) == Starts(text, j)
    decreases j - i
  {
    hide StartsAt;
    if i < j {
      StartsSkip(text, i + 1, j);
    }
  }

  /** Matches never overlap: one holds no line terminator. */
  lemma NoStartInside(text: string, i: nat, k: nat)
    requires StartsAt(text, i) && i < k < i + 11
    ensures !StartsAt(text, k)
  {
    HeadChars(text, i, k - 1 - i);
  }

  lemma HeadChars(text: string, i: nat, k: nat)
    requires HeadAt(text, i) && k < 11
    ensures text[i + k] == Head()[k] && !Terminator(text[i + k])
  {
    assert text[i + k] == text[i..i + 11][k];
    assert Head()[0] == 'd' && Head()[1] == 'i' && Head()[2] == 'f' && Head()[3] == 'f' && Head()[4] == ' ';
    assert Head()[5] == '-' && Head()[6] == '-' && Head()[7] == 'g' && Head()[8] == 'i' && Head()[9] == 't' &&
      Head()[10] == ' ';
  }

  /** The next match of the global regular expression, which goes on behind the last one. */
  method Exec(text: string, lastIndex: nat) returns (found: bool, index: nat)
    ensures found ==>
      lastIndex <= index < |text| && StartsAt(text, index) &&
      Starts(text, lastIndex) == [index] + Starts(text, index + 1)
    ensures !found ==> Starts(text, lastIndex) == []
  {
    hide StartsAt;
    index := lastIndex;
    while index < |text|
      invariant lastIndex <= index
      invariant forall k: nat :: lastIndex <= k < index ==> !StartsAt(text, k)
    {
      if StartsAt(text, index) {
        StartsSkip(text, lastIndex, index);
        return true, index;
      }
      index := index + 1;
    }
    StartsSkip(text, lastIndex, index);
    return false, index;
  }

  method FindStarts(text: string) returns (starts: seq<nat>)
    ensures starts == Starts(text, 0)
  {
    hide StartsAt, Starts;
    starts := [];
    var lastIndex := 0;
    var found, index := Exec(text, lastIndex);
    while found
      invariant found ==> lastIndex <= index < |text| && StartsAt(text, index)
      invariant Starts(text, 0) == if found then starts + [index] + Starts(text, index + 1) else starts
      decreases found, |text| - index
    {
      starts := starts + [index];
      lastIndex := index + 11;
      forall k: nat | index + 1 <= k < lastIndex ensures !StartsAt(text, k) {
        NoStartInside(text, index, k);
      }
      StartsSkip(text, index + 1, lastIndex);
      ghost var before := index;
      found, index := Exec(text, lastIndex);
    }
  }

  /* ---------- The split ---------- */

  /** `replace(/\n+$/, "")` */
  function TrimEnd(s: string): string
    decreases |s|
  {
    if s != "" && s[|s| - 1] == '\n' then TrimEnd(s[..|s| - 1]) else s
  }

  /** What is trimmed are line breaks, and all of them at the end. */
  lemma {:induction false} TrimEndExactly(s: string)
    ensures TrimEnd(s) <= s && forall i :: |TrimEnd(s)| <= i < |s| ==> s[i] == '\n'
    ensures TrimEnd(s) == "" || TrimEnd(s)[|TrimEnd(s)| - 1] != '\n'
    decreases |s|
  {
    if s != "" && s[|s| - 1] == '\n' {
      TrimEndExactly(s[..|s| - 1]);
    }
  }

  predicate Ascending(starts: seq<nat>, n: nat) {
    && (forall i :: 0 <= i < |starts| ==> starts[i] < n)
    && (forall i, j :: 0 <= i < j < |starts| ==> starts[i] < starts[j])
  }

  lemma {:induction false} StartsAscend(text: string, i: nat)
    ensures Ascending(Starts(text, i), |text|)
    ensures forall k :: 0 <= k < |Starts(text, i)| ==> i <= Starts(text, i)[k]
    decreases |text| - i
  {
    if i < |text| {
      StartsAscend(text, i + 1);
    }
  }

  /** The text from one match up to the next. */
  function Chunk(text: string, starts: seq<nat>, i: nat): string
    requires Ascending(starts, |text|) && i < |starts|
  {
    text[starts[i]..if i + 1 < |starts| then starts[i + 1] else |text|]
  }

  function SliceAt(text: string, starts: seq<nat>, i: nat, unquote: Unquote): Slice
    requires Ascending(starts, |text|) && i < |starts|
  {
    SliceOf(TrimEnd(Chunk(text, starts, i)), unquote)
  }

  /** One slice for every match: the specification of `SplitUnifiedDiff`. */
  function Slices(diff: string, unquote: Unquote): seq<Slice> {
    var text := Normalize(diff);
    StartsAscend(text, 0);
    var starts := Starts(text, 0);
    seq(|starts|, i requires 0 <= i < |starts| => SliceAt(text, starts, i, unquote))
  }

  method SplitUnifiedDiff(diff: string, unquote: Unquote) returns (out: seq<Slice>)
    ensures out == Slices(diff, unquote)
  {
    hide Starts, SliceOf, TrimEnd, Normalize;
    var text := Normalize(diff);
    out := [];
    var starts := FindStarts(text);
    StartsAscend(text, 0);
    var i := 0;
    while i < |starts|
      invariant 0 <= i <= |starts| && |out| == i
      invariant forall k :: 0 <= k < i ==> out[k] == SliceAt(text, starts, k, unquote)
    {
      var chunk := TrimEnd(text[starts[i]..if i + 1 < |starts| then starts[i + 1] else |text|]);
      var slice := ParseFileChunk(chunk, unquote);
      out := out + [slice];
      i := i + 1;
    }
  }

  /* ---------- Matches in a text put together from parts ---------- */

  function Concat(parts: seq<string>): string {
    if parts == [] then "" else parts[0] + Concat(parts[1..])
  }

  function Shift(starts: seq<nat>, delta: nat): seq<nat> {
    seq(|starts|, i requires 0 <= i < |starts| => starts[i] + delta)
  }

  function AllStarts(parts: seq<string>, base: nat): seq<nat> {
    if parts == [] then [] else Shift(Starts(parts[0], 0), base) + AllStarts(parts[1..], base + |parts[0]|)
  }

  predicate Ends(s: string) {
    s != "" && s[|s| - 1] == '\n'
  }

  lemma HeadShifts(pre: string, part: string, post: string, k: nat)
    requires Ends(part) && k < |part|
    ensures HeadAt(pre + part + post, |pre| + k) <==> HeadAt(part, k)
  {
    var text := pre + part + post;
    if k + 11 <= |part| {
      assert text[|pre| + k..|pre| + k + 11] == part[k..k + 11];
    } else if HeadAt(text, |pre| + k) {
      HeadChars(text, |pre| + k, |part| - 1 - k);
    }
  }

  lemma StartShifts(pre: string, part: string, post: string, k: nat)
    requires (pre == "" || Ends(pre)) && Ends(part) && k < |part|
    ensures StartsAt(pre + part + post, |pre| + k) <==> StartsAt(part, k)
  {
    hide HeadAt;
    HeadShifts(pre, part, post, k);
    if k > 0 {
      assert (pre + part + post)[|pre| + k - 1] == part[k - 1];
    }
  }

  lemma ShiftFirst(i: nat, starts: seq<nat>, delta: nat)
    ensures Shift([i] + starts, delta) == [delta + i] + Shift(starts, delta)
  {
  }

  lemma StartsNext(text: string, i: nat)
    requires i < |text|
    ensures Starts(text, i) == if StartsAt(text, i) then [i] + Starts(text, i + 1) else Starts(text, i + 1)
  {
    hide StartsAt;
  }

  lemma {:induction false} StartsOfPart(pre: string, part: string, post: string, k: nat)
    requires (pre == "" || Ends(pre)) && Ends(part) && k <= |part|
    ensures Starts(pre + part + post, |pre| + k) == Shift(Starts(part, k), |pre|)
      + Starts(pre + part + post, |pre| + |part|)
    decreases |part| - k
  {
    hide StartsAt, Ends, Starts, Shift;
    var text := pre + part + post;
    if k < |part| {
      StartShifts(pre, part, post, k);
      StartsOfPart(pre, part, post, k + 1);
      StartsNext(part, k);
      StartsNext(text, |pre| + k);
      ShiftFirst(k, Starts(part, k + 1), |pre|);
    } else {
      NoMore(part);
      ShiftNone(|pre|);
    }
  }

  lemma ShiftNone(delta: nat)
    ensures Shift([], delta) == []
  {
  }

  lemma {:induction false} StartsOfParts(pre: string, parts: seq<string>)
    requires (pre == "" || Ends(pre)) && forall i :: 0 <= i < |parts| ==> Ends(parts[i])
    ensures Starts(pre + Concat(parts), |pre|) == AllStarts(parts, |pre|)
    decreases |parts|
  {
    hide Starts, Shift;
    if parts == [] {
      assert Starts(pre, |pre|) == [] by { NoMore(pre); }
      assert pre + Concat(parts) == pre;
    } else {
      var next := pre + parts[0];
      assert pre + Concat(parts) == next + Concat(parts[1..]);
      StartsOfParts(next, parts[1..]);
      StartsOfPart(pre, parts[0], Concat(parts[1..]), 0);
    }
  }

  lemma NoMore(text: string)
    ensures Starts(text, |text|) == []
  {
  }

  /* ---------- Lines and patches as text ---------- */

  function LineText(l: string): string {
    l + "\n"
  }

  function LineTexts(lines: seq<string>): seq<string> {
    seq(|lines|, i requires 0 <= i < |lines| => LineText(lines[i]))
  }

  function TextOf(lines: seq<string>): string {
    Concat(LineTexts(lines))
  }

  predicate PlainLines(lines: seq<string>) {
    forall i :: 0 <= i < |lines| ==> '\n' !in lines[i]
  }

  lemma {:induction false} ConcatSnoc(parts: seq<string>, last: string)
    ensures Concat(parts + [last]) == Concat(parts) + last
    decreases |parts|
  {
    if parts == [] {
      assert Concat([last][1..]) == "";
    } else {
      assert (parts + [last])[1..] == parts[1..] + [last];
      ConcatSnoc(parts[1..], last);
    }
  }

  lemma TextOfSnoc(lines: seq<string>)
    requires lines != []
    ensures TextOf(lines) == TextOf(lines[..|lines| - 1]) + LineText(lines[|lines| - 1])
    ensures Ends(TextOf(lines))
  {
    var n := |lines| - 1;
    assert LineTexts(lines) == LineTexts(lines[..n]) + [LineText(lines[n])];
    ConcatSnoc(LineTexts(lines[..n]), LineText(lines[n]));
  }

  lemma SplitEnds(s: string)
    requires Ends(s)
    ensures SplitLines(s) == SplitLines(s[..|s| - 1]) + [""]
  {
  }

  lemma {:induction false} SplitText(lines: seq<string>)
    requires PlainLines(lines)
    ensures SplitLines(TextOf(lines)) == lines + [""]
    decreases |lines|
  {
    hide SplitLines;
    if lines == [] {
      SplitOne("");
      assert lines + [""] == [""];
    } else {
      var n := |lines| - 1;
      TextOfSnoc(lines);
      SplitText(lines[..n]);
      if n > 0 {
        TextOfSnoc(lines[..n]);
      }
      SplitMore(TextOf(lines[..n]), lines[n]);
      assert lines[..n] + [lines[n]] == lines;
    }
  }

  lemma SplitTail(s: string, l: string)
    requires (s == "" || Ends(s)) && '\n' !in l
    ensures SplitLines(s + l) == SplitLines(s)[..|SplitLines(s)| - 1] + [l]
  {
    if s == "" {
      SplitOne(l);
      assert s + l == l;
    } else {
      var u := s[..|s| - 1];
      SplitEnds(s);
      SplitAppend(u, l);
      assert u + "\n" == s;
      hide SplitLines;
      assert SplitLines(s)[..|SplitLines(s)| - 1] == SplitLines(u);
    }
  }

  /** One more line at the end of a text that ends with a line break. */
  lemma SplitMore(s: string, l: string)
    requires (s == "" || Ends(s)) && '\n' !in l
    ensures SplitLines(s + LineText(l)) == SplitLines(s)[..|SplitLines(s)| - 1] + [l, ""]
  {
    hide SplitLines;
    var t := s + LineText(l);
    assert t[..|t| - 1] == s + l;
    SplitEnds(t);
    SplitTail(s, l);
  }

  /* ---------- Trimming is harmless ---------- */

  lemma EmptyLineIsSilent(p: Parsing, unquote: Unquote)
    ensures Counted(p, LineStep(p, "", unquote), 0, 0)
  {
    assert HunkCounts("").None?;
    assert HeaderLine(p.(inHunk := false), "", unquote) == p.(inHunk := false);
  }

  lemma {:induction false} TrimIsSilent(p: Parsing, s: string, unquote: Unquote)
    requires s != "" && s[0] != '\n'
    ensures SplitLines(TrimEnd(s))[0] == SplitLines(s)[0]
    ensures Counted(Fold(p, SplitLines(TrimEnd(s))[1..], unquote), Fold(p, SplitLines(s)[1..], unquote), 0, 0)
    decreases |s|
  {
    hide LineStep, SplitLines;
    if s[|s| - 1] == '\n' {
      var t := s[..|s| - 1];
      TrimIsSilent(p, t, unquote);
      SplitEnds(s);
      var rest := SplitLines(s)[1..];
      assert rest[..|rest| - 1] == SplitLines(t)[1..];
      EmptyLineIsSilent(Fold(p, SplitLines(t)[1..], unquote), unquote);
    }
  }

  /** Counting apart, the slice of a text is the slice of the trimmed text. */
  lemma TrimKeepsSlice(s: string, unquote: Unquote)
    requires s != "" && s[0] != '\n'
    ensures SliceOf(TrimEnd(s), unquote) == SliceOf(s, unquote).(patch := TrimEnd(s))
  {
    hide Fold, SplitLines, GitHeader, TrimEnd;
    TrimIsSilent(Begin(GitHeader(SplitLines(s)[0], unquote)), s, unquote);
  }

  /* ---------- What comes back ---------- */

  /** What the slice of a patch must be: the paths and the status from the header lines alone, the counts from the
      hunks alone. */
  function Expected(p: Patch, unquote: Unquote): Slice {
    var text := TextOf(PatchLines(p));
    var h := Fold(Begin(GitHeader(p.first, unquote)), p.headers, unquote);
    Finish(h, TrimEnd(text)).(add := Total(p.hunks, Plus), del := Total(p.hunks, Minus))
  }

  lemma LinesAdd(p: Patch, unquote: Unquote)
    requires WellFormed(p)
    ensures var h := Fold(Begin(GitHeader(p.first, unquote)), p.headers, unquote);
      h.add == 0 && h.del == 0 &&
      Counted(h, Fold(Begin(GitHeader(p.first, unquote)), p.headers + HunkLines(p.hunks) + [""], unquote),
        Total(p.hunks, Plus), Total(p.hunks, Minus))
  {
    hide Fold, GitHeader, HunkLines, Total, LineStep, Announced;
    var start := Begin(GitHeader(p.first, unquote));
    var h := Fold(start, p.headers, unquote);
    HeadersDoNotCount(start, p.headers, unquote);
    HunksAdd(h, p.hunks, unquote);
    FoldAppend(start, p.headers, HunkLines(p.hunks), unquote);
    var all := p.headers + HunkLines(p.hunks);
    FoldEmptyLine(start, all, unquote);
  }

  lemma FoldEmptyLine(p: Parsing, lines: seq<string>, unquote: Unquote)
    ensures Counted(Fold(p, lines, unquote), Fold(p, lines + [""], unquote), 0, 0)
  {
    assert (lines + [""])[..|lines|] == lines;
    EmptyLineIsSilent(Fold(p, lines, unquote), unquote);
  }

  lemma SliceIsExpected(p: Patch, unquote: Unquote)
    requires WellFormed(p) && PlainLines(PatchLines(p))
    ensures SliceOf(TrimEnd(TextOf(PatchLines(p))), unquote) == Expected(p, unquote)
  {
    hide Fold, GitHeader, HunkLines, Total, WellFormed, TrimEnd, SplitLines;
    var lines := PatchLines(p);
    var text := TextOf(lines);
    SplitText(lines);
    LinesAdd(p, unquote);
    assert (lines + [""])[1..] == p.headers + HunkLines(p.hunks) + [""];
    FirstChar(p);
    TrimKeepsSlice(text, unquote);
  }

  lemma FirstChar(p: Patch)
    requires WellFormed(p)
    ensures TextOf(PatchLines(p)) != "" && TextOf(PatchLines(p))[0] == 'd'
  {
    var lines := PatchLines(p);
    assert LineTexts(lines)[0] == LineText(p.first);
    assert p.first[..11][0] == 'd';
  }

  /* ---------- Which patches come back ---------- */

  /** No match begins in the line: it does not start with `diff --git `, and no stray line terminator stands right in
      front of one. */
  ghost predicate Quiet(l: string) {
    forall k: nat :: k < |l| ==> !StartsAt(l, k)
  }

  ghost predicate OnlyFirst(l: string) {
    StartsAt(l, 0) && forall k: nat :: 0 < k < |l| ==> !StartsAt(l, k)
  }

  ghost predicate Undisturbed(p: Patch) {
    && OnlyFirst(p.first)
    && (forall i :: 1 <= i < |PatchLines(p)| ==> Quiet(PatchLines(p)[i]))
  }

  lemma StartsInLine(l: string, k: nat)
    requires '\n' !in l && k <= |l|
    ensures StartsAt(LineText(l), k) <==> k < |l| && StartsAt(l, k)
  {
    var t := LineText(l);
    if k + 11 <= |l| {
      assert t[k..k + 11] == l[k..k + 11];
    } else if HeadAt(t, k) {
      HeadChars(t, k, |l| - k);
    }
  }

  lemma {:induction false} StartsEmpty(text: string, i: nat)
    ensures Starts(text, i) == [] <==> forall k: nat :: i <= k < |text| ==> !StartsAt(text, k)
    decreases |text| - i
  {
    hide StartsAt;
    if i < |text| {
      StartsEmpty(text, i + 1);
    }
  }

  lemma NotEmpty(l: string)
    requires StartsAt(l, 0)
    ensures l != ""
  {
  }

  lemma LineStarts(l: string)
    requires '\n' !in l
    ensures Starts(LineText(l), 0) == [] <==> Quiet(l)
    ensures StartsAt(l, 0) ==> (|Starts(LineText(l), 0)| > 0 && Starts(LineText(l), 0)[0] == 0)
    ensures StartsAt(l, 0) ==> (|Starts(LineText(l), 0)| == 1 <==> OnlyFirst(l))
  {
    hide StartsAt;
    forall k: nat | k <= |l| ensures StartsAt(LineText(l), k) <==> k < |l| && StartsAt(l, k) {
      StartsInLine(l, k);
    }
    StartsEmpty(LineText(l), 0);
    StartsEmpty(LineText(l), 1);
    if StartsAt(l, 0) {
      NotEmpty(l);
      assert StartsAt(LineText(l), 0);
      assert Starts(LineText(l), 0) == [0] + Starts(LineText(l), 1);
    }
  }

  lemma {:induction false} NoneInParts(parts: seq<string>, base: nat)
    ensures AllStarts(parts, base) == [] <==> forall i :: 0 <= i < |parts| ==> Starts(parts[i], 0) == []
    decreases |parts|
  {
    hide Starts;
    if parts != [] {
      NoneInParts(parts[1..], base + |parts[0]|);
      assert forall i :: 1 <= i < |parts| ==> parts[i] == parts[1..][i - 1];
      if forall i :: 0 <= i < |parts| ==> Starts(parts[i], 0) == [] {
        assert forall i :: 0 <= i < |parts| - 1 ==> parts[1..][i] == parts[i + 1];
      }
    }
  }

  lemma TextStarts(lines: seq<string>)
    ensures Starts(TextOf(lines), 0) == AllStarts(LineTexts(lines), 0)
  {
    hide Starts, AllStarts;
    StartsOfParts("", LineTexts(lines));
    assert "" + TextOf(lines) == TextOf(lines);
  }

  /** One match in the text of a patch, its own, exactly when none of its lines disturbs it. */
  lemma PatchStarts(p: Patch)
    requires StartsWith(p.first, "diff --git ") && PlainLines(PatchLines(p))
    ensures |Starts(TextOf(PatchLines(p)), 0)| >= 1 && Starts(TextOf(PatchLines(p)), 0)[0] == 0
    ensures |Starts(TextOf(PatchLines(p)), 0)| == 1 <==> Undisturbed(p)
  {
    var lines := PatchLines(p);
    TextStarts(lines);
    var parts := LineTexts(lines);
    assert parts[0] == LineText(p.first);
    assert StartsAt(p.first, 0);
    LineStarts(p.first);
    NoneInParts(parts[1..], |parts[0]|);
    hide Starts, StartsAt, Quiet, OnlyFirst, PatchLines;
    forall i | 1 <= i < |lines| ensures Starts(parts[1..][i - 1], 0) == [] <==> Quiet(lines[i]) {
      LineStarts(lines[i]);
    }
    assert forall i :: 0 <= i < |parts| - 1 ==> (Starts(parts[1..][i], 0) == [] <==> Quiet(lines[i + 1]));
  }

  function PatchTexts(patches: seq<Patch>): seq<string> {
    seq(|patches|, i requires 0 <= i < |patches| => TextOf(PatchLines(patches[i])))
  }

  /** The diff that consists of these patches. */
  function DiffOf(patches: seq<Patch>): string {
    Concat(PatchTexts(patches))
  }

  /** Where part `i` begins. */
  function Offset(parts: seq<string>, i: nat): nat
    requires i <= |parts|
  {
    if i == 0 then 0 else |parts[0]| + Offset(parts[1..], i - 1)
  }

  lemma {:induction false} PartAt(parts: seq<string>, i: nat)
    requires i < |parts|
    ensures Offset(parts, i) <= Offset(parts, i + 1) <= |Concat(parts)|
    ensures Concat(parts)[Offset(parts, i)..Offset(parts, i + 1)] == parts[i]
    ensures i + 1 == |parts| ==> Offset(parts, i + 1) == |Concat(parts)|
    decreases |parts|
  {
    var first, rest := parts[0], parts[1..];
    assert Concat(parts) == first + Concat(rest);
    if i > 0 {
      PartAt(rest, i - 1);
      SliceBehind(first, Concat(rest), Offset(rest, i - 1), Offset(rest, i));
    } else {
      assert Offset(rest, 0) == 0;
      assert (first + Concat(rest))[..|first|] == first;
      if |parts| == 1 {
        assert Concat(rest) == "";
      }
    }
  }

  lemma SliceBehind(a: string, b: string, i: nat, j: nat)
    requires i <= j <= |b|
    ensures (a + b)[|a| + i..|a| + j] == b[i..j]
  {
  }

  lemma {:induction false} StartsAtOffsets(parts: seq<string>, base: nat)
    requires forall i :: 0 <= i < |parts| ==> |Starts(parts[i], 0)| >= 1 && Starts(parts[i], 0)[0] == 0
    ensures |AllStarts(parts, base)| >= |parts|
    ensures |AllStarts(parts, base)| == |parts| <==> forall i :: 0 <= i < |parts| ==> |Starts(parts[i], 0)| == 1
    ensures |AllStarts(parts, base)| == |parts| ==> forall i :: 0 <= i < |parts| ==>
      AllStarts(parts, base)[i] == base + Offset(parts, i)
    decreases |parts|
  {
    hide Starts;
    if parts != [] {
      StartsAtOffsets(parts[1..], base + |parts[0]|);
      assert forall i :: 1 <= i < |parts| ==> parts[i] == parts[1..][i - 1];
      assert forall i :: 0 <= i < |parts| - 1 ==> parts[1..][i] == parts[i + 1];
    }
  }

  /* ---------- Carriage returns ---------- */

  /** A line as it is once `\r\n` counts as a line break. */
  function DropReturn(l: string): string {
    if l != "" && l[|l| - 1] == '\r' then l[..|l| - 1] else l
  }

  function DropReturns(lines: seq<string>): seq<string> {
    seq(|lines|, i requires 0 <= i < |lines| => DropReturn(lines[i]))
  }

  lemma NormalizeNone()
    ensures Normalize("") == ""
  {
  }

  lemma NormalizeEnd(t: string)
    requires Ends(t)
    ensures |t| >= 2 && t[|t| - 2] == '\r' ==> Normalize(t) == Normalize(t[..|t| - 2]) + "\n"
    ensures !(|t| >= 2 && t[|t| - 2] == '\r') ==> Normalize(t) == Normalize(t[..|t| - 1]) + "\n"
  {
  }

  lemma NormalizeLine(s: string, l: string)
    requires (s == "" || Ends(s)) && '\n' !in l
    ensures Normalize(s + LineText(l)) == Normalize(s) + LineText(DropReturn(l))
  {
    hide Normalize;
    var t := s + LineText(l);
    NormalizeEnd(t);
    NormalizeTail(s, DropReturn(l));
    if l != "" && l[|l| - 1] == '\r' {
      assert t[..|t| - 2] == s + DropReturn(l);
    } else {
      assert t[..|t| - 1] == s + l;
      if l == "" && s != "" {
        assert t[|t| - 2] == s[|s| - 1];
      }
    }
  }

  /** Normalizing drops one carriage return at the end of each line, and nothing else. */
  lemma {:induction false} NormalizeText(lines: seq<string>)
    requires PlainLines(lines)
    ensures Normalize(TextOf(lines)) == TextOf(DropReturns(lines))
    decreases |lines|
  {
    hide Normalize, LineText, DropReturn;
    if lines != [] {
      var n := |lines| - 1;
      TextOfSnoc(lines);
      if n > 0 {
        TextOfSnoc(lines[..n]);
      }
      NormalizeText(lines[..n]);
      NormalizeLine(TextOf(lines[..n]), lines[n]);
      TextOfSnoc(DropReturns(lines));
      assert DropReturns(lines)[..n] == DropReturns(lines[..n]);
    } else {
      assert TextOf(lines) == "" == TextOf(DropReturns(lines));
      NormalizeNone();
    }
  }

  /* ---------- The round trip ---------- */

  predicate NoReturns(lines: seq<string>) {
    forall i :: 0 <= i < |lines| ==> DropReturn(lines[i]) == lines[i]
  }

  function AllLines(patches: seq<Patch>): seq<string>
    decreases |patches|
  {
    if patches == [] then [] else PatchLines(patches[0]) + AllLines(patches[1..])
  }

  lemma {:induction false} ConcatAppend(a: seq<string>, b: seq<string>)
    ensures Concat(a + b) == Concat(a) + Concat(b)
    decreases |a|
  {
    if a == [] {
      assert a + b == b;
    } else {
      assert (a + b)[1..] == a[1..] + b;
      ConcatAppend(a[1..], b);
    }
  }

  lemma {:induction false} DiffIsText(patches: seq<Patch>)
    ensures DiffOf(patches) == TextOf(AllLines(patches))
    decreases |patches|
  {
    hide PatchLines, LineText;
    if patches != [] {
      var first, rest := PatchLines(patches[0]), AllLines(patches[1..]);
      DiffIsText(patches[1..]);
      assert LineTexts(first + rest) == LineTexts(first) + LineTexts(rest);
      ConcatAppend(LineTexts(first), LineTexts(rest));
      assert PatchTexts(patches)[1..] == PatchTexts(patches[1..]);
    }
  }

  /** A diff of well-formed patches, the lines of which end with a line break alone. */
  ghost predicate Readable(patches: seq<Patch>) {
    forall i :: 0 <= i < |patches| ==>
      WellFormed(patches[i]) && PlainLines(PatchLines(patches[i])) && NoReturns(PatchLines(patches[i]))
  }

  lemma {:induction false} AllLinesPlain(patches: seq<Patch>)
    requires Readable(patches)
    ensures PlainLines(AllLines(patches)) && NoReturns(AllLines(patches))
    decreases |patches|
  {
    hide PatchLines, DropReturn, WellFormed;
    if patches != [] {
      AllLinesPlain(patches[1..]);
    }
  }

  lemma NothingToNormalize(patches: seq<Patch>)
    requires Readable(patches)
    ensures Normalize(DiffOf(patches)) == DiffOf(patches)
  {
    hide Readable, DropReturn, Normalize;
    AllLinesPlain(patches);
    DiffIsText(patches);
    var lines := AllLines(patches);
    NormalizeText(lines);
    assert DropReturns(lines) == lines;
  }

  lemma DiffStarts(patches: seq<Patch>)
    requires Readable(patches)
    ensures Starts(DiffOf(patches), 0) == AllStarts(PatchTexts(patches), 0)
    ensures |Starts(DiffOf(patches), 0)| >= |patches|
    ensures |Starts(DiffOf(patches), 0)| == |patches| <==> forall i :: 0 <= i < |patches| ==> Undisturbed(patches[i])
    ensures |Starts(DiffOf(patches), 0)| == |patches| ==>
      forall i :: 0 <= i < |patches| ==> Starts(DiffOf(patches), 0)[i] == Offset(PatchTexts(patches), i)
  {
    hide Starts, AllStarts, Undisturbed, PatchLines, Offset;
    var parts := PatchTexts(patches);
    forall i | 0 <= i < |patches|
      ensures Ends(parts[i]) && |Starts(parts[i], 0)| >= 1 && Starts(parts[i], 0)[0] == 0
      ensures |Starts(parts[i], 0)| == 1 <==> Undisturbed(patches[i])
    {
      PatchStarts(patches[i]);
      PatchHasLines(patches[i]);
      TextOfSnoc(PatchLines(patches[i]));
    }
    StartsOfParts("", parts);
    assert "" + Concat(parts) == Concat(parts);
    StartsAtOffsets(parts, 0);
  }

  lemma PatchHasLines(p: Patch)
    ensures PatchLines(p) != []
  {
  }

  function AllExpected(patches: seq<Patch>, unquote: Unquote): seq<Slice> {
    seq(|patches|, i requires 0 <= i < |patches| => Expected(patches[i], unquote))
  }

  /** The split undoes putting patches together: every patch comes back in order, its paths and status read from its
      headers and its counts from its hunks, exactly when no line of a patch is taken for the start of another. */
  lemma PatchesReadBack(patches: seq<Patch>, unquote: Unquote)
    requires Readable(patches)
    ensures Slices(DiffOf(patches), unquote) == AllExpected(patches, unquote)
      <==> forall i :: 0 <= i < |patches| ==> Undisturbed(patches[i])
  {
    hide Starts, Normalize, SliceOf, Expected, Undisturbed, Offset, Ascending, WellFormed, PatchLines, Concat;
    var text := DiffOf(patches);
    var parts := PatchTexts(patches);
    NothingToNormalize(patches);
    DiffStarts(patches);
    StartsAscend(text, 0);
    var starts := Starts(text, 0);
    if |starts| == |patches| {
      forall i | 0 <= i < |patches| ensures Slices(text, unquote)[i] == Expected(patches[i], unquote) {
        ChunkIsPart(patches, i);
        SliceIsExpected(patches[i], unquote);
      }
    }
  }

  lemma ChunkIsPart(patches: seq<Patch>, i: nat)
    requires i < |patches| && Ascending(Starts(DiffOf(patches), 0), |DiffOf(patches)|)
    requires |Starts(DiffOf(patches), 0)| == |patches|
    requires forall k :: 0 <= k < |patches| ==> Starts(DiffOf(patches), 0)[k] == Offset(PatchTexts(patches), k)
    ensures Chunk(DiffOf(patches), Starts(DiffOf(patches), 0), i) == TextOf(PatchLines(patches[i]))
  {
    hide Starts, PatchLines, Offset;
    PartAt(PatchTexts(patches), i);
  }

  /** A line of a hunk that holds no stray line terminator disturbs nothing, not even one that reads like a header. */
  lemma DiffLineIsQuiet(l: string)
    requires l != "" && l[0] != 'd' && forall k :: 0 <= k < |l| ==> !Terminator(l[k])
    ensures Quiet(l)
  {
    forall k: nat | k < |l| ensures !StartsAt(l, k) {
      if HeadAt(l, k) {
        HeadChars(l, k, 0);
      }
    }
  }

  /** An added line that holds a line separator (U+2028) in front of the words `diff --git `. */
  function Stray(): string {
    "+\U{2028}diff --git "
  }

  /** The promise fails for such a line: the patch is well-formed, and it comes back in two pieces. */
  lemma SeparatorSplitsAPatch(unquote: Unquote)
    ensures var p := Patch("diff --git a/x b/x", [], [Hunk("@@ -0,0 +1 @@", [Stray()])]);
      Readable([p]) && Slices(DiffOf([p]), unquote) != AllExpected([p], unquote)
  {
    hide HunkCounts, Slices, AllExpected;
    SampleHeader();
    var header := "@@ -0,0 +1 @@";
    var h := Hunk(header, [Stray()]);
    var p := Patch("diff --git a/x b/x", [], [h]);
    StrayIsAnnounced(h);
    assert p.hunks[..0] == [];
    assert HunkLines(p.hunks) == [header, Stray()];
    assert PatchLines(p) == [p.first, header, Stray()];
    assert p.first[..11] == "diff --git ";
    StrayStarts();
    NoBreaks();
    hide Stray, DropReturn;
    assert PlainLines(PatchLines(p));
    assert NoReturns(PatchLines(p));
    assert Readable([p]);
    PatchesReadBack([p], unquote);
    assert !Quiet(PatchLines(p)[2]);
  }

  lemma NoBreaks()
    ensures DropReturn("diff --git a/x b/x") == "diff --git a/x b/x" && DropReturn("@@ -0,0 +1 @@") == "@@ -0,0 +1 @@"
    ensures '\n' !in "diff --git a/x b/x" && '\n' !in "@@ -0,0 +1 @@"
  {
  }

  lemma StrayIsAnnounced(h: Hunk)
    requires HunkCounts(h.header) == Some((0, 1)) && h.body == [Stray()]
    ensures Announced(h)
  {
    hide HunkCounts;
    var l := Stray();
    assert KindOf(l) == Plus by { assert l[..1] == "+"; }
    hide KindOf, Stray;
    CountOne(l, Plus);
    CountOne(l, Minus);
    CountOne(l, Context);
  }

  lemma CountOne(l: string, k: Kind)
    ensures Count([l], k) == if KindOf(l) == k then 1 else 0
  {
    assert [l][..0] == [];
    assert Count([l][..0], k) == 0;
  }

  lemma SampleHeader()
    ensures HunkCounts("@@ -0,0 +1 @@") == Some((0, 1))
  {
    var h := "@@ -0,0 +1 @@";
    assert h[..4] == "@@ -";
    assert h[4..][3..] == h[7..];
    assert DigitsEnd(h, 4) == 5 && DigitsEnd(h, 6) == 7;
    assert h[6..7] == "0";
    assert CountAt(h, 4) == Some((Decimal("0"), 7));
    assert Decimal("0") == 0;
    assert h[7..][..2] == " +";
    assert DigitsEnd(h, 9) == 10;
    assert CountAt(h, 9) == Some((1, 10));
    assert h[10..][..3] == " @@";
  }

  lemma StrayStarts()
    ensures StartsAt(Stray(), 2) && '\n' !in Stray() && DropReturn(Stray()) == Stray()
  {
    var s := Stray();
    assert s[2..13] == Head();
  }
}
