/** `splitUnifiedDiff` and `parseFileChunk` of packages/peer-protocol/src/forge.ts. Characters
    stand for UTF-16 code units; the decoding of quoted paths is a parameter. */
module UnifiedDiff {
  import opened Lines
  import opened Options

  datatype Status = Added | Deleted | Modified | Renamed | Copied

  datatype Slice = Slice(path: string, previous: Option<string>, status: Status, binary: bool, add: nat, del: nat,
    patch: string)

  type Unquote = string -> string

  predicate StartsWith(s: string, p: string) {
    |p| <= |s| && s[..|p|] == p
  }

  function StripPrefix(p: string, prefix: string): string {
    if StartsWith(p, prefix) then p[|prefix|..] else p
  }

  /** The text behind a prefix of `n` characters. */
  function After(s: string, n: nat): string {
    if n <= |s| then s[n..] else ""
  }

  /* ---------- Hunk headers ---------- */

  function DigitsEnd(l: string, i: nat): (e: nat)
    requires i <= |l|
    ensures i <= e <= |l|
    decreases |l| - i
  {
    if i < |l| && '0' <= l[i] <= '9' then DigitsEnd(l, i + 1) else i
  }

  function Decimal(s: string): nat
    decreases |s|
  {
    if s == "" then 0
    else
      var c := s[|s| - 1];
      10 * Decimal(s[..|s| - 1]) + (if '0' <= c <= '9' then c as int - '0' as int else 0)
  }

  /** A line number with an optional count, which is 1 when absent; and where it ends. */
  function CountAt(l: string, i: nat): Option<(nat, nat)>
    requires i <= |l|
  {
    var d := DigitsEnd(l, i);
    if d == i then None
    else if d < |l| && l[d] == ',' && DigitsEnd(l, d + 1) > d + 1
      then Some((Decimal(l[d + 1..DigitsEnd(l, d + 1)]), DigitsEnd(l, d + 1)))
    else Some((1, d))
  }

  /** The old and new line counts of a hunk header. */
  function HunkCounts(l: string): Option<(nat, nat)> {
    if !StartsWith(l, "@@ -") then None
    else
      var old_ := CountAt(l, 4);
      if old_.None? || old_.value.1 > |l| || !StartsWith(l[old_.value.1..], " +") then None
      else
        var new_ := CountAt(l, old_.value.1 + 2);
        if new_.None? || new_.value.1 > |l| || !StartsWith(l[new_.value.1..], " @@") then None
        else Some((old_.value.0, new_.value.0))
  }

  /* ---------- One file ---------- */

  /** The variables of the loop over the lines. */
  datatype Parsing = Parsing(oldPath: Option<string>, newPath: Option<string>, status: Status, binary: bool,
    add: nat, del: nat, inHunk: bool, oldLeft: int, newLeft: int)

  predicate Counting(p: Parsing) {
    p.inHunk && (p.oldLeft > 0 || p.newLeft > 0)
  }

  function HunkLine(p: Parsing, l: string): Parsing {
    if StartsWith(l, "+") then p.(add := p.add + 1, newLeft := p.newLeft - 1)
    else if StartsWith(l, "-") then p.(del := p.del + 1, oldLeft := p.oldLeft - 1)
    else if StartsWith(l, "\\") then p
    else p.(oldLeft := p.oldLeft - 1, newLeft := p.newLeft - 1)
  }

  function HeaderLine(p: Parsing, l: string, unquote: Unquote): Parsing {
    if StartsWith(l, "new file mode") then p.(status := Added)
    else if StartsWith(l, "deleted file mode") then p.(status := Deleted)
    else if StartsWith(l, "rename from ") then p.(status := Renamed, oldPath := Some(unquote(After(l, 12))))
    else if StartsWith(l, "rename to ") then p.(status := Renamed, newPath := Some(unquote(After(l, 10))))
    else if StartsWith(l, "copy from ") then p.(status := Copied, oldPath := Some(unquote(After(l, 10))))
    else if StartsWith(l, "copy to ") then p.(status := Copied, newPath := Some(unquote(After(l, 8))))
    else if StartsWith(l, "--- ") then
      var q := StripPrefix(unquote(After(l, 4)), "a/");
      if q != "/dev/null" then p.(oldPath := Some(q)) else p.(status := Added)
    else if StartsWith(l, "+++ ") then
      var q := StripPrefix(unquote(After(l, 4)), "b/");
      if q != "/dev/null" then p.(newPath := Some(q)) else p.(status := Deleted)
    else if StartsWith(l, "Binary files ") || l == "GIT binary patch" then p.(binary := true)
    else p
  }

  function LineStep(p: Parsing, l: string, unquote: Unquote): Parsing {
    if Counting(p) then HunkLine(p, l)
    else
      var h := HunkCounts(l);
      if h.Some? then p.(inHunk := true, oldLeft := h.value.0, newLeft := h.value.1)
      else HeaderLine(p.(inHunk := false), l, unquote)
  }

  function Fold(p: Parsing, lines: seq<string>, unquote: Unquote): Parsing
    decreases |lines|
  {
    if lines == [] then p else LineStep(Fold(p, lines[..|lines| - 1], unquote), lines[|lines| - 1], unquote)
  }

  function PathOf(p: Parsing): string {
    var first, second := if p.status == Deleted then p.oldPath else p.newPath, if p.status == Deleted then p.newPath
      else p.oldPath;
    if first.Some? then first.value else if second.Some? then second.value else ""
  }

  function Finish(p: Parsing, chunk: string): Slice {
    var path := PathOf(p);
    var previous := if (p.status == Renamed || p.status == Copied) && p.oldPath.Some? && p.oldPath.value != "" &&
      p.oldPath.value != path
      then p.oldPath else None;
    Slice(path, previous, p.status, p.binary, p.add, p.del, chunk)
  }

  /** The start of the loop: the paths of the `diff --git` line, if it has any. */
  function Begin(paths: Option<(string, string)>): Parsing {
    Parsing(if paths.Some? then Some(paths.value.0) else None, if paths.Some? then Some(paths.value.1) else None,
      Modified, false, 0, 0, false, 0, 0)
  }

  lemma {:induction false} FoldAppend(p: Parsing, a: seq<string>, b: seq<string>, unquote: Unquote)
    ensures Fold(p, a + b, unquote) == Fold(Fold(p, a, unquote), b, unquote)
    decreases |b|
  {
    hide LineStep;
    if b == [] {
      assert a + b == a;
    } else {
      assert (a + b)[..|a + b| - 1] == a + b[..|b| - 1];
      FoldAppend(p, a, b[..|b| - 1], unquote);
    }
  }

  /* ---------- The `diff --git` line ---------- */

  predicate OccursAt(s: string, p: string, i: nat) {
    i + |p| <= |s| && s[i..i + |p|] == p
  }

  ghost predicate Occurs(s: string, p: string) {
    exists i: nat :: OccursAt(s, p, i)
  }

  /** The first occurrence at or behind `from`, as `indexOf` finds it. */
  function IndexOf(s: string, p: string, from: nat): (r: Option<nat>)
    ensures r.Some? ==> r.value >= from && OccursAt(s, p, r.value)
    ensures forall i: nat :: from <= i && OccursAt(s, p, i) ==> r.Some? && r.value <= i
    decreases |s| - from
  {
    if from > |s| then None else if OccursAt(s, p, from) then Some(from) else IndexOf(s, p, from + 1)
  }

  /** Where the quote opened before `i` closes; the last character when it never does. */
  function Closing(s: string, i: nat): (end: nat)
    requires s != ""
    ensures end < |s|
    decreases |s| - i
  {
    if i >= |s| then |s| - 1
    else if s[i] == '\\' then Closing(s, i + 2)
    else if s[i] == '"' then i
    else Closing(s, i + 1)
  }

  /** The backslashes right before `i`, not looking before `from`. */
  function Slashes(s: string, from: nat, i: nat): nat
    requires from <= i <= |s|
    decreases i
  {
    if i > from && s[i - 1] == '\\' then Slashes(s, from, i - 1) + 1 else 0
  }

  /** A quote behind an even number of backslashes. */
  predicate Unescaped(s: string, from: nat, j: nat) {
    from <= j < |s| && s[j] == '"' && Slashes(s, from, j) % 2 == 0
  }

  /** The first unescaped quote; the last character when there is none. */
  ghost predicate Closes(s: string, from: nat, end: nat) {
    if exists j: nat :: Unescaped(s, from, j)
      then Unescaped(s, from, end) && forall j: nat | j < end :: !Unescaped(s, from, j)
    else end == |s| - 1
  }

  lemma {:induction false} ClosingFrom(s: string, from: nat, i: nat)
    requires s != "" && from <= i && (i <= |s| ==> Slashes(s, from, i) % 2 == 0)
    requires forall j: nat | j < i :: !Unescaped(s, from, j)
    ensures Closes(s, from, Closing(s, i))
    decreases |s| - i
  {
    if i < |s| {
      if s[i] == '\\' {
        ClosingFrom(s, from, i + 2);
      } else if s[i] == '"' {
        assert Unescaped(s, from, i);
      } else {
        ClosingFrom(s, from, i + 1);
      }
    }
  }

  method ClosingQuote(s: string, open: nat) returns (end: nat)
    requires s != ""
    ensures end == Closing(s, open + 1)
    ensures Closes(s, open + 1, end)
  {
    ClosingFrom(s, open + 1, open + 1);
    var i := open + 1;
    while i < |s|
      invariant Closing(s, i) == Closing(s, open + 1)
    {
      if s[i] == '\\' {
        i := i + 2;
        continue;
      }
      if s[i] == '"' {
        return i;
      }
      i := i + 1;
    }
    return |s| - 1;
  }

  function SecondQuoted(): string {
    " \"b/"
  }

  function GitPaths(rest: string, unquote: Unquote): Option<(string, string)> {
    if StartsWith(rest, "\"") then
      var end := Closing(rest, 1);
      Some((StripPrefix(unquote(rest[..end + 1]), "a/"), StripPrefix(unquote(After(rest, end + 2)), "b/")))
    else
      var q := IndexOf(rest, SecondQuoted(), 0);
      if q.Some? then Some((StripPrefix(rest[..q.value], "a/"), StripPrefix(unquote(rest[q.value + 1..]), "b/")))
      else if !StartsWith(rest, "a/") then None
      else
        var half := (|rest| - 1) / 2;
        if |rest| % 2 == 1 && half >= 2 && OccursAt(rest, " b/", half) && rest[2..half] == rest[half + 3..] then
          Some((rest[2..half], rest[half + 3..]))
        else
          var sp := IndexOf(rest, " b/", 0);
          if sp.Some? && sp.value >= 2 then Some((rest[2..sp.value], rest[sp.value + 3..])) else None
  }

  function GitHeader(line: string, unquote: Unquote): Option<(string, string)> {
    GitPaths(StripPrefix(line, "diff --git "), unquote)
  }

  /** What stands behind `diff --git ` when both paths are the same. */
  function TwoPaths(path: string): string {
    "a/" + path + " b/" + path
  }

  function SamePathLine(path: string): string {
    "diff --git " + TwoPaths(path)
  }

  lemma SamePathRest(path: string, unquote: Unquote)
    ensures GitHeader(SamePathLine(path), unquote) == GitPaths(TwoPaths(path), unquote)
  {
    hide GitPaths;
    assert SamePathLine(path)[..11] == "diff --git ";
    assert SamePathLine(path)[11..] == TwoPaths(path);
  }

  /** A path that holds no ` "b/` is read from an unquoted `diff --git` line, spaces and ` b/` inside it included. */
  lemma SamePathIsRead(path: string, unquote: Unquote)
    requires !Occurs(path, SecondQuoted())
    ensures GitHeader(SamePathLine(path), unquote) == Some((path, path))
  {
    SamePathRest(path, unquote);
    hide GitHeader, Occurs, SecondQuoted;
    var q := IndexOf(TwoPaths(path), SecondQuoted(), 0);
    if q.Some? {
      OnlyInsideAPath(path, q.value);
    }
    Halves(path);
  }

  lemma Halves(path: string)
    ensures var rest := TwoPaths(path);
      StartsWith(rest, "a/") && rest[0] != '"' && |rest| == 2 * |path| + 5 && OccursAt(rest, " b/", |path| + 2) &&
      rest[2..|path| + 2] == path && rest[|path| + 5..] == path
  {
    var rest := TwoPaths(path);
    assert rest[..2] == "a/";
    assert rest[|path| + 2..|path| + 5] == " b/";
    assert rest[2..|path| + 2] == path && rest[|path| + 5..] == path;
  }

  lemma MarkChars(s: string, q: nat)
    requires OccursAt(s, SecondQuoted(), q)
    ensures q + 4 <= |s| && s[q] == ' ' && s[q + 1] == '"' && s[q + 2] == 'b' && s[q + 3] == '/'
  {
    var mark := s[q..q + 4];
    assert mark == SecondQuoted();
    assert s[q] == mark[0] && s[q + 1] == mark[1] && s[q + 2] == mark[2] && s[q + 3] == mark[3];
  }

  /** Where ` "b/` stands in a line of two equal paths, it stands in the path. */
  lemma OnlyInsideAPath(path: string, q: nat)
    requires OccursAt(TwoPaths(path), SecondQuoted(), q)
    ensures Occurs(path, SecondQuoted())
  {
    var rest := TwoPaths(path);
    var n := |path|;
    var mark := SecondQuoted();
    MarkChars(rest, q);
    assert rest[n + 2] == ' ' && rest[n + 3] == 'b' && rest[n + 4] == '/' && rest[0] == 'a' && rest[1] == '/';
    if q + 4 <= n + 2 {
      assert path[q - 2..q + 2] == rest[q..q + 4];
      assert OccursAt(path, mark, q - 2);
    } else {
      assert q != n - 1 && q != n && q != n + 1 && q != n + 2 && q != n + 3 && q != n + 4;
      assert path[q - n - 5..q - n - 1] == rest[q..q + 4];
      assert OccursAt(path, mark, q - n - 5);
    }
  }

  /** And when the path does hold it, the line is cut there: the first path comes out too short. */
  lemma CutPathIsShort(path: string, unquote: Unquote)
    requires Occurs(path, SecondQuoted())
    ensures GitHeader(SamePathLine(path), unquote).Some?
    ensures |GitHeader(SamePathLine(path), unquote).value.0| < |path|
  {
    SamePathRest(path, unquote);
    hide GitHeader;
    var i: nat :| OccursAt(path, SecondQuoted(), i);
    MarkIsFound(path, i);
    var rest := TwoPaths(path);
    var q := IndexOf(rest, SecondQuoted(), 0).value;
    assert rest[0] == 'a';
    assert StartsWith(rest[..q], "a/");
  }

  lemma MarkIsFound(path: string, i: nat)
    requires OccursAt(path, SecondQuoted(), i)
    ensures IndexOf(TwoPaths(path), SecondQuoted(), 0).Some?
    ensures 2 <= IndexOf(TwoPaths(path), SecondQuoted(), 0).value <= i + 2
  {
    var rest := TwoPaths(path);
    assert rest[i + 2..i + 6] == path[i..i + 4];
    assert OccursAt(rest, SecondQuoted(), i + 2);
    var q := IndexOf(rest, SecondQuoted(), 0).value;
    assert rest[q..q + 4][0] == ' ';
    assert rest[0] == 'a' && rest[1] == '/';
  }

  /* ---------- The loop over the lines ---------- */

  /** What a file's text says, as a function: the specification of `ParseFileChunk`. */
  function SliceOf(chunk: string, unquote: Unquote): Slice {
    var lines := SplitLines(chunk);
    Finish(Fold(Begin(GitHeader(lines[0], unquote)), lines[1..], unquote), chunk)
  }

  lemma FoldNone(p: Parsing, lines: seq<string>, unquote: Unquote)
    requires |lines| == 0
    ensures Fold(p, lines, unquote) == p
  {
  }

  lemma FoldNext(p: Parsing, lines: seq<string>, i: nat, unquote: Unquote)
    requires 1 <= i < |lines|
    ensures Fold(p, lines[1..i + 1], unquote) == LineStep(Fold(p, lines[1..i], unquote), lines[i], unquote)
  {
    assert lines[1..i + 1][..i - 1] == lines[1..i];
  }

  method ParseFileChunk(chunk: string, unquote: Unquote) returns (slice: Slice)
    ensures slice == SliceOf(chunk, unquote)
  {
    hide GitHeader, HunkCounts, HeaderLine, Finish, Begin, StartsWith, Fold;
    var lines := SplitLines(chunk);
    var start := Begin(GitHeader(lines[0], unquote));
    var p := start;
    var i := 1;
    FoldNone(start, lines[1..1], unquote);
    while i < |lines|
      invariant 1 <= i <= |lines|
      invariant p == Fold(start, lines[1..i], unquote)
    {
      var l := lines[i];
      FoldNext(start, lines, i, unquote);
      i := i + 1;
      if p.inHunk && (p.oldLeft > 0 || p.newLeft > 0) {
        if StartsWith(l, "+") {
          p := p.(add := p.add + 1, newLeft := p.newLeft - 1);
        } else if StartsWith(l, "-") {
          p := p.(del := p.del + 1, oldLeft := p.oldLeft - 1);
        } else if !StartsWith(l, "\\") {
          p := p.(oldLeft := p.oldLeft - 1, newLeft := p.newLeft - 1);
        }
        continue;
      }
      var h := HunkCounts(l);
      if h.Some? {
        p := p.(inHunk := true, oldLeft := h.value.0, newLeft := h.value.1);
        continue;
      }
      p := HeaderLine(p.(inHunk := false), l, unquote);
    }
    assert lines[1..i] == lines[1..];
    slice := Finish(p, chunk);
  }

  /* ---------- What a well-formed patch holds ---------- */

  datatype Hunk = Hunk(header: string, body: seq<string>)

  datatype Patch = Patch(first: string, headers: seq<string>, hunks: seq<Hunk>)

  datatype Kind = Plus | Minus | Mark | Context

  function KindOf(l: string): Kind {
    if StartsWith(l, "+") then Plus else if StartsWith(l, "-") then Minus else if StartsWith(l, "\\") then Mark
    else Context
  }

  function Count(lines: seq<string>, k: Kind): nat
    decreases |lines|
  {
    if lines == [] then 0 else Count(lines[..|lines| - 1], k) + (if KindOf(lines[|lines| - 1]) == k then 1 else 0)
  }

  /** The lines of the old file in a hunk's body. */
  function Olds(body: seq<string>): nat {
    Count(body, Minus) + Count(body, Context)
  }

  function News(body: seq<string>): nat {
    Count(body, Plus) + Count(body, Context)
  }

  /** The header announces as many lines as the body has. */
  predicate Announced(h: Hunk) {
    HunkCounts(h.header) == Some((Olds(h.body), News(h.body)))
  }

  /** Header lines in front of the hunks, none of them a hunk header, and hunks as long as announced. The lines of
      a hunk may be anything. */
  predicate WellFormed(p: Patch) {
    && StartsWith(p.first, "diff --git ")
    && (forall i :: 0 <= i < |p.headers| ==> HunkCounts(p.headers[i]).None?)
    && (forall i :: 0 <= i < |p.hunks| ==> Announced(p.hunks[i]))
  }

  function HunkText(h: Hunk): seq<string> {
    [h.header] + h.body
  }

  function HunkLines(hunks: seq<Hunk>): seq<string>
    decreases |hunks|
  {
    if hunks == [] then [] else HunkLines(hunks[..|hunks| - 1]) + HunkText(hunks[|hunks| - 1])
  }

  function Total(hunks: seq<Hunk>, k: Kind): nat
    decreases |hunks|
  {
    if hunks == [] then 0 else Total(hunks[..|hunks| - 1], k) + Count(hunks[|hunks| - 1].body, k)
  }

  function PatchLines(p: Patch): seq<string> {
    [p.first] + p.headers + HunkLines(p.hunks)
  }

  lemma {:induction false} CountGrows(lines: seq<string>, i: nat, k: Kind)
    requires i <= |lines|
    ensures Count(lines[..i], k) <= Count(lines, k)
    decreases |lines|
  {
    if i < |lines| {
      CountGrows(lines[..|lines| - 1], i, k);
      assert lines[..|lines| - 1][..i] == lines[..i];
    } else {
      assert lines[..i] == lines;
    }
  }

  lemma CountNext(lines: seq<string>, i: nat, k: Kind)
    requires i < |lines|
    ensures Count(lines[..i + 1], k) == Count(lines[..i], k) + if KindOf(lines[i]) == k then 1 else 0
    ensures Count(lines[..i + 1], k) <= Count(lines, k)
  {
    assert lines[..i + 1][..i] == lines[..i];
    CountGrows(lines, i + 1, k);
  }

  /** The parser after `i` lines of a hunk's body: every line so far was counted as what it is, and nothing else
      changed. */
  ghost predicate InBody(p: Parsing, q: Parsing, body: seq<string>, i: nat)
    requires i <= |body|
  {
    var seen := body[..i];
    && q.add == p.add + Count(seen, Plus) && q.del == p.del + Count(seen, Minus)
    && q.oldPath == p.oldPath && q.newPath == p.newPath && q.status == p.status && q.binary == p.binary
    && (if q.inHunk then q.oldLeft == Olds(body) - Olds(seen) && q.newLeft == News(body) - News(seen)
        else Olds(seen) == Olds(body) && News(seen) == News(body))
  }

  lemma OtherStart(l: string, prefix: string)
    requires l != "" && prefix != "" && l[0] != prefix[0]
    ensures !StartsWith(l, prefix) && l != prefix
  {
  }

  lemma MarkIsNoHeader(p: Parsing, l: string, unquote: Unquote)
    requires l != "" && l[0] == '\\'
    ensures HeaderLine(p, l, unquote) == p && HunkCounts(l).None?
  {
    hide StartsWith, CountAt;
    OtherStart(l, "@@ -");
    OtherStart(l, "new file mode");
    OtherStart(l, "deleted file mode");
    OtherStart(l, "rename from ");
    OtherStart(l, "rename to ");
    OtherStart(l, "copy from ");
    OtherStart(l, "copy to ");
    OtherStart(l, "--- ");
    OtherStart(l, "+++ ");
    OtherStart(l, "Binary files ");
    OtherStart(l, "GIT binary patch");
  }

  lemma MarkIsSilent(p: Parsing, l: string, unquote: Unquote)
    requires KindOf(l) == Mark && !Counting(p)
    ensures LineStep(p, l, unquote) == p.(inHunk := false)
  {
    hide HeaderLine, HunkCounts;
    MarkIsNoHeader(p.(inHunk := false), l, unquote);
  }

  lemma BodyStep(p: Parsing, q: Parsing, body: seq<string>, i: nat, unquote: Unquote)
    requires i < |body| && InBody(p, q, body, i)
    ensures InBody(p, LineStep(q, body[i], unquote), body, i + 1)
  {
    hide KindOf, Count;
    CountNext(body, i, Plus);
    CountNext(body, i, Minus);
    CountNext(body, i, Context);
    if Counting(q) {
      CountedStep(q, body[i], unquote);
    } else {
      MarkIsSilent(q, body[i], unquote);
    }
  }

  lemma CountedStep(q: Parsing, l: string, unquote: Unquote)
    requires Counting(q)
    ensures LineStep(q, l, unquote) == match KindOf(l)
      case Plus => q.(add := q.add + 1, newLeft := q.newLeft - 1)
      case Minus => q.(del := q.del + 1, oldLeft := q.oldLeft - 1)
      case Mark => q
      case Context => q.(oldLeft := q.oldLeft - 1, newLeft := q.newLeft - 1)
  {
  }

  lemma {:induction false} BodyKeeps(p: Parsing, q: Parsing, body: seq<string>, i: nat, unquote: Unquote)
    requires i <= |body| && InBody(p, q, body, 0)
    ensures InBody(p, Fold(q, body[..i], unquote), body, i)
    decreases i
  {
    hide InBody, LineStep;
    if i == 0 {
      assert body[..0] == [];
    } else {
      BodyKeeps(p, q, body, i - 1, unquote);
      assert body[..i][..i - 1] == body[..i - 1];
      BodyStep(p, Fold(q, body[..i - 1], unquote), body, i - 1, unquote);
    }
  }

  /** `q` is `p` with so many more lines counted, as far as the slice goes. */
  predicate Counted(p: Parsing, q: Parsing, plus: nat, minus: nat) {
    && q.add == p.add + plus && q.del == p.del + minus
    && q.oldPath == p.oldPath && q.newPath == p.newPath && q.status == p.status && q.binary == p.binary
  }

  /** A hunk adds its + and - lines to the counts, whatever they look like, and changes neither paths nor status. */
  lemma HunkAdds(p: Parsing, h: Hunk, unquote: Unquote)
    requires !Counting(p) && Announced(h)
    ensures !Counting(Fold(p, HunkText(h), unquote))
    ensures Counted(p, Fold(p, HunkText(h), unquote), Count(h.body, Plus), Count(h.body, Minus))
  {
    hide HunkCounts, HeaderLine, KindOf;
    var q := LineStep(p, h.header, unquote);
    assert [h.header][..0] == [];
    assert Fold(p, [h.header], unquote) == q;
    FoldAppend(p, [h.header], h.body, unquote);
    assert h.body[..0] == [];
    BodyKeeps(p, q, h.body, |h.body|, unquote);
    assert h.body[..|h.body|] == h.body;
  }

  lemma {:induction false} HunksAdd(p: Parsing, hunks: seq<Hunk>, unquote: Unquote)
    requires !Counting(p) && forall i :: 0 <= i < |hunks| ==> Announced(hunks[i])
    ensures !Counting(Fold(p, HunkLines(hunks), unquote))
    ensures Counted(p, Fold(p, HunkLines(hunks), unquote), Total(hunks, Plus), Total(hunks, Minus))
    decreases |hunks|
  {
    hide Announced, LineStep, Counting, Count, HunkText;
    if hunks != [] {
      var n := |hunks| - 1;
      HunksAdd(p, hunks[..n], unquote);
      var q := Fold(p, HunkLines(hunks[..n]), unquote);
      FoldAppend(p, HunkLines(hunks[..n]), HunkText(hunks[n]), unquote);
      HunkAdds(q, hunks[n], unquote);
    }
  }

  lemma HeaderKeepsCounts(p: Parsing, l: string, unquote: Unquote)
    ensures var q := HeaderLine(p, l, unquote);
      q == p.(oldPath := q.oldPath, newPath := q.newPath, status := q.status, binary := q.binary)
  {
    hide StartsWith, StripPrefix, After;
  }

  lemma {:induction false} HeadersDoNotCount(p: Parsing, headers: seq<string>, unquote: Unquote)
    requires !p.inHunk && forall i :: 0 <= i < |headers| ==> HunkCounts(headers[i]).None?
    ensures var q := Fold(p, headers, unquote); !q.inHunk && q.add == p.add && q.del == p.del
    decreases |headers|
  {
    hide HunkCounts, HeaderLine;
    if headers != [] {
      var n := |headers| - 1;
      HeadersDoNotCount(p, headers[..n], unquote);
      HeaderKeepsCounts(Fold(p, headers[..n], unquote), headers[n], unquote);
    }
  }
}
