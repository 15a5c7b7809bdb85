/** The header lines git writes for one file of a diff, and that `parseFileChunk` of packages/peer-protocol/src/forge.ts
    reads them as what they say: changed, new, deleted, renamed and copied files, with text, binary or no contents. */
module PatchHeader {
  import HunkHeader
  import opened Options
  import opened PatchSplit
  import QuotedHeader
  import opened QuotedPath
  import opened UnifiedDiff

  /* ---------- What git writes ---------- */

  /** A path, and how it is written by itself, behind `a/` and behind `b/`. */
  datatype Name = Name(path: string, bare: string, a: string, b: string)

  datatype Contents = Unchanged | Text | Binary(what: string) | GitBinary(data: seq<string>)

  /** One file of a diff: a changed, new or deleted file has one name, a renamed or copied one has two. */
  datatype FileDiff = FileDiff(first: string, status: Status, from: Name, to: Name, mode: string, before: seq<string>,
    index: seq<string>, contents: Contents, hunks: seq<HunkHeader.GitHunk>)

  predicate HasTwoNames(f: FileDiff) {
    f.status == Renamed || f.status == Copied
  }

  /** Lines about modes, similarity and objects. */
  predicate Silent(l: string) {
    || StartsWith(l, "old mode ") || StartsWith(l, "new mode ") || StartsWith(l, "index ")
    || StartsWith(l, "similarity index ") || StartsWith(l, "dissimilarity index ")
  }

  function Marks(f: FileDiff): seq<string> {
    match f.status
    case Added => ["new file mode " + f.mode]
    case Deleted => ["deleted file mode " + f.mode]
    case Modified => []
    case Renamed => ["rename from " + f.from.bare, "rename to " + f.to.bare]
    case Copied => ["copy from " + f.from.bare, "copy to " + f.to.bare]
  }

  function ContentLines(f: FileDiff): seq<string> {
    match f.contents
    case Unchanged => []
    case Text => [
      "--- " + (if f.status == Added then "/dev/null" else f.from.a),
      "+++ " + (if f.status == Deleted then "/dev/null" else f.to.b)
    ]
    case Binary(what) => ["Binary files " + what]
    case GitBinary(data) => ["GIT binary patch"] + data
  }

  /** A line of a binary patch: how it goes on, or encoded bytes, which hold no space. */
  predicate BinaryData(l: string) {
    StartsWith(l, "literal ") || StartsWith(l, "delta ") || ' ' !in l
  }

  function HeaderLines(f: FileDiff): seq<string> {
    f.before + Marks(f) + f.index + ContentLines(f)
  }

  function PatchOf(f: FileDiff): Patch {
    Patch(f.first, HeaderLines(f), HunkHeader.HunksOf(f.hunks))
  }

  /** The slice that says of the file what git says. */
  function Intended(f: FileDiff): Slice {
    var previous := if HasTwoNames(f) && f.from.path != f.to.path then Some(f.from.path) else None;
    Slice(f.to.path, previous, f.status, f.contents.Binary? || f.contents.GitBinary?, HunkHeader.AllAdded(f.hunks),
      HunkHeader.AllRemoved(f.hunks), TrimEnd(TextOf(PatchLines(PatchOf(f)))))
  }

  /* ---------- When it can be read ---------- */

  /** The decoder gets the path back, with its prefix; git knows no empty and no absolute path. */
  ghost predicate Written(n: Name, unquote: Unquote) {
    && unquote(n.bare) == n.path && unquote(n.a) == "a/" + n.path && unquote(n.b) == "b/" + n.path
    && n.path != "" && n.path != "/dev/null"
  }

  /** The names are written so that they decode. Only where no other line names the file must the first line do so. */
  ghost predicate IsGitDiff(f: FileDiff, unquote: Unquote) {
    && Written(f.from, unquote) && Written(f.to, unquote) && unquote("/dev/null") == "/dev/null"
    && StartsWith(f.first, "diff --git ") && (HasTwoNames(f) || f.from == f.to)
    && (forall i :: 0 <= i < |f.before| ==> Silent(f.before[i]))
    && (forall i :: 0 <= i < |f.index| ==> Silent(f.index[i]))
    && (f.contents.GitBinary? ==> forall i :: 0 <= i < |f.contents.data| ==> BinaryData(f.contents.data[i]))
    && (HasTwoNames(f) || f.contents.Text? || GitHeader(f.first, unquote) == Some((f.from.path, f.to.path)))
  }

  /* ---------- One line ---------- */

  lemma Differs(l: string, q: string, k: nat)
    requires k < |l| && k < |q| && l[k] != q[k]
    ensures !StartsWith(l, q)
  {
  }

  lemma Behind(p: string, x: string)
    ensures StartsWith(p + x, p) && After(p + x, |p|) == x
  {
    assert (p + x)[..|p|] == p;
  }

  /** A line that begins with another letter than a hunk header is left to the rule for header lines. */
  lemma HeaderStep(p: Parsing, l: string, unquote: Unquote)
    requires !p.inHunk && l != "" && l[0] != '@'
    ensures HunkCounts(l).None? && LineStep(p, l, unquote) == HeaderLine(p, l, unquote)
  {
    hide HeaderLine, CountAt;
    Differs(l, "@@ -", 0);
  }

  /** A line follows none of the rules for another first letter. */
  lemma OtherRules(l: string)
    requires l != ""
    ensures l[0] != 'n' ==> !StartsWith(l, "new file mode")
    ensures l[0] != 'd' ==> !StartsWith(l, "deleted file mode")
    ensures l[0] != 'r' ==> !StartsWith(l, "rename from ") && !StartsWith(l, "rename to ")
    ensures l[0] != 'c' ==> !StartsWith(l, "copy from ") && !StartsWith(l, "copy to ")
    ensures l[0] != '-' ==> !StartsWith(l, "--- ")
    ensures l[0] != '+' ==> !StartsWith(l, "+++ ")
    ensures l[0] != 'B' ==> !StartsWith(l, "Binary files ")
    ensures l[0] != 'G' ==> l != "GIT binary patch"
  {
    assert "GIT binary patch"[0] == 'G';
  }

  /** The first character that tells apart two starts. */
  lemma Begins(p: string, x: string, k: nat)
    requires k < |p|
    ensures p + x != "" && (p + x)[0] == p[0] && (p + x)[k] == p[k]
  {
  }

  lemma SilentLine(p: Parsing, l: string, unquote: Unquote)
    requires !p.inHunk && Silent(l)
    ensures HunkCounts(l).None? && LineStep(p, l, unquote) == p
  {
    SilentStarts(l);
    OtherRules(l);
    HeaderStep(p, l, unquote);
    hide StartsWith, LineStep, HunkCounts;
  }

  lemma SilentStarts(l: string)
    requires Silent(l)
    ensures |l| > 4 && (l[0] == 'o' || l[0] == 'n' || l[0] == 'i' || l[0] == 's' || l[0] == 'd')
    ensures !StartsWith(l, "new file mode") && !StartsWith(l, "deleted file mode")
  {
    if StartsWith(l, "new mode ") {
      assert l[..9][4] == 'm';
      Differs(l, "new file mode", 4);
    } else if StartsWith(l, "dissimilarity index ") {
      assert l[..20][0] == 'd' && l[..20][1] == 'i';
      Differs(l, "deleted file mode", 1);
    }
  }

  lemma ModeLine(p: Parsing, mode: string, unquote: Unquote)
    requires !p.inHunk
    ensures var l := "new file mode " + mode; HunkCounts(l).None? && LineStep(p, l, unquote) == p.(status := Added)
    ensures var l := "deleted file mode " + mode;
      HunkCounts(l).None? && LineStep(p, l, unquote) == p.(status := Deleted)
  {
    var l, k := "new file mode " + mode, "deleted file mode " + mode;
    Begins("new file mode ", mode, 0);
    Begins("deleted file mode ", mode, 0);
    assert l[..13] == "new file mode" && k[..17] == "deleted file mode";
    assert StartsWith(l, "new file mode") && StartsWith(k, "deleted file mode");
    OtherRules(k);
    HeaderStep(p, l, unquote);
    HeaderStep(p, k, unquote);
    hide StartsWith, LineStep, HunkCounts;
  }

  lemma FromLine(p: Parsing, x: string, unquote: Unquote)
    requires !p.inHunk
    ensures var l := "rename from " + x;
      HunkCounts(l).None? && LineStep(p, l, unquote) == p.(status := Renamed, oldPath := Some(unquote(x)))
    ensures var l := "copy from " + x;
      HunkCounts(l).None? && LineStep(p, l, unquote) == p.(status := Copied, oldPath := Some(unquote(x)))
  {
    var l, k := "rename from " + x, "copy from " + x;
    Begins("rename from ", x, 0);
    Begins("copy from ", x, 0);
    Behind("rename from ", x);
    Behind("copy from ", x);
    OtherRules(l);
    OtherRules(k);
    HeaderStep(p, l, unquote);
    HeaderStep(p, k, unquote);
    hide StartsWith, After, LineStep, HunkCounts;
  }

  lemma ToLine(p: Parsing, x: string, unquote: Unquote)
    requires !p.inHunk
    ensures var l := "rename to " + x;
      HunkCounts(l).None? && LineStep(p, l, unquote) == p.(status := Renamed, newPath := Some(unquote(x)))
    ensures var l := "copy to " + x;
      HunkCounts(l).None? && LineStep(p, l, unquote) == p.(status := Copied, newPath := Some(unquote(x)))
  {
    var l, k := "rename to " + x, "copy to " + x;
    Begins("rename to ", x, 7);
    Begins("copy to ", x, 5);
    Differs(l, "rename from ", 7);
    Differs(k, "copy from ", 5);
    Behind("rename to ", x);
    Behind("copy to ", x);
    OtherRules(l);
    OtherRules(k);
    HeaderStep(p, l, unquote);
    HeaderStep(p, k, unquote);
    hide StartsWith, After, LineStep, HunkCounts;
  }

  lemma OldLine(p: Parsing, x: string, unquote: Unquote)
    requires !p.inHunk
    ensures var l, q := "--- " + x, StripPrefix(unquote(x), "a/");
      && HunkCounts(l).None?
      && LineStep(p, l, unquote) == if q != "/dev/null" then p.(oldPath := Some(q)) else p.(status := Added)
  {
    var l := "--- " + x;
    Begins("--- ", x, 0);
    Behind("--- ", x);
    OtherRules(l);
    HeaderStep(p, l, unquote);
    hide StartsWith, After, LineStep, HunkCounts, StripPrefix;
  }

  lemma NewLine(p: Parsing, x: string, unquote: Unquote)
    requires !p.inHunk
    ensures var l, q := "+++ " + x, StripPrefix(unquote(x), "b/");
      && HunkCounts(l).None?
      && LineStep(p, l, unquote) == if q != "/dev/null" then p.(newPath := Some(q)) else p.(status := Deleted)
  {
    var l := "+++ " + x;
    Begins("+++ ", x, 0);
    Behind("+++ ", x);
    OtherRules(l);
    HeaderStep(p, l, unquote);
    hide StartsWith, After, LineStep, HunkCounts, StripPrefix;
  }

  lemma BinaryLine(p: Parsing, what: string, unquote: Unquote)
    requires !p.inHunk
    ensures var l := "Binary files " + what; HunkCounts(l).None? && LineStep(p, l, unquote) == p.(binary := true)
  {
    var l := "Binary files " + what;
    Begins("Binary files ", what, 0);
    Behind("Binary files ", what);
    OtherRules(l);
    HeaderStep(p, l, unquote);
    hide StartsWith, LineStep, HunkCounts;
  }

  lemma BinaryHead(p: Parsing, unquote: Unquote)
    requires !p.inHunk
    ensures var l := "GIT binary patch"; HunkCounts(l).None? && LineStep(p, l, unquote) == p.(binary := true)
  {
    var l := "GIT binary patch";
    OtherRules(l);
    HeaderStep(p, l, unquote);
    hide StartsWith, LineStep, HunkCounts;
  }

  lemma SpaceIsMissing(l: string, q: string)
    requires ' ' !in l && ' ' in q
    ensures !StartsWith(l, q) && l != q
  {
    var k :| 0 <= k < |q| && q[k] == ' ';
    assert k < |l| ==> l[k] != q[k];
    if |q| <= |l| {
      Differs(l, q, k);
    }
  }

  lemma DataLine(p: Parsing, l: string, unquote: Unquote)
    requires !p.inHunk && BinaryData(l)
    ensures HunkCounts(l).None? && LineStep(p, l, unquote) == p
  {
    if ' ' !in l {
      SpaceIsMissing(l, "@@ -");
      SpaceIsMissing(l, "new file mode");
      SpaceIsMissing(l, "deleted file mode");
      SpaceIsMissing(l, "rename from ");
      SpaceIsMissing(l, "rename to ");
      SpaceIsMissing(l, "copy from ");
      SpaceIsMissing(l, "copy to ");
      SpaceIsMissing(l, "--- ");
      SpaceIsMissing(l, "+++ ");
      SpaceIsMissing(l, "Binary files ");
      SpaceIsMissing(l, "GIT binary patch");
    } else {
      DataStarts(l);
      OtherRules(l);
      HeaderStep(p, l, unquote);
    }
    hide StartsWith, CountAt;
  }

  lemma DataStarts(l: string)
    requires StartsWith(l, "literal ") || StartsWith(l, "delta ")
    ensures l != "" && (l[0] == 'l' || l[0] == 'd') && !StartsWith(l, "deleted file mode")
  {
    if StartsWith(l, "delta ") {
      assert l[..6][0] == 'd' && l[..6][3] == 't';
      Differs(l, "deleted file mode", 3);
    } else {
      assert l[..8][0] == 'l';
      Differs(l, "deleted file mode", 0);
    }
  }

  lemma {:induction false} DataLines(p: Parsing, lines: seq<string>, unquote: Unquote)
    requires !p.inHunk && forall i :: 0 <= i < |lines| ==> BinaryData(lines[i])
    ensures NoHunks(lines) && Fold(p, lines, unquote) == p
    decreases |lines|
  {
    hide LineStep, HunkCounts, BinaryData;
    if lines != [] {
      var n := |lines| - 1;
      DataLines(p, lines[..n], unquote);
      DataLine(p, lines[n], unquote);
    }
  }

  /* ---------- The header ---------- */

  lemma FoldOne(p: Parsing, l: string, unquote: Unquote)
    ensures Fold(p, [l], unquote) == LineStep(p, l, unquote)
  {
    hide LineStep;
    assert [l][..0] == [];
  }

  lemma FoldTwo(p: Parsing, l: string, k: string, unquote: Unquote)
    ensures Fold(p, [l, k], unquote) == LineStep(LineStep(p, l, unquote), k, unquote)
  {
    hide LineStep;
    assert [l, k][..1] == [l];
    FoldOne(p, l, unquote);
  }

  predicate NoHunks(lines: seq<string>) {
    forall i :: 0 <= i < |lines| ==> HunkCounts(lines[i]).None?
  }

  lemma {:induction false} SilentLines(p: Parsing, lines: seq<string>, unquote: Unquote)
    requires !p.inHunk && forall i :: 0 <= i < |lines| ==> Silent(lines[i])
    ensures NoHunks(lines) && Fold(p, lines, unquote) == p
    decreases |lines|
  {
    hide LineStep, HunkCounts, Silent;
    if lines != [] {
      var n := |lines| - 1;
      SilentLines(p, lines[..n], unquote);
      SilentLine(p, lines[n], unquote);
    }
  }

  /** What the marks say. */
  function Marked(p: Parsing, f: FileDiff): Parsing {
    if f.status == Modified then p
    else if HasTwoNames(f) then p.(status := f.status, oldPath := Some(f.from.path), newPath := Some(f.to.path))
    else p.(status := f.status)
  }

  lemma MarksAreRead(p: Parsing, f: FileDiff, unquote: Unquote)
    requires !p.inHunk && Written(f.from, unquote) && Written(f.to, unquote)
    ensures NoHunks(Marks(f)) && Fold(p, Marks(f), unquote) == Marked(p, f)
  {
    hide LineStep, HunkCounts;
    match f.status
    case Modified =>
    case Added =>
      ModeLine(p, f.mode, unquote);
      FoldOne(p, "new file mode " + f.mode, unquote);
    case Deleted =>
      ModeLine(p, f.mode, unquote);
      FoldOne(p, "deleted file mode " + f.mode, unquote);
    case Renamed =>
      FromLine(p, f.from.bare, unquote);
      ToLine(p.(status := Renamed, oldPath := Some(f.from.path)), f.to.bare, unquote);
      FoldTwo(p, "rename from " + f.from.bare, "rename to " + f.to.bare, unquote);
    case Copied =>
      FromLine(p, f.from.bare, unquote);
      ToLine(p.(status := Copied, oldPath := Some(f.from.path)), f.to.bare, unquote);
      FoldTwo(p, "copy from " + f.from.bare, "copy to " + f.to.bare, unquote);
  }

  /** What the lines about the contents add to it. */
  function Sides(p: Parsing, f: FileDiff): Parsing {
    match f.contents
    case Unchanged => p
    case Binary(_) => p.(binary := true)
    case GitBinary(_) => p.(binary := true)
    case Text =>
      var q := if f.status == Added then p else p.(oldPath := Some(f.from.path));
      if f.status == Deleted then q else q.(newPath := Some(f.to.path))
  }

  lemma Stripped(n: Name, unquote: Unquote)
    requires Written(n, unquote)
    ensures StripPrefix(unquote(n.a), "a/") == n.path && StripPrefix(unquote(n.b), "b/") == n.path
    ensures StripPrefix("/dev/null", "a/") == StripPrefix("/dev/null", "b/") == "/dev/null"
  {
    assert ("a/" + n.path)[..2] == "a/" && ("b/" + n.path)[..2] == "b/";
    Differs("/dev/null", "a/", 0);
    Differs("/dev/null", "b/", 0);
  }

  lemma ContentsAreRead(p: Parsing, f: FileDiff, unquote: Unquote)
    requires !p.inHunk && Written(f.from, unquote) && Written(f.to, unquote) && unquote("/dev/null") == "/dev/null"
    requires f.status == Added || f.status == Deleted ==> p.status == f.status
    requires f.contents.GitBinary? ==> forall i :: 0 <= i < |f.contents.data| ==> BinaryData(f.contents.data[i])
    ensures NoHunks(ContentLines(f)) && Fold(p, ContentLines(f), unquote) == Sides(p, f)
  {
    hide LineStep, HunkCounts, StripPrefix;
    Stripped(f.from, unquote);
    Stripped(f.to, unquote);
    match f.contents
    case Unchanged =>
    case Binary(what) =>
      BinaryLine(p, what, unquote);
      FoldOne(p, "Binary files " + what, unquote);
    case GitBinary(data) =>
      var head := "GIT binary patch";
      BinaryHead(p, unquote);
      FoldOne(p, head, unquote);
      DataLines(p.(binary := true), data, unquote);
      FoldAppend(p, [head], data, unquote);
    case Text =>
      var a := if f.status == Added then "/dev/null" else f.from.a;
      var b := if f.status == Deleted then "/dev/null" else f.to.b;
      OldLine(p, a, unquote);
      var q := if f.status == Added then p else p.(oldPath := Some(f.from.path));
      NewLine(q, b, unquote);
      FoldTwo(p, "--- " + a, "+++ " + b, unquote);
  }

  /** The header lines are read as status, paths and kind of contents. */
  lemma HeaderIsRead(f: FileDiff, unquote: Unquote)
    requires IsGitDiff(f, unquote)
    ensures NoHunks(HeaderLines(f))
    ensures var start := Begin(GitHeader(f.first, unquote));
      Fold(start, HeaderLines(f), unquote) == Sides(Marked(start, f), f)
  {
    hide Fold, GitHeader, HunkCounts, Silent, Marks, ContentLines, Written;
    var start := Begin(GitHeader(f.first, unquote));
    SilentLines(start, f.before, unquote);
    MarksAreRead(start, f, unquote);
    SilentLines(Marked(start, f), f.index, unquote);
    ContentsAreRead(Marked(start, f), f, unquote);
    FoldAppend(start, f.before, Marks(f), unquote);
    FoldAppend(start, f.before + Marks(f), f.index, unquote);
    FoldAppend(start, f.before + Marks(f) + f.index, ContentLines(f), unquote);
  }

  /** What the parser must give for the file is what git says of it. */
  lemma ExpectedIsIntended(f: FileDiff, unquote: Unquote)
    requires IsGitDiff(f, unquote)
    ensures Expected(PatchOf(f), unquote) == Intended(f)
  {
    hide Fold, GitHeader, PatchLines, TrimEnd, PatchSplit.TextOf, Total, HeaderLines, HunkHeader.HunksOf;
    HeaderIsRead(f, unquote);
    HunkHeader.HunksCount(f.hunks);
  }

  /** A patch that git writes is well-formed. */
  lemma GitPatchIsWellFormed(f: FileDiff, unquote: Unquote)
    requires IsGitDiff(f, unquote)
    ensures WellFormed(PatchOf(f))
  {
    hide Fold, GitHeader, HeaderLines, HunkCounts, Announced, HunkHeader.HunkOf;
    HeaderIsRead(f, unquote);
    HunkHeader.HunksCount(f.hunks);
  }

  /** No line holds a line break or ends with a carriage return. */
  ghost predicate CleanLines(f: FileDiff) {
    PlainLines(PatchLines(PatchOf(f))) && NoReturns(PatchLines(PatchOf(f)))
  }

  /* ---------- A whole diff ---------- */

  function Patches(files: seq<FileDiff>): seq<Patch> {
    seq(|files|, i requires 0 <= i < |files| => PatchOf(files[i]))
  }

  function AllIntended(files: seq<FileDiff>): seq<Slice> {
    seq(|files|, i requires 0 <= i < |files| => Intended(files[i]))
  }

  /** A diff that git writes comes back file by file, each with the status, the path, the previous path and the counts
      that git says, exactly when no line is taken for the start of another file. */
  lemma GitDiffReadsBack(files: seq<FileDiff>, unquote: Unquote)
    requires forall i :: 0 <= i < |files| ==> IsGitDiff(files[i], unquote) && CleanLines(files[i])
    ensures Slices(DiffOf(Patches(files)), unquote) == AllIntended(files)
      <==> forall i :: 0 <= i < |files| ==> Undisturbed(PatchOf(files[i]))
  {
    hide Expected, Intended, IsGitDiff, Slices, DiffOf, Undisturbed, PatchOf, WellFormed, PatchLines;
    var patches := Patches(files);
    forall i | 0 <= i < |files| ensures WellFormed(patches[i]) {
      GitPatchIsWellFormed(files[i], unquote);
    }
    PatchesReadBack(patches, unquote);
    forall i | 0 <= i < |files| ensures AllExpected(patches, unquote)[i] == AllIntended(files)[i] {
      ExpectedIsIntended(files[i], unquote);
    }
    assert AllExpected(patches, unquote) == AllIntended(files);
    assert forall i :: 0 <= i < |files| ==> patches[i] == PatchOf(files[i]);
  }

  /* ---------- Names as git writes them ---------- */

  /** A path of any bytes, in quotes. */
  function QuotedName(b: seq<Byte>): Name {
    Name(QuotedHeader.Read(b), QuotedHeader.Quote(b), QuotedHeader.Quote([97, 47] + b),
      QuotedHeader.Quote([98, 47] + b))
  }

  lemma QuotedIsWritten(b: seq<Byte>)
    requires Decoded(b).Some? && QuotedHeader.Read(b) != "" && QuotedHeader.Read(b) != "/dev/null"
    ensures Written(QuotedName(b), QuotedHeader.UnquoteText)
  {
    hide QuotedHeader.Read, QuotedHeader.Quote, QuotedHeader.UnquoteText, Decoded, QuotedHeader.Char;
    QuotedHeader.QuoteIsRead(b);
    QuotedHeader.QuoteIsRead([97, 47] + b);
    QuotedHeader.QuoteIsRead([98, 47] + b);
    QuotedHeader.CharOfAscii(97);
    QuotedHeader.CharOfAscii(98);
    QuotedHeader.PrefixIsRead(97, b);
    QuotedHeader.PrefixIsRead(98, b);
  }

  /** A path as it is, behind which git puts a tab when it stands behind `a/` or `b/` and holds a space. */
  function PlainName(p: string, tab: string): Name {
    Name(p, p, "a/" + p + tab, "b/" + p + tab)
  }

  lemma PlainIsWritten(p: string, tab: string)
    requires QuotedHeader.IsText(p) && p != "" && p != "/dev/null" && p[0] != '"' && p[|p| - 1] != '\t'
    requires tab == "" || tab == "\t"
    ensures Written(PlainName(p, tab), QuotedHeader.UnquoteText)
    ensures QuotedHeader.UnquoteText("/dev/null") == "/dev/null"
  {
    hide QuotedHeader.UnquoteText, QuotedHeader.IsText;
    QuotedHeader.PlainIsRead(p);
    QuotedHeader.PrefixIsText('a', p);
    QuotedHeader.PrefixIsText('b', p);
    QuotedHeader.TabIsDropped("a/" + p, tab);
    QuotedHeader.TabIsDropped("b/" + p, tab);
    QuotedHeader.NullIsText();
    QuotedHeader.PlainIsRead("/dev/null");
  }
}
