/** `tokenize` and `wordRanges` of src/renderer/lib/conflictDiff.ts. */
module WordDiff {
  import opened Basics
  import opened Lcs

  /** Half-open, in characters. */
  datatype Range = Range(start: nat, end: nat)

  datatype Token = Token(text: string, start: nat)

  /* ---------- Tokens ---------- */

  predicate IsWord(c: char) {
    'a' <= c <= 'z' || 'A' <= c <= 'Z' || '0' <= c <= '9' || c == '_'
  }

  predicate AllWord(s: string) {
    forall i :: 0 <= i < |s| ==> IsWord(s[i])
  }

  predicate AllSpace(s: string) {
    forall i :: 0 <= i < |s| ==> IsSpace(s[i])
  }

  /** A run of word characters, a run of white space, or one other character. */
  predicate IsToken(s: string) {
    s != [] && (AllWord(s) || AllSpace(s) || (|s| == 1 && !IsWord(s[0]) && !IsSpace(s[0])))
  }

  function TokenEnd(t: Token): nat {
    t.start + |t.text|
  }

  function End(toks: seq<Token>): nat {
    if toks == [] then 0 else TokenEnd(toks[|toks| - 1])
  }

  /** `t` is a token of `s` at its place. */
  predicate IsTokenOf(t: Token, s: string) {
    TokenEnd(t) <= |s| && IsToken(t.text) && t.text == s[t.start..TokenEnd(t)]
  }

  /** The tokens stand one after the other from the start of `s`. */
  ghost predicate Tiles(toks: seq<Token>, s: string) {
    && (forall k :: 0 <= k < |toks| ==> IsTokenOf(toks[k], s))
    && (forall k :: 0 <= k < |toks| ==> Follows(toks, k))
  }

  /** Token `k` starts where the one before it ends. */
  predicate Follows(toks: seq<Token>, k: nat)
    requires k < |toks|
  {
    toks[k].start == if k == 0 then 0 else TokenEnd(toks[k - 1])
  }

  /** Two neighbours that a maximal run would have joined. */
  predicate SameRun(x: Token, y: Token) {
    (AllWord(x.text) && AllWord(y.text)) || (AllSpace(x.text) && AllSpace(y.text))
  }

  /** Runs are maximal: no two neighbours are both words or both spaces. */
  ghost predicate Maximal(toks: seq<Token>) {
    forall k :: 0 < k < |toks| ==> !SameRun(toks[k - 1], toks[k])
  }

  /** Where one token ends and the next begins, the characters are not of one kind: not two of a word, nor two
      spaces. */
  lemma NeighboursDiffer(toks: seq<Token>, s: string, k: nat)
    requires Tiles(toks, s) && Maximal(toks) && 0 < k < |toks|
    ensures var p := toks[k].start;
      0 < p < |s| && !(IsWord(s[p - 1]) && IsWord(s[p])) && !(IsSpace(s[p - 1]) && IsSpace(s[p]))
  {
    hide IsWord, IsSpace;
    var x, y, p := toks[k - 1], toks[k], toks[k].start;
    assert IsTokenOf(x, s) && IsTokenOf(y, s) && Follows(toks, k) && !SameRun(x, y);
    assert x.text[|x.text| - 1] == s[p - 1] && y.text[0] == s[p];
    WordOrSpace(s[p - 1]);
    WordOrSpace(s[p]);
  }

  lemma WordOrSpace(c: char)
    ensures !(IsWord(c) && IsSpace(c))
  {
  }

  /** The end of the run of characters of `s` of the same kind as the one at `at`. */
  method RunEnd(s: string, at: nat) returns (end: nat)
    requires at < |s|
    ensures at < end <= |s| && IsToken(s[at..end])
    ensures AllWord(s[at..end]) && end < |s| ==> !IsWord(s[end])
    ensures AllSpace(s[at..end]) && end < |s| ==> !IsSpace(s[end])
  {
    end := at + 1;
    WordOrSpace(s[at]);
    if IsWord(s[at]) {
      while end < |s| && IsWord(s[end])
        invariant at < end <= |s| && forall p :: at <= p < end ==> IsWord(s[p])
      {
        end := end + 1;
      }
    } else if IsSpace(s[at]) {
      while end < |s| && IsSpace(s[end])
        invariant at < end <= |s| && forall p :: at <= p < end ==> IsSpace(s[p])
      {
        end := end + 1;
      }
    }
    assert s[at..end][0] == s[at];
  }

  /** `toks` tiles `s` up to `at`, and the character there starts a new run. */
  ghost predicate Tokenized(toks: seq<Token>, s: string, at: nat) {
    && Tiles(toks, s) && Maximal(toks) && End(toks) == at
    && (toks != [] && at < |s| ==>
          !(AllWord(toks[|toks| - 1].text) && IsWord(s[at])) && !(AllSpace(toks[|toks| - 1].text) && IsSpace(s[at])))
  }

  lemma AppendToken(toks: seq<Token>, s: string, at: nat, end: nat)
    requires Tokenized(toks, s, at) && at < end <= |s| && IsToken(s[at..end])
    requires AllWord(s[at..end]) && end < |s| ==> !IsWord(s[end])
    requires AllSpace(s[at..end]) && end < |s| ==> !IsSpace(s[end])
    ensures Tokenized(toks + [Token(s[at..end], at)], s, end)
  {
    hide IsWord, IsSpace, IsToken, AllWord, AllSpace, Tiles, Maximal, SameRun;
    var tok := Token(s[at..end], at);
    if toks != [] {
      NewRun(toks[|toks| - 1], tok, s, at, end);
    }
    RunOver(s, at, end);
    TilesAppend(toks, tok, s);
    MaximalAppend(toks, tok);
  }

  lemma TilesAppend(toks: seq<Token>, tok: Token, s: string)
    requires Tiles(toks, s) && IsTokenOf(tok, s) && tok.start == End(toks)
    ensures Tiles(toks + [tok], s)
  {
    hide IsTokenOf;
    var more := toks + [tok];
    forall k | 0 <= k < |more| ensures IsTokenOf(more[k], s) && Follows(more, k) {
      assert k < |toks| ==> IsTokenOf(toks[k], s) && Follows(toks, k);
    }
  }

  lemma MaximalAppend(toks: seq<Token>, tok: Token)
    requires Maximal(toks) && (toks != [] ==> !SameRun(toks[|toks| - 1], tok))
    ensures Maximal(toks + [tok])
  {
    hide SameRun;
    var more := toks + [tok];
    forall k | 0 < k < |more| ensures !SameRun(more[k - 1], more[k]) {
      assert k < |toks| ==> !SameRun(toks[k - 1], toks[k]);
    }
  }

  lemma NewRun(last: Token, tok: Token, s: string, at: nat, end: nat)
    requires at < end <= |s| && tok == Token(s[at..end], at)
    requires !(AllWord(last.text) && IsWord(s[at])) && !(AllSpace(last.text) && IsSpace(s[at]))
    ensures !SameRun(last, tok)
  {
    hide IsWord, IsSpace;
    assert tok.text[0] == s[at];
  }

  lemma RunOver(s: string, at: nat, end: nat)
    requires at < end <= |s|
    requires AllWord(s[at..end]) && end < |s| ==> !IsWord(s[end])
    requires AllSpace(s[at..end]) && end < |s| ==> !IsSpace(s[end])
    ensures end < |s| ==> !(AllWord(s[at..end]) && IsWord(s[end])) && !(AllSpace(s[at..end]) && IsSpace(s[end]))
  {
  }

  method Tokenize(s: string) returns (toks: seq<Token>)
    ensures Tiles(toks, s) && End(toks) == |s| && Maximal(toks)
  {
    toks := [];
    var at := 0;
    while at < |s|
      invariant Tokenized(toks, s, at) && at <= |s|
    {
      hide Tokenized;
      var end := RunEnd(s, at);
      AppendToken(toks, s, at, end);
      toks := toks + [Token(s[at..end], at)];
      at := end;
    }
  }

  /* ---------- Ranges ---------- */

  predicate Contains(r: Range, p: nat) {
    r.start <= p < r.end
  }

  predicate Covered(ranges: seq<Range>, p: nat) {
    exists k :: 0 <= k < |ranges| && Contains(ranges[k], p)
  }

  /** Sorted, not empty, and with a gap between neighbours. */
  predicate Separated(ranges: seq<Range>, length: nat) {
    && (forall k :: 0 <= k < |ranges| ==> ranges[k].start < ranges[k].end <= length)
    && (forall k :: 0 < k < |ranges| ==> ranges[k - 1].end < ranges[k].start)
  }

  /** What is left of the first `n` characters of `s` after cutting the ranges out. */
  function Cut(s: string, ranges: seq<Range>, n: nat): string
    requires n <= |s|
  {
    if n == 0 then ""
    else Cut(s, ranges, n - 1) + (if Covered(ranges, n - 1) then "" else [s[n - 1]])
  }

  function Texts(toks: seq<Token>): (r: seq<string>)
    ensures |r| == |toks|
  {
    seq(|toks|, i requires 0 <= i < |toks| => toks[i].text)
  }

  function Join(parts: seq<string>): string
    decreases |parts|
  {
    if parts == [] then "" else Join(parts[..|parts| - 1]) + parts[|parts| - 1]
  }

  lemma JoinAppend(parts: seq<string>, part: string)
    ensures Join(parts + [part]) == Join(parts) + part
  {
    assert (parts + [part])[..|parts|] == parts;
  }

  /** The ranges cover exactly the characters of the first `k` tokens that are not flagged. */
  ghost predicate CoversUnflagged(toks: seq<Token>, flags: seq<bool>, ranges: seq<Range>, k: nat)
    requires k <= |toks| == |flags|
  {
    forall i, p :: 0 <= i < k && toks[i].start <= p < TokenEnd(toks[i]) ==> (Covered(ranges, p) <==> !flags[i])
  }

  lemma {:induction false} CutSpan(s: string, ranges: seq<Range>, lo: nat, hi: nat, covered: bool)
    requires lo <= hi <= |s|
    requires forall p :: lo <= p < hi ==> (Covered(ranges, p) <==> covered)
    ensures Cut(s, ranges, hi) == Cut(s, ranges, lo) + (if covered then "" else s[lo..hi])
    decreases hi
  {
    hide Covered;
    if lo < hi {
      CutSpan(s, ranges, lo, hi - 1, covered);
      if !covered {
        assert s[lo..hi] == s[lo..hi - 1] + [s[hi - 1]];
      }
    } else {
      assert s[lo..hi] == "";
    }
  }

  /** Cutting out the unflagged tokens leaves the flagged ones. */
  lemma {:induction false} CutLeavesFlagged(s: string, toks: seq<Token>, flags: seq<bool>, ranges: seq<Range>, k: nat)
    requires Tiles(toks, s) && k <= |toks| == |flags| && CoversUnflagged(toks, flags, ranges, k)
    ensures End(toks[..k]) <= |s|
    ensures Cut(s, ranges, End(toks[..k])) == Join(Picked(Texts(toks)[..k], flags[..k]))
  {
    hide Covered, Picked, Cut, IsToken;
    if k > 0 {
      CutLeavesFlagged(s, toks, flags, ranges, k - 1);
      var tok := toks[k - 1];
      var end := TokenEnd(tok);
      TokenEnds(toks, s, k - 1);
      CutSpan(s, ranges, tok.start, end, !flags[k - 1]);
      PickedSnoc(Texts(toks), flags, k - 1);
      JoinAppend(Picked(Texts(toks)[..k - 1], flags[..k - 1]), tok.text);
      assert Picked(Texts(toks)[..k - 1], flags[..k - 1]) + [] == Picked(Texts(toks)[..k - 1], flags[..k - 1]);
    } else {
      CutStart(s, ranges);
      PickedNone(Texts(toks)[..0], flags[..0]);
    }
  }

  lemma CutStart(s: string, ranges: seq<Range>)
    ensures Cut(s, ranges, 0) == ""
  {
  }

  lemma CoveredByLast(ranges: seq<Range>, last: Range, p: nat)
    ensures Covered(ranges + [last], p) <==> Covered(ranges, p) || Contains(last, p)
  {
    var more := ranges + [last];
    if Covered(ranges, p) {
      var k :| 0 <= k < |ranges| && Contains(ranges[k], p);
      assert Contains(more[k], p);
    }
    if Contains(last, p) {
      assert Contains(more[|ranges|], p);
    }
  }

  /** One unflagged token: extend the last range when it touches, else start a new one. */
  method AddRange(ranges: seq<Range>, start: nat, end: nat) returns (r: seq<Range>)
    requires Separated(ranges, start) && start < end
    ensures Separated(r, end)
    ensures forall p: nat :: Covered(r, p) <==> Covered(ranges, p) || start <= p < end
  {
    hide Covered;
    var n := |ranges|;
    if n > 0 && ranges[n - 1].end == start {
      var wide := Range(ranges[n - 1].start, end);
      r := ranges[n - 1 := wide];
      assert r == ranges[..n - 1] + [wide] && ranges == ranges[..n - 1] + [ranges[n - 1]];
      forall p: nat ensures Covered(r, p) <==> Covered(ranges, p) || start <= p < end {
        CoveredByLast(ranges[..n - 1], wide, p);
        CoveredByLast(ranges[..n - 1], ranges[n - 1], p);
      }
    } else {
      r := ranges + [Range(start, end)];
      forall p: nat ensures Covered(r, p) <==> Covered(ranges, p) || start <= p < end {
        CoveredByLast(ranges, Range(start, end), p);
      }
    }
  }

  lemma SeparatedWidens(ranges: seq<Range>, a: nat, b: nat)
    requires Separated(ranges, a) && a <= b
    ensures Separated(ranges, b)
  {
  }

  /** The characters of the tokens that are not flagged, adjacent ones merged. */
  method Collect(s: string, toks: seq<Token>, flags: seq<bool>) returns (ranges: seq<Range>)
    requires Tiles(toks, s) && End(toks) == |s| && |flags| == |toks|
    ensures Separated(ranges, |s|)
    ensures CoversUnflagged(toks, flags, ranges, |toks|)
  {
    hide Covered, IsTokenOf;
    ranges := [];
    NoneCovered();
    for i := 0 to |toks|
      invariant End(toks[..i]) <= |s| && Separated(ranges, End(toks[..i]))
      invariant forall p: nat :: Covered(ranges, p) ==> p < End(toks[..i])
      invariant CoversUnflagged(toks, flags, ranges, i)
    {
      hide Separated;
      var start := toks[i].start;
      var end := TokenEnd(toks[i]);
      TokenEnds(toks, s, i);
      EndsGrow(toks, s, i);
      if flags[i] {
        SeparatedWidens(ranges, start, end);
      } else {
        ranges := AddRange(ranges, start, end);
      }
    }
    assert toks[..|toks|] == toks;
  }

  lemma NoneCovered()
    ensures forall p: nat :: !Covered([], p)
  {
  }

  lemma TokenEnds(toks: seq<Token>, s: string, i: nat)
    requires Tiles(toks, s) && i < |toks|
    ensures |toks[i].text| > 0
    ensures toks[i].start == End(toks[..i])
    ensures End(toks[..i + 1]) == TokenEnd(toks[i]) <= |s|
  {
    assert IsTokenOf(toks[i], s);
    assert Follows(toks, i);
    if i > 0 {
      assert toks[..i][i - 1] == toks[i - 1];
    } else {
      assert toks[..i] == [];
    }
  }

  lemma {:induction false} EndsGrow(toks: seq<Token>, s: string, i: nat)
    requires Tiles(toks, s) && i < |toks|
    ensures forall k :: 0 <= k < i ==> TokenEnd(toks[k]) <= toks[i].start
  {
    if i > 0 {
      EndsGrow(toks, s, i - 1);
      TokenEnds(toks, s, i - 1);
      TokenEnds(toks, s, i);
    }
  }

  /** What the two lists of ranges promise: separated, and cutting them out leaves the same text on both sides. */
  ghost predicate Highlights(a: string, b: string, ra: seq<Range>, rb: seq<Range>) {
    && Separated(ra, |a|) && Separated(rb, |b|)
    && Cut(a, ra, |a|) == Cut(b, rb, |b|)
  }

  /** The text left is made of flagged tokens, a longest common sequence when the table is within its cap. */
  ghost predicate LeavesFlagged(a: string, b: string, ra: seq<Range>, ta: seq<Token>, tb: seq<Token>, fa: seq<bool>,
    fb: seq<bool>) {
    && Tiles(ta, a) && End(ta) == |a| && Maximal(ta) && Tiles(tb, b) && End(tb) == |b| && Maximal(tb)
    && |fa| == |ta| && (|ta| * |tb| <= MAX_CELLS ==> IsLongest(Texts(ta), Texts(tb), fa, fb))
    && Cut(a, ra, |a|) == Join(Picked(Texts(ta), fa))
  }

  ghost predicate LeavesLongest(a: string, b: string, ra: seq<Range>) {
    exists ta, tb, fa, fb :: LeavesFlagged(a, b, ra, ta, tb, fa, fb)
  }

  method WordRanges(a: string, b: string) returns (ra: seq<Range>, rb: seq<Range>)
    ensures Highlights(a, b, ra, rb)
    ensures LeavesLongest(a, b, ra)
  {
    hide Picked, Cut, Maximal, Tiles, IsLongest, Separated, CoversUnflagged, End;
    var ta := Tokenize(a);
    var tb := Tokenize(b);
    var fa, fb := LcsFlags(Texts(ta), Texts(tb));
    ra := Collect(a, ta, fa);
    rb := Collect(b, tb, fb);
    CutAll(a, ta, fa, ra);
    CutAll(b, tb, fb, rb);
    assert LeavesFlagged(a, b, ra, ta, tb, fa, fb);
  }

  lemma CutAll(s: string, toks: seq<Token>, flags: seq<bool>, ranges: seq<Range>)
    requires Tiles(toks, s) && End(toks) == |s| && |flags| == |toks|
    requires CoversUnflagged(toks, flags, ranges, |toks|)
    ensures Cut(s, ranges, |s|) == Join(Picked(Texts(toks), flags))
  {
    hide Picked, Cut;
    CutLeavesFlagged(s, toks, flags, ranges, |toks|);
    assert toks[..|toks|] == toks && flags[..|toks|] == flags && Texts(toks)[..|toks|] == Texts(toks);
  }
}
