/** `markRanges` of src/renderer/lib/conflictDiff.ts: mark character ranges of a highlighted
    HTML fragment without breaking its tags. */
module MarkRanges {
  import opened WordDiff

  /** What the output is made of: inserted mark tags, tags of the input, text characters
      (an entity is one), and what follows an unclosed `<`. */
  datatype Piece = Open | Close | Tag(text: string) | Glyph(text: string) | Tail(text: string)

  function OpenTag(cls: string): string {
    "<mark class=\"" + cls + "\">"
  }

  const CLOSE_TAG := "</mark>"

  function RenderPiece(p: Piece, cls: string): string {
    match p
    case Open => OpenTag(cls)
    case Close => CLOSE_TAG
    case Tag(text) => text
    case Glyph(text) => text
    case Tail(text) => text
  }

  function Render(pieces: seq<Piece>, cls: string): string
    decreases |pieces|
  {
    if pieces == [] then "" else Render(pieces[..|pieces| - 1], cls) + RenderPiece(pieces[|pieces| - 1], cls)
  }

  /** The pieces without the inserted mark tags. */
  function Unmarked(pieces: seq<Piece>): seq<Piece>
    decreases |pieces|
  {
    if pieces == [] then []
    else
      var p := pieces[|pieces| - 1];
      Unmarked(pieces[..|pieces| - 1]) + (if p.Open? || p.Close? then [] else [p])
  }

  /** Is a mark open after the pieces? */
  function InMark(pieces: seq<Piece>): bool
    decreases |pieces|
  {
    pieces != [] && (pieces[|pieces| - 1].Open? || (!pieces[|pieces| - 1].Close? && InMark(pieces[..|pieces| - 1])))
  }

  /** How many text characters the pieces show. */
  function TextLength(pieces: seq<Piece>): nat
    decreases |pieces|
  {
    if pieces == [] then 0 else TextLength(pieces[..|pieces| - 1]) + (if pieces[|pieces| - 1].Glyph? then 1 else 0)
  }

  /** Piece `p` may follow `before`: marks alternate, no tag is inside one, and a character is
      inside one exactly when a range contains its offset. */
  predicate Fits(before: seq<Piece>, p: Piece, ranges: seq<Range>) {
    match p
    case Open => !InMark(before)
    case Close => InMark(before)
    case Tag(_) => !InMark(before)
    case Glyph(_) => InMark(before) <==> Covered(ranges, TextLength(before))
    case Tail(_) => true
  }

  ghost predicate WellMarked(pieces: seq<Piece>, ranges: seq<Range>) {
    && (forall k :: 0 <= k < |pieces| ==> Fits(pieces[..k], pieces[k], ranges))
    && !InMark(pieces)
  }

  /** No mark is empty: a character follows each opening tag. */
  ghost predicate NoEmptyMarks(pieces: seq<Piece>) {
    forall k :: 0 <= k < |pieces| && pieces[k].Open? ==> k + 1 < |pieces| && pieces[k + 1].Glyph?
  }

  /* ---------- The pieces of the input ---------- */

  predicate IsLetter(c: char) {
    'a' <= c <= 'z' || 'A' <= c <= 'Z'
  }

  predicate IsDigit(c: char) {
    '0' <= c <= '9'
  }

  predicate IsHex(c: char) {
    IsDigit(c) || 'a' <= c <= 'f' || 'A' <= c <= 'F'
  }

  /** The same by the codes of ASCII. */
  lemma KindsOfCharacters(c: char, x: int)
    requires x == c as int
    ensures IsDigit(c) <==> 0x30 <= x <= 0x39
    ensures IsLetter(c) <==> 0x41 <= x <= 0x5a || 0x61 <= x <= 0x7a
    ensures IsHex(c) <==> IsDigit(c) || (IsLetter(c) && x % 0x20 <= 6)
  {
  }

  /** Where the run of characters of one kind from `at` on ends. */
  function RunEnd(s: string, at: nat, kind: char -> bool): (end: nat)
    requires at <= |s|
    ensures at <= end <= |s|
    decreases |s| - at
  {
    if at < |s| && kind(s[at]) then RunEnd(s, at + 1, kind) else at
  }

  /** The length of a non-empty run from `at` on closed by a semicolon, else 0. */
  function Closed(s: string, at: nat, kind: char -> bool): (end: nat)
    requires at <= |s|
    ensures end == 0 || at + 2 <= end <= |s|
  {
    var end := RunEnd(s, at, kind);
    if end > at && end < |s| && s[end] == ';' then end + 1 else 0
  }

  /** The length of the entity at the start of `s`, 0 when there is none. */
  function EntityLength(s: string): (n: nat)
    requires |s| > 0
    ensures n <= |s|
  {
    if |s| < 2 then 0
    else if s[1] != '#' then Closed(s, 1, IsLetter)
    else if |s| > 2 && s[2] == 'x' then Closed(s, 3, IsHex)
    else Closed(s, 2, IsDigit)
  }

  /** The first `>` at or after `i`, or the length. */
  function TagEnd(html: string, i: nat): (end: nat)
    requires i <= |html|
    ensures i <= end <= |html|
    decreases |html| - i
  {
    if i == |html| || html[i] == '>' then i else TagEnd(html, i + 1)
  }

  function Clip(html: string, i: nat): string
    requires i <= |html|
  {
    if i + 12 <= |html| then html[i..i + 12] else html[i..]
  }

  /** The piece of the input that starts at `i`. */
  function PieceAt(html: string, i: nat): (p: Piece)
    requires i < |html|
    ensures !p.Open? && !p.Close?
    ensures 0 < |p.text| <= |html| - i && p.text == html[i..i + |p.text|]
  {
    if html[i] == '<' then
      var end := TagEnd(html, i);
      if end == |html| then Tail(html[i..]) else Tag(html[i..end + 1])
    else
      var n := if html[i] == '&' then EntityLength(Clip(html, i)) else 0;
      if n > 0 then Glyph(html[i..i + n]) else Glyph(html[i..i + 1])
  }

  /* ---------- What the pieces are ---------- */

  ghost predicate AllAre(s: string, kind: char -> bool) {
    s != "" && forall i :: 0 <= i < |s| ==> kind(s[i])
  }

  /** The name or the number of a character, between `&` and `;`. */
  ghost predicate IsEntity(t: string) {
    |t| >= 3 && t[0] == '&' && t[|t| - 1] == ';' && IsCharacterName(t[1..|t| - 1])
  }

  ghost predicate IsCharacterName(name: string) {
    || AllAre(name, IsLetter)
    || (|name| >= 1 && name[0] == '#' && AllAre(name[1..], IsDigit))
    || (|name| >= 2 && name[0] == '#' && name[1] == 'x' && AllAre(name[2..], IsHex))
  }

  lemma {:induction false} RunEndIsFirst(s: string, at: nat, kind: char -> bool, end: nat)
    requires at <= end < |s| && !kind(s[end]) && forall k :: at <= k < end ==> kind(s[k])
    ensures RunEnd(s, at, kind) == end
    decreases end - at
  {
    if at < end {
      RunEndIsFirst(s, at + 1, kind, end);
    }
  }

  lemma {:induction false} RunEndRuns(s: string, at: nat, kind: char -> bool)
    requires at <= |s|
    ensures forall k :: at <= k < RunEnd(s, at, kind) ==> kind(s[k])
    decreases |s| - at
  {
    if at < |s| && kind(s[at]) {
      RunEndRuns(s, at + 1, kind);
    }
  }

  /** A closed run is what stands between `at` and its semicolon. */
  lemma ClosedExactly(s: string, at: nat, kind: char -> bool, n: nat)
    requires 0 < at <= |s| && 0 < n && !kind(';')
    ensures Closed(s, at, kind) == n <==>
      (at + 2 <= n <= |s| && s[n - 1] == ';' && AllAre(s[at..n - 1], kind))
  {
    RunEndRuns(s, at, kind);
    var end := RunEnd(s, at, kind);
    if at + 2 <= n <= |s| && s[n - 1] == ';' && AllAre(s[at..n - 1], kind) {
      forall k | at <= k < n - 1 ensures kind(s[k]) {
        assert s[at..n - 1][k - at] == s[k];
      }
      RunEndIsFirst(s, at, kind, n - 1);
    }
  }

  lemma FirstOf(s: string, kind: char -> bool)
    requires AllAre(s, kind)
    ensures kind(s[0])
  {
  }

  /** The entity at the start is found, and whole, exactly when there is one. */
  lemma EntityExactly(s: string, n: nat)
    requires s != "" && s[0] == '&' && 0 < n <= |s|
    ensures EntityLength(s) == n <==> IsEntity(s[..n])
  {
    hide Closed, AllAre;
    if n >= 3 {
      var name := s[1..n - 1];
      assert s[..n][1..n - 1] == name && name[1..] == s[2..n - 1];
      if n >= 4 {
        assert name[2..] == s[3..n - 1];
      }
      NameExactly(s, n, name);
    } else {
      TooShort(s, n);
    }
  }

  lemma TooShort(s: string, n: nat)
    requires s != "" && 0 < n < 3
    ensures EntityLength(s) != n
  {
  }

  lemma NameExactly(s: string, n: nat, name: string)
    requires 3 <= n <= |s| && name == s[1..n - 1] && name[1..] == s[2..n - 1] && (n >= 4 ==> name[2..] == s[3..n - 1])
    ensures EntityLength(s) == n <==> s[n - 1] == ';' && IsCharacterName(name)
  {
    hide Closed, AllAre;
    ClosedExactly(s, 1, IsLetter, n);
    ClosedExactly(s, 2, IsDigit, n);
    ClosedExactly(s, 3, IsHex, n);
    NothingIsNoRun(IsDigit);
    NothingIsNoRun(IsHex);
    if AllAre(name, IsLetter) {
      FirstOf(name, IsLetter);
    }
    if AllAre(name[1..], IsDigit) {
      FirstOf(name[1..], IsDigit);
    }
  }

  lemma NothingIsNoRun(kind: char -> bool)
    ensures !AllAre("", kind)
  {
  }

  ghost predicate EntityAt(html: string, i: nat, n: nat) {
    1 < n <= 12 && i + n <= |html| && IsEntity(html[i..i + n])
  }

  lemma EntityAtExactly(html: string, i: nat, n: nat)
    requires i < |html| && n > 0
    ensures EntityAt(html, i, n) <==> html[i] == '&' && EntityLength(Clip(html, i)) == n
  {
    var s := Clip(html, i);
    if i + n <= |html| && n <= 12 {
      assert s[..n] == html[i..i + n];
    }
    hide EntityLength, Clip;
    LengthIsClipped(html, i);
    if html[i] == '&' && n <= |s| {
      EntityExactly(s, n);
    }
  }

  lemma LengthIsClipped(html: string, i: nat)
    requires i < |html|
    ensures var s := Clip(html, i); s != "" && s[0] == html[i] && |s| <= 12 && i + |s| <= |html|
    ensures i + 12 <= |html| || |Clip(html, i)| == |html| - i
    ensures |Clip(html, i)| == 12 || |Clip(html, i)| == |html| - i
    ensures EntityLength(Clip(html, i)) <= |Clip(html, i)| && EntityLength(Clip(html, i)) != 1
  {
  }

  /** A `<` begins a tag up to the next `>`, or the tail if there is none; any other character stands for itself, but
      for the ampersand of an entity of at most twelve characters, which is one character. */
  lemma PieceExactly(html: string, i: nat)
    requires i < |html|
    ensures var p := PieceAt(html, i); var end := i + |p.text|;
      && (html[i] == '<' <==> p.Tag? || p.Tail?)
      && (p.Tag? ==> html[end - 1] == '>' && '>' !in html[i..end - 1])
      && (p.Tail? ==> end == |html| && '>' !in html[i..])
      && (p.Glyph? && |p.text| > 1 ==> EntityAt(html, i, |p.text|))
      && (p.Glyph? && |p.text| == 1 ==> forall n: nat :: !EntityAt(html, i, n))
  {
    hide EntityLength, EntityAt, Clip;
    var p := PieceAt(html, i);
    if html[i] == '<' {
      TagEndIsFirst(html, i);
    } else {
      LengthIsClipped(html, i);
      forall n: nat ensures EntityAt(html, i, n) <==>
        n > 0 && html[i] == '&' && EntityLength(Clip(html, i)) == n {
        if n > 0 {
          EntityAtExactly(html, i, n);
        } else {
          NoEmptyEntity(html, i);
        }
      }
    }
  }

  lemma NoEmptyEntity(html: string, i: nat)
    ensures !EntityAt(html, i, 0)
  {
  }

  lemma {:induction false} TagEndIsFirst(html: string, i: nat)
    requires i <= |html|
    ensures '>' !in html[i..TagEnd(html, i)] && (TagEnd(html, i) < |html| ==> html[TagEnd(html, i)] == '>')
    decreases |html| - i
  {
    if i < |html| && html[i] != '>' {
      TagEndIsFirst(html, i + 1);
      var end := TagEnd(html, i);
      assert html[i..end] == [html[i]] + html[i + 1..end];
    }
  }

  function Pieces(html: string, i: nat): seq<Piece>
    requires i <= |html|
    decreases |html| - i
  {
    if i == |html| then [] else [PieceAt(html, i)] + Pieces(html, i + |PieceAt(html, i).text|)
  }

  /** Every `<` of the input is closed. */
  ghost predicate TagsClosed(html: string) {
    forall i :: 0 <= i < |html| && html[i] == '<' ==> TagEnd(html, i) < |html|
  }

  /* ---------- Lists of pieces ---------- */

  lemma RenderAppend(pieces: seq<Piece>, p: Piece, cls: string)
    ensures Render(pieces + [p], cls) == Render(pieces, cls) + RenderPiece(p, cls)
  {
    assert (pieces + [p])[..|pieces|] == pieces;
  }

  lemma {:induction false} RenderConcat(a: seq<Piece>, b: seq<Piece>, cls: string)
    ensures Render(a + b, cls) == Render(a, cls) + Render(b, cls)
    decreases |b|
  {
    if b == [] {
      assert a + b == a;
    } else {
      var n := |b| - 1;
      assert a + b == (a + b[..n]) + [b[n]] && b == b[..n] + [b[n]];
      RenderAppend(a + b[..n], b[n], cls);
      RenderConcat(a, b[..n], cls);
    }
  }

  lemma RenderOne(p: Piece, cls: string)
    ensures Render([p], cls) == RenderPiece(p, cls)
  {
    assert [p] == [] + [p];
    RenderAppend([], p, cls);
    assert "" + RenderPiece(p, cls) == RenderPiece(p, cls);
  }

  /** The pieces of the input are the input. */
  lemma {:induction false} RenderPieces(html: string, i: nat, cls: string)
    requires i <= |html|
    ensures Render(Pieces(html, i), cls) == html[i..]
    decreases |html| - i
  {
    hide PieceAt, Render, RenderPiece;
    if i < |html| {
      var p := PieceAt(html, i);
      var next := i + |p.text|;
      RenderPieces(html, next, cls);
      RenderConcat([p], Pieces(html, next), cls);
      RenderOne(p, cls);
      RenderText(p, cls);
      assert html[i..] == html[i..next] + html[next..];
    } else {
      RenderNone(cls);
      assert html[i..] == "";
    }
  }

  lemma RenderText(p: Piece, cls: string)
    requires !p.Open? && !p.Close?
    ensures RenderPiece(p, cls) == p.text
  {
  }

  lemma RenderNone(cls: string)
    ensures Render([], cls) == ""
  {
  }

  /** Without marks nothing changes, and nothing is marked. */
  lemma {:induction false} PlainPieces(html: string, i: nat)
    requires i <= |html|
    ensures forall k :: 0 <= k < |Pieces(html, i)| ==> !Pieces(html, i)[k].Open? && !Pieces(html, i)[k].Close?
    decreases |html| - i
  {
    hide PieceAt;
    if i < |html| {
      PlainPieces(html, i + |PieceAt(html, i).text|);
    }
  }

  lemma {:induction false} PlainStaysOut(pieces: seq<Piece>)
    requires forall k :: 0 <= k < |pieces| ==> !pieces[k].Open? && !pieces[k].Close?
    ensures !InMark(pieces) && Unmarked(pieces) == pieces
    decreases |pieces|
  {
    if pieces != [] {
      PlainStaysOut(pieces[..|pieces| - 1]);
    }
  }

  /** When no range contains anything, the pieces of the input are well marked as they are. */
  lemma PlainIsWellMarked(html: string, ranges: seq<Range>)
    requires forall k :: 0 <= k < |ranges| ==> ranges[k].end <= ranges[k].start
    ensures WellMarked(Pieces(html, 0), ranges) && NoEmptyMarks(Pieces(html, 0)) &&
      Unmarked(Pieces(html, 0)) == Pieces(html, 0)
  {
    var pieces := Pieces(html, 0);
    PlainPieces(html, 0);
    PlainStaysOut(pieces);
    forall k | 0 <= k < |pieces| ensures Fits(pieces[..k], pieces[k], ranges) {
      PlainStaysOut(pieces[..k]);
    }
  }

  /* ---------- The sorted ranges ---------- */

  ghost predicate SortedByStart(s: seq<Range>) {
    forall i, j :: 0 <= i < j < |s| ==> s[i].start <= s[j].start
  }

  function Insert(s: seq<Range>, r: Range): (t: seq<Range>)
    requires SortedByStart(s)
    ensures SortedByStart(t) && multiset(t) == multiset(s) + multiset{r}
    decreases |s|
  {
    if s == [] || s[|s| - 1].start <= r.start then s + [r]
    else
      var t := Insert(s[..|s| - 1], r);
      InsertBelow(s, r, t);
      t + [s[|s| - 1]]
  }

  lemma InsertBelow(s: seq<Range>, r: Range, t: seq<Range>)
    requires s != [] && SortedByStart(s) && SortedByStart(t) && r.start < s[|s| - 1].start
    requires multiset(t) == multiset(s[..|s| - 1]) + multiset{r}
    ensures SortedByStart(t + [s[|s| - 1]])
    ensures multiset(t + [s[|s| - 1]]) == multiset(s) + multiset{r}
  {
    var n := |s| - 1;
    assert s == s[..n] + [s[n]];
    forall i | 0 <= i < |t| ensures t[i].start <= s[n].start {
      assert t[i] in multiset(t);
      assert t[i] in multiset(s[..n]) || t[i] == r;
      assert t[i] in multiset(s[..n]) ==> t[i] in s[..n];
    }
  }

  /** The non-empty ranges by start, equal starts in the order given. */
  function Sorted(ranges: seq<Range>): (s: seq<Range>)
    ensures SortedByStart(s)
    decreases |ranges|
  {
    if ranges == [] then []
    else
      var last := ranges[|ranges| - 1];
      if last.end > last.start then Insert(Sorted(ranges[..|ranges| - 1]), last) else Sorted(ranges[..|ranges| - 1])
  }

  lemma {:induction false} SortedMembers(ranges: seq<Range>)
    ensures forall r :: r in Sorted(ranges) <==> r in ranges && r.end > r.start
    decreases |ranges|
  {
    if ranges != [] {
      var n := |ranges| - 1;
      SortedMembers(ranges[..n]);
      assert ranges == ranges[..n] + [ranges[n]];
      var rest := Sorted(ranges[..n]);
      if ranges[n].end > ranges[n].start {
        InsertMembers(rest, ranges[n]);
      }
    }
  }

  lemma InsertMembers(s: seq<Range>, r: Range)
    requires SortedByStart(s)
    ensures forall x :: x in Insert(s, r) <==> x in s || x == r
  {
    var t := Insert(s, r);
    forall x ensures x in t <==> x in s || x == r {
      assert x in t <==> x in multiset(t);
      assert x in s <==> x in multiset(s);
    }
  }

  /** Past the ranges that ended, the next one decides whether a position is covered. */
  lemma NextRangeDecides(ranges: seq<Range>, sorted: seq<Range>, ri: nat, pos: nat)
    requires sorted == Sorted(ranges) && ri <= |sorted|
    requires forall k :: 0 <= k < ri ==> sorted[k].end <= pos
    requires ri < |sorted| ==> sorted[ri].end > pos
    ensures Covered(ranges, pos) <==> ri < |sorted| && sorted[ri].start <= pos
  {
    SortedMembers(ranges);
    if Covered(ranges, pos) {
      var k :| 0 <= k < |ranges| && Contains(ranges[k], pos);
      assert ranges[k] in ranges;
      var m :| 0 <= m < |sorted| && sorted[m] == ranges[k];
    }
    if ri < |sorted| && sorted[ri].start <= pos {
      assert sorted[ri] in sorted;
      var k :| 0 <= k < |ranges| && ranges[k] == sorted[ri];
      assert Contains(ranges[k], pos);
    }
  }

  /* ---------- The marker ---------- */

  lemma FitsAppend(pieces: seq<Piece>, p: Piece, ranges: seq<Range>)
    requires forall k :: 0 <= k < |pieces| ==> Fits(pieces[..k], pieces[k], ranges)
    requires Fits(pieces, p, ranges)
    ensures forall k :: 0 <= k <= |pieces| ==> Fits((pieces + [p])[..k], (pieces + [p])[k], ranges)
    ensures (pieces + [p])[..|pieces|] == pieces
  {
    hide Fits;
    var more := pieces + [p];
    forall k | 0 <= k <= |pieces| ensures Fits(more[..k], more[k], ranges) {
      assert more[..k] == pieces[..k];
      assert k == |pieces| ==> pieces[..k] == pieces;
    }
  }

  /** The variables of `markRanges` that its inner functions share. */
  class Marker {
    const cls: string
    const sorted: seq<Range>
    ghost const ranges: seq<Range>
    var out: string
    var pos: nat
    var ri: nat
    var inMark: bool
    ghost var pieces: seq<Piece>

    ghost predicate Valid()
      reads this
    {
      && sorted == Sorted(ranges) && ri <= |sorted|
      && (forall k :: 0 <= k < ri ==> sorted[k].end <= pos)
      && out == Render(pieces, cls) && inMark == InMark(pieces) && pos == TextLength(pieces)
      && (forall k :: 0 <= k < |pieces| ==> Fits(pieces[..k], pieces[k], ranges))
    }

    constructor (ranges: seq<Range>, cls: string)
      ensures Valid() && pieces == [] && this.ranges == ranges && this.cls == cls
    {
      this.cls, this.ranges := cls, ranges;
      sorted := Sorted(ranges);
      out, pos, ri, inMark, pieces := "", 0, 0, false, [];
    }

    /** Write one piece that fits. */
    method Write(p: Piece)
      requires Valid() && Fits(pieces, p, ranges)
      modifies `out, `pos, `inMark, `pieces
      ensures Valid() && pieces == old(pieces) + [p]
    {
      hide Fits, Render, RenderPiece;
      RenderAppend(pieces, p, cls);
      FitsAppend(pieces, p, ranges);
      out := out + RenderPiece(p, cls);
      pieces := pieces + [p];
      inMark := if p.Open? then true else if p.Close? then false else inMark;
      pos := if p.Glyph? then pos + 1 else pos;
    }

    method Enter()
      requires Valid()
      modifies `out, `pos, `inMark, `pieces
      ensures Valid() && InMark(pieces)
      ensures pieces == if InMark(old(pieces)) then old(pieces) else old(pieces) + [Open]
    {
      if !inMark {
        Write(Open);
      }
    }

    method Leave()
      requires Valid()
      modifies `out, `pos, `inMark, `pieces
      ensures Valid() && !InMark(pieces)
      ensures pieces == if InMark(old(pieces)) then old(pieces) + [Close] else old(pieces)
    {
      if inMark {
        Write(Close);
      }
    }

    /** Open or close a mark so that the next character may be written. */
    method SyncAt()
      requires Valid()
      modifies `out, `pos, `ri, `inMark, `pieces
      ensures Valid() && TextLength(pieces) == TextLength(old(pieces))
      ensures InMark(pieces) <==> Covered(ranges, TextLength(pieces))
      ensures pieces == old(pieces) || pieces == old(pieces) + [Open] || pieces == old(pieces) + [Close]
    {
      hide Render, RenderPiece, Fits;
      while ri < |sorted| && sorted[ri].end <= pos
        invariant Valid() && pieces == old(pieces)
        decreases |sorted| - ri
      {
        ri := ri + 1;
      }
      NextRangeDecides(ranges, sorted, ri, pos);
      if ri < |sorted| && sorted[ri].start <= pos < sorted[ri].end {
        Enter();
      } else {
        Leave();
      }
    }
  }

  /** What the marked output is made of. */
  ghost predicate IsMarking(pieces: seq<Piece>, html: string, ranges: seq<Range>) {
    Unmarked(pieces) == Pieces(html, 0) && WellMarked(pieces, ranges) && NoEmptyMarks(pieces)
  }

  /** Without its marks the output is the input, cut into its tags and characters; and only a tag that is never closed
      is a tail. */
  ghost predicate IsMarkingOf(pieces: seq<Piece>, html: string, ranges: seq<Range>, cls: string) {
    && IsMarking(pieces, html, ranges) && Render(Unmarked(pieces), cls) == html
    && (TagsClosed(html) ==> forall k :: 0 <= k < |Unmarked(pieces)| ==> !Unmarked(pieces)[k].Tail?)
  }

  /** Where the loop stands at the start of a piece of the input. */
  ghost predicate Reached(pieces: seq<Piece>, html: string, i: nat)
    requires i <= |html|
  {
    && Unmarked(pieces) + Pieces(html, i) == Pieces(html, 0)
    && NoEmptyMarks(pieces)
  }

  lemma UnmarkedAppend(pieces: seq<Piece>, p: Piece)
    ensures Unmarked(pieces + [p]) == Unmarked(pieces) + (if p.Open? || p.Close? then [] else [p])
  {
    assert (pieces + [p])[..|pieces|] == pieces;
  }

  /** A mark may close before any piece. */
  lemma ReachedClose(pieces: seq<Piece>, html: string, i: nat)
    requires i <= |html| && Reached(pieces, html, i)
    ensures Reached(pieces + [Close], html, i)
  {
    hide Pieces;
    UnmarkedAppend(pieces, Close);
    assert Unmarked(pieces) + [] == Unmarked(pieces);
    MarksAppend(pieces, Close);
  }

  lemma MarksAppend(pieces: seq<Piece>, p: Piece)
    requires NoEmptyMarks(pieces) && !p.Open?
    ensures NoEmptyMarks(pieces + [p])
  {
    var more := pieces + [p];
    forall k | 0 <= k < |more| && more[k].Open? ensures k + 1 < |more| && more[k + 1].Glyph? {
      assert pieces[k].Open?;
    }
  }

  lemma MarksAppendMarked(pieces: seq<Piece>, p: Piece)
    requires NoEmptyMarks(pieces) && p.Glyph?
    ensures NoEmptyMarks(pieces + [Open] + [p])
  {
    var more := pieces + [Open] + [p];
    forall k | 0 <= k < |more| && more[k].Open? ensures k + 1 < |more| && more[k + 1].Glyph? {
      assert k < |pieces| ==> pieces[k].Open?;
    }
  }

  /** Writing the piece at `i` moves on to the next. */
  lemma ReachedNext(pieces: seq<Piece>, html: string, i: nat)
    requires i < |html| && Reached(pieces, html, i)
    ensures var p := PieceAt(html, i); Reached(pieces + [p], html, i + |p.text|)
    ensures var p := PieceAt(html, i); p.Glyph? ==> Reached(pieces + [Open] + [p], html, i + |p.text|)
  {
    hide PieceAt, NoEmptyMarks, Unmarked;
    var p := PieceAt(html, i);
    var rest := Pieces(html, i + |p.text|);
    assert Pieces(html, i) == [p] + rest;
    UnmarkedAppend(pieces, p);
    hide Pieces;
    MoveOver(Unmarked(pieces), p, rest);
    MarksAppend(pieces, p);
    if p.Glyph? {
      UnmarkedAppend(pieces, Open);
      UnmarkedAppend(pieces + [Open], p);
      MoveOver(Unmarked(pieces), p, rest);
      MarksAppendMarked(pieces, p);
    }
  }

  lemma MoveOver<T>(a: seq<T>, p: T, rest: seq<T>)
    ensures a + ([p] + rest) == (a + [p]) + rest && a + [] == a
  {
  }

  lemma ReachedEnd(pieces: seq<Piece>, html: string)
    requires Reached(pieces, html, |html|)
    ensures Unmarked(pieces) == Pieces(html, 0) && NoEmptyMarks(pieces)
  {
    assert Pieces(html, |html|) == [];
    assert Unmarked(pieces) + [] == Unmarked(pieces);
  }

  lemma FirstPiece(html: string, i: nat)
    requires i < |html|
    ensures var p := PieceAt(html, i);
      0 < |p.text| <= |html| - i && Pieces(html, i) == [p] + Pieces(html, i + |p.text|)
  {
    hide PieceAt;
  }

  lemma {:induction false} TailOnlyWhenOpen(html: string, i: nat)
    requires i <= |html| && TagsClosed(html)
    ensures forall k :: 0 <= k < |Pieces(html, i)| ==> !Pieces(html, i)[k].Tail?
    decreases |html| - i
  {
    hide PieceAt, TagsClosed;
    if i < |html| {
      hide *;
      NoTailAt(html, i);
      FirstPiece(html, i);
      var p := PieceAt(html, i);
      TailOnlyWhenOpen(html, i + |p.text|);
      NoTailBehind(p, Pieces(html, i + |p.text|));
    }
  }

  lemma NoTailBehind(p: Piece, rest: seq<Piece>)
    requires !p.Tail? && forall k :: 0 <= k < |rest| ==> !rest[k].Tail?
    ensures forall k :: 0 <= k < |[p] + rest| ==> !([p] + rest)[k].Tail?
  {
  }

  lemma NoTailAt(html: string, i: nat)
    requires i < |html| && TagsClosed(html)
    ensures !PieceAt(html, i).Tail?
  {
    hide EntityLength, Clip, TagEnd;
  }

  /** Wrap the ranges in marks. Nothing of the input is lost, marks alternate and hold no tag,
      and the character at offset p is marked exactly when a range contains p. */
  method Mark(html: string, ranges: seq<Range>, cls: string) returns (out: string)
    ensures exists pieces :: out == Render(pieces, cls) && IsMarkingOf(pieces, html, ranges, cls)
  {
    ghost var pieces: seq<Piece>;
    hide Pieces, PieceAt, Render, Fits, Unmarked, WellMarked, NoEmptyMarks;
    RenderPieces(html, 0, cls);
    assert html[0..] == html;
    if TagsClosed(html) {
      TailOnlyWhenOpen(html, 0);
    }
    SortedMembers(ranges);
    var sorted := Sorted(ranges);
    if |ranges| == 0 || |sorted| == 0 {
      pieces := Pieces(html, 0);
      forall k | 0 <= k < |ranges| ensures ranges[k].end <= ranges[k].start {
        assert ranges[k] in ranges;
      }
      PlainIsWellMarked(html, ranges);
      out := html;
      assert out == Render(pieces, cls) && IsMarkingOf(pieces, html, ranges, cls);
      return;
    }
    var m := new Marker(ranges, cls);
    var i := 0;
    NothingReached(html);
    while i < |html|
      invariant m.Valid() && m.ranges == ranges && m.cls == cls && i <= |html|
      invariant Reached(m.pieces, html, i)
      decreases |html| - i
    {
      i := WritePiece(m, html, i);
    }
    ReachedEnd(m.pieces, html);
    ghost var before := m.pieces;
    m.Leave();
    if m.pieces != before {
      ReachedClose(before, html, |html|);
      ReachedEnd(m.pieces, html);
    }
    pieces := m.pieces;
    out := m.out;
    AllFit(pieces, ranges);
    assert out == Render(pieces, cls) && IsMarkingOf(pieces, html, ranges, cls);
  }

  lemma AllFit(pieces: seq<Piece>, ranges: seq<Range>)
    requires (forall k :: 0 <= k < |pieces| ==> Fits(pieces[..k], pieces[k], ranges)) && !InMark(pieces)
    ensures WellMarked(pieces, ranges)
  {
  }

  lemma NothingReached(html: string)
    ensures Reached([], html, 0)
  {
    assert Unmarked([]) + Pieces(html, 0) == Pieces(html, 0);
  }

  lemma TextFits(pieces: seq<Piece>, p: Piece, ranges: seq<Range>)
    requires !p.Open? && !p.Close? && (p.Tag? ==> !InMark(pieces))
    requires p.Glyph? ==> (InMark(pieces) <==> Covered(ranges, TextLength(pieces)))
    ensures Fits(pieces, p, ranges)
  {
  }

  /** A tag closes the mark. */
  method WriteTag(m: Marker, html: string, i: nat, p: Piece)
    requires m.Valid() && i < |html| && Reached(m.pieces, html, i) && p == PieceAt(html, i) && p.Tag?
    modifies m
    ensures m.Valid() && Reached(m.pieces, html, i + |p.text|)
  {
    hide *;
    ghost var before := m.pieces;
    m.Leave();
    if m.pieces != before {
      ReachedClose(before, html, i);
    }
    ReachedNext(m.pieces, html, i);
    TextFits(m.pieces, p, m.ranges);
    m.Write(p);
  }

  /** A character opens or closes a mark first. */
  method WriteGlyph(m: Marker, html: string, i: nat, p: Piece)
    requires m.Valid() && i < |html| && Reached(m.pieces, html, i) && p == PieceAt(html, i) && p.Glyph?
    modifies m
    ensures m.Valid() && Reached(m.pieces, html, i + |p.text|)
  {
    hide *;
    ghost var before := m.pieces;
    m.SyncAt();
    if m.pieces == before + [Close] {
      ReachedClose(before, html, i);
      ReachedNext(m.pieces, html, i);
    } else {
      ReachedNext(before, html, i);
    }
    TextFits(m.pieces, p, m.ranges);
    m.Write(p);
  }

  /** The body of the loop: an unclosed tag is the rest, a tag closes the mark, a character opens or closes one
      first. */
  method WritePiece(m: Marker, html: string, i: nat) returns (next: nat)
    requires m.Valid() && i < |html| && Reached(m.pieces, html, i)
    modifies m
    ensures m.Valid() && i < next <= |html| && Reached(m.pieces, html, next)
  {
    hide *;
    var p := PieceAt(html, i);
    next := i + |p.text|;
    if p.Tail? {
      ReachedNext(m.pieces, html, i);
      TextFits(m.pieces, p, m.ranges);
      m.Write(p);
    } else if p.Tag? {
      WriteTag(m, html, i, p);
    } else {
      WriteGlyph(m, html, i, p);
    }
  }
}
