/** `diff --git` lines with quoted paths: `parseGitHeader` of packages/peer-protocol/src/forge.ts on what git writes,
    with the decoding of `QuotedPath`. */
module QuotedHeader {
  import opened Options
  import opened QuotedPath
  import opened UnifiedDiff

  /* ---------- Text and code units ---------- */

  /** A code unit as a character. Surrogates are no characters; the character 0x10000 above stands for one. */
  function Char(u: nat): char {
    if u < 0xd800 || 0xe000 <= u < 0x10000 then u as char else if u < 0x10000 then (u + 0x10000) as char else '\U{fffd}'
  }

  function Unit(c: char): nat {
    var u := c as int;
    if 0x1d800 <= u < 0x1e000 then u - 0x10000 else u
  }

  function TextOf(u: seq<nat>): (s: string)
    ensures |s| == |u|
  {
    seq(|u|, i requires 0 <= i < |u| => Char(u[i]))
  }

  function Units(s: string): (u: seq<nat>)
    ensures |u| == |s|
  {
    seq(|s|, i requires 0 <= i < |s| => Unit(s[i]))
  }

  predicate AreUnits(u: seq<nat>) {
    forall i :: 0 <= i < |u| ==> u[i] < 0x10000
  }

  lemma UnitsOfText(u: seq<nat>)
    requires AreUnits(u)
    ensures Units(TextOf(u)) == u
  {
  }

  lemma TextBoth(a: seq<nat>, b: seq<nat>)
    ensures TextOf(a + b) == TextOf(a) + TextOf(b)
  {
  }

  /** `unquotePath` on strings; where it throws, there is no text. */
  function UnquoteText(s: string): string {
    var u := Unquoted(Units(s));
    if u.Some? then TextOf(u.value) else ""
  }

  /* ---------- Paths as git writes them ---------- */

  const A_PREFIX: seq<Byte> := [97, 47]
  const B_PREFIX: seq<Byte> := [98, 47]

  /** A path in quotes, escaped byte by byte where it has to be. */
  function Quote(b: seq<Byte>): string {
    TextOf(InQuotes(WriteBytes(b)))
  }

  /** The path that the bytes are read as. */
  function Read(b: seq<Byte>): string {
    var u := Decoded(b);
    if u.Some? then TextOf(u.value) else ""
  }

  lemma {:induction false} WrittenAreUnits(b: seq<Byte>)
    ensures AreUnits(WriteBytes(b))
    decreases |b|
  {
    if b != [] {
      WrittenAreUnits(b[1..]);
      var w := WriteByte(b[0]);
      assert AreUnits(w);
    }
  }

  lemma QuoteIsRead(b: seq<Byte>)
    ensures UnquoteText(Quote(b)) == Read(b)
  {
    hide Unquoted, Decoded, WriteBytes, Units, TextOf;
    WrittenAreUnits(b);
    UnitsOfText(InQuotes(WriteBytes(b)));
    UnquoteUndoesQuote(b);
  }

  /** An ASCII letter and a slash in front are read as themselves. */
  lemma PrefixIsRead(x: Byte, b: seq<Byte>)
    requires x < 0x80 && Decoded(b).Some?
    ensures Read([x, 47] + b) == [Char(x), '/'] + Read(b)
  {
    hide Decoded, TextOf;
    var r := Decoded(b).value;
    var tail := [47 as Byte] + b;
    assert [x, 47] + b == [x] + tail;
    assert ([x] + tail)[1..] == tail && tail[1..] == b;
    DecodedNext([x] + tail);
    DecodedNext(tail);
    assert Decoded([x] + tail) == Some([x] + ([47] + r));
    TextBoth([x], [47] + r);
    TextBoth([47], r);
    OneChar(x);
    OneChar(47);
  }

  lemma OneChar(x: Byte)
    ensures TextOf([x]) == [Char(x)]
  {
  }

  /* ---------- The closing quote ---------- */

  /** From `i` on, `s` holds the text of `u`. */
  predicate HoldsAt(s: string, i: nat, u: seq<nat>) {
    i + |u| <= |s| && forall k :: 0 <= k < |u| ==> s[i + k] == Char(u[k])
  }

  lemma CharOfAscii(x: nat)
    requires x < 0x80
    ensures Char(x) == x as char
    ensures (Char(x) == '\\' <==> x == BACKSLASH) && (Char(x) == '"' <==> x == QUOTE)
  {
  }

  lemma EscapeIsSkipped(s: string, i: nat, x: Byte)
    requires s != "" && HoldsAt(s, i, Escape(x))
    ensures Closing(s, i) == Closing(s, i + |Escape(x)|)
  {
    var e := Escape(x);
    assert s[i] == Char(e[0]);
    if |e| == 4 {
      assert s[i + 2] == Char(e[2]) && s[i + 3] == Char(e[3]);
      assert Closing(s, i) == Closing(s, i + 2);
      assert Closing(s, i + 2) == Closing(s, i + 3);
    }
  }

  lemma ByteIsSkipped(s: string, i: nat, x: Byte)
    requires s != "" && HoldsAt(s, i, WriteByte(x))
    ensures Closing(s, i) == Closing(s, i + |WriteByte(x)|)
  {
    hide Closing, Escape;
    if WriteByte(x) == Escape(x) {
      EscapeIsSkipped(s, i, x);
    } else {
      assert s[i] == Char(WriteByte(x)[0]);
      CharOfAscii(x);
      PlainIsSkipped(s, i);
    }
  }

  lemma PlainIsSkipped(s: string, i: nat)
    requires i < |s| && s[i] != '\\' && s[i] != '"'
    ensures Closing(s, i) == Closing(s, i + 1)
  {
  }

  lemma {:induction false} BytesAreSkipped(s: string, i: nat, b: seq<Byte>)
    requires s != "" && HoldsAt(s, i, WriteBytes(b))
    ensures Closing(s, i) == Closing(s, i + |WriteBytes(b)|)
    decreases |b|
  {
    hide Closing, WriteByte, Char;
    if b != [] {
      var w, more := WriteByte(b[0]), WriteBytes(b[1..]);
      HoldsBoth(s, i, w, more);
      ByteIsSkipped(s, i, b[0]);
      BytesAreSkipped(s, i + |w|, b[1..]);
    }
  }

  lemma HoldsBoth(s: string, i: nat, a: seq<nat>, b: seq<nat>)
    requires HoldsAt(s, i, a + b)
    ensures HoldsAt(s, i, a) && HoldsAt(s, i + |a|, b)
  {
    hide Char;
    forall k | 0 <= k < |a| ensures s[i + k] == Char(a[k]) {
      assert (a + b)[k] == a[k];
    }
    forall k | 0 <= k < |b| ensures s[i + |a| + k] == Char(b[k]) {
      assert (a + b)[|a| + k] == b[k];
      assert s[i + (|a| + k)] == Char((a + b)[|a| + k]);
    }
  }

  /** The closing quote of a quoted path is its last character, whatever follows. */
  lemma QuoteCloses(b: seq<Byte>, tail: string)
    ensures |Quote(b)| >= 2 && Quote(b)[0] == '"'
    ensures Closing(Quote(b) + tail, 1) == |Quote(b)| - 1
  {
    hide WriteBytes;
    var w := WriteBytes(b);
    var q, s := Quote(b), Quote(b) + tail;
    assert |q| == |w| + 2;
    forall k | 0 <= k < |w| ensures s[1 + k] == Char(w[k]) {
      assert InQuotes(w)[1 + k] == w[k];
    }
    BytesAreSkipped(s, 1, b);
    assert s[|w| + 1] == q[|w| + 1] == '"';
  }

  /* ---------- The header line ---------- */

  lemma StripIsInverse(prefix: string, p: string)
    ensures StripPrefix(prefix + p, prefix) == p
  {
    assert (prefix + p)[..|prefix|] == prefix;
  }

  /** What is left of a path in quotes when its prefix is taken off. */
  lemma QuotedSide(x: Byte, b: seq<Byte>, prefix: string)
    requires x < 0x80 && prefix == [Char(x), '/'] && Decoded(b).Some?
    ensures StripPrefix(UnquoteText(Quote([x, 47] + b)), prefix) == Read(b)
  {
    hide UnquoteText, Quote, Read, Decoded;
    QuoteIsRead([x, 47] + b);
    PrefixIsRead(x, b);
    StripIsInverse(prefix, Read(b));
  }

  lemma HeaderRest(rest: string)
    ensures GitHeader("diff --git " + rest, UnquoteText) == GitPaths(rest, UnquoteText)
  {
    hide GitPaths;
    StripIsInverse("diff --git ", rest);
  }

  /** With both paths in quotes, whatever bytes they are made of, the line is read as the two paths they decode to. */
  lemma BothQuotedAreRead(a: seq<Byte>, b: seq<Byte>)
    requires Decoded(a).Some? && Decoded(b).Some?
    ensures GitHeader("diff --git " + (Quote(A_PREFIX + a) + " " + Quote(B_PREFIX + b)), UnquoteText) ==
      Some((Read(a), Read(b)))
  {
    hide UnquoteText, Quote, Read, Decoded, Closing, GitHeader;
    var p, q := Quote(A_PREFIX + a), Quote(B_PREFIX + b);
    var rest := p + " " + q;
    HeaderRest(rest);
    QuoteCloses(A_PREFIX + a, " " + q);
    assert rest == p + (" " + q);
    assert rest[..|p|] == p && rest[|p| + 1..] == q;
    QuotedSide(97, a, "a/");
    QuotedSide(98, b, "b/");
  }

  lemma QuoteStarts(b: seq<Byte>)
    ensures var q := Quote(B_PREFIX + b); |q| >= 3 && q[0] == '"' && q[1] == 'b' && q[2] == '/'
  {
    var w := WriteBytes(B_PREFIX + b);
    assert (B_PREFIX + b)[0] == 98 && (B_PREFIX + b)[1..] == [47] + b && ([47] + b)[0] == 47;
    assert w == [98] + WriteBytes([47] + b);
    assert WriteBytes([47] + b) == [47] + WriteBytes(([47] + b)[1..]);
    var u := InQuotes(w);
    assert u[0] == QUOTE && u[1] == 98 && u[2] == 47;
  }

  lemma MarkIsFirst(s: string, n: nat)
    requires n < |s| && OccursAt(s, SecondQuoted(), n) && forall k :: 0 <= k <= n ==> s[k] != '"'
    ensures IndexOf(s, SecondQuoted(), 0) == Some(n)
  {
    hide IndexOf, OccursAt, SecondQuoted;
    MarkChars(s, IndexOf(s, SecondQuoted(), 0).value);
  }

  /** The mark of a quoted second path is found right behind a first path without a quote. */
  lemma MarkBehind(p: string, q: string)
    requires '"' !in p && |q| >= 3 && q[0] == '"' && q[1] == 'b' && q[2] == '/'
    ensures IndexOf(p + " " + q, SecondQuoted(), 0) == Some(|p|)
  {
    hide SecondQuoted, OccursAt, IndexOf;
    MarkStands(p, q);
    MarkIsFirst(p + " " + q, |p|);
  }

  lemma MarkStands(p: string, q: string)
    requires |q| >= 3 && q[0] == '"' && q[1] == 'b' && q[2] == '/'
    ensures OccursAt(p + " " + q, SecondQuoted(), |p|)
  {
    var s := p + " " + q;
    assert s == p + (" " + q);
    assert s[|p|..|p| + 4] == (" " + q)[..4];
    assert (" " + q)[..4] == " " + q[..3];
    assert q[..3] == "\"b/";
  }

  /** A quoted path is read behind one that holds no quote: git quotes every path that holds one. */
  lemma SecondQuotedIsRead(a: string, b: seq<Byte>)
    requires '"' !in a && Decoded(b).Some?
    ensures GitHeader("diff --git " + ("a/" + a + " " + Quote(B_PREFIX + b)), UnquoteText) == Some((a, Read(b)))
  {
    hide UnquoteText, Quote, Read, Decoded, Closing, GitHeader, IndexOf, SecondQuoted;
    var p, q := "a/" + a, Quote(B_PREFIX + b);
    var rest := p + " " + q;
    HeaderRest(rest);
    QuoteStarts(b);
    assert rest[..|p|] == p && rest[|p| + 1..] == q && rest[0] == 'a';
    MarkBehind(p, q);
    QuotedSide(98, b, "b/");
    StripIsInverse("a/", a);
  }

  predicate IsText(s: string) {
    forall i :: 0 <= i < |s| ==> Char(Unit(s[i])) == s[i]
  }

  lemma PlainIsRead(s: string)
    requires IsText(s) && s != "" && s[0] != '"' && s[|s| - 1] != '\t'
    ensures UnquoteText(s) == s
  {
    var u := Units(s);
    assert WithoutTab(u) == u && !Quoted(u);
    assert TextOf(u) == s;
  }

  /** And without the tab that git puts behind one with spaces. */
  lemma TabIsDropped(s: string, tab: string)
    requires IsText(s) && s != "" && s[0] != '"' && s[|s| - 1] != '\t' && (tab == "" || tab == "\t")
    ensures UnquoteText(s + tab) == s
  {
    hide UnquoteText;
    if tab == "" {
      assert s + tab == s;
      PlainIsRead(s);
    } else {
      TabComesOff(s);
    }
  }

  lemma TabComesOff(s: string)
    requires IsText(s) && s != "" && s[0] != '"'
    ensures UnquoteText(s + "\t") == s
  {
    var u := Units(s);
    assert Units(s + "\t") == u + [TAB];
    PlainPathPasses(u);
    assert TextOf(u) == s;
  }

  /** So is one that is not quoted, behind one that is. */
  lemma FirstQuotedIsRead(a: seq<Byte>, b: string)
    requires Decoded(a).Some? && IsText(b) && (b == "" || b[|b| - 1] != '\t')
    ensures GitHeader("diff --git " + (Quote(A_PREFIX + a) + " " + ("b/" + b)), UnquoteText) == Some((Read(a), b))
  {
    hide UnquoteText, Quote, Read, Decoded, Closing, GitHeader, Char, Unit;
    var p, q := Quote(A_PREFIX + a), "b/" + b;
    var rest := p + " " + q;
    HeaderRest(rest);
    QuoteCloses(A_PREFIX + a, " " + q);
    assert rest == p + (" " + q);
    assert rest[..|p|] == p && rest[|p| + 1..] == q;
    CharOfAscii(97);
    QuotedSide(97, a, "a/");
    PrefixIsText('b', b);
    PlainIsRead(q);
    StripIsInverse("b/", b);
  }

  lemma PrefixIsText(c: char, s: string)
    requires c as int < 0x80 && IsText(s)
    ensures IsText([c, '/'] + s)
  {
    hide Char, Unit;
    OneIsText(c);
    OneIsText('/');
  }

  lemma NullIsText()
    ensures IsText("/dev/null")
  {
    assert forall c: char :: c as int < 0x80 ==> Char(Unit(c)) == c;
  }

  lemma OneIsText(c: char)
    requires c as int < 0x80
    ensures Char(Unit(c)) == c
  {
  }
}
