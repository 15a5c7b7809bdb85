/** What becomes of events when a cut goes between a carriage return and its line feed: `SseParser.feed` of
    packages/peer-protocol/src/index.ts normalizes chunk by chunk, so such a return stays in the buffer. */
module SseTorn {
  import opened Lines
  import opened Options
  import opened Sse

  /* ---------- Events line by line ---------- */

  /** The events of terminated lines, and the data lines behind the last of them. */
  function Emit<E>(c: Codec<E>, lines: seq<string>): (seq<E>, seq<string>)
    decreases |lines|
  {
    if lines == [] then ([], [])
    else Take(c, Emit(c, lines[..|lines| - 1]), lines[|lines| - 1])
  }

  function Take<E>(c: Codec<E>, st: (seq<E>, seq<string>), l: string): (seq<E>, seq<string>) {
    if l == "" then Flush(c, st) else if IsData(l) then (st.0, st.1 + [TrimStart(l[5..])]) else st
  }

  function Flush<E>(c: Codec<E>, st: (seq<E>, seq<string>)): (seq<E>, seq<string>) {
    (st.0 + EventOfText(c, JoinLines(st.1)), [])
  }

  /** The lines of a text that end in a line break. */
  function Ended(s: string): seq<string> {
    var r := SplitLines(s);
    r[..|r| - 1]
  }

  function Last(s: string): string {
    var r := SplitLines(s);
    r[|r| - 1]
  }

  lemma EmitNext<E>(c: Codec<E>, lines: seq<string>, l: string)
    ensures Emit(c, lines + [l]) == Take(c, Emit(c, lines), l)
  {
    assert (lines + [l])[..|lines|] == lines;
  }

  lemma FlushNothing<E>(c: Codec<E>, events: seq<E>)
    ensures Flush(c, (events, [])) == (events, [])
  {
    assert events + [] == events;
  }

  lemma {:induction false} EmitInTwo<E>(c: Codec<E>, a: seq<string>, b: seq<string>)
    requires Emit(c, a).1 == []
    ensures Emit(c, a + b) == (Emit(c, a).0 + Emit(c, b).0, Emit(c, b).1)
    decreases |b|
  {
    if b == [] {
      assert a + b == a;
      assert Emit(c, a).0 + [] == Emit(c, a).0;
    } else {
      var n := |b| - 1;
      EmitInTwo(c, a, b[..n]);
      assert b[..n] + [b[n]] == b;
      assert a + b == a + b[..n] + [b[n]];
      hide *;
      EmitNext(c, a + b[..n], b[n]);
      EmitNext(c, b[..n], b[n]);
      TakeLater(c, Emit(c, a).0, Emit(c, b[..n]), b[n]);
    }
  }

  /** What was emitted before makes no difference to the next line. */
  lemma TakeLater<E>(c: Codec<E>, before: seq<E>, st: (seq<E>, seq<string>), l: string)
    ensures Take(c, (before + st.0, st.1), l) == (before + Take(c, st, l).0, Take(c, st, l).1)
  {
    hide EventOfText, JoinLines, TrimStart, IsData;
    var text := EventOfText(c, JoinLines(st.1));
    assert before + st.0 + text == before + (st.0 + text);
  }

  lemma {:induction false} EmitBlock<E>(c: Codec<E>, lines: seq<string>)
    requires forall i :: 0 < i < |lines| ==> lines[i] != ""
    ensures Emit(c, lines) == ([], DataLines(lines))
    decreases |lines|
  {
    if lines != [] {
      var n := |lines| - 1;
      EmitBlock(c, lines[..n]);
      if lines[n] == "" {
        assert n == 0 && lines[..n] == [];
        FlushNothing(c, []);
      }
    }
  }

  lemma {:induction false} SplitBoth(a: string, b: string)
    ensures SplitLines(a + "\n" + b) == SplitLines(a) + SplitLines(b)
    decreases |b|
  {
    hide SplitLines;
    if b == "" {
      SplitNext(a, '\n');
      SplitOne("");
      assert a + "\n" + b == a + ['\n'];
    } else {
      var n := |b| - 1;
      SplitBoth(a, b[..n]);
      assert b == b[..n] + [b[n]];
      assert a + "\n" + b == a + "\n" + b[..n] + [b[n]];
      SplitNext(a + "\n" + b[..n], b[n]);
      SplitNext(b[..n], b[n]);
    }
  }

  lemma LastIsEmpty(s: string)
    ensures Last(s) == "" <==> s == "" || s[|s| - 1] == '\n'
  {
  }

  /** Without an empty line behind a line break, only the first line can be empty. */
  lemma {:induction false} NoEmptyInside(s: string)
    requires forall i: nat :: !BreakAt(s, i)
    ensures forall i :: 0 < i < |Ended(s)| ==> Ended(s)[i] != ""
    decreases |s|
  {
    hide SplitLines;
    if s == "" {
      SplitOne("");
    } else {
      var n := |s| - 1;
      forall i: nat ensures !BreakAt(s[..n], i) {
        assert !BreakAt(s, i);
      }
      NoEmptyInside(s[..n]);
      assert s == s[..n] + [s[n]];
      SplitNext(s[..n], s[n]);
      if s[n] == '\n' {
        BreakEnds(s[..n]);
        assert s == s[..n] + "\n";
        assert Ended(s) == Ended(s[..n]) + [Last(s[..n])];
        LastIsEmpty(s[..n]);
        if n > 0 {
          assert !BreakAt(s, n - 1);
          assert s[..n][n - 1] == s[n - 1];
          assert Last(s[..n]) != "";
        } else {
          SplitOne("");
          assert s[..n] == "";
        }
      } else {
        assert Ended(s) == Ended(s[..n]);
      }
    }
  }

  /** The parser emits the events of the terminated lines. */
  lemma {:induction false} DrainIsEmit<E>(c: Codec<E>, s: string)
    ensures Drain(c, s).1 == Emit(c, Ended(s)).0
    decreases |s|
  {
    hide EventOfText, SplitLines, DataLines, Emit, JoinLines;
    var idx := IndexOfBreak(s, 0);
    if idx.None? {
      forall i: nat ensures !BreakAt(s, i) {
      }
      NoEmptyInside(s);
      EmitBlock(c, Ended(s));
    } else {
      var block, rest := s[..idx.value], s[idx.value + 2..];
      assert s == block + "\n" + ("" + "\n" + rest);
      SplitBoth(block, "" + "\n" + rest);
      SplitBoth("", rest);
      SplitOne("");
      var lines := SplitLines(block);
      forall i: nat ensures !BreakAt(block + "\n", i) {
        assert !BreakAt(s, i) || idx.value <= i;
      }
      NoEmptyInside(block + "\n");
      SplitNext(block, '\n');
      assert Ended(block + "\n") == lines;
      EmitBlock(c, lines);
      EmitNext(c, lines, "");
      assert [] + EventOf(c, block) == EventOf(c, block);
      assert Ended(s) == lines + [""] + Ended(rest);
      EmitInTwo(c, lines + [""], Ended(rest));
      DrainIsEmit(c, rest);
    }
  }

  /* ---------- Torn lines ---------- */

  /** A line as it stands in the stream and as it stands in the buffer, where a torn one keeps its return. */
  predicate Keeps(l: string, k: string) {
    k == l || k == l + "\r"
  }

  predicate AllKeep(ls: seq<string>, ks: seq<string>) {
    |ls| == |ks| && forall i :: 0 <= i < |ls| ==> Keeps(ls[i], ks[i])
  }

  predicate Alike(s: string, t: string) {
    AllKeep(Ended(s), Ended(t)) && Last(s) == Last(t)
  }

  lemma {:induction false} AlikeTail(s: string, t: string, tail: string)
    requires Alike(s, t)
    ensures Alike(s + tail, t + tail)
    decreases |tail|
  {
    hide SplitLines, Keeps;
    if tail == "" {
      assert s + tail == s && t + tail == t;
    } else {
      var n := |tail| - 1;
      AlikeTail(s, t, tail[..n]);
      assert tail == tail[..n] + [tail[n]];
      assert s + tail == s + tail[..n] + [tail[n]] && t + tail == t + tail[..n] + [tail[n]];
      SplitNext(s + tail[..n], tail[n]);
      SplitNext(t + tail[..n], tail[n]);
      SameKeeps(Last(s + tail[..n]));
    }
  }

  lemma SameKeeps(l: string)
    ensures Keeps(l, l)
  {
  }

  lemma LastReturn(p: string)
    ensures Last(p + "\r") == Last(p) + "\r" && Ended(p + "\r") == Ended(p)
  {
    hide SplitLines;
    SplitNext(p, '\r');
  }

  lemma EndedNext(s: string, c: char)
    ensures Ended(s + [c]) == if c == '\n' then Ended(s) + [Last(s)] else Ended(s)
    ensures Last(s + [c]) == if c == '\n' then "" else Last(s) + [c]
  {
    hide SplitLines;
    SplitNext(s, c);
  }

  lemma BreakEnds(p: string)
    ensures Ended(p + "\n") == Ended(p) + [Last(p)] && Last(p + "\n") == ""
  {
    EndedNext(p, '\n');
  }

  lemma EndsInReturn(s: string)
    requires Last(s) != "" && Last(s)[|Last(s)| - 1] == '\r'
    ensures s != "" && s == s[..|s| - 1] + "\r"
  {
    LastIsEmpty(s);
    assert s == s[..|s| - 1] + [s[|s| - 1]];
    SplitNext(s[..|s| - 1], s[|s| - 1]);
  }

  /** A torn line break: the stream goes on behind the line, the buffer behind the line and its return. */
  lemma AlikeTorn(p: string, t: string)
    requires Alike(p + "\r", t)
    ensures Alike(p + "\n", t + "\n")
  {
    hide SplitLines;
    LastReturn(p);
    BreakEnds(p);
    EndsInReturn(t);
    var q := t[..|t| - 1];
    LastReturn(q);
    BreakEnds(t);
  }

  lemma NormalizeReturn(p: string)
    ensures Normalize(p + "\r") == Normalize(p) + "\r" && Normalize(p + "\r\n") == Normalize(p) + "\n"
  {
    hide Normalize;
    NormalizeLast(p + "\r");
    NormalizeLast(p + "\r\n");
    assert (p + "\r")[..|p|] == p && (p + "\r\n")[..|p|] == p;
  }

  lemma NormalizeBreak(s: string)
    ensures Normalize("\n" + s) == "\n" + Normalize(s)
  {
    hide Normalize;
    NormalizeInTwo("\n", s);
    NormalizeLast("\n");
    NormalizeEmpty();
  }

  lemma NormalizeTorn(p: string, s: string)
    ensures Normalize((p + "\r") + ("\n" + s)) == Normalize(p) + "\n" + Normalize(s)
  {
    hide Normalize;
    assert (p + "\r") + ("\n" + s) == (p + "\r\n") + s;
    NormalizeInTwo(p + "\r\n", s);
    NormalizeReturn(p);
  }

  /** The buffer has the lines of the stream, some of them with a return that was torn off their line feed. */
  lemma {:induction false} ChunksAlike(chunks: seq<string>)
    ensures Alike(Normalize(Whole(chunks)), AllNormalized(chunks))
    decreases |chunks|
  {
    hide Normalize, Alike;
    if chunks == [] {
      NormalizeEmpty();
      SameAlike("");
    } else {
      var n := |chunks| - 1;
      var a, b, t := Whole(chunks[..n]), chunks[n], AllNormalized(chunks[..n]);
      ChunksAlike(chunks[..n]);
      if Torn(a, b) {
        assert a == a[..|a| - 1] + "\r" && b == "\n" + b[1..];
        NormalizeReturn(a[..|a| - 1]);
        NormalizeBreak(b[1..]);
        NormalizeTorn(a[..|a| - 1], b[1..]);
        var p, tail := Normalize(a[..|a| - 1]), Normalize(b[1..]);
        AlikeTorn(p, t);
        AlikeTail(p + "\n", t + "\n", tail);
        assert t + ("\n" + tail) == t + "\n" + tail;
      } else {
        NormalizeInTwo(a, b);
        AlikeTail(Normalize(a), t, Normalize(b));
      }
    }
  }

  lemma SameAlike(s: string)
    ensures Alike(s, s)
  {
  }

  /* ---------- Which torn lines do harm ---------- */

  /** A data line stands behind the last empty one. */
  predicate Open(lines: seq<string>) {
    exists i :: 0 <= i < |lines| && IsData(lines[i]) && forall j :: i < j < |lines| ==> lines[j] != ""
  }

  /** No data line keeps a return behind its data: trimming takes off what a blank one keeps. */
  predicate DataIsClean(ls: seq<string>, ks: seq<string>)
    requires |ls| == |ks|
  {
    forall i :: 0 <= i < |ls| && ks[i] != ls[i] && IsData(ls[i]) ==> TrimStart(ls[i][5..]) == ""
  }

  /** In front of each data line, and at the end, an event is open in the buffer exactly when one is in the stream. */
  predicate SameOpen(ls: seq<string>, ks: seq<string>)
    requires |ls| == |ks|
  {
    forall i :: 0 <= i <= |ls| && (i == |ls| || IsData(ls[i])) ==> (Open(ks[..i]) <==> Open(ls[..i]))
  }

  lemma OpenNext(lines: seq<string>, l: string)
    ensures Open(lines + [l]) <==> IsData(l) || (l != "" && Open(lines))
  {
    var all := lines + [l];
    if IsData(l) {
      assert IsData(all[|lines|]);
    } else {
      if l != "" && Open(lines) {
        var i :| 0 <= i < |lines| && IsData(lines[i]) && forall j :: i < j < |lines| ==> lines[j] != "";
        assert IsData(all[i]);
      }
      if Open(all) {
        var i :| 0 <= i < |all| && IsData(all[i]) && forall j :: i < j < |all| ==> all[j] != "";
        assert all[|lines|] == l;
        assert forall j :: 0 <= j < |lines| ==> all[j] == lines[j];
        assert IsData(lines[i]);
      }
    }
  }

  lemma OpenNone()
    ensures !Open([])
  {
  }

  lemma {:induction false} OpenPending<E>(c: Codec<E>, lines: seq<string>)
    ensures Emit(c, lines).1 != [] <==> Open(lines)
    decreases |lines|
  {
    hide Open, EventOfText, TrimStart;
    if lines == [] {
      OpenNone();
    } else {
      var n := |lines| - 1;
      OpenPending(c, lines[..n]);
      assert lines == lines[..n] + [lines[n]];
      OpenNext(lines[..n], lines[n]);
    }
  }

  /** A kept return is blank, and makes no data line of another line. */
  lemma KeptLine(l: string, k: string)
    requires Keeps(l, k)
    ensures IsData(k) <==> IsData(l)
    ensures k == "" ==> l == ""
    ensures IsData(l) && k != l ==>
      TrimStart(k[5..]) == if TrimStart(l[5..]) == "" then "" else TrimStart(l[5..]) + "\r"
  {
    if k != l {
      if |l| >= 5 {
        assert k[..5] == l[..5];
        assert k[5..] == l[5..] + "\r";
        TrimReturn(l[5..]);
      } else if |k| == 5 {
        assert k[4] == '\r';
      }
    }
  }

  lemma {:induction false} TrimReturn(s: string)
    ensures TrimStart(s + "\r") == if TrimStart(s) == "" then "" else TrimStart(s) + "\r"
    decreases |s|
  {
    if s == "" {
      assert s + "\r" == "\r" && "\r"[1..] == "";
    } else {
      assert (s + "\r")[1..] == s[1..] + "\r";
      TrimReturn(s[1..]);
    }
  }

  /** Decoders that take no notice of a return at the end of a line, as `JSON.parse` does: between tokens it is white
      space like the line break, and inside a string neither is allowed. */
  ghost predicate EndBlind<E(!new)>(c: Codec<E>) {
    && (forall x :: c.decode(x + "\r") == c.decode(x))
    && (forall x, y :: c.decode(x + "\r\n" + y) == c.decode(x + "\n" + y))
  }

  /** Data, and the same data with returns kept behind lines that are not blank. */
  predicate KeepsData(ds: seq<string>, es: seq<string>) {
    |ds| == |es| && forall i :: 0 <= i < |ds| ==> es[i] == ds[i] || (ds[i] != "" && es[i] == ds[i] + "\r")
  }

  lemma BlindAtEnd<E(!new)>(c: Codec<E>, a: string, d: string, y: string)
    requires EndBlind(c) && (y == "" || y[0] == '\n')
    ensures c.decode(a + (d + "\r") + y) == c.decode(a + d + y)
  {
    var x := a + d;
    if y == "" {
      assert a + (d + "\r") + y == x + "\r" && x + y == x;
    } else {
      assert y == "\n" + y[1..];
      assert a + (d + "\r") + y == x + "\r\n" + y[1..];
      assert x + y == x + "\n" + y[1..];
    }
  }

  lemma {:induction false} BlindDecodes<E(!new)>(c: Codec<E>, ds: seq<string>, es: seq<string>, y: string)
    requires EndBlind(c) && KeepsData(ds, es) && (y == "" || y[0] == '\n')
    ensures c.decode(JoinLines(es) + y) == c.decode(JoinLines(ds) + y)
    decreases |ds|
  {
    hide EndBlind, JoinLines;
    if ds == [] {
      assert es == ds;
    } else {
      var n := |ds| - 1;
      JoinBefore(ds);
      JoinBefore(es);
      var a := if n == 0 then "" else JoinLines(es[..n]) + "\n";
      if es[n] != ds[n] {
        BlindAtEnd(c, a, ds[n], y);
      }
      if n > 0 {
        var z := "\n" + ds[n] + y;
        BlindDecodes(c, ds[..n], es[..n], z);
        assert a + ds[n] + y == JoinLines(es[..n]) + z;
        assert JoinLines(ds) + y == JoinLines(ds[..n]) + z;
      }
    }
  }

  lemma JoinBefore(lines: seq<string>)
    requires lines != []
    ensures var n := |lines| - 1;
      JoinLines(lines) == (if n == 0 then "" else JoinLines(lines[..n]) + "\n") + lines[n]
  {
  }

  lemma BlankTogether(ds: seq<string>, es: seq<string>)
    requires KeepsData(ds, es)
    ensures JoinLines(es) == "" <==> JoinLines(ds) == ""
  {
    if ds != [] {
      JoinBefore(ds);
      JoinBefore(es);
    }
  }

  /** The same events, and data that differ by returns. */
  ghost predicate Matches<E>(st: (seq<E>, seq<string>), kt: (seq<E>, seq<string>), clean: bool) {
    st.0 == kt.0 && if clean then st.1 == kt.1 else KeepsData(st.1, kt.1)
  }

  /** A decoder for which `clean` data are needed, or one that does not see the difference. */
  ghost predicate Suits<E(!new)>(c: Codec<E>, clean: bool) {
    clean || EndBlind(c)
  }

  lemma FlushMatches<E(!new)>(c: Codec<E>, st: (seq<E>, seq<string>), kt: (seq<E>, seq<string>), clean: bool)
    requires Matches(st, kt, clean) && Suits(c, clean)
    ensures Flush(c, st) == Flush(c, kt)
  {
    hide JoinLines, EndBlind;
    if !clean {
      BlankTogether(st.1, kt.1);
      BlindDecodes(c, st.1, kt.1, "");
      assert JoinLines(st.1) + "" == JoinLines(st.1) && JoinLines(kt.1) + "" == JoinLines(kt.1);
    }
  }

  /** The buffer's state, or what comes of it when its open event is closed. */
  function Owed<E>(c: Codec<E>, ls: seq<string>, ks: seq<string>): (seq<E>, seq<string>) {
    if Open(ks) && !Open(ls) then Flush(c, Emit(c, ks)) else Emit(c, ks)
  }

  lemma {:induction false} EmitAgrees<E(!new)>(c: Codec<E>, ls: seq<string>, ks: seq<string>, clean: bool)
    requires AllKeep(ls, ks) && Suits(c, clean) && (clean ==> DataIsClean(ls, ks))
    requires forall i :: 0 <= i < |ls| && IsData(ls[i]) ==> (Open(ks[..i]) <==> Open(ls[..i]))
    ensures Matches(Emit(c, ls), Owed(c, ls, ks), clean)
    decreases |ls|
  {
    hide Open, Keeps, IsData, TrimStart, Emit, JoinLines, EventOfText, Suits;
    if ls == [] {
      OpenNone();
      assert ks == ls;
      EmitNone(c);
    } else {
      var n := |ls| - 1;
      var before, kept := ls[..n], ks[..n];
      forall i | 0 <= i < n && IsData(before[i]) ensures Open(kept[..i]) <==> Open(before[..i]) {
        assert kept[..i] == ks[..i] && before[..i] == ls[..i];
      }
      EmitAgrees(c, before, kept, clean);
      assert ls == before + [ls[n]] && ks == kept + [ks[n]];
      KeptLine(ls[n], ks[n]);
      AgreesNext(c, before, kept, ls[n], ks[n], clean);
    }
  }

  lemma EmitNone<E>(c: Codec<E>)
    ensures Emit(c, []) == ([], [])
  {
  }

  lemma AgreesNext<E(!new)>(c: Codec<E>, ls: seq<string>, ks: seq<string>, l: string, k: string, clean: bool)
    requires Suits(c, clean) && Matches(Emit(c, ls), Owed(c, ls, ks), clean)
    requires IsData(k) <==> IsData(l)
    requires (k == "" ==> l == "") && (l != "" ==> k != "")
    requires IsData(l) ==> (Open(ks) <==> Open(ls))
    requires IsData(l) && k != l ==>
      TrimStart(k[5..]) == if TrimStart(l[5..]) == "" then "" else TrimStart(l[5..]) + "\r"
    requires clean && IsData(l) && k != l ==> TrimStart(l[5..]) == ""
    ensures Matches(Emit(c, ls + [l]), Owed(c, ls + [l], ks + [k]), clean)
  {
    hide Open, TrimStart, Emit, EventOfText, Suits, Flush, Matches;
    EmitNext(c, ls, l);
    EmitNext(c, ks, k);
    OpenNext(ls, l);
    OpenNext(ks, k);
    OpenPending(c, ks);
    OpenPending(c, ls);
    DataIsNotEmpty("");
    if l == "" {
      FlushMatches(c, Emit(c, ls), Owed(c, ls, ks), clean);
      FlushTwice(c, Emit(c, ks));
      FlushNothing(c, Emit(c, ks).0);
      MatchesSelf(Flush(c, Emit(c, ls)), clean);
    } else if IsData(l) {
      MatchesData(Emit(c, ls), Emit(c, ks), TrimStart(l[5..]), TrimStart(k[5..]), clean);
    }
  }

  lemma FlushTwice<E>(c: Codec<E>, st: (seq<E>, seq<string>))
    ensures Flush(c, Flush(c, st)) == Flush(c, st)
  {
    FlushNothing(c, Flush(c, st).0);
  }

  lemma MatchesSelf<E>(st: (seq<E>, seq<string>), clean: bool)
    ensures Matches(st, st, clean)
  {
  }

  lemma MatchesData<E>(st: (seq<E>, seq<string>), kt: (seq<E>, seq<string>), d: string, e: string, clean: bool)
    requires Matches(st, kt, clean)
    requires e == d || (d != "" && e == d + "\r" && !clean)
    ensures Matches((st.0, st.1 + [d]), (kt.0, kt.1 + [e]), clean)
  {
  }

  lemma DataIsNotEmpty(l: string)
    requires l == ""
    ensures !IsData(l)
  {
  }

  /* ---------- Harm shows ---------- */

  function NoReturns(s: string): string
    decreases |s|
  {
    if s == "" then ""
    else
      var l := s[|s| - 1];
      NoReturns(s[..|s| - 1]) + if l == '\r' then "" else [l]
  }

  /** Events that are any text at all, or any text without its returns. */
  function Texts(clean: bool): Codec<string> {
    Codec((e: string) => "", (e: string) => e, (t: string) => Some(if clean then t else NoReturns(t)))
  }

  /** The length of what is made of a text. */
  function Length(s: string, clean: bool): nat {
    if clean then |s| else |NoReturns(s)|
  }

  function Size(texts: seq<string>): nat
    decreases |texts|
  {
    if texts == [] then 0 else Size(texts[..|texts| - 1]) + |texts[|texts| - 1]|
  }

  /** The characters of all events, and of the one that is open: data, and a break between two data lines. */
  function Weight(lines: seq<string>, clean: bool): nat
    decreases |lines|
  {
    if lines == [] then 0
    else Weight(lines[..|lines| - 1], clean) + Adds(lines[..|lines| - 1], lines[|lines| - 1], clean)
  }

  function Adds(lines: seq<string>, l: string, clean: bool): nat {
    if IsData(l) then Length(TrimStart(l[5..]), clean) + (if Open(lines) then 1 else 0) else 0
  }

  lemma {:induction false} NoReturnsBoth(a: string, b: string)
    ensures NoReturns(a + b) == NoReturns(a) + NoReturns(b)
    decreases |b|
  {
    if b == "" {
      assert a + b == a;
    } else {
      var n := |b| - 1;
      NoReturnsBoth(a, b[..n]);
      assert (a + b)[..|a| + n] == a + b[..n];
    }
  }

  lemma LengthBoth(a: string, b: string, clean: bool)
    ensures Length(a + b, clean) == Length(a, clean) + Length(b, clean)
    ensures Length("", clean) == 0 && Length("\n", clean) == 1 && Length("\r", clean) == if clean then 1 else 0
  {
    NoReturnsBoth(a, b);
    assert "\n"[..0] == "" && "\r"[..0] == "";
  }

  /** The second decoder is one of those that take no notice of a return at the end of a line. */
  lemma TextsSuit(clean: bool)
    ensures Suits(Texts(clean), clean)
  {
    if !clean {
      forall x: string ensures NoReturns(x + "\r") == NoReturns(x) {
        NoReturnsBoth(x, "\r");
        assert "\r"[..0] == "";
      }
      forall x: string, y: string ensures NoReturns(x + "\r\n" + y) == NoReturns(x + "\n" + y) {
        assert x + "\r\n" + y == (x + "\r") + ("\n" + y) && x + "\n" + y == x + ("\n" + y);
        NoReturnsBoth(x + "\r", "\n" + y);
        NoReturnsBoth(x, "\n" + y);
        NoReturnsBoth(x, "\r");
        assert "\r"[..0] == "";
      }
    }
  }

  lemma SizeNext(texts: seq<string>, t: string)
    ensures Size(texts + [t]) == Size(texts) + |t|
  {
    assert (texts + [t])[..|texts|] == texts;
  }

  lemma SizeOfText(events: seq<string>, t: string, clean: bool)
    ensures Size(events + EventOfText(Texts(clean), t)) == Size(events) + Length(t, clean)
  {
    if t == "" {
      assert events + [] == events;
    } else {
      SizeNext(events, if clean then t else NoReturns(t));
    }
  }

  lemma JoinNext(lines: seq<string>, l: string, clean: bool)
    ensures Length(JoinLines(lines + [l]), clean) ==
      Length(JoinLines(lines), clean) + Length(l, clean) + if lines == [] then 0 else 1
  {
    hide Length;
    assert (lines + [l])[..|lines|] == lines;
    LengthBoth(JoinLines(lines), "\n", clean);
    LengthBoth(JoinLines(lines) + "\n", l, clean);
  }

  lemma {:induction false} WeightOfEmit(lines: seq<string>, clean: bool)
    ensures var st := Emit(Texts(clean), lines);
      Size(st.0) + Length(JoinLines(st.1), clean) == Weight(lines, clean)
    decreases |lines|
  {
    hide Open, EventOfText, TrimStart, JoinLines, Size, Length, Texts;
    var c := Texts(clean);
    EmptyWeighsNothing();
    LengthBoth("", "", clean);
    if lines != [] {
      var n := |lines| - 1;
      var before, l := lines[..n], lines[n];
      WeightOfEmit(before, clean);
      OpenPending(c, before);
      assert lines == before + [l];
      EmitNext(c, before, l);
      var st := Emit(c, before);
      if l == "" {
        SizeOfText(st.0, JoinLines(st.1), clean);
        assert Adds(before, l, clean) == 0;
      } else if IsData(l) {
        JoinNext(st.1, TrimStart(l[5..]), clean);
        assert Adds(before, l, clean) == Length(TrimStart(l[5..]), clean) + if st.1 == [] then 0 else 1;
      }
    }
  }

  lemma EmptyWeighsNothing()
    ensures JoinLines([]) == "" && Size([]) == 0
  {
  }

  /** In front of the data line `i`, the stream and the buffer agree, and so do the data. */
  predicate HarmlessAt(ls: seq<string>, ks: seq<string>, i: nat, clean: bool)
    requires |ls| == |ks| && i < |ls|
  {
    IsData(ls[i]) ==> HarmlessLine(ls[..i], ks[..i], ls[i], ks[i], clean)
  }

  predicate HarmlessLine(before: seq<string>, kept: seq<string>, l: string, k: string, clean: bool)
    requires IsData(l)
  {
    (Open(kept) <==> Open(before)) && (clean && k != l ==> TrimStart(l[5..]) == "")
  }

  lemma AddsMore(ls: seq<string>, ks: seq<string>, l: string, k: string, clean: bool)
    requires Keeps(l, k) && (Open(ls) ==> Open(ks))
    ensures Adds(ls, l, clean) <= Adds(ks, k, clean)
    ensures Adds(ls, l, clean) == Adds(ks, k, clean) && IsData(l) ==> HarmlessLine(ls, ks, l, k, clean)
    ensures Open(ls + [l]) ==> Open(ks + [k])
  {
    hide Open, TrimStart, Length;
    KeptLine(l, k);
    if IsData(l) {
      LengthBoth(TrimStart(l[5..]), "\r", clean);
    }
    OpenNext(ls, l);
    OpenNext(ks, k);
  }

  /** Torn returns only add to the data and keep events from being closed. */
  lemma {:induction false} WeightGrows(ls: seq<string>, ks: seq<string>, clean: bool)
    requires AllKeep(ls, ks)
    ensures Weight(ls, clean) <= Weight(ks, clean) && (Open(ls) ==> Open(ks))
    ensures Weight(ls, clean) == Weight(ks, clean) ==> forall i :: 0 <= i < |ls| ==> HarmlessAt(ls, ks, i, clean)
    decreases |ls|
  {
    hide Open, Keeps, Adds, Weight, HarmlessAt, HarmlessLine, IsData;
    if ls == [] {
      assert ks == ls;
    } else {
      var n := |ls| - 1;
      var before, kept := ls[..n], ks[..n];
      WeightGrows(before, kept, clean);
      AddsMore(before, kept, ls[n], ks[n], clean);
      assert ls == before + [ls[n]] && ks == kept + [ks[n]];
      WeightNext(ls, clean);
      WeightNext(ks, clean);
      if Weight(ls, clean) == Weight(ks, clean) {
        forall i | 0 <= i < |ls| ensures HarmlessAt(ls, ks, i, clean) {
          HarmlessSoFar(ls, ks, i, clean);
        }
      }
    }
  }

  lemma WeightNext(lines: seq<string>, clean: bool)
    requires lines != []
    ensures var n := |lines| - 1; Weight(lines, clean) == Weight(lines[..n], clean) + Adds(lines[..n], lines[n], clean)
  {
  }

  lemma HarmlessSoFar(ls: seq<string>, ks: seq<string>, i: nat, clean: bool)
    requires |ls| == |ks| && i < |ls|
    requires var n := |ls| - 1;
      if i < n then HarmlessAt(ls[..n], ks[..n], i, clean)
      else IsData(ls[n]) ==> HarmlessLine(ls[..n], ks[..n], ls[n], ks[n], clean)
    ensures HarmlessAt(ls, ks, i, clean)
  {
    hide HarmlessLine, IsData;
    var n := |ls| - 1;
    if i < n {
      assert ls[..n][..i] == ls[..i] && ks[..n][..i] == ks[..i];
    }
  }

  /* ---------- The exact condition ---------- */

  /** No later chunk brings to light that the stream was cut like this. */
  ghost predicate NeverShows<E(!new)>(c: Codec<E>, chunks: seq<string>) {
    forall more: seq<string> :: FeedAll(c, chunks + more).1 == FeedAll(c, [Whole(chunks)] + more).1
  }

  /** The cuts keep no return behind the data of a line. */
  predicate CleanCuts(chunks: seq<string>) {
    var ls, ks := Ended(Normalize(Whole(chunks))), Ended(AllNormalized(chunks));
    |ls| == |ks| && DataIsClean(ls, ks)
  }

  /** The cuts leave no event open, in front of a data line or at the end, that the stream has closed. */
  predicate ClosingCuts(chunks: seq<string>) {
    var ls, ks := Ended(Normalize(Whole(chunks))), Ended(AllNormalized(chunks));
    |ls| == |ks| && SameOpen(ls, ks)
  }

  lemma {:induction false} NormalizedBoth(a: seq<string>, b: seq<string>)
    ensures AllNormalized(a + b) == AllNormalized(a) + AllNormalized(b)
    decreases |b|
  {
    hide Normalize;
    if b == [] {
      assert a + b == a;
    } else {
      var n := |b| - 1;
      NormalizedBoth(a, b[..n]);
      assert (a + b)[..|a + b| - 1] == a + b[..n];
    }
  }

  lemma OneChunk(s: string)
    ensures AllNormalized([s]) == Normalize(s)
  {
    hide Normalize;
    assert [s][..0] == [];
    assert "" + Normalize(s) == Normalize(s);
  }

  /** All events are those of the terminated lines of the buffer. */
  lemma FeedAllIsEmit<E>(c: Codec<E>, chunks: seq<string>, more: seq<string>)
    ensures FeedAll(c, chunks + more).1 == Emit(c, Ended(AllNormalized(chunks) + AllNormalized(more))).0
    ensures FeedAll(c, [Whole(chunks)] + more).1 == Emit(c, Ended(Normalize(Whole(chunks)) + AllNormalized(more))).0
  {
    hide Normalize, Drain, Emit, Ended;
    var one := [Whole(chunks)];
    FeedAllIsDrain(c, chunks + more);
    FeedAllIsDrain(c, one + more);
    NormalizedBoth(chunks, more);
    NormalizedBoth(one, more);
    OneChunk(Whole(chunks));
    DrainIsEmit(c, AllNormalized(chunks + more));
    DrainIsEmit(c, AllNormalized(one + more));
  }

  /** What is appended goes on behind the last line. */
  lemma {:induction false} EndedOver(s: string, x: string)
    ensures Ended(s + x) == Ended(s) + Ended(Last(s) + x)
    ensures Last(s + x) == Last(Last(s) + x)
    decreases |x|
  {
    hide Ended, Last;
    if x == "" {
      assert s + x == s && Last(s) + x == Last(s);
      LastIsLine(s);
      LineIsLast(Last(s));
      assert Ended(s) + [] == Ended(s);
    } else {
      var n := |x| - 1;
      EndedOver(s, x[..n]);
      assert x == x[..n] + [x[n]];
      assert s + x == s + x[..n] + [x[n]] && Last(s) + x == Last(s) + x[..n] + [x[n]];
      EndedNext(s + x[..n], x[n]);
      EndedNext(Last(s) + x[..n], x[n]);
      assert Ended(s) + Ended(Last(s) + x[..n]) + [Last(Last(s) + x[..n])]
        == Ended(s) + (Ended(Last(s) + x[..n]) + [Last(Last(s) + x[..n])]);
    }
  }

  lemma LineIsLast(l: string)
    requires '\n' !in l
    ensures Ended(l) == [] && Last(l) == l
  {
    SplitOne(l);
  }

  lemma {:induction false} LastIsLine(s: string)
    ensures '\n' !in Last(s)
    decreases |s|
  {
    if s != "" {
      LastIsLine(s[..|s| - 1]);
    }
  }

  lemma {:induction false} EmitAlike<E(!new)>(
      c: Codec<E>, a: seq<string>, b: seq<string>, more: seq<string>, clean: bool)
    requires Suits(c, clean) && Matches(Emit(c, a), Emit(c, b), clean)
    ensures Matches(Emit(c, a + more), Emit(c, b + more), clean)
    decreases |more|
  {
    hide Emit, Take, Matches, Suits;
    if more == [] {
      assert a + more == a && b + more == b;
    } else {
      var n := |more| - 1;
      EmitAlike(c, a, b, more[..n], clean);
      assert a + more == a + more[..n] + [more[n]] && b + more == b + more[..n] + [more[n]];
      EmitNext(c, a + more[..n], more[n]);
      EmitNext(c, b + more[..n], more[n]);
      TakeMatches(c, Emit(c, a + more[..n]), Emit(c, b + more[..n]), more[n], clean);
    }
  }

  lemma TakeMatches<E(!new)>(
      c: Codec<E>, st: (seq<E>, seq<string>), kt: (seq<E>, seq<string>), l: string, clean: bool)
    requires Suits(c, clean) && Matches(st, kt, clean)
    ensures Matches(Take(c, st, l), Take(c, kt, l), clean)
  {
    hide Flush, Matches, Suits, TrimStart;
    if l == "" {
      FlushMatches(c, st, kt, clean);
      MatchesSelf(Flush(c, st), clean);
    } else if IsData(l) {
      MatchesData(st, kt, TrimStart(l[5..]), TrimStart(l[5..]), clean);
    }
  }

  lemma CutsAgree<E(!new)>(c: Codec<E>, chunks: seq<string>, clean: bool)
    requires Suits(c, clean) && ClosingCuts(chunks) && (clean ==> CleanCuts(chunks))
    ensures NeverShows(c, chunks)
  {
    hide Normalize, Emit, Ended, Last, FeedAll, Open, IsData, Suits, DataIsClean;
    var s, t := Normalize(Whole(chunks)), AllNormalized(chunks);
    ChunksAlike(chunks);
    EmitAgrees(c, Ended(s), Ended(t), clean);
    assert Ended(s)[..|Ended(s)|] == Ended(s) && Ended(t)[..|Ended(t)|] == Ended(t);
    forall more: seq<string> ensures FeedAll(c, chunks + more).1 == FeedAll(c, [Whole(chunks)] + more).1 {
      var x := AllNormalized(more);
      FeedAllIsEmit(c, chunks, more);
      EndedOver(s, x);
      EndedOver(t, x);
      EmitAlike(c, Ended(s), Ended(t), Ended(Last(s) + x), clean);
    }
  }

  /** A cut that is clean and closing shows for no type of event and no decoder. */
  lemma HarmlessNeverShows<E(!new)>(c: Codec<E>, chunks: seq<string>)
    requires CleanCuts(chunks) && ClosingCuts(chunks)
    ensures NeverShows(c, chunks)
  {
    hide CleanCuts, ClosingCuts;
    CutsAgree(c, chunks, true);
  }

  /** For a decoder that takes no notice of a return at the end of a line, it need not be clean. */
  lemma ClosingNeverShows<E(!new)>(c: Codec<E>, chunks: seq<string>)
    requires EndBlind(c) && ClosingCuts(chunks)
    ensures NeverShows(c, chunks)
  {
    hide CleanCuts, ClosingCuts, EndBlind;
    CutsAgree(c, chunks, false);
  }

  /** A chunk that ends the last line and sends one more event. */
  const PROBE := "x\ndata:x\n\n"

  lemma ProbeLines(l: string)
    requires '\n' !in l
    ensures Ended(l + PROBE) == [l + "x", "data:x", ""]
  {
    hide SplitLines;
    SplitAppend(l + "x", "data:x");
    SplitOne(l + "x");
    var a := (l + "x") + "\n" + "data:x";
    BreakEnds(a);
    BreakEnds(a + "\n");
    assert l + PROBE == a + "\n" + "\n";
  }

  lemma ProbeIsWhole()
    ensures AllNormalized([PROBE]) == PROBE
  {
    hide Normalize;
    PlainNormalize(PROBE);
    OneChunk(PROBE);
  }

  /** Closed by an empty line, all that was sent is an event. */
  lemma ClosedWeight(lines: seq<string>, clean: bool)
    ensures Size(Emit(Texts(clean), lines + [""]).0) == Weight(lines + [""], clean)
  {
    hide Size, Open, TrimStart, Length, Texts;
    WeightOfEmit(lines + [""], clean);
    EmitNext(Texts(clean), lines, "");
    EmptyWeighsNothing();
    LengthBoth("", "", clean);
  }

  lemma EndAgrees(ls: seq<string>, ks: seq<string>, m: string, clean: bool)
    requires |ls| == |ks| && m != ""
    requires HarmlessAt(ls + [m, "data:x", ""], ks + [m, "data:x", ""], |ls|, clean)
    requires HarmlessAt(ls + [m, "data:x", ""], ks + [m, "data:x", ""], |ls| + 1, clean)
    ensures Open(ks) <==> Open(ls)
  {
    hide Open, TrimStart;
    var a, b, n := ls + [m, "data:x", ""], ks + [m, "data:x", ""], |ls|;
    assert a[..n] == ls && b[..n] == ks && a[..n + 1] == ls + [m] && b[..n + 1] == ks + [m];
    OpenNext(ls, m);
    OpenNext(ks, m);
    assert "data:x"[..5] == "data:";
  }

  lemma SameWeightIsHarmless(ls: seq<string>, ks: seq<string>, m: string, clean: bool)
    requires AllKeep(ls, ks) && m != ""
    requires Weight(ls + [m, "data:x", ""], clean) == Weight(ks + [m, "data:x", ""], clean)
    ensures SameOpen(ls, ks) && (clean ==> DataIsClean(ls, ks))
  {
    hide Open, TrimStart, Weight, Keeps;
    var n, a, b := |ls|, ls + [m, "data:x", ""], ks + [m, "data:x", ""];
    SameKeeps(m);
    SameKeeps("data:x");
    SameKeeps("");
    WeightGrows(a, b, clean);
    assert HarmlessAt(a, b, n, clean) && HarmlessAt(a, b, n + 1, clean);
    EndAgrees(ls, ks, m, clean);
    assert ls[..n] == ls && ks[..n] == ks;
    forall i | 0 <= i < n && IsData(ls[i]) ensures HarmlessLine(ls[..i], ks[..i], ls[i], ks[i], clean) {
      assert HarmlessAt(a, b, i, clean);
      assert a[..i] == ls[..i] && b[..i] == ks[..i];
    }
  }

  lemma ShowsOtherwise(chunks: seq<string>, clean: bool)
    requires FeedAll(Texts(clean), chunks + [PROBE]).1 == FeedAll(Texts(clean), [Whole(chunks)] + [PROBE]).1
    ensures ClosingCuts(chunks) && (clean ==> CleanCuts(chunks))
  {
    hide Normalize, Emit, Ended, Last, FeedAll, Open, Size, Weight, SameOpen, DataIsClean, Keeps, Texts;
    var s, t := Normalize(Whole(chunks)), AllNormalized(chunks);
    ChunksAlike(chunks);
    FeedAllIsEmit(Texts(clean), chunks, [PROBE]);
    ProbeIsWhole();
    EndedOver(s, PROBE);
    EndedOver(t, PROBE);
    ProbeAtEnd(s);
    var ls, ks, m := Ended(s), Ended(t), Last(s) + "x";
    assert ls + [m, "data:x", ""] == ls + [m, "data:x"] + [""];
    assert ks + [m, "data:x", ""] == ks + [m, "data:x"] + [""];
    ClosedWeight(ls + [m, "data:x"], clean);
    ClosedWeight(ks + [m, "data:x"], clean);
    SameWeightIsHarmless(ls, ks, m, clean);
  }

  lemma ProbeAtEnd(s: string)
    ensures Ended(Last(s) + PROBE) == [Last(s) + "x", "data:x", ""]
  {
    hide SplitLines;
    LastIsLine(s);
    ProbeLines(Last(s));
  }

  /** For the decoders that, like `JSON.parse`, take no notice of a return at the end of a line: cutting a stream leaves
      the events as they are, now and after any further chunks, exactly when it leaves no event open, in front of a data
      line or at the end, that an empty line of the stream has closed. */
  lemma BlindExactly(chunks: seq<string>)
    ensures ClosingCuts(chunks) <==> forall c: Codec<string> :: EndBlind(c) ==> NeverShows(c, chunks)
  {
    hide ClosingCuts, EndBlind, Texts;
    if ClosingCuts(chunks) {
      forall c: Codec<string> | EndBlind(c) ensures NeverShows(c, chunks) {
        ClosingNeverShows(c, chunks);
      }
    }
    if forall c: Codec<string> :: EndBlind(c) ==> NeverShows(c, chunks) {
      TextsSuit(false);
      assert NeverShows(Texts(false), chunks);
      ShowsOtherwise(chunks, false);
    }
  }

  /** Whatever the decoder: exactly when, besides, no data line keeps a torn return behind its data. */
  lemma TornExactly(chunks: seq<string>)
    ensures CleanCuts(chunks) && ClosingCuts(chunks) <==> forall c: Codec<string> :: NeverShows(c, chunks)
  {
    hide ClosingCuts, CleanCuts, Texts;
    if CleanCuts(chunks) && ClosingCuts(chunks) {
      forall c: Codec<string> ensures NeverShows(c, chunks) {
        HarmlessNeverShows(c, chunks);
      }
    }
    if forall c: Codec<string> :: NeverShows(c, chunks) {
      assert NeverShows(Texts(true), chunks);
      ShowsOtherwise(chunks, true);
    }
  }

  /** An event is lost, for the time being: its empty line is torn. */
  lemma TornEventIsMissing<E>(c: Codec<E>, e: E)
    requires Faithful(c, e)
    ensures FeedAll(c, [Block(c, e) + "\n\r", "\n"]).1 == []
    ensures FeedAll(c, [Block(c, e) + "\n\r\n"]).1 == [e]
  {
    hide Normalize, Emit, Ended, Faithful, Block, Drain, EncodeEvent;
    var b := Block(c, e);
    var torn, whole := [b + "\n\r", "\n"], [b + "\n\r\n"];
    BlockNormalizes(c, e);
    assert torn[..1] == [b + "\n\r"];
    OneChunk(b + "\n\r");
    OneChunk(b + "\n\r\n");
    FeedAllIsDrain(c, torn);
    FeedAllIsDrain(c, whole);
    assert AllNormalized(torn) == b + "\n\r\n";
    DrainIsEmit(c, b + "\n\r\n");
    TornBlockEnds(c, e);
    assert EncodeAll(c, [e]) == EncodeEvent(c, e);
    DrainAll(c, [e]);
  }

  lemma BlockNormalizes<E>(c: Codec<E>, e: E)
    requires Faithful(c, e)
    ensures Normalize(Block(c, e) + "\n\r") == Block(c, e) + "\n\r"
    ensures Normalize(Block(c, e) + "\n\r\n") == EncodeEvent(c, e)
    ensures Normalize("\n") == "\n"
  {
    hide Normalize, Faithful, Block, EncodeEvent;
    var b := Block(c, e);
    EncodedHasNoReturn(c, e);
    EventIsBlock(c, e);
    var line := b + "\n";
    assert line + "\n" == EncodeEvent(c, e);
    assert '\r' !in line by {
      assert forall i :: 0 <= i < |line| ==> line[i] == EncodeEvent(c, e)[i];
    }
    PlainNormalize(line);
    NormalizeReturn(line);
    PlainNormalize("\n");
    assert b + "\n\r" == line + "\r" && b + "\n\r\n" == line + "\r\n";
  }

  lemma TornBlockEnds<E>(c: Codec<E>, e: E)
    requires Faithful(c, e)
    ensures Emit(c, Ended(Block(c, e) + "\n\r\n")).0 == []
  {
    hide SplitLines, Emit, Faithful, Block, TypeLine, DataLine;
    var b := Block(c, e);
    LinesOfBlock(c, e);
    DataLineHolds(c, e);
    SplitAppend(b, "\r");
    BreakEnds(b + "\n\r");
    assert b + "\n\r" == b + "\n" + "\r" && b + "\n\r\n" == b + "\n\r" + "\n";
    DataIsNotEmpty("");
    EmitBlock(c, [TypeLine(c, e), DataLine(c, e), "\r"]);
    assert Ended(b + "\n\r\n") == [TypeLine(c, e), DataLine(c, e), "\r"];
  }
}
