/** `encodeSseEvent` and `SseParser` of packages/peer-protocol/src/index.ts (HTML Living Standard, section 9.2). JSON
    is a pair of functions. Characters stand for UTF-16 code units. */
module Sse {
  import opened Basics
  import opened Lines
  import opened Options

  /** How events are written and read: the type of an event, its JSON text, and what a text parses to, if it is an event
      with a type. */
  datatype Codec<!E> = Codec(name: E -> string, encode: E -> string, decode: string -> Option<E>)

  /* ---------- One block ---------- */

  /** `trimStart` */
  function TrimStart(s: string): string
    decreases |s|
  {
    if s != "" && IsSpace(s[0]) then TrimStart(s[1..]) else s
  }

  predicate IsData(l: string) {
    |l| >= 5 && l[..5] == "data:"
  }

  function DataLines(lines: seq<string>): seq<string>
    decreases |lines|
  {
    if lines == [] then []
    else
      var before, l := DataLines(lines[..|lines| - 1]), lines[|lines| - 1];
      if IsData(l) then before + [TrimStart(l[5..])] else before
  }

  function DataOf(block: string): string {
    JoinLines(DataLines(SplitLines(block)))
  }

  /** The event of a text, as a list: none when there is no text or it is not an event. */
  function EventOfText<E>(c: Codec<E>, text: string): seq<E> {
    if text == "" then []
    else match c.decode(text)
      case Some(e) => [e]
      case None => []
  }

  function EventOf<E>(c: Codec<E>, block: string): seq<E> {
    EventOfText(c, DataOf(block))
  }

  /* ---------- The buffer ---------- */

  predicate BreakAt(s: string, i: nat) {
    i + 1 < |s| && s[i] == '\n' && s[i + 1] == '\n'
  }

  /** The first empty line at or behind `from`. */
  function IndexOfBreak(s: string, from: nat): (r: Option<nat>)
    ensures r.Some? ==> from <= r.value && BreakAt(s, r.value)
    ensures forall i: nat :: from <= i && BreakAt(s, i) ==> r.Some? && r.value <= i
    decreases |s| - from
  {
    if from >= |s| then None else if BreakAt(s, from) then Some(from) else IndexOfBreak(s, from + 1)
  }

  /** What is left of a buffer and the events taken from it. */
  function Drain<E>(c: Codec<E>, s: string): (r: (string, seq<E>))
    decreases |s|
  {
    var idx := IndexOfBreak(s, 0);
    if idx.None? then (s, [])
    else
      var (rest, events) := Drain(c, s[idx.value + 2..]);
      (rest, EventOf(c, s[..idx.value]) + events)
  }

  class SseParser<!E> {
    var buf: string
    const codec: Codec<E>

    constructor (codec: Codec<E>)
      ensures buf == "" && this.codec == codec
    {
      buf := "";
      this.codec := codec;
    }

    method Feed(chunk: string) returns (out: seq<E>)
      modifies this
      ensures (buf, out) == Drain(codec, old(buf) + Normalize(chunk))
    {
      hide EventOf, Drain, IndexOfBreak;
      buf := buf + Normalize(chunk);
      out := [];
      ghost var all := buf;
      var idx := IndexOfBreak(buf, 0);
      BothBoth([], [], Drain(codec, buf));
      while idx.Some?
        invariant idx == IndexOfBreak(buf, 0)
        invariant Drain(codec, all) == Both(out, Drain(codec, buf))
        decreases |buf|
      {
        var block := buf[..idx.value];
        DrainNext(codec, buf);
        ghost var taken := out;
        buf := buf[idx.value + 2..];
        var event := Parse(codec, block);
        out := out + event;
        BothBoth(taken, event, Drain(codec, buf));
        idx := IndexOfBreak(buf, 0);
      }
      DrainNext(codec, buf);
      assert out + [] == out;
    }
  }

  method Parse<E>(codec: Codec<E>, block: string) returns (event: seq<E>)
    ensures event == EventOf(codec, block)
  {
    var lines := SplitLines(block);
    var data: seq<string> := [];
    var i := 0;
    while i < |lines|
      invariant 0 <= i <= |lines|
      invariant data == DataLines(lines[..i])
    {
      assert lines[..i + 1][..i] == lines[..i];
      if IsData(lines[i]) {
        data := data + [TrimStart(lines[i][5..])];
      }
      i := i + 1;
    }
    assert lines[..i] == lines;
    var text := JoinLines(data);
    if text == "" {
      return [];
    }
    var parsed := codec.decode(text);
    event := if parsed.Some? then [parsed.value] else [];
  }

  /* ---------- Chunks do not matter ---------- */

  function Both<E>(events: seq<E>, r: (string, seq<E>)): (string, seq<E>) {
    (r.0, events + r.1)
  }

  lemma BreakStays(a: string, b: string)
    requires IndexOfBreak(a, 0).Some?
    ensures IndexOfBreak(a + b, 0) == IndexOfBreak(a, 0)
  {
    var i := IndexOfBreak(a, 0).value;
    assert BreakAt(a + b, i);
    var j := IndexOfBreak(a + b, 0).value;
    assert BreakAt(a, j);
  }

  lemma DrainNext<E>(c: Codec<E>, s: string)
    ensures var idx := IndexOfBreak(s, 0);
      Drain(c, s) == if idx.None? then (s, []) else Both(EventOf(c, s[..idx.value]), Drain(c, s[idx.value + 2..]))
  {
    hide EventOf;
  }

  lemma BothBoth<E>(a: seq<E>, b: seq<E>, r: (string, seq<E>))
    ensures Both(a, Both(b, r)) == Both(a + b, r) && Both([], r) == r
  {
    assert a + (b + r.1) == a + b + r.1;
    assert [] + r.1 == r.1;
  }

  /** Draining in two goes gives what draining at once gives. */
  lemma {:induction false} DrainInTwo<E>(c: Codec<E>, a: string, b: string)
    ensures Drain(c, a + b) == Both(Drain(c, a).1, Drain(c, Drain(c, a).0 + b))
    decreases |a|
  {
    hide EventOf, Drain, IndexOfBreak;
    var idx := IndexOfBreak(a, 0);
    DrainNext(c, a);
    if idx.Some? {
      BreakStays(a, b);
      DrainNext(c, a + b);
      var i := idx.value;
      var rest := a[i + 2..];
      assert (a + b)[i + 2..] == rest + b;
      assert (a + b)[..i] == a[..i];
      DrainInTwo(c, rest, b);
      BothBoth(EventOf(c, a[..i]), Drain(c, rest).1, Drain(c, Drain(c, rest).0 + b));
    } else {
      BothBoth([], [], Drain(c, a + b));
    }
  }

  /** What a fresh parser holds and has returned after some chunks. */
  function FeedAll<E>(c: Codec<E>, chunks: seq<string>): (string, seq<E>)
    decreases |chunks|
  {
    if chunks == [] then ("", [])
    else
      var (buf, events) := FeedAll(c, chunks[..|chunks| - 1]);
      Both(events, Drain(c, buf + Normalize(chunks[|chunks| - 1])))
  }

  function Whole(chunks: seq<string>): string
    decreases |chunks|
  {
    if chunks == [] then "" else Whole(chunks[..|chunks| - 1]) + chunks[|chunks| - 1]
  }

  function AllNormalized(chunks: seq<string>): string
    decreases |chunks|
  {
    if chunks == [] then "" else AllNormalized(chunks[..|chunks| - 1]) + Normalize(chunks[|chunks| - 1])
  }

  lemma {:induction false} FeedAllIsDrain<E>(c: Codec<E>, chunks: seq<string>)
    ensures FeedAll(c, chunks) == Drain(c, AllNormalized(chunks))
    decreases |chunks|
  {
    hide Normalize, EventOf;
    if chunks == [] {
      assert IndexOfBreak("", 0).None?;
    } else {
      var n := |chunks| - 1;
      FeedAllIsDrain(c, chunks[..n]);
      DrainInTwo(c, AllNormalized(chunks[..n]), Normalize(chunks[n]));
    }
  }

  /** A carriage return at the end of the text so far and a line feed at the start of the chunk. */
  predicate Torn(a: string, b: string) {
    a != "" && b != "" && a[|a| - 1] == '\r' && b[0] == '\n'
  }

  predicate EndsTorn(s: string) {
    |s| >= 2 && s[|s| - 1] == '\n' && s[|s| - 2] == '\r'
  }

  lemma NormalizeLast(s: string)
    requires s != ""
    ensures Normalize(s) == if EndsTorn(s) then Normalize(s[..|s| - 2]) + "\n"
      else Normalize(s[..|s| - 1]) + [s[|s| - 1]]
  {
  }

  lemma NormalizeEmpty()
    ensures Normalize("") == ""
  {
  }

  lemma {:induction false} NormalizeInTwo(a: string, b: string)
    requires !Torn(a, b)
    ensures Normalize(a + b) == Normalize(a) + Normalize(b)
    decreases |b|
  {
    hide Normalize;
    var n := |b|;
    if n == 0 {
      assert a + b == a;
      NormalizeEmpty();
    } else {
      NormalizeLast(b);
      NormalizeLast(a + b);
      if EndsTorn(b) {
        NormalizeInTwo(a, b[..n - 2]);
        assert (a + b)[..|a + b| - 2] == a + b[..n - 2];
      } else {
        NormalizeInTwo(a, b[..n - 1]);
        assert (a + b)[..|a + b| - 1] == a + b[..n - 1];
        assert !EndsTorn(a + b) by {
          if n == 1 && a != "" {
            assert (a + b)[|a + b| - 2] == a[|a| - 1];
          }
        }
      }
    }
  }

  /** No cut goes between a carriage return and its line feed. */
  predicate NeverTorn(chunks: seq<string>) {
    forall i :: 0 <= i < |chunks| ==> !Torn(Whole(chunks[..i]), chunks[i])
  }

  lemma {:induction false} NormalizeChunks(chunks: seq<string>)
    requires NeverTorn(chunks)
    ensures AllNormalized(chunks) == Normalize(Whole(chunks))
    decreases |chunks|
  {
    hide Normalize, Torn;
    if chunks == [] {
      NormalizeEmpty();
    } else {
      var n := |chunks| - 1;
      assert forall i :: 0 <= i < n ==> chunks[..n][..i] == chunks[..i];
      NormalizeChunks(chunks[..n]);
      NormalizeInTwo(Whole(chunks[..n]), chunks[n]);
    }
  }

  /** However a stream is cut into chunks, as long as no cut tears a line break, the parser returns the same events and
      keeps the same rest. */
  lemma ChunksDoNotMatter<E>(c: Codec<E>, chunks: seq<string>)
    requires NeverTorn(chunks)
    ensures FeedAll(c, chunks) == FeedAll(c, [Whole(chunks)])
  {
    hide Normalize, Drain, NeverTorn;
    NormalizeChunks(chunks);
    FeedAllIsDrain(c, chunks);
    FeedAllIsDrain(c, [Whole(chunks)]);
    assert [Whole(chunks)][..0] == [];
    assert "" + Normalize(Whole(chunks)) == Normalize(Whole(chunks));
  }

  lemma {:induction false} WithoutReturns(chunks: seq<string>)
    requires forall i :: 0 <= i < |chunks| ==> '\r' !in chunks[i]
    ensures NeverTorn(chunks) && '\r' !in Whole(chunks)
    decreases |chunks|
  {
    if chunks != [] {
      var n := |chunks| - 1;
      WithoutReturns(chunks[..n]);
      forall i | 0 <= i < |chunks| ensures !Torn(Whole(chunks[..i]), chunks[i]) {
        if i < n {
          assert chunks[..n][..i] == chunks[..i];
        }
      }
    }
  }

  /* ---------- The round trip ---------- */

  /** `encodeSseEvent` */
  function EncodeEvent<E>(c: Codec<E>, e: E): string {
    "event: " + c.name(e) + "\ndata: " + c.encode(e) + "\n\n"
  }

  function EncodeAll<E>(c: Codec<E>, events: seq<E>): string
    decreases |events|
  {
    if events == [] then "" else EncodeEvent(c, events[0]) + EncodeAll(c, events[1..])
  }

  predicate OneLine(s: string) {
    '\n' !in s && '\r' !in s
  }

  /** What JSON promises of an event: its text is one line that begins with a brace, and parses to the event. */
  predicate Faithful<E(==)>(c: Codec<E>, e: E) {
    && OneLine(c.name(e)) && OneLine(c.encode(e))
    && c.encode(e) != "" && c.encode(e)[0] == '{'
    && c.decode(c.encode(e)) == Some(e)
  }

  function TypeLine<E>(c: Codec<E>, e: E): string {
    "event: " + c.name(e)
  }

  function DataLine<E>(c: Codec<E>, e: E): string {
    "data: " + c.encode(e)
  }

  function Block<E>(c: Codec<E>, e: E): string {
    TypeLine(c, e) + "\n" + DataLine(c, e)
  }

  lemma EventIsBlock<E>(c: Codec<E>, e: E)
    ensures EncodeEvent(c, e) == Block(c, e) + "\n\n"
  {
  }

  lemma LinesOfBlock<E>(c: Codec<E>, e: E)
    requires Faithful(c, e)
    ensures SplitLines(Block(c, e)) == [TypeLine(c, e), DataLine(c, e)]
  {
    hide SplitLines;
    SplitAppend(TypeLine(c, e), DataLine(c, e));
    SplitOne(TypeLine(c, e));
  }

  lemma DataLineHolds<E>(c: Codec<E>, e: E)
    requires Faithful(c, e)
    ensures !IsData(TypeLine(c, e)) && IsData(DataLine(c, e)) && TrimStart(DataLine(c, e)[5..]) == c.encode(e)
  {
    assert TypeLine(c, e)[..5][0] == 'e';
    var l := DataLine(c, e);
    assert l[..5] == "data:";
    var rest := l[5..];
    assert rest[0] == ' ' && rest[1..] == c.encode(e);
    assert TrimStart(c.encode(e)) == c.encode(e);
  }

  lemma BlockHoldsEvent<E>(c: Codec<E>, e: E)
    requires Faithful(c, e)
    ensures EventOf(c, Block(c, e)) == [e]
  {
    LinesOfBlock(c, e);
    DataLineHolds(c, e);
    hide SplitLines, TypeLine, DataLine, IsData, TrimStart;
    var lines := [TypeLine(c, e), DataLine(c, e)];
    assert lines[..1] == [TypeLine(c, e)] && lines[..1][..0] == [];
    assert DataLines(lines[..1]) == [];
    assert DataLines(lines) == [c.encode(e)];
  }

  lemma BlockHasNoBreak<E>(c: Codec<E>, e: E, rest: string)
    requires Faithful(c, e)
    ensures IndexOfBreak(EncodeEvent(c, e) + rest, 0) == Some(|Block(c, e)|)
  {
    var s := EncodeEvent(c, e) + rest;
    var b := Block(c, e);
    EventIsBlock(c, e);
    assert s == b + "\n\n" + rest;
    assert BreakAt(s, |b|);
    var t := |TypeLine(c, e)|;
    forall i: nat | i < |b| ensures !BreakAt(s, i) {
      BreaksOfBlock(c, e, i);
      assert s[i] == b[i];
      if i == t {
        assert s[i + 1] == b[i + 1];
      }
    }
  }

  /** The only line break of a block stands in front of the data line. */
  lemma BreaksOfBlock<E>(c: Codec<E>, e: E, i: nat)
    requires Faithful(c, e) && i < |Block(c, e)|
    ensures var t := |TypeLine(c, e)|;
      t + 1 < |Block(c, e)| && Block(c, e)[t + 1] == 'd' && (i != t ==> Block(c, e)[i] != '\n')
  {
    var t := TypeLine(c, e);
    var d := DataLine(c, e);
    var b := Block(c, e);
    PlainLine("event: ", c.name(e));
    PlainLine("data: ", c.encode(e));
    assert b[|t| + 1] == d[0];
    if i < |t| {
      assert b[i] == t[i];
    } else if i > |t| {
      assert b[i] == d[i - |t| - 1];
    }
  }

  lemma PlainLine(a: string, b: string)
    requires '\n' !in a && '\n' !in b
    ensures '\n' !in a + b
  {
  }

  lemma {:induction false} DrainAll<E>(c: Codec<E>, events: seq<E>)
    requires forall i :: 0 <= i < |events| ==> Faithful(c, events[i])
    ensures Drain(c, EncodeAll(c, events)) == ("", events)
    decreases |events|
  {
    hide EventOf, Faithful, EncodeEvent, Block;
    if events == [] {
      assert IndexOfBreak("", 0).None?;
    } else {
      var e, more := events[0], EncodeAll(c, events[1..]);
      var s := EncodeEvent(c, e) + more;
      EventIsBlock(c, e);
      BlockHasNoBreak(c, e, more);
      BlockHoldsEvent(c, e);
      DrainAll(c, events[1..]);
      assert s[..|Block(c, e)|] == Block(c, e);
      assert s[|Block(c, e)| + 2..] == more;
      assert [e] + events[1..] == events;
    }
  }

  lemma {:induction false} PlainNormalize(s: string)
    requires '\r' !in s
    ensures Normalize(s) == s
    decreases |s|
  {
    hide Normalize;
    if s == "" {
      NormalizeEmpty();
    } else {
      var n := |s| - 1;
      NormalizeLast(s);
      PlainNormalize(s[..n]);
      assert s == s[..n] + [s[n]];
      assert !EndsTorn(s) by {
        assert n > 0 ==> s[n - 1] != '\r';
      }
    }
  }

  lemma EncodedHasNoReturn<E>(c: Codec<E>, e: E)
    requires Faithful(c, e)
    ensures '\r' !in EncodeEvent(c, e)
  {
  }

  lemma {:induction false} EncodedHaveNoReturn<E>(c: Codec<E>, events: seq<E>)
    requires forall i :: 0 <= i < |events| ==> Faithful(c, events[i])
    ensures '\r' !in EncodeAll(c, events)
    decreases |events|
  {
    hide EncodeEvent, Faithful;
    if events != [] {
      EncodedHasNoReturn(c, events[0]);
      EncodedHaveNoReturn(c, events[1..]);
    }
  }

  lemma {:induction false} PartsHaveNoReturn(chunks: seq<string>)
    requires '\r' !in Whole(chunks)
    ensures forall i :: 0 <= i < |chunks| ==> '\r' !in chunks[i]
    decreases |chunks|
  {
    if chunks != [] {
      var n := |chunks| - 1;
      PartsHaveNoReturn(chunks[..n]);
      forall i | 0 <= i < |chunks| ensures '\r' !in chunks[i] {
        if i < n {
          assert chunks[..n][i] == chunks[i];
        }
      }
    }
  }

  /** Any list of events, encoded, joined and cut anywhere, comes back as the same list, and nothing is left over. */
  lemma EventsComeBack<E>(c: Codec<E>, events: seq<E>, chunks: seq<string>)
    requires forall i :: 0 <= i < |events| ==> Faithful(c, events[i])
    requires Whole(chunks) == EncodeAll(c, events)
    ensures FeedAll(c, chunks) == ("", events)
  {
    hide Normalize, Drain, Faithful, NeverTorn;
    EncodedHaveNoReturn(c, events);
    PartsHaveNoReturn(chunks);
    WithoutReturns(chunks);
    NormalizeChunks(chunks);
    PlainNormalize(Whole(chunks));
    FeedAllIsDrain(c, chunks);
    DrainAll(c, events);
  }
}
