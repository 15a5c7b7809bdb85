/** `parseClientHelloSni` and `peerIdFromSni` of src/relay/main.ts: the server name of a TLS
    ClientHello, read without terminating TLS (sections 4.1.2, 4.2 and 5.1 of RFC 8446,
    section 3 of RFC 6066). */
module ClientHello {
  import opened Options

  type byte = n: nat | n < 256

  /** The host name, or none in a complete message, or not enough bytes yet. */
  datatype Sni = Name(host: string) | NoName | More

  function ReadU16(s: seq<byte>, o: nat): nat
    requires o + 2 <= |s|
  {
    s[o] as nat * 256 + s[o + 1] as nat
  }

  /** The lower-case letter of an ISO 8859-1 code. */
  function Lower(b: byte): char {
    if 'A' as int <= b <= 'Z' as int || 0xc0 <= b <= 0xd6 || 0xd8 <= b <= 0xde then (b + 32) as char else b as char
  }

  const CAPITALS := "ABCDEFGHIJKLMNOPQRSTUVWXYZ"
  const SMALL_LETTERS := "abcdefghijklmnopqrstuvwxyz"

  lemma LetterCodes(i: nat)
    requires i < 26
    ensures CAPITALS[i] as int == 65 + i && SMALL_LETTERS[i] as int == 97 + i
  {
    if i < 13 {
      assert i == 0 || i == 1 || i == 2 || i == 3 || i == 4 || i == 5 || i == 6 || i == 7 || i == 8 || i == 9
        || i == 10 || i == 11 || i == 12;
    } else {
      assert i == 13 || i == 14 || i == 15 || i == 16 || i == 17 || i == 18 || i == 19 || i == 20 || i == 21
        || i == 22 || i == 23 || i == 24 || i == 25;
    }
  }

  /** A capital letter becomes its small one; so does one with an accent (from 0xc0, the sign 0xd7 aside), and any other
      character stays. */
  lemma LowerIsSmall(b: byte, i: nat)
    ensures i < 26 && CAPITALS[i] == b as char ==> Lower(b) == SMALL_LETTERS[i]
    ensures b < 0xc0 && (forall j :: 0 <= j < 26 ==> CAPITALS[j] != b as char) ==> Lower(b) == b as char
    ensures b >= 0xc0 ==> Lower(b) as int == if b <= 0xde && b != 0xd7 then b + 0x20 else b
  {
    if i < 26 {
      LetterCodes(i);
    }
    if 65 <= b < 91 {
      LetterCodes(b - 65);
    }
  }

  function Text(s: seq<byte>): (r: string)
    ensures |r| == |s|
  {
    seq(|s|, i requires 0 <= i < |s| => Lower(s[i]))
  }

  /* ---------- What the parser computes ---------- */

  function Min(a: nat, b: nat): nat {
    if a <= b then a else b
  }

  /** The first host name among the entries of a server name list. */
  function NamesAt(hs: seq<byte>, p: nat, end: nat): Sni
    requires end <= |hs|
    decreases end - p
  {
    if p + 3 > end then NoName
    else
      var len := ReadU16(hs, p + 1);
      if hs[p] == 0 && p + 3 + len <= end then Name(Text(hs[p + 3..p + 3 + len])) else NamesAt(hs, p + 3 + len, end)
  }

  /** The first server name extension. */
  function ExtensionsAt(hs: seq<byte>, o: nat, extEnd: nat): Sni
    decreases |hs| - o
  {
    if o + 4 > Min(extEnd, |hs|) then NoName
    else
      var kind, len := ReadU16(hs, o), ReadU16(hs, o + 2);
      if kind == 0 && o + 6 <= |hs| then NamesAt(hs, o + 6, Min(o + 4 + len, |hs|))
      else ExtensionsAt(hs, o + 4 + len, extEnd)
  }

  function Handshake(hs: seq<byte>): Sni {
    if |hs| < 4 || hs[0] != 1 || |hs| < 39 then NoName
    else
      var o := 39 + hs[38] as nat;
      if |hs| < o + 2 then NoName
      else
        var o := o + 2 + ReadU16(hs, o);
        if |hs| < o + 1 then NoName
        else
          var o := o + 1 + hs[o] as nat;
          if |hs| < o + 2 then NoName else ExtensionsAt(hs, o + 2, o + 2 + ReadU16(hs, o))
  }

  function Parse(buf: seq<byte>): Sni {
    if |buf| < 5 then More
    else if buf[0] != 0x16 || buf[1] != 0x03 then NoName
    else if |buf| < 5 + ReadU16(buf, 3) then More
    else Handshake(buf[5..5 + ReadU16(buf, 3)])
  }

  /* ---------- The parser ---------- */

  method ParseNames(hs: seq<byte>, start: nat, end: nat) returns (r: Sni)
    requires end <= |hs|
    ensures r == NamesAt(hs, start, end)
  {
    var p := start;
    while p + 3 <= end
      invariant NamesAt(hs, p, end) == NamesAt(hs, start, end)
      decreases end - p
    {
      var nameType, nameLen := hs[p], ReadU16(hs, p + 1);
      p := p + 3;
      if nameType == 0 && p + nameLen <= end {
        return Name(Text(hs[p..p + nameLen]));
      }
      p := p + nameLen;
    }
    r := NoName;
  }

  method ParseExtensions(hs: seq<byte>, start: nat, extEnd: nat) returns (r: Sni)
    ensures r == ExtensionsAt(hs, start, extEnd)
  {
    hide NamesAt;
    var o := start;
    while o + 4 <= Min(extEnd, |hs|)
      invariant ExtensionsAt(hs, o, extEnd) == ExtensionsAt(hs, start, extEnd)
      decreases |hs| - o
    {
      var kind, len := ReadU16(hs, o), ReadU16(hs, o + 2);
      o := o + 4;
      if kind == 0 && o + 2 <= |hs| {
        r := ParseNames(hs, o + 2, Min(o + len, |hs|));
        return;
      }
      o := o + len;
    }
    r := NoName;
  }

  method ParseClientHelloSni(buf: seq<byte>) returns (r: Sni)
    ensures r == Parse(buf)
  {
    hide ExtensionsAt;
    if |buf| < 5 {
      return More;
    }
    if buf[0] != 0x16 || buf[1] != 0x03 {
      return NoName;
    }
    var recLen := ReadU16(buf, 3);
    if |buf| < 5 + recLen {
      return More;
    }
    r := ParseHandshake(buf[5..5 + recLen]);
  }

  /** Step over the fixed fields to the extensions. */
  method ParseHandshake(hs: seq<byte>) returns (r: Sni)
    ensures r == Handshake(hs)
  {
    hide ExtensionsAt;
    if |hs| < 4 || hs[0] != 0x01 {
      return NoName;
    }
    var o: nat := 4 + 2 + 32;
    if |hs| < o + 1 {
      return NoName;
    }
    o := o + 1 + hs[o] as nat;
    if |hs| < o + 2 {
      return NoName;
    }
    o := o + 2 + ReadU16(hs, o);
    if |hs| < o + 1 {
      return NoName;
    }
    o := o + 1 + hs[o] as nat;
    if |hs| < o + 2 {
      return NoName;
    }
    var extEnd := o + 2 + ReadU16(hs, o);
    r := ParseExtensions(hs, o + 2, extEnd);
  }

  /* ---------- More bytes ---------- */

  /** Once a prefix gives an answer, every longer buffer gives the same. */
  lemma AnswerIsFinal(buf: seq<byte>, more: seq<byte>)
    requires Parse(buf) != More
    ensures Parse(buf + more) == Parse(buf)
  {
    hide Handshake;
    if buf[0] == 0x16 && buf[1] == 0x03 {
      assert ReadU16(buf + more, 3) == ReadU16(buf, 3);
      var end := 5 + ReadU16(buf, 3);
      assert (buf + more)[5..end] == buf[5..end];
    }
  }

  /* ---------- Writing a ClientHello ---------- */

  datatype Entry = Entry(kind: byte, name: seq<byte>)

  datatype Extension = ServerName(names: seq<Entry>) | Other(kind: nat, data: seq<byte>)

  /** The fields of a ClientHello; extensions may be absent altogether. */
  datatype Hello = Hello(recordMinor: byte, version: seq<byte>, random: seq<byte>, sessionId: seq<byte>,
    suites: seq<byte>, compression: seq<byte>, extensions: Option<seq<Extension>>)

  function U16(n: nat): (r: seq<byte>)
    requires n < 65536
    ensures |r| == 2 && ReadU16(r, 0) == n
  {
    [n / 256, n % 256]
  }

  function WriteEntries(names: seq<Entry>): seq<byte>
    requires forall i :: 0 <= i < |names| ==> |names[i].name| < 65536
    decreases |names|
  {
    if names == [] then [] else [names[0].kind] + U16(|names[0].name|) + names[0].name + WriteEntries(names[1..])
  }

  predicate EntriesFit(names: seq<Entry>) {
    (forall i :: 0 <= i < |names| ==> |names[i].name| < 65536) && |WriteEntries(names)| + 2 < 65536
  }

  predicate ExtensionFits(e: Extension) {
    match e
    case ServerName(names) => EntriesFit(names)
    case Other(kind, data) => 0 < kind < 65536 && |data| < 65536
  }

  function WriteData(e: Extension): (r: seq<byte>)
    requires ExtensionFits(e)
    ensures |r| < 65536
  {
    match e
    case ServerName(names) => U16(|WriteEntries(names)|) + WriteEntries(names)
    case Other(kind, data) => data
  }

  function WriteExtensions(es: seq<Extension>): seq<byte>
    requires forall i :: 0 <= i < |es| ==> ExtensionFits(es[i])
    decreases |es|
  {
    if es == [] then []
    else
      var data := WriteData(es[0]);
      U16(if es[0].ServerName? then 0 else es[0].kind) + U16(|data|) + data + WriteExtensions(es[1..])
  }

  predicate ExtensionsFit(es: seq<Extension>) {
    (forall i :: 0 <= i < |es| ==> ExtensionFits(es[i])) && |WriteExtensions(es)| < 65536
  }

  predicate HelloFits(h: Hello) {
    && |h.version| == 2 && |h.random| == 32 && |h.sessionId| < 256 && |h.suites| < 65536 && |h.compression| < 256
    && (h.extensions.Some? ==> ExtensionsFit(h.extensions.value))
  }

  function WriteFixed(h: Hello): seq<byte>
    requires HelloFits(h)
  {
    h.version + h.random + [|h.sessionId|] + h.sessionId + U16(|h.suites|) + h.suites + [|h.compression|]
      + h.compression
  }

  function WriteTail(h: Hello): seq<byte>
    requires HelloFits(h)
  {
    if h.extensions.None? then [] else U16(|WriteExtensions(h.extensions.value)|) + WriteExtensions(h.extensions.value)
  }

  function WriteHandshake(h: Hello): (r: seq<byte>)
    requires HelloFits(h) && |WriteFixed(h) + WriteTail(h)| + 4 < 65536
    ensures |r| < 65536
  {
    var body := WriteFixed(h) + WriteTail(h);
    [1, 0] + U16(|body|) + body
  }

  function Write(h: Hello): seq<byte>
    requires HelloFits(h) && |WriteFixed(h) + WriteTail(h)| + 4 < 65536
  {
    [0x16, 0x03, h.recordMinor] + U16(|WriteHandshake(h)|) + WriteHandshake(h)
  }

  /* ---------- Reading it back ---------- */

  function FirstHost(names: seq<Entry>): Sni
    decreases |names|
  {
    if names == [] then NoName else if names[0].kind == 0 then Name(Text(names[0].name)) else FirstHost(names[1..])
  }

  function FirstServerName(es: seq<Extension>): Sni
    decreases |es|
  {
    if es == [] then NoName else if es[0].ServerName? then FirstHost(es[0].names) else FirstServerName(es[1..])
  }

  /** What the ClientHello says: the first host name of the first server name extension. */
  function Announced(h: Hello): Sni {
    if h.extensions.None? then NoName else FirstServerName(h.extensions.value)
  }

  lemma ReadAfter(a: seq<byte>, b: seq<byte>, c: seq<byte>)
    requires |b| >= 2
    ensures ReadU16(a + b + c, |a|) == ReadU16(b, 0)
  {
  }

  lemma Fields(a: seq<byte>, b: seq<byte>, c: seq<byte>, d: seq<byte>, e: seq<byte>)
    requires |b| == 1 && |c| == 2
    ensures var hs := a + (b + c + d) + e;
      hs[|a|] == b[0] && ReadU16(hs, |a| + 1) == ReadU16(c, 0) && hs[|a| + 3..|a| + 3 + |d|] == d
  {
    var hs := a + (b + c + d) + e;
    assert hs == (a + b) + c + (d + e);
    ReadAfter(a + b, c, d + e);
    assert hs == (a + b + c) + d + e;
  }

  lemma OneEntry(hs: seq<byte>, p: nat, end: nat, head: Entry)
    requires p + 3 + |head.name| <= end <= |hs| && |head.name| < 65536
    requires hs[p] == head.kind && ReadU16(hs, p + 1) == |head.name| && hs[p + 3..p + 3 + |head.name|] == head.name
    ensures NamesAt(hs, p, end) == if head.kind == 0 then Name(Text(head.name))
      else NamesAt(hs, p + 3 + |head.name|, end)
  {
    hide Text, ReadU16;
  }

  lemma {:induction false} NamesReadBack(pre: seq<byte>, names: seq<Entry>, post: seq<byte>)
    requires forall i :: 0 <= i < |names| ==> |names[i].name| < 65536
    ensures NamesAt(pre + WriteEntries(names) + post, |pre|, |pre| + |WriteEntries(names)|) == FirstHost(names)
    decreases |names|
  {
    hide Text, U16, ReadU16, NamesAt;
    var hs := pre + WriteEntries(names) + post;
    if names != [] {
      var head, len, rest := names[0], U16(|names[0].name|), WriteEntries(names[1..]);
      var entry := [head.kind] + len + head.name;
      assert WriteEntries(names) == entry + rest;
      assert hs == pre + entry + (rest + post);
      Fields(pre, [head.kind], len, head.name, rest + post);
      OneEntry(hs, |pre|, |pre| + |entry| + |rest|, head);
      assert hs == (pre + entry) + rest + post;
      NamesReadBack(pre + entry, names[1..], post);
    } else {
      NoEntries(hs, |pre|);
    }
  }

  lemma NoEntries(hs: seq<byte>, p: nat)
    requires p <= |hs|
    ensures NamesAt(hs, p, p) == NoName
  {
  }

  lemma OneExtension(hs: seq<byte>, o: nat, extEnd: nat, kind: nat, len: nat)
    requires o + 4 <= extEnd <= |hs| && ReadU16(hs, o) == kind && ReadU16(hs, o + 2) == len
    ensures ExtensionsAt(hs, o, extEnd) ==
      if kind == 0 && o + 6 <= |hs| then NamesAt(hs, o + 6, Min(o + 4 + len, |hs|))
      else ExtensionsAt(hs, o + 4 + len, extEnd)
  {
    hide NamesAt, ReadU16;
  }

  lemma {:induction false} ExtensionsReadBack(pre: seq<byte>, es: seq<Extension>)
    requires forall i :: 0 <= i < |es| ==> ExtensionFits(es[i])
    ensures ExtensionsAt(pre + WriteExtensions(es), |pre|, |pre| + |WriteExtensions(es)|) == FirstServerName(es)
    decreases |es|
  {
    hide U16, NamesAt, WriteData, ReadU16, ExtensionsAt, ExtensionFits;
    var hs := pre + WriteExtensions(es);
    if es != [] {
      var e, data, rest := es[0], WriteData(es[0]), WriteExtensions(es[1..]);
      KindFits(e);
      var number := if e.ServerName? then 0 else e.kind;
      var kind, len := U16(number), U16(|data|);
      var head := kind + len + data;
      assert WriteExtensions(es) == head + rest;
      assert hs == pre + kind + (len + data + rest);
      ReadAfter(pre, kind, len + data + rest);
      assert hs == (pre + kind) + len + (data + rest);
      ReadAfter(pre + kind, len, data + rest);
      OneExtension(hs, |pre|, |hs|, number, |data|);
      if e.ServerName? {
        ServerNameReadBack(pre + kind + len, e, rest);
        assert hs == (pre + kind + len) + data + rest;
      } else {
        assert hs == (pre + head) + rest;
        ExtensionsReadBack(pre + head, es[1..]);
      }
    } else {
      NoExtensions(hs, |pre|);
    }
  }

  lemma KindFits(e: Extension)
    requires ExtensionFits(e)
    ensures e.Other? ==> 0 < e.kind < 65536
  {
  }

  lemma NoExtensions(hs: seq<byte>, o: nat)
    requires o <= |hs|
    ensures ExtensionsAt(hs, o, o) == NoName
  {
  }

  lemma ServerNameReadBack(pre: seq<byte>, e: Extension, post: seq<byte>)
    requires e.ServerName? && ExtensionFits(e)
    ensures |WriteData(e)| >= 2
    ensures NamesAt(pre + WriteData(e) + post, |pre| + 2, |pre| + |WriteData(e)|) == FirstHost(e.names)
  {
    hide U16, NamesAt, WriteEntries;
    var count := U16(|WriteEntries(e.names)|);
    NamesReadBack(pre + count, e.names, post);
    assert pre + WriteData(e) + post == (pre + count) + WriteEntries(e.names) + post;
  }

  lemma HandshakeAt(hs: seq<byte>, a: nat, b: nat, c: nat)
    requires |hs| >= 39 && hs[0] == 1 && a == 39 + hs[38] as nat
    requires |hs| >= a + 2 && b == a + 2 + ReadU16(hs, a)
    requires |hs| >= b + 1 && c == b + 1 + hs[b] as nat
    ensures Handshake(hs) == if |hs| < c + 2 then NoName else ExtensionsAt(hs, c + 2, c + 2 + ReadU16(hs, c))
  {
    hide ExtensionsAt, ReadU16;
  }

  /** The parts of a message, grouped as its length fields are read. */
  lemma Regroup<T>(head: seq<T>, n: seq<T>, a: seq<T>, m: seq<T>, b: seq<T>, l: seq<T>, c: seq<T>, tail: seq<T>)
    ensures head + n + a + m + b + l + c + tail == head + n + a + m + (b + l + c + tail)
    ensures head + n + a + m + b + l + c + tail == head + n + a + m + b + (l + c + tail)
    ensures head + n + a + m + b + l + c + tail == head + (n + a + m + b + l + c + tail)
  {
  }

  lemma HandshakeParts(h: Hello)
    requires HelloFits(h) && |WriteFixed(h) + WriteTail(h)| + 4 < 65536
    ensures WriteHandshake(h) == [1, 0] + U16(|WriteFixed(h) + WriteTail(h)|) + h.version + h.random + [|h.sessionId|]
      + h.sessionId + U16(|h.suites|) + h.suites + [|h.compression|] + h.compression + WriteTail(h)
  {
    hide U16, HelloFits, WriteTail;
  }

  lemma HandshakeReadBack(h: Hello)
    requires HelloFits(h) && |WriteFixed(h) + WriteTail(h)| + 4 < 65536
    ensures Handshake(WriteHandshake(h)) == Announced(h)
  {
    hide U16, ReadU16, ExtensionsAt, WriteExtensions, FirstServerName, ExtensionFits, Handshake, WriteFixed,
      WriteHandshake;
    var sid, comp := [|h.sessionId|], [|h.compression|];
    var suites, tail := U16(|h.suites|), WriteTail(h);
    var hs := WriteHandshake(h);
    HandshakeParts(h);
    var p1 := [1, 0] + U16(|WriteFixed(h) + tail|) + h.version + h.random;
    Regroup(p1, sid, h.sessionId, suites, h.suites, comp, h.compression, tail);
    var p2 := p1 + sid + h.sessionId;
    ReadAfter(p2, suites, h.suites + comp + h.compression + tail);
    var p3 := p2 + suites + h.suites;
    var p4 := p3 + comp + h.compression;
    assert hs == p4 + tail;
    HandshakeAt(hs, |p2|, |p3|, |p4|);
    if h.extensions.Some? {
      ExtensionsBehind(p4, h.extensions.value);
    }
  }

  lemma ExtensionsBehind(pre: seq<byte>, es: seq<Extension>)
    requires ExtensionsFit(es)
    ensures var hs := pre + (U16(|WriteExtensions(es)|) + WriteExtensions(es));
      ExtensionsAt(hs, |pre| + 2, |pre| + 2 + ReadU16(hs, |pre|)) == FirstServerName(es)
  {
    hide U16, ReadU16, ExtensionsAt, WriteExtensions, FirstServerName, ExtensionFits;
    var count := U16(|WriteExtensions(es)|);
    ReadAfter(pre, count, WriteExtensions(es));
    assert pre + (count + WriteExtensions(es)) == pre + count + WriteExtensions(es);
    ExtensionsReadBack(pre + count, es);
  }

  /** Whatever its other fields and extensions and whatever follows it, a ClientHello in one
      record gives its first announced host name. */
  lemma ParserInvertsWriter(h: Hello, after: seq<byte>)
    requires HelloFits(h) && |WriteFixed(h) + WriteTail(h)| + 4 < 65536
    ensures Parse(Write(h) + after) == Announced(h)
  {
    hide U16, Handshake, WriteHandshake;
    HandshakeReadBack(h);
    var hs := WriteHandshake(h);
    var len := U16(|hs|);
    var buf := Write(h) + after;
    assert buf == [0x16, 0x03, h.recordMinor] + len + (hs + after);
    ReadAfter([0x16, 0x03, h.recordMinor], len, hs + after);
    assert buf[5..5 + |hs|] == hs;
  }

  /** Before its last byte a ClientHello asks for more, so chunks do not matter. */
  lemma PrefixAsksForMore(h: Hello, k: nat)
    requires HelloFits(h) && |WriteFixed(h) + WriteTail(h)| + 4 < 65536
    requires k < |Write(h)|
    ensures Parse(Write(h)[..k]) == More
  {
    hide U16, Handshake, WriteHandshake;
    var hs := WriteHandshake(h);
    var len := U16(|hs|);
    assert Write(h) == [0x16, 0x03, h.recordMinor] + len + hs;
    if k >= 5 {
      var buf := Write(h)[..k];
      assert buf == [0x16, 0x03, h.recordMinor] + len + hs[..k - 5];
      ReadAfter([0x16, 0x03, h.recordMinor], len, hs[..k - 5]);
    }
  }

  /* ---------- The peer id ---------- */

  function FirstLabel(sni: string): string
    decreases |sni|
  {
    if sni == "" || sni[0] == '.' then "" else [sni[0]] + FirstLabel(sni[1..])
  }

  predicate IsPeerId(s: string) {
    8 <= |s| <= 64 && forall i :: 0 <= i < |s| ==> '0' <= s[i] <= '9' || 'a' <= s[i] <= 'f'
  }

  function PeerIdFromSni(sni: Sni): Option<string> {
    if !sni.Name? then None
    else
      var first := FirstLabel(sni.host);
      if IsPeerId(first) then Some(first) else None
  }

  lemma {:induction false} LabelBeforeDot(peerId: string, suffix: string)
    requires forall i :: 0 <= i < |peerId| ==> peerId[i] != '.'
    ensures FirstLabel(peerId + "." + suffix) == peerId
    decreases |peerId|
  {
    if peerId != "" {
      assert (peerId + "." + suffix)[1..] == peerId[1..] + "." + suffix;
      LabelBeforeDot(peerId[1..], suffix);
    } else {
      assert peerId + "." + suffix == "." + suffix;
    }
  }

  /** A client that asks for `<peerId>.<anything>`, in any letter case, is routed to that peer. */
  lemma RoutesToPeer(h: Hello, after: seq<byte>, name: seq<byte>, peerId: string, suffix: string)
    requires HelloFits(h) && |WriteFixed(h) + WriteTail(h)| + 4 < 65536
    requires Announced(h) == Name(Text(name)) && Text(name) == peerId + "." + suffix && IsPeerId(peerId)
    ensures PeerIdFromSni(Parse(Write(h) + after)) == Some(peerId)
  {
    hide Parse, Write, Announced, WriteFixed, WriteTail, HelloFits, Text;
    ParserInvertsWriter(h, after);
    LabelBeforeDot(peerId, suffix);
  }
}
