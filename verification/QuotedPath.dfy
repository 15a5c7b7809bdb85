/** `unquotePath`, `utf8` and `decodeUtf8` of packages/peer-protocol/src/forge.ts. Strings are sequences of UTF-16 code
    units. Where the source puts bits together with `|`, the bits never overlap, so the model adds. */
module QuotedPath {
  import opened Options

  const TAB := 9
  const QUOTE := 34
  const BACKSLASH := 92
  const REPLACEMENT := 0xfffd
  const MAX_CODE_POINT := 0x10ffff

  /* ---------- UTF-8 and UTF-16 ---------- */

  function Utf8(cp: nat): seq<nat> {
    if cp < 0x80 then [cp]
    else if cp < 0x800 then [0xc0 + cp / 64, 0x80 + cp % 64]
    else if cp < 0x10000 then [0xe0 + cp / 4096, 0x80 + cp / 64 % 64, 0x80 + cp % 64]
    else [0xf0 + cp / 262144, 0x80 + cp / 4096 % 64, 0x80 + cp / 64 % 64, 0x80 + cp % 64]
  }

  /** `String.fromCodePoint` of a valid code point. */
  function Utf16(cp: nat): seq<nat> {
    if cp < 0x10000 then [cp] else [0xd800 + (cp - 0x10000) / 1024, 0xdc00 + (cp - 0x10000) % 1024]
  }

  /** A code point outside the basic plane is a high and a low surrogate, with ten bits each. */
  lemma Utf16IsPair(cp: nat)
    requires cp <= MAX_CODE_POINT
    ensures cp < 0x10000 ==> Utf16(cp) == [cp]
    ensures cp >= 0x10000 ==> |Utf16(cp)| == 2 && var hi, lo := Utf16(cp)[0], Utf16(cp)[1];
      0xd800 <= hi < 0xdc00 <= lo < 0xe000 && cp == 0x10000 + (hi - 0xd800) * 0x400 + (lo - 0xdc00)
  {
  }

  /** The code point at the front of the bytes and the number of bytes it takes. */
  function First(b: seq<nat>): (r: (nat, nat))
    requires b != []
    ensures 1 <= r.1 <= |b|
  {
    var x := b[0];
    if x < 0x80 then (x, 1)
    else if x / 32 == 6 && 1 < |b| then (x % 32 * 64 + b[1] % 64, 2)
    else if x / 16 == 14 && 2 < |b| then (x % 16 * 4096 + b[1] % 64 * 64 + b[2] % 64, 3)
    else if x / 8 == 30 && 3 < |b| then (x % 8 * 262144 + b[1] % 64 * 4096 + b[2] % 64 * 64 + b[3] % 64, 4)
    else (REPLACEMENT, 1)
  }

  /** The text of the bytes; none when a code point is out of range and `fromCodePoint` throws. */
  function Decoded(b: seq<nat>): Option<seq<nat>>
    decreases |b|
  {
    if b == [] then Some([])
    else
      var (cp, n) := First(b);
      if cp > MAX_CODE_POINT then None
      else
        var rest := Decoded(b[n..]);
        if rest.None? then None else Some(Utf16(cp) + rest.value)
  }

  function Before(s: seq<nat>, r: Option<seq<nat>>): Option<seq<nat>> {
    if r.None? then None else Some(s + r.value)
  }

  method DecodeUtf8(b: seq<nat>) returns (s: Option<seq<nat>>)
    ensures s == Decoded(b)
  {
    hide Decoded, Utf16;
    var text: seq<nat> := [];
    var i := 0;
    DecodedNone();
    assert b[0..] == b;
    MoveNone(Decoded(b));
    while i < |b|
      invariant 0 <= i <= |b|
      invariant Decoded(b) == Before(text, Decoded(b[i..]))
    {
      ghost var left := b[i..];
      ghost var before := text;
      var x := b[i];
      var cp, n := REPLACEMENT, 1;
      if x < 0x80 {
        cp := x;
      } else if x / 32 == 6 && i + 1 < |b| {
        cp, n := x % 32 * 64 + b[i + 1] % 64, 2;
      } else if x / 16 == 14 && i + 2 < |b| {
        cp, n := x % 16 * 4096 + b[i + 1] % 64 * 64 + b[i + 2] % 64, 3;
      } else if x / 8 == 30 && i + 3 < |b| {
        cp, n := x % 8 * 262144 + b[i + 1] % 64 * 4096 + b[i + 2] % 64 * 64 + b[i + 3] % 64, 4;
      }
      assert (cp, n) == First(left);
      assert left[n..] == b[i + n..];
      DecodedNext(left);
      if cp > MAX_CODE_POINT {
        return None;
      }
      text := text + Utf16(cp);
      i := i + n;
      MoveBefore(before, Utf16(cp), Decoded(b[i..]));
    }
    assert b[i..] == [];
    assert text + [] == text;
    return Some(text);
  }

  lemma DecodedNone()
    ensures Decoded([]) == Some([])
  {
  }

  lemma DecodedNext(b: seq<nat>)
    requires b != []
    ensures var (cp, n) := First(b); Decoded(b) == if cp > MAX_CODE_POINT then None
      else Before(Utf16(cp), Decoded(b[n..]))
  {
    hide First, Utf16;
  }

  lemma MoveNone(r: Option<seq<nat>>)
    ensures Before([], r) == r
  {
    if r.Some? {
      assert [] + r.value == r.value;
    }
  }

  lemma MoveBefore(a: seq<nat>, b: seq<nat>, r: Option<seq<nat>>)
    ensures Before(a, Before(b, r)) == Before(a + b, r)
  {
    if r.Some? {
      assert a + (b + r.value) == a + b + r.value;
    }
  }

  /** Decoding undoes encoding on every code point, surrogates included, whatever follows. */
  lemma DecodeUndoesEncode(cp: nat, rest: seq<nat>)
    requires cp <= MAX_CODE_POINT
    ensures Decoded(Utf8(cp) + rest) == Before(Utf16(cp), Decoded(rest))
  {
    hide Utf16;
    var b := Utf8(cp) + rest;
    FirstOfEncoded(cp, rest);
    assert b[|Utf8(cp)|..] == rest;
  }

  lemma FirstOfTwo(a: nat, b: nat, rest: seq<nat>)
    requires a < 32 && b < 64
    ensures First([0xc0 + a, 0x80 + b] + rest) == (a * 64 + b, 2)
  {
  }

  lemma FirstOfThree(a: nat, b: nat, c: nat, rest: seq<nat>)
    requires a < 16 && b < 64 && c < 64
    ensures First([0xe0 + a, 0x80 + b, 0x80 + c] + rest) == (a * 4096 + b * 64 + c, 3)
  {
  }

  lemma FirstOfFour(a: nat, b: nat, c: nat, d: nat, rest: seq<nat>)
    requires a < 8 && b < 64 && c < 64 && d < 64
    ensures First([0xf0 + a, 0x80 + b, 0x80 + c, 0x80 + d] + rest) == (a * 262144 + b * 4096 + c * 64 + d, 4)
  {
  }

  lemma FirstOfEncoded(cp: nat, rest: seq<nat>)
    requires cp <= MAX_CODE_POINT
    ensures First(Utf8(cp) + rest) == (cp, |Utf8(cp)|)
  {
    if cp < 0x80 {
    } else {
      hide First;
      if cp < 0x800 {
        FirstOfTwo(cp / 64, cp % 64, rest);
      } else if cp < 0x10000 {
        var a, b, c := ThreeDigits(cp);
        FirstOfThree(a, b, c, rest);
      } else {
        var a, b, c, d := FourDigits(cp);
        FirstOfFour(a, b, c, d, rest);
      }
    }
  }

  lemma ThreeDigits(cp: nat) returns (a: nat, b: nat, c: nat)
    ensures a == cp / 4096 && b == cp / 64 % 64 && c == cp % 64
    ensures cp == a * 4096 + b * 64 + c && b < 64 && c < 64
  {
    a, b, c := cp / 4096, cp / 64 % 64, cp % 64;
    assert cp / 4096 == cp / 64 / 64;
  }

  lemma FourDigits(cp: nat) returns (a: nat, b: nat, c: nat, d: nat)
    ensures a == cp / 262144 && b == cp / 4096 % 64 && c == cp / 64 % 64 && d == cp % 64
    ensures cp == a * 262144 + b * 4096 + c * 64 + d && b < 64 && c < 64 && d < 64
  {
    var high: nat;
    high, c, d := ThreeDigits(cp);
    a, b := cp / 262144, cp / 4096 % 64;
    assert cp / 262144 == cp / 4096 / 64;
  }

  /* ---------- Escapes ---------- */

  predicate Octal(n: nat) {
    48 <= n <= 55
  }

  /** `parseInt` in base 8: the value of the octal digits in front. */
  function ParseOctal(acc: nat, s: seq<nat>): nat
    decreases |s|
  {
    if s == [] || !Octal(s[0]) then acc else ParseOctal(acc * 8 + s[0] - 48, s[1..])
  }

  /** The value of a one-letter escape; an unknown letter stands for itself. */
  function EscapeValue(n: nat): nat {
    match n
    case 110 => 10
    case 116 => 9
    case 114 => 13
    case 98 => 8
    case 102 => 12
    case 118 => 11
    case 97 => 7
    case _ => n
  }

  function Min(a: nat, b: nat): nat {
    if a <= b then a else b
  }

  /** The bytes a quoted body stands for; none when its last character is a lone backslash, where the source throws. */
  function Collected(body: seq<nat>): Option<seq<nat>>
    decreases |body|
  {
    if body == [] then Some([])
    else if body[0] != BACKSLASH then Before(Utf8(body[0]), Collected(body[1..]))
    else if |body| == 1 then None
    else if Octal(body[1]) then
      Before([ParseOctal(0, body[1..Min(4, |body|)]) % 256], Collected(body[Min(4, |body|)..]))
    else Before([EscapeValue(body[1])], Collected(body[2..]))
  }

  predicate Quoted(t: seq<nat>) {
    |t| >= 2 && t[0] == QUOTE && t[|t| - 1] == QUOTE
  }

  function WithoutTab(s: seq<nat>): seq<nat> {
    if s != [] && s[|s| - 1] == TAB then s[..|s| - 1] else s
  }

  /** The specification of `UnquotePath`. */
  function Unquoted(s: seq<nat>): Option<seq<nat>> {
    var t := WithoutTab(s);
    if !Quoted(t) then Some(t)
    else
      var bytes := Collected(t[1..|t| - 1]);
      if bytes.None? then None else Decoded(bytes.value)
  }

  method UnquotePath(s: seq<nat>) returns (path: Option<seq<nat>>)
    ensures path == Unquoted(s)
  {
    hide Collected, Utf8, ParseOctal, EscapeValue, Decoded;
    var t := if s != [] && s[|s| - 1] == TAB then s[..|s| - 1] else s;
    if !Quoted(t) {
      return Some(t);
    }
    var bytes: seq<nat> := [];
    var body := t[1..|t| - 1];
    var i := 0;
    assert body[0..] == body;
    MoveNone(Collected(body));
    while i < |body|
      invariant 0 <= i <= |body|
      invariant Collected(body) == Before(bytes, Collected(body[i..]))
    {
      ghost var left := body[i..];
      ghost var before := bytes;
      CollectedNext(left);
      var c := body[i];
      if c != BACKSLASH {
        bytes := bytes + Utf8(c);
        i := i + 1;
        assert left[1..] == body[i..];
        MoveBefore(before, Utf8(c), Collected(body[i..]));
        continue;
      }
      if i + 1 == |body| {
        return None;
      }
      var n := body[i + 1];
      if Octal(n) {
        var digits := body[i + 1..Min(i + 4, |body|)];
        assert Min(4, |left|) == Min(i + 4, |body|) - i;
        SliceOfRest(body, i, 1, Min(4, |left|));
        assert digits == left[1..Min(4, |left|)];
        bytes := bytes + [ParseOctal(0, digits) % 256];
        i := Min(i + 4, |body|);
        assert left[Min(4, |left|)..] == body[i..];
        MoveBefore(before, [ParseOctal(0, digits) % 256], Collected(body[i..]));
        continue;
      }
      bytes := bytes + [EscapeValue(n)];
      i := i + 2;
      assert left[2..] == body[i..];
      MoveBefore(before, [EscapeValue(n)], Collected(body[i..]));
    }
    assert body[i..] == [];
    CollectedNone();
    assert bytes + [] == bytes;
    path := DecodeUtf8(bytes);
  }

  lemma SliceOfRest(s: seq<nat>, i: nat, j: nat, k: nat)
    requires i <= |s| && j <= k <= |s| - i
    ensures s[i..][j..k] == s[i + j..i + k]
  {
  }

  lemma CollectedNone()
    ensures Collected([]) == Some([])
  {
  }

  lemma CollectedNext(body: seq<nat>)
    requires body != []
    ensures Collected(body) ==
      if body[0] != BACKSLASH then Before(Utf8(body[0]), Collected(body[1..]))
      else if |body| == 1 then None
      else if Octal(body[1])
        then Before([ParseOctal(0, body[1..Min(4, |body|)]) % 256], Collected(body[Min(4, |body|)..]))
      else Before([EscapeValue(body[1])], Collected(body[2..]))
  {
    hide Utf8, ParseOctal, EscapeValue;
  }

  /* ---------- git's quoting ---------- */

  type Byte = x: nat | x < 256

  /** How git escapes a byte inside quotes: by a letter where there is one, by three octal digits otherwise. */
  function Escape(x: Byte): seq<nat> {
    match x
    case 7 => [BACKSLASH, 97]
    case 8 => [BACKSLASH, 98]
    case 9 => [BACKSLASH, 116]
    case 10 => [BACKSLASH, 110]
    case 11 => [BACKSLASH, 118]
    case 12 => [BACKSLASH, 102]
    case 13 => [BACKSLASH, 114]
    case 34 => [BACKSLASH, 34]
    case 92 => [BACKSLASH, 92]
    case _ => [BACKSLASH, 48 + x / 64, 48 + x / 8 % 8, 48 + x % 8]
  }

  predicate Letter(x: Byte) {
    7 <= x <= 13 || x == QUOTE || x == BACKSLASH
  }

  lemma OctalNext(acc: nat, d: nat, rest: seq<nat>)
    requires d < 8
    ensures ParseOctal(acc, [48 + d] + rest) == ParseOctal(acc * 8 + d, rest)
  {
    assert ([48 + d] + rest)[1..] == rest;
  }

  lemma OctalDigits(a: nat, b: nat, c: nat)
    requires a < 8 && b < 8 && c < 8
    ensures ParseOctal(0, [48 + a, 48 + b, 48 + c]) == (a * 8 + b) * 8 + c
  {
    hide ParseOctal;
    assert [48 + a, 48 + b, 48 + c] == [48 + a] + ([48 + b] + ([48 + c] + []));
    OctalNext(0, a, [48 + b] + ([48 + c] + []));
    OctalNext(a, b, [48 + c] + []);
    OctalNext(a * 8 + b, c, []);
    OctalNone((a * 8 + b) * 8 + c);
  }

  lemma OctalNone(acc: nat)
    ensures ParseOctal(acc, []) == acc
  {
  }

  lemma OctalByte(x: Byte)
    ensures ParseOctal(0, [48 + x / 64, 48 + x / 8 % 8, 48 + x % 8]) == x
  {
    hide ParseOctal;
    OctalDigits(x / 64, x / 8 % 8, x % 8);
    assert x / 64 == x / 8 / 8;
  }

  lemma EscapeIsRead(x: Byte, rest: seq<nat>)
    ensures Collected(Escape(x) + rest) == Before([x], Collected(rest))
  {
    hide Collected, ParseOctal;
    var body := Escape(x) + rest;
    CollectedNext(body);
    if Letter(x) {
      assert body[2..] == rest;
    } else {
      assert body[4..] == rest;
      assert body[1..4] == [48 + x / 64, 48 + x / 8 % 8, 48 + x % 8];
      OctalByte(x);
    }
  }

  /** A byte as git writes it with `core.quotePath` on. */
  function WriteByte(x: Byte): seq<nat> {
    if 32 <= x < 127 && x != QUOTE && x != BACKSLASH then [x] else Escape(x)
  }

  function WriteBytes(b: seq<Byte>): seq<nat>
    decreases |b|
  {
    if b == [] then [] else WriteByte(b[0]) + WriteBytes(b[1..])
  }

  function InQuotes(body: seq<nat>): seq<nat> {
    [QUOTE] + body + [QUOTE]
  }

  lemma {:induction false} BytesAreRead(b: seq<Byte>)
    ensures Collected(WriteBytes(b)) == Some(b)
    decreases |b|
  {
    hide Collected, Escape;
    if b == [] {
      CollectedNone();
    } else {
      BytesAreRead(b[1..]);
      var body, rest := WriteBytes(b), WriteBytes(b[1..]);
      if 32 <= b[0] < 127 && b[0] != QUOTE && b[0] != BACKSLASH {
        CollectedNext(body);
        assert body[1..] == rest;
      } else {
        EscapeIsRead(b[0], rest);
      }
      assert [b[0]] + b[1..] == b;
    }
  }

  lemma QuotesComeOff(body: seq<nat>)
    ensures Unquoted(InQuotes(body)) == if Collected(body).None? then None else Decoded(Collected(body).value)
  {
    hide Collected, Decoded;
    var t := InQuotes(body);
    assert t[1..|t| - 1] == body;
  }

  /** Unquoting undoes git's quoting: of any bytes at all, it gives the text the decoder reads from them. */
  lemma UnquoteUndoesQuote(b: seq<Byte>)
    ensures Unquoted(InQuotes(WriteBytes(b))) == Decoded(b)
  {
    hide Collected, Decoded;
    QuotesComeOff(WriteBytes(b));
    BytesAreRead(b);
  }

  /* ---------- Paths of code points ---------- */

  /** A code point of a quoted path: written as it is, which `core.quotePath` off allows, or byte by byte. */
  datatype Written = Raw(cp: nat) | Escaped(cp: nat)

  predicate Writable(w: Written) {
    w.cp <= MAX_CODE_POINT && (w.Raw? ==> w.cp != QUOTE && w.cp != BACKSLASH)
  }

  function EscapeAll(b: seq<Byte>): seq<nat>
    decreases |b|
  {
    if b == [] then [] else Escape(b[0]) + EscapeAll(b[1..])
  }

  predicate AreBytes(b: seq<nat>) {
    forall i :: 0 <= i < |b| ==> b[i] < 256
  }

  lemma Utf8AreBytes(cp: nat)
    requires cp <= MAX_CODE_POINT
    ensures AreBytes(Utf8(cp))
  {
  }

  function Write(w: Written): seq<nat>
    requires Writable(w)
  {
    Utf8AreBytes(w.cp);
    if w.Raw? then Utf16(w.cp) else EscapeAll(Utf8(w.cp))
  }

  function WriteAll(ws: seq<Written>): seq<nat>
    requires forall i :: 0 <= i < |ws| ==> Writable(ws[i])
    decreases |ws|
  {
    if ws == [] then [] else Write(ws[0]) + WriteAll(ws[1..])
  }

  /** The path itself, in UTF-16. */
  function Path(ws: seq<Written>): seq<nat>
    decreases |ws|
  {
    if ws == [] then [] else Utf16(ws[0].cp) + Path(ws[1..])
  }

  /** The bytes the loop collects for a code point: a raw one outside the basic plane goes in as two surrogates. */
  function Bytes(w: Written): seq<nat> {
    if w.Raw? && w.cp >= 0x10000 then Utf8(Utf16(w.cp)[0]) + Utf8(Utf16(w.cp)[1]) else Utf8(w.cp)
  }

  lemma {:induction false} EscapesAreRead(b: seq<Byte>, rest: seq<nat>)
    ensures Collected(EscapeAll(b) + rest) == Before(b, Collected(rest))
    decreases |b|
  {
    hide Collected, Escape;
    if b == [] {
      assert EscapeAll(b) + rest == rest;
      MoveNone(Collected(rest));
    } else {
      var more := EscapeAll(b[1..]) + rest;
      assert EscapeAll(b) + rest == Escape(b[0]) + more;
      EscapeIsRead(b[0], more);
      EscapesAreRead(b[1..], rest);
      MoveBefore([b[0]], b[1..], Collected(rest));
      assert [b[0]] + b[1..] == b;
    }
  }

  lemma RawUnit(u: nat, rest: seq<nat>)
    requires u != BACKSLASH
    ensures Collected([u] + rest) == Before(Utf8(u), Collected(rest))
  {
    hide Collected, Utf8;
    CollectedNext([u] + rest);
    assert ([u] + rest)[1..] == rest;
  }

  lemma WrittenIsRead(w: Written, rest: seq<nat>)
    requires Writable(w)
    ensures Collected(Write(w) + rest) == Before(Bytes(w), Collected(rest))
  {
    hide Collected, Utf8;
    Utf8AreBytes(w.cp);
    if w.Escaped? {
      EscapesAreRead(Utf8(w.cp), rest);
    } else if w.cp < 0x10000 {
      RawUnit(w.cp, rest);
    } else {
      var u := Utf16(w.cp);
      assert u + rest == [u[0]] + ([u[1]] + rest);
      RawUnit(u[0], [u[1]] + rest);
      RawUnit(u[1], rest);
      MoveBefore(Utf8(u[0]), Utf8(u[1]), Collected(rest));
    }
  }

  lemma BytesDecode(w: Written, rest: seq<nat>)
    requires Writable(w)
    ensures Decoded(Bytes(w) + rest) == Before(Utf16(w.cp), Decoded(rest))
  {
    hide Decoded, Utf8;
    if w.Raw? && w.cp >= 0x10000 {
      var u := Utf16(w.cp);
      assert u == [u[0]] + [u[1]] && u[0] < 0x10000 && u[1] < 0x10000;
      assert Bytes(w) + rest == Utf8(u[0]) + (Utf8(u[1]) + rest);
      DecodeUndoesEncode(u[0], Utf8(u[1]) + rest);
      DecodeUndoesEncode(u[1], rest);
      MoveBefore([u[0]], [u[1]], Decoded(rest));
    } else {
      DecodeUndoesEncode(w.cp, rest);
    }
  }

  function AllBytes(ws: seq<Written>): seq<nat>
    decreases |ws|
  {
    if ws == [] then [] else Bytes(ws[0]) + AllBytes(ws[1..])
  }

  lemma {:induction false} AllAreRead(ws: seq<Written>)
    requires forall i :: 0 <= i < |ws| ==> Writable(ws[i])
    ensures Collected(WriteAll(ws)) == Some(AllBytes(ws))
    ensures Decoded(AllBytes(ws)) == Some(Path(ws))
    decreases |ws|
  {
    hide Collected, Decoded, Bytes, Write, Writable, Utf16;
    if ws == [] {
      CollectedNone();
      DecodedNone();
    } else {
      AllAreRead(ws[1..]);
      WrittenIsRead(ws[0], WriteAll(ws[1..]));
      BytesDecode(ws[0], AllBytes(ws[1..]));
    }
  }

  /** A quoted path comes back as the path, whichever of its characters were escaped. */
  lemma UnquotedPathIsPath(ws: seq<Written>)
    requires forall i :: 0 <= i < |ws| ==> Writable(ws[i])
    ensures Unquoted(InQuotes(WriteAll(ws))) == Some(Path(ws))
  {
    hide Collected, Decoded, WriteAll, AllBytes, Writable;
    QuotesComeOff(WriteAll(ws));
    AllAreRead(ws);
  }

  /** A path that is not quoted passes through, without the tab git adds behind one with spaces. */
  lemma PlainPathPasses(s: seq<nat>)
    requires !Quoted(s)
    ensures Unquoted(s + [TAB]) == Some(s)
    ensures (s == [] || s[|s| - 1] != TAB) ==> Unquoted(s) == Some(s)
  {
    assert (s + [TAB])[..|s|] == s;
  }

  /* ---------- Where the parser throws ---------- */

  /** The characters taken at the front of a body: an escape of a letter takes two, one of octal digits four. */
  function Width(body: seq<nat>): (n: nat)
    requires body != []
    ensures n > 0
  {
    if body[0] != BACKSLASH then 1 else if |body| > 1 && Octal(body[1]) then Min(4, |body|) else 2
  }

  /** A character or an escape begins at `i`. */
  predicate Begins(body: seq<nat>, i: nat)
    decreases |body|
  {
    i == 0 || (body != [] && Width(body) <= i <= |body| && Begins(body[Width(body)..], i - Width(body)))
  }

  /** The last character is a backslash that begins an escape. */
  predicate Unpaired(body: seq<nat>) {
    body != [] && body[|body| - 1] == BACKSLASH && Begins(body, |body| - 1)
  }

  lemma {:induction false} CollectedExactly(body: seq<nat>)
    ensures Collected(body).None? <==> Unpaired(body)
    decreases |body|
  {
    hide Collected, Utf8, Octal, ParseOctal, EscapeValue;
    if body == [] {
      CollectedNone();
    } else {
      CollectedNext(body);
      var n := Width(body);
      if n <= |body| {
        var rest := body[n..];
        CollectedExactly(rest);
        if rest != [] {
          assert rest[|rest| - 1] == body[|body| - 1];
        }
      }
    }
  }

  /** A character of the text is decoded from the bytes at `i` on. */
  predicate Starts(b: seq<nat>, i: nat)
    decreases |b|
  {
    i == 0 || (b != [] && First(b).1 <= i && Starts(b[First(b).1..], i - First(b).1))
  }

  /** Four bytes from 0xf4 0x90 on, which stand for more than a code point can be. */
  predicate Beyond(b: seq<nat>, i: nat) {
    i + 3 < |b| && (0xf5 <= b[i] <= 0xf7 || (b[i] == 0xf4 && b[i + 1] % 64 >= 0x10))
  }

  lemma FirstBeyond(b: seq<nat>)
    requires b != []
    ensures First(b).0 > MAX_CODE_POINT <==> Beyond(b, 0)
  {
    if b[0] / 8 == 30 && 3 < |b| {
      FourBeyond(b[0] % 8, b[1] % 64, b[2] % 64, b[3] % 64);
    }
  }

  lemma FourBeyond(a: nat, b: nat, c: nat, d: nat)
    requires a < 8 && b < 64 && c < 64 && d < 64
    ensures a * 262144 + b * 4096 + c * 64 + d > MAX_CODE_POINT <==> a > 4 || (a == 4 && b >= 0x10)
  {
  }

  lemma {:induction false} DecodedExactly(b: seq<nat>)
    ensures Decoded(b).None? <==> exists i: nat :: Starts(b, i) && Beyond(b, i)
    decreases |b|
  {
    hide Decoded, First;
    if b == [] {
      DecodedNone();
    } else {
      DecodedNext(b);
      FirstBeyond(b);
      var n := First(b).1;
      var rest := b[n..];
      DecodedExactly(rest);
      assert Starts(b, 0);
      forall i: nat | Starts(rest, i) && Beyond(rest, i) ensures Starts(b, i + n) && Beyond(b, i + n) {
      }
      forall i: nat | Starts(b, i) && Beyond(b, i) && i != 0 ensures Starts(rest, i - n) && Beyond(rest, i - n) {
      }
    }
  }

  ghost predicate ThrownAt(body: seq<nat>) {
    Unpaired(body) || exists b, i: nat :: Collected(body) == Some(b) && Starts(b, i) && Beyond(b, i)
  }

  /** The parser throws exactly when the path is quoted and either its last backslash has nothing to escape, or bytes
      that begin a character are four that stand for more than 0x10ffff. */
  lemma ThrowsExactly(s: seq<nat>)
    ensures var t := WithoutTab(s);
      Unquoted(s).None? <==> (Quoted(t) && ThrownAt(t[1..|t| - 1]))
  {
    hide Collected, Decoded, Unpaired, Starts, Beyond;
    var t := WithoutTab(s);
    if Quoted(t) {
      var body := t[1..|t| - 1];
      CollectedExactly(body);
      if Collected(body).Some? {
        DecodedExactly(Collected(body).value);
      }
    }
  }

  /** Of a path that git writes, only bytes beyond the last code point make the parser throw. */
  lemma QuotedThrowsExactly(b: seq<Byte>)
    ensures Unquoted(InQuotes(WriteBytes(b))).None? <==> exists i: nat :: Starts(b, i) && Beyond(b, i)
  {
    UnquoteUndoesQuote(b);
    DecodedExactly(b);
  }

  /** A file name in no encoding is enough: these four bytes, whatever follows, are not replaced but thrown at. */
  lemma SomeNamesThrow(rest: seq<Byte>)
    ensures Unquoted(InQuotes(WriteBytes([0xf4, 0x90, 0x80, 0x80] + rest))).None?
  {
    var b: seq<Byte> := [0xf4, 0x90, 0x80, 0x80] + rest;
    assert Starts(b, 0) && Beyond(b, 0);
    QuotedThrowsExactly(b);
  }
}
