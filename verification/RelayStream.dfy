/** The bytes of one relayed connection: the first line a socket sends to the relay, what the relay holds until it
    splices, and how either end finds the start of the raw stream (src/relay/main.ts and src/main/peer-relay.ts). */
module RelayStream {
  import opened Options

  type Byte = x: nat | x < 256

  type Bytes = seq<Byte>

  const NEWLINE: Byte := 0x0a

  function IndexOfNewline(buf: Bytes): (r: Option<nat>)
    ensures r.Some? ==> r.value < |buf| && buf[r.value] == NEWLINE && NEWLINE !in buf[..r.value]
    ensures r.None? ==> NEWLINE !in buf
    decreases |buf|
  {
    if buf == [] then None
    else if buf[0] == NEWLINE then Some(0)
    else
      match IndexOfNewline(buf[1..])
      case None => None
      case Some(i) => Some(i + 1)
  }

  /* ---------- Reading frames at either end ---------- */

  /** Frames were read and more are needed, or the awaited one came and this follows it. */
  datatype Scanned = More(buf: Bytes) | Found(rest: Bytes)

  /** Whole lines are read until one is accepted. */
  function Scan(buf: Bytes, accepts: Bytes -> bool): Scanned
    decreases |buf|
  {
    match IndexOfNewline(buf)
    case None => More(buf)
    case Some(nl) => if accepts(buf[..nl]) then Found(buf[nl + 1..]) else Scan(buf[nl + 1..], accepts)
  }

  /** `readFrames` */
  class FrameReader {
    var buf: Bytes
    const accepts: Bytes -> bool

    constructor (accepts: Bytes -> bool)
      ensures buf == [] && this.accepts == accepts
    {
      buf := [];
      this.accepts := accepts;
    }

    method OnData(d: Bytes) returns (done: bool, rest: Bytes)
      modifies this
      ensures done ==> Scan(old(buf) + d, accepts) == Found(rest)
      ensures !done ==> Scan(old(buf) + d, accepts) == More(buf)
    {
      buf := buf + d;
      ghost var all := buf;
      var nl := IndexOfNewline(buf);
      while nl.Some?
        invariant nl == IndexOfNewline(buf)
        invariant Scan(all, accepts) == Scan(buf, accepts)
        decreases |buf|
      {
        var line := buf[..nl.value];
        ghost var before := buf;
        buf := buf[nl.value + 1..];
        if accepts(line) {
          return true, buf;
        }
        nl := IndexOfNewline(buf);
      }
      return false, [];
    }
  }

  lemma {:induction false} NewlineStays(a: Bytes, b: Bytes)
    requires IndexOfNewline(a).Some?
    ensures IndexOfNewline(a + b) == IndexOfNewline(a)
    decreases |a|
  {
    if a[0] != NEWLINE {
      assert (a + b)[1..] == a[1..] + b;
      NewlineStays(a[1..], b);
    }
  }

  /** Reading in two goes finds what reading at once finds, and keeps every byte behind it. */
  lemma {:induction false} ScanInTwo(a: Bytes, b: Bytes, accepts: Bytes -> bool)
    ensures Scan(a + b, accepts) == match Scan(a, accepts)
      case More(buf) => Scan(buf + b, accepts)
      case Found(rest) => Found(rest + b)
    decreases |a|
  {
    var nl := IndexOfNewline(a);
    if nl.Some? {
      NewlineStays(a, b);
      var i := nl.value;
      assert (a + b)[..i] == a[..i];
      assert (a + b)[i + 1..] == a[i + 1..] + b;
      if !accepts(a[..i]) {
        ScanInTwo(a[i + 1..], b, accepts);
      }
    }
  }

  /* ---------- One direction ---------- */

  /** One way through the relay. The sender first sends `hello`, then what it has to say; the receiver first gets
      `greeting` from the relay. `up` and `down` are the bytes on the way to and from the relay, `held` is the relay's
      buffer, `buf` the receiver's. */
  datatype Direction = Direction(hello: Bytes, greeting: Bytes, sent: Bytes, up: Bytes, passed: bool, held: Bytes,
    down: Bytes, buf: Bytes, open: bool, got: Bytes)

  function Send(d: Direction, x: Bytes): Direction {
    d.(sent := d.sent + x, up := d.up + x)
  }

  /** The relay reads `n` bytes before the splice: it looks for the end of the first line and keeps what follows. */
  function ReadLine(d: Direction, n: nat): Direction
    requires n <= |d.up|
  {
    var buf := d.held + d.up[..n];
    match IndexOfNewline(buf)
    case None => d.(held := buf, up := d.up[n..])
    case Some(nl) => d.(held := buf[nl + 1..], up := d.up[n..], passed := true)
  }

  /** The relay peeks at a TLS client instead, until it has seen enough, and keeps everything. */
  function Peek(d: Direction, n: nat, enough: Bytes -> bool): Direction
    requires n <= |d.up|
  {
    var buf := d.held + d.up[..n];
    d.(held := buf, up := d.up[n..], passed := enough(buf))
  }

  function Splice(d: Direction): Direction {
    d.(down := d.down + d.greeting + d.held, held := [])
  }

  function Pipe(d: Direction, n: nat): Direction
    requires n <= |d.up|
  {
    d.(down := d.down + d.up[..n], up := d.up[n..])
  }

  /** The receiver reads `n` bytes: frames up to the awaited one, then the stream. */
  function Receive(d: Direction, n: nat, accepts: Bytes -> bool): Direction
    requires n <= |d.down|
  {
    var chunk := d.down[..n];
    if d.open then d.(down := d.down[n..], got := d.got + chunk)
    else
      match Scan(d.buf + chunk, accepts)
      case More(buf) => d.(down := d.down[n..], buf := buf)
      case Found(rest) => d.(down := d.down[n..], buf := [], open := true, got := rest)
  }

  /** A line of its own, or nothing at all. */
  predicate IsLine(l: Bytes) {
    l != [] && l[|l| - 1] == NEWLINE && NEWLINE !in l[..|l| - 1]
  }

  /** Nothing is lost, repeated or out of order: what the sender has sent is what the receiver has got, then what is
      on the way down, then what is on the way up. */
  ghost predicate Conserved(d: Direction, spliced: bool) {
    && (d.open || IsLine(d.greeting))
    && (if !spliced then
          && d.down == [] && d.buf == [] && d.got == []
          && (if d.passed then d.held + d.up == d.sent
              else d.held + d.up == d.hello + d.sent && (d.hello == [] || (IsLine(d.hello) && NEWLINE !in d.held)))
        else
          && d.held == []
          && (if d.open then d.got + d.down + d.up == d.sent
              else d.got == [] && d.buf + d.down + d.up == d.greeting + d.sent && NEWLINE !in d.buf))
  }

  /* ---------- Every step conserves ---------- */

  lemma FirstLine(l: Bytes, buf: Bytes, more: Bytes, payload: Bytes)
    requires IsLine(l) && buf + more == l + payload && IndexOfNewline(buf).Some?
    ensures IndexOfNewline(buf) == Some(|l| - 1) && buf[..|l| - 1] == l[..|l| - 1] && buf[|l|..] + more == payload
  {
    var i := IndexOfNewline(buf).value;
    var n := |l| - 1;
    var all := l + payload;
    assert buf[i] == all[i];
    LineHasOne(l, i);
    assert i <= n ==> l[i] == all[i];
    assert buf[n] == all[n] == NEWLINE;
    assert buf[..n] == all[..n] == l[..n];
    FirstIs(buf, n);
    assert buf[|l|..] + more == all[|l|..];
  }

  lemma LineHasOne(l: Bytes, i: nat)
    requires IsLine(l)
    ensures i < |l| - 1 ==> l[i] != NEWLINE
  {
    if i < |l| - 1 {
      assert l[i] in l[..|l| - 1];
    }
  }

  lemma {:induction false} FirstIs(buf: Bytes, n: nat)
    requires n < |buf| && buf[n] == NEWLINE && NEWLINE !in buf[..n]
    ensures IndexOfNewline(buf) == Some(n)
    decreases |buf|
  {
    if n > 0 {
      assert buf[0] in buf[..n];
      assert buf[1..][..n - 1] == buf[..n][1..];
      FirstIs(buf[1..], n - 1);
    }
  }

  lemma CutUp(a: Bytes, b: Bytes, n: nat)
    requires n <= |b|
    ensures a + b[..n] + b[n..] == a + b
  {
  }

  lemma SendConserves(d: Direction, x: Bytes, spliced: bool)
    requires Conserved(d, spliced)
    ensures Conserved(Send(d, x), spliced)
  {
    var e := Send(d, x);
    if !spliced {
      assert e.held + e.up == (d.held + d.up) + x;
      assert d.hello + d.sent + x == d.hello + (d.sent + x);
    } else if d.open {
      assert e.got + e.down + e.up == (d.got + d.down + d.up) + x;
    } else {
      assert e.buf + e.down + e.up == (d.buf + d.down + d.up) + x;
      assert d.greeting + d.sent + x == d.greeting + (d.sent + x);
    }
  }

  lemma ReadLineConserves(d: Direction, n: nat)
    requires Conserved(d, false) && !d.passed && d.hello != [] && n <= |d.up|
    ensures Conserved(ReadLine(d, n), false)
  {
    var buf := d.held + d.up[..n];
    CutUp(d.held, d.up, n);
    if IndexOfNewline(buf).Some? {
      FirstLine(d.hello, buf, d.up[n..], d.sent);
    }
  }

  lemma PeekConserves(d: Direction, n: nat, enough: Bytes -> bool)
    requires Conserved(d, false) && !d.passed && d.hello == [] && n <= |d.up|
    ensures Conserved(Peek(d, n, enough), false)
  {
    CutUp(d.held, d.up, n);
    assert d.hello + d.sent == d.sent;
  }

  lemma SpliceConserves(d: Direction)
    requires Conserved(d, false) && d.passed && (d.open ==> d.greeting == [])
    ensures Conserved(Splice(d), true)
  {
    var e := Splice(d);
    assert e.down + e.up == d.greeting + (d.held + d.up);
    if d.open {
      assert e.got + e.down + e.up == d.sent;
    } else {
      assert e.buf + e.down + e.up == d.greeting + d.sent;
    }
  }

  lemma PipeConserves(d: Direction, n: nat)
    requires Conserved(d, true) && n <= |d.up|
    ensures Conserved(Pipe(d, n), true)
  {
    var e := Pipe(d, n);
    assert e.down + e.up == d.down + d.up;
    assert e.got + e.down + e.up == d.got + (d.down + d.up) == d.got + d.down + d.up;
    assert e.buf + e.down + e.up == d.buf + (d.down + d.up) == d.buf + d.down + d.up;
  }

  lemma ReceiveOpenConserves(d: Direction, n: nat, accepts: Bytes -> bool)
    requires Conserved(d, true) && n <= |d.down| && d.open
    ensures Conserved(Receive(d, n, accepts), true)
  {
    var e := Receive(d, n, accepts);
    CutUp(d.got, d.down, n);
    assert e.got + e.down + e.up == d.got + d.down + d.up;
  }

  lemma ReceiveConserves(d: Direction, n: nat, accepts: Bytes -> bool)
    requires Conserved(d, true) && n <= |d.down| && (IsLine(d.greeting) ==> accepts(d.greeting[..|d.greeting| - 1]))
    ensures Conserved(Receive(d, n, accepts), true)
  {
    hide IsLine, Scan, IndexOfNewline, Receive, Conserved;
    if d.open {
      ReceiveOpenConserves(d, n, accepts);
    } else {
      var buf, rest := d.buf + d.down[..n], d.down[n..] + d.up;
      WaitingBytes(d, n);
      if IndexOfNewline(buf).Some? {
        ReceiveOpens(d, n, accepts);
      } else {
        ReceiveWaits(d, n, accepts);
      }
    }
  }

  lemma WaitingBytes(d: Direction, n: nat)
    requires Conserved(d, true) && n <= |d.down| && !d.open
    ensures d.buf + d.down[..n] + (d.down[n..] + d.up) == d.greeting + d.sent
  {
    CutUp(d.buf, d.down, n);
  }

  /** The awaited line is complete: what follows it is the start of the stream. */
  lemma ReceiveOpens(d: Direction, n: nat, accepts: Bytes -> bool)
    requires Conserved(d, true) && n <= |d.down| && !d.open && IndexOfNewline(d.buf + d.down[..n]).Some?
    requires IsLine(d.greeting) ==> accepts(d.greeting[..|d.greeting| - 1])
    requires d.buf + d.down[..n] + (d.down[n..] + d.up) == d.greeting + d.sent
    ensures Conserved(Receive(d, n, accepts), true)
  {
    var e := Receive(d, n, accepts);
    var buf := d.buf + d.down[..n];
    FirstLine(d.greeting, buf, d.down[n..] + d.up, d.sent);
    assert Scan(buf, accepts) == Found(buf[|d.greeting|..]);
    hide Scan, IndexOfNewline, IsLine;
    assert e.got + e.down + e.up == e.got + (e.down + e.up);
  }

  lemma ReceiveWaits(d: Direction, n: nat, accepts: Bytes -> bool)
    requires Conserved(d, true) && n <= |d.down| && !d.open && IndexOfNewline(d.buf + d.down[..n]).None?
    requires d.buf + d.down[..n] + (d.down[n..] + d.up) == d.greeting + d.sent
    ensures Conserved(Receive(d, n, accepts), true)
  {
    var e := Receive(d, n, accepts);
    assert Scan(d.buf + d.down[..n], accepts) == More(d.buf + d.down[..n]);
    assert e.buf + e.down + e.up == e.buf + (e.down + e.up);
  }

  /* ---------- Both directions, every run ---------- */

  /** A client that speaks frames is told `ok`; one found by its server name gets only the host's bytes. */
  datatype Kind = Framed | Raw

  /** How the two ends and the relay read: when an end takes a line for the awaited frame, and when the relay has seen
      enough of a TLS hello. */
  datatype Readers = Readers(accepts: Bytes -> bool, enough: Bytes -> bool)

  datatype State = State(kind: Kind, toHost: Direction, toClient: Direction, spliced: bool, closed: bool)

  datatype Event =
    | ClientSends(data: Bytes)
    | HostSends(data: Bytes)
    | RelayReadsClient(n: nat)
    | RelayReadsHost(n: nat)
    | ClientReads(n: nat)
    | HostReads(n: nat)
    | Close

  const HELLO_LIMIT := 4096
  const PEEK_LIMIT := 16384

  /** The relay's client socket is paused while the client waits for its host. */
  function FromClient(s: State, n: nat, r: Readers): State {
    if n > |s.toHost.up| then s
    else if s.spliced then s.(toHost := Pipe(s.toHost, n))
    else if s.toHost.passed then s
    else
      var d := if s.kind == Framed then ReadLine(s.toHost, n) else Peek(s.toHost, n, r.enough);
      var limit := if s.kind == Framed then HELLO_LIMIT else PEEK_LIMIT;
      s.(toHost := d, closed := !d.passed && |d.held| > limit)
  }

  /** The host's line asks for the splice; it is refused while no client waits. */
  function FromHost(s: State, n: nat): State {
    if n > |s.toClient.up| then s
    else if s.spliced then s.(toClient := Pipe(s.toClient, n))
    else
      var d := ReadLine(s.toClient, n);
      if !d.passed then s.(toClient := d, closed := |d.held| > HELLO_LIMIT)
      else if !s.toHost.passed then s.(toClient := d, closed := true)
      else s.(toHost := Splice(s.toHost), toClient := Splice(d), spliced := true)
  }

  function Step(s: State, e: Event, r: Readers): State {
    if s.closed then s
    else
      match e
      case ClientSends(x) => s.(toHost := Send(s.toHost, x))
      case HostSends(x) => s.(toClient := Send(s.toClient, x))
      case RelayReadsClient(n) => FromClient(s, n, r)
      case RelayReadsHost(n) => FromHost(s, n)
      case ClientReads(n) => if n > |s.toClient.down| then s else s.(toClient := Receive(s.toClient, n, r.accepts))
      case HostReads(n) => if n > |s.toHost.down| then s else s.(toHost := Receive(s.toHost, n, r.accepts))
      case Close => s.(closed := true)
  }

  function Run(s: State, events: seq<Event>, r: Readers): State
    decreases |events|
  {
    if events == [] then s else Step(Run(s, events[..|events| - 1], r), events[|events| - 1], r)
  }

  function Fresh(hello: Bytes, greeting: Bytes): Direction {
    Direction(hello, greeting, [], hello, false, [], [], [], greeting == [], [])
  }

  /** A connection whose ends have sent their first lines; a raw client has none and waits for no greeting. */
  function Start(kind: Kind, connect: Bytes, accept: Bytes, ok: Bytes): State {
    State(kind, Fresh(if kind == Framed then connect else [], ok), Fresh(accept, if kind == Framed then ok else []),
      false, false)
  }

  /** The lines of the handshake are lines, and both ends know an `ok` when they see one. */
  ghost predicate Lines(connect: Bytes, accept: Bytes, ok: Bytes, r: Readers) {
    IsLine(connect) && IsLine(accept) && IsLine(ok) && r.accepts(ok[..|ok| - 1])
  }

  ghost predicate Knows(d: Direction, r: Readers) {
    && (IsLine(d.greeting) ==> r.accepts(d.greeting[..|d.greeting| - 1]))
    && (d.greeting != [] ==> IsLine(d.greeting))
  }

  ghost predicate Invariant(s: State, r: Readers) {
    && Conserved(s.toHost, s.spliced) && Conserved(s.toClient, s.spliced)
    && Knows(s.toHost, r) && Knows(s.toClient, r)
    && (s.toHost.hello == [] <==> s.kind == Raw) && s.toClient.hello != []
    && (!s.spliced ==> (s.toHost.open ==> s.toHost.greeting == []) && (s.toClient.open ==> s.toClient.greeting == []))
    && (!s.spliced && !s.closed ==> !s.toClient.passed)
  }

  lemma StartKeeps(kind: Kind, connect: Bytes, accept: Bytes, ok: Bytes, r: Readers)
    requires Lines(connect, accept, ok, r)
    ensures Invariant(Start(kind, connect, accept, ok), r)
  {
    var s := Start(kind, connect, accept, ok);
    assert s.toHost.held + s.toHost.up == s.toHost.hello + s.toHost.sent;
    assert s.toClient.held + s.toClient.up == s.toClient.hello + s.toClient.sent;
  }

  lemma ReceiveNothing(d: Direction, n: nat, accepts: Bytes -> bool)
    requires Conserved(d, false) && n <= |d.down|
    ensures Receive(d, n, accepts) == d
  {
    assert d.down[..n] == [] && d.down[n..] == [] && d.got + [] == d.got && d.buf + [] == [];
  }

  lemma FromClientKeeps(s: State, n: nat, r: Readers)
    requires Invariant(s, r) && !s.closed
    ensures Invariant(FromClient(s, n, r), r)
  {
    hide Conserved;
    if n <= |s.toHost.up| {
      if s.spliced {
        PipeConserves(s.toHost, n);
      } else if !s.toHost.passed {
        if s.kind == Framed {
          ReadLineConserves(s.toHost, n);
        } else {
          PeekConserves(s.toHost, n, r.enough);
        }
        var d := FromClient(s, n, r).toHost;
        assert d.hello == s.toHost.hello && d.greeting == s.toHost.greeting && d.open == s.toHost.open;
        assert Conserved(d, false);
      }
    }
  }

  lemma FromHostKeeps(s: State, n: nat, r: Readers)
    requires Invariant(s, r) && !s.closed
    ensures Invariant(FromHost(s, n), r)
  {
    hide Conserved;
    if n <= |s.toClient.up| {
      if s.spliced {
        PipeConserves(s.toClient, n);
      } else {
        ReadLineConserves(s.toClient, n);
        var d := ReadLine(s.toClient, n);
        if d.passed && s.toHost.passed {
          SpliceConserves(s.toHost);
          SpliceConserves(d);
        }
      }
    }
  }

  lemma ReadsKeep(d: Direction, spliced: bool, n: nat, r: Readers)
    requires Conserved(d, spliced) && Knows(d, r) && n <= |d.down|
    ensures Conserved(Receive(d, n, r.accepts), spliced) && (!spliced ==> Receive(d, n, r.accepts) == d)
  {
    hide Conserved, Receive;
    if spliced {
      ReceiveConserves(d, n, r.accepts);
    } else {
      ReceiveNothing(d, n, r.accepts);
    }
  }

  lemma StepKeeps(s: State, e: Event, r: Readers)
    requires Invariant(s, r)
    ensures Invariant(Step(s, e, r), r)
  {
    hide Conserved, FromClient, FromHost;
    if !s.closed {
      match e
      case ClientSends(x) => SendConserves(s.toHost, x, s.spliced);
      case HostSends(x) => SendConserves(s.toClient, x, s.spliced);
      case RelayReadsClient(n) => FromClientKeeps(s, n, r);
      case RelayReadsHost(n) => FromHostKeeps(s, n, r);
      case ClientReads(n) =>
        if n <= |s.toClient.down| {
          ReadsKeep(s.toClient, s.spliced, n, r);
        }
      case HostReads(n) =>
        if n <= |s.toHost.down| {
          ReadsKeep(s.toHost, s.spliced, n, r);
        }
      case Close =>
    }
  }

  lemma {:induction false} RunKeeps(s: State, events: seq<Event>, r: Readers)
    requires Invariant(s, r)
    ensures Invariant(Run(s, events, r), r)
    decreases |events|
  {
    hide Invariant, Step;
    if events != [] {
      RunKeeps(s, events[..|events| - 1], r);
      StepKeeps(Run(s, events[..|events| - 1], r), events[|events| - 1], r);
    }
  }

  lemma NothingMoves(s: State, e: Event, r: Readers)
    requires s.closed
    ensures Step(s, e, r) == s
  {
  }

  lemma CloseCloses(s: State, r: Readers)
    ensures Step(s, Close, r).closed
  {
  }

  /** A close is final: nothing that comes later moves a byte or opens the connection again. */
  lemma {:induction false} CloseIsFinal(s: State, events: seq<Event>, k: nat, r: Readers)
    requires k < |events| && events[k] == Close
    ensures Run(s, events, r).closed && Run(s, events, r) == Run(s, events[..k + 1], r)
    decreases |events|
  {
    hide Step;
    var n := |events| - 1;
    var before := Run(s, events[..n], r);
    if k == n {
      assert events[..k + 1] == events;
      CloseCloses(before, r);
    } else {
      assert events[..n][..k + 1] == events[..k + 1];
      CloseIsFinal(s, events[..n], k, r);
      NothingMoves(before, events[n], r);
    }
  }

  /** What an end has got of the stream is a beginning of what the other end has sent; and with nothing on the way, it
      is all of it. */
  ghost predicate Delivered(d: Direction, spliced: bool) {
    && d.got <= d.sent
    && (spliced && d.open && d.down == [] && d.up == [] ==> d.got == d.sent)
  }

  lemma ConservedIsDelivered(d: Direction, spliced: bool)
    requires Conserved(d, spliced)
    ensures Delivered(d, spliced)
  {
    if spliced && d.open {
      assert d.got + d.down + d.up == d.got + (d.down + d.up);
      if d.down == [] && d.up == [] {
        assert d.got + [] == d.got;
      }
    } else {
      assert d.got == [];
    }
  }

  /** Whatever the chunks and in whatever order the sockets are read, each end reads the other's bytes from behind its
      first line, in order, with nothing lost or repeated. */
  lemma BytesArrive(kind: Kind, connect: Bytes, accept: Bytes, ok: Bytes, events: seq<Event>, r: Readers)
    requires Lines(connect, accept, ok, r)
    ensures var s := Run(Start(kind, connect, accept, ok), events, r);
      Delivered(s.toHost, s.spliced) && Delivered(s.toClient, s.spliced)
  {
    hide Conserved, Delivered, Start;
    StartKeeps(kind, connect, accept, ok, r);
    RunKeeps(Start(kind, connect, accept, ok), events, r);
    var s := Run(Start(kind, connect, accept, ok), events, r);
    ConservedIsDelivered(s.toHost, s.spliced);
    ConservedIsDelivered(s.toClient, s.spliced);
  }

  lemma NewlineIsIn(buf: Bytes, l: Bytes, x: Bytes)
    ensures IsLine(l) && NEWLINE !in buf ==> buf + [] != l + x && buf + [] + [] != l + x
  {
    if IsLine(l) {
      assert (l + x)[|l| - 1] == NEWLINE;
      assert buf + [] == buf && buf + [] + [] == buf;
    }
  }

  /** With nothing on the way, a direction that is spliced is open and has delivered everything. */
  lemma QuietIsOpen(d: Direction)
    requires Conserved(d, true) && d.down == [] && d.up == []
    ensures d.open && d.got == d.sent
  {
    ConservedIsDelivered(d, true);
    NewlineIsIn(d.buf, d.greeting, d.sent);
  }

  /** Unless the relay has closed, it cannot have read all of the host's bytes without splicing. */
  lemma QuietIsSpliced(s: State, r: Readers)
    requires Invariant(s, r) && !s.closed && s.toClient.up == []
    ensures s.spliced
  {
    NewlineIsIn(s.toClient.held, s.toClient.hello, s.toClient.sent);
  }

  ghost predicate Quiet(s: State) {
    s.toHost.up == [] && s.toHost.down == [] && s.toClient.up == [] && s.toClient.down == []
  }

  /** What the relay does not close for. The host answers only when the relay has seen the client's first line, or
      enough of its hello. Before the splice a first line fits the relay's limit, whatever is sent behind it; and of a
      raw client, more than the relay peeks at is enough. */
  ghost predicate Polite(s: State, e: Event, r: Readers) {
    && e != Close && (e.RelayReadsHost? ==> s.toHost.passed)
    && (!s.spliced ==> |s.toClient.hello| <= HELLO_LIMIT + 1)
    && (!s.spliced && !s.toHost.passed ==>
          if s.kind == Framed then |s.toHost.hello| <= HELLO_LIMIT + 1 else EnoughInTime(s.toHost.sent, r))
  }

  ghost predicate EnoughInTime(sent: Bytes, r: Readers) {
    forall y :: PEEK_LIMIT < y <= |sent| ==> r.enough(sent[..y])
  }

  ghost predicate PoliteRun(s: State, events: seq<Event>, r: Readers) {
    forall k :: 0 <= k < |events| ==> Polite(Run(s, events[..k], r), events[k], r)
  }

  /** Until its line break comes, the relay holds less than the first line; of a raw client, a part of what was sent. */
  lemma HeldIsShort(d: Direction)
    requires Conserved(d, false) && !d.passed
    ensures if d.hello == [] then d.held <= d.sent else |d.held| < |d.hello|
  {
    HeldStarts(d.held, d.up, d.hello, d.sent);
    if d.hello != [] && |d.held| >= |d.hello| {
      assert false;
    }
  }

  lemma HeldStarts(held: Bytes, up: Bytes, hello: Bytes, sent: Bytes)
    ensures held + up == hello + sent && hello == [] ==> held <= sent
    ensures held + up == hello + sent && |held| >= |hello| > 0 && hello[|hello| - 1] == NEWLINE ==> NEWLINE in held
  {
    if held + up == hello + sent {
      if hello == [] {
        assert hello + sent == sent;
      } else if |held| >= |hello| {
        assert held[|hello| - 1] == (held + up)[|hello| - 1] == hello[|hello| - 1];
      }
    }
  }

  /** A raw client of whom the relay has seen too little is within the limit. */
  lemma PeekIsShort(d: Direction, n: nat, r: Readers)
    requires Conserved(d, false) && !d.passed && d.hello == [] && n <= |d.up| && EnoughInTime(d.sent, r)
    ensures Peek(d, n, r.enough).passed || |Peek(d, n, r.enough).held| <= PEEK_LIMIT
  {
    PeekConserves(d, n, r.enough);
    var e := Peek(d, n, r.enough);
    if !e.passed {
      HeldIsShort(e);
      assert e.held == d.sent[..|e.held|];
    }
  }

  /** A first line of which the relay has not seen the end is within the limit. */
  lemma LineIsShort(d: Direction, n: nat)
    requires Conserved(d, false) && !d.passed && d.hello != [] && n <= |d.up| && |d.hello| <= HELLO_LIMIT + 1
    ensures ReadLine(d, n).passed || |ReadLine(d, n).held| <= HELLO_LIMIT
  {
    ReadLineConserves(d, n);
    if !ReadLine(d, n).passed {
      HeldIsShort(ReadLine(d, n));
    }
  }

  lemma PoliteStaysOpen(s: State, e: Event, r: Readers)
    requires Invariant(s, r) && !s.closed && Polite(s, e, r)
    ensures !Step(s, e, r).closed
  {
    hide Conserved, ReadLine, Peek, Receive, EnoughInTime;
    if !s.spliced && e.RelayReadsClient? && e.n <= |s.toHost.up| && !s.toHost.passed {
      if s.kind == Framed {
        LineIsShort(s.toHost, e.n);
      } else {
        PeekIsShort(s.toHost, e.n, r);
      }
    } else if !s.spliced && e.RelayReadsHost? && e.n <= |s.toClient.up| {
      LineIsShort(s.toClient, e.n);
    }
  }

  lemma {:induction false} PoliteRunStaysOpen(s: State, events: seq<Event>, r: Readers)
    requires Invariant(s, r) && !s.closed && PoliteRun(s, events, r)
    ensures !Run(s, events, r).closed
    decreases |events|
  {
    hide Invariant, Step, Polite;
    if events != [] {
      var n := |events| - 1;
      forall k | 0 <= k < n ensures Polite(Run(s, events[..n][..k], r), events[..n][k], r) {
        assert events[..n][..k] == events[..k];
      }
      PoliteRunStaysOpen(s, events[..n], r);
      RunKeeps(s, events[..n], r);
      PoliteStaysOpen(Run(s, events[..n], r), events[n], r);
    }
  }

  /** Bytes do get through, for framed and raw clients, however everything is cut and in whatever order it is read: a
      polite run is not closed; and in any run that is not, once nothing is on the way, both streams are open and each
      end has got all that the other has sent. */
  lemma HandshakeCompletes(kind: Kind, connect: Bytes, accept: Bytes, ok: Bytes, events: seq<Event>, r: Readers)
    requires Lines(connect, accept, ok, r)
    ensures var s0 := Start(kind, connect, accept, ok);
      var s := Run(s0, events, r);
      && (PoliteRun(s0, events, r) ==> !s.closed)
      && (!s.closed && Quiet(s) ==> s.spliced && s.toHost.open && s.toClient.open)
      && (!s.closed && Quiet(s) ==> s.toHost.got == s.toHost.sent && s.toClient.got == s.toClient.sent)
  {
    hide Conserved, Step, PoliteRun, Knows;
    var s0 := Start(kind, connect, accept, ok);
    StartKeeps(kind, connect, accept, ok, r);
    RunKeeps(s0, events, r);
    var s := Run(s0, events, r);
    if PoliteRun(s0, events, r) {
      PoliteRunStaysOpen(s0, events, r);
    }
    if !s.closed && Quiet(s) {
      QuietIsSpliced(s, r);
      QuietIsOpen(s.toHost);
      QuietIsOpen(s.toClient);
    }
  }

  lemma LineIsRead(l: Bytes)
    requires IsLine(l)
    ensures IndexOfNewline(l) == Some(|l| - 1) && l[|l| - 1 + 1..] == []
  {
    FirstIs(l, |l| - 1);
  }

  lemma FreshLine(hello: Bytes, greeting: Bytes)
    requires IsLine(hello)
    ensures ReadLine(Fresh(hello, greeting), |hello|) == Fresh(hello, greeting).(up := [], passed := true)
  {
    LineIsRead(hello);
    assert [] + hello[..|hello|] == hello;
  }

  lemma GreetingOpens(d: Direction, accepts: Bytes -> bool)
    requires !d.open && d.buf == [] && IsLine(d.down) && accepts(d.down[..|d.down| - 1])
    ensures Receive(d, |d.down|, accepts) == d.(down := [], open := true, got := [])
  {
    LineIsRead(d.down);
    assert d.buf + d.down[..|d.down|] == d.down;
  }

  /** One such run, of a framed client: each socket reads what has been sent to it. */
  lemma HandshakeOpens(connect: Bytes, accept: Bytes, ok: Bytes, r: Readers)
    requires Lines(connect, accept, ok, r)
    ensures var s := Step(Step(Step(Step(Start(Framed, connect, accept, ok), RelayReadsClient(|connect|), r),
        RelayReadsHost(|accept|), r), HostReads(|ok|), r), ClientReads(|ok|), r);
      s.spliced && !s.closed && s.toHost.open && s.toClient.open && s.toHost.down == [] && s.toClient.down == []
  {
    hide ReadLine, Receive, IsLine, Scan;
    var s0 := Start(Framed, connect, accept, ok);
    LinesAreSome(connect, accept, ok, r);
    FreshLine(connect, ok);
    FreshLine(accept, ok);
    var s1 := Step(s0, RelayReadsClient(|connect|), r);
    assert s1 == s0.(toHost := Fresh(connect, ok).(up := [], passed := true));
    var s2 := Step(s1, RelayReadsHost(|accept|), r);
    assert [] + ok + [] == ok;
    assert s2.spliced && s2.toHost.down == ok && s2.toClient.down == ok;
    GreetingOpens(s2.toHost, r.accepts);
    GreetingOpens(s2.toClient, r.accepts);
  }

  lemma LinesAreSome(connect: Bytes, accept: Bytes, ok: Bytes, r: Readers)
    requires Lines(connect, accept, ok, r)
    ensures connect != [] && accept != [] && ok != []
  {
  }
}
