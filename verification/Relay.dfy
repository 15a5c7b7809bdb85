/** `RelayServer` of src/relay/main.ts as a step machine: hosts register, clients wait, hosts
    accept, and timers and closes come in any order. */
module Relay {
  import opened Options

  type Sock = nat

  /** A connection id: the clock at the time and a serial number. */
  datatype Conn = Conn(time: nat, serial: nat)

  datatype Host = Host(name: string, fph: string, sock: Sock)

  datatype Pending = Pending(client: Sock, peerId: string, rest: seq<bv8>, raw: bool)

  /** What happened, in order. */
  datatype Entry =
    | Bound(peerId: string, token: string)
    | Registered(peerId: string, sock: Sock)
    | Refused(sock: Sock)
    | Opened(conn: Conn, client: Sock, peerId: string)
    | Spliced(conn: Conn, client: Sock, host: Sock, peerId: string, token: string)
    | TimedOut(conn: Conn)
    | Closed(sock: Sock)
    | Stopped

  datatype Event =
    | Register(sock: Sock, peerId: string, token: string, fph: string, name: string)
    | Connect(sock: Sock, now: nat, peerId: string, fph: string, rest: seq<bv8>)
    | RawHello(sock: Sock, now: nat, sniPeer: Option<string>, hello: seq<bv8>)
    | Accept(sock: Sock, conn: Conn, peerId: string, token: string, rest: seq<bv8>)
    | Timeout(conn: Conn)
    | Close(sock: Sock)
    | Stop

  datatype State = State(
    hosts: map<string, Host>,
    pending: map<Conn, Pending>,
    tokens: map<string, string>,
    serial: nat,
    splices: nat,
    trace: seq<Entry>)

  /* ---------- The steps ---------- */

  predicate IsHex(s: string, lo: nat, hi: nat) {
    lo <= |s| <= hi && forall i :: 0 <= i < |s| ==> '0' <= s[i] <= '9' || 'a' <= s[i] <= 'f'
  }

  /** Small hexadecimal digits, and as many as allowed. */
  lemma HexExactly(s: string, lo: nat, hi: nat)
    ensures IsHex(s, lo, hi) <==> (lo <= |s| <= hi && forall i :: 0 <= i < |s| ==> s[i] in "0123456789abcdef")
  {
    forall c: char ensures '0' <= c <= '9' || 'a' <= c <= 'f' <==> c in "0123456789abcdef" {
      HexDigit(c, c as int);
    }
  }

  lemma HexDigit(c: char, x: int)
    requires x == c as int
    ensures '0' <= c <= '9' || 'a' <= c <= 'f' <==> c in "0123456789abcdef"
  {
    if '0' <= c <= '9' {
      assert "0123456789abcdef"[x - 48] == c;
    } else if 'a' <= c <= 'f' {
      assert "0123456789abcdef"[x - 87] == c;
    }
  }

  /** The bound token of a peer; an empty string counts as none. */
  function TokenOf(tokens: map<string, string>, peerId: string): string {
    if peerId in tokens then tokens[peerId] else ""
  }

  function Log(s: State, e: Entry): State {
    s.(trace := s.trace + [e])
  }

  predicate WellFormed(peerId: string, token: string) {
    IsHex(peerId, 8, 64) && IsHex(token, 32, 128)
  }

  /** The first registration binds the token. */
  function Bind(s: State, peerId: string, token: string): State {
    if WellFormed(peerId, token) && TokenOf(s.tokens, peerId) == ""
    then Log(s.(tokens := s.tokens[peerId := token]), Bound(peerId, token))
    else s
  }

  function RegisterStep(s: State, sock: Sock, peerId: string, token: string, fph: string, name: string): State {
    var b := Bind(s, peerId, token);
    if WellFormed(peerId, token) && b.tokens[peerId] == token && IsHex(fph, 64, 64)
    then Log(b.(hosts := b.hosts[peerId := Host(if |name| <= 64 then name else name[..64], fph, sock)]),
      Registered(peerId, sock))
    else Log(b, Refused(sock))
  }

  function OpenStep(s: State, now: nat, p: Pending): State {
    var conn := Conn(now, s.serial + 1);
    Log(s.(serial := s.serial + 1, pending := s.pending[conn := p]), Opened(conn, p.client, p.peerId))
  }

  function ConnectStep(s: State, sock: Sock, now: nat, peerId: string, fph: string, rest: seq<bv8>): State {
    if peerId !in s.hosts || s.hosts[peerId].fph != fph then Log(s, Refused(sock))
    else OpenStep(s, now, Pending(sock, peerId, rest, false))
  }

  /** A ClientHello that names no registered host is handed to the relay's own TLS server. */
  function RawHelloStep(s: State, sock: Sock, now: nat, sniPeer: Option<string>, hello: seq<bv8>): State {
    if sniPeer.Some? && sniPeer.value in s.hosts then OpenStep(s, now, Pending(sock, sniPeer.value, hello, true)) else s
  }

  function AcceptStep(s: State, sock: Sock, conn: Conn, peerId: string, token: string): State {
    if conn !in s.pending || s.pending[conn].peerId != peerId || peerId !in s.tokens || s.tokens[peerId] != token
    then Log(s, Refused(sock))
    else
      var p := s.pending[conn];
      Log(s.(pending := s.pending - {conn}, splices := s.splices + 1), Spliced(conn, p.client, sock, peerId, token))
  }

  /** A timer fires only while its connection is pending: accepting and closing clear it. */
  function TimeoutStep(s: State, conn: Conn): State {
    if conn in s.pending then Log(s.(pending := s.pending - {conn}), TimedOut(conn)) else s
  }

  function CloseStep(s: State, sock: Sock): State {
    Log(s.(hosts := map p | p in s.hosts && s.hosts[p].sock != sock :: s.hosts[p],
           pending := map c | c in s.pending && s.pending[c].client != sock :: s.pending[c]), Closed(sock))
  }

  function Step(s: State, e: Event): State {
    match e
    case Register(sock, peerId, token, fph, name) => RegisterStep(s, sock, peerId, token, fph, name)
    case Connect(sock, now, peerId, fph, rest) => ConnectStep(s, sock, now, peerId, fph, rest)
    case RawHello(sock, now, sniPeer, hello) => RawHelloStep(s, sock, now, sniPeer, hello)
    case Accept(sock, conn, peerId, token, rest) => AcceptStep(s, sock, conn, peerId, token)
    case Timeout(conn) => TimeoutStep(s, conn)
    case Close(sock) => CloseStep(s, sock)
    case Stop => Log(s.(hosts := map[], pending := map[]), Stopped)
  }

  /** The server as started with the tokens read from its file. */
  function Start(tokens: map<string, string>): State {
    State(map[], map[], tokens, 0, 0, [])
  }

  function Run(s: State, events: seq<Event>): State
    decreases |events|
  {
    if events == [] then s else Step(Run(s, events[..|events| - 1]), events[|events| - 1])
  }

  /* ---------- What the trace says ---------- */

  /** Entry `e` ends the wait of `client` under `conn`. */
  predicate Ends(e: Entry, conn: Conn, client: Sock) {
    e == TimedOut(conn) || e == Closed(client) || (e.Spliced? && e.conn == conn) || e.Stopped?
  }

  /** From entry `at` to `upto` the wait was not ended. */
  ghost predicate WaitsSince(trace: seq<Entry>, at: nat, upto: nat, conn: Conn, client: Sock)
    requires upto <= |trace|
  {
    forall k :: at < k < upto ==> !Ends(trace[k], conn, client)
  }

  ghost predicate OpenedAt(trace: seq<Entry>, at: nat, conn: Conn, client: Sock, peerId: string) {
    at < |trace| && trace[at] == Opened(conn, client, peerId)
  }

  /** Entry `e` takes `sock` away as the host of `peerId`. */
  predicate Unseats(e: Entry, peerId: string, sock: Sock) {
    (e.Registered? && e.peerId == peerId) || e == Closed(sock) || e.Stopped?
  }

  ghost predicate Reigns(trace: seq<Entry>, at: nat, peerId: string, sock: Sock) {
    && at < |trace| && trace[at] == Registered(peerId, sock)
    && forall k :: at < k < |trace| ==> !Unseats(trace[k], peerId, sock)
  }

  /** The client waits under the connection at the end of the trace. */
  ghost predicate Waiting(trace: seq<Entry>, conn: Conn, client: Sock, peerId: string) {
    exists o: nat :: OpenedAt(trace, o, conn, client, peerId) && WaitsSince(trace, o, |trace|, conn, client)
  }

  /** The socket is the host of the peer at the end of the trace. */
  ghost predicate Hosting(trace: seq<Entry>, peerId: string, sock: Sock) {
    exists r: nat :: Reigns(trace, r, peerId, sock)
  }

  function CountSplices(trace: seq<Entry>): nat
    decreases |trace|
  {
    if trace == [] then 0 else CountSplices(trace[..|trace| - 1]) + (if trace[|trace| - 1].Spliced? then 1 else 0)
  }

  /* ---------- The invariant ---------- */

  ghost predicate TokensHeld(s: State) {
    && (forall p :: p in s.hosts ==> TokenOf(s.tokens, p) != "")
    && (forall c :: c in s.pending ==> TokenOf(s.tokens, s.pending[c].peerId) != "")
    && (forall i :: 0 <= i < |s.trace| && s.trace[i].Bound? ==>
          TokenOf(s.tokens, s.trace[i].peerId) == s.trace[i].token && s.trace[i].token != "")
  }

  /** Serial numbers are never used twice. */
  ghost predicate SerialsFresh(s: State) {
    && (forall i :: 0 <= i < |s.trace| && s.trace[i].Opened? ==> s.trace[i].conn.serial <= s.serial)
    && (forall i, j :: 0 <= i < j < |s.trace| && s.trace[i].Opened? && s.trace[j].Opened? ==>
         s.trace[i].conn != s.trace[j].conn)
  }

  predicate PendingAs(s: State, c: Conn, client: Sock, p: string) {
    c in s.pending && s.pending[c].client == client && s.pending[c].peerId == p
  }

  /** The pending connections are exactly those opened and not ended since. */
  ghost predicate PendingExact(s: State) {
    forall c, client, p :: Waiting(s.trace, c, client, p) <==> PendingAs(s, c, client, p)
  }

  /** The hosts are exactly the last registrations whose socket has not closed since. */
  ghost predicate HostsExact(s: State) {
    forall p, sock :: Hosting(s.trace, p, sock) <==> p in s.hosts && s.hosts[p].sock == sock
  }

  /** Splice `i` joined a client that was waiting to a socket that presented the bound token. */
  ghost predicate SpliceJustified(trace: seq<Entry>, tokens: map<string, string>, i: nat) {
    i < |trace| && trace[i].Spliced? &&
    var e := trace[i];
    TokenOf(tokens, e.peerId) == e.token && e.token != "" && Waiting(trace[..i], e.conn, e.client, e.peerId)
  }

  ghost predicate SplicesJustified(s: State) {
    && (forall i :: 0 <= i < |s.trace| && s.trace[i].Spliced? ==> SpliceJustified(s.trace, s.tokens, i))
    && s.splices == CountSplices(s.trace)
  }

  ghost predicate Invariant(s: State) {
    TokensHeld(s) && SerialsFresh(s) && PendingExact(s) && HostsExact(s) && SplicesJustified(s)
  }

  /* ---------- One more entry ---------- */

  lemma WaitingAppend(trace: seq<Entry>, e: Entry)
    ensures forall c, client, p :: Waiting(trace + [e], c, client, p) <==>
      (Waiting(trace, c, client, p) && !Ends(e, c, client)) || e == Opened(c, client, p)
  {
    forall c, client, p ensures Waiting(trace + [e], c, client, p) <==>
      (Waiting(trace, c, client, p) && !Ends(e, c, client)) || e == Opened(c, client, p) {
      WaitingAppendOne(trace, e, c, client, p);
    }
  }

  lemma WaitingAppendOne(trace: seq<Entry>, e: Entry, c: Conn, client: Sock, p: string)
    ensures Waiting(trace + [e], c, client, p) <==>
      (Waiting(trace, c, client, p) && !Ends(e, c, client)) || e == Opened(c, client, p)
  {
    var more := trace + [e];
    var n := |trace|;
    if Waiting(more, c, client, p) {
      var o: nat :| OpenedAt(more, o, c, client, p) && WaitsSince(more, o, n + 1, c, client);
      if o < n {
        assert OpenedAt(trace, o, c, client, p);
        assert !Ends(more[n], c, client);
        forall k | o < k < n ensures !Ends(trace[k], c, client) {
          assert more[k] == trace[k];
        }
      }
    }
    if Waiting(trace, c, client, p) && !Ends(e, c, client) {
      var o: nat :| OpenedAt(trace, o, c, client, p) && WaitsSince(trace, o, n, c, client);
      assert OpenedAt(more, o, c, client, p);
      forall k | o < k < n + 1 ensures !Ends(more[k], c, client) {
        assert k < n ==> more[k] == trace[k];
      }
    }
    if e == Opened(c, client, p) {
      assert OpenedAt(more, n, c, client, p);
    }
  }

  lemma HostingAppend(trace: seq<Entry>, e: Entry)
    ensures forall p, sock :: Hosting(trace + [e], p, sock) <==>
      (Hosting(trace, p, sock) && !Unseats(e, p, sock)) || e == Registered(p, sock)
  {
    forall p, sock ensures Hosting(trace + [e], p, sock) <==>
      (Hosting(trace, p, sock) && !Unseats(e, p, sock)) || e == Registered(p, sock) {
      HostingAppendOne(trace, e, p, sock);
    }
  }

  lemma HostingAppendOne(trace: seq<Entry>, e: Entry, p: string, sock: Sock)
    ensures Hosting(trace + [e], p, sock) <==>
      (Hosting(trace, p, sock) && !Unseats(e, p, sock)) || e == Registered(p, sock)
  {
    var more := trace + [e];
    var n := |trace|;
    if Hosting(more, p, sock) {
      var r: nat :| Reigns(more, r, p, sock);
      if r < n {
        assert !Unseats(more[n], p, sock);
        forall k | r < k < n ensures !Unseats(trace[k], p, sock) {
          assert more[k] == trace[k];
        }
        assert Reigns(trace, r, p, sock);
      }
    }
    if Hosting(trace, p, sock) && !Unseats(e, p, sock) {
      var r: nat :| Reigns(trace, r, p, sock);
      forall k | r < k < n + 1 ensures !Unseats(more[k], p, sock) {
        assert k < n ==> more[k] == trace[k];
      }
      assert Reigns(more, r, p, sock);
    }
    if e == Registered(p, sock) {
      assert Reigns(more, n, p, sock);
    }
  }

  /** Justified splices stay justified while bound tokens stay. */
  lemma SplicesAppend(trace: seq<Entry>, tokens: map<string, string>, after: map<string, string>, e: Entry)
    requires forall i :: 0 <= i < |trace| && trace[i].Spliced? ==> SpliceJustified(trace, tokens, i)
    requires forall p :: TokenOf(tokens, p) != "" ==> TokenOf(after, p) == TokenOf(tokens, p)
    requires e.Spliced? ==>
      TokenOf(after, e.peerId) == e.token && e.token != "" && Waiting(trace, e.conn, e.client, e.peerId)
    ensures forall i :: 0 <= i <= |trace| && (trace + [e])[i].Spliced? ==> SpliceJustified(trace + [e], after, i)
    ensures CountSplices(trace + [e]) == CountSplices(trace) + (if e.Spliced? then 1 else 0)
  {
    hide Waiting, TokenOf;
    var more := trace + [e];
    assert more[..|trace|] == trace;
    forall i | 0 <= i <= |trace| && more[i].Spliced? ensures SpliceJustified(more, after, i) {
      if i < |trace| {
        assert SpliceJustified(trace, tokens, i);
        assert more[..i] == trace[..i];
      }
    }
  }

  /** What a step owes for one more entry. */
  lemma KeepsInvariant(s: State, t: State, e: Entry)
    requires Invariant(s) && t.trace == s.trace + [e]
    requires forall p :: TokenOf(s.tokens, p) != "" ==> TokenOf(t.tokens, p) == TokenOf(s.tokens, p)
    requires forall p :: p in t.hosts ==> p in s.hosts || TokenOf(t.tokens, p) != ""
    requires forall c :: c in t.pending ==>
      (c in s.pending && t.pending[c].peerId == s.pending[c].peerId) || TokenOf(t.tokens, t.pending[c].peerId) != ""
    requires e.Bound? ==> TokenOf(t.tokens, e.peerId) == e.token && e.token != ""
    requires if e.Opened? then e.conn.serial == s.serial + 1 == t.serial else t.serial == s.serial
    requires forall c, client, p :: PendingAs(t, c, client, p) <==>
      (PendingAs(s, c, client, p) && !Ends(e, c, client)) || e == Opened(c, client, p)
    requires forall p, sock :: (p in t.hosts && t.hosts[p].sock == sock) <==>
      (p in s.hosts && s.hosts[p].sock == sock && !Unseats(e, p, sock)) || e == Registered(p, sock)
    requires e.Spliced? ==> TokenOf(t.tokens, e.peerId) == e.token && e.token != ""
    requires e.Spliced? ==>
      e.conn in s.pending && s.pending[e.conn].client == e.client && s.pending[e.conn].peerId == e.peerId
    requires t.splices == s.splices + (if e.Spliced? then 1 else 0)
    ensures Invariant(t)
  {
    hide Waiting, Hosting, Ends, Unseats, TokenOf, SpliceJustified, CountSplices;
    WaitingAppend(s.trace, e);
    HostingAppend(s.trace, e);
    SplicesAppend(s.trace, s.tokens, t.tokens, e);
    SerialsAppend(s, t, e);
    TokensAppend(s, t, e);
  }

  lemma SerialsAppend(s: State, t: State, e: Entry)
    requires SerialsFresh(s) && t.trace == s.trace + [e]
    requires if e.Opened? then e.conn.serial == s.serial + 1 == t.serial else t.serial == s.serial
    ensures SerialsFresh(t)
  {
    forall i | 0 <= i < |t.trace| && t.trace[i].Opened? ensures t.trace[i].conn.serial <= t.serial {
      assert i < |s.trace| ==> t.trace[i] == s.trace[i];
    }
    forall i, j | 0 <= i < j < |t.trace| && t.trace[i].Opened? && t.trace[j].Opened?
      ensures t.trace[i].conn != t.trace[j].conn {
      assert t.trace[i] == s.trace[i];
      assert j < |s.trace| ==> t.trace[j] == s.trace[j];
    }
  }

  lemma TokensAppend(s: State, t: State, e: Entry)
    requires TokensHeld(s) && t.trace == s.trace + [e]
    requires forall p :: TokenOf(s.tokens, p) != "" ==> TokenOf(t.tokens, p) == TokenOf(s.tokens, p)
    requires forall p :: p in t.hosts ==> p in s.hosts || TokenOf(t.tokens, p) != ""
    requires forall c :: c in t.pending ==>
      (c in s.pending && t.pending[c].peerId == s.pending[c].peerId) || TokenOf(t.tokens, t.pending[c].peerId) != ""
    requires e.Bound? ==> TokenOf(t.tokens, e.peerId) == e.token && e.token != ""
    ensures TokensHeld(t)
  {
    hide TokenOf;
    forall i | 0 <= i < |t.trace| && t.trace[i].Bound?
      ensures TokenOf(t.tokens, t.trace[i].peerId) == t.trace[i].token && t.trace[i].token != "" {
      assert i < |s.trace| ==> t.trace[i] == s.trace[i];
    }
  }

  /* ---------- Every step keeps the invariant ---------- */

  lemma BindKeeps(s: State, peerId: string, token: string)
    requires Invariant(s)
    ensures Invariant(Bind(s, peerId, token))
    ensures WellFormed(peerId, token) ==> TokenOf(Bind(s, peerId, token).tokens, peerId) != ""
  {
    hide TokensHeld, SerialsFresh, PendingExact, HostsExact, SplicesJustified;
    if WellFormed(peerId, token) && TokenOf(s.tokens, peerId) == "" {
      HeldAfterBind(s, peerId);
      KeepsInvariant(s, Bind(s, peerId, token), Bound(peerId, token));
    }
  }

  lemma HeldAfterBind(s: State, peerId: string)
    requires Invariant(s)
    ensures forall p :: p in s.hosts ==> TokenOf(s.tokens, p) != ""
  {
  }

  lemma RegisterKeeps(s: State, sock: Sock, peerId: string, token: string, fph: string, name: string)
    requires Invariant(s)
    ensures Invariant(RegisterStep(s, sock, peerId, token, fph, name))
  {
    hide Invariant, IsHex;
    BindKeeps(s, peerId, token);
    var b := Bind(s, peerId, token);
    var t := RegisterStep(s, sock, peerId, token, fph, name);
    KeepsInvariant(b, t, t.trace[|b.trace|]);
  }

  lemma OpenKeeps(s: State, now: nat, p: Pending)
    requires Invariant(s) && p.peerId in s.hosts
    ensures Invariant(OpenStep(s, now, p))
  {
    hide Invariant;
    FreshSerial(s, Conn(now, s.serial + 1));
    HostHasToken(s, p.peerId);
    KeepsInvariant(s, OpenStep(s, now, p), Opened(Conn(now, s.serial + 1), p.client, p.peerId));
  }

  lemma HostHasToken(s: State, p: string)
    requires Invariant(s) && p in s.hosts
    ensures TokenOf(s.tokens, p) != ""
  {
  }

  lemma PendingHasToken(s: State, c: Conn)
    requires Invariant(s) && c in s.pending
    ensures TokenOf(s.tokens, s.pending[c].peerId) != ""
  {
  }

  lemma PendingSerial(s: State, c: Conn)
    requires Invariant(s) && c in s.pending
    ensures c.serial <= s.serial
  {
    assert Waiting(s.trace, c, s.pending[c].client, s.pending[c].peerId);
    var o: nat :| OpenedAt(s.trace, o, c, s.pending[c].client, s.pending[c].peerId) &&
      WaitsSince(s.trace, o, |s.trace|, c, s.pending[c].client);
  }

  /** A connection with the next serial number is not pending. */
  lemma FreshSerial(s: State, c: Conn)
    requires Invariant(s) && c.serial > s.serial
    ensures c !in s.pending
  {
    if c in s.pending {
      PendingSerial(s, c);
    }
  }

  lemma AcceptKeeps(s: State, sock: Sock, conn: Conn, peerId: string, token: string)
    requires Invariant(s)
    ensures Invariant(AcceptStep(s, sock, conn, peerId, token))
  {
    hide Invariant;
    var t := AcceptStep(s, sock, conn, peerId, token);
    var e := t.trace[|s.trace|];
    if conn in s.pending {
      PendingHasToken(s, conn);
    }
    forall c, client, p
      ensures PendingAs(t, c, client, p) <==>
        (PendingAs(s, c, client, p) && !Ends(e, c, client)) || e == Opened(c, client, p)
    {
      assert e.Spliced? ==> (c in t.pending <==> c in s.pending && c != conn);
    }
    KeepsInvariant(s, t, e);
  }

  lemma TimeoutKeeps(s: State, conn: Conn)
    requires Invariant(s)
    ensures Invariant(TimeoutStep(s, conn))
  {
    hide Invariant;
    if conn in s.pending {
      var t := TimeoutStep(s, conn);
      var e := TimedOut(conn);
      forall c, client, p ensures PendingAs(t, c, client, p) <==>
        (PendingAs(s, c, client, p) && !Ends(e, c, client)) || e == Opened(c, client, p) {
        assert c in t.pending <==> c in s.pending && c != conn;
      }
      KeepsInvariant(s, t, e);
    }
  }

  lemma CloseKeeps(s: State, sock: Sock)
    requires Invariant(s)
    ensures Invariant(CloseStep(s, sock))
  {
    hide Invariant;
    var t := CloseStep(s, sock);
    var e := Closed(sock);
    forall c, client, p
      ensures PendingAs(t, c, client, p) <==>
        (PendingAs(s, c, client, p) && !Ends(e, c, client)) || e == Opened(c, client, p)
    {
      assert c in t.pending <==> c in s.pending && s.pending[c].client != sock;
    }
    KeepsInvariant(s, t, e);
  }

  lemma StopKeeps(s: State)
    requires Invariant(s)
    ensures Invariant(Step(s, Stop))
  {
    hide Invariant;
    var t := Step(s, Stop);
    var e := Stopped;
    forall c, client, p
      ensures PendingAs(t, c, client, p) <==>
        (PendingAs(s, c, client, p) && !Ends(e, c, client)) || e == Opened(c, client, p)
    {
      assert !PendingAs(t, c, client, p) && Ends(e, c, client);
    }
    KeepsInvariant(s, t, e);
  }

  lemma StepKeeps(s: State, e: Event)
    requires Invariant(s)
    ensures Invariant(Step(s, e))
  {
    hide Invariant, IsHex;
    var t := Step(s, e);
    match e
    case Register(sock, peerId, token, fph, name) =>
      RegisterKeeps(s, sock, peerId, token, fph, name);
    case Connect(sock, now, peerId, fph, rest) =>
      if peerId !in s.hosts || s.hosts[peerId].fph != fph {
        KeepsInvariant(s, t, Refused(sock));
      } else {
        OpenKeeps(s, now, Pending(sock, peerId, rest, false));
      }
    case RawHello(sock, now, sniPeer, hello) =>
      if sniPeer.Some? && sniPeer.value in s.hosts {
        OpenKeeps(s, now, Pending(sock, sniPeer.value, hello, true));
      }
    case Accept(sock, conn, peerId, token, rest) =>
      AcceptKeeps(s, sock, conn, peerId, token);
    case Timeout(conn) =>
      TimeoutKeeps(s, conn);
    case Close(sock) =>
      CloseKeeps(s, sock);
    case Stop =>
      StopKeeps(s);
  }

  lemma StartHolds(tokens: map<string, string>)
    ensures Invariant(Start(tokens))
  {
  }

  /** The invariant holds after any events in any order. */
  lemma {:induction false} RunKeeps(tokens: map<string, string>, events: seq<Event>)
    ensures Invariant(Run(Start(tokens), events))
    decreases |events|
  {
    hide Invariant;
    if events == [] {
      StartHolds(tokens);
    } else {
      RunKeeps(tokens, events[..|events| - 1]);
      StepKeeps(Run(Start(tokens), events[..|events| - 1]), events[|events| - 1]);
    }
  }

  /* ---------- What holds in every run ---------- */

  /** A connection is spliced at most once. */
  lemma SplicedOnce(s: State, i: nat, j: nat)
    requires Invariant(s) && i < j < |s.trace| && s.trace[i].Spliced? && s.trace[j].Spliced?
    ensures s.trace[i].conn != s.trace[j].conn
  {
    var c := s.trace[i].conn;
    if s.trace[j].conn == c {
      var a, b := s.trace[i], s.trace[j];
      assert SpliceJustified(s.trace, s.tokens, i) && SpliceJustified(s.trace, s.tokens, j);
      var o: nat :| OpenedAt(s.trace[..i], o, c, a.client, a.peerId) && WaitsSince(s.trace[..i], o, i, c, a.client);
      var q: nat :| OpenedAt(s.trace[..j], q, c, b.client, b.peerId) && WaitsSince(s.trace[..j], q, j, c, b.client);
      assert s.trace[o].Opened? && s.trace[q].Opened?;
      assert q < i ==> Ends(s.trace[..j][i], c, b.client);
    }
  }

  /** The client of a splice opened that connection, once, and was neither closed nor timed out
      nor spliced since; the accepting socket presented the token still bound to the peer asked for. */
  lemma SpliceSound(s: State, i: nat) returns (o: nat)
    requires Invariant(s) && i < |s.trace| && s.trace[i].Spliced?
    ensures var e := s.trace[i];
      && o < i && s.trace[o] == Opened(e.conn, e.client, e.peerId)
      && (forall k :: 0 <= k < |s.trace| && k != o && s.trace[k].Opened? ==> s.trace[k].conn != e.conn)
      && (forall k :: o < k < i ==>
           s.trace[k] != TimedOut(e.conn) && s.trace[k] != Closed(e.client) && s.trace[k] != Stopped)
      && e.token != "" && TokenOf(s.tokens, e.peerId) == e.token
  {
    var e := s.trace[i];
    assert SpliceJustified(s.trace, s.tokens, i);
    o :| OpenedAt(s.trace[..i], o, e.conn, e.client, e.peerId) && WaitsSince(s.trace[..i], o, i, e.conn, e.client);
    forall k | o < k < i
      ensures s.trace[k] != TimedOut(e.conn) && s.trace[k] != Closed(e.client) && s.trace[k] != Stopped {
      assert !Ends(s.trace[..i][k], e.conn, e.client);
    }
    forall k | 0 <= k < |s.trace| && k != o && s.trace[k].Opened? ensures s.trace[k].conn != e.conn {
      assert s.trace[o].Opened?;
    }
  }

  lemma StepTokens(s: State, e: Event)
    ensures Step(s, e).tokens == if e.Register? then Bind(s, e.peerId, e.token).tokens else s.tokens
  {
    hide Bind, IsHex;
  }

  /** A bound token never changes. */
  lemma StepKeepsTokens(s: State, e: Event, p: string)
    requires TokenOf(s.tokens, p) != ""
    ensures TokenOf(Step(s, e).tokens, p) == TokenOf(s.tokens, p)
  {
    hide IsHex, Step;
    StepTokens(s, e);
  }

  lemma {:induction false} RunKeepsTokens(s: State, events: seq<Event>, p: string)
    requires TokenOf(s.tokens, p) != ""
    ensures TokenOf(Run(s, events).tokens, p) == TokenOf(s.tokens, p)
    decreases |events|
  {
    hide TokenOf, Step;
    if events != [] {
      RunKeepsTokens(s, events[..|events| - 1], p);
      StepKeepsTokens(Run(s, events[..|events| - 1]), events[|events| - 1], p);
    }
  }

  /** After a new registration, closing the replaced socket leaves the new one in place. */
  lemma LateCloseIsHarmless(s: State, sock: Sock, peerId: string, token: string, fph: string, name: string, late: Sock)
    requires WellFormed(peerId, token) && IsHex(fph, 64, 64) && TokenOf(s.tokens, peerId) in {"", token} && late != sock
    ensures var t := Step(Step(s, Register(sock, peerId, token, fph, name)), Close(late));
      peerId in t.hosts && t.hosts[peerId].sock == sock && t.hosts[peerId].fph == fph
  {
  }

  /** A registration is refused exactly when it is malformed or another token is bound. */
  lemma RegistrationNeedsToken(s: State, sock: Sock, peerId: string, token: string, fph: string, name: string)
    ensures var t := Step(s, Register(sock, peerId, token, fph, name));
      t.trace[|t.trace| - 1] == Registered(peerId, sock) <==>
        IsHex(peerId, 8, 64) && IsHex(token, 32, 128) && IsHex(fph, 64, 64) && TokenOf(s.tokens, peerId) in {"", token}
  {
  }

  /** In every run: splices happen once, for a client still waiting, to a socket with the bound token. */
  lemma RelaySafety(tokens: map<string, string>, events: seq<Event>)
    ensures var s := Run(Start(tokens), events);
      && (forall i, j :: 0 <= i < j < |s.trace| && s.trace[i].Spliced? && s.trace[j].Spliced? ==>
           s.trace[i].conn != s.trace[j].conn)
      && (forall i :: 0 <= i < |s.trace| && s.trace[i].Spliced? ==> SpliceJustified(s.trace, s.tokens, i))
      && (forall p :: p in s.hosts ==> TokenOf(s.tokens, p) != "")
      && (forall c :: c in s.pending ==> TokenOf(s.tokens, s.pending[c].peerId) != "")
      && (forall p :: TokenOf(tokens, p) != "" ==> TokenOf(s.tokens, p) == TokenOf(tokens, p))
      && HostsExact(s) && PendingExact(s) && s.splices == CountSplices(s.trace)
  {
    var s := Run(Start(tokens), events);
    RunKeeps(tokens, events);
    hide TokenOf, SpliceJustified, Waiting, Hosting, CountSplices;
    forall i, j | 0 <= i < j < |s.trace| && s.trace[i].Spliced? && s.trace[j].Spliced?
      ensures s.trace[i].conn != s.trace[j].conn {
      SplicedOnce(s, i, j);
    }
    forall p | TokenOf(tokens, p) != "" ensures TokenOf(s.tokens, p) == TokenOf(tokens, p) {
      RunKeepsTokens(Start(tokens), events, p);
    }
  }

  /* ---------- What an event does in a state ---------- */

  /** The registration is well-formed, and no other token is bound; then this is the host. */
  predicate Seats(s: State, e: Event, p: string, h: Host) {
    && e.Register? && e.peerId == p && IsHex(p, 8, 64) && IsHex(e.token, 32, 128) && IsHex(e.fph, 64, 64)
    && TokenOf(s.tokens, p) in {"", e.token}
    && h == Host(e.name[..if |e.name| < 64 then |e.name| else 64], e.fph, e.sock)
  }

  lemma HexIsSome(s: string, hi: nat)
    requires IsHex(s, 32, hi)
    ensures s != ""
  {
  }

  /** The client that a step parks. */
  predicate ParksIn(s: State, e: Event, pd: Pending) {
    match e
    case Connect(sock, _, p, fph, rest) => pd == Pending(sock, p, rest, false) && p in s.hosts && s.hosts[p].fph == fph
    case RawHello(sock, _, sni, hello) =>
      sni.Some? && pd == Pending(sock, sni.value, hello, true) && sni.value in s.hosts
    case _ => false
  }

  /** The host names a waiting client of its own, with the bound token. */
  predicate AcceptsIn(s: State, e: Event, c: Conn) {
    && e.Accept? && e.conn == c && c in s.pending && s.pending[c].peerId == e.peerId
    && TokenOf(s.tokens, e.peerId) == e.token
  }

  /* ---------- The server ---------- */

  datatype Reply =
    | IsRegistered
    | RegistrationRefused
    | NoSuchHost
    | Incoming(conn: Conn)
    | UnknownConnection
    | Accepted
    | NotInTime

  /** What a handler does to sockets. */
  datatype Output =
    | Write(to: Sock, reply: Reply)
    | WriteBytes(to: Sock, bytes: seq<bv8>)
    | End(sock: Sock, reply: Reply)
    | Destroy(sock: Sock)
    | Pipe(client: Sock, host: Sock)

  function SomeBytes(sock: Sock, bytes: seq<bv8>): seq<Output> {
    if bytes == [] then [] else [WriteBytes(sock, bytes)]
  }

  /** Both sides are told, except a raw client; each gets the other's early bytes; then bytes flow. */
  function Introduce(p: Pending, host: Sock, rest: seq<bv8>): seq<Output> {
    [Write(host, Accepted)] + (if p.raw then [] else [Write(p.client, Accepted)])
      + SomeBytes(host, p.rest) + SomeBytes(p.client, rest) + [Pipe(p.client, host)]
  }

  /** The bytes written to a socket, in order. */
  function BytesTo(out: seq<Output>, sock: Sock): seq<bv8>
    decreases |out|
  {
    if out == [] then []
    else
      var before, o := BytesTo(out[..|out| - 1], sock), out[|out| - 1];
      if o.WriteBytes? && o.to == sock then before + o.bytes else before
  }

  lemma BytesOfBoth(a: seq<Output>, o: Output, sock: Sock)
    ensures BytesTo(a + [o], sock) == BytesTo(a, sock) + if o.WriteBytes? && o.to == sock then o.bytes else []
  {
    assert (a + [o])[..|a|] == a;
  }

  lemma BytesOfSome(a: seq<Output>, to: Sock, bytes: seq<bv8>, sock: Sock)
    ensures BytesTo(a + SomeBytes(to, bytes), sock) == BytesTo(a, sock) + if to == sock then bytes else []
  {
    if bytes == [] {
      assert a + [] == a;
    } else {
      BytesOfBoth(a, WriteBytes(to, bytes), sock);
    }
  }

  /** The host is given what its client has sent, the client what its host has sent; a raw client is told nothing, and
      the pipe comes last. */
  lemma IntroductionIsFair(p: Pending, host: Sock, rest: seq<bv8>)
    requires host != p.client
    ensures var out := Introduce(p, host, rest);
      && BytesTo(out, host) == p.rest && BytesTo(out, p.client) == rest
      && out[0] == Write(host, Accepted) && out[|out| - 1] == Pipe(p.client, host)
      && (Write(p.client, Accepted) in out <==> !p.raw)
  {
    hide BytesTo, SomeBytes;
    var told := [Write(host, Accepted)] + if p.raw then [] else [Write(p.client, Accepted)];
    forall sock ensures BytesTo(told, sock) == [] {
      ToldNothing(host, p, sock);
    }
    var one := told + SomeBytes(host, p.rest);
    BytesOfSome(told, host, p.rest, host);
    BytesOfSome(told, host, p.rest, p.client);
    BytesOfSome(one, p.client, rest, host);
    BytesOfSome(one, p.client, rest, p.client);
    BytesOfBoth(one + SomeBytes(p.client, rest), Pipe(p.client, host), host);
    BytesOfBoth(one + SomeBytes(p.client, rest), Pipe(p.client, host), p.client);
    NoReplies(host, p.rest, Write(p.client, Accepted));
    NoReplies(p.client, rest, Write(p.client, Accepted));
  }

  lemma ToldNothing(host: Sock, p: Pending, sock: Sock)
    ensures BytesTo([Write(host, Accepted)] + (if p.raw then [] else [Write(p.client, Accepted)]), sock) == []
  {
    assert [] + [Write(host, Accepted)] == [Write(host, Accepted)];
    BytesOfBoth([], Write(host, Accepted), sock);
    if !p.raw {
      BytesOfBoth([Write(host, Accepted)], Write(p.client, Accepted), sock);
    } else {
      assert [Write(host, Accepted)] + [] == [Write(host, Accepted)];
    }
  }

  lemma NoReplies(to: Sock, bytes: seq<bv8>, o: Output)
    requires o.Write?
    ensures o !in SomeBytes(to, bytes)
  {
  }

  class RelayServer {
    var hosts: map<string, Host>
    var pending: map<Conn, Pending>
    var tokens: map<string, string>
    var serial: nat
    var splices: nat
    ghost var trace: seq<Entry>

    ghost function Now(): State
      reads this
    {
      State(hosts, pending, tokens, serial, splices, trace)
    }

    ghost predicate Valid()
      reads this
    {
      Invariant(Now())
    }

    constructor (tokens: map<string, string>)
      ensures Now() == Start(tokens) && Valid()
    {
      hosts, pending, this.tokens, serial, splices, trace := map[], map[], tokens, 0, 0, [];
      new;
      StartHolds(tokens);
    }

    method AuthHost(peerId: string, token: string) returns (ok: bool)
      modifies `tokens, `trace
      ensures Now() == Bind(old(Now()), peerId, token)
      ensures ok <==> WellFormed(peerId, token) && tokens[peerId] == token
    {
      if !WellFormed(peerId, token) {
        return false;
      }
      if peerId !in tokens || tokens[peerId] == "" {
        tokens := tokens[peerId := token];
        trace := trace + [Bound(peerId, token)];
        return true;
      }
      ok := tokens[peerId] == token;
    }

    method OnRegister(sock: Sock, peerId: string, token: string, fph: string, name: string) returns (out: seq<Output>)
      requires Valid()
      modifies this
      ensures Valid() && Now() == Step(old(Now()), Register(sock, peerId, token, fph, name))
      ensures pending == old(pending)
      ensures if WellFormed(peerId, token) && TokenOf(old(tokens), peerId) in {"", token} && IsHex(fph, 64, 64)
        then hosts == old(hosts)[peerId := Host(name[..if |name| < 64 then |name| else 64], fph, sock)] &&
          out == (if peerId in old(hosts) then [Destroy(old(hosts)[peerId].sock)] else []) + [Write(sock, IsRegistered)]
        else hosts == old(hosts) && out == [End(sock, RegistrationRefused)]
    {
      hide Invariant, IsHex;
      if IsHex(token, 32, 128) {
        HexIsSome(token, 128);
      }
      RegisterKeeps(Now(), sock, peerId, token, fph, name);
      var ok := AuthHost(peerId, token);
      if !ok || !IsHex(fph, 64, 64) {
        trace := trace + [Refused(sock)];
        return [End(sock, RegistrationRefused)];
      }
      out := if peerId in hosts then [Destroy(hosts[peerId].sock)] else [];
      hosts := hosts[peerId := Host(if |name| <= 64 then name else name[..64], fph, sock)];
      trace := trace + [Registered(peerId, sock)];
      out := out + [Write(sock, IsRegistered)];
      assert name[..|name|] == name;
    }

    /** Park a client until its host accepts. */
    method Open(now: nat, p: Pending) returns (out: seq<Output>)
      requires Valid() && p.peerId in hosts
      modifies `pending, `serial, `trace
      ensures Valid() && Now() == OpenStep(old(Now()), now, p)
      ensures out == [Write(hosts[p.peerId].sock, Incoming(Conn(now, serial)))]
    {
      hide Invariant;
      OpenKeeps(Now(), now, p);
      serial := serial + 1;
      var conn := Conn(now, serial);
      pending := pending[conn := p];
      trace := trace + [Opened(conn, p.client, p.peerId)];
      out := [Write(hosts[p.peerId].sock, Incoming(conn))];
    }

    method OnConnect(sock: Sock, now: nat, peerId: string, fph: string, rest: seq<bv8>) returns (out: seq<Output>)
      requires Valid()
      modifies this
      ensures Valid() && Now() == Step(old(Now()), Connect(sock, now, peerId, fph, rest))
      ensures out == if peerId in hosts && hosts[peerId].fph == fph
        then [Write(hosts[peerId].sock, Incoming(Conn(now, serial)))] else [End(sock, NoSuchHost)]
      ensures hosts == old(hosts) && pending == if peerId in hosts && hosts[peerId].fph == fph
        then old(pending)[Conn(now, serial) := Pending(sock, peerId, rest, false)] else old(pending)
    {
      hide Invariant;
      StepKeeps(Now(), Connect(sock, now, peerId, fph, rest));
      if peerId !in hosts || hosts[peerId].fph != fph {
        trace := trace + [Refused(sock)];
        return [End(sock, NoSuchHost)];
      }
      out := Open(now, Pending(sock, peerId, rest, false));
    }

    /** A ClientHello naming a registered host waits for it; any other is for the relay's own TLS. */
    method OnRawHello(sock: Sock, now: nat, sniPeer: Option<string>, hello: seq<bv8>)
      returns (out: seq<Output>, toTls: bool)
      requires Valid()
      modifies this
      ensures Valid() && Now() == Step(old(Now()), RawHello(sock, now, sniPeer, hello))
      ensures toTls <==> sniPeer.None? || sniPeer.value !in hosts
      ensures out == if toTls then [] else [Write(hosts[sniPeer.value].sock, Incoming(Conn(now, serial)))]
      ensures hosts == old(hosts) && pending ==
        if toTls then old(pending) else old(pending)[Conn(now, serial) := Pending(sock, sniPeer.value, hello, true)]
    {
      hide Invariant;
      toTls := sniPeer.None? || sniPeer.value !in hosts;
      out := [];
      if !toTls {
        out := Open(now, Pending(sock, sniPeer.value, hello, true));
      }
    }

    /** Tell both sides, pass on what came early, and let bytes flow. */
    method Join(p: Pending, sock: Sock, rest: seq<bv8>) returns (out: seq<Output>)
      ensures out == Introduce(p, sock, rest)
    {
      out := [Write(sock, Accepted)];
      if !p.raw {
        out := out + [Write(p.client, Accepted)];
      }
      if |p.rest| > 0 {
        out := out + [WriteBytes(sock, p.rest)];
      }
      if |rest| > 0 {
        out := out + [WriteBytes(p.client, rest)];
      }
      out := out + [Pipe(p.client, sock)];
    }

    /** A host dials back. The host gets what its client sent beyond the handshake, and the other way round. */
    method OnAccept(sock: Sock, conn: Conn, peerId: string, token: string, rest: seq<bv8>) returns (out: seq<Output>)
      requires Valid()
      modifies this
      ensures Valid() && Now() == Step(old(Now()), Accept(sock, conn, peerId, token, rest))
      ensures if AcceptsIn(old(Now()), Accept(sock, conn, peerId, token, rest), conn)
        then pending == old(pending) - {conn} && out == Introduce(old(pending)[conn], sock, rest)
        else pending == old(pending) && out == [End(sock, UnknownConnection)]
      ensures hosts == old(hosts)
    {
      if conn in pending {
        PendingHasToken(Now(), conn);
      }
      hide Invariant, Introduce;
      AcceptKeeps(Now(), sock, conn, peerId, token);
      if conn !in pending || pending[conn].peerId != peerId || peerId !in tokens || tokens[peerId] != token {
        trace := trace + [Refused(sock)];
        return [End(sock, UnknownConnection)];
      }
      var p := pending[conn];
      pending := pending - {conn};
      out := Join(p, sock, rest);
      splices := splices + 1;
      trace := trace + [Spliced(conn, p.client, sock, peerId, token)];
    }

    /** The timer of a connection. It was cleared if the connection is no longer pending. */
    method OnTimeout(conn: Conn) returns (out: seq<Output>)
      requires Valid()
      modifies this
      ensures Valid() && Now() == Step(old(Now()), Timeout(conn))
      ensures out == if conn !in old(pending) then []
        else if old(pending)[conn].raw then [Destroy(old(pending)[conn].client)]
        else [End(old(pending)[conn].client, NotInTime)]
      ensures hosts == old(hosts) && pending == old(pending) - {conn}
    {
      hide Invariant;
      TimeoutKeeps(Now(), conn);
      out := [];
      if conn in pending {
        var p := pending[conn];
        pending := pending - {conn};
        trace := trace + [TimedOut(conn)];
        out := if p.raw then [Destroy(p.client)] else [End(p.client, NotInTime)];
      }
    }

    /** The close handlers of one socket: as a host if it still is one, and of the connections it waits under. */
    method OnClose(sock: Sock)
      requires Valid()
      modifies this
      ensures Valid() && Now() == Step(old(Now()), Close(sock))
      ensures forall p, h :: (p in hosts && hosts[p] == h) <==> p in old(hosts) && old(hosts)[p] == h && h.sock != sock
      ensures forall c, p :: (c in pending && pending[c] == p) <==>
        c in old(pending) && old(pending)[c] == p && p.client != sock
    {
      hide Invariant;
      CloseKeeps(Now(), sock);
      hosts := map p | p in hosts && hosts[p].sock != sock :: hosts[p];
      pending := map c | c in pending && pending[c].client != sock :: pending[c];
      trace := trace + [Closed(sock)];
    }

    method OnStop()
      requires Valid()
      modifies this
      ensures Valid() && Now() == Step(old(Now()), Stop)
      ensures hosts == map[] && pending == map[]
    {
      hide Invariant;
      StopKeeps(Now());
      hosts, pending := map[], map[];
      trace := trace + [Stopped];
    }
  }
}
