/** What the relay's state must be after any events, said of the events alone, and that it is. */
module RelayHistory {
  import ClientHello
  import opened Options
  import opened Relay

  /* ---------- What the events say ---------- */

  /** The token of a peer: the one from the file, or that of the first well-formed registration. */
  function BoundTo(tokens: map<string, string>, events: seq<Event>, p: string): string
    decreases |events|
  {
    if events == [] then TokenOf(tokens, p)
    else BoundBy(events[|events| - 1], p, BoundTo(tokens, events[..|events| - 1], p))
  }

  /** The token of a peer behind an event, given the one before it. */
  function BoundBy(e: Event, p: string, bound: string): string {
    if bound == "" && e.Register? && e.peerId == p && WellFormed(p, e.token) then e.token else bound
  }

  /** Behind `before`, event `e` makes `h` the host of the peer: it is well-formed, and no other token is bound. */
  predicate Registers(tokens: map<string, string>, before: seq<Event>, e: Event, p: string, h: Host) {
    && e.Register? && e.peerId == p && IsHex(p, 8, 64) && IsHex(e.token, 32, 128) && IsHex(e.fph, 64, 64)
    && BoundTo(tokens, before, p) in {"", e.token}
    && h == Host(e.name[..if |e.name| < 64 then |e.name| else 64], e.fph, e.sock)
  }

  ghost predicate Unseated(tokens: map<string, string>, before: seq<Event>, e: Event, p: string, sock: Sock) {
    (exists h :: Registers(tokens, before, e, p, h)) || e == Close(sock) || e == Stop
  }

  /** `h` registered for the peer, and since then no other has, its socket has not closed, and the relay not stopped. */
  ghost predicate IsHost(tokens: map<string, string>, events: seq<Event>, p: string, h: Host) {
    exists r: nat :: HostSince(tokens, events, r, p, h)
  }

  ghost predicate HostSince(tokens: map<string, string>, events: seq<Event>, r: nat, p: string, h: Host) {
    && r < |events| && Registers(tokens, events[..r], events[r], p, h)
    && forall k :: r < k < |events| ==> !Unseated(tokens, events[..k], events[k], p, h.sock)
  }

  /** Event `e` parks a client: it asks for a host that is there, by the hash of its certificate or by its name alone.
      */
  ghost predicate Parks(tokens: map<string, string>, before: seq<Event>, e: Event, pd: Pending) {
    match e
    case Connect(sock, _, p, fph, rest) =>
      pd == Pending(sock, p, rest, false) && exists h :: IsHost(tokens, before, p, h) && h.fph == fph
    case RawHello(sock, _, sni, hello) =>
      sni.Some? && pd == Pending(sock, sni.value, hello, true) && exists h :: IsHost(tokens, before, sni.value, h)
    case _ => false
  }

  function TimeOf(e: Event): nat {
    match e
    case Connect(_, now, _, _, _) => now
    case RawHello(_, now, _, _) => now
    case _ => 0
  }

  /** The client that an event can park. */
  function PendingOf(e: Event): Pending {
    match e
    case Connect(sock, _, p, _, rest) => Pending(sock, p, rest, false)
    case RawHello(sock, _, sni, hello) => Pending(sock, if sni.Some? then sni.value else "", hello, true)
    case _ => Pending(0, "", [], false)
  }

  /** How many clients were parked. */
  ghost function Parked(tokens: map<string, string>, events: seq<Event>): nat
    decreases |events|
  {
    if events == [] then 0
    else
      var n := |events| - 1;
      Parked(tokens, events[..n]) + (if Parks(tokens, events[..n], events[n], PendingOf(events[n])) then 1 else 0)
  }

  /** The client of the `n`-th parking is given the id of that number. */
  ghost predicate Opens(tokens: map<string, string>, before: seq<Event>, e: Event, c: Conn, pd: Pending) {
    Parks(tokens, before, e, pd) && c == Conn(TimeOf(e), Parked(tokens, before) + 1)
  }

  /** The client was parked under this id, and since then its wait has not ended. */
  ghost predicate Waits(tokens: map<string, string>, events: seq<Event>, c: Conn, pd: Pending)
    decreases |events|, 2
  {
    exists o: nat :: WaitsFrom(tokens, events, o, c, pd)
  }

  ghost predicate WaitsFrom(tokens: map<string, string>, events: seq<Event>, o: nat, c: Conn, pd: Pending)
    decreases |events|, 1
  {
    && o < |events| && Opens(tokens, events[..o], events[o], c, pd)
    && forall k :: o < k < |events| ==> !WaitEnds(tokens, events[..k], events[k], c, pd.client)
  }

  /** The client closes, the timer of the connection fires, the relay stops, or a host accepts. */
  ghost predicate WaitEnds(tokens: map<string, string>, before: seq<Event>, e: Event, c: Conn, client: Sock)
    decreases |before|, 4
  {
    e == Timeout(c) || e == Close(client) || e == Stop || Accepts(tokens, before, e, c)
  }

  /** Event `e` names a client that waits for this peer, and shows the token bound to it. */
  ghost predicate Accepts(tokens: map<string, string>, before: seq<Event>, e: Event, c: Conn)
    decreases |before|, 3
  {
    && e.Accept? && e.conn == c && BoundTo(tokens, before, e.peerId) == e.token
    && exists pd :: Waits(tokens, before, c, pd) && pd.peerId == e.peerId
  }

  ghost predicate AcceptsSome(tokens: map<string, string>, before: seq<Event>, e: Event) {
    e.Accept? && Accepts(tokens, before, e, e.conn)
  }

  ghost function Accepted(tokens: map<string, string>, events: seq<Event>): nat
    decreases |events|
  {
    if events == [] then 0
    else
      var n := |events| - 1;
      Accepted(tokens, events[..n]) + (if AcceptsSome(tokens, events[..n], events[n]) then 1 else 0)
  }

  /* ---------- One more event ---------- */

  lemma HostAppend(tokens: map<string, string>, events: seq<Event>, e: Event, p: string, h: Host)
    ensures IsHost(tokens, events + [e], p, h) <==>
      Registers(tokens, events, e, p, h) || (IsHost(tokens, events, p, h) && !Unseated(tokens, events, e, p, h.sock))
  {
    hide Registers, Unseated;
    var more, n := events + [e], |events|;
    assert more[..n] == events && more[n] == e;
    assert forall k :: 0 <= k < n ==> more[..k] == events[..k] && more[k] == events[k];
    if IsHost(tokens, more, p, h) {
      var r: nat :| HostSince(tokens, more, r, p, h);
      if r < n {
        assert !Unseated(tokens, more[..n], more[n], p, h.sock);
        forall k | r < k < n ensures !Unseated(tokens, events[..k], events[k], p, h.sock) {
          assert !Unseated(tokens, more[..k], more[k], p, h.sock);
        }
        assert HostSince(tokens, events, r, p, h);
      }
    }
    if IsHost(tokens, events, p, h) && !Unseated(tokens, events, e, p, h.sock) {
      var r: nat :| HostSince(tokens, events, r, p, h);
      assert HostSince(tokens, more, r, p, h);
    }
    if Registers(tokens, events, e, p, h) {
      assert HostSince(tokens, more, n, p, h);
    }
  }

  lemma ParkingOf(tokens: map<string, string>, events: seq<Event>, c: Conn, pd: Pending) returns (o: nat)
    requires Waits(tokens, events, c, pd)
    ensures WaitsFrom(tokens, events, o, c, pd)
  {
    o :| WaitsFrom(tokens, events, o, c, pd);
  }

  lemma WaitAppend(tokens: map<string, string>, events: seq<Event>, e: Event, c: Conn, pd: Pending)
    ensures Waits(tokens, events + [e], c, pd) <==>
      Opens(tokens, events, e, c, pd) || (Waits(tokens, events, c, pd) && !WaitEnds(tokens, events, e, c, pd.client))
  {
    hide Opens, WaitEnds;
    var more, n := events + [e], |events|;
    assert more[..n] == events && more[n] == e;
    assert forall k :: 0 <= k < n ==> more[..k] == events[..k] && more[k] == events[k];
    if Waits(tokens, more, c, pd) {
      var o := ParkingOf(tokens, more, c, pd);
      if o < n {
        assert !WaitEnds(tokens, more[..n], more[n], c, pd.client);
        forall k | o < k < n ensures !WaitEnds(tokens, events[..k], events[k], c, pd.client) {
          assert !WaitEnds(tokens, more[..k], more[k], c, pd.client);
        }
        assert WaitsFrom(tokens, events, o, c, pd);
      }
    }
    if Waits(tokens, events, c, pd) && !WaitEnds(tokens, events, e, c, pd.client) {
      var o := ParkingOf(tokens, events, c, pd);
      assert WaitsFrom(tokens, more, o, c, pd);
    }
    if Opens(tokens, events, e, c, pd) {
      assert WaitsFrom(tokens, more, n, c, pd);
    }
  }

  /* ---------- The state says the same ---------- */

  /** Tokens, hosts, waiting clients and counters are what the events say. */
  ghost predicate Agrees(tokens: map<string, string>, events: seq<Event>, s: State) {
    && (forall p :: TokenOf(s.tokens, p) == BoundTo(tokens, events, p))
    && HostsAgree(tokens, events, s) && WaitsAgree(tokens, events, s)
    && s.serial == Parked(tokens, events) && s.splices == Accepted(tokens, events)
  }

  ghost predicate HostsAgree(tokens: map<string, string>, events: seq<Event>, s: State) {
    forall p, h :: IsHost(tokens, events, p, h) <==> p in s.hosts && s.hosts[p] == h
  }

  ghost predicate WaitsAgree(tokens: map<string, string>, events: seq<Event>, s: State) {
    forall c, pd :: Waits(tokens, events, c, pd) <==> c in s.pending && s.pending[c] == pd
  }

  lemma RunSnoc(tokens: map<string, string>, events: seq<Event>, e: Event)
    ensures Run(Start(tokens), events + [e]) == Step(Run(Start(tokens), events), e)
  {
    hide Step;
    assert (events + [e])[..|events|] == events;
  }

  lemma ParkedSnoc(tokens: map<string, string>, events: seq<Event>, e: Event)
    ensures Parked(tokens, events + [e]) ==
      Parked(tokens, events) + (if Parks(tokens, events, e, PendingOf(e)) then 1 else 0)
  {
    hide Parks, PendingOf;
    assert (events + [e])[..|events|] == events;
  }

  lemma AcceptedSnoc(tokens: map<string, string>, events: seq<Event>, e: Event)
    ensures Accepted(tokens, events + [e]) ==
      Accepted(tokens, events) + (if AcceptsSome(tokens, events, e) then 1 else 0)
  {
    hide AcceptsSome;
    assert (events + [e])[..|events|] == events;
  }

  lemma TokensFollow(tokens: map<string, string>, events: seq<Event>, s: State, e: Event, p: string)
    requires TokenOf(s.tokens, p) == BoundTo(tokens, events, p)
    ensures TokenOf(Step(s, e).tokens, p) == BoundTo(tokens, events + [e], p)
  {
    BoundSnoc(tokens, events, e, p);
    StepBinds(s, e, p);
  }

  lemma BoundSnoc(tokens: map<string, string>, events: seq<Event>, e: Event, p: string)
    ensures BoundTo(tokens, events + [e], p) == BoundBy(e, p, BoundTo(tokens, events, p))
  {
    hide WellFormed;
    assert (events + [e])[..|events|] == events;
  }

  lemma StepBinds(s: State, e: Event, p: string)
    ensures TokenOf(Step(s, e).tokens, p) == BoundBy(e, p, TokenOf(s.tokens, p))
  {
    hide WellFormed, Bind;
    if e.Register? {
      FirstBinds(s, e, p);
      hide TokenOf, BoundBy;
      assert Step(s, e).tokens == Bind(s, e.peerId, e.token).tokens;
    } else {
      assert Step(s, e).tokens == s.tokens;
    }
  }

  lemma FirstBinds(s: State, e: Event, p: string)
    requires e.Register?
    ensures TokenOf(Bind(s, e.peerId, e.token).tokens, p) == BoundBy(e, p, TokenOf(s.tokens, p))
  {
    hide IsHex;
  }

  /* ---------- One step ---------- */

  lemma RegisterSeats(s: State, e: Event, p: string, h: Host)
    requires e.Register?
    ensures var t := Step(s, e);
      (p in t.hosts && t.hosts[p] == h) <==>
        Seats(s, e, p, h) || (p in s.hosts && s.hosts[p] == h && !exists k :: Seats(s, e, p, k))
  {
    hide IsHex;
    var k := Host(e.name[..if |e.name| < 64 then |e.name| else 64], e.fph, e.sock);
    if IsHex(e.token, 32, 128) {
      HexIsSome(e.token, 128);
    }
    if e.peerId == p && IsHex(p, 8, 64) && IsHex(e.token, 32, 128) && IsHex(e.fph, 64, 64)
      && TokenOf(s.tokens, p) in {"", e.token} {
      assert Seats(s, e, p, k);
    }
  }

  lemma StepSeats(s: State, e: Event, p: string, h: Host)
    ensures var t := Step(s, e);
      (p in t.hosts && t.hosts[p] == h) <==>
        Seats(s, e, p, h) ||
        (p in s.hosts && s.hosts[p] == h && (!exists k :: Seats(s, e, p, k)) && e != Close(h.sock) && e != Stop)
  {
    if e.Register? {
      RegisterSeats(s, e, p, h);
    }
  }

  /** What a step does to the hosts, as the events have it. */
  lemma HostsFollow(tokens: map<string, string>, events: seq<Event>, s: State, e: Event)
    requires Agrees(tokens, events, s)
    ensures HostsAgree(tokens, events + [e], Step(s, e))
  {
    hide IsHost, BoundTo, IsHex, WaitsAgree, Parked, Accepted, Step, TokenOf;
    var t := Step(s, e);
    forall p, h ensures IsHost(tokens, events + [e], p, h) <==> p in t.hosts && t.hosts[p] == h {
      HostAppend(tokens, events, e, p, h);
      StepSeats(s, e, p, h);
      assert forall k :: Registers(tokens, events, e, p, k) <==> Seats(s, e, p, k);
    }
  }

  lemma ParksAgree(tokens: map<string, string>, events: seq<Event>, s: State, e: Event, pd: Pending)
    requires HostsAgree(tokens, events, s)
    ensures Parks(tokens, events, e, pd) <==> ParksIn(s, e, pd)
  {
    hide IsHost;
    match e
    case Connect(_, _, p, _, _) =>
      if p in s.hosts {
        assert IsHost(tokens, events, p, s.hosts[p]);
      }
    case RawHello(_, _, sni, _) =>
      if sni.Some? && sni.value in s.hosts {
        assert IsHost(tokens, events, sni.value, s.hosts[sni.value]);
      }
    case _ =>
  }

  lemma AcceptsAgree(tokens: map<string, string>, events: seq<Event>, s: State, e: Event, c: Conn)
    requires WaitsAgree(tokens, events, s) && forall p :: TokenOf(s.tokens, p) == BoundTo(tokens, events, p)
    ensures Accepts(tokens, events, e, c) <==> AcceptsIn(s, e, c)
  {
    if AcceptsIn(s, e, c) {
      assert Waits(tokens, events, c, s.pending[c]);
    }
  }

  lemma OpenWaits(s: State, e: Event, c: Conn, pd: Pending)
    requires (e.Connect? || e.RawHello?) && Conn(TimeOf(e), s.serial + 1) !in s.pending
    ensures var t := Step(s, e);
      (c in t.pending && t.pending[c] == pd) <==>
        (ParksIn(s, e, pd) && c == Conn(TimeOf(e), s.serial + 1)) || (c in s.pending && s.pending[c] == pd)
  {
  }

  lemma OtherWaits(s: State, e: Event, c: Conn, pd: Pending)
    requires !e.Connect? && !e.RawHello? && forall p :: p in s.tokens || TokenOf(s.tokens, p) == ""
    requires c in s.pending ==> TokenOf(s.tokens, s.pending[c].peerId) != ""
    ensures var t := Step(s, e);
      (c in t.pending && t.pending[c] == pd) <==>
        (c in s.pending && s.pending[c] == pd && e != Timeout(c) && e != Close(pd.client) && e != Stop &&
          !AcceptsIn(s, e, c))
  {
    hide IsHex;
  }

  lemma StepWaits(s: State, e: Event, c: Conn, pd: Pending)
    requires Invariant(s)
    ensures var t := Step(s, e);
      (c in t.pending && t.pending[c] == pd) <==>
        (ParksIn(s, e, pd) && c == Conn(TimeOf(e), s.serial + 1)) ||
        (c in s.pending && s.pending[c] == pd && e != Timeout(c) && e != Close(pd.client) && e != Stop &&
          !AcceptsIn(s, e, c))
  {
    hide Invariant, Step;
    FreshSerial(s, Conn(TimeOf(e), s.serial + 1));
    if c in s.pending {
      PendingHasToken(s, c);
    }
    if e.Connect? || e.RawHello? {
      OpenWaits(s, e, c, pd);
    } else {
      OtherWaits(s, e, c, pd);
    }
  }

  lemma StepCounts(s: State, e: Event)
    requires e.Accept? && e.conn in s.pending ==> TokenOf(s.tokens, s.pending[e.conn].peerId) != ""
    ensures Step(s, e).serial == s.serial + if ParksIn(s, e, PendingOf(e)) then 1 else 0
    ensures Step(s, e).splices == s.splices + if e.Accept? && AcceptsIn(s, e, e.conn) then 1 else 0
  {
    hide IsHex;
  }

  /* ---------- Every run ---------- */

  lemma WaitsFollow(tokens: map<string, string>, events: seq<Event>, s: State, e: Event)
    requires Agrees(tokens, events, s) && Invariant(s)
    ensures WaitsAgree(tokens, events + [e], Step(s, e))
  {
    hide Waits, BoundTo, HostsAgree, Parked, Accepted, Step, TokenOf, Invariant, Parks, ParksIn, Accepts, AcceptsIn;
    var t := Step(s, e);
    forall c, pd ensures Waits(tokens, events + [e], c, pd) <==> c in t.pending && t.pending[c] == pd {
      WaitAppend(tokens, events, e, c, pd);
      ParksAgree(tokens, events, s, e, pd);
      AcceptsAgree(tokens, events, s, e, c);
      StepWaits(s, e, c, pd);
      WaitEndsIs(tokens, events, e, c, pd.client);
    }
  }

  lemma WaitEndsIs(tokens: map<string, string>, before: seq<Event>, e: Event, c: Conn, client: Sock)
    ensures WaitEnds(tokens, before, e, c, client) <==>
      e == Timeout(c) || e == Close(client) || e == Stop || Accepts(tokens, before, e, c)
  {
  }

  lemma CountsFollow(tokens: map<string, string>, events: seq<Event>, s: State, e: Event)
    requires Agrees(tokens, events, s) && Invariant(s)
    ensures Step(s, e).serial == Parked(tokens, events + [e]) && Step(s, e).splices == Accepted(tokens, events + [e])
  {
    hide Step, TokenOf, Invariant, Parks, ParksIn, Accepts, AcceptsIn, BoundTo;
    ParkedSnoc(tokens, events, e);
    AcceptedSnoc(tokens, events, e);
    ParksAgree(tokens, events, s, e, PendingOf(e));
    if e.Accept? {
      AcceptsAgree(tokens, events, s, e, e.conn);
      if e.conn in s.pending {
        PendingHasToken(s, e.conn);
      }
    }
    StepCounts(s, e);
  }

  lemma StartAgrees(tokens: map<string, string>)
    ensures Agrees(tokens, [], Start(tokens))
  {
  }

  /** In every run the state is what the events say. */
  lemma {:induction false} RunAgrees(tokens: map<string, string>, events: seq<Event>)
    ensures Agrees(tokens, events, Run(Start(tokens), events))
    decreases |events|
  {
    if events == [] {
      StartAgrees(tokens);
    } else {
      var n := |events| - 1;
      var before, e := events[..n], events[n];
      RunAgrees(tokens, before);
      RunKeeps(tokens, before);
      var s := Run(Start(tokens), before);
      assert events == before + [e];
      hide Invariant, HostsAgree, WaitsAgree, Step;
      RunSnoc(tokens, before, e);
      HostsFollow(tokens, before, s, e);
      WaitsFollow(tokens, before, s, e);
      CountsFollow(tokens, before, s, e);
      forall p ensures TokenOf(Step(s, e).tokens, p) == BoundTo(tokens, events, p) {
        TokensFollow(tokens, before, s, e, p);
      }
    }
  }

  /** Behind any events, a host that accepts is joined to its client exactly when the client was parked for this peer
      under this id, its wait has not ended since, and the token is the one bound to the peer. */
  lemma AcceptedExactly(tokens: map<string, string>, events: seq<Event>, e: Event)
    requires e.Accept?
    ensures AcceptsIn(Run(Start(tokens), events), e, e.conn) <==> Accepts(tokens, events, e, e.conn)
  {
    hide Accepts, AcceptsIn;
    RunAgrees(tokens, events);
    AcceptsAgree(tokens, events, Run(Start(tokens), events), e, e.conn);
  }

  /** The names that a ClientHello can ask for are those that a host can register. */
  lemma PeerIdsAgree(p: string)
    ensures ClientHello.IsPeerId(p) <==> IsHex(p, 8, 64)
  {
  }
}
