/** The diff cache of src/main/forge/forge-host.ts: `diffFor` as the segments that run between
    its awaits, interleaved in any order with other calls and with new commits. */
module DiffCache {
  import opened Options

  const DIFF_CACHE_ENTRIES := 30
  const DIFF_CACHE_BYTES := 64 * 1024 * 1024

  type Pull = string
  type Head = string

  datatype Key = Key(pull: Pull, head: Head)

  /** A diff text: its length, and which head of the pull request it was served for, as an
      index into that pull request's history. */
  datatype Diff = Diff(length: nat, served: nat)

  datatype Slot = Slot(key: Key, diff: Diff)

  /** Where a fetch stands. The head read after the diff is an index into the history too. */
  datatype Stage =
    | AwaitingDiff
    | DiffServed(diff: Diff)
    | AwaitingPull(diff: Diff)
    | PullServed(diff: Diff, after: nat)
    | PullKnown(diff: Diff, after: nat)
    | Settled(result: Option<Diff>)

  /** One run of the body that `diffFor` starts, until its clean-up. */
  datatype Fetch = Fetch(key: Key, stage: Stage)

  /** The cache in the insertion order of its map, the shared fetches by key, and what surrounds them. */
  datatype State = State(
    slots: seq<Slot>,
    bytes: int,
    inflight: map<Key, nat>,
    fetches: map<nat, Fetch>,
    next: nat,
    history: map<Pull, seq<Head>>)

  datatype Event =
    | NewHead(pull: Pull, head: Head)
    | Call(key: Key)
    | ServeDiff(fetch: nat, length: nat)
    | ReceiveDiff(fetch: nat)
    | ServePull(fetch: nat)
    | ReceivePull(fetch: nat)
    | Finish(fetch: nat)
    | Reject(fetch: nat)
    | CleanUp(fetch: nat)

  /* ---------- Segments ---------- */

  function History(s: State, p: Pull): seq<Head> {
    if p in s.history then s.history[p] else []
  }

  function Find(slots: seq<Slot>, k: Key): Option<nat>
    decreases |slots|
  {
    if slots == [] then None
    else if slots[|slots| - 1].key == k then Some(|slots| - 1)
    else Find(slots[..|slots| - 1], k)
  }

  function Without(slots: seq<Slot>, i: nat): seq<Slot>
    requires i < |slots|
  {
    slots[..i] + slots[i + 1..]
  }

  function Sum(slots: seq<Slot>): nat
    decreases |slots|
  {
    if slots == [] then 0 else Sum(slots[..|slots| - 1]) + slots[|slots| - 1].diff.length
  }

  predicate TooBig(slots: seq<Slot>, bytes: int) {
    |slots| > DIFF_CACHE_ENTRIES || (bytes > DIFF_CACHE_BYTES && |slots| > 1)
  }

  /** Drop the oldest entries while there are too many or they are too big. */
  function Evict(slots: seq<Slot>, bytes: int): (r: (seq<Slot>, int))
    decreases |slots|
  {
    if TooBig(slots, bytes) then Evict(slots[1..], bytes - slots[0].diff.length) else (slots, bytes)
  }

  /** From the call to its first await: a hit moves to the end, a fetch in flight is shared,
      else a new one starts. */
  function CallStep(s: State, k: Key): State {
    var hit := Find(s.slots, k);
    if hit.Some? && hit.value < |s.slots| then s.(slots := Without(s.slots, hit.value) + [s.slots[hit.value]])
    else if k in s.inflight then s
    else
      var fetches := s.fetches[s.next := Fetch(k, AwaitingDiff)];
      s.(inflight := s.inflight[k := s.next], fetches := fetches, next := s.next + 1)
  }

  function Advance(s: State, t: nat, stage: Stage): State
    requires t in s.fetches
  {
    s.(fetches := s.fetches[t := Fetch(s.fetches[t].key, stage)])
  }

  function Insert(s: State, t: nat, diff: Diff): State
    requires t in s.fetches
  {
    var k := s.fetches[t].key;
    var r := Evict(s.slots + [Slot(k, diff)], s.bytes + diff.length);
    Advance(s, t, Settled(Some(diff))).(slots := r.0, bytes := r.1)
  }

  /** Check that the head is still the one asked for, and store the diff under it. */
  function FinishStep(s: State, t: nat): State
    requires t in s.fetches && s.fetches[t].stage.PullKnown?
  {
    var k, stage := s.fetches[t].key, s.fetches[t].stage;
    if stage.after < |History(s, k.pull)| && History(s, k.pull)[stage.after] == k.head then Insert(s, t, stage.diff)
    else Advance(s, t, Settled(None))
  }

  /** The last lines of `diffFor`: whatever is in flight under the key is forgotten. */
  function CleanUpStep(s: State, t: nat): State
    requires t in s.fetches
  {
    s.(inflight := s.inflight - {s.fetches[t].key}, fetches := s.fetches - {t})
  }

  /** The segment a fetch may take next: served by the provider, received here, finished, cleaned up. */
  function FetchStep(s: State, t: nat, e: Event): State
    requires t in s.fetches
  {
    var stage := s.fetches[t].stage;
    var heads := |History(s, s.fetches[t].key.pull)|;
    match e
    case ServeDiff(_, length) =>
      if stage.AwaitingDiff? && heads > 0 then Advance(s, t, DiffServed(Diff(length, heads - 1))) else s
    case ReceiveDiff(_) => if stage.DiffServed? then Advance(s, t, AwaitingPull(stage.diff)) else s
    case ServePull(_) =>
      if stage.AwaitingPull? && heads > 0 then Advance(s, t, PullServed(stage.diff, heads - 1)) else s
    case ReceivePull(_) => if stage.PullServed? then Advance(s, t, PullKnown(stage.diff, stage.after)) else s
    case Finish(_) => if stage.PullKnown? then FinishStep(s, t) else s
    case Reject(_) => if stage.Settled? then s else Advance(s, t, Settled(None))
    case CleanUp(_) => if stage.Settled? then CleanUpStep(s, t) else s
    case _ => s
  }

  /** A call passes a head that the provider reported before: one in the history. */
  function Step(s: State, e: Event): State {
    match e
    case NewHead(pull, head) => s.(history := s.history[pull := History(s, pull) + [head]])
    case Call(k) => if k.head in History(s, k.pull) then CallStep(s, k) else s
    case _ => if e.fetch in s.fetches then FetchStep(s, e.fetch, e) else s
  }

  function Run(s: State, events: seq<Event>): State
    decreases |events|
  {
    if events == [] then s else Step(Run(s, events[..|events| - 1]), events[|events| - 1])
  }

  const EMPTY: State := State([], 0, map[], map[], 0, map[])

  /* ---------- The invariant ---------- */

  ghost predicate DistinctKeys(slots: seq<Slot>) {
    forall i, j :: 0 <= i < j < |slots| ==> slots[i].key != slots[j].key
  }

  /** The bytes counted are the bytes stored, within both limits. */
  ghost predicate Accounted(s: State) {
    s.bytes == Sum(s.slots) && !TooBig(s.slots, s.bytes)
  }

  /** The fetches not cleaned up are exactly those in flight, one a key; while one runs its key is not stored. */
  ghost predicate OneFetchPerKey(s: State) {
    && (forall t :: t in s.fetches ==>
         t < s.next && s.fetches[t].key in s.inflight && s.inflight[s.fetches[t].key] == t)
    && (forall k :: k in s.inflight ==> s.inflight[k] in s.fetches && s.fetches[s.inflight[k]].key == k)
    && (forall i, t :: 0 <= i < |s.slots| && t in s.fetches && s.fetches[t].key == s.slots[i].key ==>
         s.fetches[t].stage.Settled?)
  }

  /** The head asked for was current at some time no later than `upto`. */
  ghost predicate SeenBy(h: seq<Head>, head: Head, upto: nat) {
    exists i :: 0 <= i <= upto < |h| && h[i] == head
  }

  /** The head asked for was current no later than when the diff was served, and again later. */
  ghost predicate Bracketed(h: seq<Head>, head: Head, served: nat) {
    SeenBy(h, head, served) && exists j :: served <= j < |h| && h[j] == head
  }

  ghost predicate StageTimed(h: seq<Head>, head: Head, f: Stage) {
    match f
    case AwaitingDiff => |h| > 0 && SeenBy(h, head, |h| - 1)
    case DiffServed(diff) => SeenBy(h, head, diff.served)
    case AwaitingPull(diff) => SeenBy(h, head, diff.served)
    case PullServed(diff, after) => SeenBy(h, head, diff.served) && diff.served <= after < |h|
    case PullKnown(diff, after) => SeenBy(h, head, diff.served) && diff.served <= after < |h|
    case Settled(result) => result.Some? ==> Bracketed(h, head, result.value.served)
  }

  ghost predicate Timed(s: State) {
    && (forall t :: t in s.fetches ==>
         StageTimed(History(s, s.fetches[t].key.pull), s.fetches[t].key.head, s.fetches[t].stage))
    && (forall i :: 0 <= i < |s.slots| ==>
         Bracketed(History(s, s.slots[i].key.pull), s.slots[i].key.head, s.slots[i].diff.served))
  }

  ghost predicate Invariant(s: State) {
    DistinctKeys(s.slots) && Accounted(s) && OneFetchPerKey(s) && Timed(s)
  }

  /* ---------- Slots ---------- */

  lemma {:induction false} FindFinds(slots: seq<Slot>, k: Key)
    ensures Find(slots, k).Some? ==> Find(slots, k).value < |slots| && slots[Find(slots, k).value].key == k
    ensures Find(slots, k).None? ==> forall i :: 0 <= i < |slots| ==> slots[i].key != k
    decreases |slots|
  {
    if slots != [] && slots[|slots| - 1].key != k {
      FindFinds(slots[..|slots| - 1], k);
    }
  }

  lemma {:induction false} SumConcat(a: seq<Slot>, b: seq<Slot>)
    ensures Sum(a + b) == Sum(a) + Sum(b)
    decreases |b|
  {
    if b == [] {
      assert a + b == a;
    } else {
      var n := |b| - 1;
      assert (a + b)[..|a + b| - 1] == a + b[..n];
      SumConcat(a, b[..n]);
    }
  }

  lemma SumOne(x: Slot)
    ensures Sum([x]) == x.diff.length
  {
    assert [x][..0] == [];
  }

  /** Moving a slot to the end keeps the bytes. */
  lemma SumMoved(slots: seq<Slot>, i: nat)
    requires i < |slots|
    ensures Sum(Without(slots, i) + [slots[i]]) == Sum(slots)
  {
    hide Sum;
    assert slots == slots[..i] + ([slots[i]] + slots[i + 1..]);
    SumConcat(slots[..i], [slots[i]] + slots[i + 1..]);
    SumConcat([slots[i]], slots[i + 1..]);
    SumConcat(slots[..i], slots[i + 1..]);
    SumConcat(Without(slots, i), [slots[i]]);
  }

  lemma SumTail(slots: seq<Slot>)
    requires slots != []
    ensures Sum(slots[1..]) == Sum(slots) - slots[0].diff.length
  {
    assert slots == [slots[0]] + slots[1..];
    SumConcat([slots[0]], slots[1..]);
    SumOne(slots[0]);
  }

  /** Eviction drops a prefix, as long as needed and no longer, and never the last entry. */
  lemma {:induction false} EvictDropsOldest(slots: seq<Slot>, bytes: int) returns (n: nat)
    requires slots != [] && bytes == Sum(slots)
    ensures n < |slots|
    ensures Evict(slots, bytes) == (slots[n..], Sum(slots[n..]))
    ensures !TooBig(slots[n..], Sum(slots[n..]))
    ensures forall m :: 0 <= m < n ==> TooBig(slots[m..], Sum(slots[m..]))
    decreases |slots|
  {
    assert slots[0..] == slots;
    if TooBig(slots, bytes) {
      SumTail(slots);
      var m := EvictDropsOldest(slots[1..], bytes - slots[0].diff.length);
      n := m + 1;
      hide TooBig, Sum, Evict;
      assert slots[1..][m..] == slots[n..];
      forall k | 0 <= k < n ensures TooBig(slots[k..], Sum(slots[k..])) {
        assert k > 0 ==> slots[1..][k - 1..] == slots[k..];
      }
    } else {
      n := 0;
    }
  }

  /* ---------- Every step keeps the invariant ---------- */

  lemma HitKeeps(s: State, k: Key, i: nat)
    requires Invariant(s) && i < |s.slots| && s.slots[i].key == k
    ensures Invariant(s.(slots := Without(s.slots, i) + [s.slots[i]]))
  {
    hide Sum, Bracketed, StageTimed;
    SumMoved(s.slots, i);
    MovedSlots(s.slots, i);
  }

  lemma MovedSlots(slots: seq<Slot>, i: nat)
    requires i < |slots|
    ensures var moved := Without(slots, i) + [slots[i]];
      && |moved| == |slots| && (DistinctKeys(slots) ==> DistinctKeys(moved))
      && forall j :: 0 <= j < |moved| ==> moved[j] in slots
  {
    var moved, n := Without(slots, i) + [slots[i]], |slots| - 1;
    assert forall j :: 0 <= j < i ==> moved[j] == slots[j];
    assert forall j :: i <= j < n ==> moved[j] == slots[j + 1];
    assert moved[n] == slots[i];
  }

  lemma StartKeeps(s: State, k: Key)
    requires Invariant(s) && Find(s.slots, k).None? && k !in s.inflight && k.head in History(s, k.pull)
    ensures Invariant(s.(inflight := s.inflight[k := s.next], fetches := s.fetches[s.next := Fetch(k, AwaitingDiff)],
      next := s.next + 1))
  {
    hide Sum, Bracketed, Find;
    FindFinds(s.slots, k);
    var h := History(s, k.pull);
    var i :| 0 <= i < |h| && h[i] == k.head;
    assert SeenBy(h, k.head, |h| - 1);
  }

  lemma CallKeeps(s: State, k: Key)
    requires Invariant(s) && k.head in History(s, k.pull)
    ensures Invariant(CallStep(s, k))
  {
    hide Find, Invariant;
    FindFinds(s.slots, k);
    var hit := Find(s.slots, k);
    if hit.Some? {
      HitKeeps(s, k, hit.value);
    } else if k !in s.inflight {
      StartKeeps(s, k);
    }
  }

  lemma AdvanceKeeps(s: State, t: nat, stage: Stage)
    requires Invariant(s) && t in s.fetches && !s.fetches[t].stage.Settled?
    requires StageTimed(History(s, s.fetches[t].key.pull), s.fetches[t].key.head, stage)
    ensures Invariant(Advance(s, t, stage))
  {
    hide Sum, Bracketed, StageTimed;
  }

  /** Slots that stay are those of a suffix. */
  lemma SuffixKeeps(slots: seq<Slot>, n: nat)
    requires n <= |slots| && DistinctKeys(slots)
    ensures DistinctKeys(slots[n..])
  {
  }

  /** The key of a running fetch is not stored. */
  lemma RunningNotStored(s: State, t: nat)
    requires OneFetchPerKey(s) && t in s.fetches && !s.fetches[t].stage.Settled?
    ensures forall i :: 0 <= i < |s.slots| ==> s.slots[i].key != s.fetches[t].key
  {
  }

  lemma InsertKeeps(s: State, t: nat, diff: Diff)
    requires Invariant(s) && t in s.fetches && !s.fetches[t].stage.Settled?
    requires Bracketed(History(s, s.fetches[t].key.pull), s.fetches[t].key.head, diff.served)
    ensures Invariant(Insert(s, t, diff))
  {
    hide Sum, Bracketed, Evict, TooBig, OneFetchPerKey, Timed;
    var k := s.fetches[t].key;
    var all := s.slots + [Slot(k, diff)];
    SumConcat(s.slots, [Slot(k, diff)]);
    SumOne(Slot(k, diff));
    var n := EvictDropsOldest(all, s.bytes + diff.length);
    var r := Insert(s, t, diff);
    assert r.slots == all[n..] && r.bytes == Sum(all[n..]);
    RunningNotStored(s, t);
    SuffixKeeps(all, n);
    InsertKeepsFetches(s, r, all, n, t, diff);
  }

  /** The slots after storing are old ones, or the new one. */
  lemma StoredSlots(slots: seq<Slot>, added: Slot, n: nat)
    requires n <= |slots| + 1
    ensures forall i :: 0 <= i < |(slots + [added])[n..]| ==>
      (slots + [added])[n..][i] == added || (slots + [added])[n..][i] in slots
  {
    var all := slots + [added];
    forall i | 0 <= i < |all[n..]| ensures all[n..][i] == added || all[n..][i] in slots {
      assert all[n..][i] == all[n + i];
    }
  }

  lemma InsertKeepsFetches(s: State, r: State, all: seq<Slot>, n: nat, t: nat, diff: Diff)
    requires OneFetchPerKey(s) && Timed(s) && t in s.fetches && n <= |all|
    requires all == s.slots + [Slot(s.fetches[t].key, diff)] && r.slots == all[n..]
    requires r.fetches == Advance(s, t, Settled(Some(diff))).fetches && r.inflight == s.inflight &&
      r.next == s.next && r.history == s.history
    requires Bracketed(History(s, s.fetches[t].key.pull), s.fetches[t].key.head, diff.served)
    ensures OneFetchPerKey(r) && Timed(r)
  {
    hide Bracketed, StageTimed, Timed;
    StoredSlots(s.slots, Slot(s.fetches[t].key, diff), n);
    InsertKeepsTimes(s, r, all, n, t, diff);
  }

  lemma InsertKeepsTimes(s: State, r: State, all: seq<Slot>, n: nat, t: nat, diff: Diff)
    requires Timed(s) && t in s.fetches && n <= |all|
    requires all == s.slots + [Slot(s.fetches[t].key, diff)] && r.slots == all[n..]
    requires r.fetches == Advance(s, t, Settled(Some(diff))).fetches && r.history == s.history
    requires Bracketed(History(s, s.fetches[t].key.pull), s.fetches[t].key.head, diff.served)
    ensures Timed(r)
  {
    hide Bracketed;
    StoredSlots(s.slots, Slot(s.fetches[t].key, diff), n);
  }

  lemma FinishKeeps(s: State, t: nat)
    requires Invariant(s) && t in s.fetches && s.fetches[t].stage.PullKnown?
    ensures Invariant(FinishStep(s, t))
  {
    hide Invariant;
    var k, stage := s.fetches[t].key, s.fetches[t].stage;
    var h := History(s, k.pull);
    TimedFetch(s, t);
    if stage.after < |h| && h[stage.after] == k.head {
      assert Bracketed(h, k.head, stage.diff.served);
      InsertKeeps(s, t, stage.diff);
    } else {
      AdvanceKeeps(s, t, Settled(None));
    }
  }

  lemma TimedFetch(s: State, t: nat)
    requires Invariant(s) && t in s.fetches
    ensures StageTimed(History(s, s.fetches[t].key.pull), s.fetches[t].key.head, s.fetches[t].stage)
  {
  }

  lemma CleanUpKeeps(s: State, t: nat)
    requires Invariant(s) && t in s.fetches && s.fetches[t].stage.Settled?
    ensures Invariant(CleanUpStep(s, t))
  {
    hide Sum, Bracketed, StageTimed;
  }

  lemma SeenLater(h: seq<Head>, head: Head, new_: Head, a: nat, b: nat)
    requires SeenBy(h, head, a) && a <= b < |h| + 1
    ensures SeenBy(h + [new_], head, b)
  {
    var i :| 0 <= i <= a < |h| && h[i] == head;
    assert (h + [new_])[i] == head;
  }

  lemma BracketedLater(h: seq<Head>, head: Head, new_: Head, served: nat)
    requires Bracketed(h, head, served)
    ensures Bracketed(h + [new_], head, served)
  {
    SeenLater(h, head, new_, served, served);
    var j :| served <= j < |h| && h[j] == head;
    assert (h + [new_])[j] == head;
  }

  lemma StageLater(h: seq<Head>, head: Head, new_: Head, f: Stage)
    requires StageTimed(h, head, f)
    ensures StageTimed(h + [new_], head, f)
  {
    hide SeenBy, Bracketed;
    match f
    case AwaitingDiff => SeenLater(h, head, new_, |h| - 1, |h|);
    case Settled(result) =>
      if result.Some? {
        BracketedLater(h, head, new_, result.value.served);
      }
    case _ =>
      SeenIsEarly(h, head, f.diff.served);
      SeenLater(h, head, new_, f.diff.served, f.diff.served);
  }

  lemma SeenIsEarly(h: seq<Head>, head: Head, a: nat)
    requires SeenBy(h, head, a)
    ensures a < |h|
  {
  }

  lemma NewHeadKeeps(s: State, p: Pull, head: Head)
    requires Invariant(s)
    ensures Invariant(s.(history := s.history[p := History(s, p) + [head]]))
  {
    hide Sum, Bracketed, StageTimed;
    var r := s.(history := s.history[p := History(s, p) + [head]]);
    forall t | t in r.fetches
      ensures StageTimed(History(r, r.fetches[t].key.pull), r.fetches[t].key.head, r.fetches[t].stage) {
      if r.fetches[t].key.pull == p {
        StageLater(History(s, p), r.fetches[t].key.head, head, r.fetches[t].stage);
      }
    }
    forall i | 0 <= i < |r.slots|
      ensures Bracketed(History(r, r.slots[i].key.pull), r.slots[i].key.head, r.slots[i].diff.served) {
      if r.slots[i].key.pull == p {
        BracketedLater(History(s, p), r.slots[i].key.head, head, r.slots[i].diff.served);
      }
    }
  }

  lemma FetchStepKeeps(s: State, t: nat, e: Event)
    requires Invariant(s) && t in s.fetches
    ensures Invariant(FetchStep(s, t, e))
  {
    hide Invariant, Bracketed;
    var stage, h, head := s.fetches[t].stage, History(s, s.fetches[t].key.pull), s.fetches[t].key.head;
    TimedFetch(s, t);
    match e
    case ServeDiff(_, length) =>
      if stage.AwaitingDiff? {
        AdvanceKeeps(s, t, DiffServed(Diff(length, |h| - 1)));
      }
    case ReceiveDiff(_) =>
      if stage.DiffServed? {
        AdvanceKeeps(s, t, AwaitingPull(stage.diff));
      }
    case ServePull(_) =>
      if stage.AwaitingPull? && |h| > 0 {
        SeenIsEarly(h, head, stage.diff.served);
        AdvanceKeeps(s, t, PullServed(stage.diff, |h| - 1));
      }
    case ReceivePull(_) =>
      if stage.PullServed? {
        AdvanceKeeps(s, t, PullKnown(stage.diff, stage.after));
      }
    case Finish(_) =>
      if stage.PullKnown? {
        FinishKeeps(s, t);
      }
    case Reject(_) =>
      if !stage.Settled? {
        AdvanceKeeps(s, t, Settled(None));
      }
    case CleanUp(_) =>
      if stage.Settled? {
        CleanUpKeeps(s, t);
      }
    case _ =>
  }

  lemma StepKeeps(s: State, e: Event)
    requires Invariant(s)
    ensures Invariant(Step(s, e))
  {
    hide Invariant, FetchStep, CallStep;
    match e
    case NewHead(pull, head) => NewHeadKeeps(s, pull, head);
    case Call(k) =>
      if k.head in History(s, k.pull) {
        CallKeeps(s, k);
      }
    case _ =>
      if e.fetch in s.fetches {
        FetchStepKeeps(s, e.fetch, e);
      }
  }

  lemma EmptyHolds()
    ensures Invariant(EMPTY)
  {
  }

  /** The invariant holds under every interleaving. */
  lemma {:induction false} RunKeeps(events: seq<Event>)
    ensures Invariant(Run(EMPTY, events))
    decreases |events|
  {
    hide Invariant, Step;
    if events == [] {
      EmptyHolds();
    } else {
      RunKeeps(events[..|events| - 1]);
      StepKeeps(Run(EMPTY, events[..|events| - 1]), events[|events| - 1]);
    }
  }

  /* ---------- What holds under every interleaving ---------- */

  /** Once left, this head of the pull request never comes back. */
  ghost predicate NeverBack(h: seq<Head>, head: Head) {
    forall i, k, j :: 0 <= i < k < j < |h| && h[i] == head && h[j] == head ==> h[k] == head
  }

  /** Two fetches for one key never run at once. */
  lemma OneRunning(s: State, t: nat, u: nat)
    requires Invariant(s) && t in s.fetches && u in s.fetches && s.fetches[t].key == s.fetches[u].key
    ensures t == u
  {
    assert s.inflight[s.fetches[t].key] == t;
    assert s.inflight[s.fetches[u].key] == u;
  }

  /** The slot stands at the end now, and the others in the order they had. */
  ghost predicate MovedToEnd(before: seq<Slot>, after: seq<Slot>, slot: Slot) {
    exists i :: 0 <= i < |before| && before[i] == slot && after == before[..i] + before[i + 1..] + [slot]
  }

  /** The slot is new at the end, and as many of the oldest are gone as had to go. */
  ghost predicate StoredAtEnd(before: seq<Slot>, after: seq<Slot>, slot: Slot) {
    exists n :: 0 <= n <= |before| && after == before[n..] + [slot] && (n == 0 || StillTooBig(before[n - 1..] + [slot]))
  }

  ghost predicate StillTooBig(slots: seq<Slot>) {
    TooBig(slots, Sum(slots))
  }

  /** Storing evicts only what is older, and never the entry just stored. */
  lemma EvictionIsLeast(s: State, slot: Slot)
    requires Accounted(s)
    ensures StoredAtEnd(s.slots, Evict(s.slots + [slot], s.bytes + slot.diff.length).0, slot)
  {
    hide Sum, TooBig, Evict;
    var all := s.slots + [slot];
    SumConcat(s.slots, [slot]);
    SumOne(slot);
    var n := EvictDropsOldest(all, s.bytes + slot.diff.length);
    assert all[n..] == s.slots[n..] + [slot];
    if n > 0 {
      assert all[n - 1..] == s.slots[n - 1..] + [slot];
    }
  }

  lemma StoredLast(s: State, t: nat)
    requires Invariant(s) && t in s.fetches && s.fetches[t].stage.PullKnown?
    requires FinishStep(s, t).fetches[t].stage.result.Some?
    ensures StoredAtEnd(s.slots, FinishStep(s, t).slots, Slot(s.fetches[t].key, s.fetches[t].stage.diff))
  {
    hide StoredAtEnd, Evict, DistinctKeys, OneFetchPerKey, Timed;
    EvictionIsLeast(s, Slot(s.fetches[t].key, s.fetches[t].stage.diff));
  }

  lemma StoredWasServed(s: State, i: nat)
    requires Invariant(s) && i < |s.slots| && NeverBack(History(s, s.slots[i].key.pull), s.slots[i].key.head)
    ensures s.slots[i].diff.served < |History(s, s.slots[i].key.pull)|
    ensures History(s, s.slots[i].key.pull)[s.slots[i].diff.served] == s.slots[i].key.head
  {
    var h, head, served := History(s, s.slots[i].key.pull), s.slots[i].key.head, s.slots[i].diff.served;
    assert Bracketed(h, head, served);
    var a :| 0 <= a <= served < |h| && h[a] == head;
    var b :| served <= b < |h| && h[b] == head;
  }

  /** After any interleaving: the bytes add up and are within the limits, no key is stored or fetched twice at once, and
      a head that never came back has its own diff. */
  lemma CacheSafety(events: seq<Event>)
    ensures var s := Run(EMPTY, events);
      && s.bytes == Sum(s.slots) && |s.slots| <= DIFF_CACHE_ENTRIES && (s.bytes <= DIFF_CACHE_BYTES || |s.slots| <= 1)
      && DistinctKeys(s.slots)
      && (forall t, u :: t in s.fetches && u in s.fetches && s.fetches[t].key == s.fetches[u].key ==> t == u)
      && (forall i :: 0 <= i < |s.slots| && NeverBack(History(s, s.slots[i].key.pull), s.slots[i].key.head) ==>
            s.slots[i].diff.served < |History(s, s.slots[i].key.pull)|
            && History(s, s.slots[i].key.pull)[s.slots[i].diff.served] == s.slots[i].key.head)
  {
    var s := Run(EMPTY, events);
    RunKeeps(events);
    hide Run, Sum, Bracketed, StageTimed, DistinctKeys, NeverBack;
    forall t, u | t in s.fetches && u in s.fetches && s.fetches[t].key == s.fetches[u].key ensures t == u {
      OneRunning(s, t, u);
    }
    forall i | 0 <= i < |s.slots| && NeverBack(History(s, s.slots[i].key.pull), s.slots[i].key.head)
      ensures s.slots[i].diff.served < |History(s, s.slots[i].key.pull)|
      ensures History(s, s.slots[i].key.pull)[s.slots[i].diff.served] == s.slots[i].key.head
    {
      StoredWasServed(s, i);
    }
  }

  /* ---------- When a head has its own diff ---------- */

  /** Whatever run led to this history of a pull request, what is stored under the head was served while it was the
      head. */
  ghost predicate AlwaysOwnDiff(p: Pull, h: seq<Head>, head: Head) {
    forall events: seq<Event>, i: nat :: StoresUnder(events, p, h, head, i) ==> ServedAs(events, i, h, head)
  }

  /** Slot `i` after the run holds a diff for this head of a pull request with history `h`. */
  ghost predicate StoresUnder(events: seq<Event>, p: Pull, h: seq<Head>, head: Head, i: nat) {
    var s := Run(EMPTY, events);
    History(s, p) == h && i < |s.slots| && s.slots[i].key == Key(p, head)
  }

  ghost predicate ServedAs(events: seq<Event>, i: nat, h: seq<Head>, head: Head) {
    var s := Run(EMPTY, events);
    i < |s.slots| && s.slots[i].diff.served < |h| && h[s.slots[i].diff.served] == head
  }

  /** The recheck protects a head in every run that leads to a history exactly when the head, once left, never comes
      back in it. */
  lemma OwnDiffExactly(p: Pull, h: seq<Head>, head: Head)
    ensures AlwaysOwnDiff(p, h, head) <==> NeverBack(h, head)
  {
    hide Run;
    if NeverBack(h, head) {
      forall events: seq<Event>, i: nat | StoresUnder(events, p, h, head, i) ensures ServedAs(events, i, h, head) {
        RunKeeps(events);
        StoredWasServed(Run(EMPTY, events), i);
      }
    } else {
      var i, k, j :| 0 <= i < k < j < |h| && h[i] == head && h[j] == head && h[k] != head;
      var events := ReturningHeadIsNotProtected(p, h, i, k, j, 0);
      assert StoresUnder(events, p, h, head, 0);
      assert !ServedAs(events, 0, h, head);
    }
  }

  /** The pull request moves through these heads. */
  function Moves(p: Pull, h: seq<Head>): seq<Event> {
    seq(|h|, i requires 0 <= i < |h| => NewHead(p, h[i]))
  }

  /** In any history in which a head is left and comes back there is a run that stores the diff of a head in between:
      the fetch starts under the head, is served later, and reads the head once it is back. */
  lemma ReturningHeadIsNotProtected(p: Pull, h: seq<Head>, i: nat, k: nat, j: nat, length: nat)
    returns (events: seq<Event>)
    requires i < k < j < |h| && h[i] == h[j] != h[k] && length <= DIFF_CACHE_BYTES
    ensures History(Run(EMPTY, events), p) == h && Run(EMPTY, events).slots == [Slot(Key(p, h[i]), Diff(length, k))]
  {
    hide Run, Step;
    var key, diff := Key(p, h[i]), Diff(length, k);
    var first := Moves(p, h[..i + 1]) + [Call(key)];
    var second := first + Moves(p, h[i + 1..k + 1]) + [ServeDiff(0, length), ReceiveDiff(0)];
    var third := second + Moves(p, h[k + 1..j + 1]) + [ServePull(0), ReceivePull(0), Finish(0)];
    events := third + Moves(p, h[j + 1..]);
    FirstMoves(p, h[..i + 1]);
    RunSnoc(Moves(p, h[..i + 1]), Call(key));
    Called(p, h[..i + 1], h[i]);
    RunMoves(first, p, h[..i + 1], h[i + 1..k + 1]);
    assert h[..i + 1] + h[i + 1..k + 1] == h[..k + 1];
    RunOn(first + Moves(p, h[i + 1..k + 1]), [ServeDiff(0, length), ReceiveDiff(0)]);
    Served(p, h[..k + 1], h[i], length);
    RunMoves(second, p, h[..k + 1], h[k + 1..j + 1]);
    assert h[..k + 1] + h[k + 1..j + 1] == h[..j + 1];
    RunOn(second + Moves(p, h[k + 1..j + 1]), [ServePull(0), ReceivePull(0), Finish(0)]);
    Stored(p, h[..j + 1], h[i], diff);
    RunMoves(third, p, h[..j + 1], h[j + 1..]);
    assert h[..j + 1] + h[j + 1..] == h;
  }

  lemma {:induction false} FirstMoves(p: Pull, h: seq<Head>)
    requires h != []
    ensures Run(EMPTY, Moves(p, h)) == State([], 0, map[], map[], 0, map[p := h])
  {
    hide Run;
    var one := [NewHead(p, h[0])];
    RunEmpty();
    RunSnoc([], NewHead(p, h[0]));
    assert [] + one == one && [] + [h[0]] == [h[0]];
    RunMoves(one, p, [h[0]], h[1..]);
    assert Moves(p, h) == one + Moves(p, h[1..]);
    assert [h[0]] + h[1..] == h;
  }

  lemma {:induction false} RunMoves(events: seq<Event>, p: Pull, g: seq<Head>, h: seq<Head>)
    requires Run(EMPTY, events).history == map[p := g]
    ensures Run(EMPTY, events + Moves(p, h)) == Run(EMPTY, events).(history := map[p := g + h])
    decreases |h|
  {
    hide Run;
    if h == [] {
      assert events + Moves(p, h) == events && g + h == g;
    } else {
      var n := |h| - 1;
      RunMoves(events, p, g, h[..n]);
      assert events + Moves(p, h) == events + Moves(p, h[..n]) + [NewHead(p, h[n])];
      RunSnoc(events + Moves(p, h[..n]), NewHead(p, h[n]));
      assert g + h == g + h[..n] + [h[n]];
    }
  }

  lemma Called(p: Pull, h: seq<Head>, head: Head)
    requires head in h
    ensures Step(State([], 0, map[], map[], 0, map[p := h]), Call(Key(p, head)))
         == State([], 0, map[Key(p, head) := 0], map[0 := Fetch(Key(p, head), AwaitingDiff)], 1, map[p := h])
  {
    assert Find([], Key(p, head)).None?;
  }

  /** The state of a lone fetch. */
  function Lone(p: Pull, h: seq<Head>, head: Head, stage: Stage): State {
    State([], 0, map[Key(p, head) := 0], map[0 := Fetch(Key(p, head), stage)], 1, map[p := h])
  }

  lemma Served(p: Pull, h: seq<Head>, head: Head, length: nat)
    requires h != []
    ensures Step(Step(Lone(p, h, head, AwaitingDiff), ServeDiff(0, length)), ReceiveDiff(0))
         == Lone(p, h, head, AwaitingPull(Diff(length, |h| - 1)))
  {
    var s1 := Step(Lone(p, h, head, AwaitingDiff), ServeDiff(0, length));
    assert s1.fetches == map[0 := Fetch(Key(p, head), DiffServed(Diff(length, |h| - 1)))];
    assert Step(s1, ReceiveDiff(0)).fetches == map[0 := Fetch(Key(p, head), AwaitingPull(Diff(length, |h| - 1)))];
  }

  lemma Stored(p: Pull, h: seq<Head>, head: Head, diff: Diff)
    requires h != [] && h[|h| - 1] == head && diff.length <= DIFF_CACHE_BYTES
    ensures var s := Step(Step(Step(Lone(p, h, head, AwaitingPull(diff)), ServePull(0)), ReceivePull(0)), Finish(0));
      s.slots == [Slot(Key(p, head), diff)] && s.history == map[p := h]
  {
    var n := |h| - 1;
    var s1 := Step(Lone(p, h, head, AwaitingPull(diff)), ServePull(0));
    assert s1.fetches == map[0 := Fetch(Key(p, head), PullServed(diff, n))];
    var s2 := Step(s1, ReceivePull(0));
    assert s2.fetches == map[0 := Fetch(Key(p, head), PullKnown(diff, n))];
    assert [] + [Slot(Key(p, head), diff)] == [Slot(Key(p, head), diff)];
    assert !TooBig([Slot(Key(p, head), diff)], diff.length);
  }

  lemma RunEmpty()
    ensures Run(EMPTY, []) == EMPTY
  {
  }

  lemma RunSnoc(events: seq<Event>, e: Event)
    ensures Run(EMPTY, events + [e]) == Step(Run(EMPTY, events), e)
  {
    assert (events + [e])[..|events|] == events;
  }

  /** Two or three more events. */
  lemma RunOn(events: seq<Event>, more: seq<Event>)
    requires 2 <= |more| <= 3
    ensures var s := Step(Step(Run(EMPTY, events), more[0]), more[1]);
      Run(EMPTY, events + more) == if |more| == 2 then s else Step(s, more[2])
  {
    hide Run, Step;
    RunSnoc(events, more[0]);
    RunSnoc(events + [more[0]], more[1]);
    var two := events + [more[0]] + [more[1]];
    if |more| == 2 {
      assert events + more == two;
    } else {
      RunSnoc(two, more[2]);
      assert events + more == two + [more[2]];
    }
  }

  /* ---------- The class ---------- */

  /** What a call waits for: nothing, or the fetch it shares or starts. */
  datatype Answer = Hit(diff: Diff) | Waits(fetch: nat, fresh_: bool)

  class ForgeHost {
    var diffs: seq<Slot>
    var diffBytes: int
    var inflight: map<Key, nat>
    var next: nat
    ghost var fetches: map<nat, Fetch>
    ghost var history: map<Pull, seq<Head>>

    ghost function Now(): State
      reads this
    {
      State(diffs, diffBytes, inflight, fetches, next, history)
    }

    ghost predicate Valid()
      reads this
    {
      Invariant(Now())
    }

    constructor ()
      ensures Now() == EMPTY && Valid()
    {
      diffs, diffBytes, inflight, next := [], 0, map[], 0;
      fetches, history := map[], map[];
      new;
      EmptyHolds();
    }

    /** `diffFor` up to its first await. */
    method DiffFor(k: Key) returns (a: Answer)
      requires Valid() && k.head in History(Now(), k.pull)
      modifies this
      ensures Valid() && Now() == Step(old(Now()), Call(k))
      ensures a.Hit? ==> MovedToEnd(old(diffs), diffs, Slot(k, a.diff))
      ensures a.Waits? ==> diffs == old(diffs) && forall i :: 0 <= i < |diffs| ==> diffs[i].key != k
      ensures a.Waits? ==> k in inflight && inflight[k] == a.fetch && (a.fresh_ <==> k !in old(inflight))
    {
      hide Invariant, Find;
      CallKeeps(Now(), k);
      FindFinds(diffs, k);
      DistinctNow(Now());
      var hit := Find(diffs, k);
      if hit.Some? {
        a := Hit(diffs[hit.value].diff);
        assert diffs[hit.value] == Slot(k, a.diff);
        diffs := Without(diffs, hit.value) + [diffs[hit.value]];
      } else if k in inflight {
        a := Waits(inflight[k], false);
      } else {
        inflight := inflight[k := next];
        fetches := fetches[next := Fetch(k, AwaitingDiff)];
        a := Waits(next, true);
        next := next + 1;
      }
    }

    lemma DistinctNow(s: State)
      requires Invariant(s)
      ensures DistinctKeys(s.slots)
    {
    }

    lemma AccountedNow(s: State)
      requires Invariant(s)
      ensures Accounted(s)
    {
    }

    /** Put a slot at the end and evict from the front. */
    method Store(slot: Slot)
      modifies `diffs, `diffBytes
      ensures (diffs, diffBytes) == Evict(old(diffs) + [slot], old(diffBytes) + slot.diff.length)
    {
      hide Evict, TooBig;
      diffs := diffs + [slot];
      diffBytes := diffBytes + slot.diff.length;
      EvictUnfolds(diffs, diffBytes);
      while |diffs| > DIFF_CACHE_ENTRIES || (diffBytes > DIFF_CACHE_BYTES && |diffs| > 1)
        invariant Evict(diffs, diffBytes) == Evict(old(diffs) + [slot], old(diffBytes) + slot.diff.length)
        decreases |diffs|
      {
        EvictUnfolds(diffs, diffBytes);
        var oldest := diffs[0];
        diffs := diffs[1..];
        diffBytes := diffBytes - oldest.diff.length;
      }
      EvictUnfolds(diffs, diffBytes);
    }

    /** The end of the fetch body: the diff and the head read after it are here. Splitting the diff throws unless it
        `parses`. */
    method FinishFetch(ghost t: nat, k: Key, diff: Diff, after: Head, parses: bool) returns (stored: bool)
      requires Valid() && t in fetches && fetches[t].key == k && fetches[t].stage.PullKnown? &&
        fetches[t].stage.diff == diff
      requires fetches[t].stage.after < |History(Now(), k.pull)| &&
        History(Now(), k.pull)[fetches[t].stage.after] == after
      modifies this
      ensures Valid() && Now() == Step(old(Now()), if after == k.head && !parses then Reject(t) else Finish(t))
      ensures stored <==> after == k.head && parses
      ensures stored ==> StoredAtEnd(old(diffs), diffs, Slot(k, diff))
      ensures !stored ==> diffs == old(diffs)
    {
      hide Invariant, Evict, TooBig, StoredAtEnd, Step, Accounted;
      var good := after == k.head && parses;
      ghost var e := if after == k.head && !parses then Reject(t) else Finish(t);
      StepKeeps(Now(), e);
      Finished(Now(), t, k, diff, e, good);
      AccountedNow(Now());
      EvictionIsLeast(Now(), Slot(k, diff));
      stored := good;
      if !stored {
        fetches := fetches[t := Fetch(k, Settled(None))];
        return;
      }
      Store(Slot(k, diff));
      fetches := fetches[t := Fetch(k, Settled(Some(diff)))];
    }

    lemma Finished(s: State, t: nat, k: Key, diff: Diff, e: Event, good: bool)
      requires t in s.fetches && s.fetches[t].key == k && s.fetches[t].stage.PullKnown?
      requires s.fetches[t].stage.diff == diff && s.fetches[t].stage.after < |History(s, k.pull)|
      requires good ==> History(s, k.pull)[s.fetches[t].stage.after] == k.head && e == Finish(t)
      requires !good ==> e == Reject(t) || (e == Finish(t) && History(s, k.pull)[s.fetches[t].stage.after] != k.head)
      ensures var r := Evict(s.slots + [Slot(k, diff)], s.bytes + diff.length);
        Step(s, e) == if good
          then s.(slots := r.0, bytes := r.1, fetches := s.fetches[t := Fetch(k, Settled(Some(diff)))])
          else s.(fetches := s.fetches[t := Fetch(k, Settled(None))])
    {
      hide Evict;
    }

    lemma EvictUnfolds(slots: seq<Slot>, bytes: int)
      ensures Evict(slots, bytes) ==
        if |slots| > DIFF_CACHE_ENTRIES || (bytes > DIFF_CACHE_BYTES && |slots| > 1)
          then Evict(slots[1..], bytes - slots[0].diff.length) else (slots, bytes)
    {
    }

    /** The `finally` of `diffFor`. */
    method Forget(ghost t: nat, k: Key)
      requires Valid() && t in fetches && fetches[t].key == k && fetches[t].stage.Settled?
      modifies this
      ensures Valid() && Now() == Step(old(Now()), CleanUp(t))
      ensures k !in inflight && diffs == old(diffs)
    {
      hide Invariant;
      CleanUpKeeps(Now(), t);
      inflight := inflight - {k};
      fetches := fetches - {t};
    }
  }
}
