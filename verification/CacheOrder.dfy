/** The diff cache of src/main/forge/forge-host.ts over whole runs: the order of the map is the order of last use, and a
    key is in flight exactly from the call that starts its fetch to the clean-up. Both are said of the events. */
module CacheOrder {
  import opened DiffCache
  import opened Options

  /* ---------- Uses ---------- */

  ghost predicate IsStored(s: State, k: Key) {
    exists i :: 0 <= i < |s.slots| && s.slots[i].key == k
  }

  /** The head read behind the diff is the one asked for. */
  predicate StillHead(s: State, f: Fetch) {
    && f.stage.PullKnown? && f.stage.after < |History(s, f.key.pull)|
    && History(s, f.key.pull)[f.stage.after] == f.key.head
  }

  /** In state `s` the event asks for a stored diff, or stores one. */
  ghost predicate IsUse(s: State, e: Event, k: Key) {
    match e
    case Call(q) => q == k && k.head in History(s, k.pull) && IsStored(s, k)
    case Finish(t) => t in s.fetches && s.fetches[t].key == k && StillHead(s, s.fetches[t])
    case _ => false
  }

  /** Event `a` is the last use of the key. */
  ghost predicate LastUse(events: seq<Event>, k: Key, a: nat) {
    && a < |events| && IsUse(Run(EMPTY, events[..a]), events[a], k)
    && forall b :: a < b < |events| ==> !IsUse(Run(EMPTY, events[..b]), events[b], k)
  }

  ghost predicate Used(events: seq<Event>, k: Key) {
    exists a: nat :: LastUse(events, k, a)
  }

  ghost predicate UsedBefore(events: seq<Event>, k: Key, q: Key) {
    forall a: nat, b: nat :: LastUse(events, k, a) && LastUse(events, q, b) ==> a < b
  }

  /** Every stored key has a last use, and the slots are in the order of these. */
  ghost predicate ByUse(events: seq<Event>, slots: seq<Slot>) {
    && (forall i :: 0 <= i < |slots| ==> Used(events, slots[i].key))
    && (forall i, j :: 0 <= i < j < |slots| ==> UsedBefore(events, slots[i].key, slots[j].key))
  }

  lemma UseAppend(events: seq<Event>, e: Event, k: Key, a: nat)
    ensures LastUse(events + [e], k, a) <==>
      if IsUse(Run(EMPTY, events), e, k) then a == |events| else LastUse(events, k, a)
  {
    hide IsUse, Run;
    var more, n := events + [e], |events|;
    assert more[..n] == events && more[n] == e;
    assert forall b :: 0 <= b < n ==> more[..b] == events[..b] && more[b] == events[b];
    if LastUse(more, k, a) && a < n {
      assert !IsUse(Run(EMPTY, more[..n]), more[n], k);
      forall b | a < b < n ensures !IsUse(Run(EMPTY, events[..b]), events[b], k) {
        assert !IsUse(Run(EMPTY, more[..b]), more[b], k);
      }
    }
  }

  /** A selection of the slots, in their order, of keys that are not used now. */
  ghost predicate Selects(before: seq<Slot>, after: seq<Slot>) {
    && (forall i :: 0 <= i < |after| ==> after[i] in before)
    && (forall i, j :: 0 <= i < j < |after| ==> InOrder(before, after[i], after[j]))
  }

  ghost predicate InOrder(slots: seq<Slot>, x: Slot, y: Slot) {
    exists i, j :: 0 <= i < j < |slots| && slots[i] == x && slots[j] == y
  }

  lemma StaysUsed(events: seq<Event>, e: Event, k: Key)
    requires !IsUse(Run(EMPTY, events), e, k) && Used(events, k)
    ensures Used(events + [e], k)
  {
    hide IsUse, Run, LastUse;
    var a: nat :| LastUse(events, k, a);
    UseAppend(events, e, k, a);
  }

  lemma StaysBefore(events: seq<Event>, e: Event, k: Key, q: Key)
    requires !IsUse(Run(EMPTY, events), e, k)
    requires IsUse(Run(EMPTY, events), e, q) || UsedBefore(events, k, q)
    ensures UsedBefore(events + [e], k, q)
  {
    hide IsUse, Run, LastUse;
    forall a: nat, b: nat | LastUse(events + [e], k, a) && LastUse(events + [e], q, b) ensures a < b {
      UseAppend(events, e, k, a);
      UseAppend(events, e, q, b);
      UseIsEarlier(events, k, a);
    }
  }

  lemma UseIsEarlier(events: seq<Event>, k: Key, a: nat)
    ensures LastUse(events, k, a) ==> a < |events|
  {
  }

  lemma SelectionByUse(events: seq<Event>, e: Event, before: seq<Slot>, after: seq<Slot>)
    requires ByUse(events, before) && Selects(before, after)
    requires forall i :: 0 <= i < |after| ==> !IsUse(Run(EMPTY, events), e, after[i].key)
    ensures ByUse(events + [e], after)
  {
    hide IsUse, Run, Used, UsedBefore;
    forall i | 0 <= i < |after| ensures Used(events + [e], after[i].key) {
      var k :| 0 <= k < |before| && before[k] == after[i];
      StaysUsed(events, e, after[i].key);
    }
    forall i, j | 0 <= i < j < |after| ensures UsedBefore(events + [e], after[i].key, after[j].key) {
      assert InOrder(before, after[i], after[j]);
      var k, l :| 0 <= k < l < |before| && before[k] == after[i] && before[l] == after[j];
      StaysBefore(events, e, after[i].key, after[j].key);
    }
  }

  lemma AddUsed(events: seq<Event>, e: Event, before: seq<Slot>, slots: seq<Slot>, x: Slot)
    requires ByUse(events, before) && Selects(before, slots) && IsUse(Run(EMPTY, events), e, x.key)
    requires forall i :: 0 <= i < |slots| ==> !IsUse(Run(EMPTY, events), e, slots[i].key)
    ensures ByUse(events + [e], slots + [x])
  {
    hide IsUse, Run, Used, UsedBefore, Selects;
    SelectionByUse(events, e, before, slots);
    var all := slots + [x];
    UsedNow(events, e, x.key);
    forall i, j | 0 <= i < j < |all| ensures UsedBefore(events + [e], all[i].key, all[j].key) {
      assert all[i] == slots[i];
      if j < |slots| {
        assert all[j] == slots[j];
      } else {
        StaysBefore(events, e, slots[i].key, x.key);
      }
    }
  }

  lemma UsedNow(events: seq<Event>, e: Event, k: Key)
    requires IsUse(Run(EMPTY, events), e, k)
    ensures Used(events + [e], k)
  {
    UseAppend(events, e, k, |events|);
  }

  /* ---------- One step ---------- */

  lemma KeepSelects(slots: seq<Slot>)
    ensures Selects(slots, slots)
  {
  }

  lemma WithoutSelects(slots: seq<Slot>, i: nat)
    requires i < |slots|
    ensures Selects(slots, slots[..i] + slots[i + 1..])
  {
    var rest := slots[..i] + slots[i + 1..];
    assert forall j :: 0 <= j < |rest| ==> rest[j] == slots[if j < i then j else j + 1];
    forall j, k | 0 <= j < k < |rest| ensures InOrder(slots, rest[j], rest[k]) {
      var a, b := if j < i then j else j + 1, if k < i then k else k + 1;
      assert slots[a] == rest[j] && slots[b] == rest[k];
    }
  }

  lemma SuffixSelects(slots: seq<Slot>, n: nat)
    requires n <= |slots|
    ensures Selects(slots, slots[n..])
  {
    forall j, k | 0 <= j < k < |slots[n..]| ensures InOrder(slots, slots[n..][j], slots[n..][k]) {
      assert slots[n + j] == slots[n..][j] && slots[n + k] == slots[n..][k];
    }
  }

  /** What a step does to the slots: nothing, or what it uses comes to the end. */
  lemma StepSlots(s: State, e: Event) returns (older: seq<Slot>, last: seq<Slot>)
    requires Invariant(s)
    ensures Step(s, e).slots == older + last && |last| <= 1 && Selects(s.slots, older)
    ensures last != [] ==> IsUse(s, e, last[0].key)
    ensures forall i :: 0 <= i < |older| ==> !IsUse(s, e, older[i].key)
  {
    hide Invariant, Selects;
    older, last := s.slots, [];
    KeepSelects(s.slots);
    match e
    case Call(k) =>
      if k.head in History(s, k.pull) {
        FindFinds(s.slots, k);
        var hit := Find(s.slots, k);
        if hit.Some? {
          var i := hit.value;
          older, last := s.slots[..i] + s.slots[i + 1..], [s.slots[i]];
          WithoutSelects(s.slots, i);
          OthersDiffer(s, i);
        }
      }
    case Finish(t) =>
      if t in s.fetches && s.fetches[t].stage.PullKnown? {
        older, last := FinishSlots(s, t);
      }
    case _ =>
  }

  lemma OthersDiffer(s: State, i: nat)
    requires Invariant(s) && i < |s.slots|
    ensures var rest := s.slots[..i] + s.slots[i + 1..];
      forall j :: 0 <= j < |rest| ==> rest[j].key != s.slots[i].key
  {
    var rest := s.slots[..i] + s.slots[i + 1..];
    assert forall j :: 0 <= j < |rest| ==> rest[j] == s.slots[if j < i then j else j + 1];
  }

  lemma FinishSlots(s: State, t: nat) returns (older: seq<Slot>, last: seq<Slot>)
    requires Invariant(s) && t in s.fetches && s.fetches[t].stage.PullKnown?
    ensures Step(s, Finish(t)).slots == older + last && |last| <= 1 && Selects(s.slots, older)
    ensures last != [] ==> IsUse(s, Finish(t), last[0].key)
    ensures forall i :: 0 <= i < |older| ==> !IsUse(s, Finish(t), older[i].key)
  {
    hide Selects, Evict, Invariant;
    older, last := s.slots, [];
    KeepSelects(s.slots);
    if StillHead(s, s.fetches[t]) {
      StoredLast(s, t);
      var slot := Slot(s.fetches[t].key, s.fetches[t].stage.diff);
      var n :| 0 <= n <= |s.slots| && FinishStep(s, t).slots == s.slots[n..] + [slot];
      older, last := s.slots[n..], [slot];
      SuffixSelects(s.slots, n);
      NotStoredYet(s, t);
    }
  }

  lemma NotStoredYet(s: State, t: nat)
    requires Invariant(s) && t in s.fetches && s.fetches[t].stage.PullKnown?
    ensures forall i :: 0 <= i < |s.slots| ==> s.slots[i].key != s.fetches[t].key
  {
    RunningNotStored(s, t);
  }

  /** After every interleaving, the order of the map is the order of last use. */
  lemma {:induction false} OrderIsUse(events: seq<Event>)
    ensures ByUse(events, Run(EMPTY, events).slots)
    decreases |events|
  {
    hide *;
    if events == [] {
      NothingByUse();
    } else {
      var n := |events| - 1;
      var before, e := events[..n], events[n];
      OrderIsUse(before);
      RunKeeps(before);
      RunSnoc(before, e);
      assert events == before + [e];
      OrderStep(before, e, Run(EMPTY, before));
    }
  }

  lemma NothingByUse()
    ensures ByUse([], Run(EMPTY, []).slots)
  {
  }

  lemma OrderStep(events: seq<Event>, e: Event, s: State)
    requires s == Run(EMPTY, events) && Invariant(s) && ByUse(events, s.slots)
    ensures ByUse(events + [e], Step(s, e).slots)
  {
    hide Invariant, Selects, IsUse, ByUse, Step, Run;
    var older, last := StepSlots(s, e);
    if last == [] {
      assert older + last == older;
      SelectionByUse(events, e, s.slots, older);
    } else {
      assert last == [last[0]];
      AddUsed(events, e, s.slots, older, last[0]);
    }
  }

  /* ---------- In flight ---------- */

  /** The call finds no diff stored under its key. */
  ghost predicate Misses(s: State, e: Event, k: Key) {
    e == Call(k) && k.head in History(s, k.pull) && !IsStored(s, k)
  }

  /** A settled fetch of the key is cleaned up. */
  ghost predicate CleansUp(s: State, e: Event, k: Key) {
    e.CleanUp? && e.fetch in s.fetches && s.fetches[e.fetch].key == k && s.fetches[e.fetch].stage.Settled?
  }

  ghost predicate FetchingSince(events: seq<Event>, k: Key, a: nat) {
    && a < |events| && Misses(Run(EMPTY, events[..a]), events[a], k)
    && forall b :: a < b < |events| ==> !CleansUp(Run(EMPTY, events[..b]), events[b], k)
  }

  /** A call has missed, and no fetch of the key was cleaned up since. */
  ghost predicate Fetching(events: seq<Event>, k: Key) {
    exists a: nat :: FetchingSince(events, k, a)
  }

  lemma FetchingAppend(events: seq<Event>, e: Event, k: Key)
    ensures Fetching(events + [e], k) <==>
      Misses(Run(EMPTY, events), e, k) || (Fetching(events, k) && !CleansUp(Run(EMPTY, events), e, k))
  {
    hide Misses, CleansUp, Run;
    var more, n := events + [e], |events|;
    assert more[..n] == events && more[n] == e;
    assert forall b :: 0 <= b < n ==> more[..b] == events[..b] && more[b] == events[b];
    if Fetching(more, k) {
      var a: nat :| FetchingSince(more, k, a);
      if a < n {
        assert !CleansUp(Run(EMPTY, more[..n]), more[n], k);
        forall b | a < b < n ensures !CleansUp(Run(EMPTY, events[..b]), events[b], k) {
          assert !CleansUp(Run(EMPTY, more[..b]), more[b], k);
        }
        assert FetchingSince(events, k, a);
      }
    }
    if Fetching(events, k) && !CleansUp(Run(EMPTY, events), e, k) {
      var a: nat :| FetchingSince(events, k, a);
      assert FetchingSince(more, k, a);
    }
    if Misses(Run(EMPTY, events), e, k) {
      assert FetchingSince(more, k, n);
    }
  }

  lemma StepInflight(s: State, e: Event, k: Key)
    requires Invariant(s)
    ensures k in Step(s, e).inflight <==> Misses(s, e, k) || (k in s.inflight && !CleansUp(s, e, k))
  {
    hide Evict, Invariant;
    match e
    case Call(q) => FindFinds(s.slots, q);
    case CleanUp(t) =>
    case _ =>
  }

  /** After every interleaving, a key is in flight exactly while its fetch is not cleaned up. */
  lemma {:induction false} InflightIsFetching(events: seq<Event>, k: Key)
    ensures k in Run(EMPTY, events).inflight <==> Fetching(events, k)
    decreases |events|
  {
    if events != [] {
      var n := |events| - 1;
      var before, e := events[..n], events[n];
      InflightIsFetching(before, k);
      RunKeeps(before);
      assert events == before + [e];
      hide Invariant, Misses, CleansUp, Step, Fetching;
      FetchingAppend(before, e, k);
      StepInflight(Run(EMPTY, before), e, k);
    }
  }
}
