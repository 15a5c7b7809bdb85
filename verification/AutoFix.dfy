/** `runAutoFix` of src/main/git-service.ts: run an operation, set aside what git says is in the
    way, retry, and put it back, against a git that may answer anything. */
module AutoFix {
  import opened Options

  /** What the error classifier makes of a message. */
  datatype Kind = Dirty | Untracked | InProgress | Conflict | OtherKind(name: string)

  datatype RunResult = Done | Failed(kind: Kind, files: seq<string>)

  datatype Stash = Stash(message: string, serial: nat)

  datatype PopOutcome = Applied | Conflicted | Refused

  datatype PopRecord = PopRecord(entry: Option<Stash>, outcome: PopOutcome)

  /** What git answers in a session, any answers at all: how attempt k ends, what is paused after it, how many files are
      changed then (or no answer), whether a stash is made after it, what the k-th pop does, and whether the k-th look
      at the stash list is answered. */
  datatype Script = Script(run: nat -> RunResult, paused: nat -> Option<string>, changed: nat -> Option<nat>,
    push: nat -> bool, pop: nat -> PopOutcome, listed: nat -> bool)

  /** A repository that answers by its script. A push that succeeds adds one entry, a pop removes the top entry exactly
      when it applied, and the operation and the queries leave the stack alone. */
  class Git {
    const script: Script
    var stack: seq<Stash>
    var stashConflict: bool
    var runs: nat
    var looks: nat
    var pushes: seq<Stash>
    var pops: seq<PopRecord>

    constructor (script: Script, stack: seq<Stash>)
      ensures this.script == script && this.stack == stack
    {
      this.script, this.stack := script, stack;
      stashConflict, runs, looks, pushes, pops := false, 0, 0, [], [];
    }

    method Run() returns (r: RunResult)
      modifies `runs
      ensures runs == old(runs) + 1 && r == script.run(old(runs))
    {
      r := script.run(runs);
      runs := runs + 1;
    }

    /** What is paused after the latest attempt? */
    method PausedOp() returns (op: Option<string>)
      requires runs > 0
      ensures op == script.paused(runs - 1)
    {
      op := script.paused(runs - 1);
    }

    method ChangedFiles() returns (n: Option<nat>)
      requires runs > 0
      ensures n == script.changed(runs - 1)
    {
      n := script.changed(runs - 1);
    }

    method Push(message: string) returns (ok: bool)
      requires runs > 0
      modifies `stack, `pushes
      ensures ok == script.push(runs - 1)
      ensures var entry := Stash(message, |old(pushes)|);
        stack == (if ok then old(stack) + [entry] else old(stack)) &&
        pushes == if ok then old(pushes) + [entry] else old(pushes)
    {
      ok := script.push(runs - 1);
      if ok {
        var entry := Stash(message, |pushes|);
        stack := stack + [entry];
        pushes := pushes + [entry];
      }
    }

    /** The length of the stash list, if the query does not fail. */
    method StashCount() returns (n: Option<nat>)
      modifies `looks
      ensures n == if script.listed(old(looks)) then Some(|stack|) else None
    {
      n := if script.listed(looks) then Some(|stack|) else None;
      looks := looks + 1;
    }

    /** `git stash pop`; its exit status is not looked at. */
    method RawPop()
      modifies `stack, `pops, `stashConflict
      ensures |pops| == |old(pops)| + 1 && pops[..|old(pops)|] == old(pops)
      ensures var p := pops[|old(pops)|];
        && p.entry == (if old(stack) == [] then None else Some(old(stack)[|old(stack)| - 1]))
        && (p.outcome == Applied ==> old(stack) != [] && stack == old(stack)[..|old(stack)| - 1] && !stashConflict)
        && (p.outcome == Conflicted ==> stack == old(stack) && stashConflict)
        && (p.outcome == Refused ==> stack == old(stack) && !stashConflict)
    {
      var outcome := script.pop(|pops|);
      var top := if stack == [] then None else Some(stack[|stack| - 1]);
      if stack == [] && outcome == Applied {
        outcome := Refused;
      }
      if outcome == Applied {
        stack := stack[..|stack| - 1];
      }
      stashConflict := outcome == Conflicted;
      pops := pops + [PopRecord(top, outcome)];
    }
  }

  datatype Note =
    | Stashed(count: nat)
    | SetAside(files: seq<string>)
    | KeptForPaused(message: string)
    | Restored
    | NotRestored
    | Succeeded
    | KeptOnPurpose(stashes: nat)
    | Reapplied
    | ReapplyConflicted
    | ReapplyRefused(message: string)

  /** Why there is no success; `Rejected` when a query failed and the call has no result at all. */
  datatype Failure = NoFailure | RunFailed(kind: Kind) | StoppedOnConflicts | StashFailed(kind: Kind) | Rejected

  datatype FixResult = FixResult(success: bool, failure: Failure, autoFixed: bool, steps: seq<Note>,
    stashKept: Option<string>, conflict: bool)

  /* ---------- Sessions ---------- */

  /** The pops of a session: the newest of `pushed[n..]` first, each applied. */
  function AppliedPops(pushed: seq<Stash>, n: nat): seq<PopRecord>
    requires n <= |pushed|
    decreases |pushed| - n
  {
    if n == |pushed| then [] else AppliedPops(pushed, n + 1) + [PopRecord(Some(pushed[n]), Applied)]
  }

  /** The user's entries stand under the first `n` pushed; the others were popped and applied,
      newest first, and at most one more pop was tried and did not apply. */
  ghost predicate Intact(user: seq<Stash>, git: Git, n: nat)
    reads git`stack, git`pushes, git`pops
  {
    && n <= |git.pushes| && git.stack == user + git.pushes[..n]
    && (git.pops == AppliedPops(git.pushes, n)
        || (n > 0 && LastDidNotApply(git.pops, AppliedPops(git.pushes, n), git.pushes[n - 1])))
  }

  predicate LastDidNotApply(pops: seq<PopRecord>, applied: seq<PopRecord>, top: Stash) {
    |pops| == |applied| + 1 && pops[..|applied|] == applied && pops[|applied|].entry == Some(top) &&
      pops[|applied|].outcome != Applied
  }

  /** The newest stashes were popped until one did not apply; all were, if all applied. */
  ghost predicate PoppedAll(git: Git, n: nat)
    reads git`pushes, git`pops
  {
    && n <= |git.pushes|
    && if n == 0 then git.pops == AppliedPops(git.pushes, 0)
       else LastDidNotApply(git.pops, AppliedPops(git.pushes, n), git.pushes[n - 1])
  }

  /** The last pop tried left conflicts. */
  ghost predicate EndsInConflict(git: Git)
    reads git`pops
  {
    git.pops != [] && git.pops[|git.pops| - 1].outcome == Conflicted
  }

  /** The same, with every pop so far applied. */
  ghost predicate Clean(user: seq<Stash>, git: Git, n: nat)
    reads git`stack, git`pushes, git`pops
  {
    n <= |git.pushes| && git.stack == user + git.pushes[..n] && git.pops == AppliedPops(git.pushes, n)
  }

  ghost predicate NamesPushes(stashes: seq<string>, git: Git)
    reads git`pushes
  {
    |stashes| == |git.pushes| && forall i :: 0 <= i < |stashes| ==> stashes[i] == git.pushes[i].message
  }

  lemma CleanIsIntact(user: seq<Stash>, git: Git)
    requires Clean(user, git, |git.pushes|) && git.pops == []
    ensures Intact(user, git, |git.pushes|)
    ensures git.pushes == [] ==> git.stack == user
  {
    assert user + [] == user;
  }

  lemma AllBack(user: seq<Stash>, git: Git)
    requires Intact(user, git, 0)
    ensures git.stack == user
  {
    assert user + git.pushes[..0] == user;
  }

  /* ---------- What the answers decide ---------- */

  /** The attempt failed because something is in the way, and what is in the way is known. */
  predicate Blocked(r: RunResult) {
    r.Failed? && (r.kind == Dirty || (r.kind == Untracked && r.files != []))
  }

  /** After attempt `k` the blocker is set aside and the operation runs again. */
  predicate Retries(s: Script, enabled: bool, k: nat) {
    && enabled && k < 2 && Blocked(s.run(k)) && s.paused(k).None? && s.push(k)
    && (s.run(k).kind == Dirty ==> s.changed(k).Some?)
  }

  /** Attempt `k` is refused because of untracked files, none of which git names. */
  predicate Unnamed(s: Script, enabled: bool, k: nat) {
    enabled && k < 2 && s.run(k) == Failed(Untracked, []) && s.paused(k).None?
  }

  /** What comes of attempt `k` when it is the last. */
  function Verdict(s: Script, enabled: bool, k: nat): Failure {
    match s.run(k)
    case Done => if s.paused(k).Some? then StoppedOnConflicts else NoFailure
    case Failed(kind, files) =>
      if kind != InProgress && (kind == Conflict || s.paused(k).Some?) then RunFailed(kind)
      else if !enabled || k >= 2 || !Blocked(s.run(k)) then RunFailed(kind)
      else if kind == Dirty && s.changed(k).None? then Rejected
      else StashFailed(kind)
  }

  /** The last attempt stopped on conflicts, which are left to the user with the stashes kept. */
  predicate EndsPaused(s: Script, k: nat) {
    match s.run(k)
    case Done => s.paused(k).Some?
    case Failed(kind, _) => kind != InProgress && (kind == Conflict || s.paused(k).Some?)
  }

  /** The steps tell that putting the stashes back was tried. */
  predicate Tried(steps: seq<Note>) {
    Restored in steps || NotRestored in steps
  }

  /* ---------- The runner ---------- */

  /** `pop`, judged by the stash list and the unmerged paths; it rejects when the list is not to be had. `m` of the
      pushed entries are left then. */
  method Pop(git: Git, ghost user: seq<Stash>, ghost n: nat) returns (outcome: PopOutcome, rejected: bool, ghost m: nat)
    requires n > 0 && Clean(user, git, n)
    modifies git`stack, git`pops, git`stashConflict, git`looks
    ensures rejected ==> Intact(user, git, m)
    ensures !rejected ==> git.pops != [] && git.pops[|git.pops| - 1].outcome == outcome
    ensures !rejected && outcome == Applied ==> m == n - 1 && Clean(user, git, m)
    ensures !rejected && outcome != Applied ==> m == n && Intact(user, git, m) && PoppedAll(git, m)
    ensures (forall k :: git.script.listed(k)) ==> !rejected
  {
    ghost var top := git.pushes[n - 1];
    assert git.stack[..|git.stack| - 1] == user + git.pushes[..n - 1];
    assert git.stack[|git.stack| - 1] == top;
    outcome, m := Refused, n;
    var before := git.StashCount();
    if before.None? {
      return outcome, true, m;
    }
    ghost var pops := git.pops;
    git.RawPop();
    ghost var record := git.pops[|pops|];
    assert git.pops == pops + [record];
    m := if record.outcome == Applied then n - 1 else n;
    if git.stashConflict {
      return Conflicted, false, m;
    }
    var after := git.StashCount();
    if after.None? {
      return outcome, true, m;
    }
    outcome := if after.value < before.value then Applied else Refused;
    rejected := false;
  }

  /** `restore`: pop newest first until one does not apply. */
  method Restore(git: Git, stashes: seq<string>, ghost user: seq<Stash>)
    returns (ok: bool, rejected: bool, ghost n: nat)
    requires Clean(user, git, |git.pushes|) && NamesPushes(stashes, git)
    modifies git`stack, git`pops, git`stashConflict, git`looks
    ensures Intact(user, git, n)
    ensures !rejected ==> (ok <==> n == 0) && PoppedAll(git, n)
    ensures (forall k :: git.script.listed(k)) ==> !rejected
  {
    n := |git.pushes|;
    for i := |stashes| downto 0
      invariant n == i && Clean(user, git, n)
    {
      var outcome, failed, m := Pop(git, user, n);
      n := m;
      if failed || outcome != Applied {
        return false, failed, n;
      }
    }
    ok, rejected := true, false;
  }

  /** The message of the newest stash. */
  function Newest(stashes: seq<string>): Option<string> {
    if stashes == [] then None else Some(stashes[|stashes| - 1])
  }

  /** What the result says of the stashes is so, when `n` of them are left on the stack. A failure that does not try to
      restore pops nothing. */
  ghost predicate Honest(user: seq<Stash>, git: Git, n: nat, r: FixResult)
    reads git`stack, git`pushes, git`pops
  {
    && Intact(user, git, n)
    && (r.stashKept.Some? ==> n > 0 && git.pushes[n - 1].message == r.stashKept.value)
    && (r.success && r.stashKept.None? ==> git.stack == user)
    && (!r.success && r.conflict ==> git.pops == [] && n == |git.pushes| && (r.stashKept.Some? <==> n > 0))
    && (r != REJECTED && !r.success && !Tried(r.steps) ==> git.pops == [] && n == |git.pushes|)
    && (Restored in r.steps ==> git.stack == user && n == 0)
    && (NotRestored in r.steps ==> n > 0)
    && (Tried(r.steps) ==> PoppedAll(git, n))
  }

  const REJECTED := FixResult(false, Rejected, false, [], None, false)

  /** The operation failed for a reason that is not to be fixed: put back what was set aside. */
  method GiveUp(git: Git, steps: seq<Note>, stashes: seq<string>, kind: Kind, ghost user: seq<Stash>)
    returns (r: FixResult, ghost n: nat)
    requires Clean(user, git, |git.pushes|) && NamesPushes(stashes, git) && git.pops == []
    requires !Tried(steps)
    modifies git`stack, git`pops, git`stashConflict, git`looks
    ensures Honest(user, git, n, r)
    ensures r == REJECTED || r == FixResult(false, RunFailed(kind), false, r.steps, None, false)
    ensures (forall k :: git.script.listed(k)) ==> r != REJECTED
    ensures stashes == [] ==> git.stack == old(git.stack)
    ensures r != REJECTED ==> (Tried(r.steps) <==> stashes != [])
    ensures Tried(r.steps) ==> PoppedAll(git, n)
  {
    var notes := steps;
    n := |git.pushes|;
    if |stashes| > 0 {
      var ok, failed;
      ok, failed, n := Restore(git, stashes, user);
      if failed {
        return REJECTED, n;
      }
      notes := notes + [if ok then Restored else NotRestored];
      assert notes[|steps|] in notes;
      if ok {
        AllBack(user, git);
      }
    }
    r := FixResult(false, RunFailed(kind), false, notes, None, false);
  }

  /** The operation stopped on conflicts: the stashes stay for later. */
  function Paused(failure: Failure, steps: seq<Note>, stashes: seq<string>): FixResult {
    FixResult(false, failure, stashes != [],
      if stashes == [] then steps else steps + [KeptForPaused(stashes[|stashes| - 1])], Newest(stashes), true)
  }

  /** After success: re-apply newest first until one does not apply, or keep everything. */
  method Reapply(git: Git, steps: seq<Note>, stashes: seq<string>, popAfter: bool, ghost user: seq<Stash>)
    returns (r: FixResult, ghost n: nat)
    requires Clean(user, git, |git.pushes|) && NamesPushes(stashes, git) && git.pops == []
    requires !Tried(steps)
    modifies git`stack, git`pops, git`stashConflict, git`looks
    ensures Honest(user, git, n, r)
    ensures r == REJECTED || r == FixResult(true, NoFailure, stashes != [], r.steps, r.stashKept, r.conflict)
    ensures (forall k :: git.script.listed(k)) ==> r != REJECTED
    ensures r != REJECTED ==> r.stashKept == if n == 0 then None else Some(git.pushes[n - 1].message)
    ensures !popAfter ==> r != REJECTED && n == |git.pushes| && git.pops == [] && !r.conflict
    ensures popAfter && r != REJECTED ==> PoppedAll(git, n) && (r.conflict <==> EndsInConflict(git))
    ensures stashes == [] ==> git.stack == old(git.stack)
    ensures !Tried(r.steps)
  {
    var notes := steps + [Succeeded];
    var stashKept: Option<string> := None;
    var conflict := false;
    n := |git.pushes|;
    if |stashes| > 0 {
      if !popAfter {
        stashKept := Newest(stashes);
        notes := notes + [KeptOnPurpose(|stashes|)];
      } else {
        for i := |stashes| downto 0
          invariant n == i && Clean(user, git, n) && stashKept == None && !conflict && !EndsInConflict(git)
          invariant Restored !in notes && NotRestored !in notes
        {
          var outcome, failed, m := Pop(git, user, n);
          n := m;
          if failed {
            return REJECTED, n;
          }
          if outcome == Applied {
            notes := notes + [Reapplied];
          } else {
            stashKept := Some(stashes[i]);
            conflict := outcome == Conflicted;
            notes := notes + [if conflict then ReapplyConflicted else ReapplyRefused(stashes[i])];
            break;
          }
        }
      }
    }
    if n == 0 {
      AllBack(user, git);
    }
    r := FixResult(true, NoFailure, |stashes| > 0, notes, stashKept, conflict);
  }

  /** Set aside what is in the way; the count of changed files is asked for first. */
  method SetAsideBlocker(git: Git, opLabel: string, kind: Kind, files: seq<string>, stashes: seq<string>,
                         ghost user: seq<Stash>)
    returns (message: string, ok: bool, rejected: bool, note: Note)
    requires git.runs > 0 && Blocked(Failed(kind, files))
    requires Clean(user, git, |git.pushes|) && NamesPushes(stashes, git) && git.pops == []
    modifies git`stack, git`pushes
    ensures rejected <==> kind == Dirty && git.script.changed(git.runs - 1).None?
    ensures ok <==> !rejected && git.script.push(git.runs - 1)
    ensures var entry := Stash(message, |old(git.pushes)|);
      git.stack == (if ok then old(git.stack) + [entry] else old(git.stack)) &&
      git.pushes == if ok then old(git.pushes) + [entry] else old(git.pushes)
    ensures Clean(user, git, |git.pushes|) && NamesPushes(if ok then stashes + [message] else stashes, git)
    ensures note != Restored && note != NotRestored
    ensures message ==
      (if kind == Dirty then "git-gud: autostash before " else "git-gud: untracked files set aside before ") + opLabel
    ensures !rejected ==>
      note == if kind == Dirty then Stashed(git.script.changed(git.runs - 1).value) else SetAside(files)
  {
    assert user + git.pushes == git.stack;
    rejected, ok, note := false, false, SetAside(files);
    if kind == Dirty {
      message := "git-gud: autostash before " + opLabel;
      var n := git.ChangedFiles();
      if n.None? {
        return message, false, true, note;
      }
      ok := git.Push(message);
      note := Stashed(n.value);
    } else {
      message := "git-gud: untracked files set aside before " + opLabel;
      ok := git.Push(message);
    }
    ghost var pushed := git.pushes;
    assert pushed[..|pushed|] == pushed;
    assert ok ==> git.stack == user + pushed;
  }

  /** What the result says when attempt `k` was the last. A failure that is no conflict tries to restore the stashes
      exactly when there are some, the last stash was not the one that failed, and git named the files in the way. */
  predicate Reported(s: Script, enabled: bool, k: nat, r: FixResult) {
    && r.failure == Verdict(s, enabled, k)
    && (r.success <==> r.failure == NoFailure)
    && (r.success ==> (r.autoFixed <==> k > 0) && !Tried(r.steps))
    && (!r.success ==> (r.conflict <==> EndsPaused(s, k)))
    && (!r.success && !r.conflict ==> r.stashKept.None?)
    && (!r.success && !r.conflict ==>
      (Tried(r.steps) <==> k > 0 && !r.failure.StashFailed? && !Unnamed(s, enabled, k)))
  }

  lemma PausedReported(s: Script, enabled: bool, k: nat, failure: Failure, steps: seq<Note>, stashes: seq<string>)
    requires EndsPaused(s, k) && !Tried(steps) && |stashes| == k
    requires failure == if s.run(k).Done? then StoppedOnConflicts else RunFailed(s.run(k).kind)
    ensures !Retries(s, enabled, k) && Reported(s, enabled, k, Paused(failure, steps, stashes))
    ensures !Tried(Paused(failure, steps, stashes).steps)
  {
  }

  lemma SuccessReported(s: Script, enabled: bool, k: nat, r: FixResult)
    requires s.run(k).Done? && s.paused(k).None? && !Tried(r.steps)
    requires r == FixResult(true, NoFailure, k > 0, r.steps, r.stashKept, r.conflict)
    ensures Reported(s, enabled, k, r)
  {
  }

  /** A result that leaves all stashes where they are. */
  lemma NothingPopped(user: seq<Stash>, git: Git, stashes: seq<string>, r: FixResult)
    requires Clean(user, git, |git.pushes|) && NamesPushes(stashes, git) && git.pops == []
    requires !Tried(r.steps) && !r.success && r.stashKept == if r.conflict then Newest(stashes) else None
    ensures Honest(user, git, |git.pushes|, r)
  {
    CleanIsIntact(user, git);
  }

  lemma SuccessVerdict(s: Script, enabled: bool, k: nat)
    requires s.run(k).Done? && s.paused(k).None?
    ensures !Retries(s, enabled, k) && Verdict(s, enabled, k) == NoFailure
  {
  }

  lemma StillNotTried(steps: seq<Note>, note: Note)
    requires !Tried(steps) && note != Restored && note != NotRestored
    ensures !Tried(steps + [note])
  {
  }

  lemma FailureReported(s: Script, enabled: bool, k: nat, failure: Failure, steps: seq<Note>)
    requires !EndsPaused(s, k) && failure == Verdict(s, enabled, k) && failure != NoFailure
    requires Tried(steps) <==> k > 0 && !failure.StashFailed? && !Unnamed(s, enabled, k)
    ensures Reported(s, enabled, k, FixResult(false, failure, false, steps, None, false))
  {
  }

  /** What is to be done when attempt `k` fails. */
  lemma Decides(s: Script, enabled: bool, k: nat)
    requires s.run(k).Failed? && !EndsPaused(s, k)
    ensures var f := s.run(k);
      var fixable := enabled && k < 2 && (f.kind == Dirty || f.kind == Untracked);
      && (!fixable ==>
           Verdict(s, enabled, k) == RunFailed(f.kind) && !Retries(s, enabled, k) && !Unnamed(s, enabled, k))
      && (fixable && f.kind == Untracked && f.files == [] ==>
        Verdict(s, enabled, k) == RunFailed(f.kind) && !Retries(s, enabled, k) && Unnamed(s, enabled, k))
      && (fixable && (f.kind == Dirty || f.files != []) ==>
        (Retries(s, enabled, k) <==> s.push(k) && (f.kind == Dirty ==> s.changed(k).Some?)) &&
        Verdict(s, enabled, k) == if f.kind == Dirty && s.changed(k).None? then Rejected else StashFailed(f.kind))
  {
  }

  /** Attempt `attempt` failed and is not paused: restore, give up, or set aside what is in the way. */
  method TryToFix(git: Git, opLabel: string, enabled: bool, attempt: nat, steps: seq<Note>, stashes: seq<string>,
                  kind: Kind, files: seq<string>, ghost user: seq<Stash>)
    returns (end: Option<FixResult>, note: Note, message: string, ghost n: nat)
    requires git.script.run(attempt) == Failed(kind, files) && !EndsPaused(git.script, attempt)
    requires attempt == |stashes| == git.runs - 1 <= 2
    requires Clean(user, git, |git.pushes|) && NamesPushes(stashes, git) && git.pops == [] && !Tried(steps)
    modifies git`stack, git`pushes, git`pops, git`stashConflict, git`looks
    ensures end.Some? ==> !Retries(git.script, enabled, attempt) && git.pushes == old(git.pushes)
    ensures end.Some? ==> Honest(user, git, n, end.value) && !end.value.success
    ensures end.Some? && end != Some(REJECTED) ==> Reported(git.script, enabled, attempt, end.value)
    ensures (forall k :: git.script.listed(k)) && Verdict(git.script, enabled, attempt) != Rejected ==>
      end != Some(REJECTED)
    ensures end.Some? && git.pushes == [] ==> git.stack == old(git.stack)
    ensures end.None? ==> Retries(git.script, enabled, attempt) && enabled && attempt < 2 && git.pops == []
    ensures end.None? ==> Clean(user, git, |git.pushes|) && NamesPushes(stashes + [message], git)
    ensures end.None? ==> !Tried(steps + [note])
  {
    assert !Tried(REJECTED.steps) && |git.pushes| == |stashes|;
    hide Clean, NamesPushes, Tried, Honest, Retries, Reported, Verdict, Unnamed, EndsPaused;
    n, note, message := |git.pushes|, Succeeded, "";
    Decides(git.script, enabled, attempt);
    var fixable := enabled && attempt < 2 && (kind == Dirty || kind == Untracked);
    if !fixable {
      var r;
      r, n := GiveUp(git, steps, stashes, kind, user);
      if r != REJECTED {
        FailureReported(git.script, enabled, attempt, r.failure, r.steps);
      }
      end := Some(r);
      return;
    }
    if kind == Untracked && files == [] {
      FailureReported(git.script, enabled, attempt, RunFailed(kind), steps);
      var r := FixResult(false, RunFailed(kind), false, steps, None, false);
      NothingPopped(user, git, stashes, r);
      end := Some(r);
      return;
    }
    var ok, rejected;
    message, ok, rejected, note := SetAsideBlocker(git, opLabel, kind, files, stashes, user);
    if rejected {
      NothingPopped(user, git, stashes, REJECTED);
      end := Some(REJECTED);
      return;
    }
    if !ok {
      FailureReported(git.script, enabled, attempt, StashFailed(kind), steps);
      var r := FixResult(false, StashFailed(kind), false, steps, None, false);
      NothingPopped(user, git, stashes, r);
      end := Some(r);
      return;
    }
    StillNotTried(steps, note);
    end := None;
  }

  /** One attempt, when `stashes` were set aside before: a success, the end of the session, or one more stash. */
  method TryOnce(git: Git, opLabel: string, enabled: bool, attempt: nat, steps: seq<Note>, stashes: seq<string>,
                 ghost user: seq<Stash>)
    returns (end: Option<FixResult>, success: bool, note: Note, message: string, ghost n: nat)
    requires attempt == |stashes| == git.runs <= 2
    requires Clean(user, git, |git.pushes|) && NamesPushes(stashes, git) && git.pops == [] && !Tried(steps)
    modifies git`runs, git`stack, git`pushes, git`pops, git`stashConflict, git`looks
    ensures git.runs == attempt + 1
    ensures end.Some? || success ==> !Retries(git.script, enabled, attempt) && git.pushes == old(git.pushes)
    ensures end.Some? ==> Honest(user, git, n, end.value) && !end.value.success
    ensures end.Some? && end != Some(REJECTED) ==> Reported(git.script, enabled, attempt, end.value)
    ensures (forall k :: git.script.listed(k)) && Verdict(git.script, enabled, attempt) != Rejected ==>
      end != Some(REJECTED)
    ensures end.Some? && git.pushes == [] ==> git.stack == old(git.stack)
    ensures end.None? && success ==> git.script.run(attempt).Done? && git.script.paused(attempt).None?
    ensures end.None? && success ==> git.stack == old(git.stack) && git.pops == []
    ensures end.None? && success ==> Clean(user, git, |git.pushes|) && NamesPushes(stashes, git)
    ensures end.None? && !success ==> Retries(git.script, enabled, attempt) && enabled && attempt < 2 && git.pops == []
    ensures end.None? && !success ==> Clean(user, git, |git.pushes|) && NamesPushes(stashes + [message], git)
    ensures end.None? && !success ==> !Tried(steps + [note])
  {
    assert !Tried(REJECTED.steps) && |git.pushes| == |stashes|;
    hide Clean, NamesPushes, Tried, Honest, Retries, Reported, Verdict, Unnamed;
    n, success, note, message := |git.pushes|, false, Succeeded, "";
    var run := git.Run();
    if run.Done? {
      var paused := git.PausedOp();
      if paused.Some? {
        PausedReported(git.script, enabled, attempt, StoppedOnConflicts, steps, stashes);
        var r := Paused(StoppedOnConflicts, steps, stashes);
        NothingPopped(user, git, stashes, r);
        end := Some(r);
        return;
      }
      SuccessVerdict(git.script, enabled, attempt);
      end, success := None, true;
      return;
    }
    var kind := run.kind;
    if kind != InProgress {
      var isConflict := kind == Conflict;
      if !isConflict {
        var paused := git.PausedOp();
        isConflict := paused.Some?;
      }
      if isConflict {
        PausedReported(git.script, enabled, attempt, RunFailed(kind), steps, stashes);
        var r := Paused(RunFailed(kind), steps, stashes);
        NothingPopped(user, git, stashes, r);
        end := Some(r);
        return;
      }
    }
    end, note, message, n := TryToFix(git, opLabel, enabled, attempt, steps, stashes, kind, run.files, user);
  }

  /** Whatever git answers: the attempts go on as long as the blocker can be set aside, at most three times; the user's
      stashes stay in place under a prefix of the pushed ones; every other pushed one was applied, newest first, and no
      pop follows one that did not apply; the result says how the last attempt ended and where the stashes are. */
  method RunAutoFix(git: Git, opLabel: string, enabled: bool, popAfter: bool) returns (r: FixResult, ghost n: nat)
    modifies git
    ensures 1 <= git.runs <= 3 && |git.pushes| == git.runs - 1
    ensures forall k :: 0 <= k < git.runs - 1 ==> Retries(git.script, enabled, k)
    ensures !Retries(git.script, enabled, git.runs - 1)
    ensures Honest(old(git.stack), git, n, r)
    ensures r == REJECTED || Reported(git.script, enabled, git.runs - 1, r)
    ensures (forall k :: git.script.listed(k)) && Verdict(git.script, enabled, git.runs - 1) != Rejected ==>
      r != REJECTED
    ensures !enabled ==> git.pushes == [] && git.stack == old(git.stack)
    ensures r.success ==> r.stashKept == if n == 0 then None else Some(git.pushes[n - 1].message)
    ensures r.success && popAfter ==> PoppedAll(git, n) && (r.conflict <==> EndsInConflict(git))
    ensures r.success && !popAfter ==> git.pops == [] && n == |git.pushes| && !r.conflict
  {
    ghost var user := git.stack;
    git.runs, git.pushes, git.pops := 0, [], [];
    var steps: seq<Note>, stashes: seq<string> := [], [];
    var attempt := 0;
    assert !Tried(steps) && Clean(user, git, 0);
    hide Clean, Tried, Honest, Retries, Reported, Verdict, Unnamed;
    while true
      invariant attempt == |stashes| == |git.pushes| == git.runs <= 2
      invariant forall k :: 0 <= k < git.runs ==> Retries(git.script, enabled, k)
      invariant Clean(user, git, |git.pushes|) && NamesPushes(stashes, git) && git.pops == [] && !Tried(steps)
      invariant !enabled ==> attempt == 0 && git.stack == user
      decreases 2 - attempt
    {
      var end, success, note, message, m := TryOnce(git, opLabel, enabled, attempt, steps, stashes, user);
      if end.Some? {
        r, n := end.value, m;
        return;
      }
      if success {
        break;
      }
      stashes, steps := stashes + [message], steps + [note];
      attempt := attempt + 1;
    }
    SuccessVerdict(git.script, enabled, attempt);
    r, n := Reapply(git, steps, stashes, popAfter, user);
    if r != REJECTED {
      SuccessReported(git.script, enabled, attempt, r);
    }
  }

  /* ---------- A stash left behind ---------- */

  /** The first blocker is set aside; the second is untracked files without a name, or cannot be set aside. */
  ghost predicate LeavesFirst(s: Script) {
    && Retries(s, true, 0) && s.paused(1).None?
    && (Unnamed(s, true, 1) || (Blocked(s.run(1)) && !s.push(1) && (s.run(1).kind == Dirty ==> s.changed(1).Some?)))
    && forall k :: s.listed(k)
  }

  /** The promise to restore the tree fails for all these answers: the first stash stays on the stack, no pop is tried,
      and the result neither names the stash nor says that it is there. */
  method StashLeftBehind(script: Script, user: seq<Stash>, opLabel: string, popAfter: bool)
    returns (git: Git, r: FixResult)
    requires LeavesFirst(script)
    ensures git.stack == user + git.pushes && |git.pushes| == 1 && git.pops == []
    ensures !r.success && !r.conflict && r.stashKept.None? && !Tried(r.steps)
  {
    git := new Git(script, user);
    ghost var n;
    r, n := RunAutoFix(git, opLabel, true, popAfter);
    assert Retries(git.script, true, 0) && !Retries(git.script, true, 1);
    assert git.runs == 2;
    assert git.pushes[..1] == git.pushes;
  }

  /** Such answers: changed files first, then untracked files that git does not name. */
  function LeavingAnswers(): Script {
    Script(k => if k == 0 then Failed(Dirty, []) else Failed(Untracked, []), _ => None, _ => Some(1), _ => true,
      _ => Applied, _ => true)
  }

  lemma SomeAnswersLeaveFirst()
    ensures LeavesFirst(LeavingAnswers())
  {
  }

  lemma {:induction false} AppliedPopsListed(pushed: seq<Stash>, n: nat)
    requires n <= |pushed|
    ensures |AppliedPops(pushed, n)| == |pushed| - n
    ensures forall k :: 0 <= k < |pushed| - n ==>
      AppliedPops(pushed, n)[k] == PopRecord(Some(pushed[|pushed| - 1 - k]), Applied)
    decreases |pushed| - n
  {
    if n < |pushed| {
      AppliedPopsListed(pushed, n + 1);
    }
  }

  /** Nothing is dropped: a pushed entry is on the stack or was applied, and only the last pop can have failed. */
  lemma NothingDropped(user: seq<Stash>, git: Git, n: nat)
    requires Intact(user, git, n)
    ensures user <= git.stack
    ensures forall i :: 0 <= i < |git.pushes| ==>
      git.pushes[i] in git.stack || PopRecord(Some(git.pushes[i]), Applied) in git.pops
    ensures forall k :: 0 <= k < |git.pops| - 1 ==> git.pops[k].outcome == Applied
  {
    AppliedPopsListed(git.pushes, n);
    forall i | 0 <= i < |git.pushes|
      ensures git.pushes[i] in git.stack || PopRecord(Some(git.pushes[i]), Applied) in git.pops {
      if i < n {
        assert git.stack[|user| + i] == git.pushes[i];
      } else {
        assert git.pops[|git.pushes| - 1 - i] == PopRecord(Some(git.pushes[i]), Applied);
      }
    }
  }
}
