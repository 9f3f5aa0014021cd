// Progress of the optimistic protocol: a thread loses a validation only to a
// commit of another thread, and each such commit costs it at most one attempt.

module StmProgress {
  import opened Stm
  import opened StmProofs
  import opened StmCalls

  /** How many logged transactions of threads other than `tid` wrote something. */
  ghost function Others(log: seq<Entry>, tid: Tid): nat {
    if log == [] then 0
    else Others(log[..|log| - 1], tid) + if log[|log| - 1].tid != tid && log[|log| - 1].writes != map[] then 1 else 0
  }

  ghost function Losses(s0: State, steps: seq<Step>, tid: Tid): nat
    requires IsRun(s0, steps)
    decreases |steps|
  {
    if steps == [] then 0
    else
      var before := steps[..|steps| - 1];
      Losses(s0, before, tid) + if Loses(After(s0, before), steps[|steps| - 1], tid) then 1 else 0
  }

  /** The part of the log whose writes are all in the store. */
  ghost function Settled(s: State): int {
    if Committer(s) then |s.log| - 1 else |s.log|
  }

  /** From `mark` on, the log has no entry of `tid` but the one it is applying. */
  ghost predicate NoOwnSince(s: State, tid: Tid, mark: nat) {
    forall i | mark <= i < |s.log| && s.log[i].tid == tid ::
      i == |s.log| - 1 && Committer(s) && s.holder.tid == tid
  }

  ghost predicate RecordedSince(a: Attempt, mark: nat) {
    forall t <- a.since :: mark <= a.since[t]
  }

  /** `mark` is a point of the log before which `losses` are accounted for, and
      behind which the present attempt has recorded all its versions. */
  ghost predicate Accounted(s: State, tid: Tid, losses: nat, mark: nat) {
    && mark <= Settled(s)
    && losses <= Others(s.log[..mark], tid)
    && (tid in s.threads && s.threads[tid].Active? ==>
          RecordedSince(s.threads[tid].a, mark) && NoOwnSince(s, tid, mark))
  }

  lemma {:induction false} OthersGrow(log: seq<Entry>, tid: Tid, m: nat, n: nat)
    requires m <= n <= |log|
    ensures Others(log[..m], tid) <= Others(log[..n], tid)
    ensures (exists i :: m <= i < n && log[i].tid != tid && log[i].writes != map[]) ==>
              Others(log[..m], tid) < Others(log[..n], tid)
    decreases n
  {
    if m < n {
      assert log[..n][..n - 1] == log[..n - 1];
      OthersGrow(log, tid, m, n - 1);
    }
  }

  // ----- What a step does to the log ----------------------------------------

  lemma CommitterStays(s: State, step: Step)
    requires LocksOk(s) && Enabled(s, step) && Committer(s) && !step.Finish?
    ensures var s' := Do(s, step); Committer(s') && s'.holder == s.holder && s'.log == s.log
  {
    assert HoldsLock(s.threads[s.holder.tid]);
    if step.tid in s.threads && HoldsLock(s.threads[step.tid]) {
      assert step.tid == s.holder.tid;
    }
  }

  ghost predicate IsCommit(s: State, step: Step)
    requires Enabled(s, step)
  {
    step.Decide? && s.threads[step.tid].phase.goal.Commit?
  }

  lemma NoCommitterBut(s: State, step: Step)
    requires LocksOk(s) && Enabled(s, step) && !Committer(s)
    ensures var s' := Do(s, step);
            && (IsCommit(s, step) ==>
                  && Committer(s') && s'.holder == HeldBy(step.tid)
                  && |s'.log| == |s.log| + 1 && s'.log[..|s.log|] == s.log && s'.log[|s.log|].tid == step.tid)
            && (!IsCommit(s, step) ==> !Committer(s') && s'.log == s.log)
  {
    if HoldsLock(s.threads[step.tid]) {
      assert s.holder == HeldBy(step.tid);
    }
  }

  lemma FinishSettles(s: State, tid: Tid)
    requires LocksOk(s) && Enabled(s, Finish(tid))
    ensures Committer(s) && s.holder == HeldBy(tid)
    ensures var s' := Do(s, Finish(tid)); !Committer(s') && s'.log == s.log && s'.threads[tid].Idle?
  {
    assert HoldsLock(s.threads[tid]);
  }

  lemma SettledGrows(s: State, step: Step)
    requires LocksOk(s) && Enabled(s, step)
    ensures Settled(s) <= Settled(Do(s, step))
    ensures |s.log| <= |Do(s, step).log| && Do(s, step).log[..|s.log|] == s.log
  {
    hide LocksOk, Do, Enabled;
    if !Committer(s) {
      NoCommitterBut(s, step);
    } else if step.Finish? {
      FinishSettles(s, step.tid);
    } else {
      CommitterStays(s, step);
    }
  }

  lemma NoOwnKept(s: State, step: Step, tid: Tid, mark: nat)
    requires LocksOk(s) && Enabled(s, step) && NoOwnSince(s, tid, mark) && !(step.Finish? && step.tid == tid)
    ensures NoOwnSince(Do(s, step), tid, mark)
  {
    hide LocksOk, Do, Enabled;
    if !Committer(s) {
      NoCommitterBut(s, step);
      var log := Do(s, step).log;
      assert forall i | 0 <= i < |s.log| :: log[i] == log[..|s.log|][i];
    } else if step.Finish? {
      FinishSettles(s, step.tid);
    } else {
      CommitterStays(s, step);
    }
  }

  lemma PointIsSettled(s: State, t: TVar)
    ensures Settled(s) <= LogPoint(s, t)
  {}

  lemma RecordedKept(s: State, step: Step, tid: Tid, mark: nat)
    requires Enabled(s, step) && mark <= Settled(s) && tid in s.threads
    requires s.threads[tid].Active? && RecordedSince(s.threads[tid].a, mark)
    ensures tid in Do(s, step).threads
    ensures Do(s, step).threads[tid].Active? ==> RecordedSince(Do(s, step).threads[tid].a, mark)
  {
    if step.Act? && step.tid == tid {
      var th := s.threads[tid];
      match th.body(Seen(th.a.trace))
      case Read(t) => PointIsSettled(s, t);
      case Write(t, _) => PointIsSettled(s, t);
      case _ =>
    }
  }

  lemma ThreadsStay(s: State, step: Step, tid: Tid)
    requires Enabled(s, step) && tid in Do(s, step).threads && Do(s, step).threads[tid].Active?
    requires !(step.Begin? && step.tid == tid)
    ensures tid in s.threads && s.threads[tid].Active?
  {}

  // ----- Every loss has its commit --------------------------------------------

  /** Where `tid` starts afresh, everything settled is accounted for. */
  lemma FreshMark(s0: State, s: State, tid: Tid, losses: nat)
    requires Inv(s0, s) && tid in s.threads && !HoldsLock(s.threads[tid])
    requires s.threads[tid].Active? ==> s.threads[tid].a == Fresh
    requires Settled(s) >= 0 && losses <= Others(s.log[..Settled(s)], tid)
    ensures Accounted(s, tid, losses, Settled(s))
  {
    if Committer(s) {
      assert s.holder.tid != tid;
    }
  }

  lemma SettledIsNat(s0: State, s: State)
    requires Inv(s0, s)
    ensures 0 <= Settled(s) <= |s.log|
  {}

  /** A lost validation is a write by another thread, behind the mark. */
  lemma LossHasItsCommit(s0: State, s: State, step: Step, tid: Tid, losses: nat, mark: nat)
    requires Inv(s0, s) && Enabled(s, step) && Loses(s, step, tid) && Accounted(s, tid, losses, mark)
    ensures Settled(s) == |s.log| && losses + 1 <= Others(s.log[..|s.log|], tid)
  {
    var a := s.threads[tid].a;
    LockOfChecker(s, tid);
    ExactlyCurrent(s0, s, tid, step.t);
    var i :| a.since[step.t] <= i < |s.log| && step.t in s.log[i].writes;
    assert step.t in a.since && mark <= i;
    assert s.log[i].tid != tid && s.log[i].writes != map[];
    OthersGrow(s.log, tid, mark, |s.log|);
  }

  lemma LockOfChecker(s: State, tid: Tid)
    requires LocksOk(s) && tid in s.threads && s.threads[tid].Active? && s.threads[tid].phase.Checking?
    ensures s.holder == HeldBy(tid) && !Committer(s)
  {
    assert HoldsLock(s.threads[tid]);
  }

  lemma LoserStartsAfresh(s: State, step: Step, tid: Tid)
    requires LocksOk(s) && Enabled(s, step) && Loses(s, step, tid)
    ensures var s' := Do(s, step);
            && s'.log == s.log && !Committer(s') && tid in s'.threads && !HoldsLock(s'.threads[tid])
            && (s'.threads[tid].Active? ==> s'.threads[tid].a == Fresh)
  {
    LockOfChecker(s, tid);
  }

  lemma BeginsAfresh(s: State, step: Step)
    requires Enabled(s, step) && step.Begin?
    ensures var s' := Do(s, step); var tid := step.tid;
            && tid in s'.threads && !HoldsLock(s'.threads[tid])
            && (s'.threads[tid].Active? ==> s'.threads[tid].a == Fresh)
  {}

  lemma StepAccounted(s0: State, s: State, step: Step, tid: Tid, losses: nat, mark: nat) returns (mark': nat)
    requires Inv(s0, s) && Enabled(s, step) && Accounted(s, tid, losses, mark)
    ensures Accounted(Do(s, step), tid, losses + if Loses(s, step, tid) then 1 else 0, mark')
  {
    hide Do, Enabled, Inv, LocksOk, LogOk, StoreOk, ParkedOk, ThreadsOk, Loses, Settled, Fresh, NoOwnSince, RecordedSince;
    var s' := Do(s, step);
    InvHasLocks(s0, s);
    StepKeeps(s0, s, step);
    SettledGrows(s, step);
    SettledIsNat(s0, s);
    SettledIsNat(s0, s');
    assert s'.log[..mark] == s.log[..mark];
    if Loses(s, step, tid) {
      LossHasItsCommit(s0, s, step, tid, losses, mark);
      LoserStartsAfresh(s, step, tid);
      mark' := Settled(s');
      SettledOf(s');
      FreshMark(s0, s', tid, losses + 1);
    } else if step.Begin? && step.tid == tid {
      BeginsAfresh(s, step);
      mark' := Settled(s');
      OthersGrow(s'.log, tid, mark, mark');
      FreshMark(s0, s', tid, losses);
    } else {
      mark' := mark;
      if tid in s'.threads && s'.threads[tid].Active? {
        ThreadsStay(s, step, tid);
        RecordedKept(s, step, tid, mark);
        if step.Finish? && step.tid == tid {
          FinishSettles(s, tid);
        } else {
          NoOwnKept(s, step, tid, mark);
        }
      }
    }
  }

  lemma InvHasLocks(s0: State, s: State)
    requires Inv(s0, s)
    ensures LocksOk(s)
  {}

  lemma SettledOf(s: State)
    ensures !Committer(s) ==> Settled(s) == |s.log|
  {}

  lemma {:induction false} RunAccounted(s0: State, steps: seq<Step>, tid: Tid) returns (mark: nat)
    requires Init(s0) && IsRun(s0, steps)
    ensures Accounted(After(s0, steps), tid, Losses(s0, steps, tid), mark)
    decreases |steps|
  {
    if steps == [] {
      mark := 0;
    } else {
      var before := steps[..|steps| - 1];
      mark := RunAccounted(s0, before, tid);
      RunKeeps(s0, before);
      mark := StepAccounted(s0, After(s0, before), steps[|steps| - 1], tid, Losses(s0, before, tid), mark);
    }
  }

  /** Whatever the schedule, a thread loses no more validations than other threads
      have committed transactions that wrote something: each such commit costs a
      thread at most one attempt, and without any no attempt is ever lost. */
  lemma LossesAreOthersCommits(s0: State, steps: seq<Step>, tid: Tid)
    requires Init(s0) && IsRun(s0, steps)
    ensures Losses(s0, steps, tid) <= Others(After(s0, steps).log, tid)
  {
    var mark := RunAccounted(s0, steps, tid);
    RunKeeps(s0, steps);
    var log := After(s0, steps).log;
    assert log[..|log|] == log;
    OthersGrow(log, tid, mark, |log|);
  }

  // ----- The bound is reached: starvation ---------------------------------------

  lemma MoreLosses(s0: State, steps: seq<Step>, step: Step, tid: Tid)
    requires IsRun(s0, steps) && Enabled(After(s0, steps), step)
    ensures IsRun(s0, steps + [step]) && After(s0, steps + [step]) == Do(After(s0, steps), step)
    ensures Losses(s0, steps + [step], tid)
            == Losses(s0, steps, tid) + if Loses(After(s0, steps), step, tid) then 1 else 0
  {
    OneMore(s0, steps, step);
    assert (steps + [step])[..|steps|] == steps;
  }

  ghost function Reader(x: TVar): Body {
    seen => if |seen| == 0 then Read(x) else Return(seen[0])
  }

  /** One variable and two threads: thread 0 reads it, thread 1 keeps writing it. */
  ghost function Arena(x: TVar, cell: Cell, holder: Holder, th0: Thread, th1: Thread,
                       log: seq<Entry>, returned: seq<(Tid, Value)>): State {
    State(map[x := cell], holder, map[0 := th0, 1 := th1], log, returned)
  }

  ghost function HasRead(x: TVar, cell: Cell, at: nat): Attempt {
    Attempt(map[x := cell.version], map[], [Shared(x, cell.value)], map[x := at])
  }

  ghost function HasStaged(x: TVar, cell: Cell, at: nat): Attempt {
    Attempt(map[x := cell.version], map[x := cell.value], [Staged(x, cell.value)], map[x := at])
  }

  /** The run `steps` leads to `s`, and thread 0 loses `lost` validations on the way. */
  ghost predicate Reaches(s0: State, steps: seq<Step>, s: State, lost: nat) {
    IsRun(s0, steps) && After(s0, steps) == s && Losses(s0, steps, 0) == lost
  }

  ghost predicate Leads(s: State, step: Step, s': State, lost: nat) {
    Enabled(s, step) && Do(s, step) == s' && lost == if Loses(s, step, 0) then 1 else 0
  }

  lemma ReachMore(s0: State, steps: seq<Step>, s: State, lost: nat, step: Step, s': State, loss: nat)
    requires Reaches(s0, steps, s, lost) && Leads(s, step, s', loss)
    ensures Reaches(s0, steps + [step], s', lost + loss)
  {
    MoreLosses(s0, steps, step, 0);
  }

  ghost function Try(x: TVar, max: nat, tries: nat, a: Attempt, phase: Phase): Thread {
    Active(Reader(x), max, tries, a, phase)
  }

  ghost function Writing(x: TVar, u: Value, a: Attempt, phase: Phase): Thread {
    Active(Writer(x, u), 1, 0, a, phase)
  }

  lemma ReaderReads(x: TVar, cell: Cell, max: nat, tries: nat, log: seq<Entry>, ret: seq<(Tid, Value)>)
    ensures Leads(Arena(x, cell, Free, Try(x, max, tries, Fresh, Running), Idle, log, ret), Act(0),
                  Arena(x, cell, Free, Try(x, max, tries, HasRead(x, cell, |log|), Running), Idle, log, ret), 0)
  {
    var s := Arena(x, cell, Free, Try(x, max, tries, Fresh, Running), Idle, log, ret);
    assert Seen([]) == [];
    assert MidWrite(s) == {} && LogPoint(s, x) == |log|;
    assert Perform(s, s.threads[0]) == Try(x, max, tries, HasRead(x, cell, |log|), Running);
  }

  lemma WriterBegins(x: TVar, cell: Cell, th: Thread, log: seq<Entry>, ret: seq<(Tid, Value)>)
    ensures Leads(Arena(x, cell, Free, th, Idle, log, ret), Begin(1, Writer(x, cell.value), 1),
                  Arena(x, cell, Free, th, Writing(x, cell.value, Fresh, Running), log, ret), 0)
  {}

  lemma WriterStages(x: TVar, cell: Cell, th: Thread, log: seq<Entry>, ret: seq<(Tid, Value)>)
    ensures Leads(Arena(x, cell, Free, th, Writing(x, cell.value, Fresh, Running), log, ret), Act(1),
                  Arena(x, cell, Free, th, Writing(x, cell.value, HasStaged(x, cell, |log|), Running), log, ret), 0)
  {
    var s := Arena(x, cell, Free, th, Writing(x, cell.value, Fresh, Running), log, ret);
    assert Seen([]) == [];
    assert MidWrite(s) == {} && LogPoint(s, x) == |log|;
    assert Perform(s, s.threads[1]) == Writing(x, cell.value, HasStaged(x, cell, |log|), Running);
  }

  lemma WriterReturns(x: TVar, cell: Cell, th: Thread, a: Attempt, log: seq<Entry>, ret: seq<(Tid, Value)>)
    requires |a.trace| == 1
    ensures Leads(Arena(x, cell, Free, th, Writing(x, cell.value, a, Running), log, ret), Act(1),
                  Arena(x, cell, Free, th, Writing(x, cell.value, a, Queued(Commit(cell.value))), log, ret), 0)
  {}

  lemma WriterLocks(x: TVar, cell: Cell, th: Thread, a: Attempt, log: seq<Entry>, ret: seq<(Tid, Value)>)
    requires a.versions.Keys == {x}
    ensures Leads(Arena(x, cell, Free, th, Writing(x, cell.value, a, Queued(Commit(cell.value))), log, ret), Acquire(1),
                  Arena(x, cell, HeldBy(1), th, Writing(x, cell.value, a, Checking(Commit(cell.value), {x})), log, ret), 0)
  {}

  lemma WriterValidates(x: TVar, cell: Cell, th: Thread, a: Attempt, log: seq<Entry>, ret: seq<(Tid, Value)>)
    requires a.versions == map[x := cell.version]
    ensures Leads(Arena(x, cell, HeldBy(1), th, Writing(x, cell.value, a, Checking(Commit(cell.value), {x})), log, ret), Check(1, x),
                  Arena(x, cell, HeldBy(1), th, Writing(x, cell.value, a, Checking(Commit(cell.value), {})), log, ret), 0)
  {
    assert {x} - {x} == {};
  }

  ghost function WriterEntry(x: TVar, u: Value): Entry {
    Entry(1, Writer(x, u), u, map[x := u])
  }

  lemma WriterLogs(x: TVar, cell: Cell, th: Thread, a: Attempt, log: seq<Entry>, ret: seq<(Tid, Value)>)
    requires a.writes == map[x := cell.value]
    ensures Leads(Arena(x, cell, HeldBy(1), th, Writing(x, cell.value, a, Checking(Commit(cell.value), {})), log, ret), Decide(1),
                  Arena(x, cell, HeldBy(1), th, Writing(x, cell.value, a, Applying(cell.value, {x})),
                        log + [WriterEntry(x, cell.value)], ret), 0)
  {
    assert a.writes.Keys == {x};
  }

  lemma WriterAssigns(x: TVar, cell: Cell, th: Thread, a: Attempt, log: seq<Entry>, ret: seq<(Tid, Value)>)
    requires a.writes == map[x := cell.value]
    ensures Leads(Arena(x, cell, HeldBy(1), th, Writing(x, cell.value, a, Applying(cell.value, {x})), log, ret), Assign(1, x),
                  Arena(x, cell, HeldBy(1), th, Writing(x, cell.value, a, Bumping(cell.value, {}, x)), log, ret), 0)
  {
    assert {x} - {x} == {};
  }

  lemma WriterBumps(x: TVar, cell: Cell, th: Thread, a: Attempt, log: seq<Entry>, ret: seq<(Tid, Value)>)
    ensures Leads(Arena(x, cell, HeldBy(1), th, Writing(x, cell.value, a, Bumping(cell.value, {}, x)), log, ret), Bump(1),
                  Arena(x, cell.(version := cell.version + 1), HeldBy(1), th,
                        Writing(x, cell.value, a, Applying(cell.value, {})), log, ret), 0)
  {}

  lemma WriterFinishes(x: TVar, cell: Cell, th: Thread, a: Attempt, log: seq<Entry>, ret: seq<(Tid, Value)>)
    requires th.Active? && !th.phase.Parked?
    ensures Leads(Arena(x, cell, HeldBy(1), th, Writing(x, cell.value, a, Applying(cell.value, {})), log, ret), Finish(1),
                  Arena(x, cell, Free, th, Idle, log, ret + [(1, cell.value)]), 0)
  {}

  lemma ReaderReturns(x: TVar, cell: Cell, max: nat, tries: nat, a: Attempt, log: seq<Entry>, ret: seq<(Tid, Value)>)
    requires |a.trace| == 1 && a.trace[0].v == cell.value
    ensures Leads(Arena(x, cell, Free, Try(x, max, tries, a, Running), Idle, log, ret), Act(0),
                  Arena(x, cell, Free, Try(x, max, tries, a, Queued(Commit(cell.value))), Idle, log, ret), 0)
  {}

  lemma ReaderLocks(x: TVar, cell: Cell, max: nat, tries: nat, a: Attempt, log: seq<Entry>, ret: seq<(Tid, Value)>)
    requires a.versions.Keys == {x}
    ensures Leads(Arena(x, cell, Free, Try(x, max, tries, a, Queued(Commit(cell.value))), Idle, log, ret), Acquire(0),
                  Arena(x, cell, HeldBy(0), Try(x, max, tries, a, Checking(Commit(cell.value), {x})), Idle, log, ret), 0)
  {}

  /** What a lost validation leaves: another try, or nothing. */
  ghost function NextTry(x: TVar, max: nat, tries: nat): Thread {
    if tries + 1 < max then Try(x, max, tries + 1, Fresh, Running) else Idle
  }

  lemma ReaderLoses(x: TVar, cell: Cell, max: nat, tries: nat, a: Attempt, log: seq<Entry>, ret: seq<(Tid, Value)>)
    requires x in a.versions && a.versions[x] != cell.version
    ensures Leads(Arena(x, cell, HeldBy(0), Try(x, max, tries, a, Checking(Commit(cell.value), {x})), Idle, log, ret), Check(0, x),
                  Arena(x, cell, Free, NextTry(x, max, tries), Idle, log, ret), 1)
  {}

  /** The writer stores what is already there, and the version moves on. */
  lemma WriterCommits(s0: State, run: seq<Step>, lost: nat, x: TVar, cell: Cell, th: Thread,
                      log: seq<Entry>, ret: seq<(Tid, Value)>) returns (steps: seq<Step>)
    requires th.Active? && !th.phase.Parked?
    requires Reaches(s0, run, Arena(x, cell, Free, th, Idle, log, ret), lost)
    ensures Reaches(s0, steps, Arena(x, cell.(version := cell.version + 1), Free, th, Idle,
                                     log + [WriterEntry(x, cell.value)], ret + [(1, cell.value)]), lost)
  {
    hide Reaches, Leads, Arena, Writing, Fresh;
    var u, a := cell.value, HasStaged(x, cell, |log|);
    WriterBegins(x, cell, th, log, ret);
    WriterStages(x, cell, th, log, ret);
    WriterReturns(x, cell, th, a, log, ret);
    WriterLocks(x, cell, th, a, log, ret);
    steps := run;
    ReachMore(s0, steps, Arena(x, cell, Free, th, Idle, log, ret), lost, Begin(1, Writer(x, u), 1),
              Arena(x, cell, Free, th, Writing(x, u, Fresh, Running), log, ret), 0);
    steps := steps + [Begin(1, Writer(x, u), 1)];
    ReachMore(s0, steps, Arena(x, cell, Free, th, Writing(x, u, Fresh, Running), log, ret), lost, Act(1),
              Arena(x, cell, Free, th, Writing(x, u, a, Running), log, ret), 0);
    steps := steps + [Act(1)];
    ReachMore(s0, steps, Arena(x, cell, Free, th, Writing(x, u, a, Running), log, ret), lost, Act(1),
              Arena(x, cell, Free, th, Writing(x, u, a, Queued(Commit(u))), log, ret), 0);
    steps := steps + [Act(1)];
    ReachMore(s0, steps, Arena(x, cell, Free, th, Writing(x, u, a, Queued(Commit(u))), log, ret), lost, Acquire(1),
              Arena(x, cell, HeldBy(1), th, Writing(x, u, a, Checking(Commit(u), {x})), log, ret), 0);
    steps := steps + [Acquire(1)];
    steps := WriterApplies(s0, steps, lost, x, cell, th, a, log, ret);
  }

  lemma WriterApplies(s0: State, run: seq<Step>, lost: nat, x: TVar, cell: Cell, th: Thread, a: Attempt,
                      log: seq<Entry>, ret: seq<(Tid, Value)>) returns (steps: seq<Step>)
    requires th.Active? && !th.phase.Parked? && a.versions == map[x := cell.version] && a.writes == map[x := cell.value]
    requires Reaches(s0, run, Arena(x, cell, HeldBy(1), th, Writing(x, cell.value, a, Checking(Commit(cell.value), {x})), log, ret), lost)
    ensures Reaches(s0, steps, Arena(x, cell.(version := cell.version + 1), Free, th, Idle,
                                     log + [WriterEntry(x, cell.value)], ret + [(1, cell.value)]), lost)
  {
    hide Reaches, Leads, Arena, Writing, WriterEntry;
    var u, next, log' := cell.value, cell.(version := cell.version + 1), log + [WriterEntry(x, cell.value)];
    WriterValidates(x, cell, th, a, log, ret);
    WriterLogs(x, cell, th, a, log, ret);
    WriterAssigns(x, cell, th, a, log', ret);
    WriterBumps(x, cell, th, a, log', ret);
    WriterFinishes(x, next, th, a, log', ret);
    steps := run;
    ReachMore(s0, steps, Arena(x, cell, HeldBy(1), th, Writing(x, u, a, Checking(Commit(u), {x})), log, ret), lost, Check(1, x),
              Arena(x, cell, HeldBy(1), th, Writing(x, u, a, Checking(Commit(u), {})), log, ret), 0);
    steps := steps + [Check(1, x)];
    ReachMore(s0, steps, Arena(x, cell, HeldBy(1), th, Writing(x, u, a, Checking(Commit(u), {})), log, ret), lost, Decide(1),
              Arena(x, cell, HeldBy(1), th, Writing(x, u, a, Applying(u, {x})), log', ret), 0);
    steps := steps + [Decide(1)];
    ReachMore(s0, steps, Arena(x, cell, HeldBy(1), th, Writing(x, u, a, Applying(u, {x})), log', ret), lost, Assign(1, x),
              Arena(x, cell, HeldBy(1), th, Writing(x, u, a, Bumping(u, {}, x)), log', ret), 0);
    steps := steps + [Assign(1, x)];
    ReachMore(s0, steps, Arena(x, cell, HeldBy(1), th, Writing(x, u, a, Bumping(u, {}, x)), log', ret), lost, Bump(1),
              Arena(x, next, HeldBy(1), th, Writing(x, u, a, Applying(u, {})), log', ret), 0);
    steps := steps + [Bump(1)];
    ReachMore(s0, steps, Arena(x, next, HeldBy(1), th, Writing(x, u, a, Applying(u, {})), log', ret), lost, Finish(1),
              Arena(x, next, Free, th, Idle, log', ret + [(1, u)]), 0);
    steps := steps + [Finish(1)];
  }

  /** One round: the reader reads, the writer commits, the reader loses. */
  lemma Round(s0: State, run: seq<Step>, lost: nat, x: TVar, cell: Cell, max: nat, tries: nat,
              log: seq<Entry>, ret: seq<(Tid, Value)>) returns (steps: seq<Step>)
    requires Reaches(s0, run, Arena(x, cell, Free, Try(x, max, tries, Fresh, Running), Idle, log, ret), lost)
    ensures Reaches(s0, steps, Arena(x, cell.(version := cell.version + 1), Free, NextTry(x, max, tries), Idle,
                                     log + [WriterEntry(x, cell.value)], ret + [(1, cell.value)]), lost + 1)
  {
    hide Reaches, Leads, Arena, Fresh, WriterEntry, NextTry;
    var u, a, next := cell.value, HasRead(x, cell, |log|), cell.(version := cell.version + 1);
    var log', ret' := log + [WriterEntry(x, u)], ret + [(1, u)];
    ReaderReads(x, cell, max, tries, log, ret);
    ReaderReturns(x, next, max, tries, a, log', ret');
    ReaderLocks(x, next, max, tries, a, log', ret');
    ReaderLoses(x, next, max, tries, a, log', ret');
    ReachMore(s0, run, Arena(x, cell, Free, Try(x, max, tries, Fresh, Running), Idle, log, ret), lost, Act(0),
              Arena(x, cell, Free, Try(x, max, tries, a, Running), Idle, log, ret), 0);
    steps := WriterCommits(s0, run + [Act(0)], lost, x, cell, Try(x, max, tries, a, Running), log, ret);
    ReachMore(s0, steps, Arena(x, next, Free, Try(x, max, tries, a, Running), Idle, log', ret'), lost, Act(0),
              Arena(x, next, Free, Try(x, max, tries, a, Queued(Commit(u))), Idle, log', ret'), 0);
    steps := steps + [Act(0)];
    ReachMore(s0, steps, Arena(x, next, Free, Try(x, max, tries, a, Queued(Commit(u))), Idle, log', ret'), lost, Acquire(0),
              Arena(x, next, HeldBy(0), Try(x, max, tries, a, Checking(Commit(u), {x})), Idle, log', ret'), 0);
    steps := steps + [Acquire(0)];
    ReachMore(s0, steps, Arena(x, next, HeldBy(0), Try(x, max, tries, a, Checking(Commit(u), {x})), Idle, log', ret'), lost, Check(0, x),
              Arena(x, next, Free, NextTry(x, max, tries), Idle, log', ret'), 1);
    steps := steps + [Check(0, x)];
  }

  ghost function Commits(x: TVar, u: Value, n: nat): seq<Entry> {
    if n == 0 then [] else Commits(x, u, n - 1) + [WriterEntry(x, u)]
  }

  ghost function Handed(u: Value, n: nat): seq<(Tid, Value)> {
    if n == 0 then [] else Handed(u, n - 1) + [(1, u)]
  }

  lemma {:induction false} AllByTheWriter(x: TVar, u: Value, n: nat)
    ensures |Commits(x, u, n)| == n == Others(Commits(x, u, n), 0)
    ensures forall p <- Handed(u, n) :: p.0 == 1
  {
    if n > 0 {
      AllByTheWriter(x, u, n - 1);
      var before := Commits(x, u, n - 1);
      assert Commits(x, u, n)[..n - 1] == before;
      assert x in WriterEntry(x, u).writes;
    }
  }

  /** The state after `n` rounds. */
  ghost function AfterRounds(x: TVar, u: Value, max: nat, n: nat): State {
    Arena(x, Cell(u, n), Free, if n < max then Try(x, max, n, Fresh, Running) else Idle, Idle, Commits(x, u, n), Handed(u, n))
  }

  lemma {:induction false} Rounds(s0: State, x: TVar, u: Value, max: nat, n: nat) returns (steps: seq<Step>)
    requires n <= max && max > 0 && s0 == Arena(x, Cell(u, 0), Free, Idle, Idle, [], [])
    ensures Reaches(s0, steps, AfterRounds(x, u, max, n), n)
  {
    if n == 0 {
      steps := [] + [Begin(0, Reader(x), max)];
      assert Reaches(s0, [], s0, 0);
      assert Leads(s0, Begin(0, Reader(x), max), AfterRounds(x, u, max, 0), 0);
      ReachMore(s0, [], s0, 0, Begin(0, Reader(x), max), AfterRounds(x, u, max, 0), 0);
    } else {
      hide Reaches, Arena, Fresh, WriterEntry;
      steps := Rounds(s0, x, u, max, n - 1);
      AllByTheWriter(x, u, n - 1);
      steps := Round(s0, steps, n - 1, x, Cell(u, n - 1), max, n - 1, Commits(x, u, n - 1), Handed(u, n - 1));
    }
  }

  /** The bound is reached, for every number of retries: a schedule on which a
      transaction that only reads one variable loses every attempt it has, to a
      writer that stores the value already there, and ends without a result.  The
      promise of no starvation holds only as far as other threads stop committing. */
  lemma TransactionsCanStarve(x: TVar, u: Value, max: nat) returns (s0: State, steps: seq<Step>)
    requires max > 0
    ensures Init(s0) && IsRun(s0, steps)
    ensures var s := After(s0, steps);
            && Losses(s0, steps, 0) == max == Others(s.log, 0)
            && s.threads == map[0 := Idle, 1 := Idle] && s.holder.Free?
            && forall p <- s.returned :: p.0 == 1
  {
    s0 := Arena(x, Cell(u, 0), Free, Idle, Idle, [], []);
    steps := Rounds(s0, x, u, max, max);
    AllByTheWriter(x, u, max);
  }
}
