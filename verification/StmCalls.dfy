// How a call of `atomically` goes: when it ends and with what, when it tries again,
// when it sleeps, and that left alone it commits.

module StmCalls {
  import opened Stm
  import opened StmProofs

  // ----- One step of a call --------------------------------------------------

  /** The step is a validation of `tid` that finds a newer version. */
  ghost predicate Loses(s: State, step: Step, tid: Tid)
    requires Enabled(s, step)
  {
    step.Check? && step.tid == tid && s.store[step.t].version != s.threads[tid].a.versions[step.t]
  }

  ghost predicate Finishes(s: State, s': State, step: Step, tid: Tid)
    requires tid in s.threads && s.threads[tid].Active?
  {
    var th := s.threads[tid];
    step == Finish(tid)
    && exists r :: th.body(Seen(th.a.trace)) == Return(r) && s'.returned == s.returned + [(tid, r)]
  }

  ghost predicate Raises(s: State, step: Step, tid: Tid)
    requires tid in s.threads && s.threads[tid].Active?
  {
    var th := s.threads[tid];
    step == Act(tid) && th.phase.Running? && th.body(Seen(th.a.trace)).Raise?
  }

  /** The step ends an attempt without a result. */
  ghost predicate FailsAttempt(s: State, step: Step, tid: Tid)
    requires Enabled(s, step)
  {
    step == Wake(tid) || Loses(s, step, tid)
  }

  /** What can end a call, by the kind of step. */
  lemma EndingSteps(s: State, step: Step, tid: Tid)
    requires Enabled(s, step) && tid in s.threads && s.threads[tid].Active?
    ensures tid in Do(s, step).threads
    ensures Do(s, step).threads[tid].Idle? <==>
              || step == Finish(tid)
              || Raises(s, step, tid)
              || (FailsAttempt(s, step, tid) && s.threads[tid].tries + 1 >= s.threads[tid].maxRetries)
  {}

  lemma FinishHandsBack(s0: State, s: State, tid: Tid)
    requires Inv(s0, s) && Enabled(s, Finish(tid))
    ensures Finishes(s, Do(s, Finish(tid)), Finish(tid), tid)
  {
    assert TidOk(s0, s, tid);
    var th := s.threads[tid];
    assert th.body(Seen(th.a.trace)) == Return(th.phase.r);
    hide Inv, LocksOk, StoreOk, LogOk, ParkedOk, ThreadsOk;
  }

  lemma FinishesIsFinish(s: State, s': State, step: Step, tid: Tid)
    requires tid in s.threads && s.threads[tid].Active?
    ensures Finishes(s, s', step, tid) ==> step == Finish(tid)
  {}

  /** A call of `atomically` ends in one of three ways: it hands back the result that
      its body returned, its body raises, or its last attempt fails. */
  lemma CallsEndExactly(s0: State, steps: seq<Step>, step: Step, tid: Tid)
    requires Init(s0) && IsRun(s0, steps) && Enabled(After(s0, steps), step)
    requires tid in After(s0, steps).threads && After(s0, steps).threads[tid].Active?
    ensures var s := After(s0, steps); var s', th := Do(s, step), s.threads[tid];
            && tid in s'.threads
            && (s'.threads[tid].Idle? <==>
                  || Finishes(s, s', step, tid)
                  || Raises(s, step, tid)
                  || (FailsAttempt(s, step, tid) && th.tries + 1 >= th.maxRetries))
  {
    hide *;
    RunKeeps(s0, steps);
    var s := After(s0, steps);
    EndingSteps(s, step, tid);
    FinishesIsFinish(s, Do(s, step), step, tid);
    if step == Finish(tid) {
      FinishHandsBack(s0, s, tid);
    }
  }

  /** A call keeps its body and its number of retries. A failed attempt is followed
      by a fresh one; every other step goes on with the same attempt. */
  lemma AttemptsGoOn(s: State, step: Step, tid: Tid)
    requires Enabled(s, step) && tid in s.threads && s.threads[tid].Active?
    requires tid in Do(s, step).threads && Do(s, step).threads[tid].Active?
    ensures var th, th' := s.threads[tid], Do(s, step).threads[tid];
            && th'.body == th.body && th'.maxRetries == th.maxRetries
            && (FailsAttempt(s, step, tid) ==>
                  th'.tries == th.tries + 1 < th.maxRetries && th'.a == Attempt(map[], map[], [], map[]) && th'.phase == Running)
            && (!FailsAttempt(s, step, tid) ==> th'.tries == th.tries && th.a.trace <= th'.a.trace)
  {}

  /** A call begins with its first attempt, if it has any. */
  lemma CallsBegin(s: State, tid: Tid, body: Body, max: nat)
    requires Enabled(s, Begin(tid, body, max))
    ensures Do(s, Begin(tid, body, max))
            == s.(threads := s.threads[tid := if max > 0 then Active(body, max, 0, Attempt(map[], map[], [], map[]), Running) else Idle])
  {}

  // ----- Sleeping ----------------------------------------------------------------

  ghost predicate Sleeps(s: State, tid: Tid) {
    tid in s.threads && s.threads[tid].Active? && s.threads[tid].phase.Parked?
  }

  lemma OnlyDecisionsPark(s: State, step: Step, tid: Tid)
    requires Enabled(s, step) && tid in s.threads && !Sleeps(s, tid)
    ensures Sleeps(Do(s, step), tid) <==> step == Decide(tid) && s.threads[tid].phase.goal.Wait?
  {}

  lemma DecidedThread(s0: State, s: State, tid: Tid)
    requires Inv(s0, s) && Enabled(s, Decide(tid))
    ensures var th := s.threads[tid];
            && (th.phase.goal.Wait? <==> th.body(Seen(th.a.trace)).Retry?)
            && th.a.versions.Keys <= s.store.Keys && AllCurrent(th.a, s.store)
  {
    assert TidOk(s0, s, tid);
    assert s.threads[tid].a.versions.Keys - {} == s.threads[tid].a.versions.Keys;
  }

  lemma FallsAsleep(s0: State, s: State, step: Step, tid: Tid)
    requires Inv(s0, s) && Enabled(s, step) && tid in s.threads && !Sleeps(s, tid)
    ensures Sleeps(Do(s, step), tid) ==>
              var th := s.threads[tid];
              && step == Decide(tid) && th.Active? && th.body(Seen(th.a.trace)).Retry?
              && th.a.versions.Keys <= s.store.Keys && AllCurrent(th.a, s.store)
    ensures step == Decide(tid) && s.threads[tid].body(Seen(s.threads[tid].a.trace)).Retry? ==> Sleeps(Do(s, step), tid)
  {
    OnlyDecisionsPark(s, step, tid);
    if step == Decide(tid) {
      DecidedThread(s0, s, tid);
    }
    hide Inv, Do, AllCurrent, Sleeps;
  }

  lemma WakesUp(s: State, step: Step, tid: Tid)
    requires Enabled(s, step) && Sleeps(s, tid) && tid in Do(s, step).threads
    ensures !Sleeps(Do(s, step), tid) <==>
              step == Timeout(tid) || (step.Finish? && s.threads[step.tid].a.writes != map[])
    ensures !Sleeps(Do(s, step), tid) ==> Do(s, step).threads[tid] == s.threads[tid].(phase := Waking)
  {}

  lemma ThreadsRemain(s: State, step: Step)
    requires Enabled(s, step)
    ensures Do(s, step).threads.Keys == s.threads.Keys
  {}

  lemma SleepersDoNotDecide(s: State, step: Step, tid: Tid)
    requires Enabled(s, step) && Sleeps(s, tid)
    ensures step != Decide(tid)
  {}

  /** A transaction sleeps exactly from the decision of an attempt that asked to retry,
      with everything it has read unchanged, until another one that wrote something
      has finished, or the timeout. It then runs again. */
  lemma SleepsUntilAWrite(s0: State, steps: seq<Step>, step: Step, tid: Tid)
    requires Init(s0) && IsRun(s0, steps) && Enabled(After(s0, steps), step) && tid in After(s0, steps).threads
    ensures var s := After(s0, steps); var s', th := Do(s, step), s.threads[tid];
            && tid in s'.threads
            && (!Sleeps(s, tid) && Sleeps(s', tid) ==>
                  && step == Decide(tid) && th.Active? && th.body(Seen(th.a.trace)).Retry?
                  && th.a.versions.Keys <= s.store.Keys && AllCurrent(th.a, s.store))
            && (step == Decide(tid) && th.body(Seen(th.a.trace)).Retry? ==> Sleeps(s', tid))
            && (Sleeps(s, tid) ==>
                  (!Sleeps(s', tid) <==> step == Timeout(tid) || (step.Finish? && s.threads[step.tid].a.writes != map[])))
            && (Sleeps(s, tid) && !Sleeps(s', tid) ==> s'.threads[tid] == th.(phase := Waking))
  {
    RunKeeps(s0, steps);
    var s := After(s0, steps);
    ThreadsRemain(s, step);
    hide Inv, Do, AllCurrent, IsRun, After;
    if Sleeps(s, tid) {
      WakesUp(s, step, tid);
      SleepersDoNotDecide(s, step, tid);
    } else {
      FallsAsleep(s0, s, step, tid);
    }
  }

  // ----- Left alone, a transaction commits ------------------------------------------

  ghost predicate Path(s: State, steps: seq<Step>, s': State) {
    IsRun(s, steps) && After(s, steps) == s'
  }

  /** Steps of one thread, none of which is a timeout. */
  ghost predicate AllBy(steps: seq<Step>, tid: Tid) {
    forall step <- steps :: step.tid == tid && !step.Timeout?
  }

  lemma NoPath(s: State)
    ensures Path(s, [], s)
  {}

  lemma OneStep(s: State, step: Step)
    requires Enabled(s, step)
    ensures Path(s, [step], Do(s, step)) && (!step.Timeout? ==> AllBy([step], step.tid))
  {
    assert [step][..0] == [];
    assert IsRun(s, []) && After(s, []) == s;
  }

  lemma {:induction false} PathJoin(s: State, a: seq<Step>, m: State, b: seq<Step>, e: State)
    requires Path(s, a, m) && Path(m, b, e)
    ensures Path(s, a + b, e)
    decreases |b|
  {
    if b == [] {
      assert a + b == a;
    } else {
      var front := b[..|b| - 1];
      PathJoin(s, a, m, front, After(m, front));
      assert (a + b)[..|a + b| - 1] == a + front;
    }
  }

  lemma PathCons(s: State, step: Step, m: State, b: seq<Step>, e: State)
    requires Enabled(s, step) && Do(s, step) == m && Path(m, b, e) && AllBy(b, step.tid) && !step.Timeout?
    ensures Path(s, [step] + b, e) && AllBy([step] + b, step.tid)
  {
    OneStep(s, step);
    PathJoin(s, [step], m, b, e);
  }

  /** An attempt nothing of which is out of date. */
  ghost predicate UpToDate(a: Attempt, store: Store) {
    a.versions.Keys <= store.Keys && a.writes.Keys <= a.versions.Keys && AllCurrent(a, store)
  }

  ghost predicate Unlocked(s: State) {
    s.holder.Free? && MidWrite(s) == {} && Unbumped(s) == {}
  }

  lemma FreeIsUnlocked(s: State)
    requires s.holder.Free?
    ensures Unlocked(s)
  {}

  lemma {:induction false} WritesStay(body: Body, vals: map<TVar, Value>, seen: seq<Value>, writes: map<TVar, Value>, fuel: nat)
    ensures var out := RunAlone(body, vals, seen, writes, fuel); out.Returned? ==> writes.Keys <= out.writes.Keys
    decreases fuel
  {
    if fuel > 0 {
      match body(seen)
      case Write(t, v) => WritesStay(body, vals, seen + [v], writes[t := v], fuel - 1);
      case Read(t) =>
        if t in writes { WritesStay(body, vals, seen + [writes[t]], writes, fuel - 1); }
        else if t in vals { WritesStay(body, vals, seen + [vals[t]], writes, fuel - 1); }
      case _ =>
    }
  }

  lemma NotedStaysUpToDate(a: Attempt, store: Store, t: TVar, at: nat)
    requires UpToDate(a, store) && t in store
    ensures UpToDate(NoteRead(a, t, store[t].version, at), store)
    ensures t in NoteRead(a, t, store[t].version, at).versions
    ensures NoteRead(a, t, store[t].version, at).writes == a.writes
  {}

  lemma SeenMore(trace: Trace, e: Event)
    ensures Seen(trace + [e]) == Seen(trace) + [e.v]
  {}

  /** One action of a thread that is alone: it does what the body does alone. */
  lemma ActAlone(s: State, tid: Tid, th: Thread, r: Value, w: map<TVar, Value>, fuel: nat) returns (th': Thread)
    requires tid in s.threads && s.threads[tid] == th && th.Active? && th.phase.Running? && Unlocked(s)
    requires UpToDate(th.a, s.store) && w.Keys <= s.store.Keys && fuel > 0
    requires RunAlone(th.body, Values(s.store), Seen(th.a.trace), th.a.writes, fuel) == Returned(r, w)
    requires !th.body(Seen(th.a.trace)).Return?
    ensures Enabled(s, Act(tid)) && Do(s, Act(tid)) == Put(s, tid, th')
    ensures th'.Active? && th' == th.(a := th'.a) && UpToDate(th'.a, s.store)
    ensures RunAlone(th.body, Values(s.store), Seen(th'.a.trace), th'.a.writes, fuel - 1) == Returned(r, w)
  {
    var a := th.a;
    match th.body(Seen(a.trace)) {
      case Write(t, v) =>
        WritesStay(th.body, Values(s.store), Seen(a.trace) + [v], a.writes[t := v], fuel - 1);
        assert t in s.store;
        NotedStaysUpToDate(a, s.store, t, LogPoint(s, t));
        SeenMore(a.trace, Staged(t, v));
      case Read(t) =>
        if t in a.writes {
          SeenMore(a.trace, Own(t, a.writes[t]));
        } else {
          NotedStaysUpToDate(a, s.store, t, LogPoint(s, t));
          SeenMore(a.trace, Shared(t, s.store[t].value));
        }
    }
    th' := Perform(s, th);
  }

  ghost function Queue(th: Thread, a: Attempt, r: Value): Thread
    requires th.Active?
  {
    th.(a := a, phase := Queued(Commit(r)))
  }

  lemma PutTwice(s: State, tid: Tid, th: Thread, th': Thread)
    ensures Put(Put(s, tid, th), tid, th') == Put(s, tid, th')
  {
    assert s.threads[tid := th][tid := th'] == s.threads[tid := th'];
  }

  lemma PutKeepsUnlocked(s: State, tid: Tid, th: Thread)
    requires Unlocked(s)
    ensures Unlocked(Put(s, tid, th))
  {}

  /** The body runs to its end and asks for the lock. */
  lemma {:induction false} RunsBody(s: State, tid: Tid, th: Thread, r: Value, w: map<TVar, Value>, fuel: nat)
    returns (steps: seq<Step>, a: Attempt)
    requires tid in s.threads && s.threads[tid] == th && th.Active? && th.phase.Running? && Unlocked(s)
    requires UpToDate(th.a, s.store) && w.Keys <= s.store.Keys
    requires RunAlone(th.body, Values(s.store), Seen(th.a.trace), th.a.writes, fuel) == Returned(r, w)
    ensures Path(s, steps, Put(s, tid, Queue(th, a, r))) && AllBy(steps, tid)
    ensures a.writes == w && UpToDate(a, s.store)
    decreases fuel
  {
    hide UpToDate, Path, AllBy, Unlocked;
    if th.body(Seen(th.a.trace)).Return? {
      a := th.a;
      steps := [Act(tid)];
      OneStep(s, Act(tid));
    } else {
      var th' := ActAlone(s, tid, th, r, w, fuel);
      var s1 := Put(s, tid, th');
      PutKeepsUnlocked(s, tid, th');
      steps, a := RunsBody(s1, tid, th', r, w, fuel - 1);
      PutTwice(s, tid, th', Queue(th, a, r));
      PathCons(s, Act(tid), s1, steps, Put(s, tid, Queue(th, a, r)));
      steps := [Act(tid)] + steps;
    }
  }

  ghost function Locked(s: State, tid: Tid, th: Thread, phase: Phase): State
    requires th.Active?
  {
    Put(s, tid, th.(phase := phase)).(holder := HeldBy(tid))
  }

  lemma CheckAlone(s: State, tid: Tid, th: Thread, goal: Goal, left: set<TVar>, t: TVar)
    requires tid in s.threads && th.Active? && UpToDate(th.a, s.store) && left <= th.a.versions.Keys && t in left
    ensures var s1 := Locked(s, tid, th, Checking(goal, left));
            Enabled(s1, Check(tid, t)) && Do(s1, Check(tid, t)) == Locked(s, tid, th, Checking(goal, left - {t}))
  {
    PutTwice(s, tid, th.(phase := Checking(goal, left)), th.(phase := Checking(goal, left - {t})));
  }

  lemma {:induction false} Validates(s: State, tid: Tid, th: Thread, goal: Goal, left: set<TVar>) returns (steps: seq<Step>)
    requires tid in s.threads && th.Active? && UpToDate(th.a, s.store) && left <= th.a.versions.Keys
    ensures Path(Locked(s, tid, th, Checking(goal, left)), steps, Locked(s, tid, th, Checking(goal, {}))) && AllBy(steps, tid)
    decreases left
  {
    if left == {} {
      steps := [];
      NoPath(Locked(s, tid, th, Checking(goal, left)));
    } else {
      var t :| t in left;
      CheckAlone(s, tid, th, goal, left, t);
      hide UpToDate, Path, AllBy, Locked, Enabled, Do;
      steps := Validates(s, tid, th, goal, left - {t});
      PathCons(Locked(s, tid, th, Checking(goal, left)), Check(tid, t), Locked(s, tid, th, Checking(goal, left - {t})),
               steps, Locked(s, tid, th, Checking(goal, {})));
      steps := [Check(tid, t)] + steps;
    }
  }

  /** The store with the writes `w` to the variables in `ts` made: the value stored
      and the version raised by one. */
  ghost function Written(store: Store, w: map<TVar, Value>, ts: set<TVar>): Store
    requires ts <= w.Keys
  {
    map t | t in store :: if t in ts then Cell(w[t], store[t].version + 1) else store[t]
  }

  ghost function Applied(s: State, tid: Tid, th: Thread, r: Value, left: set<TVar>): State
    requires th.Active? && left <= th.a.writes.Keys
  {
    Locked(s, tid, th, Applying(r, left)).(store := Written(s.store, th.a.writes, th.a.writes.Keys - left))
  }

  lemma WriteAlone(s: State, tid: Tid, th: Thread, r: Value, left: set<TVar>, t: TVar) returns (m: State)
    requires tid in s.threads && th.Active? && left <= th.a.writes.Keys <= s.store.Keys && t in left
    ensures Enabled(Applied(s, tid, th, r, left), Assign(tid, t)) && m == Do(Applied(s, tid, th, r, left), Assign(tid, t))
    ensures Enabled(m, Bump(tid)) && Do(m, Bump(tid)) == Applied(s, tid, th, r, left - {t})
  {
    m := Assigned(Applied(s, tid, th, r, left), tid, t);
    var e := Bumped(m, tid);
    var goal := Applied(s, tid, th, r, left - {t});
    assert e.threads == goal.threads;
    assert e.store == goal.store;
  }

  lemma {:induction false} Applies(s: State, tid: Tid, th: Thread, r: Value, left: set<TVar>) returns (steps: seq<Step>)
    requires tid in s.threads && th.Active? && left <= th.a.writes.Keys <= s.store.Keys
    ensures Path(Applied(s, tid, th, r, left), steps, Applied(s, tid, th, r, {})) && AllBy(steps, tid)
    decreases left
  {
    if left == {} {
      steps := [];
      NoPath(Applied(s, tid, th, r, left));
    } else {
      var t :| t in left;
      var m := WriteAlone(s, tid, th, r, left, t);
      hide Path, AllBy, Applied, Enabled, Do;
      steps := Applies(s, tid, th, r, left - {t});
      PathCons(m, Bump(tid), Applied(s, tid, th, r, left - {t}), steps, Applied(s, tid, th, r, {}));
      steps := [Bump(tid)] + steps;
      PathCons(Applied(s, tid, th, r, left), Assign(tid, t), m, steps, Applied(s, tid, th, r, {}));
      steps := [Assign(tid, t)] + steps;
    }
  }

  /** The threads after `tid` has finished: it is idle, and if it wrote something the
      sleeping ones are awake. */
  ghost predicate Served(before: map<Tid, Thread>, after: map<Tid, Thread>, tid: Tid, wrote: bool) {
    && after.Keys == before.Keys && tid in before && after[tid].Idle?
    && forall id <- before | id != tid ::
         after[id] == if wrote && before[id].Active? && before[id].phase.Parked? then before[id].(phase := Waking)
                      else before[id]
  }

  /** `s'` is `s` after `tid` has committed `w` with result `r`. */
  ghost predicate CommittedBy(s: State, s': State, tid: Tid, body: Body, r: Value, w: map<TVar, Value>) {
    && s'.store == Written(s.store, w, w.Keys) && s'.holder.Free?
    && s'.log == s.log + [Entry(tid, body, r, w)] && s'.returned == s.returned + [(tid, r)]
    && Served(s.threads, s'.threads, tid, w != map[])
  }

  lemma FinishAlone(s: State, tid: Tid, th: Thread, r: Value)
    requires tid in s.threads && th.Active? && Unlocked(s) && th.a.writes.Keys <= s.store.Keys
    ensures var e := Applied(s.(log := s.log + [Entry(tid, th.body, r, th.a.writes)]), tid, th, r, {});
            Enabled(e, Finish(tid)) && CommittedBy(s, Do(e, Finish(tid)), tid, th.body, r, th.a.writes)
  {}

  lemma AcquireAlone(s: State, tid: Tid, th: Thread, a: Attempt, r: Value)
    requires tid in s.threads && th.Active? && Unlocked(s)
    ensures var q := Put(s, tid, Queue(th, a, r));
            Enabled(q, Acquire(tid)) && Do(q, Acquire(tid)) == Locked(s, tid, th.(a := a), Checking(Commit(r), a.versions.Keys))
  {
    PutTwice(s, tid, Queue(th, a, r), th.(a := a, phase := Checking(Commit(r), a.versions.Keys)));
  }

  lemma DecideAlone(s: State, tid: Tid, th: Thread, r: Value)
    requires tid in s.threads && th.Active? && Unlocked(s)
    ensures var c := Locked(s, tid, th, Checking(Commit(r), {}));
            && Enabled(c, Decide(tid))
            && Do(c, Decide(tid)) == Applied(s.(log := s.log + [Entry(tid, th.body, r, th.a.writes)]), tid, th, r, th.a.writes.Keys)
  {
    PutTwice(s, tid, th.(phase := Checking(Commit(r), {})), th.(phase := Applying(r, th.a.writes.Keys)));
    assert Written(s.store, th.a.writes, {}) == s.store;
    assert th.a.writes.Keys - th.a.writes.Keys == {};
  }

  /** From the queue to the end of the call. */
  lemma CommitsAlone(s: State, tid: Tid, th: Thread, a: Attempt, r: Value) returns (steps: seq<Step>, s': State)
    requires tid in s.threads && th.Active? && Unlocked(s) && UpToDate(a, s.store)
    ensures Path(Put(s, tid, Queue(th, a, r)), steps, s') && AllBy(steps, tid)
    ensures CommittedBy(s, s', tid, th.body, r, a.writes)
  {
    hide Path, AllBy, Locked, Applied, Enabled, Do, Queue, CommittedBy;
    assert a.writes.Keys <= s.store.Keys;
    var on := th.(a := a);
    var logged := s.(log := s.log + [Entry(tid, th.body, r, a.writes)]);
    AcquireAlone(s, tid, th, a, r);
    DecideAlone(s, tid, on, r);
    FinishAlone(s, tid, on, r);
    var checks := Validates(s, tid, on, Commit(r), a.versions.Keys);
    var writes := Applies(logged, tid, on, r, a.writes.Keys);
    var e := Applied(logged, tid, on, r, {});
    s' := Do(e, Finish(tid));
    OneStep(e, Finish(tid));
    steps := Join(Applied(logged, tid, on, r, a.writes.Keys), writes, e, [Finish(tid)], s', tid);
    PathCons(Locked(s, tid, on, Checking(Commit(r), {})), Decide(tid), Applied(logged, tid, on, r, a.writes.Keys), steps, s');
    steps := [Decide(tid)] + steps;
    steps := Join(Locked(s, tid, on, Checking(Commit(r), a.versions.Keys)), checks, Locked(s, tid, on, Checking(Commit(r), {})), steps, s', tid);
    PathCons(Put(s, tid, Queue(th, a, r)), Acquire(tid), Locked(s, tid, on, Checking(Commit(r), a.versions.Keys)), steps, s');
    steps := [Acquire(tid)] + steps;
  }

  lemma Join(s: State, a: seq<Step>, m: State, b: seq<Step>, e: State, tid: Tid) returns (steps: seq<Step>)
    requires Path(s, a, m) && Path(m, b, e) && AllBy(a, tid) && AllBy(b, tid)
    ensures Path(s, steps, e) && AllBy(steps, tid)
  {
    PathJoin(s, a, m, b, e);
    steps := a + b;
  }

  /** Left alone, a transaction commits: whenever the lock is free, a thread that
      starts an attempt whose body, run alone on the store, returns `r` with writes
      `w` to existing variables, can by its own steps make exactly these writes, raise
      their versions, hand back `r`, and wake the sleepers if it wrote anything. */
  lemma LeftAloneItCommits(s: State, tid: Tid, r: Value, w: map<TVar, Value>) returns (steps: seq<Step>, s': State)
    requires tid in s.threads && s.threads[tid].Active? && s.threads[tid].phase.Running? && s.holder.Free?
    requires s.threads[tid].a == Attempt(map[], map[], [], map[])
    requires Serially(s.threads[tid].body, Values(s.store), r, w) && w.Keys <= s.store.Keys
    ensures Path(s, steps, s') && AllBy(steps, tid)
    ensures CommittedBy(s, s', tid, s.threads[tid].body, r, w)
  {
    var th := s.threads[tid];
    var fuel: nat :| RunAlone(th.body, Values(s.store), [], map[], fuel) == Returned(r, w);
    assert Seen([]) == [];
    FreeIsUnlocked(s);
    var acts, a := RunsBody(s, tid, th, r, w, fuel);
    steps, s' := CommitsAlone(s, tid, th, a, r);
    steps := Join(s, acts, Put(s, tid, Queue(th, a, r)), steps, s', tid);
  }

  // ----- A sleeping transaction is woken and runs again --------------------------------

  lemma WrittenValues(store: Store, w: map<TVar, Value>)
    requires w.Keys <= store.Keys
    ensures Values(Written(store, w, w.Keys)) == Values(store) + w
  {}

  lemma WakesToNextTry(s: State, tid: Tid)
    requires tid in s.threads && s.threads[tid].Active? && s.threads[tid].phase.Waking? && s.holder.Free?
    requires s.threads[tid].tries + 1 < s.threads[tid].maxRetries
    ensures Enabled(s, Wake(tid))
    ensures var th := s.threads[tid];
            Do(s, Wake(tid)) == Put(s, tid, Active(th.body, th.maxRetries, th.tries + 1, Attempt(map[], map[], [], map[]), Running))
  {}

  lemma NoTimeout(a: seq<Step>, b: seq<Step>, tid: Tid, other: Tid)
    requires AllBy(a, other) && AllBy(b, tid)
    ensures forall step <- a + [Wake(tid)] + b :: !step.Timeout?
  {}

  /** After the other's commit the sleeper is awake and takes its next try. */
  lemma WokenForNextTry(s: State, m: State, tid: Tid, other: Tid, r1: Value, w1: map<TVar, Value>) returns (n: State)
    requires Sleeps(s, tid) && s.threads[tid].tries + 1 < s.threads[tid].maxRetries && other != tid
    requires other in s.threads && s.threads[other].Active? && w1 != map[]
    requires CommittedBy(s, m, other, s.threads[other].body, r1, w1)
    ensures Enabled(m, Wake(tid)) && n == Do(m, Wake(tid))
    ensures n.store == m.store && n.holder.Free? && n.returned == m.returned && tid in n.threads
    ensures var th := s.threads[tid];
            n.threads[tid] == Active(th.body, th.maxRetries, th.tries + 1, Attempt(map[], map[], [], map[]), Running)
  {
    WakesToNextTry(m, tid);
    n := Do(m, Wake(tid));
  }

  /** What `retry` is for: a transaction sleeps with a retry left, another one commits
      `w1`, which it is then notified of, and it runs again, on the store as it now is. */
  lemma SleeperIsServed(s: State, tid: Tid, other: Tid, r1: Value, w1: map<TVar, Value>, r2: Value, w2: map<TVar, Value>)
    returns (steps: seq<Step>, s': State)
    requires s.holder.Free? && Sleeps(s, tid) && s.threads[tid].tries + 1 < s.threads[tid].maxRetries
    requires other != tid && other in s.threads && s.threads[other].Active? && s.threads[other].phase.Running?
    requires s.threads[other].a == Attempt(map[], map[], [], map[])
    requires Serially(s.threads[other].body, Values(s.store), r1, w1) && w1 != map[] && w1.Keys <= s.store.Keys
    requires Serially(s.threads[tid].body, Values(s.store) + w1, r2, w2) && w2.Keys <= s.store.Keys
    ensures Path(s, steps, s') && forall step <- steps :: !step.Timeout?
    ensures tid in s'.threads && s'.threads[tid].Idle? && s'.returned == s.returned + [(other, r1), (tid, r2)]
    ensures s'.store.Keys == s.store.Keys && Values(s'.store) == Values(s.store) + w1 + w2
  {
    hide Path, Serially, AllBy;
    var commit, m := LeftAloneItCommits(s, other, r1, w1);
    WrittenValues(s.store, w1);
    var n := WokenForNextTry(s, m, tid, other, r1, w1);
    OneStep(m, Wake(tid));
    PathJoin(s, commit, m, [Wake(tid)], n);
    var again;
    again, s' := LeftAloneItCommits(n, tid, r2, w2);
    hide Enabled, Do;
    WrittenValues(n.store, w2);
    PathJoin(s, commit + [Wake(tid)], n, again, s');
    NoTimeout(commit, again, tid, other);
    steps := commit + [Wake(tid)] + again;
    assert s.returned + [(other, r1)] + [(tid, r2)] == s.returned + [(other, r1), (tid, r2)];
  }

  /** Waits until the variable is no longer empty, and returns what it holds. */
  ghost function Taker(x: TVar, empty: Value): Body {
    seen => if |seen| == 0 then Read(x) else if seen[0] == empty then Retry else Return(seen[0])
  }

  ghost function Writer(x: TVar, v: Value): Body {
    seen => if |seen| == 0 then Write(x, v) else Return(v)
  }

  ghost function Shop(x: TVar, empty: Value, th0: Thread, th1: Thread, holder: Holder): State {
    State(map[x := Cell(empty, 0)], holder, map[0 := th0, 1 := th1], [], [])
  }

  ghost function Looked(x: TVar, empty: Value): Attempt {
    Attempt(map[x := 0], map[], [Shared(x, empty)], map[x := 0])
  }

  lemma TakerReads(x: TVar, empty: Value, max: nat)
    ensures var s, body := Shop(x, empty, Active(Taker(x, empty), max, 0, Fresh, Running), Idle, Free), Taker(x, empty);
            Enabled(s, Act(0)) && Do(s, Act(0)) == Shop(x, empty, Active(body, max, 0, Looked(x, empty), Running), Idle, Free)
  {
    var s := Shop(x, empty, Active(Taker(x, empty), max, 0, Fresh, Running), Idle, Free);
    assert Seen([]) == [] && MidWrite(s) == {} && LogPoint(s, x) == 0;
    assert Perform(s, s.threads[0]) == Active(Taker(x, empty), max, 0, Looked(x, empty), Running);
  }

  lemma TakerAsks(x: TVar, empty: Value, max: nat)
    ensures var s, body := Shop(x, empty, Active(Taker(x, empty), max, 0, Looked(x, empty), Running), Idle, Free), Taker(x, empty);
            Enabled(s, Act(0)) && Do(s, Act(0)) == Shop(x, empty, Active(body, max, 0, Looked(x, empty), Queued(Wait)), Idle, Free)
  {
    assert Seen([Shared(x, empty)]) == [empty];
  }

  /** The taker finds the variable empty and queues to wait. */
  lemma TakerLooks(x: TVar, empty: Value, max: nat) returns (steps: seq<Step>)
    requires max > 0
    ensures Path(Shop(x, empty, Idle, Idle, Free), steps,
                 Shop(x, empty, Active(Taker(x, empty), max, 0, Looked(x, empty), Queued(Wait)), Idle, Free))
    ensures AllBy(steps, 0)
  {
    var body, a := Taker(x, empty), Looked(x, empty);
    var s0, s1 := Shop(x, empty, Idle, Idle, Free), Shop(x, empty, Active(body, max, 0, Fresh, Running), Idle, Free);
    var s2, s3 := Shop(x, empty, Active(body, max, 0, a, Running), Idle, Free), Shop(x, empty, Active(body, max, 0, a, Queued(Wait)), Idle, Free);
    assert Enabled(s0, Begin(0, body, max)) && Do(s0, Begin(0, body, max)) == s1;
    TakerReads(x, empty, max);
    TakerAsks(x, empty, max);
    hide Path, AllBy, Shop, Enabled, Do;
    OneStep(s2, Act(0));
    PathCons(s1, Act(0), s2, [Act(0)], s3);
    PathCons(s0, Begin(0, body, max), s1, [Act(0)] + [Act(0)], s3);
    steps := [Begin(0, body, max)] + ([Act(0)] + [Act(0)]);
  }

  ghost function Waiting(x: TVar, empty: Value, max: nat, phase: Phase, holder: Holder): State {
    Shop(x, empty, Active(Taker(x, empty), max, 0, Looked(x, empty), phase), Idle, holder)
  }

  lemma TakerLocks(x: TVar, empty: Value, max: nat)
    ensures var s := Waiting(x, empty, max, Queued(Wait), Free);
            Enabled(s, Acquire(0)) && Do(s, Acquire(0)) == Waiting(x, empty, max, Checking(Wait, {x}), HeldBy(0))
  {
    assert Looked(x, empty).versions.Keys == {x};
  }

  lemma TakerChecks(x: TVar, empty: Value, max: nat)
    ensures var s := Waiting(x, empty, max, Checking(Wait, {x}), HeldBy(0));
            Enabled(s, Check(0, x)) && Do(s, Check(0, x)) == Waiting(x, empty, max, Checking(Wait, {}), HeldBy(0))
  {
    assert {x} - {x} == {};
  }

  lemma TakerParks(x: TVar, empty: Value, max: nat)
    ensures var s := Waiting(x, empty, max, Checking(Wait, {}), HeldBy(0));
            Enabled(s, Decide(0)) && Do(s, Decide(0)) == Waiting(x, empty, max, Parked, Free)
  {}

  /** It takes the lock, finds nothing changed, and sleeps. */
  lemma TakerSleeps(x: TVar, empty: Value, max: nat) returns (steps: seq<Step>)
    ensures Path(Waiting(x, empty, max, Queued(Wait), Free), steps, Waiting(x, empty, max, Parked, Free)) && AllBy(steps, 0)
  {
    hide Path, AllBy, Waiting, Enabled, Do;
    TakerLocks(x, empty, max);
    TakerChecks(x, empty, max);
    TakerParks(x, empty, max);
    OneStep(Waiting(x, empty, max, Checking(Wait, {}), HeldBy(0)), Decide(0));
    PathCons(Waiting(x, empty, max, Checking(Wait, {x}), HeldBy(0)), Check(0, x), Waiting(x, empty, max, Checking(Wait, {}), HeldBy(0)),
             [Decide(0)], Waiting(x, empty, max, Parked, Free));
    PathCons(Waiting(x, empty, max, Queued(Wait), Free), Acquire(0), Waiting(x, empty, max, Checking(Wait, {x}), HeldBy(0)),
             [Check(0, x)] + [Decide(0)], Waiting(x, empty, max, Parked, Free));
    steps := [Acquire(0)] + ([Check(0, x)] + [Decide(0)]);
  }

  lemma TakerAlone(x: TVar, empty: Value, v: Value)
    requires v != empty
    ensures Serially(Taker(x, empty), map[x := v], v, map[]) && Serially(Writer(x, v), map[x := empty], v, map[x := v])
  {
    assert [] + [v] == [v];
    assert map[][x := v] == map[x := v];
    assert RunAlone(Taker(x, empty), map[x := v], [v], map[], 1) == Returned(v, map[]);
    assert RunAlone(Taker(x, empty), map[x := v], [], map[], 2) == Returned(v, map[]);
    assert RunAlone(Writer(x, v), map[x := empty], [v], map[x := v], 1) == Returned(v, map[x := v]);
    assert RunAlone(Writer(x, v), map[x := empty], [], map[], 2) == Returned(v, map[x := v]);
  }

  /** From the sleeping taker: the giver begins, commits, and the taker is served. */
  lemma GiverServes(x: TVar, empty: Value, v: Value, max: nat) returns (steps: seq<Step>, s': State)
    requires v != empty && max > 1
    ensures Path(Shop(x, empty, Active(Taker(x, empty), max, 0, Looked(x, empty), Parked), Idle, Free), steps, s')
    ensures steps != [] && (forall step <- steps :: !step.Timeout?) && s'.returned == [(1, v), (0, v)]
  {
    var asleep := Active(Taker(x, empty), max, 0, Looked(x, empty), Parked);
    var s1, s2 := Shop(x, empty, asleep, Idle, Free), Shop(x, empty, asleep, Active(Writer(x, v), 1, 0, Fresh, Running), Free);
    assert Enabled(s1, Begin(1, Writer(x, v), 1)) && Do(s1, Begin(1, Writer(x, v), 1)) == s2;
    OneStep(s1, Begin(1, Writer(x, v), 1));
    TakerAlone(x, empty, v);
    assert Values(s2.store) == map[x := empty] && map[x := empty] + map[x := v] == map[x := v];
    assert Sleeps(s2, 0);
    hide Path, Serially, Enabled, Do, Taker, Writer;
    steps, s' := SleeperIsServed(s2, 0, 1, v, map[x := v], v, map[]);
    PathJoin(s1, [Begin(1, Writer(x, v), 1)], s2, steps, s');
    steps := [Begin(1, Writer(x, v), 1)] + steps;
    assert s'.returned == [] + [(1, v), (0, v)];
  }

  /** A run in which a transaction sleeps, is notified by a commit, and then hands back
      what was committed, without any timeout. */
  lemma TakerIsServed(x: TVar, empty: Value, v: Value, max: nat) returns (s0: State, steps: seq<Step>, k: nat)
    requires v != empty && max > 1
    ensures Init(s0) && IsRun(s0, steps) && forall step <- steps :: !step.Timeout?
    ensures k < |steps| && IsRun(s0, steps[..k]) && Sleeps(After(s0, steps[..k]), 0)
    ensures After(s0, steps).returned == [(1, v), (0, v)]
  {
    s0 := Shop(x, empty, Idle, Idle, Free);
    var s1 := Shop(x, empty, Active(Taker(x, empty), max, 0, Looked(x, empty), Parked), Idle, Free);
    assert Init(s0) && Sleeps(s1, 0);
    hide Shop, Init, Sleeps, Taker, Looked;
    var looks := TakerLooks(x, empty, max);
    var sleeps := TakerSleeps(x, empty, max);
    PathJoin(s0, looks, Waiting(x, empty, max, Queued(Wait), Free), sleeps, s1);
    var rest, s2 := GiverServes(x, empty, v, max);
    PathJoin(s0, looks + sleeps, s1, rest, s2);
    steps, k := looks + sleeps + rest, |looks + sleeps|;
    assert steps[..k] == looks + sleeps;
  }
}
