// Committed transactions are serializable, conflict detection is exact, and
// a blocked transaction never misses a change.

module StmProofs {
  import opened Stm

  // ----- The serial history that the commit log stands for ----------------

  /** The store after running the logged transactions one at a time. */
  ghost function SerialStore(init: map<TVar, Value>, log: seq<Entry>): map<TVar, Value> {
    if log == [] then init else SerialStore(init, log[..|log| - 1]) + log[|log| - 1].writes
  }

  /** Every logged transaction, run alone on the store its predecessors left,
      has the logged result and the logged writes. */
  ghost predicate SerialHistory(init: map<TVar, Value>, log: seq<Entry>) {
    forall i | 0 <= i < |log| :: Serially(log[i].body, SerialStore(init, log[..i]), log[i].r, log[i].writes)
  }

  ghost function Results(log: seq<Entry>): seq<(Tid, Value)> {
    seq(|log|, i requires 0 <= i < |log| => (log[i].tid, log[i].r))
  }

  /** How many logged transactions wrote `t`. */
  ghost function Writers(log: seq<Entry>, t: TVar): nat {
    if log == [] then 0
    else Writers(log[..|log| - 1], t) + (if t in log[|log| - 1].writes then 1 else 0)
  }

  // ----- The invariant ----------------------------------------------------

  ghost predicate AttemptOk(store: Store, mid: set<TVar>, body: Body, a: Attempt) {
    && LocalRun(body, a.trace)
    && a.writes == Staging(a.trace)
    && a.writes.Keys <= a.versions.Keys <= store.Keys
    && (forall t <- a.versions :: a.versions[t] <= store[t].version)
    && (forall e <- a.trace :: e.Shared? ==>
          e.t in a.versions
          && (a.versions[e.t] == store[e.t].version && e.t !in mid ==> e.v == store[e.t].value))
  }

  /** Each recorded version counts the commits that had written the variable
      when the version was recorded. */
  ghost predicate SinceOk(store0: Store, log: seq<Entry>, a: Attempt) {
    && a.since.Keys == a.versions.Keys <= store0.Keys
    && (forall t <- a.versions ::
          a.since[t] <= |log| && a.versions[t] == store0[t].version + Writers(log[..a.since[t]], t))
  }

  /** A body that returns wants to commit its result, one that retries wants to wait. */
  ghost predicate Asks(next: Action, goal: Goal) {
    match goal
    case Commit(r) => next == Return(r)
    case Wait => next == Retry
  }

  ghost predicate PhaseOk(store: Store, th: Thread)
    requires th.Active? && th.a.versions.Keys <= store.Keys
  {
    var next := th.body(Seen(th.a.trace));
    match th.phase
    case Running => true
    case Queued(goal) => Asks(next, goal)
    case Checking(goal, left) =>
      && Asks(next, goal)
      && left <= th.a.versions.Keys
      && forall t <- th.a.versions.Keys - left :: th.a.versions[t] == store[t].version
    case Applying(r, left) => next == Return(r) && left <= th.a.writes.Keys
    case Bumping(r, left, t) => next == Return(r) && left <= th.a.writes.Keys && t in th.a.writes && t !in left
    case Parked => next == Retry
    case Waking => next == Retry
  }

  ghost predicate ThreadOk(s0: State, s: State, th: Thread) {
    th.Active? ==>
      && AttemptOk(s.store, MidWrite(s), th.body, th.a)
      && SinceOk(s0.store, s.log, th.a)
      && PhaseOk(s.store, th)
  }

  ghost predicate LocksOk(s: State) {
    && (s.holder.HeldBy? ==> s.holder.tid in s.threads)
    && forall tid <- s.threads :: HoldsLock(s.threads[tid]) <==> s.holder == HeldBy(tid)
  }

  ghost predicate Committer(s: State) {
    s.holder.HeldBy? && s.holder.tid in s.threads && Committing(s.threads[s.holder.tid])
  }

  ghost predicate LogOk(s0: State, s: State) {
    && SerialHistory(Values(s0.store), s.log)
    && (forall e <- s.log :: e.writes.Keys <= s0.store.Keys)
    && if Committer(s) then
         var th := s.threads[s.holder.tid];
         && |s.log| > 0
         && s.log[|s.log| - 1] == Entry(s.holder.tid, th.body, th.phase.r, th.a.writes)
         && s.returned == Results(s.log[..|s.log| - 1])
       else
         s.returned == Results(s.log)
  }

  /** Logged writes that the committer has not assigned yet. */
  ghost function Unassigned(s: State): set<TVar> {
    if Committer(s) then s.threads[s.holder.tid].phase.left else {}
  }

  /** A variable holds what the logged transactions left in it, except that a
      write of the transaction being applied may still be to come. */
  ghost predicate CellOk(s0: State, s: State, t: TVar) {
    var init := Values(s0.store);
    t in s.store && t in s0.store ==>
      && t in SerialStore(init, s.log)
      && (if t in Unassigned(s) then
            && t in SerialStore(init, Earlier(s.log))
            && s.store[t].value == SerialStore(init, Earlier(s.log))[t]
          else s.store[t].value == SerialStore(init, s.log)[t])
      && s.store[t].version == s0.store[t].version + Writers(s.log, t) - (if t in Unbumped(s) then 1 else 0)
  }

  ghost function Earlier(log: seq<Entry>): seq<Entry> {
    if log == [] then [] else log[..|log| - 1]
  }

  ghost predicate StoreOk(s0: State, s: State) {
    s.store.Keys == s0.store.Keys && forall t {:trigger CellOk(s0, s, t)} :: CellOk(s0, s, t)
  }

  /** No wake-up is owed to a parked thread, except by the present committer. */
  ghost predicate ParkedOk(s: State) {
    forall tid <- s.threads | s.threads[tid].Active? && s.threads[tid].phase.Parked? ::
      forall t <- s.threads[tid].a.versions | t in s.store ::
        s.threads[tid].a.versions[t] == s.store[t].version
        || (Committer(s) && t in s.threads[s.holder.tid].a.writes)
  }

  ghost predicate TidOk(s0: State, s: State, tid: Tid) {
    tid in s.threads ==> ThreadOk(s0, s, s.threads[tid])
  }

  ghost predicate ThreadsOk(s0: State, s: State) {
    forall tid {:trigger TidOk(s0, s, tid)} :: TidOk(s0, s, tid)
  }

  ghost predicate Inv(s0: State, s: State) {
    LocksOk(s) && LogOk(s0, s) && StoreOk(s0, s) && ParkedOk(s) && ThreadsOk(s0, s)
  }

  lemma InitInv(s0: State)
    requires Init(s0)
    ensures Inv(s0, s0)
  {
    assert Results([]) == [];
  }

  // ----- One action of a body ---------------------------------------------

  /** Other threads keep their part of the invariant when nothing they depend
      on changes; the log may only grow. */
  lemma Extend(trace: Trace, e: Event)
    ensures (trace + [e])[..|trace|] == trace
    ensures Staging(trace + [e]) == if e.Staged? then Staging(trace)[e.t := e.v] else Staging(trace)
  {
    assert (trace + [e])[..|trace|] == trace;
  }

  lemma NotedSince(s0: State, s: State, t: TVar)
    requires LocksOk(s) && LogOk(s0, s) && ThreadsOk(s0, s) && CellOk(s0, s, t) && t in s.store && t in s0.store
    ensures LogPoint(s, t) <= |s.log|
    ensures s.store[t].version == s0.store[t].version + Writers(s.log[..LogPoint(s, t)], t)
  {
    if t in Unbumped(s) {
      assert TidOk(s0, s, s.holder.tid);
      assert Committer(s) && t in s.log[|s.log| - 1].writes;
    } else {
      assert s.log[..|s.log|] == s.log;
    }
  }

  lemma OwnKeeps(store: Store, mid: set<TVar>, body: Body, a: Attempt, t: TVar)
    requires AttemptOk(store, mid, body, a)
    requires body(Seen(a.trace)) == Read(t) && t in a.writes
    ensures AttemptOk(store, mid, body, a.(trace := a.trace + [Own(t, a.writes[t])]))
  {
    Extend(a.trace, Own(t, a.writes[t]));
  }

  lemma SharedKeeps(store: Store, mid: set<TVar>, body: Body, a: Attempt, t: TVar, at: nat)
    requires AttemptOk(store, mid, body, a)
    requires body(Seen(a.trace)) == Read(t) && t !in a.writes && t in store
    requires t in a.versions || t !in mid
    ensures var b := NoteRead(a, t, store[t].version, at);
            AttemptOk(store, mid, body, b.(trace := b.trace + [Shared(t, store[t].value)]))
  {
    Extend(a.trace, Shared(t, store[t].value));
  }

  lemma StagedKeeps(store: Store, mid: set<TVar>, body: Body, a: Attempt, t: TVar, v: Value, at: nat)
    requires AttemptOk(store, mid, body, a)
    requires body(Seen(a.trace)) == Write(t, v) && t in store
    ensures var b := NoteRead(a.(writes := a.writes[t := v]), t, store[t].version, at);
            AttemptOk(store, mid, body, b.(trace := b.trace + [Staged(t, v)]))
  {
    Extend(a.trace, Staged(t, v));
  }

  lemma NoteKeepsSince(store0: Store, log: seq<Entry>, a: Attempt, t: TVar, version: int, at: nat)
    requires SinceOk(store0, log, a) && t in store0
    requires at <= |log| && version == store0[t].version + Writers(log[..at], t)
    ensures SinceOk(store0, log, NoteRead(a, t, version, at))
  {}

  lemma ActKeepsThread(s0: State, s: State, tid: Tid)
    requires Inv(s0, s) && Enabled(s, Act(tid))
    ensures ThreadOk(s0, s, Perform(s, s.threads[tid]))
  {
    var th, mid := s.threads[tid], MidWrite(s);
    assert TidOk(s0, s, tid);
    var a := th.a;
    match th.body(Seen(a.trace))
    case Read(t) =>
      if t in a.writes {
        OwnKeeps(s.store, mid, th.body, a, t);
      } else {
        SharedKeeps(s.store, mid, th.body, a, t, LogPoint(s, t));
        assert CellOk(s0, s, t);
        NotedSince(s0, s, t);
        NoteKeepsSince(s0.store, s.log, a, t, s.store[t].version, LogPoint(s, t));
      }
    case Write(t, v) =>
      StagedKeeps(s.store, mid, th.body, a, t, v, LogPoint(s, t));
      assert CellOk(s0, s, t);
      NotedSince(s0, s, t);
      NoteKeepsSince(s0.store, s.log, a.(writes := a.writes[t := v]), t, s.store[t].version, LogPoint(s, t));
    case _ =>
  }

  // ----- Steps that leave the store, the log and the lock alone ------------

  lemma QuietStep(s0: State, s: State, tid: Tid, th: Thread)
    requires Inv(s0, s) && tid in s.threads
    requires !HoldsLock(s.threads[tid]) && !HoldsLock(th)
    requires ThreadOk(s0, s, th)
    requires th.Active? ==> !th.phase.Parked?
    ensures Inv(s0, Put(s, tid, th))
  {
    var s' := Put(s, tid, th);
    assert Committer(s') == Committer(s);
    assert MidWrite(s') == MidWrite(s) && Unbumped(s') == Unbumped(s);
    forall t ensures CellOk(s0, s', t) {
      assert CellOk(s0, s, t);
    }
    forall id ensures TidOk(s0, s', id) {
      assert TidOk(s0, s, id);
    }
  }

  // ----- Steps that take, use and release the commit lock -----------------

  /** Taking or releasing the commit lock without a commit in progress. */
  lemma LockStep(s0: State, s: State, tid: Tid, th: Thread, h: Holder)
    requires Inv(s0, s) && tid in s.threads && !Committer(s)
    requires s.holder.Free? || s.holder == HeldBy(tid)
    requires h == (if HoldsLock(th) then HeldBy(tid) else Free)
    requires !Committing(th) && !Committing(s.threads[tid]) && ThreadOk(s0, s, th)
    requires th.Active? && th.phase.Parked? ==>
               forall t <- th.a.versions | t in s.store :: th.a.versions[t] == s.store[t].version
    ensures Inv(s0, Put(s, tid, th).(holder := h))
  {
    var s' := Put(s, tid, th).(holder := h);
    assert !Committer(s');
    assert MidWrite(s') == MidWrite(s) == {} && Unbumped(s') == Unbumped(s) == {};
    forall t ensures CellOk(s0, s', t) {
      assert CellOk(s0, s, t);
    }
    forall id ensures TidOk(s0, s', id) {
      assert TidOk(s0, s, id);
    }
  }

  ghost predicate Agree(trace: Trace, vals: map<TVar, Value>) {
    forall e <- trace | e.Shared? :: e.t in vals && vals[e.t] == e.v
  }

  /** While no commit is being applied, a shared read whose recorded version is
      current agrees with the serial store. */
  lemma CurrentRead(s0: State, s: State, tid: Tid, e: Event)
    requires Inv(s0, s) && !Committer(s) && tid in s.threads && s.threads[tid].Active?
    requires e in s.threads[tid].a.trace && e.Shared?
    ensures e.t in s.threads[tid].a.versions && e.t in s.store
    ensures s.threads[tid].a.versions[e.t] == s.store[e.t].version ==>
              var now := SerialStore(Values(s0.store), s.log); e.t in now && now[e.t] == e.v
  {
    assert TidOk(s0, s, tid);
    assert CellOk(s0, s, e.t);
    assert MidWrite(s) == {} && Unassigned(s) == {};
  }

  /** A transaction that has passed validation saw exactly the store that the
      logged transactions left. */
  lemma ValidatedReads(s0: State, s: State, tid: Tid)
    requires Inv(s0, s) && Enabled(s, Decide(tid))
    ensures Agree(s.threads[tid].a.trace, SerialStore(Values(s0.store), s.log))
  {
    var th := s.threads[tid];
    assert TidOk(s0, s, tid);
    assert HoldsLock(th) && !Committer(s);
    forall e <- th.a.trace | e.Shared?
      ensures var now := SerialStore(Values(s0.store), s.log); e.t in now && now[e.t] == e.v
    {
      CurrentRead(s0, s, tid, e);
      assert e.t in th.a.versions.Keys - th.phase.left;
    }
  }

  lemma AgreeingRunIsSerial(body: Body, vals: map<TVar, Value>, a: Attempt, r: Value)
    requires LocalRun(body, a.trace) && a.writes == Staging(a.trace) && body(Seen(a.trace)) == Return(r)
    requires Agree(a.trace, vals)
    ensures Serially(body, vals, r, a.writes)
  {
    LocalRunIsRunAlone(body, vals, a.trace, 1);
    assert RunAlone(body, vals, [], map[], |a.trace| + 1) == Returned(r, a.writes);
  }

  lemma CommitPoint(s0: State, s: State, tid: Tid)
    requires Inv(s0, s) && Enabled(s, Decide(tid)) && s.threads[tid].phase.goal.Commit?
    ensures var th := s.threads[tid];
            Serially(th.body, SerialStore(Values(s0.store), s.log), th.phase.goal.r, th.a.writes)
  {
    var th := s.threads[tid];
    ValidatedReads(s0, s, tid);
    assert TidOk(s0, s, tid);
    AgreeingRunIsSerial(th.body, SerialStore(Values(s0.store), s.log), th.a, th.phase.goal.r);
  }

  lemma LogGrows(s0: State, log: seq<Entry>, e: Entry, a: Attempt)
    requires SinceOk(s0.store, log, a)
    ensures SinceOk(s0.store, log + [e], a)
  {
    forall t <- a.versions ensures a.versions[t] == s0.store[t].version + Writers((log + [e])[..a.since[t]], t) {
      assert (log + [e])[..a.since[t]] == log[..a.since[t]];
    }
  }

  lemma HistoryGrows(init: map<TVar, Value>, log: seq<Entry>, e: Entry)
    requires SerialHistory(init, log) && Serially(e.body, SerialStore(init, log), e.r, e.writes)
    ensures SerialHistory(init, log + [e])
    ensures SerialStore(init, log + [e]) == SerialStore(init, log) + e.writes
    ensures Results(log + [e]) == Results(log) + [(e.tid, e.r)]
    ensures forall t :: Writers(log + [e], t) == Writers(log, t) + (if t in e.writes then 1 else 0)
    ensures (log + [e])[..|log|] == log
  {
    assert (log + [e])[..|log|] == log;
    forall i | 0 <= i < |log| + 1 ensures (log + [e])[..i] == log[..i] {}
    assert log[..|log|] == log;
  }

  lemma CommitThreads(s0: State, s: State, tid: Tid)
    requires Inv(s0, s) && Enabled(s, Decide(tid)) && s.threads[tid].phase.goal.Commit?
    ensures ThreadsOk(s0, Logged(s, tid, s.threads[tid].phase.goal.r))
  {
    var th := s.threads[tid];
    var s' := Logged(s, tid, th.phase.goal.r);
    assert HoldsLock(th) && MidWrite(s) == {} == MidWrite(s');
    forall id ensures TidOk(s0, s', id) {
      assert TidOk(s0, s, id);
      if id in s.threads && s.threads[id].Active? {
        LogGrows(s0, s.log, s'.log[|s.log|], s.threads[id].a);
      }
    }
  }

  lemma CommitLog(s0: State, s: State, tid: Tid)
    requires Inv(s0, s) && Enabled(s, Decide(tid)) && s.threads[tid].phase.goal.Commit?
    ensures LogOk(s0, Logged(s, tid, s.threads[tid].phase.goal.r))
  {
    var th := s.threads[tid];
    var s' := Logged(s, tid, th.phase.goal.r);
    assert HoldsLock(th) && !Committer(s) && Committer(s');
    assert TidOk(s0, s, tid);
    CommitPoint(s0, s, tid);
    HistoryGrows(Values(s0.store), s.log, s'.log[|s.log|]);
  }

  lemma CommitStore(s0: State, s: State, tid: Tid)
    requires Inv(s0, s) && Enabled(s, Decide(tid)) && s.threads[tid].phase.goal.Commit?
    ensures StoreOk(s0, Logged(s, tid, s.threads[tid].phase.goal.r))
  {
    var th := s.threads[tid];
    var s' := Logged(s, tid, th.phase.goal.r);
    assert HoldsLock(th) && !Committer(s) && Committer(s');
    assert Unbumped(s) == {} && Unbumped(s') == th.a.writes.Keys == Unassigned(s');
    CommitPoint(s0, s, tid);
    HistoryGrows(Values(s0.store), s.log, s'.log[|s.log|]);
    forall t ensures CellOk(s0, s', t) {
      assert CellOk(s0, s, t);
    }
  }

  lemma CommitLocks(s: State, tid: Tid)
    requires LocksOk(s) && ParkedOk(s) && Enabled(s, Decide(tid)) && s.threads[tid].phase.goal.Commit?
    ensures LocksOk(Logged(s, tid, s.threads[tid].phase.goal.r))
    ensures ParkedOk(Logged(s, tid, s.threads[tid].phase.goal.r))
  {
    assert HoldsLock(s.threads[tid]);
    assert !Committer(s);
  }

  lemma CommitKeeps(s0: State, s: State, tid: Tid)
    requires Inv(s0, s) && Enabled(s, Decide(tid)) && s.threads[tid].phase.goal.Commit?
    ensures Inv(s0, Logged(s, tid, s.threads[tid].phase.goal.r))
  {
    CommitLocks(s, tid);
    CommitThreads(s0, s, tid);
    CommitLog(s0, s, tid);
    CommitStore(s0, s, tid);
  }

  lemma AssignAttempt(store: Store, t: TVar, v: Value, body: Body, a: Attempt)
    requires AttemptOk(store, {}, body, a) && t in store
    ensures AttemptOk(store[t := store[t].(value := v)], {t}, body, a)
  {}

  /** Versions are not touched by the assignment of a value. */
  lemma AssignPhase(store: Store, t: TVar, v: Value, th: Thread)
    requires th.Active? && th.a.versions.Keys <= store.Keys && t in store && PhaseOk(store, th)
    ensures PhaseOk(store[t := store[t].(value := v)], th)
  {}

  lemma AssignThread(s0: State, store: Store, log: seq<Entry>, t: TVar, v: Value, th: Thread)
    requires t in store && th.Active?
    requires AttemptOk(store, {}, th.body, th.a) && SinceOk(s0.store, log, th.a) && PhaseOk(store, th)
    ensures var store' := store[t := store[t].(value := v)];
            AttemptOk(store', {t}, th.body, th.a) && SinceOk(s0.store, log, th.a) && PhaseOk(store', th)
  {
    AssignAttempt(store, t, v, th.body, th.a);
    AssignPhase(store, t, v, th);
  }

  lemma ThreadAfterAssign(s0: State, s: State, tid: Tid, t: TVar, id: Tid)
    requires Inv(s0, s) && Enabled(s, Assign(tid, t)) && id in s.threads && id != tid
    ensures ThreadOk(s0, Assigned(s, tid, t), s.threads[id])
  {
    var s', th := Assigned(s, tid, t), s.threads[tid];
    assert HoldsLock(th) && MidWrite(s) == {} && MidWrite(s') == {t};
    assert TidOk(s0, s, id);
    hide AttemptOk, SinceOk, PhaseOk, LogOk, StoreOk, ParkedOk;
    if s.threads[id].Active? {
      AssignThread(s0, s.store, s.log, t, th.a.writes[t], s.threads[id]);
    }
  }

  lemma AssignerPhase(s: State, tid: Tid, t: TVar)
    requires Enabled(s, Assign(tid, t)) && s.threads[tid].a.versions.Keys <= s.store.Keys
    requires PhaseOk(s.store, s.threads[tid])
    ensures var s' := Assigned(s, tid, t);
            s'.threads[tid].Active? && s'.threads[tid].a.versions.Keys <= s'.store.Keys && PhaseOk(s'.store, s'.threads[tid])
  {}

  lemma AssignerThread(s0: State, s: State, tid: Tid, t: TVar)
    requires Inv(s0, s) && Enabled(s, Assign(tid, t))
    ensures ThreadOk(s0, Assigned(s, tid, t), Assigned(s, tid, t).threads[tid])
  {
    var s', th := Assigned(s, tid, t), s.threads[tid];
    assert HoldsLock(th) && MidWrite(s) == {} && MidWrite(s') == {t};
    assert TidOk(s0, s, tid);
    AssignAttempt(s.store, t, th.a.writes[t], th.body, th.a);
    AssignerPhase(s, tid, t);
    hide AttemptOk, SinceOk, PhaseOk, LogOk, StoreOk, ParkedOk;
  }

  lemma AssignThreads(s0: State, s: State, tid: Tid, t: TVar)
    requires Inv(s0, s) && Enabled(s, Assign(tid, t))
    ensures ThreadsOk(s0, Assigned(s, tid, t))
  {
    hide Inv, ThreadOk;
    var s' := Assigned(s, tid, t);
    forall id ensures TidOk(s0, s', id) {
      if id == tid {
        AssignerThread(s0, s, tid, t);
      } else if id in s.threads {
        ThreadAfterAssign(s0, s, tid, t, id);
      }
    }
  }

  lemma AssignStore(s0: State, s: State, tid: Tid, t: TVar)
    requires LocksOk(s) && LogOk(s0, s) && StoreOk(s0, s) && Enabled(s, Assign(tid, t))
    requires s.threads[tid].phase.left <= s.threads[tid].a.writes.Keys
    ensures StoreOk(s0, Assigned(s, tid, t)) && LogOk(s0, Assigned(s, tid, t))
  {
    var s', th := Assigned(s, tid, t), s.threads[tid];
    assert HoldsLock(th);
    assert Committer(s) && Committer(s');
    assert Unbumped(s') == Unbumped(s) && Unassigned(s') == Unassigned(s) - {t};
    forall t' ensures CellOk(s0, s', t') {
      assert CellOk(s0, s, t');
    }
  }

  lemma AssignLocks(s: State, tid: Tid, t: TVar)
    requires LocksOk(s) && ParkedOk(s) && Enabled(s, Assign(tid, t))
    ensures LocksOk(Assigned(s, tid, t)) && ParkedOk(Assigned(s, tid, t))
  {
    assert HoldsLock(s.threads[tid]);
  }

  lemma AssignKeeps(s0: State, s: State, tid: Tid, t: TVar)
    requires Inv(s0, s) && Enabled(s, Assign(tid, t))
    ensures Inv(s0, Assigned(s, tid, t))
  {
    assert TidOk(s0, s, tid);
    AssignThreads(s0, s, tid, t);
    AssignStore(s0, s, tid, t);
    AssignLocks(s, tid, t);
  }

  lemma BumpAttempt(store: Store, t: TVar, body: Body, a: Attempt)
    requires AttemptOk(store, {t}, body, a) && t in store
    ensures AttemptOk(store[t := store[t].(version := store[t].version + 1)], {}, body, a)
  {}

  lemma BumpThreads(s0: State, s: State, tid: Tid)
    requires LocksOk(s) && ThreadsOk(s0, s) && Enabled(s, Bump(tid))
    ensures ThreadsOk(s0, Bumped(s, tid))
  {
    var s', th := Bumped(s, tid), s.threads[tid];
    var t := th.phase.t;
    assert HoldsLock(th);
    assert MidWrite(s) == {t} && MidWrite(s') == {};
    forall id ensures TidOk(s0, s', id) {
      assert TidOk(s0, s, id);
      assert id in s.threads && HoldsLock(s.threads[id]) ==> id == tid;
      if id in s.threads && s.threads[id].Active? {
        BumpAttempt(s.store, t, s.threads[id].body, s.threads[id].a);
      }
    }
  }

  lemma BumpStore(s0: State, s: State, tid: Tid)
    requires LocksOk(s) && StoreOk(s0, s) && LogOk(s0, s) && Enabled(s, Bump(tid))
    requires s.threads[tid].phase.t in s.threads[tid].a.writes && s.threads[tid].phase.t !in s.threads[tid].phase.left
    ensures StoreOk(s0, Bumped(s, tid)) && LogOk(s0, Bumped(s, tid))
  {
    var s', th := Bumped(s, tid), s.threads[tid];
    assert HoldsLock(th);
    assert Committer(s) && Committer(s');
    assert Unbumped(s') == Unbumped(s) - {th.phase.t} && Unassigned(s') == Unassigned(s);
    forall t ensures CellOk(s0, s', t) {
      assert CellOk(s0, s, t);
    }
  }

  lemma BumpLocks(s0: State, s: State, tid: Tid)
    requires LocksOk(s) && ParkedOk(s) && Enabled(s, Bump(tid))
    requires s.threads[tid].phase.t in s.threads[tid].a.writes
    ensures LocksOk(Bumped(s, tid)) && ParkedOk(Bumped(s, tid))
  {
    assert HoldsLock(s.threads[tid]);
  }

  lemma BumpKeeps(s0: State, s: State, tid: Tid)
    requires Inv(s0, s) && Enabled(s, Bump(tid))
    ensures Inv(s0, Bumped(s, tid))
  {
    assert TidOk(s0, s, tid);
    BumpThreads(s0, s, tid);
    BumpStore(s0, s, tid);
    BumpLocks(s0, s, tid);
  }

  lemma FinishThreads(s0: State, s: State, tid: Tid)
    requires LocksOk(s) && ThreadsOk(s0, s) && Enabled(s, Finish(tid))
    ensures ThreadsOk(s0, Finished(s, tid)) && LocksOk(Finished(s, tid))
  {
    var s', th := Finished(s, tid), s.threads[tid];
    assert HoldsLock(th);
    assert MidWrite(s) == {} == MidWrite(s');
    forall id ensures TidOk(s0, s', id) && (id in s'.threads ==> !HoldsLock(s'.threads[id])) {
      assert TidOk(s0, s, id);
      assert id in s.threads && HoldsLock(s.threads[id]) ==> id == tid;
    }
  }

  lemma FinishParked(s: State, tid: Tid)
    requires LocksOk(s) && ParkedOk(s) && Enabled(s, Finish(tid))
    ensures ParkedOk(Finished(s, tid))
  {
    assert HoldsLock(s.threads[tid]);
  }

  lemma ResultsSplit(log: seq<Entry>)
    requires log != []
    ensures var e := log[|log| - 1]; Results(log) == Results(log[..|log| - 1]) + [(e.tid, e.r)]
  {}

  lemma FinishLog(s0: State, s: State, tid: Tid)
    requires LocksOk(s) && LogOk(s0, s) && Enabled(s, Finish(tid))
    ensures LogOk(s0, Finished(s, tid))
  {
    var n := |s.log|;
    assert HoldsLock(s.threads[tid]);
    assert Committer(s) && !Committer(Finished(s, tid));
    ResultsSplit(s.log);
  }

  lemma FinishStore(s0: State, s: State, tid: Tid)
    requires LocksOk(s) && StoreOk(s0, s) && Enabled(s, Finish(tid))
    ensures StoreOk(s0, Finished(s, tid))
  {
    var s' := Finished(s, tid);
    assert HoldsLock(s.threads[tid]);
    assert Unbumped(s) == {} == Unbumped(s') && Unassigned(s) == {} == Unassigned(s');
    forall t ensures CellOk(s0, s', t) {
      assert CellOk(s0, s, t);
    }
  }

  lemma CommitPhaseKeeps(s0: State, s: State, step: Step)
    requires Inv(s0, s) && Enabled(s, step)
    requires step.Assign? || step.Bump? || step.Finish?
             || (step.Decide? && s.threads[step.tid].phase.goal.Commit?)
    ensures Inv(s0, Do(s, step))
  {
    match step
    case Assign(tid, t) => AssignKeeps(s0, s, tid, t);
    case Bump(tid) => BumpKeeps(s0, s, tid);
    case Finish(tid) =>
      FinishThreads(s0, s, tid);
      FinishParked(s, tid);
      FinishLog(s0, s, tid);
      FinishStore(s0, s, tid);
    case Decide(tid) => CommitKeeps(s0, s, tid);
  }

  /** What the thread that takes, uses or releases the lock becomes. */
  ghost function LockPhase(s: State, step: Step): Thread
    requires Enabled(s, step)
    requires step.Acquire? || step.Check? || (step.Decide? && s.threads[step.tid].phase.goal.Wait?)
  {
    var th := s.threads[step.tid];
    match step
    case Acquire(_) => th.(phase := Checking(th.phase.goal, th.a.versions.Keys))
    case Check(_, t) =>
      if s.store[t].version == th.a.versions[t] then th.(phase := Checking(th.phase.goal, th.phase.left - {t}))
      else Restart(th)
    case Decide(_) => th.(phase := Parked)
  }

  lemma LockPhaseThread(s0: State, s: State, step: Step)
    requires ThreadsOk(s0, s) && Enabled(s, step)
    requires step.Acquire? || step.Check? || (step.Decide? && s.threads[step.tid].phase.goal.Wait?)
    ensures var th := LockPhase(s, step);
            && ThreadOk(s0, s, th)
            && (th.Active? && th.phase.Parked? ==>
                  forall t <- th.a.versions | t in s.store :: th.a.versions[t] == s.store[t].version)
  {
    assert TidOk(s0, s, step.tid);
  }

  lemma LockPhaseHolder(s: State, step: Step)
    requires LocksOk(s) && Enabled(s, step)
    requires step.Acquire? || step.Check? || (step.Decide? && s.threads[step.tid].phase.goal.Wait?)
    ensures !Committer(s) && (s.holder.Free? || s.holder == HeldBy(step.tid))
    ensures var th := LockPhase(s, step);
            && !Committing(th) && !Committing(s.threads[step.tid])
            && Do(s, step) == Put(s, step.tid, th).(holder := if HoldsLock(th) then HeldBy(step.tid) else Free)
  {
    if !step.Acquire? {
      assert HoldsLock(s.threads[step.tid]);
    }
  }

  lemma LockPhaseKeeps(s0: State, s: State, step: Step)
    requires Inv(s0, s) && Enabled(s, step)
    requires step.Acquire? || step.Check? || (step.Decide? && s.threads[step.tid].phase.goal.Wait?)
    ensures Inv(s0, Do(s, step))
  {
    LockPhaseThread(s0, s, step);
    LockPhaseHolder(s, step);
    hide LocksOk, LogOk, StoreOk, ParkedOk, ThreadsOk, ThreadOk, LockPhase, Do;
    var th := LockPhase(s, step);
    LockStep(s0, s, step.tid, th, if HoldsLock(th) then HeldBy(step.tid) else Free);
  }

  lemma QuietPhaseKeeps(s0: State, s: State, step: Step)
    requires Inv(s0, s) && Enabled(s, step)
    requires step.Begin? || step.Act? || step.Timeout? || step.Wake?
    ensures Inv(s0, Do(s, step))
  {
    var tid := step.tid;
    var th := s.threads[tid];
    assert TidOk(s0, s, tid);
    match step
    case Begin(_, body, max) =>
      QuietStep(s0, s, tid, if max == 0 then Idle else Active(body, max, 0, Fresh, Running));
    case Act(_) =>
      ActKeepsThread(s0, s, tid);
      QuietStep(s0, s, tid, Perform(s, th));
    case Timeout(_) => QuietStep(s0, s, tid, th.(phase := Waking));
    case Wake(_) => QuietStep(s0, s, tid, Restart(th));
  }

  lemma StepKeeps(s0: State, s: State, step: Step)
    requires Inv(s0, s) && Enabled(s, step)
    ensures Inv(s0, Do(s, step))
  {
    if step.Begin? || step.Act? || step.Timeout? || step.Wake? {
      QuietPhaseKeeps(s0, s, step);
    } else if step.Acquire? || step.Check? || (step.Decide? && s.threads[step.tid].phase.goal.Wait?) {
      LockPhaseKeeps(s0, s, step);
    } else {
      CommitPhaseKeeps(s0, s, step);
    }
  }

  lemma {:induction false} RunKeeps(s0: State, steps: seq<Step>)
    requires Init(s0) && IsRun(s0, steps)
    ensures Inv(s0, After(s0, steps))
    decreases |steps|
  {
    if steps == [] {
      InitInv(s0);
    } else {
      RunKeeps(s0, steps[..|steps| - 1]);
      StepKeeps(s0, After(s0, steps[..|steps| - 1]), steps[|steps| - 1]);
    }
  }

  // ----- Main results -----------------------------------------------------

  /** Under every interleaving, the committed transactions behave as if they
      had run one at a time in commit order: each has the result and the writes
      of running alone on the store its predecessors left, the values handed
      back by `atomically` are exactly those results in that order, and
      whenever the commit lock is free the store is the serial store.  Every
      other attempt has changed nothing. */
  lemma Serializability(s0: State, steps: seq<Step>)
    requires Init(s0) && IsRun(s0, steps)
    ensures var s, init := After(s0, steps), Values(s0.store);
            && SerialHistory(init, s.log)
            && s.returned <= Results(s.log)
            && |s.log| <= |s.returned| + 1
            && (s.holder.Free? ==> s.returned == Results(s.log) && Values(s.store) == SerialStore(init, s.log))
  {
    RunKeeps(s0, steps);
    if After(s0, steps).holder.Free? {
      StoreIsSerial(s0, After(s0, steps));
    }
    ReturnedInOrder(s0, After(s0, steps));
  }

  lemma StoreIsSerial(s0: State, s: State)
    requires Inv(s0, s) && s.holder.Free?
    ensures Values(s.store) == SerialStore(Values(s0.store), s.log)
  {
    var init := Values(s0.store);
    SerialKeys(init, s.log);
    forall t <- s.store ensures s.store[t].value == SerialStore(init, s.log)[t] {
      assert CellOk(s0, s, t);
    }
  }

  lemma ReturnedInOrder(s0: State, s: State)
    requires Inv(s0, s)
    ensures s.returned <= Results(s.log) && |s.log| <= |s.returned| + 1
    ensures s.holder.Free? ==> s.returned == Results(s.log)
  {
    if Committer(s) {
      assert Results(s.log[..|s.log| - 1]) == Results(s.log)[..|s.log| - 1];
    }
  }

  lemma {:induction false} SerialKeys(init: map<TVar, Value>, log: seq<Entry>)
    requires forall e <- log :: e.writes.Keys <= init.Keys
    ensures SerialStore(init, log).Keys == init.Keys
    decreases |log|
  {
    if log != [] {
      SerialKeys(init, log[..|log| - 1]);
      assert log[|log| - 1] in log;
    }
  }

  lemma {:induction false} WritersSince(log: seq<Entry>, t: TVar, k: nat)
    requires k <= |log|
    ensures Writers(log[..k], t) <= Writers(log, t)
    ensures Writers(log[..k], t) == Writers(log, t) <==> forall i | k <= i < |log| :: t !in log[i].writes
    decreases |log|
  {
    if k == |log| {
      assert log[..k] == log;
    } else {
      var pre := log[..|log| - 1];
      WritersSince(pre, t, k);
      assert pre[..k] == log[..k];
    }
  }

  /** Conflict detection is exact.  While no commit is being applied, a version
      recorded by any attempt is still current if and only if no transaction
      that committed after it was recorded wrote the variable: validation
      never lets a conflict through and never rejects without one. */
  lemma ConflictsAreExact(s0: State, steps: seq<Step>, tid: Tid, t: TVar)
    requires Init(s0) && IsRun(s0, steps)
    requires var s := After(s0, steps);
             && !Committer(s) && tid in s.threads && s.threads[tid].Active?
             && t in s.threads[tid].a.versions
    ensures var s := After(s0, steps);
            var a := s.threads[tid].a;
            && t in s.store && t in a.since && a.since[t] <= |s.log|
            && (a.versions[t] == s.store[t].version
                <==> forall i | a.since[t] <= i < |s.log| :: t !in s.log[i].writes)
  {
    RunKeeps(s0, steps);
    ExactlyCurrent(s0, After(s0, steps), tid, t);
  }

  lemma ExactlyCurrent(s0: State, s: State, tid: Tid, t: TVar)
    requires Inv(s0, s) && !Committer(s)
    requires tid in s.threads && s.threads[tid].Active? && t in s.threads[tid].a.versions
    ensures var a := s.threads[tid].a;
            && t in s.store && t in a.since && a.since[t] <= |s.log|
            && (a.versions[t] == s.store[t].version
                <==> forall i | a.since[t] <= i < |s.log| :: t !in s.log[i].writes)
  {
    assert TidOk(s0, s, tid);
    assert CellOk(s0, s, t);
    assert Unbumped(s) == {};
    WritersSince(s.log, t, s.threads[tid].a.since[t]);
  }

  ghost predicate AllCurrent(a: Attempt, store: Store)
    requires a.versions.Keys <= store.Keys
  {
    forall t <- a.versions :: a.versions[t] == store[t].version
  }

  lemma AgreeingPrefix(body: Body, vals: map<TVar, Value>, a: Attempt, fuel: nat)
    requires LocalRun(body, a.trace) && a.writes == Staging(a.trace) && Agree(a.trace, vals)
    ensures RunAlone(body, vals, [], map[], |a.trace| + fuel) == RunAlone(body, vals, Seen(a.trace), a.writes, fuel)
  {
    LocalRunIsRunAlone(body, vals, a.trace, fuel);
  }

  lemma CurrentReads(s0: State, s: State, tid: Tid)
    requires Inv(s0, s) && !Committer(s) && tid in s.threads && s.threads[tid].Active?
    ensures var th := s.threads[tid];
            && LocalRun(th.body, th.a.trace) && th.a.writes == Staging(th.a.trace)
            && th.a.versions.Keys <= s.store.Keys
            && (AllCurrent(th.a, s.store) ==> Agree(th.a.trace, SerialStore(Values(s0.store), s.log)))
  {
    var th, now := s.threads[tid], SerialStore(Values(s0.store), s.log);
    assert TidOk(s0, s, tid);
    forall e <- th.a.trace | e.Shared? && AllCurrent(th.a, s.store) ensures e.t in now && now[e.t] == e.v {
      CurrentRead(s0, s, tid, e);
    }
  }

  /** An attempt whose recorded versions are all current has, at whatever point of
      its body it stands, done what the body does when it runs alone on the serial
      store.  (That a running attempt's versions are current is not guaranteed: see
      the torn reads.) */
  lemma CurrentVersionsMeanSerialReads(s0: State, steps: seq<Step>, tid: Tid, fuel: nat)
    requires Init(s0) && IsRun(s0, steps)
    requires var s := After(s0, steps); !Committer(s) && tid in s.threads && s.threads[tid].Active?
    ensures var s := After(s0, steps);
            var th, now := s.threads[tid], SerialStore(Values(s0.store), s.log);
            && th.a.versions.Keys <= s.store.Keys
            && (AllCurrent(th.a, s.store) ==>
                  && Agree(th.a.trace, now)
                  && RunAlone(th.body, now, [], map[], |th.a.trace| + fuel)
                     == RunAlone(th.body, now, Seen(th.a.trace), th.a.writes, fuel))
  {
    hide *;
    RunKeeps(s0, steps);
    var s := After(s0, steps);
    CurrentReads(s0, s, tid);
    var th := s.threads[tid];
    if AllCurrent(th.a, s.store) {
      AgreeingPrefix(th.body, SerialStore(Values(s0.store), s.log), th.a, fuel);
    }
  }

  /** A transaction blocked by `retry` never sleeps through a change: whenever
      the commit lock is free, every variable that a parked, not yet notified
      thread has read is still at the version it read. */
  lemma RetryMissesNothing(s0: State, steps: seq<Step>, tid: Tid, t: TVar)
    requires Init(s0) && IsRun(s0, steps)
    requires var s := After(s0, steps);
             && s.holder.Free? && tid in s.threads && s.threads[tid].Active? && s.threads[tid].phase.Parked?
             && t in s.threads[tid].a.versions
    ensures var s := After(s0, steps);
            t in s.store && s.threads[tid].a.versions[t] == s.store[t].version
  {
    RunKeeps(s0, steps);
    var s := After(s0, steps);
    assert TidOk(s0, s, tid);
  }

  /** The holder of the commit lock can always take its next step. */
  lemma HolderCanStep(s0: State, s: State) returns (step: Step)
    requires Inv(s0, s) && s.holder.HeldBy?
    ensures Enabled(s, step) && step.tid == s.holder.tid && !step.Begin?
  {
    var tid := s.holder.tid;
    var th := s.threads[tid];
    assert HoldsLock(th) && TidOk(s0, s, tid);
    match th.phase
    case Checking(_, left) =>
      if left == {} { step := Decide(tid); } else { var t :| t in left; step := Check(tid, t); }
    case Applying(_, left) =>
      if left == {} { step := Finish(tid); } else { var t :| t in left; step := Assign(tid, t); }
    case Bumping(_, _, _) => step := Bump(tid);
  }

  ghost predicate NamesKnownVariable(s: State, th: Thread) {
    th.Active? && th.phase.Running? ==>
      match th.body(Seen(th.a.trace))
      case Read(t) => t in s.store
      case Write(t, _) => t in s.store
      case _ => true
  }

  /** No deadlock: a thread inside `atomically` can take a step itself, or it is
      the lock holder that can. */
  lemma NoDeadlock(s0: State, steps: seq<Step>, tid: Tid) returns (step: Step)
    requires Init(s0) && IsRun(s0, steps)
    requires var s := After(s0, steps);
             tid in s.threads && s.threads[tid].Active? && NamesKnownVariable(s, s.threads[tid])
    ensures var s := After(s0, steps);
            Enabled(s, step) && !step.Begin? && (step.tid == tid || s.holder == HeldBy(step.tid))
  {
    RunKeeps(s0, steps);
    var s := After(s0, steps);
    if s.holder.HeldBy? {
      step := HolderCanStep(s0, s);
    } else {
      assert !HoldsLock(s.threads[tid]);
      match s.threads[tid].phase
      case Running => step := Act(tid);
      case Queued(_) => step := Acquire(tid);
      case Parked => step := Timeout(tid);
      case Waking => step := Wake(tid);
    }
  }
}
