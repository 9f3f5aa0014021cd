// Software transactional memory: the optimistic protocol as an interleaving
// of the atomic steps that its locks leave, with any number of threads.

module Stm {
  type TVar = nat
  type Tid = nat
  type Value(==, 0, !new)

  // ----- Transaction bodies ---------------------------------------------

  /** What a transaction function does next.  `Raise` is any exception other
      than the retry request. */
  datatype Action =
    | Read(t: TVar)
    | Write(t: TVar, v: Value)
    | Return(r: Value)
    | Retry
    | Raise

  /** A transaction function, as a function of the values its actions have
      yielded so far: it may branch on them, and it need not terminate. */
  type Body = seq<Value> -> Action

  /** One completed action: a read of the transaction's own staged write, a
      read of the shared variable, or a staged write. */
  datatype Event =
    | Own(t: TVar, v: Value)
    | Shared(t: TVar, v: Value)
    | Staged(t: TVar, v: Value)

  type Trace = seq<Event>

  ghost function Seen(trace: Trace): seq<Value> {
    seq(|trace|, i requires 0 <= i < |trace| => trace[i].v)
  }

  ghost function Staging(trace: Trace): map<TVar, Value> {
    if trace == [] then map[]
    else
      var pre := trace[..|trace| - 1];
      var e := trace[|trace| - 1];
      if e.Staged? then Staging(pre)[e.t := e.v] else Staging(pre)
  }

  /** The trace is one that `body` produces, given what its shared reads saw. */
  ghost predicate LocalRun(body: Body, trace: Trace) {
    trace == [] ||
    (var pre := trace[..|trace| - 1];
     && LocalRun(body, pre)
     && match trace[|trace| - 1]
        case Own(t, v) => body(Seen(pre)) == Read(t) && t in Staging(pre) && Staging(pre)[t] == v
        case Shared(t, v) => body(Seen(pre)) == Read(t) && t !in Staging(pre)
        case Staged(t, v) => body(Seen(pre)) == Write(t, v))
  }

  // ----- The meaning of a transaction: running alone on a store ----------

  datatype Outcome = Returned(r: Value, writes: map<TVar, Value>) | NotReturned

  /** Runs `body` with nobody else present, for at most `fuel` actions. */
  ghost function RunAlone(body: Body, vals: map<TVar, Value>, seen: seq<Value>,
                          writes: map<TVar, Value>, fuel: nat): Outcome
    decreases fuel
  {
    if fuel == 0 then NotReturned
    else match body(seen)
      case Return(r) => Returned(r, writes)
      case Write(t, v) => RunAlone(body, vals, seen + [v], writes[t := v], fuel - 1)
      case Read(t) =>
        if t in writes then RunAlone(body, vals, seen + [writes[t]], writes, fuel - 1)
        else if t in vals then RunAlone(body, vals, seen + [vals[t]], writes, fuel - 1)
        else NotReturned
      case _ => NotReturned
  }

  ghost predicate Serially(body: Body, vals: map<TVar, Value>, r: Value, writes: map<TVar, Value>) {
    exists fuel: nat :: RunAlone(body, vals, [], map[], fuel) == Returned(r, writes)
  }

  lemma {:induction false} MoreFuel(body: Body, vals: map<TVar, Value>, seen: seq<Value>,
                                    writes: map<TVar, Value>, fuel: nat, extra: nat)
    requires RunAlone(body, vals, seen, writes, fuel).Returned?
    ensures RunAlone(body, vals, seen, writes, fuel + extra) == RunAlone(body, vals, seen, writes, fuel)
    decreases fuel
  {
    match body(seen)
    case Write(t, v) => MoreFuel(body, vals, seen + [v], writes[t := v], fuel - 1, extra);
    case Read(t) =>
      if t in writes {
        MoreFuel(body, vals, seen + [writes[t]], writes, fuel - 1, extra);
      } else if t in vals {
        MoreFuel(body, vals, seen + [vals[t]], writes, fuel - 1, extra);
      }
    case _ =>
  }

  /** A transaction run alone on a store has at most one result and one set of
      writes. */
  lemma SerialMeaningIsUnique(body: Body, vals: map<TVar, Value>, r: Value, writes: map<TVar, Value>,
                              r': Value, writes': map<TVar, Value>)
    requires Serially(body, vals, r, writes) && Serially(body, vals, r', writes')
    ensures r == r' && writes == writes'
  {
    var n: nat :| RunAlone(body, vals, [], map[], n) == Returned(r, writes);
    var m: nat :| RunAlone(body, vals, [], map[], m) == Returned(r', writes');
    MoreFuel(body, vals, [], map[], n, m);
    MoreFuel(body, vals, [], map[], m, n);
  }

  /** A local run whose shared reads all agree with one store is the run that
      the body makes alone on that store. */
  lemma {:induction false} LocalRunIsRunAlone(body: Body, vals: map<TVar, Value>, trace: Trace, fuel: nat)
    requires LocalRun(body, trace)
    requires forall e <- trace :: e.Shared? ==> e.t in vals && vals[e.t] == e.v
    ensures RunAlone(body, vals, [], map[], |trace| + fuel) == RunAlone(body, vals, Seen(trace), Staging(trace), fuel)
    decreases |trace|
  {
    if trace == [] {
      assert Seen(trace) == [];
    } else {
      var pre, e := trace[..|trace| - 1], trace[|trace| - 1];
      assert trace == pre + [e];
      assert e in trace;
      LocalRunIsRunAlone(body, vals, pre, fuel + 1);
      assert Seen(trace) == Seen(pre) + [e.v];
    }
  }

  // ----- The shared state -------------------------------------------------

  datatype Cell = Cell(value: Value, version: int)

  type Store = map<TVar, Cell>

  ghost function Values(store: Store): map<TVar, Value> {
    map t | t in store :: store[t].value
  }

  /** A `Transaction` object: the two dictionaries, and, for the proof, the
      actions performed and the point of the commit log at which each version
      was recorded. */
  datatype Attempt = Attempt(versions: map<TVar, int>, writes: map<TVar, Value>,
                             trace: Trace, since: map<TVar, nat>)

  const Fresh := Attempt(map[], map[], [], map[])

  datatype Goal = Commit(r: Value) | Wait

  /** Where a thread inside `atomically` stands.
      Running: executing the body, no lock held.
      Queued: waiting for the commit lock, to commit or to block.
      Checking: holding the lock, these variables still to be validated.
      Applying: holding the lock, these variables still to be written.
      Bumping: holding the lock and the lock of `t`, whose value has been
      assigned and whose version has not.
      Parked: waiting on the condition.  Waking: notified or timed out. */
  datatype Phase =
    | Running
    | Queued(goal: Goal)
    | Checking(goal: Goal, left: set<TVar>)
    | Applying(r: Value, left: set<TVar>)
    | Bumping(r: Value, left: set<TVar>, t: TVar)
    | Parked
    | Waking

  datatype Thread =
    | Idle
    | Active(body: Body, maxRetries: nat, tries: nat, a: Attempt, phase: Phase)

  /** One entry of the commit log (a record kept for the proof only). */
  datatype Entry = Entry(tid: Tid, body: Body, r: Value, writes: map<TVar, Value>)

  datatype Holder = Free | HeldBy(tid: Tid)

  datatype State = State(
    store: Store,
    holder: Holder,
    threads: map<Tid, Thread>,
    log: seq<Entry>,
    returned: seq<(Tid, Value)>)

  ghost predicate HoldsLock(th: Thread) {
    th.Active? && (th.phase.Checking? || th.phase.Applying? || th.phase.Bumping?)
  }

  ghost predicate Committing(th: Thread) {
    th.Active? && (th.phase.Applying? || th.phase.Bumping?)
  }

  /** Variables whose own lock is held because their value is assigned and
      their version is not. */
  ghost function MidWrite(s: State): set<TVar> {
    if s.holder.HeldBy? && s.holder.tid in s.threads then
      var th := s.threads[s.holder.tid];
      if th.Active? && th.phase.Bumping? then {th.phase.t} else {}
    else {}
  }

  /** Variables that the lock holder has logged a write to and not yet bumped. */
  ghost function Unbumped(s: State): set<TVar> {
    if s.holder.HeldBy? && s.holder.tid in s.threads && s.threads[s.holder.tid].Active?
    then Unwritten(s.threads[s.holder.tid].phase) else {}
  }

  ghost function Unwritten(p: Phase): set<TVar> {
    match p
    case Applying(_, left) => left
    case Bumping(_, left, t) => left + {t}
    case _ => {}
  }

  // ----- Steps ------------------------------------------------------------

  datatype Step =
    | Begin(tid: Tid, body: Body, maxRetries: nat)
    | Act(tid: Tid)
    | Acquire(tid: Tid)
    | Check(tid: Tid, t: TVar)
    | Decide(tid: Tid)
    | Assign(tid: Tid, t: TVar)
    | Bump(tid: Tid)
    | Finish(tid: Tid)
    | Timeout(tid: Tid)
    | Wake(tid: Tid)

  ghost function Restart(th: Thread): Thread
    requires th.Active?
  {
    if th.tries + 1 < th.maxRetries then th.(tries := th.tries + 1, a := Fresh, phase := Running) else Idle
  }

  /** `NoteRead`: remember the version of a variable met for the first time. */
  ghost function NoteRead(a: Attempt, t: TVar, version: int, at: nat): Attempt {
    if t in a.versions then a else a.(versions := a.versions[t := version], since := a.since[t := at])
  }

  ghost function LogPoint(s: State, t: TVar): nat {
    if t in Unbumped(s) && |s.log| > 0 then |s.log| - 1 else |s.log|
  }

  ghost predicate Enabled(s: State, step: Step) {
    && step.tid in s.threads
    && var th := s.threads[step.tid];
       match step
       case Begin(_, _, _) => th.Idle?
       case Act(_) =>
         && th.Active? && th.phase.Running?
         && (match th.body(Seen(th.a.trace))
             case Read(t) => t in s.store && (t in th.a.writes || t in th.a.versions || t !in MidWrite(s))
             case Write(t, _) => t in s.store && (t in th.a.versions || t !in MidWrite(s))
             case _ => true)
       case Acquire(_) => th.Active? && th.phase.Queued? && s.holder.Free?
       case Check(_, t) => th.Active? && th.phase.Checking? && t in th.phase.left && t in th.a.versions && t in s.store
       case Decide(_) => th.Active? && th.phase.Checking? && th.phase.left == {}
       case Assign(_, t) => th.Active? && th.phase.Applying? && t in th.phase.left && t in th.a.writes && t in s.store
       case Bump(_) => th.Active? && th.phase.Bumping? && th.phase.t in s.store
       case Finish(_) => th.Active? && th.phase.Applying? && th.phase.left == {}
       case Timeout(_) => th.Active? && th.phase.Parked?
       case Wake(_) => th.Active? && th.phase.Waking? && s.holder.Free?
  }

  ghost function Perform(s: State, th: Thread): Thread
    requires th.Active? && th.phase.Running?
    requires match th.body(Seen(th.a.trace))
             case Read(t) => t in s.store
             case Write(t, _) => t in s.store
             case _ => true
  {
    match th.body(Seen(th.a.trace))
    case Read(t) =>
      if t in th.a.writes then
        th.(a := th.a.(trace := th.a.trace + [Own(t, th.a.writes[t])]))
      else
        var a := NoteRead(th.a, t, s.store[t].version, LogPoint(s, t));
        th.(a := a.(trace := a.trace + [Shared(t, s.store[t].value)]))
    case Write(t, v) =>
      var a := NoteRead(th.a.(writes := th.a.writes[t := v]), t, s.store[t].version, LogPoint(s, t));
      th.(a := a.(trace := a.trace + [Staged(t, v)]))
    case Return(r) => th.(phase := Queued(Commit(r)))
    case Retry => th.(phase := Queued(Wait))
    case Raise => Idle
  }

  ghost function Notified(th: Thread): Thread {
    if th.Active? && th.phase.Parked? then th.(phase := Waking) else th
  }

  ghost function NotifyAll(threads: map<Tid, Thread>): map<Tid, Thread> {
    map tid | tid in threads :: Notified(threads[tid])
  }

  ghost function Put(s: State, tid: Tid, th: Thread): State {
    s.(threads := s.threads[tid := th])
  }

  /** Validation of one variable: go on, or release the lock and start again. */
  ghost function Checked(s: State, tid: Tid, t: TVar): State
    requires Enabled(s, Check(tid, t))
  {
    var th := s.threads[tid];
    if s.store[t].version == th.a.versions[t] then
      Put(s, tid, th.(phase := Checking(th.phase.goal, th.phase.left - {t})))
    else
      Put(s, tid, Restart(th)).(holder := Free)
  }

  /** The commit point: validation has succeeded and the writes are decided. */
  ghost function Logged(s: State, tid: Tid, r: Value): State
    requires tid in s.threads && s.threads[tid].Active?
  {
    var th := s.threads[tid];
    Put(s, tid, th.(phase := Applying(r, th.a.writes.Keys))).(log := s.log + [Entry(tid, th.body, r, th.a.writes)])
  }

  ghost function Assigned(s: State, tid: Tid, t: TVar): State
    requires Enabled(s, Assign(tid, t))
  {
    var th := s.threads[tid];
    Put(s, tid, th.(phase := Bumping(th.phase.r, th.phase.left - {t}, t)))
    .(store := s.store[t := s.store[t].(value := th.a.writes[t])])
  }

  ghost function Bumped(s: State, tid: Tid): State
    requires Enabled(s, Bump(tid))
  {
    var th := s.threads[tid];
    var t := th.phase.t;
    Put(s, tid, th.(phase := Applying(th.phase.r, th.phase.left)))
    .(store := s.store[t := s.store[t].(version := s.store[t].version + 1)])
  }

  ghost function Finished(s: State, tid: Tid): State
    requires Enabled(s, Finish(tid))
  {
    var th := s.threads[tid];
    var threads := s.threads[tid := Idle];
    s.(threads := if th.a.writes == map[] then threads else NotifyAll(threads),
       holder := Free,
       returned := s.returned + [(tid, th.phase.r)])
  }

  ghost function Do(s: State, step: Step): State
    requires Enabled(s, step)
  {
    var tid := step.tid;
    var th := s.threads[tid];
    match step
    case Begin(_, body, max) => Put(s, tid, if max == 0 then Idle else Active(body, max, 0, Fresh, Running))
    case Act(_) => Put(s, tid, Perform(s, th))
    case Acquire(_) => Put(s, tid, th.(phase := Checking(th.phase.goal, th.a.versions.Keys))).(holder := HeldBy(tid))
    case Check(_, t) => Checked(s, tid, t)
    case Decide(_) =>
      if th.phase.goal.Commit? then Logged(s, tid, th.phase.goal.r)
      else Put(s, tid, th.(phase := Parked)).(holder := Free)
    case Assign(_, t) => Assigned(s, tid, t)
    case Bump(_) => Bumped(s, tid)
    case Finish(_) => Finished(s, tid)
    case Timeout(_) => Put(s, tid, th.(phase := Waking))
    case Wake(_) => Put(s, tid, Restart(th))
  }

  ghost predicate Init(s: State) {
    && s.holder.Free? && s.log == [] && s.returned == []
    && forall tid <- s.threads :: s.threads[tid].Idle?
  }

  ghost predicate IsRun(s0: State, steps: seq<Step>)
    decreases |steps|, 0
  {
    steps == [] ||
    (IsRun(s0, steps[..|steps| - 1]) && Enabled(After(s0, steps[..|steps| - 1]), steps[|steps| - 1]))
  }

  ghost function After(s0: State, steps: seq<Step>): State
    requires IsRun(s0, steps)
    decreases |steps|, 1
  {
    if steps == [] then s0 else Do(After(s0, steps[..|steps| - 1]), steps[|steps| - 1])
  }

  lemma OneMore(s0: State, steps: seq<Step>, step: Step)
    requires IsRun(s0, steps) && Enabled(After(s0, steps), step)
    ensures IsRun(s0, steps + [step]) && After(s0, steps + [step]) == Do(After(s0, steps), step)
  {
    assert (steps + [step])[..|steps|] == steps;
  }
}
