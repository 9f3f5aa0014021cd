// The write-preferring read-write lock: a monitor with one condition, entered
// by any number of threads in any order.

module RwLock {
  type Tid = nat

  // ----- The monitor as a state machine ------------------------------------

  /** The three fields guarded by the condition's mutex. */
  datatype Fields = Fields(readers: int, writersWaiting: int, writerActive: bool)

  /** Where a thread stands.
      ReadReady, WriteReady: about to take the mutex for the first time, or, for
      a reader, woken and about to take it again.
      ReadParked, WriteParked: waiting on the condition.
      WriteWoken: a counted writer, woken and about to take the mutex again. */
  datatype Phase =
    | Outside
    | ReadReady | ReadParked | Reading
    | WriteReady | WriteParked | WriteWoken | Writing

  datatype State = State(f: Fields, threads: map<Tid, Phase>)

  datatype Step =
    | CallRead(tid: Tid)
    | CallWrite(tid: Tid)
    | Advance(tid: Tid)

  predicate ReaderMustWait(f: Fields) {
    f.writerActive || f.writersWaiting > 0
  }

  predicate WriterMustWait(f: Fields) {
    f.readers > 0 || f.writerActive
  }

  function Woken(p: Phase): Phase {
    match p
    case ReadParked => ReadReady
    case WriteParked => WriteWoken
    case _ => p
  }

  function WakeAll(threads: map<Tid, Phase>): map<Tid, Phase> {
    map tid | tid in threads :: Woken(threads[tid])
  }

  /** One section of `read()` under the mutex, up to the wait or the release. */
  function EnterRead(f: Fields): (Fields, Phase) {
    if ReaderMustWait(f) then (f, ReadParked) else (f.(readers := f.readers + 1), Reading)
  }

  function LeaveRead(f: Fields): (Fields, bool) {
    (f.(readers := f.readers - 1), f.readers - 1 == 0)
  }

  /** The first section of `write()`: the writer counts itself as waiting. */
  function ArriveWrite(f: Fields): (Fields, Phase) {
    RecheckWrite(f.(writersWaiting := f.writersWaiting + 1))
  }

  /** A counted writer looks at the condition, for the first time or again. */
  function RecheckWrite(f: Fields): (Fields, Phase) {
    if WriterMustWait(f) then (f, WriteParked)
    else (f.(writersWaiting := f.writersWaiting - 1, writerActive := true), Writing)
  }

  function LeaveWrite(f: Fields): Fields {
    f.(writerActive := false)
  }

  predicate Enabled(s: State, step: Step) {
    && step.tid in s.threads
    && var p := s.threads[step.tid];
       if step.Advance? then !p.Outside? && !p.ReadParked? && !p.WriteParked? else p.Outside?
  }

  function Settle(s: State, tid: Tid, after: (Fields, Phase)): State {
    State(after.0, s.threads[tid := after.1])
  }

  function Leave(s: State, tid: Tid, f: Fields, notify: bool): State {
    var threads := s.threads[tid := Outside];
    State(f, if notify then WakeAll(threads) else threads)
  }

  function Do(s: State, step: Step): State
    requires Enabled(s, step)
  {
    var tid := step.tid;
    match step
    case CallRead(_) => s.(threads := s.threads[tid := ReadReady])
    case CallWrite(_) => s.(threads := s.threads[tid := WriteReady])
    case Advance(_) =>
      match s.threads[tid]
      case ReadReady => Settle(s, tid, EnterRead(s.f))
      case WriteReady => Settle(s, tid, ArriveWrite(s.f))
      case WriteWoken => Settle(s, tid, RecheckWrite(s.f))
      case Reading => Leave(s, tid, LeaveRead(s.f).0, LeaveRead(s.f).1)
      case Writing => Leave(s, tid, LeaveWrite(s.f), true)
      case _ => s
  }

  predicate Init(s: State) {
    s.f == Fields(0, 0, false) && forall tid <- s.threads :: s.threads[tid].Outside?
  }

  ghost predicate IsRun(s0: State, steps: seq<Step>)
    decreases |steps|, 0
  {
    steps == [] ||
    (IsRun(s0, steps[..|steps| - 1]) && Enabled(After(s0, steps[..|steps| - 1]), steps[|steps| - 1]))
  }

  ghost function After(s0: State, steps: seq<Step>): State
    requires IsRun(s0, steps)
    decreases |steps|, 1
  {
    if steps == [] then s0 else Do(After(s0, steps[..|steps| - 1]), steps[|steps| - 1])
  }

  // ----- The invariant -----------------------------------------------------

  ghost function Those(s: State, ps: set<Phase>): set<Tid> {
    set tid | tid in s.threads && s.threads[tid] in ps
  }

  ghost function Readers(s: State): set<Tid> { Those(s, {Reading}) }

  ghost function Writers(s: State): set<Tid> { Those(s, {Writing}) }

  ghost function WaitingWriters(s: State): set<Tid> { Those(s, {WriteParked, WriteWoken}) }

  ghost predicate Parked(p: Phase) { p.ReadParked? || p.WriteParked? }

  /** The fields agree with the threads inside and the writers waiting. */
  ghost predicate Truthful(f: Fields, readers: set<Tid>, writers: set<Tid>, waiting: set<Tid>) {
    && f.readers == |readers|
    && f.writersWaiting == |waiting|
    && |writers| == (if f.writerActive then 1 else 0)
    && (f.writerActive ==> readers == {})
  }

  /** Whoever is parked has a reason to wait. */
  ghost predicate ParkedWithReason(s: State) {
    forall tid <- s.threads ::
      && (s.threads[tid].ReadParked? ==> ReaderMustWait(s.f))
      && (s.threads[tid].WriteParked? ==> WriterMustWait(s.f))
  }

  ghost predicate Inv(s: State) {
    Truthful(s.f, Readers(s), Writers(s), WaitingWriters(s)) && ParkedWithReason(s)
  }

  /** Moving one thread to phase `p` moves it between the three groups. */
  lemma Moved(s: State, tid: Tid, f: Fields, p: Phase)
    requires tid in s.threads
    ensures var s' := State(f, s.threads[tid := p]);
            && Readers(s') == (if p.Reading? then Readers(s) + {tid} else Readers(s) - {tid})
            && Writers(s') == (if p.Writing? then Writers(s) + {tid} else Writers(s) - {tid})
            && WaitingWriters(s') == (if p.WriteParked? || p.WriteWoken? then WaitingWriters(s) + {tid}
                                      else WaitingWriters(s) - {tid})
    ensures var s' := State(f, s.threads[tid := p]);
            && (tid !in Readers(s) && !p.Reading? ==> Readers(s') == Readers(s))
            && (tid !in Writers(s) && !p.Writing? ==> Writers(s') == Writers(s))
    ensures tid in Readers(s) <==> s.threads[tid].Reading?
    ensures tid in Writers(s) <==> s.threads[tid].Writing?
    ensures tid in WaitingWriters(s) <==> s.threads[tid].WriteParked? || s.threads[tid].WriteWoken?
  {}

  lemma WakingKeepsGroups(s: State)
    ensures var s' := s.(threads := WakeAll(s.threads));
            Readers(s') == Readers(s) && Writers(s') == Writers(s) && WaitingWriters(s') == WaitingWriters(s)
  {}

  lemma WakingLeavesNobodyParked(s: State)
    ensures ParkedWithReason(s.(threads := WakeAll(s.threads)))
  {}

  lemma SettleParked(s: State, tid: Tid, f: Fields, p: Phase)
    requires ParkedWithReason(s) && tid in s.threads
    requires ReaderMustWait(s.f) ==> ReaderMustWait(f)
    requires WriterMustWait(s.f) ==> WriterMustWait(f)
    requires (p.ReadParked? ==> ReaderMustWait(f)) && (p.WriteParked? ==> WriterMustWait(f))
    ensures ParkedWithReason(State(f, s.threads[tid := p]))
  {}

  lemma CallKeeps(s: State, tid: Tid, p: Phase)
    requires Inv(s) && tid in s.threads && s.threads[tid].Outside? && (p.ReadReady? || p.WriteReady?)
    ensures Inv(s.(threads := s.threads[tid := p]))
  {
    Moved(s, tid, s.f, p);
    SettleParked(s, tid, s.f, p);
  }

  lemma Singleton<T>(a: set<T>, t: T)
    requires |a| == 1 && t in a
    ensures a == {t}
  {
    assert |a - {t}| == 0;
  }

  lemma EnterReadTruthful(f: Fields, r: set<Tid>, w: set<Tid>, q: set<Tid>, tid: Tid)
    requires Truthful(f, r, w, q) && tid !in r
    ensures EnterRead(f).1.Reading? ==> Truthful(EnterRead(f).0, r + {tid}, w, q)
  {}

  lemma RecheckTruthful(f: Fields, r: set<Tid>, w: set<Tid>, q: set<Tid>, tid: Tid)
    requires Truthful(f, r, w, q) && tid in q
    ensures RecheckWrite(f).1.Writing? ==> Truthful(RecheckWrite(f).0, r, w + {tid}, q - {tid})
  {
    if !WriterMustWait(f) {
      assert w == {} && w + {tid} == {tid};
    }
  }

  lemma EnterReadKeeps(s: State, tid: Tid)
    requires Inv(s) && tid in s.threads && s.threads[tid].ReadReady?
    ensures Inv(Settle(s, tid, EnterRead(s.f)))
  {
    var (f, p) := EnterRead(s.f);
    Moved(s, tid, f, p);
    EnterReadTruthful(s.f, Readers(s), Writers(s), WaitingWriters(s), tid);
    SettleParked(s, tid, f, p);
  }

  lemma RecheckKeeps(s: State, tid: Tid)
    requires Inv(s) && tid in s.threads && s.threads[tid].WriteWoken?
    ensures Inv(Settle(s, tid, RecheckWrite(s.f)))
  {
    var (f, p) := RecheckWrite(s.f);
    Moved(s, tid, f, p);
    SettleParked(s, tid, f, p);
    if WriterMustWait(s.f) {
      assert WaitingWriters(s) + {tid} == WaitingWriters(s);
    } else {
      RecheckTruthful(s.f, Readers(s), Writers(s), WaitingWriters(s), tid);
    }
  }

  lemma ArriveKeeps(s: State, tid: Tid)
    requires Inv(s) && tid in s.threads && s.threads[tid].WriteReady?
    ensures Inv(Settle(s, tid, ArriveWrite(s.f)))
  {
    var q := WaitingWriters(s);
    var (f, p) := ArriveWrite(s.f);
    Moved(s, tid, f, p);
    assert tid !in q && q + {tid} - {tid} == q && |q + {tid}| == |q| + 1;
    RecheckTruthful(s.f.(writersWaiting := s.f.writersWaiting + 1), Readers(s), Writers(s), q + {tid}, tid);
    SettleParked(s, tid, f, p);
  }

  lemma LeaveReadKeeps(s: State, tid: Tid)
    requires Inv(s) && tid in s.threads && s.threads[tid].Reading?
    ensures Inv(Leave(s, tid, LeaveRead(s.f).0, LeaveRead(s.f).1))
  {
    var f := LeaveRead(s.f).0;
    var left := State(f, s.threads[tid := Outside]);
    Moved(s, tid, f, Outside);
    assert Truthful(f, Readers(left), Writers(left), WaitingWriters(left));
    if LeaveRead(s.f).1 {
      WakingKeepsGroups(left);
      WakingLeavesNobodyParked(left);
    } else {
      SettleParked(s, tid, f, Outside);
    }
  }

  lemma LeaveWriteKeeps(s: State, tid: Tid)
    requires Inv(s) && tid in s.threads && s.threads[tid].Writing?
    ensures Inv(Leave(s, tid, LeaveWrite(s.f), true))
  {
    var f := LeaveWrite(s.f);
    var left := State(f, s.threads[tid := Outside]);
    Moved(s, tid, f, Outside);
    Singleton(Writers(s), tid);
    assert Truthful(f, Readers(left), Writers(left), WaitingWriters(left));
    WakingKeepsGroups(left);
    WakingLeavesNobodyParked(left);
  }

  lemma StepKeeps(s: State, step: Step)
    requires Inv(s) && Enabled(s, step)
    ensures Inv(Do(s, step))
  {
    var tid := step.tid;
    match step
    case CallRead(_) => CallKeeps(s, tid, ReadReady);
    case CallWrite(_) => CallKeeps(s, tid, WriteReady);
    case Advance(_) =>
      match s.threads[tid]
      case Reading => LeaveReadKeeps(s, tid);
      case Writing => LeaveWriteKeeps(s, tid);
      case ReadReady => EnterReadKeeps(s, tid);
      case WriteReady => ArriveKeeps(s, tid);
      case WriteWoken => RecheckKeeps(s, tid);
  }

  lemma InitInv(s0: State)
    requires Init(s0)
    ensures Inv(s0)
  {
    assert Readers(s0) == {} && Writers(s0) == {} && WaitingWriters(s0) == {};
  }

  lemma {:induction false} RunKeepsInv(s: State, steps: seq<Step>)
    requires Inv(s) && IsRun(s, steps)
    ensures Inv(After(s, steps))
    decreases |steps|
  {
    if steps != [] {
      RunKeepsInv(s, steps[..|steps| - 1]);
      StepKeeps(After(s, steps[..|steps| - 1]), steps[|steps| - 1]);
    }
  }

  lemma RunKeeps(s0: State, steps: seq<Step>)
    requires Init(s0) && IsRun(s0, steps)
    ensures Inv(After(s0, steps))
  {
    InitInv(s0);
    RunKeepsInv(s0, steps);
  }

  // ----- Safety ------------------------------------------------------------

  /** A writer excludes everybody, and the counters tell the truth. */
  lemma MutualExclusion(s0: State, steps: seq<Step>)
    requires Init(s0) && IsRun(s0, steps)
    ensures var s := After(s0, steps);
            && (forall t, u | t in s.threads && u in s.threads && t != u && s.threads[t].Writing? ::
                  !s.threads[u].Writing? && !s.threads[u].Reading?)
            && s.f.readers == |Readers(s)| && s.f.writersWaiting == |WaitingWriters(s)|
            && (s.f.writerActive <==> exists t :: t in s.threads && s.threads[t].Writing?)
  {
    RunKeeps(s0, steps);
    var s := After(s0, steps);
    forall t, u | t in s.threads && u in s.threads && t != u && s.threads[t].Writing?
      ensures !s.threads[u].Writing? && !s.threads[u].Reading?
    {
      Singleton(Writers(s), t);
      assert s.threads[u].Reading? ==> u in Readers(s);
      assert s.threads[u].Writing? ==> u in Writers(s);
    }
    if s.f.writerActive {
      var t :| t in Writers(s);
    }
    forall t | t in s.threads && s.threads[t].Writing? ensures t in Writers(s) {}
  }

  // ----- Who may enter -----------------------------------------------------

  ghost predicate SomebodyWrites(s: State) {
    exists t :: t in s.threads && s.threads[t] == Writing
  }

  ghost predicate SomebodyReads(s: State) {
    exists t :: t in s.threads && s.threads[t] == Reading
  }

  ghost predicate AWriterWaits(s: State) {
    exists t :: t in s.threads && (s.threads[t] == WriteParked || s.threads[t] == WriteWoken)
  }

  /** The two wait conditions, over the threads. */
  lemma WaitConditions(s: State)
    requires Inv(s)
    ensures ReaderMustWait(s.f) <==> SomebodyWrites(s) || AWriterWaits(s)
    ensures WriterMustWait(s.f) <==> SomebodyReads(s) || SomebodyWrites(s)
  {
    MembersAreThose(s);
    NonEmpty(Writers(s));
    NonEmpty(Readers(s));
    NonEmpty(WaitingWriters(s));
  }

  lemma NonEmpty(tids: set<Tid>)
    ensures |tids| > 0 <==> exists t :: t in tids
  {
    if |tids| > 0 {
      assert tids != {};
    }
  }

  lemma MembersAreThose(s: State)
    ensures SomebodyWrites(s) <==> exists t :: t in Writers(s)
    ensures SomebodyReads(s) <==> exists t :: t in Readers(s)
    ensures AWriterWaits(s) <==> exists t :: t in WaitingWriters(s)
  {
    if SomebodyWrites(s) {
      var t :| t in s.threads && s.threads[t] == Writing;
      assert t in Writers(s);
    }
    if SomebodyReads(s) {
      var t :| t in s.threads && s.threads[t] == Reading;
      assert t in Readers(s);
    }
    if AWriterWaits(s) {
      var t :| t in s.threads && (s.threads[t] == WriteParked || s.threads[t] == WriteWoken);
      assert t in WaitingWriters(s);
    }
  }

  /** A reader gets in exactly when nobody writes or waits to write, whoever reads;
      otherwise it parks. */
  lemma ReaderEntersExactly(s0: State, steps: seq<Step>, tid: Tid)
    requires Init(s0) && IsRun(s0, steps)
    requires tid in After(s0, steps).threads && After(s0, steps).threads[tid] == ReadReady
    ensures var s := After(s0, steps);
            && Enabled(s, Advance(tid))
            && Do(s, Advance(tid)).threads
               == s.threads[tid := if SomebodyWrites(s) || AWriterWaits(s) then ReadParked else Reading]
  {
    RunKeeps(s0, steps);
    WaitConditions(After(s0, steps));
  }

  /** A writer gets in exactly when nobody is inside; otherwise it parks. */
  lemma WriterEntersExactly(s0: State, steps: seq<Step>, tid: Tid)
    requires Init(s0) && IsRun(s0, steps) && tid in After(s0, steps).threads
    requires After(s0, steps).threads[tid] == WriteReady || After(s0, steps).threads[tid] == WriteWoken
    ensures var s := After(s0, steps);
            && Enabled(s, Advance(tid))
            && Do(s, Advance(tid)).threads
               == s.threads[tid := if SomebodyReads(s) || SomebodyWrites(s) then WriteParked else Writing]
  {
    RunKeeps(s0, steps);
    WaitConditions(After(s0, steps));
  }

  /** Whoever leaves wakes all that are parked if nobody is left inside, and nobody
      otherwise. */
  lemma LeavingWakesExactly(s0: State, steps: seq<Step>, tid: Tid)
    requires Init(s0) && IsRun(s0, steps) && tid in After(s0, steps).threads
    requires After(s0, steps).threads[tid] == Reading || After(s0, steps).threads[tid] == Writing
    ensures var s := After(s0, steps); var s' := Do(s, Advance(tid));
            var last := !exists t :: t in s.threads && t != tid && s.threads[t] == Reading;
            && s'.threads.Keys == s.threads.Keys && s'.threads[tid] == Outside
            && forall t <- s.threads | t != tid ::
                 s'.threads[t] == if last && s.threads[t] == ReadParked then ReadReady
                                  else if last && s.threads[t] == WriteParked then WriteWoken
                                  else s.threads[t]
  {
    RunKeeps(s0, steps);
    var s := After(s0, steps);
    assert tid in Those(s, {s.threads[tid]});
    NonEmpty(Readers(s) - {tid});
    forall t | t in s.threads && t != tid && s.threads[t] == Reading ensures t in Readers(s) - {tid} {}
    if s.threads[tid] == Reading {
      assert |Readers(s) - {tid}| == |Readers(s)| - 1;
    } else {
      assert Readers(s) == {};
    }
  }

  lemma OneMore(s0: State, steps: seq<Step>, step: Step)
    requires IsRun(s0, steps) && Enabled(After(s0, steps), step)
    ensures IsRun(s0, steps + [step]) && After(s0, steps + [step]) == Do(After(s0, steps), step)
  {
    assert (steps + [step])[..|steps|] == steps;
  }

  /** The lock is shared: from the start, any set of threads can all be reading at
      once. */
  lemma {:induction false} ReadersShare(s0: State, tids: set<Tid>) returns (steps: seq<Step>)
    requires Init(s0) && tids <= s0.threads.Keys
    ensures IsRun(s0, steps) && After(s0, steps).threads == map tid <- s0.threads :: if tid in tids then Reading else Outside
    decreases tids
  {
    if tids == {} {
      steps := [];
    } else {
      var tid :| tid in tids;
      steps := ReadersShare(s0, tids - {tid});
      OneMore(s0, steps, CallRead(tid));
      steps := steps + [CallRead(tid)];
      ReaderEntersExactly(s0, steps, tid);
      OneMore(s0, steps, Advance(tid));
      steps := steps + [Advance(tid)];
    }
  }

  /** No wake-up is lost: a thread still parked after any run has a reason to
      wait, and somebody who will notify it is inside or on the way. */
  lemma NoLostWakeup(s0: State, steps: seq<Step>, tid: Tid)
    requires Init(s0) && IsRun(s0, steps)
    requires tid in After(s0, steps).threads && Parked(After(s0, steps).threads[tid])
    ensures var s := After(s0, steps);
            && (if s.threads[tid] == ReadParked then SomebodyWrites(s) || AWriterWaits(s)
                else SomebodyReads(s) || SomebodyWrites(s))
            && exists t :: t in s.threads && (s.threads[t].Reading? || s.threads[t].Writing? || s.threads[t].WriteWoken?)
  {
    RunKeeps(s0, steps);
    var s := After(s0, steps);
    SomebodyWillMove(s, tid);
    WaitConditions(s);
  }

  lemma SomebodyWillMove(s: State, tid: Tid)
    requires Inv(s) && tid in s.threads && Parked(s.threads[tid])
    ensures exists t :: t in s.threads && (s.threads[t].Reading? || s.threads[t].Writing? || s.threads[t].WriteWoken?)
  {
    if s.f.writerActive {
      var t :| t in Writers(s);
    } else if s.f.readers > 0 {
      assert Readers(s) != {};
      var t :| t in Readers(s);
    } else {
      assert WaitingWriters(s) != {};
      var t :| t in WaitingWriters(s);
      assert !s.threads[t].WriteParked?;
    }
  }

  lemma NoNewReader(s: State, step: Step)
    requires Enabled(s, step) && s.f.writersWaiting > 0
    ensures Readers(Do(s, step)) <= Readers(s)
  {}

  /** Writer preference over whole runs: as long as some writer is waiting,
      nobody new starts reading. */
  lemma {:induction false} NoReaderOvertakesAWaitingWriter(s: State, steps: seq<Step>)
    requires IsRun(s, steps)
    requires forall k | 0 <= k < |steps| :: IsRun(s, steps[..k]) && After(s, steps[..k]).f.writersWaiting > 0
    ensures Readers(After(s, steps)) <= Readers(s)
    decreases |steps|
  {
    if steps != [] {
      var front := steps[..|steps| - 1];
      assert forall k | 0 <= k < |front| :: front[..k] == steps[..k];
      NoReaderOvertakesAWaitingWriter(s, front);
      NoNewReader(After(s, front), steps[|steps| - 1]);
    }
  }

  // ----- Liveness ----------------------------------------------------------

  ghost function Busy(s: State): set<Tid> {
    set tid | tid in s.threads && !s.threads[tid].Outside?
  }

  ghost function Runnable(s: State): set<Tid> {
    Those(s, {ReadReady, WriteReady, WriteWoken})
  }

  lemma SomebodyCanAdvance(s: State) returns (tid: Tid)
    requires Inv(s) && Busy(s) != {}
    ensures Enabled(s, Advance(tid))
  {
    tid :| tid in Busy(s);
    if Parked(s.threads[tid]) {
      SomebodyWillMove(s, tid);
      tid :| tid in s.threads && (s.threads[tid].Reading? || s.threads[tid].Writing? || s.threads[tid].WriteWoken?);
    }
  }

  /** As long as a call is unfinished, some thread can advance. */
  lemma NoDeadlock(s0: State, steps: seq<Step>) returns (tid: Tid)
    requires Init(s0) && IsRun(s0, steps) && Busy(After(s0, steps)) != {}
    ensures Enabled(After(s0, steps), Advance(tid))
  {
    RunKeeps(s0, steps);
    tid := SomebodyCanAdvance(After(s0, steps));
  }

  /** Every advance either finishes a call or uses up a runnable thread. */
  lemma AdvanceMakesProgress(s: State, tid: Tid)
    requires Enabled(s, Advance(tid))
    ensures var s' := Do(s, Advance(tid));
            || |Busy(s')| < |Busy(s)|
            || (Busy(s') == Busy(s) && |Runnable(s')| < |Runnable(s)|)
  {
    var s' := Do(s, Advance(tid));
    assert tid in Busy(s);
    if s.threads[tid].Reading? || s.threads[tid].Writing? {
      assert Busy(s') == Busy(s) - {tid};
    } else {
      assert tid in Runnable(s);
      assert Busy(s') == Busy(s);
      assert Runnable(s') == Runnable(s) - {tid};
    }
  }

  lemma SubsetSize<T>(a: set<T>, b: set<T>)
    requires a <= b
    ensures |a| <= |b|
  {
    assert b == a + (b - a);
  }

  ghost function Work(s: State): nat {
    |Busy(s)| * (|s.threads| + 1) + |Runnable(s)|
  }

  lemma Lexicographic(b: nat, b': nat, r: nat, r': nat, n: nat)
    requires r' < n
    requires b' < b || (b' == b && r' < r)
    ensures b' * n + r' < b * n + r
  {
    if b' < b {
      Scale(b - b' - 1, n);
      assert b == b' + 1 + (b - b' - 1);
      Distribute(b', b - b' - 1, n);
    }
  }

  lemma Scale(d: nat, n: nat)
    ensures d * n >= 0
  {}

  lemma Distribute(x: int, d: int, n: int)
    ensures (x + 1 + d) * n == x * n + n + d * n
  {}

  lemma AdvanceUsesWork(s: State, tid: Tid)
    requires Enabled(s, Advance(tid))
    ensures Work(Do(s, Advance(tid))) < Work(s)
  {
    var s' := Do(s, Advance(tid));
    AdvanceMakesProgress(s, tid);
    SubsetSize(Runnable(s'), s'.threads.Keys);
    SameSize(s, tid);
    Lexicographic(|Busy(s)|, |Busy(s')|, |Runnable(s)|, |Runnable(s')|, |s.threads| + 1);
  }

  lemma SameSize(s: State, tid: Tid)
    requires Enabled(s, Advance(tid))
    ensures |Do(s, Advance(tid)).threads| == |s.threads|
  {
    var s' := Do(s, Advance(tid));
    assert s'.threads.Keys == s.threads.Keys;
    assert |s'.threads| == |s'.threads.Keys| && |s.threads| == |s.threads.Keys|;
  }

  lemma {:induction false} AdvancesUseWork(s: State, steps: seq<Step>)
    requires IsRun(s, steps) && forall step <- steps :: step.Advance?
    ensures |steps| + Work(After(s, steps)) <= Work(s)
    decreases |steps|
  {
    if steps != [] {
      AdvancesUseWork(s, steps[..|steps| - 1]);
      assert steps[|steps| - 1] in steps;
      AdvanceUsesWork(After(s, steps[..|steps| - 1]), steps[|steps| - 1].tid);
    }
  }

  lemma WorkIsBounded(s: State)
    ensures Work(s) <= |s.threads| * (|s.threads| + 1) + |s.threads|
  {
    var n := |s.threads|;
    assert n == |s.threads.Keys|;
    SubsetSize(Busy(s), s.threads.Keys);
    SubsetSize(Runnable(s), s.threads.Keys);
    Scale(n - |Busy(s)|, n + 1);
    assert (n - |Busy(s)|) * (n + 1) == n * (n + 1) - |Busy(s)| * (n + 1);
  }

  /** Once no new calls arrive, every schedule serves everybody.  From any
      reachable state of n threads, whoever is scheduled, there are at most
      n * (n + 1) + n advances, and when no thread can advance any more, every
      call has returned. */
  lemma EveryCallIsServed(s0: State, steps: seq<Step>, more: seq<Step>)
    requires Init(s0) && IsRun(s0, steps) && IsRun(After(s0, steps), more) && forall step <- more :: step.Advance?
    ensures var n := |After(s0, steps).threads|; |more| <= n * (n + 1) + n
    ensures var end := After(After(s0, steps), more);
            (forall tid :: !Enabled(end, Advance(tid))) <==> Busy(end) == {}
  {
    var s := After(s0, steps);
    RunKeeps(s0, steps);
    RunKeepsInv(s, more);
    AdvancesUseWork(s, more);
    WorkIsBounded(s);
    var end := After(s, more);
    if Busy(end) != {} {
      var tid := SomebodyCanAdvance(end);
    } else {
      assert forall tid :: Enabled(end, Advance(tid)) ==> tid in Busy(end);
    }
  }

  // ----- The lock object ---------------------------------------------------

  /** The lock's fields, updated in place by the sections of code that run
      under the mutex: from taking it to `wait` or to releasing it. */
  class Lock {
    var readers: int
    var writersWaiting: int
    var writerActive: bool

    function View(): Fields
      reads this
    {
      Fields(readers, writersWaiting, writerActive)
    }

    constructor ()
      ensures View() == Fields(0, 0, false)
    {
      readers, writersWaiting, writerActive := 0, 0, false;
    }

    method ReadSection() returns (p: Phase)
      modifies this
      ensures (View(), p) == EnterRead(old(View()))
    {
      if writerActive || writersWaiting > 0 {
        return ReadParked;
      }
      readers := readers + 1;
      return Reading;
    }

    method ReadExit() returns (notify: bool)
      modifies this
      ensures (View(), notify) == LeaveRead(old(View()))
    {
      readers := readers - 1;
      return readers == 0;
    }

    method WriteSection() returns (p: Phase)
      modifies this
      ensures (View(), p) == ArriveWrite(old(View()))
    {
      writersWaiting := writersWaiting + 1;
      p := WriteLoop();
    }

    method WriteLoop() returns (p: Phase)
      modifies this
      ensures (View(), p) == RecheckWrite(old(View()))
    {
      if readers > 0 || writerActive {
        return WriteParked;
      }
      writersWaiting := writersWaiting - 1;
      writerActive := true;
      return Writing;
    }

    method WriteExit()
      modifies this
      ensures View() == LeaveWrite(old(View()))
    {
      writerActive := false;
    }
  }
}
