// A running transaction need not see a consistent snapshot; only a committed
// one has.

module StmTornRead {
  import opened Stm
  import opened StmProofs

  ghost function TwoReads(x: TVar, y: TVar): Body {
    seen => if |seen| == 0 then Read(x) else if |seen| == 1 then Read(y) else Retry
  }

  ghost function TwoWrites(x: TVar, y: TVar, v: Value): Body {
    seen => if |seen| == 0 then Write(x, v) else if |seen| == 1 then Write(y, v) else Return(v)
  }

  ghost function FirstStaged(x: TVar, v: Value): Attempt {
    Attempt(map[x := 0], map[x := v], [Staged(x, v)], map[x := 0])
  }

  /** Thread 1 begins and stages `v` for `x`. */
  lemma StageFirst(s0: State, x: TVar, y: TVar, u: Value, v: Value) returns (steps: seq<Step>)
    requires x != y
    requires s0 == State(map[x := Cell(u, 0), y := Cell(u, 0)], Free, map[0 := Idle, 1 := Idle], [], [])
    ensures IsRun(s0, steps)
    ensures After(s0, steps) == Put(s0, 1, Active(TwoWrites(x, y, v), 1, 0, FirstStaged(x, v), Running))
  {
    var body := TwoWrites(x, y, v);
    assert Seen([]) == [];
    var s1 := Put(s0, 1, Active(body, 1, 0, Fresh, Running));
    assert After(s0, []) == s0 && Do(s0, Begin(1, body, 1)) == s1;
    OneMore(s0, [], Begin(1, body, 1));
    steps := [] + [Begin(1, body, 1)];
    assert MidWrite(s1) == {} && LogPoint(s1, x) == 0;
    assert Perform(s1, s1.threads[1]) == Active(body, 1, 0, FirstStaged(x, v), Running);
    assert Enabled(s1, Act(1)) && Do(s1, Act(1)) == Put(s0, 1, Active(body, 1, 0, FirstStaged(x, v), Running));
    hide IsRun, After, Do, Enabled;
    OneMore(s0, steps, Act(1));
    steps := steps + [Act(1)];
  }

  /** Thread 1 runs its body, which stages `v` for both variables. */
  lemma StageBoth(s0: State, x: TVar, y: TVar, u: Value, v: Value) returns (steps: seq<Step>, a: Attempt)
    requires x != y
    requires s0 == State(map[x := Cell(u, 0), y := Cell(u, 0)], Free, map[0 := Idle, 1 := Idle], [], [])
    ensures IsRun(s0, steps)
    ensures a.versions == map[x := 0, y := 0] && a.writes == map[x := v, y := v]
    ensures After(s0, steps) == Put(s0, 1, Active(TwoWrites(x, y, v), 1, 0, a, Queued(Commit(v))))
  {
    hide After, IsRun;
    var body := TwoWrites(x, y, v);
    var a1 := FirstStaged(x, v);
    a := Attempt(map[x := 0, y := 0], map[x := v, y := v], [Staged(x, v), Staged(y, v)], map[x := 0, y := 0]);
    assert Seen(a1.trace) == [v] && Seen(a.trace) == [v, v];
    steps := StageFirst(s0, x, y, u, v);
    var s2 := Put(s0, 1, Active(body, 1, 0, a1, Running));
    assert a1.writes[y := v] == a.writes && a1.versions[y := 0] == a.versions && a1.since[y := 0] == a.since;
    assert a1.trace + [Staged(y, v)] == a.trace;
    assert Perform(s2, s2.threads[1]) == Active(body, 1, 0, a, Running);
    OneMore(s0, steps, Act(1));
    steps := steps + [Act(1)];
    steps := BodyReturns(s0, steps, body, a, v);
  }

  /** Thread 1's body returns, and the thread queues for the commit lock. */
  lemma BodyReturns(s0: State, steps0: seq<Step>, body: Body, a: Attempt, v: Value) returns (steps: seq<Step>)
    requires IsRun(s0, steps0) && 1 in s0.threads && body(Seen(a.trace)) == Return(v)
    requires After(s0, steps0) == Put(s0, 1, Active(body, 1, 0, a, Running))
    ensures IsRun(s0, steps) && After(s0, steps) == Put(s0, 1, Active(body, 1, 0, a, Queued(Commit(v))))
  {
    hide After, IsRun;
    OneMore(s0, steps0, Act(1));
    steps := steps0 + [Act(1)];
  }

  /** Thread 1 takes the lock and validates both variables. */
  lemma ValidateBoth(s0: State, steps0: seq<Step>, s: State, x: TVar, y: TVar) returns (steps: seq<Step>)
    requires x != y && IsRun(s0, steps0) && After(s0, steps0) == s
    requires s.holder.Free? && 1 in s.threads && s.threads[1].Active? && s.threads[1].phase.Queued?
    requires s.threads[1].a.versions == map[x := 0, y := 0]
    requires x in s.store && y in s.store && s.store[x].version == 0 == s.store[y].version
    ensures IsRun(s0, steps)
    ensures After(s0, steps) ==
            Put(s, 1, s.threads[1].(phase := Checking(s.threads[1].phase.goal, {}))).(holder := HeldBy(1))
  {
    var th := s.threads[1];
    assert th.a.versions.Keys == {x, y} && {x, y} - {x} == {y} && {y} - {y} == {};
    OneMore(s0, steps0, Acquire(1));
    steps := steps0 + [Acquire(1)];
    var s1 := Put(s, 1, th.(phase := Checking(th.phase.goal, {x, y}))).(holder := HeldBy(1));
    assert After(s0, steps) == s1;
    OneMore(s0, steps, Check(1, x));
    steps := steps + [Check(1, x)];
    assert After(s0, steps) == Put(s1, 1, th.(phase := Checking(th.phase.goal, {y})));
    OneMore(s0, steps, Check(1, y));
    steps := steps + [Check(1, y)];
  }

  /** Thread 1 reaches its commit point. */
  lemma Decided(s0: State, steps0: seq<Step>, s: State, x: TVar, y: TVar, v: Value) returns (steps: seq<Step>)
    requires IsRun(s0, steps0) && After(s0, steps0) == s
    requires 1 in s.threads && s.threads[1].Active? && s.threads[1].phase == Checking(Commit(v), {})
    requires s.threads[1].a.writes == map[x := v, y := v] && s.log == []
    ensures IsRun(s0, steps)
    ensures After(s0, steps) ==
            Put(s, 1, s.threads[1].(phase := Applying(v, {x, y})))
            .(log := [Entry(1, s.threads[1].body, v, s.threads[1].a.writes)])
  {
    assert s.threads[1].a.writes.Keys == {x, y};
    OneMore(s0, steps0, Decide(1));
    steps := steps0 + [Decide(1)];
  }

  /** Thread 1 writes `x`, but not yet `y`. */
  lemma ApplyFirst(s0: State, steps0: seq<Step>, s: State, x: TVar, y: TVar, u: Value, v: Value)
    returns (steps: seq<Step>)
    requires x != y && IsRun(s0, steps0) && After(s0, steps0) == s
    requires 1 in s.threads && s.threads[1].Active? && s.threads[1].phase == Applying(v, {x, y})
    requires s.threads[1].a.writes == map[x := v, y := v]
    requires s.store == map[x := Cell(u, 0), y := Cell(u, 0)]
    ensures IsRun(s0, steps)
    ensures After(s0, steps) ==
            Put(s, 1, s.threads[1].(phase := Applying(v, {y}))).(store := map[x := Cell(v, 1), y := Cell(u, 0)])
  {
    hide After, IsRun;
    var th := s.threads[1];
    assert {x, y} - {x} == {y};
    OneMore(s0, steps0, Assign(1, x));
    steps := steps0 + [Assign(1, x)];
    var s2 := Put(s, 1, th.(phase := Bumping(v, {y}, x))).(store := map[x := Cell(v, 0), y := Cell(u, 0)]);
    assert After(s0, steps) == s2;
    OneMore(s0, steps, Bump(1));
    steps := steps + [Bump(1)];
    assert s2.store[x := Cell(v, 1)] == map[x := Cell(v, 1), y := Cell(u, 0)];
  }

  lemma SerialStoresAgree(x: TVar, y: TVar, u: Value, v: Value, e: Entry)
    requires x != y && e.writes == map[x := v, y := v]
    ensures var init, log := map[x := u, y := u], [e];
            forall k | 0 <= k <= |log| ::
              var at := SerialStore(init, log[..k]);
              x in at && y in at && at[x] == at[y]
  {
    var log := [e];
    assert log[..0] == [] && log[..1] == log;
  }

  /** Thread 1 half way through its commit. */
  lemma HalfCommitted(x: TVar, y: TVar, u: Value, v: Value) returns (s0: State, steps: seq<Step>, e: Entry)
    requires x != y
    ensures Init(s0) && Values(s0.store) == map[x := u, y := u] && IsRun(s0, steps)
    ensures var s := After(s0, steps);
            && s.store == map[x := Cell(v, 1), y := Cell(u, 0)] && s.holder == HeldBy(1) && s.log == [e]
            && 0 in s.threads && 1 in s.threads && s.threads[0].Idle?
            && s.threads[1].Active? && s.threads[1].phase == Applying(v, {y})
    ensures e.writes == map[x := v, y := v]
  {
    hide After, IsRun, TwoWrites;
    s0 := State(map[x := Cell(u, 0), y := Cell(u, 0)], Free, map[0 := Idle, 1 := Idle], [], []);
    var a;
    steps, a := StageBoth(s0, x, y, u, v);
    var s1 := After(s0, steps);
    steps := ValidateBoth(s0, steps, s1, x, y);
    var s2 := After(s0, steps);
    steps := Decided(s0, steps, s2, x, y, v);
    var s3 := After(s0, steps);
    steps := ApplyFirst(s0, steps, s3, x, y, u, v);
    e := Entry(1, TwoWrites(x, y, v), v, a.writes);
  }

  /** Thread 0 begins a transaction that reads `x` and then `y`. */
  lemma ReadBoth(s0: State, steps0: seq<Step>, s: State, x: TVar, y: TVar, u: Value, v: Value)
    returns (steps: seq<Step>)
    requires x != y && IsRun(s0, steps0) && After(s0, steps0) == s
    requires s.store == map[x := Cell(v, 1), y := Cell(u, 0)] && s.holder == HeldBy(1)
    requires 0 in s.threads && 1 in s.threads && s.threads[0].Idle?
    requires s.threads[1].Active? && s.threads[1].phase == Applying(v, {y})
    ensures IsRun(s0, steps) && After(s0, steps).log == s.log
    ensures 0 in After(s0, steps).threads
    ensures var th := After(s0, steps).threads[0];
            th.Active? && th.a.trace == [Shared(x, v), Shared(y, u)]
  {
    var reader := TwoReads(x, y);
    assert Seen([]) == [] && Seen([Shared(x, v)]) == [v];
    OneMore(s0, steps0, Begin(0, reader, 1));
    steps := steps0 + [Begin(0, reader, 1)];
    var s1 := Put(s, 0, Active(reader, 1, 0, Fresh, Running));
    assert After(s0, steps) == s1 && MidWrite(s1) == {};
    OneMore(s0, steps, Act(0));
    steps := steps + [Act(0)];
    var th := Perform(s1, s1.threads[0]);
    var s2 := Put(s1, 0, th);
    assert After(s0, steps) == s2 && MidWrite(s2) == {};
    assert th.Active? && th.phase.Running? && th.body == reader && th.a.trace == [Shared(x, v)];
    OneMore(s0, steps, Act(0));
    steps := steps + [Act(0)];
  }

  /** The snapshot that a running transaction sees need not be consistent: from
      a store where `x` and `y` are both `u`, it can read `x` as `v` and `y` as
      `u`, although every store in the serial history has `x` equal to `y`. */
  lemma RunningTransactionsMaySeeTornState(x: TVar, y: TVar, u: Value, v: Value)
    returns (s0: State, steps: seq<Step>)
    requires x != y && u != v
    ensures Init(s0) && IsRun(s0, steps)
    ensures var s, init := After(s0, steps), Values(s0.store);
            && (forall k | 0 <= k <= |s.log| ::
                  var at := SerialStore(init, s.log[..k]);
                  x in at && y in at && at[x] == at[y])
            && 0 in s.threads && s.threads[0].Active?
            && s.threads[0].a.trace == [Shared(x, v), Shared(y, u)]
  {
    var e;
    s0, steps, e := HalfCommitted(x, y, u, v);
    var s := After(s0, steps);
    steps := ReadBoth(s0, steps, s, x, y, u, v);
    SerialStoresAgree(x, y, u, v, e);
  }
}
