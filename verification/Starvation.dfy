/** Who gets the CPU next, and who never does: pick_next scans every queue from its head. */
module Starvation {
  import opened Basics
  import opened SchedulerSpec
  import opened SchedulerRuns

  // ---- the choice of pick_next ----

  /** The first process of the queue but for cur; 0 if there is none. */
  function Target(q: seq<nat>, cur: nat): nat {
    if q == [] then 0 else if q[0] != cur then q[0] else if |q| > 1 then q[1] else 0
  }

  /** All of the queue but cur are ready. */
  ghost predicate OthersReady(procs: map<nat, Proc>, q: seq<nat>, cur: nat) {
    forall p :: p in q ==> p != 0 && p in procs && (p != cur ==> procs[p].state == Ready)
  }

  lemma {:induction false} FirstReadyIsTarget(procs: map<nat, Proc>, q: seq<nat>, cur: nat)
    requires Distinct(q) && OthersReady(procs, q, cur)
    ensures FirstReady(procs, q, cur) == Target(q, cur)
  {
    if q != [] && q[0] == cur {
      var r := q[1..];
      assert FirstReady(procs, q, cur) == FirstReady(procs, r, cur);
      if r != [] { assert r[0] == q[1] && r[0] in q; }
    } else if q != [] {
      assert q[0] in q;
    }
  }

  lemma {:induction false} QueueReady(s: Sched, cpu: nat)
    requires Inv(s) && cpu < CPUS
    ensures Distinct(s.queues[cpu]) && OthersReady(s.procs, s.queues[cpu], s.current[cpu])
  {
    assert QueueOk(s, cpu);
  }

  /** Taking cur out of the queue changes nothing about who is next. */
  lemma {:induction false} WithoutTarget(q: seq<nat>, cur: nat)
    requires 0 !in q && cur in q && Distinct(q)
    ensures Target(Without(q, cur), 0) == Target(q, cur)
  {
    if q[0] == cur {
      var r := q[1..];
      if r != [] { assert r[0] == q[1] && q[1] in q; }
    } else {
      assert Without(q, cur)[0] == q[0] && q[0] in q;
    }
  }

  /** After a kill of the current process the next one is the one that would have been next anyway. */
  lemma {:induction false} KilledTarget(s: Sched, cpu: nat)
    requires Inv(s) && cpu < CPUS && s.current[cpu] != 0
    ensures s.current[cpu] in s.procs && Inv(Killed(s, cpu))
    ensures var k := Killed(s, cpu); FirstReady(k.procs, k.queues[cpu], 0) == Target(s.queues[cpu], s.current[cpu])
  {
    KillKeeps(s, cpu);
    var k := Killed(s, cpu);
    assert QueueOk(s, cpu);
    QueueReady(k, cpu);
    FirstReadyIsTarget(k.procs, k.queues[cpu], 0);
    WithoutTarget(s.queues[cpu], s.current[cpu]);
  }

  // ---- what a step can do to a queue and to the CPU ----

  /** Who runs on the CPU in t, a step after s: the same as before, none, or the target. */
  predicate Hands(s: Sched, t: Sched, cpu: nat)
    requires Sized(s) && Sized(t) && cpu < CPUS
  {
    t.current[cpu] == s.current[cpu] || t.current[cpu] == 0 || t.current[cpu] == Target(s.queues[cpu], s.current[cpu])
  }

  /** The queue after s: the same, or without the process that was running, or with a new one in front. */
  ghost predicate Moves(s: Sched, t: Sched, cpu: nat)
    requires Sized(s) && Sized(t) && cpu < CPUS
  {
    var q := s.queues[cpu];
    || t.queues[cpu] == q
    || t.queues[cpu] == Without(q, s.current[cpu])
    || (|t.queues[cpu]| > 0 && t.queues[cpu][1..] == q && t.queues[cpu][0] !in q)
  }

  lemma {:induction false} DispatchHands(s: Sched, cpu: nat, frame: Frame)
    requires Inv(s) && cpu < CPUS
    ensures var (t, r) := Dispatched(s, cpu, frame);
            && Sized(t) && Hands(s, t, cpu) && Moves(s, t, cpu)
            && (r != Same ==> t.current[cpu] == Target(s.queues[cpu], s.current[cpu]) != 0)
            && (forall c: nat :: c < CPUS && c != cpu ==> t.queues[c] == s.queues[c] && t.current[c] == s.current[c])
  {
    RunnerIsCurrent(s, cpu);
    QueueReady(s, cpu);
    FirstReadyIsTarget(s.procs, s.queues[cpu], s.current[cpu]);
    if s.current[cpu] != 0 { KilledTarget(s, cpu); }
  }

  /** A tick that switches hands the CPU to the first process of the queue, or to the second if the
      first was running: never further down. */
  lemma {:induction false} TickHands(s: Sched, cpu: nat, frame: Frame, krsp: nat)
    requires Inv(s) && cpu < CPUS
    ensures var (t, r) := Ticked(s, cpu, frame, krsp);
            && Sized(t) && Hands(s, t, cpu) && Moves(s, t, cpu)
            && (r != Same ==> t.current[cpu] == Target(s.queues[cpu], s.current[cpu]) != 0)
            && (forall c: nat :: c < CPUS && c != cpu ==> t.queues[c] == s.queues[c] && t.current[c] == s.current[c])
  {
    AccountKeeps(s, cpu, frame, krsp);
    DispatchHands(Accounted(s, cpu, frame, krsp), cpu, frame);
  }

  lemma {:induction false} ExitHands(s: Sched, cpu: nat, status: int)
    requires Inv(s) && cpu < CPUS
    ensures var t := Exited(s, cpu, status).0;
            && Sized(t) && Hands(s, t, cpu) && Moves(s, t, cpu)
            && (forall c: nat :: c < CPUS && c != cpu ==> t.queues[c] == s.queues[c] && t.current[c] == s.current[c])
  {
    var cur := s.current[cpu];
    assert QueueOk(s, cpu);
    QueueReady(s, cpu);
    if cur != 0 {
      var s1 := s.(procs := s.procs[cur := s.procs[cur].(exitStatus := status)]);
      StatusKeeps(s, cur, s.procs[cur].terminate, status);
      KilledTarget(s1, cpu);
    } else {
      FirstReadyIsTarget(s.procs, s.queues[cpu], 0);
    }
  }

  lemma {:induction false} EnqueueMoves(s: Sched, p: nat, c: nat, cpu: nat)
    requires Inv(s) && c < CPUS && cpu < CPUS && p in s.procs && !OnSomeQueue(s, p)
    ensures Hands(s, Enqueued(s, p, c), cpu) && Moves(s, Enqueued(s, p, c), cpu)
  {
    assert p !in s.queues[cpu];
    assert ([p] + s.queues[cpu])[1..] == s.queues[cpu];
  }

  /** Every step, on whatever CPU. */
  lemma {:induction false} StepHands(s: Sched, t: Sched, cpu: nat)
    requires Inv(s) && Step(s, t) && cpu < CPUS
    ensures Sized(t) && Hands(s, t, cpu) && Moves(s, t, cpu)
  {
    if p, proc :| CreateStep(s, t, p, proc) {
    } else if p: nat, c: nat :| EnqueueStep(s, t, p, c) {
      EnqueueMoves(s, p, c, cpu);
    } else if c, frame, krsp :| TickStep(s, t, c, frame, krsp) {
      TickHands(s, c, frame, krsp);
    } else if c, status :| ExitStep(s, t, c, status) {
      ExitHands(s, c, status);
    } else if p :| TerminateStep(s, t, p) {
    } else if c, blocked, ctx, terminate :| ActStep(s, t, c, blocked, ctx, terminate) {
    } else {
      var p :| ReapStep(s, t, p);
    }
  }

  // ---- starvation, over all runs ----

  /** Process a stands before x in the queue. */
  ghost predicate Before(q: seq<nat>, a: nat, x: nat) {
    exists i, j :: 0 <= i < j < |q| && q[i] == a && q[j] == x
  }

  lemma {:induction false} BeforePush(q: seq<nat>, r: seq<nat>, a: nat, x: nat)
    requires Before(q, a, x) && |r| > 0 && r[1..] == q
    ensures Before(r, a, x)
  {
    var i, j :| 0 <= i < j < |q| && q[i] == a && q[j] == x;
    assert r[i + 1] == q[i] && r[j + 1] == q[j];
  }

  lemma {:induction false} BeforeWithout(q: seq<nat>, a: nat, x: nat, cur: nat)
    requires Before(q, a, x) && a != cur && x != cur
    ensures Before(Without(q, cur), a, x)
  {
    var i, j :| 0 <= i < j < |q| && q[i] == a && q[j] == x;
    var r := q[1..];
    if q[0] == cur {
      assert r[i - 1] == a && r[j - 1] == x;
    } else {
      var w := Without(r, cur);
      assert Without(q, cur)[1..] == w;
      if i == 0 {
        StaysIn(r, j - 1, cur);
        var k :| 0 <= k < |w| && w[k] == x;
        assert Without(q, cur)[0] == a && Without(q, cur)[k + 1] == x;
      } else {
        assert r[i - 1] == a && r[j - 1] == x;
        BeforeWithout(r, a, x, cur);
        BeforePush(w, Without(q, cur), a, x);
      }
    }
  }

  lemma {:induction false} StaysIn(q: seq<nat>, j: nat, cur: nat)
    requires j < |q| && q[j] != cur
    ensures q[j] in Without(q, cur)
  {
    if q[0] == cur {
      assert q[1..][j - 1] == q[j];
    } else if j > 0 {
      StaysIn(q[1..], j - 1, cur);
    }
  }

  /** With two processes before it, x is not the target. */
  lemma {:induction false} NotTarget(q: seq<nat>, a: nat, b: nat, x: nat, cur: nat)
    requires Distinct(q) && a != b && Before(q, a, x) && Before(q, b, x)
    ensures Target(q, cur) != x
  {
    var i, j :| 0 <= i < j < |q| && q[i] == a && q[j] == x;
    var k, l :| 0 <= k < l < |q| && q[k] == b && q[l] == x;
    assert j == l && j >= 2;
  }

  lemma {:induction false} StepKeepsBehind(s: Sched, t: Sched, cpu: nat, a: nat, b: nat, x: nat)
    requires Inv(s) && Step(s, t) && cpu < CPUS && a != b && s.current[cpu] != x && x != 0
    requires Before(s.queues[cpu], a, x) && Before(s.queues[cpu], b, x)
    requires Sized(t) && a in t.queues[cpu] && b in t.queues[cpu]
    ensures Before(t.queues[cpu], a, x) && Before(t.queues[cpu], b, x) && t.current[cpu] != x
  {
    StepHands(s, t, cpu);
    QueueReady(s, cpu);
    var q, cur := s.queues[cpu], s.current[cpu];
    NotTarget(q, a, b, x, cur);
    if t.queues[cpu] == q {
    } else if t.queues[cpu] == Without(q, cur) {
      WithoutIs(q, cur);
      BeforeWithout(q, a, x, cur);
      BeforeWithout(q, b, x, cur);
    } else {
      BeforePush(q, t.queues[cpu], a, x);
      BeforePush(q, t.queues[cpu], b, x);
    }
  }

  /** On every run of the scheduler, with ticks, enqueues, exits and terminations on all CPUs: as long
      as two processes that stand before x stay on its queue, x does not run. */
  lemma {:induction false} ThirdStarves(run: seq<Sched>, cpu: nat, a: nat, b: nat, x: nat, n: nat)
    requires IsRun(run) && Inv(run[0]) && n < |run| && cpu < CPUS && a != b && x != 0
    requires Before(run[0].queues[cpu], a, x) && Before(run[0].queues[cpu], b, x) && run[0].current[cpu] != x
    requires forall i: nat :: i <= n ==> Sized(run[i]) && a in run[i].queues[cpu] && b in run[i].queues[cpu]
    ensures Inv(run[n]) && Before(run[n].queues[cpu], a, x) && Before(run[n].queues[cpu], b, x)
    ensures forall c: nat :: c < CPUS ==> run[n].current[c] != x
  {
    RunKeepsInv(run, n);
    if n > 0 {
      ThirdStarves(run, cpu, a, b, x, n - 1);
      assert StepAt(run, n - 1);
      StepKeepsBehind(run[n - 1], run[n], cpu, a, b, x);
    }
    var s := run[n];
    var i, j :| 0 <= i < j < |s.queues[cpu]| && s.queues[cpu][i] == a && s.queues[cpu][j] == x;
    forall c: nat | c < CPUS ensures s.current[c] != x {
      assert QueueOk(s, c);
      if s.current[c] == x { QueuesDisjoint(s, c, cpu, x); }
    }
  }

  // ---- who is reached by ticks alone ----

  /** Nothing on the queue has been asked to terminate. */
  ghost predicate Calm(s: Sched, cpu: nat)
    requires Sized(s) && cpu < CPUS
  {
    forall p :: p in s.queues[cpu] ==> p in s.procs && !s.procs[p].terminate
  }

  ghost predicate Ticks(s: Sched, t: Sched, cpu: nat) {
    exists frame, krsp :: TickStep(s, t, cpu, frame, krsp)
  }

  ghost predicate TickAt(run: seq<Sched>, cpu: nat, i: nat)
    requires i + 1 < |run|
  {
    Ticks(run[i], run[i + 1], cpu)
  }

  ghost predicate TickRun(run: seq<Sched>, cpu: nat) {
    |run| > 0 && forall i: nat :: i + 1 < |run| ==> TickAt(run, cpu, i)
  }

  /** Ticks of the CPU can make x the running process. */
  ghost predicate TicksReach(s: Sched, cpu: nat, x: nat)
    requires cpu < CPUS
  {
    exists run: seq<Sched> :: TickRun(run, cpu) && run[0] == s && Sized(run[|run| - 1]) && run[|run| - 1].current[cpu] == x
  }

  /** A tick of a calm queue changes only who runs. */
  lemma {:induction false} TickCalm(s: Sched, cpu: nat, frame: Frame, krsp: nat)
    requires Inv(s) && cpu < CPUS && Calm(s, cpu)
    ensures var t := Ticked(s, cpu, frame, krsp).0;
            Inv(t) && t.queues == s.queues && Calm(t, cpu) && (t.current[cpu] == s.current[cpu] || t.current[cpu] == Target(s.queues[cpu], s.current[cpu]))
  {
    TickKeeps(s, cpu, frame, krsp);
    AccountKeeps(s, cpu, frame, krsp);
    var a := Accounted(s, cpu, frame, krsp);
    RunnerIsCurrent(a, cpu);
    QueueReady(a, cpu);
    assert QueueOk(a, cpu);
    FirstReadyIsTarget(a.procs, a.queues[cpu], a.current[cpu]);
  }

  /** A tick that hits user code switches, or uses up a tick of the quantum. */
  lemma {:induction false} UserTick(s: Sched, cpu: nat, frame: Frame, krsp: nat)
    requires Inv(s) && cpu < CPUS && Calm(s, cpu) && frame.cs == USER_CS && Target(s.queues[cpu], s.current[cpu]) != 0
    ensures var t := Ticked(s, cpu, frame, krsp).0; var cur := s.current[cpu];
            && Sized(t) && (t.current[cpu] == Target(s.queues[cpu], cur)
                || (t.current[cpu] == cur != 0 && cur in s.procs && cur in t.procs && t.procs[cur].ticks == s.procs[cur].ticks + 1 < QUANTUM))
  {
    TickCalm(s, cpu, frame, krsp);
    AccountKeeps(s, cpu, frame, krsp);
    var a := Accounted(s, cpu, frame, krsp);
    RunnerIsCurrent(s, cpu);
    RunnerIsCurrent(a, cpu);
    QueueReady(a, cpu);
    assert QueueOk(s, cpu) && QueueOk(a, cpu);
    FirstReadyIsTarget(a.procs, a.queues[cpu], a.current[cpu]);
    TargetIn(a.queues[cpu], a.current[cpu]);
  }

  lemma {:induction false} TargetIn(q: seq<nat>, cur: nat)
    ensures Target(q, cur) != 0 ==> Target(q, cur) in q
  {
  }

  lemma {:induction false} TickFirst(s: Sched, run: seq<Sched>, cpu: nat)
    requires TickRun(run, cpu) && Ticks(s, run[0], cpu)
    ensures TickRun([s] + run, cpu)
  {
    var r := [s] + run;
    forall i: nat | i + 1 < |r| ensures TickAt(r, cpu, i) {
      if i > 0 { assert TickAt(run, cpu, i - 1); }
    }
  }

  /** Enough ticks in user code bring the target to the CPU. */
  lemma {:induction false} TargetReached(s: Sched, cpu: nat, left: nat) returns (run: seq<Sched>)
    requires Inv(s) && cpu < CPUS && Calm(s, cpu) && Target(s.queues[cpu], s.current[cpu]) != 0
    requires s.current[cpu] != 0 ==> s.current[cpu] in s.procs && s.procs[s.current[cpu]].ticks + left >= QUANTUM
    ensures TickRun(run, cpu) && run[0] == s
    ensures var t := run[|run| - 1]; Inv(t) && Calm(t, cpu) && t.queues == s.queues && t.current[cpu] == Target(s.queues[cpu], s.current[cpu])
    decreases left
  {
    var frame := Frame(USER_CS, []);
    var t := Ticked(s, cpu, frame, 0).0;
    TickCalm(s, cpu, frame, 0);
    UserTick(s, cpu, frame, 0);
    assert TickStep(s, t, cpu, frame, 0);
    if t.current[cpu] == Target(s.queues[cpu], s.current[cpu]) {
      run := [t];
    } else {
      run := TargetReached(t, cpu, left - 1);
    }
    TickFirst(s, run, cpu);
    run := [s] + run;
  }

  lemma {:induction false} JoinTicks(a: seq<Sched>, b: seq<Sched>, cpu: nat)
    requires TickRun(a, cpu) && TickRun(b, cpu) && a[|a| - 1] == b[0]
    ensures TickRun(a + b[1..], cpu)
  {
    var r := a + b[1..];
    forall i: nat | i + 1 < |r| ensures TickAt(r, cpu, i) {
      if i + 1 < |a| { assert TickAt(a, cpu, i); } else { assert TickAt(b, cpu, i + 1 - |a|); }
    }
  }

  /** The first two of a queue are reached. */
  lemma {:induction false} FirstTwoReached(s: Sched, cpu: nat, k: nat)
    requires Inv(s) && cpu < CPUS && Calm(s, cpu) && k < 2 && k < |s.queues[cpu]| && s.current[cpu] != s.queues[cpu][k]
    ensures TicksReach(s, cpu, s.queues[cpu][k])
  {
    var q := s.queues[cpu];
    QueueReady(s, cpu);
    assert q[0] in q && q[k] in q;
    assert QueueOk(s, cpu);
    var run := TargetReached(s, cpu, QUANTUM);
    var t := run[|run| - 1];
    if t.current[cpu] != q[k] {
      assert t.current[cpu] == q[0] && k == 1;
      assert QueueOk(t, cpu);
      var more := TargetReached(t, cpu, QUANTUM);
      JoinTicks(run, more, cpu);
      run := run + more[1..];
      assert run[|run| - 1] == more[|more| - 1];
    }
    assert TickRun(run, cpu) && run[0] == s && run[|run| - 1].current[cpu] == q[k];
  }

  lemma {:induction false} TicksPassOver(run: seq<Sched>, cpu: nat, k: nat, n: nat)
    requires TickRun(run, cpu) && n < |run| && Inv(run[0]) && cpu < CPUS && Calm(run[0], cpu) && 2 <= k < |run[0].queues[cpu]|
    requires run[0].current[cpu] != run[0].queues[cpu][k]
    ensures Inv(run[n]) && Calm(run[n], cpu) && run[n].queues == run[0].queues && run[n].current[cpu] != run[0].queues[cpu][k]
  {
    if n > 0 {
      TicksPassOver(run, cpu, k, n - 1);
      assert TickAt(run, cpu, n - 1);
      var frame, krsp :| TickStep(run[n - 1], run[n], cpu, frame, krsp);
      TickCalm(run[n - 1], cpu, frame, krsp);
      QueueReady(run[0], cpu);
      var q := run[0].queues[cpu];
      assert q[k] in q;
    }
  }

  /** Of a calm queue, ticks bring exactly the first two to the CPU. */
  lemma {:induction false} ReachedIffFirstTwo(s: Sched, cpu: nat, k: nat)
    requires Inv(s) && cpu < CPUS && Calm(s, cpu) && k < |s.queues[cpu]| && s.current[cpu] != s.queues[cpu][k]
    ensures TicksReach(s, cpu, s.queues[cpu][k]) <==> k < 2
  {
    var x := s.queues[cpu][k];
    if k < 2 {
      FirstTwoReached(s, cpu, k);
    } else if TicksReach(s, cpu, x) {
      var run: seq<Sched> :| TickRun(run, cpu) && run[0] == s && Sized(run[|run| - 1]) && run[|run| - 1].current[cpu] == x;
      TicksPassOver(run, cpu, k, |run| - 1);
    }
  }
}
