/** What every step and every run of the scheduler keeps. */
module SchedulerRuns {
  import opened Basics
  import opened SchedulerSpec

  lemma {:induction false} FirstReadyFound(procs: map<nat, Proc>, q: seq<nat>, skip: nat)
    ensures var n := FirstReady(procs, q, skip);
            n != 0 ==> n in q && n in procs && procs[n].state == Ready && n != skip
  {
    if q != [] { FirstReadyFound(procs, q[1..], skip); }
  }

  /** pick_next returns nothing only if no other process of the queue is ready. */
  lemma {:induction false} FirstReadyComplete(procs: map<nat, Proc>, q: seq<nat>, skip: nat, p: nat)
    requires p in q && p != 0 && p != skip && p in procs && procs[p].state == Ready && 0 !in q
    ensures FirstReady(procs, q, skip) != 0
  {
    if q[0] != p { assert p in q[1..]; FirstReadyComplete(procs, q[1..], skip, p); }
  }

  lemma {:induction false} WithoutIs(q: seq<nat>, p: nat)
    requires Distinct(q)
    ensures Distinct(Without(q, p)) && forall x :: x in Without(q, p) <==> x in q && x != p
    ensures |Without(q, p)| == if p in q then |q| - 1 else |q|
  {
    if q != [] && q[0] != p {
      WithoutIs(q[1..], p);
      var w := Without(q[1..], p);
      forall i, j | 0 <= i < j < |w| + 1 ensures ([q[0]] + w)[i] != ([q[0]] + w)[j] {
        if i == 0 { assert w[j - 1] in w; }
      }
      assert forall x :: x in q <==> x == q[0] || x in q[1..];
    } else if q != [] {
      assert forall x :: x in q <==> x == q[0] || x in q[1..];
      assert forall x :: x in q[1..] ==> x != q[0];
    }
  }

  /** A queue is sound again if nothing about its members has changed. */
  lemma {:induction false} QueueFrame(s: Sched, t: Sched, c: nat)
    requires Sized(s) && Sized(t) && c < CPUS && QueueOk(s, c)
    requires t.queues[c] == s.queues[c] && t.current[c] == s.current[c]
    requires forall p :: p in s.queues[c] ==> Unchanged(s, t, p)
    ensures QueueOk(t, c)
  {
    forall p | p in t.queues[c] ensures Member(t.procs, t.saved, t.since, c, t.current[c], p) {
      assert Member(s.procs, s.saved, s.since, c, s.current[c], p) && Unchanged(s, t, p);
    }
  }

  /** Process p looks the same to the scheduler, apart from a termination request. */
  predicate Unchanged(s: Sched, t: Sched, p: nat) {
    && (p in s.procs ==> p in t.procs && t.procs[p].(terminate := s.procs[p].terminate, exitStatus := s.procs[p].exitStatus) == s.procs[p])
    && (p in s.saved ==> p in t.saved && t.saved[p] == s.saved[p])
    && (p in s.since ==> p in t.since && t.since[p] == s.since[p])
  }

  /** Queues are pairwise disjoint: the cpu field of a process names the only queue it is on. */
  lemma {:induction false} QueuesDisjoint(s: Sched, c: nat, d: nat, p: nat)
    requires Inv(s) && c < CPUS && d < CPUS && p in s.queues[c] && p in s.queues[d]
    ensures c == d
  {
    assert QueueOk(s, c) && QueueOk(s, d);
  }

  /** If only one process, on the queue of cpu, was touched, all other queues are sound. */
  lemma {:induction false} OtherQueues(s: Sched, t: Sched, cpu: nat, c: nat)
    requires Inv(s) && Sized(t) && cpu < CPUS && c < CPUS && c != cpu
    requires t.queues[c] == s.queues[c] && t.current[c] == s.current[c]
    requires forall p :: p !in s.queues[cpu] && OnSomeQueue(s, p) ==> Unchanged(s, t, p)
    ensures QueueOk(t, c)
  {
    assert QueueOk(s, c);
    forall p | p in s.queues[c] ensures Unchanged(s, t, p) {
      if p in s.queues[cpu] { QueuesDisjoint(s, c, cpu, p); }
      assert OnSomeQueue(s, p);
    }
    QueueFrame(s, t, c);
  }

  lemma {:induction false} EnqueueKeeps(s: Sched, p: nat, cpu: nat)
    requires Inv(s) && cpu < CPUS && p != 0 && p in s.procs && !OnSomeQueue(s, p)
    requires s.procs[p].blocked || s.procs[p].ctx.cs == USER_CS
    ensures Inv(Enqueued(s, p, cpu))
  {
    var t := Enqueued(s, p, cpu);
    forall c: nat | c < CPUS ensures QueueOk(t, c) {
      assert QueueOk(s, c);
      assert p !in s.queues[c];
      if c != cpu {
        QueueFrame(s, t, c);
      } else {
        forall x | x in t.queues[c] ensures Member(t.procs, t.saved, t.since, c, t.current[c], x) {
          if x != p { assert x in s.queues[c]; assert Member(s.procs, s.saved, s.since, c, s.current[c], x); }
        }
      }
    }
  }

  lemma {:induction false} KillKeeps(s: Sched, cpu: nat)
    requires Inv(s) && cpu < CPUS && s.current[cpu] != 0
    ensures s.current[cpu] in s.procs && Inv(Killed(s, cpu))
    ensures !OnSomeQueue(Killed(s, cpu), s.current[cpu])
  {
    assert QueueOk(s, cpu);
    var cur := s.current[cpu];
    var t := Killed(s, cpu);
    WithoutIs(s.queues[cpu], cur);
    forall c: nat | c < CPUS ensures QueueOk(t, c) {
      if c != cpu {
        OtherQueues(s, t, cpu, c);
      } else {
        forall x | x in t.queues[c] ensures Member(t.procs, t.saved, t.since, c, t.current[c], x) {
          assert Member(s.procs, s.saved, s.since, c, cur, x);
        }
      }
    }
    forall c: nat | c < CPUS ensures cur !in t.queues[c] {
      if c != cpu && cur in s.queues[c] { QueuesDisjoint(s, c, cpu, cur); }
    }
  }

  /** Switching in a ready process of an idle CPU's queue. */
  lemma {:induction false} SwitchInKeeps(s: Sched, cpu: nat, next: nat)
    requires Inv(s) && cpu < CPUS && s.current[cpu] == 0 && next in s.queues[cpu] && next in s.procs
    ensures Inv(SwitchedIn(s, cpu, next))
  {
    assert QueueOk(s, cpu);
    var t := SwitchedIn(s, cpu, next);
    forall c: nat | c < CPUS ensures QueueOk(t, c) {
      if c != cpu {
        OtherQueues(s, t, cpu, c);
      } else {
        forall x | x in t.queues[c] ensures Member(t.procs, t.saved, t.since, c, t.current[c], x) {
          assert Member(s.procs, s.saved, s.since, c, 0, x);
        }
      }
    }
  }

  /** Switching out the running process of a CPU, which is then idle. */
  lemma {:induction false} SwitchOutKeeps(s: Sched, cpu: nat)
    requires Inv(s) && cpu < CPUS && s.current[cpu] != 0 && s.current[cpu] in s.procs
    requires s.procs[s.current[cpu]].blocked || s.procs[s.current[cpu]].ctx.cs == USER_CS
    ensures Inv(SwitchedOut(s, s.current[cpu]).(current := s.current[cpu := 0]))
  {
    assert QueueOk(s, cpu);
    var cur := s.current[cpu];
    var t := SwitchedOut(s, cur).(current := s.current[cpu := 0]);
    forall c: nat | c < CPUS ensures QueueOk(t, c) {
      if c != cpu {
        OtherQueues(s, t, cpu, c);
      } else {
        forall x | x in t.queues[c] ensures Member(t.procs, t.saved, t.since, c, 0, x) {
          assert Member(s.procs, s.saved, s.since, c, cur, x);
        }
      }
    }
  }

  lemma {:induction false} AccountKeeps(s: Sched, cpu: nat, frame: Frame, krsp: nat)
    requires Inv(s) && cpu < CPUS
    ensures Inv(Accounted(s, cpu, frame, krsp))
  {
    assert QueueOk(s, cpu);
    var t := Accounted(s, cpu, frame, krsp);
    var cur := s.current[cpu];
    SumUpdate(s.busy, cpu, s.busy[cpu] + 1);
    SumUpdate(s.idle, cpu, s.idle[cpu] + 1);
    forall c: nat | c < CPUS ensures QueueOk(t, c) {
      assert QueueOk(s, c);
      if c != cpu {
        OtherQueues(s, t, cpu, c);
      } else {
        forall x | x in t.queues[c] ensures Member(t.procs, t.saved, t.since, c, t.current[c], x) {
          assert Member(s.procs, s.saved, s.since, c, cur, x);
        }
      }
    }
  }

  /** The running process of a sound state is the one the CPU has as current. */
  lemma {:induction false} RunnerIsCurrent(s: Sched, cpu: nat)
    requires Inv(s) && cpu < CPUS
    ensures HasRunner(s, cpu) <==> s.current[cpu] != 0
    ensures s.current[cpu] != 0 ==> s.current[cpu] in s.procs && s.current[cpu] in s.queues[cpu]
    ensures 0 !in s.queues[cpu]
  {
    assert QueueOk(s, cpu);
    if s.current[cpu] != 0 { assert Member(s.procs, s.saved, s.since, cpu, s.current[cpu], s.current[cpu]); }
  }

  /** Handing the CPU from its runner, if any, to `next`. */
  lemma {:induction false} HandOverKeeps(s: Sched, cpu: nat, next: nat)
    requires Inv(s) && cpu < CPUS && next in s.queues[cpu] && next in s.procs && next != s.current[cpu]
    requires s.current[cpu] != 0 ==> s.current[cpu] in s.procs && (s.procs[s.current[cpu]].blocked || s.procs[s.current[cpu]].ctx.cs == USER_CS)
    ensures var s2 := if s.current[cpu] != 0 then SwitchedOut(s, s.current[cpu]) else s;
            Inv(SwitchedIn(s2, cpu, next))
  {
    if s.current[cpu] != 0 {
      var s2 := SwitchedOut(s, s.current[cpu]);
      var s2' := s2.(current := s.current[cpu := 0]);
      SwitchOutKeeps(s, cpu);
      SwitchInKeeps(s2', cpu, next);
      assert SwitchedIn(s2', cpu, next) == SwitchedIn(s2, cpu, next) by {
        assert s2'.current[cpu := next] == s2.current[cpu := next];
      }
    } else {
      SwitchInKeeps(s, cpu, next);
    }
  }

  lemma {:induction false} DispatchKeeps(s: Sched, cpu: nat, frame: Frame)
    requires Inv(s) && cpu < CPUS && (s.current[cpu] != 0 ==> s.current[cpu] in s.procs && s.procs[s.current[cpu]].ctx == frame)
    ensures Inv(Dispatched(s, cpu, frame).0)
  {
    RunnerIsCurrent(s, cpu);
    if !Stays(s, cpu, frame) {
      var kills := HasRunner(s, cpu) && s.procs[s.current[cpu]].terminate;
      if kills { KillKeeps(s, cpu); }
      var s1 := if kills then Killed(s, cpu) else s;
      RunnerIsCurrent(s1, cpu);
      FirstReadyFound(s1.procs, s1.queues[cpu], s1.current[cpu]);
      var next := FirstReady(s1.procs, s1.queues[cpu], s1.current[cpu]);
      if next != 0 { HandOverKeeps(s1, cpu, next); }
    }
  }

  lemma {:induction false} TickKeeps(s: Sched, cpu: nat, frame: Frame, krsp: nat)
    requires Inv(s) && cpu < CPUS
    ensures Inv(Ticked(s, cpu, frame, krsp).0)
  {
    RunnerIsCurrent(s, cpu);
    AccountKeeps(s, cpu, frame, krsp);
    DispatchKeeps(Accounted(s, cpu, frame, krsp), cpu, frame);
  }

  /** Fields the invariant does not speak about may change freely. */
  lemma {:induction false} StatusKeeps(s: Sched, p: nat, terminate: bool, status: int)
    requires Inv(s) && p in s.procs
    ensures Inv(s.(procs := s.procs[p := s.procs[p].(terminate := terminate, exitStatus := status)]))
  {
    var t := s.(procs := s.procs[p := s.procs[p].(terminate := terminate, exitStatus := status)]);
    forall c: nat | c < CPUS ensures QueueOk(t, c) {
      assert QueueOk(s, c);
      QueueFrame(s, t, c);
    }
  }

  lemma {:induction false} ExitKeeps(s: Sched, cpu: nat, status: int)
    requires Inv(s) && cpu < CPUS
    ensures Inv(Exited(s, cpu, status).0)
  {
    RunnerIsCurrent(s, cpu);
    var cur := s.current[cpu];
    var s1 := s;
    if cur != 0 {
      StatusKeeps(s, cur, s.procs[cur].terminate, status);
      var s0 := s.(procs := s.procs[cur := s.procs[cur].(exitStatus := status)]);
      KillKeeps(s0, cpu);
      s1 := Killed(s0, cpu);
    }
    FirstReadyFound(s1.procs, s1.queues[cpu], 0);
    var next := FirstReady(s1.procs, s1.queues[cpu], 0);
    if next != 0 { SwitchInKeeps(s1, cpu, next); }
  }

  lemma {:induction false} RunnerActsKeeps(s: Sched, cpu: nat, blocked: bool, ctx: Frame, terminate: bool)
    requires Inv(s) && cpu < CPUS && HasRunner(s, cpu)
    ensures Inv(RunnerActs(s, cpu, blocked, ctx, terminate))
  {
    RunnerIsCurrent(s, cpu);
    var t := RunnerActs(s, cpu, blocked, ctx, terminate);
    assert QueueOk(s, cpu);
    forall c: nat | c < CPUS ensures QueueOk(t, c) {
      if c != cpu {
        OtherQueues(s, t, cpu, c);
      } else {
        forall x | x in t.queues[c] ensures Member(t.procs, t.saved, t.since, c, t.current[c], x) {
          assert Member(s.procs, s.saved, s.since, c, s.current[c], x);
        }
      }
    }
  }

  /** Adding or removing a process that is on no queue. */
  lemma {:induction false} OffQueueKeeps(s: Sched, t: Sched, p: nat)
    requires Inv(s) && !OnSomeQueue(s, p) && t == s.(procs := t.procs)
    requires forall x :: x in s.procs && x != p ==> x in t.procs && t.procs[x] == s.procs[x]
    ensures Inv(t)
  {
    forall c: nat | c < CPUS ensures QueueOk(t, c) {
      assert QueueOk(s, c);
      assert p !in s.queues[c];
      QueueFrame(s, t, c);
    }
  }

  // ---- runs ----

  /** One locked section, or one action of a running process or of process management. */
  ghost predicate Step(s: Sched, t: Sched) {
    || (exists p, proc :: CreateStep(s, t, p, proc))
    || (exists p, cpu :: EnqueueStep(s, t, p, cpu))
    || (exists cpu, frame, krsp :: TickStep(s, t, cpu, frame, krsp))
    || (exists cpu, status :: ExitStep(s, t, cpu, status))
    || (exists p :: TerminateStep(s, t, p))
    || (exists cpu, blocked, ctx, terminate :: ActStep(s, t, cpu, blocked, ctx, terminate))
    || (exists p :: ReapStep(s, t, p))
  }

  ghost predicate CreateStep(s: Sched, t: Sched, p: nat, proc: Proc) {
    Sized(s) && p != 0 && p !in s.procs && t == s.(procs := s.procs[p := proc])
  }

  /** Only processes on no queue are enqueued, with a user frame. */
  ghost predicate EnqueueStep(s: Sched, t: Sched, p: nat, cpu: nat) {
    && Sized(s) && cpu < CPUS && p != 0 && p in s.procs && !OnSomeQueue(s, p) && s.procs[p].ctx.cs == USER_CS
    && t == Enqueued(s, p, cpu)
  }

  ghost predicate TickStep(s: Sched, t: Sched, cpu: nat, frame: Frame, krsp: nat) {
    Sized(s) && cpu < CPUS && t == Ticked(s, cpu, frame, krsp).0
  }

  ghost predicate ExitStep(s: Sched, t: Sched, cpu: nat, status: int) {
    Sized(s) && cpu < CPUS && t == Exited(s, cpu, status).0
  }

  ghost predicate TerminateStep(s: Sched, t: Sched, p: nat) {
    Sized(s) && OnSomeQueue(s, p) && p in s.procs && t == Terminated(s, p)
  }

  ghost predicate ActStep(s: Sched, t: Sched, cpu: nat, blocked: bool, ctx: Frame, terminate: bool) {
    Sized(s) && cpu < CPUS && HasRunner(s, cpu) && t == RunnerActs(s, cpu, blocked, ctx, terminate)
  }

  ghost predicate ReapStep(s: Sched, t: Sched, p: nat) {
    Sized(s) && p in s.procs && s.procs[p].state == Zombie && t == s.(procs := s.procs - {p})
  }

  lemma {:induction false} ZombiesOffQueue(s: Sched, p: nat)
    requires Inv(s) && p in s.procs && s.procs[p].state == Zombie
    ensures !OnSomeQueue(s, p)
  {
    forall c: nat | c < CPUS ensures p !in s.queues[c] {
      assert QueueOk(s, c);
    }
  }

  lemma {:induction false} UnknownOffQueue(s: Sched, p: nat)
    requires Inv(s) && p !in s.procs
    ensures !OnSomeQueue(s, p)
  {
    forall c: nat | c < CPUS ensures p !in s.queues[c] {
      assert QueueOk(s, c);
    }
  }

  lemma {:induction false} StepKeeps(s: Sched, t: Sched)
    requires Inv(s) && Step(s, t)
    ensures Inv(t)
  {
    if p, proc :| CreateStep(s, t, p, proc) {
      UnknownOffQueue(s, p);
      OffQueueKeeps(s, t, p);
    } else if p, cpu :| EnqueueStep(s, t, p, cpu) {
      EnqueueKeeps(s, p, cpu);
    } else if cpu, frame, krsp :| TickStep(s, t, cpu, frame, krsp) {
      TickKeeps(s, cpu, frame, krsp);
    } else if cpu, status :| ExitStep(s, t, cpu, status) {
      ExitKeeps(s, cpu, status);
    } else if p :| TerminateStep(s, t, p) {
      StatusKeeps(s, p, true, 2);
    } else if cpu, blocked, ctx, terminate :| ActStep(s, t, cpu, blocked, ctx, terminate) {
      RunnerActsKeeps(s, cpu, blocked, ctx, terminate);
    } else {
      var p :| ReapStep(s, t, p);
      ZombiesOffQueue(s, p);
      OffQueueKeeps(s, t, p);
    }
  }

  ghost predicate StepAt(run: seq<Sched>, i: nat)
    requires i + 1 < |run|
  {
    Step(run[i], run[i + 1])
  }

  ghost predicate IsRun(run: seq<Sched>) {
    |run| > 0 && forall i: nat :: i + 1 < |run| ==> StepAt(run, i)
  }

  /** The invariant holds in every state of every interleaving. */
  lemma {:induction false} RunKeepsInv(run: seq<Sched>, n: nat)
    requires IsRun(run) && Inv(run[0]) && n < |run|
    ensures Inv(run[n])
  {
    if n > 0 {
      RunKeepsInv(run, n - 1);
      assert StepAt(run, n - 1);
      StepKeeps(run[n - 1], run[n]);
    }
  }

  // ---- context switches ----

  /** A timer switch resumes a process with exactly the frame it was last switched out (or
      created) with. */
  lemma {:induction false} SwitchLoadsSavedFrame(s: Sched, cpu: nat, frame: Frame, krsp: nat)
    requires Inv(s) && cpu < CPUS
    ensures var (t, r) := Ticked(s, cpu, frame, krsp);
            r != Same ==>
              var next := t.current[cpu];
              && next != 0 && next != s.current[cpu] && next in s.queues[cpu] && next in s.saved
              && r.frame == s.saved[next]
              && (r.ToUser? ==> r.frame.cs == USER_CS)
              && (r.ToKernel? <==> s.procs[next].blocked) && (r.ToKernel? ==> r.krsp == s.procs[next].krsp)
  {
    RunnerIsCurrent(s, cpu);
    AccountKeeps(s, cpu, frame, krsp);
    var a := Accounted(s, cpu, frame, krsp);
    RunnerIsCurrent(a, cpu);
    if !Stays(a, cpu, frame) {
      var kills := HasRunner(a, cpu) && a.procs[a.current[cpu]].terminate;
      var s1 := if kills then Killed(a, cpu) else a;
      FirstReadyFound(s1.procs, s1.queues[cpu], s1.current[cpu]);
      assert QueueOk(a, cpu);
      WithoutIs(a.queues[cpu], a.current[cpu]);
      var next := FirstReady(s1.procs, s1.queues[cpu], s1.current[cpu]);
      if next != 0 {
        assert next in s.queues[cpu];
        assert QueueOk(s, cpu);
        assert Member(s.procs, s.saved, s.since, cpu, s.current[cpu], next);
      }
    }
  }

  /** The process p lost the CPU in this tick but is still alive. */
  predicate Preempted(s: Sched, t: Sched, cpu: nat)
    requires Sized(s) && Sized(t) && cpu < CPUS
  {
    s.current[cpu] != 0 && t.current[cpu] != s.current[cpu] && s.current[cpu] in t.procs && t.procs[s.current[cpu]].state == Ready
  }

  /** Preemption is safe and fair to the quantum: the interrupted code was user code or a
      blocking system call, and a process that is not blocked has had at least five ticks. */
  lemma {:induction false} PreemptionIsSafe(s: Sched, cpu: nat, frame: Frame, krsp: nat)
    requires Inv(s) && cpu < CPUS
    ensures var t := Ticked(s, cpu, frame, krsp).0;
            Sized(t) && (Preempted(s, t, cpu) ==>
              var p := s.current[cpu];
              && p in s.procs && p in s.since && p in t.saved
              && (frame.cs == USER_CS || s.procs[p].blocked)
              && (!s.procs[p].blocked ==> s.since[p] + 1 >= QUANTUM)
              && t.saved[p] == frame)
  {
    RunnerIsCurrent(s, cpu);
    assert QueueOk(s, cpu);
    TickKeeps(s, cpu, frame, krsp);
    var a := Accounted(s, cpu, frame, krsp);
    if s.current[cpu] != 0 {
      assert Member(s.procs, s.saved, s.since, cpu, s.current[cpu], s.current[cpu]);
    }
    FirstReadyFound(a.procs, a.queues[cpu], a.current[cpu]);
  }

  /** A tick takes the CPU away from a process and yet returns to its frame exactly when the
      process was asked to terminate, the tick hit user code, and nothing else is ready: the
      dead process then keeps running until the next tick that finds work. */
  lemma {:induction false} DeadFrameResumed(s: Sched, cpu: nat, frame: Frame, krsp: nat)
    requires Inv(s) && cpu < CPUS && HasRunner(s, cpu)
    ensures var (t, r) := Ticked(s, cpu, frame, krsp);
            Sized(t) && (r == Same && t.current[cpu] != s.current[cpu] <==>
              && s.procs[s.current[cpu]].terminate && frame.cs == USER_CS
              && forall p :: p in s.queues[cpu] ==> p == s.current[cpu])
  {
    RunnerIsCurrent(s, cpu);
    AccountKeeps(s, cpu, frame, krsp);
    TickKeeps(s, cpu, frame, krsp);
    var a := Accounted(s, cpu, frame, krsp);
    RunnerIsCurrent(a, cpu);
    var cur := s.current[cpu];
    assert QueueOk(a, cpu);
    if a.procs[cur].terminate && frame.cs == USER_CS {
      KillKeeps(a, cpu);
      var s1 := Killed(a, cpu);
      WithoutIs(a.queues[cpu], cur);
      FirstReadyFound(s1.procs, s1.queues[cpu], 0);
      assert QueueOk(s1, cpu);
      if p :| p in s.queues[cpu] && p != cur {
        assert Member(s1.procs, s1.saved, s1.since, cpu, 0, p);
        FirstReadyComplete(s1.procs, s1.queues[cpu], 0, p);
      }
    }
  }

  function Idle(n: nat): (z: seq<nat>)
    ensures |z| == n && forall i :: 0 <= i < n ==> z[i] == 0
  {
    seq(n, _ => 0)
  }

  lemma {:induction false} IdleSum(z: seq<nat>)
    requires forall i :: 0 <= i < |z| ==> z[i] == 0
    ensures Sum(z) == 0
  {
    if z != [] { IdleSum(z[1..]); }
  }

  /** One process, running on CPU 0 and asked to terminate. */
  ghost predicate Alone(s: Sched) {
    && Sized(s) && s.uptime == 0 && s.busy == Idle(CPUS) && s.idle == Idle(CPUS)
    && 1 in s.procs && s.procs[1] == Proc(1, Running, 0, 0, 0, 0, true, false, Frame(USER_CS, []), 0) && 1 in s.since && s.since[1] == 0
    && s.queues[0] == [1] && s.current[0] == 1
    && forall c: nat :: 0 < c < CPUS ==> s.queues[c] == [] && s.current[c] == 0
  }

  lemma {:induction false} SomeAlone() returns (s: Sched)
    ensures Alone(s)
  {
    var p := Proc(1, Running, 0, 0, 0, 0, true, false, Frame(USER_CS, []), 0);
    var queues: seq<seq<nat>> := seq(CPUS, c => if c == 0 then [1] else []);
    var current: seq<nat> := seq(CPUS, c => if c == 0 then 1 else 0);
    s := Sched(map[1 := p], queues, current, Idle(CPUS), Idle(CPUS), Idle(CPUS), 0, map[], map[1 := 0]);
  }

  lemma {:induction false} AloneIsSound(s: Sched)
    requires Alone(s)
    ensures Inv(s) && HasRunner(s, 0)
  {
    IdleSum(s.busy);
    IdleSum(s.idle);
    forall c: nat | c < CPUS ensures QueueOk(s, c) {
      assert c == 0 ==> Member(s.procs, s.saved, s.since, 0, 1, 1);
    }
  }

  /** The tick that takes it off the CPU returns to its frame. */
  lemma {:induction false} DeadFrameExample(krsp: nat) returns (s: Sched)
    ensures Inv(s) && HasRunner(s, 0)
    ensures var (t, r) := Ticked(s, 0, Frame(USER_CS, []), krsp); Sized(t) && r == Same && t.current[0] != s.current[0]
  {
    s := SomeAlone();
    AloneIsSound(s);
    DeadFrameResumed(s, 0, Frame(USER_CS, []), krsp);
  }
}
