/** The run queues of scheduler/scheduler.c as a state machine: each locked section is one step. */
module SchedulerSpec {
  import opened Basics

  const CPUS: nat := 16
  const QUANTUM: nat := 5
  const LOAD_UNIT: nat := 4096
  const USER_CS: nat := 0x23

  datatype ProcState = Ready | Running | Blocked | Zombie

  /** An interrupt frame: the code segment and all other registers. */
  datatype Frame = Frame(cs: nat, regs: seq<nat>)

  /** The fields of process_t the scheduler reads or writes; parent 0 means an orphan. */
  datatype Proc = Proc(pid: nat, state: ProcState, cpu: nat, ticks: nat, exitStatus: int, parent: nat,
                       terminate: bool, blocked: bool, ctx: Frame, krsp: nat)

  /** Process control blocks by address, run queues front first, and per-CPU state.  `saved`
      and `since` are history: the frame a process was last switched out with (or created
      with), and the ticks it has received since it was last switched in. */
  datatype Sched = Sched(procs: map<nat, Proc>, queues: seq<seq<nat>>, current: seq<nat>,
                         load: seq<nat>, busy: seq<nat>, idle: seq<nat>, uptime: nat,
                         saved: map<nat, Frame>, since: map<nat, nat>)

  /** How a timer interrupt returns: to the interrupted frame, to a user frame, or into a
      blocked system call on its own kernel stack. */
  datatype Resume = Same | ToUser(frame: Frame) | ToKernel(frame: Frame, krsp: nat)

  predicate Sized(s: Sched) {
    |s.queues| == CPUS && |s.current| == CPUS && |s.load| == CPUS && |s.busy| == CPUS && |s.idle| == CPUS
  }

  // ---- the steps ----

  /** The first ready process of a queue other than `skip`, or 0. */
  function FirstReady(procs: map<nat, Proc>, q: seq<nat>, skip: nat): nat {
    if q == [] then 0
    else if q[0] in procs && procs[q[0]].state == Ready && q[0] != skip then q[0]
    else FirstReady(procs, q[1..], skip)
  }

  function Without(q: seq<nat>, p: nat): seq<nat> {
    if q == [] then [] else if q[0] == p then q[1..] else [q[0]] + Without(q[1..], p)
  }

  /** scheduler_enqueue_on */
  function Enqueued(s: Sched, p: nat, cpu: nat): Sched
    requires Sized(s) && p in s.procs && cpu < CPUS
  {
    s.(procs := s.procs[p := s.procs[p].(state := Ready, cpu := cpu, ticks := 0)],
       queues := s.queues[cpu := [p] + s.queues[cpu]],
       saved := s.saved[p := s.procs[p].ctx])
  }

  /** kill_cur_locked */
  function Killed(s: Sched, cpu: nat): Sched
    requires Sized(s) && cpu < CPUS && s.current[cpu] in s.procs
  {
    var cur := s.current[cpu];
    s.(queues := s.queues[cpu := Without(s.queues[cpu], cur)],
       current := s.current[cpu := 0],
       procs := if s.procs[cur].parent != 0 then s.procs[cur := s.procs[cur].(state := Zombie, terminate := false)]
                else s.procs - {cur})
  }

  function SwitchedIn(s: Sched, cpu: nat, next: nat): Sched
    requires Sized(s) && cpu < CPUS && next in s.procs
  {
    s.(procs := s.procs[next := s.procs[next].(ticks := 0, state := Running)],
       current := s.current[cpu := next],
       since := s.since[next := 0])
  }

  function SwitchedOut(s: Sched, p: nat): Sched
    requires p in s.procs
  {
    s.(procs := s.procs[p := s.procs[p].(ticks := 0, state := Ready)], saved := s.saved[p := s.procs[p].ctx])
  }

  function ResumeOf(p: Proc): Resume {
    if p.blocked then ToKernel(p.ctx, p.krsp) else ToUser(p.ctx)
  }

  predicate HasRunner(s: Sched, cpu: nat)
    requires Sized(s) && cpu < CPUS
  {
    s.current[cpu] != 0 && s.current[cpu] in s.procs && s.procs[s.current[cpu]].state == Running
  }

  /** The accounting half of scheduler_timer_tick. */
  function Accounted(s: Sched, cpu: nat, frame: Frame, krsp: nat): (t: Sched)
    requires Sized(s) && cpu < CPUS
    ensures Sized(t) && t.current == s.current && t.queues == s.queues
  {
    var s1 := s.(uptime := s.uptime + 1);
    if HasRunner(s, cpu) then
      var cur := s.current[cpu];
      var p := s.procs[cur];
      s1.(busy := s.busy[cpu := s.busy[cpu] + 1],
          load := s.load[cpu := s.load[cpu] / 2 + LOAD_UNIT],
          procs := s.procs[cur := p.(ticks := p.ticks + 1, ctx := frame, krsp := if p.blocked then krsp else p.krsp)],
          since := s.since[cur := (if cur in s.since then s.since[cur] else 0) + 1])
    else
      s1.(idle := s.idle[cpu := s.idle[cpu] + 1], load := s.load[cpu := s.load[cpu] / 2])
  }

  /** Does the tick leave the interrupted frame alone after accounting, before looking for work? */
  predicate Stays(s: Sched, cpu: nat, frame: Frame)
    requires Sized(s) && cpu < CPUS
  {
    if HasRunner(s, cpu) then
      var p := s.procs[s.current[cpu]];
      if p.terminate then frame.cs != USER_CS
      else (p.ticks < QUANTUM && !p.blocked) || (frame.cs != USER_CS && !p.blocked)
    else
      frame.cs != USER_CS && s.current[cpu] != 0 && s.current[cpu] in s.procs && !s.procs[s.current[cpu]].blocked
  }

  /** The dispatching half of scheduler_timer_tick. */
  function Dispatched(s: Sched, cpu: nat, frame: Frame): (Sched, Resume)
    requires Sized(s) && cpu < CPUS
  {
    if Stays(s, cpu, frame) then (s, Same)
    else
      var s1 := if HasRunner(s, cpu) && s.procs[s.current[cpu]].terminate then Killed(s, cpu) else s;
      var cur := s1.current[cpu];
      var next := FirstReady(s1.procs, s1.queues[cpu], cur);
      if next == 0 || next !in s1.procs then (s1, Same)
      else
        var s2 := if cur != 0 && cur in s1.procs then SwitchedOut(s1, cur) else s1;
        var s3 := SwitchedIn(s2, cpu, next);
        (s3, ResumeOf(s2.procs[next]))
  }

  /** scheduler_timer_tick */
  function Ticked(s: Sched, cpu: nat, frame: Frame, krsp: nat): (Sched, Resume)
    requires Sized(s) && cpu < CPUS
  {
    Dispatched(Accounted(s, cpu, frame, krsp), cpu, frame)
  }

  /** scheduler_exit_current; Same stands for the idle loop. */
  function Exited(s: Sched, cpu: nat, status: int): (Sched, Resume)
    requires Sized(s) && cpu < CPUS
  {
    var cur := s.current[cpu];
    var s1 := if cur != 0 && cur in s.procs then Killed(s.(procs := s.procs[cur := s.procs[cur].(exitStatus := status)]), cpu) else s;
    var next := FirstReady(s1.procs, s1.queues[cpu], 0);
    if next == 0 || next !in s1.procs then (s1, Same)
    else (SwitchedIn(s1, cpu, next), ResumeOf(s1.procs[next]))
  }

  /** scheduler_terminate, for the process found under the pid. */
  function Terminated(s: Sched, p: nat): Sched
    requires p in s.procs
  {
    if s.procs[p].state == Zombie then s
    else s.(procs := s.procs[p := s.procs[p].(terminate := true, exitStatus := 2)])
  }

  /** The running process enters or leaves a blocking system call, or replaces its image. */
  function RunnerActs(s: Sched, cpu: nat, blocked: bool, ctx: Frame, terminate: bool): Sched
    requires Sized(s) && cpu < CPUS && HasRunner(s, cpu)
  {
    var cur := s.current[cpu];
    s.(procs := s.procs[cur := s.procs[cur].(blocked := blocked, ctx := ctx, terminate := terminate)])
  }

  // ---- the invariant ----

  function Sum(xs: seq<nat>): nat {
    if xs == [] then 0 else xs[0] + Sum(xs[1..])
  }

  lemma {:induction false} SumUpdate(xs: seq<nat>, i: nat, v: nat)
    requires i < |xs|
    ensures Sum(xs[i := v]) == Sum(xs) - xs[i] + v
  {
    if i > 0 {
      SumUpdate(xs[1..], i - 1, v);
      assert xs[i := v][1..] == xs[1..][i - 1 := v];
    } else {
      assert xs[i := v][1..] == xs[1..];
    }
  }

  /** What holds of a process on the queue of `cpu`: it belongs there, is ready or is the one
      running, and when ready it waits with the frame it was switched out with, which is a user
      frame unless the process sits in a blocking system call. */
  predicate Member(procs: map<nat, Proc>, saved: map<nat, Frame>, since: map<nat, nat>, cpu: nat, cur: nat, p: nat) {
    && p != 0 && p in procs && procs[p].cpu == cpu
    && (if p == cur then procs[p].state == Running && p in since && since[p] == procs[p].ticks
        else procs[p].state == Ready && p in saved && saved[p] == procs[p].ctx
             && (procs[p].blocked || procs[p].ctx.cs == USER_CS))
  }

  ghost predicate QueueOk(s: Sched, cpu: nat)
    requires Sized(s) && cpu < CPUS
  {
    && Distinct(s.queues[cpu])
    && (s.current[cpu] != 0 ==> s.current[cpu] in s.queues[cpu])
    && forall p :: p in s.queues[cpu] ==> Member(s.procs, s.saved, s.since, cpu, s.current[cpu], p)
  }

  ghost predicate Inv(s: Sched) {
    && Sized(s)
    && (forall c: nat :: c < CPUS ==> QueueOk(s, c))
    && Sum(s.busy) + Sum(s.idle) == s.uptime
  }

  ghost predicate OnSomeQueue(s: Sched, p: nat)
    requires Sized(s)
  {
    exists c: nat :: c < CPUS && p in s.queues[c]
  }
}
