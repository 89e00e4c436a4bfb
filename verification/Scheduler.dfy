/** scheduler/scheduler.c with its run queues as singly linked lists through the process
    control blocks; every locked section is shown to perform the corresponding step. */
module SchedulerImpl {
  import opened Basics
  import opened SchedulerSpec
  import opened SchedulerRuns

  function At(q: seq<nat>, i: nat): nat {
    if i < |q| then q[i] else 0
  }

  predicate LinkOk(next: map<nat, nat>, q: seq<nat>, i: nat)
    requires i < |q|
  {
    q[i] != 0 && q[i] in next && next[q[i]] == At(q, i + 1)
  }

  /** The list that starts at `head` and runs through `next` is exactly q. */
  ghost predicate Linked(next: map<nat, nat>, head: nat, q: seq<nat>) {
    head == At(q, 0) && forall i: nat :: i < |q| ==> LinkOk(next, q, i)
  }

  /** A list is untouched by changes to links that are not its own. */
  lemma {:induction false} LinkedFrame(next: map<nat, nat>, next': map<nat, nat>, head: nat, q: seq<nat>)
    requires Linked(next, head, q)
    requires forall p :: p in q && p in next ==> p in next' && next'[p] == next[p]
    ensures Linked(next', head, q)
  {
    forall i: nat | i < |q| ensures LinkOk(next', q, i) { assert LinkOk(next, q, i); }
  }

  lemma {:induction false} LinkedPush(next: map<nat, nat>, head: nat, q: seq<nat>, p: nat)
    requires Linked(next, head, q) && p != 0 && p !in q
    ensures Linked(next[p := head], p, [p] + q)
  {
    var q' := [p] + q;
    var next' := next[p := head];
    forall i: nat | i < |q'| ensures LinkOk(next', q', i) {
      if i > 0 { assert LinkOk(next, q, i - 1); }
    }
  }

  lemma {:induction false} WithoutAt(q: seq<nat>, i: nat)
    requires Distinct(q) && i < |q|
    ensures Without(q, q[i]) == q[..i] + q[i + 1..]
  {
    if i > 0 {
      WithoutAt(q[1..], i - 1);
      assert q[1..][i - 1] == q[i];
      assert q[..i] + q[i + 1..] == [q[0]] + (q[1..][..i - 1] + q[1..][i..]);
    }
  }

  lemma {:induction false} WithoutAbsent(q: seq<nat>, p: nat)
    requires p !in q
    ensures Without(q, p) == q
  {
    if q != [] { WithoutAbsent(q[1..], p); }
  }

  /** Redirecting the link before position i takes that process out of the list. */
  lemma {:induction false} LinkedCut(next: map<nat, nat>, head: nat, q: seq<nat>, i: nat)
    requires Linked(next, head, q) && Distinct(q) && i < |q| && q[i] in next
    ensures i == 0 ==> Linked(next, next[q[i]], q[1..])
    ensures i > 0 ==> q[i - 1] in next && Linked(next[q[i - 1] := next[q[i]]], head, q[..i] + q[i + 1..])
  {
    assert LinkOk(next, q, i);
    if i == 0 {
      var r := q[1..];
      forall j: nat | j < |r| ensures LinkOk(next, r, j) { assert LinkOk(next, q, j + 1); }
    } else {
      assert LinkOk(next, q, i - 1);
      var next' := next[q[i - 1] := next[q[i]]];
      var r := q[..i] + q[i + 1..];
      forall j: nat | j < |r| ensures LinkOk(next', r, j) {
        assert LinkOk(next, q, if j < i then j else j + 1);
        assert (j < i - 1 ==> q[j] != q[i - 1]) && (j >= i ==> q[j + 1] != q[i - 1]);
      }
    }
  }

  class Scheduler {
    var procs: map<nat, Proc>
    var next: map<nat, nat>
    var head: seq<nat>
    var count: seq<nat>
    var load: seq<nat>
    var busy: seq<nat>
    var idle: seq<nat>
    var current: seq<nat>
    var uptime: nat
    ghost var s: Sched

    /** The lists and counters represent the queues qs. */
    ghost predicate Represents(qs: seq<seq<nat>>)
      reads this
    {
      && |qs| == CPUS && |head| == CPUS && |count| == CPUS
      && forall c: nat :: c < CPUS ==> Represented(next, head, count, qs, c)
    }

    ghost predicate Valid()
      reads this
    {
      && Inv(s) && Represents(s.queues)
      && procs == s.procs && current == s.current && load == s.load && busy == s.busy && idle == s.idle && uptime == s.uptime
    }

    /** scheduler_init */
    constructor ()
      ensures Valid() && s.procs == map[] && s.uptime == 0 && forall c: nat :: c < CPUS ==> s.queues[c] == []
    {
      procs, next, uptime := map[], map[], 0;
      head, count, load, busy, idle, current := seq(CPUS, _ => 0), seq(CPUS, _ => 0), seq(CPUS, _ => 0), seq(CPUS, _ => 0), seq(CPUS, _ => 0), seq(CPUS, _ => 0);
      s := Sched(map[], seq(CPUS, _ => []), seq(CPUS, _ => 0), seq(CPUS, _ => 0), seq(CPUS, _ => 0), seq(CPUS, _ => 0), 0, map[], map[]);
      new;
      ZeroSum(CPUS);
      forall c: nat | c < CPUS ensures QueueOk(s, c) { }
      forall c: nat | c < CPUS ensures Represented(next, head, count, s.queues, c) { }
    }

    /** push_front */
    method PushFront(cpu: nat, p: nat, ghost qs: seq<seq<nat>>)
      requires Represents(qs) && cpu < CPUS && p != 0 && forall c: nat :: c < CPUS ==> p !in qs[c]
      modifies this`next, this`head, this`count
      ensures Represents(qs[cpu := [p] + qs[cpu]])
    {
      assert Represented(next, head, count, qs, cpu);
      ghost var next0, head0, count0 := next, head, count;
      next := next[p := head[cpu]];
      head := head[cpu := p];
      count := count[cpu := count[cpu] + 1];
      LinkedPush(next0, head0[cpu], qs[cpu], p);
      ghost var qs' := qs[cpu := [p] + qs[cpu]];
      forall c: nat | c < CPUS ensures Represented(next, head, count, qs', c) {
        assert Represented(next0, head0, count0, qs, c);
        if c != cpu { LinkedFrame(next0, next, head[c], qs[c]); }
      }
    }

    /** unlink: walks the links of the queue until it finds p. */
    method Unlink(cpu: nat, p: nat, ghost qs: seq<seq<nat>>)
      requires Represents(qs) && cpu < CPUS && Distinct(qs[cpu])
      requires forall c: nat, x :: c < CPUS && c != cpu && x in qs[cpu] ==> x !in qs[c]
      modifies this`next, this`head, this`count
      ensures Represents(qs[cpu := Without(qs[cpu], p)])
    {
      ghost var q := qs[cpu];
      ghost var next0, head0, count0 := next, head, count;
      assert Represented(next, head, count, qs, cpu);
      var prev, cur := 0, head[cpu];
      ghost var i := 0;
      while cur != 0
        invariant 0 <= i <= |q| && cur == At(q, i) && prev == (if i == 0 then 0 else q[i - 1])
        invariant p !in q[..i] && next == next0 && head == head0 && count == count0
        decreases |q| - i
      {
        assert LinkOk(next, q, i);
        if cur == p {
          WithoutAt(q, i);
          LinkedCut(next, head[cpu], q, i);
          WithoutIs(q, p);
          assert p in q;
          assert i > 0 ==> LinkOk(next, q, i - 1);
          if prev == 0 {
            head := head[cpu := next[p]];
            assert q[..0] + q[1..] == q[1..];
          } else {
            next := next[prev := next[p]];
          }
          count := count[cpu := count[cpu] - 1];
          CutRepresents(next0, head0, count0, next, head, count, qs, qs[cpu := Without(q, p)], cpu, Without(q, p));
          return;
        }
        assert q[..i + 1] == q[..i] + [q[i]];
        prev, cur, i := cur, next[cur], i + 1;
      }
      assert i < |q| ==> LinkOk(next, q, i);
      assert q[..i] == q;
      WithoutAbsent(q, p);
      assert qs[cpu := q] == qs;
    }

    /** pick_next: the first ready process from the head of the queue, `skip` left out. */
    method PickNext(cpu: nat, skip: nat, ghost qs: seq<seq<nat>>) returns (p: nat)
      requires Represents(qs) && cpu < CPUS && forall x :: x in qs[cpu] ==> x in procs
      ensures p == FirstReady(procs, qs[cpu], skip)
    {
      ghost var q := qs[cpu];
      assert Represented(next, head, count, qs, cpu);
      var start := head[cpu];
      if start == 0 {
        assert q != [] ==> LinkOk(next, q, 0);
        return 0;
      }
      p := start;
      ghost var i := 0;
      assert q[0..] == q;
      assert LinkOk(next, q, 0);
      while true
        invariant 0 <= i < |q| && p == q[i]
        invariant FirstReady(procs, q, skip) == FirstReady(procs, q[i..], skip)
        decreases |q| - i
      {
        assert LinkOk(next, q, i) && (i + 1 < |q| ==> LinkOk(next, q, i + 1));
        assert q[i] in q;
        if procs[p].state == Ready && p != skip { return p; }
        assert q[i..][1..] == q[i + 1..];
        if next[p] == 0 {
          assert FirstReady(procs, q[i + 1..], skip) == 0;
          return 0;      // the cyclic walk is back at its start
        }
        p, i := next[p], i + 1;
      }
    }

    /** least_loaded_locked over the n CPUs in use: fewest queued processes, then lowest load,
        then lowest number. */
    method LeastLoaded(n: nat) returns (best: nat)
      requires Valid() && 1 <= n <= CPUS
      ensures best < n
      ensures forall i: nat :: i < n ==> |s.queues[best]| <= |s.queues[i]|
      ensures forall i: nat :: i < n && |s.queues[best]| == |s.queues[i]| ==> s.load[best] <= s.load[i] && (s.load[best] == s.load[i] ==> best <= i)
    {
      best := 0;
      var i := 1;
      assert Represented(next, head, count, s.queues, 0);
      while i < n
        invariant 1 <= i <= n && best < i
        invariant count[best] == |s.queues[best]|
        invariant forall j: nat :: j < i ==> |s.queues[best]| <= |s.queues[j]|
        invariant forall j: nat :: j < i && |s.queues[best]| == |s.queues[j]| ==> s.load[best] <= s.load[j] && (s.load[best] == s.load[j] ==> best <= j)
      {
        assert Represented(next, head, count, s.queues, i);
        if count[i] < count[best] || (count[i] == count[best] && load[i] < load[best]) {
          best := i;
        }
        i := i + 1;
      }
    }

    /** scheduler_enqueue_on; an unknown CPU number means CPU 0. */
    method EnqueueOn(p: nat, cpu0: nat)
      requires Valid() && p in procs && p != 0 && !OnSomeQueue(s, p) && procs[p].ctx.cs == USER_CS
      modifies this
      ensures Valid() && s == Enqueued(old(s), p, if cpu0 >= CPUS then 0 else cpu0)
    {
      var cpu := if cpu0 >= CPUS then 0 else cpu0;
      EnqueueKeeps(s, p, cpu);
      procs := procs[p := procs[p].(state := Ready, cpu := cpu, ticks := 0)];
      PushFront(cpu, p, s.queues);
      s := Enqueued(s, p, cpu);
    }

    /** scheduler_enqueue: onto the least loaded of n CPUs. */
    method Enqueue(p: nat, n: nat) returns (ghost cpu: nat)
      requires Valid() && 1 <= n <= CPUS && p in procs && p != 0 && !OnSomeQueue(s, p) && procs[p].ctx.cs == USER_CS
      modifies this
      ensures Valid() && cpu < n && s == Enqueued(old(s), p, cpu)
      ensures forall i: nat :: i < n ==> |old(s).queues[cpu]| <= |old(s).queues[i]|
    {
      var best := LeastLoaded(n);
      cpu := best;
      EnqueueOn(p, best);
    }

    /** kill_cur_locked for the current process of the CPU. */
    method KillCurrent(cpu: nat)
      requires Valid() && cpu < CPUS && current[cpu] != 0
      modifies this
      ensures Valid() && old(s).current[cpu] in old(s).procs && s == Killed(old(s), cpu) && !OnSomeQueue(s, old(s).current[cpu])
    {
      KillKeeps(s, cpu);
      var cur := current[cpu];
      assert QueueOk(s, cpu);
      forall c: nat, x | c < CPUS && c != cpu && x in s.queues[cpu] ensures x !in s.queues[c] {
        if x in s.queues[c] { QueuesDisjoint(s, c, cpu, x); }
      }
      Unlink(cpu, cur, s.queues);
      current := current[cpu := 0];
      if procs[cur].parent != 0 {
        procs := procs[cur := procs[cur].(state := Zombie, terminate := false)];
      } else {
        procs := procs - {cur};      // process_destroy
      }
      s := Killed(s, cpu);
    }

    /** The accounting half of scheduler_timer_tick. */
    method Account(cpu: nat, frame: Frame, krsp: nat)
      requires Valid() && cpu < CPUS
      modifies this
      ensures Valid() && s == Accounted(old(s), cpu, frame, krsp)
    {
      AccountKeeps(s, cpu, frame, krsp);
      RunnerIsCurrent(s, cpu);
      uptime := uptime + 1;
      var cur := current[cpu];
      if cur != 0 && procs[cur].state == Running {
        busy := busy[cpu := busy[cpu] + 1];
        load := load[cpu := load[cpu] / 2 + LOAD_UNIT];
        var p := procs[cur].(ticks := procs[cur].ticks + 1, ctx := frame);
        if p.blocked { p := p.(krsp := krsp); }
        procs := procs[cur := p];
      } else {
        idle := idle[cpu := idle[cpu] + 1];
        load := load[cpu := load[cpu] / 2];
      }
      s := Accounted(s, cpu, frame, krsp);
    }

    /** Gives the CPU to `nxt`. */
    method SwitchIn(cpu: nat, nxt: nat) returns (r: Resume)
      requires Represents(s.queues) && Sized(s) && cpu < CPUS && nxt in s.procs && Inv(SwitchedIn(s, cpu, nxt))
      requires procs == s.procs && current == s.current && load == s.load && busy == s.busy && idle == s.idle && uptime == s.uptime
      modifies this`procs, this`current, this`s
      ensures Valid() && s == SwitchedIn(old(s), cpu, nxt) && r == ResumeOf(old(s).procs[nxt])
    {
      procs := procs[nxt := procs[nxt].(ticks := 0, state := Running)];
      current := current[cpu := nxt];
      if procs[nxt].blocked {
        r := ToKernel(procs[nxt].ctx, procs[nxt].krsp);
      } else {
        r := ToUser(procs[nxt].ctx);
      }
      s := SwitchedIn(s, cpu, nxt);
    }

    /** scheduler_timer_tick */
    method TimerTick(cpu: nat, frame: Frame, krsp: nat) returns (r: Resume)
      requires Valid() && cpu < CPUS
      modifies this
      ensures Valid() && (s, r) == Ticked(old(s), cpu, frame, krsp)
    {
      RunnerIsCurrent(s, cpu);
      Account(cpu, frame, krsp);
      RunnerIsCurrent(s, cpu);
      r := Dispatch(cpu, frame);
    }

    /** The dispatching half of scheduler_timer_tick. */
    method Dispatch(cpu: nat, frame: Frame) returns (r: Resume)
      requires Valid() && cpu < CPUS && (current[cpu] != 0 ==> current[cpu] in procs && procs[current[cpu]].ctx == frame)
      modifies this
      ensures Valid() && (s, r) == Dispatched(old(s), cpu, frame)
    {
      DispatchKeeps(s, cpu, frame);
      RunnerIsCurrent(s, cpu);
      var cur := current[cpu];
      if cur != 0 && procs[cur].state == Running {
        if procs[cur].terminate {
          if frame.cs == USER_CS {
            KillCurrent(cpu);
            cur := 0;
          } else {
            return Same;
          }
        } else if procs[cur].ticks < QUANTUM && !procs[cur].blocked {
          return Same;
        }
      }
      if frame.cs != USER_CS && cur != 0 && !procs[cur].blocked {
        return Same;
      }
      r := Switch(cpu, cur);
    }

    /** Looks for other work on the queue and hands the CPU over. */
    method Switch(cpu: nat, cur: nat) returns (r: Resume)
      requires Valid() && cpu < CPUS && cur == current[cpu]
      requires cur != 0 ==> cur in procs && (procs[cur].blocked || procs[cur].ctx.cs == USER_CS)
      modifies this
      ensures Valid()
      ensures var nxt := FirstReady(old(s).procs, old(s).queues[cpu], cur);
              if nxt == 0 || nxt !in old(s).procs then s == old(s) && r == Same
              else
                var s2 := if cur != 0 then SwitchedOut(old(s), cur) else old(s);
                s == SwitchedIn(s2, cpu, nxt) && r == ResumeOf(s2.procs[nxt])
    {
      RunnerIsCurrent(s, cpu);
      QueueInProcs(s, cpu);
      FirstReadyFound(s.procs, s.queues[cpu], cur);
      var nxt := PickNext(cpu, cur, s.queues);
      if nxt == 0 || nxt == cur { return Same; }
      HandOverKeeps(s, cpu, nxt);
      if cur != 0 {
        procs := procs[cur := procs[cur].(ticks := 0, state := Ready)];
        s := SwitchedOut(s, cur);
      }
      r := SwitchIn(cpu, nxt);
    }

    /** scheduler_exit_current; Same means that the CPU goes idle. */
    method ExitCurrent(cpu: nat, status: int) returns (r: Resume)
      requires Valid() && cpu < CPUS
      modifies this
      ensures Valid() && (s, r) == Exited(old(s), cpu, status)
    {
      RunnerIsCurrent(s, cpu);
      var cur := current[cpu];
      if cur != 0 {
        StatusKeeps(s, cur, procs[cur].terminate, status);
        procs := procs[cur := procs[cur].(exitStatus := status)];
        s := s.(procs := procs);
        KillCurrent(cpu);
      }
      QueueInProcs(s, cpu);
      FirstReadyFound(s.procs, s.queues[cpu], 0);
      var nxt := PickNext(cpu, 0, s.queues);
      if nxt == 0 { return Same; }
      SwitchInKeeps(s, cpu, nxt);
      r := SwitchIn(cpu, nxt);
    }

    /** find_pid_locked: the first queued process with the pid, CPU by CPU. */
    method FindPid(pid: nat) returns (p: nat)
      requires Valid()
      ensures p != 0 ==> OnSomeQueue(s, p) && p in procs && procs[p].pid == pid
      ensures p == 0 ==> forall x :: x in procs && OnSomeQueue(s, x) ==> procs[x].pid != pid
    {
      var cpu: nat := 0;
      while cpu < CPUS
        invariant cpu <= CPUS
        invariant forall c: nat, x :: c < cpu && x in s.queues[c] ==> x in procs && procs[x].pid != pid
      {
        p := FindInQueue(cpu, pid);
        if p != 0 { return; }
        cpu := cpu + 1;
      }
      p := 0;
    }

    method FindInQueue(cpu: nat, pid: nat) returns (p: nat)
      requires Valid() && cpu < CPUS
      ensures p != 0 ==> p in s.queues[cpu] && p in procs && procs[p].pid == pid
      ensures p == 0 ==> forall x :: x in s.queues[cpu] ==> x in procs && procs[x].pid != pid
    {
      QueueInProcs(s, cpu);
      ghost var q := s.queues[cpu];
      assert Represented(next, head, count, s.queues, cpu);
      p := head[cpu];
      ghost var i := 0;
      while p != 0
        invariant 0 <= i <= |q| && p == At(q, i)
        invariant forall j :: 0 <= j < i ==> procs[q[j]].pid != pid
        decreases |q| - i
      {
        assert LinkOk(next, q, i);
        assert q[i] in q;
        if procs[p].pid == pid { return; }
        p, i := next[p], i + 1;
      }
      assert i < |q| ==> LinkOk(next, q, i);
    }

    /** scheduler_terminate */
    method Terminate(pid: nat) returns (ok: bool, ghost p: nat)
      requires Valid()
      modifies this`procs, this`s
      ensures Valid()
      ensures ok ==> OnSomeQueue(old(s), p) && p in old(s).procs && old(s).procs[p].pid == pid && s == Terminated(old(s), p)
      ensures !ok ==> s == old(s) && forall x :: x in s.procs && OnSomeQueue(s, x) ==> s.procs[x].pid != pid
    {
      var q := FindPid(pid);
      p := q;
      if q != 0 && procs[q].state != Zombie {
        StatusKeeps(s, q, true, 2);
        procs := procs[q := procs[q].(terminate := true, exitStatus := 2)];
        s := Terminated(s, q);
        return true, p;
      }
      ok := false;
      if q != 0 { ZombiesOffQueue(s, q); }
    }
  }

  ghost predicate Represented(next: map<nat, nat>, head: seq<nat>, count: seq<nat>, qs: seq<seq<nat>>, c: nat)
    requires |qs| == CPUS && |head| == CPUS && |count| == CPUS && c < CPUS
  {
    Linked(next, head[c], qs[c]) && count[c] == |qs[c]|
  }

  lemma {:induction false} QueueInProcs(s: Sched, cpu: nat)
    requires Inv(s) && cpu < CPUS
    ensures forall x :: x in s.queues[cpu] ==> x in s.procs && x != 0
  {
    assert QueueOk(s, cpu);
  }

  lemma {:induction false} CutRepresents(next0: map<nat, nat>, head0: seq<nat>, count0: seq<nat>, next: map<nat, nat>, head: seq<nat>, count: seq<nat>,
                                         qs: seq<seq<nat>>, qs': seq<seq<nat>>, cpu: nat, r: seq<nat>)
    requires |qs| == CPUS && cpu < CPUS && qs' == qs[cpu := r] && |head0| == CPUS && |count0| == CPUS && |head| == CPUS && |count| == CPUS
    requires forall c: nat :: c < CPUS ==> Represented(next0, head0, count0, qs, c)
    requires forall c: nat, x :: c < CPUS && c != cpu && x in qs[cpu] ==> x !in qs[c]
    requires forall x :: x in next0 && x !in qs[cpu] ==> x in next && next[x] == next0[x]
    requires forall c: nat :: c < CPUS && c != cpu ==> head[c] == head0[c] && count[c] == count0[c]
    requires Linked(next, head[cpu], r) && count[cpu] == |r|
    ensures forall c: nat :: c < CPUS ==> Represented(next, head, count, qs', c)
  {
    forall c: nat | c < CPUS ensures Represented(next, head, count, qs', c) {
      assert Represented(next0, head0, count0, qs, c);
      if c != cpu { LinkedFrame(next0, next, head0[c], qs[c]); }
    }
  }

  lemma {:induction false} ZeroSum(n: nat)
    ensures Sum(seq(n, _ => 0)) == 0
  {
    if n > 0 {
      ZeroSum(n - 1);
      assert seq(n, _ => 0)[1..] == seq(n - 1, _ => 0);
    }
  }
}
