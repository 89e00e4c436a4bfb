/** Whole runs of file-system operations: no two live chains ever share a cluster. */
module FatRuns {
  import opened LittleEndian
  import opened FatChains
  import opened FatReach
  import opened FatVolume
  import opened FatFiles
  import opened FatWrite
  import opened FatStore

  /** Table, data and the chains that directory entries refer to. */
  datatype FsState = FsState(fat: Fat, data: Data, live: seq<seq<nat>>)

  /** Every live chain is acyclic, in range and EOC-terminated, and no two share a cluster. */
  ghost predicate NoCrossLinks(s: FsState) {
    && |s.data| == |s.fat|
    && (forall k :: 0 <= k < |s.live| ==> Chain(s.fat, s.live[k]))
    && (forall j, k :: 0 <= j < k < |s.live| ==> Disjoint(s.live[j], s.live[k]))
  }

  ghost predicate Disjoint(c: seq<nat>, d: seq<nat>) {
    forall x :: x in c ==> x !in d
  }

  /** A new file: a chain of clusters that were free. */
  ghost predicate Creates(s: FsState, t: FsState) {
    && |t.live| == |s.live| + 1 && t.live[..|s.live|] == s.live
    && t.live[|s.live|] != []
    && Confined(s.fat, s.data, t.fat, t.data, [], t.live[|s.live|])
  }

  /** An operation on file k that leaves it a chain: a write, a rewrite, a directory growing. */
  ghost predicate Changes(s: FsState, t: FsState, k: nat) {
    && k < |s.live| && |t.live| == |s.live| && t.live[k] != []
    && t.live == s.live[k := t.live[k]]
    && Confined(s.fat, s.data, t.fat, t.data, s.live[k], t.live[k])
  }

  /** File k loses its chain: it is removed or rewritten as empty. */
  ghost predicate Removes(s: FsState, t: FsState, k: nat) {
    && k < |s.live| && t.live == s.live[..k] + s.live[k + 1..]
    && Confined(s.fat, s.data, t.fat, t.data, s.live[k], [])
  }

  /** An operation that fails or leaks: free clusters may have been taken, no live chain is changed. */
  ghost predicate Leaks(s: FsState, t: FsState) {
    t.live == s.live && Confined(s.fat, s.data, t.fat, t.data, [], [])
  }

  ghost predicate Step(s: FsState, t: FsState) {
    || Creates(s, t)
    || (exists k :: Changes(s, t, k))
    || (exists k :: Removes(s, t, k))
    || Leaks(s, t)
  }

  lemma {:induction false} Spared(s: FsState, t: FsState, own: seq<nat>, now: seq<nat>, j: nat)
    requires NoCrossLinks(s) && Confined(s.fat, s.data, t.fat, t.data, own, now) && j < |s.live|
    requires Disjoint(s.live[j], own)
    ensures Chain(t.fat, s.live[j]) && Disjoint(s.live[j], now) && Disjoint(now, s.live[j])
    ensures InData(s.data, s.live[j]) && InData(t.data, s.live[j]) && Contents(t.data, s.live[j]) == Contents(s.data, s.live[j])
  {
    ConfinedSpares(s.fat, s.data, t.fat, t.data, own, now, s.live[j]);
  }

  lemma {:induction false} CreateKeeps(s: FsState, t: FsState)
    requires NoCrossLinks(s) && Creates(s, t)
    ensures NoCrossLinks(t)
  {
    var n := |s.live|;
    forall j | 0 <= j < n ensures Chain(t.fat, t.live[j]) && Disjoint(t.live[j], t.live[n]) {
      assert t.live[j] == t.live[..n][j];
      Spared(s, t, [], t.live[n], j);
    }
    forall j, k | 0 <= j < k < |t.live| ensures Disjoint(t.live[j], t.live[k]) {
      if k < n { assert t.live[j] == t.live[..n][j] && t.live[k] == t.live[..n][k]; }
    }
  }

  lemma {:induction false} OthersDisjoint(s: FsState, j: nat, k: nat)
    requires NoCrossLinks(s) && j < |s.live| && k < |s.live| && j != k
    ensures Disjoint(s.live[j], s.live[k])
  {
    if k < j { assert Disjoint(s.live[k], s.live[j]); }
  }

  lemma {:induction false} ChangeKeeps(s: FsState, t: FsState, k: nat)
    requires NoCrossLinks(s) && Changes(s, t, k)
    ensures NoCrossLinks(t)
  {
    forall j | 0 <= j < |s.live| && j != k
      ensures Chain(t.fat, t.live[j]) && Disjoint(t.live[j], t.live[k]) && Disjoint(t.live[k], t.live[j])
    {
      OthersDisjoint(s, j, k);
      Spared(s, t, s.live[k], t.live[k], j);
    }
    forall i, j | 0 <= i < j < |t.live| ensures Disjoint(t.live[i], t.live[j]) {
      if i != k && j != k { assert Disjoint(s.live[i], s.live[j]); }
    }
  }

  lemma {:induction false} RemoveKeeps(s: FsState, t: FsState, k: nat)
    requires NoCrossLinks(s) && Removes(s, t, k)
    ensures NoCrossLinks(t)
  {
    forall j | 0 <= j < |t.live| ensures Chain(t.fat, t.live[j]) {
      var j' := if j < k then j else j + 1;
      OthersDisjoint(s, j', k);
      Spared(s, t, s.live[k], [], j');
    }
    forall i, j | 0 <= i < j < |t.live| ensures Disjoint(t.live[i], t.live[j]) {
      assert Disjoint(s.live[if i < k then i else i + 1], s.live[if j < k then j else j + 1]);
    }
  }

  lemma {:induction false} StepKeeps(s: FsState, t: FsState)
    requires NoCrossLinks(s) && Step(s, t)
    ensures NoCrossLinks(t)
  {
    if Creates(s, t) {
      CreateKeeps(s, t);
    } else if k :| Changes(s, t, k) {
      ChangeKeeps(s, t, k);
    } else if k :| Removes(s, t, k) {
      RemoveKeeps(s, t, k);
    } else {
      forall j | 0 <= j < |s.live| ensures Chain(t.fat, t.live[j]) { Spared(s, t, [], [], j); }
    }
  }

  ghost predicate StepAt(run: seq<FsState>, i: nat)
    requires i + 1 < |run|
  {
    Step(run[i], run[i + 1])
  }

  ghost predicate IsRun(run: seq<FsState>) {
    |run| > 0 && forall i: nat :: i + 1 < |run| ==> StepAt(run, i)
  }

  /** No run of operations ever cross-links two chains. */
  lemma {:induction false} RunKeepsNoCrossLinks(run: seq<FsState>, n: nat)
    requires IsRun(run) && NoCrossLinks(run[0]) && n < |run|
    ensures NoCrossLinks(run[n])
  {
    if n > 0 {
      RunKeepsNoCrossLinks(run, n - 1);
      assert StepAt(run, n - 1);
      StepKeeps(run[n - 1], run[n]);
    }
  }

  /** In no reachable state does a cluster of a live chain count as free, so allocation never
      hands it out. */
  lemma {:induction false} LiveIsNeverFree(run: seq<FsState>, n: nat, k: nat, x: nat)
    requires IsRun(run) && NoCrossLinks(run[0]) && n < |run| && k < |run[n].live| && x in run[n].live[k]
    ensures 2 <= x < |run[n].fat| && run[n].fat[x] != 0
  {
    RunKeepsNoCrossLinks(run, n);
    ChainNonzero(run[n].fat, run[n].live[k], x);
  }

  /** A file is changed by no step on another file. */
  lemma {:induction false} OtherFilesKept(s: FsState, t: FsState, k: nat, j: nat)
    requires NoCrossLinks(s) && Changes(s, t, k) && j < |s.live| && j != k
    ensures t.live[j] == s.live[j] && InData(s.data, s.live[j]) && InData(t.data, s.live[j])
    ensures Contents(t.data, t.live[j]) == Contents(s.data, s.live[j])
  {
    OthersDisjoint(s, j, k);
    Spared(s, t, s.live[k], t.live[k], j);
  }

  // ---- the operations of the driver are such steps ----

  /** What the volume holds, with the chains in use. */
  ghost function StateOf(v: Volume, live: seq<seq<nat>>): FsState
    reads v
  {
    FsState(v.fat, v.data, live)
  }

  /** heads are the first clusters that directory entries hold. */
  ghost predicate Heads(heads: seq<nat>, live: seq<seq<nat>>) {
    |heads| == |live| && forall k :: 0 <= k < |live| ==> live[k] != [] && heads[k] == live[k][0]
  }

  /** An operation turned the chain `own` into `now`: the step it takes on the chains in use. */
  lemma {:induction false} ChangeOne(s: FsState, fat: Fat, data: Data, k: nat, now: seq<nat>) returns (live: seq<seq<nat>>)
    requires NoCrossLinks(s) && k < |s.live| && Confined(s.fat, s.data, fat, data, s.live[k], now)
    ensures if now == [] then Removes(s, FsState(fat, data, live), k) else Changes(s, FsState(fat, data, live), k)
    ensures if now == [] then live == s.live[..k] + s.live[k + 1..] else live == s.live[k := now]
  {
    live := if now == [] then s.live[..k] + s.live[k + 1..] else s.live[k := now];
  }

  lemma {:induction false} AddOne(s: FsState, fat: Fat, data: Data, now: seq<nat>) returns (live: seq<seq<nat>>)
    requires Confined(s.fat, s.data, fat, data, [], now)
    ensures if now == [] then Leaks(s, FsState(fat, data, live)) else Creates(s, FsState(fat, data, live))
    ensures live == if now == [] then s.live else s.live + [now]
  {
    live := if now == [] then s.live else s.live + [now];
    var t := FsState(fat, data, live);
    assert now != [] ==> t.live[..|s.live|] == s.live;
  }

  function Drop(heads: seq<nat>, k: nat): seq<nat>
    requires k < |heads|
  {
    heads[..k] + heads[k + 1..]
  }

  /** fat32_write to file k. */
  method WriteTo(v: Volume, heads: seq<nat>, k: nat, offset: nat, src: seq<byte>, ghost live: seq<seq<nat>>) returns (done: nat, ghost live': seq<seq<nat>>)
    requires v.Valid() && NoCrossLinks(StateOf(v, live)) && Heads(heads, live) && k < |heads|
    modifies v
    ensures v.Valid() && Heads(heads, live') && Changes(old(StateOf(v, live)), StateOf(v, live'), k)
  {
    ghost var s := StateOf(v, live);
    var first;
    ghost var now;
    assert LinkAt(v.fat, live[k], 0);
    first, done, now := Write(v, heads[k], offset, src, live[k]);
    live' := ChangeOne(s, v.fat, v.data, k, now);
  }

  /** fat32_write to a file without clusters. */
  method WriteFirst(v: Volume, heads: seq<nat>, offset: nat, src: seq<byte>, ghost live: seq<seq<nat>>) returns (heads': seq<nat>, ghost live': seq<seq<nat>>)
    requires v.Valid() && NoCrossLinks(StateOf(v, live)) && Heads(heads, live)
    modifies v
    ensures v.Valid() && Heads(heads', live') && (if |heads'| == |heads| then Leaks(old(StateOf(v, live)), StateOf(v, live')) else Creates(old(StateOf(v, live)), StateOf(v, live')))
  {
    ghost var s := StateOf(v, live);
    var first, done;
    ghost var now;
    first, done, now := Write(v, 0, offset, src, []);
    live' := AddOne(s, v.fat, v.data, now);
    heads' := if first == 0 then heads else heads + [first];
    assert now != [] ==> LinkAt(v.fat, now, 0);
  }

  /** fat32_write_file over file k, and what its directory entry then holds. */
  method Rewrite(v: Volume, heads: seq<nat>, k: nat, buf: seq<byte>, ghost live: seq<seq<nat>>) returns (ok: bool, heads': seq<nat>, ghost live': seq<seq<nat>>)
    requires v.Valid() && NoCrossLinks(StateOf(v, live)) && Heads(heads, live) && k < |heads| && |buf| + v.g.Bpc() <= 0x1_0000_0000
    modifies v
    ensures v.Valid() && Heads(heads', live') && (if |heads'| == |heads| then Changes(old(StateOf(v, live)), StateOf(v, live'), k) else Removes(old(StateOf(v, live)), StateOf(v, live'), k))
  {
    ghost var s := StateOf(v, live);
    var first;
    ghost var now, w;
    assert LinkAt(v.fat, live[k], 0);
    ok, first, now, w := ReplaceFile(v, buf, true, heads[k], live[k]);
    live' := ChangeOne(s, v.fat, v.data, k, now);
    assert ok && w != [] ==> LinkAt(v.fat, w, 0);
    heads' := if !ok then heads else if first == 0 then Drop(heads, k) else heads[k := first];
  }

  /** fat32_write_file under a new name. */
  method StoreNew(v: Volume, heads: seq<nat>, buf: seq<byte>, ghost live: seq<seq<nat>>) returns (ok: bool, heads': seq<nat>, ghost live': seq<seq<nat>>)
    requires v.Valid() && NoCrossLinks(StateOf(v, live)) && Heads(heads, live) && |buf| + v.g.Bpc() <= 0x1_0000_0000
    modifies v
    ensures v.Valid() && Heads(heads', live') && (if |heads'| == |heads| then Leaks(old(StateOf(v, live)), StateOf(v, live')) else Creates(old(StateOf(v, live)), StateOf(v, live')))
  {
    ghost var s := StateOf(v, live);
    var first;
    ghost var now, w;
    ok, first, now, w := ReplaceFile(v, buf, false, 0, []);
    live' := AddOne(s, v.fat, v.data, now);
    assert ok && w != [] ==> LinkAt(v.fat, w, 0);
    heads' := if !ok || first == 0 then heads else heads + [first];
  }

  /** fat32_alloc_cluster for a new directory. */
  method NewDirectory(v: Volume, heads: seq<nat>, ghost live: seq<seq<nat>>) returns (heads': seq<nat>, ghost live': seq<seq<nat>>)
    requires v.Valid() && NoCrossLinks(StateOf(v, live)) && Heads(heads, live)
    modifies v
    ensures v.Valid() && Heads(heads', live') && (if |heads'| == |heads| then Leaks(old(StateOf(v, live)), StateOf(v, live')) else Creates(old(StateOf(v, live)), StateOf(v, live')))
  {
    ghost var s := StateOf(v, live);
    ConfinedSelf(v.fat, v.data, []);
    var r := v.AllocCluster();
    ghost var now := if r == 0 then [] else [r];
    if r != 0 { AppendConfined(s.fat, s.data, [], 0, r); }
    live' := AddOne(s, v.fat, v.data, now);
    heads' := if r == 0 then heads else heads + [r];
  }

  /** fat32_free_chain of file k, whose entry is deleted even when the device fails on the way. */
  method Remove(v: Volume, heads: seq<nat>, k: nat, ghost live: seq<seq<nat>>) returns (heads': seq<nat>, ghost live': seq<seq<nat>>)
    requires v.Valid() && NoCrossLinks(StateOf(v, live)) && Heads(heads, live) && k < |heads|
    modifies v
    ensures v.Valid() && Heads(heads', live') && Removes(old(StateOf(v, live)), StateOf(v, live'), k)
  {
    ghost var s := StateOf(v, live);
    ChainIsReach(v.fat, live[k]);
    ghost var p := v.FreeChain(heads[k]);
    WalkOnChain(s.fat, live[k], p);
    live' := ChangeOne(s, v.fat, v.data, k, []);
    heads' := Drop(heads, k);
  }

  /** The growing of directory k by dir_find_free_slots, whose walk over it has come `steps` clusters
      far. It is the one operation that can leave a directory without a chain. */
  method GrowDirectory(v: Volume, heads: seq<nat>, k: nat, steps: nat, ghost live: seq<seq<nat>>) returns (ok: bool, freed: bool, ghost live': seq<seq<nat>>, ghost broken: bool)
    requires v.Valid() && NoCrossLinks(StateOf(v, live)) && Heads(heads, live) && k < |heads|
    modifies v
    ensures v.Valid() && (broken ==> !ok && freed)
    ensures !broken ==> Heads(heads, live') && Changes(old(StateOf(v, live)), StateOf(v, live'), k)
    ensures broken ==> NoChainFrom(v.fat, heads[k])
    ensures v.faults == old(v.faults) ==> (broken <==> NoFreeBelow(old(v.fat), v.Lim()) && !NoFree(old(v.fat)))
  {
    ghost var s := StateOf(v, live);
    assert LinkAt(v.fat, live[k], 0);
    var cluster, last, n := WalkTo(v, heads[k], steps, live[k]);
    var newcl;
    ghost var now;
    ghost var at := if n == 0 then 1 else n;
    ok, freed, newcl, now, broken := ExtendDirectory(v, heads[k], last, live[k], at);
    live' := live;
    if broken {
      ghost var p := live[k][..at] + [newcl];
      forall e | e != [] && e[0] == heads[k] ensures !Chain(v.fat, e) { DanglingHasNoChain(v.fat, p, e); }
    } else {
      live' := ChangeOne(s, v.fat, v.data, k, now);
    }
  }

  // ---- every run of them ----

  datatype Op =
    | OpWrite(k: nat, offset: nat, src: seq<byte>)
    | OpWriteFirst(offset: nat, src: seq<byte>)
    | OpRewrite(k: nat, buf: seq<byte>)
    | OpStore(buf: seq<byte>)
    | OpNewDirectory
    | OpRemove(k: nat)
    | OpGrow(k: nat, steps: nat)

  /** The operation concerns a file there is, and its buffer has a 32-bit size. */
  predicate Possible(op: Op, n: nat, bpc: nat) {
    match op
    case OpWrite(k, _, _) => k < n
    case OpWriteFirst(_, _) => true
    case OpRewrite(k, buf) => k < n && |buf| + bpc <= 0x1_0000_0000
    case OpStore(buf) => |buf| + bpc <= 0x1_0000_0000
    case OpNewDirectory => true
    case OpRemove(k) => k < n
    case OpGrow(k, _) => k < n
  }

  /** One operation; an impossible one is passed over. */
  method Perform(v: Volume, heads: seq<nat>, op: Op, ghost live: seq<seq<nat>>) returns (heads': seq<nat>, freed: bool, ghost live': seq<seq<nat>>, ghost broken: bool)
    requires v.Valid() && NoCrossLinks(StateOf(v, live)) && Heads(heads, live)
    modifies v
    ensures v.Valid() && (!broken ==> Heads(heads', live') && Step(old(StateOf(v, live)), StateOf(v, live')))
    ensures freed ==> op.OpGrow?
    ensures broken ==> freed && op.OpGrow? && op.k < |heads| && NoChainFrom(v.fat, heads[op.k]) && heads' == heads
  {
    heads', freed, live', broken := heads, false, live, false;
    if !Possible(op, |heads|, v.g.Bpc()) {
      ConfinedSelf(v.fat, v.data, []);
      assert Leaks(StateOf(v, live), StateOf(v, live));
      return;
    }
    var done, ok;
    match op
    case OpWrite(k, offset, src) => done, live' := WriteTo(v, heads, k, offset, src, live);
    case OpWriteFirst(offset, src) => heads', live' := WriteFirst(v, heads, offset, src, live);
    case OpRewrite(k, buf) => ok, heads', live' := Rewrite(v, heads, k, buf, live);
    case OpStore(buf) => ok, heads', live' := StoreNew(v, heads, buf, live);
    case OpNewDirectory => heads', live' := NewDirectory(v, heads, live);
    case OpRemove(k) => heads', live' := Remove(v, heads, k, live);
    case OpGrow(k, steps) => ok, freed, live', broken := GrowDirectory(v, heads, k, steps, live);
  }

  lemma {:induction false} RunSnoc(run: seq<FsState>, t: FsState)
    requires IsRun(run) && Step(run[|run| - 1], t)
    ensures IsRun(run + [t])
  {
    var run' := run + [t];
    forall i: nat | i + 1 < |run'| ensures StepAt(run', i) {
      if i + 1 < |run| { assert StepAt(run, i); }
    }
  }

  /** No chain starts at x any more. */
  ghost predicate NoChainFrom(fat: Fat, x: nat) { forall e :: e != [] && e[0] == x ==> !Chain(fat, e) }

  /** Any sequence of operations, with any failures of the device, up to the first time a directory
      has its new cluster freed again (n counts the operations before that): no two chains in use are
      cross-linked in any of the states passed, and of the operations only that last one can leave
      anything but a chain behind. */
  method RunAll(v: Volume, heads: seq<nat>, ops: seq<Op>, ghost live: seq<seq<nat>>) returns (n: nat, heads': seq<nat>, freed: bool, ghost run: seq<FsState>, ghost broken: bool)
    requires v.Valid() && NoCrossLinks(StateOf(v, live)) && Heads(heads, live)
    modifies v
    ensures v.Valid() && n <= |ops| && IsRun(run) && run[0] == old(StateOf(v, live))
    ensures forall i :: 0 <= i < |run| ==> NoCrossLinks(run[i])
    ensures if freed then n < |ops| && ops[n].OpGrow? else n == |ops| && !broken
    ensures !broken ==> var t := run[|run| - 1]; t == StateOf(v, t.live) && Heads(heads', t.live)
    ensures broken ==> freed && ops[n].k < |heads'| && NoChainFrom(v.fat, heads'[ops[n].k])
  {
    n, heads', freed, run, broken := 0, heads, false, [StateOf(v, live)], false;
    ghost var now := live;
    while !freed && n < |ops|
      invariant v.Valid() && 0 <= n <= |ops| && IsRun(run) && run[0] == old(StateOf(v, live))
      invariant freed ==> n < |ops| && ops[n].OpGrow?
      invariant !broken ==> run[|run| - 1] == StateOf(v, now) && NoCrossLinks(run[|run| - 1]) && Heads(heads', now)
      invariant broken ==> freed && ops[n].k < |heads'| && NoChainFrom(v.fat, heads'[ops[n].k])
      decreases !freed, |ops| - n
    {
      ghost var s := run[|run| - 1];
      var heads2;
      ghost var live2;
      heads2, freed, live2, broken := Perform(v, heads', ops[n], now);
      if !broken {
        RunSnoc(run, StateOf(v, live2));
        StepKeeps(s, StateOf(v, live2));
        run, now := run + [StateOf(v, live2)], live2;
      }
      heads' := heads2;
      if !freed { n := n + 1; }
    }
    forall i | 0 <= i < |run| ensures NoCrossLinks(run[i]) { RunKeepsNoCrossLinks(run, i); }
  }
}
