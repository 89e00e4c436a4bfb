/** Whole runs of the kernel heap: any sequence of allocations, frees and growth. */
module HeapRuns {
  import opened HeapBlocks

  datatype HeapState = HeapState(blocks: seq<Block>, regions: seq<Region>, splits: nat)

  /** The list is address-sorted, disjoint, 16-aligned, maximally coalesced, inside its
      regions, and every byte of the regions is accounted for: 48 bytes are lost per
      region and per split. */
  ghost predicate HeapOk(s: HeapState) {
    && WellFormed(s.blocks, s.regions) && Coalesced(s.blocks)
    && SizeSum(s.blocks) + HEADER * (|s.regions| + s.splits) == LenSum(s.regions)
  }

  ghost predicate Grows(s: HeapState, t: HeapState, i: nat, r: Region) {
    && Fits(s.blocks, s.regions, i, r)
    && t == HeapState(InsertAt(s.blocks, i, RegionBlock(r)), s.regions + [r], s.splits)
  }

  ghost predicate Allocs(s: HeapState, t: HeapState, k: nat, used: nat, pad: nat) {
    && k < |s.blocks| && s.blocks[k].free
    && used % 16 == 0 && pad % 16 == 0 && HEADER + pad <= used <= s.blocks[k].size
    && t == HeapState(Allocated(s.blocks, k, used, pad), s.regions,
                      s.splits + if s.blocks[k].size - used >= MIN_FREE then 1 else 0)
  }

  ghost predicate Frees(s: HeapState, t: HeapState, k: nat) {
    k < |s.blocks| && !s.blocks[k].free && t == HeapState(Freed(s.blocks, k), s.regions, s.splits)
  }

  ghost predicate Step(s: HeapState, t: HeapState) {
    || (exists i, r :: Grows(s, t, i, r))
    || (exists k, used, pad :: Allocs(s, t, k, used, pad))
    || (exists k :: Frees(s, t, k))
  }

  ghost predicate IsRun(run: seq<HeapState>) {
    |run| > 0 && forall i: nat :: i + 1 < |run| ==> StepAt(run, i)
  }

  ghost predicate StepAt(run: seq<HeapState>, i: nat)
    requires i + 1 < |run|
  {
    Step(run[i], run[i + 1])
  }

  ghost predicate Reaches(s: HeapState, t: HeapState) {
    exists run :: IsRun(run) && run[0] == s && run[|run| - 1] == t
  }

  lemma {:induction false} ReachesSelf(s: HeapState)
    ensures Reaches(s, s)
  {
    assert IsRun([s]);
  }

  lemma {:induction false} ReachesFurther(s: HeapState, t: HeapState, u: HeapState)
    requires Reaches(s, t) && Step(t, u)
    ensures Reaches(s, u)
  {
    var run :| IsRun(run) && run[0] == s && run[|run| - 1] == t;
    var run' := run + [u];
    forall i: nat | i + 1 < |run'| ensures StepAt(run', i) {
      if i + 1 < |run| { assert StepAt(run, i); }
    }
    assert IsRun(run');
  }

  lemma {:induction false} StepKeepsOk(s: HeapState, t: HeapState)
    requires HeapOk(s) && Step(s, t)
    ensures HeapOk(t)
  {
    if i, r :| Grows(s, t, i, r) {
      InsertKeeps(s.blocks, s.regions, i, r);
      InsertCoalesced(s.blocks, s.regions, i, r);
      InsertSum(s.blocks, i, RegionBlock(r));
      assert t.regions[..|s.regions|] == s.regions;
    } else if k, used, pad :| Allocs(s, t, k, used, pad) {
      AllocatedKeeps(s.blocks, s.regions, k, used, pad);
    } else {
      var k :| Frees(s, t, k);
      FreedKeeps(s.blocks, s.regions, k);
      FreedCoalesced(s.blocks, k);
    }
  }

  /** A live block is never moved, resized or re-padded by a step that does not free it. */
  lemma {:induction false} StepKeepsLive(s: HeapState, t: HeapState, b: Block)
    requires HeapOk(s) && Step(s, t) && b in s.blocks && !b.free
    ensures b in t.blocks || Payload(b) !in Payloads(t.blocks)
  {
    var j :| 0 <= j < |s.blocks| && s.blocks[j] == b;
    if i, r :| Grows(s, t, i, r) {
      assert t.blocks[if j < i then j else j + 1] == b;
    } else if k, used, pad :| Allocs(s, t, k, used, pad) {
      assert t.blocks[if j < k then j else j + (|t.blocks| - |s.blocks|)] == b;
    } else {
      var k :| Frees(s, t, k);
      FreedPayloads(s.blocks, s.regions, k);
      if j != k { FreedKeepsOther(s.blocks, k, j); }
    }
  }

  lemma {:induction false} FreedKeepsOther(bs: seq<Block>, k: nat, j: nat)
    requires k < |bs| && j < |bs| && j != k && !bs[j].free
    ensures bs[j] in Freed(bs, k)
  {
    var r := ReleaseAt(bs, k);
    var m := Joined(r, k);
    assert r[j] == bs[j];
    var j' := if j < k then j else j - (|r| - |m|);
    assert m[j'] == bs[j];
    var f := Freed(bs, k);
    assert f[if j < k then j else j' - (|m| - |f|)] == bs[j];
  }

  /** Every state of every run is sound. */
  lemma {:induction false} RunKeepsOk(run: seq<HeapState>, n: nat)
    requires IsRun(run) && HeapOk(run[0]) && n < |run|
    ensures HeapOk(run[n])
  {
    if n > 0 {
      RunKeepsOk(run, n - 1);
      assert StepAt(run, n - 1);
      StepKeepsOk(run[n - 1], run[n]);
    }
  }

  /** A block that stays allocated through a stretch of a run is the same block at its end. */
  lemma {:induction false} RunKeepsLive(run: seq<HeapState>, m: nat, n: nat, b: Block)
    requires IsRun(run) && HeapOk(run[0]) && m <= n < |run|
    requires b in run[m].blocks && !b.free
    requires forall i :: m <= i <= n ==> Payload(b) in Payloads(run[i].blocks)
    ensures b in run[n].blocks
    decreases n
  {
    if m < n {
      RunKeepsLive(run, m, n - 1, b);
      RunKeepsOk(run, n - 1);
      assert StepAt(run, n - 1);
      StepKeepsLive(run[n - 1], run[n], b);
    }
  }

  /** In every reachable state a byte of a live payload belongs to no other block, and
      freeing by pointer finds exactly the block that was allocated when there is no padding. */
  lemma {:induction false} ReachablePayloadsSafe(s: HeapState, t: HeapState, i: nat, j: nat, x: nat)
    requires HeapOk(s) && Reaches(s, t)
    requires i < |t.blocks| && j < |t.blocks| && i != j && !t.blocks[i].free
    requires Payload(t.blocks[i]) <= x < t.blocks[i].addr + t.blocks[i].size
    ensures !(t.blocks[j].addr <= x < End(t.blocks[j]))
    ensures HeapOk(t)
  {
    var run :| IsRun(run) && run[0] == s && run[|run| - 1] == t;
    RunKeepsOk(run, |run| - 1);
    PayloadIsolated(t.blocks, t.regions, i, j, x);
  }
}
