/** The device side of fs/fat32.c: block transfers, table entries, clusters, cluster
    allocation and chain release.

    `fat` and `data` are what the sectors say.  A transfer inside the device may still fail, and
    so may an allocation of scratch memory; `faults` counts those failures.  A failed transfer
    leaves the device unchanged.  A transfer past the end of the device is refused, which is no
    fault: clusters from Lim() on are in the table but not on the device. */
module FatVolume {
  import opened Basics
  import opened LittleEndian
  import opened FatDisk
  import opened FatChains
  import opened FatReach

  const GUARD: nat := 0x100_0000

  ghost predicate NoFree(fat: Fat) {
    forall x :: 2 <= x < |fat| ==> fat[x] != 0
  }

  /** No cluster below l is free. */
  ghost predicate NoFreeBelow(fat: Fat, l: nat) {
    forall x :: 2 <= x < |fat| && x < l ==> fat[x] != 0
  }

  /** The table with the clusters of p freed. */
  ghost predicate Zeroed(fat: Fat, fat': Fat, p: seq<nat>) {
    |fat'| == |fat| && forall x :: 0 <= x < |fat| ==> fat'[x] == if x in p then 0 else fat[x]
  }

  /** The table with some of the clusters of p freed. */
  ghost predicate PartlyZeroed(fat: Fat, fat': Fat, p: seq<nat>) {
    |fat'| == |fat| && forall x :: 0 <= x < |fat| ==> fat'[x] == fat[x] || (x in p && fat'[x] == 0)
  }

  /** Entry and cluster number c of the abstract state are what the sectors hold. */
  ghost predicate Agree(g: Geometry, ss: seq<Sector>, fat: Fat, data: Data, c: nat)
    requires DiskOk(g, ss) && |fat| == g.Total() && |data| == g.Total() && c < g.Total()
  {
    fat[c] == Entry(g, ss, c) && (c >= 2 ==> data[c] == Cluster(g, ss, c))
  }

  ghost predicate Mirrors(g: Geometry, ss: seq<Sector>, fat: Fat, data: Data) {
    && DiskOk(g, ss)
    && |fat| == g.Total() && |data| == g.Total()
    && forall c: nat :: c < g.Total() ==> Agree(g, ss, fat, data, c)
  }

  /** The mirrored state after a table entry has been stored. */
  lemma {:induction false} MirrorEntry(g: Geometry, ss: seq<Sector>, fat: Fat, data: Data, cl: nat, value: nat)
    requires Mirrors(g, ss, fat, data) && cl < g.Total()
    requires g.EntryLba(cl) < g.dataStart && g.EntryLba(cl) < |ss| && g.EntryOff(cl) + 4 <= |ss[g.EntryLba(cl)]|
    ensures Mirrors(g, PutEntryAt(g, ss, cl, value), fat[cl := value % ENTRY_MOD], data)
  {
    var ss' := PutEntryAt(g, ss, cl, value);
    var fat' := fat[cl := value % ENTRY_MOD];
    EntryStored(g, ss, cl, value);
    forall d: nat | d < g.Total() ensures Agree(g, ss', fat', data, d) {
      assert Agree(g, ss, fat, data, d);
      PutEntryFrame(g, ss, cl, value, d);
      if d >= 2 { PutEntryKeepsData(g, ss, cl, value, d); }
    }
  }

  /** The mirrored state after a cluster has been stored. */
  lemma {:induction false} MirrorCluster(g: Geometry, ss: seq<Sector>, fat: Fat, data: Data, cl: nat, buf: seq<byte>)
    requires Mirrors(g, ss, fat, data) && 2 <= cl < g.Total() && |buf| == g.Bpc()
    requires g.dataStart <= g.ClusterLba(cl) && g.ClusterLba(cl) + g.spc <= |ss|
    ensures Mirrors(g, PutSectors(ss, g.ClusterLba(cl), Chop(buf, g.spc)), fat, data[cl := buf])
  {
    var lba := g.ClusterLba(cl);
    var ss' := PutSectors(ss, lba, Chop(buf, g.spc));
    var data' := data[cl := buf];
    ClusterStored(g, ss, cl, buf);
    forall d: nat | d < g.Total() ensures Agree(g, ss', fat, data', d) {
      assert Agree(g, ss, fat, data, d);
      PutClusterKeepsTable(g, ss, lba, Chop(buf, g.spc), d);
      if d >= 2 { PutClusterFrame(g, ss, cl, buf, d); }
    }
  }

  /** The first sectors of a cluster are a prefix of its bytes. */
  lemma {:induction false} MirrorRead(g: Geometry, ss: seq<Sector>, fat: Fat, data: Data, cl: nat, count: nat)
    requires Mirrors(g, ss, fat, data) && 2 <= cl < g.Total() && count <= g.spc
    requires g.ClusterLba(cl) + count <= |ss| && count > 0
    ensures |data[cl]| == g.Bpc() && SECTOR * count <= g.Bpc()
    ensures Flatten(ss[g.ClusterLba(cl)..g.ClusterLba(cl) + count]) == data[cl][..SECTOR * count]
  {
    var lba := g.ClusterLba(cl);
    assert Agree(g, ss, fat, data, cl);
    var part := Present(ss, lba, g.spc);
    assert part[..count] == ss[lba..lba + count];
    FlattenPrefix(part, count);
  }

  class Volume {
    const g: Geometry
    const size: nat
    var sectors: seq<Sector>
    ghost var fat: Fat
    ghost var data: Data
    ghost var faults: nat

    ghost predicate Valid()
      reads this
    {
      && |sectors| == size
      && Mirrors(g, sectors, fat, data)
      && DataShape(data, g.Bpc())
    }

    /** Clusters below are on the device, the others are not. */
    function Lim(): nat { g.Limit(size) }

    constructor (g: Geometry, sectors: seq<Sector>)
      requires DiskOk(g, sectors)
      ensures Valid() && this.g == g && this.sectors == sectors && size == |sectors| && faults == 0
    {
      this.g := g;
      this.size := |sectors|;
      this.sectors := sectors;
      fat := seq(g.Total(), c requires 0 <= c < g.Total() => Entry(g, sectors, c));
      data := seq(g.Total(), c requires 0 <= c < g.Total() => if c < 2 then [] else Cluster(g, sectors, c));
      faults := 0;
    }

    /** driver/stacks/storage/block.c block_read */
    method BlockRead(lba: nat, count: nat) returns (ok: bool, buf: seq<byte>)
      modifies this`faults
      ensures ok ==> 0 < count && lba + count <= |sectors| && buf == Flatten(sectors[lba..lba + count]) && faults == old(faults)
      ensures !ok ==> faults == old(faults) + 1 || (faults == old(faults) && (count == 0 || lba + count > |sectors|))
    {
      if count == 0 || lba >= |sectors| || count > |sectors| - lba { return false, []; }
      ok := *;
      if !ok {
        faults := faults + 1;
        return false, [];
      }
      buf := Flatten(sectors[lba..lba + count]);
    }

    /** driver/stacks/storage/block.c block_write */
    method BlockWrite(lba: nat, part: seq<Sector>) returns (ok: bool)
      modifies this`faults, this`sectors
      ensures ok ==> 0 < |part| && lba + |part| <= |old(sectors)| && sectors == PutSectors(old(sectors), lba, part) && faults == old(faults)
      ensures !ok ==> sectors == old(sectors)
      ensures !ok ==> faults == old(faults) + 1 || (faults == old(faults) && (|part| == 0 || lba + |part| > |sectors|))
    {
      if |part| == 0 || lba >= |sectors| || |part| > |sectors| - lba { return false; }
      ok := *;
      if !ok {
        faults := faults + 1;
        return false;
      }
      sectors := PutSectors(sectors, lba, part);
    }

    /** kheap_alloc for a scratch buffer: it may fail. */
    method ScratchBuffer() returns (ok: bool)
      modifies this`faults
      ensures faults == if ok then old(faults) else old(faults) + 1
    {
      ok := *;
      if !ok { faults := faults + 1; }
    }

    /** fat_read_entry: FAT32_BAD stands for a failed transfer. */
    method ReadEntry(cl: nat) returns (v: nat)
      requires Valid() && cl < g.Total()
      modifies this`faults
      ensures Valid()
      ensures (faults == old(faults) && v == fat[cl]) || (faults == old(faults) + 1 && v == BAD)
    {
      EntryOnDisk(g, sectors, cl);
      var ok, buf := BlockRead(g.EntryLba(cl), 1);
      if !ok { return BAD; }
      OneSector(sectors, g.EntryLba(cl));
      assert Agree(g, sectors, fat, data, cl);
      v := FromLe(buf[g.EntryOff(cl)..g.EntryOff(cl) + 4]) % ENTRY_MOD;
    }

    /** fat_write_entry */
    method WriteEntry(cl: nat, value: nat) returns (ok: bool)
      requires Valid() && cl < g.Total()
      modifies this
      ensures Valid() && data == old(data)
      ensures ok ==> fat == old(fat)[cl := value % ENTRY_MOD] && faults == old(faults)
      ensures !ok ==> fat == old(fat) && faults == old(faults) + 1
    {
      EntryOnDisk(g, sectors, cl);
      var lba, off := g.EntryLba(cl), g.EntryOff(cl);
      var buf;
      ok, buf := BlockRead(lba, 1);
      if !ok { return; }
      OneSector(sectors, lba);
      var cur := FromLe(buf[off..off + 4]);
      var newval := cur - cur % ENTRY_MOD + value % ENTRY_MOD;
      buf := buf[..off] + ToLe(newval, 4) + buf[off + 4..];
      assert buf == PutEntry(sectors[lba], off, value);
      ok := BlockWrite(lba, [buf]);
      if ok {
        assert sectors == PutEntryAt(g, old(sectors), cl, value);
        MirrorEntry(g, old(sectors), fat, data, cl, value);
        fat := fat[cl := value % ENTRY_MOD];
      }
    }

    /** Reads the first `count` sectors of a cluster. */
    method ReadCluster(cl: nat, count: nat) returns (ok: bool, buf: seq<byte>)
      requires Valid() && 2 <= cl < g.Total() && 0 < count <= g.spc
      modifies this`faults
      ensures Valid()
      ensures ok ==> |data[cl]| == g.Bpc() && SECTOR * count <= g.Bpc() && buf == data[cl][..SECTOR * count] && faults == old(faults)
      ensures ok ==> g.ClusterLba(cl) + count <= size && (count == g.spc ==> cl < Lim())
      ensures !ok ==> faults == old(faults) + 1 || (faults == old(faults) && g.ClusterLba(cl) + count > size && cl >= Lim())
    {
      LimitIsEnd(g, size, cl);
      var lba := g.ClusterLba(cl);
      ok, buf := BlockRead(lba, count);
      if ok {
        MirrorRead(g, sectors, fat, data, cl, count);
      }
    }

    /** Writes a whole cluster. */
    method WriteCluster(cl: nat, buf: seq<byte>) returns (ok: bool)
      requires Valid() && 2 <= cl < g.Total() && |buf| == g.Bpc()
      modifies this
      ensures Valid() && fat == old(fat)
      ensures ok ==> data == old(data)[cl := buf] && faults == old(faults) && cl < Lim()
      ensures !ok ==> data == old(data) && (faults == old(faults) + 1 || (faults == old(faults) && cl >= Lim()))
    {
      LimitIsEnd(g, size, cl);
      var lba := g.ClusterLba(cl);
      ok := BlockWrite(lba, Chop(buf, g.spc));
      if ok {
        MirrorCluster(g, old(sectors), fat, data, cl, buf);
        data := data[cl := buf];
      }
    }

    /** fat32_find_free: the lowest free cluster, or 0. */
    method FindFree() returns (r: nat)
      requires Valid()
      modifies this`faults
      ensures Valid() && faults >= old(faults)
      ensures r != 0 ==> 2 <= r < |fat| && fat[r] == 0
      ensures faults == old(faults) ==> forall x :: 2 <= x < (if r == 0 then |fat| else r) ==> fat[x] != 0
    {
      var cl := 2;
      while cl < g.Total()
        invariant 2 <= cl <= g.Total() && faults >= old(faults)
        invariant faults == old(faults) ==> forall x :: 2 <= x < cl ==> fat[x] != 0
      {
        var v := ReadEntry(cl);
        if v == 0 { return cl; }
        cl := cl + 1;
      }
      r := 0;
    }

    /** fat32_alloc_cluster: the lowest free cluster, which is off the device exactly when nothing
        on it is free and the table still has a free entry. */
    method AllocCluster() returns (r: nat)
      requires Valid()
      modifies this
      ensures Valid() && data == old(data) && faults >= old(faults)
      ensures r != 0 ==> 2 <= r < |old(fat)| && old(fat)[r] == 0 && fat == old(fat)[r := EOC]
      ensures r == 0 ==> fat == old(fat)
      ensures r == 0 && faults == old(faults) ==> NoFree(fat)
      ensures faults == old(faults) ==> (r >= Lim() <==> NoFreeBelow(old(fat), Lim()) && !NoFree(old(fat)))
    {
      r := FindFree();
      if r == 0 { return; }
      var ok := WriteEntry(r, EOC);
      if !ok { return 0; }
    }

    /** fat32_free_chain, on any table whose entries stay in range from `start`.  p is the walk. */
    method FreeChain(start: nat) returns (ghost p: seq<nat>)
      requires Valid() && StaysInRange(fat, start)
      modifies this
      ensures Valid() && data == old(data) && faults >= old(faults)
      ensures IsPath(old(fat), p) && Distinct(p) && |p| <= GUARD && (p != [] ==> p[0] == start)
      ensures PartlyZeroed(old(fat), fat, p)
      ensures faults == old(faults) ==> Zeroed(old(fat), fat, p)
      ensures faults == old(faults) ==>
                if ClusterValid(start) then p != [] && (Closed(old(fat), p) || |p| == GUARD) else p == []
      ensures faults == old(faults) && ClusterValid(start) ==>
                var r := Reach(old(fat), start);
                && |p| == (if |r| <= GUARD then |r| else GUARD)
                && (|r| <= GUARD ==> forall x :: 0 <= x < |fat| ==> fat[x] == if x in r then 0 else old(fat)[x])
    {
      ghost var f0 := fat;
      p := [];
      var cl, guard := start, 0;
      while ClusterValid(cl) && guard < GUARD
        invariant guard <= GUARD && |p| <= guard && Valid() && data == old(data) && faults == old(faults)
        invariant IsPath(f0, p) && Distinct(p) && Zeroed(f0, fat, p)
        invariant p == [] ==> cl == start && guard == 0
        invariant p != [] ==> p[0] == start && ClusterValid(start) && p[|p| - 1] < |f0|
        invariant p != [] ==> (cl == f0[p[|p| - 1]] && |p| == guard) || (cl == 0 && Closed(f0, p))
        decreases GUARD - guard
      {
        guard := guard + 1;
        ghost var f1 := fat;
        NextInRange(f0, p, start, cl);
        var next := ReadEntry(cl);
        var ok := WriteEntry(cl, 0);
        if !ok { break; }
        p := WalkOn(f0, f1, fat, p, start, cl);
        if next == cl || next >= BAD { break; }
        cl := next;
      }
      if p != [] && (Closed(f0, p) || |p| == GUARD) { WalkExtent(f0, p, GUARD); }
    }
  }

  /** Freeing the next cluster of a walk extends it, unless the walk has come back to itself. */
  lemma {:induction false} WalkOn(f0: Fat, f1: Fat, f2: Fat, p: seq<nat>, start: nat, cl: nat) returns (q: seq<nat>)
    requires IsPath(f0, p) && Distinct(p) && Zeroed(f0, f1, p) && ClusterValid(cl) && cl < |f0|
    requires if p == [] then cl == start else p[0] == start && p[|p| - 1] < |f0| && cl == f0[p[|p| - 1]]
    requires f2 == f1[cl := 0]
    ensures IsPath(f0, q) && Distinct(q) && q != [] && q[0] == start && Zeroed(f0, f2, q)
    ensures if cl in p then q == p && Closed(f0, q) && f1[cl] == 0 else q == p + [cl] && f1[cl] == f0[cl]
  {
    if cl in p {
      q := p;
    } else {
      PathSnoc(f0, p, cl);
      q := p + [cl];
    }
  }

  lemma {:induction false} OneSector(ss: seq<Sector>, lba: nat)
    requires lba < |ss|
    ensures Flatten(ss[lba..lba + 1]) == ss[lba]
  {
    assert ss[lba..lba + 1] == [ss[lba]];
    var one: seq<Sector> := [ss[lba]];
    assert Flatten(one[1..]) == [];
  }

  lemma {:induction false} EntryStored(g: Geometry, ss: seq<Sector>, cl: nat, value: nat)
    requires DiskOk(g, ss) && cl < g.Total()
    requires g.EntryLba(cl) < |ss| && g.EntryOff(cl) + 4 <= |ss[g.EntryLba(cl)]|
    ensures DiskOk(g, PutEntryAt(g, ss, cl, value))
  {
  }

  lemma {:induction false} ClusterStored(g: Geometry, ss: seq<Sector>, cl: nat, buf: seq<byte>)
    requires DiskOk(g, ss) && 2 <= cl < g.Total() && |buf| == g.Bpc() && g.ClusterLba(cl) + g.spc <= |ss|
    ensures DiskOk(g, PutSectors(ss, g.ClusterLba(cl), Chop(buf, g.spc)))
  {
  }
}
