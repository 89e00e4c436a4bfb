/** Writing into files (fs/fat32.c fat32_write): in place, and extending the chain. */
module FatWrite {
  import opened Basics
  import opened LittleEndian
  import opened FatDisk
  import opened FatChains
  import opened FatReach
  import opened FatVolume
  import opened FatFiles

  // ---- table edits of one operation ----

  /** Changing the entry of one free cluster disturbs no chain. */
  lemma {:induction false} FreeEntryConfined(fat: Fat, fat': Fat, data: Data, cur: seq<nat>, x: nat)
    requires |data| == |fat| == |fat'| && (cur != [] ==> Chain(fat, cur)) && x < |fat| && fat[x] == 0
    requires forall y :: 0 <= y < |fat| && y != x ==> fat'[y] == fat[y]
    ensures Confined(fat, data, fat', data, cur, cur)
  {
    if cur != [] {
      forall i | 0 <= i < |cur| && 2 <= cur[i] < |fat| ensures fat'[cur[i]] == fat[cur[i]] {
        ChainNonzero(fat, cur, cur[i]);
      }
      ChainFrame(fat, fat', cur);
    }
  }

  /** Linking a free cluster after the first k clusters of a chain. */
  lemma {:induction false} AppendConfined(fat: Fat, data: Data, cur: seq<nat>, k: nat, x: nat)
    requires |data| == |fat| <= BAD && 2 <= x < |fat| && fat[x] == 0 && k <= |cur|
    requires if cur == [] then k == 0 else k > 0 && Chain(fat, cur)
    ensures k > 0 ==> cur[k - 1] < |fat|
    ensures var fat' := if k == 0 then fat[x := EOC] else fat[x := EOC][cur[k - 1] := x];
            Confined(fat, data, fat', data, cur, cur[..k] + [x])
  {
    if k > 0 {
      AppendChain(fat, cur, k, x);
    } else {
      var c: seq<nat> := [x];
      var fat' := fat[x := EOC];
      assert LinkAt(fat', c, 0);
      assert Chain(fat', c) && cur[..k] + [x] == c;
    }
  }

  lemma {:induction false} PathStep(fat: Fat, p: seq<nat>, i: nat)
    requires IsPath(fat, p) && i + 1 < |p|
    ensures p[i] < |fat| && fat[p[i]] == p[i + 1] < BAD
  {
    assert Hop(fat, p, i) && Hop(fat, p, i + 1);
  }

  /** A walk from a cluster that ends its chain is that cluster alone. */
  lemma {:induction false} LonePath(fat: Fat, p: seq<nat>, x: nat)
    requires IsPath(fat, p) && (p != [] ==> p[0] == x) && x < |fat| && fat[x] >= BAD
    ensures forall y :: y in p ==> y == x
  {
    if |p| > 1 { PathStep(fat, p, 0); }
  }

  lemma {:induction false} LoneStaysInRange(fat: Fat, x: nat)
    requires 2 <= x < |fat| && fat[x] >= BAD
    ensures StaysInRange(fat, x)
  {
    forall y | y in Reach(fat, x) ensures y == x {
      var p :| IsPath(fat, p) && p != [] && p[0] == x && p[|p| - 1] == y;
      LonePath(fat, p, x);
      assert p[|p| - 1] in p;
    }
  }

  /** The extension branch of fat32_write: a new cluster becomes cluster k of the file. */
  method Extend(v: Volume, first0: nat, prev: nat, ghost cur: seq<nat>, ghost k: nat)
    returns (newcl: nat, first: nat, ghost now: seq<nat>)
    requires v.Valid() && File(v.fat, first0, cur) && k <= |cur|
    requires if cur == [] then k == 0 else k > 0 && prev == cur[k - 1]
    modifies v
    ensures v.Valid() && v.data == old(v.data) && v.faults >= old(v.faults) && File(v.fat, first, now)
    ensures Confined(old(v.fat), old(v.data), v.fat, v.data, cur, now)
    ensures newcl == 0 ==> now == cur && first == first0
    ensures first0 != 0 ==> first == first0
    ensures v.faults == old(v.faults) ==> (newcl == 0 <==> NoFree(old(v.fat))) && (newcl == 0 ==> v.fat == old(v.fat))
    ensures v.faults == old(v.faults) ==> (newcl >= v.Lim() <==> NoFreeBelow(old(v.fat), v.Lim()) && !NoFree(old(v.fat)))
    ensures v.faults == old(v.faults) && newcl >= v.Lim() ==> NoFreeBelow(v.fat, v.Lim())
    ensures newcl != 0 ==> now == cur[..k] + [newcl] && 2 <= newcl < |v.fat| && old(v.fat)[newcl] == 0
  {
    ghost var f0 := v.fat;
    first, now := first0, cur;
    assert cur != [] ==> LinkAt(f0, cur, 0);
    ConfinedSelf(f0, v.data, cur);
    newcl := v.AllocCluster();
    if newcl == 0 { return; }
    FreeEntryConfined(f0, v.fat, v.data, cur, newcl);
    AppendConfined(f0, v.data, cur, k, newcl);
    if first == 0 {
      first, now := newcl, cur[..k] + [newcl];
    } else {
      assert LinkAt(f0, cur, k - 1);
      var ok := v.WriteEntry(prev, newcl);
      if !ok {
        ghost var f1 := v.fat;
        LoneStaysInRange(f1, newcl);
        ghost var p := v.FreeChain(newcl);
        LonePath(f1, p, newcl);
        FreeEntryConfined(f0, v.fat, v.data, cur, newcl);
        return 0, first, now;
      }
      now := cur[..k] + [newcl];
    }
  }

  // ---- data ----

  /** The data branch of fat32_write: a whole cluster is stored directly, part of one by
      reading, patching and storing it. */
  method WritePiece(v: Volume, cluster: nat, at: nat, piece: seq<byte>) returns (ok: bool)
    requires v.Valid() && 2 <= cluster < v.g.Total() && at + |piece| <= v.g.Bpc() && piece != []
    modifies v
    ensures v.Valid() && v.fat == old(v.fat) && |old(v.data)[cluster]| == v.g.Bpc()
    ensures ok ==> v.data == old(v.data)[cluster := Splice(old(v.data)[cluster], at, piece)] && v.faults == old(v.faults)
    ensures ok ==> cluster < v.Lim()
    ensures !ok ==> v.data == old(v.data) && (v.faults > old(v.faults) || (v.faults == old(v.faults) && cluster >= v.Lim()))
  {
    var bpc := v.g.Bpc();
    if at == 0 && |piece| == bpc {
      assert Splice(v.data[cluster], 0, piece) == piece;
      ok := v.WriteCluster(cluster, piece);
    } else {
      var cbuf;
      ok, cbuf := v.ReadCluster(cluster, v.g.spc);
      if !ok { return; }
      assert cbuf == v.data[cluster];
      cbuf := cbuf[..at] + piece + cbuf[at + |piece|..];
      ok := v.WriteCluster(cluster, cbuf);
    }
  }

  // ---- the whole write ----

  /** Where fat32_write puts byte 0 of the buffer in a file of n clusters: at the offset, or,
      when the walk stops early, at the same place inside the cluster right after the chain. */
  function WritePos(offset: nat, bpc: nat, n: nat): nat
    requires bpc > 0
  {
    Times(Min(offset / bpc, n), bpc) + offset % bpc
  }

  /** The write lands at its offset exactly when the offset is no further than the cluster
      right after the chain. */
  lemma {:induction false} WritePosIsOffset(offset: nat, bpc: nat, n: nat)
    requires bpc > 0
    ensures WritePos(offset, bpc, n) == offset <==> offset / bpc <= n
  {
    var q := offset / bpc;
    assert offset == q * bpc + offset % bpc;
    TimesIsProduct(q, bpc);
    if q > n {
      TimesMono(n + 1, q, bpc);
    }
  }

  /** Past the chain: byte 2560 of a file of two 512-byte clusters is written as byte 1024. */
  lemma WriteMovesBack()
    ensures WritePos(2560, 512, 2) == 1024
  {
    TimesIsProduct(2, 512);
  }

  /** The chain's bytes are the ones it held before, with s written over position pos. */
  ghost predicate Spliced(d0: Data, data: Data, cur: seq<nat>, pos: nat, s: seq<byte>) {
    && InData(d0, cur) && InData(data, cur)
    && (s == [] || pos + |s| <= |Contents(d0, cur)|)
    && Contents(data, cur) == Splice(Contents(d0, cur), pos, s)
  }

  ghost predicate SameOutside(d0: Data, data: Data, cur: seq<nat>) {
    |data| == |d0| && forall x :: 0 <= x < |d0| && x !in cur ==> data[x] == d0[x]
  }

  /** Growing the chain by an untouched cluster keeps what has been written so far. */
  lemma {:induction false} SplicedGrows(d0: Data, data: Data, cur: seq<nat>, pos: nat, s: seq<byte>, x: nat)
    requires Spliced(d0, data, cur, pos, s) && SameOutside(d0, data, cur) && 2 <= x < |d0| && x !in cur
    ensures Spliced(d0, data, cur + [x], pos, s) && SameOutside(d0, data, cur + [x])
  {
    ContentsSnoc(d0, cur, x);
    ContentsSnoc(data, cur, x);
    SpliceAppend(Contents(d0, cur), pos, s, d0[x]);
  }

  /** Writing the next piece into cluster k extends what has been written so far. */
  lemma {:induction false} SplicedOn(d0: Data, data: Data, cur: seq<nat>, pos: nat, s: seq<byte>, k: nat, bpc: nat, at: nat, t: seq<byte>)
    requires Spliced(d0, data, cur, pos, s) && SameOutside(d0, data, cur) && DataShape(d0, bpc) && DataShape(data, bpc)
    requires Distinct(cur) && k < |cur| && at + |t| <= bpc && t != [] && pos + |s| == Times(k, bpc) + at
    ensures var data' := data[cur[k] := Splice(data[cur[k]], at, t)];
            Spliced(d0, data', cur, pos, s + t) && SameOutside(d0, data', cur)
  {
    ContentsPut(data, cur, k, bpc, at, t);
    ContentsLength(d0, cur, bpc);
    SpliceMore(Contents(d0, cur), pos, s, t);
  }

  /** Data of one's own clusters may change. */
  lemma {:induction false} OwnDataConfined(fat: Fat, data: Data, cur: seq<nat>, x: nat, b: seq<byte>)
    requires |data| == |fat| && Chain(fat, cur) && x in cur && x < |data|
    ensures Confined(fat, data, fat, data[x := b], cur, cur)
  {
  }

  /** Invariant of the write loop about the table: holds with and without faults. */
  ghost predicate Owned(f0: Fat, d0: Data, fat: Fat, data: Data, c: seq<nat>, cur: seq<nat>, first: nat) {
    Confined(f0, d0, fat, data, c, cur) && File(fat, first, cur)
  }

  /** Where the loop stands: at cluster k of the chain, or past what is left of it. */
  ghost predicate Stands(cur: seq<nat>, k: nat, cluster: nat, prev: nat) {
    && k <= |cur|
    && (ClusterValid(cluster) ==> k < |cur| && cluster == cur[k])
    && (k > 0 ==> prev == cur[k - 1])
    && (k == 0 && !ClusterValid(cluster) ==> cur == [])
  }

  /** Invariant of the write loop about the bytes, as long as nothing has failed. */
  ghost predicate Written(d0: Data, data: Data, c: seq<nat>, cur: seq<nat>, pos: nat, s: seq<byte>) {
    c <= cur && Spliced(d0, data, cur, pos, s) && SameOutside(d0, data, cur)
  }

  /** The clusters added to c are on the device, and there are no more of them than n bytes need. */
  ghost predicate Snug(c: seq<nat>, cur: seq<nat>, bpc: nat, n: nat, l: nat) {
    && (forall j :: |c| <= j < |cur| ==> cur[j] < l)
    && (|cur| > |c| ==> Times(|cur| - 1, bpc) < n)
  }

  ghost predicate Sound(d0: Data, data: Data, c: seq<nat>, cur: seq<nat>, bpc: nat, pos: nat, s: seq<byte>, l: nat) {
    Written(d0, data, c, cur, pos, s) && Snug(c, cur, bpc, pos + |s|, l)
  }

  /** A cluster for the next piece has been found: k, which may be a new one. */
  ghost predicate Ready(d0: Data, fat: Fat, data: Data, c: seq<nat>, now: seq<nat>, bpc: nat, pos: nat, s: seq<byte>, l: nat, k: nat) {
    && Written(d0, data, c, now, pos, s) && k < |now|
    && (forall j :: |c| <= j < |now| && j != k ==> now[j] < l)
    && (|now| > |c| ==> k == |now| - 1 || Times(|now| - 1, bpc) < pos + |s|)
    && (k >= |c| && now[k] >= l ==> k == |now| - 1 && NoFreeBelow(fat, l) && Snug(c, now[..k], bpc, pos + |s|, l))
  }

  /** Why a write stops at position n of the file with no fault: the table has no free entry, or
      cluster k is not on the device. In the second case it was in the file before, or it is a new
      one, added because every cluster of the device is taken. */
  ghost predicate Stopped(fat: Fat, c: seq<nat>, now: seq<nat>, bpc: nat, n: nat, l: nat) {
    || (NoFree(fat) && Times(|now|, bpc) <= n && Snug(c, now, bpc, n, l))
    || (exists k: nat :: StoppedAt(fat, c, now, bpc, n, l, k))
  }

  ghost predicate StoppedAt(fat: Fat, c: seq<nat>, now: seq<nat>, bpc: nat, n: nat, l: nat, k: nat) {
    && k < |now| && now[k] >= l && Times(k, bpc) <= n < Times(k, bpc) + bpc
    && (if k < |c| then Snug(c, now, bpc, n, l) else k == |now| - 1 && NoFreeBelow(fat, l) && Snug(c, now[..k], bpc, n, l))
  }

  /** A file that was on the device is cut short only when every cluster of the device is taken. */
  lemma {:induction false} ShortIsFull(fat: Fat, c: seq<nat>, now: seq<nat>, bpc: nat, n: nat, l: nat)
    requires Stopped(fat, c, now, bpc, n, l) && c <= now && AllOn(c, l)
    ensures NoFreeBelow(fat, l)
  {
    if !NoFree(fat) {
      var k: nat :| StoppedAt(fat, c, now, bpc, n, l, k);
      assert k < |c| ==> now[k] == c[k];
    }
  }

  /** Provides a cluster to write to: the present one, or a new one at the end of the file. */
  method Provide(v: Volume, first0: nat, cluster0: nat, prev: nat, ghost cur: seq<nat>, ghost k: nat)
    returns (ok: bool, first: nat, cluster: nat, ghost now: seq<nat>)
    requires v.Valid() && File(v.fat, first0, cur) && Stands(cur, k, cluster0, prev)
    modifies v
    ensures v.Valid() && v.data == old(v.data) && v.faults >= old(v.faults) && File(v.fat, first, now)
    ensures Confined(old(v.fat), old(v.data), v.fat, v.data, cur, now)
    ensures !ok ==> now == cur && !ClusterValid(cluster0) && (v.faults == old(v.faults) ==> NoFree(v.fat))
    ensures first0 != 0 ==> first == first0
    ensures ok && !ClusterValid(cluster0) && v.faults == old(v.faults) && cluster >= v.Lim() ==> NoFreeBelow(v.fat, v.Lim())
    ensures ok ==> Stands(now, k, cluster, prev) && ClusterValid(cluster) && cluster < |v.fat|
    ensures ok && ClusterValid(cluster0) ==> now == cur && v.fat == old(v.fat) && v.faults == old(v.faults)
    ensures ok && !ClusterValid(cluster0) ==> now == cur[..k] + [cluster] && old(v.fat)[cluster] == 0
  {
    ConfinedSelf(v.fat, v.data, cur);
    first, cluster, now, ok := first0, cluster0, cur, true;
    if !ClusterValid(cluster) {
      cluster, first, now := Extend(v, first, prev, cur, k);
      ok := cluster != 0;
    } else {
      assert LinkAt(v.fat, cur, k);
    }
  }

  lemma {:induction false} NewClusterWritten(d0: Data, fat: Fat, data: Data, c: seq<nat>, cur: seq<nat>, pos: nat, s: seq<byte>, x: nat)
    requires Written(d0, data, c, cur, pos, s) && |d0| == |fat|
    requires cur != [] ==> Chain(fat, cur)
    requires 2 <= x < |fat| && fat[x] == 0
    ensures x !in cur && c <= cur + [x] && Spliced(d0, data, cur + [x], pos, s) && SameOutside(d0, data, cur + [x])
  {
    assert (cur + [x])[..|c|] == cur[..|c|];
    if x in cur { ChainNonzero(fat, cur, x); }
    SplicedGrows(d0, data, cur, pos, s, x);
  }

  /** The bytes after a piece has been written into cluster k. */
  lemma {:induction false} PieceWritten(d0: Data, fat: Fat, data: Data, c: seq<nat>, now: seq<nat>, bpc: nat, pos: nat, s: seq<byte>, l: nat, k: nat, at: nat, t: seq<byte>)
    requires Ready(d0, fat, data, c, now, bpc, pos, s, l, k) && DataShape(d0, bpc) && DataShape(data, bpc) && Distinct(now)
    requires at + |t| <= bpc && t != [] && pos + |s| == Times(k, bpc) + at
    ensures Written(d0, data[now[k] := Splice(data[now[k]], at, t)], c, now, pos, s + t)
    ensures now[k] < l ==> Sound(d0, data[now[k] := Splice(data[now[k]], at, t)], c, now, bpc, pos, s + t, l)
  {
    SplicedOn(d0, data, now, pos, s, k, bpc, at, t);
  }

  /** Where the write stands when a piece cannot be stored because cluster k is not on the device. */
  lemma {:induction false} PieceRefused(d0: Data, fat: Fat, data: Data, c: seq<nat>, now: seq<nat>, bpc: nat, pos: nat, s: seq<byte>, l: nat, k: nat, at: nat)
    requires Ready(d0, fat, data, c, now, bpc, pos, s, l, k) && now[k] >= l && at < bpc && pos + |s| == Times(k, bpc) + at
    ensures Stopped(fat, c, now, bpc, pos + |s|, l)
  {
    assert StoppedAt(fat, c, now, bpc, pos + |s|, l, k);
  }

  lemma {:induction false} TakeMore(src: seq<byte>, done: nat, chunk: nat)
    requires done + chunk <= |src|
    ensures src[..done] + src[done..done + chunk] == src[..done + chunk]
  {
  }

  /** Moves to the next cluster once the present one is full. */
  method Advance(v: Volume, cluster0: nat, prev0: nat, at0: nat, ghost now: seq<nat>, ghost k0: nat)
    returns (cluster: nat, prev: nat, at: nat, ghost k: nat)
    requires v.Valid() && now != [] && Chain(v.fat, now) && at0 <= v.g.Bpc()
    requires k0 < |now| && cluster0 == now[k0] && (k0 > 0 ==> prev0 == now[k0 - 1])
    modifies v`faults
    ensures v.Valid() && v.faults >= old(v.faults) && Stands(now, k, cluster, prev) && at < v.g.Bpc()
    ensures Times(k, v.g.Bpc()) + at == Times(k0, v.g.Bpc()) + at0
    ensures v.faults == old(v.faults) && !ClusterValid(cluster) ==> k == |now|
  {
    cluster, prev, at, k := cluster0, prev0, at0, k0;
    assert LinkAt(v.fat, now, k) && (k + 1 < |now| ==> LinkAt(v.fat, now, k + 1));
    if at == v.g.Bpc() {
      at, prev, k := 0, cluster, k + 1;
      cluster := v.ReadEntry(cluster);
    }
  }

  /** Where a write of s from pos on stands, as long as nothing has failed. */
  ghost predicate Going(d0: Data, data: Data, c: seq<nat>, now: seq<nat>, bpc: nat, pos: nat, s: seq<byte>, l: nat, k: nat, at: nat, cluster: nat) {
    Sound(d0, data, c, now, bpc, pos, s, l) && pos + |s| == Times(k, bpc) + at && (!ClusterValid(cluster) ==> k == |now|)
  }

  ghost predicate Halted(d0: Data, fat: Fat, data: Data, c: seq<nat>, now: seq<nat>, bpc: nat, pos: nat, s: seq<byte>, l: nat) {
    Written(d0, data, c, now, pos, s) && Stopped(fat, c, now, bpc, pos + |s|, l)
  }

  /** Stores the next piece of the buffer in cluster k. */
  method Store(v: Volume, cluster: nat, at: nat, src: seq<byte>, done: nat, chunk: nat,
               ghost d0: Data, ghost c: seq<nat>, ghost now: seq<nat>, ghost k: nat, ghost pos: nat, ghost clean: bool)
    returns (ok: bool)
    requires v.Valid() && now != [] && Chain(v.fat, now) && |d0| == |v.data| && DataShape(d0, v.g.Bpc())
    requires k < |now| && cluster == now[k] && 0 < chunk && at + chunk <= v.g.Bpc() && done + chunk <= |src|
    requires clean ==> Ready(d0, v.fat, v.data, c, now, v.g.Bpc(), pos, src[..done], v.Lim(), k)
    requires clean ==> pos + done == Times(k, v.g.Bpc()) + at
    modifies v
    ensures v.Valid() && v.fat == old(v.fat)
    ensures Confined(old(v.fat), old(v.data), v.fat, v.data, now, now)
    ensures if ok then v.faults == old(v.faults) else v.faults >= old(v.faults)
    ensures clean && ok ==> Sound(d0, v.data, c, now, v.g.Bpc(), pos, src[..done + chunk], v.Lim())
    ensures clean && !ok && v.faults == old(v.faults) ==> Halted(d0, v.fat, v.data, c, now, v.g.Bpc(), pos, src[..done], v.Lim())
  {
    var piece := src[done..done + chunk];
    assert LinkAt(v.fat, now, k);
    OwnDataConfined(v.fat, v.data, now, cluster, Splice(v.data[cluster], at, piece));
    ConfinedSelf(v.fat, v.data, now);
    ChainAcyclic(v.fat, now);
    TakeMore(src, done, chunk);
    if clean {
      PieceWritten(d0, v.fat, v.data, c, now, v.g.Bpc(), pos, src[..done], v.Lim(), k, at, piece);
      if cluster >= v.Lim() { PieceRefused(d0, v.fat, v.data, c, now, v.g.Bpc(), pos, src[..done], v.Lim(), k, at); }
    }
    ok := WritePiece(v, cluster, at, piece);
  }

  lemma {:induction false} RoomWritten(d0: Data, fat: Fat, fat': Fat, data: Data, c: seq<nat>, cur: seq<nat>, bpc: nat, pos: nat, s: seq<byte>, l: nat,
                                       cluster0: nat, k: nat, cluster: nat, now: seq<nat>)
    requires Sound(d0, data, c, cur, bpc, pos, s, l) && |d0| == |fat| && (cur != [] ==> Chain(fat, cur)) && k < |now|
    requires if ClusterValid(cluster0) then now == cur else k == |cur| && now == cur[..k] + [cluster] && 2 <= cluster < |fat| && fat[cluster] == 0
    requires !ClusterValid(cluster0) && cluster >= l ==> NoFreeBelow(fat', l)
    ensures Ready(d0, fat', data, c, now, bpc, pos, s, l, k)
  {
    if !ClusterValid(cluster0) {
      assert cur[..k] == cur && now[..k] == cur;
      NewClusterWritten(d0, fat, data, c, cur, pos, s, cluster);
    }
  }

  /** Room for the next piece, with the bytes written so far kept in the grown chain. */
  method Room(v: Volume, first0: nat, cluster0: nat, prev: nat, ghost f0: Fat, ghost d0: Data, ghost c: seq<nat>, ghost cur: seq<nat>,
              ghost k: nat, ghost pos: nat, ghost s: seq<byte>, ghost clean: bool)
    returns (ok: bool, first: nat, cluster: nat, ghost now: seq<nat>)
    requires v.Valid() && Owned(f0, d0, v.fat, v.data, c, cur, first0) && Stands(cur, k, cluster0, prev)
    requires clean ==> Sound(d0, v.data, c, cur, v.g.Bpc(), pos, s, v.Lim()) && (!ClusterValid(cluster0) ==> k == |cur|)
    modifies v
    ensures v.Valid() && v.data == old(v.data) && v.faults >= old(v.faults) && Owned(f0, d0, v.fat, v.data, c, now, first)
    ensures first0 != 0 ==> first == first0
    ensures ok ==> Stands(now, k, cluster, prev) && ClusterValid(cluster)
    ensures clean && v.faults == old(v.faults) && ok ==> Ready(d0, v.fat, v.data, c, now, v.g.Bpc(), pos, s, v.Lim(), k)
    ensures clean && v.faults == old(v.faults) && !ok ==> NoFree(v.fat) && now == cur && k == |cur|
  {
    ok, first, cluster, now := Provide(v, first0, cluster0, prev, cur, k);
    ConfinedTrans(f0, d0, old(v.fat), old(v.data), v.fat, v.data, c, cur, now);
    if ok && clean && v.faults == old(v.faults) {
      RoomWritten(d0, old(v.fat), v.fat, v.data, c, cur, v.g.Bpc(), pos, s, v.Lim(), cluster0, k, cluster, now);
    }
  }

  /** One round of fat32_write's loop: find room, store a piece, step on. */
  method Round(v: Volume, first0: nat, cluster0: nat, prev0: nat, at0: nat, src: seq<byte>, done0: nat,
               ghost f0: Fat, ghost d0: Data, ghost c: seq<nat>, ghost cur: seq<nat>, ghost k0: nat, ghost pos: nat, ghost clean: bool)
    returns (ok: bool, first: nat, cluster: nat, prev: nat, at: nat, done: nat, ghost now: seq<nat>, ghost k: nat)
    requires v.Valid() && Owned(f0, d0, v.fat, v.data, c, cur, first0) && DataShape(d0, v.g.Bpc())
    requires Stands(cur, k0, cluster0, prev0) && at0 < v.g.Bpc() && done0 < |src|
    requires clean ==> Going(d0, v.data, c, cur, v.g.Bpc(), pos, src[..done0], v.Lim(), k0, at0, cluster0)
    modifies v
    ensures v.Valid() && v.faults >= old(v.faults) && Owned(f0, d0, v.fat, v.data, c, now, first) && (first0 != 0 ==> first == first0)
    ensures done0 <= done <= |src| && (ok ==> done0 < done && Stands(now, k, cluster, prev) && at < v.g.Bpc())
    ensures clean && v.faults == old(v.faults) && ok ==> Going(d0, v.data, c, now, v.g.Bpc(), pos, src[..done], v.Lim(), k, at, cluster)
    ensures clean && v.faults == old(v.faults) && !ok ==> Halted(d0, v.fat, v.data, c, now, v.g.Bpc(), pos, src[..done], v.Lim())
  {
    at, done, k, prev := at0, done0, k0, prev0;
    ok, first, cluster, now := Room(v, first0, cluster0, prev0, f0, d0, c, cur, k0, pos, src[..done], clean);
    if !ok { return; }
    ghost var clean1 := clean && v.faults == old(v.faults);
    ok, cluster, prev, at, done, k := Fill(v, first, cluster, prev, at, src, done, f0, d0, c, now, k, pos, clean1);
  }

  /** Stores a piece and steps on. */
  method Fill(v: Volume, ghost first: nat, cluster0: nat, prev0: nat, at0: nat, src: seq<byte>, done0: nat,
              ghost f0: Fat, ghost d0: Data, ghost c: seq<nat>, ghost now: seq<nat>, ghost k0: nat, ghost pos: nat, ghost clean: bool)
    returns (ok: bool, cluster: nat, prev: nat, at: nat, done: nat, ghost k: nat)
    requires v.Valid() && Owned(f0, d0, v.fat, v.data, c, now, first) && DataShape(d0, v.g.Bpc())
    requires Stands(now, k0, cluster0, prev0) && ClusterValid(cluster0) && at0 < v.g.Bpc() && done0 < |src|
    requires clean ==> Ready(d0, v.fat, v.data, c, now, v.g.Bpc(), pos, src[..done0], v.Lim(), k0)
    requires clean ==> pos + done0 == Times(k0, v.g.Bpc()) + at0
    modifies v
    ensures v.Valid() && v.faults >= old(v.faults) && Owned(f0, d0, v.fat, v.data, c, now, first)
    ensures done0 <= done <= |src| && (ok ==> done0 < done && Stands(now, k, cluster, prev) && at < v.g.Bpc())
    ensures clean && v.faults == old(v.faults) && ok ==> Going(d0, v.data, c, now, v.g.Bpc(), pos, src[..done], v.Lim(), k, at, cluster)
    ensures clean && v.faults == old(v.faults) && !ok ==> Halted(d0, v.fat, v.data, c, now, v.g.Bpc(), pos, src[..done], v.Lim())
  {
    cluster, at, done, k, prev := cluster0, at0, done0, k0, prev0;
    var chunk := Min(|src| - done, v.g.Bpc() - at);
    ghost var f1, d1 := v.fat, v.data;
    ok := Store(v, cluster, at, src, done, chunk, d0, c, now, k, pos, clean);
    ConfinedTrans(f0, d0, f1, d1, v.fat, v.data, c, now, now);
    if !ok { return; }
    done := done + chunk;
    cluster, prev, at, k := Advance(v, cluster, prev, at + chunk, now, k);
    if clean && v.faults == old(v.faults) { StillGoing(d0, v.data, c, now, v.g.Bpc(), pos, src[..done], v.Lim(), k, at, cluster, done); }
  }

  lemma {:induction false} StillGoing(d0: Data, data: Data, c: seq<nat>, now: seq<nat>, bpc: nat, pos: nat, s: seq<byte>, l: nat, k: nat, at: nat, cluster: nat, done: nat)
    requires Sound(d0, data, c, now, bpc, pos, s, l) && |s| == done && pos + done == Times(k, bpc) + at && (!ClusterValid(cluster) ==> k == |now|)
    ensures Going(d0, data, c, now, bpc, pos, s, l, k, at, cluster)
  {
  }

  /** The loop of fat32_write. */
  method WriteLoop(v: Volume, first0: nat, cluster0: nat, prev0: nat, at0: nat, src: seq<byte>,
                   ghost c: seq<nat>, ghost k0: nat, ghost pos: nat, ghost clean: bool)
    returns (first: nat, done: nat, ghost now: seq<nat>)
    requires v.Valid() && File(v.fat, first0, c) && Stands(c, k0, cluster0, prev0) && at0 < v.g.Bpc()
    requires clean ==> pos == Times(k0, v.g.Bpc()) + at0 && (!ClusterValid(cluster0) ==> k0 == |c|)
    modifies v
    ensures v.Valid() && v.faults >= old(v.faults) && done <= |src| && (first0 != 0 ==> first == first0)
    ensures Owned(old(v.fat), old(v.data), v.fat, v.data, c, now, first)
    ensures clean && v.faults == old(v.faults) ==> Outcome(old(v.data), v.fat, v.data, c, now, v.g.Bpc(), pos, src, done, v.Lim())
  {
    ghost var f0, d0 := v.fat, v.data;
    ConfinedSelf(f0, d0, c);
    ChainInData(f0, d0, c);
    first, done, now := first0, 0, c;
    var cluster: nat, prev: nat, at: nat, ok := cluster0, prev0, at0, true;
    ghost var k: nat := k0;
    assert src[..0] == [];
    while ok && done < |src|
      invariant v.Valid() && v.faults >= old(v.faults) && done <= |src| && (first0 != 0 ==> first == first0)
      invariant Owned(f0, d0, v.fat, v.data, c, now, first) && (ok ==> Stands(now, k, cluster, prev) && at < v.g.Bpc())
      invariant clean && v.faults == old(v.faults) && ok ==> Going(d0, v.data, c, now, v.g.Bpc(), pos, src[..done], v.Lim(), k, at, cluster)
      invariant clean && v.faults == old(v.faults) && !ok ==> Halted(d0, v.fat, v.data, c, now, v.g.Bpc(), pos, src[..done], v.Lim())
      decreases ok, |src| - done
    {
      ok, first, cluster, prev, at, done, now, k :=
        Round(v, first, cluster, prev, at, src, done, f0, d0, c, now, k, pos, clean && v.faults == old(v.faults));
    }
    if clean && v.faults == old(v.faults) {
      LoopDone(d0, v.fat, v.data, c, now, v.g.Bpc(), pos, src, done, v.Lim(), k, at, cluster, ok);
    }
  }

  lemma {:induction false} LoopDone(d0: Data, fat: Fat, data: Data, c: seq<nat>, now: seq<nat>, bpc: nat, pos: nat, src: seq<byte>, done: nat, l: nat, k: nat, at: nat, cluster: nat, ok: bool)
    requires done <= |src| && (ok ==> done == |src|)
    requires if ok then Going(d0, data, c, now, bpc, pos, src[..done], l, k, at, cluster) else Halted(d0, fat, data, c, now, bpc, pos, src[..done], l)
    ensures Outcome(d0, fat, data, c, now, bpc, pos, src, done, l)
  {
  }

  /** What a write leaves when nothing has failed: the bytes written so far, in a chain no longer than
      they need; the whole buffer, or a reason why not. */
  ghost predicate Outcome(d0: Data, fat: Fat, data: Data, c: seq<nat>, now: seq<nat>, bpc: nat, pos: nat, src: seq<byte>, done: nat, l: nat)
    requires done <= |src|
  {
    && Written(d0, data, c, now, pos, src[..done])
    && (Stopped(fat, c, now, bpc, pos + done, l) || (done == |src| && Snug(c, now, bpc, pos + done, l)))
  }

  lemma {:induction false} WritePosFrom(offset: nat, bpc: nat, n: nat, q: nat, r: nat)
    requires bpc > 0 && offset == Times(q, bpc) + r && r < bpc
    ensures WritePos(offset, bpc, n) == Times(Min(q, n), bpc) + r
  {
    TimesIsProduct(q, bpc);
    assert offset == bpc * q + r;
    ModUnique(offset, bpc, q, r);
  }

  /** fat32_write.  Whatever fails on the way, only the file's own chain and free clusters are
      touched and the result is again a well-formed chain.  If nothing fails, the file's bytes
      are the old ones with exactly `done` bytes of the buffer written over WritePos; clusters
      are appended only as far as they receive bytes, and a short count has one of the reasons of
      Stopped, which for a file on the device is that the device is full. */
  method Write(v: Volume, first0: nat, offset: nat, src: seq<byte>, ghost c: seq<nat>)
    returns (first: nat, done: nat, ghost now: seq<nat>)
    requires v.Valid() && File(v.fat, first0, c)
    modifies v
    ensures v.Valid() && v.faults >= old(v.faults) && done <= |src| && v.g.Bpc() > 0
    ensures File(v.fat, first, now) && Confined(old(v.fat), old(v.data), v.fat, v.data, c, now)
    ensures first0 != 0 ==> first == first0
    ensures v.faults == old(v.faults) ==>
              Outcome(old(v.data), v.fat, v.data, c, now, v.g.Bpc(), WritePos(offset, v.g.Bpc(), |c|), src, done, v.Lim())
    ensures v.faults == old(v.faults) && AllOn(c, v.Lim()) && done < |src| ==> NoFreeBelow(v.fat, v.Lim())
  {
    ConfinedSelf(v.fat, v.data, c);
    var q, at := SplitOffset(offset, v.g.Bpc());
    WritePosFrom(offset, v.g.Bpc(), |c|, q, at);
    first, done, now := WriteFrom(v, first0, q, at, src, c, WritePos(offset, v.g.Bpc(), |c|));
    if v.faults == old(v.faults) && AllOn(c, v.Lim()) && done < |src| {
      ShortIsFull(v.fat, c, now, v.g.Bpc(), WritePos(offset, v.g.Bpc(), |c|) + done, v.Lim());
    }
  }

  /** fat32_write from position `at` of cluster q. */
  method WriteFrom(v: Volume, first0: nat, q: nat, at: nat, src: seq<byte>, ghost c: seq<nat>, ghost pos: nat)
    returns (first: nat, done: nat, ghost now: seq<nat>)
    requires v.Valid() && File(v.fat, first0, c) && at < v.g.Bpc() && pos == Times(Min(q, |c|), v.g.Bpc()) + at
    modifies v
    ensures v.Valid() && v.faults >= old(v.faults) && done <= |src| && (first0 != 0 ==> first == first0)
    ensures Owned(old(v.fat), old(v.data), v.fat, v.data, c, now, first)
    ensures v.faults == old(v.faults) ==> Outcome(old(v.data), v.fat, v.data, c, now, v.g.Bpc(), pos, src, done, v.Lim())
  {
    first, done, now := first0, 0, c;
    ConfinedSelf(v.fat, v.data, c);
    if |src| == 0 {
      ChainInData(v.fat, v.data, c);
      assert src[..0] == [];
      return;
    }
    var ok := v.ScratchBuffer();
    if !ok { return; }
    var cluster, prev, k := WalkTo(v, first0, q, c);
    assert c != [] ==> LinkAt(v.fat, c, 0);
    first, done, now := WriteLoop(v, first0, cluster, prev, at, src, c, k, pos, v.faults == old(v.faults));
  }

  /** Reading inside a splice gives the new bytes. */
  lemma {:induction false} SliceInside(a: seq<byte>, pos: nat, s: seq<byte>, off: nat, n: nat)
    requires pos + |s| <= |a| && pos <= off && off + n <= pos + |s| && n > 0
    ensures Slice(Splice(a, pos, s), off, n) == s[off - pos..off - pos + n]
  {
  }

  /** Reading beside a splice gives the old bytes. */
  lemma {:induction false} SliceOutside(a: seq<byte>, pos: nat, s: seq<byte>, off: nat, n: nat)
    requires s == [] || pos + |s| <= |a|
    requires off + n <= pos || pos + |s| <= off || s == []
    ensures Slice(Splice(a, pos, s), off, n) == Slice(a, off, n)
  {
    var b := Splice(a, pos, s);
    var hi := if off + n > |a| then |a| else off + n;
    if off < |a| { assert b[off..hi] == a[off..hi]; }
  }

  /** The old file is a prefix of the grown one, so bytes of the old file outside the splice are kept. */
  lemma {:induction false} OldBytesKept(d0: Data, data: Data, c: seq<nat>, now: seq<nat>, pos: nat, s: seq<byte>, i: nat)
    requires Written(d0, data, c, now, pos, s) && InData(d0, c) && i < |Contents(d0, c)|
    ensures i < |Contents(data, now)|
    ensures Contents(data, now)[i] == if pos <= i < pos + |s| then s[i - pos] else Contents(d0, c)[i]
  {
    assert now == c + now[|c|..];
    ContentsAppend(d0, c, now[|c|..]);
  }

  /** fat32_write and then fat32_read_at: what was written is read back, and around it the file reads
      as before (in the clusters it now has). */
  method WriteThenRead(v: Volume, first0: nat, offset: nat, src: seq<byte>, at: nat, size: nat, ghost c: seq<nat>)
    returns (first: nat, done: nat, buf: seq<byte>, ghost now: seq<nat>, ghost pos: nat)
    requires v.Valid() && File(v.fat, first0, c)
    modifies v
    ensures v.Valid() && done <= |src| && v.g.Bpc() > 0 && pos == WritePos(offset, v.g.Bpc(), |c|)
    ensures v.faults == old(v.faults) && AllOn(now, v.Lim()) && pos <= at && at + size <= pos + done && size > 0 ==> buf == src[at - pos..at - pos + size]
    ensures v.faults == old(v.faults) && AllOn(now, v.Lim()) && (at + size <= pos || pos + done <= at) ==>
              InData(old(v.data), now) && buf == Slice(Contents(old(v.data), now), at, size)
  {
    first, done, now := Write(v, first0, offset, src, c);
    pos := WritePos(offset, v.g.Bpc(), |c|);
    ghost var clean := v.faults == old(v.faults);
    buf := ReadAt(v, first, at, size, now);
    if v.faults == old(v.faults) && AllOn(now, v.Lim()) {
      ReadBack(old(v.data), v.data, c, now, pos, src[..done], at, size);
    }
  }

  lemma {:induction false} ReadBack(d0: Data, data: Data, c: seq<nat>, now: seq<nat>, pos: nat, s: seq<byte>, at: nat, size: nat)
    requires Written(d0, data, c, now, pos, s)
    ensures pos <= at && at + size <= pos + |s| && size > 0 ==> Slice(Contents(data, now), at, size) == s[at - pos..at - pos + size]
    ensures at + size <= pos || pos + |s| <= at ==> Slice(Contents(data, now), at, size) == Slice(Contents(d0, now), at, size)
  {
    var a := Contents(d0, now);
    if pos <= at && at + size <= pos + |s| && size > 0 { SliceInside(a, pos, s, at, size); }
    if at + size <= pos || pos + |s| <= at { SliceOutside(a, pos, s, at, size); }
  }
}
