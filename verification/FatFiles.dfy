/** Reading files (fs/fat32.c fat32_read and fat32_read_at). */
module FatFiles {
  import opened Basics
  import opened LittleEndian
  import opened FatDisk
  import opened FatChains
  import opened FatVolume

  /** The bytes [off, off + size) of s, as far as s goes. */
  function Slice(s: seq<byte>, off: nat, size: nat): seq<byte> {
    if off >= |s| then [] else if off + size > |s| then s[off..] else s[off..off + size]
  }

  lemma {:induction false} SlicePrefix(s: seq<byte>, off: nat, size: nat, n: nat)
    requires n <= size && off + n <= |s|
    ensures s[off..off + n] <= Slice(s, off, size)
    ensures n == size || off + n == |s| ==> s[off..off + n] == Slice(s, off, size)
  {
  }

  // ---- how far a read gets ----

  /** From cluster k of the chain on, the first one that is not below l; the length of the chain if
      there is none. */
  function FirstOff(c: seq<nat>, k: nat, l: nat): (m: nat)
    requires k <= |c|
    ensures k <= m <= |c| && (m < |c| ==> c[m] >= l) && forall j :: k <= j < m ==> c[j] < l
    decreases |c| - k
  {
    if k == |c| || c[k] >= l then k else FirstOff(c, k + 1, l)
  }

  ghost predicate AllOn(c: seq<nat>, l: nat) { forall i :: 0 <= i < |c| ==> c[i] < l }

  lemma {:induction false} FirstOffIs(c: seq<nat>, k: nat, l: nat, m: nat)
    requires k <= m <= |c| && (m < |c| ==> c[m] >= l) && forall j :: k <= j < m ==> c[j] < l
    ensures FirstOff(c, k, l) == m
  {
    var n := FirstOff(c, k, l);
  }

  /** How many bytes from position r of cluster q can be read one after the other: up to the first
      cluster that is not on the device. */
  function Avail(c: seq<nat>, bpc: nat, q: nat, r: nat, l: nat): nat {
    if q >= |c| then 0
    else
      var e := Times(FirstOff(c, q, l), bpc);
      if e <= Times(q, bpc) + r then 0 else e - (Times(q, bpc) + r)
  }

  /** The bytes fat32_read_at delivers. */
  ghost function SpanAt(data: Data, c: seq<nat>, bpc: nat, offset: nat, size: nat, l: nat): seq<byte>
    requires InData(data, c) && bpc > 0
  {
    Slice(Contents(data, c), offset, Min(size, Avail(c, bpc, offset / bpc, offset % bpc, l)))
  }

  /** On the device, that is all of the slice. */
  lemma {:induction false} SpanOnDevice(data: Data, c: seq<nat>, bpc: nat, offset: nat, size: nat, l: nat)
    requires InData(data, c) && DataShape(data, bpc) && bpc > 0 && AllOn(c, l)
    ensures SpanAt(data, c, bpc, offset, size, l) == Slice(Contents(data, c), offset, size)
  {
    var q, r := offset / bpc, offset % bpc;
    assert offset == q * bpc + r;
    TimesIsProduct(q, bpc);
    ContentsLength(data, c, bpc);
    if q < |c| {
      assert FirstOff(c, q, l) == |c|;
      TimesMono(q + 1, |c|, bpc);
    } else {
      TimesMono(|c|, q, bpc);
    }
  }

  /** fat32_read transfers only the sectors it needs for the end of the buffer, so the last piece can
      come from a cluster of which the device has a part. */
  predicate TailFits(g: Geometry, n: nat, cl: nat, rest: nat) {
    cl >= 2 && var chunk := Min(g.Bpc(), rest); chunk % SECTOR == 0 && g.ClusterLba(cl) + chunk / SECTOR <= n
  }

  /** How many bytes fat32_read delivers, on a device of n sectors. */
  function ReadLength(g: Geometry, n: nat, c: seq<nat>, size: nat): nat {
    var m := FirstOff(c, 0, g.Limit(n));
    var e := Times(m, g.Bpc());
    if size <= e || m == |c| then Min(size, e)
    else if TailFits(g, n, c[m], size - e) then size
    else e
  }

  /** fat32_read and fat32_read_at from offset 0 deliver equally much, unless fat32_read gets its last
      piece from a cluster that is only partly on the device. */
  lemma {:induction false} ReadsAgree(g: Geometry, n: nat, c: seq<nat>, size: nat)
    ensures var m := FirstOff(c, 0, g.Limit(n)); var e := Times(m, g.Bpc());
            ReadLength(g, n, c, size) == Min(size, Avail(c, g.Bpc(), 0, 0, g.Limit(n))) <==>
              !(m < |c| && size > e && TailFits(g, n, c[m], size - e))
  {
  }

  /** A device that ends in the middle of cluster 2: of a file in that cluster fat32_read delivers the
      first sector, and fat32_read_at nothing. */
  lemma {:induction false} ReadsDiffer()
    ensures var g := Geometry(1, 1, 2, 2); g.Limit(3) == 2 && ReadLength(g, 3, [2], 512) == 512 && Avail([2], g.Bpc(), 0, 0, g.Limit(3)) == 0
  {
    var g := Geometry(1, 1, 2, 2);
    assert FirstOff([2], 0, g.Limit(3)) == 0;
    assert TailFits(g, 3, 2, 512);
  }

  /** Cluster index and position inside the cluster of a byte offset. */
  method SplitOffset(offset: nat, bpc: nat) returns (q: nat, r: nat)
    requires bpc > 0
    ensures offset == Times(q, bpc) + r && r < bpc && q == offset / bpc && r == offset % bpc
  {
    q, r := offset / bpc, offset % bpc;
    assert offset == q * bpc + r;
    TimesIsProduct(q, bpc);
  }

  lemma {:induction false} ChainInData(fat: Fat, data: Data, c: seq<nat>)
    requires |data| == |fat| && (c != [] ==> Chain(fat, c))
    ensures InData(data, c)
  {
    forall i | 0 <= i < |c| ensures 2 <= c[i] < |data| { assert LinkAt(fat, c, i); }
  }

  /** Reading a stretch of cluster k continues a prefix of the file. */
  lemma {:induction false} ReadOn(data: Data, c: seq<nat>, k: nat, bpc: nat, off: nat, buf: seq<byte>, at: nat, chunk: nat)
    requires InData(data, c) && DataShape(data, bpc) && k < |c| && at + chunk <= bpc
    requires off + |buf| == Times(k, bpc) + at
    requires off + |buf| <= |Contents(data, c)| ==> buf == Contents(data, c)[off..off + |buf|]
    ensures |Contents(data, c)| == Times(|c|, bpc) && off + |buf| + chunk <= Times(|c|, bpc)
    ensures buf + data[c[k]][at..at + chunk] == Contents(data, c)[off..off + |buf| + chunk]
  {
    var total := |buf|;
    ContentsSplit(data, c, k, bpc);
    ContentsLength(data, c, bpc);
    TimesMono(k + 1, |c|, bpc);
    var s := Contents(data, c);
    assert s[off + total..off + total + chunk] == data[c[k]][at..at + chunk];
  }

  /** buf is what s holds from off on. */
  ghost predicate Holds(s: seq<byte>, off: nat, buf: seq<byte>) {
    off + |buf| <= |s| && buf == s[off..off + |buf|]
  }

  lemma {:induction false} HoldsMore(data: Data, c: seq<nat>, k: nat, bpc: nat, off: nat, buf: seq<byte>, at: nat, chunk: nat, piece: seq<byte>)
    requires InData(data, c) && DataShape(data, bpc) && k < |c| && at + chunk <= bpc
    requires off + |buf| == Times(k, bpc) + at && Holds(Contents(data, c), off, buf) && |data[c[k]]| == bpc && piece == data[c[k]][at..at + chunk]
    ensures Holds(Contents(data, c), off, buf + piece)
  {
    ReadOn(data, c, k, bpc, off, buf, at, chunk);
  }

  /** Following the chain by one cluster. */
  method Next(v: Volume, cluster: nat, ghost c: seq<nat>, ghost k: nat, ghost next: nat) returns (r: nat)
    requires v.Valid() && c != [] && Chain(v.fat, c) && k < |c| && cluster == c[k] && next == k + 1
    modifies v`faults
    ensures v.Valid() && v.faults >= old(v.faults)
    ensures ClusterValid(r) ==> next < |c| && r == c[next] && v.faults == old(v.faults)
    ensures !ClusterValid(r) && v.faults == old(v.faults) ==> next == |c|
  {
    assert LinkAt(v.fat, c, k);
    assert k + 1 < |c| ==> LinkAt(v.fat, c, k + 1);
    r := v.ReadEntry(cluster);
  }

  /** The walk of fat32_read_at and fat32_write to cluster n of a file; prev is the cluster before. */
  method WalkTo(v: Volume, start: nat, n: nat, ghost c: seq<nat>) returns (cluster: nat, prev: nat, k: nat)
    requires v.Valid() && File(v.fat, start, c)
    modifies v`faults
    ensures v.Valid() && v.faults >= old(v.faults) && k <= n && k <= |c|
    ensures ClusterValid(cluster) ==> k == n < |c| && cluster == c[n] && v.faults == old(v.faults)
    ensures !ClusterValid(cluster) && v.faults == old(v.faults) ==> k == |c|
    ensures prev == if k == 0 then start else c[k - 1]
    ensures k == 0 ==> cluster == start
  {
    cluster, prev, k := start, start, 0;
    assert c != [] ==> LinkAt(v.fat, c, 0);
    while k < n && ClusterValid(cluster)
      invariant v.Valid() && v.faults >= old(v.faults) && k <= n && k <= |c|
      invariant ClusterValid(cluster) ==> k < |c| && cluster == c[k] && v.faults == old(v.faults)
      invariant !ClusterValid(cluster) && v.faults == old(v.faults) ==> k == |c|
      invariant prev == if k == 0 then start else c[k - 1]
      invariant k == 0 ==> cluster == start
      decreases n - k
    {
      assert LinkAt(v.fat, c, k);
      assert k + 1 < |c| ==> LinkAt(v.fat, c, k + 1);
      prev := cluster;
      cluster := v.ReadEntry(cluster);
      k := k + 1;
    }
  }

  /** The bytes [at, at + chunk) of a cluster, through a transfer of `count` sectors. */
  method ReadPiece(v: Volume, cluster: nat, count: nat, at: nat, chunk: nat) returns (ok: bool, piece: seq<byte>)
    requires v.Valid() && 2 <= cluster < v.g.Total() && 0 < count <= v.g.spc && at + chunk <= SECTOR * count
    modifies v`faults
    ensures v.Valid()
    ensures ok ==> v.faults == old(v.faults) && at + chunk <= |v.data[cluster]| && piece == v.data[cluster][at..at + chunk]
    ensures ok ==> v.g.ClusterLba(cluster) + count <= v.size && (count == v.g.spc ==> cluster < v.Lim())
    ensures !ok ==> v.faults == old(v.faults) + 1 || (v.faults == old(v.faults) && v.g.ClusterLba(cluster) + count > v.size && cluster >= v.Lim())
  {
    var tmp;
    ok, tmp := v.ReadCluster(cluster, count);
    if ok { piece := tmp[at..at + chunk]; } else { piece := []; }
  }

  /** fat32_read_at: exactly the requested slice of the file as far as it is on the device, or, after
      a fault, a prefix of it. */
  method ReadAt(v: Volume, start: nat, offset: nat, size: nat, ghost c: seq<nat>) returns (buf: seq<byte>)
    requires v.Valid() && File(v.fat, start, c)
    modifies v`faults
    ensures v.Valid() && v.faults >= old(v.faults) && InData(v.data, c) && v.g.Bpc() > 0
    ensures buf <= SpanAt(v.data, c, v.g.Bpc(), offset, size, v.Lim())
    ensures v.faults == old(v.faults) ==> buf == SpanAt(v.data, c, v.g.Bpc(), offset, size, v.Lim())
    ensures v.faults == old(v.faults) && AllOn(c, v.Lim()) ==> buf == Slice(Contents(v.data, c), offset, size)
  {
    ChainInData(v.fat, v.data, c);
    var q, r := SplitOffset(offset, v.g.Bpc());
    buf := ReadSpan(v, start, q, r, offset, size, c);
    if AllOn(c, v.Lim()) { SpanOnDevice(v.data, c, v.g.Bpc(), offset, size, v.Lim()); }
  }

  /** fat32_read_at from position r of cluster q. */
  method ReadSpan(v: Volume, start: nat, q: nat, r: nat, ghost offset: nat, size: nat, ghost c: seq<nat>) returns (buf: seq<byte>)
    requires v.Valid() && File(v.fat, start, c) && InData(v.data, c) && offset == Times(q, v.g.Bpc()) + r && r < v.g.Bpc()
    modifies v`faults
    ensures v.Valid() && v.faults >= old(v.faults)
    ensures var span := Slice(Contents(v.data, c), offset, Min(size, Avail(c, v.g.Bpc(), q, r, v.Lim())));
            buf <= span && (v.faults == old(v.faults) ==> buf == span)
  {
    buf := [];
    if size == 0 { return; }
    var bpc := v.g.Bpc();
    ContentsLength(v.data, c, bpc);
    var cluster, prev, k := WalkTo(v, start, q, c);
    if !ClusterValid(cluster) {
      TimesMono(k, q, bpc);
      return;
    }
    TimesMono(k + 1, |c|, bpc);
    var ok := v.ScratchBuffer();
    if !ok { return; }
    buf := ReadFrom(v, cluster, r, offset, size, c, k);
    SpanPrefix(Contents(v.data, c), offset, size, Avail(c, bpc, q, r, v.Lim()), |buf|);
  }

  lemma {:induction false} SpanPrefix(s: seq<byte>, off: nat, size: nat, avail: nat, n: nat)
    requires n <= size && n <= avail && off + n <= |s|
    ensures s[off..off + n] <= Slice(s, off, Min(size, avail))
    ensures n == Min(size, avail) ==> s[off..off + n] == Slice(s, off, Min(size, avail))
  {
  }

  /** The copy loop of fat32_read_at, from position inCluster of cluster k. */
  method ReadFrom(v: Volume, cluster0: nat, inCluster0: nat, ghost offset: nat, size: nat, ghost c: seq<nat>, ghost k0: nat)
    returns (buf: seq<byte>)
    requires v.Valid() && c != [] && Chain(v.fat, c) && InData(v.data, c)
    requires k0 < |c| && cluster0 == c[k0] && inCluster0 < v.g.Bpc() && offset == Times(k0, v.g.Bpc()) + inCluster0
    modifies v`faults
    ensures v.Valid() && v.faults >= old(v.faults)
    ensures |buf| <= size && offset + |buf| <= |Contents(v.data, c)| && buf == Contents(v.data, c)[offset..offset + |buf|]
    ensures var avail := Avail(c, v.g.Bpc(), k0, inCluster0, v.Lim()); |buf| <= avail && (v.faults == old(v.faults) ==> |buf| == Min(size, avail))
  {
    ghost var s := Contents(v.data, c);
    var bpc := v.g.Bpc();
    var cluster, inCluster := cluster0, inCluster0;
    ghost var k: nat := k0;
    buf := [];
    ReadOn(v.data, c, k, bpc, offset, [], inCluster, 0);
    var going := true;
    while going && |buf| < size
      invariant v.Valid() && v.faults >= old(v.faults) && (going ==> v.faults == old(v.faults))
      invariant |buf| <= size && Holds(s, offset, buf) && Reading(c, k0, k, bpc, offset, |buf|, inCluster, v.Lim())
      invariant going ==> k < |c| && cluster == c[k]
      invariant !going && v.faults == old(v.faults) ==> (k < |c| ==> c[k] >= v.Lim()) && (|buf| > 0 ==> inCluster == 0)
      decreases going, size - |buf|
    {
      going, cluster, inCluster, buf, k := ReadRound(v, cluster, inCluster, buf, size, offset, c, k0, k);
    }
    AvailReached(c, bpc, k0, inCluster0, v.Lim(), k, inCluster, |buf|, size, v.faults == old(v.faults));
  }

  /** Where the copy loop stands after n bytes: at position r of cluster k, past clusters on the device. */
  ghost predicate Reading(c: seq<nat>, k0: nat, k: nat, bpc: nat, offset: nat, n: nat, r: nat, l: nat) {
    && k0 <= k <= |c| && (forall j :: k0 <= j < k ==> c[j] < l)
    && offset + n == Times(k, bpc) + r && r < bpc && (n > 0 ==> r == 0 || (k < |c| && c[k] < l))
  }

  /** One round of the copy loop. */
  method ReadRound(v: Volume, cluster0: nat, r0: nat, buf0: seq<byte>, size: nat, ghost offset: nat, ghost c: seq<nat>, ghost k0: nat, ghost kk: nat)
    returns (going: bool, cluster: nat, r: nat, buf: seq<byte>, ghost k: nat)
    requires v.Valid() && c != [] && Chain(v.fat, c) && InData(v.data, c) && kk < |c| && cluster0 == c[kk] && |buf0| < size
    requires Holds(Contents(v.data, c), offset, buf0) && Reading(c, k0, kk, v.g.Bpc(), offset, |buf0|, r0, v.Lim())
    modifies v`faults
    ensures v.Valid() && v.faults >= old(v.faults) && |buf0| <= |buf| <= size
    ensures Holds(Contents(v.data, c), offset, buf) && Reading(c, k0, k, v.g.Bpc(), offset, |buf|, r, v.Lim())
    ensures going ==> k < |c| && cluster == c[k] && v.faults == old(v.faults) && |buf0| < |buf|
    ensures !going && v.faults == old(v.faults) ==> (k < |c| ==> c[k] >= v.Lim()) && (|buf| > 0 ==> r == 0)
  {
    cluster, r, buf, k := cluster0, r0, buf0, kk;
    var bpc := v.g.Bpc();
    assert LinkAt(v.fat, c, k);
    var chunk := Min(size - |buf|, bpc - r);
    // a full cluster goes straight to the buffer, a partial one through scratch memory; the bytes are the same
    var piece;
    going, piece := ReadPiece(v, cluster, v.g.spc, r, chunk);
    if !going { return; }
    HoldsMore(v.data, c, k, bpc, offset, buf, r, chunk, piece);
    buf, r := buf + piece, r + chunk;
    if r == bpc {
      cluster := Next(v, cluster, c, k, k + 1);
      r, k := 0, k + 1;
      going := ClusterValid(cluster);
    }
  }

  /** What the copy loop has read when it stops. */
  lemma {:induction false} AvailReached(c: seq<nat>, bpc: nat, k0: nat, r0: nat, l: nat, k: nat, r: nat, n: nat, size: nat, clean: bool)
    requires k0 < |c| && r0 < bpc && r < bpc && k0 <= k <= |c| && (forall j :: k0 <= j < k ==> c[j] < l)
    requires Times(k0, bpc) + r0 + n == Times(k, bpc) + r && n <= size && (n > 0 ==> r == 0 || (k < |c| && c[k] < l))
    requires clean && n < size ==> (k < |c| ==> c[k] >= l) && (n > 0 ==> r == 0)
    ensures n <= Avail(c, bpc, k0, r0, l) && (clean ==> n == Min(size, Avail(c, bpc, k0, r0, l)))
  {
    var m := FirstOff(c, k0, l);
    assert k <= m;
    TimesMono(k, m, bpc);
    if n > 0 && r > 0 {
      assert k < m;
      TimesMono(k + 1, m, bpc);
    }
    if n == 0 && k0 < m { TimesMono(k0 + 1, m, bpc); }
    if clean && n < size { FirstOffIs(c, k0, l, k); }
  }

  /** fat32_read: whole sectors go straight to the buffer, a ragged end through a scratch cluster. */
  method Read(v: Volume, start: nat, size: nat, ghost c: seq<nat>) returns (buf: seq<byte>)
    requires v.Valid() && File(v.fat, start, c)
    modifies v`faults
    ensures v.Valid() && v.faults >= old(v.faults) && InData(v.data, c)
    ensures buf <= Slice(Contents(v.data, c), 0, ReadLength(v.g, v.size, c, size))
    ensures v.faults == old(v.faults) ==> buf == Slice(Contents(v.data, c), 0, ReadLength(v.g, v.size, c, size))
    ensures v.faults == old(v.faults) && AllOn(c, v.Lim()) ==> buf == Slice(Contents(v.data, c), 0, size)
  {
    ChainInData(v.fat, v.data, c);
    ContentsLength(v.data, c, v.g.Bpc());
    buf := [];
    if size == 0 { return; }
    buf := ReadAll(v, start, size, c);
    SlicePrefix(Contents(v.data, c), 0, ReadLength(v.g, v.size, c, size), |buf|);
    if AllOn(c, v.Lim()) { FirstOffIs(c, 0, v.Lim(), |c|); }
  }

  /** The copy loop of fat32_read. */
  method ReadAll(v: Volume, start: nat, size: nat, ghost c: seq<nat>) returns (buf: seq<byte>)
    requires v.Valid() && File(v.fat, start, c) && InData(v.data, c) && size > 0
    modifies v`faults
    ensures v.Valid() && v.faults >= old(v.faults)
    ensures |buf| <= |Contents(v.data, c)| && buf == Contents(v.data, c)[0..|buf|]
    ensures |buf| <= ReadLength(v.g, v.size, c, size) && (v.faults == old(v.faults) ==> |buf| == ReadLength(v.g, v.size, c, size))
  {
    ghost var s := Contents(v.data, c);
    var bpc := v.g.Bpc();
    ContentsLength(v.data, c, bpc);
    buf := [];
    var cluster, haveTmp, ok := start, false, true;
    ghost var k: nat := 0;
    assert c != [] ==> LinkAt(v.fat, c, 0);
    while ok && ClusterValid(cluster) && |buf| < size
      invariant v.Valid() && v.faults >= old(v.faults)
      invariant |buf| <= size && Holds(s, 0, buf)
      invariant 0 <= k <= |c| && ReadTo(v.g, v.size, c, size, k, |buf|)
      invariant ok && ClusterValid(cluster) ==> v.faults == old(v.faults)
      invariant ok && |buf| < size && ClusterValid(cluster) ==> k < |c| && cluster == c[k]
      invariant v.faults == old(v.faults) && !ClusterValid(cluster) && |buf| < size ==> k == |c|
      invariant !ok && v.faults == old(v.faults) ==> |buf| < size && k < |c| && c[k] >= v.Lim() && !TailFits(v.g, v.size, c[k], size - |buf|)
      decreases ok, size - |buf|
    {
      assert LinkAt(v.fat, c, k);
      var chunk, piece := Min(bpc, size - |buf|), [];
      ok, haveTmp, piece := ReadChunk(v, cluster, chunk, haveTmp, size - |buf|);
      if ok {
        HoldsMore(v.data, c, k, bpc, 0, buf, 0, chunk, piece);
        ReadToNext(v.g, v.size, c, size, k, k + 1, |buf|, chunk);
        buf := buf + piece;
        cluster := Next(v, cluster, c, k, k + 1);
        k := k + 1;
      }
    }
    ReadStops(v.g, v.size, c, size, k, |buf|, v.faults == old(v.faults), ok);
  }

  /** Where the loop of fat32_read stands after k clusters: all of them on the device, or the last one
      only as far as it was needed. */
  ghost predicate ReadTo(g: Geometry, n: nat, c: seq<nat>, size: nat, k: nat, total: nat)
    requires k <= |c|
  {
    && (total < size ==> total == Times(k, g.Bpc()) && forall j :: 0 <= j < k ==> c[j] < g.Limit(n))
    && (total == size ==> k > 0 && Times(k - 1, g.Bpc()) < size <= Times(k, g.Bpc()) && (forall j :: 0 <= j < k - 1 ==> c[j] < g.Limit(n))
                          && (c[k - 1] < g.Limit(n) || TailFits(g, n, c[k - 1], size - Times(k - 1, g.Bpc()))))
  }

  lemma {:induction false} ReadToNext(g: Geometry, n: nat, c: seq<nat>, size: nat, k: nat, next: nat, total: nat, chunk: nat)
    requires k < |c| && next == k + 1 && ReadTo(g, n, c, size, k, total) && total < size && chunk == Min(g.Bpc(), size - total)
    requires c[k] < g.Limit(n) || (TailFits(g, n, c[k], size - total) && size - total < g.Bpc())
    ensures ReadTo(g, n, c, size, next, total + chunk)
  {
  }

  lemma {:induction false} ReadStops(g: Geometry, n: nat, c: seq<nat>, size: nat, k: nat, total: nat, clean: bool, ok: bool)
    requires size > 0 && total <= size && k <= |c| && ReadTo(g, n, c, size, k, total)
    requires clean && total < size ==> k == |c| || (c[k] >= g.Limit(n) && !TailFits(g, n, c[k], size - total))
    ensures total <= ReadLength(g, n, c, size) && (clean ==> total == ReadLength(g, n, c, size))
  {
    var m := FirstOff(c, 0, g.Limit(n));
    if total == size {
      assert k - 1 <= m;
      if m >= k { TimesMono(k, m, g.Bpc()); }
    } else {
      assert k <= m;
      TimesMono(k, m, g.Bpc());
      if clean { FirstOffIs(c, 0, g.Limit(n), k); }
    }
  }

  /** One transfer of fat32_read: direct for whole sectors, staged otherwise. */
  method ReadChunk(v: Volume, cluster: nat, chunk: nat, haveTmp0: bool, ghost rest: nat) returns (ok: bool, haveTmp: bool, piece: seq<byte>)
    requires v.Valid() && 2 <= cluster < v.g.Total() && chunk == Min(v.g.Bpc(), rest) && rest > 0
    modifies v`faults
    ensures v.Valid()
    ensures ok ==> v.faults == old(v.faults) && chunk <= |v.data[cluster]| && piece == v.data[cluster][0..chunk]
    ensures ok ==> cluster < v.Lim() || (TailFits(v.g, v.size, cluster, rest) && rest < v.g.Bpc())
    ensures !ok ==> v.faults == old(v.faults) + 1 || (v.faults == old(v.faults) && cluster >= v.Lim() && !TailFits(v.g, v.size, cluster, rest))
  {
    haveTmp := haveTmp0;
    var sectors := chunk / SECTOR;
    LimitIsEnd(v.g, v.size, cluster);
    if sectors > 0 && chunk % SECTOR == 0 {
      ok, piece := ReadPiece(v, cluster, sectors, 0, chunk);
    } else {
      if !haveTmp {
        ok := v.ScratchBuffer();
        if !ok { return false, haveTmp, []; }
        haveTmp := true;
      }
      ok, piece := ReadPiece(v, cluster, v.g.spc, 0, chunk);
    }
  }
}
