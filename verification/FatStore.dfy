/** Replacing a file's contents (the chain part of fs/fat32.c fat32_write_file) and growing a
    directory by one cluster (the tail of dir_find_free_slots). */
module FatStore {
  import opened LittleEndian
  import opened FatDisk
  import opened FatChains
  import opened FatReach
  import opened FatVolume
  import opened FatFiles
  import opened FatWrite

  ghost function FreeSet(fat: Fat): set<nat> {
    set x | 2 <= x < |fat| && fat[x] == 0
  }

  /** The free clusters below l. */
  ghost function FreeBelow(fat: Fat, l: nat): set<nat> {
    set x | 2 <= x < |fat| && x < l && fat[x] == 0
  }

  /** The first n bytes of buf, filled up with zeros. */
  function PadTo(buf: seq<byte>, n: nat): (r: seq<byte>)
    ensures |r| == n
  {
    if n <= |buf| then buf[..n] else buf + Zeros(n - |buf|)
  }

  lemma {:induction false} PadMore(buf: seq<byte>, n: nat, bpc: nat)
    requires n < |buf|
    ensures PadTo(buf, n) + PadTo(buf[n..], bpc) == PadTo(buf, n + bpc)
  {
  }

  /** How many clusters a buffer needs. */
  function ClustersFor(size: nat, bpc: nat): nat
    requires bpc > 0
  {
    if size == 0 then 0 else if size <= bpc then 1 else 1 + ClustersFor(size - bpc, bpc)
  }

  lemma {:induction false} ClustersForBounds(size: nat, bpc: nat)
    requires bpc > 0
    ensures var n := ClustersFor(size, bpc);
            && size <= Times(n, bpc) && (n > 0 ==> Times(n - 1, bpc) < size) && (n == 0 <==> size == 0)
  {
    if size > bpc { ClustersForBounds(size - bpc, bpc); }
    else if size > 0 { assert Times(1, bpc) == Times(0, bpc) + bpc; }
  }

  /** The rounding division of fat32_write_file. */
  method CountClusters(size: nat, bpc: nat) returns (total: nat)
    requires bpc > 0
    ensures total == ClustersFor(size, bpc)
  {
    total := (size + bpc - 1) / bpc;
    var n := ClustersFor(size, bpc);
    ClustersForBounds(size, bpc);
    TimesIsProduct(n, bpc);
    if n > 0 {
      TimesIsProduct(n - 1, bpc);
      assert n * bpc == (n - 1) * bpc + bpc;
      ModUnique(size + bpc - 1, bpc, n, size + bpc - 1 - n * bpc);
    } else {
      ModUnique(bpc - 1, bpc, 0, bpc - 1);
    }
  }

  /** Clusters of w were free and are now the chain w; nothing else of the table has changed. */
  ghost predicate FreshChain(f0: Fat, fat: Fat, w: seq<nat>) {
    && |fat| == |f0|
    && (w != [] ==> Chain(fat, w))
    && (forall x :: x in w ==> 2 <= x < |f0| && f0[x] == 0)
    && (forall x :: 0 <= x < |f0| && x !in w ==> fat[x] == f0[x])
  }

  lemma {:induction false} FreshChainGrows(f0: Fat, fat: Fat, w: seq<nat>, x: nat)
    requires FreshChain(f0, fat, w) && |fat| <= BAD && 2 <= x < |fat| && fat[x] == 0
    ensures x !in w && (w != [] ==> w[|w| - 1] < |fat|)
    ensures FreshChain(f0, if w == [] then fat[x := EOC] else fat[x := EOC][w[|w| - 1] := x], w + [x])
  {
    if w != [] {
      if x in w { ChainNonzero(fat, w, x); }
      AppendChain(fat, w, |w|, x);
      assert w[..|w|] == w;
    } else {
      var c: seq<nat> := [x];
      var fat' := fat[x := EOC];
      assert LinkAt(fat', c, 0);
      assert Chain(fat', c) && w + [x] == c;
    }
  }

  lemma {:induction false} FreshConfined(f0: Fat, d0: Data, fat: Fat, data: Data, w: seq<nat>)
    requires FreshChain(f0, fat, w) && |d0| == |f0| && SameOutside(d0, data, w)
    ensures Confined(f0, d0, fat, data, [], w)
  {
  }

  /** What is left of a fresh chain after some of its clusters have been freed again. */
  lemma {:induction false} LeftoverConfined(f0: Fat, d0: Data, fat: Fat, fat': Fat, data: Data, w: seq<nat>, p: seq<nat>, x: nat)
    requires FreshChain(f0, fat, w) && |d0| == |f0| && SameOutside(d0, data, w)
    requires |fat'| == |fat| && x < |f0| && f0[x] == 0
    requires forall y :: 0 <= y < |fat| && y != x ==> fat'[y] == fat[y] || (y in p && fat'[y] == 0)
    requires forall y :: y in p ==> y in w || y == x
    ensures Confined(f0, d0, fat', data, [], [])
  {
  }

  /** Success needs exactly as many free clusters as the file has. */
  lemma {:induction false} FreshCount(f0: Fat, fat: Fat, w: seq<nat>)
    requires FreshChain(f0, fat, w)
    ensures |w| <= |FreeSet(f0)|
    ensures NoFree(fat) ==> |w| == |FreeSet(f0)| && forall x :: x in FreeSet(f0) <==> x in w
  {
    if w != [] { ChainAcyclic(fat, w); }
    DistinctCount(w);
    SubsetCount(Elements(w), FreeSet(f0));
    if NoFree(fat) {
      forall x | x in FreeSet(f0) ensures x in w { }
      assert Elements(w) == FreeSet(f0);
    }
  }

  lemma {:induction false} FreshBelow(f0: Fat, fat: Fat, w: seq<nat>, l: nat)
    requires FreshChain(f0, fat, w) && AllOn(w, l)
    ensures |w| <= |FreeBelow(f0, l)|
    ensures NoFreeBelow(fat, l) ==> |w| == |FreeBelow(f0, l)| && forall x :: x in FreeBelow(f0, l) <==> x in w
  {
    if w != [] { ChainAcyclic(fat, w); }
    DistinctCount(w);
    forall x | x in w ensures x in FreeBelow(f0, l) {
      var i :| 0 <= i < |w| && w[i] == x;
    }
    SubsetCount(Elements(w), FreeBelow(f0, l));
    if NoFreeBelow(fat, l) {
      forall x | x in FreeBelow(f0, l) ensures x in w { }
      assert Elements(w) == FreeBelow(f0, l);
    }
  }

  /** Why there is no room: the table is full, and the chain w keeps what it has taken; or a cluster
      off the device was taken, and all is given back. */
  ghost predicate NoRoom(f0: Fat, fat: Fat, w: seq<nat>, l: nat, n: nat) {
    && |FreeBelow(f0, l)| < n
    && if FreeSet(f0) == FreeBelow(f0, l) then NoFree(fat) && FreshChain(f0, fat, w) && forall x :: x in FreeSet(f0) <==> x in w
       else |FreeBelow(f0, l)| < GUARD ==> fat == f0
  }

  lemma {:induction false} TableFull(f0: Fat, fat: Fat, w: seq<nat>, l: nat, n: nat)
    requires FreshChain(f0, fat, w) && AllOn(w, l) && NoFree(fat) && |w| < n
    ensures NoRoom(f0, fat, w, l, n)
  {
    FreshCount(f0, fat, w);
    FreshBelow(f0, fat, w, l);
    assert FreeSet(f0) == FreeBelow(f0, l);
  }

  lemma {:induction false} DeviceFull(f0: Fat, fat: Fat, fat': Fat, w: seq<nat>, l: nat, n: nat)
    requires FreshChain(f0, fat, w) && AllOn(w, l) && NoFreeBelow(fat, l) && !NoFree(fat) && |w| < n && (|w| < GUARD ==> fat' == f0)
    ensures NoRoom(f0, fat', w, l, n)
  {
    FreshBelow(f0, fat, w, l);
    var x :| 2 <= x < |fat| && fat[x] == 0;
    if x in w { ChainNonzero(fat, w, x); }
    assert x in FreeSet(f0) && x !in FreeBelow(f0, l);
  }

  lemma {:induction false} WhyNot(f0: Fat, fat: Fat, fat': Fat, w: seq<nat>, l: nat, n: nat)
    requires FreshChain(f0, fat, w) && AllOn(w, l) && |w| < n
    requires (NoFree(fat) && fat' == fat) || (NoFreeBelow(fat, l) && !NoFree(fat) && (|w| < GUARD ==> fat' == f0))
    ensures NoRoom(f0, fat', w, l, n)
  {
    if NoFree(fat) { TableFull(f0, fat, w, l, n); } else { DeviceFull(f0, fat, fat', w, l, n); }
  }

  /** A walk from the head of a chain stays on it. */
  lemma {:induction false} WalkOnChain(fat: Fat, c: seq<nat>, p: seq<nat>)
    requires Chain(fat, c) && IsPath(fat, p) && (p != [] ==> p[0] == c[0])
    ensures forall y :: y in p ==> y in c
  {
    ChainIsReach(fat, c);
    forall y | y in p ensures y in c {
      var i :| 0 <= i < |p| && p[i] == y;
      PathReaches(fat, p, i);
    }
  }

  /** Gives up a half-built chain, as fat32_write_file does after a failed transfer. */
  method GiveUp(v: Volume, first: nat, ghost f0: Fat, ghost d0: Data, ghost w: seq<nat>, ghost x: nat, ghost fat1: Fat)
    requires v.Valid() && w != [] && first == w[0] && FreshChain(f0, fat1, w) && |d0| == |f0| && SameOutside(d0, v.data, w)
    requires Chain(v.fat, w) && |v.fat| == |fat1| && x < |f0| && f0[x] == 0
    requires forall y :: 0 <= y < |fat1| && y != x ==> v.fat[y] == fat1[y]
    modifies v
    ensures v.Valid() && v.faults >= old(v.faults) && v.data == old(v.data)
    ensures Confined(f0, d0, v.fat, v.data, [], [])
    ensures v.faults == old(v.faults) && x in w && |w| <= GUARD ==> v.fat == f0
  {
    ChainIsReach(v.fat, w);
    assert LinkAt(v.fat, w, 0);
    ghost var p := v.FreeChain(first);
    WalkOnChain(old(v.fat), w, p);
    LeftoverConfined(f0, d0, fat1, v.fat, v.data, w, p, x);
    if v.faults == old(v.faults) && x in w && |w| <= GUARD { AllGivenBack(f0, fat1, old(v.fat), v.fat, w, x); }
  }

  lemma {:induction false} AllGivenBack(f0: Fat, fat1: Fat, fat: Fat, fat': Fat, w: seq<nat>, x: nat)
    requires FreshChain(f0, fat1, w) && x in w && |fat| == |fat1| && |fat'| == |fat|
    requires forall y :: 0 <= y < |fat1| && y != x ==> fat[y] == fat1[y]
    requires forall y :: 0 <= y < |fat'| ==> fat'[y] == if y in w then 0 else fat[y]
    ensures fat' == f0
  {
    forall y | 0 <= y < |f0| ensures fat'[y] == f0[y] {
      if y in w { assert f0[y] == 0; }
    }
  }

  /** Takes a free cluster and links it to the end of the fresh chain w. */
  method LinkNew(v: Volume, first0: nat, prev: nat, ghost f0: Fat, ghost d0: Data, ghost w: seq<nat>)
    returns (ok: bool, first: nat, cl: nat)
    requires v.Valid() && FreshChain(f0, v.fat, w) && |d0| == |f0| && SameOutside(d0, v.data, w)
    requires if w == [] then first0 == 0 else first0 == w[0] && prev == w[|w| - 1]
    modifies v
    ensures v.Valid() && v.faults >= old(v.faults) && v.data == old(v.data)
    ensures ok ==> cl !in w && 2 <= cl < |v.fat| && f0[cl] == 0 && FreshChain(f0, v.fat, w + [cl]) && first == (w + [cl])[0]
    ensures !ok ==> Confined(f0, d0, v.fat, v.data, [], [])
    ensures !ok && v.faults == old(v.faults) ==> NoFree(v.fat) && v.fat == old(v.fat)
    ensures ok && v.faults == old(v.faults) && cl >= v.Lim() ==> NoFreeBelow(old(v.fat), v.Lim()) && !NoFree(old(v.fat))
  {
    first := first0;
    FreshConfined(f0, d0, v.fat, v.data, w);
    ghost var fat1 := v.fat;
    assert w != [] ==> LinkAt(fat1, w, 0) && LinkAt(fat1, w, |w| - 1);
    cl := v.AllocCluster();
    ok := cl != 0;
    if !ok { return; }
    FreshChainGrows(f0, fat1, w, cl);
    if first == 0 {
      first := cl;
    } else {
      ok := v.WriteEntry(prev, cl);
      if !ok {
        ChainFrame(fat1, v.fat, w);
        GiveUp(v, first, f0, d0, w, cl, fat1);
      }
    }
  }

  /** One round of fat32_write_file's loop: a new cluster at the end of the chain, filled with `chunk`. */
  method AddCluster(v: Volume, first0: nat, prev: nat, chunk: seq<byte>, ghost f0: Fat, ghost d0: Data, ghost w: seq<nat>)
    returns (ok: bool, first: nat, cl: nat)
    requires v.Valid() && FreshChain(f0, v.fat, w) && |d0| == |f0| && SameOutside(d0, v.data, w) && |chunk| == v.g.Bpc()
    requires if w == [] then first0 == 0 else first0 == w[0] && prev == w[|w| - 1]
    modifies v
    ensures v.Valid() && v.faults >= old(v.faults)
    ensures ok ==> cl !in w && 2 <= cl < |v.fat| && FreshChain(f0, v.fat, w + [cl]) && SameOutside(d0, v.data, w + [cl])
    ensures ok ==> first == (w + [cl])[0] && v.data == old(v.data)[cl := chunk]
    ensures !ok ==> Confined(f0, d0, v.fat, v.data, [], [])
    ensures ok ==> cl < v.Lim()
    ensures !ok && v.faults == old(v.faults) ==>
              || (NoFree(v.fat) && v.fat == old(v.fat))
              || (NoFreeBelow(old(v.fat), v.Lim()) && !NoFree(old(v.fat)) && (|w| < GUARD ==> v.fat == f0))
  {
    ok, first, cl := LinkNew(v, first0, prev, f0, d0, w);
    if !ok { return; }
    ok := v.WriteCluster(cl, chunk);
    if !ok {
      GiveUp(v, first, f0, d0, w + [cl], cl, v.fat);
    }
  }

  /** The bytes of a fresh chain after one more padded chunk. */
  lemma {:induction false} ChunkAdded(data: Data, w: seq<nat>, buf: seq<byte>, bpc: nat, cl: nat)
    requires InData(data, w) && cl !in w && 2 <= cl < |data| && Times(|w|, bpc) < |buf|
    requires Contents(data, w) == PadTo(buf, Times(|w|, bpc))
    ensures var data' := data[cl := PadTo(buf[Times(|w|, bpc)..], bpc)];
            InData(data', w + [cl]) && Contents(data', w + [cl]) == PadTo(buf, Times(|w| + 1, bpc))
  {
    var data' := data[cl := PadTo(buf[Times(|w|, bpc)..], bpc)];
    ContentsFrame(data, data', w);
    ContentsSnoc(data', w, cl);
    PadMore(buf, Times(|w|, bpc), bpc);
  }

  /** The cluster loop of fat32_write_file.  It succeeds exactly when the device has enough free
      clusters; when it has not, NoRoom says what becomes of those that were taken (w). */
  method BuildChain(v: Volume, buf: seq<byte>) returns (ok: bool, first: nat, ghost w: seq<nat>)
    requires v.Valid() && |buf| + v.g.Bpc() <= 0x1_0000_0000
    modifies v
    ensures v.Valid() && v.faults >= old(v.faults) && v.g.Bpc() > 0
    ensures ok ==> FreshChain(old(v.fat), v.fat, w) && SameOutside(old(v.data), v.data, w)
    ensures ok ==> |w| == ClustersFor(|buf|, v.g.Bpc()) && first == if w == [] then 0 else w[0]
    ensures ok ==> InData(v.data, w) && Contents(v.data, w) == PadTo(buf, Times(|w|, v.g.Bpc()))
    ensures !ok ==> Confined(old(v.fat), old(v.data), v.fat, v.data, [], [])
    ensures ok ==> AllOn(w, v.Lim())
    ensures !ok && v.faults == old(v.faults) ==> NoRoom(old(v.fat), v.fat, w, v.Lim(), ClustersFor(|buf|, v.g.Bpc()))
  {
    ghost var f0, d0 := v.fat, v.data;
    first, w := 0, [];
    ok := v.ScratchBuffer();
    if !ok { return; }
    var bpc := v.g.Bpc();
    var total := CountClusters(|buf|, bpc);
    ClustersForBounds(|buf|, bpc);
    var prev, i := 0, 0;
    while i < total
      invariant 0 <= i <= total && i == |w| && v.Valid() && v.faults >= old(v.faults)
      invariant Building(f0, d0, v.fat, v.data, w, buf, bpc, first, prev, v.Lim())
    {
      TimesMono(i, total - 1, bpc);
      ghost var f1 := v.fat;
      var cl;
      ok, first, cl := AddChunk(v, first, prev, PadTo(buf[Times(i, bpc)..], bpc), buf, f0, d0, w);
      if !ok {
        if v.faults == old(v.faults) { WhyNot(f0, f1, v.fat, w, v.Lim(), total); }
        return;
      }
      prev, w, i := cl, w + [cl], i + 1;
    }
  }

  /** The chain as far as it is built, with the padded beginning of the buffer in it. */
  ghost predicate Building(f0: Fat, d0: Data, fat: Fat, data: Data, w: seq<nat>, buf: seq<byte>, bpc: nat, first: nat, prev: nat, l: nat) {
    && FreshChain(f0, fat, w) && SameOutside(d0, data, w) && AllOn(w, l)
    && (if w == [] then first == 0 else first == w[0] && prev == w[|w| - 1])
    && InData(data, w) && Contents(data, w) == PadTo(buf, Times(|w|, bpc))
  }

  /** One round of the loop. */
  method AddChunk(v: Volume, first0: nat, prev: nat, chunk: seq<byte>, ghost buf: seq<byte>, ghost f0: Fat, ghost d0: Data, ghost w: seq<nat>)
    returns (ok: bool, first: nat, cl: nat)
    requires v.Valid() && Building(f0, d0, v.fat, v.data, w, buf, v.g.Bpc(), first0, prev, v.Lim()) && |d0| == |f0|
    requires Times(|w|, v.g.Bpc()) < |buf| && chunk == PadTo(buf[Times(|w|, v.g.Bpc())..], v.g.Bpc())
    modifies v
    ensures v.Valid() && v.faults >= old(v.faults)
    ensures ok ==> Building(f0, d0, v.fat, v.data, w + [cl], buf, v.g.Bpc(), first, cl, v.Lim())
    ensures !ok ==> Confined(f0, d0, v.fat, v.data, [], [])
    ensures !ok && v.faults == old(v.faults) ==>
              || (NoFree(old(v.fat)) && v.fat == old(v.fat))
              || (NoFreeBelow(old(v.fat), v.Lim()) && !NoFree(old(v.fat)) && (|w| < GUARD ==> v.fat == f0))
  {
    ghost var d1 := v.data;
    ok, first, cl := AddCluster(v, first0, prev, chunk, f0, d0, w);
    if ok { ChunkAdded(d1, w, buf, v.g.Bpc(), cl); }
  }

  /** fat32_write_file after the path lookup: build the new chain, then release the old one. */
  method ReplaceFile(v: Volume, buf: seq<byte>, exists_: bool, oldFirst: nat, ghost o: seq<nat>)
    returns (ok: bool, first: nat, ghost now: seq<nat>, ghost w: seq<nat>)
    requires v.Valid() && |buf| + v.g.Bpc() <= 0x1_0000_0000
    requires if exists_ && oldFirst >= 2 then o != [] && oldFirst == o[0] && Chain(v.fat, o) else o == []
    modifies v
    ensures v.Valid() && v.faults >= old(v.faults) && v.g.Bpc() > 0
    ensures Confined(old(v.fat), old(v.data), v.fat, v.data, o, now) && now == if ok then w else o
    ensures ok ==> File(v.fat, first, w) && |w| == ClustersFor(|buf|, v.g.Bpc()) && (forall x :: x in w ==> 2 <= x < |v.fat| && old(v.fat)[x] == 0)
    ensures ok ==> InData(v.data, w) && Contents(v.data, w) == PadTo(buf, Times(|w|, v.g.Bpc()))
    ensures ok && v.faults == old(v.faults) && |o| <= GUARD ==>
              forall x :: 0 <= x < |v.fat| && x !in w ==> v.fat[x] == if x in o then 0 else old(v.fat)[x]
    ensures ok ==> AllOn(w, v.Lim())
    ensures v.faults == old(v.faults) ==> (ok <==> ClustersFor(|buf|, v.g.Bpc()) <= |FreeBelow(old(v.fat), v.Lim())|)
    ensures v.faults == old(v.faults) && !ok ==> NoRoom(old(v.fat), v.fat, w, v.Lim(), ClustersFor(|buf|, v.g.Bpc()))
  {
    ghost var f0, d0 := v.fat, v.data;
    ok, first, w := BuildChain(v, buf);
    now := if ok then w else o;
    if !ok {
      if o != [] { ConfinedSpares(f0, d0, v.fat, v.data, [], [], o); }
      return;
    }
    FreshConfined(f0, d0, v.fat, v.data, w);
    FreshBelow(f0, v.fat, w, v.Lim());
    if exists_ && oldFirst >= 2 {
      ConfinedSpares(f0, d0, v.fat, v.data, [], w, o);
      ReleaseOld(v, oldFirst, f0, d0, o, w);
    }
  }

  /** fat32_free_chain on the chain of the replaced file. */
  method ReleaseOld(v: Volume, oldFirst: nat, ghost f0: Fat, ghost d0: Data, ghost o: seq<nat>, ghost w: seq<nat>)
    requires v.Valid() && Chain(v.fat, o) && Chain(f0, o) && oldFirst == o[0] && FreshChain(f0, v.fat, w)
    requires Confined(f0, d0, v.fat, v.data, [], w) && forall x :: x in o ==> x !in w
    modifies v
    ensures v.Valid() && v.faults >= old(v.faults) && v.data == old(v.data)
    ensures Confined(f0, d0, v.fat, v.data, o, w)
    ensures v.faults == old(v.faults) && |o| <= GUARD ==>
              forall x :: 0 <= x < |v.fat| && x !in w ==> v.fat[x] == if x in o then 0 else f0[x]
  {
    ChainIsReach(v.fat, o);
    assert LinkAt(v.fat, o, 0);
    ghost var f1 := v.fat;
    ghost var p := v.FreeChain(oldFirst);
    WalkOnChain(f1, o, p);
    if w != [] { ChainFrame(f1, v.fat, w); }
    if v.faults == old(v.faults) && |o| <= GUARD { WalkExtent(f1, p, GUARD); }
  }

  // ---- growing a directory ----

  /** Link to a cluster that is marked free. */
  predicate DanglesAt(fat: Fat, last: nat, x: nat) {
    last < |fat| && 2 <= x < |fat| && fat[last] == x && fat[x] == 0
  }

  /** dir_find_free_slots once no cluster of the directory has room: append a zeroed cluster
      after `last`, the k-th cluster of the directory d.  `freed` says that the cluster has been given
      to fat32_free_chain again, although the directory already links to it, and `broken` that it is
      free now; without any fault that happens
      exactly when every cluster of the device is taken and the table has a free entry left. */
  method ExtendDirectory(v: Volume, dirCluster: nat, last: nat, ghost d: seq<nat>, ghost k: nat)
    returns (ok: bool, freed: bool, newcl: nat, ghost now: seq<nat>, ghost broken: bool)
    requires v.Valid() && d != [] && Chain(v.fat, d) && 0 < k <= |d| && last == d[k - 1] && dirCluster == d[0]
    modifies v
    ensures v.Valid() && v.faults >= old(v.faults)
    ensures !broken ==> Confined(old(v.fat), old(v.data), v.fat, v.data, d, now) && now != [] && now[0] == d[0]
    ensures broken ==> !ok && freed && DanglesAt(v.fat, last, newcl) && IsPath(v.fat, d[..k] + [newcl])
    ensures v.faults == old(v.faults) ==> (ok <==> !NoFreeBelow(old(v.fat), v.Lim()))
    ensures v.faults == old(v.faults) ==> (broken <==> NoFreeBelow(old(v.fat), v.Lim()) && !NoFree(old(v.fat)))
    ensures ok ==> !broken && now == d[..k] + [newcl] && 2 <= newcl < |v.data| && v.data[newcl] == Zeros(v.g.Bpc())
    ensures !ok && !broken && v.faults == old(v.faults) ==> NoFree(v.fat) && now == d && v.fat == old(v.fat)
  {
    broken, freed := false, false;
    var first;
    newcl, first, now := Extend(v, dirCluster, last, d, k);
    if newcl == 0 { return false, false, 0, now, false; }
    ok := v.ScratchBuffer();
    if !ok { return; }
    ghost var f1, d1 := v.fat, v.data;
    OwnDataConfined(f1, d1, now, newcl, Zeros(v.g.Bpc()));
    ok := v.WriteCluster(newcl, Zeros(v.g.Bpc()));
    if ok {
      ConfinedTrans(old(v.fat), old(v.data), f1, d1, v.fat, v.data, d, now, now);
    } else {
      assert LinkAt(f1, now, k) && LinkAt(f1, now, k - 1);
      LoneStaysInRange(f1, newcl);
      freed := true;
      ghost var p := v.FreeChain(newcl);
      LonePath(f1, p, newcl);
      broken := v.fat[newcl] == 0;
      if broken { LastZeroed(f1, v.fat, now, k); } else { assert v.fat == f1; }
    }
  }

  /** A chain whose last cluster has been freed is still a path. */
  lemma {:induction false} LastZeroed(fat: Fat, fat': Fat, c: seq<nat>, k: nat)
    requires Chain(fat, c) && |c| == k + 1 && |fat'| == |fat| && forall x :: 0 <= x < |fat| && x != c[k] ==> fat'[x] == fat[x]
    ensures IsPath(fat', c)
  {
    ChainAcyclic(fat, c);
    forall i: nat | i < |c| ensures Hop(fat', c, i) { assert LinkAt(fat, c, i); }
  }

  /** Such a volume: the device of TableOutrunsDevice with all its clusters taken. */
  lemma FullDeviceExample()
    ensures var fat := seq(127104, i => if i < 127008 then EOC else 0); NoFreeBelow(fat, 127008) && !NoFree(fat)
  {
    var fat: Fat := seq(127104, i => if i < 127008 then EOC else 0);
    assert fat[127008] == 0;
  }

  lemma {:induction false} ChainEnd(fat: Fat, e: seq<nat>)
    requires Chain(fat, e)
    ensures e[|e| - 1] < |fat| && fat[e[|e| - 1]] >= EOC
  {
    assert LinkAt(fat, e, |e| - 1);
  }

  /** A dangling link ends the well-formedness of the directory: no chain at all starts there. */
  lemma {:induction false} DanglingHasNoChain(fat: Fat, p: seq<nat>, e: seq<nat>)
    requires IsPath(fat, p) && p != [] && p[|p| - 1] < |fat| && fat[p[|p| - 1]] == 0
    requires e != [] && e[0] == p[0]
    ensures !Chain(fat, e)
  {
    if Chain(fat, e) {
      ChainIsReach(fat, e);
      var n := |p| - 1;
      if |e| > n {
        PathsAgree(fat, p, e, n);
        ChainNonzero(fat, e, e[n]);
      } else {
        PathsAgree(fat, p, e, |e| - 1);
        PathStep(fat, p, |e| - 1);
        ChainEnd(fat, e);
      }
    }
  }

  /** What a dangling link leads to: as soon as the released cluster is handed out again, the
      directory and the new file share it. */
  lemma {:induction false} DanglingCrossLinks(fat: Fat, d: seq<nat>, x: nat)
    requires |fat| <= BAD && d != [] && DanglesAt(fat, d[|d| - 1], x) && x !in d
    requires forall i: nat :: i < |d| ==> 2 <= d[i] < |fat| && (i + 1 < |d| ==> fat[d[i]] == d[i + 1])
    ensures var fat' := fat[x := EOC]; Chain(fat', d + [x]) && Chain(fat', [x])
  {
    var fat' := fat[x := EOC];
    var e := d + [x];
    forall i: nat | i < |e| ensures LinkAt(fat', e, i) { }
    var f: seq<nat> := [x];
    assert LinkAt(fat', f, 0);
  }

  // ---- what a rewrite stores is what is read ----

  /** Of the padded buffer, a range inside the buffer is that range of it. */
  lemma {:induction false} PaddedSlice(buf: seq<byte>, n: nat, at: nat, size: nat)
    requires n >= |buf| && at + size <= |buf|
    ensures Slice(PadTo(buf, n), at, size) == buf[at..at + size]
  {
  }

  /** fat32_write_file and then both readers: fat32_read gives the buffer back, and fat32_read_at any
      range of it. */
  method RewriteThenRead(v: Volume, buf: seq<byte>, exists_: bool, oldFirst: nat, at: nat, size: nat, ghost o: seq<nat>)
    returns (ok: bool, first: nat, all: seq<byte>, part: seq<byte>, ghost w: seq<nat>)
    requires v.Valid() && |buf| + v.g.Bpc() <= 0x1_0000_0000 && at + size <= |buf|
    requires if exists_ && oldFirst >= 2 then o != [] && oldFirst == o[0] && Chain(v.fat, o) else o == []
    modifies v
    ensures v.Valid() && v.g.Bpc() > 0
    ensures v.faults == old(v.faults) ==> (ok <==> ClustersFor(|buf|, v.g.Bpc()) <= |FreeBelow(old(v.fat), v.Lim())|)
    ensures v.faults == old(v.faults) && ok ==> all == buf && part == buf[at..at + size]
  {
    ghost var now;
    ok, first, now, w := ReplaceFile(v, buf, exists_, oldFirst, o);
    all, part := [], [];
    if ok {
      all := Read(v, first, |buf|, w);
      part := ReadAt(v, first, at, size, w);
      ClustersForBounds(|buf|, v.g.Bpc());
      PaddedSlice(buf, Times(|w|, v.g.Bpc()), 0, |buf|);
      PaddedSlice(buf, Times(|w|, v.g.Bpc()), at, size);
    }
  }
}
