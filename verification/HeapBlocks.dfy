/** The heap of mem/mm/kheap.c seen as a sequence of blocks in address order, and
    the four ways the allocator changes it: split, take, merge and insert. */
module HeapBlocks {
  import opened Basics

  const HEADER: nat := 48
  const MIN_FREE: nat := 64

  /** One heap_block_t: `size` is the span the kernel records for it, header included. */
  datatype Block = Block(addr: nat, size: nat, pad: nat, free: bool)

  /** One chunk obtained from the frame allocator. */
  datatype Region = Region(base: nat, len: nat)

  /** The bytes a block really occupies: a free tail may record less than its own header. */
  function End(b: Block): nat {
    b.addr + if b.size < HEADER then HEADER else b.size
  }

  predicate BlockOk(b: Block) {
    && b.addr > 0 && b.addr % 16 == 0
    && b.size >= 16 && b.size % 16 == 0
    && (!b.free ==> b.pad % 16 == 0 && HEADER + b.pad <= b.size)
  }

  /** Block i and its successor are both free and adjacent. */
  predicate TouchAt(bs: seq<Block>, i: nat)
    requires i + 1 < |bs|
  {
    bs[i].free && bs[i + 1].free && bs[i].addr + bs[i].size == bs[i + 1].addr
  }

  /** No two neighbouring free blocks touch. */
  ghost predicate Coalesced(bs: seq<Block>) {
    forall i: nat :: i + 1 < |bs| ==> !TouchAt(bs, i)
  }

  predicate Inside(r: Region, b: Block) {
    r.base <= b.addr && b.addr + b.size + HEADER <= r.base + r.len
  }

  ghost predicate Home(rs: seq<Region>, b: Block) {
    exists k :: 0 <= k < |rs| && Inside(rs[k], b)
  }

  /** Block i is sound, lies inside a single region one header short of its end, and,
      header included, does not reach its successor. */
  ghost predicate Placed(bs: seq<Block>, rs: seq<Region>, i: nat)
    requires i < |bs|
  {
    BlockOk(bs[i]) && Home(rs, bs[i]) && (i + 1 < |bs| ==> End(bs[i]) <= bs[i + 1].addr)
  }

  predicate Apart(r: Region, s: Region) {
    r.base + r.len <= s.base || s.base + s.len <= r.base
  }

  ghost predicate RegionsApart(rs: seq<Region>) {
    forall i, j :: 0 <= i < j < |rs| ==> Apart(rs[i], rs[j])
  }

  function SizeSum(bs: seq<Block>): nat {
    if bs == [] then 0 else SizeSum(bs[..|bs| - 1]) + bs[|bs| - 1].size
  }

  function LenSum(rs: seq<Region>): nat {
    if rs == [] then 0 else LenSum(rs[..|rs| - 1]) + rs[|rs| - 1].len
  }

  lemma {:induction false} SizeSumAppend(a: seq<Block>, b: seq<Block>)
    ensures SizeSum(a + b) == SizeSum(a) + SizeSum(b)
  {
    if b == [] {
      assert a + b == a;
    } else {
      SizeSumAppend(a, b[..|b| - 1]);
      assert (a + b)[..|a + b| - 1] == a + b[..|b| - 1];
    }
  }

  ghost predicate WellFormed(bs: seq<Block>, rs: seq<Region>) {
    RegionsApart(rs) && forall i: nat :: i < |bs| ==> Placed(bs, rs, i)
  }

  /** Address order over any distance: every block ends before any later one begins. */
  lemma {:induction false} SortedThroughout(bs: seq<Block>, rs: seq<Region>, i: nat, j: nat)
    requires WellFormed(bs, rs) && i < j < |bs|
    ensures End(bs[i]) <= bs[j].addr
    decreases j
  {
    assert Placed(bs, rs, j - 1);
    if i < j - 1 { SortedThroughout(bs, rs, i, j - 1); }
  }

  // ---- the edits ----

  /** Block i becomes `used` bytes, in use; the rest, less one header, is a new free block. */
  function SplitAt(bs: seq<Block>, i: nat, used: nat, pad: nat): seq<Block>
    requires i < |bs| && used + HEADER <= bs[i].size
  {
    bs[..i] + [Block(bs[i].addr, used, pad, false),
               Block(bs[i].addr + used, bs[i].size - used - HEADER, 0, true)] + bs[i + 1..]
  }

  function TakeAt(bs: seq<Block>, i: nat, pad: nat): seq<Block>
    requires i < |bs|
  {
    bs[i := bs[i].(pad := pad, free := false)]
  }

  function ReleaseAt(bs: seq<Block>, i: nat): seq<Block>
    requires i < |bs|
  {
    bs[i := bs[i].(free := true)]
  }

  function MergeAt(bs: seq<Block>, i: nat): seq<Block>
    requires i + 1 < |bs|
  {
    bs[..i] + [bs[i].(size := bs[i].size + bs[i + 1].size)] + bs[i + 2..]
  }

  function InsertAt(bs: seq<Block>, i: nat, b: Block): seq<Block>
    requires i <= |bs|
  {
    bs[..i] + [b] + bs[i..]
  }

  // ---- what the edits keep ----

  lemma {:induction false} SumAt(bs: seq<Block>, i: nat)
    requires i < |bs|
    ensures SizeSum(bs) == SizeSum(bs[..i]) + bs[i].size + SizeSum(bs[i + 1..])
  {
    assert bs == bs[..i] + [bs[i]] + bs[i + 1..];
    SizeSumAppend(bs[..i] + [bs[i]], bs[i + 1..]);
    SizeSumAppend(bs[..i], [bs[i]]);
    assert SizeSum([bs[i]]) == SizeSum([]) + bs[i].size;
  }

  lemma {:induction false} SplitSum(bs: seq<Block>, i: nat, used: nat, pad: nat)
    requires i < |bs| && used + HEADER <= bs[i].size
    ensures SizeSum(SplitAt(bs, i, used, pad)) + HEADER == SizeSum(bs)
  {
    var cs := SplitAt(bs, i, used, pad);
    SumAt(bs, i);
    SumAt(cs, i);
    SumAt(cs[i + 1..], 0);
    assert cs[..i] == bs[..i] && cs[i + 1..][1..] == bs[i + 1..];
    assert SizeSum(cs[i + 1..][..0]) == 0;
  }

  /** The header lost at the end of a split-off tail keeps it from touching its successor. */
  lemma {:induction false} SplitCoalesced(bs: seq<Block>, rs: seq<Region>, i: nat, used: nat, pad: nat)
    requires WellFormed(bs, rs) && Coalesced(bs) && i < |bs| && used + MIN_FREE <= bs[i].size
    ensures Coalesced(SplitAt(bs, i, used, pad))
  {
    var cs := SplitAt(bs, i, used, pad);
    assert Placed(bs, rs, i);
    forall j: nat | j + 1 < |cs| ensures !TouchAt(cs, j) {
      if j + 1 < i { assert !TouchAt(bs, j); }
      if j > i + 1 { assert !TouchAt(bs, j - 1); }
    }
  }

  lemma {:induction false} SplitKeeps(bs: seq<Block>, rs: seq<Region>, i: nat, used: nat, pad: nat)
    requires WellFormed(bs, rs)
    requires i < |bs| && used % 16 == 0 && pad % 16 == 0
    requires HEADER + pad <= used && used + MIN_FREE <= bs[i].size
    ensures WellFormed(SplitAt(bs, i, used, pad), rs)
  {
    var cs := SplitAt(bs, i, used, pad);
    assert Placed(bs, rs, i);
    TailAligned(bs[i].addr, bs[i].size, used);
    SplitHome(rs, bs[i], cs[i], cs[i + 1]);
    forall j: nat | j < |cs| ensures Placed(cs, rs, j) {
      if j < i { assert Placed(bs, rs, j); }
      else if j > i + 1 { assert Placed(bs, rs, j - 1) && cs[j] == bs[j - 1]; }
    }
  }

  lemma {:induction false} TailAligned(addr: nat, size: nat, used: nat)
    requires addr % 16 == 0 && size % 16 == 0 && used % 16 == 0 && used + HEADER <= size
    ensures (addr + used) % 16 == 0 && (size - used - HEADER) % 16 == 0
  {
  }

  lemma {:induction false} SplitHome(rs: seq<Region>, b: Block, x: Block, y: Block)
    requires Home(rs, b) && x.addr == b.addr && x.size <= b.size
    requires b.addr <= y.addr && y.addr + y.size <= b.addr + b.size
    ensures Home(rs, x) && Home(rs, y)
  {
    var k :| 0 <= k < |rs| && Inside(rs[k], b);
    assert Inside(rs[k], x) && Inside(rs[k], y);
  }

  /** Changing flag and padding of one block moves no byte. */
  lemma {:induction false} SetKeeps(bs: seq<Block>, rs: seq<Region>, i: nat, b: Block)
    requires WellFormed(bs, rs) && i < |bs|
    requires b.addr == bs[i].addr && b.size == bs[i].size && BlockOk(b)
    ensures WellFormed(bs[i := b], rs) && SizeSum(bs[i := b]) == SizeSum(bs)
    ensures !b.free && Coalesced(bs) ==> Coalesced(bs[i := b])
  {
    var cs := bs[i := b];
    forall j: nat | j < |cs| ensures Placed(cs, rs, j) {
      assert Placed(bs, rs, j);
      var k :| 0 <= k < |rs| && Inside(rs[k], bs[j]);
      assert Inside(rs[k], cs[j]);
    }
    SumAt(bs, i);
    SumAt(cs, i);
    assert cs[..i] == bs[..i] && cs[i + 1..] == bs[i + 1..];
    if !b.free && Coalesced(bs) {
      forall j: nat | j + 1 < |cs| ensures !TouchAt(cs, j) { assert !TouchAt(bs, j); }
    }
  }

  lemma {:induction false} OneHome(rs: seq<Region>, k: nat, l: nat, x: nat)
    requires RegionsApart(rs) && k < |rs| && l < |rs|
    requires rs[k].base <= x < rs[k].base + rs[k].len && rs[l].base <= x < rs[l].base + rs[l].len
    ensures k == l
  {
  }

  /** Adjacent blocks come from the same region, and their union stays in it. */
  lemma {:induction false} UnionHome(rs: seq<Region>, a: Block, b: Block)
    requires RegionsApart(rs) && Home(rs, a) && Home(rs, b) && a.addr + a.size == b.addr
    ensures Home(rs, a.(size := a.size + b.size))
  {
    var k :| 0 <= k < |rs| && Inside(rs[k], a);
    var l :| 0 <= l < |rs| && Inside(rs[l], b);
    OneHome(rs, k, l, b.addr);
    assert Inside(rs[k], a.(size := a.size + b.size));
  }

  lemma {:induction false} MergeKeeps(bs: seq<Block>, rs: seq<Region>, i: nat)
    requires WellFormed(bs, rs) && i + 1 < |bs| && TouchAt(bs, i)
    ensures WellFormed(MergeAt(bs, i), rs)
  {
    var cs := MergeAt(bs, i);
    forall j: nat | j < |cs| ensures Placed(cs, rs, j) {
      assert Placed(bs, rs, if j <= i then j else j + 1);
      if j == i {
        assert Placed(bs, rs, i + 1);
        UnionHome(rs, bs[i], bs[i + 1]);
      } else if j < i {
        assert cs[j] == bs[j];
      } else {
        assert cs[j] == bs[j + 1];
      }
    }
  }

  lemma {:induction false} MergeSum(bs: seq<Block>, i: nat)
    requires i + 1 < |bs|
    ensures SizeSum(MergeAt(bs, i)) == SizeSum(bs)
  {
    var cs := MergeAt(bs, i);
    SumAt(bs, i);
    SumAt(bs[i + 1..], 0);
    SumAt(cs, i);
    assert cs[..i] == bs[..i] && cs[i + 1..] == bs[i + 1..][1..];
    assert SizeSum(bs[i + 1..][..0]) == 0;
  }

  /** Region `r` may enter the list at position i. */
  ghost predicate Fits(bs: seq<Block>, rs: seq<Region>, i: nat, r: Region) {
    && i <= |bs|
    && r.base > 0 && r.base % 16 == 0 && r.len % 16 == 0 && r.len >= MIN_FREE
    && (forall k :: 0 <= k < |rs| ==> Apart(rs[k], r))
    && (i > 0 ==> bs[i - 1].addr < r.base)
    && (i < |bs| ==> r.base < bs[i].addr)
  }

  function RegionBlock(r: Region): Block
    requires r.len >= HEADER
  {
    Block(r.base, r.len - HEADER, 0, true)
  }

  lemma {:induction false} HomeGrows(rs: seq<Region>, r: Region, b: Block)
    requires Home(rs, b)
    ensures Home(rs + [r], b)
  {
    var k :| 0 <= k < |rs| && Inside(rs[k], b);
    assert Inside((rs + [r])[k], b);
  }

  /** A new region enters the list as one block. */
  lemma {:induction false} InsertKeeps(bs: seq<Block>, rs: seq<Region>, i: nat, r: Region)
    requires WellFormed(bs, rs) && Fits(bs, rs, i, r)
    ensures WellFormed(InsertAt(bs, i, RegionBlock(r)), rs + [r])
  {
    var cs := InsertAt(bs, i, RegionBlock(r));
    var ss := rs + [r];
    assert Inside(ss[|rs|], cs[i]);
    if i > 0 { ApartFrom(bs, rs, i - 1, r); }
    if i < |bs| { ApartFrom(bs, rs, i, r); }
    forall j: nat | j < |cs| ensures Placed(cs, ss, j) {
      if j != i {
        var j' := if j < i then j else j - 1;
        assert Placed(bs, rs, j') && cs[j] == bs[j'];
        HomeGrows(rs, r, bs[j']);
      }
    }
  }

  /** The header lost at the end of every region keeps a new one from touching anything. */
  lemma {:induction false} InsertCoalesced(bs: seq<Block>, rs: seq<Region>, i: nat, r: Region)
    requires WellFormed(bs, rs) && Fits(bs, rs, i, r) && Coalesced(bs)
    ensures Coalesced(InsertAt(bs, i, RegionBlock(r)))
  {
    var cs := InsertAt(bs, i, RegionBlock(r));
    if i > 0 { ApartFrom(bs, rs, i - 1, r); }
    if i < |bs| { ApartFrom(bs, rs, i, r); }
    forall j: nat | j + 1 < |cs| ensures !TouchAt(cs, j) {
      if j + 1 < i { assert !TouchAt(bs, j); }
      if j > i { assert !TouchAt(bs, j - 1); }
    }
  }

  lemma {:induction false} ApartFrom(bs: seq<Block>, rs: seq<Region>, j: nat, r: Region)
    requires WellFormed(bs, rs) && j < |bs|
    requires forall k :: 0 <= k < |rs| ==> Apart(rs[k], r)
    ensures bs[j].addr < r.base ==> bs[j].addr + bs[j].size + HEADER <= r.base
    ensures r.base < bs[j].addr ==> r.base + r.len <= bs[j].addr
  {
    assert Placed(bs, rs, j);
    var k :| 0 <= k < |rs| && Inside(rs[k], bs[j]);
    assert Apart(rs[k], r);
  }

  lemma {:induction false} InsertSum(bs: seq<Block>, i: nat, b: Block)
    requires i <= |bs|
    ensures SizeSum(InsertAt(bs, i, b)) == SizeSum(bs) + b.size
  {
    var cs := InsertAt(bs, i, b);
    SumAt(cs, i);
    assert cs[..i] == bs[..i] && cs[i + 1..] == bs[i..];
    SizeSumAppend(bs[..i], bs[i..]);
    assert bs[..i] + bs[i..] == bs;
  }

  // ---- freeing ----

  /** What kheap_free makes of the list when it frees block k: release it, absorb a free
      adjacent successor, then let a free adjacent predecessor absorb the result. */
  function Freed(bs: seq<Block>, k: nat): seq<Block>
    requires k < |bs|
  {
    CoalesceAt(ReleaseAt(bs, k), k)
  }

  function CoalesceAt(r: seq<Block>, k: nat): seq<Block>
    requires k < |r|
  {
    var m := Joined(r, k);
    if k > 0 && TouchAt(m, k - 1) then MergeAt(m, k - 1) else m
  }

  function Joined(r: seq<Block>, k: nat): (m: seq<Block>)
    requires k < |r|
    ensures k < |m|
  {
    if k + 1 < |r| && TouchAt(r, k) then MergeAt(r, k) else r
  }

  /** One merge on either side is enough: afterwards no two free neighbours touch anywhere. */
  lemma {:induction false} FreedCoalesced(bs: seq<Block>, k: nat)
    requires Coalesced(bs) && k < |bs|
    ensures Coalesced(Freed(bs, k))
  {
    var r := ReleaseAt(bs, k);
    var m := Joined(r, k);
    forall j: nat | j + 1 < |m| && j + 1 != k ensures !TouchAt(m, j) {
      if j + 1 < k { assert !TouchAt(bs, j); }
      else if |m| == |r| { assert j > k ==> !TouchAt(bs, j); }
      else { assert !TouchAt(bs, j + 1); }
    }
    var f := Freed(bs, k);
    if |f| < |m| {
      forall j: nat | j + 1 < |f| ensures !TouchAt(f, j) {
        if j + 1 < k { assert !TouchAt(m, j); } else { assert !TouchAt(m, j + 1); }
      }
    } else {
      forall j: nat | j + 1 < |f| ensures !TouchAt(f, j) {
        if j + 1 != k { assert !TouchAt(m, j); }
      }
    }
  }

  lemma {:induction false} FreedKeeps(bs: seq<Block>, rs: seq<Region>, k: nat)
    requires WellFormed(bs, rs) && k < |bs|
    ensures WellFormed(Freed(bs, k), rs) && SizeSum(Freed(bs, k)) == SizeSum(bs)
    ensures WellFormed(ReleaseAt(bs, k), rs) && WellFormed(Joined(ReleaseAt(bs, k), k), rs)
  {
    assert Placed(bs, rs, k);
    SetKeeps(bs, rs, k, bs[k].(free := true));
    var r := ReleaseAt(bs, k);
    if k + 1 < |r| && TouchAt(r, k) { MergeKeeps(r, rs, k); MergeSum(r, k); }
    var m := Joined(r, k);
    if k > 0 && TouchAt(m, k - 1) { MergeKeeps(m, rs, k - 1); MergeSum(m, k - 1); }
  }

  // ---- payloads ----

  /** The pointer kheap_alloc hands out for a block. */
  function Payload(b: Block): nat {
    b.addr + HEADER + b.pad
  }

  ghost function Payloads(bs: seq<Block>): set<nat> {
    set i | 0 <= i < |bs| && !bs[i].free :: Payload(bs[i])
  }

  /** A live payload shares no byte with any other block, header or payload. */
  lemma {:induction false} PayloadIsolated(bs: seq<Block>, rs: seq<Region>, i: nat, j: nat, x: nat)
    requires WellFormed(bs, rs) && i < |bs| && j < |bs| && i != j && !bs[i].free
    requires Payload(bs[i]) <= x < bs[i].addr + bs[i].size
    ensures !(bs[j].addr <= x < End(bs[j]))
  {
    assert Placed(bs, rs, i) && Placed(bs, rs, j);
    if i < j { SortedThroughout(bs, rs, i, j); } else { SortedThroughout(bs, rs, j, i); }
  }

  /** Looking 48 bytes below a live payload finds a list header exactly when there is no padding. */
  lemma {:induction false} HeaderFoundIffNoPad(bs: seq<Block>, rs: seq<Region>, i: nat)
    requires WellFormed(bs, rs) && i < |bs| && !bs[i].free
    ensures (exists j :: 0 <= j < |bs| && bs[j].addr == Payload(bs[i]) - HEADER) <==> bs[i].pad == 0
  {
    assert Placed(bs, rs, i);
    forall j | 0 <= j < |bs| && bs[j].addr == bs[i].addr + bs[i].pad ensures bs[i].pad == 0 {
      if i < j { SortedThroughout(bs, rs, i, j); }
      if j < i { SortedThroughout(bs, rs, j, i); }
    }
  }

  /** A block for a page-aligned request has padding, and its header is not found. */
  lemma {:induction false} PaddedExample()
    ensures var bs, rs := [Block(0x1000, 0x1FD0, 0xFD0, false)], [Region(0x1000, 0x2000)];
            WellFormed(bs, rs) && Payload(bs[0]) == 0x2000 && !(exists j :: 0 <= j < |bs| && bs[j].addr == Payload(bs[0]) - HEADER)
  {
    var bs, rs := [Block(0x1000, 0x1FD0, 0xFD0, false)], [Region(0x1000, 0x2000)];
    assert Inside(rs[0], bs[0]);
    assert Placed(bs, rs, 0);
  }

  lemma {:induction false} DistinctAddresses(bs: seq<Block>, rs: seq<Region>, i: nat, j: nat)
    requires WellFormed(bs, rs) && i < |bs| && j < |bs| && bs[i].addr == bs[j].addr
    ensures i == j
  {
    if i < j { SortedThroughout(bs, rs, i, j); }
    if j < i { SortedThroughout(bs, rs, j, i); }
  }

  /** Payload pointers identify blocks. */
  lemma {:induction false} DistinctPayloads(bs: seq<Block>, rs: seq<Region>, i: nat, j: nat)
    requires WellFormed(bs, rs) && i < |bs| && j < |bs| && !bs[i].free && !bs[j].free && Payload(bs[i]) == Payload(bs[j])
    ensures i == j
  {
    assert Placed(bs, rs, i) && Placed(bs, rs, j);
    if i < j { SortedThroughout(bs, rs, i, j); }
    if j < i { SortedThroughout(bs, rs, j, i); }
  }

  /** Freeing block k removes its payload and no other. */
  lemma {:induction false} FreedPayloads(bs: seq<Block>, rs: seq<Region>, k: nat)
    requires WellFormed(bs, rs) && k < |bs| && !bs[k].free
    ensures Payloads(Freed(bs, k)) == Payloads(bs) - {Payload(bs[k])}
  {
    var r := ReleaseAt(bs, k);
    forall p ensures p in Payloads(r) <==> p in Payloads(bs) - {Payload(bs[k])} {
      if p in Payloads(bs) && p != Payload(bs[k]) {
        var i :| 0 <= i < |bs| && !bs[i].free && Payload(bs[i]) == p;
        assert r[i] == bs[i];
      }
      if p in Payloads(r) {
        var i :| 0 <= i < |r| && !r[i].free && Payload(r[i]) == p;
        assert r[i] == bs[i];
        if p == Payload(bs[k]) { DistinctPayloads(bs, rs, i, k); }
      }
    }
    var m := Joined(r, k);
    if |m| < |r| { MergePayloads(r, k); }
    if k > 0 && TouchAt(m, k - 1) { MergePayloads(m, k - 1); }
  }

  lemma {:induction false} MergePayloads(bs: seq<Block>, i: nat)
    requires i + 1 < |bs| && TouchAt(bs, i)
    ensures Payloads(MergeAt(bs, i)) == Payloads(bs)
  {
    var cs := MergeAt(bs, i);
    forall p ensures p in Payloads(cs) <==> p in Payloads(bs) {
      if p in Payloads(bs) {
        var j :| 0 <= j < |bs| && !bs[j].free && Payload(bs[j]) == p;
        assert cs[if j < i then j else j - 1] == bs[j];
      }
      if p in Payloads(cs) {
        var j :| 0 <= j < |cs| && !cs[j].free && Payload(cs[j]) == p;
        assert cs[j] == bs[if j < i then j else j + 1];
      }
    }
  }

  // ---- allocating ----

  /** Alignments are powers of two. */
  predicate IsPow2(n: nat) {
    n == 1 || (n > 1 && n % 2 == 0 && IsPow2(n / 2))
  }

  /** v modulo al, by repeated subtraction. */
  function Remainder(v: nat, al: nat): (r: nat)
    requires al > 0
    ensures r < al
  {
    if v < al then v else Remainder(v - al, al)
  }

  lemma {:induction false} RemainderIsMod(v: nat, al: nat)
    requires al > 0
    ensures Remainder(v, al) == v % al
  {
    if v >= al {
      RemainderIsMod(v - al, al);
      ModStep(v, al);
    } else {
      assert v % al == v;
    }
  }

  lemma {:induction false} ModStep(v: nat, al: nat)
    requires al > 0 && v >= al
    ensures (v - al) % al == v % al
  {
    var q, r := v / al, v % al;
    var q', r' := (v - al) / al, (v - al) % al;
    assert v == al * q + r && v - al == al * q' + r';
    assert r - r' == al * (q' + 1 - q);
    MulGrows(al, q' + 1 - q);
  }

  /** kheap.c align_up for a power of two: the least multiple of `al` not below `v`. */
  function AlignUp(v: nat, al: nat): nat
    requires al > 0
  {
    var r := Remainder(v, al);
    if r == 0 then v else v + al - r
  }

  lemma {:induction false} Pow2Shape(n: nat)
    requires IsPow2(n)
    ensures n in {1, 2, 4, 8} || (n >= 16 && n % 16 == 0)
  {
    if n > 8 { assert IsPow2(n / 2); assert IsPow2(n / 2 / 2); assert IsPow2(n / 2 / 2 / 2); assert IsPow2(n / 2 / 2 / 2 / 2); }
  }

  /** On a 16-aligned address small alignments need no padding, and padding never breaks 16-alignment. */
  lemma {:induction false} AlignUpFacts(v: nat, al: nat)
    requires IsPow2(al) && v % 16 == 0
    ensures v <= AlignUp(v, al) < v + al
    ensures AlignUp(v, al) % 16 == 0 && Remainder(AlignUp(v, al), al) == 0
    ensures al <= 16 ==> AlignUp(v, al) == v
  {
    Pow2Shape(al);
    RemainderFacts(v, al);
    if al > 16 {
      RemainderAligned(v, al);
      Complement16(v, al, Remainder(v, al));
    } else {
      RemainderIsMod(v, al);
      SmallDivides(v, al);
    }
  }

  lemma {:induction false} Complement16(v: nat, al: nat, r: nat)
    requires v % 16 == 0 && al % 16 == 0 && r % 16 == 0 && r < al
    ensures (v + al - r) % 16 == 0
  {
  }

  lemma {:induction false} SmallDivides(v: nat, al: nat)
    requires al in {1, 2, 4, 8, 16} && v % 16 == 0
    ensures v % al == 0
  {
    var q := v / 16;
    if al == 2 { assert v == 2 * (8 * q); }
    else if al == 4 { assert v == 4 * (4 * q); }
    else if al == 8 { assert v == 8 * (2 * q); }
  }

  lemma {:induction false} RemainderFacts(v: nat, al: nat)
    requires al > 0
    ensures Remainder(v, al) < al && Remainder(v, al) <= v
    ensures Remainder(v, al) == 0 || Remainder(v + al - Remainder(v, al), al) == 0
  {
    if v < al {
      assert Remainder(v + al - v, al) == Remainder(0, al) == 0;
    } else {
      RemainderFacts(v - al, al);
    }
  }

  lemma {:induction false} RemainderAligned(v: nat, al: nat)
    requires al > 0 && al % 16 == 0 && v % 16 == 0
    ensures Remainder(v, al) % 16 == 0
  {
    if v >= al { RemainderAligned(v - al, al); }
  }

  function PadFor(b: Block, al: nat): int
    requires al > 0
  {
    AlignUp(b.addr + HEADER, al) - (b.addr + HEADER)
  }

  /** What the padding of a 16-aligned block can be, and what it does to a 16-aligned request. */
  lemma {:induction false} PadFacts(b: Block, size: nat, al: nat)
    requires IsPow2(al) && b.addr % 16 == 0
    ensures 0 <= PadFor(b, al) < al && PadFor(b, al) % 16 == 0
    ensures al <= 16 ==> PadFor(b, al) == 0
    ensures Remainder(b.addr + HEADER + PadFor(b, al), al) == 0
    ensures size % 16 == 0 ==> (HEADER + PadFor(b, al) + size) % 16 == 0
  {
    AlignUpFacts(b.addr + HEADER, al);
    Mod16(b.addr + HEADER, AlignUp(b.addr + HEADER, al), size);
  }

  lemma {:induction false} Mod16(v: nat, w: nat, size: nat)
    requires v % 16 == 0 && w % 16 == 0
    ensures (w - v) % 16 == 0
    ensures size % 16 == 0 ==> (HEADER + (w - v) + size) % 16 == 0
  {
  }

  predicate FitsRequest(b: Block, size: nat, al: nat)
    requires al > 0
  {
    b.free && HEADER + PadFor(b, al) + size <= b.size
  }

  /** k is the lowest-addressed block that can hold the request. */
  ghost predicate FirstFit(bs: seq<Block>, k: nat, size: nat, al: nat)
    requires al > 0
  {
    k < |bs| && FitsRequest(bs[k], size, al) && forall j :: 0 <= j < k ==> !FitsRequest(bs[j], size, al)
  }

  /** The list after block k serves a request for `used` bytes, header and padding included. */
  function Allocated(bs: seq<Block>, k: nat, used: nat, pad: nat): seq<Block>
    requires k < |bs| && used <= bs[k].size
  {
    if bs[k].size - used >= MIN_FREE then SplitAt(bs, k, used, pad) else TakeAt(bs, k, pad)
  }

  lemma {:induction false} AllocatedKeeps(bs: seq<Block>, rs: seq<Region>, k: nat, used: nat, pad: nat)
    requires WellFormed(bs, rs) && Coalesced(bs) && k < |bs| && bs[k].free
    requires used % 16 == 0 && pad % 16 == 0 && HEADER + pad <= used <= bs[k].size
    ensures WellFormed(Allocated(bs, k, used, pad), rs) && Coalesced(Allocated(bs, k, used, pad))
    ensures SizeSum(Allocated(bs, k, used, pad)) + (if bs[k].size - used >= MIN_FREE then HEADER else 0) == SizeSum(bs)
  {
    if bs[k].size - used >= MIN_FREE {
      SplitKeeps(bs, rs, k, used, pad);
      SplitCoalesced(bs, rs, k, used, pad);
      SplitSum(bs, k, used, pad);
    } else {
      assert Placed(bs, rs, k);
      SetKeeps(bs, rs, k, bs[k].(pad := pad, free := false));
    }
  }

  /** Allocation adds exactly one payload, distinct from all live ones. */
  lemma {:induction false} AllocatedPayloads(bs: seq<Block>, rs: seq<Region>, k: nat, used: nat, pad: nat)
    requires WellFormed(bs, rs) && k < |bs| && bs[k].free && HEADER + pad <= used <= bs[k].size
    ensures Payloads(Allocated(bs, k, used, pad)) == Payloads(bs) + {bs[k].addr + HEADER + pad}
    ensures bs[k].addr + HEADER + pad !in Payloads(bs)
  {
    var cs := Allocated(bs, k, used, pad);
    var d := |cs| - |bs|;
    forall p ensures p in Payloads(cs) <==> p in Payloads(bs) + {bs[k].addr + HEADER + pad} {
      if p in Payloads(bs) {
        var i :| 0 <= i < |bs| && !bs[i].free && Payload(bs[i]) == p;
        assert cs[if i < k then i else i + d] == bs[i];
      }
      if p in Payloads(cs) {
        var i :| 0 <= i < |cs| && !cs[i].free && Payload(cs[i]) == p;
        if i < k { assert cs[i] == bs[i]; } else if i > k { assert cs[i] == bs[i - d]; }
      }
      if p == bs[k].addr + HEADER + pad { assert Payload(cs[k]) == p && !cs[k].free; }
    }
    forall i | 0 <= i < |bs| && !bs[i].free ensures Payload(bs[i]) != bs[k].addr + HEADER + pad {
      assert Placed(bs, rs, i) && Placed(bs, rs, k);
      if i < k { SortedThroughout(bs, rs, i, k); } else { SortedThroughout(bs, rs, k, i); }
    }
  }

  /** A block may shrink in place. */
  lemma {:induction false} ShrinkKeeps(bs: seq<Block>, rs: seq<Region>, k: nat, b: Block)
    requires WellFormed(bs, rs) && k < |bs| && b.addr == bs[k].addr && BlockOk(b) && HEADER <= b.size <= bs[k].size
    ensures WellFormed(bs[k := b], rs)
  {
    var cs := bs[k := b];
    forall j: nat | j < |cs| ensures Placed(cs, rs, j) {
      assert Placed(bs, rs, j);
      if j == k {
        var m :| 0 <= m < |rs| && Inside(rs[m], bs[k]);
        assert Inside(rs[m], b);
      }
    }
  }

  /** bs with one more region block in it. */
  ghost predicate OneGrowth(bs: seq<Block>, cs: seq<Block>) {
    exists i: nat, r: Region :: GrowthOf(bs, cs, i, r)
  }

  predicate GrowthOf(bs: seq<Block>, cs: seq<Block>, i: nat, r: Region) {
    i <= |bs| && r.len >= HEADER && cs == InsertAt(bs, i, RegionBlock(r))
  }

  ghost predicate NoFit(bs: seq<Block>, size: nat, al: nat)
    requires al > 0
  {
    forall j :: 0 <= j < |bs| ==> !FitsRequest(bs[j], size, al)
  }

  lemma {:induction false} GrowthPayloads(bs: seq<Block>, i: nat, b: Block)
    requires i <= |bs| && b.free
    ensures Payloads(InsertAt(bs, i, b)) == Payloads(bs)
  {
    var cs := InsertAt(bs, i, b);
    forall p ensures p in Payloads(cs) <==> p in Payloads(bs) {
      if p in Payloads(bs) {
        var j :| 0 <= j < |bs| && !bs[j].free && Payload(bs[j]) == p;
        assert cs[if j < i then j else j + 1] == bs[j];
      }
      if p in Payloads(cs) {
        var j :| 0 <= j < |cs| && !cs[j].free && Payload(cs[j]) == p;
        assert cs[j] == bs[if j < i then j else j - 1];
      }
    }
  }
}
