/** The kernel heap of mem/mm/kheap.c: a doubly linked, address-sorted list of headers
    in raw memory, grown from the frame allocator. */
module KernelHeapModel {
  import opened LittleEndian
  import opened FrameAllocation
  import opened HeapBlocks
  import opened HeapRuns

  const MAGIC: nat := 0x484541504B44414E
  const GROW_CHUNK: nat := 0x40_0000
  const GROW_MIN: nat := 0x1_0000

  /** A heap_block_t in memory; `next` and `prev` are addresses, 0 is the null pointer. */
  datatype Header = Header(magic: nat, size: nat, pad: nat, free: bool, next: nat, prev: nat)

  function AddrAt(bs: seq<Block>, i: int): nat {
    if 0 <= i < |bs| then bs[i].addr else 0
  }

  /** The header of block i is in memory, with both links right. */
  predicate Node(bs: seq<Block>, mem: map<nat, Header>, i: nat)
    requires i < |bs|
  {
    && bs[i].addr in mem
    && mem[bs[i].addr] == Header(MAGIC, bs[i].size, bs[i].pad, bs[i].free, AddrAt(bs, i + 1), AddrAt(bs, i - 1))
  }

  ghost predicate Linked(head: nat, bs: seq<Block>, mem: map<nat, Header>) {
    head == AddrAt(bs, 0) && forall i: nat :: i < |bs| ==> Node(bs, mem, i)
  }

  /** Memory after arbitrary bytes have been stored in [lo, hi): headers it overlaps are gone. */
  function Clobber(mem: map<nat, Header>, lo: nat, hi: nat): map<nat, Header> {
    map a | a in mem && (hi <= a || a + HEADER <= lo) :: mem[a]
  }

  predicate PageRegion(r: Region) {
    r.base > 0 && r.base % FRAME_SIZE == 0 && r.len % FRAME_SIZE == 0 && r.len >= GROW_MIN
  }

  lemma {:induction false} PageAligned(r: Region)
    requires PageRegion(r)
    ensures r.base % 16 == 0 && r.len % 16 == 0
  {
    var b, l := r.base / FRAME_SIZE, r.len / FRAME_SIZE;
    assert r.base == 16 * (256 * b) && r.len == 16 * (256 * l);
  }

  /** A region consists of frames that the frame allocator does not consider free. */
  ghost predicate Taken(r: Region, free: set<nat>) {
    forall f :: r.base / FRAME_SIZE <= f < (r.base + r.len) / FRAME_SIZE ==> f !in free
  }

  ghost predicate Backed(rs: seq<Region>, free: set<nat>) {
    forall k :: 0 <= k < |rs| ==> PageRegion(rs[k]) && Taken(rs[k], free)
  }

  /** A chunk of frames that were free a moment ago lies apart from every region. */
  lemma {:induction false} FreshChunkApart(r: Region, free: set<nat>, base: nat, len: nat)
    requires PageRegion(r) && Taken(r, free) && PageRegion(Region(base, len))
    requires RunAt(free, base / FRAME_SIZE, len / FRAME_SIZE)
    ensures Apart(r, Region(base, len))
  {
    var lo, start := r.base / FRAME_SIZE, base / FRAME_SIZE;
    var hi, count := (r.base + r.len) / FRAME_SIZE, len / FRAME_SIZE;
    assert start <= lo < start + count ==> lo in free;
    assert lo <= start < hi ==> start !in free;
    assert count > 0 && lo < hi;
  }

  lemma {:induction false} BackedShrinks(rs: seq<Region>, free: set<nat>, free': set<nat>)
    requires Backed(rs, free) && free' <= free
    ensures Backed(rs, free')
  {
    forall k | 0 <= k < |rs| ensures PageRegion(rs[k]) && Taken(rs[k], free') {
      assert Taken(rs[k], free);
    }
  }

  lemma {:induction false} BackedGrows(rs: seq<Region>, free: set<nat>, free': set<nat>, r: Region)
    requires Backed(rs, free) && PageRegion(r)
    requires Without(free, free', r.base / FRAME_SIZE, r.base / FRAME_SIZE + r.len / FRAME_SIZE)
    ensures Backed(rs + [r], free')
  {
    assert Taken(r, free');
    forall k | 0 <= k < |rs| + 1 ensures PageRegion((rs + [r])[k]) && Taken((rs + [r])[k], free') {
      if k < |rs| { assert Taken(rs[k], free); }
    }
  }

  /** Stores inside one block's payload destroy no header of the list. */
  lemma {:induction false} ClobberKeeps(head: nat, bs: seq<Block>, rs: seq<Region>, mem: map<nat, Header>, k: nat, lo: nat, hi: nat)
    requires WellFormed(bs, rs) && Linked(head, bs, mem) && k < |bs| && !bs[k].free
    requires Payload(bs[k]) <= lo <= hi <= bs[k].addr + bs[k].size
    ensures Linked(head, bs, Clobber(mem, lo, hi))
  {
    forall i: nat | i < |bs| ensures Node(bs, Clobber(mem, lo, hi), i) {
      assert Node(bs, mem, i) && Placed(bs, rs, i) && Placed(bs, rs, k);
      if i < k { SortedThroughout(bs, rs, i, k); }
      if k < i { SortedThroughout(bs, rs, k, i); }
    }
  }

  /** Memory agrees outside the given header addresses. */
  ghost predicate SameExcept(mem: map<nat, Header>, mem': map<nat, Header>, xs: set<nat>) {
    forall a :: a in mem && a !in xs ==> a in mem' && mem'[a] == mem[a]
  }

  /** Linking block b in at position i: three headers change. */
  lemma {:induction false} LinkInsert(bs: seq<Block>, rs: seq<Region>, mem: map<nat, Header>, mem': map<nat, Header>, i: nat, b: Block)
    requires WellFormed(bs, rs) && Linked(AddrAt(bs, 0), bs, mem) && i <= |bs|
    requires i > 0 ==> bs[i - 1].addr < b.addr
    requires i < |bs| ==> b.addr < bs[i].addr
    requires b.addr in mem' && mem'[b.addr] == Header(MAGIC, b.size, b.pad, b.free, AddrAt(bs, i), AddrAt(bs, i - 1))
    requires i > 0 ==> Node(bs, mem, i - 1) && bs[i - 1].addr in mem' && mem'[bs[i - 1].addr] == mem[bs[i - 1].addr].(next := b.addr)
    requires i < |bs| ==> Node(bs, mem, i) && bs[i].addr in mem' && mem'[bs[i].addr] == mem[bs[i].addr].(prev := b.addr)
    requires SameExcept(mem, mem', {b.addr, AddrAt(bs, i - 1), AddrAt(bs, i)})
    ensures var cs := InsertAt(bs, i, b); Linked(AddrAt(cs, 0), cs, mem')
  {
    var cs := InsertAt(bs, i, b);
    forall j: nat | j < |cs| ensures Node(cs, mem', j) {
      if j != i {
        var j' := if j < i then j else j - 1;
        assert cs[j] == bs[j'] && Node(bs, mem, j') && Placed(bs, rs, j');
        if j' + 1 < i { SortedThroughout(bs, rs, j', i - 1); }
        if j' > i { SortedThroughout(bs, rs, i, j'); }
        if i > 0 && j' >= i { SortedThroughout(bs, rs, i - 1, j'); }
        if i < |bs| && j' < i { SortedThroughout(bs, rs, j', i); }
      }
    }
  }

  /** Unlinking block i + 1 and growing block i by its size: at most two headers change. */
  lemma {:induction false} LinkMerge(bs: seq<Block>, rs: seq<Region>, mem: map<nat, Header>, mem': map<nat, Header>, i: nat)
    requires WellFormed(bs, rs) && Linked(AddrAt(bs, 0), bs, mem) && i + 1 < |bs|
    requires Node(bs, mem, i) && bs[i].addr in mem' && mem'[bs[i].addr] == mem[bs[i].addr].(size := bs[i].size + bs[i + 1].size, next := AddrAt(bs, i + 2))
    requires i + 2 < |bs| ==> Node(bs, mem, i + 2) && bs[i + 2].addr in mem' && mem'[bs[i + 2].addr] == mem[bs[i + 2].addr].(prev := bs[i].addr)
    requires SameExcept(mem, mem', {bs[i].addr, AddrAt(bs, i + 2)})
    ensures var cs := MergeAt(bs, i); Linked(AddrAt(cs, 0), cs, mem')
  {
    var cs := MergeAt(bs, i);
    assert Node(bs, mem, i);
    forall j: nat | j < |cs| ensures Node(cs, mem', j) {
      var j' := if j <= i then j else j + 1;
      assert Node(bs, mem, j') && Placed(bs, rs, j');
      if j' < i { SortedThroughout(bs, rs, j', i); }
      if j' > i { SortedThroughout(bs, rs, i, j'); }
      if i + 2 < |bs| && j' < i + 2 { SortedThroughout(bs, rs, j', i + 2); }
      if i + 2 < |bs| && j' > i + 2 { SortedThroughout(bs, rs, i + 2, j'); }
    }
  }

  /** Rewriting size, padding and flag of one header in place. */
  lemma {:induction false} LinkSet(bs: seq<Block>, rs: seq<Region>, mem: map<nat, Header>, i: nat, b: Block)
    requires WellFormed(bs, rs) && Linked(AddrAt(bs, 0), bs, mem) && i < |bs| && b.addr == bs[i].addr
    ensures b.addr in mem
    ensures Linked(AddrAt(bs, 0), bs[i := b], mem[b.addr := mem[b.addr].(size := b.size, pad := b.pad, free := b.free)])
  {
    assert Node(bs, mem, i);
    var mem' := mem[b.addr := mem[b.addr].(size := b.size, pad := b.pad, free := b.free)];
    var cs := bs[i := b];
    forall j: nat | j < |cs| ensures Node(cs, mem', j) {
      assert Node(bs, mem, j);
      if bs[j].addr == bs[i].addr { DistinctAddresses(bs, rs, i, j); }
    }
  }

  /** Requests are rounded up to 16 bytes, in 64-bit arithmetic. */
  function Round16(size: nat): nat {
    (size + 15) % TWO64 / 16 * 16
  }

  /** Bytes the search loop asks of a block, in 64-bit arithmetic. */
  function Need(size: nat, pad: nat): nat {
    (HEADER + pad + Round16(size)) % TWO64
  }

  /** The computed need covers header, padding and the whole request exactly when neither
      the rounding nor the sum leaves 64 bits; huge requests look small to the allocator. */
  lemma NeedCoversRequest(size: nat, pad: nat)
    requires size < TWO64 && pad < TWO64 - HEADER
    ensures HEADER + pad + size <= Need(size, pad) <==> size + 15 < TWO64 && HEADER + pad + Round16(size) < TWO64
  {
  }

  lemma HugeRequestLooksSmall()
    ensures Need(TWO64 - 32, 0) == 16
  {
  }

  lemma {:induction false} LenSumSnoc(rs: seq<Region>, r: Region)
    ensures LenSum(rs + [r]) == LenSum(rs) + r.len
  {
    assert (rs + [r])[..|rs|] == rs;
  }

  lemma {:induction false} NotInRegion(bs: seq<Block>, rs: seq<Region>, j: nat, r: Region)
    requires WellFormed(bs, rs) && j < |bs| && r.len > 0
    requires forall k :: 0 <= k < |rs| ==> Apart(rs[k], r)
    ensures bs[j].addr != r.base
  {
    assert Placed(bs, rs, j);
    var k :| 0 <= k < |rs| && Inside(rs[k], bs[j]);
    assert Apart(rs[k], r);
  }

  lemma {:induction false} NewRegionApart(bs: seq<Block>, rs: seq<Region>, free: set<nat>, r: Region)
    requires WellFormed(bs, rs) && Backed(rs, free) && PageRegion(r)
    requires RunAt(free, r.base / FRAME_SIZE, r.len / FRAME_SIZE)
    ensures forall k :: 0 <= k < |rs| ==> Apart(rs[k], r)
    ensures forall j :: 0 <= j < |bs| ==> bs[j].addr != r.base
  {
    forall k | 0 <= k < |rs| ensures Apart(rs[k], r) { FreshChunkApart(rs[k], free, r.base, r.len); }
    forall j | 0 <= j < |bs| ensures bs[j].addr != r.base { NotInRegion(bs, rs, j, r); }
  }

  lemma {:induction false} NewRegionSum(bs: seq<Block>, rs: seq<Region>, i: nat, r: Region, splits: nat)
    requires i <= |bs| && r.len >= HEADER && SizeSum(bs) + HEADER * (|rs| + splits) == LenSum(rs)
    ensures SizeSum(InsertAt(bs, i, RegionBlock(r))) + HEADER * (|rs| + 1 + splits) == LenSum(rs + [r])
  {
    InsertSum(bs, i, RegionBlock(r));
    LenSumSnoc(rs, r);
  }

  lemma {:induction false} RoundFacts(size: nat)
    requires size + 15 < TWO64
    ensures size <= Round16(size) < size + 16 && Round16(size) % 16 == 0
  {
  }

  /** There are no n consecutive free frames. */
  ghost predicate NoRun(free: set<nat>, n: nat) { forall s: nat :: !RunAt(free, s, n) }

  /** What one call of kheap_alloc does: it serves the request from the first block that fits
      in the present list or, if none does, in the list grown by one region; a null result
      means that neither list had room, and leaves all live payloads alone. */
  ghost predicate Outcome(bs: seq<Block>, mid: seq<Block>, k: nat, size: nat, al: nat, result: nat, cs: seq<Block>)
    requires al > 0
  {
    && (mid == bs || (OneGrowth(bs, mid) && NoFit(bs, size, al)))
    && (result == 0 ==> NoFit(mid, size, al) && Payloads(cs) == Payloads(bs))
    && (result != 0 ==>
          && FirstFit(mid, k, size, al)
          && 0 <= PadFor(mid[k], al)
          && result == mid[k].addr + HEADER + PadFor(mid[k], al)
          && Remainder(result, al) == 0 && (al <= 16 ==> result == mid[k].addr + HEADER)
          && cs == Allocated(mid, k, HEADER + PadFor(mid[k], al) + size, PadFor(mid[k], al))
          && Payloads(cs) == Payloads(bs) + {result} && result !in Payloads(bs))
  }

  /** A part of a run is a run. */
  lemma {:induction false} ShorterRun(free: set<nat>, s: nat, n: nat, k: nat)
    requires RunAt(free, s, n) && k <= n
    ensures RunAt(free, s, k) && !NoRun(free, k)
  {
  }

  class KernelHeap {
    const pmm: FrameAllocator
    var head: nat
    var allocatedBytes: nat
    var mem: map<nat, Header>
    ghost var blocks: seq<Block>
    ghost var regions: seq<Region>
    ghost var splits: nat

    /** The block list itself. */
    ghost predicate ListOk()
      reads this
    {
      && Linked(head, blocks, mem)
      && WellFormed(blocks, regions)
    }

    /** Regions come from the frame allocator, and every byte of them is accounted for. */
    ghost predicate RegionsOk()
      reads this, pmm, pmm.bitmap
    {
      && pmm.Valid()
      && Backed(regions, pmm.free) && 0 !in pmm.free
      && SizeSum(blocks) + HEADER * (|regions| + splits) == LenSum(regions)
    }

    ghost function State(): HeapState
      reads this
    {
      HeapState(blocks, regions, splits)
    }

    ghost predicate Valid()
      reads this, pmm, pmm.bitmap
    {
      ListOk() && Coalesced(blocks) && RegionsOk()
    }

    /** kheap.c kheap_init */
    constructor (pmm: FrameAllocator)
      requires pmm.Valid() && 0 !in pmm.free
      modifies pmm, pmm.bitmap
      ensures Valid() && this.pmm == pmm && splits == 0 && Payloads(blocks) == {}
      ensures blocks == [] <==> NoRun(old(pmm.free), GROW_MIN / FRAME_SIZE)
    {
      this.pmm := pmm;
      head, allocatedBytes, mem := 0, 0, map[];
      blocks, regions, splits := [], [], 0;
      new;
      var ok, r, i := GrowHeap();
      assert forall j :: 0 <= j < |blocks| ==> blocks[j].free;
    }

    /** kheap.c grow_heap: asks for 4 MiB, then halves down to 64 KiB. It fails only when there are no
        64 KiB in a row, and takes less than 4 MiB only when there was not the double in a row. */
    method GrowHeap() returns (ok: bool, ghost r: Region, ghost i: nat)
      requires Valid()
      modifies this`head, this`mem, this`blocks, this`regions, pmm, pmm.bitmap
      ensures Valid()
      ensures !ok ==> State() == old(State()) && pmm.free == old(pmm.free)
      ensures ok ==> GROW_MIN <= r.len <= GROW_CHUNK && Grows(old(State()), State(), i, r)
      ensures ok <==> !NoRun(old(pmm.free), GROW_MIN / FRAME_SIZE)
      ensures ok && r.len < GROW_CHUNK ==> NoRun(old(pmm.free), 2 * r.len / FRAME_SIZE)
      ensures ok ==> Without(old(pmm.free), pmm.free, r.base / FRAME_SIZE, r.base / FRAME_SIZE + r.len / FRAME_SIZE)
    {
      var chunk := GROW_CHUNK;
      while chunk >= GROW_MIN
        invariant Valid() && State() == old(State()) && pmm.free == old(pmm.free)
        invariant chunk in {0x40_0000, 0x20_0000, 0x10_0000, 0x8_0000, 0x4_0000, 0x2_0000, 0x1_0000, 0x8000}
        invariant chunk < GROW_CHUNK ==> NoRun(pmm.free, 2 * chunk / FRAME_SIZE)
      {
        ok, r, i := GrowBy(chunk);
        if ok {
          ShorterRun(old(pmm.free), r.base / FRAME_SIZE, chunk / FRAME_SIZE, GROW_MIN / FRAME_SIZE);
          return;
        }
        chunk := chunk / 2;
      }
      ok, r, i := false, Region(0, 0), 0;
    }

    /** One round of grow_heap's loop. */
    method GrowBy(chunk: nat) returns (ok: bool, ghost r: Region, ghost i: nat)
      requires Valid() && chunk >= GROW_MIN && chunk % FRAME_SIZE == 0
      modifies this`head, this`mem, this`blocks, this`regions, pmm, pmm.bitmap
      ensures Valid()
      ensures !ok ==> State() == old(State()) && pmm.free == old(pmm.free) && NoRun(pmm.free, chunk / FRAME_SIZE)
      ensures ok ==> r.len == chunk && Grows(old(State()), State(), i, r)
      ensures ok ==> RunAt(old(pmm.free), r.base / FRAME_SIZE, chunk / FRAME_SIZE)
      ensures ok ==> Without(old(pmm.free), pmm.free, r.base / FRAME_SIZE, r.base / FRAME_SIZE + chunk / FRAME_SIZE)
    {
      var phys := TakeChunk(chunk);
      r, i := Region(phys, chunk), 0;
      if phys == 0 { return false, r, i; }
      i := AddRegion(phys, chunk);
      NewRegionSum(old(blocks), old(regions), i, r, splits);
      ok := true;
    }

    /** The call to pmm_alloc_contig: a chunk never handed out before, or nothing. */
    method TakeChunk(chunk: nat) returns (phys: nat)
      requires Valid() && chunk >= GROW_MIN && chunk % FRAME_SIZE == 0
      modifies pmm, pmm.bitmap
      ensures pmm.Valid() && 0 !in pmm.free
      ensures phys == 0 ==> Backed(regions, pmm.free) && pmm.free == old(pmm.free) && NoRun(pmm.free, chunk / FRAME_SIZE)
      ensures phys != 0 ==> RunAt(old(pmm.free), phys / FRAME_SIZE, chunk / FRAME_SIZE)
      ensures phys != 0 ==> Without(old(pmm.free), pmm.free, phys / FRAME_SIZE, phys / FRAME_SIZE + chunk / FRAME_SIZE)
      ensures phys != 0 ==>
                && PageRegion(Region(phys, chunk)) && Backed(regions + [Region(phys, chunk)], pmm.free)
                && (forall k :: 0 <= k < |regions| ==> Apart(regions[k], Region(phys, chunk)))
                && (forall j :: 0 <= j < |blocks| ==> blocks[j].addr != phys)
    {
      ghost var free := pmm.free;
      phys := pmm.AllocContig(chunk / FRAME_SIZE);
      if phys == 0 {
        BackedShrinks(regions, free, pmm.free);
      } else {
        NewRegionApart(blocks, regions, free, Region(phys, chunk));
        BackedGrows(regions, free, pmm.free, Region(phys, chunk));
      }
    }

    /** kheap.c add_region */
    method AddRegion(base: nat, len: nat) returns (ghost i: nat)
      requires ListOk() && Coalesced(blocks)
      requires PageRegion(Region(base, len))
      requires forall k :: 0 <= k < |regions| ==> Apart(regions[k], Region(base, len))
      requires forall j :: 0 <= j < |blocks| ==> blocks[j].addr != base
      modifies this`head, this`mem, this`blocks, this`regions
      ensures ListOk() && Coalesced(blocks)
      ensures Fits(old(blocks), old(regions), i, Region(base, len))
      ensures blocks == InsertAt(old(blocks), i, RegionBlock(Region(base, len))) && regions == old(regions) + [Region(base, len)]
    {
      ghost var r := Region(base, len);
      PageAligned(r);
      assert RegionBlock(r) == Block(base, len - HEADER, 0, true);
      i := InsertFreeBlock(base, len - HEADER);
      InsertKeeps(old(blocks), regions, i, r);
      InsertCoalesced(old(blocks), regions, i, r);
      regions := regions + [r];
    }

    /** kheap.c insert_free_block */
    method InsertFreeBlock(block: nat, size: nat) returns (ghost i: nat)
      requires ListOk() && block > 0
      requires forall j :: 0 <= j < |blocks| ==> blocks[j].addr != block
      modifies this`head, this`mem, this`blocks
      ensures i <= |old(blocks)| && blocks == InsertAt(old(blocks), i, Block(block, size, 0, true))
      ensures i > 0 ==> old(blocks)[i - 1].addr < block
      ensures i < |old(blocks)| ==> block < old(blocks)[i].addr
      ensures Linked(head, blocks, mem)
    {
      ghost var b := Block(block, size, 0, true);
      var cur := head;
      if cur == 0 || block < cur {
        i := 0;
        assert |blocks| > 0 ==> Node(blocks, mem, 0) && Placed(blocks, regions, 0);
        mem := mem[block := Header(MAGIC, size, 0, true, cur, 0)];
        if cur != 0 { mem := mem[cur := mem[cur].(prev := block)]; }
        head := block;
        LinkInsert(blocks, regions, old(mem), mem, 0, b);
        blocks := InsertAt(blocks, 0, b);
        return;
      }
      ghost var k: nat := 0;
      assert Node(blocks, mem, 0);
      while mem[cur].next != 0 && mem[cur].next < block
        invariant k < |blocks| && cur == blocks[k].addr && cur < block && Node(blocks, mem, k)
        decreases |blocks| - k
      {
        cur := mem[cur].next;
        k := k + 1;
        assert Node(blocks, mem, k);
      }
      i := k + 1;
      assert i < |blocks| ==> Node(blocks, mem, i) && Placed(blocks, regions, i) && block < blocks[i].addr;
      assert Placed(blocks, regions, k);
      var next := mem[cur].next;
      mem := mem[block := Header(MAGIC, size, 0, true, next, cur)];
      if next != 0 { mem := mem[next := mem[next].(prev := block)]; }
      mem := mem[cur := mem[cur].(next := block)];
      LinkInsert(blocks, regions, old(mem), mem, i, b);
      blocks := InsertAt(blocks, i, b);
    }

    /** The first-fit search of kheap_alloc. */
    method FindFit(size: nat, al: nat) returns (found: bool, block: nat, ghost k: nat)
      requires ListOk() && IsPow2(al) && HEADER + al + size < TWO64
      ensures found ==> FirstFit(blocks, k, size, al) && block == blocks[k].addr
      ensures !found ==> forall j :: 0 <= j < |blocks| ==> !FitsRequest(blocks[j], size, al)
    {
      block, k := head, 0;
      while block != 0
        invariant k <= |blocks| && block == AddrAt(blocks, k)
        invariant forall j :: 0 <= j < k ==> !FitsRequest(blocks[j], size, al)
        decreases |blocks| - k
      {
        assert Node(blocks, mem, k) && Placed(blocks, regions, k);
        PadFacts(blocks[k], size, al);
        var h := mem[block];
        if h.free {
          var pad := AlignUp(block + HEADER, al) - (block + HEADER);
          assert pad == PadFor(blocks[k], al);
          if h.size >= (HEADER + pad + size) % TWO64 {
            return true, block, k;
          }
        }
        block, k := h.next, k + 1;
      }
      found := false;
      assert k < |blocks| ==> Placed(blocks, regions, k);
    }

    /** Carves a request out of the chosen block, as kheap_alloc does once the search succeeds. */
    method Serve(block: nat, size: nat, al: nat, ghost k: nat) returns (result: nat)
      requires ListOk() && Coalesced(blocks) && IsPow2(al) && size % 16 == 0
      requires FirstFit(blocks, k, size, al) && block == blocks[k].addr
      modifies this`mem, this`blocks, this`splits, this`allocatedBytes
      ensures ListOk() && Coalesced(blocks) && result != 0
      ensures Outcome(old(blocks), old(blocks), k, size, al, result, blocks)
      ensures Allocs(old(State()), State(), k, HEADER + PadFor(old(blocks)[k], al) + size, PadFor(old(blocks)[k], al))
      ensures SizeSum(blocks) + HEADER * splits == SizeSum(old(blocks)) + HEADER * old(splits)
    {
      ghost var bs := blocks;
      assert Node(bs, mem, k) && Placed(bs, regions, k);
      PadFacts(bs[k], size, al);
      result := AlignUp(block + HEADER, al);
      var pad := result - (block + HEADER);
      assert pad == PadFor(bs[k], al);
      var used := HEADER + pad + size;
      AllocatedKeeps(bs, regions, k, used, pad);
      AllocatedPayloads(bs, regions, k, used, pad);
      Carve(block, used, pad, k);
      allocatedBytes := (allocatedBytes + used) % TWO64;
      ClobberKeeps(head, blocks, regions, mem, k, result, result + size);
      mem := Clobber(mem, result, result + size);
    }

    /** Splits the block if the rest can hold another one, then marks it used. */
    method Carve(block: nat, used: nat, pad: nat, ghost k: nat)
      requires ListOk() && k < |blocks| && block == blocks[k].addr && blocks[k].free
      requires used % 16 == 0 && pad % 16 == 0 && HEADER + pad <= used <= blocks[k].size
      modifies this`mem, this`blocks, this`splits
      ensures blocks == Allocated(old(blocks), k, used, pad) && Linked(head, blocks, mem)
      ensures splits == old(splits) + (if old(blocks)[k].size - used >= MIN_FREE then 1 else 0)
    {
      assert Node(blocks, mem, k) && Placed(blocks, regions, k);
      var remaining := mem[block].size - used;
      if remaining >= MIN_FREE {
        Split(block, used, pad, k);
      } else {
        LinkSet(blocks, regions, mem, k, blocks[k].(pad := pad, free := false));
        mem := mem[block := mem[block].(pad := pad, free := false)];
        blocks := TakeAt(blocks, k, pad);
      }
    }

    /** The splitting branch of kheap_alloc. */
    method Split(block: nat, used: nat, pad: nat, ghost k: nat)
      requires ListOk() && k < |blocks| && block == blocks[k].addr && blocks[k].free
      requires used % 16 == 0 && pad % 16 == 0 && HEADER + pad <= used && used + MIN_FREE <= blocks[k].size
      modifies this`mem, this`blocks, this`splits
      ensures blocks == SplitAt(old(blocks), k, used, pad) && Linked(head, blocks, mem)
      ensures splits == old(splits) + 1
    {
      ghost var bs := blocks;
      assert Node(bs, mem, k) && Placed(bs, regions, k);
      var h := mem[block];
      var tail := block + used;
      mem := mem[tail := Header(MAGIC, h.size - used - HEADER, 0, true, h.next, block)];
      ghost var b := Block(block, used, pad, false);
      assert k + 1 < |bs| ==> Node(bs, old(mem), k + 1) && Placed(bs, regions, k + 1);
      if h.next != 0 { mem := mem[h.next := mem[h.next].(prev := tail)]; }
      mem := mem[block := mem[block].(next := tail, size := used)];
      mem := mem[block := mem[block].(pad := pad, free := false)];
      ShrinkKeeps(bs, regions, k, b);
      LinkSet(bs, regions, old(mem), k, b);
      ghost var cs := bs[k := b];
      ghost var mem1 := old(mem)[block := h.(size := used, pad := pad, free := false)];
      ghost var t := Block(tail, bs[k].size - used - HEADER, 0, true);
      assert Node(cs, mem1, k) && (k + 1 < |cs| ==> Node(cs, mem1, k + 1));
      LinkInsert(cs, regions, mem1, mem, k + 1, t);
      assert InsertAt(cs, k + 1, t) == SplitAt(bs, k, used, pad);
      blocks := SplitAt(bs, k, used, pad);
      splits := splits + 1;
    }

    /** kheap.c kheap_alloc.  `mid` is the list the successful (or last) search ran on and
        `k` the block it chose. */
    method Alloc(size0: nat, alignment: nat) returns (result: nat, ghost mid: seq<Block>, ghost k: nat)
      requires Valid() && (alignment == 0 || IsPow2(alignment)) && HEADER + alignment + size0 + 32 < TWO64
      modifies this, pmm, pmm.bitmap
      ensures Valid()
      ensures size0 == 0 ==> result == 0 && State() == old(State())
      ensures Reaches(old(State()), State())
      ensures alignment > 0 ==> result % alignment == 0
      ensures size0 > 0 ==> Outcome(old(blocks), mid, k, Round16(size0), if alignment == 0 then 16 else alignment, result, blocks)
      ensures size0 > 0 && result == 0 && mid == old(blocks) ==> NoRun(old(pmm.free), GROW_MIN / FRAME_SIZE)
    {
      ReachesSelf(State());
      if size0 == 0 { return 0, blocks, 0; }
      var al := if alignment == 0 then 16 else alignment;
      assert IsPow2(16) by { assert IsPow2(8) by { assert IsPow2(4); } }
      RoundFacts(size0);
      result, mid, k := AllocRounded(Round16(size0), al);
      RemainderIsMod(result, al);
    }

    /** One pass of kheap_alloc over the list. */
    method Attempt(size: nat, al: nat) returns (result: nat, ghost k: nat)
      requires Valid() && IsPow2(al) && size % 16 == 0 && HEADER + al + size < TWO64
      modifies this`mem, this`blocks, this`splits, this`allocatedBytes
      ensures Valid() && Outcome(old(blocks), old(blocks), k, size, al, result, blocks)
      ensures if result == 0 then State() == old(State()) else Step(old(State()), State())
    {
      var found, block;
      found, block, k := FindFit(size, al);
      result := 0;
      if found {
        result := Serve(block, size, al, k);
      }
    }

    method AllocRounded(size: nat, al: nat) returns (result: nat, ghost mid: seq<Block>, ghost k: nat)
      requires Valid() && IsPow2(al) && size % 16 == 0 && HEADER + al + size < TWO64
      modifies this, pmm, pmm.bitmap
      ensures Valid() && Outcome(old(blocks), mid, k, size, al, result, blocks)
      ensures Reaches(old(State()), State())
      ensures result == 0 && mid == old(blocks) ==> NoRun(old(pmm.free), GROW_MIN / FRAME_SIZE)
    {
      result, mid, k := 0, blocks, 0;
      ReachesSelf(State());
      var attempt := 0;
      while attempt < 2
        invariant 0 <= attempt <= 2 && Valid() && result == 0 && Reaches(old(State()), State())
        invariant Payloads(blocks) == Payloads(old(blocks))
        invariant attempt == 0 ==> blocks == old(blocks) && pmm.free == old(pmm.free)
        invariant attempt == 1 ==> OneGrowth(old(blocks), blocks)
        invariant attempt == 2 ==> OneGrowth(old(blocks), mid)
        invariant attempt > 0 ==> NoFit(old(blocks), size, al) && NoFit(mid, size, al)
      {
        mid := blocks;
        ghost var s := State();
        result, k := Attempt(size, al);
        if result != 0 {
          ReachesFurther(old(State()), s, State());
          return;
        }
        var ok, r, i := GrowHeap();
        if !ok { return; }
        ReachesFurther(old(State()), s, State());
        assert GrowthOf(mid, blocks, i, r);
        GrowthPayloads(mid, i, RegionBlock(r));
        attempt := attempt + 1;
      }
    }

    /** kheap.c unlink: block j leaves the pointer chain; its header stays behind in memory. */
    method Unlink(block: nat, ghost j: nat)
      requires ListOk() && j < |blocks| && block == blocks[j].addr
      modifies this`mem, this`head
      ensures head == if j == 0 then AddrAt(blocks, 1) else old(head)
      ensures j > 0 ==> Node(blocks, old(mem), j - 1) && blocks[j - 1].addr in mem
      ensures j > 0 ==> mem[blocks[j - 1].addr] == old(mem)[blocks[j - 1].addr].(next := AddrAt(blocks, j + 1))
      ensures j + 1 < |blocks| ==> Node(blocks, old(mem), j + 1) && blocks[j + 1].addr in mem
      ensures j + 1 < |blocks| ==> mem[blocks[j + 1].addr] == old(mem)[blocks[j + 1].addr].(prev := AddrAt(blocks, j - 1))
      ensures SameExcept(old(mem), mem, {AddrAt(blocks, j - 1), AddrAt(blocks, j + 1)})
    {
      assert Node(blocks, mem, j);
      assert j > 0 ==> Node(blocks, mem, j - 1) && Placed(blocks, regions, j - 1);
      assert j + 1 < |blocks| ==> Node(blocks, mem, j + 1) && Placed(blocks, regions, j + 1);
      if j > 0 { SortedThroughout(blocks, regions, j - 1, j); }
      if j + 1 < |blocks| { SortedThroughout(blocks, regions, j, j + 1); }
      var h := mem[block];
      if h.prev != 0 {
        mem := mem[h.prev := mem[h.prev].(next := h.next)];
      } else {
        head := h.next;
      }
      if h.next != 0 {
        mem := mem[h.next := mem[h.next].(prev := h.prev)];
      }
    }

    /** Absorbs block i + 1 into block i: the body shared by both halves of kheap.c coalesce. */
    method Absorb(block: nat, next: nat, ghost i: nat)
      requires ListOk() && i + 1 < |blocks| && TouchAt(blocks, i)
      requires block == blocks[i].addr && next == blocks[i + 1].addr
      modifies this`mem, this`head, this`blocks
      ensures ListOk() && blocks == MergeAt(old(blocks), i)
    {
      assert Node(blocks, mem, i) && Node(blocks, mem, i + 1);
      ghost var b := blocks[i].(size := blocks[i].size + blocks[i + 1].size);
      ghost var mem0 := mem;
      ghost var grown := mem[block := mem[block].(size := b.size)];
      Unlink(next, i + 1);
      mem := mem[block := mem[block].(size := mem[block].size + mem[next].size)];
      LinkMerge(blocks, regions, mem0, mem, i);
      MergeKeeps(blocks, regions, i);
      blocks := MergeAt(blocks, i);
    }

    /** kheap.c coalesce */
    method Coalesce(block: nat, ghost k: nat)
      requires ListOk() && k < |blocks| && block == blocks[k].addr && blocks[k].free
      requires forall j: nat :: j + 1 < |blocks| && j != k && j + 1 != k ==> !TouchAt(blocks, j)
      modifies this`mem, this`head, this`blocks
      ensures ListOk() && blocks == CoalesceAt(old(blocks), k)
    {
      ghost var r := blocks;
      assert Node(blocks, mem, k) && (k + 1 < |blocks| ==> Node(blocks, mem, k + 1));
      while mem[block].next != 0 && mem[mem[block].next].free && mem[block].next == block + mem[block].size
        invariant ListOk() && k < |blocks| && block == blocks[k].addr && Node(blocks, mem, k) && blocks[k].free
        invariant k + 1 < |blocks| ==> Node(blocks, mem, k + 1)
        invariant blocks == r || (blocks == Joined(r, k) && (k + 1 < |blocks| ==> !TouchAt(blocks, k)))
        decreases |blocks|
      {
        assert k + 1 < |blocks|;
        assert Node(blocks, mem, k + 1);
        assert TouchAt(blocks, k);
        assert k + 2 < |r| ==> !TouchAt(r, k + 1);
        Absorb(block, mem[block].next, k);
        assert Node(blocks, mem, k) && (k + 1 < |blocks| ==> Node(blocks, mem, k + 1));
      }
      assert k + 1 < |blocks| ==> Node(blocks, mem, k + 1) && Placed(blocks, regions, k + 1);
      assert blocks == Joined(r, k);
      assert k > 0 ==> Node(blocks, mem, k - 1) && Placed(blocks, regions, k - 1);
      var prev := mem[block].prev;
      if prev != 0 && mem[prev].free && block == prev + mem[prev].size {
        Absorb(prev, block, k - 1);
      }
    }

    /** kheap.c kheap_free.  The caller passes a pointer obtained from kheap_alloc without padding. */
    method Free(ptr: nat, ghost k: nat)
      requires Valid()
      requires ptr != 0 ==> k < |blocks| && !blocks[k].free && blocks[k].pad == 0 && ptr == Payload(blocks[k])
      modifies this`mem, this`head, this`blocks, this`allocatedBytes
      ensures Valid()
      ensures ptr == 0 ==> State() == old(State())
      ensures ptr != 0 ==> Frees(old(State()), State(), k) && Payloads(blocks) == Payloads(old(blocks)) - {ptr}
    {
      if ptr == 0 { return; }
      assert Node(blocks, mem, k) && Placed(blocks, regions, k);
      var block := ptr - HEADER;
      block := block - mem[block].pad;
      if mem[block].magic != MAGIC { return; }
      if allocatedBytes >= mem[block].size {
        allocatedBytes := allocatedBytes - mem[block].size;
      }
      FreedKeeps(blocks, regions, k);
      FreedPayloads(blocks, regions, k);
      FreedCoalesced(blocks, k);
      Release(block, k);
    }

    /** block_set_free followed by coalesce. */
    method Release(block: nat, ghost k: nat)
      requires ListOk() && Coalesced(blocks) && k < |blocks| && block == blocks[k].addr
      modifies this`mem, this`head, this`blocks
      ensures ListOk() && blocks == Freed(old(blocks), k)
    {
      ghost var bs := blocks;
      assert Node(bs, mem, k);
      FreedKeeps(bs, regions, k);
      LinkSet(bs, regions, mem, k, bs[k].(free := true));
      mem := mem[block := mem[block].(free := true)];
      blocks := ReleaseAt(bs, k);
      forall j: nat | j + 1 < |blocks| && j != k && j + 1 != k ensures !TouchAt(blocks, j) { assert !TouchAt(bs, j); }
      Coalesce(block, k);
    }

    /** The owner of a payload stores into it: no header is harmed. */
    method Store(lo: nat, hi: nat, ghost k: nat)
      requires Valid() && k < |blocks| && !blocks[k].free
      requires Payload(blocks[k]) <= lo <= hi <= blocks[k].addr + blocks[k].size
      modifies this`mem
      ensures Valid()
    {
      ClobberKeeps(head, blocks, regions, mem, k, lo, hi);
      mem := Clobber(mem, lo, hi);
    }
  }
}
