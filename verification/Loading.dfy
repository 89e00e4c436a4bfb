/** Mapping a program image into an address space (process/process.c). */
module Loading {
  import opened LittleEndian
  import opened FrameAllocation
  import opened PageTables
  import opened Paging
  import opened FrameLedger
  import opened AddressSpaces
  import opened UserMemory
  import opened ElfImage

  ghost predicate SameBytes(root: nat, lapic: nat, s: Life, t: Life) {
    forall w: nat :: InUser(w, lapic) ==> At(root, t, w) == At(root, s, w)
  }

  /** Page pn, absent before, has the bytes of `page`; everything else is as it was. */
  ghost predicate PageAdded(root: nat, lapic: nat, s: Life, t: Life, pn: nat, page: Page)
    requires |page| == PAGE
  {
    forall w: nat :: InUser(w, lapic) ==> AddedAt(root, s, t, pn, page, w)
  }

  ghost predicate AddedAt(root: nat, s: Life, t: Life, pn: nat, page: Page, w: nat)
    requires |page| == PAGE
  {
    if w / PAGE == pn then At(root, t, w) == Byte(page[w % PAGE]) && At(root, s, w) == Absent else At(root, t, w) == At(root, s, w)
  }

  /** A state of the machine that the ledger describes. */
  ghost predicate Sound(m: Machine, root: nat, s: Life, all: set<nat>, lapic: nat)
    reads m, m.pmm, m.pmm.bitmap
  {
    m.Valid() && Shows(m, s) && LifeOwned(root, s, all, lapic)
  }

  /** Address va is the start of page pn, in the user half or below it. */
  predicate PageStart(va: nat, pn: nat, lapic: nat) { va == pn * PAGE && (InUser(va, lapic) || va < USER_BASE) }

  /** A zeroed frame in the caller's hands. */
  method ZeroFrame(m: Machine, root: nat, ghost s: Life, ghost all: set<nat>, ghost lapic: nat) returns (g: nat, ghost t: Life)
    requires Sound(m, root, s, all, lapic)
    modifies m`mem, m.pmm, m.pmm.bitmap
    ensures Sound(m, root, t, all, lapic)
    ensures g == 0 ==> t == s && s.free == {}
    ensures g != 0 ==> g in s.free && t.free == s.free - {g}
    ensures g != 0 ==> SameBytes(root, lapic, s, t) && g !in s.held && t.held == s.held + {g} && t.pages == s.pages && g < |m.mem| && m.mem[g] == ZeroPage()
  {
    g := m.AllocFrame();
    if g == 0 { return 0, s; }
    ghost var s1 := s.(free := s.free - {g}, held := s.held + {g});
    TakeKeeps(s.mem, root, s.nodes, s.free, s.pages, s.held, all, lapic, {g});
    m.Fill(g, ZeroPage());
    t := s1.(mem := s1.mem[g := ZeroPage()]);
    FillKeeps(root, s1, all, lapic, g, ZeroPage());
    HeldFilled(root, s, s1, all, lapic, g, ZeroPage());
  }

  lemma {:induction false} HeldFilled(root: nat, s: Life, s1: Life, all: set<nat>, lapic: nat, g: nat, page: Page)
    requires LifeOwned(root, s1, all, lapic) && g < |s1.mem| == MAX_FRAMES && g in s1.held && |page| == PAGE && s1.mem == s.mem && s1.nodes == s.nodes
    ensures SameBytes(root, lapic, s, s1.(mem := s1.mem[g := page]))
  {
    var t := s1.(mem := s1.mem[g := page]);
    forall w: nat | InUser(w, lapic) ensures At(root, t, w) == At(root, s, w) {
      FillAt(root, s1, all, lapic, g, page, w);
    }
  }

  const PER_PAGE: nat := 4     // a page can take its own frame and three tables

  /** Why no page can be added at va: it is not a user address, something is there, or the memory may
      not suffice. */
  ghost predicate Refused(root: nat, s: Life, va: nat) {
    va < USER_BASE || At(root, s, va) != Absent || |s.free| <= PER_PAGE
  }

  /** A new zeroed page at va, as map_segment and map_user_stack add it; 0 if that fails, and then
      the frame goes back. */
  method NewPage(m: Machine, root: nat, va: nat, ghost pn: nat, ghost s: Life, ghost all: set<nat>, ghost lapic: nat) returns (frame: nat, ghost t: Life)
    requires Sound(m, root, s, all, lapic) && PageStart(va, pn, lapic)
    modifies m`mem, m.pmm, m.pmm.bitmap
    ensures frame == 0 ==> Sound(m, root, t, all, lapic) && t.held == s.held && SameBytes(root, lapic, s, t)
    ensures frame != 0 ==> Sound(m, root, t, all, lapic) && t.held == s.held && InUser(va, lapic)
    ensures frame != 0 ==> frame in t.pages && t.pages[frame] == pn && PageAdded(root, lapic, s, t, pn, ZeroPage())
    ensures frame != 0 ==> frame < |m.mem| && m.mem[frame] == ZeroPage()
    ensures frame == 0 ==> Refused(root, s, va)
    ensures frame != 0 ==> |s.free| <= |t.free| + PER_PAGE
  {
    ghost var s1;
    frame, s1 := ZeroFrame(m, root, s, all, lapic);
    if frame == 0 {
      t := s1;
    } else {
      frame, t := PlaceZero(m, root, va, frame, pn, s, s1, all, lapic);
    }
  }

  method PlaceZero(m: Machine, root: nat, va: nat, g: nat, ghost pn: nat, ghost s: Life, ghost s1: Life, ghost all: set<nat>, ghost lapic: nat) returns (frame: nat, ghost t: Life)
    requires Sound(m, root, s1, all, lapic) && PageStart(va, pn, lapic) && g != 0
    requires SameBytes(root, lapic, s, s1) && g !in s.held && s1.held == s.held + {g} && g < |m.mem| && m.mem[g] == ZeroPage()
    requires |s.free| == |s1.free| + 1
    modifies m`mem, m.pmm, m.pmm.bitmap
    ensures frame == 0 ==> Refused(root, s, va)
    ensures frame != 0 ==> |s.free| <= |t.free| + PER_PAGE
    ensures frame == 0 ==> Sound(m, root, t, all, lapic) && t.held == s.held && SameBytes(root, lapic, s, t)
    ensures frame != 0 ==> Sound(m, root, t, all, lapic) && t.held == s.held && InUser(va, lapic)
    ensures frame != 0 ==> frame in t.pages && t.pages[frame] == pn && PageAdded(root, lapic, s, t, pn, ZeroPage())
    ensures frame != 0 ==> frame < |m.mem| && m.mem[frame] == ZeroPage()
  {
    ghost var s2;
    var ok;
    ok, s2 := MapZero(m, root, va, g, pn, s, s1, all, lapic);
    frame, t := g, s2;
    if !ok {
      t := GiveBack(m, root, va, g, s, s1, s2, all, lapic);
      frame := 0;
    }
  }

  method MapZero(m: Machine, root: nat, va: nat, g: nat, ghost pn: nat, ghost s: Life, ghost s1: Life, ghost all: set<nat>, ghost lapic: nat) returns (ok: bool, ghost t: Life)
    requires Sound(m, root, s1, all, lapic) && PageStart(va, pn, lapic) && g != 0
    requires SameBytes(root, lapic, s, s1) && g !in s.held && s1.held == s.held + {g} && g < |m.mem| && m.mem[g] == ZeroPage()
    requires |s.free| == |s1.free| + 1
    modifies m`mem, m.pmm, m.pmm.bitmap
    ensures !ok ==> Refused(root, s, va)
    ensures ok ==> |s.free| <= |t.free| + PER_PAGE
    ensures !ok ==> m.Valid() && Shows(m, t) && (t == s1 || StepOk(root, lapic, s1, MapRefused(va), t))
    ensures ok ==> Sound(m, root, t, all, lapic) && t.held == s.held && InUser(va, lapic)
    ensures ok ==> g in t.pages && t.pages[g] == pn && PageAdded(root, lapic, s, t, pn, ZeroPage())
    ensures ok ==> g < |m.mem| && m.mem[g] == ZeroPage()
  {
    ok, t := MapHeld(m, root, va, g, USER_RW, pn, s1, all, lapic);
    if ok {
      MapTakesFew(root, lapic, s1, MapPage(va, pn, g, USER_RW), t, all);
      ZeroPageMapped(root, s, s1, t, all, lapic, va, pn, g);
    } else {
      WhyRefused(root, s, s1, t, all, lapic, va);
    }
  }

  lemma {:induction false} WhyRefused(root: nat, s: Life, s1: Life, t: Life, all: set<nat>, lapic: nat, va: nat)
    requires LifeOwned(root, s1, all, lapic) && SameBytes(root, lapic, s, s1) && |s.free| == |s1.free| + 1 && |s1.mem| == MAX_FRAMES
    requires InUser(va, lapic) || va < USER_BASE
    requires va >= USER_BASE ==> StepOk(root, lapic, s1, MapRefused(va), t) && (t.free == {} || LeafOf(s1.mem, root, s1.nodes, va) != NoLeaf)
    ensures Refused(root, s, va)
  {
    if va >= USER_BASE {
      MapTakesFew(root, lapic, s1, MapRefused(va), t, all);
      AtPage(root, s1, all, lapic, va);
      assert At(root, s1, va) == At(root, s, va);
    }
  }

  lemma {:induction false} ZeroPageMapped(root: nat, s: Life, s1: Life, t: Life, all: set<nat>, lapic: nat, va: nat, pn: nat, g: nat)
    requires LifeOwned(root, s1, all, lapic) && SameBytes(root, lapic, s, s1) && StepOk(root, lapic, s1, MapPage(va, pn, g, USER_RW), t)
    requires g < |s1.mem| == MAX_FRAMES && s1.mem[g] == ZeroPage() && g !in s.held && s1.held == s.held + {g}
    ensures LifeOwned(root, t, all, lapic) && PageAdded(root, lapic, s, t, pn, ZeroPage())
    ensures t.held == s.held && InUser(va, lapic) && g in t.pages && t.pages[g] == pn && |t.mem| == |s1.mem| && t.mem[g] == ZeroPage()
  {
    FramesKept(root, s1, t, all, lapic, va);
    StepKeepsOwned(root, lapic, s1, MapPage(va, pn, g, USER_RW), t, all);
    HeldAgain(s.held, s1.held, t.held, g);
    forall w: nat | InUser(w, lapic) ensures AddedAt(root, s, t, pn, ZeroPage(), w) {
      MapAt(root, s1, t, all, lapic, va, pn, g, USER_RW, w);
      assert At(root, s1, w) == At(root, s, w);
    }
  }

  lemma {:induction false} HeldAgain(before: set<nat>, during: set<nat>, after: set<nat>, g: nat)
    requires g !in before && during == before + {g} && after == during - {g}
    ensures after == before
  {
  }

  method GiveBack(m: Machine, root: nat, ghost va: nat, frame: nat, ghost s: Life, ghost s1: Life, ghost s2: Life, ghost all: set<nat>, ghost lapic: nat) returns (ghost t: Life)
    requires m.Valid() && Shows(m, s2) && LifeOwned(root, s1, all, lapic) && frame != 0 && frame !in s.held && s1.held == s.held + {frame} && |s1.mem| == MAX_FRAMES
    requires SameBytes(root, lapic, s, s1) && (s2 == s1 || StepOk(root, lapic, s1, MapRefused(va), s2))
    modifies m.pmm, m.pmm.bitmap
    ensures Sound(m, root, t, all, lapic) && t.held == s.held && SameBytes(root, lapic, s, t)
  {
    RefusedBytes(root, s, s1, s2, all, lapic, va);
    m.FreeFrame(frame);
    t := s2.(free := s2.free + {frame}, held := s2.held - {frame});
    GivenBack(root, s, s1, s2, t, all, lapic, frame);
  }

  lemma {:induction false} GivenBack(root: nat, s: Life, s1: Life, s2: Life, t: Life, all: set<nat>, lapic: nat, frame: nat)
    requires LifeOwned(root, s2, all, lapic) && SameBytes(root, lapic, s, s2) && frame !in s.held && s1.held == s.held + {frame} && s2.held == s1.held
    requires t == s2.(free := s2.free + {frame}, held := s2.held - {frame})
    ensures LifeOwned(root, t, all, lapic) && t.held == s.held && SameBytes(root, lapic, s, t)
  {
    GiveKeeps(s2.mem, root, s2.nodes, s2.free, s2.pages, s2.held, all, lapic, {frame});
    HeldAgain(s.held, s1.held, t.held, frame);
    forall w: nat | InUser(w, lapic) ensures At(root, t, w) == At(root, s, w) { assert At(root, s2, w) == At(root, s, w); }
  }

  lemma {:induction false} RefusedBytes(root: nat, s: Life, s1: Life, s2: Life, all: set<nat>, lapic: nat, va: nat)
    requires LifeOwned(root, s1, all, lapic) && SameBytes(root, lapic, s, s1) && |s1.mem| == MAX_FRAMES
    requires s2 == s1 || StepOk(root, lapic, s1, MapRefused(va), s2)
    ensures SameBytes(root, lapic, s, s2) && LifeOwned(root, s2, all, lapic) && s2.held == s1.held
    ensures forall f :: f in s2.held ==> f < MAX_FRAMES
  {
    if s2 != s1 {
      StepKeepsOwned(root, lapic, s1, MapRefused(va), s2, all);
      forall w: nat | InUser(w, lapic) ensures At(root, s2, w) == At(root, s, w) {
        RefusedAt(root, s1, s2, all, lapic, va, w);
        assert At(root, s1, w) == At(root, s, w);
      }
    }
    forall f | f in s2.held ensures f < MAX_FRAMES { assert f in all; }
  }

  // ---- map_segment ----

  /** The byte that belongs at address w when the segment starts at address v. */
  function SegByte(image: seq<byte>, seg: Segment, v: nat, w: nat): byte
    requires InImage(image, seg)
  {
    if v <= w < v + seg.filesz then image[seg.offset + (w - v)] else 0
  }

  function FirstPage(v: nat): nat { v / PAGE }
  function LastPage(v: nat, size: nat): nat { (v + size + PAGE - 1) / PAGE }

  /** The pages of the segment are below 2^64, and those from 1 GiB on are user pages. */
  ghost predicate SegmentFits(seg: Segment, v: nat, lapic: nat) {
    && v + seg.memsz + PAGE <= TWO64
    && forall pn: nat :: FirstPage(v) <= pn < LastPage(v, seg.memsz) ==> PageStart(pn * PAGE, pn, lapic)
  }

  /** Pages lo to hi, absent before, hold the segment's bytes; everything else is as it was. */
  predicate SegmentByte(before: MaybeByte, after: MaybeByte, image: seq<byte>, seg: Segment, v: nat, lo: nat, hi: nat, w: nat)
    requires InImage(image, seg)
  {
    if lo <= w / PAGE < hi then after == Byte(SegByte(image, seg, v, w)) && before == Absent else after == before
  }

  ghost predicate SegmentAt(root: nat, s: Life, t: Life, image: seq<byte>, seg: Segment, v: nat, lo: nat, hi: nat, w: nat)
    requires InImage(image, seg)
  {
    SegmentByte(At(root, s, w), At(root, t, w), image, seg, v, lo, hi, w)
  }

  ghost predicate SegmentPlaced(root: nat, lapic: nat, s: Life, t: Life, image: seq<byte>, seg: Segment, v: nat, lo: nat, hi: nat)
    requires InImage(image, seg)
  {
    forall w: nat :: InUser(w, lapic) ==> SegmentAt(root, s, t, image, seg, v, lo, hi, w)
  }

  function PutBytes(p: Page, off: nat, bs: seq<byte>): (q: Page)
    requires off + |bs| <= |p|
    ensures |q| == |p|
    ensures forall o: nat :: o < |p| ==> q[o] == if off <= o < off + |bs| then bs[o - off] else p[o]
  {
    p[..off] + bs + p[off + |bs|..]
  }

  /** The bytes of the segment in page pn. */
  ghost predicate PageHolds(image: seq<byte>, seg: Segment, v: nat, pn: nat, page: Page)
    requires InImage(image, seg)
  {
    |page| == PAGE && forall o: nat :: o < PAGE ==> page[o] == SegByte(image, seg, v, pn * PAGE + o)
  }

  /** The file bytes that fall into a zeroed page. */
  method SegmentPage(image: seq<byte>, seg: Segment, v: nat, pn: nat, page: Page) returns (q: Page)
    requires InImage(image, seg) && page == ZeroPage()
    ensures PageHolds(image, seg, v, pn, q)
  {
    var va := pn * PAGE;
    var lo := if v > va then v else va;
    var hi := if v + seg.filesz < va + PAGE then v + seg.filesz else va + PAGE;
    q := page;
    if hi > lo {
      var src := seg.offset + (lo - v);
      q := PutBytes(page, lo - va, image[src..src + (hi - lo)]);
    }
  }

  ghost predicate PagesInUser(lo: nat, hi: nat, lapic: nat) { forall pn: nat :: lo <= pn < hi ==> InUser(pn * PAGE, lapic) }

  /** One page of the segment, from its mapping to its bytes. */
  lemma {:induction false} PageFilled(root: nat, s0: Life, s: Life, t1: Life, t: Life, all: set<nat>, lapic: nat, image: seq<byte>, seg: Segment, v: nat, lo: nat, pn: nat, next: nat, frame: nat, page: Page)
    requires InImage(image, seg) && LifeOwned(root, t1, all, lapic) && |t1.mem| == MAX_FRAMES && next == pn + 1 && lo <= pn
    requires SegmentPlaced(root, lapic, s0, s, image, seg, v, lo, pn) && PageAdded(root, lapic, s, t1, pn, ZeroPage())
    requires frame in t1.pages && t1.pages[frame] == pn && PageHolds(image, seg, v, pn, page) && frame < |t1.mem| && t == t1.(mem := t1.mem[frame := page])
    ensures LifeOwned(root, t, all, lapic) && SegmentPlaced(root, lapic, s0, t, image, seg, v, lo, next)
  {
    FillKeeps(root, t1, all, lapic, frame, page);
    forall w: nat | InUser(w, lapic) ensures SegmentAt(root, s0, t, image, seg, v, lo, next, w) {
      FillAt(root, t1, all, lapic, frame, page, w);
      assert SegmentAt(root, s0, s, image, seg, v, lo, pn, w) && AddedAt(root, s, t1, pn, ZeroPage(), w);
      FilledByte(At(root, s0, w), At(root, s, w), At(root, t1, w), At(root, t, w), image, seg, v, lo, pn, next, page, w);
    }
  }

  lemma {:induction false} FilledByte(a0: MaybeByte, a: MaybeByte, a1: MaybeByte, a2: MaybeByte, image: seq<byte>, seg: Segment, v: nat, lo: nat, pn: nat, next: nat, page: Page, w: nat)
    requires InImage(image, seg) && next == pn + 1 && lo <= pn && PageHolds(image, seg, v, pn, page)
    requires SegmentByte(a0, a, image, seg, v, lo, pn, w) && (if w / PAGE == pn then a == Absent else a1 == a)
    requires a2 == if w / PAGE == pn then Byte(page[w % PAGE]) else a1
    ensures SegmentByte(a0, a2, image, seg, v, lo, next, w)
  {
    assert w == w / PAGE * PAGE + w % PAGE;
  }

  /** Where a segment goes when the image is loaded at `base`. */
  function LoadAddress(seg: Segment, base: nat): nat { base + seg.vaddr }

  /** The segment, and nothing else, has been added at v. */
  ghost predicate Placed(root: nat, lapic: nat, s: Life, t: Life, image: seq<byte>, seg: Segment, v: nat)
    requires InImage(image, seg)
  {
    SegmentPlaced(root, lapic, s, t, image, seg, v, FirstPage(v), LastPage(v, seg.memsz)) && PagesInUser(FirstPage(v), LastPage(v, seg.memsz), lapic)
  }

  /** map_segment */
  method MapSegment(m: Machine, root: nat, image: seq<byte>, seg: Segment, base: nat, ghost s: Life, ghost all: set<nat>, ghost lapic: nat) returns (ok: bool, ghost t: Life)
    requires Sound(m, root, s, all, lapic) && InImage(image, seg) && SegmentFits(seg, LoadAddress(seg, base), lapic)
    modifies m`mem, m.pmm, m.pmm.bitmap
    ensures !ok ==> Sound(m, root, t, all, lapic) && t.held == s.held
    ensures ok ==> Sound(m, root, t, all, lapic) && t.held == s.held && Placed(root, lapic, s, t, image, seg, LoadAddress(seg, base))
    ensures var v := LoadAddress(seg, base); var first, end := FirstPage(v), LastPage(v, seg.memsz);
            first <= end && if ok then |s.free| <= |t.free| + PER_PAGE * (end - first) else Blocked(root, s, first, end)
  {
    var v := LoadAddress(seg, base);
    PagesOrdered(v, seg.memsz);
    ok, t := MapPages(m, root, image, seg, v, FirstPage(v), LastPage(v, seg.memsz), s, all, lapic);
  }

  lemma {:induction false} PagesOrdered(v: nat, size: nat)
    ensures FirstPage(v) <= LastPage(v, size)
  {
  }

  ghost predicate BlockedAt(root: nat, s: Life, first: nat, end: nat, pn: nat) {
    first <= pn < end && (pn * PAGE < USER_BASE || At(root, s, pn * PAGE) != Absent)
  }

  /** Why the pages first to end cannot be added: one of them cannot, or the memory may not suffice. */
  ghost predicate Blocked(root: nat, s: Life, first: nat, end: nat)
    requires first <= end
  {
    (exists pn: nat :: BlockedAt(root, s, first, end, pn)) || |s.free| <= PER_PAGE * (end - first)
  }

  lemma {:induction false} PageBlocks(root: nat, lapic: nat, s: Life, t: Life, image: seq<byte>, seg: Segment, v: nat, first: nat, end: nat, pn: nat, va: nat)
    requires InImage(image, seg) && SegmentPlaced(root, lapic, s, t, image, seg, v, first, pn) && Refused(root, t, va)
    requires first <= pn < end && va == pn * PAGE && PageStart(va, pn, lapic) && |s.free| <= |t.free| + PER_PAGE * (pn - first)
    ensures Blocked(root, s, first, end)
  {
    if va < USER_BASE || At(root, t, va) != Absent {
      if va >= USER_BASE {
        assert SegmentAt(root, s, t, image, seg, v, first, pn, va);
        PageAligned(pn, va);
      }
      assert BlockedAt(root, s, first, end, pn);
    }
  }

  lemma {:induction false} PageAligned(pn: nat, va: nat)
    requires va == pn * PAGE
    ensures va / PAGE == pn
  {
  }

  /** The loop over the pages of the segment. */
  method MapPages(m: Machine, root: nat, image: seq<byte>, seg: Segment, v: nat, first: nat, end: nat, ghost s: Life, ghost all: set<nat>, ghost lapic: nat) returns (ok: bool, ghost t: Life)
    requires Sound(m, root, s, all, lapic) && InImage(image, seg) && first <= end && forall pn: nat :: first <= pn < end ==> PageStart(pn * PAGE, pn, lapic)
    modifies m`mem, m.pmm, m.pmm.bitmap
    ensures !ok ==> Sound(m, root, t, all, lapic) && t.held == s.held
    ensures ok ==> Sound(m, root, t, all, lapic) && t.held == s.held && SegmentPlaced(root, lapic, s, t, image, seg, v, first, end)
    ensures ok ==> PagesInUser(first, end, lapic)
    ensures if ok then |s.free| <= |t.free| + PER_PAGE * (end - first) else Blocked(root, s, first, end)
  {
    var pn: nat := first;
    ok, t := true, s;
    while ok && pn < end
      invariant first <= pn <= end
      invariant ok ==> Sound(m, root, t, all, lapic) && t.held == s.held && SegmentPlaced(root, lapic, s, t, image, seg, v, first, pn)
      invariant ok ==> PagesInUser(first, pn, lapic)
      invariant !ok ==> Sound(m, root, t, all, lapic) && t.held == s.held
      invariant if ok then |s.free| <= |t.free| + PER_PAGE * (pn - first) else Blocked(root, s, first, end)
    {
      var next: nat := pn + 1;
      ghost var before := t;
      ok, t := SegmentStep(m, root, image, seg, v, first, pn, next, s, before, all, lapic);
      if !ok { PageBlocks(root, lapic, s, before, image, seg, v, first, end, pn, pn * PAGE); }
      pn := next;
    }
    assert ok ==> pn == end;
  }

  method SegmentStep(m: Machine, root: nat, image: seq<byte>, seg: Segment, v: nat, ghost first: nat, pn: nat, ghost next: nat, ghost s0: Life, ghost s: Life, ghost all: set<nat>, ghost lapic: nat)
    returns (ok: bool, ghost t: Life)
    requires Sound(m, root, s, all, lapic) && InImage(image, seg) && PageStart(pn * PAGE, pn, lapic) && first <= pn && next == pn + 1
    requires SegmentPlaced(root, lapic, s0, s, image, seg, v, first, pn)
    modifies m`mem, m.pmm, m.pmm.bitmap
    ensures !ok ==> Sound(m, root, t, all, lapic) && t.held == s.held
    ensures ok ==> Sound(m, root, t, all, lapic) && t.held == s.held && SegmentPlaced(root, lapic, s0, t, image, seg, v, first, next)
    ensures ok ==> InUser(pn * PAGE, lapic) && |s.free| <= |t.free| + PER_PAGE
    ensures !ok ==> Refused(root, s, pn * PAGE)
  {
    var frame;
    frame, t := NewPage(m, root, pn * PAGE, pn, s, all, lapic);
    ok := frame != 0;
    if ok { t := FillPage(m, root, image, seg, v, first, pn, next, frame, s0, s, t, all, lapic); }
  }

  method FillPage(m: Machine, root: nat, image: seq<byte>, seg: Segment, v: nat, ghost first: nat, pn: nat, ghost next: nat, frame: nat,
                  ghost s0: Life, ghost s: Life, ghost t1: Life, ghost all: set<nat>, ghost lapic: nat)
    returns (ghost t: Life)
    requires Sound(m, root, t1, all, lapic) && InImage(image, seg) && first <= pn && next == pn + 1
    requires SegmentPlaced(root, lapic, s0, s, image, seg, v, first, pn)
    requires PageAdded(root, lapic, s, t1, pn, ZeroPage())
    requires frame in t1.pages && t1.pages[frame] == pn && frame < |m.mem| && m.mem[frame] == ZeroPage()
    modifies m`mem
    ensures Sound(m, root, t, all, lapic) && t.held == t1.held && t.free == t1.free && SegmentPlaced(root, lapic, s0, t, image, seg, v, first, next)
  {
    var page := SegmentPage(image, seg, v, pn, m.mem[frame]);
    m.Fill(frame, page);
    t := t1.(mem := t1.mem[frame := page]);
    FrameBound(root, t1, all, lapic, frame);
    PageFilled(root, s0, s, t1, t, all, lapic, image, seg, v, first, pn, next, frame, page);
  }

  lemma {:induction false} FrameBound(root: nat, s: Life, all: set<nat>, lapic: nat, f: nat)
    requires LifeOwned(root, s, all, lapic) && f in s.pages
    ensures f < MAX_FRAMES && f !in s.nodes
  {
    assert f in all;
  }

  // ---- all segments ----

  /** Address w is on a page of the segment. */
  predicate Covers(seg: Segment, base: nat, w: nat) {
    var v := LoadAddress(seg, base);
    FirstPage(v) <= w / PAGE < LastPage(v, seg.memsz)
  }

  /** The segment among the first n that has w on one of its pages; n if there is none. */
  function Holder(segs: seq<Segment>, base: nat, n: nat, w: nat): (k: nat)
    requires n <= |segs|
    ensures k <= n && (k < n ==> Covers(segs[k], base, w))
    ensures k == n ==> forall j: nat :: j < n ==> !Covers(segs[j], base, w)
  {
    if n == 0 then 0
    else if Covers(segs[n - 1], base, w) then n - 1
    else var k := Holder(segs, base, n - 1, w); if k == n - 1 then n else k
  }

  /** The byte at w after the first n segments have been loaded over `before`. */
  function LoadedByte(before: MaybeByte, image: seq<byte>, segs: seq<Segment>, base: nat, n: nat, w: nat): MaybeByte
    requires AllInImage(image, segs) && n <= |segs|
  {
    var k := Holder(segs, base, n, w);
    if k == n then before else Byte(SegByte(image, segs[k], LoadAddress(segs[k], base), w))
  }

  ghost predicate LoadedAt(root: nat, s: Life, t: Life, image: seq<byte>, segs: seq<Segment>, base: nat, n: nat, w: nat)
    requires AllInImage(image, segs) && n <= |segs|
  {
    At(root, t, w) == LoadedByte(At(root, s, w), image, segs, base, n, w)
  }

  ghost predicate Loaded(root: nat, lapic: nat, s: Life, t: Life, image: seq<byte>, segs: seq<Segment>, base: nat, n: nat)
    requires AllInImage(image, segs) && n <= |segs|
  {
    forall w: nat :: InUser(w, lapic) ==> LoadedAt(root, s, t, image, segs, base, n, w)
  }

  /** No two of the first n segments share a page, and all their pages are user pages. */
  ghost predicate Apart(segs: seq<Segment>, base: nat, lapic: nat, n: nat)
    requires n <= |segs|
  {
    && (forall j, k, w: nat :: 0 <= j < k < n && Covers(segs[j], base, w) ==> !Covers(segs[k], base, w))
    && (forall k, w: nat :: 0 <= k < n && Covers(segs[k], base, w) ==> InUser(w, lapic))
  }

  lemma {:induction false} InUserPage(pn: nat, w: nat, lapic: nat)
    requires w / PAGE == pn && InUser(pn * PAGE, lapic)
    ensures InUser(w, lapic)
  {
    assert w == pn * PAGE + w % PAGE;
    assert w / GIB == pn / 262144 && pn * PAGE / GIB == pn / 262144;
  }

  /** One more segment. */
  lemma {:induction false} OneMore(root: nat, lapic: nat, s0: Life, s: Life, t: Life, image: seq<byte>, segs: seq<Segment>, base: nat, n: nat, next: nat)
    requires AllInImage(image, segs) && n < |segs| && next == n + 1
    requires Loaded(root, lapic, s0, s, image, segs, base, n) && Apart(segs, base, lapic, n)
    requires Placed(root, lapic, s, t, image, segs[n], LoadAddress(segs[n], base))
    ensures Loaded(root, lapic, s0, t, image, segs, base, next) && Apart(segs, base, lapic, next)
  {
    var v := LoadAddress(segs[n], base);
    forall w: nat | InUser(w, lapic) ensures LoadedAt(root, s0, t, image, segs, base, next, w) {
      assert LoadedAt(root, s0, s, image, segs, base, n, w);
      assert SegmentAt(root, s, t, image, segs[n], v, FirstPage(v), LastPage(v, segs[n].memsz), w);
      NextByte(At(root, s0, w), At(root, s, w), At(root, t, w), image, segs, base, n, next, w);
    }
    forall w: nat | Covers(segs[n], base, w) ensures InUser(w, lapic) { InUserPage(w / PAGE, w, lapic); }
    forall j, w: nat | 0 <= j < n && Covers(segs[j], base, w) ensures !Covers(segs[n], base, w) {
      assert LoadedAt(root, s0, s, image, segs, base, n, w);
      assert SegmentAt(root, s, t, image, segs[n], v, FirstPage(v), LastPage(v, segs[n].memsz), w);
      StillThere(At(root, s0, w), At(root, s, w), At(root, t, w), image, segs, base, n, j, w);
    }
  }

  lemma {:induction false} NextByte(a0: MaybeByte, a: MaybeByte, a': MaybeByte, image: seq<byte>, segs: seq<Segment>, base: nat, n: nat, next: nat, w: nat)
    requires AllInImage(image, segs) && n < |segs| && next == n + 1 && a == LoadedByte(a0, image, segs, base, n, w)
    requires var v := LoadAddress(segs[n], base); SegmentByte(a, a', image, segs[n], v, FirstPage(v), LastPage(v, segs[n].memsz), w)
    ensures a' == LoadedByte(a0, image, segs, base, next, w)
  {
  }

  lemma {:induction false} StillThere(a0: MaybeByte, a: MaybeByte, a': MaybeByte, image: seq<byte>, segs: seq<Segment>, base: nat, n: nat, j: nat, w: nat)
    requires AllInImage(image, segs) && n < |segs| && a == LoadedByte(a0, image, segs, base, n, w) && j < n && Covers(segs[j], base, w)
    requires var v := LoadAddress(segs[n], base); SegmentByte(a, a', image, segs[n], v, FirstPage(v), LastPage(v, segs[n].memsz), w)
    ensures !Covers(segs[n], base, w)
  {
  }

  // ---- when loading fails ----

  /** How many pages a segment takes. */
  function SegPages(seg: Segment, base: nat): nat {
    var v := LoadAddress(seg, base);
    PagesOrdered(v, seg.memsz);
    LastPage(v, seg.memsz) - FirstPage(v)
  }

  /** How many pages the first n segments take. */
  function PageCount(segs: seq<Segment>, base: nat, n: nat): nat
    requires n <= |segs|
  {
    if n == 0 then 0 else PageCount(segs, base, n - 1) + SegPages(segs[n - 1], base)
  }

  lemma {:induction false} PageCountGrows(segs: seq<Segment>, base: nat, i: nat, n: nat)
    requires i <= n <= |segs|
    ensures PageCount(segs, base, i) <= PageCount(segs, base, n)
  {
    if i < n { PageCountGrows(segs, base, i, n - 1); }
  }

  /** Page pn of segment k stands in the way: it is below the user half, was in use before, or belongs
      to an earlier segment too. */
  ghost predicate ObstacleAt(root: nat, s: Life, segs: seq<Segment>, base: nat, k: nat, pn: nat) {
    && k < |segs| && Covers(segs[k], base, pn * PAGE)
    && (pn * PAGE < USER_BASE || At(root, s, pn * PAGE) != Absent || Holder(segs, base, k, pn * PAGE) < k)
  }

  /** Why an image cannot be loaded. */
  ghost predicate Obstructed(root: nat, s: Life, segs: seq<Segment>, base: nat) {
    (exists k: nat, pn: nat :: ObstacleAt(root, s, segs, base, k, pn)) || |s.free| <= PER_PAGE * PageCount(segs, base, |segs|)
  }

  lemma {:induction false} SegmentObstructs(root: nat, lapic: nat, s: Life, t: Life, image: seq<byte>, segs: seq<Segment>, base: nat, i: nat, first: nat, end: nat)
    requires AllInImage(image, segs) && i < |segs| && Loaded(root, lapic, s, t, image, segs, base, i) && SegmentFits(segs[i], LoadAddress(segs[i], base), lapic)
    requires first == FirstPage(LoadAddress(segs[i], base)) && end == LastPage(LoadAddress(segs[i], base), segs[i].memsz) && first <= end
    requires Blocked(root, t, first, end) && |s.free| <= |t.free| + PER_PAGE * PageCount(segs, base, i)
    ensures Obstructed(root, s, segs, base)
  {
    if pn: nat :| BlockedAt(root, t, first, end, pn) {
      var va := pn * PAGE;
      PageAligned(pn, va);
      assert PageStart(va, pn, lapic);
      if va >= USER_BASE { assert LoadedAt(root, s, t, image, segs, base, i, va); }
      assert ObstacleAt(root, s, segs, base, i, pn);
    } else {
      assert PageCount(segs, base, i + 1) == PageCount(segs, base, i) + SegPages(segs[i], base);
      PageCountGrows(segs, base, i + 1, |segs|);
    }
  }

  /** Nothing is in the user half yet, and the memory suffices whatever tables are needed. */
  ghost predicate Roomy(root: nat, lapic: nat, s: Life, segs: seq<Segment>, base: nat) {
    (forall w: nat :: InUser(w, lapic) ==> At(root, s, w) == Absent) && |s.free| > PER_PAGE * PageCount(segs, base, |segs|)
  }

  lemma {:induction false} ObstructedNotApart(root: nat, lapic: nat, s: Life, segs: seq<Segment>, base: nat)
    requires Obstructed(root, s, segs, base) && Roomy(root, lapic, s, segs, base)
    requires forall k :: 0 <= k < |segs| ==> SegmentFits(segs[k], LoadAddress(segs[k], base), lapic)
    ensures !Apart(segs, base, lapic, |segs|)
  {
    var k: nat, pn: nat :| ObstacleAt(root, s, segs, base, k, pn);
    var w := pn * PAGE;
    PageAligned(pn, w);
    assert PageStart(w, pn, lapic);
    var j := Holder(segs, base, k, w);
    assert j < k ==> Covers(segs[j], base, w) && Covers(segs[k], base, w);
  }

  /** Two segments on one page, each of which could be loaded: they cannot both be. */
  lemma {:induction false} SharedPageExample()
    ensures var segs := [Segment(0x1000, 0, 0x10, 0x10), Segment(0x1800, 0x10, 0x10, 0x10)];
            && !Apart(segs, USER_BASE, 0, 2)
            && SegmentFits(segs[0], LoadAddress(segs[0], USER_BASE), 0) && SegmentFits(segs[1], LoadAddress(segs[1], USER_BASE), 0)
  {
    var segs := [Segment(0x1000, 0, 0x10, 0x10), Segment(0x1800, 0x10, 0x10, 0x10)];
    var w := USER_BASE + 0x1000;
    assert Covers(segs[0], USER_BASE, w) && Covers(segs[1], USER_BASE, w);
    assert FirstPage(USER_BASE + 0x1000) == 0x4_0001 && LastPage(USER_BASE + 0x1000, 0x10) == 0x4_0002;
    assert FirstPage(USER_BASE + 0x1800) == 0x4_0001 && LastPage(USER_BASE + 0x1800, 0x10) == 0x4_0002;
    assert PageStart(0x4_0001 * PAGE, 0x4_0001, 0);
  }

  /** The loop of process_load_elf over the segments. Into an empty user half, and with memory enough,
      it succeeds exactly when no two segments share a page and all pages are user pages. */
  method LoadSegments(m: Machine, root: nat, image: seq<byte>, segs: seq<Segment>, base: nat, ghost s: Life, ghost all: set<nat>, ghost lapic: nat) returns (ok: bool, ghost t: Life)
    requires Sound(m, root, s, all, lapic) && AllInImage(image, segs)
    requires forall k :: 0 <= k < |segs| ==> SegmentFits(segs[k], LoadAddress(segs[k], base), lapic)
    modifies m`mem, m.pmm, m.pmm.bitmap
    ensures !ok ==> Sound(m, root, t, all, lapic) && t.held == s.held
    ensures ok ==> Sound(m, root, t, all, lapic) && t.held == s.held
    ensures ok ==> Loaded(root, lapic, s, t, image, segs, base, |segs|) && Apart(segs, base, lapic, |segs|)
    ensures !ok ==> Obstructed(root, s, segs, base)
    ensures Roomy(root, lapic, s, segs, base) ==> (ok <==> Apart(segs, base, lapic, |segs|))
  {
    var i: nat := 0;
    ok, t := true, s;
    while ok && i < |segs|
      invariant 0 <= i <= |segs|
      invariant ok ==> Sound(m, root, t, all, lapic) && t.held == s.held && Loaded(root, lapic, s, t, image, segs, base, i) && Apart(segs, base, lapic, i)
      invariant !ok ==> Sound(m, root, t, all, lapic) && t.held == s.held
      invariant if ok then |s.free| <= |t.free| + PER_PAGE * PageCount(segs, base, i) else Obstructed(root, s, segs, base)
    {
      ghost var before := t;
      var next: nat := i + 1;
      ok, t := MapSegment(m, root, image, segs[i], base, before, all, lapic);
      ghost var v := LoadAddress(segs[i], base);
      if ok {
        OneMore(root, lapic, s, before, t, image, segs, base, i, next);
        assert PageCount(segs, base, next) == PageCount(segs, base, i) + SegPages(segs[i], base);
      } else {
        SegmentObstructs(root, lapic, s, before, image, segs, base, i, FirstPage(v), LastPage(v, segs[i].memsz));
      }
      i := next;
    }
    assert ok ==> i == |segs|;
    if !ok && Roomy(root, lapic, s, segs, base) { ObstructedNotApart(root, lapic, s, segs, base); }
  }

  // ---- what a loaded image means ----

  lemma {:induction false} CoversOwn(seg: Segment, base: nat, i: nat, w: nat)
    requires i < seg.memsz && w == base + seg.vaddr + i
    ensures Covers(seg, base, w)
  {
    var v := LoadAddress(seg, base);
    assert w / PAGE <= (v + seg.memsz - 1) / PAGE;
  }

  lemma {:induction false} HolderIs(segs: seq<Segment>, base: nat, lapic: nat, k: nat, w: nat)
    requires Apart(segs, base, lapic, |segs|) && k < |segs| && Covers(segs[k], base, w)
    ensures Holder(segs, base, |segs|, w) == k && InUser(w, lapic)
  {
    var h := Holder(segs, base, |segs|, w);
    assert h < |segs| && Covers(segs[h], base, w);
  }

  /** Every byte of every load segment is in memory: the file bytes, then zeros. */
  lemma {:induction false} SegmentBytes(root: nat, lapic: nat, s: Life, t: Life, image: seq<byte>, segs: seq<Segment>, base: nat, k: nat, i: nat, w: nat)
    requires AllInImage(image, segs) && Loaded(root, lapic, s, t, image, segs, base, |segs|) && Apart(segs, base, lapic, |segs|)
    requires k < |segs| && i < segs[k].memsz && w == base + segs[k].vaddr + i
    ensures At(root, t, w) == Byte(if i < segs[k].filesz then image[segs[k].offset + i] else 0)
  {
    CoversOwn(segs[k], base, i, w);
    HolderIs(segs, base, lapic, k, w);
    assert LoadedAt(root, s, t, image, segs, base, |segs|, w);
    ByteOf(image, segs[k], base, i, w);
  }

  lemma {:induction false} ByteOf(image: seq<byte>, seg: Segment, base: nat, i: nat, w: nat)
    requires InImage(image, seg) && w == base + seg.vaddr + i
    ensures SegByte(image, seg, LoadAddress(seg, base), w) == if i < seg.filesz then image[seg.offset + i] else 0
  {
  }

  /** Only one segment has an address that is in memory. */
  lemma {:induction false} OneSegment(segs: seq<Segment>, base: nat, lapic: nat, j: nat, k: nat, x: nat)
    requires Apart(segs, base, lapic, |segs|) && j < |segs| && k < |segs|
    requires segs[j].vaddr <= x < segs[j].vaddr + segs[j].memsz && segs[k].vaddr <= x < segs[k].vaddr + segs[k].memsz
    ensures j == k
  {
    var w := base + x;
    CoversOwn(segs[j], base, x - segs[j].vaddr, w);
    CoversOwn(segs[k], base, x - segs[k].vaddr, w);
    HolderIs(segs, base, lapic, k, w);
    HolderIs(segs, base, lapic, j, w);
  }

  /** The offset found for a file-backed address is the place in the file of the byte in memory. */
  lemma {:induction false} OffsetAgrees(root: nat, lapic: nat, s: Life, t: Life, image: seq<byte>, segs: seq<Segment>, base: nat, k: nat, x: nat, o: nat)
    requires AllInImage(image, segs) && Loaded(root, lapic, s, t, image, segs, base, |segs|) && Apart(segs, base, lapic, |segs|)
    requires forall j :: 0 <= j < |segs| ==> segs[j].vaddr + segs[j].memsz < TWO64
    requires k < |segs| && segs[k].vaddr <= x < segs[k].vaddr + segs[k].filesz && |image| < TWO64 && o == segs[k].offset + (x - segs[k].vaddr)
    ensures OffsetIn(segs, x) == Offset(o) && o < |image| && At(root, t, base + x) == Byte(image[o])
  {
    FoundOffset(segs, base, lapic, k, x, o);
    SegmentBytes(root, lapic, s, t, image, segs, base, k, x - segs[k].vaddr, base + x);
  }

  lemma {:induction false} FoundOffset(segs: seq<Segment>, base: nat, lapic: nat, k: nat, x: nat, o: nat)
    requires Apart(segs, base, lapic, |segs|) && (forall j :: 0 <= j < |segs| ==> segs[j].vaddr + segs[j].memsz < TWO64)
    requires k < |segs| && segs[k].vaddr <= x < segs[k].vaddr + segs[k].memsz && o == segs[k].offset + (x - segs[k].vaddr) && o < TWO64
    ensures OffsetIn(segs, x) == Offset(o)
  {
    NoWrap(segs[k]);
    OffsetExists(segs, x, k);
    var j := OffsetFrom(segs, x);
    NoWrap(segs[j]);
    OneSegment(segs, base, lapic, j, k, x);
    assert o % TWO64 == o;
  }

  lemma {:induction false} NoWrap(seg: Segment)
    requires seg.vaddr + seg.memsz < TWO64
    ensures (seg.vaddr + seg.memsz) % TWO64 == seg.vaddr + seg.memsz
  {
  }

  // ---- the base of a position-independent program, and the stack ----

  const PIE_BASE_RANGE: nat := 0x2000_0000     // 512 MiB

  /** pie_base: a 2 MiB aligned address in the 512 MiB above 1 GiB, whatever the process number. */
  function PieBase(pid: nat): (base: nat)
    ensures USER_BASE <= base < USER_BASE + PIE_BASE_RANGE && base % HUGE == 0
  {
    var x := (pid * 0x9E37_79B9_7F4A_7C15 + 0x123_4567) % TWO64;
    var off := x % PIE_BASE_RANGE;
    PieOffset(off);
    USER_BASE + off / HUGE * HUGE
  }

  lemma {:induction false} PieOffset(off: nat)
    requires off < PIE_BASE_RANGE
    ensures off / HUGE * HUGE <= off && (USER_BASE + off / HUGE * HUGE) % HUGE == 0
  {
    var q := off / HUGE;
    assert USER_BASE + q * HUGE == (512 + q) * HUGE;
  }

  const STACK_SIZE: nat := 0x4_0000           // 256 KiB

  /** map_user_stack: zeroed pages from 256 KiB below the top up to it. */
  method MapUserStack(m: Machine, root: nat, ghost s: Life, ghost all: set<nat>, ghost lapic: nat) returns (ok: bool, ghost t: Life)
    requires Sound(m, root, s, all, lapic) && lapic != STACK_TOP / GIB - 1
    modifies m`mem, m.pmm, m.pmm.bitmap
    ensures !ok ==> Sound(m, root, t, all, lapic) && t.held == s.held
    ensures ok ==> Sound(m, root, t, all, lapic) && t.held == s.held
    ensures ok ==> forall w: nat :: InUser(w, lapic) ==> StackAt(root, s, t, w)
    ensures !ok ==> Blocked(root, s, (STACK_TOP - STACK_SIZE) / PAGE, STACK_TOP / PAGE)
    ensures |s.free| > PER_PAGE * (STACK_SIZE / PAGE) ==> (ok <==> forall w: nat :: STACK_TOP - STACK_SIZE <= w < STACK_TOP ==> At(root, s, w) == Absent)
  {
    var first: nat, end: nat := (STACK_TOP - STACK_SIZE) / PAGE, STACK_TOP / PAGE;
    StackPages(lapic);
    ok, t := MapPages(m, root, [], Segment(0, 0, 0, STACK_SIZE), STACK_TOP - STACK_SIZE, first, end, s, all, lapic);
    if ok { StackPlaced(root, lapic, s, t, first, end); }
    StackWasFree(root, lapic, s, t, ok, first, end);
  }

  lemma {:induction false} StackWasFree(root: nat, lapic: nat, s: Life, t: Life, ok: bool, first: nat, end: nat)
    requires first == (STACK_TOP - STACK_SIZE) / PAGE && end == STACK_TOP / PAGE && lapic != STACK_TOP / GIB - 1
    requires if ok then forall w: nat :: InUser(w, lapic) ==> StackAt(root, s, t, w) else Blocked(root, s, first, end)
    ensures |s.free| > PER_PAGE * (STACK_SIZE / PAGE) ==> (ok <==> forall w: nat :: STACK_TOP - STACK_SIZE <= w < STACK_TOP ==> At(root, s, w) == Absent)
  {
    if ok {
      forall w: nat | STACK_TOP - STACK_SIZE <= w < STACK_TOP ensures At(root, s, w) == Absent {
        assert InUser(w, lapic);
        assert StackAt(root, s, t, w);
      }
    } else if |s.free| > PER_PAGE * (STACK_SIZE / PAGE) {
      var pn: nat :| BlockedAt(root, s, first, end, pn);
      var w := pn * PAGE;
      assert STACK_TOP - STACK_SIZE <= w < STACK_TOP;
    }
  }

  predicate StackByte(before: MaybeByte, after: MaybeByte, w: nat) {
    if STACK_TOP - STACK_SIZE <= w < STACK_TOP then after == Byte(0) && before == Absent else after == before
  }

  ghost predicate StackAt(root: nat, s: Life, t: Life, w: nat) { StackByte(At(root, s, w), At(root, t, w), w) }

  lemma {:induction false} StackPlaced(root: nat, lapic: nat, s: Life, t: Life, first: nat, end: nat)
    requires first == (STACK_TOP - STACK_SIZE) / PAGE && end == STACK_TOP / PAGE
    requires SegmentPlaced(root, lapic, s, t, [], Segment(0, 0, 0, STACK_SIZE), STACK_TOP - STACK_SIZE, first, end)
    ensures forall w: nat :: InUser(w, lapic) ==> StackAt(root, s, t, w)
  {
    forall w: nat | InUser(w, lapic) ensures StackAt(root, s, t, w) {
      assert SegmentAt(root, s, t, [], Segment(0, 0, 0, STACK_SIZE), STACK_TOP - STACK_SIZE, first, end, w);
      StackFromPages(At(root, s, w), At(root, t, w), first, end, w);
    }
  }

  lemma {:induction false} StackFromPages(before: MaybeByte, after: MaybeByte, first: nat, end: nat, w: nat)
    requires first == (STACK_TOP - STACK_SIZE) / PAGE && end == STACK_TOP / PAGE
    requires SegmentByte(before, after, [], Segment(0, 0, 0, STACK_SIZE), STACK_TOP - STACK_SIZE, first, end, w)
    ensures StackByte(before, after, w)
  {
  }

  lemma {:induction false} StackPages(lapic: nat)
    requires lapic != STACK_TOP / GIB - 1
    ensures forall pn: nat :: (STACK_TOP - STACK_SIZE) / PAGE <= pn < STACK_TOP / PAGE ==> PageStart(pn * PAGE, pn, lapic)
  {
    forall pn: nat | (STACK_TOP - STACK_SIZE) / PAGE <= pn < STACK_TOP / PAGE ensures PageStart(pn * PAGE, pn, lapic) {
      assert pn * PAGE / GIB == 255;
    }
  }
}
