/** Freeing an address space (free_user_tree), and the frames it gives back. */
module Teardown {
  import opened FrameAllocation
  import opened PageTables
  import opened Paging
  import opened FrameLedger

  // ---- what the nested loops of free_user_tree visit ----

  predicate PtHas(mem: Memory, pt: nat, k: nat, f: nat) {
    && k < SLOTS && pt < |mem| && |mem[pt]| == PAGE
    && var e := Slot(mem, pt, k); Present(e) && Base(e) == f
  }

  ghost predicate InPt(mem: Memory, pt: nat, n: nat, f: nat) { exists k: nat :: k < n && PtHas(mem, pt, k, f) }

  ghost predicate PdHas(mem: Memory, pd: nat, j: nat, f: nat) {
    && j < SLOTS && pd < |mem| && |mem[pd]| == PAGE
    && var e := Slot(mem, pd, j);
       Present(e) && if Large(e) then LargeBase(e) <= f < LargeBase(e) + SLOTS else f == Base(e) || InPt(mem, Base(e), SLOTS, f)
  }

  ghost predicate InPd(mem: Memory, pd: nat, n: nat, f: nat) { exists j: nat :: j < n && PdHas(mem, pd, j, f) }

  ghost predicate PdptHas(mem: Memory, pdpt: nat, i: nat, f: nat) {
    && i < SLOTS && pdpt < |mem| && |mem[pdpt]| == PAGE
    && var e := Slot(mem, pdpt, i); Present(e) && (f == Base(e) || InPd(mem, Base(e), SLOTS, f))
  }

  ghost predicate InPdpt(mem: Memory, pdpt: nat, n: nat, lapic: nat, f: nat) {
    exists i: nat :: 1 <= i < n && i != lapic && PdptHas(mem, pdpt, i, f)
  }

  /** The entries of a table that will be followed are not zero. */
  ghost predicate PtSafe(mem: Memory, pt: nat) {
    && 0 < pt < |mem| && |mem[pt]| == PAGE
    && forall k: nat, f :: PtHas(mem, pt, k, f) ==> f > 0
  }

  ghost predicate PdEntrySafe(mem: Memory, pd: nat, j: nat) {
    && j < SLOTS && pd < |mem| && |mem[pd]| == PAGE
    && var e := Slot(mem, pd, j);
       Present(e) ==> if Large(e) then LargeBase(e) > 0 else PtSafe(mem, Base(e))
  }

  ghost predicate PdSafe(mem: Memory, pd: nat) {
    0 < pd < |mem| && |mem[pd]| == PAGE && forall j: nat :: j < SLOTS ==> PdEntrySafe(mem, pd, j)
  }

  ghost predicate PdptEntrySafe(mem: Memory, pdpt: nat, i: nat) {
    && i < SLOTS && pdpt < |mem| && |mem[pdpt]| == PAGE
    && (Present(Slot(mem, pdpt, i)) ==> PdSafe(mem, Base(Slot(mem, pdpt, i))))
  }

  ghost predicate PdptSafe(mem: Memory, pdpt: nat, lapic: nat) {
    && 0 < pdpt < |mem| && |mem[pdpt]| == PAGE
    && forall i: nat :: 1 <= i < SLOTS && i != lapic ==> PdptEntrySafe(mem, pdpt, i)
  }

  // ---- the loops ----

  /** The pages of a page table, and the table. */
  method FreePt(m: Machine, pt: nat)
    requires m.Valid() && PtSafe(m.mem, pt)
    modifies m.pmm, m.pmm.bitmap
    ensures m.Valid()
    ensures forall f: nat :: f in m.pmm.free <==> f in old(m.pmm.free) || ((f == pt || InPt(m.mem, pt, SLOTS, f)) && f < MAX_FRAMES)
  {
    var k := 0;
    while k < SLOTS
      invariant m.Valid() && 0 <= k <= SLOTS
      invariant forall f: nat :: f in m.pmm.free <==> f in old(m.pmm.free) || (InPt(m.mem, pt, k, f) && f < MAX_FRAMES)
    {
      var e := Word(m.mem[pt], k);
      if Present(e) {
        assert PtHas(m.mem, pt, k, Base(e));
        m.FreeFrame(Base(e));
      }
      forall f: nat ensures InPt(m.mem, pt, k + 1, f) <==> InPt(m.mem, pt, k, f) || PtHas(m.mem, pt, k, f) { InPtNext(m.mem, pt, k, f); }
      k := k + 1;
    }
    m.FreeFrame(pt);
  }

  lemma {:induction false} InPtNext(mem: Memory, pt: nat, k: nat, f: nat)
    ensures InPt(mem, pt, k + 1, f) <==> InPt(mem, pt, k, f) || PtHas(mem, pt, k, f)
  {
  }

  /** One entry of a page directory. */
  method FreePdEntry(m: Machine, pd: nat, j: nat)
    requires m.Valid() && PdEntrySafe(m.mem, pd, j)
    modifies m.pmm, m.pmm.bitmap
    ensures m.Valid()
    ensures forall f: nat :: f in m.pmm.free <==> f in old(m.pmm.free) || (PdHas(m.mem, pd, j, f) && f < MAX_FRAMES)
  {
    var e := Word(m.mem[pd], j);
    if !Present(e) { return; }
    if Large(e) {
      m.FreeRun(LargeBase(e));
    } else {
      FreePt(m, Base(e));
    }
  }

  /** Everything under a page directory, and the directory. */
  method FreePd(m: Machine, pd: nat)
    requires m.Valid() && PdSafe(m.mem, pd)
    modifies m.pmm, m.pmm.bitmap
    ensures m.Valid()
    ensures forall f: nat :: f in m.pmm.free <==> f in old(m.pmm.free) || ((f == pd || InPd(m.mem, pd, SLOTS, f)) && f < MAX_FRAMES)
  {
    var j := 0;
    while j < SLOTS
      invariant m.Valid() && 0 <= j <= SLOTS
      invariant forall f: nat :: f in m.pmm.free <==> f in old(m.pmm.free) || (InPd(m.mem, pd, j, f) && f < MAX_FRAMES)
    {
      assert PdEntrySafe(m.mem, pd, j);
      FreePdEntry(m, pd, j);
      forall f: nat ensures InPd(m.mem, pd, j + 1, f) <==> InPd(m.mem, pd, j, f) || PdHas(m.mem, pd, j, f) { InPdNext(m.mem, pd, j, f); }
      j := j + 1;
    }
    m.FreeFrame(pd);
  }

  lemma {:induction false} InPdNext(mem: Memory, pd: nat, j: nat, f: nat)
    ensures InPd(mem, pd, j + 1, f) <==> InPd(mem, pd, j, f) || PdHas(mem, pd, j, f)
  {
  }

  /** free_user_tree: everything below the first root entry from 1 GiB on, but for the gigabyte of
      the local APIC, then the two upper tables. */
  method FreeUserTree(m: Machine, cr3: nat, lapic: nat, ghost pdpt: nat)
    requires m.Valid() && 0 < cr3 < |m.mem| && Base(Slot(m.mem, cr3, 0)) == pdpt && PdptSafe(m.mem, pdpt, lapic)
    modifies m.pmm, m.pmm.bitmap
    ensures m.Valid()
    ensures forall f: nat :: f in m.pmm.free <==>
              f in old(m.pmm.free) || ((f == cr3 || f == pdpt || InPdpt(m.mem, pdpt, SLOTS, lapic, f)) && f < MAX_FRAMES)
  {
    var upper := Base(Word(m.mem[cr3], 0));
    var i := 1;
    while i < SLOTS
      invariant m.Valid() && 1 <= i <= SLOTS
      invariant forall f: nat :: f in m.pmm.free <==> f in old(m.pmm.free) || (InPdpt(m.mem, pdpt, i, lapic, f) && f < MAX_FRAMES)
    {
      FreePdptEntry(m, upper, i, lapic);
      forall f: nat ensures InPdpt(m.mem, pdpt, i + 1, lapic, f) <==> InPdpt(m.mem, pdpt, i, lapic, f) || (i != lapic && PdptHas(m.mem, pdpt, i, f)) {
        InPdptNext(m.mem, pdpt, i, lapic, f);
      }
      i := i + 1;
    }
    m.FreeFrame(upper);
    m.FreeFrame(cr3);
  }

  lemma {:induction false} InPdptNext(mem: Memory, pdpt: nat, i: nat, lapic: nat, f: nat)
    requires i >= 1
    ensures InPdpt(mem, pdpt, i + 1, lapic, f) <==> InPdpt(mem, pdpt, i, lapic, f) || (i != lapic && PdptHas(mem, pdpt, i, f))
  {
  }

  method FreePdptEntry(m: Machine, pdpt: nat, i: nat, lapic: nat)
    requires m.Valid() && PdptSafe(m.mem, pdpt, lapic) && 1 <= i < SLOTS
    modifies m.pmm, m.pmm.bitmap
    ensures m.Valid()
    ensures forall f: nat :: f in m.pmm.free <==> f in old(m.pmm.free) || (i != lapic && PdptHas(m.mem, pdpt, i, f) && f < MAX_FRAMES)
  {
    var e := Word(m.mem[pdpt], i);
    if !Present(e) || i == lapic { return; }
    assert PdptEntrySafe(m.mem, pdpt, i);
    FreePd(m, Base(e));
  }

  // ---- visited means owned ----

  /** A table of the gigabyte that free_user_tree passes over. */
  predicate LapicTable(n: Node, lapic: nat) { lapic != 0 && n == Pd(0, lapic) }

  lemma {:induction false} AddrInUser(i: nat, j: nat, k: nat, lapic: nat)
    requires 1 <= i < SLOTS && i != lapic && j < SLOTS && k < SLOTS
    ensures InUser(Addr(0, i, j, k), lapic)
  {
    var g := (i * SLOTS + j) * SLOTS + k;
    assert Addr(0, i, j, k) == g * PAGE;
    assert Addr(0, i, j, k) / GIB == i;
  }

  /** `pdpt` is the table behind the first root entry. */
  ghost predicate Upper(mem: Memory, root: nat, nodes: map<nat, Node>, pdpt: nat) {
    Tree(mem, root, nodes) && pdpt in nodes && nodes[pdpt] == Pdpt(0)
  }

  lemma {:induction false} LinkFrom(mem: Memory, root: nat, nodes: map<nat, Node>, f: nat, g: nat)
    requires Tree(mem, root, nodes) && f in nodes && nodes[f] != Root && g in nodes && nodes[g] == ParentLabel(nodes[f])
    ensures LinkedFrom(mem, nodes, g, f)
  {
    assert HasParent(mem, nodes, f);
  }

  lemma {:induction false} UpperWalk(mem: Memory, root: nat, nodes: map<nat, Node>, pdpt: nat, w: nat)
    requires Upper(mem, root, nodes, pdpt) && IdxA(w) == 0
    ensures Present(Slot(mem, root, 0)) && Base(Slot(mem, root, 0)) == pdpt && Walk3(mem, root, nodes, w) == pdpt
    ensures Walk2(mem, root, nodes, w) == var e := Slot(mem, pdpt, IdxB(w)); if Present(e) then Base(e) else 0
  {
    LinkFrom(mem, root, nodes, pdpt, root);
  }

  /** Entry j of the page directory of gigabyte i, as the walk for its first page sees it. */
  lemma {:induction false} DirectoryWalk(mem: Memory, root: nat, nodes: map<nat, Node>, pdpt: nat, i: nat, j: nat, k: nat)
    requires Upper(mem, root, nodes, pdpt) && i < SLOTS && j < SLOTS && k < SLOTS && Present(Slot(mem, pdpt, i))
    ensures var pd, w := Base(Slot(mem, pdpt, i)), Addr(0, i, j, k);
            && pd in nodes && nodes[pd] == Pd(0, i) && pd < |mem| && |mem[pd]| == PAGE && PdEntry(mem, root, nodes, w) == Slot(mem, pd, j)
            && var e := Slot(mem, pd, j);
               Present(e) && !Large(e) ==>
                 Base(e) in nodes && nodes[Base(e)] == Pt(0, i, j) && 0 < Base(e) < |mem| && |mem[Base(e)]| == PAGE && PtEntry(mem, root, nodes, w) == Slot(mem, Base(e), k)
  {
    AddrIndices(0, i, j, k);
    UpperWalk(mem, root, nodes, pdpt, Addr(0, i, j, k));
    var pd := Base(Slot(mem, pdpt, i));
    assert EdgeOk(mem, nodes, pdpt, i);
    assert EdgeOk(mem, nodes, pd, j);
  }

  /** A visited page is one of `pages`. */
  lemma {:induction false} VisitedPage(mem: Memory, root: nat, nodes: map<nat, Node>, pages: map<nat, nat>, lapic: nat, pdpt: nat, i: nat, j: nat, k: nat, f: nat)
    requires Upper(mem, root, nodes, pdpt) && PagesMatch(mem, root, nodes, pages, lapic)
    requires 1 <= i < SLOTS && i != lapic && j < SLOTS && k < SLOTS && Present(Slot(mem, pdpt, i))
    requires var pd := Base(Slot(mem, pdpt, i)); pd in nodes && pd < |mem| && var e := Slot(mem, pd, j); Present(e) && !Large(e) && PtHas(mem, Base(e), k, f)
    ensures f in pages
  {
    var w := Addr(0, i, j, k);
    AddrInUser(i, j, k, lapic);
    DirectoryWalk(mem, root, nodes, pdpt, i, j, k);
    assert PageOwned(mem, root, nodes, pages, w);
  }

  lemma {:induction false} VisitedLarge(mem: Memory, root: nat, nodes: map<nat, Node>, pages: map<nat, nat>, lapic: nat, pdpt: nat, i: nat, j: nat, f: nat)
    requires Upper(mem, root, nodes, pdpt) && PagesMatch(mem, root, nodes, pages, lapic)
    requires 1 <= i < SLOTS && i != lapic && j < SLOTS && Present(Slot(mem, pdpt, i))
    requires var pd := Base(Slot(mem, pdpt, i)); pd in nodes && pd < |mem| && var e := Slot(mem, pd, j); Present(e) && Large(e) && LargeBase(e) <= f < LargeBase(e) + SLOTS
    ensures f in pages
  {
    var w := Addr(0, i, j, 0);
    AddrInUser(i, j, 0, lapic);
    DirectoryWalk(mem, root, nodes, pdpt, i, j, 0);
    LargeFrameOwned(mem, root, nodes, pages, lapic, w, PdEntry(mem, root, nodes, w), f);
  }

  /** What is visited under one directory entry is a page or a page table. */
  lemma {:induction false} VisitedEntry(mem: Memory, root: nat, nodes: map<nat, Node>, pages: map<nat, nat>, lapic: nat, pdpt: nat, i: nat, j: nat, f: nat)
    requires Upper(mem, root, nodes, pdpt) && PagesMatch(mem, root, nodes, pages, lapic)
    requires 1 <= i < SLOTS && i != lapic && j < SLOTS && Present(Slot(mem, pdpt, i)) && PdHas(mem, Base(Slot(mem, pdpt, i)), j, f)
    ensures f in pages || (f in nodes && nodes[f] == Pt(0, i, j))
  {
    var pd := Base(Slot(mem, pdpt, i));
    DirectoryWalk(mem, root, nodes, pdpt, i, j, 0);
    var e := Slot(mem, pd, j);
    if Large(e) {
      VisitedLarge(mem, root, nodes, pages, lapic, pdpt, i, j, f);
    } else if f != Base(e) {
      var k: nat :| k < SLOTS && PtHas(mem, Base(e), k, f);
      VisitedPage(mem, root, nodes, pages, lapic, pdpt, i, j, k, f);
    }
  }

  /** The frames that free_user_tree gives back. */
  predicate GivenBack(nodes: map<nat, Node>, pages: map<nat, nat>, lapic: nat, f: nat) {
    f in pages || (PrivateTable(nodes, f) && !LapicTable(nodes[f], lapic))
  }

  lemma {:induction false} VisitedIsOwned(mem: Memory, root: nat, nodes: map<nat, Node>, pages: map<nat, nat>, lapic: nat, pdpt: nat, f: nat)
    requires Upper(mem, root, nodes, pdpt) && PagesMatch(mem, root, nodes, pages, lapic)
    requires f == root || f == pdpt || InPdpt(mem, pdpt, SLOTS, lapic, f)
    ensures GivenBack(nodes, pages, lapic, f)
  {
    if f != root && f != pdpt {
      var i: nat :| 1 <= i < SLOTS && i != lapic && PdptHas(mem, pdpt, i, f);
      DirectoryWalk(mem, root, nodes, pdpt, i, 0, 0);
      if f != Base(Slot(mem, pdpt, i)) {
        var j: nat :| j < SLOTS && PdHas(mem, Base(Slot(mem, pdpt, i)), j, f);
        VisitedEntry(mem, root, nodes, pages, lapic, pdpt, i, j, f);
      }
    }
  }

  // ---- owned means visited ----

  lemma {:induction false} PageVisited(mem: Memory, root: nat, nodes: map<nat, Node>, pages: map<nat, nat>, lapic: nat, pdpt: nat, f: nat)
    requires Upper(mem, root, nodes, pdpt) && PagesMatch(mem, root, nodes, pages, lapic) && f in pages
    ensures InPdpt(mem, pdpt, SLOTS, lapic, f)
  {
    assert FrameMapped(mem, root, nodes, pages, lapic, f);
    var w := pages[f] * PAGE;
    InUserIndices(w, lapic);
    UpperWalk(mem, root, nodes, pdpt, w);
    var pd := Walk2(mem, root, nodes, w);
    PageInPd(mem, root, nodes, w, f);
    assert PdptHas(mem, pdpt, IdxB(w), f);
  }

  lemma {:induction false} PageInPd(mem: Memory, root: nat, nodes: map<nat, Node>, w: nat, f: nat)
    requires Tree(mem, root, nodes) && LeafOf(mem, root, nodes, w) != NoLeaf && LeafFrame(LeafOf(mem, root, nodes, w), w) == f
    ensures Walk2(mem, root, nodes, w) != 0 && InPd(mem, Walk2(mem, root, nodes, w), SLOTS, f)
  {
    var pd := Walk2(mem, root, nodes, w);
    if LeafOf(mem, root, nodes, w).Small? {
      assert PtHas(mem, Walk1(mem, root, nodes, w), IdxD(w), f);
    }
    assert PdHas(mem, pd, IdxC(w), f);
  }

  lemma {:induction false} DirectoryVisited(mem: Memory, root: nat, nodes: map<nat, Node>, lapic: nat, pdpt: nat, f: nat)
    requires Upper(mem, root, nodes, pdpt) && f in nodes && nodes[f].Pd? && nodes[f].a == 0 && nodes[f].b >= 1 && nodes[f].b != lapic
    ensures InPdpt(mem, pdpt, SLOTS, lapic, f)
  {
    LinkFrom(mem, root, nodes, f, pdpt);
    assert PdptHas(mem, pdpt, nodes[f].b, f);
  }

  lemma {:induction false} PageTableVisited(mem: Memory, root: nat, nodes: map<nat, Node>, lapic: nat, pdpt: nat, f: nat)
    requires Upper(mem, root, nodes, pdpt) && f in nodes && nodes[f].Pt? && nodes[f].a == 0 && nodes[f].b >= 1 && nodes[f].b != lapic
    ensures InPdpt(mem, pdpt, SLOTS, lapic, f)
  {
    assert HasParent(mem, nodes, f);
    var g :| LinkedFrom(mem, nodes, g, f);
    LinkFrom(mem, root, nodes, g, pdpt);
    assert PdHas(mem, g, nodes[f].c, f);
    assert InPd(mem, g, SLOTS, f);
    assert PdptHas(mem, pdpt, nodes[f].b, f);
  }

  lemma {:induction false} OwnedIsVisited(mem: Memory, root: nat, nodes: map<nat, Node>, pages: map<nat, nat>, lapic: nat, pdpt: nat, f: nat)
    requires Upper(mem, root, nodes, pdpt) && PagesMatch(mem, root, nodes, pages, lapic) && LapicAlone(nodes, lapic) && GivenBack(nodes, pages, lapic, f)
    ensures f == root || f == pdpt || InPdpt(mem, pdpt, SLOTS, lapic, f)
  {
    if f in pages {
      PageVisited(mem, root, nodes, pages, lapic, pdpt, f);
    } else if nodes[f].Pd? {
      DirectoryVisited(mem, root, nodes, lapic, pdpt, f);
    } else if nodes[f].Pt? {
      PageTableVisited(mem, root, nodes, lapic, pdpt, f);
    }
  }

  // ---- nothing visited is frame 0 ----

  lemma {:induction false} OwnedIsSafe(mem: Memory, root: nat, nodes: map<nat, Node>, pages: map<nat, nat>, lapic: nat, pdpt: nat)
    requires Upper(mem, root, nodes, pdpt) && PagesMatch(mem, root, nodes, pages, lapic) && (forall f :: f in pages ==> f > 0)
    ensures PdptSafe(mem, pdpt, lapic)
  {
    forall i: nat | 1 <= i < SLOTS && i != lapic ensures PdptEntrySafe(mem, pdpt, i) {
      if Present(Slot(mem, pdpt, i)) {
        DirectoryWalk(mem, root, nodes, pdpt, i, 0, 0);
        var pd := Base(Slot(mem, pdpt, i));
        forall j: nat | j < SLOTS ensures PdEntrySafe(mem, pd, j) { EntryIsSafe(mem, root, nodes, pages, lapic, pdpt, i, j); }
      }
    }
  }

  lemma {:induction false} EntryIsSafe(mem: Memory, root: nat, nodes: map<nat, Node>, pages: map<nat, nat>, lapic: nat, pdpt: nat, i: nat, j: nat)
    requires Upper(mem, root, nodes, pdpt) && PagesMatch(mem, root, nodes, pages, lapic) && (forall f :: f in pages ==> f > 0)
    requires 1 <= i < SLOTS && i != lapic && j < SLOTS && Present(Slot(mem, pdpt, i))
    ensures PdEntrySafe(mem, Base(Slot(mem, pdpt, i)), j)
  {
    var pd := Base(Slot(mem, pdpt, i));
    DirectoryWalk(mem, root, nodes, pdpt, i, j, 0);
    var e := Slot(mem, pd, j);
    if Present(e) && Large(e) {
      VisitedLarge(mem, root, nodes, pages, lapic, pdpt, i, j, LargeBase(e));
    } else if Present(e) {
      forall k: nat, f | PtHas(mem, Base(e), k, f) ensures f > 0 {
        VisitedPage(mem, root, nodes, pages, lapic, pdpt, i, j, k, f);
      }
    }
  }

  // ---- conservation ----

  /** paging_free_address_space: gives back every frame of `all` that the caller does not hold,
      short only of the page directory of the local APIC's gigabyte. */
  method FreeAddressSpace(m: Machine, cr3: nat, ghost nodes: map<nat, Node>, ghost pdpt: nat, ghost pages: map<nat, nat>, ghost held: set<nat>, ghost all: set<nat>)
    requires m.Valid() && m.lapicBase < TWO39
    requires cr3 != 0 && cr3 != m.kernelRoot ==>
               Owned(m.mem, cr3, nodes, m.pmm.free, pages, held, all, m.lapicBase / GIB) && Upper(m.mem, cr3, nodes, pdpt)
    modifies m.pmm, m.pmm.bitmap
    ensures m.Valid()
    ensures if cr3 == 0 || cr3 == m.kernelRoot then m.pmm.free == old(m.pmm.free)
            else forall f :: f in m.pmm.free <==> f in all && f !in held && !(f in nodes && LapicTable(nodes[f], m.lapicBase / GIB))
  {
    if cr3 == 0 || cr3 == m.kernelRoot { return; }
    ghost var lapic := m.lapicBase / GIB;
    UpperWalk(m.mem, cr3, nodes, pdpt, 0);
    OwnedIsSafe(m.mem, cr3, nodes, pages, lapic, pdpt);
    FreeUserTree(m, cr3, m.lapicBase / GIB, pdpt);
    forall f: nat
      ensures f in old(m.pmm.free) || ((f == cr3 || f == pdpt || InPdpt(m.mem, pdpt, SLOTS, lapic, f)) && f < MAX_FRAMES) <==>
                f in all && f !in held && !(f in nodes && LapicTable(nodes[f], lapic))
    {
      Returned(m.mem, cr3, nodes, old(m.pmm.free), pages, held, all, lapic, pdpt, f);
    }
  }

  /** Free before or visited now: that is all of `all` but for what is held and the skipped table. */
  lemma {:induction false} Returned(mem: Memory, root: nat, nodes: map<nat, Node>, free: set<nat>, pages: map<nat, nat>, held: set<nat>, all: set<nat>, lapic: nat, pdpt: nat, f: nat)
    requires Owned(mem, root, nodes, free, pages, held, all, lapic) && Upper(mem, root, nodes, pdpt)
    ensures f in free || ((f == root || f == pdpt || InPdpt(mem, pdpt, SLOTS, lapic, f)) && f < MAX_FRAMES) <==>
              f in all && f !in held && !(f in nodes && LapicTable(nodes[f], lapic))
  {
    if GivenBack(nodes, pages, lapic, f) {
      OwnedIsVisited(mem, root, nodes, pages, lapic, pdpt, f);
    } else if f == root || f == pdpt || InPdpt(mem, pdpt, SLOTS, lapic, f) {
      VisitedIsOwned(mem, root, nodes, pages, lapic, pdpt, f);
    }
    BackOrHeld(nodes, free, pages, held, all, lapic, f);
  }

  lemma {:induction false} BackOrHeld(nodes: map<nat, Node>, free: set<nat>, pages: map<nat, nat>, held: set<nat>, all: set<nat>, lapic: nat, f: nat)
    requires Divided(nodes, free, pages, held, all)
    ensures f in free || (GivenBack(nodes, pages, lapic, f) && f < MAX_FRAMES) <==> f in all && f !in held && !(f in nodes && LapicTable(nodes[f], lapic))
  {
  }
}
