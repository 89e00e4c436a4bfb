/** Mapping, unmapping and translating pages (mem/mm/paging.c), over the frame allocator. */
module Paging {
  import opened Basics
  import opened LittleEndian
  import opened Bits
  import opened FrameAllocation
  import opened PageTables

  const USER_RW: nat := 6       // PAGING_FLAG_USER | PAGING_FLAG_WRITABLE

  /** Label n is a table that the walk for va uses. */
  predicate OnPath(n: Node, va: nat) {
    match n
    case Root => true
    case Pdpt(a) => a == IdxA(va)
    case Pd(a, b) => a == IdxA(va) && b == IdxB(va)
    case Pt(a, b, c) => a == IdxA(va) && b == IdxB(va) && c == IdxC(va)
  }

  /** Tables are only added, and only out of free frames, on the path of va; memory outside the
      path is untouched. */
  ghost predicate Extends(mem: Memory, mem': Memory, nodes: map<nat, Node>, nodes': map<nat, Node>, free: set<nat>, free': set<nat>, va: nat) {
    && |mem'| == |mem|
    && (forall f :: f in nodes ==> f in nodes' && nodes'[f] == nodes[f])
    && (forall f :: f in nodes' && f !in nodes ==> f in free && OnPath(nodes'[f], va))
    && (forall f :: f in free' <==> f in free && f !in nodes')
    && (forall f :: 0 <= f < |mem| && !(f in nodes' && OnPath(nodes'[f], va)) ==> mem'[f] == mem[f])
  }

  // ---- the tables a map needs ----

  function LowestTable(va: nat): Node { Pt(IdxA(va), IdxB(va), IdxC(va)) }

  /** The places of the tables below the root that a 2 MiB page at va needs, and those a page needs. */
  function LargeTablesFor(va: nat): set<Node> { {Pdpt(IdxA(va)), Pd(IdxA(va), IdxB(va))} }

  function TablesFor(va: nat): set<Node> { LargeTablesFor(va) + {LowestTable(va)} }

  /** paging_map's checks, and nothing in the way. */
  ghost predicate MayMap(mem: Memory, root: nat, nodes: map<nat, Node>, va: nat, phys: nat)
    requires Tree(mem, root, nodes)
  {
    va >= USER_BASE && va % PAGE == 0 && phys % PAGE == 0 && LeafOf(mem, root, nodes, va) == NoLeaf
  }

  /** paging_map_large's: here a page table is in the way, even an empty one. */
  ghost predicate MayMapLarge(mem: Memory, root: nat, nodes: map<nat, Node>, va: nat, phys: nat)
    requires Tree(mem, root, nodes)
  {
    va >= USER_BASE && va % HUGE == 0 && phys % HUGE == 0 && !Present(PdEntry(mem, root, nodes, va))
  }

  /** The missing ones of the tables `need` have been made, each out of one free frame. */
  ghost predicate TablesMade(nodes: map<nat, Node>, nodes': map<nat, Node>, free: set<nat>, free': set<nat>, need: set<Node>) {
    nodes'.Values == nodes.Values + need && |free'| == |free| - |need - nodes.Values|
  }

  /** The places that new tables take. */
  lemma {:induction false} PlacesTaken(nodes: map<nat, Node>, nodes': map<nat, Node>, added: map<nat, Node>)
    requires Injective(nodes') && forall f :: f in nodes ==> f in nodes' && nodes'[f] == nodes[f]
    requires added == map f | f in nodes' && f !in nodes :: nodes'[f]
    ensures nodes.Values <= nodes'.Values && nodes'.Values - nodes.Values == added.Values
  {
    forall l | l in nodes.Values ensures l in nodes'.Values {
      var f :| f in nodes && nodes[f] == l;
      assert nodes'[f] == l;
    }
    forall l | l in nodes'.Values && l !in nodes.Values ensures l in added.Values {
      var f :| f in nodes' && nodes'[f] == l;
      assert f !in nodes;
      assert added[f] == l;
    }
    forall l | l in added.Values ensures l in nodes'.Values && l !in nodes.Values {
      var f :| f in added && added[f] == l;
      assert nodes'[f] == l;
    }
  }

  /** Every new table has cost one free frame. */
  lemma {:induction false} TablesTaken(mem: Memory, mem': Memory, root: nat, nodes: map<nat, Node>, nodes': map<nat, Node>, free: set<nat>, free': set<nat>, va: nat)
    requires root in nodes && nodes[root] == Root && Injective(nodes') && Extends(mem, mem', nodes, nodes', free, free', va) && forall f :: f in nodes ==> f !in free
    ensures nodes.Values <= nodes'.Values <= nodes.Values + TablesFor(va)
    ensures |free| == |free'| + |nodes'.Values - nodes.Values|
  {
    var added := map f | f in nodes' && f !in nodes :: nodes'[f];
    PlacesTaken(nodes, nodes', added);
    forall f | f in added ensures added[f] in TablesFor(va) { assert OnPath(nodes'[f], va) && nodes'[f] != Root; }
    ValueCount(added);
    assert free == free' + added.Keys;
  }

  /** So a map that needs the tables `need` is done if and only if the missing ones can be made. */
  lemma {:induction false} EnoughForTables(mem: Memory, mem': Memory, root: nat, nodes: map<nat, Node>, nodes': map<nat, Node>, free: set<nat>, free': set<nat>, va: nat,
                                           need: set<Node>, last: Node, ok: bool)
    requires root in nodes && nodes[root] == Root && Injective(nodes') && Extends(mem, mem', nodes, nodes', free, free', va) && forall f :: f in nodes ==> f !in free
    requires nodes'.Values <= nodes.Values + need && last in need
    requires if ok then need <= nodes'.Values else free' == {} && last !in nodes'.Values
    ensures ok <==> |need - nodes.Values| <= |free|
    ensures ok ==> TablesMade(nodes, nodes', free, free', need)
  {
    TablesTaken(mem, mem', root, nodes, nodes', free, free', va);
    var added, missing := nodes'.Values - nodes.Values, need - nodes.Values;
    SubsetCount(added, missing);
    if ok {
      assert added == missing;
    } else {
      assert last in missing && last !in added;
    }
  }

  /** Entries that were present are as they were. */
  ghost predicate PresentKept(mem: Memory, mem': Memory, nodes: map<nat, Node>) {
    forall f, i: nat :: f in nodes && i < SLOTS ==> EntryKept(mem, mem', f, i)
  }

  predicate EntryKept(mem: Memory, mem': Memory, f: nat, i: nat)
    requires i < SLOTS
  {
    f < |mem| && f < |mem'| && |mem[f]| == PAGE && |mem'[f]| == PAGE && (Present(Slot(mem, f, i)) ==> Slot(mem', f, i) == Slot(mem, f, i))
  }

  lemma {:induction false} PresentKeptTrans(m0: Memory, m1: Memory, m2: Memory, n0: map<nat, Node>, n1: map<nat, Node>)
    requires PresentKept(m0, m1, n0) && PresentKept(m1, m2, n1) && forall f :: f in n0 ==> f in n1
    ensures PresentKept(m0, m2, n0)
  {
    forall f, i: nat | f in n0 && i < SLOTS ensures EntryKept(m0, m2, f, i) {
      assert EntryKept(m0, m1, f, i) && EntryKept(m1, m2, f, i);
    }
  }

  lemma {:induction false} OneSlotKept(mem: Memory, mem': Memory, nodes: map<nat, Node>, f: nat, i: nat)
    requires OneSlot(mem, mem', nodes, f, i) && i < SLOTS && f in nodes && f < |mem| && |mem[f]| == PAGE && !Present(Slot(mem, f, i))
    ensures PresentKept(mem, mem', nodes)
  {
    forall g, j: nat | g in nodes && j < SLOTS ensures EntryKept(mem, mem', g, j) {
      assert !(g == f && j == i) ==> SlotKept(mem, mem', g, j);
    }
  }

  /** A table is on the walk for va if and only if its place is taken. */
  lemma {:induction false} WalkIffPlace(mem: Memory, root: nat, nodes: map<nat, Node>, va: nat)
    requires Tree(mem, root, nodes)
    ensures Walk3(mem, root, nodes, va) != 0 <==> Pdpt(IdxA(va)) in nodes.Values
    ensures Walk2(mem, root, nodes, va) != 0 <==> Pd(IdxA(va), IdxB(va)) in nodes.Values
    ensures Walk1(mem, root, nodes, va) != 0 <==> LowestTable(va) in nodes.Values
    ensures Walk2(mem, root, nodes, va) != 0 ==> Walk3(mem, root, nodes, va) != 0
    ensures Walk1(mem, root, nodes, va) != 0 ==> Walk2(mem, root, nodes, va) != 0
  {
    var f3, f2, f1 := Walk3(mem, root, nodes, va), Walk2(mem, root, nodes, va), Walk1(mem, root, nodes, va);
    assert f3 != 0 ==> nodes[f3] in nodes.Values;
    assert f2 != 0 ==> nodes[f2] in nodes.Values;
    assert f1 != 0 ==> nodes[f1] in nodes.Values;
    forall f | f in nodes && nodes[f] == Pdpt(IdxA(va)) ensures f3 != 0 { assert HasParent(mem, nodes, f); }
    forall f | f in nodes && nodes[f] == Pd(IdxA(va), IdxB(va)) ensures f2 != 0 {
      assert HasParent(mem, nodes, f);
      var g :| LinkedFrom(mem, nodes, g, f);
      assert HasParent(mem, nodes, g);
    }
    forall f | f in nodes && nodes[f] == LowestTable(va) ensures f1 != 0 {
      assert HasParent(mem, nodes, f);
      var g :| LinkedFrom(mem, nodes, g, f);
      assert HasParent(mem, nodes, g);
      var h :| LinkedFrom(mem, nodes, h, g);
      assert HasParent(mem, nodes, h);
    }
  }

  ghost predicate SameLeaves(mem: Memory, mem': Memory, root: nat, nodes: map<nat, Node>, nodes': map<nat, Node>)
    requires Tree(mem, root, nodes) && Tree(mem', root, nodes')
  {
    forall w: nat :: LeafOf(mem', root, nodes', w) == LeafOf(mem, root, nodes, w)
  }

  lemma {:induction false} ExtendsSelf(mem: Memory, nodes: map<nat, Node>, free: set<nat>, va: nat)
    requires forall f :: f in nodes ==> f !in free
    ensures Extends(mem, mem, nodes, nodes, free, free, va)
  {
  }

  lemma {:induction false} ExtendsTrans(m0: Memory, m1: Memory, m2: Memory, n0: map<nat, Node>, n1: map<nat, Node>, n2: map<nat, Node>,
                                        f0: set<nat>, f1: set<nat>, f2: set<nat>, va: nat)
    requires Extends(m0, m1, n0, n1, f0, f1, va) && Extends(m1, m2, n1, n2, f1, f2, va)
    ensures Extends(m0, m2, n0, n2, f0, f2, va)
  {
    forall f | 0 <= f < |m0| && !(f in n2 && OnPath(n2[f], va)) ensures m2[f] == m0[f] {
      assert !(f in n1 && OnPath(n1[f], va));
    }
  }

  lemma {:induction false} ExtendsLeaf(m0: Memory, m1: Memory, m2: Memory, n0: map<nat, Node>, n1: map<nat, Node>, f0: set<nat>, f1: set<nat>, va: nat, x: nat)
    requires Extends(m0, m1, n0, n1, f0, f1, va) && x in n1 && OnPath(n1[x], va) && |m2| == |m1|
    requires forall f :: 0 <= f < |m2| && f != x ==> m2[f] == m1[f]
    ensures Extends(m0, m2, n0, n1, f0, f1, va)
  {
  }

  /** The walk depends on the indices of the address only. */
  lemma {:induction false} WalkByIndex(mem: Memory, root: nat, nodes: map<nat, Node>, va: nat, w: nat)
    requires Tree(mem, root, nodes) && IdxA(va) == IdxA(w) && IdxB(va) == IdxB(w)
    ensures Walk2(mem, root, nodes, w) == Walk2(mem, root, nodes, va)
    ensures IdxC(va) == IdxC(w) ==> PdEntry(mem, root, nodes, w) == PdEntry(mem, root, nodes, va) && Walk1(mem, root, nodes, w) == Walk1(mem, root, nodes, va)
    ensures IdxC(va) == IdxC(w) && IdxD(va) == IdxD(w) ==> PtEntry(mem, root, nodes, w) == PtEntry(mem, root, nodes, va)
  {
  }

  /** What the walk finds after table entries have been followed one by one. */
  lemma {:induction false} WalkFollows(mem: Memory, root: nat, nodes: map<nat, Node>, va: nat, pdpt: nat, pd: nat)
    requires Tree(mem, root, nodes) && pdpt in nodes && pd in nodes && pdpt < |mem| && pd < |mem|
    requires Present(Slot(mem, root, IdxA(va))) && Base(Slot(mem, root, IdxA(va))) == pdpt
    requires Present(Slot(mem, pdpt, IdxB(va))) && Base(Slot(mem, pdpt, IdxB(va))) == pd
    ensures Walk2(mem, root, nodes, va) == pd && PdEntry(mem, root, nodes, va) == Slot(mem, pd, IdxC(va))
    ensures var e := Slot(mem, pd, IdxC(va)); Present(e) && !Large(e) ==> Walk1(mem, root, nodes, va) == Base(e)
    ensures var e := Slot(mem, pd, IdxC(va)); Present(e) && !Large(e) && Base(e) in nodes && Base(e) < |mem| ==> PtEntry(mem, root, nodes, va) == Slot(mem, Base(e), IdxD(va))
  {
  }

  /** Setting the page-table entry of va changes the translation of its page and of no other. */
  lemma {:induction false} PtEntrySet(mem: Memory, mem': Memory, root: nat, nodes: map<nat, Node>, va: nat, pt: nat, w: nat)
    requires Tree(mem, root, nodes) && Tree(mem', root, nodes) && va < TWO48 && w < TWO48
    requires pt != 0 && Walk1(mem, root, nodes, va) == pt && OneSlot(mem, mem', nodes, pt, IdxD(va))
    ensures pt in nodes && |mem'| == |mem| && pt < |mem'|
    ensures var e := Slot(mem', pt, IdxD(va));
            LeafOf(mem', root, nodes, w) ==
              if w / PAGE == va / PAGE then if Present(e) then Small(e) else NoLeaf
              else LeafOf(mem, root, nodes, w)
  {
    PtSlotEffect(mem, mem', root, nodes, pt, IdxD(va), w);
    SamePage(va, w);
    if IdxA(va) == IdxA(w) && IdxB(va) == IdxB(w) && IdxC(va) == IdxC(w) {
      WalkByIndex(mem, root, nodes, va, w);
    }
  }

  /** Setting the page-directory entry of va to a leaf, or clearing it, changes the translation
      of its 2 MiB and of nothing else. */
  lemma {:induction false} PdEntrySet(mem: Memory, mem': Memory, root: nat, nodes: map<nat, Node>, va: nat, pd: nat, w: nat)
    requires Tree(mem, root, nodes) && Tree(mem', root, nodes) && va < TWO48 && w < TWO48
    requires pd != 0 && Walk2(mem, root, nodes, va) == pd && OneSlot(mem, mem', nodes, pd, IdxC(va))
    requires pd in nodes && |mem'| == |mem| && pd < |mem'|
    requires var e := Slot(mem', pd, IdxC(va)); !Present(e) || Large(e)
    ensures var e := Slot(mem', pd, IdxC(va));
            LeafOf(mem', root, nodes, w) ==
              if w / HUGE == va / HUGE then if Present(e) then Big(e) else NoLeaf
              else LeafOf(mem, root, nodes, w)
  {
    PdSlotEffect(mem, mem', root, nodes, pd, IdxC(va), w);
    SameHuge(va, w);
    WalkSlots(mem, mem', root, nodes, pd, IdxC(va), w);
    if IdxA(va) == IdxA(w) && IdxB(va) == IdxB(w) {
      WalkByIndex(mem, root, nodes, va, w);
    }
  }

  /** The map after the page (or the 2 MiB) of va has been given the leaf l, NoLeaf to take it out:
      the addresses in it see l, all others what they saw before. */
  ghost predicate SetsPage(mem: Memory, mem': Memory, root: nat, nodes: map<nat, Node>, nodes': map<nat, Node>, va: nat, size: nat, l: Leaf)
    requires Tree(mem, root, nodes) && Tree(mem', root, nodes') && size > 0
  {
    forall w: nat :: w < TWO48 ==> LeafOf(mem', root, nodes', w) == if w / size == va / size then l else LeafOf(mem, root, nodes, w)
  }

  /** What paging_translate returns after paging_map, at every offset of every page. */
  lemma {:induction false} MapTranslates(mem: Memory, mem': Memory, root: nat, nodes: map<nat, Node>, nodes': map<nat, Node>, va: nat, phys: nat, flags: nat, w: nat)
    requires Tree(mem, root, nodes) && Tree(mem', root, nodes') && w < TWO48 && phys % PAGE == 0 && Within(flags / PAGE, phys / PAGE)
    requires SetsPage(mem, mem', root, nodes, nodes', va, PAGE, Small(LeafEntry(phys, flags)))
    ensures Translate(mem', root, nodes', w) == if w / PAGE == va / PAGE then Mapped(phys + w % PAGE) else Translate(mem, root, nodes, w)
  {
    LeafFields(phys, flags);
    AddressKept(phys, flags);
  }

  lemma {:induction false} MapLargeTranslates(mem: Memory, mem': Memory, root: nat, nodes: map<nat, Node>, nodes': map<nat, Node>, va: nat, phys: nat, flags: nat, w: nat)
    requires Tree(mem, root, nodes) && Tree(mem', root, nodes') && w < TWO48 && phys % HUGE == 0 && Within(flags / HUGE, phys / HUGE)
    requires SetsPage(mem, mem', root, nodes, nodes', va, HUGE, Big(LargeEntry(phys, flags)))
    ensures Translate(mem', root, nodes', w) == if w / HUGE == va / HUGE then Mapped(phys + w % HUGE) else Translate(mem, root, nodes, w)
  {
    LargeFields(phys, flags);
    LargeAddressKept(phys, flags);
  }

  lemma {:induction false} UnmapTranslates(mem: Memory, mem': Memory, root: nat, nodes: map<nat, Node>, va: nat, size: nat, w: nat)
    requires Tree(mem, root, nodes) && Tree(mem', root, nodes) && w < TWO48 && size > 0
    requires SetsPage(mem, mem', root, nodes, nodes, va, size, NoLeaf)
    ensures Translate(mem', root, nodes, w) == if w / size == va / size then Unmapped else Translate(mem, root, nodes, w)
  {
  }

  /** paging_unmap leaves the page table, so paging_map_large is refused in its 2 MiB from then on. */
  lemma {:induction false} EmptiedTableStays(mem: Memory, mem': Memory, root: nat, nodes: map<nat, Node>, va: nat, w: nat, phys: nat)
    requires Tree(mem, root, nodes) && Tree(mem', root, nodes) && LeafOf(mem, root, nodes, va).Small? && va < TWO48 && w < TWO48 && w / HUGE == va / HUGE
    ensures !MayMapLarge(mem', root, nodes, w, phys)
  {
    SameHuge(va, w);
    WalkIffPlace(mem, root, nodes, va);
    WalkIffPlace(mem', root, nodes, w);
  }

  lemma {:induction false} SameLeavesTrans(m0: Memory, m1: Memory, m2: Memory, root: nat, n0: map<nat, Node>, n1: map<nat, Node>, n2: map<nat, Node>)
    requires Tree(m0, root, n0) && Tree(m1, root, n1) && Tree(m2, root, n2)
    requires SameLeaves(m0, m1, root, n0, n1) && SameLeaves(m1, m2, root, n1, n2)
    ensures SameLeaves(m0, m2, root, n0, n2)
  {
    forall w: nat ensures LeafOf(m2, root, n2, w) == LeafOf(m0, root, n0, w) {
      assert LeafOf(m1, root, n1, w) == LeafOf(m0, root, n0, w);
    }
  }

  /** A tree and its leaves depend on the tables only. */
  lemma {:induction false} TreeKept(mem: Memory, mem': Memory, root: nat, nodes: map<nat, Node>)
    requires Tree(mem, root, nodes) && |mem'| == |mem| && MemOk(mem')
    requires forall f :: f in nodes ==> mem'[f] == mem[f]
    ensures Tree(mem', root, nodes) && SameLeaves(mem, mem', root, nodes, nodes)
    ensures forall w: nat :: PdEntry(mem', root, nodes, w) == PdEntry(mem, root, nodes, w) && PtEntry(mem', root, nodes, w) == PtEntry(mem, root, nodes, w)
  {
    forall f, i: nat | f in nodes && i < SLOTS ensures EdgeOk(mem', nodes, f, i) {
      assert EdgeOk(mem, nodes, f, i);
    }
    forall f | f in nodes && nodes[f] != Root ensures HasParent(mem', nodes, f) {
      assert HasParent(mem, nodes, f);
      var g :| LinkedFrom(mem, nodes, g, f);
      assert LinkedFrom(mem', nodes, g, f);
    }
  }

  /** Hanging a table under a page directory leaves the walk to that directory alone. */
  lemma {:induction false} UpperKept(mem: Memory, mem': Memory, root: nat, nodes: map<nat, Node>, nodes': map<nat, Node>, va: nat, pd: nat)
    requires Tree(mem, root, nodes) && Tree(mem', root, nodes') && pd != 0 && Walk2(mem, root, nodes, va) == pd
    requires |mem'| == |mem| && pd in nodes' && pd < |mem'|
    requires forall f :: f in nodes ==> f in nodes'
    requires forall x :: x in nodes && x != pd ==> mem'[x] == mem[x]
    ensures Walk2(mem', root, nodes', va) == pd && PdEntry(mem', root, nodes', va) == Slot(mem', pd, IdxC(va))
    ensures var e := Slot(mem', pd, IdxC(va)); Present(e) && !Large(e) ==>
              && Walk1(mem', root, nodes', va) == Base(e)
              && (Base(e) in nodes' && Base(e) < |mem'| && Base(e) != 0 ==> PtEntry(mem', root, nodes', va) == Slot(mem', Base(e), IdxD(va)))
  {
  }

  lemma {:induction false} PageSet(m0: Memory, m1: Memory, m2: Memory, root: nat, n0: map<nat, Node>, n1: map<nat, Node>, va: nat, pt: nat)
    requires Tree(m0, root, n0) && Tree(m1, root, n1) && Tree(m2, root, n1) && va < TWO48 && SameLeaves(m0, m1, root, n0, n1)
    requires pt != 0 && Walk1(m1, root, n1, va) == pt && OneSlot(m1, m2, n1, pt, IdxD(va)) && pt < |m2|
    ensures var e := Slot(m2, pt, IdxD(va)); SetsPage(m0, m2, root, n0, n1, va, PAGE, if Present(e) then Small(e) else NoLeaf)
  {
    forall w: nat | w < TWO48
      ensures LeafOf(m2, root, n1, w) == if w / PAGE == va / PAGE then var e := Slot(m2, pt, IdxD(va)); if Present(e) then Small(e) else NoLeaf else LeafOf(m0, root, n0, w)
    {
      PtEntrySet(m1, m2, root, n1, va, pt, w);
      assert LeafOf(m1, root, n1, w) == LeafOf(m0, root, n0, w);
    }
  }

  lemma {:induction false} LargeSet(m0: Memory, m1: Memory, m2: Memory, root: nat, n0: map<nat, Node>, n1: map<nat, Node>, va: nat, pd: nat)
    requires Tree(m0, root, n0) && Tree(m1, root, n1) && Tree(m2, root, n1) && va < TWO48 && SameLeaves(m0, m1, root, n0, n1)
    requires pd != 0 && Walk2(m1, root, n1, va) == pd && OneSlot(m1, m2, n1, pd, IdxC(va)) && pd < |m2|
    requires var e := Slot(m2, pd, IdxC(va)); !Present(e) || Large(e)
    ensures var e := Slot(m2, pd, IdxC(va)); SetsPage(m0, m2, root, n0, n1, va, HUGE, if Present(e) then Big(e) else NoLeaf)
  {
    forall w: nat | w < TWO48
      ensures LeafOf(m2, root, n1, w) == if w / HUGE == va / HUGE then var e := Slot(m2, pd, IdxC(va)); if Present(e) then Big(e) else NoLeaf else LeafOf(m0, root, n0, w)
    {
      PdEntrySet(m1, m2, root, n1, va, pd, w);
      assert LeafOf(m1, root, n1, w) == LeafOf(m0, root, n0, w);
    }
  }

  /** The frames of a leaf are real ones and none of them is a table of the tree. */
  ghost predicate LargeUnshared(nodes: map<nat, Node>, d: nat) {
    0 < LargeBase(d) && forall f :: f in nodes ==> !(LargeBase(d) <= f < LargeBase(d) + SLOTS)
  }

  predicate PageUnshared(nodes: map<nat, Node>, p: nat) {
    Base(p) != 0 && Base(p) !in nodes
  }

  ghost predicate FreesRun(free: set<nat>, free': set<nat>, first: nat) {
    forall x: nat :: x in free' <==> x in free || (first <= x < first + SLOTS && x < MAX_FRAMES)
  }

  lemma {:induction false} PageTablesMade(mem: Memory, mem': Memory, root: nat, nodes: map<nat, Node>, nodes': map<nat, Node>, free: set<nat>, free': set<nat>, va: nat, pt: nat)
    requires Tree(mem, root, nodes) && Tree(mem', root, nodes') && Extends(mem, mem', nodes, nodes', free, free', va) && forall f :: f in nodes ==> f !in free
    requires pt != 0 ==> Walk1(mem', root, nodes', va) == pt
    requires pt == 0 && LeafOf(mem, root, nodes, va) == NoLeaf ==> free' == {} && LowestTable(va) !in nodes'.Values
    ensures pt != 0 || LeafOf(mem, root, nodes, va) == NoLeaf ==> (pt != 0 <==> |TablesFor(va) - nodes.Values| <= |free|)
    ensures pt != 0 ==> TablesMade(nodes, nodes', free, free', TablesFor(va))
  {
    TablesTaken(mem, mem', root, nodes, nodes', free, free', va);
    WalkIffPlace(mem', root, nodes', va);
    if pt != 0 || LeafOf(mem, root, nodes, va) == NoLeaf {
      EnoughForTables(mem, mem', root, nodes, nodes', free, free', va, TablesFor(va), LowestTable(va), pt != 0);
    }
  }

  lemma {:induction false} DirectoriesMade(mem: Memory, mem': Memory, root: nat, nodes: map<nat, Node>, nodes': map<nat, Node>, free: set<nat>, free': set<nat>, va: nat, pd: nat)
    requires Tree(mem, root, nodes) && Tree(mem', root, nodes') && Extends(mem, mem', nodes, nodes', free, free', va) && forall f :: f in nodes ==> f !in free
    requires if pd != 0 then Walk2(mem', root, nodes', va) == pd else free' == {} && Pd(IdxA(va), IdxB(va)) !in nodes'.Values
    requires forall x :: x in nodes' && x !in nodes ==> !nodes'[x].Pt?
    ensures pd != 0 <==> |LargeTablesFor(va) - nodes.Values| <= |free|
    ensures pd != 0 ==> TablesMade(nodes, nodes', free, free', LargeTablesFor(va))
  {
    TablesTaken(mem, mem', root, nodes, nodes', free, free', va);
    WalkIffPlace(mem', root, nodes', va);
    forall l | l in nodes'.Values && l !in nodes.Values ensures l in LargeTablesFor(va) {
      var f :| f in nodes' && nodes'[f] == l;
      assert f !in nodes;
    }
    EnoughForTables(mem, mem', root, nodes, nodes', free, free', va, LargeTablesFor(va), Pd(IdxA(va), IdxB(va)), pd != 0);
  }

  class Machine {
    const pmm: FrameAllocator
    var mem: Memory
    var kernelRoot: nat       // frame of the boot page tables
    var lapicBase: nat        // physical address of the local APIC, 0 if not set

    ghost predicate Valid()
      reads this, pmm, pmm.bitmap
    {
      pmm.Valid() && MemOk(mem) && |mem| == MAX_FRAMES && 0 !in pmm.free
    }

    /** The tables of an address space form a tree and are in use. */
    ghost predicate Space(root: nat, nodes: map<nat, Node>)
      reads this, pmm
    {
      Tree(mem, root, nodes) && forall f :: f in nodes ==> f !in pmm.free
    }

    constructor (pmm: FrameAllocator, mem: Memory, kernelRoot: nat)
      requires pmm.Valid() && MemOk(mem) && |mem| == MAX_FRAMES && 0 !in pmm.free
      ensures Valid() && this.pmm == pmm && this.mem == mem && this.kernelRoot == kernelRoot && lapicBase == 0
    {
      this.pmm := pmm;
      this.mem := mem;
      this.kernelRoot := kernelRoot;
      lapicBase := 0;
    }

    lemma FreeBounds()
      requires Valid()
      ensures forall f :: f in pmm.free ==> 0 < f < MAX_FRAMES
    {
    }

    /** One frame from the allocator: 0 only if nothing is free. */
    method AllocFrame() returns (f: nat)
      requires Valid()
      modifies pmm, pmm.bitmap
      ensures Valid()
      ensures f == 0 ==> old(pmm.free) == {} && pmm.free == {}
      ensures f != 0 ==> f in old(pmm.free) && f < MAX_FRAMES && pmm.free == old(pmm.free) - {f}
    {
      var phys := pmm.AllocFrame();
      f := phys / FRAME_SIZE;
    }

    /** Overwrites a frame. */
    method Fill(f: nat, page: Page)
      requires Valid() && f < |mem| && |page| == PAGE
      modifies this`mem
      ensures Valid() && mem == old(mem)[f := page]
    {
      mem := mem[f := page];
    }

    /** The upper two levels of a walk: the page directory for va, or 0. */
    method FindPd(root: nat, va: nat, ghost nodes: map<nat, Node>) returns (pd: nat)
      requires Tree(mem, root, nodes)
      ensures pd == Walk2(mem, root, nodes, va)
    {
      assert EdgeOk(mem, nodes, root, IdxA(va));
      var e4 := Word(mem[root], IdxA(va));
      if !Present(e4) { return 0; }
      var pdpt := Base(e4);
      assert EdgeOk(mem, nodes, pdpt, IdxB(va));
      var e3 := Word(mem[pdpt], IdxB(va));
      if !Present(e3) { return 0; }
      pd := Base(e3);
    }

    /** paging_translate; 0 means not mapped. */
    method TranslateAddr(root: nat, va: nat, ghost nodes: map<nat, Node>) returns (phys: nat)
      requires Valid() && Space(root, nodes)
      ensures phys == match Translate(mem, root, nodes, va) case Unmapped => 0 case Mapped(p) => p
    {
      var pd := FindPd(root, va, nodes);
      if pd == 0 { return 0; }
      assert EdgeOk(mem, nodes, pd, IdxC(va));
      var e2 := Word(mem[pd], IdxC(va));
      if !Present(e2) { return 0; }
      if Large(e2) { return LargeBase(e2) * PAGE + va % HUGE; }
      var pt := Base(e2);
      var e1 := Word(mem[pt], IdxD(va));
      if !Present(e1) { return 0; }
      phys := Base(e1) * PAGE + va % PAGE;
    }

    /** The table behind entry i of table f: the present one, or a new empty one. */
    method EnsureTable(f: nat, i: nat, ghost va: nat, ghost root: nat, ghost nodes: map<nat, Node>) returns (g: nat, ghost nodes': map<nat, Node>)
      requires Valid() && Space(root, nodes) && f in nodes && !nodes[f].Pt? && i < SLOTS
      requires OnPath(nodes[f], va) && OnPath(Child(nodes[f], i), va)
      requires !(nodes[f].Pd? && Present(Slot(mem, f, i)) && Large(Slot(mem, f, i)))
      modifies this`mem, pmm, pmm.bitmap
      ensures Valid() && Space(root, nodes')
      ensures Extends(old(mem), mem, nodes, nodes', old(pmm.free), pmm.free, va) && SameLeaves(old(mem), mem, root, nodes, nodes')
      ensures g == 0 ==> mem == old(mem) && nodes' == nodes && pmm.free == {} && Child(nodes[f], i) !in nodes'.Values
      ensures g != 0 ==> g in nodes' && nodes'[g] == Child(nodes[f], i) && Present(Slot(mem, f, i)) && Base(Slot(mem, f, i)) == g
      ensures if nodes[f].Pd? then g != 0 ==> !Large(Slot(mem, f, i)) else PdEntry(mem, root, nodes', va) == PdEntry(old(mem), root, nodes, va)
      ensures forall x :: x in nodes && x != f ==> mem[x] == old(mem)[x]
      ensures forall x :: x in nodes' && x !in nodes ==> nodes'[x] == Child(nodes[f], i)
      ensures PresentKept(old(mem), mem, nodes)
    {
      nodes' := nodes;
      assert EdgeOk(mem, nodes, f, i);
      ExtendsSelf(mem, nodes, pmm.free, va);
      var e := Word(mem[f], i);
      if Present(e) { return Base(e), nodes; }
      forall h | h in nodes ensures nodes[h] != Child(nodes[f], i) { PlaceIsFree(mem, root, nodes, f, i, h); }
      g := AllocFrame();
      if g == 0 { return 0, nodes; }
      nodes' := HangTable(f, i, g, root, nodes);
    }

    /** Clears frame g and enters it as a table. */
    method HangTable(f: nat, i: nat, g: nat, ghost root: nat, ghost nodes: map<nat, Node>) returns (ghost nodes': map<nat, Node>)
      requires Tree(mem, root, nodes) && |mem| == MAX_FRAMES && i < SLOTS && f in nodes && !nodes[f].Pt? && !Present(Slot(mem, f, i))
      requires g !in nodes && 0 < g < MAX_FRAMES
      modifies this`mem
      ensures nodes' == nodes[g := Child(nodes[f], i)] && Tree(mem, root, nodes') && |mem| == MAX_FRAMES
      ensures SameLeaves(old(mem), mem, root, nodes, nodes')
      ensures !nodes[f].Pd? ==> forall w: nat :: PdEntry(mem, root, nodes', w) == PdEntry(old(mem), root, nodes, w)
      ensures Slot(mem, f, i) == TableEntry(g) && Present(Slot(mem, f, i)) && Base(Slot(mem, f, i)) == g && !Large(Slot(mem, f, i))
      ensures forall x :: 0 <= x < |mem| && x != f && x != g ==> mem[x] == old(mem)[x]
      ensures PresentKept(old(mem), mem, nodes)
    {
      ghost var mem0 := mem;
      mem := mem[g := ZeroPage()];
      mem := mem[f := PutWord(mem[f], i, TableEntry(g))];
      nodes' := nodes[g := Child(nodes[f], i)];
      TableEntryFacts(g);
      MakeNewTable(mem0, root, nodes, f, i, g);
      OneSlotKept(mem0, mem, nodes, f, i);
      NewTableTree(mem0, mem, root, nodes, f, i, g);
      forall w: nat
        ensures LeafOf(mem, root, nodes', w) == LeafOf(mem0, root, nodes, w) && (!nodes[f].Pd? ==> PdEntry(mem, root, nodes', w) == PdEntry(mem0, root, nodes, w))
      {
        NewTableEffect(mem0, mem, root, nodes, nodes', f, i, g, w);
      }
    }

    /** The two upper levels of paging_map and paging_map_large. */
    method EnsurePd(root: nat, va: nat, ghost nodes: map<nat, Node>) returns (pd: nat, ghost nodes': map<nat, Node>)
      requires Valid() && Space(root, nodes)
      modifies this`mem, pmm, pmm.bitmap
      ensures Valid() && Space(root, nodes')
      ensures Extends(old(mem), mem, nodes, nodes', old(pmm.free), pmm.free, va) && SameLeaves(old(mem), mem, root, nodes, nodes')
      ensures pd == 0 ==> pmm.free == {} && Pd(IdxA(va), IdxB(va)) !in nodes'.Values
      ensures pd != 0 ==> pd in nodes' && Walk2(mem, root, nodes', va) == pd
      ensures PdEntry(mem, root, nodes', va) == PdEntry(old(mem), root, nodes, va)
      ensures forall x :: x in nodes' && x !in nodes ==> !nodes'[x].Pt?
      ensures PresentKept(old(mem), mem, nodes)
    {
      ghost var n1, n2;
      var pdpt;
      pdpt, n1 := EnsureTable(root, IdxA(va), va, root, nodes);
      if pdpt == 0 {
        WalkIffPlace(mem, root, n1, va);
        return 0, n1;
      }
      ghost var m1, f1 := mem, pmm.free;
      pd, n2 := EnsureTable(pdpt, IdxB(va), va, root, n1);
      ExtendsTrans(old(mem), m1, mem, nodes, n1, n2, old(pmm.free), f1, pmm.free, va);
      SameLeavesTrans(old(mem), m1, mem, root, nodes, n1, n2);
      PresentKeptTrans(old(mem), m1, mem, nodes, n1);
      nodes' := n2;
      if pd != 0 { WalkFollows(mem, root, n2, va, pdpt, pd); }
    }

    /** The lowest table for va, if no large page is in the way and the page is not mapped yet. */
    method EnsurePt(root: nat, va: nat, ghost nodes: map<nat, Node>) returns (pt: nat, ghost nodes': map<nat, Node>)
      requires Valid() && Space(root, nodes)
      modifies this`mem, pmm, pmm.bitmap
      ensures Valid() && Space(root, nodes')
      ensures Extends(old(mem), mem, nodes, nodes', old(pmm.free), pmm.free, va) && SameLeaves(old(mem), mem, root, nodes, nodes')
      ensures pt == 0 && LeafOf(old(mem), root, nodes, va) == NoLeaf ==> pmm.free == {} && LowestTable(va) !in nodes'.Values
      ensures pt != 0 ==> pt in nodes' && Walk1(mem, root, nodes', va) == pt && !Present(Slot(mem, pt, IdxD(va)))
      ensures pt != 0 ==> LeafOf(old(mem), root, nodes, va) == NoLeaf
    {
      var pd;
      ghost var n1;
      pd, n1 := EnsurePd(root, va, nodes);
      nodes' := n1;
      WalkIffPlace(mem, root, n1, va);
      if pd == 0 { return 0, n1; }
      assert LeafOf(mem, root, n1, va) == LeafOf(old(mem), root, nodes, va);
      assert EdgeOk(mem, n1, pd, IdxC(va));
      var e := Word(mem[pd], IdxC(va));
      if Present(e) && !Large(e) {
        pt := Base(e);
        if Present(Word(mem[pt], IdxD(va))) { return 0, n1; }
      } else if Present(e) {
        return 0, n1;
      } else {
        ghost var m1, f1 := mem, pmm.free;
        pt, nodes' := NewPt(root, va, pd, n1);
        ExtendsTrans(old(mem), m1, mem, nodes, n1, nodes', old(pmm.free), f1, pmm.free, va);
        SameLeavesTrans(old(mem), m1, mem, root, nodes, n1, nodes');
      }
    }

    /** EnsurePd, with the number of frames it takes. */
    method CountPd(root: nat, va: nat, ghost nodes: map<nat, Node>) returns (pd: nat, ghost nodes': map<nat, Node>)
      requires Valid() && Space(root, nodes)
      modifies this`mem, pmm, pmm.bitmap
      ensures Valid() && Space(root, nodes')
      ensures Extends(old(mem), mem, nodes, nodes', old(pmm.free), pmm.free, va) && SameLeaves(old(mem), mem, root, nodes, nodes')
      ensures pd == 0 ==> pmm.free == {} && Pd(IdxA(va), IdxB(va)) !in nodes'.Values
      ensures pd != 0 ==> pd in nodes' && Walk2(mem, root, nodes', va) == pd && TablesMade(nodes, nodes', old(pmm.free), pmm.free, LargeTablesFor(va))
      ensures pd != 0 <==> |LargeTablesFor(va) - nodes.Values| <= |old(pmm.free)|
      ensures PdEntry(mem, root, nodes', va) == PdEntry(old(mem), root, nodes, va)
      ensures forall x :: x in nodes' && x !in nodes ==> !nodes'[x].Pt?
      ensures PresentKept(old(mem), mem, nodes)
    {
      pd, nodes' := EnsurePd(root, va, nodes);
      DirectoriesMade(old(mem), mem, root, nodes, nodes', old(pmm.free), pmm.free, va, pd);
    }

    /** EnsurePt, with the number of frames it takes. */
    method CountPt(root: nat, va: nat, ghost nodes: map<nat, Node>) returns (pt: nat, ghost nodes': map<nat, Node>)
      requires Valid() && Space(root, nodes)
      modifies this`mem, pmm, pmm.bitmap
      ensures Valid() && Space(root, nodes')
      ensures Extends(old(mem), mem, nodes, nodes', old(pmm.free), pmm.free, va) && SameLeaves(old(mem), mem, root, nodes, nodes')
      ensures pt == 0 && LeafOf(old(mem), root, nodes, va) == NoLeaf ==> pmm.free == {} && LowestTable(va) !in nodes'.Values
      ensures pt != 0 ==> pt in nodes' && Walk1(mem, root, nodes', va) == pt && !Present(Slot(mem, pt, IdxD(va)))
      ensures pt != 0 ==> TablesMade(nodes, nodes', old(pmm.free), pmm.free, TablesFor(va))
      ensures pt != 0 <==> LeafOf(old(mem), root, nodes, va) == NoLeaf && |TablesFor(va) - nodes.Values| <= |old(pmm.free)|
    {
      pt, nodes' := EnsurePt(root, va, nodes);
      PageTablesMade(old(mem), mem, root, nodes, nodes', old(pmm.free), pmm.free, va, pt);
    }

    /** A new lowest table under an absent page-directory entry. */
    method NewPt(root: nat, va: nat, pd: nat, ghost nodes: map<nat, Node>) returns (pt: nat, ghost nodes': map<nat, Node>)
      requires Valid() && Space(root, nodes) && pd != 0 && Walk2(mem, root, nodes, va) == pd && !Present(PdEntry(mem, root, nodes, va))
      modifies this`mem, pmm, pmm.bitmap
      ensures Valid() && Space(root, nodes')
      ensures Extends(old(mem), mem, nodes, nodes', old(pmm.free), pmm.free, va) && SameLeaves(old(mem), mem, root, nodes, nodes')
      ensures LeafOf(old(mem), root, nodes, va) == NoLeaf
      ensures pt == 0 ==> pmm.free == {} && LowestTable(va) !in nodes'.Values
      ensures pt != 0 ==> pt in nodes' && Walk1(mem, root, nodes', va) == pt && !Present(Slot(mem, pt, IdxD(va)))
    {
      ghost var m1 := mem;
      assert LeafOf(m1, root, nodes, va) == NoLeaf;
      pt, nodes' := EnsureTable(pd, IdxC(va), va, root, nodes);
      if pt != 0 {
        UpperKept(m1, mem, root, nodes, nodes', va, pd);
        assert LeafOf(mem, root, nodes', va) == LeafOf(m1, root, nodes, va);
      }
    }

    /** Stores v in slot i of a lowest table. */
    method StoreLeaf(f: nat, i: nat, v: nat, ghost root: nat, ghost nodes: map<nat, Node>)
      requires Valid() && Space(root, nodes) && f in nodes && i < SLOTS && v < TWO64
      requires IsLeafSlot(nodes, f, Slot(mem, f, i)) && IsLeafSlot(nodes, f, v)
      modifies this`mem
      ensures Valid() && Space(root, nodes) && OneSlot(old(mem), mem, nodes, f, i) && Slot(mem, f, i) == v
      ensures forall x :: 0 <= x < |mem| && x != f ==> mem[x] == old(mem)[x]
    {
      PutWordOneSlot(mem, nodes, f, i, v);
      mem := mem[f := PutWord(mem[f], i, v)];
      LeafKeepsTree(old(mem), mem, root, nodes, f, i);
    }

    /** paging_map */
    method Map(root: nat, va: nat, phys: nat, flags: nat, ghost nodes: map<nat, Node>) returns (ok: bool, ghost nodes': map<nat, Node>)
      requires Valid() && Space(root, nodes) && va < TWO48 && phys < TWO64 && flags < TWO64
      modifies this`mem, pmm, pmm.bitmap
      ensures Valid() && Space(root, nodes') && Extends(old(mem), mem, nodes, nodes', old(pmm.free), pmm.free, va)
      ensures ok ==> SetsPage(old(mem), mem, root, nodes, nodes', va, PAGE, Small(LeafEntry(phys, flags))) && LeafOf(old(mem), root, nodes, va) == NoLeaf
      ensures ok ==> va >= USER_BASE && va % PAGE == 0 && phys % PAGE == 0
      ensures !ok ==> SameLeaves(old(mem), mem, root, nodes, nodes')
      ensures va < USER_BASE || va % PAGE != 0 || phys % PAGE != 0 ==> !ok && mem == old(mem) && nodes' == nodes && pmm.free == old(pmm.free)
      ensures ok <==> MayMap(old(mem), root, nodes, va, phys) && |TablesFor(va) - nodes.Values| <= |old(pmm.free)|
      ensures ok ==> TablesMade(nodes, nodes', old(pmm.free), pmm.free, TablesFor(va))
      ensures !ok && MayMap(old(mem), root, nodes, va, phys) ==> pmm.free == {} && LowestTable(va) !in nodes'.Values
    {
      nodes' := nodes;
      ExtendsSelf(mem, nodes, pmm.free, va);
      if va < USER_BASE || va % PAGE != 0 || phys % PAGE != 0 { return false, nodes; }
      ok, nodes' := MapChecked(root, va, phys, flags, nodes);
    }

    /** paging_map after its checks. */
    method MapChecked(root: nat, va: nat, phys: nat, flags: nat, ghost nodes: map<nat, Node>) returns (ok: bool, ghost nodes': map<nat, Node>)
      requires Valid() && Space(root, nodes) && va < TWO48 && phys < TWO64 && flags < TWO64 && phys % PAGE == 0
      modifies this`mem, pmm, pmm.bitmap
      ensures Valid() && Space(root, nodes') && Extends(old(mem), mem, nodes, nodes', old(pmm.free), pmm.free, va)
      ensures if ok then SetsPage(old(mem), mem, root, nodes, nodes', va, PAGE, Small(LeafEntry(phys, flags))) else SameLeaves(old(mem), mem, root, nodes, nodes')
      ensures ok <==> LeafOf(old(mem), root, nodes, va) == NoLeaf && |TablesFor(va) - nodes.Values| <= |old(pmm.free)|
      ensures ok ==> TablesMade(nodes, nodes', old(pmm.free), pmm.free, TablesFor(va))
      ensures !ok && LeafOf(old(mem), root, nodes, va) == NoLeaf ==> pmm.free == {} && LowestTable(va) !in nodes'.Values
    {
      var pt;
      pt, nodes' := CountPt(root, va, nodes);
      if pt == 0 { return false, nodes'; }
      ghost var m1 := mem;
      EnterPage(root, va, pt, phys, flags, nodes');
      PageSet(old(mem), m1, mem, root, nodes, nodes', va, pt);
      ExtendsLeaf(old(mem), m1, mem, nodes, nodes', old(pmm.free), pmm.free, va, pt);
      ok := true;
    }

    method EnterPage(ghost root: nat, va: nat, pt: nat, phys: nat, flags: nat, ghost nodes: map<nat, Node>)
      requires Valid() && Space(root, nodes) && va < TWO48 && phys % PAGE == 0 && phys < TWO64 && flags < TWO64
      requires pt != 0 && Walk1(mem, root, nodes, va) == pt
      modifies this`mem
      ensures Valid() && Space(root, nodes) && OneSlot(old(mem), mem, nodes, pt, IdxD(va))
      ensures var e := Slot(mem, pt, IdxD(va)); Present(e) && e == LeafEntry(phys, flags)
      ensures forall x :: 0 <= x < |mem| && x != pt ==> mem[x] == old(mem)[x]
    {
      LeafFields(phys, flags);
      EntryBounds(phys, flags);
      StoreLeaf(pt, IdxD(va), LeafEntry(phys, flags), root, nodes);
    }

    method EnterLarge(ghost root: nat, va: nat, pd: nat, phys: nat, flags: nat, ghost nodes: map<nat, Node>)
      requires Valid() && Space(root, nodes) && va < TWO48 && phys < TWO64 && flags < TWO64
      requires pd != 0 && Walk2(mem, root, nodes, va) == pd && !Present(Slot(mem, pd, IdxC(va)))
      modifies this`mem
      ensures Valid() && Space(root, nodes) && OneSlot(old(mem), mem, nodes, pd, IdxC(va)) && PresentKept(old(mem), mem, nodes)
      ensures var e := Slot(mem, pd, IdxC(va)); Present(e) && Large(e) && e == LargeEntry(phys, flags)
      ensures forall x :: 0 <= x < |mem| && x != pd ==> mem[x] == old(mem)[x]
    {
      LargeFields(phys, flags);
      EntryBounds(phys, flags);
      StoreLeaf(pd, IdxC(va), LargeEntry(phys, flags), root, nodes);
      OneSlotKept(old(mem), mem, nodes, pd, IdxC(va));
    }

    /** paging_map_large */
    method MapLarge(root: nat, va: nat, phys: nat, flags: nat, ghost nodes: map<nat, Node>) returns (ok: bool, ghost nodes': map<nat, Node>)
      requires Valid() && Space(root, nodes) && va < TWO48 && phys < TWO64 && flags < TWO64
      modifies this`mem, pmm, pmm.bitmap
      ensures Valid() && Space(root, nodes') && Extends(old(mem), mem, nodes, nodes', old(pmm.free), pmm.free, va)
      ensures ok ==> SetsPage(old(mem), mem, root, nodes, nodes', va, HUGE, Big(LargeEntry(phys, flags))) && !Present(PdEntry(old(mem), root, nodes, va))
      ensures ok ==> va >= USER_BASE && va % HUGE == 0 && phys % HUGE == 0
      ensures !ok ==> SameLeaves(old(mem), mem, root, nodes, nodes')
      ensures va < USER_BASE || va % HUGE != 0 || phys % HUGE != 0 ==> !ok && mem == old(mem) && nodes' == nodes && pmm.free == old(pmm.free)
      ensures forall x :: x in nodes' && x !in nodes ==> !nodes'[x].Pt?
      ensures PresentKept(old(mem), mem, nodes)
      ensures ok <==> MayMapLarge(old(mem), root, nodes, va, phys) && |LargeTablesFor(va) - nodes.Values| <= |old(pmm.free)|
      ensures ok ==> TablesMade(nodes, nodes', old(pmm.free), pmm.free, LargeTablesFor(va))
      ensures !ok && MayMapLarge(old(mem), root, nodes, va, phys) ==> pmm.free == {} && Pd(IdxA(va), IdxB(va)) !in nodes'.Values
    {
      nodes' := nodes;
      ExtendsSelf(mem, nodes, pmm.free, va);
      if va < USER_BASE || va % HUGE != 0 || phys % HUGE != 0 { return false, nodes; }
      ok, nodes' := MapLargeChecked(root, va, phys, flags, nodes);
    }

    /** paging_map_large after its checks. */
    method MapLargeChecked(root: nat, va: nat, phys: nat, flags: nat, ghost nodes: map<nat, Node>) returns (ok: bool, ghost nodes': map<nat, Node>)
      requires Valid() && Space(root, nodes) && va < TWO48 && phys < TWO64 && flags < TWO64
      modifies this`mem, pmm, pmm.bitmap
      ensures Valid() && Space(root, nodes') && Extends(old(mem), mem, nodes, nodes', old(pmm.free), pmm.free, va)
      ensures if ok then SetsPage(old(mem), mem, root, nodes, nodes', va, HUGE, Big(LargeEntry(phys, flags))) else SameLeaves(old(mem), mem, root, nodes, nodes')
      ensures forall x :: x in nodes' && x !in nodes ==> !nodes'[x].Pt?
      ensures PresentKept(old(mem), mem, nodes)
      ensures ok <==> !Present(PdEntry(old(mem), root, nodes, va)) && |LargeTablesFor(va) - nodes.Values| <= |old(pmm.free)|
      ensures ok ==> TablesMade(nodes, nodes', old(pmm.free), pmm.free, LargeTablesFor(va))
      ensures !ok && !Present(PdEntry(old(mem), root, nodes, va)) ==> pmm.free == {} && Pd(IdxA(va), IdxB(va)) !in nodes'.Values
    {
      var pd;
      pd, nodes' := CountPd(root, va, nodes);
      if pd == 0 || Present(Word(mem[pd], IdxC(va))) { return false, nodes'; }
      ghost var m1 := mem;
      EnterLarge(root, va, pd, phys, flags, nodes');
      PresentKeptTrans(old(mem), m1, mem, nodes, nodes');
      LargeSet(old(mem), m1, mem, root, nodes, nodes', va, pd);
      ExtendsLeaf(old(mem), m1, mem, nodes, nodes', old(pmm.free), pmm.free, va, pd);
      ok := true;
    }

    method FreeFrame(f: nat)
      requires Valid() && f > 0
      modifies pmm, pmm.bitmap
      ensures Valid() && pmm.free == old(pmm.free) + (if f < MAX_FRAMES then {f} else {})
    {
      pmm.FreeFrame(f * FRAME_SIZE);
    }

    /** Returns 512 consecutive frames to the allocator. */
    method FreeRun(first: nat)
      requires Valid() && first > 0
      modifies pmm, pmm.bitmap
      ensures Valid() && FreesRun(old(pmm.free), pmm.free, first)
    {
      var k := 0;
      while k < SLOTS
        invariant 0 <= k <= SLOTS && Valid()
        invariant forall x: nat :: x in pmm.free <==> x in old(pmm.free) || (first <= x < first + k && x < MAX_FRAMES)
      {
        FreeFrame(first + k);
        k := k + 1;
      }
    }

    method UnmapLarge(root: nat, va: nat, pd: nat, ghost nodes: map<nat, Node>)
      requires Valid() && Space(root, nodes) && va < TWO48 && pd != 0 && pd == Walk2(mem, root, nodes, va)
      requires var d := Slot(mem, pd, IdxC(va)); Present(d) && Large(d) && LargeUnshared(nodes, d)
      modifies this`mem, pmm, pmm.bitmap
      ensures Valid() && Space(root, nodes)
      ensures forall f :: 0 <= f < |mem| && f != pd ==> mem[f] == old(mem)[f]
      ensures SetsPage(old(mem), mem, root, nodes, nodes, va, HUGE, NoLeaf)
      ensures FreesRun(old(pmm.free), pmm.free, LargeBase(Slot(old(mem), pd, IdxC(va))))
    {
      FreeRun(LargeBase(Word(mem[pd], IdxC(va))));
      StoreLeaf(pd, IdxC(va), 0, root, nodes);
      LargeSet(old(mem), old(mem), mem, root, nodes, nodes, va, pd);
    }

    method UnmapPage(root: nat, va: nat, pt: nat, ghost nodes: map<nat, Node>)
      requires Valid() && Space(root, nodes) && va < TWO48 && pt != 0 && pt == Walk1(mem, root, nodes, va)
      requires var p := Slot(mem, pt, IdxD(va)); Present(p) && PageUnshared(nodes, p)
      modifies this`mem, pmm, pmm.bitmap
      ensures Valid() && Space(root, nodes)
      ensures forall f :: 0 <= f < |mem| && f != pt ==> mem[f] == old(mem)[f]
      ensures SetsPage(old(mem), mem, root, nodes, nodes, va, PAGE, NoLeaf)
      ensures var p := Slot(old(mem), pt, IdxD(va)); pmm.free == old(pmm.free) + (if Base(p) < MAX_FRAMES then {Base(p)} else {})
    {
      FreeFrame(Base(Word(mem[pt], IdxD(va))));
      StoreLeaf(pt, IdxD(va), 0, root, nodes);
      PageSet(old(mem), old(mem), mem, root, nodes, nodes, va, pt);
    }

    /** paging_unmap: takes the 4 KiB page or the whole 2 MiB page of va out of the map and
        returns its frames. */
    method Unmap(root: nat, va: nat, ghost nodes: map<nat, Node>)
      requires Valid() && Space(root, nodes) && va < TWO48
      requires var d := PdEntry(mem, root, nodes, va); Present(d) && Large(d) ==> LargeUnshared(nodes, d)
      requires var p := PtEntry(mem, root, nodes, va); Present(p) ==> PageUnshared(nodes, p)
      modifies this`mem, pmm, pmm.bitmap
      ensures Valid() && Space(root, nodes)
      ensures forall f :: 0 <= f < |mem| && !(f in nodes && OnPath(nodes[f], va)) ==> mem[f] == old(mem)[f]
      ensures var d, p := PdEntry(old(mem), root, nodes, va), PtEntry(old(mem), root, nodes, va);
              if va < USER_BASE then mem == old(mem) && pmm.free == old(pmm.free)
              else if Present(d) && Large(d) then
                SetsPage(old(mem), mem, root, nodes, nodes, va, HUGE, NoLeaf) && FreesRun(old(pmm.free), pmm.free, LargeBase(d))
              else if Present(p) then
                && SetsPage(old(mem), mem, root, nodes, nodes, va, PAGE, NoLeaf)
                && pmm.free == old(pmm.free) + (if Base(p) < MAX_FRAMES then {Base(p)} else {})
              else mem == old(mem) && pmm.free == old(pmm.free)
    {
      if va < USER_BASE { return; }
      var pd := FindPd(root, va, nodes);
      if pd == 0 { return; }
      assert EdgeOk(mem, nodes, pd, IdxC(va));
      var e2 := Word(mem[pd], IdxC(va));
      if !Present(e2) { return; }
      if Large(e2) {
        UnmapLarge(root, va, pd, nodes);
        return;
      }
      var pt := Base(e2);
      if Present(Word(mem[pt], IdxD(va))) {
        UnmapPage(root, va, pt, nodes);
      }
    }
  }
}
