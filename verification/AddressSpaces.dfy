/** Creating an address space (paging_new_address_space), and whole lives of one. */
module AddressSpaces {
  import opened LittleEndian
  import opened FrameAllocation
  import opened PageTables
  import opened Paging
  import opened FrameLedger
  import opened Teardown

  const WRITABLE: nat := 2      // PAGING_FLAG_WRITABLE

  /** Entry e without the user bit. */
  function Supervisor(e: nat): nat { if UserBit(e) then e - 4 else e }

  lemma {:induction false} Octet(u: nat, r: nat)
    requires r < 8
    ensures (8 * u + r) / PAGE == u / SLOTS && Present(8 * u + r) == Present(r) && UserBit(8 * u + r) == UserBit(r)
  {
    var q, v := u / SLOTS, u % SLOTS;
    LowBits(q, 8 * v + r);
    assert 8 * u + r == q * PAGE + (8 * v + r);
    EvenPlus(4 * v, r);
    assert (8 * v + r) / 4 == 2 * v + r / 4;
    EvenPlus(v, r / 4);
  }

  lemma {:induction false} SupervisorFacts(e: nat)
    ensures Base(Supervisor(e)) == Base(e) && Present(Supervisor(e)) == Present(e) && !UserBit(Supervisor(e)) && Supervisor(e) <= e
  {
    var u, r := e / 8, e % 8;
    assert e == 8 * u + r;
    Octet(u, r);
    if r >= 4 { Octet(u, r - 4); }
  }

  /** The kernel's tables, which a new root shares. */
  predicate Shared(n: Node) { !Private(n) }

  function NewNodes(kn: map<nat, Node>, root: nat, pdpt: nat): (nodes: map<nat, Node>)
    ensures root !in kn && pdpt !in kn && root != pdpt ==> NewPlaces(kn, root, pdpt, nodes)
  {
    (map f | f in kn && Shared(kn[f]) :: kn[f])[root := Root][pdpt := Pdpt(0)]
  }

  /** Memory with a new root and its first table: the root leads to `pdpt` at entry 0 and is a copy
      of the kernel's elsewhere; `pdpt` has only the kernel's first gigabyte. */
  ghost predicate NewRoot(mem: Memory, mem': Memory, kroot: nat, kpdpt: nat, root: nat, pdpt: nat) {
    && MemOk(mem) && MemOk(mem') && |mem'| == |mem| && kroot < |mem| && kpdpt < |mem| && 0 < root < |mem| && 0 < pdpt < |mem| && root != pdpt
    && (forall f :: 0 <= f < |mem| && f != root && f != pdpt ==> mem'[f] == mem[f])
    && (forall j: nat :: j < SLOTS ==> RootSlot(mem, mem', kroot, root, pdpt, j) && PdptSlot(mem, mem', kpdpt, pdpt, j))
  }

  predicate RootSlot(mem: Memory, mem': Memory, kroot: nat, root: nat, pdpt: nat, j: nat)
    requires j < SLOTS
  {
    && kroot < |mem| && |mem[kroot]| == PAGE && root < |mem'| && |mem'[root]| == PAGE
    && Slot(mem', root, j) == if j == 0 then TableEntry(pdpt) else Slot(mem, kroot, j)
  }

  predicate PdptSlot(mem: Memory, mem': Memory, kpdpt: nat, pdpt: nat, j: nat)
    requires j < SLOTS
  {
    && kpdpt < |mem| && |mem[kpdpt]| == PAGE && pdpt < |mem'| && |mem'[pdpt]| == PAGE
    && Slot(mem', pdpt, j) == if j == 0 then Supervisor(Slot(mem, kpdpt, 0)) else 0
  }

  /** The kernel's tables as the boot code leaves them: the first gigabyte is present. */
  ghost predicate Kernel(mem: Memory, kroot: nat, kn: map<nat, Node>, kpdpt: nat) {
    && Tree(mem, kroot, kn) && Present(Slot(mem, kroot, 0)) && Base(Slot(mem, kroot, 0)) == kpdpt
    && kpdpt in kn && kn[kpdpt] == Pdpt(0) && kpdpt < |mem| && |mem[kpdpt]| == PAGE && Present(Slot(mem, kpdpt, 0))
  }

  /** The tables of the new tree: two of its own and the kernel's shared ones. */
  ghost predicate NewPlaces(kn: map<nat, Node>, root: nat, pdpt: nat, nodes: map<nat, Node>) {
    && root !in kn && pdpt !in kn && root != pdpt
    && root in nodes && nodes[root] == Root && pdpt in nodes && nodes[pdpt] == Pdpt(0)
    && (forall f :: f in nodes ==> f == root || f == pdpt || (f in kn && Shared(kn[f]) && nodes[f] == kn[f]))
    && (forall f :: f in kn && Shared(kn[f]) ==> f in nodes)
  }

  ghost predicate Made(mem: Memory, mem': Memory, kroot: nat, kn: map<nat, Node>, kpdpt: nat, root: nat, pdpt: nat, nodes: map<nat, Node>) {
    Kernel(mem, kroot, kn, kpdpt) && NewRoot(mem, mem', kroot, kpdpt, root, pdpt) && NewPlaces(kn, root, pdpt, nodes)
  }

  lemma {:induction false} NewEdges(mem: Memory, mem': Memory, kroot: nat, kn: map<nat, Node>, kpdpt: nat, root: nat, pdpt: nat, nodes: map<nat, Node>, f: nat, i: nat)
    requires Made(mem, mem', kroot, kn, kpdpt, root, pdpt, nodes) && f in nodes && i < SLOTS
    ensures f < |mem'| && |mem'[f]| == PAGE && EdgeOk(mem', nodes, f, i)
  {
    TableEntryFacts(pdpt);
    if f == root {
      assert RootSlot(mem, mem', kroot, root, pdpt, i) && EdgeOk(mem, kn, kroot, i);
    } else if f == pdpt {
      assert PdptSlot(mem, mem', kpdpt, pdpt, i) && EdgeOk(mem, kn, kpdpt, 0);
      SupervisorFacts(Slot(mem, kpdpt, 0));
    } else {
      assert EdgeOk(mem, kn, f, i);
    }
  }

  lemma {:induction false} NewParents(mem: Memory, mem': Memory, kroot: nat, kn: map<nat, Node>, kpdpt: nat, root: nat, pdpt: nat, nodes: map<nat, Node>, f: nat)
    requires Made(mem, mem', kroot, kn, kpdpt, root, pdpt, nodes) && f in nodes && f != root
    ensures HasParent(mem', nodes, f)
  {
    TableEntryFacts(pdpt);
    assert RootSlot(mem, mem', kroot, root, pdpt, 0) && PdptSlot(mem, mem', kpdpt, pdpt, 0);
    if f == pdpt {
      assert LinkedFrom(mem', nodes, root, f);
    } else {
      assert HasParent(mem, kn, f);
      var g :| LinkedFrom(mem, kn, g, f);
      var i := ParentSlot(kn[f]);
      if kn[g] == Root {
        assert g == kroot && RootSlot(mem, mem', kroot, root, pdpt, i);
        assert LinkedFrom(mem', nodes, root, f);
      } else if kn[g] == Pdpt(0) {
        SupervisorFacts(Slot(mem, kpdpt, 0));
        assert g == kpdpt;
        assert LinkedFrom(mem', nodes, pdpt, f);
      } else {
        assert LinkedFrom(mem', nodes, g, f);
      }
    }
  }

  lemma {:induction false} NewTables(mem: Memory, mem': Memory, kroot: nat, kn: map<nat, Node>, kpdpt: nat, root: nat, pdpt: nat, nodes: map<nat, Node>)
    requires Made(mem, mem', kroot, kn, kpdpt, root, pdpt, nodes)
    ensures TablesIn(mem', nodes) && Injective(nodes)
  {
  }

  lemma {:induction false} NewTree(mem: Memory, mem': Memory, kroot: nat, kn: map<nat, Node>, kpdpt: nat, root: nat, pdpt: nat, nodes: map<nat, Node>)
    requires Made(mem, mem', kroot, kn, kpdpt, root, pdpt, nodes)
    ensures Tree(mem', root, nodes)
  {
    NewTables(mem, mem', kroot, kn, kpdpt, root, pdpt, nodes);
    forall f, i: nat | f in nodes && i < SLOTS ensures EdgeOk(mem', nodes, f, i) { NewEdges(mem, mem', kroot, kn, kpdpt, root, pdpt, nodes, f, i); }
    forall f | f in nodes && nodes[f] != Root ensures HasParent(mem', nodes, f) { NewParents(mem, mem', kroot, kn, kpdpt, root, pdpt, nodes, f); }
  }

  /** What the new tree maps: the kernel's pages below 1 GiB and from 512 GiB on, nothing between. */
  lemma {:induction false} NewLeaves(mem: Memory, mem': Memory, kroot: nat, kn: map<nat, Node>, kpdpt: nat, root: nat, pdpt: nat, nodes: map<nat, Node>, w: nat)
    requires Made(mem, mem', kroot, kn, kpdpt, root, pdpt, nodes) && Tree(mem', root, nodes)
    ensures LeafOf(mem', root, nodes, w) ==
              if IdxA(w) == 0 && IdxB(w) != 0 then NoLeaf else LeafOf(mem, kroot, kn, w)
    ensures IdxA(w) == 0 && IdxB(w) != 0 ==> PdEntry(mem', root, nodes, w) == 0
  {
    TableEntryFacts(pdpt);
    assert RootSlot(mem, mem', kroot, root, pdpt, IdxA(w)) && PdptSlot(mem, mem', kpdpt, pdpt, IdxB(w));
    SupervisorFacts(Slot(mem, kpdpt, 0));
    assert EdgeOk(mem, kn, kroot, IdxA(w));
    if IdxA(w) == 0 {
      FirstGigabyte(mem, mem', kroot, kn, kpdpt, root, pdpt, nodes, w);
    } else {
      HigherRoots(mem, mem', kroot, kn, kpdpt, root, pdpt, nodes, w);
    }
  }

  lemma {:induction false} FirstGigabyte(mem: Memory, mem': Memory, kroot: nat, kn: map<nat, Node>, kpdpt: nat, root: nat, pdpt: nat, nodes: map<nat, Node>, w: nat)
    requires Made(mem, mem', kroot, kn, kpdpt, root, pdpt, nodes) && Tree(mem', root, nodes) && IdxA(w) == 0
    ensures Walk2(mem', root, nodes, w) == if IdxB(w) != 0 then 0 else Walk2(mem, kroot, kn, w)
    ensures LeafOf(mem', root, nodes, w) == if IdxB(w) != 0 then NoLeaf else LeafOf(mem, kroot, kn, w)
  {
    FirstWalk(mem, mem', kroot, kn, kpdpt, root, pdpt, nodes, w);
    if IdxB(w) == 0 {
      SameFromPd(mem, mem', kroot, kn, root, nodes, w);
    } else {
      NothingBelow(mem', root, nodes, w);
    }
  }

  lemma {:induction false} NothingBelow(mem: Memory, root: nat, nodes: map<nat, Node>, w: nat)
    requires Tree(mem, root, nodes) && Walk2(mem, root, nodes, w) == 0
    ensures LeafOf(mem, root, nodes, w) == NoLeaf && PdEntry(mem, root, nodes, w) == 0
  {
  }

  lemma {:induction false} FirstWalk(mem: Memory, mem': Memory, kroot: nat, kn: map<nat, Node>, kpdpt: nat, root: nat, pdpt: nat, nodes: map<nat, Node>, w: nat)
    requires Made(mem, mem', kroot, kn, kpdpt, root, pdpt, nodes) && Tree(mem', root, nodes) && IdxA(w) == 0
    ensures Walk2(mem', root, nodes, w) == if IdxB(w) != 0 then 0 else Walk2(mem, kroot, kn, w)
  {
    TableEntryFacts(pdpt);
    assert RootSlot(mem, mem', kroot, root, pdpt, 0) && PdptSlot(mem, mem', kpdpt, pdpt, IdxB(w));
    SupervisorFacts(Slot(mem, kpdpt, 0));
    assert Walk3(mem', root, nodes, w) == pdpt;
    assert Walk3(mem, kroot, kn, w) == kpdpt;
  }

  lemma {:induction false} HigherRoots(mem: Memory, mem': Memory, kroot: nat, kn: map<nat, Node>, kpdpt: nat, root: nat, pdpt: nat, nodes: map<nat, Node>, w: nat)
    requires Made(mem, mem', kroot, kn, kpdpt, root, pdpt, nodes) && Tree(mem', root, nodes) && IdxA(w) != 0
    ensures LeafOf(mem', root, nodes, w) == LeafOf(mem, kroot, kn, w)
  {
    assert RootSlot(mem, mem', kroot, root, pdpt, IdxA(w));
    var f3 := Walk3(mem, kroot, kn, w);
    assert Walk3(mem', root, nodes, w) == f3;
    assert f3 != 0 ==> mem'[f3] == mem[f3];
    assert Walk2(mem', root, nodes, w) == Walk2(mem, kroot, kn, w);
    SameFromPd(mem, mem', kroot, kn, root, nodes, w);
  }

  /** From an equal page directory on, the walks see the same. */
  lemma {:induction false} SameFromPd(mem: Memory, mem': Memory, kroot: nat, kn: map<nat, Node>, root: nat, nodes: map<nat, Node>, w: nat)
    requires Tree(mem, kroot, kn) && Tree(mem', root, nodes) && Walk2(mem', root, nodes, w) == Walk2(mem, kroot, kn, w)
    requires |mem'| == |mem| && forall f :: f in kn ==> mem'[f] == mem[f]
    ensures LeafOf(mem', root, nodes, w) == LeafOf(mem, kroot, kn, w)
  {
    var f2 := Walk2(mem, kroot, kn, w);
    assert f2 != 0 ==> mem'[f2] == mem[f2];
    var f1 := Walk1(mem, kroot, kn, w);
    assert Walk1(mem', root, nodes, w) == f1;
    assert f1 != 0 ==> mem'[f1] == mem[f1];
  }

  // ---- paging_new_address_space ----

  lemma {:induction false} WordBound(p: Page, i: nat)
    requires |p| == PAGE && i < SLOTS
    ensures Word(p, i) < TWO64
  {
    ToFromLe(p[8 * i..8 * i + 8]);
    Pow256Values();
  }

  /** A page whose words from 1 on are those of `from`, and whose word 0 is v. */
  method CopyRoot(from: Page, v: nat) returns (p: Page)
    requires |from| == PAGE && v < TWO64
    ensures |p| == PAGE && forall j: nat :: j < SLOTS ==> Word(p, j) == if j == 0 then v else Word(from, j)
  {
    p := ZeroPage();
    var i := 1;
    while i < SLOTS
      invariant 1 <= i <= SLOTS && |p| == PAGE && forall j: nat :: 1 <= j < i ==> Word(p, j) == Word(from, j)
    {
      WordBound(from, i);
      ghost var q := p;
      p := PutWord(p, i, Word(from, i));
      forall j: nat | 1 <= j <= i ensures Word(p, j) == Word(from, j) { PutWordGet(q, i, Word(from, i), j); }
      i := i + 1;
    }
    ghost var q := p;
    p := PutWord(p, 0, v);
    forall j: nat | j < SLOTS ensures Word(p, j) == if j == 0 then v else Word(from, j) { PutWordGet(q, 0, v, j); }
  }

  /** The first table: only the kernel's gigabyte, for the supervisor. */
  method FirstTable(e: nat) returns (p: Page)
    requires e < TWO64 && Present(e)
    ensures |p| == PAGE && forall j: nat :: j < SLOTS ==> Word(p, j) == if j == 0 then Supervisor(e) else 0
  {
    SupervisorFacts(e);
    p := PutWord(ZeroPage(), 0, Supervisor(e));
    forall j: nat | j < SLOTS ensures Word(p, j) == if j == 0 then Supervisor(e) else 0 {
      PutWordGet(ZeroPage(), 0, Supervisor(e), j);
      ZeroPageWord(j);
    }
  }

  /** The two frames of a new tree; both or none. */
  method TwoFrames(m: Machine) returns (root: nat, pdpt: nat)
    requires m.Valid()
    modifies m.pmm, m.pmm.bitmap
    ensures m.Valid()
    ensures root == 0 ==> m.pmm.free == old(m.pmm.free) && |old(m.pmm.free)| <= 1
    ensures root != 0 ==> |m.pmm.free| + 2 == |old(m.pmm.free)|
    ensures root != 0 ==> root in old(m.pmm.free) && pdpt in old(m.pmm.free) && root != pdpt && root < MAX_FRAMES && 0 < pdpt < MAX_FRAMES
    ensures root != 0 ==> m.pmm.free == old(m.pmm.free) - {root, pdpt}
  {
    root := m.AllocFrame();
    pdpt := m.AllocFrame();
    if root == 0 || pdpt == 0 {
      if root != 0 {
        assert old(m.pmm.free) == {root};
        m.FreeFrame(root);
      }
      return 0, 0;
    }
  }

  /** The new root and its first table, before the local APIC is added. */
  method BuildRoot(m: Machine, ghost kn: map<nat, Node>, ghost kpdpt: nat) returns (root: nat, pdpt: nat, ghost nodes: map<nat, Node>)
    requires m.Valid() && m.Space(m.kernelRoot, kn) && Kernel(m.mem, m.kernelRoot, kn, kpdpt)
    modifies m`mem, m.pmm, m.pmm.bitmap
    ensures m.Valid()
    ensures root == 0 ==> m.mem == old(m.mem) && m.pmm.free == old(m.pmm.free) && |old(m.pmm.free)| <= 1
    ensures root != 0 ==> Made(old(m.mem), m.mem, m.kernelRoot, kn, kpdpt, root, pdpt, nodes)
    ensures root != 0 ==> root in old(m.pmm.free) && pdpt in old(m.pmm.free) && m.pmm.free == old(m.pmm.free) - {root, pdpt} && |m.pmm.free| + 2 == |old(m.pmm.free)|
  {
    nodes := map[];
    root, pdpt := TwoFrames(m);
    if root == 0 { return; }
    nodes := NewNodes(kn, root, pdpt);
    FillRoot(m, root, pdpt, kn, kpdpt);
  }

  /** The contents of the two tables. */
  method FillRoot(m: Machine, root: nat, pdpt: nat, ghost kn: map<nat, Node>, ghost kpdpt: nat)
    requires m.Valid() && Kernel(m.mem, m.kernelRoot, kn, kpdpt) && 0 < root < MAX_FRAMES && 0 < pdpt < MAX_FRAMES && root != pdpt
    modifies m`mem
    ensures m.Valid() && NewRoot(old(m.mem), m.mem, m.kernelRoot, kpdpt, root, pdpt)
  {
    var first := Base(Word(m.mem[m.kernelRoot], 0));
    var rootPage := CopyRoot(m.mem[m.kernelRoot], TableEntry(pdpt));
    WordBound(m.mem[first], 0);
    var firstPage := FirstTable(Word(m.mem[first], 0));
    m.mem := m.mem[root := rootPage][pdpt := firstPage];
    PagesMakeRoot(old(m.mem), m.mem, m.kernelRoot, kpdpt, root, pdpt, rootPage, firstPage);
  }

  lemma {:induction false} PagesMakeRoot(mem: Memory, mem': Memory, kroot: nat, kpdpt: nat, root: nat, pdpt: nat, p: Page, q: Page)
    requires MemOk(mem) && kroot < |mem| && kpdpt < |mem| && 0 < root < |mem| && 0 < pdpt < |mem| && root != pdpt
    requires |p| == PAGE && forall j: nat :: j < SLOTS ==> Word(p, j) == if j == 0 then TableEntry(pdpt) else Word(mem[kroot], j)
    requires |q| == PAGE && forall j: nat :: j < SLOTS ==> Word(q, j) == if j == 0 then Supervisor(Word(mem[kpdpt], 0)) else 0
    requires mem' == mem[root := p][pdpt := q]
    ensures NewRoot(mem, mem', kroot, kpdpt, root, pdpt)
  {
    forall j: nat | j < SLOTS ensures RootSlot(mem, mem', kroot, root, pdpt, j) && PdptSlot(mem, mem', kpdpt, pdpt, j) {
    }
  }

  // ---- the ledger of a new space ----

  lemma {:induction false} NewOwned(mem: Memory, mem': Memory, kroot: nat, kn: map<nat, Node>, kpdpt: nat, root: nat, pdpt: nat, nodes: map<nat, Node>, free: set<nat>, all: set<nat>, lapic: nat)
    requires Made(mem, mem', kroot, kn, kpdpt, root, pdpt, nodes) && free == all - {root, pdpt} && root in all && pdpt in all && (forall f :: f in kn ==> f !in all)
    requires forall f :: f in all ==> 0 < f < MAX_FRAMES
    ensures Owned(mem', root, nodes, free, map[], {}, all, lapic) && Upper(mem', root, nodes, pdpt)
  {
    NewTree(mem, mem', kroot, kn, kpdpt, root, pdpt, nodes);
    forall w: nat | InUser(w, lapic) ensures PageOwned(mem', root, nodes, map[], w) {
      InUserIndices(w, lapic);
      NewLeaves(mem, mem', kroot, kn, kpdpt, root, pdpt, nodes, w);
    }
  }

  /** Adding the local APIC's 2 MiB, or failing to, takes at most a page directory out of the free frames. */
  lemma {:induction false} LapicAdded(mem: Memory, mem': Memory, root: nat, nodes: map<nat, Node>, nodes': map<nat, Node>, free: set<nat>, free': set<nat>, all: set<nat>, va: nat, lapic: nat, l: Leaf)
    requires Owned(mem, root, nodes, free, map[], {}, all, lapic) && Tree(mem', root, nodes') && USER_BASE <= va < TWO39 && lapic == va / GIB
    requires Extends(mem, mem', nodes, nodes', free, free', va) && (forall x :: x in nodes' && x !in nodes ==> !nodes'[x].Pt?)
    requires SameLeaves(mem, mem', root, nodes, nodes') || SetsPage(mem, mem', root, nodes, nodes', va, HUGE, l)
    ensures Owned(mem', root, nodes', free', map[], {}, all, lapic)
  {
    LapicDivided(mem, mem', nodes, nodes', free, free', all, va, lapic);
    forall w: nat | InUser(w, lapic) ensures PageOwned(mem', root, nodes', map[], w) {
      InUserIndices(w, lapic);
      OtherGigabyte(w, va, lapic);
      assert PageOwned(mem, root, nodes, map[], w);
      assert LeafOf(mem', root, nodes', w) == LeafOf(mem, root, nodes, w);
    }
  }

  lemma {:induction false} OtherGigabyte(w: nat, va: nat, lapic: nat)
    requires w / GIB != va / GIB
    ensures w / HUGE != va / HUGE
  {
    assert w / GIB == w / HUGE / SLOTS && va / GIB == va / HUGE / SLOTS;
  }

  lemma {:induction false} LapicDivided(mem: Memory, mem': Memory, nodes: map<nat, Node>, nodes': map<nat, Node>, free: set<nat>, free': set<nat>, all: set<nat>, va: nat, lapic: nat)
    requires Divided(nodes, free, map[], {}, all) && LapicAlone(nodes, lapic) && USER_BASE <= va < TWO39 && lapic == va / GIB
    requires Extends(mem, mem', nodes, nodes', free, free', va) && (forall x :: x in nodes' && x !in nodes ==> !nodes'[x].Pt?)
    ensures Divided(nodes', free', map[], {}, all) && LapicAlone(nodes', lapic)
  {
    InUserIndices(va, 0);
    forall f | f in nodes' && f !in nodes ensures f in free && Private(nodes'[f]) {
      assert OnPath(nodes'[f], va);
    }
    forall f ensures f in all <==> f in free' || PrivateTable(nodes', f) {
      assert PrivateTable(nodes, f) ==> PrivateTable(nodes', f);
      assert f in all <==> f in free || PrivateTable(nodes, f);
    }
  }

  /** The local APIC address is unset, or that of a 2 MiB page of the first 512 GiB. */
  predicate LapicOk(base: nat) { base == 0 || (USER_BASE <= base < TWO39 && base % HUGE == 0) }

  /** Only frames that were free have been written, and tables that are not the new space's own are
      the kernel's. */
  ghost predicate OnlyNew(mem0: Memory, mem: Memory, free0: set<nat>, kn: map<nat, Node>, nodes: map<nat, Node>) {
    && |mem| == |mem0| && (forall f :: 0 <= f < |mem| && f !in free0 ==> mem[f] == mem0[f])
    && (forall f :: f in nodes && Shared(nodes[f]) ==> f in kn && kn[f] == nodes[f])
  }

  lemma {:induction false} LapicOnlyNew(mem0: Memory, mem: Memory, mem': Memory, kn: map<nat, Node>, nodes: map<nat, Node>, nodes': map<nat, Node>, free: set<nat>, free': set<nat>, all: set<nat>, va: nat)
    requires OnlyNew(mem0, mem, all, kn, nodes) && Extends(mem, mem', nodes, nodes', free, free', va) && Divided(nodes', free', map[], {}, all) && USER_BASE <= va < TWO39
    ensures OnlyNew(mem0, mem', all, kn, nodes')
  {
    forall f | f in nodes' && OnPath(nodes'[f], va) ensures f in all && !Shared(nodes'[f]) {
      PathIsPrivate(nodes'[f], va, 0);
      assert PrivateTable(nodes', f);
    }
  }

  /** The entry of the first gigabyte is for the supervisor. */
  ghost predicate Guarded(mem: Memory, pdpt: nat) {
    pdpt < |mem| && |mem[pdpt]| == PAGE && Present(Slot(mem, pdpt, 0)) && !UserBit(Slot(mem, pdpt, 0))
  }

  /** The two upper levels of the walk for w allow user mode. */
  ghost predicate UserPath(mem: Memory, root: nat, nodes: map<nat, Node>, w: nat)
    requires Tree(mem, root, nodes)
  {
    var f := Walk3(mem, root, nodes, w);
    f != 0 && UserBit(Slot(mem, root, IdxA(w))) && UserBit(Slot(mem, f, IdxB(w)))
  }

  /** User code cannot reach anything below 1 GiB. */
  lemma {:induction false} GuardedKeepsOut(mem: Memory, root: nat, nodes: map<nat, Node>, pdpt: nat, w: nat)
    requires Upper(mem, root, nodes, pdpt) && Guarded(mem, pdpt) && w < USER_BASE
    ensures !UserPath(mem, root, nodes, w)
  {
    LowIndices(w);
  }

  /** The local APIC is mapped, under a page directory of the new tree's own. */
  ghost predicate LapicMapped(mem: Memory, root: nat, nodes: map<nat, Node>, base: nat)
    requires Tree(mem, root, nodes)
  {
    LeafOf(mem, root, nodes, base) == Big(LargeEntry(base, WRITABLE)) && exists f :: f in nodes && LapicTable(nodes[f], base / GIB)
  }

  lemma {:induction false} GuardKept(mem: Memory, mem': Memory, nodes: map<nat, Node>, pdpt: nat)
    requires PresentKept(mem, mem', nodes) && Guarded(mem, pdpt) && pdpt in nodes
    ensures Guarded(mem', pdpt)
  {
    assert EntryKept(mem, mem', pdpt, 0);
  }

  /** The directory of the local APIC's gigabyte is among the tables. */
  predicate HasLapicTable(nodes: map<nat, Node>, lapic: nat) { lapic != 0 && Pd(0, lapic) in nodes.Values }

  /** Of its own the tree has no tables but the root, the first table and that directory. */
  ghost predicate Bare(nodes: map<nat, Node>, lapic: nat) {
    Pdpt(0) in nodes.Values && forall f :: f in nodes && Private(nodes[f]) ==> nodes[f] == Root || nodes[f] == Pdpt(0) || LapicTable(nodes[f], lapic)
  }

  lemma {:induction false} NewPlacesTaken(kn: map<nat, Node>, root: nat, pdpt: nat, nodes: map<nat, Node>, lapic: nat)
    requires NewPlaces(kn, root, pdpt, nodes)
    ensures Bare(nodes, lapic) && !HasLapicTable(nodes, lapic)
  {
    assert nodes[pdpt] in nodes.Values;
    forall f | f in nodes && lapic != 0 ensures nodes[f] != Pd(0, lapic) { }
  }

  /** The one table that the local APIC's 2 MiB still need. */
  lemma {:induction false} LapicTables(nodes: map<nat, Node>, base: nat)
    requires USER_BASE <= base < TWO39 && Pdpt(0) in nodes.Values && !HasLapicTable(nodes, base / GIB)
    ensures |LargeTablesFor(base) - nodes.Values| == 1 && Pd(0, base / GIB) in LargeTablesFor(base)
  {
    GigabyteIndex(base);
    assert LargeTablesFor(base) - nodes.Values == {Pd(0, base / GIB)};
  }

  lemma {:induction false} LapicThere(mem: Memory, mem': Memory, root: nat, nodes: map<nat, Node>, nodes': map<nat, Node>, base: nat, ok: bool)
    requires Tree(mem, root, nodes) && Tree(mem', root, nodes') && USER_BASE <= base < TWO39 && PdEntry(mem, root, nodes, base) == 0
    requires if ok then SetsPage(mem, mem', root, nodes, nodes', base, HUGE, Big(LargeEntry(base, WRITABLE))) else SameLeaves(mem, mem', root, nodes, nodes')
    ensures LapicMapped(mem', root, nodes', base) <==> ok
  {
    if ok {
      LapicDirectory(mem', root, nodes', base);
    } else {
      assert LeafOf(mem', root, nodes', base) == LeafOf(mem, root, nodes, base);
      AbsentIsNoLeaf(mem, root, nodes, base);
    }
  }

  lemma {:induction false} AbsentIsNoLeaf(mem: Memory, root: nat, nodes: map<nat, Node>, va: nat)
    requires Tree(mem, root, nodes) && PdEntry(mem, root, nodes, va) == 0
    ensures LeafOf(mem, root, nodes, va) == NoLeaf
  {
  }

  lemma {:induction false} LapicDirectory(mem: Memory, root: nat, nodes: map<nat, Node>, base: nat)
    requires Tree(mem, root, nodes) && USER_BASE <= base < TWO39 && LeafOf(mem, root, nodes, base) == Big(LargeEntry(base, WRITABLE))
    ensures LapicMapped(mem, root, nodes, base)
  {
    GigabyteIndex(base);
    LargeFields(base, WRITABLE);
    BigHasDirectory(mem, root, nodes, base);
  }

  lemma {:induction false} GigabyteIndex(base: nat)
    requires USER_BASE <= base < TWO39
    ensures IdxA(base) == 0 && IdxB(base) == base / GIB && base / GIB != 0
  {
  }

  lemma {:induction false} BigHasDirectory(mem: Memory, root: nat, nodes: map<nat, Node>, w: nat)
    requires Tree(mem, root, nodes) && LeafOf(mem, root, nodes, w).Big?
    ensures exists f :: f in nodes && nodes[f] == Pd(IdxA(w), IdxB(w))
  {
    var f := Walk2(mem, root, nodes, w);
    assert f in nodes && nodes[f] == Pd(IdxA(w), IdxB(w));
  }

  /** Below 1 GiB the new tree maps what the kernel's maps. */
  ghost predicate KernelLeaves(mem: Memory, kroot: nat, kn: map<nat, Node>, mem': Memory, root: nat, nodes: map<nat, Node>)
    requires Tree(mem, kroot, kn) && Tree(mem', root, nodes)
  {
    forall w: nat :: w < USER_BASE ==> LeafOf(mem', root, nodes, w) == LeafOf(mem, kroot, kn, w)
  }

  lemma {:induction false} KernelHalf(mem: Memory, mem': Memory, kroot: nat, kn: map<nat, Node>, kpdpt: nat, root: nat, pdpt: nat, nodes: map<nat, Node>)
    requires Made(mem, mem', kroot, kn, kpdpt, root, pdpt, nodes) && Tree(mem', root, nodes)
    ensures KernelLeaves(mem, kroot, kn, mem', root, nodes)
  {
    forall w: nat | w < USER_BASE ensures LeafOf(mem', root, nodes, w) == LeafOf(mem, kroot, kn, w) {
      LowIndices(w);
      FirstGigabyte(mem, mem', kroot, kn, kpdpt, root, pdpt, nodes, w);
    }
  }

  lemma {:induction false} LowIndices(w: nat)
    requires w < USER_BASE
    ensures IdxA(w) == 0 && IdxB(w) == 0
  {
  }

  lemma {:induction false} FreshGuard(mem: Memory, mem': Memory, kroot: nat, kn: map<nat, Node>, kpdpt: nat, root: nat, pdpt: nat, nodes: map<nat, Node>, base: nat)
    requires Made(mem, mem', kroot, kn, kpdpt, root, pdpt, nodes) && Tree(mem', root, nodes)
    ensures Guarded(mem', pdpt) && (LapicOk(base) && base != 0 ==> PdEntry(mem', root, nodes, base) == 0)
  {
    assert PdptSlot(mem, mem', kpdpt, pdpt, 0);
    SupervisorFacts(Slot(mem, kpdpt, 0));
    if LapicOk(base) && base != 0 {
      InUserIndices(base, 0);
      NewLeaves(mem, mem', kroot, kn, kpdpt, root, pdpt, nodes, base);
    }
  }

  lemma {:induction false} FreshSpace(mem: Memory, mem': Memory, kroot: nat, kn: map<nat, Node>, kpdpt: nat, root: nat, pdpt: nat, nodes: map<nat, Node>, free: set<nat>, all: set<nat>, base: nat, lapic: nat)
    requires Made(mem, mem', kroot, kn, kpdpt, root, pdpt, nodes) && free == all - {root, pdpt} && root in all && pdpt in all && (forall f :: f in kn ==> f !in all)
    requires forall f :: f in all ==> 0 < f < MAX_FRAMES
    ensures Owned(mem', root, nodes, free, map[], {}, all, lapic) && Upper(mem', root, nodes, pdpt)
    ensures OnlyNew(mem, mem', all, kn, nodes) && KernelLeaves(mem, kroot, kn, mem', root, nodes)
    ensures Guarded(mem', pdpt) && (LapicOk(base) && base != 0 ==> PdEntry(mem', root, nodes, base) == 0)
    ensures Bare(nodes, lapic) && !HasLapicTable(nodes, lapic)
  {
    NewPlacesTaken(kn, root, pdpt, nodes, lapic);
    NewOwned(mem, mem', kroot, kn, kpdpt, root, pdpt, nodes, free, all, lapic);
    KernelHalf(mem, mem', kroot, kn, kpdpt, root, pdpt, nodes);
    FreshGuard(mem, mem', kroot, kn, kpdpt, root, pdpt, nodes, base);
  }

  /** The new tree before the local APIC is added. */
  method BuildOwned(m: Machine, ghost kn: map<nat, Node>, ghost kpdpt: nat) returns (cr3: nat, ghost pdpt: nat, ghost nodes: map<nat, Node>)
    requires m.Valid() && m.Space(m.kernelRoot, kn) && Kernel(m.mem, m.kernelRoot, kn, kpdpt)
    modifies m`mem, m.pmm, m.pmm.bitmap
    ensures m.Valid()
    ensures cr3 == 0 ==> m.mem == old(m.mem) && m.pmm.free == old(m.pmm.free) && |old(m.pmm.free)| <= 1
    ensures cr3 != 0 ==> cr3 in old(m.pmm.free) && OnlyNew(old(m.mem), m.mem, old(m.pmm.free), kn, nodes)
    ensures cr3 != 0 ==> Owned(m.mem, cr3, nodes, m.pmm.free, map[], {}, old(m.pmm.free), m.lapicBase / GIB) && Upper(m.mem, cr3, nodes, pdpt)
    ensures cr3 != 0 ==> KernelLeaves(old(m.mem), m.kernelRoot, kn, m.mem, cr3, nodes)
    ensures cr3 != 0 ==> Guarded(m.mem, pdpt) && (LapicOk(m.lapicBase) && m.lapicBase != 0 ==> PdEntry(m.mem, cr3, nodes, m.lapicBase) == 0)
    ensures cr3 != 0 ==> |m.pmm.free| + 2 == |old(m.pmm.free)| && Bare(nodes, m.lapicBase / GIB) && !HasLapicTable(nodes, m.lapicBase / GIB)
  {
    var upper;
    m.FreeBounds();
    cr3, upper, nodes := BuildRoot(m, kn, kpdpt);
    pdpt := upper;
    if cr3 != 0 {
      FreshSpace(old(m.mem), m.mem, m.kernelRoot, kn, kpdpt, cr3, pdpt, nodes, m.pmm.free, old(m.pmm.free), m.lapicBase, m.lapicBase / GIB);
    }
  }

  /** The call of paging_map_large for the local APIC: it needs one more frame. */
  method MapLapic(m: Machine, root: nat, ghost nodes: map<nat, Node>) returns (ok: bool, ghost nodes': map<nat, Node>)
    requires m.Valid() && m.Space(root, nodes) && m.lapicBase != 0 && LapicOk(m.lapicBase)
    requires PdEntry(m.mem, root, nodes, m.lapicBase) == 0 && Pdpt(0) in nodes.Values && !HasLapicTable(nodes, m.lapicBase / GIB)
    modifies m`mem, m.pmm, m.pmm.bitmap
    ensures m.Valid() && m.Space(root, nodes') && Extends(old(m.mem), m.mem, nodes, nodes', old(m.pmm.free), m.pmm.free, m.lapicBase)
    ensures if ok then SetsPage(old(m.mem), m.mem, root, nodes, nodes', m.lapicBase, HUGE, Big(LargeEntry(m.lapicBase, WRITABLE)))
            else SameLeaves(old(m.mem), m.mem, root, nodes, nodes')
    ensures PresentKept(old(m.mem), m.mem, nodes) && forall x :: x in nodes' && x !in nodes ==> !nodes'[x].Pt?
    ensures ok <==> |old(m.pmm.free)| >= 1
    ensures ok <==> HasLapicTable(nodes', m.lapicBase / GIB)
    ensures |m.pmm.free| == |old(m.pmm.free)| - (if ok then 1 else 0)
  {
    GigabyteIndex(m.lapicBase);
    LapicTables(nodes, m.lapicBase);
    ok, nodes' := m.MapLarge(root, m.lapicBase, m.lapicBase, WRITABLE, nodes);
  }

  /** What the new space is before and after the local APIC is added. */
  ghost predicate Built(m: Machine, root: nat, pdpt: nat, nodes: map<nat, Node>, all: set<nat>, mem0: Memory, kn: map<nat, Node>)
    reads m, m.pmm
  {
    && Owned(m.mem, root, nodes, m.pmm.free, map[], {}, all, m.lapicBase / GIB) && Upper(m.mem, root, nodes, pdpt) && Guarded(m.mem, pdpt)
    && Tree(mem0, m.kernelRoot, kn) && KernelLeaves(mem0, m.kernelRoot, kn, m.mem, root, nodes) && OnlyNew(mem0, m.mem, all, kn, nodes)
    && Bare(nodes, m.lapicBase / GIB)
  }

  method AddLapic(m: Machine, root: nat, ghost pdpt: nat, ghost nodes: map<nat, Node>, ghost all: set<nat>, ghost mem0: Memory, ghost kn: map<nat, Node>) returns (ghost nodes': map<nat, Node>)
    requires m.Valid() && m.lapicBase != 0 && LapicOk(m.lapicBase) && Built(m, root, pdpt, nodes, all, mem0, kn)
    requires PdEntry(m.mem, root, nodes, m.lapicBase) == 0 && !HasLapicTable(nodes, m.lapicBase / GIB)
    modifies m`mem, m.pmm, m.pmm.bitmap
    ensures m.Valid() && Built(m, root, pdpt, nodes', all, mem0, kn)
    ensures LapicMapped(m.mem, root, nodes', m.lapicBase) <==> |old(m.pmm.free)| >= 1
    ensures HasLapicTable(nodes', m.lapicBase / GIB) <==> |old(m.pmm.free)| >= 1
    ensures |m.pmm.free| == |old(m.pmm.free)| - (if |old(m.pmm.free)| >= 1 then 1 else 0)
  {
    var ok;
    ok, nodes' := MapLapic(m, root, nodes);
    LapicThere(old(m.mem), m.mem, root, nodes, nodes', m.lapicBase, ok);
    LapicBare(old(m.mem), m.mem, nodes, nodes', old(m.pmm.free), m.pmm.free, m.lapicBase);
    LapicBuilt(old(m.mem), m.mem, m.kernelRoot, root, pdpt, nodes, nodes', old(m.pmm.free), m.pmm.free, all, mem0, kn, m.lapicBase);
  }

  lemma {:induction false} LapicBare(mem: Memory, mem': Memory, nodes: map<nat, Node>, nodes': map<nat, Node>, free: set<nat>, free': set<nat>, base: nat)
    requires Bare(nodes, base / GIB) && USER_BASE <= base < TWO39
    requires Extends(mem, mem', nodes, nodes', free, free', base) && (forall x :: x in nodes' && x !in nodes ==> !nodes'[x].Pt?)
    ensures Bare(nodes', base / GIB)
  {
    GigabyteIndex(base);
    var f :| f in nodes && nodes[f] == Pdpt(0);
    assert nodes'[f] == Pdpt(0);
  }

  lemma {:induction false} LapicBuilt(mem: Memory, mem': Memory, kroot: nat, root: nat, pdpt: nat, nodes: map<nat, Node>, nodes': map<nat, Node>, free: set<nat>, free': set<nat>, all: set<nat>,
                                      mem0: Memory, kn: map<nat, Node>, base: nat)
    requires Owned(mem, root, nodes, free, map[], {}, all, base / GIB) && Upper(mem, root, nodes, pdpt) && Guarded(mem, pdpt) && USER_BASE <= base < TWO39
    requires Tree(mem0, kroot, kn) && KernelLeaves(mem0, kroot, kn, mem, root, nodes) && OnlyNew(mem0, mem, all, kn, nodes)
    requires Tree(mem', root, nodes') && Extends(mem, mem', nodes, nodes', free, free', base) && (forall x :: x in nodes' && x !in nodes ==> !nodes'[x].Pt?) && PresentKept(mem, mem', nodes)
    requires SameLeaves(mem, mem', root, nodes, nodes') || SetsPage(mem, mem', root, nodes, nodes', base, HUGE, Big(LargeEntry(base, WRITABLE)))
    ensures Owned(mem', root, nodes', free', map[], {}, all, base / GIB) && Upper(mem', root, nodes', pdpt) && Guarded(mem', pdpt)
    ensures KernelLeaves(mem0, kroot, kn, mem', root, nodes') && OnlyNew(mem0, mem', all, kn, nodes')
  {
    var l := Big(LargeEntry(base, WRITABLE));
    LapicAdded(mem, mem', root, nodes, nodes', free, free', all, base, base / GIB, l);
    GuardKept(mem, mem', nodes, pdpt);
    LapicOnlyNew(mem0, mem, mem', kn, nodes, nodes', free, free', all, base);
    KernelLeavesKept(mem0, kroot, kn, mem, mem', root, nodes, nodes', base, l);
  }

  lemma {:induction false} KernelLeavesKept(mem0: Memory, kroot: nat, kn: map<nat, Node>, mem: Memory, mem': Memory, root: nat, nodes: map<nat, Node>, nodes': map<nat, Node>, va: nat, l: Leaf)
    requires Tree(mem0, kroot, kn) && Tree(mem, root, nodes) && Tree(mem', root, nodes') && KernelLeaves(mem0, kroot, kn, mem, root, nodes) && va >= USER_BASE
    requires SameLeaves(mem, mem', root, nodes, nodes') || SetsPage(mem, mem', root, nodes, nodes', va, HUGE, l)
    ensures KernelLeaves(mem0, kroot, kn, mem', root, nodes')
  {
    forall w: nat | w < USER_BASE ensures LeafOf(mem', root, nodes', w) == LeafOf(mem0, kroot, kn, w) {
      BelowOther(w, va);
      assert LeafOf(mem, root, nodes, w) == LeafOf(mem0, kroot, kn, w);
    }
  }

  lemma {:induction false} BelowOther(w: nat, va: nat)
    requires w < USER_BASE <= va
    ensures w / HUGE != va / HUGE && w < TWO48
  {
  }

  /** The frames that a new space takes, when there are n: none at all if there are not two, and the
      directory for the local APIC at `base` only if there is a third. */
  function NewCost(n: nat, base: nat): nat { if n < 2 then 0 else if base != 0 && n >= 3 then 3 else 2 }

  /** paging_new_address_space: an address space that shares the kernel's half, maps nothing of the
      user half, and whose tables come out of the free frames. It has the local APIC if and only if
      there was a third free frame. */
  method NewAddressSpace(m: Machine, ghost kn: map<nat, Node>, ghost kpdpt: nat) returns (cr3: nat, ghost pdpt: nat, ghost nodes: map<nat, Node>)
    requires m.Valid() && m.Space(m.kernelRoot, kn) && Kernel(m.mem, m.kernelRoot, kn, kpdpt) && LapicOk(m.lapicBase)
    modifies m`mem, m.pmm, m.pmm.bitmap
    ensures m.Valid()
    ensures cr3 != 0 <==> |old(m.pmm.free)| >= 2
    ensures cr3 == 0 ==> m.mem == old(m.mem) && m.pmm.free == old(m.pmm.free)
    ensures cr3 != 0 ==> cr3 in old(m.pmm.free) && OnlyNew(old(m.mem), m.mem, old(m.pmm.free), kn, nodes)
    ensures cr3 != 0 ==> Living(cr3, Life(m.mem, nodes, m.pmm.free, map[], {}), old(m.pmm.free), m.lapicBase, pdpt)
    ensures cr3 != 0 ==> KernelLeaves(old(m.mem), m.kernelRoot, kn, m.mem, cr3, nodes)
    ensures cr3 != 0 ==> Guarded(m.mem, pdpt) && forall w: nat :: w < USER_BASE ==> !UserPath(m.mem, cr3, nodes, w)
    ensures cr3 != 0 && m.lapicBase != 0 ==> (LapicMapped(m.mem, cr3, nodes, m.lapicBase) <==> |old(m.pmm.free)| >= 3)
    ensures cr3 != 0 ==> Bare(nodes, m.lapicBase / GIB)
    ensures |m.pmm.free| == |old(m.pmm.free)| - NewCost(|old(m.pmm.free)|, m.lapicBase)
  {
    cr3, pdpt, nodes := BuildOwned(m, kn, kpdpt);
    if cr3 != 0 && m.lapicBase != 0 {
      nodes := AddLapic(m, cr3, pdpt, nodes, old(m.pmm.free), old(m.mem), kn);
    }
    if cr3 != 0 {
      forall w: nat | w < USER_BASE ensures !UserPath(m.mem, cr3, nodes, w) { GuardedKeepsOut(m.mem, cr3, nodes, pdpt, w); }
    }
  }

  // ---- whole lives ----

  /** An address space in use: memory, its tables, the free frames, the frames behind its pages and
      the frames the caller has taken and not yet mapped. */
  datatype Life = Life(mem: Memory, nodes: map<nat, Node>, free: set<nat>, pages: map<nat, nat>, held: set<nat>)

  /** The operations on it. `leaf` of an unmapping is what was there. */
  datatype Op =
    | Take(got: set<nat>)
    | Give(given: set<nat>)
    | MapPage(va: nat, pn: nat, g: nat, flags: nat)
    | MapHuge(va: nat, pn: nat, g: nat, flags: nat, run: map<nat, nat>)
    | MapRefused(va: nat)
    | UnmapSmall(va: nat, p: nat)
    | UnmapHuge(va: nat, d: nat, run: map<nat, nat>)

  ghost predicate StepOk(root: nat, lapic: nat, s: Life, op: Op, t: Life) {
    && Tree(s.mem, root, s.nodes) && Tree(t.mem, root, t.nodes)
    && match op
       case Take(got) => got <= s.free && t == s.(free := s.free - got, held := s.held + got)
       case Give(given) => given <= s.held && t == s.(free := s.free + given, held := s.held - given)
       case MapPage(va, pn, g, flags) =>
         && InUser(va, lapic) && va == pn * PAGE && g in s.held && flags < PAGE && LeafOf(s.mem, root, s.nodes, va) == NoLeaf
         && Extends(s.mem, t.mem, s.nodes, t.nodes, s.free, t.free, va)
         && SetsPage(s.mem, t.mem, root, s.nodes, t.nodes, va, PAGE, Small(LeafEntry(g * PAGE, flags)))
         && t.pages == s.pages[g := pn] && t.held == s.held - {g}
       case MapHuge(va, pn, g, flags, run) =>
         && InUser(va, lapic) && va == pn * PAGE && va % HUGE == 0 && g * PAGE % HUGE == 0 && IsRun(run, g, pn) && run.Keys <= s.held
         && flags < PAGE && !Present(PdEntry(s.mem, root, s.nodes, va))
         && Extends(s.mem, t.mem, s.nodes, t.nodes, s.free, t.free, va)
         && SetsPage(s.mem, t.mem, root, s.nodes, t.nodes, va, HUGE, Big(LargeEntry(g * PAGE, flags)))
         && t.pages == s.pages + run && t.held == s.held - run.Keys
       case MapRefused(va) =>
         && InUser(va, lapic) && Extends(s.mem, t.mem, s.nodes, t.nodes, s.free, t.free, va)
         && SameLeaves(s.mem, t.mem, root, s.nodes, t.nodes) && t.pages == s.pages && t.held == s.held
       case UnmapSmall(va, p) =>
         && InUser(va, lapic) && LeafOf(s.mem, root, s.nodes, va) == Small(p) && SetsPage(s.mem, t.mem, root, s.nodes, t.nodes, va, PAGE, NoLeaf)
         && t.nodes == s.nodes && t.free == s.free + {Base(p)} && t.pages == s.pages - {Base(p)} && t.held == s.held
       case UnmapHuge(va, d, run) =>
         && InUser(va, lapic) && LeafOf(s.mem, root, s.nodes, va) == Big(d) && SetsPage(s.mem, t.mem, root, s.nodes, t.nodes, va, HUGE, NoLeaf)
         && IsRun(run, LargeBase(d), 0) && t.nodes == s.nodes && t.free == s.free + run.Keys && t.pages == s.pages - run.Keys && t.held == s.held
  }

  ghost predicate LifeOwned(root: nat, s: Life, all: set<nat>, lapic: nat) {
    Owned(s.mem, root, s.nodes, s.free, s.pages, s.held, all, lapic)
  }

  /** Every operation keeps the division of the frames, and tables are only added. */
  lemma {:induction false} StepKeepsOwned(root: nat, lapic: nat, s: Life, op: Op, t: Life, all: set<nat>)
    requires StepOk(root, lapic, s, op, t) && LifeOwned(root, s, all, lapic)
    ensures LifeOwned(root, t, all, lapic) && forall f :: f in s.nodes ==> f in t.nodes && t.nodes[f] == s.nodes[f]
  {
    match op
    case Take(got) => TakeKeeps(s.mem, root, s.nodes, s.free, s.pages, s.held, all, lapic, got);
    case Give(given) => GiveKeeps(s.mem, root, s.nodes, s.free, s.pages, s.held, all, lapic, given);
    case MapPage(va, pn, g, flags) => MapKeeps(s.mem, t.mem, root, s.nodes, t.nodes, s.free, t.free, s.pages, s.held, all, lapic, va, pn, g, flags);
    case MapHuge(va, pn, g, flags, run) => MapLargeKeeps(s.mem, t.mem, root, s.nodes, t.nodes, s.free, t.free, s.pages, s.held, all, lapic, va, pn, g, flags, run);
    case MapRefused(va) => MapFailedKeeps(s.mem, t.mem, root, s.nodes, t.nodes, s.free, t.free, s.pages, s.held, all, lapic, va);
    case UnmapSmall(va, p) => UnmapKeeps(s.mem, t.mem, root, s.nodes, s.free, s.pages, s.held, all, lapic, va, p);
    case UnmapHuge(va, d, run) => UnmapLargeKeeps(s.mem, t.mem, root, s.nodes, s.free, s.pages, s.held, all, lapic, va, d, run);
  }

  /** A sequence of operations and the states they lead to. */
  ghost predicate LifeRun(root: nat, lapic: nat, s: Life, steps: seq<(Op, Life)>)
    decreases |steps|
  {
    steps == [] || (StepOk(root, lapic, s, steps[0].0, steps[0].1) && LifeRun(root, lapic, steps[0].1, steps[1..]))
  }

  function End(s: Life, steps: seq<(Op, Life)>): Life
    decreases |steps|
  {
    if steps == [] then s else End(steps[0].1, steps[1..])
  }

  ghost predicate LifeGood(root: nat, s: Life, all: set<nat>, lapic: nat, pdpt: nat) {
    LifeOwned(root, s, all, lapic) && Upper(s.mem, root, s.nodes, pdpt)
  }

  lemma {:induction false} RunKeepsOwned(root: nat, lapic: nat, s: Life, steps: seq<(Op, Life)>, all: set<nat>, pdpt: nat)
    requires LifeRun(root, lapic, s, steps) && LifeGood(root, s, all, lapic, pdpt)
    ensures LifeGood(root, End(s, steps), all, lapic, pdpt)
    decreases |steps|
  {
    if steps == [] {
      assert End(s, steps) == s;
    } else {
      StepKeepsGood(root, lapic, s, steps[0].0, steps[0].1, all, pdpt);
      RunKeepsOwned(root, lapic, steps[0].1, steps[1..], all, pdpt);
    }
  }

  lemma {:induction false} StepKeepsGood(root: nat, lapic: nat, s: Life, op: Op, t: Life, all: set<nat>, pdpt: nat)
    requires StepOk(root, lapic, s, op, t) && LifeGood(root, s, all, lapic, pdpt)
    ensures LifeGood(root, t, all, lapic, pdpt)
  {
    StepKeepsOwned(root, lapic, s, op, t, all);
  }

  /** Whatever was done to an address space between its creation and its end, the visit of
      free_user_tree covers, with the frames still free, every frame that was free before it was
      created: all of them if nothing is held and there is no local APIC, else all but the held
      ones and the page directory of its gigabyte. */
  lemma {:induction false} LifeConservesFrames(root: nat, lapic: nat, s: Life, steps: seq<(Op, Life)>, all: set<nat>, pdpt: nat, f: nat)
    requires LifeRun(root, lapic, s, steps) && LifeGood(root, s, all, lapic, pdpt)
    ensures var t := End(s, steps);
            f in t.free || ((f == root || f == pdpt || InPdpt(t.mem, pdpt, SLOTS, lapic, f)) && f < MAX_FRAMES) <==>
              f in all && f !in t.held && !(lapic != 0 && f in t.nodes && t.nodes[f] == Pd(0, lapic))
  {
    RunKeepsOwned(root, lapic, s, steps, all, pdpt);
    var t := End(s, steps);
    Returned(t.mem, root, t.nodes, t.free, t.pages, t.held, all, lapic, pdpt, f);
  }

  /** An address space, from its creation on, of a machine whose free frames were `before` then. */
  ghost predicate Living(root: nat, s: Life, before: set<nat>, base: nat, pdpt: nat) {
    && LifeGood(root, s, before, base / GIB, pdpt)
    && (HasLapicTable(s.nodes, base / GIB) <==> base != 0 && |before| >= 3)
  }

  lemma {:induction false} StepKeepsLapicTable(root: nat, lapic: nat, s: Life, op: Op, t: Life)
    requires StepOk(root, lapic, s, op, t)
    ensures HasLapicTable(t.nodes, lapic) <==> HasLapicTable(s.nodes, lapic)
  {
    if op.MapPage? || op.MapHuge? || op.MapRefused? {
      InUserIndices(op.va, lapic);
      PathIsElsewhere(s.mem, t.mem, s.nodes, t.nodes, s.free, t.free, op.va, lapic);
    }
  }

  lemma {:induction false} PathIsElsewhere(mem: Memory, mem': Memory, nodes: map<nat, Node>, nodes': map<nat, Node>, free: set<nat>, free': set<nat>, va: nat, lapic: nat)
    requires Extends(mem, mem', nodes, nodes', free, free', va) && IdxB(va) != lapic
    ensures HasLapicTable(nodes', lapic) <==> HasLapicTable(nodes, lapic)
  {
    forall f | f in nodes && nodes[f] == Pd(0, lapic) ensures Pd(0, lapic) in nodes'.Values { assert nodes'[f] == Pd(0, lapic); }
    forall f | f in nodes' && nodes'[f] == Pd(0, lapic) ensures Pd(0, lapic) in nodes.Values { assert f in nodes && nodes[f] == Pd(0, lapic); }
  }

  /** All frames are free but `held` and, if it is not 0, the frame `dir`. */
  ghost predicate BackBut(before: set<nat>, free: set<nat>, held: set<nat>, dir: nat) {
    free == before - held - {dir} && (dir != 0 ==> dir in before && dir !in held)
  }

  lemma {:induction false} BackCount(before: set<nat>, free: set<nat>, held: set<nat>, dir: nat)
    requires BackBut(before, free, held, dir) && held <= before && 0 !in before
    ensures |free| + |held| + (if dir != 0 then 1 else 0) == |before|
  {
    if dir != 0 {
      assert before == free + held + {dir};
    } else {
      assert before == free + held;
    }
  }

  /** What free_user_tree passes over is at most one frame. */
  lemma {:induction false} SkippedTable(mem: Memory, root: nat, nodes: map<nat, Node>, lapic: nat, pages: map<nat, nat>, held: set<nat>, free0: set<nat>, before: set<nat>, free: set<nat>) returns (dir: nat)
    requires Owned(mem, root, nodes, free0, pages, held, before, lapic)
    requires forall f :: f in free <==> f in before && f !in held && !(f in nodes && LapicTable(nodes[f], lapic))
    ensures BackBut(before, free, held, dir) && (dir != 0 <==> HasLapicTable(nodes, lapic))
  {
    dir := 0;
    if HasLapicTable(nodes, lapic) {
      dir :| dir in nodes && nodes[dir] == Pd(0, lapic);
      assert PrivateTable(nodes, dir);
    }
    forall f | f in before ensures f in nodes && LapicTable(nodes[f], lapic) <==> f == dir {
      assert f in nodes && LapicTable(nodes[f], lapic) ==> nodes[f] in nodes.Values;
    }
  }

  /** paging_free_address_space at any moment of a life. */
  method EndSpace(m: Machine, cr3: nat, ghost s: Life, ghost before: set<nat>, ghost pdpt: nat) returns (ghost dir: nat)
    requires m.Valid() && LapicOk(m.lapicBase) && cr3 != m.kernelRoot && cr3 != 0
    requires Living(cr3, s, before, m.lapicBase, pdpt) && Shows(m, s)
    modifies m.pmm, m.pmm.bitmap
    ensures m.Valid() && BackBut(before, m.pmm.free, s.held, dir)
    ensures dir != 0 <==> m.lapicBase != 0 && |before| >= 3
    ensures |m.pmm.free| + |s.held| + (if m.lapicBase != 0 && |before| >= 3 then 1 else 0) == |before|
  {
    FreeAddressSpace(m, cr3, s.nodes, pdpt, s.pages, s.held, before);
    dir := SkippedTable(s.mem, cr3, s.nodes, m.lapicBase / GIB, s.pages, s.held, s.free, before, m.pmm.free);
    BackCount(before, m.pmm.free, s.held, dir);
  }

  // ---- the methods of the machine take these steps ----

  ghost predicate Shows(m: Machine, s: Life)
    reads m, m.pmm
  {
    m.mem == s.mem && m.pmm.free == s.free
  }

  /** A map, done or refused, takes at most three frames for tables. */
  lemma {:induction false} MapTakesFew(root: nat, lapic: nat, s: Life, op: Op, t: Life, all: set<nat>)
    requires StepOk(root, lapic, s, op, t) && LifeOwned(root, s, all, lapic) && (op.MapPage? || op.MapRefused?)
    ensures |s.free| <= |t.free| + 3
  {
    NewTablesFew(s.mem, t.mem, root, s.nodes, t.nodes, s.free, t.free, op.va);
  }

  /** paging_map of a frame the caller holds; below 1 GiB it is refused. */
  method MapHeld(m: Machine, root: nat, va: nat, g: nat, flags: nat, ghost pn: nat, ghost s: Life, ghost all: set<nat>, ghost lapic: nat) returns (ok: bool, ghost t: Life)
    requires m.Valid() && Shows(m, s) && LifeOwned(root, s, all, lapic) && (InUser(va, lapic) || va < USER_BASE) && va == pn * PAGE && g in s.held && flags < PAGE
    modifies m`mem, m.pmm, m.pmm.bitmap
    ensures m.Valid() && Shows(m, t)
    ensures va < USER_BASE ==> !ok && t == s
    ensures ok ==> StepOk(root, lapic, s, MapPage(va, pn, g, flags), t)
    ensures va >= USER_BASE && !ok ==> StepOk(root, lapic, s, MapRefused(va), t)
    ensures va >= USER_BASE && !ok ==> t.free == {} || LeafOf(s.mem, root, s.nodes, va) != NoLeaf
    ensures va >= USER_BASE ==> (ok <==> LeafOf(s.mem, root, s.nodes, va) == NoLeaf && |TablesFor(va) - s.nodes.Values| <= |s.free|)
  {
    ghost var nodes;
    if va >= USER_BASE { InUserIndices(va, lapic); }
    HeldFits(root, s, all, lapic, g);
    ok, nodes := m.Map(root, va, g * PAGE, flags, s.nodes);
    t := Life(m.mem, nodes, m.pmm.free, if ok then s.pages[g := pn] else s.pages, if ok then s.held - {g} else s.held);
    PageAddress(va, pn);
  }

  /** paging_map_large of 512 frames the caller holds. */
  method MapHeldLarge(m: Machine, root: nat, va: nat, g: nat, flags: nat, ghost pn: nat, ghost run: map<nat, nat>, ghost s: Life, ghost all: set<nat>, ghost lapic: nat) returns (ok: bool, ghost t: Life)
    requires m.Valid() && Shows(m, s) && LifeOwned(root, s, all, lapic) && InUser(va, lapic) && va == pn * PAGE && IsRun(run, g, pn) && run.Keys <= s.held && flags < PAGE
    modifies m`mem, m.pmm, m.pmm.bitmap
    ensures m.Valid() && Shows(m, t)
    ensures if ok then StepOk(root, lapic, s, MapHuge(va, pn, g, flags, run), t) else StepOk(root, lapic, s, MapRefused(va), t)
    ensures ok <==> MayMapLarge(s.mem, root, s.nodes, va, g * PAGE) && |LargeTablesFor(va) - s.nodes.Values| <= |s.free|
  {
    ghost var nodes;
    InUserIndices(va, lapic);
    assert g in run;
    HeldFits(root, s, all, lapic, g);
    ok, nodes := m.MapLarge(root, va, g * PAGE, flags, s.nodes);
    t := Life(m.mem, nodes, m.pmm.free, if ok then s.pages + run else s.pages, if ok then s.held - run.Keys else s.held);
  }

  lemma {:induction false} PageAddress(va: nat, pn: nat)
    requires va == pn * PAGE
    ensures va % PAGE == 0
  {
  }

  lemma {:induction false} HeldFits(root: nat, s: Life, all: set<nat>, lapic: nat, g: nat)
    requires LifeOwned(root, s, all, lapic) && g in s.held
    ensures g * PAGE + PAGE < TWO64 && g * PAGE % PAGE == 0
  {
    HeldBound(s.nodes, s.free, s.pages, s.held, all, g);
  }

  lemma {:induction false} HeldBound(nodes: map<nat, Node>, free: set<nat>, pages: map<nat, nat>, held: set<nat>, all: set<nat>, g: nat)
    requires Divided(nodes, free, pages, held, all) && g in held
    ensures 0 < g < MAX_FRAMES
  {
    assert g in all;
  }

  /** What paging_unmap will find may be given back. */
  lemma {:induction false} LargeAllowed(root: nat, s: Life, all: set<nat>, lapic: nat, va: nat)
    requires LifeOwned(root, s, all, lapic) && InUser(va, lapic)
    ensures var d := PdEntry(s.mem, root, s.nodes, va); Present(d) && Large(d) ==> LargeUnshared(s.nodes, d) && LargeBase(d) + SLOTS <= MAX_FRAMES
  {
    var d := PdEntry(s.mem, root, s.nodes, va);
    if Present(d) && Large(d) {
      LargeFrameIn(root, s, all, lapic, va, d, LargeBase(d));
      LargeFrameIn(root, s, all, lapic, va, d, LargeBase(d) + SLOTS - 1);
      forall f | f in s.nodes ensures !(LargeBase(d) <= f < LargeBase(d) + SLOTS) {
        if LargeBase(d) <= f < LargeBase(d) + SLOTS { LargeFrameIn(root, s, all, lapic, va, d, f); }
      }
    }
  }

  lemma {:induction false} LargeFrameIn(root: nat, s: Life, all: set<nat>, lapic: nat, va: nat, d: nat, f: nat)
    requires LifeOwned(root, s, all, lapic) && InUser(va, lapic) && PdEntry(s.mem, root, s.nodes, va) == d && Present(d) && Large(d)
    requires LargeBase(d) <= f < LargeBase(d) + SLOTS
    ensures f in s.pages && 0 < f < MAX_FRAMES && f !in s.nodes
  {
    LargeFrameOwned(s.mem, root, s.nodes, s.pages, lapic, va, d, f);
    assert f in all;
  }

  lemma {:induction false} PresentIsLeaf(mem: Memory, root: nat, nodes: map<nat, Node>, va: nat)
    requires Tree(mem, root, nodes) && Present(PtEntry(mem, root, nodes, va))
    ensures LeafOf(mem, root, nodes, va) == Small(PtEntry(mem, root, nodes, va))
  {
  }

  lemma {:induction false} SmallAllowed(root: nat, s: Life, all: set<nat>, lapic: nat, va: nat)
    requires LifeOwned(root, s, all, lapic) && InUser(va, lapic)
    ensures var p := PtEntry(s.mem, root, s.nodes, va); Present(p) ==> PageUnshared(s.nodes, p) && Base(p) < MAX_FRAMES
  {
    var p := PtEntry(s.mem, root, s.nodes, va);
    if Present(p) {
      PresentIsLeaf(s.mem, root, s.nodes, va);
      assert PageOwned(s.mem, root, s.nodes, s.pages, va);
      assert Base(p) in all;
    }
  }

  /** The ledger after paging_unmap has taken leaf l away. */
  ghost function Dropped(s: Life, l: Leaf, mem: Memory, free: set<nat>): Life {
    match l
    case NoLeaf => s
    case Small(p) => Life(mem, s.nodes, free, s.pages - {Base(p)}, s.held)
    case Big(d) => Life(mem, s.nodes, free, s.pages - Run(LargeBase(d), 0, SLOTS).Keys, s.held)
  }

  lemma {:induction false} RunFreed(free: set<nat>, free': set<nat>, first: nat)
    requires FreesRun(free, free', first) && first + SLOTS <= MAX_FRAMES
    ensures free' == free + Run(first, 0, SLOTS).Keys
  {
  }

  /** paging_unmap in the user half. */
  method UnmapOwned(m: Machine, root: nat, va: nat, ghost s: Life, ghost all: set<nat>, ghost lapic: nat) returns (ghost t: Life)
    requires m.Valid() && Shows(m, s) && LifeOwned(root, s, all, lapic) && InUser(va, lapic)
    modifies m`mem, m.pmm, m.pmm.bitmap
    ensures m.Valid() && Shows(m, t)
    ensures match LeafOf(s.mem, root, s.nodes, va)
            case NoLeaf => t == s
            case Small(p) => StepOk(root, lapic, s, UnmapSmall(va, p), t)
            case Big(d) => StepOk(root, lapic, s, UnmapHuge(va, d, Run(LargeBase(d), 0, SLOTS)), t)
  {
    InUserIndices(va, lapic);
    LargeAllowed(root, s, all, lapic, va);
    SmallAllowed(root, s, all, lapic, va);
    m.Unmap(root, va, s.nodes);
    ghost var l := LeafOf(s.mem, root, s.nodes, va);
    t := Dropped(s, l, m.mem, m.pmm.free);
    if l.Big? {
      RunFreed(s.free, m.pmm.free, LargeBase(l.e));
    } else if l.Small? {
      SmallDropped(root, lapic, s, t, va, l.e);
    }
  }

  lemma {:induction false} SmallDropped(root: nat, lapic: nat, s: Life, t: Life, va: nat, p: nat)
    requires Tree(s.mem, root, s.nodes) && Tree(t.mem, root, s.nodes) && InUser(va, lapic) && LeafOf(s.mem, root, s.nodes, va) == Small(p)
    requires t == Dropped(s, Small(p), t.mem, t.free) && t.free == s.free + {Base(p)} && SetsPage(s.mem, t.mem, root, s.nodes, s.nodes, va, PAGE, NoLeaf)
    ensures StepOk(root, lapic, s, UnmapSmall(va, p), t)
  {
  }

  // ---- a whole life ----

  /** What the owner of an address space may ask for. */
  datatype Call =
    | TakeFrame
    | GiveFrame(g: nat)
    | MapFrame(va: nat, g: nat, flags: nat)
    | MapFrames(va: nat, g: nat, flags: nat)
    | UnmapFrame(va: nat)

  /** The owner gives away and maps frames it holds, and stays in the user half. */
  predicate Admitted(c: Call, held: set<nat>, lapic: nat) {
    match c
    case TakeFrame => true
    case GiveFrame(g) => g in held
    case MapFrame(va, g, flags) => InUser(va, lapic) && va % PAGE == 0 && g in held && flags < PAGE
    case MapFrames(va, g, flags) => InUser(va, lapic) && va % PAGE == 0 && flags < PAGE && forall k :: g <= k < g + SLOTS ==> k in held
    case UnmapFrame(va) => InUser(va, lapic)
  }

  lemma {:induction false} StepKeepsLiving(root: nat, s: Life, op: Op, t: Life, before: set<nat>, base: nat, pdpt: nat)
    requires Living(root, s, before, base, pdpt) && StepOk(root, base / GIB, s, op, t)
    ensures Living(root, t, before, base, pdpt)
  {
    StepKeepsGood(root, base / GIB, s, op, t, before, pdpt);
    StepKeepsLapicTable(root, base / GIB, s, op, t);
  }

  /** One call, as one step or as none. */
  method Perform(m: Machine, root: nat, c: Call, held: set<nat>, lapic: nat, ghost s: Life, ghost all: set<nat>) returns (held': set<nat>, ghost op: Op, ghost t: Life)
    requires m.Valid() && Shows(m, s) && LifeOwned(root, s, all, lapic) && s.held == held && Admitted(c, held, lapic)
    modifies m`mem, m.pmm, m.pmm.bitmap
    ensures m.Valid() && Shows(m, t) && t.held == held' && (t == s || StepOk(root, lapic, s, op, t))
  {
    match c
    case TakeFrame => held', op, t := PerformTake(m, root, held, s, all, lapic);
    case GiveFrame(g) => held', op, t := PerformGive(m, root, g, held, s, all, lapic);
    case MapFrame(va, g, flags) => held', op, t := PerformMap(m, root, va, g, flags, held, s, all, lapic);
    case MapFrames(va, g, flags) => held', op, t := PerformMapLarge(m, root, va, g, flags, held, s, all, lapic);
    case UnmapFrame(va) =>
      held' := held;
      op, t := PerformUnmap(m, root, va, s, all, lapic);
  }

  method PerformTake(m: Machine, ghost root: nat, held: set<nat>, ghost s: Life, ghost all: set<nat>, ghost lapic: nat) returns (held': set<nat>, ghost op: Op, ghost t: Life)
    requires m.Valid() && Shows(m, s) && LifeOwned(root, s, all, lapic) && s.held == held
    modifies m.pmm, m.pmm.bitmap
    ensures m.Valid() && Shows(m, t) && t.held == held' && StepOk(root, lapic, s, op, t)
  {
    var f := m.AllocFrame();
    ghost var got := if f == 0 then {} else {f};
    held', op, t := if f == 0 then held else held + {f}, Take(got), s.(free := s.free - got, held := s.held + got);
  }

  method PerformGive(m: Machine, ghost root: nat, g: nat, held: set<nat>, ghost s: Life, ghost all: set<nat>, ghost lapic: nat) returns (held': set<nat>, ghost op: Op, ghost t: Life)
    requires m.Valid() && Shows(m, s) && LifeOwned(root, s, all, lapic) && s.held == held && g in held
    modifies m.pmm, m.pmm.bitmap
    ensures m.Valid() && Shows(m, t) && t.held == held' && StepOk(root, lapic, s, op, t)
  {
    HeldBound(s.nodes, s.free, s.pages, s.held, all, g);
    m.FreeFrame(g);
    held', op, t := held - {g}, Give({g}), s.(free := s.free + {g}, held := s.held - {g});
  }

  method PerformMap(m: Machine, root: nat, va: nat, g: nat, flags: nat, held: set<nat>, ghost s: Life, ghost all: set<nat>, ghost lapic: nat) returns (held': set<nat>, ghost op: Op, ghost t: Life)
    requires m.Valid() && Shows(m, s) && LifeOwned(root, s, all, lapic) && s.held == held && Admitted(MapFrame(va, g, flags), held, lapic)
    modifies m`mem, m.pmm, m.pmm.bitmap
    ensures m.Valid() && Shows(m, t) && t.held == held' && StepOk(root, lapic, s, op, t)
  {
    var ok;
    ok, t := MapHeld(m, root, va, g, flags, va / PAGE, s, all, lapic);
    held' := if ok then held - {g} else held;
    op := if ok then MapPage(va, va / PAGE, g, flags) else MapRefused(va);
  }

  method PerformMapLarge(m: Machine, root: nat, va: nat, g: nat, flags: nat, held: set<nat>, ghost s: Life, ghost all: set<nat>, ghost lapic: nat) returns (held': set<nat>, ghost op: Op, ghost t: Life)
    requires m.Valid() && Shows(m, s) && LifeOwned(root, s, all, lapic) && s.held == held && Admitted(MapFrames(va, g, flags), held, lapic)
    modifies m`mem, m.pmm, m.pmm.bitmap
    ensures m.Valid() && Shows(m, t) && t.held == held' && StepOk(root, lapic, s, op, t)
  {
    var ok;
    ghost var run := Run(g, va / PAGE, SLOTS);
    ok, t := MapHeldLarge(m, root, va, g, flags, va / PAGE, run, s, all, lapic);
    held' := if ok then set k | k in held && !(g <= k < g + SLOTS) else held;
    op := if ok then MapHuge(va, va / PAGE, g, flags, run) else MapRefused(va);
    RunLeaves(held, run, g, va / PAGE);
  }

  lemma {:induction false} RunLeaves(held: set<nat>, run: map<nat, nat>, g: nat, pn: nat)
    requires IsRun(run, g, pn)
    ensures held - run.Keys == set k | k in held && !(g <= k < g + SLOTS)
  {
  }

  method PerformUnmap(m: Machine, root: nat, va: nat, ghost s: Life, ghost all: set<nat>, ghost lapic: nat) returns (ghost op: Op, ghost t: Life)
    requires m.Valid() && Shows(m, s) && LifeOwned(root, s, all, lapic) && InUser(va, lapic)
    modifies m`mem, m.pmm, m.pmm.bitmap
    ensures m.Valid() && Shows(m, t) && t.held == s.held && (t == s || StepOk(root, lapic, s, op, t))
  {
    t := UnmapOwned(m, root, va, s, all, lapic);
    op := match LeafOf(s.mem, root, s.nodes, va)
          case NoLeaf => Take({})
          case Small(p) => UnmapSmall(va, p)
          case Big(d) => UnmapHuge(va, d, Run(LargeBase(d), 0, SLOTS));
  }

  /** A whole life: creation, any sequence of calls, and the end. The free frames are those there were
      before, without what the owner still holds, and without exactly one more if a local APIC is set
      and there were three to begin with. */
  method WholeLife(m: Machine, calls: seq<Call>, ghost kn: map<nat, Node>, ghost kpdpt: nat) returns (cr3: nat, held: set<nat>, ghost dir: nat)
    requires m.Valid() && m.Space(m.kernelRoot, kn) && Kernel(m.mem, m.kernelRoot, kn, kpdpt) && LapicOk(m.lapicBase)
    modifies m`mem, m.pmm, m.pmm.bitmap
    ensures m.Valid() && BackBut(old(m.pmm.free), m.pmm.free, held, dir)
    ensures cr3 == 0 <==> |old(m.pmm.free)| < 2
    ensures dir != 0 <==> m.lapicBase != 0 && |old(m.pmm.free)| >= 3
    ensures |m.pmm.free| + |held| + (if m.lapicBase != 0 && |old(m.pmm.free)| >= 3 then 1 else 0) == |old(m.pmm.free)|
  {
    ghost var pdpt, nodes;
    held, dir := {}, 0;
    cr3, pdpt, nodes := NewAddressSpace(m, kn, kpdpt);
    if cr3 != 0 {
      ghost var s := Life(m.mem, nodes, m.pmm.free, map[], {});
      held, s := Calls(m, cr3, calls, s, old(m.pmm.free), pdpt);
      dir := EndSpace(m, cr3, s, old(m.pmm.free), pdpt);
    }
  }

  /** The calls of a life; those the owner may not make are not made. */
  method Calls(m: Machine, cr3: nat, calls: seq<Call>, ghost s0: Life, ghost before: set<nat>, ghost pdpt: nat) returns (held: set<nat>, ghost s: Life)
    requires m.Valid() && Shows(m, s0) && s0.held == {} && Living(cr3, s0, before, m.lapicBase, pdpt)
    modifies m`mem, m.pmm, m.pmm.bitmap
    ensures m.Valid() && Shows(m, s) && s.held == held && Living(cr3, s, before, m.lapicBase, pdpt)
  {
    held, s := {}, s0;
    var i := 0;
    while i < |calls|
      invariant 0 <= i <= |calls| && m.Valid() && Shows(m, s) && s.held == held && Living(cr3, s, before, m.lapicBase, pdpt)
    {
      if Admitted(calls[i], held, m.lapicBase / GIB) {
        ghost var op, t;
        held, op, t := Perform(m, cr3, calls[i], held, m.lapicBase / GIB, s, before);
        if t != s { StepKeepsLiving(cr3, s, op, t, before, m.lapicBase, pdpt); }
        s := t;
      }
      i := i + 1;
    }
  }
}
