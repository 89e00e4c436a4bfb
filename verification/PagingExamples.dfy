/** A small machine after boot: a kernel, one process with one page at 1 GiB, and the cases in which
    paging falls short of what it is meant to do (mem/mm/paging.c). */
module PagingExamples {
  import opened LittleEndian
  import opened FrameAllocation
  import opened PageTables
  import opened Paging
  import opened FrameLedger
  import opened AddressSpaces
  import opened Forking
  import opened ForkedSpaces

  /** Entry i of frame f. Frames 1 to 3 are the kernel's tables, 4 to 7 the process's; the page-table
      entry for 1 GiB is `last`. */
  function Entry(f: nat, i: nat, last: nat): nat {
    if f == 5 && i == 1 then TableEntry(6)
    else if i != 0 then 0
    else if f == 1 || f == 2 || f == 4 || f == 6 then TableEntry(f + 1)
    else if f == 5 then Supervisor(TableEntry(3))
    else if f == 7 then last
    else 0
  }

  function Contents(f: nat, last: nat): (p: Page)
    ensures |p| == PAGE
  {
    PutWord(PutWord(ZeroPage(), 1, Entry(f, 1, last)), 0, Entry(f, 0, last))
  }

  function Frames(last: nat): (mem: Memory)
    ensures |mem| == MAX_FRAMES && forall f: nat :: f < MAX_FRAMES ==> mem[f] == Contents(f, last)
  {
    seq(MAX_FRAMES, f requires 0 <= f < MAX_FRAMES => Contents(f, last))
  }

  const KERNEL: map<nat, Node> := map[1 := Root, 2 := Pdpt(0), 3 := Pd(0, 0)]
  const PROCESS: map<nat, Node> := map[4 := Root, 5 := Pdpt(0), 3 := Pd(0, 0), 6 := Pd(0, 1), 7 := Pt(0, 1, 0)]

  lemma {:induction false} EntryBound(f: nat, i: nat, last: nat)
    requires last < TWO64
    ensures Entry(f, i, last) < TWO64
  {
    SupervisorFacts(TableEntry(3));
  }

  lemma {:induction false} EntryAt(f: nat, i: nat, last: nat)
    requires f < MAX_FRAMES && i < SLOTS && last < TWO64
    ensures Slot(Frames(last), f, i) == Entry(f, i, last)
  {
    EntryBound(f, 0, last);
    EntryBound(f, 1, last);
    var p := PutWord(ZeroPage(), 1, Entry(f, 1, last));
    PutWordGet(ZeroPage(), 1, Entry(f, 1, last), i);
    PutWordGet(p, 0, Entry(f, 0, last), i);
    ZeroPageWord(i);
  }

  predicate HasEntry(mem: Memory, f: nat, i: nat, last: nat)
    requires i < SLOTS
  {
    f < |mem| && |mem[f]| == PAGE && Slot(mem, f, i) == Entry(f, i, last)
  }

  /** Memory as the entries say. */
  ghost predicate Holds(mem: Memory, last: nat) {
    |mem| == MAX_FRAMES && MemOk(mem) && forall f: nat, i: nat :: f < MAX_FRAMES && i < SLOTS ==> HasEntry(mem, f, i, last)
  }

  lemma {:induction false} FramesHold(last: nat)
    requires last < TWO64
    ensures Holds(Frames(last), last)
  {
    forall f: nat, i: nat | f < MAX_FRAMES && i < SLOTS ensures HasEntry(Frames(last), f, i, last) { EntryAt(f, i, last); }
  }

  /** An entry that leads to another table leads to the one that belongs there. */
  lemma {:induction false} Edge(mem: Memory, last: nat, f: nat, i: nat)
    requires Holds(mem, last) && 1 <= f <= 7 && i < SLOTS
    ensures f in KERNEL ==> EdgeOk(mem, KERNEL, f, i)
    ensures f in PROCESS ==> EdgeOk(mem, PROCESS, f, i)
  {
    assert HasEntry(mem, f, i, last);
    TableEntryFacts(f + 1);
    TableEntryFacts(6);
    TableEntryFacts(3);
    SupervisorFacts(TableEntry(3));
  }

  lemma {:induction false} Link(mem: Memory, last: nat, nodes: map<nat, Node>, g: nat, i: nat, f: nat)
    requires Holds(mem, last) && f in nodes && nodes[f] != Root && g in nodes && g < MAX_FRAMES && nodes[g] == ParentLabel(nodes[f]) && ParentSlot(nodes[f]) == i && i < SLOTS
    requires Entry(g, i, last) == TableEntry(f) || (!nodes[g].Pd? && Entry(g, i, last) == Supervisor(TableEntry(f)))
    ensures HasParent(mem, nodes, f)
  {
    assert HasEntry(mem, g, i, last);
    TableEntryFacts(f);
    SupervisorFacts(TableEntry(f));
    assert LinkedFrom(mem, nodes, g, f);
  }

  lemma {:induction false} KernelTree(mem: Memory, last: nat)
    requires Holds(mem, last)
    ensures Tree(mem, 1, KERNEL) && Kernel(mem, 1, KERNEL, 2)
  {
    forall f, i: nat | f in KERNEL && i < SLOTS ensures EdgeOk(mem, KERNEL, f, i) { Edge(mem, last, f, i); }
    Link(mem, last, KERNEL, 1, 0, 2);
    Link(mem, last, KERNEL, 2, 0, 3);
    assert HasEntry(mem, 1, 0, last) && HasEntry(mem, 2, 0, last);
    TableEntryFacts(2);
    TableEntryFacts(3);
  }

  lemma {:induction false} ProcessParents(mem: Memory, last: nat, f: nat)
    requires Holds(mem, last) && f in PROCESS && f != 4
    ensures HasParent(mem, PROCESS, f)
  {
    if f == 5 {
      Link(mem, last, PROCESS, 4, 0, 5);
    } else if f == 3 {
      Link(mem, last, PROCESS, 5, 0, 3);
    } else if f == 6 {
      Link(mem, last, PROCESS, 5, 1, 6);
    } else {
      Link(mem, last, PROCESS, 6, 0, 7);
    }
  }

  lemma {:induction false} ProcessPlaces()
    ensures Injective(PROCESS) && (forall f :: f in PROCESS ==> 3 <= f <= 7) && (forall f :: f in PROCESS && PROCESS[f] != Root ==> f != 4)
  {
  }

  lemma {:induction false} ProcessTree(mem: Memory, last: nat)
    requires Holds(mem, last)
    ensures Tree(mem, 4, PROCESS)
  {
    ProcessPlaces();
    forall f, i: nat | f in PROCESS && i < SLOTS ensures EdgeOk(mem, PROCESS, f, i) { Edge(mem, last, f, i); }
    forall f | f in PROCESS && PROCESS[f] != Root ensures HasParent(mem, PROCESS, f) { ProcessParents(mem, last, f); }
  }

  /** The walks of the process. */
  lemma {:induction false} ProcessWalk(mem: Memory, last: nat, w: nat)
    requires Holds(mem, last) && Tree(mem, 4, PROCESS)
    ensures PdEntry(mem, 4, PROCESS, w) == if IdxA(w) == 0 && IdxB(w) == 1 && IdxC(w) == 0 then TableEntry(7) else 0
    ensures PtEntry(mem, 4, PROCESS, w) == if IdxA(w) == 0 && IdxB(w) == 1 && IdxC(w) == 0 && IdxD(w) == 0 then last else 0
  {
    DirectoryWalks(mem, last, w);
    TableEntryFacts(7);
    assert HasEntry(mem, 3, IdxC(w), last) && HasEntry(mem, 6, IdxC(w), last) && HasEntry(mem, 7, IdxD(w), last);
  }

  lemma {:induction false} DirectoryWalks(mem: Memory, last: nat, w: nat)
    requires Holds(mem, last) && Tree(mem, 4, PROCESS)
    ensures Walk2(mem, 4, PROCESS, w) == if IdxA(w) != 0 then 0 else if IdxB(w) == 0 then 3 else if IdxB(w) == 1 then 6 else 0
  {
    assert HasEntry(mem, 4, IdxA(w), last) && HasEntry(mem, 5, IdxB(w), last);
    TableEntryFacts(5);
    TableEntryFacts(6);
    TableEntryFacts(3);
    SupervisorFacts(TableEntry(3));
  }

  /** Such a memory exists. */
  lemma {:induction false} SomeFrames(last: nat) returns (mem: Memory)
    requires last == 0 || last == CopyEntry(8)
    ensures Holds(mem, last) && Tree(mem, 4, PROCESS) && Kernel(mem, 1, KERNEL, 2)
  {
    EntryBounds(8 * PAGE, USER_RW);
    FramesHold(last);
    mem := Frames(last);
    ProcessTree(mem, last);
    KernelTree(mem, last);
  }

  /** A map of 2 MiB is refused where an emptied page table was left behind: taking out the only page
      at 1 GiB leaves 2 MiB in which nothing is mapped and nothing large can be. */
  lemma {:induction false} EmptiedTableExample() returns (was: Memory, now: Memory)
    ensures Tree(was, 4, PROCESS) && Tree(now, 4, PROCESS) && LeafOf(was, 4, PROCESS, USER_BASE) == Small(CopyEntry(8))
    ensures SetsPage(was, now, 4, PROCESS, PROCESS, USER_BASE, PAGE, NoLeaf)
    ensures forall w: nat :: w < TWO48 ==> LeafOf(now, 4, PROCESS, w) == NoLeaf
    ensures forall phys: nat :: !MayMapLarge(now, 4, PROCESS, USER_BASE, phys)
  {
    CopyEntryFacts(8);
    was := SomeFrames(CopyEntry(8));
    now := SomeFrames(0);
    forall w: nat | w < TWO48 ensures LeafOf(now, 4, PROCESS, w) == NoLeaf && LeafOf(was, 4, PROCESS, w) == if w / PAGE == USER_BASE / PAGE then Small(CopyEntry(8)) else NoLeaf {
      OnePage(was, CopyEntry(8), w);
      OnePage(now, 0, w);
    }
    forall phys: nat ensures !MayMapLarge(now, 4, PROCESS, USER_BASE, phys) { EmptiedTableStays(was, now, 4, PROCESS, USER_BASE, USER_BASE, phys); }
  }

  lemma {:induction false} OnePage(mem: Memory, last: nat, w: nat)
    requires Holds(mem, last) && Tree(mem, 4, PROCESS) && w < TWO48 && (last == 0 || last == CopyEntry(8))
    ensures LeafOf(mem, 4, PROCESS, w) == if w / PAGE == USER_BASE / PAGE && last != 0 then Small(last) else NoLeaf
    ensures UserPage(mem, 4, PROCESS, w) <==> w / PAGE == USER_BASE / PAGE && last != 0
  {
    ProcessWalk(mem, last, w);
    SamePage(USER_BASE, w);
    TableEntryFacts(7);
    CopyEntryFacts(8);
    FirstPage(w);
  }

  lemma {:induction false} FirstPage(w: nat)
    ensures IdxA(USER_BASE) == 0 && IdxB(USER_BASE) == 1 && IdxC(USER_BASE) == 0 && IdxD(USER_BASE) == 0
    ensures w / PAGE == USER_BASE / PAGE ==> w >= USER_BASE
  {
  }

  // ---- a fork that loses a frame ----

  const FIRST: nat := 0x4_0000      // number of the page at 1 GiB

  /** The process, with three frames left on the machine. */
  function Process(mem: Memory): Life { Life(mem, PROCESS, {9, 10, 11}, map[8 := FIRST], {}) }

  const EVERY: set<nat> := {4, 5, 6, 7, 8, 9, 10, 11}

  lemma {:induction false} ProcessDivided()
    ensures Divided(PROCESS, {9, 10, 11}, map[8 := FIRST], {}, EVERY) && LapicAlone(PROCESS, 0)
  {
    ProcessPlaces();
    forall f ensures f in EVERY <==> f in {9, 10, 11} || f in map[8 := FIRST] || PrivateTable(PROCESS, f) { }
  }

  lemma {:induction false} ProcessPages(mem: Memory)
    requires Holds(mem, CopyEntry(8)) && Tree(mem, 4, PROCESS)
    ensures PagesMatch(mem, 4, PROCESS, map[8 := FIRST], 0)
  {
    CopyEntryFacts(8);
    var pages: map<nat, nat> := map[8 := FIRST];
    forall w: nat | InUser(w, 0) ensures PageOwned(mem, 4, PROCESS, pages, w) {
      InUserIndices(w, 0);
      OnePage(mem, CopyEntry(8), w);
    }
    OnePage(mem, CopyEntry(8), USER_BASE);
    assert FIRST * PAGE == USER_BASE;
    assert FrameMapped(mem, 4, PROCESS, pages, 0, 8);
  }

  lemma {:induction false} ProcessIsParent(mem: Memory)
    requires Holds(mem, CopyEntry(8)) && Tree(mem, 4, PROCESS)
    ensures Parent(4, Process(mem), EVERY, 0, KERNEL)
  {
    CopyEntryFacts(8);
    ProcessDivided();
    ProcessPages(mem);
    var s := Process(mem);
    forall w: nat | w < TWO48 ensures UserInside(4, s, 0, w) {
      OnePage(mem, CopyEntry(8), w);
      FirstIsInside(w);
    }
  }

  lemma {:induction false} FirstIsInside(w: nat)
    ensures w / PAGE == USER_BASE / PAGE ==> InUser(w, 0)
  {
  }

  /** Its one page costs three frames: the copy, a page directory and a page table. */
  lemma {:induction false} ProcessCost(mem: Memory)
    requires Holds(mem, CopyEntry(8)) && Tree(mem, 4, PROCESS)
    ensures CopyCost(4, Process(mem), FIRST) == 0 && CopyCost(4, Process(mem), FIRST + 1) == 3
  {
    PagesOfProcess(mem, FIRST);
    PagesOfProcess(mem, FIRST + 1);
    assert PageTablesOf({}) == {} && DirectoriesOf({}) == {};
    assert PageTablesOf({FIRST}) == {LowestTable(FIRST * PAGE)};
    assert DirectoriesOf({FIRST}) == {Pd(IdxA(FIRST * PAGE), IdxB(FIRST * PAGE))};
  }

  lemma {:induction false} PagesOfProcess(mem: Memory, limit: nat)
    requires Holds(mem, CopyEntry(8)) && Tree(mem, 4, PROCESS) && limit <= ALL_PAGES
    ensures UserPages(mem, 4, PROCESS, limit) == if FIRST < limit then {FIRST} else {}
  {
    CopyEntryFacts(8);
    forall n: nat | n < limit ensures UserPage(mem, 4, PROCESS, n * PAGE) <==> n == FIRST {
      Aligned(n);
      OnePage(mem, CopyEntry(8), n * PAGE);
    }
  }

  /** With three frames left, fork takes two for the child's root and first table and one for the
      copy of the page, finds none for the page directory, and does not give the copy back. */
  lemma {:induction false} LostCopyExample() returns (mem: Memory)
    ensures Parent(4, Process(mem), EVERY, 0, KERNEL) && Kernel(mem, 1, KERNEL, 2)
    ensures ForkLoses(4, Process(mem), 0) && |Process(mem).free| < ForkCost(4, Process(mem), 0)
  {
    CopyEntryFacts(8);
    mem := SomeFrames(CopyEntry(8));
    ProcessIsParent(mem);
    ProcessCost(mem);
    ThreeFree(mem);
    assert BreaksInside(4, Process(mem), 1, FIRST);
    LosingFails(4, Process(mem), 0);
  }

  lemma {:induction false} ThreeFree(mem: Memory)
    ensures |Process(mem).free| == 3
  {
  }

  // ---- a new address space without the local APIC ----

  /** With two free frames a new address space is made, and the local APIC is not mapped in it. */
  method SpaceWithoutLapic(m: Machine) returns (cr3: nat, ghost nodes: map<nat, Node>)
    requires m.Valid() && m.kernelRoot == 1 && m.lapicBase == 0xFEE0_0000 && m.pmm.free == {9, 10} && Kernel(m.mem, 1, KERNEL, 2)
    modifies m`mem, m.pmm, m.pmm.bitmap
    ensures cr3 != 0 && Tree(m.mem, cr3, nodes) && !LapicMapped(m.mem, cr3, nodes, 0xFEE0_0000)
  {
    ghost var pdpt;
    cr3, pdpt, nodes := NewAddressSpace(m, KERNEL, 2);
  }
}
