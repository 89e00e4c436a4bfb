/** Who owns which frame while an address space is built and changed: the invariant behind the
    conservation of frames (mem/mm/paging.c). */
module FrameLedger {
  import opened FrameAllocation
  import opened PageTables
  import opened Paging

  const TWO39: nat := 0x80_0000_0000        // 512 GiB, the reach of the first root entry
  const GIB: nat := 0x4000_0000

  /** Addresses that belong to the process: from 1 GiB to 512 GiB, without gigabyte `lapic` (0 if
      there is no local APIC mapping). */
  predicate InUser(w: nat, lapic: nat) { USER_BASE <= w < TWO39 && w / GIB != lapic }

  lemma {:induction false} InUserIndices(w: nat, lapic: nat)
    requires InUser(w, lapic)
    ensures IdxA(w) == 0 && 1 <= IdxB(w) < SLOTS && IdxB(w) != lapic && w < TWO48
  {
  }

  /** Tables that belong to this address space alone; the others are the kernel's. */
  predicate Private(n: Node) {
    match n
    case Root => true
    case Pdpt(a) => a == 0
    case Pd(a, b) => a == 0 && b != 0
    case Pt(a, b, c) => a == 0 && b != 0
  }

  predicate PrivateTable(nodes: map<nat, Node>, f: nat) { f in nodes && Private(nodes[f]) }

  lemma {:induction false} PathIsPrivate(n: Node, va: nat, lapic: nat)
    requires InUser(va, lapic) && OnPath(n, va)
    ensures Private(n) && !(n.Pt? && n.b == lapic)
  {
    InUserIndices(va, lapic);
  }

  /** The frame behind page w. */
  function LeafFrame(l: Leaf, w: nat): nat {
    match l
    case NoLeaf => 0
    case Small(e) => Base(e)
    case Big(d) => LargeBase(d) + IdxD(w)
  }

  /** `pages` says of the frame behind w that it is behind w. */
  ghost predicate PageOwned(mem: Memory, root: nat, nodes: map<nat, Node>, pages: map<nat, nat>, w: nat)
    requires Tree(mem, root, nodes)
  {
    var l := LeafOf(mem, root, nodes, w);
    l != NoLeaf ==> LeafFrame(l, w) in pages && pages[LeafFrame(l, w)] == w / PAGE
  }

  /** Frame f is where `pages` says. */
  ghost predicate FrameMapped(mem: Memory, root: nat, nodes: map<nat, Node>, pages: map<nat, nat>, lapic: nat, f: nat)
    requires Tree(mem, root, nodes) && f in pages
  {
    var w := pages[f] * PAGE;
    InUser(w, lapic) && LeafOf(mem, root, nodes, w) != NoLeaf && LeafFrame(LeafOf(mem, root, nodes, w), w) == f
  }

  /** The map and `pages` (frame to page number) are each other's inverse. */
  ghost predicate PagesMatch(mem: Memory, root: nat, nodes: map<nat, Node>, pages: map<nat, nat>, lapic: nat)
    requires Tree(mem, root, nodes)
  {
    && (forall w: nat :: InUser(w, lapic) ==> PageOwned(mem, root, nodes, pages, w))
    && (forall f :: f in pages ==> FrameMapped(mem, root, nodes, pages, lapic, f))
  }

  /** The frames of `all` are divided among the free ones, the mapped ones, the private tables and
      the ones the caller holds. */
  ghost predicate Divided(nodes: map<nat, Node>, free: set<nat>, pages: map<nat, nat>, held: set<nat>, all: set<nat>) {
    && (forall f :: f in all <==> f in free || f in pages || f in held || PrivateTable(nodes, f))
    && (forall f :: f in pages ==> f !in free && f !in held && f !in nodes)
    && (forall f :: f in held ==> f !in free && f !in nodes)
    && (forall f :: f in nodes ==> f !in free && (f in all ==> Private(nodes[f])))
    && (forall f :: f in all ==> 0 < f < MAX_FRAMES)
  }

  /** No page tables in the gigabyte of the local APIC. */
  ghost predicate LapicAlone(nodes: map<nat, Node>, lapic: nat) {
    forall f :: f in nodes && nodes[f].Pt? && nodes[f].a == 0 && nodes[f].b == lapic ==> lapic == 0
  }

  ghost predicate Owned(mem: Memory, root: nat, nodes: map<nat, Node>, free: set<nat>, pages: map<nat, nat>, held: set<nat>, all: set<nat>, lapic: nat) {
    Tree(mem, root, nodes) && PagesMatch(mem, root, nodes, pages, lapic) && Divided(nodes, free, pages, held, all) && LapicAlone(nodes, lapic)
  }

  // ---- taking and giving back ----

  lemma {:induction false} TakeKeeps(mem: Memory, root: nat, nodes: map<nat, Node>, free: set<nat>, pages: map<nat, nat>, held: set<nat>, all: set<nat>, lapic: nat, got: set<nat>)
    requires Owned(mem, root, nodes, free, pages, held, all, lapic) && got <= free
    ensures Owned(mem, root, nodes, free - got, pages, held + got, all, lapic)
  {
  }

  lemma {:induction false} GiveKeeps(mem: Memory, root: nat, nodes: map<nat, Node>, free: set<nat>, pages: map<nat, nat>, held: set<nat>, all: set<nat>, lapic: nat, given: set<nat>)
    requires Owned(mem, root, nodes, free, pages, held, all, lapic) && given <= held
    ensures Owned(mem, root, nodes, free + given, pages, held - given, all, lapic)
  {
  }

  // ---- mapping ----

  lemma {:induction false} AtMostOne(x: set<nat>)
    requires forall f, g :: f in x && g in x ==> f == g
    ensures |x| <= 1
  {
    if f :| f in x {
      assert x == {f};
    }
  }

  /** On the path of an address there are three tables besides the root. */
  lemma {:induction false} NewTablesFew(mem: Memory, mem': Memory, root: nat, nodes: map<nat, Node>, nodes': map<nat, Node>, free: set<nat>, free': set<nat>, va: nat)
    requires Tree(mem, root, nodes) && Tree(mem', root, nodes') && Extends(mem, mem', nodes, nodes', free, free', va) && forall f :: f in nodes ==> f !in free
    ensures |free| <= |free'| + 3
  {
    var n := set f | f in free && f in nodes';
    forall f | f in n ensures f in nodes' && OnPath(nodes'[f], va) && nodes'[f] != Root { }
    PathTables(nodes', n, va);
    assert free == free' + n;
  }

  lemma {:induction false} PathTables(nodes: map<nat, Node>, n: set<nat>, va: nat)
    requires Injective(nodes) && forall f :: f in n ==> f in nodes && OnPath(nodes[f], va) && nodes[f] != Root
    ensures |n| <= 3
  {
    var n1, n2, n3 := (set f | f in n && nodes[f].Pdpt?), (set f | f in n && nodes[f].Pd?), (set f | f in n && nodes[f].Pt?);
    AtMostOne(n1);
    AtMostOne(n2);
    AtMostOne(n3);
    assert n == n1 + n2 + n3;
  }

  /** New tables come out of the free frames and are private. */
  lemma {:induction false} TablesAdded(mem: Memory, mem': Memory, nodes: map<nat, Node>, nodes': map<nat, Node>, free: set<nat>, free': set<nat>,
                                       pages: map<nat, nat>, held: set<nat>, all: set<nat>, lapic: nat, va: nat)
    requires Extends(mem, mem', nodes, nodes', free, free', va) && InUser(va, lapic)
    requires Divided(nodes, free, pages, held, all) && LapicAlone(nodes, lapic)
    ensures Divided(nodes', free', pages, held, all) && LapicAlone(nodes', lapic)
  {
    forall f | f in nodes' && f !in nodes ensures f in free && Private(nodes'[f]) && !(nodes'[f].Pt? && nodes'[f].b == lapic) {
      PathIsPrivate(nodes'[f], va, lapic);
    }
    forall f ensures f in all <==> f in free' || f in pages || f in held || PrivateTable(nodes', f) {
      assert PrivateTable(nodes, f) ==> PrivateTable(nodes', f);
    }
  }

  lemma {:induction false} MapFailedKeeps(mem: Memory, mem': Memory, root: nat, nodes: map<nat, Node>, nodes': map<nat, Node>, free: set<nat>, free': set<nat>,
                                          pages: map<nat, nat>, held: set<nat>, all: set<nat>, lapic: nat, va: nat)
    requires Owned(mem, root, nodes, free, pages, held, all, lapic) && InUser(va, lapic) && Tree(mem', root, nodes')
    requires Extends(mem, mem', nodes, nodes', free, free', va) && SameLeaves(mem, mem', root, nodes, nodes')
    ensures Owned(mem', root, nodes', free', pages, held, all, lapic)
  {
    TablesAdded(mem, mem', nodes, nodes', free, free', pages, held, all, lapic, va);
    forall w: nat | InUser(w, lapic) ensures PageOwned(mem', root, nodes', pages, w) {
      assert PageOwned(mem, root, nodes, pages, w) && LeafOf(mem', root, nodes', w) == LeafOf(mem, root, nodes, w);
    }
    forall f | f in pages ensures FrameMapped(mem', root, nodes', pages, lapic, f) {
      assert FrameMapped(mem, root, nodes, pages, lapic, f);
      assert LeafOf(mem', root, nodes', pages[f] * PAGE) == LeafOf(mem, root, nodes, pages[f] * PAGE);
    }
  }

  /** Frame g, held by the caller, becomes the page of va. */
  lemma {:induction false} MapKeeps(mem: Memory, mem': Memory, root: nat, nodes: map<nat, Node>, nodes': map<nat, Node>, free: set<nat>, free': set<nat>,
                                    pages: map<nat, nat>, held: set<nat>, all: set<nat>, lapic: nat, va: nat, pn: nat, g: nat, flags: nat)
    requires Owned(mem, root, nodes, free, pages, held, all, lapic) && InUser(va, lapic) && va == pn * PAGE && Tree(mem', root, nodes')
    requires g in held && flags < PAGE && LeafOf(mem, root, nodes, va) == NoLeaf
    requires Extends(mem, mem', nodes, nodes', free, free', va) && SetsPage(mem, mem', root, nodes, nodes', va, PAGE, Small(LeafEntry(g * PAGE, flags)))
    ensures Owned(mem', root, nodes', free', pages[g := pn], held - {g}, all, lapic)
  {
    TablesAdded(mem, mem', nodes, nodes', free, free', pages, held, all, lapic, va);
    LeafBase(g, flags);
    MapPagesMatch(mem, mem', root, nodes, nodes', pages, lapic, va, pn, g, flags);
    HeldMapped(nodes', free', pages, held, all, pages[g := pn], {g});
  }

  /** Held frames become mapped ones. */
  lemma {:induction false} HeldMapped(nodes: map<nat, Node>, free: set<nat>, pages: map<nat, nat>, held: set<nat>, all: set<nat>, pages': map<nat, nat>, run: set<nat>)
    requires Divided(nodes, free, pages, held, all) && run <= held && (forall f :: f in pages' <==> f in pages || f in run)
    ensures Divided(nodes, free, pages', held - run, all)
  {
  }

  /** Mapped frames become free. */
  lemma {:induction false} MappedFreed(nodes: map<nat, Node>, free: set<nat>, pages: map<nat, nat>, held: set<nat>, all: set<nat>, pages': map<nat, nat>, run: set<nat>)
    requires Divided(nodes, free, pages, held, all) && (forall f :: f in run ==> f in pages) && (forall f :: f in pages' <==> f in pages && f !in run)
    ensures Divided(nodes, free + run, pages', held, all)
  {
  }

  lemma {:induction false} LeafBase(g: nat, flags: nat)
    requires flags < PAGE
    ensures Base(LeafEntry(g * PAGE, flags)) == g
  {
    LeafEntryFacts(g * PAGE, flags);
  }

  lemma {:induction false} MapPagesMatch(mem: Memory, mem': Memory, root: nat, nodes: map<nat, Node>, nodes': map<nat, Node>,
                                         pages: map<nat, nat>, lapic: nat, va: nat, pn: nat, g: nat, flags: nat)
    requires Tree(mem, root, nodes) && Tree(mem', root, nodes') && PagesMatch(mem, root, nodes, pages, lapic)
    requires InUser(va, lapic) && va == pn * PAGE && g !in pages && LeafOf(mem, root, nodes, va) == NoLeaf
    requires var e := LeafEntry(g * PAGE, flags); Base(e) == g && SetsPage(mem, mem', root, nodes, nodes', va, PAGE, Small(e))
    ensures PagesMatch(mem', root, nodes', pages[g := pn], lapic)
  {
    var pages' := pages[g := pn];
    assert va / PAGE == pn;
    forall w: nat | InUser(w, lapic) ensures PageOwned(mem', root, nodes', pages', w) {
      InUserIndices(w, lapic);
      assert PageOwned(mem, root, nodes, pages, w);
    }
    forall f | f in pages' ensures FrameMapped(mem', root, nodes', pages', lapic, f) {
      if f != g {
        assert FrameMapped(mem, root, nodes, pages, lapic, f);
        InUserIndices(pages[f] * PAGE, lapic);
      }
    }
  }

  // ---- unmapping ----

  lemma {:induction false} UnmapKeeps(mem: Memory, mem': Memory, root: nat, nodes: map<nat, Node>, free: set<nat>,
                                      pages: map<nat, nat>, held: set<nat>, all: set<nat>, lapic: nat, va: nat, p: nat)
    requires Owned(mem, root, nodes, free, pages, held, all, lapic) && InUser(va, lapic) && Tree(mem', root, nodes)
    requires LeafOf(mem, root, nodes, va) == Small(p) && SetsPage(mem, mem', root, nodes, nodes, va, PAGE, NoLeaf)
    ensures Base(p) in pages && Base(p) in all
    ensures Owned(mem', root, nodes, free + {Base(p)}, pages - {Base(p)}, held, all, lapic)
  {
    assert PageOwned(mem, root, nodes, pages, va);
    UnmapMatch(mem, mem', root, nodes, pages, lapic, va, Base(p));
    MappedFreed(nodes, free, pages, held, all, pages - {Base(p)}, {Base(p)});
  }

  lemma {:induction false} UnmapMatch(mem: Memory, mem': Memory, root: nat, nodes: map<nat, Node>, pages: map<nat, nat>, lapic: nat, va: nat, g: nat)
    requires Tree(mem, root, nodes) && Tree(mem', root, nodes) && PagesMatch(mem, root, nodes, pages, lapic) && InUser(va, lapic)
    requires LeafOf(mem, root, nodes, va).Small? && Base(LeafOf(mem, root, nodes, va).e) == g && SetsPage(mem, mem', root, nodes, nodes, va, PAGE, NoLeaf)
    ensures PagesMatch(mem', root, nodes, pages - {g}, lapic)
  {
    var pages' := pages - {g};
    InUserIndices(va, lapic);
    assert PageOwned(mem, root, nodes, pages, va);
    forall w: nat | InUser(w, lapic) ensures PageOwned(mem', root, nodes, pages', w) {
      InUserIndices(w, lapic);
      assert PageOwned(mem, root, nodes, pages, w);
    }
    forall f | f in pages' ensures FrameMapped(mem', root, nodes, pages', lapic, f) {
      UnmapOther(mem, root, nodes, pages, lapic, va, g, f);
    }
  }

  /** Another frame is behind another page. */
  lemma {:induction false} UnmapOther(mem: Memory, root: nat, nodes: map<nat, Node>, pages: map<nat, nat>, lapic: nat, va: nat, g: nat, f: nat)
    requires Tree(mem, root, nodes) && PagesMatch(mem, root, nodes, pages, lapic) && InUser(va, lapic) && f in pages && f != g
    requires LeafOf(mem, root, nodes, va).Small? && Base(LeafOf(mem, root, nodes, va).e) == g
    ensures FrameMapped(mem, root, nodes, pages, lapic, f) && pages[f] * PAGE < TWO48 && pages[f] * PAGE / PAGE != va / PAGE
  {
    var w := pages[f] * PAGE;
    assert FrameMapped(mem, root, nodes, pages, lapic, f);
    InUserIndices(w, lapic);
    InUserIndices(va, lapic);
    if w / PAGE == va / PAGE {
      SamePage(va, w);
      WalkByIndex(mem, root, nodes, va, w);
    }
  }

  // ---- 2 MiB pages ----

  /** 512 frames from g on, behind the pages from pn on. */
  ghost predicate IsRun(run: map<nat, nat>, g: nat, pn: nat) {
    && (forall f :: f in run <==> g <= f < g + SLOTS)
    && (forall f :: f in run ==> run[f] == pn + (f - g))
  }

  function Run(g: nat, pn: nat, k: nat): (m: map<nat, nat>)
    ensures forall f :: f in m <==> g <= f < g + k
    ensures forall f :: f in m ==> m[f] == pn + (f - g)
  {
    if k == 0 then map[] else Run(g, pn, k - 1)[g + k - 1 := pn + k - 1]
  }

  lemma {:induction false} HugePages(va: nat, pn: nat, w: nat)
    requires va == pn * PAGE && va % HUGE == 0 && w / HUGE == va / HUGE
    ensures w / PAGE == pn + IdxD(w)
  {
    var q := va / HUGE;
    assert va == q * HUGE && pn == q * SLOTS;
    assert w / HUGE == w / PAGE / SLOTS;
  }

  lemma {:induction false} PageHuge(w: nat)
    ensures w / PAGE * PAGE / HUGE == w / HUGE
  {
    var p, r := w / PAGE, w % PAGE;
    assert w == p * PAGE + r;
    assert p * PAGE / HUGE == p / SLOTS;
  }

  lemma {:induction false} HugeBase(va: nat, lapic: nat) returns (pn: nat)
    requires InUser(va, lapic)
    ensures InUser(pn * PAGE, lapic) && pn * PAGE % HUGE == 0 && pn * PAGE / HUGE == va / HUGE
  {
    var q, r := va / HUGE, va % HUGE;
    pn := q * SLOTS;
    assert pn * PAGE == q * HUGE && va == q * HUGE + r;
    assert va / GIB == q / SLOTS && q * HUGE / GIB == q / SLOTS;
  }

  lemma {:induction false} RunMapped(va: nat, pn: nat, lapic: nat, k: nat, w: nat)
    requires InUser(va, lapic) && va == pn * PAGE && va % HUGE == 0 && k < SLOTS && w == (pn + k) * PAGE
    ensures InUser(w, lapic) && w < TWO48 && w / HUGE == va / HUGE && IdxD(w) == k
  {
    var q := va / HUGE;
    assert va == q * HUGE && pn == q * SLOTS && w == q * HUGE + k * PAGE;
    assert w / HUGE == q && w / GIB == va / GIB;
    assert w / PAGE == q * SLOTS + k;
  }

  /** A run of held frames becomes the 2 MiB page of va. */
  lemma {:induction false} MapLargeKeeps(mem: Memory, mem': Memory, root: nat, nodes: map<nat, Node>, nodes': map<nat, Node>, free: set<nat>, free': set<nat>,
                                         pages: map<nat, nat>, held: set<nat>, all: set<nat>, lapic: nat, va: nat, pn: nat, g: nat, flags: nat, run: map<nat, nat>)
    requires Owned(mem, root, nodes, free, pages, held, all, lapic) && InUser(va, lapic) && va == pn * PAGE && va % HUGE == 0 && Tree(mem', root, nodes')
    requires IsRun(run, g, pn) && run.Keys <= held && flags < PAGE && !Present(PdEntry(mem, root, nodes, va)) && g * PAGE % HUGE == 0
    requires Extends(mem, mem', nodes, nodes', free, free', va) && SetsPage(mem, mem', root, nodes, nodes', va, HUGE, Big(LargeEntry(g * PAGE, flags)))
    ensures Owned(mem', root, nodes', free', pages + run, held - run.Keys, all, lapic)
  {
    TablesAdded(mem, mem', nodes, nodes', free, free', pages, held, all, lapic, va);
    LargeEntryFacts(g * PAGE, flags);
    LargePagesMatch(mem, mem', root, nodes, nodes', pages, lapic, va, pn, g, LargeEntry(g * PAGE, flags), run);
    HeldMapped(nodes', free', pages, held, all, pages + run, run.Keys);
  }

  lemma {:induction false} LargePagesMatch(mem: Memory, mem': Memory, root: nat, nodes: map<nat, Node>, nodes': map<nat, Node>,
                                           pages: map<nat, nat>, lapic: nat, va: nat, pn: nat, g: nat, e: nat, run: map<nat, nat>)
    requires Tree(mem, root, nodes) && Tree(mem', root, nodes') && PagesMatch(mem, root, nodes, pages, lapic)
    requires InUser(va, lapic) && va == pn * PAGE && va % HUGE == 0 && !Present(PdEntry(mem, root, nodes, va))
    requires IsRun(run, g, pn) && run.Keys !! pages.Keys && LargeBase(e) == g && SetsPage(mem, mem', root, nodes, nodes', va, HUGE, Big(e))
    ensures PagesMatch(mem', root, nodes', pages + run, lapic)
  {
    var pages' := pages + run;
    forall w: nat | InUser(w, lapic) ensures PageOwned(mem', root, nodes', pages', w) {
      LargePageOwned(mem, mem', root, nodes, nodes', pages, lapic, va, pn, g, e, run, w);
    }
    forall f | f in pages' ensures FrameMapped(mem', root, nodes', pages', lapic, f) {
      if f in run {
        RunMapped(va, pn, lapic, f - g, pages'[f] * PAGE);
      } else {
        assert FrameMapped(mem, root, nodes, pages, lapic, f);
        LargeOther(mem, root, nodes, lapic, va, pages[f] * PAGE);
      }
    }
  }

  lemma {:induction false} LargePageOwned(mem: Memory, mem': Memory, root: nat, nodes: map<nat, Node>, nodes': map<nat, Node>,
                                          pages: map<nat, nat>, lapic: nat, va: nat, pn: nat, g: nat, e: nat, run: map<nat, nat>, w: nat)
    requires Tree(mem, root, nodes) && Tree(mem', root, nodes') && PagesMatch(mem, root, nodes, pages, lapic) && InUser(w, lapic)
    requires va == pn * PAGE && va % HUGE == 0
    requires IsRun(run, g, pn) && run.Keys !! pages.Keys && LargeBase(e) == g && SetsPage(mem, mem', root, nodes, nodes', va, HUGE, Big(e))
    ensures PageOwned(mem', root, nodes', pages + run, w)
  {
    InUserIndices(w, lapic);
    assert PageOwned(mem, root, nodes, pages, w);
    if w / HUGE == va / HUGE { HugePages(va, pn, w); }
  }

  /** A mapped page is not in a 2 MiB range without a page directory entry. */
  lemma {:induction false} LargeOther(mem: Memory, root: nat, nodes: map<nat, Node>, lapic: nat, va: nat, w: nat)
    requires Tree(mem, root, nodes) && InUser(va, lapic) && InUser(w, lapic) && !Present(PdEntry(mem, root, nodes, va)) && LeafOf(mem, root, nodes, w) != NoLeaf
    ensures w < TWO48 && w / HUGE != va / HUGE
  {
    InUserIndices(va, lapic);
    InUserIndices(w, lapic);
    if w / HUGE == va / HUGE {
      SameHuge(va, w);
      WalkByIndex(mem, root, nodes, va, w);
    }
  }

  /** All pages of a 2 MiB page have the same leaf. */
  lemma {:induction false} SameLarge(mem: Memory, root: nat, nodes: map<nat, Node>, lapic: nat, va: nat, w: nat)
    requires Tree(mem, root, nodes) && InUser(va, lapic) && InUser(w, lapic) && LeafOf(mem, root, nodes, va).Big? && w / HUGE == va / HUGE
    ensures LeafOf(mem, root, nodes, w) == LeafOf(mem, root, nodes, va)
  {
    InUserIndices(va, lapic);
    InUserIndices(w, lapic);
    SameHuge(va, w);
    WalkByIndex(mem, root, nodes, va, w);
  }

  /** Every frame f of the 2 MiB page of va is behind one of its pages. */
  lemma {:induction false} LargeFrameOwned(mem: Memory, root: nat, nodes: map<nat, Node>, pages: map<nat, nat>, lapic: nat, va: nat, d: nat, f: nat)
    requires Tree(mem, root, nodes) && PagesMatch(mem, root, nodes, pages, lapic) && InUser(va, lapic) && LeafOf(mem, root, nodes, va) == Big(d)
    requires LargeBase(d) <= f < LargeBase(d) + SLOTS
    ensures f in pages && pages[f] * PAGE / HUGE == va / HUGE
  {
    var w := PageOfHuge(va, lapic, f - LargeBase(d));
    SameLarge(mem, root, nodes, lapic, va, w);
    BigFrame(d, w, f);
    assert PageOwned(mem, root, nodes, pages, w);
  }

  lemma {:induction false} BigFrame(d: nat, w: nat, f: nat)
    requires IdxD(w) == f - LargeBase(d)
    ensures LeafFrame(Big(d), w) == f
  {
  }

  lemma {:induction false} PageOfHuge(va: nat, lapic: nat, k: nat) returns (w: nat)
    requires InUser(va, lapic) && k < SLOTS
    ensures InUser(w, lapic) && w / HUGE == va / HUGE && IdxD(w) == k && w / PAGE * PAGE / HUGE == va / HUGE
  {
    var pn := HugeBase(va, lapic);
    w := (pn + k) * PAGE;
    RunMapped(pn * PAGE, pn, lapic, k, w);
    PageHuge(w);
  }

  /** Exactly the pages of a 2 MiB page are behind its frames. */
  lemma {:induction false} LargeRunApart(mem: Memory, root: nat, nodes: map<nat, Node>, pages: map<nat, nat>, lapic: nat, va: nat, d: nat, w: nat)
    requires Tree(mem, root, nodes) && PagesMatch(mem, root, nodes, pages, lapic) && InUser(va, lapic) && InUser(w, lapic)
    requires LeafOf(mem, root, nodes, va) == Big(d) && LeafOf(mem, root, nodes, w) != NoLeaf
    ensures LargeBase(d) <= LeafFrame(LeafOf(mem, root, nodes, w), w) < LargeBase(d) + SLOTS <==> w / HUGE == va / HUGE
  {
    var f := LeafFrame(LeafOf(mem, root, nodes, w), w);
    if w / HUGE == va / HUGE {
      SameLarge(mem, root, nodes, lapic, va, w);
    } else if LargeBase(d) <= f < LargeBase(d) + SLOTS {
      assert PageOwned(mem, root, nodes, pages, w);
      LargeFrameOwned(mem, root, nodes, pages, lapic, va, d, f);
      PageHuge(w);
    }
  }

  lemma {:induction false} UnmapLargeKeeps(mem: Memory, mem': Memory, root: nat, nodes: map<nat, Node>, free: set<nat>,
                                           pages: map<nat, nat>, held: set<nat>, all: set<nat>, lapic: nat, va: nat, d: nat, run: map<nat, nat>)
    requires Owned(mem, root, nodes, free, pages, held, all, lapic) && InUser(va, lapic) && Tree(mem', root, nodes)
    requires LeafOf(mem, root, nodes, va) == Big(d) && SetsPage(mem, mem', root, nodes, nodes, va, HUGE, NoLeaf) && IsRun(run, LargeBase(d), 0)
    ensures run.Keys <= pages.Keys && Owned(mem', root, nodes, free + run.Keys, pages - run.Keys, held, all, lapic)
  {
    forall f | f in run ensures f in pages {
      LargeFrameOwned(mem, root, nodes, pages, lapic, va, d, f);
    }
    UnmapLargeMatch(mem, mem', root, nodes, pages, lapic, va, d, run);
    MappedFreed(nodes, free, pages, held, all, pages - run.Keys, run.Keys);
  }

  lemma {:induction false} UnmapLargeMatch(mem: Memory, mem': Memory, root: nat, nodes: map<nat, Node>, pages: map<nat, nat>, lapic: nat, va: nat, d: nat, run: map<nat, nat>)
    requires Tree(mem, root, nodes) && Tree(mem', root, nodes) && PagesMatch(mem, root, nodes, pages, lapic) && InUser(va, lapic)
    requires LeafOf(mem, root, nodes, va) == Big(d) && SetsPage(mem, mem', root, nodes, nodes, va, HUGE, NoLeaf) && IsRun(run, LargeBase(d), 0)
    ensures PagesMatch(mem', root, nodes, pages - run.Keys, lapic)
  {
    var pages' := pages - run.Keys;
    forall w: nat | InUser(w, lapic) ensures PageOwned(mem', root, nodes, pages', w) {
      InUserIndices(w, lapic);
      assert PageOwned(mem, root, nodes, pages, w);
      if LeafOf(mem, root, nodes, w) != NoLeaf { LargeRunApart(mem, root, nodes, pages, lapic, va, d, w); }
    }
    forall f | f in pages' ensures FrameMapped(mem', root, nodes, pages', lapic, f) {
      assert FrameMapped(mem, root, nodes, pages, lapic, f);
      InUserIndices(pages[f] * PAGE, lapic);
      LargeRunApart(mem, root, nodes, pages, lapic, va, d, pages[f] * PAGE);
    }
  }
}
