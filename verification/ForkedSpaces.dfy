/** fork as a whole (process_fork): a new address space, the copy of the parent's user half, and the
    end of the new space when the copy fails. */
module ForkedSpaces {
  import opened Basics
  import opened FrameAllocation
  import opened PageTables
  import opened Paging
  import opened FrameLedger
  import opened Teardown
  import opened AddressSpaces
  import opened Forking
  import opened UserMemory

  // ---- the parent ----

  ghost predicate UserInside(src: nat, s: Life, lapic: nat, w: nat)
    requires Tree(s.mem, src, s.nodes)
  {
    UserPage(s.mem, src, s.nodes, w) ==> InUser(w, lapic)
  }

  /** An address space in use that shares the kernel's tables; its user pages are where user pages
      may be, and the kernel has no tables of its own above 1 GiB. */
  ghost predicate Parent(src: nat, s: Life, all: set<nat>, lapic: nat, kn: map<nat, Node>) {
    && LifeOwned(src, s, all, lapic) && |s.mem| == MAX_FRAMES
    && (forall f :: f in kn && Shared(kn[f]) ==> f in s.nodes && !UserLabel(kn[f]))
    && (forall w: nat :: w < TWO48 ==> UserInside(src, s, lapic, w))
  }

  /** Memory that was not free is as it was. */
  ghost predicate KeepsUsed(s: Life, mem: Memory) {
    MemOk(mem) && |mem| == |s.mem| && forall f :: 0 <= f < |mem| && f !in s.free ==> mem[f] == s.mem[f]
  }

  lemma {:induction false} ParentTree(src: nat, s: Life, all: set<nat>, lapic: nat, mem: Memory)
    requires LifeOwned(src, s, all, lapic) && KeepsUsed(s, mem)
    ensures Tree(mem, src, s.nodes) && SameLeaves(s.mem, mem, src, s.nodes, s.nodes)
    ensures forall w: nat :: UserPage(mem, src, s.nodes, w) == UserPage(s.mem, src, s.nodes, w) && UserFrame(mem, src, s.nodes, w) == UserFrame(s.mem, src, s.nodes, w)
  {
    TreeKept(s.mem, mem, src, s.nodes);
    forall w: nat ensures UserPage(mem, src, s.nodes, w) == UserPage(s.mem, src, s.nodes, w) && UserFrame(mem, src, s.nodes, w) == UserFrame(s.mem, src, s.nodes, w) {
      assert PdEntry(mem, src, s.nodes, w) == PdEntry(s.mem, src, s.nodes, w) && PtEntry(mem, src, s.nodes, w) == PtEntry(s.mem, src, s.nodes, w);
    }
  }

  /** The frame behind a user page is one the ledger says is mapped there. */
  lemma {:induction false} UserFrameOwned(src: nat, s: Life, all: set<nat>, lapic: nat, kn: map<nat, Node>, w: nat)
    requires Parent(src, s, all, lapic, kn) && w < TWO48 && UserPage(s.mem, src, s.nodes, w)
    ensures InUser(w, lapic) && LeafOf(s.mem, src, s.nodes, w) != NoLeaf
    ensures var r := UserFrame(s.mem, src, s.nodes, w);
            r == LeafFrame(LeafOf(s.mem, src, s.nodes, w), w) && r in s.pages && r in all && r < |s.mem| && r !in s.free && r !in s.nodes
  {
    assert UserInside(src, s, lapic, w);
    assert PageOwned(s.mem, src, s.nodes, s.pages, w);
  }

  // ---- the frames a fork takes ----

  ghost function PageTablesOf(pages: set<nat>): set<Node> { set n | n in pages :: LowestTable(n * PAGE) }

  ghost function DirectoriesOf(pages: set<nat>): set<Node> { set n | n in pages :: Pd(IdxA(n * PAGE), IdxB(n * PAGE)) }

  /** The frames for the parent's user pages below page `limit`: one for each, for each page table and
      for each page directory above them. */
  ghost function CopyCost(src: nat, s: Life, limit: nat): nat
    requires Tree(s.mem, src, s.nodes)
  {
    var pages := UserPages(s.mem, src, s.nodes, limit);
    |pages| + |PageTablesOf(pages)| + |DirectoriesOf(pages)|
  }

  function LapicCost(base: nat): nat { if base == 0 then 0 else 1 }

  /** The frames a fork takes: the root and its table, the directory for the local APIC, and the
      copy. Without user pages to copy, the directory is not missed. */
  ghost function ForkCost(src: nat, s: Life, base: nat): nat
    requires Tree(s.mem, src, s.nodes)
  {
    2 + if UserPages(s.mem, src, s.nodes, ALL_PAGES) == {} then 0 else LapicCost(base) + CopyCost(src, s, ALL_PAGES)
  }

  /** With n frames, the copy of page k can be taken and the tables above it cannot be made. */
  ghost predicate BreaksInside(src: nat, s: Life, n: nat, k: nat)
    requires Tree(s.mem, src, s.nodes)
  {
    CopyCost(src, s, k) < n < CopyCost(src, s, k + 1)
  }

  ghost predicate CopyBreaks(src: nat, s: Life, n: nat)
    requires Tree(s.mem, src, s.nodes)
  {
    exists k: nat :: k < ALL_PAGES && BreaksInside(src, s, n, k)
  }

  /** The frames that a new space leaves for the copy, out of n. */
  function LeftToCopy(n: nat, base: nat): nat { if n < 2 + LapicCost(base) then 0 else n - 2 - LapicCost(base) }

  /** The frames run out inside paging_map. */
  ghost predicate ForkLoses(src: nat, s: Life, base: nat)
    requires Tree(s.mem, src, s.nodes)
  {
    CopyBreaks(src, s, LeftToCopy(|s.free|, base))
  }

  lemma {:induction false} CostsOfFork(src: nat, s: Life, base: nat)
    requires Tree(s.mem, src, s.nodes)
    ensures var cost := CopyCost(src, s, ALL_PAGES); ForkCost(src, s, base) == 2 + if cost == 0 then 0 else LapicCost(base) + cost
  {
    var pages := UserPages(s.mem, src, s.nodes, ALL_PAGES);
    if pages == {} {
      assert PageTablesOf({}) == {} && DirectoriesOf({}) == {};
    } else {
      assert |pages| > 0;
    }
  }

  lemma {:induction false} CopyCostGrows(src: nat, s: Life, n: nat, limit: nat)
    requires Tree(s.mem, src, s.nodes) && n <= limit
    ensures CopyCost(src, s, n) <= CopyCost(src, s, limit)
  {
    var few, many := UserPages(s.mem, src, s.nodes, n), UserPages(s.mem, src, s.nodes, limit);
    forall k | k in few ensures k in many { }
    SubsetCount(few, many);
    SubsetCount(PageTablesOf(few), PageTablesOf(many));
    SubsetCount(DirectoriesOf(few), DirectoriesOf(many));
  }

  /** Whoever loses a frame fails. */
  lemma {:induction false} LosingFails(src: nat, s: Life, base: nat)
    requires Tree(s.mem, src, s.nodes) && ForkLoses(src, s, base)
    ensures |s.free| < ForkCost(src, s, base)
  {
    BrokenIsShort(src, s, LeftToCopy(|s.free|, base));
    CostsOfFork(src, s, base);
  }

  lemma {:induction false} BrokenIsShort(src: nat, s: Life, n: nat)
    requires Tree(s.mem, src, s.nodes) && CopyBreaks(src, s, n)
    ensures n < CopyCost(src, s, ALL_PAGES)
  {
    var k: nat :| k < ALL_PAGES && BreaksInside(src, s, n, k);
    CopyCostGrows(src, s, k + 1, ALL_PAGES);
  }

  /** Above user pages, a bare tree lacks just the page tables and the page directories. */
  lemma {:induction false} BareLacks(n0: map<nat, Node>, pages: set<nat>, lapic: nat)
    requires Bare(n0, lapic) && forall n :: n in pages ==> InUser(n * PAGE, lapic)
    ensures TablesAbove(pages) - n0.Values == PageTablesOf(pages) + DirectoriesOf(pages)
  {
    forall l | l in TablesAbove(pages) && l !in n0.Values ensures l in PageTablesOf(pages) + DirectoriesOf(pages) {
      var n :| n in pages && l in TablesFor(n * PAGE);
      InUserIndices(n * PAGE, lapic);
    }
    forall l | l in PageTablesOf(pages) + DirectoriesOf(pages) ensures l in TablesAbove(pages) && l !in n0.Values {
      var n :| n in pages && (l == LowestTable(n * PAGE) || l == Pd(IdxA(n * PAGE), IdxB(n * PAGE)));
      InUserIndices(n * PAGE, lapic);
      assert l in TablesFor(n * PAGE);
      assert Private(l) && l != Root && l != Pdpt(0) && !LapicTable(l, lapic);
    }
  }

  lemma {:induction false} TableCount(pages: set<nat>)
    ensures |PageTablesOf(pages) + DirectoriesOf(pages)| == |PageTablesOf(pages)| + |DirectoriesOf(pages)|
  {
    assert PageTablesOf(pages) !! DirectoriesOf(pages);
  }

  lemma {:induction false} SamePages(src: nat, s: Life, all: set<nat>, lapic: nat, mem: Memory, limit: nat)
    requires LifeOwned(src, s, all, lapic) && KeepsUsed(s, mem) && Tree(mem, src, s.nodes)
    ensures UserPages(mem, src, s.nodes, limit) == UserPages(s.mem, src, s.nodes, limit)
  {
    ParentTree(src, s, all, lapic, mem);
  }

  lemma {:induction false} PagesInside(src: nat, s: Life, all: set<nat>, lapic: nat, kn: map<nat, Node>, limit: nat, n: nat)
    requires Parent(src, s, all, lapic, kn) && limit <= ALL_PAGES && n in UserPages(s.mem, src, s.nodes, limit)
    ensures InUser(n * PAGE, lapic)
  {
    assert UserInside(src, s, lapic, n * PAGE);
  }

  /** What the clone takes is what the parent's pages cost. */
  lemma {:induction false} CloneCost(src: nat, s: Life, all: set<nat>, lapic: nat, kn: map<nat, Node>, c: Fork, limit: nat)
    requires Parent(src, s, all, lapic, kn) && KeepsUsed(s, c.m0) && Bare(c.n0, lapic) && c.src == src && c.sn == s.nodes && limit <= ALL_PAGES
    ensures Tree(c.m0, c.src, c.sn) && FramesFor(c, limit) == CopyCost(src, s, limit)
  {
    ParentTree(src, s, all, lapic, c.m0);
    SamePages(src, s, all, lapic, c.m0, limit);
    var pages := UserPages(s.mem, src, s.nodes, limit);
    forall n | n in pages ensures InUser(n * PAGE, lapic) { PagesInside(src, s, all, lapic, kn, limit, n); }
    BareLacks(c.n0, pages, lapic);
    TableCount(pages);
  }

  lemma {:induction false} CloneLoses(src: nat, s: Life, all: set<nat>, lapic: nat, kn: map<nat, Node>, c: Fork)
    requires Parent(src, s, all, lapic, kn) && KeepsUsed(s, c.m0) && Bare(c.n0, lapic) && c.src == src && c.sn == s.nodes
    ensures Tree(c.m0, c.src, c.sn) && (LosesCopy(c) <==> CopyBreaks(src, s, |c.free0|))
  {
    ParentTree(src, s, all, lapic, c.m0);
    forall k: nat | k < ALL_PAGES ensures BreaksAt(c, k) <==> BreaksInside(src, s, |c.free0|, k) {
      CloneCost(src, s, all, lapic, kn, c, k);
      CloneCost(src, s, all, lapic, kn, c, k + 1);
    }
    assert LosesCopy(c) ==> CopyBreaks(src, s, |c.free0|) by {
      if LosesCopy(c) {
        var k: nat :| k < ALL_PAGES && BreaksAt(c, k);
        assert BreaksInside(src, s, |c.free0|, k);
      }
    }
    assert CopyBreaks(src, s, |c.free0|) ==> LosesCopy(c) by {
      if CopyBreaks(src, s, |c.free0|) {
        var k: nat :| k < ALL_PAGES && BreaksInside(src, s, |c.free0|, k);
        assert BreaksAt(c, k);
      }
    }
  }

  // ---- the start of the copy ----

  /** What the fresh space is: nothing mapped, made of free frames. */
  ghost predicate Fresh(src: nat, s: Life, lapic: nat, kn: map<nat, Node>, mem: Memory, dst: nat, n0: map<nat, Node>, free: set<nat>) {
    KeepsUsed(s, mem) && OnlyNew(s.mem, mem, s.free, kn, n0) && Owned(mem, dst, n0, free, map[], {}, s.free, lapic)
  }

  /** A table of the fresh space is a frame that was free, or one of the kernel's. */
  lemma {:induction false} FreshTable(src: nat, s: Life, all: set<nat>, lapic: nat, kn: map<nat, Node>, mem: Memory, dst: nat, n0: map<nat, Node>, free: set<nat>, f: nat)
    requires Parent(src, s, all, lapic, kn) && Fresh(src, s, lapic, kn, mem, dst, n0, free) && f in n0
    ensures f !in free && (f in s.free || (f in s.nodes && !UserLabel(n0[f])))
  {
    if Private(n0[f]) { assert PrivateTable(n0, f); }
  }

  lemma {:induction false} SourceReady(src: nat, s: Life, all: set<nat>, lapic: nat, kn: map<nat, Node>, mem: Memory, dst: nat, n0: map<nat, Node>, free: set<nat>, w: nat)
    requires Parent(src, s, all, lapic, kn) && Fresh(src, s, lapic, kn, mem, dst, n0, free) && w < TWO48 && Tree(mem, src, s.nodes)
    ensures SourceOk(Fork(mem, src, s.nodes, dst, n0, free), w)
  {
    ParentTree(src, s, all, lapic, mem);
    if UserPage(mem, src, s.nodes, w) {
      UserFrameOwned(src, s, all, lapic, kn, w);
      var r := UserFrame(s.mem, src, s.nodes, w);
      if r in n0 { FreshTable(src, s, all, lapic, kn, mem, dst, n0, free, r); }
      assert PageOwned(mem, dst, n0, map[], w);
      assert r !in free;
    }
  }

  /** So a fork can start. */
  lemma {:induction false} ForkStarts(src: nat, s: Life, all: set<nat>, lapic: nat, kn: map<nat, Node>, mem: Memory, dst: nat, n0: map<nat, Node>, free: set<nat>)
    requires Parent(src, s, all, lapic, kn) && Fresh(src, s, lapic, kn, mem, dst, n0, free)
    ensures Start(Fork(mem, src, s.nodes, dst, n0, free))
  {
    var c := Fork(mem, src, s.nodes, dst, n0, free);
    ParentTree(src, s, all, lapic, mem);
    forall w: nat | w < TWO48 ensures SourceOk(c, w) { SourceReady(src, s, all, lapic, kn, mem, dst, n0, free, w); }
    forall f | f in n0 ensures f !in free && (UserLabel(n0[f]) ==> f !in s.nodes) { FreshTable(src, s, all, lapic, kn, mem, dst, n0, free, f); }
    forall f | f in s.nodes ensures f !in free { assert f in free ==> f in s.free; }
  }

  // ---- the ledger of the child ----

  /** All user pages of the parent lie where user pages may be. */
  ghost predicate Inside(c: Fork, lapic: nat)
    requires Tree(c.m0, c.src, c.sn)
  {
    forall w: nat :: w < TWO48 && UserPage(c.m0, c.src, c.sn, w) ==> InUser(w, lapic)
  }

  /** The state of a copy, complete or not: `lost` was taken and not mapped. */
  ghost predicate Copying(c: Fork, mem: Memory, nodes: map<nat, Node>, free: set<nat>, owner: map<nat, nat>, limit: nat, lost: nat) {
    && Start(c) && Accounts(c, mem, nodes, free, owner) && Copied(c, mem, nodes, owner, limit) && InPlace(c, mem, nodes, owner, limit, lost)
    && (lost in owner ==> owner[lost] == limit)
  }

  /** The child as an address space in use, the lost frame held by nobody else. */
  function ChildOf(mem: Memory, nodes: map<nat, Node>, free: set<nat>, owner: map<nat, nat>, lost: nat): Life {
    Life(mem, nodes, free, owner - {lost}, if lost in owner then {lost} else {})
  }

  lemma {:induction false} NewTablePrivate(c: Fork, mem: Memory, nodes: map<nat, Node>, free: set<nat>, owner: map<nat, nat>, lapic: nat, f: nat)
    requires Tree(c.m0, c.src, c.sn) && Accounts(c, mem, nodes, free, owner) && Inside(c, lapic) && f in nodes && f !in c.n0
    ensures f in c.free0 && Private(nodes[f]) && !(nodes[f].Pt? && nodes[f].b == lapic) && !LapicTable(nodes[f], lapic)
  {
    assert OnUserPath(c, nodes[f]);
    var w: nat :| w < TWO48 && UserPage(c.m0, c.src, c.sn, w) && OnPath(nodes[f], w);
    PathIsPrivate(nodes[f], w, lapic);
    InUserIndices(w, lapic);
  }

  /** The clone makes no directory for the local APIC. */
  lemma {:induction false} SameLapicTable(c: Fork, mem: Memory, nodes: map<nat, Node>, free: set<nat>, owner: map<nat, nat>, lapic: nat)
    requires Tree(c.m0, c.src, c.sn) && Accounts(c, mem, nodes, free, owner) && Inside(c, lapic)
    ensures HasLapicTable(nodes, lapic) <==> HasLapicTable(c.n0, lapic)
  {
    forall f | f in nodes && LapicTable(nodes[f], lapic) ensures f in c.n0 && c.n0[f] == nodes[f] {
      if f !in c.n0 { NewTablePrivate(c, mem, nodes, free, owner, lapic, f); }
    }
    forall f | f in c.n0 ensures f in nodes && nodes[f] == c.n0[f] { }
    SameLabel(c.n0, nodes, lapic);
  }

  lemma {:induction false} SameLabel(n0: map<nat, Node>, nodes: map<nat, Node>, lapic: nat)
    requires forall f :: f in n0 ==> f in nodes && nodes[f] == n0[f]
    requires forall f :: f in nodes && LapicTable(nodes[f], lapic) ==> f in n0 && n0[f] == nodes[f]
    ensures HasLapicTable(nodes, lapic) <==> HasLapicTable(n0, lapic)
  {
    forall f | f in nodes && LapicTable(nodes[f], lapic) ensures Pd(0, lapic) in n0.Values { assert n0[f] in n0.Values; }
    forall f | f in n0 && LapicTable(n0[f], lapic) ensures Pd(0, lapic) in nodes.Values { assert nodes[f] in nodes.Values; }
  }

  lemma {:induction false} ChildDivided(c: Fork, mem: Memory, nodes: map<nat, Node>, free: set<nat>, owner: map<nat, nat>, lost: nat, all: set<nat>, lapic: nat)
    requires Tree(c.m0, c.src, c.sn) && Accounts(c, mem, nodes, free, owner) && Inside(c, lapic)
    requires Divided(c.n0, c.free0, map[], {}, all) && LapicAlone(c.n0, lapic)
    ensures var t := ChildOf(mem, nodes, free, owner, lost); Divided(nodes, free, t.pages, t.held, all) && LapicAlone(nodes, lapic)
  {
    var t := ChildOf(mem, nodes, free, owner, lost);
    forall f | f in nodes && f !in c.n0 ensures f in c.free0 && Private(nodes[f]) && !(nodes[f].Pt? && nodes[f].b == lapic) {
      NewTablePrivate(c, mem, nodes, free, owner, lapic, f);
    }
    forall f ensures f in all <==> f in free || f in t.pages || f in t.held || PrivateTable(nodes, f) {
      assert f in t.pages || f in t.held <==> f in owner;
      assert f in all <==> f in c.free0 || PrivateTable(c.n0, f);
    }
  }

  lemma {:induction false} ChildPageOwned(c: Fork, mem: Memory, nodes: map<nat, Node>, free: set<nat>, owner: map<nat, nat>, limit: nat, lost: nat, lapic: nat, w: nat)
    requires Copying(c, mem, nodes, free, owner, limit, lost) && InUser(w, lapic) && PageOwned(c.m0, c.dst, c.n0, map[], w)
    ensures PageOwned(mem, c.dst, nodes, owner - {lost}, w)
  {
    InUserIndices(w, lapic);
    assert CopyAt(c, mem, nodes, owner, limit, w);
  }

  lemma {:induction false} ChildFrameMapped(c: Fork, mem: Memory, nodes: map<nat, Node>, free: set<nat>, owner: map<nat, nat>, limit: nat, lost: nat, lapic: nat, g: nat)
    requires Copying(c, mem, nodes, free, owner, limit, lost) && Inside(c, lapic) && g in owner && g != lost
    ensures FrameMapped(mem, c.dst, nodes, owner - {lost}, lapic, g)
  {
    assert PlacedAt(c, mem, nodes, owner, limit, g);
    CopyMapped(mem, c.dst, nodes, owner - {lost}, lapic, g, owner[g] * PAGE);
  }

  lemma {:induction false} CopyMapped(mem: Memory, root: nat, nodes: map<nat, Node>, pages: map<nat, nat>, lapic: nat, g: nat, w: nat)
    requires Tree(mem, root, nodes) && g in pages && w == pages[g] * PAGE && InUser(w, lapic) && LeafOf(mem, root, nodes, w) == Small(CopyEntry(g))
    ensures FrameMapped(mem, root, nodes, pages, lapic, g)
  {
    CopyEntryFacts(g);
  }

  /** Complete or not, the copy leaves the child with every frame accounted for. */
  lemma {:induction false} ChildOwned(c: Fork, mem: Memory, nodes: map<nat, Node>, free: set<nat>, owner: map<nat, nat>, limit: nat, lost: nat, all: set<nat>, lapic: nat)
    requires Copying(c, mem, nodes, free, owner, limit, lost) && Inside(c, lapic) && Owned(c.m0, c.dst, c.n0, c.free0, map[], {}, all, lapic)
    ensures LifeOwned(c.dst, ChildOf(mem, nodes, free, owner, lost), all, lapic)
  {
    ChildDivided(c, mem, nodes, free, owner, lost, all, lapic);
    var pages := owner - {lost};
    forall w: nat | InUser(w, lapic) ensures PageOwned(mem, c.dst, nodes, pages, w) {
      assert PageOwned(c.m0, c.dst, c.n0, map[], w);
      ChildPageOwned(c, mem, nodes, free, owner, limit, lost, lapic, w);
    }
    forall g | g in pages ensures FrameMapped(mem, c.dst, nodes, pages, lapic, g) {
      ChildFrameMapped(c, mem, nodes, free, owner, limit, lost, lapic, g);
    }
  }

  // ---- what the two processes see ----

  /** The child sees the parent's user pages and nothing else. */
  ghost predicate CopyByte(src: nat, s: Life, dst: nat, t: Life, w: nat)
    requires Tree(s.mem, src, s.nodes)
  {
    At(dst, t, w) == if UserPage(s.mem, src, s.nodes, w) then At(src, s, w) else Absent
  }

  lemma {:induction false} ByteAt(root: nat, t: Life, w: nat, f: nat)
    requires Tree(t.mem, root, t.nodes) && LeafOf(t.mem, root, t.nodes, w) != NoLeaf && LeafFrame(LeafOf(t.mem, root, t.nodes, w), w) == f
    requires f < |t.mem| && |t.mem[f]| == PAGE
    ensures At(root, t, w) == Byte(t.mem[f][w % PAGE])
  {
  }

  lemma {:induction false} CopySeen(c: Fork, mem: Memory, nodes: map<nat, Node>, free: set<nat>, owner: map<nat, nat>, w: nat, r: nat)
    requires Cloned(c, mem, nodes, free, owner) && Behind(c, w, r) && MemOk(mem)
    ensures r < |c.m0| && |c.m0[r]| == PAGE && At(c.dst, ChildOf(mem, nodes, free, owner, 0), w) == Byte(c.m0[r][w % PAGE])
  {
    var f := CopyOf(c, mem, nodes, free, owner, w, r);
    CopyEntryFacts(f);
    ByteAt(c.dst, ChildOf(mem, nodes, free, owner, 0), w, f);
  }

  lemma {:induction false} NothingSeen(c: Fork, mem: Memory, nodes: map<nat, Node>, free: set<nat>, owner: map<nat, nat>, w: nat)
    requires Cloned(c, mem, nodes, free, owner) && w < TWO48 && !UserPage(c.m0, c.src, c.sn, w) && PageOwned(c.m0, c.dst, c.n0, map[], w)
    ensures At(c.dst, ChildOf(mem, nodes, free, owner, 0), w) == Absent
  {
    assert CopyAt(c, mem, nodes, owner, ALL_PAGES, w);
  }

  lemma {:induction false} ChildSees(src: nat, s: Life, all: set<nat>, lapic: nat, kn: map<nat, Node>, c: Fork, mem: Memory, nodes: map<nat, Node>, free: set<nat>, owner: map<nat, nat>, w: nat)
    requires Parent(src, s, all, lapic, kn) && Fresh(src, s, lapic, kn, c.m0, c.dst, c.n0, c.free0) && c.src == src && c.sn == s.nodes
    requires Cloned(c, mem, nodes, free, owner) && InUser(w, lapic) && MemOk(mem)
    ensures CopyByte(src, s, c.dst, ChildOf(mem, nodes, free, owner, 0), w)
  {
    InUserIndices(w, lapic);
    ParentTree(src, s, all, lapic, c.m0);
    if UserPage(s.mem, src, s.nodes, w) {
      UserFrameOwned(src, s, all, lapic, kn, w);
      var r := UserFrame(s.mem, src, s.nodes, w);
      CopySeen(c, mem, nodes, free, owner, w, r);
      ByteAt(src, s, w, r);
    } else {
      assert PageOwned(c.m0, c.dst, c.n0, map[], w);
      NothingSeen(c, mem, nodes, free, owner, w);
    }
  }

  /** The fresh space is made of frames of the parent's machine that were free. */
  ghost predicate Apart(s: Life, c: Fork) {
    KeepsUsed(s, c.m0) && (forall f :: f in c.free0 ==> f in s.free) && (forall f :: f in c.n0 && UserLabel(c.n0[f]) ==> f in s.free)
  }

  lemma {:induction false} FreshApart(src: nat, s: Life, all: set<nat>, lapic: nat, kn: map<nat, Node>, c: Fork)
    requires Parent(src, s, all, lapic, kn) && Fresh(src, s, lapic, kn, c.m0, c.dst, c.n0, c.free0)
    ensures Apart(s, c)
  {
    forall f | f in c.n0 && UserLabel(c.n0[f]) ensures f in s.free { FreshTable(src, s, all, lapic, kn, c.m0, c.dst, c.n0, c.free0, f); }
  }

  /** What a copy, complete or not, leaves of the memory in use. */
  lemma {:induction false} CopyKeepsUsed(s: Life, c: Fork, mem: Memory, nodes: map<nat, Node>, free: set<nat>, owner: map<nat, nat>)
    requires Apart(s, c) && Tree(c.m0, c.src, c.sn) && Accounts(c, mem, nodes, free, owner) && MemOk(mem)
    ensures KeepsUsed(s, mem)
  {
    forall f | 0 <= f < |mem| && f !in s.free ensures mem[f] == s.mem[f] {
      assert f in nodes && f !in c.n0 ==> f in c.free0;
      assert f in owner ==> f in c.free0;
      assert mem[f] == c.m0[f];
    }
  }

  lemma {:induction false} EitherKeepsUsed(s: Life, c: Fork, mem: Memory, nodes: map<nat, Node>, free: set<nat>, owner: map<nat, nat>, limit: nat, lost: nat)
    requires Apart(s, c) && MemOk(mem) && (Cloned(c, mem, nodes, free, owner) || Failed(c, mem, nodes, free, owner, limit, lost))
    ensures KeepsUsed(s, mem)
  {
    CopyKeepsUsed(s, c, mem, nodes, free, owner);
  }

  /** The parent after a fork: the same bytes, and a ledger without the frames the child took. */
  ghost predicate ParentAfter(src: nat, s: Life, all: set<nat>, lapic: nat, mem: Memory, free: set<nat>) {
    var s' := s.(mem := mem, free := free);
    && LifeOwned(src, s', all - (s.free - free), lapic)
    && forall w: nat :: InUser(w, lapic) ==> At(src, s', w) == At(src, s, w)
  }

  lemma {:induction false} ParentLives(src: nat, s: Life, all: set<nat>, lapic: nat, mem: Memory, free: set<nat>)
    requires LifeOwned(src, s, all, lapic) && |s.mem| == MAX_FRAMES && KeepsUsed(s, mem) && free <= s.free
    ensures ParentAfter(src, s, all, lapic, mem, free)
  {
    ParentTree(src, s, all, lapic, mem);
    var s' := s.(mem := mem, free := free);
    ParentMatch(src, s, all, lapic, mem);
    ParentDivided(s, all, free);
    forall w: nat | InUser(w, lapic) ensures At(src, s', w) == At(src, s, w) {
      AtPage(src, s, all, lapic, w);
      assert LeafOf(mem, src, s.nodes, w) == LeafOf(s.mem, src, s.nodes, w);
    }
  }

  lemma {:induction false} ParentMatch(src: nat, s: Life, all: set<nat>, lapic: nat, mem: Memory)
    requires LifeOwned(src, s, all, lapic) && Tree(mem, src, s.nodes) && SameLeaves(s.mem, mem, src, s.nodes, s.nodes)
    ensures PagesMatch(mem, src, s.nodes, s.pages, lapic)
  {
    forall w: nat | InUser(w, lapic) ensures PageOwned(mem, src, s.nodes, s.pages, w) {
      assert PageOwned(s.mem, src, s.nodes, s.pages, w) && LeafOf(mem, src, s.nodes, w) == LeafOf(s.mem, src, s.nodes, w);
    }
    forall g | g in s.pages ensures FrameMapped(mem, src, s.nodes, s.pages, lapic, g) {
      assert FrameMapped(s.mem, src, s.nodes, s.pages, lapic, g);
      assert LeafOf(mem, src, s.nodes, s.pages[g] * PAGE) == LeafOf(s.mem, src, s.nodes, s.pages[g] * PAGE);
    }
  }

  lemma {:induction false} ParentDivided(s: Life, all: set<nat>, free: set<nat>)
    requires Divided(s.nodes, s.free, s.pages, s.held, all) && free <= s.free
    ensures Divided(s.nodes, free, s.pages, s.held, all - (s.free - free))
  {
    forall f ensures f in all - (s.free - free) <==> f in free || f in s.pages || f in s.held || PrivateTable(s.nodes, f) {
      assert f in all <==> f in s.free || f in s.pages || f in s.held || PrivateTable(s.nodes, f);
    }
  }

  // ---- process_fork ----

  lemma {:induction false} ForkInside(src: nat, s: Life, all: set<nat>, lapic: nat, kn: map<nat, Node>, c: Fork)
    requires Parent(src, s, all, lapic, kn) && KeepsUsed(s, c.m0) && c.src == src && c.sn == s.nodes
    ensures Tree(c.m0, c.src, c.sn) && Inside(c, lapic)
  {
    ParentTree(src, s, all, lapic, c.m0);
    forall w: nat | w < TWO48 && UserPage(c.m0, c.src, c.sn, w) ensures InUser(w, lapic) { assert UserInside(src, s, lapic, w); }
  }

  /** The child of a complete copy. */
  ghost predicate Child(src: nat, s: Life, dst: nat, t: Life, pdpt: nat, lapic: nat)
    requires Tree(s.mem, src, s.nodes)
  {
    && LifeGood(dst, t, s.free, lapic, pdpt) && t.held == {}
    && forall w: nat :: InUser(w, lapic) ==> CopyByte(src, s, dst, t, w)
  }

  lemma {:induction false} ChildComplete(src: nat, s: Life, all: set<nat>, lapic: nat, kn: map<nat, Node>, c: Fork, mem: Memory, nodes: map<nat, Node>, free: set<nat>, owner: map<nat, nat>, pdpt: nat)
    requires Parent(src, s, all, lapic, kn) && Fresh(src, s, lapic, kn, c.m0, c.dst, c.n0, c.free0) && c.src == src && c.sn == s.nodes
    requires Cloned(c, mem, nodes, free, owner) && MemOk(mem) && 0 !in c.free0 && Upper(c.m0, c.dst, c.n0, pdpt)
    ensures Child(src, s, c.dst, ChildOf(mem, nodes, free, owner, 0), pdpt, lapic)
  {
    ForkInside(src, s, all, lapic, kn, c);
    assert 0 !in owner;
    ChildOwned(c, mem, nodes, free, owner, ALL_PAGES, 0, s.free, lapic);
    assert pdpt in nodes;
    forall w: nat | InUser(w, lapic) ensures CopyByte(src, s, c.dst, ChildOf(mem, nodes, free, owner, 0), w) {
      ChildSees(src, s, all, lapic, kn, c, mem, nodes, free, owner, w);
    }
  }

  /** Exactly the frames `lost` and `dir`, 0 for none, are missing from `free`. */
  ghost predicate AllBut(before: set<nat>, free: set<nat>, lost: nat, dir: nat) {
    && free == before - {lost, dir} && 0 !in before
    && (lost != 0 ==> lost in before && lost != dir) && (dir != 0 ==> dir in before)
  }

  lemma {:induction false} HeldIsLost(before: set<nat>, free: set<nat>, held: set<nat>, lost: nat, dir: nat)
    requires BackBut(before, free, held, dir) && held == (if lost != 0 then {lost} else {}) && held <= before && 0 !in before
    ensures AllBut(before, free, lost, dir)
  {
  }

  lemma {:induction false} NothingLost(before: set<nat>)
    requires 0 !in before
    ensures AllBut(before, before, 0, 0)
  {
  }

  /** process_destroy of a child whose copy has failed. */
  method EndChild(m: Machine, dst: nat, ghost c: Fork, ghost nodes: map<nat, Node>, ghost owner: map<nat, nat>, ghost limit: nat, ghost lost: nat, ghost pdpt: nat, ghost before: set<nat>, ghost lapic: nat)
    returns (ghost dir: nat)
    requires m.Valid() && lapic == m.lapicBase / GIB && m.lapicBase < TWO39 && dst == c.dst && dst != 0 && dst != m.kernelRoot && 0 !in before
    requires Failed(c, m.mem, nodes, m.pmm.free, owner, limit, lost) && Inside(c, lapic)
    requires Owned(c.m0, dst, c.n0, c.free0, map[], {}, before, lapic) && Upper(c.m0, dst, c.n0, pdpt)
    modifies m.pmm, m.pmm.bitmap
    ensures m.Valid() && AllBut(before, m.pmm.free, lost, dir) && (dir != 0 <==> HasLapicTable(c.n0, lapic))
  {
    ghost var free0 := m.pmm.free;
    ghost var t := ChildOf(m.mem, nodes, free0, owner, lost);
    FailedChild(c, m.mem, nodes, free0, owner, limit, lost, pdpt, before, lapic);
    FreeAddressSpace(m, dst, nodes, pdpt, t.pages, t.held, before);
    dir := SkippedTable(m.mem, dst, nodes, lapic, t.pages, t.held, free0, before, m.pmm.free);
    HeldIsLost(before, m.pmm.free, t.held, lost, dir);
  }

  lemma {:induction false} FailedChild(c: Fork, mem: Memory, nodes: map<nat, Node>, free: set<nat>, owner: map<nat, nat>, limit: nat, lost: nat, pdpt: nat, before: set<nat>, lapic: nat)
    requires Failed(c, mem, nodes, free, owner, limit, lost) && Inside(c, lapic)
    requires Owned(c.m0, c.dst, c.n0, c.free0, map[], {}, before, lapic) && Upper(c.m0, c.dst, c.n0, pdpt)
    ensures var t := ChildOf(mem, nodes, free, owner, lost);
            && LifeOwned(c.dst, t, before, lapic) && Upper(mem, c.dst, nodes, pdpt)
            && t.held == (if lost != 0 then {lost} else {}) && t.held <= before
    ensures HasLapicTable(nodes, lapic) <==> HasLapicTable(c.n0, lapic)
  {
    ChildOwned(c, mem, nodes, free, owner, limit, lost, before, lapic);
    SameLapicTable(c, mem, nodes, free, owner, lapic);
    assert pdpt in nodes;
  }

  /** A fork that can start, as far as the copy is concerned. */
  ghost predicate Poised(s: Life, c: Fork, pdpt: nat, lapic: nat) {
    && Start(c) && Inside(c, lapic) && Apart(s, c) && 0 !in s.free
    && Owned(c.m0, c.dst, c.n0, c.free0, map[], {}, s.free, lapic) && pdpt in c.n0 && c.n0[pdpt] == Pdpt(0)
  }

  lemma {:induction false} ForkPoised(src: nat, s: Life, all: set<nat>, lapic: nat, kn: map<nat, Node>, c: Fork, pdpt: nat)
    requires Parent(src, s, all, lapic, kn) && Fresh(src, s, lapic, kn, c.m0, c.dst, c.n0, c.free0) && c.src == src && c.sn == s.nodes
    requires pdpt in c.n0 && c.n0[pdpt] == Pdpt(0) && 0 !in s.free
    ensures Poised(s, c, pdpt, lapic)
  {
    ForkStarts(src, s, all, lapic, kn, c.m0, c.dst, c.n0, c.free0);
    ForkInside(src, s, all, lapic, kn, c);
    FreshApart(src, s, all, lapic, kn, c);
  }

  /** The copy into the fresh space. */
  method CopyInto(m: Machine, src: nat, dst: nat, ghost c: Fork, ghost s: Life)
    returns (ok: bool, ghost nodes: map<nat, Node>, ghost owner: map<nat, nat>, ghost limit: nat, ghost lost: nat)
    requires m.Valid() && Start(c) && c == Fork(m.mem, src, c.sn, dst, c.n0, m.pmm.free) && Apart(s, c)
    modifies m`mem, m.pmm, m.pmm.bitmap
    ensures m.Valid() && KeepsUsed(s, m.mem)
    ensures ok ==> Cloned(c, m.mem, nodes, m.pmm.free, owner) && |m.pmm.free| == |c.free0| - FramesFor(c, ALL_PAGES)
    ensures !ok ==> Failed(c, m.mem, nodes, m.pmm.free, owner, limit, lost) && (lost != 0 <==> LosesCopy(c))
    ensures ok <==> FramesFor(c, ALL_PAGES) <= |c.free0|
  {
    ok, nodes, owner, limit, lost := CloneFrom(m, src, dst, c);
    EitherKeepsUsed(s, c, m.mem, nodes, m.pmm.free, owner, limit, lost);
  }

  /** The copy into the fresh space, and its end if the copy fails. */
  method CopyOrEnd(m: Machine, src: nat, dst: nat, ghost c: Fork, ghost pdpt: nat, ghost s: Life, ghost lapic: nat)
    returns (ok: bool, ghost nodes: map<nat, Node>, ghost owner: map<nat, nat>, ghost free: set<nat>, ghost lost: nat, ghost dir: nat)
    requires m.Valid() && lapic == m.lapicBase / GIB && m.lapicBase < TWO39 && dst != 0 && dst != m.kernelRoot
    requires c == Fork(m.mem, src, c.sn, dst, c.n0, m.pmm.free) && Poised(s, c, pdpt, lapic)
    modifies m`mem, m.pmm, m.pmm.bitmap
    ensures m.Valid() && KeepsUsed(s, m.mem)
    ensures ok ==> Progress(c, m.mem, nodes, free, owner, ALL_PAGES) && m.pmm.free == free && |free| == |c.free0| - FramesFor(c, ALL_PAGES)
    ensures !ok ==> AllBut(s.free, m.pmm.free, lost, dir) && (dir != 0 <==> HasLapicTable(c.n0, lapic)) && (lost != 0 <==> LosesCopy(c))
    ensures ok <==> FramesFor(c, ALL_PAGES) <= |c.free0|
  {
    ghost var limit;
    ok, nodes, owner, limit, lost := CopyInto(m, src, dst, c, s);
    free := m.pmm.free;
    dir := EndUnless(m, ok, dst, c, nodes, owner, limit, lost, pdpt, s, lapic);
  }

  /** process_destroy of the child, unless its copy is complete. */
  method EndUnless(m: Machine, ok: bool, dst: nat, ghost c: Fork, ghost nodes: map<nat, Node>, ghost owner: map<nat, nat>, ghost limit: nat, ghost lost: nat, ghost pdpt: nat, ghost s: Life, ghost lapic: nat)
    returns (ghost dir: nat)
    requires m.Valid() && lapic == m.lapicBase / GIB && m.lapicBase < TWO39 && dst == c.dst && dst != 0 && dst != m.kernelRoot
    requires ok || (Poised(s, c, pdpt, lapic) && Failed(c, m.mem, nodes, m.pmm.free, owner, limit, lost))
    modifies m.pmm, m.pmm.bitmap
    ensures m.Valid() && (ok ==> m.pmm.free == old(m.pmm.free))
    ensures !ok ==> AllBut(s.free, m.pmm.free, lost, dir) && (dir != 0 <==> HasLapicTable(c.n0, lapic))
  {
    dir := 0;
    if !ok { dir := EndChild(m, dst, c, nodes, owner, limit, lost, pdpt, s.free, lapic); }
  }

  /** With n frames the copy succeeds if they are enough, and loses a frame if they break it inside. */
  ghost predicate CopyResult(src: nat, s: Life, n: nat, ok: bool, lost: nat)
    requires Tree(s.mem, src, s.nodes)
  {
    (ok <==> CopyCost(src, s, ALL_PAGES) <= n) && (!ok ==> (lost != 0 <==> CopyBreaks(src, s, n)))
  }

  lemma {:induction false} CloneResult(src: nat, s: Life, all: set<nat>, lapic: nat, kn: map<nat, Node>, c: Fork, ok: bool, lost: nat)
    requires Parent(src, s, all, lapic, kn) && KeepsUsed(s, c.m0) && Bare(c.n0, lapic) && c.src == src && c.sn == s.nodes && Tree(c.m0, c.src, c.sn)
    requires (ok <==> FramesFor(c, ALL_PAGES) <= |c.free0|) && (!ok ==> (lost != 0 <==> LosesCopy(c)))
    ensures CopyResult(src, s, |c.free0|, ok, lost) && FramesFor(c, ALL_PAGES) == CopyCost(src, s, ALL_PAGES)
  {
    CloneCost(src, s, all, lapic, kn, c, ALL_PAGES);
    CloneLoses(src, s, all, lapic, kn, c);
  }

  /** How the frames left after the new space compare with what fork needs. */
  lemma {:induction false} EnoughLeft(src: nat, s: Life, base: nat, left: nat)
    requires Tree(s.mem, src, s.nodes) && |s.free| >= 2 && left == |s.free| - NewCost(|s.free|, base)
    ensures CopyCost(src, s, ALL_PAGES) <= left <==> ForkCost(src, s, base) <= |s.free|
  {
    CostsOfFork(src, s, base);
    LeftIs(|s.free|, base, left);
  }

  lemma {:induction false} BreaksLeft(src: nat, s: Life, base: nat, left: nat)
    requires Tree(s.mem, src, s.nodes) && |s.free| >= 2 && left == |s.free| - NewCost(|s.free|, base)
    ensures CopyBreaks(src, s, left) <==> ForkLoses(src, s, base)
  {
    LeftIs(|s.free|, base, left);
  }

  lemma {:induction false} LeftIs(n: nat, base: nat, left: nat)
    requires n >= 2 && left == n - NewCost(n, base)
    ensures left == LeftToCopy(n, base)
  {
  }

  lemma {:induction false} NoFrameNoBreak(src: nat, s: Life)
    requires Tree(s.mem, src, s.nodes)
    ensures !CopyBreaks(src, s, 0)
  {
    forall k: nat ensures !BreaksInside(src, s, 0, k) { }
  }

  /** The result of a fork in terms of the frames there were. */
  ghost predicate ForkResult(src: nat, s: Life, base: nat, ok: bool, lost: nat)
    requires Tree(s.mem, src, s.nodes)
  {
    (ok <==> ForkCost(src, s, base) <= |s.free|) && (!ok ==> (lost != 0 <==> ForkLoses(src, s, base)))
  }

  lemma {:induction false} ResultFollows(src: nat, s: Life, base: nat, left: nat, ok: bool, lost: nat)
    requires Tree(s.mem, src, s.nodes) && left == |s.free| - NewCost(|s.free|, base)
    requires if |s.free| >= 2 then CopyResult(src, s, left, ok, lost) else !ok && lost == 0
    ensures ForkResult(src, s, base, ok, lost)
  {
    if |s.free| >= 2 {
      EnoughLeft(src, s, base, left);
      BreaksLeft(src, s, base, left);
    } else {
      NoFrameNoBreak(src, s);
    }
  }

  lemma {:induction false} ChildFree(nodes: map<nat, Node>, free: set<nat>, pages: map<nat, nat>, held: set<nat>, all: set<nat>)
    requires Divided(nodes, free, pages, held, all)
    ensures free <= all
  {
  }

  /** The child, complete or gone. */
  method MakeChild(m: Machine, src: nat, dst: nat, ghost n0: map<nat, Node>, ghost pdpt: nat, ghost kn: map<nat, Node>, ghost s: Life, ghost all: set<nat>, ghost lapic: nat)
    returns (ok: bool, ghost t: Life, ghost lost: nat, ghost dir: nat)
    requires m.Valid() && lapic == m.lapicBase / GIB && m.lapicBase < TWO39 && dst != 0 && dst != m.kernelRoot && 0 !in s.free
    requires Parent(src, s, all, lapic, kn) && Fresh(src, s, lapic, kn, m.mem, dst, n0, m.pmm.free) && pdpt in n0 && n0[pdpt] == Pdpt(0) && Bare(n0, lapic)
    requires |m.pmm.free| == |s.free| - NewCost(|s.free|, m.lapicBase) && |s.free| >= 2
    modifies m`mem, m.pmm, m.pmm.bitmap
    ensures m.Valid() && KeepsUsed(s, m.mem)
    ensures ok ==> Shows(m, t) && m.pmm.free <= s.free && Child(src, s, dst, t, pdpt, lapic) && |m.pmm.free| == |old(m.pmm.free)| - CopyCost(src, s, ALL_PAGES)
    ensures !ok ==> AllBut(s.free, m.pmm.free, lost, dir) && (dir != 0 <==> HasLapicTable(n0, lapic))
    ensures ForkResult(src, s, m.lapicBase, ok, lost)
  {
    ghost var c := Fork(m.mem, src, s.nodes, dst, n0, m.pmm.free);
    ghost var nodes, owner, free;
    ForkPoised(src, s, all, lapic, kn, c, pdpt);
    ok, nodes, owner, free, lost, dir := CopyOrEnd(m, src, dst, c, pdpt, s, lapic);
    CloneResult(src, s, all, lapic, kn, c, ok, lost);
    ResultFollows(src, s, m.lapicBase, |c.free0|, ok, lost);
    t := ChildOf(m.mem, nodes, m.pmm.free, owner, 0);
    if ok {
      ChildComplete(src, s, all, lapic, kn, c, m.mem, nodes, m.pmm.free, owner, pdpt);
      ChildFree(t.nodes, t.free, t.pages, t.held, s.free);
    }
  }

  /** The new space of the child. */
  method SpaceForChild(m: Machine, ghost src: nat, ghost kn: map<nat, Node>, ghost kpdpt: nat, ghost s: Life, ghost all: set<nat>, ghost lapic: nat)
    returns (dst: nat, ghost pdpt: nat, ghost n0: map<nat, Node>)
    requires m.Valid() && Shows(m, s) && lapic == m.lapicBase / GIB && LapicOk(m.lapicBase) && Parent(src, s, all, lapic, kn)
    requires m.Space(m.kernelRoot, kn) && Kernel(m.mem, m.kernelRoot, kn, kpdpt)
    modifies m`mem, m.pmm, m.pmm.bitmap
    ensures m.Valid() && (dst != 0 <==> |s.free| >= 2) && |m.pmm.free| == |s.free| - NewCost(|s.free|, m.lapicBase)
    ensures dst == 0 ==> m.mem == s.mem && m.pmm.free == s.free
    ensures dst != 0 ==> Fresh(src, s, lapic, kn, m.mem, dst, n0, m.pmm.free) && Bare(n0, lapic) && pdpt in n0 && n0[pdpt] == Pdpt(0) && dst != m.kernelRoot
    ensures dst != 0 ==> (HasLapicTable(n0, lapic) <==> m.lapicBase != 0 && |s.free| >= 3)
  {
    dst, pdpt, n0 := NewAddressSpace(m, kn, kpdpt);
  }

  /** fork's part in memory. It succeeds if and only if there are as many free frames as it takes; then
      a child in use sees the parent's user pages, in frames that were free. On failure, dst = 0, all
      frames are free again but for one copy, if the frames ran out inside paging_map, and the page
      directory of the local APIC, if the new space got one. The parent sees the same bytes either
      way. */
  method ForkUserSpace(m: Machine, src: nat, ghost kn: map<nat, Node>, ghost kpdpt: nat, ghost s: Life, ghost all: set<nat>, ghost lapic: nat)
    returns (dst: nat, ghost t: Life, ghost pdpt: nat, ghost lost: nat, ghost dir: nat)
    requires m.Valid() && Shows(m, s) && lapic == m.lapicBase / GIB && LapicOk(m.lapicBase) && Parent(src, s, all, lapic, kn)
    requires m.Space(m.kernelRoot, kn) && Kernel(m.mem, m.kernelRoot, kn, kpdpt)
    modifies m`mem, m.pmm, m.pmm.bitmap
    ensures m.Valid() && ParentAfter(src, s, all, lapic, m.mem, m.pmm.free)
    ensures ForkResult(src, s, m.lapicBase, dst != 0, lost)
    ensures dst != 0 ==> Shows(m, t) && Child(src, s, dst, t, pdpt, lapic)
    ensures dst != 0 ==> |m.pmm.free| == |s.free| - NewCost(|s.free|, m.lapicBase) - CopyCost(src, s, ALL_PAGES)
    ensures dst == 0 ==> AllBut(s.free, m.pmm.free, lost, dir) && (dir != 0 <==> m.lapicBase != 0 && |s.free| >= 3)
  {
    t, lost, dir := s, 0, 0;
    ghost var n0;
    dst, pdpt, n0 := SpaceForChild(m, src, kn, kpdpt, s, all, lapic);
    if dst == 0 {
      NothingLost(s.free);
      ResultFollows(src, s, m.lapicBase, |s.free|, false, 0);
    } else {
      var ok;
      ok, t, lost, dir := MakeChild(m, src, dst, n0, pdpt, kn, s, all, lapic);
      if !ok { dst := 0; }
    }
    ParentLives(src, s, all, lapic, m.mem, m.pmm.free);
  }
}
