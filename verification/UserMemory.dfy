/** The memory of a process as its program sees it: bytes at virtual addresses. */
module UserMemory {
  import opened LittleEndian
  import opened FrameAllocation
  import opened PageTables
  import opened Paging
  import opened FrameLedger
  import opened AddressSpaces

  const STACK_TOP: nat := 0x40_0000_0000    // PROCESS_USER_STACK_TOP

  datatype MaybeByte = Absent | Byte(b: byte)

  /** The byte at address w. */
  ghost function At(root: nat, s: Life, w: nat): MaybeByte {
    if !Tree(s.mem, root, s.nodes) then Absent
    else
      var l := LeafOf(s.mem, root, s.nodes, w);
      var f := LeafFrame(l, w);
      if l == NoLeaf || f >= |s.mem| || |s.mem[f]| != PAGE then Absent else Byte(s.mem[f][w % PAGE])
  }

  /** It is the byte at the physical address paging_translate gives. */
  lemma {:induction false} AtIsTranslated(root: nat, s: Life, w: nat)
    requires Tree(s.mem, root, s.nodes) && At(root, s, w) != Absent
    ensures var t := Translate(s.mem, root, s.nodes, w);
            && t.Mapped? && t.phys / PAGE < |s.mem| && |s.mem[t.phys / PAGE]| == PAGE
            && t.phys / PAGE == LeafFrame(LeafOf(s.mem, root, s.nodes, w), w) && t.phys % PAGE == w % PAGE
            && At(root, s, w) == Byte(s.mem[t.phys / PAGE][t.phys % PAGE])
  {
    var l := LeafOf(s.mem, root, s.nodes, w);
    if l.Big? { InHuge(LargeBase(l.e), w); }
    var f := LeafFrame(l, w);
    InPage(f, w);
  }

  /** Where the bytes of a page are. */
  lemma {:induction false} AtPage(root: nat, s: Life, all: set<nat>, lapic: nat, w: nat)
    requires LifeOwned(root, s, all, lapic) && InUser(w, lapic) && |s.mem| == MAX_FRAMES
    ensures At(root, s, w) == Absent <==> LeafOf(s.mem, root, s.nodes, w) == NoLeaf
    ensures At(root, s, w) != Absent ==>
              var f := LeafFrame(LeafOf(s.mem, root, s.nodes, w), w);
              f in s.pages && s.pages[f] == w / PAGE && f in all && f < |s.mem| && At(root, s, w) == Byte(s.mem[f][w % PAGE])
  {
    assert PageOwned(s.mem, root, s.nodes, s.pages, w);
    var f := LeafFrame(LeafOf(s.mem, root, s.nodes, w), w);
    assert f in s.pages ==> f in all;
  }

  /** Filling a frame that is not a table changes no table and no ownership. */
  lemma {:induction false} FillKeeps(root: nat, s: Life, all: set<nat>, lapic: nat, f: nat, page: Page)
    requires LifeOwned(root, s, all, lapic) && f < |s.mem| && f !in s.nodes && |page| == PAGE
    ensures LifeOwned(root, s.(mem := s.mem[f := page]), all, lapic)
    ensures SameLeaves(s.mem, s.mem[f := page], root, s.nodes, s.nodes)
  {
    var mem' := s.mem[f := page];
    TreeKept(s.mem, mem', root, s.nodes);
    forall w: nat | InUser(w, lapic) ensures PageOwned(mem', root, s.nodes, s.pages, w) {
      assert PageOwned(s.mem, root, s.nodes, s.pages, w) && LeafOf(mem', root, s.nodes, w) == LeafOf(s.mem, root, s.nodes, w);
    }
    forall g | g in s.pages ensures FrameMapped(mem', root, s.nodes, s.pages, lapic, g) {
      assert FrameMapped(s.mem, root, s.nodes, s.pages, lapic, g);
      assert LeafOf(mem', root, s.nodes, s.pages[g] * PAGE) == LeafOf(s.mem, root, s.nodes, s.pages[g] * PAGE);
    }
  }

  /** Only the addresses of the page behind frame f see it filled. */
  lemma {:induction false} FillAt(root: nat, s: Life, all: set<nat>, lapic: nat, f: nat, page: Page, w: nat)
    requires LifeOwned(root, s, all, lapic) && f < |s.mem| == MAX_FRAMES && f !in s.nodes && |page| == PAGE && InUser(w, lapic)
    ensures var t := s.(mem := s.mem[f := page]);
            At(root, t, w) == if f in s.pages && s.pages[f] == w / PAGE then Byte(page[w % PAGE]) else At(root, s, w)
  {
    var t := s.(mem := s.mem[f := page]);
    FillKeeps(root, s, all, lapic, f, page);
    AtPage(root, s, all, lapic, w);
    AtPage(root, t, all, lapic, w);
    assert LeafOf(t.mem, root, s.nodes, w) == LeafOf(s.mem, root, s.nodes, w);
    if f in s.pages && s.pages[f] == w / PAGE { PageOfFrame(root, s, all, lapic, f, w); }
  }

  lemma {:induction false} PageOfFrame(root: nat, s: Life, all: set<nat>, lapic: nat, f: nat, w: nat)
    requires LifeOwned(root, s, all, lapic) && InUser(w, lapic) && f in s.pages && s.pages[f] == w / PAGE
    ensures LeafOf(s.mem, root, s.nodes, w) != NoLeaf && LeafFrame(LeafOf(s.mem, root, s.nodes, w), w) == f
  {
    var x := s.pages[f] * PAGE;
    assert FrameMapped(s.mem, root, s.nodes, s.pages, lapic, f);
    InUserIndices(w, lapic);
    InUserIndices(x, lapic);
    assert x / PAGE == w / PAGE;
    SamePage(x, w);
    WalkByIndex(s.mem, root, s.nodes, x, w);
  }

  /** After a page has been mapped its addresses read the frame, and no others change. */
  lemma {:induction false} MapAt(root: nat, s: Life, t: Life, all: set<nat>, lapic: nat, va: nat, pn: nat, g: nat, flags: nat, w: nat)
    requires LifeOwned(root, s, all, lapic) && StepOk(root, lapic, s, MapPage(va, pn, g, flags), t) && InUser(w, lapic) && |s.mem| == MAX_FRAMES
    ensures g < |s.mem| && At(root, t, w) == if w / PAGE == pn then Byte(s.mem[g][w % PAGE]) else At(root, s, w)
    ensures w / PAGE == pn ==> At(root, s, w) == Absent
  {
    StepKeepsOwned(root, lapic, s, MapPage(va, pn, g, flags), t, all);
    InUserIndices(w, lapic);
    assert g in all;
    AtPage(root, s, all, lapic, w);
    AtPage(root, t, all, lapic, w);
    FramesKept(root, s, t, all, lapic, va);
    LeafBase(g, flags);
    MappedHere(root, s, lapic, va, pn, w);
  }

  lemma {:induction false} MappedHere(root: nat, s: Life, lapic: nat, va: nat, pn: nat, w: nat)
    requires Tree(s.mem, root, s.nodes) && InUser(va, lapic) && InUser(w, lapic) && va == pn * PAGE && LeafOf(s.mem, root, s.nodes, va) == NoLeaf
    ensures va / PAGE == pn && (w / PAGE == pn ==> LeafOf(s.mem, root, s.nodes, w) == NoLeaf)
  {
    InUserIndices(va, lapic);
    InUserIndices(w, lapic);
    if w / PAGE == pn {
      SamePage(va, w);
      WalkByIndex(s.mem, root, s.nodes, va, w);
    }
  }

  /** Adding tables does not touch the pages. */
  lemma {:induction false} FramesKept(root: nat, s: Life, t: Life, all: set<nat>, lapic: nat, va: nat)
    requires LifeOwned(root, s, all, lapic) && Extends(s.mem, t.mem, s.nodes, t.nodes, s.free, t.free, va)
    ensures forall f :: (f in s.pages || f in s.held) && 0 <= f < |s.mem| ==> t.mem[f] == s.mem[f]
  {
    forall f | (f in s.pages || f in s.held) && 0 <= f < |s.mem| ensures t.mem[f] == s.mem[f] {
      assert f !in t.nodes;
    }
  }

  lemma {:induction false} RefusedAt(root: nat, s: Life, t: Life, all: set<nat>, lapic: nat, va: nat, w: nat)
    requires LifeOwned(root, s, all, lapic) && StepOk(root, lapic, s, MapRefused(va), t) && InUser(w, lapic) && |s.mem| == MAX_FRAMES
    ensures At(root, t, w) == At(root, s, w)
  {
    StepKeepsOwned(root, lapic, s, MapRefused(va), t, all);
    AtPage(root, s, all, lapic, w);
    AtPage(root, t, all, lapic, w);
    FramesKept(root, s, t, all, lapic, va);
    assert LeafOf(t.mem, root, t.nodes, w) == LeafOf(s.mem, root, s.nodes, w);
  }
}
