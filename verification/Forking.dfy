/** Copying the user half of an address space for fork (paging_clone_user_space). */
module Forking {
  import opened Basics
  import opened LittleEndian
  import opened FrameAllocation
  import opened PageTables
  import opened Paging

  // ---- user pages ----

  /** The page of w is one that user code may use. */
  ghost predicate UserPage(mem: Memory, root: nat, nodes: map<nat, Node>, w: nat)
    requires Tree(mem, root, nodes)
  {
    && w >= USER_BASE
    && var d, p := PdEntry(mem, root, nodes, w), PtEntry(mem, root, nodes, w);
       Present(d) && UserBit(d) && (Large(d) || (Present(p) && UserBit(p)))
  }

  /** The frame behind a user page. */
  ghost function UserFrame(mem: Memory, root: nat, nodes: map<nat, Node>, w: nat): nat
    requires Tree(mem, root, nodes)
  {
    var d := PdEntry(mem, root, nodes, w);
    if Large(d) then LargeBase(d) + IdxD(w) else Base(PtEntry(mem, root, nodes, w))
  }

  lemma {:induction false} SameUserPage(mem: Memory, root: nat, nodes: map<nat, Node>, va: nat, w: nat)
    requires Tree(mem, root, nodes) && va < TWO48 && w < TWO48 && w / PAGE == va / PAGE
    ensures UserPage(mem, root, nodes, w) == UserPage(mem, root, nodes, va) && UserFrame(mem, root, nodes, w) == UserFrame(mem, root, nodes, va)
  {
    assert va >= USER_BASE <==> va / PAGE >= USER_BASE / PAGE;
    assert w >= USER_BASE <==> w / PAGE >= USER_BASE / PAGE;
    SamePage(va, w);
    WalkByIndex(mem, root, nodes, va, w);
  }

  /** A table that a walk for an address at or above 1 GiB can use. */
  predicate UserLabel(n: Node) {
    match n
    case Pd(a, b) => a != 0 || b != 0
    case Pt(a, b, c) => a != 0 || b != 0
    case _ => true
  }

  lemma {:induction false} PathIsUser(n: Node, va: nat)
    requires USER_BASE <= va < TWO48 && OnPath(n, va)
    ensures UserLabel(n)
  {
    PageNumber(va);
    assert va / PAGE >= SLOTS * SLOTS;
  }

  // ---- what has been copied so far ----

  /** The entry for a copy in frame g. */
  function CopyEntry(g: nat): nat { LeafEntry(g * PAGE, USER_RW) }

  lemma {:induction false} CopyEntryFacts(g: nat)
    ensures Present(CopyEntry(g)) && UserBit(CopyEntry(g)) && Base(CopyEntry(g)) == g
  {
    LeafEntryFacts(g * PAGE, USER_RW);
  }

  /** The situation at the start of a clone. */
  datatype Fork = Fork(m0: Memory, src: nat, sn: map<nat, Node>, dst: nat, n0: map<nat, Node>, free0: set<nat>)

  ghost predicate Start(c: Fork) {
    && Tree(c.m0, c.src, c.sn) && Tree(c.m0, c.dst, c.n0) && |c.m0| == MAX_FRAMES
    && (forall f :: f in c.sn || f in c.n0 ==> f !in c.free0)
    && (forall f :: f in c.n0 && UserLabel(c.n0[f]) ==> f !in c.sn)
    && (forall w: nat :: w < TWO48 ==> SourceOk(c, w))
  }

  /** A page to be copied is backed by memory that is neither free nor one of the child's tables,
      and the child has nothing at its address. */
  ghost predicate SourceOk(c: Fork, w: nat)
    requires Tree(c.m0, c.src, c.sn) && Tree(c.m0, c.dst, c.n0)
  {
    UserPage(c.m0, c.src, c.sn, w) ==>
      && LeafOf(c.m0, c.dst, c.n0, w) == NoLeaf
      && var s := UserFrame(c.m0, c.src, c.sn, w); s < |c.m0| && s !in c.free0 && s !in c.n0
  }

  /** A table on the way to a page of the parent. */
  ghost predicate OnUserPath(c: Fork, n: Node)
    requires Tree(c.m0, c.src, c.sn)
  {
    exists w: nat :: w < TWO48 && UserPage(c.m0, c.src, c.sn, w) && OnPath(n, w)
  }

  /** The child's tables and the copies are made of what was free; nothing else is written. */
  ghost predicate Accounts(c: Fork, mem: Memory, nodes: map<nat, Node>, free: set<nat>, owner: map<nat, nat>)
    requires Tree(c.m0, c.src, c.sn)
  {
    |mem| == |c.m0| && Tree(mem, c.dst, nodes) && NewTables(c, nodes, owner) && StillFree(c, nodes, free, owner) && Untouched(c, mem, nodes, owner)
  }

  ghost predicate NewTables(c: Fork, nodes: map<nat, Node>, owner: map<nat, nat>)
    requires Tree(c.m0, c.src, c.sn)
  {
    && (forall f :: f in c.n0 ==> f in nodes && nodes[f] == c.n0[f])
    && (forall f :: f in nodes && f !in c.n0 ==> f in c.free0 && OnUserPath(c, nodes[f]))
    && (forall g :: g in owner ==> g in c.free0 && g !in nodes)
  }

  ghost predicate StillFree(c: Fork, nodes: map<nat, Node>, free: set<nat>, owner: map<nat, nat>) {
    forall f :: f in free <==> f in c.free0 && f !in nodes && f !in owner
  }

  ghost predicate Untouched(c: Fork, mem: Memory, nodes: map<nat, Node>, owner: map<nat, nat>)
    requires |mem| == |c.m0|
  {
    forall f :: 0 <= f < |mem| && f !in owner && !(f in nodes && UserLabel(nodes[f])) ==> mem[f] == c.m0[f]
  }

  /** Page w of the child, when the parent's pages below `limit` have been copied: a frame of its
      own with the parent's bytes, or what was there before. */
  ghost predicate CopyAt(c: Fork, mem: Memory, nodes: map<nat, Node>, owner: map<nat, nat>, limit: nat, w: nat)
    requires Tree(c.m0, c.src, c.sn) && Tree(c.m0, c.dst, c.n0) && Tree(mem, c.dst, nodes)
  {
    var l := LeafOf(mem, c.dst, nodes, w);
    if UserPage(c.m0, c.src, c.sn, w) && w / PAGE < limit then
      && l.Small?
      && var g, s := Base(l.e), UserFrame(c.m0, c.src, c.sn, w);
         && l == Small(CopyEntry(g))
         && g in owner && owner[g] == w / PAGE
         && g < |mem| && s < |c.m0| && mem[g] == c.m0[s]
    else l == LeafOf(c.m0, c.dst, c.n0, w)
  }

  ghost predicate Copied(c: Fork, mem: Memory, nodes: map<nat, Node>, owner: map<nat, nat>, limit: nat)
    requires Tree(c.m0, c.src, c.sn) && Tree(c.m0, c.dst, c.n0) && Tree(mem, c.dst, nodes)
  {
    forall w: nat :: w < TWO48 ==> CopyAt(c, mem, nodes, owner, limit, w)
  }

  /** Every frame taken for a copy, but `lost`, is mapped in the child. */
  ghost predicate InPlace(c: Fork, mem: Memory, nodes: map<nat, Node>, owner: map<nat, nat>, limit: nat, lost: nat)
    requires Tree(c.m0, c.src, c.sn) && Tree(mem, c.dst, nodes)
  {
    forall g :: g in owner && g != lost ==> PlacedAt(c, mem, nodes, owner, limit, g)
  }

  ghost predicate PlacedAt(c: Fork, mem: Memory, nodes: map<nat, Node>, owner: map<nat, nat>, limit: nat, g: nat)
    requires Tree(c.m0, c.src, c.sn) && Tree(mem, c.dst, nodes) && g in owner
  {
    var w := owner[g] * PAGE;
    owner[g] < limit && w < TWO48 && UserPage(c.m0, c.src, c.sn, w) && LeafOf(mem, c.dst, nodes, w) == Small(CopyEntry(g))
  }

  // ---- how many frames it takes ----

  /** The numbers of the user pages below page `limit`. */
  ghost function UserPages(mem: Memory, root: nat, nodes: map<nat, Node>, limit: nat): set<nat>
    requires Tree(mem, root, nodes)
  {
    set n: nat | n < limit && UserPage(mem, root, nodes, n * PAGE)
  }

  /** The places of the tables above pages. */
  ghost function TablesAbove(pages: set<nat>): set<Node> {
    set n, l | n in pages && l in TablesFor(n * PAGE) :: l
  }

  /** The frames that copying the pages below `limit` takes: one for each, and one for each table
      above them that the child does not have yet. */
  ghost function FramesFor(c: Fork, limit: nat): nat
    requires Tree(c.m0, c.src, c.sn)
  {
    var pages := UserPages(c.m0, c.src, c.sn, limit);
    |pages| + |TablesAbove(pages) - c.n0.Values|
  }

  /** The child has the tables above the pages below `limit`, and no others of its own. */
  ghost predicate Places(c: Fork, nodes: map<nat, Node>, limit: nat)
    requires Tree(c.m0, c.src, c.sn)
  {
    nodes.Values == c.n0.Values + TablesAbove(UserPages(c.m0, c.src, c.sn, limit))
  }

  /** It also has some of the tables above page `limit`, but not the lowest. */
  ghost predicate SomePlaces(c: Fork, nodes: map<nat, Node>, limit: nat)
    requires Tree(c.m0, c.src, c.sn)
  {
    var have := c.n0.Values + TablesAbove(UserPages(c.m0, c.src, c.sn, limit));
    have <= nodes.Values <= have + TablesFor(limit * PAGE) && LowestTable(limit * PAGE) !in nodes.Values
  }

  lemma {:induction false} TablesAboveOneMore(pages: set<nat>, n: nat)
    ensures TablesAbove(pages + {n}) == TablesAbove(pages) + TablesFor(n * PAGE)
  {
    forall l | l in TablesAbove(pages) + TablesFor(n * PAGE) ensures l in TablesAbove(pages + {n}) {
      if l in TablesFor(n * PAGE) {
        assert n in pages + {n};
      } else {
        var k :| k in pages && l in TablesFor(k * PAGE);
        assert k in pages + {n};
      }
    }
  }

  lemma {:induction false} PagesOneMore(mem: Memory, root: nat, nodes: map<nat, Node>, n: nat, next: nat)
    requires Tree(mem, root, nodes) && next == n + 1 && UserPage(mem, root, nodes, n * PAGE)
    ensures UserPages(mem, root, nodes, next) == UserPages(mem, root, nodes, n) + {n} && n !in UserPages(mem, root, nodes, n)
  {
    forall k: nat ensures k in UserPages(mem, root, nodes, next) <==> k in UserPages(mem, root, nodes, n) || k == n { }
  }

  lemma {:induction false} PlacesStart(c: Fork)
    requires Tree(c.m0, c.src, c.sn)
    ensures Places(c, c.n0, 0)
  {
    assert UserPages(c.m0, c.src, c.sn, 0) == {};
    assert TablesAbove({}) == {};
  }

  lemma {:induction false} PlacesSkip(c: Fork, nodes: map<nat, Node>, limit: nat, limit': nat)
    requires Tree(c.m0, c.src, c.sn) && Places(c, nodes, limit) && limit <= limit' <= ALL_PAGES
    requires forall w: nat :: w < TWO48 && limit <= w / PAGE < limit' ==> !UserPage(c.m0, c.src, c.sn, w)
    ensures Places(c, nodes, limit')
  {
    forall n: nat | limit <= n < limit' ensures !UserPage(c.m0, c.src, c.sn, n * PAGE) { Aligned(n); }
    assert UserPages(c.m0, c.src, c.sn, limit') == UserPages(c.m0, c.src, c.sn, limit);
  }

  lemma {:induction false} PlacesStep(c: Fork, nodes: map<nat, Node>, nodes': map<nat, Node>, n: nat, next: nat)
    requires Tree(c.m0, c.src, c.sn) && Places(c, nodes, n) && next == n + 1 && UserPage(c.m0, c.src, c.sn, n * PAGE)
    requires nodes'.Values == nodes.Values + TablesFor(n * PAGE)
    ensures Places(c, nodes', next)
  {
    PagesOneMore(c.m0, c.src, c.sn, n, next);
    TablesAboveOneMore(UserPages(c.m0, c.src, c.sn, n), n);
  }

  /** The parent's pages below `limit` have been copied. */
  ghost predicate Progress(c: Fork, mem: Memory, nodes: map<nat, Node>, free: set<nat>, owner: map<nat, nat>, limit: nat)
    requires Start(c)
  {
    Accounts(c, mem, nodes, free, owner) && Copied(c, mem, nodes, owner, limit) && InPlace(c, mem, nodes, owner, limit, 0) && Places(c, nodes, limit)
  }

  /** Page `limit` could not be copied: the frame for the copy was missing or, if one is lost, a table. */
  ghost predicate StoppedAt(c: Fork, nodes: map<nat, Node>, owner: map<nat, nat>, limit: nat, lost: nat)
    requires Tree(c.m0, c.src, c.sn)
  {
    && limit < ALL_PAGES && UserPage(c.m0, c.src, c.sn, limit * PAGE)
    && (lost != 0 <==> lost in owner)
    && if lost == 0 then Places(c, nodes, limit) else SomePlaces(c, nodes, limit)
  }

  /** What is left when the memory runs out: everything taken is in the child, but for one frame. */
  ghost predicate Stuck(c: Fork, mem: Memory, nodes: map<nat, Node>, free: set<nat>, owner: map<nat, nat>, limit: nat, lost: nat)
    requires Start(c)
  {
    Accounts(c, mem, nodes, free, owner) && Copied(c, mem, nodes, owner, limit) && InPlace(c, mem, nodes, owner, limit, lost)
    && free == {} && (lost in owner ==> owner[lost] == limit) && StoppedAt(c, nodes, owner, limit, lost)
  }

  /** The clone is complete. */
  ghost predicate Cloned(c: Fork, mem: Memory, nodes: map<nat, Node>, free: set<nat>, owner: map<nat, nat>) {
    Start(c) && Progress(c, mem, nodes, free, owner, ALL_PAGES)
  }

  /** The clone has run out of memory. */
  ghost predicate Failed(c: Fork, mem: Memory, nodes: map<nat, Node>, free: set<nat>, owner: map<nat, nat>, limit: nat, lost: nat) {
    Start(c) && Stuck(c, mem, nodes, free, owner, limit, lost)
  }

  lemma {:induction false} ProgressStart(c: Fork)
    requires Start(c)
    ensures Progress(c, c.m0, c.n0, c.free0, map[], 0)
  {
    PlacesStart(c);
  }

  /** Passing over pages that are not user pages. */
  lemma {:induction false} Skip(c: Fork, mem: Memory, nodes: map<nat, Node>, free: set<nat>, owner: map<nat, nat>, limit: nat, limit': nat)
    requires Start(c) && Progress(c, mem, nodes, free, owner, limit) && limit <= limit' <= ALL_PAGES
    requires forall w: nat :: w < TWO48 && limit <= w / PAGE < limit' ==> !UserPage(c.m0, c.src, c.sn, w)
    ensures Progress(c, mem, nodes, free, owner, limit')
  {
    PlacesSkip(c, nodes, limit, limit');
    forall w: nat | w < TWO48 ensures CopyAt(c, mem, nodes, owner, limit', w) {
      assert CopyAt(c, mem, nodes, owner, limit, w);
    }
    forall g | g in owner && g != 0 ensures PlacedAt(c, mem, nodes, owner, limit', g) {
      assert PlacedAt(c, mem, nodes, owner, limit, g);
    }
  }

  /** The parent's tables and pages are still as they were. */
  lemma {:induction false} ParentKept(c: Fork, mem: Memory, nodes: map<nat, Node>, free: set<nat>, owner: map<nat, nat>, f: nat)
    requires Start(c) && Accounts(c, mem, nodes, free, owner) && f < |mem|
    requires f in c.sn || (f !in c.free0 && f !in c.n0)
    ensures mem[f] == c.m0[f]
  {
  }

  lemma {:induction false} SourceKept(c: Fork, mem: Memory, nodes: map<nat, Node>, free: set<nat>, owner: map<nat, nat>, va: nat)
    requires Start(c) && Accounts(c, mem, nodes, free, owner) && va < TWO48 && UserPage(c.m0, c.src, c.sn, va)
    ensures var s := UserFrame(c.m0, c.src, c.sn, va); s < |mem| && s !in free && mem[s] == c.m0[s]
  {
    assert SourceOk(c, va);
    ParentKept(c, mem, nodes, free, owner, UserFrame(c.m0, c.src, c.sn, va));
  }

  // ---- one more page ----

  /** Frame g, holding the parent's bytes, has been taken out of the free ones. */
  ghost predicate Ready(c: Fork, m1: Memory, m2: Memory, n: map<nat, Node>, f1: set<nat>, owner: map<nat, nat>, va: nat, pn: nat, g: nat, s: nat)
    requires Start(c)
  {
    && Progress(c, m1, n, f1, owner, pn) && USER_BASE <= va < TWO48 && va == pn * PAGE
    && UserPage(c.m0, c.src, c.sn, va) && UserFrame(c.m0, c.src, c.sn, va) == s && s < |c.m0|
    && g in f1 && 0 < g < |m1| && 0 !in owner && m2 == m1[g := c.m0[s]]
    && Tree(m2, c.dst, n) && SameLeaves(m1, m2, c.dst, n, n)
  }

  lemma {:induction false} StepAccounts(c: Fork, m1: Memory, m2: Memory, m3: Memory, n: map<nat, Node>, n': map<nat, Node>,
                                        f1: set<nat>, f3: set<nat>, owner: map<nat, nat>, va: nat, pn: nat, g: nat)
    requires Tree(c.m0, c.src, c.sn) && Accounts(c, m1, n, f1, owner) && Tree(m3, c.dst, n') && USER_BASE <= va < TWO48 && UserPage(c.m0, c.src, c.sn, va)
    requires g in f1 && |m2| == |m1| && (forall f :: 0 <= f < |m1| && f != g ==> m2[f] == m1[f])
    requires Extends(m2, m3, n, n', f1 - {g}, f3, va)
    ensures Accounts(c, m3, n', f3, owner[g := pn])
  {
    StepTables(c, m1, m2, m3, n, n', f1, f3, owner, va, pn, g);
    StepFree(c, m1, m2, m3, n, n', f1, f3, owner, va, pn, g);
    StepUntouched(c, m1, m2, m3, n, n', f1, f3, owner, va, pn, g);
  }

  lemma {:induction false} OnPathOf(c: Fork, n: Node, va: nat)
    requires Tree(c.m0, c.src, c.sn) && va < TWO48 && UserPage(c.m0, c.src, c.sn, va) && OnPath(n, va)
    ensures OnUserPath(c, n)
  {
  }

  lemma {:induction false} StepTables(c: Fork, m1: Memory, m2: Memory, m3: Memory, n: map<nat, Node>, n': map<nat, Node>,
                                      f1: set<nat>, f3: set<nat>, owner: map<nat, nat>, va: nat, pn: nat, g: nat)
    requires Tree(c.m0, c.src, c.sn) && Accounts(c, m1, n, f1, owner) && g in f1 && Extends(m2, m3, n, n', f1 - {g}, f3, va)
    requires va < TWO48 && UserPage(c.m0, c.src, c.sn, va)
    ensures NewTables(c, n', owner[g := pn])
  {
    var owner' := owner[g := pn];
    forall f | f in c.n0 ensures f in n' && n'[f] == c.n0[f] { assert f in n; }
    forall f | f in n' && f !in c.n0 ensures f in c.free0 && OnUserPath(c, n'[f]) {
      if f !in n { OnPathOf(c, n'[f], va); }
    }
    forall h | h in owner' ensures h in c.free0 && h !in n' { assert h !in f1 || h == g; }
  }

  lemma {:induction false} StepFree(c: Fork, m1: Memory, m2: Memory, m3: Memory, n: map<nat, Node>, n': map<nat, Node>,
                                    f1: set<nat>, f3: set<nat>, owner: map<nat, nat>, va: nat, pn: nat, g: nat)
    requires Tree(c.m0, c.src, c.sn) && Accounts(c, m1, n, f1, owner) && g in f1 && Extends(m2, m3, n, n', f1 - {g}, f3, va)
    ensures StillFree(c, n', f3, owner[g := pn])
  {
    forall f ensures f in f3 <==> f in c.free0 && f !in n' && f !in owner[g := pn] {
      assert f in f3 <==> f in f1 - {g} && f !in n';
    }
  }

  lemma {:induction false} StepUntouched(c: Fork, m1: Memory, m2: Memory, m3: Memory, n: map<nat, Node>, n': map<nat, Node>,
                                         f1: set<nat>, f3: set<nat>, owner: map<nat, nat>, va: nat, pn: nat, g: nat)
    requires Tree(c.m0, c.src, c.sn) && Accounts(c, m1, n, f1, owner) && USER_BASE <= va < TWO48
    requires g in f1 && |m2| == |m1| && (forall f :: 0 <= f < |m1| && f != g ==> m2[f] == m1[f])
    requires Extends(m2, m3, n, n', f1 - {g}, f3, va)
    ensures |m3| == |c.m0| && Untouched(c, m3, n', owner[g := pn])
  {
    forall f | 0 <= f < |m3| && f !in owner[g := pn] && !(f in n' && UserLabel(n'[f])) ensures m3[f] == c.m0[f] {
      if f in n' && OnPath(n'[f], va) { PathIsUser(n'[f], va); }
      assert m3[f] == m2[f] && m2[f] == m1[f];
      assert f in n ==> f in n' && n'[f] == n[f];
    }
  }

  /** The content of the earlier copies stays. */
  lemma {:induction false} StepKeepsCopies(c: Fork, m1: Memory, m2: Memory, m3: Memory, n: map<nat, Node>, n': map<nat, Node>,
                                           f1: set<nat>, f3: set<nat>, owner: map<nat, nat>, va: nat, g: nat)
    requires Tree(c.m0, c.src, c.sn) && Accounts(c, m1, n, f1, owner)
    requires g in f1 && |m2| == |m1| && (forall f :: 0 <= f < |m1| && f != g ==> m2[f] == m1[f])
    requires Extends(m2, m3, n, n', f1 - {g}, f3, va)
    ensures g !in owner && (g < |m1| ==> m3[g] == m2[g])
    ensures forall h :: 0 <= h < |m1| && h in owner ==> h != g && m3[h] == m1[h]
  {
    assert g !in n';
    forall h | 0 <= h < |m1| && h in owner ensures h != g && m3[h] == m1[h] {
      assert h !in n' && m2[h] == m1[h];
    }
  }

  lemma {:induction false} StepElsewhere(c: Fork, m1: Memory, m3: Memory, n: map<nat, Node>, n': map<nat, Node>,
                                         owner: map<nat, nat>, pn: nat, g: nat, limit: nat, w: nat)
    requires Tree(c.m0, c.src, c.sn) && Tree(c.m0, c.dst, c.n0) && Tree(m1, c.dst, n) && Tree(m3, c.dst, n') && |m3| == |m1|
    requires CopyAt(c, m1, n, owner, pn, w) && pn <= limit <= pn + 1 && (w / PAGE == pn ==> limit == pn)
    requires LeafOf(m3, c.dst, n', w) == LeafOf(m1, c.dst, n, w)
    requires forall h :: 0 <= h < |m1| && h in owner ==> h != g && m3[h] == m1[h]
    ensures CopyAt(c, m3, n', owner[g := pn], limit, w)
  {
  }

  lemma {:induction false} StepHere(c: Fork, m3: Memory, n': map<nat, Node>, owner: map<nat, nat>, pn: nat, limit: nat, g: nat, s: nat, w: nat)
    requires Tree(c.m0, c.src, c.sn) && Tree(c.m0, c.dst, c.n0) && Tree(m3, c.dst, n')
    requires w / PAGE == pn && limit == pn + 1 && UserPage(c.m0, c.src, c.sn, w) && UserFrame(c.m0, c.src, c.sn, w) == s
    requires g < |m3| && s < |c.m0| && m3[g] == c.m0[s] && LeafOf(m3, c.dst, n', w) == Small(CopyEntry(g))
    ensures CopyAt(c, m3, n', owner[g := pn], limit, w)
  {
    CopyEntryFacts(g);
  }

  lemma {:induction false} StepCopies(c: Fork, m1: Memory, m2: Memory, m3: Memory, n: map<nat, Node>, n': map<nat, Node>, owner: map<nat, nat>, va: nat, pn: nat, limit: nat, g: nat, s: nat)
    requires Tree(c.m0, c.src, c.sn) && Tree(c.m0, c.dst, c.n0) && limit == pn + 1 && Tree(m1, c.dst, n) && Tree(m2, c.dst, n) && Tree(m3, c.dst, n') && |m3| == |m1|
    requires Copied(c, m1, n, owner, pn) && SameLeaves(m1, m2, c.dst, n, n)
    requires va < TWO48 && pn == va / PAGE && UserPage(c.m0, c.src, c.sn, va) && UserFrame(c.m0, c.src, c.sn, va) == s
    requires g < |m3| && s < |c.m0| && m3[g] == c.m0[s]
    requires forall h :: 0 <= h < |m1| && h in owner ==> h != g && m3[h] == m1[h]
    requires SetsPage(m2, m3, c.dst, n, n', va, PAGE, Small(CopyEntry(g)))
    ensures Copied(c, m3, n', owner[g := pn], limit)
  {
    var owner' := owner[g := pn];
    forall w: nat | w < TWO48 ensures CopyAt(c, m3, n', owner', limit, w) {
      assert CopyAt(c, m1, n, owner, pn, w);
      assert LeafOf(m2, c.dst, n, w) == LeafOf(m1, c.dst, n, w);
      if w / PAGE == pn {
        SameUserPage(c.m0, c.src, c.sn, va, w);
        StepHere(c, m3, n', owner, pn, limit, g, s, w);
      } else {
        StepElsewhere(c, m1, m3, n, n', owner, pn, g, limit, w);
      }
    }
  }

  lemma {:induction false} StepPlaces(c: Fork, m1: Memory, m2: Memory, m3: Memory, n: map<nat, Node>, n': map<nat, Node>, owner: map<nat, nat>, va: nat, pn: nat, limit: nat, g: nat)
    requires limit == pn + 1 && Tree(m1, c.dst, n) && Tree(m2, c.dst, n) && Tree(m3, c.dst, n') && g !in owner
    requires Tree(c.m0, c.src, c.sn) && UserPage(c.m0, c.src, c.sn, va)
    requires InPlace(c, m1, n, owner, pn, 0) && SameLeaves(m1, m2, c.dst, n, n) && va < TWO48 && va == pn * PAGE && 0 !in owner
    requires SetsPage(m2, m3, c.dst, n, n', va, PAGE, Small(CopyEntry(g)))
    ensures InPlace(c, m3, n', owner[g := pn], limit, 0)
  {
    var owner' := owner[g := pn];
    forall h | h in owner' && h != 0 ensures PlacedAt(c, m3, n', owner', limit, h) {
      if h != g {
        assert PlacedAt(c, m1, n, owner, pn, h);
        assert LeafOf(m2, c.dst, n, owner[h] * PAGE) == LeafOf(m1, c.dst, n, owner[h] * PAGE);
      }
    }
  }

  lemma {:induction false} StepMapped(c: Fork, m1: Memory, m2: Memory, m3: Memory, n: map<nat, Node>, n': map<nat, Node>,
                                      f1: set<nat>, f3: set<nat>, owner: map<nat, nat>, va: nat, pn: nat, next: nat, g: nat, s: nat)
    requires Start(c) && Ready(c, m1, m2, n, f1, owner, va, pn, g, s) && Tree(m3, c.dst, n') && Extends(m2, m3, n, n', f1 - {g}, f3, va)
    requires SetsPage(m2, m3, c.dst, n, n', va, PAGE, Small(CopyEntry(g)))
    requires next == pn + 1 && n'.Values == n.Values + TablesFor(va)
    ensures Progress(c, m3, n', f3, owner[g := pn], next)
  {
    ReadyAccounts(c, m1, m2, m3, n, n', f1, f3, owner, va, pn, g, s);
    MappedPlaces(c, m1, m2, n, n', f1, owner, va, pn, next, g, s);
    MappedCopies(c, m1, m2, m3, n, n', f1, f3, owner, va, pn, next, g, s);
  }

  lemma {:induction false} ReadyAccounts(c: Fork, m1: Memory, m2: Memory, m3: Memory, n: map<nat, Node>, n': map<nat, Node>,
                                         f1: set<nat>, f3: set<nat>, owner: map<nat, nat>, va: nat, pn: nat, g: nat, s: nat)
    requires Start(c) && Ready(c, m1, m2, n, f1, owner, va, pn, g, s) && Tree(m3, c.dst, n') && Extends(m2, m3, n, n', f1 - {g}, f3, va)
    ensures Accounts(c, m3, n', f3, owner[g := pn])
  {
    StepAccounts(c, m1, m2, m3, n, n', f1, f3, owner, va, pn, g);
  }

  lemma {:induction false} MappedPlaces(c: Fork, m1: Memory, m2: Memory, n: map<nat, Node>, n': map<nat, Node>, f1: set<nat>, owner: map<nat, nat>, va: nat, pn: nat, next: nat, g: nat, s: nat)
    requires Start(c) && Ready(c, m1, m2, n, f1, owner, va, pn, g, s) && next == pn + 1 && n'.Values == n.Values + TablesFor(va)
    ensures Places(c, n', next)
  {
    PlacesStep(c, n, n', pn, next);
  }

  lemma {:induction false} LostPlaces(c: Fork, m1: Memory, m2: Memory, m3: Memory, n: map<nat, Node>, n': map<nat, Node>,
                                      f1: set<nat>, f3: set<nat>, owner: map<nat, nat>, va: nat, pn: nat, g: nat, s: nat)
    requires Start(c) && Ready(c, m1, m2, n, f1, owner, va, pn, g, s) && Tree(m3, c.dst, n') && Extends(m2, m3, n, n', f1 - {g}, f3, va)
    requires LowestTable(va) !in n'.Values && forall f :: f in n ==> f !in f1
    ensures StoppedAt(c, n', owner[g := pn], pn, g)
  {
    TablesTaken(m2, m3, c.dst, n, n', f1 - {g}, f3, va);
  }

  lemma {:induction false} MappedCopies(c: Fork, m1: Memory, m2: Memory, m3: Memory, n: map<nat, Node>, n': map<nat, Node>,
                                        f1: set<nat>, f3: set<nat>, owner: map<nat, nat>, va: nat, pn: nat, next: nat, g: nat, s: nat)
    requires Start(c) && Ready(c, m1, m2, n, f1, owner, va, pn, g, s) && Tree(m3, c.dst, n') && Extends(m2, m3, n, n', f1 - {g}, f3, va)
    requires SetsPage(m2, m3, c.dst, n, n', va, PAGE, Small(CopyEntry(g))) && next == pn + 1
    ensures Copied(c, m3, n', owner[g := pn], next) && InPlace(c, m3, n', owner[g := pn], next, 0)
  {
    StepKeepsCopies(c, m1, m2, m3, n, n', f1, f3, owner, va, g);
    StepCopies(c, m1, m2, m3, n, n', owner, va, pn, next, g, s);
    StepPlaces(c, m1, m2, m3, n, n', owner, va, pn, next, g);
  }

  lemma {:induction false} StepLost(c: Fork, m1: Memory, m2: Memory, m3: Memory, n: map<nat, Node>, n': map<nat, Node>,
                                    f1: set<nat>, f3: set<nat>, owner: map<nat, nat>, va: nat, pn: nat, g: nat, s: nat)
    requires Start(c) && Ready(c, m1, m2, n, f1, owner, va, pn, g, s) && Tree(m3, c.dst, n') && Extends(m2, m3, n, n', f1 - {g}, f3, va)
    requires SameLeaves(m2, m3, c.dst, n, n') && LowestTable(va) !in n'.Values && forall f :: f in n ==> f !in f1
    ensures Accounts(c, m3, n', f3, owner[g := pn]) && Copied(c, m3, n', owner[g := pn], pn) && InPlace(c, m3, n', owner[g := pn], pn, g)
    ensures StoppedAt(c, n', owner[g := pn], pn, g)
  {
    LostPlaces(c, m1, m2, m3, n, n', f1, f3, owner, va, pn, g, s);
    ReadyAccounts(c, m1, m2, m3, n, n', f1, f3, owner, va, pn, g, s);
    LostCopies(c, m1, m2, m3, n, n', f1, f3, owner, va, pn, g, s);
  }

  lemma {:induction false} LostCopies(c: Fork, m1: Memory, m2: Memory, m3: Memory, n: map<nat, Node>, n': map<nat, Node>,
                                      f1: set<nat>, f3: set<nat>, owner: map<nat, nat>, va: nat, pn: nat, g: nat, s: nat)
    requires Start(c) && Ready(c, m1, m2, n, f1, owner, va, pn, g, s) && Tree(m3, c.dst, n') && Extends(m2, m3, n, n', f1 - {g}, f3, va)
    requires SameLeaves(m2, m3, c.dst, n, n')
    ensures Copied(c, m3, n', owner[g := pn], pn) && InPlace(c, m3, n', owner[g := pn], pn, g)
  {
    StepKeepsCopies(c, m1, m2, m3, n, n', f1, f3, owner, va, g);
    SameLeavesTrans(m1, m2, m3, c.dst, n, n, n');
    CopiesStay(c, m1, m3, n, n', owner, pn, g);
    PlacesStay(c, m1, m3, n, n', owner, pn, g);
  }

  lemma {:induction false} CopiesStay(c: Fork, m1: Memory, m3: Memory, n: map<nat, Node>, n': map<nat, Node>, owner: map<nat, nat>, pn: nat, g: nat)
    requires Tree(c.m0, c.src, c.sn) && Tree(c.m0, c.dst, c.n0) && Tree(m1, c.dst, n) && Tree(m3, c.dst, n') && |m3| == |m1|
    requires Copied(c, m1, n, owner, pn) && SameLeaves(m1, m3, c.dst, n, n')
    requires forall h :: 0 <= h < |m1| && h in owner ==> h != g && m3[h] == m1[h]
    ensures Copied(c, m3, n', owner[g := pn], pn)
  {
    var owner' := owner[g := pn];
    forall w: nat | w < TWO48 ensures CopyAt(c, m3, n', owner', pn, w) {
      assert CopyAt(c, m1, n, owner, pn, w);
      assert LeafOf(m3, c.dst, n', w) == LeafOf(m1, c.dst, n, w);
      StepElsewhere(c, m1, m3, n, n', owner, pn, g, pn, w);
    }
  }

  lemma {:induction false} PlacesStay(c: Fork, m1: Memory, m3: Memory, n: map<nat, Node>, n': map<nat, Node>, owner: map<nat, nat>, pn: nat, g: nat)
    requires Tree(c.m0, c.src, c.sn) && Tree(m1, c.dst, n) && Tree(m3, c.dst, n') && g !in owner && 0 !in owner
    requires InPlace(c, m1, n, owner, pn, 0) && SameLeaves(m1, m3, c.dst, n, n')
    ensures InPlace(c, m3, n', owner[g := pn], pn, g)
  {
    var owner' := owner[g := pn];
    forall h | h in owner' && h != g ensures PlacedAt(c, m3, n', owner', pn, h) {
      assert PlacedAt(c, m1, n, owner, pn, h);
      assert LeafOf(m3, c.dst, n', owner[h] * PAGE) == LeafOf(m1, c.dst, n, owner[h] * PAGE);
    }
  }

  // ---- the copying loops ----

  /** Takes a frame and fills it with the bytes of frame s. */
  method Duplicate(m: Machine, s: nat) returns (g: nat)
    requires m.Valid() && s < |m.mem| && s !in m.pmm.free
    modifies m`mem, m.pmm, m.pmm.bitmap
    ensures m.Valid()
    ensures g == 0 ==> m.mem == old(m.mem) && m.pmm.free == {} && old(m.pmm.free) == {}
    ensures g != 0 ==> g in old(m.pmm.free) && g < |m.mem| && m.pmm.free == old(m.pmm.free) - {g} && m.mem == old(m.mem)[g := old(m.mem)[s]]
  {
    g := m.AllocFrame();
    if g == 0 { return; }
    m.Fill(g, ZeroPage());
    m.Fill(g, m.mem[s]);
  }

  lemma {:induction false} ReadyIsFree(c: Fork, m1: Memory, m2: Memory, n: map<nat, Node>, f1: set<nat>, owner: map<nat, nat>, va: nat, pn: nat, g: nat, s: nat)
    requires Start(c) && Ready(c, m1, m2, n, f1, owner, va, pn, g, s)
    ensures LeafOf(m2, c.dst, n, va) == NoLeaf && va % PAGE == 0 && g * PAGE % PAGE == 0
    ensures forall f :: f in n ==> f !in f1
  {
    Aligned(pn);
    Aligned(g);
    assert SourceOk(c, va) && CopyAt(c, m1, n, owner, pn, va);
    assert LeafOf(m2, c.dst, n, va) == LeafOf(m1, c.dst, n, va);
  }

  /** Maps the copy in frame g. */
  method PlaceCopy(m: Machine, dst: nat, va: nat, g: nat, ghost s: nat, ghost pn: nat, ghost next: nat, ghost c: Fork, ghost m1: Memory, ghost f1: set<nat>,
                   ghost nodes: map<nat, Node>, ghost owner: map<nat, nat>)
    returns (ok: bool, ghost nodes': map<nat, Node>)
    requires m.Valid() && Start(c) && dst == c.dst && Ready(c, m1, m.mem, nodes, f1, owner, va, pn, g, s) && m.pmm.free == f1 - {g} && next == pn + 1
    modifies m`mem, m.pmm, m.pmm.bitmap
    ensures m.Valid()
    ensures if ok then Progress(c, m.mem, nodes', m.pmm.free, owner[g := pn], next)
            else Stuck(c, m.mem, nodes', m.pmm.free, owner[g := pn], pn, g)
  {
    ghost var m2 := m.mem;
    ReadyIsFree(c, m1, m2, nodes, f1, owner, va, pn, g, s);
    ok, nodes' := m.Map(dst, va, g * PAGE, USER_RW, nodes);
    if ok {
      StepMapped(c, m1, m2, m.mem, nodes, nodes', f1, m.pmm.free, owner, va, pn, next, g, s);
    } else {
      StepLost(c, m1, m2, m.mem, nodes, nodes', f1, m.pmm.free, owner, va, pn, g, s);
    }
  }

  /** Copies the page of va out of the parent's frame s. */
  method CopyPage(m: Machine, dst: nat, va: nat, s: nat, ghost pn: nat, ghost next: nat, ghost c: Fork, ghost nodes: map<nat, Node>, ghost owner: map<nat, nat>)
    returns (ok: bool, ghost nodes': map<nat, Node>, ghost owner': map<nat, nat>, ghost limit: nat, ghost lost: nat)
    requires m.Valid() && Start(c) && dst == c.dst && 0 !in c.free0 && Progress(c, m.mem, nodes, m.pmm.free, owner, pn) && next == pn + 1
    requires USER_BASE <= va < TWO48 && va == pn * PAGE && UserPage(c.m0, c.src, c.sn, va) && UserFrame(c.m0, c.src, c.sn, va) == s
    modifies m`mem, m.pmm, m.pmm.bitmap
    ensures m.Valid()
    ensures if ok then Progress(c, m.mem, nodes', m.pmm.free, owner', next) else Stuck(c, m.mem, nodes', m.pmm.free, owner', limit, lost)
  {
    ghost var m1, f1 := m.mem, m.pmm.free;
    SourceKept(c, m1, nodes, f1, owner, va);
    var g := Duplicate(m, s);
    if g == 0 { return false, nodes, owner, pn, 0; }
    TreeKept(m1, m.mem, dst, nodes);
    ok, nodes' := PlaceCopy(m, dst, va, g, s, pn, next, c, m1, f1, nodes, owner);
    if ok { return true, nodes', owner[g := pn], next, 0; }
    return false, nodes', owner[g := pn], pn, g;
  }

  lemma {:induction false} Aligned(n: nat)
    ensures n * PAGE % PAGE == 0 && n * PAGE / PAGE == n
  {
  }

  /** Page k of a page table of the parent. */
  lemma {:induction false} TablePage(c: Fork, a: nat, b: nat, i: nat, k: nat, pt: nat)
    requires Tree(c.m0, c.src, c.sn) && a < SLOTS && b < SLOTS && i < SLOTS && k < SLOTS
    requires pt != 0 && Walk1(c.m0, c.src, c.sn, Addr(a, b, i, 0)) == pt && UserBit(PdEntry(c.m0, c.src, c.sn, Addr(a, b, i, 0)))
    ensures var e, va := Slot(c.m0, pt, k), Addr(a, b, i, k);
            && (UserPage(c.m0, c.src, c.sn, va) <==> va >= USER_BASE && Present(e) && UserBit(e))
            && (UserPage(c.m0, c.src, c.sn, va) ==> UserFrame(c.m0, c.src, c.sn, va) == Base(e))
  {
    AddrIndices(a, b, i, 0);
    AddrIndices(a, b, i, k);
    WalkByIndex(c.m0, c.src, c.sn, Addr(a, b, i, 0), Addr(a, b, i, k));
  }

  /** Page k of a 2 MiB page of the parent. */
  lemma {:induction false} HugePage(c: Fork, a: nat, b: nat, i: nat, k: nat, d: nat)
    requires Tree(c.m0, c.src, c.sn) && a < SLOTS && b < SLOTS && i < SLOTS && k < SLOTS
    requires PdEntry(c.m0, c.src, c.sn, Addr(a, b, i, 0)) == d && Present(d) && UserBit(d) && Large(d)
    ensures var va := Addr(a, b, i, k);
            && (UserPage(c.m0, c.src, c.sn, va) <==> va >= USER_BASE)
            && UserFrame(c.m0, c.src, c.sn, va) == LargeBase(d) + k
            && va < TWO48 && va == (Pages(a, b, i) + k) * PAGE && va >= Addr(a, b, i, 0)
  {
    AddrIndices(a, b, i, 0);
    AddrIndices(a, b, i, k);
    WalkByIndex(c.m0, c.src, c.sn, Addr(a, b, i, 0), Addr(a, b, i, k));
  }

  /** Nothing is done for pages that are not user pages. */
  lemma {:induction false} SkipIf(skip: bool, c: Fork, m1: Memory, n1: map<nat, Node>, f1: set<nat>, o1: map<nat, nat>,
                                  m2: Memory, n2: map<nat, Node>, f2: set<nat>, o2: map<nat, nat>, limit: nat, limit': nat)
    requires Start(c) && Progress(c, m1, n1, f1, o1, limit)
    requires skip ==> limit <= limit' <= ALL_PAGES && m2 == m1 && n2 == n1 && f2 == f1 && o2 == o1
    requires skip ==> forall w: nat :: w < TWO48 && limit <= w / PAGE < limit' ==> !UserPage(c.m0, c.src, c.sn, w)
    ensures skip ==> Progress(c, m2, n2, f2, o2, limit')
  {
    if skip { Skip(c, m1, n1, f1, o1, limit, limit'); }
  }

  lemma {:induction false} NotUserPage(c: Fork, va: nat, pn: nat)
    requires Tree(c.m0, c.src, c.sn) && va < TWO48 && va == pn * PAGE
    ensures !UserPage(c.m0, c.src, c.sn, va) ==> forall w: nat :: w < TWO48 && pn <= w / PAGE < pn + 1 ==> !UserPage(c.m0, c.src, c.sn, w)
  {
    Aligned(pn);
    if !UserPage(c.m0, c.src, c.sn, va) {
      forall w: nat | w < TWO48 && pn <= w / PAGE < pn + 1 ensures !UserPage(c.m0, c.src, c.sn, w) {
        assert w / PAGE == pn;
        SameUserPage(c.m0, c.src, c.sn, va, w);
      }
    }
  }

  /** Page number of the first page under the given indices. */
  function Pages(a: nat, b: nat, i: nat): nat { ((a * SLOTS + b) * SLOTS + i) * SLOTS }

  lemma {:induction false} TableEntryAt(c: Fork, a: nat, b: nat, i: nat, k: nat, pt: nat, pn: nat, next: nat)
    requires Tree(c.m0, c.src, c.sn) && a < SLOTS && b < SLOTS && i < SLOTS && k < SLOTS && pn == Pages(a, b, i) + k && next == pn + 1
    requires pt != 0 && Walk1(c.m0, c.src, c.sn, Addr(a, b, i, 0)) == pt && UserBit(PdEntry(c.m0, c.src, c.sn, Addr(a, b, i, 0)))
    requires Addr(a, b, i, 0) >= USER_BASE
    ensures var e, va := Slot(c.m0, pt, k), Addr(a, b, i, k);
            && USER_BASE <= va < TWO48 && va == pn * PAGE
            && (UserPage(c.m0, c.src, c.sn, va) <==> Present(e) && UserBit(e))
            && (UserPage(c.m0, c.src, c.sn, va) ==> UserFrame(c.m0, c.src, c.sn, va) == Base(e))
            && (!(Present(e) && UserBit(e)) ==> forall w: nat :: w < TWO48 && pn <= w / PAGE < next ==> !UserPage(c.m0, c.src, c.sn, w))
  {
    TablePage(c, a, b, i, k, pt);
    AddrIndices(a, b, i, k);
    NotUserPage(c, Addr(a, b, i, k), pn);
  }

  /** Entry e of a page table: its page is copied if it is a user page. */
  method CopyPageIf(m: Machine, dst: nat, va: nat, e: nat, ghost pn: nat, ghost next: nat, ghost c: Fork, ghost nodes: map<nat, Node>, ghost owner: map<nat, nat>)
    returns (ok: bool, ghost nodes': map<nat, Node>, ghost owner': map<nat, nat>, ghost limit: nat, ghost lost: nat)
    requires m.Valid() && Start(c) && dst == c.dst && 0 !in c.free0 && Progress(c, m.mem, nodes, m.pmm.free, owner, pn) && next == pn + 1
    requires USER_BASE <= va < TWO48 && va == pn * PAGE && (UserPage(c.m0, c.src, c.sn, va) <==> Present(e) && UserBit(e))
    requires UserPage(c.m0, c.src, c.sn, va) ==> UserFrame(c.m0, c.src, c.sn, va) == Base(e)
    modifies m`mem, m.pmm, m.pmm.bitmap
    ensures m.Valid()
    ensures Present(e) && UserBit(e) && ok ==> Progress(c, m.mem, nodes', m.pmm.free, owner', next)
    ensures !(Present(e) && UserBit(e)) ==> ok && m.mem == old(m.mem) && m.pmm.free == old(m.pmm.free) && nodes' == nodes && owner' == owner
    ensures !ok ==> Stuck(c, m.mem, nodes', m.pmm.free, owner', limit, lost)
  {
    if !Present(e) || !UserBit(e) { return true, nodes, owner, 0, 0; }
    ok, nodes', owner', limit, lost := CopyPage(m, dst, va, Base(e), pn, next, c, nodes, owner);
  }

  /** The small pages of one page table. */
  method CopyTable(m: Machine, dst: nat, a: nat, b: nat, i: nat, pt: nat, ghost from: nat, ghost next: nat, ghost c: Fork, ghost nodes: map<nat, Node>, ghost owner: map<nat, nat>)
    returns (ok: bool, ghost nodes': map<nat, Node>, ghost owner': map<nat, nat>, ghost limit: nat, ghost lost: nat)
    requires m.Valid() && Start(c) && dst == c.dst && 0 !in c.free0 && a < SLOTS && b < SLOTS && i < SLOTS && from == Pages(a, b, i) && next == from + SLOTS
    requires Progress(c, m.mem, nodes, m.pmm.free, owner, from)
    requires pt != 0 && Walk1(c.m0, c.src, c.sn, Addr(a, b, i, 0)) == pt && UserBit(PdEntry(c.m0, c.src, c.sn, Addr(a, b, i, 0)))
    requires Addr(a, b, i, 0) >= USER_BASE
    modifies m`mem, m.pmm, m.pmm.bitmap
    ensures m.Valid()
    ensures if ok then Progress(c, m.mem, nodes', m.pmm.free, owner', next) else Stuck(c, m.mem, nodes', m.pmm.free, owner', limit, lost)
  {
    ok, nodes', owner', limit, lost := true, nodes, owner, from, 0;
    var k := 0;
    while ok && k < SLOTS
      invariant m.Valid() && 0 <= k <= SLOTS
      invariant ok ==> limit == Pages(a, b, i) + k && Progress(c, m.mem, nodes', m.pmm.free, owner', limit)
      invariant !ok ==> Stuck(c, m.mem, nodes', m.pmm.free, owner', limit, lost)
    {
      ghost var m1, n1, f1, o1, pn, pn' := m.mem, nodes', m.pmm.free, owner', limit, limit + 1;
      ParentKept(c, m1, n1, f1, o1, pt);
      TableEntryAt(c, a, b, i, k, pt, pn, pn');
      var va, e := Addr(a, b, i, k), Word(m.mem[pt], k);
      ok, nodes', owner', limit, lost := CopyPageIf(m, dst, va, e, pn, pn', c, n1, o1);
      SkipIf(!Present(e) || !UserBit(e), c, m1, n1, f1, o1, m.mem, nodes', m.pmm.free, owner', pn, pn');
      k, limit := k + 1, if ok then pn' else limit;
    }
    assert ok ==> limit == next;
  }

  /** The 512 small pages that a 2 MiB page becomes. */
  method CopyHuge(m: Machine, dst: nat, a: nat, b: nat, i: nat, e: nat, ghost from: nat, ghost next: nat, ghost c: Fork, ghost nodes: map<nat, Node>, ghost owner: map<nat, nat>)
    returns (ok: bool, ghost nodes': map<nat, Node>, ghost owner': map<nat, nat>, ghost limit: nat, ghost lost: nat)
    requires m.Valid() && Start(c) && dst == c.dst && 0 !in c.free0 && a < SLOTS && b < SLOTS && i < SLOTS && from == Pages(a, b, i) && next == from + SLOTS
    requires Progress(c, m.mem, nodes, m.pmm.free, owner, from)
    requires PdEntry(c.m0, c.src, c.sn, Addr(a, b, i, 0)) == e && Present(e) && UserBit(e) && Large(e) && Addr(a, b, i, 0) >= USER_BASE
    modifies m`mem, m.pmm, m.pmm.bitmap
    ensures m.Valid()
    ensures if ok then Progress(c, m.mem, nodes', m.pmm.free, owner', next) else Stuck(c, m.mem, nodes', m.pmm.free, owner', limit, lost)
  {
    ok, nodes', owner', limit, lost := true, nodes, owner, from, 0;
    var k := 0;
    while ok && k < SLOTS
      invariant m.Valid() && 0 <= k <= SLOTS
      invariant ok ==> limit == Pages(a, b, i) + k && Progress(c, m.mem, nodes', m.pmm.free, owner', limit)
      invariant !ok ==> Stuck(c, m.mem, nodes', m.pmm.free, owner', limit, lost)
    {
      HugePage(c, a, b, i, k, e);
      ghost var pn' := limit + 1;
      ok, nodes', owner', limit, lost := CopyPage(m, dst, Addr(a, b, i, k), LargeBase(e) + k, limit, pn', c, nodes', owner');
      k, limit := k + 1, if ok then pn' else limit;
    }
    assert ok ==> limit == next;
  }

  /** The entry of a page directory leads to pages to copy. */
  predicate Wanted(e: nat, base: nat) { Present(e) && UserBit(e) && base >= USER_BASE }

  lemma {:induction false} DirectoryEntryAt(c: Fork, a: nat, b: nat, i: nat, pd: nat, limit: nat, next: nat)
    requires Tree(c.m0, c.src, c.sn) && a < SLOTS && b < SLOTS && i < SLOTS && limit == Pages(a, b, i) && next == limit + SLOTS
    requires pd != 0 && Walk2(c.m0, c.src, c.sn, Addr(a, b, 0, 0)) == pd
    ensures var e, base := Slot(c.m0, pd, i), Addr(a, b, i, 0);
            && PdEntry(c.m0, c.src, c.sn, base) == e
            && (Present(e) && !Large(e) ==> Base(e) != 0 && Walk1(c.m0, c.src, c.sn, base) == Base(e))
            && (!Wanted(e, base) ==> forall w: nat :: w < TWO48 && limit <= w / PAGE < next ==> !UserPage(c.m0, c.src, c.sn, w))
  {
    var e, base := Slot(c.m0, pd, i), Addr(a, b, i, 0);
    AddrIndices(a, b, 0, 0);
    AddrIndices(a, b, i, 0);
    WalkByIndex(c.m0, c.src, c.sn, Addr(a, b, 0, 0), base);
    assert EdgeOk(c.m0, c.sn, pd, i);
    if !Wanted(e, base) { NotWanted(c, a, b, i, limit, next); }
  }

  lemma {:induction false} NotWanted(c: Fork, a: nat, b: nat, i: nat, limit: nat, next: nat)
    requires Tree(c.m0, c.src, c.sn) && a < SLOTS && b < SLOTS && i < SLOTS && limit == Pages(a, b, i) && next == limit + SLOTS
    requires !Wanted(PdEntry(c.m0, c.src, c.sn, Addr(a, b, i, 0)), Addr(a, b, i, 0))
    ensures forall w: nat :: w < TWO48 && limit <= w / PAGE < next ==> !UserPage(c.m0, c.src, c.sn, w)
  {
    var base := Addr(a, b, i, 0);
    forall w: nat | w < TWO48 && limit <= w / PAGE < next ensures !UserPage(c.m0, c.src, c.sn, w) {
      SameDirectoryEntry(c, a, b, i, w);
      BelowUser(w, (a * SLOTS + b) * SLOTS + i);
    }
  }

  lemma {:induction false} SameDirectoryEntry(c: Fork, a: nat, b: nat, i: nat, w: nat)
    requires Tree(c.m0, c.src, c.sn) && a < SLOTS && b < SLOTS && i < SLOTS && w < TWO48 && Pages(a, b, i) <= w / PAGE < Pages(a, b, i) + SLOTS
    ensures PdEntry(c.m0, c.src, c.sn, w) == PdEntry(c.m0, c.src, c.sn, Addr(a, b, i, 0))
  {
    AddrIndices(a, b, i, 0);
    PageRange(w, a, b, i);
    WalkByIndex(c.m0, c.src, c.sn, Addr(a, b, i, 0), w);
  }

  lemma {:induction false} BelowUser(w: nat, q: nat)
    requires q * SLOTS <= w / PAGE < q * SLOTS + SLOTS
    ensures q * SLOTS * PAGE < USER_BASE ==> w < USER_BASE
  {
    assert w < (q + 1) * HUGE;
  }

  /** Entry e of a page directory. */
  method CopyDirectoryEntry(m: Machine, dst: nat, a: nat, b: nat, i: nat, e: nat, ghost from: nat, ghost next: nat, ghost c: Fork, ghost nodes: map<nat, Node>, ghost owner: map<nat, nat>)
    returns (ok: bool, ghost nodes': map<nat, Node>, ghost owner': map<nat, nat>, ghost limit: nat, ghost lost: nat)
    requires m.Valid() && Start(c) && dst == c.dst && 0 !in c.free0 && a < SLOTS && b < SLOTS && i < SLOTS && from == Pages(a, b, i) && next == from + SLOTS
    requires Progress(c, m.mem, nodes, m.pmm.free, owner, from)
    requires PdEntry(c.m0, c.src, c.sn, Addr(a, b, i, 0)) == e
    requires Present(e) && !Large(e) ==> Base(e) != 0 && Walk1(c.m0, c.src, c.sn, Addr(a, b, i, 0)) == Base(e)
    modifies m`mem, m.pmm, m.pmm.bitmap
    ensures m.Valid()
    ensures Wanted(e, Addr(a, b, i, 0)) && ok ==> Progress(c, m.mem, nodes', m.pmm.free, owner', next)
    ensures !Wanted(e, Addr(a, b, i, 0)) ==> ok && m.mem == old(m.mem) && m.pmm.free == old(m.pmm.free) && nodes' == nodes && owner' == owner
    ensures !ok ==> Stuck(c, m.mem, nodes', m.pmm.free, owner', limit, lost)
  {
    if !Present(e) || !UserBit(e) || Addr(a, b, i, 0) < USER_BASE {
      ok, nodes', owner', limit, lost := true, nodes, owner, 0, 0;
    } else if Large(e) {
      ok, nodes', owner', limit, lost := CopyHuge(m, dst, a, b, i, e, from, next, c, nodes, owner);
    } else {
      ok, nodes', owner', limit, lost := CopyTable(m, dst, a, b, i, Base(e), from, next, c, nodes, owner);
    }
  }

  lemma {:induction false} PdptEntryAt(c: Fork, a: nat, b: nat, pdpt: nat, limit: nat, next: nat)
    requires Tree(c.m0, c.src, c.sn) && a < SLOTS && b < SLOTS && limit == Pages(a, b, 0) && next == Pages(a, b, 0) + SLOTS * SLOTS
    requires pdpt != 0 && Walk3(c.m0, c.src, c.sn, Addr(a, 0, 0, 0)) == pdpt
    ensures var e := Slot(c.m0, pdpt, b);
            && (Present(e) ==> Base(e) != 0 && Walk2(c.m0, c.src, c.sn, Addr(a, b, 0, 0)) == Base(e))
            && (!Present(e) ==> forall w: nat :: w < TWO48 && limit <= w / PAGE < next ==> !UserPage(c.m0, c.src, c.sn, w))
  {
    AddrIndices(a, 0, 0, 0);
    AddrIndices(a, b, 0, 0);
    assert EdgeOk(c.m0, c.sn, pdpt, b);
    if !Present(Slot(c.m0, pdpt, b)) {
      forall w: nat | w < TWO48 && limit <= w / PAGE < next ensures !UserPage(c.m0, c.src, c.sn, w) {
        PageRange(w, a, b, 0);
        WalkByIndex(c.m0, c.src, c.sn, Addr(a, b, 0, 0), w);
      }
    }
  }

  lemma {:induction false} RootEntryAt(c: Fork, a: nat, limit: nat, next: nat)
    requires Tree(c.m0, c.src, c.sn) && a < SLOTS && limit == Pages(a, 0, 0) && next == Pages(a, 0, 0) + SLOTS * SLOTS * SLOTS
    ensures var e := Slot(c.m0, c.src, a);
            && (Present(e) ==> Base(e) != 0 && Walk3(c.m0, c.src, c.sn, Addr(a, 0, 0, 0)) == Base(e))
            && (!Present(e) ==> forall w: nat :: w < TWO48 && limit <= w / PAGE < next ==> !UserPage(c.m0, c.src, c.sn, w))
  {
    AddrIndices(a, 0, 0, 0);
    assert EdgeOk(c.m0, c.sn, c.src, a);
    if !Present(Slot(c.m0, c.src, a)) {
      forall w: nat | w < TWO48 && limit <= w / PAGE < next ensures !UserPage(c.m0, c.src, c.sn, w) {
        PageRange(w, a, 0, 0);
      }
    }
  }

  /** Entry e of a page-directory-pointer table: the page directory behind it, if any. */
  method CopyDirectory(m: Machine, dst: nat, a: nat, b: nat, e: nat, ghost from: nat, ghost next: nat, ghost c: Fork, ghost nodes: map<nat, Node>, ghost owner: map<nat, nat>)
    returns (ok: bool, ghost nodes': map<nat, Node>, ghost owner': map<nat, nat>, ghost limit: nat, ghost lost: nat)
    requires m.Valid() && Start(c) && dst == c.dst && 0 !in c.free0 && a < SLOTS && b < SLOTS && from == Pages(a, b, 0) && next == from + SLOTS * SLOTS
    requires Progress(c, m.mem, nodes, m.pmm.free, owner, from)
    requires Present(e) ==> Base(e) != 0 && Walk2(c.m0, c.src, c.sn, Addr(a, b, 0, 0)) == Base(e)
    modifies m`mem, m.pmm, m.pmm.bitmap
    ensures m.Valid()
    ensures Present(e) && ok ==> Progress(c, m.mem, nodes', m.pmm.free, owner', next)
    ensures !Present(e) ==> ok && m.mem == old(m.mem) && m.pmm.free == old(m.pmm.free) && nodes' == nodes && owner' == owner
    ensures !ok ==> Stuck(c, m.mem, nodes', m.pmm.free, owner', limit, lost)
  {
    ok, nodes', owner', limit, lost := true, nodes, owner, 0, 0;
    if Present(e) {
      ok, nodes', owner', limit, lost := CopyDirectoryEntries(m, dst, a, b, Base(e), from, next, c, nodes, owner);
    }
  }

  method CopyDirectoryEntries(m: Machine, dst: nat, a: nat, b: nat, pd: nat, ghost from: nat, ghost next: nat, ghost c: Fork, ghost nodes: map<nat, Node>, ghost owner: map<nat, nat>)
    returns (ok: bool, ghost nodes': map<nat, Node>, ghost owner': map<nat, nat>, ghost limit: nat, ghost lost: nat)
    requires m.Valid() && Start(c) && dst == c.dst && 0 !in c.free0 && a < SLOTS && b < SLOTS && from == Pages(a, b, 0) && next == from + SLOTS * SLOTS
    requires Progress(c, m.mem, nodes, m.pmm.free, owner, from)
    requires pd != 0 && Walk2(c.m0, c.src, c.sn, Addr(a, b, 0, 0)) == pd
    modifies m`mem, m.pmm, m.pmm.bitmap
    ensures m.Valid()
    ensures if ok then Progress(c, m.mem, nodes', m.pmm.free, owner', next) else Stuck(c, m.mem, nodes', m.pmm.free, owner', limit, lost)
  {
    ok, nodes', owner', limit, lost := true, nodes, owner, from, 0;
    var i := 0;
    while ok && i < SLOTS
      invariant m.Valid() && 0 <= i <= SLOTS
      invariant ok ==> limit == from + i * SLOTS && Progress(c, m.mem, nodes', m.pmm.free, owner', limit)
      invariant !ok ==> Stuck(c, m.mem, nodes', m.pmm.free, owner', limit, lost)
    {
      ghost var pn' := limit + SLOTS;
      ok, nodes', owner', limit, lost := PassDirectoryEntry(m, dst, a, b, i, pd, limit, pn', c, nodes', owner');
      i, limit := i + 1, if ok then pn' else limit;
    }
    assert ok ==> limit == next;
  }

  /** Reads entry i of the directory and copies or passes over what it covers. */
  method PassDirectoryEntry(m: Machine, dst: nat, a: nat, b: nat, i: nat, pd: nat, ghost from: nat, ghost next: nat, ghost c: Fork, ghost nodes: map<nat, Node>, ghost owner: map<nat, nat>)
    returns (ok: bool, ghost nodes': map<nat, Node>, ghost owner': map<nat, nat>, ghost limit: nat, ghost lost: nat)
    requires m.Valid() && Start(c) && dst == c.dst && 0 !in c.free0 && a < SLOTS && b < SLOTS && i < SLOTS && from == Pages(a, b, 0) + i * SLOTS && next == from + SLOTS
    requires Progress(c, m.mem, nodes, m.pmm.free, owner, from)
    requires pd != 0 && Walk2(c.m0, c.src, c.sn, Addr(a, b, 0, 0)) == pd
    modifies m`mem, m.pmm, m.pmm.bitmap
    ensures m.Valid()
    ensures if ok then Progress(c, m.mem, nodes', m.pmm.free, owner', next) else Stuck(c, m.mem, nodes', m.pmm.free, owner', limit, lost)
  {
    ParentKept(c, m.mem, nodes, m.pmm.free, owner, pd);
    DirectoryEntryAt(c, a, b, i, pd, from, next);
    var e := Word(m.mem[pd], i);
    ghost var m1, f1 := m.mem, m.pmm.free;
    ok, nodes', owner', limit, lost := CopyDirectoryEntry(m, dst, a, b, i, e, from, next, c, nodes, owner);
    SkipIf(!Wanted(e, Addr(a, b, i, 0)), c, m1, nodes, f1, owner, m.mem, nodes', m.pmm.free, owner', from, next);
  }

  /** Entry e of the root: the page-directory-pointer table behind it, if any. */
  method CopyPdpt(m: Machine, dst: nat, a: nat, e: nat, ghost from: nat, ghost next: nat, ghost c: Fork, ghost nodes: map<nat, Node>, ghost owner: map<nat, nat>)
    returns (ok: bool, ghost nodes': map<nat, Node>, ghost owner': map<nat, nat>, ghost limit: nat, ghost lost: nat)
    requires m.Valid() && Start(c) && dst == c.dst && 0 !in c.free0 && a < SLOTS && from == Pages(a, 0, 0) && next == from + SLOTS * SLOTS * SLOTS
    requires Progress(c, m.mem, nodes, m.pmm.free, owner, from)
    requires Present(e) ==> Base(e) != 0 && Walk3(c.m0, c.src, c.sn, Addr(a, 0, 0, 0)) == Base(e)
    modifies m`mem, m.pmm, m.pmm.bitmap
    ensures m.Valid()
    ensures Present(e) && ok ==> Progress(c, m.mem, nodes', m.pmm.free, owner', next)
    ensures !Present(e) ==> ok && m.mem == old(m.mem) && m.pmm.free == old(m.pmm.free) && nodes' == nodes && owner' == owner
    ensures !ok ==> Stuck(c, m.mem, nodes', m.pmm.free, owner', limit, lost)
  {
    ok, nodes', owner', limit, lost := true, nodes, owner, 0, 0;
    if Present(e) {
      ok, nodes', owner', limit, lost := CopyPdptEntries(m, dst, a, Base(e), from, next, c, nodes, owner);
    }
  }

  method CopyPdptEntries(m: Machine, dst: nat, a: nat, pdpt: nat, ghost from: nat, ghost next: nat, ghost c: Fork, ghost nodes: map<nat, Node>, ghost owner: map<nat, nat>)
    returns (ok: bool, ghost nodes': map<nat, Node>, ghost owner': map<nat, nat>, ghost limit: nat, ghost lost: nat)
    requires m.Valid() && Start(c) && dst == c.dst && 0 !in c.free0 && a < SLOTS && from == Pages(a, 0, 0) && next == from + SLOTS * SLOTS * SLOTS
    requires Progress(c, m.mem, nodes, m.pmm.free, owner, from)
    requires pdpt != 0 && Walk3(c.m0, c.src, c.sn, Addr(a, 0, 0, 0)) == pdpt
    modifies m`mem, m.pmm, m.pmm.bitmap
    ensures m.Valid()
    ensures if ok then Progress(c, m.mem, nodes', m.pmm.free, owner', next) else Stuck(c, m.mem, nodes', m.pmm.free, owner', limit, lost)
  {
    ok, nodes', owner', limit, lost := true, nodes, owner, from, 0;
    var b := 0;
    while ok && b < SLOTS
      invariant m.Valid() && 0 <= b <= SLOTS
      invariant ok ==> limit == from + b * SLOTS * SLOTS && Progress(c, m.mem, nodes', m.pmm.free, owner', limit)
      invariant !ok ==> Stuck(c, m.mem, nodes', m.pmm.free, owner', limit, lost)
    {
      ghost var pn' := limit + SLOTS * SLOTS;
      ok, nodes', owner', limit, lost := PassPdptEntry(m, dst, a, b, pdpt, limit, pn', c, nodes', owner');
      b, limit := b + 1, if ok then pn' else limit;
    }
    assert ok ==> limit == next;
  }

  method PassPdptEntry(m: Machine, dst: nat, a: nat, b: nat, pdpt: nat, ghost from: nat, ghost next: nat, ghost c: Fork, ghost nodes: map<nat, Node>, ghost owner: map<nat, nat>)
    returns (ok: bool, ghost nodes': map<nat, Node>, ghost owner': map<nat, nat>, ghost limit: nat, ghost lost: nat)
    requires m.Valid() && Start(c) && dst == c.dst && 0 !in c.free0 && a < SLOTS && b < SLOTS && from == Pages(a, 0, 0) + b * SLOTS * SLOTS && next == from + SLOTS * SLOTS
    requires Progress(c, m.mem, nodes, m.pmm.free, owner, from)
    requires pdpt != 0 && Walk3(c.m0, c.src, c.sn, Addr(a, 0, 0, 0)) == pdpt
    modifies m`mem, m.pmm, m.pmm.bitmap
    ensures m.Valid()
    ensures if ok then Progress(c, m.mem, nodes', m.pmm.free, owner', next) else Stuck(c, m.mem, nodes', m.pmm.free, owner', limit, lost)
  {
    ParentKept(c, m.mem, nodes, m.pmm.free, owner, pdpt);
    PdptEntryAt(c, a, b, pdpt, from, next);
    var e := Word(m.mem[pdpt], b);
    ghost var m1, f1 := m.mem, m.pmm.free;
    ok, nodes', owner', limit, lost := CopyDirectory(m, dst, a, b, e, from, next, c, nodes, owner);
    SkipIf(!Present(e), c, m1, nodes, f1, owner, m.mem, nodes', m.pmm.free, owner', from, next);
  }

  method PassRootEntry(m: Machine, src: nat, dst: nat, a: nat, ghost from: nat, ghost next: nat, ghost c: Fork, ghost nodes: map<nat, Node>, ghost owner: map<nat, nat>)
    returns (ok: bool, ghost nodes': map<nat, Node>, ghost owner': map<nat, nat>, ghost limit: nat, ghost lost: nat)
    requires m.Valid() && Start(c) && src == c.src && dst == c.dst && 0 !in c.free0 && a < SLOTS
    requires from == a * SLOTS * SLOTS * SLOTS && next == from + SLOTS * SLOTS * SLOTS
    requires Progress(c, m.mem, nodes, m.pmm.free, owner, from)
    modifies m`mem, m.pmm, m.pmm.bitmap
    ensures m.Valid()
    ensures if ok then Progress(c, m.mem, nodes', m.pmm.free, owner', next) else Stuck(c, m.mem, nodes', m.pmm.free, owner', limit, lost)
  {
    ParentKept(c, m.mem, nodes, m.pmm.free, owner, src);
    RootEntryAt(c, a, from, next);
    var e := Word(m.mem[src], a);
    ghost var m1, f1 := m.mem, m.pmm.free;
    ok, nodes', owner', limit, lost := CopyPdpt(m, dst, a, e, from, next, c, nodes, owner);
    SkipIf(!Present(e), c, m1, nodes, f1, owner, m.mem, nodes', m.pmm.free, owner', from, next);
  }

  /** Number of pages of the address space. */
  const ALL_PAGES: nat := 0x10_0000_0000

  // ---- the frames taken ----

  /** Every frame gone was taken for a table or for a copy. */
  lemma {:induction false} FramesTaken(n0: map<nat, Node>, nodes: map<nat, Node>, free0: set<nat>, free: set<nat>, owner: map<nat, nat>)
    requires Injective(nodes) && (forall f :: f in n0 ==> f in nodes && nodes[f] == n0[f] && f !in free0)
    requires (forall f :: f in nodes && f !in n0 ==> f in free0) && (forall g :: g in owner ==> g in free0 && g !in nodes)
    requires forall f :: f in free <==> f in free0 && f !in nodes && f !in owner
    ensures |free0| == |free| + |nodes.Values - n0.Values| + |owner.Keys|
  {
    var added := map f | f in nodes && f !in n0 :: nodes[f];
    PlacesTaken(n0, nodes, added);
    ValueCount(added);
    ThreeParts(free0, free, added.Keys, owner.Keys);
  }

  lemma {:induction false} ThreeParts(all: set<nat>, a: set<nat>, b: set<nat>, c: set<nat>)
    requires (forall f :: f in all <==> f in a || f in b || f in c) && a !! b && a !! c && b !! c
    ensures |all| == |a| + |b| + |c|
  {
    assert all == a + b + c;
  }

  lemma {:induction false} OneCopyEach(c: Fork, mem: Memory, nodes: map<nat, Node>, owner: map<nat, nat>, limit: nat, lost: nat, f: nat, g: nat)
    requires Tree(c.m0, c.src, c.sn) && Tree(mem, c.dst, nodes) && InPlace(c, mem, nodes, owner, limit, lost)
    requires f in owner && g in owner && f != lost && g != lost && owner[f] == owner[g]
    ensures f == g
  {
    assert PlacedAt(c, mem, nodes, owner, limit, f) && PlacedAt(c, mem, nodes, owner, limit, g);
    CopyEntryFacts(f);
    CopyEntryFacts(g);
  }

  lemma {:induction false} CopiedPages(c: Fork, mem: Memory, nodes: map<nat, Node>, owner: map<nat, nat>, limit: nat, lost: nat)
    requires Tree(c.m0, c.src, c.sn) && Tree(c.m0, c.dst, c.n0) && Tree(mem, c.dst, nodes) && limit <= ALL_PAGES
    requires Copied(c, mem, nodes, owner, limit) && InPlace(c, mem, nodes, owner, limit, lost) && (lost in owner ==> owner[lost] == limit)
    ensures (owner - {lost}).Values == UserPages(c.m0, c.src, c.sn, limit)
  {
    var placed := owner - {lost};
    forall g | g in placed ensures placed[g] in UserPages(c.m0, c.src, c.sn, limit) {
      assert PlacedAt(c, mem, nodes, owner, limit, g);
    }
    forall n | n in UserPages(c.m0, c.src, c.sn, limit) ensures n in placed.Values {
      PageHasCopy(c, mem, nodes, owner, limit, lost, n);
    }
  }

  /** One frame for each page copied. */
  lemma {:induction false} CopiesCount(c: Fork, mem: Memory, nodes: map<nat, Node>, owner: map<nat, nat>, limit: nat, lost: nat)
    requires Tree(c.m0, c.src, c.sn) && Tree(c.m0, c.dst, c.n0) && Tree(mem, c.dst, nodes) && limit <= ALL_PAGES
    requires Copied(c, mem, nodes, owner, limit) && InPlace(c, mem, nodes, owner, limit, lost) && (lost in owner ==> owner[lost] == limit)
    ensures |owner.Keys| == |UserPages(c.m0, c.src, c.sn, limit)| + (if lost in owner then 1 else 0)
  {
    var placed := owner - {lost};
    CopiedPages(c, mem, nodes, owner, limit, lost);
    forall f, g | f in placed && g in placed && placed[f] == placed[g] ensures f == g { OneCopyEach(c, mem, nodes, owner, limit, lost, f, g); }
    ValueCount(placed);
    KeysWithout(owner, lost);
  }

  lemma {:induction false} KeysWithout(owner: map<nat, nat>, lost: nat)
    ensures |owner.Keys| == |(owner - {lost}).Keys| + (if lost in owner then 1 else 0)
  {
    assert (owner - {lost}).Keys == owner.Keys - {lost};
    if lost in owner { assert owner.Keys == owner.Keys - {lost} + {lost}; } else { assert owner.Keys == owner.Keys - {lost}; }
  }

  lemma {:induction false} PageHasCopy(c: Fork, mem: Memory, nodes: map<nat, Node>, owner: map<nat, nat>, limit: nat, lost: nat, n: nat)
    requires Tree(c.m0, c.src, c.sn) && Tree(c.m0, c.dst, c.n0) && Tree(mem, c.dst, nodes) && limit <= ALL_PAGES
    requires Copied(c, mem, nodes, owner, limit) && n in UserPages(c.m0, c.src, c.sn, limit) && (lost in owner ==> owner[lost] >= limit)
    ensures n in (owner - {lost}).Values
  {
    Aligned(n);
    assert CopyAt(c, mem, nodes, owner, limit, n * PAGE);
    var g := Base(LeafOf(mem, c.dst, nodes, n * PAGE).e);
    assert g in owner - {lost} && (owner - {lost})[g] == n;
  }

  /** What one more page costs. */
  lemma {:induction false} FramesOneMore(c: Fork, n: nat, next: nat)
    requires Tree(c.m0, c.src, c.sn) && next == n + 1 && UserPage(c.m0, c.src, c.sn, n * PAGE)
    ensures var above := TablesAbove(UserPages(c.m0, c.src, c.sn, n));
            FramesFor(c, next) == |UserPages(c.m0, c.src, c.sn, n)| + 1 + |above + TablesFor(n * PAGE) - c.n0.Values|
  {
    PagesOneMore(c.m0, c.src, c.sn, n, next);
    TablesAboveOneMore(UserPages(c.m0, c.src, c.sn, n), n);
  }

  lemma {:induction false} FramesGrow(c: Fork, n: nat, limit: nat)
    requires Tree(c.m0, c.src, c.sn) && n <= limit
    ensures FramesFor(c, n) <= FramesFor(c, limit)
  {
    var few, many := UserPages(c.m0, c.src, c.sn, n), UserPages(c.m0, c.src, c.sn, limit);
    SubsetCount(few, many);
    forall l | l in TablesAbove(few) ensures l in TablesAbove(many) {
      var k :| k in few && l in TablesFor(k * PAGE);
      assert k in many;
    }
    SubsetCount(TablesAbove(few) - c.n0.Values, TablesAbove(many) - c.n0.Values);
  }

  /** A complete clone has taken the frames for all pages. */
  lemma {:induction false} ClonedCount(c: Fork, mem: Memory, nodes: map<nat, Node>, free: set<nat>, owner: map<nat, nat>)
    requires Cloned(c, mem, nodes, free, owner) && 0 !in c.free0
    ensures |c.free0| == |free| + FramesFor(c, ALL_PAGES)
  {
    FramesTaken(c.n0, nodes, c.free0, free, owner);
    CopiesCount(c, mem, nodes, owner, ALL_PAGES, 0);
    var above := TablesAbove(UserPages(c.m0, c.src, c.sn, ALL_PAGES));
    StoppedCount(c.n0.Values, nodes.Values, above, {}, Root, false);
  }

  /** The frames run out inside paging_map for page n: after its copy was taken and before its
      tables were made. */
  ghost predicate BreaksAt(c: Fork, n: nat)
    requires Tree(c.m0, c.src, c.sn)
  {
    FramesFor(c, n) < |c.free0| < FramesFor(c, n + 1)
  }

  ghost predicate LosesCopy(c: Fork)
    requires Tree(c.m0, c.src, c.sn)
  {
    exists n: nat :: n < ALL_PAGES && BreaksAt(c, n)
  }

  /** A clone that stops has come to the page for which the frames do not suffice. */
  lemma {:induction false} FailedCount(c: Fork, mem: Memory, nodes: map<nat, Node>, free: set<nat>, owner: map<nat, nat>, limit: nat, next: nat, lost: nat)
    requires Failed(c, mem, nodes, free, owner, limit, lost) && next == limit + 1
    ensures if lost == 0 then |c.free0| == FramesFor(c, limit) else FramesFor(c, limit) < |c.free0|
    ensures |c.free0| < FramesFor(c, next)
  {
    FramesTaken(c.n0, nodes, c.free0, free, owner);
    CopiesCount(c, mem, nodes, owner, limit, lost);
    FramesOneMore(c, limit, next);
    StoppedCount(c.n0.Values, nodes.Values, TablesAbove(UserPages(c.m0, c.src, c.sn, limit)), TablesFor(limit * PAGE), LowestTable(limit * PAGE), lost != 0);
  }

  lemma {:induction false} StoppedCount(have: set<Node>, now: set<Node>, above: set<Node>, need: set<Node>, last: Node, part: bool)
    requires if part then have + above <= now <= have + above + need && last in need && last !in now else now == have + above
    ensures if part then |above - have| <= |now - have| < |above + need - have| else |now - have| == |above - have|
    ensures |above - have| <= |above + need - have|
  {
    SubsetCount(above - have, above + need - have);
    if part {
      SubsetCount(above - have, now - have);
      SubsetCount(now - have, above + need - have);
      assert last in above + need - have && last !in now - have;
    } else {
      assert now - have == above - have;
    }
  }

  /** So there were too few frames for all pages, and a copy is lost if and only if they run out inside
      a paging_map. */
  lemma {:induction false} FailedMeans(c: Fork, mem: Memory, nodes: map<nat, Node>, free: set<nat>, owner: map<nat, nat>, limit: nat, lost: nat)
    requires Failed(c, mem, nodes, free, owner, limit, lost)
    ensures |c.free0| < FramesFor(c, ALL_PAGES) && (lost != 0 <==> LosesCopy(c))
  {
    FailedCount(c, mem, nodes, free, owner, limit, limit + 1, lost);
    FramesGrow(c, limit + 1, ALL_PAGES);
    OnePlaceToBreak(c, limit, lost != 0);
  }

  lemma {:induction false} OnePlaceToBreak(c: Fork, limit: nat, breaks: bool)
    requires Tree(c.m0, c.src, c.sn) && |c.free0| < FramesFor(c, limit + 1) && limit < ALL_PAGES
    requires if breaks then FramesFor(c, limit) < |c.free0| else FramesFor(c, limit) == |c.free0|
    ensures breaks <==> LosesCopy(c)
  {
    if breaks {
      assert BreaksAt(c, limit);
    } else {
      forall n: nat ensures !BreaksAt(c, n) { NoBreakAt(c, limit, n, n + 1); }
    }
  }

  lemma {:induction false} NoBreakAt(c: Fork, limit: nat, n: nat, next: nat)
    requires Tree(c.m0, c.src, c.sn) && FramesFor(c, limit) == |c.free0| && next == n + 1
    ensures !(FramesFor(c, n) < |c.free0| < FramesFor(c, next))
  {
    if n < limit { FramesGrow(c, next, limit); } else { FramesGrow(c, limit, n); }
  }

  /** paging_clone_user_space: the child gets a copy of every user page of the parent, and nothing
      else changes; it succeeds if and only if there are frames enough, and leaves a copied frame
      behind if and only if they run out inside paging_map. */
  method CloneUserSpace(m: Machine, src: nat, dst: nat, ghost sn: map<nat, Node>, ghost n0: map<nat, Node>)
    returns (ok: bool, ghost nodes: map<nat, Node>, ghost owner: map<nat, nat>, ghost limit: nat, ghost lost: nat)
    requires m.Valid() && Start(Fork(m.mem, src, sn, dst, n0, m.pmm.free))
    modifies m`mem, m.pmm, m.pmm.bitmap
    ensures m.Valid()
    ensures var c := Fork(old(m.mem), src, sn, dst, n0, old(m.pmm.free));
            && (ok ==> Cloned(c, m.mem, nodes, m.pmm.free, owner) && |m.pmm.free| == |c.free0| - FramesFor(c, ALL_PAGES))
            && (!ok ==> Failed(c, m.mem, nodes, m.pmm.free, owner, limit, lost) && (lost != 0 <==> LosesCopy(c)))
            && (ok <==> FramesFor(c, ALL_PAGES) <= |c.free0|)
  {
    ok, nodes, owner, limit, lost := CloneFrom(m, src, dst, Fork(m.mem, src, sn, dst, n0, m.pmm.free));
  }

  /** The same, told from the situation c at the start. */
  method CloneFrom(m: Machine, src: nat, dst: nat, ghost c: Fork) returns (ok: bool, ghost nodes: map<nat, Node>, ghost owner: map<nat, nat>, ghost limit: nat, ghost lost: nat)
    requires m.Valid() && Start(c) && c == Fork(m.mem, src, c.sn, dst, c.n0, m.pmm.free)
    modifies m`mem, m.pmm, m.pmm.bitmap
    ensures m.Valid()
    ensures ok ==> Cloned(c, m.mem, nodes, m.pmm.free, owner) && |m.pmm.free| == |c.free0| - FramesFor(c, ALL_PAGES)
    ensures !ok ==> Failed(c, m.mem, nodes, m.pmm.free, owner, limit, lost) && (lost != 0 <==> LosesCopy(c))
    ensures ok <==> FramesFor(c, ALL_PAGES) <= |c.free0|
  {
    ProgressStart(c);
    ok, nodes, owner, limit, lost := PassRoot(m, src, dst, c);
    if ok {
      ClonedCount(c, m.mem, nodes, m.pmm.free, owner);
    } else {
      FailedMeans(c, m.mem, nodes, m.pmm.free, owner, limit, lost);
    }
  }

  /** The loop over the root's entries. */
  method PassRoot(m: Machine, src: nat, dst: nat, ghost c: Fork) returns (ok: bool, ghost nodes: map<nat, Node>, ghost owner: map<nat, nat>, ghost limit: nat, ghost lost: nat)
    requires m.Valid() && Start(c) && src == c.src && dst == c.dst && 0 !in c.free0 && Progress(c, m.mem, c.n0, m.pmm.free, map[], 0)
    modifies m`mem, m.pmm, m.pmm.bitmap
    ensures m.Valid()
    ensures if ok then Progress(c, m.mem, nodes, m.pmm.free, owner, ALL_PAGES) else Stuck(c, m.mem, nodes, m.pmm.free, owner, limit, lost)
  {
    ok, nodes, owner, limit, lost := true, c.n0, map[], 0, 0;
    var a := 0;
    while ok && a < SLOTS
      invariant m.Valid() && 0 <= a <= SLOTS
      invariant ok ==> limit == a * SLOTS * SLOTS * SLOTS && Progress(c, m.mem, nodes, m.pmm.free, owner, limit)
      invariant !ok ==> Stuck(c, m.mem, nodes, m.pmm.free, owner, limit, lost)
    {
      ghost var pn' := limit + SLOTS * SLOTS * SLOTS;
      ok, nodes, owner, limit, lost := PassRootEntry(m, src, dst, a, limit, pn', c, nodes, owner);
      a, limit := a + 1, if ok then pn' else limit;
    }
    assert ok ==> limit == ALL_PAGES;
  }

  // ---- what the child and the parent see ----

  /** The byte that an address reads. */
  function ReadByte(mem: Memory, t: Translation): byte
    requires t.Mapped? && t.phys / PAGE < |mem| && |mem[t.phys / PAGE]| == PAGE
  {
    mem[t.phys / PAGE][t.phys % PAGE]
  }

  /** Address w reads byte v through the tables of root. */
  ghost predicate Reads(mem: Memory, root: nat, nodes: map<nat, Node>, w: nat, v: byte)
    requires Tree(mem, root, nodes)
  {
    var t := Translate(mem, root, nodes, w);
    t.Mapped? && t.phys / PAGE < |mem| && |mem[t.phys / PAGE]| == PAGE && ReadByte(mem, t) == v
  }

  lemma {:induction false} ReadsAt(mem: Memory, root: nat, nodes: map<nat, Node>, w: nat, f: nat)
    requires Tree(mem, root, nodes) && f < |mem| && |mem[f]| == PAGE && Translate(mem, root, nodes, w) == Mapped(f * PAGE + w % PAGE)
    ensures Reads(mem, root, nodes, w, mem[f][w % PAGE])
  {
    InPage(f, w);
  }

  /** A user page of the parent is translated to its frame, small page or 2 MiB page. */
  lemma {:induction false} UserTranslate(mem: Memory, root: nat, nodes: map<nat, Node>, w: nat)
    requires Tree(mem, root, nodes) && UserPage(mem, root, nodes, w)
    ensures Translate(mem, root, nodes, w) == Mapped(UserFrame(mem, root, nodes, w) * PAGE + w % PAGE)
  {
    InHuge(LargeBase(PdEntry(mem, root, nodes, w)), w);
  }

  /** The child's pages are in frames of their own: no two pages share one, and none is a frame of
      the parent. */
  lemma {:induction false} ChildFramesApart(c: Fork, mem: Memory, nodes: map<nat, Node>, free: set<nat>, owner: map<nat, nat>, w: nat, r: nat, x: nat, s: nat)
    returns (g: nat, h: nat)
    requires Cloned(c, mem, nodes, free, owner) && Behind(c, w, r) && Behind(c, x, s)
    ensures Tree(mem, c.dst, nodes) && LeafOf(mem, c.dst, nodes, w) == Small(CopyEntry(g)) && LeafOf(mem, c.dst, nodes, x) == Small(CopyEntry(h))
    ensures g in c.free0 && g !in nodes && g !in c.sn && g != s && (g == h <==> w / PAGE == x / PAGE)
  {
    g := CopyOf(c, mem, nodes, free, owner, w, r);
    h := CopyOf(c, mem, nodes, free, owner, x, s);
    SourceApart(c, mem, nodes, free, owner, x, s);
    if w / PAGE == x / PAGE {
      SamePage(w, x);
      WalkByIndex(mem, c.dst, nodes, w, x);
      CopyEntryFacts(g);
      CopyEntryFacts(h);
    }
  }

  /** The clone leaves the parent as it was: same map, same bytes. */
  lemma {:induction false} ParentUnchanged(c: Fork, mem: Memory, nodes: map<nat, Node>, free: set<nat>, owner: map<nat, nat>)
    requires Start(c) && Accounts(c, mem, nodes, free, owner)
    ensures Tree(mem, c.src, c.sn) && SameLeaves(c.m0, mem, c.src, c.sn, c.sn)
    ensures forall w: nat :: w < TWO48 && UserPage(c.m0, c.src, c.sn, w) ==>
              var s := UserFrame(c.m0, c.src, c.sn, w); s < |mem| && mem[s] == c.m0[s]
  {
    forall f | f in c.sn ensures mem[f] == c.m0[f] { ParentKept(c, mem, nodes, free, owner, f); }
    TreeKept(c.m0, mem, c.src, c.sn);
    forall w: nat | w < TWO48 && UserPage(c.m0, c.src, c.sn, w)
      ensures var s := UserFrame(c.m0, c.src, c.sn, w); s < |mem| && mem[s] == c.m0[s]
    {
      SourceKept(c, mem, nodes, free, owner, w);
    }
  }

  /** Writing a frame that is neither a table nor the page of w leaves what w reads. */
  lemma {:induction false} WriteElsewhere(mem: Memory, root: nat, nodes: map<nat, Node>, w: nat, f: nat, x: nat, page: Page)
    requires Tree(mem, root, nodes) && Translate(mem, root, nodes, w) == Mapped(f * PAGE + w % PAGE) && f < |mem|
    requires x < |mem| && x != f && x !in nodes && |page| == PAGE
    ensures Tree(mem[x := page], root, nodes)
    ensures Reads(mem, root, nodes, w, mem[f][w % PAGE]) && Reads(mem[x := page], root, nodes, w, mem[f][w % PAGE])
  {
    var mem' := mem[x := page];
    TreeKept(mem, mem', root, nodes);
    assert LeafOf(mem', root, nodes, w) == LeafOf(mem, root, nodes, w);
    ReadsAt(mem, root, nodes, w, f);
    ReadsAt(mem', root, nodes, w, f);
  }

  /** At w the tables in `mem` lead to the byte that frame r had in `mem0`. */
  ghost predicate StillReads(mem: Memory, root: nat, nodes: map<nat, Node>, w: nat, mem0: Memory, r: nat) {
    Tree(mem, root, nodes) && r < |mem0| && |mem0[r]| == PAGE && Reads(mem, root, nodes, w, mem0[r][w % PAGE])
  }

  lemma {:induction false} WriteUnseen(mem: Memory, root: nat, nodes: map<nat, Node>, w: nat, f: nat, x: nat, page: Page, mem0: Memory, r: nat)
    requires Tree(mem, root, nodes) && Translate(mem, root, nodes, w) == Mapped(f * PAGE + w % PAGE) && f < |mem|
    requires x < |mem| && x != f && x !in nodes && |page| == PAGE && r < |mem0| && mem0[r] == mem[f]
    ensures StillReads(mem[x := page], root, nodes, w, mem0, r)
  {
    WriteElsewhere(mem, root, nodes, w, f, x, page);
  }

  /** Frame r is behind the user page of w in the parent. */
  ghost predicate Behind(c: Fork, w: nat, r: nat) {
    Tree(c.m0, c.src, c.sn) && w < TWO48 && UserPage(c.m0, c.src, c.sn, w) && UserFrame(c.m0, c.src, c.sn, w) == r
  }

  /** The frame of the copy of page w. */
  lemma {:induction false} CopyOf(c: Fork, mem: Memory, nodes: map<nat, Node>, free: set<nat>, owner: map<nat, nat>, w: nat, r: nat) returns (f: nat)
    requires Cloned(c, mem, nodes, free, owner) && Behind(c, w, r)
    ensures Tree(mem, c.dst, nodes) && Translate(mem, c.dst, nodes, w) == Mapped(f * PAGE + w % PAGE) && LeafOf(mem, c.dst, nodes, w) == Small(CopyEntry(f))
    ensures f < |mem| && f in owner && owner[f] == w / PAGE && r < |c.m0| && mem[f] == c.m0[r]
  {
    assert CopyAt(c, mem, nodes, owner, ALL_PAGES, w);
    f := CopyFrame(c, mem, nodes, owner, w, r);
  }

  lemma {:induction false} CopyFrame(c: Fork, mem: Memory, nodes: map<nat, Node>, owner: map<nat, nat>, w: nat, r: nat) returns (f: nat)
    requires Tree(c.m0, c.src, c.sn) && Tree(c.m0, c.dst, c.n0) && Tree(mem, c.dst, nodes) && CopyAt(c, mem, nodes, owner, ALL_PAGES, w) && Behind(c, w, r)
    ensures Translate(mem, c.dst, nodes, w) == Mapped(f * PAGE + w % PAGE) && LeafOf(mem, c.dst, nodes, w) == Small(CopyEntry(f))
    ensures f < |mem| && f in owner && owner[f] == w / PAGE && r < |c.m0| && mem[f] == c.m0[r]
  {
    BelowAll(w);
    f := Base(LeafOf(mem, c.dst, nodes, w).e);
  }

  lemma {:induction false} BelowAll(w: nat)
    requires w < TWO48
    ensures w / PAGE < ALL_PAGES
  {
  }

  lemma {:induction false} SourceApart(c: Fork, mem: Memory, nodes: map<nat, Node>, free: set<nat>, owner: map<nat, nat>, x: nat, s: nat)
    requires Cloned(c, mem, nodes, free, owner) && Behind(c, x, s)
    ensures s < |mem| && s !in nodes && s !in owner
  {
    assert SourceOk(c, x);
  }

  /** After the clone the child reads at every user address the byte the parent had there. */
  lemma {:induction false} ChildReadsCopy(c: Fork, mem: Memory, nodes: map<nat, Node>, free: set<nat>, owner: map<nat, nat>, w: nat, r: nat)
    requires Cloned(c, mem, nodes, free, owner) && Behind(c, w, r)
    ensures StillReads(c.m0, c.src, c.sn, w, c.m0, r) && StillReads(mem, c.dst, nodes, w, c.m0, r)
  {
    var f := CopyOf(c, mem, nodes, free, owner, w, r);
    FrameReads(mem, c.dst, nodes, w, f, c.m0, r);
    ParentReads(c, w, r);
  }

  lemma {:induction false} FrameReads(mem: Memory, root: nat, nodes: map<nat, Node>, w: nat, f: nat, mem0: Memory, r: nat)
    requires Tree(mem, root, nodes) && Translate(mem, root, nodes, w) == Mapped(f * PAGE + w % PAGE) && f < |mem| && r < |mem0| && mem[f] == mem0[r]
    ensures StillReads(mem, root, nodes, w, mem0, r)
  {
    ReadsAt(mem, root, nodes, w, f);
  }

  lemma {:induction false} ParentReads(c: Fork, w: nat, r: nat)
    requires Behind(c, w, r) && r < |c.m0|
    ensures StillReads(c.m0, c.src, c.sn, w, c.m0, r)
  {
    UserTranslate(c.m0, c.src, c.sn, w);
    FrameReads(c.m0, c.src, c.sn, w, r, c.m0, r);
  }

  /** Whatever the parent later writes into one of its pages (frame s behind x), the child's bytes
      stay: at w it reads what the parent had there (in frame r). */
  lemma {:induction false} ParentWriteUnseen(c: Fork, mem: Memory, nodes: map<nat, Node>, free: set<nat>, owner: map<nat, nat>, x: nat, s: nat, page: Page, w: nat, r: nat)
    requires Cloned(c, mem, nodes, free, owner) && Behind(c, x, s) && Behind(c, w, r) && |page| == PAGE
    ensures s < |mem| && StillReads(mem[s := page], c.dst, nodes, w, c.m0, r)
  {
    var f := CopyOf(c, mem, nodes, free, owner, w, r);
    SourceApart(c, mem, nodes, free, owner, x, s);
    WriteUnseen(mem, c.dst, nodes, w, f, s, page, c.m0, r);
  }

  /** Whatever the child later writes into a copied page (frame g behind x), the parent's bytes stay. */
  lemma {:induction false} ChildWriteUnseen(c: Fork, mem: Memory, nodes: map<nat, Node>, free: set<nat>, owner: map<nat, nat>, x: nat, s: nat, g: nat, page: Page, w: nat, r: nat)
    requires Cloned(c, mem, nodes, free, owner) && Behind(c, x, s) && Behind(c, w, r) && |page| == PAGE
    requires Tree(mem, c.dst, nodes) && LeafOf(mem, c.dst, nodes, x) == Small(CopyEntry(g))
    ensures g < |mem| && StillReads(mem[g := page], c.src, c.sn, w, c.m0, r)
  {
    CopyApart(c, mem, nodes, free, owner, x, s, g, w, r);
    ParentTranslate(c, mem, nodes, free, owner, w, r);
    WriteUnseen(mem, c.src, c.sn, w, r, g, page, c.m0, r);
  }

  lemma {:induction false} CopyApart(c: Fork, mem: Memory, nodes: map<nat, Node>, free: set<nat>, owner: map<nat, nat>, x: nat, s: nat, g: nat, w: nat, r: nat)
    requires Cloned(c, mem, nodes, free, owner) && Behind(c, x, s) && Behind(c, w, r)
    requires Tree(mem, c.dst, nodes) && LeafOf(mem, c.dst, nodes, x) == Small(CopyEntry(g))
    ensures g < |mem| && g !in c.sn && g != r
  {
    var f := CopyOf(c, mem, nodes, free, owner, x, s);
    CopyEntryFacts(f);
    CopyEntryFacts(g);
    SourceApart(c, mem, nodes, free, owner, w, r);
    assert g in c.free0;
  }

  lemma {:induction false} ParentTranslate(c: Fork, mem: Memory, nodes: map<nat, Node>, free: set<nat>, owner: map<nat, nat>, w: nat, s: nat)
    requires Cloned(c, mem, nodes, free, owner) && Behind(c, w, s)
    ensures Tree(mem, c.src, c.sn) && Translate(mem, c.src, c.sn, w) == Mapped(s * PAGE + w % PAGE) && s < |mem| && s < |c.m0| && mem[s] == c.m0[s]
  {
    ParentUnchanged(c, mem, nodes, free, owner);
    UserTranslate(c.m0, c.src, c.sn, w);
    assert SourceOk(c, w);
    assert LeafOf(mem, c.src, c.sn, w) == LeafOf(c.m0, c.src, c.sn, w);
  }
}
