/** Four-level page tables in physical memory (mem/mm/paging.c), as a reader of that memory
    sees them: words of pages, the walk, and what one changed word does to the walk. */
module PageTables {
  import opened LittleEndian
  import opened Bits

  const PAGE: nat := 4096
  const SLOTS: nat := 512
  const TWO48: nat := 0x1_0000_0000_0000
  const USER_BASE: nat := 0x4000_0000     // 1 GiB
  const HUGE: nat := 0x20_0000            // 2 MiB

  type Page = seq<byte>
  type Memory = seq<Page>

  ghost predicate MemOk(mem: Memory) {
    forall f :: 0 <= f < |mem| ==> |mem[f]| == PAGE
  }

  // ---- words ----

  function Word(p: Page, i: nat): nat
    requires |p| == PAGE && i < SLOTS
  {
    FromLe(p[8 * i..8 * i + 8])
  }

  function PutWord(p: Page, i: nat, v: nat): (q: Page)
    requires |p| == PAGE && i < SLOTS
    ensures |q| == PAGE
  {
    p[..8 * i] + ToLe(v, 8) + p[8 * i + 8..]
  }

  lemma {:induction false} PutWordGet(p: Page, i: nat, v: nat, j: nat)
    requires |p| == PAGE && i < SLOTS && j < SLOTS && v < TWO64
    ensures Word(PutWord(p, i, v), j) == if i == j then v else Word(p, j)
  {
    var q := PutWord(p, i, v);
    if i == j {
      assert q[8 * i..8 * i + 8] == ToLe(v, 8);
      FromToLe(v, 8);
      Pow256Values();
    } else {
      assert q[8 * j..8 * j + 8] == p[8 * j..8 * j + 8];
    }
  }

  function ZeroPage(): (p: Page)
    ensures |p| == PAGE && forall i :: 0 <= i < PAGE ==> p[i] == 0
  {
    seq(PAGE, _ => 0)
  }

  lemma {:induction false} ZeroBytes(bs: seq<byte>)
    requires forall i :: 0 <= i < |bs| ==> bs[i] == 0
    ensures FromLe(bs) == 0
  {
    if bs != [] { ZeroBytes(bs[1..]); }
  }

  lemma {:induction false} ZeroPageWord(i: nat)
    requires i < SLOTS
    ensures Word(ZeroPage(), i) == 0
  {
    ZeroBytes(ZeroPage()[8 * i..8 * i + 8]);
  }

  // ---- entries ----

  predicate Present(e: nat) { e % 2 == 1 }

  predicate UserBit(e: nat) { e / 4 % 2 == 1 }

  predicate Large(e: nat) { e / 128 % 2 == 1 }

  /** Frame number of the page or table an entry points to: bits 12 and up. */
  function Base(e: nat): nat { e / PAGE }

  /** First frame of a 2 MiB page: bits 21 and up. */
  function LargeBase(e: nat): nat { e / HUGE * SLOTS }

  const NO_EXECUTE: nat := 0x8000_0000_0000_0000    // PAGING_FLAG_NOEXEC

  /** A table entry: present, writable, user. */
  function TableEntry(f: nat): nat { f * PAGE + 7 }

  /** phys | flags | PRESENT for a page-aligned address. */
  function LeafEntry(phys: nat, flags: nat): nat {
    Or(Or(phys, flags), 1)
  }

  /** phys | flags | LARGE | PRESENT for a 2 MiB aligned address. */
  function LargeEntry(phys: nat, flags: nat): nat {
    Or(Or(Or(phys, flags), 0x80), 1)
  }

  lemma {:induction false} EvenPlus(m: nat, x: nat)
    ensures (2 * m + x) % 2 == x % 2
  {
  }

  /** The low twelve bits of an entry do not depend on the address above them. */
  lemma {:induction false} LowBits(q: nat, g: nat)
    requires g < PAGE
    ensures var e := q * PAGE + g; e / PAGE == q && Present(e) == Present(g) && UserBit(e) == UserBit(g) && Large(e) == Large(g)
  {
    var e := q * PAGE + g;
    assert e / 4 == 2 * (512 * q) + g / 4;
    assert e / 128 == 2 * (16 * q) + g / 128;
    EvenPlus(2048 * q, g);
    EvenPlus(512 * q, g / 4);
    EvenPlus(16 * q, g / 128);
  }

  lemma {:induction false} TableEntryFacts(f: nat)
    ensures Present(TableEntry(f)) && !Large(TableEntry(f)) && UserBit(TableEntry(f)) && Base(TableEntry(f)) == f
  {
    LowBits(f, 7);
  }

  /** The bits of 1 and of 0x80 above their own place. */
  lemma {:induction false} SmallShifts()
    ensures 1 / 4 == 0 && 1 / 128 == 0 && 1 / PAGE == 0 && 1 / HUGE == 0 && 0x80 / 4 == 32 && 0x80 / PAGE == 0 && 0x80 / HUGE == 0
  {
  }

  /** What ORing words together does to the fields of an entry. */
  lemma {:induction false} OrFields(a: nat, b: nat)
    ensures var e := Or(a, b);
            && (Present(e) <==> Present(a) || Present(b)) && (UserBit(e) <==> UserBit(a) || UserBit(b)) && (Large(e) <==> Large(a) || Large(b))
            && e / PAGE == Or(a / PAGE, b / PAGE) && e / HUGE == Or(a / HUGE, b / HUGE)
  {
    var e := Or(a, b);
    Shifts(a);
    Shifts(b);
    Shifts(e);
    OrHalf(a, b);
    OrShift(a, b, 2);
    OrHalf(a / 4, b / 4);
    OrShift(a, b, 7);
    OrHalf(a / 128, b / 128);
    OrShift(a, b, 12);
    OrShift(a, b, 21);
  }

  /** The fields of a leaf entry, for any flags. */
  lemma {:induction false} LeafFields(phys: nat, flags: nat)
    ensures var e := LeafEntry(phys, flags);
            && Present(e) && (UserBit(e) <==> UserBit(phys) || UserBit(flags)) && (Large(e) <==> Large(phys) || Large(flags))
            && Base(e) == Or(phys / PAGE, flags / PAGE)
  {
    OrFields(phys, flags);
    OrFields(Or(phys, flags), 1);
    SmallShifts();
    OrZero(Or(phys / PAGE, flags / PAGE));
  }

  lemma {:induction false} LargeFields(phys: nat, flags: nat)
    ensures var e := LargeEntry(phys, flags); Present(e) && Large(e) && e / HUGE == Or(phys / HUGE, flags / HUGE)
  {
    var a := Or(phys, flags);
    OrFields(phys, flags);
    OrFields(a, 0x80);
    OrFields(Or(a, 0x80), 1);
    SmallShifts();
    OrZero(a / HUGE);
  }

  lemma {:induction false} EntryBounds(phys: nat, flags: nat)
    requires phys < TWO64 && flags < TWO64
    ensures LeafEntry(phys, flags) < TWO64 && LargeEntry(phys, flags) < TWO64
  {
    Pow2Values();
    OrBound(phys, flags, 64);
    OrBound(Or(phys, flags), 1, 64);
    OrBound(Or(phys, flags), 0x80, 64);
    OrBound(Or(Or(phys, flags), 0x80), 1, 64);
  }

  /** Flags below bit 12 leave a page-aligned address alone. */
  lemma {:induction false} LeafEntryFacts(phys: nat, flags: nat)
    requires phys % PAGE == 0 && flags < PAGE
    ensures Present(LeafEntry(phys, flags)) && Base(LeafEntry(phys, flags)) * PAGE == phys
    ensures UserBit(LeafEntry(phys, flags)) == UserBit(flags) && Large(LeafEntry(phys, flags)) == Large(flags)
  {
    var q := phys / PAGE;
    assert phys == q * PAGE;
    LeafFields(phys, flags);
    LowBits(q, 0);
    assert flags / PAGE == 0;
    OrZero(q);
  }

  lemma {:induction false} LargeEntryFacts(phys: nat, flags: nat)
    requires phys % HUGE == 0 && flags < PAGE
    ensures Present(LargeEntry(phys, flags)) && Large(LargeEntry(phys, flags)) && LargeBase(LargeEntry(phys, flags)) * PAGE == phys
  {
    var q := phys / HUGE;
    assert phys == q * HUGE;
    LargeFields(phys, flags);
    assert flags / HUGE == 0;
    OrZero(q);
  }

  /** paging_translate masks only the low twelve bits, so an entry keeps its address exactly when every
      flag from bit 12 up is a bit of the address already. */
  lemma {:induction false} AddressKept(phys: nat, flags: nat)
    requires phys % PAGE == 0
    ensures Base(LeafEntry(phys, flags)) * PAGE == phys <==> Within(flags / PAGE, phys / PAGE)
  {
    var q := phys / PAGE;
    assert phys == q * PAGE;
    LeafFields(phys, flags);
    OrAbsorbs(q, flags / PAGE);
  }

  lemma {:induction false} LargeAddressKept(phys: nat, flags: nat)
    requires phys % HUGE == 0
    ensures LargeBase(LargeEntry(phys, flags)) * PAGE == phys <==> Within(flags / HUGE, phys / HUGE)
  {
    var q := phys / HUGE;
    assert phys == q * HUGE;
    LargeFields(phys, flags);
    OrAbsorbs(q, flags / HUGE);
  }

  /** The no-execute flag, bit 63, moves every page below 2^63. */
  lemma {:induction false} NoExecuteMovesPage(phys: nat, flags: nat)
    requires phys % PAGE == 0 && phys < NO_EXECUTE <= flags
    ensures Base(LeafEntry(phys, flags)) * PAGE != phys
  {
    AddressKept(phys, flags);
    if Within(flags / PAGE, phys / PAGE) { WithinLess(flags / PAGE, phys / PAGE); }
  }

  /** A flag bit that the address has too does no harm. */
  lemma {:induction false} SharedBitIsKept()
    ensures Base(LeafEntry(0x1000, 0x1000)) * PAGE == 0x1000
  {
    AddressKept(0x1000, 0x1000);
  }

  // ---- indices ----

  function IdxA(va: nat): nat { va / 0x80_0000_0000 % SLOTS }
  function IdxB(va: nat): nat { va / 0x4000_0000 % SLOTS }
  function IdxC(va: nat): nat { va / HUGE % SLOTS }
  function IdxD(va: nat): nat { va / PAGE % SLOTS }

  /** Below 2^48 the four indices and the page number determine each other. */
  lemma {:induction false} PageNumber(va: nat)
    requires va < TWO48
    ensures IdxA(va) < SLOTS && IdxB(va) < SLOTS && IdxC(va) < SLOTS && IdxD(va) < SLOTS
    ensures va / HUGE == (IdxA(va) * SLOTS + IdxB(va)) * SLOTS + IdxC(va)
    ensures va / PAGE == ((IdxA(va) * SLOTS + IdxB(va)) * SLOTS + IdxC(va)) * SLOTS + IdxD(va)
  {
    var p := va / PAGE;
    assert va / HUGE == p / SLOTS;
    assert va / 0x4000_0000 == p / SLOTS / SLOTS;
    assert va / 0x80_0000_0000 == p / SLOTS / SLOTS / SLOTS;
    assert p / SLOTS / SLOTS / SLOTS < SLOTS;
  }

  lemma {:induction false} SamePage(va: nat, w: nat)
    requires va < TWO48 && w < TWO48
    ensures va / PAGE == w / PAGE <==> IdxA(va) == IdxA(w) && IdxB(va) == IdxB(w) && IdxC(va) == IdxC(w) && IdxD(va) == IdxD(w)
  {
    PageNumber(va);
    PageNumber(w);
  }

  lemma {:induction false} SameHuge(va: nat, w: nat)
    requires va < TWO48 && w < TWO48
    ensures va / HUGE == w / HUGE <==> IdxA(va) == IdxA(w) && IdxB(va) == IdxB(w) && IdxC(va) == IdxC(w)
  {
    PageNumber(va);
    PageNumber(w);
  }

  // ---- addresses from table indices ----

  function Addr(a: nat, b: nat, c: nat, k: nat): nat { (((a * SLOTS + b) * SLOTS + c) * SLOTS + k) * PAGE }

  lemma {:induction false} AddrIndices(a: nat, b: nat, c: nat, k: nat)
    requires a < SLOTS && b < SLOTS && c < SLOTS && k < SLOTS
    ensures var w := Addr(a, b, c, k); w < TWO48 && IdxA(w) == a && IdxB(w) == b && IdxC(w) == c && IdxD(w) == k
    ensures Addr(a, b, c, k) / PAGE == ((a * SLOTS + b) * SLOTS + c) * SLOTS + k
  {
    var h := a * SLOTS + b;
    var g := h * SLOTS + c;
    var n := g * SLOTS + k;
    var w := n * PAGE;
    assert w / PAGE == n && n / SLOTS == g && g / SLOTS == h && h / SLOTS == a;
    assert w / HUGE == g && w / 0x4000_0000 == h && w / 0x80_0000_0000 == a;
  }

  /** The addresses with given upper indices are the ones in a range of page numbers. */
  lemma {:induction false} PageRange(w: nat, a: nat, b: nat, c: nat)
    requires w < TWO48 && a < SLOTS && b < SLOTS && c < SLOTS
    ensures var h := a * SLOTS + b;
            && ((h * SLOTS + c) * SLOTS <= w / PAGE < (h * SLOTS + c + 1) * SLOTS <==> IdxA(w) == a && IdxB(w) == b && IdxC(w) == c)
            && (h * SLOTS * SLOTS <= w / PAGE < (h + 1) * SLOTS * SLOTS <==> IdxA(w) == a && IdxB(w) == b)
            && (a * SLOTS * SLOTS * SLOTS <= w / PAGE < (a + 1) * SLOTS * SLOTS * SLOTS <==> IdxA(w) == a)
  {
    PageNumber(w);
  }

  lemma {:induction false} InPage(f: nat, w: nat)
    ensures (f * PAGE + w % PAGE) / PAGE == f && (f * PAGE + w % PAGE) % PAGE == w % PAGE
  {
  }

  lemma {:induction false} InHuge(f: nat, w: nat)
    ensures f * PAGE + w % HUGE == (f + IdxD(w)) * PAGE + w % PAGE
  {
    var p, r := w / PAGE, w % PAGE;
    var q, d := p / SLOTS, p % SLOTS;
    assert w == q * HUGE + (d * PAGE + r);
    assert (q * HUGE + (d * PAGE + r)) % HUGE == d * PAGE + r;
  }

  // ---- the walk ----

  datatype Translation = Unmapped | Mapped(phys: nat)

  function Slot(mem: Memory, f: nat, i: nat): nat
    requires i < SLOTS && f < |mem| && |mem[f]| == PAGE
  {
    Word(mem[f], i)
  }

  /** The place of a table in the tree. */
  datatype Node = Root | Pdpt(a: nat) | Pd(a: nat, b: nat) | Pt(a: nat, b: nat, c: nat)

  function Child(n: Node, i: nat): Node
    requires !n.Pt?
  {
    match n
    case Root => Pdpt(i)
    case Pdpt(a) => Pd(a, i)
    case Pd(a, b) => Pt(a, b, i)
  }

  /** Entry i of table f leads, if anywhere, to the table that belongs there, or is a leaf. */
  predicate EdgeOk(mem: Memory, nodes: map<nat, Node>, f: nat, i: nat)
    requires i < SLOTS && f in nodes && f < |mem| && |mem[f]| == PAGE
  {
    var e := Slot(mem, f, i);
    Present(e) && !nodes[f].Pt? && !(nodes[f].Pd? && Large(e)) ==>
      Base(e) in nodes && nodes[Base(e)] == Child(nodes[f], i)
  }

  function ParentLabel(n: Node): Node
    requires n != Root
  {
    match n
    case Pdpt(a) => Root
    case Pd(a, b) => Pdpt(a)
    case Pt(a, b, c) => Pd(a, b)
  }

  function ParentSlot(n: Node): nat
    requires n != Root
  {
    match n
    case Pdpt(a) => a
    case Pd(a, b) => b
    case Pt(a, b, c) => c
  }

  /** Table f is where the entry of table g that leads to its place says. */
  predicate LinkedFrom(mem: Memory, nodes: map<nat, Node>, g: nat, f: nat) {
    && f in nodes && nodes[f] != Root && g in nodes && g < |mem| && |mem[g]| == PAGE
    && nodes[g] == ParentLabel(nodes[f]) && ParentSlot(nodes[f]) < SLOTS
    && var e := Slot(mem, g, ParentSlot(nodes[f]));
       Present(e) && !(nodes[g].Pd? && Large(e)) && Base(e) == f
  }

  /** No table of the tree is unreachable. */
  ghost predicate HasParent(mem: Memory, nodes: map<nat, Node>, f: nat) {
    exists g :: LinkedFrom(mem, nodes, g, f)
  }

  ghost predicate TablesIn(mem: Memory, nodes: map<nat, Node>) {
    forall f :: f in nodes ==> 0 < f < |mem| && |mem[f]| == PAGE
  }

  ghost predicate Injective(nodes: map<nat, Node>) {
    forall f, g :: f in nodes && g in nodes && nodes[f] == nodes[g] ==> f == g
  }

  /** The tables reached from `root` form a tree: no table has two places. */
  ghost predicate Tree(mem: Memory, root: nat, nodes: map<nat, Node>) {
    && MemOk(mem) && TablesIn(mem, nodes) && Injective(nodes)
    && root in nodes && nodes[root] == Root
    && (forall f, i: nat :: f in nodes && i < SLOTS ==> EdgeOk(mem, nodes, f, i))
    && (forall f {:trigger HasParent(mem, nodes, f)} :: f in nodes && nodes[f] != Root ==> HasParent(mem, nodes, f))
  }

  /** Where the walk for va stands after each level; 0 means that it has ended. */
  ghost function Walk3(mem: Memory, root: nat, nodes: map<nat, Node>, va: nat): (f: nat)
    requires Tree(mem, root, nodes)
    ensures f != 0 ==> f in nodes && nodes[f] == Pdpt(IdxA(va))
  {
    assert EdgeOk(mem, nodes, root, IdxA(va));
    var e := Slot(mem, root, IdxA(va));
    if Present(e) then Base(e) else 0
  }

  ghost function Walk2(mem: Memory, root: nat, nodes: map<nat, Node>, va: nat): (f: nat)
    requires Tree(mem, root, nodes)
    ensures f != 0 ==> f in nodes && nodes[f] == Pd(IdxA(va), IdxB(va))
  {
    var f := Walk3(mem, root, nodes, va);
    if f == 0 then 0 else
      assert EdgeOk(mem, nodes, f, IdxB(va));
      var e := Slot(mem, f, IdxB(va));
      if Present(e) then Base(e) else 0
  }

  /** The page-directory entry for va, 0 if the walk does not get that far. */
  ghost function PdEntry(mem: Memory, root: nat, nodes: map<nat, Node>, va: nat): nat
    requires Tree(mem, root, nodes)
  {
    var f := Walk2(mem, root, nodes, va);
    if f == 0 then 0 else Slot(mem, f, IdxC(va))
  }

  ghost function Walk1(mem: Memory, root: nat, nodes: map<nat, Node>, va: nat): (f: nat)
    requires Tree(mem, root, nodes)
    ensures f != 0 ==> f in nodes && nodes[f] == Pt(IdxA(va), IdxB(va), IdxC(va))
  {
    var f := Walk2(mem, root, nodes, va);
    if f == 0 then 0 else
      assert EdgeOk(mem, nodes, f, IdxC(va));
      var e := Slot(mem, f, IdxC(va));
      if Present(e) && !Large(e) then Base(e) else 0
  }

  /** The page-table entry for va, 0 if the walk does not get that far. */
  ghost function PtEntry(mem: Memory, root: nat, nodes: map<nat, Node>, va: nat): nat
    requires Tree(mem, root, nodes)
  {
    var f := Walk1(mem, root, nodes, va);
    if f == 0 then 0 else Slot(mem, f, IdxD(va))
  }

  /** The entry that the walk for va ends in, if it ends in a page. */
  datatype Leaf = NoLeaf | Small(e: nat) | Big(e: nat)

  ghost function LeafOf(mem: Memory, root: nat, nodes: map<nat, Node>, va: nat): Leaf
    requires Tree(mem, root, nodes)
  {
    var d := PdEntry(mem, root, nodes, va);
    if Present(d) && Large(d) then Big(d)
    else
      var p := PtEntry(mem, root, nodes, va);
      if Present(p) then Small(p) else NoLeaf
  }

  function Target(l: Leaf, va: nat): Translation {
    match l
    case NoLeaf => Unmapped
    case Small(p) => Mapped(Base(p) * PAGE + va % PAGE)
    case Big(d) => Mapped(LargeBase(d) * PAGE + va % HUGE)
  }

  /** paging_translate */
  ghost function Translate(mem: Memory, root: nat, nodes: map<nat, Node>, va: nat): Translation
    requires Tree(mem, root, nodes)
  {
    Target(LeafOf(mem, root, nodes, va), va)
  }

  // ---- one changed entry ----

  /** The tables agree in all entries but entry i of table f. */
  ghost predicate OneSlot(mem: Memory, mem': Memory, nodes: map<nat, Node>, f: nat, i: nat) {
    && |mem'| == |mem| && MemOk(mem) && MemOk(mem') && TablesIn(mem, nodes)
    && forall g, j: nat :: g in nodes && j < SLOTS && !(g == f && j == i) ==> SlotKept(mem, mem', g, j)
  }

  predicate SlotKept(mem: Memory, mem': Memory, g: nat, j: nat)
    requires j < SLOTS
  {
    g < |mem| && g < |mem'| && |mem[g]| == PAGE && |mem'[g]| == PAGE && Slot(mem', g, j) == Slot(mem, g, j)
  }

  lemma {:induction false} PutWordOneSlot(mem: Memory, nodes: map<nat, Node>, f: nat, i: nat, v: nat)
    requires MemOk(mem) && TablesIn(mem, nodes) && f in nodes && i < SLOTS && v < TWO64
    ensures OneSlot(mem, mem[f := PutWord(mem[f], i, v)], nodes, f, i)
    ensures Slot(mem[f := PutWord(mem[f], i, v)], f, i) == v
  {
    var mem' := mem[f := PutWord(mem[f], i, v)];
    PutWordGet(mem[f], i, v, i);
    forall g, j: nat | g in nodes && j < SLOTS && !(g == f && j == i) ensures SlotKept(mem, mem', g, j) {
      if g == f { PutWordGet(mem[f], i, v, j); }
    }
  }

  /** Neither the old nor the new entry leads to a table. */
  predicate IsLeafSlot(nodes: map<nat, Node>, f: nat, e: nat) {
    f in nodes && (nodes[f].Pt? || (nodes[f].Pd? && (!Present(e) || Large(e))))
  }

  lemma {:induction false} LeafKeepsTree(mem: Memory, mem': Memory, root: nat, nodes: map<nat, Node>, f: nat, i: nat)
    requires Tree(mem, root, nodes) && OneSlot(mem, mem', nodes, f, i) && f in nodes && i < SLOTS
    requires IsLeafSlot(nodes, f, Slot(mem, f, i)) && IsLeafSlot(nodes, f, Slot(mem', f, i))
    ensures Tree(mem', root, nodes)
  {
    forall g, j: nat | g in nodes && j < SLOTS ensures EdgeOk(mem', nodes, g, j) {
      assert EdgeOk(mem, nodes, g, j);
      if !(g == f && j == i) { assert SlotKept(mem, mem', g, j); }
    }
    forall g | g in nodes && nodes[g] != Root ensures HasParent(mem', nodes, g) {
      assert HasParent(mem, nodes, g);
      var h :| LinkedFrom(mem, nodes, h, g);
      var j := ParentSlot(nodes[g]);
      if h == f && j == i { assert false; }
      assert SlotKept(mem, mem', h, j);
      assert LinkedFrom(mem', nodes, h, g);
    }
  }

  /** A changed page-table entry is seen by exactly the walks that end in it. */
  lemma {:induction false} PtSlotEffect(mem: Memory, mem': Memory, root: nat, nodes: map<nat, Node>, f: nat, i: nat, w: nat)
    requires Tree(mem, root, nodes) && Tree(mem', root, nodes) && OneSlot(mem, mem', nodes, f, i) && f in nodes && nodes[f].Pt? && i < SLOTS
    ensures PdEntry(mem', root, nodes, w) == PdEntry(mem, root, nodes, w) && Walk1(mem', root, nodes, w) == Walk1(mem, root, nodes, w)
    ensures PtEntry(mem', root, nodes, w) == if Walk1(mem, root, nodes, w) == f && IdxD(w) == i then Slot(mem', f, i) else PtEntry(mem, root, nodes, w)
  {
    WalkSlots(mem, mem', root, nodes, f, i, w);
    var f1 := Walk1(mem, root, nodes, w);
    if f1 != 0 && !(f1 == f && IdxD(w) == i) { assert SlotKept(mem, mem', f1, IdxD(w)); }
  }

  /** The two upper levels of the walk do not see changes below them. */
  lemma {:induction false} WalkSlots(mem: Memory, mem': Memory, root: nat, nodes: map<nat, Node>, f: nat, i: nat, w: nat)
    requires Tree(mem, root, nodes) && Tree(mem', root, nodes) && OneSlot(mem, mem', nodes, f, i)
    requires f in nodes && (nodes[f].Pt? || nodes[f].Pd?)
    ensures Walk3(mem', root, nodes, w) == Walk3(mem, root, nodes, w) && Walk2(mem', root, nodes, w) == Walk2(mem, root, nodes, w)
    ensures nodes[f].Pt? || !(Walk2(mem, root, nodes, w) == f && IdxC(w) == i) ==>
              PdEntry(mem', root, nodes, w) == PdEntry(mem, root, nodes, w) && Walk1(mem', root, nodes, w) == Walk1(mem, root, nodes, w)
  {
    assert SlotKept(mem, mem', root, IdxA(w));
    var f3 := Walk3(mem, root, nodes, w);
    if f3 != 0 { assert SlotKept(mem, mem', f3, IdxB(w)); }
    var f2 := Walk2(mem, root, nodes, w);
    if f2 != 0 && !(f2 == f && IdxC(w) == i) { assert SlotKept(mem, mem', f2, IdxC(w)); }
  }

  /** A changed leaf entry of a page directory is seen by exactly the walks through it. */
  lemma {:induction false} PdSlotEffect(mem: Memory, mem': Memory, root: nat, nodes: map<nat, Node>, f: nat, i: nat, w: nat)
    requires Tree(mem, root, nodes) && Tree(mem', root, nodes) && OneSlot(mem, mem', nodes, f, i) && f in nodes && nodes[f].Pd? && i < SLOTS
    ensures if Walk2(mem, root, nodes, w) == f && IdxC(w) == i then PdEntry(mem', root, nodes, w) == Slot(mem', f, i)
            else PdEntry(mem', root, nodes, w) == PdEntry(mem, root, nodes, w) && PtEntry(mem', root, nodes, w) == PtEntry(mem, root, nodes, w)
  {
    WalkSlots(mem, mem', root, nodes, f, i, w);
    var f1 := Walk1(mem, root, nodes, w);
    if f1 != 0 { assert SlotKept(mem, mem', f1, IdxD(w)); }
  }

  // ---- one new table ----

  /** The place an absent entry leads to is not taken. */
  lemma {:induction false} PlaceIsFree(mem: Memory, root: nat, nodes: map<nat, Node>, f: nat, i: nat, h: nat)
    requires Tree(mem, root, nodes) && f in nodes && !nodes[f].Pt? && i < SLOTS && !Present(Slot(mem, f, i)) && h in nodes
    ensures nodes[h] != Child(nodes[f], i)
  {
    assert nodes[h] != Root ==> HasParent(mem, nodes, h);
  }

  /** Table g, all zero, is hung in at the absent entry i of table f. */
  ghost predicate NewTable(mem: Memory, mem': Memory, nodes: map<nat, Node>, f: nat, i: nat, g: nat) {
    && i < SLOTS && f in nodes && !nodes[f].Pt? && g !in nodes && 0 < g < |mem|
    && OneSlot(mem, mem', nodes, f, i)
    && !Present(Slot(mem, f, i)) && Slot(mem', f, i) == TableEntry(g)
    && forall j: nat :: j < SLOTS ==> EmptySlot(mem', g, j)
  }

  predicate EmptySlot(mem: Memory, g: nat, j: nat)
    requires j < SLOTS
  {
    g < |mem| && |mem[g]| == PAGE && Slot(mem, g, j) == 0
  }

  lemma {:induction false} MakeNewTable(mem: Memory, root: nat, nodes: map<nat, Node>, f: nat, i: nat, g: nat)
    requires Tree(mem, root, nodes) && i < SLOTS && f in nodes && !nodes[f].Pt? && g !in nodes && 0 < g < |mem|
    requires !Present(Slot(mem, f, i)) && TableEntry(g) < TWO64
    ensures NewTable(mem, mem[g := ZeroPage()][f := PutWord(mem[f], i, TableEntry(g))], nodes, f, i, g)
  {
    var mem1 := mem[g := ZeroPage()];
    var mem' := mem1[f := PutWord(mem[f], i, TableEntry(g))];
    PutWordOneSlot(mem1, nodes, f, i, TableEntry(g));
    forall h, j: nat | h in nodes && j < SLOTS && !(h == f && j == i) ensures SlotKept(mem, mem', h, j) {
      assert SlotKept(mem1, mem', h, j);
    }
    forall j: nat | j < SLOTS ensures EmptySlot(mem', g, j) { ZeroPageWord(j); }
  }

  lemma {:induction false} NewTableTree(mem: Memory, mem': Memory, root: nat, nodes: map<nat, Node>, f: nat, i: nat, g: nat)
    requires Tree(mem, root, nodes) && NewTable(mem, mem', nodes, f, i, g)
    ensures Tree(mem', root, nodes[g := Child(nodes[f], i)])
  {
    var nodes' := nodes[g := Child(nodes[f], i)];
    TableEntryFacts(g);
    forall h, j: nat | h in nodes' && j < SLOTS ensures EdgeOk(mem', nodes', h, j) {
      if h == g {
        assert EmptySlot(mem', g, j);
      } else if !(h == f && j == i) {
        assert SlotKept(mem, mem', h, j) && EdgeOk(mem, nodes, h, j);
      }
    }
    forall a, b | a in nodes' && b in nodes' && nodes'[a] == nodes'[b] ensures a == b {
      if a != g { PlaceIsFree(mem, root, nodes, f, i, a); }
      if b != g { PlaceIsFree(mem, root, nodes, f, i, b); }
    }
    assert LinkedFrom(mem', nodes', f, g);
    forall h | h in nodes' && nodes'[h] != Root ensures HasParent(mem', nodes', h) {
      if h != g {
        assert HasParent(mem, nodes, h);
        var p :| LinkedFrom(mem, nodes, p, h);
        assert !(p == f && ParentSlot(nodes[h]) == i);
        assert SlotKept(mem, mem', p, ParentSlot(nodes[h]));
        assert LinkedFrom(mem', nodes', p, h);
      }
    }
  }

  /** Walks that do not use the new entry go on as before. */
  lemma {:induction false} NewTableElsewhere(mem: Memory, mem': Memory, root: nat, nodes: map<nat, Node>, nodes': map<nat, Node>, f: nat, i: nat, g: nat, w: nat)
    requires Tree(mem, root, nodes) && NewTable(mem, mem', nodes, f, i, g) && nodes' == nodes[g := Child(nodes[f], i)] && Tree(mem', root, nodes')
    requires !(f == root && IdxA(w) == i)
    requires !(Walk3(mem, root, nodes, w) == f && IdxB(w) == i) && !(Walk2(mem, root, nodes, w) == f && IdxC(w) == i)
    ensures LeafOf(mem', root, nodes', w) == LeafOf(mem, root, nodes, w) && (!nodes[f].Pd? ==> PdEntry(mem', root, nodes', w) == PdEntry(mem, root, nodes, w))
  {
    assert SlotKept(mem, mem', root, IdxA(w));
    var f3 := Walk3(mem, root, nodes, w);
    if f3 != 0 {
      assert SlotKept(mem, mem', f3, IdxB(w));
      var f2 := Walk2(mem, root, nodes, w);
      if f2 != 0 {
        assert SlotKept(mem, mem', f2, IdxC(w));
        var f1 := Walk1(mem, root, nodes, w);
        if f1 != 0 { assert SlotKept(mem, mem', f1, IdxD(w)); }
      }
    }
  }

  /** Walks through the new entry end in the empty table, and ended at the entry before. */
  lemma {:induction false} NewTableHere(mem: Memory, mem': Memory, root: nat, nodes: map<nat, Node>, nodes': map<nat, Node>, f: nat, i: nat, g: nat, w: nat)
    requires Tree(mem, root, nodes) && NewTable(mem, mem', nodes, f, i, g) && nodes' == nodes[g := Child(nodes[f], i)] && Tree(mem', root, nodes')
    requires || (f == root && IdxA(w) == i)
             || (Walk3(mem, root, nodes, w) == f && IdxB(w) == i)
             || (Walk2(mem, root, nodes, w) == f && IdxC(w) == i)
    ensures LeafOf(mem', root, nodes', w) == NoLeaf && LeafOf(mem, root, nodes, w) == NoLeaf
    ensures !nodes[f].Pd? ==> PdEntry(mem', root, nodes', w) == 0 && PdEntry(mem, root, nodes, w) == 0
  {
    TableEntryFacts(g);
    assert EmptySlot(mem', g, IdxB(w)) && EmptySlot(mem', g, IdxC(w)) && EmptySlot(mem', g, IdxD(w));
    if !(f == root && IdxA(w) == i) {
      assert SlotKept(mem, mem', root, IdxA(w));
      if !(Walk3(mem, root, nodes, w) == f && IdxB(w) == i) {
        assert SlotKept(mem, mem', Walk3(mem, root, nodes, w), IdxB(w));
      }
    }
  }

  /** An empty table changes no translation. */
  lemma {:induction false} NewTableEffect(mem: Memory, mem': Memory, root: nat, nodes: map<nat, Node>, nodes': map<nat, Node>, f: nat, i: nat, g: nat, w: nat)
    requires Tree(mem, root, nodes) && NewTable(mem, mem', nodes, f, i, g) && nodes' == nodes[g := Child(nodes[f], i)] && Tree(mem', root, nodes')
    ensures LeafOf(mem', root, nodes', w) == LeafOf(mem, root, nodes, w) && (!nodes[f].Pd? ==> PdEntry(mem', root, nodes', w) == PdEntry(mem, root, nodes, w))
  {
    if || (f == root && IdxA(w) == i)
       || (Walk3(mem, root, nodes, w) == f && IdxB(w) == i)
       || (Walk2(mem, root, nodes, w) == f && IdxC(w) == i)
    {
      NewTableHere(mem, mem', root, nodes, nodes', f, i, g, w);
    } else {
      NewTableElsewhere(mem, mem', root, nodes, nodes', f, i, g, w);
    }
  }
}
