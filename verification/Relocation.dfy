/** Applying the relocations of a position-independent program (apply_relocations), and what two
    loads at different bases have in common. */
module Relocation {
  import opened LittleEndian
  import opened FrameAllocation
  import opened PageTables
  import opened Paging
  import opened FrameLedger
  import opened AddressSpaces
  import opened UserMemory
  import opened ElfImage
  import opened Loading

  const RELA: nat := 24
  const SYM: nat := 24
  const R_64: nat := 1
  const R_GLOB_DAT: nat := 6
  const R_JUMP_SLOT: nat := 7
  const R_RELATIVE: nat := 8
  // ---- one word of user memory ----

  /** The aligned word that w is in. */
  function WordOf(w: nat): nat { w - w % 8 }

  lemma {:induction false} WordInPage(slot: nat, w: nat)
    requires slot % 8 == 0
    ensures slot % PAGE / 8 < SLOTS && 8 * (slot % PAGE / 8) == slot % PAGE
    ensures WordOf(w) == slot <==> w / PAGE == slot / PAGE && slot % PAGE <= w % PAGE < slot % PAGE + 8
    ensures WordOf(w) == slot ==> w % PAGE - slot % PAGE == w % 8
  {
    var p, r, q, u := slot / PAGE, slot % PAGE, w / PAGE, w % PAGE;
    assert slot == p * PAGE + r && w == q * PAGE + u;
    assert r % 8 == 0 by { assert slot == 8 * (p * 512) + r; }
    assert w % 8 == u % 8 by { assert w == 8 * (q * 512) + u; }
  }

  lemma {:induction false} PutWordByte(p: Page, i: nat, v: nat, o: nat)
    requires |p| == PAGE && i < SLOTS && o < PAGE
    ensures PutWord(p, i, v)[o] == if 8 * i <= o < 8 * i + 8 then ToLe(v, 8)[o - 8 * i] else p[o]
  {
  }

  /** The word at `slot` has been set to `value`; nothing else has changed. */
  ghost predicate WordSet(root: nat, lapic: nat, s: Life, t: Life, slot: nat, value: nat) {
    forall w: nat :: InUser(w, lapic) ==> At(root, t, w) == if WordOf(w) == slot then Byte(ToLe(value, 8)[w % 8]) else At(root, s, w)
  }

  lemma {:induction false} SpaceOf(root: nat, s: Life, all: set<nat>, lapic: nat)
    requires LifeOwned(root, s, all, lapic)
    ensures forall f :: f in s.nodes ==> f !in s.free
  {
  }

  /** Writes a word through paging_translate; fails when the address is not mapped. */
  method WriteWord(m: Machine, root: nat, slot: nat, value: nat, ghost s: Life, ghost all: set<nat>, ghost lapic: nat) returns (ok: bool, ghost t: Life)
    requires Sound(m, root, s, all, lapic) && InUser(slot, lapic) && slot % 8 == 0
    modifies m`mem
    ensures !ok ==> At(root, s, slot) == Absent && m.mem == old(m.mem) && t == s
    ensures ok ==> Sound(m, root, t, all, lapic) && t.held == s.held && WordSet(root, lapic, s, t, slot, value) && At(root, s, slot) != Absent
  {
    SpaceOf(root, s, all, lapic);
    var phys := m.TranslateAddr(root, slot, s.nodes);
    t := s;
    SlotFrame(root, s, all, lapic, slot, phys);
    ok := phys != 0;
    if ok {
      t := StoreWord(m, root, phys / PAGE, phys % PAGE / 8, slot, value, s, all, lapic);
    }
  }

  /** What paging_translate returns for a word of user memory. */
  lemma {:induction false} SlotFrame(root: nat, s: Life, all: set<nat>, lapic: nat, slot: nat, phys: nat)
    requires LifeOwned(root, s, all, lapic) && |s.mem| == MAX_FRAMES && InUser(slot, lapic) && slot % 8 == 0
    requires phys == match Translate(s.mem, root, s.nodes, slot) case Unmapped => 0 case Mapped(p) => p
    ensures phys == 0 <==> At(root, s, slot) == Absent
    ensures phys != 0 ==> phys / PAGE in s.pages && s.pages[phys / PAGE] == slot / PAGE && phys / PAGE < MAX_FRAMES && phys / PAGE !in s.nodes && phys % PAGE == slot % PAGE
  {
    AtPage(root, s, all, lapic, slot);
    if At(root, s, slot) != Absent { AtIsTranslated(root, s, slot); }
  }

  method StoreWord(m: Machine, ghost root: nat, f: nat, i: nat, ghost slot: nat, value: nat, ghost s: Life, ghost all: set<nat>, ghost lapic: nat) returns (ghost t: Life)
    requires Sound(m, root, s, all, lapic) && slot % 8 == 0
    requires f in s.pages && s.pages[f] == slot / PAGE && f < MAX_FRAMES && f !in s.nodes && i == slot % PAGE / 8
    modifies m`mem
    ensures Sound(m, root, t, all, lapic) && t.held == s.held && WordSet(root, lapic, s, t, slot, value)
  {
    WordInPage(slot, slot);
    var page := PutWord(m.mem[f], i, value);
    m.Fill(f, page);
    t := s.(mem := s.mem[f := page]);
    FillKeeps(root, s, all, lapic, f, page);
    WordFilled(root, s, t, all, lapic, f, i, slot, value, page);
  }

  lemma {:induction false} WordFilled(root: nat, s: Life, t: Life, all: set<nat>, lapic: nat, f: nat, i: nat, slot: nat, value: nat, page: Page)
    requires LifeOwned(root, s, all, lapic) && f < |s.mem| == MAX_FRAMES && |s.mem[f]| == PAGE && f !in s.nodes && f in s.pages && s.pages[f] == slot / PAGE
    requires slot % 8 == 0 && i == slot % PAGE / 8 && i < SLOTS && page == PutWord(s.mem[f], i, value) && t == s.(mem := s.mem[f := page])
    ensures WordSet(root, lapic, s, t, slot, value)
  {
    forall w: nat | InUser(w, lapic)
      ensures At(root, t, w) == if WordOf(w) == slot then Byte(ToLe(value, 8)[w % 8]) else At(root, s, w)
    {
      FillAt(root, s, all, lapic, f, page, w);
      if w / PAGE == slot / PAGE {
        PageOfFrame(root, s, all, lapic, f, w);
        AtPage(root, s, all, lapic, w);
      }
      WordByte(s.mem[f], i, slot, value, page, w);
    }
  }

  lemma {:induction false} WordByte(before: Page, i: nat, slot: nat, value: nat, page: Page, w: nat)
    requires |before| == PAGE && slot % 8 == 0 && i == slot % PAGE / 8 && i < SLOTS && page == PutWord(before, i, value)
    ensures w / PAGE == slot / PAGE ==> page[w % PAGE] == if WordOf(w) == slot then ToLe(value, 8)[w % 8] else before[w % PAGE]
    ensures w / PAGE != slot / PAGE ==> WordOf(w) != slot
  {
    WordInPage(slot, w);
    PutWordByte(before, i, value, w % PAGE);
  }

  // ---- the relocation table ----

  /** Entry i of the table is inside the file. */
  predicate EntryIn(image: seq<byte>, d: Dynamic, i: nat) { d.relaOffset + i * d.relaEnt + RELA <= |image| }

  datatype Rela = Rela(offset: nat, info: nat, addend: nat)

  function RelaAt(image: seq<byte>, d: Dynamic, i: nat): Rela
    requires EntryIn(image, d, i)
  {
    var at := d.relaOffset + i * d.relaEnt;
    Rela(U64(image, at), U64(image, at + 8), U64(image, at + 16))
  }

  datatype Symbol = Undefined | Defined(value: nat)

  /** Offset of a symbol, computed in 64 bits. */
  function SymbolOffset(d: Dynamic, sym: nat): nat { (d.symtab + sym * d.symEnt) % TWO64 }

  /** resolve_symbol */
  function Resolve(image: seq<byte>, d: Dynamic, sym: nat, base: nat): Symbol {
    if d.symtab == 0 || d.symEnt < SYM then Undefined
    else
      var off := SymbolOffset(d, sym);
      if off + SYM > |image| then Undefined
      else if U16(image, off + 6) == 0 then Undefined
      else Defined((base + U64(image, off + 8)) % TWO64)
  }

  /** What one entry asks for: nothing, or a word at an address. */
  datatype Fix = Keep | Put(slot: nat, value: nat)

  function FixFor(image: seq<byte>, d: Dynamic, r: Rela, base: nat): Fix {
    var kind, slot := r.info % TWO32, (base + r.offset) % TWO64;
    if kind == R_RELATIVE then Put(slot, (base + r.addend) % TWO64)
    else if kind == R_GLOB_DAT || kind == R_JUMP_SLOT then
      match Resolve(image, d, r.info / TWO32, base)
      case Undefined => Keep
      case Defined(v) => Put(slot, v)
    else if kind == R_64 then
      match Resolve(image, d, r.info / TWO32, base)
      case Undefined => Put(slot, r.addend % TWO64)
      case Defined(v) => Put(slot, (v + r.addend) % TWO64)
    else Keep
  }

  function FixAt(image: seq<byte>, d: Dynamic, base: nat, i: nat): Fix
    requires EntryIn(image, d, i)
  {
    FixFor(image, d, RelaAt(image, d, i), base)
  }

  ghost predicate TableIn(image: seq<byte>, d: Dynamic, n: nat) { forall i: nat :: i < n ==> EntryIn(image, d, i) }

  /** The words asked for are aligned words of the user half. */
  ghost predicate SlotsOk(image: seq<byte>, d: Dynamic, base: nat, n: nat, lapic: nat)
    requires TableIn(image, d, n)
  {
    forall i: nat :: i < n ==> SlotOk(FixAt(image, d, base, i), lapic)
  }

  predicate SlotOk(fix: Fix, lapic: nat) { fix.Put? ==> InUser(fix.slot, lapic) && fix.slot % 8 == 0 }

  /** What the first n entries ask for. */
  function Fixes(image: seq<byte>, d: Dynamic, base: nat, n: nat): (fixes: seq<Fix>)
    requires forall i: nat :: i < n ==> EntryIn(image, d, i)
    ensures |fixes| == n && forall i: nat :: i < n ==> fixes[i] == FixAt(image, d, base, i)
  {
    if n == 0 then [] else Fixes(image, d, base, n - 1) + [FixAt(image, d, base, n - 1)]
  }

  /** The fix asks for the word `slot`. */
  predicate Asks(fix: Fix, slot: nat) { fix.Put? && fix.slot == slot }

  /** The last of the first n fixes that asks for the word `slot`; n if none does. */
  function LastFix(fixes: seq<Fix>, n: nat, slot: nat): (k: nat)
    requires n <= |fixes|
    ensures k <= n && (k < n ==> Asks(fixes[k], slot))
    ensures forall j: nat :: (if k < n then k < j < n else j < n) ==> !Asks(fixes[j], slot)
  {
    if n == 0 then 0
    else if Asks(fixes[n - 1], slot) then n - 1
    else var k := LastFix(fixes, n - 1, slot); if k == n - 1 then n else k
  }

  /** The byte at w after the first n fixes have been applied over `before`. */
  function FixedByte(before: MaybeByte, fixes: seq<Fix>, n: nat, w: nat): MaybeByte
    requires n <= |fixes|
  {
    var k := LastFix(fixes, n, WordOf(w));
    if k == n then before else Byte(ToLe(fixes[k].value, 8)[w % 8])
  }

  ghost predicate FixedAt(root: nat, s: Life, t: Life, fixes: seq<Fix>, n: nat, w: nat)
    requires n <= |fixes|
  {
    At(root, t, w) == FixedByte(At(root, s, w), fixes, n, w)
  }

  ghost predicate Fixed(root: nat, lapic: nat, s: Life, t: Life, fixes: seq<Fix>, n: nat)
    requires n <= |fixes|
  {
    forall w: nat :: InUser(w, lapic) ==> FixedAt(root, s, t, fixes, n, w)
  }

  lemma {:induction false} FixOne(root: nat, lapic: nat, s: Life, t: Life, t': Life, fixes: seq<Fix>, i: nat, next: nat)
    requires i < |fixes| && next == i + 1 && Fixed(root, lapic, s, t, fixes, i)
    requires match fixes[i]
             case Keep => t' == t
             case Put(slot, value) => WordSet(root, lapic, t, t', slot, value)
    ensures Fixed(root, lapic, s, t', fixes, next)
  {
    forall w: nat | InUser(w, lapic) ensures FixedAt(root, s, t', fixes, next, w) {
      assert FixedAt(root, s, t, fixes, i, w);
      FixOneByte(At(root, s, w), At(root, t, w), At(root, t', w), fixes, i, next, w);
    }
  }

  lemma {:induction false} FixOneByte(a0: MaybeByte, a: MaybeByte, a': MaybeByte, fixes: seq<Fix>, i: nat, next: nat, w: nat)
    requires i < |fixes| && next == i + 1 && a == FixedByte(a0, fixes, i, w)
    requires match fixes[i]
             case Keep => a' == a
             case Put(slot, value) => a' == if WordOf(w) == slot then Byte(ToLe(value, 8)[w % 8]) else a
    ensures a' == FixedByte(a0, fixes, next, w)
  {
  }

  /** Some entry's address was not mapped. */
  ghost predicate SlotMissing(root: nat, s: Life, fixes: seq<Fix>) {
    exists i: nat :: i < |fixes| && fixes[i].Put? && At(root, s, fixes[i].slot) == Absent
  }

  /** The loop of apply_relocations. */
  method ApplyTable(m: Machine, root: nat, image: seq<byte>, d: Dynamic, base: nat, n: nat, ghost fixes: seq<Fix>, ghost s: Life, ghost all: set<nat>, ghost lapic: nat) returns (ok: bool, ghost t: Life)
    requires Sound(m, root, s, all, lapic) && TableIn(image, d, n) && SlotsOk(image, d, base, n, lapic) && fixes == Fixes(image, d, base, n)
    modifies m`mem
    ensures !ok ==> Sound(m, root, t, all, lapic) && t.held == s.held && SlotMissing(root, s, fixes)
    ensures ok ==> Sound(m, root, t, all, lapic) && t.held == s.held && Fixed(root, lapic, s, t, fixes, n)
  {
    var i: nat := 0;
    ok, t := true, s;
    while ok && i < n
      invariant 0 <= i <= n == |fixes|
      invariant ok ==> Sound(m, root, t, all, lapic) && t.held == s.held && Fixed(root, lapic, s, t, fixes, i)
      invariant !ok ==> Sound(m, root, t, all, lapic) && t.held == s.held && SlotMissing(root, s, fixes)
    {
      assert EntryIn(image, d, i) && SlotOk(FixAt(image, d, base, i), lapic);
      var next: nat := i + 1;
      ok, t := ApplyFix(m, root, FixFor(image, d, RelaAt(image, d, i), base), fixes, i, next, s, t, all, lapic);
      i := next;
    }
    assert ok ==> i == n;
  }

  /** One entry: nothing, or a word written through paging_translate. */
  method ApplyFix(m: Machine, root: nat, fix: Fix, ghost fixes: seq<Fix>, ghost i: nat, ghost next: nat, ghost s: Life, ghost t: Life, ghost all: set<nat>, ghost lapic: nat)
    returns (ok: bool, ghost t': Life)
    requires Sound(m, root, t, all, lapic) && i < |fixes| && fixes[i] == fix && next == i + 1 && SlotOk(fix, lapic) && Fixed(root, lapic, s, t, fixes, i)
    modifies m`mem
    ensures !ok ==> Sound(m, root, t', all, lapic) && t'.held == t.held && SlotMissing(root, s, fixes)
    ensures ok ==> Sound(m, root, t', all, lapic) && t'.held == t.held && Fixed(root, lapic, s, t', fixes, next)
  {
    ok, t' := true, t;
    if fix.Put? {
      ok, t' := WriteWord(m, root, fix.slot, fix.value, t, all, lapic);
      if !ok { MissingNow(root, lapic, s, t, fixes, i); }
    }
    if ok { FixOne(root, lapic, s, t, t', fixes, i, next); }
  }

  lemma {:induction false} MissingNow(root: nat, lapic: nat, s: Life, t: Life, fixes: seq<Fix>, i: nat)
    requires i < |fixes| && Fixed(root, lapic, s, t, fixes, i) && fixes[i].Put? && InUser(fixes[i].slot, lapic) && At(root, t, fixes[i].slot) == Absent
    ensures SlotMissing(root, s, fixes)
  {
    assert FixedAt(root, s, t, fixes, i, fixes[i].slot);
  }

  /** The image has a relocation table that apply_relocations uses. */
  predicate HasTable(image: seq<byte>) { HasDynamic(image) && DynamicOf(image).relaSize != 0 && DynamicOf(image).relaEnt >= RELA }

  function TableSize(d: Dynamic): nat
    requires d.relaEnt > 0
  {
    d.relaSize / d.relaEnt
  }

  /** What the table of the image asks for. */
  function ImageFixes(image: seq<byte>, base: nat): (fixes: seq<Fix>)
    requires HasTable(image) && forall i: nat :: i < TableSize(DynamicOf(image)) ==> EntryIn(image, DynamicOf(image), i)
    ensures |fixes| == TableSize(DynamicOf(image))
  {
    Fixes(image, DynamicOf(image), base, TableSize(DynamicOf(image)))
  }

  /** apply_relocations */
  method ApplyRelocations(m: Machine, root: nat, image: seq<byte>, base: nat, ghost s: Life, ghost all: set<nat>, ghost lapic: nat) returns (ok: bool, ghost t: Life)
    requires Sound(m, root, s, all, lapic)
    requires HasTable(image) ==> var d := DynamicOf(image); TableIn(image, d, TableSize(d)) && SlotsOk(image, d, base, TableSize(d), lapic)
    modifies m`mem
    ensures !HasTable(image) ==> ok && t == s && Sound(m, root, s, all, lapic)
    ensures HasTable(image) && ok ==> Sound(m, root, t, all, lapic) && t.held == s.held && Fixed(root, lapic, s, t, ImageFixes(image, base), TableSize(DynamicOf(image)))
    ensures !ok ==> HasTable(image) && Sound(m, root, t, all, lapic) && t.held == s.held && SlotMissing(root, s, ImageFixes(image, base))
  {
    var found, d := ParseDynamic(image);
    ok, t := true, s;
    if found && d.relaEnt >= RELA {
      ok, t := ApplyTable(m, root, image, d, base, TableSize(d), Fixes(image, d, base, TableSize(d)), s, all, lapic);
    }
  }

  // ---- two loads of one image ----

  /** The fixes are those of base-relative entries: offsets and addends taken from `relas`, without
      wrap-around of the addresses. */
  ghost predicate Relative(fixes: seq<Fix>, relas: seq<Rela>, base: nat) {
    |fixes| == |relas| && forall i: nat :: i < |fixes| ==> fixes[i] == Put(base + relas[i].offset, Value(base, relas[i].addend))
  }

  /** The value of a relocated word. */
  function Value(base: nat, addend: nat): nat { (base + addend) % TWO64 }

  /** A table of RELATIVE entries gives such fixes. */
  lemma {:induction false} RelativeTable(image: seq<byte>, d: Dynamic, base: nat, n: nat, relas: seq<Rela>)
    requires TableIn(image, d, n) && |relas| == n && (forall i: nat :: i < n ==> relas[i] == RelaAt(image, d, i))
    requires forall i: nat :: i < n ==> relas[i].info % TWO32 == R_RELATIVE && base + relas[i].offset < TWO64
    ensures Relative(Fixes(image, d, base, n), relas, base)
  {
    var fixes := Fixes(image, d, base, n);
    forall i: nat | i < n ensures fixes[i] == Put(base + relas[i].offset, Value(base, relas[i].addend)) {
      assert EntryIn(image, d, i) && relas[i] == RelaAt(image, d, i);
      RelativeFix(image, d, relas[i], base);
    }
  }

  lemma {:induction false} RelativeFix(image: seq<byte>, d: Dynamic, r: Rela, base: nat)
    requires r.info % TWO32 == R_RELATIVE && base + r.offset < TWO64
    ensures FixFor(image, d, r, base) == Put(base + r.offset, Value(base, r.addend))
  {
  }

  /** Which entry decides an image-relative word does not depend on the base. */
  lemma {:induction false} SameLastFix(fixes1: seq<Fix>, fixes2: seq<Fix>, relas: seq<Rela>, n: nat, base1: nat, base2: nat, slot1: nat, slot2: nat)
    requires Relative(fixes1, relas, base1) && Relative(fixes2, relas, base2) && n <= |relas| && slot1 - base1 == slot2 - base2
    ensures LastFix(fixes1, n, slot1) == LastFix(fixes2, n, slot2)
  {
    if n > 0 {
      assert Asks(fixes1[n - 1], slot1) <==> Asks(fixes2[n - 1], slot2);
      SameLastFix(fixes1, fixes2, relas, n - 1, base1, base2, slot1, slot2);
    }
  }

  lemma {:induction false} CoversShift(seg: Segment, base: nat, x: nat)
    requires base % PAGE == 0
    ensures Covers(seg, base, base + x) <==> Covers(seg, 0, x)
  {
    var b := base / PAGE;
    assert base == b * PAGE;
    PageShift(b, seg.vaddr);
    PageShift(b, seg.vaddr + seg.memsz + PAGE - 1);
    PageShift(b, x);
  }

  lemma {:induction false} PageShift(b: nat, x: nat)
    ensures (b * PAGE + x) / PAGE == b + x / PAGE
  {
  }

  lemma {:induction false} HolderShift(segs: seq<Segment>, base: nat, n: nat, x: nat)
    requires n <= |segs| && base % PAGE == 0
    ensures Holder(segs, base, n, base + x) == Holder(segs, 0, n, x)
  {
    if n > 0 {
      CoversShift(segs[n - 1], base, x);
      HolderShift(segs, base, n - 1, x);
    }
  }

  /** What is loaded at an image-relative address that has a segment does not depend on the base. */
  lemma {:induction false} LoadedShift(before: MaybeByte, image: seq<byte>, segs: seq<Segment>, base: nat, x: nat, w: nat)
    requires AllInImage(image, segs) && base % PAGE == 0 && Holder(segs, 0, |segs|, x) < |segs| && w == base + x
    ensures LoadedByte(before, image, segs, base, |segs|, w) == LoadedByte(Absent, image, segs, 0, |segs|, x)
    ensures Holder(segs, base, |segs|, w) < |segs|
  {
    HolderShift(segs, base, |segs|, x);
  }

  lemma {:induction false} WordShift(base: nat, x: nat, w: nat)
    requires base % PAGE == 0 && w == base + x
    ensures WordOf(w) == base + WordOf(x) && w % 8 == x % 8
  {
    var b := base / PAGE;
    assert base + x == 8 * (512 * b) + x;
  }

  /** A load of the image at `base`, followed by its relocations. */
  ghost predicate LoadedImage(root: nat, lapic: nat, s: Life, l: Life, t: Life, image: seq<byte>, segs: seq<Segment>, fixes: seq<Fix>, relas: seq<Rela>, base: nat)
    requires AllInImage(image, segs)
  {
    && base % PAGE == 0 && Loaded(root, lapic, s, l, image, segs, base, |segs|) && Apart(segs, base, lapic, |segs|)
    && Fixed(root, lapic, l, t, fixes, |fixes|) && Relative(fixes, relas, base)
  }

  /** The byte that a loaded image has at relative address x, address w. */
  lemma {:induction false} ImageByte(root: nat, lapic: nat, s: Life, l: Life, t: Life, image: seq<byte>, segs: seq<Segment>, fixes: seq<Fix>, relas: seq<Rela>, base: nat, x: nat, w: nat, j: nat)
    requires AllInImage(image, segs) && LoadedImage(root, lapic, s, l, t, image, segs, fixes, relas, base)
    requires Holder(segs, 0, |segs|, x) < |segs| && w == base + x && j == LastFix(fixes, |fixes|, WordOf(w))
    ensures j == |fixes| ==> At(root, t, w) == LoadedByte(Absent, image, segs, 0, |segs|, x)
    ensures j < |fixes| ==> At(root, t, w) == Byte(ToLe(Value(base, relas[j].addend), 8)[x % 8])
  {
    LoadedShift(At(root, s, w), image, segs, base, x, w);
    assert InUser(w, lapic) by { assert Covers(segs[Holder(segs, base, |segs|, w)], base, w); }
    assert LoadedAt(root, s, l, image, segs, base, |segs|, w) && FixedAt(root, l, t, fixes, |fixes|, w);
    WordShift(base, x, w);
  }

  /** Two 64-bit values differ by delta. */
  predicate DifferBy(v1: nat, v2: nat, delta: int) { (v2 - v1 - delta) % TWO64 == 0 }

  /** Loading one image at two bases gives the same bytes at every relative address x of its pages
      (w1 and w2), but for the relocated words, whose values differ by the difference of the bases. */
  lemma {:induction false} TwoBases(root1: nat, root2: nat, lapic: nat, s1: Life, l1: Life, t1: Life, s2: Life, l2: Life, t2: Life, image: seq<byte>, segs: seq<Segment>,
                                    fixes1: seq<Fix>, fixes2: seq<Fix>, relas: seq<Rela>, base1: nat, base2: nat, x: nat, w1: nat, w2: nat, j: nat)
    requires AllInImage(image, segs) && w1 == base1 + x && w2 == base2 + x
    requires LoadedImage(root1, lapic, s1, l1, t1, image, segs, fixes1, relas, base1) && LoadedImage(root2, lapic, s2, l2, t2, image, segs, fixes2, relas, base2)
    requires Holder(segs, 0, |segs|, x) < |segs| && j == LastFix(fixes1, |fixes1|, WordOf(w1))
    ensures j == |relas| ==> At(root1, t1, w1) == At(root2, t2, w2)
    ensures j < |relas| ==>
              var c := relas[j].addend;
              && At(root1, t1, w1) == Byte(ToLe(Value(base1, c), 8)[x % 8]) && At(root2, t2, w2) == Byte(ToLe(Value(base2, c), 8)[x % 8])
              && DifferBy(Value(base1, c), Value(base2, c), base2 - base1)
  {
    TwoWords(fixes1, fixes2, relas, base1, base2, x, w1, w2, j);
    ImageByte(root1, lapic, s1, l1, t1, image, segs, fixes1, relas, base1, x, w1, j);
    ImageByte(root2, lapic, s2, l2, t2, image, segs, fixes2, relas, base2, x, w2, j);
  }

  lemma {:induction false} TwoWords(fixes1: seq<Fix>, fixes2: seq<Fix>, relas: seq<Rela>, base1: nat, base2: nat, x: nat, w1: nat, w2: nat, j: nat)
    requires Relative(fixes1, relas, base1) && Relative(fixes2, relas, base2)
    requires base1 % PAGE == 0 && base2 % PAGE == 0 && w1 == base1 + x && w2 == base2 + x && j == LastFix(fixes1, |fixes1|, WordOf(w1))
    ensures j == LastFix(fixes2, |fixes2|, WordOf(w2))
    ensures j < |relas| ==> DifferBy(Value(base1, relas[j].addend), Value(base2, relas[j].addend), base2 - base1)
  {
    WordShift(base1, x, w1);
    WordShift(base2, x, w2);
    SameLastFix(fixes1, fixes2, relas, |relas|, base1, base2, WordOf(w1), WordOf(w2));
    if j < |relas| { ModDifference(base1, base2, relas[j].addend); }
  }

  lemma {:induction false} ModDifference(a: nat, b: nat, c: nat)
    ensures DifferBy(Value(a, c), Value(b, c), b - a)
  {
    var p, q := (a + c) / TWO64, (b + c) / TWO64;
    assert (b + c) % TWO64 - (a + c) % TWO64 - (b - a) == (p - q) * TWO64;
  }
}
