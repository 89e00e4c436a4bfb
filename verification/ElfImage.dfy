/** Reading an ELF64 file (exec/elf.c): validation, load segments, address translation and the
    dynamic section. */
module ElfImage {
  import opened LittleEndian

  const EHDR: nat := 64
  const PHDR: nat := 56
  const DYN: nat := 16
  const PT_LOAD: nat := 1
  const PT_DYNAMIC: nat := 2
  const ET_EXEC: nat := 2
  const ET_DYN: nat := 3

  function U16(b: seq<byte>, off: nat): nat requires off + 2 <= |b| { FromLe(b[off..off + 2]) }
  function U32(b: seq<byte>, off: nat): nat requires off + 4 <= |b| { FromLe(b[off..off + 4]) }
  function U64(b: seq<byte>, off: nat): nat requires off + 8 <= |b| { FromLe(b[off..off + 8]) }

  /** range_ok: len bytes from off on are inside a file of the given size. */
  predicate RangeOk(size: nat, off: nat, len: nat) { off <= size && len <= size - off }

  function PhOff(image: seq<byte>): nat requires |image| >= EHDR { U64(image, 32) }
  function PhNum(image: seq<byte>): nat requires |image| >= EHDR { U16(image, 56) }

  /** elf64_validate */
  predicate Validate(image: seq<byte>) {
    && |image| >= EHDR
    && image[0] == 0x7F && image[1] == 0x45 && image[2] == 0x4C && image[3] == 0x46
    && image[4] == 2 && image[5] == 1
    && (U16(image, 16) == ET_EXEC || U16(image, 16) == ET_DYN) && U16(image, 18) == 62
    && U16(image, 54) == PHDR && PhNum(image) != 0
    && RangeOk(|image|, PhOff(image), PhNum(image) * PHDR)
  }

  /** A program header. */
  datatype Header = Header(kind: nat, offset: nat, vaddr: nat, filesz: nat, memsz: nat)

  /** A PT_LOAD segment. */
  datatype Segment = Segment(vaddr: nat, offset: nat, filesz: nat, memsz: nat)

  function Ph(image: seq<byte>, i: nat): Header
    requires Validate(image) && i < PhNum(image)
  {
    var at := PhOff(image) + i * PHDR;
    assert at + PHDR <= |image| by { assert i * PHDR + PHDR <= PhNum(image) * PHDR; }
    Header(U32(image, at), U64(image, at + 8), U64(image, at + 16), U64(image, at + 32), U64(image, at + 40))
  }

  function AsSegment(h: Header): Segment { Segment(h.vaddr, h.offset, h.filesz, h.memsz) }

  /** The PT_LOAD headers from header i on, in order. */
  function LoadsFrom(image: seq<byte>, i: nat): (segs: seq<Segment>)
    requires Validate(image) && i <= PhNum(image)
    decreases PhNum(image) - i
  {
    if i == PhNum(image) then []
    else if Ph(image, i).kind == PT_LOAD then [AsSegment(Ph(image, i))] + LoadsFrom(image, i + 1)
    else LoadsFrom(image, i + 1)
  }

  function Loads(image: seq<byte>): seq<Segment>
    requires Validate(image)
  {
    LoadsFrom(image, 0)
  }

  /** The file bytes of the segment are inside the image. */
  predicate InImage(image: seq<byte>, seg: Segment) { seg.filesz <= seg.memsz && seg.offset + seg.filesz <= |image| }

  predicate AllInImage(image: seq<byte>, segs: seq<Segment>) { forall k :: 0 <= k < |segs| ==> InImage(image, segs[k]) }

  lemma {:induction false} LoadsStep(image: seq<byte>, segs: seq<Segment>, i: nat)
    requires Validate(image) && i < PhNum(image) && Loads(image) == segs + LoadsFrom(image, i)
    ensures if Ph(image, i).kind == PT_LOAD
            then |Loads(image)| > |segs| && Loads(image)[|segs|] == AsSegment(Ph(image, i)) && Loads(image) == segs + [AsSegment(Ph(image, i))] + LoadsFrom(image, i + 1)
            else Loads(image) == segs + LoadsFrom(image, i + 1)
  {
  }

  /** elf64_parse_segments: succeeds exactly when the file is valid, has between 1 and `max` load
      segments, and all of them keep to the file; then it returns them all, in order. */
  method ParseSegments(image: seq<byte>, max: nat) returns (ok: bool, segs: seq<Segment>, entry: nat, pie: bool)
    ensures ok <==> Validate(image) && 0 < |Loads(image)| <= max && AllInImage(image, Loads(image))
    ensures ok ==> segs == Loads(image) && entry == U64(image, 24) && (pie <==> U16(image, 16) == ET_DYN)
  {
    ok, segs, entry, pie := false, [], 0, false;
    if !Validate(image) { return; }
    var i := 0;
    while i < PhNum(image)
      invariant 0 <= i <= PhNum(image) && |segs| <= max && AllInImage(image, segs)
      invariant Loads(image) == segs + LoadsFrom(image, i)
    {
      var h := Ph(image, i);
      LoadsStep(image, segs, i);
      if h.kind == PT_LOAD {
        if h.memsz < h.filesz || !RangeOk(|image|, h.offset, h.filesz) {
          assert !InImage(image, Loads(image)[|segs|]);
          return;
        }
        if |segs| >= max { return; }
        segs := segs + [AsSegment(h)];
      }
      i := i + 1;
    }
    if |segs| == 0 { return; }
    ok, entry, pie := true, U64(image, 24), U16(image, 16) == ET_DYN;
  }

  // ---- addresses to file offsets ----

  datatype MaybeOffset = NoOffset | Offset(o: nat)

  /** The address is in the memory of the segment, with the end computed in 64 bits. */
  predicate InMemory(seg: Segment, vaddr: nat) { seg.vaddr <= vaddr < (seg.vaddr + seg.memsz) % TWO64 }

  /** The offset for the first segment that has the address. */
  function OffsetIn(segs: seq<Segment>, vaddr: nat): MaybeOffset {
    if segs == [] then NoOffset
    else if InMemory(segs[0], vaddr) then Offset((segs[0].offset + (vaddr - segs[0].vaddr)) % TWO64)
    else OffsetIn(segs[1..], vaddr)
  }

  lemma {:induction false} OffsetStep(image: seq<byte>, vaddr: nat, i: nat)
    requires Validate(image) && i < PhNum(image)
    ensures var h := Ph(image, i);
            OffsetIn(LoadsFrom(image, i), vaddr) ==
              if h.kind == PT_LOAD && InMemory(AsSegment(h), vaddr) then Offset((h.offset + (vaddr - h.vaddr)) % TWO64)
              else OffsetIn(LoadsFrom(image, i + 1), vaddr)
  {
    if Ph(image, i).kind == PT_LOAD { assert LoadsFrom(image, i)[1..] == LoadsFrom(image, i + 1); }
  }

  /** elf64_vaddr_to_offset */
  method VaddrToOffset(image: seq<byte>, vaddr: nat) returns (r: MaybeOffset)
    requires Validate(image)
    ensures r == OffsetIn(Loads(image), vaddr)
  {
    var i, n := 0, PhNum(image);
    r := NoOffset;
    while i < n && r == NoOffset
      invariant 0 <= i <= n == PhNum(image)
      invariant OffsetIn(Loads(image), vaddr) == if r == NoOffset then OffsetIn(LoadsFrom(image, i), vaddr) else r
    {
      r := OffsetAt(image, vaddr, i);
      i := i + 1;
    }
  }

  /** One round of its loop. */
  method OffsetAt(image: seq<byte>, vaddr: nat, i: nat) returns (r: MaybeOffset)
    requires Validate(image) && i < PhNum(image)
    ensures OffsetIn(LoadsFrom(image, i), vaddr) == if r == NoOffset then OffsetIn(LoadsFrom(image, i + 1), vaddr) else r
  {
    var h := Ph(image, i);
    OffsetStep(image, vaddr, i);
    r := if h.kind == PT_LOAD && InMemory(AsSegment(h), vaddr) then Offset((h.offset + (vaddr - h.vaddr)) % TWO64) else NoOffset;
  }

  /** Which segment the offset comes from. */
  lemma {:induction false} OffsetFrom(segs: seq<Segment>, vaddr: nat) returns (k: nat)
    requires OffsetIn(segs, vaddr) != NoOffset
    ensures k < |segs| && InMemory(segs[k], vaddr) && OffsetIn(segs, vaddr) == Offset((segs[k].offset + (vaddr - segs[k].vaddr)) % TWO64)
    ensures forall j :: 0 <= j < k ==> !InMemory(segs[j], vaddr)
  {
    if InMemory(segs[0], vaddr) {
      k := 0;
    } else {
      k := OffsetFrom(segs[1..], vaddr);
      k := k + 1;
    }
  }

  lemma {:induction false} OffsetExists(segs: seq<Segment>, vaddr: nat, k: nat)
    requires k < |segs| && InMemory(segs[k], vaddr)
    ensures OffsetIn(segs, vaddr) != NoOffset
  {
    if !InMemory(segs[0], vaddr) { OffsetExists(segs[1..], vaddr, k - 1); }
  }

  /** The offset is one of the segment's file bytes exactly when the address is not in its
      zero-filled tail: the search goes by the size in memory, not the size in the file. */
  lemma {:induction false} OffsetInFile(segs: seq<Segment>, vaddr: nat, k: nat, o: nat)
    requires k < |segs| && InMemory(segs[k], vaddr) && (forall j :: 0 <= j < k ==> !InMemory(segs[j], vaddr))
    requires OffsetIn(segs, vaddr) == Offset(o) && segs[k].offset + segs[k].memsz <= TWO64
    ensures segs[k].offset <= o < segs[k].offset + segs[k].filesz <==> vaddr - segs[k].vaddr < segs[k].filesz
  {
    var i := OffsetFrom(segs, vaddr);
    assert i == k;
  }

  /** So a zero-filled address gets an offset that does not hold its byte. */
  lemma ZeroTailGetsOffset()
    ensures var seg := Segment(0x1000, 0, 0x10, 0x20); OffsetIn([seg], 0x1018) == Offset(0x18) && !(0x18 < seg.offset + seg.filesz)
  {
  }

  // ---- the dynamic section ----

  const DT_STRTAB: nat := 5
  const DT_SYMTAB: nat := 6
  const DT_RELA: nat := 7
  const DT_RELASZ: nat := 8
  const DT_RELAENT: nat := 9
  const DT_SYMENT: nat := 11
  const DT_RELACOUNT: nat := 0x6FFF_FFF9

  datatype Dynamic = Dynamic(relaOffset: nat, relaSize: nat, relaEnt: nat, relaCount: nat, symtab: nat, strtab: nat, symEnt: nat)

  /** One entry of the section: sizes are taken over, addresses only if they translate. */
  function DynStep(segs: seq<Segment>, tag: nat, value: nat, d: Dynamic): Dynamic {
    var at := OffsetIn(segs, value);
    if tag == DT_RELA && at.Offset? then d.(relaOffset := at.o)
    else if tag == DT_RELASZ then d.(relaSize := value)
    else if tag == DT_RELAENT then d.(relaEnt := value)
    else if tag == DT_RELACOUNT then d.(relaCount := value)
    else if tag == DT_SYMTAB && at.Offset? then d.(symtab := at.o)
    else if tag == DT_STRTAB && at.Offset? then d.(strtab := at.o)
    else if tag == DT_SYMENT then d.(symEnt := value)
    else d
  }

  /** The first n entries of the section at offset off. */
  function DynFold(image: seq<byte>, segs: seq<Segment>, off: nat, n: nat): Dynamic
    requires off + n * DYN <= |image|
  {
    if n == 0 then Dynamic(0, 0, 0, 0, 0, 0, 0)
    else
      var at := off + (n - 1) * DYN;
      DynStep(segs, U64(image, at), U64(image, at + 8), DynFold(image, segs, off, n - 1))
  }

  /** The value of the last of the first n entries with the given tag, 0 if there is none. */
  function LastValue(image: seq<byte>, off: nat, n: nat, tag: nat): nat
    requires off + n * DYN <= |image|
  {
    if n == 0 then 0
    else if U64(image, off + (n - 1) * DYN) == tag then U64(image, off + (n - 1) * DYN + 8)
    else LastValue(image, off, n - 1, tag)
  }

  /** Of several entries with one tag the last counts. */
  lemma {:induction false} LastEntryCounts(image: seq<byte>, segs: seq<Segment>, off: nat, n: nat)
    requires off + n * DYN <= |image|
    ensures var d := DynFold(image, segs, off, n);
            && d.relaSize == LastValue(image, off, n, DT_RELASZ) && d.relaEnt == LastValue(image, off, n, DT_RELAENT)
            && d.relaCount == LastValue(image, off, n, DT_RELACOUNT) && d.symEnt == LastValue(image, off, n, DT_SYMENT)
  {
    if n > 0 { LastEntryCounts(image, segs, off, n - 1); }
  }

  /** The first PT_DYNAMIC header from i on. */
  function DynHeader(image: seq<byte>, i: nat): (h: nat)
    requires Validate(image) && i <= PhNum(image)
    ensures i <= h <= PhNum(image) && (h < PhNum(image) ==> Ph(image, h).kind == PT_DYNAMIC)
    ensures forall j: nat :: i <= j < h ==> Ph(image, j).kind != PT_DYNAMIC
    decreases PhNum(image) - i
  {
    if i == PhNum(image) || Ph(image, i).kind == PT_DYNAMIC then i else DynHeader(image, i + 1)
  }

  /** The dynamic section is there and inside the file. */
  predicate HasDynamic(image: seq<byte>) {
    && Validate(image) && DynHeader(image, 0) < PhNum(image)
    && var h := Ph(image, DynHeader(image, 0)); RangeOk(|image|, h.offset, h.memsz)
  }

  function DynamicOf(image: seq<byte>): Dynamic
    requires HasDynamic(image)
  {
    var h := Ph(image, DynHeader(image, 0));
    DynFold(image, Loads(image), h.offset, h.memsz / DYN)
  }

  /** elf64_parse_dynamic */
  method ParseDynamic(image: seq<byte>) returns (ok: bool, d: Dynamic)
    ensures ok <==> HasDynamic(image) && DynamicOf(image).relaSize != 0 && DynamicOf(image).relaEnt != 0
    ensures ok ==> d == DynamicOf(image)
  {
    ok, d := false, Dynamic(0, 0, 0, 0, 0, 0, 0);
    if !Validate(image) { return; }
    var i, n: nat := 0, PhNum(image);
    while i < n && Ph(image, i).kind != PT_DYNAMIC
      invariant 0 <= i <= n == PhNum(image) && DynHeader(image, 0) == DynHeader(image, i)
    {
      i := i + 1;
    }
    if i == n { return; }
    var h := Ph(image, i);
    if !RangeOk(|image|, h.offset, h.memsz) { return; }
    d := ReadDynamic(image, h.offset, h.memsz / DYN);
    ok := d.relaSize != 0 && d.relaEnt != 0;
  }

  method ReadDynamic(image: seq<byte>, off: nat, count: nat) returns (d: Dynamic)
    requires Validate(image) && off + count * DYN <= |image|
    ensures d == DynFold(image, Loads(image), off, count)
  {
    d := Dynamic(0, 0, 0, 0, 0, 0, 0);
    var j: nat := 0;
    while j < count
      invariant j <= count && d == DynFold(image, Loads(image), off, j)
    {
      d := ReadEntry(image, off + j * DYN, d);
      j := j + 1;
    }
  }

  method ReadEntry(image: seq<byte>, at: nat, d: Dynamic) returns (d': Dynamic)
    requires Validate(image) && at + DYN <= |image|
    ensures d' == DynStep(Loads(image), U64(image, at), U64(image, at + 8), d)
  {
    var tag, value := U64(image, at), U64(image, at + 8);
    d' := d;
    if tag == DT_RELA || tag == DT_SYMTAB || tag == DT_STRTAB {
      var o := VaddrToOffset(image, value);
      if o.Offset? {
        d' := if tag == DT_RELA then d.(relaOffset := o.o) else if tag == DT_SYMTAB then d.(symtab := o.o) else d.(strtab := o.o);
      }
    } else if tag == DT_RELASZ {
      d' := d.(relaSize := value);
    } else if tag == DT_RELAENT {
      d' := d.(relaEnt := value);
    } else if tag == DT_RELACOUNT {
      d' := d.(relaCount := value);
    } else if tag == DT_SYMENT {
      d' := d.(symEnt := value);
    }
  }
}
