/** The physical frame allocator of mem/mm/pmm.c: one bit per 4 KiB frame, 1 = free.

    The bitmap is kept byte by byte, as in the kernel.  `free` is the set of
    frames the bitmap describes; every operation is specified on that set. */
module FrameAllocation {
  import opened LittleEndian

  const FRAME_SIZE: nat := 4096
  const MAX_FRAMES: nat := 0x100_0000     // 64 GiB of 4 KiB frames
  const BITMAP_BYTES: nat := 0x20_0000
  const MAX_PHYS: nat := 0x10_0000_0000

  /** One entry of the multiboot memory map. */
  datatype MapEntry = MapEntry(addr: nat, length: nat, kind: nat)

  /** The bit of a bitmap byte that stands for frame `k` modulo 8. */
  function Mask(k: nat): bv8
    requires k < 8
  {
    if k == 0 then 1 else if k == 1 then 2 else if k == 2 then 4 else if k == 3 then 8
    else if k == 4 then 16 else if k == 5 then 32 else if k == 6 then 64 else 128
  }

  predicate BitSet(b: bv8, k: nat)
    requires k < 8
  {
    b & Mask(k) != 0
  }

  /** Setting or clearing one bit of a byte leaves the other seven alone. */
  lemma MaskIsolates(b: bv8, i: nat, j: nat)
    requires i < 8 && j < 8
    ensures BitSet(b | Mask(i), j) <==> i == j || BitSet(b, j)
    ensures BitSet(b & !Mask(i), j) <==> i != j && BitSet(b, j)
  {
  }

  /** Frames wholly or partly inside the byte range [start, end), rounded outwards
      as `reserve_range` does, with its 64-bit wrap-around. */
  predicate InRange(f: nat, start: nat, end: nat) {
    start < end && start / FRAME_SIZE <= f < (end + FRAME_SIZE - 1) % TWO64 / FRAME_SIZE
  }

  /** Frame `f` shares at least one byte with [start, end). */
  predicate Overlaps(f: nat, start: nat, end: nat) {
    start < end && start < (f + 1) * FRAME_SIZE && f * FRAME_SIZE < end
  }

  /** The frames `pmm_init` frees for one usable entry, clipped to the 64 GiB the bitmap covers. */
  predicate UsableBy(e: MapEntry, f: nat) {
    var sum := (e.addr + e.length) % TWO64;
    var end := if sum > MAX_PHYS then MAX_PHYS else sum;
    e.kind == 1 && e.addr < MAX_PHYS && e.addr / FRAME_SIZE <= f < (end + FRAME_SIZE - 1) / FRAME_SIZE
  }

  predicate ReservedBy(e: MapEntry, f: nat) {
    e.kind != 1 && InRange(f, e.addr, (e.addr + e.length) % TWO64)
  }

  /** Addresses and lengths of the map are 64-bit words. */
  ghost predicate EntriesFit(entries: seq<MapEntry>) {
    forall i :: 0 <= i < |entries| ==> entries[i].addr < TWO64 && entries[i].length < TWO64
  }

  ghost predicate Usable(entries: seq<MapEntry>, f: nat) {
    exists i :: 0 <= i < |entries| && UsableBy(entries[i], f)
  }

  ghost predicate Firmware(entries: seq<MapEntry>, f: nat) {
    exists i :: 0 <= i < |entries| && ReservedBy(entries[i], f)
  }

  /** When rounding up does not leave 64 bits, `reserve_range` takes the frames that
      share a byte with the range, and no frame besides. */
  lemma RoundingCovers(f: nat, start: nat, end: nat)
    requires end + FRAME_SIZE - 1 < TWO64
    ensures InRange(f, start, end) <==> Overlaps(f, start, end)
  {
  }

  /** When is a firmware entry reserved completely?  Exactly when it is empty, starts
      above the bitmap, or its end can be rounded up without wrapping. */
  lemma ReservationComplete(e: MapEntry)
    requires e.kind != 1 && e.addr < TWO64 && e.length < TWO64
    ensures (forall f: nat :: f < MAX_FRAMES && Overlaps(f, e.addr, e.addr + e.length) ==> ReservedBy(e, f))
       <==> (e.length == 0 || e.addr >= MAX_PHYS || e.addr + e.length + FRAME_SIZE - 1 < TWO64)
  {
    if e.length > 0 && e.addr < MAX_PHYS && e.addr + e.length + FRAME_SIZE - 1 >= TWO64 {
      var f := e.addr / FRAME_SIZE;
      assert f < MAX_FRAMES && Overlaps(f, e.addr, e.addr + e.length) && !ReservedBy(e, f);
    }
  }

  /** A wrapping firmware entry is not reserved at all, although it has frames from 1 MiB on. */
  lemma WrappingEntryIsMissed()
    ensures var e := MapEntry(0x10_0000, TWO64 - 0x10_0000, 2);
            e.addr + e.length == TWO64 && (forall f: nat :: 0x100 <= f < MAX_FRAMES ==> Overlaps(f, 0x10_0000, TWO64)) && forall f: nat :: !ReservedBy(e, f)
  {
  }

  /** Nothing `pmm_init` reserves can be handed out later: a frame that meets its four
      exclusions shares no byte with the kernel, the bitmap, a firmware entry or the
      framebuffer, provided no range wraps past 64 bits. */
  lemma {:induction false} FreeFrameIsApart(entries: seq<MapEntry>, kernelEnd: nat, bitmapAddr: nat, framebuffer: nat, fbBytes: nat, f: nat, i: nat)
    requires EntriesFit(entries) && f < MAX_FRAMES && i < |entries| && entries[i].kind != 1
    requires kernelEnd + FRAME_SIZE <= TWO64 && bitmapAddr + BITMAP_BYTES + FRAME_SIZE <= TWO64 && framebuffer + fbBytes + FRAME_SIZE <= TWO64
    requires entries[i].addr >= MAX_PHYS || entries[i].addr + entries[i].length + FRAME_SIZE <= TWO64
    requires !InRange(f, 0, kernelEnd) && !InRange(f, bitmapAddr, bitmapAddr + BITMAP_BYTES) && !Firmware(entries, f)
    requires framebuffer != 0 ==> !InRange(f, framebuffer, (framebuffer + fbBytes) % TWO64)
    ensures !Overlaps(f, 0, kernelEnd) && !Overlaps(f, bitmapAddr, bitmapAddr + BITMAP_BYTES)
    ensures !Overlaps(f, entries[i].addr, entries[i].addr + entries[i].length)
    ensures framebuffer != 0 ==> !Overlaps(f, framebuffer, framebuffer + fbBytes)
  {
    RoundingCovers(f, 0, kernelEnd);
    RoundingCovers(f, bitmapAddr, bitmapAddr + BITMAP_BYTES);
    RoundingCovers(f, framebuffer, framebuffer + fbBytes);
    ReservationComplete(entries[i]);
    assert !ReservedBy(entries[i], f);
  }

  /** `after` is `before` without the frames lo, lo + 1, ..., hi - 1. */
  ghost predicate Without(before: set<nat>, after: set<nat>, lo: nat, hi: nat) {
    forall f :: f in after <==> f in before && !(lo <= f < hi)
  }

  /** `s` is the lowest start of `n` consecutive frames of `free`. */
  ghost predicate LowestRun(free: set<nat>, s: nat, n: nat) {
    && RunAt(free, s, n)
    && forall t: nat :: t < s ==> !RunAt(free, t, n)
  }

  ghost predicate RunAt(free: set<nat>, s: nat, n: nat) {
    forall f :: s <= f < s + n ==> f in free
  }

  /** The first free frame in the circular order that starts at `hint`. */
  ghost predicate NextFit(free: set<nat>, hint: nat, f: nat) {
    && f in free
    && (hint <= f ==> forall g :: hint <= g < f ==> g !in free)
    && (f < hint ==> (forall g :: hint <= g ==> g !in free) && forall g: nat :: g < f ==> g !in free)
  }

  lemma NextFitUnique(free: set<nat>, hint: nat, f: nat, g: nat)
    requires NextFit(free, hint, f) && NextFit(free, hint, g)
    ensures f == g
  {
  }

  class FrameAllocator {
    const bitmap: array<bv8>
    var freeFrames: nat
    var totalFrames: nat
    var totalMemory: nat
    var hint: nat
    ghost var free: set<nat>

    predicate FrameIsFree(f: nat)
      reads bitmap
      requires f < MAX_FRAMES && bitmap.Length == BITMAP_BYTES
    {
      BitSet(bitmap[f / 8], f % 8)
    }

    /** The bitmap, the abstract set and the counter agree. */
    ghost predicate Valid()
      reads this, bitmap
    {
      && bitmap.Length == BITMAP_BYTES
      && hint <= MAX_FRAMES
      && (forall f :: f in free ==> f < MAX_FRAMES)
      && (forall f {:trigger FrameIsFree(f)} {:trigger f in free} :: 0 <= f < MAX_FRAMES ==> (f in free <==> FrameIsFree(f)))
      && freeFrames == |free|
    }

    constructor ()
      ensures Valid() && free == {} && fresh(bitmap) && freeFrames == 0
    {
      bitmap := new bv8[BITMAP_BYTES](_ => 0);
      freeFrames, totalFrames, totalMemory, hint := 0, 0, 0, 0;
      free := {};
    }

    method MarkFree(f: nat)
      requires Valid() && f < MAX_FRAMES && f !in free
      modifies this`freeFrames, this`free, bitmap
      ensures Valid() && free == old(free) + {f}
    {
      ghost var before := bitmap[f / 8];
      bitmap[f / 8] := bitmap[f / 8] | Mask(f % 8);
      freeFrames := freeFrames + 1;
      free := free + {f};
      forall g | 0 <= g < MAX_FRAMES ensures g in free <==> FrameIsFree(g) {
        MaskIsolates(before, f % 8, g % 8);
        if g / 8 == f / 8 { assert g == f <==> g % 8 == f % 8; }
        assert old(FrameIsFree(g)) <==> g in old(free);
      }
    }

    method MarkUsed(f: nat)
      requires Valid() && f < MAX_FRAMES && f in free
      modifies this`freeFrames, this`free, bitmap
      ensures Valid() && free == old(free) - {f}
    {
      ghost var before := bitmap[f / 8];
      bitmap[f / 8] := bitmap[f / 8] & !Mask(f % 8);
      freeFrames := freeFrames - 1;
      free := free - {f};
      forall g | 0 <= g < MAX_FRAMES ensures g in free <==> FrameIsFree(g) {
        MaskIsolates(before, f % 8, g % 8);
        if g / 8 == f / 8 { assert g == f <==> g % 8 == f % 8; }
        assert old(FrameIsFree(g)) <==> g in old(free);
      }
    }

    /** mem/mm/pmm.c reserve_range */
    method ReserveRange(start: nat, end: nat)
      requires Valid() && end < TWO64
      modifies this`freeFrames, this`free, bitmap
      ensures Valid()
      ensures forall f :: f in free <==> f in old(free) && !InRange(f, start, end)
    {
      if end <= start { return; }
      var f0 := start / FRAME_SIZE;
      var f1 := (end + FRAME_SIZE - 1) % TWO64 / FRAME_SIZE;
      if f0 >= MAX_FRAMES { return; }
      if f1 > MAX_FRAMES { f1 := MAX_FRAMES; }
      var f := f0;
      while f < f1
        invariant Valid() && f0 <= f
        invariant f == f0 || f <= f1
        invariant forall g :: g in free <==> g in old(free) && !(f0 <= g < f)
      {
        if FrameIsFree(f) {
          MarkUsed(f);
        }
        f := f + 1;
      }
    }

    /** Step 1 of pmm_init for one entry of the memory map. */
    method FreeEntry(e: MapEntry)
      requires Valid() && e.addr < TWO64 && e.length < TWO64
      modifies this`freeFrames, this`free, this`totalMemory, bitmap
      ensures Valid()
      ensures forall f: nat :: f in free <==> f in old(free) || (f < MAX_FRAMES && UsableBy(e, f))
    {
      var start := e.addr;
      var end := (start + e.length) % TWO64;
      if start >= MAX_PHYS { return; }
      if end > MAX_PHYS { end := MAX_PHYS; }
      if e.kind == 1 {
        var f0 := start / FRAME_SIZE;
        var f1 := (end + FRAME_SIZE - 1) / FRAME_SIZE;
        var f := f0;
        while f < f1
          invariant Valid() && f0 <= f
          invariant f == f0 || f <= f1
          invariant forall g :: g in free <==> g in old(free) || (g < MAX_FRAMES && f0 <= g < f)
        {
          if f < MAX_FRAMES && !FrameIsFree(f) {
            MarkFree(f);
          }
          f := f + 1;
        }
        totalMemory := (totalMemory + (end - start)) % TWO64;
      }
    }

    method FreeUsable(entries: seq<MapEntry>)
      requires Valid() && free == {} && EntriesFit(entries)
      modifies this`freeFrames, this`free, this`totalMemory, bitmap
      ensures Valid()
      ensures forall f: nat :: f in free <==> f < MAX_FRAMES && Usable(entries, f)
    {
      var i := 0;
      while i < |entries|
        invariant 0 <= i <= |entries| && Valid()
        invariant forall f: nat :: f in free <==> f < MAX_FRAMES && Usable(entries[..i], f)
      {
        FreeEntry(entries[i]);
        assert entries[..i + 1] == entries[..i] + [entries[i]];
        forall f: nat ensures Usable(entries[..i + 1], f) <==> Usable(entries[..i], f) || UsableBy(entries[i], f) {
          if UsableBy(entries[i], f) { assert entries[..i + 1][i] == entries[i]; }
          if Usable(entries[..i], f) {
            var j :| 0 <= j < i && UsableBy(entries[..i][j], f);
            assert entries[..i + 1][j] == entries[..i][j];
          }
        }
        i := i + 1;
      }
      assert entries[..i] == entries;
    }

    method ReserveFirmware(entries: seq<MapEntry>)
      requires Valid() && EntriesFit(entries)
      modifies this`freeFrames, this`free, bitmap
      ensures Valid()
      ensures forall f: nat :: f in free <==> f in old(free) && !Firmware(entries, f)
    {
      var i := 0;
      while i < |entries|
        invariant 0 <= i <= |entries| && Valid()
        invariant forall f: nat :: f in free <==> f in old(free) && !Firmware(entries[..i], f)
      {
        if entries[i].kind != 1 {
          ReserveRange(entries[i].addr, (entries[i].addr + entries[i].length) % TWO64);
        }
        assert entries[..i + 1] == entries[..i] + [entries[i]];
        forall f: nat ensures Firmware(entries[..i + 1], f) <==> Firmware(entries[..i], f) || ReservedBy(entries[i], f) {
          if ReservedBy(entries[i], f) { assert entries[..i + 1][i] == entries[i]; }
          if Firmware(entries[..i], f) {
            var j :| 0 <= j < i && ReservedBy(entries[..i][j], f);
            assert entries[..i + 1][j] == entries[..i][j];
          }
        }
        i := i + 1;
      }
      assert entries[..i] == entries;
    }

    /** mem/mm/pmm.c pmm_init: exactly the usable frames that no reserved range touches are free. */
    method Init(entries: seq<MapEntry>, kernelEnd: nat, bitmapAddr: nat, framebuffer: nat, fbBytes: nat)
      requires Valid() && free == {}
      requires EntriesFit(entries)
      requires kernelEnd < TWO64 && bitmapAddr + BITMAP_BYTES < TWO64
      modifies this, bitmap
      ensures Valid()
      ensures forall f: nat :: f in free <==>
                && f < MAX_FRAMES && Usable(entries, f)
                && !InRange(f, 0, kernelEnd)
                && !InRange(f, bitmapAddr, bitmapAddr + BITMAP_BYTES)
                && !Firmware(entries, f)
                && (framebuffer != 0 ==> !InRange(f, framebuffer, (framebuffer + fbBytes) % TWO64))
      ensures 0 < kernelEnd && kernelEnd + FRAME_SIZE <= TWO64 ==> 0 !in free
    {
      totalFrames, totalMemory := 0, 0;
      FreeUsable(entries);
      ReserveRange(0, kernelEnd);
      ReserveRange(bitmapAddr, bitmapAddr + BITMAP_BYTES);
      ReserveFirmware(entries);
      if framebuffer != 0 {
        ReserveRange(framebuffer, (framebuffer + fbBytes) % TWO64);
      }
      totalFrames := if |entries| != 0 && totalMemory != 0 then totalMemory / FRAME_SIZE else 0;
    }

    /** mem/mm/pmm.c pmm_alloc_frame: next fit from `hint`, wrapping around once. */
    method AllocFrame() returns (phys: nat)
      requires Valid()
      modifies this`freeFrames, this`free, this`hint, bitmap
      ensures Valid()
      ensures old(free) == {} ==> phys == 0 && free == {} && hint == old(hint)
      ensures old(free) != {} ==>
                && phys % FRAME_SIZE == 0
                && NextFit(old(free), old(hint), phys / FRAME_SIZE)
                && free == old(free) - {phys / FRAME_SIZE}
                && hint == phys / FRAME_SIZE + 1
    {
      var f := hint;
      while f < MAX_FRAMES
        invariant hint <= f <= MAX_FRAMES
        invariant forall g :: hint <= g < f ==> g !in free
      {
        if FrameIsFree(f) {
          MarkUsed(f);
          hint := f + 1;
          return f * FRAME_SIZE;
        }
        f := f + 1;
      }
      f := 0;
      while f < hint
        invariant 0 <= f <= hint
        invariant forall g :: 0 <= g < f ==> g !in free
      {
        if FrameIsFree(f) {
          MarkUsed(f);
          hint := f + 1;
          return f * FRAME_SIZE;
        }
        f := f + 1;
      }
      phys := 0;
      assert forall g :: g in free ==> g < hint || hint <= g < MAX_FRAMES;
      assert free == {};
    }

    method MarkRunUsed(start: nat, count: nat)
      requires Valid() && RunAt(free, start, count)
      modifies this`freeFrames, this`free, bitmap
      ensures Valid() && Without(old(free), free, start, start + count)
    {
      var i := 0;
      while i < count
        invariant 0 <= i <= count && Valid()
        invariant Without(old(free), free, start, start + i)
      {
        assert start + i in old(free);
        MarkUsed(start + i);
        i := i + 1;
      }
    }

    /** The scanning loop of pmm_alloc_contig. */
    method FindRun(count: nat) returns (found: bool, start: nat)
      requires Valid() && count > 0
      ensures found ==> LowestRun(free, start, count)
      ensures !found ==> forall t: nat :: !RunAt(free, t, count)
    {
      var run, f := 0, 0;
      start := 0;
      while f < MAX_FRAMES
        invariant 0 <= f <= MAX_FRAMES && run <= f && run < count
        invariant run > 0 ==> start == f - run
        invariant RunAt(free, f - run, run)
        invariant forall t: nat :: t < f - run ==> !RunAt(free, t, count)
      {
        if FrameIsFree(f) {
          if run == 0 { start := f; }
          run := run + 1;
          if run == count {
            return true, start;
          }
        } else {
          forall t: nat | t <= f ensures !RunAt(free, t, count) {
            if t >= f - run { assert t <= f < t + count && f !in free; }
          }
          run := 0;
        }
        f := f + 1;
      }
      found := false;
      forall t: nat ensures !RunAt(free, t, count) {
        if t >= f - run { assert t <= t + count - 1 < t + count && t + count - 1 !in free; }
      }
    }

    /** mem/mm/pmm.c pmm_alloc_contig: the lowest run of `count` free frames, if there is one. */
    method AllocContig(count: nat) returns (phys: nat)
      requires Valid()
      modifies this`freeFrames, this`free, bitmap
      ensures Valid()
      ensures count == 0 || (forall s: nat :: !RunAt(old(free), s, count)) ==> phys == 0 && free == old(free)
      ensures count > 0 && (exists s: nat :: RunAt(old(free), s, count)) ==>
                && phys % FRAME_SIZE == 0
                && LowestRun(old(free), phys / FRAME_SIZE, count)
                && Without(old(free), free, phys / FRAME_SIZE, phys / FRAME_SIZE + count)
    {
      if count == 0 { return 0; }
      var found, start := FindRun(count);
      if !found { return 0; }
      MarkRunUsed(start, count);
      phys := start * FRAME_SIZE;
      assert phys / FRAME_SIZE == start && phys % FRAME_SIZE == 0;
    }

    /** mem/mm/pmm.c pmm_free_frame */
    method FreeFrame(phys: nat)
      requires Valid()
      modifies this`freeFrames, this`free, bitmap
      ensures Valid()
      ensures free == if phys / FRAME_SIZE < MAX_FRAMES then old(free) + {phys / FRAME_SIZE} else old(free)
    {
      var f := phys / FRAME_SIZE;
      if f < MAX_FRAMES && !FrameIsFree(f) {
        MarkFree(f);
      }
    }
  }
}
