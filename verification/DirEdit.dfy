/** Editing a directory cluster in its buffer (fs/fat32.c): finding room, writing an entry with its
    long name, and marking one deleted. The buffer is the sequence of its 32-byte entries. */
module DirEdit {
  import opened LittleEndian
  import opened DirNames
  import opened DirListing

  // ---- finding a free run ----

  ghost predicate NoRun(slots: seq<Slot>, n: nat)
    requires SlotsOk(slots)
  {
    forall q: nat :: !FreeFrom(slots, q, n)
  }

  /** The scan of one cluster in dir_find_free_slots: the first n free entries in a row. */
  method FindRun(slots: seq<Slot>, n: nat) returns (found: bool, r: nat)
    requires SlotsOk(slots) && n > 0
    ensures found ==> FreeFrom(slots, r, n) && forall q: nat :: q < r ==> !FreeFrom(slots, q, n)
    ensures !found ==> NoRun(slots, n)
  {
    r := 0;
    var i: nat, run: nat := 0, 0;
    while i < |slots|
      invariant run <= i <= |slots| && run < n && FreeFrom(slots, i - run, run)
      invariant i - run > 0 ==> !IsFree(slots[i - run - 1])
      invariant forall q: nat :: q + n <= i ==> !FreeFrom(slots, q, n)
    {
      if IsFree(slots[i]) {
        run := run + 1;
        if run == n {
          FirstRun(slots, n, i + 1 - n);
          return true, i - (n - 1);
        }
      } else {
        run := 0;
      }
      i := i + 1;
      NoRunTo(slots, n, i, run);
    }
    found := false;
  }

  lemma {:induction false} NoRunTo(slots: seq<Slot>, n: nat, i: nat, run: nat)
    requires SlotsOk(slots) && run <= i <= |slots| && run < n && (i - run > 0 ==> !IsFree(slots[i - run - 1]))
    ensures forall q: nat :: q + n == i ==> !FreeFrom(slots, q, n)
  {
    forall q: nat | q + n == i ensures !FreeFrom(slots, q, n) {
      assert q <= i - run - 1 < q + n;
    }
  }

  lemma {:induction false} FirstRun(slots: seq<Slot>, n: nat, r: nat)
    requires SlotsOk(slots) && n > 0 && r + n <= |slots| && (r > 0 ==> !IsFree(slots[r - 1]))
    requires forall q: nat :: q + n <= r + n - 1 ==> !FreeFrom(slots, q, n)
    ensures forall q: nat :: q < r ==> !FreeFrom(slots, q, n)
  {
  }

  /** In a well-formed directory the first run does not begin after an end mark. */
  lemma {:induction false} RunBeforeEnd(slots: seq<Slot>, n: nat, r: nat)
    requires WellFormed(slots) && n > 0 && FreeFrom(slots, r, n) && forall q: nat :: q < r ==> !FreeFrom(slots, q, n)
    ensures NoEndBefore(slots, r)
  {
    forall z: nat | z < r ensures !IsEnd(slots[z]) {
      assert !FreeFrom(slots, z, n);
    }
  }

  // ---- the 8.3 entry ----

  /** The bytes that write_dir_entry_at and create_dir_entries put into an entry. */
  function ShortEntry(e: Slot, s: Text, cluster: nat, size: nat, isDir: bool): (e': Slot)
    requires |e| == SLOT && |s| == 11
    ensures |e'| == SLOT
  {
    s + [if isDir then ATTR_DIR else ATTR_FILE] + e[12..20] + ToLe(cluster / 0x1_0000, 2) + e[22..26] + ToLe(cluster % 0x1_0000, 2) + ToLe(size, 4)
  }

  lemma {:induction false} EntryFields(e: Slot, s: Text, cluster: nat, size: nat, isDir: bool)
    requires |e| == SLOT && |s| == 11
    ensures var e' := ShortEntry(e, s, cluster, size, isDir);
            && e'[..11] == s && e'[0] == s[0] && e'[11] == (if isDir then ATTR_DIR else ATTR_FILE)
            && e'[20..22] == ToLe(cluster / 0x1_0000, 2) && e'[26..28] == ToLe(cluster % 0x1_0000, 2) && e'[28..32] == ToLe(size, 4)
  {
    var e' := ShortEntry(e, s, cluster, size, isDir);
    var a := s + [if isDir then ATTR_DIR else ATTR_FILE] + e[12..20];
    var b := a + ToLe(cluster / 0x1_0000, 2);
    var c := b + e[22..26];
    var d := c + ToLe(cluster % 0x1_0000, 2);
    assert |a| == 20 && |b| == 22 && |c| == 26 && |d| == 28 && e' == d + ToLe(size, 4);
    assert e'[..11] == s;
    assert e'[20..22] == b[20..22] == ToLe(cluster / 0x1_0000, 2);
    assert e'[26..28] == d[26..28] == ToLe(cluster % 0x1_0000, 2);
    assert e'[28..32] == ToLe(size, 4);
  }

  lemma {:induction false} Fits16(v: nat)
    requires v < 0x1_0000
    ensures FromLe(ToLe(v, 2)) == v
  {
    FromToLe(v, 2);
    Pow256Values();
  }

  lemma {:induction false} Fits32(v: nat)
    requires v < TWO32
    ensures FromLe(ToLe(v, 4)) == v
  {
    FromToLe(v, 4);
    Pow256Values();
  }

  /** The line that the entry reads as. */
  lemma {:induction false} EntryReads(e: Slot, s: Text, cluster: nat, size: nat, isDir: bool, acc: seq<Part>, at: nat)
    requires |e| == SLOT && |s| == 11 && cluster < TWO32 && size < TWO32 && s[0] != 0 && s[0] != FREE
    ensures var e' := ShortEntry(e, s, cluster, size, isDir);
            && !IsFree(e') && !IsLong(e') && e'[..11] == s
            && DirentOf(acc, e', at) == Dirent(at, NameOf(acc, e'), cluster, if isDir then 0 else size, isDir)
  {
    EntryFields(e, s, cluster, size, isDir);
    Fits16(cluster / 0x1_0000);
    Fits16(cluster % 0x1_0000);
    Fits32(size);
  }

  lemma {:induction false} ShortStartsLive(name: Text)
    requires EncodeShort(name).Name11?
    ensures EncodeShort(name).s[0] != 0 && EncodeShort(name).s[0] != FREE
  {
    var b := BasePart(name);
    UpperValid(b);
    assert Padded(UpperAll(b), 8)[..|b|] == UpperAll(b);
    assert EncodeShort(name).s[0] == UpperAll(b)[0];
  }

  // ---- creating an entry ----

  /** The names for which an entry reads back as what was asked for. */
  predicate Writable(name: Text) {
    && NoNul(name) && |name| <= NAME_MAX
    && (if PartsFor(name) == 0 then FitsShort(name) else |name| % PART == 0)
  }

  /** Where create_dir_entries begins to read part p of a name of len characters: in 32 bits. */
  function CharStart(len: nat, p: nat): nat { (len - (p + 1) * PART) % TWO32 }

  predicate ReadsAt(len: nat, p: nat, i: nat) { CharStart(len, p) + i < len }

  /** Every character it reads is one of the name exactly when the length is a multiple of 13. */
  lemma {:induction false} ReadsInside(len: nat)
    requires 0 < len <= NAME_MAX
    ensures (forall p: nat, i: nat :: p < (len + 12) / PART && i < PART ==> ReadsAt(len, p, i)) <==> len % PART == 0
  {
    var n := (len + 12) / PART;
    if len % PART == 0 {
      Thirteens(len);
      forall p: nat, i: nat | p < n && i < PART ensures ReadsAt(len, p, i) { assert (p + 1) * PART <= n * PART; }
    } else {
      var p := n - 1;
      assert len < n * PART <= len + 12;
      assert CharStart(len, p) == len - n * PART + TWO32;
      assert !ReadsAt(len, p, 0);
    }
  }

  /** A ten-character name: its one part is read four gigabytes away. */
  lemma ShortPartExample()
    ensures CharStart(10, 0) == TWO32 - 3
  {
  }

  /** The parts above the entry: those from sequence number k + 1 on are in place. */
  ghost predicate PartsFrom(slots: seq<Slot>, r: nat, name: Text, n: nat, k: nat)
    requires SlotsOk(slots) && n * PART <= |name|
  {
    r + n < |slots| && k <= n && forall j: nat :: k <= j < n ==> PartWritten(slots, r, PartsOf(name, n), j)
  }

  /** The loop of create_dir_entries over the parts, nearest the 8.3 entry first. */
  method WriteParts(slots: seq<Slot>, at: nat, name: Text, n: nat, checksum: byte) returns (slots': seq<Slot>)
    requires SlotsOk(slots) && n <= at < |slots| && n * PART == |name| && n <= MAX_PARTS && NoNul(name)
    ensures SlotsOk(slots') && |slots'| == |slots| && PartsFrom(slots', at - n, name, n, 0)
    ensures forall i :: 0 <= i < |slots| && !(at - n <= i < at) ==> slots'[i] == slots[i]
  {
    slots' := slots;
    var p: nat := 0;
    while p < n
      invariant p <= n && SlotsOk(slots') && |slots'| == |slots| && PartsFrom(slots', at - n, name, n, n - p)
      invariant forall i :: 0 <= i < |slots| && !(at - n <= i < at) ==> slots'[i] == slots[i]
    {
      var start: nat := |name| - (p + 1) * PART;
      var e := FillPart(name, start, n - p, p == 0, checksum);
      ghost var before := slots';
      slots' := slots'[at - (p + 1) := e];
      OnePart(before, slots', at - n, name, n, n - p - 1, e, start);
      p := p + 1;
    }
  }

  lemma {:induction false} OnePart(slots: seq<Slot>, slots': seq<Slot>, r: nat, name: Text, n: nat, k: nat, e: Slot, start: nat)
    requires SlotsOk(slots) && n * PART <= |name| && k < n && n <= MAX_PARTS && r + n < |slots| && start == k * PART && NoNul(name)
    requires PartsFrom(slots, r, name, n, k + 1) && |e| == SLOT && slots' == slots[r + k := e]
    requires HoldsPart(e, name, start, PART) && e[11] == ATTR_LFN && (e[0] == k + 1 || e[0] == k + 1 + 0x40)
    ensures SlotsOk(slots') && PartsFrom(slots', r, name, n, k)
  {
    var parts := PartsOf(name, n);
    PartReads(e, name, start, 0);
    assert parts[k] == Part(k + 1, name[start..start + PART]);
    SequenceOf(e[0], k + 1);
    forall j: nat | k <= j < n ensures PartWritten(slots', r, parts, j) {
      if j > k { assert PartWritten(slots, r, parts, j); }
    }
  }

  lemma {:induction false} SequenceOf(b: nat, k: nat)
    requires k < 64 && (b == k || b == k + 0x40)
    ensures b % 64 == k
  {
  }

  /** The line a new entry is to read as. */
  function NewLine(at: nat, name: Text, cluster: nat, size: nat, isDir: bool): Dirent { Dirent(at, name, cluster, if isDir then 0 else size, isDir) }

  /** create_dir_entries: the parts of the long name, if one is needed, and the 8.3 entry at `at`. The
      part with the lowest number comes first, furthest from the 8.3 entry. */
  method CreateEntries(slots: seq<Slot>, at: nat, name: Text, cluster: nat, size: nat, isDir: bool) returns (ok: bool, slots': seq<Slot>, ghost r: nat, ghost parts: seq<Part>)
    requires SlotsOk(slots) && at < |slots| && Writable(name) && cluster < TWO32 && size < TWO32
    ensures ok <==> EncodeShort(name).Name11? && PartsFor(name) <= at
    ensures !ok ==> slots' == slots
    ensures ok ==> |parts| == PartsFor(name) && r + |parts| == at && |parts| <= MAX_PARTS && Written(slots, slots', r, parts, NewLine(at, name, cluster, size, isDir))
    ensures ok ==> |parts| * PART <= |name| && parts == PartsOf(name, |parts|)
  {
    slots', r, parts := slots, 0, [];
    var short := EncodeShortName(name);
    var n := PartsFor(name);
    if short.NoName? || n > at { return false, slots, 0, []; }
    PartCount(name, n);
    r, parts := at - n, PartsOf(name, n);
    if n > 0 { slots' := WriteParts(slots, at, name, n, Checksum(short.s)); }
    ghost var with := slots';
    var e := ShortEntry(slots'[at], short.s, cluster, size, isDir);
    slots' := slots'[at := e];
    EntryLine(with[at], at, name, n, cluster, size, isDir);
    EntryWritten(slots, with, slots', r, at, parts, e, NewLine(at, name, cluster, size, isDir));
    ok := true;
  }

  lemma {:induction false} PartCount(name: Text, n: nat)
    requires Writable(name) && n == PartsFor(name)
    ensures n * PART <= |name| && n <= MAX_PARTS && (n > 0 ==> n * PART == |name|)
  {
    if n > 0 { Thirteens(|name|); }
  }

  lemma {:induction false} Thirteens(len: nat)
    requires len % PART == 0 && len <= NAME_MAX
    ensures (len + 12) / PART * PART == len && (len + 12) / PART <= MAX_PARTS
  {
    var q := len / PART;
    assert len == PART * q;
    assert (PART * q + 12) / PART == q;
  }

  /** The 8.3 entry reads as the line asked for. */
  lemma {:induction false} EntryLine(was: Slot, at: nat, name: Text, n: nat, cluster: nat, size: nat, isDir: bool)
    requires |was| == SLOT && Writable(name) && n == PartsFor(name) && n * PART <= |name| && EncodeShort(name).Name11? && cluster < TWO32 && size < TWO32
    ensures var e := ShortEntry(was, EncodeShort(name).s, cluster, size, isDir);
            !IsFree(e) && !IsLong(e) && DirentOf(PartsOf(name, n), e, at) == NewLine(at, name, cluster, size, isDir)
  {
    ShortStartsLive(name);
    EntryReads(was, EncodeShort(name).s, cluster, size, isDir, PartsOf(name, n), at);
    NameReads(name, n, ShortEntry(was, EncodeShort(name).s, cluster, size, isDir));
  }

  lemma {:induction false} EntryWritten(slots: seq<Slot>, with: seq<Slot>, slots': seq<Slot>, r: nat, at: nat, parts: seq<Part>, e: Slot, line: Dirent)
    requires SlotsOk(slots) && SlotsOk(with) && |with| == |slots| && r + |parts| == at < |slots| && |e| == SLOT && slots' == with[at := e]
    requires forall j: nat :: j < |parts| ==> PartWritten(with, r, parts, j)
    requires forall i :: 0 <= i < |slots| && !(r <= i < at) ==> with[i] == slots[i]
    requires !IsFree(e) && !IsLong(e) && DirentOf(parts, e, at) == line
    ensures Written(slots, slots', r, parts, line)
  {
    forall j: nat | j < |parts| ensures PartWritten(slots', r, parts, j) { assert PartWritten(with, r, parts, j); }
  }

  /** The entry and its parts read back as the name. */
  lemma {:induction false} NameReads(name: Text, n: nat, e: Slot)
    requires Writable(name) && n == PartsFor(name) && n * PART <= |name| && EncodeShort(name).Name11? && |e| == SLOT && e[..11] == EncodeShort(name).s
    ensures NameOf(PartsOf(name, n), e) == name
  {
    if n == 0 {
      assert ShortIsExact(name);
      ShortNameExact(name, e);
    } else {
      PartCount(name, n);
      AssembleReads(name, n);
      assert name[..n * PART] == name;
    }
  }

  // ---- adding and deleting ----

  /** Finding room in a cluster and creating the entry there, as fat32_write_file and fat32_mkdir do. */
  method AddEntry(slots: seq<Slot>, name: Text, cluster: nat, size: nat, isDir: bool) returns (ok: bool, slots': seq<Slot>, at: nat)
    requires WellFormed(slots) && Writable(name) && cluster < TWO32 && size < TWO32
    ensures !ok ==> slots' == slots && (EncodeShort(name).NoName? || NoRun(slots, PartsFor(name) + 1))
    ensures ok ==> WellFormed(slots') && OneMore(Listing(slots), Listing(slots'), NewLine(at, name, cluster, size, isDir))
  {
    var n := PartsFor(name);
    slots', at := slots, 0;
    var first;
    ok, first := FindRun(slots, n + 1);
    if !ok { return; }
    at := first + n;
    ghost var r, parts;
    ok, slots', r, parts := CreateEntries(slots, at, name, cluster, size, isDir);
    if ok {
      assert r == first;
      RunBeforeEnd(slots, n + 1, first);
      EntryAdded(slots, slots', first, parts, n, NewLine(at, name, cluster, size, isDir));
    }
  }

  lemma {:induction false} EntryAdded(slots: seq<Slot>, slots': seq<Slot>, r: nat, parts: seq<Part>, n: nat, line: Dirent)
    requires WellFormed(slots) && FreeFrom(slots, r, n + 1) && NoEndBefore(slots, r) && Written(slots, slots', r, parts, line) && |parts| == n <= MAX_PARTS
    ensures WellFormed(slots') && OneMore(Listing(slots), Listing(slots'), line)
  {
    AddExact(slots, slots', r, parts, line);
    AddKeepsForm(slots, slots', r, parts, line);
  }

  // ---- a fresh cluster ----

  /** Where dir_find_free_slots says that the free slots of a cluster it has just added begin. */
  const FRESH_OFFSET: nat := 0

  /** The byte of the cluster where its callers put the 8.3 entry: below the parts. */
  function EntryOffset(name: Text): nat { FRESH_OFFSET + PartsFor(name) * SLOT }

  /** Whatever the size of the cluster: the entry lies inside exactly when there are more slots than
      parts. */
  lemma {:induction false} FreshClusterFits(name: Text, bpc: nat)
    ensures EntryOffset(name) + SLOT <= bpc <==> PartsFor(name) < bpc / SLOT
  {
  }

  /** A name of 208 characters. */
  function LongName(): Text { seq(208, _ => 0x61) }

  /** With 512-byte clusters its entry lies behind the cluster. */
  lemma {:induction false} FreshClusterTooSmall()
    ensures Writable(LongName()) && EncodeShort(LongName()).Name11? && EntryOffset(LongName()) == 512
  {
    var name := LongName();
    assert LastDot(name) == 208;
    assert !ShortIsExact(name) by { assert name[0] == 0x61; }
  }

  datatype FreshResult = Stored(slots: seq<Slot>) | Refused | Outside

  function FreshSlots(n: nat): (slots: seq<Slot>)
    ensures |slots| == n && WellFormed(slots) && Listing(slots) == [] && FreeFrom(slots, 0, n)
  {
    var slots := seq(n, _ => seq(SLOT, _ => 0));
    NoLines(slots, n);
    slots
  }

  lemma {:induction false} NoLines(slots: seq<Slot>, n: nat)
    requires SlotsOk(slots) && n <= |slots| && forall i :: 0 <= i < |slots| ==> IsEnd(slots[i])
    ensures ScanTo(slots, n).lines == []
  {
    if n > 0 { NoLines(slots, n - 1); }
  }

  /** A new entry in a directory that dir_find_free_slots had to extend, with clusters of bpc bytes:
      either it is the one line of the new cluster, or the name has no 8.3 form, or it would be
      written behind the cluster's buffer. */
  method AddToFresh(bpc: nat, name: Text, cluster: nat, size: nat, isDir: bool) returns (r: FreshResult)
    requires Writable(name) && cluster < TWO32 && size < TWO32
    ensures r.Outside? <==> PartsFor(name) >= bpc / SLOT
    ensures !r.Outside? ==> (r.Stored? <==> EncodeShort(name).Name11?)
    ensures r.Stored? ==> WellFormed(r.slots) && |r.slots| == bpc / SLOT && Listing(r.slots) == [NewLine(PartsFor(name), name, cluster, size, isDir)]
  {
    var offset := EntryOffset(name);
    FreshClusterFits(name, bpc);
    if offset + SLOT > bpc { return Outside; }
    var slots := FreshSlots(bpc / SLOT);
    var at := offset / SLOT;
    assert at == PartsFor(name);
    ghost var first, parts;
    var ok, slots';
    ok, slots', first, parts := CreateEntries(slots, at, name, cluster, size, isDir);
    if !ok { return Refused; }
    EntryAdded(slots, slots', 0, parts, at, NewLine(at, name, cluster, size, isDir));
    r := Stored(slots');
  }

  /** mark_entry_deleted */
  method MarkDeleted(slots: seq<Slot>, at: nat) returns (slots': seq<Slot>, ghost lo: nat)
    requires SlotsOk(slots) && at < |slots|
    ensures IsFree(slots[at]) ==> slots' == slots
    ensures !IsFree(slots[at]) ==> Deleted(slots, slots', lo, at) && PartsAbove(slots, lo, at)
  {
    slots', lo := slots, at;
    if IsFree(slots[at]) { return; }
    slots' := slots[at := Marked(slots[at])];
    var off: nat := at;
    while off > 0 && slots'[off - 1][11] == ATTR_LFN
      invariant off <= at && Deleted(slots, slots', off, at) && forall i :: off <= i < at ==> slots[i][11] == ATTR_LFN
    {
      off := off - 1;
      slots' := slots'[off := Marked(slots'[off])];
    }
    lo := off;
  }

  /** Deleting the entry of a line takes out that line. */
  method DeleteEntry(slots: seq<Slot>, at: nat) returns (slots': seq<Slot>)
    requires WellFormed(slots) && at < |slots| && NoEndBefore(slots, at + 1) && !IsFree(slots[at]) && !IsLong(slots[at])
    ensures WellFormed(slots') && OneMore(Listing(slots'), Listing(slots), DirentOf(ScanTo(slots, at).acc, slots[at], at))
  {
    ghost var lo;
    slots', lo := MarkDeleted(slots, at);
    DeleteExact(slots, slots', lo, at, DirentOf(ScanTo(slots, at).acc, slots[at], at));
    DeleteKeepsForm(slots, slots', lo, at);
  }
}
