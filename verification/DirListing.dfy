/** What a directory cluster lists (the scan in read_directory, fs/fat32.c), and what adding and
    deleting an entry do to the listing. */
module DirListing {
  import opened Basics
  import opened LittleEndian
  import opened DirNames

  const FREE: byte := 0xE5
  const ATTR_DIR: byte := 0x10
  const ATTR_FILE: byte := 0x20
  const NAME_MAX: nat := 255

  /** One line of the listing; `at` is the index of the 8.3 entry. */
  datatype Dirent = Dirent(at: nat, name: Text, cluster: nat, size: nat, isDir: bool)

  predicate SlotsOk(slots: seq<Slot>) { forall i :: 0 <= i < |slots| ==> |slots[i]| == SLOT }

  predicate IsEnd(e: Slot) requires |e| == SLOT { e[0] == 0 }
  predicate IsFree(e: Slot) requires |e| == SLOT { e[0] == 0 || e[0] == FREE }

  /** The low four attribute bits are set: part of a long name. */
  predicate IsLong(e: Slot) requires |e| == SLOT { e[11] % 16 == 15 }

  function Cut(name: Text): Text { name[..Min(NAME_MAX, |name|)] }

  function ClusterOf(e: Slot): nat requires |e| == SLOT { FromLe(e[20..22]) * 0x1_0000 + FromLe(e[26..28]) }

  predicate DirBit(e: Slot) requires |e| == SLOT { e[11] / 16 % 2 == 1 }

  function NameOf(acc: seq<Part>, e: Slot): Text
    requires |e| == SLOT
  {
    if acc == [] then ShortName(e) else Cut(Assemble(acc, |acc|))
  }

  function DirentOf(acc: seq<Part>, e: Slot, at: nat): Dirent
    requires |e| == SLOT
  {
    Dirent(at, NameOf(acc, e), ClusterOf(e), if DirBit(e) then 0 else FromLe(e[28..32]), DirBit(e))
  }

  /** lfn_add_part */
  function AddPart(acc: seq<Part>, e: Slot): seq<Part>
    requires |e| == SLOT
  {
    if |acc| >= MAX_PARTS then [] else acc + [Part(e[0] % 64, PartText(e, 0))]
  }

  /** State of the scan: the parts collected, the lines so far, and whether the end mark was met. */
  datatype Scan = Scan(acc: seq<Part>, lines: seq<Dirent>, ended: bool)

  function Visit(st: Scan, e: Slot, i: nat): Scan
    requires |e| == SLOT
  {
    if st.ended then st
    else if IsEnd(e) then st.(ended := true)
    else if e[0] == FREE then st.(acc := [])
    else if IsLong(e) then st.(acc := AddPart(st.acc, e))
    else Scan([], st.lines + [DirentOf(st.acc, e, i)], false)
  }

  /** The scan of the first n entries. */
  function ScanTo(slots: seq<Slot>, n: nat): Scan
    requires SlotsOk(slots) && n <= |slots|
  {
    if n == 0 then Scan([], [], false) else Visit(ScanTo(slots, n - 1), slots[n - 1], n - 1)
  }

  function Listing(slots: seq<Slot>): seq<Dirent>
    requires SlotsOk(slots)
  {
    ScanTo(slots, |slots|).lines
  }

  /** The scan loop of read_directory, when no visitor stops it. */
  method ReadDirectory(slots: seq<Slot>) returns (lines: seq<Dirent>)
    requires SlotsOk(slots)
    ensures lines == Listing(slots)
  {
    lines := [];
    var acc: seq<Part> := [];
    var i: nat := 0;
    while i < |slots|
      invariant i <= |slots| && ScanTo(slots, i) == Scan(acc, lines, false)
    {
      var e := slots[i];
      if e[0] == 0 {
        EndStops(slots, i);
        return;
      }
      if e[0] == FREE {
        acc := [];
      } else if IsLong(e) {
        acc := AddPart(acc, e);
      } else {
        lines := lines + [DirentOf(acc, e, i)];
        acc := [];
      }
      i := i + 1;
    }
  }

  lemma {:induction false} EndStops(slots: seq<Slot>, i: nat)
    requires SlotsOk(slots) && i < |slots| && IsEnd(slots[i]) && !ScanTo(slots, i).ended
    ensures Listing(slots) == ScanTo(slots, i).lines
  {
    Ended(slots, i + 1, |slots|);
  }

  lemma {:induction false} Ended(slots: seq<Slot>, m: nat, n: nat)
    requires SlotsOk(slots) && m <= n <= |slots| && ScanTo(slots, m).ended
    ensures ScanTo(slots, n) == ScanTo(slots, m)
  {
    if m < n { Ended(slots, m, n - 1); }
  }

  // ---- scanning in two pieces ----

  /** The lines that the entries m to n add to a scan that has reached m. */
  function TailLines(slots: seq<Slot>, m: nat, n: nat, acc: seq<Part>, ended: bool): Scan
    requires SlotsOk(slots) && m <= n <= |slots|
  {
    if n == m then Scan(acc, [], ended) else Visit(TailLines(slots, m, n - 1, acc, ended), slots[n - 1], n - 1)
  }

  lemma {:induction false} ScanSplit(slots: seq<Slot>, m: nat, n: nat)
    requires SlotsOk(slots) && m <= n <= |slots|
    ensures var st := ScanTo(slots, m); var tail := TailLines(slots, m, n, st.acc, st.ended);
            ScanTo(slots, n) == Scan(tail.acc, st.lines + tail.lines, tail.ended)
  {
    if m < n {
      ScanSplit(slots, m, n - 1);
      var st := ScanTo(slots, m);
      VisitShift(st.lines, TailLines(slots, m, n - 1, st.acc, st.ended), slots[n - 1], n - 1);
    }
  }

  /** A visit does not look at the lines already there. */
  lemma {:induction false} VisitShift(head: seq<Dirent>, st: Scan, e: Slot, i: nat)
    requires |e| == SLOT
    ensures var v := Visit(st, e, i); Visit(Scan(st.acc, head + st.lines, st.ended), e, i) == Scan(v.acc, head + v.lines, v.ended)
  {
  }

  lemma {:induction false} TailSame(slots: seq<Slot>, slots': seq<Slot>, m: nat, n: nat, acc: seq<Part>, ended: bool)
    requires SlotsOk(slots) && SlotsOk(slots') && m <= n <= |slots| && |slots'| == |slots| && (forall i :: m <= i < n ==> slots'[i] == slots[i])
    ensures TailLines(slots', m, n, acc, ended) == TailLines(slots, m, n, acc, ended)
  {
    if m < n { TailSame(slots, slots', m, n - 1, acc, ended); }
  }

  lemma {:induction false} ScanSame(slots: seq<Slot>, slots': seq<Slot>, n: nat)
    requires SlotsOk(slots) && SlotsOk(slots') && n <= |slots| && |slots'| == |slots| && (forall i :: 0 <= i < n ==> slots'[i] == slots[i])
    ensures ScanTo(slots', n) == ScanTo(slots, n)
  {
    if n > 0 { ScanSame(slots, slots', n - 1); }
  }

  lemma {:induction false} TailEnded(slots: seq<Slot>, m: nat, n: nat, acc: seq<Part>)
    requires SlotsOk(slots) && m <= n <= |slots|
    ensures TailLines(slots, m, n, acc, true) == Scan(acc, [], true)
  {
    if m < n { TailEnded(slots, m, n - 1, acc); }
  }

  /** No end mark among the first n: the scan gets there. */
  ghost predicate NoEndBefore(slots: seq<Slot>, n: nat)
    requires SlotsOk(slots) && n <= |slots|
  {
    forall i :: 0 <= i < n ==> !IsEnd(slots[i])
  }

  lemma {:induction false} Reached(slots: seq<Slot>, n: nat)
    requires SlotsOk(slots) && n <= |slots| && NoEndBefore(slots, n)
    ensures !ScanTo(slots, n).ended
  {
    if n > 0 { Reached(slots, n - 1); }
  }

  /** One line has come in (or, read the other way, gone): all others are as they were. */
  ghost predicate OneMore(before: seq<Dirent>, after: seq<Dirent>, line: Dirent) {
    exists k :: 0 <= k <= |before| && after == before[..k] + [line] + before[k..]
  }

  lemma {:induction false} OneMoreAt(head: seq<Dirent>, tail: seq<Dirent>, line: Dirent)
    ensures OneMore(head + tail, head + [line] + tail, line)
  {
    var before, k := head + tail, |head|;
    assert before[..k] == head && before[k..] == tail;
  }

  // ---- well-formed directories ----

  /** After the end mark there are only end marks. */
  ghost predicate EndIsEnd(slots: seq<Slot>)
    requires SlotsOk(slots)
  {
    forall i, j :: 0 <= i < j < |slots| && IsEnd(slots[i]) ==> IsEnd(slots[j])
  }

  /** A live part of a long name: it has exactly the attribute byte 0x0F, and something live follows. */
  predicate PartOk(slots: seq<Slot>, i: nat)
    requires SlotsOk(slots) && i < |slots|
  {
    !IsFree(slots[i]) && IsLong(slots[i]) ==> slots[i][11] == ATTR_LFN && i + 1 < |slots| && !IsFree(slots[i + 1])
  }

  ghost predicate WellFormed(slots: seq<Slot>) {
    SlotsOk(slots) && EndIsEnd(slots) && forall i: nat :: i < |slots| ==> PartOk(slots, i)
  }

  /** Before a free entry nothing is pending. */
  lemma {:induction false} NothingPending(slots: seq<Slot>, r: nat)
    requires WellFormed(slots) && r <= |slots| && NoEndBefore(slots, r) && (r < |slots| ==> IsFree(slots[r]))
    ensures ScanTo(slots, r).acc == [] && !ScanTo(slots, r).ended
  {
    Reached(slots, r);
    if r > 0 {
      assert PartOk(slots, r - 1);
      Reached(slots, r - 1);
    }
  }

  /** Free entries m to n list nothing and leave nothing pending. */
  lemma {:induction false} FreeRun(slots: seq<Slot>, m: nat, n: nat)
    requires SlotsOk(slots) && m <= n <= |slots| && (forall i :: m <= i < n ==> IsFree(slots[i]))
    ensures var tail := TailLines(slots, m, n, [], false);
            tail.acc == [] && tail.lines == [] && (tail.ended <==> exists i :: m <= i < n && IsEnd(slots[i]))
  {
    if m < n { FreeRun(slots, m, n - 1); }
  }

  // ---- adding an entry ----

  /** Slots r to r + |parts| hold the parts and then the 8.3 entry of one line; the rest is as before. */
  ghost predicate Written(slots: seq<Slot>, slots': seq<Slot>, r: nat, parts: seq<Part>, line: Dirent) {
    && SlotsOk(slots) && SlotsOk(slots') && |slots'| == |slots| && r + |parts| < |slots|
    && (forall i :: 0 <= i < |slots| && !(r <= i <= r + |parts|) ==> slots'[i] == slots[i])
    && (forall j: nat :: j < |parts| ==> PartWritten(slots', r, parts, j))
    && var e := slots'[r + |parts|]; !IsFree(e) && !IsLong(e) && DirentOf(parts, e, r + |parts|) == line
  }

  predicate PartWritten(slots: seq<Slot>, r: nat, parts: seq<Part>, j: nat)
    requires SlotsOk(slots) && j < |parts| && r + |parts| < |slots|
  {
    var e := slots[r + j];
    !IsFree(e) && e[11] == ATTR_LFN && parts[j] == Part(e[0] % 64, PartText(e, 0))
  }

  ghost predicate FreeFrom(slots: seq<Slot>, r: nat, n: nat)
    requires SlotsOk(slots)
  {
    r + n <= |slots| && forall i :: r <= i < r + n ==> IsFree(slots[i])
  }

  /** Scanning the parts collects them. */
  lemma {:induction false} PartsCollected(slots: seq<Slot>, slots': seq<Slot>, r: nat, parts: seq<Part>, line: Dirent, j: nat)
    requires Written(slots, slots', r, parts, line) && |parts| <= MAX_PARTS && j <= |parts|
    ensures TailLines(slots', r, r + j, [], false) == Scan(parts[..j], [], false)
  {
    if j > 0 {
      PartsCollected(slots, slots', r, parts, line, j - 1);
      assert PartWritten(slots', r, parts, j - 1);
      assert parts[..j] == parts[..j - 1] + [parts[j - 1]];
    }
  }

  lemma {:induction false} LineRead(slots: seq<Slot>, slots': seq<Slot>, r: nat, parts: seq<Part>, line: Dirent)
    requires Written(slots, slots', r, parts, line) && |parts| <= MAX_PARTS
    ensures TailLines(slots', r, r + |parts| + 1, [], false) == Scan([], [line], false)
  {
    PartsCollected(slots, slots', r, parts, line, |parts|);
    assert parts[..|parts|] == parts;
  }

  /** What follows the run lists the same as before, also when the run held the end mark. */
  lemma {:induction false} RestSame(slots: seq<Slot>, slots': seq<Slot>, m: nat, ended: bool)
    requires WellFormed(slots) && SlotsOk(slots') && m <= |slots| && |slots'| == |slots| && (forall i :: m <= i < |slots| ==> slots'[i] == slots[i])
    requires ended ==> forall i :: m <= i < |slots| ==> IsEnd(slots[i])
    ensures TailLines(slots', m, |slots|, [], false).lines == TailLines(slots, m, |slots|, [], ended).lines
  {
    if ended {
      TailEnded(slots, m, |slots|, []);
      FreeRun(slots', m, |slots|);
    } else {
      TailSame(slots, slots', m, |slots|, [], false);
    }
  }

  lemma {:induction false} RunLines(slots: seq<Slot>, r: nat, n: nat) returns (ended: bool)
    requires WellFormed(slots) && FreeFrom(slots, r, n) && NoEndBefore(slots, r) && n > 0
    ensures ScanTo(slots, r).acc == [] && !ScanTo(slots, r).ended
    ensures Listing(slots) == ScanTo(slots, r).lines + TailLines(slots, r + n, |slots|, [], ended).lines
    ensures ended ==> forall i :: r + n <= i < |slots| ==> IsEnd(slots[i])
  {
    var m, head := r + n, ScanTo(slots, r).lines;
    NothingPending(slots, r);
    FreeRun(slots, r, m);
    ended := TailLines(slots, r, m, [], false).ended;
    ScanSplit(slots, r, m);
    assert head + [] == head;
    assert ScanTo(slots, m) == Scan([], head, ended);
    ScanSplit(slots, m, |slots|);
  }

  /** Writing an entry over a free run that no end mark precedes adds its line to the listing and
      changes nothing else of it. */
  lemma {:induction false} AddExact(slots: seq<Slot>, slots': seq<Slot>, r: nat, parts: seq<Part>, line: Dirent)
    requires WellFormed(slots) && FreeFrom(slots, r, |parts| + 1) && NoEndBefore(slots, r)
    requires Written(slots, slots', r, parts, line) && |parts| <= MAX_PARTS
    ensures OneMore(Listing(slots), Listing(slots'), line)
  {
    var n := |parts| + 1;
    AddedLine(slots, slots', r, parts, line, n, r + n);
  }

  lemma {:induction false} AddedLine(slots: seq<Slot>, slots': seq<Slot>, r: nat, parts: seq<Part>, line: Dirent, n: nat, m: nat)
    requires WellFormed(slots) && n == |parts| + 1 && m == r + n && FreeFrom(slots, r, n) && NoEndBefore(slots, r)
    requires Written(slots, slots', r, parts, line) && |parts| <= MAX_PARTS
    ensures OneMore(Listing(slots), Listing(slots'), line)
  {
    var ended := RunLines(slots, r, n);
    LineAdded(slots, slots', r, parts, line, m);
    RestSame(slots, slots', m, ended);
    OneMoreAt(ScanTo(slots, r).lines, TailLines(slots, m, |slots|, [], ended).lines, line);
  }

  lemma {:induction false} LineAdded(slots: seq<Slot>, slots': seq<Slot>, r: nat, parts: seq<Part>, line: Dirent, m: nat)
    requires Written(slots, slots', r, parts, line) && |parts| <= MAX_PARTS && m == r + |parts| + 1
    requires ScanTo(slots, r).acc == [] && !ScanTo(slots, r).ended
    ensures Listing(slots') == ScanTo(slots, r).lines + [line] + TailLines(slots', m, |slots|, [], false).lines
  {
    ScanSame(slots, slots', r);
    ScanSplit(slots', r, m);
    LineRead(slots, slots', r, parts, line);
    assert ScanTo(slots', m) == Scan([], ScanTo(slots, r).lines + [line], false);
    ScanSplit(slots', m, |slots|);
  }

  lemma {:induction false} AddKeepsForm(slots: seq<Slot>, slots': seq<Slot>, r: nat, parts: seq<Part>, line: Dirent)
    requires WellFormed(slots) && FreeFrom(slots, r, |parts| + 1) && NoEndBefore(slots, r) && Written(slots, slots', r, parts, line)
    ensures WellFormed(slots')
  {
    forall i: nat | i < |slots'| ensures PartOk(slots', i) {
      assert PartOk(slots, i);
      if r <= i < r + |parts| {
        assert PartWritten(slots', r, parts, i - r);
        if i + 1 < r + |parts| { assert PartWritten(slots', r, parts, i + 1 - r); }
      }
    }
    forall i | r <= i < r + |parts| ensures !IsEnd(slots'[i]) { assert PartWritten(slots', r, parts, i - r); }
  }

  // ---- deleting an entry ----

  /** The entry with its first byte set to the deletion mark. */
  function Marked(e: Slot): (r: Slot)
    requires |e| == SLOT
    ensures |r| == SLOT && r[0] == FREE && r[11] == e[11]
  {
    [FREE] + e[1..]
  }

  /** Entries lo to at are marked deleted; the rest is as before. */
  ghost predicate Deleted(slots: seq<Slot>, slots': seq<Slot>, lo: nat, at: nat) {
    && SlotsOk(slots) && SlotsOk(slots') && |slots'| == |slots| && lo <= at < |slots|
    && (forall i :: 0 <= i < |slots| ==> slots'[i] == if lo <= i <= at then Marked(slots[i]) else slots[i])
  }

  /** Entries lo to `at` are the parts above the 8.3 entry `at`, all of them. */
  ghost predicate PartsAbove(slots: seq<Slot>, lo: nat, at: nat)
    requires SlotsOk(slots) && lo <= at < |slots|
  {
    && (forall i :: lo <= i < at ==> slots[i][11] == ATTR_LFN)
    && (lo > 0 ==> slots[lo - 1][11] != ATTR_LFN)
  }

  /** Parts and deleted parts list nothing. */
  lemma {:induction false} PartsSilent(slots: seq<Slot>, m: nat, n: nat, acc: seq<Part>)
    requires SlotsOk(slots) && m <= n <= |slots| && (forall i :: m <= i < n ==> !IsEnd(slots[i]) && slots[i][11] == ATTR_LFN)
    ensures TailLines(slots, m, n, acc, false).lines == [] && !TailLines(slots, m, n, acc, false).ended
  {
    if m < n { PartsSilent(slots, m, n - 1, acc); }
  }

  lemma {:induction false} DeletedSilent(slots: seq<Slot>, m: nat, n: nat, acc: seq<Part>)
    requires SlotsOk(slots) && m < n <= |slots| && (forall i :: m <= i < n ==> slots[i][0] == FREE)
    ensures TailLines(slots, m, n, acc, false) == Scan([], [], false)
  {
    if m + 1 < n { DeletedSilent(slots, m, n - 1, acc); }
  }

  /** Marking an entry and the parts above it deleted takes its line out of the listing and changes
      nothing else of it. */
  lemma {:induction false} DeleteExact(slots: seq<Slot>, slots': seq<Slot>, lo: nat, at: nat, line: Dirent)
    requires SlotsOk(slots) && Deleted(slots, slots', lo, at) && PartsAbove(slots, lo, at)
    requires NoEndBefore(slots, at) && !IsFree(slots[at]) && !IsLong(slots[at]) && line == DirentOf(ScanTo(slots, at).acc, slots[at], at)
    ensures OneMore(Listing(slots'), Listing(slots), line)
  {
    var head, tail := ScanTo(slots, lo).lines, TailLines(slots, at + 1, |slots|, [], false).lines;
    LineBefore(slots, lo, at, line);
    LineGone(slots, slots', lo, at);
    OneMoreAt(head, tail, line);
  }

  /** The listing around the line of entry `at`. */
  lemma {:induction false} LineBefore(slots: seq<Slot>, lo: nat, at: nat, line: Dirent)
    requires SlotsOk(slots) && lo <= at < |slots| && PartsAbove(slots, lo, at)
    requires NoEndBefore(slots, at) && !IsFree(slots[at]) && !IsLong(slots[at]) && line == DirentOf(ScanTo(slots, at).acc, slots[at], at)
    ensures Listing(slots) == ScanTo(slots, lo).lines + [line] + TailLines(slots, at + 1, |slots|, [], false).lines
  {
    LineReached(slots, lo, at, line);
    ScanSplit(slots, at + 1, |slots|);
  }

  lemma {:induction false} LineReached(slots: seq<Slot>, lo: nat, at: nat, line: Dirent)
    requires SlotsOk(slots) && lo <= at < |slots| && PartsAbove(slots, lo, at)
    requires NoEndBefore(slots, at) && !IsFree(slots[at]) && !IsLong(slots[at]) && line == DirentOf(ScanTo(slots, at).acc, slots[at], at)
    ensures ScanTo(slots, at + 1) == Scan([], ScanTo(slots, lo).lines + [line], false)
  {
    var head := ScanTo(slots, lo).lines;
    Reached(slots, lo);
    Reached(slots, at);
    ScanSplit(slots, lo, at);
    PartsSilent(slots, lo, at, ScanTo(slots, lo).acc);
    assert ScanTo(slots, at).lines == head + [] == head;
  }

  lemma {:induction false} LineGone(slots: seq<Slot>, slots': seq<Slot>, lo: nat, at: nat)
    requires Deleted(slots, slots', lo, at) && NoEndBefore(slots, at)
    ensures Listing(slots') == ScanTo(slots, lo).lines + TailLines(slots, at + 1, |slots|, [], false).lines
  {
    var head := ScanTo(slots, lo).lines;
    Reached(slots, lo);
    ScanSame(slots, slots', lo);
    ScanSplit(slots', lo, at + 1);
    DeletedSilent(slots', lo, at + 1, ScanTo(slots, lo).acc);
    assert ScanTo(slots', at + 1) == Scan([], head + [], false);
    assert head + [] == head;
    ScanSplit(slots', at + 1, |slots|);
    TailSame(slots, slots', at + 1, |slots|, [], false);
  }

  lemma {:induction false} DeleteKeepsForm(slots: seq<Slot>, slots': seq<Slot>, lo: nat, at: nat)
    requires WellFormed(slots) && Deleted(slots, slots', lo, at) && PartsAbove(slots, lo, at) && NoEndBefore(slots, at + 1)
    ensures WellFormed(slots')
  {
    forall i: nat | i < |slots'| ensures PartOk(slots', i) { assert PartOk(slots, i); }
  }
}
