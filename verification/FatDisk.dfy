/** A FAT32 volume as an array of 512-byte sectors (fs/fat32.c), and what a reader of those
    sectors sees: the allocation table and the data clusters. */
module FatDisk {
  import opened LittleEndian

  const SECTOR: nat := 512
  const EOC: nat := 0x0FFF_FFF8
  const BAD: nat := 0x0FFF_FFF7
  const ENTRY_MOD: nat := 0x1000_0000    // the low 28 bits of an entry count

  type Sector = seq<byte>

  /** The product n * m, as repeated addition (TimesIsProduct). */
  function Times(n: nat, m: nat): nat {
    if n == 0 then 0 else Times(n - 1, m) + m
  }

  lemma {:induction false} TimesIsProduct(n: nat, m: nat)
    ensures Times(n, m) == n * m
  {
    if n > 0 {
      TimesIsProduct(n - 1, m);
      assert n * m == (n - 1) * m + m;
    }
  }

  lemma {:induction false} TimesMono(a: nat, b: nat, m: nat)
    requires a <= b
    ensures Times(a, m) <= Times(b, m)
  {
    if a < b { TimesMono(a, b - 1, m); }
  }

  /** The fields of fat32_ctx_t that the data path uses. */
  datatype Geometry = Geometry(fatStart: nat, fatSize: nat, dataStart: nat, spc: nat) {
    /** Number of entries of the table: 128 in each sector. */
    function Total(): nat { fatSize * 128 }

    function Bpc(): nat { SECTOR * spc }

    function EntryLba(cl: nat): nat { fatStart + cl * 4 / SECTOR }

    function EntryOff(cl: nat): nat { cl * 4 % SECTOR }

    function ClusterLba(cl: nat): nat
      requires cl >= 2
    {
      dataStart + Times(cl - 2, spc)
    }

    /** The first cluster number that does not lie wholly on a device of n sectors (LimitIsEnd). */
    function Limit(n: nat): nat {
      if spc == 0 || n <= dataStart then 2 else 2 + (n - dataStart) / spc
    }
  }

  lemma {:induction false} QuotientEnds(a: nat, b: nat, m: nat)
    requires m > 0
    ensures a * m + m <= b <==> a < b / m
  {
    var q := b / m;
    assert b == q * m + b % m;
    if a < q {
      assert (a + 1) * m <= q * m;
    } else {
      assert q * m <= a * m;
    }
  }

  lemma {:induction false} LimitIsEnd(g: Geometry, n: nat, cl: nat)
    requires g.spc >= 1 && cl >= 2
    ensures g.ClusterLba(cl) + g.spc <= n <==> cl < g.Limit(n)
  {
    TimesIsProduct(cl - 2, g.spc);
    if n > g.dataStart { QuotientEnds(cl - 2, n - g.dataStart, g.spc); }
  }

  /** A table is a whole number of sectors, so it can have more entries than the device has clusters:
      on a 63 MiB partition with 512-byte clusters, 32 reserved sectors and two tables, 96 more. */
  lemma TableOutrunsDevice()
    ensures var g := Geometry(32, 993, 2018, 1); g.Limit(129024) == 127008 && g.Total() == 127104
  {
  }

  /** cluster_valid */
  predicate ClusterValid(cl: nat) {
    2 <= cl < BAD
  }

  ghost predicate SectorsOk(ss: seq<Sector>) {
    forall i :: 0 <= i < |ss| ==> |ss[i]| == SECTOR
  }

  /** The table lies on the device and before the data area. */
  ghost predicate TableOk(g: Geometry, ss: seq<Sector>) {
    g.fatStart + g.fatSize <= g.dataStart && g.fatStart + g.fatSize <= |ss| && SectorsOk(ss)
  }

  /** Sector numbers of clusters fit in 32 bits. Not every table entry need have a cluster on the
      device. */
  ghost predicate DataOk(g: Geometry, ss: seq<Sector>) {
    && g.spc >= 1 && 2 <= g.Total() <= BAD
    && g.dataStart + Times(g.Total() - 2, g.spc) <= 0x1_0000_0000
    && SectorsOk(ss)
  }

  ghost predicate DiskOk(g: Geometry, ss: seq<Sector>) {
    TableOk(g, ss) && DataOk(g, ss)
  }

  lemma {:induction false} EntryPlace(g: Geometry, cl: nat)
    requires cl < g.Total()
    ensures g.fatStart <= g.EntryLba(cl) < g.fatStart + g.fatSize
    ensures g.EntryOff(cl) + 4 <= SECTOR && g.EntryOff(cl) % 4 == 0
    ensures cl == (g.EntryLba(cl) - g.fatStart) * 128 + g.EntryOff(cl) / 4
  {
  }

  lemma {:induction false} ClustersApart(g: Geometry, c: nat, d: nat)
    requires 2 <= c < d
    ensures g.ClusterLba(c) + g.spc <= g.ClusterLba(d)
  {
    TimesMono(c - 1, d - 2, g.spc);
  }

  // ---- the table ----

  function RawIn(s: Sector, off: nat): nat
    requires off + 4 <= |s|
  {
    FromLe(s[off..off + 4])
  }

  /** fat_read_entry on the sectors. */
  ghost function Entry(g: Geometry, ss: seq<Sector>, cl: nat): nat
    requires TableOk(g, ss) && cl < g.Total()
  {
    EntryPlace(g, cl);
    RawIn(ss[g.EntryLba(cl)], g.EntryOff(cl)) % ENTRY_MOD
  }

  /** The sector after fat_write_entry: the four top bits of the old entry survive. */
  function PutEntry(s: Sector, off: nat, value: nat): (t: Sector)
    requires off + 4 <= |s|
    ensures |t| == |s|
  {
    var cur := RawIn(s, off);
    var newval := cur - cur % ENTRY_MOD + value % ENTRY_MOD;
    s[..off] + ToLe(newval, 4) + s[off + 4..]
  }

  lemma {:induction false} PutGet(s: Sector, off: nat, value: nat, o: nat)
    requires off + 4 <= |s| && o + 4 <= |s| && (o == off || o + 4 <= off || off + 4 <= o)
    ensures RawIn(PutEntry(s, off, value), o) % ENTRY_MOD == if o == off then value % ENTRY_MOD else RawIn(s, o) % ENTRY_MOD
  {
    var t := PutEntry(s, off, value);
    var cur := RawIn(s, off);
    var newval := cur - cur % ENTRY_MOD + value % ENTRY_MOD;
    if o == off {
      assert t[o..o + 4] == ToLe(newval, 4);
      FromToLe(newval, 4);
      Pow256Values();
      ToFromLe(s[off..off + 4]);
      TopNibble(cur, value);
    } else {
      assert t[o..o + 4] == s[o..o + 4];
    }
  }

  lemma {:induction false} TopNibble(cur: nat, value: nat)
    requires cur < 0x1_0000_0000
    ensures var n := cur - cur % ENTRY_MOD + value % ENTRY_MOD; n < 0x1_0000_0000 && n % ENTRY_MOD == value % ENTRY_MOD
  {
  }

  function PutEntryAt(g: Geometry, ss: seq<Sector>, cl: nat, value: nat): seq<Sector>
    requires g.EntryLba(cl) < |ss| && g.EntryOff(cl) + 4 <= |ss[g.EntryLba(cl)]|
  {
    ss[g.EntryLba(cl) := PutEntry(ss[g.EntryLba(cl)], g.EntryOff(cl), value)]
  }

  lemma {:induction false} EntryOnDisk(g: Geometry, ss: seq<Sector>, cl: nat)
    requires TableOk(g, ss) && cl < g.Total()
    ensures g.EntryLba(cl) < g.fatStart + g.fatSize <= |ss| && g.EntryOff(cl) + 4 <= SECTOR == |ss[g.EntryLba(cl)]|
  {
    EntryPlace(g, cl);
  }

  /** Writing one entry changes that entry and no other. */
  lemma {:induction false} PutEntryFrame(g: Geometry, ss: seq<Sector>, cl: nat, value: nat, d: nat)
    requires TableOk(g, ss) && cl < g.Total() && d < g.Total()
    requires g.EntryLba(cl) < |ss| && g.EntryOff(cl) + 4 <= |ss[g.EntryLba(cl)]|
    ensures TableOk(g, PutEntryAt(g, ss, cl, value))
    ensures Entry(g, PutEntryAt(g, ss, cl, value), d) == if d == cl then value % ENTRY_MOD else Entry(g, ss, d)
  {
    EntryPlace(g, cl);
    EntryPlace(g, d);
    if g.EntryLba(d) == g.EntryLba(cl) {
      assert d == cl <==> g.EntryOff(d) / 4 == g.EntryOff(cl) / 4;
      Aligned4(g.EntryOff(d), g.EntryOff(cl));
      PutGet(ss[g.EntryLba(cl)], g.EntryOff(cl), value, g.EntryOff(d));
    }
  }

  /** The table lies before the data area, so writing an entry touches no data cluster. */
  lemma {:induction false} PutEntryKeepsData(g: Geometry, ss: seq<Sector>, cl: nat, value: nat, d: nat)
    requires DiskOk(g, ss) && cl < g.Total() && 2 <= d < g.Total()
    requires g.EntryLba(cl) < g.dataStart && g.EntryLba(cl) < |ss| && g.EntryOff(cl) + 4 <= |ss[g.EntryLba(cl)]|
    ensures DataOk(g, PutEntryAt(g, ss, cl, value))
    ensures Cluster(g, PutEntryAt(g, ss, cl, value), d) == Cluster(g, ss, d)
  {
    var ss' := PutEntryAt(g, ss, cl, value);
    var l := g.ClusterLba(d);
    assert Present(ss', l, g.spc) == Present(ss, l, g.spc);
  }

  lemma {:induction false} Aligned4(a: nat, b: nat)
    requires a % 4 == 0 && b % 4 == 0
    ensures a / 4 == b / 4 <==> a == b
    ensures a == b || a + 4 <= b || b + 4 <= a
  {
  }

  // ---- the data clusters ----

  /** Consecutive sectors as one buffer, as block_read delivers them. */
  function Flatten(ss: seq<Sector>): seq<byte> {
    if ss == [] then [] else ss[0] + Flatten(ss[1..])
  }

  /** A buffer cut into n sectors, as block_write stores it. */
  function Chop(buf: seq<byte>, n: nat): (ss: seq<Sector>)
    requires |buf| == SECTOR * n
    ensures |ss| == n
    ensures forall i :: 0 <= i < n ==> |ss[i]| == SECTOR
  {
    if n == 0 then [] else [buf[..SECTOR]] + Chop(buf[SECTOR..], n - 1)
  }

  lemma {:induction false} FlattenChop(buf: seq<byte>, n: nat)
    requires |buf| == SECTOR * n
    ensures Flatten(Chop(buf, n)) == buf
  {
    if n > 0 {
      FlattenChop(buf[SECTOR..], n - 1);
      assert Chop(buf, n)[1..] == Chop(buf[SECTOR..], n - 1);
    }
  }

  lemma {:induction false} FlattenLength(ss: seq<Sector>)
    requires forall i :: 0 <= i < |ss| ==> |ss[i]| == SECTOR
    ensures |Flatten(ss)| == SECTOR * |ss|
  {
    if ss != [] { FlattenLength(ss[1..]); }
  }

  lemma {:induction false} FlattenPrefix(ss: seq<Sector>, n: nat)
    requires n <= |ss| && forall i :: 0 <= i < |ss| ==> |ss[i]| == SECTOR
    ensures |Flatten(ss)| == SECTOR * |ss|
    ensures Flatten(ss[..n]) == Flatten(ss)[..SECTOR * n]
  {
    FlattenLength(ss);
    if n > 0 {
      FlattenPrefix(ss[1..], n - 1);
      assert ss[..n][1..] == ss[1..][..n - 1];
      FlattenLength(ss[1..]);
    }
  }

  function Zeros(n: nat): (z: seq<byte>)
    ensures |z| == n && forall i :: 0 <= i < n ==> z[i] == 0
  {
    seq(n, i => 0)
  }

  /** Those of the n sectors from lba on that the device has. */
  function Present(ss: seq<Sector>, lba: nat, n: nat): (part: seq<Sector>)
    ensures |part| <= n
  {
    if lba >= |ss| then [] else if lba + n > |ss| then ss[lba..] else ss[lba..lba + n]
  }

  /** The bytes of a data cluster; zeros stand for what is not on the device. */
  ghost function Cluster(g: Geometry, ss: seq<Sector>, cl: nat): (b: seq<byte>)
    requires DataOk(g, ss) && 2 <= cl < g.Total()
    ensures |b| == g.Bpc()
  {
    var part := Present(ss, g.ClusterLba(cl), g.spc);
    FlattenLength(part);
    Flatten(part) + Zeros(SECTOR * (g.spc - |part|))
  }

  function PutSectors(ss: seq<Sector>, lba: nat, part: seq<Sector>): seq<Sector>
    requires lba + |part| <= |ss|
  {
    ss[..lba] + part + ss[lba + |part|..]
  }

  /** Writing a cluster changes that cluster and no other. */
  lemma {:induction false} PutClusterFrame(g: Geometry, ss: seq<Sector>, cl: nat, buf: seq<byte>, d: nat)
    requires DataOk(g, ss) && 2 <= cl < g.Total() && |buf| == g.Bpc() && 2 <= d < g.Total()
    requires g.ClusterLba(cl) + g.spc <= |ss|
    ensures DataOk(g, PutSectors(ss, g.ClusterLba(cl), Chop(buf, g.spc)))
    ensures Cluster(g, PutSectors(ss, g.ClusterLba(cl), Chop(buf, g.spc)), d) == if d == cl then buf else Cluster(g, ss, d)
  {
    var lba, ld := g.ClusterLba(cl), g.ClusterLba(d);
    var ss' := PutSectors(ss, lba, Chop(buf, g.spc));
    if d == cl {
      assert Present(ss', lba, g.spc) == Chop(buf, g.spc);
      FlattenChop(buf, g.spc);
    } else {
      if d < cl { ClustersApart(g, d, cl); } else { ClustersApart(g, cl, d); }
      assert Present(ss', ld, g.spc) == Present(ss, ld, g.spc);
    }
  }

  lemma {:induction false} PutClusterKeepsTable(g: Geometry, ss: seq<Sector>, lba: nat, part: seq<Sector>, d: nat)
    requires TableOk(g, ss) && g.dataStart <= lba && lba + |part| <= |ss| && SectorsOk(part) && d < g.Total()
    ensures TableOk(g, PutSectors(ss, lba, part))
    ensures Entry(g, PutSectors(ss, lba, part), d) == Entry(g, ss, d)
  {
    EntryPlace(g, d);
  }
}
