/** Names in FAT directories (fs/fat32.c): the 8.3 form and the parts of a long name, as the Microsoft
    FAT32 File System Specification 1.03 lays them out in 32-byte entries. */
module DirNames {
  import opened Basics
  import opened LittleEndian

  type Text = seq<byte>
  type Slot = seq<byte>

  const SLOT: nat := 32
  const SPACE: byte := 0x20
  const DOT: byte := 0x2E
  const ATTR_LFN: byte := 0x0F
  const PART: nat := 13
  const MAX_PARTS: nat := 20

  function Upper(c: byte): byte { if 0x61 <= c <= 0x7A then c - 0x20 else c }

  function UpperAll(s: Text): (r: Text)
    ensures |r| == |s| && forall i :: 0 <= i < |s| ==> r[i] == Upper(s[i])
  {
    if s == [] then [] else [Upper(s[0])] + UpperAll(s[1..])
  }

  /** valid_short_char */
  predicate ValidShortChar(c: byte) {
    0x41 <= c <= 0x5A || 0x30 <= c <= 0x39 || c == 0x5F || c == 0x2D || c == 0x21 || c == 0x24 || c == 0x5E
  }

  predicate AllValid(s: Text) { forall i :: 0 <= i < |s| ==> ValidShortChar(Upper(s[i])) }

  // ---- 8.3 names ----

  /** Index of the last dot; the length if there is none. */
  function LastDot(name: Text): (d: nat)
    ensures d <= |name| && (d < |name| ==> name[d] == DOT)
    ensures forall i :: d < i < |name| ==> name[i] != DOT
    ensures d == |name| ==> forall i :: 0 <= i < |name| ==> name[i] != DOT
  {
    if name == [] then 0
    else if name[|name| - 1] == DOT then |name| - 1
    else var d := LastDot(name[..|name| - 1]); if d == |name| - 1 then |name| else d
  }

  /** The characters that go into the two fields of the short name. */
  function BasePart(name: Text): Text { name[..Min(8, LastDot(name))] }

  function ExtPart(name: Text): Text {
    var d := LastDot(name);
    if d == |name| then [] else name[d + 1..Min(d + 4, |name|)]
  }

  function Padded(s: Text, n: nat): (r: Text)
    requires |s| <= n
    ensures |r| == n && r[..|s|] == s && forall i :: |s| <= i < n ==> r[i] == SPACE
    decreases n - |s|
  {
    if |s| == n then s else Padded(s + [SPACE], n)
  }

  datatype MaybeName = NoName | Name11(s: Text)

  /** The name can be written as a short name, cut to 8 and 3 characters if it is longer. */
  predicate Encodable(name: Text) {
    LastDot(name) != 0 && BasePart(name) != [] && AllValid(BasePart(name)) && AllValid(ExtPart(name))
  }

  function EncodeShort(name: Text): (r: MaybeName)
    ensures r.Name11? ==> |r.s| == 11
  {
    if Encodable(name) then Name11(Padded(UpperAll(BasePart(name)), 8) + Padded(UpperAll(ExtPart(name)), 3)) else NoName
  }

  /** encode_short_name */
  method EncodeShortName(name: Text) returns (r: MaybeName)
    ensures r == EncodeShort(name)
  {
    var dot := FindDot(name);
    if dot == 0 { return NoName; }
    var ok, base := CopyUpper(name, 0, Min(8, dot));
    if !ok || base == [] { return NoName; }
    if dot == |name| {
      r := Name11(Padded(base, 8) + Padded([], 3));
    } else {
      var good, ext := CopyUpper(name, dot + 1, Min(dot + 4, |name|));
      if !good { return NoName; }
      r := Name11(Padded(base, 8) + Padded(ext, 3));
    }
  }

  method FindDot(name: Text) returns (d: nat)
    ensures d == LastDot(name)
  {
    d := |name|;
    var i: nat := 0;
    while i < |name|
      invariant i <= |name| && (d == |name| || (d < i && name[d] == DOT))
      invariant forall j :: (if d == |name| then 0 <= j < i else d < j < i) ==> name[j] != DOT
    {
      if name[i] == DOT { d := i; }
      i := i + 1;
    }
    ghost var k := LastDot(name);
    assert d < |name| ==> !(k < d);
    assert k < |name| ==> !(d < k);
  }

  /** Copies characters lo to hi in upper case; fails at one that a short name cannot hold. */
  method CopyUpper(name: Text, lo: nat, hi: nat) returns (ok: bool, s: Text)
    requires lo <= hi <= |name|
    ensures ok <==> AllValid(name[lo..hi])
    ensures ok ==> s == UpperAll(name[lo..hi])
  {
    s := [];
    var i: nat := lo;
    while i < hi
      invariant lo <= i <= hi && |s| == i - lo
      invariant forall j :: 0 <= j < i - lo ==> s[j] == Upper(name[lo + j]) && ValidShortChar(s[j])
    {
      var c := Upper(name[i]);
      if !ValidShortChar(c) {
        assert !ValidShortChar(Upper(name[lo..hi][i - lo]));
        return false, s;
      }
      s := s + [c];
      i := i + 1;
    }
    ghost var part := name[lo..hi];
    assert forall j :: 0 <= j < |part| ==> part[j] == name[lo + j];
    assert s == UpperAll(part);
    ok := true;
  }

  /** Characters up to the first space. */
  function UpToSpace(s: Text): (r: Text)
    ensures |r| <= |s| && r == s[..|r|] && SPACE !in r && (|r| < |s| ==> s[|r|] == SPACE)
  {
    if s == [] || s[0] == SPACE then [] else [s[0]] + UpToSpace(s[1..])
  }

  /** build_short_name */
  function ShortName(e: Text): Text
    requires |e| >= 11
  {
    UpperAll(UpToSpace(e[..8])) + (if e[8] == SPACE then [] else [DOT] + UpperAll(UpToSpace(e[8..11])))
  }

  lemma {:induction false} SpaceStops(s: Text, t: Text)
    requires SPACE !in s && (t == [] || t[0] == SPACE)
    ensures UpToSpace(s + t) == s
  {
    if s == [] {
      assert s + t == t;
    } else {
      assert (s + t)[1..] == s[1..] + t;
      SpaceStops(s[1..], t);
    }
  }

  lemma {:induction false} PaddedRead(s: Text, n: nat)
    requires |s| <= n && SPACE !in s
    ensures UpToSpace(Padded(s, n)) == s
  {
    var p := Padded(s, n);
    assert p == s + p[|s|..];
    SpaceStops(s, p[|s|..]);
  }

  lemma {:induction false} ValidIsUpper(s: Text)
    requires forall i :: 0 <= i < |s| ==> ValidShortChar(s[i])
    ensures UpperAll(s) == s && SPACE !in s && DOT !in s
  {
  }

  lemma {:induction false} UpperValid(s: Text)
    requires AllValid(s)
    ensures forall i :: 0 <= i < |s| ==> ValidShortChar(UpperAll(s)[i])
  {
  }

  /** What a short entry made from a name reads as. */
  lemma {:induction false} ShortReads(name: Text, e: Text)
    requires EncodeShort(name).Name11? && |e| >= 11 && e[..11] == EncodeShort(name).s
    ensures ShortName(e) == UpperAll(BasePart(name)) + (if ExtPart(name) == [] then [] else [DOT] + UpperAll(ExtPart(name)))
  {
    var b, x := UpperAll(BasePart(name)), UpperAll(ExtPart(name));
    UpperValid(BasePart(name));
    UpperValid(ExtPart(name));
    ValidIsUpper(b);
    ValidIsUpper(x);
    PaddedRead(b, 8);
    PaddedRead(x, 3);
    var f := e[..11];
    assert e[..8] == f[..8] == Padded(b, 8);
    assert e[8..11] == f[8..11] == Padded(x, 3);
    assert e[8] == Padded(x, 3)[0];
  }

  /** Every character is one a short name keeps (lfn_parts_for). */
  predicate ShortIsExact(name: Text) { forall i :: 0 <= i < |name| ==> name[i] == DOT || ValidShortChar(name[i]) }

  /** The name has the shape of a short name: up to 8 characters, or those, a dot and 1 to 3 more. */
  predicate FitsShort(name: Text) {
    var d := LastDot(name);
    d <= 8 && (d == |name| || 1 <= |name| - d - 1 <= 3)
  }

  lemma {:induction false} ExactUpper(name: Text, lo: nat, hi: nat)
    requires ShortIsExact(name) && lo <= hi <= |name|
    ensures UpperAll(name[lo..hi]) == name[lo..hi]
  {
    var s := name[lo..hi];
    forall i | 0 <= i < |s| ensures Upper(s[i]) == s[i] { assert s[i] == name[lo + i]; }
  }

  /** What the short name of such a name reads as. */
  lemma {:induction false} ExactReads(name: Text, e: Text)
    requires EncodeShort(name).Name11? && ShortIsExact(name) && |e| >= 11 && e[..11] == EncodeShort(name).s
    ensures ShortName(e) == BasePart(name) + (if ExtPart(name) == [] then [] else [DOT] + ExtPart(name))
  {
    var d := LastDot(name);
    ShortReads(name, e);
    ExactUpper(name, 0, Min(8, d));
    assert BasePart(name) == name[0..Min(8, d)];
    if d < |name| { ExactUpper(name, d + 1, Min(d + 4, |name|)); }
  }

  lemma {:induction false} PartsMakeName(name: Text)
    ensures BasePart(name) + (if ExtPart(name) == [] then [] else [DOT] + ExtPart(name)) == name <==> FitsShort(name)
  {
    var d := LastDot(name);
    var r := BasePart(name) + (if ExtPart(name) == [] then [] else [DOT] + ExtPart(name));
    assert |BasePart(name)| == Min(8, d);
    if d < |name| {
      assert |ExtPart(name)| == Min(3, |name| - d - 1);
      assert name == name[..d] + [DOT] + name[d + 1..];
    }
    assert FitsShort(name) <==> |r| == |name|;
  }

  /** A name that gets no long-name entries is read back as it was exactly when it has the shape of a
      short name: a longer one is cut without notice. */
  lemma {:induction false} ShortNameExact(name: Text, e: Text)
    requires EncodeShort(name).Name11? && ShortIsExact(name) && |e| >= 11 && e[..11] == EncodeShort(name).s
    ensures ShortName(e) == name <==> FitsShort(name)
  {
    ExactReads(name, e);
    PartsMakeName(name);
  }

  /** A name of ten capitals gets a short entry without long-name parts, and is read back as another name. */
  lemma LongBaseIsCut(e: Text)
    requires |e| >= 11 && (EncodeShort(TenCapitals()).Name11? ==> e[..11] == EncodeShort(TenCapitals()).s)
    ensures EncodeShort(TenCapitals()).Name11? && ShortIsExact(TenCapitals()) && ShortName(e) != TenCapitals()
  {
    var name := TenCapitals();
    assert LastDot(name) > 8;
    ShortNameExact(name, e);
  }

  function TenCapitals(): Text { [0x41, 0x41, 0x41, 0x41, 0x41, 0x41, 0x41, 0x41, 0x41, 0x41] }

  // ---- long names ----

  /** Place of character i in the entry of a part. */
  function CharOff(i: nat): (o: nat)
    requires i < PART
    ensures 1 <= o <= 30 && o != 10 && o != 11 && o != 12 && o != 13 && o != 25 && o != 26 && o != 27
  {
    if i < 5 then 1 + 2 * i else if i < 11 then 14 + 2 * (i - 5) else 28 + 2 * (i - 11)
  }

  /** lfn_parse_part: the characters up to a 0x0000 or 0xFFFF. */
  function PartText(e: Slot, i: nat): (t: Text)
    requires |e| == SLOT && i <= PART
    decreases PART - i
  {
    if i == PART then []
    else
      var lo, hi := e[CharOff(i)], e[CharOff(i) + 1];
      if (lo == 0 && hi == 0) || (lo == 0xFF && hi == 0xFF) then []
      else [if hi == 0 then lo else 0x3F] + PartText(e, i + 1)
  }

  /** The entry e holds characters start to start + 13 of the name. */
  ghost predicate HoldsPart(e: Slot, name: Text, start: nat, n: nat)
    requires start + PART <= |name| && n <= PART
  {
    |e| == SLOT && forall i: nat :: i < n ==> e[CharOff(i)] == name[start + i] && e[CharOff(i) + 1] == 0
  }

  /** lfn_fill_part, for a part that is full */
  method FillPart(name: Text, start: nat, sequence: nat, last: bool, checksum: byte) returns (e: Slot)
    requires start + PART <= |name| && 1 <= sequence <= MAX_PARTS
    ensures HoldsPart(e, name, start, PART) && e[0] == (if last then sequence + 0x40 else sequence) && e[11] == ATTR_LFN && e[13] == checksum
  {
    e := seq(SLOT, _ => 0xFF);
    e := e[0 := if last then sequence + 0x40 else sequence];
    e := e[11 := ATTR_LFN][13 := checksum][26 := 0][27 := 0];
    var i: nat := 0;
    while i < PART
      invariant i <= PART && HoldsPart(e, name, start, i)
      invariant e[0] == (if last then sequence + 0x40 else sequence) && e[11] == ATTR_LFN && e[13] == checksum
    {
      ghost var before := e;
      e := e[CharOff(i) := name[start + i]][CharOff(i) + 1 := 0];
      forall j: nat | j < i ensures e[CharOff(j)] == name[start + j] && e[CharOff(j) + 1] == 0 {
        CharsApart(j, i);
        assert before[CharOff(j)] == name[start + j] && before[CharOff(j) + 1] == 0;
      }
      i := i + 1;
    }
  }

  lemma {:induction false} CharsApart(i: nat, j: nat)
    requires i < PART && j < PART && i != j
    ensures CharOff(i) != CharOff(j) && CharOff(i) != CharOff(j) + 1 && CharOff(i) + 1 != CharOff(j)
  {
  }

  /** A full part reads back as its characters. */
  lemma {:induction false} PartReads(e: Slot, name: Text, start: nat, i: nat)
    requires start + PART <= |name| && NoNul(name) && HoldsPart(e, name, start, PART) && i <= PART
    ensures PartText(e, i) == name[start + i..start + PART]
    decreases PART - i
  {
    if i < PART {
      assert e[CharOff(i)] == name[start + i];
      PartReads(e, name, start, i + 1);
      assert name[start + i..start + PART] == [name[start + i]] + name[start + i + 1..start + PART];
    }
  }

  /** lfn_checksum */
  function Checksum(short11: Text): byte {
    if short11 == [] then 0
    else var sum := Checksum(short11[..|short11| - 1]); (sum % 2 * 128 + sum / 2 + short11[|short11| - 1]) % 256
  }

  /** The number of parts lfn_parts_for asks for; 0 if the short name will do, or if there is none. */
  function PartsFor(name: Text): nat {
    if EncodeShort(name).NoName? || ShortIsExact(name) then 0 else (|name| + 12) / PART
  }

  // ---- putting parts together ----

  datatype Part = Part(sequence: nat, text: Text)

  /** The text of the first part with the given sequence number. */
  function TextOf(acc: seq<Part>, sequence: nat): Text {
    if acc == [] then [] else if acc[0].sequence == sequence then acc[0].text else TextOf(acc[1..], sequence)
  }

  /** lfn_assemble: the parts in the order of their sequence numbers. */
  function Assemble(acc: seq<Part>, n: nat): Text {
    if n == 0 then [] else Assemble(acc, n - 1) + TextOf(acc, n)
  }

  /** The parts that a name of n full parts gives, in the order create_dir_entries stores them. */
  function PartsOf(name: Text, n: nat): (parts: seq<Part>)
    requires n * PART <= |name|
    ensures |parts| == n && forall k: nat :: k < n ==> parts[k] == Part(k + 1, name[k * PART..k * PART + PART])
  {
    if n == 0 then [] else PartsOf(name, n - 1) + [Part(n, name[(n - 1) * PART..(n - 1) * PART + PART])]
  }

  /** The parts of a name in any order: each one there, with its own piece of the name. */
  ghost predicate Arranges(acc: seq<Part>, name: Text, n: nat)
    requires n * PART <= |name|
  {
    && (forall j :: 0 <= j < |acc| ==> PieceOf(acc[j], name, n))
    && (forall k: nat :: 1 <= k <= n ==> Holds(acc, k))
  }

  predicate PieceOf(part: Part, name: Text, n: nat)
    requires n * PART <= |name|
  {
    1 <= part.sequence <= n && part.text == name[(part.sequence - 1) * PART..part.sequence * PART]
  }

  predicate Holds(acc: seq<Part>, k: nat) { exists j :: 0 <= j < |acc| && acc[j].sequence == k }

  lemma {:induction false} TextIn(acc: seq<Part>, name: Text, n: nat, k: nat)
    requires n * PART <= |name| && 1 <= k <= n && (forall j :: 0 <= j < |acc| ==> PieceOf(acc[j], name, n)) && Holds(acc, k)
    ensures TextOf(acc, k) == name[(k - 1) * PART..k * PART]
  {
    assert PieceOf(acc[0], name, n);
    if acc[0].sequence != k {
      var j :| 0 <= j < |acc| && acc[j].sequence == k;
      assert acc[1..][j - 1].sequence == k;
      assert forall i :: 0 <= i < |acc[1..]| ==> acc[1..][i] == acc[i + 1];
      TextIn(acc[1..], name, n, k);
    }
  }

  /** However the parts are arranged in the directory, assembling them gives the name back. */
  lemma {:induction false} AssembleAnyOrder(acc: seq<Part>, name: Text, n: nat, k: nat)
    requires n * PART <= |name| && k <= n && Arranges(acc, name, n)
    ensures Assemble(acc, k) == name[..k * PART]
  {
    if k > 0 {
      AssembleAnyOrder(acc, name, n, k - 1);
      TextIn(acc, name, n, k);
      assert name[..k * PART] == name[..(k - 1) * PART] + name[(k - 1) * PART..k * PART];
    }
  }

  /** The parts the other way round, as the FAT specification has them: the highest number first. */
  function Backwards(acc: seq<Part>): (r: seq<Part>)
    ensures |r| == |acc| && forall j :: 0 <= j < |acc| ==> r[j] == acc[|acc| - 1 - j]
  {
    seq(|acc|, j requires 0 <= j < |acc| => acc[|acc| - 1 - j])
  }

  lemma {:induction false} BackwardsArranges(acc: seq<Part>, name: Text, n: nat)
    requires n * PART <= |name| && Arranges(acc, name, n)
    ensures Arranges(Backwards(acc), name, n)
  {
    var r := Backwards(acc);
    forall j | 0 <= j < |r| ensures PieceOf(r[j], name, n) { assert PieceOf(acc[|acc| - 1 - j], name, n); }
    forall k: nat | 1 <= k <= n ensures Holds(r, k) {
      assert Holds(acc, k);
      var j :| 0 <= j < |acc| && acc[j].sequence == k;
      assert r[|acc| - 1 - j] == acc[j];
    }
  }

  lemma {:induction false} PartsArrange(name: Text, n: nat)
    requires n * PART <= |name|
    ensures Arranges(PartsOf(name, n), name, n)
  {
    var acc := PartsOf(name, n);
    forall j: nat | j < n ensures PieceOf(acc[j], name, n) { OwnPiece(name, n, j, acc[j]); }
    forall k: nat | 1 <= k <= n ensures Holds(acc, k) { assert acc[k - 1].sequence == k; }
  }

  lemma {:induction false} OwnPiece(name: Text, n: nat, j: nat, part: Part)
    requires n * PART <= |name| && j < n && part == Part(j + 1, name[j * PART..j * PART + PART])
    ensures PieceOf(part, name, n)
  {
  }

  /** Lowest first or highest first, the reader accepts both. */
  lemma {:induction false} AssembleReads(name: Text, n: nat)
    requires n * PART <= |name|
    ensures Assemble(PartsOf(name, n), n) == name[..n * PART] && Assemble(Backwards(PartsOf(name, n)), n) == name[..n * PART]
  {
    var acc := PartsOf(name, n);
    PartsArrange(name, n);
    BackwardsArranges(acc, name, n);
    AssembleAnyOrder(acc, name, n, n);
    AssembleAnyOrder(Backwards(acc), name, n, n);
  }
}
