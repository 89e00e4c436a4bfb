/** The layout of a program's initial stack (build_exec_stack in process/process.c), and how it is
    read back, after section 3.4.1 of the System V AMD64 psABI. */
module StackLayout {
  import opened LittleEndian
  import opened PageTables
  import opened FrameLedger
  import opened UserMemory

  const MAX_STRINGS: nat := 128            // room in the address tables of build_exec_stack

  type CString = seq<byte>

  // ---- sizes and addresses ----

  function Round8(n: nat): nat { (n + 7) / 8 * 8 }

  /** Bytes a string takes, with its NUL. */
  function Span(s: CString): nat { Round8(|s| + 1) }

  function Spans(strs: seq<CString>, n: nat): nat
    requires n <= |strs|
  {
    if n == 0 then 0 else Spans(strs, n - 1) + Span(strs[n - 1])
  }

  lemma {:induction false} Round8Facts(n: nat)
    ensures n <= Round8(n) < n + 8 && Round8(n) % 8 == 0
  {
  }

  lemma {:induction false} SpansAligned(strs: seq<CString>, n: nat)
    requires n <= |strs|
    ensures Spans(strs, n) % 8 == 0
  {
    if n > 0 {
      SpansAligned(strs, n - 1);
      Round8Facts(|strs[n - 1]| + 1);
    }
  }

  lemma {:induction false} SpansGrow(strs: seq<CString>, i: nat, n: nat)
    requires i <= n <= |strs|
    ensures Spans(strs, i) <= Spans(strs, n)
  {
    if i < n { SpansGrow(strs, i, n - 1); }
  }

  /** The whole block: strings, argument count, two terminated arrays and the auxiliary pair. */
  function Total(argv: seq<CString>, envp: seq<CString>): nat {
    Spans(envp, |envp|) + Spans(argv, |argv|) + 8 * (5 + |argv| + |envp|)
  }

  function Pad(total: nat): nat { if total % 16 != 0 then 8 else 0 }

  lemma {:induction false} TotalAligned(argv: seq<CString>, envp: seq<CString>)
    ensures Total(argv, envp) % 8 == 0
  {
    SpansAligned(argv, |argv|);
    SpansAligned(envp, |envp|);
  }

  /** The stack pointer handed to the program. */
  function StackPointer(argv: seq<CString>, envp: seq<CString>): int {
    STACK_TOP - Pad(Total(argv, envp)) - Total(argv, envp)
  }

  /** It is 16-byte aligned, whatever the lists are. */
  lemma {:induction false} StackPointerAligned(argv: seq<CString>, envp: seq<CString>)
    ensures StackPointer(argv, envp) % 16 == 0
  {
    TotalAligned(argv, envp);
    var t := Total(argv, envp);
    var q := t / 8;
    assert t == 8 * q;
    if q % 2 == 1 {
      assert t + 8 == 16 * ((q + 1) / 2);
    } else {
      assert t == 16 * (q / 2);
    }
  }

  /** Address of string i when the strings are laid out downwards from `from`. */
  function StringAddr(from: nat, strs: seq<CString>, i: nat): int
    requires i < |strs|
  {
    from - Spans(strs, i + 1)
  }

  /** Rounding the address down and rounding the length up come to the same. */
  lemma {:induction false} RoundDown(cur: nat, len: nat)
    requires cur % 8 == 0 && len <= cur
    ensures (cur - len) / 8 * 8 == cur - Round8(len)
  {
    var q := cur / 8;
    assert cur == 8 * q;
    assert (8 * q - len) / 8 == q - (len + 7) / 8;
  }

  lemma {:induction false} StringPlace(strs: seq<CString>, from: nat, i: nat, lo: nat, cur: nat, len: nat)
    requires from % 8 == 0 && i < |strs| && lo <= from - Spans(strs, |strs|) && cur == from - Spans(strs, i) && len == |strs[i]| + 1 && from <= STACK_TOP
    ensures len <= cur && var a := (cur - len) / 8 * 8; a == StringAddr(from, strs, i) && a % 8 == 0 && lo <= a && a + len <= cur && a < STACK_TOP
  {
    SpansGrow(strs, i + 1, |strs|);
    SpansAligned(strs, i);
    Round8Facts(len);
    RoundDown(cur, len);
    EightTimes((cur - len) / 8);
  }

  lemma {:induction false} EightTimes(q: nat)
    ensures q * 8 % 8 == 0
  {
  }

  lemma {:induction false} StringInside(strs: seq<CString>, from: nat, i: nat, n: nat)
    requires i < n <= |strs|
    ensures from - Spans(strs, n) <= StringAddr(from, strs, i) && StringAddr(from, strs, i) + |strs[i]| + 1 <= from
  {
    SpansGrow(strs, i + 1, n);
    Round8Facts(|strs[i]| + 1);
  }

  /** The string fits its place: it does not run over the end of a page. */
  predicate StringFits(from: nat, strs: seq<CString>, i: nat)
    requires i < |strs|
  {
    var a := StringAddr(from, strs, i);
    a >= 0 && a % PAGE + |strs[i]| + 1 <= PAGE
  }

  ghost predicate StringsFit(from: nat, strs: seq<CString>) { forall i: nat :: i < |strs| ==> StringFits(from, strs, i) }

  /** The addresses from lo up to the top of the stack are user addresses. */
  ghost predicate StackRange(lo: nat, lapic: nat) { forall w: nat :: lo <= w < STACK_TOP ==> InUser(w, lapic) }

  // ---- memory as a program sees it ----

  type View = nat -> MaybeByte

  /** From hi on memory is as it was; nothing has appeared or gone. */
  ghost predicate Touched(lapic: nat, v: View, v': View, hi: nat) {
    && (forall w: nat :: InUser(w, lapic) && w >= hi ==> v'(w) == v(w))
    && (forall w: nat :: InUser(w, lapic) ==> (v'(w) == Absent <==> v(w) == Absent))
  }

  /** Outside lo to hi memory is as it was; nothing has appeared or gone. */
  ghost predicate Changed(lapic: nat, v: View, v': View, lo: nat, hi: nat) {
    && (forall w: nat :: InUser(w, lapic) && !(lo <= w < hi) ==> v'(w) == v(w))
    && (forall w: nat :: InUser(w, lapic) ==> (v'(w) == Absent <==> v(w) == Absent))
  }

  lemma {:induction false} TouchedTrans(lapic: nat, v: View, v': View, v'': View, hi: nat, hi': nat)
    requires Touched(lapic, v, v', hi) && Touched(lapic, v', v'', hi') && hi' <= hi
    ensures Touched(lapic, v, v'', hi)
  {
    forall w: nat | InUser(w, lapic) && w >= hi ensures v''(w) == v(w) { assert v'(w) == v(w); }
    forall w: nat | InUser(w, lapic) ensures v''(w) == Absent <==> v(w) == Absent { assert v'(w) == Absent <==> v(w) == Absent; }
  }

  lemma {:induction false} ChangedTouches(lapic: nat, v: View, v': View, lo: nat, hi: nat, top: nat)
    requires Changed(lapic, v, v', lo, hi) && hi <= top
    ensures Touched(lapic, v, v', top)
  {
  }

  lemma {:induction false} ChangedJoin(lapic: nat, v: View, v': View, v'': View, a: nat, mid: nat, end: nat)
    requires Changed(lapic, v, v', a, mid) && Changed(lapic, v', v'', mid, end) && a <= mid <= end
    ensures Changed(lapic, v, v'', a, end)
  {
    forall w: nat | InUser(w, lapic) && !(a <= w < end) ensures v''(w) == v(w) { assert v'(w) == v(w); }
    forall w: nat | InUser(w, lapic) ensures v''(w) == Absent <==> v(w) == Absent { assert v'(w) == Absent <==> v(w) == Absent; }
  }

  /** Some address of the block is not mapped. */
  ghost predicate Unbacked(v: View, lo: nat) { exists w: nat :: lo <= w < STACK_TOP && v(w) == Absent }

  ghost predicate BytesAt(v: View, a: nat, bytes: seq<byte>) {
    forall w: nat :: a <= w < a + |bytes| ==> v(w) == Byte(bytes[w - a])
  }

  /** `bytes` are in memory from a on; nothing else has changed. */
  ghost predicate BytesSet(lapic: nat, v: View, v': View, a: nat, bytes: seq<byte>) {
    forall w: nat :: InUser(w, lapic) ==> v'(w) == if a <= w < a + |bytes| then Byte(bytes[w - a]) else v(w)
  }

  lemma {:induction false} BytesKept(lapic: nat, v: View, v': View, a: nat, bytes: seq<byte>, hi: nat)
    requires BytesAt(v, a, bytes) && Touched(lapic, v, v', hi) && hi <= a && a + |bytes| <= STACK_TOP && StackRange(hi, lapic)
    ensures BytesAt(v', a, bytes)
  {
    forall w: nat | a <= w < a + |bytes| ensures v'(w) == Byte(bytes[w - a]) { assert InUser(w, lapic) && v'(w) == v(w); }
  }

  lemma {:induction false} BytesKeptOutside(lapic: nat, v: View, v': View, a: nat, bytes: seq<byte>, lo: nat, hi: nat)
    requires BytesAt(v, a, bytes) && Changed(lapic, v, v', lo, hi) && (a + |bytes| <= lo || hi <= a) && a + |bytes| <= STACK_TOP && StackRange(a, lapic)
    ensures BytesAt(v', a, bytes)
  {
    forall w: nat | a <= w < a + |bytes| ensures v'(w) == Byte(bytes[w - a]) { assert InUser(w, lapic) && v'(w) == v(w); }
  }

  lemma {:induction false} BytesSetAt(lapic: nat, v: View, v': View, a: nat, bytes: seq<byte>)
    requires BytesSet(lapic, v, v', a, bytes) && StackRange(a, lapic) && a + |bytes| <= STACK_TOP
    ensures BytesAt(v', a, bytes)
  {
    forall w: nat | a <= w < a + |bytes| ensures v'(w) == Byte(bytes[w - a]) { assert InUser(w, lapic); }
  }

  lemma {:induction false} SameByte(v: View, a: nat, b1: seq<byte>, b2: seq<byte>, k: nat)
    requires BytesAt(v, a, b1) && BytesAt(v, a, b2) && k < |b1| && k < |b2|
    ensures b1[k] == b2[k]
  {
    var w := a + k;
    assert v(w) == Byte(b1[w - a]) && v(w) == Byte(b2[w - a]);
  }

  // ---- strings ----

  /** The string s with its NUL is in memory at a. */
  ghost predicate StringAt(v: View, a: nat, s: CString) { BytesAt(v, a, s + [0]) }

  lemma {:induction false} NotShorter(v: View, a: nat, s1: CString, s2: CString)
    requires StringAt(v, a, s1) && StringAt(v, a, s2) && NoNul(s2)
    ensures |s1| >= |s2|
  {
    var w := a + |s1|;
    assert v(w) == Byte((s1 + [0])[w - a]);
  }

  /** A C string in memory has one reading. */
  lemma {:induction false} StringUnique(v: View, a: nat, s1: CString, s2: CString)
    requires StringAt(v, a, s1) && StringAt(v, a, s2) && NoNul(s1) && NoNul(s2)
    ensures s1 == s2
  {
    NotShorter(v, a, s1, s2);
    NotShorter(v, a, s2, s1);
    forall k | 0 <= k < |s1| ensures s1[k] == s2[k] { SameByte(v, a, s1 + [0], s2 + [0], k); }
  }

  ghost predicate StringAtIndex(v: View, addrs: seq<nat>, from: nat, strs: seq<CString>, i: nat)
    requires i < |strs| && i < |addrs|
  {
    addrs[i] == StringAddr(from, strs, i) && StringAt(v, addrs[i], strs[i])
  }

  /** The first n strings are in place. */
  ghost predicate StringsAt(v: View, addrs: seq<nat>, from: nat, strs: seq<CString>, n: nat) {
    n <= |strs| && n <= |addrs| && forall i: nat :: i < n ==> StringAtIndex(v, addrs, from, strs, i)
  }

  lemma {:induction false} StringsKept(lapic: nat, v: View, v': View, addrs: seq<nat>, from: nat, strs: seq<CString>, n: nat, hi: nat)
    requires StringsAt(v, addrs, from, strs, n) && Touched(lapic, v, v', hi) && hi <= from - Spans(strs, n) && from <= STACK_TOP && StackRange(hi, lapic)
    ensures StringsAt(v', addrs, from, strs, n)
  {
    forall i: nat | i < n ensures StringAtIndex(v', addrs, from, strs, i) {
      assert StringAtIndex(v, addrs, from, strs, i);
      StringInside(strs, from, i, n);
      BytesKept(lapic, v, v', addrs[i], strs[i] + [0], hi);
    }
  }

  lemma {:induction false} OneMoreString(lapic: nat, v: View, v': View, v'': View, addrs: seq<nat>, addrs': seq<nat>, from: nat, strs: seq<CString>, i: nat, next: nat, cur: nat, a: nat)
    requires i < |strs| && next == i + 1 && |addrs| == i && addrs' == addrs + [a] && from <= STACK_TOP && StackRange(cur, lapic) && cur == from - Spans(strs, i)
    requires Touched(lapic, v, v', from) && Touched(lapic, v', v'', cur) && StringsAt(v', addrs, from, strs, i)
    requires a == StringAddr(from, strs, i) && StringAt(v'', a, strs[i])
    ensures Touched(lapic, v, v'', from) && StringsAt(v'', addrs', from, strs, next)
  {
    TouchedTrans(lapic, v, v', v'', from, cur);
    StringsKept(lapic, v', v'', addrs, from, strs, i, cur);
    forall k: nat | k < next ensures StringAtIndex(v'', addrs', from, strs, k) {
      if k < i { assert StringAtIndex(v'', addrs, from, strs, k); }
    }
  }

  // ---- words and arrays ----

  ghost predicate WordAt(v: View, slot: nat, x: nat) { BytesAt(v, slot, ToLe(x, 8)) }

  /** A word in memory has one reading. */
  lemma {:induction false} WordUnique(v: View, slot: nat, x1: nat, x2: nat)
    requires WordAt(v, slot, x1) && WordAt(v, slot, x2) && x1 < TWO64 && x2 < TWO64
    ensures x1 == x2
  {
    var a, b := ToLe(x1, 8), ToLe(x2, 8);
    forall k | 0 <= k < 8 ensures a[k] == b[k] { SameByte(v, slot, a, b, k); }
    assert a == b;
    SameWord(x1, x2);
  }

  lemma {:induction false} SameWord(x1: nat, x2: nat)
    requires ToLe(x1, 8) == ToLe(x2, 8) && x1 < TWO64 && x2 < TWO64
    ensures x1 == x2
  {
    Readback(x1);
    Readback(x2);
  }

  lemma {:induction false} Readback(x: nat)
    requires x < TWO64
    ensures FromLe(ToLe(x, 8)) == x
  {
    FromToLe(x, 8);
    Pow256Values();
    var p := Pow256(8);
    assert x % p == x;
  }

  function SlotAt(a: nat, i: nat): nat { a + 8 * i }

  ghost predicate ArrayWord(v: View, a: nat, values: seq<nat>, i: nat)
    requires i < |values|
  {
    WordAt(v, SlotAt(a, i), values[i])
  }

  /** The first n of the values, word after word from a on. */
  ghost predicate ArrayAt(v: View, a: nat, values: seq<nat>, n: nat) {
    n <= |values| && forall i: nat :: i < n ==> ArrayWord(v, a, values, i)
  }

  /** Words of the array outlast changes elsewhere. */
  lemma {:induction false} ArrayKept(lapic: nat, v: View, v': View, a: nat, values: seq<nat>, n: nat, lo: nat, hi: nat)
    requires ArrayAt(v, a, values, n) && Changed(lapic, v, v', lo, hi) && (SlotAt(a, n) <= lo || hi <= a) && SlotAt(a, n) <= STACK_TOP && StackRange(a, lapic)
    ensures ArrayAt(v', a, values, n)
  {
    forall k: nat | k < n ensures ArrayWord(v', a, values, k) {
      assert ArrayWord(v, a, values, k);
      BytesKeptOutside(lapic, v, v', SlotAt(a, k), ToLe(values[k], 8), lo, hi);
    }
  }

  lemma {:induction false} OneMoreWord(lapic: nat, v: View, v': View, v'': View, a: nat, values: seq<nat>, i: nat, next: nat, slot: nat, end: nat)
    requires ArrayAt(v', a, values, i) && i < |values| && next == i + 1 && slot == SlotAt(a, i) && StackRange(a, lapic) && end == slot + 8 && end <= STACK_TOP
    requires Changed(lapic, v, v', a, slot) && Changed(lapic, v', v'', slot, end) && WordAt(v'', slot, values[i])
    ensures ArrayAt(v'', a, values, next) && Changed(lapic, v, v'', a, end)
  {
    ArrayKept(lapic, v', v'', a, values, i, slot, end);
    forall k: nat | k < next ensures ArrayWord(v'', a, values, k) {
      if k < i { assert ArrayWord(v'', a, values, k); }
    }
    ChangedJoin(lapic, v, v', v'', a, slot, end);
  }

  /** An array with its terminating zero. */
  ghost predicate VectorAt(v: View, a: nat, values: seq<nat>) {
    ArrayAt(v, a, values, |values|) && WordAt(v, SlotAt(a, |values|), 0)
  }

  lemma {:induction false} VectorKept(lapic: nat, v: View, v': View, a: nat, values: seq<nat>, hi: nat)
    requires VectorAt(v, a, values) && Touched(lapic, v, v', hi) && hi <= a && SlotAt(a, |values|) + 8 <= STACK_TOP && StackRange(hi, lapic)
    ensures VectorAt(v', a, values)
  {
    forall k: nat | k < |values| ensures ArrayWord(v', a, values, k) {
      assert ArrayWord(v, a, values, k);
      BytesKept(lapic, v, v', SlotAt(a, k), ToLe(values[k], 8), hi);
    }
    BytesKept(lapic, v, v', SlotAt(a, |values|), ToLe(0, 8), hi);
  }

  // ---- reading the block back ----

  /** The word at `slot` points to the string str. */
  ghost predicate PointsTo(v: View, slot: nat, str: CString) {
    exists p: nat :: 0 < p < TWO64 && WordAt(v, slot, p) && StringAt(v, p, str)
  }

  /** From a on: pointers to the strings, then a zero. */
  ghost predicate PointersAt(v: View, a: nat, strs: seq<CString>) {
    (forall i: nat :: i < |strs| ==> PointsTo(v, SlotAt(a, i), strs[i])) && WordAt(v, SlotAt(a, |strs|), 0)
  }

  /** What the psABI prescribes at the stack pointer: the count, the arguments, the environment, and
      an empty auxiliary vector. */
  ghost predicate Frame(v: View, sp: nat, argv: seq<CString>, envp: seq<CString>) {
    && WordAt(v, sp, |argv|)
    && PointersAt(v, ArgvAt(sp), argv)
    && PointersAt(v, EnvpAt(sp, |argv|), envp)
    && WordAt(v, AuxAt(sp, |argv|, |envp|), 0) && WordAt(v, SlotAt(AuxAt(sp, |argv|, |envp|), 1), 0)
  }

  /** The word i of the array at a points to string i in the slot reserved for it below `from`. */
  ghost predicate InSlot(v: View, a: nat, from: nat, strs: seq<CString>, i: nat)
    requires i < |strs|
  {
    var p := StringAddr(from, strs, i);
    p > 0 && WordAt(v, SlotAt(a, i), p) && StringAt(v, p, strs[i])
  }

  ghost predicate InSlots(v: View, a: nat, from: nat, strs: seq<CString>) {
    forall i: nat :: i < |strs| ==> InSlot(v, a, from, strs, i)
  }

  /** The slots of one list do not meet: a later string ends before an earlier one begins. */
  lemma {:induction false} SlotsApart(strs: seq<CString>, from: nat, i: nat, j: nat)
    requires i < j < |strs|
    ensures StringAddr(from, strs, j) + |strs[j]| + 1 <= StringAddr(from, strs, i)
  {
    SpansGrow(strs, i + 1, j);
    Round8Facts(|strs[j]| + 1);
  }

  /** All slots lie above the tables, those of the arguments below those of the environment, and
      none reaches the top of the stack. */
  lemma {:induction false} SlotsAboveTables(argv: seq<CString>, envp: seq<CString>, sp: nat, from: nat, mid: nat, i: nat, j: nat)
    requires sp == StackPointer(argv, envp) && from == EnvFrom(argv, envp) && mid == ArgFrom(argv, envp) && i < |argv| && j < |envp|
    ensures AuxAt(sp, |argv|, |envp|) + 16 <= StringAddr(mid, argv, i) && StringAddr(mid, argv, i) + |argv[i]| + 1 <= StringAddr(from, envp, j)
    ensures StringAddr(from, envp, j) + |envp[j]| + 1 <= STACK_TOP
  {
    BlockShape(argv, envp);
    StringInside(argv, mid, i, |argv|);
    StringInside(envp, from, j, |envp|);
  }

  lemma {:induction false} SlotAligned(a: nat, i: nat)
    requires a % 8 == 0
    ensures SlotAt(a, i) % 8 == 0
  {
  }

  lemma {:induction false} TablesAligned(sp: nat, argc: nat, envc: nat)
    requires sp % 8 == 0
    ensures ArgvAt(sp) % 8 == 0 && EnvpAt(sp, argc) % 8 == 0 && AuxAt(sp, argc, envc) % 8 == 0
    ensures SlotAt(ArgvAt(sp), argc) + 8 == EnvpAt(sp, argc) && SlotAt(EnvpAt(sp, argc), envc) + 8 == AuxAt(sp, argc, envc)
  {
    SlotAligned(sp, 1);
    SlotAligned(sp, 2 + argc);
    SlotAligned(sp, 3 + argc + envc);
  }

  function ArgvAt(sp: nat): nat { sp + 8 }
  function EnvpAt(sp: nat, argc: nat): nat { sp + 16 + 8 * argc }
  function AuxAt(sp: nat, argc: nat, envc: nat): nat { sp + 24 + 8 * argc + 8 * envc }

  lemma {:induction false} PointerNotNull(v: View, slot: nat, str: CString)
    requires PointsTo(v, slot, str)
    ensures !WordAt(v, slot, 0)
  {
    var p: nat :| 0 < p < TWO64 && WordAt(v, slot, p) && StringAt(v, p, str);
    if WordAt(v, slot, 0) { WordUnique(v, slot, p, 0); }
  }

  lemma {:induction false} PointerUnique(v: View, slot: nat, s1: CString, s2: CString)
    requires PointsTo(v, slot, s1) && PointsTo(v, slot, s2) && NoNul(s1) && NoNul(s2)
    ensures s1 == s2
  {
    var p: nat :| 0 < p < TWO64 && WordAt(v, slot, p) && StringAt(v, p, s1);
    var q: nat :| 0 < q < TWO64 && WordAt(v, slot, q) && StringAt(v, q, s2);
    WordUnique(v, slot, p, q);
    StringUnique(v, p, s1, s2);
  }

  ghost predicate AllNoNul(strs: seq<CString>) { forall i :: 0 <= i < |strs| ==> NoNul(strs[i]) }

  /** A terminated pointer array has one reading. */
  lemma {:induction false} PointersUnique(v: View, a: nat, x: seq<CString>, y: seq<CString>)
    requires PointersAt(v, a, x) && PointersAt(v, a, y) && AllNoNul(x) && AllNoNul(y)
    ensures x == y
  {
    NoShorterList(v, a, x, y);
    NoShorterList(v, a, y, x);
    forall i: nat | i < |x| ensures x[i] == y[i] {
      assert PointsTo(v, SlotAt(a, i), x[i]) && PointsTo(v, SlotAt(a, i), y[i]);
      PointerUnique(v, SlotAt(a, i), x[i], y[i]);
    }
  }

  lemma {:induction false} NoShorterList(v: View, a: nat, x: seq<CString>, y: seq<CString>)
    requires PointersAt(v, a, x) && PointersAt(v, a, y)
    ensures |x| >= |y|
  {
    if |x| < |y| { PointerNotNull(v, SlotAt(a, |x|), y[|x|]); }
  }

  /** So the block says exactly which arguments and environment it was built from. */
  lemma {:induction false} FrameUnique(v: View, sp: nat, argv: seq<CString>, envp: seq<CString>, argv': seq<CString>, envp': seq<CString>)
    requires Frame(v, sp, argv, envp) && Frame(v, sp, argv', envp') && AllNoNul(argv) && AllNoNul(envp) && AllNoNul(argv') && AllNoNul(envp')
    ensures argv == argv' && envp == envp'
  {
    PointersUnique(v, ArgvAt(sp), argv, argv');
    PointersUnique(v, EnvpAt(sp, |argv|), envp, envp');
  }

  // ---- the block as it is built ----

  /** Where the strings of the environment and of the arguments begin, and where they end. */
  function EnvFrom(argv: seq<CString>, envp: seq<CString>): nat { STACK_TOP - Pad(Total(argv, envp)) }
  function ArgFrom(argv: seq<CString>, envp: seq<CString>): int { EnvFrom(argv, envp) - Spans(envp, |envp|) }
  function StringsEnd(argv: seq<CString>, envp: seq<CString>): int { ArgFrom(argv, envp) - Spans(argv, |argv|) }

  /** No string, nor the auxiliary pair, runs over the end of a page. */
  ghost predicate BlockFits(argv: seq<CString>, envp: seq<CString>) {
    && ArgFrom(argv, envp) >= 0 && StringsEnd(argv, envp) >= 16
    && StringsFit(EnvFrom(argv, envp), envp) && StringsFit(ArgFrom(argv, envp), argv)
    && (StringsEnd(argv, envp) - 16) % PAGE + 16 <= PAGE
  }

  lemma {:induction false} BlockShape(argv: seq<CString>, envp: seq<CString>)
    ensures EnvFrom(argv, envp) % 8 == 0 && ArgFrom(argv, envp) % 8 == 0 && StringsEnd(argv, envp) % 8 == 0
    ensures StackPointer(argv, envp) == StringsEnd(argv, envp) - 8 * (5 + |argv| + |envp|)
  {
    SpansAligned(argv, |argv|);
    SpansAligned(envp, |envp|);
  }

  /** The numbers build_exec_stack works with. */
  lemma {:induction false} BlockPlan(argv: seq<CString>, envp: seq<CString>, low: nat, from: nat, mid: nat, tables: nat)
    requires BlockFits(argv, envp) && low == StackPointer(argv, envp) && from == EnvFrom(argv, envp) && mid == ArgFrom(argv, envp) && tables == 8 * (5 + |argv| + |envp|)
    ensures from % 8 == 0 && mid % 8 == 0 && low % 8 == 0 && low % 16 == 0 && mid == from - Spans(envp, |envp|) && low == mid - Spans(argv, |argv|) - tables
    ensures AuxAt(low, |argv|, |envp|) % PAGE + 16 <= PAGE
  {
    BlockShape(argv, envp);
    StackPointerAligned(argv, envp);
    assert AuxAt(low, |argv|, |envp|) == StringsEnd(argv, envp) - 16;
    SixteenIsEight(low);
  }

  lemma {:induction false} SixteenIsEight(n: nat)
    requires n % 16 == 0
    ensures n % 8 == 0
  {
  }

  lemma {:induction false} TopPage(a: nat, n: nat)
    requires STACK_TOP - PAGE <= a && a + n <= STACK_TOP
    ensures a % PAGE + n <= PAGE || n == 0
  {
  }

  /** A block that takes no more than the top page fits. */
  lemma {:induction false} OnePageFits(argv: seq<CString>, envp: seq<CString>)
    requires Pad(Total(argv, envp)) + Total(argv, envp) <= PAGE
    ensures BlockFits(argv, envp)
  {
    BlockShape(argv, envp);
    var c0, c1, c2 := EnvFrom(argv, envp), ArgFrom(argv, envp), StringsEnd(argv, envp);
    forall i: nat | i < |envp| ensures StringFits(c0, envp, i) {
      StringInside(envp, c0, i, |envp|);
      TopPage(StringAddr(c0, envp, i), |envp[i]| + 1);
    }
    forall i: nat | i < |argv| ensures StringFits(c1, argv, i) {
      StringInside(argv, c1, i, |argv|);
      TopPage(StringAddr(c1, argv, i), |argv[i]| + 1);
    }
    TopPage(c2 - 16, 16);
  }

  /** The strings and the pointers to them make up a pointer array. */
  lemma {:induction false} PointersFrom(v: View, a: nat, addrs: seq<nat>, from: nat, strs: seq<CString>)
    requires StringsAt(v, addrs, from, strs, |strs|) && |addrs| == |strs| && VectorAt(v, a, addrs) && from <= STACK_TOP && from > Spans(strs, |strs|)
    ensures PointersAt(v, a, strs) && InSlots(v, a, from, strs)
  {
    forall i: nat | i < |strs| ensures PointsTo(v, SlotAt(a, i), strs[i]) && InSlot(v, a, from, strs, i) {
      assert StringAtIndex(v, addrs, from, strs, i) && ArrayWord(v, a, addrs, i);
      StringInside(strs, from, i, |strs|);
      assert 0 < addrs[i] < TWO64 && WordAt(v, SlotAt(a, i), addrs[i]) && StringAt(v, addrs[i], strs[i]);
    }
  }

  /** Sixteen zero bytes are two zero words. */
  lemma {:induction false} ZeroPair(v: View, a: nat, zeros: seq<byte>)
    requires BytesAt(v, a, zeros) && |zeros| == 16 && (forall i :: 0 <= i < 16 ==> zeros[i] == 0)
    ensures WordAt(v, a, 0) && WordAt(v, SlotAt(a, 1), 0)
  {
    ZeroWord();
    var b := SlotAt(a, 1);
    forall w: nat | a <= w < a + 8 ensures v(w) == Byte(0) { assert v(w) == Byte(zeros[w - a]); }
    forall w: nat | b <= w < b + 8 ensures v(w) == Byte(0) { assert v(w) == Byte(zeros[w - a]); }
  }

  lemma {:induction false} ZeroWord()
    ensures |ToLe(0, 8)| == 8 && forall i :: 0 <= i < 8 ==> ToLe(0, 8)[i] == 0
  {
    ZeroBytesOf(8);
  }

  lemma {:induction false} ZeroBytesOf(n: nat)
    ensures |ToLe(0, n)| == n && forall i :: 0 <= i < n ==> ToLe(0, n)[i] == 0
  {
    if n > 0 { ZeroBytesOf(n - 1); }
  }
}
