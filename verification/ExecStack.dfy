/** Building the initial stack of a program in its address space (build_exec_stack). */
module ExecStack {
  import opened LittleEndian
  import opened FrameAllocation
  import opened PageTables
  import opened Paging
  import opened FrameLedger
  import opened AddressSpaces
  import opened UserMemory
  import opened Loading
  import opened Relocation
  import opened StackLayout

  ghost function ViewOf(root: nat, s: Life): View { (w: nat) => At(root, s, w) }

  // ---- bytes through one translation ----

  lemma {:induction false} BytesFilled(root: nat, s: Life, t: Life, all: set<nat>, lapic: nat, f: nat, a: nat, bytes: seq<byte>, page: Page)
    requires LifeOwned(root, s, all, lapic) && f < |s.mem| == MAX_FRAMES && |s.mem[f]| == PAGE && f !in s.nodes && f in s.pages && s.pages[f] == a / PAGE
    requires a % PAGE + |bytes| <= PAGE && page == PutBytes(s.mem[f], a % PAGE, bytes) && t == s.(mem := s.mem[f := page])
    ensures BytesSet(lapic, ViewOf(root, s), ViewOf(root, t), a, bytes)
  {
    forall w: nat | InUser(w, lapic) ensures At(root, t, w) == if a <= w < a + |bytes| then Byte(bytes[w - a]) else At(root, s, w) {
      FillAt(root, s, all, lapic, f, page, w);
      if w / PAGE == a / PAGE {
        PageOfFrame(root, s, all, lapic, f, w);
        AtPage(root, s, all, lapic, w);
      }
      ByteInPage(s.mem[f], a, bytes, page, w);
    }
  }

  lemma {:induction false} ByteInPage(before: Page, a: nat, bytes: seq<byte>, page: Page, w: nat)
    requires |before| == PAGE && a % PAGE + |bytes| <= PAGE && page == PutBytes(before, a % PAGE, bytes)
    ensures w / PAGE == a / PAGE ==> page[w % PAGE] == if a <= w < a + |bytes| then bytes[w - a] else before[w % PAGE]
    ensures w / PAGE != a / PAGE ==> !(a <= w < a + |bytes|)
  {
    var p, r, q, u := a / PAGE, a % PAGE, w / PAGE, w % PAGE;
    assert a == p * PAGE + r && w == q * PAGE + u;
  }

  method StoreBytes(m: Machine, ghost root: nat, f: nat, off: nat, ghost a: nat, bytes: seq<byte>, ghost s: Life, ghost all: set<nat>, ghost lapic: nat) returns (ghost t: Life)
    requires Sound(m, root, s, all, lapic) && a % PAGE + |bytes| <= PAGE
    requires f in s.pages && s.pages[f] == a / PAGE && f < MAX_FRAMES && f !in s.nodes && off == a % PAGE
    modifies m`mem
    ensures Sound(m, root, t, all, lapic) && t.held == s.held && BytesSet(lapic, ViewOf(root, s), ViewOf(root, t), a, bytes)
  {
    var page := PutBytes(m.mem[f], off, bytes);
    m.Fill(f, page);
    t := s.(mem := s.mem[f := page]);
    FillKeeps(root, s, all, lapic, f, page);
    BytesFilled(root, s, t, all, lapic, f, a, bytes, page);
  }

  /** Bytes within one page: present all or none. */
  lemma {:induction false} PresentTogether(root: nat, s: Life, all: set<nat>, lapic: nat, a: nat, w: nat)
    requires LifeOwned(root, s, all, lapic) && |s.mem| == MAX_FRAMES && InUser(a, lapic) && InUser(w, lapic) && a / PAGE == w / PAGE
    ensures At(root, s, a) == Absent <==> At(root, s, w) == Absent
  {
    AtPage(root, s, all, lapic, a);
    AtPage(root, s, all, lapic, w);
    InUserIndices(a, lapic);
    InUserIndices(w, lapic);
    SamePage(a, w);
    WalkByIndex(s.mem, root, s.nodes, a, w);
  }

  lemma {:induction false} WithinPage(a: nat, w: nat, n: nat)
    requires a % PAGE + n <= PAGE && a <= w < a + n
    ensures w / PAGE == a / PAGE
  {
    var p, r := a / PAGE, a % PAGE;
    assert a == p * PAGE + r;
    assert w == p * PAGE + (w - p * PAGE);
  }

  lemma {:induction false} BytesChange(root: nat, s: Life, t: Life, all: set<nat>, lapic: nat, a: nat, bytes: seq<byte>, hi: nat)
    requires LifeOwned(root, s, all, lapic) && |s.mem| == MAX_FRAMES && InUser(a, lapic) && a % PAGE + |bytes| <= PAGE && hi == a + |bytes|
    requires BytesSet(lapic, ViewOf(root, s), ViewOf(root, t), a, bytes) && At(root, s, a) != Absent
    ensures Changed(lapic, ViewOf(root, s), ViewOf(root, t), a, hi)
  {
    var v, v' := ViewOf(root, s), ViewOf(root, t);
    forall w: nat | InUser(w, lapic) ensures v'(w) == Absent <==> v(w) == Absent {
      if a <= w < hi {
        WithinPage(a, w, |bytes|);
        PresentTogether(root, s, all, lapic, a, w);
      }
    }
  }

  /** Copies bytes to a user address through one translation, as build_exec_stack does: right for
      bytes that stay within the page. */
  method WriteBytes(m: Machine, root: nat, a: nat, bytes: seq<byte>, ghost hi: nat, ghost s: Life, ghost all: set<nat>, ghost lapic: nat) returns (ok: bool, ghost t: Life)
    requires Sound(m, root, s, all, lapic) && StackRange(a, lapic) && a % 8 == 0 && a % PAGE + |bytes| <= PAGE && hi == a + |bytes| && a < hi <= STACK_TOP
    modifies m`mem
    ensures !ok ==> ViewOf(root, s)(a) == Absent && Sound(m, root, t, all, lapic) && t == s
    ensures ok ==> Sound(m, root, t, all, lapic) && t.held == s.held && BytesAt(ViewOf(root, t), a, bytes) && Changed(lapic, ViewOf(root, s), ViewOf(root, t), a, hi)
  {
    SpaceOf(root, s, all, lapic);
    var phys := m.TranslateAddr(root, a, s.nodes);
    t := s;
    SlotFrame(root, s, all, lapic, a, phys);
    ok := phys != 0;
    if ok {
      t := StoreBytes(m, root, phys / PAGE, phys % PAGE, a, bytes, s, all, lapic);
      BytesChange(root, s, t, all, lapic, a, bytes, hi);
      BytesSetAt(lapic, ViewOf(root, s), ViewOf(root, t), a, bytes);
    }
  }

  // ---- strings ----

  /** One of the loops of build_exec_stack over the strings: each goes below the one before. */
  method PlaceStrings(m: Machine, root: nat, strs: seq<CString>, from: nat, ghost lo: nat, ghost s: Life, ghost all: set<nat>, ghost lapic: nat)
    returns (ok: bool, addrs: seq<nat>, cur: nat, ghost t: Life)
    requires Sound(m, root, s, all, lapic) && from <= STACK_TOP && from % 8 == 0 && StackRange(lo, lapic) && lo <= from - Spans(strs, |strs|) && StringsFit(from, strs)
    modifies m`mem
    ensures !ok ==> Sound(m, root, t, all, lapic) && t.held == s.held && Unbacked(ViewOf(root, s), lo)
    ensures ok ==> Sound(m, root, t, all, lapic) && t.held == s.held && Touched(lapic, ViewOf(root, s), ViewOf(root, t), from)
    ensures ok ==> cur == from - Spans(strs, |strs|) && |addrs| == |strs| && StringsAt(ViewOf(root, t), addrs, from, strs, |strs|)
  {
    ok, addrs, cur, t := true, [], from, s;
    var i: nat := 0;
    while ok && i < |strs|
      invariant 0 <= i <= |strs|
      invariant ok ==> Sound(m, root, t, all, lapic) && t.held == s.held && Touched(lapic, ViewOf(root, s), ViewOf(root, t), from)
      invariant ok ==> cur == from - Spans(strs, i) && |addrs| == i && StringsAt(ViewOf(root, t), addrs, from, strs, i)
      invariant !ok ==> Sound(m, root, t, all, lapic) && t.held == s.held && Unbacked(ViewOf(root, s), lo)
    {
      var next: nat := i + 1;
      ok, addrs, cur, t := PlaceString(m, root, strs, from, i, next, addrs, cur, lo, s, t, all, lapic);
      i := next;
    }
    assert ok ==> i == |strs|;
  }

  method PlaceString(m: Machine, root: nat, strs: seq<CString>, ghost from: nat, i: nat, ghost next: nat, addrs: seq<nat>, cur: nat, ghost lo: nat, ghost s: Life, ghost t: Life, ghost all: set<nat>, ghost lapic: nat)
    returns (ok: bool, addrs': seq<nat>, cur': nat, ghost t': Life)
    requires Sound(m, root, t, all, lapic) && from <= STACK_TOP && from % 8 == 0 && StackRange(lo, lapic) && lo <= from - Spans(strs, |strs|) && i < |strs| && next == i + 1
    requires StringFits(from, strs, i) && Touched(lapic, ViewOf(root, s), ViewOf(root, t), from)
    requires cur == from - Spans(strs, i) && |addrs| == i && StringsAt(ViewOf(root, t), addrs, from, strs, i)
    modifies m`mem
    ensures !ok ==> Sound(m, root, t', all, lapic) && t'.held == t.held && Unbacked(ViewOf(root, s), lo)
    ensures ok ==> Sound(m, root, t', all, lapic) && t'.held == t.held && Touched(lapic, ViewOf(root, s), ViewOf(root, t'), from)
    ensures ok ==> cur' == from - Spans(strs, next) && |addrs'| == next && StringsAt(ViewOf(root, t'), addrs', from, strs, next)
  {
    var len := |strs[i]| + 1;
    StringPlace(strs, from, i, lo, cur, len);
    cur' := (cur - len) / 8 * 8;
    addrs' := addrs + [cur'];
    ghost var hi := cur' + len;
    ok, t' := WriteBytes(m, root, cur', strs[i] + [0], hi, t, all, lapic);
    if ok {
      ChangedTouches(lapic, ViewOf(root, t), ViewOf(root, t'), cur', hi, cur);
      OneMoreString(lapic, ViewOf(root, s), ViewOf(root, t), ViewOf(root, t'), addrs, addrs', from, strs, i, next, cur, cur');
    } else {
      MissingAt(lapic, ViewOf(root, s), ViewOf(root, t), from, lo, cur');
    }
  }

  lemma {:induction false} MissingAt(lapic: nat, v: View, v': View, hi: nat, lo: nat, w: nat)
    requires Touched(lapic, v, v', hi) && StackRange(lo, lapic) && lo <= w < STACK_TOP && v'(w) == Absent
    ensures Unbacked(v, lo)
  {
    assert InUser(w, lapic) && v(w) == Absent;
  }

  // ---- words ----

  /** Writes one word of the block. */
  method PushWord(m: Machine, root: nat, slot: nat, x: nat, ghost hi: nat, ghost s: Life, ghost all: set<nat>, ghost lapic: nat) returns (ok: bool, ghost t: Life)
    requires Sound(m, root, s, all, lapic) && slot % 8 == 0 && hi == slot + 8 && StackRange(slot, lapic) && hi <= STACK_TOP
    modifies m`mem
    ensures !ok ==> ViewOf(root, s)(slot) == Absent && Sound(m, root, t, all, lapic) && t == s
    ensures ok ==> Sound(m, root, t, all, lapic) && t.held == s.held && WordAt(ViewOf(root, t), slot, x) && Changed(lapic, ViewOf(root, s), ViewOf(root, t), slot, hi)
  {
    WordStays(slot);
    ok, t := WriteBytes(m, root, slot, ToLe(x, 8), hi, s, all, lapic);
  }

  /** An aligned word does not run over the end of a page. */
  lemma {:induction false} WordStays(slot: nat)
    requires slot % 8 == 0
    ensures slot % PAGE + 8 <= PAGE
  {
    WordInPage(slot, slot);
  }

  /** One of the loops of build_exec_stack that fill an array. */
  method PushArray(m: Machine, root: nat, a: nat, values: seq<nat>, ghost end: nat, ghost s: Life, ghost all: set<nat>, ghost lapic: nat) returns (ok: bool, ghost t: Life)
    requires Sound(m, root, s, all, lapic) && a % 8 == 0 && StackRange(a, lapic) && end == SlotAt(a, |values|) && end <= STACK_TOP
    modifies m`mem
    ensures !ok ==> Unbacked(ViewOf(root, s), a) && Sound(m, root, t, all, lapic) && t.held == s.held
    ensures ok ==> Sound(m, root, t, all, lapic) && t.held == s.held && ArrayAt(ViewOf(root, t), a, values, |values|) && Changed(lapic, ViewOf(root, s), ViewOf(root, t), a, end)
  {
    ok, t := true, s;
    var i: nat := 0;
    while ok && i < |values|
      invariant 0 <= i <= |values|
      invariant ok ==> Sound(m, root, t, all, lapic) && t.held == s.held && ArrayAt(ViewOf(root, t), a, values, i) && Changed(lapic, ViewOf(root, s), ViewOf(root, t), a, SlotAt(a, i))
      invariant !ok ==> Unbacked(ViewOf(root, s), a) && Sound(m, root, t, all, lapic) && t.held == s.held
    {
      var next: nat := i + 1;
      ok, t := PushElement(m, root, a, values, i, next, SlotAt(a, next), s, t, all, lapic);
      i := next;
    }
    assert ok ==> i == |values|;
  }

  method PushElement(m: Machine, root: nat, a: nat, values: seq<nat>, i: nat, ghost next: nat, ghost end: nat, ghost s: Life, ghost t: Life, ghost all: set<nat>, ghost lapic: nat)
    returns (ok: bool, ghost t': Life)
    requires Sound(m, root, t, all, lapic) && a % 8 == 0 && StackRange(a, lapic) && i < |values| && next == i + 1 && end == SlotAt(a, next) && end <= STACK_TOP
    requires ArrayAt(ViewOf(root, t), a, values, i) && Changed(lapic, ViewOf(root, s), ViewOf(root, t), a, SlotAt(a, i))
    modifies m`mem
    ensures !ok ==> Unbacked(ViewOf(root, s), a) && Sound(m, root, t', all, lapic) && t'.held == t.held
    ensures ok ==> Sound(m, root, t', all, lapic) && t'.held == t.held && ArrayAt(ViewOf(root, t'), a, values, next) && Changed(lapic, ViewOf(root, s), ViewOf(root, t'), a, end)
  {
    var slot := SlotAt(a, i);
    SlotAligned(a, i);
    ok, t' := PushWord(m, root, slot, values[i], end, t, all, lapic);
    if ok {
      OneMoreWord(lapic, ViewOf(root, s), ViewOf(root, t), ViewOf(root, t'), a, values, i, next, slot, end);
    } else {
      MissingThere(lapic, ViewOf(root, s), ViewOf(root, t), a, slot);
    }
  }

  lemma {:induction false} MissingThere(lapic: nat, v: View, v': View, a: nat, w: nat)
    requires Changed(lapic, v, v', a, w) && StackRange(a, lapic) && a <= w < STACK_TOP && v'(w) == Absent
    ensures Unbacked(v, a)
  {
    assert InUser(w, lapic) && v(w) == Absent;
  }

  // ---- the tables below the strings ----

  /** PushArray after a step that may have failed. */
  method PushArrayIf(go: bool, m: Machine, root: nat, a: nat, values: seq<nat>, ghost end: nat, ghost s: Life, ghost all: set<nat>, ghost lapic: nat) returns (ok: bool, ghost t: Life)
    requires Sound(m, root, s, all, lapic) && a % 8 == 0 && StackRange(a, lapic) && end == SlotAt(a, |values|) && end <= STACK_TOP
    modifies m`mem
    ensures Sound(m, root, t, all, lapic) && t.held == s.held
    ensures !go ==> !ok
    ensures go && !ok ==> Unbacked(ViewOf(root, s), a)
    ensures ok ==> ArrayAt(ViewOf(root, t), a, values, |values|) && Changed(lapic, ViewOf(root, s), ViewOf(root, t), a, end)
  {
    if !go { return false, s; }
    ok, t := PushArray(m, root, a, values, end, s, all, lapic);
  }

  /** The zero and then the array below `hi`, as the environment and the arguments are pushed. */
  method PushVector(m: Machine, root: nat, hi: nat, values: seq<nat>, a: nat, ghost s: Life, ghost all: set<nat>, ghost lapic: nat) returns (ok: bool, ghost t: Life)
    requires Sound(m, root, s, all, lapic) && a % 8 == 0 && StackRange(a, lapic) && SlotAt(a, |values|) + 8 == hi && hi <= STACK_TOP
    modifies m`mem
    ensures Sound(m, root, t, all, lapic) && t.held == s.held
    ensures !ok ==> Unbacked(ViewOf(root, s), a)
    ensures ok ==> VectorAt(ViewOf(root, t), a, values) && Touched(lapic, ViewOf(root, s), ViewOf(root, t), hi)
  {
    var nul := SlotAt(a, |values|);
    SlotAligned(a, |values|);
    var done;
    ghost var s1;
    done, s1 := PushWord(m, root, nul, 0, hi, s, all, lapic);
    ok, t := PushArrayIf(done, m, root, a, values, nul, s1, all, lapic);
    VectorDone(lapic, done, ok, ViewOf(root, s), ViewOf(root, s1), ViewOf(root, t), a, values, nul, hi);
  }

  lemma {:induction false} VectorDone(lapic: nat, done: bool, ok: bool, v: View, v': View, v'': View, a: nat, values: seq<nat>, nul: nat, hi: nat)
    requires nul == SlotAt(a, |values|) && hi == nul + 8 && hi <= STACK_TOP && StackRange(a, lapic)
    requires if done then Changed(lapic, v, v', nul, hi) && WordAt(v', nul, 0) else !ok && v(nul) == Absent
    requires done && !ok ==> Unbacked(v', a)
    requires ok ==> ArrayAt(v'', a, values, |values|) && Changed(lapic, v', v'', a, nul)
    ensures !ok ==> Unbacked(v, a)
    ensures ok ==> VectorAt(v'', a, values) && Touched(lapic, v, v'', hi)
  {
    if ok {
      BytesKeptOutside(lapic, v', v'', nul, ToLe(0, 8), a, nul);
      ChangedTouches(lapic, v, v', nul, hi, hi);
      ChangedTouches(lapic, v', v'', a, nul, nul);
      TouchedTrans(lapic, v, v', v'', hi, nul);
    } else if done {
      ChangedTouches(lapic, v, v', nul, hi, hi);
      StillUnbacked(lapic, v, v', hi, a, a);
    }
  }

  /** Nothing that was missing has been made up for. */
  lemma {:induction false} StillUnbacked(lapic: nat, v: View, v': View, hi: nat, a: nat, lo: nat)
    requires Touched(lapic, v, v', hi) && Unbacked(v', a) && lo <= a && StackRange(lo, lapic)
    ensures Unbacked(v, lo)
  {
    var w: nat :| a <= w < STACK_TOP && v'(w) == Absent;
    assert InUser(w, lapic);
    assert v(w) == Absent;
  }

  lemma {:induction false} UnbackedBelow(v: View, a: nat, lo: nat)
    requires Unbacked(v, a) && lo <= a
    ensures Unbacked(v, lo)
  {
  }

  method PushWordIf(go: bool, m: Machine, root: nat, slot: nat, x: nat, ghost hi: nat, ghost s: Life, ghost all: set<nat>, ghost lapic: nat) returns (ok: bool, ghost t: Life)
    requires Sound(m, root, s, all, lapic) && slot % 8 == 0 && hi == slot + 8 && StackRange(slot, lapic) && hi <= STACK_TOP
    modifies m`mem
    ensures Sound(m, root, t, all, lapic) && t.held == s.held
    ensures !go ==> !ok
    ensures go && !ok ==> ViewOf(root, s)(slot) == Absent
    ensures ok ==> WordAt(ViewOf(root, t), slot, x) && Changed(lapic, ViewOf(root, s), ViewOf(root, t), slot, hi)
  {
    if !go { return false, s; }
    ok, t := PushWord(m, root, slot, x, hi, s, all, lapic);
  }

  /** The arguments and their count below `hi`. */
  method PushArgs(go: bool, m: Machine, root: nat, hi: nat, args: seq<nat>, sp: nat, ghost s: Life, ghost all: set<nat>, ghost lapic: nat) returns (ok: bool, ghost t: Life)
    requires Sound(m, root, s, all, lapic) && sp % 8 == 0 && hi <= STACK_TOP && EnvpAt(sp, |args|) == hi && StackRange(sp, lapic)
    modifies m`mem
    ensures Sound(m, root, t, all, lapic) && t.held == s.held
    ensures !go ==> !ok
    ensures go && !ok ==> Unbacked(ViewOf(root, s), sp)
    ensures ok ==> Touched(lapic, ViewOf(root, s), ViewOf(root, t), hi)
    ensures ok ==> VectorAt(ViewOf(root, t), ArgvAt(sp), args) && WordAt(ViewOf(root, t), sp, |args|)
  {
    if !go { return false, s; }
    var b := ArgvAt(sp);
    TablesAligned(sp, |args|, 0);
    var done;
    ghost var s1;
    done, s1 := PushVector(m, root, hi, args, b, s, all, lapic);
    ok, t := PushWordIf(done, m, root, sp, |args|, b, s1, all, lapic);
    ArgsDone(lapic, done, ok, ViewOf(root, s), ViewOf(root, s1), ViewOf(root, t), sp, b, args, hi);
  }

  lemma {:induction false} ArgsDone(lapic: nat, done: bool, ok: bool, v: View, v': View, v'': View, sp: nat, b: nat, args: seq<nat>, hi: nat)
    requires b == ArgvAt(sp) && EnvpAt(sp, |args|) == hi && hi <= STACK_TOP && StackRange(sp, lapic)
    requires if done then VectorAt(v', b, args) && Touched(lapic, v, v', hi) else !ok && Unbacked(v, b)
    requires done && !ok ==> v'(sp) == Absent
    requires ok ==> WordAt(v'', sp, |args|) && Changed(lapic, v', v'', sp, b)
    ensures !ok ==> Unbacked(v, sp)
    ensures ok ==> Touched(lapic, v, v'', hi) && VectorAt(v'', b, args)
  {
    if ok {
      ChangedTouches(lapic, v', v'', sp, b, b);
      TouchedTrans(lapic, v, v', v'', hi, b);
      VectorKept(lapic, v', v'', b, args, b);
    } else if done {
      MissingAt(lapic, v, v', hi, sp, sp);
    } else {
      UnbackedBelow(v, b, sp);
    }
  }

  /** The environment below `hi`, then the arguments and their count. */
  method PushVectors(go: bool, m: Machine, root: nat, hi: nat, args: seq<nat>, envs: seq<nat>, sp: nat, ghost s: Life, ghost all: set<nat>, ghost lapic: nat) returns (ok: bool, ghost t: Life)
    requires Sound(m, root, s, all, lapic) && sp % 8 == 0 && hi <= STACK_TOP && AuxAt(sp, |args|, |envs|) == hi && StackRange(sp, lapic)
    modifies m`mem
    ensures Sound(m, root, t, all, lapic) && t.held == s.held
    ensures !go ==> !ok
    ensures go && !ok ==> Unbacked(ViewOf(root, s), sp)
    ensures ok ==> Touched(lapic, ViewOf(root, s), ViewOf(root, t), hi) && VectorAt(ViewOf(root, t), EnvpAt(sp, |args|), envs)
    ensures ok ==> VectorAt(ViewOf(root, t), ArgvAt(sp), args) && WordAt(ViewOf(root, t), sp, |args|)
  {
    if !go { return false, s; }
    var e := EnvpAt(sp, |args|);
    TablesAligned(sp, |args|, |envs|);
    var done;
    ghost var s1;
    done, s1 := PushVector(m, root, hi, envs, e, s, all, lapic);
    ok, t := PushArgs(done, m, root, e, args, sp, s1, all, lapic);
    EnvDone(lapic, done, ok, ViewOf(root, s), ViewOf(root, s1), ViewOf(root, t), sp, e, envs, hi);
  }

  lemma {:induction false} EnvDone(lapic: nat, done: bool, ok: bool, v: View, v': View, v'': View, sp: nat, e: nat, envs: seq<nat>, hi: nat)
    requires sp <= e && SlotAt(e, |envs|) + 8 == hi && hi <= STACK_TOP && StackRange(sp, lapic)
    requires if done then VectorAt(v', e, envs) && Touched(lapic, v, v', hi) else !ok && Unbacked(v, e)
    requires done && !ok ==> Unbacked(v', sp)
    requires ok ==> Touched(lapic, v', v'', e)
    ensures !ok ==> Unbacked(v, sp)
    ensures ok ==> Touched(lapic, v, v'', hi) && VectorAt(v'', e, envs)
  {
    if ok {
      TouchedTrans(lapic, v, v', v'', hi, e);
      VectorKept(lapic, v', v'', e, envs, e);
    } else if done {
      StillUnbacked(lapic, v, v', hi, sp, sp);
    } else {
      UnbackedBelow(v, e, sp);
    }
  }

  // ---- build_exec_stack ----

  /** Sum of the rounded string lengths. */
  method SumSpans(strs: seq<CString>) returns (sum: nat)
    ensures sum == Spans(strs, |strs|)
  {
    sum := 0;
    var i: nat := 0;
    while i < |strs|
      invariant 0 <= i <= |strs| && sum == Spans(strs, i)
    {
      sum := sum + Round8(|strs[i]| + 1);
      i := i + 1;
    }
  }

  method PlaceStringsIf(go: bool, m: Machine, root: nat, strs: seq<CString>, from: nat, ghost lo: nat, ghost s: Life, ghost all: set<nat>, ghost lapic: nat)
    returns (ok: bool, addrs: seq<nat>, cur: nat, ghost t: Life)
    requires Sound(m, root, s, all, lapic)
    requires go ==> from <= STACK_TOP && from % 8 == 0 && StackRange(lo, lapic) && lo <= from - Spans(strs, |strs|) && StringsFit(from, strs)
    modifies m`mem
    ensures Sound(m, root, t, all, lapic) && t.held == s.held
    ensures !go ==> !ok
    ensures go && !ok ==> Unbacked(ViewOf(root, s), lo)
    ensures ok ==> Touched(lapic, ViewOf(root, s), ViewOf(root, t), from)
    ensures ok ==> cur == from - Spans(strs, |strs|) && |addrs| == |strs| && StringsAt(ViewOf(root, t), addrs, from, strs, |strs|)
  {
    if !go { return false, [], 0, s; }
    ok, addrs, cur, t := PlaceStrings(m, root, strs, from, lo, s, all, lapic);
  }

  const AUX_NULL: seq<byte> := [0, 0, 0, 0, 0, 0, 0, 0, 0, 0, 0, 0, 0, 0, 0, 0]

  method PushAuxIf(go: bool, m: Machine, root: nat, a: nat, ghost hi: nat, ghost s: Life, ghost all: set<nat>, ghost lapic: nat) returns (ok: bool, ghost t: Life)
    requires Sound(m, root, s, all, lapic)
    requires go ==> StackRange(a, lapic) && a % 8 == 0 && a % PAGE + 16 <= PAGE && hi == a + 16 && hi <= STACK_TOP
    modifies m`mem
    ensures Sound(m, root, t, all, lapic) && t.held == s.held
    ensures !go ==> !ok
    ensures go && !ok ==> ViewOf(root, s)(a) == Absent
    ensures ok ==> BytesAt(ViewOf(root, t), a, AUX_NULL) && Changed(lapic, ViewOf(root, s), ViewOf(root, t), a, hi)
  {
    if !go { return false, s; }
    ok, t := WriteBytes(m, root, a, AUX_NULL, hi, s, all, lapic);
  }

  /** The strings of both lists. */
  method PlaceBoth(m: Machine, root: nat, argv: seq<CString>, envp: seq<CString>, from: nat, ghost lo: nat, ghost mid: nat, ghost s: Life, ghost all: set<nat>, ghost lapic: nat)
    returns (ok: bool, args: seq<nat>, envs: seq<nat>, cur: nat, ghost t: Life)
    requires Sound(m, root, s, all, lapic) && from <= STACK_TOP && from % 8 == 0 && StackRange(lo, lapic) && mid == from - Spans(envp, |envp|) && mid % 8 == 0 && lo <= mid - Spans(argv, |argv|)
    requires StringsFit(from, envp) && StringsFit(mid, argv)
    modifies m`mem
    ensures Sound(m, root, t, all, lapic) && t.held == s.held
    ensures !ok ==> Unbacked(ViewOf(root, s), lo)
    ensures ok ==> cur == mid - Spans(argv, |argv|) && |args| == |argv| && |envs| == |envp| && Touched(lapic, ViewOf(root, s), ViewOf(root, t), from)
    ensures ok ==> StringsAt(ViewOf(root, t), envs, from, envp, |envp|) && StringsAt(ViewOf(root, t), args, mid, argv, |argv|)
  {
    var done, c1;
    ghost var s1;
    done, envs, c1, s1 := PlaceStrings(m, root, envp, from, lo, s, all, lapic);
    assert done ==> c1 == mid;
    ok, args, cur, t := PlaceStringsIf(done, m, root, argv, c1, lo, s1, all, lapic);
    BothDone(lapic, done, ok, ViewOf(root, s), ViewOf(root, s1), ViewOf(root, t), envs, envp, from, mid, lo);
  }

  lemma {:induction false} BothDone(lapic: nat, done: bool, ok: bool, v: View, v': View, v'': View, envs: seq<nat>, envp: seq<CString>, from: nat, mid: nat, lo: nat)
    requires from <= STACK_TOP && StackRange(lo, lapic) && mid == from - Spans(envp, |envp|) && lo <= mid
    requires if done then Touched(lapic, v, v', from) && StringsAt(v', envs, from, envp, |envp|) else !ok && Unbacked(v, lo)
    requires done && !ok ==> Unbacked(v', lo)
    requires ok ==> Touched(lapic, v', v'', mid)
    ensures !ok ==> Unbacked(v, lo)
    ensures ok ==> Touched(lapic, v, v'', from) && StringsAt(v'', envs, from, envp, |envp|)
  {
    if ok {
      TouchedTrans(lapic, v, v', v'', from, mid);
      StringsKept(lapic, v', v'', envs, from, envp, |envp|, mid);
    } else if done {
      StillUnbacked(lapic, v, v', from, lo, lo);
    }
  }

  /** The auxiliary pair, the arrays and the count below the strings. */
  method PushTables(go: bool, m: Machine, root: nat, cur: nat, args: seq<nat>, envs: seq<nat>, sp: nat, ghost s: Life, ghost all: set<nat>, ghost lapic: nat) returns (ok: bool, ghost t: Life)
    requires Sound(m, root, s, all, lapic)
    requires go ==> sp % 8 == 0 && cur <= STACK_TOP && AuxAt(sp, |args|, |envs|) + 16 == cur && StackRange(sp, lapic) && AuxAt(sp, |args|, |envs|) % PAGE + 16 <= PAGE
    modifies m`mem
    ensures Sound(m, root, t, all, lapic) && t.held == s.held
    ensures !go ==> !ok
    ensures go && !ok ==> Unbacked(ViewOf(root, s), sp)
    ensures ok ==> Touched(lapic, ViewOf(root, s), ViewOf(root, t), cur) && BytesAt(ViewOf(root, t), AuxAt(sp, |args|, |envs|), AUX_NULL)
    ensures ok ==> VectorAt(ViewOf(root, t), EnvpAt(sp, |args|), envs) && VectorAt(ViewOf(root, t), ArgvAt(sp), args) && WordAt(ViewOf(root, t), sp, |args|)
  {
    if !go { return false, s; }
    ok, t := PushTablesNow(m, root, cur, args, envs, sp, s, all, lapic);
  }

  method PushTablesNow(m: Machine, root: nat, cur: nat, args: seq<nat>, envs: seq<nat>, sp: nat, ghost s: Life, ghost all: set<nat>, ghost lapic: nat) returns (ok: bool, ghost t: Life)
    requires Sound(m, root, s, all, lapic) && sp % 8 == 0 && cur <= STACK_TOP && AuxAt(sp, |args|, |envs|) + 16 == cur && StackRange(sp, lapic) && AuxAt(sp, |args|, |envs|) % PAGE + 16 <= PAGE
    modifies m`mem
    ensures Sound(m, root, t, all, lapic) && t.held == s.held
    ensures !ok ==> Unbacked(ViewOf(root, s), sp)
    ensures ok ==> Touched(lapic, ViewOf(root, s), ViewOf(root, t), cur) && BytesAt(ViewOf(root, t), AuxAt(sp, |args|, |envs|), AUX_NULL)
    ensures ok ==> VectorAt(ViewOf(root, t), EnvpAt(sp, |args|), envs) && VectorAt(ViewOf(root, t), ArgvAt(sp), args) && WordAt(ViewOf(root, t), sp, |args|)
  {
    var a := AuxAt(sp, |args|, |envs|);
    TablesAligned(sp, |args|, |envs|);
    var done;
    ghost var s1;
    done, s1 := PushAuxIf(true, m, root, a, cur, s, all, lapic);
    ok, t := PushVectors(done, m, root, a, args, envs, sp, s1, all, lapic);
    AuxDone(lapic, done, ok, ViewOf(root, s), ViewOf(root, s1), ViewOf(root, t), sp, a, cur);
  }

  lemma {:induction false} AuxDone(lapic: nat, done: bool, ok: bool, v: View, v': View, v'': View, sp: nat, a: nat, cur: nat)
    requires sp <= a && a + 16 == cur && cur <= STACK_TOP && StackRange(sp, lapic)
    requires if done then BytesAt(v', a, AUX_NULL) && Changed(lapic, v, v', a, cur) else !ok && v(a) == Absent
    requires done && !ok ==> Unbacked(v', sp)
    requires ok ==> Touched(lapic, v', v'', a)
    ensures !ok ==> Unbacked(v, sp)
    ensures ok ==> Touched(lapic, v, v'', cur) && BytesAt(v'', a, AUX_NULL)
  {
    if ok {
      ChangedTouches(lapic, v, v', a, cur, cur);
      TouchedTrans(lapic, v, v', v'', cur, a);
      BytesKept(lapic, v', v'', a, AUX_NULL, a);
    } else if done {
      ChangedTouches(lapic, v, v', a, cur, cur);
      StillUnbacked(lapic, v, v', cur, sp, sp);
    }
  }

  /** build_exec_stack: the stack pointer, 0 if some address of the block is not mapped. */
  method BuildExecStack(m: Machine, root: nat, argv: seq<CString>, envp: seq<CString>, ghost low: nat, ghost s: Life, ghost all: set<nat>, ghost lapic: nat) returns (sp: nat, ghost t: Life)
    requires Sound(m, root, s, all, lapic) && |argv| <= MAX_STRINGS && |envp| <= MAX_STRINGS
    requires low == StackPointer(argv, envp) && low > 0 && StackRange(low, lapic) && BlockFits(argv, envp)
    modifies m`mem
    ensures Sound(m, root, t, all, lapic) && t.held == s.held
    ensures sp == 0 ==> Unbacked(ViewOf(root, s), low)
    ensures sp != 0 ==> sp == low && sp % 16 == 0 && Frame(ViewOf(root, t), sp, argv, envp) && Touched(lapic, ViewOf(root, s), ViewOf(root, t), STACK_TOP)
    ensures sp != 0 ==> InSlots(ViewOf(root, t), ArgvAt(sp), ArgFrom(argv, envp), argv) && InSlots(ViewOf(root, t), EnvpAt(sp, |argv|), EnvFrom(argv, envp), envp)
  {
    var envBytes := SumSpans(envp);
    var argBytes := SumSpans(argv);
    var total := envBytes + argBytes + 8 * (5 + |argv| + |envp|);
    var from: nat, tables: nat := STACK_TOP - Pad(total), 8 * (5 + |argv| + |envp|);
    ghost var mid: nat := ArgFrom(argv, envp);
    BlockPlan(argv, envp, low, from, mid, tables);
    sp, t := FillBlock(m, root, argv, envp, from, tables, mid, low, s, all, lapic);
  }

  /** The strings and the tables, given where the strings begin and what the tables take. */
  method FillBlock(m: Machine, root: nat, argv: seq<CString>, envp: seq<CString>, from: nat, tables: nat, ghost mid: nat, ghost low: nat, ghost s: Life, ghost all: set<nat>, ghost lapic: nat)
    returns (sp: nat, ghost t: Life)
    requires Sound(m, root, s, all, lapic) && from <= STACK_TOP && from % 8 == 0 && mid == from - Spans(envp, |envp|) && mid % 8 == 0 && low > 0 && low % 8 == 0 && StackRange(low, lapic)
    requires low == mid - Spans(argv, |argv|) - tables && tables == 8 * (5 + |argv| + |envp|)
    requires StringsFit(from, envp) && StringsFit(mid, argv) && AuxAt(low, |argv|, |envp|) % PAGE + 16 <= PAGE
    modifies m`mem
    ensures Sound(m, root, t, all, lapic) && t.held == s.held
    ensures sp == 0 ==> Unbacked(ViewOf(root, s), low)
    ensures sp != 0 ==> sp == low && Frame(ViewOf(root, t), sp, argv, envp) && Touched(lapic, ViewOf(root, s), ViewOf(root, t), STACK_TOP)
    ensures sp != 0 ==> InSlots(ViewOf(root, t), ArgvAt(sp), mid, argv) && InSlots(ViewOf(root, t), EnvpAt(sp, |argv|), from, envp)
  {
    var done, args, envs, cur;
    ghost var s1;
    done, args, envs, cur, s1 := PlaceBoth(m, root, argv, envp, from, low, mid, s, all, lapic);
    var at: nat := if done then cur - tables else 0;
    assert done ==> at == low;
    var ok;
    ok, t := PushTables(done, m, root, cur, args, envs, at, s1, all, lapic);
    sp := if ok then at else 0;
    assert ok ==> sp == low;
    BlockDone(lapic, done, ok, ViewOf(root, s), ViewOf(root, s1), ViewOf(root, t), argv, envp, args, envs, from, mid, cur, low);
  }

  lemma {:induction false} BlockDone(lapic: nat, done: bool, ok: bool, v: View, v': View, v'': View, argv: seq<CString>, envp: seq<CString>, args: seq<nat>, envs: seq<nat>, from: nat, mid: nat, cur: nat, sp: nat)
    requires from <= STACK_TOP && StackRange(sp, lapic) && mid == from - Spans(envp, |envp|) && sp > 0 && mid <= STACK_TOP
    requires done ==> cur == mid - Spans(argv, |argv|) && |args| == |argv| && |envs| == |envp| && AuxAt(sp, |argv|, |envp|) + 16 == cur
    requires done ==> Touched(lapic, v, v', from) && StringsAt(v', envs, from, envp, |envp|) && StringsAt(v', args, mid, argv, |argv|)
    requires !done ==> !ok && Unbacked(v, sp)
    requires done && !ok ==> Unbacked(v', sp)
    requires ok ==> Touched(lapic, v', v'', cur) && BytesAt(v'', AuxAt(sp, |args|, |envs|), AUX_NULL)
    requires ok ==> VectorAt(v'', EnvpAt(sp, |args|), envs) && VectorAt(v'', ArgvAt(sp), args) && WordAt(v'', sp, |args|)
    ensures !ok ==> Unbacked(v, sp)
    ensures ok ==> Touched(lapic, v, v'', STACK_TOP) && Frame(v'', sp, argv, envp)
    ensures ok ==> InSlots(v'', ArgvAt(sp), mid, argv) && InSlots(v'', EnvpAt(sp, |argv|), from, envp)
  {
    if ok {
      TouchedTrans(lapic, v, v', v'', from, cur);
      StringsKept(lapic, v', v'', envs, from, envp, |envp|, cur);
      StringsKept(lapic, v', v'', args, mid, argv, |argv|, cur);
      PointersFrom(v'', EnvpAt(sp, |argv|), envs, from, envp);
      PointersFrom(v'', ArgvAt(sp), args, mid, argv);
      ZeroPair(v'', AuxAt(sp, |argv|, |envp|), AUX_NULL);
    } else if done {
      StillUnbacked(lapic, v, v', from, sp, sp);
    }
  }
}
