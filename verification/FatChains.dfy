/** Cluster chains: files as linked lists threaded through the allocation table, and the
    byte sequences they hold. */
module FatChains {
  import opened Basics
  import opened LittleEndian
  import opened FatDisk

  type Fat = seq<nat>
  type Data = seq<seq<byte>>

  /** Cluster i of the chain is in range and links to its successor or ends the chain. */
  predicate LinkAt(fat: Fat, c: seq<nat>, i: nat)
    requires i < |c|
  {
    2 <= c[i] < |fat| && if i + 1 < |c| then fat[c[i]] == c[i + 1] else fat[c[i]] >= EOC
  }

  /** c is the whole chain that starts at c[0]: linked, in range, EOC-terminated. */
  ghost predicate Chain(fat: Fat, c: seq<nat>) {
    |fat| <= BAD && c != [] && forall i: nat :: i < |c| ==> LinkAt(fat, c, i)
  }

  /** The file that starts at `first` occupies c; a file without clusters starts at 0. */
  ghost predicate File(fat: Fat, first: nat, c: seq<nat>) {
    if c == [] then first == 0 else first == c[0] && Chain(fat, c)
  }

  lemma {:induction false} ChainRepeatEnds(fat: Fat, c: seq<nat>, i: nat, j: nat)
    requires Chain(fat, c) && i < j < |c|
    ensures c[i] != c[j]
    decreases |c| - j
  {
    assert LinkAt(fat, c, i) && LinkAt(fat, c, j);
    if j + 1 < |c| {
      assert LinkAt(fat, c, j + 1);
      ChainRepeatEnds(fat, c, i + 1, j + 1);
    } else {
      assert LinkAt(fat, c, i + 1);
    }
  }

  /** A terminated chain visits no cluster twice: it is acyclic. */
  lemma {:induction false} ChainAcyclic(fat: Fat, c: seq<nat>)
    requires Chain(fat, c)
    ensures Distinct(c)
  {
    forall i, j | 0 <= i < j < |c| ensures c[i] != c[j] { ChainRepeatEnds(fat, c, i, j); }
  }

  // ---- contents ----

  ghost predicate DataShape(data: Data, bpc: nat) {
    forall x :: 2 <= x < |data| ==> |data[x]| == bpc
  }

  ghost predicate InData(data: Data, c: seq<nat>) {
    forall i :: 0 <= i < |c| ==> 2 <= c[i] < |data|
  }

  /** The bytes of a chain, cluster after cluster. */
  ghost function Contents(data: Data, c: seq<nat>): seq<byte>
    requires InData(data, c)
  {
    if c == [] then [] else Contents(data, c[..|c| - 1]) + data[c[|c| - 1]]
  }

  lemma {:induction false} ContentsSnoc(data: Data, c: seq<nat>, x: nat)
    requires InData(data, c) && 2 <= x < |data|
    ensures Contents(data, c + [x]) == Contents(data, c) + data[x]
  {
    assert (c + [x])[..|c|] == c;
  }

  lemma {:induction false} ContentsLength(data: Data, c: seq<nat>, bpc: nat)
    requires InData(data, c) && DataShape(data, bpc)
    ensures |Contents(data, c)| == Times(|c|, bpc)
  {
    if c != [] { ContentsLength(data, c[..|c| - 1], bpc); }
  }

  /** The contents depend on the chain's own clusters only. */
  lemma {:induction false} ContentsFrame(data: Data, data': Data, c: seq<nat>)
    requires InData(data, c) && InData(data', c)
    requires forall i :: 0 <= i < |c| ==> data[c[i]] == data'[c[i]]
    ensures Contents(data, c) == Contents(data', c)
  {
    if c != [] { ContentsFrame(data, data', c[..|c| - 1]); }
  }

  lemma {:induction false} ContentsAppend(data: Data, a: seq<nat>, b: seq<nat>)
    requires InData(data, a) && InData(data, b)
    ensures Contents(data, a + b) == Contents(data, a) + Contents(data, b)
  {
    if b == [] {
      assert a + b == a;
    } else {
      var b' := b[..|b| - 1];
      ContentsAppend(data, a, b');
      assert (a + b)[..|a + b| - 1] == a + b';
    }
  }

  /** Cluster n of the chain holds the bytes [n * bpc, (n + 1) * bpc) of the file. */
  lemma {:induction false} ContentsSplit(data: Data, c: seq<nat>, n: nat, bpc: nat)
    requires InData(data, c) && DataShape(data, bpc) && n < |c|
    ensures |Contents(data, c[..n])| == Times(n, bpc)
    ensures Contents(data, c) == Contents(data, c[..n]) + data[c[n]] + Contents(data, c[n + 1..])
  {
    ContentsLength(data, c[..n], bpc);
    assert c == c[..n] + [c[n]] + c[n + 1..];
    ContentsAppend(data, c[..n] + [c[n]], c[n + 1..]);
    ContentsSnoc(data, c[..n], c[n]);
  }

  /** `s` written over `a` at position p. */
  function Splice(a: seq<byte>, p: nat, s: seq<byte>): (r: seq<byte>)
    requires s == [] || p + |s| <= |a|
    ensures |r| == |a|
  {
    if s == [] then a else a[..p] + s + a[p + |s|..]
  }

  lemma {:induction false} SpliceMore(a: seq<byte>, p: nat, s: seq<byte>, t: seq<byte>)
    requires p + |s| + |t| <= |a|
    ensures Splice(Splice(a, p, s), p + |s|, t) == Splice(a, p, s + t)
  {
    if t == [] { assert s + t == s; }
    else if s == [] { assert s + t == t; }
  }

  lemma {:induction false} SpliceAppend(a: seq<byte>, p: nat, s: seq<byte>, b: seq<byte>)
    requires s == [] || p + |s| <= |a|
    ensures Splice(a, p, s) + b == Splice(a + b, p, s)
  {
  }

  /** Overwriting [at, at + |s|) inside cluster n is a splice of the file at n * bpc + at. */
  lemma {:induction false} ContentsPut(data: Data, c: seq<nat>, n: nat, bpc: nat, at: nat, s: seq<byte>)
    requires InData(data, c) && DataShape(data, bpc) && Distinct(c) && n < |c| && at + |s| <= bpc && s != []
    ensures var data' := data[c[n] := Splice(data[c[n]], at, s)];
            && InData(data', c) && DataShape(data', bpc)
            && |Contents(data, c)| == Times(|c|, bpc) && Times(n, bpc) + bpc <= Times(|c|, bpc)
            && Contents(data', c) == Splice(Contents(data, c), Times(n, bpc) + at, s)
  {
    var b := Splice(data[c[n]], at, s);
    var data' := data[c[n] := b];
    ContentsSplit(data, c, n, bpc);
    ContentsSplit(data', c, n, bpc);
    ContentsLength(data, c, bpc);
    ContentsFrame(data, data', c[..n]);
    ContentsFrame(data, data', c[n + 1..]);
    TimesMono(n + 1, |c|, bpc);
    var x, y := Contents(data, c[..n]), Contents(data, c[n + 1..]);
    SplicePieces(x, data[c[n]], y, at, s);
  }

  lemma {:induction false} SplicePieces(x: seq<byte>, m: seq<byte>, y: seq<byte>, at: nat, s: seq<byte>)
    requires at + |s| <= |m| && s != []
    ensures x + Splice(m, at, s) + y == Splice(x + m + y, |x| + at, s)
  {
  }

  // ---- edits of the table ----

  /** Linking the free cluster x after the first n clusters of a chain. */
  lemma {:induction false} AppendChain(fat: Fat, c: seq<nat>, n: nat, x: nat)
    requires Chain(fat, c) && 0 < n <= |c| && 2 <= x < |fat| && fat[x] == 0
    ensures c[n - 1] < |fat|
    ensures Chain(fat[x := EOC][c[n - 1] := x], c[..n] + [x])
  {
    ChainAcyclic(fat, c);
    var d := c[..n] + [x];
    assert LinkAt(fat, c, n - 1);
    var fat' := fat[x := EOC][c[n - 1] := x];
    ChainNonzero(fat, c, c[n - 1]);
    forall i: nat | i < |d| ensures LinkAt(fat', d, i) {
      if i < n {
        assert LinkAt(fat, c, i);
        ChainNonzero(fat, c, c[i]);
        assert i < n - 1 ==> c[i] != c[n - 1];
      }
    }
  }

  /** A chain whose entries are all kept is still that chain. */
  lemma {:induction false} ChainFrame(fat: Fat, fat': Fat, c: seq<nat>)
    requires Chain(fat, c) && |fat'| == |fat|
    requires forall i :: 0 <= i < |c| && 2 <= c[i] < |fat| ==> fat'[c[i]] == fat[c[i]]
    ensures Chain(fat', c)
  {
    forall i: nat | i < |c| ensures LinkAt(fat', c, i) { assert LinkAt(fat, c, i); }
  }

  lemma {:induction false} ChainNonzero(fat: Fat, c: seq<nat>, x: nat)
    requires Chain(fat, c) && x in c
    ensures 2 <= x < |fat| && fat[x] != 0
  {
    var i :| 0 <= i < |c| && c[i] == x;
    assert LinkAt(fat, c, i);
    if i + 1 < |c| { assert LinkAt(fat, c, i + 1); }
  }

  // ---- what one operation may touch ----

  /** The operation turned the chain `own` into `now`, using besides `own` only clusters that
      were free, and left every other allocated cluster alone, entry and data. */
  ghost predicate Confined(fat: Fat, data: Data, fat': Fat, data': Data, own: seq<nat>, now: seq<nat>) {
    && |fat'| == |fat| && |data| == |fat| && |data'| == |data|
    && (forall x :: 0 <= x < |fat| && fat[x] != 0 && x !in own ==> fat'[x] == fat[x] && data'[x] == data[x])
    && (now != [] ==> Chain(fat', now))
    && (forall x :: x in now ==> x in own || (x < |fat| && fat[x] == 0))
  }

  lemma {:induction false} ConfinedSelf(fat: Fat, data: Data, own: seq<nat>)
    requires |data| == |fat| && (own != [] ==> Chain(fat, own))
    ensures Confined(fat, data, fat, data, own, own)
  {
  }

  /** Operations compose. */
  lemma {:induction false} ConfinedTrans(f0: Fat, d0: Data, f1: Fat, d1: Data, f2: Fat, d2: Data, a: seq<nat>, b: seq<nat>, c: seq<nat>)
    requires Confined(f0, d0, f1, d1, a, b) && Confined(f1, d1, f2, d2, b, c)
    ensures Confined(f0, d0, f2, d2, a, c)
  {
    forall x | 0 <= x < |f0| && f0[x] != 0 && x !in a ensures f2[x] == f0[x] && d2[x] == d0[x] {
      assert f1[x] == f0[x];
      assert x !in b;
    }
    forall x | x in c ensures x in a || (x < |f0| && f0[x] == 0) {
      if x !in b { assert x < |f1| && f1[x] == 0; }
    }
  }

  /** Disjoint chains and their contents survive an operation, and stay disjoint from its result. */
  lemma {:induction false} ConfinedSpares(fat: Fat, data: Data, fat': Fat, data': Data, own: seq<nat>, now: seq<nat>, d: seq<nat>)
    requires Confined(fat, data, fat', data', own, now) && Chain(fat, d)
    requires forall x :: x in d ==> x !in own
    ensures Chain(fat', d) && InData(data, d) && InData(data', d) && Contents(data', d) == Contents(data, d)
    ensures forall x :: x in d ==> x !in now
  {
    forall x | x in d ensures 2 <= x < |fat| && fat[x] != 0 && x !in own { ChainNonzero(fat, d, x); }
    ChainFrame(fat, fat', d);
    assert forall i :: 0 <= i < |d| ==> d[i] in d;
    ContentsFrame(data, data', d);
  }
}
