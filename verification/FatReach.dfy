/** Which clusters can be reached by following the table, for any table: with or without
    cycles, terminated or not. */
module FatReach {
  import opened Basics
  import opened FatDisk
  import opened FatChains

  /** p follows the table from cluster to cluster. */
  ghost predicate IsPath(fat: Fat, p: seq<nat>) {
    forall i: nat :: i < |p| ==> Hop(fat, p, i)
  }

  predicate Hop(fat: Fat, p: seq<nat>, i: nat)
    requires i < |p|
  {
    2 <= p[i] < |fat| && p[i] < BAD && (i + 1 < |p| ==> fat[p[i]] == p[i + 1])
  }

  ghost predicate Reaches(fat: Fat, x: nat, y: nat) {
    exists p :: IsPath(fat, p) && p != [] && p[0] == x && p[|p| - 1] == y
  }

  ghost function Reach(fat: Fat, x: nat): set<nat> {
    set y | 0 <= y < |fat| && Reaches(fat, x, y)
  }

  /** Following the table from x never leaves it. */
  ghost predicate StaysInRange(fat: Fat, x: nat) {
    && (ClusterValid(x) ==> x < |fat|)
    && forall y :: y in Reach(fat, x) && ClusterValid(fat[y]) ==> fat[y] < |fat|
  }

  /** The successor of p's last cluster ends the walk or leads back into p. */
  ghost predicate Closed(fat: Fat, p: seq<nat>) {
    p != [] && p[|p| - 1] < |fat| && (!ClusterValid(fat[p[|p| - 1]]) || fat[p[|p| - 1]] in p)
  }

  lemma {:induction false} PathReaches(fat: Fat, p: seq<nat>, i: nat)
    requires IsPath(fat, p) && i < |p|
    ensures p[i] in Reach(fat, p[0])
  {
    var q := p[..i + 1];
    forall j: nat | j < |q| ensures Hop(fat, q, j) { assert Hop(fat, p, j); }
    assert IsPath(fat, q) && q[|q| - 1] == p[i] && q[0] == p[0];
    assert Hop(fat, p, i);
  }

  /** A closed path contains everything that can be reached from its start. */
  lemma {:induction false} ClosedContains(fat: Fat, p: seq<nat>, q: seq<nat>, i: nat)
    requires IsPath(fat, p) && Closed(fat, p) && IsPath(fat, q) && i < |q| && q[0] == p[0]
    ensures q[i] in p
  {
    if i > 0 {
      ClosedContains(fat, p, q, i - 1);
      assert Hop(fat, q, i - 1) && Hop(fat, q, i);
      var k :| 0 <= k < |p| && p[k] == q[i - 1];
      assert Hop(fat, p, k);
      if k + 1 < |p| { assert p[k + 1] == q[i]; }
    }
  }

  lemma {:induction false} ClosedIsReach(fat: Fat, p: seq<nat>)
    requires IsPath(fat, p) && Closed(fat, p)
    ensures forall y :: y in Reach(fat, p[0]) <==> y in p
  {
    forall y ensures y in Reach(fat, p[0]) <==> y in p {
      if y in Reach(fat, p[0]) {
        var q :| IsPath(fat, q) && q != [] && q[0] == p[0] && q[|q| - 1] == y;
        ClosedContains(fat, p, q, |q| - 1);
      }
      if y in p {
        var i :| 0 <= i < |p| && p[i] == y;
        PathReaches(fat, p, i);
      }
    }
  }

  ghost function Elements(p: seq<nat>): (s: set<nat>)
    ensures forall x :: x in s <==> x in p
  {
    set x | x in p
  }

  lemma {:induction false} DistinctCount(p: seq<nat>)
    requires Distinct(p)
    ensures |Elements(p)| == |p|
  {
    if p == [] {
      assert Elements(p) == {};
    } else {
      var q := p[..|p| - 1];
      DistinctCount(q);
      assert p[|p| - 1] !in q;
      assert Elements(p) == Elements(q) + {p[|p| - 1]};
    }
  }

  /** A duplicate-free path visits as many clusters as are reachable if it is closed, and
      no more than that if it is not. */
  lemma {:induction false} PathCount(fat: Fat, p: seq<nat>)
    requires IsPath(fat, p) && Distinct(p) && p != []
    ensures |p| <= |Reach(fat, p[0])|
    ensures Closed(fat, p) ==> |p| == |Reach(fat, p[0])|
  {
    DistinctCount(p);
    var r := Reach(fat, p[0]);
    forall x | x in Elements(p) ensures x in r {
      var i :| 0 <= i < |p| && p[i] == x;
      PathReaches(fat, p, i);
    }
    SubsetCount(Elements(p), r);
    if Closed(fat, p) {
      ClosedIsReach(fat, p);
      assert Elements(p) == r;
    }
  }

  lemma {:induction false} SubsetCount(a: set<nat>, b: set<nat>)
    requires a <= b
    ensures |a| <= |b|
  {
    var d := b - a;
    assert b == a + d;
  }

  /** A well-formed chain is exactly what can be reached from its head. */
  lemma {:induction false} ChainIsReach(fat: Fat, c: seq<nat>)
    requires Chain(fat, c)
    ensures IsPath(fat, c) && Closed(fat, c) && Distinct(c)
    ensures StaysInRange(fat, c[0]) && |Reach(fat, c[0])| == |c|
    ensures forall y :: y in Reach(fat, c[0]) <==> y in c
  {
    ChainAcyclic(fat, c);
    forall i: nat | i < |c| ensures Hop(fat, c, i) { assert LinkAt(fat, c, i); }
    assert LinkAt(fat, c, |c| - 1) && LinkAt(fat, c, 0);
    ClosedIsReach(fat, c);
    PathCount(fat, c);
    forall y | y in c && ClusterValid(fat[y]) ensures fat[y] < |fat| {
      var i :| 0 <= i < |c| && c[i] == y;
      assert LinkAt(fat, c, i);
      if i + 1 < |c| { assert LinkAt(fat, c, i + 1); }
    }
  }

  /** Two walks from the same cluster agree as far as both go. */
  lemma {:induction false} PathsAgree(fat: Fat, p: seq<nat>, q: seq<nat>, i: nat)
    requires IsPath(fat, p) && IsPath(fat, q) && i < |p| && i < |q| && p[0] == q[0]
    ensures p[i] == q[i]
  {
    if i > 0 {
      PathsAgree(fat, p, q, i - 1);
      assert Hop(fat, p, i - 1) && Hop(fat, q, i - 1);
    }
  }

  /** How far a walk of at most `limit` steps gets: all that is reachable, or `limit` clusters. */
  lemma {:induction false} WalkExtent(fat: Fat, p: seq<nat>, limit: nat)
    requires IsPath(fat, p) && Distinct(p) && p != [] && |p| <= limit && (Closed(fat, p) || |p| == limit)
    ensures |p| == if |Reach(fat, p[0])| <= limit then |Reach(fat, p[0])| else limit
    ensures forall y :: y in p ==> y in Reach(fat, p[0])
    ensures |Reach(fat, p[0])| <= limit ==> forall y :: y in p <==> y in Reach(fat, p[0])
  {
    PathCount(fat, p);
    DistinctCount(p);
    var r := Reach(fat, p[0]);
    forall y | y in p ensures y in r {
      var i :| 0 <= i < |p| && p[i] == y;
      PathReaches(fat, p, i);
    }
    if |r| <= limit { SubsetFull(Elements(p), r); }
  }

  lemma {:induction false} SubsetFull(a: set<nat>, b: set<nat>)
    requires a <= b && |b| <= |a|
    ensures a == b
  {
    var d := b - a;
    assert b == a + d;
    assert |d| == 0;
  }

  /** One more step of a walk. */
  lemma {:induction false} PathSnoc(fat: Fat, p: seq<nat>, x: nat)
    requires IsPath(fat, p) && Distinct(p) && x !in p && 2 <= x < |fat| && x < BAD
    requires p != [] ==> p[|p| - 1] < |fat| && fat[p[|p| - 1]] == x
    ensures IsPath(fat, p + [x]) && Distinct(p + [x])
  {
    var q := p + [x];
    forall i: nat | i < |q| ensures Hop(fat, q, i) {
      if i < |p| { assert Hop(fat, p, i); }
    }
  }

  /** The next cluster of a walk is in the table. */
  lemma {:induction false} NextInRange(fat: Fat, p: seq<nat>, start: nat, cl: nat)
    requires IsPath(fat, p) && StaysInRange(fat, start) && ClusterValid(cl)
    requires if p == [] then cl == start else p[0] == start && p[|p| - 1] < |fat| && cl == fat[p[|p| - 1]]
    ensures cl < |fat|
  {
    if p != [] { PathReaches(fat, p, |p| - 1); }
  }
}
