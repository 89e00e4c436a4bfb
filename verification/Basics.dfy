/** What several parts of the model share. */
module Basics {

  function Min(a: nat, b: nat): nat {
    if a < b then a else b
  }

  ghost predicate Distinct(q: seq<nat>) {
    forall i, j :: 0 <= i < j < |q| ==> q[i] != q[j]
  }

  lemma {:induction false} SubsetCount<T>(a: set<T>, b: set<T>)
    requires a <= b
    ensures |a| <= |b| && (a != b ==> |a| < |b|)
  {
    assert b == a + (b - a);
    if a != b {
      var x :| x in b && x !in a;
      assert x in b - a;
    }
  }

  /** A map that gives no value twice has as many values as keys. */
  lemma {:induction false} ValueCount<T(!new)>(m: map<nat, T>)
    requires forall f, g :: f in m && g in m && m[f] == m[g] ==> f == g
    ensures |m.Values| == |m.Keys|
    decreases |m|
  {
    if f :| f in m {
      var rest := m - {f};
      ValueCount(rest);
      assert m.Keys == rest.Keys + {f};
      assert m.Values == rest.Values + {m[f]};
    } else {
      assert m.Values == {};
    }
  }

  lemma {:induction false} MulGrows(d: int, k: int)
    requires d > 0
    ensures k >= 1 ==> d * k >= d
    ensures k <= -1 ==> d * k <= -d
  {
  }
}
