/** Little-endian byte strings, as k_le16 and k_le32 read them and as the page-table walker
    and the relocation code store 64-bit words. */
module LittleEndian {
  import opened Basics

  type byte = b: int | 0 <= b < 256

  const TWO32: nat := 0x1_0000_0000
  const TWO64: nat := 0x1_0000_0000_0000_0000

  /** A string that C can hold. */
  predicate NoNul(s: seq<byte>) { forall k :: 0 <= k < |s| ==> s[k] != 0 }

  function Pow256(n: nat): (p: nat)
    ensures p > 0
  {
    if n == 0 then 1 else 256 * Pow256(n - 1)
  }

  /** The number a little-endian byte string denotes. */
  function FromLe(bs: seq<byte>): nat {
    if bs == [] then 0 else bs[0] + 256 * FromLe(bs[1..])
  }

  /** The n low bytes of v, lowest first. */
  function ToLe(v: nat, n: nat): (bs: seq<byte>)
    ensures |bs| == n
  {
    if n == 0 then [] else [v % 256] + ToLe(v / 256, n - 1)
  }

  /** Writing a word and reading it back keeps its low n bytes. */
  lemma {:induction false} FromToLe(v: nat, n: nat)
    ensures FromLe(ToLe(v, n)) == v % Pow256(n)
  {
    if n == 0 {
      assert v % 1 == 0;
    } else {
      FromToLe(v / 256, n - 1);
      assert ToLe(v, n)[1..] == ToLe(v / 256, n - 1);
      DigitSplit(v, Pow256(n - 1));
    }
  }

  lemma {:induction false} DigitSplit(v: nat, p: nat)
    requires p > 0
    ensures v % (256 * p) == v % 256 + 256 * (v / 256 % p)
  {
    var w := v / 256;
    var q, r := w / p, w % p;
    assert w == p * q + r;
    var rest := v % 256 + 256 * r;
    assert v == 256 * p * q + rest by { assert 256 * (p * q) == 256 * p * q; }
    assert 0 <= rest < 256 * p;
    ModUnique(v, 256 * p, q, rest);
  }

  lemma {:induction false} ModUnique(v: nat, d: nat, q: nat, r: nat)
    requires d > 0 && r < d && v == d * q + r
    ensures v % d == r && v / d == q
  {
    var q', r' := v / d, v % d;
    assert d * (q - q') == r' - r;
    MulGrows(d, q - q');
  }

  /** A byte string of length n denotes a number below 256^n, and is recovered from it. */
  lemma {:induction false} ToFromLe(bs: seq<byte>)
    ensures FromLe(bs) < Pow256(|bs|)
    ensures ToLe(FromLe(bs), |bs|) == bs
  {
    if bs != [] {
      ToFromLe(bs[1..]);
      var v := FromLe(bs);
      assert v % 256 == bs[0] && v / 256 == FromLe(bs[1..]);
      assert bs == [bs[0]] + bs[1..];
    }
  }

  lemma Pow256Values()
    ensures Pow256(2) == 0x1_0000 && Pow256(4) == 0x1_0000_0000 && Pow256(8) == 0x1_0000_0000_0000_0000
  {
    assert Pow256(1) == 256 && Pow256(3) == 256 * Pow256(2);
    assert Pow256(5) == 256 * Pow256(4) && Pow256(6) == 256 * Pow256(5) && Pow256(7) == 256 * Pow256(6);
  }
}
