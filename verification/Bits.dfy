/** Bitwise OR of machine words, bit by bit. */
module Bits {
  import opened LittleEndian

  function Pow2(n: nat): (p: nat)
    ensures p > 0
  {
    if n == 0 then 1 else 2 * Pow2(n - 1)
  }

  predicate Odd(x: nat) { x % 2 == 1 }

  function Or(a: nat, b: nat): nat
    decreases a + b
  {
    if a == 0 && b == 0 then 0 else (if Odd(a) || Odd(b) then 1 else 0) + 2 * Or(a / 2, b / 2)
  }

  /** Every bit of b is a bit of a. */
  predicate Within(b: nat, a: nat)
    decreases b
  {
    b == 0 || ((Odd(b) ==> Odd(a)) && Within(b / 2, a / 2))
  }

  lemma {:induction false} OrHalf(a: nat, b: nat)
    ensures Or(a, b) / 2 == Or(a / 2, b / 2) && (Odd(Or(a, b)) <==> Odd(a) || Odd(b))
  {
  }

  lemma {:induction false} OrZero(a: nat)
    ensures Or(a, 0) == a && Or(0, a) == a
  {
    if a > 0 { OrZero(a / 2); }
  }

  lemma {:induction false} QuotientHalf(x: nat, p: nat)
    requires p > 0
    ensures x / 2 / p == x / (2 * p)
  {
    var h := x / 2;
    var q, r := h / p, h % p;
    assert h == p * q + r;
    assert x == 2 * p * q + (2 * r + x % 2) by { assert 2 * (p * q) == 2 * p * q; }
    ModUnique(x, 2 * p, q, 2 * r + x % 2);
  }

  /** The bits of x from n up. */
  function Shift(x: nat, n: nat): nat {
    if n == 0 then x else Shift(x / 2, n - 1)
  }

  lemma {:induction false} ShiftIs(x: nat, n: nat, p: nat)
    requires p == Pow2(n)
    ensures Shift(x, n) == x / p
  {
    if n > 0 {
      ShiftIs(x / 2, n - 1, Pow2(n - 1));
      QuotientHalf(x, Pow2(n - 1));
    }
  }

  /** The bits of an OR from n up are the OR of the bits from n up. */
  lemma {:induction false} OrShift(a: nat, b: nat, n: nat)
    ensures Shift(Or(a, b), n) == Or(Shift(a, n), Shift(b, n))
  {
    if n > 0 {
      OrHalf(a, b);
      OrShift(a / 2, b / 2, n - 1);
    }
  }

  /** The shifts by which the page tables are read. */
  lemma {:induction false} Shifts(x: nat)
    ensures Shift(x, 2) == x / 4 && Shift(x, 7) == x / 128 && Shift(x, 12) == x / 0x1000 && Shift(x, 21) == x / 0x20_0000
  {
    Pow2Values();
    ShiftIs(x, 2, 4);
    ShiftIs(x, 7, 128);
    ShiftIs(x, 12, 0x1000);
    ShiftIs(x, 21, 0x20_0000);
  }

  lemma {:induction false} OrBound(a: nat, b: nat, n: nat)
    requires a < Pow2(n) && b < Pow2(n)
    ensures Or(a, b) < Pow2(n)
  {
    if n > 0 {
      OrBound(a / 2, b / 2, n - 1);
      OrHalf(a, b);
    }
  }

  /** ORing b in changes nothing exactly when its bits are there already. */
  lemma {:induction false} OrAbsorbs(a: nat, b: nat)
    ensures Or(a, b) == a <==> Within(b, a)
    decreases b
  {
    if b == 0 {
      OrZero(a);
    } else {
      OrHalf(a, b);
      OrAbsorbs(a / 2, b / 2);
      Halves(Or(a, b), a);
    }
  }

  lemma {:induction false} Halves(x: nat, y: nat)
    ensures x == y <==> x / 2 == y / 2 && (Odd(x) <==> Odd(y))
  {
  }

  lemma {:induction false} WithinLess(b: nat, a: nat)
    requires Within(b, a)
    ensures b <= a
    decreases b
  {
    if b > 0 { WithinLess(b / 2, a / 2); }
  }

  lemma {:induction false} Pow2Values()
    ensures Pow2(2) == 4 && Pow2(7) == 128 && Pow2(12) == 0x1000 && Pow2(21) == 0x20_0000 && Pow2(64) == TWO64
  {
    assert Pow2(8) == 0x100 && Pow2(12) == 0x1000 && Pow2(16) == 0x1_0000;
    assert Pow2(20) == 0x10_0000 && Pow2(24) == 0x100_0000 && Pow2(28) == 0x1000_0000 && Pow2(32) == 0x1_0000_0000;
    assert Pow2(36) == 0x10_0000_0000 && Pow2(40) == 0x100_0000_0000 && Pow2(44) == 0x1000_0000_0000 && Pow2(48) == 0x1_0000_0000_0000;
    assert Pow2(52) == 0x10_0000_0000_0000 && Pow2(56) == 0x100_0000_0000_0000 && Pow2(60) == 0x1000_0000_0000_0000;
  }
}
