/** Bitwise OR on naturals, and when it is addition. */
module Bits {
  function Or(a: nat, b: nat): nat
    decreases a + b
  {
    if a == 0 && b == 0 then 0
    else (if a % 2 == 1 || b % 2 == 1 then 1 else 0) + 2 * Or(a / 2, b / 2)
  }

  function Pow2(k: nat): (r: nat)
    ensures r > 0
  {
    if k == 0 then 1 else 2 * Pow2(k - 1)
  }

  lemma {:induction false} OrZero(a: nat)
    ensures Or(a, 0) == a && Or(0, a) == a
  {
    if a > 0 { OrZero(a / 2); }
  }

  lemma HalfOfShifted(h: nat, k: nat, x: nat)
    requires k > 0
    ensures (h * Pow2(k) + x) % 2 == x % 2 && (h * Pow2(k) + x) / 2 == h * Pow2(k - 1) + x / 2
  {
    assert h * Pow2(k) == 2 * (h * Pow2(k - 1));
  }

  function LowBit(a: nat, b: nat): nat { if a % 2 == 1 || b % 2 == 1 then 1 else 0 }

  lemma OrUnfold(a: nat, b: nat)
    ensures Or(a, b) == LowBit(a, b) + 2 * Or(a / 2, b / 2)
  {
  }

  /** OR works on the fields below and above bit `k` independently. */
  lemma {:induction false} OrFields(h: nat, g: nat, k: nat, x: nat, y: nat)
    requires x < Pow2(k) && y < Pow2(k)
    ensures Or(h * Pow2(k) + x, g * Pow2(k) + y) == Or(h, g) * Pow2(k) + Or(x, y)
  {
    if k > 0 {
      HalfOfShifted(h, k, x);
      HalfOfShifted(g, k, y);
      OrUnfold(h * Pow2(k) + x, g * Pow2(k) + y);
      OrUnfold(x, y);
      OrFields(h, g, k - 1, x / 2, y / 2);
      DoubleShift(Or(h, g), k);
      hide Or, Pow2;
    }
  }

  lemma DoubleShift(h: nat, k: nat)
    requires k > 0
    ensures h * Pow2(k) == 2 * (h * Pow2(k - 1))
  {
  }

  /** Low bits never reach a field that starts at bit `k`. */
  lemma OrBelow(h: nat, k: nat, x: nat, y: nat)
    requires x < Pow2(k) && y < Pow2(k)
    ensures Or(h * Pow2(k) + x, y) == h * Pow2(k) + Or(x, y)
  {
    OrFields(h, 0, k, x, y);
    OrZero(h);
  }

  lemma Or12(p: nat, x: nat, y: nat)
    requires p % 4096 == 0 && x < 4096 && y < 4096
    ensures Or(p + x, y) == p + Or(x, y)
  {
    assert Pow2(12) == 4096;
    OrBelow(p / 4096, 12, x, y);
  }
}
