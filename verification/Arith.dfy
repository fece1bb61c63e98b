/** Division with remainder is unique. */
module Arith {
  lemma {:induction false} MultipleAtLeast(n: nat, k: nat)
    requires k >= 1
    ensures n * k >= n
  {
    if k > 1 {
      MultipleAtLeast(n, k - 1);
      assert n * k == n * (k - 1) + n;
    }
  }

  lemma MultipleInRange(n: nat, k: int)
    requires 0 - n < n * k < n
    ensures k == 0
  {
    if k >= 1 { MultipleAtLeast(n, k); }
    if k <= -1 {
      assert n * -k == -(n * k);
      MultipleAtLeast(n, -k);
    }
  }

  lemma DivisionUnique(x: int, n: int, q: int, t: int)
    requires 0 <= t < n && x == n * q + t
    ensures x / n == q && x % n == t
  {
    var k, r := x / n, x % n;
    assert x == n * k + r && 0 <= r < n;
    assert n * (q - k) == n * q - n * k;
    MultipleInRange(n, q - k);
  }
}
