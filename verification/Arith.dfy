/** Integer facts shared by several modules. */
module Arith {

  function Pow2(n: nat): nat { if n == 0 then 1 else 2 * Pow2(n - 1) }

  lemma AtLeastOneFactor(k: nat, d: int)
    ensures d >= 1 ==> k * d >= k
    ensures d <= -1 ==> k * d + k <= 0
  {
    if d >= 1 { assert k * d == k * (d - 1) + k; }
    if d <= -1 { assert k * d + k == k * (d + 1); }
  }

  lemma DivUnique(n: nat, k: nat, q: nat, r: nat)
    requires n == k * q + r && r < k
    ensures n / k == q && n % k == r
  {
    var a, b := n / k, n % k;
    assert n == k * a + b;
    assert k * (q - a) == k * q - k * a;
    AtLeastOneFactor(k, q - a);
  }
}
