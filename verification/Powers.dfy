/** Powers of two, and quotients by them. */
module Powers {

  function Pow2(n: nat): (p: nat)
    ensures p >= 1
  {
    if n == 0 then 1 else 2 * Pow2(n - 1)
  }

  lemma SmallMultiple(x: int, d: nat)
    requires x * d < d
    ensures x <= 0
  {
    assert x * d == (x - 1) * d + d;
  }

  lemma DivUnique(a: nat, d: nat, q: nat)
    requires d > 0 && q * d <= a < q * d + d
    ensures a / d == q
  {
    var k := a / d;
    assert k * d <= a < k * d + d;
    assert (k - q) * d == k * d - q * d && (q - k) * d == q * d - k * d;
    SmallMultiple(k - q, d);
    SmallMultiple(q - k, d);
  }

  lemma DivTwice(k: nat, p: nat)
    requires p > 0
    ensures k / (2 * p) == k / 2 / p
  {
    var h := k / 2;
    var q, r := h / p, h % p;
    assert h == q * p + r && q * (2 * p) == 2 * (q * p);
    DivUnique(k, 2 * p, q);
  }
}
