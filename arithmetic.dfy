/** Facts about multiplication, division and remainder on naturals used by
    the row-major index arithmetic of images. */
module Arithmetic {
  lemma MulMonotone(a: nat, b: nat, c: nat)
    requires a <= b
    ensures a * c <= b * c
  {
  }

  lemma DivModUnique(k: nat, d: nat, q: nat, m: nat)
    requires d > 0 && m < d && k == q * d + m
    ensures k / d == q && k % d == m
  {
    var q', m' := k / d, k % d;
    assert q' * d + m' == k;
    MulStep(q', q, d);
    MulStep(q, q', d);
  }

  /** For a positive `d`, multiples of `d` are at least `d` apart. */
  lemma MulStep(a: int, b: int, d: int)
    requires d > 0
    ensures a < b ==> a * d + d <= b * d
  {
    if a < b {
      MulMonotone(1, b - a, d);
      assert b * d - a * d == (b - a) * d;
    }
  }
}
