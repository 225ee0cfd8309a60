/** The few nonlinear facts the models need. */
module Arith {
  lemma MulMono(a: nat, b: nat, d: nat)
    requires a <= b
    ensures a * d <= b * d
  {
    assert b * d == a * d + (b - a) * d;
  }

  lemma MultipleAtLeast(x: int, d: nat)
    ensures x >= 1 ==> x * d >= d
    ensures x <= -1 ==> x * d + d <= 0
  {
    if x >= 1 {
      MulMono(1, x, d);
    } else if x <= -1 {
      MulMono(1, -x, d);
    }
  }

  lemma QuotientUnique(d: nat, a: nat, r: nat, q: nat)
    requires 0 < d && r < d && q == a * d + r
    ensures q / d == a && q % d == r
  {
    assert (q / d - a) * d == r - q % d by {
      assert (q / d - a) * d == (q / d) * d - a * d;
    }
    MultipleAtLeast(q / d - a, d);
  }

  lemma QuotientBound(d: nat, n: nat, q: nat)
    requires 0 < d && q < n * d
    ensures q / d < n
  {
    MultipleAtLeast(n - q / d - 1, d);
    assert (n - q / d - 1) * d == n * d - q / d * d - d;
  }

  lemma QuotientIsNat(q: nat, d: nat)
    requires 0 < d
    ensures q / d >= 0
  {
  }
}
