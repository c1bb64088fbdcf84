/** Facts about multiplication that the solver should not have to find. */
module Arithmetic {
  lemma MulMonotone(a: int, b: int, k: nat)
    requires a <= b
    ensures a * k <= b * k
  {
  }

  lemma MulAssociative(a: int, b: int, c: int)
    ensures (a * b) * c == a * (b * c) && (a * c) * b == a * (b * c)
  {
  }

  lemma MulCancels(a: int, b: int, k: nat)
    requires k > 0
    ensures a * k <= b * k ==> a <= b
    ensures a * k == b * k ==> a == b
  {
    if a < b {
      MulMonotone(a + 1, b, k);
    } else if b < a {
      MulMonotone(b + 1, a, k);
    }
  }
}
