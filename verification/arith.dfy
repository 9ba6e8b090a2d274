/** Facts about natural-number multiplication that the slicing and the
    row-major layout both lean on. */
module Arith {
  lemma MulSucc(c: nat, k: nat)
    ensures c * k + k == (c + 1) * k
  {
  }

  lemma MulMonotone(a: nat, b: nat, k: nat)
    requires a <= b
    ensures a * k <= b * k
  {
  }
}
