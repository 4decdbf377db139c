/** Facts about multiplication of naturals shared by the index and size computations. */
module Arithmetic {

  lemma MulMonotone(x: nat, y: nat, z: nat)
    requires x <= y
    ensures x * z <= y * z
  {
  }
}
