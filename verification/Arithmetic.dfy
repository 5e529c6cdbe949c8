/** Products and powers. */
module Arithmetic {
  function Power(b: nat, e: nat): nat {
    if e == 0 then 1 else b * Power(b, e - 1)
  }

  lemma Scales(a: nat, b: nat, x: nat)
    requires a <= b
    ensures a * x <= b * x
  {
  }
}
