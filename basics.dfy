/** Small shared vocabulary: optional values, results with an error, and
    integer powers used by the bit-level parts of the model. */
module Basics {

  datatype Option<+T> = None | Some(value: T)

  /** The value of a call that either returns normally or raises. */
  datatype Result<+T, +E> = Ok(value: T) | Err(error: E)

  /** The value of a call that returns nothing useful or raises. */
  datatype Outcome<+E> = Pass | Fail(error: E)

  /** base raised to the power e. */
  function Pow(base: nat, e: nat): (r: nat)
    ensures base > 0 ==> r > 0
  {
    if e == 0 then 1 else base * Pow(base, e - 1)
  }

  /** Peeling one copy of c off the product k * c. */
  lemma MulStep(k: nat, c: nat)
    requires k > 0
    ensures k * c == c + (k - 1) * c
  {
  }
}
