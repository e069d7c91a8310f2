/** The larger and the smaller of two numbers. */
module Bounds {
  function Max(a: nat, b: nat): nat {
    if a < b then b else a
  }

  function Min(a: nat, b: nat): nat {
    if b < a then b else a
  }
}
