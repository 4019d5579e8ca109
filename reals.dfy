/** `Math.min` and `Math.max` on two numbers. */
module Reals {
  function Min(a: real, b: real): real { if a <= b then a else b }

  function Max(a: real, b: real): real { if a >= b then a else b }
}
