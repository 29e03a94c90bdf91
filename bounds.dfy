/** The integer bounds of `Take(count)` and `slice(0, n)`. */
module Bounds {

  function Min(a: int, b: int): int
  {
    if a <= b then a else b
  }

  function Max(a: int, b: int): int
  {
    if a <= b then b else a
  }
}
