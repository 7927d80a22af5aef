/** Small integer helpers shared by the snake and the renderer. */
module Ints {

  function Abs(n: int): nat
  {
    if n < 0 then -n else n
  }

  function Min(a: int, b: int): int
  {
    if a <= b then a else b
  }
}
