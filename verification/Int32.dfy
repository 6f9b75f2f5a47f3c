/** C#'s `int`: a 32-bit two's-complement integer whose arithmetic wraps around
    in the default unchecked context. */
module Int32 {

  const Min: int := -0x8000_0000
  const Max: int := 0x7FFF_FFFF

  predicate IsInt32(x: int) {
    Min <= x <= Max
  }

  /** The `int` that an unchecked C# operation yields when the exact result is `x`:
      `x` reduced modulo 2^32 into the range [Min, Max]. */
  function Wrap(x: int): (r: int)
    ensures IsInt32(r)
    ensures (r - x) % 0x1_0000_0000 == 0
    ensures IsInt32(x) ==> r == x
  {
    var m := x % 0x1_0000_0000;
    if m <= Max then m else m - 0x1_0000_0000
  }

  /** `Math.Max` on two `int`s. */
  function MaxOf(a: int, b: int): (r: int)
    ensures r >= a && r >= b && (r == a || r == b)
  {
    if a >= b then a else b
  }
}
