/**
 * C#'s `int`: a 32-bit two's-complement integer whose `+`, `-` and `--` wrap
 * around silently (the default unchecked context).
 */
module Int32 {
  const MIN: int := -0x8000_0000
  const MAX: int := 0x7fff_ffff
  const MODULUS: int := 0x1_0000_0000

  type int32 = x: int | MIN <= x <= MAX

  /** The value an unchecked C# `int` operation stores for the mathematical result `x`. */
  function Wrap(x: int): (r: int32)
    ensures MIN <= x <= MAX ==> r == x
    ensures (x - r) % MODULUS == 0
  {
    var m := (x - MIN) % MODULUS;
    assert x - MIN == MODULUS * ((x - MIN) / MODULUS) + m;
    m + MIN
  }
}
