/** The C `int` the program computes with: 32 bits, two's complement.
    Overflow of a signed `int` is undefined behaviour in C++, so a variable of
    type Int32 in the model is an obligation that the source never overflows. */
module CInt {

  const Int32Min: int := -0x8000_0000
  const Int32Max: int := 0x7fff_ffff

  type Int32 = x: int | Int32Min <= x <= Int32Max

  /** The mathematical absolute value. Where the walker applies std::abs, its
      loop invariant `Abs(position) <= steps` keeps `position` above Int32Min,
      so the C call is defined there. */
  function Abs(x: int): (r: int)
    ensures 0 <= r && (r == x || r == -x)
  {
    if x < 0 then -x else x
  }

  function Max(x: int, y: int): (r: int)
    ensures r >= x && r >= y && (r == x || r == y)
  {
    if x < y then y else x
  }
}
