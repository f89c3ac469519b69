/** Integer behaviour of the 32-bit ARM microcontroller the display controller runs on
    (gcc, newlib): `int` and `long` are 32 bits wide, `int16_t`/`uint16_t` 16 bits. */
module Machine {

  const Int32Min: int := -0x8000_0000
  const Int32Max: int := 0x7FFF_FFFF
  const Uint32Modulus: int := 0x1_0000_0000

  /** A C `int` (or `long`) on the target. */
  type Int32 = x: int | -0x8000_0000 <= x <= 0x7FFF_FFFF

  /** A C `int16_t`, the type of the display's cursor coordinates and of its
      width and height. */
  type Int16 = x: int | -0x8000 <= x <= 0x7FFF

  /** A C `uint16_t`, the type of a text bounding box's width and height. */
  type Uint16 = x: int | 0 <= x <= 0xFFFF

  /** The conversion of an `int` to `unsigned int`: reduction modulo 2^32,
      so that -1 becomes the largest unsigned value. */
  function ToUnsigned(i: int): (u: nat)
    ensures u < Uint32Modulus
    ensures 0 <= i < Uint32Modulus ==> u == i
    ensures i == -1 ==> u == Uint32Modulus - 1
  {
    i % Uint32Modulus
  }

  /** The conversion of an `int` to `int16_t` (gcc reduces modulo 2^16). */
  function ToInt16(x: int): (r: Int16)
    ensures -0x8000 <= x <= 0x7FFF ==> r == x
    ensures (x - r) % 0x1_0000 == 0
  {
    (x + 0x8000) % 0x1_0000 - 0x8000
  }

  /** C's `a / 2` on `int`: the quotient is truncated toward zero, so the
      remainder has the sign of the dividend (Dafny's own `/` is Euclidean). */
  function CDiv2(a: int): (q: int)
    ensures 0 <= a ==> 0 <= a - 2 * q <= 1
    ensures a < 0 ==> -1 <= a - 2 * q <= 0
  {
    if a >= 0 then a / 2 else -((-a) / 2)
  }
}
