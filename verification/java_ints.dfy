/** Java's 32-bit `int` as it shows up in the connected-component geometry:
    the saturating narrowing cast `(int) d` of a `double` that holds an integer,
    and the wrap-around of `int` multiplication. Coordinates themselves are
    unbounded integers in the model; these functions are applied exactly where
    the Java code narrows or multiplies. */
module JavaInts {

  const INT_MIN: int := -0x8000_0000
  const INT_MAX: int := 0x7FFF_FFFF
  /** Number of distinct 32-bit values. */
  const MODULUS: int := 0x1_0000_0000

  predicate IsInt(v: int) {
    INT_MIN <= v <= INT_MAX
  }

  /** `(int) d` for a `double` d holding the integer v: Java rounds toward zero,
      which is the identity here, and clamps values outside the int range to
      the nearest bound. */
  function ToInt(v: int): (r: int)
    ensures IsInt(r)
    ensures IsInt(v) ==> r == v
  {
    if v > INT_MAX then INT_MAX else if v < INT_MIN then INT_MIN else v
  }

  function Distance(a: int, b: int): nat {
    if a <= b then b - a else a - b
  }

  /** Saturation picks the int nearest to the value. */
  lemma ToIntIsNearest(v: int, k: int)
    requires IsInt(k)
    ensures Distance(ToInt(v), v) <= Distance(k, v)
  {}

  /** The narrowing cast never reverses an order: a larger double never becomes a smaller int. */
  lemma ToIntMonotone(a: int, b: int)
    requires a <= b
    ensures ToInt(a) <= ToInt(b)
  {}

  /** The 32-bit two's-complement value of v: what an `int` expression such as
      `a * b` evaluates to in Java when the exact result is v. */
  function Wrap(v: int): (r: int)
    ensures IsInt(r)
    ensures (r - v) % MODULUS == 0
    ensures IsInt(v) ==> r == v
  {
    (v - INT_MIN) % MODULUS + INT_MIN
  }
}
