/**
 C integer arithmetic that differs from Dafny's: `/` and `%` on signed
 operands truncate toward zero, and a conversion to `unsigned int` wraps
 modulo 2^32.
 */
module CArith {

  const U32_RANGE: nat := 0x1_0000_0000

  type u32 = x: nat | x < U32_RANGE

  function Abs(a: int): nat {
    if a < 0 then -a else a
  }

  /**
   C's `a / b`: the quotient rounded toward zero.  The contract is the one
   that characterises it: the remainder is smaller than the divisor and has
   the sign of the dividend.
   */
  function TruncDiv(a: int, b: int): (q: int)
    requires b != 0
    ensures Abs(a - q * b) < Abs(b)
    ensures a >= 0 ==> a - q * b >= 0
    ensures a <= 0 ==> a - q * b <= 0
  {
    if a >= 0 then a / b else -((-a) / b)
  }

  /** C's `a % b`: what is left after `TruncDiv`. */
  function TruncMod(a: int, b: int): (r: int)
    requires b != 0
    ensures a == TruncDiv(a, b) * b + r
    ensures Abs(r) < Abs(b)
  {
    a - TruncDiv(a, b) * b
  }

  /** Conversion of an `int` result to `unsigned int`. */
  function U32(n: int): (r: u32)
    ensures (n - r) % U32_RANGE == 0
    ensures 0 <= n < U32_RANGE ==> r == n
  {
    n % U32_RANGE
  }

  /** Conversion of an `unsigned int` to `int`: values from 2^31 on read as negative. */
  function I32(x: u32): (r: int)
    ensures -0x8000_0000 <= r < 0x8000_0000
    ensures U32(r) == x
  {
    if x < 0x8000_0000 then x else x - U32_RANGE
  }
}
