/** Integer division as the source language performs it, and a few facts about Euclidean division. */
module Arithmetic {

  /** Division truncating toward zero, the `/` of the source on signed integers. */
  function TruncDiv(a: int, b: int): int
    requires b > 0
  {
    if a >= 0 then a / b else -((-a) / b)
  }

  /** The remainder that belongs to `TruncDiv`: it takes the sign of the dividend. */
  function TruncMod(a: int, b: int): int
    requires b > 0
  {
    a - b * TruncDiv(a, b)
  }

  /** A 64-bit integer cast to an unsigned one of 32 bits. */
  function WrapU32(x: int): nat {
    x % 0x1_0000_0000
  }

  /** Subtraction that stops at zero. */
  function SaturatingSub(a: nat, b: nat): nat {
    if a >= b then a - b else 0
  }

  function Min(a: int, b: int): int {
    if a <= b then a else b
  }

  function Max(a: int, b: int): int {
    if a <= b then b else a
  }

  /** A quotient and a remainder in range are the Euclidean ones. */
  lemma DivModUnique(a: int, b: int, q: int, r: int)
    requires b > 0
    requires a == b * q + r && 0 <= r < b
    ensures a / b == q && a % b == r
  {
    var q', r' := a / b, a % b;
    assert a == b * q' + r' && 0 <= r' < b;
    assert b * (q - q') == r' - r;
    if q < q' {
      MulLe(b, q - q', -1);
    } else if q > q' {
      MulLe(b, 1, q - q');
    }
  }

  lemma MulLe(b: int, x: int, y: int)
    requires b >= 0 && x <= y
    ensures b * x <= b * y
  {
  }
}
