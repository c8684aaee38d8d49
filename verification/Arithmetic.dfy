/** Integers as the source language computes with them, and what is needed to reason about them. */
module Arithmetic {
  const INT64_LIMIT: int := 0x8000_0000_0000_0000

  /** Integer division of the source language: it truncates toward zero. */
  function TruncDiv(a: int, b: int): int
    requires 0 < b
  {
    if a >= 0 then a / b else -((-a) / b)
  }

  function Min(a: int, b: int): int {
    if a <= b then a else b
  }

  function Max(a: int, b: int): int {
    if a >= b then a else b
  }

  lemma MulMonotone(a: int, b: int, q: int)
    requires a <= b && 0 <= q
    ensures a * q <= b * q
  {
  }

  lemma DivBounds(a: int, b: int)
    requires 0 <= a && 0 < b
    ensures a / b * b <= a < (a / b + 1) * b
    ensures 0 <= a / b
  {
    assert a == b * (a / b) + a % b;
  }

  lemma DivUnique(a: int, b: int, d: int)
    requires 0 <= a && 0 < b && d * b <= a < (d + 1) * b
    ensures a / b == d
  {
    DivBounds(a, b);
    var e := a / b;
    if d < e { MulMonotone(d + 1, e, b); }
    if e < d { MulMonotone(e + 1, d, b); }
  }

  lemma DivMonotone(a: int, b: int, d: int)
    requires 0 <= a <= b && 0 < d
    ensures a / d <= b / d
  {
    DivBounds(a, d);
    DivBounds(b, d);
    if b / d < a / d { MulMonotone(b / d + 1, a / d, d); }
  }
}
