/** Java's 32-bit int: the range, overflow, and division that truncates toward zero. */
module JavaInt {

  const MAX_VALUE := 0x7fff_ffff

  type Int32 = x: int | -0x8000_0000 <= x <= 0x7fff_ffff

  /** The value of an int expression after overflow. */
  function Wrap(x: int): (w: Int32)
    ensures -0x8000_0000 <= x <= 0x7fff_ffff ==> w == x
  {
    (x + 0x8000_0000) % 0x1_0000_0000 - 0x8000_0000
  }

  /** Overflow drops a multiple of 2^32. */
  lemma WrapDropsMultiple(x: int) returns (k: int)
    ensures x == Wrap(x) + k * 0x1_0000_0000
  {
    k := (x + 0x8000_0000) / 0x1_0000_0000;
  }

  function Divide(x: int, d: int): int
    requires d > 0
  {
    if x >= 0 then x / d else -((-x) / d)
  }

  /** Quotient and remainder recompose x, and the remainder takes the sign of x. */
  lemma DivideTruncates(x: int, d: int) returns (r: int)
    requires d > 0
    ensures x == Divide(x, d) * d + r && -d < r < d
    ensures (x >= 0 ==> r >= 0) && (x <= 0 ==> r <= 0)
  {
    r := if x >= 0 then x % d else -((-x) % d);
  }

  function Max(x: int, y: int): int {
    if x >= y then x else y
  }

  function Min(x: int, y: int): int {
    if x <= y then x else y
  }
}
