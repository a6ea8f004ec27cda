/** The few facts about products, quotients and remainders of variables that the other
    modules share. */
module Arith {

  const M32: int := 0x1_0000_0000

  lemma NonNegative(x: nat, y: nat)
    ensures x * y >= 0
  {
  }

  lemma MulMono(x: int, y: int, z: nat)
    requires x <= y
    ensures x * z <= y * z
  {
    NonNegative(y - x, z);
    assert (y - x) * z == y * z - x * z;
  }

  lemma DivMod(x: int, b: int)
    requires b > 0
    ensures x == (x / b) * b + x % b && 0 <= x % b < b
  {
  }

  /** A quotient and remainder that fit are the quotient and remainder. */
  lemma DivModIs(x: int, b: int, q: int, r: int)
    requires b > 0 && 0 <= r < b && x == q * b + r
    ensures x / b == q && x % b == r
  {
    var q', r' := x / b, x % b;
    DivMod(x, b);
    assert (q - q') * b == q * b - q' * b == r' - r;
    if q > q' { MulMono(1, q - q', b); }
    if q < q' { MulMono(q - q', -1, b); }
  }

  lemma DivShift(x: int, b: int, k: int)
    requires b > 0
    ensures (x + k * b) / b == x / b + k && (x + k * b) % b == x % b
  {
    var q, r := x / b, x % b;
    DivMod(x, b);
    assert x + k * b == (q + k) * b + r;
    DivModIs(x + k * b, b, q + k, r);
  }
}
