/** Multiplication and division by a positive number, and C's conversions. */
module Arith {

  lemma MulMono(a: int, b: int, c: nat)
    requires a <= b
    ensures a * c <= b * c
  {
    assert (b - a) * c >= 0;
    assert (b - a) * c == b * c - a * c;
  }

  lemma DivModUnique(a: int, b: nat, q: int, r: int)
    requires b >= 1 && a == q * b + r && 0 <= r < b
    ensures a / b == q && a % b == r
  {
    var q1 := a / b;
    assert (q1 + 1) * b == q1 * b + b && (q + 1) * b == q * b + b;
    if q1 < q {
      MulMono(q1 + 1, q, b);
      assert false;
    }
    if q1 > q {
      MulMono(q + 1, q1, b);
      assert false;
    }
  }

  const INT_LIMIT := 0x8000_0000
  const WORD_LIMIT := 0x1_0000_0000_0000_0000

  /** C's cast of an integer to int. */
  function AsInt(x: int): (r: int)
    ensures -INT_LIMIT <= r < INT_LIMIT
    ensures 0 <= x < INT_LIMIT ==> r == x
  {
    var w := x % 0x1_0000_0000;
    if w < INT_LIMIT then w else w - 0x1_0000_0000
  }

  /** C's conversion of an integer to a 64-bit unsigned one. */
  function AsWord(x: int): (r: nat)
    ensures r < WORD_LIMIT
    ensures 0 <= x < WORD_LIMIT ==> r == x
  {
    x % WORD_LIMIT
  }
}
