/** Python's built-in `round` applied to an exact quotient `a / n`.

    Python rounds to the nearest integer and breaks ties towards the even
    neighbour ("banker's rounding"). Here the quotient is an exact rational;
    the binary floating-point value Python actually rounds is not modelled. */
module Rounding {

  /** `round(a / n)` for a positive divisor `n`: the integer nearest to
      `a / n`, the even one of the two on a tie. */
  function RoundHalfEven(a: int, n: int): (q: int)
    requires n > 0
    ensures -n <= 2 * (a - q * n) <= n
    ensures 2 * (a - q * n) == n ==> q % 2 == 0
    ensures 2 * (a - q * n) == -n ==> q % 2 == 0
  {
    var d, r := a / n, a % n;
    assert a == d * n + r && 0 <= r < n;
    assert (d + 1) * n == d * n + n;
    if 2 * r < n then d
    else if 2 * r > n then d + 1
    else if d % 2 == 0 then d
    else d + 1
  }

  /** The two properties of the contract above fix the result: no other
      integer is nearest with ties to even. */
  lemma RoundHalfEvenUnique(a: int, n: int, q: int)
    requires n > 0
    requires -n <= 2 * (a - q * n) <= n
    requires 2 * (a - q * n) == n ==> q % 2 == 0
    requires 2 * (a - q * n) == -n ==> q % 2 == 0
    ensures q == RoundHalfEven(a, n)
  {
    var p := RoundHalfEven(a, n);
    SubtractProducts(q, p, n);
    ProductSteps(q - p, n);
    // q and p are (q - p) * n apart in units of 1 / n: two or more steps is
    // too far from a / n for both; one step puts both on the same tie,
    // where only one neighbour is even
  }

  lemma SubtractProducts(q: int, p: int, n: int)
    ensures q * n - p * n == (q - p) * n
  {
  }

  /** How far `e * n` is from zero, by steps of `n`. */
  lemma ProductSteps(e: int, n: int)
    requires n > 0
    ensures e >= 2 ==> e * n >= 2 * n
    ensures e <= -2 ==> e * n <= -2 * n
    ensures e == 1 ==> e * n == n
    ensures e == -1 ==> e * n == -n
  {
    if e >= 2 {
      assert e * n == (e - 2) * n + 2 * n;
      assert (e - 2) * n >= 0;
    } else if e <= -2 {
      assert e * n == (e + 2) * n - 2 * n;
      assert (-e - 2) * n >= 0;
    }
  }
}
