/** `format_number` (dashboard_methods.py): the population text shown in the
    metric call-outs, as the number it prints and its unit.

    The cut-off and the divisor are both the literal `10e6`, ten million,
    although the source's comments speak of a million; the comparison with
    the cut-off is strict. The printed text itself (Python's rendering of an
    int or a float followed by " K" or " M") is not modelled. */
module NumberFormat {
  import opened Rounding

  /** The literal `10e6`. */
  const TenMillion: int := 10_000_000

  /** What `format_number` prints, before it becomes text. */
  datatype Formatted =
    | K(count: int)        // `num // 1000`, then " K"
    | MWhole(value: int)   // `num // 10e6` when it divides exactly, then " M"
    | MTenths(tenths: int) // `round(num / 10e6, 1)`, as a count of tenths, then " M"

  /** Python's `//` on integers with a positive divisor: the quotient
      rounded towards minus infinity. */
  function FloorDiv(a: int, d: int): (q: int)
    requires d > 0
    ensures q * d <= a < q * d + d
  {
    // Dafny's `/` is Euclidean, which agrees with flooring when d > 0
    a / d
  }

  function FormatNumber(num: int): (f: Formatted)
    ensures f.K? <==> num <= TenMillion
    ensures f.K? ==> f.count * 1000 <= num < f.count * 1000 + 1000
    ensures f.MWhole? <==> num > TenMillion && num % TenMillion == 0
    ensures f.MWhole? ==> f.value * TenMillion == num
    ensures f.MTenths? ==> -1_000_000 <= 2 * (num - f.tenths * 1_000_000) <= 1_000_000
    ensures f.MTenths? ==> f.tenths >= 10
  {
    if num > TenMillion then
      if num % TenMillion == 0 then MWhole(FloorDiv(num, TenMillion))
      else MTenths(RoundHalfEven(num, 1_000_000))
    else K(FloorDiv(num, 1000))
  }

  /** The K count is the floor of a thousandth: it is the only integer with
      that property, so negative numbers round away from zero. */
  lemma KIsFloor(num: int, k: int)
    requires num <= TenMillion
    requires k * 1000 <= num < k * 1000 + 1000
    ensures FormatNumber(num) == K(k)
  {
    var c := FormatNumber(num).count;
    // both k and c lie in (num / 1000 - 1, num / 1000]
    assert (c - k) * 1000 < 1000 && (k - c) * 1000 < 1000;
  }

  /** The edge cases of the two branches, at values that show them. */
  lemma Examples()
    ensures FormatNumber(999) == K(0)
    ensures FormatNumber(1500) == K(1)
    ensures FormatNumber(-1500) == K(-2)
    ensures FormatNumber(TenMillion) == K(10_000)
    ensures FormatNumber(20_000_000) == MWhole(2)
    ensures FormatNumber(10_000_001) == MTenths(10)
    ensures FormatNumber(25_000_000) == MTenths(25)
    ensures FormatNumber(15_000_000) == MTenths(15)
  {
  }
}
