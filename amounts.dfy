/** Day amounts as exact fixed-point numbers, and the `toFixed` rounding the
    calculator applies to them. */
module Amounts {

  /** Amounts are counted in ten-thousandths of a day, the finest precision
      (`toFixed(4)`) the calculator rounds to. */
  const Scale: int := 10000

  function Abs(x: int): nat {
    if x < 0 then -x else x
  }

  function Max(a: int, b: int): int {
    if a < b then b else a
  }

  /** `n / d` rounded to the nearest integer, halves away from zero: what
      `toFixed` does to an exact quotient. */
  function RoundDiv(n: int, d: int): (q: int)
    requires d > 0
    ensures 2 * Abs(n - q * d) <= d
    ensures n >= 0 ==> q >= 0
    ensures n <= 0 ==> q <= 0
  {
    if n >= 0 then RoundUpHalf(n, d) else -RoundUpHalf(-n, d)
  }

  /** Nearest integer to `n / d` for `n >= 0`, halves rounded up. */
  function RoundUpHalf(n: int, d: int): (q: int)
    requires n >= 0 && d > 0
    ensures q >= 0 && 2 * Abs(n - q * d) <= d
  {
    var q := (2 * n + d) / (2 * d);
    var r := (2 * n + d) % (2 * d);
    assert 2 * n + d == q * (2 * d) + r && 0 <= r < 2 * d;
    assert 2 * (n - q * d) == r - d;
    q
  }

  /** `Number(x.toFixed(2))` for an amount `x`: the nearest multiple of a
      hundredth of a day. */
  function ToHundredths(x: int): (r: int)
    ensures r % 100 == 0
    ensures 2 * Abs(x - r) <= 100
    ensures x >= 0 ==> r >= 0
  {
    var q := RoundDiv(x, 100);
    WholeHundredths(q);
    100 * q
  }

  /** A multiple of 100 of a whole number is a whole number of hundredths. */
  lemma WholeHundredths(q: int)
    ensures (100 * q) % 100 == 0
  {
  }
}
