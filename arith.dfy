/** Integer facts shared by the board and the percolation grid. */
module Arithmetic {

  function Abs(x: int): nat { if x < 0 then -x else x }

  lemma MulMonotone(a: int, b: int, n: int)
    requires n >= 0 && a <= b
    ensures a * n <= b * n
  {
    assert b * n - a * n == (b - a) * n;
  }

  /** Quotient and remainder are determined by `a == q * n + r` with `0 <= r < n`. */
  lemma DivUnique(a: int, n: int, q: int, r: int)
    requires n > 0 && 0 <= r < n && a == q * n + r
    ensures a / n == q && a % n == r
  {
    var q' := a / n;
    if q' > q {
      MulMonotone(1, q' - q, n);
    } else if q' < q {
      MulMonotone(1, q - q', n);
    }
  }
}
