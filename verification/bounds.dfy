/**
 Integer helpers of the search core: the `max`/`min` clamps used to keep a
 snippet window inside the corpus, and half-open integer intervals.
 */
module Bounds {

  /** The larger of two integers; ties go to the second argument. */
  function Max(a: int, b: int): (r: int)
    ensures r >= a && r >= b
    ensures r == a || r == b
  {
    if a > b then a else b
  }

  /** The smaller of two integers; ties go to the second argument. */
  function Min(a: int, b: int): (r: int)
    ensures r <= a && r <= b
    ensures r == a || r == b
  {
    if a < b then a else b
  }

  /** The half-open interval [start, end) of integers. */
  datatype Span = Span(start: int, end: int) {

    predicate Contains(k: int) {
      start <= k < end
    }

    /** Whether the interval can be used to slice a sequence of length `n`. */
    predicate Within(n: int) {
      0 <= start <= end <= n
    }

    function Len(): int {
      end - start
    }
  }

  /** One more factor adds the multiplier once. */
  lemma MulSucc(a: int, c: int)
    ensures (a + 1) * c == a * c + c
  {
  }

  /** Multiplication by a non-negative factor is monotone. */
  lemma MulMonotone(a: int, b: int, c: int)
    requires a <= b && 0 <= c
    ensures a * c <= b * c
  {
    assert b * c - a * c == (b - a) * c;
  }

  /** The quotient of a floor division is the last multiple of the divisor not above the dividend. */
  lemma DivBounds(n: int, c: int)
    requires 0 <= n && 0 < c
    ensures 0 <= n / c
    ensures (n / c) * c <= n < (n / c + 1) * c
  {
    var q, r := n / c, n % c;
    assert q * c + r == n && 0 <= r < c;
    MulSucc(q, c);
    if q < 0 {
      MulMonotone(q, -1, c);
    }
  }
}
