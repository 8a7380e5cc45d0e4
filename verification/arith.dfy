/** Facts about multiplication and truncating division of natural numbers
    that the tiling proofs rely on. */
module Arith {

  /** Multiplication by a natural number is monotonic. */
  lemma {:induction false} MulLeMono(a: nat, b: nat, c: nat)
    requires a <= b
    ensures a * c <= b * c
  {
    if a < b {
      MulLeMono(a, b - 1, c);
      assert (b - 1) * c + c == b * c;
    }
  }

  /** A strictly smaller factor gives a product at least `c` smaller. */
  lemma MulLtStep(a: nat, b: nat, c: nat)
    requires a < b
    ensures a * c + c <= b * c
  {
    MulLeMono(a + 1, b, c);
    assert (a + 1) * c == a * c + c;
  }

  /** Span `i` of `d` spans of width `q` ends within `n` when `d` spans fit in `n`. */
  lemma SpanInside(i: nat, d: nat, q: nat, n: nat)
    requires i < d && q * d <= n
    ensures 0 <= i * q && i * q + q <= n
  {
    MulLtStep(i, d, q);
  }

  /** A point before the end of `d` spans of width `q` lies in one of them. */
  lemma SpanCovers(p: nat, d: nat, q: nat)
    requires p < d * q
    ensures q > 0 && p / q < d
  {
    DivBounds(p, q);
    if p / q >= d {
      MulLeMono(d, p / q, q);
    }
  }

  /** A point before the end of `d` spans of width `q` lies in span `i`,
      for some `i < d` (namely `p / q`). */
  lemma SpanIndex(p: nat, d: nat, q: nat) returns (i: nat)
    requires p < d * q
    ensures i < d && i * q <= p < i * q + q
  {
    SpanCovers(p, d, q);
    DivBounds(p, q);
    i := p / q;
  }

  /** Truncating division by `d` leaves a remainder below `d`. */
  lemma DivBounds(n: nat, d: nat)
    requires d > 0
    ensures (n / d) * d <= n < (n / d) * d + d
  {
    assert n == (n / d) * d + n % d;
  }

  /** A number is its quotient times the divisor plus its remainder. */
  lemma Recompose(n: nat, d: nat, q: nat, r: nat)
    requires d > 0 && n / d == q && n % d == r
    ensures n == q * d + r
  {
  }

  /** The quotient `n / d` is the only `q` with `q * d <= n < q * d + d`. */
  lemma DivUnique(n: nat, d: nat, q: nat)
    requires d > 0
    requires q * d <= n < q * d + d
    ensures n / d == q
  {
    DivBounds(n, d);
    var p := n / d;
    if p < q {
      MulLtStep(p, q, d);
    } else if q < p {
      MulLtStep(q, p, d);
    }
  }
}
