/** Facts of arithmetic and of sets that several proofs need. */
module Arithmetic {

  lemma {:induction false} Times(a: int, b: int, m: nat)
    requires a <= b
    ensures a * m <= b * m
  {}

  lemma {:induction false} TimesLeft(a: int, b: int, m: nat)
    requires a <= b
    ensures m * a <= m * b
  {}

  /** Quotient and remainder are the only ones of their kind. */
  lemma {:induction false} DivUnique(x: int, m: nat, q: int, r: nat)
    requires m > 0 && x == q * m + r && r < m
    ensures x / m == q && x % m == r
  {
    var d, s := x / m, x % m;
    assert x == d * m + s;
    if d > q {
      Times(q + 1, d, m);
    } else if d < q {
      Times(d + 1, q, m);
    }
  }

  lemma {:induction false} SubsetSize<T>(a: set<T>, b: set<T>)
    requires a <= b
    ensures |a| <= |b|
  {
    assert b == a + (b - a);
  }
}
