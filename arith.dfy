/** Products and quotients, proved apart from the set sums that use them.

    `Times(n, c)` is c added up n times. Stating the bounds on sums with it,
    instead of with a product `n * c`, keeps every proof about sums linear;
    the lemmas here convert to and from products and quotients. */
module Arith {

  /** c added to itself n times. */
  function Times(n: nat, c: real): real
  {
    if n == 0 then 0.0 else Times(n - 1, c) + c
  }

  lemma {:induction false} TimesIsProduct(n: nat, c: real)
    ensures Times(n, c) == n as real * c
  {
    if n > 0 {
      TimesIsProduct(n - 1, c);
    }
  }

  /** n times n - 1: the number of ordered pairs of distinct members of an
      n-element set, as the source computes it (a product of counts, then
      converted). */
  lemma TimesPairs(n: nat)
    ensures Times(n, (n - 1) as real) == (n * (n - 1)) as real
  {
    TimesIsProduct(n, (n - 1) as real);
  }

  lemma OrderedPairsPositive(d: nat)
    requires d >= 2
    ensures d * (d - 1) > 0
  {
  }

  /** A total of at most n copies of c, over n > 0, is a mean of at most c. */
  lemma MeanAtMost(t: real, n: nat, c: real)
    requires n > 0 && 0.0 <= t <= Times(n, c)
    ensures 0.0 <= t / n as real <= c
  {
    TimesIsProduct(n, c);
  }

  /** n copies of c, over n > 0, average to c. */
  lemma MeanOfTimes(n: nat, c: real)
    requires n > 0
    ensures Times(n, c) / n as real == c
  {
    TimesIsProduct(n, c);
  }

  lemma QuotientInUnit(p: real, q: real)
    requires 0.0 <= p <= q && q > 0.0
    ensures 0.0 <= p / q <= 1.0
  {
  }
}
