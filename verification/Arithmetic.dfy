/**
 Multiplication and division by a variable, as repeated addition and subtraction, so that
 specifications stay within linear arithmetic. TimesIsProduct and QuotientIsDivision tie
 them to the operators the code uses.
 */
module Arithmetic {

  /** n * size. */
  function Times(n: nat, size: nat): nat {
    if n == 0 then 0 else Times(n - 1, size) + size
  }

  /** x / d. */
  function Quotient(x: nat, d: nat): nat
    requires 0 < d
  {
    if x < d then 0 else Quotient(x - d, d) + 1
  }

  predicate Divides(d: nat, x: nat)
    requires 0 < d
  {
    x == Times(Quotient(x, d), d)
  }

  lemma {:induction false} TimesIsProduct(n: nat, size: nat)
    ensures Times(n, size) == n * size
  {
    if n > 0 {
      TimesIsProduct(n - 1, size);
      assert (n - 1) * size + size == n * size;
    }
  }

  lemma SmallTimes(size: nat)
    ensures Times(0, size) == 0 && Times(1, size) == size && Times(2, size) == size + size
  {
    assert Times(1, size) == Times(0, size) + size;
  }

  lemma {:induction false} TimesMonotone(m: nat, n: nat, size: nat)
    ensures m <= n ==> Times(m, size) <= Times(n, size)
    ensures m < n ==> Times(m, size) + size <= Times(n, size)
    decreases n
  {
    if m < n {
      TimesMonotone(m, n - 1, size);
    }
  }

  lemma {:induction false} QuotientBounds(x: nat, d: nat)
    requires 0 < d
    ensures Times(Quotient(x, d), d) <= x < Times(Quotient(x, d), d) + d
  {
    if x >= d {
      QuotientBounds(x - d, d);
    }
  }

  lemma QuotientUnique(x: nat, d: nat, q: nat)
    requires Times(q, d) <= x < Times(q, d) + d
    ensures Quotient(x, d) == q
  {
    QuotientBounds(x, d);
    TimesMonotone(Quotient(x, d), q, d);
    TimesMonotone(q, Quotient(x, d), d);
  }

  lemma QuotientIsDivision(x: nat, d: nat)
    requires 0 < d
    ensures Quotient(x, d) == x / d
    ensures Divides(d, x) <==> x % d == 0
  {
    var q := x / d;
    TimesIsProduct(q, d);
    assert 0 <= q && x == q * d + x % d;
    QuotientUnique(x, d, q);
  }

  lemma {:induction false} TimesPlusOne(n: nat, size: nat)
    ensures Times(n, size + 1) == Times(n, size) + n
  {
    if n > 0 {
      TimesPlusOne(n - 1, size);
    }
  }

  lemma QuotientMonotone(x: nat, y: nat, d: nat)
    requires 0 < d && x <= y
    ensures Quotient(x, d) <= Quotient(y, d)
  {
    QuotientBounds(x, d);
    QuotientBounds(y, d);
    TimesMonotone(Quotient(y, d), Quotient(x, d), d);
  }

  lemma {:induction false} TimesLarger(n: nat, d: nat, e: nat)
    requires d <= e
    ensures Times(n, d) <= Times(n, e)
  {
    if n > 0 {
      TimesLarger(n - 1, d, e);
    }
  }

  // A smaller divisor never gives a smaller quotient.
  lemma QuotientAntitone(x: nat, d: nat, e: nat)
    requires 0 < d <= e
    ensures Quotient(x, e) <= Quotient(x, d)
  {
    QuotientBounds(x, d);
    QuotientBounds(x, e);
    TimesLarger(Quotient(x, e), d, e);
    TimesMonotone(Quotient(x, d), Quotient(x, e), d);
  }
}
