/** Repeated sums, quotients and remainders determined by each other, and decimal digits. */
module Arithmetic {
  // n added up k times; linear where n * k is not.
  function Times(n: int, k: nat): (sum: int)
    ensures n >= 0 ==> sum >= 0
  {
    if k == 0 then 0 else Times(n, k - 1) + n
  }

  lemma {:induction false} TimesIsProduct(n: int, k: nat)
    ensures Times(n, k) == n * k
  {
    if k == 0 {
    } else {
      TimesIsProduct(n, k - 1);
      assert n * k == n * (k - 1) + n;
    }
  }

  lemma {:induction false} TimesIsMonotone(n: int, j: nat, k: nat)
    requires n >= 0 && j <= k
    ensures Times(n, j) <= Times(n, k)
  {
    if j == k {
    } else {
      TimesIsMonotone(n, j, k - 1);
    }
  }

  lemma ScaleMonotone(p: int, x: int, y: int)
    requires p > 0 && x <= y
    ensures p * x <= p * y
  {
    assert p * (y - x) >= 0;
  }

  lemma ZeroFactor(p: int, x: int)
    requires p > 0 && -p < p * x < p
    ensures x == 0
  {
    if x >= 1 { ScaleMonotone(p, 1, x); }
    if x <= -1 { ScaleMonotone(p, x, -1); }
  }

  lemma DivisionIsUnique(a: int, p: int, k: int, r: int)
    requires 0 <= r < p && a == p * k + r
    ensures a / p == k && a % p == r
  {
    var q := a / p;
    assert a == p * q + a % p;
    assert p * (k - q) == p * k - p * q;
    ZeroFactor(p, k - q);
  }

  lemma QuotientStep(a: int, p: int)
    requires p > 0
    ensures a / p == (a - 1) / p + if a % p == 0 then 1 else 0
  {
    var k := a / p;
    assert a == p * k + a % p;
    if a % p == 0 {
      assert p * (k - 1) == p * k - p;
      DivisionIsUnique(a - 1, p, k - 1, p - 1);
    } else {
      DivisionIsUnique(a - 1, p, k, a % p - 1);
    }
  }

  lemma SameRemainder(a: int, p: int, r: int)
    requires 0 <= r < p
    ensures a % p == r <==> (a - r) % p == 0
  {
    if a % p == r {
      assert a == p * (a / p) + r;
      DivisionIsUnique(a - r, p, a / p, 0);
    } else if (a - r) % p == 0 {
      assert a - r == p * ((a - r) / p);
      DivisionIsUnique(a, p, (a - r) / p, r);
    }
  }

  lemma QuotientShift(a: int, k: int, p: int)
    requires p > 0
    ensures (a + k * p) / p == a / p + k
  {
    assert a == p * (a / p) + a % p;
    assert p * (a / p + k) == p * (a / p) + k * p;
    DivisionIsUnique(a + k * p, p, a / p + k, a % p);
  }

  // ---------------------------------------------------------------- decimal digits

  function Digit(n: int): char
    requires 0 <= n < 10
  {
    n as char + '0'
  }

  predicate AllDigits(s: string) { forall i :: 0 <= i < |s| ==> '0' <= s[i] <= '9' }

  // The number a text of digits stands for.
  function ParseDigits(s: string): nat {
    if s == "" then 0
    else
      var last := s[|s| - 1];
      10 * ParseDigits(s[..|s| - 1]) + if '0' <= last <= '9' then (last - '0') as nat else 0
  }

  lemma AppendDigit(s: string, n: int)
    requires AllDigits(s) && 0 <= n < 10
    ensures ParseDigits(s + [Digit(n)]) == 10 * ParseDigits(s) + n && AllDigits(s + [Digit(n)])
  {
    var longer := s + [Digit(n)];
    assert longer[..|longer| - 1] == s;
  }
}
