/** The search for a prime table size. */
module Primes {

  ghost predicate IsPrime(p: nat)
  {
    p >= 2 && forall d | 2 <= d < p :: p % d != 0
  }

  // ----- division -----

  lemma {:induction false} MulLower(k: int, d: nat)
    requires k >= 1
    ensures k * d >= d
  {
    if k > 1 {
      MulLower(k - 1, d);
      assert k * d == (k - 1) * d + d;
    }
  }

  lemma DivMod(a: int, d: nat)
    requires d > 0
    ensures a == (a / d) * d + a % d && 0 <= a % d < d
  {
  }

  lemma SameQuotient(d: nat, q: int, r: int, q': int, r': int)
    requires d > 0 && q * d + r == q' * d + r' && 0 <= r < d && 0 <= r' < d
    ensures q == q' && r == r'
  {
    assert (q - q') * d == r' - r && (q' - q) * d == r - r';
    if q > q' { MulLower(q - q', d); }
    if q < q' { MulLower(q' - q, d); }
  }

  /** Quotient and remainder are unique. */
  lemma ModUnique(a: int, d: nat, q: int, r: int)
    requires d > 0 && a == q * d + r && 0 <= r < d
    ensures a / d == q && a % d == r
  {
    DivMod(a, d);
    SameQuotient(d, q, r, a / d, a % d);
  }

  lemma Multiple(n: int, q: int, d: nat)
    requires d > 0 && n == q * d
    ensures n % d == 0
  {
    ModUnique(n, d, q, 0);
  }

  /** A divisor of a divisor divides. */
  lemma DividesThrough(n: nat, b: nat, a: nat)
    requires a > 0 && b > 0 && n % b == 0 && b % a == 0
    ensures n % a == 0
  {
    DivMod(n, b);
    DivMod(b, a);
    var x, y := n / b, b / a;
    assert n == (x * y) * a;
    Multiple(n, x * y, a);
  }

  // ----- there is always another prime -----

  ghost function Factorial(n: nat): (f: nat)
    ensures f >= 1
  {
    if n == 0 then 1 else
      MulLower(n, Factorial(n - 1));
      n * Factorial(n - 1)
  }

  lemma {:induction false} FactorDivides(n: nat, d: nat)
    requires 1 <= d <= n
    ensures Factorial(n) % d == 0
  {
    var f := Factorial(n - 1);
    if d == n {
      Multiple(n * f, f, n);
    } else {
      FactorDivides(n - 1, d);
      DivMod(f, d);
      assert n * f == (n * (f / d)) * d;
      Multiple(n * f, n * (f / d), d);
    }
  }

  /** The least divisor above 1 is prime. */
  lemma LeastDivisor(n: nat) returns (q: nat)
    requires n >= 2
    ensures IsPrime(q) && n % q == 0 && q <= n
    ensures forall d | 2 <= d < q :: n % d != 0
  {
    q := 2;
    DivMod(n, n);
    Multiple(n, 1, n);
    while n % q != 0
      invariant 2 <= q <= n && forall d | 2 <= d < q :: n % d != 0
      decreases n - q
    {
      q := q + 1;
    }
    forall d | 2 <= d < q ensures q % d != 0 {
      if q % d == 0 { DividesThrough(n, q, d); }
    }
  }

  /** Beyond every number there is a prime. */
  lemma PrimeAbove(n: nat) returns (q: nat)
    ensures q > n && IsPrime(q)
  {
    var f := Factorial(n);
    q := LeastDivisor(f + 1);
    if q <= n {
      FactorDivides(n, q);
      DivMod(f, q);
      DivMod(f + 1, q);
      SameQuotient(q, f / q, 1, (f + 1) / q, 0);
    }
  }

  // ----- the search -----

  lemma {:induction false} SquareGrows(a: nat, b: nat)
    requires a < b
    ensures a * a < b * b
  {
    if a + 1 < b { SquareGrows(a, b - 1); }
    assert b * b == (b - 1) * (b - 1) + 2 * b - 1;
  }

  /** Integer part of the square root. */
  function Root(p: nat): (r: nat)
    ensures r * r <= p < (r + 1) * (r + 1)
  {
    if p == 0 then 0 else
      var r := Root(p - 1);
      if (r + 1) * (r + 1) <= p then
        SquareGrows(r + 1, r + 2);
        r + 1
      else r
  }

  lemma MulTwo(r: nat, p: nat)
    requires r + 1 >= p >= 4
    ensures r * r > p
  {
    MulLower(r - 2, r);
    assert r * r == (r - 2) * r + 2 * r;
  }

  lemma RootSmall(p: nat)
    requires p >= 3
    ensures Root(p) + 1 < p
  {
    var r := Root(p);
    if p == 3 && r >= 2 { SquareGrows(1, r); }
    if r + 1 >= p { MulLower(r, r); MulTwo(r, p); }
  }

  lemma SquareBelow(a: nat, q: nat)
    requires a >= q
    ensures a * q >= q * q
  {
    if a > q {
      MulLower(a - q, q);
      assert a * q == (a - q) * q + q * q;
    }
  }

  ghost predicate NoOddDivisor(p: nat, limit: nat)
  {
    forall d | 3 <= d <= limit && d % 2 == 1 :: p % d != 0
  }

  /** A number with no odd divisor up to its root, nor 2, is prime. */
  lemma TrialDivision(p: nat, limit: nat)
    requires p % 2 == 1 && p >= 3 && limit * limit >= p
    requires NoOddDivisor(p, limit)
    ensures IsPrime(p)
  {
    var q := LeastDivisor(p);
    if q < p {
      DivMod(p, q);
      var a := p / q;
      assert q % 2 == 1 by { if q % 2 == 0 { DividesThrough(p, q, 2); } }
      assert q > limit;
      if a < q {
        assert a >= 2 by { if a == 1 {} if a == 0 {} }
        Multiple(p, q, a);
      } else {
        SquareGrows(limit, q);
        SquareBelow(a, q);
      }
    }
  }

  /** No prime lies strictly between. */
  ghost predicate NonePrime(a: nat, b: nat)
  {
    forall q | a < q < b :: !IsPrime(q)
  }

  lemma Divisible(p: nat, d: nat)
    requires 2 <= d < p && p % d == 0
    ensures !IsPrime(p)
  {
  }

  lemma RootOne(p: nat)
    requires 1 <= p <= 3
    ensures Root(p) == 1
  {
    var r := Root(p);
    if r >= 2 {
      MulLower(r, r);
      MulLower(r - 1, r);
    }
  }

  lemma FirstCandidate(p0: nat, p: nat)
    requires p == p0 + p0 % 2 + 1 && p0 >= 2
    ensures p % 2 == 1 && p > p0 && NonePrime(p0, p)
  {
    if p == p0 + 2 { Divisible(p0 + 1, 2); }
  }

  lemma NextCandidate(p0: nat, p: nat, j: nat, bound: nat)
    requires p0 >= 2 && NonePrime(p0, p) && p > p0 && p % 2 == 1 && 3 <= j < p && p % j == 0
    requires IsPrime(bound) && bound > p0 && bound >= p
    ensures NonePrime(p0, p + 2) && bound >= p + 2
  {
    Divisible(p, j);
    Divisible(p + 1, 2);
    forall q | p0 < q < p + 2 ensures !IsPrime(q) {}
  }

  /** Raise the limit of the trial divisors to at least the square root. */
  method RaiseLimit(p: nat, limit0: nat) returns (limit: nat)
    requires limit0 > 0 && p > 0
    ensures limit >= limit0 && limit * limit >= p
    ensures p >= 3 && limit0 < p ==> limit < p
    ensures limit0 * limit0 >= p ==> limit == limit0
  {
    limit := limit0;
    while limit * limit < p
      invariant limit >= limit0
      invariant p >= 3 && limit0 < p ==> limit < p
      invariant limit0 * limit0 >= p ==> limit == limit0
      decreases p - limit
    {
      MulLower(limit, limit);
      if limit + 1 >= p >= 4 { MulTwo(limit, p); }
      limit := limit + 1;
    }
  }

  /** The first odd number above 1 and up to the limit that divides, or one beyond the limit. */
  method OddDivisor(p: nat, limit: nat) returns (j: nat)
    ensures j >= 3 && (j <= limit ==> p % j == 0)
    ensures j > limit ==> NoOddDivisor(p, limit)
  {
    j := 3;
    while j <= limit && p % j != 0
      invariant j >= 3 && j % 2 == 1
      invariant forall d | 3 <= d < j && d % 2 == 1 :: p % d != 0
    {
      j := j + 2;
    }
  }

  /** `prime`: the least prime above `p0`, except that 2 is passed over and that nothing above 0 is looked
      for: 0 gives 1, and 1 gives 3. */
  method Prime(p0: nat) returns (p: nat)
    ensures p0 >= 2 ==> p > p0 && IsPrime(p) && NonePrime(p0, p)
    ensures p0 == 0 ==> p == 1
    ensures p0 == 1 ==> p == 3
  {
    hide IsPrime, NonePrime, NoOddDivisor;
    ghost var bound := PrimeAbove(p0);
    p := p0 + p0 % 2 + 1;
    var limit := Root(p) + 1;
    if p0 >= 2 {
      FirstCandidate(p0, p);
      RootSmall(p);
    } else {
      RootOne(p);
    }
    assert p0 >= 2 ==> bound >= p;
    while true
      invariant p % 2 == 1 && p > p0 && limit > 0
      invariant p0 < 2 ==> p == 2 * p0 + 1 && limit == 2
      invariant p0 >= 2 ==> limit < p && NonePrime(p0, p) && bound >= p
      decreases bound - p
    {
      limit := RaiseLimit(p, limit);
      var j := OddDivisor(p, limit);
      if j > limit {
        if p0 >= 2 { TrialDivision(p, limit); }
        return;
      }
      NextCandidate(p0, p, j, bound);
      p := p + 2;
    }
  }

  /** The first table size. */
  lemma ThirteenIsPrime()
    ensures IsPrime(13)
  {
    forall d | 2 <= d < 13 ensures 13 % d != 0 {
      if d == 2 {} else if d == 3 {} else if d == 4 {} else if d == 5 {} else if d == 6 {} else if d == 7 {}
      else if d == 8 {} else if d == 9 {} else if d == 10 {} else if d == 11 {} else {}
    }
  }

  // ----- double hashing -----

  /** The slot that the `k`th probe looks at. */
  function Probe(start: nat, step: nat, k: nat, m: nat): (s: nat)
    requires m > 0
    ensures s < m
  {
    (start + k * step) % m
  }

  /** The loop adds the step and subtracts the size on overflow. */
  lemma ProbeStep(start: nat, step: nat, k: nat, m: nat)
    requires start < m && step < m
    ensures Probe(start, step, 0, m) == start
    ensures var s := Probe(start, step, k, m) + step; Probe(start, step, k + 1, m) == if s >= m then s - m else s
  {
    var a := start + k * step;
    var q, s := a / m, a % m + step;
    DivMod(a, m);
    assert start + (k + 1) * step == a + step;
    if s >= m {
      assert a + step == (q + 1) * m + (s - m);
      ModUnique(a + step, m, q + 1, s - m);
    } else {
      ModUnique(a + step, m, q, s);
    }
    ModUnique(start, m, 0, start);
  }

  lemma LeastReturn(m: nat, step: nat, k: nat) returns (c: nat)
    requires 0 < k && m > 0 && (k * step) % m == 0
    ensures 0 < c <= k && (c * step) % m == 0
    ensures forall d | 0 < d < c :: (d * step) % m != 0
  {
    c := 1;
    while (c * step) % m != 0
      invariant 0 < c <= k && forall d | 0 < d < c :: (d * step) % m != 0
      decreases k - c
    {
      c := c + 1;
    }
  }

  /** The least number of steps that comes back divides every number that does, such as the size. */
  lemma ReturnDivides(m: nat, step: nat, c: nat)
    requires m > 0 && 0 < c && (c * step) % m == 0
    requires forall d | 0 < d < c :: (d * step) % m != 0
    ensures m % c == 0
  {
    DivMod(m, c);
    var q, r := m / c, m % c;
    DivMod(c * step, m);
    var x := (c * step) / m;
    assert c * step == x * m;
    assert r * step == m * step - q * (c * step);
    assert r * step == (step - q * x) * m;
    Multiple(r * step, step - q * x, m);
  }

  /** A prime divides a product with a smaller positive factor only through the other factor: no smaller
      multiple of the step comes back to the start. */
  lemma NoEarlyReturn(m: nat, step: nat, k: nat)
    requires IsPrime(m) && 0 < step < m && 0 < k < m
    ensures (k * step) % m != 0
  {
    if (k * step) % m == 0 {
      var c := LeastReturn(m, step, k);
      ReturnDivides(m, step, c);
      if c == 1 {
        ModUnique(step, m, 0, step);
      }
    }
  }

  /** The first `m` probes look at different slots. */
  lemma ProbesDiffer(start: nat, step: nat, m: nat, i: nat, j: nat)
    requires IsPrime(m) && 0 < step < m && i < j < m
    ensures Probe(start, step, i, m) != Probe(start, step, j, m)
  {
    var a, b := start + i * step, start + j * step;
    DivMod(a, m);
    DivMod(b, m);
    if a % m == b % m {
      var x, y := a / m, b / m;
      assert (j - i) * step == (y - x) * m;
      Multiple((j - i) * step, y - x, m);
      NoEarlyReturn(m, step, j - i);
    }
  }
}
