/** How long the coded gaps of a list can get, and the choice of the block size. */
module GapBound {
  import opened Words
  import opened BitStream
  import Primes

  // ----- logarithms -----

  lemma {:induction false} HighStep(x: nat, n: nat)
    ensures High(x, n + 1) == High(x, n) / 2
  {
    if n > 0 { HighStep(x / 2, n - 1); }
  }

  /** What is left after shifting tells on which side of the power of two the number lies. */
  lemma HighTells(x: nat, n: nat)
    ensures High(x, n) == 0 ==> x < Pow2(n)
    ensures High(x, n) > 0 ==> x >= Pow2(n)
  {
    HighLow(x, n);
    ShiftMultiplies(High(x, n), n);
    if High(x, n) > 0 { Primes.MulLower(High(x, n), Pow2(n)); }
  }

  /** `FLOORLOG_2` */
  method FloorLog2(x: nat) returns (v: int)
    ensures v >= -1 && (x == 0 <==> v == -1)
    ensures x > 0 ==> Pow2(v) <= x < Pow2(v + 1)
  {
    v := -1;
    var rest := x;
    while rest != 0
      invariant v >= -1 && rest == High(x, v + 1) && (v >= 0 ==> High(x, v) > 0)
      decreases rest
    {
      HighStep(x, v + 1);
      rest := rest / 2;
      v := v + 1;
    }
    HighTells(x, v + 1);
    if v >= 0 { HighTells(x, v); }
  }

  /** `CEILLOG_2`: the least exponent whose power of two is not below `x`. */
  method CeilLog2(x: nat) returns (v: nat)
    requires x > 0
    ensures x <= Pow2(v) && (v > 0 ==> Pow2(v - 1) < x)
  {
    v := 0;
    var rest := x - 1;
    while rest != 0
      invariant rest == High(x - 1, v) && (v > 0 ==> High(x - 1, v - 1) > 0)
      decreases rest
    {
      HighStep(x - 1, v);
      rest := rest / 2;
      v := v + 1;
    }
    HighTells(x - 1, v);
    if v > 0 { HighTells(x - 1, v - 1); }
  }

  /** The ceiling of the logarithm of a power of two is its exponent. */
  lemma ExactLog(b: nat, k: nat, v: nat)
    requires b == Pow2(k) && b <= Pow2(v) && (v > 0 ==> Pow2(v - 1) < b)
    ensures v == k
  {
    if v < k { Pow2Grows(v, k); }
    if v > k { Pow2Grows(k, v - 1); }
  }

  // ----- the length of the code -----

  function Sum(xs: seq<nat>): nat
  {
    if xs == [] then 0 else xs[0] + Sum(xs[1..])
  }

  /** The whole blocks of all gaps together. */
  function WholeBlocks(xs: seq<nat>, logb: nat): nat
    requires forall i | 0 <= i < |xs| :: xs[i] > 0
  {
    if xs == [] then 0 else High(xs[0] - 1, logb) + WholeBlocks(xs[1..], logb)
  }

  lemma Distribute(h: nat, w: nat, b: nat)
    ensures (h + w) * b == h * b + w * b
  {
  }

  lemma {:induction false} CodeLength(xs: seq<nat>, logb: nat)
    requires forall i | 0 <= i < |xs| :: xs[i] > 0
    ensures |Blocks(xs, logb)| == WholeBlocks(xs, logb) + |xs| * (1 + logb)
  {
    if xs != [] {
      CodeLength(xs[1..], logb);
      Distribute(|xs[1..]|, 1, 1 + logb);
    }
  }

  lemma HighFits(x: nat, n: nat)
    ensures High(x, n) * Pow2(n) <= x
  {
    HighLow(x, n);
    ShiftMultiplies(High(x, n), n);
  }

  lemma {:induction false} WholeBlocksFit(xs: seq<nat>, logb: nat)
    requires forall i | 0 <= i < |xs| :: xs[i] > 0
    ensures WholeBlocks(xs, logb) * Pow2(logb) + |xs| <= Sum(xs)
  {
    if xs != [] {
      WholeBlocksFit(xs[1..], logb);
      HighFits(xs[0] - 1, logb);
      Distribute(High(xs[0] - 1, logb), WholeBlocks(xs[1..], logb), Pow2(logb));
    }
  }

  lemma Multiplied(x: int, y: int, p: nat)
    requires x <= y
    ensures x * p <= y * p
  {
    if x < y {
      Primes.MulLower(y - x, p);
      assert (y - x) * p == y * p - x * p;
    }
  }

  lemma QuotientBound(w: nat, b: nat, n: nat)
    requires b > 0 && w * b <= n
    ensures w <= n / b
  {
    Primes.DivMod(n, b);
    var q := n / b;
    if w > q { Multiplied(q + 1, w, b); }
  }

  lemma QuotientBelow(k: nat, b: nat, n: nat)
    requires b > 0 && n < (k + 1) * b
    ensures n / b <= k
  {
    Primes.DivMod(n, b);
    var q := n / b;
    if q > k { Multiplied(k + 1, q, b); }
  }

  /** Any `p` positive gaps whose sum is at most `n` take at most this many bits. */
  lemma CodeBound(xs: seq<nat>, logb: nat, n: nat)
    requires (forall i | 0 <= i < |xs| :: xs[i] > 0) && Sum(xs) <= n
    ensures |xs| <= n && |Blocks(xs, logb)| <= |xs| * (1 + logb) + (n - |xs|) / Pow2(logb)
  {
    CodeLength(xs, logb);
    WholeBlocksFit(xs, logb);
    QuotientBound(WholeBlocks(xs, logb), Pow2(logb), n - |xs|);
  }

  // ----- the block size and the bound -----

  /** The exponent of the block size for `p` gaps among `n`. */
  ghost predicate BlockExponent(n: nat, p: nat, logb: nat)
    requires 1 <= p <= n
  {
    var mean := (n - p) / p;
    if mean == 0 then logb == 0 else Pow2(logb) <= mean < Pow2(logb + 1)
  }

  /** `BIO_Bblock_Init_W` */
  method InitW(n: nat, p: nat) returns (b: nat, logb: nat)
    requires 1 <= p <= n
    ensures BlockExponent(n, p, logb) && b == Pow2(logb)
  {
    var mean := (n - p) / p;
    Primes.DivMod(n - p, p);
    if mean < 0 { Multiplied(mean, -1, p); }
    var v := FloorLog2(mean);
    if v < 0 {
      return 1, 0;
    }
    return Pow2(v), v;
  }

  /** Integer division as C does it, towards zero. */
  function Quotient(a: int, b: nat): int
    requires b > 0
  {
    if a >= 0 then a / b else -(-a / b)
  }

  /** `BIO_Bblock_Bound_b` */
  method BoundFor(n: nat, p: nat, b: nat) returns (bits: int)
    requires b > 0
    ensures forall logb: nat | b == Pow2(logb) && p <= n :: bits == p * (1 + logb) + (n - p) / b
  {
    var clogb := CeilLog2(b);
    bits := p * (1 + clogb) + Quotient(n - p * (Pow2(clogb) - b + 1), b);
    forall logb: nat | b == Pow2(logb) && p <= n ensures bits == p * (1 + logb) + (n - p) / b {
      ExactLog(b, logb, clogb);
      assert p * (Pow2(clogb) - b + 1) == p;
    }
  }

  lemma TwoEach(n: nat, k: nat, b: nat, p: nat)
    requires b > 0 && n < k * p && k <= 2 * b
    ensures n / b <= 2 * p
  {
    Multiplied(k, 2 * b, p);
    assert (2 * b) * p + b == (2 * p + 1) * b;
    QuotientBelow(2 * p, b, n);
  }

  /** At most two whole blocks per gap. */
  lemma FewBlocks(n: nat, p: nat, logb: nat)
    requires 1 <= p <= n && BlockExponent(n, p, logb)
    ensures (n - p) / Pow2(logb) <= 2 * p
  {
    var mean, b := (n - p) / p, Pow2(logb);
    Primes.DivMod(n - p, p);
    Distribute(mean, 1, p);
    if mean == 0 {
      QuotientBelow(2 * p, b, n - p);
    } else {
      assert Pow2(logb + 1) == 2 * b;
      TwoEach(n - p, mean + 1, b, p);
    }
  }

  /** `BIO_Bblock_Bound`: with the block size chosen for them, any `p` positive gaps whose sum is at most
      `n` are coded in at most this many bits, which are at most `3 + log b` for each. */
  method Bound(n: nat, p: nat) returns (bits: int, b: nat, logb: nat)
    requires 1 <= p <= n
    ensures BlockExponent(n, p, logb) && b == Pow2(logb) && bits <= p * (3 + logb)
    ensures forall xs: seq<nat> | |xs| == p && (forall i | 0 <= i < |xs| :: xs[i] > 0) && Sum(xs) <= n ::
              |Blocks(xs, logb)| <= bits
  {
    b, logb := InitW(n, p);
    bits := BoundFor(n, p, b);
    FewBlocks(n, p, logb);
    assert p * (3 + logb) == p * (1 + logb) + 2 * p;
    forall xs: seq<nat> | |xs| == p && (forall i | 0 <= i < |xs| :: xs[i] > 0) && Sum(xs) <= n
      ensures |Blocks(xs, logb)| <= bits
    {
      CodeBound(xs, logb, n);
    }
  }
}
