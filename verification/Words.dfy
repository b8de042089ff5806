/** Bitwise arithmetic on machine words, kept as natural numbers.

    The constraint compiler, the interpreter, the allocator's bin map and the gap coder all
    work on words with `|`, `&`, `~` and `1 << k`.  Here those operators are defined by recursion
    over the binary digits, so that facts about them are ordinary inductions. */
module Words {

  const WORD_LIMIT: nat := 0x1_0000_0000

  /** A 32-bit unsigned word. */
  type word = x: nat | x < 0x1_0000_0000

  /** Bit number `i` of `x`, bit 0 being the least significant. */
  predicate Bit(x: nat, i: nat)
  {
    if i == 0 then x % 2 == 1 else Bit(x / 2, i - 1)
  }

  /** `1 << i` */
  function Pow2(i: nat): (p: nat)
    ensures p >= 1
  {
    if i == 0 then 1 else 2 * Pow2(i - 1)
  }

  /** `x & y` */
  function And(x: nat, y: nat): nat
  {
    if x == 0 || y == 0 then 0
    else (if x % 2 == 1 && y % 2 == 1 then 1 else 0) + 2 * And(x / 2, y / 2)
  }

  /** `x | y` */
  function Or(x: nat, y: nat): nat
  {
    if x == 0 then y
    else if y == 0 then x
    else (if x % 2 == 1 || y % 2 == 1 then 1 else 0) + 2 * Or(x / 2, y / 2)
  }

  /** `x & ~(1 << i)` */
  function Clear(x: nat, i: nat): nat
  {
    if i == 0 then x - x % 2 else x % 2 + 2 * Clear(x / 2, i - 1)
  }

  lemma {:induction false} BitZero(i: nat)
    ensures !Bit(0, i)
  {
    if i > 0 { BitZero(i - 1); }
  }

  lemma {:induction false} BitAnd(x: nat, y: nat, i: nat)
    ensures Bit(And(x, y), i) <==> Bit(x, i) && Bit(y, i)
  {
    if x == 0 || y == 0 {
      BitZero(i);
    } else {
      assert And(x, y) / 2 == And(x / 2, y / 2);
      if i > 0 { BitAnd(x / 2, y / 2, i - 1); }
    }
  }

  lemma {:induction false} BitOr(x: nat, y: nat, i: nat)
    ensures Bit(Or(x, y), i) <==> Bit(x, i) || Bit(y, i)
  {
    if x == 0 || y == 0 {
      BitZero(i);
    } else {
      assert Or(x, y) / 2 == Or(x / 2, y / 2);
      if i > 0 { BitOr(x / 2, y / 2, i - 1); }
    }
  }

  lemma {:induction false} BitClear(x: nat, i: nat, j: nat)
    ensures Bit(Clear(x, i), j) <==> Bit(x, j) && i != j
  {
    if i > 0 {
      assert Clear(x, i) / 2 == Clear(x / 2, i - 1);
      if j > 0 { BitClear(x / 2, i - 1, j - 1); }
    } else if j > 0 {
      assert Clear(x, 0) / 2 == x / 2;
    }
  }

  lemma {:induction false} BitPow2(i: nat, j: nat)
    ensures Bit(Pow2(i), j) <==> i == j
  {
    if i == 0 {
      if j > 0 { BitZero(j - 1); }
    } else {
      assert Pow2(i) / 2 == Pow2(i - 1);
      if j > 0 { BitPow2(i - 1, j - 1); }
    }
  }

  /** A word is zero exactly when none of its bits is set. */
  lemma {:induction false} NonzeroHasBit(x: nat) returns (i: nat)
    requires x != 0
    ensures Bit(x, i)
  {
    if x % 2 == 1 {
      i := 0;
    } else {
      var k := NonzeroHasBit(x / 2);
      i := k + 1;
    }
  }

  /** Testing one bit with a mask. */
  lemma {:induction false} AndPow2(x: nat, i: nat)
    ensures And(x, Pow2(i)) != 0 <==> Bit(x, i)
  {
    if Bit(x, i) {
      BitPow2(i, i);
      BitAnd(x, Pow2(i), i);
      BitZero(i);
    }
    if And(x, Pow2(i)) != 0 {
      var k := NonzeroHasBit(And(x, Pow2(i)));
      BitAnd(x, Pow2(i), k);
      BitPow2(i, k);
    }
  }

  /** Words with the same bits are the same word. */
  lemma {:induction false} SameBits(x: nat, y: nat)
    requires forall i: nat :: Bit(x, i) <==> Bit(y, i)
    ensures x == y
    decreases x + y
  {
    if x != 0 || y != 0 {
      assert Bit(x, 0) <==> Bit(y, 0);
      forall i: nat ensures Bit(x / 2, i) <==> Bit(y / 2, i) {
        assert Bit(x, i + 1) <==> Bit(y, i + 1);
      }
      SameBits(x / 2, y / 2);
    }
  }

  /** Some bit of the union of two masks is set exactly when one is set in one of the masks. */
  lemma {:induction false} AnyOfUnion(w: nat, m: nat, n: nat)
    ensures And(w, Or(m, n)) != 0 <==> And(w, m) != 0 || And(w, n) != 0
  {
    if And(w, Or(m, n)) != 0 {
      var k := NonzeroHasBit(And(w, Or(m, n)));
      BitAnd(w, Or(m, n), k); BitOr(m, n, k); BitAnd(w, m, k); BitAnd(w, n, k); BitZero(k);
    }
    if And(w, m) != 0 {
      var k := NonzeroHasBit(And(w, m));
      BitAnd(w, Or(m, n), k); BitOr(m, n, k); BitAnd(w, m, k); BitZero(k);
    }
    if And(w, n) != 0 {
      var k := NonzeroHasBit(And(w, n));
      BitAnd(w, Or(m, n), k); BitOr(m, n, k); BitAnd(w, n, k); BitZero(k);
    }
  }

  /** Every bit of `m` is set in `w`. */
  ghost predicate Covers(w: nat, m: nat)
  {
    forall i: nat :: Bit(m, i) ==> Bit(w, i)
  }

  /** `w & m == m` says that every bit of `m` is set in `w`. */
  lemma AllSet(w: nat, m: nat)
    ensures And(w, m) == m <==> Covers(w, m)
  {
    forall i: nat ensures Bit(And(w, m), i) <==> Bit(w, i) && Bit(m, i) {
      BitAnd(w, m, i);
    }
    if Covers(w, m) {
      SameBits(And(w, m), m);
    } else {
      var i: nat :| Bit(m, i) && !Bit(w, i);
      BitAnd(w, m, i);
    }
  }

  /** All bits of the union of two masks are set exactly when all bits of both masks are. */
  lemma AllOfUnion(w: nat, m: nat, n: nat)
    ensures And(w, Or(m, n)) == Or(m, n) <==> And(w, m) == m && And(w, n) == n
  {
    AllSet(w, Or(m, n)); AllSet(w, m); AllSet(w, n);
    forall i: nat ensures Bit(Or(m, n), i) <==> Bit(m, i) || Bit(n, i) {
      BitOr(m, n, i);
    }
  }

  lemma {:induction false} OrZero(m: nat, n: nat)
    ensures Or(m, n) == 0 <==> m == 0 && n == 0
  {
    if m != 0 && n != 0 && Or(m, n) == 0 { OrZero(m / 2, n / 2); }
  }

  /** A word with bit `j` set is at least `1 << j`. */
  lemma {:induction false} BitIsLarge(x: nat, j: nat)
    requires Bit(x, j)
    ensures x >= Pow2(j)
  {
    if j > 0 { BitIsLarge(x / 2, j - 1); }
  }

  lemma {:induction false} Pow2Grows(i: nat, j: nat)
    requires i <= j
    ensures Pow2(i) <= Pow2(j)
    ensures i < j ==> 2 * Pow2(i) <= Pow2(j)
  {
    if i < j { Pow2Grows(i, j - 1); }
  }

  /** A word that is at least `1 << i` has a bit set at `i` or above. */
  lemma {:induction false} LargeHasBit(x: nat, i: nat) returns (j: nat)
    requires x >= Pow2(i)
    ensures j >= i && Bit(x, j)
  {
    if i == 0 {
      j := NonzeroHasBit(x);
    } else {
      var k := LargeHasBit(x / 2, i - 1);
      j := k + 1;
    }
  }

  lemma {:induction false} OrBelow(x: nat, y: nat, k: nat)
    requires x < Pow2(k) && y < Pow2(k)
    ensures Or(x, y) < Pow2(k)
  {
    if x != 0 && y != 0 { OrBelow(x / 2, y / 2, k - 1); }
  }

  lemma {:induction false} ClearBelow(x: nat, i: nat)
    ensures Clear(x, i) <= x
  {
    if i > 0 { ClearBelow(x / 2, i - 1); }
  }

  lemma WordIsPow2()
    ensures Pow2(32) == WORD_LIMIT
  {
    assert Pow2(8) == 256;
    assert Pow2(16) == 65536;
    assert Pow2(24) == 65536 * 256;
  }
}
