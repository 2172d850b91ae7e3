/** Shifts, low bits and exclusive or on unbounded non-negative integers, and their laws. */
module BitwiseIntegers {
  function Parity(x: nat, y: nat): nat {
    (x + y) % 2
  }

  function Xor(a: nat, b: nat): nat
    decreases a + b
  {
    if a == 0 && b == 0 then 0 else 2 * Xor(a / 2, b / 2) + Parity(a % 2, b % 2)
  }

  function Pow2(k: nat): (p: nat)
    ensures p > 0
  {
    if k == 0 then 1 else 2 * Pow2(k - 1)
  }

  /** a shifted left by k bits. */
  function Shl(a: nat, k: nat): nat
    decreases k, a
  {
    if k == 0 then a else 2 * Shl(a, k - 1)
  }

  /** a shifted right by k bits. */
  function Shr(a: nat, k: nat): nat
    decreases k, a
  {
    if k == 0 then a else Shr(a / 2, k - 1)
  }

  /** The k lowest bits of a. */
  function Low(a: nat, k: nat): nat
    decreases k, a
  {
    if k == 0 then 0 else 2 * Low(a / 2, k - 1) + a % 2
  }

  // ---- One bit at a time ----

  lemma Halves(x: nat, z: nat, r: nat)
    requires x == 2 * z + r && r < 2
    ensures x / 2 == z && x % 2 == r
  {
  }

  lemma SameNumber(x: nat, y: nat)
    requires x / 2 == y / 2 && x % 2 == y % 2
    ensures x == y
  {
  }

  lemma XorParts(a: nat, b: nat)
    ensures Xor(a, b) / 2 == Xor(a / 2, b / 2) && Xor(a, b) % 2 == Parity(a % 2, b % 2)
  {
  }

  lemma XorOfHalves(x: nat, y: nat, a: nat, b: nat)
    requires a == x / 2 && b == y / 2
    ensures Xor(x, y) == 2 * Xor(a, b) + Parity(x % 2, y % 2)
  {
  }

  lemma ParityAssociates(x: nat, y: nat, z: nat)
    requires x < 2 && y < 2 && z < 2
    ensures Parity(Parity(x, y), z) == Parity(x, Parity(y, z))
  {
  }

  // ---- Exclusive or is a commutative group in which everything is its own inverse ----

  lemma {:induction false} XorAssociates(a: nat, b: nat, c: nat)
    ensures Xor(Xor(a, b), c) == Xor(a, Xor(b, c))
    decreases a + b + c
  {
    if a + b + c > 0 {
      var ab, bc := Xor(a, b), Xor(b, c);
      XorParts(a, b);
      XorParts(b, c);
      XorParts(ab, c);
      XorParts(a, bc);
      XorAssociates(a / 2, b / 2, c / 2);
      ParityAssociates(a % 2, b % 2, c % 2);
      SameNumber(Xor(ab, c), Xor(a, bc));
    }
  }

  lemma {:induction false} XorCommutes(a: nat, b: nat)
    ensures Xor(a, b) == Xor(b, a)
    decreases a + b
  {
    if a + b > 0 {
      XorCommutes(a / 2, b / 2);
    }
  }

  lemma {:induction false} XorZero(a: nat)
    ensures Xor(a, 0) == a && Xor(0, a) == a
  {
    if a > 0 {
      XorZero(a / 2);
    }
  }

  lemma {:induction false} XorSelf(a: nat)
    ensures Xor(a, a) == 0
  {
    if a > 0 {
      XorSelf(a / 2);
    }
  }

  lemma XorRearranged(a: nat, b: nat, c: nat, d: nat)
    ensures Xor(Xor(a, b), Xor(c, d)) == Xor(Xor(a, c), Xor(b, d))
  {
    calc {
      Xor(Xor(a, b), Xor(c, d));
    == { XorAssociates(a, b, Xor(c, d)); }
      Xor(a, Xor(b, Xor(c, d)));
    == { XorAssociates(b, c, d); XorCommutes(b, c); XorAssociates(c, b, d); }
      Xor(a, Xor(c, Xor(b, d)));
    == { XorAssociates(a, c, Xor(b, d)); }
      Xor(Xor(a, c), Xor(b, d));
    }
  }

  /** Only the zero leaves a number as it was. */
  lemma XorChanges(a: nat, b: nat)
    requires Xor(a, b) == a
    ensures b == 0
  {
    XorSelf(a);
    XorAssociates(a, a, b);
    XorZero(b);
  }

  /** What was put on is taken off again. */
  lemma XorUndoes(a: nat, b: nat)
    ensures Xor(a, Xor(a, b)) == b
  {
    XorAssociates(a, a, b);
    XorSelf(a);
    XorZero(b);
  }

  // ---- Parts of a number ----

  lemma {:induction false} Split(a: nat, k: nat)
    ensures a == Shl(Shr(a, k), k) + Low(a, k) && Low(a, k) < Pow2(k)
    decreases k
  {
    if k > 0 {
      Split(a / 2, k - 1);
    }
  }

  /** And no other parts make up the number. */
  lemma {:induction false} SplitIsUnique(a: nat, high: nat, low: nat, k: nat)
    requires a == Shl(high, k) + low && low < Pow2(k)
    ensures Shr(a, k) == high && Low(a, k) == low
    decreases k
  {
    if k > 0 {
      Halves(low, low / 2, low % 2);
      Halves(a, Shl(high, k - 1) + low / 2, low % 2);
      SplitIsUnique(a / 2, high, low / 2, k - 1);
    }
  }

  lemma {:induction false} ShlZero(k: nat)
    ensures Shl(0, k) == 0
  {
    if k > 0 {
      ShlZero(k - 1);
    }
  }

  lemma LowOfSmall(a: nat, k: nat)
    requires a < Pow2(k)
    ensures Low(a, k) == a && Shr(a, k) == 0
  {
    ShlZero(k);
    SplitIsUnique(a, 0, a, k);
  }

  lemma {:induction false} ShlAddsUp(a: nat, j: nat, k: nat)
    ensures Shl(Shl(a, j), k) == Shl(a, j + k)
    decreases k
  {
    if k > 0 {
      ShlAddsUp(a, j, k - 1);
    }
  }

  lemma {:induction false} ShrAddsUp(a: nat, j: nat, k: nat)
    ensures Shr(Shr(a, j), k) == Shr(a, j + k)
    decreases j
  {
    if j > 0 {
      ShrAddsUp(a / 2, j - 1, k);
    }
  }

  lemma {:induction false} ShlSum(a: nat, b: nat, k: nat)
    ensures Shl(a + b, k) == Shl(a, k) + Shl(b, k)
    decreases k
  {
    if k > 0 {
      ShlSum(a, b, k - 1);
    }
  }

  lemma {:induction false} ShlAtLeast(a: nat, k: nat)
    ensures Shl(a, k) >= a
    decreases k
  {
    if k > 0 {
      ShlAtLeast(a, k - 1);
    }
  }

  lemma {:induction false} ShrLow(a: nat, j: nat, k: nat)
    ensures Shr(Low(a, j + k), j) == Low(Shr(a, j), k)
    decreases j
  {
    if j > 0 {
      Halves(Low(a, j + k), Low(a / 2, j - 1 + k), a % 2);
      ShrLow(a / 2, j - 1, k);
    }
  }

  lemma {:induction false} LowLow(a: nat, j: nat, k: nat)
    ensures Low(Low(a, j + k), j) == Low(a, j)
    decreases j
  {
    if j > 0 {
      Halves(Low(a, j + k), Low(a / 2, j - 1 + k), a % 2);
      LowLow(a / 2, j - 1, k);
    }
  }

  lemma LowDouble(a: nat, k: nat)
    ensures Low(2 * a, k + 1) == 2 * Low(a, k)
  {
    Halves(2 * a, a, 0);
  }

  lemma {:induction false} ShlMonotone(a: nat, b: nat, k: nat)
    ensures Shl(a, k) <= Shl(b, k) <==> a <= b
    decreases k
  {
    if k > 0 {
      ShlMonotone(a, b, k - 1);
    }
  }

  // ---- Exclusive or of the parts ----

  lemma {:induction false} LowXor(a: nat, b: nat, k: nat)
    ensures Low(Xor(a, b), k) == Xor(Low(a, k), Low(b, k))
    decreases k
  {
    if k > 0 {
      XorParts(a, b);
      LowXor(a / 2, b / 2, k - 1);
      Halves(Low(a, k), Low(a / 2, k - 1), a % 2);
      Halves(Low(b, k), Low(b / 2, k - 1), b % 2);
      XorOfHalves(Low(a, k), Low(b, k), Low(a / 2, k - 1), Low(b / 2, k - 1));
    }
  }

  lemma {:induction false} ShrXor(a: nat, b: nat, k: nat)
    ensures Shr(Xor(a, b), k) == Xor(Shr(a, k), Shr(b, k))
    decreases k
  {
    if k > 0 {
      XorParts(a, b);
      ShrXor(a / 2, b / 2, k - 1);
    }
  }

  lemma XorDouble(x: nat, y: nat, u: nat, v: nat)
    requires u == 2 * x && v == 2 * y
    ensures Xor(u, v) == 2 * Xor(x, y)
  {
    Halves(u, x, 0);
    Halves(v, y, 0);
    XorOfHalves(u, v, x, y);
  }

  lemma {:induction false} XorShifted(a: nat, b: nat, k: nat)
    ensures Xor(Shl(a, k), Shl(b, k)) == Shl(Xor(a, b), k)
    decreases k
  {
    if k > 0 {
      XorShifted(a, b, k - 1);
      XorDouble(Shl(a, k - 1), Shl(b, k - 1), Shl(a, k), Shl(b, k));
    }
  }

  /** The parts of an exclusive or are the exclusive ors of the parts. */
  lemma XorJoined(m: nat, a: nat, x: nat, n: nat, b: nat, y: nat, k: nat)
    requires x < Pow2(k) && y < Pow2(k) && m == Shl(a, k) + x && n == Shl(b, k) + y
    ensures Xor(m, n) == Shl(Xor(a, b), k) + Xor(x, y) && Xor(x, y) < Pow2(k)
  {
    SplitIsUnique(m, a, x, k);
    SplitIsUnique(n, b, y, k);
    LowXor(m, n, k);
    ShrXor(m, n, k);
    Split(Xor(m, n), k);
  }

  lemma XorOfSmall(x: nat, y: nat, k: nat)
    requires x < Pow2(k) && y < Pow2(k)
    ensures Xor(x, y) < Pow2(k)
  {
    ShlZero(k);
    XorJoined(x, 0, x, y, 0, y, k);
  }

  /** Bits that do not meet are added. */
  lemma XorDisjoint(m: nat, a: nat, k: nat, y: nat)
    requires y < Pow2(k) && m == Shl(a, k)
    ensures Xor(m, y) == m + y
  {
    XorZero(a);
    XorZero(y);
    ShlZero(k);
    XorJoined(m, a, 0, y, 0, y, k);
  }

  // ---- The widths in use ----

  lemma PowersOfTwo()
    ensures Pow2(4) == 16 && Pow2(8) == 0x100 && Pow2(12) == 0x1000 && Pow2(15) == 0x8000 && Pow2(16) == 0x1_0000
  {
  }

  lemma DoubledFactor(a: nat, p: nat)
    ensures a * (2 * p) == 2 * (a * p)
  {
  }

  lemma {:induction false} ShlIsProduct(a: nat, k: nat)
    ensures Shl(a, k) == a * Pow2(k)
  {
    if k > 0 {
      ShlIsProduct(a, k - 1);
      DoubledFactor(a, Pow2(k - 1));
    }
  }

  lemma ShlConstants(a: nat)
    ensures Shl(a, 8) == 0x100 * a && Shl(a, 12) == 0x1000 * a && Shl(a, 16) == 0x1_0000 * a
  {
    ShlIsProduct(a, 8);
    ShlIsProduct(a, 12);
    ShlIsProduct(a, 16);
    PowersOfTwo();
  }
}
