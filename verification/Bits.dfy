/** The bitwise operators of C on nonnegative numbers, binary digit by binary digit, and what they
    are in terms of quotients and remainders. */
module Bits {
  import opened Bytes

  // ---- The operators ----

  function Xor(a: nat, b: nat): (r: nat)
    decreases a + b
  {
    if a == 0 && b == 0 then 0 else 2 * Xor(a / 2, b / 2) + (a + b) % 2
  }

  function Or(a: nat, b: nat): (r: nat)
    decreases a + b
  {
    if a == 0 && b == 0 then 0 else 2 * Or(a / 2, b / 2) + if a % 2 == 1 || b % 2 == 1 then 1 else 0
  }

  function And(a: nat, b: nat): (r: nat)
    decreases a + b
  {
    if a == 0 && b == 0 then 0 else 2 * And(a / 2, b / 2) + if a % 2 == 1 && b % 2 == 1 then 1 else 0
  }

  function Shl(a: nat, n: nat): (r: nat)
    decreases n
  {
    if n == 0 then a else Shl(2 * a, n - 1)
  }

  function Shr(a: nat, n: nat): (r: nat)
    ensures r <= a
    decreases n
  {
    if n == 0 then a else Shr(a / 2, n - 1)
  }

  // ---- Powers of two, quotients and remainders ----

  lemma {:induction false} Pow2Adds(m: nat, n: nat)
    ensures Pow2(m + n) == Pow2(m) * Pow2(n)
  {
    if n > 0 {
      Pow2Adds(m, n - 1);
    }
  }

  lemma Pow2Values()
    ensures Pow2(8) == 0x100 && Pow2(16) == 0x1_0000 && Pow2(32) == 0x1_0000_0000
  {
    assert Pow2(8) == 0x100;
    Pow2Adds(8, 8);
    Pow2Adds(16, 16);
  }

  lemma QuotientBound(x: nat, q: nat, p: nat)
    requires q > 0 && x < q * p
    ensures 0 <= x / q < p
  {
    var d := x / q;
    assert d * q <= x;
    if d >= p {
      MulMonotone(p, d, q);
      assert false;
    }
  }

  lemma MulMonotone(a: int, b: int, c: nat)
    requires a <= b
    ensures a * c <= b * c
  {
    assert (b - a) * c >= 0;
  }

  lemma NonzeroMultiple(k: int, p: nat)
    requires k != 0
    ensures k * p >= p || k * p <= -(p as int)
  {
    if k > 0 {
      MulMonotone(1, k, p);
    } else {
      MulMonotone(k, -1, p);
    }
  }

  lemma QuotientIs(a: nat, p: nat, q: nat, r: nat)
    requires a == q * p + r && r < p
    ensures a / p == q && a % p == r
  {
    var k := a / p - q;
    assert k * p == r - a % p;
    if k != 0 {
      NonzeroMultiple(k, p);
    }
  }

  /** Dividing by two and then by p. */
  lemma NestedQuotient(a: nat, p: nat)
    requires p > 0
    ensures a / (2 * p) == a / 2 / p
    ensures a % (2 * p) == 2 * (a / 2 % p) + a % 2
  {
    var h := a / 2;
    var q, r := h / p, h % p;
    assert a == 2 * (q * p + r) + a % 2;
    assert 2 * (q * p) == q * (2 * p);
    QuotientIs(a, 2 * p, q, 2 * r + a % 2);
  }

  // ---- Exclusive or ----

  lemma XorStep(a: nat, b: nat)
    ensures Xor(a, b) / 2 == Xor(a / 2, b / 2)
    ensures Xor(a, b) % 2 == (a + b) % 2
  {
  }

  lemma {:induction false} XorBound(n: nat, a: nat, b: nat)
    requires a < Pow2(n) && b < Pow2(n)
    ensures Xor(a, b) < Pow2(n)
  {
    if n > 0 {
      XorBound(n - 1, a / 2, b / 2);
    }
  }

  lemma {:induction false} XorZero(a: nat)
    ensures Xor(a, 0) == a
  {
    if a != 0 {
      XorZero(a / 2);
    }
  }

  lemma {:induction false} XorCommutes(a: nat, b: nat)
    ensures Xor(a, b) == Xor(b, a)
    decreases a + b
  {
    if a != 0 || b != 0 {
      XorCommutes(a / 2, b / 2);
    }
  }

  lemma {:induction false} XorCancels(a: nat, b: nat)
    ensures Xor(Xor(a, b), b) == a
    decreases a + b
  {
    if a != 0 || b != 0 {
      var x := Xor(a, b);
      XorStep(a, b);
      XorStep(x, b);
      XorCancels(a / 2, b / 2);
      ParityCancels(x, a, b);
      SameHalves(Xor(x, b), a);
    }
  }

  lemma ParityCancels(x: nat, a: nat, b: nat)
    requires x % 2 == (a + b) % 2
    ensures (x + b) % 2 == a % 2
  {
  }

  lemma SameHalves(a: nat, b: nat)
    requires a / 2 == b / 2 && a % 2 == b % 2
    ensures a == b
  {
  }

  lemma XorInjective(a: nat, b: nat, c: nat)
    requires Xor(a, c) == Xor(b, c)
    ensures a == b
  {
    XorCancels(a, c);
    XorCancels(b, c);
  }

  /** Shifting right distributes over exclusive or. */
  lemma {:induction false} ShrXor(n: nat, a: nat, b: nat)
    ensures Shr(Xor(a, b), n) == Xor(Shr(a, n), Shr(b, n))
  {
    if n > 0 {
      XorStep(a, b);
      ShrXor(n - 1, a / 2, b / 2);
    }
  }

  lemma {:induction false} ShrShr(a: nat, m: nat, n: nat)
    ensures Shr(Shr(a, m), n) == Shr(a, m + n)
    decreases m
  {
    if m > 0 {
      ShrShr(a / 2, m - 1, n);
    }
  }

  lemma {:induction false} ShrAll(a: nat, n: nat)
    requires a < Pow2(n)
    ensures Shr(a, n) == 0
  {
    if n > 0 {
      ShrAll(a / 2, n - 1);
    }
  }

  lemma XorDouble(m: nat, b: nat)
    ensures Xor(2 * m, b) == 2 * Xor(m, b / 2) + b % 2
  {
    hide Xor;
    XorStep(2 * m, b);
    DoubleParts(m, b);
    Recombine(Xor(2 * m, b));
  }

  lemma DoubleParts(m: nat, b: nat)
    ensures 2 * m / 2 == m && (2 * m + b) % 2 == b % 2
  {
  }

  lemma Recombine(x: nat)
    ensures x == 2 * (x / 2) + x % 2
  {
  }

  /** On numbers without a common binary digit, exclusive or is addition. */
  lemma {:induction false} XorDisjoint(n: nat, a: nat, b: nat)
    requires b < Pow2(n)
    ensures Xor(a * Pow2(n), b) == a * Pow2(n) + b
  {
    if n == 0 {
      XorZero(a);
    } else {
      hide Xor;
      var m := a * Pow2(n - 1);
      assert a * Pow2(n) == 2 * m;
      XorDisjoint(n - 1, a, b / 2);
      XorDouble(m, b);
    }
  }

  // ---- Or, and, and left shifts ----

  lemma OrStep(a: nat, b: nat)
    ensures Or(a, b) / 2 == Or(a / 2, b / 2)
    ensures Or(a, b) % 2 == if a % 2 == 1 || b % 2 == 1 then 1 else 0
  {
  }

  lemma {:induction false} OrZero(a: nat)
    ensures Or(a, 0) == a
  {
    if a != 0 {
      OrZero(a / 2);
    }
  }

  lemma OrDouble(m: nat, b: nat)
    ensures Or(2 * m, b) == 2 * Or(m, b / 2) + b % 2
  {
    hide Or;
    OrStep(2 * m, b);
    DoubleParts(m, b);
    Recombine(Or(2 * m, b));
  }

  /** On numbers without a common binary digit, or is addition. */
  lemma {:induction false} OrDisjoint(n: nat, a: nat, b: nat)
    requires b < Pow2(n)
    ensures Or(a * Pow2(n), b) == a * Pow2(n) + b
  {
    if n == 0 {
      OrZero(a);
    } else {
      hide Or;
      var m := a * Pow2(n - 1);
      assert a * Pow2(n) == 2 * m;
      OrDisjoint(n - 1, a, b / 2);
      OrDouble(m, b);
    }
  }

  lemma {:induction false} AndZero(a: nat)
    ensures And(a, 0) == 0
  {
    if a != 0 {
      AndZero(a / 2);
    }
  }

  lemma AndOdd(a: nat, p: nat)
    requires p > 0
    ensures And(a, 2 * p - 1) == 2 * And(a / 2, p - 1) + a % 2
  {
    assert (2 * p - 1) / 2 == p - 1 && (2 * p - 1) % 2 == 1;
  }

  /** A mask of n ones keeps the lowest n digits. */
  lemma {:induction false} AndMask(a: nat, n: nat)
    ensures And(a, Pow2(n) - 1) == a % Pow2(n)
  {
    hide And;
    if n == 0 {
      AndZero(a);
    } else {
      var p := Pow2(n - 1);
      assert Pow2(n) == 2 * p;
      hide Pow2;
      calc {
        And(a, 2 * p - 1);
        { AndOdd(a, p); }
        2 * And(a / 2, p - 1) + a % 2;
        { AndMask(a / 2, n - 1); }
        2 * (a / 2 % p) + a % 2;
        { NestedQuotient(a, p); }
        a % (2 * p);
      }
    }
  }

  lemma {:induction false} ShrIs(a: nat, n: nat)
    ensures Shr(a, n) == a / Pow2(n)
  {
    if n > 0 {
      ShrIs(a / 2, n - 1);
      NestedQuotient(a, Pow2(n - 1));
    }
  }

  lemma {:induction false} ShlIs(a: nat, n: nat)
    ensures Shl(a, n) == a * Pow2(n)
    decreases n
  {
    if n > 0 {
      ShlIs(2 * a, n - 1);
      assert 2 * a * Pow2(n - 1) == a * (2 * Pow2(n - 1));
    }
  }

  /** Or-ing a shifted number with one that fits below it. */
  lemma OrShifted(a: nat, n: nat, b: nat)
    requires b < Pow2(n)
    ensures Or(Shl(a, n), b) == a * Pow2(n) + b
  {
    ShlIs(a, n);
    OrDisjoint(n, a, b);
  }
}
