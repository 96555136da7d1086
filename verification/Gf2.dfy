/** Polynomials over the field of two elements, written as naturals: bit i is the coefficient of
    x^i.  Addition is bitwise exclusive-or, multiplication is the carry-less product that the
    PCLMULQDQ instruction computes. */
module Gf2 {
  import opened Arith

  function Xor(a: nat, b: nat): (r: nat)
    decreases a + b
  {
    if a == 0 then b else if b == 0 then a
    else (if a % 2 == b % 2 then 0 else 1) + 2 * Xor(a / 2, b / 2)
  }

  function Clmul(a: nat, b: nat): (r: nat)
    decreases b
  {
    if b == 0 then 0 else Xor(if b % 2 == 1 then a else 0, 2 * Clmul(a, b / 2))
  }

  // ----- exclusive-or -----------------------------------------------------------------------------

  /** The recursion, also where an operand is zero. */
  lemma XorUnfold(a: nat, b: nat)
    ensures Xor(a, b) % 2 == (if a % 2 == b % 2 then 0 else 1)
    ensures Xor(a, b) / 2 == Xor(a / 2, b / 2)
  {
    XorZero(a / 2);
    XorZero(b / 2);
    XorZero(a);
    XorZero(b);
    if a != 0 && b != 0 {
      var d, x := if a % 2 == b % 2 then 0 else 1, Xor(a / 2, b / 2);
      assert Xor(a, b) == d + 2 * x;
      hide Xor;
      HalfOf(d, x);
    } else {
      hide Xor;
    }
  }

  lemma HalfOf(d: nat, x: nat)
    requires d <= 1
    ensures (d + 2 * x) % 2 == d && (d + 2 * x) / 2 == x
  {}

  lemma XorZero(a: nat)
    ensures Xor(a, 0) == a && Xor(0, a) == a
  {}

  lemma {:induction false} XorComm(a: nat, b: nat)
    ensures Xor(a, b) == Xor(b, a)
    decreases a + b
  {
    if a != 0 && b != 0 { XorComm(a / 2, b / 2); }
  }

  lemma {:induction false} XorAssoc(a: nat, b: nat, c: nat)
    ensures Xor(Xor(a, b), c) == Xor(a, Xor(b, c))
    decreases a + b + c
  {
    if a != 0 && b != 0 && c != 0 {
      XorAssoc(a / 2, b / 2, c / 2);
      XorUnfold(a, b);
      XorUnfold(b, c);
      XorUnfold(Xor(a, b), c);
      XorUnfold(a, Xor(b, c));
    }
  }

  lemma {:induction false} XorSelf(a: nat)
    ensures Xor(a, a) == 0
  {
    if a != 0 { XorSelf(a / 2); }
  }

  /** Adding the same summand twice cancels. */
  lemma XorCancel(a: nat, b: nat)
    ensures Xor(a, Xor(a, b)) == b && Xor(Xor(a, b), b) == a
  {
    XorAssoc(a, a, b);
    XorAssoc(a, b, b);
    XorSelf(a);
    XorSelf(b);
  }

  lemma XorIsZero(a: nat, b: nat)
    ensures Xor(a, b) == 0 <==> a == b
  {
    XorSelf(a);
    if Xor(a, b) == 0 { XorCancel(a, b); }
  }

  /** Four summands may be paired the other way. */
  lemma XorPairs(a: nat, b: nat, c: nat, d: nat)
    ensures Xor(Xor(a, b), Xor(c, d)) == Xor(Xor(a, c), Xor(b, d))
  {
    XorAssoc(a, b, Xor(c, d));
    XorAssoc(b, c, d);
    XorComm(b, c);
    XorAssoc(c, b, d);
    XorAssoc(a, c, Xor(b, d));
  }

  lemma XorDouble(a: nat, b: nat)
    ensures Xor(2 * a, 2 * b) == 2 * Xor(a, b)
  {
    XorUnfold(2 * a, 2 * b);
  }

  lemma {:induction false} XorShift(a: nat, b: nat, n: nat)
    ensures Xor(a * Pow2(n), b * Pow2(n)) == Xor(a, b) * Pow2(n)
  {
    if n > 0 {
      hide Xor, Pow2;
      XorShift(a, b, n - 1);
      MulPow2(a, n);
      MulPow2(b, n);
      MulPow2(Xor(a, b), n);
      XorDouble(a * Pow2(n - 1), b * Pow2(n - 1));
    }
  }

  lemma {:induction false} XorBound(a: nat, b: nat, n: nat)
    requires a < Pow2(n) && b < Pow2(n)
    ensures Xor(a, b) < Pow2(n)
  {
    if n > 0 && a != 0 && b != 0 { XorBound(a / 2, b / 2, n - 1); }
  }

  /** Disjoint summands just add up. */
  lemma {:induction false} XorDisjoint(q: nat, r: nat, n: nat)
    requires r < Pow2(n)
    ensures Xor(q * Pow2(n), r) == q * Pow2(n) + r
  {
    if n == 0 {
      assert q * Pow2(0) == q;
    } else {
      XorDisjoint(q, r / 2, n - 1);
      hide Xor, Pow2;
      MulPow2(q, n);
      var y: nat := q * Pow2(n - 1);
      XorEven(y, r);
    }
  }

  lemma XorEven(h: nat, r: nat)
    ensures Xor(2 * h, r) == 2 * Xor(h, r / 2) + r % 2
  {}

  /** A summand below bit n does not move a top bit at n. */
  lemma {:induction false} XorTop(a: nat, b: nat, n: nat)
    requires a < Pow2(n) && Pow2(n) <= b < 2 * Pow2(n)
    ensures Pow2(n) <= Xor(a, b) < 2 * Pow2(n)
  {
    if n > 0 && a != 0 { XorTop(a / 2, b / 2, n - 1); }
  }

  // ----- carry-less product ---------------------------------------------------------------------------

  lemma {:induction false} ClmulZero(b: nat)
    ensures Clmul(0, b) == 0
  {
    if b != 0 { ClmulZero(b / 2); }
  }

  lemma {:induction false} ClmulDistLeft(a: nat, b: nat, c: nat)
    ensures Clmul(Xor(a, b), c) == Xor(Clmul(a, c), Clmul(b, c))
    decreases c
  {
    if c != 0 {
      var h := c / 2;
      ClmulDistLeft(a, b, h);
      XorDouble(Clmul(a, h), Clmul(b, h));
      var a1, b1 := if c % 2 == 1 then a else 0, if c % 2 == 1 then b else 0;
      XorPairs(a1, 2 * Clmul(a, h), b1, 2 * Clmul(b, h));
    }
  }

  lemma {:induction false} ClmulDoubleLeft(a: nat, b: nat)
    ensures Clmul(2 * a, b) == 2 * Clmul(a, b)
    decreases b
  {
    if b != 0 {
      ClmulDoubleLeft(a, b / 2);
      XorDouble(if b % 2 == 1 then a else 0, 2 * Clmul(a, b / 2));
    }
  }

  lemma ClmulDoubleRight(a: nat, b: nat)
    ensures Clmul(a, 2 * b) == 2 * Clmul(a, b)
  {}

  lemma {:induction false} ClmulDistRight(a: nat, b: nat, c: nat)
    ensures Clmul(a, Xor(b, c)) == Xor(Clmul(a, b), Clmul(a, c))
    decreases b + c
  {
    if b != 0 && c != 0 {
      ClmulDistRight(a, b / 2, c / 2);
      XorUnfold(b, c);
      var b1, c1 := if b % 2 == 1 then a else 0, if c % 2 == 1 then a else 0;
      XorPairs(b1, 2 * Clmul(a, b / 2), c1, 2 * Clmul(a, c / 2));
      XorDouble(Clmul(a, b / 2), Clmul(a, c / 2));
      XorSelf(a);
      assert Clmul(a, Xor(b, c)) == Xor(if Xor(b, c) % 2 == 1 then a else 0, 2 * Clmul(a, Xor(b, c) / 2));
    }
  }

  lemma XorHalves(b: nat)
    ensures b == Xor(b % 2, 2 * (b / 2))
  {
    assert Pow2(1) == 2;
    hide Xor, Pow2;
    XorDisjoint(b / 2, b % 2, 1);
    XorComm(b % 2, 2 * (b / 2));
  }

  lemma {:induction false} ClmulComm(a: nat, b: nat)
    ensures Clmul(a, b) == Clmul(b, a)
    decreases b
  {
    if b == 0 {
      ClmulZero(a);
    } else {
      var h, b1 := b / 2, b % 2;
      ClmulComm(a, h);
      XorHalves(b);
      assert Clmul(a, b) == Xor(if b1 == 1 then a else 0, 2 * Clmul(a, h));
      hide Xor, Clmul;
      ClmulDistLeft(b1, 2 * h, a);
      ClmulDoubleLeft(h, a);
      ClmulOne(a);
      ClmulZero(a);
    }
  }

  lemma {:induction false} ClmulOne(a: nat)
    ensures Clmul(1, a) == a && Clmul(a, 1) == a
  {
    if a != 0 {
      ClmulOne(a / 2);
      XorHalves(a);
    }
    assert Clmul(a, 1) == Xor(a, 2 * Clmul(a, 0));
  }

  lemma {:induction false} ClmulAssoc(a: nat, b: nat, c: nat)
    ensures Clmul(Clmul(a, b), c) == Clmul(a, Clmul(b, c))
    decreases c
  {
    if c != 0 {
      var h := c / 2;
      ClmulAssoc(a, b, h);
      var b1 := if c % 2 == 1 then b else 0;
      ClmulDistRight(a, b1, 2 * Clmul(b, h));
      ClmulDoubleRight(a, Clmul(b, h));
    }
  }

  /** Multiplying by x^n shifts. */
  lemma {:induction false} ClmulPow(a: nat, n: nat)
    ensures Clmul(a, Pow2(n)) == a * Pow2(n) && Clmul(Pow2(n), a) == a * Pow2(n)
  {
    if n == 0 {
      ClmulOne(a);
    } else {
      ClmulPow(a, n - 1);
      ClmulDoubleRight(a, Pow2(n - 1));
      MulAssoc(a, 2, Pow2(n - 1));
      MulAssoc(2, a, Pow2(n - 1));
    }
    ClmulComm(a, Pow2(n));
  }

  lemma ClmulShift(a: nat, b: nat, n: nat)
    ensures Clmul(a * Pow2(n), b) == Clmul(a, b) * Pow2(n)
    ensures Clmul(a, b * Pow2(n)) == Clmul(a, b) * Pow2(n)
  {
    ClmulPow(a, n);
    ClmulPow(b, n);
    ClmulPow(Clmul(a, b), n);
    ClmulAssoc(Pow2(n), a, b);
    ClmulAssoc(a, b, Pow2(n));
  }

  lemma {:induction false} ClmulBound(a: nat, b: nat, m: nat, n: nat)
    requires a < Pow2(m) && b < Pow2(n)
    ensures Clmul(a, b) < Pow2(m + n)
    decreases n
  {
    if b == 0 {
    } else {
      ClmulBound(a, b / 2, m, n - 1);
      Pow2Mono(m, m + n);
      XorBound(if b % 2 == 1 then a else 0, 2 * Clmul(a, b / 2), m + n);
    }
  }

  /** Degrees add: a product with a non-zero factor is at least as long as the other factor. */
  lemma {:induction false} ClmulDegree(p: nat, q: nat, n: nat)
    requires Pow2(n) <= p < 2 * Pow2(n) && q > 0
    ensures Clmul(p, q) >= Pow2(n)
  {
    var k := Degree(p, q, n);
    Pow2Mono(n, n + k);
  }

  lemma {:induction false} Degree(p: nat, q: nat, n: nat) returns (k: nat)
    requires Pow2(n) <= p < 2 * Pow2(n) && q > 0
    ensures Pow2(n + k) <= Clmul(p, q) < 2 * Pow2(n + k)
    decreases q
  {
    hide Clmul, Pow2;
    if q == 1 {
      ClmulOne(p);
      k := 0;
    } else {
      var j := Degree(p, q / 2, n);
      k := j + 1;
      DegreeStep(p, q, n, j);
    }
  }

  lemma DegreeStep(p: nat, q: nat, n: nat, j: nat)
    requires Pow2(n) <= p < 2 * Pow2(n) && q > 1 && Pow2(n + j) <= Clmul(p, q / 2) < 2 * Pow2(n + j)
    ensures Pow2(n + (j + 1)) <= Clmul(p, q) < 2 * Pow2(n + (j + 1))
  {
    hide Xor;
    var d := 2 * Clmul(p, q / 2);
    assert Clmul(p, q) == Xor(if q % 2 == 1 then p else 0, d);
    assert Pow2(n + (j + 1)) == 2 * Pow2(n + j);
    Pow2Mono(n, n + j);
    hide Clmul, Pow2;
    if q % 2 == 1 {
      XorTop(p, d, n + (j + 1));
    } else {
      XorZero(d);
      XorComm(0, d);
    }
  }

  // ----- multiplication by x^n, as a function of its own so that proofs can keep it closed ------------

  function Shl(a: nat, n: nat): (r: nat) {
    MulMono(0, a, Pow2(n));
    a * Pow2(n)
  }

  lemma XorShl(a: nat, b: nat, n: nat)
    ensures Xor(Shl(a, n), Shl(b, n)) == Shl(Xor(a, b), n)
  {
    XorShift(a, b, n);
  }

  lemma ShlShl(a: nat, m: nat, n: nat)
    ensures Shl(Shl(a, m), n) == Shl(a, m + n)
  {
    Pow2Add(m, n);
    MulAssoc(a, Pow2(m), Pow2(n));
  }

  lemma ShlZero(n: nat)
    ensures Shl(0, n) == 0
  {}

  lemma ClmulShl(a: nat, b: nat, n: nat)
    ensures Clmul(Shl(a, n), b) == Shl(Clmul(a, b), n)
    ensures Clmul(a, Shl(b, n)) == Shl(Clmul(a, b), n)
  {
    ClmulShift(a, b, n);
  }

  lemma EqShl(a: nat, b: nat, n: nat, p: nat)
    requires EqMod(a, b, p)
    ensures EqMod(Shl(a, n), Shl(b, n), p)
  {
    EqMul(a, b, Pow2(n), p);
    ClmulPow(a, n);
    ClmulPow(b, n);
  }

  lemma EqCancelShl(a: nat, b: nat, n: nat, p: nat)
    requires p % 2 == 1 && EqMod(Shl(a, n), Shl(b, n), p)
    ensures EqMod(a, b, p)
  {
    EqCancelPow(a, b, n, p);
  }

  // ----- congruence modulo a polynomial -------------------------------------------------------------------

  ghost predicate Multiple(x: nat, p: nat) {
    exists q :: x == Clmul(q, p)
  }

  /** a and b differ by a multiple of p. */
  ghost predicate EqMod(a: nat, b: nat, p: nat) {
    Multiple(Xor(a, b), p)
  }

  lemma EqIntro(a: nat, b: nat, q: nat, p: nat)
    requires a == Xor(b, Clmul(q, p))
    ensures EqMod(a, b, p) && EqMod(b, a, p)
  {
    XorComm(b, Clmul(q, p));
    XorCancel(Clmul(q, p), b);
    XorCancel(b, Clmul(q, p));
  }

  lemma EqRefl(a: nat, p: nat)
    ensures EqMod(a, a, p)
  {
    XorSelf(a);
    ClmulZero(p);
    assert Multiple(0, p);
  }

  lemma EqSym(a: nat, b: nat, p: nat)
    requires EqMod(a, b, p)
    ensures EqMod(b, a, p)
  {
    XorComm(a, b);
  }

  lemma EqXor(a: nat, b: nat, c: nat, d: nat, p: nat)
    requires EqMod(a, b, p) && EqMod(c, d, p)
    ensures EqMod(Xor(a, c), Xor(b, d), p)
  {
    var q :| Xor(a, b) == Clmul(q, p);
    var r :| Xor(c, d) == Clmul(r, p);
    XorPairs(a, c, b, d);
    ClmulDistLeft(q, r, p);
    assert Xor(Xor(a, c), Xor(b, d)) == Clmul(Xor(q, r), p);
  }

  lemma EqTrans(a: nat, b: nat, c: nat, p: nat)
    requires EqMod(a, b, p) && EqMod(b, c, p)
    ensures EqMod(a, c, p)
  {
    EqXor(a, b, b, c, p);
    XorPairs(a, b, b, c);
    XorSelf(b);
    XorAssoc(a, b, Xor(b, c));
    XorCancel(b, c);
    var q :| Xor(Xor(a, b), Xor(b, c)) == Clmul(q, p);
    assert Xor(a, c) == Clmul(q, p);
  }

  lemma EqMul(a: nat, b: nat, c: nat, p: nat)
    requires EqMod(a, b, p)
    ensures EqMod(Clmul(a, c), Clmul(b, c), p) && EqMod(Clmul(c, a), Clmul(c, b), p)
  {
    var q :| Xor(a, b) == Clmul(q, p);
    ClmulDistLeft(a, b, c);
    ClmulComm(Clmul(q, p), c);
    ClmulAssoc(c, q, p);
    assert Xor(Clmul(a, c), Clmul(b, c)) == Clmul(Clmul(c, q), p);
    ClmulComm(a, c);
    ClmulComm(b, c);
  }

  lemma ClmulParity(p: nat, q: nat)
    requires p % 2 == 1
    ensures Clmul(p, q) % 2 == q % 2
  {
    if q != 0 { XorUnfold(if q % 2 == 1 then p else 0, 2 * Clmul(p, q / 2)); }
  }

  /** x may be cancelled modulo a polynomial with a constant term. */
  lemma EqHalve(a: nat, b: nat, p: nat)
    requires p % 2 == 1 && EqMod(2 * a, 2 * b, p)
    ensures EqMod(a, b, p)
  {
    hide Clmul, Xor;
    XorDouble(a, b);
    var q: nat :| Xor(2 * a, 2 * b) == Clmul(q, p);
    ClmulComm(q, p);
    ClmulParity(p, q);
    var h := q / 2;
    ClmulDoubleRight(p, h);
    ClmulComm(p, h);
    assert Xor(a, b) == Clmul(h, p);
  }

  lemma {:induction false} EqCancelPow(a: nat, b: nat, n: nat, p: nat)
    requires p % 2 == 1 && EqMod(a * Pow2(n), b * Pow2(n), p)
    ensures EqMod(a, b, p)
  {
    if n > 0 {
      var h := Pow2(n - 1);
      MulAssoc(a, 2, h);
      MulAssoc(2, a, h);
      MulAssoc(b, 2, h);
      MulAssoc(2, b, h);
      EqHalve(a * h, b * h, p);
      EqCancelPow(a, b, n - 1, p);
    }
  }

  /** Congruent polynomials below the degree of p are equal. */
  lemma EqUnique(a: nat, b: nat, n: nat, p: nat)
    requires Pow2(n) <= p < 2 * Pow2(n) && a < Pow2(n) && b < Pow2(n) && EqMod(a, b, p)
    ensures a == b
  {
    var q :| Xor(a, b) == Clmul(q, p);
    XorBound(a, b, n);
    ClmulComm(q, p);
    if q > 0 { ClmulDegree(p, q, n); }
    XorIsZero(a, b);
  }
}
