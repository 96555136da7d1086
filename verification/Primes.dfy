/** Prime moduli: a product vanishes only if a factor does. */
module Primes {
  import opened Arith
  import opened VliInv

  ghost predicate IsPrime(p: nat) {
    p > 1 && forall d :: 1 < d < p ==> !Divides(d, p)
  }

  /** Euclid: a common divisor that is a combination of both numbers. */
  lemma {:induction false} Bezout(a: nat, b: nat) returns (g: nat, u: int, v: int)
    requires a > 0 || b > 0
    ensures g > 0 && Divides(g, a) && Divides(g, b) && g == u * a + v * b
    decreases b
  {
    if b == 0 {
      g, u, v := a, 1, 0;
      DividesIntro(a, 1);
      DividesIntro(a, 0);
    } else {
      var q, r := a / b, a % b;
      var u', v';
      g, u', v' := Bezout(b, r);
      u, v := v', u' - v' * q;
      DividesMul(g, b, q);
      DividesSum(g, q * b, r);
      assert a == q * b + r;
      MulDist(u', v' * q, b);
      MulAssoc(v', q, b);
      MulDist(q * b, r, v');
    }
  }

  lemma DividesNeg(d: int, x: int)
    requires Divides(d, x)
    ensures Divides(d, -x)
  {
    DividesMul(d, x, -1);
  }

  lemma DivisorOfPrime(g: nat, p: nat)
    requires IsPrime(p) && g > 0 && Divides(g, p)
    ensures g == 1 || g == p
  {
    DividesBound(g, p);
  }

  /** A multiple of p that is b times a unit: b is one already. */
  lemma CancelUnit(n: nat, b: int, p: nat, u: int, v: int)
    requires 1 == u * n + v * p && Divides(p, n * b)
    ensures Divides(p, b)
  {
    hide Divides;
    MulDist(u * n, v * p, b);
    MulAssoc(u, n, b);
    MulAssoc(p, v, b);
    DividesMul(p, n * b, u);
    DividesIntro(p, v * b);
    DividesSum(p, u * (n * b), p * (v * b));
    assert u * (n * b) + p * (v * b) == b;
  }

  /** Euclid's lemma. */
  lemma PrimeSplits(a: int, b: int, p: nat)
    requires IsPrime(p) && Divides(p, a * b)
    ensures Divides(p, a) || Divides(p, b)
    decreases a < 0
  {
    hide IsPrime, Divides;
    if a == 0 {
      DividesIntro(p, 0);
    } else if a > 0 {
      var g, u, v := Bezout(a, p);
      DivisorOfPrime(g, p);
      if g == 1 { CancelUnit(a, b, p, u, v); }
    } else {
      DividesNeg(p, a * b);
      assert -(a * b) == -a * b;
      PrimeSplits(-a, b, p);
      if Divides(p, -a) { DividesNeg(p, -a); }
    }
  }

  /** Not zero modulo p. */
  ghost predicate Nonzero(a: int, p: nat) {
    !Cong(a, 0, p)
  }

  lemma NonzeroProduct(a: int, b: int, p: nat)
    requires IsPrime(p) && Nonzero(a, p) && Nonzero(b, p)
    ensures Nonzero(a * b, p)
  {
    if Divides(p, a * b) { PrimeSplits(a, b, p); }
  }

  lemma NonzeroCong(a: int, b: int, p: nat)
    requires Nonzero(a, p) && Cong(a, b, p)
    ensures Nonzero(b, p)
  {
    if Cong(b, 0, p) { CongTrans(a, b, 0, p); }
  }

  /** What modInv makes of a number that is not zero modulo a prime. */
  lemma InverseOfNonzero(r: nat, x: nat, p: nat, g: int)
    requires IsPrime(p) && Nonzero(x, p) && IsGcd(g, x, p) && Cong(r * x, g, p)
    ensures Cong(r * x, 1, p)
  {
    DivisorOfPrime(g, p);
  }
}
