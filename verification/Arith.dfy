/** Integer facts shared by the models: powers of two, divisibility and congruence.
    Non-linear steps are kept here, one at a time, so that the other modules stay linear. */
module Arith {

  function Pow2(n: nat): (r: nat)
    ensures r >= 1
  {
    if n == 0 then 1 else 2 * Pow2(n - 1)
  }

  lemma {:induction false} Pow2Mono(a: nat, b: nat)
    requires a <= b
    ensures Pow2(a) <= Pow2(b)
    ensures a < b ==> 2 * Pow2(a) <= Pow2(b)
    decreases b - a
  {
    if a < b { Pow2Mono(a, b - 1); }
  }

  lemma {:induction false} Pow2Add(a: nat, b: nat)
    ensures Pow2(a + b) == Pow2(a) * Pow2(b)
  {
    if b > 0 {
      Pow2Add(a, b - 1);
      assert Pow2(a + b) == 2 * (Pow2(a) * Pow2(b - 1));
      MulAssoc(2, Pow2(a), Pow2(b - 1));
      MulAssoc(Pow2(a), 2, Pow2(b - 1));
    }
  }

  lemma MulAssoc(a: int, b: int, c: int)
    ensures (a * b) * c == a * (b * c)
  {}

  lemma MulMono(a: nat, b: nat, c: nat)
    requires a <= b
    ensures a * c <= b * c && c * a <= c * b
  {}

  lemma MulDist(a: int, b: int, c: int)
    ensures (a + b) * c == a * c + b * c
    ensures (a - b) * c == a * c - b * c
    ensures c * (a + b) == c * a + c * b
    ensures c * (a - b) == c * a - c * b
  {}

  /** Quotient and remainder are determined by the usual equation. */
  lemma DivModUnique(x: int, m: int, q: int, r: int)
    requires m > 0 && 0 <= r < m && x == q * m + r
    ensures x / m == q && x % m == r
  {
    var q', r' := x / m, x % m;
    assert x == q' * m + r';
    assert (q - q') * m == r' - r by { MulDist(q, q', m); }
    if q > q' {
      MulMono(1, q - q', m);
    } else if q < q' {
      MulMono(1, q' - q, m);
    }
  }

  lemma DivMod(x: int, m: int)
    requires m > 0
    ensures 0 <= x % m < m && x == (x / m) * m + x % m
    ensures x >= 0 ==> 0 <= x / m
  {}

  lemma DivBound(x: nat, m: nat, k: nat)
    requires m > 0 && x < k * m
    ensures 0 <= x / m < k
  {
    var q := x / m;
    DivMod(x, m);
    if q >= k { MulMono(k, q, m); }
  }

  /** Moving x left by p = 2^s in words of b = m * p: what falls out and what stays. */
  lemma ShiftSplit(x: nat, m: nat, p: nat, b: nat)
    requires m > 0 && p > 0 && b == m * p && x < b
    ensures 0 <= x / m < p && (x * p) % b == (x % m) * p && x * p == (x / m) * b + (x % m) * p
    ensures 0 <= (x % m) * p <= b - p
  {
    var q, r := x / m, x % m;
    DivMod(x, m);
    DivBound(x, m, p);
    assert x * p == q * b + r * p by {
      MulDist(q * m, r, p);
      MulAssoc(q, m, p);
    }
    assert r * p <= b - p by {
      MulMono(r, m - 1, p);
      MulDist(m, 1, p);
    }
    DivModUnique(x * p, b, q, r * p);
  }

  /** The remainder modulo 2p out of the remainder modulo p and the bit above it. */
  lemma NextRemainder(x: nat, p: nat)
    requires p > 0
    ensures x % (2 * p) == ((x / p) % 2) * p + x % p
  {
    var q, r := x / p, x % p;
    DivMod(x, p);
    HalveFactor(q, p);
    DivModUnique(x, 2 * p, q / 2, (q % 2) * p + r);
  }

  lemma HalveFactor(q: nat, p: nat)
    ensures q * p == (q / 2) * (2 * p) + (q % 2) * p && 0 <= (q % 2) * p <= p
  {
    var k, b := q / 2, q % 2;
    MulDist(2 * k, b, p);
    MulAssoc(k, 2, p);
    MulMono(b, 1, p);
  }

  lemma MulPow2(a: nat, n: nat)
    requires n > 0
    ensures a * Pow2(n) == 2 * (a * Pow2(n - 1)) && 0 <= a * Pow2(n - 1)
  {
    MulMono(0, a, Pow2(n - 1));
    MulAssoc(a, 2, Pow2(n - 1));
  }

  lemma ModOnce(x: int, m: int)
    requires m > 0 && 0 <= x < 2 * m
    ensures x % m == if x < m then x else x - m
    ensures x / m == if x < m then 0 else 1
  {
    DivModUnique(x, m, if x < m then 0 else 1, if x < m then x else x - m);
  }

  ghost predicate Divides(d: int, x: int) {
    exists q :: x == d * q
  }

  lemma DividesIntro(d: int, q: int)
    ensures Divides(d, d * q)
  {}

  lemma DividesSum(d: int, x: int, y: int)
    requires Divides(d, x) && Divides(d, y)
    ensures Divides(d, x + y) && Divides(d, x - y)
  {
    var p :| x == d * p;
    var q :| y == d * q;
    MulDist(p, q, d);
    DividesIntro(d, p + q);
    DividesIntro(d, p - q);
  }

  lemma DividesMul(d: int, x: int, k: int)
    requires Divides(d, x)
    ensures Divides(d, x * k) && Divides(d, k * x)
  {
    var p :| x == d * p;
    MulAssoc(d, p, k);
    DividesIntro(d, p * k);
  }

  lemma DividesBound(d: int, x: int)
    requires d > 0 && x > 0 && Divides(d, x)
    ensures d <= x
  {
    var p :| x == d * p;
    if p >= 1 { MulMono(1, p, d); }
  }

  /** x and y differ by a multiple of m. */
  ghost predicate Cong(x: int, y: int, m: int) {
    Divides(m, x - y)
  }

  lemma CongRefl(x: int, m: int)
    ensures Cong(x, x, m)
  {
    DividesIntro(m, 0);
  }

  lemma CongTrans(x: int, y: int, z: int, m: int)
    requires Cong(x, y, m) && Cong(y, z, m)
    ensures Cong(x, z, m)
  {
    DividesSum(m, x - y, y - z);
  }

  lemma CongSym(x: int, y: int, m: int)
    requires Cong(x, y, m)
    ensures Cong(y, x, m)
  {
    var q :| x - y == m * q;
    DividesIntro(m, -q);
    assert m * -q == -(m * q);
  }

  lemma CongAdd(a: int, b: int, c: int, d: int, m: int)
    requires Cong(a, b, m) && Cong(c, d, m)
    ensures Cong(a + c, b + d, m) && Cong(a - c, b - d, m)
  {
    DividesSum(m, a - b, c - d);
  }

  lemma CongMul(a: int, b: int, c: int, d: int, m: int)
    requires Cong(a, b, m) && Cong(c, d, m)
    ensures Cong(a * c, b * d, m)
  {
    DividesMul(m, a - b, c);
    DividesMul(m, c - d, b);
    MulDist(a, b, c);
    MulDist(c, d, b);
    DividesSum(m, (a - b) * c, b * (c - d));
  }

  lemma CongOffset(x: int, k: int, m: int)
    ensures Cong(x + m * k, x, m) && Cong(x - m * k, x, m)
  {
    DividesIntro(m, k);
    DividesIntro(m, -k);
    assert m * -k == -(m * k);
  }

  lemma CongMod(x: int, m: int)
    requires m > 0
    ensures Cong(x, x % m, m) && Cong(x % m, x, m)
  {
    assert x == m * (x / m) + x % m;
    CongOffset(x % m, x / m, m);
    CongSym(x, x % m, m);
  }

  /** Congruent residues below the modulus are equal. */
  lemma CongUnique(x: int, y: int, m: int)
    requires m > 0 && 0 <= x < m && 0 <= y < m && Cong(x, y, m)
    ensures x == y
  {
    if x > y { DividesBound(m, x - y); }
    if y > x { CongSym(x, y, m); DividesBound(m, y - x); }
  }

  /** Two may be cancelled modulo an odd number. */
  lemma HalveModOdd(x: int, m: int)
    requires m % 2 == 1 && Divides(m, 2 * x)
    ensures Divides(m, x)
  {
    var q :| 2 * x == m * q;
    var h := m / 2;
    assert m * q == 2 * (h * q) + q by { MulDist(2 * h, 1, q); MulAssoc(2, h, q); }
    var r := q / 2;
    assert q == 2 * r;
    assert m * q == 2 * (m * r) by { MulAssoc(m, 2, r); MulAssoc(2, m, r); }
    DividesIntro(m, r);
  }
}
