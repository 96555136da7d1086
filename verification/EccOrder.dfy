/** Which scalars the ladder of micro-ecc (deps/micro-ecc/uECC.c) can multiply by: for a point of odd
    order n, exactly where its additions meet the point at infinity or two equal abscissas. */
module EccOrder {
  import opened Arith
  import opened EccLadder
  import opened EccRun

  /** The point has odd order n, and two multiples of it share an abscissa only if equal or opposite. */
  ghost predicate HasOrder<G(!new)>(c: Curve<G>, point: G, n: nat) {
    && n >= 5 && n % 2 == 1 && Times(c.group, n, point) == c.group.zero
    && (forall a: nat :: 0 < a < n ==> Times(c.group, a, point) != c.group.zero)
    && (forall a: nat, b: nat :: 0 < a < n && 0 < b < n ==> Distinguishes(c, point, n, a, b))
  }

  ghost predicate Distinguishes<G>(c: Curve<G>, point: G, n: nat, a: nat, b: nat) {
    Cong(c.x(Times(c.group, a, point)), c.x(Times(c.group, b, point)), c.p) ==> a == b || a + b == n
  }

  lemma OrderFacts<G(!new)>(c: Curve<G>, point: G, n: nat)
    requires HasOrder(c, point, n)
    ensures n >= 5 && n % 2 == 1 && Times(c.group, n, point) == c.group.zero
  {}

  /** Multiples count modulo n. */
  lemma TimesModulo<G(!new)>(c: Curve<G>, point: G, n: nat, m: nat)
    requires ChordLaw(c) && HasOrder(c, point, n)
    ensures Times(c.group, m, point) == Times(c.group, m % n, point)
  {
    hide *;
    OrderFacts(c, point, n);
    PositiveP(c);
    assert m == m % n + m / n * n;
    TimesOrder(c.group, m % n, n, m / n, point);
  }

  lemma ZeroIff<G(!new)>(c: Curve<G>, point: G, n: nat, m: nat)
    requires ChordLaw(c) && HasOrder(c, point, n)
    ensures Times(c.group, m, point) == c.group.zero <==> m % n == 0
  {
    hide ChordLaw, IsAbelian, Distinguishes;
    TimesModulo(c, point, n, m);
    var r: nat := m % n;
    assert Times(c.group, 0, point) == c.group.zero;
    if r > 0 { assert Times(c.group, r, point) != c.group.zero; }
  }

  lemma OppositeMultiple<G(!new)>(c: Curve<G>, point: G, n: nat, a: nat)
    requires ChordLaw(c) && HasOrder(c, point, n) && a <= n
    ensures Times(c.group, n - a, point) == c.group.neg(Times(c.group, a, point))
  {
    hide *;
    OrderFacts(c, point, n);
    PositiveP(c);
    TimesAdd(c.group, a, n - a, point);
    Opposite(c.group, Times(c.group, a, point), Times(c.group, n - a, point));
  }

  /** Abscissas of finite multiples agree exactly for equal or opposite multiples. */
  lemma SameAbscissa<G(!new)>(c: Curve<G>, point: G, n: nat, a: nat, b: nat)
    requires ChordLaw(c) && HasOrder(c, point, n) && 0 < a < n && 0 < b < n
    ensures Cong(c.x(Times(c.group, a, point)), c.x(Times(c.group, b, point)), c.p) <==> a == b || a + b == n
  {
    hide ChordLaw, Cong, Times;
    assert Distinguishes(c, point, n, a, b);
    if a == b {
      CongRefl(c.x(Times(c.group, a, point)), c.p);
    } else if a + b == n {
      OppositeMultiple(c, point, n, b);
      NegOf(c, Times(c.group, b, point));
    }
  }

  /** A prefix from which the next step is exceptional. */
  predicate Exceptional(m: nat, n: nat)
    requires n > 0
  {
    m % n == 0 || m % n == n - 1 || m % n == (n - 1) / 2
  }

  lemma NextResidue(m: nat, n: nat)
    requires n > 1
    ensures (m + 1) % n == if m % n == n - 1 then 0 else m % n + 1
  {
    var q, r := m / n, m % n;
    assert m == n * q + r;
    if r == n - 1 {
      MulDist(q, 1, n);
      DivModUnique(m + 1, n, q + 1, 0);
    } else {
      DivModUnique(m + 1, n, q, r + 1);
    }
  }

  /** The registers are finite with different abscissas unless the prefix is exceptional. */
  lemma ApartIff<G(!new)>(c: Curve<G>, point: G, n: nat, m: nat)
    requires ChordLaw(c) && HasOrder(c, point, n)
    ensures Apart(c, Times(c.group, m, point), Times(c.group, m + 1, point)) <==> !Exceptional(m, n)
  {
    hide ChordLaw, HasOrder, Cong, Times;
    OrderFacts(c, point, n);
    ZeroIff(c, point, n, m);
    ZeroIff(c, point, n, m + 1);
    NextResidue(m, n);
    var a: nat := m % n;
    if a != 0 && a != n - 1 {
      TimesModulo(c, point, n, m);
      TimesModulo(c, point, n, m + 1);
      SameAbscissa(c, point, n, a, a + 1);
      assert a == (n - 1) / 2 <==> a + (a + 1) == n;
    }
  }

  lemma ApartSym<G>(c: Curve<G>, a: G, b: G)
    requires Apart(c, a, b)
    ensures Apart(c, b, a)
  {
    if Cong(c.x(b), c.x(a), c.p) { CongSym(c.x(b), c.x(a), c.p); }
  }

  lemma DoubleResidue(m: nat, n: nat)
    requires n >= 5 && n % 2 == 1 && !Exceptional(m, n)
    ensures var r := (2 * m + 1) % n; r != 0 && r != 1 && r != n - 1
  {
    var q, a := m / n, m % n;
    assert m == n * q + a;
    var d := 2 * a + 1;
    assert 2 * m + 1 == 2 * q * n + d by { MulAssoc(2, q, n); }
    if d < n {
      DivModUnique(2 * m + 1, n, 2 * q, d);
    } else {
      MulDist(2 * q, 1, n);
      DivModUnique(2 * m + 1, n, 2 * q + 1, d - n);
    }
  }

  /** In the second addition of a step, the sum meets the difference, which is the point or its negative. */
  lemma SecondApart<G(!new)>(c: Curve<G>, point: G, n: nat, m: nat, nb: nat)
    requires ChordLaw(c) && HasOrder(c, point, n) && nb <= 1 && !Exceptional(m, n)
    ensures var r := Multiples(c, point, m); var (d, s) := AddC(c.group, r[1 - nb], r[nb]); !Cong(c.x(s), c.x(d), c.p)
  {
    hide *;
    OrderFacts(c, point, n);
    PositiveP(c);
    var r := Multiples(c, point, m);
    var (d, s) := AddC(c.group, r[1 - nb], r[nb]);
    SumOfRegisters(c, point, m, nb);
    MultiplesDifference(c, point, m, nb);
    DoubleResidue(m, n);
    var e: nat := (2 * m + 1) % n;
    TimesModulo(c, point, n, 2 * m + 1);
    SameAbscissa(c, point, n, e, 1);
    TimesOne(c.group, point);
    if Cong(c.x(s), c.x(d), c.p) {
      if nb == 1 {
        ZeroIff(c, point, n, 1);
        NegOf(c, point);
        CongTrans(c.x(s), c.x(d), c.x(point), c.p);
      }
    }
  }

  lemma TimesOne<G(!new)>(g: Group<G>, p: G)
    requires IsAbelian(g)
    ensures Times(g, 1, p) == p
  {
    hide IsAbelian;
    Units(g, p);
    assert Times(g, 1, p) == g.add(Times(g, 0, p), p);
  }

  lemma SumOfRegisters<G(!new)>(c: Curve<G>, point: G, m: nat, nb: nat)
    requires IsAbelian(c.group) && nb <= 1
    ensures var r := Multiples(c, point, m); AddC(c.group, r[1 - nb], r[nb]).1 == Times(c.group, 2 * m + 1, point)
  {
    hide IsAbelian, Times;
    TimesAdd(c.group, m, m + 1, point);
    assert m + (m + 1) == 2 * m + 1;
    Comm(c.group, Times(c.group, m, point), Times(c.group, m + 1, point));
  }

  /** One step from prefix m, whichever bit it appends. */
  lemma RegularIff<G(!new)>(c: Curve<G>, point: G, n: nat, m: nat, nb: nat)
    requires ChordLaw(c) && HasOrder(c, point, n) && nb <= 1
    ensures n > 0 && (Regular(c, Multiples(c, point, m), nb) <==> !Exceptional(m, n))
  {
    hide ChordLaw, HasOrder, Apart, Cong, Times, Exceptional;
    OrderFacts(c, point, n);
    ApartIff(c, point, n, m);
    var a, b := Times(c.group, m, point), Times(c.group, m + 1, point);
    if Apart(c, a, b) { ApartSym(c, a, b); }
    if Apart(c, b, a) { ApartSym(c, b, a); }
    if !Exceptional(m, n) { SecondApart(c, point, n, m, nb); }
  }

  // ----- the whole run ----------------------------------------------------------------------------------

  /** The bit length of n, and a scalar one bit longer. */
  ghost predicate Spans(n: nat, s: nat, bits: nat) {
    && bits >= 3 && n % 2 == 1 && Pow2(bits - 1) <= n < Pow2(bits)
    && Pow2(bits) <= s < 2 * Pow2(bits) && s + 1 < 3 * n
  }

  /** The scalars around 2n, whose run passes through (n - 1) / 2. */
  predicate Around(s: nat, n: nat) {
    2 * n <= s + 2 && s <= 2 * n + 1
  }

  lemma SmallPowers(bits: nat)
    requires bits >= 3
    ensures Pow2(bits) == 2 * Pow2(bits - 1) == 4 * Pow2(bits - 2) && Pow2(bits - 2) % 2 == 0 && Pow2(bits - 2) > 0
    ensures Pow2(1) == 2 && Pow2(2) == 4
  {}

  /** The prefix before the last bit, the one before that, and all earlier ones. */
  lemma LastPrefix(s: nat, n: nat, bits: nat)
    requires Spans(n, s, bits) && n >= 5
    ensures Exceptional(Prefix(s, 1), n) <==> Around(s, n)
  {
    hide Exceptional, Around;
    SmallPowers(bits);
    hide Pow2;
    HalfAround(s, n, s / 2, n / 2);
  }

  lemma HalfAround(s: nat, n: nat, m: nat, h: nat)
    requires n == 2 * h + 1 && n >= 5 && (s == 2 * m || s == 2 * m + 1) && n < s && s + 1 < 3 * n
    ensures Exceptional(m, n) <==> Around(s, n)
  {
    ModOnce(m, n);
    Halved(n, h);
  }

  lemma Halved(n: nat, h: nat)
    requires n == 2 * h + 1
    ensures (n - 1) / 2 == h
  {}

  lemma SecondLastPrefix(s: nat, n: nat, bits: nat)
    requires Spans(n, s, bits) && n >= 5
    ensures Exceptional(Prefix(s, 2), n) <==> Around(s, n)
  {
    SmallPowers(bits);
    hide Pow2;
    ModOnce(s / 4, n);
  }

  lemma EarlyPrefix(s: nat, n: nat, bits: nat, k: nat)
    requires Spans(n, s, bits) && n >= 5 && 3 <= k <= bits
    ensures !Exceptional(Prefix(s, k), n)
  {
    SmallPowers(bits);
    hide Pow2, Prefix, Exceptional;
    PrefixBounds(s, k, bits);
    SmallPrefix(Prefix(s, k), n, n / 2);
  }

  lemma SmallPrefix(m: nat, n: nat, h: nat)
    requires n == 2 * h + 1 && 1 <= m < h
    ensures !Exceptional(m, n)
  {
    ModOnce(m, n);
    Halved(n, h);
  }

  lemma PrefixBounds(s: nat, k: nat, bits: nat)
    requires 3 <= k <= bits && Pow2(bits) <= s < 8 * Pow2(bits - 2)
    ensures 1 <= Prefix(s, k) < Pow2(bits - 2)
  {
    Pow2Mono(k, bits);
    Pow2Mono(3, k);
    assert Pow2(3) == 8;
    hide Pow2;
    QuotientBounds(s, Pow2(k), Pow2(bits - 2));
  }

  lemma QuotientBounds(s: nat, q: nat, b: nat)
    requires 8 <= q <= s < 8 * b
    ensures 1 <= s / q < b
  {
    var m := s / q;
    assert s == m * q + s % q;
    if m >= b {
      MulMono(b, m, q);
      MulMono(8, q, b);
    }
  }

  /** The whole run is regular exactly for scalars not around 2n. */
  lemma RegularRunIff<G(!new)>(c: Curve<G>, point: G, n: nat, s: nat, bits: nat)
    requires ChordLaw(c) && HasOrder(c, point, n) && Spans(n, s, bits)
    ensures RegularRun(c, point, s, bits, 0) <==> !Around(s, n)
  {
    hide ChordLaw, HasOrder, Spans, Regular, Multiples, Prefix, Bit, Exceptional, Around;
    OrderFacts(c, point, n);
    LongEnough(n, s, bits);
    LastPrefix(s, n, bits);
    SecondLastPrefix(s, n, bits);
    forall k | 0 <= k < bits
      ensures Regular(c, Multiples(c, point, Prefix(s, k + 1)), 1 - Bit(s, k)) <==> !(k <= 1 && Around(s, n))
    {
      RegularIff(c, point, n, Prefix(s, k + 1), 1 - Bit(s, k));
      if k >= 2 { EarlyPrefix(s, n, bits, k + 1); }
    }
    assert !Around(s, n) || !Regular(c, Multiples(c, point, Prefix(s, 1 + 1)), 1 - Bit(s, 1));
  }

  lemma LongEnough(n: nat, s: nat, bits: nat)
    requires Spans(n, s, bits)
    ensures bits >= 3
  {}

  // ----- in terms of the key ----------------------------------------------------------------------------

  /** The keys that can be multiplied by. */
  predicate Safe(k: nat, n: nat, bits: nat) {
    2 <= k <= n - 3 || (k == 1 && n + 1 == Pow2(bits))
  }

  /** regularize_k adds n once if the sum then has bit `bits`, and twice otherwise. */
  lemma SafeIff(k: nat, n: nat, bits: nat, c: nat)
    requires k < n && n >= 5 && n % 2 == 1 && bits >= 1 && Pow2(bits - 1) <= n < Pow2(bits)
    requires c == if k + n >= Pow2(bits) then 1 else 2
    ensures Spans(n, k + c * n, bits) && (Around(k + c * n, n) <==> !Safe(k, n, bits))
  {
    assert Pow2(2) == 4;
    if bits < 3 { Pow2Mono(bits, 2); }
    SmallPowers(bits);
    hide Pow2;
    assert c * n == if c == 1 then n else n + n;
  }
}
