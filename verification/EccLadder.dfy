/** Scalar multiplication of micro-ecc (deps/micro-ecc/uECC.c): the scalar is regularized to a
    fixed bit length and fed to a Montgomery ladder, here over any abelian group. */
module EccLadder {
  import opened Arith
  import opened Vli

  // ----- groups -------------------------------------------------------------------------------------

  datatype Group<!G> = Group(zero: G, add: (G, G) -> G, neg: G -> G)

  ghost predicate IsAbelian<G(!new)>(g: Group<G>) {
    && (forall a, b, c :: g.add(g.add(a, b), c) == g.add(a, g.add(b, c)))
    && (forall a, b :: g.add(a, b) == g.add(b, a))
    && (forall a :: g.add(a, g.zero) == a)
    && (forall a :: g.add(a, g.neg(a)) == g.zero)
  }

  lemma Assoc<G(!new)>(g: Group<G>, a: G, b: G, c: G)
    requires IsAbelian(g)
    ensures g.add(g.add(a, b), c) == g.add(a, g.add(b, c))
  {}

  lemma Comm<G(!new)>(g: Group<G>, a: G, b: G)
    requires IsAbelian(g)
    ensures g.add(a, b) == g.add(b, a)
  {}

  lemma Units<G(!new)>(g: Group<G>, a: G)
    requires IsAbelian(g)
    ensures g.add(a, g.zero) == a && g.add(g.zero, a) == a && g.add(a, g.neg(a)) == g.zero
  {
    Comm(g, a, g.zero);
  }

  /** k times p. */
  ghost function Times<G>(g: Group<G>, k: nat, p: G): G {
    if k == 0 then g.zero else g.add(Times(g, k - 1, p), p)
  }

  lemma {:induction false} TimesAdd<G(!new)>(g: Group<G>, j: nat, k: nat, p: G)
    requires IsAbelian(g)
    ensures Times(g, j + k, p) == g.add(Times(g, j, p), Times(g, k, p))
  {
    hide IsAbelian;
    if k == 0 {
      Units(g, Times(g, j, p));
    } else {
      TimesAdd(g, j, k - 1, p);
      Assoc(g, Times(g, j, p), Times(g, k - 1, p), p);
    }
  }

  /** Multiples of the order do not matter. */
  lemma {:induction false} TimesOrder<G(!new)>(g: Group<G>, k: nat, n: nat, c: nat, p: G)
    requires IsAbelian(g) && Times(g, n, p) == g.zero
    ensures Times(g, k + c * n, p) == Times(g, k, p)
  {
    hide IsAbelian;
    if c > 0 {
      TimesOrder(g, k, n, c - 1, p);
      MulDist(c - 1, 1, n);
      TimesAdd(g, k + (c - 1) * n, n, p);
      Units(g, Times(g, k + (c - 1) * n, p));
    }
  }

  // ----- bits of the scalar ----------------------------------------------------------------------------

  /** The bits of s from bit k up. */
  function Prefix(s: nat, k: nat): (m: nat) {
    DivLe(s, Pow2(k));
    s / Pow2(k)
  }

  function Bit(x: nat, i: nat): (b: nat)
    ensures b <= 1
  {
    Prefix(x, i) % 2
  }

  lemma DivAddMultiple(x: nat, q: nat, m: nat)
    requires m > 0
    ensures (x + q * m) / m == x / m + q
  {
    MulDist(x / m, q, m);
    DivModUnique(x + q * m, m, x / m + q, x % m);
  }

  /** Splitting x at bit i: x / 2^i in terms of the part above. */
  lemma DivSplit(lo: nat, hi: nat, i: nat)
    requires lo < Pow2(i)
    ensures (lo + hi * Pow2(i)) / Pow2(i) == hi
  {
    DivModUnique(lo + hi * Pow2(i), Pow2(i), hi, lo);
  }

  lemma BitBelow(x: nat, q: nat, k: nat, i: nat)
    requires i < k
    ensures Bit(x + q * Pow2(k), i) == Bit(x, i)
  {
    hide Pow2, Prefix;
    Pow2Add(k - i, i);
    MulAssoc(q, Pow2(k - i), Pow2(i));
    MulPow2(q, k - i);
    PrefixAdd(x, q * Pow2(k - i), i);
    EvenAdd(Prefix(x, i), q * Pow2(k - i - 1));
  }

  lemma PrefixAdd(x: nat, h: nat, i: nat)
    ensures Prefix(x + h * Pow2(i), i) == Prefix(x, i) + h
  {
    hide Pow2;
    DivAddMultiple(x, h, Pow2(i));
  }

  lemma DivAtBit(v: nat, lo: nat, hi: nat, i: nat, j: nat)
    requires v == lo + hi * Pow2(i) && lo < Pow2(i)
    ensures Prefix(v, i + j) == Prefix(hi, j)
  {
    Pow2Add(i, j);
    DivTwice(v, Pow2(i), Pow2(j));
    DivSplit(lo, hi, i);
  }

  /** Bit `bit` of the number is bit `bit % WORD_BITS` of word `bit / WORD_BITS`. */
  lemma BitOfVal(s: seq<Word>, w: nat, j: nat)
    requires w < |s| && j < WORD_BITS
    ensures Bit(Val(s), WORD_BITS * w + j) == Bit(s[w], j)
  {
    hide Val, Weight, Pow2, Prefix;
    var lo, hi, up := Val(s[..w]), Val(s[w..]), Val(s[w..][1..]);
    var i := WORD_BITS * w;
    assert Val(s) == lo + hi * Pow2(i) && lo < Pow2(i) by {
      ValSplit(s, w);
      ValBound(s[..w]);
      WeightPow2(w);
    }
    DivAtBit(Val(s), lo, hi, i, j);
    assert Bit(Val(s), i + j) == Bit(hi, j);
    hide Bit;
    assert hi == s[w] + up * Pow2(WORD_BITS) by { ValCons(s[w..]); }
    BitBelow(s[w], up, WORD_BITS, j);
  }

  lemma MaskedWord(x: Word, j: nat)
    ensures Shr(x, j) % 2 == 1 <==> Bit(x, j) == 1
  {}

  lemma DivTwice(x: nat, a: nat, b: nat)
    requires a > 0 && b > 0
    ensures a * b > 0 && x / (a * b) == (x / a) / b
  {
    MulMono(1, a, b);
    var q, r := x / a, x % a;
    var q', r' := q / b, q % b;
    assert x == q' * (a * b) + (r' * a + r) by {
      MulDist(q' * b, r', a);
      MulAssoc(q', b, a);
    }
    MulMono(r' + 1, b, a);
    MulDist(r', 1, a);
    MulMono(0, r', a);
    DivModUnique(x, a * b, q', r' * a + r);
  }

  /** uECC_vli_testBit: the masked word is non-zero when the bit is set. */
  method TestBit(a: array<Word>, bit: nat, n: nat) returns (b: bool)
    requires n <= a.Length && bit < n * WORD_BITS
    ensures b <==> Bit(Val(a[..n]), bit) == 1
  {
    var w, j := bit / WORD_BITS, bit % WORD_BITS;
    hide *;
    assert bit == WORD_BITS * w + j;
    if w >= n { MulMono(n, w, WORD_BITS); }
    BitOfVal(a[..n], w, j);
    MaskedWord(a[w], j);
    b := Shr(a[w], j) % 2 == 1;
  }

  // ----- regularize_k --------------------------------------------------------------------------------------

  /** The scalar the ladder runs on: bit `bits` is set implicitly, the lower ones are read. */
  function Implied(v: nat, bits: nat): (s: nat)
    ensures Pow2(bits) <= s < 2 * Pow2(bits)
  {
    v % Pow2(bits) + Pow2(bits)
  }

  lemma ImpliedOf(s: nat, v: nat, c: nat, bits: nat, above: nat)
    requires Pow2(bits) <= s < 2 * Pow2(bits) && v == s - c * Pow2(bits + above) && v >= 0
    ensures Implied(v, bits) == s
  {
    Pow2Add(above, bits);
    var q := c * Pow2(above);
    MulAssoc(c, Pow2(above), Pow2(bits));
    DivModUnique(v, Pow2(bits), 1 - q, s - Pow2(bits));
    MulDist(1, q, Pow2(bits));
  }

  /** regularize_k with the choice its callers make (p2[!carry]): k + n or k + 2n, whichever has
      bit `bits` as its top bit, although that bit may have been cut off by the word array. */
  method RegularizeK(k: array<Word>, n: array<Word>, bits: nat, words: nat) returns (chosen: array<Word>, ghost c: nat)
    requires words <= k.Length && words <= n.Length && words >= 1
    requires bits <= words * WORD_BITS
    requires Val(k[..words]) < Val(n[..words]) && bits >= 1
    requires Pow2(bits - 1) <= Val(n[..words]) < Pow2(bits)
    ensures fresh(chosen) && chosen.Length == words
    ensures c == if Val(k[..words]) + Val(n[..words]) >= Pow2(bits) then 1 else 2
    ensures Implied(Val(chosen[..words]), bits) == Val(k[..words]) + c * Val(n[..words])
  {
    hide Val, Weight, Pow2, Bit, Implied;
    ghost var x, m := Val(k[..words]), Val(n[..words]);
    var k0, k1 := new Word[words], new Word[words];
    var overflow := Add(k0, k, n, words);
    var carry := overflow != 0;
    PowerFacts(bits, words);
    if !carry && bits < words * WORD_BITS {
      carry := TestBit(k0, bits, words);
      BitIsTop(Val(k0[..words]), bits);
    }
    ghost var o := Val(k0[..words]);
    assert carry <==> x + m >= Pow2(bits) by { ValBound(k0[..words]); }
    var overflow2 := Add(k1, k0, n, words);
    ghost var above := words * WORD_BITS - bits;
    if carry {
      ImpliedOf(x + m, o, overflow, bits, above);
      return k0, 1;
    } else {
      ImpliedOf(x + 2 * m, Val(k1[..words]), overflow2, bits, above);
      return k1, 2;
    }
  }

  lemma PowerFacts(bits: nat, words: nat)
    requires 1 <= bits <= words * WORD_BITS
    ensures Weight(words) == Pow2(bits + (words * WORD_BITS - bits))
    ensures 2 * Pow2(bits - 1) == Pow2(bits)
    ensures Pow2(bits) <= Weight(words)
  {
    WeightPow2(words);
    Pow2Mono(bits, words * WORD_BITS);
  }

  lemma BitIsTop(v: nat, bits: nat)
    requires v < 2 * Pow2(bits)
    ensures Bit(v, bits) == 1 <==> v >= Pow2(bits)
  {
    ModOnce(v, Pow2(bits));
  }

  // ----- EccPoint_mult over a group ----------------------------------------------------------------------

  /** The two registers hold m * p and (m + 1) * p: their difference is p. */
  ghost predicate Rungs<G>(g: Group<G>, p: G, r: seq<G>, m: nat) {
    |r| == 2 && r[0] == Times(g, m, p) && r[1] == Times(g, m + 1, p)
  }

  /** XYcZ_addC: P => P - Q, Q => P + Q */
  function AddC<G>(g: Group<G>, p: G, q: G): (r: (G, G)) {
    (g.add(p, g.neg(q)), g.add(p, q))
  }

  /** XYcZ_add: P => P, Q => P + Q */
  function AddCoZ<G>(g: Group<G>, p: G, q: G): (r: (G, G)) {
    (p, g.add(p, q))
  }

  /** The two point operations of one ladder step on the registers. */
  function Step<G>(g: Group<G>, r: seq<G>, nb: nat): (s: seq<G>)
    requires |r| == 2 && nb <= 1
    ensures |s| == 2
  {
    var (d, s) := AddC(g, r[1 - nb], r[nb]);
    var (s', t) := AddCoZ(g, s, d);
    r[nb := s'][1 - nb := t]
  }

  lemma GroupCancel<G(!new)>(g: Group<G>, a: G, b: G)
    requires IsAbelian(g)
    ensures g.add(g.add(a, b), g.neg(b)) == a
    ensures g.add(b, g.neg(g.add(a, b))) == g.neg(a)
  {
    hide IsAbelian;
    Assoc(g, a, b, g.neg(b));
    Units(g, a);
    Units(g, b);
    var n := g.neg(g.add(a, b));
    // -a == -a + ((a + b) - (a + b)) == b - (a + b)
    Units(g, g.add(a, b));
    Units(g, g.neg(a));
    Assoc(g, a, b, n);
    Assoc(g, g.neg(a), a, g.add(b, n));
    Comm(g, g.neg(a), a);
    Units(g, g.add(b, n));
  }

  /** A step appends one bit to the multiple and keeps the difference of the registers. */
  lemma StepKeepsRungs<G(!new)>(g: Group<G>, p: G, r: seq<G>, m: nat, nb: nat)
    requires IsAbelian(g) && nb <= 1 && Rungs(g, p, r, m)
    ensures Rungs(g, p, Step(g, r, nb), 2 * m + 1 - nb)
  {
    hide IsAbelian;
    var a, b := Times(g, m, p), Times(g, m + 1, p);
    assert b == g.add(a, p);
    var s := Times(g, 2 * m + 1, p);
    assert s == g.add(a, b) == g.add(b, a) by {
      TimesAdd(g, m, m + 1, p);
      assert m + (m + 1) == 2 * m + 1;
      Comm(g, a, b);
    }
    Comm(g, a, p);
    GroupCancel(g, p, a);
    if nb == 0 {
      assert g.add(b, g.neg(a)) == p;
      assert Step(g, r, nb) == [s, g.add(s, p)];
    } else {
      assert g.add(a, g.neg(b)) == g.neg(p);
      var d := Times(g, 2 * m, p);
      assert s == g.add(d, p);
      GroupCancel(g, d, p);
      assert Step(g, r, nb) == [d, s];
    }
  }

  lemma NextPrefix(s: nat, i: nat)
    ensures Prefix(s, i) == 2 * Prefix(s, i + 1) + Bit(s, i)
  {
    assert Pow2(i + 1) == Pow2(i) * 2;
    DivTwice(s, Pow2(i), 2);
  }

  lemma ImpliedBit(v: nat, bits: nat, i: nat)
    requires i < bits
    ensures Bit(Implied(v, bits), i) == Bit(v, i)
  {
    hide Pow2, Bit;
    var p := Pow2(bits);
    assert v == v % p + (v / p) * p;
    BitBelow(v % p, v / p, bits, i);
    BitBelow(v % p, 1, bits, i);
  }

  lemma WholePrefix(s: nat)
    ensures Prefix(s, 0) == s
  {}
}
