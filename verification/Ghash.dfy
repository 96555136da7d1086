/** GHASH in lib/fusion.c: 128-bit registers, Karatsuba products, a reflected reduction, a table of
    powers of H, and one reduction at the end; against the multiplication and GHASH of
    NIST SP 800-38D (sections 6.3 and 6.4). */
module Ghash {
  import opened Arith
  import opened Gf2

  // ----- registers -----------------------------------------------------------------------------------

  /** 64 and 0xc200000000000000 (the upper half of `poly`: x^63 + x^62 + x^57).  Bounds in place of
      equations keep the verifier from computing with them. */
  type HalfWidth = n: nat | 63 < n < 65 witness 64
  type PolyHalf = c: nat | 0xc1ffffffffffffff < c < 0xc200000000000001 witness 0xc200000000000000

  const HALF: HalfWidth
  const POLY_HI: PolyHalf
  const FULL: nat := HALF + HALF

  /** The value of a __m128i as a 128-bit little-endian number. */
  type Reg = x: nat | x < Pow2(FULL)

  function Lo(x: Reg): (h: nat)
    ensures h < Pow2(HALF)
  {
    x % Pow2(HALF)
  }

  function Hi(x: Reg): (h: nat)
    ensures h < Pow2(HALF) && x == h * Pow2(HALF) + Lo(x)
  {
    HiBound(x);
    x / Pow2(HALF)
  }

  lemma HiBound(x: Reg)
    ensures 0 <= x / Pow2(HALF) < Pow2(HALF)
  {
    hide Pow2;
    Pow2Add(HALF, HALF);
    var q := x / Pow2(HALF);
    Quotient(x, Pow2(HALF));
    if q >= Pow2(HALF) { MulMono(Pow2(HALF), q, Pow2(HALF)); }
  }

  lemma Quotient(x: nat, m: nat)
    requires m > 0
    ensures 0 <= x / m && (x / m) * m <= x
  {}

  lemma JoinFacts(hi: nat, lo: nat)
    requires hi < Pow2(HALF) && lo < Pow2(HALF)
    ensures var x := hi * Pow2(HALF) + lo;
            0 <= x < Pow2(FULL) && x / Pow2(HALF) == hi && x % Pow2(HALF) == lo
  {
    hide Pow2;
    Pow2Add(HALF, HALF);
    MulMono(hi + 1, Pow2(HALF), Pow2(HALF));
    MulDist(hi, 1, Pow2(HALF));
    DivModUnique(hi * Pow2(HALF) + lo, Pow2(HALF), hi, lo);
  }

  function Join(hi: nat, lo: nat): (x: Reg)
    requires hi < Pow2(HALF) && lo < Pow2(HALF)
    ensures Lo(x) == lo && Hi(x) == hi && x == hi * Pow2(HALF) + lo
  {
    JoinFacts(hi, lo);
    hi * Pow2(HALF) + lo
  }

  /** _mm_xor_si128 */
  function XorReg(x: Reg, y: Reg): (r: Reg) {
    XorBound(x, y, FULL);
    Xor(x, y)
  }

  /** _mm_clmulepi64_si128 on the selected halves */
  function ClmulHalf(a: nat, b: nat): (r: Reg)
    requires a < Pow2(HALF) && b < Pow2(HALF)
  {
    ClmulBound(a, b, HALF, HALF);
    Clmul(a, b)
  }

  /** _mm_shuffle_epi32(x, 78): the halves change places */
  function Swap(x: Reg): (r: Reg) {
    Join(Lo(x), Hi(x))
  }

  /** _mm_slli_si128(x, 8) and _mm_srli_si128(x, 8) */
  function Up(x: Reg): (r: Reg) {
    Join(Lo(x), 0)
  }

  function Down(x: Reg): (r: Reg) {
    Join(0, Hi(x))
  }

  // ----- the reflected modulus ----------------------------------------------------------------------------

  /** x^128 + x^127 + x^126 + x^121 + 1, the field polynomial with its bits reflected. */
  function Modulus(): (p: nat)
    ensures p % 2 == 1 && Pow2(FULL) <= p < 2 * Pow2(FULL)
  {
    ModulusFacts();
    Pow2(FULL) + POLY_HI * Pow2(HALF) + 1
  }

  lemma ModulusFacts()
    ensures POLY_HI < Pow2(HALF) && Pow2(HALF) % 2 == 0 && Pow2(HALF) >= 2
    ensures (Pow2(FULL) + POLY_HI * Pow2(HALF) + 1) % 2 == 1
    ensures POLY_HI * Pow2(HALF) + 1 < Pow2(FULL)
  {
    Powers();
  }

  lemma Powers()
    ensures Pow2(HALF) == 0x1_0000_0000_0000_0000
    ensures Pow2(FULL) == 0x1_0000_0000_0000_0000_0000_0000_0000_0000
  {
    assert Pow2(8) == 256;
    var e: nat :| e == 8;
    hide Pow2;
    Doubled(e, 0x100, 0x1_0000);
    Doubled(2 * e, 0x1_0000, 0x1_0000_0000);
    Doubled(4 * e, 0x1_0000_0000, 0x1_0000_0000_0000_0000);
    assert HALF == 8 * e;
    Doubled(HALF, 0x1_0000_0000_0000_0000, 0x1_0000_0000_0000_0000_0000_0000_0000_0000);
  }

  lemma Doubled(e: nat, v: nat, w: nat)
    requires Pow2(e) == v && w == v * v
    ensures Pow2(2 * e) == w
  {
    Pow2Add(e, e);
  }

  /** a * modulus, written out. */
  lemma TimesModulus(a: nat)
    ensures Clmul(a, Modulus()) == Xor(Xor(Shl(a, FULL), Shl(Clmul(a, POLY_HI), HALF)), a)
  {
    hide Clmul, Xor, Pow2;
    ModulusFacts();
    var c := POLY_HI * Pow2(HALF);
    XorDisjoint(POLY_HI, 1, HALF);
    XorDisjoint(1, c + 1, FULL);
    assert Modulus() == Xor(Pow2(FULL), Xor(c, 1));
    ClmulDistRight(a, Pow2(FULL), Xor(c, 1));
    ClmulDistRight(a, c, 1);
    ClmulPow(a, FULL);
    ClmulShift(a, POLY_HI, HALF);
    ClmulOne(a);
    XorAssoc(Shl(a, FULL), Shl(Clmul(a, POLY_HI), HALF), a);
  }

  /** A register is its high half times x^64 plus its low half. */
  lemma Halves(x: Reg)
    ensures x == Xor(Shl(Hi(x), HALF), Lo(x)) && Swap(x) == Xor(Shl(Lo(x), HALF), Hi(x))
    ensures Up(x) == Shl(Lo(x), HALF) && Down(x) == Hi(x)
  {
    hide Xor, Pow2;
    XorDisjoint(Hi(x), Lo(x), HALF);
    XorDisjoint(Lo(x), Hi(x), HALF);
  }

  lemma PolyFits()
    ensures POLY_HI < Pow2(HALF)
  {
    ModulusFacts();
  }

  // ----- reduction ---------------------------------------------------------------------------------------

  /** One round of the reduction: the low half is folded into the rest. */
  function Fold(x: Reg): (r: Reg) {
    PolyFits();
    XorReg(Swap(x), ClmulHalf(Lo(x), POLY_HI))
  }

  /** A fold divides by x^64 after adding a multiple of the modulus. */
  lemma FoldExact(x: Reg)
    ensures Shl(Fold(x), HALF) == Xor(x, Clmul(Lo(x), Modulus()))
  {
    hide Clmul, Xor, Shl, Pow2, Modulus, Lo, Hi, Swap;
    PolyFits();
    var l, h := Lo(x), Hi(x);
    var c := Clmul(l, POLY_HI);
    Halves(x);
    // (l x^64 + h + c) x^64 == l x^128 + h x^64 + c x^64
    XorShl(Swap(x), c, HALF);
    XorShl(Shl(l, HALF), h, HALF);
    ShlShl(l, HALF, HALF);
    TimesModulus(l);
    XorRearrange(Shl(l, FULL), Shl(h, HALF), Shl(c, HALF), l);
  }

  lemma XorRearrange(a: nat, b: nat, c: nat, l: nat)
    ensures Xor(Xor(a, b), c) == Xor(Xor(b, l), Xor(Xor(a, c), l))
  {
    hide Xor;
    XorAssoc(b, l, Xor(Xor(a, c), l));
    XorComm(Xor(a, c), l);
    XorCancel(l, Xor(a, c));
    XorAssoc(b, a, c);
    XorComm(b, a);
  }

  /** The reduction at the end of gfmul and gfmul_final. */
  function Reduce(hi: Reg, lo: Reg): (r: Reg) {
    XorReg(hi, Fold(Fold(lo)))
  }

  /** Reduce divides the 256-bit number hi:lo by x^128, modulo the modulus. */
  lemma ReduceExact(hi: Reg, lo: Reg)
    ensures EqMod(Shl(Reduce(hi, lo), FULL), Xor(Shl(hi, FULL), lo), Modulus())
  {
    hide Clmul, Xor, Shl, Pow2, Modulus, Lo, Hi, Fold, EqMod;
    var p := Modulus();
    var f := Fold(lo);
    var g := Fold(f);
    FoldExact(lo);
    FoldExact(f);
    ShlShl(g, HALF, HALF);
    // g x^128 == (f + Lo(f) p) x^64 == f x^64 + (Lo(f) x^64) p
    XorShl(f, Clmul(Lo(f), p), HALF);
    ClmulShl(Lo(f), p, HALF);
    var t := Shl(Lo(f), HALF);
    XorAssoc(lo, Clmul(Lo(lo), p), Clmul(t, p));
    ClmulDistLeft(Lo(lo), t, p);
    var q := Xor(Lo(lo), t);
    XorShl(hi, g, FULL);
    XorAssoc(Shl(hi, FULL), lo, Clmul(q, p));
    EqIntro(Shl(Reduce(hi, lo), FULL), Xor(Shl(hi, FULL), lo), q, p);
  }

  // ----- Karatsuba products -----------------------------------------------------------------------------

  /** struct ptls_fusion_gfmul_state */
  datatype GState = GState(hi: Reg, lo: Reg, mid: Reg)

  const EMPTY := GState(0, 0, 0)

  /** The unreduced 256-bit number a state stands for. */
  ghost function Sum(g: GState): (v: nat) {
    Xor(Xor(Shl(g.hi, FULL), Shl(Xor(g.mid, Xor(g.hi, g.lo)), HALF)), g.lo)
  }

  /** ptls_fusion_aesgcm_ghash_precompute */
  datatype Precompute = Precompute(h: Reg, r: Reg)

  /** setup_one_ghash_entry: r is the exclusive-or of the halves of h. */
  function Entry(h: Reg): (e: Precompute) {
    Precompute(h, XorReg(Swap(h), h))
  }

  /** gfmul_onestep: three half-size products, nothing reduced. */
  function OneStep(g: GState, x: Reg, e: Precompute): (g': GState) {
    GState(XorReg(g.hi, ClmulHalf(Hi(e.h), Hi(x))),
           XorReg(g.lo, ClmulHalf(Lo(e.h), Lo(x))),
           XorReg(g.mid, ClmulHalf(Lo(e.r), Lo(XorReg(Swap(x), x)))))
  }

  /** gfmul_final without the tag mask: the middle products are spread and the sum is reduced. */
  function Final(g: GState): (r: Reg) {
    var mid := XorReg(XorReg(g.mid, g.hi), g.lo);
    Reduce(XorReg(g.hi, Down(mid)), XorReg(g.lo, Up(mid)))
  }

  lemma LoOfXor(x: Reg, y: Reg)
    ensures Lo(XorReg(x, y)) == Xor(Lo(x), Lo(y))
    ensures Hi(XorReg(x, y)) == Xor(Hi(x), Hi(y))
  {
    hide Xor, Pow2, Shl;
    Halves(x);
    Halves(y);
    XorPairs(Shl(Hi(x), HALF), Lo(x), Shl(Hi(y), HALF), Lo(y));
    XorShl(Hi(x), Hi(y), HALF);
    XorBound(Lo(x), Lo(y), HALF);
    XorBound(Hi(x), Hi(y), HALF);
    Recompose(Xor(Hi(x), Hi(y)), Xor(Lo(x), Lo(y)), XorReg(x, y));
  }

  lemma Recompose(h: nat, l: nat, x: Reg)
    requires h < Pow2(HALF) && l < Pow2(HALF) && x == Xor(Shl(h, HALF), l)
    ensures Hi(x) == h && Lo(x) == l
  {
    hide Xor, Pow2;
    XorDisjoint(h, l, HALF);
    JoinFacts(h, l);
  }

  lemma FoldedHalves(x: Reg)
    ensures Lo(XorReg(Swap(x), x)) == Xor(Hi(x), Lo(x))
  {
    hide Xor, Pow2;
    LoOfXor(Swap(x), x);
  }

  /** Karatsuba: the three half-size products make up the full product. */
  lemma Karatsuba(x: Reg, y: Reg)
    ensures var h, l := Clmul(Hi(x), Hi(y)), Clmul(Lo(x), Lo(y));
            var m := Clmul(Xor(Hi(x), Lo(x)), Xor(Hi(y), Lo(y)));
            Clmul(x, y) == Xor(Xor(Shl(h, FULL), Shl(Xor(m, Xor(h, l)), HALF)), l)
  {
    hide Clmul, Xor, Shl, Pow2, Lo, Hi;
    var a, b, c, d := Hi(x), Lo(x), Hi(y), Lo(y);
    var h, l, s, t := Clmul(a, c), Clmul(b, d), Clmul(a, d), Clmul(b, c);
    Halves(x);
    Halves(y);
    // (a x^64 + b) (c x^64 + d)
    var au, cu := Shl(a, HALF), Shl(c, HALF);
    ClmulDistLeft(au, b, y);
    ClmulDistRight(au, cu, d);
    ClmulDistRight(b, cu, d);
    ClmulShl(a, cu, HALF);
    ClmulShl(a, c, HALF);
    ShlShl(h, HALF, HALF);
    ClmulShl(a, d, HALF);
    ClmulShl(b, c, HALF);
    XorShl(s, t, HALF);
    FourWay(Shl(h, FULL), Shl(s, HALF), Shl(t, HALF), l);
    MiddleTerm(a, b, c, d);
  }

  /** The middle product less the outer ones is the sum of the cross products. */
  lemma MiddleTerm(a: nat, b: nat, c: nat, d: nat)
    ensures Xor(Clmul(Xor(a, b), Xor(c, d)), Xor(Clmul(a, c), Clmul(b, d))) == Xor(Clmul(a, d), Clmul(b, c))
  {
    hide Clmul, Xor;
    ClmulDistLeft(a, b, Xor(c, d));
    ClmulDistRight(a, c, d);
    ClmulDistRight(b, c, d);
    CrossTerms(Clmul(a, c), Clmul(a, d), Clmul(b, c), Clmul(b, d));
  }

  lemma CrossTerms(h: nat, s: nat, t: nat, l: nat)
    ensures Xor(Xor(Xor(h, s), Xor(t, l)), Xor(h, l)) == Xor(s, t)
  {
    hide Xor;
    XorPairs(h, s, t, l);
    XorComm(t, l);
    XorPairs(h, s, l, t);
    XorComm(Xor(h, l), Xor(s, t));
    XorCancel(Xor(s, t), Xor(h, l));
  }

  lemma FourWay(a: nat, b: nat, c: nat, d: nat)
    ensures Xor(Xor(a, b), Xor(c, d)) == Xor(Xor(a, Xor(b, c)), d)
  {
    hide Xor;
    XorAssoc(Xor(a, b), c, d);
    XorAssoc(a, b, c);
  }

  lemma EmptySum()
    ensures Sum(EMPTY) == 0
  {
    ShlZero(FULL);
    ShlZero(HALF);
  }

  /** A step adds the full product of the entry's power and the block. */
  lemma OneStepAdds(g: GState, x: Reg, e: Precompute)
    requires e == Entry(e.h)
    ensures Sum(OneStep(g, x, e)) == Xor(Sum(g), Clmul(e.h, x))
  {
    hide Clmul, Xor, Shl, Pow2, Lo, Hi, Swap;
    FoldedHalves(e.h);
    FoldedHalves(x);
    Karatsuba(e.h, x);
    var h, l := Clmul(Hi(e.h), Hi(x)), Clmul(Lo(e.h), Lo(x));
    var m := Clmul(Xor(Hi(e.h), Lo(e.h)), Xor(Hi(x), Lo(x)));
    SumLinear(g.hi, g.lo, g.mid, h, l, m);
  }

  lemma SumLinear(h: nat, l: nat, m: nat, h': nat, l': nat, m': nat)
    ensures Xor(Xor(Shl(Xor(h, h'), FULL), Shl(Xor(Xor(m, m'), Xor(Xor(h, h'), Xor(l, l'))), HALF)), Xor(l, l'))
         == Xor(Xor(Xor(Shl(h, FULL), Shl(Xor(m, Xor(h, l)), HALF)), l),
                Xor(Xor(Shl(h', FULL), Shl(Xor(m', Xor(h', l')), HALF)), l'))
  {
    hide Xor, Shl;
    XorPairs(h, h', l, l');
    XorPairs(m, m', Xor(h, l), Xor(h', l'));
    var a, a' := Shl(h, FULL), Shl(h', FULL);
    var c, c' := Xor(m, Xor(h, l)), Xor(m', Xor(h', l'));
    XorShl(h, h', FULL);
    XorShl(c, c', HALF);
    XorPairs(a, a', Shl(c, HALF), Shl(c', HALF));
    XorPairs(Xor(a, Shl(c, HALF)), Xor(a', Shl(c', HALF)), l, l');
  }

  /** The final reduction divides the accumulated sum by x^128, modulo the modulus. */
  lemma FinalExact(g: GState)
    ensures EqMod(Shl(Final(g), FULL), Sum(g), Modulus())
  {
    hide Clmul, Xor, Shl, Pow2, Lo, Hi, Modulus, EqMod, Reduce, Up, Down;
    var mid := XorReg(XorReg(g.mid, g.hi), g.lo);
    XorAssoc(g.mid, g.hi, g.lo);
    var hi, lo := XorReg(g.hi, Down(mid)), XorReg(g.lo, Up(mid));
    ReduceExact(hi, lo);
    Halves(mid);
    XorShl(g.hi, Hi(mid), FULL);
    var t := Shl(Lo(mid), HALF);
    XorComm(g.lo, t);
    FourWay(Shl(g.hi, FULL), Shl(Hi(mid), FULL), t, g.lo);
    XorShl(Shl(Hi(mid), HALF), Lo(mid), HALF);
    ShlShl(Hi(mid), HALF, HALF);
  }

  // ----- gfmul and transformH -----------------------------------------------------------------------------

  /** gfmul: a product of its own, reduced at once; used to build the table of powers. */
  function Gfmul(x: Reg, y: Reg): (r: Reg) {
    var lo := ClmulHalf(Lo(x), Lo(y));
    var hi := ClmulHalf(Hi(x), Hi(y));
    var a := XorReg(Swap(x), x);
    var b := XorReg(Swap(y), y);
    var m := XorReg(XorReg(ClmulHalf(Lo(a), Lo(b)), lo), hi);
    Reduce(XorReg(hi, Down(m)), XorReg(lo, Up(m)))
  }

  lemma GfmulExact(x: Reg, y: Reg)
    ensures EqMod(Shl(Gfmul(x, y), FULL), Clmul(x, y), Modulus())
  {
    hide Clmul, Xor, Shl, Pow2, Lo, Hi, Modulus, EqMod, Reduce, Up, Down, Sum, Swap;
    var e := Entry(x);
    var g := OneStep(EMPTY, y, e);
    var lo, hi := ClmulHalf(Lo(x), Lo(y)), ClmulHalf(Hi(x), Hi(y));
    var m := ClmulHalf(Lo(XorReg(Swap(x), x)), Lo(XorReg(Swap(y), y)));
    XorZero(hi);
    XorZero(lo);
    XorZero(m);
    XorAssoc(m, lo, hi);
    XorAssoc(m, hi, lo);
    XorComm(lo, hi);
    assert Final(g) == Gfmul(x, y);
    FinalExact(g);
    OneStepAdds(EMPTY, y, e);
    EmptySum();
    XorZero(Clmul(x, y));
  }

  /** transformH: a shift left by one over both lanes, with the bit that leaves reduced. */
  function TransformH(h: Reg): (r: Reg) {
    var top := Pow2(HALF - 1);
    LaneFacts(Lo(h));
    LaneFacts(Hi(h));
    PolyFits();
    ModulusFacts();
    // the even high lane takes the bit that leaves the low lane
    var shifted := Join((2 * Hi(h)) % Pow2(HALF) + Lo(h) / top, (2 * Lo(h)) % Pow2(HALF));
    if Hi(h) / top != 0 then XorReg(Join(POLY_HI, 1), shifted) else shifted
  }

  lemma LaneFacts(x: nat)
    requires x < Pow2(HALF)
    ensures 0 <= x / Pow2(HALF - 1) <= 1
    ensures 2 * x == (x / Pow2(HALF - 1)) * Pow2(HALF) + (2 * x) % Pow2(HALF)
    ensures 0 <= (2 * x) % Pow2(HALF) <= Pow2(HALF) - 2
  {
    ModOnce(x, Pow2(HALF - 1));
    ModOnce(2 * x, Pow2(HALF));
  }

  /** transformH multiplies by x, modulo the modulus. */
  lemma TransformExact(h: Reg)
    ensures EqMod(TransformH(h), 2 * h, Modulus())
  {
    hide Xor, Clmul, Pow2, EqMod, Lo, Hi;
    var u := Pow2(HALF);
    LaneFacts(Lo(h));
    LaneFacts(Hi(h));
    PolyFits();
    ModulusFacts();
    var top := Pow2(HALF - 1);
    var ch, cl := Hi(h) / top, Lo(h) / top;
    var lo, hi := (2 * Lo(h)) % u, (2 * Hi(h)) % u;
    var shifted := Join(hi + cl, lo);
    assert 2 * h == ch * Pow2(FULL) + shifted by {
      MulAssoc(2, Hi(h), u);
      MulDist(ch * u, hi, u);
      MulAssoc(ch, u, u);
      Pow2Add(HALF, HALF);
      MulDist(hi, cl, u);
    }
    if ch == 0 {
      assert 0 * Pow2(FULL) == 0;
      EqRefl(shifted, Modulus());
    } else {
      CarriedOut(shifted, h);
    }
  }

  lemma CarriedOut(shifted: Reg, h: Reg)
    requires 2 * h == 1 * Pow2(FULL) + shifted && POLY_HI < Pow2(HALF) && 1 < Pow2(HALF)
    ensures EqMod(XorReg(Join(POLY_HI, 1), shifted), 2 * h, Modulus())
  {
    hide Xor, Clmul, Pow2, EqMod;
    var t := Join(POLY_HI, 1);
    XorDisjoint(1, shifted, FULL);
    XorDisjoint(1, t, FULL);
    assert Modulus() == Xor(Pow2(FULL), t);
    // t + shifted == (x^128 + shifted) + (x^128 + t)
    XorPairs(Pow2(FULL), shifted, Pow2(FULL), t);
    XorSelf(Pow2(FULL));
    XorZero(Xor(shifted, t));
    XorComm(shifted, t);
    ClmulOne(Modulus());
    EqIntro(XorReg(t, shifted), 2 * h, 1, Modulus());
  }

  // ----- the multiplication of NIST SP 800-38D, section 6.3 --------------------------------------------------

  /** R: 11100001 followed by 120 zeros. */
  type ReductionString = r: nat
    | 0xe0ffffffffffffffffffffffffffffff < r < 0xe1000000000000000000000000000001
    witness 0xe1000000000000000000000000000000

  const R: ReductionString

  lemma RIsReflected()
    ensures 2 * R + 1 == Modulus() && R < Pow2(FULL)
  {
    Powers();
  }

  /** V shifted right by one bit, with R added when a one leaves. */
  function NextV(v: Reg): (r: Reg) {
    RIsReflected();
    XorBound(v / 2, R, FULL);
    if v % 2 == 0 then v / 2 else Xor(v / 2, R)
  }

  lemma NextVHalves(v: Reg)
    ensures EqMod(2 * NextV(v), v, Modulus())
  {
    hide Clmul, EqMod, Pow2, Modulus;
    if v % 2 == 0 {
      EqRefl(v, Modulus());
    } else {
      RIsReflected();
      XorDouble(v / 2, R);
      XorUnfold(v, Modulus());
      XorUnfold(2 * (v / 2), 2 * R);
      ClmulOne(Modulus());
      EqIntro(2 * NextV(v), v, 1, Modulus());
    }
  }

  /** Algorithm 1 with the i least significant bits of x (the last i of the string) still to read. */
  function NistLoop(x: nat, z: Reg, v: Reg, i: nat): (r: Reg)
    decreases i
  {
    if i == 0 then z
    else NistLoop(x, if BitOf(x, i - 1) == 1 then XorReg(z, v) else z, NextV(v), i - 1)
  }

  function BitOf(x: nat, i: nat): (b: nat)
    ensures b <= 1
  {
    (x / Pow2(i)) % 2
  }

  /** The product of two blocks. */
  function NistMul(x: Reg, y: Reg): (r: Reg) {
    NistLoop(x, 0, y, FULL)
  }

  /** Reading one more bit of x. */
  lemma LowBits(x: nat, i: nat)
    ensures x % Pow2(i + 1) == Xor(Shl(BitOf(x, i), i), x % Pow2(i))
    ensures 0 <= x % Pow2(i) < Pow2(i)
  {
    var p := Pow2(i);
    var q, r := x / p, x % p;
    DivMod(x, p);
    NextRemainder(x, p);
    XorDisjoint(q % 2, r, i);
  }

  /** What the loop computes, modulo the modulus and up to the power of x. */
  lemma {:induction false} NistLoopExact(x: nat, z: Reg, v: Reg, i: nat)
    ensures EqMod(Shl(NistLoop(x, z, v, i), i), Xor(Shl(z, i), 2 * Clmul(x % Pow2(i), v)), Modulus())
    decreases i
  {
    hide Clmul, Xor, Shl, Pow2, Modulus, EqMod, NextV, BitOf;
    var p := Modulus();
    if i == 0 {
      NoBits(x, z, v);
    } else {
      var j := i - 1;
      var b := BitOf(x, j);
      var low := x % Pow2(j);
      var z' := if b == 1 then XorReg(z, v) else z;
      var r := NistLoop(x, z, v, i);
      LowBits(x, j);
      NistLoopExact(x, z', NextV(v), j);
      var t := 2 * Clmul(low, NextV(v));
      // multiply by x
      EqDouble(Shl(r, j), Xor(Shl(z', j), t), p);
      ShlStep(r, j);
      ShlStep(z', j);
      XorDouble(Shl(z', j), t);
      // replace 2 NextV(v) by v
      assert EqMod(2 * t, 2 * Clmul(low, v), p) by {
        NextVHalves(v);
        EqMul(2 * NextV(v), v, low, p);
        ClmulDoubleRight(low, NextV(v));
        EqDouble(Clmul(low, 2 * NextV(v)), Clmul(low, v), p);
      }
      EqRefl(Shl(z', i), p);
      EqXor(Shl(z', i), Shl(z', i), 2 * t, 2 * Clmul(low, v), p);
      EqTrans(Shl(r, i), Xor(Shl(z', i), 2 * t), Xor(Shl(z', i), 2 * Clmul(low, v)), p);
      ReadBit(x, z, z', v, j, b, low);
    }
  }

  lemma NoBits(x: nat, z: Reg, v: Reg)
    ensures EqMod(Shl(z, 0), Xor(Shl(z, 0), 2 * Clmul(x % Pow2(0), v)), Modulus())
  {
    hide Modulus, EqMod;
    assert x % Pow2(0) == 0;
    ClmulZero(v);
    XorZero(Shl(z, 0));
    EqRefl(Shl(z, 0), Modulus());
  }

  lemma EqDouble(a: nat, b: nat, p: nat)
    requires EqMod(a, b, p)
    ensures EqMod(2 * a, 2 * b, p)
  {
    hide EqMod, Pow2;
    assert Pow2(1) == 2 by { PowOne(); }
    EqShl(a, b, 1, p);
  }

  lemma PowOne()
    ensures Pow2(1) == 2
  {}

  lemma ShlStep(a: nat, j: nat)
    ensures Shl(a, j + 1) == 2 * Shl(a, j)
  {
    MulAssoc(2, a, Pow2(j));
    MulAssoc(a, 2, Pow2(j));
  }

  lemma ReadBit(x: nat, z: Reg, z': Reg, v: Reg, j: nat, b: nat, low: nat)
    requires b <= 1 && z' == if b == 1 then XorReg(z, v) else z
    ensures Xor(Shl(z', j + 1), 2 * Clmul(low, v)) == Xor(Shl(z, j + 1), 2 * Clmul(Xor(Shl(b, j), low), v))
  {
    hide Clmul, Xor, Shl, Pow2;
    ClmulDistLeft(Shl(b, j), low, v);
    ClmulShl(b, v, j);
    XorDouble(Shl(Clmul(b, v), j), Clmul(low, v));
    ShlStep(Clmul(b, v), j);
    if b == 1 {
      ClmulOne(v);
      XorShl(z, v, j + 1);
      XorAssoc(Shl(z, j + 1), Shl(v, j + 1), 2 * Clmul(low, v));
    } else {
      ClmulZero(v);
      ShlZero(j + 1);
      XorZero(2 * Clmul(low, v));
    }
  }

  /** The product of blocks times x^128 is the carry-less product with x times the second block. */
  lemma NistMulExact(x: Reg, y: Reg)
    ensures EqMod(Shl(NistMul(x, y), FULL), Clmul(x, TransformH(y)), Modulus())
  {
    hide Clmul, Xor, Shl, Modulus, EqMod, TransformH, NistLoop, Pow2;
    var p := Modulus();
    NistLoopExact(x, 0, y, FULL);
    ModSmall(x, Pow2(FULL));
    ShlZero(FULL);
    XorZero(2 * Clmul(x, y));
    ClmulDoubleRight(x, y);
    TransformExact(y);
    EqSym(TransformH(y), 2 * y, p);
    EqMul(2 * y, TransformH(y), x, p);
    EqTrans(Shl(NistMul(x, y), FULL), Clmul(x, 2 * y), Clmul(x, TransformH(y)), p);
  }

  lemma ModSmall(x: nat, m: nat)
    requires x < m
    ensures x % m == x
  {
    DivModUnique(x, m, 0, x);
  }

  /** gfmul by the transformed H is the multiplication of the standard. */
  lemma GfmulIsNistMul(x: Reg, h: Reg)
    ensures Gfmul(x, TransformH(h)) == NistMul(x, h)
  {
    hide Clmul, Xor, Shl, Modulus, EqMod, TransformH, NistMul, Gfmul, Pow2;
    var p, t := Modulus(), TransformH(h);
    NistMulExact(x, h);
    GfmulExact(x, t);
    EqSym(Shl(NistMul(x, h), FULL), Clmul(x, t), p);
    EqTrans(Shl(Gfmul(x, t), FULL), Clmul(x, t), Shl(NistMul(x, h), FULL), p);
    EqCancelShl(Gfmul(x, t), NistMul(x, h), FULL, p);
    EqUnique(Gfmul(x, t), NistMul(x, h), FULL, p);
  }

  // ----- GHASH ----------------------------------------------------------------------------------------------

  /** GHASH of NIST SP 800-38D, section 6.4: Y_i = (Y_{i-1} + X_i) * H. */
  function GhashNist(h: Reg, xs: seq<Reg>): (y: Reg) {
    if xs == [] then 0
    else NistMul(XorReg(GhashNist(h, xs[..|xs| - 1]), xs[|xs| - 1]), h)
  }

  /** Entry k of the table: H to the power k + 1 in the transformed representation. */
  function TablePower(h: Reg, k: nat): (t: Reg) {
    if k == 0 then TransformH(h) else Gfmul(TablePower(h, k - 1), TablePower(h, 0))
  }

  /** The unreduced sum of blocks times powers, the last block at power `off`. */
  ghost function PowerSum(h: Reg, xs: seq<Reg>, off: nat): (v: nat) {
    if xs == [] then 0
    else Xor(PowerSum(h, xs[..|xs| - 1], off + 1), Clmul(TablePower(h, off), xs[|xs| - 1]))
  }

  /** Moving every power up by one multiplies by H, up to x^128. */
  lemma {:induction false} PowerSumShift(h: Reg, xs: seq<Reg>, off: nat)
    ensures EqMod(Shl(PowerSum(h, xs, off + 1), FULL), Clmul(PowerSum(h, xs, off), TablePower(h, 0)), Modulus())
    decreases |xs|
  {
    hide Clmul, Xor, Shl, Modulus, EqMod, TransformH, Gfmul, Pow2;
    var p, t := Modulus(), TablePower(h, 0);
    if xs == [] {
      ShlZero(FULL);
      ClmulZero(t);
      EqRefl(0, p);
    } else {
      var n := |xs| - 1;
      var a, b := PowerSum(h, xs[..n], off + 2), PowerSum(h, xs[..n], off + 1);
      var k, k', x := TablePower(h, off), TablePower(h, off + 1), xs[n];
      PowerSumShift(h, xs[..n], off + 1);
      GfmulExact(k, t);
      assert EqMod(Shl(Clmul(k', x), FULL), Clmul(Clmul(k, x), t), p) by {
        EqMul(Shl(k', FULL), Clmul(k, t), x, p);
        ClmulShl(k', x, FULL);
        ClmulAssoc(k, t, x);
        ClmulComm(t, x);
        ClmulAssoc(k, x, t);
      }
      XorShl(a, Clmul(k', x), FULL);
      ClmulDistLeft(b, Clmul(k, x), t);
      EqXor(Shl(a, FULL), Clmul(b, t), Shl(Clmul(k', x), FULL), Clmul(Clmul(k, x), t), p);
    }
  }

  /** Block-by-block GHASH times x^128 is the deferred sum, modulo the modulus. */
  lemma {:induction false} GhashIsPowerSum(h: Reg, xs: seq<Reg>)
    ensures EqMod(Shl(GhashNist(h, xs), FULL), PowerSum(h, xs, 0), Modulus())
    decreases |xs|
  {
    hide Clmul, Xor, Shl, Modulus, EqMod, TransformH, NistMul, Gfmul, Pow2;
    var p, t := Modulus(), TransformH(h);
    assert t == TablePower(h, 0);
    if xs == [] {
      ShlZero(FULL);
      EqRefl(0, p);
    } else {
      var n := |xs| - 1;
      var y, x := GhashNist(h, xs[..n]), xs[n];
      var s, s' := PowerSum(h, xs[..n], 0), PowerSum(h, xs[..n], 1);
      var g := GhashNist(h, xs);
      GhashIsPowerSum(h, xs[..n]);
      PowerSumShift(h, xs[..n], 0);
      NistMulExact(XorReg(y, x), h);
      HornerStep(g, y, x, s, s', t, p);
    }
  }

  /** One Horner step: both sides agree after multiplication by x^128, which cancels. */
  lemma HornerStep(g: nat, y: nat, x: nat, s: nat, s': nat, t: nat, p: nat)
    requires p % 2 == 1
    requires EqMod(Shl(g, FULL), Clmul(Xor(y, x), t), p)
    requires EqMod(Shl(y, FULL), s, p) && EqMod(Shl(s', FULL), Clmul(s, t), p)
    ensures EqMod(Shl(g, FULL), Xor(s', Clmul(t, x)), p)
  {
    hide Clmul, Xor, Shl, EqMod, Pow2;
    var xt := Clmul(x, t);
    // g x^256 == (y + x) t x^128 == y x^128 t + x t x^128
    EqShl(Shl(g, FULL), Clmul(Xor(y, x), t), FULL, p);
    ClmulDistLeft(y, x, t);
    XorShl(Clmul(y, t), xt, FULL);
    ClmulShl(y, t, FULL);
    // y x^128 t == s t == s' x^128
    EqMul(Shl(y, FULL), s, t, p);
    EqSym(Shl(s', FULL), Clmul(s, t), p);
    EqTrans(Shl(Clmul(y, t), FULL), Clmul(s, t), Shl(s', FULL), p);
    EqRefl(Shl(xt, FULL), p);
    EqXor(Shl(Clmul(y, t), FULL), Shl(s', FULL), Shl(xt, FULL), Shl(xt, FULL), p);
    XorShl(s', xt, FULL);
    EqTrans(Shl(Shl(g, FULL), FULL), Xor(Shl(Clmul(y, t), FULL), Shl(xt, FULL)), Shl(Xor(s', xt), FULL), p);
    EqCancelShl(Shl(g, FULL), Xor(s', xt), FULL, p);
    ClmulComm(x, t);
  }

  /** Accumulating unreduced products against stored powers and reducing once is GHASH. */
  lemma DeferredGhash(h: Reg, xs: seq<Reg>, g: GState)
    requires Sum(g) == PowerSum(h, xs, 0)
    ensures Final(g) == GhashNist(h, xs)
  {
    hide Clmul, Xor, Shl, Modulus, EqMod, Final, Sum, PowerSum, GhashNist, Pow2;
    var p := Modulus();
    FinalExact(g);
    GhashIsPowerSum(h, xs);
    EqSym(Shl(GhashNist(h, xs), FULL), PowerSum(h, xs, 0), p);
    EqTrans(Shl(Final(g), FULL), PowerSum(h, xs, 0), Shl(GhashNist(h, xs), FULL), p);
    EqCancelShl(Final(g), GhashNist(h, xs), FULL, p);
    EqUnique(Final(g), GhashNist(h, xs), FULL, p);
  }
}
