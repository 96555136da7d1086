/** What EccPoint_mult (deps/micro-ecc/uECC.c) yields for every key: the affine coordinates of the
    multiple, or the origin, which its caller takes for failure. */
module EccOutcome {
  import opened Arith
  import VliInv
  import opened EccLadder
  import opened EccCoZ
  import opened EccRun
  import opened EccOrder
  import opened EccDouble
  import opened Primes

  // ----- EccPoint_mult on values ------------------------------------------------------------------------

  /** The registers after the last addC: difference and sum. */
  ghost function LastPair(regs: seq<Co>, s: nat, bits: nat, p: nat): (du: (Co, Co))
    requires |regs| == 2 && p > 0
  {
    var last := CoRun(regs, s, bits, 1, p);
    var nb := 1 - Bit(s, 0);
    CoAddC(last[1 - nb], last[nb], p)
  }

  /** What is inverted. */
  ghost function LastDivisor(point: Co, regs: seq<Co>, s: nat, bits: nat, p: nat): (t: nat)
    requires |regs| == 2 && p > 0
  {
    var du := LastPair(regs, s, bits, p);
    Divisor(du.0, du.1, 1 - Bit(s, 0), point, p)
  }

  /** The result, given the inverse. */
  ghost function Outcome(point: Co, regs: seq<Co>, s: nat, bits: nat, inv: int, p: nat): (r: Co)
    requires |regs| == 2 && p > 0
  {
    var fz := FinalZ(LastPair(regs, s, bits, p).0, inv, point, p);
    ApplyZ(CoStep(CoRun(regs, s, bits, 1, p), 1 - Bit(s, 0), p)[0], fz, p)
  }

  /** What uECC_vli_modInv promises. */
  ghost predicate Inverts(r: nat, t: nat, p: nat) {
    (t == 0 ==> r == 0) && (t > 0 ==> exists g :: VliInv.IsGcd(g, t, p) && Cong(r * t, g, p))
  }

  lemma InvertsNonzero(r: nat, t: nat, p: nat)
    requires IsPrime(p) && Inverts(r, t, p) && Nonzero(t, p)
    ensures Cong(r * t, 1, p)
  {
    if t == 0 { CongRefl(0, p); }
    var g :| VliInv.IsGcd(g, t, p) && Cong(r * t, g, p);
    InverseOfNonzero(r, t, p, g);
  }

  // ----- regular runs -----------------------------------------------------------------------------------

  /** The divisor is xP * yP * (xd - xs) times powers of Z and a sign: none of these is zero. */
  lemma DivisorNonzero(d: Co, s: Co, nb: nat, point: Co, p: nat, w: int, xd: int, xs: int)
    requires IsPrime(p) && nb <= 1 && Nonzero(w, p) && Nonzero(point.x, p) && Nonzero(point.y, p) && Nonzero(xd - xs, p)
    requires At(d, point.x, if nb == 0 then point.y else -point.y, w, p)
    requires Cong(d.x, xd * (w * w), p) && Cong(s.x, xs * (w * w), p)
    ensures Nonzero(Divisor(d, s, nb, point, p), p)
  {
    assert p > 0;
    hide IsPrime, Nonzero, Cong, FSub, FMul;
    var ww, www := w * w, w * (w * w);
    var diff: int := if nb == 0 then FSub(d.x, s.x, p) else FSub(s.x, d.x, p);
    SignedDifference(d, s, nb, p, ww, xd, xs);
    NonzeroProduct(w, w, p);
    NonzeroProduct(w, ww, p);
    SignedNonzero(diff, nb, xd - xs, ww, p);
    SignedNonzero(d.y, nb, point.y, www, p);
    FMulNonzero(diff, d.y, p);
    FMulNonzero(FMul(diff, d.y, p), point.x, p);
  }

  lemma SignedNonzero(a: int, nb: nat, e: int, w: int, p: nat)
    requires IsPrime(p) && nb <= 1 && Nonzero(e, p) && Nonzero(w, p) && Cong(a, (if nb == 0 then e else -e) * w, p)
    ensures Nonzero(a, p)
  {
    hide IsPrime, Nonzero, Cong;
    if nb == 1 { NonzeroNeg(e, p); }
    NonzeroProduct(if nb == 0 then e else -e, w, p);
    NonzeroLike(a, (if nb == 0 then e else -e) * w, p);
  }

  lemma SignedDifference(d: Co, s: Co, nb: nat, p: nat, ww: int, xd: int, xs: int)
    requires p > 0 && nb <= 1 && Cong(d.x, xd * ww, p) && Cong(s.x, xs * ww, p)
    ensures var diff: int := if nb == 0 then FSub(d.x, s.x, p) else FSub(s.x, d.x, p);
            Cong(diff, (if nb == 0 then xd - xs else -(xd - xs)) * ww, p)
  {
    MulDist(xd, xs, ww);
    SubC(d.x, s.x, xd * ww, xs * ww, p);
    SubC(s.x, d.x, xs * ww, xd * ww, p);
  }

  lemma NonzeroLike(a: int, b: int, p: nat)
    requires Cong(a, b, p) && Nonzero(b, p)
    ensures Nonzero(a, p)
  {
    CongSym(a, b, p);
    NonzeroCong(b, a, p);
  }

  lemma NonzeroNeg(a: int, p: nat)
    requires Nonzero(a, p)
    ensures Nonzero(-a, p)
  {
    if Divides(p, -a) { DividesNeg(p, -a); }
  }

  lemma FMulNonzero(a: int, b: int, p: nat)
    requires IsPrime(p) && Nonzero(a, p) && Nonzero(b, p)
    ensures Nonzero(FMul(a, b, p), p)
  {
    NonzeroProduct(a, b, p);
    CongMod(a * b, p);
    NonzeroCong(a * b, FMul(a, b, p), p);
  }

  /** A regular run ends in affine coordinates; the inverse it needs exists. */
  lemma RegularOutcome<G(!new)>(c: Curve<G>, point: G, regs: seq<Co>, s: nat, bits: nat, z: int, inv: nat)
    requires IsPrime(c.p) && ChordLaw(c) && |regs| == 2 && bits >= 1 && Prefix(s, bits) == 1
    requires RegularRun(c, point, s, bits, 0) && Tracks(c, regs, Multiples(c, point, 1), z) && Nonzero(z, c.p)
    requires Nonzero(c.x(point), c.p) && Nonzero(c.y(point), c.p)
    requires Inverts(inv, LastDivisor(Co(c.x(point), c.y(point)), regs, s, bits, c.p), c.p)
    ensures var r := Outcome(Co(c.x(point), c.y(point)), regs, s, bits, inv, c.p);
            var q := Times(c.group, s, point);
            Cong(r.x, c.x(q), c.p) && Cong(r.y, c.y(q), c.p)
  {
    hide *;
    PositiveP(c);
    RegularParts(c, point, s, bits);
    var z' := RunTracks(c, point, regs, s, bits, 1, z);
    LastDivisorNonzero(c, point, regs, s, bits, z');
    InvertsNonzero(inv, LastDivisor(Co(c.x(point), c.y(point)), regs, s, bits, c.p), c.p);
    LastIs(Co(c.x(point), c.y(point)), regs, s, bits, inv, c.p);
    LastStepIsAffine(c, point, CoRun(regs, s, bits, 1, c.p), s, z', inv);
  }

  lemma LastIs(point: Co, regs: seq<Co>, s: nat, bits: nat, inv: int, p: nat)
    requires |regs| == 2 && p > 0
    ensures var last := CoRun(regs, s, bits, 1, p); var nb := 1 - Bit(s, 0);
            var du := CoAddC(last[1 - nb], last[nb], p);
            && LastDivisor(point, regs, s, bits, p) == Divisor(du.0, du.1, nb, point, p)
            && Outcome(point, regs, s, bits, inv, p) == ApplyZ(CoStep(last, nb, p)[0], FinalZ(du.0, inv, point, p), p)
  {}

  lemma LastDivisorNonzero<G(!new)>(c: Curve<G>, point: G, regs: seq<Co>, s: nat, bits: nat, z: int)
    requires IsPrime(c.p) && ChordLaw(c) && |regs| == 2 && c.p > 0 && Nonzero(z, c.p)
    requires Regular(c, Multiples(c, point, Prefix(s, 1)), 1 - Bit(s, 0))
    requires Tracks(c, CoRun(regs, s, bits, 1, c.p), Multiples(c, point, Prefix(s, 1)), z)
    requires Nonzero(c.x(point), c.p) && Nonzero(c.y(point), c.p)
    ensures Nonzero(LastDivisor(Co(c.x(point), c.y(point)), regs, s, bits, c.p), c.p)
  {
    hide *;
    var nb := 1 - Bit(s, 0);
    var m := Prefix(s, 1);
    var r := Multiples(c, point, m);
    var last := CoRun(regs, s, bits, 1, c.p);
    var du := CoAddC(last[1 - nb], last[nb], c.p);
    var gdu := AddC(c.group, r[1 - nb], r[nb]);
    MiddleShows(c, point, last, m, nb, z);
    StepNonzero(c, r, nb, z);
    RegularSecond(c, r, nb);
    LastIs(Co(c.x(point), c.y(point)), regs, s, bits, 0, c.p);
    DivisorNonzero(du.0, du.1, nb, Co(c.x(point), c.y(point)), c.p, MidZ(c, r, nb, z), c.x(gdu.0), c.x(gdu.1));
  }

  lemma RegularSecond<G>(c: Curve<G>, r: seq<G>, nb: nat)
    requires |r| == 2 && nb <= 1 && Regular(c, r, nb)
    ensures var gdu := AddC(c.group, r[1 - nb], r[nb]); Nonzero(c.x(gdu.0) - c.x(gdu.1), c.p)
  {
    var gdu := AddC(c.group, r[1 - nb], r[nb]);
    NonzeroSwap(c.x(gdu.1), c.x(gdu.0), c.p);
  }

  // ----- exceptional runs -------------------------------------------------------------------------------
  //
  // Once two opposite points have been added, the registers are on the cuspidal curve y^2 = x^3: the next
  // additions only find its singular point, (0, 0).

  /** addC on opposite points. */
  lemma CuspAddC(s: Co, t: Co, p: nat) returns (v: int)
    requires p > 0 && Cong(t.x, s.x, p) && Cong(t.y, -s.y, p)
    ensures At(CoAddC(s, t, p).0, 0, 0, v, p) && At(CoAddC(s, t, p).1, 1, 1, v, p)
  {
    hide Cong, At, FSub, FMul, FAdd;
    var dx := FSub(t.x, s.x, p);
    CongRefl(s.x, p);
    CongRefl(s.y, p);
    SubC(t.x, s.x, s.x, s.x, p);
    MulC(dx, dx, 0, 0, p);
    var a := FMul(dx, dx, p);
    CongRefl(t.x, p);
    MulC(s.x, a, s.x, 0, p);
    MulC(t.x, a, t.x, 0, p);
    var b, c := FMul(s.x, a, p), FMul(t.x, a, p);
    SubC(c, b, 0, 0, p);
    MulC(s.y, FSub(c, b, p), s.y, 0, p);
    var e := FMul(s.y, FSub(c, b, p), p);
    AddCong(b, c, 0, 0, p);
    var bc := FAdd(b, c, p);
    var sy: int, dy: int := FAdd(t.y, s.y, p), FSub(t.y, s.y, p);
    AddCong(t.y, s.y, -s.y, s.y, p);
    v := -dy;
    CuspSum(b, bc, e, dy, p);
    CuspDifference(b, bc, e, sy, p);
    AtOrigin(CoAddC(s, t, p).0, v, p);
  }

  lemma CuspSum(b: int, bc: int, e: int, dy: int, p: nat)
    requires p > 0 && Cong(b, 0, p) && Cong(bc, 0, p) && Cong(e, 0, p)
    ensures var x3 := FSub(FMul(dy, dy, p), bc, p); At(Co(x3, FSub(FMul(dy, FSub(b, x3, p), p), e, p)), 1, 1, -dy, p)
  {
    var q := dy * dy;
    CongRefl(dy, p);
    MulC(dy, dy, dy, dy, p);
    SubC(FMul(dy, dy, p), bc, q, 0, p);
    var x3 := FSub(FMul(dy, dy, p), bc, p);
    SubC(b, x3, 0, q, p);
    MulC(dy, FSub(b, x3, p), dy, -q, p);
    SubC(FMul(dy, FSub(b, x3, p), p), e, dy * -q, 0, p);
    assert -dy * -dy == q;
    assert dy * -q == -dy * q;
  }

  lemma CuspDifference(b: int, bc: int, e: int, sy: int, p: nat)
    requires p > 0 && Cong(b, 0, p) && Cong(bc, 0, p) && Cong(e, 0, p) && Cong(sy, 0, p)
    ensures var x4 := FSub(FMul(sy, sy, p), bc, p);
            Cong(x4, 0, p) && Cong(FSub(FMul(FSub(x4, b, p), sy, p), e, p), 0, p)
  {
    MulC(sy, sy, 0, 0, p);
    SubC(FMul(sy, sy, p), bc, 0, 0, p);
    var x4 := FSub(FMul(sy, sy, p), bc, p);
    SubC(x4, b, 0, 0, p);
    MulC(FSub(x4, b, p), sy, 0, 0, p);
    SubC(FMul(FSub(x4, b, p), sy, p), e, 0, 0, p);
  }

  lemma AtOrigin(s: Co, v: int, p: nat)
    ensures At(s, 0, 0, v, p) <==> Cong(s.x, 0, p) && Cong(s.y, 0, p)
  {}

  /** The step that adds opposite points leaves one register on the cusp and one at the singular point. */
  lemma CuspStep(regs: seq<Co>, nb: nat, p: nat) returns (v: int)
    requires |regs| == 2 && nb <= 1 && p > 0
    requires Cong(regs[1].x, regs[0].x, p) && Cong(regs[1].y, -regs[0].y, p)
    ensures var r := CoStep(regs, nb, p); At(r[nb], 1, 1, v, p) && At(r[1 - nb], 0, 0, v, p)
  {
    hide CoAdd, CoAddC, At, Cong;
    if nb == 0 { OppositeSwap(regs[0], regs[1], p); }
    var u := CuspAddC(regs[1 - nb], regs[nb], p);
    var (d, s) := CoAddC(regs[1 - nb], regs[nb], p);
    CuspChord(p);
    CoAddIsChord(s, d, 1, 1, 0, 0, 1, 0, 0, u, p);
    v := NewZ(u, 0 - 1);
  }

  lemma OppositeSwap(a: Co, b: Co, p: nat)
    requires Cong(b.x, a.x, p) && Cong(b.y, -a.y, p)
    ensures Cong(a.x, b.x, p) && Cong(a.y, -b.y, p)
  {
    CongSym(b.x, a.x, p);
    CongSym(b.y, -a.y, p);
    CongRefl(0, p);
    CongAdd(0, 0, -a.y, b.y, p);
  }

  lemma CuspChord(p: nat)
    ensures Chord(1, 1, 0, 0, 1, 0, 0, p) && Chord(0, 0, 1, 1, 1, 0, 0, p) && Chord(0, 0, 1, -1, -1, 0, 0, p)
  {
    CongRefl(0, p);
    CongRefl(1, p);
    CongRefl(-1, p);
  }

  /** The addC after it finds the singular point twice. */
  lemma SingularAddC(r: seq<Co>, nb: nat, nb': nat, v: int, p: nat)
    requires |r| == 2 && nb <= 1 && nb' <= 1 && p > 0 && At(r[nb], 1, 1, v, p) && At(r[1 - nb], 0, 0, v, p)
    ensures var du := CoAddC(r[1 - nb'], r[nb'], p);
            Cong(du.0.x, 0, p) && Cong(du.0.y, 0, p) && Cong(du.1.x, 0, p) && Cong(du.1.y, 0, p)
  {
    hide CoAddC, At, Cong;
    CuspChord(p);
    var s, t := r[1 - nb'], r[nb'];
    var du := CoAddC(s, t, p);
    if nb == nb' {
      CoAddCIsChord(s, t, 0, 0, 1, 1, v, p, 1, 0, 0, -1, 0, 0);
      AtOrigin(du.0, NewZ(v, 1 - 0), p);
      AtOrigin(du.1, NewZ(v, 1 - 0), p);
    } else {
      CoAddCIsChord(s, t, 1, 1, 0, 0, v, p, 1, 0, 0, 1, 0, 0);
      AtOrigin(du.0, NewZ(v, 0 - 1), p);
      AtOrigin(du.1, NewZ(v, 0 - 1), p);
    }
  }

  lemma ZeroResidue(a: int, p: nat)
    requires p > 0 && Cong(a, 0, p)
    ensures a % p == 0
  {
    CongMod(a, p);
    CongTrans(a % p, a, 0, p);
    CongUnique(a % p, 0, p);
  }

  /** Then the divisor is zero, its inverse is zero, and so is what is scaled by it. */
  lemma SingularOutcome(d: Co, s: Co, nb: nat, point: Co, q: Co, inv: nat, p: nat)
    requires p > 0 && nb <= 1 && Cong(d.x, 0, p) && Cong(s.x, 0, p)
    ensures Divisor(d, s, nb, point, p) == 0
    ensures inv == 0 ==> ApplyZ(q, FinalZ(d, inv, point, p), p) == Co(0, 0)
  {
    CongAdd(d.x, 0, s.x, 0, p);
    CongAdd(s.x, 0, d.x, 0, p);
    ZeroResidue(d.x - s.x, p);
    ZeroResidue(s.x - d.x, p);
    assert FSub(d.x, s.x, p) == 0 && FSub(s.x, d.x, p) == 0;
    hide FMul, FSub, Cong;
    TimesZero(d.y, p);
    TimesZero(point.x, p);
    TimesZero(point.y, p);
    TimesZero(d.x, p);
    TimesZero(q.x, p);
    TimesZero(q.y, p);
    TimesZero(0, p);
  }

  lemma TimesZero(a: int, p: nat)
    requires p > 0
    ensures FMul(0, a, p) == 0 && FMul(a, 0, p) == 0
  {}

  lemma {:induction false} CoRunLast(regs: seq<Co>, s: nat, i: nat, j: nat, p: nat)
    requires |regs| == 2 && p > 0 && j < i
    ensures CoRun(regs, s, i, j, p) == CoStep(CoRun(regs, s, i, j + 1, p), 1 - Bit(s, j), p)
    decreases i
  {
    hide CoStep, Bit;
    if i > j + 1 { CoRunLast(CoStep(regs, 1 - Bit(s, i - 1), p), s, i - 1, j, p); }
  }

  /** Registers that show opposite points. */
  lemma OppositeRegisters<G(!new)>(c: Curve<G>, point: G, n: nat, m: nat, regs: seq<Co>, z: int)
    requires ChordLaw(c) && HasOrder(c, point, n) && n == 2 * m + 1 && Tracks(c, regs, Multiples(c, point, m), z)
    ensures |regs| == 2 && Cong(regs[1].x, regs[0].x, c.p) && Cong(regs[1].y, -regs[0].y, c.p)
  {
    hide *;
    OrderFacts(c, point, n);
    OppositeMultiple(c, point, n, m);
    TracksBoth(c, regs, point, m, z);
    var a, b := Times(c.group, m, point), Times(c.group, m + 1, point);
    assert n - m == m + 1;
    SmallMultiple(m, n);
    ZeroIff(c, point, n, m);
    NegOf(c, a);
    AtMirrored(regs[0], regs[1], c.x(a), c.y(a), c.x(b), c.y(b), z, c.p);
  }

  lemma SmallMultiple(m: nat, n: nat)
    requires n == 2 * m + 1 && n >= 5
    ensures m % n != 0
  {
    ModOnce(m, n);
  }

  lemma TracksBoth<G>(c: Curve<G>, regs: seq<Co>, point: G, m: nat, z: int)
    requires Tracks(c, regs, Multiples(c, point, m), z)
    ensures |regs| == 2
    ensures At(regs[0], c.x(Times(c.group, m, point)), c.y(Times(c.group, m, point)), z, c.p)
    ensures At(regs[1], c.x(Times(c.group, m + 1, point)), c.y(Times(c.group, m + 1, point)), z, c.p)
  {}

  lemma AtMirrored(s: Co, t: Co, x: int, y: int, x': int, y': int, z: int, p: nat)
    requires At(s, x, y, z, p) && At(t, x', y', z, p) && Cong(x', x, p) && Cong(y', -y, p)
    ensures Cong(t.x, s.x, p) && Cong(t.y, -s.y, p)
  {
    var zz, zzz := z * z, z * (z * z);
    CongSym(x', x, p);
    CongSym(y', -y, p);
    AtCong(t, x', y', x, -y, z, p);
    CongSym(s.x, x * zz, p);
    CongTrans(t.x, x * zz, s.x, p);
    CongRefl(0, p);
    CongSym(s.y, y * zzz, p);
    CongAdd(0, 0, y * zzz, s.y, p);
    assert -y * zzz == -(y * zzz);
    CongTrans(t.y, -(y * zzz), -s.y, p);
  }

  lemma MiddlePrefix(s: nat, n: nat, m: nat)
    requires n == 2 * m + 1 && Around(s, n)
    ensures Prefix(s, 2) == m
  {
    assert Pow2(2) == 4;
  }

  lemma EarlyRegular<G(!new)>(c: Curve<G>, point: G, n: nat, s: nat, bits: nat)
    requires ChordLaw(c) && HasOrder(c, point, n) && Spans(n, s, bits)
    ensures RegularRun(c, point, s, bits, 2)
  {
    hide ChordLaw, HasOrder, Spans, Regular, Multiples, Prefix, Bit, Exceptional;
    OrderFacts(c, point, n);
    forall k | 2 <= k < bits
      ensures Regular(c, Multiples(c, point, Prefix(s, k + 1)), 1 - Bit(s, k))
    {
      RegularIff(c, point, n, Prefix(s, k + 1), 1 - Bit(s, k));
      EarlyPrefix(s, n, bits, k + 1);
    }
  }

  /** For a scalar around 2n the result is (0, 0). */
  lemma ExceptionalOutcome<G(!new)>(c: Curve<G>, point: G, n: nat, base: Co, regs: seq<Co>, s: nat, bits: nat, z: int,
                             inv: nat)
    requires ChordLaw(c) && c.p > 0 && HasOrder(c, point, n) && Spans(n, s, bits) && Around(s, n)
    requires |regs| == 2 && Prefix(s, bits) == 1 && Tracks(c, regs, Multiples(c, point, 1), z)
    requires Inverts(inv, LastDivisor(base, regs, s, bits, c.p), c.p)
    ensures Outcome(base, regs, s, bits, inv, c.p) == Co(0, 0)
  {
    hide *;
    OrderFacts(c, point, n);
    LongEnough(n, s, bits);
    var m := n / 2;
    MiddlePrefix(s, n, m);
    EarlyRegular(c, point, n, s, bits);
    var z' := RunTracks(c, point, regs, s, bits, 2, z);
    var r2 := CoRun(regs, s, bits, 2, c.p);
    OppositeRegisters(c, point, n, m, r2, z');
    var nb := 1 - Bit(s, 1);
    var v := CuspStep(r2, nb, c.p);
    CoRunLast(regs, s, bits, 1, c.p);
    var nb' := 1 - Bit(s, 0);
    var last := CoRun(regs, s, bits, 1, c.p);
    SingularAddC(last, nb, nb', v, c.p);
    var du := CoAddC(last[1 - nb'], last[nb'], c.p);
    LastIs(base, regs, s, bits, inv, c.p);
    SingularOutcome(du.0, du.1, nb', base, CoStep(last, nb', c.p)[0], inv, c.p);
    InvertsZero(inv, LastDivisor(base, regs, s, bits, c.p), c.p);
  }

  lemma InvertsZero(r: nat, t: nat, p: nat)
    requires Inverts(r, t, p) && t == 0
    ensures r == 0
  {}

  // ----- every key --------------------------------------------------------------------------------------

  /** What micro-ecc relies on in its curves: a prime field, addition by chords, doubling by the tangent
      with a = -3, a base point of odd order, and the origin for no point at all. */
  ghost predicate Suitable<G(!new)>(c: Curve<G>, point: G, n: nat) {
    && IsPrime(c.p) && c.p % 2 == 1 && ChordLaw(c) && HasOrder(c, point, n)
    && Nonzero(c.x(point), c.p) && Nonzero(c.y(point), c.p) && Doubles(c, point)
    && (forall a: nat :: 0 < a < n ==> OffOrigin(c, Times(c.group, a, point)))
  }

  ghost predicate Doubles<G>(c: Curve<G>, a: G) {
    var d := c.group.add(a, a);
    exists l :: Tangent(c.x(a), c.y(a), l, c.x(d), c.y(d), c.p)
  }

  ghost predicate OffOrigin<G>(c: Curve<G>, a: G) {
    Nonzero(c.x(a), c.p) || Nonzero(c.y(a), c.p)
  }

  lemma SuitableFacts<G(!new)>(c: Curve<G>, point: G, n: nat)
    requires Suitable(c, point, n)
    ensures IsPrime(c.p) && c.p % 2 == 1 && c.p > 0 && ChordLaw(c) && HasOrder(c, point, n) && Doubles(c, point)
    ensures Nonzero(c.x(point), c.p) && Nonzero(c.y(point), c.p) && n >= 5 && n % 2 == 1
  {}

  /** The start, whatever the initial Z. */
  lemma StartTracks<G(!new)>(c: Curve<G>, point: G, n: nat, z: int)
    requires Suitable(c, point, n) && Nonzero(z, c.p)
    ensures c.p > 0 && c.p % 2 == 1
    ensures var (regs, w) := CoInitial(Co(c.x(point), c.y(point)), z, c.p);
            Tracks(c, regs, Multiples(c, point, 1), w) && Nonzero(w, c.p)
  {
    hide Suitable, IsPrime, Nonzero, ChordLaw, Cong, Tangent, At, CoInitial, IsAbelian, Times;
    SuitableFacts(c, point, n);
    PositiveP(c);
    var d := c.group.add(point, point);
    var l :| Tangent(c.x(point), c.y(point), l, c.x(d), c.y(d), c.p);
    CongRefl(c.x(point), c.p);
    CongRefl(c.y(point), c.p);
    CoInitialShows(Co(c.x(point), c.y(point)), z, c.x(point), c.y(point), l, c.x(d), c.y(d), c.p);
    FirstMultiples(c, point);
  }

  lemma FirstMultiples<G(!new)>(c: Curve<G>, point: G)
    requires IsAbelian(c.group)
    ensures Multiples(c, point, 1) == [point, c.group.add(point, point)]
  {
    hide IsAbelian;
    TimesOne(c.group, point);
    assert Times(c.group, 2, point) == c.group.add(Times(c.group, 1, point), point);
  }

  lemma TopPrefix(s: nat, n: nat, bits: nat)
    requires Spans(n, s, bits)
    ensures Prefix(s, bits) == 1
  {
    hide Pow2;
    ModOnce(s, Pow2(bits));
  }

  /** EccPoint_mult for a scalar of the right length: s * P, or (0, 0) around 2n. */
  lemma MultOutcome<G(!new)>(c: Curve<G>, point: G, n: nat, z: int, s: nat, bits: nat, inv: nat)
    requires Suitable(c, point, n) && Nonzero(z, c.p) && Spans(n, s, bits) && c.p > 0 && c.p % 2 == 1
    requires var base := Co(c.x(point), c.y(point)); var regs := CoInitial(base, z, c.p).0;
             Inverts(inv, LastDivisor(base, regs, s, bits, c.p), c.p)
    ensures var base := Co(c.x(point), c.y(point)); var regs := CoInitial(base, z, c.p).0;
            var r := Outcome(base, regs, s, bits, inv, c.p); var q := Times(c.group, s, point);
            if Around(s, n) then r == Co(0, 0) else Cong(r.x, c.x(q), c.p) && Cong(r.y, c.y(q), c.p)
  {
    hide *;
    SuitableFacts(c, point, n);
    StartTracks(c, point, n, z);
    var base := Co(c.x(point), c.y(point));
    var (regs, w) := CoInitial(base, z, c.p);
    TopPrefix(s, n, bits);
    LongEnough(n, s, bits);
    RegularRunIff(c, point, n, s, bits);
    if Around(s, n) {
      ExceptionalOutcome(c, point, n, base, regs, s, bits, w, inv);
    } else {
      RegularOutcome(c, point, regs, s, bits, w, inv);
    }
  }
}
