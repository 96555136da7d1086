/** A whole run of EccPoint_mult (deps/micro-ecc/uECC.c) on coordinates: the co-Z ladder follows
    the group ladder, and the recovered 1/Z turns its outcome into affine coordinates. */
module EccRun {
  import opened Arith
  import opened EccLadder
  import opened EccCoZ
  import opened Primes

  /** A group with coordinates modulo p for every element but its zero, the point at infinity. */
  datatype Curve<!G> = Curve(group: Group<G>, x: G -> int, y: G -> int, p: nat)

  /** Finite points with different abscissas add along their chord; a negative mirrors the ordinate. */
  ghost predicate ChordLaw<G(!new)>(c: Curve<G>) {
    && c.p > 0
    && IsAbelian(c.group)
    && (forall a, b :: a != c.group.zero && b != c.group.zero && !Cong(c.x(a), c.x(b), c.p) ==> Sums(c, a, b))
    && (forall a :: a != c.group.zero ==> Mirrors(c, a))
  }

  ghost predicate Mirrors<G>(c: Curve<G>, a: G) {
    Cong(c.x(c.group.neg(a)), c.x(a), c.p) && Cong(c.y(c.group.neg(a)), -c.y(a), c.p)
  }

  /** Two finite points with different abscissas. */
  ghost predicate Apart<G>(c: Curve<G>, a: G, b: G) {
    a != c.group.zero && b != c.group.zero && !Cong(c.x(a), c.x(b), c.p)
  }

  ghost predicate Sums<G>(c: Curve<G>, a: G, b: G) {
    var s := c.group.add(a, b);
    exists l :: Chord(c.x(a), c.y(a), c.x(b), c.y(b), l, c.x(s), c.y(s), c.p)
  }

  ghost predicate Shows<G>(c: Curve<G>, s: Co, a: G, z: int) {
    At(s, c.x(a), c.y(a), z, c.p)
  }

  /** Both registers show the group elements at one Z. */
  ghost predicate Tracks<G>(c: Curve<G>, regs: seq<Co>, r: seq<G>, z: int) {
    |regs| == 2 && |r| == 2 && Shows(c, regs[0], r[0], z) && Shows(c, regs[1], r[1], z)
  }

  lemma SumOf<G(!new)>(c: Curve<G>, a: G, b: G) returns (l: int)
    requires ChordLaw(c) && Apart(c, a, b)
    ensures var s := c.group.add(a, b); Chord(c.x(a), c.y(a), c.x(b), c.y(b), l, c.x(s), c.y(s), c.p)
  {
    assert Sums(c, a, b);
    var s := c.group.add(a, b);
    l :| Chord(c.x(a), c.y(a), c.x(b), c.y(b), l, c.x(s), c.y(s), c.p);
  }

  lemma NegOf<G(!new)>(c: Curve<G>, a: G)
    requires ChordLaw(c) && a != c.group.zero
    ensures Cong(c.x(c.group.neg(a)), c.x(a), c.p) && Cong(c.y(c.group.neg(a)), -c.y(a), c.p)
  {
    assert Mirrors(c, a);
  }

  lemma NegOfZero<G(!new)>(c: Curve<G>, a: G)
    requires IsAbelian(c.group)
    ensures c.group.neg(a) == c.group.zero <==> a == c.group.zero
  {
    hide IsAbelian;
    Units(c.group, a);
    Units(c.group, c.group.neg(a));
  }

  lemma Opposite<G(!new)>(g: Group<G>, a: G, b: G)
    requires IsAbelian(g) && g.add(a, b) == g.zero
    ensures b == g.neg(a)
  {
    hide IsAbelian;
    Units(g, a);
    Units(g, b);
    Units(g, g.neg(a));
    Comm(g, a, b);
    Assoc(g, b, a, g.neg(a));
  }

  /** Sum and difference of such points are finite again. */
  lemma ApartIsFinite<G(!new)>(c: Curve<G>, a: G, b: G)
    requires ChordLaw(c) && Apart(c, a, b)
    ensures c.group.add(a, b) != c.group.zero && c.group.add(a, c.group.neg(b)) != c.group.zero
  {
    hide *;
    PositiveP(c);
    ApartIs(c, a, b);
    var g := c.group;
    if g.add(a, b) == g.zero {
      Opposite(g, a, b);
      NegOf(c, a);
      CongSym(c.x(b), c.x(a), c.p);
    }
    if g.add(a, g.neg(b)) == g.zero {
      Comm(g, a, g.neg(b));
      Opposite(g, g.neg(b), a);
      Units(g, b);
      Comm(g, b, g.neg(b));
      Opposite(g, g.neg(b), b);
      CongRefl(c.x(a), c.p);
    }
  }

  lemma ApartIs<G>(c: Curve<G>, a: G, b: G)
    requires Apart(c, a, b)
    ensures a != c.group.zero && b != c.group.zero && !Cong(c.x(a), c.x(b), c.p)
  {}

  /** A chord does not depend on the representatives of its second point. */
  lemma ChordCong(x1: int, y1: int, x2: int, y2: int, x2': int, y2': int, l: int, x3: int, y3: int, p: nat)
    requires Chord(x1, y1, x2, y2, l, x3, y3, p) && Cong(x2, x2', p) && Cong(y2, y2', p)
    ensures Chord(x1, y1, x2', y2', l, x3, y3, p)
  {
    CongSym(x2, x2', p);
    CongSym(y2, y2', p);
    CongRefl(x1, p);
    CongRefl(y1, p);
    CongRefl(l, p);
    CongAdd(x2, x2', x1, x1, p);
    CongMul(l, l, x2 - x1, x2' - x1, p);
    CongAdd(y1, y1, l * (x2 - x1), l * (x2' - x1), p);
    CongTrans(y2', y2, y1 + l * (x2 - x1), p);
    CongTrans(y2', y1 + l * (x2 - x1), y1 + l * (x2' - x1), p);
    CongRefl(l * l - x1, p);
    CongAdd(l * l - x1, l * l - x1, x2, x2', p);
    var t, t' := l * l - x1 - x2, l * l - x1 - x2';
    CongTrans(x3, t, t', p);
    CongAdd(x1, x1, t, t', p);
    CongMul(l, l, x1 - t, x1 - t', p);
    CongAdd(l * (x1 - t), l * (x1 - t'), y1, y1, p);
    CongTrans(y3, l * (x1 - t) - y1, l * (x1 - t') - y1, p);
  }

  lemma NotCongSym(a: int, b: int, b': int, p: nat)
    requires !Cong(a, b, p) && Cong(b', b, p)
    ensures !Cong(a, b', p) && !Cong(b, a, p)
  {
    if Cong(a, b', p) { CongTrans(a, b', b, p); }
    if Cong(b, a, p) { CongSym(b, a, p); }
  }

  /** XYcZ_addC follows the group: difference and sum, at one new Z. */
  lemma AddCShows<G(!new)>(c: Curve<G>, s: Co, t: Co, a: G, b: G, z: int)
    requires ChordLaw(c) && Shows(c, s, a, z) && Shows(c, t, b, z) && Apart(c, a, b)
    ensures var w := NewZ(z, c.x(b) - c.x(a));
            && Shows(c, CoAddC(s, t, c.p).0, AddC(c.group, a, b).0, w)
            && Shows(c, CoAddC(s, t, c.p).1, AddC(c.group, a, b).1, w)
  {
    hide IsAbelian, At, Cong, Chord, CoAddC, NewZ;
    var n := c.group.neg(b);
    NegOf(c, b);
    NegOfZero(c, b);
    NotCongSym(c.x(a), c.x(b), c.x(n), c.p);
    var l := SumOf(c, a, b);
    var l' := SumOf(c, a, n);
    var d := c.group.add(a, n);
    var u := c.group.add(a, b);
    ChordCong(c.x(a), c.y(a), c.x(n), c.y(n), c.x(b), -c.y(b), l', c.x(d), c.y(d), c.p);
    CoAddCIsChord(s, t, c.x(a), c.y(a), c.x(b), c.y(b), z, c.p, l, c.x(u), c.y(u), l', c.x(d), c.y(d));
  }

  lemma AddShows<G(!new)>(c: Curve<G>, s: Co, t: Co, a: G, b: G, z: int)
    requires ChordLaw(c) && Shows(c, s, a, z) && Shows(c, t, b, z) && Apart(c, a, b)
    ensures var w := NewZ(z, c.x(b) - c.x(a));
            && Shows(c, CoAdd(s, t, c.p).0, AddCoZ(c.group, a, b).0, w)
            && Shows(c, CoAdd(s, t, c.p).1, AddCoZ(c.group, a, b).1, w)
  {
    hide IsAbelian, At, Cong, Chord, CoAdd, NewZ;
    var l := SumOf(c, a, b);
    var u := c.group.add(a, b);
    CoAddIsChord(s, t, c.x(a), c.y(a), c.x(b), c.y(b), l, c.x(u), c.y(u), z, c.p);
  }

  // ----- one step ------------------------------------------------------------------------------------

  /** The body of the loop of EccPoint_mult on coordinates. */
  function CoStep(regs: seq<Co>, nb: nat, p: nat): (r: seq<Co>)
    requires |regs| == 2 && nb <= 1 && p > 0
    ensures |r| == 2
  {
    var (d, s) := CoAddC(regs[1 - nb], regs[nb], p);
    var (s', t) := CoAdd(s, d, p);
    regs[nb := s'][1 - nb := t]
  }

  /** The points a step adds are finite and have different abscissas. */
  ghost predicate Regular<G>(c: Curve<G>, r: seq<G>, nb: nat)
    requires |r| == 2 && nb <= 1
  {
    var (d, s) := AddC(c.group, r[1 - nb], r[nb]);
    Apart(c, r[1 - nb], r[nb]) && !Cong(c.x(s), c.x(d), c.p)
  }

  /** The Z after the first and after the second addition of a step. */
  ghost function MidZ<G>(c: Curve<G>, r: seq<G>, nb: nat, z: int): int
    requires |r| == 2 && nb <= 1
  {
    NewZ(z, c.x(r[nb]) - c.x(r[1 - nb]))
  }

  ghost function NextZ<G>(c: Curve<G>, r: seq<G>, nb: nat, z: int): int
    requires |r| == 2 && nb <= 1
  {
    var (d, s) := AddC(c.group, r[1 - nb], r[nb]);
    NewZ(MidZ(c, r, nb, z), c.x(d) - c.x(s))
  }

  lemma CoStepTracks<G(!new)>(c: Curve<G>, regs: seq<Co>, r: seq<G>, nb: nat, z: int)
    requires ChordLaw(c) && nb <= 1 && Tracks(c, regs, r, z) && Regular(c, r, nb)
    ensures Tracks(c, CoStep(regs, nb, c.p), Step(c.group, r, nb), NextZ(c, r, nb, z))
  {
    hide ChordLaw, CoAdd, CoAddC, Shows, Cong, NewZ;
    assert c.p > 0 by { PositiveP(c); }
    var (d, s) := AddC(c.group, r[1 - nb], r[nb]);
    var (d', s') := CoAddC(regs[1 - nb], regs[nb], c.p);
    AddCShows(c, regs[1 - nb], regs[nb], r[1 - nb], r[nb], z);
    ApartIsFinite(c, r[1 - nb], r[nb]);
    AddShows(c, s', d', s, d, MidZ(c, r, nb, z));
  }

  lemma PositiveP<G(!new)>(c: Curve<G>)
    requires ChordLaw(c)
    ensures c.p > 0 && IsAbelian(c.group)
  {}

  lemma NewZNonzero(z: int, d: int, p: nat)
    requires IsPrime(p) && Nonzero(z, p) && Nonzero(d, p)
    ensures Nonzero(NewZ(z, d), p)
  {
    NonzeroProduct(z, z, p);
    NonzeroProduct(d, z * z, p);
    NonzeroProduct(z, d * (z * z), p);
  }

  /** A regular step keeps Z away from zero. */
  lemma StepNonzero<G(!new)>(c: Curve<G>, r: seq<G>, nb: nat, z: int)
    requires IsPrime(c.p) && nb <= 1 && |r| == 2 && Regular(c, r, nb) && Nonzero(z, c.p)
    ensures Nonzero(MidZ(c, r, nb, z), c.p) && Nonzero(NextZ(c, r, nb, z), c.p)
  {
    hide IsPrime, Nonzero, Cong, NewZ;
    var (d, s) := AddC(c.group, r[1 - nb], r[nb]);
    NonzeroSwap(c.x(r[1 - nb]), c.x(r[nb]), c.p);
    NewZNonzero(z, c.x(r[nb]) - c.x(r[1 - nb]), c.p);
    NonzeroSwap(c.x(s), c.x(d), c.p);
    NewZNonzero(MidZ(c, r, nb, z), c.x(d) - c.x(s), c.p);
  }

  lemma NonzeroSwap(a: int, b: int, p: nat)
    requires !Cong(a, b, p)
    ensures Nonzero(b - a, p)
  {
    if Cong(b, a, p) { CongSym(b, a, p); }
  }

  // ----- recovering 1/Z --------------------------------------------------------------------------------

  /** What EccPoint_mult inverts: xP * Yb * (X1 - X0), read between the last addC and add. */
  function Divisor(d: Co, s: Co, nb: nat, point: Co, p: nat): (t: nat)
    requires nb <= 1 && p > 0
  {
    var diff := if nb == 0 then FSub(d.x, s.x, p) else FSub(s.x, d.x, p);
    FMul(FMul(diff, d.y, p), point.x, p)
  }

  /** Xb * yP * inv */
  function FinalZ(d: Co, inv: int, point: Co, p: nat): (z: nat)
    requires p > 0
  {
    FMul(FMul(inv, point.y, p), d.x, p)
  }

  /** Rearranging the product z * w2: it is inv times the divisor. */
  lemma DivisorIdentity(inv: int, yp: int, xp: int, w: int, e: int)
    ensures inv * yp * (xp * (w * w)) * (w * e) == inv * (e * (yp * (w * (w * w))) * xp)
  {
    var ww := w * w;
    calc {
      inv * yp * (xp * ww) * (w * e);
      { MulAssoc(inv, yp, xp * ww); MulAssoc(inv, yp * (xp * ww), w * e); }
      inv * (yp * (xp * ww) * (w * e));
      { MulAssoc(yp, xp, ww); MulAssoc(yp * xp, ww, w * e); MulAssoc(ww, w, e); MulAssoc(w, w, w); }
      inv * (yp * xp * (w * ww * e));
      { MulAssoc(yp * xp, w * ww, e); }
      inv * (yp * xp * (w * ww) * e);
      { MulAssoc(yp, xp, w * ww); MulAssoc(yp, w * ww, xp); }
      inv * (yp * (w * ww) * xp * e);
      { MulAssoc(yp * (w * ww), xp, e); MulAssoc(e, yp * (w * ww), xp); MulAssoc(yp * (w * ww), e, xp); }
      inv * (e * (yp * (w * ww)) * xp);
    }
  }

  /** z is the inverse of the Z of the final addition, for either sign of the last bit. */
  lemma FinalZInverts(d: Co, s: Co, nb: nat, point: Co, inv: int, p: nat, w: int, xd: int, xs: int)
    requires nb <= 1 && p > 0
    requires At(d, point.x, if nb == 0 then point.y else -point.y, w, p)
    requires Cong(d.x, xd * (w * w), p) && Cong(s.x, xs * (w * w), p)
    requires Cong(inv * Divisor(d, s, nb, point, p), 1, p)
    ensures Cong(FinalZ(d, inv, point, p) * NewZ(w, xd - xs), 1, p)
  {
    var ww, www := w * w, w * (w * w);
    var e := (xd - xs) * ww;
    var sg := if nb == 0 then 1 else -1;
    var diff: int := if nb == 0 then FSub(d.x, s.x, p) else FSub(s.x, d.x, p);
    MulDist(xd, xs, ww);
    SubC(d.x, s.x, xd * ww, xs * ww, p);
    SubC(s.x, d.x, xs * ww, xd * ww, p);
    assert Cong(diff, sg * e, p);
    assert Cong(d.y, sg * point.y * www, p);
    MulC(diff, d.y, sg * e, sg * point.y * www, p);
    assert sg * e * (sg * point.y * www) == e * (point.y * www) by { SignCancels(sg, e, point.y, www); }
    CongRefl(point.x, p);
    CongRefl(point.y, p);
    CongRefl(inv, p);
    MulC(FMul(diff, d.y, p), point.x, e * (point.y * www), point.x, p);
    var t: int := Divisor(d, s, nb, point, p);
    var t' := e * (point.y * www) * point.x;
    CongMul(inv, inv, t, t', p);
    MulC(inv, point.y, inv, point.y, p);
    MulC(FMul(inv, point.y, p), d.x, inv * point.y, point.x * ww, p);
    CongRefl(w * e, p);
    var z: int := FinalZ(d, inv, point, p);
    CongMul(z, inv * point.y * (point.x * ww), w * e, w * e, p);
    DivisorIdentity(inv, point.y, point.x, w, e);
    CongSym(inv * t, inv * t', p);
    CongTrans(z * (w * e), inv * t', inv * t, p);
    CongTrans(z * (w * e), inv * t, 1, p);
  }

  lemma SignCancels(sg: int, e: int, y: int, w: int)
    requires sg == 1 || sg == -1
    ensures sg * e * (sg * y * w) == e * (y * w)
  {
    assert -y * w == -(y * w);
    assert -e * -(y * w) == e * (y * w);
  }

  /** Scaling by the inverse of Z gives back the affine coordinates. */
  lemma ApplyZInverts(s: Co, x: int, y: int, w: int, z: int, p: nat)
    requires p > 0 && At(s, x, y, w, p) && Cong(z * w, 1, p)
    ensures Cong(ApplyZ(s, z, p).x, x, p) && Cong(ApplyZ(s, z, p).y, y, p)
  {
    var u := z * w;
    CongRefl(z, p);
    MulC(z, z, z, z, p);
    MulC(FMul(z, z, p), z, z * z, z, p);
    MulC(s.x, FMul(z, z, p), x * (w * w), z * z, p);
    MulC(s.y, FMul(FMul(z, z, p), z, p), y * (w * (w * w)), z * z * z, p);
    SquareOfProduct(z, w);
    MulAssoc(x, w * w, z * z);
    CongMul(u, 1, u, 1, p);
    CongRefl(x, p);
    CongRefl(y, p);
    CongMul(x, x, u * u, 1, p);
    CongTrans(ApplyZ(s, z, p).x, x * (u * u), x, p);
    CongMul(u * u, 1, u, 1, p);
    CongMul(y, y, u * u * u, 1, p);
    CubeOfProduct(y, w, z);
    CongTrans(ApplyZ(s, z, p).y, y * (u * u * u), y, p);
  }

  lemma CubeOfProduct(y: int, w: int, z: int)
    ensures y * (w * (w * w)) * (z * z * z) == y * (z * w * (z * w) * (z * w))
  {
    var ww, zz := w * w, z * z;
    MulAssoc(y, w * ww, zz * z);
    calc {
      w * ww * (zz * z);
      { MulAssoc(w, ww, zz * z); MulAssoc(ww, zz, z); }
      w * (ww * zz * z);
      { MulAssoc(w, ww * zz, z); MulAssoc(ww * zz, w, z); }
      ww * zz * (w * z);
      { SquareOfProduct(z, w); }
      z * w * (z * w) * (z * w);
    }
  }

  // ----- the whole run ----------------------------------------------------------------------------------

  /** The registers after the steps for bits i - 1 .. j of s. */
  ghost function CoRun(regs: seq<Co>, s: nat, i: nat, j: nat, p: nat): (r: seq<Co>)
    requires |regs| == 2 && p > 0
    ensures |r| == 2
    decreases i
  {
    if i <= j then regs else CoRun(CoStep(regs, 1 - Bit(s, i - 1), p), s, i - 1, j, p)
  }

  ghost function Multiples<G>(c: Curve<G>, point: G, m: nat): (r: seq<G>)
    ensures |r| == 2
  {
    [Times(c.group, m, point), Times(c.group, m + 1, point)]
  }

  /** No step over the bits i - 1 .. j of s meets an exceptional case. */
  ghost predicate RegularRun<G>(c: Curve<G>, point: G, s: nat, i: nat, j: nat) {
    forall k :: j <= k < i ==> Regular(c, Multiples(c, point, Prefix(s, k + 1)), 1 - Bit(s, k))
  }

  lemma MultiplesStep<G(!new)>(c: Curve<G>, point: G, s: nat, k: nat)
    requires IsAbelian(c.group)
    ensures Step(c.group, Multiples(c, point, Prefix(s, k + 1)), 1 - Bit(s, k)) == Multiples(c, point, Prefix(s, k))
  {
    hide IsAbelian, Step, Times, Bit, Prefix;
    var m := Prefix(s, k + 1);
    var nb := 1 - Bit(s, k);
    StepKeepsRungs(c.group, point, Multiples(c, point, m), m, nb);
    NextPrefix(s, k);
    var r := Step(c.group, Multiples(c, point, m), nb);
    assert r == [r[0], r[1]];
  }

  lemma RunStep<G(!new)>(c: Curve<G>, point: G, regs: seq<Co>, s: nat, k: nat, z: int) returns (z': int)
    requires c.p > 0 && ChordLaw(c) && |regs| == 2
    requires Regular(c, Multiples(c, point, Prefix(s, k + 1)), 1 - Bit(s, k))
    requires Tracks(c, regs, Multiples(c, point, Prefix(s, k + 1)), z)
    ensures z' == NextZ(c, Multiples(c, point, Prefix(s, k + 1)), 1 - Bit(s, k), z)
    ensures Tracks(c, CoStep(regs, 1 - Bit(s, k), c.p), Multiples(c, point, Prefix(s, k)), z')
  {
    hide *;
    PositiveP(c);
    var r := Multiples(c, point, Prefix(s, k + 1));
    CoStepTracks(c, regs, r, 1 - Bit(s, k), z);
    MultiplesStep(c, point, s, k);
    z' := NextZ(c, r, 1 - Bit(s, k), z);
  }

  /** Until bit j, the coordinates follow the multiples of the point. */
  lemma {:induction false} RunTracks<G(!new)>(c: Curve<G>, point: G, regs: seq<Co>, s: nat, i: nat, j: nat, z: int)
    returns (z': int)
    requires c.p > 0 && ChordLaw(c) && RegularRun(c, point, s, i, j) && |regs| == 2 && j <= i
    requires Tracks(c, regs, Multiples(c, point, Prefix(s, i)), z)
    ensures Tracks(c, CoRun(regs, s, i, j, c.p), Multiples(c, point, Prefix(s, j)), z')
    ensures IsPrime(c.p) && Nonzero(z, c.p) ==> Nonzero(z', c.p)
    decreases i
  {
    hide ChordLaw, Tracks, CoStep, Bit, Multiples, Regular, Prefix, NextZ, IsPrime, Nonzero;
    if i == j {
      z' := z;
    } else {
      var k := i - 1;
      z' := RunStep(c, point, regs, s, k, z);
      if IsPrime(c.p) && Nonzero(z, c.p) { StepNonzero(c, Multiples(c, point, Prefix(s, k + 1)), 1 - Bit(s, k), z); }
      z' := RunTracks(c, point, CoStep(regs, 1 - Bit(s, k), c.p), s, k, j, z');
    }
  }

  /** The last step of EccPoint_mult: addC, the computation of z, add, apply_z.  The outcome is the
      affine point s * P, given an inverse of the divisor. */
  lemma LastStepIsAffine<G(!new)>(c: Curve<G>, point: G, regs: seq<Co>, s: nat, z: int, inv: int)
    requires c.p > 0 && ChordLaw(c) && |regs| == 2
    requires Regular(c, Multiples(c, point, Prefix(s, 1)), 1 - Bit(s, 0))
    requires Tracks(c, regs, Multiples(c, point, Prefix(s, 1)), z)
    requires var nb := 1 - Bit(s, 0); var du := CoAddC(regs[1 - nb], regs[nb], c.p);
             Cong(inv * Divisor(du.0, du.1, nb, Co(c.x(point), c.y(point)), c.p), 1, c.p)
    ensures var nb := 1 - Bit(s, 0); var du := CoAddC(regs[1 - nb], regs[nb], c.p);
            var fz := FinalZ(du.0, inv, Co(c.x(point), c.y(point)), c.p);
            var r := ApplyZ(CoStep(regs, nb, c.p)[0], fz, c.p);
            var q := Times(c.group, s, point);
            Cong(r.x, c.x(q), c.p) && Cong(r.y, c.y(q), c.p)
  {
    hide *;
    var nb := 1 - Bit(s, 0);
    var m := Prefix(s, 1);
    var r := Multiples(c, point, m);
    var z' := RunStep(c, point, regs, s, 0, z);
    WholePrefix(s);
    NextPrefix(s, 0);
    TracksFirst(c, CoStep(regs, nb, c.p), point, s, z');
    var du := CoAddC(regs[1 - nb], regs[nb], c.p);
    var base := Co(c.x(point), c.y(point));
    MiddleShows(c, point, regs, m, nb, z);
    var w := MidZ(c, r, nb, z);
    var gdu := AddC(c.group, r[1 - nb], r[nb]);
    FinalZInverts(du.0, du.1, nb, base, inv, c.p, w, c.x(gdu.0), c.x(gdu.1));
    NextZIs(c, r, nb, z);
    var q := Times(c.group, s, point);
    ApplyZInverts(CoStep(regs, nb, c.p)[0], c.x(q), c.y(q), z', FinalZ(du.0, inv, base, c.p), c.p);
  }

  lemma RegularParts<G>(c: Curve<G>, point: G, s: nat, bits: nat)
    requires bits >= 1 && RegularRun(c, point, s, bits, 0)
    ensures RegularRun(c, point, s, bits, 1)
    ensures Regular(c, Multiples(c, point, Prefix(s, 1)), 1 - Bit(s, 0))
  {
    hide Regular, Multiples, Prefix, Bit;
    assert Regular(c, Multiples(c, point, Prefix(s, 0 + 1)), 1 - Bit(s, 0));
  }

  lemma NextZIs<G>(c: Curve<G>, r: seq<G>, nb: nat, z: int)
    requires |r| == 2 && nb <= 1
    ensures var gdu := AddC(c.group, r[1 - nb], r[nb]);
            NextZ(c, r, nb, z) == NewZ(MidZ(c, r, nb, z), c.x(gdu.0) - c.x(gdu.1))
  {}

  lemma TracksFirst<G>(c: Curve<G>, regs: seq<Co>, point: G, s: nat, z: int)
    requires Tracks(c, regs, Multiples(c, point, s), z)
    ensures |regs| == 2 && At(regs[0], c.x(Times(c.group, s, point)), c.y(Times(c.group, s, point)), z, c.p)
  {}

  /** Between the two additions of a step, for both outcomes of addC. */
  lemma MiddleShows<G(!new)>(c: Curve<G>, point: G, regs: seq<Co>, m: nat, nb: nat, z: int)
    requires c.p > 0 && ChordLaw(c) && |regs| == 2 && nb <= 1
    requires Regular(c, Multiples(c, point, m), nb) && Tracks(c, regs, Multiples(c, point, m), z)
    ensures var r := Multiples(c, point, m);
            var w := MidZ(c, r, nb, z);
            var du := CoAddC(regs[1 - nb], regs[nb], c.p);
            var gdu := AddC(c.group, r[1 - nb], r[nb]);
            && At(du.0, c.x(point), if nb == 0 then c.y(point) else -c.y(point), w, c.p)
            && Cong(du.0.x, c.x(gdu.0) * (w * w), c.p) && Cong(du.1.x, c.x(gdu.1) * (w * w), c.p)
  {
    hide ChordLaw, CoAddC, Times, At, Cong, NewZ;
    var r := Multiples(c, point, m);
    var w := MidZ(c, r, nb, z);
    var du := CoAddC(regs[1 - nb], regs[nb], c.p);
    var gdu := AddC(c.group, r[1 - nb], r[nb]);
    AddCShows(c, regs[1 - nb], regs[nb], r[1 - nb], r[nb], z);
    ApartIsFinite(c, r[1 - nb], r[nb]);
    LadderDifference(c, point, m, nb, du.0, w);
    AtX(du.0, c.x(gdu.0), c.y(gdu.0), w, c.p);
    AtX(du.1, c.x(gdu.1), c.y(gdu.1), w, c.p);
  }

  lemma AtX(s: Co, x: int, y: int, w: int, p: nat)
    requires At(s, x, y, w, p)
    ensures Cong(s.x, x * (w * w), p)
  {}

  /** The difference of the registers is the base point up to sign. */
  lemma LadderDifference<G(!new)>(c: Curve<G>, point: G, m: nat, nb: nat, d: Co, w: int)
    requires ChordLaw(c) && nb <= 1
    requires var r := Multiples(c, point, m);
             AddC(c.group, r[1 - nb], r[nb]).0 != c.group.zero && Shows(c, d, AddC(c.group, r[1 - nb], r[nb]).0, w)
    ensures At(d, c.x(point), if nb == 0 then c.y(point) else -c.y(point), w, c.p)
  {
    hide *;
    PositiveP(c);
    var dd := AddC(c.group, Multiples(c, point, m)[1 - nb], Multiples(c, point, m)[nb]).0;
    MultiplesDifference(c, point, m, nb);
    ShowsIsAt(c, d, dd, w);
    if nb == 1 {
      NegOfZero(c, point);
      NegOf(c, point);
      CongSym(c.x(dd), c.x(point), c.p);
      CongSym(c.y(dd), -c.y(point), c.p);
      AtCong(d, c.x(dd), c.y(dd), c.x(point), -c.y(point), w, c.p);
    }
  }

  lemma ShowsIsAt<G>(c: Curve<G>, d: Co, a: G, w: int)
    requires Shows(c, d, a, w)
    ensures At(d, c.x(a), c.y(a), w, c.p)
  {}

  lemma MultiplesDifference<G(!new)>(c: Curve<G>, point: G, m: nat, nb: nat)
    requires IsAbelian(c.group) && nb <= 1
    ensures AddC(c.group, Multiples(c, point, m)[1 - nb], Multiples(c, point, m)[nb]).0
         == if nb == 0 then point else c.group.neg(point)
  {
    hide IsAbelian, Times;
    RegisterDifference(c.group, point, m);
  }

  lemma RegisterDifference<G(!new)>(g: Group<G>, point: G, m: nat)
    requires IsAbelian(g)
    ensures g.add(Times(g, m + 1, point), g.neg(Times(g, m, point))) == point
    ensures g.add(Times(g, m, point), g.neg(Times(g, m + 1, point))) == g.neg(point)
  {
    hide IsAbelian;
    var a := Times(g, m, point);
    assert Times(g, m + 1, point) == g.add(a, point);
    Comm(g, a, point);
    GroupCancel(g, point, a);
  }
}
