/** The start of EccPoint_mult (deps/micro-ecc/uECC.c, deps/micro-ecc/curve-specific.inc): doubling on a
    curve with a = -3, and the two registers at one Z. */
module EccDouble {
  import opened Arith
  import opened VliInv
  import opened EccCoZ
  import opened Primes

  // ----- the formulas -----------------------------------------------------------------------------------

  /** 3 / 2 * (x^2 - z^4), where zz is z^2. */
  function Slope(x: int, zz: int, p: nat): (b: nat)
    requires p > 0 && p % 2 == 1
  {
    var t := FAdd(x, zz, p);
    var m := FMul(t, FSub(t, FAdd(zz, zz, p), p), p);
    HalfMod(FAdd(m, FAdd(m, m, p), p), p)
  }

  /** double_jacobian_default on values, for z other than zero: the double and its Z. */
  function CoDouble(s: Co, z: int, p: nat): (r: (Co, nat))
    requires p > 0 && p % 2 == 1
  {
    var yy := FMul(s.y, s.y, p);
    var a := FMul(s.x, yy, p);
    var b := Slope(s.x, FMul(z, z, p), p);
    var x3 := FSub(FSub(FMul(b, b, p), a, p), a, p);
    (Co(x3, FSub(FMul(b, FSub(a, x3, p), p), FMul(yy, yy, p), p)), FMul(s.y, z, p))
  }

  /** XYcZ_initial_double on values: the point and its double at one Z, and that Z. */
  function CoInitial(point: Co, z: int, p: nat): (r: (seq<Co>, nat))
    requires p > 0 && p % 2 == 1
    ensures |r.0| == 2
  {
    var (double, w) := CoDouble(ApplyZ(point, z, p), z, p);
    ([ApplyZ(point, w, p), double], w)
  }

  // ----- what they mean ---------------------------------------------------------------------------------

  /** The tangent at (x, y) has slope l and gives the double (x3, y3). */
  ghost predicate Tangent(x: int, y: int, l: int, x3: int, y3: int, p: nat) {
    && Cong(l * (2 * y), 3 * (x * x - 1), p)
    && Cong(x3, l * l - x - x, p)
    && Cong(y3, l * (x - (l * l - x - x)) - y, p)
  }

  /** The Z of the double. */
  ghost function DoubleZ(y: int, z: int): int {
    y * ((z * z) * (z * z))
  }

  lemma ApplyZShows(s: Co, x: int, y: int, z: int, p: nat)
    requires p > 0 && Cong(s.x, x, p) && Cong(s.y, y, p)
    ensures At(ApplyZ(s, z, p), x, y, z, p)
  {
    CongRefl(z, p);
    MulC(z, z, z, z, p);
    var zz := FMul(z, z, p);
    MulC(s.x, zz, x, z * z, p);
    MulC(zz, z, z * z, z, p);
    MulC(s.y, FMul(zz, z, p), y, z * z * z, p);
  }

  /** At Z values that are congruent, registers show the same points. */
  lemma AtSameZ(s: Co, x: int, y: int, z: int, z': int, p: nat)
    requires At(s, x, y, z, p) && Cong(z, z', p)
    ensures At(s, x, y, z', p)
  {
    CongMul(z, z', z, z', p);
    CongMul(z, z', z * z, z' * z', p);
    CongRefl(x, p);
    CongRefl(y, p);
    CongMul(x, x, z * z, z' * z', p);
    CongMul(y, y, z * (z * z), z' * (z' * z'), p);
    CongTrans(s.x, x * (z * z), x * (z' * z'), p);
    CongTrans(s.y, y * (z * (z * z)), y * (z' * (z' * z')), p);
  }

  /** Twice the slope is 3 * (x^2 - 1) * u^2, for an abscissa x * u with u = z^2. */
  lemma TwiceSlope(sx: int, zz: int, x: int, u: int, p: nat)
    requires p > 0 && p % 2 == 1 && Cong(sx, x * u, p) && Cong(zz, u, p)
    ensures Cong(2 * Slope(sx, zz, p), 3 * (x * x - 1) * (u * u), p)
  {
    var t := FAdd(sx, zz, p);
    var d := FSub(t, FAdd(zz, zz, p), p);
    var m := FMul(t, d, p);
    AddCong(sx, zz, x * u, u, p);
    AddCong(zz, zz, u, u, p);
    SubC(t, FAdd(zz, zz, p), x * u + u, u + u, p);
    MulC(t, d, x * u + u, x * u - u, p);
    var v := (x * u + u) * (x * u - u);
    assert v == (x * x - 1) * (u * u) by { DifferenceOfSquares(x, u); }
    AddCong(m, m, v, v, p);
    var t3 := FAdd(m, FAdd(m, m, p), p);
    AddCong(m, FAdd(m, m, p), v, v + v, p);
    assert 3 * (x * x - 1) * (u * u) == v + (v + v) by { MulAssoc(3, x * x - 1, u * u); }
    var h := HalfMod(t3, p);
    CongOffset(t3, 1, p);
    CongRefl(t3, p);
    assert Cong(2 * h, t3, p);
    CongTrans(2 * h, t3, v + (v + v), p);
  }

  lemma DifferenceOfSquares(x: int, u: int)
    ensures (x * u + u) * (x * u - u) == (x * x - 1) * (u * u)
  {
    MulDist(x * u, u, x * u - u);
    MulDist(x * u, u, x * u);
    MulDist(x * u, u, u);
    SquareOfProduct(x, u);
    MulDist(x * x, 1, u * u);
  }

  /** The slope at the new Z: the halved value is l * w. */
  lemma SlopeShows(sx: int, zz: int, x: int, y: int, l: int, u: int, p: nat)
    requires p > 0 && p % 2 == 1 && Cong(sx, x * u, p) && Cong(zz, u, p) && Cong(l * (2 * y), 3 * (x * x - 1), p)
    ensures Cong(Slope(sx, zz, p), l * (y * (u * u)), p)
  {
    hide Slope;
    var uu := u * u;
    var b: int := Slope(sx, zz, p);
    TwiceSlope(sx, zz, x, u, p);
    CongRefl(uu, p);
    CongMul(l * (2 * y), 3 * (x * x - 1), uu, uu, p);
    CongSym(l * (2 * y) * uu, 3 * (x * x - 1) * uu, p);
    CongTrans(2 * b, 3 * (x * x - 1) * uu, l * (2 * y) * uu, p);
    assert l * (2 * y) * uu == 2 * (l * (y * uu)) by { Doubled(l, y, uu); }
    HalveModOdd(b - l * (y * uu), p);
  }

  lemma Doubled(l: int, y: int, w: int)
    ensures l * (2 * y) * w == 2 * (l * (y * w))
  {
    MulAssoc(l, 2, y);
    MulAssoc(2, l, y);
    MulAssoc(2, l * y, w);
    MulAssoc(l, y, w);
  }

  /** double_jacobian_default computes the tangent double, and the Z at which it shows. */
  lemma CoDoubleIsTangent(s: Co, x: int, y: int, z: int, l: int, x3: int, y3: int, p: nat)
    requires p > 0 && p % 2 == 1 && At(s, x, y, z, p) && Tangent(x, y, l, x3, y3, p)
    ensures At(CoDouble(s, z, p).0, x3, y3, DoubleZ(y, z), p) && Cong(CoDouble(s, z, p).1, DoubleZ(y, z), p)
  {
    hide Slope;
    var u := z * z;
    var v := y * (z * u);
    var w := DoubleZ(y, z);
    CongRefl(z, p);
    MulC(s.y, z, v, z, p);
    assert v * z == w by { MulAssoc(y, z * u, z); MulAssoc(z, u, z); MulAssoc(u, z, z); }
    MulC(z, z, z, z, p);
    SlopeShows(s.x, FMul(z, z, p), x, y, l, u, p);
    MulC(s.y, s.y, v, v, p);
    var yy := FMul(s.y, s.y, p);
    MulC(s.x, yy, x * u, v * v, p);
    var a := FMul(s.x, yy, p);
    assert x * u * (v * v) == x * (w * w) by { SquareOfProduct(v, z); MulAssoc(x, u, v * v); }
    MulC(yy, yy, v * v, v * v, p);
    FourthPower(y, z, u, v, w);
    CongAdd(a, x * (w * w), a, x * (w * w), p);
    MulDist(x, x, w * w);
    var b := Slope(s.x, FMul(z, z, p), p);
    SumAtW(a, a + a, FMul(yy, yy, p), b, l, x, y, x, w, p);
    SubTwice(FMul(b, b, p), a, a, p);
    AtCong(CoDouble(s, z, p).0, l * l - x - x, l * (x - (l * l - x - x)) - y, x3, y3, w, p);
  }

  lemma FourthPower(y: int, z: int, u: int, v: int, w: int)
    requires u == z * z && v == y * (z * u) && w == v * z
    ensures v * v * (v * v) == y * (w * (w * w))
  {
    var vv := v * v;
    calc {
      y * (w * (w * w));
      { SquareOfProduct(v, z); }
      y * (v * z * (vv * u));
      { MulAssoc(v, z, vv * u); MulAssoc(z, vv, u); MulAssoc(vv, z, u); }
      y * (v * (vv * (z * u)));
      { MulAssoc(v, vv, z * u); MulAssoc(y, v * vv, z * u); MulAssoc(v * vv, y, z * u); }
      v * vv * v;
      { MulAssoc(vv, v, v); }
      vv * vv;
    }
  }

  lemma DoubleZNonzero(y: int, z: int, p: nat)
    requires IsPrime(p) && Nonzero(y, p) && Nonzero(z, p)
    ensures Nonzero(DoubleZ(y, z), p)
  {
    NonzeroProduct(z, z, p);
    NonzeroProduct(z * z, z * z, p);
    NonzeroProduct(y, (z * z) * (z * z), p);
  }

  /** Both registers of the start: the point and its double at one Z, which is not zero. */
  lemma CoInitialShows(point: Co, z: int, x: int, y: int, l: int, x3: int, y3: int, p: nat)
    requires IsPrime(p) && p % 2 == 1 && Nonzero(z, p) && Nonzero(y, p)
    requires Cong(point.x, x, p) && Cong(point.y, y, p) && Tangent(x, y, l, x3, y3, p)
    ensures var (regs, w) := CoInitial(point, z, p);
            At(regs[0], x, y, w, p) && At(regs[1], x3, y3, w, p) && Nonzero(w, p)
  {
    hide At, CoDouble, Tangent, Cong, DoubleZ, Nonzero, ApplyZ;
    var s := ApplyZ(point, z, p);
    ApplyZShows(point, x, y, z, p);
    CoDoubleIsTangent(s, x, y, z, l, x3, y3, p);
    var (double, w) := CoDouble(s, z, p);
    CongSym(w, DoubleZ(y, z), p);
    AtSameZ(double, x3, y3, DoubleZ(y, z), w, p);
    ApplyZShows(point, x, y, w, p);
    DoubleZNonzero(y, z, p);
    NonzeroCong(DoubleZ(y, z), w, p);
  }
}
