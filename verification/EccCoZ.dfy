/** Co-Z point arithmetic of micro-ecc (deps/micro-ecc/uECC.c): two points share one Z coordinate
    that is never stored, and the final 1/Z is recovered from the known base point. */
module EccCoZ {
  import opened Arith
  import opened Vli
  import opened VliMod

  // ----- the prime field, on representatives --------------------------------------------------------

  function FSub(a: int, b: int, p: nat): (r: nat)
    requires p > 0
  {
    (a - b) % p
  }

  function FAdd(a: int, b: int, p: nat): (r: nat)
    requires p > 0
  {
    (a + b) % p
  }

  function FMul(a: int, b: int, p: nat): (r: nat)
    requires p > 0
  {
    (a * b) % p
  }

  lemma SubC(a: int, b: int, a': int, b': int, p: nat)
    requires p > 0 && Cong(a, a', p) && Cong(b, b', p)
    ensures Cong(FSub(a, b, p), a' - b', p)
  {
    CongAdd(a, a', b, b', p);
    CongMod(a - b, p);
    CongTrans(FSub(a, b, p), a - b, a' - b', p);
  }

  lemma AddCong(a: int, b: int, a': int, b': int, p: nat)
    requires p > 0 && Cong(a, a', p) && Cong(b, b', p)
    ensures Cong(FAdd(a, b, p), a' + b', p)
  {
    CongAdd(a, a', b, b', p);
    CongMod(a + b, p);
    CongTrans(FAdd(a, b, p), a + b, a' + b', p);
  }

  lemma MulC(a: int, b: int, a': int, b': int, p: nat)
    requires p > 0 && Cong(a, a', p) && Cong(b, b', p)
    ensures Cong(FMul(a, b, p), a' * b', p)
  {
    CongMul(a, a', b, b', p);
    CongMod(a * b, p);
    CongTrans(FMul(a, b, p), a * b, a' * b', p);
  }

  // ----- the formulas -----------------------------------------------------------------------------------

  datatype Co = Co(x: int, y: int)

  /** XYcZ_add on values: (P rescaled, P + Q). */
  function CoAdd(s: Co, t: Co, p: nat): (r: (Co, Co))
    requires p > 0
  {
    var dx := FSub(t.x, s.x, p);
    var a := FMul(dx, dx, p);
    var b := FMul(s.x, a, p);
    var c := FMul(t.x, a, p);
    var dy := FSub(t.y, s.y, p);
    var d := FMul(dy, dy, p);
    var x3 := FSub(FSub(d, b, p), c, p);
    var e := FMul(s.y, FSub(c, b, p), p);
    var y3 := FSub(FMul(dy, FSub(b, x3, p), p), e, p);
    (Co(b, e), Co(x3, y3))
  }

  /** XYcZ_addC on values: (P - Q, P + Q). */
  function CoAddC(s: Co, t: Co, p: nat): (r: (Co, Co))
    requires p > 0
  {
    var dx := FSub(t.x, s.x, p);
    var a := FMul(dx, dx, p);
    var b := FMul(s.x, a, p);
    var c := FMul(t.x, a, p);
    var sy := FAdd(t.y, s.y, p);
    var dy := FSub(t.y, s.y, p);
    var e := FMul(s.y, FSub(c, b, p), p);
    var bc := FAdd(b, c, p);
    var x3 := FSub(FMul(dy, dy, p), bc, p);
    var y3 := FSub(FMul(dy, FSub(b, x3, p), p), e, p);
    var x4 := FSub(FMul(sy, sy, p), bc, p);
    var y4 := FSub(FMul(FSub(x4, b, p), sy, p), e, p);
    (Co(x4, y4), Co(x3, y3))
  }

  /** apply_z on values: (x * z^2, y * z^3). */
  function ApplyZ(s: Co, z: int, p: nat): (r: Co)
    requires p > 0
  {
    var z2 := FMul(z, z, p);
    Co(FMul(s.x, z2, p), FMul(s.y, FMul(z2, z, p), p))
  }

  // ----- the same formulas in place on word arrays -------------------------------------------------------

  ghost predicate Field(p: array<Word>, n: nat)
    reads p
  {
    1 <= n <= Base() && n <= p.Length && p[n - 1] != 0 && Val(p[..n]) > 0
  }

  ghost predicate Element(a: array<Word>, p: array<Word>, n: nat)
    reads a, p
  {
    n <= a.Length && n <= p.Length && a != p && Val(a[..n]) < Val(p[..n])
  }

  method FieldSub(result: array<Word>, left: array<Word>, right: array<Word>, p: array<Word>, n: nat)
    requires Field(p, n) && Element(left, p, n) && Element(right, p, n) && n <= result.Length && result != p
    modifies result
    ensures Field(p, n) && Element(result, p, n)
    ensures Val(result[..n]) == FSub(old(Val(left[..n])), old(Val(right[..n])), Val(p[..n]))
  {
    ModSub(result, left, right, p, n);
  }

  method FieldAdd(result: array<Word>, left: array<Word>, right: array<Word>, p: array<Word>, n: nat)
    requires Field(p, n) && Element(left, p, n) && Element(right, p, n) && n <= result.Length && result != p
    modifies result
    ensures Field(p, n) && Element(result, p, n)
    ensures Val(result[..n]) == FAdd(old(Val(left[..n])), old(Val(right[..n])), Val(p[..n]))
  {
    ModAdd(result, left, right, p, n);
  }

  method FieldMul(result: array<Word>, left: array<Word>, right: array<Word>, p: array<Word>, n: nat)
    requires Field(p, n) && Element(left, p, n) && Element(right, p, n) && n <= result.Length && result != p
    modifies result
    ensures Field(p, n) && Element(result, p, n)
    ensures Val(result[..n]) == FMul(old(Val(left[..n])), old(Val(right[..n])), Val(p[..n]))
  {
    ModMult(result, left, right, p, n);
  }

  method FieldSquare(result: array<Word>, left: array<Word>, p: array<Word>, n: nat)
    requires Field(p, n) && Element(left, p, n) && n <= result.Length && result != p
    modifies result
    ensures Field(p, n) && Element(result, p, n)
    ensures Val(result[..n]) == FMul(old(Val(left[..n])), old(Val(left[..n])), Val(p[..n]))
  {
    ModSquare(result, left, p, n);
  }

  /** Both x-coordinates times A = (x2 - x1)^2. */
  method Rescale(x1: array<Word>, x2: array<Word>, t5: array<Word>, p: array<Word>, n: nat)
    requires Field(p, n) && Element(x1, p, n) && Element(x2, p, n) && x1 != x2
    requires n <= t5.Length && t5 != x1 && t5 != x2 && t5 != p
    modifies x1, x2, t5
    ensures Field(p, n) && Element(x1, p, n) && Element(x2, p, n)
    ensures var m := Val(p[..n]); var dx := FSub(old(Val(x2[..n])), old(Val(x1[..n])), m); var a := FMul(dx, dx, m);
            && Val(x1[..n]) == FMul(old(Val(x1[..n])), a, m) && Val(x2[..n]) == FMul(old(Val(x2[..n])), a, m)
  {
    hide Val, FSub, FAdd, FMul, Field, Element;
    ElementLength(x1, p, n);
    ElementLength(x2, p, n);
    FieldSub(t5, x2, x1, p, n);
    FieldSquare(t5, t5, p, n);
    FieldMul(x1, x1, t5, p, n);
    FieldMul(x2, x2, t5, p, n);
  }

  /** XYcZ_add. */
  method XYcZAdd(x1: array<Word>, y1: array<Word>, x2: array<Word>, y2: array<Word>, p: array<Word>, n: nat)
    requires Field(p, n) && Element(x1, p, n) && Element(y1, p, n) && Element(x2, p, n) && Element(y2, p, n)
    requires x1 != y1 && x1 != x2 && x1 != y2 && y1 != x2 && y1 != y2 && x2 != y2
    modifies x1, y1, x2, y2
    ensures Field(p, n) && Element(x1, p, n) && Element(y1, p, n) && Element(x2, p, n) && Element(y2, p, n)
    ensures (Co(Val(x1[..n]), Val(y1[..n])), Co(Val(x2[..n]), Val(y2[..n])))
         == CoAdd(old(Co(Val(x1[..n]), Val(y1[..n]))), old(Co(Val(x2[..n]), Val(y2[..n]))), Val(p[..n]))
  {
    hide Val, FSub, FAdd, FMul, Field, Element;
    ElementLength(x1, p, n);
    ElementLength(y1, p, n);
    ElementLength(x2, p, n);
    ElementLength(y2, p, n);
    var t5 := new Word[n];
    Rescale(x1, x2, t5, p, n);
    FieldSub(y2, y2, y1, p, n);
    FieldSquare(t5, y2, p, n);
    FieldSub(t5, t5, x1, p, n);
    FieldSub(t5, t5, x2, p, n);
    FieldSub(x2, x2, x1, p, n);
    FieldMul(y1, y1, x2, p, n);
    FieldSub(x2, x1, t5, p, n);
    FieldMul(y2, y2, x2, p, n);
    FieldSub(y2, y2, y1, p, n);
    SetElement(x2, t5, p, n);
  }

  lemma ElementLength(a: array<Word>, p: array<Word>, n: nat)
    requires Element(a, p, n)
    ensures n <= a.Length && n <= p.Length && a != p
  {}

  method SetElement(dest: array<Word>, src: array<Word>, p: array<Word>, n: nat)
    requires Element(src, p, n) && n <= dest.Length && dest != p && dest != src
    modifies dest
    ensures Element(src, p, n) && Element(dest, p, n)
    ensures Val(dest[..n]) == Val(src[..n])
  {
    Set(dest, src, n);
  }

  /** The middle of XYcZ_addC: x1 = B, x2 = C, y2 = y2 - y1. */
  method Sum(x1: array<Word>, y1: array<Word>, x2: array<Word>, y2: array<Word>, t6: array<Word>, t7: array<Word>,
             p: array<Word>, n: nat)
    requires Field(p, n) && Element(x1, p, n) && Element(y1, p, n) && Element(x2, p, n) && Element(y2, p, n)
    requires x1 != y1 && x1 != x2 && x1 != y2 && y1 != x2 && y1 != y2 && x2 != y2 && t6 != t7
    requires n <= t6.Length && t6 != x1 && t6 != y1 && t6 != x2 && t6 != y2 && t6 != p
    requires n <= t7.Length && t7 != x1 && t7 != y1 && t7 != x2 && t7 != y2 && t7 != p
    modifies y1, x2, y2, t6, t7
    ensures Field(p, n) && Element(x1, p, n) && Element(y1, p, n) && Element(x2, p, n) && Element(y2, p, n)
    ensures Element(t6, p, n)
    ensures var m := Val(p[..n]); var b := Val(x1[..n]); var c := old(Val(x2[..n])); var dy := old(Val(y2[..n]));
            var e := FMul(old(Val(y1[..n])), FSub(c, b, m), m);
            var x3 := FSub(FMul(dy, dy, m), FAdd(b, c, m), m);
            && Val(t6[..n]) == FAdd(b, c, m) && Val(y1[..n]) == e && Val(x2[..n]) == x3
            && Val(y2[..n]) == FSub(FMul(dy, FSub(b, x3, m), m), e, m)
  {
    hide Val, FSub, FAdd, FMul, Field, Element;
    ElementLength(y1, p, n);
    ElementLength(x2, p, n);
    ElementLength(y2, p, n);
    FieldSub(t6, x2, x1, p, n);
    FieldMul(y1, y1, t6, p, n);
    FieldAdd(t6, x1, x2, p, n);
    FieldSquare(x2, y2, p, n);
    FieldSub(x2, x2, t6, p, n);
    FieldSub(t7, x1, x2, p, n);
    FieldMul(y2, y2, t7, p, n);
    FieldSub(y2, y2, y1, p, n);
  }

  /** The last third of XYcZ_addC: x1 = B, y1 = E, t5 = y2 + y1, t6 = B + C. */
  method Difference(x1: array<Word>, y1: array<Word>, t5: array<Word>, t6: array<Word>, t7: array<Word>,
                    p: array<Word>, n: nat)
    requires Field(p, n) && Element(x1, p, n) && Element(y1, p, n) && Element(t5, p, n) && Element(t6, p, n)
    requires x1 != y1 && x1 != t5 && x1 != t6 && y1 != t5 && y1 != t6 && t5 != t6
    requires n <= t7.Length && t7 != x1 && t7 != y1 && t7 != t5 && t7 != t6 && t7 != p
    modifies x1, y1, t6, t7
    ensures Field(p, n) && Element(x1, p, n) && Element(y1, p, n)
    ensures var m := Val(p[..n]); var b := old(Val(x1[..n])); var sy := old(Val(t5[..n]));
            var x4 := FSub(FMul(sy, sy, m), old(Val(t6[..n])), m);
            && Val(x1[..n]) == x4
            && Val(y1[..n]) == FSub(FMul(FSub(x4, b, m), sy, m), old(Val(y1[..n])), m)
  {
    hide Val, FSub, FAdd, FMul, Field, Element;
    ElementLength(x1, p, n);
    ElementLength(y1, p, n);
    ElementLength(t6, p, n);
    FieldSquare(t7, t5, p, n);
    FieldSub(t7, t7, t6, p, n);
    FieldSub(t6, t7, x1, p, n);
    FieldMul(t6, t6, t5, p, n);
    FieldSub(y1, t6, y1, p, n);
    SetElement(x1, t7, p, n);
  }

  /** XYcZ_addC. */
  method XYcZAddC(x1: array<Word>, y1: array<Word>, x2: array<Word>, y2: array<Word>, p: array<Word>, n: nat)
    requires Field(p, n) && Element(x1, p, n) && Element(y1, p, n) && Element(x2, p, n) && Element(y2, p, n)
    requires x1 != y1 && x1 != x2 && x1 != y2 && y1 != x2 && y1 != y2 && x2 != y2
    modifies x1, y1, x2, y2
    ensures Field(p, n) && Element(x1, p, n) && Element(y1, p, n) && Element(x2, p, n) && Element(y2, p, n)
    ensures (Co(Val(x1[..n]), Val(y1[..n])), Co(Val(x2[..n]), Val(y2[..n])))
         == CoAddC(old(Co(Val(x1[..n]), Val(y1[..n]))), old(Co(Val(x2[..n]), Val(y2[..n]))), Val(p[..n]))
  {
    hide Val, FSub, FAdd, FMul, Field, Element;
    ElementLength(x1, p, n);
    ElementLength(y1, p, n);
    ElementLength(x2, p, n);
    ElementLength(y2, p, n);
    var t5, t6, t7 := new Word[n], new Word[n], new Word[n];
    Rescale(x1, x2, t5, p, n);
    FieldAdd(t5, y2, y1, p, n);
    FieldSub(y2, y2, y1, p, n);
    Sum(x1, y1, x2, y2, t6, t7, p, n);
    Difference(x1, y1, t5, t6, t7, p, n);
  }

  // ----- what the formulas mean ----------------------------------------------------------------------------

  /** s is the point with affine coordinates x, y at the common Z. */
  ghost predicate At(s: Co, x: int, y: int, z: int, p: nat) {
    Cong(s.x, x * (z * z), p) && Cong(s.y, y * (z * (z * z)), p)
  }

  /** The line through (x1, y1) and (x2, y2) has slope l and gives the sum (x3, y3). */
  ghost predicate Chord(x1: int, y1: int, x2: int, y2: int, l: int, x3: int, y3: int, p: nat) {
    && Cong(y2, y1 + l * (x2 - x1), p)
    && Cong(x3, l * l - x1 - x2, p)
    && Cong(y3, l * (x1 - (l * l - x1 - x2)) - y1, p)
  }

  /** The common Z after an addition of points whose abscissas differ by d. */
  ghost function NewZ(z: int, d: int): int {
    z * (d * (z * z))
  }

  lemma SquareOfProduct(a: int, b: int)
    ensures (a * b) * (a * b) == (a * a) * (b * b)
  {
    calc {
      (a * b) * (a * b);
      { MulAssoc(a, b, a * b); }
      a * (b * (a * b));
      { MulAssoc(b, a, b); MulAssoc(a, b, b); }
      a * (a * (b * b));
      { MulAssoc(a, a, b * b); }
      (a * a) * (b * b);
    }
  }

  /** The shared first half of both formulas: with w = z * (x2 - x1) * z^2, the rescaled
      abscissas are x1 * w^2 and x2 * w^2, and the rescaled y1 is y1 * w^3. */
  lemma Rescaled(s: Co, t: Co, x1: int, y1: int, x2: int, z: int, w: int, p: nat)
    requires p > 0 && w == NewZ(z, x2 - x1)
    requires At(s, x1, y1, z, p) && Cong(t.x, x2 * (z * z), p)
    ensures var dx := FSub(t.x, s.x, p); var a := FMul(dx, dx, p);
            var b := FMul(s.x, a, p); var c := FMul(t.x, a, p);
            && Cong(b, x1 * (w * w), p) && Cong(c, x2 * (w * w), p)
            && Cong(FMul(s.y, FSub(c, b, p), p), y1 * (w * (w * w)), p)
  {
    var z2 := z * z;
    var e := (x2 - x1) * z2;
    var ww := w * w;
    var dx := FSub(t.x, s.x, p);
    SubC(t.x, s.x, x2 * z2, x1 * z2, p);
    MulDist(x2, x1, z2);
    var a := FMul(dx, dx, p);
    MulC(dx, dx, e, e, p);
    SquareOfProduct(z, e);
    var b, c := FMul(s.x, a, p), FMul(t.x, a, p);
    MulC(s.x, a, x1 * z2, e * e, p);
    MulAssoc(x1, z2, e * e);
    MulC(t.x, a, x2 * z2, e * e, p);
    MulAssoc(x2, z2, e * e);
    assert Cong(b, x1 * ww, p) && Cong(c, x2 * ww, p);
    SubC(c, b, x2 * ww, x1 * ww, p);
    MulDist(x2, x1, ww);
    MulC(s.y, FSub(c, b, p), y1 * (z * z2), (x2 - x1) * ww, p);
    RescaledY(y1, z, z2, x2 - x1, w, ww);
  }

  lemma RescaledY(y1: int, z: int, z2: int, d: int, w: int, ww: int)
    requires w == z * (d * z2)
    ensures y1 * (z * z2) * (d * ww) == y1 * (w * ww)
  {
    calc {
      y1 * (z * z2) * (d * ww);
      { MulAssoc(y1, z * z2, d * ww); MulAssoc(z * z2, d, ww); }
      y1 * (z * z2 * d * ww);
      { MulAssoc(z, z2, d); }
      y1 * (z * (z2 * d) * ww);
    }
  }

  /** Slope times w is the difference of the ordinates at z. */
  lemma SlopeAtZ(l: int, d: int, z: int, w: int)
    requires w == NewZ(z, d)
    ensures l * d * (z * (z * z)) == l * w
  {
    var z2 := z * z;
    calc {
      l * d * (z * z2);
      { MulAssoc(l, d, z * z2); MulAssoc(d, z, z2); MulAssoc(z, d, z2); }
      l * (z * (d * z2));
    }
  }

  /** The second half: from the slope at w to the coordinates of the sum. */
  lemma SumAtW(b: int, bc: int, e: int, dy: int, l: int, x1: int, y1: int, x2: int, w: int, p: nat)
    requires p > 0
    requires Cong(b, x1 * (w * w), p) && Cong(bc, (x1 + x2) * (w * w), p)
    requires Cong(e, y1 * (w * (w * w)), p) && Cong(dy, l * w, p)
    ensures var x3 := FSub(FMul(dy, dy, p), bc, p);
            var x3' := l * l - x1 - x2;
            && Cong(x3, x3' * (w * w), p)
            && Cong(FSub(FMul(dy, FSub(b, x3, p), p), e, p), (l * (x1 - x3') - y1) * (w * (w * w)), p)
  {
    var ww := w * w;
    var x3' := l * l - x1 - x2;
    MulC(dy, dy, l * w, l * w, p);
    SquareOfProduct(l, w);
    SubC(FMul(dy, dy, p), bc, l * l * ww, (x1 + x2) * ww, p);
    MulDist(l * l, x1 + x2, ww);
    var x3 := FSub(FMul(dy, dy, p), bc, p);
    assert Cong(x3, x3' * ww, p);
    SubC(b, x3, x1 * ww, x3' * ww, p);
    MulDist(x1, x3', ww);
    MulC(dy, FSub(b, x3, p), l * w, (x1 - x3') * ww, p);
    SubC(FMul(dy, FSub(b, x3, p), p), e, l * w * ((x1 - x3') * ww), y1 * (w * ww), p);
    calc {
      l * w * ((x1 - x3') * ww);
      { MulAssoc(l, w, (x1 - x3') * ww); MulAssoc(w, x1 - x3', ww); MulAssoc(x1 - x3', w, ww); }
      l * ((x1 - x3') * (w * ww));
      { MulAssoc(l, x1 - x3', w * ww); }
      l * (x1 - x3') * (w * ww);
    }
    MulDist(l * (x1 - x3'), y1, w * ww);
  }

  lemma SlopeCong(dy: int, y1: int, y2: int, l: int, d: int, z: int, w: int, p: nat)
    requires p > 0 && w == NewZ(z, d)
    requires Cong(dy, y2 * (z * (z * z)) - y1 * (z * (z * z)), p) && Cong(y2, y1 + l * d, p)
    ensures Cong(dy, l * w, p)
  {
    var z3 := z * (z * z);
    CongRefl(z3, p);
    CongMul(y2, y1 + l * d, z3, z3, p);
    CongRefl(y1 * z3, p);
    CongAdd(y2 * z3, (y1 + l * d) * z3, y1 * z3, y1 * z3, p);
    MulDist(y1, l * d, z3);
    SlopeAtZ(l, d, z, w);
    CongTrans(dy, y2 * z3 - y1 * z3, l * w, p);
  }

  lemma AtCong(s: Co, x: int, y: int, x': int, y': int, z: int, p: nat)
    requires At(s, x, y, z, p) && Cong(x', x, p) && Cong(y', y, p)
    ensures At(s, x', y', z, p)
  {
    CongSym(x', x, p);
    CongSym(y', y, p);
    CongRefl(z * z, p);
    CongRefl(z * (z * z), p);
    CongMul(x, x', z * z, z * z, p);
    CongMul(y, y', z * (z * z), z * (z * z), p);
    CongTrans(s.x, x * (z * z), x' * (z * z), p);
    CongTrans(s.y, y * (z * (z * z)), y' * (z * (z * z)), p);
  }

  /** XYcZ_add computes the chord sum, and moves the first point to the new common Z. */
  lemma CoAddIsChord(s: Co, t: Co, x1: int, y1: int, x2: int, y2: int, l: int, x3: int, y3: int, z: int, p: nat)
    requires p > 0 && At(s, x1, y1, z, p) && At(t, x2, y2, z, p) && Chord(x1, y1, x2, y2, l, x3, y3, p)
    ensures var w := NewZ(z, x2 - x1);
            At(CoAdd(s, t, p).0, x1, y1, w, p) && At(CoAdd(s, t, p).1, x3, y3, w, p)
  {
    var w := NewZ(z, x2 - x1);
    var z3 := z * (z * z);
    Rescaled(s, t, x1, y1, x2, z, w, p);
    var dx := FSub(t.x, s.x, p);
    var a := FMul(dx, dx, p);
    var b, c := FMul(s.x, a, p), FMul(t.x, a, p);
    var dy := FSub(t.y, s.y, p);
    var e := FMul(s.y, FSub(c, b, p), p);
    SubC(t.y, s.y, y2 * z3, y1 * z3, p);
    SlopeCong(dy, y1, y2, l, x2 - x1, z, w, p);
    CongAdd(b, x1 * (w * w), c, x2 * (w * w), p);
    MulDist(x1, x2, w * w);
    SumAtW(b, b + c, e, dy, l, x1, y1, x2, w, p);
    SubTwice(FMul(dy, dy, p), b, c, p);
    AtCong(CoAdd(s, t, p).1, l * l - x1 - x2, l * (x1 - (l * l - x1 - x2)) - y1, x3, y3, w, p);
  }

  lemma SubTwice(d: int, b: int, c: int, p: nat)
    requires p > 0
    ensures FSub(FSub(d, b, p), c, p) == FSub(d, b + c, p)
  {
    var q := (d - b) / p;
    assert d - b == q * p + FSub(d, b, p);
    var r := FSub(FSub(d, b, p), c, p);
    var q' := (FSub(d, b, p) - c) / p;
    MulDist(q, q', p);
    DivModUnique(d - (b + c), p, q + q', r);
  }

  /** XYcZ_addC computes the chord sum and, with y2 negated, the chord difference, at one Z. */
  lemma CoAddCIsChord(s: Co, t: Co, x1: int, y1: int, x2: int, y2: int, z: int, p: nat,
                      l: int, x3: int, y3: int, l': int, x4: int, y4: int)
    requires p > 0 && At(s, x1, y1, z, p) && At(t, x2, y2, z, p)
    requires Chord(x1, y1, x2, y2, l, x3, y3, p) && Chord(x1, y1, x2, -y2, l', x4, y4, p)
    ensures var w := NewZ(z, x2 - x1);
            At(CoAddC(s, t, p).0, x4, y4, w, p) && At(CoAddC(s, t, p).1, x3, y3, w, p)
  {
    var w := NewZ(z, x2 - x1);
    Rescaled(s, t, x1, y1, x2, z, w, p);
    var dx := FSub(t.x, s.x, p);
    var a := FMul(dx, dx, p);
    var b, c := FMul(s.x, a, p), FMul(t.x, a, p);
    var e := FMul(s.y, FSub(c, b, p), p);
    var bc := FAdd(b, c, p);
    AddCong(b, c, x1 * (w * w), x2 * (w * w), p);
    MulDist(x1, x2, w * w);
    SumHalf(s, t, x1, y1, x2, y2, z, w, p, l, b, bc, e);
    AtCong(CoAddC(s, t, p).1, l * l - x1 - x2, l * (x1 - (l * l - x1 - x2)) - y1, x3, y3, w, p);
    DifferenceHalf(s, t, x1, y1, x2, y2, z, w, p, l', b, bc, e);
    AtCong(CoAddC(s, t, p).0, l' * l' - x1 - x2, l' * (x1 - (l' * l' - x1 - x2)) - y1, x4, y4, w, p);
  }

  lemma SumHalf(s: Co, t: Co, x1: int, y1: int, x2: int, y2: int, z: int, w: int, p: nat, l: int, b: int, bc: int,
                e: int)
    requires p > 0 && At(s, x1, y1, z, p) && At(t, x2, y2, z, p) && w == NewZ(z, x2 - x1)
    requires Cong(y2, y1 + l * (x2 - x1), p)
    requires Cong(b, x1 * (w * w), p) && Cong(bc, (x1 + x2) * (w * w), p) && Cong(e, y1 * (w * (w * w)), p)
    ensures var dy := FSub(t.y, s.y, p); var x3 := FSub(FMul(dy, dy, p), bc, p);
            At(Co(x3, FSub(FMul(dy, FSub(b, x3, p), p), e, p)), l * l - x1 - x2,
               l * (x1 - (l * l - x1 - x2)) - y1, w, p)
  {
    var z3 := z * (z * z);
    var dy := FSub(t.y, s.y, p);
    SubC(t.y, s.y, y2 * z3, y1 * z3, p);
    SlopeCong(dy, y1, y2, l, x2 - x1, z, w, p);
    SumAtW(b, bc, e, dy, l, x1, y1, x2, w, p);
  }

  /** y2 + y1 plays the part of the negated slope, and the sign cancels in (x4 - b) * (y2 + y1). */
  lemma DifferenceHalf(s: Co, t: Co, x1: int, y1: int, x2: int, y2: int, z: int, w: int, p: nat, l: int, b: int,
                       bc: int, e: int)
    requires p > 0 && At(s, x1, y1, z, p) && At(t, x2, y2, z, p) && w == NewZ(z, x2 - x1)
    requires Cong(-y2, y1 + l * (x2 - x1), p)
    requires Cong(b, x1 * (w * w), p) && Cong(bc, (x1 + x2) * (w * w), p) && Cong(e, y1 * (w * (w * w)), p)
    ensures var sy := FAdd(t.y, s.y, p); var x4 := FSub(FMul(sy, sy, p), bc, p);
            At(Co(x4, FSub(FMul(FSub(x4, b, p), sy, p), e, p)), l * l - x1 - x2,
               l * (x1 - (l * l - x1 - x2)) - y1, w, p)
  {
    hide FSub, FAdd, FMul, Cong;
    var z3 := z * (z * z);
    var sy: int := FAdd(t.y, s.y, p);
    AddCong(t.y, s.y, y2 * z3, y1 * z3, p);
    NegCong(sy, y2 * z3 + y1 * z3, p);
    assert -(y2 * z3 + y1 * z3) == (-y2) * z3 - y1 * z3;
    SlopeCong(-sy, y1, -y2, l, x2 - x1, z, w, p);
    SumAtW(b, bc, e, -sy, l, x1, y1, x2, w, p);
    NegSwap(b, FSub(FMul(sy, sy, p), bc, p), sy, p);
  }

  lemma NegCong(a: int, b: int, p: nat)
    requires Cong(a, b, p)
    ensures Cong(-a, -b, p)
  {
    CongSym(a, b, p);
    assert b - a == -a - -b;
  }

  lemma NegSwap(b: int, x: int, sy: int, p: nat)
    requires p > 0
    ensures FMul(-sy, -sy, p) == FMul(sy, sy, p)
    ensures FMul(FSub(x, b, p), sy, p) == FMul(-sy, FSub(b, x, p), p)
  {
    assert -sy * -sy == sy * sy;
    var u, v := FSub(x, b, p), FSub(b, x, p);
    CongMod(x - b, p);
    CongMod(b - x, p);
    NegCong(v, b - x, p);
    assert -(b - x) == x - b;
    CongSym(-v, x - b, p);
    CongTrans(u, x - b, -v, p);
    CongRefl(sy, p);
    CongMul(u, -v, sy, sy, p);
    assert -v * sy == -sy * v;
    CongMod(u * sy, p);
    CongMod(-sy * v, p);
    CongTrans((u * sy) % p, u * sy, -sy * v, p);
    CongTrans((u * sy) % p, -sy * v, (-sy * v) % p, p);
    CongUnique((u * sy) % p, (-sy * v) % p, p);
  }
}
