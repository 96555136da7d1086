/** EccPoint_mult and EccPoint_compute_public_key (deps/micro-ecc/uECC.c) in place on word arrays. */
module EccPoint {
  import opened Arith
  import opened Vli
  import opened VliInv
  import opened EccLadder
  import opened EccCoZ
  import EccRun
  import EccOrder
  import opened EccDouble
  import opened EccOutcome
  import opened Primes

  /** A field of odd characteristic. */
  ghost predicate OddField(p: array<Word>, n: nat)
    reads p
  {
    Field(p, n) && Val(p[..n]) % 2 == 1 && Val(p[..n]) > 1
  }

  lemma OddFacts(p: array<Word>, n: nat)
    requires OddField(p, n)
    ensures Field(p, n) && 1 <= n <= p.Length && Val(p[..n]) % 2 == 1 && Val(p[..n]) > 1
  {}

  /** The coordinates in two arrays. */
  ghost function Pair(x: array<Word>, y: array<Word>, n: nat): (s: Co)
    requires n <= x.Length && n <= y.Length
    reads x, y
  {
    Co(Val(x[..n]), Val(y[..n]))
  }

  /** apply_z. */
  method ScaleByZ(x: array<Word>, y: array<Word>, z: array<Word>, p: array<Word>, n: nat)
    requires Field(p, n) && Element(x, p, n) && Element(y, p, n) && Element(z, p, n) && x != y && x != z && y != z
    modifies x, y
    ensures Field(p, n) && Element(x, p, n) && Element(y, p, n) && Element(z, p, n)
    ensures Pair(x, y, n) == ApplyZ(old(Pair(x, y, n)), Val(z[..n]), Val(p[..n]))
  {
    hide Val, FMul, Field, Element;
    ElementLength(x, p, n);
    ElementLength(y, p, n);
    ElementLength(z, p, n);
    var t1 := new Word[n];
    FieldSquare(t1, z, p, n);
    FieldMul(x, x, t1, p, n);
    FieldMul(t1, t1, z, p, n);
    FieldMul(y, y, t1, p, n);
  }

  /** Half of a field element: of itself or of its sum with p, whichever is even. */
  method FieldHalve(x: array<Word>, p: array<Word>, n: nat)
    requires OddField(p, n) && Element(x, p, n)
    modifies x
    ensures OddField(p, n) && Element(x, p, n)
    ensures Val(x[..n]) == HalfMod(old(Val(x[..n])), Val(p[..n]))
  {
    ModInvUpdate(x, p, n);
  }

  /** The slope part of double_jacobian_default: x becomes 3 / 2 * (x^2 - z^2), for a z squared already. */
  method SlopeInPlace(x: array<Word>, z: array<Word>, p: array<Word>, n: nat)
    requires OddField(p, n) && Element(x, p, n) && Element(z, p, n) && x != z
    modifies x, z
    ensures OddField(p, n) && Element(x, p, n) && Element(z, p, n)
    ensures Val(p[..n]) > 0 && Val(p[..n]) % 2 == 1
            && Val(x[..n]) == Slope(old(Val(x[..n])), old(Val(z[..n])), Val(p[..n]))
  {
    OddFacts(p, n);
    ElementLength(x, p, n);
    ElementLength(z, p, n);
    hide Val, FMul, FAdd, FSub, HalfMod, Field, Element;
    FieldAdd(x, x, z, p, n);
    FieldAdd(z, z, z, p, n);
    FieldSub(z, x, z, p, n);
    FieldMul(x, x, z, p, n);
    FieldAdd(z, x, x, p, n);
    FieldAdd(x, x, z, p, n);
    FieldHalve(x, p, n);
  }

  /** The products at the start of double_jacobian_default: y^4, x * y^2, y * z and z^2. */
  method DoubleTerms(x: array<Word>, y: array<Word>, z: array<Word>, t4: array<Word>, t5: array<Word>, p: array<Word>,
                     n: nat)
    requires Field(p, n) && Element(x, p, n) && Element(y, p, n) && Element(z, p, n) && x != y && x != z && y != z
    requires n <= t4.Length && t4 != x && t4 != y && t4 != z && t4 != p
    requires n <= t5.Length && t5 != x && t5 != y && t5 != z && t5 != p && t4 != t5
    modifies y, z, t4, t5
    ensures Field(p, n) && Element(x, p, n) && Element(y, p, n) && Element(z, p, n) && Element(t4, p, n)
            && Element(t5, p, n)
    ensures var m := Val(p[..n]); var yy := FMul(old(Val(y[..n])), old(Val(y[..n])), m);
            && Val(t4[..n]) == FMul(yy, yy, m) && Val(t5[..n]) == FMul(Val(x[..n]), yy, m)
            && Val(y[..n]) == FMul(old(Val(y[..n])), old(Val(z[..n])), m)
            && Val(z[..n]) == FMul(old(Val(z[..n])), old(Val(z[..n])), m)
  {
    ElementLength(x, p, n);
    ElementLength(y, p, n);
    ElementLength(z, p, n);
    hide Val, FMul, Field, Element;
    FieldSquare(t4, y, p, n);
    FieldMul(t5, x, t4, p, n);
    FieldSquare(t4, t4, p, n);
    FieldMul(y, y, z, p, n);
    FieldSquare(z, z, p, n);
  }

  /** Its end: from the slope in x, y^4 in t4 and x * y^2 in t5 to the coordinates in z and t4. */
  method DoubleSum(x: array<Word>, z: array<Word>, t4: array<Word>, t5: array<Word>, p: array<Word>, n: nat)
    requires Field(p, n) && Element(x, p, n) && Element(t4, p, n) && Element(t5, p, n) && n <= z.Length && z != p
    requires x != z && x != t4 && x != t5 && z != t4 && z != t5 && t4 != t5
    modifies x, z, t4, t5
    ensures Field(p, n) && Element(x, p, n) && Element(z, p, n) && Element(t4, p, n)
    ensures var m := Val(p[..n]); var b := old(Val(x[..n])); var a := old(Val(t5[..n]));
            && Val(z[..n]) == FSub(FSub(FMul(b, b, m), a, m), a, m)
            && Val(t4[..n]) == FSub(FMul(b, FSub(a, Val(z[..n]), m), m), old(Val(t4[..n])), m)
  {
    ElementLength(x, p, n);
    ElementLength(t4, p, n);
    ElementLength(t5, p, n);
    hide Val, FMul, FSub, Field, Element;
    FieldSquare(z, x, p, n);
    FieldSub(z, z, t5, p, n);
    FieldSub(z, z, t5, p, n);
    FieldSub(t5, t5, z, p, n);
    FieldMul(x, x, t5, p, n);
    FieldSub(t4, x, t4, p, n);
  }

  /** double_jacobian_default for a Z other than zero. */
  method DoubleFinite(x: array<Word>, y: array<Word>, z: array<Word>, p: array<Word>, n: nat)
    requires OddField(p, n) && Element(x, p, n) && Element(y, p, n) && Element(z, p, n) && x != y && x != z && y != z
    modifies x, y, z
    ensures OddField(p, n) && Element(x, p, n) && Element(y, p, n) && Element(z, p, n) && Val(p[..n]) > 0
            && Val(p[..n]) % 2 == 1
    ensures (Pair(x, y, n), Val(z[..n])) == CoDouble(old(Pair(x, y, n)), old(Val(z[..n])), Val(p[..n]))
  {
    OddFacts(p, n);
    ElementLength(x, p, n);
    ElementLength(y, p, n);
    ElementLength(z, p, n);
    hide Val, FMul, FAdd, FSub, Slope, Field, Element;
    var t4, t5 := new Word[n], new Word[n];
    DoubleTerms(x, y, z, t4, t5, p, n);
    SlopeInPlace(x, z, p, n);
    DoubleSum(x, z, t4, t5, p, n);
    SetElement(x, z, p, n);
    SetElement(z, y, p, n);
    SetElement(y, t4, p, n);
  }

  /** double_jacobian_default; a zero Z, the point at infinity, is left alone. */
  method DoubleJacobian(x: array<Word>, y: array<Word>, z: array<Word>, p: array<Word>, n: nat)
    requires OddField(p, n) && Element(x, p, n) && Element(y, p, n) && Element(z, p, n) && x != y && x != z && y != z
    modifies x, y, z
    ensures OddField(p, n) && Element(x, p, n) && Element(y, p, n) && Element(z, p, n) && Val(p[..n]) > 0
            && Val(p[..n]) % 2 == 1
    ensures old(Val(z[..n])) == 0 ==> Pair(x, y, n) == old(Pair(x, y, n)) && Val(z[..n]) == 0
    ensures old(Val(z[..n])) != 0 ==>
              (Pair(x, y, n), Val(z[..n])) == CoDouble(old(Pair(x, y, n)), old(Val(z[..n])), Val(p[..n]))
  {
    hide Val, CoDouble, Field, Element;
    ElementLength(x, p, n);
    ElementLength(y, p, n);
    ElementLength(z, p, n);
    OddFacts(p, n);
    var zero := IsZero(z, n);
    if !zero { DoubleFinite(x, y, z, p, n); }
  }

  // ----- the registers ----------------------------------------------------------------------------------

  /** Four different arrays that hold field elements. */
  ghost predicate Registers(x0: array<Word>, y0: array<Word>, x1: array<Word>, y1: array<Word>, p: array<Word>, n: nat)
    reads x0, y0, x1, y1, p
  {
    && Element(x0, p, n) && Element(y0, p, n) && Element(x1, p, n) && Element(y1, p, n)
    && x0 != y0 && x0 != x1 && x0 != y1 && y0 != x1 && y0 != y1 && x1 != y1
  }

  ghost function Regs(x0: array<Word>, y0: array<Word>, x1: array<Word>, y1: array<Word>, n: nat): (r: seq<Co>)
    requires n <= x0.Length && n <= y0.Length && n <= x1.Length && n <= y1.Length
    reads x0, y0, x1, y1
    ensures |r| == 2
  {
    [Pair(x0, y0, n), Pair(x1, y1, n)]
  }

  lemma RegisterFacts(x0: array<Word>, y0: array<Word>, x1: array<Word>, y1: array<Word>, p: array<Word>, n: nat)
    requires Registers(x0, y0, x1, y1, p, n)
    ensures n <= x0.Length && n <= y0.Length && n <= x1.Length && n <= y1.Length && n <= p.Length
    ensures Element(x0, p, n) && Element(y0, p, n) && Element(x1, p, n) && Element(y1, p, n)
    ensures x0 != y0 && x0 != x1 && x0 != y1 && y0 != x1 && y0 != y1 && x1 != y1
    ensures x0 != p && y0 != p && x1 != p && y1 != p
  {}

  lemma SmallElement(z: array<Word>, p: array<Word>, n: nat)
    requires OddField(p, n) && n <= z.Length && z != p && z[0] == 1 && forall i :: 1 <= i < n ==> z[i] == 0
    ensures Element(z, p, n) && Val(z[..n]) == 1
  {
    ValCons(z[..n]);
    ValZero(z[..n][1..]);
  }

  /** The Z that XYcZ_initial_double starts from: the one given, or one. */
  method InitialZ(initial: array?<Word>, p: array<Word>, n: nat) returns (z: array<Word>)
    requires OddField(p, n) && (initial != null ==> Element(initial, p, n) && Val(initial[..n]) > 0)
    ensures fresh(z) && Element(z, p, n) && Val(z[..n]) == if initial != null then Val(initial[..n]) else 1
  {
    z := new Word[n];
    if initial != null {
      Set(z, initial, n);
    } else {
      Clear(z, 0, n);
      z[0] := 1;
      SmallElement(z, p, n);
    }
  }

  /** XYcZ_initial_double: (x1, y1) becomes its double and (x2, y2) the point itself, at one Z. */
  method InitialDouble(x1: array<Word>, y1: array<Word>, x2: array<Word>, y2: array<Word>, z: array<Word>,
                       p: array<Word>, n: nat)
    requires OddField(p, n) && Element(x1, p, n) && Element(y1, p, n) && Element(z, p, n) && Val(z[..n]) > 0
    requires n <= x2.Length && n <= y2.Length && x2 != p && y2 != p
    requires x1 != y1 && x1 != x2 && x1 != y2 && y1 != x2 && y1 != y2 && x2 != y2 && z != x1 && z != y1 && z != x2
             && z != y2
    modifies x1, y1, x2, y2, z
    ensures OddField(p, n) && Registers(x2, y2, x1, y1, p, n) && Val(p[..n]) > 0 && Val(p[..n]) % 2 == 1
    ensures Regs(x2, y2, x1, y1, n) == CoInitial(old(Pair(x1, y1, n)), old(Val(z[..n])), Val(p[..n])).0
  {
    hide Val, CoDouble, ApplyZ, Field, Element;
    OddFacts(p, n);
    ElementLength(x1, p, n);
    ElementLength(y1, p, n);
    ElementLength(z, p, n);
    SetElement(x2, x1, p, n);
    SetElement(y2, y1, p, n);
    ScaleByZ(x1, y1, z, p, n);
    DoubleJacobian(x1, y1, z, p, n);
    ScaleByZ(x2, y2, z, p, n);
  }

  /** One ladder step on the registers. */
  method StepInPlace(x0: array<Word>, y0: array<Word>, x1: array<Word>, y1: array<Word>, nb: nat, p: array<Word>,
                     n: nat)
    requires OddField(p, n) && Registers(x0, y0, x1, y1, p, n) && nb <= 1
    modifies x0, y0, x1, y1
    ensures OddField(p, n) && Registers(x0, y0, x1, y1, p, n) && Val(p[..n]) > 0
    ensures Regs(x0, y0, x1, y1, n) == EccRun.CoStep(old(Regs(x0, y0, x1, y1, n)), nb, Val(p[..n]))
  {
    hide Val, CoAdd, CoAddC, Field, Element;
    OddFacts(p, n);
    RegisterFacts(x0, y0, x1, y1, p, n);
    if nb == 0 {
      XYcZAddC(x1, y1, x0, y0, p, n);
      XYcZAdd(x0, y0, x1, y1, p, n);
    } else {
      XYcZAddC(x0, y0, x1, y1, p, n);
      XYcZAdd(x1, y1, x0, y0, p, n);
    }
  }

  // ----- the end ----------------------------------------------------------------------------------------

  /** uECC_vli_modInv in the field. */
  method FieldInv(z: array<Word>, p: array<Word>, n: nat)
    requires OddField(p, n) && Element(z, p, n)
    modifies z
    ensures OddField(p, n) && Element(z, p, n) && Inverts(Val(z[..n]), old(Val(z[..n])), Val(p[..n]))
  {
    hide Val;
    ModInv(z, z, p, n);
  }

  /** The 1/Z of the result, from the registers between the last two additions: (xb, yb) holds the
      difference, and z the difference X1 - X0. */
  method RecoverZ(z: array<Word>, xb: array<Word>, yb: array<Word>, px: array<Word>, py: array<Word>, p: array<Word>,
                  n: nat)
    returns (ghost inv: nat)
    requires OddField(p, n) && Element(z, p, n) && Element(xb, p, n) && Element(yb, p, n) && Element(px, p, n)
             && Element(py, p, n)
    requires z != xb && z != yb && z != px && z != py
    modifies z
    ensures OddField(p, n) && Element(z, p, n) && Val(p[..n]) > 0
    ensures var m := Val(p[..n]);
            && Inverts(inv, FMul(FMul(old(Val(z[..n])), Val(yb[..n]), m), Val(px[..n]), m), m)
            && Val(z[..n]) == FMul(FMul(inv, Val(py[..n]), m), Val(xb[..n]), m)
  {
    hide Val, FMul, Field, Element, Inverts;
    OddFacts(p, n);
    ElementLength(z, p, n);
    ElementLength(xb, p, n);
    ElementLength(yb, p, n);
    ElementLength(px, p, n);
    ElementLength(py, p, n);
    FieldMul(z, z, yb, p, n);
    FieldMul(z, z, px, p, n);
    FieldInv(z, p, n);
    inv := Val(z[..n]);
    FieldMul(z, z, py, p, n);
    FieldMul(z, z, xb, p, n);
  }

  /** The last step, and the way back to affine coordinates. */
  method Finish(x0: array<Word>, y0: array<Word>, x1: array<Word>, y1: array<Word>, nb: nat,
                px: array<Word>, py: array<Word>, p: array<Word>, n: nat)
    returns (ghost inv: nat)
    requires OddField(p, n) && Registers(x0, y0, x1, y1, p, n) && nb <= 1 && Element(px, p, n) && Element(py, p, n)
    requires px != x0 && px != y0 && px != x1 && px != y1 && py != x0 && py != y0 && py != x1 && py != y1
    modifies x0, y0, x1, y1
    ensures OddField(p, n) && Element(x0, p, n) && Element(y0, p, n) && Val(p[..n]) > 0
    ensures var m := Val(p[..n]); var r := old(Regs(x0, y0, x1, y1, n)); var du := CoAddC(r[1 - nb], r[nb], m);
            var base := Pair(px, py, n);
            && Inverts(inv, EccRun.Divisor(du.0, du.1, nb, base, m), m)
            && Pair(x0, y0, n) == ApplyZ(EccRun.CoStep(r, nb, m)[0], EccRun.FinalZ(du.0, inv, base, m), m)
  {
    hide Val, CoAdd, CoAddC, ApplyZ, FMul, FSub, Field, Element, Inverts;
    OddFacts(p, n);
    RegisterFacts(x0, y0, x1, y1, p, n);
    ElementLength(px, p, n);
    ElementLength(py, p, n);
    var z := new Word[n];
    if nb == 0 {
      XYcZAddC(x1, y1, x0, y0, p, n);
      FieldSub(z, x1, x0, p, n);
      inv := RecoverZ(z, x1, y1, px, py, p, n);
      XYcZAdd(x0, y0, x1, y1, p, n);
    } else {
      XYcZAddC(x0, y0, x1, y1, p, n);
      FieldSub(z, x1, x0, p, n);
      inv := RecoverZ(z, x0, y0, px, py, p, n);
      XYcZAdd(x1, y1, x0, y0, p, n);
    }
    ScaleByZ(x0, y0, z, p, n);
  }

  // ----- EccPoint_mult ----------------------------------------------------------------------------------

  /** All steps but the last. */
  method Ladder(x0: array<Word>, y0: array<Word>, x1: array<Word>, y1: array<Word>, scalar: array<Word>, bits: nat,
                words: nat, p: array<Word>, n: nat)
    requires OddField(p, n) && Registers(x0, y0, x1, y1, p, n) && bits >= 1 && bits <= words * WORD_BITS
             && words <= scalar.Length
    requires scalar != x0 && scalar != y0 && scalar != x1 && scalar != y1
    modifies x0, y0, x1, y1
    ensures OddField(p, n) && Registers(x0, y0, x1, y1, p, n) && Val(p[..n]) > 0
    ensures Regs(x0, y0, x1, y1, n)
         == EccRun.CoRun(old(Regs(x0, y0, x1, y1, n)), Implied(Val(scalar[..words]), bits), bits, 1, Val(p[..n]))
  {
    hide *;
    OddFacts(p, n);
    RegisterFacts(x0, y0, x1, y1, p, n);
    ghost var v := Val(scalar[..words]);
    ghost var s, m := Implied(v, bits), Val(p[..n]);
    ghost var start := Regs(x0, y0, x1, y1, n);
    NothingRun(start, s, bits, m);
    var i := bits - 1;
    while i > 0
      invariant 0 <= i < bits && OddField(p, n) && Registers(x0, y0, x1, y1, p, n) && Val(scalar[..words]) == v
                && Val(p[..n]) == m
      invariant Regs(x0, y0, x1, y1, n) == EccRun.CoRun(start, s, bits, i + 1, m)
    {
      var isSet := TestBit(scalar, i, words);
      ImpliedBit(v, bits, i);
      BitBound(s, i);
      CoRunLast(start, s, bits, i, m);
      StepInPlace(x0, y0, x1, y1, if isSet then 0 else 1, p, n);
      i := i - 1;
    }
  }

  lemma NothingRun(regs: seq<Co>, s: nat, bits: nat, p: nat)
    requires |regs| == 2 && p > 0
    ensures EccRun.CoRun(regs, s, bits, bits, p) == regs
  {}

  lemma BitBound(s: nat, i: nat)
    ensures Bit(s, i) == 0 || Bit(s, i) == 1
  {}

  /** Fresh registers with the point and its double. */
  method Start(px: array<Word>, py: array<Word>, initial: array?<Word>, p: array<Word>, n: nat)
    returns (x0: array<Word>, y0: array<Word>, x1: array<Word>, y1: array<Word>)
    requires OddField(p, n) && Element(px, p, n) && Element(py, p, n)
    requires initial != null ==> Element(initial, p, n) && Val(initial[..n]) > 0
    ensures fresh(x0) && fresh(y0) && fresh(x1) && fresh(y1)
    ensures Registers(x0, y0, x1, y1, p, n) && Val(p[..n]) > 0 && Val(p[..n]) % 2 == 1
    ensures Regs(x0, y0, x1, y1, n)
         == CoInitial(Pair(px, py, n), if initial != null then Val(initial[..n]) else 1, Val(p[..n])).0
  {
    hide *;
    OddFacts(p, n);
    ElementLength(px, p, n);
    ElementLength(py, p, n);
    x0, y0, x1, y1 := new Word[n], new Word[n], new Word[n], new Word[n];
    SetElement(x1, px, p, n);
    SetElement(y1, py, p, n);
    PairOf(x1, y1, px, py, n);
    var z := InitialZ(initial, p, n);
    PositiveZ(initial, z, p, n);
    InitialDouble(x1, y1, x0, y0, z, p, n);
  }

  /** The ladder and the way back, from registers of its own. */
  method Climb(x0: array<Word>, y0: array<Word>, x1: array<Word>, y1: array<Word>, px: array<Word>, py: array<Word>,
               scalar: array<Word>, bits: nat, words: nat, p: array<Word>, n: nat)
    returns (ghost inv: nat)
    requires OddField(p, n) && Registers(x0, y0, x1, y1, p, n) && Element(px, p, n) && Element(py, p, n)
    requires px != x0 && px != y0 && px != x1 && px != y1 && py != x0 && py != y0 && py != x1 && py != y1
    requires scalar != x0 && scalar != y0 && scalar != x1 && scalar != y1
    requires bits >= 1 && bits <= words * WORD_BITS && words <= scalar.Length
    modifies x0, y0, x1, y1
    ensures OddField(p, n) && Element(x0, p, n) && Element(y0, p, n) && Val(p[..n]) > 0
    ensures var m := Val(p[..n]); var base := Pair(px, py, n); var s := Implied(Val(scalar[..words]), bits);
            var regs := old(Regs(x0, y0, x1, y1, n));
            && Inverts(inv, LastDivisor(base, regs, s, bits, m), m)
            && Pair(x0, y0, n) == Outcome(base, regs, s, bits, inv, m)
  {
    hide *;
    RegisterFacts(x0, y0, x1, y1, p, n);
    ElementLength(px, p, n);
    ElementLength(py, p, n);
    OddFacts(p, n);
    ghost var s, regs := Implied(Val(scalar[..words]), bits), Regs(x0, y0, x1, y1, n);
    Ladder(x0, y0, x1, y1, scalar, bits, words, p, n);
    var isSet := TestBit(scalar, 0, words);
    ImpliedBit(Val(scalar[..words]), bits, 0);
    BitBound(s, 0);
    inv := Finish(x0, y0, x1, y1, if isSet then 0 else 1, px, py, p, n);
    LastIs(Pair(px, py, n), regs, s, bits, inv, Val(p[..n]));
  }

  /** EccPoint_mult; the result may be the point itself. */
  method PointMult(rx: array<Word>, ry: array<Word>, px: array<Word>, py: array<Word>, scalar: array<Word>,
                   initial: array?<Word>, numBits: nat, words: nat, p: array<Word>, n: nat)
    returns (ghost inv: nat)
    requires OddField(p, n) && Element(px, p, n) && Element(py, p, n) && px != py
    requires numBits >= 2 && numBits - 1 <= words * WORD_BITS && words <= scalar.Length
    requires initial != null ==> Element(initial, p, n) && Val(initial[..n]) > 0
    requires n <= rx.Length && n <= ry.Length && rx != ry && rx != p && ry != p
    modifies rx, ry
    ensures OddField(p, n) && Element(rx, p, n) && Element(ry, p, n) && Val(p[..n]) > 0 && Val(p[..n]) % 2 == 1
    ensures var m := Val(p[..n]); var base := old(Pair(px, py, n));
            var s := Implied(old(Val(scalar[..words])), numBits - 1);
            var regs := CoInitial(base, if initial != null then old(Val(initial[..n])) else 1, m).0;
            && Inverts(inv, LastDivisor(base, regs, s, numBits - 1, m), m)
            && Pair(rx, ry, n) == Outcome(base, regs, s, numBits - 1, inv, m)
  {
    hide *;
    OddFacts(p, n);
    ElementLength(px, p, n);
    ElementLength(py, p, n);
    var x0, y0, x1, y1 := Start(px, py, initial, p, n);
    inv := Climb(x0, y0, x1, y1, px, py, scalar, numBits - 1, words, p, n);
    ElementLength(x0, p, n);
    ElementLength(y0, p, n);
    SetElement(rx, x0, p, n);
    SetElement(ry, y0, p, n);
    PairOf(rx, ry, x0, y0, n);
  }

  lemma PairOf(x: array<Word>, y: array<Word>, x': array<Word>, y': array<Word>, n: nat)
    requires n <= x.Length && n <= y.Length && n <= x'.Length && n <= y'.Length
    requires Val(x[..n]) == Val(x'[..n]) && Val(y[..n]) == Val(y'[..n])
    ensures Pair(x, y, n) == Pair(x', y', n)
  {}

  lemma PositiveZ(initial: array?<Word>, z: array<Word>, p: array<Word>, n: nat)
    requires initial != null ==> Element(initial, p, n) && Val(initial[..n]) > 0
    requires Element(z, p, n) && Val(z[..n]) == if initial != null then Val(initial[..n]) else 1
    ensures Val(z[..n]) > 0
  {}

  // ----- EccPoint_compute_public_key --------------------------------------------------------------------

  /** The arrays hold the curve: its prime, the coordinates of its base point and the order of that point. */
  ghost predicate Holds<G(!new)>(c: EccRun.Curve<G>, point: G, p: array<Word>, n: nat, gx: array<Word>, gy: array<Word>,
                                 order: array<Word>, words: nat, bits: nat)
    reads p, gx, gy, order
  {
    && OddField(p, n) && Element(gx, p, n) && Element(gy, p, n) && gx != gy
    && c.p == Val(p[..n]) && c.x(point) == Val(gx[..n]) && c.y(point) == Val(gy[..n])
    && 1 <= words <= order.Length && 1 <= bits <= words * WORD_BITS
    && Pow2(bits - 1) <= Val(order[..words]) < Pow2(bits)
    && Suitable(c, point, Val(order[..words]))
  }

  lemma HoldsFacts<G(!new)>(c: EccRun.Curve<G>, point: G, p: array<Word>, n: nat, gx: array<Word>, gy: array<Word>,
                            order: array<Word>, words: nat, bits: nat)
    requires Holds(c, point, p, n, gx, gy, order, words, bits)
    ensures OddField(p, n) && Element(gx, p, n) && Element(gy, p, n) && gx != gy && n <= p.Length && n <= gx.Length
            && n <= gy.Length
    ensures c.p == Val(p[..n]) && c.p > 1 && Co(c.x(point), c.y(point)) == Pair(gx, gy, n)
    ensures 1 <= words <= order.Length && 1 <= bits <= words * WORD_BITS
    ensures Pow2(bits - 1) <= Val(order[..words]) < Pow2(bits) && Suitable(c, point, Val(order[..words]))
  {}

  /** What the ladder makes of a regularized key. */
  lemma KeyOutcome<G(!new)>(c: EccRun.Curve<G>, point: G, n: nat, bits: nat, k: nat, times: nat, inv: nat)
    requires Suitable(c, point, n) && c.p > 0 && c.p % 2 == 1 && k < n && bits >= 1 && Pow2(bits - 1) <= n < Pow2(bits)
    requires times == if k + n >= Pow2(bits) then 1 else 2
    requires var base := Co(c.x(point), c.y(point)); var regs := CoInitial(base, 1, c.p).0;
             Inverts(inv, LastDivisor(base, regs, k + times * n, bits, c.p), c.p)
    ensures var base := Co(c.x(point), c.y(point)); var regs := CoInitial(base, 1, c.p).0;
            var r := Outcome(base, regs, k + times * n, bits, inv, c.p); var q := Times(c.group, k, point);
            if EccOrder.Safe(k, n, bits)
            then Cong(r.x, c.x(q), c.p) && Cong(r.y, c.y(q), c.p) && !(r.x == 0 && r.y == 0)
            else r == Co(0, 0)
  {
    hide *;
    SuitableFacts(c, point, n);
    EccRun.PositiveP(c);
    EccOrder.OrderFacts(c, point, n);
    EccOrder.SafeIff(k, n, bits, times);
    OneIsNonzero(c.p);
    MultOutcome(c, point, n, 1, k + times * n, bits, inv);
    TimesOrder(c.group, k, n, times, point);
    if EccOrder.Safe(k, n, bits) {
      SafeIsPositive(k, n, bits);
      var base := Co(c.x(point), c.y(point));
      NotOrigin(c, point, n, k, Outcome(base, CoInitial(base, 1, c.p).0, k + times * n, bits, inv, c.p));
    }
  }

  lemma OneIsNonzero(p: nat)
    requires IsPrime(p)
    ensures Nonzero(1, p)
  {
    if Divides(p, 1) { DividesBound(p, 1); }
  }

  lemma SafeIsPositive(k: nat, n: nat, bits: nat)
    requires EccOrder.Safe(k, n, bits)
    ensures k > 0
  {}

  lemma NotOrigin<G(!new)>(c: EccRun.Curve<G>, point: G, n: nat, k: nat, r: Co)
    requires Suitable(c, point, n) && 0 < k < n
    requires var q := Times(c.group, k, point); Cong(r.x, c.x(q), c.p) && Cong(r.y, c.y(q), c.p)
    ensures !(r.x == 0 && r.y == 0)
  {
    hide IsPrime, Cong, Times, Doubles;
    var q := Times(c.group, k, point);
    assert OffOrigin(c, q);
    CongSym(r.x, c.x(q), c.p);
    CongSym(r.y, c.y(q), c.p);
  }

  /** EccPoint_compute_public_key: k times the base point for the keys that the ladder can multiply by;
      failure, with zero coordinates, for all others. */
  method ComputePublicKey<G(!new)>(rx: array<Word>, ry: array<Word>, k: array<Word>, p: array<Word>, n: nat,
                                   gx: array<Word>, gy: array<Word>, order: array<Word>, words: nat, bits: nat,
                                   ghost c: EccRun.Curve<G>, ghost point: G)
    returns (ok: bool)
    requires Holds(c, point, p, n, gx, gy, order, words, bits) && words <= k.Length
             && Val(k[..words]) < Val(order[..words])
    requires n <= rx.Length && n <= ry.Length && rx != ry && rx != p && ry != p
    modifies rx, ry
    ensures ok <==> EccOrder.Safe(old(Val(k[..words])), old(Val(order[..words])), bits)
    ensures ok ==> var q := Times(c.group, old(Val(k[..words])), point);
                   && Cong(Val(rx[..n]), c.x(q), c.p) && Cong(Val(ry[..n]), c.y(q), c.p)
                   && Val(rx[..n]) < c.p && Val(ry[..n]) < c.p
    ensures !ok ==> Val(rx[..n]) == 0 && Val(ry[..n]) == 0
  {
    hide *;
    HoldsFacts(c, point, p, n, gx, gy, order, words, bits);
    ghost var key, m := Val(k[..words]), Val(order[..words]);
    SuitableFacts(c, point, m);
    var chosen, times := RegularizeK(k, order, bits, words);
    var inv := PointMult(rx, ry, gx, gy, chosen, null, bits + 1, words, p, n);
    KeyOutcome(c, point, m, bits, key, times, inv);
    ElementLength(rx, p, n);
    ElementLength(ry, p, n);
    PairIs(rx, ry, p, n);
    var zx := IsZero(rx, n);
    var zy := IsZero(ry, n);
    ok := !(zx && zy);
  }

  lemma PairIs(x: array<Word>, y: array<Word>, p: array<Word>, n: nat)
    requires Element(x, p, n) && Element(y, p, n)
    ensures Pair(x, y, n).x == Val(x[..n]) < Val(p[..n]) && Pair(x, y, n).y == Val(y[..n]) < Val(p[..n])
  {}
}
