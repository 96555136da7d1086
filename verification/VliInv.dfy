/** Modular inversion by binary GCD (deps/micro-ecc/uECC.c). */
module VliInv {
  import opened Arith
  import opened Vli

  /** g is the greatest common divisor of x and m, in the order of divisibility. */
  ghost predicate IsGcd(g: int, x: int, m: int) {
    && g > 0 && Divides(g, x) && Divides(g, m)
    && forall d :: Divides(d, x) && Divides(d, m) ==> Divides(d, g)
  }

  /** Every common divisor of a and b divides x and m. */
  ghost predicate Descends(a: int, b: int, x: int, m: int) {
    forall d :: Divides(d, a) && Divides(d, b) ==> Divides(d, x) && Divides(d, m)
  }

  lemma DescendsHalf(a: int, a': int, b: int, x: int, m: int)
    requires Descends(a, b, x, m) && a == 2 * a'
    ensures Descends(a', b, x, m)
  {
    forall d | Divides(d, a') && Divides(d, b)
      ensures Divides(d, x) && Divides(d, m)
    {
      DividesMul(d, a', 2);
    }
  }

  lemma DescendsSub(a: int, b: int, x: int, m: int)
    requires Descends(a, b, x, m)
    ensures Descends(a - b, b, x, m)
  {
    forall d | Divides(d, a - b) && Divides(d, b)
      ensures Divides(d, x) && Divides(d, m)
    {
      DividesSum(d, a - b, b);
    }
  }

  lemma DescendsSwap(a: int, b: int, x: int, m: int)
    requires Descends(a, b, x, m)
    ensures Descends(b, a, x, m)
  {}

  /** A coefficient u with u * x congruent to a is halved along with a, modulo an odd m. */
  lemma HalfCong(u: int, u': int, a: int, a': int, x: int, m: int)
    requires m % 2 == 1 && Cong(u * x, a, m) && a == 2 * a'
    requires 2 * u' == u || 2 * u' == u + m
    ensures Cong(u' * x, a', m)
  {
    assert Cong(2 * u' * x, a, m) by {
      MulDist(u, m, x);
      CongOffset(u * x, x, m);
      if 2 * u' == u + m { CongTrans(2 * u' * x, u * x, a, m); }
    }
    MulAssoc(2, u', x);
    assert 2 * u' * x - a == 2 * (u' * x - a');
    HalveModOdd(u' * x - a', m);
  }

  lemma SubCong(u: int, v: int, w: int, a: int, b: int, x: int, m: int)
    requires Cong(u * x, a, m) && Cong(v * x, b, m)
    requires w == u - v || w == u - v + m
    ensures Cong(w * x, a - b, m)
  {
    CongAdd(u * x, a, v * x, b, m);
    MulDist(u, v, x);
    MulDist(u - v, m, x);
    CongOffset((u - v) * x, x, m);
    if w != u - v { CongTrans(w * x, (u - v) * x, a - b, m); }
  }

  lemma GcdAtEnd(g: int, u: int, x: int, m: int)
    requires g > 0 && Descends(g, g, x, m) && Cong(u * x, g, m)
    ensures IsGcd(g, x, m)
  {
    assert Divides(g, g) by { DividesIntro(g, 1); }
    forall d | Divides(d, x) && Divides(d, m)
      ensures Divides(d, g)
    {
      DividesMul(d, x, u);
      var q :| u * x - g == m * q;
      DividesMul(d, m, q);
      DividesSum(d, u * x, m * q);
    }
  }

  /** (x + (x odd ? m : 0)) / 2, for x below the odd m: below m again. */
  function HalfMod(x: nat, m: nat): (h: nat)
    requires m % 2 == 1
    ensures 2 * h == x || 2 * h == x + m
    ensures x < m ==> h < m
  {
    if x % 2 == 0 then x / 2 else (x + m) / 2
  }

  lemma WeightTop(n: nat)
    requires n >= 1
    ensures Weight(n) == 2 * (HighBit() * Weight(n - 1))
  {
    MulAssoc(2, HighBit(), Weight(n - 1));
  }

  lemma SetTopBit(s: seq<Word>, t: seq<Word>, n: nat)
    requires 1 <= n && |s| == |t| == n && s[..n - 1] == t[..n - 1] && t[n - 1] == s[n - 1] + HighBit()
    ensures Val(t) == Val(s) + HighBit() * Weight(n - 1)
  {
    MulDist(s[n - 1], HighBit(), Weight(n - 1));
  }

  /** vli_modInv_update: the carry of uv + mod is put back as the top bit after the shift. */
  method ModInvUpdate(uv: array<Word>, mod: array<Word>, n: nat)
    requires 1 <= n <= uv.Length && n <= mod.Length && uv != mod
    requires Val(mod[..n]) % 2 == 1
    modifies uv
    ensures Val(uv[..n]) == HalfMod(old(Val(uv[..n])), Val(mod[..n]))
  {
    hide Weight, Val, Or, HighBit, HalfMod;
    ghost var x, m := Val(uv[..n]), Val(mod[..n]);
    var carry: Word := 0;
    ValParity(uv[..n]);
    if uv[0] % 2 != 0 {
      carry := Add(uv, uv, mod, n);
    }
    ghost var before := uv[0..0 + n];
    assert before == uv[..n];
    WeightTop(n);
    assert Val(before) + carry * Weight(n) == x + (if x % 2 == 0 then 0 else m);
    RShift1(uv, 0, n);
    ghost var after := uv[0..0 + n];
    assert after == uv[..n];
    if carry != 0 {
      assert after[n - 1] == before[n - 1] / 2 by { assert LowBit(before, n) == 0; }
      RestoreTop(uv, n, before[n - 1]);
    }
    HalvedWithCarry(x, m, Val(before), carry, HighBit() * Weight(n - 1), Val(uv[..n]));
  }

  /** The carry of the addition comes back as the top bit of the half. */
  method RestoreTop(uv: array<Word>, n: nat, ghost was: Word)
    requires 1 <= n <= uv.Length && uv[n - 1] == was / 2
    modifies uv
    ensures Val(uv[..n]) == old(Val(uv[..n])) + HighBit() * Weight(n - 1)
  {
    hide Weight, Val, Or, HighBit;
    ghost var after := uv[..n];
    TopClear(was);
    OrHigh(after[n - 1], 1);
    uv[n - 1] := Or(uv[n - 1], HighBit());
    SetTopBit(after, uv[..n], n);
  }

  lemma HalvedWithCarry(x: nat, m: nat, b: nat, carry: nat, w: int, r: nat)
    requires m % 2 == 1 && carry <= 1 && b + carry * (2 * w) == x + (if x % 2 == 0 then 0 else m)
    requires r == b / 2 + (if carry == 0 then 0 else w)
    ensures r == HalfMod(x, m)
  {}

  lemma TopClear(x: Word)
    ensures x / 2 < HighBit()
  {}

  /** What the loop of uECC_vli_modInv keeps about a and its coefficient u. */
  ghost predicate Tracks(u: nat, a: nat, x: nat, m: nat) {
    a > 0 && u < m && Cong(u * x, a, m)
  }

  lemma TracksHalf(u: nat, a: nat, x: nat, m: nat)
    requires m % 2 == 1 && Tracks(u, a, x, m) && a % 2 == 0
    ensures Tracks(HalfMod(u, m), a / 2, x, m)
  {
    HalfCong(u, HalfMod(u, m), a, a / 2, x, m);
  }

  ghost function SubMod(u: nat, v: nat, m: nat): (w: nat)
    requires u < m && v < m
    ensures w < m
  {
    if u < v then u - v + m else u - v
  }

  lemma TracksSub(u: nat, a: nat, v: nat, b: nat, x: nat, m: nat)
    requires m % 2 == 1 && Tracks(u, a, x, m) && Tracks(v, b, x, m)
    requires a > b && a % 2 == 1 && b % 2 == 1
    ensures Tracks(HalfMod(SubMod(u, v, m), m), (a - b) / 2, x, m)
    ensures Descends(a, b, x, m) ==> Descends((a - b) / 2, b, x, m)
  {
    SubCong(u, v, SubMod(u, v, m), a, b, x, m);
    TracksHalf(SubMod(u, v, m), a - b, x, m);
    if Descends(a, b, x, m) {
      DescendsSub(a, b, x, m);
      DescendsHalf(a - b, (a - b) / 2, b, x, m);
    }
  }

  /** The coefficient update of a subtraction branch: u - v modulo m, although u + mod may
      overflow the words before v is taken off. */
  method SubCoefficient(u: array<Word>, v: array<Word>, mod: array<Word>, n: nat)
    requires n <= u.Length && n <= v.Length && n <= mod.Length && u != v && u != mod
    requires Val(u[..n]) < Val(mod[..n]) && Val(v[..n]) < Val(mod[..n])
    modifies u
    ensures Val(u[..n]) == SubMod(old(Val(u[..n])), Val(v[..n]), Val(mod[..n]))
  {
    hide Weight, Val;
    ghost var x, y, m := Val(u[..n]), Val(v[..n]), Val(mod[..n]);
    ValBound(mod[..n]);
    var c := CmpUnsafe(u, v, n);
    ghost var carry: nat := 0;
    if c < 0 {
      carry := Add(u, u, mod, n);
    }
    ValBound(u[..n]);
    var borrow := Sub(u, u, v, n);
    ValBound(u[..n]);
    assert Val(u[..n]) == x + (if x < y then m else 0) - y + (borrow - carry) * Weight(n) by {
      MulDist(borrow, carry, Weight(n));
    }
    WrapCancels(Val(u[..n]), SubMod(x, y, m), borrow - carry, Weight(n));
  }

  lemma WrapCancels(r: nat, exact: nat, k: int, w: nat)
    requires r < w && exact < w && r == exact + k * w
    ensures r == exact
  {
    DivModUnique(r, w, 0, r);
    DivModUnique(r, w, k, exact);
  }

  /** a := (a - b) / 2 for odd a > b. */
  method SubHalve(a: array<Word>, b: array<Word>, n: nat)
    requires 1 <= n <= a.Length && n <= b.Length && a != b
    requires Val(a[..n]) > Val(b[..n])
    modifies a
    ensures Val(a[..n]) == (old(Val(a[..n])) - Val(b[..n])) / 2
  {
    hide Weight, Val;
    var borrow := Sub(a, a, b, n);
    ValBound(a[..n]);
    ValBound(old(a[..n]));
    assert a[..n] == a[0..0 + n];
    RShift1(a, 0, n);
    assert a[..n] == a[0..0 + n];
  }

  /** uECC_vli_modInv for an odd modulus: result * input is congruent to the greatest common
      divisor, so it is an inverse exactly when there is one; zero is mapped to zero. */
  method ModInv(result: array<Word>, input: array<Word>, mod: array<Word>, n: nat)
    requires 1 <= n && n <= result.Length && n <= input.Length && n <= mod.Length
    requires Val(mod[..n]) % 2 == 1 && Val(mod[..n]) > 1
    modifies result
    ensures old(Val(input[..n])) == 0 ==> Val(result[..n]) == 0
    ensures old(Val(input[..n])) > 0 ==>
              Val(result[..n]) < old(Val(mod[..n]))
              && exists g :: IsGcd(g, old(Val(input[..n])), old(Val(mod[..n])))
                             && Cong(Val(result[..n]) * old(Val(input[..n])), g, old(Val(mod[..n])))
  {
    hide Weight, Val, Tracks, Descends, HalfMod, IsGcd;
    ghost var x, m := Val(input[..n]), Val(mod[..n]);
    var zero := IsZero(input, n);
    if zero {
      Clear(result, 0, n);
      ValZero(result[..n]);
      return;
    }
    var a, b, u, v := new Word[n], new Word[n], new Word[n], new Word[n];
    Set(a, input, n);
    Set(b, mod, n);
    Clear(u, 0, n);
    u[0] := 1;
    Clear(v, 0, n);
    InitialCoefficients(u[..n], v[..n], x, m);
    var c := CmpUnsafe(a, b, n);
    while c != 0
      invariant c == Sign(Val(a[..n]) - Val(b[..n]))
      invariant Tracks(Val(u[..n]), Val(a[..n]), x, m) && Tracks(Val(v[..n]), Val(b[..n]), x, m)
      invariant Descends(Val(a[..n]), Val(b[..n]), x, m)
      invariant mod[..n] == old(mod[..n]) && result[..] == old(result[..])
      decreases Val(a[..n]) + Val(b[..n])
    {
      InvStep(a, b, u, v, mod, n, c, x);
      c := CmpUnsafe(a, b, n);
    }
    TracksEnd(Val(u[..n]), Val(a[..n]), x, m);
    assert u[..n] == u[..];
    Set(result, u, n);
  }

  lemma TracksEnd(u: nat, a: nat, x: nat, m: nat)
    requires Tracks(u, a, x, m) && Descends(a, a, x, m)
    ensures u < m && IsGcd(a, x, m) && Cong(u * x, a, m)
  {
    GcdAtEnd(a, u, x, m);
  }

  lemma InitialCoefficients(u: seq<Word>, v: seq<Word>, x: nat, m: nat)
    requires |u| == |v| >= 1 && u[0] == 1 && (forall i :: 1 <= i < |u| ==> u[i] == 0)
    requires (forall i :: 0 <= i < |v| ==> v[i] == 0) && x > 0 && m > 1
    ensures Tracks(Val(u), x, x, m) && Tracks(Val(v), m, x, m) && Descends(x, m, x, m)
  {
    ValCons(u);
    ValZero(u[1..]);
    ValZero(v);
    CongRefl(x, m);
    CongOffset(0, -1, m);
  }

  /** An even side is halved along with its coefficient. */
  method HalveSide(a: array<Word>, u: array<Word>, mod: array<Word>, n: nat, ghost b: nat, ghost x: nat)
    requires 1 <= n == a.Length == u.Length && n <= mod.Length && a != u && mod != a && mod != u
    requires Val(mod[..n]) % 2 == 1 && Val(a[..n]) % 2 == 0
    requires Tracks(Val(u[..n]), Val(a[..n]), x, Val(mod[..n])) && Descends(Val(a[..n]), b, x, Val(mod[..n]))
    modifies a, u
    ensures Tracks(Val(u[..n]), Val(a[..n]), x, Val(mod[..n])) && Descends(Val(a[..n]), b, x, Val(mod[..n]))
    ensures Val(a[..n]) < old(Val(a[..n]))
  {
    hide Weight, Val, Descends, HalfMod;
    ghost var m, a0, u0 := Val(mod[..n]), Val(a[..n]), Val(u[..n]);
    TracksHalf(u0, a0, x, m);
    DescendsHalf(a0, a0 / 2, b, x, m);
    assert a[..n] == a[0..0 + n];
    RShift1(a, 0, n);
    assert a[..n] == a[0..0 + n];
    ModInvUpdate(u, mod, n);
  }

  /** Of two odd sides, the greater becomes half of their difference, along with its coefficient. */
  method SubtractSide(a: array<Word>, b: array<Word>, u: array<Word>, v: array<Word>, mod: array<Word>, n: nat,
                      ghost x: nat)
    requires 1 <= n == a.Length == b.Length == u.Length == v.Length && n <= mod.Length
    requires a != b && a != u && a != v && b != u && b != v && u != v && mod != a && mod != b && mod != u && mod != v
    requires Val(mod[..n]) % 2 == 1 && Val(a[..n]) > Val(b[..n]) && Val(a[..n]) % 2 == 1 && Val(b[..n]) % 2 == 1
    requires Tracks(Val(u[..n]), Val(a[..n]), x, Val(mod[..n])) && Tracks(Val(v[..n]), Val(b[..n]), x, Val(mod[..n]))
    requires Descends(Val(a[..n]), Val(b[..n]), x, Val(mod[..n]))
    modifies a, u
    ensures Tracks(Val(u[..n]), Val(a[..n]), x, Val(mod[..n])) && Descends(Val(a[..n]), Val(b[..n]), x, Val(mod[..n]))
    ensures Val(a[..n]) < old(Val(a[..n]))
  {
    hide Weight, Val, Descends, HalfMod;
    TracksSub(Val(u[..n]), Val(a[..n]), Val(v[..n]), Val(b[..n]), x, Val(mod[..n]));
    SubHalve(a, b, n);
    SubCoefficient(u, v, mod, n);
    ModInvUpdate(u, mod, n);
  }

  /** The body of the loop: halve an even side, else subtract the smaller side and halve. */
  method InvStep(a: array<Word>, b: array<Word>, u: array<Word>, v: array<Word>, mod: array<Word>, n: nat,
                 c: int, ghost x: nat)
    requires 1 <= n == a.Length == b.Length == u.Length == v.Length && n <= mod.Length
    requires a != b && a != u && a != v && b != u && b != v && u != v && mod != a && mod != b && mod != u && mod != v
    requires Val(mod[..n]) % 2 == 1 && c == Sign(Val(a[..n]) - Val(b[..n])) && c != 0
    requires Tracks(Val(u[..n]), Val(a[..n]), x, Val(mod[..n]))
    requires Tracks(Val(v[..n]), Val(b[..n]), x, Val(mod[..n]))
    requires Descends(Val(a[..n]), Val(b[..n]), x, Val(mod[..n]))
    modifies a, b, u, v
    ensures Tracks(Val(u[..n]), Val(a[..n]), x, Val(mod[..n]))
    ensures Tracks(Val(v[..n]), Val(b[..n]), x, Val(mod[..n]))
    ensures Descends(Val(a[..n]), Val(b[..n]), x, Val(mod[..n]))
    ensures Val(a[..n]) + Val(b[..n]) < old(Val(a[..n])) + old(Val(b[..n]))
  {
    hide Weight, Val, Descends, Tracks;
    ghost var m, a0, b0 := Val(mod[..n]), Val(a[..n]), Val(b[..n]);
    ValParity(a[..n]);
    ValParity(b[..n]);
    if a[0] % 2 == 0 {
      HalveSide(a, u, mod, n, b0, x);
    } else if b[0] % 2 == 0 {
      DescendsSwap(a0, b0, x, m);
      HalveSide(b, v, mod, n, a0, x);
      DescendsSwap(Val(b[..n]), a0, x, m);
    } else if c > 0 {
      SubtractSide(a, b, u, v, mod, n, x);
    } else {
      DescendsSwap(a0, b0, x, m);
      SubtractSide(b, a, v, u, mod, n, x);
      DescendsSwap(Val(b[..n]), a0, x, m);
    }
  }

  /** The outcome of ModInv is an inverse exactly when input and modulus are coprime. */
  lemma InverseIffCoprime(r: nat, x: nat, m: nat, g: int)
    requires m > 1 && IsGcd(g, x, m) && Cong(r * x, g, m)
    ensures Cong(r * x, 1, m) <==> g == 1
  {
    DividesBound(g, m);
    if Cong(r * x, 1, m) {
      CongSym(r * x, g, m);
      CongTrans(g, r * x, 1, m);
      if g > 1 { DividesBound(m, g - 1); }
    }
  }
}
