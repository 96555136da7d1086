/** Modular arithmetic on multi-word integers (deps/micro-ecc/uECC.c): reduction by shifted
    subtraction, and modular addition, subtraction and multiplication. */
module VliMod {
  import opened Arith
  import opened Vli
  import opened VliMul

  // ----- uECC_vli_modAdd, uECC_vli_modSub -----------------------------------------------------------

  lemma WordsBound(s: seq<Word>, m: seq<Word>)
    requires |s| == |m|
    ensures Val(s) < Weight(|s|) && Val(m) < Weight(|s|)
  {
    ValBound(s);
    ValBound(m);
  }

  /** uECC_vli_modAdd.  The sum may overflow the words; the subtraction wraps it back. */
  method ModAdd(result: array<Word>, left: array<Word>, right: array<Word>, mod: array<Word>, n: nat)
    requires n <= result.Length && n <= left.Length && n <= right.Length && n <= mod.Length && result != mod
    requires Val(left[..n]) < Val(mod[..n]) && Val(right[..n]) < Val(mod[..n])
    modifies result
    ensures Val(result[..n]) == (old(Val(left[..n])) + old(Val(right[..n]))) % Val(mod[..n])
    ensures result[n..] == old(result[n..])
  {
    ghost var x, y, m := Val(left[..n]), Val(right[..n]), Val(mod[..n]);
    var carry := Add(result, left, right, n);
    WordsBound(result[..n], mod[..n]);
    ModOnce(x + y, m);
    var reduce := carry != 0;
    if !reduce {
      var c := CmpUnsafe(mod, result, n);
      reduce := c != 1;
    }
    if reduce {
      var _ := Sub(result, result, mod, n);
      WordsBound(result[..n], mod[..n]);
    }
  }

  /** uECC_vli_modSub.  A borrow is repaired by adding the modulus with overflow. */
  method ModSub(result: array<Word>, left: array<Word>, right: array<Word>, mod: array<Word>, n: nat)
    requires n <= result.Length && n <= left.Length && n <= right.Length && n <= mod.Length && result != mod
    requires Val(left[..n]) < Val(mod[..n]) && Val(right[..n]) < Val(mod[..n])
    modifies result
    ensures Val(result[..n]) == (old(Val(left[..n])) - old(Val(right[..n]))) % Val(mod[..n])
    ensures result[n..] == old(result[n..])
  {
    ghost var x: int, y: int, m := Val(left[..n]), Val(right[..n]), Val(mod[..n]);
    var borrow := Sub(result, left, right, n);
    WordsBound(result[..n], mod[..n]);
    if borrow != 0 {
      var _ := Add(result, result, mod, n);
      WordsBound(result[..n], mod[..n]);
    }
    DivModUnique(x - y, m, if x >= y then 0 else -1, if x >= y then x - y else x - y + m);
  }

  // ----- uECC_vli_numBits -----------------------------------------------------------------------------

  lemma ZeroTail(s: seq<Word>, i: nat)
    requires i <= |s| && forall k :: i <= k < |s| ==> s[k] == 0
    ensures Val(s) == Val(s[..i])
  {
    ValSplit(s, i);
    ValZero(s[i..]);
  }

  /** vli_numDigits: the words up to the most significant non-zero one. */
  method NumDigits(a: array<Word>, n: nat) returns (d: nat)
    requires n <= a.Length
    ensures d <= n && (d > 0 ==> a[d - 1] != 0)
    ensures forall k :: d <= k < n ==> a[k] == 0
  {
    d := n;
    while d > 0 && a[d - 1] == 0
      invariant d <= n && forall k :: d <= k < n ==> a[k] == 0
    {
      d := d - 1;
    }
  }

  /** uECC_vli_numBits: the bit length of the number. */
  method NumBits(a: array<Word>, n: nat) returns (bits: nat)
    requires n <= a.Length
    ensures Val(a[..n]) < Pow2(bits)
    ensures if Val(a[..n]) == 0 then bits == 0 else bits > 0 && Pow2(bits - 1) <= Val(a[..n])
    ensures n > 0 && a[n - 1] != 0 ==> WORD_BITS * (n - 1) < bits <= WORD_BITS * n
  {
    hide Val, Pow2;
    var d := NumDigits(a, n);
    ghost var s := a[..n];
    ZeroTail(s, d);
    NoBits(s);
    if d == 0 { return 0; }
    var i := DigitBits(a[d - 1]);
    TopWord(s, d, i);
    bits := WORD_BITS * (d - 1) + i;
    MulDist(d - 1, 1, WORD_BITS);
    MulMono(0, d - 1, WORD_BITS);
  }

  lemma NoBits(s: seq<Word>)
    ensures Val(s[..0]) == 0 && Pow2(0) == 1
  {}

  /** The loop over the top word. */
  method DigitBits(top: Word) returns (i: nat)
    requires top > 0
    ensures 0 < i <= WORD_BITS && Pow2(i - 1) <= top < Pow2(i)
  {
    var digit: nat := top;
    i := 0;
    while digit != 0
      invariant digit * Pow2(i) <= top < (digit + 1) * Pow2(i)
      invariant digit == 0 ==> i > 0 && Pow2(i - 1) <= top
      decreases digit
    {
      HalveDigit(digit, top, i);
      digit := digit / 2;
      i := i + 1;
    }
    assert Base() == Pow2(WORD_BITS);
    if i > WORD_BITS { Pow2Mono(WORD_BITS, i - 1); }
  }

  lemma HalveDigit(digit: nat, top: nat, i: nat)
    requires digit > 0 && digit * Pow2(i) <= top < (digit + 1) * Pow2(i)
    ensures (digit / 2) * Pow2(i + 1) <= top < (digit / 2 + 1) * Pow2(i + 1)
    ensures digit / 2 == 0 ==> Pow2(i) <= top
  {
    var h, p := digit / 2, Pow2(i);
    MulAssoc(h, 2, p);
    MulMono(h * 2, digit, p);
    MulAssoc(h + 1, 2, p);
    MulMono(digit + 1, (h + 1) * 2, p);
  }

  /** The bit length of a number out of the bit length of its top word. */
  lemma TopWord(s: seq<Word>, d: nat, i: nat)
    requires 1 <= d <= |s| && i > 0 && Pow2(i - 1) <= s[d - 1] < Pow2(i)
    ensures Pow2(WORD_BITS * (d - 1) + i - 1) <= Val(s[..d]) < Pow2(WORD_BITS * (d - 1) + i)
  {
    var top: nat, w := s[d - 1], Weight(d - 1);
    ValSnoc(s, d - 1);
    ValBound(s[..d - 1]);
    WeightPow2(d - 1);
    Pow2Add(WORD_BITS * (d - 1), i);
    Pow2Add(WORD_BITS * (d - 1), i - 1);
    MulMono(Pow2(i - 1), top, w);
    MulMono(top + 1, Pow2(i), w);
    MulDist(top, 1, w);
  }

  // ----- uECC_vli_mmod ----------------------------------------------------------------------------------

  /** x << s split into the bits that leave the word and the bits that stay. */
  lemma ShiftOutOf(x: Word, s: nat)
    requires 0 < s < WORD_BITS
    ensures var q := Shr(x, WORD_BITS - s);
            q < Pow2(s) && x * Pow2(s) == q * Base() + Shl(x, s)
            && Shl(x, s) == (x % Pow2(WORD_BITS - s)) * Pow2(s)
            && Shl(x, s) <= Base() - Pow2(s)
  {
    hide Pow2;
    Pow2Add(WORD_BITS - s, s);
    ShiftSplit(x, Pow2(WORD_BITS - s), Pow2(s), Base());
  }

  method ShiftWord(x: Word, s: nat, carry: Word) returns (w: Word, out: Word)
    requires 0 < s < WORD_BITS && carry < Pow2(s)
    ensures out < Pow2(s) && w + out * Base() == x * Pow2(s) + carry
  {
    ShiftOutOf(x, s);
    OrDisjoint(carry, x % Pow2(WORD_BITS - s), s);
    w := Or(Shl(x, s), carry);
    out := Shr(x, WORD_BITS - s);
  }

  lemma ShiftedColumn(v: nat, c: nat, w: nat, x: nat, p: nat, y: nat, out: nat, b: nat, lo: nat)
    requires v + c * w == lo * p && y + out * b == x * p + c
    ensures v + y * w + out * (b * w) == (lo + x * w) * p
  {
    MulDist(y, out * b, w);
    MulAssoc(out, b, w);
    MulDist(x * p, c, w);
    MulAssoc(x, p, w);
    MulAssoc(x, w, p);
    MulDist(lo, x * w, p);
  }

  /** The modulus copied to the upper half of mod_multiple, shifted left by s bits. */
  method ShiftIntoUpper(multiple: array<Word>, mod: array<Word>, n: nat, s: nat)
    requires 2 * n <= multiple.Length && n <= mod.Length && multiple != mod
    requires s < WORD_BITS && Val(mod[..n]) * Pow2(s) < Weight(n)
    modifies multiple
    ensures Val(multiple[n..2 * n]) == Val(mod[..n]) * Pow2(s)
    ensures multiple[..n] == old(multiple[..n])
  {
    assert Pow2(0) == 1;
    if s > 0 {
      ShiftUp(multiple, mod, n, s);
    } else {
      Copy(multiple, mod, n);
    }
  }

  method ShiftUp(multiple: array<Word>, mod: array<Word>, n: nat, s: nat)
    requires 2 * n <= multiple.Length && n <= mod.Length && multiple != mod
    requires 0 < s < WORD_BITS && Val(mod[..n]) * Pow2(s) < Weight(n)
    modifies multiple
    ensures Val(multiple[n..2 * n]) == Val(mod[..n]) * Pow2(s)
    ensures multiple[..n] == old(multiple[..n])
  {
    hide Val, Weight, Pow2;
    ghost var m := mod[..n];
    var carry: Word := 0;
    ghost var v := [];
    NothingShifted(m, s);
    for k := 0 to n
      invariant carry < Pow2(s) && |v| == k && multiple[n..n + k] == v
      invariant Val(v) + carry * Weight(k) == Val(m[..k]) * Pow2(s)
      invariant multiple[..n] == old(multiple[..n]) && mod[..n] == m
    {
      var w, out := ShiftWord(mod[k], s, carry);
      ShiftedStep(v, m, k, s, w, out, carry);
      multiple[n + k] := w;
      carry := out;
      v := v + [w];
    }
    assert m[..n] == m;
    if carry >= 1 { MulMono(1, carry, Weight(n)); }
  }

  lemma NothingShifted(m: seq<Word>, s: nat)
    ensures Val([]) + 0 * Weight(0) == Val(m[..0]) * Pow2(s) && 0 < Pow2(s)
  {
    assert m[..0] == [];
  }

  lemma ShiftedStep(v: seq<Word>, m: seq<Word>, k: nat, s: nat, w: Word, out: nat, c: nat)
    requires k == |v| < |m| && Val(v) + c * Weight(k) == Val(m[..k]) * Pow2(s)
    requires w + out * Base() == m[k] * Pow2(s) + c
    ensures Val(v + [w]) + out * Weight(k + 1) == Val(m[..k + 1]) * Pow2(s)
  {
    assert Weight(k + 1) == Base() * Weight(k);
    hide Val, Weight, Pow2;
    ShiftedColumn(Val(v), c, Weight(k), m[k], Pow2(s), w, out, Base(), Val(m[..k]));
    ValSnoc(m, k);
    ValSnoc(v + [w], k);
    assert (v + [w])[..k] == v && (v + [w])[..k + 1] == v + [w];
  }

  method Copy(multiple: array<Word>, mod: array<Word>, n: nat)
    requires 2 * n <= multiple.Length && n <= mod.Length && multiple != mod
    modifies multiple
    ensures multiple[n..2 * n] == mod[..n]
    ensures multiple[..n] == old(multiple[..n])
  {
    for k := 0 to n
      invariant multiple[n..n + k] == mod[..k]
      invariant multiple[..n] == old(multiple[..n])
    {
      multiple[n + k] := mod[k];
    }
  }

  /** Halving a double-length number in two half-length shifts and one transferred bit. */
  method HalveMultiple(multiple: array<Word>, n: nat)
    requires 1 <= n && 2 * n <= multiple.Length
    modifies multiple
    ensures Val(multiple[..2 * n]) == old(Val(multiple[..2 * n])) / 2
  {
    hide Shl, Or, Val, Shr;
    ghost var s := multiple[..2 * n];
    assert s[..n] == multiple[0..0 + n] && s[n..] == multiple[n..n + n];
    RShift1(multiple, 0, n);
    ghost var t := multiple[0..0 + n];
    assert Shifted(s[..n], t);
    assert t[n - 1] == s[n - 1] / 2;
    assert multiple[n] == s[n] && multiple[n - 1] == t[n - 1];
    CarryBit(multiple[n]);
    OrHigh(s[n - 1] / 2, s[n] % 2);
    multiple[n - 1] := Or(multiple[n - 1], Shl(multiple[n], WORD_BITS - 1));
    assert multiple[n..n + n] == s[n..];
    ghost var low := multiple[..n];
    RShift1(multiple, n, n);
    ghost var u := multiple[n..n + n];
    assert multiple[..n] == low;
    assert Shifted(s[n..], u);
    assert multiple[..2 * n] == low + u;
    HalvesShifted(s, t, low, u, n);
    ShiftedVal(s, low + u);
  }

  lemma HalvesShifted(s: seq<Word>, t: seq<Word>, low: seq<Word>, u: seq<Word>, n: nat)
    requires 1 <= n && |s| == 2 * n && |t| == |low| == n
    requires Shifted(s[..n], t) && Shifted(s[n..], u)
    requires low[..n - 1] == t[..n - 1] && low[n - 1] == s[n - 1] / 2 + (s[n] % 2) * HighBit()
    ensures Shifted(s, low + u)
  {
    forall i | 0 <= i < 2 * n
      ensures (low + u)[i] == s[i] / 2 + LowBit(s, i + 1) * HighBit()
    {
      if i < n - 1 {
        assert low[i] == low[..n - 1][i] == t[i];
        assert LowBit(s[..n], i + 1) == LowBit(s, i + 1);
      } else if i >= n {
        assert u[i - n] == s[n..][i - n] / 2 + LowBit(s[n..], i - n + 1) * HighBit();
        assert LowBit(s[n..], i - n + 1) == LowBit(s, i + 1);
      }
    }
  }

  /** One subtraction step: the remainder ends below the multiple and stays congruent. */
  lemma SubtractStep(v: nat, mm: nat, diff: int, borrow: nat, w: nat, product: nat, m: nat, k: nat)
    requires v < 2 * mm && mm == m * k && Cong(v, product, m) && borrow <= 1
    requires diff == v - mm + borrow * w && 0 <= diff < w && v < w
    ensures borrow == 0 ==> diff < mm && Cong(diff, product, m)
    ensures borrow == 1 ==> v < mm
  {
    if borrow == 0 {
      CongOffset(v, k, m);
      CongTrans(diff, v, product, m);
    }
  }

  /** The set-up of uECC_vli_mmod: the modulus with its highest set bit at the maximum position. */
  method AlignModulus(mod: array<Word>, n: nat) returns (multiple: array<Word>, shift: int)
    requires 1 <= n <= mod.Length && mod[n - 1] != 0
    ensures fresh(multiple) && multiple.Length == 2 * n && shift >= 0
    ensures Val(mod[..n]) > 0
    ensures Val(multiple[..2 * n]) == Val(mod[..n]) * Pow2(shift)
    ensures Weight(2 * n) <= 2 * Val(multiple[..2 * n])
  {
    hide Weight, Val, Pow2;
    ghost var m := Val(mod[..n]);
    multiple := new Word[2 * n];
    var bits := NumBits(mod, n);
    shift := n * 2 * WORD_BITS - bits;
    var wordShift, bitShift := shift / WORD_BITS, shift % WORD_BITS;
    TopShift(n, bits, shift);
    Clear(multiple, 0, wordShift);
    AlignedModulus(m, n, bits, shift, bitShift);
    ghost var low := multiple[..n];
    ShiftIntoUpper(multiple, mod, n, bitShift);
    assert multiple[..n] == low;
    UpperHalf(multiple[..], n, m * Pow2(bitShift));
    assert multiple[..] == multiple[..2 * n];
  }

  /** uECC_vli_mmod: result = product % mod, for any modulus whose top word is not zero.
      The remainder lives alternately in product and in tmp. */
  method MMod(result: array<Word>, product: array<Word>, mod: array<Word>, n: nat)
    requires 1 <= n && n <= result.Length && 2 * n <= product.Length && n <= mod.Length
    requires product != mod && mod[n - 1] != 0
    modifies result, product
    ensures old(Val(mod[..n])) > 0
    ensures Val(result[..n]) == old(Val(product[..2 * n])) % old(Val(mod[..n]))
  {
    hide Weight, Val, Pow2;
    ghost var modulus := mod[..n];
    ghost var p, m := Val(product[..2 * n]), Val(modulus);
    var multiple, shift := AlignModulus(mod, n);
    var tmp := new Word[2 * n];
    var v := [tmp, product];
    var index := 1;
    ValBound(product[..2 * n]);
    CongRefl(p, m);
    assert v[index][..2 * n] == product[..2 * n];

    while shift >= 0
      invariant v == [tmp, product] && 0 <= index <= 1 && shift >= -1
      invariant Cong(Val(v[index][..2 * n]), p, m)
      invariant shift >= 0 ==> Val(multiple[..2 * n]) == m * Pow2(shift)
      invariant shift >= 0 ==> Val(v[index][..2 * n]) < 2 * Val(multiple[..2 * n])
      invariant shift == -1 ==> Val(v[index][..2 * n]) < m
      decreases shift
    {
      ghost var cur := v[index][..2 * n];
      ghost var mm := Val(multiple[..2 * n]);
      var borrow := Sub(v[1 - index], v[index], multiple, 2 * n);
      assert v[index][..2 * n] == cur;
      ValBound(v[1 - index][..2 * n]);
      ValBound(cur);
      SubtractStep(Val(cur), mm, Val(v[1 - index][..2 * n]), borrow, Weight(2 * n), p, m, Pow2(shift));
      index := if index == borrow then 1 else 0;   // !(index ^ borrow)
      ghost var kept := v[index][..2 * n];
      HalveMultiple(multiple, n);
      assert v[index][..2 * n] == kept;
      HalvedPower(m, shift, mm);
      shift := shift - 1;
    }
    ghost var rest := v[index][..2 * n];
    LowHalf(rest, n, m, modulus);
    CongMod(p, m);
    CongTrans(Val(rest), p, p % m, m);
    CongUnique(Val(rest), p % m, m);
    assert v[index][..n] == rest[..n];
    Set(result, v[index], n);
  }

  /** With a non-zero top word the shift is n words and less than one word more. */
  lemma TopShift(n: nat, bits: nat, shift: int)
    requires 1 <= n && WORD_BITS * (n - 1) < bits <= WORD_BITS * n && shift == n * 2 * WORD_BITS - bits
    ensures shift / WORD_BITS == n && shift % WORD_BITS == WORD_BITS * n - bits && shift >= 0
  {
    MulDist(n, n, WORD_BITS);
    MulDist(n - 1, 1, WORD_BITS);
    MulAssoc(n, 2, WORD_BITS);
    DivModUnique(shift, WORD_BITS, n, WORD_BITS * n - bits);
  }

  lemma AlignedModulus(m: nat, n: nat, bits: nat, shift: nat, bitShift: nat)
    requires 1 <= bits && Pow2(bits - 1) <= m < Pow2(bits)
    requires bits + bitShift == WORD_BITS * n && shift == bitShift + WORD_BITS * n
    ensures m * Pow2(bitShift) < Weight(n)
    ensures m * Pow2(shift) == m * Pow2(bitShift) * Weight(n)
    ensures Weight(2 * n) <= 2 * (m * Pow2(shift))
  {
    WeightPow2(n);
    Pow2Add(bits, bitShift);
    MulMono(m + 1, Pow2(bits), Pow2(bitShift));
    MulDist(m, 1, Pow2(bitShift));
    Pow2Add(bitShift, WORD_BITS * n);
    MulAssoc(m, Pow2(bitShift), Weight(n));
    WeightPow2(2 * n);
    MulAssoc(2, Pow2(bits - 1), Pow2(shift));
    MulDist(n, n, WORD_BITS);
    Pow2Add(bits, shift);
    MulMono(Pow2(bits - 1), m, Pow2(shift));
  }

  lemma UpperHalf(s: seq<Word>, n: nat, u: nat)
    requires |s| == 2 * n && Val(s[n..2 * n]) == u && forall k :: 0 <= k < n ==> s[k] == 0
    ensures Val(s[..2 * n]) == u * Weight(n)
  {
    assert s[..2 * n] == s && s[n..] == s[n..2 * n];
    ValSplit(s, n);
    ValZero(s[..n]);
  }

  /** A number below the n-word modulus has only zeros above word n. */
  lemma LowHalf(s: seq<Word>, n: nat, m: nat, mod: seq<Word>)
    requires |s| == 2 * n && |mod| == n && m == Val(mod) && Val(s) < m
    ensures Val(s[..n]) == Val(s)
  {
    ValSplit(s, n);
    ValBound(mod);
    if Val(s[n..]) >= 1 { MulMono(1, Val(s[n..]), Weight(n)); }
  }

  lemma HalvedPower(m: nat, shift: nat, mm: nat)
    requires mm == m * Pow2(shift)
    ensures shift > 0 ==> mm / 2 == m * Pow2(shift - 1) && mm == 2 * (m * Pow2(shift - 1))
    ensures shift == 0 ==> mm == m
  {
    if shift > 0 {
      MulAssoc(m, 2, Pow2(shift - 1));
      MulAssoc(2, m, Pow2(shift - 1));
    }
  }

  /** uECC_vli_modMult, and uECC_vli_modMult_fast without a curve-specific reduction. */
  method ModMult(result: array<Word>, left: array<Word>, right: array<Word>, mod: array<Word>, n: nat)
    requires 1 <= n <= Base() && n <= result.Length && n <= left.Length && n <= right.Length && n <= mod.Length
    requires mod[n - 1] != 0
    modifies result
    ensures old(Val(mod[..n])) > 0
    ensures Val(result[..n]) == (old(Val(left[..n])) * old(Val(right[..n]))) % old(Val(mod[..n]))
  {
    var product := new Word[2 * n];
    Mult(product, left, right, n);
    MMod(result, product, mod, n);
  }

  /** uECC_vli_modSquare. */
  method ModSquare(result: array<Word>, left: array<Word>, mod: array<Word>, n: nat)
    requires 1 <= n <= Base() && n <= result.Length && n <= left.Length && n <= mod.Length
    requires mod[n - 1] != 0
    modifies result
    ensures old(Val(mod[..n])) > 0
    ensures Val(result[..n]) == (old(Val(left[..n])) * old(Val(left[..n]))) % old(Val(mod[..n]))
  {
    var product := new Word[2 * n];
    SquareOf(product, left, n);
    MMod(result, product, mod, n);
  }
}
