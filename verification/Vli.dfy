/** Multi-word integers of micro-ecc (deps/micro-ecc/uECC.c): little-endian arrays of machine
    words, updated in place.  The word width and the number of words stay symbolic. */
module Vli {
  import opened Arith

  type WordBits = w: nat | 2 <= w witness 64

  /** uECC_WORD_BITS: 8, 32 or 64 in the source, any width of at least two bits here. */
  const WORD_BITS: WordBits

  function Base(): (b: nat)
    ensures b >= 4
  {
    assert Pow2(2) == 4;
    Pow2Mono(2, WORD_BITS);
    Pow2(WORD_BITS)
  }

  /** HIGH_BIT_SET */
  function HighBit(): (h: nat)
    ensures Base() == 2 * h && h >= 2
  {
    Pow2(WORD_BITS - 1)
  }

  type Word = x: nat | x < Base()

  // ----- word operations ------------------------------------------------------------------

  function Wrap(x: int): (w: Word) {
    x % Base()
  }

  function Shl(x: Word, s: nat): (w: Word) {
    Wrap(x * Pow2(s))
  }

  function Shr(x: Word, s: nat): (w: Word) {
    assert x / Pow2(s) <= x by { DivLe(x, Pow2(s)); }
    x / Pow2(s)
  }

  lemma DivLe(x: nat, d: nat)
    requires d >= 1
    ensures 0 <= x / d <= x
  {
    var q := x / d;
    assert x == q * d + x % d;
    if q >= 0 { MulMono(1, d, q); }
  }

  /** Bitwise or of two naturals. */
  function Or(x: nat, y: nat): (r: nat)
    decreases x + y
  {
    if x == 0 then y else if y == 0 then x
    else (if x % 2 == 1 || y % 2 == 1 then 1 else 0) + 2 * Or(x / 2, y / 2)
  }

  lemma {:induction false} OrZero(x: nat, y: nat)
    ensures Or(x, y) == 0 <==> x == 0 && y == 0
    decreases x + y
  {
    if x != 0 && y != 0 && x % 2 == 0 && y % 2 == 0 { OrZero(x / 2, y / 2); }
  }

  /** Or adds when one operand lies below bit k and the other is a multiple of 2^k. */
  lemma {:induction false} OrDisjoint(x: nat, q: nat, k: nat)
    requires x < Pow2(k)
    ensures Or(x, q * Pow2(k)) == x + q * Pow2(k)
    ensures Or(q * Pow2(k), x) == x + q * Pow2(k)
  {
    var y := q * Pow2(k);
    if k > 0 && x > 0 && y > 0 {
      MulPow2(q, k);
      OrDisjoint(x / 2, q, k - 1);
    }
  }

  // ----- the number an array of words stands for -------------------------------------------

  /** The weight of word i: Base()^i. */
  function Weight(i: nat): (w: nat)
    ensures w >= 1
  {
    if i == 0 then 1 else MulMono(1, Weight(i - 1), Base()); Base() * Weight(i - 1)
  }

  function Val(s: seq<Word>): (v: nat) {
    if s == [] then 0 else Val(s[..|s| - 1]) + s[|s| - 1] * Weight(|s| - 1)
  }

  lemma ValSnoc(s: seq<Word>, i: nat)
    requires i < |s|
    ensures Val(s[..i + 1]) == Val(s[..i]) + s[i] * Weight(i)
  {
    assert s[..i + 1][..i] == s[..i];
  }

  lemma {:induction false} ValBound(s: seq<Word>)
    ensures Val(s) < Weight(|s|)
  {
    if s != [] {
      var n := |s| - 1;
      var top: nat := s[n];
      ValBound(s[..n]);
      MulMono(top + 1, Base(), Weight(n));
      MulDist(top, 1, Weight(n));
    }
  }

  lemma {:induction false} WeightAdd(i: nat, j: nat)
    ensures Weight(i + j) == Weight(i) * Weight(j)
  {
    if j > 0 {
      WeightAdd(i, j - 1);
      MulAssoc(Base(), Weight(i), Weight(j - 1));
      MulAssoc(Weight(i), Base(), Weight(j - 1));
    }
  }

  lemma {:induction false} WeightPow2(i: nat)
    ensures Weight(i) == Pow2(WORD_BITS * i)
  {
    if i > 0 {
      WeightPow2(i - 1);
      MulDist(i - 1, 1, WORD_BITS);
      Pow2Add(WORD_BITS * (i - 1), WORD_BITS);
    }
  }

  /** Splitting an array at word i. */
  lemma {:induction false} ValSplit(s: seq<Word>, i: nat)
    requires i <= |s|
    ensures Val(s) == Val(s[..i]) + Val(s[i..]) * Weight(i)
    decreases |s|
  {
    if i == |s| {
      assert s[..i] == s;
    } else {
      var n := |s| - 1;
      var p := s[..n];
      ValSplit(p, i);
      assert p[..i] == s[..i];
      assert s[i..][..n - i] == p[i..];
      WeightAdd(n - i, i);
      MulAssoc(s[n], Weight(n - i), Weight(i));
      MulDist(Val(p[i..]), s[n] * Weight(n - i), Weight(i));
    }
  }

  lemma ValCons(s: seq<Word>)
    requires s != []
    ensures Val(s) == s[0] + Base() * Val(s[1..])
  {
    ValSplit(s, 1);
    assert Weight(1) == Base();
    assert Val(s[..1]) == s[0] by { assert s[..1][..0] == []; }
  }

  lemma {:induction false} ValZero(s: seq<Word>)
    ensures Val(s) == 0 <==> forall i :: 0 <= i < |s| ==> s[i] == 0
  {
    if s != [] {
      var n := |s| - 1;
      ValZero(s[..n]);
      if s[n] > 0 { MulMono(1, s[n], Weight(n)); }
    }
  }

  /** The most significant difference decides the comparison. */
  lemma ValLess(s: seq<Word>, t: seq<Word>, i: nat)
    requires i < |s| == |t| && s[i + 1..] == t[i + 1..] && s[i] < t[i]
    ensures Val(s) < Val(t)
  {
    ValSplit(s, i + 1);
    ValSplit(t, i + 1);
    ValSnoc(s, i);
    ValSnoc(t, i);
    ValBound(s[..i]);
    var x: nat := s[i];
    MulMono(x + 1, t[i], Weight(i));
    MulDist(x, 1, Weight(i));
  }

  // ----- clear, set, tests -------------------------------------------------------------------

  /** uECC_vli_clear over words lo .. lo + n */
  method Clear(a: array<Word>, lo: nat, n: nat)
    requires lo + n <= a.Length
    modifies a
    ensures forall i :: lo <= i < lo + n ==> a[i] == 0
    ensures forall i :: 0 <= i < a.Length && !(lo <= i < lo + n) ==> a[i] == old(a[i])
  {
    for k := 0 to n
      invariant forall i :: lo <= i < lo + k ==> a[i] == 0
      invariant forall i :: 0 <= i < a.Length && !(lo <= i < lo + k) ==> a[i] == old(a[i])
    {
      a[lo + k] := 0;
    }
  }

  /** uECC_vli_set */
  method Set(dest: array<Word>, src: array<Word>, n: nat)
    requires n <= dest.Length && n <= src.Length
    modifies dest
    ensures dest[..n] == old(src[..n])
    ensures dest[n..] == old(dest[n..])
  {
    for i := 0 to n
      invariant dest[..i] == old(src[..i])
      invariant forall k :: i <= k < dest.Length ==> dest[k] == old(dest[k])
      invariant forall k :: i <= k < src.Length ==> src[k] == old(src[k])
    {
      dest[i] := src[i];
    }
  }

  /** uECC_vli_isZero: all words are or-ed together. */
  method IsZero(a: array<Word>, n: nat) returns (z: bool)
    requires n <= a.Length
    ensures z <==> Val(a[..n]) == 0
  {
    var bits: nat := 0;
    for i := 0 to n
      invariant bits == 0 <==> forall k :: 0 <= k < i ==> a[k] == 0
    {
      OrZero(bits, a[i]);
      bits := Or(bits, a[i]);
    }
    ValZero(a[..n]);
    z := bits == 0;
  }

  /** uECC_vli_cmp_unsafe: the sign of left - right. */
  method CmpUnsafe(left: array<Word>, right: array<Word>, n: nat) returns (c: int)
    requires n <= left.Length && n <= right.Length
    ensures c == Sign(Val(left[..n]) - Val(right[..n]))
  {
    var i := n;
    while i > 0
      invariant 0 <= i <= n
      invariant left[i..n] == right[i..n]
    {
      i := i - 1;
      ghost var l, r := left[..n], right[..n];
      assert l[i + 1..] == r[i + 1..];
      if left[i] > right[i] {
        ValLess(r, l, i);
        return 1;
      } else if left[i] < right[i] {
        ValLess(l, r, i);
        return -1;
      }
    }
    assert left[..n] == right[..n];
    return 0;
  }

  function Sign(x: int): (s: int) {
    if x > 0 then 1 else if x < 0 then -1 else 0
  }

  // ----- addition and subtraction with the source's carry test --------------------------------

  /** One column of a carry chain, scaled by the weight of the column. */
  lemma Column(x: int, y: int, z: int, c: int, c': int, b: int, w: int)
    requires z + c' * b == x + y + c
    ensures z * w + c' * (b * w) == x * w + y * w + c * w
  {
    calc {
      z * w + c' * (b * w);
      { MulAssoc(c', b, w); MulDist(z, c' * b, w); }
      (x + y + c) * w;
      { MulDist(x + y, c, w); MulDist(x, y, w); }
      x * w + y * w + c * w;
    }
  }

  /** One column of a sum with carries. */
  lemma ColumnStep(x: seq<Word>, y: seq<Word>, z: seq<Word>, i: nat, c: nat, c': nat)
    requires i < |x| && i < |y| && i < |z|
    requires Val(z[..i]) + c * Weight(i) == Val(x[..i]) + Val(y[..i])
    requires z[i] + c' * Base() == x[i] as nat + y[i] + c
    ensures Val(z[..i + 1]) + c' * Weight(i + 1) == Val(x[..i + 1]) + Val(y[..i + 1])
  {
    assert Weight(i + 1) == Base() * Weight(i);
    hide Val, Weight;
    ValSnoc(x, i);
    ValSnoc(y, i);
    ValSnoc(z, i);
    Column(x[i], y[i], z[i], c, c', Base(), Weight(i));
  }

  lemma NoColumns(s: seq<Word>)
    ensures Val(s[..0]) == 0
  {}

  /** uECC_vli_add.  result may be left or right itself. */
  method Add(result: array<Word>, left: array<Word>, right: array<Word>, n: nat) returns (carry: Word)
    requires n <= result.Length && n <= left.Length && n <= right.Length
    modifies result
    ensures carry <= 1
    ensures Val(result[..n]) + carry * Weight(n) == old(Val(left[..n])) + old(Val(right[..n]))
    ensures result[n..] == old(result[n..])
  {
    hide Val, Weight, Pow2;
    carry := 0;
    ghost var l, r := left[..], right[..];
    NoColumns(l);
    NoColumns(r);
    NoColumns(result[..]);
    assert result[..0] == result[..][..0];
    for i := 0 to n
      invariant carry <= 1
      invariant forall k :: i <= k < left.Length ==> left[k] == l[k]
      invariant forall k :: i <= k < right.Length ==> right[k] == r[k]
      invariant forall k :: i <= k < result.Length ==> result[k] == old(result[k])
      invariant Val(result[..i]) + carry * Weight(i) == Val(l[..i]) + Val(r[..i])
    {
      ghost var c := carry;
      var sum := Wrap(left[i] + right[i] + carry);
      ModOnce(left[i] + right[i] + carry, Base());
      if sum != left[i] {
        carry := if sum < left[i] then 1 else 0;
      }
      ghost var before := result[..i];
      result[i] := sum;
      assert result[..][..i] == before && result[..][..i + 1] == result[..i + 1];
      ColumnStep(l, r, result[..], i, c, carry);
    }
    assert l[..n] == old(left[..n]) && r[..n] == old(right[..n]);
  }

  /** uECC_vli_sub.  result may be left or right itself. */
  method Sub(result: array<Word>, left: array<Word>, right: array<Word>, n: nat) returns (borrow: Word)
    requires n <= result.Length && n <= left.Length && n <= right.Length
    modifies result
    ensures borrow <= 1
    ensures Val(result[..n]) == old(Val(left[..n])) - old(Val(right[..n])) + borrow * Weight(n)
    ensures result[n..] == old(result[n..])
  {
    hide Val, Weight, Pow2;
    borrow := 0;
    ghost var l, r := left[..], right[..];
    NoColumns(l);
    NoColumns(r);
    NoColumns(result[..]);
    assert result[..0] == result[..][..0];
    for i := 0 to n
      invariant borrow <= 1
      invariant forall k :: i <= k < left.Length ==> left[k] == l[k]
      invariant forall k :: i <= k < right.Length ==> right[k] == r[k]
      invariant forall k :: i <= k < result.Length ==> result[k] == old(result[k])
      invariant Val(result[..i]) + Val(r[..i]) == Val(l[..i]) + borrow * Weight(i)
    {
      ghost var b := borrow;
      var diff := Wrap(left[i] - right[i] - borrow);
      SubWrap(left[i], right[i], borrow);
      if diff != left[i] {
        borrow := if diff > left[i] then 1 else 0;
      }
      ghost var before := result[..i];
      result[i] := diff;
      assert result[..][..i] == before && result[..][..i + 1] == result[..i + 1];
      ColumnStep(result[..], r, l, i, b, borrow);
    }
    assert l[..n] == old(left[..n]) && r[..n] == old(right[..n]);
  }

  lemma SubWrap(l: Word, r: Word, b: Word)
    requires b <= 1
    ensures Wrap(l - r - b) == if l >= r + b then l - r - b else l - r - b + Base()
  {
    if l >= r + b {
      DivModUnique(l - r - b, Base(), 0, l - r - b);
    } else {
      DivModUnique(l - r - b, Base(), -1, l - r - b + Base());
    }
  }

  /** uECC_vli_cmp: the sign of left - right out of the borrow of a subtraction. */
  method Cmp(left: array<Word>, right: array<Word>, n: nat) returns (c: int)
    requires n <= left.Length && n <= right.Length
    ensures c == Sign(Val(left[..n]) - Val(right[..n]))
  {
    var tmp := new Word[n];
    var borrow := Sub(tmp, left, right, n);
    var equal := IsZero(tmp, n);
    ValBound(left[..n]);
    ValBound(right[..n]);
    ValBound(tmp[..n]);
    c := (if equal then 0 else 1) - 2 * (if borrow != 0 then 1 else 0);
  }

  // ----- shifting right by one -----------------------------------------------------------------

  ghost function LowBit(s: seq<Word>, i: nat): (b: nat) {
    if i < |s| then s[i] % 2 else 0
  }

  /** t is s shifted right by one bit, each word taking the low bit of the next. */
  ghost predicate Shifted(s: seq<Word>, t: seq<Word>) {
    && |s| == |t|
    && forall i :: 0 <= i < |s| ==> t[i] == s[i] / 2 + LowBit(s, i + 1) * HighBit()
  }

  lemma {:induction false} ShiftedPrefix(s: seq<Word>, t: seq<Word>, i: nat)
    requires Shifted(s, t) && i <= |s|
    ensures 2 * Val(t[..i]) + LowBit(s, 0) == Val(s[..i]) + LowBit(s, i) * Weight(i)
  {
    if i > 0 {
      var j := i - 1;
      ShiftedPrefix(s, t, j);
      ValSnoc(s, j);
      ValSnoc(t, j);
      var b := LowBit(s, i);
      assert 2 * t[j] + LowBit(s, j) == s[j] + b * Base() by {
        assert b * Base() == 2 * (b * HighBit()) by { MulAssoc(b, 2, HighBit()); MulAssoc(2, b, HighBit()); }
      }
      ShiftColumn(t[j], LowBit(s, j), s[j], b, Base(), Weight(j));
    }
  }

  lemma ShiftColumn(t: int, lo: int, s: int, b: int, base: int, w: int)
    requires 2 * t + lo == s + b * base
    ensures 2 * (t * w) + lo * w == s * w + b * (base * w)
  {
    MulAssoc(b, base, w);
    MulAssoc(2, t, w);
    MulDist(s, b * base, w);
    MulDist(2 * t, lo, w);
  }

  /** A shifted array stands for half the number. */
  lemma ShiftedVal(s: seq<Word>, t: seq<Word>)
    requires Shifted(s, t)
    ensures Val(t) == Val(s) / 2
    ensures Val(s) % 2 == LowBit(s, 0)
  {
    ShiftedPrefix(s, t, |s|);
    assert s[..|s|] == s && t[..|s|] == t;
    Halves(Val(s), Val(t), LowBit(s, 0));
  }

  lemma Halves(v: nat, h: nat, b: nat)
    requires 2 * h + b == v && b < 2
    ensures h == v / 2 && b == v % 2
  {}

  lemma CarryBit(temp: Word)
    ensures Shl(temp, WORD_BITS - 1) == (temp % 2) * HighBit()
  {
    var h := HighBit();
    var q, r := temp / 2, temp % 2;
    assert temp * h == q * Base() + r * h by {
      assert temp == q * 2 + r;
      MulDist(q * 2, r, h);
      MulAssoc(q, 2, h);
    }
    DivModUnique(temp * h, Base(), q, r * h);
  }

  lemma OrHigh(x: nat, b: nat)
    requires x < HighBit() && b <= 1
    ensures Or(x, b * HighBit()) == x + b * HighBit() < Base()
  {
    OrDisjoint(x, b, WORD_BITS - 1);
  }

  /** uECC_vli_rshift1 on words lo .. lo + n, walking from the most significant word down. */
  method RShift1(a: array<Word>, lo: nat, n: nat)
    requires lo + n <= a.Length
    modifies a
    ensures Shifted(old(a[lo..lo + n]), a[lo..lo + n])
    ensures Val(a[lo..lo + n]) == old(Val(a[lo..lo + n])) / 2
    ensures a[..lo] == old(a[..lo]) && a[lo + n..] == old(a[lo + n..])
  {
    ghost var s := a[lo..lo + n];
    var carry: Word := 0;
    var i := n;
    while i > 0
      invariant 0 <= i <= n
      invariant a[..lo + i] == old(a[..lo + i])
      invariant carry == LowBit(s, i) * HighBit()
      invariant forall k :: i <= k < n ==> a[lo + k] == s[k] / 2 + LowBit(s, k + 1) * HighBit()
      invariant a[lo + n..] == old(a[lo + n..])
    {
      i := i - 1;
      var temp := a[lo + i];
      assert temp == s[i] by { assert a[lo + i] == old(a[lo + i]); }
      OrHigh(temp / 2, LowBit(s, i + 1));
      CarryBit(temp);
      assert Shr(temp, 1) == temp / 2 by { assert Pow2(1) == 2; }
      a[lo + i] := Or(Shr(temp, 1), carry);
      carry := Shl(temp, WORD_BITS - 1);
    }
    assert a[..lo] == old(a[..lo]);
    ShiftedVal(s, a[lo..lo + n]);
  }

  lemma EvenAdd(a: nat, b: nat)
    ensures (a + 2 * b) % 2 == a % 2
  {}

  lemma ValParity(s: seq<Word>)
    requires s != []
    ensures Val(s) % 2 == s[0] % 2
  {
    hide Val, Pow2;
    ValCons(s);
    MulAssoc(2, HighBit(), Val(s[1..]));
    EvenAdd(s[0], HighBit() * Val(s[1..]));
  }
}
