/** Product scanning in micro-ecc (deps/micro-ecc/uECC.c): a three-word accumulator walks the
    columns of the product. */
module VliMul {
  import opened Arith
  import opened Vli

  // ----- the three-word accumulator ------------------------------------------------------------

  function Square(): (r: nat)
    ensures r >= 16
  {
    MulMono(4, Base(), 4);
    MulMono(4, Base(), Base());
    Base() * Base()
  }

  function Cube(): (r: nat)
    ensures r > 0
  {
    MulMono(1, Base(), Square());
    Base() * Square()
  }

  /** The number held in the words r0, r1, r2. */
  function Acc(r0: Word, r1: Word, r2: Word): (v: nat) {
    r0 + Base() * r1 + Square() * r2
  }

  lemma TwoWords(r0: Word, r1: Word)
    ensures 0 <= r0 + Base() * r1 < Square()
    ensures (r0 + Base() * r1) / Base() == r1
    ensures (r0 + Base() * r1) % Base() == r0
  {
    var x: nat := r1;
    MulMono(x + 1, Base(), Base());
    MulDist(x, 1, Base());
    DivModUnique(r0 + Base() * r1, Base(), r1, r0);
  }

  lemma TwoWordsOf(d: nat)
    requires d < Square()
    ensures 0 <= d / Base() < Base() && 0 <= d % Base() < Base()
    ensures d == d % Base() + Base() * (d / Base())
  {
    var q := d / Base();
    if q >= Base() { MulMono(Base(), q, Base()); }
  }

  lemma AccBound(r0: Word, r1: Word, r2: Word)
    ensures Acc(r0, r1, r2) < Cube()
  {
    TwoWords(r0, r1);
    var x: nat := r2;
    MulMono(x + 1, Base(), Square());
    MulDist(x, 1, Square());
  }

  /** Adding d below Square() to the lower two words, with the carry going into the third. */
  lemma AccAdd(r0: Word, r1: Word, r2: Word, d: nat, s0: Word, s1: Word, s2: Word, c: nat)
    requires d <= Square() && c <= 1
    requires s0 + Base() * s1 + c * Square() == r0 + Base() * r1 + d
    requires s2 == Wrap(r2 + c)
    ensures Acc(s0, s1, s2) == (Acc(r0, r1, r2) + d) % Cube()
  {
    AccBound(s0, s1, s2);
    ModOnce(r2 + c, Base());
    var k := if r2 + c < Base() then 0 else 1;
    assert r2 + c == s2 + k * Base();
    assert Square() * (r2 + c) == Square() * s2 + k * Cube() by {
      MulDist(s2, k * Base(), Square());
      MulAssoc(k, Base(), Square());
    }
    MulDist(r2, c, Square());
    DivModUnique(Acc(r0, r1, r2) + d, Cube(), k, Acc(s0, s1, s2));
  }

  lemma ProductBound(a: Word, b: Word)
    ensures 0 <= a * b <= (Base() - 1) * (Base() - 1)
    ensures (Base() - 1) * (Base() - 1) == Square() - 2 * Base() + 1
  {
    MulMono(a, Base() - 1, b);
    MulMono(b, Base() - 1, Base() - 1);
    MulDist(Base(), 1, Base() - 1);
    MulDist(Base(), 1, Base());
  }

  /** (dword)hi << uECC_WORD_BITS | lo */
  method JoinWords(hi: Word, lo: Word) returns (d: nat)
    ensures d == lo + Base() * hi
  {
    assert Base() == Pow2(WORD_BITS);
    OrDisjoint(lo, hi, WORD_BITS);
    d := Or(hi * Base(), lo);
  }

  method SplitWords(d: nat) returns (hi: Word, lo: Word)
    requires d < Square()
    ensures d == lo + Base() * hi
  {
    TwoWordsOf(d);
    hi, lo := d / Base(), d % Base();
  }

  /** Addition that wraps at m; the carry is read off the comparison of the sum with p. */
  method DwordAdd(x: nat, p: nat, m: nat) returns (sum: nat, carry: nat)
    requires x < m && p < m
    ensures sum < m && carry <= 1
    ensures sum + carry * m == x + p
  {
    ModOnce(x + p, m);
    sum := (x + p) % m;
    carry := if sum < p then 1 else 0;
  }

  /** The tail shared by muladd and mul2add with a double-word type: r1:r0 += p, carry into r2. */
  method AddDword(p: nat, r0: Word, r1: Word, r2: Word) returns (s0: Word, s1: Word, s2: Word)
    requires p < Square()
    ensures Acc(s0, s1, s2) == (Acc(r0, r1, r2) + p) % Cube()
  {
    TwoWords(r0, r1);
    var r01 := JoinWords(r1, r0);
    var sum, c := DwordAdd(r01, p, Square());
    s1, s0 := SplitWords(sum);
    s2 := Wrap(r2 + c);
    AccAdd(r0, r1, r2, p, s0, s1, s2, c);
  }

  /** muladd with a double-word product (uECC.c, the branch with uECC_dword_t). */
  method MulAdd(a: Word, b: Word, r0: Word, r1: Word, r2: Word) returns (s0: Word, s1: Word, s2: Word)
    ensures Acc(s0, s1, s2) == (Acc(r0, r1, r2) + a * b) % Cube()
  {
    ProductBound(a, b);
    s0, s1, s2 := AddDword(a * b, r0, r1, r2);
  }

  /** Doubling a double-word: the top bit leaves, the rest stays. */
  lemma DwordDouble(p: nat, half: nat)
    requires p < 2 * half
    ensures 0 <= p / half <= 1
    ensures (2 * p) % (2 * half) + (p / half) * (2 * half) == 2 * p
  {
    ModOnce(p, half);
    ModOnce(2 * p, 2 * half);
  }

  /** mul2add with a double-word product: the doubled product's top bit goes straight to r2. */
  method Mul2Add(a: Word, b: Word, r0: Word, r1: Word, r2: Word) returns (s0: Word, s1: Word, s2: Word)
    ensures Acc(s0, s1, s2) == (Acc(r0, r1, r2) + 2 * (a * b)) % Cube()
  {
    ProductBound(a, b);
    s0, s1, s2 := AddDwordTwice(a * b, r0, r1, r2);
  }

  method AddDwordTwice(p: nat, r0: Word, r1: Word, r2: Word) returns (s0: Word, s1: Word, s2: Word)
    requires p < Square()
    ensures Acc(s0, s1, s2) == (Acc(r0, r1, r2) + 2 * p) % Cube()
  {
    var half := HighBit() * Base();
    assert Square() == 2 * half by { MulAssoc(2, HighBit(), Base()); }
    DwordDouble(p, half);
    var top := p / half;
    var d := (2 * p) % Square();
    var mid := Wrap(r2 + top);
    s0, s1, s2 := AddDword(d, r0, r1, mid);
    AccAddTop(r0, r1, r2, top, mid);
    hide Acc;
    ModAddTwice(Acc(r0, r1, r2), top * Square(), d, Cube(), Acc(r0, r1, mid), Acc(s0, s1, s2), 2 * p);
  }

  lemma AccAddTop(r0: Word, r1: Word, r2: Word, top: nat, mid: Word)
    requires top <= 1 && mid == Wrap(r2 + top)
    ensures Acc(r0, r1, mid) == (Acc(r0, r1, r2) + top * Square()) % Cube()
  {
    AccBound(r0, r1, mid);
    ModOnce(r2 + top, Base());
    var k := if r2 + top < Base() then 0 else 1;
    assert r2 + top == mid + k * Base();
    MulDist(r2, top, Square());
    MulDist(mid, k * Base(), Square());
    MulAssoc(k, Base(), Square());
    DivModUnique(Acc(r0, r1, r2) + top * Square(), Cube(), k, Acc(r0, r1, mid));
  }

  lemma ModAddTwice(x: int, d: int, e: int, m: int, y: int, z: int, sum: int)
    requires m > 0 && y == (x + d) % m && z == (y + e) % m && d + e == sum
    ensures z == (x + sum) % m
  {
    var q, q' := (x + d) / m, (y + e) / m;
    DivMod(x + d, m);
    DivMod(y + e, m);
    MulDist(q, q', m);
    DivModUnique(x + sum, m, q + q', z);
  }

  // ----- the half-word variants ------------------------------------------------------------------

  function HalfBase(): (h: nat)
    requires WORD_BITS % 2 == 0
    ensures h >= 2 && h * h == Base()
  {
    Pow2Add(WORD_BITS / 2, WORD_BITS / 2);
    Pow2(WORD_BITS / 2)
  }

  lemma HalfParts(a: Word)
    requires WORD_BITS % 2 == 0
    ensures 0 <= a % HalfBase() < HalfBase() && 0 <= a / HalfBase() < HalfBase()
    ensures a == a % HalfBase() + HalfBase() * (a / HalfBase())
  {
    DivMod(a, HalfBase());
    DivBound(a, HalfBase(), HalfBase());
  }

  /** The four partial products add up to the full product. */
  lemma PartialProducts(h: nat, a0: nat, a1: nat, b0: nat, b1: nat)
    ensures (a0 + h * a1) * (b0 + h * b1) == a0 * b0 + h * (a0 * b1 + a1 * b0) + h * h * (a1 * b1)
  {
    var y := h * b1;
    calc {
      (a0 + h * a1) * (b0 + y);
      { MulDist(a0, h * a1, b0 + y); }
      a0 * (b0 + y) + h * a1 * (b0 + y);
      { MulDist(b0, y, a0); MulDist(b0, y, h * a1); }
      a0 * b0 + a0 * y + (h * a1 * b0 + h * a1 * y);
      { MulAssoc(a0, h, b1); MulAssoc(h, a0, b1); MulAssoc(h, a1, b0); MulDist(a0 * b1, a1 * b0, h); }
      a0 * b0 + h * (a0 * b1 + a1 * b0) + h * a1 * y;
      { MulAssoc(h * a1, h, b1); MulAssoc(h, a1, h); MulAssoc(h, h, a1); MulAssoc(h * h, a1, b1); }
      a0 * b0 + h * (a0 * b1 + a1 * b0) + h * h * (a1 * b1);
    }
  }

  lemma HalfProductBound(h: nat, x: nat, y: nat)
    requires x < h && y < h
    ensures 0 <= x * y <= (h - 1) * (h - 1)
    ensures (h - 1) * (h - 1) == h * h - 2 * h + 1
  {
    MulMono(x, h - 1, y);
    MulMono(y, h - 1, h - 1);
    MulDist(h, 1, h - 1);
    MulDist(h, 1, h);
  }

  /** The double-word product p1:p0 out of half-word products (uECC.c, the branch without a
      128-bit type): p0 and p1 are the words of a * b. */
  method SplitProduct(a: Word, b: Word) returns (p0: Word, p1: Word)
    requires WORD_BITS % 2 == 0
    ensures p0 + Base() * p1 == a * b
  {
    var h := HalfBase();
    HalfParts(a);
    HalfParts(b);
    var a0, a1, b0, b1 := a % h, a / h, b % h, b / h;
    HalfProductBound(h, a0, b0);
    HalfProductBound(h, a0, b1);
    HalfProductBound(h, a1, b0);
    HalfProductBound(h, a1, b1);
    PartialProducts(h, a0, a1, b0, b1);
    ProductBound(a, b);
    p0, p1 := Recombine(a0 * b0, a0 * b1, a1 * b0, a1 * b1, a * b);
  }

  /** The sum of the four half-word products, with the carry out of the middle column. */
  method Recombine(i0: Word, i1: Word, i2in: Word, i3in: Word, ghost product: nat) returns (p0: Word, p1: Word)
    requires WORD_BITS % 2 == 0
    requires var h := HalfBase(); var top := Base() - 2 * h + 1; i0 <= top && i1 <= top && i2in <= top && i3in <= top
    requires product == i0 + HalfBase() * (i1 + i2in) + Base() * i3in && product < Square()
    ensures p0 + Base() * p1 == product
  {
    hide HalfBase, Pow2, Square;
    var h := HalfBase();
    HalfParts(i0);
    var i2, i3 := MiddleColumn(i0 / h, i1, i2in, i3in);
    p0 := JoinHalves(i0, i2);
    HalfParts(i2);
    SplitSum(h, i0, i0 / h + i1 + i2in, i2, i3in, i3);
    MulDist(i1 + i2in, i0 / h, h);
    HighWordFits(p0, i3 + i2 / h);
    p1 := Wrap(i3 + i2 / h);
    ModOnce(i3 + i2 / h, Base());
  }

  /** The middle column: its carry is moved to the high product. */
  method MiddleColumn(x: Word, i1: Word, i2in: Word, i3in: Word) returns (i2: Word, i3: Word)
    requires WORD_BITS % 2 == 0 && x < HalfBase()
    requires var top := Base() - 2 * HalfBase() + 1; i1 <= top && i2in <= top && i3in <= top
    ensures exists c: nat :: x + i1 + i2in == i2 + c * Base() && i3 == i3in + c * HalfBase()
  {
    hide HalfBase, Pow2;
    var c;
    i2, c := DwordAdd(x, i2in, Base());
    assert c == 0;
    i2, c := DwordAdd(i2, i1, Base());
    i3 := i3in;
    if c == 1 {
      ModOnce(i3 + HalfBase(), Base());
      i3 := Wrap(i3 + HalfBase());
    }
    assert i3 == i3in + c * HalfBase();
  }

  lemma HighWordFits(lo: nat, hi: nat)
    requires lo + Base() * hi < Square()
    ensures hi < Base()
  {
    if hi >= Base() { MulMono(Base(), hi, Base()); }
  }

  /** (lo & mask) | (hi << half) */
  method JoinHalves(lo: Word, hi: Word) returns (p0: Word)
    requires WORD_BITS % 2 == 0
    ensures p0 == lo % HalfBase() + (hi % HalfBase()) * HalfBase()
  {
    var h := HalfBase();
    HalfParts(lo);
    ShlHalf(hi);
    OrDisjoint(lo % h, hi % h, WORD_BITS / 2);
    p0 := Or(lo % h, Shl(hi, WORD_BITS / 2));
  }

  lemma ShlHalf(x: Word)
    requires WORD_BITS % 2 == 0
    ensures Shl(x, WORD_BITS / 2) == (x % HalfBase()) * HalfBase() <= Base() - HalfBase()
  {
    hide Base;
    HalfParts(x);
    HalfShifted(x, HalfBase(), x % HalfBase(), x / HalfBase());
  }

  lemma HalfShifted(x: nat, h: nat, low: nat, high: nat)
    requires x == low + h * high && low < h
    ensures (x * h) % (h * h) == low * h <= h * h - h
  {
    MulDist(low, h * high, h);
    MulAssoc(high, h, h);
    MulMono(low, h - 1, h);
    MulDist(h, 1, h);
    DivModUnique(x * h, h * h, high, low * h);
  }

  /** Reassembling the words. */
  lemma SplitSum(h: nat, i0: nat, exact: nat, i2: nat, hi: nat, i3: nat)
    requires h >= 1 && exists c: nat :: exact == i2 + c * (h * h) && i3 == hi + c * h
    ensures i0 % h + (i2 % h) * h + (h * h) * (i3 + i2 / h) == i0 % h + h * exact + (h * h) * hi
  {
    var c: nat :| exact == i2 + c * (h * h) && i3 == hi + c * h;
    var q, r := i2 / h, i2 % h;
    calc {
      r * h + (h * h) * (i3 + q);
      { MulDist(i3, q, h * h); MulAssoc(h, h, q); MulDist(r, h * q, h); }
      h * i2 + (h * h) * i3;
      { MulDist(hi, c * h, h * h); MulAssoc(h, h, c * h); MulAssoc(h, c, h); MulAssoc(c, h, h); }
      h * i2 + (h * h) * hi + h * (c * (h * h));
      { MulDist(i2, c * (h * h), h); }
      h * exact + (h * h) * hi;
    }
  }

  /** The tail of both half-word variants: the carries out of each word are recovered by
      comparing the sums with the addends, also when p1 + carry wraps. */
  method AddTwoWords(p0: Word, p1: Word, r0: Word, r1: Word, r2: Word) returns (s0: Word, s1: Word, s2: Word)
    ensures Acc(s0, s1, s2) == (Acc(r0, r1, r2) + p0 + Base() * p1) % Cube()
  {
    ModOnce(r0 + p0, Base());
    s0 := Wrap(r0 + p0);
    var c := if s0 < p0 then 1 else 0;
    ModOnce(p1 + c, Base());
    ModOnce(r1 + Wrap(p1 + c), Base());
    s1 := Wrap(r1 + Wrap(p1 + c));
    var d := if s1 < p1 || (s1 == p1 && s0 < p0) then 1 else 0;
    s2 := Wrap(r2 + d);
    TwoWords(p0, p1);
    assert r0 + p0 == s0 + c * Base();
    assert r1 + p1 + c == s1 + d * Base();
    assert s0 + Base() * s1 + d * Square() == r0 + Base() * r1 + (p0 + Base() * p1) by {
      MulDist(r1 + p1, c, Base());
      MulDist(r1, p1, Base());
      MulDist(s1, d * Base(), Base());
      MulAssoc(d, Base(), Base());
    }
    AccAdd(r0, r1, r2, p0 + Base() * p1, s0, s1, s2, d);
  }

  /** muladd without a double-word type: two-word carries recovered by comparisons. */
  method MulAddSplit(a: Word, b: Word, r0: Word, r1: Word, r2: Word) returns (s0: Word, s1: Word, s2: Word)
    requires WORD_BITS % 2 == 0
    ensures Acc(s0, s1, s2) == (Acc(r0, r1, r2) + a * b) % Cube()
  {
    var p0, p1 := SplitProduct(a, b);
    s0, s1, s2 := AddTwoWords(p0, p1, r0, r1, r2);
  }

  /** mul2add without a double-word type. */
  method Mul2AddSplit(a: Word, b: Word, r0: Word, r1: Word, r2: Word) returns (s0: Word, s1: Word, s2: Word)
    requires WORD_BITS % 2 == 0
    ensures Acc(s0, s1, s2) == (Acc(r0, r1, r2) + 2 * (a * b)) % Cube()
  {
    hide *;
    ghost var ab: nat := a * b;
    var q0, q1 := SplitProduct(a, b);
    var p0, p1, top := DoubleWords(q0, q1);
    var mid := Wrap(r2 + top);
    s0, s1, s2 := AddTwoWords(p0, p1, r0, r1, mid);
    AccAddTop(r0, r1, r2, top, mid);
    ModAddTwice(Acc(r0, r1, r2), top * Square(), p0 + Base() * p1, Cube(), Acc(r0, r1, mid), Acc(s0, s1, s2), 2 * ab);
  }

  /** The double word shifted left by one; top is the bit that falls out. */
  method DoubleWords(q0: Word, q1: Word) returns (p0: Word, p1: Word, top: Word)
    ensures top <= 1 && p0 + Base() * p1 + top * Square() == 2 * (q0 + Base() * q1)
  {
    hide Or, Shl, Shr;
    assert Pow2(1) == 2;
    hide Pow2;
    ShiftOut(q0);
    ShiftOut(q1);
    top := Shr(q1, WORD_BITS - 1);
    var c0 := Shr(q0, WORD_BITS - 1);
    ghost var low := q1 - top * HighBit();
    OrDisjoint(c0, low, 1);
    p1 := Or(Shl(q1, 1), c0);
    p0 := Shl(q0, 1);
    DoubledWords(q0, q1, p0, p1, top, c0, low);
  }

  lemma ShiftOut(x: Word)
    ensures Shr(x, WORD_BITS - 1) <= 1
    ensures Shl(x, 1) + Base() * Shr(x, WORD_BITS - 1) == 2 * x
    ensures Shl(x, 1) == 2 * (x - Shr(x, WORD_BITS - 1) * HighBit())
    ensures 0 <= x - Shr(x, WORD_BITS - 1) * HighBit() < HighBit()
  {
    assert Pow2(1) == 2;
    ModOnce(x, HighBit());
    ModOnce(2 * x, Base());
  }

  lemma DoubledWords(q0: nat, q1: nat, p0: nat, p1: nat, top: nat, c0: nat, r1: nat)
    requires 2 * q0 == p0 + Base() * c0 && 2 * q1 == 2 * r1 + Base() * top && p1 == 2 * r1 + c0
    ensures p0 + Base() * p1 + top * Square() == 2 * (q0 + Base() * q1)
  {
    calc {
      2 * (q0 + Base() * q1);
      { MulAssoc(2, Base(), q1); MulAssoc(Base(), 2, q1); }
      p0 + Base() * c0 + Base() * (2 * r1 + Base() * top);
      { MulDist(2 * r1, Base() * top, Base()); MulDist(2 * r1, c0, Base()); MulAssoc(Base(), Base(), top); }
      p0 + Base() * p1 + Base() * Base() * top;
    }
  }

  // ----- columns of a product ----------------------------------------------------------------------

  ghost function At(r: seq<Word>, i: int): (w: Word) {
    if 0 <= i < |r| then r[i] else 0
  }

  /** The first i terms of column k of the product of l and r. */
  ghost function ColTo(l: seq<Word>, r: seq<Word>, k: nat, i: nat): (v: nat)
    requires i <= |l|
  {
    if i == 0 then 0 else ColTo(l, r, k, i - 1) + l[i - 1] * At(r, k - (i - 1))
  }

  ghost function Col(l: seq<Word>, r: seq<Word>, k: nat): (v: nat) {
    ColTo(l, r, k, |l|)
  }

  lemma ColStep(l: seq<Word>, r: seq<Word>, k: nat, i: nat)
    requires i < |l| && i <= k < i + |r|
    ensures ColTo(l, r, k, i + 1) == ColTo(l, r, k, i) + l[i] as nat * r[k - i]
  {}

  /** The first k columns, each at its weight. */
  ghost function Columns(l: seq<Word>, r: seq<Word>, k: nat): (v: nat) {
    if k == 0 then 0 else Columns(l, r, k - 1) + Col(l, r, k - 1) * Weight(k - 1)
  }

  /** Terms outside the range max(0, k + 1 - |r|) .. min(|l|, k + 1) contribute nothing. */
  lemma {:induction false} ColEdges(l: seq<Word>, r: seq<Word>, k: nat, i: nat)
    requires i <= |l|
    ensures i == 0 || i + |r| <= k + 1 ==> ColTo(l, r, k, i) == 0
    ensures i > k || i == |l| ==> ColTo(l, r, k, i) == Col(l, r, k)
    decreases |l| - i
  {
    if i < |l| { ColEdges(l, r, k, i + 1); }
    ColLow(l, r, k, i);
  }

  lemma {:induction false} ColLow(l: seq<Word>, r: seq<Word>, k: nat, i: nat)
    requires i <= |l|
    ensures i + |r| <= k + 1 ==> ColTo(l, r, k, i) == 0
  {
    if i > 0 { ColLow(l, r, k, i - 1); }
  }

  lemma {:induction false} ColToPrefix(l: seq<Word>, m: seq<Word>, r: seq<Word>, k: nat, i: nat)
    requires i <= |l| <= |m| && l == m[..|l|]
    ensures ColTo(l, r, k, i) == ColTo(m, r, k, i)
  {
    if i > 0 { ColToPrefix(l, m, r, k, i - 1); }
  }

  /** r placed n words up, cut at word k. */
  ghost function Raised(r: seq<Word>, n: nat, k: nat): (v: nat) {
    if k == 0 then 0 else Raised(r, n, k - 1) + At(r, k - 1 - n) * Weight(k - 1)
  }

  lemma {:induction false} RaisedVal(r: seq<Word>, n: nat, k: nat)
    ensures Raised(r, n, k) == Weight(n) * Val(r[..if k < n then 0 else if k - n < |r| then k - n else |r|])
  {
    if k > 0 {
      RaisedVal(r, n, k - 1);
      var i := k - 1 - n;
      if 0 <= i < |r| {
        ValSnoc(r, i);
        WeightAdd(n, i);
        MulAssoc(r[i], Weight(n), Weight(i));
        MulAssoc(Weight(n), r[i], Weight(i));
        MulDist(Val(r[..i]), r[i] * Weight(i), Weight(n));
      }
    }
  }

  lemma {:induction false} ColumnsSnoc(l: seq<Word>, r: seq<Word>, k: nat)
    requires l != []
    ensures var n := |l| - 1; Columns(l, r, k) == Columns(l[..n], r, k) + l[n] * Raised(r, n, k)
  {
    var n := |l| - 1;
    if k > 0 {
      ColumnsSnoc(l, r, k - 1);
      var j := k - 1;
      ColToPrefix(l[..n], l, r, j, n);
      SnocColumn(Columns(l, r, j), Columns(l[..n], r, j), l[n], Raised(r, n, j),
                 Col(l[..n], r, j), At(r, j - n), Weight(j));
    }
  }

  lemma SnocColumn(total: nat, prev: nat, x: nat, raised: nat, col: nat, a: nat, w: nat)
    requires total == prev + x * raised
    ensures total + (col + x * a) * w == prev + col * w + x * (raised + a * w)
  {
    MulDist(col, x * a, w);
    MulAssoc(x, a, w);
    MulDist(raised, a * w, x);
  }

  /** Summed at their weights, the columns are the product. */
  lemma {:induction false} ColumnsProduct(l: seq<Word>, r: seq<Word>, k: nat)
    requires k + 1 >= |l| + |r|
    ensures Columns(l, r, k) == Val(l) * Val(r)
  {
    if l == [] {
      NoColumns(r, k);
    } else {
      var n := |l| - 1;
      ColumnsProduct(l[..n], r, k);
      ColumnsSnoc(l, r, k);
      RaisedVal(r, n, k);
      assert r[..|r|] == r;
      MulAssoc(l[n], Weight(n), Val(r));
      MulDist(Val(l[..n]), l[n] * Weight(n), Val(r));
    }
  }

  lemma {:induction false} NoColumns(r: seq<Word>, k: nat)
    ensures Columns([], r, k) == 0
  {
    if k > 0 { NoColumns(r, k - 1); }
  }

  // ----- the accumulator never overflows --------------------------------------------------------------

  /** The largest word. */
  function Top(): (t: nat) {
    Base() - 1
  }

  /** What the accumulator may hold after c products of a column of at most n. */
  ghost predicate Fits(n: nat, c: nat, v: nat) {
    v <= n * Top() + c * (Top() * Top())
  }

  lemma FitsStep(n: nat, c: nat, v: nat, a: Word, b: Word)
    requires n <= Base() && c < n && Fits(n, c, v)
    ensures Fits(n, c + 1, v + a * b)
    ensures v + a * b < Cube()
  {
    ProductBound(a, b);
    var t := Top();
    MulDist(c, 1, t * t);
    MulMono(c + 1, n, t * t);
    FitsColumn(n, v + a * b);
  }

  /** A full column stays below n * Top() * Base(), hence below Base()^3. */
  lemma FitsColumn(n: nat, v: nat)
    requires n <= Base() && Fits(n, n, v)
    ensures v <= n * Top() * Base()
    ensures v < Cube()
  {
    hide Base;
    ColumnBound(n, Top(), Base());
  }

  lemma ColumnBound(n: nat, t: nat, b: nat)
    requires n <= b == t + 1
    ensures n * t + n * (t * t) == n * t * b < b * (b * b)
  {
    assert n * t + n * (t * t) == n * t * b by {
      MulAssoc(n, t, t);
      MulDist(t, 1, n * t);
    }
    MulAssoc(n, t, b);
    MulMono(n, b, t * b);
    MulDist(b, 1, b);
    MulMono(t * b + 1, b * b, b);
    MulDist(t * b, 1, b);
  }

  /** What is carried into the next column fits again. */
  lemma FitsCarry(n: nat, v: nat, low: nat, next: nat)
    requires n <= Base() && Fits(n, n, v) && v == low + Base() * next
    ensures Fits(n, 0, next)
  {
    FitsColumn(n, v);
    var m := n * Top();
    if next > m { MulMono(m + 1, next, Base()); MulDist(m, 1, Base()); }
  }

  lemma FitsMore(n: nat, c: nat, d: nat, v: nat)
    requires Fits(n, c, v) && c <= d
    ensures Fits(n, d, v)
  {
    MulMono(c, d, Top() * Top());
  }

  /** muladd where the sum stays below Base()^3. */
  method MulAddFits(a: Word, b: Word, r0: Word, r1: Word, r2: Word, ghost v: nat, ghost n: nat, ghost c: nat)
    returns (s0: Word, s1: Word, s2: Word)
    requires v == Acc(r0, r1, r2) && n <= Base() && c < n && Fits(n, c, v)
    ensures Acc(s0, s1, s2) == v + a * b
    ensures Fits(n, c + 1, v + a * b)
  {
    hide *;
    FitsStep(n, c, v, a, b);
    DivModUnique(v + a * b, Cube(), 0, v + a * b);
    s0, s1, s2 := MulAdd(a, b, r0, r1, r2);
  }

  /** mul2add where the sum stays below Base()^3. */
  method Mul2AddFits(a: Word, b: Word, r0: Word, r1: Word, r2: Word, ghost v: nat, ghost n: nat, ghost c: nat)
    returns (s0: Word, s1: Word, s2: Word)
    requires v == Acc(r0, r1, r2) && n <= Base() && c + 1 < n && Fits(n, c, v)
    ensures Acc(s0, s1, s2) == v + 2 * (a * b)
    ensures Fits(n, c + 2, v + 2 * (a * b))
  {
    hide *;
    ghost var ab: nat := a * b;
    FitsStep(n, c, v, a, b);
    FitsStep(n, c + 1, v + ab, a, b);
    ghost var sum: nat := v + 2 * ab;
    assert sum == v + ab + ab;
    DivModUnique(sum, Cube(), 0, sum);
    s0, s1, s2 := Mul2Add(a, b, r0, r1, r2);
  }

  // ----- uECC_vli_mult ---------------------------------------------------------------------------------

  /** The inner loop of uECC_vli_mult: terms lo .. hi of column k. */
  method MulColumn(left: array<Word>, right: array<Word>, n: nat, k: nat, lo: nat, hi: nat, r0: Word, r1: Word,
                   r2: Word)
    returns (s0: Word, s1: Word, s2: Word)
    requires n <= left.Length && n <= right.Length && n <= Base()
    requires lo <= hi <= n && hi <= k + 1 && k < lo + n
    requires Fits(n, 0, Acc(r0, r1, r2))
    ensures Acc(s0, s1, s2) == Acc(r0, r1, r2)
                               + ColTo(left[..n], right[..n], k, hi) - ColTo(left[..n], right[..n], k, lo)
    ensures Fits(n, n, Acc(s0, s1, s2))
  {
    hide *;
    s0, s1, s2 := r0, r1, r2;
    ghost var l, r := left[..n], right[..n];
    ghost var v: nat := Acc(r0, r1, r2);
    for i := lo to hi
      invariant v == Acc(s0, s1, s2)
      invariant v == Acc(r0, r1, r2) + ColTo(l, r, k, i) - ColTo(l, r, k, lo)
      invariant Fits(n, i - lo, v)
    {
      ColStep(l, r, k, i);
      var a: nat, b: nat := left[i], right[k - i];
      assert a == l[i] && b == r[k - i];
      s0, s1, s2 := MulAddFits(a, b, s0, s1, s2, v, n, i - lo);
      v := v + a * b;
    }
    FitsMore(n, hi - lo, n, v);
  }

  /** Emitting a column: the low word is stored, the accumulator moves down one word. */
  lemma ColumnDone(done: nat, acc: nat, col: nat, r0: nat, next: nat, w: nat, total: nat)
    requires done + acc * w == total
    requires acc + col == r0 + Base() * next
    ensures done + r0 * w + next * (Base() * w) == total + col * w
  {
    MulDist(acc, col, w);
    MulDist(r0, Base() * next, w);
    MulAssoc(next, Base(), w);
    assert Base() * next == next * Base();
  }

  /** What the outer loops keep: the words stored so far plus the accumulator at its weight are
      the columns summed so far. */
  ghost predicate Scanned(stored: seq<Word>, acc: nat, l: seq<Word>, r: seq<Word>, n: nat) {
    && Val(stored) + acc * Weight(|stored|) == Columns(l, r, |stored|)
    && Fits(n, 0, acc)
  }

  lemma ScannedInit(l: seq<Word>, r: seq<Word>, n: nat)
    ensures Scanned([], Acc(0, 0, 0), l, r, n)
  {
    hide Acc, Fits, Val, Columns, Weight;
    AccZero();
    FitsZero(n);
    EmptyColumns(l, r);
  }

  lemma AccZero()
    ensures Acc(0, 0, 0) == 0
  {}

  lemma FitsZero(n: nat)
    ensures Fits(n, 0, 0)
  {
    MulMono(0, n, Top());
  }

  lemma EmptyColumns(l: seq<Word>, r: seq<Word>)
    ensures Columns(l, r, 0) == 0 && Val([]) == 0
  {}

  lemma ScannedStep(stored: seq<Word>, acc: nat, l: seq<Word>, r: seq<Word>, n: nat, r0: Word, r1: Word, r2: Word)
    requires n <= Base() && Scanned(stored, acc, l, r, n)
    requires Acc(r0, r1, r2) == acc + Col(l, r, |stored|) && Fits(n, n, Acc(r0, r1, r2))
    ensures Scanned(stored + [r0], Acc(r1, r2, 0), l, r, n)
  {
    var k := |stored|;
    var next := Acc(r1, r2, 0);
    assert Acc(r0, r1, r2) == r0 + Base() * next by {
      MulDist(r1, Base() * r2, Base());
      MulAssoc(Base(), Base(), r2);
    }
    FitsCarry(n, Acc(r0, r1, r2), r0, next);
    ColumnDone(Val(stored), acc, Col(l, r, k), r0, next, Weight(k), Columns(l, r, k));
    assert (stored + [r0])[..k] == stored;
  }

  lemma ProductFits(l: seq<Word>, r: seq<Word>)
    requires |l| == |r|
    ensures Val(l) * Val(r) < Weight(2 * |l|)
  {
    var n := |l|;
    ValBound(l);
    ValBound(r);
    WeightAdd(n, n);
    MulMono(Val(l), Weight(n), Val(r));
    MulMono(Val(r), Weight(n) - 1, Weight(n));
    MulDist(Weight(n), 1, Weight(n));
  }

  lemma AccLow(r0: Word, r1: Word, r2: Word)
    requires Acc(r0, r1, r2) < Base()
    ensures Acc(r0, r1, r2) == r0
  {
    if r1 >= 1 { MulMono(1, r1, Base()); }
    if r2 >= 1 { MulMono(1, r2, Square()); }
  }

  /** The last word: nothing is left above it. */
  lemma ScannedLast(stored: seq<Word>, l: seq<Word>, r: seq<Word>, n: nat, r0: Word, r1: Word, r2: Word)
    requires |l| == |r| == n >= 1 && |stored| == 2 * n - 1
    requires Scanned(stored, Acc(r0, r1, r2), l, r, n)
    ensures Val(stored + [r0]) == Val(l) * Val(r)
  {
    var k := |stored|;
    ColumnsProduct(l, r, k);
    ProductFits(l, r);
    LastWord(Acc(r0, r1, r2), k);
    AccLow(r0, r1, r2);
    assert (stored + [r0])[..k] == stored;
  }

  lemma LastWord(acc: nat, k: nat)
    requires acc * Weight(k) < Weight(k + 1)
    ensures acc < Base()
  {
    if acc >= Base() { MulMono(Base(), acc, Weight(k)); }
  }

  /** One column: its products are accumulated, the lowest word is stored, and the others move down. */
  method StoreColumn(result: array<Word>, left: array<Word>, right: array<Word>, n: nat, k: nat, lo: nat, hi: nat,
                    r0: Word, r1: Word, r2: Word)
    returns (s0: Word, s1: Word, s2: Word)
    requires n <= Base() && k < result.Length && n <= left.Length && n <= right.Length
    requires result != left && result != right && k < 2 * n - 1
    requires lo == (if k < n then 0 else k + 1 - n) && hi == (if k < n then k + 1 else n)
    requires Scanned(result[..k], Acc(r0, r1, r2), left[..n], right[..n], n) && r2 == 0
    modifies result
    ensures result[k + 1..] == old(result[k + 1..])
    ensures Scanned(result[..k + 1], Acc(s0, s1, s2), left[..n], right[..n], n) && s2 == 0
  {
    hide Acc, Fits, Val, Columns, Weight, Base;
    ghost var l, r, stored, acc := left[..n], right[..n], result[..k], Acc(r0, r1, r2);
    ColEdges(l, r, k, lo);
    ColEdges(l, r, k, hi);
    s0, s1, s2 := MulColumn(left, right, n, k, lo, hi, r0, r1, r2);
    ScannedStep(stored, acc, l, r, n, s0, s1, s2);
    result[k] := s0;
    assert result[..k + 1] == stored + [s0] && left[..n] == l && right[..n] == r;
    s0, s1, s2 := s1, s2, 0;
  }

  /** uECC_vli_mult.  wordcount_t is an int8_t, so n is below the 256 of the narrowest base. */
  method Mult(result: array<Word>, left: array<Word>, right: array<Word>, n: nat)
    requires 1 <= n <= Base() && 2 * n <= result.Length && n <= left.Length && n <= right.Length
    requires result != left && result != right
    modifies result
    ensures Val(result[..2 * n]) == Val(left[..n]) * Val(right[..n])
    ensures result[2 * n..] == old(result[2 * n..])
  {
    hide *;
    var r0: Word, r1: Word, r2: Word := 0, 0, 0;
    ghost var l, r := left[..n], right[..n];
    ScannedInit(l, r, n);
    assert result[..0] == [];
    for k := 0 to n
      invariant left[..n] == l && right[..n] == r
      invariant result[k..] == old(result[k..])
      invariant Scanned(result[..k], Acc(r0, r1, r2), l, r, n) && r2 == 0
    {
      r0, r1, r2 := StoreColumn(result, left, right, n, k, 0, k + 1, r0, r1, r2);
    }
    for k := n to 2 * n - 1
      invariant left[..n] == l && right[..n] == r
      invariant result[k..] == old(result[k..])
      invariant Scanned(result[..k], Acc(r0, r1, r2), l, r, n) && r2 == 0
    {
      r0, r1, r2 := StoreColumn(result, left, right, n, k, k + 1 - n, n, r0, r1, r2);
    }
    ghost var stored := result[..2 * n - 1];
    ScannedLast(stored, l, r, n, r0, r1, r2);
    result[2 * n - 1] := r0;
    assert result[..2 * n] == stored + [r0];
  }

  // ----- uECC_vli_square ---------------------------------------------------------------------------------

  /** The inner loop of uECC_vli_square: mirrored terms are added once, doubled. */
  method SquareColumn(left: array<Word>, n: nat, k: nat, r0: Word, r1: Word, r2: Word)
    returns (s0: Word, s1: Word, s2: Word)
    requires 1 <= n <= left.Length && n <= Base() && k < 2 * n - 1
    requires Fits(n, 0, Acc(r0, r1, r2))
    ensures Acc(s0, s1, s2) == Acc(r0, r1, r2) + Col(left[..n], left[..n], k)
    ensures Fits(n, n, Acc(s0, s1, s2))
  {
    hide *;
    s0, s1, s2 := r0, r1, r2;
    ghost var l := left[..n];
    var min := if k < n then 0 else k + 1 - n;
    ghost var end := k - min + 1;
    ghost var mirror := end;   // terms mirror .. end have been added as mirror images
    ghost var v: nat := Acc(r0, r1, r2);
    var i := min;
    while i <= k && i <= k - i
      invariant min <= i <= k + 1 && i <= mirror <= end <= n && mirror == if i <= k - i + 1 then k - i + 1 else i
      invariant v == Acc(s0, s1, s2)
      invariant v == Acc(r0, r1, r2) + (ColTo(l, l, k, i) - ColTo(l, l, k, min))
                     + (ColTo(l, l, k, end) - ColTo(l, l, k, mirror))
      invariant Fits(n, (i - min) + (end - mirror), v)
      decreases k + 1 - i
    {
      ghost var c := (i - min) + (end - mirror);
      MirrorTerm(l, k, i);
      var a: nat, b: nat := left[i], left[k - i];
      if i < k - i {
        s0, s1, s2 := Mul2AddFits(a, b, s0, s1, s2, v, n, c);
        v := v + 2 * (a * b);
        mirror := k - i;
      } else {
        s0, s1, s2 := MulAddFits(a, b, s0, s1, s2, v, n, c);
        v := v + a * b;
        mirror := i + 1;
      }
      i := i + 1;
    }
    ColEdges(l, l, k, min);
    ColEdges(l, l, k, end);
    FitsMore(n, end - min, n, v);
  }

  /** Term i of a square's column and its mirror image are the same product. */
  lemma MirrorTerm(l: seq<Word>, k: nat, i: nat)
    requires i <= k && i < |l| && k - i < |l|
    ensures ColTo(l, l, k, i + 1) == ColTo(l, l, k, i) + l[i] as nat * l[k - i]
    ensures ColTo(l, l, k, k - i + 1) == ColTo(l, l, k, k - i) + l[i] as nat * l[k - i]
  {
    hide ColTo;
    ColStep(l, l, k, i);
    ColStep(l, l, k, k - i);
  }

  /** uECC_vli_square: the same number as uECC_vli_mult of an array with itself. */
  method SquareOf(result: array<Word>, left: array<Word>, n: nat)
    requires 1 <= n <= Base() && 2 * n <= result.Length && n <= left.Length && result != left
    modifies result
    ensures Val(result[..2 * n]) == Val(left[..n]) * Val(left[..n])
    ensures result[2 * n..] == old(result[2 * n..])
  {
    hide Acc, Fits, Val, Columns, Weight, Base;
    var r0: Word, r1: Word, r2: Word := 0, 0, 0;
    ghost var l := left[..n];
    ScannedInit(l, l, n);
    assert result[..0] == [];
    for k := 0 to 2 * n - 1
      invariant left[..n] == l
      invariant result[k..] == old(result[k..])
      invariant Scanned(result[..k], Acc(r0, r1, r2), l, l, n) && r2 == 0
    {
      ghost var stored, acc := result[..k], Acc(r0, r1, r2);
      r0, r1, r2 := SquareColumn(left, n, k, r0, r1, r2);
      ScannedStep(stored, acc, l, l, n, r0, r1, r2);
      result[k] := r0;
      assert result[..k + 1] == stored + [r0];
      r0, r1, r2 := r1, r2, 0;
    }
    ghost var stored := result[..2 * n - 1];
    ScannedLast(stored, l, l, n, r0, r1, r2);
    result[2 * n - 1] := r0;
    assert result[..2 * n] == stored + [r0];
  }
}
