/** A curve of five points, y^2 = x^3 - 3 x + 1 modulo 7: what EccOutcome asks of a curve can be met, and
    what the ladder makes of key 1; and the keys of secp256r1. */
module EccSmall {
  import opened Arith
  import opened EccLadder
  import opened EccCoZ
  import opened EccRun
  import opened EccOrder
  import opened EccDouble
  import opened EccOutcome
  import opened Primes
  import EccPoint

  type Five = n: nat | n < 5

  /** The multiples of (4, 5); number 0 is the point at infinity. */
  function XOf(n: Five): (x: int) {
    if n == 1 || n == 4 then 4 else 0
  }

  function YOf(n: Five): (y: int) {
    if n == 1 then 5 else if n == 2 then 6 else if n == 3 then 1 else 2
  }

  function Plus(a: Five, b: Five): (c: Five) {
    if a + b < 5 then a + b else a + b - 5
  }

  function Minus(a: Five): (b: Five) {
    if a == 0 then 0 else 5 - a
  }

  function Small(): (c: Curve<Five>) {
    Curve<Five>.Curve(Group<Five>.Group(0, Plus, Minus), XOf, YOf, 7)
  }

  lemma BySeven(x: int, y: int, k: int)
    requires x == y + 7 * k
    ensures Cong(x, y, 7)
  {
    CongOffset(y, k, 7);
  }

  lemma NotZero(x: int)
    requires 0 < x < 7
    ensures Nonzero(x, 7)
  {
    if Divides(7, x) { DividesBound(7, x); }
  }

  // ----- the chord law ----------------------------------------------------------------------------------

  /** The slope of the chord, from -2 to 2. */
  function SlopeOf(dx: int, dy: int): (l: int) {
    if dy == dx then 1 else if dy == -dx then -1 else if (dy > 0) == (dx > 0) then 2 else -2
  }

  lemma SmallSums(a: Five, b: Five)
    requires a != 0 && b != 0 && XOf(a) != XOf(b)
    ensures Sums(Small(), a, b)
  {
    hide Cong;
    var l := SlopeOf(XOf(b) - XOf(a), YOf(b) - YOf(a));
    var s := Plus(a, b);
    var x3 := l * l - XOf(a) - XOf(b);
    var y2 := YOf(a) + l * (XOf(b) - XOf(a));
    var y3 := l * (XOf(a) - x3) - YOf(a);
    BySeven(YOf(b), y2, (YOf(b) - y2) / 7);
    BySeven(XOf(s), x3, (XOf(s) - x3) / 7);
    BySeven(YOf(s), y3, (YOf(s) - y3) / 7);
    assert Chord(XOf(a), YOf(a), XOf(b), YOf(b), l, XOf(s), YOf(s), 7);
  }

  lemma SmallMirrors(a: Five)
    requires a != 0
    ensures Mirrors(Small(), a)
  {
    BySeven(XOf(Minus(a)), XOf(a), 0);
    BySeven(YOf(Minus(a)), -YOf(a), 1);
  }

  lemma SmallIsAbelian()
    ensures IsAbelian(Small().group)
  {}

  lemma SmallIsCurve()
    ensures ChordLaw(Small())
  {
    hide IsAbelian, Mirrors, Sums, XOf, YOf;
    SmallIsAbelian();
    forall a: Five | a != 0
      ensures Mirrors(Small(), a)
    {
      SmallMirrors(a);
    }
    forall a: Five, b: Five | a != 0 && b != 0 && !Cong(XOf(a), XOf(b), 7)
      ensures Sums(Small(), a, b)
    {
      if XOf(a) == XOf(b) { CongRefl(XOf(a), 7); }
      SmallSums(a, b);
    }
  }

  // ----- the order of (4, 5) ----------------------------------------------------------------------------

  lemma SmallTimes(a: Five)
    ensures Times(Small().group, a, 1) == a
  {
    if a > 0 { SmallTimes(a - 1); }
  }

  lemma SmallDistinguishes(a: Five, b: Five)
    requires a != 0 && b != 0
    ensures Distinguishes(Small(), 1, 5, a, b)
  {
    hide Times;
    SmallTimes(a);
    SmallTimes(b);
    if Cong(XOf(a), XOf(b), 7) { CongUnique(XOf(a), XOf(b), 7); }
  }

  lemma SmallHasOrder()
    ensures HasOrder(Small(), 1, 5)
  {
    hide Distinguishes;
    SmallTimes(4);
    assert Times(Small().group, 5, 1) == Plus(Times(Small().group, 4, 1), 1);
    forall a: nat | 0 < a < 5
      ensures Times(Small().group, a, 1) != 0
    {
      SmallTimes(a);
    }
    forall a: nat, b: nat | 0 < a < 5 && 0 < b < 5
      ensures Distinguishes(Small(), 1, 5, a, b)
    {
      SmallDistinguishes(a, b);
    }
  }

  lemma SevenIsPrime()
    ensures IsPrime(7)
  {
    forall d | 1 < d < 7
      ensures !Divides(d, 7)
    {
      assert d == 2 || d == 3 || d == 4 || d == 5 || d == 6;
    }
  }

  lemma SmallDoubles()
    ensures Doubles(Small(), 1)
  {
    BySeven(1 * (2 * 5), 3 * (4 * 4 - 1), -5);
    BySeven(0, 1 * 1 - 4 - 4, 1);
    CongRefl(6, 7);
    hide Cong;
    assert Tangent(4, 5, 1, 0, 6, 7);
    var c := Small();
    var d := c.group.add(1, 1);
    assert d == 2 && c.x(1) == 4 && c.y(1) == 5 && c.x(d) == 0 && c.y(d) == 6 && c.p == 7;
    assert Tangent(c.x(1), c.y(1), 1, c.x(d), c.y(d), c.p);
  }

  /** All that is asked of a curve, met at once. */
  lemma SmallIsSuitable()
    ensures Suitable(Small(), 1, 5)
  {
    hide IsPrime, ChordLaw, HasOrder, Doubles, Cong, Times;
    SevenIsPrime();
    SmallIsCurve();
    SmallHasOrder();
    SmallDoubles();
    NotZero(4);
    NotZero(5);
    NotZero(6);
    NotZero(1);
    forall a: nat | 0 < a < 5
      ensures OffOrigin(Small(), Times(Small().group, a, 1))
    {
      SmallTimes(a);
    }
  }

  // ----- key 1 ------------------------------------------------------------------------------------------

  /** Key 1 of the small curve: regularized to 11, one more than twice the order, it gives (0, 0) and not
      (4, 5), whatever the inversion returns. */
  lemma KeyOneIsLost(inv: nat)
    requires var regs := CoInitial(Co(4, 5), 1, 7).0; Inverts(inv, LastDivisor(Co(4, 5), regs, 11, 3, 7), 7)
    ensures Outcome(Co(4, 5), CoInitial(Co(4, 5), 1, 7).0, 11, 3, inv, 7) == Co(0, 0)
    ensures !Safe(1, 5, 3)
  {
    assert Pow2(3) == 8 && Pow2(2) == 4;
    hide Pow2, Suitable, Inverts, LastDivisor, Outcome, CoInitial, Cong, Times;
    SmallIsSuitable();
    EccPoint.KeyOutcome(Small(), 1, 5, 3, 1, 2, inv);
  }

  // ----- secp256r1 --------------------------------------------------------------------------------------

  /** The order of the base point of secp256r1. */
  const N256: nat := 0xFFFFFFFF_00000000_FFFFFFFF_FFFFFFFF_BCE6FAAD_A7179E84_F3B9CAC2_FC632551

  lemma Pow256()
    ensures Pow2(256) == 0x1_00000000_00000000_00000000_00000000_00000000_00000000_00000000_00000000
  {
    hide Pow2;
    assert Pow2(8) == 256 by { Pow2Eight(); }
    Pow2Add(8, 8);
    Pow2Add(16, 16);
    Pow2Add(32, 32);
    Pow2Add(64, 64);
    Pow2Add(128, 128);
  }

  lemma Pow2Eight()
    ensures Pow2(8) == 256
  {}

  /** Its keys: all but 1, n - 2 and n - 1. */
  lemma KeysOfSecp256r1(k: nat)
    requires 1 <= k < N256
    ensures Safe(k, N256, 256) <==> k != 1 && k != N256 - 2 && k != N256 - 1
  {
    hide Pow2;
    Pow256();
  }
}
