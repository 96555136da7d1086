/** The GHASH side shared by both directions of lib/fusion.c: cutting the additional data and the
    ciphertext into blocks, six at a time. */
module GcmFeed {
  import opened Common
  import opened Ghash
  import opened Gcm

  /** The bytes left of n after k blocks. */
  function Rest(n: nat, k: nat): (r: nat) {
    if 16 * k >= n then 0 else n - 16 * k
  }

  /** The blocks of the output among the first g blocks handed out. */
  ghost function OutBlocks(aad: seq<Byte>, g: nat): (k: nat) {
    if g < NumBlocks(|aad|) then 0 else g - NumBlocks(|aad|)
  }

  ghost function AllBlocks(aad: seq<Byte>, c: seq<Byte>): (bs: seq<Block>)
    ensures |bs| == NumBlocks(|aad|) + NumBlocks(|c|)
  {
    Blocks(aad) + Blocks(c)
  }

  lemma SameSlice(d: seq<Byte>, c: seq<Byte>, lo: nat, hi: nat, i: nat, j: nat)
    requires lo <= i <= j <= hi && hi <= |d| && hi <= |c| && d[lo..hi] == c[lo..hi]
    ensures d[i..j] == c[i..j]
  {
    forall k | i <= k < j
      ensures d[k] == c[k]
    {
      assert d[lo..hi][k - lo] == c[lo..hi][k - lo];
    }
  }

  lemma RestFacts(n: nat, k: nat)
    ensures Rest(n, k) > 0 <==> k < NumBlocks(n)
    ensures Rest(n, k) > 0 ==> 16 * k + Rest(n, k) == n
    ensures Rest(n, k) >= 16 ==> Rest(n, k + 1) == Rest(n, k) - 16 && k + 1 <= n / 16
    ensures 0 < Rest(n, k) < 16 ==> Rest(n, k + 1) == 0 && k + 1 == NumBlocks(n) && k == n / 16
    ensures Rest(n, k) == 0 ==> NumBlocks(n) <= k
    ensures k <= n / 16 ==> 16 * k <= n
  {}

  lemma TakeBlock(s: seq<Byte>, k: nat)
    requires Rest(|s|, k) > 0
    ensures k < NumBlocks(|s|) && 16 * k + Rest(|s|, k) == |s|
    ensures Rest(|s|, k) >= 16 ==> s[16 * k..16 * k + 16] == BlockAt(s, k)
    ensures Rest(|s|, k) < 16 ==> Pad(s[16 * k..|s|]) == BlockAt(s, k)
  {
    assert s[16 * k..|s|] == s[16 * k..];
  }

  lemma SnocBlock(s: seq<Byte>, k: nat, m: nat)
    requires k <= m < NumBlocks(|s|)
    ensures Blocks(s)[k..m] + [BlockAt(s, m)] == Blocks(s)[k..m + 1]
  {
    hide BlockAt, Blocks, NumBlocks;
    var bs := Blocks(s);
    assert bs[m] == BlockAt(s, m);
    assert bs[k..m] + [bs[m]] == bs[k..m + 1];
  }

  /** The loop over the additional data. */
  method FillAad(aad: seq<Byte>, aadOff: nat, aadlen: nat, ghost g: nat)
    returns (buf: seq<Block>, aadOff': nat, aadlen': nat)
    requires g <= NumBlocks(|aad|)
    requires aadlen == Rest(|aad|, g) && (aadlen > 0 ==> aadOff == 16 * g)
    ensures |buf| <= 6 && g + |buf| <= NumBlocks(|aad|) && buf == Blocks(aad)[g..g + |buf|]
    ensures aadlen' == Rest(|aad|, g + |buf|) && (aadlen' > 0 ==> aadOff' == 16 * (g + |buf|))
    ensures |buf| < 6 ==> g + |buf| == NumBlocks(|aad|)
  {
    hide Rest, Blocks, BlockAt, NumBlocks, Pad;
    buf, aadOff', aadlen' := [], aadOff, aadlen;
    ghost var m := g;
    assert Blocks(aad)[g..g] == [];
    while |buf| < 6 && aadlen' >= 16
      invariant |buf| <= 6 && m == g + |buf| <= NumBlocks(|aad|) && buf == Blocks(aad)[g..m]
      invariant aadlen' == Rest(|aad|, m) && (aadlen' > 0 ==> aadOff' == 16 * m)
      decreases aadlen'
    {
      RestFacts(|aad|, m);
      RestFacts(|aad|, m + 1);
      TakeBlock(aad, m);
      SnocBlock(aad, g, m);
      buf := buf + [aad[aadOff'..aadOff' + 16]];
      m := m + 1;
      aadOff', aadlen' := aadOff' + 16, aadlen' - 16;
    }
    RestFacts(|aad|, m);
    if |buf| < 6 && aadlen' != 0 {
      TakeBlock(aad, m);
      SnocBlock(aad, g, m);
      buf := buf + [Pad(aad[aadOff'..aadOff' + aadlen'])];
      aadlen' := 0;
    }
  }

  ghost function FullBlocks(n: nat, k: nat): (m: nat) {
    if k <= n / 16 then k else n / 16
  }

  lemma FullFacts(n: nat, k: nat)
    ensures Rest(n, k) > 0 ==> FullBlocks(n, k) == k
    ensures Rest(n, k) >= 16 ==> FullBlocks(n, k + 1) == k + 1
    ensures 0 < Rest(n, k) < 16 ==> FullBlocks(n, k + 1) == k
    ensures 16 * FullBlocks(n, k) <= n && FullBlocks(n, k) <= k
  {}

  /** GdataFillDST and GdataFillSrc: the loop over the ciphertext c, of which txt holds lo .. hi. */
  method FillText(txt: array<Byte>, buf: seq<Block>, off: nat, len: nat, ghost c: seq<Byte>, ghost k: nat,
                  ghost lo: nat, ghost hi: nat)
    returns (buf': seq<Block>, off': nat, len': nat)
    requires |buf| <= 6 && k <= NumBlocks(|c|)
    requires len == Rest(|c|, k) && off == 16 * FullBlocks(|c|, k)
    requires lo <= hi <= |c| <= txt.Length && txt[lo..hi] == c[lo..hi]
    requires k < NumBlocks(|c|) ==> lo <= 16 * k
    requires hi == |c| || 16 * (k + 6 - |buf|) <= hi
    ensures |buf| <= |buf'| <= 6
    ensures var m := k + |buf'| - |buf|;
            && m <= NumBlocks(|c|) && buf' == buf + Blocks(c)[k..m]
            && len' == Rest(|c|, m) && off' == 16 * FullBlocks(|c|, m)
            && (|buf'| < 6 ==> m == NumBlocks(|c|))
  {
    hide Rest, Blocks, BlockAt, NumBlocks, Pad, FullBlocks;
    buf', off', len' := buf, off, len;
    ghost var m := k;
    assert Blocks(c)[k..k] == [];
    while |buf'| < 6 && len' >= 16
      invariant |buf| <= |buf'| <= 6 && m == k + |buf'| - |buf|
      invariant m <= NumBlocks(|c|) && buf' == buf + Blocks(c)[k..m]
      invariant len' == Rest(|c|, m) && off' == 16 * FullBlocks(|c|, m)
      decreases len'
    {
      RestFacts(|c|, m);
      FullFacts(|c|, m);
      TakeBlock(c, m);
      SnocBlock(c, k, m);
      SameSlice(txt[..], c, lo, hi, off', off' + 16);
      buf' := buf' + [txt[off'..off' + 16]];
      m := m + 1;
      off', len' := off' + 16, len' - 16;
    }
    RestFacts(|c|, m);
    if |buf'| < 6 && len' != 0 {
      FullFacts(|c|, m);
      TakeBlock(c, m);
      SnocBlock(c, k, m);
      SameSlice(txt[..], c, lo, hi, off', off' + len');
      buf' := buf' + [Pad(txt[off'..off' + len'])];
      len' := 0;
    }
  }

  lemma AadPart(aad: seq<Byte>, c: seq<Byte>, g: nat, g': nat)
    requires g <= g' <= NumBlocks(|aad|)
    ensures AllBlocks(aad, c)[g..g'] == Blocks(aad)[g..g']
  {}

  lemma OutPart(aad: seq<Byte>, c: seq<Byte>, g: nat, g': nat)
    requires NumBlocks(|aad|) <= g <= g' <= NumBlocks(|aad|) + NumBlocks(|c|)
    ensures AllBlocks(aad, c)[g..g'] == Blocks(c)[g - NumBlocks(|aad|)..g' - NumBlocks(|aad|)]
  {}

  lemma Joined<T>(s: seq<T>, i: nat, j: nat, k: nat)
    requires i <= j <= k <= |s|
    ensures s[i..j] + s[j..k] == s[i..k]
  {}

  /** What is left to hand out after g blocks. */
  ghost predicate Left(aad: seq<Byte>, c: seq<Byte>, g: nat, aadOff: nat, aadlen: nat, off: nat, len: nat) {
    var k := OutBlocks(aad, g);
    && g <= |AllBlocks(aad, c)|
    && aadlen == Rest(|aad|, g) && (aadlen > 0 ==> aadOff == 16 * g)
    && len == Rest(|c|, k) && off == 16 * FullBlocks(|c|, k)
  }

  /** Filling gdatabuf: additional data first, then the text. */
  method FillBlocks(aad: seq<Byte>, txt: array<Byte>, aadOff: nat, aadlen: nat, off: nat, len: nat,
                    ghost c: seq<Byte>, ghost g: nat, ghost lo: nat, ghost hi: nat)
    returns (buf: seq<Block>, aadCount: nat, aadOff': nat, aadlen': nat, off': nat, len': nat)
    requires Left(aad, c, g, aadOff, aadlen, off, len)
    requires lo <= hi <= |c| <= txt.Length && txt[lo..hi] == c[lo..hi]
    requires OutBlocks(aad, g) < NumBlocks(|c|) ==> lo <= 16 * OutBlocks(aad, g)
    requires hi == |c| || 16 * (OutBlocks(aad, g) + 6) <= hi
    ensures |buf| <= 6 && g + |buf| <= |AllBlocks(aad, c)| && buf == AllBlocks(aad, c)[g..g + |buf|]
    ensures |buf| < 6 ==> g + |buf| == |AllBlocks(aad, c)|
    ensures Left(aad, c, g + |buf|, aadOff', aadlen', off', len')
    ensures aadCount + OutBlocks(aad, g + |buf|) == |buf| + OutBlocks(aad, g)
  {
    hide Rest, Blocks, BlockAt, NumBlocks, FullBlocks, AllBlocks, Left, OutBlocks;
    LeftFacts(aad, c, g, aadOff, aadlen, off, len);
    off', len' := off, len;
    buf, aadOff', aadlen' := FillAadPart(aad, aadOff, aadlen, c, g);
    aadCount := |buf|;
    ghost var m := g + |buf|;
    if |buf| < 6 {
      ghost var first := buf;
      buf, off', len' := FillText(txt, buf, off, len, c, OutBlocks(aad, m), lo, hi);
      TextPart(aad, c, g, m, first, buf);
      LeftText(aad, c, m, g + |buf|, aadOff', aadlen', off', len');
    } else {
      LeftAad(aad, c, g, m, aadOff', aadlen', off', len');
    }
  }

  lemma LeftFacts(aad: seq<Byte>, c: seq<Byte>, g: nat, aadOff: nat, aadlen: nat, off: nat, len: nat)
    requires Left(aad, c, g, aadOff, aadlen, off, len)
    ensures g <= |AllBlocks(aad, c)| && aadlen == Rest(|aad|, g) && (aadlen > 0 ==> aadOff == 16 * g)
    ensures len == Rest(|c|, OutBlocks(aad, g)) && off == 16 * FullBlocks(|c|, OutBlocks(aad, g))
    ensures OutBlocks(aad, g) <= NumBlocks(|c|)
  {}

  /** The additional data, if there is any left. */
  method FillAadPart(aad: seq<Byte>, aadOff: nat, aadlen: nat, ghost c: seq<Byte>, ghost g: nat)
    returns (buf: seq<Block>, aadOff': nat, aadlen': nat)
    requires g <= |AllBlocks(aad, c)| && aadlen == Rest(|aad|, g) && (aadlen > 0 ==> aadOff == 16 * g)
    ensures |buf| <= 6 && g + |buf| <= |AllBlocks(aad, c)| && buf == AllBlocks(aad, c)[g..g + |buf|]
    ensures aadlen' == Rest(|aad|, g + |buf|) && (aadlen' > 0 ==> aadOff' == 16 * (g + |buf|))
    ensures OutBlocks(aad, g + |buf|) == OutBlocks(aad, g)
    ensures |buf| < 6 ==> NumBlocks(|aad|) <= g + |buf| && aadlen' == 0
  {
    hide Rest, Blocks, BlockAt, NumBlocks, AllBlocks;
    RestFacts(|aad|, g);
    buf, aadOff', aadlen' := [], aadOff, aadlen;
    if aadlen != 0 {
      buf, aadOff', aadlen' := FillAad(aad, aadOff, aadlen, g);
      AadPart(aad, c, g, g + |buf|);
      RestFacts(|aad|, g + |buf|);
    }
  }

  lemma TextPart(aad: seq<Byte>, c: seq<Byte>, g: nat, m: nat, first: seq<Block>, buf: seq<Block>)
    requires g <= m <= |AllBlocks(aad, c)| && NumBlocks(|aad|) <= m && first == AllBlocks(aad, c)[g..m]
    requires var k := OutBlocks(aad, m);
             && |first| <= |buf| && k + |buf| - |first| <= NumBlocks(|c|)
             && buf == first + Blocks(c)[k..k + |buf| - |first|]
    ensures g + |buf| <= |AllBlocks(aad, c)| && buf == AllBlocks(aad, c)[g..g + |buf|]
    ensures OutBlocks(aad, g + |buf|) == OutBlocks(aad, m) + |buf| - |first|
    ensures OutBlocks(aad, g + |buf|) == NumBlocks(|c|) ==> g + |buf| == |AllBlocks(aad, c)|
  {
    hide Blocks, NumBlocks, AllBlocks;
    OutPart(aad, c, m, g + |buf|);
    Joined(AllBlocks(aad, c), g, m, g + |buf|);
  }

  lemma LeftText(aad: seq<Byte>, c: seq<Byte>, m: nat, g: nat, aadOff: nat, aadlen: nat, off: nat, len: nat)
    requires NumBlocks(|aad|) <= m <= g <= |AllBlocks(aad, c)| && aadlen == 0
    requires len == Rest(|c|, OutBlocks(aad, g)) && off == 16 * FullBlocks(|c|, OutBlocks(aad, g))
    ensures Left(aad, c, g, aadOff, aadlen, off, len)
  {
    RestFacts(|aad|, g);
  }

  lemma LeftAad(aad: seq<Byte>, c: seq<Byte>, g: nat, m: nat, aadOff: nat, aadlen: nat, off: nat, len: nat)
    requires m <= |AllBlocks(aad, c)| && aadlen == Rest(|aad|, m) && (aadlen > 0 ==> aadOff == 16 * m)
             && OutBlocks(aad, m) == OutBlocks(aad, g)
    requires len == Rest(|c|, OutBlocks(aad, g)) && off == 16 * FullBlocks(|c|, OutBlocks(aad, g))
    ensures Left(aad, c, m, aadOff, aadlen, off, len)
  {}

  lemma SixBlocks(n: nat, k: nat)
    requires Rest(n, k) >= 96
    ensures Rest(n, k + 6) == Rest(n, k) - 96
    ensures FullBlocks(n, k) == k && FullBlocks(n, k + 6) == k + 6 && k + 6 <= NumBlocks(n) && 16 * k + 96 <= n
  {}

  lemma FullBlockAt(c: seq<Byte>, k: nat)
    requires 16 * k + 16 <= |c|
    ensures k < NumBlocks(|c|) && BlockAt(c, k) == c[16 * k..16 * k + 16]
  {}

  /** Six blocks read in place. */
  method ReadSix(txt: array<Byte>, at: nat, ghost c: seq<Byte>, ghost k: nat, ghost lo: nat, ghost hi: nat)
    returns (gdata: seq<Block>)
    requires lo <= at == 16 * k && at + 96 <= hi <= |c| <= txt.Length && txt[lo..hi] == c[lo..hi]
    ensures k + 6 <= NumBlocks(|c|) && gdata == Blocks(c)[k..k + 6]
  {
    hide Blocks, NumBlocks, BlockAt;
    gdata := [];
    FullBlockAt(c, k + 5);
    for i := 0 to 6
      invariant |gdata| == i && k + i <= NumBlocks(|c|) && gdata == Blocks(c)[k..k + i]
    {
      var o := at + 16 * i;
      FullBlockAt(c, k + i);
      SnocBlock(c, k, k + i);
      SameSlice(txt[..], c, lo, hi, o, o + 16);
      gdata := gdata + [txt[o..o + 16]];
    }
  }

  /** What has been accumulated before turn t's blocks g0 .. g. */
  ghost predicate Accumulated(valid: bool, h: Reg, aad: seq<Byte>, c: seq<Byte>, gs: GState, g0: nat, pre: nat) {
    && g0 <= |AllBlocks(aad, c)| && pre == |AllBlocks(aad, c)| + 1 - g0
    && Fed(valid, h, gs, Regs(AllBlocks(aad, c)[..g0]), pre)
  }

  lemma AccumulatedMore(aad: seq<Byte>, c: seq<Byte>, g0: nat, g: nat)
    requires g0 <= g <= |AllBlocks(aad, c)|
    ensures Regs(AllBlocks(aad, c)[..g0]) + Regs(AllBlocks(aad, c)[g0..g]) == Regs(AllBlocks(aad, c)[..g])
  {
    hide AllBlocks;
  }

  lemma AccumulatedNothing(valid: bool, h: Reg, aad: seq<Byte>, c: seq<Byte>, pre: nat)
    requires pre == NumBlocks(|aad|) + NumBlocks(|c|) + 1
    ensures Accumulated(valid, h, aad, c, EMPTY, 0, pre)
  {
    hide Blocks;
    FedNothing(valid, h, pre);
    assert Regs(AllBlocks(aad, c)[..0]) == [];
  }

  lemma AccumulatedBound(valid: bool, h: Reg, aad: seq<Byte>, c: seq<Byte>, gs: GState, g0: nat, pre: nat)
    requires Accumulated(valid, h, aad, c, gs, g0, pre)
    ensures pre <= |AllBlocks(aad, c)| + 1
  {}

  lemma FedAll(h: Reg, g: GState, xs: seq<Reg>)
    requires Fed(true, h, g, xs, 0)
    ensures Final(g) == GhashNist(h, xs)
  {
    hide Sum, PowerSum;
    DeferredGhash(h, xs, g);
  }

  lemma WholeInput(aad: seq<Byte>, c: seq<Byte>, buf: seq<Block>, g0: nat)
    requires |aad| * 8 < 0x8000_0000 && |c| * 8 < 0x8000_0000
    requires g0 <= |AllBlocks(aad, c)| && buf == AllBlocks(aad, c)[g0..]
    ensures var ac := FromReg(LengthReg(|aad|, |c|)); var rest := buf + [ac];
            Regs(AllBlocks(aad, c)[..g0]) + Regs(rest)[..|rest|] == HashInput(aad, c)
  {
    hide FromReg, ToReg, LengthReg, Blocks;
    var ac := LengthReg(|aad|, |c|);
    var all := AllBlocks(aad, c);
    RegRoundTrip(ac, ZERO);
    var rest := buf + [FromReg(ac)];
    RegsConcat(buf, [FromReg(ac)]);
    RegsConcat(all[..g0], buf);
    assert all[..g0] + buf == all;
    assert Regs(rest)[..|rest|] == Regs(rest);
    assert Regs([FromReg(ac)]) == [ac];
    assert Regs(all[..g0]) + (Regs(buf) + [ac]) == (Regs(all[..g0]) + Regs(buf)) + [ac];
  }

  lemma RegsConcat(a: seq<Block>, b: seq<Block>)
    ensures Regs(a + b) == Regs(a) + Regs(b)
  {
    hide ToReg;
  }
}
