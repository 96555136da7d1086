/** ptls_fusion_aesgcm_encrypt (lib/fusion.c): six AES lanes and GHASH in one loop, GHASH one turn
    behind, the tag mask and the supplementary block squeezed into idle lanes. */
module GcmEncrypt {
  import opened Common
  import opened Arith
  import opened Ghash
  import opened Gcm
  import opened GcmFeed

  /** STATE_EK0_*: bits 00, 11 and 01 of the source's state. */
  datatype Ek0State = NotFed | Fed0 | Ready

  /** A supplementary encryption: its key and the offset of its 16-byte sample in the output. */
  datatype Supplement = NoSupp | Supp(aes: Aes, off: nat)

  /** The AES half of the pipeline. */
  datatype AesSide = AesSide(
    lanes: seq<Block>, ctr: Reg,
    ek0: Block, ek0State: Ek0State,
    aes4: Aes, suppUsed: bool, suppBusy: bool, suppOut: Block)

  // ----- the AES side ------------------------------------------------------------------------------------

  ghost predicate GoodSupp(main: Aes, supp: Supplement, len: nat) {
    supp.Supp? ==> ValidAes(supp.aes) && |supp.aes.keys| == |main.keys| && supp.off <= len
  }

  /** Which stage ek0 is in after the set-up of turn t. */
  ghost function Ek0At(len: nat, t: nat): Ek0State {
    if t >= 1 && len + 16 <= 96 * t then Ready else if len <= 96 * t + 80 then Fed0 else NotFed
  }

  /** The inputs of the lanes in turn t: counters for the payload blocks 6t .. 6t + 5 that exist,
      ek0 in lane 5 and the sample in lane 4 when their time has come. */
  ghost predicate GoodInputs(main: Aes, supp: Supplement, base: nat, c: seq<Byte>, t: nat, a: AesSide, ins: seq<Block>)
    requires CounterRoom(base, 0) && |c| * 8 < 0x8000_0000
  {
    && |ins| == 6
    && (forall j :: 0 <= j < 6 && 16 * (6 * t + j) < |c| ==> ins[j] == FromReg(CounterReg(base, 6 * t + j)))
    && (a.ek0State.Fed0? ==> ins[5] == FromReg(base + 1))
    && (a.suppBusy ==> supp.Supp? && supp.off + 16 <= |c| && ins[4] == c[supp.off..supp.off + 16])
  }

  /** What the AES side keeps from turn to turn, apart from the lanes. */
  ghost predicate GoodSide(main: Aes, supp: Supplement, base: nat, c: seq<Byte>, t: nat, a: AesSide)
    requires ValidAes(main) && CounterRoom(base, 0) && |c| * 8 < 0x8000_0000
  {
    && GoodSupp(main, supp, |c|)
    && (|c| > 96 * (t + 1) ==> a.ctr == base + 7 + 6 * t)
    && a.ek0State == Ek0At(|c|, t)
    && a.ek0 == (if a.ek0State.Ready? then Cipher(main, FromReg(base + 1)) else FromReg(base + 1))
    && (a.aes4 == main || (supp.Supp? && a.aes4 == supp.aes && |c| <= 96 * t + 64))
    && (a.suppUsed ==> supp.Supp?)
    && (a.suppBusy ==> a.suppUsed && supp.Supp? && a.aes4 == supp.aes && |c| <= 96 * t + 64)
    && (supp.Supp? && !a.suppUsed ==>
          supp.off + 16 <= |c| && a.suppOut == Cipher(supp.aes, c[supp.off..supp.off + 16]))
  }

  ghost predicate AesInv(main: Aes, supp: Supplement, base: nat, c: seq<Byte>, t: nat, a: AesSide, ins: seq<Block>)
    requires ValidAes(main) && CounterRoom(base, 0) && |c| * 8 < 0x8000_0000
  {
    && GoodSide(main, supp, base, c, t, a)
    && GoodInputs(main, supp, base, c, t, a, ins)
    && AtStage(main, a.aes4, a.lanes, ins, 2)
  }

  /** Before the set-up of turn t: what the previous turn leaves. */
  ghost predicate Between(main: Aes, supp: Supplement, base: nat, c: seq<Byte>, t: nat, a: AesSide)
    requires ValidAes(main) && CounterRoom(base, 0) && |c| * 8 < 0x8000_0000
  {
    && GoodSupp(main, supp, |c|) && |a.lanes| == 6 && !a.suppBusy
    && (|c| > 96 * t ==> a.ctr == base + 1 + 6 * t)
    && a.ek0State == (if t >= 1 && |c| + 16 <= 96 * t then Ready else NotFed)
    && a.ek0 == (if a.ek0State.Ready? then Cipher(main, FromReg(base + 1)) else FromReg(base + 1))
    && (a.aes4 == main || (supp.Supp? && a.aes4 == supp.aes && |c| <= 96 * t))
    && (a.suppUsed ==> supp.Supp?)
    && (supp.Supp? && !a.suppUsed ==>
          supp.off + 16 <= |c| && a.suppOut == Cipher(supp.aes, c[supp.off..supp.off + 16]))
  }

  /** Five counter increments; the sixth only when lane 5 carries payload. */
  lemma Counters(base: nat, n: nat, ctr: Reg, c1: Reg, c2: Reg, c3: Reg, c4: Reg, c5: Reg, c6: Reg)
    requires CounterRoom(base, n + 6) && ctr == base + n
    requires c1 == AddOne(ctr) && c2 == AddOne(c1) && c3 == AddOne(c2) && c4 == AddOne(c3) && c5 == AddOne(c4)
    requires c6 == AddOne(c5)
    ensures c1 == base + n + 1 && c2 == base + n + 2 && c3 == base + n + 3
    ensures c4 == base + n + 4 && c5 == base + n + 5 && c6 == base + n + 6
  {
    hide AddOne, Pow2;
    AddOneIs(base, n);
    AddOneIs(base, n + 1);
    AddOneIs(base, n + 2);
    AddOneIs(base, n + 3);
    AddOneIs(base, n + 4);
    AddOneIs(base, n + 5);
  }

  /** What the lanes are to encipher.  ghashOff is dst_ghash: bytes before it are final, so the sample may be
      read once it lies before it. */
  method ChooseInputs(main: Aes, supp: Supplement, a: AesSide, srclen: nat, dst: array<Byte>, ghashOff: nat,
                      ghost base: nat, ghost c: seq<Byte>, ghost t: nat)
    returns (a': AesSide, ins: seq<Block>)
    requires Admissible(main, base, 0, |c|) && Between(main, supp, base, c, t, a)
    requires srclen == if |c| <= 96 * t then 0 else |c| - 96 * t
    requires ghashOff <= |c| <= dst.Length && dst[..ghashOff] == c[..ghashOff]
    ensures GoodSide(main, supp, base, c, t, a') && GoodInputs(main, supp, base, c, t, a', ins)
  {
    hide AddOne, FromReg, Cipher, Pow2;
    var c1 := AddOne(a.ctr);
    var c2 := AddOne(c1);
    var c3 := AddOne(c2);
    var c4 := AddOne(c3);
    var c5 := AddOne(c4);
    var bits4, bits5 := FromReg(c5), a.lanes[5];
    a' := a.(ctr := c5);
    if srclen > 16 * 5 {
      a' := a'.(ctr := AddOne(c5));
      bits5 := FromReg(AddOne(c5));
    } else {
      if a.ek0State.NotFed? {
        bits5 := a.ek0;
        a' := a'.(ek0State := Fed0);
      }
      if a.suppUsed && srclen <= 16 * 4 && supp.off + 16 <= ghashOff {
        bits4 := dst[supp.off..supp.off + 16];
        SameSlice(dst[..], c, 0, ghashOff, supp.off, supp.off + 16);
        a' := a'.(aes4 := supp.aes, suppBusy := true);
      }
    }
    if srclen > 0 {
      Counters(base, 1 + 6 * t, a.ctr, c1, c2, c3, c4, c5, AddOne(c5));
    }
    ins := [FromReg(c1), FromReg(c2), FromReg(c3), FromReg(c4), bits4, bits5];
  }

  /** AESECB6_INIT. */
  method InitLanes(main: Aes, supp: Supplement, a: AesSide, srclen: nat, dst: array<Byte>, ghashOff: nat,
                   ghost base: nat, ghost c: seq<Byte>, ghost t: nat)
    returns (a': AesSide, ghost ins: seq<Block>)
    requires Admissible(main, base, 0, |c|) && Between(main, supp, base, c, t, a)
    requires srclen == if |c| <= 96 * t then 0 else |c| - 96 * t
    requires ghashOff <= |c| <= dst.Length && dst[..ghashOff] == c[..ghashOff]
    ensures GoodSide(main, supp, base, c, t, a') && GoodInputs(main, supp, base, c, t, a', ins)
    ensures AtStage(main, a'.aes4, a'.lanes, ins, 1)
  {
    hide GoodSide, GoodInputs, Between, XorBlock, AtStage;
    var side, bits := ChooseInputs(main, supp, a, srclen, dst, ghashOff, base, c, t);
    SideKeys(main, supp, base, c, t, side, bits);
    var k := main.keys[0];
    a' := side.(lanes := [XorBlock(bits[0], k), XorBlock(bits[1], k), XorBlock(bits[2], k), XorBlock(bits[3], k),
                          XorBlock(bits[4], side.aes4.keys[0]), XorBlock(bits[5], k)]);
    ins := bits;
    SameSide(main, supp, base, c, t, side, a', ins);
    Whitened(main, a'.aes4, a'.lanes, ins);
  }

  lemma SideKeys(main: Aes, supp: Supplement, base: nat, c: seq<Byte>, t: nat, a: AesSide, ins: seq<Block>)
    requires ValidAes(main) && CounterRoom(base, 0) && |c| * 8 < 0x8000_0000
    requires GoodSide(main, supp, base, c, t, a) && GoodInputs(main, supp, base, c, t, a, ins)
    ensures |ins| == 6 && |main.keys| == |a.aes4.keys| > 1
  {}

  lemma Whitened(main: Aes, aes4: Aes, lanes: seq<Block>, ins: seq<Block>)
    requires |lanes| == 6 && |ins| == 6 && |main.keys| == |aes4.keys| > 1
    requires forall j :: 0 <= j < 6 ==> lanes[j] == XorBlock(ins[j], LaneAes(main, aes4, j).keys[0])
    ensures AtStage(main, aes4, lanes, ins, 1)
  {}

  /** The else-branch after the lanes are through: ek0 and the supplementary block are collected. */
  method Collect(a: AesSide, srclen: nat, ghost main: Aes, ghost supp: Supplement, ghost base: nat,
                 ghost c: seq<Byte>, ghost t: nat, ghost ins: seq<Block>)
    returns (a': AesSide)
    requires ValidAes(main) && CounterRoom(base, 0) && |c| * 8 < 0x8000_0000
    requires GoodSide(main, supp, base, c, t, a) && GoodInputs(main, supp, base, c, t, a, ins)
    requires Enciphered(main, a.aes4, a.lanes, ins)
    requires srclen == if |c| <= 96 * t then 0 else |c| - 96 * t
    ensures Between(main, supp, base, c, t + 1, a') && a'.lanes == a.lanes
  {
    hide FromReg, Cipher;
    a' := a;
    if srclen < 6 * 16 {
      if a.ek0State.Fed0? {
        a' := a'.(ek0 := a.lanes[5], ek0State := Ready);
      }
      if a.suppBusy {
        a' := a'.(suppOut := a.lanes[4], suppUsed := false, suppBusy := false);
      }
    }
  }

  // ----- the GHASH side ------------------------------------------------------------------------------------

  /** Where GHASH takes its blocks from: what is left of the additional data and of the output, and
      the blocks set up for the next turn, copied or read in place from offset `at` of the output. */
  datatype Feed = Feed(aadOff: nat, aadlen: nat, off: nat, len: nat, buf: seq<Block>, direct: bool, at: nat)

  /** g blocks have been handed out. */
  ghost predicate GoodFeed(aad: seq<Byte>, c: seq<Byte>, f: Feed, g: nat) {
    Left(aad, c, g, f.aadOff, f.aadlen, f.off, f.len)
  }

  /** The feed holds the blocks g0 .. g, or points at them. */
  ghost predicate Holds(aad: seq<Byte>, c: seq<Byte>, f: Feed, g0: nat, g: nat) {
    && g0 <= g <= |AllBlocks(aad, c)| && g <= g0 + 6
    && (!f.direct ==> f.buf == AllBlocks(aad, c)[g0..g])
    && (f.direct ==> g == g0 + 6 && NumBlocks(|aad|) <= g0 && f.at == 16 * (g0 - NumBlocks(|aad|))
                     && f.at + 96 <= |c|)
  }

  /** The set-up of the next turn's GHASH blocks; finish when fewer than six are left. */
  method SetupFeed(aad: seq<Byte>, dst: array<Byte>, f: Feed, ghost c: seq<Byte>, ghost g: nat, ghost n: nat)
    returns (f': Feed, finish: bool, ghost g': nat)
    requires GoodFeed(aad, c, f, g)
    requires n <= |c| <= dst.Length && dst[..n] == c[..n] && (n == |c| || 16 * (OutBlocks(aad, g) + 6) <= n)
    ensures GoodFeed(aad, c, f', g') && Holds(aad, c, f', g, g')
    ensures OutBlocks(aad, g') <= OutBlocks(aad, g) + 6
    ensures f'.direct ==> f'.at + 96 <= n
    ensures finish == (g' < g + 6) && (finish ==> g' == |AllBlocks(aad, c)| && !f'.direct)
  {
    hide Rest, Blocks, BlockAt, NumBlocks, FullBlocks;
    if f.aadlen == 0 && f.len >= 6 * 16 {
      g' := g + 6;
      RestFacts(|aad|, g);
      SixBlocks(|c|, OutBlocks(aad, g));
      RestFacts(|aad|, g');
      f' := f.(direct := true, at := f.off, off := f.off + 96, len := f.len - 96);
      finish := false;
    } else {
      var buf, _, aadOff, aadlen, off, len := FillBlocks(aad, dst, f.aadOff, f.aadlen, f.off, f.len, c, g, 0, n);
      g' := g + |buf|;
      f' := Feed(aadOff, aadlen, off, len, buf, false, 0);
      finish := |buf| < 6;
    }
  }

  /** The blocks of the turn, read from the output when the feed points there. */
  method TakeFeed(dst: array<Byte>, f: Feed, ghost aad: seq<Byte>, ghost c: seq<Byte>, ghost g0: nat, ghost g: nat,
                  ghost n: nat)
    returns (gdata: seq<Block>)
    requires Holds(aad, c, f, g0, g)
    requires n <= |c| <= dst.Length && dst[..n] == c[..n] && (f.direct ==> f.at + 96 <= n)
    ensures gdata == AllBlocks(aad, c)[g0..g]
  {
    hide Blocks, NumBlocks, BlockAt, Rest;
    gdata := f.buf;
    if f.direct {
      OutPart(aad, c, g0, g);
      gdata := ReadSix(dst, f.at, c, g0 - NumBlocks(|aad|), 0, n);
    }
  }

  // ----- the whole pipeline ---------------------------------------------------------------------------------------

  /** The payload of turn t: up to six blocks. */
  method ApplyLanes(dst: array<Byte>, src: array<Byte>, off: nat, srclen: nat, lanes: seq<Block>,
                    ghost main: Aes, ghost base: nat, ghost p: seq<Byte>, ghost t: nat)
    returns (off': nat, srclen': nat)
    requires Admissible(main, base, 0, |p|) && |lanes| == 6
    requires off + srclen == |p| && off == (if |p| <= 96 * t then |p| else 96 * t)
    requires Progress(dst, src, p, Gctr(main, base, p), off)
    requires forall j :: 0 <= j < 6 && 16 * (6 * t + j) < |p| ==> lanes[j] == Keystream(main, base, 6 * t + j)
    modifies dst
    ensures off' + srclen' == |p| && off' == (if |p| <= 96 * (t + 1) then |p| else 96 * (t + 1))
    ensures Progress(dst, src, p, Gctr(main, base, p), off')
    ensures forall k :: |p| <= k < dst.Length ==> dst[k] == old(dst[k])
  {
    hide Keystream, Gctr, Progress;
    off', srclen' := off, srclen;
    if srclen >= 6 * 16 {
      for i := 0 to 6
        invariant off' == 96 * t + 16 * i && off' + srclen' == |p|
        invariant Progress(dst, src, p, Gctr(main, base, p), off')
        invariant forall k :: |p| <= k < dst.Length ==> dst[k] == old(dst[k])
      {
        ApplyBlock(dst, src, off', 16, lanes[i], 6 * t + i, main, base, p);
        off', srclen' := off' + 16, srclen' - 16;
      }
    } else if srclen != 0 {
      var i := 0;
      while i < 6 && srclen' >= 16
        invariant 0 <= i <= 6 && off' == 96 * t + 16 * i && off' + srclen' == |p|
        invariant Progress(dst, src, p, Gctr(main, base, p), off')
        invariant forall k :: |p| <= k < dst.Length ==> dst[k] == old(dst[k])
      {
        ApplyBlock(dst, src, off', 16, lanes[i], 6 * t + i, main, base, p);
        off', srclen', i := off' + 16, srclen' - 16, i + 1;
      }
      if i < 6 && srclen' != 0 {
        ApplyBlock(dst, src, off', srclen', lanes[i], 6 * t + i, main, base, p);
        off', srclen' := off' + srclen', 0;
      }
    }
  }

  /** The lanes that carry payload are its keystream. */
  lemma LanesAreKeystream(main: Aes, supp: Supplement, base: nat, c: seq<Byte>, t: nat, a: AesSide, ins: seq<Block>)
    requires Admissible(main, base, 0, |c|) && GoodSide(main, supp, base, c, t, a)
    requires GoodInputs(main, supp, base, c, t, a, ins) && Enciphered(main, a.aes4, a.lanes, ins)
    ensures |a.lanes| == 6
    ensures forall j :: 0 <= j < 6 && 16 * (6 * t + j) < |c| ==> a.lanes[j] == Keystream(main, base, 6 * t + j)
  {
    hide FromReg, Cipher, CounterReg;
  }

  lemma ProgressPrefix(dst: array<Byte>, src: array<Byte>, p: seq<Byte>, c: seq<Byte>, n: nat, m: nat)
    requires Progress(dst, src, p, c, n) && m <= n
    ensures n <= |c| <= dst.Length && dst[..n] == c[..n] && dst[..m] == c[..m]
  {
    assert dst[..m] == dst[..n][..m];
    assert c[..m] == c[..n][..m];
  }

  /** One turn up to the point where the lanes are through and the payload is written. */
  method Turn(main: Aes, a: AesSide, dst: array<Byte>, src: array<Byte>, off: nat, srclen: nat, f: Feed, gs: GState,
              pre: nat,
              table: array<Precompute>,
              ghost valid: bool, ghost supp: Supplement, ghost base: nat, ghost aad: seq<Byte>, ghost p: seq<Byte>,
              ghost t: nat,
              ghost ins: seq<Block>, ghost g0: nat, ghost g: nat)
    returns (a': AesSide, off': nat, srclen': nat, gs': GState, pre': nat, ghost touched: set<nat>)
    requires Admissible(main, base, |aad|, |p|)
    requires off + srclen == |p| && off == (if |p| <= 96 * t then |p| else 96 * t)
    requires Progress(dst, src, p, Gctr(main, base, p), off)
    requires AesInv(main, supp, base, Gctr(main, base, p), t, a, ins)
    requires Holds(aad, Gctr(main, base, p), f, g0, g) && (f.direct ==> f.at + 96 <= off)
    requires |AllBlocks(aad, Gctr(main, base, p))| + 1 <= table.Length
    requires valid ==> ValidTable(table, H(main), |AllBlocks(aad, Gctr(main, base, p))| + 1)
    requires Accumulated(valid, H(main), aad, Gctr(main, base, p), gs, g0, pre)
    modifies dst
    ensures off' + srclen' == |p| && off' == (if |p| <= 96 * (t + 1) then |p| else 96 * (t + 1))
    ensures Progress(dst, src, p, Gctr(main, base, p), off')
    ensures Between(main, supp, base, Gctr(main, base, p), t + 1, a')
    ensures Accumulated(valid, H(main), aad, Gctr(main, base, p), gs', g, pre') && pre' <= pre
            && touched == Span(pre', pre)
    ensures forall k :: |p| <= k < dst.Length ==> dst[k] == old(dst[k])
  {
    hide Gctr, Progress, GoodSide, GoodInputs, Between, AtStage, Enciphered, Fed, H, AllBlocks;
    ghost var c := Gctr(main, base, p);
    ProgressPrefix(dst, src, p, c, off, off);
    var gdata := TakeFeed(dst, f, aad, c, g0, g, off);
    AccumulatedMore(aad, c, g0, g);
    var lanes;
    if valid { ValidShorter(table, H(main), |AllBlocks(aad, c)| + 1, pre); }
    lanes, gs', pre', touched :=
      RunLanes(main, a.aes4, a.lanes, ins, 2, gdata, gs, valid, H(main), Regs(AllBlocks(aad, c)[..g0]), pre, table);
    a' := a.(lanes := lanes);
    SameSide(main, supp, base, c, t, a, a', ins);
    LanesAreKeystream(main, supp, base, c, t, a', ins);
    a' := Collect(a', srclen, main, supp, base, c, t, ins);
    off', srclen' := ApplyLanes(dst, src, off, srclen, lanes, main, base, p, t);
  }

  lemma SameSide(main: Aes, supp: Supplement, base: nat, c: seq<Byte>, t: nat, a: AesSide, a': AesSide, ins: seq<Block>)
    requires ValidAes(main) && CounterRoom(base, 0) && |c| * 8 < 0x8000_0000
    requires GoodSide(main, supp, base, c, t, a) && GoodInputs(main, supp, base, c, t, a, ins)
    requires a' == a.(lanes := a'.lanes)
    ensures GoodSide(main, supp, base, c, t, a') && GoodInputs(main, supp, base, c, t, a', ins)
  {
    hide FromReg, Cipher, CounterReg;
  }

  /** AESECB6_INIT followed by AESECB6_UPDATE(1). */
  method InitAndUpdate(main: Aes, supp: Supplement, a: AesSide, srclen: nat, dst: array<Byte>, ghashOff: nat,
                       ghost base: nat, ghost c: seq<Byte>, ghost t: nat)
    returns (a': AesSide, ghost ins: seq<Block>)
    requires Admissible(main, base, 0, |c|) && Between(main, supp, base, c, t, a)
    requires srclen == if |c| <= 96 * t then 0 else |c| - 96 * t
    requires ghashOff <= |c| <= dst.Length && dst[..ghashOff] == c[..ghashOff]
    ensures AesInv(main, supp, base, c, t, a', ins)
  {
    hide GoodSide, GoodInputs, Between, AtStage, UpdateLanes;
    a', ins := InitLanes(main, supp, a, srclen, dst, ghashOff, base, c, t);
    UpdateStage(main, a'.aes4, a'.lanes, ins, 1);
    AtStageLengths(main, a'.aes4, a'.lanes, ins, 1);
    ghost var before := a';
    a' := a'.(lanes := UpdateLanes(main, a'.aes4, a'.lanes, 1));
    SameSide(main, supp, base, c, t, before, a', ins);
  }

  /** Finish: the rest of the blocks and the lengths go into GHASH, the sum is reduced, the tag is
      masked and stored behind the ciphertext. */
  method FinishTag(dst: array<Byte>, ek0: Block, f: Feed, gs: GState, pre: nat, table: array<Precompute>, aadlen: nat,
                   inlen: nat,
                   ghost valid: bool, ghost main: Aes, ghost base: nat, ghost aad: seq<Byte>, ghost c: seq<Byte>,
                   ghost g0: nat)
    returns (ghost touched: set<nat>)
    requires Admissible(main, base, |aad|, |c|) && aadlen == |aad| && inlen == |c| && inlen + 16 <= dst.Length
    requires Holds(aad, c, f, g0, |AllBlocks(aad, c)|) && !f.direct && |AllBlocks(aad, c)| < g0 + 6
    requires pre <= table.Length && (valid ==> ValidTable(table, H(main), pre))
    requires Accumulated(valid, H(main), aad, c, gs, g0, pre)
    requires ek0 == Cipher(main, FromReg(base + 1))
    modifies dst
    ensures touched == Span(0, pre) && (valid ==> dst[inlen..inlen + 16] == Tag(main, base, aad, c))
    ensures forall k :: 0 <= k < dst.Length && !(inlen <= k < inlen + 16) ==> dst[k] == old(dst[k])
  {
    hide AllBlocks, Fed, Cipher, H, OneStep, XorBlock, Final, Entry, TablePower, FromReg, ToReg, GhashNist, LengthReg;
    ghost var h := H(main);
    ghost var all := AllBlocks(aad, c);
    var ac := FromReg(LengthReg(aadlen, inlen));
    var rest := f.buf + [ac];
    ghost var xs := Regs(all[..g0]);
    var g, n := gs, pre;
    touched := {};
    assert xs + Regs(rest)[..0] == xs;
    for i := 0 to |rest|
      invariant dst[..] == old(dst[..])
      invariant n == pre - i && touched == Span(n, pre) && Fed(valid, h, g, xs + Regs(rest)[..i], n)
    {
      ghost var fed := xs + Regs(rest)[..i];
      var x := ToReg(rest[i]);
      FedStep(valid, h, g, fed, n, x, table[n - 1]);
      assert fed + [x] == xs + Regs(rest)[..i + 1];
      n := n - 1;
      touched := touched + {n};
      g := OneStep(g, x, table[n]);
    }
    assert n == 0;
    WholeInput(aad, c, f.buf, g0);
    if valid { FedAll(h, g, HashInput(aad, c)); }
    var t := XorBlock(FromReg(Final(g)), ek0);
    for i := 0 to 16
      invariant forall k :: inlen <= k < inlen + i ==> dst[k] == t[k - inlen]
      invariant forall k :: 0 <= k < dst.Length && !(inlen <= k < inlen + i) ==> dst[k] == old(dst[k])
    {
      dst[inlen + i] := t[i];
    }
    assert dst[inlen..inlen + 16] == t;
  }

  /** The supplementary block, if it has not been collected on the way: it may cover the tag. */
  method FinishSupp(dst: array<Byte>, a: AesSide, supp: Supplement, ghost main: Aes, ghost base: nat,
                    ghost c: seq<Byte>,
                    ghost t: nat, ghost ins: seq<Block>)
    returns (out: Block)
    requires ValidAes(main) && CounterRoom(base, 0) && |c| * 8 < 0x8000_0000
    requires AesInv(main, supp, base, c, t, a, ins) && |c| + 16 <= dst.Length && dst[..|c|] == c
    ensures supp.Supp? ==> out == Cipher(supp.aes, dst[supp.off..supp.off + 16])
  {
    hide Cipher, XorBlock, FromReg;
    out := a.suppOut;
    if supp.Supp? {
      var aes := supp.aes;
      ghost var sample := dst[supp.off..supp.off + 16];
      if supp.off + 16 <= |c| { SameSlice(dst[..], c, 0, |c|, supp.off, supp.off + 16); }
      if a.suppUsed {
        var bits4, i;
        if !a.suppBusy {
          bits4 := XorBlock(dst[supp.off..supp.off + 16], aes.keys[0]);
          i := 1;
        } else {
          bits4 := a.lanes[4];
          assert bits4 == Stage(LaneAes(main, a.aes4, 4), ins[4], 2);
          i := 2;
        }
        while i != Rounds(aes)
          invariant 1 <= i <= Rounds(aes) && bits4 == Stage(aes, sample, i)
          decreases Rounds(aes) - i
        {
          bits4 := aes.enc(bits4, aes.keys[i]);
          i := i + 1;
        }
        out := aes.last(bits4, aes.keys[i]);
        CipherIs(aes, sample, bits4);
      }
    }
  }

  lemma CipherIs(aes: Aes, v: Block, s: Block)
    requires ValidAes(aes) && s == Stage(aes, v, Rounds(aes))
    ensures aes.last(s, aes.keys[Rounds(aes)]) == Cipher(aes, v)
  {}

  // ----- the loop -------------------------------------------------------------------------------------------------

  /** What the loop carries from turn to turn. */
  datatype Pipe = Pipe(a: AesSide, off: nat, srclen: nat, f: Feed, gs: GState, pre: nat)

  /** Before turn t: six lanes are under way, blocks g0 .. g wait to be hashed, the payload is written as far
      as turn t - 1 could. */
  ghost predicate Running(dst: array<Byte>, src: array<Byte>, main: Aes, supp: Supplement, base: nat, aad: seq<Byte>,
                          p: seq<Byte>,
                          valid: bool, s: Pipe, t: nat, ins: seq<Block>, g0: nat, g: nat)
    requires Admissible(main, base, |aad|, |p|)
    reads dst, src
  {
    var c := Gctr(main, base, p);
    && s.off + s.srclen == |p| && s.off == (if |p| <= 96 * t then |p| else 96 * t)
    && Progress(dst, src, p, c, s.off)
    && AesInv(main, supp, base, c, t, s.a, ins)
    && GoodFeed(aad, c, s.f, g) && Holds(aad, c, s.f, g0, g) && (s.f.direct ==> s.f.at + 96 <= s.off)
    && Accumulated(valid, H(main), aad, c, s.gs, g0, s.pre)
    && OutBlocks(aad, g) <= 6 * t
  }

  /** Everything before the loop: only additional data can be fed at this point. */
  method Begin(main: Aes, supp: Supplement, output: array<Byte>, input: array<Byte>, inlen: nat, ctr: Reg,
               aad: seq<Byte>,
               ghost base: nat, ghost p: seq<Byte>, ghost valid: bool)
    returns (s: Pipe, ghost ins: seq<Block>, ghost g: nat)
    requires inlen <= input.Length && inlen + 16 <= output.Length && base == ctr - ctr % LOW32 && p == input[..inlen]
    requires Admissible(main, base, |aad|, inlen) && GoodSupp(main, supp, inlen)
    ensures Running(output, input, main, supp, base, aad, p, valid, s, 0, ins, 0, g) && s.pre == Entries(|aad|, inlen)
  {
    hide Gctr, Progress, AesInv, Between, Accumulated, GoodFeed, Holds, AllBlocks, Cipher, FromReg, H;
    ghost var c := Gctr(main, base, p);
    ProgressStart(output, input, p, c);
    var ctr1: Reg := WithLowOne(ctr);
    var a := AesSide([ZERO, ZERO, ZERO, ZERO, ZERO, ZERO], ctr1, FromReg(ctr1), NotFed, main, supp.Supp?, false, ZERO);
    StartBetween(main, supp, base, c, a);
    a, ins := InitAndUpdate(main, supp, a, inlen, output, 0, base, c, 0);
    var f := Feed(0, |aad|, 0, inlen, [], false, 0);
    FeedStart(aad, c, f);
    var buf, aadOff, aadlen := FillAad(aad, 0, |aad|, 0);
    f := f.(aadOff := aadOff, aadlen := aadlen, buf := buf);
    g := |buf|;
    FeedFirst(aad, c, f, g);
    AccumulatedNothing(valid, H(main), aad, c, Entries(|aad|, inlen));
    s := Pipe(a, 0, inlen, f, EMPTY, Entries(|aad|, inlen));
  }

  /** The body of the loop: one turn, and the set-up of the next. */
  method Advance(main: Aes, supp: Supplement, output: array<Byte>, input: array<Byte>, table: array<Precompute>,
                 aad: seq<Byte>, s: Pipe,
                 ghost base: nat, ghost p: seq<Byte>, ghost valid: bool, ghost t: nat, ghost ins: seq<Block>,
                 ghost g0: nat, ghost g: nat)
    returns (s': Pipe, finish: bool, ghost ins': seq<Block>, ghost g': nat, ghost touched: set<nat>)
    requires Admissible(main, base, |aad|, |p|)
             && Running(output, input, main, supp, base, aad, p, valid, s, t, ins, g0, g)
    requires Entries(|aad|, |p|) <= table.Length && (valid ==> ValidTable(table, H(main), Entries(|aad|, |p|)))
    modifies output
    ensures Running(output, input, main, supp, base, aad, p, valid, s', t + 1, ins', g, g')
    ensures s'.pre <= s.pre && touched == Span(s'.pre, s.pre)
    ensures g' <= Entries(|aad|, |p|) && finish == (g' < g + 6)
    ensures finish ==> g' + 1 == Entries(|aad|, |p|) && !s'.f.direct && OutBlocks(aad, g) <= 6 * t
    ensures forall k :: |p| <= k < output.Length ==> output[k] == old(output[k])
  {
    hide Gctr, Progress, AesInv, Between, Accumulated, GoodFeed, Holds, AllBlocks, Cipher, FromReg, H, Span, ValidTable;
    ghost var c := Gctr(main, base, p);
    HoldsBounds(aad, c, s.f, g0, g);
    var a, off, srclen, gs, pre;
    a, off, srclen, gs, pre, touched :=
      Turn(main, s.a, output, input, s.off, s.srclen, s.f, s.gs, s.pre, table, valid, supp, base, aad, p, t, ins, g0,
        g);
    FeedOff(aad, c, s.f, g, t + 1, off);
    ProgressPrefix(output, input, p, c, off, s.f.off);
    a, ins' := InitAndUpdate(main, supp, a, srclen, output, s.f.off, base, c, t + 1);
    var f;
    f, finish, g' := SetupFeed(aad, output, s.f, c, g, off);
    HoldsBounds(aad, c, f, g, g');
    s' := Pipe(a, off, srclen, f, gs, pre);
  }

  /** ptls_fusion_aesgcm_encrypt: the entries it reads are those below the number of blocks plus one, and
      the tag is that of GCM if they hold the powers of H.  input may be output itself. */
  method Encrypt(main: Aes, table: array<Precompute>, output: array<Byte>, input: array<Byte>, inlen: nat, ctr: Reg,
                 aad: seq<Byte>, supp: Supplement)
    returns (suppOut: Block, ghost touched: set<nat>)
    requires inlen <= input.Length && inlen + 16 <= output.Length
    requires Admissible(main, ctr - ctr % LOW32, |aad|, inlen)
    requires Entries(|aad|, inlen) <= table.Length
    requires GoodSupp(main, supp, inlen)
    modifies output
    ensures output[..inlen] == Gctr(main, ctr - ctr % LOW32, old(input[..inlen]))
    ensures touched == Span(0, Entries(|aad|, inlen))
    ensures ValidTable(table, H(main), Entries(|aad|, inlen)) ==>
              output[inlen..inlen + 16] == Tag(main, ctr - ctr % LOW32, aad, output[..inlen])
    ensures forall k :: inlen + 16 <= k < output.Length ==> output[k] == old(output[k])
    ensures supp.Supp? ==> suppOut == Cipher(supp.aes, output[supp.off..supp.off + 16])
  {
    hide Gctr, Running, Cipher, Tag, H, Span, ValidTable, Entries, OutBlocks;
    ghost var base := ctr - ctr % LOW32;
    ghost var p := input[..inlen];
    ghost var n := Entries(|aad|, inlen);
    ghost var valid := ValidTable(table, H(main), n);
    var s;
    ghost var ins, g: nat := [], 0;
    s, ins, g := Begin(main, supp, output, input, inlen, ctr, aad, base, p, valid);
    touched := {};
    SpanEmpty(n);
    ghost var t: nat, g0: nat := 0, 0;
    RunningBound(output, input, main, supp, base, aad, p, valid, s, t, ins, g0, g);
    var finish := false;
    while !finish
      invariant Running(output, input, main, supp, base, aad, p, valid, s, t, ins, g0, g)
      invariant s.pre <= n && touched == Span(s.pre, n) && g < n
      invariant finish ==> t >= 1 && g + 1 == n && g < g0 + 6 && !s.f.direct && OutBlocks(aad, g0) <= 6 * (t - 1)
      invariant forall k :: inlen <= k < output.Length ==> output[k] == old(output[k])
      decreases if finish then 0 else 1 + n - g
    {
      ghost var more, g': nat, before := {}, 0, s.pre;
      s, finish, ins, g', more := Advance(main, supp, output, input, table, aad, s, base, p, valid, t, ins, g0, g);
      touched := touched + more;
      SpanJoin(s.pre, before, n);
      t, g0, g := t + 1, g, g';
      RunningBound(output, input, main, supp, base, aad, p, valid, s, t, ins, g0, g);
    }
    ghost var rest;
    suppOut, rest := Finish(main, supp, s, table, output, |aad|, inlen, input, valid, base, aad, p, t, ins, g0, g);
    touched := touched + rest;
    SpanJoin(0, s.pre, n);
  }

  lemma RunningBound(dst: array<Byte>, src: array<Byte>, main: Aes, supp: Supplement, base: nat, aad: seq<Byte>,
                     p: seq<Byte>,
                     valid: bool, s: Pipe, t: nat, ins: seq<Block>, g0: nat, g: nat)
    requires Admissible(main, base, |aad|, |p|) && Running(dst, src, main, supp, base, aad, p, valid, s, t, ins, g0, g)
    ensures g0 <= g < Entries(|aad|, |p|)
  {
    hide Gctr, Progress, AesInv, Accumulated, GoodFeed, H;
  }

  /** The label Finish: tag and supplementary block. */
  method Finish(main: Aes, supp: Supplement, s: Pipe, table: array<Precompute>, output: array<Byte>, aadlen: nat,
                inlen: nat,
                ghost input: array<Byte>, ghost valid: bool, ghost base: nat, ghost aad: seq<Byte>, ghost p: seq<Byte>,
                ghost t: nat, ghost ins: seq<Block>, ghost g0: nat, ghost g: nat)
    returns (suppOut: Block, ghost touched: set<nat>)
    requires Admissible(main, base, |aad|, |p|) && aadlen == |aad| && inlen == |p| && inlen + 16 <= output.Length
    requires Running(output, input, main, supp, base, aad, p, valid, s, t, ins, g0, g) && GoodSupp(main, supp, |p|)
    requires t >= 1 && g + 1 == Entries(|aad|, |p|) && g < g0 + 6 && !s.f.direct && OutBlocks(aad, g0) <= 6 * (t - 1)
    requires Entries(|aad|, |p|) <= table.Length && (valid ==> ValidTable(table, H(main), Entries(|aad|, |p|)))
    modifies output
    ensures output[..inlen] == Gctr(main, base, p) && touched == Span(0, s.pre)
    ensures valid ==> output[inlen..inlen + 16] == Tag(main, base, aad, output[..inlen])
    ensures forall k :: inlen + 16 <= k < output.Length ==> output[k] == old(output[k])
    ensures supp.Supp? ==> suppOut == Cipher(supp.aes, output[supp.off..supp.off + 16])
  {
    hide Gctr, Progress, AesInv, Accumulated, GoodFeed, Holds, AllBlocks, Cipher, FromReg, Tag, H, Span, ValidTable;
    ghost var c := Gctr(main, base, p);
    LastTurn(inlen, t, NumBlocks(|aad|), g0, g);
    ProgressPrefix(output, input, p, c, inlen, inlen);
    assert output[..inlen] == c;
    Ek0IsReady(main, supp, base, c, t, s.a, ins);
    AccumulatedBound(valid, H(main), aad, c, s.gs, g0, s.pre);
    if valid { ValidShorter(table, H(main), Entries(|aad|, |p|), s.pre); }
    touched := FinishTag(output, s.a.ek0, s.f, s.gs, s.pre, table, aadlen, inlen, valid, main, base, aad, c, g0);
    assert output[..inlen] == c;
    suppOut := FinishSupp(output, s.a, supp, main, base, c, t, ins);
  }

  /** _mm_insert_epi32(ctr, 1, 0) */
  function WithLowOne(ctr: Reg): (r: nat) {
    ctr - ctr % LOW32 + 1
  }

  lemma ProgressStart(dst: array<Byte>, src: array<Byte>, p: seq<Byte>, c: seq<Byte>)
    requires |c| == |p| <= dst.Length && |p| <= src.Length && src[..|p|] == p
    ensures Progress(dst, src, p, c, 0)
  {
    assert src[0..|p|] == p[0..];
  }

  lemma StartBetween(main: Aes, supp: Supplement, base: nat, c: seq<Byte>, a: AesSide)
    requires ValidAes(main) && CounterRoom(base, 0) && |c| * 8 < 0x8000_0000 && GoodSupp(main, supp, |c|)
    requires |a.lanes| == 6 && a.ctr == base + 1 && a.ek0 == FromReg(base + 1) && a.ek0State.NotFed?
    requires a.aes4 == main && a.suppUsed == supp.Supp? && !a.suppBusy
    ensures Between(main, supp, base, c, 0, a)
  {}

  lemma FeedStart(aad: seq<Byte>, c: seq<Byte>, f: Feed)
    requires f == Feed(0, |aad|, 0, |c|, [], false, 0)
    ensures GoodFeed(aad, c, f, 0)
    ensures |aad| == Rest(|aad|, 0)
  {}

  lemma FeedFirst(aad: seq<Byte>, c: seq<Byte>, f: Feed, n: nat)
    requires n == |f.buf| <= 6 && n <= NumBlocks(|aad|) && f.buf == Blocks(aad)[0..n] && !f.direct
    requires f.aadlen == Rest(|aad|, n) && (f.aadlen > 0 ==> f.aadOff == 16 * n) && f.off == 0 && f.len == |c|
    ensures GoodFeed(aad, c, f, n) && Holds(aad, c, f, 0, n) && OutBlocks(aad, n) == 0
  {
    hide Blocks;
    AadPart(aad, c, 0, n);
  }

  lemma HoldsBounds(aad: seq<Byte>, c: seq<Byte>, f: Feed, g0: nat, g: nat)
    requires Holds(aad, c, f, g0, g)
    ensures g0 <= g <= |AllBlocks(aad, c)| && g <= g0 + 6
  {}

  /** What has been handed to GHASH has been written. */
  lemma FeedOff(aad: seq<Byte>, c: seq<Byte>, f: Feed, g: nat, t: nat, off: nat)
    requires GoodFeed(aad, c, f, g) && t >= 1 && OutBlocks(aad, g) <= 6 * (t - 1)
    requires off == (if |c| <= 96 * t then |c| else 96 * t)
    ensures f.off <= off && (off == |c| || 16 * (OutBlocks(aad, g) + 6) <= off)
  {}

  /** When GHASH runs out of blocks, AES is ahead by enough for the tag mask to be ready. */
  lemma LastTurn(len: nat, t: nat, na: nat, g0: nat, all: nat)
    requires t >= 1 && all == na + NumBlocks(len) && all < g0 + 6 && (if g0 < na then 0 else g0 - na) <= 6 * (t - 1)
    ensures len + 16 <= 96 * t
  {}

  lemma Ek0IsReady(main: Aes, supp: Supplement, base: nat, c: seq<Byte>, t: nat, a: AesSide, ins: seq<Block>)
    requires ValidAes(main) && CounterRoom(base, 0) && |c| * 8 < 0x8000_0000
    requires AesInv(main, supp, base, c, t, a, ins) && t >= 1 && |c| + 16 <= 96 * t
    ensures a.ek0State.Ready? && a.ek0 == Cipher(main, FromReg(base + 1))
  {
    hide Cipher, FromReg, GoodInputs, AtStage;
  }
}
