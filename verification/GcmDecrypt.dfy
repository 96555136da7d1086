/** ptls_fusion_aesgcm_decrypt (lib/fusion.c): GHASH and the keystream run side by side over the same
    ciphertext, the tag mask and the additional data displacing payload lanes. */
module GcmDecrypt {
  import opened Common
  import opened Arith
  import opened Ghash
  import opened Gcm
  import opened GcmFeed

  // ----- the GHASH side ----------------------------------------------------------------------------------------

  /** Everything GHASH consumes: the blocks and `ac`, the block of lengths. */
  ghost function Fodder(aad: seq<Byte>, c: seq<Byte>): (bs: seq<Block>)
    requires |aad| * 8 < LOW32 && |c| * 8 < LOW32
    ensures |bs| == NumBlocks(|aad|) + NumBlocks(|c|) + 1
  {
    AllBlocks(aad, c) + [FromReg(LengthReg(|aad|, |c|))]
  }

  /** The blocks among the first g that are not `ac`. */
  ghost function Texts(aad: seq<Byte>, c: seq<Byte>, g: nat): (m: nat) {
    if g <= |AllBlocks(aad, c)| then g else |AllBlocks(aad, c)|
  }

  ghost predicate Consumed(valid: bool, h: Reg, aad: seq<Byte>, c: seq<Byte>, gs: GState, g: nat, pre: nat)
    requires |aad| * 8 < LOW32 && |c| * 8 < LOW32
  {
    var all := Fodder(aad, c);
    g <= |all| && pre == |all| - g && Fed(valid, h, gs, Regs(all[..g]), pre)
  }

  datatype Source = Source(aadOff: nat, aadlen: nat, off: nat, len: nat, hasMore: bool)

  ghost predicate GoodSource(aad: seq<Byte>, c: seq<Byte>, f: Source, g: nat) {
    && g <= |AllBlocks(aad, c)| + 1 && f.hasMore == (g <= |AllBlocks(aad, c)|)
    && Left(aad, c, Texts(aad, c, g), f.aadOff, f.aadlen, f.off, f.len)
  }

  /** The set-up of gdata: up to six blocks, `ac` once the text is exhausted. */
  method SetupGdata(aad: seq<Byte>, src: array<Byte>, f: Source, ac: Block, ghost c: seq<Byte>, ghost g: nat,
                    ghost n: nat)
    returns (f': Source, gdata: seq<Block>, aadCount: nat, ghost g': nat)
    requires |aad| * 8 < LOW32 && |c| * 8 < LOW32 && GoodSource(aad, c, f, g)
    requires ac == FromReg(LengthReg(|aad|, |c|))
    requires n <= |c| <= src.Length && src[n..|c|] == c[n..] && n <= 16 * OutBlocks(aad, Texts(aad, c, g))
    ensures GoodSource(aad, c, f', g') && |gdata| <= 6 && g' == g + |gdata|
    ensures g' == (if g + 6 <= |Fodder(aad, c)| then g + 6 else |Fodder(aad, c)|)
    ensures gdata == Fodder(aad, c)[g..g']
    ensures var m, m' := Texts(aad, c, g), Texts(aad, c, g');
            m <= m' && aadCount + OutBlocks(aad, m') == m' - m + OutBlocks(aad, m)
    ensures aadCount < 6 ==> NumBlocks(|aad|) <= Texts(aad, c, g')
  {
    hide Rest, Blocks, BlockAt, NumBlocks, FullBlocks, FromReg, LengthReg;
    ghost var all := AllBlocks(aad, c);
    ghost var m := Texts(aad, c, g);
    assert src[n..|c|] == c[n..|c|];
    RestFacts(|aad|, m);
    if f.aadlen == 0 && f.len >= 6 * 16 {
      RestFacts(|c|, OutBlocks(aad, m));
      SixBlocks(|c|, OutBlocks(aad, m));
      RestFacts(|aad|, m + 6);
      OutPart(aad, c, m, m + 6);
      gdata := ReadSix(src, f.off, c, OutBlocks(aad, m), n, |c|);
      f', aadCount, g' := f.(off := f.off + 96, len := f.len - 96), 0, g + 6;
    } else {
      var buf, count, aadOff, aadlen, off, len := FillBlocks(aad, src, f.aadOff, f.aadlen, f.off, f.len, c, m, n, |c|);
      f', gdata, aadCount, g' := f.(aadOff := aadOff, aadlen := aadlen, off := off, len := len), buf, count, g + |buf|;
      if |buf| < 6 && f.hasMore {
        gdata, g', f' := gdata + [ac], g' + 1, f'.(hasMore := false);
      }
    }
  }

  /** Consuming the blocks of one turn. */
  lemma ConsumedMore(aad: seq<Byte>, c: seq<Byte>, g: nat, g': nat)
    requires |aad| * 8 < LOW32 && |c| * 8 < LOW32 && g <= g' <= |Fodder(aad, c)|
    ensures Regs(Fodder(aad, c)[..g]) + Regs(Fodder(aad, c)[g..g']) == Regs(Fodder(aad, c)[..g'])
  {
    hide Fodder;
  }

  lemma ConsumedAll(aad: seq<Byte>, c: seq<Byte>)
    requires |aad| * 8 < LOW32 && |c| * 8 < LOW32
    ensures Regs(Fodder(aad, c)) == HashInput(aad, c)
    ensures Fodder(aad, c)[..|Fodder(aad, c)|] == Fodder(aad, c)
  {
    hide FromReg, ToReg, LengthReg, Blocks;
    RegRoundTrip(LengthReg(|aad|, |c|), ZERO);
  }

  lemma ConsumedNothing(valid: bool, h: Reg, aad: seq<Byte>, c: seq<Byte>, pre: nat)
    requires |aad| * 8 < LOW32 && |c| * 8 < LOW32 && pre == NumBlocks(|aad|) + NumBlocks(|c|) + 1
    ensures Consumed(valid, h, aad, c, EMPTY, 0, pre)
  {
    hide Blocks, FromReg, LengthReg;
    FedNothing(valid, h, pre);
    assert Regs(Fodder(aad, c)[..0]) == [];
  }

  // ----- the AES side --------------------------------------------------------------------------------------------

  /** INIT_BITS from lane `first` on: the other lanes keep what they hold. */
  method InitBits(main: Aes, lanes: seq<Block>, ctr: Reg, first: nat, ghost base: nat, ghost d: nat,
                  ghost prior: seq<Block>)
    returns (lanes': seq<Block>, ctr': Reg, ghost ins: seq<Block>)
    requires ValidAes(main) && CounterRoom(base, d + 8) && ctr == base + 1 + d
    requires AtStage(main, main, lanes, prior, 1)
    ensures AtStage(main, main, lanes', ins, 1)
    ensures first > 0 ==> ins[0] == prior[0]
    ensures forall j :: first <= j < 6 ==> ins[j] == FromReg(CounterReg(base, d + j - first))
    ensures ctr' == base + 1 + d + (if first < 6 then 6 - first else 0)
  {
    hide FromReg, XorBlock, AddOne, Pow2;
    lanes', ctr', ins := lanes, ctr, prior;
    var j := first;
    while j < 6
      invariant first <= j && (first <= 6 ==> j <= 6) && (first >= 6 ==> j == first)
      invariant AtStage(main, main, lanes', ins, 1)
      invariant first > 0 ==> ins[0] == prior[0]
      invariant ctr' == base + 1 + d + (j - first)
      invariant forall i :: first <= i < j && i < 6 ==> ins[i] == FromReg(CounterReg(base, d + i - first))
    {
      AddOneIs(base, 1 + d + j - first);
      ctr' := AddOne(ctr');
      ins := ins[j := FromReg(ctr')];
      lanes' := lanes'[j := XorBlock(FromReg(ctr'), main.keys[0])];
      j := j + 1;
    }
  }

  /** The lanes from `first` on are the keystream of the next blocks. */
  lemma LanesAreKeystream(main: Aes, base: nat, d: nat, first: nat, lanes: seq<Block>, ins: seq<Block>)
    requires CounterRoom(base, d + 8) && Enciphered(main, main, lanes, ins)
    requires forall j :: first <= j < 6 ==> ins[j] == FromReg(CounterReg(base, d + j - first))
    ensures forall j :: first <= j < 6 ==> lanes[j] == Keystream(main, base, d + j - first)
  {
    hide FromReg, Cipher, CounterReg;
  }

  /** The apply step: payload lanes from `first` on, stopping before the last, possibly partial, block. */
  method ApplyBits(dst: array<Byte>, src: array<Byte>, off: nat, len: nat, lanes: seq<Block>, first: nat,
                   ghost main: Aes, ghost base: nat, ghost c: seq<Byte>, ghost d: nat)
    returns (off': nat, len': nat, done: bool, bits0: Block, ghost d': nat)
    requires Admissible(main, base, 0, |c|) && |lanes| == 6
    requires off == 16 * d && off + len == |c|
    requires Progress(dst, src, c, Gctr(main, base, c), off)
    requires forall j :: first <= j < 6 ==> lanes[j] == Keystream(main, base, d + j - first)
    modifies dst
    ensures off' == 16 * d' && off' + len' == |c|
    ensures Progress(dst, src, c, Gctr(main, base, c), off')
    ensures forall k :: |c| <= k < dst.Length ==> dst[k] == old(dst[k])
    ensures done ==> first < 6 && len' <= 16 && d <= d' < d + 6 - first && bits0 == Keystream(main, base, d')
    ensures !done ==> d' == d + (if first < 6 then 6 - first else 0)
  {
    hide Keystream, Gctr, Progress;
    off', len', done, bits0, d' := off, len, false, lanes[0], d;
    var i := first;
    if first == 0 && len >= 6 * 16 {
      for j := 0 to 6
        invariant off' == 16 * d' && off' + len' == |c| && d' == d + j
        invariant Progress(dst, src, c, Gctr(main, base, c), off')
        invariant forall k :: |c| <= k < dst.Length ==> dst[k] == old(dst[k])
      {
        ApplyBlock(dst, src, off', 16, lanes[j], d', main, base, c);
        off', len', d' := off' + 16, len' - 16, d' + 1;
      }
    } else {
      while i < 6 && !done
        invariant first <= i && (first <= 6 ==> i <= 6) && (first >= 6 ==> i == first) && d' == d + (i - first)
        invariant off' == 16 * d' && off' + len' == |c|
        invariant done ==> i < 6 && len' <= 16 && bits0 == Keystream(main, base, d')
        invariant Progress(dst, src, c, Gctr(main, base, c), off')
        invariant forall k :: |c| <= k < dst.Length ==> dst[k] == old(dst[k])
        decreases 6 - i, !done
      {
        if len' > 16 {
          ApplyBlock(dst, src, off', 16, lanes[i], d', main, base, c);
          off', len', d' := off' + 16, len' - 16, d' + 1;
          i := i + 1;
        } else {
          bits0, done := lanes[i], true;
        }
      }
    }
  }

  // ----- the whole pipeline --------------------------------------------------------------------------------------

  /** Keystream never overtakes GHASH: payload is overwritten only after it has been hashed. */
  lemma GhashIsAhead(aad: seq<Byte>, c: seq<Byte>, g: nat, g': nat, d: nat, d': nat, first: nat, aadCount: nat)
    requires g <= |AllBlocks(aad, c)| + 1 && d <= OutBlocks(aad, Texts(aad, c, g))
    requires g' == (if g + 6 <= |AllBlocks(aad, c)| + 1 then g + 6 else |AllBlocks(aad, c)| + 1)
    requires aadCount + OutBlocks(aad, Texts(aad, c, g'))
             == Texts(aad, c, g') - Texts(aad, c, g) + OutBlocks(aad, Texts(aad, c, g))
    requires first >= aadCount && d' <= d + (if first < 6 then 6 - first else 0) && 16 * d' <= |c|
    ensures d' <= OutBlocks(aad, Texts(aad, c, g'))
  {
    hide Blocks;
  }

  /** When the keystream is finished, at most `ac` is missing from GHASH. */
  lemma OnlyLengthsMissing(aad: seq<Byte>, c: seq<Byte>, g: nat, g': nat, d: nat, d': nat, first: nat, aadCount: nat)
    requires g <= |AllBlocks(aad, c)| + 1 && d <= OutBlocks(aad, Texts(aad, c, g))
    requires g' == (if g + 6 <= |AllBlocks(aad, c)| + 1 then g + 6 else |AllBlocks(aad, c)| + 1)
    requires aadCount + OutBlocks(aad, Texts(aad, c, g'))
             == Texts(aad, c, g') - Texts(aad, c, g) + OutBlocks(aad, Texts(aad, c, g))
    requires aadCount < 6 ==> NumBlocks(|aad|) <= Texts(aad, c, g')
    requires aadCount <= first < 6 && d' < d + 6 - first && |c| <= 16 * d' + 16
    ensures g' >= |AllBlocks(aad, c)|
  {
    hide Blocks;
  }

  /** Finish: `ac` if it is still missing, then the tag. */
  method FinishTag(ek0: Block, hasMore: bool, ac: Block, gs: GState, pre: nat, table: array<Precompute>,
                   ghost valid: bool, ghost main: Aes, ghost base: nat, ghost aad: seq<Byte>, ghost c: seq<Byte>,
                   ghost g: nat)
    returns (calctag: Block, ghost touched: set<nat>)
    requires Admissible(main, base, |aad|, |c|) && ac == FromReg(LengthReg(|aad|, |c|))
    requires |AllBlocks(aad, c)| <= g && hasMore == (g <= |AllBlocks(aad, c)|)
    requires table.Length > 0 && (valid ==> ValidTable(table, H(main), 1))
    requires Consumed(valid, H(main), aad, c, gs, g, pre)
    requires ek0 == Cipher(main, FromReg(base + 1))
    ensures touched == Span(0, pre) && (valid ==> calctag == Tag(main, base, aad, c))
  {
    hide AllBlocks, Fed, Cipher, H, OneStep, XorBlock, Final, Entry, TablePower, FromReg, ToReg, GhashNist, LengthReg,
         HashInput;
    ghost var h := H(main);
    ghost var all := Fodder(aad, c);
    var g', n := gs, pre;
    touched := {};
    ConsumedAll(aad, c);
    if hasMore {
      assert n == 1;
      FedStep(valid, h, gs, Regs(all[..g]), n, ToReg(ac), table[0]);
      assert Regs(all[..g]) + [ToReg(ac)] == Regs(all);
      n := n - 1;
      touched := {n};
      g' := OneStep(gs, ToReg(ac), table[n]);
    }
    if valid { FedAll(h, g', HashInput(aad, c)); }
    calctag := XorBlock(FromReg(Final(g')), ek0);
  }

  /** One turn: gdata, lanes, payload. */
  method Turn(main: Aes, dst: array<Byte>, src: array<Byte>, off: nat, len: nat, lanes: seq<Block>, ctr: Reg,
              nondata: nat,
              f: Source, gs: GState, pre: nat, table: array<Precompute>, aad: seq<Byte>, ac: Block,
              ghost valid: bool, ghost base: nat, ghost c: seq<Byte>, ghost d: nat, ghost g: nat,
              ghost prior: seq<Block>)
    returns (lanes': seq<Block>, ctr': Reg, f': Source, gs': GState, pre': nat,
             off': nat, len': nat, done: bool, bits0: Block, ghost d': nat, ghost g': nat, ghost touched: set<nat>)
    requires Admissible(main, base, |aad|, |c|) && ac == FromReg(LengthReg(|aad|, |c|))
    requires off == 16 * d && off + len == |c| && ctr == base + 1 + d
    requires Progress(dst, src, c, Gctr(main, base, c), off)
    requires AtStage(main, main, lanes, prior, 1)
    requires nondata <= 1 && (nondata == 1 <==> g == 0) && (nondata == 1 ==> d == 0 && prior[0] == FromReg(base + 1))
    requires GoodSource(aad, c, f, g) && d <= OutBlocks(aad, Texts(aad, c, g))
    requires |AllBlocks(aad, c)| + 1 <= table.Length && (valid ==> ValidTable(table, H(main), |AllBlocks(aad, c)| + 1))
    requires Consumed(valid, H(main), aad, c, gs, g, pre)
    modifies dst
    ensures off' == 16 * d' && off' + len' == |c|
    ensures Progress(dst, src, c, Gctr(main, base, c), off')
    ensures forall k :: |c| <= k < dst.Length ==> dst[k] == old(dst[k])
    ensures |lanes'| == 6 && (nondata == 1 ==> lanes'[0] == Cipher(main, FromReg(base + 1)))
    ensures GoodSource(aad, c, f', g') && Consumed(valid, H(main), aad, c, gs', g', pre')
    ensures pre' <= pre && touched == Span(pre', pre)
    ensures g <= g' && d <= d' && 0 < g' && (g < g' || d < d' || done)
    ensures done ==> len' <= 16 && bits0 == Keystream(main, base, d') && |AllBlocks(aad, c)| <= g'
    ensures !done ==> ctr' == base + 1 + d' && d' <= OutBlocks(aad, Texts(aad, c, g'))
  {
    hide Gctr, Progress, AtStage, Enciphered, Fed, H, AllBlocks, Keystream, Cipher, FromReg, LengthReg, Left, Regs,
         OutBlocks;
    ProgressSource(dst, src, c, Gctr(main, base, c), off);
    var gdata, aadCount;
    f', gdata, aadCount, g' := SetupGdata(aad, src, f, ac, c, g, off);
    var first := nondata + aadCount;
    ghost var ins;
    lanes', ctr', ins := InitBits(main, lanes, ctr, first, base, d, prior);
    ConsumedMore(aad, c, g, g');
    if valid { ValidShorter(table, H(main), |AllBlocks(aad, c)| + 1, pre); }
    lanes', gs', pre', touched :=
      RunLanes(main, main, lanes', ins, 1, gdata, gs, valid, H(main), Regs(Fodder(aad, c)[..g]), pre, table);
    FirstLane(main, lanes', ins);
    LanesAreKeystream(main, base, d, first, lanes', ins);
    off', len', done, bits0, d' := ApplyBits(dst, src, off, len, lanes', first, main, base, c, d);
    if done {
      OnlyLengthsMissing(aad, c, g, g', d, d', first, aadCount);
    } else {
      GhashIsAhead(aad, c, g, g', d, d', first, aadCount);
    }
  }

  lemma FirstLane(main: Aes, lanes: seq<Block>, ins: seq<Block>)
    requires Enciphered(main, main, lanes, ins)
    ensures |lanes| == 6 && |ins| == 6 && lanes[0] == Cipher(main, ins[0])
  {
    hide Cipher;
    assert lanes[0] == Cipher(LaneAes(main, main, 0), ins[0]);
  }

  lemma ProgressSource(dst: array<Byte>, src: array<Byte>, p: seq<Byte>, c: seq<Byte>, n: nat)
    requires Progress(dst, src, p, c, n)
    ensures n <= |p| <= src.Length && |p| <= dst.Length && src[n..|p|] == p[n..]
  {}

  /** ptls_fusion_aesgcm_decrypt, with the same entries as encryption.  input may be output itself. */
  method Decrypt(main: Aes, table: array<Precompute>, output: array<Byte>, input: array<Byte>, inlen: nat, ctr: Reg,
                 aad: seq<Byte>, tag: Block)
    returns (ok: bool, ghost touched: set<nat>)
    requires inlen <= input.Length && inlen <= output.Length
    requires Admissible(main, ctr, |aad|, inlen)
    requires Entries(|aad|, inlen) <= table.Length
    modifies output
    ensures output[..inlen] == Gctr(main, ctr, old(input[..inlen]))
    ensures touched == Span(0, Entries(|aad|, inlen))
    ensures ValidTable(table, H(main), Entries(|aad|, inlen))
            ==> ok == (tag == Tag(main, ctr, aad, old(input[..inlen])))
    ensures forall k :: inlen <= k < output.Length ==> output[k] == old(output[k])
  {
    hide Gctr, Progress, AtStage, Consumed, GoodSource, AllBlocks, Cipher, FromReg, Tag, H, Texts, OutBlocks,
         Keystream, LengthReg, Span;
    ghost var base: nat := ctr;
    ghost var c := input[..inlen];
    ghost var p := Gctr(main, base, c);
    ghost var valid := ValidTable(table, H(main), Entries(|aad|, inlen));
    ProgressStart(output, input, c, p);
    var ac := FromReg(LengthReg(|aad|, inlen));
    var ctr1 := AddOne(ctr);
    AddOneIs(base, 0);
    var lanes: seq<Block> := [XorBlock(FromReg(ctr1), main.keys[0]), ZERO, ZERO, ZERO, ZERO, ZERO];
    ghost var prior: seq<Block> := Unwhitened(main, lanes);
    prior := prior[0 := FromReg(ctr1)];
    FirstLanes(main, lanes, prior, ctr1);
    var nondata, ek0, bits0, done := 1, ZERO, ZERO, false;
    var f := Source(0, |aad|, 0, inlen, true);
    SourceStart(aad, c, f);
    var off: nat, len: nat := 0, inlen;
    var gs, pre: nat := EMPTY, Entries(|aad|, inlen);
    touched := {};
    SpanEmpty(pre);
    ConsumedNothing(valid, H(main), aad, c, pre);
    ghost var d: nat, g: nat := 0, 0;
    while !done
      invariant off == 16 * d && off + len == inlen
      invariant Progress(output, input, c, p, off)
      invariant forall k :: inlen <= k < output.Length ==> output[k] == old(output[k])
      invariant !done ==> ctr1 == base + 1 + d && AtStage(main, main, lanes, prior, 1)
      invariant |prior| == 6 && nondata <= 1 && (nondata == 1 <==> g == 0)
                && (nondata == 1 ==> !done && d == 0 && prior[0] == FromReg(base + 1))
      invariant nondata == 0 ==> ek0 == Cipher(main, FromReg(base + 1))
      invariant GoodSource(aad, c, f, g) && Consumed(valid, H(main), aad, c, gs, g, pre)
      invariant pre <= Entries(|aad|, inlen) && touched == Span(pre, Entries(|aad|, inlen))
      invariant g <= |AllBlocks(aad, c)| + 1
      invariant !done ==> d <= OutBlocks(aad, Texts(aad, c, g))
      invariant done ==> len <= 16 && bits0 == Keystream(main, base, d) && |AllBlocks(aad, c)| <= g
      decreases !done, |AllBlocks(aad, c)| + 1 - g + inlen - d
    {
      ghost var more, before := {}, pre;
      lanes, ctr1, f, gs, pre, off, len, done, bits0, d, g, more :=
        Turn(main, output, input, off, len, lanes, ctr1, nondata, f, gs, pre, table, aad, ac, valid, base, c, d, g,
          prior);
      touched := touched + more;
      SpanJoin(pre, before, Entries(|aad|, inlen));
      if nondata == 1 { ek0 := lanes[0]; }
      nondata := 0;
      prior := Unwhitened(main, lanes);
      SourceBound(aad, c, f, g);
    }
    ApplyBlock(output, input, off, len, bits0, d, main, base, c);
    ProgressDone(output, input, c, p);
    SourceMore(aad, c, f, g);
    if valid { ValidShorter(table, H(main), Entries(|aad|, inlen), 1); }
    var calctag;
    ghost var rest;
    calctag, rest := FinishTag(ek0, f.hasMore, ac, gs, pre, table, valid, main, base, aad, c, g);
    touched := touched + rest;
    SpanJoin(0, pre, Entries(|aad|, inlen));
    ok := calctag == tag;
  }

  ghost function Unwhitened(main: Aes, lanes: seq<Block>): (ins: seq<Block>)
    requires |main.keys| >= 1 && |lanes| == 6
    ensures |ins| == 6 && AtStage(main, main, lanes, ins, 1)
  {
    seq(6, j requires 0 <= j < 6 => Unwhiten(main, lanes[j]))
  }

  lemma FirstLanes(main: Aes, lanes: seq<Block>, prior: seq<Block>, ctr: Reg)
    requires |main.keys| >= 1 && |lanes| == 6 && lanes[0] == XorBlock(FromReg(ctr), main.keys[0])
    requires prior == Unwhitened(main, lanes)[0 := FromReg(ctr)]
    ensures AtStage(main, main, lanes, prior, 1) && prior[0] == FromReg(ctr)
  {
    hide FromReg, XorBlock;
  }

  lemma SourceStart(aad: seq<Byte>, c: seq<Byte>, f: Source)
    requires f == Source(0, |aad|, 0, |c|, true)
    ensures GoodSource(aad, c, f, 0)
  {
    hide Blocks;
  }

  lemma SourceBound(aad: seq<Byte>, c: seq<Byte>, f: Source, g: nat)
    requires GoodSource(aad, c, f, g)
    ensures g <= |AllBlocks(aad, c)| + 1
  {}

  lemma SourceMore(aad: seq<Byte>, c: seq<Byte>, f: Source, g: nat)
    requires GoodSource(aad, c, f, g)
    ensures f.hasMore == (g <= |AllBlocks(aad, c)|)
  {}

  lemma ProgressStart(dst: array<Byte>, src: array<Byte>, p: seq<Byte>, c: seq<Byte>)
    requires |c| == |p| <= dst.Length && |p| <= src.Length && src[..|p|] == p
    ensures Progress(dst, src, p, c, 0)
  {
    assert src[0..|p|] == p[0..];
  }

  lemma ProgressDone(dst: array<Byte>, src: array<Byte>, p: seq<Byte>, c: seq<Byte>)
    requires Progress(dst, src, p, c, |p|)
    ensures dst[..|p|] == c
  {}
}
