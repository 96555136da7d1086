/** AES-GCM of NIST SP 800-38D (sections 6.4, 6.5, 7.1 and 7.2) over an arbitrary block cipher, and
    the parts of lib/fusion.c shared by encryption and decryption. */
module Gcm {
  import opened Common
  import opened Arith
  import opened Gf2
  import opened Ghash

  // ----- bytes and blocks ------------------------------------------------------------------------------

  function XorByte(a: Byte, b: Byte): (r: Byte) {
    assert Pow2(8) == 256;
    XorBound(a, b, 8);
    Xor(a, b)
  }

  type Block = b: seq<Byte> | |b| == 16 witness [0, 0, 0, 0, 0, 0, 0, 0, 0, 0, 0, 0, 0, 0, 0, 0]

  const ZERO: Block := [0, 0, 0, 0, 0, 0, 0, 0, 0, 0, 0, 0, 0, 0, 0, 0]

  function XorBlock(a: Block, b: Block): (r: Block) {
    seq(16, i requires 0 <= i < 16 => XorByte(a[i], b[i]))
  }

  lemma XorBlockCancel(a: Block, b: Block)
    ensures XorBlock(XorBlock(a, b), b) == a
  {
    forall i | 0 <= i < 16
      ensures XorBlock(XorBlock(a, b), b)[i] == a[i]
    {
      XorCancel(a[i], b[i]);
    }
  }

  /** loadn: fewer than 16 bytes are completed with zeros. */
  function Pad(s: seq<Byte>): (b: Block)
    requires |s| <= 16
    ensures s <= b
  {
    s + ZERO[|s|..]
  }

  // ----- big-endian numbers ------------------------------------------------------------------------------

  /** The bytes of a block as a big-endian number: what a load followed by bswap8 leaves in a
      register. */
  function BigEndian(s: seq<Byte>): (n: nat) {
    if s == [] then 0 else 256 * BigEndian(s[..|s| - 1]) + s[|s| - 1]
  }

  lemma {:induction false} BigEndianBound(s: seq<Byte>)
    ensures BigEndian(s) < Pow2(8 * |s|)
  {
    if s != [] {
      BigEndianBound(s[..|s| - 1]);
      assert Pow2(8) == 256;
      Pow2Add(8 * (|s| - 1), 8);
    }
  }

  function ToReg(b: Block): (r: Reg) {
    BigEndianBound(b);
    BigEndian(b)
  }

  /** The k lowest bytes of n, most significant first. */
  function Bytes(n: nat, k: nat): (s: seq<Byte>)
    ensures |s| == k
  {
    if k == 0 then [] else Bytes(n / 256, k - 1) + [n % 256]
  }

  function FromReg(r: Reg): (b: Block) {
    Bytes(r, 16)
  }

  lemma {:induction false} BytesRoundTrip(s: seq<Byte>)
    ensures Bytes(BigEndian(s), |s|) == s
  {
    if s != [] { BytesRoundTrip(s[..|s| - 1]); }
  }

  /** Loading a stored register gives it back, and the other way round. */
  lemma {:induction false} NumberRoundTrip(n: nat, k: nat)
    requires n < Pow2(8 * k)
    ensures BigEndian(Bytes(n, k)) == n
  {
    if k > 0 {
      assert Pow2(8) == 256;
      Pow2Add(8 * (k - 1), 8);
      NumberRoundTrip(n / 256, k - 1);
      assert Bytes(n, k)[..k - 1] == Bytes(n / 256, k - 1);
    }
  }

  lemma RegRoundTrip(r: Reg, b: Block)
    ensures ToReg(FromReg(r)) == r && FromReg(ToReg(b)) == b
  {
    NumberRoundTrip(r, 16);
    BytesRoundTrip(b);
  }

  // ----- the block cipher ------------------------------------------------------------------------------------

  /** AES as expanded keys and two arbitrary round functions (aesenc, aesenclast). */
  datatype Aes = Aes(keys: seq<Block>, enc: (Block, Block) -> Block, last: (Block, Block) -> Block)

  /** ctx->ecb.rounds is 10 or 14. */
  ghost predicate ValidAes(aes: Aes) {
    |aes.keys| == 11 || |aes.keys| == 15
  }

  function Rounds(aes: Aes): (r: nat)
    requires |aes.keys| > 0
  {
    |aes.keys| - 1
  }

  /** The state of a block that has gone through whitening and the rounds 1 .. i - 1. */
  ghost function Stage(aes: Aes, v: Block, i: nat): (s: Block)
    requires 1 <= i <= |aes.keys|
  {
    if i == 1 then XorBlock(v, aes.keys[0]) else aes.enc(Stage(aes, v, i - 1), aes.keys[i - 1])
  }

  /** aesecb_encrypt */
  ghost function Cipher(aes: Aes, v: Block): (c: Block)
    requires ValidAes(aes)
  {
    aes.last(Stage(aes, v, Rounds(aes)), aes.keys[Rounds(aes)])
  }

  /** Every register content is some block after whitening. */
  ghost function Unwhiten(aes: Aes, s: Block): (v: Block)
    requires |aes.keys| >= 1
    ensures Stage(aes, v, 1) == s
  {
    XorBlockCancel(s, aes.keys[0]);
    XorBlock(s, aes.keys[0])
  }

  // ----- counters ---------------------------------------------------------------------------------------------

  const LOW32: nat := 0x1_0000_0000

  /** inc32 of section 6.2: only the low 32 bits count. */
  function Inc32(c: Reg): (r: nat) {
    c - c % LOW32 + (c + 1) % LOW32
  }

  /** base has the IV in its upper 96 bits and room for n in the lower 32. */
  ghost predicate CounterRoom(base: nat, n: nat) {
    base % LOW32 == 0 && base + LOW32 <= Pow2(FULL) && n < LOW32
  }

  lemma Inc32Room(base: nat, n: nat)
    requires CounterRoom(base, n + 1)
    ensures base + n + 1 < Pow2(FULL) && Inc32(base + n) == base + n + 1
  {
    hide Pow2;
    var q := base / LOW32;
    DivModUnique(base + n, LOW32, q, n);
    DivModUnique(base + n + 1, LOW32, q, n + 1);
  }

  /** The counter of payload block m: inc32 applied m + 1 times to J0. */
  ghost function CounterReg(base: nat, m: nat): (r: Reg)
    requires CounterRoom(base, m + 2)
    ensures r == base + 2 + m
  {
    Inc32Room(base, m + 1);
    if m == 0 then Inc32(base + 1) else Inc32(CounterReg(base, m - 1))
  }

  /** _mm_add_epi64(ctr, one8): one is added to the low lane. */
  function AddOne(ctr: Reg): (r: Reg) {
    Join(Hi(ctr), (Lo(ctr) + 1) % Pow2(HALF))
  }

  lemma AddOneIs(base: nat, n: nat)
    requires CounterRoom(base, n + 1)
    ensures base + n < Pow2(FULL) && AddOne(base + n) == base + n + 1
  {
    Powers();
    hide Pow2;
    var c: Reg := base + n;
    assert c % LOW32 == n by { DivModUnique(c, LOW32, base / LOW32, n); }
    LowLane(c, Hi(c), Lo(c));
    hide Hi, Lo;
    ModSmall(Lo(c) + 1, Pow2(HALF));
  }

  /** No carry leaves the low lane while the low 32 bits have room. */
  lemma LowLane(c: nat, hi: nat, lo: nat)
    requires c == hi * 0x1_0000_0000_0000_0000 + lo && c % LOW32 < LOW32 - 1 && lo < 0x1_0000_0000_0000_0000
    ensures lo + 1 < 0x1_0000_0000_0000_0000
  {
    if lo + 1 == 0x1_0000_0000_0000_0000 {
      DivModUnique(c, LOW32, hi * LOW32 + LOW32 - 1, LOW32 - 1);
    }
  }

  // ----- the specification --------------------------------------------------------------------------------------

  ghost function H(aes: Aes): (h: Reg)
    requires ValidAes(aes)
  {
    ToReg(Cipher(aes, ZERO))
  }

  ghost function Keystream(aes: Aes, base: nat, m: nat): (b: Block)
    requires ValidAes(aes) && CounterRoom(base, m + 2)
  {
    Cipher(aes, FromReg(CounterReg(base, m)))
  }

  /** GCTR of section 6.5. */
  ghost function Gctr(aes: Aes, base: nat, p: seq<Byte>): (c: seq<Byte>)
    requires ValidAes(aes) && CounterRoom(base, |p| / 16 + 2)
    ensures |c| == |p|
  {
    seq(|p|, k requires 0 <= k < |p| => XorByte(p[k], Keystream(aes, base, k / 16)[k % 16]))
  }

  function NumBlocks(n: nat): (k: nat) {
    (n + 15) / 16
  }

  /** Block i of s, the last one completed with zeros. */
  function BlockAt(s: seq<Byte>, i: nat): (b: Block)
    requires i < NumBlocks(|s|)
  {
    if 16 * i + 16 <= |s| then s[16 * i..16 * i + 16] else Pad(s[16 * i..])
  }

  function Blocks(s: seq<Byte>): (bs: seq<Block>)
    ensures |bs| == NumBlocks(|s|)
    ensures forall i :: 0 <= i < |bs| ==> bs[i] == BlockAt(s, i)
  {
    seq(NumBlocks(|s|), i requires 0 <= i < NumBlocks(|s|) => BlockAt(s, i))
  }

  /** The bit lengths of the additional data and of the payload, 64 bits each. */
  function LengthReg(aadlen: nat, len: nat): (r: Reg)
    requires aadlen * 8 < LOW32 && len * 8 < LOW32
  {
    Powers();
    Join(aadlen * 8, len * 8)
  }

  /** What GHASH runs over: the padded additional data, the padded ciphertext, the lengths. */
  ghost function HashInput(aad: seq<Byte>, c: seq<Byte>): (xs: seq<Reg>)
    requires |aad| * 8 < LOW32 && |c| * 8 < LOW32
    ensures |xs| == NumBlocks(|aad|) + NumBlocks(|c|) + 1
  {
    Regs(Blocks(aad) + Blocks(c)) + [LengthReg(|aad|, |c|)]
  }

  ghost function Regs(bs: seq<Block>): (rs: seq<Reg>)
    ensures |rs| == |bs| && forall i :: 0 <= i < |bs| ==> rs[i] == ToReg(bs[i])
  {
    seq(|bs|, i requires 0 <= i < |bs| => ToReg(bs[i]))
  }

  ghost function Tag(aes: Aes, base: nat, aad: seq<Byte>, c: seq<Byte>): (t: Block)
    requires ValidAes(aes) && CounterRoom(base, 1) && |aad| * 8 < LOW32 && |c| * 8 < LOW32
  {
    XorBlock(FromReg(GhashNist(H(aes), HashInput(aad, c))), Cipher(aes, FromReg(base + 1)))
  }

  /** What both directions demand: the bit lengths fit an int, and base holds an IV above 32 zero
      bits, so that the block counter stays in its low 32 bits. */
  ghost predicate Admissible(aes: Aes, base: nat, aadlen: nat, len: nat) {
    && ValidAes(aes)
    && aadlen * 8 < 0x8000_0000 && len * 8 < 0x8000_0000
    && CounterRoom(base, 0)
  }

  /** Encryption and decryption are the same keystream. */
  lemma GctrInvolutive(aes: Aes, base: nat, p: seq<Byte>)
    requires ValidAes(aes) && CounterRoom(base, |p| / 16 + 2)
    ensures Gctr(aes, base, Gctr(aes, base, p)) == p
  {
    var c := Gctr(aes, base, p);
    forall k | 0 <= k < |p|
      ensures Gctr(aes, base, c)[k] == p[k]
    {
      XorCancel(p[k], Keystream(aes, base, k / 16)[k % 16]);
    }
  }

  // ----- the table of powers -----------------------------------------------------------------------------------------

  /** The first n entries of ptls_fusion_aesgcm_context: table[k] holds power k + 1 of H. */
  ghost predicate ValidTable(table: array<Precompute>, h: Reg, n: nat)
    reads table
  {
    n <= table.Length && forall k :: 0 <= k < n ==> table[k] == Entry(TablePower(h, k))
  }

  lemma ValidShorter(table: array<Precompute>, h: Reg, n: nat, m: nat)
    requires ValidTable(table, h, n) && m <= n
    ensures ValidTable(table, h, m)
  {}

  /** The entries a message uses: one for each block, and one for the block of lengths. */
  function Entries(aadlen: nat, len: nat): (n: nat) {
    NumBlocks(aadlen) + NumBlocks(len) + 1
  }

  /** The entries from lo up to, but not including, hi. */
  ghost function Span(lo: nat, hi: nat): (s: set<nat>)
    decreases hi - lo
  {
    if lo >= hi then {} else {lo} + Span(lo + 1, hi)
  }

  lemma {:induction false} InSpan(lo: nat, hi: nat, k: nat)
    ensures k in Span(lo, hi) <==> lo <= k < hi
    decreases hi - lo
  {
    if lo < hi { InSpan(lo + 1, hi, k); }
  }

  lemma SpanEmpty(n: nat)
    ensures Span(n, n) == {}
  {}

  lemma {:induction false} SpanJoin(lo: nat, mid: nat, hi: nat)
    requires lo <= mid <= hi
    ensures Span(mid, hi) + Span(lo, mid) == Span(lo, hi)
    decreases mid - lo
  {
    if lo < mid { SpanJoin(lo + 1, mid, hi); }
  }

  /** aesgcm_calc_ghash_cnt */
  function GhashCount(capacity: nat): (n: nat)
    ensures n >= 2
  {
    (capacity + 15) / 16 + 2
  }

  /** The table is long enough for any split of the capacity between additional data and payload. */
  lemma CountSuffices(capacity: nat, aadlen: nat, len: nat)
    requires aadlen + len <= capacity
    ensures Entries(aadlen, len) <= GhashCount(capacity)
  {}

  /** ptls_fusion_aesgcm_new: one gfmul per entry. */
  method NewTable(aesOfZero: Block, capacity: nat) returns (table: array<Precompute>)
    ensures fresh(table) && table.Length == GhashCount(capacity)
    ensures ValidTable(table, ToReg(aesOfZero), table.Length)
  {
    hide Gfmul, TransformH, TablePower, Entry;
    var n := GhashCount(capacity);
    var h := ToReg(aesOfZero);
    FirstPower(h);
    table := new Precompute[n](_ => Entry(TransformH(h)));
    var count := 1;
    while count < n
      invariant 1 <= count <= n
      invariant forall k :: 0 <= k < count ==> table[k] == Entry(TablePower(h, k))
    {
      NextPower(h, count);
      EntryKeeps(TablePower(h, count - 1));
      EntryKeeps(TablePower(h, 0));
      table[count] := Entry(Gfmul(table[count - 1].h, table[0].h));
      count := count + 1;
    }
  }

  lemma FirstPower(h: Reg)
    ensures TablePower(h, 0) == TransformH(h)
  {}

  lemma NextPower(h: Reg, k: nat)
    requires k > 0
    ensures TablePower(h, k) == Gfmul(TablePower(h, k - 1), TablePower(h, 0))
  {}

  lemma EntryKeeps(t: Reg)
    ensures Entry(t).h == t
  {}

  // ----- running GHASH and AES side by side --------------------------------------------------------------------------

  /** The blocks fed so far are accumulated against the powers from `pre` up, if the table is `valid`. */
  ghost predicate Fed(valid: bool, h: Reg, g: GState, xs: seq<Reg>, pre: nat) {
    valid ==> Sum(g) == PowerSum(h, xs, pre)
  }

  lemma FedNothing(valid: bool, h: Reg, pre: nat)
    ensures Fed(valid, h, EMPTY, [], pre)
  {
    hide Sum;
    EmptySum();
  }

  /** gfmul_onestep with --ghash_precompute. */
  lemma FedStep(valid: bool, h: Reg, g: GState, xs: seq<Reg>, pre: nat, x: Reg, e: Precompute)
    requires pre > 0 && Fed(valid, h, g, xs, pre) && (valid ==> e == Entry(TablePower(h, pre - 1)))
    ensures Fed(valid, h, OneStep(g, x, e), xs + [x], pre - 1)
  {
    hide Sum, OneStep, Xor, Clmul, TablePower;
    if valid {
      EntryKeeps(TablePower(h, pre - 1));
      OneStepAdds(g, x, e);
      assert (xs + [x])[..|xs|] == xs;
    }
  }

  /** The key set of each of the six lanes: lane 4 may run on the supplementary key. */
  ghost function LaneAes(main: Aes, aes4: Aes, j: nat): (a: Aes) {
    if j == 4 then aes4 else main
  }

  /** All lanes are at stage i of encrypting their inputs. */
  ghost predicate AtStage(main: Aes, aes4: Aes, lanes: seq<Block>, ins: seq<Block>, i: nat) {
    && |lanes| == 6 && |ins| == 6 && 1 <= i <= |main.keys| && |aes4.keys| == |main.keys|
    && forall j :: 0 <= j < 6 ==> lanes[j] == Stage(LaneAes(main, aes4, j), ins[j], i)
  }

  /** AESECB6_UPDATE */
  function UpdateLanes(main: Aes, aes4: Aes, lanes: seq<Block>, i: nat): (r: seq<Block>)
    requires |lanes| == 6 && i < |main.keys| && i < |aes4.keys|
  {
    var k := main.keys[i];
    [main.enc(lanes[0], k), main.enc(lanes[1], k), main.enc(lanes[2], k), main.enc(lanes[3], k),
     aes4.enc(lanes[4], aes4.keys[i]), main.enc(lanes[5], k)]
  }

  /** AESECB6_FINAL */
  function FinalLanes(main: Aes, aes4: Aes, lanes: seq<Block>, i: nat): (r: seq<Block>)
    requires |lanes| == 6 && i < |main.keys| && i < |aes4.keys|
  {
    var k := main.keys[i];
    [main.last(lanes[0], k), main.last(lanes[1], k), main.last(lanes[2], k), main.last(lanes[3], k),
     aes4.last(lanes[4], aes4.keys[i]), main.last(lanes[5], k)]
  }

  lemma UpdateStage(main: Aes, aes4: Aes, lanes: seq<Block>, ins: seq<Block>, i: nat)
    requires AtStage(main, aes4, lanes, ins, i) && i < |main.keys|
    ensures AtStage(main, aes4, UpdateLanes(main, aes4, lanes, i), ins, i + 1)
  {
    var r := UpdateLanes(main, aes4, lanes, i);
    forall j | 0 <= j < 6
      ensures r[j] == Stage(LaneAes(main, aes4, j), ins[j], i + 1)
    {
      assert lanes[j] == Stage(LaneAes(main, aes4, j), ins[j], i);
    }
  }

  ghost predicate Enciphered(main: Aes, aes4: Aes, lanes: seq<Block>, ins: seq<Block>) {
    && |lanes| == 6 && |ins| == 6 && ValidAes(main) && ValidAes(aes4)
    && forall j :: 0 <= j < 6 ==> lanes[j] == Cipher(LaneAes(main, aes4, j), ins[j])
  }

  lemma FinalStage(main: Aes, aes4: Aes, lanes: seq<Block>, ins: seq<Block>)
    requires ValidAes(main) && AtStage(main, aes4, lanes, ins, Rounds(main))
    ensures Enciphered(main, aes4, FinalLanes(main, aes4, lanes, Rounds(main)), ins)
  {
    var r := FinalLanes(main, aes4, lanes, Rounds(main));
    forall j | 0 <= j < 6
      ensures r[j] == Cipher(LaneAes(main, aes4, j), ins[j])
    {
      assert lanes[j] == Stage(LaneAes(main, aes4, j), ins[j], Rounds(main));
    }
  }

  /** One turn of the pipeline: from round `start` on, each of the first rounds is followed by one
      GHASH step; the table index walks down over the entries it reads. */
  method RunLanes(main: Aes, aes4: Aes, lanes: seq<Block>, ghost ins: seq<Block>, start: nat,
                  gdata: seq<Block>, g: GState, ghost valid: bool, ghost h: Reg, ghost xs: seq<Reg>, pre: nat,
                  table: array<Precompute>)
    returns (lanes': seq<Block>, g': GState, pre': nat, ghost touched: set<nat>)
    requires ValidAes(main) && 1 <= start <= 2 && AtStage(main, aes4, lanes, ins, start)
    requires |gdata| <= 6 && |gdata| <= pre <= table.Length
    requires (valid ==> ValidTable(table, h, pre)) && Fed(valid, h, g, xs, pre)
    ensures Enciphered(main, aes4, lanes', ins)
    ensures pre' == pre - |gdata| && touched == Span(pre', pre) && Fed(valid, h, g', xs + Regs(gdata), pre')
  {
    hide Fed, OneStep, AtStage, UpdateLanes, FinalLanes, Enciphered, Entry, TablePower;
    AtStageLengths(main, aes4, lanes, ins, start);
    lanes', g', pre', touched := lanes, g, pre, {};
    var i := start;
    assert xs + Regs(gdata)[..0] == xs;
    while i < start + |gdata|
      invariant start <= i <= start + |gdata|
      invariant |lanes'| == 6 && AtStage(main, aes4, lanes', ins, i)
      invariant pre' == pre - (i - start) && touched == Span(pre', pre)
                && Fed(valid, h, g', xs + Regs(gdata)[..i - start], pre')
    {
      UpdateStage(main, aes4, lanes', ins, i);
      lanes' := UpdateLanes(main, aes4, lanes', i);
      AtStageLengths(main, aes4, lanes', ins, i + 1);
      ghost var fed := xs + Regs(gdata)[..i - start];
      var x := ToReg(gdata[i - start]);
      FedStep(valid, h, g', fed, pre', x, table[pre' - 1]);
      assert fed + [x] == xs + Regs(gdata)[..i + 1 - start];
      pre' := pre' - 1;
      touched := touched + {pre'};
      g' := OneStep(g', x, table[pre']);
      i := i + 1;
    }
    assert Regs(gdata)[..|gdata|] == Regs(gdata);
    while i < Rounds(main)
      invariant start + |gdata| <= i <= Rounds(main)
      invariant |lanes'| == 6 && AtStage(main, aes4, lanes', ins, i)
    {
      UpdateStage(main, aes4, lanes', ins, i);
      lanes' := UpdateLanes(main, aes4, lanes', i);
      AtStageLengths(main, aes4, lanes', ins, i + 1);
      i := i + 1;
    }
    FinalStage(main, aes4, lanes', ins);
    lanes' := FinalLanes(main, aes4, lanes', i);
  }

  lemma AtStageLengths(main: Aes, aes4: Aes, lanes: seq<Block>, ins: seq<Block>, i: nat)
    requires AtStage(main, aes4, lanes, ins, i)
    ensures |lanes| == 6 && |ins| == 6 && |aes4.keys| == |main.keys| && 1 <= i <= |main.keys|
  {}

  // ----- applying the keystream --------------------------------------------------------------------------------------

  /** A store, or storen for n below 16, of src xor bits.  src may be dst itself. */
  method StoreXor(dst: array<Byte>, src: array<Byte>, off: nat, n: nat, bits: Block)
    requires n <= 16 && off + n <= dst.Length && off + n <= src.Length
    modifies dst
    ensures forall k :: off <= k < off + n ==> dst[k] == XorByte(old(src[k]), bits[k - off])
    ensures forall k :: 0 <= k < dst.Length && !(off <= k < off + n) ==> dst[k] == old(dst[k])
  {
    hide XorByte;
    for i := 0 to n
      invariant forall k :: off <= k < off + i ==> dst[k] == XorByte(old(src[k]), bits[k - off])
      invariant forall k :: 0 <= k < dst.Length && !(off <= k < off + i) ==> dst[k] == old(dst[k])
      invariant forall k :: off + i <= k < src.Length ==> src[k] == old(src[k])
    {
      dst[off + i] := XorByte(src[off + i], bits[i]);
    }
  }

  lemma BlockIndex(k: nat, j: nat)
    requires 16 * j <= k < 16 * j + 16
    ensures k / 16 == j && k % 16 == k - 16 * j
  {}

  /** dst[..n] is the ciphertext of p so far, and src still holds the rest of p. */
  ghost predicate Progress(dst: array<Byte>, src: array<Byte>, p: seq<Byte>, c: seq<Byte>, n: nat)
    reads dst, src
  {
    && |c| == |p| && n <= |p| <= dst.Length && |p| <= src.Length
    && dst[..n] == c[..n] && src[n..|p|] == p[n..]
  }

  /** One block of keystream on block m of the text. */
  method ApplyBlock(dst: array<Byte>, src: array<Byte>, off: nat, n: nat, bits: Block,
                    ghost m: nat, ghost aes: Aes, ghost base: nat, ghost p: seq<Byte>)
    requires Admissible(aes, base, 0, |p|) && off == 16 * m
    requires n <= 16 && 16 * m + n <= |p| && (n == 16 || 16 * m + n == |p|)
    requires Progress(dst, src, p, Gctr(aes, base, p), 16 * m)
    requires n > 0 ==> bits == Keystream(aes, base, m)
    modifies dst
    ensures Progress(dst, src, p, Gctr(aes, base, p), 16 * m + n)
    ensures forall k :: |p| <= k < dst.Length ==> dst[k] == old(dst[k])
  {
    hide Keystream, XorByte;
    ghost var c := Gctr(aes, base, p);
    ghost var d, s := dst[..], src[..];
    assert forall k :: 0 <= k < 16 * m ==> d[k] == c[k] by {
      assert forall k :: 0 <= k < 16 * m ==> d[..16 * m][k] == c[..16 * m][k];
    }
    assert forall k :: 16 * m <= k < |p| ==> s[k] == p[k] by {
      forall k | 16 * m <= k < |p| ensures s[k] == p[k] {
        assert src[16 * m..|p|][k - 16 * m] == p[16 * m..][k - 16 * m];
      }
    }
    StoreXor(dst, src, off, n, bits);
    forall k | 16 * m <= k < 16 * m + n
      ensures dst[k] == c[k]
    {
      BlockIndex(k, m);
    }
    assert dst[..16 * m + n] == c[..16 * m + n];
    assert forall k :: 16 * m + n <= k < |p| ==> src[k] == p[k];
    assert src[16 * m + n..|p|] == p[16 * m + n..];
  }
}
