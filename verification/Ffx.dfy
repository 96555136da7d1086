/** Format-preserving encryption of lib/ffx.c: an unbalanced Feistel network over byte arrays, with a
    mask for the bits of the last byte that take part. */
module Ffx {

  type Octet = bv8
  type Block = b: seq<Octet> | |b| == 16 witness [0, 0, 0, 0, 0, 0, 0, 0, 0, 0, 0, 0, 0, 0, 0, 0]

  /** The keyed cipher: from an initialization vector, sixteen bytes of key stream. */
  type Cipher = Block -> Block

  function Xor(a: Octet, b: Octet): (c: Octet) {
    a ^ b
  }

  function Keep(a: Octet, m: Octet): (b: Octet) {
    a & m
  }

  /** The number of rounds as a byte. */
  function RoundMark(rounds: nat): (b: Octet) {
    (rounds % 256) as bv8
  }

  // ----- one pass ------------------------------------------------------------------------------------------------

  /** The tweaks, with the number of rounds mixed in at the round's position and the source on top. */
  function Iv(tweaks: Block, source: seq<Octet>, round: int, rounds: nat): (iv: Block)
    requires |source| <= 16
  {
    var marked := tweaks[round % 16 := Xor(tweaks[round % 16], RoundMark(rounds))];
    seq(16, i requires 0 <= i < 16 => if i < |source| then Xor(marked[i], source[i]) else marked[i])
  }

  function MaskAt(size: nat, mask: Octet, j: nat): (m: Octet) {
    if j + 1 == size then mask else 0xFF
  }

  function Pass(cipher: Cipher, tweaks: Block, source: seq<Octet>, target: seq<Octet>, mask: Octet, round: int,
                rounds: nat): (r: seq<Octet>)
    requires |source| <= 16 && 1 <= |target| <= 16
    ensures |r| == |target|
  {
    var confusion := cipher(Iv(tweaks, source, round, rounds));
    seq(|target|, j requires 0 <= j < |target| => Xor(target[j], Keep(confusion[j], MaskAt(|target|, mask, j))))
  }

  /** A pass with the same source undoes itself. */
  lemma PassTwice(cipher: Cipher, tweaks: Block, source: seq<Octet>, target: seq<Octet>, mask: Octet, round: int,
                  rounds: nat)
    requires |source| <= 16 && 1 <= |target| <= 16
    ensures var once := Pass(cipher, tweaks, source, target, mask, round, rounds);
            Pass(cipher, tweaks, source, once, mask, round, rounds) == target
  {
    hide Iv, Xor, Keep;
    var confusion := cipher(Iv(tweaks, source, round, rounds));
    var once := Pass(cipher, tweaks, source, target, mask, round, rounds);
    forall j | 0 <= j < |target|
      ensures Xor(once[j], Keep(confusion[j], MaskAt(|target|, mask, j))) == target[j]
    {
      XorTwice(target[j], Keep(confusion[j], MaskAt(|target|, mask, j)));
    }
  }

  lemma XorTwice(a: Octet, b: Octet)
    ensures Xor(Xor(a, b), b) == a
  {}

  /** The vector of a pass. */
  method BuildIv(tweaks: Block, source: array<Octet>, sourceSize: nat, round: int, rounds: nat) returns (vector: Block)
    requires sourceSize <= 16 && sourceSize <= source.Length
    ensures vector == Iv(tweaks, source[..sourceSize], round, rounds)
  {
    hide Xor, RoundMark;
    var iv := new Octet[16](i requires 0 <= i < 16 => tweaks[i]);
    iv[round % 16] := Xor(iv[round % 16], RoundMark(rounds));
    ghost var marked := iv[..];
    for i := 0 to sourceSize
      invariant forall k :: 0 <= k < i ==> iv[k] == Xor(marked[k], source[k])
      invariant forall k :: i <= k < 16 ==> iv[k] == marked[k]
    {
      iv[i] := Xor(iv[i], source[i]);
    }
    vector := iv[..];
  }

  /** ptls_ffx_one_pass, in place on the target. */
  method OnePass(cipher: Cipher, tweaks: Block, source: array<Octet>, sourceSize: nat, target: array<Octet>,
                 targetSize: nat,
                 mask: Octet, round: int, rounds: nat)
    requires source != target && sourceSize <= 16 && sourceSize <= source.Length && 1 <= targetSize <= 16
             && targetSize <= target.Length
    modifies target
    ensures target[..targetSize] == Pass(cipher, tweaks, source[..sourceSize], old(target[..targetSize]), mask, round,
            rounds)
    ensures forall j :: targetSize <= j < target.Length ==> target[j] == old(target[j])
  {
    hide Iv, Xor, Keep;
    var vector := BuildIv(tweaks, source, sourceSize, round, rounds);
    var confusion := cipher(vector);
    for j := 0 to targetSize - 1
      invariant forall k :: 0 <= k < j ==> target[k] == Xor(old(target[k]), confusion[k])
      invariant forall k :: j <= k < target.Length ==> target[k] == old(target[k])
    {
      target[j] := Xor(target[j], confusion[j]);
    }
    target[targetSize - 1] := Xor(target[targetSize - 1], Keep(confusion[targetSize - 1], mask));
    forall k | 0 <= k < targetSize - 1
      ensures confusion[k] == Keep(confusion[k], 0xFF)
    {
      AllOnes(confusion[k]);
    }
  }

  lemma AllOnes(c: Octet)
    ensures Keep(c, 0xFF) == c
  {}

  // ----- the network ----------------------------------------------------------------------------------------------

  datatype Key = Key(cipher: Cipher, tweaks: Block, rounds: nat, mask: Octet)

  ghost predicate Halves(l: seq<Octet>, r: seq<Octet>) {
    1 <= |l| <= 16 && 1 <= |r| <= 16
  }

  /** Two rounds of encryption, the first of them round i. */
  function EncPair(k: Key, l: seq<Octet>, r: seq<Octet>, i: int): (out: (seq<Octet>, seq<Octet>))
    requires Halves(l, r)
    ensures |out.0| == |l| && |out.1| == |r|
  {
    var l' := Pass(k.cipher, k.tweaks, r, l, 0xFF, i, k.rounds);
    var r' := Pass(k.cipher, k.tweaks, l', r, k.mask, i + 1, k.rounds);
    (l', r')
  }

  /** Two rounds of decryption, the second of them round i. */
  function DecPair(k: Key, l: seq<Octet>, r: seq<Octet>, i: int): (out: (seq<Octet>, seq<Octet>))
    requires Halves(l, r)
    ensures |out.0| == |l| && |out.1| == |r|
  {
    var r' := Pass(k.cipher, k.tweaks, l, r, k.mask, i + 1, k.rounds);
    var l' := Pass(k.cipher, k.tweaks, r', l, 0xFF, i, k.rounds);
    (l', r')
  }

  lemma PairInverse(k: Key, l: seq<Octet>, r: seq<Octet>, i: int)
    requires Halves(l, r)
    ensures var e := EncPair(k, l, r, i); DecPair(k, e.0, e.1, i) == (l, r)
    ensures var d := DecPair(k, l, r, i); EncPair(k, d.0, d.1, i) == (l, r)
  {
    hide Pass;
    var (l', r') := EncPair(k, l, r, i);
    PassTwice(k.cipher, k.tweaks, l', r, k.mask, i + 1, k.rounds);
    PassTwice(k.cipher, k.tweaks, r, l, 0xFF, i, k.rounds);
    var (l1, r1) := DecPair(k, l, r, i);
    PassTwice(k.cipher, k.tweaks, r1, l, 0xFF, i, k.rounds);
    PassTwice(k.cipher, k.tweaks, l, r, k.mask, i + 1, k.rounds);
  }

  /** The rounds from i up to the number of rounds, two at a time. */
  function EncFrom(k: Key, l: seq<Octet>, r: seq<Octet>, i: nat): (out: (seq<Octet>, seq<Octet>))
    requires Halves(l, r)
    ensures |out.0| == |l| && |out.1| == |r|
    decreases k.rounds - i
  {
    if i >= k.rounds then (l, r)
    else
      var (l', r') := EncPair(k, l, r, i);
      EncFrom(k, l', r', i + 2)
  }

  /** The same rounds in the opposite order. */
  function DecFrom(k: Key, l: seq<Octet>, r: seq<Octet>, i: nat): (out: (seq<Octet>, seq<Octet>))
    requires Halves(l, r)
    ensures |out.0| == |l| && |out.1| == |r|
    decreases k.rounds - i
  {
    if i >= k.rounds then (l, r)
    else
      var (l', r') := DecPair(k, l, r, k.rounds - 2 - i);
      DecFrom(k, l', r', i + 2)
  }

  /** Decryption steps i .. n only. */
  function DecUpTo(k: Key, l: seq<Octet>, r: seq<Octet>, i: nat, n: nat): (out: (seq<Octet>, seq<Octet>))
    requires Halves(l, r)
    ensures |out.0| == |l| && |out.1| == |r|
    decreases n - i
  {
    if i >= n then (l, r)
    else
      var (l', r') := DecPair(k, l, r, k.rounds - 2 - i);
      DecUpTo(k, l', r', i + 2, n)
  }

  lemma {:induction false} DecUpToSplit(k: Key, l: seq<Octet>, r: seq<Octet>, i: nat, n: nat)
    requires Halves(l, r) && i <= n && (n - i) % 2 == 0
    ensures var out := DecUpTo(k, l, r, i, n); DecUpTo(k, l, r, i, n + 2) == DecPair(k, out.0, out.1, k.rounds - 2 - n)
    decreases n - i
  {
    hide DecPair;
    if i < n {
      var (l', r') := DecPair(k, l, r, k.rounds - 2 - i);
      DecUpToSplit(k, l', r', i + 2, n);
    }
  }

  lemma {:induction false} DecFromIs(k: Key, l: seq<Octet>, r: seq<Octet>, i: nat)
    requires Halves(l, r)
    ensures DecFrom(k, l, r, i) == DecUpTo(k, l, r, i, k.rounds)
    decreases k.rounds - i
  {
    hide DecPair;
    if i < k.rounds {
      var (l', r') := DecPair(k, l, r, k.rounds - 2 - i);
      DecFromIs(k, l', r', i + 2);
    }
  }

  /** The encryption from round i on is undone by as many rounds of decryption. */
  lemma {:induction false} DecAfterEnc(k: Key, l: seq<Octet>, r: seq<Octet>, i: nat)
    requires Halves(l, r) && i <= k.rounds && (k.rounds - i) % 2 == 0
    ensures var e := EncFrom(k, l, r, i); DecUpTo(k, e.0, e.1, 0, k.rounds - i) == (l, r)
    decreases k.rounds - i
  {
    hide EncPair, DecPair;
    if i < k.rounds {
      var (l', r') := EncPair(k, l, r, i);
      DecAfterEnc(k, l', r', i + 2);
      var e := EncFrom(k, l, r, i);
      DecUpToSplit(k, e.0, e.1, 0, k.rounds - i - 2);
      PairInverse(k, l, r, i);
    }
  }

  // ----- the transformation -------------------------------------------------------------------------------------

  function Merge(a: Octet, m: Octet, last: Octet): (b: Octet) {
    (a & m) | (last & !m)
  }

  function Masked(r: seq<Octet>, mask: Octet): (s: seq<Octet>)
    requires r != []
    ensures |s| == |r|
  {
    r[|r| - 1 := Keep(r[|r| - 1], mask)]
  }

  function Restored(r: seq<Octet>, mask: Octet, last: Octet): (s: seq<Octet>)
    requires r != []
    ensures |s| == |r|
  {
    r[|r| - 1 := Merge(r[|r| - 1], mask, last)]
  }

  lemma RestoredIs(r: seq<Octet>, mask: Octet, last: Octet)
    requires r != []
    ensures Restored(r, mask, last) == r[|r| - 1 := Merge(r[|r| - 1], mask, last)]
  {}

  /** ffx_encrypt on a block of the right length, in either direction. */
  function Transform(k: Key, isEnc: bool, block: seq<Octet>): (out: seq<Octet>)
    requires 2 <= |block| <= 32
    ensures |out| == |block|
  {
    var n := |block| / 2;
    var l, r := block[..n], Masked(block[n..], k.mask);
    var (l', r') := if isEnc then EncFrom(k, l, r, 0) else DecFrom(k, l, r, 0);
    l' + Restored(r', k.mask, block[|block| - 1])
  }

  lemma MaskFacts(a: Octet, c: Octet, m: Octet)
    requires Keep(a, m) == a
    ensures Keep(Xor(a, Keep(c, m)), m) == Xor(a, Keep(c, m))
  {}

  lemma MergeFacts(a: Octet, m: Octet, last: Octet)
    ensures Keep(Merge(a, m, last), m) == Keep(a, m) && Keep(Merge(a, m, last), !m) == Keep(last, !m)
  {}

  lemma KeepFacts(m: Octet, last: Octet)
    ensures Keep(Keep(last, m), m) == Keep(last, m) && Merge(Keep(last, m), m, last) == last
  {}

  lemma MergeRest(a: Octet, m: Octet, last: Octet, other: Octet)
    requires Keep(last, !m) == Keep(other, !m)
    ensures Merge(a, m, last) == Merge(a, m, other)
  {}

  ghost predicate Clean(r: seq<Octet>, mask: Octet) {
    r != [] && Keep(r[|r| - 1], mask) == r[|r| - 1]
  }

  lemma PassClean(k: Key, source: seq<Octet>, r: seq<Octet>, i: int)
    requires |source| <= 16 && 1 <= |r| <= 16 && Clean(r, k.mask)
    ensures Clean(Pass(k.cipher, k.tweaks, source, r, k.mask, i, k.rounds), k.mask)
  {
    hide Iv, Xor, Keep;
    var confusion := k.cipher(Iv(k.tweaks, source, i, k.rounds));
    MaskFacts(r[|r| - 1], confusion[|r| - 1], k.mask);
  }

  lemma {:induction false} EncClean(k: Key, l: seq<Octet>, r: seq<Octet>, i: nat)
    requires Halves(l, r) && Clean(r, k.mask)
    ensures Clean(EncFrom(k, l, r, i).1, k.mask)
    decreases k.rounds - i
  {
    hide Pass, Clean;
    if i < k.rounds {
      var (l', r') := EncPair(k, l, r, i);
      PassClean(k, l', r, i + 1);
      EncClean(k, l', r', i + 2);
    }
  }

  lemma {:induction false} DecClean(k: Key, l: seq<Octet>, r: seq<Octet>, i: nat)
    requires Halves(l, r) && Clean(r, k.mask)
    ensures Clean(DecFrom(k, l, r, i).1, k.mask)
    decreases k.rounds - i
  {
    hide Pass, Clean;
    if i < k.rounds {
      var (l', r') := DecPair(k, l, r, k.rounds - 2 - i);
      PassClean(k, l, r, k.rounds - 1 - i);
      DecClean(k, l', r', i + 2);
    }
  }

  /** Masking a restored half gives back the half that was restored. */
  lemma MaskedRestored(r: seq<Octet>, mask: Octet, last: Octet)
    requires Clean(r, mask)
    ensures Masked(Restored(r, mask, last), mask) == r
    ensures Keep(Restored(r, mask, last)[|r| - 1], !mask) == Keep(last, !mask)
  {
    hide Keep, Merge;
    MergeFacts(r[|r| - 1], mask, last);
  }

  lemma RestoredMasked(r: seq<Octet>, mask: Octet)
    requires r != []
    ensures Clean(Masked(r, mask), mask) && Restored(Masked(r, mask), mask, r[|r| - 1]) == r
  {
    hide Keep, Merge;
    KeepFacts(mask, r[|r| - 1]);
  }

  /** For every cipher, tweak, mask and even number of rounds, decryption undoes encryption. */
  lemma DecryptUndoesEncrypt(k: Key, block: seq<Octet>)
    requires 2 <= |block| <= 32 && k.rounds % 2 == 0
    ensures Transform(k, false, Transform(k, true, block)) == block
  {
    hide EncFrom, DecFrom, Masked, Restored, Clean, Keep, Merge;
    var n := |block| / 2;
    var l, r := block[..n], Masked(block[n..], k.mask);
    var (l', r') := EncFrom(k, l, r, 0);
    var last := block[|block| - 1];
    RestoredMasked(block[n..], k.mask);
    EncClean(k, l, r, 0);
    MaskedRestored(r', k.mask, last);
    var out := Transform(k, true, block);
    assert out[..n] == l' && out[n..] == Restored(r', k.mask, last);
    DecAfterEnc(k, l, r, 0);
    DecFromIs(k, l', r', 0);
    SameRest(r, k.mask, last, out[|out| - 1]);
    assert block == l + block[n..];
  }

  lemma SameRest(r: seq<Octet>, mask: Octet, last: Octet, other: Octet)
    requires r != []
    requires Keep(last, !mask) == Keep(other, !mask)
    ensures Restored(r, mask, last) == Restored(r, mask, other)
  {
    MergeRest(r[|r| - 1], mask, last, other);
  }

  /** The bits outside the mask pass through, in either direction and for any number of rounds. */
  lemma UnmaskedBitsPass(k: Key, isEnc: bool, block: seq<Octet>)
    requires 2 <= |block| <= 32
    ensures Keep(Transform(k, isEnc, block)[|block| - 1], !k.mask) == Keep(block[|block| - 1], !k.mask)
  {
    hide EncFrom, DecFrom, Masked, Restored, Clean, Keep;
    var n := |block| / 2;
    var l, r := block[..n], Masked(block[n..], k.mask);
    RestoredMasked(block[n..], k.mask);
    if isEnc { EncClean(k, l, r, 0); } else { DecClean(k, l, r, 0); }
    var out := if isEnc then EncFrom(k, l, r, 0) else DecFrom(k, l, r, 0);
    var right := Restored(out.1, k.mask, block[|block| - 1]);
    MaskedRestored(out.1, k.mask, block[|block| - 1]);
    assert (out.0 + right)[|block| - 1] == right[|right| - 1];
  }

  // ----- which bits take part ---------------------------------------------------------------------------------------

  /** last_byte_mask[bit_length % 8] */
  function LastByteMask(bitLength: nat): (m: Octet) {
    [0xFF, 0xFE, 0xFC, 0xF8, 0xF0, 0xE0, 0xC0, 0x80][bitLength % 8]
  }

  /** The bits of the last byte that belong to the block, by the documentation (include/picotls/ffx.h): all but
      the least significant ones, beyond the length. */
  function DocumentedMask(bitLength: nat): (m: Octet) {
    [0xFF, 0x80, 0xC0, 0xE0, 0xF0, 0xF8, 0xFC, 0xFE][bitLength % 8]
  }

  /** No cipher, tweak, number of rounds, block or direction changes these bits of the last byte. */
  ghost predicate Passes(bitLength: nat, bits: Octet) {
    forall k: Key, isEnc: bool, block: seq<Octet> ::
      k.mask == LastByteMask(bitLength) && k.rounds % 2 == 0 && |block| == (bitLength + 7) / 8 && 2 <= |block| <= 32 ==>
        Keep(Transform(k, isEnc, block)[|block| - 1], bits) == Keep(block[|block| - 1], bits)
  }

  const ONES: Block := [0xFF, 0xFF, 0xFF, 0xFF, 0xFF, 0xFF, 0xFF, 0xFF, 0xFF, 0xFF, 0xFF, 0xFF, 0xFF, 0xFF, 0xFF, 0xFF]
  const ZEROS: Block := [0, 0, 0, 0, 0, 0, 0, 0, 0, 0, 0, 0, 0, 0, 0, 0]

  /** Two rounds of a cipher that only yields ones. */
  function OnesKey(mask: Octet): (k: Key) {
    Key((iv: Block) => ONES, ZEROS, 2, mask)
  }

  lemma MaskedOnes(mask: Octet)
    ensures Merge(Xor(Keep(0, mask), Keep(0xFF, mask)), mask, 0) == mask
  {}

  /** It sets every bit under the mask. */
  lemma OnesSetTheMask(mask: Octet, block: seq<Octet>)
    requires 2 <= |block| <= 32 && block[|block| - 1] == 0
    ensures Transform(OnesKey(mask), true, block)[|block| - 1] == mask
  {
    hide Iv, Xor, Keep, Merge;
    var k, n := OnesKey(mask), |block| / 2;
    var l, r := block[..n], Masked(block[n..], mask);
    var (l', r') := EncPair(k, l, r, 0);
    assert EncFrom(k, l', r', 2) == (l', r');
    assert EncFrom(k, l, r, 0) == (l', r');
    assert r'[|r| - 1] == Xor(Keep(0, mask), Keep(0xFF, mask));
    MaskedOnes(mask);
    var out := Restored(r', mask, 0);
    assert (l' + out)[|block| - 1] == out[|out| - 1];
  }

  lemma KeepOutside(x: Octet, y: Octet, bits: Octet, mask: Octet)
    requires Keep(bits, mask) == 0 && Keep(x, !mask) == Keep(y, !mask)
    ensures Keep(x, bits) == Keep(y, bits)
  {}

  lemma KeepSymmetric(a: Octet, b: Octet)
    ensures Keep(a, b) == Keep(b, a) && Keep(0, b) == 0
  {}

  /** Bits pass exactly when they are outside the mask. */
  lemma PassesIff(bitLength: nat, bits: Octet)
    requires 9 <= bitLength <= 256
    ensures Passes(bitLength, bits) <==> Keep(bits, LastByteMask(bitLength)) == 0
  {
    hide Keep, LastByteMask, Transform;
    var mask := LastByteMask(bitLength);
    if Keep(bits, mask) == 0 {
      forall k: Key, isEnc: bool, block: seq<Octet>
        | k.mask == mask && k.rounds % 2 == 0 && |block| == (bitLength + 7) / 8 && 2 <= |block| <= 32
        ensures Keep(Transform(k, isEnc, block)[|block| - 1], bits) == Keep(block[|block| - 1], bits)
      {
        UnmaskedBitsPass(k, isEnc, block);
        KeepOutside(Transform(k, isEnc, block)[|block| - 1], block[|block| - 1], bits, mask);
      }
    }
    if Passes(bitLength, bits) {
      var block: seq<Octet> := seq((bitLength + 7) / 8, _ => 0);
      OnesSetTheMask(mask, block);
      assert OnesKey(mask).mask == mask && OnesKey(mask).rounds % 2 == 0;
      assert Keep(Transform(OnesKey(mask), true, block)[|block| - 1], bits) == Keep(block[|block| - 1], bits);
      KeepSymmetric(mask, bits);
    }
  }

  /** The documentation guarantees that the extra bits are left untouched.  The table is indexed the wrong way
      round: they are exactly if the length is a multiple of eight or at least four more. */
  lemma ExtraBitsPass(bitLength: nat)
    requires 9 <= bitLength <= 256
    ensures Passes(bitLength, !DocumentedMask(bitLength)) <==> bitLength % 8 == 0 || bitLength % 8 >= 4
  {
    hide Passes;
    PassesIff(bitLength, !DocumentedMask(bitLength));
    MasksOverlap(bitLength % 8);
    SameMasks(bitLength);
  }

  lemma SameMasks(bitLength: nat)
    ensures LastByteMask(bitLength) == LastByteMask(bitLength % 8)
            && DocumentedMask(bitLength) == DocumentedMask(bitLength % 8)
  {}

  lemma MasksOverlap(k: nat)
    requires k < 8
    ensures Keep(!DocumentedMask(k), LastByteMask(k)) == 0 <==> k == 0 || k >= 4
  {}

  /** The bits of a byte. */
  function BitMask(i: nat): (m: Octet)
    requires i < 8
  {
    [0x01, 0x02, 0x04, 0x08, 0x10, 0x20, 0x40, 0x80][i]
  }

  /** Every bit of the block is encrypted, exactly if the length is at most four more than a multiple of eight. */
  lemma AllBitsTakePart(bitLength: nat)
    requires 9 <= bitLength <= 256
    ensures (forall i :: 0 <= i < 8 && Keep(BitMask(i), DocumentedMask(bitLength)) != 0 ==>
                           !Passes(bitLength, BitMask(i)))
            <==> bitLength % 8 <= 4
  {
    hide Passes, BitMask;
    var k := bitLength % 8;
    SameMasks(bitLength);
    hide LastByteMask, DocumentedMask, Keep;
    forall i | 0 <= i < 8
      ensures Passes(bitLength, BitMask(i)) <==> Keep(BitMask(i), LastByteMask(k)) == 0
    {
      PassesIff(bitLength, BitMask(i));
    }
    BitsCovered(k);
  }

  lemma BitsCovered(k: nat)
    requires k < 8
    ensures (forall i :: 0 <= i < 8 && Keep(BitMask(i), DocumentedMask(k)) != 0 ==>
                           Keep(BitMask(i), LastByteMask(k)) != 0)
            <==> k <= 4
  {
    if k > 4 { assert Keep(BitMask(3), DocumentedMask(k)) != 0 && Keep(BitMask(3), LastByteMask(k)) == 0; }
  }

  /** The example of the documentation: of 39 bits, the least significant bit of the fifth byte is copied, but so
      are six bits of the block.  Of nine bits, six extra ones are not. */
  lemma DocumentedExample()
    ensures Passes(39, 0x01) && Passes(39, 0x7E) && Keep(0x7E, DocumentedMask(39)) == 0x7E
    ensures !Passes(9, 0x7E) && Keep(0x7E, DocumentedMask(9)) == 0
  {
    hide Passes;
    PassesIff(39, 0x01);
    PassesIff(39, 0x7E);
    PassesIff(9, 0x7E);
  }

  // ----- the context -------------------------------------------------------------------------------------------------

  class Context {
    const cipher: Cipher
    const rounds: nat
    const isEnc: bool
    const byteLength: nat
    const nbLeft: nat
    const nbRight: nat
    const mask: Octet
    var tweaks: Block

    ghost predicate Valid()
      reads this
    {
      2 <= byteLength <= 32 && nbLeft == byteLength / 2 && nbRight == byteLength - nbLeft
    }

    function TheKey(): (k: Key)
      reads this
    {
      Key(cipher, tweaks, rounds, mask)
    }

    /** ptls_ffx_setup_crypto, for a length it accepts. */
    constructor (cipher: Cipher, isEnc: bool, rounds: nat, bitLength: nat)
      requires 9 <= bitLength <= 256
      ensures Valid() && this.cipher == cipher && this.isEnc == isEnc && this.rounds == rounds
      ensures byteLength == (bitLength + 7) / 8 && mask == LastByteMask(bitLength)
      ensures forall i :: 0 <= i < 16 ==> tweaks[i] == 0
    {
      var len := (bitLength + 7) / 8;
      this.cipher, this.isEnc, this.rounds, this.byteLength := cipher, isEnc, rounds, len;
      this.nbLeft, this.nbRight := len / 2, len - len / 2;
      this.mask := LastByteMask(bitLength);
      this.tweaks := [0, 0, 0, 0, 0, 0, 0, 0, 0, 0, 0, 0, 0, 0, 0, 0];
    }

    /** ffx_init */
    method Init(iv: Block)
      modifies this
      ensures tweaks == iv
    {
      tweaks := iv;
    }

    /** ffx_encrypt: a block of another length is answered with zeros.  output may be input itself. */
    method Encrypt(output: array<Octet>, input: array<Octet>, len: nat)
      requires Valid() && len <= input.Length && len <= output.Length
      modifies output
      ensures len == byteLength ==> output[..len] == Transform(TheKey(), isEnc, old(input[..len]))
      ensures len != byteLength ==> forall i :: 0 <= i < len ==> output[i] == 0
      ensures forall i :: len <= i < output.Length ==> output[i] == old(output[i])
    {
      if len != byteLength {
        for i := 0 to len
          invariant forall k :: 0 <= k < i ==> output[k] == 0
          invariant forall k :: len <= k < output.Length ==> output[k] == old(output[k])
        {
          output[i] := 0;
        }
        return;
      }
      EncryptBlock(output, input);
    }

    method EncryptBlock(output: array<Octet>, input: array<Octet>)
      requires Valid() && byteLength <= input.Length && byteLength <= output.Length
      modifies output
      ensures output[..byteLength] == Transform(TheKey(), isEnc, old(input[..byteLength]))
      ensures forall i :: byteLength <= i < output.Length ==> output[i] == old(output[i])
    {
      hide EncFrom, DecFrom, Keep, Merge, Masked, Restored;
      ghost var block := input[..byteLength];
      var left, right, last := SplitHalves(input);
      Rounds(left, right);
      // &= mask, then |= the bits of the last byte outside it
      ghost var r' := right[..nbRight];
      right[nbRight - 1] := Merge(right[nbRight - 1], mask, last);
      assert right[..nbRight] == Restored(r', mask, last) by { RestoredIs(r', mask, last); }
      CopyOut(output, left, right);
    }

    /** The input in two zero-padded halves, the last byte masked. */
    method SplitHalves(input: array<Octet>) returns (left: array<Octet>, right: array<Octet>, last: Octet)
      requires Valid() && byteLength <= input.Length
      ensures fresh(left) && fresh(right) && left != right && left.Length == 16 && right.Length == 16
      ensures left[..nbLeft] == input[..byteLength][..nbLeft] && last == input[byteLength - 1]
      ensures right[..nbRight] == Masked(input[..byteLength][nbLeft..], mask)
    {
      hide Keep;
      left := new Octet[16](i reads input requires 0 <= i < 16 && nbLeft <= input.Length => if i < nbLeft then input[i]
        else 0);
      right := new Octet[16](i reads input requires 0 <= i < 16 && nbLeft + nbRight <= input.Length =>
                              if i < nbRight then input[nbLeft + i] else 0);
      last := right[nbRight - 1];
      ghost var half := input[nbLeft..byteLength];
      assert input[..byteLength][nbLeft..] == half;
      assert forall k :: 0 <= k < nbRight ==> right[k] == half[k];
      right[nbRight - 1] := Keep(right[nbRight - 1], mask);
      assert forall k :: 0 <= k < nbRight ==> right[k] == Masked(half, mask)[k];
      assert forall k :: 0 <= k < nbLeft ==> left[k] == input[..byteLength][..nbLeft][k];
    }

    method Rounds(left: array<Octet>, right: array<Octet>)
      requires Valid() && left != right && left.Length == 16 && right.Length == 16
      modifies left, right
      ensures (left[..nbLeft], right[..nbRight])
           == old(if isEnc then EncFrom(TheKey(), left[..nbLeft], right[..nbRight], 0)
                  else DecFrom(TheKey(), left[..nbLeft], right[..nbRight], 0))
    {
      hide Pass;
      var k := TheKey();
      var i := 0;
      if isEnc {
        while i < rounds
          invariant EncFrom(k, left[..nbLeft], right[..nbRight], i)
                    == old(EncFrom(TheKey(), left[..nbLeft], right[..nbRight], 0))
          decreases rounds - i
        {
          OnePass(cipher, tweaks, right, nbRight, left, nbLeft, 0xFF, i, rounds);
          OnePass(cipher, tweaks, left, nbLeft, right, nbRight, mask, i + 1, rounds);
          i := i + 2;
        }
      } else {
        while i < rounds
          invariant DecFrom(k, left[..nbLeft], right[..nbRight], i)
                    == old(DecFrom(TheKey(), left[..nbLeft], right[..nbRight], 0))
          decreases rounds - i
        {
          OnePass(cipher, tweaks, left, nbLeft, right, nbRight, mask, rounds - 1 - i, rounds);
          OnePass(cipher, tweaks, right, nbRight, left, nbLeft, 0xFF, rounds - 2 - i, rounds);
          i := i + 2;
        }
      }
    }

    method CopyOut(output: array<Octet>, left: array<Octet>, right: array<Octet>)
      requires Valid() && byteLength <= output.Length && left.Length == 16 && right.Length == 16
      requires output != left && output != right
      modifies output
      ensures output[..byteLength] == left[..nbLeft] + right[..nbRight]
      ensures forall i :: byteLength <= i < output.Length ==> output[i] == old(output[i])
    {
      for i := 0 to nbLeft
        invariant forall k :: 0 <= k < i ==> output[k] == left[k]
        invariant forall k :: byteLength <= k < output.Length ==> output[k] == old(output[k])
      {
        output[i] := left[i];
      }
      for i := 0 to nbRight
        invariant forall k :: 0 <= k < nbLeft ==> output[k] == left[k]
        invariant forall k :: 0 <= k < i ==> output[nbLeft + k] == right[k]
        invariant forall k :: byteLength <= k < output.Length ==> output[k] == old(output[k])
      {
        output[nbLeft + i] := right[i];
      }
      assert forall k :: nbLeft <= k < byteLength ==> output[k] == right[k - nbLeft];
    }
  }
}
