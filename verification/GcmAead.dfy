/** The AEAD built on the pipelines (lib/fusion.c): the context with its table of powers, the counter
    of a record, and the round trip of sealing and opening. */
module GcmAead {
  import opened Common
  import opened Arith
  import opened Gf2
  import opened Ghash
  import opened Gcm
  import opened GcmEncrypt
  import opened GcmDecrypt

  // ----- the counter of a record -------------------------------------------------------------------------------

  /** ptls_aead__build_iv for a 12-byte IV: the sequence number is mixed into the last eight bytes. */
  function BuildIv(staticIv: seq<Byte>, seqno: nat): (iv: seq<Byte>)
    requires |staticIv| == 12
    ensures |iv| == 12
  {
    staticIv[..4] + XorBytes(staticIv[4..], Bytes(seqno, 8))
  }

  function XorBytes(a: seq<Byte>, b: seq<Byte>): (r: seq<Byte>)
    requires |a| == |b|
    ensures |r| == |a|
  {
    seq(|a|, i requires 0 <= i < |a| => XorByte(a[i], b[i]))
  }

  /** calc_counter: the IV sits above 32 zero bits and the sequence number is shifted by as much. */
  function CalcCounter(staticIv: seq<Byte>, seqno: nat): (ctr: nat)
    requires |staticIv| == 12
  {
    Xor(Shl(BigEndian(staticIv), 32), Shl(seqno, 32))
  }

  lemma {:induction false} BigEndianXor(a: seq<Byte>, b: seq<Byte>)
    requires |a| == |b|
    ensures BigEndian(XorBytes(a, b)) == Xor(BigEndian(a), BigEndian(b))
  {
    hide Xor;
    if a == [] {
      XorSelf(0);
    } else {
      var n := |a| - 1;
      BigEndianXor(a[..n], b[..n]);
      assert XorBytes(a, b)[..n] == XorBytes(a[..n], b[..n]);
      XorDigits(BigEndian(a[..n]), a[n], BigEndian(b[..n]), b[n]);
    }
  }

  lemma XorDigits(p: nat, x: Byte, q: nat, y: Byte)
    ensures Xor(256 * p + x, 256 * q + y) == 256 * Xor(p, q) + XorByte(x, y)
  {
    var z := XorByte(x, y);
    assert Xor(x, y) == z;
    hide Xor, Shl, XorByte;
    ByteDisjoint(p, x);
    ByteDisjoint(q, y);
    ByteDisjoint(Xor(p, q), z);
    XorShl(p, q, 8);
    XorPairs(Shl(p, 8), x, Shl(q, 8), y);
  }

  lemma ByteDisjoint(p: nat, x: Byte)
    ensures Xor(Shl(p, 8), x) == 256 * p + x
  {
    assert Pow2(8) == 256;
    hide Xor, Pow2;
    XorDisjoint(p, x, 8);
  }

  lemma {:induction false} BigEndianPrefix(a: seq<Byte>, b: seq<Byte>)
    requires forall i :: 0 <= i < |a| ==> a[i] == 0
    ensures BigEndian(a + b) == BigEndian(b)
  {
    if b != [] {
      assert (a + b)[..|a + b| - 1] == a + b[..|b| - 1];
      BigEndianPrefix(a, b[..|b| - 1]);
    } else if a != [] {
      assert a + b == a && a[..|a| - 1] + [] == a[..|a| - 1];
      BigEndianPrefix(a[..|a| - 1], []);
    }
  }

  /** The counter is the IV of section 5.3 of RFC 8446 above 32 zero bits, which is what the
      pipelines ask for. */
  lemma CounterIsIv(staticIv: seq<Byte>, seqno: nat)
    requires |staticIv| == 12 && seqno < Pow2(HALF)
    ensures CalcCounter(staticIv, seqno) == BigEndian(BuildIv(staticIv, seqno)) * LOW32
    ensures CounterRoom(CalcCounter(staticIv, seqno), 0) && CalcCounter(staticIv, seqno) < Pow2(FULL)
  {
    hide Xor, Bytes, BigEndian, XorByte;
    var zeros: seq<Byte> := [0, 0, 0, 0];
    var padded := zeros + Bytes(seqno, 8);
    assert BuildIv(staticIv, seqno) == XorBytes(staticIv, padded) by { ZeroXor(staticIv, padded); }
    BigEndianXor(staticIv, padded);
    BigEndianPrefix(zeros, Bytes(seqno, 8));
    NumberRoundTrip(seqno, 8);
    var iv := BigEndian(BuildIv(staticIv, seqno));
    XorShl(BigEndian(staticIv), seqno, 32);
    BigEndianBound(BuildIv(staticIv, seqno));
    Room(iv);
  }

  lemma ZeroXor(a: seq<Byte>, b: seq<Byte>)
    requires |a| == |b| == 12 && b[..4] == [0, 0, 0, 0]
    ensures XorBytes(a, b) == a[..4] + XorBytes(a[4..], b[4..])
  {
    forall i | 0 <= i < 4
      ensures XorByte(a[i], b[i]) == a[i]
    {
      assert b[i] == b[..4][i];
      XorComm(a[i], 0);
    }
  }

  lemma PowLow32()
    ensures Pow2(32) == LOW32
  {
    assert Pow2(8) == 256;
    var e: nat :| e == 8;
    hide Pow2;
    Doubled(e, 0x100, 0x1_0000);
    Doubled(2 * e, 0x1_0000, LOW32);
  }

  lemma Room(iv: nat)
    requires iv < Pow2(96)
    ensures Shl(iv, 32) == iv * LOW32 && CounterRoom(iv * LOW32, 0) && iv * LOW32 < Pow2(FULL)
  {
    PowLow32();
    hide Pow2;
    var low: nat :| low == 32;
    Pow2Add(96, low);
    MulMono(iv + 1, Pow2(96), LOW32);
    MulDist(iv, 1, LOW32);
    DivModUnique(iv * LOW32, LOW32, iv, 0);
  }

  // ----- sealing and opening ---------------------------------------------------------------------------------------

  /** AES-GCM encryption of SP 800-38D, section 7.1, with a 96-bit IV. */
  ghost function Seal(aes: Aes, base: nat, aad: seq<Byte>, p: seq<Byte>): (sealed: seq<Byte>)
    requires Admissible(aes, base, |aad|, |p|)
  {
    Gctr(aes, base, p) + Tag(aes, base, aad, Gctr(aes, base, p))
  }

  /** Section 7.2: the tag decides. */
  ghost function Open(aes: Aes, base: nat, aad: seq<Byte>, sealed: seq<Byte>): (p: Option<seq<Byte>>)
    requires Admissible(aes, base, |aad|, |sealed|)
  {
    if |sealed| < 16 then None
    else
      var c := sealed[..|sealed| - 16];
      if sealed[|sealed| - 16..] == Tag(aes, base, aad, c) then Some(Gctr(aes, base, c)) else None
  }

  /** What is opened is exactly what was sealed. */
  lemma OpenIffSealed(aes: Aes, base: nat, aad: seq<Byte>, sealed: seq<Byte>, p: seq<Byte>)
    requires Admissible(aes, base, |aad|, |sealed|) && Admissible(aes, base, |aad|, |p|)
    ensures Open(aes, base, aad, sealed) == Some(p) <==> sealed == Seal(aes, base, aad, p)
  {
    hide Gctr, Tag;
    if |sealed| >= 16 {
      var c := sealed[..|sealed| - 16];
      GctrInvolutive(aes, base, c);
      GctrInvolutive(aes, base, p);
      assert sealed == c + sealed[|sealed| - 16..];
      if sealed == Seal(aes, base, aad, p) {
        assert c == Gctr(aes, base, p);
        assert sealed[|sealed| - 16..] == Tag(aes, base, aad, c);
      }
    }
  }

  /** Encrypt, in terms of Seal. */
  method SealInto(aes: Aes, table: array<Precompute>, output: array<Byte>, input: array<Byte>, inlen: nat, ctr: Reg,
                  aad: seq<Byte>, supp: Supplement)
    returns (suppOut: Block, ghost touched: set<nat>)
    requires inlen <= input.Length && inlen + 16 <= output.Length && Admissible(aes, ctr, |aad|, inlen)
             && GoodSupp(aes, supp, inlen)
    requires Entries(|aad|, inlen) <= table.Length
    modifies output
    ensures output[..inlen] == Gctr(aes, ctr, old(input[..inlen])) && touched == Span(0, Entries(|aad|, inlen))
    ensures ValidTable(table, H(aes), Entries(|aad|, inlen))
            ==> output[..inlen + 16] == Seal(aes, ctr, aad, old(input[..inlen]))
    ensures supp.Supp? ==> suppOut == Cipher(supp.aes, output[supp.off..supp.off + 16])
  {
    hide Gctr, Tag, Cipher, H, ValidTable, Pow2, Span, Entries;
    suppOut, touched := GcmEncrypt.Encrypt(aes, table, output, input, inlen, ctr, aad, supp);
    assert output[..inlen + 16] == output[..inlen] + output[inlen..inlen + 16];
  }

  /** Decrypt, in terms of Open. */
  method OpenInto(aes: Aes, table: array<Precompute>, output: array<Byte>, input: array<Byte>, inlen: nat, ctr: Reg,
                  aad: seq<Byte>)
    returns (r: Option<nat>, ghost touched: set<nat>)
    requires 16 <= inlen <= input.Length && inlen - 16 <= output.Length && Admissible(aes, ctr, |aad|, inlen)
    requires Entries(|aad|, inlen - 16) <= table.Length
    modifies output
    ensures touched == Span(0, Entries(|aad|, inlen - 16))
    ensures ValidTable(table, H(aes), Entries(|aad|, inlen - 16)) ==>
              match Open(aes, ctr, aad, old(input[..inlen]))
              case None => r == None
              case Some(p) => r == Some(|p|) && |p| + 16 == inlen && output[..|p|] == p
  {
    hide Gctr, Tag, Cipher, H, ValidTable, Pow2, Span, Entries;
    var enclen := inlen - 16;
    ghost var sealed := input[..inlen];
    assert sealed[..enclen] == input[..enclen] && sealed[enclen..] == input[enclen..inlen];
    var ok;
    ok, touched := GcmDecrypt.Decrypt(aes, table, output, input, enclen, ctr, aad, input[enclen..inlen]);
    r := if ok then Some(enclen) else None;
  }

  lemma TooShort(aes: Aes, base: nat, aad: seq<Byte>, sealed: seq<Byte>)
    requires Admissible(aes, base, |aad|, |sealed|) && |sealed| < 16
    ensures Open(aes, base, aad, sealed) == None
  {}

  // ----- the context -------------------------------------------------------------------------------------------------

  /** The entries that the messages of a capacity use, however it is split: fewer than aesgcm_calc_ghash_cnt
      reserves when the capacity is 0, or 1 more than a multiple of 16. */
  function Need(capacity: nat): (n: nat) {
    if capacity == 0 then 1 else if capacity == 1 then 2 else (capacity + 14) / 16 + 2
  }

  /** Every message of the capacity uses entries below cnt. */
  ghost predicate Covers(cnt: nat, capacity: nat) {
    forall aadlen: nat, len: nat :: aadlen + len <= capacity ==> Entries(aadlen, len) <= cnt
  }

  lemma CoversIff(cnt: nat, capacity: nat)
    ensures Covers(cnt, capacity) <==> Need(capacity) <= cnt
  {
    if Covers(cnt, capacity) {
      var aadlen := if capacity >= 2 then 1 else 0;
      assert Entries(aadlen, capacity - aadlen) <= cnt;
    } else {
      var aadlen: nat, len: nat :| aadlen + len <= capacity && Entries(aadlen, len) > cnt;
      SplitBound(aadlen, len);
      NeedMono(aadlen + len, capacity);
    }
  }

  lemma SplitBound(aadlen: nat, len: nat)
    ensures Entries(aadlen, len) <= Need(aadlen + len)
  {}

  lemma NeedMono(a: nat, b: nat)
    requires a <= b
    ensures Need(a) <= Need(b)
  {}

  /** A message touches only set-up entries exactly when there are enough of them. */
  lemma TouchesIff(aadlen: nat, len: nat, cnt: nat)
    ensures Span(0, Entries(aadlen, len)) <= Span(0, cnt) <==> Entries(aadlen, len) <= cnt
  {
    hide Span;
    var n := Entries(aadlen, len);
    InSpan(0, n, n - 1);
    InSpan(0, cnt, n - 1);
    forall k | k in Span(0, n) && n <= cnt
      ensures k in Span(0, cnt)
    {
      InSpan(0, n, k);
      InSpan(0, cnt, k);
    }
  }

  /** ptls_fusion_aesgcm_context_t: entries at ghashCnt and above hold whatever the allocator left. */
  class Context {
    const aes: Aes
    var capacity: nat
    var ghash: array<Precompute>
    var ghashCnt: nat

    /** There is memory for the capacity, and the entries set up so far are powers of H. */
    ghost predicate Valid()
      reads this, ghash
    {
      ValidAes(aes) && GhashCount(capacity) <= ghash.Length && ValidTable(ghash, H(aes), ghashCnt)
    }

    constructor (aes: Aes, h0: Block, capacity: nat)
      requires ValidAes(aes) && h0 == Cipher(aes, ZERO)
      ensures Valid() && this.aes == aes && this.capacity == capacity && ghashCnt == GhashCount(capacity)
      ensures Covers(ghashCnt, capacity)
    {
      var table := NewTable(h0, capacity);
      this.aes, this.capacity, this.ghash, this.ghashCnt := aes, capacity, table, GhashCount(capacity);
      CoversIff(GhashCount(capacity), capacity);
    }

    /** ptls_fusion_aesgcm_set_capacity: the table is enlarged and the capacity raised, but the loop
        meant to fill the new entries compares the wrong way round and never runs.  The messages of the new
        capacity keep to set-up entries exactly when there already were enough. */
    method SetCapacity(capacity: nat, junk: Precompute)
      requires Valid()
      modifies this
      ensures Valid() && ghashCnt == old(ghashCnt) && GhashCount(capacity) <= ghash.Length
      ensures Covers(ghashCnt, capacity) <==> Need(capacity) <= old(ghashCnt)
      ensures GhashCount(capacity) <= old(ghashCnt) ==> this.capacity == old(this.capacity) && ghash == old(ghash)
      ensures GhashCount(capacity) > old(ghashCnt) ==> this.capacity == capacity && fresh(ghash)
    {
      hide TablePower, Entry, Covers;
      CoversIff(ghashCnt, capacity);
      var count := GhashCount(capacity);
      if count <= ghashCnt { return; }
      var old' := ghash;
      var table := new Precompute[count](i requires 0 <= i reads old' => if i < old'.Length then old'[i] else junk);
      ghash := table;
      this.capacity := capacity;
      // while count < ghashCnt: set up one entry
      assert !(count < ghashCnt);
    }

    /** What both directions do first; afterwards there is memory for the message. */
    method Prepare(aadlen: nat, len: nat, junk: Precompute)
      requires Valid()
      modifies this
      ensures Valid() && ghashCnt == old(ghashCnt) && Entries(aadlen, len) <= ghash.Length
      ensures ghash == old(ghash) || fresh(ghash)
    {
      hide ValidTable, Covers;
      CountSuffices(len + aadlen, aadlen, len);
      if len + aadlen > capacity {
        SetCapacity(len + aadlen, junk);
      } else {
        CountSuffices(capacity, aadlen, len);
      }
    }

    lemma Usable(aadlen: nat, len: nat)
      requires Valid() && Entries(aadlen, len) <= ghashCnt
      ensures ValidTable(ghash, H(aes), Entries(aadlen, len))
    {
      ValidShorter(ghash, H(aes), ghashCnt, Entries(aadlen, len));
    }

    /** aead_do_encrypt: the record is sealed under the IV of its sequence number, if the table has been set up
        for as many blocks; the ciphertext is right in any case. */
    method DoEncrypt(staticIv: seq<Byte>, output: array<Byte>, input: array<Byte>, inlen: nat, seqno: nat,
                     aad: seq<Byte>, supp: Supplement, junk: Precompute)
      returns (suppOut: Block, ghost touched: set<nat>)
      requires Valid() && |staticIv| == 12 && seqno < Pow2(HALF)
      requires |aad| * 8 < 0x8000_0000 && inlen * 8 < 0x8000_0000
      requires inlen <= input.Length && inlen + 16 <= output.Length && GoodSupp(aes, supp, inlen)
      modifies this, output
      ensures Valid() && ghashCnt == old(ghashCnt)
      ensures Admissible(aes, CalcCounter(staticIv, seqno), |aad|, inlen)
      ensures output[..inlen] == Gctr(aes, CalcCounter(staticIv, seqno), old(input[..inlen]))
      ensures touched <= Span(0, ghashCnt) <==> Entries(|aad|, inlen) <= ghashCnt
      ensures Entries(|aad|, inlen) <= ghashCnt ==>
                output[..inlen + 16] == Seal(aes, CalcCounter(staticIv, seqno), aad, old(input[..inlen]))
      ensures supp.Supp? ==> suppOut == Cipher(supp.aes, output[supp.off..supp.off + 16])
    {
      hide Gctr, Tag, CalcCounter, Cipher, H, ValidTable, Pow2, BigEndian, Bytes, Seal, Span, Entries;
      Prepare(|aad|, inlen, junk);
      CounterIsIv(staticIv, seqno);
      TouchesIff(|aad|, inlen, ghashCnt);
      if Entries(|aad|, inlen) <= ghashCnt { Usable(|aad|, inlen); }
      suppOut, touched := SealInto(aes, ghash, output, input, inlen, CalcCounter(staticIv, seqno), aad, supp);
    }

    /** aead_do_decrypt: the length of the plaintext, or nothing when the tag does not match. */
    method DoDecrypt(staticIv: seq<Byte>, output: array<Byte>, input: array<Byte>, inlen: nat, seqno: nat,
                     aad: seq<Byte>, junk: Precompute)
      returns (r: Option<nat>, ghost touched: set<nat>)
      requires Valid() && |staticIv| == 12 && seqno < Pow2(HALF)
      requires |aad| * 8 < 0x8000_0000 && inlen * 8 < 0x8000_0000
      requires inlen <= input.Length && inlen - 16 <= output.Length
      modifies this, output
      ensures Valid() && ghashCnt == old(ghashCnt)
      ensures Admissible(aes, CalcCounter(staticIv, seqno), |aad|, inlen)
      ensures inlen >= 16 ==> (touched <= Span(0, ghashCnt) <==> Entries(|aad|, inlen - 16) <= ghashCnt)
      ensures inlen < 16 || Entries(|aad|, inlen - 16) <= ghashCnt ==>
                match Open(aes, CalcCounter(staticIv, seqno), aad, old(input[..inlen]))
                case None => r == None
                case Some(p) => r == Some(|p|) && |p| + 16 == inlen && output[..|p|] == p
    {
      hide Gctr, Tag, CalcCounter, Cipher, H, ValidTable, Pow2, BigEndian, Bytes, Open, Span, Entries;
      CounterIsIv(staticIv, seqno);
      touched := {};
      if inlen < 16 {
        TooShort(aes, CalcCounter(staticIv, seqno), aad, input[..inlen]);
        return None, {};
      }
      Prepare(|aad|, inlen - 16, junk);
      TouchesIff(|aad|, inlen - 16, ghashCnt);
      if Entries(|aad|, inlen - 16) <= ghashCnt { Usable(|aad|, inlen - 16); }
      r, touched := OpenInto(aes, ghash, output, input, inlen, CalcCounter(staticIv, seqno), aad);
    }
  }

  /** One byte of additional data and one of payload, in a context made for nothing: three entries are used, and
      only two are set up. */
  method GrowingFails(aes: Aes, h0: Block, junk: Precompute, staticIv: seq<Byte>, input: array<Byte>,
                      output: array<Byte>)
    returns (context: Context, ghost touched: set<nat>)
    requires ValidAes(aes) && h0 == Cipher(aes, ZERO) && |staticIv| == 12 && input.Length == 1 && output.Length == 17
    modifies output
    ensures context.Valid() && context.ghashCnt == 2 && !(touched <= Span(0, 2))
  {
    hide Cipher, Gctr, Seal, CalcCounter, Span, Pow2, ValidTable;
    HalfPositive();
    context := new Context(aes, h0, 0);
    var supp;
    supp, touched := context.DoEncrypt(staticIv, output, input, 1, 0, [0], NoSupp, junk);
  }

  lemma HalfPositive()
    ensures 0 < Pow2(HALF)
  {}
}
