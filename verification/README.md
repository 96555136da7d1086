# picotls in Dafny

Models of the parts of picotls with the most intricate behaviour, and proofs about them. Each module
follows one source file or one component of it; its methods work in place where the source does, and are
proved against independent definitions: integers, polynomials over the field of two elements, the
standards, one-shot parsing, symbolic terms.

- `Vli`, `VliMul`, `VliMod`, `VliInv`: the multi-word integers of micro-ecc (`deps/micro-ecc/uECC.c`), with
  symbolic word width and word count. Each routine computes the integer it stands for.
- `EccLadder`, `EccCoZ`, `EccDouble`, `EccRun`, `EccOrder`, `EccOutcome`, `EccPoint`: scalar regularization, the
  co-Z formulas and the whole of EccPoint_mult in place on the coordinate arrays. For a point of odd order on a
  curve over a prime field it is shown for which scalars some step is exceptional, what the code computes then, and
  that it computes the multiple for all others. `Primes` has the number theory; `EccSmall` meets all hypotheses on a
  curve of five points, and names the keys of secp256r1.
- `Gf2`, `Ghash`, `Gcm`, `GcmFeed`, `GcmEncrypt`, `GcmDecrypt`, `GcmAead`: the stitched AES-GCM engine
  (`lib/fusion.c`). AES is an arbitrary pair of round functions. The six-lane pipelines, with deferred
  reduction, the table of powers walked backwards, displaced lanes and in-place operation, compute the GCM
  of NIST SP 800-38D for every additional data and payload.
- `TlsReceive`: records out of input chunks and handshake messages out of records (`lib/picotls.c`).
- `TlsKeyUpdate`: two endpoints after the handshake, with an ideal AEAD and ordered channels.
- `TlsSchedule`, `TlsHandshake`, `TlsRuns`: key schedule and handshake over symbolic terms; an invariant of
  every reachable state; complete honest handshakes in all modes.
- `Ffx`, `Ber`, `Base64`: the Feistel cipher (`lib/ffx.c`), the BER walker (`lib/asn1.c`), base64
  (`lib/pembase64.c`).
- `Arith`, `Common`: powers of two, divisibility, congruence; shared types.

`dafny verify dfyconfig.toml` checks everything.

## What is false of the code

Some promises hold only under a condition. Each has a run or an input that breaks it, and its exact condition.

- Multiplying by a private key: `EccPoint.ComputePublicKey` succeeds if and only if the key is `Safe`. Keys 1, n - 2
  and n - 1 of secp256r1 are valid, but the ladder for them meets two opposite points and ends in (0, 0)
  (`EccOutcome.ExceptionalOutcome`, `EccSmall.KeysOfSecp256r1`, `EccSmall.KeyOneIsLost`).
- Growing a GCM context: after `GcmAead.Context.SetCapacity` the messages of the new capacity keep to table entries
  that are set up if and only if there already were enough of them. `GcmAead.Context.DoEncrypt` and `DoDecrypt` say
  it for each message; `GcmAead.GrowingFails` is a message that reads an entry never set up.
- Selecting a pre-shared key: a server may select it together with a suite of another hash. The client then drops the
  key but asks for no certificate: `TlsRuns.KeyIsLost` completes with neither a key nor a certificate behind the
  secrets. `TlsHandshake.Tls.ClientRun`: the key is in the secrets if and only if the hash is that of the ticket.
- The hash after a retry: `TlsSchedule.SelectOne` has a result if and only if the hash is still a candidate. After a
  retry only the one that was named is; `TlsRuns.SlotIsLost` is a run that names another one.
- A stateless retry: `TlsRuns.CookieHello`; the cookie is signed for the negotiated group but checked for the group of
  the second key share. The two differ when the retry is enforced although the first key share would do and that
  share is not of the negotiated group; `TlsRuns.CookieRefused` is such a run.
- A ticket under client authentication: `TlsRuns.Complete`; the resumption secret predicted by the server is the one
  of the client if and only if no client certificate is asked for.
- The FFX mask: the documentation promises that extra bits are left alone and all others encrypted. The first holds if
  and only if the bit length modulo 8 is 0 or at least 4 (`Ffx.ExtraBitsPass`), the second if and only if it is at most
  4 (`Ffx.AllBitsTakePart`). The model follows the table in the code.
- Base64 line by line: decoding undoes encoding if and only if no line ends between the two characters of "=="
  (`Base64.DecodeUndoesEncode`).

## Model

| member | source | states |
|---|---|---|
| `Vli.Clear` | deps/micro-ecc/uECC.c:207-212 | the given words become zero, all others keep their value |
| `Vli.Set` | deps/micro-ecc/uECC.c:262-267 | the first n words are copied, the rest is untouched, also when source and destination are the same array |
| `Vli.IsZero` | deps/micro-ecc/uECC.c:217-224 | true exactly when the number is zero |
| `Vli.CmpUnsafe` | deps/micro-ecc/uECC.c:271-283 | the sign of the difference of the two numbers |
| `Vli.Cmp` | deps/micro-ecc/uECC.c:304-311 | the sign of the difference, by way of a subtraction that may borrow |
| `Vli.Add` | deps/micro-ecc/uECC.c:330-344 | sum plus carry times the weight of the array equals left plus right, also in place, though each carry is only inferred from a comparison |
| `Vli.Sub` | deps/micro-ecc/uECC.c:349-363 | difference minus borrow times the weight equals left minus right, also in place |
| `Vli.RShift1` | deps/micro-ecc/uECC.c:315-325 | the words are the number shifted right by one bit |
| `Vli.ShiftedVal` | deps/micro-ecc/uECC.c:315-325 | a word-wise shift right is division by two |
| `VliMul.MulAdd` | deps/micro-ecc/uECC.c:369-407 | the three-word accumulator grows by a * b, modulo its size |
| `VliMul.Mul2Add` | deps/micro-ecc/uECC.c:446-491 | the accumulator grows by twice a * b, although the doubled product does not fit two words |
| `VliMul.SplitProduct` | deps/micro-ecc/uECC.c:375-394 | two words recombined from four half-word products are the product |
| `VliMul.MulAddSplit` | deps/micro-ecc/uECC.c:369-398 | the half-word variant meets the contract of the double-word one |
| `VliMul.Mul2AddSplit` | deps/micro-ecc/uECC.c:446-480 | likewise for the doubled product |
| `VliMul.AddTwoWords` | deps/micro-ecc/uECC.c:396-398 | carries recovered by comparisons are exact, also when the middle sum wraps |
| `VliMul.ColumnsProduct` | deps/micro-ecc/uECC.c:420-440 | the columns of products, weighted, add up to the product of the numbers |
| `VliMul.MulColumn` | deps/micro-ecc/uECC.c:421-438 | the accumulator holds the column without overflowing |
| `VliMul.StoreColumn` | deps/micro-ecc/uECC.c:421-438 | a column is accumulated, its lowest word stored, and the rest carried into the next column, nothing lost |
| `VliMul.Mult` | deps/micro-ecc/uECC.c:411-440 | the 2n result words are exactly left times right |
| `VliMul.MirrorTerm` | deps/micro-ecc/uECC.c:502-510 | term i of a column of a square and its mirror image are the same product |
| `VliMul.SquareOf` | deps/micro-ecc/uECC.c:493-518 | the 2n result words are exactly the square, each mirrored pair counted once and doubled |
| `VliMod.ModAdd` | deps/micro-ecc/uECC.c:535-545 | the sum modulo mod, for operands below mod, even when the sum overflows the array |
| `VliMod.ModSub` | deps/micro-ecc/uECC.c:549-559 | the difference modulo mod |
| `VliMod.NumDigits` | deps/micro-ecc/uECC.c:232-240 | the number of words up to the last non-zero one |
| `VliMod.NumBits` | deps/micro-ecc/uECC.c:243-258 | the bit length: the least exponent of two above the number |
| `VliMod.ShiftIntoUpper` | deps/micro-ecc/uECC.c:573-585 | the upper half of mod_multiple is mod shifted left by less than a word, nothing lost |
| `VliMod.HalveMultiple` | deps/micro-ecc/uECC.c:599-601 | two half-length shifts and one transferred bit halve the double-length number |
| `VliMod.MMod` | deps/micro-ecc/uECC.c:564-604 | the result is product modulo mod, for any 2n-word product and any mod with a non-zero top word |
| `VliMod.ModMult` | deps/micro-ecc/uECC.c:607-615 | left times right modulo mod |
| `VliMod.ModSquare` | deps/micro-ecc/uECC.c:634-641 | the square modulo mod |
| `VliInv.ModInvUpdate` | deps/micro-ecc/uECC.c:676-687 | u becomes half of u, or of u + mod, whichever is even, also when u + mod overflows the array |
| `VliInv.HalveSide` | deps/micro-ecc/uECC.c:709-716 | an even side is halved along with its coefficient; both invariants hold again |
| `VliInv.SubtractSide` | deps/micro-ecc/uECC.c:717-731 | the greater of two odd sides becomes half of their difference along with its coefficient |
| `VliInv.SubCoefficient` | deps/micro-ecc/uECC.c:718-721 | u - v modulo mod, though u + mod may wrap around before v is subtracted |
| `VliInv.InvStep` | deps/micro-ecc/uECC.c:708-732 | each turn keeps u * input = a and v * input = b modulo mod, keeps the common divisors of a and b, and makes a + b smaller |
| `VliInv.ModInv` | deps/micro-ecc/uECC.c:691-734 | terminates with a result below mod whose product with the input is the greatest common divisor modulo mod; zero gives zero |
| `VliInv.InverseIffCoprime` | deps/micro-ecc/uECC.c:691-734 | that result is an inverse exactly when input and modulus are coprime |
| `EccLadder.TestBit` | deps/micro-ecc/uECC.c:227-229 | the bit of the number |
| `EccLadder.RegularizeK` | deps/micro-ecc/uECC.c:902-913 | the chosen scalar, with its implied top bit, is k + n if that reaches the bit length, and k + 2n if not, though the bit may have been truncated |
| `EccLadder.ImpliedBit` | deps/micro-ecc/uECC.c:876-882 | the bits below the implied top bit are those of the stored words |
| `EccLadder.StepKeepsRungs` | deps/micro-ecc/uECC.c:876-880 | addC then add turns (m P, (m + 1) P) into the next such pair, in any abelian group |
| `EccCoZ.XYcZAdd` | deps/micro-ecc/uECC.c:788-813 | in place on the coordinate arrays: the co-Z addition, register by register |
| `EccCoZ.XYcZAddC` | deps/micro-ecc/uECC.c:819-854 | in place: sum and difference from shared terms |
| `EccCoZ.CoAddIsChord` | deps/micro-ecc/uECC.c:788-813 | the formula of XYcZ_add is chord addition of the points shown, at the new common Z, and re-scales its first operand to that Z |
| `EccCoZ.CoAddCIsChord` | deps/micro-ecc/uECC.c:819-854 | the formulas of XYcZ_addC are chord addition with the second point and with its negative, at one new Z |
| `EccDouble.TwiceSlope` | deps/micro-ecc/curve-specific.inc:69-83 | the halved term is the slope numerator with a = -3, at any Z |
| `EccDouble.CoDoubleIsTangent` | deps/micro-ecc/curve-specific.inc:50-95 | the doubling formula is tangent doubling of the point shown, and its third value is the Z at which the double shows |
| `EccDouble.CoInitialShows` | deps/micro-ecc/uECC.c:761-782 | the start shows the point and its double at one Z, which is not zero, whatever the initial Z |
| `EccRun.CoStepTracks` | deps/micro-ecc/uECC.c:876-879 | one ladder step on co-Z registers shows one ladder step on group elements |
| `EccRun.RunTracks` | deps/micro-ecc/uECC.c:876-880 | as long as no step is exceptional: the registers show the multiples named by the bits so far, at a Z that stays away from zero in a prime field |
| `EccRun.FinalZInverts` | deps/micro-ecc/uECC.c:885-892 | the 1/Z recovered from the point itself inverts the Z after the last addition |
| `EccRun.ApplyZInverts` | deps/micro-ecc/uECC.c:748-758 | apply_z with an inverse of Z yields the affine coordinates |
| `EccOrder.RegularIff` | deps/micro-ecc/uECC.c:876-879 | for a point of odd order n: a step from prefix m is regular if and only if m is not 0, n - 1 or (n - 1) / 2 modulo n, whichever bit it appends |
| `EccOrder.RegularRunIff` | deps/micro-ecc/uECC.c:876-880 | the whole run is regular if and only if the scalar is not one of 2n - 2 to 2n + 1 |
| `EccOrder.SafeIff` | deps/micro-ecc/uECC.c:902-913 | a regularized key is one of these exactly if the key is 0, 1, n - 2 or n - 1, but for 1 when n is one less than a power of two |
| `EccOutcome.RegularOutcome` | deps/micro-ecc/uECC.c:857-900 | a regular run over a prime field ends in the affine coordinates of the multiple; the inverse it needs exists |
| `EccOutcome.CuspStep` | deps/micro-ecc/uECC.c:788-854 | the step that adds opposite points leaves one register showing (1, 1) and the other (0, 0), whatever the points |
| `EccOutcome.ExceptionalOutcome` | deps/micro-ecc/uECC.c:876-899 | for the scalars 2n - 2 to 2n + 1 the result is (0, 0) |
| `EccOutcome.MultOutcome` | deps/micro-ecc/uECC.c:857-900 | EccPoint_mult from the affine point on, for every scalar of the right length and every initial Z: the multiple, or (0, 0) around 2n |
| `EccPoint.ScaleByZ` | deps/micro-ecc/uECC.c:748-758 | apply_z in place |
| `EccPoint.FieldHalve` | deps/micro-ecc/curve-specific.inc:75-82 | half modulo p, the carry of the addition brought back into the top word |
| `EccPoint.DoubleJacobian` | deps/micro-ecc/curve-specific.inc:50-95 | in place on three arrays: the doubling formula; a zero Z is left alone |
| `EccPoint.InitialDouble` | deps/micro-ecc/uECC.c:761-782 | in place: point and double, as the start of the ladder |
| `EccPoint.StepInPlace` | deps/micro-ecc/uECC.c:876-879 | in place: one ladder step on the registers |
| `EccPoint.Ladder` | deps/micro-ecc/uECC.c:876-880 | in place: all steps but the last, over the bits of the scalar |
| `EccPoint.Finish` | deps/micro-ecc/uECC.c:882-899 | in place: the last step, the recovery of 1/Z between its two additions, and the scaling |
| `EccPoint.PointMult` | deps/micro-ecc/uECC.c:857-900 | in place, the result possibly the point itself: the outcome whose meaning MultOutcome states |
| `EccPoint.ComputePublicKey` | deps/micro-ecc/uECC.c:915-933 | success if and only if the key is safe, then the affine coordinates of key times base point, reduced; zeros otherwise |
| `EccSmall.SmallIsCurve` | deps/micro-ecc/uECC.c:788-854 | a concrete curve satisfies the chord law that is assumed of curves |
| `EccSmall.SmallIsSuitable` | deps/micro-ecc/uECC.c:857-900 | all that is asked of a curve and its base point, met at once |
| `EccSmall.KeyOneIsLost` | deps/micro-ecc/uECC.c:915-933 | a concrete key for which the ladder yields (0, 0) and not the base point |
| `EccSmall.KeysOfSecp256r1` | deps/micro-ecc/curve-specific.inc:736-747 | the keys below the order of secp256r1 that are safe: all but 1, n - 2 and n - 1 |
| `Ghash.FoldExact` | lib/fusion.c:135-141 | one folding step divides by x^64 modulo the field polynomial |
| `Ghash.ReduceExact` | lib/fusion.c:135-143 | two folding steps divide a 256-bit polynomial by x^128 modulo the field polynomial |
| `Ghash.Karatsuba` | lib/fusion.c:115-133 | three half-width products recombine to the full carry-less product |
| `Ghash.OneStepAdds` | lib/fusion.c:150-162 | gfmul_onestep adds exactly one unreduced product to the three accumulators |
| `Ghash.FinalExact` | lib/fusion.c:164-184 | gfmul_final reduces the accumulated sum, and nothing else |
| `Ghash.GfmulExact` | lib/fusion.c:115-144 | gfmul is the product divided by x^128 modulo the field polynomial |
| `Ghash.TransformExact` | lib/fusion.c:85-112 | transformH multiplies by x modulo the field polynomial |
| `Ghash.NistMulExact` | lib/fusion.c:115-144 | the bit-by-bit product of NIST SP 800-38D, section 6.3, is the product divided by x^127 modulo the same polynomial |
| `Ghash.GfmulIsNistMul` | lib/fusion.c:85-144 | gfmul with a transformed operand is the product of NIST SP 800-38D, section 6.3, on all inputs |
| `Ghash.GhashIsPowerSum` | lib/fusion.c:150-184 | the block-by-block GHASH of section 6.4 is a sum of products with decreasing powers of H |
| `Ghash.DeferredGhash` | lib/fusion.c:150-184 | any number of unreduced products against the stored powers, reduced once, is the block-by-block GHASH |
| `Gcm.RegRoundTrip` | lib/fusion.c:78-79 | the byte swap on loading and storing registers is undone by itself |
| `Gcm.AddOneIs` | lib/fusion.c:80-81 | adding one to the low lane is the counter increment while the low 32 bits have room |
| `Gcm.GctrInvolutive` | lib/fusion.c:231-671 | encryption and decryption use the same keystream: applied twice it vanishes |
| `Gcm.CountSuffices` | lib/fusion.c:749-753 | ceil(capacity / 16) + 2 table entries suffice for every split between additional data and payload |
| `Gcm.NewTable` | lib/fusion.c:755-787 | entry k of the table is power k + 1 of H |
| `Gcm.RunLanes` | lib/fusion.c:345-353 | six lanes finish their AES rounds while up to six blocks are accumulated, the table index walking down over exactly that many entries |
| `Gcm.ApplyBlock` | lib/fusion.c:355-404 | one block of keystream on one, possibly partial, block of text, also in place |
| `GcmFeed.FillAad` | lib/fusion.c:325-340 | the next blocks of the additional data, at most six, the last one padded |
| `GcmFeed.FillText` | lib/fusion.c:431-448 | the next blocks of the ciphertext, the last one padded, read only where it is already final or still intact |
| `GcmFeed.FillBlocks` | lib/fusion.c:411-448 | additional data first, then text: the next blocks of the GHASH input |
| `GcmEncrypt.ChooseInputs` | lib/fusion.c:234-268 | the counters of the next payload blocks; the tag mask in lane 5 and the supplementary sample in lane 4 once they are free and the sample is final |
| `GcmEncrypt.InitLanes` | lib/fusion.c:234-268 | the lanes, after their first round, hold what is to be enciphered |
| `GcmEncrypt.Collect` | lib/fusion.c:368-376 | the tag mask and the supplementary block are taken from their lanes in the turn they are through |
| `GcmEncrypt.SetupFeed` | lib/fusion.c:411-452 | GHASH never reads an output block that has not been written; finish exactly when fewer than six blocks are left |
| `GcmEncrypt.Turn` | lib/fusion.c:344-449 | one turn encrypts the next six payload blocks and accumulates the blocks of the turn before |
| `GcmEncrypt.LastTurn` | lib/fusion.c:454-458 | when GHASH runs out of blocks, AES is far enough ahead for the tag mask to be through |
| `GcmEncrypt.Advance` | lib/fusion.c:344-452 | the body of the loop keeps what the pipeline relies on, reads the table entries it steps over, and leaves the loop exactly when fewer than six blocks were left for GHASH |
| `GcmEncrypt.FinishTag` | lib/fusion.c:451-462 | the remaining blocks and the lengths go in, the table index ends at zero, and the tag stands behind the ciphertext |
| `GcmEncrypt.FinishSupp` | lib/fusion.c:464-479 | the supplementary block is the encryption of its sample, also when the sample covers the tag |
| `GcmEncrypt.Encrypt` | lib/fusion.c:231-487 | for every length of additional data and payload: exactly the GCM ciphertext; the table entries read are those below the number of blocks plus one; exactly the GCM tag if these hold the powers of H; nothing beyond is written, also in place |
| `GcmDecrypt.SetupGdata` | lib/fusion.c:518-560 | the next six blocks, the block of lengths as soon as the text is exhausted |
| `GcmDecrypt.InitBits` | lib/fusion.c:562-578 | counters in the lanes not taken by the tag mask or displaced by additional data |
| `GcmDecrypt.ApplyBits` | lib/fusion.c:610-647 | payload lanes applied up to the last, possibly partial, block, whose keystream is kept |
| `GcmDecrypt.GhashIsAhead` | lib/fusion.c:516-648 | payload is overwritten only after GHASH has read it |
| `GcmDecrypt.OnlyLengthsMissing` | lib/fusion.c:659-663 | when AES finishes first, at most the block of lengths is missing from GHASH |
| `GcmDecrypt.Decrypt` | lib/fusion.c:489-671 | the plaintext for every length pair; the same table entries; true exactly when the tag is the GCM tag of the ciphertext if these hold the powers of H, also in place |
| `GcmAead.CounterIsIv` | lib/fusion.c:890-897 | the counter of a record is the nonce of section 5.3 of RFC 8446 above 32 zero bits, and meets what the pipelines demand |
| `GcmAead.OpenIffSealed` | lib/fusion.c:899-924 | opening yields p exactly on the sealing of p: round trip and rejection in one statement |
| `GcmAead.Context.constructor` | lib/fusion.c:767-787 | a new context holds all powers its capacity calls for |
| `GcmAead.CoversIff` | lib/fusion.c:749-753 | the number of entries that all messages of a capacity need, exactly |
| `GcmAead.Context.SetCapacity` | lib/fusion.c:789-804 | memory for the requested capacity; all its messages keep to set-up entries if and only if there already were enough, since the loop meant to fill the new entries never runs |
| `GcmAead.Context.DoEncrypt` | lib/fusion.c:899-907 | for every message: only set-up entries are read if and only if there are as many as its blocks plus one, and the record is sealed under the nonce of its sequence number then; the ciphertext is right in any case |
| `GcmAead.Context.DoDecrypt` | lib/fusion.c:909-924 | likewise; the plaintext and its length if the record opens, nothing otherwise or when it is shorter than a tag |
| `GcmAead.GrowingFails` | lib/fusion.c:789-804 | a concrete message, within the capacity asked for, that reads an entry never set up |
| `TlsReceive.FirstIsWire` | lib/picotls.c:4146-4157 | a record is complete exactly when its bytes stand at the front: parsing inverts writing |
| `TlsReceive.FirstRecordStable` | lib/picotls.c:4159-4217 | bytes that follow never change what the first record is, nor whether its header is refused |
| `TlsReceive.Receiver.ParseRecord` | lib/picotls.c:4159-4217 | the record, the wait or the error of one-shot parsing of buffered plus new bytes; the consumed count; at least one byte of a non-empty input is consumed |
| `TlsReceive.SplitMessages` | lib/picotls.c:4595-4610 | messages and rest joined are the input, and the rest holds no whole message |
| `TlsReceive.SplitMessagesAppend` | lib/picotls.c:4566-4632 | the messages of a stream do not depend on where it is cut |
| `TlsReceive.Receiver.HandleHandshakeRecord` | lib/picotls.c:4566-4632 | state, buffer and return code as specified for every callback, with the exact overflow conditions of the buffer limit |
| `TlsReceive.DeliverIsPour` | lib/picotls.c:4595-4610 | the loop over one record hands out the messages of one-shot parsing, marked, up to the first that is refused |
| `TlsReceive.OnHandshakeIsPour` | lib/picotls.c:4566-4632 | one record within the buffer limit: its marked messages, the error if there is one, else the rest in the buffer |
| `TlsReceive.OnHandshakeOverflows` | lib/picotls.c:4584-4616 | beyond the limit the record is refused |
| `TlsReceive.RefragmentedIsPour` | lib/picotls.c:4566-4632 | for every callback, flag and errors included: any cut within the limit is what the callback makes of the marked messages, and the rest of one-shot parsing stays buffered |
| `TlsReceive.SameFlagsSameOutcome` | lib/picotls.c:4566-4632 | two cuts that mark the messages alike have one outcome, for every callback |
| `TlsReceive.FlaggedMessages` | lib/picotls.c:4595-4610 | but for the marks, every cut hands out the messages of one-shot parsing |
| `TlsReceive.RefragmentedIsOneShot` | lib/picotls.c:4566-4632 | for every callback that does not look at the end-of-record flag, whatever it returns, and every cut within the buffer limit: state, error and buffered rest of handing over the whole at once |
| `TlsReceive.FlagExact` | lib/picotls.c:4600 | is_end_of_record is set on the last message of a record and only if nothing follows it |
| `TlsReceive.Receiver.HandleInput` | lib/picotls.c:4634-4719 | at most one record; on success nothing of it stays behind; a pending message sends every record to the message layer |
| `TlsReceive.RunSplit` | lib/picotls.c:4634-4719 | cutting the input anywhere changes neither state, nor code, nor what is left, for arbitrary handlers |
| `TlsReceive.ChunksDoNotMatter` | lib/picotls.c:4756-4761 | feeding any sequence of chunks is feeding their concatenation |
| `TlsReceive.StreamIsResumedRun` | lib/picotls.c:4756-4761 | processing all of the input is resuming one run after another |
| `TlsReceive.StreamIsPour` | lib/picotls.c:4566-4719 | both layers, with protection that depends on and changes the state: records on the wire, opened one by one, have the outcome of the marked messages of their fragments |
| `TlsReceive.StreamIsOneShot` | lib/picotls.c:4566-4719 | and for callbacks that do not look at the flag, the outcome of handing over all fragments at once |
| `TlsReceive.Receiver.Handshake` | lib/picotls.c:4756-4761 | the loop over the input has the outcome of one-shot processing |
| `TlsKeyUpdate.UnpadPadded` | lib/picotls.c:4668-4676 | content and type are found below any amount of padding |
| `TlsKeyUpdate.Endpoint.StripPadding` | lib/picotls.c:4668-4676 | the loop that skips the padding |
| `TlsKeyUpdate.Endpoint.PushRecords` | lib/picotls.c:662-682 | records of at most 16384 bytes under consecutive numbers |
| `TlsKeyUpdate.Endpoint.UpdateSendKey` | lib/picotls.c:4822-4840 | the key update goes out under the old key, then the key moves on and the number starts over |
| `TlsKeyUpdate.Endpoint.Send` | lib/picotls.c:4842-4861 | a due key update first, then the data; pending flags are cleared |
| `TlsKeyUpdate.Endpoint.UpdateKey` | lib/picotls.c:4863-4869 | an update is only noted |
| `TlsKeyUpdate.Endpoint.HandleKeyUpdate` | lib/picotls.c:4124-4144 | validation, the next receive key, and the reply that is noted when asked for |
| `TlsKeyUpdate.Endpoint.HandleMessage` | lib/picotls.c:4455-4467 | after the handshake the client takes tickets and key updates, the server key updates, and all else is refused |
| `TlsKeyUpdate.Endpoint.Receive` | lib/picotls.c:4634-4719 | a record opens under exactly the expected key and number; data, tickets, key updates and refusals |
| `TlsKeyUpdate.SendMatches` | lib/picotls.c:4842-4861 | whatever is sent is matched, number for number, by a receiver that was matched before |
| `TlsKeyUpdate.ReceiveMatches` | lib/picotls.c:4634-4719 | receiving from a matched channel never fails and keeps it matched |
| `TlsKeyUpdate.ReceiveTicket` | lib/picotls.c:4455-4459 | a ticket is taken without changing any key |
| `TlsKeyUpdate.EstablishedIsGood` | lib/picotls.c:4049-4066 | the end of the handshake, with any number of tickets already sent, meets the invariant |
| `TlsKeyUpdate.SendIsFresh` | lib/picotls.c:4842-4861 | sending never reuses a secret with a number |
| `TlsKeyUpdate.ActKeepsGood` | lib/picotls.c:4786-4869 | every send, update and delivery on either side keeps the invariant |
| `TlsKeyUpdate.KeyUpdateSafety` | lib/picotls.c:4786-4869 | over every interleaving: no record is refused, what is delivered is a prefix of what was sent, and no pair of secret and number is used twice in either direction or across |
| `TlsKeyUpdate.QuiescentAgreement` | lib/picotls.c:4786-4869 | once nothing is in flight both sides agree on keys and numbers and all data has arrived |
| `TlsKeyUpdate.RequestsAreAskedFor` | lib/picotls.c:4124-4144 | updates do not echo: a request for one in return goes out only because the application asked |
| `TlsKeyUpdate.SendBoundsNumber` | lib/picotls.c:4842-4861 | the sequence number exceeds 2^24 by no more than the records of one send |
| `TlsSchedule.NewSched` | lib/picotls.c:860-911 | one context for every hash that may be chosen, no hash twice, the preferred one first |
| `TlsSchedule.ExtractConforms` | lib/picotls.c:913-932 | each extraction leads to the next secret of section 7.1 of RFC 8446 |
| `TlsSchedule.UpdateHash` | lib/picotls.c:969-976 | every candidate hash takes the message |
| `TlsSchedule.UpdatedUniform` | lib/picotls.c:969-976 | all candidates have seen the same transcript, and the secret stays the one of the standard |
| `TlsSchedule.SelectOne` | lib/picotls.c:934-967 | a result if and only if the hash is a candidate: it keeps its transcript; the early secret is recomputed without a pre-shared key unless the first hash stays and no reset is asked for |
| `TlsHandshake.Tls.SendClientHello` | lib/picotls.c:1901-2130 | first flight: transcript, early secret, binder over the truncated message, early traffic key |
| `TlsHandshake.Tls.FillBinder` | lib/picotls.c:2101-2111 | the binder covers everything before it, and the two partial hash updates are one |
| `TlsHandshake.Tls.ClientHandleHello` | lib/picotls.c:2326-2386 | refused, without a candidate hash, or handled, exactly when each; handshake keys from the chosen hash, with the pre-shared key if and only if it was selected and the hash is its own |
| `TlsHandshake.Tls.ClientHandleRetry` | lib/picotls.c:2280-2324 | refused, without a candidate hash, or handled, exactly when each; the first ClientHello becomes its hash, the retry and the second ClientHello follow; early data is over |
| `TlsHandshake.Tls.ClientHandleEncryptedExtensions` | lib/picotls.c:2417-2515 | early data must have been offered to be accepted; the next state depends on the pre-shared key |
| `TlsHandshake.Tls.ClientHandleCertificateRequest` | lib/picotls.c:2660-2676 | noted and hashed |
| `TlsHandshake.Tls.HandleCertificate` | lib/picotls.c:2722-2807 | hashed, then CertificateVerify is expected, on both sides |
| `TlsHandshake.Tls.HandleCertificateVerify` | lib/picotls.c:2809-2876 | accepted exactly when the callback accepts the signature over the transcript up to the certificate |
| `TlsHandshake.Tls.ClientHandleFinished` | lib/picotls.c:2878-2936 | accepted exactly with the verify data of the server handshake secret; application keys over the transcript up to it; what is still owed is sent in order |
| `TlsHandshake.Tls.SendRetry` | lib/picotls.c:3783-3849 | the retry request, stateful with the rolled schedule or stateless with the signed cookie |
| `TlsHandshake.Tls.BeginHello` | lib/picotls.c:3733-3781 | before the ClientHello is hashed: nothing, what a retry left, or what the cookie stands for |
| `TlsHandshake.Tls.FindIdentity` | lib/picotls.c:3420-3507 | the first identity that can be used |
| `TlsHandshake.Tls.TakeHello` | lib/picotls.c:3856-3896 | the binder decides; the ClientHello is hashed whole, the early secret extracted once |
| `TlsHandshake.Tls.SendFlight` | lib/picotls.c:3898-4046 | all messages and keys of the server flight, each over the transcript before it |
| `TlsHandshake.Tls.SendSessionTicket` | lib/picotls.c:1406-1470 | the resumption secret over the predicted EndOfEarlyData and Finished; the transcript is restored |
| `TlsHandshake.Tls.ServerHandleHello` | lib/picotls.c:3570-4071 | failure, stateful retry, stateless retry or flight, exactly when each happens and with what result |
| `TlsHandshake.Tls.ServerHandleEndOfEarlyData` | lib/picotls.c:4073-4086 | the pending handshake key is commissioned |
| `TlsHandshake.Tls.ServerHandleFinished` | lib/picotls.c:4088-4104 | accepted exactly with the verify data of the client handshake secret; the pending application secret takes effect |
| `TlsHandshake.Tls.ClientHandleNewSessionTicket` | lib/picotls.c:2938-2979 | the resumption secret over the whole transcript |
| `TlsHandshake.Tls.ClientHandleMessage` | lib/picotls.c:4400-4478 | any message in any state: refused, or without a candidate hash exactly when the hash was dropped before, or the invariant holds again |
| `TlsHandshake.Tls.ServerHandleMessage` | lib/picotls.c:4480-4544 | any message in any state: refused, or the invariant holds again |
| `TlsHandshake.Tls.ClientRun` | lib/picotls.c:5257-5285 | over every error-free run the read epoch is that of the installed key, and completion means a confirmed Finished, with CertificateVerify unless a pre-shared key was selected; the key is in the secrets then if and only if the hash is its own; if every selection keeps the hash, completion means the key or a certificate |
| `TlsHandshake.Tls.ServerRun` | lib/picotls.c:5257-5285 | likewise; a handshake secret is pending exactly while EndOfEarlyData is expected; with client authentication completion always means a verified certificate |
| `TlsRuns.DirectHello` | lib/picotls.c:3856-3954 | without a retry: same hash, inputs and transcript, pre-shared key or not; accepted early data is read under the client key |
| `TlsRuns.RetryHello` | lib/picotls.c:3836-3847 | with a stateful retry: same hash, inputs and transcript |
| `TlsRuns.CookieHello` | lib/picotls.c:3758-3781 | a fresh server rebuilds the client transcript from the cookie; its answer is a flight if and only if the group signed is that of the second key share |
| `TlsRuns.CookieRefused` | lib/picotls.c:3117-3141 | a complete exchange, with concrete groups and a ticket, whose second ClientHello is refused |
| `TlsRuns.HearFlight` | lib/picotls.c:2878-2936 | the client accepts the server flight and concludes with the messages of the standard |
| `TlsRuns.HearClosing` | lib/picotls.c:4073-4104 | the server accepts the conclusion; both hold the same schedule and opposite traffic keys |
| `TlsRuns.Complete` | lib/picotls.c:1406-1470 | the resumption secret predicted by the server is the one the client derives exactly when no client certificate is asked for |
| `TlsRuns.DirectHandshake` | lib/picotls.c:860-1070 | every honest handshake without a retry ends in agreement on transcript, secrets and keys |
| `TlsRuns.RetryHandshake` | lib/picotls.c:978-997 | every honest handshake with a stateful retry ends in agreement |
| `TlsRuns.CookieHandshake` | lib/picotls.c:3758-3835 | every honest handshake with a stateless retry ends in agreement, exactly when the cookie is accepted |
| `TlsRuns.KeyIsLost` | lib/picotls.c:2326-2386 | a run that completes with a pre-shared key selected, although no key is in the secrets and no certificate would be accepted |
| `TlsRuns.SlotIsLost` | lib/picotls.c:934-967 | a run in which the chosen hash has no candidate left |
| `Ffx.OnePass` | lib/ffx.c:119-136 | in place: the target becomes itself xor the masked confusion of the source |
| `Ffx.PassTwice` | lib/ffx.c:119-136 | a pass with the same source undoes itself, for every cipher |
| `Ffx.PairInverse` | lib/ffx.c:161-186 | two rounds of decryption undo two rounds of encryption and the other way round |
| `Ffx.DecryptUndoesEncrypt` | lib/ffx.c:138-200 | for every cipher, tweak, mask, length and even number of rounds, decryption undoes encryption |
| `Ffx.UnmaskedBitsPass` | lib/ffx.c:153-195 | the bits outside the mask pass through in both directions, for any number of rounds |
| `Ffx.PassesIff` | lib/ffx.c:138-200 | bits of the last byte come out as they went in, for all keys and blocks, if and only if they are outside the mask |
| `Ffx.ExtraBitsPass` | include/picotls/ffx.h:51-56 | the extra bits are left alone if and only if the bit length modulo 8 is 0 or at least 4 |
| `Ffx.AllBitsTakePart` | lib/ffx.c:39-68 | every bit of the block is encrypted if and only if the bit length modulo 8 is at most 4 |
| `Ffx.DocumentedExample` | include/picotls/ffx.h:51-56 | of 39 bits, one extra bit is left alone as documented, and six bits of the block are too; of nine bits, six extra ones are not |
| `Ffx.Context.constructor` | lib/ffx.c:32-79 | halves and mask from the bit length |
| `Ffx.Context.Encrypt` | lib/ffx.c:138-200 | the transformation of the block, also in place; zeros for a block of another length |
| `Ber.ReadLongType` | lib/asn1.c:91-114 | the long form of a type number in 32 bits, inside the input |
| `Ber.LengthOf` | lib/asn1.c:132-178 | length, end and status of the length octets, reads inside the input |
| `Ber.ValidationRecursive` | lib/asn1.c:207-282 | terminates, reads inside its piece, consumes between one octet and all of it |
| `Ber.WalkChildren` | lib/asn1.c:230-268 | the loop over the elements of a constructed element, end-of-content included |
| `Ber.Validation` | lib/asn1.c:284-297 | the status of the whole input |
| `Ber.LongTypeReads` | lib/asn1.c:91-114 | the digits of every 32-bit type number are read back |
| `Ber.LengthReads` | lib/asn1.c:132-178 | the minimal form of every 32-bit length is read back, whatever follows |
| `Ber.WalkEncoding` | lib/asn1.c:207-282 | the encoding of every tree, definite or indefinite, is walked without error and consumed exactly, whatever follows |
| `Ber.EncodingsValidate` | lib/asn1.c:284-297 | the encoding of every tree is valid |
| `Base64.LetterValue` | lib/pembase64.c:32-53 | the two tables are inverse |
| `Base64.EncodeCell` | lib/pembase64.c:55-67 | four letters for three octets |
| `Base64.Encode` | lib/pembase64.c:74-106 | the text of section 4 of RFC 4648, of the announced length, with a terminating NUL |
| `Base64.Decoder.Decode` | lib/pembase64.c:123-215 | state, octets and result of one line, for every line |
| `Base64.PushCell` | lib/pembase64.c:174-187 | four letters give back the three octets |
| `Base64.FeedLine` | lib/pembase64.c:123-215 | one line between blanks moves the decoder from one cut of the text to the next |
| `Base64.BadCutIsRefused` | lib/pembase64.c:123-215 | a line that ends between the two characters of "==" is refused |
| `Base64.DecodeUndoesEncode` | lib/pembase64.c:123-215 | for every octet string and every cut of its text into lines: accepted if and only if no line ends between the two characters of "==", and then the octets come back and nothing is pending |

## Left out

- Word widths: the model of micro-ecc asks for at least two bits per word, and for an even width where half
  words are used; loop counters are unbounded.
- Curve-specific reduction of micro-ecc, and the doubling and square terms of secp256k1: multiplication uses the generic
  reduction, and doubling that of the curves with a = -3.
- EccPoint.PointMult: a point is a pair of arrays, where the source has one array with two halves.
- EccPoint.ComputePublicKey: that the numbers of a named curve satisfy the group law and the order is assumed of them;
  `EccSmall` satisfies it by computation.
- ECDSA, ECDH, point validation and the byte conversions of micro-ecc: they would add easy members.
- AES rounds and key expansion, SHA-2, HMAC and HKDF internals: arbitrary functions or symbols.
- GcmEncrypt.Encrypt: block counters are kept within their low 32 bits and bit lengths within 31 bits, which
  is what the source's own fields hold.
- GcmAead.BuildIv: a function where the source has a loop over the bytes.
- The page-boundary trick of loadn, memory clearing, allocation failure and constant-time behaviour.
- TlsReceive: removing the protection of a record, and alerts, are parameters of the receiver.
- TlsReceive.RefragmentedIsOneShot: within the buffer limit; `OnHandshakeOverflows` says what happens beyond it. For
  callbacks that look at the flag `RefragmentedIsPour` says what they see, since the flag does depend on the cut.
- TlsKeyUpdate: sequence numbers are unbounded; `SendBoundsNumber` keeps them near 2^24. Alerts are not sent. Whether
  the client keeps a ticket is an arbitrary function of its bytes, which takes the tickets of the server.
- TlsHandshake: messages are symbolic, so decoding, session identifiers, server names, protocol negotiation,
  ESNI, certificate compression and skipping of early data are not modelled; exporter secrets are not either.
- TlsHandshake.Tls.FindIdentity: age, name, protocol and key exchange checks on a ticket are one arbitrary
  function of the identity; the comparison of cipher suites is kept.
- TlsRuns: one client key share and one identity, as the client of the source sends them; the record
  emitter for retries with a cookie; no second retry.
- Ffx.DecryptUndoesEncrypt: for even numbers of rounds, which is what the source documents.
- Ffx.Context.constructor: bit lengths the source asserts against, below 9 or above 256, are excluded.
- Ber.Validation: an empty input, whose first octet the source reads unguarded, is excluded.
- Ber.EncodingsValidate: type numbers and lengths within 32 bits, and no element that reads as an end-of-content
  inside an indefinite length.
- Ber: a type number above 32 bits, a length above 32 bits and malformed input are walked as the source walks
  them, but nothing is claimed about which of them are refused.
- Base64: text after the padding is accepted as in the source; rejection is not claimed.
- PEM files, the command line program, the other cryptographic back ends and logging.
