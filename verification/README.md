# Verified model of the QRL v2.0 hardware-wallet signer

The application signs transactions with ML-DSA-87 (FIPS 204) on a device with little RAM, decodes the
RLP transaction it is asked to sign, and shows the amounts in decimal. This project models that code in
Dafny and proves what it computes.

| part | modules |
|---|---|
| machine words, residues modulo q | `Words`, `Modular`, `Powers` |
| reductions, twiddle table, transforms | `Reduce`, `ZetaTable`, `Zetas`, `Transform`, `Inlined`, `TransformTheory`, `Multiplication` |
| rounding, hints, norms, elementwise loops | `Rounding`, `Norm`, `Vectors` |
| rejection sampling, challenge, low-RAM matrix product | `Sampling`, `Challenge`, `MatrixProduct` |
| bit packing, hint codec, signature layout | `Packing`, `HintCodec`, `SignatureFormat` |
| key generation, signing, verification | `Scheme`, `Signing`, `Standard`, `Storage` |
| sponges | `Sponge`, `Hashing` |
| transaction format, decoder, amounts on the screen | `Rlp`, `RlpDecoder`, `Decimal`, `Formatting`, `Multiply`, `Screen` |
| the command dialogue, and the device that runs it | `Apdu`, `Device` |

The central result is that whatever the signing loop releases, the verifier accepts for the same path
and message. `Scheme` proves the verification equation A*z - c*t1*2^13 = w - c*s2 + c*t0 on the integers
the code computes, Montgomery factors included, and recovers the hashed high parts through the hints.
`Signing` lifts this over the codecs and the rejection loop; `Storage` proves that the loops over
non-volatile storage compute exactly those functions, so the self-verification after signing never fails.
`Standard` states what these functions mean: signing and verification as in sections 6.2 and 6.3 of
FIPS 204, with products of polynomials, centred residues and literal bytes (`Standard.SignMeaning`,
`Standard.VerifyMeaning`).

How the code is read:

- A variable of a fixed width has a subset type (`int32`, `int64`, `uint32`, `uint64`, `byte`). Every
  assignment is checked to fit, so each verified method is free of overflow. Casts that truncate are
  written out; an arithmetic shift right is a floor division, a shift left a multiplication, and a mask
  with 2^k - 1 a remainder. Lanes of the sponges are bit vectors.
- An in-place loop is a method on an array, tied to a function of the old contents. The elementwise loops
  of `poly.c`, `polyvec.c` and the `*_volatile` functions differ only in their bodies; the bodies are the
  values of two enumerations (`Vectors.Unary`, `Vectors.Binary`), and one loop serves each enumeration.
  The transforms that the `*_volatile` functions write out are modelled as they stand (`Inlined`).
- A SHAKE output is an arbitrary function from input and position to byte. Rejection loops need not
  terminate on an arbitrary stream; a ghost argument says how many candidates suffice.
- `Q_INV` is q^-1 modulo 2^32, as the code of `src/mldsa87/reduce.c` needs it; the comment at
  `src/mldsa87/constant.h:30` has the other sign.
- `combined_method` squeezes 842 bytes and uses 840 of them before it refills. The model keeps that order
  of reading. It agrees with Algorithm 30 of FIPS 204, whatever follows the first 840 bytes, if and only if
  the 280 candidates in them suffice (`Sampling.FollowsStandardIff`).
- The bytes that are streamed after an approval are the self-verified signature (`Device.StreamVerifies`).
  The permission to read survives a later confirmed transaction whose signing fails after the signature
  buffer was overwritten; `Apdu.StreamIsApprovedIff` says exactly when the buffer holds the signature that
  was released last.

## Model

| member | source | states |
|---|---|---|
| `Reduce.MontCong` | src/mldsa87/reduce.c:4-9 | for every argument the reduction returns the residue times 2^-32 modulo q |
| `Reduce.MontRange` | src/mldsa87/reduce.c:4-9 | for arguments within 2^31*q the result is below q in magnitude and no cast of the code loses a bit of it |
| `Reduce.Reduce32Correct` | src/mldsa87/reduce.c:10-17 | the result is congruent to the argument and lies in [-6283009, 6283008] |
| `Reduce.CAddQCorrect` | src/mldsa87/reduce.c:18-20 | every argument of magnitude below q is mapped to its canonical residue |
| `Zetas.TableMeaning` | src/mldsa87/constant.c:4-34 | entry k of the table is 2^32 * 1753^BitRev8(k) modulo q and below q/2 in magnitude |
| `Zetas.SquareLaw` | src/mldsa87/constant.c:4-34 | the squares of entries 2k and 2k+1 are entry k and its negative, up to Montgomery factors |
| `Zetas.MirrorLaw` | src/mldsa87/constant.c:4-34 | the factors that the two transforms use for the same block are inverse up to sign |
| `Transform.ButterflyBlock` | src/mldsa87/ntt.c:14-18 | the innermost forward loop performs all butterflies of one block and changes nothing else |
| `Transform.InvButterflyBlock` | src/mldsa87/ntt.c:34-39 | the same for the inverse loop, whose second half is computed from the difference |
| `Transform.Ntt` | src/mldsa87/ntt.c:5-21 | the triple loop computes the composition of the eight layers and no step leaves 32 bits, for inputs up to 2^31 - 1 - 8q |
| `Transform.ForwardRange` | src/mldsa87/ntt.c:10-20 | each forward layer adds at most q to the magnitude of the coefficients |
| `Transform.InvNttToMont` | src/mldsa87/ntt.c:23-45 | the triple loop and the final scaling compute the eight inverse layers and no step leaves 32 bits, for inputs within q |
| `Transform.InvNttRange` | src/mldsa87/ntt.c:23-45 | from coefficients within q the inverse transform ends within q/2 + 20970, so that adding a short secret stays below q |
| `TransformTheory.NttLinear` | src/mldsa87/ntt.c:5-45 | both transforms are linear modulo q |
| `TransformTheory.LayerPair` | src/mldsa87/ntt.c:10-41 | an inverse layer after the matching forward layer doubles every coefficient, and conversely, for any number of blocks |
| `TransformTheory.InverseOfNtt` | src/mldsa87/ntt.c:5-45 | inverse after forward multiplies every coefficient of every polynomial by 2^32 modulo q |
| `TransformTheory.NttOfInverse` | src/mldsa87/ntt.c:5-45 | forward after inverse does the same |
| `Multiplication.NttEvaluates` | src/mldsa87/ntt.c:5-21 | coefficient i of the transform is the value of the polynomial at 1753^(2*BitRev8(i)+1), the definition of section 7.5 of FIPS 204 |
| `Multiplication.PointIsRoot` | src/mldsa87/ntt.c:5-21 | all 256 evaluation points are roots of X^256 + 1 |
| `Multiplication.MultiplicationTheorem` | src/mldsa87/poly.c:41-53 | transforming, multiplying pointwise and transforming back is schoolbook multiplication modulo X^256 + 1 |
| `Rounding.Power2RoundCorrect` | src/mldsa87/rounding.c:4-10 | the shift computes Algorithm 35 of FIPS 204 with centred low part, on all canonical residues |
| `Rounding.DecomposeCorrect` | src/mldsa87/rounding.c:12-21 | the multiply-and-shift quotient computes Algorithm 36 of FIPS 204, with exact ranges and reconstruction |
| `Rounding.MakeHintMeaning` | src/mldsa87/rounding.c:23-30 | the branchless masks decide whether the low part lies outside (-GAMMA2, GAMMA2], except at -GAMMA2 with high part 0 |
| `Rounding.UseHintMeaning` | src/mldsa87/rounding.c:32-43 | the masks select the same value as the cases of Algorithm 40 of FIPS 204 |
| `Rounding.HintRecovery` | src/mldsa87/rounding.c:12-43 | the hint made for a displaced value recovers its high part, also across q-1, and is 1 exactly when the high part moved |
| `Vectors.MapVec` | src/mldsa87/sign.c:142-155 | a one-argument loop through the scratch polynomial applies the operation to every coefficient, also in place |
| `Vectors.ZipVec` | src/mldsa87/sign.c:205-214 | a two-argument loop does the same, also when the target is an operand |
| `Vectors.ByPolyVec` | src/mldsa87/sign.c:748-762 | every entry of the vector is multiplied with the polynomial in the transform domain, also in place |
| `Inlined.InlinedReduction` | src/mldsa87/sign.c:229-232 | the reduction written in place loses no bit and gives the value of `montgomery_reduce` |
| `Inlined.NttInlined` | src/mldsa87/sign.c:219-243 | the triple loop written out in the storage functions, with its own reduction and locals, computes the same integers as `ntt` |
| `Inlined.InvNttInlined` | src/mldsa87/sign.c:160-200 | the same for the inverse transform and its final scaling |
| `Vectors.NttVec` | src/mldsa87/polyvec.c:24-28 | the plain loop over a vector in RAM, which calls `ntt` |
| `Vectors.NttVolatile` | src/mldsa87/sign.c:447-471 | the storage loop with the written-out transform gives the vector that the plain loop gives |
| `Vectors.InvNttVolatile` | src/mldsa87/sign.c:572-615 | every polynomial in storage becomes what `inv_ntt_to_mont` makes of it |
| `Vectors.PolyNtt` | src/mldsa87/sign.c:815-842 | the same for the single polynomial of the challenge |
| `Vectors.DecomposeVec` | src/mldsa87/sign.c:473-521 | the two passes give both parts even when the high parts overwrite the argument |
| `Vectors.Power2RoundVec` | src/mldsa87/sign.c:260-293 | likewise for the rounding of t |
| `Norm.ChkNorm` | src/mldsa87/poly.c:83-103 | the constant-time check returns 0 exactly when the bound is at most (q-1)/8 and every coefficient is below it in magnitude |
| `Norm.VChkNorm` | src/mldsa87/polyvec.c:54-63 | the vector check returns 0 exactly when all polynomials pass |
| `Norm.NormOfResidue` | src/mldsa87/reduce.c:10-17 | after `reduce_32` the check decides the centred residue, although the reduced value is not always centred |
| `Sampling.RejUniform` | src/mldsa87/sign.c:64-76 | the inner loop appends exactly the accepted candidates of the buffer, in order |
| `Sampling.SampleUniform` | src/mldsa87/sign.c:56-104 | in every terminating run the polynomial is the first 256 accepted candidates of the stream in the order in which it is read, across refills |
| `Sampling.First256Unique` | src/mldsa87/sign.c:61-103 | the sampled polynomial does not depend on how far beyond a sufficient number of candidates one looks |
| `Sampling.AgreesWithStandard` | src/mldsa87/sign.c:57-84 | when 280 candidates suffice the result is that of Algorithm 30 of FIPS 204 |
| `Sampling.FollowsStandardIff` | src/mldsa87/sign.c:57-84 | for every content of the first 840 bytes: the result is that of Algorithm 30 for all continuations if and only if those bytes hold 256 acceptable candidates, the guard of the refill loop |
| `Sampling.LateDisagrees` | src/mldsa87/sign.c:79-103 | whenever a refill is needed there is a continuation on which the first coefficient after it differs |
| `Sampling.DisagreesWithStandard` | src/mldsa87/sign.c:57-84 | an instance: 842 refused bytes followed by zeros |
| `Sampling.SampleEta` | src/mldsa87/poly.c:154-193 | the short secret polynomial is the first 256 accepted half bytes, across block refills |
| `Sampling.EtaInRange` | src/mldsa87/poly.c:154-174 | its coefficients lie in [-2, 2] |
| `Sampling.MatrixCandidate` | src/mldsa87/sign.c:64-76 | candidate k is three bytes, lowest first, without the top bit, accepted below q; two bytes are skipped behind the first 840 |
| `Sampling.EtaCandidate` | src/mldsa87/poly.c:154-174 | the low half of a byte comes first; 15 is refused, and d < 15 gives 2 - d mod 5 |
| `Sampling.First256At` | src/mldsa87/poly.c:154-193 | each accepted candidate is the next coefficient, in order |
| `Challenge.PolyChallenge` | src/mldsa87/sign.c:764-813 | the in-place sampler equals SampleInBall on the contiguous stream, across refills |
| `Challenge.ChallengeUnique` | src/mldsa87/sign.c:788-800 | the sampled challenge does not depend on how far beyond the deciding byte the stream is read |
| `Challenge.ChallengeWeight` | src/mldsa87/sign.c:781-809 | exactly 60 coefficients are 1 or -1 and the others 0 |
| `Challenge.SignWordBits` | src/mldsa87/sign.c:774-779 | bit k of the sign word is bit k % 8 of byte k / 8 |
| `Challenge.SampleInBall` | src/mldsa87/sign.c:786-809 | Algorithm 29 of FIPS 204 step by step: bytes above i are skipped, positions exchanged, and the sign of step k is bit k of the first eight bytes |
| `MatrixProduct.CombinedMethod` | src/mldsa87/sign.c:35-135 | the read-modify-write product with one scratch polynomial is the product with the expanded matrix, and stays within 7q |
| `MatrixProduct.AccRange` | src/mldsa87/polyvec.c:136-145 | n accumulated terms stay within n*q for every word vector |
| `Packing.UnpackOfPack` | src/mldsa87/poly.c:250-429 | for the 3-, 10-, 13- and 20-bit layouts unpacking restores a polynomial if and only if its coefficients are in the legal range |
| `Packing.PackOfUnpack` | src/mldsa87/poly.c:250-429 | every byte string unpacks to legal coefficients and packs to itself |
| `Packing.GroupRoundTrips` | src/mldsa87/poly.c:250-429 | within one group the shift-and-or formulas of packing and unpacking are inverse bijections |
| `Packing.PackPoly` | src/mldsa87/poly.c:250-267 | the packing loop writes the groups one after the other and nothing else |
| `Packing.UnpackPoly` | src/mldsa87/poly.c:414-429 | the unpacking loop reads them back; the missing mask of the second coefficient does no harm |
| `Packing.UnpackField` | src/mldsa87/poly.c:250-429 | coefficient k is written in the bits from w*k on, lowest first: t1 itself, 2 - s, 2^12 - t0, 2^19 - z |
| `Packing.PackField` | src/mldsa87/poly.c:250-429 | the same for packing, on all legal coefficients |
| `HintCodec.DecodeOfEncode` | src/mldsa87/sign.c:721-745 | every 0/1 hint with at most 75 ones is decoded from its encoding |
| `HintCodec.EncodeOfDecode` | src/mldsa87/sign.c:1148-1184 | whatever the decoder accepts is the encoding of the hint it returns |
| `HintCodec.EncodeHints` | src/mldsa87/sign.c:723-742 | the nested loops write positions, padding and running counts of the encoding |
| `HintCodec.DecodeHints` | src/mldsa87/sign.c:1148-1184 | 0 is returned exactly for ascending lists with monotone ends and zero padding, and then the hint is stored |
| `HintCodec.EncodeMeaning` | src/mldsa87/sign.c:721-745 | list i ends at byte 75 + i and holds, ascending, the positions of the ones of polynomial i; the rest of the first 75 bytes is zero |
| `HintCodec.AcceptedMeaning` | src/mldsa87/sign.c:1148-1184 | accepted are exactly the bytes with ascending lists in place and zero padding |
| `HintCodec.DecodedMeaning` | src/mldsa87/sign.c:1148-1184 | the decoded hint is one exactly where its list says |
| `HintCodec.CountOnes` | src/mldsa87/sign.c:845-866 | the number that is compared with 75 is the number of ones |
| `SignatureFormat.SignatureRoundTrip` | src/mldsa87/sign.c:655-719 | the verifier reads back challenge, response and hint |
| `SignatureFormat.SignatureUnique` | src/mldsa87/sign.c:1083-1185 | unpackable signatures with the same content are the same bytes |
| `SignatureFormat.PackSig` | src/mldsa87/sign.c:655-746 | the three parts are written at their places |
| `SignatureFormat.UnpackSig` | src/mldsa87/sign.c:1083-1185 | the three parts are read, and 0 is returned exactly when the hint part is well formed |
| `SignatureFormat.SignatureBytes` | src/mldsa87/sign.c:655-746 | 64 bytes of hash, seven times 640 bytes of response, 83 bytes of hint |
| `SignatureFormat.SignatureParts` | src/mldsa87/sign.c:1083-1185 | the same places when reading |
| `SignatureFormat.PublicKeyBytes` | src/mldsa87/sign.c:309-335 | 32 bytes of rho, then eight times 320 bytes |
| `SignatureFormat.HighBytes` | src/mldsa87/sign.c:523-537 | byte m holds two high parts of polynomial m / 128, the first in the low half |
| `SignatureFormat.PackW1Into` | src/mldsa87/sign.c:523-537 | the high parts are written two to a byte, polynomial after polynomial |
| `SignatureFormat.PackW1Injective` | src/mldsa87/sign.c:528-530 | different high parts are hashed as different bytes |
| `Scheme.VerificationEquation` | src/mldsa87/sign.c:1343-1365 | the verifier's value is the canonical residue of w - c*s2 + c*t0 |
| `Scheme.HighPartsRecovered` | src/mldsa87/sign.c:1040-1071 | when the low-part and correction checks pass, response and hints give back exactly the high parts that were hashed |
| `Scheme.ResponseRange` | src/mldsa87/sign.c:1041-1044 | the reduced response stays within q for every mask and challenge |
| `Scheme.ResponseMeaning` | src/mldsa87/sign.c:1040-1044 | the response is y + c*s1 in Z_q[X]/(X^256+1) |
| `Scheme.RingOfTransform` | src/mldsa87/sign.c:941-943 | every entry of the matrix is the transform of a polynomial |
| `Scheme.RowMeaning` | src/mldsa87/sign.c:941-943 | a row of the matrix product is the sum of ring products, for any polynomials whose transforms are the entries |
| `Scheme.PublicMeaning` | src/mldsa87/sign.c:377-388 | the vector that is rounded to the public key is the canonical residue of A*s1 + s2 in the ring, A being the matrix whose transforms are sampled |
| `Scheme.CommitmentMeaning` | src/mldsa87/sign.c:1022-1028 | the commitment is the canonical residue of A*y in the ring |
| `Scheme.SevenTerms` | src/mldsa87/sign.c:35-135 | a row times a vector is the sum of seven products |
| `Scheme.ReconstructionMeaning` | src/mldsa87/sign.c:1350-1365 | for any response within q and any challenge the verifier's value is the canonical residue of A*z - c*t1*2^13 in the ring |
| `Signing.NoncesDistinct` | src/mldsa87/sign.c:399-408 | in at most 814 attempts no nonce wraps and the nonces of two mask polynomials differ |
| `Signing.MaskRange` | src/mldsa87/sign.c:413-441 | mask coefficients lie within GAMMA1 |
| `Signing.ReleasedVerifies` | src/mldsa87/sign.c:1003-1080 | an attempt that passes the four checks packs to a signature that verifies |
| `Signing.SignedVerifies` | src/mldsa87/sign.c:870-1081 | whatever the rejection loop releases is accepted for the same seed and message, for all random bytes |
| `Signing.BoundIrrelevant` | src/mldsa87/sign.c:870-1081 | signing gives the same result for every bound that suffices, so the ghost bound is a termination witness only |
| `Signing.VerdictUnique` | src/mldsa87/sign.c:1222-1386 | the same for the verdict on any signature |
| `Standard.SeedBytes` | src/mldsa87/sign.c:926-933 | rho, rho' and K are bytes 0 to 31, 32 to 95 and 96 to 127 of SHAKE256(seed, 8, 7) |
| `Standard.KeyStreams` | src/mldsa87/sign.c:935-950 | matrix entry (i, j) is sampled from SHAKE128(rho, j, i), the secrets from SHAKE256(rho', nonce, 0) with nonces 0 to 14 |
| `Standard.PublicKeyIs` | src/mldsa87/sign.c:309-335 | the public key is rho and t1, ten bits a coefficient |
| `Standard.PublicSplit` | src/mldsa87/sign.c:953-954 | t1 * 2^13 + t0 is A*s1 + s2 modulo q, with t0 centred |
| `Standard.MuIs` | src/mldsa87/sign.c:970-977 | mu is SHAKE256 of SHAKE256(pk), the bytes 0 and 8, the eight context bytes and the message |
| `Standard.MaskSeedIs` | src/mldsa87/sign.c:979-986 | the mask seed is SHAKE256(K, rnd, mu) |
| `Standard.MaskIs` | src/mldsa87/sign.c:399-441 | polynomial j of attempt a is read from SHAKE256(mask seed, low byte, high byte of 7*a + j), 20 bits a coefficient |
| `Standard.MasksIndependent` | src/mldsa87/sign.c:1006-1008 | the masks of the 814 attempts can be any vectors of legal coefficients, each independently of the others |
| `Standard.AcceptsIff` | src/mldsa87/sign.c:1040-1071 | the checks on reduced values are the checks of the standard on centred residues, with the literal bounds and at most 75 ones; then response and hints are those of the standard |
| `Standard.SearchIs` | src/mldsa87/sign.c:992-1080 | the loop releases the first attempt that passes, and gives up after 814 |
| `Standard.SignMeaning` | src/mldsa87/sign.c:870-1081 | Algorithm 7 of FIPS 204: the signature is the encoding of hash, response and hint of the first attempt that passes the checks |
| `Standard.VerifyMeaning` | src/mldsa87/sign.c:1317-1385 | Algorithm 8 of FIPS 204: a signature is accepted if and only if its hint is well formed, its response is short, and its first 64 bytes are the hash of mu and the recovered high parts |
| `Standard.SufficientExists` | src/mldsa87/sign.c:870-1386 | for every seed and message there is an XOF with which all rejection loops of signing and verification end |
| `Storage.Nvm.Keypair` | src/mldsa87/sign.c:338-393 | key generation leaves the encoding of the key that the signer and the verifier derive from the same seed |
| `Storage.Nvm.PublicVector` | src/mldsa87/sign.c:939-953 | the storage loops compute t, the canonical residues of A*s1 + s2 |
| `Storage.Nvm.Commit` | src/mldsa87/sign.c:1006-1038 | one attempt's mask, high and low parts, hash and transformed challenge |
| `Storage.Nvm.Check` | src/mldsa87/sign.c:1040-1071 | the checks succeed exactly when the attempt is acceptable, and then response and hints are in storage |
| `Storage.Nvm.RejectionLoop` | src/mldsa87/sign.c:992-1080 | the first acceptable of at most 814 attempts is released; key material is unchanged between attempts |
| `Storage.Nvm.SignWithSeed` | src/mldsa87/sign.c:889-1081 | the signer computes the specified outcome for its seed |
| `Storage.Nvm.VerifyWithSeed` | src/mldsa87/sign.c:1255-1385 | the verifier decides exactly the specified predicate |
| `Storage.Nvm.Sign` | src/mldsa87/sign.c:870-1081 | the result code and the stored signature, with all error cases |
| `Storage.Nvm.Verify` | src/mldsa87/sign.c:1222-1386 | the result code and verdict, with all error cases |
| `Storage.Nvm.SignMessage` | src/ui/action/validate.c:38-81 | signing followed by self-verification fails only when signing fails |
| `Storage.SignedResultVerifies` | src/mldsa87/sign.c:1222-1386 | every signature a sign call returns is accepted by a verify call for the same path and message |
| `Storage.SignCodes` | src/mldsa87/sign.c:875-898 | the order of the argument checks of signing; the seed is the first half of the derived secret |
| `Storage.VerifyCodes` | src/mldsa87/sign.c:1229-1270 | the same for verification |
| `Sponge.XorInBytes` | src/mldsa87/shake256.c:26 | the shifted exclusive or on a lane changes exactly one byte of the state |
| `Sponge.PartialStep` | src/mldsa87/shake256.c:23-32 | one more byte, with a permutation when the block is full, is one step of the block sponge |
| `Sponge.Finalized` | src/mldsa87/shake256.c:34-40 | suffix, last bit and permutation complete the padded message, also when both share a byte |
| `Sponge.HistoryDetermines` | src/mldsa87/shake128.c:11-39 | the whole state is determined by the bytes absorbed and taken, not by the division into calls |
| `Sponge.Context.AbsorbBytes` | src/mldsa87/shake128.c:11-20 | absorbing appends to the message, at any split |
| `Sponge.Context.Finalize` | src/mldsa87/keccak256.c:34-40 | the state becomes that of the padded message; suffix 0x1F or 0x01 |
| `Sponge.Context.Squeeze` | src/mldsa87/shake256.c:42-51 | each call returns the next bytes of the one output of section 4 of FIPS 202 |
| `Sponge.ByteOrder` | src/mldsa87/shake256.c:26-48 | the lowest byte of a lane is its first |
| `Sponge.AbsorbMeaning` | src/mldsa87/shake256.c:23-32 | a block is xored into the first bytes of the state, which is then permuted |
| `Sponge.PadMeaning` | src/mldsa87/shake256.c:34-40 | the padding with literal bytes |
| `Hashing.HashParts` | src/mldsa87/sign.c:971-977 | absorbing the parts of an input one after the other and squeezing reads the stream of their concatenation |
| `Hashing.ConcatMeaning` | src/mldsa87/sign.c:971-977 | the parts are absorbed one behind the other |
| `Hashing.KeccakMeaning` | src/mldsa87/keccak256.c:17-52 | rate 136, suffix 0x01, last bit 0x80, and the first 32 bytes of the state |
| `Rlp.ParseOfEncode` | tests/e2e/qrltx.mjs:21-32 | every string or list header that the printer writes is parsed back, whatever follows |
| `Rlp.EncodeOfParse` | src/mldsa87/rlp_decode.c:7-77 | whatever the item parser accepts is the shortest encoding of what it returns, within the bytes it consumes |
| `Rlp.DecodeIff` | src/mldsa87/rlp_decode.c:120-290 | the decoder accepts exactly 0x02, a list header, and eleven well-formed fields of less than 2^31 bytes that fill the list, and returns those fields |
| `Rlp.AcceptedWellFormed` | src/mldsa87/rlp_decode.c:156-277 | every accepted transaction meets the per-field rules |
| `Rlp.TrailingIgnored` | src/mldsa87/rlp_decode.c:284-289 | bytes after the list never change the result |
| `Rlp.IntToBytesMinimal` | tests/e2e/qrltx.mjs:13-19 | the detour over hexadecimal text gives the shortest big-endian bytes |
| `Rlp.ParserUndoesPrinter` | tests/e2e/qrltx.mjs:41-56 | for every transaction that fits and that the printer can print: it is accepted, and its fields come back, if and only if its encoded data is shorter than 2^31 bytes |
| `Rlp.PreimageUnique` | tests/e2e/qrltx.mjs:41-56 | different transactions have different preimages |
| `Rlp.PrintedFieldsDecoded` | tests/e2e/qrltx.mjs:41-56 | the decoded items write chain id, nonce, tip, fee cap, gas and value without leading zeros; recipient and data are the printed bytes |
| `Rlp.PreimageLayout` | tests/e2e/qrltx.mjs:41-56 | the bytes on the wire: 0x02, the list header and the eleven encodings in order |
| `Rlp.PrintableWhen` | tests/e2e/qrltx.mjs:21-39 | every transaction with less than 2^32 - 1000 bytes of data can be printed |
| `Rlp.EncodeMeaning` | tests/e2e/qrltx.mjs:21-32 | the encoding with literal prefixes |
| `Rlp.FieldRules` | src/mldsa87/rlp_decode.c:156-277 | the per-field rules with literal numbers |
| `RlpDecoder.ParseRlpItem` | src/mldsa87/rlp_decode.c:7-77 | for buffers of any size, the pointer code returns -1, or the bytes consumed (converted to an int) with the payload position, never reading outside |
| `RlpDecoder.ParseRlpListHeader` | src/mldsa87/rlp_decode.c:79-118 | the list header is accepted exactly when the item parser sees a list there |
| `RlpDecoder.ZondTx.DecodeLedgerTx` | src/mldsa87/rlp_decode.c:120-290 | 0 exactly for the well-formed transactions, and then the structure holds the fields |
| `RlpDecoder.PrintedMembers` | src/mldsa87/rlp_decode.c:156-277 | after decoding a printed transaction each member of the structure holds the shortest bytes of its number |
| `Decimal.FormatDenotes` | src/ui/tx_format.c:30-67 | the text is the shortest decimal notation of n / 10^d: no redundant zero, no trailing point |
| `Decimal.DenotesUnique` | src/ui/tx_format.c:30-67 | one text never denotes two amounts |
| `Decimal.KnownTexts` | src/ui/tx_format.c:4-67 | some texts, letter by letter |
| `Decimal.Capacity` | src/ui/tx_format.h:6-8 | 256^40 < 10^97 and 256^8 < 10^20 |
| `Formatting.DivideByTen` | src/ui/tx_format.c:12-19 | the in-place pass divides the number by ten and leaves the remainder |
| `Formatting.ToDecimal` | src/ui/tx_format.c:4-28 | the digits of the number are written, and the call fails exactly when input or text is too long |
| `Formatting.FormatWithDecimals` | src/ui/tx_format.c:30-61 | point placement and trimming; failure exactly when the untrimmed text does not fit |
| `Formatting.AmountFits` | src/ui/tx_format.c:63-67 | every amount of up to 40 bytes fits the display buffer and is denoted exactly |
| `Multiply.Accumulate` | src/ui/tx_format.c:84-86 | the accumulated limbs write the product, and no limb overflows |
| `Multiply.PropagateCarries` | src/ui/tx_format.c:87-90 | carrying keeps the number and leaves bytes below the top limb |
| `Multiply.TopLimb` | src/ui/tx_format.c:87-95 | the unmasked top limb fits a byte |
| `Multiply.MultiplyBytes` | src/ui/tx_format.c:69-98 | the shortest bytes of the product, and failure exactly when they do not fit |
| `Multiply.MaxFees` | src/ui/nbgl_display_transaction.c:157-170 | for every accepted transaction the text is produced and denotes gas_fee_cap * gas / 10^18 |
| `Multiply.NumberField` | src/ui/nbgl_display_transaction.c:173-176 | chain id, gas limit and nonce always fit their buffers |
| `Screen.ShowNumbers` | src/ui/nbgl_display_transaction.c:141-196 | no formatter fails for an accepted transaction, and each text of the screen belongs to its field |
| `Screen.ShowPrinted` | src/ui/nbgl_display_transaction.c:141-196 | from the printed transaction to the screen: amount, tip and fee cap times gas are denoted in units of 10^-18, chain id, gas limit and nonce are shown in full |
| `Apdu.BufferAndHash` | src/handler/sign_tx.c:37-132 | in every run the buffer is the concatenation of the accepted chunks since the last P1=0, at most 510 bytes, the hash is that of the last complete transaction, and the path that of the last P1=0 |
| `Apdu.StepSignature` | src/ui/action/validate.c:83-97 | only the signer writes the signature buffer; the permission to read changes with its success and with chunk 17 only |
| `Apdu.ReadIff` | src/handler/sign_tx.c:123-131 | over every run from a device that is not sending: a read is answered with data if and only if a final chunk was answered with data before and no chunk 17 since |
| `Apdu.ReplyMeaning` | src/handler/sign_tx.c:37-134 | every answer of an open dialogue, from the commands alone, with literal lengths |
| `Apdu.StateMeaning` | src/handler/sign_tx.c:37-134 | phase, hash and path after every command |
| `Apdu.Closed` | src/handler/sign_tx.c:58-134 | without an opening command everything is refused and nothing changes |
| `Apdu.ReceivedStep` | src/handler/sign_tx.c:57-84 | what one more command adds to the bytes received |
| `Apdu.ApprovedIsReceived` | src/ui/action/validate.c:83-97 | a final chunk is answered with data if and only if the bytes received decode, are confirmed and are signed, for the opened path |
| `Apdu.StreamIsApprovedIff` | src/ui/action/validate.c:87-93 | the buffer holds the signature released last, whatever failed signers leave behind, if and only if no signer failed in the middle after the last success |
| `Apdu.AfterFailure` | src/ui/action/validate.c:87-89 | after such a failure, chunks of what was left behind are still read |
| `Apdu.SignatureKept` | src/handler/sign_tx.c:38-54 | refused final chunks, new dialogues and other commands that do not overwrite the signature keep it and the permission to read it |
| `Apdu.ChunkRead` | src/helper/send_response.c:41-73 | after an approval each read is answered with that chunk of the signature made then |
| `Apdu.ChunksAreSignature` | src/helper/send_response.c:41-62 | the eighteen chunks in order are the 4627 bytes |
| `Apdu.StreamIsSignature` | src/handler/sign_tx.c:37-134 | over every run: the data of an approval and of the reads 1 to 17, with any harmless commands in between, is the signature of the hash of the bytes received, for the opened path |
| `Device.StreamVerifies` | src/ui/action/validate.c:38-97 | with the real signer and hash, these bytes are accepted by the verifier for that path and that hash |
| `Device.SignerMeaning` | src/ui/action/validate.c:38-81 | when the signer refuses before any work, when it fails in the middle, and what it signs otherwise |
| `Device.Device.Validate` | src/ui/action/validate.c:83-97 | signing, self-verification and release, with the storage it leaves |
| `Device.Device.HandleSignTx` | src/handler/sign_tx.c:37-134 | every command, with the decoder, the hash and the signer it calls, changes context and storage and answers as the transition function says |

## Left out

- Sampling.SampleUniform: the carry-over `memmove` of `src/mldsa87/sign.c:80-83` never moves a byte, because both buffer lengths are multiples of three; this is an assertion in the model, not a copy.
- Storage.Nvm.SignWithSeed: the unions `ubuf`, `pack1` and `u` are separate arrays, so reuse of their memory is not captured; the secret s2 is sampled before the matrix product instead of after it, which the union alone forces.
- Signing.SignedVerifies: termination of the rejection loops is assumed through a ghost bound that suffices for the key expansion and for the challenges of the attempts made; no result depends on which bound (`Signing.BoundIrrelevant`).
- RlpDecoder.ZondTx.DecodeLedgerTx: inputs are shorter than 2^32 bytes, beyond which the int of consumed bytes wraps to a wrong positive value; the application's buffer has 510.
- Rlp.ParserUndoesPrinter: what the printer prints is shorter than 2^32 bytes, the limit of a JavaScript array.
- Device.Device.HandleSignTx: a review ends before the next command; path parsing, the screen, the settings and the random bytes are inputs.
- Apdu.StreamIsApprovedIff: what a signer that gives up leaves in the signature buffer is arbitrary.
- Null pointers, and error returns of callees that always return 0.
- `poly_uniform` with a refill (`src/mldsa87/poly.c:105-132`) and `poly_vec_k_pack_w1` (`src/mldsa87/polyvec.c:185-194`): dead code that differs from its live twin.
- `keccakf`: a parameter; the permutation itself is not compared with section 3.2 of FIPS 202.
- BIP-32 derivation, the random generator, `nvm_write` and the transport: inputs, array assignments and results.
- Wiping of memory and storage, constant-time behaviour, flash wear, hash security and unforgeability.
- Address formatting, public-key streaming, version and name commands, menus and settings: they would only add easy members.
- `encodeSignedTx` and the RPC helpers of `tests/e2e/qrltx.mjs`.
