/**
  Signing and verification as functions of the seed, the message and the random bytes
  (crypto_sign_optimized and crypto_verify_optimized of sign.c), and the central theorem: the verifier
  accepts whatever the signing loop releases.
 */
module Signing {
  import opened Words
  import opened Transform
  import opened Rounding
  import opened Vectors
  import opened Sampling
  import opened Challenge
  import opened MatrixProduct
  import opened Norm
  import opened Packing
  import opened HintCodec
  import opened SignatureFormat
  import opened Scheme

  /** SHAKE128 and SHAKE256 as functions from an input to a stream of bytes. */
  datatype Shake = Shake(x128: Xof, x256: Xof)

  /** The application's context string, "ZOND" and a version. */
  function Context(): (r: seq<byte>)
    ensures |r| == 8
  {
    [0x5A, 0x4F, 0x4E, 0x44, 1, 1, 0, 0]
  }

  function Bytes(x: Xof, input: seq<byte>, from: nat, len: nat): (r: seq<byte>)
    ensures |r| == len
  {
    seq(len, i requires 0 <= i < len => x(input, from + i))
  }

  // ------------------------------------------------------------------ key expansion

  /** The input from which the three seeds of a key are squeezed one after the other. */
  function SeedInput(seed: seq<byte>): seq<byte> {
    seed + [K, L]
  }

  function Rho(x: Shake, seed: seq<byte>): (r: seq<byte>)
    ensures |r| == 32
  {
    Bytes(x.x256, SeedInput(seed), 0, 32)
  }

  function RhoPrime(x: Shake, seed: seq<byte>): seq<byte> {
    Bytes(x.x256, SeedInput(seed), 32, 64)
  }

  function KeySeed(x: Shake, seed: seq<byte>): seq<byte> {
    Bytes(x.x256, SeedInput(seed), 96, 32)
  }

  /** The two bytes that carry a 16-bit nonce. */
  function NonceBytes(nonce: nat): (r: seq<byte>)
    ensures |r| == 2
  {
    [nonce % 256, nonce / 256 % 256]
  }

  function EtaStream(x: Shake, seed: seq<byte>, nonce: nat): Stream {
    Output(x.x256, RhoPrime(x, seed) + NonceBytes(nonce))
  }

  /** n candidates are enough for every rejection loop of the expansion of this seed. */
  ghost predicate Enough(x: Shake, seed: seq<byte>, n: nat) {
    && Supplied(x.x128, Rho(x, seed), n)
    && (forall i :: 0 <= i < K + L ==> SecretSupplied(x, seed, i, n))
  }

  ghost predicate SecretSupplied(x: Shake, seed: seq<byte>, nonce: nat, n: nat) {
    |Sampling.Accepted(Eta(EtaStream(x, seed, nonce)), n)| >= 256
  }

  /** n bytes are enough to sample the challenge of this hash. */
  ghost predicate ChallengeSupplied(x: Shake, c: seq<byte>, n: nat) {
    Decided(Output(x.x256, c), n)
  }

  /** A secret polynomial of the key. */
  ghost function Secret(x: Shake, seed: seq<byte>, n: nat, nonce: nat): Poly
    requires Enough(x, seed, n) && nonce < K + L
  {
    assert SecretSupplied(x, seed, nonce, n);
    First256(Eta(EtaStream(x, seed, nonce)), n)
  }

  ghost function SecretVec(x: Shake, seed: seq<byte>, n: nat, first: nat, len: nat): (v: Vec)
    requires Enough(x, seed, n) && first + len <= K + L
    ensures |v| == len
  {
    seq<Poly>(len, i requires 0 <= i < len => Secret(x, seed, n, first + i))
  }

  ghost function ExpandKey(x: Shake, seed: seq<byte>, n: nat): (key: Key)
    requires Enough(x, seed, n)
    ensures ValidKey(key)
  {
    Key(Matrix(x.x128, Rho(x, seed), n), SecretVec(x, seed, n, 0, L), SecretVec(x, seed, n, L, K))
  }

  lemma ExpandedInRange(x: Shake, seed: seq<byte>, n: nat)
    requires Enough(x, seed, n)
    ensures InRange(ExpandKey(x, seed, n))
  {
    assert Supplied(x.x128, Rho(x, seed), n);
    hide Sampling.Accepted, First256, Enough, Rho;
    var key := ExpandKey(x, seed, n);
    forall i | 0 <= i < K
      ensures Canonical(key.a[i])
    {
      RowCanonical(x.x128, Rho(x, seed), n, i);
    }
    forall i | 0 <= i < K + L
      ensures Bounded(Secret(x, seed, n, i), 2)
    {
      SecretRange(x, seed, n, i);
    }
  }

  lemma SecretRange(x: Shake, seed: seq<byte>, n: nat, i: nat)
    requires Enough(x, seed, n) && i < K + L
    ensures Bounded(Secret(x, seed, n, i), 2)
  {
    assert SecretSupplied(x, seed, i, n);
    hide Sampling.Accepted;
    EtaInRange(EtaStream(x, seed, i), n);
  }

  ghost function EncodedKey(x: Shake, seed: seq<byte>, n: nat): seq<byte>
    requires Enough(x, seed, n)
  {
    PublicKey(Rho(x, seed), T1(ExpandKey(x, seed, n)))
  }

  // ------------------------------------------------------------------ one attempt

  /** The message representative mu. */
  function Mu(x: Shake, pk: seq<byte>, msg: seq<byte>): seq<byte> {
    Bytes(x.x256, Bytes(x.x256, pk, 0, 64) + ([0, 8] + Context()) + msg, 0, 64)
  }

  /** The seed of the masks. */
  function MaskSeed(x: Shake, key: seq<byte>, rnd: seq<byte>, mu: seq<byte>): seq<byte> {
    Bytes(x.x256, key + rnd + mu, 0, 64)
  }

  /** ExpandMask: the mask of one attempt. */
  function Mask(x: Shake, maskSeed: seq<byte>, attempt: nat): (y: Vec)
    ensures |y| == L
  {
    seq<Poly>(L, j requires 0 <= j < L => MaskPoly(x, maskSeed, L * attempt + j))
  }

  function MaskPoly(x: Shake, maskSeed: seq<byte>, nonce: nat): Poly {
    Sizes();
    Unpack(ZLayout, Bytes(x.x256, maskSeed + NonceBytes(nonce), 0, 640), Groups(ZLayout))
  }

  lemma MaskRange(x: Shake, maskSeed: seq<byte>, attempt: nat)
    ensures VBounded(Mask(x, maskSeed, attempt), GAMMA1)
  {
    hide MaskPoly;
    forall j | 0 <= j < L
      ensures Bounded(Mask(x, maskSeed, attempt)[j], GAMMA1)
    {
      MaskPolyRange(x, maskSeed, L * attempt + j);
    }
  }

  lemma MaskPolyRange(x: Shake, maskSeed: seq<byte>, nonce: nat)
    ensures Bounded(MaskPoly(x, maskSeed, nonce), GAMMA1)
  {
    hide Unpack, Groups, Legal;
    Sizes();
    PackOfUnpack(ZLayout, Bytes(x.x256, maskSeed + NonceBytes(nonce), 0, 640), Groups(ZLayout));
    LegalFits(ZLayout, MaskPoly(x, maskSeed, nonce));
  }

  /** No two mask polynomials of a run are sampled from the same input, and no nonce wraps. */
  lemma NoncesDistinct(a: nat, j: nat, b: nat, k: nat)
    requires a < MAX_ATTEMPTS && b < MAX_ATTEMPTS && j < L && k < L
    ensures L * a + j < 0x1_0000
    ensures NonceBytes(L * a + j) == NonceBytes(L * b + k) ==> a == b && j == k
  {
    hide NonceBytes;
    NonceValue(L * a + j);
    NonceValue(L * b + k);
  }

  lemma NonceValue(nonce: nat)
    requires nonce < 0x1_0000
    ensures var b: seq<int> := NonceBytes(nonce); nonce == b[0] + 256 * b[1]
  {
  }

  const MAX_ATTEMPTS: nat := 814

  /** The hash that commits to w1. */
  function CTilde(x: Shake, mu: seq<byte>, w1: Vec): (c: seq<byte>)
    ensures |c| == CTILDE_BYTES
  {
    Bytes(x.x256, mu + PackW1Vec(w1), 0, CTILDE_BYTES)
  }

  ghost function ChallengeOf(x: Shake, c: seq<byte>, n: nat): Poly {
    ChallengeSpec(Output(x.x256, c), n)
  }

  /** What a run of the loop body tries: the mask, the committing hash and the challenge. */
  datatype Attempt = Attempt(y: Vec, ctilde: seq<byte>, c: Poly)

  ghost function Try(x: Shake, key: Key, mu: seq<byte>, maskSeed: seq<byte>, attempt: nat, n: nat): (t: Attempt)
    requires ValidKey(key)
    ensures |t.y| == L && |t.ctilde| == CTILDE_BYTES
  {
    var y := Mask(x, maskSeed, attempt);
    var ctilde := CTilde(x, mu, W1(key, y));
    Attempt(y, ctilde, ChallengeOf(x, ctilde, n))
  }

  /** The four checks of the loop body. */
  ghost predicate Accepts(key: Key, t: Attempt)
    requires ValidKey(key) && |t.y| == L
  {
    && VBelow(Response(key, t.y, t.c), GAMMA1 - BETA)
    && LowBitsKept(key, t.y, t.c)
    && |AllLists(Hints(key, t.y, t.c))| <= OMEGA
  }

  ghost function Released(key: Key, t: Attempt): (sig: seq<byte>)
    requires ValidKey(key) && |t.y| == L && |t.ctilde| == CTILDE_BYTES && Accepts(key, t)
    ensures |sig| == CRYPTO_BYTES
  {
    Signature(t.ctilde, Response(key, t.y, t.c), Hints(key, t.y, t.c))
  }

  datatype Outcome = Signed(sig: seq<byte>) | Exhausted

  /** The rejection loop from an attempt on: the first attempt that passes all checks is released. */
  ghost function Search(x: Shake, key: Key, mu: seq<byte>, maskSeed: seq<byte>, attempt: nat, n: nat): Outcome
    requires ValidKey(key)
    decreases MAX_ATTEMPTS - attempt
  {
    if attempt >= MAX_ATTEMPTS then Exhausted
    else
      var t := Try(x, key, mu, maskSeed, attempt, n);
      if Accepts(key, t) then Signed(Released(key, t)) else Search(x, key, mu, maskSeed, attempt + 1, n)
  }

  /** n bytes are enough for the challenge of each attempt that the loop makes, up to the released one. */
  ghost predicate Settles(x: Shake, key: Key, mu: seq<byte>, maskSeed: seq<byte>, attempt: nat, n: nat)
    requires ValidKey(key)
    decreases MAX_ATTEMPTS - attempt
  {
    attempt < MAX_ATTEMPTS ==>
      var t := Try(x, key, mu, maskSeed, attempt, n);
      ChallengeSupplied(x, t.ctilde, n) && (Accepts(key, t) || Settles(x, key, mu, maskSeed, attempt + 1, n))
  }

  /** n is enough for every rejection loop that signing runs through. */
  ghost predicate SignEnough(x: Shake, seed: seq<byte>, msg: seq<byte>, rnd: seq<byte>, n: nat) {
    && Enough(x, seed, n)
    && var mu := Mu(x, EncodedKey(x, seed, n), msg);
    && Settles(x, ExpandKey(x, seed, n), mu, MaskSeed(x, KeySeed(x, seed), rnd, mu), 0, n)
  }

  ghost function SignSpec(x: Shake, seed: seq<byte>, msg: seq<byte>, rnd: seq<byte>, n: nat): Outcome
    requires Enough(x, seed, n)
  {
    var mu := Mu(x, EncodedKey(x, seed, n), msg);
    Search(x, ExpandKey(x, seed, n), mu, MaskSeed(x, KeySeed(x, seed), rnd, mu), 0, n)
  }

  // ------------------------------------------------------------------ verification

  /** n is enough for every rejection loop that verification runs through. */
  ghost predicate VerifyEnough(x: Shake, seed: seq<byte>, sig: seq<byte>, n: nat)
    requires |sig| == CRYPTO_BYTES
  {
    && Enough(x, seed, n)
    && (HintCodec.Accepted(HintPart(sig)) && VBelow(ResponsePart(sig), GAMMA1 - BETA) ==>
          ChallengeSupplied(x, ChallengePart(sig), n))
  }

  /** What the verifier decides about a signature of the right length. */
  ghost predicate Verifies(x: Shake, seed: seq<byte>, msg: seq<byte>, sig: seq<byte>, n: nat)
    requires Enough(x, seed, n) && |sig| == CRYPTO_BYTES
  {
    var key, c, z := ExpandKey(x, seed, n), ChallengePart(sig), ResponsePart(sig);
    && HintCodec.Accepted(HintPart(sig))
    && VBelow(z, GAMMA1 - BETA)
    && c == CTilde(x, Mu(x, EncodedKey(x, seed, n), msg),
                   Recovered(key, z, ChallengeOf(x, c, n), Decoded(HintPart(sig))))
  }

  /** The coefficients of a challenge are -1, 0 and 1. */
  lemma ChallengeRange(x: Shake, c: seq<byte>, n: nat)
    requires ChallengeSupplied(x, c, n)
    ensures Bounded(ChallengeOf(x, c, n), 1)
  {
    hide ChallengeSpec;
    ChallengeWeight(Output(x.x256, c), n);
  }

  /** After the norm checks every hint is 0 or 1. */
  lemma HintsAreBits(key: Key, y: Vec, c: Poly)
    requires InRange(key) && |y| == L && VBounded(y, GAMMA1) && LowBitsKept(key, y, c)
    ensures IsHint(Hints(key, y, c))
  {
    hide LowRest, Correction, W1, MakeHint;
    forall i, k | 0 <= i < K && 0 <= k < 256
      ensures 0 <= Hints(key, y, c)[i][k] <= 1
    {
      assert Below(LowRest(key, y, c)[i], GAMMA2 - BETA) && Below(Correction(key, c)[i], GAMMA2);
      HighRange(key, y, i, k);
      MakeHintMeaning(LowRest(key, y, c)[i][k] + Correction(key, c)[i][k], W1(key, y)[i][k]);
    }
  }

  lemma HighRange(key: Key, y: Vec, i: nat, k: nat)
    requires InRange(key) && |y| == L && VBounded(y, GAMMA1) && i < K && k < 256
    ensures 0 <= W1(key, y)[i][k] < 16 && -GAMMA2 <= W0(key, y)[i][k] <= GAMMA2
  {
    hide Commitment, Decompose;
    CommitmentRow(key, y, GAMMA1, i);
    DecomposeCorrect(Commitment(key, y)[i][k]);
  }

  /** A released attempt verifies. */
  lemma ReleasedVerifies(x: Shake, seed: seq<byte>, msg: seq<byte>, maskSeed: seq<byte>, attempt: nat, n: nat)
    requires Enough(x, seed, n)
    requires var key, mu := ExpandKey(x, seed, n), Mu(x, EncodedKey(x, seed, n), msg);
      var t := Try(x, key, mu, maskSeed, attempt, n);
      ChallengeSupplied(x, t.ctilde, n) && Accepts(key, t)
    ensures var key, mu := ExpandKey(x, seed, n), Mu(x, EncodedKey(x, seed, n), msg);
      var sig := Released(key, Try(x, key, mu, maskSeed, attempt, n));
      VerifyEnough(x, seed, sig, n) && Verifies(x, seed, msg, sig, n)
  {
    hide Enough, ExpandKey, Mu, Response, Recovered, Hints, W1, LowBitsKept, InRange, Legal;
    hide Signature, ChallengePart, ResponsePart, HintPart, HintCodec.Accepted, Decoded, CTilde, ChallengeOf, Mask;
    hide ChallengeSupplied;
    var key, mu := ExpandKey(x, seed, n), Mu(x, EncodedKey(x, seed, n), msg);
    var t := Try(x, key, mu, maskSeed, attempt, n);
    var z, h := Response(key, t.y, t.c), Hints(key, t.y, t.c);
    ExpandedInRange(x, seed, n);
    MaskRange(x, maskSeed, attempt);
    ChallengeRange(x, t.ctilde, n);
    HighPartsRecovered(key, t.y, t.c);
    HintsAreBits(key, t.y, t.c);
    ResponseLegal(z);
    SignatureRoundTrip(t.ctilde, z, h);
  }

  lemma ResponseLegal(z: Vec)
    requires VBelow(z, GAMMA1 - BETA)
    ensures VLegal(ZLayout, z)
  {
    forall i | 0 <= i < |z|
      ensures Legal(ZLayout, z[i])
    {
      assert Below(z[i], GAMMA1 - BETA);
    }
  }

  lemma {:induction false} SearchVerifies(x: Shake, seed: seq<byte>, msg: seq<byte>, maskSeed: seq<byte>,
                                          attempt: nat, n: nat)
    requires Enough(x, seed, n)
    requires Settles(x, ExpandKey(x, seed, n), Mu(x, EncodedKey(x, seed, n), msg), maskSeed, attempt, n)
    ensures var r := Search(x, ExpandKey(x, seed, n), Mu(x, EncodedKey(x, seed, n), msg), maskSeed, attempt, n);
      r.Signed? ==> |r.sig| == CRYPTO_BYTES && VerifyEnough(x, seed, r.sig, n) && Verifies(x, seed, msg, r.sig, n)
    decreases MAX_ATTEMPTS - attempt
  {
    hide Enough, ExpandKey, EncodedKey, Mu, Accepts, Released, Verifies, VerifyEnough, Try, ChallengeSupplied;
    var key, mu := ExpandKey(x, seed, n), Mu(x, EncodedKey(x, seed, n), msg);
    if attempt < MAX_ATTEMPTS {
      if Accepts(key, Try(x, key, mu, maskSeed, attempt, n)) {
        ReleasedVerifies(x, seed, msg, maskSeed, attempt, n);
      } else {
        SearchVerifies(x, seed, msg, maskSeed, attempt + 1, n);
      }
    }
  }

  /**
    Whatever the signer releases, the verifier accepts for the same seed and message, whatever random
    bytes the signer drew.  The verifier's own rejection loops stop when the signer's did.
   */
  lemma SignedVerifies(x: Shake, seed: seq<byte>, msg: seq<byte>, rnd: seq<byte>, n: nat)
    requires SignEnough(x, seed, msg, rnd, n)
    ensures var r := SignSpec(x, seed, msg, rnd, n);
      r.Signed? ==> |r.sig| == CRYPTO_BYTES && VerifyEnough(x, seed, r.sig, n) && Verifies(x, seed, msg, r.sig, n)
  {
    hide Enough, Search, Settles, Verifies, VerifyEnough;
    var mu := Mu(x, EncodedKey(x, seed, n), msg);
    SearchVerifies(x, seed, msg, MaskSeed(x, KeySeed(x, seed), rnd, mu), 0, n);
  }

  // ------------------------------------------------------------------ the ghost bound

  /** The expanded key does not depend on the bound. */
  lemma KeyUnique(x: Shake, seed: seq<byte>, m: nat, n: nat)
    requires Enough(x, seed, m) && Enough(x, seed, n)
    ensures ExpandKey(x, seed, m) == ExpandKey(x, seed, n)
  {
    hide Sampling.Accepted, First256;
    forall i, j | 0 <= i < K && 0 <= j < L
      ensures Entry(x.x128, Rho(x, seed), m, i, j) == Entry(x.x128, Rho(x, seed), n, i, j)
    {
      First256Unique(MatrixEntry(EntryStream(x.x128, Rho(x, seed), i, j)), m, n);
    }
    forall i | 0 <= i < K
      ensures Row(x.x128, Rho(x, seed), m, i) == Row(x.x128, Rho(x, seed), n, i)
    {
    }
    assert Matrix(x.x128, Rho(x, seed), m) == Matrix(x.x128, Rho(x, seed), n);
    forall i | 0 <= i < K + L
      ensures Secret(x, seed, m, i) == Secret(x, seed, n, i)
    {
      assert SecretSupplied(x, seed, i, m) && SecretSupplied(x, seed, i, n);
      First256Unique(Eta(EtaStream(x, seed, i)), m, n);
    }
    assert SecretVec(x, seed, m, 0, L) == SecretVec(x, seed, n, 0, L);
    assert SecretVec(x, seed, m, L, K) == SecretVec(x, seed, n, L, K);
  }

  lemma ChallengeBound(x: Shake, c: seq<byte>, m: nat, n: nat)
    requires ChallengeSupplied(x, c, m) && ChallengeSupplied(x, c, n)
    ensures ChallengeOf(x, c, m) == ChallengeOf(x, c, n)
  {
    hide ChallengeSpec, Decided;
    ChallengeUnique(Output(x.x256, c), m, n);
  }

  lemma TryUnique(x: Shake, key: Key, mu: seq<byte>, maskSeed: seq<byte>, attempt: nat, m: nat, n: nat)
    requires ValidKey(key)
    requires var c := CTilde(x, mu, W1(key, Mask(x, maskSeed, attempt)));
      ChallengeSupplied(x, c, m) && ChallengeSupplied(x, c, n)
    ensures Try(x, key, mu, maskSeed, attempt, m) == Try(x, key, mu, maskSeed, attempt, n)
  {
    hide ValidKey, ChallengeOf, ChallengeSupplied, W1, CTilde, Mask;
    ChallengeBound(x, CTilde(x, mu, W1(key, Mask(x, maskSeed, attempt))), m, n);
  }

  lemma SameHash(x: Shake, key: Key, mu: seq<byte>, maskSeed: seq<byte>, attempt: nat, n: nat)
    requires ValidKey(key)
    ensures Try(x, key, mu, maskSeed, attempt, n).ctilde == CTilde(x, mu, W1(key, Mask(x, maskSeed, attempt)))
  {
    hide ValidKey, ChallengeOf, W1, CTilde, Mask;
  }

  lemma {:induction false} SearchUnique(x: Shake, key: Key, mu: seq<byte>, maskSeed: seq<byte>, attempt: nat,
                                        m: nat, n: nat)
    requires ValidKey(key)
    requires Settles(x, key, mu, maskSeed, attempt, m) && Settles(x, key, mu, maskSeed, attempt, n)
    ensures Search(x, key, mu, maskSeed, attempt, m) == Search(x, key, mu, maskSeed, attempt, n)
    decreases MAX_ATTEMPTS - attempt
  {
    hide ValidKey, Accepts, Released, Try, ChallengeSupplied, W1, CTilde, Mask;
    if attempt < MAX_ATTEMPTS {
      SameHash(x, key, mu, maskSeed, attempt, m);
      SameHash(x, key, mu, maskSeed, attempt, n);
      TryUnique(x, key, mu, maskSeed, attempt, m, n);
      if !Accepts(key, Try(x, key, mu, maskSeed, attempt, m)) {
        SearchUnique(x, key, mu, maskSeed, attempt + 1, m, n);
      }
    }
  }

  /** The bound is a witness only: signing gives the same result for every sufficient bound. */
  lemma BoundIrrelevant(x: Shake, seed: seq<byte>, msg: seq<byte>, rnd: seq<byte>, m: nat, n: nat)
    requires SignEnough(x, seed, msg, rnd, m) && SignEnough(x, seed, msg, rnd, n)
    ensures SignSpec(x, seed, msg, rnd, m) == SignSpec(x, seed, msg, rnd, n)
  {
    hide Enough, ExpandKey, Search, Settles;
    KeyUnique(x, seed, m, n);
    var mu := Mu(x, EncodedKey(x, seed, m), msg);
    SearchUnique(x, ExpandKey(x, seed, m), mu, MaskSeed(x, KeySeed(x, seed), rnd, mu), 0, m, n);
  }

  /** Likewise for verification. */
  lemma VerdictUnique(x: Shake, seed: seq<byte>, msg: seq<byte>, sig: seq<byte>, m: nat, n: nat)
    requires |sig| == CRYPTO_BYTES && VerifyEnough(x, seed, sig, m) && VerifyEnough(x, seed, sig, n)
    ensures Verifies(x, seed, msg, sig, m) <==> Verifies(x, seed, msg, sig, n)
  {
    hide Enough, ExpandKey, HintCodec.Accepted, Decoded, ResponsePart, ChallengePart, HintPart, Recovered, ChallengeOf;
    hide VBelow, ChallengeSupplied, CTilde, Mu;
    KeyUnique(x, seed, m, n);
    if HintCodec.Accepted(HintPart(sig)) && VBelow(ResponsePart(sig), GAMMA1 - BETA) {
      ChallengeBound(x, ChallengePart(sig), m, n);
    }
  }
}
