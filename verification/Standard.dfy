/**
  Signing and verification as sections 6.2 and 6.3 of FIPS 204 describe them, with polynomials, centred
  residues and literal bytes, and the theorems that the functions of Signing compute exactly that.
 */
module Standard {
  import opened Words
  import opened Modular
  import opened Reduce
  import opened Transform
  import opened Rounding
  import opened Vectors
  import opened Sampling
  import opened MatrixProduct
  import opened Norm
  import opened Packing
  import opened HintCodec
  import opened SignatureFormat
  import opened Scheme
  import opened Signing
  import Challenge
  import Multiplication

  // ------------------------------------------------------------------ centred residues

  lemma CentredCong(x: int, y: int)
    requires Cong(x, y)
    ensures ModPm(x, 8380417) == ModPm(y, 8380417) && x % 8380417 == y % 8380417
  {
  }

  /** A reduced value passes a check exactly when the centred residue does, and then it is the centred residue. */
  lemma Checked(x: int32, y: int, b: int)
    requires x <= REDUCE_MAX && Cong(x, y) && 0 <= b <= MAX_BOUND
    ensures -b < Reduce32(x) < b <==> -b < ModPm(y, 8380417) < b
    ensures -b < Reduce32(x) < b ==> Reduce32(x) == ModPm(y, 8380417)
  {
    hide Reduce32, ModPm, Cong;
    NormOfResidue(x, b);
    CentredCong(x, y);
    if -b < Reduce32(x) < b {
      Reduce32Correct(x);
      var k := CongWitness(Reduce32(x), x);
      CentredOdd(x, -k, Reduce32(x));
    }
  }

  // ------------------------------------------------------------------ the values of one attempt

  /** w = A * y modulo q. */
  ghost function CommitmentOf(key: Key, y: Vec): (w: Vec)
    requires ValidKey(key) && |y| == L
    ensures |w| == 8
  {
    seq<Poly>(8, i requires 0 <= i < 8 =>
      seq(256, k requires 0 <= k < 256 => RingSum(RingRow(key.a[i]), y, 7)[k] % 8380417))
  }

  /** z = y + c * s1, as centred residues. */
  ghost function ResponseOf(key: Key, y: Vec, c: Poly): (z: Vec)
    requires ValidKey(key) && |y| == L
    ensures |z| == 7
  {
    seq<Poly>(7, j requires 0 <= j < 7 =>
      seq(256, k requires 0 <= k < 256 => ModPm(y[j][k] + Multiplication.Product(c, key.s1[j])[k], 8380417)))
  }

  /** The low bits of w, minus c * s2, as centred residues. */
  ghost function LowOf(key: Key, y: Vec, c: Poly): (r: Vec)
    requires ValidKey(key) && |y| == L
    ensures |r| == 8
  {
    var w := CommitmentOf(key, y);
    seq<Poly>(8, i requires 0 <= i < 8 =>
      seq(256, k requires 0 <= k < 256 =>
        ModPm(DecomposeSpec(w[i][k]).1 - Multiplication.Product(c, key.s2[i])[k], 8380417)))
  }

  /** c * t0, as centred residues. */
  ghost function CorrectionOf(key: Key, c: Poly): (r: Vec)
    requires ValidKey(key)
    ensures |r| == 8
  {
    seq<Poly>(8, i requires 0 <= i < 8 =>
      seq(256, k requires 0 <= k < 256 => ModPm(Multiplication.Product(c, T0(key)[i])[k], 8380417)))
  }

  /** The hints: whether w - c*s2 + c*t0 has another high part than w. */
  ghost function HintsOf(key: Key, y: Vec, c: Poly): (h: Vec)
    requires ValidKey(key) && |y| == L
    ensures |h| == 8
  {
    var w := CommitmentOf(key, y);
    seq<Poly>(8, i requires 0 <= i < 8 =>
      seq(256, k requires 0 <= k < 256 =>
        var r := w[i][k] - Multiplication.Product(c, key.s2[i])[k] + Multiplication.Product(c, T0(key)[i])[k];
        if DecomposeSpec(r % 8380417).0 != DecomposeSpec(w[i][k]).0 then 1 else 0))
  }

  ghost predicate AllWithin(v: Vec, b: int) {
    forall i, k :: 0 <= i < |v| && 0 <= k < 256 ==> -b < v[i][k] < b
  }

  /** The checks of Algorithm 7, with BETA = 120, GAMMA1 = 2^19, GAMMA2 = (q - 1) / 32 and at most 75 ones. */
  ghost predicate Passes(key: Key, y: Vec, c: Poly)
    requires ValidKey(key) && |y| == L
  {
    && AllWithin(ResponseOf(key, y, c), 524288 - 120)
    && AllWithin(LowOf(key, y, c), 261888 - 120)
    && AllWithin(CorrectionOf(key, c), 261888)
    && |Ones(HintsOf(key, y, c))| <= 75
  }

  /** Both halves of the public vector: t1 * 2^13 + t0 = A * s1 + s2 modulo q, t0 centred. */
  lemma PublicSplit(key: Key, i: nat, k: nat)
    requires InRange(key) && i < 8 && k < 256
    ensures T1(key)[i][k] * 8192 + T0(key)[i][k] == (RingSum(RingRow(key.a[i]), key.s1, 7)[k] + key.s2[i][k]) % 8380417
    ensures -4096 < T0(key)[i][k] <= 4096 && 0 <= T1(key)[i][k] < 1024
  {
    hide RingSum, RingRow, T;
    PublicMeaning(key, i);
    Power2RoundCorrect(T(key)[i][k]);
  }

  lemma CommitmentIs(key: Key, y: Vec, i: nat, k: nat)
    requires InRange(key) && |y| == L && VBounded(y, GAMMA1) && i < 8 && k < 256
    ensures var w := CommitmentOf(key, y)[i][k];
      && 0 <= w < Q && Commitment(key, y)[i][k] == w && Decompose(w) == DecomposeSpec(w)
      && W1(key, y)[i][k] == DecomposeSpec(w).0 && -GAMMA2 <= DecomposeSpec(w).1 <= GAMMA2
  {
    hide RingSum, RingRow, Commitment, Decompose, DecomposeSpec;
    CommitmentMeaning(key, y, i);
    DecomposeCorrect(CommitmentOf(key, y)[i][k]);
  }

  lemma ResponseChecked(key: Key, y: Vec, c: Poly, j: nat, k: nat)
    requires InRange(key) && |y| == L && VBounded(y, GAMMA1) && Bounded(c, 1) && j < 7 && k < 256
    ensures var r, z := Response(key, y, c)[j][k], ResponseOf(key, y, c)[j][k];
      (-524168 < r < 524168 <==> -524168 < z < 524168) && (-524168 < r < 524168 ==> r == z)
  {
    hide ByChallenge, Multiplication.Product, Reduce32, ModPm, NttSpec, InvNttSpec, Cong;
    ByChallengeRange(c, key.s1, 2);
    ByChallengeMeaning(c, key.s1, j);
    assert Bounded(ByChallenge(c, key.s1)[j], INV_BOUND) && Bounded(y[j], GAMMA1);
    var u, p := ByChallenge(c, key.s1)[j][k], Multiplication.Product(c, key.s1[j])[k];
    CongRefl(y[j][k]);
    CongAdd(u, p, y[j][k], y[j][k]);
    Checked(u + y[j][k], y[j][k] + p, 524168);
  }

  lemma LowChecked(key: Key, y: Vec, c: Poly, i: nat, k: nat)
    requires InRange(key) && |y| == L && VBounded(y, GAMMA1) && Bounded(c, 1) && i < 8 && k < 256
    ensures -261768 < LowRest(key, y, c)[i][k] < 261768 <==> -261768 < LowOf(key, y, c)[i][k] < 261768
  {
    hide ByChallenge, Multiplication.Product, Reduce32, ModPm, NttSpec, InvNttSpec, Cong, Commitment, CommitmentOf;
    hide LowRest, Correction, Hints, W1, Decompose, DecomposeSpec, MakeHint;
    ByChallengeRange(c, key.s2, 2);
    ByChallengeMeaning(c, key.s2, i);
    assert Bounded(ByChallenge(c, key.s2)[i], INV_BOUND);
    CommitmentIs(key, y, i, k);
    HintAt(key, y, c, i, k);
    var w0 := DecomposeSpec(CommitmentOf(key, y)[i][k]).1;
    var u, p := ByChallenge(c, key.s2)[i][k], Multiplication.Product(c, key.s2[i])[k];
    CongRefl(w0);
    CongAdd(w0, w0, u, p);
    Checked(w0 - u, w0 - p, 261768);
  }

  lemma CorrectionChecked(key: Key, y: Vec, c: Poly, i: nat, k: nat)
    requires InRange(key) && |y| == L && Bounded(c, 1) && i < 8 && k < 256
    ensures -261888 < Correction(key, c)[i][k] < 261888 <==> -261888 < CorrectionOf(key, c)[i][k] < 261888
  {
    hide ByChallenge, Multiplication.Product, Reduce32, ModPm, NttSpec, InvNttSpec, Cong, Commitment, T0;
    hide LowRest, Correction, Hints, W1, Decompose, MakeHint;
    LowHalves(key);
    ByChallengeRange(c, T0(key), 4096);
    ByChallengeMeaning(c, T0(key), i);
    assert Bounded(ByChallenge(c, T0(key))[i], INV_BOUND);
    HintAt(key, y, c, i, k);
    Checked(ByChallenge(c, T0(key))[i][k], Multiplication.Product(c, T0(key)[i])[k], 261888);
  }

  lemma LowHalves(key: Key)
    requires InRange(key)
    ensures VBounded(T0(key), 4096)
  {
    hide T0;
    forall i | 0 <= i < 8
      ensures Bounded(T0(key)[i], 4096)
    {
      HalvesRow(key, i);
    }
  }

  /** After the first three checks the hints are those of the standard. */
  lemma HintIs(key: Key, y: Vec, c: Poly, i: nat, k: nat)
    requires InRange(key) && |y| == L && VBounded(y, GAMMA1) && Bounded(c, 1) && LowBitsKept(key, y, c)
    requires i < 8 && k < 256
    ensures Hints(key, y, c)[i][k] == HintsOf(key, y, c)[i][k]
  {
    hide ByChallenge, Multiplication.Product, Reduce32, NttSpec, InvNttSpec, Cong, Commitment, CommitmentOf, T0;
    hide LowRest, Correction, Hints, W1, Decompose, DecomposeSpec, MakeHint, LowBitsKept;
    HintsAreBits(key, y, c);
    assert IsHint(Hints(key, y, c));
    ChecksAt(key, y, c, i, k);
    CommitmentIs(key, y, i, k);
    HintAt(key, y, c, i, k);
    ByChallengeMeaning(c, key.s2, i);
    ByChallengeMeaning(c, T0(key), i);
    HintPoint(CommitmentOf(key, y)[i][k], ByChallenge(c, key.s2)[i][k], ByChallenge(c, T0(key))[i][k],
              Multiplication.Product(c, key.s2[i])[k], Multiplication.Product(c, T0(key)[i])[k]);
  }

  lemma HintPoint(w: int, s: int, t: int, p: int, q: int)
    requires 0 <= w < Q && Cong(s, p) && Cong(t, q)
    requires var (w1, w0) := Decompose(w);
      -(GAMMA2 - BETA) < Reduce32(w0 - s) < GAMMA2 - BETA && -GAMMA2 < Reduce32(t) < GAMMA2
    ensures var (w1, w0) := Decompose(w);
      MakeHint(Reduce32(w0 - s) + Reduce32(t), w1) == 1 <==> DecomposeSpec((w - p + q) % 8380417).0 != w1
  {
    hide Decompose, DecomposeSpec, MakeHint, UseHint, Reduce32, Cong;
    var (w1, w0) := Decompose(w);
    var a0 := Reduce32(w0 - s) + Reduce32(t);
    DecomposeCorrect(w);
    HintRecovery(a0, w1);
    Displaced(w, s, t);
    CongRefl(w);
    CongAdd(w, w, s, p);
    CongAdd(w - s, w - p, t, q);
    CongTrans(w1 * 2 * GAMMA2 + a0, w - s + t, w - p + q);
    CentredCong(w1 * 2 * GAMMA2 + a0, w - p + q);
    DecomposeCorrect((w - p + q) % 8380417);
  }

  /** The loop's checks are the checks of the standard. */
  lemma AcceptsIff(key: Key, t: Attempt)
    requires InRange(key) && |t.y| == L && VBounded(t.y, GAMMA1) && Bounded(t.c, 1)
    ensures Accepts(key, t) <==> Passes(key, t.y, t.c)
    ensures Accepts(key, t) ==> Response(key, t.y, t.c) == ResponseOf(key, t.y, t.c)
    ensures Accepts(key, t) ==> Hints(key, t.y, t.c) == HintsOf(key, t.y, t.c)
  {
    hide Response, ResponseOf, LowRest, LowOf, Correction, CorrectionOf, Hints, HintsOf, VBounded, Ones, AllLists;
    var y, c := t.y, t.c;
    WithinResponse(key, y, c);
    WithinLow(key, y, c);
    WithinCorrection(key, y, c);
    if LowBitsKept(key, y, c) {
      SameHints(key, y, c);
    }
    CountOnes(Hints(key, y, c));
  }

  lemma BelowWithin(v: Vec, b: int)
    ensures VBelow(v, b) <==> AllWithin(v, b)
  {
    if AllWithin(v, b) {
      forall i | 0 <= i < |v|
        ensures Below(v[i], b)
      {
      }
    }
    if VBelow(v, b) {
      forall i, k | 0 <= i < |v| && 0 <= k < 256
        ensures -b < v[i][k] < b
      {
        assert Below(v[i], b);
      }
    }
  }

  lemma WithinResponse(key: Key, y: Vec, c: Poly)
    requires InRange(key) && |y| == L && VBounded(y, GAMMA1) && Bounded(c, 1)
    ensures VBelow(Response(key, y, c), GAMMA1 - BETA) <==> AllWithin(ResponseOf(key, y, c), 524168)
    ensures VBelow(Response(key, y, c), GAMMA1 - BETA) ==> Response(key, y, c) == ResponseOf(key, y, c)
  {
    hide Response, ResponseOf, VBelow, VBounded;
    var r, z := Response(key, y, c), ResponseOf(key, y, c);
    BelowWithin(r, GAMMA1 - BETA);
    forall j, k | 0 <= j < 7 && 0 <= k < 256
      ensures -524168 < r[j][k] < 524168 <==> -524168 < z[j][k] < 524168
      ensures -524168 < r[j][k] < 524168 ==> r[j][k] == z[j][k]
    {
      ResponseChecked(key, y, c, j, k);
    }
    if AllWithin(r, 524168) {
      forall j | 0 <= j < 7
        ensures r[j] == z[j]
      {
      }
    }
  }

  lemma WithinLow(key: Key, y: Vec, c: Poly)
    requires InRange(key) && |y| == L && VBounded(y, GAMMA1) && Bounded(c, 1)
    ensures VBelow(LowRest(key, y, c), GAMMA2 - BETA) <==> AllWithin(LowOf(key, y, c), 261768)
  {
    hide LowRest, LowOf, VBelow, VBounded;
    BelowWithin(LowRest(key, y, c), GAMMA2 - BETA);
    forall i, k | 0 <= i < 8 && 0 <= k < 256
      ensures -261768 < LowRest(key, y, c)[i][k] < 261768 <==> -261768 < LowOf(key, y, c)[i][k] < 261768
    {
      LowChecked(key, y, c, i, k);
    }
  }

  lemma WithinCorrection(key: Key, y: Vec, c: Poly)
    requires InRange(key) && |y| == L && Bounded(c, 1)
    ensures VBelow(Correction(key, c), GAMMA2) <==> AllWithin(CorrectionOf(key, c), 261888)
  {
    hide Correction, CorrectionOf, VBelow;
    BelowWithin(Correction(key, c), GAMMA2);
    forall i, k | 0 <= i < 8 && 0 <= k < 256
      ensures -261888 < Correction(key, c)[i][k] < 261888 <==> -261888 < CorrectionOf(key, c)[i][k] < 261888
    {
      CorrectionChecked(key, y, c, i, k);
    }
  }

  lemma SameHints(key: Key, y: Vec, c: Poly)
    requires InRange(key) && |y| == L && VBounded(y, GAMMA1) && Bounded(c, 1) && LowBitsKept(key, y, c)
    ensures Hints(key, y, c) == HintsOf(key, y, c)
  {
    hide Hints, HintsOf, LowBitsKept, VBounded;
    forall i | 0 <= i < 8
      ensures Hints(key, y, c)[i] == HintsOf(key, y, c)[i]
    {
      forall k | 0 <= k < 256
        ensures Hints(key, y, c)[i][k] == HintsOf(key, y, c)[i][k]
      {
        HintIs(key, y, c, i, k);
      }
    }
  }

  // ------------------------------------------------------------------ the bytes that are hashed

  /** The first bytes that an XOF returns. */
  ghost function Hash(x: Xof, input: seq<byte>, len: nat): (r: seq<byte>)
    ensures |r| == len && forall i :: 0 <= i < len ==> r[i] == x(input, i)
  {
    seq(len, i requires 0 <= i < len => x(input, i))
  }

  lemma BytesAreHash(x: Xof, input: seq<byte>, len: nat)
    ensures Bytes(x, input, 0, len) == Hash(x, input, len)
  {
  }

  /** The three seeds are 32, 64 and 32 consecutive bytes of SHAKE256(seed || K || L), K = 8 and L = 7. */
  lemma SeedBytes(x: Shake, seed: seq<byte>)
    ensures |Rho(x, seed)| == 32 && forall i :: 0 <= i < 32 ==> Rho(x, seed)[i] == x.x256(seed + [8, 7], i)
    ensures |RhoPrime(x, seed)| == 64
    ensures forall i :: 0 <= i < 64 ==> RhoPrime(x, seed)[i] == x.x256(seed + [8, 7], 32 + i)
    ensures |KeySeed(x, seed)| == 32 && forall i :: 0 <= i < 32 ==> KeySeed(x, seed)[i] == x.x256(seed + [8, 7], 96 + i)
  {
  }

  /** Where every polynomial of the key comes from: SHAKE128(rho || j || i) and SHAKE256(rho' || nonce || 0). */
  lemma KeyStreams(x: Shake, seed: seq<byte>, n: nat, i: nat, j: nat)
    requires Enough(x, seed, n) && i < 8 && j < 7
    ensures var entry := MatrixEntry(Output(x.x128, Rho(x, seed) + [j, i]));
      |Sampling.Accepted(entry, n)| >= 256 && ExpandKey(x, seed, n).a[i][j] == First256(entry, n)
    ensures var first := Eta(Output(x.x256, RhoPrime(x, seed) + [j, 0]));
      |Sampling.Accepted(first, n)| >= 256 && ExpandKey(x, seed, n).s1[j] == First256(first, n)
    ensures var second := Eta(Output(x.x256, RhoPrime(x, seed) + [7 + i, 0]));
      |Sampling.Accepted(second, n)| >= 256 && ExpandKey(x, seed, n).s2[i] == First256(second, n)
    ensures forall f: Xof, input, m: nat :: Output(f, input)(m) == f(input, m)
  {
    hide Sampling.Accepted, First256, Rho, RhoPrime;
    assert SecretSupplied(x, seed, j, n) && SecretSupplied(x, seed, 7 + i, n);
    assert EntryStream(x.x128, Rho(x, seed), i, j) == Output(x.x128, Rho(x, seed) + [j, i]);
    assert NonceBytes(j) == [j, 0] && NonceBytes(7 + i) == [7 + i, 0];
  }

  /** The message representative: SHAKE256(SHAKE256(pk, 64) || 0 || 8 || context || msg, 64). */
  ghost function Representative(x: Shake, pk: seq<byte>, msg: seq<byte>): seq<byte> {
    Hash(x.x256, Hash(x.x256, pk, 64) + [0, 8] + [0x5A, 0x4F, 0x4E, 0x44, 1, 1, 0, 0] + msg, 64)
  }

  /** The seed of the masks: SHAKE256(K || rnd || mu, 64), K being the last 32 bytes of the expanded seed. */
  ghost function MaskSeedOf(x: Shake, seed: seq<byte>, rnd: seq<byte>, mu: seq<byte>): seq<byte> {
    Hash(x.x256, Hash(x.x256, seed + [8, 7], 128)[96..] + rnd + mu, 64)
  }

  /** ExpandMask: polynomial j of attempt a is written, 20 bits a coefficient, in SHAKE256(seed || 7*a + j). */
  ghost function MaskOf(x: Shake, maskSeed: seq<byte>, a: nat): (y: Vec)
    ensures |y| == 7
  {
    seq<Poly>(7, j requires 0 <= j < 7 => MaskPolyOf(x, maskSeed, 7 * a + j))
  }

  ghost function MaskPolyOf(x: Shake, maskSeed: seq<byte>, nonce: nat): Poly {
    var b := Hash(x.x256, maskSeed + [nonce % 256, nonce / 256 % 256], 640);
    seq(256, k requires 0 <= k < 256 => 524288 - Field(b, 20 * k, 20))
  }

  lemma MuIs(x: Shake, pk: seq<byte>, msg: seq<byte>)
    ensures Mu(x, pk, msg) == Representative(x, pk, msg)
  {
    hide Hash;
    BytesAreHash(x.x256, pk, 64);
    var tr := Hash(x.x256, pk, 64);
    assert tr + ([0, 8] + Context()) + msg == tr + [0, 8] + [0x5A, 0x4F, 0x4E, 0x44, 1, 1, 0, 0] + msg;
    BytesAreHash(x.x256, tr + ([0, 8] + Context()) + msg, 64);
  }

  lemma MaskSeedIs(x: Shake, seed: seq<byte>, rnd: seq<byte>, mu: seq<byte>)
    ensures MaskSeed(x, KeySeed(x, seed), rnd, mu) == MaskSeedOf(x, seed, rnd, mu)
  {
    SeedBytes(x, seed);
    hide Hash, KeySeed;
    assert KeySeed(x, seed) == Hash(x.x256, seed + [8, 7], 128)[96..];
    BytesAreHash(x.x256, KeySeed(x, seed) + rnd + mu, 64);
  }

  lemma MaskIs(x: Shake, maskSeed: seq<byte>, a: nat)
    ensures Mask(x, maskSeed, a) == MaskOf(x, maskSeed, a)
  {
    hide MaskPolyOf, MaskPoly;
    forall j | 0 <= j < 7
      ensures Mask(x, maskSeed, a)[j] == MaskOf(x, maskSeed, a)[j]
    {
      MaskPolyIs(x, maskSeed, 7 * a + j);
    }
  }

  lemma MaskPolyIs(x: Shake, maskSeed: seq<byte>, nonce: nat)
    ensures MaskPoly(x, maskSeed, nonce) == MaskPolyOf(x, maskSeed, nonce)
  {
    hide Hash, Field, Unpack, Groups;
    Sizes();
    var b := Hash(x.x256, maskSeed + [nonce % 256, nonce / 256 % 256], 640);
    BytesAreHash(x.x256, maskSeed + NonceBytes(nonce), 640);
    forall k | 0 <= k < 256
      ensures MaskPoly(x, maskSeed, nonce)[k] == 524288 - Field(b, 20 * k, 20)
    {
      UnpackField(ZLayout, b, k, 20);
    }
  }

  // ------------------------------------------------------------------ the masks are independent

  /** The XOF that returns given masks. */
  ghost function MaskTable(maskSeed: seq<byte>, y: seq<Vec>): Xof
    requires |y| == 814 && forall a :: 0 <= a < 814 ==> |y[a]| == 7
  {
    (input: seq<byte>, i: nat) =>
      var m := |maskSeed|;
      if |input| != m + 2 then 0
      else
        var nonce := input[m] as int + 256 * input[m + 1] as int;
        if nonce >= 5698 then 0 else PackedByte(y[nonce / 7][nonce % 7], i)
  }

  ghost function PackedByte(p: Poly, i: nat): byte {
    if i < |Pack(ZLayout, p, Groups(ZLayout))| then Pack(ZLayout, p, Groups(ZLayout))[i] else 0
  }

  /** All 814 masks of a run can be any vectors of legal coefficients, each independently of the others. */
  lemma MasksIndependent(maskSeed: seq<byte>, y: seq<Vec>) returns (x: Shake)
    requires |y| == 814 && forall a :: 0 <= a < 814 ==> |y[a]| == 7
    requires forall a, j, k :: 0 <= a < 814 && 0 <= j < 7 && 0 <= k < 256 ==> -524288 < y[a][j][k] <= 524288
    ensures forall a :: 0 <= a < 814 ==> Mask(x, maskSeed, a) == y[a]
  {
    hide MaskPoly, MaskTable;
    x := Shake(MaskTable(maskSeed, y), MaskTable(maskSeed, y));
    forall a | 0 <= a < 814
      ensures Mask(x, maskSeed, a) == y[a]
    {
      forall j | 0 <= j < 7
        ensures Mask(x, maskSeed, a)[j] == y[a][j]
      {
        TableMask(maskSeed, y, a, j);
      }
    }
  }

  lemma TableAt(maskSeed: seq<byte>, y: seq<Vec>, input: seq<byte>, nonce: nat, i: nat)
    requires |y| == 814 && forall b :: 0 <= b < 814 ==> |y[b]| == 7
    requires |input| == |maskSeed| + 2 && nonce < 5698
    requires nonce == input[|maskSeed|] as int + 256 * input[|maskSeed| + 1] as int
    ensures MaskTable(maskSeed, y)(input, i) == PackedByte(y[nonce / 7][nonce % 7], i)
  {
    hide PackedByte;
  }

  lemma TableMask(maskSeed: seq<byte>, y: seq<Vec>, a: nat, j: nat)
    requires |y| == 814 && (forall b :: 0 <= b < 814 ==> |y[b]| == 7) && a < 814 && j < 7
    requires forall k :: 0 <= k < 256 ==> -524288 < y[a][j][k] <= 524288
    ensures var t := MaskTable(maskSeed, y); MaskPoly(Shake(t, t), maskSeed, L * a + j) == y[a][j]
  {
    hide Unpack, Pack, Groups, MaskTable;
    Sizes();
    var nonce, t := L * a + j, MaskTable(maskSeed, y);
    var p := Pack(ZLayout, y[a][j], Groups(ZLayout));
    NonceValue(nonce);
    assert nonce / 7 == a && nonce % 7 == j;
    var input := maskSeed + NonceBytes(nonce);
    assert input[|maskSeed|] == NonceBytes(nonce)[0] && input[|maskSeed| + 1] == NonceBytes(nonce)[1];
    forall i | 0 <= i < 640
      ensures t(input, i) == p[i]
    {
      TableAt(maskSeed, y, input, nonce, i);
    }
    assert Bytes(t, input, 0, 640) == p;
    assert Legal(ZLayout, y[a][j]);
    UnpackOfPack(ZLayout, y[a][j], Groups(ZLayout));
  }

  // ------------------------------------------------------------------ the public key

  /** Coefficient k of polynomial i of a public key: ten bits. */
  ghost function HighField(pk: seq<byte>, i: nat, k: nat): nat
    requires |pk| == 2592 && i < 8 && k < 256
  {
    Field(pk[32 + 320 * i..352 + 320 * i], 10 * k, 10)
  }

  /** pk = rho || t1, ten bits a coefficient. */
  lemma PublicKeyIs(x: Shake, seed: seq<byte>, n: nat, i: nat, k: nat)
    requires Enough(x, seed, n) && i < 8 && k < 256
    ensures var pk := EncodedKey(x, seed, n);
      && |pk| == 2592 && (forall m :: 0 <= m < 32 ==> pk[m] == x.x256(seed + [8, 7], m))
      && HighField(pk, i, k) == T1(ExpandKey(x, seed, n))[i][k]
  {
    hide Field, T1, Pack, Groups, PublicKey, Enough, ExpandKey, Rho, Legal;
    var key := ExpandKey(x, seed, n);
    SeedBytes(x, seed);
    ExpandedInRange(x, seed, n);
    PublicKeyBytes(Rho(x, seed), T1(key), i);
    assert EncodedKey(x, seed, n)[..32] == Rho(x, seed);
    HighLegal(key, i);
    PackField(T1Layout, T1(key)[i], k, 10);
  }

  lemma HighLegal(key: Key, i: nat)
    requires InRange(key) && i < 8
    ensures Legal(T1Layout, T1(key)[i])
  {
    hide T1;
    HalvesRow(key, i);
  }

  // ------------------------------------------------------------------ the signature

  /** The high part of a coefficient of w. */
  ghost function HighOf(key: Key, y: Vec, i: nat, k: nat): (h: nat)
    requires ValidKey(key) && |y| == L && i < 8 && k < 256
    ensures h < 16
  {
    DecomposeCorrect(CommitmentOf(key, y)[i][k]);
    DecomposeSpec(CommitmentOf(key, y)[i][k]).0
  }

  /** The hash that commits to the high parts of w: two of them in a byte. */
  ghost function CommitmentHash(x: Shake, mu: seq<byte>, key: Key, y: Vec): (c: seq<byte>)
    requires ValidKey(key) && |y| == L
    ensures |c| == 64
  {
    Hash(x.x256, mu + seq(1024, m requires 0 <= m < 1024 =>
      HighOf(key, y, m / 128, 2 * (m % 128)) + 16 * HighOf(key, y, m / 128, 2 * (m % 128) + 1)), 64)
  }

  lemma CommitmentHashIs(x: Shake, mu: seq<byte>, key: Key, y: Vec)
    requires InRange(key) && |y| == L && VBounded(y, GAMMA1)
    ensures CTilde(x, mu, W1(key, y)) == CommitmentHash(x, mu, key, y)
  {
    hide W1, PackW1Vec, HighOf, Hash, VBounded, High;
    var w := W1(key, y);
    forall i | 0 <= i < 8
      ensures High(w[i]) && forall k :: 0 <= k < 256 ==> w[i][k] == HighOf(key, y, i, k)
    {
      HighRow(key, y, i);
    }
    var packed := seq(1024, m requires 0 <= m < 1024 =>
      HighOf(key, y, m / 128, 2 * (m % 128)) + 16 * HighOf(key, y, m / 128, 2 * (m % 128) + 1));
    forall m | 0 <= m < 1024
      ensures PackW1Vec(w)[m] == packed[m]
    {
      HighBytes(w, m);
    }
    assert PackW1Vec(w) == packed;
    BytesAreHash(x.x256, mu + packed, 64);
  }

  lemma HighRow(key: Key, y: Vec, i: nat)
    requires InRange(key) && |y| == L && VBounded(y, GAMMA1) && i < 8
    ensures High(W1(key, y)[i]) && forall k :: 0 <= k < 256 ==> W1(key, y)[i][k] == HighOf(key, y, i, k)
  {
    hide W1, CommitmentOf, DecomposeSpec, VBounded;
    forall k | 0 <= k < 256
      ensures W1(key, y)[i][k] == HighOf(key, y, i, k)
    {
      CommitmentIs(key, y, i, k);
    }
  }

  /** The 83 bytes of a hint: ascending lists of the ones, padding, and where the lists end. */
  ghost predicate HintEncoded(b: seq<byte>, h: Vec)
    requires |h| == 8
  {
    && |b| == 83 && (forall m :: b[82] <= m < 75 ==> b[m] == 0)
    && forall i: nat, lo: nat, hi: nat :: i < 8 && Bounds(b, i, lo, hi) ==>
         Rises(b, lo, hi) && forall j: byte :: h[i][j] != 0 <==> Occurs(b, lo, hi, j)
  }

  /** The 4627 bytes of a signature: the hash, seven polynomials of 20 bits a coefficient, the hint. */
  ghost predicate SignatureEncoded(sig: seq<byte>, c: seq<byte>, z: Vec, h: Vec)
    requires |z| == 7 && |h| == 8
  {
    && |sig| == 4627 && sig[..64] == c && HintEncoded(sig[4544..], h)
    && forall j, k :: 0 <= j < 7 && 0 <= k < 256 ==>
         Field(sig[64 + 640 * j..704 + 640 * j], 20 * k, 20) == 524288 - z[j][k]
  }

  lemma SignatureIs(c: seq<byte>, z: Vec, h: Vec)
    requires |c| == 64 && |z| == L && |h| == K && |AllLists(h)| <= OMEGA && AllWithin(z, 524168)
    ensures SignatureEncoded(Signature(c, z, h), c, z, h)
  {
    hide Signature, Encode, AllLists, Field, Pack, Groups, Legal, Rises, Occurs;
    SignatureBytes(c, z, h, 0);
    forall j, k | 0 <= j < 7 && 0 <= k < 256
      ensures Field(Signature(c, z, h)[64 + 640 * j..704 + 640 * j], 20 * k, 20) == 524288 - z[j][k]
    {
      SignatureBytes(c, z, h, j);
      WithinLegal(z, j);
      PackField(ZLayout, z[j], k, 20);
    }
    HintIsEncoded(h);
  }

  lemma WithinLegal(z: Vec, j: nat)
    requires AllWithin(z, 524168) && j < |z|
    ensures Legal(ZLayout, z[j])
  {
  }

  lemma HintIsEncoded(h: Vec)
    requires |h| == K && |AllLists(h)| <= OMEGA
    ensures HintEncoded(Encode(h), h)
  {
    hide Encode, AllLists, Rises, Occurs, Bounds;
    var b := Encode(h);
    forall i: nat, lo: nat, hi: nat | i < 8 && Bounds(b, i, lo, hi)
      ensures Rises(b, lo, hi) && forall j: byte :: h[i][j] != 0 <==> Occurs(b, lo, hi, j)
    {
      EncodeMeaning(h, i, lo, hi);
    }
    BoundsOf(b, 0);
    EncodeMeaning(h, 0, Start(b, 0), Start(b, 1));
  }

  // ------------------------------------------------------------------ signing

  /** The challenge of attempt a, and whether the attempt passes. */
  ghost function ChallengeIn(x: Shake, key: Key, mu: seq<byte>, maskSeed: seq<byte>, a: nat, n: nat): Poly
    requires ValidKey(key)
  {
    ChallengeOf(x, CommitmentHash(x, mu, key, MaskOf(x, maskSeed, a)), n)
  }

  ghost predicate PassesIn(x: Shake, key: Key, mu: seq<byte>, maskSeed: seq<byte>, a: nat, n: nat)
    requires ValidKey(key)
  {
    Passes(key, MaskOf(x, maskSeed, a), ChallengeIn(x, key, mu, maskSeed, a, n))
  }

  lemma AttemptIs(x: Shake, key: Key, mu: seq<byte>, maskSeed: seq<byte>, a: nat, n: nat)
    requires InRange(key)
    requires ChallengeSupplied(x, Try(x, key, mu, maskSeed, a, n).ctilde, n)
    ensures var t, y, c := Try(x, key, mu, maskSeed, a, n), MaskOf(x, maskSeed, a),
        ChallengeIn(x, key, mu, maskSeed, a, n);
      && t == Attempt(y, CommitmentHash(x, mu, key, y), c)
      && (Accepts(key, t) <==> PassesIn(x, key, mu, maskSeed, a, n))
      && (Accepts(key, t) ==>
            SignatureEncoded(Released(key, t), t.ctilde, ResponseOf(key, y, c), HintsOf(key, y, c)))
  {
    hide MaskOf, CommitmentHash, CTilde, W1, Mask, ChallengeOf, ChallengeSupplied, ResponseOf, HintsOf;
    hide SignatureEncoded;
    hide LowOf, CorrectionOf, Response, Hints, LowBitsKept, Ones, AllLists, VBounded, VBelow, Signature;
    MaskIs(x, maskSeed, a);
    MaskRange(x, maskSeed, a);
    var t, y := Try(x, key, mu, maskSeed, a, n), MaskOf(x, maskSeed, a);
    CommitmentHashIs(x, mu, key, y);
    ChallengeRange(x, t.ctilde, n);
    AcceptsIff(key, t);
    if Accepts(key, t) {
      SignatureIs(t.ctilde, ResponseOf(key, y, t.c), HintsOf(key, y, t.c));
    }
  }

  /** The search releases the first attempt that passes; a is its number. */
  lemma {:induction false} SearchIs(x: Shake, key: Key, mu: seq<byte>, maskSeed: seq<byte>, attempt: nat, n: nat)
    returns (a: nat)
    requires InRange(key) && attempt <= 814 && Settles(x, key, mu, maskSeed, attempt, n)
    ensures attempt <= a <= 814 && forall b :: attempt <= b < a ==> !PassesIn(x, key, mu, maskSeed, b, n)
    ensures match Search(x, key, mu, maskSeed, attempt, n)
      case Exhausted => a == 814
      case Signed(sig) =>
        var y, c := MaskOf(x, maskSeed, a), ChallengeIn(x, key, mu, maskSeed, a, n);
        && a < 814 && PassesIn(x, key, mu, maskSeed, a, n)
        && SignatureEncoded(sig, CommitmentHash(x, mu, key, y), ResponseOf(key, y, c), HintsOf(key, y, c))
    decreases 814 - attempt
  {
    hide Try, Accepts, Released, PassesIn, ChallengeIn, MaskOf, CommitmentHash, ResponseOf, HintsOf;
    hide SignatureEncoded, ChallengeSupplied;
    a := attempt;
    if attempt < 814 {
      AttemptIs(x, key, mu, maskSeed, attempt, n);
      if !Accepts(key, Try(x, key, mu, maskSeed, attempt, n)) {
        a := SearchIs(x, key, mu, maskSeed, attempt + 1, n);
      }
    }
  }

  /**
    Algorithm 7 of FIPS 204, with at most 814 attempts.  Signing releases the encoding of hash, response
    and hint of the first attempt that passes the checks, and fails when none does.
   */
  lemma SignMeaning(x: Shake, seed: seq<byte>, msg: seq<byte>, rnd: seq<byte>, n: nat) returns (a: nat)
    requires SignEnough(x, seed, msg, rnd, n)
    ensures var key := ExpandKey(x, seed, n);
      var mu := Representative(x, EncodedKey(x, seed, n), msg);
      var maskSeed := MaskSeedOf(x, seed, rnd, mu);
      && a <= 814 && (forall b :: 0 <= b < a ==> !PassesIn(x, key, mu, maskSeed, b, n))
      && match SignSpec(x, seed, msg, rnd, n)
         case Exhausted => a == 814
         case Signed(sig) =>
           var y, c := MaskOf(x, maskSeed, a), ChallengeIn(x, key, mu, maskSeed, a, n);
           && a < 814 && PassesIn(x, key, mu, maskSeed, a, n)
           && SignatureEncoded(sig, CommitmentHash(x, mu, key, y), ResponseOf(key, y, c), HintsOf(key, y, c))
  {
    hide Enough, ExpandKey, EncodedKey, InRange, Search, Settles, PassesIn, ChallengeIn, MaskOf, CommitmentHash;
    hide ResponseOf, HintsOf, SignatureEncoded, Mu, MaskSeed, MaskSeedOf, Representative, KeySeed;
    ExpandedInRange(x, seed, n);
    var key, pk := ExpandKey(x, seed, n), EncodedKey(x, seed, n);
    MuIs(x, pk, msg);
    var mu := Mu(x, pk, msg);
    MaskSeedIs(x, seed, rnd, mu);
    a := SearchIs(x, key, mu, MaskSeed(x, KeySeed(x, seed), rnd, mu), 0, n);
  }

  // ------------------------------------------------------------------ verification

  /** The response that a signature carries. */
  ghost function ResponseIn(sig: seq<byte>): (z: Vec)
    requires |sig| == 4627
    ensures |z| == 7
  {
    seq<Poly>(7, j requires 0 <= j < 7 =>
      seq(256, k requires 0 <= k < 256 => 524288 - Field(sig[64 + 640 * j..704 + 640 * j], 20 * k, 20)))
  }

  /** The hint that a signature carries. */
  ghost function HintIn(sig: seq<byte>): (h: Vec)
    requires |sig| == 4627
    ensures |h| == 8
  {
    var b := sig[4544..];
    seq<Poly>(8, i requires 0 <= i < 8 =>
      seq(256, j requires 0 <= j < 256 => if Occurs(b, if i == 0 then 0 else b[74 + i], b[75 + i], j) then 1 else 0))
  }

  /** The hint is well formed: the lists are in place and ascend, and the padding is zero. */
  ghost predicate HintWellFormed(sig: seq<byte>)
    requires |sig| == 4627
  {
    var b := sig[4544..];
    && (forall m :: b[82] <= m < 75 ==> b[m] == 0)
    && forall i: nat, lo: nat, hi: nat :: i < 8 && Bounds(b, i, lo, hi) ==> Rises(b, lo, hi)
  }

  /** Algorithm 40 of FIPS 204, for the canonical residue of A*z - c*t1*2^13. */
  ghost function HintedOf(key: Key, z: Vec, c: Poly, h: Vec, i: nat, k: nat): (r: nat)
    requires ValidKey(key) && |z| == 7 && |h| == 8 && i < 8 && k < 256
    ensures r < 16
  {
    var shifted: Poly := seq(256, m requires 0 <= m < 256 => T1(key)[i][m] * 8192);
    var v := (RingSum(RingRow(key.a[i]), z, 7)[k] - Multiplication.Product(c, shifted)[k]) % 8380417;
    DecomposeCorrect(v);
    var (high, low) := DecomposeSpec(v);
    if h[i][k] != 1 then high else if low > 0 then (high + 1) % 16 else (high - 1) % 16
  }

  /** The bytes that the verifier hashes behind mu. */
  ghost function VerifierBytes(key: Key, z: Vec, c: Poly, h: Vec): (b: seq<byte>)
    requires ValidKey(key) && |z| == 7 && |h| == 8
    ensures |b| == 1024
  {
    seq(1024, m requires 0 <= m < 1024 =>
      HintedOf(key, z, c, h, m / 128, 2 * (m % 128)) + 16 * HintedOf(key, z, c, h, m / 128, 2 * (m % 128) + 1))
  }

  lemma RecoveredAtIs(key: Key, z: Vec, c: Poly, h: Vec, i: nat, k: nat)
    requires InRange(key) && |z| == L && VBounded(z, Q) && Bounded(c, 1) && IsHint(h) && i < 8 && k < 256
    ensures Recovered(key, z, c, h)[i][k] == HintedOf(key, z, c, h, i, k)
  {
    hide Recovered, Reconstruction, T1, RingSum, RingRow, Multiplication.Product, Decompose, DecomposeSpec, UseHint;
    var shifted: Poly := seq(256, m requires 0 <= m < 256 => T1(key)[i][m] * 8192);
    assert Map(ShiftLeft, T1(key)[i]) == shifted;
    ReconstructionMeaning(key, z, c, i);
    RecoveredIs(key, z, c, h, i, k);
    var v := Reconstruction(key, z, c)[i][k];
    DecomposeCorrect(v);
    UseHintMeaning(v, h[i][k]);
  }

  lemma VerifierBytesAre(key: Key, z: Vec, c: Poly, h: Vec)
    requires InRange(key) && |z| == L && VBounded(z, Q) && Bounded(c, 1) && IsHint(h)
    ensures PackW1Vec(Recovered(key, z, c, h)) == VerifierBytes(key, z, c, h)
  {
    hide Recovered, PackW1Vec, HintedOf, High, VBounded;
    var w := Recovered(key, z, c, h);
    forall i | 0 <= i < 8
      ensures High(w[i]) && forall k :: 0 <= k < 256 ==> w[i][k] == HintedOf(key, z, c, h, i, k)
    {
      RecoveredRow(key, z, c, h, i);
    }
    forall m | 0 <= m < 1024
      ensures PackW1Vec(w)[m] == VerifierBytes(key, z, c, h)[m]
    {
      HighBytes(w, m);
    }
  }

  lemma RecoveredRow(key: Key, z: Vec, c: Poly, h: Vec, i: nat)
    requires InRange(key) && |z| == L && VBounded(z, Q) && Bounded(c, 1) && IsHint(h) && i < 8
    ensures var w := Recovered(key, z, c, h)[i];
      High(w) && forall k :: 0 <= k < 256 ==> w[k] == HintedOf(key, z, c, h, i, k)
  {
    hide Recovered, HintedOf, VBounded;
    forall k | 0 <= k < 256
      ensures Recovered(key, z, c, h)[i][k] == HintedOf(key, z, c, h, i, k)
    {
      RecoveredAtIs(key, z, c, h, i, k);
    }
  }

  lemma ResponseInIs(sig: seq<byte>)
    requires |sig| == 4627
    ensures ResponsePart(sig) == ResponseIn(sig) && ChallengePart(sig) == sig[..64] && HintPart(sig) == sig[4544..]
  {
    hide ResponsePart, Field, Unpack, Groups;
    forall j | 0 <= j < 7
      ensures ResponsePart(sig)[j] == ResponseIn(sig)[j]
    {
      SignatureParts(sig, j);
      forall k | 0 <= k < 256
        ensures ResponsePart(sig)[j][k] == ResponseIn(sig)[j][k]
      {
        UnpackField(ZLayout, sig[64 + 640 * j..704 + 640 * j], k, 20);
      }
    }
    SignatureParts(sig, 0);
  }

  lemma HintInIs(sig: seq<byte>)
    requires |sig| == 4627
    ensures HintCodec.Accepted(sig[4544..]) <==> HintWellFormed(sig)
    ensures HintWellFormed(sig) ==> Decoded(sig[4544..]) == HintIn(sig)
  {
    hide HintCodec.Accepted, Decoded, Occurs, Rises;
    var b := sig[4544..];
    AcceptedMeaning(b);
    if HintCodec.Accepted(b) {
      forall i | 0 <= i < 8
        ensures Decoded(b)[i] == HintIn(sig)[i]
      {
        forall j: nat | j < 256
          ensures Decoded(b)[i][j] == HintIn(sig)[i][j]
        {
          DecodedMeaning(b, i, if i == 0 then 0 else b[74 + i], b[75 + i], j);
        }
      }
    }
  }

  /**
    Algorithm 8 of FIPS 204.  A signature of the right length is accepted if and only if its hint is well
    formed, its response is short, and its first 64 bytes are the hash of mu and the recovered high parts.
   */
  lemma VerifyMeaning(x: Shake, seed: seq<byte>, msg: seq<byte>, sig: seq<byte>, n: nat)
    requires |sig| == 4627 && VerifyEnough(x, seed, sig, n)
    ensures var key := ExpandKey(x, seed, n);
      var mu := Representative(x, EncodedKey(x, seed, n), msg);
      var z, h := ResponseIn(sig), HintIn(sig);
      var c := ChallengeOf(x, sig[..64], n);
      Verifies(x, seed, msg, sig, n) <==>
        && HintWellFormed(sig) && AllWithin(z, 524288 - 120)
        && forall i :: 0 <= i < 64 ==> sig[i] == x.x256(mu + VerifierBytes(key, z, c, h), i)
  {
    hide Enough, ExpandKey, EncodedKey, Mu, Representative, ResponseIn, HintIn, HintWellFormed, ChallengeOf;
    hide HintCodec.Accepted, Decoded, ResponsePart, ChallengePart, HintPart, VBelow, Recovered, VerifierBytes;
    hide PackW1Vec, ChallengeSupplied, InRange;
    ResponseInIs(sig);
    HintInIs(sig);
    BelowWithin(ResponseIn(sig), 524168);
    MuIs(x, EncodedKey(x, seed, n), msg);
    if HintWellFormed(sig) && AllWithin(ResponseIn(sig), 524168) {
      HashCompared(x, seed, Representative(x, EncodedKey(x, seed, n), msg), sig, n);
    }
  }

  lemma HashCompared(x: Shake, seed: seq<byte>, mu: seq<byte>, sig: seq<byte>, n: nat)
    requires |sig| == 4627 && Enough(x, seed, n) && ChallengeSupplied(x, sig[..64], n)
    requires HintWellFormed(sig) && AllWithin(ResponseIn(sig), 524168)
    ensures var key, z, h, c := ExpandKey(x, seed, n), ResponseIn(sig), HintIn(sig), ChallengeOf(x, sig[..64], n);
      sig[..64] == CTilde(x, mu, Recovered(key, z, c, h)) <==>
        forall i :: 0 <= i < 64 ==> sig[i] == x.x256(mu + VerifierBytes(key, z, c, h), i)
  {
    hide Enough, ExpandKey, ResponseIn, HintIn, HintWellFormed, ChallengeOf, InRange;
    hide Decoded, Recovered, VerifierBytes, PackW1Vec, ChallengeSupplied, IsHint;
    var key, z, h, c := ExpandKey(x, seed, n), ResponseIn(sig), HintIn(sig), ChallengeOf(x, sig[..64], n);
    ExpandedInRange(x, seed, n);
    ChallengeRange(x, sig[..64], n);
    HintInIs(sig);
    EncodeOfDecode(sig[4544..]);
    WithinBounded(z);
    VerifierBytesAre(key, z, c, h);
    var e := CTilde(x, mu, Recovered(key, z, c, h));
    assert forall i :: 0 <= i < 64 ==> e[i] == x.x256(mu + VerifierBytes(key, z, c, h), i);
    assert forall i :: 0 <= i < 64 ==> sig[..64][i] == sig[i];
    if forall i :: 0 <= i < 64 ==> sig[i] == x.x256(mu + VerifierBytes(key, z, c, h), i) {
      assert sig[..64] == e;
    }
  }

  lemma WithinBounded(z: Vec)
    requires AllWithin(z, 524168)
    ensures VBounded(z, Q)
  {
    forall i | 0 <= i < |z|
      ensures Bounded(z[i], Q)
    {
    }
  }

  // ------------------------------------------------------------------ the hypotheses can be met

  lemma {:induction false} AllAccepted(c: Source, n: nat)
    requires forall k: nat :: c.Get(k).ok
    ensures |Sampling.Accepted(c, n)| == n
  {
    hide Source.Get;
    if n > 0 {
      AllAccepted(c, n - 1);
    }
  }

  lemma {:induction false} ZeroBall(s: Stream, k: nat, n: nat)
    requires k <= 60 && forall i: nat :: s(i) == 0
    ensures Challenge.Ball(s, k, n).1 == 8 + k
  {
    if k > 0 {
      ZeroBall(s, k - 1, n);
    }
  }

  /** The XOF that returns zeros only. */
  function Zeros(): Xof {
    (input: seq<byte>, i: nat) => 0
  }

  lemma ZeroSources(input: seq<byte>, n: nat)
    ensures |Sampling.Accepted(MatrixEntry(Output(Zeros(), input)), n)| == n
    ensures |Sampling.Accepted(Eta(Output(Zeros(), input)), n)| == n
    ensures n >= 68 ==> Challenge.Decided(Output(Zeros(), input), n)
  {
    hide Source.Get, Sampling.Accepted;
    var s := Output(Zeros(), input);
    forall k: nat
      ensures MatrixEntry(s).Get(k).ok && Eta(s).Get(k).ok
    {
      MatrixCandidate(s, k);
      EtaCandidate(s, k);
    }
    AllAccepted(MatrixEntry(s), n);
    AllAccepted(Eta(s), n);
    ZeroBall(s, 60, n);
  }

  lemma {:induction false} ZeroSettles(key: Key, mu: seq<byte>, maskSeed: seq<byte>, attempt: nat)
    requires ValidKey(key)
    ensures Settles(Shake(Zeros(), Zeros()), key, mu, maskSeed, attempt, 300)
    decreases 814 - attempt
  {
    hide Accepts, Try, ValidKey, Zeros;
    if attempt < 814 {
      ZeroSources(Try(Shake(Zeros(), Zeros()), key, mu, maskSeed, attempt, 300).ctilde, 300);
      ZeroSettles(key, mu, maskSeed, attempt + 1);
    }
  }

  /** For every seed and message there is an XOF with which all rejection loops end. */
  lemma SufficientExists(seed: seq<byte>, msg: seq<byte>, rnd: seq<byte>) returns (x: Shake)
    ensures SignEnough(x, seed, msg, rnd, 300)
    ensures forall sig: seq<byte> :: |sig| == 4627 ==> VerifyEnough(x, seed, sig, 300)
  {
    x := Shake(Zeros(), Zeros());
    ZeroEnough(seed);
    hide Enough, Settles, ExpandKey, Zeros, HintCodec.Accepted, VBelow;
    var mu := Mu(x, EncodedKey(x, seed, 300), msg);
    ZeroSettles(ExpandKey(x, seed, 300), mu, MaskSeed(x, KeySeed(x, seed), rnd, mu), 0);
    forall sig: seq<byte> | |sig| == 4627
      ensures VerifyEnough(x, seed, sig, 300)
    {
      ZeroSources(ChallengePart(sig), 300);
    }
  }

  lemma ZeroEnough(seed: seq<byte>)
    ensures Enough(Shake(Zeros(), Zeros()), seed, 300)
  {
    hide Sampling.Accepted, Zeros, Rho, RhoPrime;
    var x := Shake(Zeros(), Zeros());
    forall i, j | 0 <= i < K && 0 <= j < L
      ensures |Sampling.Accepted(MatrixEntry(EntryStream(x.x128, Rho(x, seed), i, j)), 300)| >= 256
    {
      ZeroSources(Rho(x, seed) + [j, i], 300);
    }
    forall i | 0 <= i < K + L
      ensures SecretSupplied(x, seed, i, 300)
    {
      ZeroSources(RhoPrime(x, seed) + NonceBytes(i), 300);
    }
  }
}
