/**
  The signer and the verifier as sign.c runs them: vectors live in non-volatile storage, each loop
  builds one polynomial in RAM and writes it back, and the rejection loop overwrites its workspace.
  Every method is proved to compute the functions of Scheme and Signing.
 */
module Storage {
  import opened Words
  import opened Modular
  import opened Reduce
  import opened Transform
  import opened Rounding
  import opened Vectors
  import opened Sampling
  import opened Challenge
  import opened MatrixProduct
  import opened Norm
  import opened Packing
  import opened HintCodec
  import opened SignatureFormat
  import opened Scheme
  import opened Signing

  // ------------------------------------------------------------------ ranges of vectors

  lemma VReduce(v: Vec)
    requires VBounded(v, 8 * Q)
    ensures VDomain(Reduction, v) && VBounded(VMap(Reduction, v), Q)
    ensures VBounded(VInvNtt(VMap(Reduction, v)), INV_BOUND)
  {
    hide InvNttSpec, Reduce32;
    forall i | 0 <= i < |v|
      ensures Bounded(v[i], 8 * Q) && Bounded(VMap(Reduction, v)[i], Q)
      ensures Bounded(VInvNtt(VMap(Reduction, v))[i], INV_BOUND)
    {
      Settle(v[i]);
    }
  }

  lemma VAddQ(v: Vec)
    requires VBounded(v, Q - 1)
    ensures VDomain(AddQ, v)
    ensures forall i, k :: 0 <= i < |v| && 0 <= k < 256 ==> 0 <= VMap(AddQ, v)[i][k] < Q
  {
    hide And;
    forall i, k | 0 <= i < |v| && 0 <= k < 256
      ensures AddQ.Domain(v[i][k]) && 0 <= VMap(AddQ, v)[i][k] < Q
    {
      assert Bounded(v[i], Q - 1);
      CAddQCorrect(v[i][k]);
    }
  }

  lemma VSum(u: Vec, v: Vec, a: int, b: int)
    requires |u| == |v| && VBounded(u, a) && VBounded(v, b) && a + b < 0x8000_0000
    ensures VDomain2(Plus, u, v) && VDomain2(Minus, u, v)
    ensures VBounded(VZip(Plus, u, v), a + b) && VBounded(VZip(Minus, u, v), a + b)
  {
    hide MakeHint, UseHint, Mont;
    forall i | 0 <= i < |u|
      ensures Bounded(VZip(Plus, u, v)[i], a + b) && Bounded(VZip(Minus, u, v)[i], a + b)
      ensures forall k :: 0 <= k < 256 ==> Plus.Domain(u[i][k], v[i][k]) && Minus.Domain(u[i][k], v[i][k])
    {
      assert Bounded(u[i], a) && Bounded(v[i], b);
    }
  }

  // ------------------------------------------------------------------ loops that need a stream

  /** poly_vec_l_uniform_eta and poly_vec_k_uniform_eta. */
  method SampleSecret(x: Shake, seed: seq<byte>, v: array<Poly32>, first: nat, ghost n: nat)
    requires Enough(x, seed, n) && first + v.Length <= K + L
    modifies v
    ensures v[..] == SecretVec(x, seed, n, first, v.Length)
  {
    hide Sampling.Accepted, First256, Enough;
    var temp := new int32[256];
    for i := 0 to v.Length
      invariant fresh(temp) && forall k :: 0 <= k < i ==> v[k] == Secret(x, seed, n, first + k)
    {
      SecretSuffices(x, seed, n, first + i);
      SampleEta(EtaStream(x, seed, first + i), temp, n);
      v[i] := temp[..];
    }
  }

  lemma SecretSuffices(x: Shake, seed: seq<byte>, n: nat, nonce: nat)
    requires Enough(x, seed, n) && nonce < K + L
    ensures |Sampling.Accepted(Eta(EtaStream(x, seed, nonce)), n)| >= 256
  {
    assert SecretSupplied(x, seed, nonce, n);
  }

  /** poly_vec_l_uniform_gamma1_volatile. */
  method SampleMask(x: Shake, maskSeed: seq<byte>, attempt: nat, v: array<Poly32>, temp: array<int32>)
    requires v.Length == L && temp.Length == 256 && attempt < MAX_ATTEMPTS
    modifies v, temp
    ensures v[..] == Mask(x, maskSeed, attempt)
  {
    hide Unpack, Groups, Layout.Bytes, Layout.Coeffs;
    Sizes();
    var gamma1Buffer := new byte[680];
    for j := 0 to L
      invariant fresh(gamma1Buffer) && forall k :: 0 <= k < j ==> v[k] == MaskPoly(x, maskSeed, L * attempt + k)
    {
      var nonce := L * attempt + j;
      NoncesDistinct(attempt, j, attempt, j);
      var input := maskSeed + NonceBytes(nonce);
      Squeeze(Output(x.x256, input), 0, gamma1Buffer, 0, 680);
      assert gamma1Buffer[0..640] == Bytes(x.x256, input, 0, 640);
      UnpackPoly(ZLayout, gamma1Buffer, 0, temp);
      v[j] := temp[..];
    }
  }

  /** poly_vec_k_make_hint_volatile: the hints and their number. */
  method MakeHintVec(h: array<Poly32>, v0: array<Poly32>, v1: array<Poly32>, temp: array<int32>) returns (s: uint32)
    requires h.Length == v0.Length == v1.Length == K && h != v0 && h != v1 && temp.Length == 256
    requires VDomain2(Hint, v0[..], v1[..])
    modifies h, temp
    ensures h[..] == VZip(Hint, v0[..], v1[..])
    ensures s == |AllLists(h[..])|
  {
    hide MakeHint, Positions, Lists;
    ghost var r := VZip(Hint, v0[..], v1[..]);
    s := 0;
    NoLists(r);
    for i := 0 to K
      invariant v0[..] == old(v0[..]) && v1[..] == old(v1[..])
      invariant forall k :: 0 <= k < i ==> h[k] == r[k]
      invariant s == |Lists(r, i)| <= 256 * i
    {
      var s2: uint32 := 0;
      for j := 0 to 256
        invariant forall m :: 0 <= m < j ==> temp[m] == r[i][m]
        invariant s2 == |Positions(r[i], j)|
        modifies temp
      {
        assert Hint.Domain(old(v0[..])[i][j], old(v1[..])[i][j]);
        MakeHintMeaning(v0[i][j], v1[i][j]);
        var t: int32 := ApplyBinary(Hint, v0[i][j], v1[i][j]);
        PositionsStep(r[i], j);
        temp[j] := t;
        s2 := s2 + t;
      }
      assert temp[..] == r[i];
      h[i] := temp[..];
      ListsStep(r, i);
      s := s + s2;
    }
    assert h[..] == r;
  }

  /** The context's output bytes, read once. */
  method SqueezeBytes(x: Xof, input: seq<byte>, from: nat, len: nat) returns (r: seq<byte>)
    ensures r == Bytes(x, input, from, len)
  {
    var a := new byte[len];
    for i := 0 to len
      invariant forall k :: 0 <= k < i ==> a[k] == x(input, from + k)
    {
      a[i] := x(input, from + i);
    }
    r := a[..];
  }

  // ------------------------------------------------------------------ the storage

  /** N_storage and the scratch polynomial and buffer that the loops share. */
  class Nvm {
    const t1: array<Poly32>
    const t0: array<Poly32>
    const w1: array<Poly32>
    const w0: array<Poly32>
    const h: array<Poly32>
    const y: array<Poly32>
    const z: array<Poly32>
    const cp: array<int32>
    const temp: array<int32>
    const sig: array<byte>
    const pk: array<byte>
    const buf: array<byte>

    ghost predicate Valid() {
      && t1.Length == t0.Length == w1.Length == w0.Length == h.Length == K && y.Length == z.Length == L
      && cp.Length == temp.Length == 256 && sig.Length == CRYPTO_BYTES && pk.Length == 2592 && buf.Length == 850
      && t1 != t0 && t1 != w1 && t1 != w0 && t1 != h && t1 != y && t1 != z
      && t0 != w1 && t0 != w0 && t0 != h && t0 != y && t0 != z
      && w1 != w0 && w1 != h && w1 != y && w1 != z
      && w0 != h && w0 != y && w0 != z && h != y && h != z && y != z
      && cp != temp && sig != pk && sig != buf && pk != buf
      && cp as object != sig && cp as object != pk && cp as object != buf
      && temp as object != sig && temp as object != pk && temp as object != buf
    }

    ghost function Arrays(): set<object> {
      {t1 as object, t0 as object, w1 as object, w0 as object, h as object, y as object, z as object,
       cp as object, temp as object, sig as object, pk as object, buf as object}
    }

    /** a is none of the vectors that the rejection loop overwrites. */
    ghost predicate Apart(a: array<Poly32>) {
      a != y && a != z && a != w1 && a != w0 && a != h
    }

    constructor ()
      ensures Valid()
      ensures fresh(t1) && fresh(t0) && fresh(w1) && fresh(w0) && fresh(h) && fresh(y) && fresh(z)
      ensures fresh(cp) && fresh(temp) && fresh(sig) && fresh(pk) && fresh(buf)
    {
      t1 := new Poly32[K];
      t0 := new Poly32[K];
      w1 := new Poly32[K];
      w0 := new Poly32[K];
      h := new Poly32[K];
      y := new Poly32[L];
      z := new Poly32[L];
      cp := new int32[256];
      temp := new int32[256];
      sig := new byte[CRYPTO_BYTES];
      pk := new byte[2592];
      buf := new byte[850];
    }

    /** combined_method, reduce and inverse transform: out becomes the matrix times v. */
    method MatrixTimesInto(x: Xof, rho: seq<byte>, out: array<Poly32>, hat: array<Poly32>, ghost v: Vec, ghost b: int,
                           ghost n: nat)
      requires Valid() && out.Length == K && hat.Length == L && out != hat && Supplied(x, rho, n)
      requires |v| == L && VBounded(v, b) && 0 <= b <= NTT_LIMIT && hat[..] == VNtt(v)
      modifies out, temp, buf
      ensures out[..] == MatrixTimes(Matrix(x, rho, n), v) && VBounded(out[..], INV_BOUND)
    {
      hide Supplied, VNtt, VInvNtt, MatVec, Matrix, VMap, VBounded, VDomain;
      CombinedMethod(x, rho, out, hat, temp, buf, n);
      Wider(out[..], 7 * Q, 8 * Q);
      VReduce(out[..]);
      MapVec(Reduction, out, out, temp);
      InvNttVolatile(out, temp);
    }

    /** From the transformed s1 and from s2 to the vector t, before rounding. */
    method PublicVector(x: Shake, seed: seq<byte>, hat: array<Poly32>, s2: array<Poly32>, ghost n: nat)
      requires Valid() && Enough(x, seed, n) && hat.Length == L && s2.Length == K && hat != t1 && s2 != t1
      requires hat[..] == VNtt(ExpandKey(x, seed, n).s1) && s2[..] == ExpandKey(x, seed, n).s2
      modifies t1, temp, buf
      ensures t1[..] == T(ExpandKey(x, seed, n))
    {
      ghost var key := ExpandKey(x, seed, n);
      ExpandedInRange(x, seed, n);
      assert key.a == Matrix(x.x128, Rho(x, seed), n) && Supplied(x.x128, Rho(x, seed), n);
      hide Enough, ExpandKey, Supplied, Matrix, MatrixTimes, VNtt, VMap, VZip, VBounded, VDomain, VDomain2;
      MatrixTimesInto(x.x128, Rho(x, seed), t1, hat, key.s1, 2, n);
      ghost var u := t1[..];
      VSum(u, key.s2, INV_BOUND, 2);
      ZipVec(Plus, t1, t1, s2, temp);
      Wider(t1[..], INV_BOUND + 2, Q - 1);
      VAddQ(t1[..]);
      MapVec(AddQ, t1, t1, temp);
    }

    /** The commitment of one attempt, its hash and the transformed challenge. */
    method Commit(x: Shake, seed: seq<byte>, mu: seq<byte>, maskSeed: seq<byte>, attempt: nat, ghost key: Key,
                  ghost t: Attempt, ghost n: nat)
      requires Valid() && Enough(x, seed, n) && key == ExpandKey(x, seed, n) && attempt < MAX_ATTEMPTS
      requires t == Try(x, key, mu, maskSeed, attempt, n) && ChallengeSupplied(x, t.ctilde, n)
      modifies y, z, w1, w0, sig, cp, temp, buf
      ensures y[..] == t.y && w1[..] == W1(key, t.y) && w0[..] == W0(key, t.y)
      ensures sig[..CTILDE_BYTES] == t.ctilde && cp[..] == NttSpec(t.c)
    {
      hide Enough, ExpandKey, W1, W0, Mask, CTilde, ChallengeOf, ChallengeSupplied, NttSpec, VBounded;
      MaskRange(x, maskSeed, attempt);
      SampleMask(x, maskSeed, attempt, y, temp);
      CopyVec(z, y, temp);
      CommitVector(x, seed, t.y, n);
      HashCommitment(x, mu, W1(key, t.y), n);
    }

    /** w and its two parts, from the mask in z. */
    method CommitVector(x: Shake, seed: seq<byte>, ghost yv: Vec, ghost n: nat)
      requires Valid() && Enough(x, seed, n) && z[..] == yv && VBounded(yv, GAMMA1)
      modifies z, w1, w0, temp, buf
      ensures w1[..] == W1(ExpandKey(x, seed, n), yv) && w0[..] == W0(ExpandKey(x, seed, n), yv)
    {
      ghost var key := ExpandKey(x, seed, n);
      assert key.a == Matrix(x.x128, Rho(x, seed), n) && Supplied(x.x128, Rho(x, seed), n);
      hide Enough, ExpandKey, Supplied, Matrix, MatrixTimes, VNtt, VMap, VBounded;
      Wider(yv, GAMMA1, NTT_LIMIT);
      NttVolatile(z, temp);
      MatrixTimesInto(x.x128, Rho(x, seed), w1, z, yv, GAMMA1, n);
      Wider(w1[..], INV_BOUND, Q - 1);
      VAddQ(w1[..]);
      MapVec(AddQ, w1, w1, temp);
      DecomposeVec(w1, w0, w1, temp);
    }

    /** The commitment is packed into the signature buffer, hashed, and the challenge is sampled. */
    method HashCommitment(x: Shake, mu: seq<byte>, ghost high: Vec, ghost n: nat)
      requires Valid() && ChallengeSupplied(x, CTilde(x, mu, high), n) && w1[..] == high
      modifies sig, cp, temp, buf
      ensures sig[..CTILDE_BYTES] == CTilde(x, mu, high)
      ensures cp[..] == NttSpec(ChallengeOf(x, CTilde(x, mu, high), n))
    {
      hide ChallengeSpec, NttSpec, PackW1Vec, Decided;
      PackW1Into(w1, sig);
      ghost var packed := sig[..];
      assert packed[..1024] == PackW1Vec(high);
      var input := mu + sig[..1024];
      Squeeze(Output(x.x256, input), 0, buf, 0, CTILDE_BYTES);
      var ctilde := buf[..CTILDE_BYTES];
      assert ctilde == Bytes(x.x256, input, 0, CTILDE_BYTES);
      StoreBytes(sig, 0, ctilde);
      assert sig[..CTILDE_BYTES] == ctilde;
      ChallengeRange(x, ctilde, n);
      PolyChallenge(Output(x.x256, ctilde), cp, n);
      PolyNtt(cp, temp);
    }

    /** z and its check. */
    method Respond(s1hat: array<Poly32>, ghost key: Key, ghost yv: Vec, ghost c: Poly) returns (err: int32)
      requires Valid() && InRange(key) && |yv| == L && VBounded(yv, GAMMA1) && Bounded(c, 1)
      requires s1hat.Length == L && s1hat != z && s1hat[..] == VNtt(key.s1) && y[..] == yv && cp[..] == NttSpec(c)
      modifies z, temp
      ensures z[..] == Response(key, yv, c)
      ensures err == 0 <==> VBelow(z[..], GAMMA1 - BETA)
    {
      ByChallengeRange(c, key.s1, 2);
      hide VNtt, NttSpec, InvNttSpec, VMap, VZip, VBounded, VDomain, VDomain2, VBelow, Mont;
      ByPolyVec(z, cp[..], s1hat, temp);
      InvNttVolatile(z, temp);
      VSum(z[..], yv, INV_BOUND, GAMMA1);
      ZipVec(Plus, z, z, y, temp);
      Wider(z[..], INV_BOUND + GAMMA1, 8 * Q);
      VReduce(z[..]);
      MapVec(Reduction, z, z, temp);
      BoundedBelow(z[..], Q);
      err := VChkNorm(z, GAMMA1 - BETA);
    }

    /** The low part of w - c * s2 and its check. */
    method CheckLow(s2hat: array<Poly32>, ghost key: Key, ghost yv: Vec, ghost c: Poly) returns (err: int32)
      requires Valid() && InRange(key) && |yv| == L && VBounded(yv, GAMMA1) && Bounded(c, 1)
      requires s2hat.Length == K && s2hat != h && s2hat != w0 && s2hat[..] == VNtt(key.s2)
      requires w0[..] == W0(key, yv) && cp[..] == NttSpec(c)
      modifies h, w0, temp
      ensures w0[..] == LowRest(key, yv, c)
      ensures err == 0 <==> VBelow(w0[..], GAMMA2 - BETA)
      ensures VBounded(w0[..], Q)
    {
      ByChallengeRange(c, key.s2, 2);
      LowRange(key, yv);
      hide VNtt, NttSpec, InvNttSpec, VMap, VZip, VBounded, VDomain, VDomain2, VBelow, Mont, W0;
      ByPolyVec(h, cp[..], s2hat, temp);
      InvNttVolatile(h, temp);
      VSum(w0[..], h[..], GAMMA2, INV_BOUND);
      ZipVec(Minus, w0, w0, h, temp);
      Wider(w0[..], GAMMA2 + INV_BOUND, 8 * Q);
      VReduce(w0[..]);
      MapVec(Reduction, w0, w0, temp);
      BoundedBelow(w0[..], Q);
      err := VChkNorm(w0, GAMMA2 - BETA);
    }

    /** c * t0 and its check. */
    method CheckCorrection(ghost key: Key, ghost c: Poly) returns (err: int32)
      requires Valid() && InRange(key) && Bounded(c, 1) && t0[..] == VNtt(T0(key)) && cp[..] == NttSpec(c)
      modifies h, temp
      ensures h[..] == Correction(key, c)
      ensures err == 0 <==> VBelow(h[..], GAMMA2)
      ensures VBounded(h[..], Q)
    {
      LowHalfRange(key);
      ByChallengeRange(c, T0(key), 0x1000);
      hide VNtt, NttSpec, InvNttSpec, VMap, VBounded, VDomain, VBelow, Mont, T0;
      ByPolyVec(h, cp[..], t0, temp);
      InvNttVolatile(h, temp);
      Wider(h[..], INV_BOUND, 8 * Q);
      VReduce(h[..]);
      MapVec(Reduction, h, h, temp);
      BoundedBelow(h[..], Q);
      err := VChkNorm(h, GAMMA2);
    }

    /** The hints and their number. */
    method ComputeHints(ghost key: Key, ghost yv: Vec, ghost c: Poly) returns (count: uint32)
      requires Valid() && InRange(key) && |yv| == L && VBounded(yv, GAMMA1)
      requires w0[..] == LowRest(key, yv, c) && h[..] == Correction(key, c) && w1[..] == W1(key, yv)
      requires VBounded(w0[..], Q) && VBounded(h[..], Q)
      modifies h, w0, temp
      ensures h[..] == Hints(key, yv, c) && count == |AllLists(h[..])|
    {
      hide LowRest, Correction, W1, VZip, VBounded, VDomain2, Lists;
      VSum(w0[..], h[..], Q, Q);
      ZipVec(Plus, w0, w0, h, temp);
      HintDomain(key, yv, w0[..]);
      count := MakeHintVec(h, w0, w1, temp);
    }

    /** The checks of the loop body; the first that fails leaves the rest undone. */
    method Check(s1hat: array<Poly32>, s2hat: array<Poly32>, ghost key: Key, ghost t: Attempt)
      returns (ok: bool)
      requires Valid() && InRange(key) && |t.y| == L && VBounded(t.y, GAMMA1) && Bounded(t.c, 1)
      requires s1hat.Length == L && Apart(s1hat) && s1hat[..] == VNtt(key.s1)
      requires s2hat.Length == K && Apart(s2hat) && s2hat[..] == VNtt(key.s2)
      requires y[..] == t.y && w1[..] == W1(key, t.y) && w0[..] == W0(key, t.y)
      requires t0[..] == VNtt(T0(key)) && cp[..] == NttSpec(t.c)
      modifies z, h, w0, temp
      ensures ok <==> Accepts(key, t)
      ensures ok ==> |AllLists(h[..])| <= OMEGA && z[..] == Response(key, t.y, t.c) && h[..] == Hints(key, t.y, t.c)
    {
      hide VNtt, NttSpec, T0, Response, LowRest, Correction, Hints, W1, W0, VBelow, VBounded, InRange, Lists;
      var err := Respond(s1hat, key, t.y, t.c);
      if err != 0 {
        return false;
      }
      err := CheckLow(s2hat, key, t.y, t.c);
      if err != 0 {
        return false;
      }
      err := CheckCorrection(key, t.c);
      if err != 0 {
        return false;
      }
      var count := ComputeHints(key, t.y, t.c);
      return count <= OMEGA;
    }

    /** The body of the rejection loop. */
    method AttemptOnce(x: Shake, seed: seq<byte>, mu: seq<byte>, maskSeed: seq<byte>, attempt: nat,
                       s1hat: array<Poly32>, s2hat: array<Poly32>, ghost key: Key, ghost t: Attempt, ghost n: nat)
      returns (ok: bool)
      requires Valid() && Enough(x, seed, n) && key == ExpandKey(x, seed, n) && attempt < MAX_ATTEMPTS
      requires t == Try(x, key, mu, maskSeed, attempt, n) && ChallengeSupplied(x, t.ctilde, n)
      requires s1hat.Length == L && Apart(s1hat) && s1hat[..] == VNtt(key.s1)
      requires s2hat.Length == K && Apart(s2hat) && s2hat[..] == VNtt(key.s2)
      requires t0[..] == VNtt(T0(key))
      modifies y, z, w1, w0, h, sig, cp, temp, buf
      ensures ok <==> Accepts(key, t)
      ensures ok ==> sig[..] == Released(key, t)
    {
      hide Enough, ExpandKey, Try, ValidKey, VNtt, NttSpec, T0, Response, Hints, W1, W0, VBelow, VBounded, LowBitsKept;
      hide InRange, Signature, Lists, Accepts, Released, ChallengeSupplied;
      AttemptFacts(x, seed, mu, maskSeed, attempt, n);
      Commit(x, seed, mu, maskSeed, attempt, key, t, n);
      ok := Check(s1hat, s2hat, key, t);
      if ok {
        Release(key, t);
      }
    }

    /** The accepted attempt becomes the signature. */
    method Release(ghost key: Key, ghost t: Attempt)
      requires Valid() && ValidKey(key) && |t.y| == L && |t.ctilde| == CTILDE_BYTES && Accepts(key, t)
      requires sig[..CTILDE_BYTES] == t.ctilde && |AllLists(h[..])| <= OMEGA
      requires z[..] == Response(key, t.y, t.c) && h[..] == Hints(key, t.y, t.c)
      modifies sig, buf
      ensures sig[..] == Released(key, t)
    {
      hide ValidKey, Accepts, Released, Response, Hints, Signature, Lists;
      ReleasedIs(key, t);
      var c := sig[..CTILDE_BYTES];
      PackSig(sig, c, z, h, buf);
    }

    /** The rejection loop; the key material survives every attempt. */
    method RejectionLoop(x: Shake, seed: seq<byte>, mu: seq<byte>, maskSeed: seq<byte>,
                         s1hat: array<Poly32>, s2hat: array<Poly32>, ghost key: Key, ghost n: nat)
      returns (err: ErrorCode)
      requires Valid() && Enough(x, seed, n) && key == ExpandKey(x, seed, n)
      requires Settles(x, key, mu, maskSeed, 0, n)
      requires s1hat.Length == L && Apart(s1hat) && s1hat[..] == VNtt(key.s1)
      requires s2hat.Length == K && Apart(s2hat) && s2hat[..] == VNtt(key.s2)
      requires t0[..] == VNtt(T0(key))
      modifies y, z, w1, w0, h, sig, cp, temp, buf
      ensures match Search(x, key, mu, maskSeed, 0, n)
        case Signed(s) => err == NoError && sig[..] == s
        case Exhausted => err == InvalidSignature
    {
      hide Enough, ExpandKey, Try, VNtt, T0, Accepts, Released, ChallengeSupplied;
      var attempts := 0;
      while attempts < MAX_ATTEMPTS
        invariant attempts <= MAX_ATTEMPTS
        invariant s1hat[..] == VNtt(key.s1) && s2hat[..] == VNtt(key.s2) && t0[..] == VNtt(T0(key))
        invariant Search(x, key, mu, maskSeed, 0, n) == Search(x, key, mu, maskSeed, attempts, n)
        invariant Settles(x, key, mu, maskSeed, attempts, n)
      {
        ghost var t := Try(x, key, mu, maskSeed, attempts, n);
        var ok := AttemptOnce(x, seed, mu, maskSeed, attempts, s1hat, s2hat, key, t, n);
        if ok {
          return NoError;
        }
        attempts := attempts + 1;
      }
      err := InvalidSignature;
    }

    /** pack_pk_volatile. */
    method EncodePublicKey(rho: seq<byte>)
      requires Valid() && |rho| == 32
      modifies pk, buf
      ensures pk[..] == PublicKey(rho, t1[..])
    {
      hide PackVec, Size, Groups;
      Sizes();
      StoreBytes(pk, 0, rho);
      PackVecInto(T1Layout, t1, pk, 32, buf);
      assert pk[..32] == rho;
    }

    /** The key phase of the signer and the verifier: rounded halves of t and the encoded public key. */
    method RoundAndEncode(x: Shake, seed: seq<byte>, s1: array<Poly32>, s2: array<Poly32>, ghost key: Key, ghost n: nat)
      requires Valid() && Enough(x, seed, n) && key == ExpandKey(x, seed, n)
      requires s1.Length == L && s2.Length == K && s1 != t1 && s2 != t1
      requires s1[..] == VNtt(key.s1) && s2[..] == key.s2
      modifies t1, t0, pk, temp, buf
      ensures t1[..] == T1(key) && t0[..] == T0(key) && pk[..] == EncodedKey(x, seed, n)
    {
      hide Enough, ExpandKey, T, VNtt, VMap, VDomain, PublicKey, Rho;
      RoundDomain(x, seed, n);
      PublicVector(x, seed, s1, s2, n);
      Power2RoundVec(t1, t0, t1, temp);
      EncodePublicKey(Rho(x, seed));
    }

    /** crypto_sign_keypair with a given seed: only the high half of t is kept. */
    method Keypair(x: Shake, seed: seq<byte>, ghost n: nat)
      requires Valid() && Enough(x, seed, n)
      modifies t1, pk, temp, buf
      ensures pk[..] == EncodedKey(x, seed, n)
    {
      RoundDomain(x, seed, n);
      hide Enough, ExpandKey, T, VNtt, VMap, VDomain, PublicKey, Rho;
      var s1, s2 := new Poly32[L], new Poly32[K];
      SampleSecrets(x, seed, s1, s2, n);
      NttVec(s1, temp);
      PublicVector(x, seed, s1, s2, n);
      MapVec(RoundHigh, t1, t1, temp);
      EncodePublicKey(Rho(x, seed));
    }

    /** The key phase of the signer; s1 and s2 are kept. */
    method PrepareKey(x: Shake, seed: seq<byte>, s1: array<Poly32>, s2: array<Poly32>, ghost key: Key, ghost n: nat)
      requires Valid() && Enough(x, seed, n) && s1.Length == L && s2.Length == K && s1 != s2
      requires s1 != t1 && s1 != t0 && s2 != t1 && s2 != t0 && key == ExpandKey(x, seed, n)
      modifies s1, s2, t1, t0, pk, temp, buf
      ensures s1[..] == key.s1 && s2[..] == key.s2 && t0[..] == T0(key)
      ensures pk[..] == EncodedKey(x, seed, n)
    {
      hide Enough, ExpandKey, EncodedKey, VNtt, VBounded, T0, T1;
      var s1hat := new Poly32[L];
      SampleSecrets(x, seed, s1, s2, n);
      CopyVec(s1hat, s1, temp);
      NttVec(s1hat, temp);
      RoundAndEncode(x, seed, s1hat, s2, key, n);
    }

    /** The transforms before the rejection loop. */
    method TransformKey(s1: array<Poly32>, s2: array<Poly32>, ghost key: Key)
      requires Valid() && s1.Length == L && s2.Length == K && s1 != s2 && InRange(key)
      requires s1 != t0 && s2 != t0 && s1[..] == key.s1 && s2[..] == key.s2 && t0[..] == T0(key)
      modifies s1, s2, t0, temp
      ensures s1[..] == VNtt(key.s1) && s2[..] == VNtt(key.s2) && t0[..] == VNtt(T0(key))
    {
      LowHalfRange(key);
      Wider(key.s1, 2, NTT_LIMIT);
      Wider(key.s2, 2, NTT_LIMIT);
      Wider(T0(key), 0x1000, NTT_LIMIT);
      hide VNtt, VBounded, T0, InRange;
      NttVec(s1, temp);
      NttVec(s2, temp);
      NttVolatile(t0, temp);
    }

    /** crypto_sign_optimized, after its argument checks. */
    method SignWithSeed(x: Shake, seed: seq<byte>, msg: seq<byte>, rnd: seq<byte>, ghost n: nat)
      returns (err: ErrorCode)
      requires Valid() && SignEnough(x, seed, msg, rnd, n)
      modifies t1, t0, pk, y, z, w1, w0, h, sig, cp, temp, buf
      ensures match SignSpec(x, seed, msg, rnd, n)
        case Signed(s) => err == NoError && sig[..] == s
        case Exhausted => err == InvalidSignature
    {
      hide Enough, ExpandKey, EncodedKey, VNtt, InRange, Search, Settles, Bytes, T0, SeedInput;
      ghost var expanded := ExpandKey(x, seed, n);
      var s1, s2 := new Poly32[L], new Poly32[K];
      PrepareKey(x, seed, s1, s2, expanded, n);
      ExpandedInRange(x, seed, n);
      TransformKey(s1, s2, expanded);
      var mu := ComputeMu(x, msg);
      var key := SqueezeBytes(x.x256, SeedInput(seed), 96, 32);
      var maskSeed := SqueezeBytes(x.x256, key + rnd + mu, 0, 64);
      err := RejectionLoop(x, seed, mu, maskSeed, s1, s2, expanded, n);
    }

    /** The message representative, from the encoded key in storage. */
    method ComputeMu(x: Shake, msg: seq<byte>) returns (mu: seq<byte>)
      ensures mu == Mu(x, pk[..], msg)
    {
      hide Bytes;
      var tr := SqueezeBytes(x.x256, pk[..], 0, 64);
      mu := SqueezeBytes(x.x256, tr + ([0, 8] + Context()) + msg, 0, 64);
    }

    /** A*z - c*t1*2^13 and the hints: the high parts that the verifier hashes. */
    method Reconstruct(x: Shake, seed: seq<byte>, ghost zv: Vec, ghost c: Poly, ghost hv: Vec, ghost n: nat)
      requires Valid() && Enough(x, seed, n) && z[..] == zv && VBounded(zv, Q) && h[..] == hv && IsHint(hv)
      requires t1[..] == T1(ExpandKey(x, seed, n)) && cp[..] == c && Bounded(c, 1)
      modifies z, w1, t1, cp, temp, buf
      ensures w1[..] == Recovered(ExpandKey(x, seed, n), zv, c, hv)
    {
      ghost var key := ExpandKey(x, seed, n);
      ReconstructFacts(x, seed, zv, c, n);
      HintedDomain(key, zv, c, hv);
      assert key.a == Matrix(x.x128, Rho(x, seed), n) && Supplied(x.x128, Rho(x, seed), n);
      hide Enough, ExpandKey, Supplied, Matrix, MatVec, VNtt, VMap, VZip, VBy, VBounded, VDomain, VDomain2, NttSpec;
      hide T1, IsHint, InRange, ValidKey;
      Wider(zv, Q, NTT_LIMIT);
      NttVolatile(z, temp);
      CombinedMethod(x.x128, Rho(x, seed), w1, z, temp, buf, n);
      PolyNtt(cp, temp);
      MapVec(ShiftLeft, t1, t1, temp);
      NttVolatile(t1, temp);
      ByPolyVec(t1, cp[..], t1, temp);
      VSum(w1[..], t1[..], L * Q, Q);
      ZipVec(Minus, w1, w1, t1, temp);
      VReduce(w1[..]);
      MapVec(Reduction, w1, w1, temp);
      InvNttVolatile(w1, temp);
      Wider(w1[..], INV_BOUND, Q - 1);
      VAddQ(w1[..]);
      MapVec(AddQ, w1, w1, temp);
      ZipVec(ApplyHint, w1, w1, h, temp);
    }

    /** crypto_verify_optimized, after its argument checks. */
    method VerifyWithSeed(x: Shake, seed: seq<byte>, msg: seq<byte>, signature: array<byte>, ghost n: nat)
      returns (ok: bool)
      requires Valid() && signature.Length == CRYPTO_BYTES && VerifyEnough(x, seed, signature[..], n)
      requires signature != pk && signature != buf && cp as object != signature && temp as object != signature
      modifies t1, t0, pk, z, w1, h, cp, temp, buf
      ensures ok <==> Verifies(x, seed, msg, signature[..], n)
    {
      hide Enough, ExpandKey, EncodedKey, VNtt, VBounded, T0, T1, HintCodec.Accepted, Decoded, ResponsePart, Mu;
      hide ChallengeOf, CTilde, Recovered, VBelow, ChallengePart, HintPart, IsHint, ChallengeSupplied;
      var s1, s2 := new Poly32[L], new Poly32[K];
      SampleSecrets(x, seed, s1, s2, n);
      NttVec(s1, temp);
      RoundAndEncode(x, seed, s1, s2, ExpandKey(x, seed, n), n);
      var r, c := UnpackSig(signature, z, h, temp);
      if r != 0 {
        return false;
      }
      ResponseWords(signature[..]);
      var err := VChkNorm(z, GAMMA1 - BETA);
      if err != 0 {
        return false;
      }
      EncodeOfDecode(HintPart(signature[..]));
      var mu := ComputeMu(x, msg);
      var c2 := Recompute(x, seed, mu, c, z[..], h[..], n);
      ok := c == c2;
    }

    /** The verifier's second half: the challenge, the recovered high parts and their hash. */
    method Recompute(x: Shake, seed: seq<byte>, mu: seq<byte>, c: seq<byte>, ghost zv: Vec, ghost hv: Vec, ghost n: nat)
      returns (c2: seq<byte>)
      requires Valid() && Enough(x, seed, n) && ChallengeSupplied(x, c, n) && z[..] == zv && h[..] == hv
      requires VBelow(zv, GAMMA1 - BETA) && IsHint(hv) && t1[..] == T1(ExpandKey(x, seed, n))
      modifies z, w1, t1, cp, temp, buf
      ensures c2 == CTilde(x, mu, Recovered(ExpandKey(x, seed, n), zv, ChallengeOf(x, c, n), hv))
    {
      hide Enough, ExpandKey, T1, VBounded, VBelow, IsHint, Recovered, ChallengeSpec, Decided, PackW1Vec, Bytes;
      BelowBounded(zv, GAMMA1 - BETA, Q);
      ChallengeRange(x, c, n);
      PolyChallenge(Output(x.x256, c), cp, n);
      Reconstruct(x, seed, zv, cp[..], hv, n);
      var packed := new byte[1024];
      PackW1Into(w1, packed);
      assert packed[..] == PackW1Vec(w1[..]);
      c2 := SqueezeBytes(x.x256, mu + packed[..], 0, CTILDE_BYTES);
    }

    /** crypto_sign_optimized. */
    method Sign(x: Shake, derive: Derivation, path: seq<uint32>, msg: seq<byte>, rnd: seq<byte>,
                ghost d: Derived, ghost n: nat) returns (err: ErrorCode)
      requires Valid() && d == derive(path) && SignReady(x, d, msg, rnd, n)
      modifies t1, t0, pk, y, z, w1, w0, h, sig, cp, temp, buf
      ensures match SignResult(x, d, msg, rnd, n)
        case Ok(s) => err == NoError && sig[..] == s
        case Err(e) => err == e && (e != InvalidSignature ==> sig[..] == old(sig[..]))
    {
      hide SignSpec, SignEnough;
      if |msg| == 0 {
        return InvalidMessage;
      }
      match derive(path)
      case Refused =>
        return DerivationFailed;
      case Raw(raw) =>
        err := SignWithSeed(x, raw[..SEED_BYTES], msg, rnd, n);
    }

    /** crypto_verify_optimized. */
    method Verify(x: Shake, derive: Derivation, path: seq<uint32>, signature: array<byte>, msg: seq<byte>,
                  ghost d: Derived, ghost n: nat) returns (err: ErrorCode, isVerified: bool)
      requires Valid() && d == derive(path) && VerifyReady(x, d, signature[..], msg, n)
      requires signature != pk && signature != buf && cp as object != signature && temp as object != signature
      modifies t1, t0, pk, z, w1, h, cp, temp, buf
      ensures match VerifyResult(x, d, signature[..], msg, n)
        case Ok(v) => err == NoError && isVerified == v
        case Err(e) => err == e && !isVerified
    {
      hide Verifies, VerifyEnough;
      if signature.Length == 0 {
        return InvalidSignature, false;
      }
      if |msg| == 0 {
        return InvalidMessage, false;
      }
      if signature.Length != CRYPTO_BYTES {
        return InvalidSignature, false;
      }
      match derive(path)
      case Refused =>
        return DerivationFailed, false;
      case Raw(raw) =>
        isVerified := VerifyWithSeed(x, raw[..SEED_BYTES], msg, signature, n);
        err := NoError;
    }

    /**
      crypto_sign_message of validate.c: sign, verify with the same path, and release only if both
      succeed.  The postcondition says that the second step never fails: the result is 0 exactly when
      signing succeeds, and then the signature in storage is the released one.  A refusal before the
      rejection loop leaves the old signature in storage.
     */
    method SignMessage(x: Shake, derive: Derivation, path: seq<uint32>, hash: seq<byte>, rnd: seq<byte>,
                       ghost d: Derived, ghost n: nat) returns (r: int)
      requires Valid() && d == derive(path) && SignReady(x, d, hash, rnd, n)
      modifies t1, t0, pk, y, z, w1, w0, h, sig, cp, temp, buf
      ensures match SignResult(x, d, hash, rnd, n)
        case Ok(s) => r == 0 && sig[..] == s
        case Err(e) => r == -1 && (e != InvalidSignature ==> sig[..] == old(sig[..]))
    {
      hide SignResult, VerifyResult, SignReady, VerifyReady;
      SignedResultVerifies(x, d, hash, rnd, n);
      var error := Sign(x, derive, path, hash, rnd, d, n);
      if error != NoError {
        return -1;
      }
      var isVerified;
      error, isVerified := Verify(x, derive, path, sig, hash, d, n);
      r := if error != NoError || !isVerified then -1 else 0;
    }
  }

  /** The error codes that signing and verification return; a failed derivation is -1 in the C code. */
  datatype ErrorCode = NoError | DerivationFailed | InvalidMessage | InvalidSignature

  datatype Result<T> = Ok(value: T) | Err(error: ErrorCode)

  /** The key derivation of the device: 64 bytes for a path, or a refusal. */
  datatype Derived = Raw(bytes: seq<byte>) | Refused
  type Derivation = seq<uint32> -> Derived

  /** A derived seed is 64 bytes long, and the rejection loops that signing runs through terminate. */
  ghost predicate SignReady(x: Shake, d: Derived, msg: seq<byte>, rnd: seq<byte>, n: nat) {
    msg != [] && d.Raw? ==> |d.bytes| == 64 && SignEnough(x, d.bytes[..SEED_BYTES], msg, rnd, n)
  }

  /** The same for verification. */
  ghost predicate VerifyReady(x: Shake, d: Derived, sig: seq<byte>, msg: seq<byte>, n: nat) {
    msg != [] && d.Raw? && |sig| == CRYPTO_BYTES ==>
      |d.bytes| == 64 && VerifyEnough(x, d.bytes[..SEED_BYTES], sig, n)
  }

  /** What a sign call returns: an error, or the released signature. */
  ghost function SignResult(x: Shake, d: Derived, msg: seq<byte>, rnd: seq<byte>, n: nat): (r: Result<seq<byte>>)
    requires SignReady(x, d, msg, rnd, n)
    ensures r.Err? ==> r.error != NoError
  {
    if msg == [] then Err(InvalidMessage)
    else if d.Refused? then Err(DerivationFailed)
    else match SignSpec(x, d.bytes[..SEED_BYTES], msg, rnd, n)
      case Signed(s) => Ok(s)
      case Exhausted => Err(InvalidSignature)
  }

  /** What a verify call returns: an error, or the verdict. */
  ghost function VerifyResult(x: Shake, d: Derived, sig: seq<byte>, msg: seq<byte>, n: nat): Result<bool>
    requires VerifyReady(x, d, sig, msg, n)
  {
    if sig == [] then Err(InvalidSignature)
    else if msg == [] then Err(InvalidMessage)
    else if |sig| != CRYPTO_BYTES then Err(InvalidSignature)
    else if d.Refused? then Err(DerivationFailed)
    else Ok(Verifies(x, d.bytes[..SEED_BYTES], msg, sig, n))
  }

  /** The order of the argument checks, and the 32 bytes of the derived secret that are the seed. */
  lemma SignCodes(x: Shake, d: Derived, msg: seq<byte>, rnd: seq<byte>, n: nat)
    requires SignReady(x, d, msg, rnd, n)
    ensures |msg| == 0 ==> SignResult(x, d, msg, rnd, n) == Err(InvalidMessage)
    ensures |msg| > 0 && d == Refused ==> SignResult(x, d, msg, rnd, n) == Err(DerivationFailed)
    ensures |msg| > 0 && d.Raw? ==>
      && |d.bytes| == 64 && SignEnough(x, d.bytes[..32], msg, rnd, n)
      && SignResult(x, d, msg, rnd, n) ==
         match SignSpec(x, d.bytes[..32], msg, rnd, n)
         case Signed(s) => Ok(s)
         case Exhausted => Err(InvalidSignature)
  {
    hide SignSpec, SignEnough;
  }

  lemma VerifyCodes(x: Shake, d: Derived, msg: seq<byte>, sig: seq<byte>, n: nat)
    requires VerifyReady(x, d, sig, msg, n)
    ensures |sig| == 0 ==> VerifyResult(x, d, sig, msg, n) == Err(InvalidSignature)
    ensures |sig| > 0 && |msg| == 0 ==> VerifyResult(x, d, sig, msg, n) == Err(InvalidMessage)
    ensures |sig| > 0 && |msg| > 0 && |sig| != 4627 ==> VerifyResult(x, d, sig, msg, n) == Err(InvalidSignature)
    ensures |msg| > 0 && |sig| == 4627 && d == Refused ==> VerifyResult(x, d, sig, msg, n) == Err(DerivationFailed)
    ensures |msg| > 0 && |sig| == 4627 && d.Raw? ==>
      && |d.bytes| == 64 && VerifyEnough(x, d.bytes[..32], sig, n)
      && VerifyResult(x, d, sig, msg, n) == Ok(Verifies(x, d.bytes[..32], msg, sig, n))
  {
    hide Verifies, VerifyEnough;
  }

  /** Every signature that a sign call returns is accepted by a verify call for the same path and message. */
  lemma SignedResultVerifies(x: Shake, d: Derived, msg: seq<byte>, rnd: seq<byte>, n: nat)
    requires SignReady(x, d, msg, rnd, n)
    ensures var r := SignResult(x, d, msg, rnd, n);
      r.Ok? ==> VerifyReady(x, d, r.value, msg, n) && VerifyResult(x, d, r.value, msg, n) == Ok(true)
  {
    hide SignEnough, VerifyEnough, SignSpec, Verifies;
    if msg != [] && d.Raw? {
      SignedVerifies(x, d.bytes[..SEED_BYTES], msg, rnd, n);
    }
  }

  lemma ReleasedIs(key: Key, t: Attempt)
    requires ValidKey(key) && |t.y| == L && |t.ctilde| == CTILDE_BYTES && Accepts(key, t)
    ensures |AllLists(Hints(key, t.y, t.c))| <= OMEGA
    ensures Released(key, t) == Signature(t.ctilde, Response(key, t.y, t.c), Hints(key, t.y, t.c))
  {
    hide Response, Hints, LowBitsKept, VBelow, Lists, Signature;
  }

  lemma AttemptFacts(x: Shake, seed: seq<byte>, mu: seq<byte>, maskSeed: seq<byte>, attempt: nat, n: nat)
    requires Enough(x, seed, n)
    requires ChallengeSupplied(x, Try(x, ExpandKey(x, seed, n), mu, maskSeed, attempt, n).ctilde, n)
    ensures var t := Try(x, ExpandKey(x, seed, n), mu, maskSeed, attempt, n);
      InRange(ExpandKey(x, seed, n)) && VBounded(t.y, GAMMA1) && Bounded(t.c, 1)
  {
    hide Enough, ExpandKey, CTilde, Mask, ChallengeOf, InRange, ChallengeSupplied;
    var t := Try(x, ExpandKey(x, seed, n), mu, maskSeed, attempt, n);
    ExpandedInRange(x, seed, n);
    MaskRange(x, maskSeed, attempt);
    ChallengeRange(x, t.ctilde, n);
  }

  method SampleSecrets(x: Shake, seed: seq<byte>, s1: array<Poly32>, s2: array<Poly32>, ghost n: nat)
    requires Enough(x, seed, n) && s1.Length == L && s2.Length == K && s1 != s2
    modifies s1, s2
    ensures s1[..] == ExpandKey(x, seed, n).s1 && s2[..] == ExpandKey(x, seed, n).s2
    ensures VBounded(s1[..], NTT_LIMIT) && VBounded(s2[..], NTT_LIMIT)
  {
    ExpandedInRange(x, seed, n);
    Wider(ExpandKey(x, seed, n).s1, 2, NTT_LIMIT);
    Wider(ExpandKey(x, seed, n).s2, 2, NTT_LIMIT);
    hide Enough, SecretVec, VBounded, InRange;
    SampleSecret(x, seed, s1, 0, n);
    SampleSecret(x, seed, s2, L, n);
  }

  /** t is canonical, so both roundings are defined and the high half fits its packing. */
  lemma RoundDomain(x: Shake, seed: seq<byte>, n: nat)
    requires Enough(x, seed, n)
    ensures VDomain(RoundHigh, T(ExpandKey(x, seed, n))) && VDomain(RoundLow, T(ExpandKey(x, seed, n)))
  {
    ExpandedInRange(x, seed, n);
    hide Enough, ExpandKey, T, VDomain;
    var key := ExpandKey(x, seed, n);
    forall i, k | 0 <= i < K && 0 <= k < 256
      ensures 0 <= T(key)[i][k] < Q
    {
      PublicRow(key, i);
    }
    CanonicalDomain(T(key));
  }

  lemma CanonicalDomain(v: Vec)
    requires forall i, k :: 0 <= i < |v| && 0 <= k < 256 ==> 0 <= v[i][k] < Q
    ensures VDomain(RoundHigh, v) && VDomain(RoundLow, v)
  {
  }

  /** The ranges that the verifier's arithmetic needs. */
  lemma ReconstructFacts(x: Shake, seed: seq<byte>, z: Vec, c: Poly, n: nat)
    requires Enough(x, seed, n) && |z| == L && VBounded(z, Q) && Bounded(c, 1)
    ensures var key := ExpandKey(x, seed, n);
      var high := VMap(ShiftLeft, T1(key));
      && InRange(key)
      && VDomain(ShiftLeft, T1(key)) && VBounded(high, NTT_LIMIT)
      && (forall i, k :: 0 <= i < K && 0 <= k < 256 ==> Product.Domain(NttSpec(c)[k], VNtt(high)[i][k]))
      && VBounded(VBy(NttSpec(c), VNtt(high)), Q)
  {
    ExpandedInRange(x, seed, n);
    hide Enough, ExpandKey, T1, NttSpec, Mont;
    var key := ExpandKey(x, seed, n);
    var high := VMap(ShiftLeft, T1(key));
    forall i | 0 <= i < K
      ensures forall k :: 0 <= k < 256 ==> 0 <= T1(key)[i][k] < 1024 && 0 <= high[i][k] < 8380417
    {
      HalvesRow(key, i);
    }
    ByChallengeRange(c, high, Q);
    ByCoefficients(high, NTT_LIMIT);
  }

  /** The reconstruction is canonical, as use_hint needs it. */
  lemma HintedDomain(key: Key, z: Vec, c: Poly, h: Vec)
    requires InRange(key) && |z| == L && VBounded(z, Q) && Bounded(c, 1) && IsHint(h)
    ensures VDomain2(ApplyHint, Reconstruction(key, z, c), h)
  {
    hide Acc, NttSpec, InvNttSpec, T1, Reduce32, Mont, Cong;
    forall i | 0 <= i < K
      ensures forall k :: 0 <= k < 256 ==> 0 <= Reconstruction(key, z, c)[i][k] < Q
    {
      DifferenceRange(key, z, c, i);
      var p := Zip(Product, NttSpec(c), NttSpec(Map(ShiftLeft, T1(key)[i])));
      var u := InvNttSpec(Map(Reduction, Zip(Minus, Acc(key.a[i], VNtt(z), L), p)));
      AddQPoly(u);
      assert Reconstruction(key, z, c)[i] == Map(AddQ, u);
    }
  }

  lemma ResponseWords(sig: seq<byte>)
    requires |sig| == CRYPTO_BYTES
    ensures VBelow(ResponsePart(sig), 0x4000_0000)
  {
    hide UnpackVec, PackVec, Legal, Size, Groups;
    Sizes();
    PackOfUnpackVec(ZLayout, sig[CTILDE_BYTES..CTILDE_BYTES + Z_BYTES], L);
    forall i | 0 <= i < L
      ensures Below(ResponsePart(sig)[i], 0x4000_0000)
    {
      LegalFits(ZLayout, ResponsePart(sig)[i]);
    }
  }

  lemma BelowBounded(v: Vec, a: int, b: int)
    requires VBelow(v, a) && a <= b
    ensures VBounded(v, b)
  {
    forall i | 0 <= i < |v|
      ensures Bounded(v[i], b)
    {
      assert Below(v[i], a);
    }
  }

  lemma BoundedBelow(v: Vec, b: int)
    requires VBounded(v, b) && b < 0x4000_0000
    ensures VBelow(v, 0x4000_0000)
  {
    forall i | 0 <= i < |v|
      ensures Below(v[i], 0x4000_0000)
    {
      assert Bounded(v[i], b);
    }
  }

  lemma LowRange(key: Key, y: Vec)
    requires InRange(key) && |y| == L && VBounded(y, GAMMA1)
    ensures VBounded(W0(key, y), GAMMA2)
  {
    hide W0, VBounded;
    forall i, k | 0 <= i < K && 0 <= k < 256
      ensures -GAMMA2 <= W0(key, y)[i][k] <= GAMMA2
    {
      HighRange(key, y, i, k);
    }
    ByCoefficients(W0(key, y), GAMMA2);
  }

  lemma ByCoefficients(v: Vec, b: int)
    requires forall i, k :: 0 <= i < |v| && 0 <= k < 256 ==> -b <= v[i][k] <= b
    ensures VBounded(v, b)
  {
  }

  lemma LowHalfRange(key: Key)
    requires InRange(key)
    ensures VBounded(T0(key), 0x1000)
  {
    hide T0;
    forall i | 0 <= i < K
      ensures Bounded(T0(key)[i], 0x1000)
    {
      HalvesRow(key, i);
    }
  }

  lemma HintDomain(key: Key, y: Vec, v: Vec)
    requires InRange(key) && |y| == L && VBounded(y, GAMMA1) && |v| == K && VBounded(v, 2 * Q)
    ensures VDomain2(Hint, v, W1(key, y))
  {
    hide W1;
    forall i, k | 0 <= i < K && 0 <= k < 256
      ensures Hint.Domain(v[i][k], W1(key, y)[i][k])
    {
      assert Bounded(v[i], 2 * Q);
      HighRange(key, y, i, k);
    }
  }

  /** The copy of the mask into z. */
  method CopyVec(out: array<Poly32>, v: array<Poly32>, temp: array<int32>)
    requires out.Length == v.Length && out != v && temp.Length == 256
    modifies out, temp
    ensures out[..] == v[..]
  {
    for i := 0 to v.Length
      invariant v[..] == old(v[..]) && forall k :: 0 <= k < i ==> out[k] == v[k]
    {
      Load(v[i], temp);
      out[i] := temp[..];
    }
  }

  lemma Wider(v: Vec, a: int, b: int)
    requires VBounded(v, a) && a <= b
    ensures VBounded(v, b)
  {
    forall i | 0 <= i < |v|
      ensures Bounded(v[i], b)
    {
      assert Bounded(v[i], a);
    }
  }
}
