/**
  What key generation, one signing attempt and verification compute (sign.c), as functions on vectors,
  and why the verifier recovers the high parts that the signer hashed.
 */
module Scheme {
  import opened Words
  import opened Modular
  import opened Reduce
  import opened Transform
  import opened TransformTheory
  import opened Rounding
  import opened Vectors
  import opened MatrixProduct
  import opened Norm
  import Multiplication

  /** A key: the matrix in the transform domain and the two short vectors. */
  datatype Key = Key(a: seq<Vec>, s1: Vec, s2: Vec)

  ghost predicate ValidKey(key: Key) {
    && |key.a| == K && (forall i :: 0 <= i < K ==> |key.a[i]| == L)
    && |key.s1| == L && |key.s2| == K
  }

  /** What the samplers guarantee of a key: canonical matrix entries and short secret vectors. */
  ghost predicate InRange(key: Key) {
    && ValidKey(key) && (forall i :: 0 <= i < K ==> Canonical(key.a[i]))
    && VBounded(key.s1, 2) && VBounded(key.s2, 2)
  }

  /** combined_method, reduce and inverse transform: the matrix times a vector. */
  ghost function MatrixTimes(a: seq<Vec>, v: Vec): (r: Vec)
    requires |v| == L && forall i :: 0 <= i < |a| ==> |a[i]| == L
    ensures |r| == |a|
  {
    VInvNtt(VMap(Reduction, MatVec(a, VNtt(v))))
  }

  /** The vector that is rounded to the public key. */
  ghost function T(key: Key): (t: Vec)
    requires ValidKey(key)
    ensures |t| == K
  {
    VMap(AddQ, VZip(Plus, MatrixTimes(key.a, key.s1), key.s2))
  }

  ghost function T1(key: Key): (t: Vec)
    requires ValidKey(key)
    ensures |t| == K
  {
    VMap(RoundHigh, T(key))
  }

  ghost function T0(key: Key): (t: Vec)
    requires ValidKey(key)
    ensures |t| == K
  {
    VMap(RoundLow, T(key))
  }

  /** The commitment to a mask y. */
  ghost function Commitment(key: Key, y: Vec): (w: Vec)
    requires ValidKey(key) && |y| == L
    ensures |w| == K
  {
    VMap(AddQ, MatrixTimes(key.a, y))
  }

  ghost function W1(key: Key, y: Vec): (w: Vec)
    requires ValidKey(key) && |y| == L
    ensures |w| == K
  {
    VMap(DecomposeHigh, Commitment(key, y))
  }

  ghost function W0(key: Key, y: Vec): (w: Vec)
    requires ValidKey(key) && |y| == L
    ensures |w| == K
  {
    VMap(DecomposeLow, Commitment(key, y))
  }

  /** The challenge times a vector. */
  ghost function ByChallenge(c: Poly, v: Vec): (r: Vec)
    ensures |r| == |v|
  {
    VInvNtt(VBy(NttSpec(c), VNtt(v)))
  }

  /** The response z. */
  ghost function Response(key: Key, y: Vec, c: Poly): (z: Vec)
    requires ValidKey(key) && |y| == L
    ensures |z| == L
  {
    VMap(Reduction, VZip(Plus, ByChallenge(c, key.s1), y))
  }

  /** The low part of w - c * s2. */
  ghost function LowRest(key: Key, y: Vec, c: Poly): (r: Vec)
    requires ValidKey(key) && |y| == L
    ensures |r| == K
  {
    VMap(Reduction, VZip(Minus, W0(key, y), ByChallenge(c, key.s2)))
  }

  ghost function Correction(key: Key, c: Poly): (r: Vec)
    requires ValidKey(key)
    ensures |r| == K
  {
    VMap(Reduction, ByChallenge(c, T0(key)))
  }

  ghost function Hints(key: Key, y: Vec, c: Poly): (h: Vec)
    requires ValidKey(key) && |y| == L
    ensures |h| == K
  {
    VZip(Hint, VZip(Plus, LowRest(key, y, c), Correction(key, c)), W1(key, y))
  }

  /** What the verifier reconstructs from a response. */
  ghost function Reconstruction(key: Key, z: Vec, c: Poly): (v: Vec)
    requires ValidKey(key) && |z| == L
    ensures |v| == K
  {
    var product := VBy(NttSpec(c), VNtt(VMap(ShiftLeft, T1(key))));
    VMap(AddQ, VInvNtt(VMap(Reduction, VZip(Minus, MatVec(key.a, VNtt(z)), product))))
  }

  ghost function Recovered(key: Key, z: Vec, c: Poly, h: Vec): (w: Vec)
    requires ValidKey(key) && |z| == L && |h| == K
    ensures |w| == K
  {
    VZip(ApplyHint, Reconstruction(key, z, c), h)
  }

  const BETA: int := 120
  const GAMMA1: int := 524288

  /** The two checks of the signing loop on which the recovery of w1 rests. */
  ghost predicate LowBitsKept(key: Key, y: Vec, c: Poly)
    requires ValidKey(key) && |y| == L
  {
    VBelow(LowRest(key, y, c), GAMMA2 - BETA) && VBelow(Correction(key, c), GAMMA2)
  }

  // ------------------------------------------------------------------ arithmetic of residues

  /** z = x + c*y, where c has its own value at every index. */
  ghost predicate LinBy(z: Poly, x: Poly, y: Poly, c: Poly) {
    forall k :: 0 <= k < 256 ==> Cong(z[k], x[k] + c[k] * y[k])
  }

  lemma LinByAt(z: Poly, x: Poly, y: Poly, c: Poly, k: nat)
    requires LinBy(z, x, y, c) && k < 256
    ensures Cong(z[k], x[k] + c[k] * y[k])
  {
  }

  lemma ReductionCong(x: int)
    ensures Cong(Reduce32(x), x)
  {
    CongByWitness(Reduce32(x), x, -((x + 0x40_0000) / 0x80_0000));
  }

  lemma ReductionLin(p: Poly)
    ensures Lin(Map(Reduction, p), p, p, 0)
  {
    hide Cong, Reduce32;
    forall k | 0 <= k < 256
      ensures Cong(Map(Reduction, p)[k], p[k] + 0 * p[k])
    {
      ReductionCong(p[k]);
    }
  }

  /** A Montgomery product of c and x, multiplied by 2^32. */
  lemma MontBack(c: int, x: int, u: int)
    requires Cong(u, TWO32 * Mont(c * x))
    ensures Cong(u, c * x)
  {
    hide Cong, Mont;
    MontCong(c * x);
    CongTrans(u, Mont(c * x) * TWO32, c * x);
  }

  /** The response, transformed, is y + c*s1 at every index. */
  lemma ResponseHat(c: Poly, s: Poly, y: Poly)
    ensures var z := Map(Reduction, Zip(Plus, InvNttSpec(Zip(Product, NttSpec(c), NttSpec(s))), y));
      LinBy(NttSpec(z), NttSpec(y), NttSpec(s), NttSpec(c))
  {
    hide Cong, Mont, NttSpec, InvNttSpec, Reduce32;
    var ch, sh, yh := NttSpec(c), NttSpec(s), NttSpec(y);
    var p := Zip(Product, ch, sh);
    var u := InvNttSpec(p);
    var v := Zip(Plus, u, y);
    var z := Map(Reduction, v);
    forall k | 0 <= k < 256
      ensures Cong(z[k], y[k] + 1 * u[k])
    {
      ReductionCong(v[k]);
    }
    NttLinear(z, y, u, 1);
    NttOfInverse(p);
    forall k | 0 <= k < 256
      ensures Cong(NttSpec(z)[k], yh[k] + ch[k] * sh[k])
    {
      MontBack(ch[k], sh[k], NttSpec(u)[k]);
      CongRefl(yh[k]);
      CongAdd(yh[k], yh[k], NttSpec(u)[k], ch[k] * sh[k]);
      CongTrans(NttSpec(z)[k], yh[k] + 1 * NttSpec(u)[k], yh[k] + ch[k] * sh[k]);
    }
  }

  /** A row of the matrix keeps the relation. */
  lemma {:induction false} AccLinBy(a: Vec, z: Vec, x: Vec, y: Vec, c: Poly, n: nat)
    requires 0 < n <= |a| && n <= |z| == |x| == |y|
    requires forall j :: 0 <= j < n ==> LinBy(z[j], x[j], y[j], c)
    ensures LinBy(Acc(a, z, n), Acc(a, x, n), Acc(a, y, n), c)
  {
    hide Cong, Mont;
    var m := n - 1;
    if n > 1 {
      AccLinBy(a, z, x, y, c, m);
    }
    assert LinBy(z[m], x[m], y[m], c);
    forall k | 0 <= k < 256
      ensures Cong(Acc(a, z, n)[k], Acc(a, x, n)[k] + c[k] * Acc(a, y, n)[k])
    {
      MontLin(a[m][k], z[m][k], x[m][k], y[m][k], c[k]);
      if n > 1 {
        SumLinBy(Acc(a, z, m)[k], Acc(a, x, m)[k], Acc(a, y, m)[k], Mont(a[m][k] * z[m][k]),
                 Mont(a[m][k] * x[m][k]), Mont(a[m][k] * y[m][k]), c[k]);
      }
    }
  }

  lemma SumLinBy(z: int, x: int, y: int, z': int, x': int, y': int, c: int)
    requires Cong(z, x + c * y) && Cong(z', x' + c * y')
    ensures Cong(z + z', (x + x') + c * (y + y'))
  {
    CongAdd(z, x + c * y, z', x' + c * y');
    assert c * (y + y') == c * y + c * y';
  }

  // ------------------------------------------------------------------ one row of the verification equation

  /** The public key, transformed: t1*2^13 is 2^32*b + s2 - t0 at every index. */
  lemma PublicHat(b: Poly, s2: Poly, t: Poly, t0: Poly, high: Poly)
    requires forall k :: 0 <= k < 256 ==> Cong(t[k], s2[k] + 1 * InvNttSpec(Map(Reduction, b))[k])
    requires forall k :: 0 <= k < 256 ==> high[k] == t[k] - t0[k]
    ensures forall k :: 0 <= k < 256 ==>
      Cong(NttSpec(high)[k], NttSpec(s2)[k] + TWO32 * b[k] - NttSpec(t0)[k])
  {
    hide Cong, NttSpec, InvNttSpec, Reduce32;
    var r := Map(Reduction, b);
    var u := InvNttSpec(r);
    NttLinear(t, s2, u, 1);
    forall k | 0 <= k < 256
      ensures Cong(high[k], t[k] + (-1) * t0[k])
    {
      CongRefl(high[k]);
    }
    NttLinear(high, t, t0, -1);
    NttOfInverse(r);
    forall k | 0 <= k < 256
      ensures Cong(NttSpec(high)[k], NttSpec(s2)[k] + TWO32 * b[k] - NttSpec(t0)[k])
    {
      ReductionCong(b[k]);
      PublicPoint(NttSpec(high)[k], NttSpec(t)[k], NttSpec(t0)[k], NttSpec(s2)[k], NttSpec(u)[k], r[k], b[k]);
    }
  }

  lemma PublicPoint(h: int, t: int, t0: int, s: int, u: int, r: int, b: int)
    requires Cong(h, t + (-1) * t0) && Cong(t, s + 1 * u) && Cong(u, TWO32 * r) && Cong(r, b)
    ensures Cong(h, s + TWO32 * b - t0)
  {
    hide Cong;
    CongScale(r, b, TWO32);
    CongTrans(u, TWO32 * r, TWO32 * b);
    CongRefl(s);
    CongAdd(s, s, u, TWO32 * b);
    CongTrans(t, s + u, s + TWO32 * b);
    CongRefl(t0);
    CongAdd(t, s + TWO32 * b, t0, t0);
    CongTrans(h, t - t0, s + TWO32 * b - t0);
  }

  /** The product of the challenge with the public key, at one index. */
  lemma ChallengePoint(c: int, h: int, b: int, s: int, t0: int)
    requires Cong(h, s + TWO32 * b - t0)
    ensures Cong(Mont(c * h), c * b + Mont(c * s) - Mont(c * t0))
  {
    hide Cong, Mont;
    MontLin(c, h, s + TWO32 * b, t0, -1);
    CongRefl(s + TWO32 * b);
    MontLin(c, s + TWO32 * b, s, b, TWO32);
    MontBack(c, b, TWO32 * Mont(c * b)) by { CongRefl(TWO32 * Mont(c * b)); }
    var x, y, z := Mont(c * (s + TWO32 * b)), Mont(c * s), Mont(c * t0);
    CongRefl(y);
    CongAdd(y, y, TWO32 * Mont(c * b), c * b);
    CongTrans(x, y + TWO32 * Mont(c * b), y + c * b);
    CongRefl(z);
    CongAdd(x, y + c * b, z, z);
    CongTrans(Mont(c * h), x - z, c * b + y - z);
  }

  /** The difference that the verifier transforms back, at one index: a - c*s2 + c*t0. */
  lemma DifferencePoint(d: int, m: int, c: int, h: int, a: int, b: int, s: int, t0: int)
    requires Cong(d, m - Mont(c * h)) && Cong(m, a + c * b) && Cong(h, s + TWO32 * b - t0)
    ensures Cong(d, (a - Mont(c * s)) + 1 * Mont(c * t0))
  {
    hide Cong, Mont;
    ChallengePoint(c, h, b, s, t0);
    var p, cb, cs, ct := Mont(c * h), c * b, Mont(c * s), Mont(c * t0);
    CongAdd(m, a + cb, p, cb + cs - ct);
    CongTrans(d, m - p, a - cs + ct);
  }

  /** Transforming back: the reconstruction is w - c*s2 + c*t0. */
  lemma Back(d: Poly, a: Poly, s: Poly, t0: Poly)
    requires forall k :: 0 <= k < 256 ==> Cong(d[k], (a[k] - s[k]) + 1 * t0[k])
    ensures forall k :: 0 <= k < 256 ==>
      Cong(InvNttSpec(d)[k], InvNttSpec(Map(Reduction, a))[k] - InvNttSpec(s)[k] + InvNttSpec(t0)[k])
  {
    hide Cong, InvNttSpec, NttSpec, Reduce32;
    var e := Zip(Minus, a, s);
    NttLinear(d, e, t0, 1);
    forall k | 0 <= k < 256
      ensures Cong(e[k], a[k] + (-1) * s[k])
    {
      CongRefl(e[k]);
    }
    NttLinear(e, a, s, -1);
    ReductionLin(a);
    NttLinear(Map(Reduction, a), a, a, 0);
    forall k | 0 <= k < 256
      ensures Cong(InvNttSpec(d)[k], InvNttSpec(Map(Reduction, a))[k] - InvNttSpec(s)[k] + InvNttSpec(t0)[k])
    {
      BackPoint(InvNttSpec(d)[k], InvNttSpec(e)[k], InvNttSpec(a)[k], InvNttSpec(Map(Reduction, a))[k],
                InvNttSpec(s)[k], InvNttSpec(t0)[k]);
    }
  }

  lemma BackPoint(d: int, e: int, a: int, r: int, s: int, t0: int)
    requires Cong(d, e + 1 * t0) && Cong(e, a + (-1) * s) && Cong(r, a + 0 * a)
    ensures Cong(d, r - s + t0)
  {
    hide Cong;
    CongSym(r, a);
    CongRefl(s);
    CongAdd(a, r, s, s);
    CongTrans(e, a - s, r - s);
    CongRefl(t0);
    CongAdd(e, r - s, t0, t0);
    CongTrans(d, e + t0, r - s + t0);
  }

  // ------------------------------------------------------------------ ranges

  /** A transformed vector fits in words. */
  lemma NttRange(p: Poly, b: int)
    requires Bounded(p, b) && 0 <= b <= NTT_LIMIT
    ensures Bounded(NttSpec(p), b + 8 * Q)
  {
    hide Forward;
    ForwardRange(p, 8, b);
  }

  lemma VNttWord(v: Vec, b: int)
    requires VBounded(v, b) && 0 <= b <= NTT_LIMIT
    ensures Word(VNtt(v)) && VBounded(VNtt(v), b + 8 * Q)
  {
    hide NttSpec;
    forall i | 0 <= i < |v|
      ensures Bounded(VNtt(v)[i], b + 8 * Q)
    {
      NttRange(v[i], b);
    }
  }

  /** After a reduction the inverse transform ends within its bound. */
  lemma Settle(b: Poly)
    requires Bounded(b, 8 * Q)
    ensures Bounded(Map(Reduction, b), Q)
    ensures Bounded(InvNttSpec(Map(Reduction, b)), INV_BOUND)
  {
    hide InvNttSpec, Reduce32;
    forall k | 0 <= k < 256
      ensures -Q <= Reduce32(b[k]) <= Q
    {
      Reduce32Correct(b[k]);
    }
    InvNttRange(Map(Reduction, b));
  }

  /** c_addq makes residues canonical. */
  lemma AddQPoly(p: Poly)
    requires Bounded(p, Q - 1)
    ensures forall k :: 0 <= k < 256 ==> 0 <= Map(AddQ, p)[k] < Q && Cong(Map(AddQ, p)[k], p[k])
  {
    hide And, Cong;
    forall k | 0 <= k < 256
      ensures 0 <= AddQ.Apply(p[k]) < Q && Cong(AddQ.Apply(p[k]), p[k])
    {
      CAddQCorrect(p[k]);
    }
  }

  /** A product of transformed polynomials is below q. */
  lemma ProductRange(c: Poly, p: Poly)
    requires Bounded(c, 1 + 8 * Q) && Bounded(p, 9 * Q)
    ensures forall k :: 0 <= k < 256 ==> Product.Domain(c[k], p[k])
    ensures Bounded(Zip(Product, c, p), Q)
  {
    hide Mont;
    forall k | 0 <= k < 256
      ensures Product.Domain(c[k], p[k]) && -Q <= Product.Apply(c[k], p[k]) <= Q
    {
      MulBound(c[k], p[k], 1 + 8 * Q, 9 * Q);
      MontRange(c[k] * p[k]);
    }
  }

  // ------------------------------------------------------------------ the verification equation

  /** The equation for one row, on transformed operands. */
  lemma RowEquation(m: Poly, a: Poly, b: Poly, c: Poly, s2: Poly, t: Poly, t0: Poly, high: Poly)
    requires LinBy(m, a, b, c)
    requires forall k :: 0 <= k < 256 ==> Cong(t[k], s2[k] + 1 * InvNttSpec(Map(Reduction, b))[k])
    requires forall k :: 0 <= k < 256 ==> high[k] == t[k] - t0[k]
    ensures var d := Map(Reduction, Zip(Minus, m, Zip(Product, c, NttSpec(high))));
      forall k :: 0 <= k < 256 ==>
        Cong(InvNttSpec(d)[k], InvNttSpec(Map(Reduction, a))[k]
          - InvNttSpec(Zip(Product, c, NttSpec(s2)))[k] + InvNttSpec(Zip(Product, c, NttSpec(t0)))[k])
  {
    hide Cong, Mont, NttSpec, InvNttSpec, Reduce32, LinBy;
    var h := NttSpec(high);
    var d := Map(Reduction, Zip(Minus, m, Zip(Product, c, h)));
    var ps, p0 := Zip(Product, c, NttSpec(s2)), Zip(Product, c, NttSpec(t0));
    PublicHat(b, s2, t, t0, high);
    forall k | 0 <= k < 256
      ensures Cong(d[k], (a[k] - ps[k]) + 1 * p0[k])
    {
      ReductionCong(m[k] - Mont(c[k] * h[k]));
      LinByAt(m, a, b, c, k);
      DifferencePoint(d[k], m[k], c[k], h[k], a[k], b[k], NttSpec(s2)[k], NttSpec(t0)[k]);
    }
    Back(d, a, ps, p0);
  }

  /** A row of the matrix times a transformed vector is below 7q. */
  lemma RowRange(key: Key, v: Vec, b: int, i: nat)
    requires InRange(key) && |v| == L && VBounded(v, b) && 0 <= b <= NTT_LIMIT && i < K
    ensures Bounded(Acc(key.a[i], VNtt(v), L), 7 * Q)
    ensures Bounded(InvNttSpec(Map(Reduction, Acc(key.a[i], VNtt(v), L))), INV_BOUND)
  {
    hide NttSpec, InvNttSpec, Acc, Reduce32;
    VNttWord(v, b);
    AccRange(key.a[i], VNtt(v), L);
    Settle(Acc(key.a[i], VNtt(v), L));
  }

  /** t is canonical, and its residue is A*s1 + s2. */
  lemma PublicRow(key: Key, i: nat)
    requires InRange(key) && i < K
    ensures var t, u := T(key)[i], InvNttSpec(Map(Reduction, Acc(key.a[i], VNtt(key.s1), L)));
      forall k :: 0 <= k < 256 ==> 0 <= t[k] < Q && Cong(t[k], key.s2[i][k] + 1 * u[k])
  {
    hide NttSpec, InvNttSpec, Acc, Reduce32, Cong;
    var u := InvNttSpec(Map(Reduction, Acc(key.a[i], VNtt(key.s1), L)));
    var p := Zip(Plus, u, key.s2[i]);
    RowRange(key, key.s1, 2, i);
    assert Bounded(key.s2[i], 2);
    AddQPoly(p);
    assert T(key)[i] == Map(AddQ, p);
  }

  /** Both halves of t, and what the verifier makes of the high one. */
  lemma HalvesRow(key: Key, i: nat)
    requires InRange(key) && i < K
    ensures Bounded(T0(key)[i], 0x1000)
    ensures forall k :: 0 <= k < 256 ==> 0 <= T1(key)[i][k] < 1024
    ensures forall k :: 0 <= k < 256 ==> Map(ShiftLeft, T1(key)[i])[k] == T(key)[i][k] - T0(key)[i][k]
  {
    hide NttSpec, InvNttSpec, Acc, T, Cong;
    PublicRow(key, i);
    forall k | 0 <= k < 256
      ensures -0x1000 <= T0(key)[i][k] <= 0x1000 && 0 <= T1(key)[i][k] < 1024
      ensures Map(ShiftLeft, T1(key)[i])[k] == T(key)[i][k] - T0(key)[i][k]
    {
      Power2RoundCorrect(T(key)[i][k]);
    }
  }

  /** w is canonical and has the residue that the inverse transform returned. */
  lemma CommitmentRow(key: Key, y: Vec, b: int, i: nat)
    requires InRange(key) && |y| == L && VBounded(y, b) && 0 <= b <= NTT_LIMIT && i < K
    ensures var w, u := Commitment(key, y)[i], InvNttSpec(Map(Reduction, Acc(key.a[i], VNtt(y), L)));
      forall k :: 0 <= k < 256 ==> 0 <= w[k] < Q && Cong(w[k], u[k])
  {
    hide NttSpec, InvNttSpec, Acc, Reduce32, Cong;
    var u := InvNttSpec(Map(Reduction, Acc(key.a[i], VNtt(y), L)));
    RowRange(key, y, b, i);
    AddQPoly(u);
    assert Commitment(key, y)[i] == Map(AddQ, u);
  }

  /** A transformed challenge times a transformed vector. */
  lemma ByChallengeRange(c: Poly, v: Vec, b: int)
    requires Bounded(c, 1) && VBounded(v, b) && 0 <= b <= Q
    ensures VBounded(VBy(NttSpec(c), VNtt(v)), Q) && VBounded(ByChallenge(c, v), INV_BOUND)
    ensures forall i, k :: 0 <= i < |v| && 0 <= k < 256 ==> Product.Domain(NttSpec(c)[k], VNtt(v)[i][k])
  {
    hide NttSpec, InvNttSpec, Mont;
    NttRange(c, 1);
    VNttWord(v, b);
    forall i | 0 <= i < |v|
      ensures Bounded(VBy(NttSpec(c), VNtt(v))[i], Q) && Bounded(ByChallenge(c, v)[i], INV_BOUND)
      ensures forall k :: 0 <= k < 256 ==> Product.Domain(NttSpec(c)[k], VNtt(v)[i][k])
    {
      assert Bounded(VNtt(v)[i], b + 8 * Q);
      ProductRange(NttSpec(c), VNtt(v)[i]);
      InvNttRange(VBy(NttSpec(c), VNtt(v))[i]);
    }
  }

  /** The response stays within words, and reduced. */
  lemma ResponseRange(key: Key, y: Vec, c: Poly)
    requires InRange(key) && |y| == L && VBounded(y, GAMMA1) && Bounded(c, 1)
    ensures VBounded(Response(key, y, c), Q)
  {
    hide NttSpec, InvNttSpec, Reduce32, ByChallenge;
    ByChallengeRange(c, key.s1, 2);
    forall i | 0 <= i < L
      ensures Bounded(Response(key, y, c)[i], Q)
    {
      var u, v := ByChallenge(c, key.s1)[i], y[i];
      assert Bounded(u, INV_BOUND) && Bounded(v, GAMMA1);
      forall k | 0 <= k < 256
        ensures -Q <= Reduce32(u[k] + v[k]) <= Q
      {
        Reduce32Correct(u[k] + v[k]);
      }
    }
  }

  /**
    The verification equation: A*z - c*t1*2^13 is w - c*s2 + c*t0 modulo q, and the verifier's value is
    the canonical residue.
   */
  lemma VerificationEquation(key: Key, y: Vec, c: Poly, i: nat)
    requires InRange(key) && |y| == L && VBounded(y, GAMMA1) && Bounded(c, 1) && i < K
    ensures var v := Reconstruction(key, Response(key, y, c), c)[i];
      && (forall k :: 0 <= k < 256 ==> 0 <= v[k] < Q)
      && forall k :: 0 <= k < 256 ==>
        Cong(v[k], Commitment(key, y)[i][k] - ByChallenge(c, key.s2)[i][k] + ByChallenge(c, T0(key))[i][k])
  {
    hide Cong, Mont, NttSpec, InvNttSpec, Reduce32, Acc, LinBy, And, T, T0, T1, Commitment;
    var z, ch := Response(key, y, c), NttSpec(c);
    var zh, yh, sh := VNtt(z), VNtt(y), VNtt(key.s1);
    forall j | 0 <= j < L
      ensures LinBy(zh[j], yh[j], sh[j], ch)
    {
      ResponseHat(c, key.s1[j], y[j]);
    }
    AccLinBy(key.a[i], zh, yh, sh, ch, L);
    var m, a, b := Acc(key.a[i], zh, L), Acc(key.a[i], yh, L), Acc(key.a[i], sh, L);
    var t0, high := T0(key)[i], Map(ShiftLeft, T1(key)[i]);
    PublicRow(key, i);
    HalvesRow(key, i);
    RowEquation(m, a, b, ch, key.s2[i], T(key)[i], t0, high);
    var d := Zip(Minus, m, Zip(Product, ch, NttSpec(high)));
    ResponseRange(key, y, c);
    DifferenceRange(key, z, c, i);
    var u := InvNttSpec(Map(Reduction, d));
    assert Reconstruction(key, z, c)[i] == Map(AddQ, u);
    AddQPoly(u);
    CommitmentRow(key, y, GAMMA1, i);
    forall k | 0 <= k < 256
      ensures Cong(Map(AddQ, u)[k],
        Commitment(key, y)[i][k] - ByChallenge(c, key.s2)[i][k] + ByChallenge(c, T0(key))[i][k])
    {
      EquationPoint(Map(AddQ, u)[k], u[k], Commitment(key, y)[i][k], InvNttSpec(Map(Reduction, a))[k],
                    ByChallenge(c, key.s2)[i][k], ByChallenge(c, T0(key))[i][k]);
    }
  }

  lemma EquationPoint(v: int, u: int, w: int, x: int, s: int, t: int)
    requires Cong(v, u) && Cong(w, x) && Cong(u, x - s + t)
    ensures Cong(v, w - s + t)
  {
    hide Cong;
    CongSym(w, x);
    CongRefl(t - s);
    CongAdd(x, w, t - s, t - s);
    CongTrans(v, u, x - s + t);
    CongTrans(v, x - s + t, w - s + t);
  }

  /** What the verifier subtracts and reduces stays below 8q. */
  lemma DifferenceRange(key: Key, z: Vec, c: Poly, i: nat)
    requires InRange(key) && |z| == L && VBounded(z, Q) && Bounded(c, 1) && i < K
    ensures var p := Zip(Product, NttSpec(c), NttSpec(Map(ShiftLeft, T1(key)[i])));
      var d := Zip(Minus, Acc(key.a[i], VNtt(z), L), p);
      Bounded(p, Q) && Bounded(d, 8 * Q) && Bounded(InvNttSpec(Map(Reduction, d)), INV_BOUND)
  {
    hide Mont, NttSpec, InvNttSpec, Reduce32, Acc, T1;
    HalvesRow(key, i);
    var high := Map(ShiftLeft, T1(key)[i]);
    var p := Zip(Product, NttSpec(c), NttSpec(high));
    assert Bounded(high, 8380416);
    NttRange(high, 8380416);
    NttRange(c, 1);
    ProductRange(NttSpec(c), NttSpec(high));
    RowRange(key, z, Q, i);
    Settle(Zip(Minus, Acc(key.a[i], VNtt(z), L), p));
  }

  /**
    Recovery of the high parts.  When the two checks of the signing loop pass, the verifier computes
    from the response and the hints exactly the high parts that the signer hashed.
   */
  lemma HighPartsRecovered(key: Key, y: Vec, c: Poly)
    requires InRange(key) && |y| == L && VBounded(y, GAMMA1) && Bounded(c, 1) && LowBitsKept(key, y, c)
    ensures Recovered(key, Response(key, y, c), c, Hints(key, y, c)) == W1(key, y)
  {
    hide Recovered, Response, Hints, W1, LowBitsKept;
    var r := Recovered(key, Response(key, y, c), c, Hints(key, y, c));
    forall i | 0 <= i < K
      ensures r[i] == W1(key, y)[i]
    {
      forall k | 0 <= k < 256
        ensures r[i][k] == W1(key, y)[i][k]
      {
        RecoveredAt(key, y, c, i, k);
      }
    }
  }

  lemma RecoveredAt(key: Key, y: Vec, c: Poly, i: nat, k: nat)
    requires InRange(key) && |y| == L && VBounded(y, GAMMA1) && Bounded(c, 1) && LowBitsKept(key, y, c)
    requires i < K && k < 256
    ensures Recovered(key, Response(key, y, c), c, Hints(key, y, c))[i][k] == W1(key, y)[i][k]
  {
    hide Reconstruction, Commitment, ByChallenge, T0, Response, Decompose, MakeHint, UseHint, Reduce32, Cong;
    hide Hints, LowRest, Correction, Recovered, W1, LowBitsKept, VBounded, InvNttSpec, NttSpec, Acc, VNtt;
    VerificationEquation(key, y, c, i);
    CommitmentRow(key, y, GAMMA1, i);
    ChecksAt(key, y, c, i, k);
    HintAt(key, y, c, i, k);
    RecoveredIs(key, Response(key, y, c), c, Hints(key, y, c), i, k);
    RecoveryPoint(Reconstruction(key, Response(key, y, c), c)[i][k], Commitment(key, y)[i][k],
                  ByChallenge(c, key.s2)[i][k], ByChallenge(c, T0(key))[i][k]);
  }

  lemma ChecksAt(key: Key, y: Vec, c: Poly, i: nat, k: nat)
    requires ValidKey(key) && |y| == L && LowBitsKept(key, y, c) && i < K && k < 256
    ensures -(GAMMA2 - BETA) < LowRest(key, y, c)[i][k] < GAMMA2 - BETA
    ensures -GAMMA2 < Correction(key, c)[i][k] < GAMMA2
  {
    hide LowRest, Correction;
    assert Below(LowRest(key, y, c)[i], GAMMA2 - BETA) && Below(Correction(key, c)[i], GAMMA2);
  }

  lemma RecoveredIs(key: Key, z: Vec, c: Poly, h: Vec, i: nat, k: nat)
    requires ValidKey(key) && |z| == L && |h| == K && i < K && k < 256
    ensures Recovered(key, z, c, h)[i][k] == UseHint(Reconstruction(key, z, c)[i][k], h[i][k])
  {
    hide Reconstruction, UseHint;
  }

  /** The values at one index, from the definitions. */
  lemma HintAt(key: Key, y: Vec, c: Poly, i: nat, k: nat)
    requires ValidKey(key) && |y| == L && i < K && k < 256
    ensures var (w1, w0) := Decompose(Commitment(key, y)[i][k]);
      && LowRest(key, y, c)[i][k] == Reduce32(w0 - ByChallenge(c, key.s2)[i][k])
      && Correction(key, c)[i][k] == Reduce32(ByChallenge(c, T0(key))[i][k])
      && Hints(key, y, c)[i][k] == MakeHint(LowRest(key, y, c)[i][k] + Correction(key, c)[i][k], w1)
      && W1(key, y)[i][k] == w1
  {
    hide Commitment, ByChallenge, T0, Decompose, MakeHint, Reduce32;
  }

  /** Recovery at one index. */
  lemma RecoveryPoint(v: int, w: int, s: int, t: int)
    requires 0 <= v < Q && 0 <= w < Q && Cong(v, w - s + t)
    requires var (w1, w0) := Decompose(w);
      -(GAMMA2 - BETA) < Reduce32(w0 - s) < GAMMA2 - BETA && -GAMMA2 < Reduce32(t) < GAMMA2
    ensures var (w1, w0) := Decompose(w); UseHint(v, MakeHint(Reduce32(w0 - s) + Reduce32(t), w1)) == w1
  {
    hide Decompose, MakeHint, UseHint, Reduce32, Cong;
    var (w1, w0) := Decompose(w);
    var r, x := Reduce32(w0 - s), Reduce32(t);
    DecomposeCorrect(w);
    var g := w1 * 2 * GAMMA2;
    Displaced(w, s, t);
    CongSym(v, w - s + t);
    CongTrans(g + (r + x), w - s + t, v);
    ResidueIs(g + (r + x), v);
    HintRecovery(r + x, w1);
  }

  /** The high part with the two reduced displacements is w - s + t. */
  lemma Displaced(w: int, s: int, t: int)
    requires 0 <= w < Q
    ensures var (w1, w0) := Decompose(w);
      Cong(w1 * 2 * GAMMA2 + (Reduce32(w0 - s) + Reduce32(t)), w - s + t)
  {
    hide Decompose, Reduce32, Cong;
    var (w1, w0) := Decompose(w);
    var r, x := Reduce32(w0 - s), Reduce32(t);
    DecomposeCorrect(w);
    var g := w1 * 2 * GAMMA2;
    ReductionCong(w0 - s);
    ReductionCong(t);
    CongAdd(r, w0 - s, x, t);
    CongRefl(g);
    CongAdd(g, g, r + x, w0 - s + t);
    CongRefl(t - s);
    CongAdd(g + w0, w, t - s, t - s);
    CongTrans(g + (r + x), g + w0 - s + t, w - s + t);
  }

  lemma ResidueIs(x: int, v: int)
    requires Cong(x, v) && 0 <= v < Q
    ensures x % Q == v
  {
  }

  // ------------------------------------------------------------------ meaning in the polynomial ring

  /** A product with the challenge is the product modulo X^256 + 1, coefficientwise modulo q. */
  lemma ByChallengeMeaning(c: Poly, v: Vec, j: nat)
    requires j < |v|
    ensures CongSeq(ByChallenge(c, v)[j], Multiplication.Product(c, v[j]))
  {
    hide NttSpec, InvNttSpec, Multiplication.Product, Mont, Cong;
    assert Zip(Product, NttSpec(c), NttSpec(v[j])) == Multiplication.PointwiseMont(NttSpec(c), NttSpec(v[j]));
    Multiplication.MultiplicationTheorem(c, v[j]);
  }

  /** The response of section 6.2 of FIPS 204: z = y + c * s1. */
  lemma ResponseMeaning(key: Key, y: Vec, c: Poly, j: nat)
    requires ValidKey(key) && |y| == L && j < L
    ensures forall k :: 0 <= k < 256 ==>
      Cong(Response(key, y, c)[j][k], y[j][k] + Multiplication.Product(c, key.s1[j])[k])
  {
    hide ByChallenge, Multiplication.Product, Cong, Reduce32;
    ByChallengeMeaning(c, key.s1, j);
    var u, p := ByChallenge(c, key.s1)[j], Multiplication.Product(c, key.s1[j]);
    forall k | 0 <= k < 256
      ensures Cong(Response(key, y, c)[j][k], y[j][k] + p[k])
    {
      ReductionCong(u[k] + y[j][k]);
      CongRefl(y[j][k]);
      CongAdd(u[k], p[k], y[j][k], y[j][k]);
      CongTrans(Reduce32(u[k] + y[j][k]), u[k] + y[j][k], p[k] + y[j][k]);
    }
  }

  /** The first n terms of a row of polynomials times a vector, modulo X^256 + 1. */
  ghost function RingSum(a: Vec, v: Vec, n: nat): Poly
    requires n <= |a| && n <= |v|
  {
    if n == 0 then seq(256, _ => 0)
    else
      var p: Poly := Multiplication.Product(a[n - 1], v[n - 1]);
      Zip(Plus, RingSum(a, v, n - 1), p)
  }

  lemma RingStep(a: Vec, v: Vec, n: nat, k: nat)
    requires n < |a| && n < |v| && k < 256
    ensures RingSum(a, v, 0)[k] == 0
    ensures RingSum(a, v, n + 1)[k] == RingSum(a, v, n)[k] + Multiplication.Product(a[n], v[n])[k]
  {
    hide Multiplication.Product;
  }

  /** A row times a vector has seven terms. */
  lemma SevenTerms(a: Vec, v: Vec, k: nat)
    requires |a| == |v| == 7 && k < 256
    ensures RingSum(a, v, 7)[k] ==
      Multiplication.Product(a[0], v[0])[k] + Multiplication.Product(a[1], v[1])[k]
      + Multiplication.Product(a[2], v[2])[k]
      + Multiplication.Product(a[3], v[3])[k] + Multiplication.Product(a[4], v[4])[k]
      + Multiplication.Product(a[5], v[5])[k] + Multiplication.Product(a[6], v[6])[k]
  {
    hide Multiplication.Product, RingSum;
    RingStep(a, v, 0, k);
    RingStep(a, v, 1, k);
    RingStep(a, v, 2, k);
    RingStep(a, v, 3, k);
    RingStep(a, v, 4, k);
    RingStep(a, v, 5, k);
    RingStep(a, v, 6, k);
  }

  /** hat holds the transforms of the polynomials a, up to multiples of q. */
  ghost predicate TransformsOf(hat: Vec, a: Vec) {
    |hat| == |a| && forall j :: 0 <= j < |a| ==> CongSeq(hat[j], NttSpec(a[j]))
  }

  /** One term of a row: the pointwise product transforms back to the product of the polynomials. */
  lemma TermMeaning(hat: Poly, a: Poly, v: Poly)
    requires CongSeq(hat, NttSpec(a))
    ensures CongSeq(InvNttSpec(Zip(Product, hat, NttSpec(v))), Multiplication.Product(a, v))
  {
    hide NttSpec, InvNttSpec, Multiplication.Product, Mont, Cong;
    var ah, vh := NttSpec(a), NttSpec(v);
    var z, x := Zip(Product, hat, vh), Multiplication.PointwiseMont(ah, vh);
    forall k | 0 <= k < 256
      ensures Cong(z[k], x[k] + 0 * x[k])
    {
      CongRefl(0);
      assert Cong(hat[k], ah[k] + 0 * ah[k]);
      MontLin(vh[k], hat[k], ah[k], ah[k], 0);
      assert vh[k] * hat[k] == hat[k] * vh[k] && vh[k] * ah[k] == ah[k] * vh[k];
    }
    NttLinear(z, x, x, 0);
    Multiplication.MultiplicationTheorem(a, v);
    var p := Multiplication.Product(a, v);
    forall k | 0 <= k < 256
      ensures Cong(InvNttSpec(z)[k], p[k])
    {
      CongTrans(InvNttSpec(z)[k], InvNttSpec(x)[k], p[k]);
    }
  }

  /** A row of the low-RAM matrix product is a row of the product in the polynomial ring. */
  lemma {:induction false} RowMeaning(hat: Vec, a: Vec, v: Vec, n: nat)
    requires TransformsOf(hat, a) && 0 < n <= |a| && n <= |v|
    ensures CongSeq(InvNttSpec(Acc(hat, VNtt(v), n)), RingSum(a, v, n))
  {
    hide NttSpec, InvNttSpec, Multiplication.Product, Mont, Cong;
    var m := n - 1;
    TermMeaning(hat[m], a[m], v[m]);
    var z := Zip(Product, hat[m], NttSpec(v[m]));
    if m > 0 {
      RowMeaning(hat, a, v, m);
      var x, y := Acc(hat, VNtt(v), n), Acc(hat, VNtt(v), m);
      forall k | 0 <= k < 256
        ensures Cong(x[k], y[k] + 1 * z[k])
      {
        CongRefl(x[k]);
      }
      NttLinear(x, y, z, 1);
      forall k | 0 <= k < 256
        ensures Cong(InvNttSpec(x)[k], RingSum(a, v, n)[k])
      {
        SumMeaning(InvNttSpec(x)[k], InvNttSpec(y)[k], InvNttSpec(z)[k], RingSum(a, v, m)[k],
                   Multiplication.Product(a[m], v[m])[k]);
      }
    }
  }

  lemma SumMeaning(x: int, y: int, z: int, s: int, p: int)
    requires Cong(x, y + 1 * z) && Cong(y, s) && Cong(z, p)
    ensures Cong(x, s + p)
  {
    hide Cong;
    CongAdd(y, s, z, p);
    CongTrans(x, y + z, s + p);
  }

  /** The polynomial whose transform a matrix entry is. */
  ghost function RingOf(hat: Poly): Poly {
    seq(256, i requires 0 <= i < 256 => RINV * InvNttSpec(hat)[i])
  }

  /** A row of the matrix as the standard defines it, in the polynomial ring. */
  ghost function RingRow(hat: Vec): (a: Vec)
    ensures |a| == |hat|
  {
    seq<Poly>(|hat|, j requires 0 <= j < |hat| => RingOf(hat[j]))
  }

  lemma RingOfTransform(hat: Poly)
    ensures CongSeq(hat, NttSpec(RingOf(hat)))
  {
    hide NttSpec, InvNttSpec, Cong, Times, Lin;
    var x, a := InvNttSpec(hat), RingOf(hat);
    ScaledBy(a, x);
    TimesAsLin(a, x, RINV);
    NttLinear(a, x, x, RINV - 1);
    TimesAsLin(NttSpec(a), NttSpec(x), RINV);
    NttOfInverse(hat);
    TimesTrans(NttSpec(a), NttSpec(x), hat, RINV, TWO32);
    UnitFactor();
    TimesCong(NttSpec(a), hat, RINV * TWO32, 1);
    TimesOne(NttSpec(a), hat);
  }

  lemma ScaledBy(a: Poly, x: Poly)
    requires forall i :: 0 <= i < 256 ==> a[i] == RINV * x[i]
    ensures Times(a, x, RINV)
  {
    hide Cong;
    forall i | 0 <= i < 256
      ensures Cong(a[i], RINV * x[i])
    {
      CongRefl(a[i]);
    }
  }

  lemma TimesOne(z: seq<int>, y: seq<int>)
    requires Times(z, y, 1)
    ensures CongSeq(y, z)
  {
    hide Cong;
    forall i | 0 <= i < |z|
      ensures Cong(y[i], z[i])
    {
      CongSym(z[i], y[i]);
    }
  }

  lemma RowTransforms(hat: Vec)
    ensures TransformsOf(hat, RingRow(hat))
  {
    hide NttSpec, RingOf, CongSeq;
    forall j | 0 <= j < |hat|
      ensures CongSeq(hat[j], NttSpec(RingRow(hat)[j]))
    {
      RingOfTransform(hat[j]);
    }
  }

  /** What the inverse transform makes of a reduced row of the matrix product. */
  lemma RowBack(hat: Vec, v: Vec)
    requires |hat| == |v| == L
    ensures CongSeq(InvNttSpec(Map(Reduction, Acc(hat, VNtt(v), L))), RingSum(RingRow(hat), v, L))
  {
    hide NttSpec, InvNttSpec, RingSum, RingRow, Acc, Cong, Reduce32, TransformsOf;
    RowTransforms(hat);
    RowMeaning(hat, RingRow(hat), v, L);
    var b := Acc(hat, VNtt(v), L);
    var u, s := InvNttSpec(Map(Reduction, b)), RingSum(RingRow(hat), v, L);
    ReductionLin(b);
    NttLinear(Map(Reduction, b), b, b, 0);
    forall k | 0 <= k < 256
      ensures Cong(u[k], s[k])
    {
      CongTrans(u[k], InvNttSpec(b)[k], s[k]);
    }
  }

  /** The public vector of section 6.1 of FIPS 204: t = A * s1 + s2, in the polynomial ring. */
  lemma PublicMeaning(key: Key, i: nat)
    requires InRange(key) && i < K
    ensures forall k :: 0 <= k < 256 ==>
      T(key)[i][k] == (RingSum(RingRow(key.a[i]), key.s1, L)[k] + key.s2[i][k]) % 8380417
  {
    hide NttSpec, InvNttSpec, RingSum, RingRow, Acc, T, Cong, Reduce32;
    RowBack(key.a[i], key.s1);
    PublicRow(key, i);
    var u, s := InvNttSpec(Map(Reduction, Acc(key.a[i], VNtt(key.s1), L))), RingSum(RingRow(key.a[i]), key.s1, L);
    forall k | 0 <= k < 256
      ensures T(key)[i][k] == (s[k] + key.s2[i][k]) % 8380417
    {
      SumMeaning(T(key)[i][k], key.s2[i][k], u[k], key.s2[i][k], s[k]) by { CongRefl(key.s2[i][k]); }
      Residue(T(key)[i][k], s[k] + key.s2[i][k]);
    }
  }

  lemma Residue(v: int, x: int)
    requires 0 <= v < Q && Cong(v, x)
    ensures v == x % 8380417
  {
  }

  /** The commitment of section 6.2 of FIPS 204: w = A * y. */
  lemma CommitmentMeaning(key: Key, y: Vec, i: nat)
    requires InRange(key) && |y| == L && VBounded(y, GAMMA1) && i < K
    ensures forall k :: 0 <= k < 256 ==>
      Commitment(key, y)[i][k] == RingSum(RingRow(key.a[i]), y, L)[k] % 8380417
  {
    hide NttSpec, InvNttSpec, RingSum, RingRow, Acc, Commitment, Cong, Reduce32;
    RowBack(key.a[i], y);
    CommitmentRow(key, y, GAMMA1, i);
    var w, u := Commitment(key, y)[i], InvNttSpec(Map(Reduction, Acc(key.a[i], VNtt(y), L)));
    var s := RingSum(RingRow(key.a[i]), y, L);
    forall k | 0 <= k < 256
      ensures w[k] == s[k] % 8380417
    {
      CongTrans(w[k], u[k], s[k]);
      Residue(w[k], s[k]);
    }
  }

  /**
    What the verifier computes from any response and challenge: A*z - c*t1*2^13, in the polynomial ring,
    as a canonical residue.
   */
  lemma ReconstructionMeaning(key: Key, z: Vec, c: Poly, i: nat)
    requires InRange(key) && |z| == L && VBounded(z, Q) && Bounded(c, 1) && i < K
    ensures var v, p := Reconstruction(key, z, c)[i], Multiplication.Product(c, Map(ShiftLeft, T1(key)[i]));
      forall k :: 0 <= k < 256 ==> v[k] == (RingSum(RingRow(key.a[i]), z, L)[k] - p[k]) % 8380417
  {
    hide NttSpec, InvNttSpec, RingSum, RingRow, Acc, T1, Cong, Reduce32, TransformsOf, Mont, Multiplication.Product;
    hide Reconstruction, VNtt, And, Multiplication.PointwiseMont;
    var high := Map(ShiftLeft, T1(key)[i]);
    var m, y := Acc(key.a[i], VNtt(z), L), Zip(Product, NttSpec(c), NttSpec(high));
    var d := Zip(Minus, m, y);
    var u := InvNttSpec(Map(Reduction, d));
    DifferenceRange(key, z, c, i);
    ReconstructionRow(key, z, c, i);
    AddQPoly(u);
    RowTransforms(key.a[i]);
    RowMeaning(key.a[i], RingRow(key.a[i]), z, L);
    SameProduct(NttSpec(c), NttSpec(high));
    Multiplication.MultiplicationTheorem(c, high);
    DifferenceBack(d, m, y);
    var s, p := RingSum(RingRow(key.a[i]), z, L), Multiplication.Product(c, high);
    forall k | 0 <= k < 256
      ensures Map(AddQ, u)[k] == (s[k] - p[k]) % 8380417
    {
      CongAdd(InvNttSpec(m)[k], s[k], InvNttSpec(y)[k], p[k]);
      CongTrans(u[k], InvNttSpec(m)[k] - InvNttSpec(y)[k], s[k] - p[k]);
      CongTrans(Map(AddQ, u)[k], u[k], s[k] - p[k]);
      Residue(Map(AddQ, u)[k], s[k] - p[k]);
    }
  }

  lemma ReconstructionRow(key: Key, z: Vec, c: Poly, i: nat)
    requires ValidKey(key) && |z| == L && i < K
    ensures var p := Zip(Product, NttSpec(c), NttSpec(Map(ShiftLeft, T1(key)[i])));
      var d := Zip(Minus, Acc(key.a[i], VNtt(z), L), p);
      Reconstruction(key, z, c)[i] == Map(AddQ, InvNttSpec(Map(Reduction, d)))
  {
    hide NttSpec, InvNttSpec, Acc, T1;
  }

  lemma SameProduct(p: Poly, r: Poly)
    ensures Zip(Product, p, r) == Multiplication.PointwiseMont(p, r)
  {
    hide Mont;
  }

  /** Transforming a reduced difference back. */
  lemma DifferenceBack(d: Poly, m: Poly, y: Poly)
    requires d == Zip(Minus, m, y)
    ensures forall k :: 0 <= k < 256 ==>
      Cong(InvNttSpec(Map(Reduction, d))[k], InvNttSpec(m)[k] - InvNttSpec(y)[k])
  {
    hide NttSpec, InvNttSpec, Cong, Reduce32;
    var r := Map(Reduction, d);
    forall k | 0 <= k < 256
      ensures Cong(r[k], m[k] + (-1) * y[k])
    {
      ReductionCong(d[k]);
    }
    NttLinear(r, m, y, -1);
  }
}
