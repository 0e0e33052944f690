/**
  The multiplication theorem: ntt evaluates a polynomial at the 256 odd powers of the root of unity,
  and transforming, multiplying pointwise and transforming back multiplies in Z_q[X]/(X^256 + 1).
 */
module Multiplication {
  import opened Words
  import opened Modular
  import opened Powers
  import opened Reduce
  import opened ZetaTable
  import opened Zetas
  import opened Transform
  import opened TransformTheory

  /** The value of the polynomial p[0] + p[1]*X + ... at r. */
  ghost function Eval(p: seq<int>, r: int): int {
    if p == [] then 0 else p[0] + r * Eval(p[1..], r)
  }

  /** The first m terms of coefficient k of the product modulo X^n + 1, where n = |b|. */
  ghost function ProductTerms(a: seq<int>, b: seq<int>, k: nat, m: nat): int
    requires m <= |a| == |b| && k < |b|
  {
    if m == 0 then 0
    else
      ProductTerms(a, b, k, m - 1) + a[m - 1] * (if m - 1 <= k then b[k - (m - 1)] else -b[|b| + k - (m - 1)])
  }

  /** The product of two polynomials modulo X^n + 1, by the schoolbook formula. */
  ghost function Product(a: seq<int>, b: seq<int>): (r: seq<int>)
    requires |a| == |b|
    ensures |r| == |b|
  {
    seq(|b|, k requires 0 <= k < |b| => ProductTerms(a, b, k, |a|))
  }

  /** poly_pointwise_montgomery. */
  function PointwiseMont(a: seq<int>, b: seq<int>): (r: seq<int>)
    requires |a| == |b|
    ensures |r| == |b|
  {
    seq(|b|, i requires 0 <= i < |b| => Mont(a[i] * b[i]))
  }

  // ------------------------------------------------------------------ evaluation

  lemma {:induction false} EvalConcat(u: seq<int>, v: seq<int>, r: int)
    ensures Eval(u + v, r) == Eval(u, r) + Pow(r, |u|) * Eval(v, r)
  {
    if u == [] {
      assert u + v == v;
    } else {
      hide Pow;
      EvalConcat(u[1..], v, r);
      assert (u + v)[1..] == u[1..] + v;
      var p, e := Pow(r, |u| - 1), Eval(v, r);
      PowStep(r, |u| - 1);
      HornerStep(r, p, e, Eval(u[1..], r));
    }
  }

  lemma HornerStep(r: int, p: int, e: int, f: int)
    ensures r * (f + p * e) == r * f + (r * p) * e
  {
    MulAssoc(r, p, e);
  }

  lemma {:induction false} EvalLin(z: seq<int>, x: seq<int>, y: seq<int>, m: int, r: int)
    requires Lin(z, x, y, m)
    ensures Cong(Eval(z, r), Eval(x, r) + m * Eval(y, r))
  {
    hide Cong;
    if z == [] {
      CongRefl(0);
    } else {
      EvalLin(z[1..], x[1..], y[1..], m, r);
      HornerLin(z[0], x[0], y[0], Eval(z[1..], r), Eval(x[1..], r), Eval(y[1..], r), m, r);
    }
  }

  lemma HornerLin(z: int, x: int, y: int, e: int, f: int, g: int, m: int, r: int)
    requires Cong(z, x + m * y) && Cong(e, f + m * g)
    ensures Cong(z + r * e, (x + r * f) + m * (y + r * g))
  {
    hide Cong;
    CongScale(e, f + m * g, r);
    assert e * r == r * e && (f + m * g) * r == r * f + m * (r * g);
    CongAdd(z, x + m * y, r * e, r * f + m * (r * g));
    assert m * (y + r * g) == m * y + m * (r * g);
  }

  // ------------------------------------------------------------------ what the layers compute

  /** X^w is this residue on block j of the state after l layers, whose blocks have width w = 2^(8-l). */
  ghost function Rho(l: nat, j: nat): int {
    if l == 0 then -1
    else if j % 2 == 0 then W(Pow2(l - 1) + j / 2) else -W(Pow2(l - 1) + j / 2)
  }

  lemma RhoSquare(l: nat, j: nat)
    requires l < 8 && j < Pow2(l)
    ensures 1 <= Pow2(l) + j < 256
    ensures Cong(W(Pow2(l) + j) * W(Pow2(l) + j), Rho(l, j))
  {
    hide W, Cong, Pow2;
    Pow2Step(0);
    Pow2Under8(l);
    if l == 0 {
      SquareOfFirst();
    } else {
      var k := Pow2(l - 1) + j / 2;
      Pow2Step(l - 1);
      SquareLaw(k);
      CongRefl(W(k));
      assert Pow2(l) + j == 2 * k + j % 2;
    }
  }

  /** The block u is a modulo X^w - rho: they agree at every point where X^w is rho. */
  ghost predicate Residue(u: seq<int>, w: nat, rho: int, a: seq<int>) {
    forall r: int :: Cong(Pow(r, w), rho) ==> Cong(Eval(u, r), Eval(a, r))
  }

  /** The blocks of s, from number j on, are the residues of a after l layers. */
  ghost predicate Residues(s: seq<int>, l: nat, j: nat, a: seq<int>)
    requires l <= 8
    decreases |s|
  {
    var w := Pow2(8 - l);
    if |s| < w then s == [] else Residue(s[..w], w, Rho(l, j), a) && Residues(s[w..], l, j + 1, a)
  }

  /** A coefficient of a half of the block. */
  lemma HalfAt(u: seq<int>, c: nat, k: nat, z: int, i: nat)
    requires |u| == 2 * c && 1 <= k < 256 && i < c
    ensures Cong(Block(u, c, k, false)[if z == 0 then i else i + c], u[i] + (if z == 0 then W(k) else -W(k)) * u[i + c])
  {
    hide Cong, Block, W, Twist, Zeta;
    BlockAt(u, c, k, false, i);
    TwistPower(k, u[i + c]);
    CongRefl(u[i]);
    CongAdd(u[i], u[i], Twist(Zeta(k), u[i + c]), W(k) * u[i + c]);
    assert (-W(k)) * u[i + c] == -(W(k) * u[i + c]);
  }

  lemma Split(u: seq<int>, c: nat, k: int, z: int, r: int)
    requires |u| == 2 * c && 1 <= k < 256
    requires Cong(Pow(r, c), if z == 0 then W(k) else -W(k))
    ensures var v := Block(u, c, k, false);
      Cong(Eval(if z == 0 then v[..c] else v[c..], r), Eval(u, r))
  {
    hide Cong, Block, W, Pow, Eval;
    var v, w := Block(u, c, k, false), if z == 0 then W(k) else -W(k);
    var part := if z == 0 then v[..c] else v[c..];
    forall i | 0 <= i < c
      ensures Cong(part[i], u[..c][i] + w * u[c..][i])
    {
      HalfAt(u, c, k, z, i);
    }
    EvalLin(part, u[..c], u[c..], w, r);
    assert u == u[..c] + u[c..];
    EvalConcat(u[..c], u[c..], r);
    var e, f := Eval(u[..c], r), Eval(u[c..], r);
    CongScale(Pow(r, c), w, f);
    CongRefl(e);
    CongAdd(e, e, Pow(r, c) * f, w * f);
    CongSym(Eval(u, r), e + w * f);
    CongTrans(Eval(part, r), e + w * f, Eval(u, r));
  }

  lemma BlockResidue(u: seq<int>, l: nat, j: nat, a: seq<int>)
    requires l < 8 && j < Pow2(l) && |u| == Pow2(8 - l)
    requires Residue(u, Pow2(8 - l), Rho(l, j), a)
    ensures var c, v := Pow2(7 - l), Block(u, Pow2(7 - l), Pow2(l) + j, false);
      Residue(v[..c], c, Rho(l + 1, 2 * j), a) && Residue(v[c..], c, Rho(l + 1, 2 * j + 1), a)
  {
    hide Cong, Block, W, Eval, Pow;
    var c, k := Pow2(7 - l), Pow2(l) + j;
    var v := Block(u, c, k, false);
    RhoSquare(l, j);
    forall r: int | Cong(Pow(r, c), W(k)) || Cong(Pow(r, c), -W(k))
      ensures Cong(Pow(r, 2 * c), Rho(l, j))
    {
      var p, w := Pow(r, c), if Cong(Pow(r, c), W(k)) then W(k) else -W(k);
      PowDouble(r, c);
      CongMul(p, w, p, w);
      assert w * w == W(k) * W(k);
      CongTrans(p * p, w * w, Rho(l, j));
    }
    forall r: int | Cong(Pow(r, c), W(k))
      ensures Cong(Eval(v[..c], r), Eval(a, r))
    {
      Split(u, c, k, 0, r);
      CongTrans(Eval(v[..c], r), Eval(u, r), Eval(a, r));
    }
    forall r: int | Cong(Pow(r, c), -W(k))
      ensures Cong(Eval(v[c..], r), Eval(a, r))
    {
      Split(u, c, k, 1, r);
      CongTrans(Eval(v[c..], r), Eval(u, r), Eval(a, r));
    }
  }

  lemma {:induction false} LayerResidues(s: seq<int>, l: nat, j: nat, n: nat, a: seq<int>)
    requires l < 8 && j + n <= Pow2(l) && |s| == Blocks(n, Pow2(7 - l)) && Residues(s, l, j, a)
    ensures Residues(Layer(s, Pow2(7 - l), Pow2(l) + j, false), l + 1, 2 * j, a)
    decreases n
  {
    hide Block, Residue, Layer, Rho;
    var c, k := Pow2(7 - l), Pow2(l) + j;
    var d := 2 * c;
    var t := Layer(s, c, k, false);
    if n > 0 {
      BlockResidue(s[..d], l, j, a);
      LayerResidues(s[d..], l, j + 1, n - 1, a);
      LayerUnfold(s, c, k, false);
      TwoResidues(t, l, j, a);
    }
  }

  lemma TwoResidues(t: seq<int>, l: nat, j: nat, a: seq<int>)
    requires l < 8 && |t| >= 2 * Pow2(7 - l)
    requires Residue(t[..2 * Pow2(7 - l)][..Pow2(7 - l)], Pow2(7 - l), Rho(l + 1, 2 * j), a)
    requires Residue(t[..2 * Pow2(7 - l)][Pow2(7 - l)..], Pow2(7 - l), Rho(l + 1, 2 * j + 1), a)
    requires Residues(t[2 * Pow2(7 - l)..], l + 1, 2 * j + 2, a)
    ensures Residues(t, l + 1, 2 * j, a)
  {
    hide Residue, Rho;
    var c := Pow2(7 - l);
    assert t[..2 * c][..c] == t[..c] && t[..2 * c][c..] == t[c..][..c] && t[c..][c..] == t[2 * c..];
  }

  lemma {:induction false} ForwardResidues(a: seq<int>, l: nat)
    requires |a| == 256 && l <= 8
    ensures Residues(Forward(a, l), l, 0, a)
  {
    hide Layer, Rho, Blocks, Pow2;
    Pow2Values();
    if l == 0 {
      assert a[..256] == a && a[256..] == [];
      AgreesWithItself(a);
    } else {
      ForwardResidues(a, l - 1);
      LayerShape(l - 1);
      LayerResidues(Forward(a, l - 1), l - 1, 0, Pow2(l - 1), a);
    }
  }

  lemma AgreesWithItself(a: seq<int>)
    ensures Residue(a, 256, Rho(0, 0), a)
  {
    hide Pow, Eval, Rho;
  }

  lemma {:induction false} ResidueAt(s: seq<int>, j: nat, i: nat, a: seq<int>)
    requires i < |s| && Residues(s, 8, j, a)
    ensures Cong(s[i], Eval(a, Rho(8, j + i)))
    decreases i
  {
    hide Rho, Cong, Pow2;
    Pow2Values();
    if i == 0 {
      var r := Rho(8, j);
      PowOne(r);
      CongRefl(r);
      assert Eval(s[..1], r) == s[0] + r * Eval(s[..1][1..], r) && s[..1][1..] == [];
    } else {
      ResidueAt(s[1..], j + 1, i - 1, a);
    }
  }

  // ------------------------------------------------------------------ the two theorems

  /** The evaluation points: odd powers of the root of unity, in bit-reversed order. */
  ghost function Point(i: nat): int {
    Pow(GENERATOR, 2 * Brv(i, 8) + 1)
  }

  lemma BrvShift(i: nat)
    requires i < 256
    ensures Brv(128 + i / 2, 8) + (if i % 2 == 0 then 0 else 256) == 2 * Brv(i, 8) + 1
  {
    hide Brv, Pow2;
    Pow2Values();
    BrvTop(7, i / 2, 8);
    BrvDouble(i / 2, 7);
    BrvUnfold(i);
  }

  lemma PointIsRho(i: nat)
    requires i < 256
    ensures Cong(Rho(8, i), Point(i))
  {
    hide Pow, Brv, Cong, Pow2;
    Pow2Values();
    BrvShift(i);
    var k := 128 + i / 2;
    if i % 2 == 0 {
      CongRefl(W(k));
    } else {
      PowSum(GENERATOR, 256, Brv(k, 8));
      MinusOne();
      CongScale(Pow(GENERATOR, 256), -1, W(k));
      CongSym(Point(i), -W(k));
    }
  }

  lemma {:induction false} CongEval(p: seq<int>, r: int, t: int)
    requires Cong(r, t)
    ensures Cong(Eval(p, r), Eval(p, t))
  {
    hide Cong;
    if p == [] {
      CongRefl(0);
    } else {
      CongEval(p[1..], r, t);
      CongMul(r, t, Eval(p[1..], r), Eval(p[1..], t));
      CongRefl(p[0]);
      CongAdd(p[0], p[0], r * Eval(p[1..], r), t * Eval(p[1..], t));
    }
  }

  /** ntt evaluates at the odd powers of 1753, as section 7.5 of FIPS 204 defines it. */
  lemma NttEvaluates(a: seq<int>, i: nat)
    requires |a| == 256 && i < 256
    ensures Cong(NttSpec(a)[i], Eval(a, Point(i)))
  {
    hide Forward, Rho, Point, Cong, Eval;
    ForwardResidues(a, 8);
    ResidueAt(Forward(a, 8), 0, i, a);
    PointIsRho(i);
    CongEval(a, Rho(8, i), Point(i));
    CongTrans(NttSpec(a)[i], Eval(a, Rho(8, i)), Eval(a, Point(i)));
  }

  lemma {:induction false} PowPow(b: int, e: nat, f: nat)
    ensures Pow(Pow(b, e), f) == Pow(b, e * f)
  {
    if f > 0 {
      PowPow(b, e, f - 1);
      assert e * f == e + e * (f - 1);
      PowSum(b, e, e * (f - 1));
    }
  }

  lemma {:induction false} PowOfMinusOne(h: nat)
    ensures Pow(-1, 2 * h + 1) == -1
  {
    if h > 0 {
      PowOfMinusOne(h - 1);
      assert Pow(-1, 2 * h + 1) == -1 * (-1 * Pow(-1, 2 * h - 1));
    }
  }

  /** Every evaluation point is a root of X^256 + 1. */
  lemma PointIsRoot(i: nat)
    ensures Cong(Pow(Point(i), 256), -1)
  {
    hide Pow, Brv, Cong;
    var h := Brv(i, 8);
    PowPow(GENERATOR, 2 * h + 1, 256);
    PowPow(GENERATOR, 256, 2 * h + 1);
    MinusOne();
    CongPow(Pow(GENERATOR, 256), -1, 2 * h + 1);
    PowOfMinusOne(h);
  }

  /** X^i * b modulo X^n + 1. */
  ghost function Rotate(b: seq<int>, i: nat): (r: seq<int>)
    requires i <= |b|
    ensures |r| == |b|
  {
    seq(|b|, k requires 0 <= k < |b| => if i <= k then b[k - i] else -b[|b| + k - i])
  }

  lemma EvalRotate(b: seq<int>, i: nat, r: int)
    requires i <= |b| && Cong(Pow(r, |b|), -1)
    ensures Cong(Eval(Rotate(b, i), r), Pow(r, i) * Eval(b, r))
  {
    hide Cong, Pow;
    var n := |b| - i;
    var lo, hi := b[..n], b[n..];
    var neg := Rotate(b, i)[..i];
    assert Rotate(b, i) == neg + lo && b == lo + hi;
    EvalConcat(neg, lo, r);
    EvalConcat(lo, hi, r);
    NegLin(neg, hi);
    EvalLin(neg, hi, hi, -2, r);
    PowSum(r, i, n);
    RotateStep(Pow(r, i), Pow(r, n), Eval(lo, r), Eval(hi, r), Eval(neg, r));
  }

  lemma RotateStep(p: int, t: int, e: int, f: int, g: int)
    requires Cong(p * t, -1) && Cong(g, f + -2 * f)
    ensures Cong(g + p * e, p * (e + t * f))
  {
    hide Cong;
    assert p * (e + t * f) == p * e + (p * t) * f;
    CongScale(p * t, -1, f);
    CongRefl(p * e);
    CongAdd(p * e, p * e, (p * t) * f, -f);
    CongAdd(p * e, p * e, g, -f);
    CongSym(p * (e + t * f), p * e - f);
    CongTrans(g + p * e, p * e - f, p * (e + t * f));
  }

  lemma NegLin(z: seq<int>, y: seq<int>)
    requires |z| == |y| && forall i :: 0 <= i < |z| ==> z[i] == -y[i]
    ensures Lin(z, y, y, -2)
  {
    hide Cong;
    forall i | 0 <= i < |z|
      ensures Cong(z[i], y[i] + -2 * y[i])
    {
      CongRefl(z[i]);
    }
  }

  /** The product with only the first m coefficients of a. */
  ghost function Partial(a: seq<int>, b: seq<int>, m: nat): (r: seq<int>)
    requires m <= |a| == |b|
    ensures |r| == |b|
  {
    seq(|b|, k requires 0 <= k < |b| => ProductTerms(a, b, k, m))
  }

  lemma {:induction false} EvalPartial(a: seq<int>, b: seq<int>, m: nat, r: int)
    requires m <= |a| == |b| && Cong(Pow(r, |b|), -1)
    ensures Cong(Eval(Partial(a, b, m), r), Eval(a[..m], r) * Eval(b, r))
  {
    hide Cong, Pow;
    var x, e := Partial(a, b, m), Eval(b, r);
    if m == 0 {
      EvalZero(x, r);
      CongRefl(0);
    } else {
      var y, z, v := Partial(a, b, m - 1), Rotate(b, m - 1), a[m - 1];
      EvalPartial(a, b, m - 1, r);
      EvalRotate(b, m - 1, r);
      PartialLin(a, b, m);
      EvalLin(x, y, z, v, r);
      assert a[..m] == a[..m - 1] + [v];
      EvalConcat(a[..m - 1], [v], r);
      assert Eval([v], r) == v by { assert [v][1..] == []; }
      ProductStep(Eval(x, r), Eval(y, r), Eval(z, r), Eval(a[..m - 1], r), e, Pow(r, m - 1), v);
    }
  }

  lemma ProductStep(x: int, y: int, z: int, d: int, e: int, p: int, v: int)
    requires Cong(x, y + v * z) && Cong(y, d * e) && Cong(z, p * e)
    ensures Cong(x, (d + p * v) * e)
  {
    hide Cong;
    CongScale(z, p * e, v);
    assert z * v == v * z && (p * e) * v == (p * v) * e;
    CongAdd(y, d * e, v * z, (p * v) * e);
    assert (d + p * v) * e == d * e + (p * v) * e;
    CongTrans(x, y + v * z, (d + p * v) * e);
  }

  lemma PartialLin(a: seq<int>, b: seq<int>, m: nat)
    requires 0 < m <= |a| == |b|
    ensures Lin(Partial(a, b, m), Partial(a, b, m - 1), Rotate(b, m - 1), a[m - 1])
  {
    hide Cong;
    forall k | 0 <= k < |b|
      ensures Cong(Partial(a, b, m)[k], Partial(a, b, m - 1)[k] + a[m - 1] * Rotate(b, m - 1)[k])
    {
      CongRefl(Partial(a, b, m)[k]);
    }
  }

  lemma {:induction false} EvalZero(x: seq<int>, r: int)
    requires forall i :: 0 <= i < |x| ==> x[i] == 0
    ensures Eval(x, r) == 0
  {
    if x != [] {
      EvalZero(x[1..], r);
    }
  }

  /**
    Transforming, multiplying pointwise and transforming back is multiplication modulo X^256 + 1.
    The Montgomery factor of the pointwise product cancels that of the inverse transform.
   */
  lemma MultiplicationTheorem(a: seq<int>, b: seq<int>)
    requires |a| == |b| == 256
    ensures CongSeq(InvNttSpec(PointwiseMont(NttSpec(a), NttSpec(b))), Product(a, b))
  {
    hide Cong, Eval, Point, NttSpec, InvNttSpec, ProductTerms, Mont;
    var p, x, y := Product(a, b), NttSpec(a), NttSpec(b);
    assert p == Partial(a, b, 256) && a == a[..256];
    var m := PointwiseMont(x, y);
    forall i | 0 <= i < 256
      ensures Cong(m[i], RINV * NttSpec(p)[i])
    {
      var r := Point(i);
      NttEvaluates(p, i);
      NttEvaluates(a, i);
      NttEvaluates(b, i);
      PointIsRoot(i);
      EvalPartial(a, b, 256, r);
      CongMul(x[i], Eval(a, r), y[i], Eval(b, r));
      MontCong(x[i] * y[i]);
      PointwiseStep(m[i], x[i] * y[i], Eval(a, r) * Eval(b, r), Eval(p, r), NttSpec(p)[i]);
    }
    TimesAsLin(m, NttSpec(p), RINV);
    NttLinear(m, NttSpec(p), NttSpec(p), RINV - 1);
    TimesAsLin(InvNttSpec(m), InvNttSpec(NttSpec(p)), RINV);
    InverseOfNtt(p);
    TimesTrans(InvNttSpec(m), InvNttSpec(NttSpec(p)), p, RINV, TWO32);
    TimesOne(InvNttSpec(m), p, RINV * TWO32);
  }

  lemma PointwiseStep(m: int, xy: int, ab: int, e: int, p: int)
    requires Cong(m, xy * RINV) && Cong(xy, ab) && Cong(e, ab) && Cong(p, e)
    ensures Cong(m, RINV * p)
  {
    hide Cong;
    CongTrans(p, e, ab);
    CongSym(p, ab);
    CongTrans(xy, ab, p);
    CongScale(xy, p, RINV);
    CongTrans(m, xy * RINV, RINV * p);
  }

  lemma TimesOne(z: seq<int>, y: seq<int>, m: int)
    requires Times(z, y, m) && Cong(m, 1)
    ensures CongSeq(z, y)
  {
    TimesCong(z, y, m, 1);
  }
}
