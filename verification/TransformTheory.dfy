/** What the two transforms mean modulo q: linearity, and that each undoes the other up to 2^32. */
module TransformTheory {
  import opened Words
  import opened Modular
  import opened Reduce
  import opened ZetaTable
  import opened Zetas
  import opened Transform

  /** z = x + m*y, coefficientwise modulo q. */
  ghost predicate Lin(z: seq<int>, x: seq<int>, y: seq<int>, m: int) {
    |z| == |x| == |y| && forall i :: 0 <= i < |z| ==> Cong(z[i], x[i] + m * y[i])
  }

  /** z = m*y, coefficientwise modulo q. */
  ghost predicate Times(z: seq<int>, y: seq<int>, m: int) {
    |z| == |y| && forall i :: 0 <= i < |z| ==> Cong(z[i], m * y[i])
  }

  lemma TimesAsLin(z: seq<int>, y: seq<int>, m: int)
    ensures Times(z, y, m) <==> Lin(z, y, y, m - 1)
  {
    hide Cong;
    forall i | 0 <= i < |z| && |z| == |y|
      ensures m * y[i] == y[i] + (m - 1) * y[i]
    {
    }
  }

  lemma TimesTrans(z: seq<int>, y: seq<int>, x: seq<int>, m: int, n: int)
    requires Times(z, y, m) && Times(y, x, n)
    ensures Times(z, x, m * n)
  {
    hide Cong;
    forall i | 0 <= i < |z|
      ensures Cong(z[i], (m * n) * x[i])
    {
      CongMul(m, m, y[i], n * x[i]) by { CongRefl(m); }
      assert m * (n * x[i]) == (m * n) * x[i];
      CongTrans(z[i], m * y[i], (m * n) * x[i]);
    }
  }

  lemma TimesCong(z: seq<int>, y: seq<int>, m: int, n: int)
    requires Times(z, y, m) && Cong(m, n)
    ensures Times(z, y, n)
  {
    hide Cong;
    forall i | 0 <= i < |z|
      ensures Cong(z[i], n * y[i])
    {
      CongMul(m, n, y[i], y[i]) by { CongRefl(y[i]); }
      CongTrans(z[i], m * y[i], n * y[i]);
    }
  }

  // ------------------------------------------------------------------ linearity

  lemma MontLin(f: int, z: int, x: int, y: int, m: int)
    requires Cong(z, x + m * y)
    ensures Cong(Mont(f * z), Mont(f * x) + m * Mont(f * y))
  {
    hide Cong, Mont;
    var g := f * RINV;
    MontTimes(f, z);
    MontTimes(f, x);
    MontTimes(f, y);
    CongMul(g, g, z, x + m * y) by { CongRefl(g); }
    CongMul(m, m, Mont(f * y), g * y) by { CongRefl(m); }
    CongAdd(Mont(f * x), g * x, m * Mont(f * y), m * (g * y));
    assert g * (x + m * y) == g * x + m * (g * y);
    CongTrans(Mont(f * z), g * z, g * x + m * (g * y));
    CongSym(Mont(f * x) + m * Mont(f * y), g * x + m * (g * y));
    CongTrans(Mont(f * z), g * x + m * (g * y), Mont(f * x) + m * Mont(f * y));
  }

  /** A Montgomery product with f multiplies the residue by f * 2^-32. */
  lemma MontTimes(f: int, x: int)
    ensures Cong(Mont(f * x), (f * RINV) * x)
  {
    hide Cong, Mont;
    MontCong(f * x);
    assert (f * x) * RINV == (f * RINV) * x;
  }

  lemma BlockAt(s: seq<int>, c: nat, k: int, inv: bool, i: nat)
    requires |s| == 2 * c && i < c
    ensures Block(s, c, k, inv)[i] == if inv then s[i] + s[i + c] else s[i] + Twist(Zeta(k), s[i + c])
    ensures Block(s, c, k, inv)[i + c] ==
      if inv then Twist(-Zeta(k), s[i] - s[i + c]) else s[i] - Twist(Zeta(k), s[i + c])
  {
    hide Twist, Zeta, Butterfly, InvButterfly;
    if inv {
      InvButterflyAt(s, c, -Zeta(k), i);
    } else {
      ButterflyAt(s, c, Zeta(k), i);
    }
  }

  lemma ButterflyAt(s: seq<int>, c: nat, zeta: int, i: nat)
    requires |s| == 2 * c && i < c
    ensures Butterfly(s, c, zeta)[i] == s[i] + Twist(zeta, s[i + c])
    ensures Butterfly(s, c, zeta)[i + c] == s[i] - Twist(zeta, s[i + c])
  {
    hide Twist;
  }

  lemma InvButterflyAt(s: seq<int>, c: nat, zeta: int, i: nat)
    requires |s| == 2 * c && i < c
    ensures InvButterfly(s, c, zeta)[i] == s[i] + s[i + c]
    ensures InvButterfly(s, c, zeta)[i + c] == Twist(zeta, s[i] - s[i + c])
  {
    hide Twist;
  }

  lemma BlockLin(z: seq<int>, x: seq<int>, y: seq<int>, m: int, c: nat, k: int, inv: bool)
    requires |z| == 2 * c && Lin(z, x, y, m)
    ensures Lin(Block(z, c, k, inv), Block(x, c, k, inv), Block(y, c, k, inv), m)
  {
    hide Cong, Twist, Zeta, Block;
    var u, v, w := Block(z, c, k, inv), Block(x, c, k, inv), Block(y, c, k, inv);
    forall i | 0 <= i < 2 * c
      ensures Cong(u[i], v[i] + m * w[i])
    {
      BlockLinAt(z, x, y, m, c, k, inv, if i < c then i else i - c);
    }
  }

  lemma BlockLinAt(z: seq<int>, x: seq<int>, y: seq<int>, m: int, c: nat, k: int, inv: bool, i: nat)
    requires |z| == 2 * c && Lin(z, x, y, m) && i < c
    ensures var u, v, w := Block(z, c, k, inv), Block(x, c, k, inv), Block(y, c, k, inv);
      Cong(u[i], v[i] + m * w[i]) && Cong(u[i + c], v[i + c] + m * w[i + c])
  {
    hide Cong, Twist, Zeta, Block;
    BlockAt(z, c, k, inv, i);
    BlockAt(x, c, k, inv, i);
    BlockAt(y, c, k, inv, i);
    SumLin(z[i], x[i], y[i], z[i + c], x[i + c], y[i + c], m, if inv then -Zeta(k) else Zeta(k));
  }

  lemma SumLin(z: int, x: int, y: int, z': int, x': int, y': int, m: int, f: int)
    requires Cong(z, x + m * y) && Cong(z', x' + m * y')
    ensures Cong(z + z', (x + x') + m * (y + y'))
    ensures Cong(z + Twist(f, z'), (x + Twist(f, x')) + m * (y + Twist(f, y')))
    ensures Cong(z - Twist(f, z'), (x - Twist(f, x')) + m * (y - Twist(f, y')))
    ensures Cong(Twist(f, z - z'), Twist(f, x - x') + m * Twist(f, y - y'))
  {
    hide Cong, Mont;
    CongAdd(z, x + m * y, z', x' + m * y');
    assert (x + m * y) + (x' + m * y') == (x + x') + m * (y + y');
    assert (x + m * y) - (x' + m * y') == (x - x') + m * (y - y');
    MontLin(f, z', x', y', m);
    MontLin(f, z - z', x - x', y - y', m);
    var t, u, v := Mont(f * z'), Mont(f * x'), Mont(f * y');
    CongAdd(z, x + m * y, t, u + m * v);
    assert (x + m * y) + (u + m * v) == (x + u) + m * (y + v);
    assert (x + m * y) - (u + m * v) == (x - u) + m * (y - v);
  }

  lemma {:induction false} LayerLin(z: seq<int>, x: seq<int>, y: seq<int>, m: int, c: nat, k: int, inv: bool)
    requires c > 0 && Lin(z, x, y, m)
    ensures Lin(Layer(z, c, k, inv), Layer(x, c, k, inv), Layer(y, c, k, inv), m)
    decreases |z|
  {
    hide Cong, Block;
    var d := 2 * c;
    if |z| >= d {
      BlockLin(z[..d], x[..d], y[..d], m, c, k, inv);
      LayerLin(z[d..], x[d..], y[d..], m, c, if inv then k - 1 else k + 1, inv);
    }
  }

  lemma {:induction false} ForwardLin(z: seq<int>, x: seq<int>, y: seq<int>, m: int, l: nat)
    requires l <= 8 && Lin(z, x, y, m)
    ensures Lin(Forward(z, l), Forward(x, l), Forward(y, l), m)
  {
    hide Lin, Layer;
    if l > 0 {
      ForwardLin(z, x, y, m, l - 1);
      LayerLin(Forward(z, l - 1), Forward(x, l - 1), Forward(y, l - 1), m, Pow2(8 - l), Pow2(l - 1), false);
    }
  }

  lemma {:induction false} BackwardLin(z: seq<int>, x: seq<int>, y: seq<int>, m: int, l: nat)
    requires l <= 8 && Lin(z, x, y, m)
    ensures Lin(Backward(z, l), Backward(x, l), Backward(y, l), m)
  {
    hide Lin, Layer;
    if l > 0 {
      BackwardLin(z, x, y, m, l - 1);
      LayerLin(Backward(z, l - 1), Backward(x, l - 1), Backward(y, l - 1), m, Pow2(l - 1), Pow2(9 - l) - 1, true);
    }
  }

  lemma ScaledLin(z: seq<int>, x: seq<int>, y: seq<int>, m: int)
    requires Lin(z, x, y, m)
    ensures Lin(Scaled(z), Scaled(x), Scaled(y), m)
  {
    hide Cong, Mont;
    forall i | 0 <= i < |z|
      ensures Cong(Scaled(z)[i], Scaled(x)[i] + m * Scaled(y)[i])
    {
      MontLin(INV_FACTOR, z[i], x[i], y[i], m);
    }
  }

  /** Both transforms are linear modulo q. */
  lemma NttLinear(z: seq<int>, x: seq<int>, y: seq<int>, m: int)
    requires Lin(z, x, y, m)
    ensures Lin(NttSpec(z), NttSpec(x), NttSpec(y), m)
    ensures Lin(InvNttSpec(z), InvNttSpec(x), InvNttSpec(y), m)
  {
    hide Lin, Forward, Backward, Scaled;
    ForwardLin(z, x, y, m, 8);
    BackwardLin(z, x, y, m, 8);
    ScaledLin(Backward(z, 8), Backward(x, 8), Backward(y, 8), m);
  }

  // ------------------------------------------------------------------ each transform undoes the other

  /** A Montgomery product with a table entry is a product with the power it stands for. */
  lemma TwistPower(k: int, x: int)
    requires 1 <= k < 256
    ensures Cong(Twist(Zeta(k), x), W(k) * x)
    ensures Cong(Twist(-Zeta(k), x), -(W(k) * x))
  {
    hide Cong, Mont, Zeta, W;
    TableMeaning(k);
    var z, w := Zeta(k), W(k);
    MontTimes(z, x);
    MontTimes(-z, x);
    CongMul(z, TWO32 * w, RINV, RINV) by { CongRefl(RINV); }
    CongScale(TWO32 * RINV, 1, w) by { UnitFactor(); }
    assert (TWO32 * w) * RINV == (TWO32 * RINV) * w;
    CongTrans(z * RINV, (TWO32 * w) * RINV, w);
    CongScale(z * RINV, w, x);
    CongScale(z * RINV, w, -x);
    assert ((-z) * RINV) * x == (z * RINV) * (-x) && w * (-x) == -(w * x);
    CongTrans(Mont(z * x), (z * RINV) * x, w * x);
    CongTrans(Mont(-z * x), ((-z) * RINV) * x, -(w * x));
  }

  lemma UnitFactor()
    ensures Cong(TWO32 * RINV, 1)
  {
  }

  lemma CongScale(a: int, b: int, x: int)
    requires Cong(a, b)
    ensures Cong(a * x, b * x)
  {
    CongMul(a, b, x, x);
  }

  /** Two butterflies with mirrored table entries, in either order, double both coefficients. */
  lemma BlockPair(s: seq<int>, c: nat, l: nat, k: nat)
    requires |s| == 2 * c && l < 8 && Pow2(l) <= k < 2 * Pow2(l)
    ensures Times(Block(Block(s, c, k, false), c, 3 * Pow2(l) - 1 - k, true), s, 2)
    ensures Times(Block(Block(s, c, 3 * Pow2(l) - 1 - k, true), c, k, false), s, 2)
  {
    hide Cong, Twist, Zeta, W, Block;
    Pow2Under8(l);
    MirrorLaw(l, k);
    var k' := 3 * Pow2(l) - 1 - k;
    var u, v := Block(s, c, k, false), Block(s, c, k', true);
    var p, r := Block(u, c, k', true), Block(v, c, k, false);
    forall i | 0 <= i < 2 * c
      ensures Cong(p[i], 2 * s[i]) && Cong(r[i], 2 * s[i])
    {
      var j := if i < c then i else i - c;
      BlockAt(s, c, k, false, j);
      BlockAt(s, c, k', true, j);
      BlockAt(u, c, k', true, j);
      BlockAt(v, c, k, false, j);
      PointPair(s[j], s[j + c], k, k');
    }
  }

  lemma PointPair(x: int, y: int, k: int, k': int)
    requires 1 <= k < 256 && 1 <= k' < 256 && Cong(W(k) * W(k'), -1)
    ensures var t := Twist(Zeta(k), y);
      Cong((x + t) + (x - t), 2 * x) && Cong(Twist(-Zeta(k'), (x + t) - (x - t)), 2 * y)
    ensures var t := Twist(Zeta(k), Twist(-Zeta(k'), x - y));
      Cong((x + y) + t, 2 * x) && Cong((x + y) - t, 2 * y)
  {
    hide Cong, Twist, Zeta, W;
    var t := Twist(Zeta(k), y);
    CongRefl(2 * x);
    TwistPower(k, y);
    TwistPower(k', 2 * t);
    Undo(W(k), W(k'), y, t, Twist(-Zeta(k'), 2 * t), 2);
    var d := x - y;
    var u := Twist(-Zeta(k'), d);
    TwistPower(k', d);
    TwistPower(k, u);
    Undo2(W(k), W(k'), d, u, Twist(Zeta(k), u));
    CongRefl(x + y);
    CongAdd(x + y, x + y, Twist(Zeta(k), u), d);
  }

  lemma Undo(w: int, w': int, y: int, t: int, r: int, m: int)
    requires Cong(w * w', -1) && Cong(t, w * y) && Cong(r, -(w' * (m * t)))
    ensures Cong(r, m * y)
  {
    hide Cong;
    CongScale(t, w * y, -(m * w'));
    assert t * -(m * w') == -(w' * (m * t)) && (w * y) * -(m * w') == (w * w') * -(m * y);
    CongScale(w * w', -1, -(m * y));
    CongTrans(r, -(w' * (m * t)), (w * w') * -(m * y));
    CongTrans(r, (w * w') * -(m * y), m * y);
  }

  lemma Undo2(w: int, w': int, d: int, u: int, r: int)
    requires Cong(w * w', -1) && Cong(u, -(w' * d)) && Cong(r, w * u)
    ensures Cong(r, d)
  {
    hide Cong;
    CongScale(u, -(w' * d), w);
    assert u * w == w * u && -(w' * d) * w == (w * w') * -d;
    CongScale(w * w', -1, -d);
    CongTrans(r, w * u, (w * w') * -d);
    CongTrans(r, (w * w') * -d, d);
  }

  /** A forward layer and the inverse layer of the same width, in either order, double every coefficient. */
  lemma {:induction false} LayerPair(s: seq<int>, c: nat, l: nat, k: nat, n: nat)
    requires c > 0 && |s| == Blocks(n, c) && l < 8 && Pow2(l) <= k && k + n <= 2 * Pow2(l)
    ensures Times(Layer(Layer(s, c, k, false), c, 3 * Pow2(l) - 1 - k, true), s, 2)
    ensures Times(Layer(Layer(s, c, 3 * Pow2(l) - 1 - k, true), c, k, false), s, 2)
    decreases n
  {
    hide Cong, Block, Pow2;
    if n > 0 {
      hide Layer, Times;
      var d, k' := 2 * c, 3 * Pow2(l) - 1 - k;
      BlockPair(s[..d], c, l, k);
      LayerPair(s[d..], c, l, k + 1, n - 1);
      LayerUnfold(s, c, k, false);
      LayerUnfold(s, c, k', true);
      LayerUnfold(Layer(s, c, k, false), c, k', true);
      LayerUnfold(Layer(s, c, k', true), c, k, false);
      TimesConcat(Layer(Layer(s, c, k, false), c, k', true), s, 2, d);
      TimesConcat(Layer(Layer(s, c, k', true), c, k, false), s, 2, d);
    }
  }

  lemma TimesConcat(z: seq<int>, y: seq<int>, m: int, d: nat)
    requires d <= |z| == |y| && Times(z[..d], y[..d], m) && Times(z[d..], y[d..], m)
    ensures Times(z, y, m)
  {
    hide Cong;
    forall i | 0 <= i < |z|
      ensures Cong(z[i], m * y[i])
    {
      if i < d {
        assert Cong(z[..d][i], m * y[..d][i]);
      } else {
        assert Cong(z[d..][i - d], m * y[d..][i - d]);
      }
    }
  }

  lemma LayerUnfold(s: seq<int>, c: nat, k: int, inv: bool)
    requires c > 0 && |s| >= 2 * c
    ensures Layer(s, c, k, inv)[..2 * c] == Block(s[..2 * c], c, k, inv)
    ensures Layer(s, c, k, inv)[2 * c..] == Layer(s[2 * c..], c, if inv then k - 1 else k + 1, inv)
  {
    hide Block;
  }

  lemma LayerTimes(z: seq<int>, y: seq<int>, m: int, c: nat, k: int, inv: bool)
    requires c > 0 && Times(z, y, m)
    ensures Times(Layer(z, c, k, inv), Layer(y, c, k, inv), m)
  {
    hide Times, Lin, Layer;
    TimesAsLin(z, y, m);
    LayerLin(z, y, y, m - 1, c, k, inv);
    TimesAsLin(Layer(z, c, k, inv), Layer(y, c, k, inv), m);
  }

  /** t inverse layers after the forward transform leave 2^t times the state before its last t layers. */
  lemma {:induction false} BackwardOfForward(a: seq<int>, t: nat)
    requires |a| == 256 && t <= 8
    ensures Times(Backward(Forward(a, 8), t), Forward(a, 8 - t), Pow2(t))
  {
    hide Layer, Cong, Blocks;
    if t == 0 {
      TimesRefl(Forward(a, 8));
    } else {
      var l, c := 8 - t, Pow2(t - 1);
      var x, y, z := Backward(Forward(a, 8), t - 1), Forward(a, l + 1), Forward(a, l);
      BackwardOfForward(a, t - 1);
      LayerTimes(x, y, c, c, Pow2(l + 1) - 1, true);
      LayerShape(l);
      LayerPair(z, c, l, Pow2(l), Pow2(l));
      TimesTrans(Backward(Forward(a, 8), t), Layer(y, c, Pow2(l + 1) - 1, true), z, c, 2);
    }
  }

  lemma TimesRefl(a: seq<int>)
    ensures Times(a, a, 1)
  {
  }

  /** l forward layers after all inverse layers leave 2^l times the state before the last l of those. */
  lemma {:induction false} ForwardOfBackward(b: seq<int>, l: nat)
    requires |b| == 256 && l <= 8
    ensures Times(Forward(Backward(b, 8), l), Backward(b, 8 - l), Pow2(l))
  {
    hide Layer, Cong, Blocks;
    if l == 0 {
      TimesRefl(Backward(b, 8));
    } else {
      var m, c := 8 - l, Pow2(8 - l);
      var x, y, z := Forward(Backward(b, 8), l - 1), Backward(b, m + 1), Backward(b, m);
      ForwardOfBackward(b, l - 1);
      LayerTimes(x, y, Pow2(l - 1), c, Pow2(l - 1), false);
      LayerShape(l - 1);
      LayerPair(z, c, l - 1, Pow2(l - 1), Pow2(l - 1));
      TimesTrans(Forward(Backward(b, 8), l), Layer(y, c, Pow2(l - 1), false), z, Pow2(l - 1), 2);
    }
  }

  lemma ScaledTimes(x: seq<int>)
    ensures Times(Scaled(x), x, INV_FACTOR * RINV)
  {
    hide Cong, Mont;
    forall i | 0 <= i < |x|
      ensures Cong(Scaled(x)[i], (INV_FACTOR * RINV) * x[i])
    {
      MontTimes(INV_FACTOR, x[i]);
    }
  }

  /** inv_ntt_to_mont after ntt multiplies every coefficient by 2^32 modulo q. */
  lemma InverseOfNtt(a: seq<int>)
    requires |a| == 256
    ensures Times(InvNttSpec(NttSpec(a)), a, TWO32)
  {
    hide Forward, Backward, Scaled, Times;
    BackwardOfForward(a, 8);
    ForwardZero(a);
    Pow2Values();
    var b := Backward(Forward(a, 8), 8);
    ScaledTimes(b);
    TimesTrans(Scaled(b), b, a, INV_FACTOR * RINV, 256);
    TimesCong(Scaled(b), a, INV_FACTOR * RINV * 256, TWO32);
  }

  lemma ForwardZero(a: seq<int>)
    ensures Forward(a, 0) == a && Backward(a, 0) == a
  {
  }

  /** ntt after inv_ntt_to_mont multiplies every coefficient by 2^32 modulo q. */
  lemma NttOfInverse(b: seq<int>)
    requires |b| == 256
    ensures Times(NttSpec(InvNttSpec(b)), b, TWO32)
  {
    hide Forward, Backward, Scaled, Times, Lin;
    var x := Backward(b, 8);
    ScaledTimes(x);
    TimesAsLin(Scaled(x), x, INV_FACTOR * RINV);
    ForwardLin(Scaled(x), x, x, INV_FACTOR * RINV - 1, 8);
    TimesAsLin(NttSpec(Scaled(x)), NttSpec(x), INV_FACTOR * RINV);
    ForwardOfBackward(b, 8);
    ForwardZero(b);
    Pow2Values();
    TimesTrans(NttSpec(Scaled(x)), NttSpec(x), b, INV_FACTOR * RINV, 256);
    TimesCong(NttSpec(Scaled(x)), b, INV_FACTOR * RINV * 256, TWO32);
  }
}
