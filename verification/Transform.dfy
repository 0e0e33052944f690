/**
  The number-theoretic transforms of src/mldsa87/ntt.c: what one layer of butterflies computes, and
  the in-place loops, which are proved to compute exactly the composition of the eight layers and
  never to leave the range of a 32-bit word.
 */
module Transform {
  import opened Words
  import opened Modular
  import opened Reduce
  import opened ZetaTable
  import opened Zetas

  /** The Montgomery product of a twiddle factor and a coefficient. */
  function Twist(zeta: int, x: int): int {
    Mont(zeta * x)
  }

  /** One forward butterfly of half-width c: (x, y) becomes (x + zeta*y, x - zeta*y). */
  function Butterfly(s: seq<int>, c: nat, zeta: int): (r: seq<int>)
    requires |s| == 2 * c
    ensures |r| == |s|
  {
    seq(c, i requires 0 <= i < c => s[i] + Twist(zeta, s[i + c])) +
    seq(c, i requires 0 <= i < c => s[i] - Twist(zeta, s[i + c]))
  }

  /** One inverse butterfly: (x, y) becomes (x + y, zeta*(x - y)). */
  function InvButterfly(s: seq<int>, c: nat, zeta: int): (r: seq<int>)
    requires |s| == 2 * c
    ensures |r| == |s|
  {
    seq(c, i requires 0 <= i < c => s[i] + s[i + c]) +
    seq(c, i requires 0 <= i < c => Twist(zeta, s[i] - s[i + c]))
  }

  /** What a layer does to one block: inv selects the inverse transform and its negated factors. */
  function Block(s: seq<int>, c: nat, k: int, inv: bool): (r: seq<int>)
    requires |s| == 2 * c
    ensures |r| == |s|
  {
    if inv then InvButterfly(s, c, -Zeta(k)) else Butterfly(s, c, Zeta(k))
  }

  /** A layer: consecutive blocks of width 2c; the table index rises, or falls in the inverse transform. */
  function Layer(s: seq<int>, c: nat, k: int, inv: bool): (r: seq<int>)
    requires c > 0
    ensures |r| == |s|
    decreases |s|
  {
    if |s| < 2 * c then s
    else Block(s[..2 * c], c, k, inv) + Layer(s[2 * c..], c, if inv then k - 1 else k + 1, inv)
  }

  /** The state after l layers of the forward transform, which start at half-width 128. */
  function Forward(s: seq<int>, l: nat): (r: seq<int>)
    requires l <= 8
    ensures |r| == |s|
  {
    if l == 0 then s else Layer(Forward(s, l - 1), Pow2(8 - l), Pow2(l - 1), false)
  }

  /** The state after m layers of the inverse transform, which start at half-width 1. */
  function Backward(s: seq<int>, m: nat): (r: seq<int>)
    requires m <= 8
    ensures |r| == |s|
  {
    if m == 0 then s else Layer(Backward(s, m - 1), Pow2(m - 1), Pow2(9 - m) - 1, true)
  }

  /** The Montgomery form of 2^32 / 256. */
  const INV_FACTOR: int := 41978

  function Scaled(s: seq<int>): (r: seq<int>)
    ensures |r| == |s|
  {
    seq(|s|, i requires 0 <= i < |s| => Mont(INV_FACTOR * s[i]))
  }

  function NttSpec(s: seq<int>): (r: seq<int>)
    ensures |r| == |s|
  {
    Forward(s, 8)
  }

  function InvNttSpec(s: seq<int>): (r: seq<int>)
    ensures |r| == |s|
  {
    Scaled(Backward(s, 8))
  }

  /** Every coefficient is at most b in magnitude. */
  predicate Bounded(s: seq<int>, b: int) {
    forall i :: 0 <= i < |s| ==> -b <= s[i] <= b
  }

  /** Forward inputs of at most this magnitude cannot overflow in eight layers. */
  const NTT_LIMIT: int := 2080440311 // 2^31 - 1 - 8 * q

  // ------------------------------------------------------------------ ranges

  lemma TwiddleProduct(zeta: int, x: int)
    requires -4190208 <= zeta <= 4190208 && -0x7FFF_FFFF <= x <= 0x7FFF_FFFF
    ensures -MONT_LIMIT <= zeta * x < MONT_LIMIT
    ensures -Q < Twist(zeta, x) < Q && MontgomeryReduce(zeta * x) == Twist(zeta, x)
  {
    MulBound(zeta, x, 4190208, 0x7FFF_FFFF);
    MontRange(zeta * x);
  }

  lemma ButterflyRange(s: seq<int>, c: nat, zeta: int, b: int)
    requires |s| == 2 * c && 0 <= b <= 0x7FFF_FFFF && Bounded(s, b)
    requires -4190208 <= zeta <= 4190208
    ensures Bounded(Butterfly(s, c, zeta), b + Q)
  {
    hide Twist, MontgomeryReduce;
    var r := Butterfly(s, c, zeta);
    forall i | 0 <= i < |r|
      ensures -(b + Q) <= r[i] <= b + Q
    {
      TwiddleProduct(zeta, s[if i < c then i + c else i]);
    }
  }

  lemma InvButterflyRange(s: seq<int>, c: nat, zeta: int, b: int)
    requires |s| == 2 * c && Q <= 2 * b <= 0x7FFF_FFFF && Bounded(s, b)
    requires -4190208 <= zeta <= 4190208
    ensures Bounded(InvButterfly(s, c, zeta), 2 * b)
  {
    hide Twist, MontgomeryReduce;
    var r := InvButterfly(s, c, zeta);
    forall i | 0 <= i < |r|
      ensures -(2 * b) <= r[i] <= 2 * b
    {
      if i >= c {
        TwiddleProduct(zeta, s[i - c] - s[i]);
      }
    }
  }

  /** A forward layer adds less than q to the magnitude, an inverse layer at most doubles it. */
  lemma {:induction false} LayerRange(s: seq<int>, c: nat, k: int, inv: bool, b: int)
    requires c > 0 && 0 <= b <= 0x7FFF_FFFF && Bounded(s, b)
    requires inv ==> Q <= 2 * b <= 0x7FFF_FFFF
    ensures Bounded(Layer(s, c, k, inv), if inv then 2 * b else b + Q)
    decreases |s|
  {
    hide Zeta, Butterfly, InvButterfly;
    if |s| >= 2 * c {
      ZetaBound(k);
      if inv {
        InvButterflyRange(s[..2 * c], c, -Zeta(k), b);
      } else {
        ButterflyRange(s[..2 * c], c, Zeta(k), b);
      }
      LayerRange(s[2 * c..], c, if inv then k - 1 else k + 1, inv, b);
    } else if inv && Q <= 2 * b {
      assert b >= 0;
    }
  }

  lemma {:induction false} ForwardRange(s: seq<int>, l: nat, b: int)
    requires l <= 8 && 0 <= b <= NTT_LIMIT && Bounded(s, b)
    ensures Bounded(Forward(s, l), b + l * Q)
  {
    hide Layer, Pow2;
    if l > 0 {
      Pow2Small(8 - l);
      ForwardRange(s, l - 1, b);
      LayerRange(Forward(s, l - 1), Pow2(8 - l), Pow2(l - 1), false, b + (l - 1) * Q);
    }
  }

  lemma {:induction false} BackwardRange(s: seq<int>, m: nat)
    requires m <= 8 && Bounded(s, Q)
    ensures Bounded(Backward(s, m), Pow2(m) * Q) && Pow2(m) <= 256
  {
    hide Layer, Pow2;
    Pow2Small(m);
    if m > 0 {
      BackwardRange(s, m - 1);
      Pow2Small(m - 1);
      LayerRange(Backward(s, m - 1), Pow2(m - 1), Pow2(9 - m) - 1, true, Pow2(m - 1) * Q);
    }
  }

  /** The largest magnitude that inv_ntt_to_mont returns. */
  const INV_BOUND: int := 4211178 // q / 2 + 1 + 20969

  lemma InvNttRange(s: seq<int>)
    requires Bounded(s, Q)
    ensures Bounded(InvNttSpec(s), INV_BOUND)
  {
    hide Backward, Pow2;
    BackwardRange(s, 8);
    Pow2Values();
    var x := Backward(s, 8);
    forall i | 0 <= i < |x|
      ensures -INV_BOUND <= Mont(INV_FACTOR * x[i]) <= INV_BOUND
    {
      MontSmall(INV_FACTOR * x[i], 20969);
    }
  }

  // ------------------------------------------------------------------ the loops

  /** The read ZETAS[k], with its bounds check. */
  function ZetaInBounds(k: nat): (z: int32)
    requires k < 256
    ensures z == Zeta(k) && -4190208 <= z <= 4190208
  {
    ZetaBound(k);
    Zeta(k)
  }

  /** montgomery_reduce((int64_t) zeta * x), for a factor from the table. */
  function MontTwist(zeta: int32, x: int32): (t: int32)
    requires -4190208 <= zeta <= 4190208 && x != -0x8000_0000
    ensures t == Twist(zeta, x) && -Q < t < Q
  {
    TwiddleProduct(zeta, x);
    MontgomeryReduce(zeta * x)
  }

  /** r is s with the block at start replaced by what layer entry k makes of it. */
  ghost predicate BlockDone(s: seq<int>, r: seq<int>, start: nat, count: nat, k: int, inv: bool)
    requires start + 2 * count <= |s|
  {
    && |r| == |s|
    && r[..start] == s[..start]
    && r[start..start + 2 * count] == Block(s[start..start + 2 * count], count, k, inv)
    && r[start + 2 * count..] == s[start + 2 * count..]
  }

  /** What the first j - start butterflies of a block make of index i. */
  function Point(s: seq<int>, start: nat, count: nat, j: nat, k: int, inv: bool, i: nat): int
    requires start <= j <= start + count && start + 2 * count <= |s| && i < |s|
  {
    if start <= i < j then
      if inv then s[i] + s[i + count] else s[i] + Twist(Zeta(k), s[i + count])
    else if start + count <= i < j + count then
      if inv then Twist(-Zeta(k), s[i - count] - s[i]) else s[i - count] - Twist(Zeta(k), s[i])
    else s[i]
  }

  /** r is s after the first j - start butterflies of the block at start. */
  ghost predicate PartDone(s: seq<int>, r: seq<int>, start: nat, count: nat, j: nat, k: int, inv: bool) {
    && start <= j <= start + count && start + 2 * count <= |s| == |r|
    && forall i {:trigger r[i]} :: 0 <= i < |s| ==> r[i] == Point(s, start, count, j, k, inv, i)
  }

  lemma NothingDone(s: seq<int>, start: nat, count: nat, k: int, inv: bool)
    requires start + 2 * count <= |s|
    ensures PartDone(s, s, start, count, start, k, inv)
  {
    hide Twist, Zeta;
  }

  /** The operands of the next butterfly are untouched. */
  lemma Operands(s: seq<int>, r: seq<int>, start: nat, count: nat, j: nat, k: int, inv: bool)
    requires PartDone(s, r, start, count, j, k, inv) && j < start + count
    ensures r[j] == s[j] && r[j + count] == s[j + count]
  {
    hide Twist, Zeta;
  }

  /** The next butterfly stores its two results. */
  lemma PartStep(s: seq<int>, r: seq<int>, start: nat, count: nat, j: nat, k: int, inv: bool, x: int, y: int)
    requires PartDone(s, r, start, count, j, k, inv) && j < start + count
    requires x == if inv then s[j] + s[j + count] else s[j] + Twist(Zeta(k), s[j + count])
    requires y == if inv then Twist(-Zeta(k), s[j] - s[j + count]) else s[j] - Twist(Zeta(k), s[j + count])
    ensures PartDone(s, r[j := x][j + count := y], start, count, j + 1, k, inv)
  {
    hide Twist, Zeta;
  }

  lemma PartIsBlock(s: seq<int>, r: seq<int>, start: nat, count: nat, k: int, inv: bool)
    requires PartDone(s, r, start, count, start + count, k, inv)
    ensures BlockDone(s, r, start, count, k, inv)
  {
    hide Twist, Zeta, BlockDone;
    if inv {
      InvBlockByPoints(s, r, start, count, k);
    } else {
      BlockByPoints(s, r, start, count, k);
    }
  }

  lemma BlockByPoints(s: seq<int>, r: seq<int>, start: nat, count: nat, k: int)
    requires start + 2 * count <= |s| && |r| == |s|
    requires forall i :: start <= i < start + count ==> r[i] == s[i] + Twist(Zeta(k), s[i + count])
    requires forall i :: start + count <= i < start + 2 * count ==> r[i] == s[i - count] - Twist(Zeta(k), s[i])
    requires forall i :: 0 <= i < |s| && (i < start || start + 2 * count <= i) ==> r[i] == s[i]
    ensures BlockDone(s, r, start, count, k, false)
  {
    hide Twist, Zeta;
  }

  lemma InvBlockByPoints(s: seq<int>, r: seq<int>, start: nat, count: nat, k: int)
    requires start + 2 * count <= |s| && |r| == |s|
    requires forall i :: start <= i < start + count ==> r[i] == s[i] + s[i + count]
    requires forall i :: start + count <= i < start + 2 * count ==> r[i] == Twist(-Zeta(k), s[i - count] - s[i])
    requires forall i :: 0 <= i < |s| && (i < start || start + 2 * count <= i) ==> r[i] == s[i]
    ensures BlockDone(s, r, start, count, k, true)
  {
    hide Twist, Zeta;
  }

  /** The innermost loop of ntt: one butterfly on the block that starts at start. */
  method ButterflyBlock(a: array<int32>, start: nat, count: nat, k: nat)
    requires count > 0 && start + 2 * count <= a.Length && k < 256
    requires forall i :: start <= i < a.Length ==> -(0x7FFF_FFFF - Q) <= a[i] <= 0x7FFF_FFFF - Q
    modifies a
    ensures BlockDone(old(a[..]), a[..], start, count, k, false)
  {
    hide Zeta, Twist, MontTwist, BlockDone, PartDone;
    ghost var s: seq<int> := a[..];
    var zeta: int32 := ZetaInBounds(k);
    var j := start;
    NothingDone(s, start, count, k, false);
    while j < start + count
      invariant start <= j <= start + count && PartDone(s, a[..], start, count, j, k, false)
    {
      ghost var r: seq<int> := a[..];
      Operands(s, r, start, count, j, k, false);
      var t := MontTwist(zeta, a[j + count]);
      a[j + count] := a[j] - t;
      a[j] := a[j] + t;
      PartStep(s, r, start, count, j, k, false, s[j] + t, s[j] - t);
      assert a[..] == r[j := s[j] + t][j + count := s[j] - t];
      j := j + 1;
    }
    PartIsBlock(s, a[..], start, count, k, false);
  }

  /** The innermost loop of inv_ntt_to_mont. */
  method InvButterflyBlock(a: array<int32>, start: nat, count: nat, k: nat)
    requires count > 0 && start + 2 * count <= a.Length && k < 256
    requires forall i :: start <= i < a.Length ==> -0x3FFF_FFFF <= a[i] <= 0x3FFF_FFFF
    modifies a
    ensures BlockDone(old(a[..]), a[..], start, count, k, true)
  {
    hide Zeta, Twist, MontTwist, BlockDone, PartDone;
    ghost var s: seq<int> := a[..];
    var zeta: int32 := -ZetaInBounds(k);
    var j := start;
    NothingDone(s, start, count, k, true);
    while j < start + count
      invariant start <= j <= start + count && PartDone(s, a[..], start, count, j, k, true)
    {
      ghost var r: seq<int> := a[..];
      Operands(s, r, start, count, j, k, true);
      var t := a[j];
      a[j] := t + a[j + count];
      a[j + count] := t - a[j + count];
      a[j + count] := MontTwist(zeta, a[j + count]);
      PartStep(s, r, start, count, j, k, true, s[j] + s[j + count], Twist(zeta, s[j] - s[j + count]));
      assert a[..] == r[j := s[j] + s[j + count]][j + count := Twist(zeta, s[j] - s[j + count])];
      j := j + 1;
    }
    PartIsBlock(s, a[..], start, count, k, true);
  }

  /** The blocks before start as they are, followed by what the layer makes of the rest. */
  ghost function Done(s: seq<int>, start: nat, count: nat, k: int, inv: bool): seq<int>
    requires count > 0 && start <= |s|
  {
    s[..start] + Layer(s[start..], count, k, inv)
  }

  /** One more block of a layer: what is done grows, what remains shrinks, their sum is the layer. */
  lemma LayerStep(s: seq<int>, r: seq<int>, start: nat, count: nat, k: int, inv: bool, b: int)
    requires count > 0 && start + 2 * count <= |s|
    requires BlockDone(s, r, start, count, k, inv)
    requires forall i :: start <= i < |s| ==> -b <= s[i] <= b
    ensures Done(s, start, count, k, inv) == Done(r, start + 2 * count, count, if inv then k - 1 else k + 1, inv)
    ensures forall i :: start + 2 * count <= i < |r| ==> -b <= r[i] <= b
  {
    hide Block, Layer;
    var d := 2 * count;
    var u := Block(s[start..start + d], count, k, inv);
    assert s[start..][..d] == s[start..start + d];
    assert s[start..][d..] == s[start + d..];
    LayerEquation(s[start..], count, k, inv);
    assert r[..start + d] == s[..start] + u;
    forall i | start + d <= i < |r|
      ensures r[i] == s[i]
    {
      assert r[start + d..][i - start - d] == s[start + d..][i - start - d];
    }
  }

  lemma LayerEquation(s: seq<int>, count: nat, k: int, inv: bool)
    requires count > 0 && |s| >= 2 * count
    ensures Layer(s, count, k, inv) ==
      Block(s[..2 * count], count, k, inv) + Layer(s[2 * count..], count, if inv then k - 1 else k + 1, inv)
  {
    hide Block;
  }

  lemma AllDone(s: seq<int>, count: nat, k: int, inv: bool)
    requires count > 0
    ensures Done(s, |s|, count, k, inv) == s && Done(s, 0, count, k, inv) == Layer(s, count, k, inv)
  {
    hide Block;
    assert s[0..] == s;
  }

  /** The width of n blocks. */
  ghost function Blocks(n: nat, count: nat): nat {
    if n == 0 then 0 else 2 * count + Blocks(n - 1, count)
  }

  lemma {:induction false} BlocksProduct(n: nat, count: nat)
    ensures Blocks(n, count) == n * (2 * count)
  {
    if n > 0 {
      BlocksProduct(n - 1, count);
      assert n * (2 * count) == (n - 1) * (2 * count) + 2 * count;
    }
  }

  lemma Pow2Pair(l: nat)
    requires l < 8
    ensures Pow2(l) * (2 * Pow2(7 - l)) == 256
  {
    hide Pow2;
    Pow2Sum(l, 8 - l);
    Pow2Step(7 - l);
    Pow2Small(8);
  }

  /** Layer l of the forward transform has 2^l blocks of half-width 2^(7-l). */
  lemma LayerShape(l: nat)
    requires l < 8
    ensures Blocks(Pow2(l), Pow2(7 - l)) == 256 && 1 <= Pow2(l) <= 128 && 1 <= Pow2(7 - l) <= 128
    ensures Pow2(7 - l) / 2 == if l < 7 then Pow2(6 - l) else 0
  {
    hide Blocks, Pow2;
    BlocksProduct(Pow2(l), Pow2(7 - l));
    Pow2Pair(l);
    Pow2Small(l);
    Pow2Small(7 - l);
    if l < 7 {
      Pow2Step(6 - l);
    }
  }

  /** The loop of ntt over the n blocks of one layer. */
  method LayerInPlace(a: array<int32>, count: nat, first: nat, ghost n: nat, ghost b: int) returns (k: nat)
    requires count > 0 && a.Length == Blocks(n, count) && first + n < 256
    requires Bounded(a[..], b) && b <= 0x7FFF_FFFF - Q
    modifies a
    ensures a[..] == Layer(old(a[..]), count, first + 1, false) && k == first + n
  {
    hide Layer, BlockDone, Done;
    ghost var s, left := a[..], n;
    k := first;
    var start := 0;
    AllDone(s, count, k + 1, false);
    while start < a.Length
      invariant start + Blocks(left, count) == a.Length && k + left == first + n
      invariant 0 <= start <= a.Length && Done(a[..], start, count, k + 1, false) == Layer(s, count, first + 1, false)
      invariant forall i :: start <= i < a.Length ==> -b <= a[i] <= b
      decreases left
    {
      ghost var before := a[..];
      k := k + 1;
      ButterflyBlock(a, start, count, k);
      LayerStep(before, a[..], start, count, k, false, b);
      start := start + 2 * count;
      left := left - 1;
    }
    AllDone(a[..], count, k + 1, false);
  }

  /** The loop of inv_ntt_to_mont over the n blocks of one layer. */
  method InvLayerInPlace(a: array<int32>, count: nat, first: nat, ghost n: nat, ghost b: int) returns (k: nat)
    requires count > 0 && a.Length == Blocks(n, count) && n <= first <= 256
    requires Bounded(a[..], b) && b <= 0x3FFF_FFFF
    modifies a
    ensures a[..] == Layer(old(a[..]), count, first - 1, true) && k == first - n
  {
    hide Layer, BlockDone, Done;
    ghost var s, left := a[..], n;
    k := first;
    var start := 0;
    AllDone(s, count, k - 1, true);
    while start < a.Length
      invariant start + Blocks(left, count) == a.Length && k - left == first - n
      invariant 0 <= start <= a.Length && Done(a[..], start, count, k - 1, true) == Layer(s, count, first - 1, true)
      invariant forall i :: start <= i < a.Length ==> -b <= a[i] <= b
      decreases left
    {
      ghost var before := a[..];
      k := k - 1;
      InvButterflyBlock(a, start, count, k);
      LayerStep(before, a[..], start, count, k, true, b);
      start := start + 2 * count;
      left := left - 1;
    }
    AllDone(a[..], count, k - 1, true);
  }

  /** Layer l starts from what l layers left, with twice as many blocks as the layer before it. */
  lemma ForwardUnfold(s: seq<int>, l: nat)
    requires l < 8
    ensures Forward(s, 0) == s && Pow2(7) == 128 && Pow2(0) == 1
    ensures Forward(s, l + 1) == Layer(Forward(s, l), Pow2(7 - l), Pow2(l), false) && Pow2(l + 1) == 2 * Pow2(l)
  {
    hide Layer, Pow2;
    Pow2Values();
    Pow2Step(l);
  }

  lemma BackwardUnfold(s: seq<int>, m: nat)
    requires m < 8
    ensures Backward(s, 0) == s && Pow2(8) == 256 && Pow2(0) == 1
    ensures Backward(s, m + 1) == Layer(Backward(s, m), Pow2(m), Pow2(8 - m) - 1, true)
    ensures Pow2(m + 1) == 2 * Pow2(m) && Pow2(8 - m) == 2 * Pow2(7 - m)
  {
    hide Layer, Pow2;
    Pow2Values();
    Pow2Step(m);
    Pow2Step(7 - m);
  }

  lemma LayerWidth(m: nat)
    requires m <= 8
    ensures Pow2(m) < 256 <==> m < 8
    ensures Pow2(m) * Q <= 256 * Q
  {
    hide Pow2;
    Pow2Small(m);
  }

  /** ntt. */
  method Ntt(a: array<int32>)
    requires a.Length == 256 && Bounded(a[..], NTT_LIMIT)
    modifies a
    ensures a[..] == NttSpec(old(a[..]))
  {
    hide Layer, Blocks, Pow2, Forward;
    ghost var s, l := a[..], 0;
    var count, k := 128, 0;
    Pow2Values();
    ForwardUnfold(s, 0);
    while count > 0
      invariant l <= 8 && count == (if l < 8 then Pow2(7 - l) else 0) && k == Pow2(l) - 1
      invariant a[..] == Forward(s, l)
      decreases count
    {
      ForwardRange(s, l, NTT_LIMIT);
      LayerShape(l);
      ForwardUnfold(s, l);
      k := LayerInPlace(a, count, k, Pow2(l), NTT_LIMIT + l * Q);
      count := count / 2;
      l := l + 1;
    }
  }

  /** inv_ntt_to_mont. */
  method InvNttToMont(a: array<int32>)
    requires a.Length == 256 && Bounded(a[..], Q)
    modifies a
    ensures a[..] == InvNttSpec(old(a[..]))
  {
    hide Layer, Blocks, Pow2, Backward, Scaled;
    ghost var s, m := a[..], 0;
    var count, k := 1, 256;
    BackwardUnfold(s, 0);
    while count < 256
      invariant m <= 8 && count == Pow2(m) && k == Pow2(8 - m)
      invariant a[..] == Backward(s, m)
      decreases 8 - m
    {
      LayerWidth(m);
      assert m < 8;
      BackwardRange(s, m);
      LayerShape(7 - m);
      BackwardUnfold(s, m);
      k := InvLayerInPlace(a, count, k, Pow2(7 - m), Pow2(m) * Q);
      count := 2 * count;
      m := m + 1;
    }
    LayerWidth(m);
    BackwardRange(s, 8);
    ScaleInPlace(a);
  }

  /** The last loop of inv_ntt_to_mont. */
  method ScaleInPlace(a: array<int32>)
    requires Bounded(a[..], 256 * Q)
    modifies a
    ensures a[..] == Scaled(old(a[..]))
  {
    hide Mont, MontTwist;
    ghost var s: seq<int> := a[..];
    for j := 0 to a.Length
      invariant forall i {:trigger a[i]} :: 0 <= i < j ==> a[i] == Scaled(s)[i]
      invariant forall i {:trigger a[i]} :: j <= i < a.Length ==> a[i] == s[i]
    {
      a[j] := MontTwist(INV_FACTOR, a[j]);
    }
  }
}
