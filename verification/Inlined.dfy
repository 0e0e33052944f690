/**
  The transforms as sign.c spells them out inside its *_volatile functions: the triple loops of ntt.c on
  the scratch polynomial, with the Montgomery reduction written in place.  They are proved to compute the
  same integers as the functions of ntt.c.
 */
module Inlined {
  import opened Words
  import opened Modular
  import opened Reduce
  import opened Zetas
  import opened ZetaTable
  import opened Transform

  /** The inlined reduction: no cast loses a bit of the product, and the value is that of the call. */
  lemma InlinedReduction(zeta: int32, x: int32)
    requires -4190208 <= zeta <= 4190208 && x != -0x8000_0000
    ensures -0x8000_0000_0000_0000 <= zeta * x < 0x8000_0000_0000_0000
    ensures var low := Wrap32(zeta * x);
      && -0x8000_0000_0000_0000 <= low * QINV < 0x8000_0000_0000_0000
      && var t := Wrap32(low * QINV);
      && -0x8000_0000_0000_0000 <= zeta * x - t * Q < 0x8000_0000_0000_0000
      && Wrap32((zeta * x - t * Q) / TWO32) == Twist(zeta, x) && -Q < Twist(zeta, x) < Q
  {
    TwiddleProduct(zeta, x);
    hide Wrap32, Twist;
  }

  lemma BlocksUnfold(n: nat, count: nat)
    ensures Blocks(n, count) == if n == 0 then 0 else 2 * count + Blocks(n - 1, count)
  {
  }

  /** The innermost loop of the forward copies; the reduction goes through the local t2. */
  method InlinedBlock(p: array<int32>, start: nat, count: nat, k: nat) returns (j: nat)
    requires count > 0 && start + 2 * count <= p.Length && k < 256
    requires forall i :: start <= i < p.Length ==> -(0x7FFF_FFFF - Q) <= p[i] <= 0x7FFF_FFFF - Q
    modifies p
    ensures BlockDone(old(p[..]), p[..], start, count, k, false) && j == start + count
  {
    hide Zeta, Twist, Wrap32, BlockDone, PartDone;
    ghost var s: seq<int> := p[..];
    var zeta: int32 := ZetaInBounds(k);
    j := start;
    NothingDone(s, start, count, k, false);
    while j < start + count
      invariant start <= j <= start + count && PartDone(s, p[..], start, count, j, k, false)
    {
      ghost var r: seq<int> := p[..];
      Operands(s, r, start, count, j, k, false);
      InlinedReduction(zeta, s[j + count]);
      var a: int64 := zeta * p[j + count];
      var t2: int32 := Wrap32(Wrap32(a) * QINV);
      t2 := Wrap32((a - t2 * Q) / TWO32);
      var t: int32 := t2;
      p[j + count] := p[j] - t;
      p[j] := p[j] + t;
      PartStep(s, r, start, count, j, k, false, s[j] + t, s[j] - t);
      assert p[..] == r[j := s[j] + t][j + count := s[j] - t];
      j := j + 1;
    }
    PartIsBlock(s, p[..], start, count, k, false);
  }

  /** The innermost loop of the inverse copies, through the locals temp and t2. */
  method InlinedInvBlock(p: array<int32>, start: nat, count: nat, k: nat) returns (j: nat)
    requires count > 0 && start + 2 * count <= p.Length && k < 256
    requires forall i :: start <= i < p.Length ==> -0x3FFF_FFFF <= p[i] <= 0x3FFF_FFFF
    modifies p
    ensures BlockDone(old(p[..]), p[..], start, count, k, true) && j == start + count
  {
    hide Zeta, Twist, Wrap32, BlockDone, PartDone;
    ghost var s: seq<int> := p[..];
    var zeta: int32 := -ZetaInBounds(k);
    j := start;
    NothingDone(s, start, count, k, true);
    while j < start + count
      invariant start <= j <= start + count && PartDone(s, p[..], start, count, j, k, true)
    {
      ghost var r: seq<int> := p[..];
      Operands(s, r, start, count, j, k, true);
      var t: int32 := p[j];
      var temp: int32 := t + p[j + count];
      p[j] := temp;
      temp := t - p[j + count];
      p[j + count] := temp;
      InlinedReduction(zeta, temp);
      var a: int64 := zeta * p[j + count];
      var t2: int32 := Wrap32(Wrap32(a) * QINV);
      t2 := Wrap32((a - t2 * Q) / TWO32);
      p[j + count] := t2;
      PartStep(s, r, start, count, j, k, true, s[j] + s[j + count], t2);
      assert p[..] == r[j := s[j] + s[j + count]][j + count := t2];
      j := j + 1;
    }
    PartIsBlock(s, p[..], start, count, k, true);
  }

  /** poly_vec_k_ntt_volatile, poly_vec_l_ntt_volatile and poly_ntt_volatile, on the scratch polynomial. */
  method NttInlined(p: array<int32>)
    requires p.Length == 256 && Bounded(p[..], NTT_LIMIT)
    modifies p
    ensures p[..] == NttSpec(old(p[..]))
  {
    hide Layer, Blocks, Done, BlockDone, Forward, Pow2;
    ghost var s, l := p[..], 0;
    ForwardUnfold(s, 0);
    var count, k := 128, 0;
    while count > 0
      invariant l <= 8 && count == (if l < 8 then Pow2(7 - l) else 0) && k == Pow2(l) - 1
      invariant p[..] == Forward(s, l)
      decreases count
    {
      ForwardRange(s, l, NTT_LIMIT);
      LayerShape(l);
      ForwardUnfold(s, l);
      ghost var b: int, left: nat := NTT_LIMIT + l * Q, Pow2(l);
      AllDone(p[..], count, k + 1, false);
      var start: nat := 0;
      while start < 256
        invariant start + Blocks(left, count) == 256 && k + left == 2 * Pow2(l) - 1
        invariant start <= 256 && Done(p[..], start, count, k + 1, false) == Forward(s, l + 1)
        invariant forall i :: start <= i < 256 ==> -b <= p[i] <= b
        decreases left
      {
        ghost var before := p[..];
        BlocksUnfold(left, count);
        k := k + 1;
        var j := InlinedBlock(p, start, count, k);
        LayerStep(before, p[..], start, count, k, false, b);
        start := j + count;
        left := left - 1;
      }
      BlocksUnfold(left, count);
      AllDone(p[..], count, k + 1, false);
      count := count / 2;
      l := l + 1;
    }
  }

  /** poly_vec_k_inv_ntt_to_mont_volatile and poly_vec_l_inv_ntt_to_mont_volatile, on the scratch polynomial. */
  method InvNttInlined(p: array<int32>)
    requires p.Length == 256 && Bounded(p[..], Q)
    modifies p
    ensures p[..] == InvNttSpec(old(p[..]))
  {
    hide Layer, Blocks, Done, BlockDone, Backward, Pow2, Scaled;
    ghost var s, m := p[..], 0;
    BackwardUnfold(s, 0);
    var count: nat, k: int := 1, 256;
    while count < 256
      invariant m <= 8 && count == Pow2(m) && k == Pow2(8 - m)
      invariant p[..] == Backward(s, m)
      decreases 8 - m
    {
      LayerWidth(m);
      assert m < 8;
      BackwardRange(s, m);
      LayerShape(7 - m);
      BackwardUnfold(s, m);
      ghost var b: int, left: nat := Pow2(m) * Q, Pow2(7 - m);
      AllDone(p[..], count, k - 1, true);
      var start: nat := 0;
      while start < 256
        invariant start + Blocks(left, count) == 256 && k == left + Pow2(7 - m)
        invariant start <= 256 && Done(p[..], start, count, k - 1, true) == Backward(s, m + 1)
        invariant forall i :: start <= i < 256 ==> -b <= p[i] <= b
        decreases left
      {
        ghost var before := p[..];
        BlocksUnfold(left, count);
        k := k - 1;
        var j := InlinedInvBlock(p, start, count, k);
        LayerStep(before, p[..], start, count, k, true, b);
        start := j + count;
        left := left - 1;
      }
      BlocksUnfold(left, count);
      AllDone(p[..], count, k - 1, true);
      count := 2 * count;
      m := m + 1;
    }
    LayerWidth(m);
    BackwardRange(s, 8);
    ScaleInlined(p);
  }

  /** The last loop of the inverse copies, through the local t3. */
  method ScaleInlined(p: array<int32>)
    requires Bounded(p[..], 256 * Q)
    modifies p
    ensures p[..] == Scaled(old(p[..]))
  {
    hide Mont, Wrap32;
    ghost var s: seq<int> := p[..];
    for j := 0 to p.Length
      invariant forall i {:trigger p[i]} :: 0 <= i < j ==> p[i] == Scaled(s)[i]
      invariant forall i {:trigger p[i]} :: j <= i < p.Length ==> p[i] == s[i]
    {
      InlinedReduction(INV_FACTOR, p[j]);
      var a: int64 := INV_FACTOR * p[j];
      var t3: int32 := Wrap32(Wrap32(a) * QINV);
      t3 := Wrap32((a - t3 * Q) / TWO32);
      p[j] := t3;
    }
  }
}
