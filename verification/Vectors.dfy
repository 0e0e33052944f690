/**
  Elementwise operations on polynomials and vectors of polynomials.  The C code has one loop per
  operation (poly.c, polyvec.c and the *_volatile functions of sign.c); here the loop bodies are the
  values of two enumerations, so that one loop and one specification serve all of them.
 */
module Vectors {
  import opened Words
  import opened Modular
  import opened Reduce
  import opened Transform
  import opened Inlined
  import opened Rounding

  /** A polynomial as mathematics sees it, and as a Poly structure holds it. */
  type Poly = s: seq<int> | |s| == 256 witness seq(256, _ => 0)
  type Poly32 = s: seq<int32> | |s| == 256 witness seq(256, _ => 0)
  type Vec = seq<Poly>

  /** Loop bodies that read one coefficient. */
  datatype Unary = Reduction | AddQ | ShiftLeft | RoundHigh | RoundLow | DecomposeHigh | DecomposeLow {
    function Apply(x: int): int {
      match this
      case Reduction => Reduce32(x)
      case AddQ => x + And(U32(x / TWO31), Q)
      case ShiftLeft => x * 0x2000
      case RoundHigh => Power2Round(x).0
      case RoundLow => Power2Round(x).1
      case DecomposeHigh => Decompose(x).0
      case DecomposeLow => Decompose(x).1
    }

    /** The arguments on which no step of the loop body overflows or leaves its domain. */
    predicate Domain(x: int) {
      match this
      case Reduction => -0x8000_0000 <= x <= REDUCE_MAX
      case AddQ => -0x8000_0000 <= x < 0x8000_0000
      case ShiftLeft => -0x2_0000 <= x < 0x2_0000
      case _ => 0 <= x < Q
    }
  }

  /** Loop bodies that read two coefficients. */
  datatype Binary = Plus | Minus | Product | Hint | ApplyHint {
    function Apply(x: int, y: int): int {
      match this
      case Plus => x + y
      case Minus => x - y
      case Product => Mont(x * y)
      case Hint => MakeHint(x, y)
      case ApplyHint => UseHint(x, y)
    }

    predicate Domain(x: int, y: int) {
      match this
      case Plus => -0x8000_0000 <= x + y < 0x8000_0000
      case Minus => -0x8000_0000 <= x - y < 0x8000_0000
      case Product => -MONT_LIMIT <= x * y < MONT_LIMIT
      case Hint => -0x4000_0000 <= x <= 0x4000_0000 && 0 <= y < 16
      case ApplyHint => 0 <= x < Q && 0 <= y <= 1
    }
  }

  function Map(op: Unary, p: Poly): Poly {
    seq(256, i requires 0 <= i < 256 => op.Apply(p[i]))
  }

  function Zip(op: Binary, p: Poly, r: Poly): Poly {
    seq(256, i requires 0 <= i < 256 => op.Apply(p[i], r[i]))
  }

  function VMap(op: Unary, v: Vec): (r: Vec)
    ensures |r| == |v|
  {
    seq(|v|, i requires 0 <= i < |v| => Map(op, v[i]))
  }

  function VZip(op: Binary, u: Vec, v: Vec): (r: Vec)
    requires |u| == |v|
    ensures |r| == |u|
  {
    seq(|u|, i requires 0 <= i < |u| => Zip(op, u[i], v[i]))
  }

  /** One polynomial multiplied with every entry of a vector, in the transform domain. */
  function VBy(a: Poly, v: Vec): (r: Vec)
    ensures |r| == |v|
  {
    seq(|v|, i requires 0 <= i < |v| => Zip(Product, a, v[i]))
  }

  function VNtt(v: Vec): (r: Vec)
    ensures |r| == |v|
  {
    seq(|v|, i requires 0 <= i < |v| => NttSpec(v[i]))
  }

  function VInvNtt(v: Vec): (r: Vec)
    ensures |r| == |v|
  {
    seq(|v|, i requires 0 <= i < |v| => InvNttSpec(v[i]))
  }

  ghost predicate VBounded(v: Vec, b: int) {
    forall i :: 0 <= i < |v| ==> Bounded(v[i], b)
  }

  ghost predicate VDomain(op: Unary, v: Vec) {
    forall i, j :: 0 <= i < |v| && 0 <= j < 256 ==> op.Domain(v[i][j])
  }

  ghost predicate VDomain2(op: Binary, u: Vec, v: Vec) {
    |u| == |v| && forall i, j :: 0 <= i < |v| && 0 <= j < 256 ==> op.Domain(u[i][j], v[i][j])
  }

  // ------------------------------------------------------------------ the loop bodies

  /** One loop body, every intermediate value in a 32-bit variable. */
  method ApplyUnary(op: Unary, x: int32) returns (r: int32)
    requires op.Domain(x)
    ensures r == op.Apply(x)
  {
    hide And;
    match op {
      case Reduction =>
        var t: int32 := x + 0x40_0000;
        t := t / 0x80_0000;
        var u: int32 := t * Q;
        r := x - u;
      case AddQ =>
        CAddQValue(x);
        var mask: uint32 := U32(x / TWO31);
        AndAtMost(mask, Q);
        var u: int32 := And(mask, Q);
        r := x + u;
      case ShiftLeft =>
        r := x * 0x2000;
      case RoundHigh =>
        var t: int32 := x + 0x1000 - 1;
        r := t / 0x2000;
      case RoundLow =>
        var t: int32 := x + 0x1000 - 1;
        t := t / 0x2000;
        var u: int32 := t * 0x2000;
        r := x - u;
      case DecomposeHigh =>
        r := HighPart(x);
      case DecomposeLow =>
        var a1 := HighPart(x);
        var u: int32 := a1 * 2 * GAMMA2;
        var a0: int32 := x - u;
        var d: int32 := (Q - 1) / 2 - a0;
        var mask: uint32 := U32(d / TWO31);
        AndAtMost(mask, Q);
        var m: int32 := And(mask, Q);
        r := a0 - m;
    }
  }

  method HighPart(x: int32) returns (r: int32)
    requires 0 <= x < Q
    ensures r == Decompose(x).0 && 0 <= r < 16
  {
    var b: int32 := x + 127;
    b := b / 128;
    var c: int32 := b * 1025;
    c := c + 0x20_0000;
    c := c / 0x40_0000;
    r := c % 16;
  }

  /** One loop body; a product is formed in 64 bits. */
  method ApplyBinary(op: Binary, x: int32, y: int32) returns (r: int32)
    requires op.Domain(x, y)
    ensures r == op.Apply(x, y)
  {
    match op {
      case Plus => r := x + y;
      case Minus => r := x - y;
      case Product =>
        var a: int64 := x * y;
        MontRange(a);
        r := MontgomeryReduce(a);
      case Hint =>
        MakeHintMeaning(x, y);
        r := MakeHint(x, y);
      case ApplyHint =>
        UseHintMeaning(x, y);
        DecomposeCorrect(x);
        r := UseHint(x, y);
    }
  }

  lemma {:induction false} AndAtMost(a: nat, b: nat)
    ensures And(a, b) <= b
    decreases a
  {
    if a != 0 && b != 0 {
      AndAtMost(a / 2, b / 2);
    }
  }

  // ------------------------------------------------------------------ the loops over a vector

  /**
    A *_volatile function with a one-argument loop body: each result is built in the scratch
    polynomial and then written to out, which may be v itself.
   */
  method MapVec(op: Unary, out: array<Poly32>, v: array<Poly32>, scratch: array<int32>)
    requires out.Length == v.Length && scratch.Length == 256 && VDomain(op, v[..])
    modifies out, scratch
    ensures out[..] == VMap(op, old(v[..]))
  {
    for i := 0 to v.Length
      invariant forall k :: 0 <= k < i ==> out[k] == Map(op, old(v[k]))
      invariant forall k :: i <= k < v.Length ==> v[k] == old(v[k])
    {
      assert forall m :: 0 <= m < 256 ==> op.Domain(old(v[..])[i][m]);
      for j := 0 to 256
        invariant forall m :: 0 <= m < j ==> scratch[m] == op.Apply(v[i][m])
        modifies scratch
      {
        scratch[j] := ApplyUnary(op, v[i][j]);
      }
      out[i] := scratch[..];
    }
  }

  /** A *_volatile function with a two-argument loop body; out may be u or v. */
  method ZipVec(op: Binary, out: array<Poly32>, u: array<Poly32>, v: array<Poly32>, scratch: array<int32>)
    requires out.Length == u.Length == v.Length && scratch.Length == 256 && VDomain2(op, u[..], v[..])
    modifies out, scratch
    ensures out[..] == VZip(op, old(u[..]), old(v[..]))
  {
    for i := 0 to v.Length
      invariant forall k :: 0 <= k < i ==> out[k] == Zip(op, old(u[k]), old(v[k]))
      invariant forall k :: i <= k < v.Length ==> u[k] == old(u[k]) && v[k] == old(v[k])
    {
      assert forall m :: 0 <= m < 256 ==> op.Domain(old(u[..])[i][m], old(v[..])[i][m]);
      for j := 0 to 256
        invariant forall m :: 0 <= m < j ==> scratch[m] == op.Apply(u[i][m], v[i][m])
        modifies scratch
      {
        scratch[j] := ApplyBinary(op, u[i][j], v[i][j]);
      }
      out[i] := scratch[..];
    }
  }

  /** poly_vec_*_pointwise_poly_montgomery_volatile: r may be v. */
  method ByPolyVec(r: array<Poly32>, a: Poly32, v: array<Poly32>, scratch: array<int32>)
    requires r.Length == v.Length && scratch.Length == 256
    requires forall i, j :: 0 <= i < v.Length && 0 <= j < 256 ==> Product.Domain(a[j], v[i][j])
    modifies r, scratch
    ensures r[..] == VBy(a, old(v[..]))
  {
    for i := 0 to v.Length
      invariant forall k :: 0 <= k < i ==> r[k] == Zip(Product, a, old(v[k]))
      invariant forall k :: i <= k < v.Length ==> v[k] == old(v[k])
    {
      for j := 0 to 256
        invariant forall m :: 0 <= m < j ==> scratch[m] == Product.Apply(a[m], v[i][m])
        modifies scratch
      {
        assert Product.Domain(a[j], old(v[i])[j]);
        scratch[j] := ApplyBinary(Product, a[j], v[i][j]);
      }
      r[i] := scratch[..];
    }
  }

  /** Load a polynomial into RAM: the memmove that opens each *_volatile loop. */
  method Load(p: Poly32, scratch: array<int32>)
    requires scratch.Length == 256
    modifies scratch
    ensures scratch[..] == p
  {
    for j := 0 to 256
      invariant scratch[..j] == p[..j]
    {
      scratch[j] := p[j];
    }
  }

  /** poly_vec_l_ntt and poly_vec_k_ntt of polyvec.c, which call the transform of ntt.c. */
  method NttVec(v: array<Poly32>, scratch: array<int32>)
    requires scratch.Length == 256 && VBounded(v[..], NTT_LIMIT)
    modifies v, scratch
    ensures v[..] == VNtt(old(v[..]))
  {
    hide NttSpec;
    for i := 0 to v.Length
      invariant forall k :: 0 <= k < i ==> v[k] == NttSpec(old(v[k]))
      invariant forall k :: i <= k < v.Length ==> v[k] == old(v[k])
    {
      assert Bounded(old(v[..])[i], NTT_LIMIT);
      Load(v[i], scratch);
      Ntt(scratch);
      v[i] := scratch[..];
    }
  }

  /** poly_vec_*_ntt_volatile, with the transform written out. */
  method NttVolatile(v: array<Poly32>, scratch: array<int32>)
    requires scratch.Length == 256 && VBounded(v[..], NTT_LIMIT)
    modifies v, scratch
    ensures v[..] == VNtt(old(v[..]))
  {
    hide NttSpec;
    for i := 0 to v.Length
      invariant forall k :: 0 <= k < i ==> v[k] == NttSpec(old(v[k]))
      invariant forall k :: i <= k < v.Length ==> v[k] == old(v[k])
    {
      assert Bounded(old(v[..])[i], NTT_LIMIT);
      Load(v[i], scratch);
      NttInlined(scratch);
      v[i] := scratch[..];
    }
  }

  /** poly_ntt_volatile: one polynomial, through the scratch polynomial. */
  method PolyNtt(p: array<int32>, scratch: array<int32>)
    requires p.Length == 256 && scratch.Length == 256 && p != scratch && Bounded(p[..], NTT_LIMIT)
    modifies p, scratch
    ensures p[..] == NttSpec(old(p[..]))
  {
    hide NttSpec;
    Load(p[..], scratch);
    NttInlined(scratch);
    ghost var r := scratch[..];
    for j := 0 to 256
      invariant scratch[..] == r && p[..j] == r[..j]
    {
      p[j] := scratch[j];
    }
  }

  /** poly_vec_*_inv_ntt_to_mont_volatile, with the transform written out. */
  method InvNttVolatile(v: array<Poly32>, scratch: array<int32>)
    requires scratch.Length == 256 && VBounded(v[..], Q)
    modifies v, scratch
    ensures v[..] == VInvNtt(old(v[..]))
  {
    hide InvNttSpec;
    for i := 0 to v.Length
      invariant forall k :: 0 <= k < i ==> v[k] == InvNttSpec(old(v[k]))
      invariant forall k :: i <= k < v.Length ==> v[k] == old(v[k])
    {
      assert Bounded(old(v[..])[i], Q);
      Load(v[i], scratch);
      InvNttInlined(scratch);
      v[i] := scratch[..];
    }
  }

  /**
    poly_vec_k_decompose_volatile: the low parts are written first, so that the high parts may
    overwrite the vector they are computed from.
   */
  method DecomposeVec(v1: array<Poly32>, v0: array<Poly32>, v: array<Poly32>, scratch: array<int32>)
    requires v1.Length == v0.Length == v.Length && scratch.Length == 256 && v0 != v && v0 != v1
    requires VDomain(DecomposeHigh, v[..])
    modifies v1, v0, scratch
    ensures v1[..] == VMap(DecomposeHigh, old(v[..])) && v0[..] == VMap(DecomposeLow, old(v[..]))
  {
    MapVec(DecomposeLow, v0, v, scratch);
    MapVec(DecomposeHigh, v1, v, scratch);
  }

  /** poly_vec_k_power2_round_volatile, in the same two passes. */
  method Power2RoundVec(v1: array<Poly32>, v0: array<Poly32>, v: array<Poly32>, scratch: array<int32>)
    requires v1.Length == v0.Length == v.Length && scratch.Length == 256 && v0 != v && v0 != v1
    requires VDomain(RoundHigh, v[..])
    modifies v1, v0, scratch
    ensures v1[..] == VMap(RoundHigh, old(v[..])) && v0[..] == VMap(RoundLow, old(v[..]))
  {
    MapVec(RoundLow, v0, v, scratch);
    MapVec(RoundHigh, v1, v, scratch);
  }
}
