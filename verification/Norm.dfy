/** poly_chk_norm of poly.c and its vector forms in polyvec.c. */
module Norm {
  import opened Words
  import opened Modular
  import opened Reduce
  import opened Rounding
  import opened Vectors

  /** (q - 1) / 8: no larger bound is ever satisfied. */
  const MAX_BOUND: int := 1047552

  ghost predicate Below(p: Poly, b: int) {
    forall i :: 0 <= i < 256 ==> -b < p[i] < b
  }

  ghost predicate VBelow(v: Vec, b: int) {
    forall i :: 0 <= i < |v| ==> Below(v[i], b)
  }

  /** The absolute value, as a - (a >> 31 & 2 * a). */
  function AbsValue(a: int32): int {
    a - Wrap32(And(U32(a / TWO31), U32(2 * a)))
  }

  lemma AbsMeaning(a: int32)
    requires -0x4000_0000 <= a < 0x4000_0000
    ensures AbsValue(a) == if a < 0 then -a else a
  {
    hide And, Pow2;
    Pow2Values();
    assert a / TWO31 == if a < 0 then -1 else 0;
    var b: int := 2 * a;
    AndZeroOnes(U32(b), 32);
    AndComm(U32(b), TWO32 - 1);
    AndComm(U32(b), 0);
  }

  /** poly_chk_norm: no branch depends on a coefficient. */
  method ChkNorm(p: Poly32, b: int32) returns (r: int32)
    requires b >= 0 && Below(p, 0x4000_0000)
    ensures r == 0 || r == 1
    ensures r == 0 <==> b <= MAX_BOUND && Below(p, b)
  {
    hide And, Or, AbsValue, Sign;
    if b > MAX_BOUND {
      return 1;
    }
    var violation: nat := 0;
    for i := 0 to 256
      invariant violation <= 1
      invariant violation == 0 <==> forall k :: 0 <= k < i ==> -b < p[k] < b
    {
      AbsMeaning(p[i]);
      var t: int32 := AbsValue(p[i]);
      var d: int32 := t - b;
      SignValue(d);
      var v := 1 - Sign(d);
      BitOps(violation, v);
      violation := Or(violation, v);
    }
    r := violation;
  }

  /** poly_vec_l_chk_norm and poly_vec_k_chk_norm. */
  method VChkNorm(v: array<Poly32>, b: int32) returns (r: int32)
    requires b >= 0 && VBelow(v[..], 0x4000_0000)
    ensures r == 0 || r == 1
    ensures r == 0 <==> v.Length == 0 || (b <= MAX_BOUND && VBelow(v[..], b))
  {
    hide Below;
    for i := 0 to v.Length
      invariant i > 0 ==> b <= MAX_BOUND
      invariant forall k :: 0 <= k < i ==> Below(v[k], b)
    {
      assert Below(v[..][i], 0x4000_0000);
      var err := ChkNorm(v[i], b);
      if err != 0 {
        assert !Below(v[..][i], b) || b > MAX_BOUND;
        return 1;
      }
    }
    r := 0;
  }

  /**
    reduce_32 does not return the centred residue, but for every bound up to (q - 1) / 8 the check
    cannot tell the difference.
   */
  lemma NormOfResidue(x: int32, b: int)
    requires x <= REDUCE_MAX && 0 <= b <= MAX_BOUND
    ensures -b < Reduce32(x) < b <==> -b < ModPm(x, Q) < b
  {
    hide Reduce32, ModPm;
    Reduce32Correct(x);
    var v := Reduce32(x);
    var k := CongWitness(v, x);
    if -4190208 <= v <= 4190208 {
      CentredOdd(x, -k, v);
    } else if v > 0 {
      CentredOdd(x, 1 - k, v - Q);
    } else {
      CentredOdd(x, -1 - k, v + Q);
    }
  }

  lemma CentredOdd(x: int, k: int, r: int)
    requires x == Q * k + r && -4190208 <= r <= 4190208
    ensures ModPm(x, Q) == r
  {
    if r >= 0 {
      DivUnique(x, Q, k, r);
    } else {
      DivUnique(x, Q, k - 1, r + Q);
    }
  }
}
