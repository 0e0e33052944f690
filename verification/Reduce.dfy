/** Modular reductions of src/mldsa87/reduce.c. */
module Reduce {
  import opened Words
  import opened Modular

  // The code uses +q^-1 mod 2^32 here and subtracts t * q; the comment in constant.h has the sign wrong.
  const QINV: int := 58728449

  const MONT_LIMIT: int := 17996808470921216 // 2^31 * q

  // 2^-32 mod q: the factor by which a Montgomery reduction multiplies a residue.
  const RINV: int := 8265825

  /** The value of a Montgomery reduction, before the last cast. */
  function Mont(a: int): int {
    (a - Wrap32(Wrap32(a) * QINV) * Q) / TWO32
  }

  /** montgomery_reduce, with every cast of the C code. */
  function MontgomeryReduce(a: int64): int32 {
    var t: int32 := Wrap32(Wrap32(a) * QINV);
    var u: int64 := t * Q;
    Wrap32((a - u) / TWO32)
  }

  lemma MontExact(a: int)
    ensures Mont(a) * TWO32 == a - Wrap32(Wrap32(a) * QINV) * Q
  {
    var w: int := Wrap32(a);
    var m: int := Wrap32(w * QINV);
    var k, l := (m - w * QINV) / 0x1_0000_0000, (w - a) / 0x1_0000_0000;
    assert m == w * 58728449 + 0x1_0000_0000 * k && w == a + 0x1_0000_0000 * l;
    // QINV * q == 1 + 2^32 * 114592
    var x := -l - w * 114592 - k * 8380417;
    assert a - m * 8380417 == 0x1_0000_0000 * x;
    DivUnique(a - m * 8380417, 0x1_0000_0000, x, 0);
  }

  /** A reduction multiplies the residue by 2^-32, for every argument. */
  lemma MontCong(a: int)
    ensures Cong(Mont(a) * TWO32, a)
    ensures Cong(Mont(a), a * RINV)
  {
    MontExact(a);
    var m: int, t: int := Wrap32(Wrap32(a) * QINV), Mont(a);
    hide Mont, Wrap32, Cong;
    assert t * TWO32 - a == Q * (-m);
    CongByWitness(t * TWO32, a, -m);
    CongMul(t * TWO32, a, RINV, RINV) by { CongRefl(RINV); }
    RInverse(t);
    CongTrans(t, (t * TWO32) * RINV, a * RINV);
  }

  lemma RInverse(t: int)
    ensures Cong(t, (t * TWO32) * RINV)
  {
    // 2^32 * RINV == 1 + q * 4236238847
    CongByWitness(t, (t * TWO32) * RINV, -4236238847 * t);
  }

  /** Within the input limit the result is below q in magnitude, so the last cast loses nothing. */
  lemma MontRange(a: int64)
    requires -MONT_LIMIT <= a < MONT_LIMIT
    ensures -Q < Mont(a) < Q
    ensures MontgomeryReduce(a) == Mont(a)
  {
    MontExact(a);
  }

  /** For a small argument the result is little more than q/2 in magnitude. */
  lemma MontSmall(a: int, b: int)
    requires -b * TWO32 <= a <= b * TWO32
    ensures -(Q / 2 + 1) - b <= Mont(a) <= Q / 2 + 1 + b
  {
    MontExact(a);
  }

  /** reduce_32, with the shift as a floor division. */
  function Reduce32(a: int): int {
    a - ((a + 0x40_0000) / 0x80_0000) * Q
  }

  /** The largest argument whose rounding addition does not overflow. */
  const REDUCE_MAX: int := 2143289343 // 2^31 - 1 - 2^22

  /** What reduce_32 promises: the same residue, in [-6283009, 6283008]. */
  lemma Reduce32Correct(a: int32)
    requires a <= REDUCE_MAX
    ensures Cong(Reduce32(a), a)
    ensures -6283009 <= Reduce32(a) <= 6283008
  {
    var t := (a + 0x40_0000) / 0x80_0000;
    assert -256 <= t <= 255;
    CongByWitness(Reduce32(a), a, -t);
  }

  /** c_addq: adds q when the sign bit is set. */
  function CAddQ(a: int32): int {
    a + And(U32(a / TWO31), Q)
  }

  lemma CAddQValue(a: int32)
    ensures CAddQ(a) == if a < 0 then a + Q else a
  {
    hide And, Pow2;
    Pow2Values();
    AndZeroOnes(Q, 32);
    AndComm(Q, TWO32 - 1);
    AndComm(Q, 0);
    assert a / TWO31 == if a < 0 then -1 else 0;
  }

  /** c_addq lands in [0, q) for every argument of magnitude below q. */
  lemma CAddQCorrect(a: int32)
    requires -Q < a < Q
    ensures 0 <= CAddQ(a) < Q && Cong(CAddQ(a), a)
  {
    CAddQValue(a);
  }
}
