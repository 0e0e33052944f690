/** Rounding and hints of src/mldsa87/rounding.c against section 7.4 of FIPS 204. */
module Rounding {
  import opened Words
  import opened Modular

  const D: int := 13
  const GAMMA2: int := 261888 // (q - 1) / 32

  /** power2_round: the high part returned and the low part stored through a0. */
  function Power2Round(a: int): (r: (int, int)) {
    var a1 := (a + 0x1000 - 1) / 0x2000;
    (a1, a - a1 * 0x2000)
  }

  /** The centred remainder of section 2.3 of FIPS 204: the representative in (-m/2, m/2]. */
  function ModPm(a: int, m: int): int
    requires m > 0
  {
    if a % m > m / 2 then a % m - m else a % m
  }

  /** power2_round is Algorithm 35 of FIPS 204, with the ranges key generation and signing rely on. */
  lemma Power2RoundCorrect(a: int)
    requires 0 <= a < Q
    ensures var (a1, a0) := Power2Round(a);
      && a0 == ModPm(a, 0x2000) && a1 * 0x2000 + a0 == a
      && -0x1000 < a0 <= 0x1000 && 0 <= a1 < 1024
  {
  }

  /** The shift-and-multiply quotient of decompose. */
  function Quotient(a: int): int {
    var b := (a + 127) / 128;
    (b * 1025 + 0x20_0000) / 0x40_0000
  }

  /** decompose: the high part returned and the low part stored through a0. */
  function Decompose(a: int): (r: (int, int)) {
    var a1 := Quotient(a) % 16;
    var a0 := a - a1 * 2 * GAMMA2;
    (a1, a0 - And(U32(((Q - 1) / 2 - a0) / TWO31), Q))
  }

  /** The mask of decompose subtracts q exactly when a0 exceeds (q-1)/2. */
  lemma CentreMask(a0: int)
    requires -TWO31 < (Q - 1) / 2 - a0 < TWO31
    ensures And(U32(((Q - 1) / 2 - a0) / TWO31), Q) == if a0 > (Q - 1) / 2 then Q else 0
  {
    hide And, Pow2;
    Pow2Values();
    AndZeroOnes(Q, 32);
    AndComm(Q, TWO32 - 1);
    AndComm(Q, 0);
  }

  /** Algorithm 36 of FIPS 204. */
  function DecomposeSpec(a: int): (r: (int, int)) {
    var r0 := ModPm(a, 2 * GAMMA2);
    if a - r0 == Q - 1 then (0, r0 - 1) else ((a - r0) / (2 * GAMMA2), r0)
  }

  /** The quotient rounds a / (2 * GAMMA2) to the nearest integer, halves downwards. */
  lemma QuotientRounds(a: int, k: int)
    requires 0 <= k <= 16 && (2 * k - 1) * GAMMA2 < a <= (2 * k + 1) * GAMMA2
    ensures Quotient(a) == k
  {
    var b := (a + 127) / 128;
    assert (2 * k - 1) * 2046 < b <= (2 * k + 1) * 2046;
  }

  lemma CentredRemainder(a: int, m: int, k: int, r: int)
    requires m > 0 && m % 2 == 0 && a == m * k + r && -(m / 2) < r <= m / 2
    ensures ModPm(a, m) == r
  {
    if r >= 0 {
      DivUnique(a, m, k, r);
    } else {
      assert a == m * (k - 1) + (r + m);
      DivUnique(a, m, k - 1, r + m);
    }
  }

  /** The value of decompose, and of Algorithm 36, when a rounds to the multiple k. */
  lemma DecomposeValue(a: int, k: int)
    requires 0 <= k <= 16 && 0 <= a < Q && (2 * k - 1) * GAMMA2 < a <= (2 * k + 1) * GAMMA2
    ensures Decompose(a) == Rounded(a, k) && DecomposeSpec(a) == Rounded(a, k)
  {
    hide And, Quotient, ModPm;
    QuotientRounds(a, k);
    CentreMask(a - (k % 16) * 2 * GAMMA2);
    var r := a - k * 2 * GAMMA2;
    CentredRemainder(a, 2 * GAMMA2, k, r);
    DivUnique(a - r, 2 * GAMMA2, k, 0);
  }

  /** High and low part of a value that rounds to the multiple k; multiple 16 is q-1 and counts as 0. */
  function Rounded(a: int, k: int): (int, int) {
    if k == 16 then (0, a - Q) else (k, a - k * 2 * GAMMA2)
  }

  /** Every argument rounds to one of the multiples 0..16. */
  lemma Nearest(a: int) returns (k: int)
    requires 0 <= a < Q
    ensures 0 <= k <= 16 && (2 * k - 1) * GAMMA2 < a <= (2 * k + 1) * GAMMA2
  {
    k := (a + GAMMA2 - 1) / (2 * GAMMA2);
  }

  /** The shifts and multiplications of decompose are the exact centred division of FIPS 204. */
  lemma DecomposeCorrect(a: int)
    requires 0 <= a < Q
    ensures Decompose(a) == DecomposeSpec(a)
    ensures var (a1, a0) := Decompose(a);
      && 0 <= a1 < 16 && -GAMMA2 <= a0 <= GAMMA2
      && (a0 == -GAMMA2 ==> a1 == 0)
      && Cong(a1 * 2 * GAMMA2 + a0, a)
  {
    hide Decompose, DecomposeSpec;
    var k := Nearest(a);
    DecomposeValue(a, k);
  }

  // ------------------------------------------------------------------ hints

  /** The top bit of a 32-bit pattern: the shift (uint32_t) x >> 31. */
  function Sign(x: int): nat {
    U32(x) / TWO31
  }

  lemma SignValue(x: int32)
    ensures Sign(x) == if x < 0 then 1 else 0
  {
  }

  /** (uint32_t) (x | -x) >> 31. */
  function NonZero(x: int): nat {
    Or(U32(x), U32(-x)) / TWO31
  }

  lemma NonZeroValue(x: int)
    requires -TWO31 < x < TWO31
    ensures NonZero(x) == if x == 0 then 0 else 1
  {
    hide Or, Pow2;
    Pow2Values();
    OrLess(U32(x), U32(-x), 31);
    OrLess(U32(x), U32(-x), 32);
  }

  /** make_hint: branchless, on uint32_t values. */
  function MakeHint(a0: int, a1: int): nat {
    var gt, lt := Sign(GAMMA2 - a0), Sign(a0 + GAMMA2);
    var eq, nz := U32(1 - NonZero(a0 + GAMMA2)), NonZero(a1);
    And(Or(Or(gt, lt), And(eq, nz)), 1)
  }

  /** use_hint: the three candidate results are masked and combined. */
  function UseHint(a: int, hint: int): nat {
    hide Decompose, NonZero, And, Or;
    var (a1, a0) := Decompose(a);
    var up: int, down: int := (a1 + 1) % 16, (a1 - 1) % 16;
    var hintZero: int, positive: int := 1 - NonZero(hint), Sign(-a0);
    var maskZero, maskNz, maskPos := U32(-hintZero), U32(-(1 - hintZero)), U32(-positive);
    var notPos := U32(-1 - maskPos);
    Or(Or(And(U32(a1), maskZero), And(And(up, maskNz), maskPos)),
       And(And(down, maskNz), notPos))
  }

  lemma BitOps(a: nat, b: nat)
    requires a <= 1 && b <= 1
    ensures Or(a, b) == (if a == 1 || b == 1 then 1 else 0) && And(a, b) == (if a == 1 && b == 1 then 1 else 0)
  {
    OrStep(a, b);
  }

  /** What make_hint decides, without masks. */
  lemma MakeHintMeaning(a0: int32, a1: int32)
    requires -TWO31 + GAMMA2 < a0 < TWO31 - GAMMA2 && -TWO31 < a1
    ensures MakeHint(a0, a1) == if a0 > GAMMA2 || a0 < -GAMMA2 || (a0 == -GAMMA2 && a1 != 0) then 1 else 0
  {
    hide Or, And, NonZero;
    NonZeroValue(a0 + GAMMA2);
    NonZeroValue(a1);
    var gt, lt := Sign(GAMMA2 - a0), Sign(a0 + GAMMA2);
    var eq, nz := U32(1 - NonZero(a0 + GAMMA2)), NonZero(a1);
    BitOps(gt, lt);
    BitOps(eq, nz);
    BitOps(Or(gt, lt), And(eq, nz));
    BitOps(Or(Or(gt, lt), And(eq, nz)), 1);
  }

  lemma Masked(x: nat)
    requires x < TWO32
    ensures And(x, 0) == 0 && And(x, TWO32 - 1) == x && Or(x, 0) == x && Or(0, x) == x
  {
    hide Pow2;
    Pow2Values();
    AndZeroOnes(x, 32);
  }

  /** What use_hint returns, without masks: Algorithm 40 of FIPS 204. */
  lemma UseHintMeaning(a: int, hint: int32)
    requires 0 <= a < Q && -TWO31 < hint
    ensures var (a1, a0) := Decompose(a);
      UseHint(a, hint) == if hint == 0 then a1 else if a0 > 0 then (a1 + 1) % 16 else (a1 - 1) % 16
  {
    hide Or, And, NonZero, Decompose, Sign;
    DecomposeCorrect(a);
    var (a1, a0) := Decompose(a);
    NonZeroValue(hint);
    SignValue(-a0);
    Masked(a1);
    Masked((a1 + 1) % 16);
    Masked((a1 - 1) % 16);
    Masked(0);
  }

  lemma HintedHigh(u: int, hint: int32, a1: int, k: int)
    requires 0 <= u < Q && 0 <= k <= 16 && (2 * k - 1) * GAMMA2 < u <= (2 * k + 1) * GAMMA2
    requires var (h, l) := Rounded(u, k);
      || (hint == 0 && h == a1)
      || (hint == 1 && l > 0 && (if h == 15 then a1 == 0 else a1 == h + 1))
      || (hint == 1 && l <= 0 && (if h == 0 then a1 == 15 else a1 == h - 1))
    ensures UseHint(u, hint) == a1 && (hint == 1 <==> Decompose(u).0 != a1)
  {
    hide UseHint, Decompose, DecomposeSpec;
    DecomposeValue(u, k);
    UseHintMeaning(u, hint);
  }

  /**
    Hint recovery.  A value with high part a1 is displaced so that its low part becomes a0, anywhere in
    (-2*GAMMA2, 2*GAMMA2].  The hint says whether the high part moved, and undoes the move.
   */
  lemma HintRecovery(a0: int, a1: int)
    requires 0 <= a1 < 16 && -2 * GAMMA2 < a0 <= 2 * GAMMA2
    ensures var u := (a1 * 2 * GAMMA2 + a0) % Q;
      && UseHint(u, MakeHint(a0, a1)) == a1
      && (MakeHint(a0, a1) == 1 <==> Decompose(u).0 != a1)
  {
    hide MakeHint, UseHint, Decompose;
    var v := a1 * 2 * GAMMA2 + a0;
    MakeHintMeaning(a0, a1);
    var h := MakeHint(a0, a1);
    if v < 0 {
      DivUnique(v, Q, -1, v + Q);
      HintedHigh(v + Q, h, a1, if a0 < -GAMMA2 then 15 else 16);
    } else {
      DivUnique(v, Q, 0, v);
      if a0 > GAMMA2 {
        HintedHigh(v, h, a1, a1 + 1);
      } else if a0 < -GAMMA2 || (a0 == -GAMMA2 && a1 != 0) {
        HintedHigh(v, h, a1, a1 - 1);
      } else {
        HintedHigh(v, h, a1, a1);
      }
    }
  }
}
