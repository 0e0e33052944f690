/**
  The algebra of the twiddle factors.  Entry k of the table is the Montgomery form of Zeta^BitRev8(k)
  of section 7.5 of FIPS 204, and the laws that the transforms need follow from exponents alone.
 */
module Zetas {
  import opened Words
  import opened Modular
  import opened Powers
  import opened ZetaTable

  /** The 512-th root of unity of section 2.5 of FIPS 204. */
  const GENERATOR: int := 1753

  /** The n low bits of k in reverse order: BitRev8(k) of section 7.1 of FIPS 204 is Brv(k, 8). */
  function Brv(k: nat, n: nat): nat {
    if n == 0 then 0 else (k % 2) * Pow2(n - 1) + Brv(k / 2, n - 1)
  }

  /** The power of the root of unity that entry k stands for. */
  ghost function W(k: nat): int {
    Pow(GENERATOR, Brv(k, 8))
  }

  lemma {:induction false} BrvZero(n: nat)
    ensures Brv(0, n) == 0
  {
    if n > 0 {
      BrvZero(n - 1);
    }
  }

  lemma {:induction false} BrvTop(l: nat, b: nat, n: nat)
    requires l < n && b < Pow2(l)
    ensures Brv(Pow2(l) + b, n) == Pow2(n - 1 - l) + Brv(b, n)
    decreases l
  {
    hide Pow2;
    Pow2Step(0);
    if l == 0 {
      BrvZero(n - 1);
    } else {
      Pow2Step(l - 1);
      var k := Pow2(l) + b;
      assert k / 2 == Pow2(l - 1) + b / 2 && k % 2 == b % 2;
      BrvTop(l - 1, b / 2, n - 1);
    }
  }

  /** A number below 2^n has nothing to contribute to a reversal of more than n bits but a shift. */
  lemma {:induction false} BrvDouble(k: nat, n: nat)
    requires k < Pow2(n)
    ensures Brv(k, n + 1) == 2 * Brv(k, n)
  {
    hide Pow2;
    Pow2Step(0);
    if n > 0 {
      Pow2Step(n - 1);
      BrvDouble(k / 2, n - 1);
    }
  }

  lemma StepSquare(l: nat)
    requires l < 7
    ensures Cong(Step(l + 1) * Step(l + 1), Step(l))
  {
    assert Cong(3765607 * 3765607, 4808194) && Cong(5178923 * 5178923, 3765607) && Cong(7778734 * 7778734, 5178923);
    assert Cong(5010068 * 5010068, 7778734) && Cong(3602218 * 3602218, 5010068) && Cong(3073009 * 3073009, 3602218);
    assert Cong(1753 * 1753, 3073009);
    hide Cong;
  }

  lemma StepPower(l: nat)
    requires l < 8
    ensures Cong(Pow(GENERATOR, Pow2(7 - l)), Step(l))
    decreases 7 - l
  {
    hide Pow, Step, Cong;
    if l == 7 {
      PowOne(GENERATOR);
      LastStep();
    } else {
      StepPower(l + 1);
      var p := Pow(GENERATOR, Pow2(6 - l));
      PowDouble(GENERATOR, Pow2(6 - l));
      CongMul(p, Step(l + 1), p, Step(l + 1));
      StepSquare(l);
      CongTrans(p * p, Step(l + 1) * Step(l + 1), Step(l));
    }
  }

  lemma LastStep()
    ensures Cong(GENERATOR, Step(7))
    ensures Cong(Step(0) * Step(0), -1)
  {
  }

  lemma MinusOne()
    ensures Cong(Pow(GENERATOR, 256), -1)
  {
    hide Pow, Step, Cong;
    StepPower(0);
    Pow2Values();
    PowDouble(GENERATOR, 128);
    var p := Pow(GENERATOR, 128);
    CongMul(p, Step(0), p, Step(0));
    LastStep();
    CongTrans(p * p, Step(0) * Step(0), -1);
  }

  /** The position of the leading bit. */
  lemma Leading(k: nat) returns (l: nat)
    requires 1 <= k < 256
    ensures l < 8 && Pow2(l) <= k < 2 * Pow2(l)
  {
    Pow2Values();
    l := if k < 2 then 0 else if k < 4 then 1 else if k < 8 then 2 else if k < 16 then 3
         else if k < 32 then 4 else if k < 64 then 5 else if k < 128 then 6 else 7;
  }

  lemma CongChain(z: int, s: int, p: int, lo: int, c: int, w: int)
    requires Cong(z, s * lo) && Cong(p, s) && Cong(lo, c * w)
    ensures Cong(z, c * (p * w))
  {
    CongMul(s, p, lo, c * w) by { CongSym(p, s); }
    assert p * (c * w) == c * (p * w);
    CongTrans(z, s * lo, c * (p * w));
  }

  lemma WTop(l: nat, b: nat)
    requires l < 8 && b < Pow2(l)
    ensures W(Pow2(l) + b) == Pow(GENERATOR, Pow2(7 - l)) * W(b)
  {
    hide Pow, Brv;
    BrvTop(l, b, 8);
    PowSum(GENERATOR, Pow2(7 - l), Brv(b, 8));
  }

  /** Entry k of the table is 2^32 * 1753^BitRev8(k) modulo q, and below q/2 in magnitude. */
  lemma {:induction false} TableMeaning(k: nat)
    requires 1 <= k < 256
    ensures Cong(Zeta(k), TWO32 * W(k))
    ensures -4190208 <= Zeta(k) <= 4190208
  {
    hide Zeta, W, Step, Cong;
    var l := Leading(k);
    var b := k - Pow2(l);
    TopBit(l, b);
    WTop(l, b);
    StepPower(l);
    if b == 0 {
      WZero();
    } else {
      TableMeaning(b);
    }
    CongChain(Zeta(k), Step(l), Pow(GENERATOR, Pow2(7 - l)), Lower(b), TWO32, W(b));
  }

  lemma WZero()
    ensures W(0) == 1 && Cong(TWO32, TWO32 * W(0))
  {
    BrvZero(8);
  }

  lemma BrvUnfold(k: nat)
    ensures Brv(k, 8) == (k % 2) * 128 + Brv(k / 2, 7)
  {
    Pow2Values();
  }

  lemma BrvChildren(k: nat)
    requires 1 <= k < 128
    ensures 2 * Brv(2 * k, 8) == Brv(k, 8) && 2 * Brv(2 * k + 1, 8) == 256 + Brv(k, 8)
  {
    hide Brv;
    Pow2Values();
    BrvDouble(k, 7);
    BrvUnfold(2 * k);
    BrvUnfold(2 * k + 1);
  }

  /** Z[2k]^2 = Z[k] and Z[2k+1]^2 = -Z[k], up to Montgomery factors. */
  lemma SquareLaw(k: nat)
    requires 1 <= k < 128
    ensures W(2 * k) * W(2 * k) == W(k)
    ensures Cong(W(2 * k + 1) * W(2 * k + 1), -W(k))
  {
    hide Pow, Cong, Brv;
    BrvChildren(k);
    PowDouble(GENERATOR, Brv(2 * k, 8));
    PowDouble(GENERATOR, Brv(2 * k + 1, 8));
    PowSum(GENERATOR, 256, Brv(k, 8));
    MinusOne();
    CongMul(Pow(GENERATOR, 256), -1, W(k), W(k)) by { CongRefl(W(k)); }
  }

  lemma SquareOfFirst()
    ensures Cong(W(1) * W(1), -1)
  {
    hide Pow;
    Pow2Values();
    BrvZero(7);
    assert Brv(1, 8) == 128;
    PowDouble(GENERATOR, 128);
    MinusOne();
  }

  lemma {:induction false} BrvMirror(l: nat, k: nat, n: nat)
    requires l < n && Pow2(l) <= k < 2 * Pow2(l)
    ensures 3 * Pow2(l) - 1 - k >= 0 && Brv(k, n) + Brv(3 * Pow2(l) - 1 - k, n) == Pow2(n)
    decreases l
  {
    var m := 3 * Pow2(l) - 1 - k;
    if l == 0 {
      BrvZero(n - 1);
    } else {
      BrvMirror(l - 1, k / 2, n - 1);
      assert m / 2 == 3 * Pow2(l - 1) - 1 - k / 2 && k % 2 + m % 2 == 1;
      var p := Pow2(n - 1);
      assert (k % 2) * p + (m % 2) * p == p;
    }
  }

  /** Z[2^l + b] * Z[2^(l+1) - 1 - b] = -1, up to Montgomery factors. */
  lemma MirrorLaw(l: nat, k: nat)
    requires l < 8 && Pow2(l) <= k < 2 * Pow2(l)
    ensures 1 <= 3 * Pow2(l) - 1 - k < 256
    ensures Cong(W(k) * W(3 * Pow2(l) - 1 - k), -1)
  {
    hide Pow, Brv;
    Pow2Values();
    Pow2Under8(l);
    BrvMirror(l, k, 8);
    PowSum(GENERATOR, Brv(k, 8), Brv(3 * Pow2(l) - 1 - k, 8));
    MinusOne();
  }

  /** Every entry is below q/2 in magnitude. */
  lemma ZetaBound(k: int)
    ensures -4190208 <= Zeta(k) <= 4190208
  {
    if 1 <= k < 256 {
      TableMeaning(k);
    }
  }
}
