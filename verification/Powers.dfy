/** Powers and polynomial evaluation over the integers. */
module Powers {
  import opened Modular

  function Pow(b: int, e: nat): int {
    if e == 0 then 1 else b * Pow(b, e - 1)
  }

  lemma PowOne(b: int)
    ensures Pow(b, 1) == b
  {
  }

  lemma PowStep(b: int, e: nat)
    ensures Pow(b, 0) == 1 && Pow(b, e + 1) == b * Pow(b, e)
  {
  }

  lemma {:induction false} PowSum(b: int, e: nat, f: nat)
    ensures Pow(b, e + f) == Pow(b, e) * Pow(b, f)
  {
    if e > 0 {
      PowSum(b, e - 1, f);
      var x, y := Pow(b, e - 1), Pow(b, f);
      assert b * (x * y) == (b * x) * y;
    }
  }

  lemma {:induction false} CongPow(a: int, b: int, e: nat)
    requires Cong(a, b)
    ensures Cong(Pow(a, e), Pow(b, e))
  {
    if e > 0 {
      CongPow(a, b, e - 1);
      CongMul(a, b, Pow(a, e - 1), Pow(b, e - 1));
    }
  }

  /** Doubling an exponent squares the power. */
  lemma PowDouble(b: int, e: nat)
    ensures Pow(b, 2 * e) == Pow(b, e) * Pow(b, e)
  {
    PowSum(b, e, e);
  }
}
