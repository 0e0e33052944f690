/**
  Congruence modulo the ML-DSA prime q = 8380417.

  The C code keeps one of many representatives of each residue, so its meaning is stated with
  `Cong`.  The lemmas here are the only place where remainders by q are reasoned about.
 */
module Modular {

  const Q: int := 8380417

  ghost predicate Cong(a: int, b: int) {
    (a - b) % 8380417 == 0
  }

  /** Pointwise congruence of two polynomials. */
  ghost predicate CongSeq(a: seq<int>, b: seq<int>) {
    |a| == |b| && forall i :: 0 <= i < |a| ==> Cong(a[i], b[i])
  }

  lemma CongByWitness(a: int, b: int, k: int)
    requires a - b == Q * k
    ensures Cong(a, b)
  {
  }

  lemma CongWitness(a: int, b: int) returns (k: int)
    requires Cong(a, b)
    ensures a == b + Q * k
  {
    k := (a - b) / Q;
  }

  lemma CongRefl(a: int)
    ensures Cong(a, a)
  {
  }

  lemma CongSym(a: int, b: int)
    requires Cong(a, b)
    ensures Cong(b, a)
  {
  }

  lemma CongTrans(a: int, b: int, c: int)
    requires Cong(a, b) && Cong(b, c)
    ensures Cong(a, c)
  {
  }

  lemma CongAdd(a: int, b: int, c: int, d: int)
    requires Cong(a, b) && Cong(c, d)
    ensures Cong(a + c, b + d)
    ensures Cong(a - c, b - d)
  {
  }

  lemma CongMul(a: int, b: int, c: int, d: int)
    requires Cong(a, b) && Cong(c, d)
    ensures Cong(a * c, b * d)
  {
    var k := CongWitness(a, b);
    var l := CongWitness(c, d);
    assert a * c - b * d == Q * (k * c + b * l) by {
      assert a * c == b * c + Q * (k * c) by { assert (Q * k) * c == Q * (k * c); }
      assert b * c == b * d + Q * (b * l) by { assert b * (Q * l) == Q * (b * l); }
    }
    CongByWitness(a * c, b * d, k * c + b * l);
  }
}
