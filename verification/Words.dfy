/**
  Machine words of the C code, modelled on mathematical integers.

  A C variable of a fixed width is a variable of one of the subset types below, so the verifier
  checks at every assignment that the value stored fits: a successful proof of a method that works
  on `int32` and `int64` variables is a proof that none of its arithmetic overflows.  A cast that
  truncates is written out with `Wrap32`, an arithmetic shift right by k is division by 2^k (rounding
  towards minus infinity), a shift left is multiplication, and a mask with 2^k - 1 is a remainder.
 */
module Words {

  const TWO31: int := 0x8000_0000
  const TWO32: int := 0x1_0000_0000

  type int32 = x: int | -0x8000_0000 <= x < 0x8000_0000
  type int64 = x: int | -0x8000_0000_0000_0000 <= x < 0x8000_0000_0000_0000
  type uint32 = x: int | 0 <= x < 0x1_0000_0000
  type uint64 = x: int | 0 <= x < 0x1_0000_0000_0000_0000
  type byte = x: int | 0 <= x < 256

  /** The two's-complement bit pattern of a 32-bit word, as a natural number. */
  function U32(x: int): (u: uint32) {
    x % 0x1_0000_0000
  }

  /** The cast (int32_t) of a wider integer. */
  function Wrap32(x: int): (r: int32)
    ensures (r - x) % 0x1_0000_0000 == 0
  {
    var u := x % 0x1_0000_0000;
    if u < 0x8000_0000 then u else u - 0x1_0000_0000
  }

  /** Bitwise or of two bit patterns. */
  function Or(a: nat, b: nat): nat {
    if a == 0 then b
    else if b == 0 then a
    else 2 * Or(a / 2, b / 2) + (if a % 2 == 1 || b % 2 == 1 then 1 else 0)
  }

  /** Bitwise and of two bit patterns. */
  function And(a: nat, b: nat): nat {
    if a == 0 || b == 0 then 0
    else 2 * And(a / 2, b / 2) + (if a % 2 == 1 && b % 2 == 1 then 1 else 0)
  }

  function Pow2(k: nat): (p: nat)
    ensures p > 0
  {
    if k == 0 then 1 else 2 * Pow2(k - 1)
  }

  /** A left shift. */
  function Shl(x: nat, k: nat): (r: nat)
    ensures r == x * Pow2(k)
  {
    MulMono(Pow2(k), 0, x);
    x * Pow2(k)
  }

  /** One step of `Or`, also when an operand is zero. */
  lemma OrStep(a: nat, b: nat)
    ensures Or(a, b) == 2 * Or(a / 2, b / 2) + (if a % 2 == 1 || b % 2 == 1 then 1 else 0)
  {
    if a == 0 && b == 0 {
    } else if a == 0 {
      assert Or(0, b / 2) == b / 2;
    } else if b == 0 {
      assert Or(a / 2, 0) == a / 2;
    }
  }

  /** An or of operands that share no bit position is a sum. */
  lemma {:induction false} OrDisjoint(a: nat, b: nat, k: nat)
    requires a < Pow2(k)
    ensures Or(a, b * Pow2(k)) == a + b * Pow2(k)
    ensures Or(b * Pow2(k), a) == a + b * Pow2(k)
    decreases k
  {
    var c := b * Pow2(k);
    if k > 0 {
      var d := b * Pow2(k - 1);
      assert c == 2 * d;
      OrStep(a, c);
      OrStep(c, a);
      OrDisjoint(a / 2, b, k - 1);
    } else {
      assert a == 0;
    }
  }

  lemma OrAtLeast(a: nat, b: nat)
    ensures Or(a, b) >= a && Or(a, b) >= b
  {
  }

  /** An or has a bit at position k or above exactly when an operand does. */
  lemma {:induction false} OrLess(a: nat, b: nat, k: nat)
    ensures Or(a, b) < Pow2(k) <==> a < Pow2(k) && b < Pow2(k)
    decreases k
  {
    OrStep(a, b);
    if k > 0 {
      OrLess(a / 2, b / 2, k - 1);
    } else {
      OrAtLeast(a, b);
    }
  }

  /** Quotient and remainder are determined by the division equation. */
  lemma DivUnique(x: int, m: int, d: int, r: int)
    requires m > 0 && x == m * d + r && 0 <= r < m
    ensures x / m == d && x % m == r
  {
    var e, s := x / m, x % m;
    DivMod(x, m);
    if d < e {
      MulGap(m, d, e);
    } else if e < d {
      MulGap(m, e, d);
    }
  }

  lemma DivMod(x: int, m: int)
    requires m > 0
    ensures x == m * (x / m) + x % m && 0 <= x % m < m
  {
  }

  lemma MulMono(m: int, x: int, y: int)
    requires m >= 0 && x <= y
    ensures m * x <= m * y
  {
  }

  /** A product is bounded by the product of the bounds. */
  lemma MulBound(x: int, y: int, a: int, b: int)
    requires -a <= x <= a && -b <= y <= b
    ensures -(a * b) <= x * y <= a * b
  {
    var p, q := if x < 0 then -x else x, if y < 0 then -y else y;
    MulMono(p, q, b);
    MulMono(b, p, a);
    assert p * q == x * y || p * q == -(x * y);
  }

  lemma MulGap(m: int, d: int, e: int)
    requires m > 0 && d < e
    ensures m * d + m <= m * e
  {
    assert m * (e - d - 1) >= 0;
    assert m * (e - d - 1) == m * e - m * d - m;
  }

  /** A factor may be taken out of a product. */
  lemma MulAssoc(c: int, x: int, y: int)
    ensures (c * x) * y == c * (x * y)
  {
  }

  lemma Pow2Step(k: nat)
    ensures Pow2(0) == 1 && Pow2(k + 1) == 2 * Pow2(k)
  {
  }

  lemma {:induction false} Pow2Sum(a: nat, b: nat)
    ensures Pow2(a + b) == Pow2(a) * Pow2(b)
  {
    hide Pow2;
    if a > 0 {
      Pow2Sum(a - 1, b);
      Pow2Step(a - 1);
      Pow2Step(a - 1 + b);
      MulAssoc(2, Pow2(a - 1), Pow2(b));
    } else {
      Pow2Step(0);
    }
  }

  /** The powers that count the bits of a byte. */
  lemma Pow2Small(k: nat)
    requires k <= 8
    ensures Pow2(k) == if k == 0 then 1 else if k == 1 then 2 else if k == 2 then 4 else if k == 3 then 8
      else if k == 4 then 16 else if k == 5 then 32 else if k == 6 then 64 else if k == 7 then 128 else 256
  {
    hide Pow2;
    Pow2Values();
  }

  lemma Pow2Values()
    ensures Pow2(0) == 1 && Pow2(1) == 2 && Pow2(2) == 4 && Pow2(3) == 8
    ensures Pow2(4) == 16 && Pow2(5) == 32 && Pow2(6) == 64 && Pow2(7) == 128
    ensures Pow2(8) == 256 && Pow2(16) == 0x1_0000
    ensures Pow2(31) == TWO31 && Pow2(32) == TWO32
  {
    assert Pow2(8) == 256;
    assert Pow2(16) == 0x1_0000;
    assert Pow2(24) == 0x100_0000;
  }

  lemma {:induction false} AndZeroOnes(x: nat, k: nat)
    requires x < Pow2(k)
    ensures And(x, 0) == 0
    ensures And(x, Pow2(k) - 1) == x
    decreases k
  {
    if x != 0 && k > 0 {
      var m := Pow2(k) - 1;
      assert m % 2 == 1 && m / 2 == Pow2(k - 1) - 1;
      AndZeroOnes(x / 2, k - 1);
    }
  }

  /** And is commutative. */
  lemma AndComm(a: nat, b: nat)
    ensures And(a, b) == And(b, a)
  {
  }

  /** The low bits of a number are those of its lowest digit. */
  lemma LowBit(x: nat, v: nat, w: nat, p: nat)
    requires p < w
    ensures (x + Pow2(w) * v) / Pow2(p) % 2 == x / Pow2(p) % 2
  {
    hide Pow2;
    var a, m := Pow2(p), Pow2(w - p - 1);
    Pow2Sum(p, w - p);
    Pow2Step(w - p - 1);
    EvenRest(x, v, a, 2 * m, m);
  }

  lemma EvenRest(x: nat, v: nat, a: nat, b: nat, m: nat)
    requires a > 0 && b == 2 * m
    ensures (x + (a * b) * v) / a % 2 == x / a % 2
  {
    var d, y := x / a, m * v;
    DivMod(x, a);
    MulAssoc(a, b, v);
    MulAssoc(2, m, v);
    assert a * (d + 2 * y) == a * d + a * (2 * y);
    DivUnique(x + (a * b) * v, a, d + 2 * y, x % a);
    EvenAdded(d, y);
  }

  lemma EvenAdded(d: nat, y: nat)
    ensures (d + 2 * y) % 2 == d % 2
  {
  }

  /** The high bits are those of the rest. */
  lemma HighBit(x: nat, v: nat, w: nat, p: nat)
    requires w <= p && x < Pow2(w)
    ensures (x + Pow2(w) * v) / Pow2(p) == v / Pow2(p - w)
  {
    hide Pow2;
    var a, m := Pow2(w), Pow2(p - w);
    Pow2Sum(w, p - w);
    var d, r := v / m, v % m;
    DivMod(v, m);
    assert a * v == Pow2(p) * d + a * r by {
      assert a * (m * d + r) == a * (m * d) + a * r;
      MulAssoc(a, m, d);
    }
    MulMono(a, r, m - 1);
    assert a * (m - 1) == a * m - a;
    DivUnique(x + a * v, Pow2(p), d, a * r + x);
  }
}
