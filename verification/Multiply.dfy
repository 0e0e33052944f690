/** The schoolbook product of tx_format.c, and the amounts that the review screen shows. */
module Multiply {
  import opened Words
  import opened Rlp
  import opened RlpDecoder
  import opened Decimal
  import opened Formatting

  /** The number that limbs write in base 256; a limb may exceed 255. */
  function Val(s: seq<uint32>): nat {
    if s == [] then 0 else Val(s[..|s| - 1]) * 256 + s[|s| - 1]
  }

  lemma {:induction false} ValBig(s: seq<uint32>, b: seq<byte>)
    requires |s| == |b| && forall i :: 0 <= i < |s| ==> s[i] == b[i]
    ensures Val(s) == Big(b)
  {
    if s != [] {
      ValBig(s[..|s| - 1], b[..|b| - 1]);
    }
  }

  lemma {:induction false} ValZeros(s: seq<uint32>)
    requires forall i :: 0 <= i < |s| ==> s[i] == 0
    ensures Val(s) == 0
  {
    if s != [] {
      ValZeros(s[..|s| - 1]);
    }
  }

  /** Adding x to limb k adds x * 256^(number of lower limbs). */
  lemma {:induction false} ValUpdate(s: seq<uint32>, k: nat, x: int)
    requires k < |s| && 0 <= s[k] + x < 0x1_0000_0000
    ensures Val(s[k := s[k] + x]) == Val(s) + x * Pow256(|s| - 1 - k)
    decreases |s|
  {
    var t, n := s[k := s[k] + x], |s| - 1;
    if k == n {
      assert t[..n] == s[..n];
      assert Pow256(0) == 1;
    } else {
      assert t[..n] == s[..n][k := s[k] + x];
      ValUpdate(s[..n], k, x);
      ScaleUp(x, n - 1 - k);
    }
  }

  lemma ScaleUp(x: int, k: nat)
    ensures (x * Pow256(k)) * 256 == x * Pow256(k + 1)
  {
  }

  /** A carry out of limb i + 1 keeps the number. */
  lemma Carry(s: seq<uint32>, i: nat, c: int, r: int)
    requires i + 1 < |s| && s[i + 1] == 256 * c + r && 0 <= r < 256 && 0 <= s[i] + c < 0x1_0000_0000
    ensures Val(s[i := s[i] + c][i + 1 := r]) == Val(s)
  {
    hide Val, Pow256;
    var t := s[i := s[i] + c];
    var x: int := s[i + 1];
    ValUpdate(s, i, c);
    ValUpdate(t, i + 1, r - x);
    ScaleUp(c, |s| - 2 - i);
    var p := Pow256(|s| - 2 - i);
    assert (r - x) * p == -((c * p) * 256) by {
      assert r - x == -(256 * c);
    }
  }

  /** The lower bytes of a number. */
  lemma {:induction false} BigCons(b: byte, s: seq<byte>)
    ensures Big([b] + s) == b * Pow256(|s|) + Big(s)
  {
    if s == [] {
      assert [b] + s == [b];
      assert [b][..0] == [];
      assert Big([b]) == b;
    } else {
      var t := s[..|s| - 1];
      BigCons(b, t);
      assert ([b] + s)[..|s|] == [b] + t;
      ScaleUp(b, |t|);
    }
  }

  /** The highest limb of a number below 256^n fits a byte when the lower ones do. */
  lemma {:induction false} TopLimb(s: seq<uint32>)
    requires |s| > 0 && Val(s) < Pow256(|s|)
    ensures s[0] < 256
    decreases |s|
  {
    if |s| > 1 {
      TopLimb(s[..|s| - 1]);
    }
  }

  /** The shortest bytes of a product; a single zero for 0. */
  function ProductBytes(n: nat): (r: seq<byte>)
    ensures |r| > 0
  {
    if n == 0 then [0] else BigOfMinimal(n); Minimal(n)
  }

  /** Removing leading zeros gives the shortest bytes. */
  lemma {:induction false} Significant(s: seq<byte>, first: nat)
    requires first < |s| && (forall i :: 0 <= i < first ==> s[i] == 0)
    requires first + 1 < |s| ==> s[first] != 0
    ensures s[first..] == ProductBytes(Big(s))
  {
    LeadingZeroBytes(s, first);
    var t := s[first..];
    if t == [0] {
      assert Big(t) == 0 by {
        assert t[..0] == [];
      }
    } else {
      MinimalOfBig(t);
    }
  }

  lemma {:induction false} LeadingZeroBytes(s: seq<byte>, first: nat)
    requires first <= |s| && forall i :: 0 <= i < first ==> s[i] == 0
    ensures Big(s) == Big(s[first..])
    decreases |s|
  {
    if first == |s| {
      BigZero(s);
      assert s[first..] == [];
    } else {
      LeadingZeroBytes(s[..|s| - 1], first);
      assert s[first..][..|s| - first - 1] == s[..|s| - 1][first..];
    }
  }

  /** The accumulation loops: a product term for every pair of bytes. */
  method Accumulate(a: array<byte>, aLen: nat, b: array<byte>, bLen: nat, accum: array<uint32>)
    requires aLen <= a.Length && bLen <= b.Length && 0 < aLen + bLen <= accum.Length == MAX_BYTES
    requires forall k :: 0 <= k < MAX_BYTES ==> accum[k] == 0
    requires a as object != accum && b as object != accum
    modifies accum
    ensures Val(accum[..aLen + bLen]) == Big(a[..aLen]) * Big(b[..bLen])
    ensures forall k :: 0 <= k < aLen + bLen ==> accum[k] <= 65025 * MAX_BYTES
  {
    hide Big, Val, Row;
    ghost var x, y := a[..aLen], b[..bLen];
    ValZeros(accum[..aLen + bLen]);
    EmptyProduct(x, y);
    for i := 0 to aLen
      invariant a[..aLen] == x && b[..bLen] == y
      invariant Val(accum[..aLen + bLen]) == Big(x[aLen - i..]) * Big(y)
      invariant forall k :: 0 <= k < aLen + bLen ==> accum[k] <= 65025 * i
    {
      EmptyRow(x, y, i);
      AccumulateRow(a, aLen, b, bLen, accum, i, x, y);
      RowDone(x, y, i);
    }
    assert x[0..] == x;
  }

  method AccumulateRow(a: array<byte>, aLen: nat, b: array<byte>, bLen: nat, accum: array<uint32>, i: nat,
                       ghost x: seq<byte>, ghost y: seq<byte>)
    requires i < aLen <= a.Length && bLen <= b.Length && aLen + bLen <= accum.Length == MAX_BYTES
    requires a as object != accum && b as object != accum && a[..aLen] == x && b[..bLen] == y
    requires Val(accum[..aLen + bLen]) == Row(x, y, i, 0)
    requires forall k :: 0 <= k < aLen + bLen ==> accum[k] <= 65025 * i
    modifies accum
    ensures Val(accum[..aLen + bLen]) == Row(x, y, i, bLen)
    ensures forall k :: 0 <= k < aLen + bLen ==> accum[k] <= 65025 * (i + 1)
  {
    hide Big, Val, Row, Pow256;
    var full := aLen + bLen;
    for j := 0 to bLen
      invariant a[..aLen] == x && b[..bLen] == y
      invariant Val(accum[..full]) == Row(x, y, i, j)
      invariant forall k :: 0 <= k < full - i - j ==> accum[k] <= 65025 * i
      invariant forall k :: full - i - j <= k < full ==> accum[k] <= 65025 * (i + 1)
    {
      var k := full - 1 - i - j;
      ghost var before := accum[..full];
      var d: uint32, e: uint32 := a[aLen - 1 - i], b[bLen - 1 - j];
      MulBound(d, e, 255, 255);
      var term: uint32 := d * e;
      accum[k] := accum[k] + term;
      assert accum[..full] == before[k := before[k] + term];
      ValUpdate(before, k, term);
      RowStep(x, y, i, j);
    }
  }

  /** The sum after i complete rows and j terms of the next. */
  ghost function Row(x: seq<byte>, y: seq<byte>, i: nat, j: nat): int
    requires i < |x| && j <= |y|
  {
    var d: int := x[|x| - 1 - i];
    Big(x[|x| - i..]) * Big(y) + (d * Pow256(i)) * Big(y[|y| - j..])
  }

  lemma EmptyProduct(x: seq<byte>, y: seq<byte>)
    ensures Big(x[|x|..]) * Big(y) == 0
  {
    assert x[|x|..] == [];
  }

  lemma EmptyRow(x: seq<byte>, y: seq<byte>, i: nat)
    requires i < |x|
    ensures Row(x, y, i, 0) == Big(x[|x| - i..]) * Big(y)
  {
    assert y[|y|..] == [];
  }

  lemma RowStep(x: seq<byte>, y: seq<byte>, i: nat, j: nat)
    requires i < |x| && j < |y|
    ensures var d: int, e: int := x[|x| - 1 - i], y[|y| - 1 - j];
      Row(x, y, i, j + 1) == Row(x, y, i, j) + (d * e) * Pow256(i + j)
  {
    hide Big, Pow256;
    var d: int, e: int, r := x[|x| - 1 - i], y[|y| - 1 - j], y[|y| - j..];
    assert y[|y| - 1 - j..] == [e] + r;
    BigCons(e, r);
    Pow256Sum(i, j);
    var p, q, v := Pow256(i), Pow256(j), Big(r);
    RowAlgebra(d, e, p, q, v);
  }

  lemma RowAlgebra(d: int, e: int, p: int, q: int, v: int)
    ensures (d * p) * (e * q + v) == (d * p) * v + (d * e) * (p * q)
  {
    assert (d * p) * (e * q) == (d * e) * (p * q);
  }

  lemma RowDone(x: seq<byte>, y: seq<byte>, i: nat)
    requires i < |x|
    ensures Row(x, y, i, |y|) == Big(x[|x| - 1 - i..]) * Big(y)
  {
    hide Big, Pow256;
    var d, r := x[|x| - 1 - i], x[|x| - i..];
    assert x[|x| - 1 - i..] == [d] + r;
    BigCons(d, r);
    assert y[0..] == y;
    var p, v, w := Pow256(i), Big(r), Big(y);
    assert (d * p + v) * w == v * w + (d * p) * w;
  }

  /** The carry loop: afterwards every limb but the highest is a byte, and the number is kept. */
  method PropagateCarries(accum: array<uint32>, full: nat)
    requires 0 < full <= accum.Length
    requires forall k :: 0 <= k < full ==> accum[k] <= 65025 * MAX_BYTES
    modifies accum
    ensures Val(accum[..full]) == Val(old(accum[..full]))
    ensures forall k :: 1 <= k < full ==> accum[k] < 256
  {
    hide Val;
    var i := full - 1;
    while i > 0
      invariant 0 <= i < full && Val(accum[..full]) == Val(old(accum[..full]))
      invariant forall k :: 0 <= k < i ==> accum[k] <= 65025 * MAX_BYTES
      invariant accum[i] <= 66025 * MAX_BYTES
      invariant forall k :: i < k < full ==> accum[k] < 256
    {
      ghost var before := accum[..full];
      Carry(before, i - 1, before[i] / 256, before[i] % 256);
      accum[i - 1] := accum[i - 1] + accum[i] / 256;
      accum[i] := accum[i] % 256;
      assert accum[..full] == before[i - 1 := before[i - 1] + before[i] / 256][i := before[i] % 256];
      i := i - 1;
    }
  }

  /** multiply_uint8_arrays: the shortest bytes of the product, unless they do not fit. */
  method MultiplyBytes(a: array<byte>, aLen: nat, b: array<byte>, bLen: nat, out: array<byte>, outLen: nat)
    returns (ok: bool, newLen: nat)
    requires aLen <= a.Length && bLen <= b.Length && outLen <= out.Length && out != a && out != b
    modifies out
    ensures ok <==> aLen + bLen <= MAX_BYTES && |ProductBytes(Big(a[..aLen]) * Big(b[..bLen]))| <= outLen
    ensures ok ==> newLen <= outLen && out[..newLen] == ProductBytes(Big(a[..aLen]) * Big(b[..bLen]))
  {
    hide Big, Val, Pow256, ProductBytes;
    newLen := outLen;
    if aLen + bLen > MAX_BYTES {
      return false, newLen;
    }
    var accum := new uint32[MAX_BYTES](_ => 0);
    var full := aLen + bLen;
    if full == 0 {
      NothingTimes(a[..aLen], b[..bLen]);
      if outLen < 1 {
        return false, newLen;
      }
      out[0] := 0;
      newLen := 1;
      assert out[..1] == [0];
      return true, newLen;
    }
    ghost var product := Big(a[..aLen]) * Big(b[..bLen]);
    ProductBound(a[..aLen], b[..bLen]);
    Accumulate(a, aLen, b, bLen, accum);
    PropagateCarries(accum, full);
    TopLimb(accum[..full]);
    var first := 0;
    while first + 1 < full && accum[first] == 0
      invariant first < full && forall k :: 0 <= k < first ==> accum[k] == 0
    {
      first := first + 1;
    }
    var significant := full - first;
    ghost var limbs := Limbs(accum[..full]);
    ValBig(accum[..full], limbs);
    Significant(limbs, first);
    if significant > outLen {
      return false, newLen;
    }
    for i := 0 to significant
      invariant forall k :: 0 <= k < i ==> out[k] == limbs[first + k]
      modifies out
    {
      assert limbs[first + i] == accum[first + i];
      out[i] := accum[first + i];
    }
    newLen := significant;
    assert out[..newLen] == limbs[first..];
    ok := true;
  }

  /** Limbs that are bytes, as bytes. */
  ghost function Limbs(s: seq<uint32>): (b: seq<byte>)
    requires forall i :: 0 <= i < |s| ==> s[i] < 256
    ensures |b| == |s| && forall i :: 0 <= i < |s| ==> b[i] == s[i]
  {
    seq(|s|, i requires 0 <= i < |s| => s[i])
  }

  lemma NothingTimes(a: seq<byte>, b: seq<byte>)
    requires a == [] && b == []
    ensures ProductBytes(Big(a) * Big(b)) == [0]
  {
  }

  lemma ProductBound(a: seq<byte>, b: seq<byte>)
    ensures Big(a) * Big(b) < Pow256(|a| + |b|)
  {
    hide Big, Pow256;
    BigBound(a);
    BigBound(b);
    Pow256Sum(|a|, |b|);
    BelowProduct(Big(a), Big(b), Pow256(|a|), Pow256(|b|));
  }

  lemma BelowProduct(x: int, y: int, p: int, q: int)
    requires 0 <= x < p && 0 <= y < q
    ensures x * y < p * q
  {
    MulMono(x, y, q);
    MulGap(q, x, p);
    assert x * q == q * x && p * q == q * p;
  }

  // ------------------------------------------------------------------ the review screen

  /** The value of a field. */
  function FieldNumber(items: seq<Item>, i: nat): nat
    requires i < |items|
  {
    Big(items[i].data)
  }

  /** The text for an amount in units of 10^-18. */
  function AmountText(n: nat): string {
    WithDecimals(Dec(n), QRL_DECIMALS)
  }

  lemma ProductFits(a: seq<byte>, b: seq<byte>)
    requires |a| <= 32 && |b| <= 8
    ensures |ProductBytes(Big(a) * Big(b))| <= MAX_BYTES
    ensures Big(ProductBytes(Big(a) * Big(b))) == Big(a) * Big(b)
  {
    hide Big, Pow256, Minimal;
    var n := Big(a) * Big(b);
    ProductBound(a, b);
    Pow256Grows(|a| + |b|, MAX_BYTES);
    MinimalLength(n, MAX_BYTES);
    BigOfMinimal(n);
    ZeroByte();
  }

  lemma ZeroByte()
    ensures Big([0]) == 0
  {
    assert [0][..0] == [];
  }

  /**
    The "Max fees" text of the review screen.  For every accepted transaction it is produced, and it
    denotes exactly gas_fee_cap * gas / 10^18.
   */
  method MaxFees(tx: ZondTx, maxFees: array<char>, ghost items: seq<Item>) returns (ok: bool)
    requires tx.Valid() && |items| == FIELDS && tx.Holds(items) && WellFormed(items)
    requires maxFees.Length == MAX_AMOUNT
    modifies maxFees
    ensures ok && Shows(maxFees[..], AmountText(FieldNumber(items, 3) * FieldNumber(items, 4)))
    ensures Denotes(AmountText(FieldNumber(items, 3) * FieldNumber(items, 4)),
                    FieldNumber(items, 3) * FieldNumber(items, 4), QRL_DECIMALS)
  {
    hide Big, Dec, ProductBytes, Shows, Denotes, Pointed, WithDecimals;
    assert FieldOk(CHAIN_ID + 3, items[3]) && FieldOk(CHAIN_ID + 4, items[4]);
    var feeProduct := new byte[MAX_BYTES];
    var len;
    ProductFits(items[3].data, items[4].data);
    ok, len := MultiplyBytes(tx.gasFeeCap, tx.gasFeeCapLen, tx.gas, tx.gasLen, feeProduct, MAX_BYTES);
    AmountFits(feeProduct[..len]);
    ok := FormatQrlAmount(feeProduct, len, maxFees, MAX_AMOUNT);
  }

  /** An amount field of an accepted transaction: value or gas_tip_cap. */
  method AmountField(field: array<byte>, len: nat, out: array<char>, ghost it: Item) returns (ok: bool)
    requires len <= field.Length <= 32 && field[..len] == it.data && out.Length == MAX_AMOUNT
    modifies out
    ensures ok && Shows(out[..], AmountText(Big(it.data)))
    ensures Denotes(AmountText(Big(it.data)), Big(it.data), QRL_DECIMALS)
  {
    hide Big, Dec, Shows, Denotes, Pointed, WithDecimals;
    AmountFits(field[..len]);
    ok := FormatQrlAmount(field, len, out, MAX_AMOUNT);
  }

  /** A plain number: the chain id in 98 characters, the nonce or the gas limit in 21. */
  method NumberField(field: array<byte>, len: nat, out: array<char>, ghost it: Item) returns (ok: bool)
    requires len <= field.Length && field[..len] == it.data
    requires (field.Length == 32 && out.Length == MAX_DIGITS + 1) || (field.Length == 8 && out.Length == 21)
    modifies out
    ensures ok && Shows(out[..], Dec(Big(it.data)))
  {
    hide Big, Dec, Shows;
    DigitsFit(field[..len]);
    ok := ToDecimal(field, len, out, out.Length);
  }
}
