/** combined_method: the matrix is sampled entry by entry and multiplied into one polynomial per row. */
module MatrixProduct {
  import opened Words
  import opened Modular
  import opened Reduce
  import opened Transform
  import opened Vectors
  import opened Sampling

  const K: nat := 8
  const L: nat := 7

  /** The stream from which matrix entry (i, j) is sampled: the seed and the two nonce bytes. */
  function EntryStream(x: Xof, rho: seq<byte>, i: nat, j: nat): Stream
    requires i < K && j < L
  {
    Output(x, rho + [j, i])
  }

  /** n candidates suffice for every matrix entry. */
  ghost predicate Supplied(x: Xof, rho: seq<byte>, n: nat) {
    forall i, j :: 0 <= i < K && 0 <= j < L ==> |Accepted(MatrixEntry(EntryStream(x, rho, i, j)), n)| >= 256
  }

  ghost function Entry(x: Xof, rho: seq<byte>, n: nat, i: nat, j: nat): Poly
    requires Supplied(x, rho, n) && i < K && j < L
  {
    First256(MatrixEntry(EntryStream(x, rho, i, j)), n)
  }

  /** Row i of the matrix, in the transform domain: ExpandA of section 7.3 of FIPS 204. */
  ghost function Row(x: Xof, rho: seq<byte>, n: nat, i: nat): (r: Vec)
    requires Supplied(x, rho, n) && i < K
    ensures |r| == L
  {
    seq(L, j requires 0 <= j < L => Entry(x, rho, n, i, j))
  }

  ghost function Matrix(x: Xof, rho: seq<byte>, n: nat): (r: seq<Vec>)
    requires Supplied(x, rho, n)
    ensures |r| == K && forall i :: 0 <= i < K ==> |r[i]| == L
  {
    seq(K, i requires 0 <= i < K => Row(x, rho, n, i))
  }

  /** The first n terms of a row times a vector, added from left to right: poly_vec_l_pointwise_acc_montgomery. */
  ghost function Acc(a: Vec, v: Vec, n: nat): Poly
    requires 0 < n <= |a| && n <= |v|
  {
    if n == 1 then Zip(Product, a[0], v[0]) else Zip(Plus, Acc(a, v, n - 1), Zip(Product, a[n - 1], v[n - 1]))
  }

  /** poly_vec_matrix_pointwise_montgomery: expand first, then multiply row by row. */
  ghost function MatVec(m: seq<Vec>, v: Vec): (r: Vec)
    requires |v| == L && forall i :: 0 <= i < |m| ==> |m[i]| == L
    ensures |r| == |m|
  {
    seq(|m|, i requires 0 <= i < |m| => Acc(m[i], v, L))
  }

  /** The coefficients of a matrix entry are canonical residues. */
  lemma EntryRange(x: Xof, rho: seq<byte>, n: nat, i: nat, j: nat)
    requires Supplied(x, rho, n) && i < K && j < L
    ensures forall k :: 0 <= k < 256 ==> 0 <= Entry(x, rho, n, i, j)[k] < Q
  {
    AcceptedInRange(EntryStream(x, rho, i, j), n);
  }

  /** A product with a canonical residue is within the Montgomery limit. */
  lemma EntryProduct(a: int, x: int32)
    requires 0 <= a < Q
    ensures Product.Domain(a, x) && -Q < Product.Apply(a, x) < Q
  {
    hide Mont;
    MulBound(a, x, Q - 1, 0x8000_0000);
    MontRange(a * x);
  }

  ghost predicate Canonical(v: Vec) {
    forall j, k :: 0 <= j < |v| && 0 <= k < 256 ==> 0 <= v[j][k] < Q
  }

  ghost predicate Word(v: Vec) {
    forall j, k :: 0 <= j < |v| && 0 <= k < 256 ==> -0x8000_0000 <= v[j][k] < 0x8000_0000
  }

  /** n terms sum to less than n*q in magnitude. */
  lemma {:induction false} AccRange(a: Vec, v: Vec, n: nat)
    requires 0 < n <= |a| && n <= |v| && Canonical(a) && Word(v)
    ensures Bounded(Acc(a, v, n), n * Q)
  {
    hide Mont;
    var z := Zip(Product, a[n - 1], v[n - 1]);
    forall k | 0 <= k < 256
      ensures -Q <= z[k] <= Q
    {
      EntryProduct(a[n - 1][k], v[n - 1][k]);
    }
    if n > 1 {
      AccRange(a, v, n - 1);
    }
  }

  /** The two inner loops of combined_method for one matrix entry: multiply, then assign or add. */
  method MultiplyInto(temp: array<int32>, entry: array<int32>, v: Poly32, add: bool, ghost b: int)
    requires temp.Length == entry.Length == 256 && temp != entry
    requires forall k :: 0 <= k < 256 ==> 0 <= entry[k] < Q
    requires add ==> Bounded(temp[..], b) && b <= 0x7FFF_FFFF - Q
    modifies temp
    ensures temp[..] ==
      if add then Zip(Plus, old(temp[..]), Zip(Product, old(entry[..]), v)) else Zip(Product, old(entry[..]), v)
  {
    hide Mont;
    if !add {
      for k := 0 to 256
        invariant forall m :: 0 <= m < k ==> temp[m] == Product.Apply(entry[m], v[m])
      {
        EntryProduct(entry[k], v[k]);
        temp[k] := ApplyBinary(Product, entry[k], v[k]);
      }
    } else {
      var t := new int32[256];
      for k := 0 to 256
        invariant forall m :: 0 <= m < k ==> t[m] == Product.Apply(entry[m], v[m]) && -Q < t[m] < Q
        modifies t
      {
        EntryProduct(entry[k], v[k]);
        t[k] := ApplyBinary(Product, entry[k], v[k]);
      }
      for k := 0 to 256
        invariant forall m :: 0 <= m < k ==> temp[m] == old(temp[m]) + t[m]
        invariant forall m :: k <= m < 256 ==> temp[m] == old(temp[m])
        modifies temp
      {
        assert -b <= old(temp[..])[k] <= b;
        temp[k] := temp[k] + t[k];
      }
    }
  }

  /** One row of combined_method: the running sum lives in out[i] and is read and written per column. */
  method CombinedRow(x: Xof, rho: seq<byte>, i: nat, out: array<Poly32>, v: array<Poly32>, temp: array<int32>,
                     buf: array<byte>, ghost n: nat)
    requires out.Length == K && v.Length == L && out != v && i < K && Supplied(x, rho, n)
    requires temp.Length == 256 && buf.Length == 850
    modifies out, temp, buf
    ensures out[..] == old(out[..])[i := Acc(Row(x, rho, n, i), v[..], L)]
  {
    hide Acc, First256, Accepted;
    ghost var a, before := Row(x, rho, n, i), out[..];
    var entry := new int32[256];
    for j := 0 to L
      invariant fresh(entry) && entry.Length == 256
      invariant forall k :: 0 <= k < K && k != i ==> out[k] == before[k]
      invariant j > 0 ==> out[i] == Acc(a, v[..], j)
    {
      assert |Accepted(MatrixEntry(EntryStream(x, rho, i, j)), n)| >= 256;
      SampleUniform(EntryStream(x, rho, i, j), entry, buf, n);
      EntryRange(x, rho, n, i, j);
      assert entry[..] == a[j];
      assert forall k :: 0 <= k < 256 ==> entry[k] == a[j][k];
      Load(out[i], temp);
      if j > 0 {
        RowCanonical(x, rho, n, i);
        AccRange(a, v[..], j);
      }
      MultiplyInto(temp, entry, v[j], j != 0, L * Q);
      out[i] := temp[..];
      AccUnfold(a, v[..], j);
    }
  }

  lemma RowCanonical(x: Xof, rho: seq<byte>, n: nat, i: nat)
    requires Supplied(x, rho, n) && i < K
    ensures Canonical(Row(x, rho, n, i))
  {
    hide First256, Accepted;
    forall j | 0 <= j < L
      ensures forall k :: 0 <= k < 256 ==> 0 <= Row(x, rho, n, i)[j][k] < Q
    {
      EntryRange(x, rho, n, i, j);
    }
  }

  lemma AccUnfold(a: Vec, v: Vec, j: nat)
    requires j < |a| && j < |v|
    ensures Acc(a, v, j + 1) ==
      if j == 0 then Zip(Product, a[0], v[0]) else Zip(Plus, Acc(a, v, j), Zip(Product, a[j], v[j]))
  {
  }

  /** combined_method computes what expanding the whole matrix and then multiplying computes. */
  method CombinedMethod(x: Xof, rho: seq<byte>, out: array<Poly32>, v: array<Poly32>, temp: array<int32>,
                        buf: array<byte>, ghost n: nat)
    requires out.Length == K && v.Length == L && out != v && Supplied(x, rho, n)
    requires temp.Length == 256 && buf.Length == 850
    modifies out, temp, buf
    ensures out[..] == MatVec(Matrix(x, rho, n), v[..])
    ensures VBounded(out[..], L * Q)
  {
    hide Acc, First256, Accepted, Supplied;
    ghost var vs := v[..];
    for i := 0 to K
      invariant v[..] == vs
      invariant forall k :: 0 <= k < i ==> out[k] == Acc(Row(x, rho, n, k), vs, L) && Bounded(out[k], L * Q)
    {
      CombinedRow(x, rho, i, out, v, temp, buf, n);
      RowCanonical(x, rho, n, i);
      AccRange(Row(x, rho, n, i), vs, L);
    }
  }
}
