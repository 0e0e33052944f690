/**
  The layout of a signature, of a public key and of the packed high parts w1: pack_sig_volatile,
  unpack_sig_volatile, pack_pk_volatile and poly_vec_k_pack_w1_volatile of sign.c.
 */
module SignatureFormat {
  import opened Words
  import opened Vectors
  import opened MatrixProduct
  import opened Packing
  import opened HintCodec

  const CTILDE_BYTES: nat := 64
  const SEED_BYTES: nat := 32
  const Z_BYTES: nat := 4480 // L * POLY_Z_PACKED_BYTES
  const CRYPTO_BYTES: nat := 4627

  /** The packings of the polynomials of a vector, one after the other. */
  function PackVec(y: Layout, v: Vec): (r: seq<byte>)
    ensures |r| == Total(|v|, Size(y))
  {
    if v == [] then [] else PackVec(y, v[..|v| - 1]) + Pack(y, v[|v| - 1], Groups(y))
  }

  function UnpackVec(y: Layout, a: seq<byte>, n: nat): (v: Vec)
    requires |a| == Total(n, Size(y))
    ensures |v| == n
  {
    hide Size, Groups, Unpack;
    if n == 0 then []
    else
      var m := Total(n - 1, Size(y));
      UnpackVec(y, a[..m], n - 1) + [Unpack(y, a[m..], Groups(y))]
  }

  ghost predicate VLegal(y: Layout, v: Vec) {
    forall i :: 0 <= i < |v| ==> Legal(y, v[i])
  }

  lemma {:induction false} UnpackOfPackVec(y: Layout, v: Vec)
    requires VLegal(y, v)
    ensures UnpackVec(y, PackVec(y, v), |v|) == v
    decreases |v|
  {
    hide Pack, Unpack, Groups, Size, Legal, Layout.Bytes, Layout.Coeffs;
    if v != [] {
      var n, p := |v| - 1, PackVec(y, v);
      var m := Total(n, Size(y));
      UnpackOfPackVec(y, v[..n]);
      UnpackOfPack(y, v[n], Groups(y));
      assert p[..m] == PackVec(y, v[..n]) && p[m..] == Pack(y, v[n], Groups(y));
      assert v == v[..n] + [v[n]];
    }
  }

  lemma {:induction false} PackOfUnpackVec(y: Layout, a: seq<byte>, n: nat)
    requires |a| == Total(n, Size(y))
    ensures VLegal(y, UnpackVec(y, a, n)) && PackVec(y, UnpackVec(y, a, n)) == a
    decreases n
  {
    hide Pack, Unpack, Groups, Size, Legal, Layout.Bytes, Layout.Coeffs, PackVec, UnpackVec;
    if n > 0 {
      var m := Total(n - 1, Size(y));
      var v, last := UnpackVec(y, a[..m], n - 1), Unpack(y, a[m..], Groups(y));
      UnpackVecStep(y, a, n);
      PackOfUnpackVec(y, a[..m], n - 1);
      PackOfUnpack(y, a[m..], Groups(y));
      PackVecAppend(y, v, last);
      assert a == a[..m] + a[m..];
    } else {
      NoVec(y);
    }
  }

  lemma UnpackVecStep(y: Layout, a: seq<byte>, n: nat)
    requires n > 0 && |a| == Total(n, Size(y))
    ensures var m := Total(n - 1, Size(y));
      m <= m + Size(y) == |a| && UnpackVec(y, a, n) == UnpackVec(y, a[..m], n - 1) + [Unpack(y, a[m..], Groups(y))]
  {
    hide Unpack, Groups, Size;
  }

  lemma PackVecAppend(y: Layout, v: Vec, p: Poly)
    ensures PackVec(y, v + [p]) == PackVec(y, v) + Pack(y, p, Groups(y))
  {
    hide Pack, Groups, Size;
    assert (v + [p])[..|v|] == v;
  }

  lemma NoVec(y: Layout)
    ensures PackVec(y, []) == [] && UnpackVec(y, [], 0) == []
  {
  }

  lemma Sizes()
    ensures Total(L, Size(ZLayout)) == Z_BYTES && Total(K, Size(T1Layout)) == 2560
    ensures Size(ZLayout) == 640 && Size(T1Layout) == 320
  {
    hide Total;
    TotalProduct(L, 640);
    TotalProduct(K, 320);
  }

  // ------------------------------------------------------------------ the signature

  ghost function Signature(c: seq<byte>, z: Vec, h: Vec): (r: seq<byte>)
    requires |c| == CTILDE_BYTES && |z| == L && |h| == K && |AllLists(h)| <= OMEGA
    ensures |r| == CRYPTO_BYTES
  {
    Sizes();
    c + PackVec(ZLayout, z) + Encode(h)
  }

  function ChallengePart(sig: seq<byte>): (c: seq<byte>)
    requires |sig| == CRYPTO_BYTES
    ensures |c| == CTILDE_BYTES
  {
    sig[..CTILDE_BYTES]
  }

  function HintPart(sig: seq<byte>): (b: seq<byte>)
    requires |sig| == CRYPTO_BYTES
    ensures |b| == HINT_BYTES
  {
    sig[CTILDE_BYTES + Z_BYTES..]
  }

  function ResponsePart(sig: seq<byte>): (z: Vec)
    requires |sig| == CRYPTO_BYTES
    ensures |z| == L
  {
    Sizes();
    UnpackVec(ZLayout, sig[CTILDE_BYTES..CTILDE_BYTES + Z_BYTES], L)
  }

  /** The verifier reads back what the signer wrote. */
  lemma SignatureRoundTrip(c: seq<byte>, z: Vec, h: Vec)
    requires |c| == CTILDE_BYTES && |z| == L && VLegal(ZLayout, z) && IsHint(h) && |AllLists(h)| <= OMEGA
    ensures var sig := Signature(c, z, h);
      && ChallengePart(sig) == c && ResponsePart(sig) == z
      && Accepted(HintPart(sig)) && Decoded(HintPart(sig)) == h
  {
    hide PackVec, UnpackVec, Encode, Accepted, Decoded, VLegal, Size, Groups, Total, Lists;
    Sizes();
    var sig := Signature(c, z, h);
    UnpackOfPackVec(ZLayout, z);
    DecodeOfEncode(h);
    assert sig[CTILDE_BYTES..CTILDE_BYTES + Z_BYTES] == PackVec(ZLayout, z);
    assert HintPart(sig) == Encode(h);
  }

  /** No two byte strings that the verifier can unpack have the same content. */
  lemma SignatureUnique(sig: seq<byte>)
    requires |sig| == CRYPTO_BYTES && Accepted(HintPart(sig))
    ensures var h := Decoded(HintPart(sig));
      |AllLists(h)| <= OMEGA && Signature(ChallengePart(sig), ResponsePart(sig), h) == sig
  {
    hide PackVec, UnpackVec, Encode, Accepted, Decoded, VLegal, IsHint, Size, Groups, Total, Lists;
    Sizes();
    PackOfUnpackVec(ZLayout, sig[CTILDE_BYTES..CTILDE_BYTES + Z_BYTES], L);
    EncodeOfDecode(HintPart(sig));
    assert sig == ChallengePart(sig) + sig[CTILDE_BYTES..CTILDE_BYTES + Z_BYTES] + HintPart(sig);
  }

  /** One polynomial is packed in a RAM buffer and then written to its place. */
  method PackPolyInto(y: Layout, c: Poly32, out: array<byte>, p: nat, buf: array<byte>)
    requires buf != out && buf.Length == 850 && Size(y) <= 850 && p + Size(y) <= out.Length
    modifies out, buf
    ensures out[..] == Splice(old(out[..]), p, Pack(y, c, Groups(y)))
  {
    hide Splice, Pack, Groups, Size, Total, Layout.Bytes, Layout.Coeffs;
    PackPoly(y, c, buf, 0);
    var g := buf[..Size(y)];
    assert g == Pack(y, c, Groups(y));
    StoreBytes(out, p, g);
  }

  /** The packings of a vector, one polynomial after the other. */
  method PackVecInto(y: Layout, v: array<Poly32>, out: array<byte>, start: nat, buf: array<byte>)
    requires buf != out && v as object != out && v as object != buf
    requires buf.Length == 850 && Size(y) <= 850 && start + Total(v.Length, Size(y)) <= out.Length
    modifies out, buf
    ensures out[..] == old(out[..start]) + PackVec(y, v[..]) + old(out[start + Total(v.Length, Size(y))..])
  {
    hide Splice, Pack, PackVec, Groups, Size, Total, Filled, Layout.Bytes, Layout.Coeffs;
    ghost var w, first, rest := v[..], out[..start], out[start..];
    var p := start;
    PackVecStep(y, w, 0);
    NothingFilled(out[..], start);
    for b := 0 to v.Length
      invariant v[..] == w && p == start + |PackVec(y, w[..b])|
      invariant Filled(out[..], first, PackVec(y, w[..b]), rest)
    {
      TotalGrows(b + 1, v.Length, Size(y));
      TotalStep(b + 1, Size(y));
      PackVecStep(y, w, b);
      ghost var before := out[..];
      PackPolyInto(y, v[b], out, p, buf);
      Fill(before, out[..], first, PackVec(y, w[..b]), rest, Pack(y, w[b], Groups(y)));
      p := p + Size(y);
    }
    assert w[..v.Length] == w;
    FilledWhole(out[..], first, PackVec(y, w), rest);
  }

  lemma PackVecStep(y: Layout, v: Vec, b: nat)
    ensures PackVec(y, v[..0]) == []
    ensures b < |v| ==> PackVec(y, v[..b + 1]) == PackVec(y, v[..b]) + Pack(y, v[b], Groups(y))
  {
    hide Pack, Groups, Size;
    if b < |v| {
      assert v[..b + 1][..b] == v[..b];
    }
  }

  lemma {:induction false} TotalGrows(m: nat, n: nat, k: nat)
    requires m <= n
    ensures Total(m, k) <= Total(n, k)
  {
    if m < n {
      TotalGrows(m, n - 1, k);
    }
  }

  /** pack_sig_volatile, called with the right length. */
  method PackSig(sig: array<byte>, c: seq<byte>, z: array<Poly32>, h: array<Poly32>, buf: array<byte>)
    requires sig.Length == CRYPTO_BYTES && |c| == CTILDE_BYTES && z.Length == L && h.Length == K
    requires buf.Length == 850 && buf != sig && |AllLists(h[..])| <= OMEGA
    requires z as object != sig && z as object != buf && h as object != sig && h as object != buf
    modifies sig, buf
    ensures sig[..] == Signature(c, z[..], h[..])
  {
    hide PackVec, Encode, Size, Groups, Total, Lists;
    Sizes();
    StoreBytes(sig, 0, c);
    PackVecInto(ZLayout, z, sig, CTILDE_BYTES, buf);
    assert sig[..CTILDE_BYTES + Z_BYTES] == c + PackVec(ZLayout, z[..]);
    var temp := new byte[HINT_BYTES];
    EncodeHints(h, temp);
    StoreBytes(sig, CTILDE_BYTES + Z_BYTES, temp[..]);
  }

  /** unpack_sig_volatile; 0 means that the bytes are accepted. */
  method UnpackSig(sig: array<byte>, z: array<Poly32>, h: array<Poly32>, temp: array<int32>)
    returns (r: int, c: seq<byte>)
    requires sig.Length == CRYPTO_BYTES && z.Length == L && h.Length == K && temp.Length == 256 && z != h
    requires z as object != sig && h as object != sig && temp as object != sig
    requires temp as object != z && temp as object != h
    modifies z, h, temp
    ensures c == ChallengePart(sig[..]) && z[..] == ResponsePart(sig[..])
    ensures r == 0 || r == 1
    ensures r == 0 <==> Accepted(HintPart(sig[..]))
    ensures r == 0 ==> h[..] == Decoded(HintPart(sig[..]))
  {
    hide Unpack, Size, Groups, Accepted, Decoded, Layout.Bytes, Layout.Coeffs;
    Sizes();
    c := sig[..CTILDE_BYTES];
    var p := CTILDE_BYTES;
    for b := 0 to L
      invariant p == CTILDE_BYTES + 640 * b && Total(b, 640) == 640 * b
      invariant z[..b] == UnpackVec(ZLayout, sig[CTILDE_BYTES..p], b)
    {
      UnpackPoly(ZLayout, sig, p, temp);
      ghost var done := z[..b];
      z[b] := temp[..];
      assert sig[CTILDE_BYTES..p + 640][..640 * b] == sig[CTILDE_BYTES..p];
      assert sig[CTILDE_BYTES..p + 640][640 * b..] == sig[p..p + 640];
      p := p + 640;
      assert z[..b + 1] == done + [z[b]];
    }
    assert z[..L] == z[..];
    r := DecodeHints(sig, CTILDE_BYTES + Z_BYTES, h);
    assert sig[CTILDE_BYTES + Z_BYTES..CTILDE_BYTES + Z_BYTES + HINT_BYTES] == HintPart(sig[..]);
  }

  // ------------------------------------------------------------------ public key and packed high parts

  function PublicKey(rho: seq<byte>, t1: Vec): (r: seq<byte>) {
    rho + PackVec(T1Layout, t1)
  }

  /** The high parts of one polynomial, two in a byte. */
  function PackW1(p: Poly): (r: seq<byte>)
    ensures |r| == 128
  {
    seq(128, j requires 0 <= j < 128 => Or(U32(p[2 * j]), Shl(U32(p[2 * j + 1]), 4)) % 256)
  }

  function PackW1Vec(v: Vec): (r: seq<byte>)
    ensures |r| == 128 * |v|
  {
    if v == [] then [] else PackW1Vec(v[..|v| - 1]) + PackW1(v[|v| - 1])
  }

  ghost predicate High(p: Poly) {
    forall j :: 0 <= j < 256 ==> 0 <= p[j] < 16
  }

  lemma W1Byte(a: nat, b: nat)
    requires a < 16 && b < 16
    ensures Or(U32(a), Shl(U32(b), 4)) % 256 == a + 16 * b
  {
    hide Or, Pow2;
    Pow2Values();
    DivUnique(a, 0x1_0000_0000, 0, a);
    DivUnique(b, 0x1_0000_0000, 0, b);
    OrDisjoint(a, b, 4);
    DivUnique(a + 16 * b, 256, 0, a + 16 * b);
  }

  /** Different high parts are hashed as different bytes. */
  lemma PackW1Injective(p: Poly, q: Poly)
    requires High(p) && High(q) && PackW1(p) == PackW1(q)
    ensures p == q
  {
    hide PackW1, High;
    forall i | 0 <= i < 256
      ensures p[i] == q[i]
    {
      PackedPair(p, i / 2);
      PackedPair(q, i / 2);
      assert i == 2 * (i / 2) || i == 2 * (i / 2) + 1;
    }
  }

  lemma PackedPair(p: Poly, j: nat)
    requires High(p) && j < 128
    ensures 0 <= p[2 * j] < 16 && 0 <= p[2 * j + 1] < 16 && PackW1(p)[j] == p[2 * j] + 16 * p[2 * j + 1]
  {
    hide Or, Shl;
    W1Byte(p[2 * j], p[2 * j + 1]);
  }

  /** poly_vec_k_pack_w1_volatile. */
  method PackW1Into(w: array<Poly32>, out: array<byte>)
    requires w.Length == K && out.Length >= 1024 && w as object != out
    modifies out
    ensures out[..] == PackW1Vec(w[..]) + old(out[1024..])
  {
    hide Splice, PackW1, PackW1Vec, Filled;
    ghost var v, none: seq<byte>, rest: seq<byte> := w[..], out[..0], out[0..];
    var temp := new byte[128];
    PackW1Step(v, 0);
    NothingFilled(out[..], 0);
    for i := 0 to K
      invariant w[..] == v && fresh(temp) && |PackW1Vec(v[..i])| == 128 * i
      invariant Filled(out[..], none, PackW1Vec(v[..i]), rest)
    {
      PackW1Bytes(w[i], temp);
      PackW1Step(v, i);
      ghost var before := out[..];
      StoreBytes(out, 128 * i, temp[..]);
      Fill(before, out[..], none, PackW1Vec(v[..i]), rest, PackW1(v[i]));
    }
    assert v[..K] == v;
    FilledWhole(out[..], none, PackW1Vec(v), rest);
  }

  /** The inner loop: one polynomial. */
  method PackW1Bytes(p: Poly32, temp: array<byte>)
    requires temp.Length == 128
    modifies temp
    ensures temp[..] == PackW1(p)
  {
    hide Or, Shl;
    for j := 0 to 128
      invariant forall k :: 0 <= k < j ==> temp[k] == PackW1(p)[k]
    {
      temp[j] := Or(U32(p[2 * j]), Shl(U32(p[2 * j + 1]), 4)) % 256;
    }
  }

  lemma PackW1Step(v: Vec, b: nat)
    ensures PackW1Vec(v[..0]) == []
    ensures b < |v| ==> PackW1Vec(v[..b + 1]) == PackW1Vec(v[..b]) + PackW1(v[b])
  {
    hide PackW1;
    if b < |v| {
      assert v[..b + 1][..b] == v[..b];
    }
  }

  // ------------------------------------------------------------------ the formats, byte by byte

  /** Polynomial i of a packed vector occupies the bytes from i times the size on. */
  lemma {:induction false} PackVecAt(y: Layout, v: Vec, i: nat)
    requires i < |v|
    ensures var p := Total(i, Size(y));
      p + Size(y) <= |PackVec(y, v)| && PackVec(y, v)[p..p + Size(y)] == Pack(y, v[i], Groups(y))
    decreases |v|
  {
    hide Pack, Groups, Size, PackVec;
    var n := |v| - 1;
    var w, last := v[..n], v[n];
    assert v == w + [last];
    PackVecAppend(y, w, last);
    TotalGrows(i, n, Size(y));
    if i < n {
      PackVecAt(y, w, i);
    }
  }

  lemma {:induction false} UnpackVecAt(y: Layout, a: seq<byte>, n: nat, i: nat)
    requires |a| == Total(n, Size(y)) && i < n
    ensures var p := Total(i, Size(y));
      p + Size(y) <= |a| && UnpackVec(y, a, n)[i] == Unpack(y, a[p..p + Size(y)], Groups(y))
    decreases n
  {
    hide Unpack, Groups, Size, UnpackVec;
    var m, p := Total(n - 1, Size(y)), Total(i, Size(y));
    UnpackVecStep(y, a, n);
    TotalGrows(i, n - 1, Size(y));
    if i < n - 1 {
      TotalGrows(i + 1, n - 1, Size(y));
      UnpackVecAt(y, a[..m], n - 1, i);
      PartOfPart(a, 0, m, p, p + Size(y));
      assert a[0..m] == a[..m];
    } else {
      assert a[m..] == a[p..p + Size(y)];
    }
  }

  lemma ZPlace(i: nat)
    ensures Total(i, Size(ZLayout)) == 640 * i && Size(ZLayout) == 640
    ensures Total(i, Size(T1Layout)) == 320 * i && Size(T1Layout) == 320
  {
    hide Total;
    Sizes();
    TotalProduct(i, 640);
    TotalProduct(i, 320);
  }

  /** sigEncode, Algorithm 26 of FIPS 204: 64 bytes, seven polynomials of 640 bytes, 83 bytes. */
  lemma SignatureBytes(c: seq<byte>, z: Vec, h: Vec, i: nat)
    requires |c| == 64 && |z| == L && |h| == K && |AllLists(h)| <= OMEGA && i < 7
    ensures var sig := Signature(c, z, h);
      && |sig| == 4627 && sig[..64] == c && sig[4544..] == Encode(h)
      && sig[64 + 640 * i..704 + 640 * i] == Pack(ZLayout, z[i], Groups(ZLayout))
  {
    hide Pack, Groups, Size, PackVec, Encode, Total;
    Sizes();
    ZPlace(i);
    PackVecAt(ZLayout, z, i);
    var sig, p := Signature(c, z, h), PackVec(ZLayout, z);
    assert sig[64..4544] == p;
    PartOfPart(sig, 64, 4544, 640 * i, 640 * i + 640);
  }

  /** sigDecode, Algorithm 27 of FIPS 204. */
  lemma SignatureParts(sig: seq<byte>, i: nat)
    requires |sig| == 4627 && i < 7
    ensures ChallengePart(sig) == sig[..64] && HintPart(sig) == sig[4544..]
    ensures |sig[64 + 640 * i..704 + 640 * i]| == Size(ZLayout)
    ensures ResponsePart(sig)[i] == Unpack(ZLayout, sig[64 + 640 * i..704 + 640 * i], Groups(ZLayout))
  {
    hide Unpack, Groups, Size, UnpackVec, Total;
    Sizes();
    ZPlace(i);
    var a := sig[64..4544];
    UnpackVecAt(ZLayout, a, L, i);
    PartOfPart(sig, 64, 4544, 640 * i, 640 * i + 640);
  }

  lemma PartOfPart(s: seq<byte>, lo: nat, hi: nat, a: nat, b: nat)
    requires a <= b <= hi - lo && lo <= hi <= |s|
    ensures s[lo..hi][a..b] == s[lo + a..lo + b]
  {
    var p, q := s[lo..hi][a..b], s[lo + a..lo + b];
    assert forall k {:trigger p[k]} :: 0 <= k < b - a ==> p[k] == q[k];
  }

  /** pkEncode, Algorithm 22 of FIPS 204: 32 bytes, then eight polynomials of 320 bytes. */
  lemma PublicKeyBytes(rho: seq<byte>, t1: Vec, i: nat)
    requires |rho| == 32 && |t1| == K && i < 8
    ensures var pk := PublicKey(rho, t1);
      && |pk| == 2592 && pk[..32] == rho
      && pk[32 + 320 * i..352 + 320 * i] == Pack(T1Layout, t1[i], Groups(T1Layout))
  {
    hide Pack, Groups, Size, PackVec, Total;
    Sizes();
    ZPlace(i);
    PackVecAt(T1Layout, t1, i);
    var pk, p := PublicKey(rho, t1), PackVec(T1Layout, t1);
    assert pk[32..2592] == p;
    PartOfPart(pk, 32, 2592, 320 * i, 320 * i + 320);
  }

  /** w1Encode, Algorithm 28 of FIPS 204: byte m holds two high parts, the first in the low half. */
  lemma {:induction false} HighBytes(w: Vec, m: nat)
    requires m < 128 * |w| && forall i :: 0 <= i < |w| ==> High(w[i])
    ensures |PackW1Vec(w)| == 128 * |w| && 0 <= m / 128 < |w|
    ensures PackW1Vec(w)[m] == w[m / 128][2 * (m % 128)] + 16 * w[m / 128][2 * (m % 128) + 1]
    decreases |w|
  {
    hide PackW1, PackW1Vec, High;
    var n := |w| - 1;
    PackW1Step(w, n);
    assert w[..n + 1] == w;
    if m < 128 * n {
      HighBytes(w[..n], m);
    } else {
      PackedPair(w[n], m - 128 * n);
    }
  }
}
