/**
  The hint part of a signature: Algorithms 20 and 21 of section 7.1 of FIPS 204, as pack_sig_volatile
  and unpack_sig_volatile of sign.c write and read it.  75 bytes list the positions of the ones, padded
  with zeros; 8 more say where the list of each polynomial ends.
 */
module HintCodec {
  import opened Words
  import opened Vectors

  const OMEGA: nat := 75
  const HINT_BYTES: nat := 83

  ghost predicate IsHint(h: Vec) {
    |h| == 8 && forall i, j :: 0 <= i < 8 && 0 <= j < 256 ==> 0 <= h[i][j] <= 1
  }

  /** The positions below n at which p is not zero, in ascending order. */
  function Positions(p: Poly, n: nat): (r: seq<byte>)
    requires n <= 256
    ensures |r| <= n
  {
    if n == 0 then [] else Positions(p, n - 1) + (if p[n - 1] != 0 then [n - 1] else [])
  }

  /** The lists of the first i polynomials, one after the other. */
  function Lists(h: Vec, i: nat): (r: seq<byte>)
    requires i <= |h|
  {
    if i == 0 then [] else Lists(h, i - 1) + Positions(h[i - 1], |h[i - 1]|)
  }

  /** The lists of all polynomials. */
  function AllLists(h: Vec): seq<byte> {
    Lists(h, |h|)
  }

  function Zeros(n: nat): (r: seq<byte>)
    ensures |r| == n && forall i :: 0 <= i < n ==> r[i] == 0
  {
    seq(n, _ => 0)
  }

  lemma {:induction false} ListsGrow(h: Vec, i: nat, j: nat)
    requires i <= j <= |h|
    ensures |Lists(h, i)| <= |Lists(h, j)| && Lists(h, i) == Lists(h, j)[..|Lists(h, i)|]
    decreases j
  {
    if i < j {
      ListsGrow(h, i, j - 1);
    }
  }

  /** Where the list of polynomial i ends. */
  ghost function End(h: Vec, i: nat): (e: byte)
    requires i < |h| == 8 && |AllLists(h)| <= OMEGA
  {
    ListsGrow(h, i + 1, 8);
    |Lists(h, i + 1)|
  }

  /** The bytes written for a hint. */
  ghost function Encode(h: Vec): (r: seq<byte>)
    requires |h| == 8 && |AllLists(h)| <= OMEGA
    ensures |r| == HINT_BYTES
  {
    AllLists(h) + Zeros(OMEGA - |AllLists(h)|) + seq(8, i requires 0 <= i < 8 => End(h, i))
  }

  /** Where the list of polynomial i begins, as the bytes say. */
  function Start(b: seq<byte>, i: nat): byte
    requires |b| == HINT_BYTES && i <= 8
  {
    if i == 0 then 0 else b[OMEGA + i - 1]
  }

  predicate Increasing(s: seq<byte>) {
    forall i :: 0 < i < |s| ==> s[i - 1] < s[i]
  }

  /** The list of polynomial i is in place and in ascending order. */
  predicate ListOk(b: seq<byte>, i: nat)
    requires |b| == HINT_BYTES && i < 8
  {
    && Start(b, i) <= Start(b, i + 1) <= OMEGA
    && Increasing(b[Start(b, i)..Start(b, i + 1)])
  }

  predicate Padded(b: seq<byte>)
    requires |b| == HINT_BYTES
  {
    forall j :: Start(b, 8) <= j < OMEGA ==> b[j] == 0
  }

  /** The bytes that the decoder accepts. */
  predicate Accepted(b: seq<byte>)
    requires |b| == HINT_BYTES
  {
    (forall i :: 0 <= i < 8 ==> ListOk(b, i)) && Padded(b)
  }

  /** The polynomial with a one at each listed position. */
  function Marks(s: seq<byte>): Poly {
    seq(256, j requires 0 <= j < 256 => if j in s then 1 else 0)
  }

  ghost function Decoded(b: seq<byte>): (h: Vec)
    requires |b| == HINT_BYTES && Accepted(b)
    ensures |h| == 8
  {
    seq(8, i requires 0 <= i < 8 => assert ListOk(b, i); Marks(b[Start(b, i)..Start(b, i + 1)]))
  }

  // ------------------------------------------------------------------ decoding what was encoded

  lemma {:induction false} PositionsMeaning(p: Poly, n: nat)
    requires n <= 256
    ensures Increasing(Positions(p, n))
    ensures forall j :: j in Positions(p, n) <==> 0 <= j < n && p[j] != 0
  {
    hide Positions;
    if n > 0 {
      PositionsMeaning(p, n - 1);
      PositionsStep(p, n - 1);
      var s := Positions(p, n - 1);
      assert s != [] ==> s[|s| - 1] in s;
    } else {
      NoPositions(p);
    }
  }

  lemma MarksOfPositions(p: Poly)
    requires forall j :: 0 <= j < 256 ==> 0 <= p[j] <= 1
    ensures Marks(Positions(p, 256)) == p
  {
    PositionsMeaning(p, 256);
  }

  /** What the encoding says about polynomial i. */
  lemma EncodedList(h: Vec, i: nat)
    requires |h| == 8 && i < 8 && |AllLists(h)| <= OMEGA
    ensures ListOk(Encode(h), i)
    ensures Encode(h)[Start(Encode(h), i)..Start(Encode(h), i + 1)] == Positions(h[i], 256)
  {
    var b := Encode(h);
    ListsGrow(h, i, 8);
    ListsGrow(h, i + 1, 8);
    assert Start(b, i) == |Lists(h, i)|;
    assert Start(b, i + 1) == |Lists(h, i + 1)|;
    assert b[..|Lists(h, i + 1)|] == Lists(h, i + 1);
    assert b[Start(b, i)..Start(b, i + 1)] == b[..|Lists(h, i + 1)|][|Lists(h, i)|..];
    PositionsMeaning(h[i], 256);
  }

  /** Every hint with at most 75 ones is decoded from its encoding. */
  lemma DecodeOfEncode(h: Vec)
    requires IsHint(h) && |AllLists(h)| <= OMEGA
    ensures Accepted(Encode(h)) && Decoded(Encode(h)) == h
  {
    hide Encode, Marks, Positions, Increasing;
    forall i | 0 <= i < 8
      ensures ListOk(Encode(h), i)
      ensures Marks(Encode(h)[Start(Encode(h), i)..Start(Encode(h), i + 1)]) == h[i]
    {
      EncodedList(h, i);
      MarksOfPositions(h[i]);
    }
    EncodedPadding(h);
  }

  lemma EncodedPadding(h: Vec)
    requires |h| == 8 && |AllLists(h)| <= OMEGA
    ensures Padded(Encode(h))
  {
  }

  // ------------------------------------------------------------------ encoding what was decoded

  /** The positions below n of the marks of an ascending list are the elements of the list below n. */
  lemma {:induction false} PositionsOfMarks(s: seq<byte>, n: nat) returns (m: nat)
    requires Increasing(s) && n <= 256
    ensures m <= |s| && Positions(Marks(s), n) == s[..m]
    ensures (forall i :: 0 <= i < m ==> s[i] < n) && (m < |s| ==> n <= s[m])
  {
    if n == 0 {
      m := 0;
    } else {
      m := PositionsOfMarks(s, n - 1);
      if m < |s| && s[m] == n - 1 {
        assert s[m] in s;
        assert s[..m + 1] == s[..m] + [s[m]];
        m := m + 1;
        assert m < |s| ==> s[m - 1] < s[m];
      } else {
        if m < |s| {
          Ascending(s, m);
        }
        assert n - 1 !in s;
      }
    }
  }

  lemma {:induction false} Ascending(s: seq<byte>, m: nat)
    requires Increasing(s) && m < |s|
    ensures forall i :: m < i < |s| ==> s[m] < s[i]
    decreases |s| - m
  {
    if m + 1 < |s| {
      Ascending(s, m + 1);
      assert s[m + 1 - 1] < s[m + 1];
    }
  }

  lemma DecodedList(b: seq<byte>, i: nat)
    requires |b| == HINT_BYTES && Accepted(b) && i < 8
    ensures Start(b, i) <= Start(b, i + 1) <= OMEGA
    ensures Positions(Decoded(b)[i], 256) == b[Start(b, i)..Start(b, i + 1)]
  {
    hide Marks, Positions;
    assert ListOk(b, i);
    var m := PositionsOfMarks(b[Start(b, i)..Start(b, i + 1)], 256);
  }

  lemma {:induction false} ListsOfDecoded(b: seq<byte>, i: nat)
    requires |b| == HINT_BYTES && Accepted(b) && i <= 8
    ensures Start(b, i) <= OMEGA && Lists(Decoded(b), i) == b[..Start(b, i)]
  {
    hide Decoded, Positions, Accepted;
    if i > 0 {
      ListsOfDecoded(b, i - 1);
      DecodedList(b, i - 1);
      assert b[..Start(b, i)] == b[..Start(b, i - 1)] + b[Start(b, i - 1)..Start(b, i)];
    }
  }

  /** Whatever the decoder accepts is the encoding of what it returns, a hint with at most 75 ones. */
  lemma EncodeOfDecode(b: seq<byte>)
    requires |b| == HINT_BYTES && Accepted(b)
    ensures IsHint(Decoded(b)) && |AllLists(Decoded(b))| <= OMEGA
    ensures Encode(Decoded(b)) == b
  {
    hide Lists, ListOk;
    var h := Decoded(b);
    forall i | 0 <= i <= 8
      ensures Start(b, i) <= OMEGA && Lists(h, i) == b[..Start(b, i)]
    {
      ListsOfDecoded(b, i);
    }
    var e := Encode(h);
    forall j | 0 <= j < HINT_BYTES
      ensures e[j] == b[j]
    {
      if j >= OMEGA {
        assert e[j] == End(h, j - OMEGA) == Start(b, j - OMEGA + 1);
      }
    }
  }

  // ------------------------------------------------------------------ the format, byte by byte

  /** Bytes lo to hi - 1 list the ones of polynomial i; bytes 75 to 82 hold the ends of the lists. */
  ghost predicate Bounds(b: seq<byte>, i: nat, lo: nat, hi: nat)
    requires |b| == 83 && i < 8
  {
    lo == (if i == 0 then 0 else b[74 + i]) && hi == b[75 + i]
  }

  /** The bytes from lo to hi - 1 are among the first 75, and ascend. */
  ghost predicate Rises(b: seq<byte>, lo: nat, hi: nat)
    requires |b| == 83
  {
    lo <= hi <= 75 && forall m {:trigger b[m]} :: lo < m < hi ==> b[m - 1] < b[m]
  }

  ghost predicate Occurs(b: seq<byte>, lo: nat, hi: nat, j: byte) {
    exists m :: lo <= m < hi <= |b| && b[m] == j
  }

  lemma OccursMeaning(b: seq<byte>, lo: nat, hi: nat, j: byte)
    requires lo <= hi <= |b|
    ensures j in b[lo..hi] <==> Occurs(b, lo, hi, j)
  {
    if Occurs(b, lo, hi, j) {
      var m :| lo <= m < hi && b[m] == j;
      assert b[lo..hi][m - lo] == j;
    }
    if j in b[lo..hi] {
      var k :| 0 <= k < hi - lo && b[lo..hi][k] == j;
      assert b[lo + k] == j;
    }
  }

  lemma RisesMeaning(b: seq<byte>, lo: nat, hi: nat)
    requires |b| == HINT_BYTES && lo <= hi <= 75
    ensures Increasing(b[lo..hi]) <==> Rises(b, lo, hi)
  {
    var s := b[lo..hi];
    assert forall k {:trigger s[k]} :: 0 <= k < hi - lo ==> s[k] == b[lo + k];
    if Increasing(s) {
      forall m {:trigger b[m]} | lo < m < hi
        ensures b[m - 1] < b[m]
      {
        assert s[m - lo - 1] < s[m - lo];
      }
    }
    if Rises(b, lo, hi) {
      forall k | 0 < k < |s|
        ensures s[k - 1] < s[k]
      {
        assert b[lo + k - 1] < b[lo + k];
      }
    }
  }

  /** The two ways to say that a list is in order. */
  lemma ListBytes(b: seq<byte>, i: nat, lo: nat, hi: nat)
    requires |b| == HINT_BYTES && i < 8 && Bounds(b, i, lo, hi)
    ensures Start(b, i) == lo && Start(b, i + 1) == hi && Start(b, 8) == b[82]
    ensures ListOk(b, i) <==> Rises(b, lo, hi)
  {
    hide Increasing;
    if lo <= hi <= 75 {
      RisesMeaning(b, lo, hi);
    }
  }

  /** Algorithm 20 of FIPS 204: list i holds, in ascending order, the positions of the ones of polynomial i. */
  lemma EncodeMeaning(h: Vec, i: nat, lo: nat, hi: nat)
    requires |h| == 8 && |AllLists(h)| <= OMEGA && i < 8 && Bounds(Encode(h), i, lo, hi)
    ensures Rises(Encode(h), lo, hi)
    ensures forall j: byte :: h[i][j] != 0 <==> Occurs(Encode(h), lo, hi, j)
    ensures forall m :: Encode(h)[82] <= m < 75 ==> Encode(h)[m] == 0
  {
    hide Encode, Positions, Occurs;
    var b := Encode(h);
    EncodedList(h, i);
    EncodedPadding(h);
    PositionsMeaning(h[i], 256);
    ListBytes(b, i, lo, hi);
    forall j: byte
      ensures h[i][j] != 0 <==> Occurs(b, lo, hi, j)
    {
      OccursMeaning(b, lo, hi, j);
    }
  }

  /** Algorithm 21 of FIPS 204: the bytes that are accepted. */
  lemma AcceptedMeaning(b: seq<byte>)
    requires |b| == HINT_BYTES
    ensures Accepted(b) <==>
      && (forall i: nat, lo: nat, hi: nat :: i < 8 && Bounds(b, i, lo, hi) ==> Rises(b, lo, hi))
      && (forall m :: b[82] <= m < 75 ==> b[m] == 0)
  {
    hide ListOk, Rises, Bounds;
    LastEnd(b);
    if Accepted(b) {
      forall i: nat, lo: nat, hi: nat | i < 8 && Bounds(b, i, lo, hi)
        ensures Rises(b, lo, hi)
      {
        assert ListOk(b, i);
        ListBytes(b, i, lo, hi);
      }
    }
    if forall i: nat, lo: nat, hi: nat :: i < 8 && Bounds(b, i, lo, hi) ==> Rises(b, lo, hi) {
      forall i | 0 <= i < 8
        ensures ListOk(b, i)
      {
        BoundsOf(b, i);
        ListBytes(b, i, Start(b, i), Start(b, i + 1));
      }
    }
  }

  lemma BoundsOf(b: seq<byte>, i: nat)
    requires |b| == HINT_BYTES && i < 8
    ensures Bounds(b, i, Start(b, i), Start(b, i + 1))
  {
  }

  lemma LastEnd(b: seq<byte>)
    requires |b| == HINT_BYTES
    ensures Start(b, 8) == b[82]
  {
  }

  /** Algorithm 21 of FIPS 204: the ones of polynomial i are where list i says. */
  lemma DecodedMeaning(b: seq<byte>, i: nat, lo: nat, hi: nat, j: byte)
    requires |b| == HINT_BYTES && Accepted(b) && i < 8 && Bounds(b, i, lo, hi)
    ensures Decoded(b)[i][j] == if Occurs(b, lo, hi, j) then 1 else 0
  {
    hide Occurs, Rises;
    assert ListOk(b, i);
    ListBytes(b, i, lo, hi);
    OccursMeaning(b, lo, hi, j);
  }

  // ------------------------------------------------------------------ the number of ones

  /** The places below n in polynomial i, and those of the polynomials before it, at which h is not zero. */
  ghost function OnesBelow(h: Vec, i: nat, n: nat): set<(int, int)>
    requires i <= |h|
  {
    set a: int, b: int | 0 <= a < |h| && 0 <= b < 256 && (a < i || (a == i && b < n)) && h[a][b] != 0 :: (a, b)
  }

  /** Where h is not zero. */
  ghost function Ones(h: Vec): set<(int, int)> {
    set a: int, b: int | 0 <= a < |h| && 0 <= b < 256 && h[a][b] != 0 :: (a, b)
  }

  lemma {:induction false} OnesInRow(h: Vec, i: nat, n: nat)
    requires i < |h| && n <= 256
    ensures |OnesBelow(h, i, n)| == |OnesBelow(h, i, 0)| + |Positions(h[i], n)|
  {
    hide Positions;
    if n == 0 {
      NoPositions(h[i]);
    } else {
      OnesInRow(h, i, n - 1);
      PositionsStep(h[i], n - 1);
      var s := OnesBelow(h, i, n - 1);
      if h[i][n - 1] != 0 {
        assert OnesBelow(h, i, n) == s + {(i as int, (n - 1) as int)};
      } else {
        assert OnesBelow(h, i, n) == s;
      }
    }
  }

  lemma {:induction false} OnesInRows(h: Vec, i: nat)
    requires i <= |h|
    ensures |OnesBelow(h, i, 0)| == |Lists(h, i)|
  {
    hide Positions, Lists;
    if i == 0 {
      NoLists(h);
      assert OnesBelow(h, 0, 0) == {};
    } else {
      OnesInRows(h, i - 1);
      OnesInRow(h, i - 1, 256);
      ListsStep(h, i - 1);
      assert OnesBelow(h, i, 0) == OnesBelow(h, i - 1, 256);
    }
  }

  /** The lists hold one byte for each one. */
  lemma CountOnes(h: Vec)
    ensures |AllLists(h)| == |Ones(h)|
  {
    hide Lists;
    OnesInRows(h, |h|);
    assert OnesBelow(h, |h|, 0) == Ones(h);
  }

  // ------------------------------------------------------------------ the loops

  /** The hint part of pack_sig_volatile, built in RAM. */
  method EncodeHints(h: array<Poly32>, out: array<byte>)
    requires h.Length == 8 && out.Length == HINT_BYTES && |AllLists(h[..])| <= OMEGA && h as object != out
    modifies out
    ensures out[..] == Encode(h[..])
  {
    hide Positions, Lists, Encode;
    for i := 0 to HINT_BYTES
      invariant forall j :: 0 <= j < i ==> out[j] == 0
    {
      out[i] := 0;
    }
    ghost var v := h[..];
    var k := 0;
    NoLists(v);
    for i := 0 to 8
      invariant 0 <= k <= OMEGA && out[..k] == Lists(v, i)
      invariant forall j :: k <= j < OMEGA ==> out[j] == 0
      invariant forall j :: OMEGA <= j < OMEGA + i ==> out[j] == End(v, j - OMEGA)
    {
      var p := h[i];
      ListsStep(v, i);
      ListsGrow(v, i + 1, 8);
      k := EncodeList(p, i, k, out);
      assert out[OMEGA + i] == End(v, i);
    }
    EncodedAs(v, out[..], k);
  }

  /** The inner loop: the positions of one polynomial from k on, and the running count. */
  method EncodeList(p: Poly32, i: nat, k0: nat, out: array<byte>) returns (k: nat)
    requires out.Length == HINT_BYTES && i < 8 && k0 + |Positions(p, 256)| <= OMEGA
    modifies out
    ensures k == k0 + |Positions(p, 256)| && out[..k] == old(out[..k0]) + Positions(p, 256)
    ensures forall m :: k <= m < OMEGA + 8 && m != OMEGA + i ==> out[m] == old(out[m])
    ensures out[OMEGA + i] == k
  {
    hide Positions;
    k := k0;
    ghost var before := out[..k0];
    NoPositions(p);
    for j := 0 to 256
      invariant k == k0 + |Positions(p, j)| <= OMEGA && out[..k] == before + Positions(p, j)
      invariant forall m :: k <= m < OMEGA + 8 && m != OMEGA + i ==> out[m] == old(out[m])
      invariant j > 0 ==> out[OMEGA + i] == k
    {
      PositionsStep(p, j);
      PositionsGrow(p, j + 1);
      ghost var done := out[..k];
      if p[j] != 0 {
        out[k] := j;
        k := k + 1;
        assert out[..k] == done + [j];
      }
      out[OMEGA + i] := k;
      assert out[..k] == before + Positions(p, j + 1);
    }
  }

  lemma NoPositions(p: Poly)
    ensures Positions(p, 0) == []
  {
  }

  lemma NoLists(h: Vec)
    ensures Lists(h, 0) == [] && forall p: Poly :: Positions(p, 0) == []
  {
  }

  lemma ListsStep(h: Vec, i: nat)
    requires i < |h|
    ensures Lists(h, i + 1) == Lists(h, i) + Positions(h[i], 256) && Positions(h[i], 0) == []
  {
  }

  lemma PositionsStep(p: Poly, n: nat)
    requires n < 256
    ensures Positions(p, n + 1) == Positions(p, n) + (if p[n] != 0 then [n] else [])
  {
  }

  lemma {:induction false} PositionsGrow(p: Poly, n: nat)
    requires n <= 256
    ensures |Positions(p, n)| <= |Positions(p, 256)|
    decreases 256 - n
  {
    if n < 256 {
      PositionsGrow(p, n + 1);
    }
  }

  lemma EncodedAs(h: Vec, b: seq<byte>, k: nat)
    requires |h| == 8 && |b| == HINT_BYTES && k <= OMEGA && b[..k] == AllLists(h)
    requires forall j :: k <= j < OMEGA ==> b[j] == 0
    requires forall j :: OMEGA <= j < HINT_BYTES ==> b[j] == End(h, j - OMEGA)
    ensures b == Encode(h)
  {
    hide Lists, End;
    assert b[k..OMEGA] == Zeros(OMEGA - k);
    assert b[OMEGA..] == seq(8, i requires 0 <= i < 8 => End(h, i));
    assert b == b[..k] + b[k..OMEGA] + b[OMEGA..];
  }

  /** The list of polynomial i decodes to p. */
  ghost predicate Decodes(b: seq<byte>, p: Poly, i: nat)
    requires |b| == HINT_BYTES && i < 8
  {
    Start(b, i) <= Start(b, i + 1) <= OMEGA && p == Marks(b[Start(b, i)..Start(b, i + 1)])
  }

  /** The positions of one polynomial, from k to end: false when they do not ascend. */
  method DecodeList(sig: array<byte>, off: nat, k: nat, end: nat, p: Poly32) returns (ok: bool, r: Poly32)
    requires k <= end && off + end <= sig.Length && p == Marks([])
    ensures ok <==> Increasing(sig[off + k..off + end])
    ensures ok ==> r == Marks(sig[off + k..off + end])
  {
    hide Marks;
    r := p;
    assert sig[off + k..off + k] == [];
    for j := k to end
      invariant Increasing(sig[off + k..off + j]) && r == Marks(sig[off + k..off + j])
    {
      ghost var s, b := sig[off + k..off + end], sig[off + j];
      assert s[j - k] == b && (j > k ==> s[j - k - 1] == sig[off + j - 1]);
      if j > k && sig[off + j] <= sig[off + j - 1] {
        return false, r;
      }
      ghost var t: seq<byte> := sig[off + k..off + j];
      MarksStep(t, b);
      assert sig[off + k..off + j + 1] == t + [b];
      assert j > k ==> t[|t| - 1] == sig[off + j - 1];
      r := r[sig[off + j] := 1];
    }
    ok := true;
  }

  /** The hint part of unpack_sig_volatile; 0 means that the bytes are accepted. */
  method DecodeHints(sig: array<byte>, off: nat, h: array<Poly32>) returns (r: int)
    requires h.Length == 8 && off + HINT_BYTES <= sig.Length && h as object != sig
    modifies h
    ensures r == 0 || r == 1
    ensures var b := sig[off..off + HINT_BYTES];
      (r == 0 <==> Accepted(b)) && (r == 0 ==> h[..] == Decoded(b))
  {
    ghost var b := sig[off..off + HINT_BYTES];
    hide Marks, ListOk, Padded, Increasing;
    NoMarks();
    var k := 0;
    for i := 0 to 8
      invariant forall j {:trigger b[j]} :: 0 <= j < HINT_BYTES ==> b[j] == sig[off + j]
      invariant k == Start(b, i) <= OMEGA
      invariant forall j :: 0 <= j < i ==> ListOk(b, j) && Decodes(b, h[j], j)
    {
      var zero: Poly32 := seq(256, _ => 0);
      h[i] := zero;
      var end := sig[off + OMEGA + i];
      assert end == Start(b, i + 1);
      if end < k || end > OMEGA {
        ListRefused(b, i);
        return 1;
      }
      assert b[k..end] == sig[off + k..off + end];
      var ok, p := DecodeList(sig, off, k, end, zero);
      if !ok {
        ListRefused(b, i);
        return 1;
      }
      h[i] := p;
      ListAccepted(b, i);
      k := end;
    }
    for j := k to OMEGA
      invariant forall m {:trigger b[m]} :: 0 <= m < HINT_BYTES ==> b[m] == sig[off + m]
      invariant forall m :: k <= m < j ==> b[m] == 0
    {
      assert b[j] == sig[off + j];
      if sig[off + j] != 0 {
        PaddingRefused(b, j);
        return 1;
      }
    }
    PaddingAccepted(b);
    r := 0;
    assert h[..] == Decoded(b);
  }

  lemma ListRefused(b: seq<byte>, i: nat)
    requires |b| == HINT_BYTES && i < 8
    requires !(Start(b, i) <= Start(b, i + 1) <= OMEGA && Increasing(b[Start(b, i)..Start(b, i + 1)]))
    ensures !Accepted(b)
  {
    assert !ListOk(b, i);
  }

  lemma ListAccepted(b: seq<byte>, i: nat)
    requires |b| == HINT_BYTES && i < 8
    requires Start(b, i) <= Start(b, i + 1) <= OMEGA && Increasing(b[Start(b, i)..Start(b, i + 1)])
    ensures ListOk(b, i)
  {
  }

  lemma PaddingRefused(b: seq<byte>, j: nat)
    requires |b| == HINT_BYTES && Start(b, 8) <= j < OMEGA && b[j] != 0
    ensures !Accepted(b)
  {
  }

  lemma PaddingAccepted(b: seq<byte>)
    requires |b| == HINT_BYTES && forall j :: Start(b, 8) <= j < OMEGA ==> b[j] == 0
    ensures Padded(b)
  {
  }

  lemma NoMarks()
    ensures Marks([]) == seq(256, _ => 0)
  {
  }

  lemma MarksStep(s: seq<byte>, x: byte)
    ensures Marks(s + [x]) == Marks(s)[x := 1]
  {
    assert forall j :: j in s + [x] <==> j in s || j == x;
  }
}
