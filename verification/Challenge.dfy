/** The challenge sampler poly_challenge / poly_challenge_volatile, section 7.3 of FIPS 204. */
module Challenge {
  import opened Words
  import opened Sampling
  import opened Vectors

  const TAU: nat := 60

  /** The first m bytes of the stream as a little-endian number; the sign bits are those of m = 8. */
  ghost function SignWord(s: Stream, m: nat): nat {
    if m == 0 then 0 else SignWord(s, m - 1) + s(m - 1) * Pow2(8 * (m - 1))
  }

  lemma {:induction false} SignWordBound(s: Stream, m: nat)
    ensures SignWord(s, m) < Pow2(8 * m)
  {
    hide Pow2;
    Pow2Values();
    if m > 0 {
      SignWordBound(s, m - 1);
      var p := Pow2(8 * (m - 1));
      Pow2Sum(8, 8 * (m - 1));
      MulMono(p, s(m - 1), 255);
      assert p * s(m - 1) == s(m - 1) * p;
    }
  }

  /** The first position from p on whose byte is at most i; n when there is none below n. */
  ghost function Find(s: Stream, p: nat, i: nat, n: nat): (r: nat)
    decreases n - p
  {
    if p >= n || s(p) <= i then p else Find(s, p + 1, i, n)
  }

  /**
    SampleInBall after k of its 60 steps, on the contiguous stream: the polynomial and the position of
    the next unread byte.  Step k swaps position 196 + k with an earlier one, drawn by rejection.
   */
  ghost function Ball(s: Stream, k: nat, n: nat): (r: (seq<int>, nat))
    requires k <= TAU
    ensures |r.0| == 256
  {
    hide Find, SignWord;
    if k == 0 then (seq(256, _ => 0), 8)
    else
      var (c, p) := Ball(s, k - 1, n);
      var i := 195 + k;
      var r := Find(s, p, i, n);
      if s(r) > i then (c, n + 1)
      else (c[i := c[s(r)]][s(r) := 1 - 2 * (SignWord(s, 8) / Pow2(k - 1) % 2)], r + 1)
  }

  /** The first n bytes of the stream decide all 60 draws. */
  ghost predicate Decided(s: Stream, n: nat) {
    Ball(s, TAU, n).1 <= n
  }

  ghost function ChallengeSpec(s: Stream, n: nat): Poly {
    Ball(s, TAU, n).0
  }

  // ------------------------------------------------------------------ weight

  function NonZeros(c: seq<int>): nat {
    if c == [] then 0 else (if c[0] == 0 then 0 else 1) + NonZeros(c[1..])
  }

  lemma {:induction false} NonZerosUpdate(c: seq<int>, i: nat, v: int)
    requires i < |c|
    ensures NonZeros(c[i := v]) + (if c[i] == 0 then 0 else 1) == NonZeros(c) + (if v == 0 then 0 else 1)
  {
    if i == 0 {
      assert c[i := v][1..] == c[1..];
    } else {
      NonZerosUpdate(c[1..], i - 1, v);
      assert c[i := v][1..] == c[1..][i - 1 := v];
    }
  }

  lemma {:induction false} NoNonZeros(c: seq<int>)
    requires forall i :: 0 <= i < |c| ==> c[i] == 0
    ensures NonZeros(c) == 0
  {
    if c != [] {
      NoNonZeros(c[1..]);
    }
  }

  /** After k steps exactly k coefficients are non-zero, each 1 or -1, all below position 196 + k. */
  lemma {:induction false} BallWeight(s: Stream, k: nat, n: nat)
    requires k <= TAU && Ball(s, k, n).1 <= n
    ensures NonZeros(Ball(s, k, n).0) == k
    ensures forall i :: 0 <= i < 256 ==> -1 <= Ball(s, k, n).0[i] <= 1
    ensures forall i :: 196 + k <= i < 256 ==> Ball(s, k, n).0[i] == 0
  {
    hide Find, SignWord;
    if k == 0 {
      NoNonZeros(Ball(s, 0, n).0);
    } else {
      var (c, p) := Ball(s, k - 1, n);
      BallWeight(s, k - 1, n) by { FindForward(s, p, 195 + k, n); }
      var i, r := 195 + k, Find(s, p, 195 + k, n);
      NonZerosUpdate(c, i, c[s(r)]);
      NonZerosUpdate(c[i := c[s(r)]], s(r), Ball(s, k, n).0[s(r)]);
    }
  }

  lemma {:induction false} FindForward(s: Stream, p: nat, i: nat, n: nat)
    ensures p <= Find(s, p, i, n)
    decreases n - p
  {
    if p < n && s(p) > i {
      FindForward(s, p + 1, i, n);
    }
  }

  /** The challenge has exactly 60 coefficients 1 or -1, and 196 zeros. */
  lemma ChallengeWeight(s: Stream, n: nat)
    requires Decided(s, n)
    ensures NonZeros(ChallengeSpec(s, n)) == TAU
    ensures forall i :: 0 <= i < 256 ==> -1 <= ChallengeSpec(s, n)[i] <= 1
  {
    BallWeight(s, TAU, n);
  }

  /** A position that is found below both limits is the same. */
  lemma {:induction false} FindUnique(s: Stream, p: nat, i: nat, m: nat, n: nat)
    requires s(Find(s, p, i, m)) <= i && s(Find(s, p, i, n)) <= i
    requires p <= Find(s, p, i, m) < m && p <= Find(s, p, i, n) < n
    ensures Find(s, p, i, m) == Find(s, p, i, n)
    decreases m - p
  {
    if s(p) > i {
      FindForward(s, p + 1, i, m);
      FindForward(s, p + 1, i, n);
      FindUnique(s, p + 1, i, m, n);
    }
  }

  lemma {:induction false} BallUnique(s: Stream, k: nat, m: nat, n: nat)
    requires k <= TAU && Ball(s, k, m).1 <= m && Ball(s, k, n).1 <= n
    ensures Ball(s, k, m) == Ball(s, k, n)
  {
    hide Find, SignWord;
    if k > 0 {
      var i := 195 + k;
      var (c, p) := Ball(s, k - 1, m);
      var (d, q) := Ball(s, k - 1, n);
      FindForward(s, p, i, m);
      FindForward(s, q, i, n);
      BallUnique(s, k - 1, m, n);
      FindUnique(s, p, i, m, n);
    }
  }

  /** How many bytes beyond a deciding number one looks at does not matter. */
  lemma ChallengeUnique(s: Stream, m: nat, n: nat)
    requires Decided(s, m) && Decided(s, n)
    ensures ChallengeSpec(s, m) == ChallengeSpec(s, n)
  {
    hide Ball;
    BallUnique(s, TAU, m, n);
  }

  // ------------------------------------------------------------------ SampleInBall, step by step

  /** The sign bits are those of the first eight bytes, lowest bit first: BytesToBits of FIPS 204. */
  lemma SignWordBits(s: Stream, k: nat)
    requires k < 64
    ensures SignWord(s, 8) / Pow2(k) % 2 == s(k / 8) / Pow2(k % 8) % 2
  {
    SignBit(s, 8, k);
  }

  lemma {:induction false} SignBit(s: Stream, m: nat, k: nat)
    requires k < 8 * m
    ensures SignWord(s, m) / Pow2(k) % 2 == s(k / 8) / Pow2(k % 8) % 2
  {
    hide Pow2;
    var w := 8 * (m - 1);
    SignWordBound(s, m - 1);
    var x, v := SignWord(s, m - 1), s(m - 1);
    assert v * Pow2(w) == Pow2(w) * v;
    if k < w {
      LowBit(x, v, w, k);
      SignBit(s, m - 1, k);
    } else {
      HighBit(x, v, w, k);
      assert k / 8 == m - 1 && k % 8 == k - w;
    }
  }

  /** What Find returns is the first position from p on whose byte is at most i. */
  lemma {:induction false} FindMeaning(s: Stream, p: nat, i: nat, n: nat)
    requires Find(s, p, i, n) < n
    ensures p <= Find(s, p, i, n) && s(Find(s, p, i, n)) <= i
    ensures forall m :: p <= m < Find(s, p, i, n) ==> s(m) > i
    decreases n - p
  {
    if p < n && s(p) > i {
      FindMeaning(s, p + 1, i, n);
    }
  }

  /**
    Algorithm 29 of FIPS 204.  Reading begins behind eight bytes of signs.  Step k, for i = 196 to 255,
    skips the bytes above i, exchanges position i with the position j that the next byte gives, and puts
    1 or -1 there, by bit k of the first eight bytes.
   */
  lemma SampleInBall(s: Stream, n: nat, k: nat) returns (j: byte, r: nat)
    requires Decided(s, n) && k < 60
    ensures Ball(s, 0, n) == (seq(256, _ => 0), 8) && ChallengeSpec(s, n) == Ball(s, 60, n).0
    ensures var (c, p) := Ball(s, k, n);
      && p <= r && j == s(r) <= 196 + k && (forall m :: p <= m < r ==> s(m) > 196 + k)
      && Ball(s, k + 1, n) == (c[196 + k := c[j]][j := if s(k / 8) / Pow2(k % 8) % 2 == 1 then -1 else 1], r + 1)
  {
    hide Find, Pow2, SignWord;
    BallStart(s, n);
    BallMonotone(s, k + 1, TAU, n);
    BallStep(s, k + 1, n);
    SignWordBits(s, k);
    r := Find(s, Ball(s, k, n).1, 196 + k, n);
    j := s(r);
    FindMeaning(s, Ball(s, k, n).1, 196 + k, n);
  }

  // ------------------------------------------------------------------ the loops

  /** The sign bits: eight bytes or-ed into a 64-bit word. */
  method ReadSigns(s: Stream, buf: array<byte>) returns (signs: nat)
    requires buf.Length >= 8 && forall i :: 0 <= i < 8 ==> buf[i] == s(i)
    ensures signs == SignWord(s, 8)
  {
    signs := 0;
    for i := 0 to 8
      invariant signs == SignWord(s, i)
    {
      SignWordBound(s, i);
      OrDisjoint(signs, buf[i], 8 * i);
      signs := Or(signs, Shl(buf[i], 8 * i));
    }
  }

  lemma BallStart(s: Stream, n: nat)
    ensures Ball(s, 0, n) == (seq(256, _ => 0), 8)
  {
  }

  /** The position never moves back. */
  lemma {:induction false} BallMonotone(s: Stream, k: nat, m: nat, n: nat)
    requires k <= m <= TAU && Ball(s, m, n).1 <= n
    ensures Ball(s, k, n).1 <= Ball(s, m, n).1
    decreases m
  {
    hide Find, SignWord;
    if k < m {
      FindForward(s, Ball(s, m - 1, n).1, 195 + m, n);
      BallMonotone(s, k, m - 1, n);
    }
  }

  lemma BallStep(s: Stream, k: nat, n: nat)
    requires 1 <= k <= TAU && Ball(s, k, n).1 <= n
    ensures var (c, p) := Ball(s, k - 1, n); var r := Find(s, p, 195 + k, n);
      && p <= r < n && s(r) <= 195 + k
      && Ball(s, k, n) == (c[195 + k := c[s(r)]][s(r) := 1 - 2 * (SignWord(s, 8) / Pow2(k - 1) % 2)], r + 1)
  {
    hide Find, SignWord;
    FindForward(s, Ball(s, k - 1, n).1, 195 + k, n);
  }

  lemma FindUnfold(s: Stream, p: nat, i: nat, n: nat)
    ensures if p >= n || s(p) <= i then Find(s, p, i, n) == p else Find(s, p, i, n) == Find(s, p + 1, i, n) > p
  {
    if p < n && s(p) > i {
      FindForward(s, p + 1, i, n);
    }
  }

  lemma HalfAgain(x: nat, k: nat)
    ensures x / Pow2(k) / 2 == x / Pow2(k + 1)
  {
    var p := Pow2(k);
    var d, r := x / p, x % p;
    DivMod(x, p);
    var e, t := d / 2, d % 2;
    assert p * d == (2 * p) * e + p * t;
    assert 0 <= p * t <= p;
    DivUnique(x, 2 * p, e, p * t + r);
  }

  /** The buffer holds the block of the stream that starts at base. */
  ghost predicate Block(s: Stream, buf: seq<byte>, base: nat) {
    |buf| == 136 && forall j :: 0 <= j < 136 ==> buf[j] == s(base + j)
  }

  /** The innermost loop: draw bytes until one is at most i, refilling the buffer when it is used up. */
  method Draw(s: Stream, buf: array<byte>, base0: nat, pos0: nat, i: nat, ghost n: nat)
    returns (b: byte, base: nat, pos: nat)
    requires Block(s, buf[..], base0) && pos0 <= 136 && Find(s, base0 + pos0, i, n) < n
    modifies buf
    ensures Block(s, buf[..], base) && pos <= 136
    ensures base + pos == Find(s, base0 + pos0, i, n) + 1 && b == s(Find(s, base0 + pos0, i, n))
  {
    hide Find;
    base, pos := base0, pos0;
    ghost var found := Find(s, base0 + pos0, i, n);
    FindForward(s, base0 + pos0, i, n);
    while true
      invariant pos <= 136 && base + pos <= found && Block(s, buf[..], base)
      invariant Find(s, base + pos, i, n) == found
      decreases found - base - pos
    {
      if pos >= 136 {
        base := base + 136;
        Squeeze(s, base, buf, 0, 136);
        pos := 0;
      }
      FindUnfold(s, base + pos, i, n);
      b := buf[pos];
      assert b == buf[..][pos];
      pos := pos + 1;
      if !(b > i) {
        break;
      }
    }
  }

  /** poly_challenge: blocks of 136 bytes, an index at most i for each i from 196 on. */
  method PolyChallenge(s: Stream, c: array<int32>, ghost n: nat)
    requires c.Length == 256 && Decided(s, n)
    modifies c
    ensures c[..] == ChallengeSpec(s, n)
  {
    hide Find, Ball, SignWord, Block, Pow2;
    PowStart();
    var buf := new byte[136];
    Squeeze(s, 0, buf, 0, 136);
    FirstBlock(s, buf[..]);
    var signs := ReadSigns(s, buf);
    var pos, base := 8, 0;
    ZeroFill(c);
    BallStart(s, n);
    for i := 196 to 256
      invariant pos <= 136 && Block(s, buf[..], base) && fresh(buf)
      invariant Ball(s, i - 196, n) == (c[..], base + pos)
      invariant signs == SignWord(s, 8) / Pow2(i - 196)
    {
      ghost var k: nat, before: seq<int> := i - 195, c[..];
      BallMonotone(s, k, TAU, n);
      BallStep(s, k, n);
      var b: byte;
      b, base, pos := Draw(s, buf, base, pos, i, n);
      assert c[..] == before;
      c[i] := c[b];
      var bit: int := signs % 2;
      c[b] := 1 - 2 * bit;
      assert c[..] == before[i := before[b]][b := 1 - 2 * bit];
      signs := signs / 2;
      HalfAgain(SignWord(s, 8), k - 1);
    }
  }

  lemma PowStart()
    ensures Pow2(0) == 1
  {
  }

  lemma FirstBlock(s: Stream, buf: seq<byte>)
    requires |buf| == 136 && forall i :: 0 <= i < 136 ==> buf[i] == s(i)
    ensures Block(s, buf, 0)
  {
  }

  method ZeroFill(c: array<int32>)
    modifies c
    ensures c[..] == seq(c.Length, _ => 0)
  {
    for i := 0 to c.Length
      invariant forall j :: 0 <= j < i ==> c[j] == 0
    {
      c[i] := 0;
    }
  }
}
