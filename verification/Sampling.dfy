/**
  Rejection sampling from an extendable-output function: rej_uniform and rej_eta of poly.c and the
  samplers built on them.  A SHAKE output is an uninterpreted stream of bytes, and a sampler is told,
  by a ghost argument, how many candidates of the stream suffice; without such a bound the loops of
  the C code need not terminate.
 */
module Sampling {
  import opened Words
  import opened Modular

  /** The output bytes of an XOF on one input. */
  type Stream = nat -> byte

  /** An XOF: input and output position to output byte. */
  type Xof = (seq<byte>, nat) -> byte

  function Output(x: Xof, input: seq<byte>): Stream {
    (n: nat) => x(input, n)
  }

  /** A candidate of a rejection sampler: its value and whether it is accepted. */
  datatype Candidate = Candidate(ok: bool, value: int)

  /** Three bytes as rej_uniform reads them: little endian, 23 bits. */
  function Uniform(b0: byte, b1: byte, b2: byte): Candidate {
    var t := Or(Or(b0, b1 * 0x100), b2 * 0x1_0000) % 0x80_0000;
    Candidate(t < Q, t)
  }

  /** Where candidate k of the code starts: the first squeeze takes 842 bytes but uses 840 of them. */
  function Offset(k: nat): nat {
    if k < 280 then 3 * k else 3 * k + 2
  }

  /** Half a byte as rej_eta reads it: 0..14 are reduced modulo 5 and centred. */
  function Nibble(t: nat): Candidate
    requires t < 16
  {
    Candidate(t < 15, 2 - (t - (205 * t / 1024) * 5))
  }

  /** A numbered supply of candidates. */
  datatype Source =
    | MatrixEntry(s: Stream)    // in the order in which combined_method reads them
    | StandardEntry(s: Stream)  // consecutive triples, as Algorithm 30 of FIPS 204 reads them
    | Eta(s: Stream)            // low half, then high half of each byte
  {
    function Get(k: nat): Candidate {
      match this
      case MatrixEntry(s) => Uniform(s(Offset(k)), s(Offset(k) + 1), s(Offset(k) + 2))
      case StandardEntry(s) => Uniform(s(3 * k), s(3 * k + 1), s(3 * k + 2))
      case Eta(s) => Nibble(if k % 2 == 0 then s(k / 2) % 16 else s(k / 2) / 16)
    }
  }

  /** The values of the accepted ones among the first n candidates. */
  ghost function Accepted(c: Source, n: nat): (r: seq<int>)
    ensures |r| <= n
  {
    if n == 0 then []
    else if c.Get(n - 1).ok then Accepted(c, n - 1) + [c.Get(n - 1).value]
    else Accepted(c, n - 1)
  }

  lemma {:induction false} AcceptedPrefix(c: Source, m: nat, n: nat)
    requires m <= n
    ensures Accepted(c, m) <= Accepted(c, n)
  {
    hide Source.Get;
    if m < n {
      AcceptedPrefix(c, m, n - 1);
    }
  }

  /** The first 256 accepted values, for any sufficient number of candidates. */
  ghost function First256(c: Source, n: nat): (r: seq<int>)
    requires |Accepted(c, n)| >= 256
    ensures |r| == 256
  {
    Accepted(c, n)[..256]
  }

  /** How many candidates one looks at beyond a sufficient number does not matter. */
  lemma First256Unique(c: Source, m: nat, n: nat)
    requires |Accepted(c, m)| >= 256 && |Accepted(c, n)| >= 256
    ensures First256(c, m) == First256(c, n)
  {
    var a, b := Accepted(c, m), Accepted(c, n);
    if m <= n {
      AcceptedPrefix(c, m, n);
      assert a == b[..|a|];
    } else {
      AcceptedPrefix(c, n, m);
      assert b == a[..|b|];
    }
  }

  // ------------------------------------------------------------------ uniform coefficients

  lemma UniformValue(b0: byte, b1: byte, b2: byte)
    ensures Uniform(b0, b1, b2).value == (b0 + b1 * 0x100 + b2 * 0x1_0000) % 0x80_0000
  {
    hide Or, Pow2;
    Pow2Values();
    OrDisjoint(b0, b1, 8);
    OrDisjoint(b0 + b1 * 0x100, b2, 16);
  }

  lemma {:induction false} SameUpTo280(s: Stream, n: nat)
    requires n <= 280
    ensures Accepted(MatrixEntry(s), n) == Accepted(StandardEntry(s), n)
  {
    hide Uniform;
    if n > 0 {
      SameUpTo280(s, n - 1);
      assert MatrixEntry(s).Get(n - 1) == StandardEntry(s).Get(n - 1);
    }
  }

  /** The code samples what Algorithm 30 of FIPS 204 samples whenever 280 candidates suffice. */
  lemma AgreesWithStandard(s: Stream, n: nat)
    requires |Accepted(MatrixEntry(s), 280)| >= 256
    requires |Accepted(MatrixEntry(s), n)| >= 256
    ensures |Accepted(StandardEntry(s), 280)| >= 256
    ensures First256(MatrixEntry(s), n) == First256(StandardEntry(s), 280)
  {
    hide Accepted;
    SameUpTo280(s, 280);
    First256Unique(MatrixEntry(s), n, 280);
  }

  /** A candidate of the code: three bytes, lowest first, without the top bit; two bytes are skipped after 280. */
  lemma MatrixCandidate(s: Stream, k: nat)
    ensures var o := if k < 280 then 3 * k else 3 * k + 2;
      var v := (s(o) + 256 * s(o + 1) + 65536 * s(o + 2)) % 8388608;
      MatrixEntry(s).Get(k) == Candidate(v < 8380417, v)
  {
    hide Uniform;
    var o := Offset(k);
    UniformValue(s(o), s(o + 1), s(o + 2));
    UniformFits(s(o), s(o + 1), s(o + 2));
  }

  /** A candidate of rej_eta: the low half of a byte, then the high half; 15 is refused, d < 15 means 2 - d mod 5. */
  lemma EtaCandidate(s: Stream, k: nat)
    ensures var d := if k % 2 == 0 then s(k / 2) % 16 else s(k / 2) / 16;
      Eta(s).Get(k).ok == (d < 15) && (d < 15 ==> Eta(s).Get(k).value == 2 - d % 5)
  {
    var d := if k % 2 == 0 then s(k / 2) % 16 else s(k / 2) / 16;
    assert d < 15 ==> 205 * d / 1024 == d / 5;
  }

  /** Each accepted candidate is the next value, in order. */
  lemma {:induction false} AcceptedAt(c: Source, k: nat, n: nat)
    requires k < n
    ensures Accepted(c, 0) == [] && |Accepted(c, k + 1)| == |Accepted(c, k)| + (if c.Get(k).ok then 1 else 0)
    ensures c.Get(k).ok ==>
      |Accepted(c, k)| < |Accepted(c, n)| && Accepted(c, n)[|Accepted(c, k)|] == c.Get(k).value
  {
    hide Source.Get;
    AcceptedPrefix(c, k + 1, n);
  }

  /** The sampled polynomial: the first 256 of them. */
  lemma First256At(c: Source, k: nat, n: nat)
    requires |Accepted(c, n)| >= 256 && c.Get(k).ok && |Accepted(c, k)| < 256
    ensures First256(c, n)[|Accepted(c, k)|] == c.Get(k).value
  {
    hide Source.Get;
    if n <= k {
      AcceptedPrefix(c, n, k);
    } else {
      AcceptedAt(c, k, n);
    }
  }

  // ------------------------------------------------------------------ exactly when the code follows the standard

  /** Both samplers take the same 256 values from the stream, however many candidates one looks at. */
  ghost predicate Agrees(t: Stream) {
    forall m: nat, n: nat ::
      |Accepted(MatrixEntry(t), m)| >= 256 && |Accepted(StandardEntry(t), n)| >= 256 ==>
        First256(MatrixEntry(t), m) == First256(StandardEntry(t), n)
  }

  /** The streams share the 840 bytes that the code reads before it refills. */
  ghost predicate Same840(s: Stream, t: Stream) {
    forall i: nat :: i < 840 ==> s(i) == t(i)
  }

  lemma {:induction false} SamePrefix(s: Stream, t: Stream, n: nat)
    requires Same840(s, t) && n <= 280
    ensures Accepted(MatrixEntry(s), n) == Accepted(MatrixEntry(t), n)
  {
    hide Uniform;
    if n > 0 {
      SamePrefix(s, t, n - 1);
      assert MatrixEntry(s).Get(n - 1) == MatrixEntry(t).Get(n - 1);
    }
  }

  /** s up to byte 840, then two bytes 255, then zeros. */
  function Late(s: Stream): Stream {
    (i: nat) => if i < 840 then s(i) else if i < 842 then 255 else 0
  }

  /** Behind the first 840 bytes the code reads zeros, and the standard 255, 255, 0 first. */
  lemma LateGet(s: Stream, k: nat)
    requires k >= 280
    ensures MatrixEntry(Late(s)).Get(k) == Candidate(true, 0)
    ensures StandardEntry(Late(s)).Get(k) == Candidate(true, if k == 280 then 65535 else 0)
  {
    hide Uniform;
    assert MatrixEntry(Late(s)).Get(k) == Uniform(0, 0, 0);
    assert StandardEntry(Late(s)).Get(k) == if k == 280 then Uniform(255, 255, 0) else Uniform(0, 0, 0);
    UniformValue(0, 0, 0);
    UniformFits(0, 0, 0);
    UniformValue(255, 255, 0);
    UniformFits(255, 255, 0);
  }

  /** What both samplers have accepted after n >= 280 candidates: they differ at the first one after the refill. */
  lemma {:induction false} LateAccepted(s: Stream, n: nat)
    requires n >= 280
    ensures var m, a, b := |Accepted(MatrixEntry(s), 280)|, Accepted(MatrixEntry(Late(s)), n),
        Accepted(StandardEntry(Late(s)), n);
      |a| == |b| == m + (n - 280) && (n > 280 ==> a[m] == 0 && b[m] == 65535)
  {
    hide Source.Get, Late;
    if n > 280 {
      LateAccepted(s, n - 1);
      LateGet(s, n - 1);
    } else {
      assert Same840(s, Late(s)) by { LatePrefix(s); }
      SamePrefix(s, Late(s), 280);
      SameUpTo280(Late(s), 280);
    }
  }

  lemma LatePrefix(s: Stream)
    ensures Same840(s, Late(s))
  {
  }

  /** When a refill is needed, the continuation by Late makes the samplers differ. */
  lemma LateDisagrees(s: Stream)
    requires |Accepted(MatrixEntry(s), 280)| < 256
    ensures Same840(s, Late(s)) && !Agrees(Late(s))
    ensures var k, a, b := |Accepted(MatrixEntry(s), 280)|, MatrixEntry(Late(s)), StandardEntry(Late(s));
      && |Accepted(a, 536)| >= 256 && |Accepted(b, 536)| >= 256
      && First256(a, 536)[k] == 0 && First256(b, 536)[k] == 65535
  {
    hide Accepted, Late;
    LatePrefix(s);
    LateAccepted(s, 536);
    assert First256(MatrixEntry(Late(s)), 536) != First256(StandardEntry(Late(s)), 536);
  }

  /**
    The exact condition.  combined_method samples what Algorithm 30 of FIPS 204 samples, whatever bytes
    follow the 840 read first, if and only if these bytes hold 256 acceptable candidates, which is the
    guard of the refill loop.  The code skips two bytes when it refills.
   */
  lemma FollowsStandardIff(s: Stream)
    ensures |Accepted(MatrixEntry(s), 280)| >= 256 <==> forall t: Stream :: Same840(s, t) ==> Agrees(t)
  {
    hide Accepted, First256, Late;
    if |Accepted(MatrixEntry(s), 280)| >= 256 {
      forall t: Stream | Same840(s, t)
        ensures Agrees(t)
      {
        SamePrefix(s, t, 280);
        PrefixAgrees(t);
      }
    } else {
      LateDisagrees(s);
    }
  }

  lemma PrefixAgrees(t: Stream)
    requires |Accepted(MatrixEntry(t), 280)| >= 256
    ensures Agrees(t)
  {
    hide Accepted, First256;
    forall m: nat, n: nat | |Accepted(MatrixEntry(t), m)| >= 256 && |Accepted(StandardEntry(t), n)| >= 256
      ensures First256(MatrixEntry(t), m) == First256(StandardEntry(t), n)
    {
      AgreesWithStandard(t, m);
      First256Unique(StandardEntry(t), 280, n);
    }
  }

  /** Nothing but bytes that are refused. */
  function Refused(): Stream {
    (i: nat) => 255
  }

  lemma {:induction false} NoneAccepted(n: nat)
    requires n <= 280
    ensures Accepted(MatrixEntry(Refused()), n) == []
  {
    hide Uniform;
    if n > 0 {
      NoneAccepted(n - 1);
      UniformValue(255, 255, 255);
      UniformFits(255, 255, 255);
      assert MatrixEntry(Refused()).Get(n - 1) == Uniform(255, 255, 255);
    }
  }

  /** On 842 bytes that are refused, followed by zeros, the samplers differ. */
  lemma DisagreesWithStandard()
    ensures !Agrees(Late(Refused()))
    ensures var a, b := MatrixEntry(Late(Refused())), StandardEntry(Late(Refused()));
      && |Accepted(a, 536)| >= 256 && |Accepted(b, 536)| >= 256
      && First256(a, 536)[0] == 0 && First256(b, 536)[0] == 65535
  {
    hide Accepted, Agrees, Late;
    NoneAccepted(280);
    LateDisagrees(Refused());
  }

  lemma {:induction false} AcceptedInRange(s: Stream, n: nat)
    ensures forall i :: 0 <= i < |Accepted(MatrixEntry(s), n)| ==> 0 <= Accepted(MatrixEntry(s), n)[i] < Q
  {
    hide Uniform;
    if n > 0 {
      AcceptedInRange(s, n - 1);
      var o := Offset(n - 1);
      UniformFits(s(o), s(o + 1), s(o + 2));
      assert MatrixEntry(s).Get(n - 1) == Uniform(s(o), s(o + 1), s(o + 2));
    }
  }

  /** The sampler stands at candidate m: what was accepted so far fills the first ctr coefficients. */
  ghost predicate At(c: Source, m: nat, out: seq<int>, ctr: nat) {
    ctr == |Accepted(c, m)| && ctr <= |out| && out[..ctr] == Accepted(c, m)
  }

  /** The next candidate, refused or stored. */
  lemma AtStep(c: Source, m: nat, out: seq<int>, ctr: nat)
    requires At(c, m, out, ctr) && ctr < |out|
    ensures if c.Get(m).ok then At(c, m + 1, out[ctr := c.Get(m).value], ctr + 1) else At(c, m + 1, out, ctr)
  {
    hide Source.Get;
    if c.Get(m).ok {
      assert out[ctr := c.Get(m).value][..ctr + 1] == out[..ctr] + [c.Get(m).value];
    }
  }

  /** shakeXXX_squeeze of len bytes into a buffer, from position start of the stream. */
  method Squeeze(s: Stream, start: nat, buf: array<byte>, off: nat, len: nat)
    requires off + len <= buf.Length
    modifies buf
    ensures forall i :: off <= i < off + len ==> buf[i] == s(start + (i - off))
    ensures forall i :: 0 <= i < off ==> buf[i] == old(buf[i])
  {
    for k := 0 to len
      invariant forall i :: off <= i < off + k ==> buf[i] == s(start + (i - off))
      invariant forall i :: 0 <= i < off ==> buf[i] == old(buf[i])
    {
      buf[off + k] := s(start + k);
    }
  }

  /** The first len bytes of the buffer hold the candidates from number m on. */
  ghost predicate Holds(s: Stream, buf: seq<byte>, m: nat, len: nat) {
    && len <= |buf|
    && forall k :: 0 <= k && 3 * k + 3 <= len ==>
         Uniform(buf[3 * k], buf[3 * k + 1], buf[3 * k + 2]) == MatrixEntry(s).Get(m + k)
  }

  /** Any bytes of the stream that start where the code starts reading hold the right candidates. */
  lemma HoldsFrom(s: Stream, buf: seq<byte>, m: nat, len: nat, start: nat)
    requires len <= |buf| && forall i :: 0 <= i < len ==> buf[i] == s(start + i)
    requires (m == 0 == start && len <= 842) || (m >= 280 && start == 3 * m + 2)
    ensures Holds(s, buf, m, len)
  {
    hide Uniform;
    forall k | 0 <= k && 3 * k + 3 <= len
      ensures Uniform(buf[3 * k], buf[3 * k + 1], buf[3 * k + 2]) == MatrixEntry(s).Get(m + k)
    {
      assert Offset(m + k) == start + 3 * k;
    }
  }

  /** The loop of rej_uniform, continuing at coefficient ctr with the buffer's candidates. */
  method RejUniform(s: Stream, out: array<int32>, buf: array<byte>, bufLen: nat, first: nat, ghost m: nat)
    returns (ctr: nat, ghost used: nat)
    requires bufLen <= buf.Length && out.Length == 256
    requires At(MatrixEntry(s), m, out[..], first) && first <= 256
    requires Holds(s, buf[..], m, bufLen)
    modifies out
    ensures ctr <= 256 && At(MatrixEntry(s), m + used, out[..], ctr)
    ensures ctr < 256 ==> used == bufLen / 3
    ensures used <= bufLen / 3 && ctr >= first && (first < 256 && bufLen >= 3 ==> used > 0)
  {
    hide Uniform, At;
    var c := MatrixEntry(s);
    var pos := 0;
    ctr, used := first, 0;
    while ctr < 256 && pos + 3 <= bufLen
      invariant pos == 3 * used && pos <= bufLen && ctr <= 256
      invariant At(c, m + used, out[..], ctr)
      invariant ctr >= first && (used == 0 ==> ctr == first)
      decreases bufLen - pos
    {
      var t := Uniform(buf[pos], buf[pos + 1], buf[pos + 2]);
      assert t == c.Get(m + used) by {
        assert buf[pos] == buf[..][3 * used] && buf[pos + 1] == buf[..][3 * used + 1]
          && buf[pos + 2] == buf[..][3 * used + 2];
      }
      pos := pos + 3;
      AtStep(c, m + used, out[..], ctr);
      used := used + 1;
      if t.ok {
        UniformFits(buf[pos - 3], buf[pos - 2], buf[pos - 1]);
        out[ctr] := t.value;
        ctr := ctr + 1;
      }
    }
  }

  lemma UniformFits(b0: byte, b1: byte, b2: byte)
    ensures 0 <= Uniform(b0, b1, b2).value < 0x80_0000
    ensures Uniform(b0, b1, b2).ok <==> Uniform(b0, b1, b2).value < Q
  {
    hide Or;
  }

  /** At the end of the loops the polynomial is full, and full of the right values. */
  lemma Full(c: Source, m: nat, n: nat, out: seq<int>)
    requires |out| == 256 && At(c, m, out, 256) && |Accepted(c, n)| >= 256
    ensures out == First256(c, n)
  {
    assert out == out[..256];
    assert First256(c, m) == Accepted(c, m);
    First256Unique(c, m, n);
  }

  lemma NotYet(c: Source, m: nat, n: nat, out: seq<int>, ctr: nat)
    requires At(c, m, out, ctr) && ctr < 256 <= |Accepted(c, n)|
    ensures m < n
  {
    if n <= m {
      AcceptedPrefix(c, n, m);
    }
  }

  /**
    The sampling part of combined_method, for one matrix entry: 842 bytes first, then further blocks
    of 168 bytes while coefficients are missing.
   */
  method SampleUniform(s: Stream, out: array<int32>, buf: array<byte>, ghost n: nat)
    requires out.Length == 256 && buf.Length == 850 && out as object != buf && |Accepted(MatrixEntry(s), n)| >= 256
    modifies out, buf
    ensures out[..] == First256(MatrixEntry(s), n)
  {
    hide Accepted, First256, At, Holds, Source.Get;
    ghost var c := MatrixEntry(s);
    Squeeze(s, 0, buf, 0, 842);
    NoneYet(c, out[..]);
    HoldsFrom(s, buf[..], 0, 842, 0);
    var ctr, used := RejUniform(s, out, buf, 842, 0, 0);
    ghost var m := used;
    var bufLen, next := 840, 842;
    while ctr < 256
      invariant ctr <= 256 && At(c, m, out[..], ctr) && bufLen % 3 == 0 && bufLen <= 840
      invariant ctr < 256 ==> m >= 280 && next == 3 * m + 2
      decreases 256 - ctr, n - m
    {
      NotYet(c, m, n, out[..], ctr);
      ghost var before := out[..];
      var off := bufLen % 3;
      assert off == 0;  // both buffer lengths are multiples of 3, so no bytes are carried over
      Squeeze(s, next, buf, off, 168);
      bufLen := 168 + off;
      HoldsFrom(s, buf[..], m, bufLen, next);
      assert out[..] == before;
      ghost var more;
      ctr, more := RejUniform(s, out, buf, bufLen, ctr, m);
      m := m + more;
      next := next + 168;
    }
    Full(c, m, n, out[..]);
  }

  lemma NoneYet(c: Source, out: seq<int>)
    ensures At(c, 0, out, 0)
  {
  }

  // ------------------------------------------------------------------ short coefficients

  lemma NibbleValue(t: nat)
    requires t < 16
    ensures Nibble(t).ok ==> Nibble(t).value == 2 - t % 5
    ensures -2 <= Nibble(t).value <= 2
  {
  }

  lemma {:induction false} EtaInRange(s: Stream, n: nat)
    ensures forall i :: 0 <= i < |Accepted(Eta(s), n)| ==> -2 <= Accepted(Eta(s), n)[i] <= 2
  {
    if n > 0 {
      EtaInRange(s, n - 1);
      var k := n - 1;
      NibbleValue(if k % 2 == 0 then s(k / 2) % 16 else s(k / 2) / 16);
    }
  }

  /** rej_eta on the bytes of the stream from number start on, continuing at coefficient first. */
  method RejEta(s: Stream, out: array<int32>, buf: array<byte>, start: nat, first: nat)
    returns (ctr: nat, ghost m: nat)
    requires out.Length == 256 && out as object != buf && first <= 256
    requires At(Eta(s), 2 * start, out[..], first)
    requires forall i :: 0 <= i < buf.Length ==> buf[i] == s(start + i)
    modifies out
    ensures ctr <= 256 && At(Eta(s), m, out[..], ctr)
    ensures ctr < 256 ==> m == 2 * (start + buf.Length)
  {
    hide At, Nibble;
    var pos := 0;
    ctr, m := first, 2 * start;
    while ctr < 256 && pos < buf.Length
      invariant pos <= buf.Length && ctr <= 256 && At(Eta(s), m, out[..], ctr)
      invariant ctr < 256 ==> m == 2 * (start + pos)
    {
      var t0, t1 := Nibble(buf[pos] % 16), Nibble(buf[pos] / 16);
      assert t0 == Eta(s).Get(m) && t1 == Eta(s).Get(m + 1);
      NibbleValue(buf[pos] % 16);
      NibbleValue(buf[pos] / 16);
      pos := pos + 1;
      AtStep(Eta(s), m, out[..], ctr);
      m := m + 1;
      if t0.ok {
        out[ctr] := t0.value;
        ctr := ctr + 1;
      }
      if ctr < 256 {
        AtStep(Eta(s), m, out[..], ctr);
        m := m + 1;
        if t1.ok {
          out[ctr] := t1.value;
          ctr := ctr + 1;
        }
      }
    }
  }

  /** poly_uniform_eta: blocks of 136 bytes until the polynomial is full. */
  method SampleEta(s: Stream, out: array<int32>, ghost n: nat)
    requires out.Length == 256 && |Accepted(Eta(s), n)| >= 256
    modifies out
    ensures out[..] == First256(Eta(s), n)
  {
    hide Accepted, First256, At, Source.Get;
    ghost var c := Eta(s);
    var buf := new byte[136];
    Squeeze(s, 0, buf, 0, 136);
    NoneYet(c, out[..]);
    var ctr, m := RejEta(s, out, buf, 0, 0);
    var next := 136;
    while ctr < 256
      invariant ctr <= 256 && At(c, m, out[..], ctr) && out as object != buf && buf.Length == 136
      invariant ctr < 256 ==> m == 2 * next
      decreases 256 - ctr, n - m
    {
      NotYet(c, m, n, out[..], ctr);
      ghost var before := out[..];
      Squeeze(s, next, buf, 0, 136);
      assert out[..] == before;
      var got, used := RejEta(s, out, buf, next, ctr);
      Grows(c, m, before, ctr, used, out[..], got);
      ctr, m := got, used;
      next := next + 136;
    }
    Full(c, m, n, out[..]);
  }

  lemma Grows(c: Source, m: nat, out: seq<int>, ctr: nat, m': nat, out': seq<int>, ctr': nat)
    requires At(c, m, out, ctr) && At(c, m', out', ctr') && (m <= m' || ctr' == 256) && ctr <= 256
    ensures ctr <= ctr'
  {
    if m <= m' {
      AcceptedPrefix(c, m, m');
    }
  }
}
