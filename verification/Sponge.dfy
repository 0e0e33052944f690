/**
  The three sponges of src/mldsa87 (shake256.c, shake128.c, keccak256.c) against the block sponge of
  section 4 of FIPS 202.  The code keeps 25 lanes and reaches a byte by shifting its lane; the
  specification works on 200 bytes and whole blocks.  keccakf is a parameter: any function on 25 lanes.
 */
module Sponge {
  import opened Words

  type Lanes = s: seq<bv64> | |s| == 25 witness seq(25, _ => 0)
  type State = s: seq<bv8> | |s| == 200 witness seq(200, _ => 0)
  type Permutation = Lanes -> Lanes

  // ------------------------------------------------------------------ bytes of lanes

  /** x << (8 * j) */
  function Up(x: bv64, j: nat): bv64
    requires j < 8
  {
    match j
    case 0 => x case 1 => x << 8 case 2 => x << 16 case 3 => x << 24
    case 4 => x << 32 case 5 => x << 40 case 6 => x << 48 case 7 => x << 56
  }

  /** (x >> (8 * k)) & 0xFF */
  function ByteOf(x: bv64, k: nat): bv8
    requires k < 8
  {
    match k
    case 0 => (x & 0xFF) as bv8
    case 1 => ((x >> 8) & 0xFF) as bv8
    case 2 => ((x >> 16) & 0xFF) as bv8
    case 3 => ((x >> 24) & 0xFF) as bv8
    case 4 => ((x >> 32) & 0xFF) as bv8
    case 5 => ((x >> 40) & 0xFF) as bv8
    case 6 => ((x >> 48) & 0xFF) as bv8
    case 7 => ((x >> 56) & 0xFF) as bv8
  }

  /** The exclusive or of lanes, and of bytes. */
  function Xor64(x: bv64, y: bv64): bv64 {
    x ^ y
  }

  function Xor8(x: bv8, y: bv8): bv8 {
    x ^ y
  }

  /** (uint64_t) b << (8 * j) */
  function ShiftedByte(b: bv8, j: nat): bv64
    requires j < 8
  {
    Up(b as bv64, j)
  }

  lemma XorByte0(x: bv64, b: bv8, k: nat)
    requires k < 8
    ensures ByteOf(Xor64(x, ShiftedByte(b, 0)), k) == if k == 0 then Xor8(ByteOf(x, k), b) else ByteOf(x, k)
  {
    if k < 4 {
    }
  }

  lemma XorByte1(x: bv64, b: bv8, k: nat)
    requires k < 8
    ensures ByteOf(Xor64(x, ShiftedByte(b, 1)), k) == if k == 1 then Xor8(ByteOf(x, k), b) else ByteOf(x, k)
  {
    if k < 4 {
    }
  }

  lemma XorByte2(x: bv64, b: bv8, k: nat)
    requires k < 8
    ensures ByteOf(Xor64(x, ShiftedByte(b, 2)), k) == if k == 2 then Xor8(ByteOf(x, k), b) else ByteOf(x, k)
  {
    if k < 4 {
    }
  }

  lemma XorByte3(x: bv64, b: bv8, k: nat)
    requires k < 8
    ensures ByteOf(Xor64(x, ShiftedByte(b, 3)), k) == if k == 3 then Xor8(ByteOf(x, k), b) else ByteOf(x, k)
  {
    if k < 4 {
    }
  }

  lemma XorByte4(x: bv64, b: bv8, k: nat)
    requires k < 8
    ensures ByteOf(Xor64(x, ShiftedByte(b, 4)), k) == if k == 4 then Xor8(ByteOf(x, k), b) else ByteOf(x, k)
  {
    if k < 4 {
    }
  }

  lemma XorByte5(x: bv64, b: bv8, k: nat)
    requires k < 8
    ensures ByteOf(Xor64(x, ShiftedByte(b, 5)), k) == if k == 5 then Xor8(ByteOf(x, k), b) else ByteOf(x, k)
  {
    if k < 4 {
    }
  }

  lemma XorByte6(x: bv64, b: bv8, k: nat)
    requires k < 8
    ensures ByteOf(Xor64(x, ShiftedByte(b, 6)), k) == if k == 6 then Xor8(ByteOf(x, k), b) else ByteOf(x, k)
  {
    if k < 4 {
    }
  }

  lemma XorByte7(x: bv64, b: bv8, k: nat)
    requires k < 8
    ensures ByteOf(Xor64(x, ShiftedByte(b, 7)), k) == if k == 7 then Xor8(ByteOf(x, k), b) else ByteOf(x, k)
  {
    if k < 4 {
    }
  }

  /** Xoring a shifted byte into a lane xors it into one byte of the lane. */
  lemma XorByte(x: bv64, b: bv8, j: nat, k: nat)
    requires j < 8 && k < 8
    ensures ByteOf(Xor64(x, ShiftedByte(b, j)), k) == if k == j then Xor8(ByteOf(x, k), b) else ByteOf(x, k)
  {
    hide Up, ByteOf, Xor64, Xor8, ShiftedByte;
    match j {
      case 0 => XorByte0(x, b, k);
      case 1 => XorByte1(x, b, k);
      case 2 => XorByte2(x, b, k);
      case 3 => XorByte3(x, b, k);
      case 4 => XorByte4(x, b, k);
      case 5 => XorByte5(x, b, k);
      case 6 => XorByte6(x, b, k);
      case 7 => XorByte7(x, b, k);
    }
  }

  lemma XorLaws(x: bv8, y: bv8, z: bv8)
    ensures Xor8(x, 0) == x && Xor8(Xor8(x, y), z) == Xor8(x, Xor8(y, z))
  {
  }

  /** The 200 bytes of a state of 25 lanes. */
  function BytesOf(s: Lanes): State {
    seq(200, i requires 0 <= i < 200 => ByteOf(s[i / 8], i % 8))
  }

  /** ctx->s[i / 8] ^= (uint64_t) b << (8 * (i % 8)) */
  function XorIn(s: Lanes, i: nat, b: bv8): Lanes
    requires i < 200
  {
    s[i / 8 := Xor64(s[i / 8], ShiftedByte(b, i % 8))]
  }

  /** On the byte state the assignment changes byte i only. */
  lemma XorInBytes(s: Lanes, i: nat, b: bv8)
    requires i < 200
    ensures BytesOf(XorIn(s, i, b)) == BytesOf(s)[i := Xor8(BytesOf(s)[i], b)]
  {
    hide ByteOf, Xor64, Xor8, ShiftedByte;
    var t := XorIn(s, i, b);
    forall k | 0 <= k < 200
      ensures BytesOf(t)[k] == if k == i then Xor8(BytesOf(s)[i], b) else BytesOf(s)[k]
    {
      if k / 8 == i / 8 {
        XorByte(s[i / 8], b, i % 8, k % 8);
      }
    }
  }

  // ------------------------------------------------------------------ the block sponge

  /** The lane with the given bytes. */
  function Combine(b: seq<bv8>): bv64
    requires |b| == 8
  {
    (b[0] as bv64) | ((b[1] as bv64) << 8) | ((b[2] as bv64) << 16) | ((b[3] as bv64) << 24)
    | ((b[4] as bv64) << 32) | ((b[5] as bv64) << 40) | ((b[6] as bv64) << 48) | ((b[7] as bv64) << 56)
  }

  function LanesOf(st: State): Lanes {
    seq(25, i requires 0 <= i < 25 => Combine(st[8 * i..8 * i + 8]))
  }

  lemma Recombine(x: bv64)
    ensures Combine([ByteOf(x, 0), ByteOf(x, 1), ByteOf(x, 2), ByteOf(x, 3),
                     ByteOf(x, 4), ByteOf(x, 5), ByteOf(x, 6), ByteOf(x, 7)]) == x
  {
  }

  /** Lanes are determined by their bytes. */
  lemma LanesOfBytes(s: Lanes)
    ensures LanesOf(BytesOf(s)) == s
  {
    hide ByteOf, Combine, BytesOf;
    forall i | 0 <= i < 25
      ensures Combine(BytesOf(s)[8 * i..8 * i + 8]) == s[i]
    {
      Recombine(s[i]);
      LaneBytes(s, i);
    }
  }

  /** The bytes of lane i. */
  lemma LaneBytes(s: Lanes, i: nat)
    requires i < 25
    ensures BytesOf(s)[8 * i..8 * i + 8] == [ByteOf(s[i], 0), ByteOf(s[i], 1), ByteOf(s[i], 2), ByteOf(s[i], 3),
                                             ByteOf(s[i], 4), ByteOf(s[i], 5), ByteOf(s[i], 6), ByteOf(s[i], 7)]
  {
    hide ByteOf, BytesOf;
    var b := BytesOf(s)[8 * i..8 * i + 8];
    ByteAt(s, i, 0);
    ByteAt(s, i, 1);
    ByteAt(s, i, 2);
    ByteAt(s, i, 3);
    ByteAt(s, i, 4);
    ByteAt(s, i, 5);
    ByteAt(s, i, 6);
    ByteAt(s, i, 7);
    assert b == [b[0], b[1], b[2], b[3], b[4], b[5], b[6], b[7]];
  }

  lemma ByteAt(s: Lanes, i: nat, k: nat)
    requires i < 25 && k < 8
    ensures BytesOf(s)[8 * i..8 * i + 8][k] == ByteOf(s[i], k)
  {
    hide ByteOf;
    assert (8 * i + k) / 8 == i && (8 * i + k) % 8 == k;
  }

  /** keccakf on the byte state. */
  function OnBytes(f: Permutation): State -> State {
    (st: State) => BytesOf(f(LanesOf(st)))
  }

  lemma OnBytesIs(f: Permutation, s: Lanes)
    ensures OnBytes(f)(BytesOf(s)) == BytesOf(f(s))
  {
    hide BytesOf, LanesOf;
    LanesOfBytes(s);
  }

  // ------------------------------------------------------------------ the block sponge

  function Zero(): State {
    seq(200, _ => 0)
  }

  /** The exclusive or of the first bytes of a state with a block. */
  function XorBlock(st: State, p: seq<bv8>): State
    requires |p| <= 200
  {
    seq(200, i requires 0 <= i < 200 => if i < |p| then Xor8(st[i], p[i]) else st[i])
  }

  /** Absorbing whole blocks: section 4 of FIPS 202. */
  ghost function Absorb(g: State -> State, rate: nat, st: State, p: seq<bv8>): State
    requires 0 < rate <= 200
    decreases |p|
  {
    if |p| < rate then st else Absorb(g, rate, g(XorBlock(st, p[..rate])), p[rate..])
  }

  /** The padded message: the suffix bits, zeros, and a last one. */
  function Pad(m: seq<bv8>, rate: nat, suffix: bv8): (r: seq<bv8>)
    requires rate > 0
  {
    var n := rate - |m| % rate;
    m + (if n == 1 then [Xor8(suffix, 0x80)] else [suffix] + seq(n - 2, _ => 0) + [0x80])
  }

  /** The state after k further permutations. */
  ghost function Iterate(g: State -> State, st: State, k: nat): State {
    if k == 0 then st else g(Iterate(g, st, k - 1))
  }

  /** Byte n of the output of the sponge on a message. */
  ghost function Output(g: State -> State, rate: nat, suffix: bv8, m: seq<bv8>, n: nat): bv8
    requires 0 < rate <= 200
  {
    RemainderBound(n, rate);
    Iterate(g, Absorb(g, rate, Zero(), Pad(m, rate, suffix)), n / rate)[n % rate]
  }

  lemma RemainderBound(n: nat, rate: nat)
    requires rate > 0
    ensures 0 <= n % rate < rate && 0 <= n / rate
  {
    DivMod(n, rate);
  }

  // ------------------------------------------------------------------ byte by byte

  /** The state while a message is absorbed byte by byte: whole blocks, then the bytes of the last one. */
  ghost function Partial(g: State -> State, rate: nat, st: State, m: seq<bv8>): State
    requires 0 < rate <= 200
    decreases |m|
  {
    if |m| < rate then XorBlock(st, m) else Partial(g, rate, g(XorBlock(st, m[..rate])), m[rate..])
  }

  lemma SubtractRate(n: nat, rate: nat)
    requires n >= rate > 0
    ensures (n - rate) % rate == n % rate
  {
    DivMod(n - rate, rate);
    DivUnique(n, rate, (n - rate) / rate + 1, (n - rate) % rate);
  }

  lemma BelowRate(n: nat, rate: nat)
    requires n < rate
    ensures n % rate == n
  {
    DivUnique(n, rate, 0, n);
  }

  /** One more byte: it is xored in at its position, and a full block is permuted. */
  lemma {:induction false} PartialStep(g: State -> State, rate: nat, st: State, m: seq<bv8>, b: bv8)
    requires 0 < rate <= 200
    ensures 0 <= |m| % rate < rate
    ensures var s := Partial(g, rate, st, m);
      var t := s[|m| % rate := Xor8(s[|m| % rate], b)];
      Partial(g, rate, st, m + [b]) == if |m| % rate + 1 == rate then g(t) else t
    decreases |m|
  {
    hide Xor8;
    DivMod(|m|, rate);
    if |m| < rate {
      BelowRate(|m|, rate);
      LastByte(g, rate, st, m, b);
    } else {
      SubtractRate(|m|, rate);
      PartialStep(g, rate, g(XorBlock(st, m[..rate])), m[rate..], b);
      assert (m + [b])[..rate] == m[..rate] && (m + [b])[rate..] == m[rate..] + [b];
    }
  }

  lemma LastByte(g: State -> State, rate: nat, st: State, m: seq<bv8>, b: bv8)
    requires |m| < rate <= 200
    ensures var t := XorBlock(st, m)[|m| := Xor8(st[|m|], b)];
      Partial(g, rate, st, m + [b]) == if |m| + 1 == rate then g(t) else t
  {
    hide Xor8;
    var p := m + [b];
    assert XorBlock(st, p) == XorBlock(st, m)[|m| := Xor8(st[|m|], b)];
    if |p| == rate {
      assert p[..rate] == p && p[rate..] == [];
      assert XorBlock(g(XorBlock(st, p)), []) == g(XorBlock(st, p));
    }
  }

  /** Padding and the last permutation, on the state that the absorbed bytes left. */
  lemma {:induction false} Finalized(g: State -> State, rate: nat, st: State, m: seq<bv8>, suffix: bv8)
    requires 0 < rate <= 200
    ensures 0 <= |m| % rate < rate
    ensures var s := Partial(g, rate, st, m);
      var t := s[|m| % rate := Xor8(s[|m| % rate], suffix)];
      Absorb(g, rate, st, Pad(m, rate, suffix)) == g(t[rate - 1 := Xor8(t[rate - 1], 0x80)])
    decreases |m|
  {
    hide Xor8;
    DivMod(|m|, rate);
    var p := Pad(m, rate, suffix);
    if |m| < rate {
      BelowRate(|m|, rate);
      LastBlock(g, rate, st, m, suffix);
    } else {
      SubtractRate(|m|, rate);
      Finalized(g, rate, g(XorBlock(st, m[..rate])), m[rate..], suffix);
      assert p[..rate] == m[..rate];
      assert p[rate..] == Pad(m[rate..], rate, suffix);
    }
  }

  lemma LastBlock(g: State -> State, rate: nat, st: State, m: seq<bv8>, suffix: bv8)
    requires |m| < rate <= 200
    ensures var s := XorBlock(st, m);
      var t := s[|m| := Xor8(s[|m|], suffix)];
      Absorb(g, rate, st, Pad(m, rate, suffix)) == g(t[rate - 1 := Xor8(t[rate - 1], 0x80)])
  {
    BelowRate(|m|, rate);
    var p := Pad(m, rate, suffix);
    assert |p| == rate && p[..rate] == p && p[rate..] == [];
    hide Pad, Xor8;
    forall i | 0 <= i < 200
      ensures XorBlock(st, p)[i] == PaddedBlock(st, m, rate, suffix)[i]
    {
      LastBlockByte(st, m, rate, suffix, i);
    }
    assert XorBlock(st, p) == PaddedBlock(st, m, rate, suffix);
  }

  /** A block with its padding, byte by byte. */
  ghost function PaddedBlock(st: State, m: seq<bv8>, rate: nat, suffix: bv8): State
    requires |m| < rate <= 200
  {
    var s := XorBlock(st, m);
    var t := s[|m| := Xor8(s[|m|], suffix)];
    t[rate - 1 := Xor8(t[rate - 1], 0x80)]
  }

  /** The bytes of a padded last block. */
  lemma PadAt(m: seq<bv8>, rate: nat, suffix: bv8, i: nat)
    requires |m| < rate && i < rate
    ensures |Pad(m, rate, suffix)| == rate
    ensures Pad(m, rate, suffix)[i] ==
      if i < |m| then m[i]
      else if i == |m| then if i == rate - 1 then Xor8(suffix, 0x80) else suffix
      else if i == rate - 1 then 0x80 else 0
  {
    hide Xor8;
    BelowRate(|m|, rate);
    var n := rate - |m|;
    if n > 1 {
      assert Pad(m, rate, suffix) == m + [suffix] + seq(n - 2, _ => 0) + [0x80];
    } else {
      assert Pad(m, rate, suffix) == m + [Xor8(suffix, 0x80)];
    }
  }

  lemma LastBlockByte(st: State, m: seq<bv8>, rate: nat, suffix: bv8, i: nat)
    requires |m| < rate <= 200 && i < 200
    ensures |Pad(m, rate, suffix)| == rate
    ensures XorBlock(st, Pad(m, rate, suffix))[i] == PaddedBlock(st, m, rate, suffix)[i]
  {
    XorLaws(st[i], suffix, 0x80);
    hide Xor8, Pad;
    PadAt(m, rate, suffix, 0);
    if i < rate {
      PadAt(m, rate, suffix, i);
    }
  }

  // ------------------------------------------------------------------ the contexts

  /** What a context holds: the bytes of its state and its position, from its history alone. */
  ghost predicate Holds(f: Permutation, rate: nat, suffix: bv8, s: Lanes, pos: nat, squeezing: bool,
                        absorbed: seq<bv8>, taken: nat)
    requires 0 < rate <= 200
  {
    RemainderBound(taken, rate);
    RemainderBound(|absorbed|, rate);
    hide OnBytes, Partial, Absorb, Pad, Iterate;
    var g := OnBytes(f);
    if squeezing then
      && BytesOf(s) == Iterate(g, Absorb(g, rate, Zero(), Pad(absorbed, rate, suffix)), taken / rate)
      && pos == taken % rate
    else
      taken == 0 && BytesOf(s) == Partial(g, rate, Zero(), absorbed) && pos == |absorbed| % rate
  }

  /** The state after some bytes does not depend on how they were divided over calls. */
  lemma HistoryDetermines(f: Permutation, rate: nat, suffix: bv8, s: Lanes, t: Lanes, p: nat, q: nat, squeezing: bool,
                          absorbed: seq<bv8>, taken: nat)
    requires 0 < rate <= 200
    requires Holds(f, rate, suffix, s, p, squeezing, absorbed, taken)
    requires Holds(f, rate, suffix, t, q, squeezing, absorbed, taken)
    ensures s == t && p == q
  {
    hide BytesOf, LanesOf;
    LanesOfBytes(s);
    LanesOfBytes(t);
  }

  lemma AbsorbStep(f: Permutation, rate: nat, suffix: bv8, s: Lanes, pos: nat, absorbed: seq<bv8>, b: bv8)
    requires 0 < rate <= 200 && Holds(f, rate, suffix, s, pos, false, absorbed, 0)
    ensures pos < rate
    ensures var t := XorIn(s, pos, b);
      if pos + 1 == rate then Holds(f, rate, suffix, f(t), 0, false, absorbed + [b], 0)
      else Holds(f, rate, suffix, t, pos + 1, false, absorbed + [b], 0)
  {
    hide BytesOf, XorIn, Partial, OnBytes;
    PartialStep(OnBytes(f), rate, Zero(), absorbed, b);
    XorInBytes(s, pos, b);
    OnBytesIs(f, XorIn(s, pos, b));
    NextRemainder(|absorbed|, rate);
  }

  lemma NextRemainder(n: nat, rate: nat)
    requires rate > 0
    ensures n % rate < rate
    ensures if n % rate + 1 == rate then (n + 1) % rate == 0 && (n + 1) / rate == n / rate + 1
      else (n + 1) % rate == n % rate + 1 && (n + 1) / rate == n / rate
  {
    DivMod(n, rate);
    if n % rate + 1 == rate {
      assert rate * (n / rate + 1) == rate * (n / rate) + rate;
      DivUnique(n + 1, rate, n / rate + 1, 0);
    } else {
      DivUnique(n + 1, rate, n / rate, n % rate + 1);
    }
  }

  lemma FinalizeStep(f: Permutation, rate: nat, suffix: bv8, s: Lanes, pos: nat, absorbed: seq<bv8>)
    requires 0 < rate <= 200 && Holds(f, rate, suffix, s, pos, false, absorbed, 0)
    ensures pos < rate
    ensures Holds(f, rate, suffix, f(XorIn(XorIn(s, pos, suffix), rate - 1, 0x80)), 0, true, absorbed, 0)
  {
    hide BytesOf, XorIn, Partial, OnBytes, Absorb, Pad;
    Finalized(OnBytes(f), rate, Zero(), absorbed, suffix);
    var t := XorIn(s, pos, suffix);
    XorInBytes(s, pos, suffix);
    XorInBytes(t, rate - 1, 0x80);
    OnBytesIs(f, XorIn(t, rate - 1, 0x80));
    BelowRate(0, rate);
    DivUnique(0, rate, 0, 0);
  }

  lemma SqueezeStep(f: Permutation, rate: nat, suffix: bv8, s: Lanes, pos: nat, absorbed: seq<bv8>, taken: nat)
    requires 0 < rate <= 200 && Holds(f, rate, suffix, s, pos, true, absorbed, taken)
    ensures pos < rate && ByteOf(s[pos / 8], pos % 8) == Output(OnBytes(f), rate, suffix, absorbed, taken)
    ensures if pos + 1 == rate then Holds(f, rate, suffix, f(s), 0, true, absorbed, taken + 1)
      else Holds(f, rate, suffix, s, pos + 1, true, absorbed, taken + 1)
  {
    hide OnBytes, Absorb, Pad, ByteOf;
    NextRemainder(taken, rate);
    OnBytesIs(f, s);
    RemainderBound(taken, rate);
    assert BytesOf(s)[pos] == ByteOf(s[pos / 8], pos % 8);
  }

  /** shake256_ctx, shake128_ctx and keccak256_ctx; absorbed and taken record the history. */
  class Context {
    const f: Permutation
    const rate: nat
    const suffix: bv8
    const s: array<bv64>
    var pos: nat
    var squeezing: bool
    ghost var absorbed: seq<bv8>
    ghost var taken: nat

    ghost predicate Valid()
      reads this, s
    {
      && s.Length == 25 && 0 < rate <= 200
      && Holds(f, rate, suffix, s[..], pos, squeezing, absorbed, taken)
    }

    /** *_init: rate 136 or 168, suffix 0x1F or 0x01. */
    constructor (f: Permutation, rate: nat, suffix: bv8)
      requires 0 < rate <= 200
      ensures Valid() && fresh(s) && this.f == f && this.rate == rate && this.suffix == suffix
      ensures absorbed == [] && !squeezing
    {
      this.f, this.rate, this.suffix := f, rate, suffix;
      s := new bv64[25](_ => 0);
      pos, squeezing, absorbed, taken := 0, false, [], 0;
      new;
      assert s[..] == seq(25, _ => 0);
      BelowRate(0, rate);
      ZeroBytes();
      assert XorBlock(Zero(), []) == Zero();
    }

    /** keccakf(ctx->s), and the position back to 0. */
    method Permute()
      requires s.Length == 25
      modifies s, this`pos
      ensures s[..] == f(old(s[..])) && pos == 0
    {
      var t := f(s[..]);
      for i := 0 to 25
        invariant forall k :: 0 <= k < i ==> s[k] == t[k]
      {
        s[i] := t[i];
      }
      pos := 0;
    }

    /** *_absorb */
    method AbsorbBytes(input: seq<bv8>)
      requires Valid() && !squeezing
      modifies this`pos, this`absorbed, s
      ensures Valid() && !squeezing && absorbed == old(absorbed) + input
    {
      hide Holds, ShiftedByte, Xor64;
      NothingTaken();
      for n := 0 to |input|
        invariant s.Length == 25 && 0 < rate <= 200 && !squeezing && taken == 0
        invariant Holds(f, rate, suffix, s[..], pos, false, absorbed, 0)
        invariant absorbed == old(absorbed) + input[..n]
      {
        ghost var before := s[..];
        AbsorbStep(f, rate, suffix, before, pos, absorbed, input[n]);
        var i := pos;
        pos := pos + 1;
        s[i / 8] := Xor64(s[i / 8], ShiftedByte(input[n], i % 8));
        assert s[..] == XorIn(before, i, input[n]);
        if pos == rate {
          Permute();
        }
        absorbed := absorbed + [input[n]];
      }
    }

    /** *_finalize: the suffix and the last bit may share a byte. */
    method Finalize()
      requires Valid() && !squeezing
      modifies this`pos, this`squeezing, s
      ensures Valid() && squeezing && taken == 0
    {
      hide Holds, ShiftedByte, Xor64;
      NothingTaken();
      ghost var before := s[..];
      FinalizeStep(f, rate, suffix, before, pos, absorbed);
      s[pos / 8] := Xor64(s[pos / 8], ShiftedByte(suffix, pos % 8));
      ghost var middle := s[..];
      assert middle == XorIn(before, pos, suffix);
      s[(rate - 1) / 8] := Xor64(s[(rate - 1) / 8], ShiftedByte(0x80, (rate - 1) % 8));
      assert s[..] == XorIn(middle, rate - 1, 0x80);
      Permute();
      squeezing := true;
    }

    lemma NothingTaken()
      requires Valid() && !squeezing
      ensures taken == 0
    {
    }

    /** *_squeeze: the next bytes of the one output stream, however many calls take them. */
    method Squeeze(out: array<bv8>)
      requires Valid() && out as object != s
      modifies this`pos, this`squeezing, this`taken, s, out
      ensures Valid() && squeezing && taken == old(taken) + out.Length
      ensures forall k :: 0 <= k < out.Length ==> out[k] == Output(OnBytes(f), rate, suffix, absorbed, old(taken) + k)
    {
      hide Holds, Output;
      if !squeezing {
        NothingTaken();
        Finalize();
      }
      ghost var first := taken;
      for n := 0 to out.Length
        invariant s.Length == 25 && 0 < rate <= 200 && squeezing && taken == first + n
        invariant Holds(f, rate, suffix, s[..], pos, true, absorbed, taken)
        invariant forall k :: 0 <= k < n ==> out[k] == Output(OnBytes(f), rate, suffix, absorbed, first + k)
      {
        SqueezeStep(f, rate, suffix, s[..], pos, absorbed, taken);
        out[n] := ByteOf(s[pos / 8], pos % 8);
        pos := pos + 1;
        if pos == rate {
          Permute();
        }
        taken := taken + 1;
      }
    }
  }

  lemma ZeroBytes()
    ensures BytesOf(seq(25, _ => 0)) == Zero()
  {
  }

  // ------------------------------------------------------------------ section 3.1 and 4 of FIPS 202, literally

  /** The lowest byte of a lane is its first byte. */
  lemma ByteOrder(x: bv64)
    ensures x == (ByteOf(x, 0) as bv64) | ((ByteOf(x, 1) as bv64) << 8) | ((ByteOf(x, 2) as bv64) << 16)
      | ((ByteOf(x, 3) as bv64) << 24) | ((ByteOf(x, 4) as bv64) << 32) | ((ByteOf(x, 5) as bv64) << 40)
      | ((ByteOf(x, 6) as bv64) << 48) | ((ByteOf(x, 7) as bv64) << 56)
  {
  }

  /** Lane i holds the bytes 8*i to 8*i + 7 of the state. */
  lemma StateBytes(s: Lanes, i: nat, k: nat)
    requires i < 25 && k < 8
    ensures BytesOf(s)[8 * i + k] == ByteOf(s[i], k)
  {
    hide ByteOf;
    assert (8 * i + k) / 8 == i && (8 * i + k) % 8 == k;
  }

  /** One block is xored into the first bytes of the state, which is then permuted; less than a block is left. */
  lemma AbsorbMeaning(g: State -> State, rate: nat, st: State, b: seq<bv8>, rest: seq<bv8>)
    requires 0 < rate <= 200 && |b| == rate
    ensures Absorb(g, rate, st, b + rest) ==
      Absorb(g, rate, g(seq(200, i requires 0 <= i < 200 => if i < rate then st[i] ^ b[i] else st[i])), rest)
    ensures |rest| < rate ==> Absorb(g, rate, st, rest) == st
    ensures forall i :: 0 <= i < 200 ==> Zero()[i] == 0
  {
    assert (b + rest)[..rate] == b && (b + rest)[rate..] == rest;
    assert XorBlock(st, b) == seq(200, i requires 0 <= i < 200 => if i < rate then st[i] ^ b[i] else st[i]);
  }

  /** The padded message is the one whole number of blocks with the suffix, zeros and the bit 0x80 behind it. */
  lemma PadMeaning(text: seq<bv8>, rate: nat, suffix: bv8, m: nat)
    requires rate >= 2
    ensures (|text| + 2 + m) % rate == 0 && m <= rate - 2 ==>
      Pad(text, rate, suffix) == text + [suffix] + seq(m, _ => 0) + [0x80]
    ensures (|text| + 1) % rate == 0 ==> Pad(text, rate, suffix) == text + [suffix ^ 0x80]
  {
    if (|text| + 2 + m) % rate == 0 && m <= rate - 2 {
      Left(|text|, rate, m + 2);
      assert text + ([suffix] + seq(m, _ => 0) + [0x80]) == text + [suffix] + seq(m, _ => 0) + [0x80];
    }
    if (|text| + 1) % rate == 0 {
      Left(|text|, rate, 1);
    }
  }

  lemma Left(n: nat, rate: nat, k: nat)
    requires 0 < k <= rate && (n + k) % rate == 0
    ensures rate - n % rate == k
  {
    DivMod(n + k, rate);
    var d := (n + k) / rate;
    assert rate * (d - 1) == rate * d - rate;
    DivUnique(n, rate, d - 1, rate - k);
  }
}
