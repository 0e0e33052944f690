/** The sponges as the streams that signing reads: one hash call of sign.c, absorbed in parts. */
module Hashing {
  import opened Words
  import opened Sampling
  import opened Signing
  import Sponge

  function ToBits(s: seq<byte>): (r: seq<bv8>)
    ensures |r| == |s|
  {
    seq(|s|, i requires 0 <= i < |s| => s[i] as bv8)
  }

  /** A sponge as a function from an input to a stream of bytes. */
  ghost function AsXof(f: Sponge.Permutation, rate: nat, suffix: bv8): Xof
    requires 0 < rate <= 200
  {
    (input: seq<byte>, n: nat) => Sponge.Output(Sponge.OnBytes(f), rate, suffix, ToBits(input), n) as int
  }

  /** keccak256.c: 32 bytes of the sponge at rate 136 with the padding of the original Keccak. */
  ghost function Keccak256(f: Sponge.Permutation): seq<byte> -> seq<byte> {
    (text: seq<byte>) => Bytes(AsXof(f, 136, 0x01), text, 0, 32)
  }

  /** keccak256_init, one absorb call, finalize, squeeze. */
  method HashText(f: Sponge.Permutation, text: seq<byte>) returns (r: seq<byte>)
    ensures r == Keccak256(f)(text)
  {
    hide AsXof, Bytes;
    assert Concat([text]) == text;
    r := HashParts(f, 136, 0x01, [text], 32);
  }

  function Concat(parts: seq<seq<byte>>): seq<byte> {
    if parts == [] then [] else Concat(parts[..|parts| - 1]) + parts[|parts| - 1]
  }

  lemma ToBitsConcat(s: seq<byte>, t: seq<byte>)
    ensures ToBits(s + t) == ToBits(s) + ToBits(t)
  {
  }

  /**
    shake256_init, one absorb call per part, finalize, squeeze: the bytes that the specification reads
    from the stream of the concatenated parts.
   */
  method HashParts(f: Sponge.Permutation, rate: nat, suffix: bv8, parts: seq<seq<byte>>, len: nat)
    returns (r: seq<byte>)
    requires 0 < rate <= 200
    ensures r == Bytes(AsXof(f, rate, suffix), Concat(parts), 0, len)
  {
    hide Sponge.Output, Sponge.Holds, ToBits;
    var ctx := new Sponge.Context(f, rate, suffix);
    NoParts(parts);
    for i := 0 to |parts|
      invariant ctx.Valid() && !ctx.squeezing && ctx.absorbed == ToBits(Concat(parts[..i]))
      invariant fresh(ctx) && fresh(ctx.s) && ctx.f == f && ctx.rate == rate && ctx.suffix == suffix
    {
      ctx.AbsorbBytes(ToBits(parts[i]));
      assert parts[..i + 1][..i] == parts[..i];
      ToBitsConcat(Concat(parts[..i]), parts[i]);
    }
    assert parts[..|parts|] == parts;
    ctx.Finalize();
    var out := new bv8[len];
    ctx.Squeeze(out);
    var bytes := new byte[len];
    for k := 0 to len
      invariant forall m :: 0 <= m < k ==> bytes[m] == out[m] as int
      modifies bytes
    {
      bytes[k] := out[k] as int;
    }
    r := bytes[..];
  }

  lemma NoParts(parts: seq<seq<byte>>)
    ensures ToBits(Concat(parts[..0])) == []
  {
  }

  /** keccak256: blocks of 136 bytes, suffix 0x01 and last bit 0x80; the result is the first 32 bytes of the state. */
  lemma KeccakMeaning(f: Sponge.Permutation, text: seq<byte>, m: nat, i: nat)
    requires i < 32
    ensures |Keccak256(f)(text)| == 32
    ensures (|text| + 2 + m) % 136 == 0 && m <= 134 ==>
      var p := ToBits(text) + [1] + seq(m, _ => 0) + [0x80];
      Keccak256(f)(text)[i] == Sponge.Absorb(Sponge.OnBytes(f), 136, Sponge.Zero(), p)[i] as int
    ensures (|text| + 1) % 136 == 0 ==>
      Keccak256(f)(text)[i] ==
      Sponge.Absorb(Sponge.OnBytes(f), 136, Sponge.Zero(), ToBits(text) + [0x81])[i] as int
    ensures forall k :: 0 <= k < |text| ==> ToBits(text)[k] == text[k] as bv8
  {
    hide Sponge.Absorb, Sponge.OnBytes, Sponge.Pad, Keccak256, ToBits, Sponge.Zero;
    Sponge.PadMeaning(ToBits(text), 136, 1, m);
    LastBit();
    KeccakByte(f, text, i);
    BitsAre(text);
  }

  lemma LastBit()
    ensures (1 as bv8) ^ 0x80 == 0x81
  {
  }

  lemma BitsAre(text: seq<byte>)
    ensures forall k :: 0 <= k < |text| ==> ToBits(text)[k] == text[k] as bv8
  {
  }

  lemma KeccakByte(f: Sponge.Permutation, text: seq<byte>, i: nat)
    requires i < 32
    ensures |Keccak256(f)(text)| == 32
    ensures Keccak256(f)(text)[i] ==
      Sponge.Absorb(Sponge.OnBytes(f), 136, Sponge.Zero(), Sponge.Pad(ToBits(text), 136, 1))[i] as int
  {
    hide Sponge.Absorb, Sponge.OnBytes, Sponge.Pad, ToBits, Sponge.Zero;
    Sponge.RemainderBound(i, 136);
    assert i / 136 == 0 && i % 136 == i;
  }

  /** The parts are absorbed one behind the other. */
  lemma ConcatMeaning(parts: seq<seq<byte>>, p: seq<byte>)
    ensures Concat([]) == [] && Concat(parts + [p]) == Concat(parts) + p
  {
    assert (parts + [p])[..|parts|] == parts;
  }
}
