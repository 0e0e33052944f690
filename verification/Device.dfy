/**
  The device: G_context and N_storage, the handler of the signing commands with the decoder, the hash and
  the signer that it calls, and what the bytes that leave it are.
 */
module Device {
  import opened Words
  import opened Rlp
  import opened RlpDecoder
  import opened Apdu
  import opened Signing
  import opened Storage
  import opened Hashing
  import Sponge

  /** crypto_sign_message as the dialogue sees it. */
  ghost function SignerOf(x: Shake, derive: Derivation, n: nat): Signer {
    (path: seq<uint32>, msg: seq<byte>, rnd: seq<byte>) =>
      if SignReady(x, derive(path), msg, rnd, n) then Outcome(x, derive(path), msg, rnd, n) else Apdu.Refused
  }

  ghost function Outcome(x: Shake, d: Derived, msg: seq<byte>, rnd: seq<byte>, n: nat): Apdu.Signing
    requires SignReady(x, d, msg, rnd, n)
  {
    SignedResultVerifies(x, d, msg, rnd, n);
    match SignResult(x, d, msg, rnd, n)
    case Ok(s) => Apdu.Signed(s)
    case Err(e) => if e == InvalidSignature then Failed else Apdu.Refused
  }

  ghost function CryptoOf(f: Sponge.Permutation, x: Shake, derive: Derivation, n: nat): Crypto {
    Crypto(Keccak256(f), SignerOf(x, derive, n))
  }

  class Device {
    var confirming: bool
    var phase: Phase
    var path: seq<uint32>
    const rawTx: array<byte>
    var rawTxLen: nat
    const mHash: array<byte>
    var sending: bool
    const nvm: Nvm

    ghost predicate Valid()
      reads this
    {
      && rawTx.Length == MAX_TRANSACTION_LEN && rawTxLen <= MAX_TRANSACTION_LEN && mHash.Length == 32
      && rawTx != mHash && nvm.Valid() && rawTx !in nvm.Arrays() && mHash !in nvm.Arrays()
    }

    ghost function Abs(): View
      requires Valid()
      reads this, rawTx, mHash, nvm.sig
    {
      View(confirming, phase, path, rawTx[..rawTxLen], mHash[..], sending, nvm.sig[..])
    }

    constructor ()
      ensures Valid() && fresh(rawTx) && fresh(mHash) && fresh(nvm.Arrays())
      ensures !confirming && phase == NoPhase && rawTxLen == 0 && !sending
    {
      confirming, phase, path, rawTxLen, sending := false, NoPhase, [], 0, false;
      rawTx, mHash := new byte[MAX_TRANSACTION_LEN](_ => 0), new byte[32](_ => 0);
      nvm := new Nvm();
    }

    /** buffer_move of a chunk behind the bytes received so far. */
    method Append(data: seq<byte>)
      requires Valid() && rawTxLen + |data| <= MAX_TRANSACTION_LEN
      modifies rawTx, this`rawTxLen
      ensures Valid() && rawTx[..rawTxLen] == old(rawTx[..rawTxLen]) + data
    {
      ghost var before := rawTx[..rawTxLen];
      for i := 0 to |data|
        invariant rawTx[..rawTxLen + i] == before + data[..i]
        modifies rawTx
      {
        rawTx[rawTxLen + i] := data[i];
        assert rawTx[..rawTxLen + i + 1] == rawTx[..rawTxLen + i] + [data[i]];
      }
      rawTxLen := rawTxLen + |data|;
    }

    method Store(out: array<byte>, data: seq<byte>)
      requires |data| == out.Length
      modifies out
      ensures out[..] == data
    {
      for i := 0 to |data|
        invariant out[..i] == data[..i]
      {
        out[i] := data[i];
      }
    }

    /** helper_send_response_sig */
    method SendChunk(index: nat) returns (r: Response)
      requires Valid() && index <= 17
      modifies this`sending
      ensures Valid() && r == Data(Slice(nvm.sig[..], index))
      ensures sending == (if index == 0 then true else if index == 17 then false else old(sending))
    {
      var len := if index < 17 then CHUNK else LAST_CHUNK;
      var resp := new byte[len];
      for i := 0 to len
        invariant forall k :: 0 <= k < i ==> resp[k] == nvm.sig[k + index * CHUNK]
        modifies resp
      {
        resp[i] := nvm.sig[i + index * CHUNK];
      }
      assert resp[..] == Slice(nvm.sig[..], index);
      if index == 0 {
        sending := true;
      } else if index == 17 {
        sending := false;
      }
      r := Data(resp[..]);
    }

    /** validate_transaction: sign, verify, release. */
    method Validate(x: Shake, derive: Derivation, choice: bool, rnd: seq<byte>, ghost n: nat) returns (r: Response)
      requires Valid() && (choice ==> SignReady(x, derive(path), mHash[..], rnd, n))
      modifies this`phase, this`sending, nvm.Arrays()
      ensures Valid()
      ensures if !choice then
          r == Word(Deny) && phase == NoPhase && sending == old(sending) && nvm.sig[..] == old(nvm.sig[..])
        else match SignerOf(x, derive, n)(path, old(mHash[..]), rnd)
          case Signed(s) => r == Data(Slice(s, 0)) && phase == Approved && sending && nvm.sig[..] == s
          case Refused =>
            r == Word(SignatureFail) && phase == NoPhase && sending == old(sending) && nvm.sig[..] == old(nvm.sig[..])
          case Failed => r == Word(SignatureFail) && phase == NoPhase && sending == old(sending)
    {
      hide SignReady, SignResult, Slice;
      if choice {
        phase := Approved;
        var err := nvm.SignMessage(x, derive, path, mHash[..], rnd, derive(path), n);
        if err != 0 {
          phase := NoPhase;
          r := Word(SignatureFail);
        } else {
          r := SendChunk(0);
        }
      } else {
        phase := NoPhase;
        r := Word(Deny);
      }
    }

    /** handler_sign_tx: every command does what Step says. */
    method HandleSignTx(f: Sponge.Permutation, x: Shake, derive: Derivation, c: Command, e: Env, ghost n: nat)
      returns (r: Response)
      requires Valid()
      requires Reaches(Abs(), c, e) ==>
        SignReady(x, derive(path), Keccak256(f)(rawTx[..rawTxLen] + c.data), e.rnd, n)
      modifies this, rawTx, mHash, nvm.Arrays()
      ensures Valid()
      ensures (Abs(), r) == Step(CryptoOf(f, x, derive, n), old(Abs()), c, e.(left := nvm.sig[..]))
    {
      hide SignerOf, Keccak256, SignReady, Slice, Finish, Decode;
      if c.p1 == 0 {
        Store(rawTx, seq(MAX_TRANSACTION_LEN, _ => 0));
        Store(mHash, seq(32, _ => 0));
        confirming, phase, rawTxLen, path := true, NoPhase, 0, e.path;
        r := Word(if e.pathOk then Success else WrongDataLength);
      } else if c.p1 == 1 {
        if !confirming {
          return Word(BadState);
        }
        if rawTxLen + |c.data| > MAX_TRANSACTION_LEN {
          return Word(WrongTxLength);
        }
        Append(c.data);
        r := Word(Success);
      } else if c.p1 == 2 && c.p2 == 0 {
        if !confirming {
          return Word(BadState);
        }
        if rawTxLen + |c.data| > MAX_TRANSACTION_LEN {
          return Word(WrongTxLength);
        }
        Append(c.data);
        r := Review(f, x, derive, e, n);
      } else if c.p1 == 2 && 0 < c.p2 < 18 {
        if !confirming || !sending {
          return Word(BadState);
        }
        r := SendChunk(c.p2);
      } else {
        r := Word(WrongP1P2);
      }
    }

    /** The transaction is hashed. */
    method HashRaw(f: Sponge.Permutation)
      requires Valid()
      modifies mHash
      ensures mHash[..] == Keccak256(f)(rawTx[..rawTxLen])
    {
      hide Keccak256;
      var hash := HashText(f, rawTx[..rawTxLen]);
      HashLength(f, rawTx[..rawTxLen]);
      Store(mHash, hash);
    }

    /** The transaction is decoded; blind says that it has data or an access list. */
    method Inspect() returns (err: int, blind: bool)
      requires Valid()
      ensures match Decode(rawTx[..rawTxLen])
        case None => err != 0
        case Some(items) => err == 0 && (blind <==> items[7].data != [] || items[8].data != [])
    {
      hide Decode, ZondTx.Holds;
      blind := false;
      var tx := new ZondTx();
      err := tx.DecodeLedgerTx(rawTx, rawTxLen);
      if err == 0 {
        FlagsHold(tx, Decode(rawTx[..rawTxLen]).value);
        blind := tx.hasData || tx.hasAccessList;
      }
    }

    /** The rest of the last chunk's command. */
    method Review(f: Sponge.Permutation, x: Shake, derive: Derivation, e: Env, ghost n: nat) returns (r: Response)
      requires Valid()
      requires Decode(rawTx[..rawTxLen]).Some? && Granted(Decode(rawTx[..rawTxLen]).value, e) ==>
        SignReady(x, derive(path), Keccak256(f)(rawTx[..rawTxLen]), e.rnd, n)
      modifies this`phase, this`sending, mHash, nvm.Arrays()
      ensures Valid()
      ensures (Abs(), r) == Finish(CryptoOf(f, x, derive, n), old(Abs()), e.(left := nvm.sig[..]))
    {
      hide Decode, Slice, SignReady, SignerOf, Keccak256;
      phase := Parsed;
      HashRaw(f);
      var err, blind := Inspect();
      if err != 0 {
        return Word(ParsingFail);
      }
      if blind && !e.blindAllowed {
        return Word(Deny);
      }
      if !e.shown {
        return Word(DisplayFail);
      }
      r := Validate(x, derive, e.confirm, e.rnd, n);
    }
  }

  lemma HashLength(f: Sponge.Permutation, text: seq<byte>)
    ensures |Keccak256(f)(text)| == 32
  {
  }

  lemma FlagsHold(tx: ZondTx, items: seq<Item>)
    requires tx.Valid() && |items| == FIELDS && tx.Holds(items)
    ensures (tx.hasData <==> items[7].data != []) && (tx.hasAccessList <==> items[8].data != [])
  {
  }

  /** When the signer refuses before any work, when it fails in the middle, and what it signs otherwise. */
  lemma SignerMeaning(x: Shake, derive: Derivation, path: seq<uint32>, msg: seq<byte>, rnd: seq<byte>, n: nat)
    requires SignReady(x, derive(path), msg, rnd, n) && |msg| == 32
    ensures derive(path) == Derived.Refused ==> SignerOf(x, derive, n)(path, msg, rnd) == Apdu.Refused
    ensures derive(path).Raw? ==>
      && |derive(path).bytes| == 64 && SignEnough(x, derive(path).bytes[..32], msg, rnd, n)
      && match SignSpec(x, derive(path).bytes[..32], msg, rnd, n)
         case Exhausted => SignerOf(x, derive, n)(path, msg, rnd) == Failed
         case Signed(s) => |s| == 4627 && SignerOf(x, derive, n)(path, msg, rnd) == Apdu.Signed(s)
  {
    hide SignReady, SignEnough, SignSpec, VerifyReady, VerifyResult, SignResult;
    SignCodes(x, derive(path), msg, rnd, n);
    SignedResultVerifies(x, derive(path), msg, rnd, n);
    if SignResult(x, derive(path), msg, rnd, n).Ok? {
      VerifiedLength(x, derive(path), msg, rnd, n);
    }
  }

  lemma VerifiedLength(x: Shake, d: Derived, msg: seq<byte>, rnd: seq<byte>, n: nat)
    requires SignReady(x, d, msg, rnd, n) && SignResult(x, d, msg, rnd, n).Ok?
    ensures |SignResult(x, d, msg, rnd, n).value| == 4627
  {
    hide SignReady, SignSpec, Verifies;
    SignedResultVerifies(x, d, msg, rnd, n);
  }

  // ------------------------------------------------------------------ what leaves the device

  /**
    The bytes that are streamed after an approval are a signature of the Keccak hash of the received
    transaction which verifies for the path of the dialogue.
   */
  lemma StreamVerifies(f: Sponge.Permutation, x: Shake, derive: Derivation, n: nat, v: View, cs: seq<Event>,
                       at: seq<nat>)
    requires var k := CryptoOf(f, x, derive, n);
      Reading(k, v, cs, at) && Undisturbed(k, v, cs, at[0], at[17])
    requires at[0] > 0 && cs[0].0.p1 == 0
    ensures var before := cs[..at[0]]; var (c, e) := cs[at[0]];
      var text, d := Received(before) + c.data, derive(Opened(before));
      var msg, sig := Keccak256(f)(text), Streamed(CryptoOf(f, x, derive, n), v, cs, at, 18);
      && |text| <= MAX_TRANSACTION_LEN && Decode(text).Some? && e.confirm
      && SignReady(x, d, msg, e.rnd, n) && SignResult(x, d, msg, e.rnd, n) == Ok(sig)
      && VerifyReady(x, d, sig, msg, n) && VerifyResult(x, d, sig, msg, n) == Ok(true)
  {
    hide Undisturbed, Streamed, Decode, SignReady, VerifyReady, SignResult, VerifyResult, Keccak256;
    var k := CryptoOf(f, x, derive, n);
    StreamIsSignature(k, v, cs, at);
    var before := cs[..at[0]];
    var (c, e) := cs[at[0]];
    var d, msg := derive(Opened(before)), Keccak256(f)(Received(before) + c.data);
    SignedOutcome(x, derive, Opened(before), msg, e.rnd, n);
  }

  lemma SignedOutcome(x: Shake, derive: Derivation, path: seq<uint32>, msg: seq<byte>, rnd: seq<byte>, n: nat)
    requires SignerOf(x, derive, n)(path, msg, rnd).Signed?
    ensures var d := derive(path); var sig: seq<byte> := SignerOf(x, derive, n)(path, msg, rnd).sig;
      && SignReady(x, d, msg, rnd, n) && SignResult(x, d, msg, rnd, n) == Ok(sig)
      && VerifyReady(x, d, sig, msg, n) && VerifyResult(x, d, sig, msg, n) == Ok(true)
  {
    hide SignReady, VerifyReady, SignResult, VerifyResult;
    SignedResultVerifies(x, derive(path), msg, rnd, n);
  }
}
