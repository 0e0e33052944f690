/**
  The signing dialogue: handler_sign_tx of handler/sign_tx.c, validate_transaction of
  ui/action/validate.c and helper_send_response_sig of helper/send_response.c, as a state machine whose
  steps are commands.  A review ends before the next command.
 */
module Apdu {
  import opened Words
  import opened Rlp

  const MAX_TRANSACTION_LEN: nat := 510
  const SIGNATURE_LEN: nat := 4627
  const CHUNK: nat := 258
  const LAST_CHUNK: nat := 241

  type Transaction = s: seq<byte> | |s| <= MAX_TRANSACTION_LEN
  type Signature = s: seq<byte> | |s| == SIGNATURE_LEN witness seq(SIGNATURE_LEN, _ => 0)

  datatype Phase = NoPhase | Parsed | Approved

  /** What the global context and the storage hold between two commands. */
  datatype View = View(confirming: bool, phase: Phase, path: seq<uint32>, raw: Transaction, hash: seq<byte>,
                       sending: bool, sig: Signature)

  /** p1, p2 and the data of a command. */
  datatype Command = Command(p1: byte, p2: byte, data: seq<byte>)

  /**
    The surroundings of a command: the path that an opening command leaves in the context and whether it
    is accepted, the settings, the screen, the user, the random bytes that a signer draws, and what the
    signature buffer holds after a signer that gave up.
   */
  datatype Env = Env(pathOk: bool, path: seq<uint32>, blindAllowed: bool, shown: bool, confirm: bool,
                     rnd: seq<byte>, left: Signature)

  type Event = (Command, Env)

  /** What crypto_sign_message does: a signature, or a refusal before any work, or a failure in the middle. */
  datatype Signing = Signed(sig: Signature) | Refused | Failed

  /** From path, message and random bytes to the result. */
  type Signer = (seq<uint32>, seq<byte>, seq<byte>) -> Signing
  type Hash = seq<byte> -> seq<byte>
  datatype Crypto = Crypto(keccak: Hash, sign: Signer)

  datatype Status =
    Success | WrongDataLength | BadState | WrongTxLength | ParsingFail | Deny | DisplayFail | SignatureFail | WrongP1P2

  datatype Response = Word(status: Status) | Data(bytes: seq<byte>)

  /** A command that ends a transaction and asks for a signature. */
  predicate IsLast(c: Command) {
    c.p1 == 2 && c.p2 == 0
  }

  /** A command that carries a part of a transaction. */
  predicate Carries(c: Command) {
    c.p1 == 1 || IsLast(c)
  }

  /** A command that reads chunk i of the signature. */
  predicate IsRead(c: Command, i: nat) {
    c.p1 == 2 && c.p2 == i && 0 < i < 18
  }

  /** Chunk number k of a signature. */
  function Slice(sig: Signature, k: nat): seq<byte>
    requires k <= 17
  {
    if k < 17 then sig[CHUNK * k..CHUNK * k + CHUNK] else sig[CHUNK * k..CHUNK * k + LAST_CHUNK]
  }

  /** After the last chunk: hash, decode, ask the user, sign and send the first chunk. */
  function Finish(k: Crypto, v: View, e: Env): (View, Response) {
    var w := v.(phase := Parsed, hash := k.keccak(v.raw));
    match Decode(v.raw)
    case None => (w, Word(ParsingFail))
    case Some(items) =>
      if (items[7].data != [] || items[8].data != []) && !e.blindAllowed then (w, Word(Deny))
      else if !e.shown then (w, Word(DisplayFail))
      else if !e.confirm then (w.(phase := NoPhase), Word(Deny))
      else
        match k.sign(w.path, w.hash, e.rnd)
        case Signed(s) => (w.(phase := Approved, sig := s, sending := true), Data(Slice(s, 0)))
        case Refused => (w.(phase := NoPhase), Word(SignatureFail))
        case Failed => (w.(phase := NoPhase, sig := e.left), Word(SignatureFail))
  }

  /** One command. */
  function Step(k: Crypto, v: View, c: Command, e: Env): (View, Response) {
    if c.p1 == 0 then
      (View(true, NoPhase, e.path, [], seq(32, _ => 0), v.sending, v.sig),
       Word(if e.pathOk then Success else WrongDataLength))
    else if Carries(c) then
      if !v.confirming then (v, Word(BadState))
      else if |v.raw| + |c.data| > MAX_TRANSACTION_LEN then (v, Word(WrongTxLength))
      else
        var w := v.(raw := v.raw + c.data);
        if IsLast(c) then Finish(k, w, e) else (w, Word(Success))
    else if c.p1 == 2 && 0 < c.p2 < 18 then
      if !v.confirming || !v.sending then (v, Word(BadState))
      else (v.(sending := c.p2 != 17), Data(Slice(v.sig, c.p2)))
    else (v, Word(WrongP1P2))
  }

  // ------------------------------------------------------------------ runs

  /** The state after some commands. */
  function Run(k: Crypto, v: View, cs: seq<Event>): View {
    if cs == [] then v
    else
      var n := |cs| - 1;
      Step(k, Run(k, v, cs[..n]), cs[n].0, cs[n].1).0
  }

  /** The response to command number i of a run. */
  function Reply(k: Crypto, v: View, cs: seq<Event>, i: nat): Response
    requires i < |cs|
  {
    Step(k, Run(k, v, cs[..i]), cs[i].0, cs[i].1).1
  }

  /** The chunks accepted since the last opening command, one after the other. */
  function Received(cs: seq<Event>): seq<byte> {
    if cs == [] then []
    else
      var n, c := |cs| - 1, cs[|cs| - 1].0;
      var before := Received(cs[..n]);
      if c.p1 == 0 then []
      else if Carries(c) && |before| + |c.data| <= MAX_TRANSACTION_LEN then before + c.data
      else before
  }

  /** What was hashed last: the buffer at the last accepted final chunk, unless a dialogue began since. */
  function Hashed(cs: seq<Event>): Option<seq<byte>> {
    if cs == [] then None
    else
      var n, c := |cs| - 1, cs[|cs| - 1].0;
      if c.p1 == 0 then None
      else if IsLast(c) && |Received(cs[..n])| + |c.data| <= MAX_TRANSACTION_LEN then Some(Received(cs))
      else Hashed(cs[..n])
  }

  /** The path of the last opening command. */
  function Opened(cs: seq<Event>): seq<uint32> {
    if cs == [] then []
    else
      var (c, e) := cs[|cs| - 1];
      if c.p1 == 0 then e.path else Opened(cs[..|cs| - 1])
  }

  /**
    In every run that began with an opening command the buffer holds exactly the accepted chunks, the
    hash is that of the last complete transaction, and the path is that of the last opening command.
   */
  lemma {:induction false} BufferAndHash(k: Crypto, v: View, cs: seq<Event>)
    requires |cs| > 0 && cs[0].0.p1 == 0
    ensures var w := Run(k, v, cs);
      && w.confirming && w.raw == Received(cs) && |Received(cs)| <= MAX_TRANSACTION_LEN && w.path == Opened(cs)
      && w.hash == match Hashed(cs) case None => seq(32, _ => 0) case Some(t) => k.keccak(t)
  {
    hide Step;
    var n := |cs| - 1;
    if n > 0 {
      BufferAndHash(k, v, cs[..n]);
    }
    StepBuffer(k, Run(k, v, cs[..n]), cs[n].0, cs[n].1);
  }

  /** What one command makes of buffer, hash and path. */
  lemma StepBuffer(k: Crypto, v: View, c: Command, e: Env)
    requires v.confirming || c.p1 == 0
    ensures var w, fits := Step(k, v, c, e).0, |v.raw| + |c.data| <= MAX_TRANSACTION_LEN;
      && w.confirming && w.path == (if c.p1 == 0 then e.path else v.path)
      && w.raw == (if c.p1 == 0 then [] else if Carries(c) && fits then v.raw + c.data else v.raw)
      && w.hash ==
        (if c.p1 == 0 then seq(32, _ => 0) else if IsLast(c) && fits then k.keccak(v.raw + c.data) else v.hash)
  {
    hide Decode, Slice;
  }

  // ------------------------------------------------------------------ where the signature comes from

  /** The settings, the screen and the user let this transaction pass. */
  predicate Granted(items: seq<Item>, e: Env)
    requires |items| == FIELDS
  {
    ((items[7].data == [] && items[8].data == []) || e.blindAllowed) && e.shown && e.confirm
  }

  /** The command reaches the signer: a complete, well-formed transaction that the user confirms. */
  predicate Reaches(v: View, c: Command, e: Env) {
    && IsLast(c) && v.confirming && |v.raw| + |c.data| <= MAX_TRANSACTION_LEN
    && match Decode(v.raw + c.data)
       case None => false
       case Some(items) => Granted(items, e)
  }

  /** What the signer does in a step, if it is reached. */
  function Attempt(k: Crypto, v: View, c: Command, e: Env): Option<Signing> {
    if Reaches(v, c, e) then Some(k.sign(v.path, k.keccak(v.raw + c.data), e.rnd)) else None
  }

  /** Only the signer writes the signature buffer, and only its success or chunk 17 changes the permission to read. */
  lemma StepSignature(k: Crypto, v: View, c: Command, e: Env)
    ensures var (w, r) := Step(k, v, c, e);
      match Attempt(k, v, c, e)
      case Some(Signed(s)) => w == v.(phase := Approved, raw := v.raw + c.data, hash := k.keccak(v.raw + c.data),
                                      sending := true, sig := s) && r == Data(Slice(s, 0))
      case Some(Failed) => w.sig == e.left && w.sending == v.sending && r == Word(SignatureFail)
      case Some(Refused) => w.sig == v.sig && w.sending == v.sending && r == Word(SignatureFail)
      case None =>
        && w.sig == v.sig && w.sending == (v.sending && !(IsRead(c, 17) && v.confirming))
        && (r.Data? ==> 0 < c.p2 < 18 && IsRead(c, c.p2))
    ensures v.confirming ==> Step(k, v, c, e).0.confirming
  {
    hide Decode, Slice;
  }

  /** A final chunk that is answered with data: the signer signed exactly the bytes received, for the opened path. */
  lemma ApprovedIsReceived(k: Crypto, v: View, cs: seq<Event>, c: Command, e: Env)
    requires |cs| > 0 && cs[0].0.p1 == 0 && IsLast(c)
    ensures var (w, r) := Step(k, Run(k, v, cs), c, e); var text := Received(cs) + c.data;
      r.Data? <==>
        && |text| <= MAX_TRANSACTION_LEN
        && (match Decode(text)
            case None => false
            case Some(items) => Granted(items, e))
        && k.sign(Opened(cs), k.keccak(text), e.rnd).Signed?
    ensures var (w, r) := Step(k, Run(k, v, cs), c, e); var text := Received(cs) + c.data;
      r.Data? ==>
        && k.sign(Opened(cs), k.keccak(text), e.rnd) == Signed(w.sig)
        && w.sending && w.confirming && r == Data(Slice(w.sig, 0))
  {
    hide Decode, Slice, Step;
    BufferAndHash(k, v, cs);
    StepSignature(k, Run(k, v, cs), c, e);
  }

  /** Where the content of the signature buffer comes from. */
  datatype Origin = Initial | FromApproval(sig: Signature) | Leftover(sig: Signature)

  function OriginOf(k: Crypto, v: View, cs: seq<Event>): Origin {
    if cs == [] then Initial
    else
      var n, (c, e) := |cs| - 1, cs[|cs| - 1];
      match Attempt(k, Run(k, v, cs[..n]), c, e)
      case Some(Signed(s)) => FromApproval(s)
      case Some(Failed) => Leftover(e.left)
      case _ => OriginOf(k, v, cs[..n])
  }

  /** The signature that was released last. */
  function LastApproved(k: Crypto, v: View, cs: seq<Event>): Option<Signature> {
    if cs == [] then None
    else
      var n, (c, e) := |cs| - 1, cs[|cs| - 1];
      match Attempt(k, Run(k, v, cs[..n]), c, e)
      case Some(Signed(s)) => Some(s)
      case _ => LastApproved(k, v, cs[..n])
  }

  /** The commands are the same, and so are their surroundings except for what failed signers left behind. */
  ghost predicate SameButLeft(cs: seq<Event>, ds: seq<Event>) {
    |cs| == |ds| && forall i :: 0 <= i < |cs| ==> ds[i] == (cs[i].0, cs[i].1.(left := ds[i].1.left))
  }

  lemma {:induction false} OriginMeaning(k: Crypto, v: View, cs: seq<Event>)
    ensures match OriginOf(k, v, cs)
      case Initial => Run(k, v, cs).sig == v.sig && LastApproved(k, v, cs) == None
      case FromApproval(s) => Run(k, v, cs).sig == s && LastApproved(k, v, cs) == Some(s)
      case Leftover(s) => Run(k, v, cs).sig == s && exists i :: 0 <= i < |cs| && s == cs[i].1.left
  {
    hide Attempt, Step;
    if cs != [] {
      var n := |cs| - 1;
      OriginMeaning(k, v, cs[..n]);
      StepSignature(k, Run(k, v, cs[..n]), cs[n].0, cs[n].1);
    }
  }

  lemma StepSame(k: Crypto, v: View, u: View, c: Command, e: Env, left: Signature)
    requires u == v.(sig := u.sig)
    ensures var w, x := Step(k, v, c, e).0, Step(k, u, c, e.(left := left)).0; x == w.(sig := x.sig)
    ensures Attempt(k, v, c, e) == Attempt(k, u, c, e.(left := left))
  {
    hide Decode, Slice, Finish;
    if Carries(c) && |v.raw| + |c.data| <= MAX_TRANSACTION_LEN {
      FinishSame(k, v.(raw := v.raw + c.data), u.(raw := v.raw + c.data), e, left);
    }
  }

  lemma FinishSame(k: Crypto, v: View, u: View, e: Env, left: Signature)
    requires u == v.(sig := u.sig)
    ensures var w, x := Finish(k, v, e).0, Finish(k, u, e.(left := left)).0; x == w.(sig := x.sig)
  {
    hide Decode, Slice;
  }

  /** What failed signers leave behind does not influence anything but the signature buffer. */
  lemma {:induction false} SameRuns(k: Crypto, v: View, cs: seq<Event>, ds: seq<Event>)
    requires SameButLeft(cs, ds)
    ensures Run(k, v, ds) == Run(k, v, cs).(sig := Run(k, v, ds).sig)
    ensures LastApproved(k, v, ds) == LastApproved(k, v, cs)
    ensures OriginOf(k, v, ds).FromApproval? <==> OriginOf(k, v, cs).FromApproval?
    ensures OriginOf(k, v, ds).Initial? <==> OriginOf(k, v, cs).Initial?
  {
    hide Attempt, Step;
    if cs != [] {
      var n := |cs| - 1;
      SameRuns(k, v, cs[..n], ds[..n]);
      StepSame(k, Run(k, v, cs[..n]), Run(k, v, ds[..n]), cs[n].0, cs[n].1, ds[n].1.left);
    }
  }

  /** Another signature. */
  function Other(s: Signature): (r: Signature)
    ensures r != s
  {
    s[0 := if s[0] == 0 then 1 else 0]
  }

  lemma {:induction false} AllLeft(cs: seq<Event>, left: Signature) returns (ds: seq<Event>)
    ensures SameButLeft(cs, ds) && forall i :: 0 <= i < |ds| ==> ds[i].1.left == left
  {
    if cs == [] {
      ds := [];
    } else {
      var n := |cs| - 1;
      ds := AllLeft(cs[..n], left);
      ds := ds + [(cs[n].0, cs[n].1.(left := left))];
    }
  }

  /**
    The exact condition.  Whatever failed signers leave behind, the buffer from which chunks are read
    holds the signature that was released last, if and only if no signer failed in the middle after the
    last successful one.  (The permission to read survives such a failure.)
   */
  lemma StreamIsApprovedIff(k: Crypto, v: View, cs: seq<Event>)
    ensures OriginOf(k, v, cs).FromApproval? <==>
      forall ds :: SameButLeft(cs, ds) ==> LastApproved(k, v, ds) == Some(Run(k, v, ds).sig)
  {
    hide OriginOf, LastApproved, Run;
    if OriginOf(k, v, cs).FromApproval? {
      forall ds | SameButLeft(cs, ds)
        ensures LastApproved(k, v, ds) == Some(Run(k, v, ds).sig)
      {
        SameRuns(k, v, cs, ds);
        OriginMeaning(k, v, ds);
      }
    } else {
      var last := LastApproved(k, v, cs);
      var ds := AllLeft(cs, if last.Some? then Other(last.value) else Run(k, v, cs).sig);
      SameRuns(k, v, cs, ds);
      OriginMeaning(k, v, ds);
      assert LastApproved(k, v, ds) != Some(Run(k, v, ds).sig);
    }
  }

  /** After a failure in the middle, chunks of what was left behind are read as before. */
  lemma AfterFailure(k: Crypto, v: View, c: Command, e: Env, d: Command, f: Env)
    requires v.sending && Attempt(k, v, c, e) == Some(Failed) && IsRead(d, d.p2)
    ensures Step(k, Step(k, v, c, e).0, d, f).1 == Data(Slice(e.left, d.p2))
  {
    hide Decode, Slice, Finish;
    StepSignature(k, v, c, e);
    assert Step(k, v, c, e).0.confirming;
  }

  // ------------------------------------------------------------------ reading the signature

  /** The command neither overwrites the signature nor ends the reading. */
  predicate Harmless(k: Crypto, v: View, c: Command, e: Env) {
    !IsRead(c, 17) && (Attempt(k, v, c, e) == None || Attempt(k, v, c, e) == Some(Refused))
  }

  /** The commands strictly between two numbers of a run are harmless. */
  ghost predicate Undisturbed(k: Crypto, v: View, cs: seq<Event>, first: nat, last: nat)
    requires last <= |cs|
  {
    forall i {:trigger cs[i]} :: first < i < last ==> Harmless(k, Run(k, v, cs[..i]), cs[i].0, cs[i].1)
  }

  lemma RunStep(k: Crypto, v: View, cs: seq<Event>, i: nat)
    requires i < |cs|
    ensures Run(k, v, cs[..i + 1]) == Step(k, Run(k, v, cs[..i]), cs[i].0, cs[i].1).0
  {
    hide Step;
    assert cs[..i + 1][..i] == cs[..i];
  }

  /** Harmless commands keep the signature and the permission to read it, even when they open a new dialogue. */
  lemma {:induction false} SignatureKept(k: Crypto, v: View, cs: seq<Event>, first: nat, last: nat)
    requires first < last <= |cs| && Undisturbed(k, v, cs, first, last)
    requires var w := Run(k, v, cs[..first + 1]); w.confirming && w.sending
    ensures var u, w := Run(k, v, cs[..first + 1]), Run(k, v, cs[..last]);
      w.confirming && w.sending && w.sig == u.sig
    decreases last
  {
    hide Run, Step, Attempt;
    if last > first + 1 {
      var i := last - 1;
      SignatureKept(k, v, cs, first, i);
      RunStep(k, v, cs, i);
      assert Harmless(k, Run(k, v, cs[..i]), cs[i].0, cs[i].1);
      StepSignature(k, Run(k, v, cs[..i]), cs[i].0, cs[i].1);
    }
  }

  /** The first n chunks in order. */
  function Chunks(sig: Signature, n: nat): seq<byte>
    requires n <= 18
  {
    if n == 0 then [] else Chunks(sig, n - 1) + Slice(sig, n - 1)
  }

  lemma {:induction false} ChunksArePrefix(sig: Signature, n: nat)
    requires n <= 18
    ensures Chunks(sig, n) == sig[..if n < 18 then CHUNK * n else SIGNATURE_LEN]
  {
    if n > 0 {
      ChunksArePrefix(sig, n - 1);
    }
  }

  /** The eighteen chunks, in order, are the signature. */
  lemma ChunksAreSignature(sig: Signature)
    ensures Chunks(sig, 18) == sig
  {
    hide Chunks;
    ChunksArePrefix(sig, 18);
    assert sig[..SIGNATURE_LEN] == sig;
  }

  /**
    The commands numbered at[0] < ... < at[17] of a run: a final chunk that is answered with data, then
    the reads of chunks 1 to 17.
   */
  ghost predicate Reading(k: Crypto, v: View, cs: seq<Event>, at: seq<nat>) {
    && |at| == 18
    && (forall i {:trigger at[i]} :: 0 <= i < 18 ==> at[i] < |cs|)
    && (forall i, j {:trigger at[i], at[j]} :: 0 <= i < j < 18 ==> at[i] < at[j])
    && IsLast(cs[at[0]].0) && Reply(k, v, cs, at[0]).Data?
    && (forall i {:trigger at[i]} :: 1 <= i < 18 ==> IsRead(cs[at[i]].0, i))
  }

  /** The data of the first n of these responses. */
  ghost function Streamed(k: Crypto, v: View, cs: seq<Event>, at: seq<nat>, n: nat): seq<byte>
    requires n <= |at| && forall i {:trigger at[i]} :: 0 <= i < |at| ==> at[i] < |cs|
  {
    if n == 0 then []
    else
      var r := Reply(k, v, cs, at[n - 1]);
      Streamed(k, v, cs, at, n - 1) + (if r.Data? then r.bytes else [])
  }

  /** Each of these responses is a chunk of the signature that was written at the approval. */
  lemma ChunkRead(k: Crypto, v: View, cs: seq<Event>, at: seq<nat>, i: nat)
    requires Reading(k, v, cs, at) && Undisturbed(k, v, cs, at[0], at[17]) && i < 18
    ensures Reply(k, v, cs, at[i]) == Data(Slice(Run(k, v, cs[..at[0] + 1]).sig, i))
  {
    hide Run, Attempt, Undisturbed, Slice, Decode;
    var a := at[0];
    var w := Run(k, v, cs[..a]);
    RunStep(k, v, cs, a);
    StepSignature(k, w, cs[a].0, cs[a].1);
    LastReached(k, w, cs[a].0, cs[a].1);
    if i > 0 {
      Sooner(k, v, cs, a, at[i], at[17]) by { assert at[i] <= at[17]; }
      SignatureKept(k, v, cs, a, at[i]);
      assert IsRead(cs[at[i]].0, i);
    }
  }

  lemma Sooner(k: Crypto, v: View, cs: seq<Event>, first: nat, last: nat, end: nat)
    requires last <= end <= |cs| && Undisturbed(k, v, cs, first, end)
    ensures Undisturbed(k, v, cs, first, last)
  {
    hide Harmless, Run;
  }

  /** A final chunk is answered with data by a confirmed signature only. */
  lemma LastReached(k: Crypto, v: View, c: Command, e: Env)
    requires IsLast(c) && Step(k, v, c, e).1.Data?
    ensures Attempt(k, v, c, e).Some? && Attempt(k, v, c, e).value.Signed?
    ensures Step(k, v, c, e).0.confirming
  {
    hide Decode, Slice;
  }

  lemma {:induction false} StreamedChunks(k: Crypto, v: View, cs: seq<Event>, at: seq<nat>, n: nat)
    requires Reading(k, v, cs, at) && Undisturbed(k, v, cs, at[0], at[17]) && n <= 18
    ensures Streamed(k, v, cs, at, n) == Chunks(Run(k, v, cs[..at[0] + 1]).sig, n)
  {
    hide Run, Undisturbed, Slice, Reply;
    if n > 0 {
      StreamedChunks(k, v, cs, at, n - 1);
      ChunkRead(k, v, cs, at, n - 1);
    }
  }

  /**
    The signature stream.  In a run that begins with an opening command, an approval and the reads of
    chunks 1 to 17 in order, with any harmless commands in between, stream exactly the signature that
    the signer made for the path opened last, of the hash of the bytes received.
   */
  lemma StreamIsSignature(k: Crypto, v: View, cs: seq<Event>, at: seq<nat>)
    requires Reading(k, v, cs, at) && Undisturbed(k, v, cs, at[0], at[17])
    requires at[0] > 0 && cs[0].0.p1 == 0
    ensures var before := cs[..at[0]]; var (c, e) := cs[at[0]]; var text := Received(before) + c.data;
      && |text| <= MAX_TRANSACTION_LEN && Decode(text).Some? && e.confirm
      && k.sign(Opened(before), k.keccak(text), e.rnd).Signed?
      && Streamed(k, v, cs, at, 18) == k.sign(Opened(before), k.keccak(text), e.rnd).sig
  {
    hide Run, Undisturbed, Slice, Streamed, Step, Decode;
    var a := at[0];
    StreamedChunks(k, v, cs, at, 18);
    ChunksAreSignature(Run(k, v, cs[..a + 1]).sig);
    RunStep(k, v, cs, a);
    ApprovedIsReceived(k, v, cs[..a], cs[a].0, cs[a].1);
  }

  // ------------------------------------------------------------------ every answer, from the commands alone

  /** Some final chunk before number i was answered with data, and no read of chunk 17 since. */
  ghost predicate MayRead(k: Crypto, v: View, cs: seq<Event>, i: nat)
    requires i <= |cs|
  {
    exists j {:trigger cs[j]} :: 0 <= j < i && cs[j].0.p1 == 2 && cs[j].0.p2 == 0 && Reply(k, v, cs, j).Data?
      && NoEnd(k, v, cs, j, i)
  }

  ghost predicate NoEnd(k: Crypto, v: View, cs: seq<Event>, j: nat, i: nat)
    requires i <= |cs|
  {
    forall m {:trigger cs[m]} :: j < m < i && cs[m].0.p1 == 2 && cs[m].0.p2 == 17 ==> !Reply(k, v, cs, m).Data?
  }

  lemma {:induction false} OpenedStays(k: Crypto, v: View, cs: seq<Event>, i: nat)
    requires 0 < i <= |cs| && cs[0].0.p1 == 0
    ensures Run(k, v, cs[..i]).confirming
  {
    hide Step, Run;
    RunStep(k, v, cs, i - 1);
    if i == 1 {
      Opening(k, Run(k, v, cs[..0]), cs[0].0, cs[0].1);
    } else {
      OpenedStays(k, v, cs, i - 1);
      StepSignature(k, Run(k, v, cs[..i - 1]), cs[i - 1].0, cs[i - 1].1);
    }
  }

  lemma Opening(k: Crypto, v: View, c: Command, e: Env)
    requires c.p1 == 0
    ensures Step(k, v, c, e).0.confirming && Step(k, v, c, e).0.sending == v.sending && !Step(k, v, c, e).1.Data?
  {
  }

  /** Permission grows with an answered final chunk and ends with an answered chunk 17. */
  lemma MayReadStep(k: Crypto, v: View, cs: seq<Event>, i: nat)
    requires i < |cs|
    ensures var c := cs[i].0;
      MayRead(k, v, cs, i + 1) <==>
        || (c.p1 == 2 && c.p2 == 0 && Reply(k, v, cs, i).Data?)
        || (MayRead(k, v, cs, i) && !(c.p1 == 2 && c.p2 == 17 && Reply(k, v, cs, i).Data?))
  {
    hide Reply;
    if MayRead(k, v, cs, i) && !(cs[i].0.p1 == 2 && cs[i].0.p2 == 17 && Reply(k, v, cs, i).Data?) {
      var j :| 0 <= j < i && cs[j].0.p1 == 2 && cs[j].0.p2 == 0 && Reply(k, v, cs, j).Data? && NoEnd(k, v, cs, j, i);
      assert NoEnd(k, v, cs, j, i + 1);
    }
    if cs[i].0.p1 == 2 && cs[i].0.p2 == 0 && Reply(k, v, cs, i).Data? {
      assert NoEnd(k, v, cs, i, i + 1);
    }
    if MayRead(k, v, cs, i + 1) {
      var j :| 0 <= j < i + 1 && cs[j].0.p1 == 2 && cs[j].0.p2 == 0 && Reply(k, v, cs, j).Data?
        && NoEnd(k, v, cs, j, i + 1);
      if j < i {
        assert NoEnd(k, v, cs, j, i);
      }
    }
  }

  /** The effect of one command of an open dialogue on the permission, and what it answers to a read. */
  lemma PermissionStep(k: Crypto, v: View, c: Command, e: Env)
    requires v.confirming
    ensures var (w, r) := Step(k, v, c, e);
      && (c.p1 == 2 && 0 < c.p2 < 18 ==> (r.Data? <==> v.sending))
      && (w.sending <==> (c.p1 == 2 && c.p2 == 0 && r.Data?) || (v.sending && !(c.p1 == 2 && c.p2 == 17 && r.Data?)))
  {
    hide Decode, Slice;
  }

  lemma {:induction false} SendingIff(k: Crypto, v: View, cs: seq<Event>, i: nat)
    requires !v.sending && 0 < i <= |cs| && cs[0].0.p1 == 0
    ensures Run(k, v, cs[..i]).sending <==> MayRead(k, v, cs, i)
  {
    hide Run, Step, MayRead;
    var n := i - 1;
    RunStep(k, v, cs, n);
    MayReadStep(k, v, cs, n);
    if n == 0 {
      NothingRead(k, v, cs);
      Opening(k, v, cs[0].0, cs[0].1);
    } else {
      SendingIff(k, v, cs, n);
      OpenedStays(k, v, cs, n);
      PermissionStep(k, Run(k, v, cs[..n]), cs[n].0, cs[n].1);
    }
  }

  lemma NothingRead(k: Crypto, v: View, cs: seq<Event>)
    requires cs != []
    ensures !MayRead(k, v, cs, 0) && Run(k, v, cs[..0]) == v
  {
  }

  /**
    The permission to read.  In a run that begins with an opening command on a device that is not sending,
    a read is answered with data if and only if a final chunk before it was answered with data and no read
    of chunk 17 was answered since.
   */
  lemma ReadIff(k: Crypto, v: View, cs: seq<Event>, i: nat)
    requires !v.sending && 0 < i < |cs| && cs[0].0.p1 == 0
    requires cs[i].0.p1 == 2 && 0 < cs[i].0.p2 < 18
    ensures Reply(k, v, cs, i).Data? <==> MayRead(k, v, cs, i)
  {
    hide Run, Step, MayRead;
    OpenedStays(k, v, cs, i);
    SendingIff(k, v, cs, i);
    PermissionStep(k, Run(k, v, cs[..i]), cs[i].0, cs[i].1);
  }

  /** The answer to a complete transaction of at most 510 bytes. */
  ghost function FinalAnswer(k: Crypto, path: seq<uint32>, text: seq<byte>, e: Env): Response
    requires |text| <= 510
  {
    match Decode(text)
    case None => Word(ParsingFail)
    case Some(items) =>
      if (items[7].data != [] || items[8].data != []) && !e.blindAllowed then Word(Deny)
      else if !e.shown then Word(DisplayFail)
      else if !e.confirm then Word(Deny)
      else
        match k.sign(path, k.keccak(text), e.rnd)
        case Signed(s) => Data(s[..258])
        case _ => Word(SignatureFail)
  }

  /** Every answer of a dialogue that is open. */
  lemma ReplyMeaning(k: Crypto, v: View, cs: seq<Event>, i: nat)
    requires !v.sending && 0 < i < |cs| && cs[0].0.p1 == 0
    ensures var (c, e) := cs[i];
      var text, sig := Received(cs[..i]) + c.data, Run(k, v, cs[..i]).sig;
      Reply(k, v, cs, i) ==
        if c.p1 == 0 then Word(if e.pathOk then Success else WrongDataLength)
        else if c.p1 == 1 then Word(if |text| > 510 then WrongTxLength else Success)
        else if c.p1 == 2 && c.p2 == 0 then
          if |text| > 510 then Word(WrongTxLength) else FinalAnswer(k, Opened(cs[..i]), text, e)
        else if c.p1 == 2 && c.p2 < 18 then
          if !MayRead(k, v, cs, i) then Word(BadState)
          else Data(if c.p2 < 17 then sig[258 * c.p2..258 * c.p2 + 258] else sig[4386..4627])
        else Word(WrongP1P2)
  {
    hide Run, MayRead, Decode, FinalAnswer, Step;
    var (c, e) := cs[i];
    BufferAndHash(k, v, cs[..i]);
    SendingIff(k, v, cs, i);
    AnswerOf(k, Run(k, v, cs[..i]), c, e);
  }

  lemma AnswerOf(k: Crypto, v: View, c: Command, e: Env)
    requires v.confirming
    ensures var text := v.raw + c.data;
      Step(k, v, c, e).1 ==
        if c.p1 == 0 then Word(if e.pathOk then Success else WrongDataLength)
        else if c.p1 == 1 then Word(if |text| > 510 then WrongTxLength else Success)
        else if c.p1 == 2 && c.p2 == 0 then
          if |text| > 510 then Word(WrongTxLength) else FinalAnswer(k, v.path, text, e)
        else if c.p1 == 2 && c.p2 < 18 then
          if !v.sending then Word(BadState)
          else Data(if c.p2 < 17 then v.sig[258 * c.p2..258 * c.p2 + 258] else v.sig[4386..4627])
        else Word(WrongP1P2)
  {
    hide Decode;
  }

  /** A device that is not in a dialogue answers with an error and changes nothing, except to an opening command. */
  lemma Closed(k: Crypto, v: View, c: Command, e: Env)
    requires !v.confirming && c.p1 != 0
    ensures Step(k, v, c, e) == (v, Word(if c.p1 == 1 || (c.p1 == 2 && c.p2 < 18) then BadState else WrongP1P2))
  {
  }

  /** What one more command adds to the bytes received, and the path in force. */
  lemma ReceivedStep(cs: seq<Event>, c: Command, e: Env)
    ensures var before := Received(cs);
      Received(cs + [(c, e)]) ==
        if c.p1 == 0 then []
        else if (c.p1 == 1 || (c.p1 == 2 && c.p2 == 0)) && |before| + |c.data| <= 510 then before + c.data
        else before
    ensures Opened(cs + [(c, e)]) == if c.p1 == 0 then e.path else Opened(cs)
    ensures Received([]) == []
  {
    assert (cs + [(c, e)])[..|cs|] == cs;
  }

  /** What a command of an open dialogue leaves of the context, besides the bytes received. */
  lemma StateMeaning(k: Crypto, v: View, c: Command, e: Env)
    requires v.confirming
    ensures var (w, r) := Step(k, v, c, e);
      && w.confirming && w.path == (if c.p1 == 0 then e.path else v.path)
      && w.phase ==
        (if c.p1 == 0 then NoPhase
         else if c.p1 != 2 || c.p2 != 0 || |v.raw| + |c.data| > 510 then v.phase
         else if r.Data? then Approved
         else if r == Word(SignatureFail) then NoPhase
         else if Decode(v.raw + c.data).Some? && Asked(Decode(v.raw + c.data).value, e) then NoPhase
         else Parsed)
      && w.hash ==
        (if c.p1 == 0 then seq(32, _ => 0)
         else if c.p1 != 2 || c.p2 != 0 || |v.raw| + |c.data| > 510 then v.hash
         else k.keccak(v.raw + c.data))
  {
    hide Decode, Slice;
  }

  /** The user was asked, and denied. */
  ghost predicate Asked(items: seq<Item>, e: Env)
    requires |items| == 11
  {
    ((items[7].data == [] && items[8].data == []) || e.blindAllowed) && e.shown && !e.confirm
  }
}
