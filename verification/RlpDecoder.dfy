/** The loops and pointer steps of rlp_decode.c, proved against the grammar of Rlp. */
module RlpDecoder {
  import opened Words
  import opened Rlp

  /** len = (len << 8) | input[...] over n bytes, in a 64-bit variable. */
  method ReadLength(input: array<byte>, p: nat, n: nat) returns (len: uint64)
    requires n <= 8 && p + n <= input.Length
    ensures len == Big(input[p..p + n])
  {
    hide Big, Or, Pow256;
    len := 0;
    NoBytes();
    assert input[p..p] == [];
    for i := 0 to n
      invariant len == Big(input[p..p + i])
    {
      var s: seq<byte> := input[p..p + i + 1];
      assert s[..i] == input[p..p + i];
      BigStep(s);
      BigFits(s);
      len := Or(Shl(len, 8), input[p + i]);
    }
  }

  lemma NoBytes()
    ensures Big([]) == 0
  {
  }

  lemma BigStep(s: seq<byte>)
    requires s != []
    ensures var len := Big(s[..|s| - 1]);
      Or(Shl(len, 8), s[|s| - 1]) == len * 256 + s[|s| - 1] == Big(s)
  {
    hide Or, Pow2;
    Pow2Values();
    OrDisjoint(s[|s| - 1], Big(s[..|s| - 1]), 8);
  }

  lemma BigFits(s: seq<byte>)
    requires |s| <= 8
    ensures Big(s) < 0x1_0000_0000_0000_0000
  {
    BigBound(s);
    Pow256Grows(|s|, 8);
    Pow256Values();
  }

  lemma Part(input: array<byte>, p: nat, remaining: nat, a: nat, b: nat)
    requires p + remaining <= input.Length && a <= b <= remaining
    ensures input[p..p + remaining][a..b] == input[p + a..p + b]
  {
    var s, t := input[p..p + remaining][a..b], input[p + a..p + b];
    assert forall k {:trigger s[k]} :: 0 <= k < b - a ==> s[k] == t[k];
  }

  /** A short item, read from the array. */
  lemma ShortItem(input: array<byte>, p: nat, remaining: nat, len: nat, list: bool)
    requires p + remaining <= input.Length && remaining > 0
    ensures ParseShort(input[p..p + remaining], len, list) ==
      if len > remaining - 1 || (!list && len == 1 && input[p + 1] < 0x80) then None
      else Some((Item(list, input[p + 1..p + 1 + len]), 1 + len))
  {
    var s := input[p..p + remaining];
    assert remaining > 1 ==> s[1] == input[p + 1];
    if len <= remaining - 1 {
      Part(input, p, remaining, 1, 1 + len);
    }
  }

  /** What parse_rlp_item returns: -1, or the bytes consumed, converted to an int, and where the payload lies. */
  ghost predicate Returned(o: Option<(Item, nat)>, input: seq<byte>, p: nat, remaining: nat, consumed: int, at: nat,
                           len: nat) {
    match o
    case None => consumed == -1
    case Some((it, n)) =>
      && 0 < n <= remaining && consumed == Wrap32(n)
      && (n < INT_LIMIT ==> consumed == n) && (INT_LIMIT <= n < MAX_INPUT ==> consumed < 0)
      && at + len <= p + remaining <= |input| && input[at..at + len] == it.data
  }

  lemma ReturnedItem(it: Item, n: nat, input: seq<byte>, p: nat, remaining: nat, at: nat, len: nat)
    requires 0 < n <= remaining && at + len <= p + remaining <= |input| && input[at..at + len] == it.data
    ensures Returned(Some((it, n)), input, p, remaining, Wrap32(n), at, len) && (n < INT_LIMIT ==> Wrap32(n) == n)
  {
  }

  lemma ReturnedNothing(input: seq<byte>, p: nat, remaining: nat, at: nat, len: nat)
    ensures Returned(None, input, p, remaining, -1, at, len)
  {
  }

  /** parse_rlp_item */
  method ParseRlpItem(input: array<byte>, p: nat, remaining: nat) returns (consumed: int32, at: nat, len: nat)
    requires p + remaining <= input.Length
    ensures Returned(ParseItem(input[p..p + remaining]), input[..], p, remaining, consumed, at, len)
  {
    hide ParseShort, ParseLong, Returned, Wrap32;
    at, len := p, 0;
    if remaining == 0 {
      ReturnedNothing(input[..], p, remaining, at, len);
      return -1, at, len;
    }
    ghost var s := input[p..p + remaining];
    var prefix := input[p];
    assert s[0] == prefix;
    if prefix <= 0x7F {
      Part(input, p, remaining, 0, 1);
      assert s[..1] == s[0..1];
      ReturnedItem(Item(false, s[..1]), 1, input[..], p, remaining, p, 1);
      return 1, p, 1;
    } else if prefix <= 0xB7 {
      consumed, at, len := ParseShortItem(input, p, remaining, prefix - 0x80, false);
    } else if prefix <= 0xBF {
      consumed, at, len := ParseLongItem(input, p, remaining, prefix - 0xB7, false);
    } else if prefix <= 0xF7 {
      consumed, at, len := ParseShortItem(input, p, remaining, prefix - 0xC0, true);
    } else {
      consumed, at, len := ParseLongItem(input, p, remaining, prefix - 0xF7, true);
    }
  }

  /** The short-string and short-list branches. */
  method ParseShortItem(input: array<byte>, p: nat, remaining: nat, n: nat, list: bool)
    returns (consumed: int32, at: nat, len: nat)
    requires p + remaining <= input.Length && remaining > 0 && n <= 55
    ensures Returned(ParseShort(input[p..p + remaining], n, list), input[..], p, remaining, consumed, at, len)
  {
    hide ParseShort, Returned, Wrap32;
    at, len := p + 1, n;
    ReturnedNothing(input[..], p, remaining, at, len);
    ShortItem(input, p, remaining, len, list);
    if len > remaining - 1 || (!list && len == 1 && input[p + 1] < 0x80) {
      return -1, at, len;
    }
    ReturnedItem(Item(list, input[at..at + len]), 1 + len, input[..], p, remaining, at, len);
    consumed := 1 + len;
  }

  /** The long-string and long-list branches. */
  method ParseLongItem(input: array<byte>, p: nat, remaining: nat, lenOfLen: nat, ghost list: bool)
    returns (consumed: int32, at: nat, len: nat)
    requires p + remaining <= input.Length && remaining > 0 && 1 <= lenOfLen <= 8
    ensures Returned(ParseLong(input[p..p + remaining], lenOfLen, list), input[..], p, remaining, consumed, at, len)
  {
    hide Big, Returned, Wrap32;
    ghost var s := input[p..p + remaining];
    at, len := p, 0;
    ReturnedNothing(input[..], p, remaining, at, len);
    if lenOfLen > remaining - 1 {
      return -1, at, len;
    }
    assert s[1] == input[p + 1];
    if input[p + 1] == 0 {
      return -1, at, len;
    }
    len := ReadLength(input, p + 1, lenOfLen);
    ReturnedNothing(input[..], p, remaining, at, len);
    Part(input, p, remaining, 1, 1 + lenOfLen);
    if len > remaining - 1 - lenOfLen {
      return -1, at, len;
    }
    if len < 56 {
      return -1, at, len;
    }
    at := p + 1 + lenOfLen;
    Part(input, p, remaining, 1 + lenOfLen, 1 + lenOfLen + len);
    ReturnedItem(Item(list, input[at..at + len]), 1 + lenOfLen + len, input[..], p, remaining, at, len);
    consumed := Wrap32(1 + lenOfLen + len);
  }

  /** parse_rlp_list_header: whether a list starts here, its payload length and its header length. */
  method ParseRlpListHeader(input: array<byte>, p: nat, remaining: nat) returns (ok: bool, payload: nat, header: nat)
    requires p + remaining <= input.Length < MAX_INPUT
    ensures match ParseItem(input[p..p + remaining])
      case None => !ok
      case Some((it, n)) => (ok <==> it.list) && (ok ==> payload == |it.data| && header + payload == n)
  {
    hide Big;
    ghost var s := input[p..p + remaining];
    payload, header := 0, 0;
    if remaining == 0 {
      return false, payload, header;
    }
    var prefix := input[p];
    assert s[0] == prefix;
    if 0xC0 <= prefix <= 0xF7 {
      payload, header := prefix - 0xC0, 1;
      ok := payload <= remaining - header;
    } else if prefix >= 0xF8 {
      var lenOfLen := prefix - 0xF7;
      if lenOfLen > remaining - 1 {
        return false, payload, header;
      }
      assert s[1] == input[p + 1];
      if input[p + 1] == 0 {
        return false, payload, header;
      }
      var len := ReadLength(input, p + 1, lenOfLen);
      assert input[p + 1..p + 1 + lenOfLen] == s[1..1 + lenOfLen];
      payload, header := len, 1 + lenOfLen;
      ok := payload <= remaining - header && len >= 56;
    } else {
      ok := false;
    }
  }

  // ------------------------------------------------------------------ the transaction

  /** Some of the bytes are parsed: fields 0 to i-1, listed in acc, end at position p. */
  ghost predicate Parsed(s: seq<byte>, start: nat, p: nat, i: nat, acc: seq<Item>) {
    && |s| < MAX_INPUT && start <= p <= |s| && |acc| == i <= FIELDS
    && ParseFields(s[start..], CHAIN_ID, [], 0) == ParseFields(s[p..], i, acc, p - start)
  }

  ghost predicate Refused(s: seq<byte>, start: nat) {
    |s| < MAX_INPUT && start <= |s| && ParseFields(s[start..], CHAIN_ID, [], 0) == None
  }

  /** One field further, or refused. */
  lemma ParsedStep(s: seq<byte>, start: nat, p: nat, i: nat, acc: seq<Item>)
    requires Parsed(s, start, p, i, acc) && i < FIELDS
    ensures match ParseItem(s[p..])
      case None => Refused(s, start)
      case Some((it, n)) =>
        if FieldOk(i, it) && n < INT_LIMIT then p + n <= |s| && Parsed(s, start, p + n, i + 1, acc + [it])
        else Refused(s, start)
  {
    hide ParseItem, FieldOk;
    if ParseItem(s[p..]).Some? {
      EncodeOfParse(s[p..]);
      var n := ParseItem(s[p..]).value.1;
      assert s[p..][n..] == s[p + n..];
    }
    FieldsUnfold(s[p..], i, acc, p - start);
  }

  /** zond_tx_t */
  class ZondTx {
    const chainId: array<byte>
    var chainIdLen: byte
    const nonce: array<byte>
    var nonceLen: byte
    const gasTipCap: array<byte>
    var gasTipCapLen: byte
    const gasFeeCap: array<byte>
    var gasFeeCapLen: byte
    const gas: array<byte>
    var gasLen: byte
    const to: array<byte>
    const value: array<byte>
    var valueLen: byte
    var hasData: bool
    var hasAccessList: bool
    const descriptor: array<byte>
    var descriptorLen: byte

    /** A zeroed structure. */
    constructor ()
      ensures Valid() && fresh(chainId) && fresh(nonce) && fresh(gasTipCap) && fresh(gasFeeCap)
      ensures fresh(gas) && fresh(to) && fresh(value) && fresh(descriptor)
    {
      chainId, gasTipCap, gasFeeCap := new byte[32](_ => 0), new byte[32](_ => 0), new byte[32](_ => 0);
      value, nonce, gas := new byte[32](_ => 0), new byte[8](_ => 0), new byte[8](_ => 0);
      to, descriptor := new byte[64](_ => 0), new byte[3](_ => 0);
      chainIdLen, nonceLen, gasTipCapLen, gasFeeCapLen, gasLen, valueLen, descriptorLen := 0, 0, 0, 0, 0, 0, 0;
      hasData, hasAccessList := false, false;
    }

    ghost predicate Valid() {
      && chainId.Length == gasTipCap.Length == gasFeeCap.Length == value.Length == 32
      && nonce.Length == gas.Length == 8 && to.Length == 64 && descriptor.Length == 3
      && chainId != gasTipCap && chainId != gasFeeCap && chainId != value && gasTipCap != gasFeeCap
      && gasTipCap != value && gasFeeCap != value && nonce != gas
    }

    ghost function Arrays(): set<object> {
      {chainId, nonce, gasTipCap, gasFeeCap, gas, to, value, descriptor}
    }

    /** The structure holds these fields. */
    ghost predicate Holds(items: seq<Item>)
      requires Valid() && |items| == FIELDS
      reads this, Arrays()
    {
      && Stored(chainId[..], chainIdLen, items[0].data) && Stored(nonce[..], nonceLen, items[1].data)
      && Stored(gasTipCap[..], gasTipCapLen, items[2].data) && Stored(gasFeeCap[..], gasFeeCapLen, items[3].data)
      && Stored(gas[..], gasLen, items[4].data)
      && to[..] == (if items[5].data == [] then seq(64, _ => 0) else items[5].data)
      && Stored(value[..], valueLen, items[6].data)
      && (hasData <==> items[7].data != []) && (hasAccessList <==> items[8].data != [])
      && descriptor[..] == [1, 0, 0] && descriptorLen == 3
    }

    /** The integer fields before the recipient. */
    method TakeNumbers(rlp: array<byte>, len: nat, start: nat) returns (ok: bool, q: nat, ghost acc: seq<Item>)
      requires Valid() && rlp !in Arrays() && start <= len <= rlp.Length < MAX_INPUT
      modifies this`chainIdLen, this`nonceLen, this`gasTipCapLen, this`gasFeeCapLen, this`gasLen
      modifies chainId, nonce, gasTipCap, gasFeeCap, gas
      ensures !ok ==> Refused(rlp[..len], start)
      ensures ok ==> Parsed(rlp[..len], start, q, 5, acc)
      ensures ok ==> Stored(chainId[..], chainIdLen, acc[0].data) && Stored(nonce[..], nonceLen, acc[1].data)
      ensures ok ==> Stored(gasTipCap[..], gasTipCapLen, acc[2].data)
      ensures ok ==> Stored(gasFeeCap[..], gasFeeCapLen, acc[3].data)
      ensures ok ==> Stored(gas[..], gasLen, acc[4].data)
    {
      hide Parsed, Refused, Stored;
      acc := [];
      Begin(rlp[..len], start);
      ok, q, chainIdLen, acc := TakeInteger(rlp, len, start, chainId, start, CHAIN_ID, acc);
      if !ok {
        return;
      }
      ghost var a0 := acc;
      ok, q, nonceLen, acc := TakeInteger(rlp, len, q, nonce, start, 1, acc);
      if !ok {
        return;
      }
      ghost var a1 := acc;
      ok, q, gasTipCapLen, acc := TakeInteger(rlp, len, q, gasTipCap, start, 2, acc);
      if !ok {
        return;
      }
      ghost var a2 := acc;
      ok, q, gasFeeCapLen, acc := TakeInteger(rlp, len, q, gasFeeCap, start, 3, acc);
      if !ok {
        return;
      }
      ghost var a3 := acc;
      ok, q, gasLen, acc := TakeInteger(rlp, len, q, gas, start, 4, acc);
      if ok {
        assert a1[0] == a1[..1][0] && a2[1] == a2[..2][1] && a2[0] == a2[..2][0];
        assert acc[0] == acc[..4][0] && acc[1] == acc[..4][1] && acc[2] == acc[..4][2] && acc[3] == acc[..4][3];
        assert a3[0] == a3[..3][0] && a3[1] == a3[..3][1] && a3[2] == a3[..3][2];
      }
    }

    /** The recipient and the value. */
    method TakeRecipient(rlp: array<byte>, len: nat, p: nat, ghost start: nat, ghost acc: seq<Item>)
      returns (ok: bool, q: nat, ghost next: seq<Item>)
      requires Valid() && rlp !in Arrays() && len <= rlp.Length < MAX_INPUT && Parsed(rlp[..len], start, p, 5, acc)
      modifies this`valueLen, to, value
      ensures !ok ==> Refused(rlp[..len], start)
      ensures ok ==> Parsed(rlp[..len], start, q, 7, next) && next[..5] == acc
      ensures ok ==> to[..] == (if next[5].data == [] then seq(64, _ => 0) else next[5].data)
      ensures ok ==> Stored(value[..], valueLen, next[6].data)
    {
      hide ParseItem, ParseFields, Stored;
      ghost var s := rlp[..len];
      q, next := p, acc;
      assert s[p..] == rlp[p..p + (len - p)];
      ParsedStep(s, start, p, 5, acc);
      var consumed, at, valLen := ParseRlpItem(rlp, p, len - p);
      if consumed < 0 || (valLen != 64 && valLen != 0) {
        return false, q, next;
      }
      next := acc + [ParseItem(s[p..]).value.0];
      ghost var middle := next;
      Clear(to);
      if valLen > 0 {
        Copy(to, rlp, at, valLen);
      }
      assert to[..] == (if middle[5].data == [] then seq(64, _ => 0) else middle[5].data);
      ok, q, valueLen, next := TakeInteger(rlp, len, p + consumed, value, start, 6, next);
      if ok {
        assert next[5] == next[..6][5] && next[..5] == next[..6][..5];
      }
    }

    /** Data, access list, descriptor and extra parameters. */
    method TakeRest(rlp: array<byte>, len: nat, p: nat, ghost start: nat, ghost acc: seq<Item>)
      returns (ok: bool, q: nat, ghost next: seq<Item>)
      requires Valid() && rlp !in Arrays() && len <= rlp.Length < MAX_INPUT && Parsed(rlp[..len], start, p, 7, acc)
      modifies this`hasData, this`hasAccessList, this`descriptorLen, descriptor
      ensures !ok ==> Refused(rlp[..len], start)
      ensures ok ==> Parsed(rlp[..len], start, q, 11, next) && next[..7] == acc
      ensures ok ==> (hasData <==> next[7].data != []) && (hasAccessList <==> next[8].data != [])
      ensures ok ==> descriptor[..] == [1, 0, 0] && descriptorLen == 3
    {
      hide ParseItem, Parsed, Refused;
      ghost var s := rlp[..len];
      var consumed, at, valLen;
      q, next := p, acc;
      var remaining := len - q;
      Next(rlp, len, q, start, 7, next);
      if remaining == 0 || rlp[q] >= 0xC0 {
        return false, q, next;
      }
      consumed, at, valLen := ParseRlpItem(rlp, q, remaining);
      if consumed < 0 {
        return false, q, next;
      }
      hasData := valLen != 0;
      next := next + [ParseItem(s[q..]).value.0];
      q, remaining := q + consumed, remaining - consumed;
      Next(rlp, len, q, start, 8, next);
      if remaining == 0 || rlp[q] < 0xC0 {
        return false, q, next;
      }
      consumed, at, valLen := ParseRlpItem(rlp, q, remaining);
      if consumed < 0 {
        return false, q, next;
      }
      hasAccessList := valLen != 0;
      next := next + [ParseItem(s[q..]).value.0];
      q, remaining := q + consumed, remaining - consumed;
      ghost var before := next;
      ok, q, next := TakeEnd(rlp, len, q, start, next);
      if ok {
        assert next[7] == next[..9][7] && next[8] == next[..9][8] && next[..7] == next[..9][..7];
        assert before[..7] == acc;
      }
    }

    /** Descriptor and extra parameters. */
    method TakeEnd(rlp: array<byte>, len: nat, p: nat, ghost start: nat, ghost acc: seq<Item>)
      returns (ok: bool, q: nat, ghost next: seq<Item>)
      requires Valid() && rlp !in Arrays() && len <= rlp.Length < MAX_INPUT && Parsed(rlp[..len], start, p, 9, acc)
      modifies this`descriptorLen, descriptor
      ensures !ok ==> Refused(rlp[..len], start)
      ensures ok ==> Parsed(rlp[..len], start, q, 11, next) && |next| == 11 && next[..9] == acc
      ensures ok ==> descriptor[..] == [1, 0, 0] && descriptorLen == 3
    {
      hide ParseItem, Parsed, Refused;
      ok, q, next := TakeDescriptor(rlp, len, p, start, acc);
      if !ok {
        return;
      }
      Next(rlp, len, q, start, 10, next);
      var consumed, at, valLen := ParseRlpItem(rlp, q, len - q);
      if consumed < 0 || valLen != 0 {
        return false, q, next;
      }
      ghost var before := next;
      next := next + [ParseItem(rlp[..len][q..]).value.0];
      q := q + consumed;
      assert next[..9] == before[..9];
    }

    method TakeDescriptor(rlp: array<byte>, len: nat, p: nat, ghost start: nat, ghost acc: seq<Item>)
      returns (ok: bool, q: nat, ghost next: seq<Item>)
      requires Valid() && rlp !in Arrays() && len <= rlp.Length < MAX_INPUT && Parsed(rlp[..len], start, p, 9, acc)
      modifies this`descriptorLen, descriptor
      ensures !ok ==> Refused(rlp[..len], start)
      ensures ok ==> Parsed(rlp[..len], start, q, 10, next) && |acc| == 9 && |next| == 10 && next[..9] == acc
      ensures ok ==> descriptor[..] == [1, 0, 0] && descriptorLen == 3
    {
      hide ParseItem, Parsed, Refused;
      q, next := p, acc;
      Next(rlp, len, q, start, 9, next);
      var consumed, at, valLen := ParseRlpItem(rlp, q, len - q);
      assert consumed >= 0 && valLen == 3 ==> rlp[at..at + 3] == [rlp[at], rlp[at + 1], rlp[at + 2]];
      if consumed < 0 || valLen != 3 || rlp[at] != 1 || rlp[at + 1] != 0 || rlp[at + 2] != 0 {
        return false, q, next;
      }
      Copy(descriptor, rlp, at, valLen);
      descriptorLen := valLen;
      assert descriptor[..] == descriptor[..3];
      ok, q, next := true, q + consumed, next + [ParseItem(rlp[..len][q..]).value.0];
    }

    /** The eleven fields. */
    method TakeFields(rlp: array<byte>, len: nat, start: nat) returns (ok: bool, q: nat, ghost acc: seq<Item>)
      requires Valid() && rlp !in Arrays() && start <= len <= rlp.Length < MAX_INPUT
      modifies this, chainId, nonce, gasTipCap, gasFeeCap, gas, to, value, descriptor
      ensures !ok ==> Refused(rlp[..len], start)
      ensures ok ==> Parsed(rlp[..len], start, q, FIELDS, acc) && Holds(acc)
    {
      hide ParseItem, ParseFields, Stored;
      ok, q, acc := TakeNumbers(rlp, len, start);
      if !ok {
        return;
      }
      ghost var a := acc;
      ok, q, acc := TakeRecipient(rlp, len, q, start, acc);
      if !ok {
        return;
      }
      ghost var b := acc;
      ok, q, acc := TakeRest(rlp, len, q, start, acc);
      if ok {
        Prefixes(a, b, acc);
      }
    }

    /** decode_ledger_tx: 0 exactly for the well-formed transactions, whose fields then fill the structure. */
    method DecodeLedgerTx(rlp: array<byte>, len: nat) returns (r: int)
      requires Valid() && rlp !in Arrays() && len <= rlp.Length < MAX_INPUT
      modifies this, chainId, nonce, gasTipCap, gasFeeCap, gas, to, value, descriptor
      ensures r == 0 || r == -1
      ensures r == 0 <==> Decode(rlp[..len]).Some?
      ensures r == 0 ==> Holds(Decode(rlp[..len]).value)
    {
      hide ParseItem, Parsed, Refused, Holds, Decode;
      ghost var s := rlp[..len];
      NoList(s);
      if len == 0 {
        return -1;
      }
      if rlp[0] != 2 {
        return -1;
      }
      assert s[1..] == rlp[1..1 + (len - 1)];
      var isList, payload, header := ParseRlpListHeader(rlp, 1, len - 1);
      if !isList {
        return -1;
      }
      var start := 1 + header;
      FieldsDecide(s, payload, start);
      var ok, q;
      ghost var acc;
      ok, q, acc := TakeFields(rlp, len, start);
      if !ok {
        NotParsed(s, start);
        return -1;
      }
      AllParsed(s, start, q, acc);
      if q != start + payload {
        return -1;
      }
      return 0;
    }
  }

  /** What the structure holds after a printed transaction was decoded. */
  lemma PrintedMembers(tx: ZondTx, p: Params)
    requires Fits(p) && Printable(p) && DataSize(p) < INT_LIMIT && tx.Valid()
    requires Decode(EncodeUnsignedPreimage(p)).Some? ==> tx.Holds(Decode(EncodeUnsignedPreimage(p)).value)
    ensures Decode(EncodeUnsignedPreimage(p)).Some?
    ensures tx.chainIdLen <= 32 && tx.chainId[..tx.chainIdLen] == Minimal(p.chainId)
    ensures tx.nonceLen <= 8 && tx.nonce[..tx.nonceLen] == Minimal(p.nonce)
    ensures tx.gasTipCapLen <= 32 && tx.gasTipCap[..tx.gasTipCapLen] == Minimal(p.tip)
    ensures tx.gasFeeCapLen <= 32 && tx.gasFeeCap[..tx.gasFeeCapLen] == Minimal(p.feeCap)
    ensures tx.gasLen <= 8 && tx.gas[..tx.gasLen] == Minimal(p.gas)
    ensures tx.valueLen <= 32 && tx.value[..tx.valueLen] == Minimal(p.value)
    ensures tx.to[..] == if p.to == [] then seq(64, _ => 0) else p.to
    ensures (tx.hasData <==> p.data != []) && !tx.hasAccessList
  {
    hide Decode, EncodeUnsignedPreimage, Printable, Minimal, Fits, IntToBytes;
    ParserUndoesPrinter(p);
    IntToBytesMinimal(p.chainId);
    IntToBytesMinimal(p.nonce);
    IntToBytesMinimal(p.tip);
    IntToBytesMinimal(p.feeCap);
    IntToBytesMinimal(p.gas);
    IntToBytesMinimal(p.value);
  }

  lemma NoList(s: seq<byte>)
    requires |s| < MAX_INPUT
    ensures |s| == 0 || s[0] != 2 || ParseItem(s[1..]) == None || !ParseItem(s[1..]).value.0.list ==> Decode(s) == None
  {
    hide ParseItem, ParseFields;
  }

  /** Behind the list header the fields decide. */
  lemma FieldsDecide(s: seq<byte>, payload: nat, start: nat)
    requires 0 < |s| < MAX_INPUT && s[0] == 2 && ParseItem(s[1..]).Some?
    requires var (it, n) := ParseItem(s[1..]).value; it.list && payload == |it.data| && start == 1 + n - payload
    ensures start + payload <= |s|
    ensures Decode(s) == match ParseFields(s[start..], CHAIN_ID, [], 0)
      case None => None
      case Some((items, used)) => if used == payload then Some(items) else None
  {
    hide ParseItem, ParseFields;
    EncodeOfParse(s[1..]);
  }

  lemma AllParsed(s: seq<byte>, start: nat, q: nat, acc: seq<Item>)
    requires Parsed(s, start, q, FIELDS, acc)
    ensures start <= q && ParseFields(s[start..], CHAIN_ID, [], 0) == Some((acc, q - start))
  {
    hide ParseFields;
    Finished(s[q..], acc, q - start);
  }

  lemma NotParsed(s: seq<byte>, start: nat)
    requires Refused(s, start)
    ensures start <= |s| < MAX_INPUT && ParseFields(s[start..], CHAIN_ID, [], 0) == None
  {
    hide ParseFields;
  }

  lemma Begin(s: seq<byte>, start: nat)
    requires start <= |s| < MAX_INPUT
    ensures Parsed(s, start, start, 0, [])
  {
  }

  lemma Prefixes(a: seq<Item>, b: seq<Item>, c: seq<Item>)
    requires |a| == 5 && |b| == 7 && |c| == 11 && b[..5] == a && c[..7] == b
    ensures forall k :: 0 <= k < 5 ==> c[k] == a[k]
    ensures forall k :: 5 <= k < 7 ==> c[k] == b[k]
  {
    assert forall k :: 0 <= k < 7 ==> c[k] == c[..7][k];
    assert forall k :: 0 <= k < 5 ==> b[k] == b[..5][k];
  }

  /** The next field begins at q; its first byte says whether it is a list. */
  lemma Next(rlp: array<byte>, len: nat, q: nat, start: nat, i: nat, acc: seq<Item>)
    requires len <= rlp.Length < MAX_INPUT && Parsed(rlp[..len], start, q, i, acc) && i < FIELDS
    ensures start <= q <= len && |acc| == i && rlp[..len][q..] == rlp[q..q + (len - q)]
    ensures match ParseItem(rlp[..len][q..])
      case None => Refused(rlp[..len], start)
      case Some((it, n)) =>
        && (if FieldOk(i, it) && n < INT_LIMIT then q + n <= len && Parsed(rlp[..len], start, q + n, i + 1, acc + [it])
            else Refused(rlp[..len], start))
        && q < len && (it.list <==> rlp[q] >= 0xC0)
  {
    hide ParseItem, FieldOk, ParseFields;
    var s := rlp[..len];
    ParsedStep(s, start, q, i, acc);
    if ParseItem(s[q..]).Some? {
      EncodeOfParse(s[q..]);
      assert s[q..][0] == rlp[q];
    }
    assert rlp[..len][q..] == rlp[q..q + (len - q)];
  }

  /** A field buffer: the first len bytes are the data. */
  ghost predicate Stored(buf: seq<byte>, len: byte, data: seq<byte>) {
    len == |data| <= |buf| && buf[..len] == data
  }

  /** memcpy */
  method Copy(out: array<byte>, rlp: array<byte>, at: nat, len: nat)
    requires at + len <= rlp.Length && len <= out.Length && out != rlp
    modifies out
    ensures out[..len] == rlp[at..at + len] && out[len..] == old(out[len..])
  {
    for k := 0 to len
      invariant out[..k] == rlp[at..at + k] && out[k..] == old(out[k..])
    {
      out[k] := rlp[at + k];
      assert out[..k + 1] == out[..k] + [rlp[at + k]];
    }
  }

  /** memset */
  method Clear(out: array<byte>)
    modifies out
    ensures out[..] == seq(out.Length, _ => 0)
  {
    for k := 0 to out.Length
      invariant forall m :: 0 <= m < k ==> out[m] == 0
    {
      out[k] := 0;
    }
  }

  /** One of the seven integer fields. */
  method TakeInteger(rlp: array<byte>, len: nat, p: nat, out: array<byte>, ghost start: nat, ghost i: nat,
                     ghost acc: seq<Item>)
    returns (ok: bool, q: nat, n: byte, ghost next: seq<Item>)
    requires len <= rlp.Length < MAX_INPUT && out != rlp && Parsed(rlp[..len], start, p, i, acc)
    requires (i in {0, 2, 3, 6} && out.Length == 32) || (i in {1, 4} && out.Length == 8)
    modifies out
    ensures !ok ==> Refused(rlp[..len], start)
    ensures ok ==> |next| == i + 1 && next[..i] == acc && Parsed(rlp[..len], start, q, i + 1, next)
    ensures ok ==> Stored(out[..], n, next[i].data)
  {
    hide ParseItem, ParseFields;
    ghost var s := rlp[..len];
    q, n, next := p, 0, acc;
    assert s[p..] == rlp[p..p + (len - p)];
    ParsedStep(s, start, p, i, acc);
    var consumed, at, valLen := ParseRlpItem(rlp, p, len - p);
    assert consumed >= 0 && valLen > 0 ==> rlp[at..at + valLen][0] == rlp[at];
    if consumed < 0 || valLen > out.Length || (valLen > 0 && rlp[at] == 0) {
      return false, q, n, next;
    }
    ghost var it := ParseItem(s[p..]).value.0;
    Copy(out, rlp, at, valLen);
    ok, q, n, next := true, p + consumed, valLen, acc + [it];
  }
}
