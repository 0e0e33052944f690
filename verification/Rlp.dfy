/**
  The transaction decoder of rlp_decode.c against the encoder of tests/e2e/qrltx.mjs.  A length of the C
  code is a size_t of 64 bits.  Inputs are shorter than 2^32 bytes, the limit of an array of the encoder
  (the application's buffer has 510).  The number of bytes consumed is returned in an int, so an item of
  2^31 bytes or more is refused.
 */
module Rlp {
  import opened Words

  datatype Option<T> = None | Some(value: T)

  const MAX_INPUT: nat := 0x1_0000_0000
  const INT_LIMIT: nat := 0x8000_0000

  // ------------------------------------------------------------------ big-endian numbers

  /** The number that bytes write, most significant first. */
  function Big(s: seq<byte>): nat {
    if s == [] then 0 else Big(s[..|s| - 1]) * 256 + s[|s| - 1]
  }

  /** The shortest bytes that write a number; none for 0. */
  function Minimal(n: nat): (r: seq<byte>) {
    if n == 0 then [] else Minimal(n / 256) + [n % 256]
  }

  predicate NoLeadingZero(s: seq<byte>) {
    |s| > 0 ==> s[0] != 0
  }

  lemma MinimalUnfold(n: nat)
    ensures Minimal(n) == if n == 0 then [] else Minimal(n / 256) + [n % 256]
  {
  }

  lemma BigUnfold(s: seq<byte>)
    ensures Big(s) == if s == [] then 0 else Big(s[..|s| - 1]) * 256 + s[|s| - 1]
  {
  }

  lemma {:induction false} BigOfMinimal(n: nat)
    ensures Big(Minimal(n)) == n && NoLeadingZero(Minimal(n)) && (n > 0 ==> |Minimal(n)| > 0)
  {
    hide Minimal, Big;
    MinimalUnfold(n);
    BigUnfold(Minimal(n));
    if n > 0 {
      BigOfMinimal(n / 256);
      assert Minimal(n)[..|Minimal(n)| - 1] == Minimal(n / 256);
    }
  }

  lemma {:induction false} MinimalOfBig(s: seq<byte>)
    requires NoLeadingZero(s)
    ensures Minimal(Big(s)) == s && (s != [] ==> Big(s) > 0)
  {
    hide Minimal, Big;
    MinimalUnfold(Big(s));
    BigUnfold(s);
    if s != [] {
      var t := s[..|s| - 1];
      MinimalOfBig(t);
      BigUnfold(t);
      assert s == t + [s[|s| - 1]];
    }
  }

  /** 256^k */
  function Pow256(k: nat): (p: nat)
    ensures p > 0
  {
    if k == 0 then 1 else 256 * Pow256(k - 1)
  }

  lemma {:induction false} MinimalLength(n: nat, k: nat)
    ensures |Minimal(n)| <= k <==> n < Pow256(k)
    decreases k
  {
    if k == 0 {
      BigOfMinimal(n);
    } else if n > 0 {
      MinimalLength(n / 256, k - 1);
    }
  }

  lemma {:induction false} BigBound(s: seq<byte>)
    ensures Big(s) < Pow256(|s|)
  {
    if s != [] {
      BigBound(s[..|s| - 1]);
    }
  }

  lemma {:induction false} Pow256Grows(a: nat, b: nat)
    requires a <= b
    ensures Pow256(a) <= Pow256(b)
  {
    if a < b {
      Pow256Grows(a, b - 1);
    }
  }

  lemma Pow256Values()
    ensures Pow256(4) == 0x1_0000_0000 && Pow256(8) == 0x1_0000_0000_0000_0000
  {
    assert Pow256(2) == 0x1_0000;
    assert Pow256(6) == 0x1_0000_0000_0000;
  }

  // ------------------------------------------------------------------ items

  /** A byte string or a list, of which only the payload matters here. */
  datatype Item = Item(list: bool, data: seq<byte>)

  /** rlpBytes and rlpList: the encoding of a string, or of a list with a given payload. */
  function Encode(it: Item): (r: seq<byte>)
    requires |it.data| < MAX_INPUT
    ensures |r| > 0
  {
    var base, n := if it.list then 0xC0 else 0x80, |it.data|;
    if !it.list && n == 1 && it.data[0] < 0x80 then it.data
    else if n <= 55 then [base + n] + it.data
    else
      LengthOfLength(n);
      [base + 55 + |Minimal(n)|] + Minimal(n) + it.data
  }

  lemma LengthOfLength(n: nat)
    requires 55 < n < MAX_INPUT
    ensures 1 <= |Minimal(n)| <= 4
  {
    Pow256Values();
    MinimalLength(n, 4);
    BigOfMinimal(n);
  }

  /** parse_rlp_item: the item at the start of s and the number of bytes it takes. */
  function ParseItem(s: seq<byte>): Option<(Item, nat)> {
    if |s| == 0 then None
    else if s[0] <= 0x7F then Some((Item(false, s[..1]), 1))
    else if s[0] <= 0xB7 then ParseShort(s, s[0] - 0x80, false)
    else if s[0] <= 0xBF then ParseLong(s, s[0] - 0xB7, false)
    else if s[0] <= 0xF7 then ParseShort(s, s[0] - 0xC0, true)
    else ParseLong(s, s[0] - 0xF7, true)
  }

  /** An item of len bytes after the prefix; a single small byte must not be written as a string. */
  function ParseShort(s: seq<byte>, len: nat, list: bool): Option<(Item, nat)>
    requires |s| > 0
  {
    if len > |s| - 1 || (!list && len == 1 && s[1] < 0x80) then None else Some((Item(list, s[1..1 + len]), 1 + len))
  }

  /** An item whose length is written in n bytes after the prefix. */
  function ParseLong(s: seq<byte>, n: nat, list: bool): Option<(Item, nat)>
    requires |s| > 0 && n > 0
  {
    if n > |s| - 1 || s[1] == 0 then None
    else
      var len := Big(s[1..1 + n]);
      if len > |s| - 1 - n || len < 56 then None
      else Some((Item(list, s[1 + n..1 + n + len]), 1 + n + len))
  }

  /** What is parsed is the encoding of the item, in the bytes consumed. */
  lemma EncodeOfParse(s: seq<byte>)
    requires |s| < MAX_INPUT && ParseItem(s).Some?
    ensures var (it, n) := ParseItem(s).value;
      && 0 < n <= |s| && |it.data| < n + 1 && (it.list <==> s[0] >= 0xC0)
      && s[..n] == Encode(it)
  {
    hide ParseShort, ParseLong, Encode;
    if s[0] <= 0x7F {
      ByteParsed(s);
    } else if s[0] <= 0xB7 {
      ShortParsed(s, s[0] - 0x80, false);
    } else if s[0] <= 0xBF {
      LongParsed(s, s[0] - 0xB7, false);
    } else if s[0] <= 0xF7 {
      ShortParsed(s, s[0] - 0xC0, true);
    } else {
      LongParsed(s, s[0] - 0xF7, true);
    }
  }

  lemma ByteParsed(s: seq<byte>)
    requires |s| > 0 && s[0] <= 0x7F
    ensures s[..1] == Encode(Item(false, s[..1]))
  {
  }

  lemma ShortParsed(s: seq<byte>, len: nat, list: bool)
    requires |s| > 0 && len <= 55 && ParseShort(s, len, list).Some?
    requires s[0] == (if list then 0xC0 else 0x80) + len
    ensures var (it, k) := ParseShort(s, len, list).value;
      0 < k <= |s| && |it.data| < k && it.list == list && s[..k] == Encode(it)
  {
    var (it, k) := ParseShort(s, len, list).value;
    assert s[..k] == [s[0]] + it.data;
  }

  lemma LongParsed(s: seq<byte>, n: nat, list: bool)
    requires 0 < |s| < MAX_INPUT && n > 0 && ParseLong(s, n, list).Some?
    requires s[0] == (if list then 0xF7 else 0xB7) + n
    ensures var (it, k) := ParseLong(s, n, list).value;
      0 < k <= |s| && |it.data| < k && it.list == list && s[..k] == Encode(it)
  {
    hide Minimal, Big;
    var (it, k) := ParseLong(s, n, list).value;
    var ln := s[1..1 + n];
    assert ln[0] == s[1];
    MinimalOfBig(ln);
    assert |it.data| == Big(ln) && Minimal(|it.data|) == ln;
    assert s[..k] == [s[0]] + ln + it.data;
  }

  lemma LongPrinted(it: Item, rest: seq<byte>)
    requires 55 < |it.data| < MAX_INPUT
    ensures ParseLong(Encode(it) + rest, |Minimal(|it.data|)|, it.list) == Some((it, |Encode(it)|))
  {
    hide Minimal, Big;
    var n, ln := |it.data|, Minimal(|it.data|);
    LengthOfLength(n);
    BigOfMinimal(n);
    LongShape(Encode(it) + rest, (if it.list then 0xC0 else 0x80) + 55 + |ln|, ln, it.data, rest);
  }

  /** Where the parts of a long encoding lie. */
  lemma LongShape(s: seq<byte>, prefix: byte, ln: seq<byte>, data: seq<byte>, rest: seq<byte>)
    requires s == [prefix] + ln + data + rest && ln != []
    ensures var m, n := |ln|, |data|;
      1 + m + n <= |s| && s[1] == ln[0] && s[1..1 + m] == ln && s[1 + m..1 + m + n] == data
  {
  }

  lemma ShortPrinted(it: Item, rest: seq<byte>)
    requires |it.data| <= 55 && (it.list || |it.data| != 1 || it.data[0] >= 0x80)
    ensures ParseShort(Encode(it) + rest, |it.data|, it.list) == Some((it, |Encode(it)|))
  {
    var s, n := Encode(it) + rest, |it.data|;
    assert s == [(if it.list then 0xC0 else 0x80) + n] + (it.data + rest);
    assert s[1..1 + n] == it.data;
  }

  /** Every encoding is parsed back, whatever follows it. */
  lemma ParseOfEncode(it: Item, rest: seq<byte>)
    requires |it.data| < MAX_INPUT
    ensures ParseItem(Encode(it) + rest) == Some((it, |Encode(it)|))
  {
    hide Minimal, Big, ParseLong, ParseShort;
    var s, n := Encode(it) + rest, |it.data|;
    if n > 55 {
      LengthOfLength(n);
      LongPrinted(it, rest);
    } else if !it.list && n == 1 && it.data[0] < 0x80 {
      assert s[..1] == it.data;
    } else {
      ShortPrinted(it, rest);
    }
  }

  // ------------------------------------------------------------------ the eleven fields

  /** The fields are numbered from the chain id on. */
  const CHAIN_ID: nat := 0
  const FIELDS: nat := 11

  function EncodeAll(items: seq<Item>): (r: seq<byte>)
    requires Short(items)
  {
    if items == [] then [] else Encode(items[0]) + EncodeAll(items[1..])
  }

  ghost predicate Short(items: seq<Item>) {
    forall i :: 0 <= i < |items| ==> |items[i].data| < MAX_INPUT
  }

  /** An integer field: at most max bytes and no leading zero; a list header is accepted as well. */
  predicate IntegerOk(data: seq<byte>, max: nat) {
    |data| <= max && NoLeadingZero(data)
  }

  /** What decode_ledger_tx demands of field i. */
  predicate FieldOk(i: nat, it: Item) {
    match i
    case 0 => IntegerOk(it.data, 32)             // chain id
    case 1 => IntegerOk(it.data, 8)              // nonce
    case 2 => IntegerOk(it.data, 32)             // gas tip cap
    case 3 => IntegerOk(it.data, 32)             // gas fee cap
    case 4 => IntegerOk(it.data, 8)              // gas
    case 5 => |it.data| == 64 || |it.data| == 0  // to
    case 6 => IntegerOk(it.data, 32)             // value
    case 7 => !it.list                           // data
    case 8 => it.list                            // access list
    case 9 => it.data == [1, 0, 0]               // descriptor
    case _ => it.data == []                      // extra params
  }

  /** The field is well formed, and the bytes it takes can be counted in an int. */
  ghost predicate TakeOk(i: nat, it: Item) {
    FieldOk(i, it) && |it.data| < MAX_INPUT && |Encode(it)| < INT_LIMIT
  }

  ghost predicate FieldsOk(items: seq<Item>, i: nat) {
    forall k :: 0 <= k < |items| ==> TakeOk(i + k, items[k])
  }

  /** What every accepted transaction has. */
  ghost predicate WellFormed(items: seq<Item>) {
    |items| == FIELDS && forall k :: 0 <= k < FIELDS ==> FieldOk(CHAIN_ID + k, items[k])
  }

  /** Fields i to 10 at the start of s, after those in acc, and the number of bytes of all of them. */
  function ParseFields(s: seq<byte>, i: nat, acc: seq<Item>, used: nat): (r: Option<(seq<Item>, nat)>)
    requires i <= FIELDS && |s| < MAX_INPUT
    ensures r.Some? ==> |r.value.0| == |acc| + FIELDS - i
    decreases FIELDS - i
  {
    if i == FIELDS then Some((acc, used))
    else
      match ParseItem(s)
      case None => None
      case Some((it, n)) =>
        EncodeOfParse(s);
        if FieldOk(i, it) && n < INT_LIMIT then ParseFields(s[n..], i + 1, acc + [it], used + n) else None
  }

  /** decode_ledger_tx: the fields of a transaction, when it is accepted. */
  function Decode(rlp: seq<byte>): (r: Option<seq<Item>>)
    requires |rlp| < MAX_INPUT
    ensures r.Some? ==> |r.value| == FIELDS
  {
    if |rlp| == 0 || rlp[0] != 2 then None
    else
      match ParseItem(rlp[1..])
      case None => None
      case Some((it, n)) =>
        if !it.list then None
        else
          EncodeOfParse(rlp[1..]);
          match ParseFields(rlp[1 + n - |it.data|..], CHAIN_ID, [], 0)
          case None => None
          case Some((items, used)) => if used == |it.data| then Some(items) else None
  }

  /** The format: 0x02, then a list of the eleven fields, each of them well formed. */
  ghost predicate IsTransaction(rlp: seq<byte>, items: seq<Item>) {
    && |items| == FIELDS && FieldsOk(items, CHAIN_ID) && Short(items) && |EncodeAll(items)| < MAX_INPUT
    && [2] + Encode(Item(true, EncodeAll(items))) <= rlp
  }

  lemma FieldsUnfold(s: seq<byte>, i: nat, acc: seq<Item>, used: nat)
    requires i < FIELDS && |s| < MAX_INPUT
    ensures match ParseItem(s)
      case None => ParseFields(s, i, acc, used) == None
      case Some((it, n)) =>
        if FieldOk(i, it) && n < INT_LIMIT then
          && n <= |s| && TakeOk(i, it)
          && ParseFields(s, i, acc, used) == ParseFields(s[n..], i + 1, acc + [it], used + n)
        else ParseFields(s, i, acc, used) == None
  {
    hide ParseItem, FieldOk, Encode;
    if ParseItem(s).Some? {
      EncodeOfParse(s);
    }
  }

  /** The items after acc are fields i to 10, and s begins with their encodings. */
  ghost predicate FieldsAre(s: seq<byte>, i: nat, acc: seq<Item>, used: nat, items: seq<Item>, total: nat) {
    && i <= FIELDS && |items| == |acc| + FIELDS - i && items[..|acc|] == acc
    && FieldsOk(items[|acc|..], i) && Short(items[|acc|..])
    && used <= total <= used + |s| && EncodeAll(items[|acc|..]) == s[..total - used]
  }

  lemma FieldsAreStep(s: seq<byte>, i: nat, acc: seq<Item>, used: nat, items: seq<Item>, total: nat, it: Item, n: nat)
    requires i < FIELDS && n <= |s| && |it.data| < MAX_INPUT && s[..n] == Encode(it) && TakeOk(i, it)
    requires FieldsAre(s[n..], i + 1, acc + [it], used + n, items, total)
    ensures FieldsAre(s, i, acc, used, items, total)
  {
    hide Encode, TakeOk, FieldsOk, Short, EncodeAll;
    AfterPrefix(items, acc, it);
    FieldsCons(it, items[|acc| + 1..], i);
    assert s[..total - used] == s[..n] + s[n..][..total - used - n];
  }

  lemma {:induction false} FieldsParsed(s: seq<byte>, i: nat, acc: seq<Item>, used: nat)
    requires i <= FIELDS && |s| < MAX_INPUT && ParseFields(s, i, acc, used).Some?
    ensures var (items, total) := ParseFields(s, i, acc, used).value; FieldsAre(s, i, acc, used, items, total)
    decreases FIELDS - i
  {
    hide Encode, ParseItem, FieldOk;
    if i == FIELDS {
      NoFields(i);
      assert acc[|acc|..] == [] && acc[..|acc|] == acc;
    } else {
      hide FieldsAre;
      FieldsUnfold(s, i, acc, used);
      var (items, total) := ParseFields(s, i, acc, used).value;
      var (it, n) := ParseItem(s).value;
      EncodeOfParse(s);
      FieldsParsed(s[n..], i + 1, acc + [it], used + n);
      FieldsAreStep(s, i, acc, used, items, total, it, n);
    }
  }

  lemma AfterPrefix(items: seq<Item>, acc: seq<Item>, it: Item)
    requires |acc| < |items| && items[..|acc + [it]|] == acc + [it]
    ensures items[..|acc|] == acc && items[|acc|..] == [it] + items[|acc| + 1..]
    ensures |acc + [it]| == |acc| + 1
  {
    assert items[..|acc|] == (acc + [it])[..|acc|];
    assert items[|acc|] == (acc + [it])[|acc|];
  }

  lemma NoFields(i: nat)
    ensures FieldsOk([], i) && Short([]) && EncodeAll([]) == []
  {
  }

  lemma FieldsCons(it: Item, tail: seq<Item>, i: nat)
    requires TakeOk(i, it) && FieldsOk(tail, i + 1) && |it.data| < MAX_INPUT && Short(tail)
    ensures FieldsOk([it] + tail, i) && Short([it] + tail)
    ensures EncodeAll([it] + tail) == Encode(it) + EncodeAll(tail)
  {
    hide Encode, TakeOk;
    assert ([it] + tail)[1..] == tail;
    forall k | 0 <= k < 1 + |tail|
      ensures TakeOk(i + k, ([it] + tail)[k])
    {
      if k > 0 {
        assert TakeOk(i + 1 + (k - 1), tail[k - 1]);
      }
    }
  }

  lemma {:induction false} FieldsPrinted(items: seq<Item>, i: nat, rest: seq<byte>, acc: seq<Item>, used: nat)
    requires i <= FIELDS && |items| == FIELDS - i && FieldsOk(items, i) && Short(items)
    requires |EncodeAll(items) + rest| < MAX_INPUT
    ensures ParseFields(EncodeAll(items) + rest, i, acc, used) == Some((acc + items, used + |EncodeAll(items)|))
    decreases FIELDS - i
  {
    hide Encode, ParseItem, FieldOk, ParseFields, FieldsOk, Short, EncodeAll;
    if i < FIELDS {
      var it, tail := items[0], items[1..];
      FieldsSplit(items, i);
      var s, after := EncodeAll(items) + rest, EncodeAll(tail) + rest;
      assert s == Encode(it) + after;
      ParseOfEncode(it, after);
      FieldsUnfold(s, i, acc, used);
      assert s[|Encode(it)|..] == after;
      FieldsPrinted(tail, i + 1, rest, acc + [it], used + |Encode(it)|);
      assert acc + [it] + tail == acc + items;
    } else {
      assert items == [] && acc + items == acc;
      NoFields(i);
      Finished(EncodeAll(items) + rest, acc, used);
    }
  }

  lemma Finished(s: seq<byte>, acc: seq<Item>, used: nat)
    requires |s| < MAX_INPUT
    ensures ParseFields(s, FIELDS, acc, used) == Some((acc, used))
  {
  }

  lemma FieldsSplit(items: seq<Item>, i: nat)
    requires items != [] && FieldsOk(items, i) && Short(items)
    ensures TakeOk(i, items[0]) && |items[0].data| < MAX_INPUT && FieldsOk(items[1..], i + 1) && Short(items[1..])
    ensures EncodeAll(items) == Encode(items[0]) + EncodeAll(items[1..])
  {
    hide Encode, TakeOk;
    assert TakeOk(i + 0, items[0]);
    forall k | 0 <= k < |items[1..]|
      ensures TakeOk(i + 1 + k, items[1..][k])
    {
      assert TakeOk(i + (k + 1), items[k + 1]);
    }
  }

  lemma DecodeSound(rlp: seq<byte>, items: seq<Item>)
    requires |rlp| < MAX_INPUT && Decode(rlp) == Some(items)
    ensures IsTransaction(rlp, items)
  {
    hide ParseItem, Encode, EncodeAll, FieldOk, ParseFields, FieldsOk, Short;
    var (it, n) := ParseItem(rlp[1..]).value;
    EncodeOfParse(rlp[1..]);
    PayloadAtEnd(it);
    var h := n - |it.data|;
    var s := rlp[1 + h..];
    FieldsParsed(s, CHAIN_ID, [], 0);
    assert items[0..] == items;
    assert rlp[1..][..n][h..] == s[..|it.data|];
    assert rlp[..1 + n] == [2] + rlp[1..][..n];
  }

  lemma DecodeComplete(rlp: seq<byte>, items: seq<Item>)
    requires |rlp| < MAX_INPUT && IsTransaction(rlp, items)
    ensures Decode(rlp) == Some(items)
  {
    hide ParseItem, Encode, EncodeAll, FieldOk, ParseFields, FieldsOk, Short;
    var it := Item(true, EncodeAll(items));
    var e := Encode(it);
    var rest := rlp[1 + |e|..];
    assert rlp[1..] == e + rest;
    ParseOfEncode(it, rest);
    PayloadAtEnd(it);
    var h := |e| - |it.data|;
    assert rlp[1 + h..] == e[h..] + rest;
    FieldsPrinted(items, CHAIN_ID, rest, [], 0);
    assert [] + items == items;
  }

  /**
    The decoder accepts exactly the well-formed transactions and returns their fields.  Bytes after the
    list do not matter, and neither does the list flag of a scalar field.
   */
  lemma DecodeIff(rlp: seq<byte>, items: seq<Item>)
    requires |rlp| < MAX_INPUT
    ensures Decode(rlp) == Some(items) <==> IsTransaction(rlp, items)
  {
    hide Decode, IsTransaction;
    if Decode(rlp) == Some(items) {
      DecodeSound(rlp, items);
    }
    if IsTransaction(rlp, items) {
      DecodeComplete(rlp, items);
    }
  }

  lemma AcceptedWellFormed(rlp: seq<byte>)
    requires |rlp| < MAX_INPUT && Decode(rlp).Some?
    ensures WellFormed(Decode(rlp).value)
  {
    hide Decode, FieldOk, Encode, EncodeAll;
    var items := Decode(rlp).value;
    DecodeIff(rlp, items);
    forall k | 0 <= k < FIELDS
      ensures FieldOk(CHAIN_ID + k, items[k])
    {
      assert TakeOk(CHAIN_ID + k, items[k]);
    }
  }

  /** The payload ends an encoding. */
  lemma PayloadAtEnd(it: Item)
    requires |it.data| < MAX_INPUT
    ensures |it.data| <= |Encode(it)| && Encode(it)[|Encode(it)| - |it.data|..] == it.data
    ensures it.list ==> |it.data| < |Encode(it)|
  {
  }

  /** Bytes after the list are ignored. */
  lemma TrailingIgnored(rlp: seq<byte>, extra: seq<byte>)
    requires |rlp + extra| < MAX_INPUT && Decode(rlp).Some?
    ensures Decode(rlp + extra) == Decode(rlp)
  {
    hide Decode, IsTransaction;
    var items := Decode(rlp).value;
    DecodeIff(rlp, items);
    assert IsTransaction(rlp + extra, items) by { Extended(rlp, extra, items); }
    DecodeIff(rlp + extra, items);
  }

  lemma Extended(rlp: seq<byte>, extra: seq<byte>, items: seq<Item>)
    requires IsTransaction(rlp, items)
    ensures IsTransaction(rlp + extra, items)
  {
    hide Encode, EncodeAll, FieldsOk;
  }

  // ------------------------------------------------------------------ the printer

  /** v.toString(16), as digit values. */
  function HexDigits(v: nat): (h: seq<nat>)
    ensures |h| > 0 && forall i :: 0 <= i < |h| ==> h[i] < 16
  {
    if v < 16 then [v] else HexDigits(v / 16) + [v % 16]
  }

  /** toBytes: two digits a byte. */
  function Pairs(h: seq<nat>): (r: seq<byte>)
    requires |h| % 2 == 0 && forall i :: 0 <= i < |h| ==> h[i] < 16
  {
    if h == [] then [] else [16 * h[0] + h[1]] + Pairs(h[2..])
  }

  /** intToBytes: through hexadecimal text, padded to an even number of digits. */
  function IntToBytes(v: nat): seq<byte> {
    if v == 0 then [] else Pairs(Padded(HexDigits(v)))
  }

  function Padded(h: seq<nat>): (r: seq<nat>)
    requires forall i :: 0 <= i < |h| ==> h[i] < 16
    ensures |r| % 2 == 0 && forall i :: 0 <= i < |r| ==> r[i] < 16
  {
    if |h| % 2 == 1 then [0] + h else h
  }

  lemma {:induction false} PairsAppend(h: seq<nat>, x: nat, y: nat)
    requires |h| % 2 == 0 && (forall i :: 0 <= i < |h| ==> h[i] < 16) && x < 16 && y < 16
    ensures Pairs(h + [x, y]) == Pairs(h) + [16 * x + y]
  {
    if h == [] {
      assert h + [x, y] == [x, y];
    } else {
      PairsAppend(h[2..], x, y);
      assert (h + [x, y])[2..] == h[2..] + [x, y];
    }
  }

  lemma PaddedAppend(h: seq<nat>, x: nat, y: nat)
    requires (forall i :: 0 <= i < |h| ==> h[i] < 16) && x < 16 && y < 16
    ensures Padded(h + [x, y]) == Padded(h) + [x, y]
  {
    assert [0] + (h + [x, y]) == [0] + h + [x, y];
  }

  /** The detour over text gives the shortest big-endian bytes. */
  lemma {:induction false} IntToBytesMinimal(v: nat)
    ensures IntToBytes(v) == Minimal(v)
  {
    hide Pairs, HexDigits, Padded, Minimal;
    if v >= 256 {
      MinimalUnfold(v);
      IntToBytesMinimal(v / 256);
      HexTwoDigits(v);
      var h := HexDigits(v / 256);
      PaddedAppend(h, v / 16 % 16, v % 16);
      PairsAppend(Padded(h), v / 16 % 16, v % 16);
      TwoDigits(v);
    } else if v > 0 {
      OneByte(v);
    } else {
      MinimalUnfold(0);
    }
  }

  lemma TwoDigits(v: nat)
    ensures 16 * (v / 16 % 16) + v % 16 == v % 256
  {
  }

  lemma HexTwoDigits(v: nat)
    requires v >= 256
    ensures HexDigits(v) == HexDigits(v / 256) + [v / 16 % 16, v % 16]
  {
    hide HexDigits;
    assert v / 16 >= 16 && v / 16 / 16 == v / 256;
    HexUnfold(v);
    HexUnfold(v / 16);
  }

  lemma OneByte(v: nat)
    requires 0 < v < 256
    ensures Pairs(Padded(HexDigits(v))) == [v] == Minimal(v)
  {
    hide Minimal, HexDigits, Pairs;
    var x, y := v / 16, v % 16;
    assert v / 256 == 0 && v % 256 == v;
    MinimalUnfold(v);
    MinimalUnfold(0);
    HexUnfold(v);
    if v < 16 {
      OnePair(0, v);
      assert Padded([v]) == [0, v];
    } else {
      HexUnfold(x);
      OnePair(x, y);
      assert [x] + [y] == [x, y];
    }
  }

  lemma OnePair(x: nat, y: nat)
    requires x < 16 && y < 16
    ensures Pairs([x, y]) == [16 * x + y]
  {
    assert [x, y][2..] == [];
  }

  lemma HexUnfold(v: nat)
    ensures HexDigits(v) == if v < 16 then [v] else HexDigits(v / 16) + [v % 16]
  {
  }

  /** A transaction as the wallet's helpers describe it. */
  datatype Params = Params(chainId: nat, nonce: nat, tip: nat, feeCap: nat, gas: nat, to: seq<byte>, value: nat,
                           data: seq<byte>)

  /** The numbers fit their fields, and the recipient is an address or absent. */
  ghost predicate Fits(p: Params) {
    && p.chainId < Pow256(32) && p.nonce < Pow256(8) && p.tip < Pow256(32) && p.feeCap < Pow256(32)
    && p.gas < Pow256(8) && (|p.to| == 64 || |p.to| == 0) && p.value < Pow256(32)
  }

  function Number(v: nat): Item {
    Item(false, IntToBytes(v))
  }

  function Fields(p: Params): (items: seq<Item>)
    ensures |items| == FIELDS
  {
    [Number(p.chainId), Number(p.nonce), Number(p.tip), Number(p.feeCap), Number(p.gas), Item(false, p.to),
     Number(p.value), Item(false, p.data), Item(true, []), Item(false, [1, 0, 0]), Item(false, [])]
  }

  /** The lists of bytes that the printer builds do not exceed the length of an array. */
  ghost predicate Printable(p: Params) {
    && |p.data| < MAX_INPUT && Short(Fields(p)) && |EncodeAll(Fields(p))| < MAX_INPUT
    && |Encode(Item(true, EncodeAll(Fields(p))))| < MAX_INPUT - 1
  }

  /** The number of bytes of the encoded data. */
  ghost function DataSize(p: Params): nat
    requires |p.data| < MAX_INPUT
  {
    |Encode(Item(false, p.data))|
  }

  /** encodeUnsignedPreimage. */
  function EncodeUnsignedPreimage(p: Params): (r: seq<byte>)
    requires Printable(p)
    ensures |r| < MAX_INPUT
  {
    [2] + Encode(Item(true, EncodeAll(Fields(p))))
  }

  lemma NumberOk(v: nat, max: nat)
    requires v < Pow256(max)
    ensures IntegerOk(Number(v).data, max) && Big(Number(v).data) == v && Number(v).data == Minimal(v)
  {
    IntToBytesMinimal(v);
    MinimalLength(v, max);
    BigOfMinimal(v);
  }

  lemma PrintedFields(p: Params)
    requires Fits(p) && Printable(p)
    ensures FieldsOk(Fields(p), CHAIN_ID) <==> DataSize(p) < INT_LIMIT
  {
    hide IntToBytes, Pow256, Encode, EncodeAll, Minimal;
    NumberOk(p.chainId, 32);
    NumberOk(p.nonce, 8);
    NumberOk(p.tip, 32);
    NumberOk(p.feeCap, 32);
    NumberOk(p.gas, 8);
    NumberOk(p.value, 32);
    SmallFields(p);
    var items := Fields(p);
    if FieldsOk(items, CHAIN_ID) {
      assert TakeOk(CHAIN_ID + 7, items[7]);
    }
  }

  /** Only the data can be long. */
  lemma SmallFields(p: Params)
    requires Fits(p)
    ensures forall i :: 0 <= i < FIELDS && i != 7 ==> |Fields(p)[i].data| <= 64 && |Encode(Fields(p)[i])| < INT_LIMIT
  {
    hide IntToBytes, Pow256, Encode, Minimal;
    NumberOk(p.chainId, 32);
    NumberOk(p.nonce, 8);
    NumberOk(p.tip, 32);
    NumberOk(p.feeCap, 32);
    NumberOk(p.gas, 8);
    NumberOk(p.value, 32);
    var items := Fields(p);
    forall i | 0 <= i < FIELDS && i != 7
      ensures |items[i].data| <= 64 && |Encode(items[i])| < INT_LIMIT
    {
      EncodeLength(items[i]);
    }
  }

  lemma EncodeLength(it: Item)
    requires |it.data| < MAX_INPUT
    ensures |Encode(it)| <= |it.data| + 5
  {
    if |it.data| > 55 {
      LengthOfLength(|it.data|);
    }
  }

  /** The encodings of equally many items determine the items. */
  lemma {:induction false} EncodeAllUnique(a: seq<Item>, b: seq<Item>)
    requires Short(a) && Short(b) && |a| == |b| && EncodeAll(a) == EncodeAll(b)
    ensures a == b
  {
    hide Encode, ParseItem;
    if a != [] {
      ParseOfEncode(a[0], EncodeAll(a[1..]));
      ParseOfEncode(b[0], EncodeAll(b[1..]));
      var n := |Encode(a[0])|;
      assert EncodeAll(a)[n..] == EncodeAll(a[1..]) && EncodeAll(b)[n..] == EncodeAll(b[1..]);
      EncodeAllUnique(a[1..], b[1..]);
      assert a == [a[0]] + a[1..] && b == [b[0]] + b[1..];
    }
  }

  /** One text is the encoding of one list of items. */
  lemma ListUnique(a: seq<Item>, b: seq<Item>, s: seq<byte>)
    requires Short(a) && Short(b) && |a| == |b| && |EncodeAll(a)| < MAX_INPUT && |EncodeAll(b)| < MAX_INPUT
    requires Encode(Item(true, EncodeAll(a))) <= s && Encode(Item(true, EncodeAll(b))) <= s
    ensures a == b
  {
    hide Encode, EncodeAll, ParseItem, Short;
    var x, y := Item(true, EncodeAll(a)), Item(true, EncodeAll(b));
    assert s == Encode(x) + s[|Encode(x)|..] && s == Encode(y) + s[|Encode(y)|..];
    ParseOfEncode(x, s[|Encode(x)|..]);
    ParseOfEncode(y, s[|Encode(y)|..]);
    EncodeAllUnique(a, b);
  }

  /**
    The decoder undoes the printer: a transaction that fits is accepted if and only if the encoding of its
    data is shorter than 2^31 bytes; then each integer is returned as its shortest big-endian bytes, and
    the data flag says whether there is data.
   */
  lemma ParserUndoesPrinter(p: Params)
    requires Fits(p) && Printable(p)
    ensures Decode(EncodeUnsignedPreimage(p)) ==
      if DataSize(p) < INT_LIMIT then Some(Fields(p)) else None
  {
    hide Decode, Encode, EncodeAll, FieldsOk, Fields, Short;
    var items, rlp := Fields(p), EncodeUnsignedPreimage(p);
    PrintedFields(p);
    DecodeIff(rlp, items);
    if Decode(rlp).Some? {
      var others := Decode(rlp).value;
      DecodeIff(rlp, others);
      assert rlp[1..] == Encode(Item(true, EncodeAll(items)));
      assert Encode(Item(true, EncodeAll(others))) <= rlp[1..] by {
        PrefixTail([2], Encode(Item(true, EncodeAll(others))), rlp);
      }
      ListUnique(items, others, rlp[1..]);
    }
  }

  /**
    The round trip, field by field: each decoded number is the printed one, without leading zeros, and
    recipient and data are the printed bytes; no access list, descriptor 1, 0, 0, no extra parameters.
   */
  lemma PrintedFieldsDecoded(p: Params)
    requires Fits(p) && Printable(p) && DataSize(p) < INT_LIMIT
    ensures Decode(EncodeUnsignedPreimage(p)).Some?
    ensures var items := Decode(EncodeUnsignedPreimage(p)).value;
      && Big(items[0].data) == p.chainId && Big(items[1].data) == p.nonce && Big(items[2].data) == p.tip
      && Big(items[3].data) == p.feeCap && Big(items[4].data) == p.gas && Big(items[6].data) == p.value
      && (forall i :: i in {0, 1, 2, 3, 4, 6} ==> |items[i].data| > 0 ==> items[i].data[0] != 0)
      && items[5].data == p.to && items[7].data == p.data
      && items[8] == Item(true, []) && items[9].data == [1, 0, 0] && items[10].data == []
  {
    hide Decode, Big, Minimal, IntToBytes, Pow256, EncodeUnsignedPreimage, Printable;
    ParserUndoesPrinter(p);
    NumberOk(p.chainId, 32);
    NumberOk(p.nonce, 8);
    NumberOk(p.tip, 32);
    NumberOk(p.feeCap, 32);
    NumberOk(p.gas, 8);
    NumberOk(p.value, 32);
  }

  /** The encoding of section "RLP" of the Ethereum yellow paper, with literal prefixes. */
  lemma EncodeMeaning(it: Item)
    requires |it.data| < MAX_INPUT
    ensures !it.list && |it.data| == 1 && it.data[0] < 128 ==> Encode(it) == it.data
    ensures |it.data| <= 55 && (it.list || |it.data| != 1 || it.data[0] >= 128) ==>
      Encode(it) == [(if it.list then 192 else 128) + |it.data|] + it.data
    ensures |it.data| > 55 ==>
      var ln := Minimal(|it.data|);
      && 1 <= |ln| <= 4 && ln[0] != 0 && Big(ln) == |it.data|
      && Encode(it) == [(if it.list then 247 else 183) + |ln|] + ln + it.data
  {
    hide Minimal, Big;
    BigOfMinimal(|it.data|);
    if |it.data| > 55 {
      LengthOfLength(|it.data|);
    }
  }

  /** The per-field rules with literal numbers. */
  lemma FieldRules(items: seq<Item>)
    requires |items| == 11
    ensures WellFormed(items) <==>
      && (forall i :: i in {0, 2, 3, 6} ==> |items[i].data| <= 32) && |items[1].data| <= 8 && |items[4].data| <= 8
      && (forall i :: i in {0, 1, 2, 3, 4, 6} ==> |items[i].data| > 0 ==> items[i].data[0] != 0)
      && (|items[5].data| == 64 || |items[5].data| == 0) && !items[7].list && items[8].list
      && items[9].data == [1, 0, 0] && items[10].data == []
  {
    if WellFormed(items) {
      assert FieldOk(CHAIN_ID + 0, items[0]) && FieldOk(CHAIN_ID + 1, items[1]) && FieldOk(CHAIN_ID + 2, items[2]);
      assert FieldOk(CHAIN_ID + 3, items[3]) && FieldOk(CHAIN_ID + 4, items[4]) && FieldOk(CHAIN_ID + 5, items[5]);
      assert FieldOk(CHAIN_ID + 6, items[6]) && FieldOk(CHAIN_ID + 7, items[7]) && FieldOk(CHAIN_ID + 8, items[8]);
      assert FieldOk(CHAIN_ID + 9, items[9]) && FieldOk(CHAIN_ID + 10, items[10]);
    }
  }

  /** The bytes on the wire: 0x02, a list header, and the eleven encodings in this order. */
  lemma PreimageLayout(p: Params)
    requires Printable(p) && |p.to| < MAX_INPUT
    requires forall v :: v in [p.chainId, p.nonce, p.tip, p.feeCap, p.gas, p.value] ==> |Minimal(v)| < MAX_INPUT
    ensures var rest := Encode(Item(false, Minimal(p.value))) + (Encode(Item(false, p.data)) +
        ([192] + ([131, 1, 0, 0] + [128])));
      var gas := Encode(Item(false, Minimal(p.gas))) + (Encode(Item(false, p.to)) + rest);
      var fees := Encode(Item(false, Minimal(p.tip))) + (Encode(Item(false, Minimal(p.feeCap))) + gas);
      var payload := Encode(Item(false, Minimal(p.chainId))) + (Encode(Item(false, Minimal(p.nonce))) + fees);
      |payload| < MAX_INPUT && EncodeUnsignedPreimage(p) == [2] + Encode(Item(true, payload))
  {
    hide Encode, Minimal, IntToBytes, EncodeAll;
    IntToBytesMinimal(p.chainId);
    IntToBytesMinimal(p.nonce);
    IntToBytesMinimal(p.tip);
    IntToBytesMinimal(p.feeCap);
    IntToBytesMinimal(p.gas);
    IntToBytesMinimal(p.value);
    EncodeMeaning(Item(true, []));
    EncodeMeaning(Item(false, [1, 0, 0]));
    EncodeMeaning(Item(false, []));
    assert Encode(Item(true, [])) == [192] && Encode(Item(false, [])) == [128];
    assert Encode(Item(false, [1, 0, 0])) == [131, 1, 0, 0];
    ElevenItems(Fields(p));
  }

  lemma AllUnfold(items: seq<Item>, i: nat)
    requires i < |items| && Short(items)
    ensures Short(items[i..]) && Short(items[i + 1..]) && |items[i].data| < MAX_INPUT
    ensures EncodeAll(items[i..]) == Encode(items[i]) + EncodeAll(items[i + 1..])
  {
    hide Encode;
    assert items[i..][1..] == items[i + 1..];
  }

  lemma FourItems(items: seq<Item>, i: nat)
    requires i + 4 <= |items| && Short(items)
    ensures Short(items[i..]) && Short(items[i + 4..]) && forall k :: i <= k < i + 4 ==> |items[k].data| < MAX_INPUT
    ensures EncodeAll(items[i..]) == Encode(items[i]) +
      (Encode(items[i + 1]) + (Encode(items[i + 2]) + (Encode(items[i + 3]) + EncodeAll(items[i + 4..]))))
  {
    hide Encode, EncodeAll;
    AllUnfold(items, i);
    AllUnfold(items, i + 1);
    AllUnfold(items, i + 2);
    AllUnfold(items, i + 3);
  }

  lemma ElevenItems(items: seq<Item>)
    requires |items| == 11 && Short(items)
    ensures forall i :: 0 <= i < 11 ==> |items[i].data| < MAX_INPUT
    ensures var rest := Encode(items[8]) + (Encode(items[9]) + Encode(items[10]));
      var middle := Encode(items[4]) + (Encode(items[5]) + (Encode(items[6]) + (Encode(items[7]) + rest)));
      EncodeAll(items) == Encode(items[0]) + (Encode(items[1]) + (Encode(items[2]) + (Encode(items[3]) + middle)))
  {
    assert forall i :: 0 <= i < 11 ==> |items[i].data| < MAX_INPUT;
    hide Encode, EncodeAll, Short;
    assert items[0..] == items;
    FourItems(items, 0);
    FourItems(items, 4);
    ThreeItems(items);
  }

  lemma ThreeItems(items: seq<Item>)
    requires |items| == 11 && Short(items)
    ensures Short(items[8..]) && forall k :: 8 <= k < 11 ==> |items[k].data| < MAX_INPUT
    ensures EncodeAll(items[8..]) == Encode(items[8]) + (Encode(items[9]) + Encode(items[10]))
  {
    hide Encode, EncodeAll;
    AllUnfold(items, 8);
    AllUnfold(items, 9);
    AllUnfold(items, 10);
    NoFields(0);
    assert items[11..] == [];
    assert Encode(items[10]) + [] == Encode(items[10]);
  }

  /** Eleven fields of which at most field 7 is long. */
  lemma {:induction false} AllLength(items: seq<Item>, i: nat, long: nat)
    requires Short(items) && |items| + i == FIELDS && long < MAX_INPUT
    requires forall k :: 0 <= k < |items| ==> |items[k].data| <= if i + k == 7 then long else 64
    ensures |EncodeAll(items)| <= 69 * |items| + if i <= 7 then long else 0
    decreases |items|
  {
    hide Encode;
    if items != [] {
      EncodeLength(items[0]);
      AllLength(items[1..], i + 1, long);
    }
  }

  /** Every transaction with less than 2^32 - 1000 bytes of data is printable. */
  lemma PrintableWhen(p: Params)
    requires Fits(p) && |p.data| < 0x1_0000_0000 - 1000
    ensures Printable(p) && DataSize(p) <= |p.data| + 5
  {
    hide Encode, EncodeAll, IntToBytes, Pow256;
    SmallFields(p);
    AllLength(Fields(p), CHAIN_ID, |p.data|);
    EncodeLength(Item(true, EncodeAll(Fields(p))));
    EncodeLength(Item(false, p.data));
  }

  lemma PrefixTail(a: seq<byte>, b: seq<byte>, s: seq<byte>)
    requires a + b <= s
    ensures b <= s[|a|..]
  {
    assert (a + b)[|a|..] == b;
  }

  /** Different transactions that fit have different preimages. */
  lemma PreimageUnique(p: Params, q: Params)
    requires Fits(p) && Fits(q) && Printable(p) && Printable(q)
    requires EncodeUnsignedPreimage(p) == EncodeUnsignedPreimage(q)
    ensures p == q
  {
    hide Encode, EncodeAll, IntToBytes, Pow256, Short;
    var a, b := Fields(p), Fields(q);
    assert EncodeUnsignedPreimage(p)[1..] == Encode(Item(true, EncodeAll(a)));
    assert EncodeUnsignedPreimage(q)[1..] == Encode(Item(true, EncodeAll(b)));
    ListUnique(a, b, EncodeUnsignedPreimage(p)[1..]);
    NumberOk(p.chainId, 32);
    NumberOk(q.chainId, 32);
    NumberOk(p.nonce, 8);
    NumberOk(q.nonce, 8);
    NumberOk(p.tip, 32);
    NumberOk(q.tip, 32);
    NumberOk(p.feeCap, 32);
    NumberOk(q.feeCap, 32);
    NumberOk(p.gas, 8);
    NumberOk(q.gas, 8);
    NumberOk(p.value, 32);
    NumberOk(q.value, 32);
    assert a[0] == b[0] && a[1] == b[1] && a[2] == b[2] && a[3] == b[3] && a[4] == b[4] && a[5] == b[5];
    assert a[6] == b[6] && a[7] == b[7];
  }
}
