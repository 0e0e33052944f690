/** The numbers on the review screen: which field is formatted how (ui_display_transaction_bs_choice). */
module Screen {
  import opened Words
  import opened Rlp
  import opened RlpDecoder
  import opened Decimal
  import opened Formatting
  import opened Multiply

  /** The texts of the screen that show numbers; the nonce is shown on demand. */
  datatype Texts = Texts(amount: string, chainId: string, gasLimit: string, tip: string, maxFees: string, nonce: string)

  /** Digits and points only. */
  predicate Clean(s: string) {
    forall i :: 0 <= i < |s| ==> '0' <= s[i] <= '9' || s[i] == '.'
  }

  lemma CleanNumber(n: nat)
    ensures Clean(Dec(n)) && Clean(AmountText(n))
  {
    hide Dec, NumberOf, Trimmed;
    DecMeaning(n);
    assert Clean(Pointed(Dec(n), QRL_DECIMALS));
    TrimmedPrefix(Pointed(Dec(n), QRL_DECIMALS));
  }

  lemma TrimmedPrefix(s: string)
    ensures Trimmed(s) <= s
  {
  }

  /** The text up to the terminating zero, as %s prints it. */
  method ReadLine(raw: array<char>, ghost s: string) returns (t: string)
    requires Shows(raw[..], s) && Clean(s)
    ensures t == s
  {
    assert forall k {:trigger raw[k]} :: 0 <= k < |s| ==> raw[k] == raw[..|s|][k];
    var n := 0;
    while raw[n] != '\0'
      invariant n <= |s|
      decreases |s| - n
    {
      n := n + 1;
    }
    t := raw[..n];
  }

  /** format_qrl_amount and snprintf with "QRL %s". */
  method AmountLine(field: array<byte>, len: nat, ghost it: Item) returns (ok: bool, t: string)
    requires len <= field.Length <= 32 && field[..len] == it.data
    ensures ok && t == "QRL " + AmountText(Big(it.data))
  {
    hide Big, Shows, Denotes, AmountText, Clean;
    var amount := new char[MAX_AMOUNT];
    ok := AmountField(field, len, amount, it);
    CleanNumber(Big(it.data));
    t := ReadLine(amount, AmountText(Big(it.data)));
    t := "QRL " + t;
  }

  /** uint8_array_to_decimal into a buffer of the right size. */
  method NumberLine(field: array<byte>, len: nat, ghost it: Item) returns (ok: bool, t: string)
    requires len <= field.Length && field[..len] == it.data && (field.Length == 32 || field.Length == 8)
    ensures ok && t == Dec(Big(it.data))
  {
    hide Big, Shows, Dec, Clean;
    var out := new char[if field.Length == 32 then MAX_DIGITS + 1 else 21];
    ok := NumberField(field, len, out, it);
    CleanNumber(Big(it.data));
    t := ReadLine(out, Dec(Big(it.data)));
  }

  method FeesLine(tx: ZondTx, ghost items: seq<Item>) returns (ok: bool, t: string)
    requires tx.Valid() && |items| == FIELDS && tx.Holds(items) && WellFormed(items)
    ensures ok && t == "QRL " + AmountText(FieldNumber(items, 3) * FieldNumber(items, 4))
  {
    hide Shows, Denotes, AmountText, WellFormed, FieldNumber, Clean;
    var maxFees := new char[MAX_AMOUNT];
    ok := MaxFees(tx, maxFees, items);
    CleanNumber(FieldNumber(items, 3) * FieldNumber(items, 4));
    t := ReadLine(maxFees, AmountText(FieldNumber(items, 3) * FieldNumber(items, 4)));
    t := "QRL " + t;
  }

  /** The screen of an accepted transaction: no formatter fails, and each text belongs to its field. */
  method ShowNumbers(tx: ZondTx, displayNonce: bool, ghost items: seq<Item>) returns (ok: bool, s: Texts)
    requires tx.Valid() && |items| == FIELDS && tx.Holds(items) && WellFormed(items)
    ensures ok
    ensures s == Texts("QRL " + AmountText(Big(items[6].data)), Dec(Big(items[0].data)), Dec(Big(items[4].data)),
                       "QRL " + AmountText(Big(items[2].data)),
                       "QRL " + AmountText(FieldNumber(items, 3) * FieldNumber(items, 4)),
                       if displayNonce then Dec(Big(items[1].data)) else "")
  {
    hide Big, Dec, AmountText, WellFormed, FieldNumber;
    var amount, maxFees, chainId, gasLimit, tip, nonce;
    s := Texts("", "", "", "", "", "");
    ok, amount := AmountLine(tx.value, tx.valueLen, items[6]);
    ok, maxFees := FeesLine(tx, items);
    ok, chainId := NumberLine(tx.chainId, tx.chainIdLen, items[0]);
    ok, gasLimit := NumberLine(tx.gas, tx.gasLen, items[4]);
    ok, tip := AmountLine(tx.gasTipCap, tx.gasTipCapLen, items[2]);
    nonce := "";
    if displayNonce {
      ok, nonce := NumberLine(tx.nonce, tx.nonceLen, items[1]);
    }
    s := Texts(amount, chainId, gasLimit, tip, maxFees, nonce);
  }

  /** The text is "QRL " and the shortest decimal notation of n / 10^18. */
  ghost predicate Reads(t: string, n: nat) {
    exists a: string :: t == "QRL " + a && Denotes(a, n, 18)
  }

  /**
    From the printed transaction to the screen.  Every number of the transaction is shown as it was
    printed, and the fees are the fee cap times the gas limit.
   */
  method ShowPrinted(rlp: array<byte>, displayNonce: bool, ghost p: Params, ghost fees: nat)
    returns (ok: bool, s: Texts)
    requires fees == p.feeCap * p.gas && Fits(p)
    requires Printable(p) && DataSize(p) < INT_LIMIT && rlp[..] == EncodeUnsignedPreimage(p)
    ensures ok && Reads(s.amount, p.value) && Reads(s.tip, p.tip) && Reads(s.maxFees, fees)
    ensures s.chainId == Dec(p.chainId) && s.gasLimit == Dec(p.gas)
    ensures s.nonce == if displayNonce then Dec(p.nonce) else ""
  {
    hide Decode, Big, EncodeUnsignedPreimage, Printable, Fits, WellFormed, AmountText, ZondTx.Holds, Dec, Reads;
    PrintedFieldsDecoded(p);
    ghost var items := Decode(rlp[..]).value;
    AcceptedWellFormed(rlp[..]);
    assert rlp[..rlp.Length] == rlp[..];
    var tx := new ZondTx();
    var r := tx.DecodeLedgerTx(rlp, rlp.Length);
    ok, s := ShowNumbers(tx, displayNonce, items);
    AmountReads(p.value);
    AmountReads(p.tip);
    AmountReads(fees);
  }

  lemma AmountReads(n: nat)
    ensures Reads("QRL " + AmountText(n), n)
  {
    hide Denotes, WithDecimals, Dec;
    FormatDenotes(n, QRL_DECIMALS);
  }
}
