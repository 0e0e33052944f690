/** The in-place loops of tx_format.c, and the screen texts of an accepted transaction. */
module Formatting {
  import opened Words
  import opened Rlp
  import opened Decimal

  /** A character buffer holds a text and its terminating zero. */
  ghost predicate Shows(out: seq<char>, s: string) {
    |s| < |out| && out[..|s|] == s && out[|s|] == '\0'
  }

  // ------------------------------------------------------------------ long division

  ghost predicate AllZero(s: seq<byte>) {
    forall i :: 0 <= i < |s| ==> s[i] == 0
  }

  lemma {:induction false} BigZero(s: seq<byte>)
    ensures Big(s) == 0 <==> AllZero(s)
  {
    if s != [] {
      BigZero(s[..|s| - 1]);
      assert AllZero(s) <==> AllZero(s[..|s| - 1]) && s[|s| - 1] == 0;
    }
  }

  /** One step of the long division: the quotient digit fits a byte. */
  lemma DivisionStep(rem: nat, b: byte)
    requires rem < 10
    ensures var val := Or(Shl(rem, 8), b); val == rem * 256 + b && val / 10 < 256
  {
    hide Or, Pow2;
    Pow2Values();
    OrDisjoint(b, rem, 8);
  }

  lemma BigAppend(s: seq<byte>, b: byte)
    ensures Big(s + [b]) == Big(s) * 256 + b
  {
    assert (s + [b])[..|s|] == s;
  }

  /** The inner loop of uint8_array_to_decimal: the number is divided by ten in place. */
  method DivideByTen(temp: array<byte>, len: nat) returns (remainder: uint32, zero: bool)
    requires len <= temp.Length
    modifies temp
    ensures Big(temp[..len]) == Big(old(temp[..len])) / 10
    ensures remainder == Big(old(temp[..len])) % 10
    ensures zero <==> Big(temp[..len]) == 0
  {
    hide Big, Or;
    remainder, zero := 0, true;
    NothingYet();
    assert temp[..0] == [];
    for i := 0 to len
      invariant remainder < 10 && temp[i..] == old(temp[i..])
      invariant Big(old(temp[..i])) == 10 * Big(temp[..i]) + remainder
      invariant zero <==> AllZero(temp[..i])
    {
      ghost var q := temp[..i];
      var b := temp[i];
      DivisionStep(remainder, b);
      var val: uint32 := Or(Shl(remainder, 8), b);
      temp[i] := val / 10;
      remainder := val % 10;
      zero := zero && temp[i] == 0;
      assert temp[..i + 1] == q + [temp[i]];
      assert old(temp[..i + 1]) == old(temp[..i]) + [b];
      BigAppend(q, temp[i]);
      BigAppend(old(temp[..i]), b);
      AllZeroAppend(q, temp[i]);
    }
    BigZero(temp[..len]);
    DivUnique(Big(old(temp[..len])), 10, Big(temp[..len]), remainder);
  }

  lemma NothingYet()
    ensures Big([]) == 0 && AllZero([])
  {
  }

  lemma AllZeroAppend(s: seq<byte>, b: byte)
    ensures AllZero(s + [b]) <==> AllZero(s) && b == 0
  {
    if AllZero(s + [b]) {
      assert (s + [b])[|s|] == 0;
      assert forall i :: 0 <= i < |s| ==> s[i] == (s + [b])[i];
    }
  }

  method CopyChars(out: array<char>, pos: nat, s: string)
    requires pos + |s| <= out.Length
    modifies out
    ensures out[..] == old(out[..pos]) + s + old(out[pos + |s|..])
  {
    for k := 0 to |s|
      invariant forall i :: 0 <= i < k ==> out[pos + i] == s[i]
      invariant forall i :: 0 <= i < pos || pos + k <= i < out.Length ==> out[i] == old(out[i])
    {
      out[pos + k] := s[k];
    }
    assert out[..pos] == old(out[..pos]) && out[pos..pos + |s|] == s && out[pos + |s|..] == old(out[pos + |s|..]);
  }

  /** uint8_array_to_decimal: fails exactly when the input is too long or the text does not fit. */
  method ToDecimal(bytes: array<byte>, len: nat, out: array<char>, outLen: nat) returns (ok: bool)
    requires len <= bytes.Length && outLen <= out.Length
    modifies out
    ensures ok <==> outLen > 0 && len <= MAX_BYTES && |Dec(Big(bytes[..len]))| < outLen
    ensures ok ==> Shows(out[..], Dec(Big(bytes[..len])))
    ensures !ok ==> out[..] == old(out[..])
  {
    hide Big, Dec, Pow10, Pow256;
    if outLen == 0 || len > MAX_BYTES {
      return false;
    }
    var temp := new byte[MAX_BYTES](_ => 0);
    for i := 0 to len
      invariant temp[..i] == bytes[..i]
      modifies temp
    {
      temp[i] := bytes[i];
    }
    ghost var total := Big(bytes[..len]);
    DigitsFit(bytes[..len]);
    var result := new char[MAX_DIGITS + 1];
    var index := MAX_DIGITS;
    result[index] := '\0';
    var zero := false;
    ghost var n, w := total, "";
    assert Dec(n) + w == Dec(total);
    while !zero
      invariant temp.Length == MAX_BYTES && n == Big(temp[..len]) && out[..] == old(out[..])
      invariant index == MAX_DIGITS - |w| && result[index..MAX_DIGITS] == w && result[MAX_DIGITS] == '\0'
      invariant |w| < |Dec(total)| || zero
      invariant if zero then Dec(total) == w else Dec(total) == Dec(n) + w
      decreases if zero then 0 else 1, n
    {
      var remainder: uint32;
      ghost var before := result[..];
      DecUnfold(n);
      remainder, zero := DivideByTen(temp, len);
      assert result[..] == before;
      index := index - 1;
      result[index] := Digit(remainder);
      w := [Digit(remainder)] + w;
      assert result[index..MAX_DIGITS] == w;
      n := Big(temp[..len]);
    }
    var needed := MAX_DIGITS + 1 - index;
    if needed > outLen {
      return false;
    }
    CopyChars(out, 0, result[index..]);
    assert result[index..] == w + ['\0'];
    ok := true;
  }

  lemma DecUnfold(n: nat)
    ensures n < 10 ==> Dec(n) == [Digit(n)]
    ensures n >= 10 ==> Dec(n) == Dec(n / 10) + [Digit(n % 10)]
    ensures n / 10 == 0 <==> n < 10
  {
  }

  /** No number of 40 bytes has more than 97 digits. */
  lemma DigitsFit(s: seq<byte>)
    requires |s| <= MAX_BYTES
    ensures |Dec(Big(s))| <= MAX_DIGITS
    ensures |s| <= 8 ==> |Dec(Big(s))| <= 20
  {
    hide Dec, Big, Pow10, Pow256;
    BigBound(s);
    Capacity();
    Pow256Grows(|s|, MAX_BYTES);
    DecLength(Big(s), MAX_DIGITS);
    if |s| <= 8 {
      Pow256Grows(|s|, 8);
      DecLength(Big(s), 20);
    }
  }

  // ------------------------------------------------------------------ the decimal point

  /** strlen: the text up to the terminating zero. */
  method ReadText(raw: array<char>, ghost s: string) returns (t: string)
    requires Shows(raw[..], s) && IsNumeral(s)
    ensures t == s
  {
    assert forall k {:trigger raw[k]} :: 0 <= k < |s| ==> raw[k] == raw[..|s|][k];
    var n := 0;
    while raw[n] != '\0'
      invariant n <= |s|
      decreases |s| - n
    {
      n := n + 1;
    }
    t := raw[..n];
  }

  /** The trimming loop: zeros and then a point are overwritten from the end. */
  method TrimInPlace(out: array<char>, len: nat, ghost s: string)
    requires Shows(out[..], s) && len == |s|
    modifies out
    ensures Shows(out[..], Trimmed(s))
  {
    var pos := len;
    while pos > 0 && out[pos - 1] == '0'
      invariant 0 <= pos < out.Length && out[pos] == '\0'
      invariant NoZeros(out[..pos]) == NoZeros(s)
    {
      assert out[..pos][..pos - 1] == out[..pos - 1];
      ghost var r := out[..pos - 1];
      pos := pos - 1;
      out[pos] := '\0';
      assert out[..pos] == r;
    }
    assert NoZeros(s) == out[..pos];
    if pos > 0 && out[pos - 1] == '.' {
      ghost var r := out[..pos - 1];
      pos := pos - 1;
      out[pos] := '\0';
      assert out[..pos] == r;
    }
  }

  /** format_with_decimals: fails exactly when the text before trimming does not fit. */
  method FormatWithDecimals(raw: string, decimals: nat, out: array<char>, outLen: nat) returns (ok: bool)
    requires outLen <= out.Length
    modifies out
    ensures ok <==> outLen > |if decimals == 0 then raw else Pointed(raw, decimals)|
    ensures ok ==> Shows(out[..], WithDecimals(raw, decimals))
    ensures !ok ==> out[..] == old(out[..])
  {
    hide NoZeros;
    if outLen == 0 {
      return false;
    }
    var len := |raw|;
    if decimals == 0 {
      if len + 1 > outLen {
        return false;
      }
      CopyChars(out, 0, raw + ['\0']);
      return true;
    }
    var leading := if len < decimals then decimals - len else 0;
    var needed := (if len > decimals then len - decimals else 1) + 1 + leading
      + (if len > decimals then decimals else len) + 1;
    if needed > outLen {
      return false;
    }
    var pos;
    if len <= decimals {
      pos := PlaceSmall(raw, decimals, leading, out);
    } else {
      pos := PlaceLarge(raw, decimals, out);
    }
    ghost var text := out[..pos];
    out[pos] := '\0';
    assert out[..pos] == text;
    TrimInPlace(out, pos, Pointed(raw, decimals));
    ok := true;
  }

  method PlaceSmall(raw: string, decimals: nat, leading: nat, out: array<char>) returns (pos: nat)
    requires |raw| <= decimals && leading == decimals - |raw| && decimals + 2 < out.Length
    modifies out
    ensures pos == decimals + 2 && out[..pos] == Pointed(raw, decimals)
  {
    CopyChars(out, 0, "0.");
    assert out[..2] == "0.";
    pos := 2;
    CopyChars(out, pos, Repeat('0', leading));
    pos := pos + leading;
    assert out[..pos] == "0." + Repeat('0', leading);
    CopyChars(out, pos, raw);
    pos := pos + |raw|;
  }

  method PlaceLarge(raw: string, decimals: nat, out: array<char>) returns (pos: nat)
    requires |raw| > decimals && |raw| + 1 < out.Length
    modifies out
    ensures pos == |raw| + 1 && out[..pos] == Pointed(raw, decimals)
  {
    var integerLen := |raw| - decimals;
    CopyChars(out, 0, raw[..integerLen]);
    assert out[..integerLen] == raw[..integerLen];
    pos := integerLen;
    out[pos] := '.';
    pos := pos + 1;
    assert out[..pos] == raw[..integerLen] + ".";
    CopyChars(out, pos, raw[integerLen..]);
    pos := pos + decimals;
  }

  /** format_qrl_amount: the text denotes the amount in units of 10^-18. */
  method FormatQrlAmount(amount: array<byte>, len: nat, out: array<char>, outLen: nat) returns (ok: bool)
    requires len <= amount.Length && outLen <= out.Length
    modifies out
    ensures ok <==> len <= MAX_BYTES && outLen > |Pointed(Dec(Big(amount[..len])), QRL_DECIMALS)|
    ensures ok ==> Shows(out[..], WithDecimals(Dec(Big(amount[..len])), QRL_DECIMALS))
  {
    hide Dec, Big, Shows, Pointed, WithDecimals;
    var decimal := new char[MAX_DIGITS + 1];
    ok := ToDecimal(amount, len, decimal, MAX_DIGITS + 1);
    if len <= MAX_BYTES {
      DigitsFit(amount[..len]);
      DecMeaning(Big(amount[..len]));
      var raw := ReadText(decimal, Dec(Big(amount[..len])));
      ok := FormatWithDecimals(raw, QRL_DECIMALS, out, outLen);
    }
  }

  /** Every amount of at most 40 bytes fits the display buffer of 100 characters. */
  lemma AmountFits(s: seq<byte>)
    requires |s| <= MAX_BYTES
    ensures |Pointed(Dec(Big(s)), QRL_DECIMALS)| < MAX_AMOUNT
    ensures Denotes(WithDecimals(Dec(Big(s)), QRL_DECIMALS), Big(s), QRL_DECIMALS)
  {
    hide Dec, Big, Denotes, WithDecimals;
    DigitsFit(s);
    FormatDenotes(Big(s), QRL_DECIMALS);
  }
}
