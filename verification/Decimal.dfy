/** Decimal text for the screen: what the formatters of tx_format.c mean. */
module Decimal {
  import opened Words
  import opened Rlp

  const MAX_BYTES: nat := 40
  const MAX_DIGITS: nat := 97
  const MAX_AMOUNT: nat := 100
  const QRL_DECIMALS: nat := 18

  function Digit(d: nat): (c: char)
    requires d < 10
    ensures '0' <= c <= '9' && (c == '0' <==> d == 0)
  {
    '0' + d as char
  }

  /** The decimal digits of a number, without redundant zeros. */
  function Dec(n: nat): (s: string)
    ensures |s| > 0
  {
    if n < 10 then [Digit(n)] else Dec(n / 10) + [Digit(n % 10)]
  }

  predicate IsNumeral(s: string) {
    forall i :: 0 <= i < |s| ==> '0' <= s[i] <= '9'
  }

  /** The number that a numeral writes; none writes 0. */
  function NumberOf(s: string): nat
    requires IsNumeral(s)
  {
    if s == [] then 0 else NumberOf(s[..|s| - 1]) * 10 + (s[|s| - 1] - '0') as nat
  }

  function Pow10(k: nat): (p: nat)
    ensures p > 0
  {
    if k == 0 then 1 else 10 * Pow10(k - 1)
  }

  lemma {:induction false} DecMeaning(n: nat)
    ensures IsNumeral(Dec(n)) && NumberOf(Dec(n)) == n
    ensures Dec(n)[0] == '0' ==> n == 0
  {
    if n >= 10 {
      DecMeaning(n / 10);
      assert Dec(n)[..|Dec(n)| - 1] == Dec(n / 10);
    }
  }

  lemma {:induction false} DecLength(n: nat, k: nat)
    requires k > 0
    ensures |Dec(n)| <= k <==> n < Pow10(k)
    decreases k
  {
    if n >= 10 && k > 1 {
      DecLength(n / 10, k - 1);
    } else if k > 1 {
      assert Pow10(k - 1) >= 1;
    }
  }

  lemma {:induction false} NumberConcat(s: string, t: string)
    requires IsNumeral(s) && IsNumeral(t)
    ensures IsNumeral(s + t) && NumberOf(s + t) == NumberOf(s) * Pow10(|t|) + NumberOf(t)
    decreases |t|
  {
    hide Pow10;
    if t == [] {
      assert s + t == s;
      PowZero();
    } else {
      var u := t[..|t| - 1];
      NumberConcat(s, u);
      assert (s + t)[..|s + t| - 1] == s + u;
      TimesTen(NumberOf(s), |t|);
    }
  }

  /** The largest products and the longest integers fit their buffers. */
  lemma Capacity()
    ensures Pow256(MAX_BYTES) < Pow10(MAX_DIGITS) && Pow256(8) < Pow10(20)
  {
    hide Pow256, Pow10;
    LargePow256();
    Pow10Values();
  }

  lemma LargePow256()
    ensures Pow256(8) == 18446744073709551616 && Pow256(40) < 10000000000000000000000000000000000000000000000000000000000000000000000000000000000000000000000000
  {
    Pow256Values();
    hide Pow256;
    Pow256Product(8, 8, 18446744073709551616, 18446744073709551616);
    Pow256Product(16, 16, 340282366920938463463374607431768211456, 340282366920938463463374607431768211456);
    Pow256Product(32, 8, 115792089237316195423570985008687907853269984665640564039457584007913129639936, 18446744073709551616);
  }

  lemma Pow256Product(a: nat, b: nat, p: nat, q: nat)
    requires Pow256(a) == p && Pow256(b) == q
    ensures Pow256(a + b) == p * q
  {
    Pow256Sum(a, b);
  }

  lemma Pow10Product(a: nat, b: nat, p: nat, q: nat)
    requires Pow10(a) == p && Pow10(b) == q
    ensures Pow10(a + b) == p * q
  {
    Pow10Sum(a, b);
  }

  lemma Pow10Values()
    ensures Pow10(20) == 100000000000000000000 && Pow10(97) == 10000000000000000000000000000000000000000000000000000000000000000000000000000000000000000000000000
  {
    assert Pow10(5) == 100000 && Pow10(7) == 10000000;
    hide Pow10;
    Pow10Product(5, 5, 100000, 100000);
    Pow10Product(10, 7, 10000000000, 10000000);
    Pow10Product(10, 10, 10000000000, 10000000000);
    Pow10Product(20, 20, 100000000000000000000, 100000000000000000000);
    Pow10Product(40, 40, 10000000000000000000000000000000000000000, 10000000000000000000000000000000000000000);
    Pow10Product(80, 17, 100000000000000000000000000000000000000000000000000000000000000000000000000000000, 100000000000000000);
  }

  lemma Pow256Step(k: nat)
    ensures Pow256(0) == 1 && Pow256(k + 1) == 256 * Pow256(k)
  {
  }

  lemma Pow10Step(k: nat)
    ensures Pow10(0) == 1 && Pow10(k + 1) == 10 * Pow10(k)
  {
  }

  lemma {:induction false} Pow256Sum(a: nat, b: nat)
    ensures Pow256(a + b) == Pow256(a) * Pow256(b)
  {
    hide Pow256;
    Pow256Step(0);
    if a > 0 {
      Pow256Sum(a - 1, b);
      Pow256Step(a - 1);
      Pow256Step(a - 1 + b);
      MulAssoc(256, Pow256(a - 1), Pow256(b));
    }
  }

  lemma {:induction false} Pow10Sum(a: nat, b: nat)
    ensures Pow10(a + b) == Pow10(a) * Pow10(b)
  {
    hide Pow10;
    Pow10Step(0);
    if a > 0 {
      Pow10Sum(a - 1, b);
      Pow10Step(a - 1);
      Pow10Step(a - 1 + b);
      MulAssoc(10, Pow10(a - 1), Pow10(b));
    }
  }

  // ------------------------------------------------------------------ the decimal point

  function Repeat(c: char, n: nat): (s: string)
    ensures |s| == n && forall i :: 0 <= i < n ==> s[i] == c
  {
    seq(n, _ => c)
  }

  /** A numeral with a point before its last d digits, with leading zeros where there are fewer. */
  function Pointed(raw: string, d: nat): string {
    if |raw| <= d then "0." + Repeat('0', d - |raw|) + raw
    else raw[..|raw| - d] + "." + raw[|raw| - d..]
  }

  /** Without trailing zeros. */
  function NoZeros(s: string): (r: string)
    ensures r <= s
    decreases |s|
  {
    if s != [] && s[|s| - 1] == '0' then NoZeros(s[..|s| - 1]) else s
  }

  /** Without trailing zeros, and without the point when it comes last. */
  function Trimmed(s: string): string {
    var r := NoZeros(s);
    if r != [] && r[|r| - 1] == '.' then r[..|r| - 1] else r
  }

  /** format_with_decimals. */
  function WithDecimals(raw: string, d: nat): string {
    if d == 0 then raw else Trimmed(Pointed(raw, d))
  }

  /** s is the shortest decimal notation of n / 10^d. */
  ghost predicate Denotes(s: string, n: nat, d: nat) {
    exists whole: nat, f: string ::
      && IsNumeral(f) && |f| <= d && (f != [] ==> f[|f| - 1] != '0')
      && n == Amount(whole, f, d)
      && s == if f == [] then Dec(whole) else Dec(whole) + "." + f
  }

  /** 10^d times the number with this whole part and these decimals. */
  ghost function Amount(whole: nat, f: string, d: nat): nat
    requires IsNumeral(f) && |f| <= d
  {
    whole * Pow10(d) + NumberOf(f) * Pow10(d - |f|)
  }

  lemma DenotesBy(s: string, n: nat, d: nat, whole: nat, f: string)
    requires IsNumeral(f) && |f| <= d && (f != [] ==> f[|f| - 1] != '0')
    requires n == whole * Pow10(d) + NumberOf(f) * Pow10(d - |f|)
    requires s == if f == [] then Dec(whole) else Dec(whole) + "." + f
    ensures Denotes(s, n, d)
  {
    hide Dec, NumberOf, Pow10, IsNumeral;
  }

  lemma TimesTen(m: nat, d: nat)
    requires d > 0
    ensures (m * Pow10(d - 1)) * 10 == m * Pow10(d)
  {
  }

  lemma Shift(m: nat, d: nat)
    requires d > 0
    ensures (m * 10) * Pow10(d - 1) == m * Pow10(d)
  {
  }

  /** Trimming a numeral removes factors of ten. */
  lemma {:induction false} TrimNumeral(f: string, d: nat)
    requires IsNumeral(f) && |f| <= d
    ensures IsNumeral(NoZeros(f)) && |NoZeros(f)| <= |f|
    ensures NoZeros(f) != [] ==> NoZeros(f)[|NoZeros(f)| - 1] != '0'
    ensures NumberOf(NoZeros(f)) * Pow10(d - |NoZeros(f)|) == NumberOf(f) * Pow10(d - |f|)
    decreases |f|
  {
    hide Pow10;
    if f != [] && f[|f| - 1] == '0' {
      var g := f[..|f| - 1];
      TrimNumeral(g, d);
      Shift(NumberOf(g), d - |g|);
    }
  }

  lemma {:induction false} TrimAfterPoint(a: string, f: string)
    requires IsNumeral(f)
    ensures NoZeros(a + "." + f) == a + "." + NoZeros(f)
    decreases |f|
  {
    var s := a + "." + f;
    if f != [] {
      assert s[..|s| - 1] == a + "." + f[..|f| - 1];
      if f[|f| - 1] == '0' {
        TrimAfterPoint(a, f[..|f| - 1]);
      }
    } else {
      assert s[|s| - 1] == '.';
    }
  }

  lemma TrimmedForm(a: string, f: string)
    requires IsNumeral(f)
    ensures Trimmed(a + "." + f) == if NoZeros(f) == [] then a else a + "." + NoZeros(f)
  {
    TrimAfterPoint(a, f);
    NumeralTail(f);
    var r := a + "." + NoZeros(f);
    if NoZeros(f) == [] {
      assert r[..|r| - 1] == a;
    } else {
      assert r[|r| - 1] == NoZeros(f)[|NoZeros(f)| - 1];
    }
  }

  lemma NumeralTail(f: string)
    requires IsNumeral(f)
    ensures IsNumeral(NoZeros(f))
  {
  }

  /** What stands before and after the point when the last d digits follow it. */
  function Whole(n: nat, d: nat): nat {
    hide Pow10;
    n / Pow10(d)
  }

  function Rest(n: nat, d: nat): nat {
    hide Pow10;
    n % Pow10(d)
  }

  lemma WholeAndRest(n: nat, d: nat)
    ensures n == Whole(n, d) * Pow10(d) + Rest(n, d)
  {
    hide Pow10;
    DivMod(n, Pow10(d));
  }

  lemma SplitStep(n: nat, d: nat)
    ensures Whole(n, 0) == n && Rest(n, 0) == 0
    ensures d > 0 ==> Whole(n, d) == Whole(n / 10, d - 1) && Rest(n, d) == Rest(n / 10, d - 1) * 10 + n % 10
  {
    if d > 0 {
      DivTen(n, Pow10(d - 1));
    }
  }

  lemma DivTen(n: nat, p: nat)
    requires p > 0
    ensures n / 10 / p == n / (10 * p)
    ensures n / 10 % p * 10 + n % 10 == n % (10 * p)
  {
    var m := n / 10;
    var q, r := m / p, m % p;
    DivMod(m, p);
    assert n == (10 * p) * q + (10 * r + n % 10) by {
      assert 10 * (p * q) == (10 * p) * q;
    }
    DivUnique(n, 10 * p, q, 10 * r + n % 10);
  }

  /** A number splits at the decimal point. */
  lemma {:induction false} SplitNumber(n: nat, d: nat)
    requires |Dec(n)| > d
    ensures Dec(n)[..|Dec(n)| - d] == Dec(Whole(n, d))
    ensures IsNumeral(Dec(n)[|Dec(n)| - d..]) && NumberOf(Dec(n)[|Dec(n)| - d..]) == Rest(n, d)
    decreases d
  {
    hide Whole, Rest;
    SplitStep(n, d);
    if d == 0 {
      NoDigits();
      assert Dec(n)[..|Dec(n)|] == Dec(n) && Dec(n)[|Dec(n)|..] == [];
    } else {
      assert n >= 10;
      SplitNumber(n / 10, d - 1);
      TakeDigit(Dec(n / 10), n % 10, d);
    }
  }

  lemma TakeDigit(s: string, x: nat, d: nat)
    requires x < 10 && |s| >= d > 0 && IsNumeral(s[|s| + 1 - d..])
    ensures var t := s + [Digit(x)];
      && t[..|t| - d] == s[..|s| - (d - 1)]
      && IsNumeral(t[|t| - d..]) && NumberOf(t[|t| - d..]) == NumberOf(s[|s| + 1 - d..]) * 10 + x
  {
    var t := s + [Digit(x)];
    var r := t[|t| - d..];
    assert r[..|r| - 1] == s[|s| + 1 - d..];
    assert r[|r| - 1] == Digit(x);
  }

  /** The formatted text of a number is the shortest decimal notation of n / 10^d. */
  lemma FormatDenotes(n: nat, d: nat)
    ensures Denotes(WithDecimals(Dec(n), d), n, d)
  {
    hide Dec, Denotes, WithDecimals;
    if d == 0 {
      FormatWhole(n);
    } else if |Dec(n)| <= d {
      FormatSmall(n, d);
    } else {
      FormatLarge(n, d);
    }
  }

  lemma FormatWhole(n: nat)
    ensures Denotes(WithDecimals(Dec(n), 0), n, 0)
  {
    hide Dec, NumberOf, Denotes;
    NoDigits();
    PowZero();
    DenotesBy(Dec(n), n, 0, n, "");
  }

  lemma FormatSmall(n: nat, d: nat)
    requires 0 < |Dec(n)| <= d
    ensures Denotes(WithDecimals(Dec(n), d), n, d)
  {
    hide Dec, NumberOf, Denotes, NoZeros, Trimmed, Repeat, Pow10, IsNumeral, Pointed;
    var raw := Dec(n);
    DecMeaning(n);
    var f := Repeat('0', d - |raw|) + raw;
    LeadingZeros(raw, d - |raw|);
    PointedSmall(raw, d);
    TrimmedForm("0", f);
    TrimNumeral(f, d);
    DecZero();
    PowZero();
    NoZeroTimes(d);
    DenotesBy(WithDecimals(raw, d), n, d, 0, NoZeros(f));
  }

  lemma PointedSmall(raw: string, d: nat)
    requires |raw| <= d
    ensures Pointed(raw, d) == "0" + "." + (Repeat('0', d - |raw|) + raw)
  {
  }

  lemma NoZeroTimes(d: nat)
    ensures 0 * Pow10(d) == 0
  {
  }

  lemma FormatLarge(n: nat, d: nat)
    requires |Dec(n)| > d > 0
    ensures Denotes(WithDecimals(Dec(n), d), n, d)
  {
    hide Dec, NumberOf, Denotes, NoZeros, Whole, Rest, Pow10, IsNumeral, Trimmed, Pointed;
    var raw := Dec(n);
    var a, f := raw[..|raw| - d], raw[|raw| - d..];
    var g, w := NoZeros(f), Whole(n, d);
    SplitNumber(n, d);
    assert IsNumeral(g) && |g| <= d && (g != [] ==> g[|g| - 1] != '0')
      && n == w * Pow10(d) + NumberOf(g) * Pow10(d - |g|) by {
      TrimNumeral(f, d);
      WholeAndRest(n, d);
      PowZero();
    }
    assert WithDecimals(raw, d) == if g == [] then a else a + "." + g by {
      PointedLarge(raw, d);
      TrimmedForm(a, f);
    }
    DenotesBy(WithDecimals(raw, d), n, d, w, g);
  }

  lemma PointedLarge(raw: string, d: nat)
    requires |raw| > d
    ensures Pointed(raw, d) == raw[..|raw| - d] + "." + raw[|raw| - d..]
  {
  }

  /** The text determines the number: two amounts are never displayed alike. */
  lemma DenotesUnique(s: string, n: nat, m: nat, d: nat)
    requires Denotes(s, n, d) && Denotes(s, m, d)
    ensures n == m
  {
    hide Dec, NumberOf, IsNumeral, Amount;
    var w: nat, f: string :| IsNumeral(f) && |f| <= d && (f != [] ==> f[|f| - 1] != '0')
      && n == Amount(w, f, d)
      && s == if f == [] then Dec(w) else Dec(w) + "." + f;
    var v: nat, g: string :| IsNumeral(g) && |g| <= d && (g != [] ==> g[|g| - 1] != '0')
      && m == Amount(v, g, d)
      && s == if g == [] then Dec(v) else Dec(v) + "." + g;
    DecMeaning(w);
    DecMeaning(v);
    SamePoint(Dec(w), f, Dec(v), g, s);
  }

  lemma SamePoint(a: string, f: string, b: string, g: string, s: string)
    requires IsNumeral(a) && IsNumeral(b)
    requires s == if f == [] then a else a + "." + f
    requires s == if g == [] then b else b + "." + g
    ensures a == b && f == g
  {
    hide IsNumeral;
    NoPoint(a, s, f);
    NoPoint(b, s, g);
    assert |a| == |b|;
  }

  /** The part before the point ends at the only point, or at the end. */
  lemma NoPoint(a: string, s: string, f: string)
    requires IsNumeral(a) && s == if f == [] then a else a + "." + f
    ensures forall i :: 0 <= i < |a| ==> s[i] != '.'
    ensures |a| < |s| ==> s[|a|] == '.'
    ensures s[..|a|] == a && (if f == [] then |s| == |a| else |a| < |s| && s[|a| + 1..] == f)
  {
  }

  lemma PowZero()
    ensures Pow10(0) == 1
  {
  }

  lemma NoDigits()
    ensures IsNumeral("") && NumberOf("") == 0
  {
  }

  lemma DecZero()
    ensures Dec(0) == "0"
  {
  }

  lemma {:induction false} LeadingZeros(raw: string, n: nat)
    requires IsNumeral(raw)
    ensures IsNumeral(Repeat('0', n) + raw) && NumberOf(Repeat('0', n) + raw) == NumberOf(raw)
  {
    ZerosAreZero(n);
    NumberConcat(Repeat('0', n), raw);
  }

  lemma {:induction false} ZerosAreZero(n: nat)
    ensures IsNumeral(Repeat('0', n)) && NumberOf(Repeat('0', n)) == 0
  {
    if n > 0 {
      ZerosAreZero(n - 1);
      assert Repeat('0', n)[..n - 1] == Repeat('0', n - 1);
    }
  }

  /** Some texts, letter by letter. */
  lemma KnownTexts()
    ensures Dec(0) == "0" && Dec(7) == "7" && Dec(42) == "42" && Dec(9810) == "9810" && Dec(3651) == "3651"
    ensures WithDecimals("105", 2) == "1.05" && WithDecimals("150", 2) == "1.5" && WithDecimals("300", 2) == "3"
    ensures WithDecimals("7", 3) == "0.007" && WithDecimals("0", 2) == "0" && WithDecimals("20", 0) == "20"
    ensures QRL_DECIMALS == 18
  {
    hide Dec, Pointed, Trimmed;
    KnownNumerals();
    PointedTexts();
    TrimmedTexts();
  }

  lemma KnownNumerals()
    ensures Dec(0) == "0" && Dec(7) == "7" && Dec(42) == "42" && Dec(9810) == "9810" && Dec(3651) == "3651"
  {
    assert Dec(4) == "4" && Dec(9) == "9" && Dec(98) == "98" && Dec(981) == "981";
    assert Dec(3) == "3" && Dec(36) == "36" && Dec(365) == "365";
  }

  lemma PointedTexts()
    ensures Pointed("105", 2) == "1.05" && Pointed("150", 2) == "1.50" && Pointed("300", 2) == "3.00"
    ensures Pointed("7", 3) == "0.007" && Pointed("0", 2) == "0.00"
  {
  }

  lemma TrimmedTexts()
    ensures Trimmed("1.05") == "1.05" && Trimmed("1.50") == "1.5" && Trimmed("3.00") == "3"
    ensures Trimmed("0.007") == "0.007" && Trimmed("0.00") == "0"
  {
    assert NoZeros("1.05") == "1.05" && NoZeros("0.007") == "0.007";
    assert "1.50"[..3] == "1.5" && NoZeros("1.5") == "1.5" && NoZeros("1.50") == "1.5";
    assert "3.00"[..3] == "3.0" && "3.0"[..2] == "3." && NoZeros("3.") == "3." && NoZeros("3.0") == "3.";
    assert NoZeros("3.00") == "3." && "3."[..1] == "3";
    assert "0.00"[..3] == "0.0" && "0.0"[..2] == "0." && NoZeros("0.") == "0." && NoZeros("0.0") == "0.";
    assert NoZeros("0.00") == "0." && "0."[..1] == "0";
  }
}
