/**
  The bit packings of poly.c and of the signature and public key in sign.c.  A group of coefficients
  and a group of bytes are two ways to write one number: in base 2^w and in base 256.  Packing and
  unpacking both keep that number, and digits are unique, so each undoes the other.
 */
module Packing {
  import opened Words

  /** The four layouts: signed short vectors, t1, t0 and z. */
  datatype Layout = EtaLayout | T1Layout | T0Layout | ZLayout {
    /** Coefficients in a group. */
    function Coeffs(): nat {
      match this case EtaLayout => 8 case T1Layout => 4 case T0Layout => 8 case ZLayout => 2
    }

    /** Bytes in a group. */
    function Bytes(): nat {
      match this case EtaLayout => 3 case T1Layout => 5 case T0Layout => 13 case ZLayout => 5
    }

    /** 2 to the number of bits of a coefficient. */
    function Base(): nat {
      match this case EtaLayout => 8 case T1Layout => 1024 case T0Layout => 8192 case ZLayout => 0x10_0000
    }

    /** The digit that is packed for a coefficient: the coefficient itself, or its distance from a bound. */
    function Digit(c: int): nat {
      match this
      case EtaLayout => (2 - c) % 256
      case T1Layout => U32(c)
      case T0Layout => U32(0x1000 - c)
      case ZLayout => U32(0x8_0000 - c)
    }

    /** The coefficient that is unpacked from a digit. */
    function Coefficient(d: nat): int {
      match this
      case EtaLayout => 2 - d
      case T1Layout => d
      case T0Layout => 0x1000 - d
      case ZLayout => 0x8_0000 - d
    }

    /** The coefficients that the layout has room for. */
    predicate Legal(c: int) {
      match this
      case EtaLayout => -6 < c <= 2
      case T1Layout => 0 <= c < 1024
      case T0Layout => -0x1000 < c <= 0x1000
      case ZLayout => -0x8_0000 < c <= 0x8_0000
    }
  }

  /** The number written by digits xs in base b, least significant digit first. */
  function Value(xs: seq<int>, b: int): int {
    if xs == [] then 0 else xs[0] + b * Value(xs[1..], b)
  }

  ghost predicate Digits(xs: seq<int>, b: int) {
    forall i :: 0 <= i < |xs| ==> 0 <= xs[i] < b
  }

  /** Digits are determined by the number they write. */
  lemma {:induction false} DigitsUnique(xs: seq<int>, ys: seq<int>, b: int)
    requires b > 0 && |xs| == |ys| && Digits(xs, b) && Digits(ys, b) && Value(xs, b) == Value(ys, b)
    ensures xs == ys
  {
    if xs != [] {
      var v, w := Value(xs[1..], b), Value(ys[1..], b);
      DivUnique(xs[0] + b * v, b, v, xs[0]);
      DivUnique(ys[0] + b * w, b, w, ys[0]);
      DigitsUnique(xs[1..], ys[1..], b);
      assert xs == [xs[0]] + xs[1..] && ys == [ys[0]] + ys[1..];
    }
  }

  // ------------------------------------------------------------------ bits

  lemma {:induction false} ValueNat(xs: seq<int>, b: int)
    requires b > 0 && Digits(xs, b)
    ensures Value(xs, b) >= 0
  {
    if xs != [] {
      ValueNat(xs[1..], b);
    }
  }

  /** Bit p of the number that digits of w bits write is bit p % w of digit p / w. */
  lemma {:induction false} ValueBit(xs: seq<int>, w: nat, p: nat)
    requires w > 0 && Digits(xs, Pow2(w)) && p < w * |xs|
    ensures 0 <= p / w < |xs| && 0 <= p % w
    ensures Value(xs, Pow2(w)) / Pow2(p) % 2 == xs[p / w] / Pow2(p % w) % 2
  {
    hide Pow2, Value;
    var x, v := xs[0], Value(xs[1..], Pow2(w));
    ValueNat(xs[1..], Pow2(w));
    ValueStep(xs, Pow2(w));
    if p < w {
      DivUnique(p, w, 0, p);
      LowBit(x, v, w, p);
    } else {
      var q := p - w;
      assert w * |xs| == w * |xs[1..]| + w;
      ValueBit(xs[1..], w, q);
      HighBit(x, v, w, p);
      DivMod(q, w);
      assert w * (q / w + 1) == w * (q / w) + w;
      DivUnique(p, w, q / w + 1, q % w);
    }
  }

  lemma ValueStep(xs: seq<int>, b: int)
    requires xs != []
    ensures Value(xs, b) == xs[0] + b * Value(xs[1..], b)
  {
  }

  // ------------------------------------------------------------------ the C formulas for one group

  /** x >> r, masked or truncated: a is 2^r, and m is the mask plus one. */
  function Part(x: nat, a: nat, m: nat): (r: nat)
    requires a > 0 && m > 0
    ensures r < m
  {
    x / a % m
  }

  /** (uint8_t) (a | b << k); truncation distributes over the or. */
  function Join(a: nat, b: nat, k: nat): (r: byte)
  {
    hide Pow2;
    Pow2Values();
    OrLess(a % 256, Shl(b, k) % 256, 8);
    Or(a % 256, Shl(b, k) % 256)
  }

  /** a | b << k */
  function Wide(a: nat, b: nat, k: nat): nat {
    Or(a, Shl(b, k))
  }

  function PackEta(t: seq<nat>): (r: seq<byte>)
    requires |t| == 8
    ensures |r| == 3
  {
    hide Or, Shl, Part, Join, Wide;
    [Join(Join(Part(t[0], 1, 256), t[1], 3), t[2], 6),
     Join(Join(Join(Part(t[2], 4, 256), t[3], 1), t[4], 4), t[5], 7),
     Join(Join(Part(t[5], 2, 256), t[6], 2), t[7], 5)]
  }

  function PackT1(t: seq<nat>): (r: seq<byte>)
    requires |t| == 4
    ensures |r| == 5
  {
    hide Or, Shl, Part, Join, Wide;
    [Part(t[0], 1, 256),
     Join(Part(t[0], 256, 256), t[1], 2),
     Join(Part(t[1], 64, 256), t[2], 4),
     Join(Part(t[2], 16, 256), t[3], 6),
     Part(t[3], 4, 256)]
  }

  function PackT0(t: seq<nat>): (r: seq<byte>)
    requires |t| == 8
    ensures |r| == 13
  {
    hide Or, Shl, Part, Join, Wide;
    [Part(t[0], 1, 256),
     Join(Part(t[0], 256, 256), t[1], 5),
     Part(t[1], 8, 256),
     Join(Part(t[1], 2048, 256), t[2], 2),
     Join(Part(t[2], 64, 256), t[3], 7),
     Part(t[3], 2, 256),
     Join(Part(t[3], 512, 256), t[4], 4),
     Part(t[4], 16, 256),
     Join(Part(t[4], 4096, 256), t[5], 1),
     Join(Part(t[5], 128, 256), t[6], 6),
     Part(t[6], 4, 256),
     Join(Part(t[6], 1024, 256), t[7], 3),
     Part(t[7], 32, 256)]
  }

  function PackZ(t: seq<nat>): (r: seq<byte>)
    requires |t| == 2
    ensures |r| == 5
  {
    hide Or, Shl, Part, Join, Wide;
    [Part(t[0], 1, 256),
     Part(t[0], 256, 256),
     Join(Part(t[0], 65536, 256), t[1], 4),
     Part(t[1], 16, 256),
     Part(t[1], 4096, 256)]
  }

  function UnpackEta(a: seq<byte>): (t: seq<nat>)
    requires |a| == 3
    ensures |t| == 8 && Digits(t, 8)
  {
    hide Or, Shl, Part, Join, Wide;
    [Part(a[0], 1, 8),
     Part(a[0], 8, 8),
     Part(Wide(Part(a[0], 64, 256), a[1], 2), 1, 8),
     Part(a[1], 2, 8),
     Part(a[1], 16, 8),
     Part(Wide(Part(a[1], 128, 256), a[2], 1), 1, 8),
     Part(a[2], 4, 8),
     Part(a[2], 32, 8)]
  }

  function UnpackT1(a: seq<byte>): (t: seq<nat>)
    requires |a| == 5
    ensures |t| == 4 && Digits(t, 1024)
  {
    hide Or, Shl, Part, Join, Wide;
    [Part(Wide(a[0], a[1], 8), 1, 1024),
     Part(Wide(Part(a[1], 4, 256), a[2], 6), 1, 1024),
     Part(Wide(Part(a[2], 16, 256), a[3], 4), 1, 1024),
     Part(Wide(Part(a[3], 64, 256), a[4], 2), 1, 1024)]
  }

  function UnpackT0(a: seq<byte>): (t: seq<nat>)
    requires |a| == 13
    ensures |t| == 8 && Digits(t, 8192)
  {
    hide Or, Shl, Part, Join, Wide;
    [Part(Wide(a[0], a[1], 8), 1, 8192),
     Part(Wide(Wide(Part(a[1], 32, 256), a[2], 3), a[3], 11), 1, 8192),
     Part(Wide(Part(a[3], 4, 256), a[4], 6), 1, 8192),
     Part(Wide(Wide(Part(a[4], 128, 256), a[5], 1), a[6], 9), 1, 8192),
     Part(Wide(Wide(Part(a[6], 16, 256), a[7], 4), a[8], 12), 1, 8192),
     Part(Wide(Part(a[8], 2, 256), a[9], 7), 1, 8192),
     Part(Wide(Wide(Part(a[9], 64, 256), a[10], 2), a[11], 10), 1, 8192),
     Part(Wide(Part(a[11], 8, 256), a[12], 5), 1, 8192)]
  }

  /** The second coefficient is not masked: the mask after it is applied to the first one again. */
  function UnpackZ(a: seq<byte>): (t: seq<nat>)
    requires |a| == 5
    ensures |t| == 2
  {
    hide Or, Shl, Part, Join, Wide;
    [Part(Wide(Wide(a[0], a[1], 8), a[2], 16), 1, 1048576),
     Wide(Wide(Part(a[2], 16, 256), a[3], 4), a[4], 12)]
  }

  function PackGroup(y: Layout, t: seq<nat>): (r: seq<byte>)
    requires |t| == y.Coeffs()
    ensures |r| == y.Bytes()
  {
    match y case EtaLayout => PackEta(t) case T1Layout => PackT1(t) case T0Layout => PackT0(t) case ZLayout => PackZ(t)
  }

  function UnpackGroup(y: Layout, a: seq<byte>): (t: seq<nat>)
    requires |a| == y.Bytes()
    ensures |t| == y.Coeffs()
  {
    match y
    case EtaLayout => UnpackEta(a)
    case T1Layout => UnpackT1(a)
    case T0Layout => UnpackT0(a)
    case ZLayout => UnpackZ(a)
  }

  // ------------------------------------------------------------------ both keep the number

  lemma Unfold(xs: seq<int>, b: int)
    ensures forall k :: 0 <= k < |xs| ==> Value(xs[k..], b) == xs[k] + b * Value(xs[k + 1..], b)
    ensures Value(xs[0..], b) == Value(xs, b) && Value(xs[|xs|..], b) == 0
  {
    assert xs[0..] == xs;
    forall k | 0 <= k < |xs|
      ensures Value(xs[k..], b) == xs[k] + b * Value(xs[k + 1..], b)
    {
      assert xs[k..][1..] == xs[k + 1..];
    }
  }

  // ------------------------------------------------------------------ parts of a number

  /** A remainder by p * m keeps the low part and takes the high part by m. */
  lemma LowPart(lo: nat, b: nat, p: nat, m: nat, pm: nat)
    requires m > 0 && lo < p && pm == p * m
    ensures pm > 0 && (lo + p * b) % pm == lo + p * (b % m)
  {
    var d, r := b / m, b % m;
    DivMod(b, m);
    assert p * (m * d + r) == (p * m) * d + p * r;
    MulMono(p, r, m - 1);
    assert p * (m - 1) == pm - p;
    MulMono(m, 1, p);
    DivUnique(lo + p * b, pm, d, lo + p * r);
  }

  /** A number below a * m is its lowest part and the rest. */
  lemma Two(x: nat, a: nat, m: nat)
    requires a > 0 && m > 0 && x < a * m
    ensures x == Part(x, 1, a) + a * Part(x, a, m)
    ensures m <= 256 ==> Part(x, a, 256) == Part(x, a, m)
  {
    Quotient(x, a, m);
    DivMod(x, a);
  }

  lemma Quotient(x: nat, a: nat, m: nat)
    requires a > 0 && m > 0 && x < a * m
    ensures x / a < m && x / a % m == x / a
    ensures m <= 256 ==> x / a % 256 == x / a
  {
    var d := x / a;
    DivMod(x, a);
    if d >= m {
      MulMono(a, m, d);
    }
    DivUnique(d, m, 0, d);
  }

  /** Two adjacent parts. */
  lemma Split(x: nat, a: nat, m: nat, n: nat, am: nat, mn: nat)
    requires a > 0 && m > 0 && n > 0 && am == a * m && mn == m * n
    ensures am > 0 && mn > 0 && Part(x, a, mn) == Part(x, a, m) + m * Part(x, am, n)
  {
    var d := x / a;
    DivMod(x, a);
    DivMod(d, m);
    var e := d / m;
    MulMono(a, d % m, m - 1);
    assert a * (m * e + d % m) == am * e + a * (d % m);
    assert a * (m - 1) == am - a;
    DivUnique(x, am, e, a * (d % m) + x % a);
    LowPart(d % m, e, m, n, mn);
  }

  lemma Three(x: nat, a: nat, m: nat, am: nat, n: nat)
    requires a > 0 && m > 0 && am == a * m && n > 0 && x < am * n
    ensures am > 0 && x == Part(x, 1, a) + a * Part(x, a, m) + am * Part(x, am, n)
    ensures n <= 256 ==> Part(x, am, 256) == Part(x, am, n)
  {
    hide Part;
    MulMono(a, 1, m);
    Two(x, am, n);
    Split(x, 1, a, m, a, am);
  }

  /** The middle byte of a group of short coefficients. */
  lemma Four(x: byte)
    ensures x == Part(x, 1, 2) + 2 * Part(x, 2, 8) + 16 * Part(x, 16, 8) + 128 * Part(x, 128, 2)
    ensures Part(x, 128, 256) == Part(x, 128, 2)
  {
    hide Part;
    Three(x, 16, 8, 128, 2);
    Split(x, 1, 2, 8, 2, 16);
  }

  lemma Small(x: nat, m: nat, n: nat)
    requires x < m <= n
    ensures Part(x, 1, m) == x == Part(x, 1, n)
  {
    DivUnique(x, m, 0, x);
    DivUnique(x, n, 0, x);
  }

  lemma JoinValue(a: nat, b: nat, k: nat, p: nat, m: nat)
    requires k <= 8 && p == Pow2(k) && m == Pow2(8 - k) && a < p
    ensures Join(a, b, k) == a + p * Part(b, 1, m)
  {
    hide Or, Pow2;
    Pow2Values();
    Pow2Sum(k, 8 - k);
    LowPart(0, b, p, m, 256);
    OrDisjoint(a, b % m, k);
    assert a < 256;
  }

  lemma WideValue(a: nat, b: nat, k: nat, p: nat)
    requires p == Pow2(k) && a < p
    ensures Wide(a, b, k) == a + p * b
  {
    OrDisjoint(a, b, k);
  }

  lemma WideMasked(a: nat, b: nat, k: nat, p: nat, m: nat, pm: nat)
    requires p == Pow2(k) && a < p && m > 0 && pm == p * m
    ensures pm > 0 && Part(Wide(a, b, k), 1, pm) == a + p * Part(b, 1, m)
  {
    WideValue(a, b, k, p);
    LowPart(a, b, p, m, pm);
  }

  lemma Powers()
    ensures Pow2(1) == 2 && Pow2(2) == 4 && Pow2(3) == 8 && Pow2(4) == 16 && Pow2(5) == 32 && Pow2(6) == 64
    ensures Pow2(7) == 128 && Pow2(8) == 256 && Pow2(9) == 512 && Pow2(10) == 1024 && Pow2(11) == 2048
    ensures Pow2(12) == 4096 && Pow2(16) == 65536
  {
    Pow2Values();
  }

  // ------------------------------------------------------------------ both keep the number

  lemma SameEta(p: seq<int>, t: seq<int>, x0: int, x1: int, x2: int, x3: int, x4: int, x5: int, x6: int, x7: int,
                x8: int, x9: int)
    requires |p| == 3 && |t| == 8
    requires p[0] == x0 + 8 * x1 + 64 * x2
    requires p[1] == x3 + 2 * x4 + 16 * x5 + 128 * x6
    requires p[2] == x7 + 4 * x8 + 32 * x9
    requires t[0] == x0
    requires t[1] == x1
    requires t[2] == x2 + 4 * x3
    requires t[3] == x4
    requires t[4] == x5
    requires t[5] == x6 + 2 * x7
    requires t[6] == x8
    requires t[7] == x9
    ensures Value(p, 256) == Value(t, 8)
  {
    hide Value;
    Unfold(p, 256);
    Unfold(t, 8);
  }

  lemma PackEtaValue(t: seq<nat>)
    requires |t| == 8 && Digits(t, 8)
    ensures Value(PackEta(t), 256) == Value(t, 8)
  {
    hide Join, Part, Value, Pow2;
    Powers();
    Small(t[0], 8, 256);
    Small(t[1], 8, 256);
    Two(t[2], 4, 2);
    Small(t[3], 8, 256);
    Small(t[4], 8, 256);
    Two(t[5], 2, 4);
    Small(t[6], 8, 256);
    Small(t[7], 8, 256);
    Small(t[1], 8, 32);
    JoinValue(Part(t[0], 1, 256), t[1], 3, 8, 32);
    JoinValue(Join(Part(t[0], 1, 256), t[1], 3), t[2], 6, 64, 4);
    Small(t[3], 8, 128);
    JoinValue(Part(t[2], 4, 256), t[3], 1, 2, 128);
    Small(t[4], 8, 16);
    JoinValue(Join(Part(t[2], 4, 256), t[3], 1), t[4], 4, 16, 16);
    JoinValue(Join(Join(Part(t[2], 4, 256), t[3], 1), t[4], 4), t[5], 7, 128, 2);
    Small(t[6], 8, 64);
    JoinValue(Part(t[5], 2, 256), t[6], 2, 4, 64);
    JoinValue(Join(Part(t[5], 2, 256), t[6], 2), t[7], 5, 32, 8);
    SameEta(PackEta(t), t, Part(t[0], 1, 8), Part(t[1], 1, 8), Part(t[2], 1, 4), Part(t[2], 4, 2), Part(t[3], 1, 8),
            Part(t[4], 1, 8), Part(t[5], 1, 2), Part(t[5], 2, 4), Part(t[6], 1, 8), Part(t[7], 1, 8));
  }

  lemma UnpackEtaValue(a: seq<byte>)
    requires |a| == 3
    ensures Value(UnpackEta(a), 8) == Value(a, 256)
  {
    hide Wide, Part, Value, Pow2;
    var t := UnpackEta(a);
    assert t[2] == Part(a[0], 64, 4) + 4 * Part(a[1], 1, 2) && t[5] == Part(a[1], 128, 2) + 2 * Part(a[2], 1, 4)
      && Part(a[0], 64, 256) == Part(a[0], 64, 4) by {
      Powers();
      Three(a[0], 8, 8, 64, 4);
      Four(a[1]);
      WideMasked(Part(a[0], 64, 256), a[1], 2, 4, 2, 8);
      WideMasked(Part(a[1], 128, 256), a[2], 1, 2, 4, 8);
    }
    Three(a[0], 8, 8, 64, 4);
    Four(a[1]);
    Three(a[2], 4, 8, 32, 8);
    SameEta(a, t, Part(a[0], 1, 8), Part(a[0], 8, 8), Part(a[0], 64, 4), Part(a[1], 1, 2), Part(a[1], 2, 8),
            Part(a[1], 16, 8), Part(a[1], 128, 2), Part(a[2], 1, 4), Part(a[2], 4, 8), Part(a[2], 32, 8));
  }

  lemma SameT1(p: seq<int>, t: seq<int>, x0: int, x1: int, x2: int, x3: int, x4: int, x5: int, x6: int, x7: int)
    requires |p| == 5 && |t| == 4
    requires p[0] == x0
    requires p[1] == x1 + 4 * x2
    requires p[2] == x3 + 16 * x4
    requires p[3] == x5 + 64 * x6
    requires p[4] == x7
    requires t[0] == x0 + 256 * x1
    requires t[1] == x2 + 64 * x3
    requires t[2] == x4 + 16 * x5
    requires t[3] == x6 + 4 * x7
    ensures Value(p, 256) == Value(t, 1024)
  {
    hide Value;
    Unfold(p, 256);
    Unfold(t, 1024);
  }

  lemma PackT1Value(t: seq<nat>)
    requires |t| == 4 && Digits(t, 1024)
    ensures Value(PackT1(t), 256) == Value(t, 1024)
  {
    hide Join, Part, Value, Pow2;
    Powers();
    Two(t[0], 256, 4);
    Two(t[1], 64, 16);
    Two(t[2], 16, 64);
    Two(t[3], 4, 256);
    JoinValue(Part(t[0], 256, 256), t[1], 2, 4, 64);
    JoinValue(Part(t[1], 64, 256), t[2], 4, 16, 16);
    JoinValue(Part(t[2], 16, 256), t[3], 6, 64, 4);
    SameT1(PackT1(t), t, Part(t[0], 1, 256), Part(t[0], 256, 4), Part(t[1], 1, 64), Part(t[1], 64, 16),
           Part(t[2], 1, 16), Part(t[2], 16, 64), Part(t[3], 1, 4), Part(t[3], 4, 256));
  }

  lemma UnpackT1Value(a: seq<byte>)
    requires |a| == 5
    ensures Value(UnpackT1(a), 1024) == Value(a, 256)
  {
    hide Wide, Part, Value, Pow2;
    Powers();
    Small(a[0], 256, 256);
    Two(a[1], 4, 64);
    Two(a[2], 16, 16);
    Two(a[3], 64, 4);
    Small(a[4], 256, 256);
    WideMasked(a[0], a[1], 8, 256, 4, 1024);
    WideMasked(Part(a[1], 4, 256), a[2], 6, 64, 16, 1024);
    WideMasked(Part(a[2], 16, 256), a[3], 4, 16, 64, 1024);
    WideMasked(Part(a[3], 64, 256), a[4], 2, 4, 256, 1024);
    SameT1(a, UnpackT1(a), Part(a[0], 1, 256), Part(a[1], 1, 4), Part(a[1], 4, 64), Part(a[2], 1, 16),
           Part(a[2], 16, 16), Part(a[3], 1, 64), Part(a[3], 64, 4), Part(a[4], 1, 256));
  }

  lemma SameT0(p: seq<int>, t: seq<int>, x0: int, x1: int, x2: int, x3: int, x4: int, x5: int, x6: int, x7: int,
               x8: int, x9: int, x10: int, x11: int, x12: int, x13: int, x14: int, x15: int, x16: int, x17: int,
               x18: int, x19: int)
    requires |p| == 13 && |t| == 8
    requires p[0] == x0
    requires p[1] == x1 + 32 * x2
    requires p[2] == x3
    requires p[3] == x4 + 4 * x5
    requires p[4] == x6 + 128 * x7
    requires p[5] == x8
    requires p[6] == x9 + 16 * x10
    requires p[7] == x11
    requires p[8] == x12 + 2 * x13
    requires p[9] == x14 + 64 * x15
    requires p[10] == x16
    requires p[11] == x17 + 8 * x18
    requires p[12] == x19
    requires t[0] == x0 + 256 * x1
    requires t[1] == x2 + 8 * x3 + 2048 * x4
    requires t[2] == x5 + 64 * x6
    requires t[3] == x7 + 2 * x8 + 512 * x9
    requires t[4] == x10 + 16 * x11 + 4096 * x12
    requires t[5] == x13 + 128 * x14
    requires t[6] == x15 + 4 * x16 + 1024 * x17
    requires t[7] == x18 + 32 * x19
    ensures Value(p, 256) == Value(t, 8192)
  {
    hide Value;
    Unfold(p, 256);
    Unfold(t, 8192);
  }

  lemma PackT0Value(t: seq<nat>)
    requires |t| == 8 && Digits(t, 8192)
    ensures Value(PackT0(t), 256) == Value(t, 8192)
  {
    hide Join, Part, Value, Pow2;
    Powers();
    Two(t[0], 256, 32);
    Three(t[1], 8, 256, 2048, 4);
    Two(t[2], 64, 128);
    Three(t[3], 2, 256, 512, 16);
    Three(t[4], 16, 256, 4096, 2);
    Two(t[5], 128, 64);
    Three(t[6], 4, 256, 1024, 8);
    Two(t[7], 32, 256);
    JoinValue(Part(t[0], 256, 256), t[1], 5, 32, 8);
    JoinValue(Part(t[1], 2048, 256), t[2], 2, 4, 64);
    JoinValue(Part(t[2], 64, 256), t[3], 7, 128, 2);
    JoinValue(Part(t[3], 512, 256), t[4], 4, 16, 16);
    JoinValue(Part(t[4], 4096, 256), t[5], 1, 2, 128);
    JoinValue(Part(t[5], 128, 256), t[6], 6, 64, 4);
    JoinValue(Part(t[6], 1024, 256), t[7], 3, 8, 32);
    SameT0(PackT0(t), t, Part(t[0], 1, 256), Part(t[0], 256, 32), Part(t[1], 1, 8), Part(t[1], 8, 256),
           Part(t[1], 2048, 4), Part(t[2], 1, 64), Part(t[2], 64, 128), Part(t[3], 1, 2), Part(t[3], 2, 256),
           Part(t[3], 512, 16), Part(t[4], 1, 16), Part(t[4], 16, 256), Part(t[4], 4096, 2), Part(t[5], 1, 128),
           Part(t[5], 128, 64), Part(t[6], 1, 4), Part(t[6], 4, 256), Part(t[6], 1024, 8), Part(t[7], 1, 32),
           Part(t[7], 32, 256));
  }

  lemma UnpackT0Value(a: seq<byte>)
    requires |a| == 13
    ensures Value(UnpackT0(a), 8192) == Value(a, 256)
  {
    hide Wide, Part, Value, Pow2;
    Powers();
    Small(a[0], 256, 256);
    Two(a[1], 32, 8);
    Small(a[2], 256, 256);
    Two(a[3], 4, 64);
    Two(a[4], 128, 2);
    Small(a[5], 256, 256);
    Two(a[6], 16, 16);
    Small(a[7], 256, 256);
    Two(a[8], 2, 128);
    Two(a[9], 64, 4);
    Small(a[10], 256, 256);
    Two(a[11], 8, 32);
    Small(a[12], 256, 256);
    WideMasked(a[0], a[1], 8, 256, 32, 8192);
    WideValue(Part(a[1], 32, 256), a[2], 3, 8);
    WideMasked(Wide(Part(a[1], 32, 256), a[2], 3), a[3], 11, 2048, 4, 8192);
    WideMasked(Part(a[3], 4, 256), a[4], 6, 64, 128, 8192);
    WideValue(Part(a[4], 128, 256), a[5], 1, 2);
    WideMasked(Wide(Part(a[4], 128, 256), a[5], 1), a[6], 9, 512, 16, 8192);
    WideValue(Part(a[6], 16, 256), a[7], 4, 16);
    WideMasked(Wide(Part(a[6], 16, 256), a[7], 4), a[8], 12, 4096, 2, 8192);
    WideMasked(Part(a[8], 2, 256), a[9], 7, 128, 64, 8192);
    WideValue(Part(a[9], 64, 256), a[10], 2, 4);
    WideMasked(Wide(Part(a[9], 64, 256), a[10], 2), a[11], 10, 1024, 8, 8192);
    WideMasked(Part(a[11], 8, 256), a[12], 5, 32, 256, 8192);
    SameT0(a, UnpackT0(a), Part(a[0], 1, 256), Part(a[1], 1, 32), Part(a[1], 32, 8), Part(a[2], 1, 256),
           Part(a[3], 1, 4), Part(a[3], 4, 64), Part(a[4], 1, 128), Part(a[4], 128, 2), Part(a[5], 1, 256),
           Part(a[6], 1, 16), Part(a[6], 16, 16), Part(a[7], 1, 256), Part(a[8], 1, 2), Part(a[8], 2, 128),
           Part(a[9], 1, 64), Part(a[9], 64, 4), Part(a[10], 1, 256), Part(a[11], 1, 8), Part(a[11], 8, 32),
           Part(a[12], 1, 256));
  }

  lemma SameZ(p: seq<int>, t: seq<int>, x0: int, x1: int, x2: int, x3: int, x4: int, x5: int)
    requires |p| == 5 && |t| == 2
    requires p[0] == x0
    requires p[1] == x1
    requires p[2] == x2 + 16 * x3
    requires p[3] == x4
    requires p[4] == x5
    requires t[0] == x0 + 256 * x1 + 65536 * x2
    requires t[1] == x3 + 16 * x4 + 4096 * x5
    ensures Value(p, 256) == Value(t, 1048576)
  {
    hide Value;
    Unfold(p, 256);
    Unfold(t, 1048576);
  }

  lemma PackZValue(t: seq<nat>)
    requires |t| == 2 && Digits(t, 1048576)
    ensures Value(PackZ(t), 256) == Value(t, 1048576)
  {
    hide Join, Part, Value, Pow2;
    Powers();
    Three(t[0], 256, 256, 65536, 16);
    Three(t[1], 16, 256, 4096, 256);
    JoinValue(Part(t[0], 65536, 256), t[1], 4, 16, 16);
    SameZ(PackZ(t), t, Part(t[0], 1, 256), Part(t[0], 256, 256), Part(t[0], 65536, 16), Part(t[1], 1, 16),
          Part(t[1], 16, 256), Part(t[1], 4096, 256));
  }

  lemma UnpackZValue(a: seq<byte>)
    requires |a| == 5
    ensures Value(UnpackZ(a), 1048576) == Value(a, 256) && Digits(UnpackZ(a), 1048576)
  {
    hide Wide, Part, Value, Pow2;
    Powers();
    Small(a[0], 256, 256);
    Small(a[1], 256, 256);
    Two(a[2], 16, 16);
    Small(a[3], 256, 256);
    Small(a[4], 256, 256);
    WideValue(a[0], a[1], 8, 256);
    WideMasked(Wide(a[0], a[1], 8), a[2], 16, 65536, 16, 1048576);
    WideValue(Part(a[2], 16, 256), a[3], 4, 16);
    WideValue(Wide(Part(a[2], 16, 256), a[3], 4), a[4], 12, 4096);
    SameZ(a, UnpackZ(a), Part(a[0], 1, 256), Part(a[1], 1, 256), Part(a[2], 1, 16), Part(a[2], 16, 16),
          Part(a[3], 1, 256), Part(a[4], 1, 256));
  }
  lemma GroupPacked(y: Layout, t: seq<nat>)
    requires |t| == y.Coeffs() && Digits(t, y.Base())
    ensures Value(PackGroup(y, t), 256) == Value(t, y.Base())
  {
    hide Value, PackEta, PackT1, PackT0, PackZ;
    match y {
      case EtaLayout => PackEtaValue(t);
      case T1Layout => PackT1Value(t);
      case T0Layout => PackT0Value(t);
      case ZLayout => PackZValue(t);
    }
  }

  lemma GroupUnpacked(y: Layout, a: seq<byte>)
    requires |a| == y.Bytes()
    ensures Value(UnpackGroup(y, a), y.Base()) == Value(a, 256) && Digits(UnpackGroup(y, a), y.Base())
  {
    hide Value, UnpackEta, UnpackT1, UnpackT0, UnpackZ;
    match y {
      case EtaLayout => UnpackEtaValue(a);
      case T1Layout => UnpackT1Value(a);
      case T0Layout => UnpackT0Value(a);
      case ZLayout => UnpackZValue(a);
    }
  }

  /** On one group, packing and unpacking undo each other. */
  lemma GroupRoundTrips(y: Layout, t: seq<nat>, a: seq<byte>)
    requires |t| == y.Coeffs() && Digits(t, y.Base()) && |a| == y.Bytes()
    ensures UnpackGroup(y, PackGroup(y, t)) == t
    ensures PackGroup(y, UnpackGroup(y, a)) == a
  {
    hide Value, PackGroup, UnpackGroup;
    var p, u := PackGroup(y, t), UnpackGroup(y, a);
    GroupPacked(y, t);
    GroupUnpacked(y, p);
    DigitsUnique(UnpackGroup(y, p), t, y.Base());
    GroupUnpacked(y, a);
    GroupPacked(y, u);
    DigitsUnique(PackGroup(y, u), a, 256);
  }

  // ------------------------------------------------------------------ polynomials

  function DigitsOf(y: Layout, c: seq<int>): (t: seq<nat>)
    ensures |t| == |c|
  {
    seq(|c|, i requires 0 <= i < |c| => y.Digit(c[i]))
  }

  function CoefficientsOf(y: Layout, t: seq<nat>): (c: seq<int>)
    ensures |c| == |t|
  {
    seq(|t|, i requires 0 <= i < |t| => y.Coefficient(t[i]))
  }

  /** The length of n groups of length k. */
  function Total(n: nat, k: nat): nat {
    if n == 0 then 0 else k + Total(n - 1, k)
  }

  lemma {:induction false} TotalProduct(n: nat, k: nat)
    ensures Total(n, k) == n * k
  {
    if n > 0 {
      TotalProduct(n - 1, k);
    }
  }

  /** The packing of n groups of coefficients. */
  function Pack(y: Layout, c: seq<int>, n: nat): (r: seq<byte>)
    requires |c| == Total(n, y.Coeffs())
    ensures |r| == Total(n, y.Bytes())
    decreases n
  {
    if n == 0 then []
    else PackGroup(y, DigitsOf(y, c[..y.Coeffs()])) + Pack(y, c[y.Coeffs()..], n - 1)
  }

  function Unpack(y: Layout, a: seq<byte>, n: nat): (c: seq<int>)
    requires |a| == Total(n, y.Bytes())
    ensures |c| == Total(n, y.Coeffs())
    decreases n
  {
    if n == 0 then []
    else CoefficientsOf(y, UnpackGroup(y, a[..y.Bytes()])) + Unpack(y, a[y.Bytes()..], n - 1)
  }

  ghost predicate Legal(y: Layout, c: seq<int>) {
    forall i :: 0 <= i < |c| ==> y.Legal(c[i])
  }

  lemma DigitKept(y: Layout, d: nat)
    requires d < y.Base()
    ensures y.Legal(y.Coefficient(d)) && y.Digit(y.Coefficient(d)) == d
  {
  }

  lemma CoefficientKept(y: Layout, c: int)
    requires y.Legal(c)
    ensures y.Digit(c) < y.Base() && y.Coefficient(y.Digit(c)) == c
  {
    match y {
      case EtaLayout => DivUnique(2 - c, 256, 0, 2 - c);
      case T1Layout => DivUnique(c, 0x1_0000_0000, 0, c);
      case T0Layout => DivUnique(0x1000 - c, 0x1_0000_0000, 0, 0x1000 - c);
      case ZLayout => DivUnique(0x8_0000 - c, 0x1_0000_0000, 0, 0x8_0000 - c);
    }
  }

  lemma PackCons(y: Layout, p: seq<int>, q: seq<int>, n: nat)
    requires |p| == y.Coeffs() && |q| == Total(n, y.Coeffs())
    ensures Pack(y, p + q, n + 1) == PackGroup(y, DigitsOf(y, p)) + Pack(y, q, n)
  {
    hide Layout.Coeffs, PackGroup, DigitsOf;
    assert (p + q)[..y.Coeffs()] == p && (p + q)[y.Coeffs()..] == q;
  }

  lemma UnpackCons(y: Layout, p: seq<byte>, q: seq<byte>, n: nat)
    requires |p| == y.Bytes() && |q| == Total(n, y.Bytes())
    ensures Unpack(y, p + q, n + 1) == CoefficientsOf(y, UnpackGroup(y, p)) + Unpack(y, q, n)
  {
    hide Layout.Bytes, Layout.Coeffs, UnpackGroup, CoefficientsOf;
    assert (p + q)[..y.Bytes()] == p && (p + q)[y.Bytes()..] == q;
  }

  lemma Nothing(y: Layout)
    ensures Pack(y, [], 0) == [] && Unpack(y, [], 0) == []
  {
  }

  lemma LegalParts(y: Layout, p: seq<int>, q: seq<int>)
    ensures Legal(y, p + q) <==> Legal(y, p) && Legal(y, q)
  {
    hide Layout.Legal;
    if Legal(y, p + q) {
      assert forall i :: 0 <= i < |p| ==> p[i] == (p + q)[i];
      assert forall i :: 0 <= i < |q| ==> q[i] == (p + q)[|p| + i];
    }
  }

  /** Unpacked digits are legal coefficients and keep their digits. */
  lemma CoefficientsLegal(y: Layout, t: seq<nat>)
    requires Digits(t, y.Base())
    ensures Legal(y, CoefficientsOf(y, t)) && DigitsOf(y, CoefficientsOf(y, t)) == t
  {
    hide Layout.Base, Layout.Digit, Layout.Coefficient, Layout.Legal;
    forall i | 0 <= i < |t|
      ensures y.Legal(CoefficientsOf(y, t)[i]) && y.Digit(CoefficientsOf(y, t)[i]) == t[i]
    {
      DigitKept(y, t[i]);
    }
  }

  lemma DigitsLegal(y: Layout, c: seq<int>)
    requires Legal(y, c)
    ensures Digits(DigitsOf(y, c), y.Base()) && CoefficientsOf(y, DigitsOf(y, c)) == c
  {
    hide Layout.Base, Layout.Digit, Layout.Coefficient, Layout.Legal;
    forall i | 0 <= i < |c|
      ensures y.Digit(c[i]) < y.Base() && y.Coefficient(y.Digit(c[i])) == c[i]
    {
      CoefficientKept(y, c[i]);
    }
  }

  /** What is unpacked is legal, and packs to the bytes it came from, whatever these are. */
  lemma {:induction false} PackOfUnpack(y: Layout, a: seq<byte>, n: nat)
    requires |a| == Total(n, y.Bytes())
    ensures Legal(y, Unpack(y, a, n))
    ensures Pack(y, Unpack(y, a, n), n) == a
    decreases n
  {
    hide Pack, Unpack, PackGroup, UnpackGroup, CoefficientsOf, DigitsOf, Digits;
    hide Layout.Coeffs, Layout.Bytes, Layout.Base, Layout.Legal;
    if n == 0 {
      Nothing(y);
    } else {
      var p, q := a[..y.Bytes()], a[y.Bytes()..];
      var t := UnpackGroup(y, p);
      GroupUnpacked(y, p);
      GroupRoundTrips(y, t, p);
      CoefficientsLegal(y, t);
      PackOfUnpack(y, q, n - 1);
      assert a == p + q;
      UnpackCons(y, p, q, n - 1);
      PackCons(y, CoefficientsOf(y, t), Unpack(y, q, n - 1), n - 1);
    }
  }

  /** Unpacking restores exactly the polynomials whose coefficients are in the legal range. */
  lemma {:induction false} UnpackOfPack(y: Layout, c: seq<int>, n: nat)
    requires |c| == Total(n, y.Coeffs())
    ensures Unpack(y, Pack(y, c, n), n) == c <==> Legal(y, c)
    decreases n
  {
    hide Pack, Unpack, PackGroup, UnpackGroup, CoefficientsOf, DigitsOf, Digits, Legal;
    hide Layout.Coeffs, Layout.Bytes, Layout.Base, Layout.Legal;
    if !Legal(y, c) {
      PackOfUnpack(y, Pack(y, c, n), n);
    } else if n == 0 {
      Nothing(y);
    } else {
      var p, q := c[..y.Coeffs()], c[y.Coeffs()..];
      assert c == p + q;
      var t := DigitsOf(y, p);
      LegalParts(y, p, q);
      DigitsLegal(y, p);
      GroupRoundTrips(y, t, PackGroup(y, t));
      UnpackOfPack(y, q, n - 1);
      PackCons(y, p, q, n - 1);
      UnpackCons(y, PackGroup(y, t), Pack(y, q, n - 1), n - 1);
    }
  }

  // ------------------------------------------------------------------ the loops

  /** Groups in a polynomial, and the length of its packing. */
  function Groups(y: Layout): (n: nat)
    ensures Total(n, y.Coeffs()) == 256
  {
    var n := match y case EtaLayout => 32 case T1Layout => 64 case T0Layout => 32 case ZLayout => 128;
    TotalProduct(n, y.Coeffs());
    n
  }

  function Size(y: Layout): (n: nat)
    ensures n == Total(Groups(y), y.Bytes())
  {
    TotalProduct(Groups(y), y.Bytes());
    match y case EtaLayout => 96 case T1Layout => 320 case T0Layout => 416 case ZLayout => 640
  }

  // ------------------------------------------------------------------ the layouts bit by bit

  /** The bits of a coefficient: 3, 10, 13 or 20. */
  function Width(y: Layout): nat {
    match y case EtaLayout => 3 case T1Layout => 10 case T0Layout => 13 case ZLayout => 20
  }

  lemma WidthFits(y: Layout)
    ensures y.Base() == Pow2(Width(y)) && Width(y) * y.Coeffs() == 8 * y.Bytes() && Pow2(8) == 256
    ensures Size(y) == 32 * Width(y)
  {
    hide Pow2;
    Powers();
    Pow2Step(12);
    Pow2Sum(10, 10);
  }

  lemma GroupBit(y: Layout, a: seq<byte>, k: nat, t: nat)
    requires |a| == y.Bytes() && k < y.Coeffs() && t < Width(y)
    ensures var p := Width(y) * k + t;
      0 <= p / 8 < |a| && 0 <= p % 8 && UnpackGroup(y, a)[k] / Pow2(t) % 2 == a[p / 8] / Pow2(p % 8) % 2
  {
    hide Pow2, Value, UnpackGroup, Layout.Coeffs, Layout.Bytes, Layout.Base, Width;
    WidthFits(y);
    GroupUnpacked(y, a);
    var w := Width(y);
    var p := w * k + t;
    MulMono(w, k + 1, y.Coeffs());
    assert w * (k + 1) == w * k + w;
    DivUnique(p, w, k, t);
    ValueBit(UnpackGroup(y, a), w, p);
    ValueBit(a, 8, p);
  }

  lemma {:induction false} UnpackBit(y: Layout, a: seq<byte>, n: nat, k: nat, t: nat)
    requires n > 0 && |a| == Total(n, y.Bytes()) && k < Total(n, y.Coeffs()) && t < Width(y)
    ensures var p := Width(y) * k + t;
      0 <= p / 8 < |a| && 0 <= p % 8 && y.Digit(Unpack(y, a, n)[k]) / Pow2(t) % 2 == a[p / 8] / Pow2(p % 8) % 2
  {
    hide Pow2, Unpack, UnpackGroup, CoefficientsOf, Total;
    hide Layout.Coeffs, Layout.Bytes, Layout.Base, Layout.Digit, Width;
    TotalStep(n, y.Bytes());
    var u, v := a[..y.Bytes()], a[y.Bytes()..];
    assert a == u + v;
    TotalStep(n, y.Coeffs());
    UnpackCons(y, u, v, n - 1);
    if k < y.Coeffs() {
      GroupBit(y, u, k, t);
      FirstDigit(y, u, k);
    } else {
      NoTotal(y.Coeffs());
      var j := k - y.Coeffs();
      UnpackBit(y, v, n - 1, j, t);
      WidthFits(y);
      BitShifted(Width(y), j, y.Coeffs(), y.Bytes(), t);
      assert Unpack(y, a, n)[k] == Unpack(y, v, n - 1)[j];
      assert a[(Width(y) * k + t) / 8] == v[(Width(y) * j + t) / 8];
    }
  }

  lemma FirstDigit(y: Layout, u: seq<byte>, k: nat)
    requires |u| == y.Bytes() && k < y.Coeffs()
    ensures y.Digit(CoefficientsOf(y, UnpackGroup(y, u))[k]) == UnpackGroup(y, u)[k]
  {
    hide UnpackGroup, CoefficientsOf, DigitsOf, Digits, Legal;
    hide Layout.Coeffs, Layout.Bytes, Layout.Base, Layout.Digit;
    GroupUnpacked(y, u);
    CoefficientsLegal(y, UnpackGroup(y, u));
    DigitsAt(y, CoefficientsOf(y, UnpackGroup(y, u)), k);
  }

  lemma BitShifted(w: nat, j: nat, c: nat, m: nat, t: nat)
    requires w * c == 8 * m
    ensures (w * (j + c) + t) / 8 == (w * j + t) / 8 + m && (w * (j + c) + t) % 8 == (w * j + t) % 8
  {
    var q := w * j + t;
    assert w * (j + c) == w * j + w * c;
    DivMod(q, 8);
    DivUnique(w * (j + c) + t, 8, q / 8 + m, q % 8);
  }

  lemma DigitsAt(y: Layout, c: seq<int>, k: nat)
    requires k < |c|
    ensures DigitsOf(y, c)[k] == y.Digit(c[k])
  {
  }

  /** Bit t of coefficient k is bit w*k + t of the bytes. */
  lemma UnpackBits(y: Layout, a: seq<byte>, k: nat, w: nat, t: nat)
    requires w == match y case EtaLayout => 3 case T1Layout => 10 case T0Layout => 13 case ZLayout => 20
    requires |a| == 32 * w && k < 256 && t < w
    ensures |a| == Size(y) && 0 <= (w * k + t) / 8 < |a| && 0 <= (w * k + t) % 8
    ensures var c := Unpack(y, a, Groups(y))[k];
      var d := match y case EtaLayout => 2 - c case T1Layout => c case T0Layout => 4096 - c case ZLayout => 524288 - c;
      && 0 <= d < (match y case EtaLayout => 8 case T1Layout => 1024 case T0Layout => 8192 case ZLayout => 1048576)
      && d / Pow2(t) % 2 == a[(w * k + t) / 8] / Pow2((w * k + t) % 8) % 2
  {
    hide Pow2, Unpack, Groups, Legal, Total, Size;
    WidthFits(y);
    NoTotal(y.Coeffs());
    UnpackBit(y, a, Groups(y), k, t);
    PackOfUnpack(y, a, Groups(y));
    LegalDigit(y, Unpack(y, a, Groups(y)), k);
  }

  lemma LegalDigit(y: Layout, c: seq<int>, k: nat)
    requires Legal(y, c) && k < |c|
    ensures y.Digit(c[k]) ==
      match y
      case EtaLayout => 2 - c[k] case T1Layout => c[k] case T0Layout => 4096 - c[k] case ZLayout => 524288 - c[k]
    ensures y.Digit(c[k]) < y.Base()
  {
    assert y.Legal(c[k]);
    CoefficientKept(y, c[k]);
  }

  /** The number that w bits write from bit p on, the lowest bit first. */
  ghost function Field(b: seq<byte>, p: nat, w: nat): nat
    requires p + w <= 8 * |b|
    decreases w
  {
    if w == 0 then 0 else BitOf(b[p / 8], p % 8) + 2 * Field(b, p + 1, w - 1)
  }

  /** Bit t of a number. */
  function BitOf(d: nat, t: nat): nat {
    d / Pow2(t) % 2
  }

  lemma BitHalf(d: nat, t: nat)
    ensures BitOf(d, t + 1) == BitOf(d / 2, t) && BitOf(d, 0) == d % 2
  {
    hide Pow2;
    Pow2Step(t);
    Halves(d, Pow2(t));
    Pow2Step(0);
  }

  lemma {:induction false} FieldUnique(b: seq<byte>, p: nat, w: nat, d: nat)
    requires p + w <= 8 * |b| && d < Pow2(w)
    requires forall t :: 0 <= t < w ==> BitOf(d, t) == BitOf(b[(p + t) / 8], (p + t) % 8)
    ensures Field(b, p, w) == d
    decreases w
  {
    hide Pow2, BitOf;
    Pow2Step(0);
    if w > 0 {
      Pow2Step(w - 1);
      forall t | 0 <= t < w - 1
        ensures BitOf(d / 2, t) == BitOf(b[(p + 1 + t) / 8], (p + 1 + t) % 8)
      {
        BitHalf(d, t);
        assert BitOf(d, t + 1) == BitOf(b[(p + (t + 1)) / 8], (p + (t + 1)) % 8);
      }
      FieldUnique(b, p + 1, w - 1, d / 2);
      BitHalf(d, 0);
      assert BitOf(d, 0) == BitOf(b[(p + 0) / 8], (p + 0) % 8);
    }
  }

  lemma Halves(d: nat, m: nat)
    requires m > 0
    ensures d / (2 * m) == d / 2 / m
  {
    var e := d / 2;
    var f, r := e / m, e % m;
    DivMod(e, m);
    assert 2 * (m * f + r) == (2 * m) * f + 2 * r;
    DivUnique(d, 2 * m, f, 2 * r + d % 2);
  }

  /**
    BitUnpack and SimpleBitUnpack of section 7.1 of FIPS 204: coefficient k is written in the w bits from
    w*k on; what is written is t1 itself, 2 - s, 2^12 - t0 and 2^19 - z.
   */
  lemma UnpackField(y: Layout, a: seq<byte>, k: nat, w: nat)
    requires w == match y case EtaLayout => 3 case T1Layout => 10 case T0Layout => 13 case ZLayout => 20
    requires |a| == 32 * w && k < 256
    ensures |a| == Size(y) && w * k + w <= 8 * |a|
    ensures var d := Field(a, w * k, w);
      Unpack(y, a, Groups(y))[k] ==
      match y case EtaLayout => 2 - d case T1Layout => d case T0Layout => 4096 - d case ZLayout => 524288 - d
  {
    hide Pow2, Unpack, Groups, Field, Size;
    WidthFits(y);
    MulMono(w, k + 1, 256);
    assert w * (k + 1) == w * k + w;
    var c := Unpack(y, a, Groups(y))[k];
    var d := match y case EtaLayout => 2 - c case T1Layout => c case T0Layout => 4096 - c case ZLayout => 524288 - c;
    UnpackBits(y, a, k, w, 0);
    forall t | 0 <= t < w
      ensures BitOf(d, t) == BitOf(a[(w * k + t) / 8], (w * k + t) % 8)
    {
      UnpackBits(y, a, k, w, t);
    }
    FieldUnique(a, w * k, w, d);
  }

  /** BitPack and SimpleBitPack, on the legal coefficients. */
  lemma PackField(y: Layout, c: seq<int>, k: nat, w: nat)
    requires w == match y case EtaLayout => 3 case T1Layout => 10 case T0Layout => 13 case ZLayout => 20
    requires |c| == 256 && Legal(y, c) && k < 256
    ensures var b := Pack(y, c, Groups(y)); |b| == 32 * w && w * k + w <= 8 * |b|
    ensures Field(Pack(y, c, Groups(y)), w * k, w) ==
      match y
      case EtaLayout => 2 - c[k] case T1Layout => c[k] case T0Layout => 4096 - c[k] case ZLayout => 524288 - c[k]
  {
    hide Pow2, Pack, Unpack, Groups, Legal, Field, Size;
    WidthFits(y);
    UnpackOfPack(y, c, Groups(y));
    UnpackField(y, Pack(y, c, Groups(y)), k, w);
  }

  /** s with g written over it from position p on. */
  ghost function Splice(s: seq<byte>, p: nat, g: seq<byte>): seq<byte>
    requires p + |g| <= |s|
  {
    s[..p] + g + s[p + |g|..]
  }

  /** The assignments to one group of bytes. */
  method StoreBytes(r: array<byte>, p: nat, g: seq<byte>)
    requires p + |g| <= r.Length
    modifies r
    ensures r[..] == Splice(old(r[..]), p, g)
  {
    for k := 0 to |g|
      invariant forall i :: 0 <= i < k ==> r[p + i] == g[i]
      invariant forall i :: 0 <= i < p || p + k <= i < r.Length ==> r[i] == old(r[i])
    {
      r[p + k] := g[k];
    }
    assert r[..p] == old(r[..p]) && r[p..p + |g|] == g && r[p + |g|..] == old(r[p + |g|..]);
  }

  /** The assignments to one group of coefficients. */
  method StoreCoefficients(c: array<int32>, p: nat, g: seq<int32>)
    requires p + |g| <= c.Length
    modifies c
    ensures c[..] == old(c[..p]) + g + old(c[p + |g|..])
  {
    for k := 0 to |g|
      invariant forall i :: 0 <= i < k ==> c[p + i] == g[i]
      invariant forall i :: 0 <= i < p || p + k <= i < c.Length ==> c[i] == old(c[i])
    {
      c[p + k] := g[k];
    }
    assert c[..p] == old(c[..p]) && c[p..p + |g|] == g && c[p + |g|..] == old(c[p + |g|..]);
  }

  /** A buffer that held b behind a, after the first |done| elements of b were replaced by done. */
  ghost predicate Filled(s: seq<byte>, a: seq<byte>, done: seq<byte>, b: seq<byte>) {
    |done| <= |b| && s == a + done + b[|done|..]
  }

  lemma NothingFilled(s: seq<byte>, p: nat)
    requires p <= |s|
    ensures Filled(s, s[..p], [], s[p..])
  {
  }

  /** Storing g behind what is done. */
  lemma Fill(s: seq<byte>, t: seq<byte>, a: seq<byte>, done: seq<byte>, b: seq<byte>, g: seq<byte>)
    requires Filled(s, a, done, b) && |done| + |g| <= |b|
    requires t == Splice(s, |a| + |done|, g)
    ensures Filled(t, a, done + g, b)
  {
    var p := |a| + |done|;
    assert s[..p] == a + done;
    assert s[p + |g|..] == b[|done + g|..];
  }

  lemma FilledWhole(s: seq<byte>, a: seq<byte>, done: seq<byte>, b: seq<byte>)
    requires Filled(s, a, done, b)
    ensures |done| <= |b| && s == a + done + b[|done|..]
  {
  }

  /** One group is packed and stored. */
  method PackGroupInto(y: Layout, c: seq<int32>, r: array<byte>, p: nat)
    requires |c| == y.Coeffs() && p + y.Bytes() <= r.Length
    modifies r
    ensures r[..] == Splice(old(r[..]), p, PackGroup(y, DigitsOf(y, c)))
  {
    hide Splice, PackGroup, DigitsOf, Layout.Coeffs, Layout.Bytes;
    StoreBytes(r, p, PackGroup(y, DigitsOf(y, c)));
  }

  /** The groups before coefficient o are packed in done; m groups are left. */
  ghost predicate PackedTo(y: Layout, c: seq<int>, o: nat, done: seq<byte>, m: nat) {
    && |c| == 256 && o <= 256 && |c[o..]| == Total(m, y.Coeffs()) && |done| + Total(m, y.Bytes()) == Size(y)
    && Pack(y, c, Groups(y)) == done + Pack(y, c[o..], m)
  }

  /** The bytes of the group of c that begins at o. */
  ghost function GroupBytes(y: Layout, c: seq<int>, o: nat): (r: seq<byte>)
    requires o + y.Coeffs() <= |c|
    ensures |r| == y.Bytes()
  {
    hide PackGroup, Layout.Coeffs, Layout.Bytes;
    PackGroup(y, DigitsOf(y, c[o..o + y.Coeffs()]))
  }

  /** One more group of c is packed. */
  lemma PackMore(y: Layout, c: seq<int>, o: nat, done: seq<byte>, m: nat)
    requires m > 0 && PackedTo(y, c, o, done, m)
    ensures var u := o + y.Coeffs();
      && u <= 256 && |done| + y.Bytes() <= Size(y)
      && PackedTo(y, c, u, done + GroupBytes(y, c, o), m - 1)
  {
    hide Pack, PackGroup, DigitsOf, Total, Size, Groups, Layout.Coeffs, Layout.Bytes;
    TotalStep(m, y.Coeffs());
    TotalStep(m, y.Bytes());
    var u := o + y.Coeffs();
    assert c[o..] == c[o..u] + c[u..];
    PackCons(y, c[o..u], c[u..], m - 1);
  }

  lemma NothingPacked(y: Layout, c: seq<int>)
    requires |c| == 256
    ensures PackedTo(y, c, 0, [], Groups(y))
  {
    hide Pack, Groups, Size, Total, Layout.Coeffs, Layout.Bytes;
    assert c[0..] == c;
  }

  lemma AllPacked(y: Layout, c: seq<int>, o: nat, done: seq<byte>)
    requires PackedTo(y, c, o, done, 0)
    ensures |c| == 256 && done == Pack(y, c, Groups(y))
  {
    hide Pack, Groups, Size, Total, Layout.Coeffs, Layout.Bytes;
    Nothing(y);
    NoTotal(y.Coeffs());
    assert c[o..] == [];
  }

  /** The loops of poly_*_pack: group by group into a byte buffer, here at an offset. */
  method PackPoly(y: Layout, c: seq<int32>, r: array<byte>, start: nat)
    requires |c| == 256 && start + Size(y) <= r.Length
    modifies r
    ensures r[..] == old(r[..start]) + Pack(y, c, Groups(y)) + old(r[start + Size(y)..])
  {
    hide Pack, PackGroup, DigitsOf, Size, Groups, Total, Filled, Splice, PackedTo;
    hide Layout.Coeffs, Layout.Bytes;
    var n, o: nat, p: nat := Groups(y), 0, start;
    ghost var done: seq<byte>, a, b := [], r[..start], r[start..];
    NothingPacked(y, c);
    NothingFilled(r[..], start);
    for i := 0 to n
      invariant o <= 256 && p == start + |done|
      invariant PackedTo(y, c, o, done, n - i) && Filled(r[..], a, done, b)
    {
      PackMore(y, c, o, done, n - i);
      var u, q := o + y.Coeffs(), p + y.Bytes();
      ghost var g, before := GroupBytes(y, c, o), r[..];
      PackGroupInto(y, c[o..u], r, p);
      Fill(before, r[..], a, done, b, g);
      done := done + g;
      o, p := u, q;
    }
    AllPacked(y, c, o, done);
    FilledWhole(r[..], a, done, b);
  }

  lemma TotalStep(n: nat, k: nat)
    requires n > 0
    ensures Total(n, k) == k + Total(n - 1, k)
  {
  }

  lemma NoTotal(k: nat)
    ensures Total(0, k) == 0
  {
  }

  /** One group is unpacked and stored. */
  method UnpackGroupInto(y: Layout, a: seq<byte>, c: array<int32>, o: nat)
    requires |a| == y.Bytes() && o + y.Coeffs() <= c.Length
    modifies c
    ensures c[..o + y.Coeffs()] == old(c[..o]) + CoefficientsOf(y, UnpackGroup(y, a))
  {
    hide UnpackGroup, CoefficientsOf, Digits, Legal, Layout.Coeffs, Layout.Bytes, Layout.Base;
    var t := UnpackGroup(y, a);
    GroupUnpacked(y, a);
    CoefficientsLegal(y, t);
    var g := CoefficientsOf(y, t);
    LegalFits(y, g);
    StoreCoefficients(c, o, g);
  }

  /** One more group of s is unpacked. */
  lemma UnpackMore(y: Layout, s: seq<byte>, k: nat, done: seq<int>, m: nat)
    requires m > 0 && k <= |s| && |s[k..]| == Total(m, y.Bytes())
    ensures var q := k + y.Bytes();
      && q <= |s| && |s[q..]| == Total(m - 1, y.Bytes())
      && done + Unpack(y, s[k..], m) == done + CoefficientsOf(y, UnpackGroup(y, s[k..q])) + Unpack(y, s[q..], m - 1)
  {
    hide Unpack, UnpackGroup, CoefficientsOf, Total, Layout.Coeffs, Layout.Bytes;
    TotalStep(m, y.Bytes());
    var q := k + y.Bytes();
    assert s[k..] == s[k..q] + s[q..];
    UnpackCons(y, s[k..q], s[q..], m - 1);
  }

  /** A part of a part of an array. */
  lemma Within(a: array<byte>, start: nat, size: nat, p: nat, q: nat)
    requires start <= p <= q <= start + size <= a.Length
    ensures a[p..q] == a[start..start + size][p - start..q - start]
  {
    var s, t := a[p..q], a[start..start + size][p - start..q - start];
    assert forall k {:trigger s[k]} :: 0 <= k < q - p ==> s[k] == t[k];
  }

  /** The loops of poly_*_unpack, from an offset in a byte buffer. */
  method UnpackPoly(y: Layout, a: array<byte>, start: nat, c: array<int32>)
    requires c.Length == 256 && start + Size(y) <= a.Length && c as object != a
    modifies c
    ensures c[..] == Unpack(y, a[start..start + Size(y)], Groups(y))
  {
    hide Unpack, UnpackGroup, CoefficientsOf, Size, Groups, Total, Layout.Coeffs, Layout.Bytes;
    var n, o: nat, p: nat := Groups(y), 0, start;
    ghost var s: seq<byte>, done: seq<int> := a[start..start + Size(y)], [];
    assert s[0..] == s;
    for i := 0 to n
      invariant o + Total(n - i, y.Coeffs()) == 256
      invariant start <= p && p - start + Total(n - i, y.Bytes()) == Size(y)
      invariant c[..o] == done && Unpack(y, s, n) == done + Unpack(y, s[p - start..], n - i)
    {
      TotalStep(n - i, y.Coeffs());
      UnpackMore(y, s, p - start, done, n - i);
      var u, q := o + y.Coeffs(), p + y.Bytes();
      Within(a, start, Size(y), p, q);
      UnpackGroupInto(y, a[p..q], c, o);
      done := done + CoefficientsOf(y, UnpackGroup(y, s[p - start..q - start]));
      o, p := u, q;
    }
    Nothing(y);
    NoTotal(y.Coeffs());
    NoTotal(y.Bytes());
    assert s[Size(y)..] == [] && c[..] == c[..256];
  }

  lemma LegalFits(y: Layout, c: seq<int>)
    requires Legal(y, c)
    ensures forall i :: 0 <= i < |c| ==> -0x8_0000 <= c[i] <= 0x8_0000
  {
  }
}
