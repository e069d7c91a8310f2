/** Rounding to binary16 by way of binary32. Magnitudes are reals that count binary16 quanta. */
module DoubleRounding {
  import opened Powers
  import opened Rounding
  import opened Ieee
  import opened HalfConvert

  /** A magnitude in binary16 quanta. */
  function HalfQuanta(mag: Magnitude): Magnitude {
    mag * Quanta(BINARY16)
  }

  /** The same magnitude in binary32 quanta. */
  function Fine(v: Magnitude): Magnitude {
    v * Scale(1, 125) as real
  }

  /** The binary32 magnitude nearest v, in its own quanta. */
  function ViaFloat(v: Magnitude): nat {
    Mag(23, Rne(23, Fine(v)))
  }

  /** The binary16 encoding of the float nearest v. */
  function Twice(v: Magnitude): nat {
    Rne(10, Narrowed(ViaFloat(v)))
  }

  /** Twice the midpoint between encoding k and the next one. */
  function Mid(k: nat): nat {
    Mag(10, k) + Mag(10, k + 1)
  }

  /** The float nearest v is the midpoint after k, and v itself is on the side of the odd one of
      its two neighbours. */
  ghost predicate PulledOver(v: Magnitude, k: nat) {
    var y := Narrowed(ViaFloat(v));
    2.0 * y == Mid(k) as real && if k % 2 == 0 then v > y else v < y
  }

  // ----- the float step keeps v on its side of every number it can hold -----

  lemma FineOrder(v: Magnitude, n: nat)
    ensures v <= n as real <==> Fine(v) <= Scale(n, 125) as real
    ensures v >= n as real <==> Fine(v) >= Scale(n, 125) as real
  {
    hide Scale;
    var u := Scale(1, 125);
    ScaleOne(n, 125);
    RealTimes(n, u);
    RealCompare(v, n as real, u as real, Fine(v), Scale(n, 125) as real);
  }

  lemma RealCompare(x: real, y: real, u: real, xu: real, yu: real)
    requires u > 0.0 && xu == x * u && yu == y * u
    ensures x <= y <==> xu <= yu
    ensures x == y <==> xu == yu
  {
    assert (y - x) * u == yu - xu;
    if x < y {
      assert (y - x) * u > 0.0;
    } else if y < x {
      assert (x - y) * u > 0.0;
    }
  }

  /** n / 2 quanta of binary16 are a binary32 number when n has at most 24 significant bits. */
  lemma KeepsSide(v: Magnitude, n: nat, p: nat, s: nat)
    requires n == Scale(p, s) && p < 0x100_0000
    ensures 2.0 * v <= n as real ==> 2.0 * Narrowed(ViaFloat(v)) <= n as real
    ensures 2.0 * v >= n as real ==> 2.0 * Narrowed(ViaFloat(v)) >= n as real
  {
    hide Scale, Mag, Rne, Fine, Narrowed, Enc;
    var x, j := ViaFloat(v), Enc(23, p, s + 124);
    assert 2 * Scale(1, 23) == 0x100_0000 by { PowerLiterals(); }
    EncValue(23, p, s + 124);
    ScaleScale(p, s, 124);
    var w := Scale(n, 124);
    assert Mag(23, j) == w && Scale(n, 125) == 2 * w by { ScaleStep(n, 124); }
    RneExact(23, j);
    FineTwice(v);
    FineOrder(2.0 * v, n);
    if Fine(v) <= w as real {
      RneMono(23, Fine(v), w as real);
      MagMono(23, Rne(23, Fine(v)), j);
    }
    if Fine(v) >= w as real {
      RneMono(23, w as real, Fine(v));
      MagMono(23, j, Rne(23, Fine(v)));
    }
    NarrowedTwice(x);
    NarrowedOrder(x + x, n);
  }

  lemma ScaleStep(n: nat, s: nat)
    ensures Scale(n, s + 1) == 2 * Scale(n, s)
  {
  }

  lemma FineTwice(v: Magnitude)
    ensures Fine(2.0 * v) == 2.0 * Fine(v)
  {
    hide Scale;
  }

  lemma MagMono(t: nat, j: nat, k: nat)
    requires j <= k
    ensures Mag(t, j) <= Mag(t, k)
  {
    if j < k {
      MagStrict(t, j, k);
    }
  }

  lemma MidParts(k: nat) returns (c: nat, s: nat)
    ensures Mid(k) == Scale(2 * c + 1, s) && c < 0x800
  {
    hide Mag, Scale;
    c, s := MagParts(10, k);
    assert Scale(1, 10) == 0x400 by { PowerLiterals(); }
    ScaleSum(c, c + 1, s);
  }

  lemma MidOrder(j: nat, k: nat)
    requires j <= k
    ensures Mid(j) <= Mid(k) && (j < k ==> Mid(j) < Mid(k))
  {
    hide Mag;
    MagMono(10, j, k);
    MagMono(10, j + 1, k + 1);
    if j < k {
      MagStrict(10, j, k);
    }
  }

  lemma KeepsMid(v: Magnitude, k: nat)
    ensures 2.0 * v <= Mid(k) as real ==> 2.0 * Narrowed(ViaFloat(v)) <= Mid(k) as real
    ensures 2.0 * v >= Mid(k) as real ==> 2.0 * Narrowed(ViaFloat(v)) >= Mid(k) as real
  {
    var c, s := MidParts(k);
    KeepsSide(v, Mid(k), 2 * c + 1, s);
  }

  /** Rounding twice differs from rounding once exactly when the first step lands on a midpoint
      coming from the side of the odd neighbour. */
  lemma TwiceDiffers(v: Magnitude)
    ensures Twice(v) != Rne(10, v) ==> PulledOver(v, if Twice(v) < Rne(10, v) then Twice(v) else Rne(10, v))
  {
    hide Mag, Scale, Rne, Narrowed, ViaFloat;
    var a, b, y := Rne(10, v), Twice(v), Narrowed(ViaFloat(v));
    RneBetween(10, v);
    RneBetween(10, y);
    if a < b {
      KeepsMid(v, a);
      MidOrder(a, b - 1);
      assert 2.0 * y == Mid(a) as real;
    } else if b < a {
      KeepsMid(v, a - 1);
      MidOrder(b, a - 1);
      assert 2.0 * y == Mid(b) as real;
    }
  }

  lemma PulledApart(v: Magnitude, k: nat)
    requires PulledOver(v, k)
    ensures Twice(v) != Rne(10, v)
    ensures k == if Twice(v) < Rne(10, v) then Twice(v) else Rne(10, v)
  {
    hide Mag, Scale, Rne, Narrowed, ViaFloat;
    var a, b, y := Rne(10, v), Twice(v), Narrowed(ViaFloat(v));
    RneBetween(10, v);
    RneBetween(10, y);
    MagStrict(10, k, k + 1);
    RneSplit(10, y, k);
    if k % 2 == 0 {
      if a <= k {
        MidOrder(a, k);
      }
    } else {
      if a > k {
        MidOrder(k, a - 1);
      } else if a < k {
        KeepsMid(v, a);
        MidOrder(a, k);
      }
    }
  }

  // ----- sums, differences, products -----

  /** When binary32 holds v, the second rounding is the only one. */
  lemma HeldExactly(v: Magnitude, p: nat, s: nat)
    requires Fine(v) == Scale(p, s) as real && p < 0x100_0000
    ensures Narrowed(ViaFloat(v)) == v && Twice(v) == Rne(10, v)
  {
    hide Scale, Mag, Rne, Enc;
    var j, u := Enc(23, p, s), Scale(1, 125) as real;
    assert 2 * Scale(1, 23) == 0x100_0000 by { PowerLiterals(); }
    EncValue(23, p, s);
    RneExact(23, j);
    assert ViaFloat(v) == Scale(p, s);
    FineQuotient(v);
  }

  lemma FineQuotient(v: Magnitude)
    ensures Fine(v) / Scale(1, 125) as real == v
  {
    hide Scale;
    RealOrder(Fine(v), Scale(1, 125) as real, v);
  }

  /** A number of quanta that fits 24 bits is held exactly. */
  lemma QuantaHeld(n: nat, p: nat, s: nat)
    requires n == Scale(p, s) && p < 0x100_0000
    ensures Twice(n as real) == Rne(10, n as real)
  {
    hide Scale, Twice, Rne;
    ScaleScale(p, s, 125);
    FineOrder(n as real, n);
    HeldExactly(n as real, p, s + 125);
  }

  lemma QuarterUnits(m: nat, i: nat)
    requires i >= 2
    ensures Scale(m, i) == Scale(4 * m, i - 2)
  {
    ScaleScale(m, 2, i - 2);
    assert Scale(m, 2) == 2 * Scale(m, 1);
    ScaleOnce(m);
  }

  /** The gap below a number of exponent i, in quarters of its unit: two at a power of two. */
  lemma GapBelow(m: nat, i: nat)
    requires i >= 2 && 0x400 <= m < 0x800
    ensures Mag(10, i * 0x400 + m) == Scale(m, i)
    ensures Mag(10, i * 0x400 + m - 1) + (if m == 0x400 then 2 else 4) * Scale(1, i - 2) == Scale(m, i)
  {
    hide Scale, Mag;
    var q := Scale(1, i - 2);
    NormalParts(m, i);
    QuarterUnits(1, i);
    ScaleOne(4, i - 2);
    if m == 0x400 {
      NormalParts(0x7ff, i - 1);
      ScaleSum(0x7ff, 1, i - 1);
      ScaleScale(1, 1, i - 2);
      ScaleOnce(1);
      ScaleOne(2, i - 2);
      ScaleScale(0x400, 1, i - 1);
      ScaleOnce(0x400);
    } else {
      NormalParts(m - 1, i);
      ScaleSum(m - 1, 1, i);
    }
  }

  /** From a quarter of a unit below a number of exponent i to a quarter above it. */
  lemma NearBetween(m: nat, i: nat, x: real)
    requires i >= 2 && 0x400 <= m < 0x800
    requires (Scale(m, i) - Scale(1, i - 2)) as real <= x <= (Scale(m, i) + Scale(1, i - 2)) as real
    ensures Between(10, x, i * 0x400 + m)
  {
    hide Scale, Mag;
    GapBelow(m, i);
    NormalParts(m, i);
    ScaleSum(m, 1, i);
    QuarterUnits(1, i);
    ScaleOne(4, i - 2);
    assert m == 0x400 ==> (i * 0x400 + m) % 2 == 0;
  }

  /** Near a number of binary16 of exponent i, up to a quarter of its unit, all rounds to it,
      directly or by way of binary32. */
  lemma NearHalf(m: nat, i: nat, n: nat)
    requires i >= 2 && 0x400 <= m < 0x800
    requires Scale(m, i) - Scale(1, i - 2) <= n <= Scale(m, i) + Scale(1, i - 2)
    ensures Twice(n as real) == Rne(10, n as real)
  {
    hide Scale, Mag, Rne, Narrowed, ViaFloat, Between;
    var x, y: real := n as real, Narrowed(ViaFloat(n as real));
    var lo, hi := 4 * m - 1, 4 * m + 1;
    QuarterUnits(m, i);
    ScaleSum(lo, 1, i - 2);
    ScaleSum(4 * m, 1, i - 2);
    ScaleSum(lo, lo, i - 2);
    ScaleSum(hi, hi, i - 2);
    KeepsSide(x, Scale(lo + lo, i - 2), lo + lo, i - 2);
    KeepsSide(x, Scale(hi + hi, i - 2), hi + hi, i - 2);
    NearBetween(m, i, x);
    NearBetween(m, i, y);
    RneIs(10, x, i * 0x400 + m);
    RneIs(10, y, i * 0x400 + m);
  }

  lemma ExponentOrder(n: nat, b: nat, m: nat, a: nat)
    requires a < b && 0x400 <= n && m < 0x800
    ensures Scale(m, a) < Scale(n, b)
  {
    ScaleScale(n, b - a, a);
    assert Scale(n, b - a) == 2 * Scale(n, b - a - 1);
    hide Scale;
    ScaleMono(m, Scale(n, b - a), a);
  }

  lemma CloseExponents(m: nat, d: nat, n: nat, b: nat)
    requires m < 0x800 && n < 0x800 && d <= 12 && Scale(n, b) <= Scale(m, b + d)
    ensures Twice((Scale(n, b) + Scale(m, b + d)) as real) == Rne(10, (Scale(n, b) + Scale(m, b + d)) as real)
    ensures Twice((Scale(m, b + d) - Scale(n, b)) as real) == Rne(10, (Scale(m, b + d) - Scale(n, b)) as real)
  {
    hide Scale, Mag, Rne, Twice;
    var p := Scale(m, d);
    assert p < 0x80_0000 by {
      assert Scale(0x800, 12) == 0x80_0000 by { ScaleLiteral(); }
      ScaleMono(m, 0x800, 12);
      ScaleScale(m, d, 12 - d);
      assert p <= Scale(p, 12 - d);
    }
    ScaleScale(m, d, b);
    ScaleSum(n, p, b);
    QuantaHeld(Scale(n, b) + Scale(p, b), n + p, b);
    if n > p {
      ScaleMono(p, n, b);
    }
    ScaleSum(p - n, n, b);
    QuantaHeld(Scale(p, b) - Scale(n, b), p - n, b);
  }

  lemma ScaleLiteral()
    ensures Scale(0x800, 12) == 0x80_0000
  {
  }

  lemma FarExponents(m: nat, a: nat, n: nat, b: nat)
    requires 0x400 <= m < 0x800 && n < 0x800 && a >= b + 13
    ensures Scale(n, b) <= Scale(m, a)
    ensures Twice((Scale(n, b) + Scale(m, a)) as real) == Rne(10, (Scale(n, b) + Scale(m, a)) as real)
    ensures Twice((Scale(m, a) - Scale(n, b)) as real) == Rne(10, (Scale(m, a) - Scale(n, b)) as real)
  {
    hide Scale, Mag, Rne, Twice;
    assert Scale(1, 11) == 0x800 by { PowerLiterals(); ScaleNext(10); }
    ScaleMono(n, 0x800, b);
    ScaleScale(1, 11, b);
    ScaleGrows(11 + b, a - 2);
    ScaleGrows(a - 2, a);
    ScaleMono(m, 1, a);
    NearHalf(m, a, Scale(n, b) + Scale(m, a));
    NearHalf(m, a, Scale(m, a) - Scale(n, b));
  }

  lemma OrderedSum(j: nat, k: nat)
    requires j <= k
    ensures Mag(10, j) <= Mag(10, k)
    ensures Twice((Mag(10, j) + Mag(10, k)) as real) == Rne(10, (Mag(10, j) + Mag(10, k)) as real)
    ensures Twice((Mag(10, k) - Mag(10, j)) as real) == Rne(10, (Mag(10, k) - Mag(10, j)) as real)
  {
    hide Mag, Twice, Rne, Scale;
    MagMono(10, j, k);
    var n, b := MagParts(10, j);
    var m, a := MagParts(10, k);
    assert Scale(1, 10) == 0x400 by { PowerLiterals(); }
    if a < b {
      ExponentOrder(n, b, m, a);
    }
    if a - b <= 12 {
      CloseExponents(m, a - b, n, b);
    } else {
      FarExponents(m, a, n, b);
    }
  }

  /** A sum or a difference of two halves rounds as it would directly: binary32 holds it when the
      exponents are close, and the larger operand is the result either way when they are not. */
  lemma SumOnce(j: nat, k: nat)
    ensures Twice((Mag(10, j) + Mag(10, k)) as real) == Rne(10, (Mag(10, j) + Mag(10, k)) as real)
    ensures Mag(10, j) <= Mag(10, k) ==>
      Twice((Mag(10, k) - Mag(10, j)) as real) == Rne(10, (Mag(10, k) - Mag(10, j)) as real)
  {
    hide Mag, Twice, Rne;
    if j <= k {
      OrderedSum(j, k);
    } else {
      OrderedSum(k, j);
      MagStrict(10, k, j);
    }
  }

  function Mul(x: nat, y: nat): nat {
    x * y
  }

  lemma {:induction false} ScaledProduct(m: nat, a: nat, n: nat, b: nat)
    ensures Mul(Scale(m, a), Scale(n, b)) == Scale(Mul(m, n), a + b)
  {
    if a == 0 {
      ScaleTimes(n, m, b);
    } else {
      ScaledProduct(m, a - 1, n, b);
      Twofold(Scale(m, a - 1), Scale(n, b));
    }
  }

  lemma Twofold(x: nat, y: nat)
    ensures 2 * x * y == 2 * (x * y)
  {
  }

  lemma ProductBound(m: nat, n: nat)
    requires m < 0x800 && n < 0x1000
    ensures Mul(n, m) < 0x80_0000
  {
    MulMono(m, 0x7ff, n);
  }

  lemma MulMono(a: nat, b: nat, c: nat)
    requires a <= b
    ensures a * c <= b * c
  {
  }

  lemma MulReal(x: nat, y: nat)
    ensures Mul(x, y) as real == x as real * y as real
  {
    RealTimes(x, y);
  }

  function HalfProduct(j: nat, k: nat): Magnitude {
    HalfQuanta(Product(Value(BINARY16, j), Value(BINARY16, k)))
  }

  lemma HalfProductFine(j: nat, k: nat)
    ensures Fine(HalfProduct(j, k)) == Scale(Mul(Mag(10, j), Mag(10, k)), 101) as real
  {
    hide Mag, Scale, Mul;
    var x, y, q, r := Mag(10, j), Mag(10, k), Scale(1, 24), Scale(1, 101);
    ScaleScale(1, 24, 101);
    ScaleOne(q, 101);
    ScaleOne(Mul(x, y), 101);
    RealTimes(q, r);
    RealTimes(Mul(x, y), r);
    MulReal(x, y);
    FineProduct(x as real, y as real, q as real, r as real);
  }

  /** A product of two halves has 22 significant bits: binary32 holds it exactly, so that the second
      rounding is the only one. */
  lemma ProductOnce(j: nat, k: nat)
    ensures Narrowed(ViaFloat(HalfProduct(j, k))) == HalfProduct(j, k)
    ensures Twice(HalfProduct(j, k)) == Rne(10, HalfProduct(j, k))
  {
    hide Mag, Twice, Rne, Scale, HalfProduct, Mul, Narrowed, ViaFloat;
    var n, b := MagParts(10, j);
    var m, a := MagParts(10, k);
    assert 2 * Scale(1, 10) == 0x800 by { PowerLiterals(); }
    ProductBound(m, n);
    HalfProductFine(j, k);
    ScaledProduct(n, b, m, a);
    ScaleScale(Mul(n, m), b + a, 101);
    HeldExactly(HalfProduct(j, k), Mul(n, m), b + a + 101);
  }

  lemma FineProduct(x: real, y: real, q: real, r: real)
    requires q > 0.0
    ensures (x / q) * (y / q) * q * (q * r) == x * y * r
  {
    var a, b := x / q, y / q;
    assert a * q == x && b * q == y;
    assert a * b * q * (q * r) == (a * q) * (b * q) * r;
  }

  // ----- quotients -----

  /** Above 2^23 quanta the unit of binary32 is 2^-23 of the number at most. */
  lemma FloatUnit(k: nat) returns (u: nat)
    requires k >= 0x7f_ffff
    ensures Mag(23, k + 1) == Mag(23, k) + u
    ensures 0x80_0000 * u <= Mag(23, k + 1) && (k >= 0x80_0000 ==> 0x80_0000 * u <= Mag(23, k))
  {
    hide Mag, Scale;
    assert Scale(1, 23) == 0x80_0000 by { PowerLiterals(); }
    MagSmall(23, 0x80_0000);
    var c, s := MagParts(23, k);
    u := Scale(1, s);
    ScaleSum(c, 1, s);
    MagMono(23, 0x80_0000, k + 1);
    ScaleZero(c);
    ScaleZero(1);
    ScaleOne(0x80_0000, s);
    if k >= 0x80_0000 {
      MagMono(23, 0x80_0000, k);
      ScaleMono(c, 0x80_0000, s);
    }
  }

  /** The rounding error of a binary32 number that is not subnormal is 2^-24 of it at most. */
  lemma RelativeError(w: Magnitude, j: nat)
    requires j == Rne(23, w) && j >= 0x80_0000
    ensures 16777216.0 * (w - Mag(23, j) as real) <= Mag(23, j) as real
    ensures 16777216.0 * (Mag(23, j) as real - w) <= Mag(23, j) as real
  {
    hide Mag, Scale, Rne;
    RneBetween(23, w);
    var u := FloatUnit(j);
    var l := FloatUnit(j - 1);
  }

  /** p differs from q by 2^-24 of q at most. */
  predicate Close(p: nat, q: nat) {
    0x100_0000 * (p - q) <= q && 0x100_0000 * (q - p) <= q
  }

  lemma {:induction false} Unscale(p: nat, q: nat, s: nat)
    requires Close(Scale(p, s), Scale(q, s))
    ensures Close(p, q)
  {
    if s > 0 {
      Unscale(p, q, s - 1);
    }
  }

  lemma CloseSmall(p: nat, q: nat)
    requires Close(p, q) && (p < 0x80_0000 || q < 0x80_0000)
    ensures p == q
  {
  }

  /** Two numbers with few significant bits are equal or far apart. */
  lemma Gap(m: nat, a: nat, w: nat, b: nat)
    requires m < 0x800 && w < 0x80_0000
    requires Close(Scale(m, a), Scale(w, b))
    ensures Scale(m, a) == Scale(w, b)
  {
    hide Scale, Close;
    if a >= b {
      var p := Scale(m, a - b);
      ScaleScale(m, a - b, b);
      Unscale(p, w, b);
      CloseSmall(p, w);
    } else {
      var q := Scale(w, b - a);
      ScaleScale(w, b - a, a);
      Unscale(m, q, a);
      CloseSmall(m, q);
    }
  }

  function HalfQuotient(j: nat, k: nat): Magnitude
    requires Mag(10, k) != 0
  {
    ValuePositive(BINARY16, k);
    HalfQuanta(Quotient(Value(BINARY16, j), Value(BINARY16, k)))
  }

  /** The quotient, multiplied out. */
  lemma HalfQuotientFine(j: nat, k: nat)
    requires Mag(10, k) != 0
    ensures Fine(HalfQuotient(j, k)) * Mag(10, k) as real == Scale(Mag(10, j), 149) as real
  {
    hide Mag, Scale;
    ValuePositive(BINARY16, k);
    var x, y, q, r := Mag(10, j), Mag(10, k), Scale(1, 24), Scale(1, 125);
    ScaleScale(1, 24, 125);
    ScaleOne(q, 125);
    ScaleOne(x, 149);
    RealTimes(q, r);
    RealTimes(x, q * r);
    QuotientReal(x as real, y as real, q as real, r as real);
  }

  lemma QuotientReal(x: real, y: real, q: real, r: real)
    requires q > 0.0 && y > 0.0
    ensures y / q > 0.0
    ensures ((x / q) / (y / q) * q * r) * y == x * (q * r)
  {
    var a, b := x / q, y / q;
    assert a * q == x && b * q == y;
    assert b > 0.0;
    var c := a / b;
    assert c * b == a;
    assert c * y == x by { assert (c * b) * q == c * (b * q); }
    assert (c * q * r) * y == (c * y) * (q * r);
  }

  lemma LargeEncoding(e: nat, n: nat)
    requires Mag(23, e) == Scale(n, 124) && n > 0
    ensures e >= 0x80_0000
  {
    hide Mag, Scale;
    assert Scale(1, 23) == 0x80_0000 by { PowerLiterals(); }
    ScaleAtLeast(n, 124);
    ScaleGrows(23, 124);
    if e < 0x80_0000 {
      MagSmall(23, e);
    }
  }

  /** A relative error, multiplied out by the divisor. */
  lemma ErrorTimes(f: real, x: nat, y: nat, p: nat)
    requires y > 0 && f * y as real == p as real
    requires 16777216.0 * (f - x as real) <= x as real && 16777216.0 * (x as real - f) <= x as real
    ensures Close(p, Mul(x, y))
    ensures p == Mul(x, y) ==> f == x as real
  {
    MulReal(x, y);
    hide Mul;
    ErrorTimesReal(f, x as real, y as real, p as real, Mul(x, y) as real);
  }

  lemma ErrorTimesReal(f: real, x: real, y: real, fy: real, xy: real)
    requires y > 0.0 && fy == f * y && xy == x * y
    requires 16777216.0 * (f - x) <= x && 16777216.0 * (x - f) <= x
    ensures 16777216.0 * (fy - xy) <= xy && 16777216.0 * (xy - fy) <= xy
    ensures fy == xy ==> f == x
  {
    assert (x - 16777216.0 * (f - x)) * y >= 0.0;
    assert (x - 16777216.0 * (x - f)) * y >= 0.0;
    assert (f - x) * y == fy - xy;
  }

  /** A quotient with a relative error too small for the significands involved has none. */
  lemma QuotientExact(j: nat, k: nat, h: nat, x: nat, f: real)
    requires Mag(10, k) != 0 && x == Scale(Mid(h), 124)
    requires f * Mag(10, k) as real == Scale(Mag(10, j), 149) as real
    requires 16777216.0 * (f - x as real) <= x as real && 16777216.0 * (x as real - f) <= x as real
    ensures f == x as real
  {
    hide Mag, Scale, Mid, Mul;
    var y := Mag(10, k);
    var m, a := MagParts(10, j);
    var n, b := MagParts(10, k);
    var c, s := MidParts(h);
    var o, t := 2 * c + 1, s + 124;
    var w := Mul(o, n);
    assert 2 * Scale(1, 10) == 0x800 by { PowerLiterals(); }
    assert Mul(x, y) == Scale(w, t + b) by {
      ScaleScale(o, s, 124);
      ScaledProduct(o, t, n, b);
    }
    assert Scale(Mag(10, j), 149) == Scale(m, a + 149) by { ScaleScale(m, a, 149); }
    assert w < 0x80_0000 by { ProductBound(n, o); }
    ErrorTimes(f, x, y, Scale(Mag(10, j), 149));
    Gap(m, a + 149, w, t + b);
  }

  /** If the float nearest a quotient of two halves is a midpoint, it is the quotient. */
  lemma QuotientAtMidpoint(j: nat, k: nat, h: nat)
    requires Mag(10, k) != 0
    requires 2.0 * Narrowed(ViaFloat(HalfQuotient(j, k))) == Mid(h) as real
    ensures HalfQuotient(j, k) == Narrowed(ViaFloat(HalfQuotient(j, k)))
  {
    hide Mag, Scale, Rne, HalfQuotient, Fine, Mid, Narrowed;
    var v := HalfQuotient(j, k);
    var e := Rne(23, Fine(v));
    var x := Mag(23, e);
    NarrowedTwice(x);
    NarrowedOrder(x + x, Mid(h));
    ScaleStep(Mid(h), 124);
    MidPositive(h);
    LargeEncoding(e, Mid(h));
    RelativeError(Fine(v), e);
    HalfQuotientFine(j, k);
    QuotientExact(j, k, h, x, Fine(v));
    FineQuotient(v);
    NarrowedIs(x);
  }

  lemma MidPositive(h: nat)
    ensures Mid(h) > 0
  {
    hide Mag;
    MagStrict(10, h, h + 1);
  }

  lemma NarrowedIs(x: nat)
    ensures Narrowed(x) == x as real / Scale(1, 125) as real
  {
  }

  /** A quotient of two halves is a midpoint or far enough from every midpoint. */
  lemma QuotientOnce(j: nat, k: nat)
    requires Mag(10, k) != 0
    ensures Twice(HalfQuotient(j, k)) == Rne(10, HalfQuotient(j, k))
  {
    hide Mag, Twice, Rne, HalfQuotient, ViaFloat, Narrowed;
    var v := HalfQuotient(j, k);
    if Twice(v) != Rne(10, v) {
      TwiceDiffers(v);
      QuotientAtMidpoint(j, k, if Twice(v) < Rne(10, v) then Twice(v) else Rne(10, v));
    }
  }
}
