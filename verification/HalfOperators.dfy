/** What the arithmetic operators return, said of real numbers and bits alone. */
module HalfOperators {
  import opened Powers
  import opened BitOps
  import opened Rounding
  import opened Ieee
  import opened HalfConvert
  import opened DoubleRounding
  import opened HalfArith
  import opened HalfOrder

  const POSITIVE_INFINITY: Bits16 := 0x7c00
  const NEGATIVE_INFINITY: Bits16 := 0xfc00
  const CANONICAL_NAN: Bits16 := 0x7fff

  predicate IsInfinite(h: Bits16) {
    h == POSITIVE_INFINITY || h == NEGATIVE_INFINITY
  }

  /** Below zero as the code reads it: the negative zero is not. */
  predicate IsBelowZero(h: Bits16) {
    h > 0x8000
  }

  predicate IsZero(h: Bits16) {
    h == 0 || h == 0x8000
  }

  function InfinityOf(neg: bool): Bits16 {
    if neg then NEGATIVE_INFINITY else POSITIVE_INFINITY
  }

  // ----- the value of a half -----

  /** Section 3.4: a fraction in units of 2^-24, or a significand with its leading one scaled from there. */
  lemma FieldsValue(h: Bits16, e: nat, f: nat)
    requires IsFinite(h) && f < 0x400 && (if h >= 0x8000 then h - 0x8000 else h) == e * 0x400 + f
    ensures var n := if e == 0 then f else Scale(0x400 + f, e - 1);
      HalfReal(h) * 16777216.0 == if h >= 0x8000 then -(n as real) else n as real
  {
    hide *;
    HalfCode(e, f);
    HalfSigned(h, e * 0x400 + f);
    HalfUnits();
  }

  lemma HalfCode(e: nat, f: nat)
    requires f < 0x400
    ensures Mag(10, e * 0x400 + f) == if e == 0 then f else Scale(0x400 + f, e - 1)
  {
    assert Scale(1, 10) == 0x400 by { PowerLiterals(); }
    hide Mag, Scale;
    ScaleOne(e, 10);
    MagCode(10, e, f);
  }

  lemma HalfSigned(h: Bits16, m: nat)
    requires IsFinite(h) && m == if h >= 0x8000 then h - 0x8000 else h
    ensures HalfReal(h) * Quanta(BINARY16) == if h >= 0x8000 then -(Mag(10, m) as real) else Mag(10, m) as real
  {
    HalfRealQuanta(h);
    assert Mag(10, 0) == 0 by { MagSmall(10, 0); }
    hide Mag, HalfReal, Quanta;
  }

  lemma HalfUnits()
    ensures Quanta(BINARY16) == 16777216.0
  {
    PowerLiterals();
  }

  /** The same of a float, in units of 2^-149; with the largest exponent it is an infinity or a NaN. */
  lemma FloatValue(a: Bits32, e: nat, f: nat)
    requires f < 0x80_0000 && e < 0x100
    requires (if a >= 0x8000_0000 then a - 0x8000_0000 else a) == e * 0x80_0000 + f
    ensures var d, n := Decode(BINARY32, a), if e == 0 then f else Scale(0x80_0000 + f, e - 1);
      && (d.NaN? <==> e == 0xff && f > 0) && (d.Infinity? <==> e == 0xff && f == 0)
      && (!d.NaN? ==> d.neg == (a >= 0x8000_0000))
      && (d.Finite? ==> d.mag * Scale(1, 149) as real == n as real)
  {
    hide *;
    var m := e * 0x80_0000 + f;
    FloatCode(e, f);
    FloatKind(a, m);
    FloatQuanta(m);
  }

  lemma FloatCode(e: nat, f: nat)
    requires f < 0x80_0000
    ensures Mag(23, e * 0x80_0000 + f) == if e == 0 then f else Scale(0x80_0000 + f, e - 1)
  {
    assert Scale(1, 23) == 0x80_0000 by { PowerLiterals(); }
    hide Mag, Scale;
    ScaleOne(e, 23);
    MagCode(23, e, f);
  }

  lemma FloatKind(a: Bits32, m: nat)
    requires m == if a >= 0x8000_0000 then a - 0x8000_0000 else a
    ensures var d := Decode(BINARY32, a);
      && (d.NaN? <==> m > 0x7f80_0000) && (d.Infinity? <==> m == 0x7f80_0000)
      && (!d.NaN? ==> d.neg == (a >= 0x8000_0000))
      && (d.Finite? ==> d.mag == Value(BINARY32, m))
  {
    hide Value;
  }

  lemma FloatQuanta(m: nat)
    ensures Value(BINARY32, m) * Scale(1, 149) as real == Mag(23, m) as real
  {
    hide Mag, Scale;
    ValueQuanta(BINARY32, m);
  }

  // ----- rounding a real number -----

  /** No finite half is nearer to x, and h is even when another one is as near. */
  ghost predicate NearestTo(x: real, h: Bits16) {
    && IsFinite(h)
    && forall g: Bits16 :: IsFinite(g) ==> NoFarther(x, h, g)
  }

  predicate NoFarther(x: real, h: Bits16, g: Bits16)
    requires IsFinite(h) && IsFinite(g)
  {
    && Dist(x, HalfReal(h)) <= Dist(x, HalfReal(g))
    && (Dist(x, HalfReal(h)) == Dist(x, HalfReal(g)) && HalfReal(h) != HalfReal(g) ==> h % 2 == 0)
  }

  /** Section 4.3.1: the nearest half with this sign bit; from 65520 on, the infinity. */
  ghost predicate RoundsTo(x: real, neg: bool, h: Bits16) {
    && (neg <==> h >= 0x8000)
    && if -65520.0 < x < 65520.0 then NearestTo(x, h) else h == InfinityOf(neg)
  }

  lemma SignedRounds(neg: bool, mag: Magnitude)
    ensures RoundsTo(Apply(neg, mag), neg, Directly(Finite(neg, mag)))
  {
    hide Directly, HalfReal, Dist, Rne, HalfQuanta;
    var h := Directly(Finite(neg, mag));
    ApplyIs(neg, mag);
    if mag < 65520.0 {
      NearestHalf(neg, mag, 0);
      forall g: Bits16 | IsFinite(g) ensures NoFarther(Apply(neg, mag), h, g) {
        NearestHalf(neg, mag, g);
      }
    } else {
      OverflowQuanta(mag);
      DirectlyFinite(neg, mag);
    }
  }

  /** A real number rounds to the half that stands for it, of its sign; zero rounds to the positive zero. */
  lemma RealRounds(x: real)
    ensures RoundsTo(x, x < 0.0, Directly(FromReal(x)))
    ensures x == 0.0 ==> Directly(FromReal(x)) == 0
  {
    hide Directly, RoundsTo;
    SignedRounds(x < 0.0, if x < 0.0 then -x else x);
    ZeroStepwise(false);
  }

  /** RoundsTo leaves no choice. */
  lemma RoundsToOne(x: real, neg: bool, h: Bits16, k: Bits16)
    requires RoundsTo(x, neg, h) && RoundsTo(x, neg, k)
    ensures h == k
  {
    if -65520.0 < x < 65520.0 {
      assert NoFarther(x, h, k) && NoFarther(x, k, h);
      if HalfReal(h) == HalfReal(k) {
        SameReal(h, k);
      } else {
        Beside(x, h, k);
      }
    }
  }

  lemma SameReal(h: Bits16, k: Bits16)
    requires IsFinite(h) && IsFinite(k) && HalfReal(h) == HalfReal(k)
    ensures Key(h) == Key(k)
  {
    HalfRealOrder(h, k);
    HalfRealOrder(k, h);
    hide HalfReal;
  }

  /** Halves are ordered as their keys. */
  lemma HalfRealOrder(a: Bits16, b: Bits16)
    requires IsFinite(a) && IsFinite(b)
    ensures HalfReal(a) < HalfReal(b) <==> Key(a) < Key(b)
  {
    LessByKey(a, b);
    Kinds(a);
    Kinds(b);
    hide HalfDatum, Real;
  }

  lemma Middle(x: real, p: real, g: real, q: real)
    requires p < g < q || q < g < p
    requires Dist(x, p) == Dist(x, q)
    ensures Dist(x, g) < Dist(x, p)
  {
  }

  lemma SameSignOrder(a: Bits16, b: Bits16)
    requires IsFinite(a) && IsFinite(b) && (a >= 0x8000 <==> b >= 0x8000)
    ensures HalfReal(a) < HalfReal(b) <==> if a >= 0x8000 then b < a else a < b
  {
    HalfRealOrder(a, b);
    hide HalfReal;
  }

  lemma HalfBetween(h: Bits16, k: Bits16) returns (g: Bits16)
    requires IsFinite(h) && IsFinite(k) && (h >= 0x8000 <==> k >= 0x8000) && h != k && h % 2 == 0 && k % 2 == 0
    ensures IsFinite(g) && g % 2 == 1
    ensures HalfReal(h) < HalfReal(g) < HalfReal(k) || HalfReal(k) < HalfReal(g) < HalfReal(h)
  {
    g := if h < k then h + 1 else k + 1;
    assert g % 2 == 1 && (h < g < k || k < g < h);
    hide HalfReal;
    SameSignOrder(h, g);
    SameSignOrder(g, h);
    SameSignOrder(g, k);
    SameSignOrder(k, g);
  }

  /** Of two different halves of one sign only one is nearest: another one lies between them, or one is
      odd. */
  lemma Beside(x: real, h: Bits16, k: Bits16)
    requires IsFinite(h) && IsFinite(k) && (h >= 0x8000 <==> k >= 0x8000) && HalfReal(h) != HalfReal(k)
    ensures !(NearestTo(x, h) && NearestTo(x, k))
  {
    hide HalfReal, Dist;
    assert NearestTo(x, h) ==> NoFarther(x, h, k);
    assert NearestTo(x, k) ==> NoFarther(x, k, h);
    if h % 2 == 0 && k % 2 == 0 && Dist(x, HalfReal(h)) == Dist(x, HalfReal(k)) {
      var g := HalfBetween(h, k);
      Middle(x, HalfReal(h), HalfReal(g), HalfReal(k));
      assert NearestTo(x, h) ==> NoFarther(x, h, g);
    }
  }

  // ----- the conversions -----

  /** Narrowing a float: the nearest half by its real value, and infinities and NaNs by their bits. */
  lemma NarrowsTo(a: Bits32)
    ensures var d, r := Decode(BINARY32, a), Encode(BINARY16, Decode(BINARY32, a));
      && (d.NaN? ==> r == CANONICAL_NAN) && (d.Infinity? ==> r == InfinityOf(a >= 0x8000_0000))
      && (d.Finite? ==> RoundsTo(Real(d), a >= 0x8000_0000, r))
  {
    FloatKind(a, if a >= 0x8000_0000 then a - 0x8000_0000 else a);
    var d := Decode(BINARY32, a);
    hide RoundsTo, Decode;
    SpecialBits();
    if d.Finite? {
      SignedRounds(d.neg, d.mag);
      ApplyIs(d.neg, d.mag);
    }
    hide Encode;
  }

  /** Widening a half: the float of the same real number, and infinities and NaNs by their bits. */
  lemma WidensTo(h: Bits16, a: Bits32)
    requires Decode(BINARY32, a) == HalfDatum(h)
    ensures var d := Decode(BINARY32, a);
      && (d.NaN? <==> IsNaN(h)) && (d.Infinity? <==> IsInfinite(h)) && (d.Finite? <==> IsFinite(h))
      && (d.Infinity? ==> d.neg == (h == NEGATIVE_INFINITY))
      && (d.Finite? ==> Real(d) == HalfReal(h) && (d.neg <==> IsBelowZero(h)))
  {
    ReadAs(h);
    Kinds(h);
    hide Decode;
    if IsFinite(h) {
      ApplyIs(IsBelowZero(h), HalfDatum(h).mag);
    }
    hide HalfDatum, HalfReal, Apply;
  }

  // ----- sums and differences -----

  /** r is the rounded sum; an exact zero is positive. Infinities and NaNs as in section 6. */
  ghost predicate IsSum(a: Bits16, b: Bits16, r: Bits16) {
    if IsNaN(a) || IsNaN(b) then r == CANONICAL_NAN
    else if IsInfinite(a) && IsInfinite(b) then r == if a == b then a else CANONICAL_NAN
    else if IsInfinite(a) then r == a
    else if IsInfinite(b) then r == b
    else
      var sum := HalfReal(a) + HalfReal(b);
      RoundsTo(sum, sum < 0.0, r) && (sum == 0.0 ==> r == 0)
  }

  ghost predicate IsDifference(a: Bits16, b: Bits16, r: Bits16) {
    if IsNaN(a) || IsNaN(b) then r == CANONICAL_NAN
    else if IsInfinite(a) && IsInfinite(b) then r == if a == b then CANONICAL_NAN else a
    else if IsInfinite(a) then r == a
    else if IsInfinite(b) then r == InfinityOf(b == POSITIVE_INFINITY)
    else
      var difference := HalfReal(a) - HalfReal(b);
      RoundsTo(difference, difference < 0.0, r) && (difference == 0.0 ==> r == 0)
  }

  /** What the bits stand for, read by the code. */
  lemma ReadAs(h: Bits16)
    ensures IsNaN(h) ==> HalfDatum(h) == NaN
    ensures IsInfinite(h) ==> HalfDatum(h) == Infinity(h == NEGATIVE_INFINITY)
    ensures IsFinite(h) ==> HalfDatum(h).Finite? && HalfDatum(h).neg == IsBelowZero(h)
    ensures IsFinite(h) ==> HalfReal(h) == Apply(IsBelowZero(h), HalfDatum(h).mag)
    ensures IsFinite(h) ==> (HalfDatum(h).mag == 0.0 <==> IsZero(h))
    ensures IsNaN(h) || IsInfinite(h) || IsFinite(h)
  {
    Kinds(h);
    ValueZero(if Key(h) < 0 then -Key(h) else Key(h));
    hide Value;
  }

  lemma SpecialBits()
    ensures Directly(NaN) == CANONICAL_NAN
    ensures forall neg :: Directly(Infinity(neg)) == InfinityOf(neg)
  {
  }

  lemma FiniteSum(x: Datum, y: Datum)
    requires x.Finite? && y.Finite?
    ensures Real(x) + Real(y) != 0.0 ==> Plus(x, y) == FromReal(Real(x) + Real(y))
    ensures Real(x) + Real(y) == 0.0 ==> Plus(x, y) == Finite(x.neg && y.neg, 0.0)
    ensures Real(Negate(y)) == -Real(y)
  {
  }

  lemma HalfRealIs(h: Bits16)
    requires IsFinite(h)
    ensures HalfDatum(h).Finite? && HalfReal(h) == Real(HalfDatum(h))
    ensures HalfDatum(h).neg == IsBelowZero(h) && (HalfDatum(h).neg ==> HalfReal(h) < 0.0)
  {
    ReadAs(h);
    hide HalfDatum;
  }

  lemma FiniteSumIs(a: Bits16, b: Bits16)
    requires IsFinite(a) && IsFinite(b)
    ensures var sum := HalfReal(a) + HalfReal(b);
      var r := Directly(Plus(HalfDatum(a), HalfDatum(b)));
      RoundsTo(sum, sum < 0.0, r) && (sum == 0.0 ==> r == 0)
  {
    HalfRealIs(a);
    HalfRealIs(b);
    hide *;
    FiniteSum(HalfDatum(a), HalfDatum(b));
    RealRounds(HalfReal(a) + HalfReal(b));
    RealZero();
  }

  lemma FiniteDifferenceIs(a: Bits16, b: Bits16)
    requires IsFinite(a) && IsFinite(b)
    ensures var difference := HalfReal(a) - HalfReal(b);
      var r := Directly(Minus(HalfDatum(a), HalfDatum(b)));
      RoundsTo(difference, difference < 0.0, r) && (difference == 0.0 ==> r == 0)
  {
    HalfRealIs(a);
    HalfRealIs(b);
    MinusIs(HalfDatum(a), HalfDatum(b));
    hide *;
    FiniteSum(HalfDatum(a), HalfDatum(b));
    FiniteSum(HalfDatum(a), Negate(HalfDatum(b)));
    RealRounds(HalfReal(a) - HalfReal(b));
    RealZero();
  }

  lemma MinusIs(x: Datum, y: Datum)
    requires y.Finite?
    ensures Minus(x, y) == Plus(x, Negate(y)) && Negate(y) == Finite(!y.neg, y.mag)
  {
  }

  lemma RealZero()
    ensures FromReal(0.0) == Finite(false, 0.0)
  {
  }

  lemma SumIs(a: Bits16, b: Bits16)
    ensures IsSum(a, b, Directly(Plus(HalfDatum(a), HalfDatum(b))))
  {
    ReadAs(a);
    ReadAs(b);
    SpecialBits();
    hide Directly, HalfDatum, HalfReal, RoundsTo, Apply;
    if IsFinite(a) && IsFinite(b) {
      FiniteSumIs(a, b);
      hide Plus;
    }
  }

  lemma DifferenceIs(a: Bits16, b: Bits16)
    ensures IsDifference(a, b, Directly(Minus(HalfDatum(a), HalfDatum(b))))
  {
    ReadAs(a);
    ReadAs(b);
    SpecialBits();
    hide Directly, HalfDatum, HalfReal, RoundsTo, Apply;
    if IsFinite(a) && IsFinite(b) {
      FiniteDifferenceIs(a, b);
      hide Minus;
    }
  }

  // ----- products and quotients -----

  /** The result has the sign bit exactly when one operand, as the code reads it, is below zero. */
  predicate SignsDiffer(a: Bits16, b: Bits16) {
    IsBelowZero(a) != IsBelowZero(b)
  }

  ghost predicate IsProduct(a: Bits16, b: Bits16, r: Bits16) {
    if IsNaN(a) || IsNaN(b) then r == CANONICAL_NAN
    else if IsInfinite(a) || IsInfinite(b) then
      r == if IsZero(a) || IsZero(b) then CANONICAL_NAN else InfinityOf(SignsDiffer(a, b))
    else RoundsTo(HalfReal(a) * HalfReal(b), SignsDiffer(a, b), r)
  }

  ghost predicate IsQuotient(a: Bits16, b: Bits16, r: Bits16) {
    if IsNaN(a) || IsNaN(b) || (IsInfinite(a) && IsInfinite(b)) || (IsZero(a) && IsZero(b)) then r == CANONICAL_NAN
    else if IsInfinite(a) || IsZero(b) then r == InfinityOf(SignsDiffer(a, b))
    else if IsInfinite(b) then r == if SignsDiffer(a, b) then 0x8000 else 0
    else HalfReal(b) != 0.0 && RoundsTo(HalfReal(a) / HalfReal(b), SignsDiffer(a, b), r)
  }

  lemma ApplyProduct(p: bool, x: Magnitude, q: bool, y: Magnitude, u: real, v: real)
    requires u == Apply(p, x) && v == Apply(q, y)
    ensures u * v == Apply(p != q, Product(x, y))
  {
  }

  lemma ApplyQuotient(p: bool, x: real, q: bool, y: real)
    requires y != 0.0
    ensures Apply(q, y) != 0.0 && Apply(p, x) / Apply(q, y) == Apply(p != q, x / y)
  {
    var z := x / y;
    assert z * y == x;
    assert (-z) * y == -x && (-z) * (-y) == x && z * (-y) == -x;
  }

  lemma ProductIs(a: Bits16, b: Bits16)
    ensures IsProduct(a, b, Directly(Times(HalfDatum(a), HalfDatum(b))))
  {
    ReadAs(a);
    ReadAs(b);
    SpecialBits();
    hide Directly, HalfDatum, HalfReal, RoundsTo, Apply;
    if IsFinite(a) && IsFinite(b) {
      var x, y := HalfDatum(a).mag, HalfDatum(b).mag;
      ApplyProduct(IsBelowZero(a), x, IsBelowZero(b), y, HalfReal(a), HalfReal(b));
      SignedRounds(SignsDiffer(a, b), Product(x, y));
      assert Times(HalfDatum(a), HalfDatum(b)) == Finite(SignsDiffer(a, b), Product(x, y));
      assert HalfReal(a) * HalfReal(b) == Apply(SignsDiffer(a, b), Product(x, y));
    }
  }

  lemma QuotientIs(a: Bits16, b: Bits16)
    ensures IsQuotient(a, b, Directly(Over(HalfDatum(a), HalfDatum(b))))
  {
    ReadAs(a);
    ReadAs(b);
    SpecialBits();
    ZeroStepwise(true);
    ZeroStepwise(false);
    hide Directly, HalfDatum, HalfReal, RoundsTo, Apply;
    if IsFinite(a) && IsFinite(b) && !IsZero(b) {
      var x, y := HalfDatum(a).mag, HalfDatum(b).mag;
      ApplyQuotient(IsBelowZero(a), x, IsBelowZero(b), y);
      SignedRounds(SignsDiffer(a, b), Quotient(x, y));
    }
  }

  // ----- the operators -----

  /** operator+: the exact sum, rounded once to binary16. */
  method Add(a: Bits16, b: Bits16) returns (r: Bits16)
    ensures r == Directly(Plus(HalfDatum(a), HalfDatum(b))) && IsSum(a, b, r)
  {
    var x := ConvertHalfintToFloat(a);
    var y := ConvertHalfintToFloat(b);
    r := ConvertFloatToHalfint(FloatPlus(x, y));
    PlusRounded(a, b);
    SumIs(a, b);
    hide IsSum;
  }

  /** operator-: the exact difference, rounded once to binary16. */
  method Subtract(a: Bits16, b: Bits16) returns (r: Bits16)
    ensures r == Directly(Minus(HalfDatum(a), HalfDatum(b))) && IsDifference(a, b, r)
  {
    var x := ConvertHalfintToFloat(a);
    var y := ConvertHalfintToFloat(b);
    r := ConvertFloatToHalfint(FloatMinus(x, y));
    MinusRounded(a, b);
    DifferenceIs(a, b);
    hide IsDifference;
  }

  /** operator*: the exact product, rounded once to binary16. */
  method Multiply(a: Bits16, b: Bits16) returns (r: Bits16)
    ensures r == Directly(Times(HalfDatum(a), HalfDatum(b))) && IsProduct(a, b, r)
  {
    var x := ConvertHalfintToFloat(a);
    var y := ConvertHalfintToFloat(b);
    r := ConvertFloatToHalfint(FloatTimes(x, y));
    TimesRounded(a, b);
    ProductIs(a, b);
    hide IsProduct;
  }

  /** operator/: the exact quotient, rounded once to binary16. */
  method Divide(a: Bits16, b: Bits16) returns (r: Bits16)
    ensures r == Directly(Over(HalfDatum(a), HalfDatum(b))) && IsQuotient(a, b, r)
  {
    var x := ConvertHalfintToFloat(a);
    var y := ConvertHalfintToFloat(b);
    r := ConvertFloatToHalfint(FloatOver(x, y));
    OverRounded(a, b);
    QuotientIs(a, b);
    hide IsQuotient;
  }
}
