/** The operators of Half. Each widens its operands to float, lets the hardware compute and round
    in binary32, and narrows the result; each is proved to be one correctly rounded operation. */
module HalfArith {
  import opened Powers
  import opened BitOps
  import opened Rounding
  import opened Ieee
  import opened HalfConvert
  import opened DoubleRounding

  // ----- the hardware's binary32 operations -----

  function FloatPlus(x: Bits32, y: Bits32): Bits32 {
    Encode(BINARY32, Plus(Decode(BINARY32, x), Decode(BINARY32, y)))
  }

  function FloatMinus(x: Bits32, y: Bits32): Bits32 {
    Encode(BINARY32, Minus(Decode(BINARY32, x), Decode(BINARY32, y)))
  }

  function FloatTimes(x: Bits32, y: Bits32): Bits32 {
    Encode(BINARY32, Times(Decode(BINARY32, x), Decode(BINARY32, y)))
  }

  function FloatOver(x: Bits32, y: Bits32): Bits32 {
    Encode(BINARY32, Over(Decode(BINARY32, x), Decode(BINARY32, y)))
  }

  function FloatNegate(x: Bits32): Bits32 {
    Encode(BINARY32, Negate(Decode(BINARY32, x)))
  }

  predicate FloatLess(x: Bits32, y: Bits32) {
    Less(Decode(BINARY32, x), Decode(BINARY32, y))
  }

  // ----- rounding a datum by way of binary32 -----

  /** Half{float}, for the float nearest d. */
  function Stepwise(d: Datum): Bits16 {
    Encode(BINARY16, Decode(BINARY32, Encode(BINARY32, d)))
  }

  function Directly(d: Datum): Bits16 {
    Encode(BINARY16, d)
  }

  function Clip(k: nat): nat {
    if k > 0x7c00 then 0x7c00 else k
  }

  lemma FloatQuanta(mag: Magnitude)
    ensures mag * Quanta(BINARY32) == Fine(HalfQuanta(mag))
  {
    hide Scale;
    var a, b := Scale(1, 24), Scale(1, 125);
    ScaleScale(1, 24, 125);
    ScaleOne(a, 125);
    RealTimes(a, b);
    RealAssociate(mag, a as real, b as real);
  }

  lemma RealAssociate(x: real, a: real, b: real)
    ensures x * (a * b) == (x * a) * b
  {
  }

  lemma NarrowedMono(x: nat, y: nat)
    requires x <= y
    ensures Narrowed(x) <= Narrowed(y)
  {
    hide Scale;
    var u := Scale(1, 125) as real;
    RealDivMono(x as real, y as real, u);
  }

  lemma RealDivMono(x: real, y: real, u: real)
    requires u > 0.0 && x <= y
    ensures x / u <= y / u
  {
    RealOrder(x, u, y / u);
    assert y / u * u == y;
    RealOrder(y, u, x / u);
    assert x / u * u == x;
  }

  lemma DirectlyFinite(neg: bool, mag: Magnitude)
    ensures Directly(Finite(neg, mag)) == SignBit(neg) + Clip(Rne(10, HalfQuanta(mag)))
  {
    hide Scale, Rne;
    assert Round(BINARY16, mag) == Rne(10, HalfQuanta(mag));
  }

  lemma FloatFinite(neg: bool, mag: Magnitude)
    ensures var j := Rne(23, Fine(HalfQuanta(mag)));
      Decode(BINARY32, Encode(BINARY32, Finite(neg, mag)))
        == if j < 0x7f80_0000 then Finite(neg, Value(BINARY32, j)) else Infinity(neg)
  {
    hide Scale, Rne, Fine, Value;
    FloatQuanta(mag);
    assert Round(BINARY32, mag) == Rne(23, Fine(HalfQuanta(mag)));
  }

  lemma HugeTwice(v: Magnitude)
    requires Rne(23, Fine(v)) >= 0x7f80_0000
    ensures Twice(v) >= 0x7c00
  {
    hide Mag, Rne, Narrowed, Fine;
    var big := Mag(23, 255 * 0x80_0000);
    MagMono(23, 255 * 0x80_0000, Rne(23, Fine(v)));
    NarrowHuge(255, 0);
    NarrowedMono(big, ViaFloat(v));
    RneMono(10, Narrowed(big), Narrowed(ViaFloat(v)));
  }

  /** A finite datum, by way of binary32: an overflow there is one here. */
  lemma StepwiseFinite(neg: bool, mag: Magnitude)
    ensures Stepwise(Finite(neg, mag)) == SignBit(neg) + Clip(Twice(HalfQuanta(mag)))
  {
    hide Mag, Rne, Narrowed, Fine, Value, HalfQuanta, Encode, Decode;
    var v := HalfQuanta(mag);
    var j := Rne(23, Fine(v));
    FloatFinite(neg, mag);
    if j < 0x7f80_0000 {
      DirectlyFinite(neg, Value(BINARY32, j));
      NarrowedValue(j);
      assert HalfQuanta(Value(BINARY32, j)) == Value(BINARY32, j) * Quanta(BINARY16) by {
        HalfQuantaIs(Value(BINARY32, j));
      }
    } else {
      HugeTwice(v);
      DirectlyInfinite(neg);
    }
  }

  lemma HalfQuantaIs(mag: Magnitude)
    ensures HalfQuanta(mag) == mag * Quanta(BINARY16)
  {
  }

  lemma DirectlyInfinite(neg: bool)
    ensures Directly(Infinity(neg)) == SignBit(neg) + 0x7c00
  {
  }

  lemma StepwiseSpecial(d: Datum)
    requires !d.Finite?
    ensures Stepwise(d) == Directly(d)
  {
  }

  /** The same number of quanta rounds the same, whatever the sign. */
  lemma Once(neg: bool, mag: Magnitude)
    requires Twice(HalfQuanta(mag)) == Rne(10, HalfQuanta(mag))
    ensures Stepwise(Finite(neg, mag)) == Directly(Finite(neg, mag))
  {
    hide Stepwise, Directly, Twice, Rne, HalfQuanta;
    StepwiseFinite(neg, mag);
    DirectlyFinite(neg, mag);
  }

  // ----- each operation rounds once -----

  /** The encoding of a finite half, its sign bit aside. */
  lemma HalfParts(h: Bits16) returns (m: nat)
    requires HalfDatum(h).Finite?
    ensures m < 0x7c00 && HalfDatum(h).mag == Value(BINARY16, m)
  {
    hide Value;
    m := if h >= 0x8000 then h - 0x8000 else h;
  }

  lemma SumQuanta(j: nat, k: nat)
    ensures (Value(BINARY16, j) + Value(BINARY16, k)) * Quanta(BINARY16) == (Mag(10, j) + Mag(10, k)) as real
    ensures (Value(BINARY16, k) - Value(BINARY16, j)) * Quanta(BINARY16) == Mag(10, k) as real - Mag(10, j) as real
  {
    hide Mag, Scale;
    RealSum(Mag(10, j) as real, Mag(10, k) as real, Quanta(BINARY16));
  }

  lemma RealSum(x: real, y: real, q: real)
    requires q > 0.0
    ensures (x / q + y / q) * q == x + y && (y / q - x / q) * q == y - x
  {
    var a, b := x / q, y / q;
    assert a * q == x && b * q == y;
  }

  /** Magnitudes add when the signs are the same, and else the smaller is taken from the larger. */
  lemma PlusMag(x: Datum, y: Datum)
    requires x.Finite? && y.Finite?
    ensures Plus(x, y).Finite?
    ensures Plus(x, y).mag
      == if x.neg == y.neg then x.mag + y.mag else if x.mag <= y.mag then y.mag - x.mag else x.mag - y.mag
  {
  }

  lemma QuantaOrder(a: real, b: real, q: real)
    requires q > 0.0
    ensures a <= b <==> a * q <= b * q
  {
    if a < b {
      assert (b - a) * q > 0.0;
    } else if b < a {
      assert (a - b) * q > 0.0;
    }
  }

  /** The exact sum of two halves counts the sum or the difference of their quanta. */
  lemma PlusQuanta(x: Datum, y: Datum, j: nat, k: nat)
    requires x.Finite? && y.Finite? && x.mag == Value(BINARY16, j) && y.mag == Value(BINARY16, k)
    ensures Plus(x, y).Finite?
    ensures var n := HalfQuanta(Plus(x, y).mag);
      n == if x.neg == y.neg then (Mag(10, j) + Mag(10, k)) as real
           else if Mag(10, j) <= Mag(10, k) then (Mag(10, k) - Mag(10, j)) as real
           else (Mag(10, j) - Mag(10, k)) as real
  {
    hide *;
    PlusMag(x, y);
    SumQuanta(j, k);
    SumQuanta(k, j);
    ValueQuanta(BINARY16, j);
    ValueQuanta(BINARY16, k);
    QuantaOrder(x.mag, y.mag, Quanta(BINARY16));
    HalfQuantaIs(Plus(x, y).mag);
  }

  lemma PlusOnce(x: Datum, y: Datum, j: nat, k: nat)
    requires x.Finite? && y.Finite? && x.mag == Value(BINARY16, j) && y.mag == Value(BINARY16, k)
    ensures Stepwise(Plus(x, y)) == Directly(Plus(x, y))
  {
    hide Stepwise, Directly, Value, Mag, Twice, Rne, HalfQuanta, Plus;
    PlusQuanta(x, y, j, k);
    SumOnce(j, k);
    SumOnce(k, j);
    var d := Plus(x, y);
    Once(d.neg, d.mag);
  }

  /** Addition of two halves is one correctly rounded addition. */
  lemma PlusRounded(a: Bits16, b: Bits16)
    ensures Stepwise(Plus(HalfDatum(a), HalfDatum(b))) == Directly(Plus(HalfDatum(a), HalfDatum(b)))
  {
    hide Stepwise, Directly, Value, HalfDatum;
    var x, y := HalfDatum(a), HalfDatum(b);
    if x.Finite? && y.Finite? {
      var j := HalfParts(a);
      var k := HalfParts(b);
      PlusOnce(x, y, j, k);
    } else {
      StepwiseSpecial(Plus(x, y));
    }
  }

  lemma MinusRounded(a: Bits16, b: Bits16)
    ensures Stepwise(Minus(HalfDatum(a), HalfDatum(b))) == Directly(Minus(HalfDatum(a), HalfDatum(b)))
  {
    hide Stepwise, Directly, Value, HalfDatum;
    var x, y := HalfDatum(a), HalfDatum(b);
    if x.Finite? && y.Finite? {
      var j := HalfParts(a);
      var k := HalfParts(b);
      PlusOnce(x, Negate(y), j, k);
    } else {
      StepwiseSpecial(Minus(x, y));
    }
  }

  lemma TimesRounded(a: Bits16, b: Bits16)
    ensures Stepwise(Times(HalfDatum(a), HalfDatum(b))) == Directly(Times(HalfDatum(a), HalfDatum(b)))
  {
    hide Stepwise, Directly, Value, HalfDatum, Product, Twice, Rne, HalfQuanta;
    var x, y := HalfDatum(a), HalfDatum(b);
    if x.Finite? && y.Finite? {
      var j := HalfParts(a);
      var k := HalfParts(b);
      ProductOnce(j, k);
      Once(x.neg != y.neg, Product(x.mag, y.mag));
    } else {
      StepwiseSpecial(Times(x, y));
    }
  }

  lemma OverRounded(a: Bits16, b: Bits16)
    ensures Stepwise(Over(HalfDatum(a), HalfDatum(b))) == Directly(Over(HalfDatum(a), HalfDatum(b)))
  {
    hide Stepwise, Directly, Value, HalfDatum, Quotient, Twice, Rne, Mag, HalfQuanta;
    var x, y := HalfDatum(a), HalfDatum(b);
    if x.Finite? && y.Finite? {
      if y.mag != 0.0 {
        var j := HalfParts(a);
        var k := HalfParts(b);
        ValuePositive(BINARY16, k);
        QuotientOnce(j, k);
        Once(x.neg != y.neg, Quotient(x.mag, y.mag));
      } else {
        StepwiseSpecial(Over(x, y));
      }
    } else if x.Finite? && y.Infinity? {
      ZeroStepwise(x.neg != y.neg);
    } else {
      StepwiseSpecial(Over(x, y));
    }
  }

  lemma ZeroStepwise(neg: bool)
    ensures Stepwise(Finite(neg, 0.0)) == Directly(Finite(neg, 0.0)) == SignBit(neg)
  {
    hide Stepwise, Directly, Rne, Mag, Narrowed;
    assert Mag(23, 0) == 0 && Mag(10, 0) == 0 by { MagSmall(23, 0); MagSmall(10, 0); }
    RneExact(23, 0);
    RneExact(10, 0);
    NarrowedOrder(0, 0);
    ScaleOne(0, 125);
    StepwiseFinite(neg, 0.0);
    DirectlyFinite(neg, 0.0);
  }
}
