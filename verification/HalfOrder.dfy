/** What the encodings of Half mean as numbers: order, rounding to nearest, round trips. */
module HalfOrder {
  import opened Powers
  import opened BitOps
  import opened Rounding
  import opened Ieee
  import opened HalfConvert
  import opened DoubleRounding
  import opened HalfArith

  predicate IsNaN(h: Bits16) {
    h > 0xfc00 || 0x7c00 < h < 0x8000
  }

  predicate IsFinite(h: Bits16) {
    h < 0x7c00 || 0x8000 <= h < 0xfc00
  }

  /** The magnitude bits, negated under a sign bit. */
  function Key(h: Bits16): int {
    if h >= 0x8000 then 0x8000 - h else h
  }

  lemma Kinds(h: Bits16)
    ensures HalfDatum(h).NaN? <==> IsNaN(h)
    ensures HalfDatum(h).Finite? <==> IsFinite(h)
    ensures IsFinite(h) ==>
      HalfDatum(h).mag == Value(BINARY16, if Key(h) < 0 then -Key(h) else Key(h))
    ensures IsFinite(h) ==> HalfDatum(h).neg == (Key(h) < 0)
    ensures HalfDatum(h).Infinity? ==> Key(h) == if HalfDatum(h).neg then -0x7c00 else 0x7c00
  {
    hide Value;
    var m := if Key(h) < 0 then -Key(h) else Key(h);
    assert IsFinite(h) ==> (Value(BINARY16, m) == 0.0 <==> m == 0) by { ValueZero(m); }
  }

  lemma ValueZero(m: nat)
    ensures Value(BINARY16, m) == 0.0 <==> m == 0
  {
    hide Mag, Value;
    ValuePositive(BINARY16, m);
    MagSmall(10, 0);
    if m > 0 {
      MagStrict(10, 0, m);
    }
  }

  lemma ValueMono(j: nat, k: nat)
    ensures j < k <==> Value(BINARY16, j) < Value(BINARY16, k)
  {
    hide Mag, Scale;
    ValueQuanta(BINARY16, j);
    ValueQuanta(BINARY16, k);
    if j < k {
      MagStrict(10, j, k);
    } else if k < j {
      MagStrict(10, k, j);
    }
    var q := Quanta(BINARY16);
    RealCompare(Value(BINARY16, j), Value(BINARY16, k), q, Value(BINARY16, j) * q, Value(BINARY16, k) * q);
  }

  /** Numbers compare as their keys do; in particular the two zeros are equal. */
  lemma LessByKey(a: Bits16, b: Bits16)
    ensures Less(HalfDatum(a), HalfDatum(b)) <==> !IsNaN(a) && !IsNaN(b) && Key(a) < Key(b)
  {
    hide Value, HalfDatum;
    Kinds(a);
    Kinds(b);
    var j := if Key(a) < 0 then -Key(a) else Key(a);
    var k := if Key(b) < 0 then -Key(b) else Key(b);
    ValueMono(j, k);
    ValueMono(k, j);
    ValueZero(j);
    ValueZero(k);
  }

  /** operator< */
  method LessThan(a: Bits16, b: Bits16) returns (r: bool)
    ensures r <==> !IsNaN(a) && !IsNaN(b) && Key(a) < Key(b)
  {
    var x := ConvertHalfintToFloat(a);
    var y := ConvertHalfintToFloat(b);
    r := FloatLess(x, y);
    LessByKey(a, b);
  }

  /** operator<=, the negation of the swapped operator<: true whenever a NaN is involved. */
  method LessOrEqual(a: Bits16, b: Bits16) returns (r: bool)
    ensures r <==> IsNaN(a) || IsNaN(b) || Key(a) <= Key(b)
  {
    var s := LessThan(b, a);
    r := !s;
  }

  /** operator> */
  method GreaterThan(a: Bits16, b: Bits16) returns (r: bool)
    ensures r <==> !IsNaN(a) && !IsNaN(b) && Key(a) > Key(b)
  {
    r := LessThan(b, a);
  }

  /** operator>=, with the same consequence for NaNs. */
  method GreaterOrEqual(a: Bits16, b: Bits16) returns (r: bool)
    ensures r <==> IsNaN(a) || IsNaN(b) || Key(a) >= Key(b)
  {
    var s := LessThan(a, b);
    r := !s;
  }

  /** operator== compares bits, so halves that differ can be neither less nor greater: exactly when
      one is a NaN or they are the two zeros. */
  lemma EqualityGap(a: Bits16, b: Bits16)
    requires a != b
    ensures !Less(HalfDatum(a), HalfDatum(b)) && !Less(HalfDatum(b), HalfDatum(a))
      <==> IsNaN(a) || IsNaN(b) || Key(a) == 0 == Key(b)
  {
    LessByKey(a, b);
    LessByKey(b, a);
  }

  /** Widening and narrowing again is the identity but for -0 and NaNs. */
  lemma RoundTrip(h: Bits16)
    ensures Directly(HalfDatum(h)) == if IsNaN(h) then 0x7fff else if h == 0x8000 then 0 else h
  {
    hide Value, Encode, Rne;
    EncodeDecode(BINARY16, h);
    EncodeDecode(BINARY16, 0);
    ValueZero(if h >= 0x8000 then h - 0x8000 else h);
    ValueZero(0);
    assert h == 0x8000 ==> HalfDatum(h) == Decode(BINARY16, 0);
  }

  // ----- rounding, as numbers -----

  /** The largest finite half, 65504, and half a unit above it. */
  const OVERFLOW: real := 65520.0

  lemma TopMid()
    ensures Mid(0x7bff) == 131040 * 0x100_0000
  {
    assert Scale(1, 29) == 0x2000_0000 && Scale(1, 40) == 0x100_0000_0000 by { Literals(); }
    hide Mag, Scale;
    InfinityMag();
    NormalParts(0x7ff, 29);
    ScaleOne(0x7ff, 29);
  }

  lemma Literals()
    ensures Scale(1, 29) == 0x2000_0000 && Scale(1, 40) == 0x100_0000_0000
  {
    PowerLiterals();
    hide Scale;
    ScaleScale(1, 24, 5);
    ScaleOne(0x100_0000, 5);
    ScaleScale(1, 24, 16);
    ScaleOne(0x100_0000, 16);
  }

  /** Rounding overflows from half a unit above the largest finite half on (section 4.3.1). */
  lemma OverflowQuanta(x: Magnitude)
    ensures x < OVERFLOW <==> Rne(10, HalfQuanta(x)) < 0x7c00
  {
    assert Scale(1, 24) == 0x100_0000 by { PowerLiterals(); }
    hide Mag, Scale, Rne, Mid;
    TopMid();
    var k := Rne(10, HalfQuanta(x));
    assert HalfQuanta(x) == x * 16777216.0;
    hide HalfQuanta;
    BetweenMids(HalfQuanta(x), k);
    if k < 0x7c00 {
      MidOrder(k, 0x7bff);
    } else {
      MidOrder(0x7bff, k - 1);
    }
  }

  lemma BetweenMids(v: Magnitude, k: nat)
    requires k == Rne(10, v)
    ensures 2.0 * v <= Mid(k) as real && (2.0 * v == Mid(k) as real ==> k % 2 == 0)
    ensures k > 0 ==> Mid(k - 1) as real <= 2.0 * v
  {
    RneBetween(10, v);
    hide Mag, Rne;
  }

  /** The real number a finite half stands for. */
  function HalfReal(h: Bits16): real
    requires IsFinite(h)
  {
    Kinds(h);
    Real(HalfDatum(h))
  }

  lemma HalfRealQuanta(h: Bits16)
    requires IsFinite(h)
    ensures HalfReal(h) * Quanta(BINARY16)
      == if Key(h) < 0 then -(Mag(10, -Key(h)) as real) else Mag(10, Key(h)) as real
  {
    hide Mag, Scale, Value, HalfDatum;
    Kinds(h);
    var m := if Key(h) < 0 then -Key(h) else Key(h);
    ValueQuanta(BINARY16, m);
    NegatedTimes(Value(BINARY16, m), Quanta(BINARY16));
  }

  lemma NegatedTimes(x: real, q: real)
    ensures (-x) * q == -(x * q)
  {
  }

  lemma DistTimes(x: real, y: real, q: real, xq: real, yq: real)
    requires q > 0.0 && xq == x * q && yq == y * q
    ensures Dist(x, y) * q == Dist(xq, yq)
  {
    RealCompare(x, y, q, xq, yq);
    assert (y - x) * q == y * q - x * q;
  }

  function Apply(neg: bool, x: real): real {
    if neg then -x else x
  }

  /** Nearest among magnitudes is nearest among signed numbers. */
  lemma SignedNearest(neg: bool, w: Magnitude, k: nat, sign: bool, m: nat)
    requires k == Rne(10, w)
    ensures var a, b := Apply(neg, Mag(10, k) as real), Apply(sign, Mag(10, m) as real);
      && Dist(Apply(neg, w), a) <= Dist(Apply(neg, w), b)
      && (Dist(Apply(neg, w), a) == Dist(Apply(neg, w), b) && a != b ==> k % 2 == 0)
  {
    RneNearest(10, w, k);
    hide Mag, Rne;
    var x, y := Mag(10, k) as real, Mag(10, m) as real;
    assert Dist(w, x) <= Dist(w, y) && (Dist(w, x) == Dist(w, y) && m != k ==> k % 2 == 0);
    assert Dist(w, x) <= Dist(w, Mag(10, 0) as real)
      && (Dist(w, x) == Dist(w, Mag(10, 0) as real) && 0 != k ==> k % 2 == 0);
    MagSmall(10, 0);
  }

  /** The half a datum is narrowed to, in quanta. */
  lemma DirectlyQuanta(neg: bool, x: Magnitude)
    requires x < OVERFLOW
    ensures var h, k := Directly(Finite(neg, x)), Rne(10, HalfQuanta(x));
      && h % 2 == k % 2 && IsFinite(h) && (neg <==> h >= 0x8000)
      && HalfReal(h) * Quanta(BINARY16) == Apply(neg, Mag(10, k) as real)
  {
    hide Mag, Scale, Rne, Directly, HalfReal, HalfQuanta, HalfDatum;
    DirectlyFinite(neg, x);
    OverflowQuanta(x);
    MagSmall(10, 0);
    HalfRealQuanta(Directly(Finite(neg, x)));
  }

  lemma ApplyQuanta(neg: bool, x: Magnitude)
    ensures Apply(neg, HalfQuanta(x)) == Apply(neg, x) * Quanta(BINARY16)
  {
    hide Scale;
    HalfQuantaIs(x);
    NegatedTimes(x, Quanta(BINARY16));
  }

  /** Below the overflow threshold, what a datum is narrowed to directly is a finite half of its
      sign, no finite half of either sign is nearer, and an even one is taken when two are as near. */
  lemma NearestHalf(neg: bool, x: Magnitude, g: Bits16)
    requires x < OVERFLOW && IsFinite(g)
    ensures var h, v := Directly(Finite(neg, x)), Apply(neg, x);
      && IsFinite(h) && (neg <==> h >= 0x8000)
      && Dist(v, HalfReal(h)) <= Dist(v, HalfReal(g))
      && (Dist(v, HalfReal(h)) == Dist(v, HalfReal(g)) && HalfReal(h) != HalfReal(g) ==> h % 2 == 0)
  {
    hide Mag, Scale, Rne, Directly, HalfReal, HalfQuanta, HalfDatum, Dist, Apply, Quanta;
    var h := Directly(Finite(neg, x));
    var k := Rne(10, HalfQuanta(x));
    var m := if Key(g) < 0 then -Key(g) else Key(g);
    var aq, bq := Apply(neg, Mag(10, k) as real), Apply(Key(g) < 0, Mag(10, m) as real);
    DirectlyQuanta(neg, x);
    assert HalfReal(g) * Quanta(BINARY16) == bq by {
      HalfRealQuanta(g);
      ApplyIs(Key(g) < 0, Mag(10, m) as real);
    }
    SignedNearest(neg, HalfQuanta(x), k, Key(g) < 0, m);
    ApplyQuanta(neg, x);
    NearerScaled(Apply(neg, x), HalfReal(h), HalfReal(g), Quanta(BINARY16), Apply(neg, HalfQuanta(x)), aq, bq);
  }

  lemma ApplyIs(neg: bool, x: real)
    ensures Apply(neg, x) == if neg then -x else x
  {
  }

  /** Distances compare the same in any unit. */
  lemma NearerScaled(v: real, a: real, b: real, q: real, vq: real, aq: real, bq: real)
    requires q > 0.0 && vq == v * q && aq == a * q && bq == b * q
    ensures Dist(v, a) <= Dist(v, b) <==> Dist(vq, aq) <= Dist(vq, bq)
    ensures Dist(v, a) == Dist(v, b) <==> Dist(vq, aq) == Dist(vq, bq)
    ensures a == b <==> aq == bq
  {
    DistTimes(v, a, q, vq, aq);
    DistTimes(v, b, q, vq, bq);
    RealCompare(Dist(v, a), Dist(v, b), q, Dist(vq, aq), Dist(vq, bq));
    RealCompare(a, b, q, aq, bq);
  }

  // ----- unary minus -----

  function Flip(f: Format, bits: nat): (r: nat)
    requires bits < 2 * f.sign
    ensures r < 2 * f.sign
  {
    if bits >= f.sign then bits - f.sign else bits + f.sign
  }

  lemma EncodeNegate(f: Format, d: Datum)
    requires f.top + 1 < f.sign && !d.NaN?
    ensures Encode(f, Negate(d)) == Flip(f, Encode(f, d))
  {
    hide Round;
  }

  lemma DecodeNegate(f: Format, bits: nat)
    requires f.t > 0 && f.top + 1 < f.sign && bits < 2 * f.sign
    ensures Decode(f, Flip(f, bits)) == Negate(Decode(f, bits))
  {
    hide Value;
  }

  /** The sign bit is flipped, except that a negative zero, read as positive, stays as it is. */
  lemma NegatedBits(h: Bits16)
    ensures Directly(Negate(HalfDatum(h))) == if IsNaN(h) then 0x7fff else if h == 0x8000 then h else Flip(BINARY16, h)
  {
    hide Encode, Decode;
    RoundTrip(h);
    if !IsNaN(h) {
      NotNaN(h);
      EncodeNegate(BINARY16, HalfDatum(h));
    } else {
      IsNaNDatum(h);
    }
  }

  lemma NotNaN(h: Bits16)
    requires !IsNaN(h)
    ensures !HalfDatum(h).NaN?
  {
    hide Value;
  }

  lemma IsNaNDatum(h: Bits16)
    requires IsNaN(h)
    ensures Directly(Negate(HalfDatum(h))) == 0x7fff
  {
    hide Value;
  }

  /** Unary operator-. */
  method Negated(a: Bits16) returns (r: Bits16)
    ensures r == if IsNaN(a) then 0x7fff else if a == 0x8000 then a else Flip(BINARY16, a)
  {
    hide Decode, Encode, Negate, Flip;
    var x := ConvertHalfintToFloat(a);
    r := ConvertFloatToHalfint(FloatNegate(x));
    NegatedBits(a);
    NegatedExactly(a, x);
  }

  lemma NegatedExactly(a: Bits16, x: Bits32)
    requires Decode(BINARY32, x) == HalfDatum(a) && x == Encode(BINARY32, HalfDatum(a))
    ensures Encode(BINARY16, Decode(BINARY32, FloatNegate(x))) == Directly(Negate(HalfDatum(a)))
  {
    hide Decode, Encode;
    if IsNaN(a) {
      NaNStays(a);
    } else {
      NotNaN(a);
      EncodeNegate(BINARY32, HalfDatum(a));
      DecodeNegate(BINARY32, x);
    }
  }

  lemma NaNStays(a: Bits16)
    requires IsNaN(a)
    ensures HalfDatum(a).NaN? && Decode(BINARY32, Encode(BINARY32, NaN)) == NaN
  {
    hide Value;
  }

  // ----- the sign of a zero operand -----

  const NEGATIVE_ZERO: Bits16 := 0x8000

  /** Only the negative zero is not read as what it encodes. */
  lemma ReadsAs(h: Bits16)
    ensures h != NEGATIVE_ZERO ==> HalfDatum(h) == Decode(BINARY16, h)
    ensures h == NEGATIVE_ZERO ==> Decode(BINARY16, h) == Finite(true, 0.0) && HalfDatum(h) == Finite(false, 0.0)
    ensures h == 0 ==> HalfDatum(h) == Finite(false, 0.0)
    ensures IsNaN(h) <==> Decode(BINARY16, h).NaN?
    ensures IsFinite(h) <==> Decode(BINARY16, h).Finite?
    ensures IsFinite(h) && h != 0 && h != NEGATIVE_ZERO ==> Decode(BINARY16, h).mag > 0.0
  {
    hide Value;
    ValueZero(if h >= 0x8000 then h - 0x8000 else h);
    ValueZero(0);
  }

  /** Results that differ in the sign of a zero or an infinity are encoded differently. */
  lemma SignShows(neg: bool)
    ensures Directly(Finite(neg, 0.0)) == SignBit(neg)
    ensures Directly(Infinity(neg)) == SignBit(neg) + 0x7c00
    ensures SignBit(false) != SignBit(true)
  {
    ZeroStepwise(neg);
    DirectlyInfinite(neg);
    hide Directly;
  }

  /** The sum differs from that of the encodings exactly for two negative zeros. */
  lemma AddZeros(a: Bits16, b: Bits16)
    ensures Directly(Plus(HalfDatum(a), HalfDatum(b))) != Directly(Plus(Decode(BINARY16, a), Decode(BINARY16, b)))
      <==> a == NEGATIVE_ZERO && b == NEGATIVE_ZERO
  {
    hide Directly, Decode, HalfDatum;
    ReadsAs(a);
    ReadsAs(b);
    SignShows(true);
    SignShows(false);
  }

  /** The difference, exactly for a negative zero less a positive one. */
  lemma SubtractZeros(a: Bits16, b: Bits16)
    ensures Directly(Minus(HalfDatum(a), HalfDatum(b))) != Directly(Minus(Decode(BINARY16, a), Decode(BINARY16, b)))
      <==> a == NEGATIVE_ZERO && b == 0
  {
    hide Directly, Decode, HalfDatum;
    ReadsAs(a);
    ReadsAs(b);
    SignShows(true);
    SignShows(false);
  }

  /** The product, exactly when one operand is the negative zero and the other is another finite half. */
  lemma MultiplyZeros(a: Bits16, b: Bits16)
    ensures Directly(Times(HalfDatum(a), HalfDatum(b))) != Directly(Times(Decode(BINARY16, a), Decode(BINARY16, b)))
      <==> (a == NEGATIVE_ZERO) != (b == NEGATIVE_ZERO) && IsFinite(a) && IsFinite(b)
  {
    hide Directly, Decode, HalfDatum;
    ReadsAs(a);
    ReadsAs(b);
    SignShows(true);
    SignShows(false);
  }

  /** The quotient, exactly when one operand is the negative zero and the other is neither a zero nor a
      NaN: dividing by it gives the wrong infinity. */
  lemma DivideZeros(a: Bits16, b: Bits16)
    ensures Directly(Over(HalfDatum(a), HalfDatum(b))) != Directly(Over(Decode(BINARY16, a), Decode(BINARY16, b)))
      <==> || (a == NEGATIVE_ZERO && !IsNaN(b) && b != 0 && b != NEGATIVE_ZERO)
           || (b == NEGATIVE_ZERO && !IsNaN(a) && a != 0 && a != NEGATIVE_ZERO)
  {
    hide Directly, Decode, HalfDatum;
    ReadsAs(a);
    ReadsAs(b);
    SignShows(true);
    SignShows(false);
  }
}
