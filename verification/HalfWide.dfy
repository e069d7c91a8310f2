/** Constructing a Half from a double, from integers and from a float, and the class itself. */
module HalfWide {
  import opened Powers
  import opened BitOps
  import opened Rounding
  import opened Ieee
  import opened HalfConvert
  import opened DoubleRounding
  import opened HalfArith
  import opened HalfOrder
  import opened HalfOperators

  // ----- from a double: cast to float, then narrowed -----

  /** Half(double), for the datum of the double: two roundings, one after the other. */
  method FromDouble(a: Datum) returns (r: Bits16)
    ensures r == Stepwise(a)
  {
    var f := Encode(BINARY32, a);
    r := ConvertFloatToHalfint(f);
  }

  /** The two roundings agree with one exactly when the float is not a midpoint between adjacent
      halves that the double lies beside, on the side of the odd half. */
  lemma DoubleIsNearest(neg: bool, x: Magnitude)
    ensures Stepwise(Finite(neg, x)) == Directly(Finite(neg, x))
      <==> !exists k: nat :: k < 0x7c00 && PulledOver(HalfQuanta(x), k)
  {
    hide Stepwise, Directly, Twice, Rne, PulledOver, HalfQuanta;
    var v := HalfQuanta(x);
    StepwiseFinite(neg, x);
    DirectlyFinite(neg, x);
    if Twice(v) != Rne(10, v) {
      TwiceDiffers(v);
    }
    forall k: nat | PulledOver(v, k)
      ensures Twice(v) != Rne(10, v) && k == if Twice(v) < Rne(10, v) then Twice(v) else Rne(10, v)
    {
      PulledApart(v, k);
    }
  }

  /** 2^24 + 2^13 + 2^-16 quanta: a little above the midpoint after 1.0. */
  const SAMPLE: real := 16785408.0 + 1.0 / 65536.0

  lemma SampleMid()
    ensures Mag(10, 0x3c00) == 0x100_0000 && Mag(10, 0x3c01) == 0x100_4000
  {
    assert Scale(1, 14) == 0x4000 by { PowerLiterals(); ScaleNext(13); }
    hide Mag, Scale;
    NormalParts(0x400, 14);
    ScaleOne(0x400, 14);
    ScaleOne(0x401, 14);
  }

  lemma SampleDirectly()
    ensures Rne(10, SAMPLE) == 0x3c01
  {
    SampleMid();
    hide Mag, Rne;
    RneSplit(10, SAMPLE, 0x3c00);
  }

  /** With 24 significant bits left of the point, a fraction below one half is rounded away. */
  lemma FloatBeside(v: Magnitude, n: nat)
    requires 0x80_0000 <= n < 0xff_ffff && (2 * n) as real <= v < (2 * n + 1) as real
    ensures Narrowed(ViaFloat(v)) == (2 * n) as real
  {
    hide Mag, Scale, Rne, Narrowed, Fine;
    var j, lo, mid, hi := Scale(126, 23) + n, Scale(2 * n, 125), Scale(2 * n + 1, 125), Scale(2 * n + 2, 125);
    assert Mag(23, j) == lo && Mag(23, j + 1) == hi by {
      assert Scale(1, 23) == 0x80_0000 by { PowerLiterals(); }
      MagAt(23, 126, n);
      MagAt(23, 126, n + 1);
      ScaleScale(n, 1, 125);
      ScaleScale(n + 1, 1, 125);
      ScaleOnce(n);
      ScaleOnce(n + 1);
    }
    assert lo + hi == 2 * mid by {
      ScaleSum(2 * n, 1, 125);
      ScaleSum(2 * n + 1, 1, 125);
    }
    assert lo as real <= Fine(v) < mid as real by {
      FineOrder(v, 2 * n);
      FineOrder(v, 2 * n + 1);
    }
    ScaleMono(2 * n + 1, 2 * n + 2, 125);
    RneSplit(23, Fine(v), j);
    NarrowedOrder(lo, 2 * n);
  }

  lemma SampleTwice()
    ensures Twice(SAMPLE) == 0x3c00
  {
    SampleMid();
    hide Mag, Rne, Scale, Narrowed, ViaFloat;
    FloatBeside(SAMPLE, 8392704);
    RneSplit(10, 16785408.0, 0x3c00);
  }

  /** It does happen: 1 + 2^-11 + 2^-40, a double, is nearest to 1 + 2^-10 but becomes 1. */
  lemma DoubleNotNearest()
    ensures var d := Finite(false, 1.0 + 1.0 / 2048.0 + 1.0 / 1099511627776.0);
      Stepwise(d) == 0x3c00 && Directly(d) == 0x3c01
  {
    var x: Magnitude := 1.0 + 1.0 / 2048.0 + 1.0 / 1099511627776.0;
    assert HalfQuanta(x) == SAMPLE by {
      assert Scale(1, 24) == 0x100_0000 by { PowerLiterals(); }
    }
    hide Stepwise, Directly, Rne, Twice, HalfQuanta;
    SampleTwice();
    SampleDirectly();
    StepwiseFinite(false, x);
    DirectlyFinite(false, x);
  }

  /** Each half is a float, so the two roundings never step over a half: the result is one of the
      two halves around the double, and the half itself when the double is one. */
  lemma TwiceFaithful(v: Magnitude, k: nat)
    ensures Mag(10, k) as real <= v ==> k <= Twice(v)
    ensures v <= Mag(10, k) as real ==> Twice(v) <= k
  {
    hide Mag, Rne, Narrowed, ViaFloat, Scale;
    var c, s := MagParts(10, k);
    assert Scale(1, 10) == 0x400 by { PowerLiterals(); }
    ScaleSum(c, c, s);
    KeepsSide(v, Mag(10, k) + Mag(10, k), c + c, s);
    RneExact(10, k);
    var y := Narrowed(ViaFloat(v));
    if Mag(10, k) as real <= v {
      RneMono(10, Mag(10, k) as real, y);
    }
    if v <= Mag(10, k) as real {
      RneMono(10, y, Mag(10, k) as real);
    }
  }

  /** So the half made from a double is never past a half that lies between it and the double: it is one
      of the two around the double, infinities included, and the half itself when the double is one. */
  lemma DoubleFaithful(neg: bool, x: Magnitude, h: Bits16)
    requires IsFinite(h)
    ensures var r := Stepwise(Finite(neg, x));
      && !IsNaN(r)
      && (HalfReal(h) <= Apply(neg, x) ==> Key(h) <= Key(r))
      && (Apply(neg, x) <= HalfReal(h) ==> Key(r) <= Key(h))
  {
    var r, v := Stepwise(Finite(neg, x)), HalfQuanta(x);
    var k := if Key(h) < 0 then -Key(h) else Key(h);
    assert k < 0x7c00;
    hide *;
    StepwiseKey(neg, x);
    HalfSide(neg, x, h);
    TwiceFaithful(v, k);
    TwiceFaithful(v, 0);
    MagPositive(k);
    ApplyIs(neg, v);
    ClipIs(Twice(v));
    KeySide(neg, v, Twice(v), Clip(Twice(v)), Key(h) < 0, Mag(10, k) as real, k);
  }

  /** A half and a number compare as their quanta do. */
  lemma HalfSide(neg: bool, x: Magnitude, h: Bits16)
    requires IsFinite(h)
    ensures var hq := if Key(h) < 0 then -(Mag(10, -Key(h)) as real) else Mag(10, Key(h)) as real;
      var vq := Apply(neg, HalfQuanta(x));
      (HalfReal(h) <= Apply(neg, x) <==> hq <= vq) && (Apply(neg, x) <= HalfReal(h) <==> vq <= hq)
  {
    ApplyQuanta(neg, x);
    HalfRealQuanta(h);
    hide HalfReal, Apply, HalfQuanta, Mag, Quanta;
    RealCompare(HalfReal(h), Apply(neg, x), Quanta(BINARY16), HalfReal(h) * Quanta(BINARY16),
      Apply(neg, HalfQuanta(x)));
    RealCompare(Apply(neg, x), HalfReal(h), Quanta(BINARY16), Apply(neg, HalfQuanta(x)),
      HalfReal(h) * Quanta(BINARY16));
  }

  /** Signed numbers lie as their magnitudes do, the other way round below zero. */
  lemma KeySide(neg: bool, v: real, n: nat, c: int, sign: bool, w: real, k: int)
    requires v >= 0.0 && w >= 0.0 && (w == 0.0 <==> k == 0) && (sign ==> k > 0)
    requires (w <= v ==> k <= n) && (v <= w ==> n <= k) && (v == 0.0 ==> n == 0)
    requires 0 <= k < 0x7c00 && c == if n > 0x7c00 then 0x7c00 else n
    ensures var hq, vq := if sign then -w else w, if neg then -v else v;
      var h, r := if sign then -k else k, if neg then -c else c;
      (hq <= vq ==> h <= r) && (vq <= hq ==> r <= h)
  {
  }

  /** The key of the half made from a double. */
  lemma StepwiseKey(neg: bool, x: Magnitude)
    ensures !IsNaN(Stepwise(Finite(neg, x)))
    ensures neg ==> Key(Stepwise(Finite(neg, x))) == -(Clip(Twice(HalfQuanta(x))) as int)
    ensures !neg ==> Key(Stepwise(Finite(neg, x))) == Clip(Twice(HalfQuanta(x)))
  {
    StepwiseFinite(neg, x);
    hide Stepwise, Twice, HalfQuanta;
  }

  lemma ClipIs(k: nat)
    ensures Clip(k) == if k > 0x7c00 then 0x7c00 else k
  {
  }

  lemma MagPositive(k: nat)
    ensures Mag(10, 0) == 0 && (k > 0 ==> Mag(10, k) > 0)
  {
    MagSmall(10, 0);
    if k > 0 {
      MagStrict(10, 0, k);
    }
  }

  /** Constructing halves from doubles keeps their order. */
  lemma DoubleMonotone(p: bool, x: Magnitude, q: bool, y: Magnitude)
    requires Apply(p, x) <= Apply(q, y)
    ensures Key(Stepwise(Finite(p, x))) <= Key(Stepwise(Finite(q, y)))
  {
    hide Stepwise, Twice, HalfQuanta;
    StepwiseFinite(p, x);
    StepwiseFinite(q, y);
    if !p && !q {
      TwiceMono(x, y);
    } else if p && q {
      TwiceMono(y, x);
    } else if q {
      ZeroTwice(x);
      ZeroTwice(y);
    }
  }

  lemma ZeroTwice(x: Magnitude)
    requires x == 0.0
    ensures Twice(HalfQuanta(x)) == 0
  {
    hide Twice, Mag, Scale;
    MagSmall(10, 0);
    assert HalfQuanta(x) == 0.0;
    TwiceFaithful(HalfQuanta(x), 0);
  }

  lemma TwiceMono(x: Magnitude, y: Magnitude)
    requires x <= y
    ensures Twice(HalfQuanta(x)) <= Twice(HalfQuanta(y))
  {
    hide Mag, Rne, Scale;
    var v, w := HalfQuanta(x), HalfQuanta(y);
    RealCompare(x, y, Quanta(BINARY16), v, w);
    RealCompare(v, w, Scale(1, 125) as real, Fine(v), Fine(w));
    RneMono(23, Fine(v), Fine(w));
    MagMono(23, Rne(23, Fine(v)), Rne(23, Fine(w)));
    NarrowedMono(ViaFloat(v), ViaFloat(w));
    RneMono(10, Narrowed(ViaFloat(v)), Narrowed(ViaFloat(w)));
  }

  // ----- from integers -----

  /** Half(int), Half(coord_t), Half(size_t): the integer is cast to float, then narrowed. */
  method FromInteger(a: int) returns (r: Bits16)
    ensures r == Directly(FromReal(a as real))
    ensures RoundsTo(a as real, a < 0, r) && (a == 0 ==> r == 0)
  {
    var f := Encode(BINARY32, FromReal(a as real));
    r := ConvertFloatToHalfint(f);
    IntegerRounded(a);
    RealRounds(a as real);
    hide RoundsTo, Directly, Encode, Decode;
  }

  /** An integer below 2^24 is a float; a larger one overflows either way. */
  lemma IntegerRounded(a: int)
    ensures Stepwise(FromReal(a as real)) == Directly(FromReal(a as real))
  {
    hide Stepwise, Directly, Twice, Rne, HalfQuanta, Scale, Mag;
    var n := if a < 0 then -a else a;
    var neg := a < 0;
    assert FromReal(a as real) == Finite(neg, n as real);
    IntegerQuanta(n);
    var v := HalfQuanta(n as real);
    StepwiseFinite(neg, n as real);
    DirectlyFinite(neg, n as real);
    if n < 0x100_0000 {
      QuantaHeld(Scale(n, 24), n, 24);
    } else {
      ScaleMono(n, 0x100_0000, 24);
      assert Scale(0x100_0000, 24) >= Scale(1, 40) by {
        assert Scale(1, 24) == 0x100_0000 by { PowerLiterals(); }
        ScaleScale(1, 24, 24);
        ScaleGrows(40, 48);
      }
      InfinityMag();
      TwiceFaithful(v, 0x7c00);
      RneExact(10, 0x7c00);
      RneMono(10, Mag(10, 0x7c00) as real, v);
    }
  }

  lemma IntegerQuanta(n: nat)
    ensures HalfQuanta(n as real) == Scale(n, 24) as real
  {
    hide Scale;
    ScaleOne(n, 24);
    RealTimes(n, Scale(1, 24));
  }

  // ----- the class -----

  class Half {
    var repr: Bits16

    /** Half(std::uint16_t) */
    constructor FromBits(a: Bits16)
      ensures repr == a
    {
      repr := a;
    }

    /** Half(float) */
    constructor FromFloat(a: Bits32)
      ensures repr == Directly(Decode(BINARY32, a))
    {
      var r := ConvertFloatToHalfint(a);
      repr := r;
    }

    /** operator=(float) */
    method Assign(rhs: Bits32)
      modifies this
      ensures repr == Directly(Decode(BINARY32, rhs))
    {
      repr := ConvertFloatToHalfint(rhs);
    }

    /** operator+=; rhs may be this very object. */
    method AddAssign(rhs: Half)
      modifies this
      ensures repr == Directly(Plus(HalfDatum(old(repr)), HalfDatum(old(rhs.repr))))
      ensures IsSum(old(repr), old(rhs.repr), repr)
    {
      var x := ConvertHalfintToFloat(repr);
      var y := ConvertHalfintToFloat(rhs.repr);
      hide IsSum, Plus, HalfDatum, Encode, Decode;
      PlusRounded(repr, rhs.repr);
      SumIs(repr, rhs.repr);
      Assign(FloatPlus(x, y));
    }

    /** operator-= */
    method SubtractAssign(rhs: Half)
      modifies this
      ensures repr == Directly(Minus(HalfDatum(old(repr)), HalfDatum(old(rhs.repr))))
      ensures IsDifference(old(repr), old(rhs.repr), repr)
    {
      var x := ConvertHalfintToFloat(repr);
      var y := ConvertHalfintToFloat(rhs.repr);
      hide IsDifference, Minus, HalfDatum, Encode, Decode;
      MinusRounded(repr, rhs.repr);
      DifferenceIs(repr, rhs.repr);
      Assign(FloatMinus(x, y));
    }

    /** operator*= */
    method MultiplyAssign(rhs: Half)
      modifies this
      ensures repr == Directly(Times(HalfDatum(old(repr)), HalfDatum(old(rhs.repr))))
      ensures IsProduct(old(repr), old(rhs.repr), repr)
    {
      var x := ConvertHalfintToFloat(repr);
      var y := ConvertHalfintToFloat(rhs.repr);
      hide IsProduct, Times, HalfDatum, Encode, Decode;
      TimesRounded(repr, rhs.repr);
      ProductIs(repr, rhs.repr);
      Assign(FloatTimes(x, y));
    }

    /** operator/= */
    method DivideAssign(rhs: Half)
      modifies this
      ensures repr == Directly(Over(HalfDatum(old(repr)), HalfDatum(old(rhs.repr))))
      ensures IsQuotient(old(repr), old(rhs.repr), repr)
    {
      var x := ConvertHalfintToFloat(repr);
      var y := ConvertHalfintToFloat(rhs.repr);
      hide IsQuotient, Over, HalfDatum, Encode, Decode;
      OverRounded(repr, rhs.repr);
      QuotientIs(repr, rhs.repr);
      Assign(FloatOver(x, y));
    }
  }
}
