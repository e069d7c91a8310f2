/** The two conversions between binary16 and binary32 bit patterns, as the code does them on
    words, against the encodings and the rounding of IEEE 754-2019. */
module HalfConvert {
  import opened Powers
  import opened BitOps
  import opened Rounding
  import opened Ieee

  // ----- the words of a float -----

  /** Sign, biased exponent and fraction of a 32-bit pattern. */
  lemma FloatFields(a: Bits32) returns (neg: bool, e: nat, f: nat)
    ensures e < 0x100 && f < 0x80_0000
    ensures a == (if neg then 0x8000_0000 else 0) + e * 0x80_0000 + f
    ensures And(Shr(a, 16), 0x8000) == if neg then 0x8000 else 0
    ensures And(a, 0x7f80_0000) == e * 0x80_0000
    ensures And(a, 0x7fff_ffff) == e * 0x80_0000 + f
    ensures And(Shr(a, 23), 0xff) == e
    ensures Or(And(a, 0x007f_ffff), 0x0080_0000) == 0x80_0000 + f
  {
    PowerLiterals();
    var top := Drop(a, 31);
    e, f := Low(Drop(a, 23), 8), Low(a, 23);
    neg := top == 1;
    hide Scale, Drop, Low, And, Or;
    Digit(a, 31);
    Digit(Drop(a, 23), 8);
    Digit(a, 23);
    Drops(a, 23, 8);
    Drops(a, 16, 15);
    AndShifted(Shr(a, 16), 1, 15);
    AndOne(top);
    ScaleOne(And(top, 1), 15);
    AndLowMask(Drop(a, 23), 8);
    AndShifted(a, 0xff, 23);
    ScaleOne(0xff, 23);
    ScaleOne(e, 23);
    AndLowMask(a, 31);
    AndLowMask(a, 23);
    OrDisjoint(1, f, 23);
  }

  lemma AndOne(x: nat)
    requires x <= 1
    ensures And(x, 1) == x
  {
  }

  /** Sign, biased exponent and fraction of a 16-bit pattern. */
  lemma HalfFields(x: Bits16) returns (neg: bool, e: nat, f: nat)
    ensures e < 0x20 && f < 0x400
    ensures x == (if neg then 0x8000 else 0) + e * 0x400 + f
    ensures And(Shr(x, 15), 1) == if neg then 1 else 0
    ensures And(Shr(x, 10), 0x1f) == e
    ensures And(x, 0x3ff) == f
  {
    PowerLiterals();
    var top := Drop(x, 15);
    e, f := Low(Drop(x, 10), 5), Low(x, 10);
    neg := top == 1;
    hide Scale, Drop, Low, And, Or;
    Digit(x, 15);
    Digit(Drop(x, 10), 5);
    Digit(x, 10);
    Drops(x, 10, 5);
    AndOne(top);
    AndLowMask(Drop(x, 10), 5);
    AndLowMask(x, 10);
  }

  // ----- narrowing -----

  /** A count of binary32 quanta, in quanta of binary16. */
  function Narrowed(x: nat): Magnitude {
    x as real / Scale(1, 125) as real
  }

  lemma NarrowedOrder(x: nat, v: nat)
    ensures (Narrowed(x) < v as real <==> x < Scale(v, 125))
    ensures (Narrowed(x) == v as real <==> x == Scale(v, 125))
  {
    hide Scale;
    var u := Scale(1, 125);
    ScaleOne(v, 125);
    RealTimes(v, u);
    RealOrder(x as real, u as real, v as real);
  }

  /** The binary16 encoding nearest the finite float with these fields. */
  function Narrow(e: nat, f: nat): nat {
    Rne(10, Narrowed(Mag(23, e * 0x80_0000 + f)))
  }

  lemma RealTimes(v: nat, u: nat)
    ensures (v * u) as real == v as real * u as real
  {
  }

  lemma RealOrder(x: real, u: real, v: real)
    requires u > 0.0
    ensures x / u < v <==> x < v * u
    ensures x / u == v <==> x == v * u
  {
    var q := x / u;
    assert q * u == x;
    if q < v {
      assert (v - q) * u > 0.0;
    } else if q > v {
      assert (q - v) * u > 0.0;
    }
  }

  /** Two counts of quanta compare as their significands do, c of them carrying n bits less. */
  lemma CompareAt(sig: nat, c: nat, e: nat, n: nat, s: nat)
    requires e > 0 && s + 125 == e - 1 + n
    ensures Scale(sig, e - 1) < Scale(Scale(c, s), 125) <==> sig < Scale(c, n)
    ensures Scale(sig, e - 1) == Scale(Scale(c, s), 125) <==> sig == Scale(c, n)
  {
    ScaleScale(c, s, 125);
    ScaleScale(c, n, e - 1);
    ScaleMono(sig, Scale(c, n), e - 1);
    ScaleMono(Scale(c, n), sig, e - 1);
  }

  /** Dropping n bits of a significand rounds the value to binary16, when the bits kept are the
      significand of encoding k at its own scale s: the bits dropped decide against one half. */
  lemma DropRounds(sig: nat, e: nat, n: nat, k: nat, s: nat)
    requires e > 0 && n > 0 && s + 125 == e - 1 + n
    requires Mag(10, k) == Scale(Drop(sig, n), s) && Mag(10, k + 1) == Scale(Drop(sig, n) + 1, s)
    ensures var r := Low(sig, n);
      Rne(10, Narrowed(Scale(sig, e - 1))) ==
      if 2 * r < Scale(1, n) || (2 * r == Scale(1, n) && k % 2 == 0) then k else k + 1
  {
    hide Mag, Scale, Drop, Low, Rne, Narrowed;
    var c, x := Drop(sig, n), Scale(sig, e - 1);
    DropLow(sig, n);
    ScaleSum(c, 1, n);
    assert Mag(10, k) as real <= Narrowed(x) < Mag(10, k + 1) as real by {
      CompareAt(sig, c, e, n, s);
      CompareAt(sig, c + 1, e, n, s);
      NarrowedOrder(x, Mag(10, k));
      NarrowedOrder(x, Mag(10, k + 1));
    }
    ScaleSum(c, c + 1, n);
    ScaleSum(c, c + 1, s);
    ScaleSum(sig, sig, e - 1);
    CompareAt(sig + sig, c + (c + 1), e, n, s);
    NarrowedOrder(x + x, Mag(10, k) + Mag(10, k + 1));
    NarrowedTwice(x);
    RneSplit(10, Narrowed(x), k);
  }

  lemma NarrowedTwice(x: nat)
    ensures Narrowed(x + x) == 2.0 * Narrowed(x)
  {
    hide Scale;
    var u := Scale(1, 125) as real;
    var q := x as real / u;
    assert q * u == x as real;
    assert (2.0 * q) * u == 2.0 * (q * u);
    RealOrder((x + x) as real, u, 2.0 * q);
  }

  /** A finite binary32 magnitude in binary16 quanta. */
  lemma NarrowedValue(m: nat)
    ensures Value(BINARY32, m) * Quanta(BINARY16) == Narrowed(Mag(23, m))
  {
    hide Scale, Mag;
    var x, a, b := Mag(23, m) as real, Scale(1, 24), Scale(1, 125);
    ScaleScale(1, 24, 125);
    ScaleOne(a, 125);
    RealTimes(a, b);
    RealCancel(x, a as real, b as real);
  }

  lemma RealCancel(x: real, a: real, b: real)
    requires a > 0.0 && b > 0.0
    ensures a * b > 0.0
    ensures x / (a * b) * a == x / b
  {
    var q, p := x / b, x / (a * b);
    assert q * b == x && p * (a * b) == x;
    assert (p * a) * b == x;
    RealOrder(x, b, p * a);
  }

  lemma FloatMag(e: nat, f: nat)
    requires f < 0x80_0000
    ensures Mag(23, e * 0x80_0000 + f) == if e == 0 then f else Scale(0x80_0000 + f, e - 1)
  {
    PowerLiterals();
    hide Scale, Mag;
    ScaleOne(e, 23);
    MagCode(23, e, f);
  }

  /** Below half a quantum of binary16 everything rounds to zero. */
  lemma NarrowTiny(e: nat, f: nat)
    requires e < 102 && f < 0x80_0000
    ensures Narrow(e, f) == 0
  {
    TinyMag(e, f);
    hide *;
    var x := Mag(23, e * 0x80_0000 + f);
    NarrowedOrder(x + x, 1);
    NarrowedTwice(x);
    MagSmall(10, 0);
    MagSmall(10, 1);
    NarrowedOrder(x, 0);
    ScaleZero(0);
    ScaleZeroAt(125);
    RneSplit(10, Narrowed(x), 0);
    NarrowIs(e, f);
  }

  lemma ScaleZeroAt(s: nat)
    ensures Scale(0, s) == 0
  {
    ScaleOne(0, s);
  }

  lemma NarrowIs(e: nat, f: nat)
    ensures Narrow(e, f) == Rne(10, Narrowed(Mag(23, e * 0x80_0000 + f)))
  {
  }

  lemma TinyMag(e: nat, f: nat)
    requires e < 102 && f < 0x80_0000
    ensures Mag(23, e * 0x80_0000 + f) < Scale(1, 124) && Scale(1, 125) == 2 * Scale(1, 124)
  {
    FloatMag(e, f);
    PowerLiterals();
    hide Scale, Mag;
    var sig := if e == 0 then f else 0x80_0000 + f;
    var g := if e == 0 then 0 else e - 1;
    assert Mag(23, e * 0x80_0000 + f) == Scale(sig, g) by { ScaleZero(f); }
    ScaleMono(sig, Scale(1, 24), g);
    ScaleScale(1, 24, g);
    ScaleGrows(24 + g, 124);
    ScaleNext(124);
  }

  lemma InfinityMag()
    ensures Mag(10, 0x7c00) == Scale(1, 40)
  {
    PowerLiterals();
    hide Scale, Mag;
    ScaleOne(31, 10);
    MagCode(10, 31, 0);
    ScaleScale(1, 10, 30);
  }

  /** From 2^16 on everything rounds to infinity or beyond. */
  lemma NarrowHuge(e: nat, f: nat)
    requires e >= 143 && f < 0x80_0000
    ensures Narrow(e, f) >= 0x7c00
  {
    hide Scale, Mag, Rne, Narrowed;
    var x, v := Mag(23, e * 0x80_0000 + f), Mag(10, 0x7c00);
    assert Scale(v, 125) <= x by {
      FloatMag(e, f);
      assert Scale(1, 23) == 0x80_0000 by { PowerLiterals(); }
      InfinityMag();
      ScaleScale(1, 40, 125);
      ScaleScale(1, 23, e - 1);
      ScaleMono(0x80_0000 + f, 0x80_0000, e - 1);
      ScaleGrows(165, 22 + e);
    }
    NarrowedOrder(x, v);
    RneExact(10, 0x7c00);
    RneMono(10, v as real, Narrowed(x));
  }

  /** A subnormal result keeps the leading bits of the significand. */
  lemma NarrowSubnormal(e: nat, f: nat)
    requires 102 <= e < 113 && f < 0x80_0000
    ensures var sig, n := 0x80_0000 + f, 126 - e;
      var k := Drop(sig, n);
      && k < 0x400
      && Narrow(e, f)
        == if 2 * Low(sig, n) < Scale(1, n) || (2 * Low(sig, n) == Scale(1, n) && k % 2 == 0) then k else k + 1
  {
    hide *;
    var sig, n := 0x80_0000 + f, 126 - e;
    var k := Drop(sig, n);
    NarrowIs(e, f);
    FloatMag(e, f);
    SubnormalDigits(sig, n);
    MagSmall(10, k);
    MagSmall(10, k + 1);
    ScaleZero(k);
    ScaleZero(k + 1);
    DropRounds(sig, e, n, k, 0);
  }

  /** What is left of 24 bits when at least 14 are dropped. */
  lemma SubnormalDigits(sig: nat, n: nat)
    requires 14 <= n <= 24 && sig < 0x100_0000
    ensures Drop(sig, n) < 0x400 && Scale(1, 10) == 0x400
  {
    PowerLiterals();
    hide Scale, Drop;
    DropBound(sig, 24, n);
    ScaleGrows(24 - n, 10);
  }

  /** The value of a binary16 encoding in its binade, and of the one after it. */
  lemma NormalParts(c: nat, s: nat)
    requires 0x400 <= c < 0x800
    ensures Mag(10, c + s * 0x400) == Scale(c, s) && Mag(10, c + s * 0x400 + 1) == Scale(c + 1, s)
  {
    PowerLiterals();
    hide Scale, Mag;
    ScaleOne(s, 10);
    MagAt(10, s, c);
    if c + 1 < 0x800 {
      MagAt(10, s, c + 1);
    } else {
      ScaleOne(s + 1, 10);
      MagAt(10, s + 1, 0x400);
      ScaleScale(0x400, 1, s);
      ScaleOnce(0x400);
    }
  }

  /** A normal result keeps eleven bits and rebases the exponent. */
  lemma NarrowNormal(e: nat, f: nat, sig: nat, k: nat)
    requires 113 <= e < 143 && f < 0x80_0000 && sig == 0x80_0000 + f
    requires k == Drop(sig, 13) + (e - 113) * 0x400
    ensures 0x400 <= Drop(sig, 13) < 0x800
    ensures Narrow(e, f)
      == if 2 * Low(sig, 13) < Scale(1, 13) || (2 * Low(sig, 13) == Scale(1, 13) && k % 2 == 0) then k else k + 1
  {
    hide Scale, Mag, Rne, Narrowed, Drop, Low;
    assert 0x400 <= Drop(sig, 13) < 0x800 by {
      PowerLiterals();
      Digit(sig, 13);
    }
    NormalParts(Drop(sig, 13), e - 113);
    FloatMag(e, f);
    DropRounds(sig, e, 13, k, e - 113);
  }

  function SignBit(neg: bool): Bits16 {
    if neg then 0x8000 else 0
  }

  /** What the conversion must return for a float with these fields. */
  function Narrowest(neg: bool, e: nat, f: nat): nat {
    if e == 255 && f > 0 then 0x7fff
    else SignBit(neg) + if e == 255 || Narrow(e, f) > 0x7c00 then 0x7c00 else Narrow(e, f)
  }

  /** What the encoding of a float as binary16 comes down to, field by field. */
  lemma NarrowedEncoding(a: Bits32, neg: bool, e: nat, f: nat)
    requires e < 0x100 && f < 0x80_0000
    requires a == (if neg then 0x8000_0000 else 0) + e * 0x80_0000 + f
    ensures Encode(BINARY16, Decode(BINARY32, a)) == Narrowest(neg, e, f)
  {
    hide Scale, Mag, Rne, Narrowed;
    var m := e * 0x80_0000 + f;
    NarrowedValue(m);
    assert Decode(BINARY32, a)
      == if m > 0x7f80_0000 then NaN
         else if m == 0x7f80_0000 then Infinity(neg) else Finite(neg, Value(BINARY32, m));
    if m < 0x7f80_0000 {
      assert e < 255;
      assert Round(BINARY16, Value(BINARY32, m)) == Rne(10, Narrowed(Mag(23, m)));
    } else if m == 0x7f80_0000 {
      assert e == 255 && f == 0;
      assert Encode(BINARY16, Infinity(neg)) == 0x7c00 + if neg then 0x8000 else 0;
    } else {
      assert e == 255 && f > 0;
    }
  }

  /** A left shift of a word loses all but the low bits. */
  lemma ShiftKeepsLow(sig: Bits32, n: nat)
    requires n <= 32
    ensures Shl32(sig, 32 - n) == Scale(Low(sig, n), 32 - n)
  {
    var q, r := Drop(sig, n), Low(sig, n);
    assert Scale(1, 32) == 0x1_0000_0000 by { PowerLiterals(); ScaleNext(31); }
    hide Scale, Drop, Low;
    assert Scale(sig, 32 - n) == q * 0x1_0000_0000 + Scale(r, 32 - n) by {
      DropLow(sig, n);
      ScaleSum(Scale(q, n), r, 32 - n);
      ScaleScale(q, n, 32 - n);
      ScaleOne(q, 32);
    }
    assert Scale(r, 32 - n) < 0x1_0000_0000 by {
      DropLow(sig, n);
      ScaleScale(1, n, 32 - n);
      ScaleMono(r, Scale(1, n), 32 - n);
    }
    TopLost(q, Scale(r, 32 - n));
  }

  lemma TopLost(q: nat, r: nat)
    requires r < 0x1_0000_0000
    ensures (q * 0x1_0000_0000 + r) % 0x1_0000_0000 == r
  {
  }

  /** The bits dropped, moved to the top of the word, against the word with only its top bit set. */
  lemma DroppedBits(sig: Bits32, n: nat)
    requires 0 < n <= 24
    ensures Shl32(sig, 32 - n) > 0x8000_0000 <==> 2 * Low(sig, n) > Scale(1, n)
    ensures Shl32(sig, 32 - n) == 0x8000_0000 <==> 2 * Low(sig, n) == Scale(1, n)
  {
    hide Shl32, Scale, Drop, Low;
    var r, w := Low(sig, n), Scale(1, n);
    ShiftKeepsLow(sig, n);
    assert Scale(1, 31) == 0x8000_0000 by { PowerLiterals(); }
    ScaleScale(1, n, 31 - n);
    ScaleOnce(r);
    ScaleScale(r, 1, 31 - n);
    ScaleMono(2 * r, w, 31 - n);
    ScaleMono(w, 2 * r, 31 - n);
  }

  lemma LastBit(x: nat)
    ensures And(x, 1) == x % 2
  {
    AndLowMask(x, 1);
    assert Low(x, 1) == 2 * Low(x / 2, 0) + x % 2;
  }

  /** The sign bit joins the magnitude bits. */
  lemma WithSign(neg: bool, m: nat)
    requires m < 0x8000
    ensures Or(if neg then 0x8000 else 0, m) == (if neg then 0x8000 else 0) + m
  {
    PowerLiterals();
    hide Scale, Or;
    ScaleOne(if neg then 1 else 0, 15);
    OrDisjoint(if neg then 1 else 0, m, 15);
  }

  /** The last step of both branches: add one when the bits dropped ask for it. */
  function RoundUp(ir: nat, dropped: nat): nat {
    if dropped > 0x8000_0000 || (dropped == 0x8000_0000 && And(ir, 1) != 0) then ir + 1 else ir
  }

  /** The denormal branch computes the rounded encoding. */
  lemma SubnormalBits(neg: bool, e: nat, f: nat)
    requires 102 <= e < 113 && f < 0x80_0000
    ensures var sig, n := 0x80_0000 + f, 126 - e;
      var ir := Or(SignBit(neg), Shr(sig, n));
      && ir < 0x1_0000
      && Narrow(e, f) <= 0x400
      && RoundUp(ir, Shl32(sig, 32 - n)) == SignBit(neg) + Narrow(e, f)
  {
    var sig, n := 0x80_0000 + f, 126 - e;
    hide Scale, Low, Drop, And, Or, Shl32, Mag, Rne, Narrowed;
    NarrowSubnormal(e, f);
    DroppedBits(sig, n);
    WithSign(neg, Drop(sig, n));
    LastBit(SignBit(neg) + Drop(sig, n));
  }

  /** The normal branch computes the rounded encoding, its carry into the exponent included. */
  lemma NormalBits(neg: bool, e: nat, f: nat)
    requires 113 <= e < 143 && f < 0x80_0000
    ensures var sig := 0x80_0000 + f;
      var ir := Or(SignBit(neg), Shr(sig, 13));
      && ir + Scale(e - 113, 10) < 0x1_0000
      && Narrow(e, f) <= 0x7c00
      && RoundUp(ir + Scale(e - 113, 10), Shl32(sig, 19)) == SignBit(neg) + Narrow(e, f)
  {
    var sig := 0x80_0000 + f;
    hide Scale, Low, Drop, And, Or, Shl32, Mag, Rne, Narrowed;
    var k := Drop(sig, 13) + (e - 113) * 0x400;
    NarrowNormal(e, f, sig, k);
    DroppedBits(sig, 13);
    WithSign(neg, Drop(sig, 13));
    ScaleOne(e - 113, 10);
    assert Scale(1, 10) == 0x400 by { PowerLiterals(); }
    LastBit(SignBit(neg) + k);
    assert (SignBit(neg) + k) % 2 == k % 2;
  }

  lemma SpecialResult(neg: bool, e: nat, f: nat)
    requires e == 255
    ensures Narrowest(neg, e, f) == if f > 0 then 0x7fff else Or(if neg then 0x8000 else 0, 0x7c00)
  {
    WithSign(neg, 0x7c00);
    hide Or, Narrow;
  }

  lemma HugeResult(neg: bool, e: nat, f: nat)
    requires 143 <= e < 255 && f < 0x80_0000
    ensures Narrowest(neg, e, f) == Or(if neg then 0x8000 else 0, 0x7c00)
  {
    WithSign(neg, 0x7c00);
    NarrowHuge(e, f);
    hide Or, Narrow;
  }

  lemma TinyResult(neg: bool, e: nat, f: nat)
    requires e < 102 && f < 0x80_0000
    ensures Narrowest(neg, e, f) == if neg then 0x8000 else 0
  {
    NarrowTiny(e, f);
    hide Narrow;
  }

  lemma FiniteResult(neg: bool, e: nat, f: nat)
    requires e < 255 && Narrow(e, f) <= 0x7c00
    ensures Narrowest(neg, e, f) == SignBit(neg) + Narrow(e, f)
  {
    hide Narrow;
  }

  lemma FitsHalf(ir: nat)
    requires ir < 0x1_0000
    ensures ir % 0x1_0000 == ir
  {
  }

  lemma SignBitIs(neg: bool)
    ensures SignBit(neg) == if neg then 0x8000 else 0
  {
  }

  /** The denormal branch, with the word sizes of the code. */
  lemma SubnormalResult(neg: bool, e: nat, f: nat)
    requires 102 <= e < 113 && f < 0x80_0000
    ensures var sig, n := 0x80_0000 + f, 126 - e;
      Narrowest(neg, e, f) == RoundUp(Or(SignBit(neg), Shr(sig, n)) % 0x1_0000, Shl32(sig, 32 - n))
  {
    hide *;
    SubnormalBits(neg, e, f);
    FiniteResult(neg, e, f);
    FitsHalf(Or(SignBit(neg), Shr(0x80_0000 + f, 126 - e)));
  }

  /** The normal branch, with the word sizes of the code. */
  lemma NormalResult(neg: bool, e: nat, f: nat)
    requires 113 <= e < 143 && f < 0x80_0000
    ensures var sig := 0x80_0000 + f;
      Narrowest(neg, e, f)
      == RoundUp((Or(SignBit(neg), Shr(sig, 13)) % 0x1_0000 + Scale(e - 113, 10)) % 0x1_0000, Shl32(sig, 19))
  {
    hide *;
    NormalBits(neg, e, f);
    FiniteResult(neg, e, f);
    var ir := Or(SignBit(neg), Shr(0x80_0000 + f, 13));
    FitsHalf(ir);
    FitsHalf(ir + Scale(e - 113, 10));
  }

  lemma RoundUpIs(ir: nat, dropped: nat)
    ensures RoundUp(ir, dropped)
      == if dropped > 0x8000_0000 || (dropped == 0x8000_0000 && And(ir, 1) != 0) then ir + 1 else ir
  {
  }

  lemma ResultSmall(neg: bool, e: nat, f: nat)
    ensures Narrowest(neg, e, f) < 0x1_0000
  {
    hide Narrow;
  }

  /** convert_float_to_halfint: the result is the binary16 encoding of the float, rounded to
      nearest, ties to even, with infinities kept and every NaN made the canonical one. */
  method ConvertFloatToHalfint(a: Bits32) returns (ir: Bits16)
    ensures ir == Encode(BINARY16, Decode(BINARY32, a))
  {
    hide *;
    ghost var neg, e, f := FloatFields(a);
    NarrowedEncoding(a, neg, e, f);
    ResultSmall(neg, e, f);
    SignBitIs(neg);
    var ia := a;
    ir := And(Shr(ia, 16), 0x8000);

    if And(ia, 0x7f80_0000) == 0x7f80_0000 {
      if And(ia, 0x7fff_ffff) == 0x7f80_0000 {
        SpecialResult(neg, e, f);
        ir := Or(ir, 0x7c00); // infinity
      } else {
        SpecialResult(neg, e, f);
        ir := 0x7fff; // canonical NaN
      }
    } else if And(ia, 0x7f80_0000) >= 0x3300_0000 {
      var shift := And(Shr(ia, 23), 0xff) - 127;
      if shift > 15 {
        HugeResult(neg, e, f);
        ir := Or(ir, 0x7c00); // infinity
      } else {
        ia := Or(And(ia, 0x007f_ffff), 0x0080_0000); // extract mantissa
        if shift < -14 { // denormal
          SubnormalResult(neg, e, f);
          ir := Or(ir, Shr(ia, -1 - shift)) % 0x1_0000;
          ia := Shl32(ia, 32 - (-1 - shift));
        } else { // normal
          NormalResult(neg, e, f);
          ir := Or(ir, Shr(ia, 24 - 11)) % 0x1_0000;
          ia := Shl32(ia, 32 - (24 - 11));
          ir := (ir + Scale(14 + shift, 10)) % 0x1_0000;
        }
        RoundUpIs(ir, ia);
        // IEEE-754 round to nearest of even
        if ia > 0x8000_0000 || (ia == 0x8000_0000 && And(ir, 1) != 0) {
          ir := (ir + 1) % 0x1_0000;
        }
      }
    } else {
      TinyResult(neg, e, f);
    }
  }

  // ----- widening -----

  /** A half as the code reads it: both zeros are the positive one. */
  function HalfDatum(h: Bits16): Datum {
    match Decode(BINARY16, h)
    case Finite(neg, mag) => Finite(neg && mag != 0.0, mag)
    case d => d
  }

  /** A value counts its quanta. */
  lemma ValueQuanta(f: Format, k: nat)
    ensures Value(f, k) * Quanta(f) == Mag(f.t, k) as real
  {
    hide Mag, Scale;
    RealOrder(Mag(f.t, k) as real, Quanta(f), Value(f, k));
  }

  lemma RoundQuanta(f: Format, x: Magnitude, q: real)
    requires q == x * Quanta(f)
    ensures Round(f, x) == Rne(f.t, q)
  {
    hide Rne, Scale;
  }

  /** The numbers of a format are rounded to themselves. */
  lemma RoundValue(f: Format, m: nat)
    requires f.t > 0
    ensures Round(f, Value(f, m)) == m
  {
    hide *;
    ValueQuanta(f, m);
    RneExact(f.t, m);
    RoundQuanta(f, Value(f, m), Mag(f.t, m) as real);
  }

  /** Decoding undoes encoding but for NaNs, whose payload is lost. */
  lemma EncodeDecode(f: Format, bits: nat)
    requires f.t > 0 && f.top + 1 < f.sign && bits < 2 * f.sign
    ensures Encode(f, Decode(f, bits)) == if Decode(f, bits).NaN? then f.sign - 1 else bits
  {
    hide Value, Round;
    RoundValue(f, if bits >= f.sign then bits - f.sign else bits);
  }

  /** The same number of quanta, at the finer quantum of binary32. */
  lemma WidenedValue(h: nat, m: nat)
    requires Mag(23, m) == Scale(Mag(10, h), 125)
    ensures Value(BINARY32, m) == Value(BINARY16, h)
  {
    hide Scale, Mag;
    var x, a, b := Mag(10, h), Scale(1, 24), Scale(1, 125);
    ScaleScale(1, 24, 125);
    ScaleOne(a, 125);
    ScaleOne(x, 125);
    RealTimes(a, b);
    RealTimes(x, b);
    RealCommon(x as real, a as real, b as real);
  }

  lemma RealCommon(x: real, a: real, b: real)
    requires a > 0.0 && b > 0.0
    ensures a * b > 0.0
    ensures (x * b) / (a * b) == x / a
  {
    var q := x / a;
    assert q * a == x;
    assert q * (a * b) == (q * a) * b;
    RealOrder(x * b, a * b, q);
  }

  /** A significand with its leading one in place is a normal float. */
  lemma WidenNormal(c: nat, e: nat)
    requires 0x400 <= c < 0x800 && 0 < e < 0xff
    ensures Mag(23, e * 0x80_0000 + (c - 0x400) * 0x2000) == Scale(c, e + 12)
  {
    assert Scale(1, 13) == 0x2000 by { PowerLiterals(); }
    hide Scale, Mag;
    FloatMag(e, (c - 0x400) * 0x2000);
    ScaleOne(c, 13);
    ScaleScale(c, 13, e - 1);
  }

  /** The fields, shifted into place, make the word. */
  lemma FloatWord(neg: bool, e: nat, f: nat)
    requires e < 0x100 && f < 0x400
    ensures Or(Or(Scale(if neg then 1 else 0, 31), Scale(e, 23)), Scale(f, 13))
      == (if neg then 0x8000_0000 else 0) + e * 0x80_0000 + f * 0x2000
  {
    PowerLiterals();
    hide Scale, Or;
    var s := if neg then 1 else 0;
    ScaleOne(s, 31);
    ScaleOne(e, 23);
    ScaleOne(f, 13);
    OrDisjoint(s, e * 0x80_0000, 31);
    ScaleOne(s * 0x100 + e, 23);
    OrDisjoint(s * 0x100 + e, f * 0x2000, 23);
  }

  lemma WithFloatSign(neg: bool, m: nat)
    requires m < 0x8000_0000
    ensures Or(m, Scale(if neg then 1 else 0, 31)) == m + if neg then 0x8000_0000 else 0
  {
    PowerLiterals();
    hide Scale, Or;
    ScaleOne(if neg then 1 else 0, 31);
    OrDisjoint(if neg then 1 else 0, m, 31);
  }

  /** The value of a half's fields in float quanta, before normalisation. */
  lemma HalfMag(e: nat, f: nat)
    requires e < 31 && f < 0x400
    ensures Scale(Mag(10, e * 0x400 + f), 125) == if e == 0 then Scale(f, 125) else Scale(0x400 + f, e + 124)
  {
    PowerLiterals();
    hide Scale, Mag;
    ScaleOne(e, 10);
    MagCode(10, e, f);
    if e > 0 {
      ScaleScale(0x400 + f, e - 1, 125);
    }
  }

  /** One turn of the normalisation loop: the tenth bit is clear, so there is room to double. */
  lemma NormalizeStep(m: nat, n: nat)
    requires m > 0 && Scale(m, n) < 0x800
    ensures And(Scale(m, n), 0x400) == 0 <==> Scale(m, n) < 0x400
    ensures Scale(m, n) < 0x400 ==> n < 10 && Scale(m, n + 1) == 2 * Scale(m, n)
    ensures Scale(m, n) >= 0x400 ==> And(Scale(m, n), 0x3ff) == Scale(m, n) - 0x400
  {
    var c := Scale(m, n);
    TenthBit(c);
    assert Scale(m, n + 1) == 2 * c;
    ScaleAtLeast(m, n);
    assert Scale(1, 10) == 0x400 by { PowerLiterals(); }
    hide Scale, And;
    if n >= 10 {
      ScaleGrows(10, n);
    }
  }

  lemma TenthBit(c: nat)
    requires c < 0x800
    ensures And(c, 0x400) == 0 <==> c < 0x400
    ensures c >= 0x400 ==> And(c, 0x3ff) == c - 0x400
  {
    assert Scale(1, 10) == 0x400 by { PowerLiterals(); }
    hide Scale, And, Low, Drop;
    Digit(c, 10);
    var d := Drop(c, 10);
    assert d <= 1 by { OneDigit(c, d, Low(c, 10)); }
    AndOne(d);
    AndShifted(c, 1, 10);
    ScaleOne(And(d, 1), 10);
    AndLowMask(c, 10);
  }

  lemma OneDigit(c: nat, d: nat, r: nat)
    requires c == d * 0x400 + r && c < 0x800
    ensures d <= 1
  {
  }

  /** A float with the value of the half reads as the half does. */
  lemma WidenedDatum(x: Bits16, neg: bool, h: nat, r: Bits32, m: nat)
    requires h < 0x7c00 && x == SignBit(neg) + h
    requires m < 0x7f80_0000 && r == m + if neg then 0x8000_0000 else 0
    requires h > 0 && Mag(23, m) == Scale(Mag(10, h), 125)
    ensures Decode(BINARY32, r) == HalfDatum(x) && HalfDatum(x).Finite?
  {
    hide Scale, Mag;
    WidenedValue(h, m);
    MagStrict(10, 0, h);
    ValuePositive(BINARY16, h);
    assert Decode(BINARY32, r) == Finite(neg, Value(BINARY32, m));
    assert Decode(BINARY16, x) == Finite(neg, Value(BINARY16, h));
  }

  lemma ValuePositive(f: Format, m: nat)
    ensures Value(f, m) == 0.0 <==> Mag(f.t, m) == 0
  {
    hide Mag, Scale;
    RealOrder(Mag(f.t, m) as real, Quanta(f), 0.0);
  }

  /** The word that the code assembles from the fields. */
  function Assembled(neg: bool, e: nat, f: nat): nat {
    Or(Or(Scale(if neg then 1 else 0, 31), Scale(e, 23)), Scale(f, 13))
  }

  /** Rebasing the exponent of a normal half widens it. */
  lemma WidenedNormal(x: Bits16, neg: bool, e: nat, m: nat)
    requires 0 < e < 31 && m < 0x400 && x == SignBit(neg) + e * 0x400 + m
    ensures var r := Assembled(neg, e + 112, m);
      r < 0x1_0000_0000 && Decode(BINARY32, r) == HalfDatum(x) && HalfDatum(x).Finite?
  {
    hide Scale, Mag, Or, Decode, HalfDatum, Assembled;
    AssembledIs(neg, e + 112, m);
    HalfMag(e, m);
    WidenNormal(0x400 + m, e + 112);
    WidenedDatum(x, neg, e * 0x400 + m, Assembled(neg, e + 112, m), (e + 112) * 0x80_0000 + m * 0x2000);
  }

  /** Shifting the significand while lowering the exponent keeps the value. */
  lemma SubnormalMag(m: nat, e: nat, c: nat)
    requires 0 < m < 0x400 && 103 <= e <= 113
    requires c == Scale(m, 113 - e) && 0x400 <= c < 0x800
    ensures Mag(23, e * 0x80_0000 + (c - 0x400) * 0x2000) == Scale(Mag(10, m), 125)
  {
    hide Mag, Scale;
    HalfMag(0, m);
    ScaleScale(m, 113 - e, e + 12);
    WidenNormal(c, e);
  }

  /** A subnormal half shifted until its leading one is in place widens to a normal float. */
  lemma WidenedSubnormal(x: Bits16, neg: bool, e: nat, m: nat, c: nat)
    requires 0 < m < 0x400 && x == SignBit(neg) + m
    requires 103 <= e <= 113 && c == Scale(m, 113 - e) && 0x400 <= c < 0x800
    ensures var r := Assembled(neg, e, And(c, 0x3ff));
      r < 0x1_0000_0000 && Decode(BINARY32, r) == HalfDatum(x) && HalfDatum(x).Finite?
  {
    hide Scale, Mag, And, Or, Decode, HalfDatum, Assembled;
    var f := c - 0x400;
    NormalizeStep(m, 113 - e);
    var r := Assembled(neg, e, f);
    AssembledIs(neg, e, f);
    SubnormalMag(m, e, c);
    WidenedDatum(x, neg, m, r, e * 0x80_0000 + f * 0x2000);
  }

  lemma AssembledIs(neg: bool, e: nat, f: nat)
    requires e < 0xff && f < 0x400
    ensures Assembled(neg, e, f) == (e * 0x80_0000 + f * 0x2000) + if neg then 0x8000_0000 else 0
    ensures Assembled(neg, e, f) < 0x1_0000_0000 && e * 0x80_0000 + f * 0x2000 < 0x7f80_0000
  {
    FloatWord(neg, e, f);
  }

  lemma ZeroDatum(x: Bits16, neg: bool)
    requires x == SignBit(neg)
    ensures Decode(BINARY32, 0) == HalfDatum(x) == Finite(false, 0.0)
  {
    assert Mag(10, 0) == 0 && Mag(23, 0) == 0 by { MagSmall(10, 0); MagSmall(23, 0); }
    hide Mag, Scale;
    ValuePositive(BINARY32, 0);
    ValuePositive(BINARY16, 0);
    assert Decode(BINARY16, x) == Finite(neg, Value(BINARY16, 0));
  }

  lemma SpecialDatum(x: Bits16, neg: bool, m: nat)
    requires m < 0x400 && x == SignBit(neg) + 0x7c00 + m
    ensures HalfDatum(x) == if m == 0 then Infinity(neg) else NaN
    ensures Decode(BINARY32, 0x7fff_ffff) == NaN
    ensures Decode(BINARY32, 0x7f80_0000 + if neg then 0x8000_0000 else 0) == Infinity(neg)
  {
  }

  /** convert_halfint_to_float: the float has exactly the half's value; the sign of zero and the
      payload of a NaN are lost. */
  method ConvertHalfintToFloat(x: Bits16) returns (f: Bits32)
    ensures Decode(BINARY32, f) == HalfDatum(x)
    ensures f == Encode(BINARY32, HalfDatum(x))
  {
    hide Scale, Low, Drop, Shr, And, Or, Mag, Rne, Decode, Encode, HalfDatum;
    ghost var neg, e, m := HalfFields(x);
    var sign := And(Shr(x, 15), 1);
    var exp: int := And(Shr(x, 10), 0x1f);
    var mantissa := And(x, 0x3ff);
    f := 0;

    if 0 < exp < 31 { // normal
      exp := exp + 112;
      WidenedNormal(x, neg, e, m);
      f := Or(Or(Scale(sign, 31), Scale(exp, 23)), Scale(mantissa, 13));
    } else if exp == 0 {
      if mantissa != 0 { // subnormal
        exp := exp + 113;
        ScaleZero(m);
        NormalizeStep(m, 0);
        while And(mantissa, 0x400) == 0
          invariant 0 < mantissa < 0x800
          invariant 103 <= exp <= 113
          invariant mantissa == Scale(m, 113 - exp)
          decreases exp
        {
          NormalizeStep(m, 113 - exp);
          mantissa := 2 * mantissa;
          exp := exp - 1;
          NormalizeStep(m, 113 - exp);
        }
        NormalizeStep(m, 113 - exp);
        WidenedSubnormal(x, neg, exp, m, mantissa);
        mantissa := And(mantissa, 0x3ff);
        f := Or(Or(Scale(sign, 31), Scale(exp, 23)), Scale(mantissa, 13));
      } else { // zero
        ZeroDatum(x, neg);
        f := 0;
      }
    } else if exp == 31 {
      SpecialDatum(x, neg, m);
      if mantissa != 0 {
        f := 0x7fff_ffff; // not a number
      } else {
        WithFloatSign(neg, 0x7f80_0000);
        f := Or(0x7f80_0000, Scale(sign, 31)); // inf
      }
    }
    EncodeDecode(BINARY32, f);
  }
}
