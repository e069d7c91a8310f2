/** Binary interchange formats and arithmetic of IEEE 754-2019: data, encodings, and operations
    that are exact on data and rounded once when encoded. */
module Ieee {
  import opened Powers
  import opened Rounding

  /** t trailing significand bits; top encodes the infinite magnitude; 1.0 is 2^q quanta. */
  datatype Format = Format(t: nat, top: nat, sign: nat, q: nat)

  const BINARY16 := Format(10, 0x7c00, 0x8000, 24)
  const BINARY32 := Format(23, 0x7f80_0000, 0x8000_0000, 149)

  type Magnitude = x: real | x >= 0.0

  datatype Datum = NaN | Infinity(neg: bool) | Finite(neg: bool, mag: Magnitude)

  function Quanta(f: Format): (r: real)
    ensures r > 0.0
  {
    Scale(1, f.q) as real
  }

  function Value(f: Format, m: nat): Magnitude {
    Mag(f.t, m) as real / Quanta(f)
  }

  /** Section 3.4: a sign bit above a biased exponent above a fraction. */
  function Decode(f: Format, bits: nat): Datum {
    var neg := bits >= f.sign;
    var m := if neg then bits - f.sign else bits;
    if m > f.top then NaN else if m == f.top then Infinity(neg) else Finite(neg, Value(f, m))
  }

  function Round(f: Format, x: Magnitude): nat {
    Rne(f.t, x * Quanta(f))
  }

  /** Section 4.3.1: roundTiesToEven, with overflow to infinity. NaNs share one encoding. */
  function Encode(f: Format, d: Datum): (bits: nat)
    requires f.top + 1 < f.sign
    ensures bits < 2 * f.sign
  {
    match d
    case NaN => f.sign - 1
    case Infinity(neg) => Signed(f, neg, f.top)
    case Finite(neg, mag) => Signed(f, neg, var m := Round(f, mag); if m > f.top then f.top else m)
  }

  function Signed(f: Format, neg: bool, m: nat): nat {
    if neg then f.sign + m else m
  }

  // ----- section 6.1 to 6.3 and 5.4.1: operations on data, before rounding -----

  function Real(d: Datum): real
    requires d.Finite?
  {
    var m: real := d.mag;
    if d.neg then -m else m
  }

  function FromReal(x: real): Datum {
    if x < 0.0 then Finite(true, -x) else Finite(false, x)
  }

  function Negate(d: Datum): Datum {
    match d
    case NaN => NaN
    case Infinity(neg) => Infinity(!neg)
    case Finite(neg, mag) => Finite(!neg, mag)
  }

  function Plus(x: Datum, y: Datum): Datum {
    match (x, y)
    case (NaN, _) => NaN
    case (_, NaN) => NaN
    case (Infinity(p), Infinity(q)) => if p == q then x else NaN
    case (Infinity(_), _) => x
    case (_, Infinity(_)) => y
    case (Finite(p, _), Finite(q, _)) =>
      var sum := Real(x) + Real(y);
      if sum == 0.0 then Finite(p && q, 0.0) else FromReal(sum)
  }

  function Minus(x: Datum, y: Datum): Datum {
    Plus(x, Negate(y))
  }

  function Times(x: Datum, y: Datum): Datum {
    match (x, y)
    case (NaN, _) => NaN
    case (_, NaN) => NaN
    case (Infinity(p), Infinity(q)) => Infinity(p != q)
    case (Infinity(p), Finite(q, mag)) => if mag == 0.0 then NaN else Infinity(p != q)
    case (Finite(p, mag), Infinity(q)) => if mag == 0.0 then NaN else Infinity(p != q)
    case (Finite(p, a), Finite(q, b)) => Finite(p != q, Product(a, b))
  }

  function Over(x: Datum, y: Datum): Datum {
    match (x, y)
    case (NaN, _) => NaN
    case (_, NaN) => NaN
    case (Infinity(p), Infinity(q)) => NaN
    case (Infinity(p), Finite(q, _)) => Infinity(p != q)
    case (Finite(p, _), Infinity(q)) => Finite(p != q, 0.0)
    case (Finite(p, a), Finite(q, b)) =>
      if b == 0.0 then (if a == 0.0 then NaN else Infinity(p != q)) else Finite(p != q, Quotient(a, b))
  }

  function Product(a: Magnitude, b: Magnitude): Magnitude {
    a * b
  }

  function Quotient(a: Magnitude, b: Magnitude): Magnitude
    requires b != 0.0
  {
    a / b
  }

  /** Section 5.11: the order of numbers; nothing is less than a NaN, or than a zero by sign. */
  predicate Less(x: Datum, y: Datum) {
    match (x, y)
    case (NaN, _) => false
    case (_, NaN) => false
    case (Infinity(p), Infinity(q)) => p && !q
    case (Infinity(p), _) => p
    case (_, Infinity(q)) => !q
    case (Finite(_, _), Finite(_, _)) => Real(x) < Real(y)
  }
}
