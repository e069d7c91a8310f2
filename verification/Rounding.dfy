/** Rounding to nearest, ties to even, for any binary format with t trailing significand bits.
    A magnitude encoding k holds a biased exponent above t trailing bits; values count quanta,
    the distance between the smallest numbers of the format. Encodings go on past the largest
    finite one, which is rounding with an unbounded exponent (section 4.3.1 of IEEE 754-2019). */
module Rounding {
  import opened Powers

  /** The value of encoding k in quanta (section 3.4 of IEEE 754-2019). */
  function Mag(t: nat, k: nat): nat {
    var e, f := Drop(k, t), Low(k, t);
    if e == 0 then f else Scale(Scale(1, t) + f, e - 1)
  }

  function Dist(x: real, y: real): real {
    if x <= y then y - x else x - y
  }

  /** No encoding is nearer to x than k, and k is even when another one is as near. */
  ghost predicate Nearest(t: nat, x: real, k: nat) {
    forall j: nat ::
      && Dist(x, Mag(t, k) as real) <= Dist(x, Mag(t, j) as real)
      && (Dist(x, Mag(t, k) as real) == Dist(x, Mag(t, j) as real) && j != k ==> k % 2 == 0)
  }

  function TiesToEven(x: real): (k: nat)
    requires x >= 0.0
  {
    var f := x.Floor;
    var rest := x - f as real;
    if rest < 0.5 || (rest == 0.5 && f % 2 == 0) then f else f + 1
  }

  /** The encoding that x rounds to: halving x lowers the biased exponent by one. */
  function Rne(t: nat, x: real): (k: nat)
    requires x >= 0.0
    decreases x.Floor
  {
    var hidden := Scale(1, t);
    if x < 2.0 * hidden as real then TiesToEven(x) else hidden + Rne(t, x / 2.0)
  }

  // ----- the shape of the encoding -----

  /** The value of biased exponent e and fraction f. */
  lemma MagCode(t: nat, e: nat, f: nat)
    requires f < Scale(1, t)
    ensures Mag(t, Scale(e, t) + f) == if e == 0 then f else Scale(Scale(1, t) + f, e - 1)
  {
    DropLowUnique(e, f, t);
  }

  /** Every encoding is some exponent and fraction. */
  lemma Code(t: nat, k: nat) returns (e: nat, f: nat)
    ensures k == Scale(e, t) + f && f < Scale(1, t)
    ensures e == 0 <==> k < Scale(1, t)
  {
    e, f := Drop(k, t), Low(k, t);
    DropLow(k, t);
    ScaleMono(e, 1, t);
  }

  lemma ScaleDigit(q: nat, t: nat)
    requires q <= 2
    ensures Scale(q, t) == q * Scale(1, t)
  {
    if q == 2 {
      ScaleSum(1, 1, t);
    }
  }

  lemma MagSmall(t: nat, k: nat)
    requires k <= 2 * Scale(1, t)
    ensures Mag(t, k) == k
  {
    var hidden := Scale(1, t);
    ScaleDigit(0, t);
    ScaleDigit(2, t);
    if k < hidden {
      MagCode(t, 0, k);
    } else if k < 2 * hidden {
      MagCode(t, 1, k - hidden);
      assert Scale(k, 0) == k;
    } else {
      MagCode(t, 2, 0);
      assert Scale(hidden, 1) == 2 * Scale(hidden, 0);
    }
  }

  lemma MagDouble(t: nat, k: nat)
    requires k >= Scale(1, t)
    ensures Mag(t, k + Scale(1, t)) == 2 * Mag(t, k)
  {
    hide Mag, Drop, Low;
    var e, f := Code(t, k);
    MagCode(t, e, f);
    ScaleSum(e, 1, t);
    MagCode(t, e + 1, f);
  }

  lemma MagAt(t: nat, s: nat, n: nat)
    requires Scale(1, t) <= n < 2 * Scale(1, t)
    ensures Mag(t, Scale(s, t) + n) == Scale(n, s)
  {
    hide Mag, Scale;
    ScaleSum(s, 1, t);
    MagCode(t, s + 1, n - Scale(1, t));
  }

  lemma {:induction false} MagStrict(t: nat, j: nat, k: nat)
    requires j < k
    ensures Mag(t, j) < Mag(t, k)
    decreases k
  {
    hide Mag, Scale;
    var hidden := Scale(1, t);
    if k <= 2 * hidden {
      MagSmall(t, j);
      MagSmall(t, k);
    } else {
      MagDouble(t, k - hidden);
      if j <= 2 * hidden {
        MagSmall(t, j);
        MagSmall(t, hidden);
        MagStrict(t, hidden, k - hidden);
      } else {
        MagDouble(t, j - hidden);
        MagStrict(t, j - hidden, k - hidden);
      }
    }
  }

  // ----- rounding is nearest, unique and monotone -----

  /** x lies between the midpoints around k; a midpoint itself goes to the even side. */
  ghost predicate Between(t: nat, x: real, k: nat) {
    && (k > 0 ==> (Mag(t, k - 1) + Mag(t, k)) as real <= 2.0 * x)
    && (k > 0 && (Mag(t, k - 1) + Mag(t, k)) as real == 2.0 * x ==> k % 2 == 0)
    && 2.0 * x <= (Mag(t, k) + Mag(t, k + 1)) as real
    && (2.0 * x == (Mag(t, k) + Mag(t, k + 1)) as real ==> k % 2 == 0)
  }

  lemma TiesBetween(t: nat, x: real)
    requires 0.0 <= x < 2.0 * Scale(1, t) as real
    ensures Between(t, x, TiesToEven(x))
    ensures TiesToEven(x) <= 2 * Scale(1, t)
  {
    hide Mag, Scale;
    var k := TiesToEven(x);
    MagSmall(t, k);
    if k > 0 {
      MagSmall(t, k - 1);
    }
    if k < 2 * Scale(1, t) {
      MagSmall(t, k + 1);
    } else {
      MagStrict(t, k, k + 1);
    }
  }

  lemma HiddenEven(t: nat)
    requires t > 0
    ensures Scale(1, t) % 2 == 0
  {
    var half := Scale(1, t - 1);
    assert Scale(1, t) == 2 * half;
    hide Scale;
  }

  lemma DoubleBelow(t: nat, x: real, k: nat, below: nat)
    requires t > 0 && x >= Scale(1, t) as real && k >= Scale(1, t) && Between(t, x, k)
    requires below == k + Scale(1, t) - 1
    ensures (Mag(t, below) + 2 * Mag(t, k)) as real <= 4.0 * x
    ensures (Mag(t, below) + 2 * Mag(t, k)) as real == 4.0 * x ==> k % 2 == 0
  {
    hide Mag, Scale;
    if k > Scale(1, t) {
      MagDouble(t, k - 1);
      assert k - 1 + Scale(1, t) == below;
    } else {
      MagSmall(t, below);
      MagSmall(t, k);
    }
  }

  /** Doubling x moves the encoding up by one exponent. */
  lemma BetweenDouble(t: nat, x: real, k: nat)
    requires t > 0 && x >= Scale(1, t) as real && k >= Scale(1, t) && Between(t, x, k)
    ensures Between(t, 2.0 * x, k + Scale(1, t))
  {
    hide Mag, Scale;
    HiddenEven(t);
    MagDouble(t, k);
    MagDouble(t, k + 1);
    DoubleBelow(t, x, k, k + Scale(1, t) - 1);
  }

  lemma {:induction false} RneBetween(t: nat, x: real)
    requires t > 0 && x >= 0.0
    ensures Between(t, x, Rne(t, x))
    ensures x >= Scale(1, t) as real ==> Rne(t, x) >= Scale(1, t)
    decreases x.Floor
  {
    hide Between;
    if x < 2.0 * Scale(1, t) as real {
      TiesBetween(t, x);
    } else {
      RneBetween(t, x / 2.0);
      BetweenDouble(t, x / 2.0, Rne(t, x / 2.0));
    }
  }

  lemma BetweenUnique(t: nat, x: real, y: real, j: nat, k: nat)
    requires Between(t, x, j) && Between(t, y, k) && x <= y
    ensures j <= k
  {
    hide Mag;
    if k < j {
      if k + 1 < j {
        MagStrict(t, k, j - 1);
        MagStrict(t, k + 1, j);
      }
    }
  }

  lemma RneMono(t: nat, x: real, y: real)
    requires t > 0 && 0.0 <= x <= y
    ensures Rne(t, x) <= Rne(t, y)
  {
    RneBetween(t, x);
    RneBetween(t, y);
    BetweenUnique(t, x, y, Rne(t, x), Rne(t, y));
  }

  lemma RneIs(t: nat, x: real, k: nat)
    requires t > 0 && x >= 0.0 && Between(t, x, k)
    ensures Rne(t, x) == k
  {
    RneBetween(t, x);
    BetweenUnique(t, x, x, Rne(t, x), k);
    BetweenUnique(t, x, x, k, Rne(t, x));
  }

  /** Rounding leaves the numbers of the format alone. */
  lemma RneExact(t: nat, k: nat)
    requires t > 0
    ensures Rne(t, Mag(t, k) as real) == k
  {
    hide Mag;
    MagStrict(t, k, k + 1);
    if k > 0 {
      MagStrict(t, k - 1, k);
    }
    RneIs(t, Mag(t, k) as real, k);
  }

  /** Rounding looks at the number below x and at the midpoint after it. */
  lemma RneSplit(t: nat, x: real, k: nat)
    requires t > 0 && Mag(t, k) as real <= x < Mag(t, k + 1) as real
    ensures var mid := (Mag(t, k) + Mag(t, k + 1)) as real;
      Rne(t, x) == if 2.0 * x < mid || (2.0 * x == mid && k % 2 == 0) then k else k + 1
  {
    hide Mag, Rne;
    if k > 0 {
      MagStrict(t, k - 1, k);
    }
    MagStrict(t, k + 1, k + 2);
    var mid := (Mag(t, k) + Mag(t, k + 1)) as real;
    RneIs(t, x, if 2.0 * x < mid || (2.0 * x == mid && k % 2 == 0) then k else k + 1);
  }

  /** The main property of Rne: it is the nearest encoding, and the only one that is. */
  lemma RneNearest(t: nat, x: real, k: nat)
    requires t > 0 && x >= 0.0
    ensures Nearest(t, x, k) <==> k == Rne(t, x)
  {
    if k == Rne(t, x) {
      RneBetween(t, x);
      forall j: nat
        ensures Dist(x, Mag(t, k) as real) <= Dist(x, Mag(t, j) as real)
        ensures Dist(x, Mag(t, k) as real) == Dist(x, Mag(t, j) as real) && j != k ==> k % 2 == 0
      {
        BetweenNearer(t, x, k, j);
      }
    }
    if Nearest(t, x, k) {
      NearestBetween(t, x, k);
      RneIs(t, x, k);
    }
  }

  lemma BetweenNearer(t: nat, x: real, k: nat, j: nat)
    requires Between(t, x, k)
    ensures Dist(x, Mag(t, k) as real) <= Dist(x, Mag(t, j) as real)
    ensures Dist(x, Mag(t, k) as real) == Dist(x, Mag(t, j) as real) && j != k ==> k % 2 == 0
  {
    hide Mag;
    if j < k {
      MagStrict(t, j, k);
      if j < k - 1 {
        MagStrict(t, j, k - 1);
      }
    } else if k < j {
      MagStrict(t, k, j);
      if k + 1 < j {
        MagStrict(t, k + 1, j);
      }
    }
  }

  lemma NearestBetween(t: nat, x: real, k: nat)
    requires Nearest(t, x, k)
    ensures Between(t, x, k)
  {
    hide Mag;
    assert Dist(x, Mag(t, k) as real) <= Dist(x, Mag(t, k + 1) as real);
    MagStrict(t, k, k + 1);
    if k > 0 {
      assert Dist(x, Mag(t, k) as real) <= Dist(x, Mag(t, k - 1) as real);
      MagStrict(t, k - 1, k);
    }
  }

  // ----- which numbers a format holds -----

  /** The encoding of n * 2^s when n fits the significand: shift the leading one into place. */
  function Enc(t: nat, n: nat, s: nat): nat
    decreases s
  {
    if s == 0 then n else if n < Scale(1, t) then Enc(t, 2 * n, s - 1) else Scale(s, t) + n
  }

  lemma {:induction false} EncValue(t: nat, n: nat, s: nat)
    requires n <= 2 * Scale(1, t)
    ensures n < 2 * Scale(1, t) || s == 0 ==> Mag(t, Enc(t, n, s)) == Scale(n, s)
    decreases s
  {
    if s == 0 {
      MagSmall(t, n);
    } else if n < Scale(1, t) {
      EncValue(t, 2 * n, s - 1);
      ScaleScale(n, 1, s - 1);
    } else if n < 2 * Scale(1, t) {
      MagAt(t, s, n);
    }
  }

  /** Every encoding is a significand below 2^(t+1) scaled; the next one adds one unit of it. */
  lemma MagParts(t: nat, k: nat) returns (c: nat, s: nat)
    ensures Mag(t, k) == Scale(c, s) && Mag(t, k + 1) == Scale(c + 1, s)
    ensures c < 2 * Scale(1, t) && (s == 0 || c >= Scale(1, t))
    ensures c >= Scale(1, t) ==> k == Scale(s, t) + c
  {
    hide Mag;
    var hidden := Scale(1, t);
    if k < 2 * hidden {
      c, s := k, 0;
      MagSmall(t, k);
      MagSmall(t, k + 1);
    } else {
      var e, f := Code(t, k);
      s, c := e - 1, hidden + f;
      ScaleSum(s, 1, t);
      MagAt(t, s, c);
      if f + 1 < hidden {
        MagAt(t, s, c + 1);
      } else {
        ScaleSum(s, 1, t);
        MagAt(t, s + 1, hidden);
        ScaleScale(hidden, 1, s);
      }
    }
  }
}
