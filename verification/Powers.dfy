/** Multiplication and division by powers of two, one factor of two at a time. */
module Powers {

  /** m * 2^s */
  function Scale(m: nat, s: nat): (r: nat)
    ensures m <= r
    ensures m == 0 <==> r == 0
  {
    if s == 0 then m else 2 * Scale(m, s - 1)
  }

  /** x / 2^n, rounded down */
  function Drop(x: nat, n: nat): (r: nat)
    ensures r <= x
  {
    if n == 0 then x else Drop(x / 2, n - 1)
  }

  /** x mod 2^n */
  function Low(x: nat, n: nat): (r: nat)
    ensures r <= x && r < Scale(1, n)
  {
    if n == 0 then 0 else 2 * Low(x / 2, n - 1) + x % 2
  }

  lemma {:induction false} DropLow(x: nat, n: nat)
    ensures x == Scale(Drop(x, n), n) + Low(x, n)
  {
    if n > 0 {
      DropLow(x / 2, n - 1);
    }
  }

  /** Quotient and remainder are determined by what they satisfy. */
  lemma {:induction false} DropLowUnique(q: nat, r: nat, n: nat)
    requires r < Scale(1, n)
    ensures Drop(Scale(q, n) + r, n) == q && Low(Scale(q, n) + r, n) == r
  {
    if n > 0 {
      var x := Scale(q, n) + r;
      assert x / 2 == Scale(q, n - 1) + r / 2 && x % 2 == r % 2;
      DropLowUnique(q, r / 2, n - 1);
    }
  }

  lemma {:induction false} ScaleSum(a: nat, b: nat, s: nat)
    ensures Scale(a + b, s) == Scale(a, s) + Scale(b, s)
  {
    if s > 0 {
      ScaleSum(a, b, s - 1);
    }
  }

  lemma {:induction false} ScaleMono(a: nat, b: nat, s: nat)
    ensures a < b <==> Scale(a, s) < Scale(b, s)
  {
    if s > 0 {
      ScaleMono(a, b, s - 1);
    }
  }

  lemma {:induction false} ScaleScale(m: nat, s: nat, t: nat)
    ensures Scale(Scale(m, s), t) == Scale(m, s + t)
  {
    if t > 0 {
      ScaleScale(m, s, t - 1);
    }
  }

  lemma {:induction false} ScaleTimes(a: nat, b: nat, s: nat)
    ensures Scale(a * b, s) == Scale(a, s) * b
  {
    if s > 0 {
      ScaleTimes(a, b, s - 1);
    }
  }

  lemma ScaleOne(q: nat, n: nat)
    ensures Scale(q, n) == q * Scale(1, n)
  {
    ScaleTimes(1, q, n);
  }

  lemma Digit(a: nat, n: nat)
    ensures a == Drop(a, n) * Scale(1, n) + Low(a, n) && Low(a, n) < Scale(1, n)
  {
    DropLow(a, n);
    ScaleOne(Drop(a, n), n);
  }

  lemma {:induction false} Drops(a: nat, m: nat, n: nat)
    ensures Drop(Drop(a, m), n) == Drop(a, m + n)
  {
    if m > 0 {
      Drops(a / 2, m - 1, n);
    }
  }

  lemma ScaleZero(f: nat)
    ensures Scale(f, 0) == f
  {
  }

  lemma ScaleNext(s: nat)
    ensures Scale(1, s + 1) == 2 * Scale(1, s)
  {
  }

  lemma {:induction false} ScaleGrows(a: nat, b: nat)
    requires a <= b
    ensures Scale(1, a) <= Scale(1, b)
  {
    if a < b {
      ScaleGrows(a, b - 1);
    }
  }

  lemma {:induction false} DropBound(x: nat, b: nat, n: nat)
    requires n <= b && x < Scale(1, b)
    ensures Drop(x, n) < Scale(1, b - n)
    decreases n
  {
    if n > 0 {
      DropBound(x / 2, b - 1, n - 1);
    }
  }

  lemma {:induction false} ScaleAtLeast(m: nat, n: nat)
    requires m > 0
    ensures Scale(1, n) <= Scale(m, n)
  {
    if n > 0 {
      ScaleAtLeast(m, n - 1);
    }
  }

  lemma ScaleOnce(m: nat)
    ensures Scale(m, 1) == 2 * m
  {
  }

  /** The powers that appear as literals in the encodings. */
  lemma PowerLiterals()
    ensures Scale(1, 5) == 0x20 && Scale(1, 8) == 0x100
    ensures Scale(1, 10) == 0x400 && Scale(1, 12) == 0x1000 && Scale(1, 13) == 0x2000
    ensures Scale(1, 15) == 0x8000 && Scale(1, 16) == 0x1_0000 && Scale(1, 23) == 0x80_0000
    ensures Scale(1, 24) == 0x100_0000 && Scale(1, 31) == 0x8000_0000
  {
  }
}
