/** Unsigned machine words as bounded naturals, with the bit operations of C++ on them. */
module BitOps {
  import opened Powers

  type Bits16 = x: int | 0 <= x < 0x1_0000
  type Bits32 = x: int | 0 <= x < 0x1_0000_0000

  /** Bitwise and, digit by digit. */
  function And(a: nat, b: nat): (c: nat)
    ensures c <= a && c <= b
  {
    if a == 0 || b == 0 then 0 else 2 * And(a / 2, b / 2) + (if a % 2 == 1 && b % 2 == 1 then 1 else 0)
  }

  /** Bitwise or, digit by digit. */
  function Or(a: nat, b: nat): nat
    decreases a + b
  {
    if a == 0 then b else if b == 0 then a else
    2 * Or(a / 2, b / 2) + (if a % 2 == 1 || b % 2 == 1 then 1 else 0)
  }

  function Shr(x: nat, n: nat): nat {
    Drop(x, n)
  }

  /** Left shift of a 32-bit word: bits shifted out at the top are lost. */
  function Shl32(x: Bits32, n: nat): Bits32 {
    Scale(x, n) % 0x1_0000_0000
  }

  lemma {:induction false} AndSelf(a: nat)
    ensures And(a, a) == a
  {
    if a != 0 {
      AndSelf(a / 2);
    }
  }

  /** A mask of low ones takes the remainder. */
  lemma {:induction false} AndLowMask(a: nat, n: nat)
    ensures And(a, Scale(1, n) - 1) == Low(a, n)
  {
    if n > 0 {
      var h := Scale(1, n - 1);
      assert (2 * h - 1) / 2 == h - 1 && (2 * h - 1) % 2 == 1;
      AndLowMask(a / 2, n - 1);
    }
  }

  /** A mask shifted left selects from the word shifted right. */
  lemma {:induction false} AndShifted(a: nat, m: nat, n: nat)
    ensures And(a, Scale(m, n)) == Scale(And(Drop(a, n), m), n)
  {
    if n > 0 {
      AndShifted(a / 2, m, n - 1);
    }
  }

  /** Or of two words whose ones cannot meet is their sum. */
  lemma {:induction false} OrDisjoint(a: nat, b: nat, n: nat)
    requires b < Scale(1, n)
    ensures Or(Scale(a, n), b) == Or(b, Scale(a, n)) == Scale(a, n) + b
  {
    if n > 0 {
      OrDisjoint(a, b / 2, n - 1);
    }
  }

  /** n & (n - 1) is zero exactly for zero and the powers of two. */
  lemma {:induction false} AndPredecessor(n: nat)
    requires n != 0
    ensures And(n, n - 1) == 0 <==> exists k: nat :: Scale(1, k) == n
  {
    var m := n / 2;
    if n == 1 {
      assert Scale(1, 0) == n;
    } else if n % 2 == 1 {
      AndSelf(m);
      forall k: nat ensures Scale(1, k) != n {
        assert k > 0 ==> Scale(1, k) == 2 * Scale(1, k - 1);
      }
    } else {
      AndPredecessor(m);
      assert (n - 1) / 2 == m - 1 && (n - 1) % 2 == 1;
      if k: nat :| Scale(1, k) == m {
        assert Scale(1, k + 1) == n;
      }
      if k: nat :| Scale(1, k) == n {
        assert k > 0 && Scale(1, k - 1) == m;
      }
    }
  }
}
