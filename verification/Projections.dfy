/** Affine symbolic expressions and how they print. */
module Projections {
  import opened Wrappers
  import opened Decimals

  const UNSET := 0xFFFF_FFFF

  newtype Int32 = x: int | -0x8000_0000 <= x < 0x8000_0000

  /** weight * dim + offset; with dimension UNSET, the constant offset. */
  datatype Expr = Expr(dim: nat, weight: Int32, offset: Int32)

  const DEFAULT := Expr(UNSET, 1, 0)

  function Constant(value: Int32): Expr {
    Expr(UNSET, 0, value)
  }

  /** What an expression is worth at a point. */
  function Eval(e: Expr, x: nat -> int): int {
    if e.dim == UNSET then e.offset as int else e.weight as int * x(e.dim) + e.offset as int
  }

  ghost predicate Same(e: Expr, f: Expr) {
    forall x: nat -> int :: Eval(e, x) == Eval(f, x)
  }

  // ----- printing -----

  function Signed(n: int): string {
    if n < 0 then "-" + Digits(-n) else Digits(n)
  }

  function Term(e: Expr): string {
    if e.weight == 0 then ""
    else (if e.weight == 1 then "" else Signed(e.weight as int) + "*") + "COORD" + Digits(e.dim)
  }

  function Text(e: Expr): string {
    var term := Term(e);
    term + (if e.offset == 0 && term != "" then ""
            else (if term != "" && e.offset > 0 then "+" else "") + Signed(e.offset as int))
  }

  method ToString(e: Expr) returns (result: string)
    ensures result == Text(e)
  {
    hide Signed, Digits;
    result := "";
    if e.weight != 0 {
      if e.weight != 1 {
        result := result + Signed(e.weight as int) + "*";
      }
      result := result + "COORD" + Digits(e.dim);
      assert result == Term(e);
    }
    if e.offset != 0 || result == "" {
      result := result + (if result != "" && e.offset > 0 then "+" else "") + Signed(e.offset as int);
    }
  }

  // ----- reading back -----

  /** What can be told from a print: the dimension and weight unless the weight is zero, and the
      offset. */
  datatype Affine = Affine(term: Option<(nat, int)>, offset: int)

  function Meaning(e: Expr): Affine {
    Affine(if e.weight == 0 then None else Some((e.dim, e.weight as int)), e.offset as int)
  }

  function ReadSigned(s: string, i: nat): Option<(int, nat)>
    requires i <= |s|
  {
    var start := if i < |s| && s[i] == '-' then i + 1 else i;
    var k := DigitsEnd(s, start);
    if k == start then None
    else
      var n: int := Number(s[start..k]);
      Some((if start > i then -n else n, k))
  }

  /** The dimension at i, and the offset after it. */
  function ReadTerm(s: string, i: nat, weight: int): Option<Affine>
    requires i <= |s|
  {
    if i + 5 > |s| || s[i..i + 5] != "COORD" then None else
    var k := DigitsEnd(s, i + 5);
    if k == i + 5 then None else
    var dim := Number(s[i + 5..k]);
    if k == |s| then Some(Affine(Some((dim, weight)), 0)) else
    var offset := ReadSigned(s, if s[k] == '+' then k + 1 else k);
    if offset.None? || offset.value.1 != |s| then None else Some(Affine(Some((dim, weight)), offset.value.0))
  }

  function Read(s: string): Option<Affine> {
    if s != "" && s[0] == 'C' then ReadTerm(s, 0, 1) else
    var n := ReadSigned(s, 0);
    if n.None? then None else
    var (value, k) := n.value;
    if k == |s| then Some(Affine(None, value))
    else if k < |s| && s[k] == '*' then ReadTerm(s, k + 1, value)
    else None
  }

  // ----- a print reads back -----

  lemma DigitsHere(s: string, i: nat, n: nat, k: nat)
    requires i <= k <= |s| && s[i..k] == Digits(n) && (k < |s| ==> !IsDigit(s[k]))
    ensures DigitsEnd(s, i) == k && i < k && Number(s[i..k]) == n
  {
    NumberOfDigits(n);
    hide Digits, Number;
    var e := DigitsEnd(s, i);
    assert forall j :: i <= j < k ==> s[i..k][j - i] == s[j];
    assert forall j :: i <= j < e ==> s[i..e][j - i] == s[j];
  }

  lemma SignedHere(s: string, i: nat, n: int, k: nat)
    requires i <= k <= |s| && s[i..k] == Signed(n) && (k < |s| ==> !IsDigit(s[k]))
    ensures ReadSigned(s, i) == Some((n, k))
  {
    SignedFirst(n);
    assert s[i] == s[i..k][0];
    if n < 0 {
      assert s[i + 1..k] == s[i..k][1..] == Digits(-n);
      DigitsHere(s, i + 1, -n, k);
    } else {
      DigitsHere(s, i, n, k);
    }
    hide Digits, DigitsEnd, Number;
  }

  function Tail(offset: int): string {
    if offset == 0 then "" else (if offset > 0 then "+" else "") + Signed(offset)
  }

  lemma TailFirst(offset: int)
    ensures Tail(offset) == "" <==> offset == 0
    ensures offset != 0 ==> Tail(offset)[0] == (if offset > 0 then '+' else '-')
  {
  }

  lemma TailHere(s: string, k: nat, offset: int)
    requires k < |s| && s[k..] == Tail(offset)
    ensures ReadSigned(s, if s[k] == '+' then k + 1 else k) == Some((offset, |s|))
  {
    hide ReadSigned, Digits;
    assert s[k] == s[k..][0];
    var i := if s[k] == '+' then k + 1 else k;
    assert s[i..|s|] == if s[k] == '+' then s[k..][1..] else s[k..];
    TailFirst(offset);
    assert s[i..|s|] == Signed(offset);
    SignedHere(s, i, offset, |s|);
  }

  lemma TermHere(s: string, i: nat, k: nat, dim: nat, offset: int, weight: int)
    requires i + 5 <= k <= |s| && s[i..i + 5] == "COORD" && s[i + 5..k] == Digits(dim) && s[k..] == Tail(offset)
    ensures ReadTerm(s, i, weight) == Some(Affine(Some((dim, weight)), offset))
  {
    TailFirst(offset);
    hide Digits, Tail, Number;
    if k < |s| {
      assert s[k] == s[k..][0];
    }
    DigitsHere(s, i + 5, dim, k);
    hide DigitsEnd;
    if k < |s| {
      TailHere(s, k, offset);
    }
    hide ReadSigned;
  }

  /** Where the parts of a term are, behind a prefix. */
  lemma TermParts(pre: string, d: string, tail: string)
    ensures var s, i := pre + "COORD" + d + tail, |pre|;
      && i + 5 + |d| <= |s| && s[..i] == pre && s[i..i + 5] == "COORD" && s[i + 5..i + 5 + |d|] == d
        && s[i + 5 + |d|..] == tail
  {
  }

  lemma ReadTail(pre: string, dim: nat, offset: int, weight: int)
    ensures ReadTerm(pre + "COORD" + Digits(dim) + Tail(offset), |pre|, weight)
      == Some(Affine(Some((dim, weight)), offset))
  {
    hide *;
    TermParts(pre, Digits(dim), Tail(offset));
    TermHere(pre + "COORD" + Digits(dim) + Tail(offset), |pre|, |pre| + 5 + |Digits(dim)|, dim, offset, weight);
  }

  /** The three forms of a print. */
  lemma TextForms(e: Expr)
    ensures e.weight == 0 ==> Text(e) == Signed(e.offset as int)
    ensures e.weight == 1 ==> Text(e) == "" + "COORD" + Digits(e.dim) + Tail(e.offset as int)
    ensures e.weight != 0 && e.weight != 1
      ==> Text(e) == Signed(e.weight as int) + "*" + "COORD" + Digits(e.dim) + Tail(e.offset as int)
  {
    hide Signed, Digits;
  }

  lemma ReadConstant(n: int)
    ensures Read(Signed(n)) == Some(Affine(None, n))
  {
    var s := Signed(n);
    SignedFirst(n);
    assert s[0..|s|] == s;
    SignedHere(s, 0, n, |s|);
    hide Signed, ReadSigned, ReadTerm;
  }

  lemma ReadWeighted(n: int, rest: string)
    ensures Read(Signed(n) + "*" + rest) == ReadTerm(Signed(n) + "*" + rest, |Signed(n)| + 1, n)
  {
    var s, k := Signed(n) + "*" + rest, |Signed(n)|;
    SignedFirst(n);
    hide Signed, ReadSigned, ReadTerm;
    assert s[0..k] == Signed(n);
    assert s[0] == Signed(n)[0] && s[k] == '*';
    SignedHere(s, 0, n, k);
  }

  /** Reading a print gives back everything but the dimension of a zero weight. */
  lemma ReadText(e: Expr)
    ensures Read(Text(e)) == Some(Meaning(e))
  {
    hide *;
    var offset, weight := e.offset as int, e.weight as int;
    TextForms(e);
    MeaningForms(e);
    if weight == 0 {
      ReadConstant(offset);
    } else if weight == 1 {
      ReadTail("", e.dim, offset, 1);
      ReadUnweighted(Digits(e.dim) + Tail(offset));
      assert Text(e) == "COORD" + (Digits(e.dim) + Tail(offset));
    } else {
      var rest := "COORD" + Digits(e.dim) + Tail(offset);
      ReadWeighted(weight, rest);
      assert Signed(weight) + "*" + rest == Text(e);
      ReadTail(Signed(weight) + "*", e.dim, offset, weight);
    }
  }

  lemma ReadUnweighted(rest: string)
    ensures Read("COORD" + rest) == ReadTerm("COORD" + rest, 0, 1)
  {
    hide ReadTerm, ReadSigned;
  }

  lemma MeaningForms(e: Expr)
    ensures Meaning(e) == Affine(if e.weight == 0 then None else Some((e.dim, e.weight as int)), e.offset as int)
  {
  }

  lemma SignedFirst(n: int)
    ensures Signed(n) != "" && (Signed(n)[0] == '-' || IsDigit(Signed(n)[0]))
  {
  }

  // ----- prints and values, by hand -----

  /** The decimal numeral of n: a minus for a negative one, then digits without a needless zero in front. */
  predicate Numeral(s: string, n: int) {
    if n < 0 then s != "" && s[0] == '-' && Numeral(s[1..], -n)
    else
      && s != "" && AllDigits(s) && Number(s) == n
      && (|s| > 1 ==> s[0] != '0')
  }

  lemma SignedNumeral(n: int)
    ensures Numeral(Signed(n), n)
  {
    NumberOfDigits(if n < 0 then -n else n);
    NoZeroInFront(if n < 0 then -n else n);
    hide Digits, Number;
  }

  lemma {:induction false} NoZeroInFront(n: nat)
    ensures |Digits(n)| > 0 && (n > 0 ==> Digits(n)[0] != '0') && (n == 0 ==> |Digits(n)| == 1)
  {
    if n >= 10 {
      NoZeroInFront(n / 10);
    }
  }

  /** A print: the weight and a star unless it is one, the dimension, then the offset with its sign unless it is zero;
      with no weight only the offset. */
  lemma PrintIs(e: Expr) returns (w: string, d: string, o: string)
    ensures Numeral(w, e.weight as int) && Numeral(d, e.dim) && Numeral(o, e.offset as int)
    ensures e.weight == 0 ==> Text(e) == o
    ensures e.weight != 0 ==>
      Text(e) == (if e.weight == 1 then "" else w + "*") + "COORD" + d
        + (if e.offset == 0 then "" else if e.offset > 0 then "+" + o else o)
  {
    w, d, o := Signed(e.weight as int), Signed(e.dim), Signed(e.offset as int);
    SignedNumeral(e.weight as int);
    SignedNumeral(e.dim);
    SignedNumeral(e.offset as int);
    hide Numeral, Digits;
  }

  /** Some prints. */
  lemma Prints()
    ensures Text(Expr(2, 3, 0)) == "3*COORD2" && Text(Expr(1, 1, 0)) == "COORD1"
    ensures Text(Expr(1, 1, 4)) == "COORD1+4" && Text(Expr(1, 1, -4)) == "COORD1-4"
    ensures Text(Constant(4)) == "4" && Text(Constant(0)) == "0" && Text(Constant(-4)) == "-4"
  {
    SmallDigits();
    hide Digits;
  }

  lemma SmallDigits()
    ensures Digits(0) == "0" && Digits(1) == "1" && Digits(2) == "2" && Digits(3) == "3" && Digits(4) == "4"
    ensures Digits(12) == "12" && Digits(34) == "34" && Digits(56) == "56"
  {
    assert Digits(5) == "5";
  }

  lemma LongPrint()
    ensures Text(Expr(12, -34, 56)) == "-34*COORD12+56"
  {
    SmallDigits();
    hide Digits;
  }

  /** An expression is worth its offset where its coordinate is zero, and its weight more with every step along it. */
  lemma EvalIs(e: Expr, x: nat -> int, y: nat -> int)
    ensures e.dim == UNSET || x(e.dim) == 0 ==> Eval(e, x) == e.offset as int
    ensures e.dim != UNSET && y(e.dim) == x(e.dim) + 1 ==> Eval(e, y) == Eval(e, x) + e.weight as int
    ensures (e.dim == UNSET || y(e.dim) == x(e.dim)) ==> Eval(e, y) == Eval(e, x)
  {
    if e.dim != UNSET {
      var w, k := e.weight as int, x(e.dim);
      assert w * (k + 1) == w * k + w;
    }
  }

  // ----- equal prints -----

  /** A weight on the dimension that stands for no dimension. */
  predicate Dangling(e: Expr) {
    e.dim == UNSET && e.weight != 0
  }

  lemma SameMeaning(e: Expr, f: Expr)
    requires !Dangling(e) && !Dangling(f)
    ensures Same(e, f) <==> Meaning(e) == Meaning(f)
  {
    var zero := (d: nat) => 0;
    var atE := (d: nat) => if d == e.dim then 1 else 0;
    var atF := (d: nat) => if d == f.dim then 1 else 0;
    if Same(e, f) {
      assert Eval(e, zero) == Eval(f, zero);
      assert Eval(e, atE) == Eval(f, atE);
      assert Eval(e, atF) == Eval(f, atF);
    }
  }

  /** Two expressions print alike exactly when they are worth the same at every point. */
  lemma PrintsAlike(e: Expr, f: Expr)
    requires !Dangling(e) && !Dangling(f)
    ensures Text(e) == Text(f) <==> Same(e, f)
  {
    SameMeaning(e, f);
    ReadText(e);
    ReadText(f);
    hide Read, Text;
    if Meaning(e) == Meaning(f) {
      TextOfMeaning(e, f);
    }
  }

  lemma TextOfMeaning(e: Expr, f: Expr)
    requires Meaning(e) == Meaning(f)
    ensures Text(e) == Text(f)
  {
  }

  /** A dangling weight is the only thing that prints wrong: the expression is worth its offset, and
      does not print like it. */
  lemma PrintsItsWorth(e: Expr)
    ensures (forall f: Expr :: !Dangling(f) ==> (Text(e) == Text(f) <==> Same(e, f))) <==> !Dangling(e)
  {
    if Dangling(e) {
      var c := Constant(e.offset);
      ReadText(e);
      ReadText(c);
      assert Meaning(e) != Meaning(c);
      assert Same(e, c);
    } else {
      forall f: Expr | !Dangling(f) ensures Text(e) == Text(f) <==> Same(e, f) {
        PrintsAlike(e, f);
      }
    }
  }

  /** So the default expression does not print like the constant zero it is. */
  lemma DefaultPrintsWrong()
    ensures Same(DEFAULT, Constant(0)) && Text(DEFAULT) != Text(Constant(0))
  {
    ReadText(DEFAULT);
    ReadText(Constant(0));
  }
}
