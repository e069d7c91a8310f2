/** The max and min reductions of halves: a value is folded into an accumulator that starts at the
    declared identity; partial results are folded into each other. */
module HalfReduce {
  import opened Wrappers
  import opened Powers
  import opened BitOps
  import opened Rounding
  import opened Ieee
  import opened HalfConvert
  import opened DoubleRounding
  import opened HalfArith
  import opened HalfOrder
  import opened HalfWide

  datatype Kind = Max | Min

  /** value_type{LEGATE_MIN_HALF} and value_type{LEGATE_MAX_HALF}: -65504 and 65504. */
  function Identity(kind: Kind): Bits16 {
    match kind
    case Max => 0xfbff
    case Min => 0x7bff
  }

  /** The identities are the halves made from the floats -65504 and 65504. */
  lemma IdentityValue(kind: Kind)
    ensures Identity(kind) == Directly(FromReal(if kind.Max? then -65504.0 else 65504.0))
    ensures Identity(kind) == Stepwise(FromReal(if kind.Max? then -65504.0 else 65504.0))
  {
    var a := if kind.Max? then -65504 else 65504;
    IntegerRounded(a);
    IntegerQuanta(65504);
    LargestMag();
    hide Stepwise, Directly, Mag, Rne, HalfQuanta, Scale;
    RneExact(10, 0x7bff);
    DirectlyFinite(a < 0, 65504.0);
  }

  lemma LargestMag()
    ensures Mag(10, 0x7bff) == Scale(65504, 24)
  {
    assert Scale(1, 5) == 0x20 by { PowerLiterals(); }
    hide Mag, Scale;
    NormalParts(0x7ff, 29);
    ScaleScale(0x7ff, 5, 24);
    ScaleOne(0x7ff, 5);
  }

  /** The functors Maximum and Minimum: a NaN compares false, so each keeps its other branch. */
  function Fold(kind: Kind, lhs: Bits16, rhs: Bits16): Bits16 {
    match kind
    case Max => if Less(HalfDatum(lhs), HalfDatum(rhs)) then rhs else lhs
    case Min => if Less(HalfDatum(lhs), HalfDatum(rhs)) then lhs else rhs
  }

  function FoldAll(kind: Kind, acc: Bits16, vs: seq<Bits16>): Bits16
    decreases |vs|
  {
    if vs == [] then acc else FoldAll(kind, Fold(kind, acc, vs[0]), vs[1..])
  }

  /** How a sequence of contributions may be split: each part is folded from the identity. */
  datatype Grouping = Part(vs: seq<Bits16>) | Join(left: Grouping, right: Grouping)

  function Flatten(g: Grouping): seq<Bits16> {
    match g
    case Part(vs) => vs
    case Join(l, r) => Flatten(l) + Flatten(r)
  }

  function Reduce(kind: Kind, g: Grouping): Bits16 {
    match g
    case Part(vs) => FoldAll(kind, Identity(kind), vs)
    case Join(l, r) => Fold(kind, Reduce(kind, l), Reduce(kind, r))
  }

  /** The order in which a reduction prefers halves. */
  function Rank(kind: Kind, h: Bits16): int {
    if kind.Max? then Key(h) else -Key(h)
  }

  predicate NoNaN(vs: seq<Bits16>) {
    forall i :: 0 <= i < |vs| ==> !IsNaN(vs[i])
  }

  // ----- what a reduction keeps -----

  /** The halves a partial result stands for; None when it is a NaN. */
  type Kept = Option<seq<Bits16>>

  /** Folding keeps both sides, but a NaN: max ignores one on the right, min takes it and then forgets
      it, with all that came before, for whatever is folded next. */
  function Meet(kind: Kind, a: Kept, b: Kept): Kept {
    match (a, b)
    case (Some(xs), Some(ys)) => Some(xs + ys)
    case (_, None) => if kind.Max? then a else None
    case (None, Some(_)) => if kind.Max? then None else b
  }

  function One(v: Bits16): Kept {
    if IsNaN(v) then None else Some([v])
  }

  function KeptFrom(kind: Kind, start: Kept, vs: seq<Bits16>): Kept {
    if vs == [] then start
    else Meet(kind, KeptFrom(kind, start, vs[..|vs| - 1]), One(vs[|vs| - 1]))
  }

  function KeptBy(kind: Kind, g: Grouping): Kept {
    match g
    case Part(vs) => KeptFrom(kind, Some([Identity(kind)]), vs)
    case Join(l, r) => Meet(kind, KeptBy(kind, l), KeptBy(kind, r))
  }

  /** h is one of the halves kept, and ranks highest among them. */
  predicate Stands(kind: Kind, h: Bits16, kept: Kept) {
    match kept
    case None => IsNaN(h)
    case Some(ks) => NoNaN(ks) && h in ks && forall i :: 0 <= i < |ks| ==> Rank(kind, ks[i]) <= Rank(kind, h)
  }

  /** Folding two numbers gives the one that ranks higher; a NaN goes as Meet says. */
  lemma FoldRank(kind: Kind, a: Bits16, b: Bits16)
    ensures !IsNaN(a) && !IsNaN(b) ==> Fold(kind, a, b) in {a, b}
    ensures !IsNaN(a) && !IsNaN(b) ==> Rank(kind, Fold(kind, a, b)) >= Rank(kind, a)
    ensures !IsNaN(a) && !IsNaN(b) ==> Rank(kind, Fold(kind, a, b)) >= Rank(kind, b)
    ensures IsNaN(a) || IsNaN(b) ==> Fold(kind, a, b) == if kind.Max? then a else b
  {
    LessByKey(a, b);
    hide Less, HalfDatum;
  }

  lemma FoldMeets(kind: Kind, a: Bits16, b: Bits16, ka: Kept, kb: Kept)
    requires Stands(kind, a, ka) && Stands(kind, b, kb)
    ensures Stands(kind, Fold(kind, a, b), Meet(kind, ka, kb))
  {
    FoldRank(kind, a, b);
    hide Fold, Rank, IsNaN;
    if ka.Some? && kb.Some? {
      HighestOfBoth(kind, a, b, Fold(kind, a, b), ka.value, kb.value);
    } else {
      StandsNaN(kind, a, ka);
      StandsNaN(kind, b, kb);
    }
  }

  lemma StandsNaN(kind: Kind, h: Bits16, kept: Kept)
    requires Stands(kind, h, kept)
    ensures IsNaN(h) <==> kept.None?
  {
    hide Rank;
  }

  lemma HighestOfBoth(kind: Kind, a: Bits16, b: Bits16, h: Bits16, xs: seq<Bits16>, ys: seq<Bits16>)
    requires Stands(kind, a, Some(xs)) && Stands(kind, b, Some(ys))
    requires h in {a, b} && Rank(kind, h) >= Rank(kind, a) && Rank(kind, h) >= Rank(kind, b)
    ensures Stands(kind, h, Some(xs + ys))
  {
    hide Rank, IsNaN;
  }

  lemma {:induction false} FoldAllLast(kind: Kind, acc: Bits16, vs: seq<Bits16>)
    requires vs != []
    ensures FoldAll(kind, acc, vs) == Fold(kind, FoldAll(kind, acc, vs[..|vs| - 1]), vs[|vs| - 1])
    decreases |vs|
  {
    hide Fold;
    if |vs| > 1 {
      assert vs[1..][..|vs| - 2] == vs[..|vs| - 1][1..];
      FoldAllLast(kind, Fold(kind, acc, vs[0]), vs[1..]);
    }
  }

  lemma {:induction false} FoldAllKept(kind: Kind, acc: Bits16, start: Kept, vs: seq<Bits16>)
    requires Stands(kind, acc, start)
    ensures Stands(kind, FoldAll(kind, acc, vs), KeptFrom(kind, start, vs))
  {
    hide Fold, Stands, Meet;
    if vs != [] {
      var n := |vs| - 1;
      FoldAllKept(kind, acc, start, vs[..n]);
      FoldAllLast(kind, acc, vs);
      assert Stands(kind, vs[n], One(vs[n])) by { OneStands(kind, vs[n]); }
      FoldMeets(kind, FoldAll(kind, acc, vs[..n]), vs[n], KeptFrom(kind, start, vs[..n]), One(vs[n]));
    }
  }

  lemma OneStands(kind: Kind, v: Bits16)
    ensures Stands(kind, v, One(v))
  {
    hide Rank;
  }

  /** However the contributions are split and grouped, NaNs included: the reduction is the highest of
      those it keeps, and a NaN when it keeps none. */
  lemma {:induction false} ReduceKept(kind: Kind, g: Grouping)
    ensures Stands(kind, Reduce(kind, g), KeptBy(kind, g))
  {
    match g
    case Part(vs) =>
      assert Stands(kind, Identity(kind), Some([Identity(kind)])) by { OneStands(kind, Identity(kind)); }
      FoldAllKept(kind, Identity(kind), Some([Identity(kind)]), vs);
    case Join(l, r) =>
      ReduceKept(kind, l);
      ReduceKept(kind, r);
      FoldMeets(kind, Reduce(kind, l), Reduce(kind, r), KeptBy(kind, l), KeptBy(kind, r));
  }

  // ----- which contributions those are -----

  lemma SuffixSplit(vs: seq<Bits16>, k: nat)
    requires k < |vs|
    ensures vs[k..] == vs[..|vs| - 1][k..] + [vs[|vs| - 1]]
  {
  }

  /** One past the last NaN. */
  function AfterNaN(vs: seq<Bits16>): (k: nat)
    ensures k <= |vs| && NoNaN(vs[k..]) && (k > 0 ==> IsNaN(vs[k - 1]))
  {
    if vs == [] then 0
    else if IsNaN(vs[|vs| - 1]) then |vs|
    else
      var k := AfterNaN(vs[..|vs| - 1]);
      SuffixSplit(vs, k);
      k
  }

  function Numbers(vs: seq<Bits16>): (ns: seq<Bits16>)
    ensures forall v :: v in ns <==> v in vs && !IsNaN(v)
  {
    if vs == [] then []
    else Numbers(vs[..|vs| - 1]) + (if IsNaN(vs[|vs| - 1]) then [] else [vs[|vs| - 1]])
  }

  /** Max keeps the identity and every number. */
  lemma {:induction false} MaxKeeps(start: seq<Bits16>, vs: seq<Bits16>)
    ensures KeptFrom(Max, Some(start), vs) == Some(start + Numbers(vs))
  {
    hide IsNaN;
    if vs != [] {
      var ns, v := Numbers(vs[..|vs| - 1]), vs[|vs| - 1];
      MaxKeeps(start, vs[..|vs| - 1]);
      assert ns + [] == ns;
      assert start + ns + [v] == start + (ns + [v]);
    } else {
      assert start + [] == start;
    }
  }

  /** Min keeps what comes after the last NaN, and the identity only when there is no NaN. */
  lemma {:induction false} MinKeeps(start: seq<Bits16>, vs: seq<Bits16>)
    ensures var k := AfterNaN(vs);
      KeptFrom(Min, Some(start), vs)
      == if k == 0 then Some(start + vs) else if k == |vs| then None else Some(vs[k..])
  {
    hide IsNaN, NoNaN;
    var k := AfterNaN(vs);
    if vs != [] {
      var n := |vs| - 1;
      MinKeeps(start, vs[..n]);
      assert start + vs == start + vs[..n] + [vs[n]];
      if k <= n {
        SuffixSplit(vs, k);
        assert vs[..n][n..] + [vs[n]] == [vs[n]];
      }
    } else {
      assert start + [] == start;
    }
  }

  /** What is kept are numbers among the contributions, and identities. */
  lemma {:induction false} KeptMembers(kind: Kind, g: Grouping)
    ensures KeptBy(kind, g).Some? ==>
      forall v <- KeptBy(kind, g).value :: !IsNaN(v) && (v == Identity(kind) || v in Flatten(g))
  {
    hide IsNaN;
    ReduceKept(kind, g);
    match g
    case Part(vs) =>
      if kind.Max? {
        MaxKeeps([Identity(kind)], vs);
      } else {
        MinKeeps([Identity(kind)], vs);
      }
    case Join(l, r) =>
      KeptMembers(kind, l);
      KeptMembers(kind, r);
  }

  // ----- when the reduction is the extreme -----

  /** h is a number that ranks at least as high as every number in vs. */
  predicate Tops(kind: Kind, h: Bits16, vs: seq<Bits16>) {
    !IsNaN(h) && forall i :: 0 <= i < |vs| && !IsNaN(vs[i]) ==> Rank(kind, vs[i]) <= Rank(kind, h)
  }

  /** Every number in vs is outranked or equalled by one that is kept. */
  predicate Covers(kind: Kind, kept: Kept, vs: seq<Bits16>) {
    kept.Some? && forall i :: 0 <= i < |vs| && !IsNaN(vs[i]) ==> Reaches(kind, kept.value, vs[i])
  }

  predicate Reaches(kind: Kind, ks: seq<Bits16>, v: Bits16) {
    exists j :: 0 <= j < |ks| && Rank(kind, v) <= Rank(kind, ks[j])
  }

  /** For any contributions, NaNs included, however they are grouped: no number outranks the reduction
      exactly when what is kept covers what is not. */
  lemma ReduceExtreme(kind: Kind, g: Grouping)
    ensures Tops(kind, Reduce(kind, g), Flatten(g)) <==> Covers(kind, KeptBy(kind, g), Flatten(g))
  {
    ReduceKept(kind, g);
    hide Rank, IsNaN, Reduce, KeptBy, Flatten;
    var vs, r, kept := Flatten(g), Reduce(kind, g), KeptBy(kind, g);
    StandsNaN(kind, r, kept);
    if kept.Some? {
      forall v: Bits16 ensures Reaches(kind, kept.value, v) <==> Rank(kind, v) <= Rank(kind, r) {
        ReachesBest(kind, kept.value, v, r);
      }
    }
  }

  lemma ReachesBest(kind: Kind, ks: seq<Bits16>, v: Bits16, r: Bits16)
    requires Stands(kind, r, Some(ks))
    ensures Reaches(kind, ks, v) <==> Rank(kind, v) <= Rank(kind, r)
  {
    hide Rank;
    var j :| 0 <= j < |ks| && ks[j] == r;
  }

  /** The infinity that ranks below the identity. */
  function Bottom(kind: Kind): Bits16 {
    if kind.Max? then 0xfc00 else 0x7c00
  }

  /** Some number is not the infinity that ranks below the identity. */
  predicate AnyProper(kind: Kind, vs: seq<Bits16>) {
    exists i :: 0 <= i < |vs| && !IsNaN(vs[i]) && vs[i] != Bottom(kind)
  }

  lemma ProperRank(kind: Kind, v: Bits16)
    requires !IsNaN(v)
    ensures v != Bottom(kind) <==> Rank(kind, v) >= Rank(kind, Identity(kind))
    ensures Rank(kind, v) == Rank(kind, Identity(kind)) ==> v == Identity(kind)
  {
  }

  /** Exactly when the reduction is the extreme contribution: what is kept covers what is not, and the
      identity does not take the place of an infinity. */
  lemma ReduceIsExtreme(kind: Kind, g: Grouping)
    ensures var vs, r, kept := Flatten(g), Reduce(kind, g), KeptBy(kind, g);
      (r in vs && Tops(kind, r, vs))
      <==> Covers(kind, kept, vs) && (AnyProper(kind, vs) || Identity(kind) !in kept.value)
  {
    var vs, r, kept := Flatten(g), Reduce(kind, g), KeptBy(kind, g);
    ReduceExtreme(kind, g);
    ReduceKept(kind, g);
    KeptMembers(kind, g);
    IsNumber(kind);
    hide Reduce, Flatten, KeptBy, Rank, IsNaN, Identity, Bottom, Reaches;
    if Covers(kind, kept, vs) {
      ProperRank(kind, r);
      assert r in kept.value;
      if i :| 0 <= i < |vs| && !IsNaN(vs[i]) && vs[i] != Bottom(kind) {
        ProperRank(kind, vs[i]);
      } else if Identity(kind) in kept.value {
        HighestKept(kind, r, kept.value, Identity(kind));
        assert r != Bottom(kind);
      }
    }
  }

  lemma HighestKept(kind: Kind, r: Bits16, ks: seq<Bits16>, v: Bits16)
    requires Stands(kind, r, Some(ks)) && v in ks
    ensures Rank(kind, v) <= Rank(kind, r)
  {
    hide Rank, IsNaN;
  }

  lemma IsNumber(kind: Kind)
    ensures !IsNaN(Identity(kind)) && !IsNaN(Bottom(kind))
  {
  }

  lemma {:induction false} NumbersCover(kind: Kind, g: Grouping)
    requires kind.Max? || NoNaN(Flatten(g))
    ensures KeptBy(kind, g).Some? && Identity(kind) in KeptBy(kind, g).value
    ensures forall v <- Flatten(g) :: !IsNaN(v) ==> v in KeptBy(kind, g).value
  {
    hide IsNaN, Identity;
    match g
    case Part(vs) =>
      if kind.Max? {
        MaxKeeps([Identity(kind)], vs);
      } else {
        MinKeeps([Identity(kind)], vs);
      }
    case Join(l, r) =>
      var xs, ys := Flatten(l), Flatten(r);
      assert NoNaN(Flatten(g)) ==> NoNaN(xs) && NoNaN(ys) by {
        assert forall i :: 0 <= i < |xs| ==> xs[i] == (xs + ys)[i];
        assert forall i :: 0 <= i < |ys| ==> ys[i] == (xs + ys)[|xs| + i];
      }
      NumbersCover(kind, l);
      NumbersCover(kind, r);
  }

  /** Max, and min without NaNs, are never outranked, and give a contribution exactly when one is not the
      infinity below the identity. */
  lemma ReduceNumbers(kind: Kind, g: Grouping)
    requires kind.Max? || NoNaN(Flatten(g))
    ensures var vs, r := Flatten(g), Reduce(kind, g);
      && Tops(kind, r, vs) && Rank(kind, r) >= Rank(kind, Identity(kind))
      && (r in vs <==> AnyProper(kind, vs)) && (r in vs || r == Identity(kind))
  {
    NumbersCover(kind, g);
    KeptMembers(kind, g);
    ReduceIsExtreme(kind, g);
    ReduceExtreme(kind, g);
    ReduceKept(kind, g);
    hide Reduce, Flatten, KeptBy, Rank, IsNaN, Identity, AnyProper;
    var vs, ks := Flatten(g), KeptBy(kind, g).value;
    HighestKept(kind, Reduce(kind, g), ks, Identity(kind));
    forall i | 0 <= i < |vs| && !IsNaN(vs[i]) ensures Reaches(kind, ks, vs[i]) {
      var j :| 0 <= j < |ks| && ks[j] == vs[i];
    }
  }

  /** With no contribution the reduction is the identity. */
  lemma ReduceNothing(kind: Kind, g: Grouping)
    requires Flatten(g) == []
    ensures Reduce(kind, g) == Identity(kind)
  {
    ReduceKept(kind, g);
    NothingKept(kind, g);
    hide Reduce;
    var r, ks := Reduce(kind, g), KeptBy(kind, g).value;
    var j :| 0 <= j < |ks| && ks[j] == r;
  }

  lemma {:induction false} NothingKept(kind: Kind, g: Grouping)
    requires Flatten(g) == []
    ensures KeptBy(kind, g).Some? && forall i :: 0 <= i < |KeptBy(kind, g).value| ==>
      KeptBy(kind, g).value[i] == Identity(kind)
  {
    match g
    case Part(_) =>
    case Join(l, r) =>
      NothingKept(kind, l);
      NothingKept(kind, r);
  }

  // ----- min and NaNs -----

  /** From k on, some half is as small as v. */
  predicate AsSmallAfter(vs: seq<Bits16>, k: nat, v: Bits16) {
    exists j :: k <= j < |vs| && Key(vs[j]) <= Key(v)
  }

  lemma ReachesAfter(vs: seq<Bits16>, k: nat, v: Bits16)
    requires k <= |vs|
    ensures Reaches(Min, vs[k..], v) <==> AsSmallAfter(vs, k, v)
  {
    hide Key;
    if j :| k <= j < |vs| && Key(vs[j]) <= Key(v) {
      assert vs[k..][j - k] == vs[j];
    }
  }

  /** A min over one sequence with a NaN in it: the result is a number that is least among the numbers
      exactly when something follows the last NaN and is as small as each number before it. */
  lemma MinAfterNaN(vs: seq<Bits16>)
    requires AfterNaN(vs) > 0
    ensures var k := AfterNaN(vs);
      Tops(Min, Reduce(Min, Part(vs)), vs)
      <==> k < |vs| && forall i :: 0 <= i < k && !IsNaN(vs[i]) ==> AsSmallAfter(vs, k, vs[i])
  {
    var k := AfterNaN(vs);
    ReduceExtreme(Min, Part(vs));
    MinKeeps([Identity(Min)], vs);
    hide Reduce, IsNaN, Key, Reaches, Tops, AfterNaN, Identity;
    if k < |vs| {
      forall i | 0 <= i < |vs| ensures Reaches(Min, vs[k..], vs[i]) <==> AsSmallAfter(vs, k, vs[i]) {
        ReachesAfter(vs, k, vs[i]);
      }
    }
  }

  /** A part that reduces to a NaN is forgotten on the left of a min, and is the result on its right. */
  lemma JoinForgets(l: Grouping, r: Grouping)
    requires IsNaN(Reduce(Min, l)) || IsNaN(Reduce(Min, r))
    ensures Reduce(Min, Join(l, r)) == Reduce(Min, r)
  {
    hide IsNaN;
    FoldRank(Min, Reduce(Min, l), Reduce(Min, r));
    hide Fold;
  }

  lemma ThreeFolds(a: Bits16, b: Bits16, c: Bits16)
    ensures Reduce(Min, Part([a, b, c])) == Fold(Min, Fold(Min, Fold(Min, Identity(Min), a), b), c)
  {
    hide Fold, Identity;
    var acc := Fold(Min, Identity(Min), a);
    assert [a, b, c][1..] == [b, c] && [b, c][1..] == [c] && [c][1..] == [];
    assert FoldAll(Min, Fold(Min, acc, b), [c]) == FoldAll(Min, Fold(Min, Fold(Min, acc, b), c), []);
    assert FoldAll(Min, acc, [b, c]) == FoldAll(Min, Fold(Min, acc, b), [c]);
  }

  /** The min of 1, a NaN and 2 comes out as 2; with the NaN first it is 1, with the NaN last a NaN. */
  lemma MinGoesWrong()
    ensures Reduce(Min, Part([0x3c00, 0x7e00, 0x4000])) == 0x4000
    ensures Reduce(Min, Part([0x7e00, 0x3c00, 0x4000])) == 0x3c00
    ensures IsNaN(Reduce(Min, Part([0x3c00, 0x4000, 0x7e00])))
    ensures !Tops(Min, 0x4000, [0x3c00, 0x7e00, 0x4000])
  {
    ThreeFolds(0x3c00, 0x7e00, 0x4000);
    ThreeFolds(0x7e00, 0x3c00, 0x4000);
    ThreeFolds(0x3c00, 0x4000, 0x7e00);
    hide Fold;
    FoldRank(Min, Identity(Min), 0x3c00);
    FoldRank(Min, Identity(Min), 0x7e00);
    FoldRank(Min, 0x3c00, 0x7e00);
    FoldRank(Min, 0x7e00, 0x3c00);
    FoldRank(Min, 0x7e00, 0x4000);
    FoldRank(Min, 0x3c00, 0x4000);
    FoldRank(Min, 0x4000, 0x7e00);
    var vs: seq<Bits16> := [0x3c00, 0x7e00, 0x4000];
    assert vs[0] == 0x3c00;
  }

  /** Min is not safe for NaNs: one of them makes it forget everything folded before. */
  lemma {:induction false} MinForgets(acc: Bits16, before: seq<Bits16>, nan: Bits16, v: Bits16, after: seq<Bits16>)
    requires IsNaN(nan)
    ensures FoldAll(Min, acc, before + [nan, v] + after) == FoldAll(Min, v, after)
    decreases before
  {
    var all := before + [nan, v] + after;
    if before == [] {
      LessByKey(acc, nan);
      LessByKey(nan, v);
      assert all[1..][1..] == after;
    } else {
      assert all[1..] == before[1..] + [nan, v] + after;
      MinForgets(Fold(Min, acc, before[0]), before[1..], nan, v, after);
    }
  }
}
