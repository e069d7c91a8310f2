/** Version bounds: how the upper bound of a constraint follows a new version. */
module Versions {

  type Version = seq<nat>

  /** Segment i, zero past the end. */
  function At(v: Version, i: nat): nat {
    if i < |v| then v[i] else 0
  }

  predicate Agree(v: Version, w: Version, n: nat) {
    forall j: nat :: j < n ==> At(v, j) == At(w, j)
  }

  /** Segment-wise order, the shorter version padded with zeros. */
  ghost predicate Below(v: Version, w: Version) {
    exists i: nat :: At(v, i) < At(w, i) && Agree(v, w, i)
  }

  ghost predicate AtMost(v: Version, w: Version) {
    !Below(w, v)
  }

  datatype Op = Less | LessOrEqual

  // ----- the precision of a bound -----

  /** One past the last segment that is not zero, or 1. */
  function Significant(segments: Version): (p: nat)
    ensures segments != [] ==> 1 <= p <= |segments|
    ensures forall i :: p <= i < |segments| ==> segments[i] == 0
    ensures p > 1 ==> p <= |segments| && segments[p - 1] != 0
  {
    if |segments| <= 1 then 1
    else if segments[|segments| - 1] != 0 then |segments|
    else Significant(segments[..|segments| - 1])
  }

  /** The significant segments are determined by these properties. */
  lemma SignificantIs(segments: Version, p: nat)
    requires 1 <= p <= |segments| && segments[p - 1] != 0
    requires forall i :: p <= i < |segments| ==> segments[i] == 0
    ensures Significant(segments) == p
  {
  }

  function Precision(op: Op, segments: Version): nat {
    if op == Less then Significant(segments) else |segments|
  }

  /** _upper_bound_precision, after parsing: for < the zeros at the end do not count. */
  method UpperBoundPrecision(op: Op, segments: Version) returns (precision: nat, trailingZeros: nat)
    requires segments != []
    ensures precision == Precision(op, segments)
    ensures precision + trailingZeros == |segments|
  {
    if op != Less {
      return |segments|, 0;
    }
    var lastNonZero := -1;
    var index := |segments| - 1;
    while index >= 0
      invariant -1 <= index < |segments|
      invariant forall i :: index < i < |segments| ==> segments[i] == 0
    {
      if segments[index] != 0 {
        lastNonZero := index;
        break;
      }
      index := index - 1;
    }
    precision := if lastNonZero < 0 then 1 else lastNonZero + 1;
    trailingZeros := |segments| - precision;
    if lastNonZero >= 0 {
      SignificantIs(segments, precision);
    }
  }

  // ----- the new bound -----

  function Zeros(n: nat): (z: Version)
    ensures |z| == n && forall i :: 0 <= i < n ==> z[i] == 0
  {
    if n == 0 then [] else [0] + Zeros(n - 1)
  }

  /** The first p segments, padded with zeros. */
  function Fit(v: Version, p: nat): (f: Version)
    ensures |f| == p && Agree(f, v, p)
  {
    if |v| < p then v + Zeros(p - |v|) else v[..p]
  }

  /** One more in the last segment. */
  function Bump(v: Version): Version
    requires v != []
  {
    v[|v| - 1 := v[|v| - 1] + 1]
  }

  predicate AnyNonZero(v: Version) {
    exists i :: 0 <= i < |v| && v[i] != 0
  }

  /** The middle of _replace_last_upper_bound. */
  function NewBound(op: Op, precision: nat, trailingZeros: nat, v: Version): Version
    requires precision > 0
  {
    var fit := Fit(v, precision);
    if op == Less then Bump(fit) + Zeros(trailingZeros)
    else if |v| > precision && AnyNonZero(v[precision..]) then Bump(fit)
    else fit
  }

  // ----- order -----

  lemma AgreeAt(v: Version, w: Version, n: nat, j: nat)
    requires Agree(v, w, n)
    ensures j < n ==> At(v, j) == At(w, j)
  {
  }

  lemma BelowTransitive(u: Version, v: Version, w: Version)
    requires AtMost(u, v) && Below(v, w)
    ensures Below(u, w)
  {
    var i: nat :| At(v, i) < At(w, i) && Agree(v, w, i);
    if k: nat :| k <= i && At(u, k) != At(v, k) {
      FirstDifference(u, v, k);
      var j: nat :| j <= k && At(u, j) != At(v, j) && Agree(u, v, j);
      assert At(u, j) < At(v, j) by {
        assert Agree(v, u, j);
        assert At(v, j) < At(u, j) ==> Below(v, u);
      }
      assert Agree(u, w, j);
      assert At(u, j) < At(w, j);
    } else {
      assert Agree(u, w, i);
    }
  }

  lemma {:induction false} FirstDifference(u: Version, v: Version, k: nat)
    requires At(u, k) != At(v, k)
    ensures exists j: nat :: j <= k && At(u, j) != At(v, j) && Agree(u, v, j)
    decreases k
  {
    if Agree(u, v, k) {
    } else {
      var j: nat :| j < k && At(u, j) != At(v, j);
      FirstDifference(u, v, j);
    }
  }

  /** A version of p segments is the bound that constraints of this precision can express. */
  ghost predicate OfPrecision(w: Version, p: nat) {
    forall i: nat :: i >= p ==> At(w, i) == 0
  }

  /** The bumped prefix is the least version of its precision above v. */
  lemma BumpLeastAbove(v: Version, p: nat, b: Version)
    requires p > 0 && OfPrecision(b, p) && Agree(b, v, p - 1) && At(b, p - 1) == At(v, p - 1) + 1
    ensures Below(v, b)
    ensures forall w :: OfPrecision(w, p) && Below(v, w) ==> AtMost(b, w)
  {
    assert Agree(v, b, p - 1);
    assert forall k: nat :: k < p - 1 ==> At(b, k) == At(v, k);
    forall w | OfPrecision(w, p) && Below(v, w) ensures AtMost(b, w) {
      var i: nat :| At(v, i) < At(w, i) && Agree(v, w, i);
      assert i < p;
      if j: nat :| At(w, j) < At(b, j) && Agree(w, b, j) {
        AgreeAt(w, b, j, i);
        AgreeAt(v, w, i, j);
      }
    }
  }

  /** For <: the new bound keeps precision and length, admits v, and is the least version of its
      precision that does. */
  lemma StrictBound(p: nat, zeros: nat, v: Version)
    requires p > 0
    ensures var b := NewBound(Less, p, zeros, v);
      && |b| == p + zeros && Significant(b) == p && OfPrecision(b, p)
      && Below(v, b)
      && forall w :: OfPrecision(w, p) && Below(v, w) ==> AtMost(b, w)
  {
    var f := Fit(v, p);
    var b := NewBound(Less, p, zeros, v);
    assert Agree(b, v, p - 1) by {
      forall j: nat | j < p - 1 ensures At(b, j) == At(v, j) {
        assert At(f, j) == At(v, j);
      }
    }
    assert At(f, p - 1) == At(v, p - 1);
    BumpLeastAbove(v, p, b);
    SignificantIs(b, p);
  }

  /** For <=: the new bound admits v and is the least version of its precision that does. */
  lemma InclusiveBound(p: nat, v: Version)
    requires p > 0
    ensures var b := NewBound(LessOrEqual, p, 0, v);
      && |b| == p && OfPrecision(b, p)
      && AtMost(v, b)
      && forall w :: OfPrecision(w, p) && AtMost(v, w) ==> AtMost(b, w)
  {
    var f := Fit(v, p);
    var b := NewBound(LessOrEqual, p, 0, v);
    assert At(f, p - 1) == At(v, p - 1);
    if |v| > p && AnyNonZero(v[p..]) {
      assert Agree(b, v, p - 1) by {
        forall j: nat | j < p - 1 ensures At(b, j) == At(v, j) {
          assert At(f, j) == At(v, j);
        }
      }
      BumpLeastAbove(v, p, b);
      BelowAtMost(v, b);
      forall w | OfPrecision(w, p) && AtMost(v, w) ensures AtMost(b, w) {
        CutShort(v, w, p);
      }
    } else {
      forall i: nat ensures At(b, i) == At(v, i) {
        assert i < p ==> At(f, i) == At(v, i);
        assert p <= i < |v| ==> v[p..][i - p] == v[i];
      }
      SameOrder(v, b);
    }
  }

  lemma BelowAtMost(v: Version, b: Version)
    requires Below(v, b)
    ensures AtMost(v, b)
  {
    var i: nat :| At(v, i) < At(b, i) && Agree(v, b, i);
    if j: nat :| At(b, j) < At(v, j) && Agree(b, v, j) {
      AgreeAt(b, v, j, i);
      AgreeAt(v, b, i, j);
    }
  }

  lemma SameOrder(v: Version, b: Version)
    requires forall i: nat :: At(b, i) == At(v, i)
    ensures AtMost(v, b) && AtMost(b, v)
    ensures forall w :: AtMost(v, w) <==> AtMost(b, w)
  {
    forall w ensures Below(w, v) <==> Below(w, b) {
      if i: nat :| At(w, i) < At(v, i) && Agree(w, v, i) {
        assert Agree(w, b, i);
      }
      if i: nat :| At(w, i) < At(b, i) && Agree(w, b, i) {
        assert Agree(w, v, i);
      }
    }
  }

  /** A version that has more than p segments is not equal to one of precision p. */
  lemma CutShort(v: Version, w: Version, p: nat)
    requires |v| > p && AnyNonZero(v[p..]) && OfPrecision(w, p) && AtMost(v, w)
    ensures Below(v, w)
  {
    var i :| 0 <= i < |v[p..]| && v[p..][i] != 0;
    assert At(w, p + i) == 0 && At(v, p + i) != 0;
    FirstDifference(v, w, p + i);
    var j: nat :| At(v, j) != At(w, j) && Agree(v, w, j);
    forall k: nat | k < j ensures At(w, k) == At(v, k) {
      AgreeAt(v, w, j, k);
    }
    assert At(w, j) < At(v, j) ==> Below(w, v);
  }

  /** A later version never lowers the bound. */
  lemma BoundMonotone(op: Op, p: nat, zeros: nat, v: Version, w: Version)
    requires p > 0 && (op == LessOrEqual ==> zeros == 0) && AtMost(v, w)
    ensures AtMost(NewBound(op, p, zeros, v), NewBound(op, p, zeros, w))
  {
    if op == Less {
      StrictBound(p, zeros, v);
      StrictBound(p, zeros, w);
      BelowTransitive(v, w, NewBound(op, p, zeros, w));
    } else {
      InclusiveBound(p, v);
      InclusiveBound(p, w);
      AtMostTransitive(v, w, NewBound(op, p, zeros, w));
    }
  }

  lemma AtMostTransitive(u: Version, v: Version, w: Version)
    requires AtMost(u, v) && AtMost(v, w)
    ensures AtMost(u, w)
  {
    if Below(w, u) {
      BelowTransitive(v, w, u);
    }
  }
}
