/** What the bound replacer finds and writes, said of the characters of the text alone. */
module ConstraintText {
  import opened Wrappers
  import opened Decimals
  import opened Versions
  import opened Constraints

  // ----- what a match is -----

  /** Where the operator of a match begins. */
  function OpStart(m: Match): int {
    if m.op == Less then m.start - 1 else m.start - 2
  }

  /** The operator is what stands before the bound, and the bound is the run of bound characters from
      there; an "=" is left to the bound only when nothing else follows it. */
  predicate ReadsSo(s: string, m: Match) {
    && 1 <= m.start < m.end <= |s|
    && (m.op == Less <==> s[m.start - 1] == '<')
    && (m.op == LessOrEqual <==> m.start >= 2 && s[m.start - 2..m.start] == "<=")
    && (forall j :: m.start <= j < m.end ==> IsTokenChar(s[j]))
    && (m.end < |s| ==> !IsTokenChar(s[m.end]))
    && (m.op == Less && s[m.start] == '=' ==> m.end == m.start + 1)
  }

  lemma MatchAtReads(s: string, i: nat)
    requires HasMatch(s, i)
    ensures ReadsSo(s, MatchAt(s, i)) && OpStart(MatchAt(s, i)) == i
  {
    var m := MatchAt(s, i);
    hide TokenEnd;
    if m.op == LessOrEqual {
      assert s[m.start - 2..m.start] == [s[i], s[i + 1]];
    } else {
      assert m.start >= 2 ==> s[m.start - 2..m.start][1] == s[m.start - 1];
      assert m.end > m.start + 1 ==> IsTokenChar(s[m.start + 1]);
    }
  }

  /** Every match is of that kind, and begins where the ones before it have ended. */
  lemma {:induction false} MatchReads(s: string, i: nat, k: nat)
    requires i <= |s| && k < |Matches(s, i)|
    ensures ReadsSo(s, Matches(s, i)[k])
    ensures OpStart(Matches(s, i)[k]) >= if k == 0 then i else Matches(s, i)[k - 1].end
    decreases |s| - i
  {
    if !HasMatch(s, i) {
      MatchesSkip(s, i);
      MatchReads(s, i + 1, k);
    } else {
      MatchesHere(s, i);
      MatchAtReads(s, i);
      hide Matches, MatchAt, HasMatch, ReadsSo;
      var m, rest := MatchAt(s, i), Matches(s, MatchAt(s, i).end);
      if k > 0 {
        MatchReads(s, m.end, k - 1);
        assert Matches(s, i)[k] == rest[k - 1];
        assert k > 1 ==> Matches(s, i)[k - 1] == rest[k - 2];
      }
    }
  }

  predicate Covered(s: string, ms: seq<Match>, p: nat) {
    exists k :: 0 <= k < |ms| && OpStart(ms[k]) <= p < ms[k].end
  }

  /** No "<" with a bound character after it is left out. */
  lemma {:induction false} NoneLeftOut(s: string, i: nat, p: nat)
    requires i <= p && p + 1 < |s| && s[p] == '<' && IsTokenChar(s[p + 1])
    ensures Covered(s, Matches(s, i), p)
    decreases |s| - i
  {
    if !HasMatch(s, i) {
      MatchesSkip(s, i);
      NoneLeftOut(s, i + 1, p);
    } else {
      MatchesHere(s, i);
      MatchAtReads(s, i);
      hide Matches, MatchAt, HasMatch, IsTokenChar, ReadsSo;
      var m, ms := MatchAt(s, i), Matches(s, i);
      assert ms[0] == m;
      if p >= m.end {
        var rest := Matches(s, m.end);
        NoneLeftOut(s, m.end, p);
        var k :| 0 <= k < |rest| && OpStart(rest[k]) <= p < rest[k].end;
        assert ms[k + 1] == rest[k];
      }
    }
  }

  // ----- which texts are versions -----

  /** Digits in groups, a dot between each two. */
  predicate VersionText(s: string) {
    && s != "" && IsDigit(s[0]) && IsDigit(s[|s| - 1])
    && (forall i :: 0 <= i < |s| ==> IsDigit(s[i]) || s[i] == '.')
    && (forall i :: 0 <= i < |s| - 1 ==> IsDigit(s[i]) || IsDigit(s[i + 1]))
  }

  lemma TextCons(s: string, k: nat)
    requires 0 < k < |s| - 1 && s[k] == '.' && forall i :: 0 <= i < k ==> IsDigit(s[i])
    ensures VersionText(s) <==> VersionText(s[k + 1..])
  {
    var t := s[k + 1..];
    assert t != "" && t[|t| - 1] == s[|s| - 1];
    assert forall i :: 0 <= i < |t| ==> t[i] == s[k + 1 + i];
    assert forall i :: k < i < |s| ==> s[i] == t[i - k - 1];
    if VersionText(s) {
      assert IsDigit(s[k]) || IsDigit(s[k + 1]);
    }
    if VersionText(t) {
      forall i | 0 <= i < |s| - 1 ensures IsDigit(s[i]) || IsDigit(s[i + 1]) {
        if i > k {
          assert IsDigit(t[i - k - 1]) || IsDigit(t[i - k]);
        } else if i == k {
          assert s[k + 1] == t[0];
        }
      }
    }
  }

  /** Exactly such a text is read as a version. */
  lemma {:induction false} ParseExactly(s: string)
    ensures Parse(s).Ok? <==> VersionText(s)
    decreases |s|
  {
    var k := DigitsEnd(s, 0);
    assert forall i :: 0 <= i < k ==> s[i] == s[0..k][i];
    hide DigitsEnd, Number;
    if 0 < k < |s| && s[k] == '.' {
      var rest := s[k + 1..];
      ParseExactly(rest);
      if k == |s| - 1 {
        assert rest == "";
      } else {
        TextCons(s, k);
      }
      hide VersionText;
    }
  }

  // ----- what is replaced -----

  /** How many segments of a bound count: all of them after "<=", after "<" those up to the last that is not
      zero, but one at least. */
  predicate Counts(inclusive: bool, was: Version, p: nat) {
    && 1 <= p <= |was|
    && if inclusive then p == |was|
       else (forall i :: p <= i < |was| ==> was[i] == 0) && (p > 1 ==> was[p - 1] != 0)
  }

  lemma CountsIs(op: Op, was: Version, p: nat)
    requires was != []
    ensures Counts(op == LessOrEqual, was, p) <==> p == Precision(op, was)
  {
    if op == Less && 1 <= p <= |was| && Counts(false, was, p) && p > 1 {
      SignificantIs(was, p);
    }
  }

  /** b is the least version of p segments that v stays under: strictly, or up to it when inclusive. */
  ghost predicate LeastBound(inclusive: bool, p: nat, v: Version, b: Version) {
    && OfPrecision(b, p)
    && (!inclusive ==> Below(v, b) && forall w :: OfPrecision(w, p) && Below(v, w) ==> AtMost(b, w))
    && (inclusive ==> AtMost(v, b) && forall w :: OfPrecision(w, p) && AtMost(v, w) ==> AtMost(b, w))
  }

  lemma BoundLength(op: Op, was: Version, v: Version)
    requires was != []
    ensures |BoundFor(op, was, v)| == |was|
  {
  }

  /** b is the least version, of the segments that count in the old bound, that admits v. */
  ghost predicate RenewedBound(inclusive: bool, was: Version, v: Version, b: Version) {
    |b| == |was| && forall p: nat :: Counts(inclusive, was, p) ==> LeastBound(inclusive, p, v, b)
  }

  /** t is s with the bound of m replaced by the renewed one, by the operator that stands in the text. */
  ghost predicate RenewedAt(s: string, m: Match, t: string, newVersion: string) {
    && 0 < m.start <= m.end <= |s| && Parse(newVersion).Ok? && Parse(s[m.start..m.end]).Ok?
    && var e := |t| - (|s| - m.end);
    && m.start <= e <= |t| && t[..m.start] == s[..m.start] && t[e..] == s[m.end..]
    && Parse(t[m.start..e]).Ok?
    && RenewedBound(s[m.start - 1] == '=', Parse(s[m.start..m.end]).value, Parse(newVersion).value,
                    Parse(t[m.start..e]).value)
  }

  lemma BoundIs(op: Op, was: Version, v: Version)
    requires was != []
    ensures RenewedBound(op == LessOrEqual, was, v, BoundFor(op, was, v))
  {
    BoundLength(op, was, v);
    Significance(op, was, v);
    var inclusive, b := op == LessOrEqual, BoundFor(op, was, v);
    if op == Less {
      StrictBound(Precision(op, was), |was| - Precision(op, was), v);
    } else {
      InclusiveBound(|was|, v);
    }
    hide Below, AtMost, OfPrecision;
    forall p: nat | Counts(inclusive, was, p) ensures LeastBound(inclusive, p, v, b) {
      CountsIs(op, was, p);
    }
  }

  lemma SplicedIsRenewed(s: string, m: Match, op: Op, newVersion: string)
    requires 0 < m.start <= m.end <= |s| && Parse(newVersion).Ok? && BoundOf(s, m).Ok?
    requires s[m.start - 1] == '=' <==> op == LessOrEqual
    ensures BoundOf(s, m).value != []
    ensures RenewedAt(s, m, Splice(s, m, Print(BoundFor(op, BoundOf(s, m).value, Parse(newVersion).value))), newVersion)
  {
    BoundOfIs(s, m);
    hide *;
    var b := BoundFor(op, BoundOf(s, m).value, Parse(newVersion).value);
    BoundIs(op, BoundOf(s, m).value, Parse(newVersion).value);
    ParsePrint(b);
    SpliceParts(s, m, Print(b));
    SplicedLength(s, m, Print(b));
    RenewedAtIs(s, m, Splice(s, m, Print(b)), newVersion, m.start + |Print(b)|);
  }

  lemma LastSpliced(s: string, newVersion: string)
    requires ReplaceLast(s, newVersion).Ok? && Matches(s, 0) != []
    ensures var m := LastBound(s);
      && Parse(newVersion).Ok? && BoundOf(s, m).Ok? && BoundOf(s, m).value != []
      && ReplaceLast(s, newVersion)
         == Ok(Splice(s, m, Print(BoundFor(m.op, BoundOf(s, m).value, Parse(newVersion).value))))
  {
    ReplaceLastIs(s, newVersion);
    hide *;
    BoundOfIs(s, LastBound(s));
  }

  /** The bound written in the place of the last one is the least version, of the segments that counted in
      the old one, that admits the new version by the operator in the text; all around it stays. */
  lemma LastRenewed(s: string, newVersion: string)
    requires ReplaceLast(s, newVersion).Ok? && Matches(s, 0) != []
    ensures RenewedAt(s, Matches(s, 0)[|Matches(s, 0)| - 1], ReplaceLast(s, newVersion).value, newVersion)
  {
    var m := LastBound(s);
    hide *;
    LastReads(s);
    LastSpliced(s, newVersion);
    SplicedIsRenewed(s, m, m.op, newVersion);
  }

  lemma LastReads(s: string)
    requires Matches(s, 0) != []
    ensures var m := LastBound(s);
      && m == Matches(s, 0)[|Matches(s, 0)| - 1]
      && 0 < m.start <= m.end <= |s| && (s[m.start - 1] == '=' <==> m.op == LessOrEqual)
  {
    MatchReads(s, 0, |Matches(s, 0)| - 1);
    hide Matches, ReadsSo;
    OpRead(s, LastBound(s));
  }

  lemma BoundOfIs(s: string, m: Match)
    requires m.start <= m.end <= |s| && BoundOf(s, m).Ok?
    ensures BoundOf(s, m) == Parse(s[m.start..m.end]) && BoundOf(s, m).value != []
  {
    hide Parse;
  }

  lemma SplicedLength(s: string, m: Match, b: string)
    requires m.start <= m.end <= |s|
    ensures |Splice(s, m, b)| == |s| - m.end + m.start + |b|
  {
  }

  lemma RenewedAtIs(s: string, m: Match, t: string, newVersion: string, e: nat)
    requires 0 < m.start <= m.end <= |s| && Parse(newVersion).Ok? && Parse(s[m.start..m.end]).Ok?
    requires e == |t| - (|s| - m.end) && m.start <= e <= |t| && t[..m.start] == s[..m.start] && t[e..] == s[m.end..]
    requires Parse(t[m.start..e]).Ok?
    requires RenewedBound(s[m.start - 1] == '=', Parse(s[m.start..m.end]).value, Parse(newVersion).value,
                          Parse(t[m.start..e]).value)
    ensures RenewedAt(s, m, t, newVersion)
  {
    hide Parse, RenewedBound;
  }

  lemma OpRead(s: string, m: Match)
    requires ReadsSo(s, m)
    ensures 0 < m.start <= m.end <= |s| && (s[m.start - 1] == '=' <==> m.op == LessOrEqual)
  {
    if m.op == LessOrEqual {
      assert s[m.start - 2..m.start][1] == s[m.start - 1];
    }
  }

  /** It is refused exactly when some bound in the text, or the new version, is no version text. */
  lemma RefusedExactly(s: string, newVersion: string)
    ensures ReplaceLast(s, newVersion).Err?
      <==> Matches(s, 0) != [] &&
           (!VersionText(newVersion)
            || exists k :: 0 <= k < |Matches(s, 0)| && !VersionText(s[Matches(s, 0)[k].start..Matches(s, 0)[k].end]))
  {
    var ms := Matches(s, 0);
    ParseExactly(newVersion);
    forall k | 0 <= k < |ms| ensures Parse(s[ms[k].start..ms[k].end]).Ok? <==> VersionText(s[ms[k].start..ms[k].end]) {
      ParseExactly(s[ms[k].start..ms[k].end]);
    }
    hide Matches, Parse, VersionText;
  }
}
