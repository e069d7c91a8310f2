/** Version constraints as text: finding the upper bounds and replacing the last one. */
module Constraints {
  import opened Wrappers
  import opened Decimals
  import opened Versions

  // ----- versions as text -----

  /** A dotted version: digits and dots only, no empty segment. */
  function Parse(s: string): (r: Result<Version>)
    ensures r.Ok? ==> r.value != []
    decreases s
  {
    var k := DigitsEnd(s, 0);
    if k == 0 then Err("expected digits and dots only")
    else if k == |s| then Ok([Number(s)])
    else if s[k] != '.' then Err("expected digits and dots only")
    else
      var rest := Parse(s[k + 1..]);
      if rest.Err? then rest else Ok([Number(s[..k])] + rest.value)
  }

  function Print(v: Version): string
    requires v != []
  {
    if |v| == 1 then Digits(v[0]) else Digits(v[0]) + "." + Print(v[1..])
  }

  lemma ParseDotted(d: string, rest: string)
    requires d != [] && AllDigits(d) && Parse(rest).Ok?
    ensures Parse(d + "." + rest) == Ok([Number(d)] + Parse(rest).value)
  {
    var s := d + "." + rest;
    assert s[..|d|] == d && s[|d| + 1..] == rest;
    DigitsEndIs(s, |d|);
    hide Number, DigitsEnd;
  }

  /** Printed versions read back as themselves. */
  lemma {:induction false} ParsePrint(v: Version)
    requires v != []
    ensures Parse(Print(v)) == Ok(v)
  {
    var d := Digits(v[0]);
    NumberOfDigits(v[0]);
    if |v| == 1 {
      assert d[..|d|] == d;
      DigitsEndIs(d, |d|);
      hide Digits, Number, DigitsEnd;
      assert v == [v[0]];
    } else {
      ParsePrint(v[1..]);
      ParseDotted(d, Print(v[1..]));
      hide Digits, Number, Parse;
      assert v == [v[0]] + v[1..];
    }
  }

  // ----- finding bounds -----

  /** White space as the patterns and strip understand it, beyond ASCII included. */
  predicate IsSpace(c: char) {
    || '\t' <= c <= '\r' || '\U{1c}' <= c <= ' ' || c == '\U{85}' || c == '\U{a0}' || c == '\U{1680}'
    || '\U{2000}' <= c <= '\U{200a}' || c == '\U{2028}' || c == '\U{2029}' || c == '\U{202f}'
    || c == '\U{205f}' || c == '\U{3000}'
  }

  /** What an upper bound may consist of: anything but a comma, a bar or a space. */
  predicate IsTokenChar(c: char) {
    c != ',' && c != '|' && !IsSpace(c)
  }

  function TokenEnd(s: string, i: nat): (k: nat)
    requires i <= |s|
    ensures i <= k <= |s|
    ensures forall j :: i <= j < k ==> IsTokenChar(s[j])
    ensures k < |s| ==> !IsTokenChar(s[k])
    decreases |s| - i
  {
    if i < |s| && IsTokenChar(s[i]) then TokenEnd(s, i + 1) else i
  }

  /** A match of the pattern "<" or "<=", then a bound: the operator, and where the bound is. */
  datatype Match = Match(op: Op, start: nat, end: nat)

  /** The pattern matches at i when a bound character follows; an "=" is only part of the operator
      when a bound character follows that. */
  predicate HasMatch(s: string, i: nat) {
    i + 1 < |s| && s[i] == '<' && IsTokenChar(s[i + 1])
  }

  function BoundStart(s: string, i: nat): (k: nat)
    requires HasMatch(s, i)
    ensures i < k < |s| && IsTokenChar(s[k])
  {
    if s[i + 1] == '=' && i + 2 < |s| && IsTokenChar(s[i + 2]) then i + 2 else i + 1
  }

  function MatchAt(s: string, i: nat): (m: Match)
    requires HasMatch(s, i)
    ensures i < m.start < m.end <= |s|
  {
    var start := BoundStart(s, i);
    Match(if start == i + 2 then LessOrEqual else Less, start, TokenEnd(s, start))
  }

  /** finditer: the matches from i on, left to right, not overlapping. */
  function Matches(s: string, i: nat): (ms: seq<Match>)
    requires i <= |s|
    ensures forall k :: 0 <= k < |ms| ==> i < ms[k].start < ms[k].end <= |s|
    decreases |s| - i
  {
    if i == |s| then []
    else if HasMatch(s, i) then [MatchAt(s, i)] + Matches(s, MatchAt(s, i).end)
    else Matches(s, i + 1)
  }

  // ----- replacing the last one -----

  predicate AllParse(s: string, ms: seq<Match>)
    requires forall k :: 0 <= k < |ms| ==> ms[k].start <= ms[k].end <= |s|
  {
    forall k :: 0 <= k < |ms| ==> Parse(s[ms[k].start..ms[k].end]).Ok?
  }

  /** The new text of a bound for version v. */
  function Renewed(op: Op, was: Version, v: Version): (r: string)
    requires was != []
  {
    Print(BoundFor(op, was, v))
  }

  lemma Significance(op: Op, was: Version, v: Version)
    requires was != []
    ensures 0 < Precision(op, was) <= |was|
    ensures NewBound(op, Precision(op, was), |was| - Precision(op, was), v) != []
  {
  }

  /** _replace_last_upper_bound: every bound must be a version; the last one is replaced. */
  function ReplaceLast(s: string, newVersion: string): Result<string> {
    var ms := Matches(s, 0);
    if ms == [] then Ok(s)
    else if !AllParse(s, ms) then Err("Unsupported upper bound")
    else if Parse(newVersion).Err? then Err("Unsupported new version")
    else
      var m := ms[|ms| - 1];
      var was := Parse(s[m.start..m.end]).value;
      Ok(Splice(s, m, Renewed(m.op, was, Parse(newVersion).value)))
  }

  // ----- the replacement is found again -----

  predicate AllTokenChars(s: string) {
    forall i :: 0 <= i < |s| ==> IsTokenChar(s[i])
  }

  lemma TokenEndIs(s: string, i: nat, k: nat)
    requires i <= k <= |s| && (forall j :: i <= j < k ==> IsTokenChar(s[j])) && (k < |s| ==> !IsTokenChar(s[k]))
    ensures TokenEnd(s, i) == k
  {
  }

  /** Two texts that agree up to a place have the same matches that end before it. */
  lemma SameMatchAt(s: string, t: string, i: nat, n: nat)
    requires n <= |s| && n <= |t| && s[..n] == t[..n]
    requires HasMatch(s, i) && MatchAt(s, i).end < n
    ensures HasMatch(t, i) && MatchAt(t, i) == MatchAt(s, i)
  {
    assert forall j :: 0 <= j < n ==> s[j] == s[..n][j] == t[j];
    TokenEndIs(t, MatchAt(s, i).start, MatchAt(s, i).end);
  }

  /** No match anywhere in a common rest. */
  lemma {:induction false} NoMatches(s: string, i: nat, t: string, j: nat)
    requires i <= |s| && j <= |t| && s[i..] == t[j..] && Matches(s, i) == []
    ensures Matches(t, j) == []
    decreases |s| - i
  {
    assert |s| - i == |t| - j;
    if i < |s| {
      assert s[i] == s[i..][0] == t[j];
      assert i + 1 < |s| ==> s[i + 1] == s[i..][1] == t[j..][1] == t[j + 1];
      assert s[i + 1..] == s[i..][1..] == t[j..][1..] == t[j + 1..];
      NoMatches(s, i + 1, t, j + 1);
    }
  }

  lemma MatchesSkip(s: string, i: nat)
    requires i < |s| && !HasMatch(s, i)
    ensures Matches(s, i) == Matches(s, i + 1)
  {
  }

  lemma MatchesHere(s: string, i: nat)
    requires HasMatch(s, i)
    ensures Matches(s, i) == [MatchAt(s, i)] + Matches(s, MatchAt(s, i).end)
  {
  }

  /** The matches with the last bound given n characters. */
  function Resized(ms: seq<Match>, n: nat): seq<Match>
    requires ms != []
  {
    var m := ms[|ms| - 1];
    ms[..|ms| - 1] + [Match(m.op, m.start, m.start + n)]
  }

  /** The text with the bound of match m replaced. */
  function Splice(s: string, m: Match, b: string): string
    requires m.start <= m.end <= |s|
  {
    s[..m.start] + b + s[m.end..]
  }

  predicate IsBound(b: string) {
    b != [] && b[0] != '=' && AllTokenChars(b)
  }

  lemma SpliceParts(s: string, m: Match, b: string)
    requires m.start <= m.end <= |s|
    ensures var t, e := Splice(s, m, b), m.start + |b|;
      && e <= |t| && t[..m.start] == s[..m.start] && t[m.start..e] == b && t[e..] == s[m.end..]
  {
  }

  lemma ResizedCons(m: Match, rest: seq<Match>, n: nat)
    requires rest != []
    ensures Resized([m] + rest, n) == [m] + Resized(rest, n)
  {
    assert ([m] + rest)[..|rest|] == [m] + rest[..|rest| - 1];
  }

  /** A match is decided by its operator, the characters of its bound and the one after it. */
  lemma MatchIs(s: string, t: string, i: nat, e: nat)
    requires HasMatch(s, i) && MatchAt(s, i).start < e <= |t|
    requires MatchAt(s, i).start <= |t| && t[..MatchAt(s, i).start] == s[..MatchAt(s, i).start]
    requires forall j :: MatchAt(s, i).start <= j < e ==> IsTokenChar(t[j])
    requires t[MatchAt(s, i).start] != '='
    requires e < |t| ==> !IsTokenChar(t[e])
    ensures HasMatch(t, i) && MatchAt(t, i) == Match(MatchAt(s, i).op, MatchAt(s, i).start, e)
  {
    var n := MatchAt(s, i).start;
    TokenEndIs(t, n, e);
    hide TokenEnd;
    assert t[i] == t[..n][i] == s[..n][i] == s[i];
    if n == i + 2 {
      assert t[i + 1] == t[..n][i + 1] == s[..n][i + 1] == s[i + 1];
    }
  }

  /** The new bound and what follows it, read character by character. */
  lemma SplicedBound(s: string, m: Match, b: string)
    requires m.start <= m.end <= |s| && IsBound(b) && (m.end < |s| ==> !IsTokenChar(s[m.end]))
    ensures var t, e := Splice(s, m, b), m.start + |b|;
      && m.start < e <= |t| && t[m.start] != '='
      && (forall j :: m.start <= j < e ==> IsTokenChar(t[j]))
      && (e < |t| ==> !IsTokenChar(t[e]))
  {
    var t, e := Splice(s, m, b), m.start + |b|;
    assert forall j :: m.start <= j < e ==> t[j] == b[j - m.start];
    assert e < |t| ==> t[e] == s[m.end];
  }

  /** The match whose bound is replaced: same operator, same start, the new bound's length. */
  lemma MatchMoved(s: string, i: nat, b: string)
    requires HasMatch(s, i) && IsBound(b)
    ensures var m := MatchAt(s, i);
      var t := Splice(s, m, b);
      HasMatch(t, i) && MatchAt(t, i) == Match(m.op, m.start, m.start + |b|)
  {
    var m := MatchAt(s, i);
    assert m.end < |s| ==> !IsTokenChar(s[m.end]);
    hide *;
    SpliceParts(s, m, b);
    SplicedBound(s, m, b);
    MatchIs(s, Splice(s, m, b), i, m.start + |b|);
  }

  lemma MatchReplaced(s: string, i: nat, b: string)
    requires HasMatch(s, i) && Matches(s, MatchAt(s, i).end) == [] && IsBound(b)
    ensures var t := Splice(s, MatchAt(s, i), b);
      HasMatch(t, i) && Matches(t, i) == Resized(Matches(s, i), |b|)
  {
    hide *;
    var m := MatchAt(s, i);
    var t, e := Splice(s, m, b), m.start + |b|;
    MatchMoved(s, i, b);
    SpliceParts(s, m, b);
    NoMatches(s, m.end, t, e);
    MatchesHere(s, i);
    MatchesHere(t, i);
    assert Matches(s, i) == [m] && Matches(t, i) == [MatchAt(t, i)];
    ResizedOne(m, |b|);
  }

  lemma ResizedOne(m: Match, n: nat)
    ensures Resized([m], n) == [Match(m.op, m.start, m.start + n)]
  {
    assert [m][..0] == [];
  }

  /** An earlier match is found again. */
  lemma MatchKept(s: string, i: nat, b: string)
    requires HasMatch(s, i) && Matches(s, MatchAt(s, i).end) != []
    requires var rest := Matches(s, MatchAt(s, i).end);
      var t := Splice(s, rest[|rest| - 1], b);
      MatchAt(s, i).end <= |t| && Matches(t, MatchAt(s, i).end) == Resized(rest, |b|)
    ensures var ms := Matches(s, i);
      var t := Splice(s, ms[|ms| - 1], b);
      i <= |t| && Matches(t, i) == Resized(ms, |b|)
  {
    MatchesHere(s, i);
    var rest := Matches(s, MatchAt(s, i).end);
    var m := rest[|rest| - 1];
    var t := Splice(s, m, b);
    SpliceParts(s, m, b);
    hide Matches, Splice, MatchAt, HasMatch, Resized;
    SameMatchAt(s, t, i, m.start);
    MatchesHere(t, i);
    ResizedCons(MatchAt(s, i), rest, |b|);
  }

  /** Replacing the last bound by other bound characters replaces the last match, and no other. */
  lemma {:induction false} MatchesSplice(s: string, i: nat, b: string)
    requires i <= |s| && Matches(s, i) != [] && IsBound(b)
    ensures var ms := Matches(s, i);
      var t := Splice(s, ms[|ms| - 1], b);
      i <= |t| && Matches(t, i) == Resized(ms, |b|)
    decreases |s| - i
  {
    var ms := Matches(s, i);
    var t := Splice(s, ms[|ms| - 1], b);
    assert i < |s|;
    if !HasMatch(s, i) {
      MatchesSkip(s, i);
      MatchesSplice(s, i + 1, b);
      hide Matches;
      assert i + 1 < ms[|ms| - 1].start && t[i] == s[i] && t[i + 1] == s[i + 1];
      MatchesSkip(t, i);
    } else if Matches(s, MatchAt(s, i).end) == [] {
      MatchReplaced(s, i, b);
      MatchesHere(s, i);
    } else {
      MatchesSplice(s, MatchAt(s, i).end, b);
      MatchKept(s, i, b);
    }
  }

  // ----- what the replacement means -----

  /** Later matches start after earlier ones end. */
  lemma {:induction false} MatchesOrdered(s: string, i: nat, k: nat)
    requires i <= |s| && k + 1 < |Matches(s, i)|
    ensures Matches(s, i)[k].end <= Matches(s, i)[|Matches(s, i)| - 1].start
    decreases |s| - i
  {
    var ms := Matches(s, i);
    if !HasMatch(s, i) {
      MatchesOrdered(s, i + 1, k);
    } else {
      var rest := Matches(s, MatchAt(s, i).end);
      assert ms[|ms| - 1] == rest[|rest| - 1];
      if k > 0 {
        assert ms[k] == rest[k - 1];
        MatchesOrdered(s, MatchAt(s, i).end, k - 1);
      }
    }
  }

  lemma {:induction false} PrintIsBound(v: Version)
    requires v != []
    ensures IsBound(Print(v)) && IsDigit(Print(v)[0])
    ensures forall i :: 0 <= i < |Print(v)| ==> IsDigit(Print(v)[i]) || Print(v)[i] == '.'
  {
    var d := Digits(v[0]);
    if |v| > 1 {
      PrintIsBound(v[1..]);
      hide Digits;
      var rest := Print(v[1..]);
      forall i | 0 <= i < |Print(v)| ensures IsDigit(Print(v)[i]) || Print(v)[i] == '.' {
        if i < |d| {
          assert Print(v)[i] == d[i];
        } else if i > |d| {
          assert Print(v)[i] == rest[i - |d| - 1];
        }
      }
    }
  }

  /** The new bound for v, given the last bound of the text. */
  function BoundFor(op: Op, was: Version, v: Version): (b: Version)
    requires was != []
    ensures b != []
  {
    Significance(op, was, v);
    NewBound(op, Precision(op, was), |was| - Precision(op, was), v)
  }

  /** The version that a match's bound stands for. */
  function BoundOf(s: string, m: Match): Result<Version>
    requires m.start <= m.end <= |s|
  {
    Parse(s[m.start..m.end])
  }

  function LastBound(s: string): (m: Match)
    requires Matches(s, 0) != []
    ensures m.start < m.end <= |s|
  {
    Matches(s, 0)[|Matches(s, 0)| - 1]
  }

  /** Replacing succeeds by making the last bound the new one and leaving all else alone: the
      operators and the other bounds, and the text around them. */
  lemma ReplaceLastIs(s: string, newVersion: string)
    requires ReplaceLast(s, newVersion).Ok? && Matches(s, 0) != []
    ensures var t := ReplaceLast(s, newVersion).value;
      && Parse(newVersion).Ok? && AllParse(s, Matches(s, 0)) && BoundOf(s, LastBound(s)).Ok?
      && Matches(t, 0) != [] && AllParse(t, Matches(t, 0))
      && var m, m', n := LastBound(s), LastBound(t), |Matches(s, 0)| - 1;
      && Matches(t, 0)[..|Matches(t, 0)| - 1] == Matches(s, 0)[..n] && m'.op == m.op && m'.start == m.start
      && var b := BoundFor(m.op, BoundOf(s, m).value, Parse(newVersion).value);
      && t == Splice(s, m, Print(b)) && t[m'.start..m'.end] == Print(b) && BoundOf(t, m') == Ok(b)
  {
    var ms, m := Matches(s, 0), LastBound(s);
    assert AllParse(s, ms);
    LastParses(s);
    var b := BoundFor(m.op, BoundOf(s, m).value, Parse(newVersion).value);
    ParsePrint(b);
    PrintIsBound(b);
    ReplaceUnfold(s, newVersion);
    MatchesSplice(s, 0, Print(b));
    SplicedParse(s, Print(b));
    hide Parse, Print, Splice, BoundFor, Matches, AllParse;
  }

  lemma LastParses(s: string)
    requires Matches(s, 0) != [] && AllParse(s, Matches(s, 0))
    ensures BoundOf(s, LastBound(s)).Ok?
  {
    hide Matches, Parse;
  }

  lemma ReplaceUnfold(s: string, newVersion: string)
    requires Matches(s, 0) != [] && AllParse(s, Matches(s, 0)) && Parse(newVersion).Ok? && BoundOf(s, LastBound(s)).Ok?
    ensures ReplaceLast(s, newVersion)
      == Ok(Splice(s, LastBound(s),
        Print(BoundFor(LastBound(s).op, BoundOf(s, LastBound(s)).value, Parse(newVersion).value))))
  {
    hide Matches, Parse, Print, Splice, BoundFor;
  }

  lemma SlicesAgree(s: string, t: string, n: nat, i: nat, j: nat)
    requires n <= |s| && n <= |t| && s[..n] == t[..n] && i <= j <= n
    ensures s[i..j] == t[i..j]
  {
    forall k | 0 <= k < j - i ensures s[i..j][k] == t[i..j][k] {
      assert s[..n][i + k] == t[..n][i + k];
    }
  }

  lemma ResizedAt(ms: seq<Match>, n: nat, k: nat)
    requires k < |ms|
    ensures |Resized(ms, n)| == |ms|
    ensures Resized(ms, n)[k] == if k < |ms| - 1 then ms[k] else Match(ms[k].op, ms[k].start, ms[k].start + n)
  {
  }

  /** Bounds before the last one parse as they did, and the last one as the text put there. */
  lemma BoundsKept(s: string, t: string, ms: seq<Match>, text: string)
    requires ms != [] && Parse(text).Ok?
    requires forall k :: 0 <= k < |ms| ==> ms[k].start <= ms[k].end <= |s|
    requires forall k :: 0 <= k < |ms| - 1 ==> ms[k].end <= ms[|ms| - 1].start
    requires AllParse(s, ms)
    requires var n := ms[|ms| - 1].start;
      n + |text| <= |t| && t[..n] == s[..n] && t[n..n + |text|] == text
    ensures forall k :: 0 <= k < |ms| ==> Resized(ms, |text|)[k].start <= Resized(ms, |text|)[k].end <= |t|
    ensures AllParse(t, Resized(ms, |text|))
  {
    hide Parse, Resized;
    var ms', m := Resized(ms, |text|), ms[|ms| - 1];
    assert |ms'| == |ms| by { ResizedAt(ms, |text|, 0); }
    forall k | 0 <= k < |ms| ensures ms'[k].start <= ms'[k].end <= |t| && Parse(t[ms'[k].start..ms'[k].end]).Ok? {
      ResizedAt(ms, |text|, k);
      if k < |ms| - 1 {
        SlicesAgree(s, t, m.start, ms[k].start, ms[k].end);
        assert Parse(s[ms[k].start..ms[k].end]).Ok?;
      }
    }
  }

  /** With another version in its last bound, all bounds of a text are still versions. */
  lemma SplicedParse(s: string, text: string)
    requires Matches(s, 0) != [] && AllParse(s, Matches(s, 0)) && Parse(text).Ok?
    requires var t := Splice(s, LastBound(s), text); Matches(t, 0) == Resized(Matches(s, 0), |text|)
    ensures var t := Splice(s, LastBound(s), text);
      AllParse(t, Matches(t, 0)) && t[LastBound(t).start..LastBound(t).end] == text
  {
    hide Parse, Splice, Matches, AllParse;
    var ms := Matches(s, 0);
    var t := Splice(s, LastBound(s), text);
    SpliceParts(s, LastBound(s), text);
    forall k | 0 <= k < |ms| - 1 ensures ms[k].end <= LastBound(s).start {
      MatchesOrdered(s, 0, k);
    }
    BoundsKept(s, t, ms, text);
    assert LastBound(t).start == LastBound(s).start && LastBound(t).end == LastBound(s).start + |text|;
  }

  /** The new bound of the text is the least one of the old one's precision that admits the new
      version: strictly above it for <, at or above it for <=. */
  lemma ReplaceLastLeast(s: string, newVersion: string)
    requires ReplaceLast(s, newVersion).Ok? && Matches(s, 0) != []
    ensures var t := ReplaceLast(s, newVersion).value;
      && Parse(newVersion).Ok? && BoundOf(s, LastBound(s)).Ok?
      && Matches(t, 0) != [] && BoundOf(t, LastBound(t)).Ok?
      && var op, v, b := LastBound(s).op, Parse(newVersion).value, BoundOf(t, LastBound(t)).value;
      var p := Precision(op, BoundOf(s, LastBound(s)).value);
      && LastBound(t).op == op && OfPrecision(b, p)
      && (op == Less ==> Below(v, b) && forall w :: OfPrecision(w, p) && Below(v, w) ==> AtMost(b, w))
      && (op == LessOrEqual ==> AtMost(v, b) && forall w :: OfPrecision(w, p) && AtMost(v, w) ==> AtMost(b, w))
  {
    ReplaceLastIs(s, newVersion);
    hide Matches, ReplaceLast, Parse, Splice, Print, LastBound, AllParse, BoundOf;
    var op, was, v := LastBound(s).op, BoundOf(s, LastBound(s)).value, Parse(newVersion).value;
    Significance(op, was, v);
    if op == Less {
      StrictBound(Precision(op, was), |was| - Precision(op, was), v);
    } else {
      InclusiveBound(|was|, v);
    }
  }

  /** The new bound renews as itself: its precision is the old one's. */
  lemma RenewedTwice(op: Op, was: Version, v: Version)
    requires was != []
    ensures BoundFor(op, BoundFor(op, was, v), v) == BoundFor(op, was, v)
  {
    Significance(op, was, v);
    if op == Less {
      StrictBound(Precision(op, was), |was| - Precision(op, was), v);
    } else {
      InclusiveBound(|was|, v);
    }
  }

  lemma SpliceSame(t: string, m: Match)
    requires m.start <= m.end <= |t|
    ensures Splice(t, m, t[m.start..m.end]) == t
  {
  }

  /** Replacing twice is replacing once. */
  lemma ReplaceLastTwice(s: string, newVersion: string)
    requires ReplaceLast(s, newVersion).Ok?
    ensures ReplaceLast(ReplaceLast(s, newVersion).value, newVersion) == ReplaceLast(s, newVersion)
  {
    var t := ReplaceLast(s, newVersion).value;
    if Matches(s, 0) == [] {
      assert t == s;
    } else {
      hide Matches, Parse, Print, BoundFor, Splice, ReplaceLast, AllParse, LastBound, BoundOf;
      ReplaceLastIs(s, newVersion);
      RenewedTwice(LastBound(s).op, BoundOf(s, LastBound(s)).value, Parse(newVersion).value);
      ReplaceUnfold(t, newVersion);
      SpliceSame(t, LastBound(t));
    }
  }

  /** _replace_last_upper_bound, step by step. */
  method ReplaceLastUpperBound(constraint: string, newVersion: string) returns (r: Result<string>)
    ensures r == ReplaceLast(constraint, newVersion)
  {
    hide Parse, Print, Significant, Matches;
    var matches := Matches(constraint, 0);
    if matches == [] {
      return Ok(constraint);
    }
    for i := 0 to |matches|
      invariant forall k :: 0 <= k < i ==> Parse(constraint[matches[k].start..matches[k].end]).Ok?
    {
      if Parse(constraint[matches[i].start..matches[i].end]).Err? {
        return Err("Unsupported upper bound");
      }
    }

    var last := matches[|matches| - 1];
    var oldUpper := constraint[last.start..last.end];
    assert Parse(oldUpper).Ok?;
    var precision, trailingZeros := UpperBoundPrecision(last.op, Parse(oldUpper).value);
    var parsed := Parse(newVersion);
    if parsed.Err? {
      return Err("Unsupported new version");
    }
    var segments := parsed.value;
    var newLen := |segments|;
    var extraSegments := if newLen > precision then segments[precision..] else [];
    Significance(last.op, Parse(oldUpper).value, segments);
    if newLen < precision {
      segments := segments + Zeros(precision - newLen);
    } else {
      segments := segments[..precision];
    }

    if last.op == Less {
      segments := segments[|segments| - 1 := segments[|segments| - 1] + 1];
      segments := segments + Zeros(trailingZeros);
    } else if newLen > precision && AnyNonZero(extraSegments) {
      segments := segments[|segments| - 1 := segments[|segments| - 1] + 1];
    }

    var newUpper := Print(segments);
    assert segments == BoundFor(last.op, Parse(oldUpper).value, parsed.value);
    if newUpper == oldUpper {
      SpliceSame(constraint, last);
      return Ok(constraint);
    }
    r := Ok(constraint[..last.start] + newUpper + constraint[last.end..]);
  }
}
