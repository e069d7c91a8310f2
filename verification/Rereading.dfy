/** Reading back a list item after its value was renewed: when the second reading has something to
    renew that the first did not leave renewed. */
module Rereading {
  import opened Wrappers
  import opened Decimals
  import opened Versions
  import opened Constraints
  import opened ConfigLines

  // ----- where reading a value stops -----

  /** The end of what is read back of a value. */
  function SeenEnd(v: string, q: char, i: nat): (k: nat)
    requires i <= |v|
    ensures i <= k <= |v| && (forall j :: i <= j < k ==> !Closing(v, q, j)) && (k < |v| ==> Closing(v, q, k))
    decreases |v| - i
  {
    hide Closing;
    if i == |v| || Closing(v, q, i) then i else SeenEnd(v, q, i + 1)
  }

  function Seen(v: string, q: char): string {
    v[..SeenEnd(v, q, 0)]
  }

  lemma SeenEndIs(v: string, q: char, k: nat)
    requires k <= |v| && (forall j :: 0 <= j < k ==> !Closing(v, q, j)) && (k < |v| ==> Closing(v, q, k))
    ensures SeenEnd(v, q, 0) == k
  {
    hide Closing;
  }

  /** A printed item, cut at a quote of its value or at its end. */
  lemma Cut(item: Item, k: nat)
    requires k <= |item.value| && (k < |item.value| ==> item.value[k] == item.quote)
    ensures var b, n, c := Body(item), |item.indent|, |item.indent| + 3 + k;
      && n + 3 <= c < |b| && b[..n] == item.indent && b[n] == '-' && b[n + 1] == ' ' && b[n + 2] == item.quote
      && b[n + 3..c] == item.value[..k] && b[c] == item.quote
  {
    BodyParts(item);
    hide Body;
    var b, n := Body(item), |item.indent|;
    var value := b[n + 3..n + 3 + |item.value|];
    assert b[n + 3..n + 3 + k] == value[..k];
    assert k < |item.value| ==> b[n + 3 + k] == value[k];
  }

  lemma PrintIsBody(item: Item)
    ensures PrintItem(item) == Body(item) + "\n"
  {
  }

  /** Printing what was read back gives the same line, whatever was read. */
  lemma Reread(item: Item)
    requires WellFormed(item)
    ensures var o := PrintItem(item);
      && ItemOf(o).Some? && ItemOf(o).value.quote == item.quote
      && ItemOf(o).value.value == Seen(item.value, item.quote) && PrintItem(ItemOf(o).value) == o
  {
    hide *;
    var n, k := |item.indent|, SeenEnd(item.value, item.quote, 0);
    var b, c := Body(item), n + 3 + k;
    RereadEnd(item);
    PrintedParse(item, c);
    SeenQuote(item.value, item.quote);
    Cut(item, k);
    Reassemble(b, n, c, item.quote);
    PrintIsBody(item);
  }

  lemma SeenQuote(v: string, q: char)
    ensures var k := SeenEnd(v, q, 0); (k < |v| ==> v[k] == q) && Seen(v, q) == v[..k]
  {
  }

  lemma Reassemble(b: string, n: nat, c: nat, q: char)
    requires n + 3 <= c < |b| && b[n] == '-' && b[n + 1] == ' ' && b[n + 2] == q && b[c] == q
    ensures PrintItem(Item(b[..n], q, b[n + 3..c], b[c + 1..])) == b + "\n"
  {
    assert b == b[..n] + [b[n], b[n + 1]] + [b[n + 2]] + b[n + 3..c] + [b[c]] + b[c + 1..];
  }

  lemma RereadOpen(item: Item, j: nat)
    requires WellFormed(item) && j < SeenEnd(item.value, item.quote, 0)
    ensures var b, k := Body(item), |item.indent| + 3 + j;
      k < |b| && !(b[k] == item.quote && SuffixOk(b[k + 1..]))
  {
    BodyParts(item);
    BodyMayClose(item, j);
    assert !Closing(item.value, item.quote, j);
    hide Body, SuffixOk, FirstIs, WellFormed;
  }

  lemma RereadShut(item: Item)
    requires WellFormed(item)
    ensures var b, c := Body(item), |item.indent| + 3 + SeenEnd(item.value, item.quote, 0);
      c < |b| && b[c] == item.quote && SuffixOk(b[c + 1..])
  {
    var k := SeenEnd(item.value, item.quote, 0);
    BodyParts(item);
    if k < |item.value| {
      BodyMayClose(item, k);
    }
    hide Body, FirstIs, Skip;
  }

  lemma RereadEnd(item: Item)
    requires WellFormed(item)
    ensures Close(Body(item), item.quote, |item.indent| + 3)
      == Some(|item.indent| + 3 + SeenEnd(item.value, item.quote, 0))
  {
    hide *;
    var b, n, k := Body(item), |item.indent|, SeenEnd(item.value, item.quote, 0);
    RereadShut(item);
    forall j | n + 3 <= j < n + 3 + k && b[j] == item.quote ensures !SuffixOk(b[j + 1..]) {
      RereadOpen(item, j - n - 3);
    }
    CloseIs(b, item.quote, n + 3, n + 3 + k);
  }

  // ----- renewing a bound moves no closing quote but those after it -----

  predicate PlainBound(x: string, q: char) {
    x != [] && IsDigit(x[0]) && forall i :: 0 <= i < |x| ==> x[i] != q
  }

  lemma FirstBefore(a: string, d: char, rest: string, c: char)
    requires !IsSpace(d) && c != d
    ensures FirstIs(a + [d] + rest, c) <==> FirstIs(a, c)
  {
    var s, k := a + [d] + rest, Skip(a, 0);
    assert forall j :: 0 <= j < |a| ==> s[j] == a[j];
    SkipIs(s, 0, k);
  }

  /** Before the bound, closing does not depend on the bound. */
  lemma ClosingBefore(pre: string, x: string, post: string, q: char, j: nat)
    requires PlainBound(x, q) && j < |pre|
    ensures Closing(pre + x + post, q, j) <==> pre[j] == q && FirstIs(pre[j + 1..], '#')
  {
    var v := pre + x + post;
    assert v[j + 1..] == pre[j + 1..] + [x[0]] + (x[1..] + post);
    FirstBefore(pre[j + 1..], x[0], x[1..] + post, '#');
    hide FirstIs;
  }

  lemma ClosingInside(pre: string, x: string, post: string, q: char, j: nat)
    requires PlainBound(x, q) && |pre| <= j < |pre| + |x|
    ensures !Closing(pre + x + post, q, j)
  {
    assert (pre + x + post)[j] == x[j - |pre|];
    hide FirstIs;
  }

  lemma ClosingAfter(pre: string, x: string, post: string, q: char, j: nat)
    requires j < |post|
    ensures Closing(pre + x + post, q, |pre| + |x| + j) <==> post[j] == q && FirstIs(post[j + 1..], '#')
  {
    var v, k := pre + x + post, |pre| + |x| + j;
    assert v[k + 1..] == post[j + 1..];
    hide FirstIs;
  }

  lemma SameBefore(pre: string, x: string, y: string, post: string, q: char, i: nat)
    requires PlainBound(x, q) && PlainBound(y, q) && i < |pre|
    ensures Closing(pre + x + post, q, i) <==> Closing(pre + y + post, q, i)
  {
    hide *;
    ClosingBefore(pre, x, post, q, i);
    ClosingBefore(pre, y, post, q, i);
  }

  lemma SameAfter(pre: string, x: string, y: string, post: string, q: char, i: nat)
    requires |pre| + |y| <= i < |pre + y + post|
    ensures Closing(pre + y + post, q, i) <==> Closing(pre + x + post, q, i - |y| + |x|)
  {
    hide *;
    ClosingAfter(pre, x, post, q, i - |pre| - |y|);
    ClosingAfter(pre, y, post, q, i - |pre| - |y|);
  }

  lemma SeenEndBefore(pre: string, x: string, y: string, post: string, q: char, j: nat)
    requires PlainBound(x, q) && PlainBound(y, q) && j == SeenEnd(pre + x + post, q, 0) < |pre|
    ensures SeenEnd(pre + y + post, q, 0) == j
  {
    var v, w := pre + x + post, pre + y + post;
    hide PlainBound, SeenEnd, Closing, FirstIs;
    forall i: nat | i <= j ensures Closing(w, q, i) <==> i == j {
      SameBefore(pre, x, y, post, q, i);
      assert Closing(v, q, i) <==> i == j;
    }
    SeenEndIs(w, q, j);
  }

  /** The end moves with what follows the bound. */
  lemma SeenEndShifts(v: string, w: string, q: char, m: nat, n: nat)
    requires |v| - m == |w| - n && m <= |v| && m <= SeenEnd(v, q, 0)
    requires forall i: nat :: i < n && i < |w| ==> !Closing(w, q, i)
    requires forall i: nat :: n <= i < |w| ==> (Closing(w, q, i) <==> Closing(v, q, i - n + m))
    ensures SeenEnd(w, q, 0) == SeenEnd(v, q, 0) - m + n
  {
    hide Closing;
    SeenEndIs(w, q, SeenEnd(v, q, 0) - m + n);
  }

  lemma SeenEndAfter(pre: string, x: string, y: string, post: string, q: char)
    requires PlainBound(x, q) && PlainBound(y, q) && SeenEnd(pre + x + post, q, 0) >= |pre| + |x|
    ensures SeenEnd(pre + y + post, q, 0) == SeenEnd(pre + x + post, q, 0) - |x| + |y|
  {
    var v, w := pre + x + post, pre + y + post;
    hide PlainBound, SeenEnd, Closing, FirstIs;
    forall i: nat | i < |pre| + |y| ensures !Closing(w, q, i) {
      if i < |pre| {
        SameBefore(pre, x, y, post, q, i);
        assert !Closing(v, q, i);
      } else {
        ClosingInside(pre, y, post, q, i);
      }
    }
    forall i: nat | |pre| + |y| <= i < |w| ensures Closing(w, q, i) <==> Closing(v, q, i - |y| + |x|) {
      SameAfter(pre, x, y, post, q, i);
    }
    SeenEndShifts(v, w, q, |pre| + |x|, |pre| + |y|);
  }

  /** Reading never stops inside a bound. */
  lemma SeenEndOutside(pre: string, x: string, post: string, q: char)
    requires PlainBound(x, q)
    ensures var j := SeenEnd(pre + x + post, q, 0); j < |pre| || |pre| + |x| <= j
  {
    var j := SeenEnd(pre + x + post, q, 0);
    hide PlainBound, SeenEnd, Closing, FirstIs;
    if |pre| <= j < |pre| + |x| {
      ClosingInside(pre, x, post, q, j);
    }
  }

  // ----- matches in a prefix -----

  lemma PrefixMatchAt(s: string, i: nat, n: nat)
    requires n <= |s| && HasMatch(s, i) && MatchAt(s, i).end <= n
    ensures HasMatch(s[..n], i) && MatchAt(s[..n], i) == MatchAt(s, i)
  {
    var t, m := s[..n], MatchAt(s, i);
    assert forall j :: 0 <= j < n ==> t[j] == s[j];
    TokenEndIs(t, m.start, m.end);
  }

  lemma PrefixNoMatch(s: string, i: nat, n: nat)
    requires n <= |s| && !HasMatch(s, i)
    ensures !HasMatch(s[..n], i)
  {
  }

  ghost predicate EndBy(ms: seq<Match>, n: nat) {
    (ms != [] ==> ms[0].end <= n) && forall k :: 0 <= k < |ms| ==> ms[k].end <= n
  }

  lemma EndByRest(m: Match, rest: seq<Match>, n: nat)
    requires EndBy([m] + rest, n)
    ensures m.end <= n && EndBy(rest, n)
  {
    var ms := [m] + rest;
    assert ms[0] == m && forall k :: 0 <= k < |rest| ==> rest[k] == ms[k + 1];
  }

  /** A prefix that holds all matches has the same matches. */
  lemma {:induction false} PrefixMatches(s: string, i: nat, n: nat)
    requires i <= n <= |s| && EndBy(Matches(s, i), n)
    ensures Matches(s[..n], i) == Matches(s, i)
    decreases n - i
  {
    if i < n {
      if HasMatch(s, i) {
        MatchesHere(s, i);
        hide Matches, HasMatch, EndBy;
        EndByRest(MatchAt(s, i), Matches(s, MatchAt(s, i).end), n);
        PrefixMatchAt(s, i, n);
        PrefixMatches(s, MatchAt(s, i).end, n);
        MatchesHere(s[..n], i);
      } else {
        MatchesSkip(s, i);
        PrefixNoMatch(s, i, n);
        PrefixMatches(s, i + 1, n);
        MatchesSkip(s[..n], i);
      }
    }
  }

  lemma {:induction false} ParsedPlain(s: string, i: nat)
    requires Parse(s).Ok? && i < |s|
    ensures IsDigit(s[0]) && (IsDigit(s[i]) || s[i] == '.')
    decreases |s|
  {
    var k := DigitsEnd(s, 0);
    assert forall j :: 0 <= j < k ==> s[j] == s[0..k][j];
    hide Number;
    if i > k {
      ParsedPlain(s[k + 1..], i - k - 1);
    }
  }

  lemma ParsedIsPlain(s: string, q: char)
    requires Parse(s).Ok? && s != [] && (q == '"' || q == '\'')
    ensures PlainBound(s, q)
  {
    forall i | 0 <= i < |s| ensures IsDigit(s[0]) && s[i] != q {
      ParsedPlain(s, i);
    }
  }

  lemma PrintIsPlain(v: Version, q: char)
    requires v != [] && (q == '"' || q == '\'')
    ensures PlainBound(Print(v), q)
  {
    PrintIsBound(v);
    hide Print;
  }

  // ----- the second renewal -----

  /** The bound that is renewed lies in what will be read back, or what will be read back has nothing
      to renew. */
  predicate Lasting(v: string, q: char, newVersion: string) {
    || Matches(v, 0) == []
    || LastBound(v).end <= SeenEnd(v, q, 0)
    || ReplaceLast(Seen(v, q), newVersion) == Ok(Seen(v, q))
  }

  lemma AllEndBy(v: string, n: nat)
    requires Matches(v, 0) != [] && LastBound(v).end <= n
    ensures EndBy(Matches(v, 0), n)
  {
    forall k | 0 <= k < |Matches(v, 0)| ensures Matches(v, 0)[k].end <= n {
      if k + 1 < |Matches(v, 0)| {
        MatchesOrdered(v, 0, k);
      }
    }
  }

  lemma NothingSeen(v: string, q: char, newVersion: string)
    requires Matches(v, 0) == []
    ensures ReplaceLast(v, newVersion) == Ok(v) && ReplaceLast(Seen(v, q), newVersion) == Ok(Seen(v, q))
  {
    PrefixMatches(v, 0, SeenEnd(v, q, 0));
    hide Matches, SeenEnd;
  }

  lemma SameBounds(v: string, n: nat)
    requires n <= |v| && AllParse(v, Matches(v, 0)) && Matches(v[..n], 0) == Matches(v, 0) && EndBy(Matches(v, 0), n)
    ensures AllParse(v[..n], Matches(v[..n], 0))
  {
    hide Matches, Parse;
    var ms := Matches(v, 0);
    forall k | 0 <= k < |ms| ensures v[..n][ms[k].start..ms[k].end] == v[ms[k].start..ms[k].end] {
      SlicesAgree(v, v[..n], n, ms[k].start, ms[k].end);
    }
  }

  /** Where a value stops being read when one of its bounds is replaced. */
  lemma SeenEndSpliced(v: string, m: Match, q: char, b: string)
    requires m.start <= m.end <= |v| && PlainBound(v[m.start..m.end], q) && PlainBound(b, q)
    ensures var j, k := SeenEnd(v, q, 0), SeenEnd(Splice(v, m, b), q, 0);
      (j < m.start && k == j) || (j >= m.end && k == j - m.end + m.start + |b|)
  {
    var pre, x, post := v[..m.start], v[m.start..m.end], v[m.end..];
    assert v == pre + x + post;
    hide PlainBound, SeenEnd;
    var j := SeenEnd(v, q, 0);
    SeenEndOutside(pre, x, post, q);
    if j < m.start {
      SeenEndBefore(pre, x, b, post, q, j);
    } else {
      SeenEndAfter(pre, x, b, post, q);
    }
  }

  lemma PrefixOfSplice(v: string, m: Match, b: string, j: nat)
    requires m.start <= m.end <= |v| && j <= |v|
    ensures j >= m.end ==> Splice(v, m, b)[..j - m.end + m.start + |b|] == Splice(v[..j], m, b)
    ensures j <= m.start ==> Splice(v, m, b)[..j] == v[..j]
  {
    if j >= m.end {
      assert v[..j][..m.start] == v[..m.start];
      assert v[..j][m.end..] == v[m.end..][..j - m.end];
    }
  }

  lemma OldBoundPlain(v: string, q: char)
    requires Matches(v, 0) != [] && BoundOf(v, LastBound(v)).Ok? && (q == '"' || q == '\'')
    ensures PlainBound(v[LastBound(v).start..LastBound(v).end], q)
  {
    hide Matches, Parse, PlainBound;
    ParsedIsPlain(v[LastBound(v).start..LastBound(v).end], q);
  }

  lemma PrefixLast(v: string, j: nat)
    requires Matches(v, 0) != [] && LastBound(v).end <= j <= |v| && AllParse(v, Matches(v, 0))
      && BoundOf(v, LastBound(v)).Ok?
    ensures Matches(v[..j], 0) == Matches(v, 0) && AllParse(v[..j], Matches(v[..j], 0))
    ensures LastBound(v[..j]) == LastBound(v) && BoundOf(v[..j], LastBound(v)) == BoundOf(v, LastBound(v))
  {
    AllEndBy(v, j);
    PrefixMatches(v, 0, j);
    SameBounds(v, j);
    hide Matches, Parse, AllParse;
    SlicesAgree(v, v[..j], j, LastBound(v).start, LastBound(v).end);
  }

  lemma NewTextUnfold(v: string, newVersion: string)
    requires Matches(v, 0) != [] && AllParse(v, Matches(v, 0)) && BoundOf(v, LastBound(v)).Ok? && Parse(newVersion).Ok?
    ensures ReplaceLast(v, newVersion) == Ok(Splice(v, LastBound(v), NewText(v, newVersion)))
  {
    hide Matches, Parse, Print, BoundFor, ReplaceLast, AllParse, Splice, BoundOf, LastBound;
    ReplaceUnfold(v, newVersion);
  }

  lemma NewTextSame(v: string, s: string, newVersion: string)
    requires Matches(v, 0) != [] && Matches(s, 0) != [] && LastBound(s) == LastBound(v) && LastBound(v).end <= |s|
    requires BoundOf(v, LastBound(v)).Ok? && BoundOf(s, LastBound(v)) == BoundOf(v, LastBound(v))
      && Parse(newVersion).Ok?
    ensures NewText(s, newVersion) == NewText(v, newVersion)
  {
    hide Matches, Parse, Print, BoundFor, BoundOf, LastBound;
  }

  /** A prefix that holds all bounds has its last one replaced just as the whole value has. */
  lemma PrefixReplaced(v: string, j: nat, newVersion: string)
    requires Matches(v, 0) != [] && LastBound(v).end <= j <= |v| && AllParse(v, Matches(v, 0))
      && BoundOf(v, LastBound(v)).Ok?
    requires Parse(newVersion).Ok?
    ensures ReplaceLast(v[..j], newVersion) == Ok(Splice(v[..j], LastBound(v), NewText(v, newVersion)))
  {
    hide *;
    PrefixLast(v, j);
    NewTextUnfold(v[..j], newVersion);
    NewTextSame(v, v[..j], newVersion);
  }

  lemma SeenTwice(v: string, j: nat, newVersion: string, seen: string)
    requires j <= |v| && ReplaceLast(v[..j], newVersion) == Ok(seen)
    ensures ReplaceLast(seen, newVersion) == Ok(seen)
  {
    hide *;
    ReplaceLastTwice(v[..j], newVersion);
  }

  lemma SeenIs(v: string, q: char)
    ensures Seen(v, q) == v[..SeenEnd(v, q, 0)]
  {
  }

  lemma LastingIs(v: string, q: char, newVersion: string)
    requires Matches(v, 0) != []
    ensures Lasting(v, q, newVersion)
      <==> LastBound(v).end <= SeenEnd(v, q, 0) || ReplaceLast(Seen(v, q), newVersion) == Ok(Seen(v, q))
  {
    hide Matches, SeenEnd, ReplaceLast;
  }

  /** The text that takes the place of the last bound. */
  function NewText(v: string, newVersion: string): string
    requires Matches(v, 0) != [] && BoundOf(v, LastBound(v)).Ok? && Parse(newVersion).Ok?
  {
    Print(BoundFor(LastBound(v).op, BoundOf(v, LastBound(v)).value, Parse(newVersion).value))
  }

  lemma ReplacedBy(v: string, newVersion: string, q: char)
    requires ReplaceLast(v, newVersion).Ok? && Matches(v, 0) != [] && (q == '"' || q == '\'')
    ensures AllParse(v, Matches(v, 0)) && BoundOf(v, LastBound(v)).Ok? && Parse(newVersion).Ok?
    ensures ReplaceLast(v, newVersion) == Ok(Splice(v, LastBound(v), NewText(v, newVersion)))
    ensures PlainBound(v[LastBound(v).start..LastBound(v).end], q) && PlainBound(NewText(v, newVersion), q)
  {
    hide Parse, Print, Splice, ReplaceLast, LastBound, Matches, PlainBound;
    ReplaceLastIs(v, newVersion);
    OldBoundPlain(v, q);
    PrintIsPlain(BoundFor(LastBound(v).op, BoundOf(v, LastBound(v)).value, Parse(newVersion).value), q);
  }

  /** What is read back of a renewed value has nothing to renew exactly when the value is lasting. */
  lemma RenewedLasts(v: string, q: char, newVersion: string)
    requires ReplaceLast(v, newVersion).Ok? && (q == '"' || q == '\'')
    ensures var seen := Seen(ReplaceLast(v, newVersion).value, q);
      ReplaceLast(seen, newVersion) == Ok(seen) <==> Lasting(v, q, newVersion)
  {
    hide *;
    if Matches(v, 0) == [] {
      NothingSeen(v, q, newVersion);
      NothingLasts(v, q, newVersion);
    } else {
      ReplacedBy(v, newVersion, q);
      var j, m, b := SeenEnd(v, q, 0), LastBound(v), NewText(v, newVersion);
      var w := Splice(v, m, b);
      SeenEndSpliced(v, m, q, b);
      PrefixOfSplice(v, m, b, j);
      SeenIs(v, q);
      SeenIs(w, q);
      LastingIs(v, q, newVersion);
      if j >= m.end {
        PrefixReplaced(v, j, newVersion);
        SeenTwice(v, j, newVersion, Seen(w, q));
      }
    }
  }

  lemma NothingLasts(v: string, q: char, newVersion: string)
    requires Matches(v, 0) == []
    ensures Lasting(v, q, newVersion)
  {
  }

  /** A value that no comment seems to follow inside is lasting. */
  lemma OpenLasts(v: string, q: char, newVersion: string)
    requires !ClosesEarly(v, q)
    ensures Lasting(v, q, newVersion)
  {
    hide FirstIs, Matches, ReplaceLast;
    assert SeenEnd(v, q, 0) == |v|;
  }
}
