/** Which lines are markers, list items and key lines, said of their characters. */
module LineText {
  import opened Wrappers
  import opened Constraints
  import opened ConfigLines
  import opened KeyMarkers

  // ----- words and gaps in a line -----

  predicate Spaces(s: string) {
    forall j :: 0 <= j < |s| ==> IsSpace(s[j])
  }

  predicate Word(s: string) {
    s != "" && forall j :: 0 <= j < |s| ==> !IsSpace(s[j])
  }

  predicate SpacesIn(s: string, i: nat, k: nat)
    requires i <= k <= |s|
  {
    forall j :: i <= j < k ==> IsSpace(s[j])
  }

  predicate WordIn(s: string, i: nat, k: nat)
    requires i <= k <= |s|
  {
    forall j :: i <= j < k ==> !IsSpace(s[j])
  }

  /** This word stands at i, and it does not begin with white space. */
  lemma WordStarts(s: string, i: nat, word: string)
    requires StartsAt(s, i, word) && word != "" && !IsSpace(word[0])
    ensures i < |s| && s[i] == word[0] && !IsSpace(s[i])
  {
    assert s[i..i + |word|][0] == s[i];
    hide IsSpace;
  }

  lemma GapIs(s: string, i: nat, k: nat)
    requires i < k < |s| && SpacesIn(s, i, k) && !IsSpace(s[k])
    ensures Gap(s, i) == Some(k)
  {
    hide IsSpace;
    SkipIs(s, i, k);
    hide Skip;
  }

  lemma {:induction false} WordEndIs(s: string, i: nat, k: nat)
    requires i <= k <= |s| && WordIn(s, i, k) && (k < |s| ==> IsSpace(s[k]))
    ensures WordEnd(s, i) == k
    decreases k - i
  {
    hide IsSpace;
    if i < k {
      WordEndIs(s, i + 1, k);
    }
  }

  lemma FieldIs(s: string, i: nat, name: string, k: nat)
    requires StartsAt(s, i, name) && i + |name| < k < |s| && WordIn(s, i + |name|, k) && IsSpace(s[k])
    ensures Field(s, i, name) == Some((i + |name|, k))
  {
    hide IsSpace, StartsAt;
    WordEndIs(s, i + |name|, k);
    hide WordEnd;
  }

  // ----- markers -----

  predicate HeadAt(s: string, i: nat) {
    StartsAt(s, i, "# renovate-conda-bound:")
  }

  predicate DepAt(s: string, i: nat) {
    StartsAt(s, i, "dep=")
  }

  predicate VersionAt(s: string, i: nat) {
    StartsAt(s, i, "newVersion=")
  }

  predicate ValueAt(s: string, i: nat) {
    StartsAt(s, i, "currentValue=")
  }

  /** Where the parts of a marker are: the head at i, the dependency from a + 4 to d, the version from b + 11
      to v, the current value from c + 13 on; white space between them and in front. */
  predicate MarkedAt(s: string, i: nat, a: nat, d: nat, b: nat, v: nat, c: nat) {
    && i + 23 < a && a + 4 < d < b && b + 11 < v < c && c + 13 <= |s|
    && SpacesIn(s, 0, i) && HeadAt(s, i) && SpacesIn(s, i + 23, a)
    && DepAt(s, a) && WordIn(s, a + 4, d) && SpacesIn(s, d, b)
    && VersionAt(s, b) && WordIn(s, b + 11, v) && SpacesIn(s, v, c)
    && ValueAt(s, c) && Chomp(s[c + 13..]) != ""
  }

  /** What the pattern finds in its places. */
  predicate Found(s: string, i: nat, a: nat, d: nat, b: nat, v: nat, c: nat)
    requires i + 23 <= |s| && d <= |s| && v <= |s|
  {
    && Skip(s, 0) == i && Gap(s, i + 23) == Some(a)
    && Field(s, a, "dep=") == Some((a + 4, d)) && Gap(s, d) == Some(b)
    && Field(s, b, "newVersion=") == Some((b + 11, v)) && Gap(s, v) == Some(c)
  }

  lemma FoundReads(s: string, i: nat, a: nat, d: nat, b: nat, v: nat, c: nat)
    requires i + 23 <= a && a + 4 <= d <= b && b + 11 <= v <= c && c + 13 <= |s|
    requires Found(s, i, a, d, b, v, c) && HeadAt(s, i) && ValueAt(s, c) && Chomp(s[c + 13..]) != ""
    ensures ParseMarker(s) == Some(Marker(s[a + 4..d], Strip(s[c + 13..])))
  {
    hide Strip, Chomp, StartsAt, Skip, Gap, Field;
  }

  lemma HeadFound(s: string, i: nat, a: nat)
    requires i + 23 < a <= |s| && SpacesIn(s, 0, i) && HeadAt(s, i) && SpacesIn(s, i + 23, a) && DepAt(s, a)
    ensures Skip(s, 0) == i && Gap(s, i + 23) == Some(a)
  {
    hide StartsAt, Skip, Gap, SpacesIn;
    WordStarts(s, i, "# renovate-conda-bound:");
    WordStarts(s, a, "dep=");
    SpacesAre(s, 0, i);
    SkipIs(s, 0, i);
    GapIs(s, i + 23, a);
  }

  lemma SpacesAre(s: string, i: nat, k: nat)
    requires i <= k <= |s| && SpacesIn(s, i, k)
    ensures forall j :: i <= j < k ==> IsSpace(s[j])
  {
    hide IsSpace;
  }

  lemma DepFound(s: string, a: nat, d: nat, b: nat)
    requires a + 4 < d < b <= |s| && DepAt(s, a) && WordIn(s, a + 4, d) && SpacesIn(s, d, b) && VersionAt(s, b)
    ensures Field(s, a, "dep=") == Some((a + 4, d)) && Gap(s, d) == Some(b)
  {
    hide StartsAt, Gap, Field, WordIn, SpacesIn;
    WordStarts(s, b, "newVersion=");
    SpaceAt(s, d, b);
    FieldIs(s, a, "dep=", d);
    GapIs(s, d, b);
  }

  lemma VersionFound(s: string, b: nat, v: nat, c: nat)
    requires b + 11 < v < c <= |s| && VersionAt(s, b) && WordIn(s, b + 11, v) && SpacesIn(s, v, c) && ValueAt(s, c)
    ensures Field(s, b, "newVersion=") == Some((b + 11, v)) && Gap(s, v) == Some(c)
  {
    hide StartsAt, Gap, Field, WordIn, SpacesIn;
    WordStarts(s, c, "currentValue=");
    SpaceAt(s, v, c);
    FieldIs(s, b, "newVersion=", v);
    GapIs(s, v, c);
  }

  lemma SpaceAt(s: string, i: nat, k: nat)
    requires i < k <= |s| && SpacesIn(s, i, k)
    ensures IsSpace(s[i])
  {
    hide IsSpace;
  }

  /** Such a line is read as a marker of exactly that dependency and that value. */
  lemma MarkedReads(s: string, i: nat, a: nat, d: nat, b: nat, v: nat, c: nat)
    requires MarkedAt(s, i, a, d, b, v, c)
    ensures ParseMarker(s) == Some(Marker(s[a + 4..d], Strip(s[c + 13..])))
  {
    hide SpacesIn, WordIn, HeadAt, DepAt, VersionAt, ValueAt, Chomp, ParseMarker, Strip, Skip, Gap, Field;
    HeadFound(s, i, a);
    DepFound(s, a, d, b);
    VersionFound(s, b, v, c);
    FoundReads(s, i, a, d, b, v, c);
  }

  lemma GapSpaces(s: string, i: nat)
    requires i <= |s| && Gap(s, i).Some?
    ensures SpacesIn(s, i, Gap(s, i).value)
  {
    hide IsSpace;
  }

  lemma FieldWord(s: string, i: nat, name: string)
    requires Field(s, i, name).Some?
    ensures var f := Field(s, i, name).value;
      StartsAt(s, i, name) && f.0 == i + |name| && WordIn(s, f.0, f.1)
  {
    hide IsSpace, StartsAt;
    WordAt(s, i + |name|);
  }

  lemma {:induction false} WordAt(s: string, i: nat)
    requires i <= |s|
    ensures WordIn(s, i, WordEnd(s, i))
    decreases |s| - i
  {
    hide IsSpace;
    if i < |s| && !IsSpace(s[i]) {
      WordAt(s, i + 1);
    }
  }

  lemma HeadSpaces(s: string)
    ensures SpacesIn(s, 0, Skip(s, 0))
  {
    hide IsSpace;
  }

  /** And no other line is read as a marker. */
  lemma MarkedShape(s: string) returns (i: nat, a: nat, d: nat, b: nat, v: nat, c: nat)
    requires IsMarker(s)
    ensures MarkedAt(s, i, a, d, b, v, c)
    ensures i + 23 < a && a + 4 < d < b && b + 11 < v < c && c + 13 <= |s|
    ensures ParseMarker(s) == Some(Marker(s[a + 4..d], Strip(s[c + 13..])))
  {
    hide IsSpace, Strip, Chomp, StartsAt, Skip, Gap, Field, SpacesIn, WordIn;
    i := Skip(s, 0);
    HeadSpaces(s);
    StartsAtFits(s, i, "# renovate-conda-bound:");
    a := Gap(s, i + 23).value;
    GapSpaces(s, i + 23);
    FieldWord(s, a, "dep=");
    d := Field(s, a, "dep=").value.1;
    b := Gap(s, d).value;
    GapSpaces(s, d);
    FieldWord(s, b, "newVersion=");
    v := Field(s, b, "newVersion=").value.1;
    c := Gap(s, v).value;
    GapSpaces(s, v);
    StartsAtFits(s, c, "currentValue=");
    MarkedReads(s, i, a, d, b, v, c);
  }

  // ----- stripping -----

  /** White space around a text is stripped, and nothing else. */
  lemma StripIs(a: string, value: string, b: string)
    requires Spaces(a) && Spaces(b)
    requires value != "" ==> !IsSpace(value[0]) && !IsSpace(value[|value| - 1])
    requires value == "" ==> b == ""
    ensures Strip(a + value + b) == value
  {
    hide IsSpace;
    var s := a + value + b;
    assert forall j :: 0 <= j < |a| ==> s[j] == a[j];
    assert value != "" ==> s[|a|] == value[0];
    SkipIs(s, 0, |a|);
    assert s[|a|..] == value + b;
    StripEndIs(value, b);
    hide Skip;
  }

  lemma {:induction false} StripEndIs(value: string, b: string)
    requires Spaces(b) && (value != "" ==> !IsSpace(value[|value| - 1]))
    ensures StripEnd(value + b) == value
    decreases |b|
  {
    hide IsSpace;
    var s := value + b;
    if b != "" {
      assert s[|s| - 1] == b[|b| - 1];
      assert s[..|s| - 1] == value + b[..|b| - 1];
      StripEndIs(value, b[..|b| - 1]);
    } else {
      assert s == value;
    }
  }

  // ----- a marker line -----

  const TO_DEP := "# renovate-conda-bound: dep="
  const TO_VERSION := " newVersion="
  const TO_VALUE := " currentValue="

  /** The marker that the tool leaves in the file. */
  function MarkerLine(indent: string, dep: string, version: string, value: string): string {
    indent + (TO_DEP + (dep + (TO_VERSION + (version + (TO_VALUE + (value + "\n"))))))
  }

  /** The first part of a text, and what follows it. */
  lemma Parted(s: string, k: nat, x: string, y: string)
    requires k <= |s| && s[k..] == x + y
    ensures k + |x| <= |s| && s[k..k + |x|] == x && s[k + |x|..] == y
  {
    assert |s| - k == |x| + |y|;
    assert s[k..k + |x|] == s[k..][..|x|];
    assert s[k + |x|..] == s[k..][|x|..];
  }

  /** Two parts at k. */
  lemma PartedTwice(s: string, k: nat, x: string, y: string, z: string)
    requires k <= |s| && s[k..] == x + (y + z)
    ensures k + |x| + |y| <= |s| && s[k..k + |x|] == x && s[k + |x|..k + |x| + |y|] == y && s[k + |x| + |y|..] == z
  {
    hide *;
    Parted(s, k, x, y + z);
    Parted(s, k + |x|, y, z);
  }

  lemma LineLengths()
    ensures |TO_DEP| == 28 && |TO_VERSION| == 12 && |TO_VALUE| == 14
  {
  }

  lemma LineIs(indent: string, dep: string, version: string, value: string, rest: string)
    requires rest == version + (TO_VALUE + (value + "\n"))
    ensures MarkerLine(indent, dep, version, value)[0..] == indent + (TO_DEP + (dep + (TO_VERSION + rest)))
  {
    hide TO_DEP, TO_VERSION, TO_VALUE;
  }

  /** Where the parts of that line are. */
  lemma LineParts(indent: string, dep: string, version: string, value: string, i: nat, d: nat, v: nat)
    requires i == |indent| && d == i + 28 + |dep| && v == d + 12 + |version|
    ensures var s := MarkerLine(indent, dep, version, value);
      && v + 14 <= |s| && s[0..i] == indent && s[i..i + 28] == TO_DEP && s[i + 28..d] == dep
      && s[d..d + 12] == TO_VERSION && s[d + 12..v] == version
      && s[v..v + 14] == TO_VALUE && s[v + 14..] == value + "\n"
  {
    var s := MarkerLine(indent, dep, version, value);
    var y4 := version + (TO_VALUE + (value + "\n"));
    var y2 := dep + (TO_VERSION + y4);
    hide *;
    LineLengths();
    LineIs(indent, dep, version, value, y4);
    PartedTwice(s, 0, indent, TO_DEP, y2);
    PartedTwice(s, i + 28, dep, TO_VERSION, y4);
    PartedTwice(s, d + 12, version, TO_VALUE, value + "\n");
  }

  lemma SliceSpaces(s: string, i: nat, k: nat, x: string)
    requires i <= k <= |s| && s[i..k] == x
    ensures Spaces(x) ==> SpacesIn(s, i, k)
    ensures Word(x) ==> WordIn(s, i, k)
  {
    hide IsSpace;
    assert forall j :: i <= j < k ==> s[j] == x[j - i];
  }

  /** A word that stands in a piece of the text stands in the text. */
  lemma PieceStarts(s: string, i: nat, k: nat, x: string, n: nat, word: string)
    requires i <= k <= |s| && s[i..k] == x && n + |word| <= |x| && x[n..n + |word|] == word
    ensures StartsAt(s, i + n, word)
  {
    forall j | 0 <= j < |word| ensures s[i + n + j] == word[j] {
      assert word[j] == x[n + j] == s[i + n + j];
    }
    assert s[i + n..i + n + |word|] == word;
  }

  lemma HeadParts(s: string, i: nat)
    requires i + 28 <= |s| && s[i..i + 28] == TO_DEP
    ensures HeadAt(s, i) && DepAt(s, i + 24) && SpacesIn(s, i + 23, i + 24)
  {
    assert TO_DEP[0..0 + 23] == "# renovate-conda-bound:" && TO_DEP[24..24 + 4] == "dep=" && TO_DEP[23] == ' ';
    PieceStarts(s, i, i + 28, TO_DEP, 0, "# renovate-conda-bound:");
    PieceStarts(s, i, i + 28, TO_DEP, 24, "dep=");
    assert s[i + 23] == TO_DEP[23];
  }

  lemma VersionParts(s: string, d: nat)
    requires d + 12 <= |s| && s[d..d + 12] == TO_VERSION
    ensures VersionAt(s, d + 1) && SpacesIn(s, d, d + 1)
  {
    assert TO_VERSION[1..1 + 11] == "newVersion=" && TO_VERSION[0] == ' ';
    PieceStarts(s, d, d + 12, TO_VERSION, 1, "newVersion=");
    assert s[d] == TO_VERSION[0];
  }

  lemma ValueParts(s: string, v: nat)
    requires v + 14 <= |s| && s[v..v + 14] == TO_VALUE
    ensures ValueAt(s, v + 1) && SpacesIn(s, v, v + 1)
  {
    assert TO_VALUE[1..1 + 13] == "currentValue=" && TO_VALUE[0] == ' ';
    PieceStarts(s, v, v + 14, TO_VALUE, 1, "currentValue=");
    assert s[v] == TO_VALUE[0];
  }

  /** A text with the pieces of that line in these places. */
  lemma PiecesMarked(s: string, i: nat, d: nat, v: nat, indent: string, dep: string, version: string)
    requires i + 28 < d && d + 12 < v && v + 14 <= |s| && s[0..i] == indent && s[i..i + 28] == TO_DEP
    requires s[i + 28..d] == dep && s[d..d + 12] == TO_VERSION && s[d + 12..v] == version && s[v..v + 14] == TO_VALUE
    requires Spaces(indent) && Word(dep) && Word(version) && Chomp(s[v + 14..]) != ""
    ensures MarkedAt(s, i, i + 24, d, d + 1, v, v + 1)
  {
    hide *;
    SliceSpaces(s, 0, i, indent);
    HeadParts(s, i);
    SliceSpaces(s, i + 28, d, dep);
    VersionParts(s, d);
    SliceSpaces(s, d + 12, v, version);
    ValueParts(s, v);
    MarkedIs(s, i, i + 24, d, d + 1, v, v + 1);
  }

  lemma LineMarked(indent: string, dep: string, version: string, value: string, i: nat, d: nat, v: nat)
    requires i == |indent| && d == i + 28 + |dep| && v == d + 12 + |version|
    requires Spaces(indent) && Word(dep) && Word(version) && Chomp(value + "\n") != ""
    ensures MarkedAt(MarkerLine(indent, dep, version, value), i, i + 24, d, d + 1, v, v + 1)
  {
    assert dep != "" && version != "";
    hide *;
    LineParts(indent, dep, version, value, i, d, v);
    PiecesMarked(MarkerLine(indent, dep, version, value), i, d, v, indent, dep, version);
  }

  lemma MarkedIs(s: string, i: nat, a: nat, d: nat, b: nat, v: nat, c: nat)
    requires i + 23 < a && a + 4 < d < b && b + 11 < v < c && c + 13 <= |s|
    requires SpacesIn(s, 0, i) && HeadAt(s, i) && SpacesIn(s, i + 23, a)
    requires DepAt(s, a) && WordIn(s, a + 4, d) && SpacesIn(s, d, b)
    requires VersionAt(s, b) && WordIn(s, b + 11, v) && SpacesIn(s, v, c)
    requires ValueAt(s, c) && Chomp(s[c + 13..]) != ""
    ensures MarkedAt(s, i, a, d, b, v, c)
  {
    hide SpacesIn, WordIn, HeadAt, DepAt, VersionAt, ValueAt, Chomp;
  }

  lemma ValueChomp(value: string)
    requires value != "" && !IsSpace(value[|value| - 1])
    ensures Chomp(value + "\n") == value
  {
    assert (value + "\n")[..|value|] == value;
    assert value[|value| - 1] != '\n';
  }

  lemma ValueStrip(value: string)
    requires value != "" && !IsSpace(value[0]) && !IsSpace(value[|value| - 1])
    ensures Strip(value + "\n") == value
  {
    assert Spaces("\n") && Spaces("");
    hide Strip, IsSpace, Spaces;
    StripIs("", value, "\n");
    assert "" + value + "\n" == value + "\n";
  }

  /** A marker line is read as its dependency and its value. */
  lemma MarkerRoundTrip(indent: string, dep: string, version: string, value: string)
    requires Spaces(indent) && Word(dep) && Word(version)
    requires value != "" && !IsSpace(value[0]) && !IsSpace(value[|value| - 1])
    ensures ParseMarker(MarkerLine(indent, dep, version, value)) == Some(Marker(dep, value))
  {
    hide *;
    ValueChomp(value);
    ValueStrip(value);
    var i := |indent|;
    var d := i + 28 + |dep|;
    var v := d + 12 + |version|;
    LineMarked(indent, dep, version, value, i, d, v);
    LineParts(indent, dep, version, value, i, d, v);
    MarkedReads(MarkerLine(indent, dep, version, value), i, i + 24, d, d + 1, v, v + 1);
  }

  // ----- list items, key lines and block lines -----

  /** White space up to the end, or up to a comment. */
  predicate TailAt(s: string, k: nat)
    requires k <= |s|
  {
    SpacesIn(s, k, |s|) || exists e: nat :: k <= e < |s| && SpacesIn(s, k, e) && s[e] == '#'
  }

  lemma TailIs(s: string, k: nat)
    requires k <= |s|
    ensures SuffixOk(s[k..]) <==> TailAt(s, k)
  {
    hide IsSpace;
    var t := s[k..];
    var e := Skip(t, 0);
    assert forall j :: k <= j < |s| ==> s[j] == t[j - k];
    hide Skip;
    if e < |t| {
      assert s[k + e] == t[e];
      assert !SpacesIn(s, k, |s|);
      if TailAt(s, k) {
        var h: nat :| k <= h < |s| && SpacesIn(s, k, h) && s[h] == '#';
        assert !IsSpace('#') by { HashIsNoSpace(); }
        assert k + e >= h;
        assert h >= k + e;
      } else {
        assert SpacesIn(s, k, k + e);
      }
    } else {
      assert SpacesIn(s, k, |s|);
    }
  }

  lemma HashIsNoSpace()
    ensures !IsSpace('#') && !IsSpace('-') && !IsSpace('"') && !IsSpace('\'')
  {
  }

  /** Where the parts of a list item are: the dash at i, the quote at j, and at c the first of the same quotes
      that nothing but a comment follows. */
  predicate ItemAt(s: string, i: nat, j: nat, c: nat) {
    && i < j < c < |s| && SpacesIn(s, 0, i) && s[i] == '-' && SpacesIn(s, i + 1, j)
    && (s[j] == '"' || s[j] == '\'') && s[c] == s[j] && TailAt(s, c + 1)
    && forall k: nat :: j < k < c && s[k] == s[j] ==> !TailAt(s, k + 1)
  }

  /** Such a line, without its newline, is read as an item of these parts. */
  lemma ItemReads(s: string, i: nat, j: nat, c: nat)
    requires ItemAt(s, i, j, c)
    ensures ParseItem(s) == Some(Item(s[..i], s[j], s[j + 1..c], s[c + 1..]))
  {
    hide IsSpace, TailAt, SuffixOk, Skip, Close;
    HashIsNoSpace();
    SkipIs(s, 0, i);
    SkipIs(s, i + 1, j);
    TailIs(s, c + 1);
    forall k | j + 1 <= k < c && s[k] == s[j] ensures !SuffixOk(s[k + 1..]) {
      TailIs(s, k + 1);
    }
    CloseIs(s, s[j], j + 1, c);
    ParseIs(s, i, j);
  }

  /** And no other line is read as an item. */
  lemma ItemShape(s: string) returns (i: nat, j: nat, c: nat)
    requires ParseItem(s).Some?
    ensures ItemAt(s, i, j, c)
  {
    hide IsSpace, TailAt, SuffixOk, Skip, Close;
    i := Skip(s, 0);
    j := Skip(s, i + 1);
    c := Close(s, s[j], j + 1).value;
    TailIs(s, c + 1);
    forall k: nat | j < k < c && s[k] == s[j] ensures !TailAt(s, k + 1) {
      TailIs(s, k + 1);
      assert !ClosesAt(s, s[j], k);
    }
  }

  /** The line that opens a block: the name, "_version:", and white space around the two. */
  lemma KeyReads(a: string, dep: string, b: string)
    requires Spaces(a) && Spaces(b)
    ensures IsKey(a + (dep + "_version:" + b), dep)
  {
    var line, w := a + (dep + "_version:" + b), dep + "_version:";
    assert line[|a|..] == w + b && line[|a|..|a| + |w|] == w && line[|a| + |w|..] == b;
    assert forall j :: 0 <= j < |a| ==> line[j] == a[j];
    hide IsSpace;
    assert |a| <= Skip(line, 0);
    SkipIs(b, 0, |b|);
    assert KeyAt(line, dep, |a|);
  }

  lemma KeyShape(line: string, dep: string) returns (a: string, b: string)
    requires IsKey(line, dep)
    ensures Spaces(a) && Spaces(b) && line == a + (dep + "_version:" + b)
  {
    hide IsKey, IsSpace;
    a, b := KeyParts(line, dep);
  }

  /** The lines that go on a block: blank, a comment, or an item. */
  lemma BlockLineIs(line: string)
    ensures IsBlockLine(line) <==> TailAt(line, 0) || ParseItem(Chomp(line)).Some?
  {
    hide ParseItem, Chomp, TailAt;
    assert line[0..] == line;
    TailIs(line, 0);
    hide AllSpace, FirstIs;
  }
}
