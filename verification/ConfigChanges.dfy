/** Texts that a second update changes. */
module ConfigChanges {
  import opened Wrappers
  import opened Decimals
  import opened Versions
  import opened Constraints
  import opened ConfigLines
  import opened Rereading
  import opened ConfigFile
  import opened ConfigTwice
  import opened TextLines
  import opened ConfigText
  import opened ConfigAgain
  import opened KeyMarkers

  // ----- a value that does not last -----

  const KEY_LINE := "a_version:\n"
  const ITEM := Item("", '"', "<1", "")
  const VALUE := "<1 \"#,<2"

  lemma ValueSeen()
    ensures SeenEnd(VALUE, '"', 0) == 3
  {
    assert VALUE[4..] == "#,<2";
    assert Closing(VALUE, '"', 3);
    SeenEndIs(VALUE, '"', 3);
  }

  lemma OneMatch(s: string)
    requires s == "<1 "
    ensures Matches(s, 0) == [Match(Less, 1, 2)] && Parse(s[1..2]) == Ok([1])
  {
    MatchesHere(s, 0);
    TokenEndIs(s, 1, 2);
    MatchesSkip(s, 2);
    assert Matches(s, 3) == [];
    assert Digits(1) == "1" == s[1..2];
    ParsePrint([1]);
  }

  lemma TwoMatches()
    ensures Matches(VALUE, 0) == [Match(Less, 1, 2), Match(Less, 7, 8)]
  {
    var s := VALUE;
    MatchesHere(s, 0);
    TokenEndIs(s, 1, 2);
    MatchesSkip(s, 2);
    MatchesSkip(s, 3);
    MatchesSkip(s, 4);
    MatchesSkip(s, 5);
    MatchesHere(s, 6);
    TokenEndIs(s, 7, 8);
    assert Matches(s, 8) == [];
  }

  lemma ValueFails()
    ensures !Lasting(VALUE, '"', "3")
  {
    ValueSeen();
    TwoMatches();
    var s := Seen(VALUE, '"');
    assert s == "<1 ";
    OneMatch(s);
    assert Digits(3) == "3";
    ParsePrint([3]);
    hide Matches, Parse;
    ReplaceLastIs(s, "3");
  }

  lemma KeyLine()
    ensures IsKey(KEY_LINE, "a") && !IsMarker(KEY_LINE) && ItemOf(KEY_LINE).None?
  {
    var s, w := KEY_LINE, KeyWord("a");
    assert w == "a_version:";
    assert s[0..0 + |w|] == w;
    assert s[|w|..] == "\n";
    SkipIs("\n", 0, 1);
    assert KeyAt(s, "a", 0);
    KeyIsPlain(s, "a");
  }

  lemma ItemLine()
    ensures ItemOf(PrintItem(ITEM)) == Some(ITEM) && !IsMarker(PrintItem(ITEM))
  {
    ItemRoundTrip(ITEM);
    hide FirstIs;
    MarkerIsNoItem(PrintItem(ITEM));
  }

  lemma ValueRenewed()
    ensures ReplaceLast(VALUE, "3").Ok?
  {
    TwoMatches();
    hide Matches;
    assert Digits(1) == "1" && Digits(2) == "2" && Digits(3) == "3";
    ParsePrint([1]);
    ParsePrint([2]);
    ParsePrint([3]);
    assert VALUE[1..2] == "1" && VALUE[7..8] == "2";
  }

  lemma {:induction false} PairRenewed(a: string, b: string, given: Option<string>, newVersion: string)
    requires !IsMarker(a) && ItemOf(a).None? && !IsMarker(b) && RenewLine(b, given, newVersion).Ok?
    ensures RenewFrom([a, b], 0, 1, given, newVersion).Ok?
  {
    hide IsMarker, ItemOf, ReplaceLast;
    var lines := [a, b];
    assert RenewFrom(lines, 2, 1, given, newVersion) == Ok([]);
    assert RenewFrom(lines, 1, 1, given, newVersion).Ok?;
  }

  lemma PairPlan(key: string, line: string, dep: string, value: string, newVersion: string)
    requires IsKey(key, dep) && !IsMarker(key) && ItemOf(key).None?
    requires !IsMarker(line) && ItemOf(line).Some? && value != "" && ReplaceLast(value, newVersion).Ok?
    ensures var p := PlanOf([key, line], dep, newVersion, File(Some(value)));
      && p.Renewal? && p.start == 0 && p.end == 2
      && MarkerValue([key, line], dep, 0) == None && Target([key, line], None, Some(value)) == 1
  {
    hide IsKey, IsMarker, ItemOf, PrintItem, ReplaceLast, AnyTouched;
    var lines := [key, line];
    assert KeyIndex(lines, dep, 0) == 0;
    assert IsBlockLine(line);
    assert BlockEnd(lines, 2) == 2;
    hide IsBlockLine;
    assert lines[0..2] == lines;
    NoMarkerValue(lines, dep, 0);
    hide MarkerValue;
    assert FirstItem(lines, 1) == 1;
    PairRenewed(key, line, Some(value), newVersion);
    hide RenewFrom;
  }

  lemma PairGiven(key: string, line: string, dep: string, value: string, newVersion: string)
    requires IsKey(key, dep) && !IsMarker(key) && ItemOf(key).None? && !IsMarker(line) && ItemOf(line).Some?
    requires value != "" && ReplaceLast(value, newVersion).Ok? && !Lasting(value, ItemOf(line).value.quote, newVersion)
    ensures UpdatedFile([key, line], dep, newVersion, File(Some(value))).Ok?
    ensures !GivenLasts([key, line], dep, newVersion, File(Some(value)))
  {
    PairPlan(key, line, dep, value, newVersion);
    hide *;
    assert [key, line][0..2] == [key, line];
    PairData(value);
    LastsIs([key, line], dep, newVersion, File(Some(value)));
    PairTarget([key, line], value, newVersion);
    PlanParts([key, line], dep, newVersion, File(Some(value)));
  }

  lemma PairData(value: string)
    requires value != ""
    ensures DataValue(File(Some(value))) == Some(value)
  {
  }

  lemma PairTarget(lines: seq<string>, value: string, newVersion: string)
    requires |lines| == 2 && Target(lines, None, Some(value)) == 1 && ItemOf(lines[1]).Some?
    ensures TargetLasts(lines, newVersion, None, Some(value))
      <==> Lasting(value, ItemOf(lines[1]).value.quote, newVersion)
  {
    hide Target, ItemOf, Lasting;
  }

  /** With one item and a value from the data file, a second update changes the text whenever the value
      does not last. */
  lemma PairNotTwice(text: string, key: string, line: string, dep: string, value: string, newVersion: string)
    requires ReadLines(text) == [key, line] && IsKey(key, dep) && PlainName(dep) && !IsMarker(line)
      && ItemOf(line).Some?
    requires value != "" && NoBreaks(value) && ReplaceLast(value, newVersion).Ok?
    requires !Lasting(value, ItemOf(line).value.quote, newVersion)
    ensures var data := File(Some(value));
      && UpdatedText(text, dep, newVersion, data).Ok?
      && var after := UpdatedText(text, dep, newVersion, data).value;
      UpdatedText(after, dep, newVersion, NoFile) != Ok(after)
  {
    KeyIsPlain(key, dep);
    PairGiven(key, line, dep, value, newVersion);
    assert GivenOpen(DataValue(File(Some(value))));
    hide IsKey, PlainName, IsMarker, ItemOf, ReplaceLast, Lasting, ReadLines, UpdatedFile, SaysChanged, GivenLasts;
    PlainKeyStays(ReadLines(text), dep, newVersion, File(Some(value)));
    hide KeyStays, GivenOpen, NoBreaks;
    assert UpdatedText(text, dep, newVersion, File(Some(value))).Ok?;
    hide UpdatedText;
    UpdateTwice(text, dep, newVersion, File(Some(value)));
  }

  lemma TwoLines(a: string, b: string)
    requires ProperLine(a) && Terminated(a) && ProperLine(b) && '\r' !in a + b
    ensures ReadLines(a + b) == [a, b]
  {
    hide ProperLine, Terminated, Lines;
    TranslateNothing(a + b);
    assert Join([a, b]) == a + Join([b]) && Join([b]) == b + "" == b;
    LinesJoin([a, b]);
  }

  lemma SampleLines()
    ensures ReadLines(KEY_LINE + PrintItem(ITEM)) == [KEY_LINE, PrintItem(ITEM)] && NoBreaks(VALUE)
  {
    assert PrintItem(ITEM) == "- \"<1\"\n";
    assert ProperLine(KEY_LINE) && Terminated(KEY_LINE);
    TwoLines(KEY_LINE, PrintItem(ITEM));
  }

  /** Updating once leaves this value in the file; updating again changes it. */
  lemma UpdateNotTwice()
    ensures var text, data := KEY_LINE + PrintItem(ITEM), File(Some(VALUE));
      && UpdatedText(text, "a", "3", data).Ok?
      && var after := UpdatedText(text, "a", "3", data).value;
      UpdatedText(after, "a", "3", NoFile) != Ok(after)
  {
    assert VALUE != "" && ITEM.quote == '"';
    hide *;
    SampleLines();
    KeyLine();
    ItemLine();
    ValueRenewed();
    ValueFails();
    PlainA();
    PairNotTwice(KEY_LINE + PrintItem(ITEM), KEY_LINE, PrintItem(ITEM), "a", VALUE, "3");
  }

  lemma PlainA()
    ensures PlainName("a")
  {
  }

  // ----- a key line that is a list item -----

  lemma NoneRenewed(lines: seq<string>, i: nat, newVersion: string)
    requires i < |lines| && !IsMarker(lines[i])
    ensures RenewFrom(lines, i, |lines|, None, newVersion)
      == Joined(RenewLine(lines[i], None, newVersion), RenewFrom(lines, i + 1, |lines|, None, newVersion))
  {
    hide IsMarker, RenewLine;
  }

  /** The block of a key line that no block line follows: the line alone. */
  lemma LoneKey(lines: seq<string>, k: nat, dep: string, newVersion: string, renewed: string)
    requires k < |lines| && KeyIndex(lines, dep, 0) == k && (k + 1 < |lines| ==> !IsBlockLine(lines[k + 1]))
    requires !IsMarker(lines[k]) && RenewLine(lines[k], None, newVersion) == Ok(renewed)
    ensures UpdatedFile(lines, dep, newVersion, NoFile) == Ok(lines[..k] + [renewed] + lines[k + 1..])
  {
    hide IsKey, IsBlockLine, IsMarker, RenewLine, KeyIndex, ItemOf;
    var block := lines[k..k + 1];
    assert block == [lines[k]];
    assert BlockEnd(lines, k + 1) == k + 1;
    NoMarkerValue(block, dep, 0);
    NoneRenewed(block, 0, newVersion);
    assert RenewFrom(block, 1, 1, None, newVersion) == Ok([]);
    assert [renewed] + [] == [renewed];
    hide RenewFrom, MarkerValue, AnyTouched, BlockEnd;
    assert Target(block, None, None) == 1 && RenewBlock(block, newVersion, None, None) == Ok([renewed]);
  }

  lemma UpdatedIs(text: string, dep: string, newVersion: string, after: seq<string>)
    requires UpdatedFile(ReadLines(text), dep, newVersion, NoFile) == Ok(after) && after != ReadLines(text)
    ensures UpdatedText(text, dep, newVersion, NoFile) == Ok(Join(after))
  {
    hide UpdatedFile, SaysChanged, ReadLines;
    if !SaysChanged(ReadLines(text), dep, newVersion, NoFile) {
      SaysSame(ReadLines(text), dep, newVersion, NoFile);
    }
  }

  lemma ThreeLines(a: string, b: string, c: string)
    requires ProperLine(a) && Terminated(a) && ProperLine(b) && Terminated(b) && ProperLine(c)
    requires '\r' !in a && '\r' !in b && '\r' !in c
    ensures Join([a, b, c]) == a + b + c && ReadLines(a + b + c) == [a, b, c]
  {
    hide ProperLine, Terminated, Lines;
    TranslateNothing(a + b + c);
    assert [a, b, c][1..] == [b, c] && [b, c][1..] == [c] && Join([c]) == c + "" == c;
    assert Join([a, b, c]) == a + (b + c) == a + b + c;
    LinesJoin([a, b, c]);
  }

  lemma LoneKeys(key: string, other: string, dep: string, newVersion: string, renewed: string)
    requires IsKey(key, dep) && !IsMarker(key) && RenewLine(key, None, newVersion) == Ok(renewed)
    requires !IsKey(renewed, dep) && !IsKey(other, dep) && !IsBlockLine(other)
    ensures UpdatedFile([key, other, key], dep, newVersion, NoFile) == Ok([renewed, other, key])
    ensures UpdatedFile([renewed, other, key], dep, newVersion, NoFile) == Ok([renewed, other, renewed])
    ensures renewed != key
  {
    hide IsKey, IsBlockLine, IsMarker, RenewLine, UpdatedFile;
    var lines, after := [key, other, key], [renewed, other, key];
    assert KeyIndex(lines, dep, 0) == 0;
    LoneKey(lines, 0, dep, newVersion, renewed);
    assert lines[..0] + [renewed] + lines[1..] == after;
    KeyIndexIs(after, dep, 0, 2);
    LoneKey(after, 2, dep, newVersion, renewed);
    assert after[..2] + [renewed] + after[3..] == [renewed, other, renewed];
  }

  predicate Whole(line: string) {
    ProperLine(line) && Terminated(line) && '\r' !in line
  }

  /** When the key line is an item whose renewal is no key line any more, the second run takes the next
      key line of the same name and changes that one. */
  lemma KeyLineLost(key: string, other: string, dep: string, newVersion: string, renewed: string)
    requires Whole(key) && Whole(other) && Whole(renewed)
    requires IsKey(key, dep) && !IsMarker(key) && RenewLine(key, None, newVersion) == Ok(renewed)
    requires !IsKey(renewed, dep) && !IsKey(other, dep) && !IsBlockLine(other)
    ensures UpdatedText(key + other + key, dep, newVersion, NoFile) == Ok(renewed + other + key)
    ensures UpdatedText(renewed + other + key, dep, newVersion, NoFile) == Ok(renewed + other + renewed)
    ensures renewed != key
  {
    ThreeLines(key, other, key);
    ThreeLines(renewed, other, key);
    ThreeLines(renewed, other, renewed);
    hide *;
    LoneKeys(key, other, dep, newVersion, renewed);
    assert [key, other, key][0] != [renewed, other, key][0];
    assert [renewed, other, key][2] != [renewed, other, renewed][2];
    UpdatedIs(key + other + key, dep, newVersion, [renewed, other, key]);
    UpdatedIs(renewed + other + key, dep, newVersion, [renewed, other, renewed]);
  }

  const KEY_ITEM := Item("", '"', "<1", " #_version:")
  const KEY_NAME := "- \"<1\" #"

  lemma OneBound()
    ensures BoundFor(Less, [1], [3]) == [4]
  {
    assert Significant([1]) == 1;
    assert Fit([3], 1) == [3];
    assert Bump([3]) + Zeros(0) == [4];
  }

  lemma OneRenewed()
    ensures ReplaceLast("<1", "3") == Ok("<4")
  {
    var s := "<1";
    MatchesHere(s, 0);
    TokenEndIs(s, 1, 2);
    assert Matches(s, 2) == [];
    assert s[1..2] == "1" == Digits(1) && Digits(3) == "3" && Digits(4) == "4";
    ParsePrint([1]);
    ParsePrint([3]);
    hide Matches, Parse;
    OneBound();
    hide BoundFor;
    ReplaceUnfold(s, "3");
    assert Print([4]) == "4";
    assert Splice(s, Match(Less, 1, 2), "4") == "<4";
  }

  lemma KeyItemRenewed()
    ensures !IsMarker(PrintItem(KEY_ITEM))
    ensures RenewLine(PrintItem(KEY_ITEM), None, "3") == Ok(PrintItem(KEY_ITEM.(value := "<4")))
  {
    assert WellFormed(KEY_ITEM) by {
      SkipIs(" #_version:", 0, 1);
    }
    hide FirstIs, WellFormed, PrintItem;
    assert !ClosesEarly("<1", '"');
    hide ClosesEarly;
    ItemRoundTrip(KEY_ITEM);
    MarkerIsNoItem(PrintItem(KEY_ITEM));
    OneRenewed();
    hide IsMarker, ItemOf, ReplaceLast;
  }

  lemma KeyItemIsKey()
    ensures IsKey(PrintItem(KEY_ITEM), KEY_NAME)
  {
    var s, w := PrintItem(KEY_ITEM), KeyWord(KEY_NAME);
    assert s == w + "\n";
    assert s[0..0 + |w|] == w && s[|w|..] == "\n";
    SkipIs("\n", 0, 1);
    assert KeyAt(s, KEY_NAME, 0);
  }

  /** The bound in it is not the one in the name any more. */
  lemma RenewedItemIsNoKey()
    ensures !IsKey(PrintItem(KEY_ITEM.(value := "<4")), KEY_NAME)
  {
    var r, w := PrintItem(KEY_ITEM.(value := "<4")), KeyWord(KEY_NAME);
    assert r[4] == '4' && w[4] == '1' && |r| > |w|;
    assert Skip(r, 0) == 0;
    assert r[0..0 + |w|][4] != w[4];
  }

  lemma OtherLine()
    ensures !IsKey("x:\n", KEY_NAME) && !IsBlockLine("x:\n")
  {
    assert Skip("x:\n", 0) == 0;
    if ItemOf("x:\n").Some? {
      ItemFirst("x:\n");
    }
  }

  lemma WholeLines()
    ensures Whole(PrintItem(KEY_ITEM)) && Whole("x:\n")
  {
    assert PrintItem(KEY_ITEM) == "- \"<1\" #_version:\n";
  }

  lemma WholeRenewed()
    ensures Whole(PrintItem(KEY_ITEM.(value := "<4")))
  {
    assert PrintItem(KEY_ITEM.(value := "<4")) == "- \"<4\" #_version:\n";
  }

  /** One such name and file. */
  lemma OddNameNotTwice()
    ensures var key, renewed := PrintItem(KEY_ITEM), PrintItem(KEY_ITEM.(value := "<4"));
      && UpdatedText(key + "x:\n" + key, KEY_NAME, "3", NoFile) == Ok(renewed + "x:\n" + key)
      && UpdatedText(renewed + "x:\n" + key, KEY_NAME, "3", NoFile) == Ok(renewed + "x:\n" + renewed)
      && renewed != key
  {
    hide *;
    WholeLines();
    WholeRenewed();
    KeyItemRenewed();
    KeyItemIsKey();
    RenewedItemIsNoKey();
    OtherLine();
    KeyLineLost(PrintItem(KEY_ITEM), "x:\n", KEY_NAME, "3", PrintItem(KEY_ITEM.(value := "<4")));
  }

  // ----- a key line that is a marker -----

  /** Then all key lines of the name are markers. */
  lemma KeysAreMarkers(line: string, dep: string)
    requires IsMarker(KeyWord(dep)) && !IsMarker(line)
    ensures !IsKey(line, dep)
  {
    hide IsMarker, IsKey;
    if IsKey(line, dep) {
      KeyKind(line, dep);
    }
  }

  predicate NoKeys(lines: seq<string>, dep: string, i: nat)
    requires i <= |lines|
  {
    forall j :: i <= j < |lines| ==> !IsKey(lines[j], dep)
  }

  lemma NoKeyIndex(lines: seq<string>, dep: string, i: nat)
    requires i <= |lines|
    ensures NoKeys(lines, dep, i) <==> KeyIndex(lines, dep, i) == |lines|
  {
    hide IsKey;
    var k := KeyIndex(lines, dep, i);
  }

  lemma NoKeysAppend(a: seq<string>, b: seq<string>, dep: string)
    ensures NoKeys(a + b, dep, 0) <==> NoKeys(a, dep, 0) && NoKeys(b, dep, 0)
  {
    hide IsKey;
    var s := a + b;
    assert forall j :: 0 <= j < |a| ==> s[j] == a[j];
    assert forall j :: 0 <= j < |b| ==> b[j] == s[|a| + j];
    assert forall j :: |a| <= j < |s| ==> s[j] == b[j - |a|];
  }

  /** Lines with such a key line are never calm. */
  lemma CalmWithoutKey(lines: seq<string>, dep: string, newVersion: string)
    requires IsMarker(KeyWord(dep))
    ensures Calm(lines, dep, newVersion) <==> KeyIndex(lines, dep, 0) == |lines|
  {
    hide IsMarker, IsKey, Written, AllSettled, IsBlockLine, KeyWord;
    var start := KeyIndex(lines, dep, 0);
    if start < |lines| {
      KeyKind(lines[start], dep);
      assert lines[start..BlockEnd(lines, start + 1)][0] == lines[start];
    }
  }

  lemma {:induction false} EndsBroken(lines: seq<string>)
    requires lines != [] && Terminated(lines[|lines| - 1])
    ensures Terminated(Join(lines))
  {
    hide IsBreak;
    if |lines| == 1 {
      assert Join(lines) == lines[0] + "" == lines[0];
    } else {
      EndsBroken(lines[1..]);
      var r := Join(lines[1..]);
      assert (lines[0] + r)[|lines[0] + r| - 1] == r[|r| - 1];
    }
  }

  /** Lines are cut apart where a break is. */
  lemma LinesConcat(x: string, y: string)
    requires x == "" || Terminated(x)
    ensures Lines(x + y) == Lines(x) + Lines(y)
  {
    if x == "" {
      assert x + y == y;
      EmptyLines();
      assert [] + Lines(y) == Lines(y);
    } else {
      JoinLines(x);
      var ls := Lines(x);
      assert ls != [] by { SomeLine(x); }
      assert Terminated(ls[|ls| - 1]) by { LastBroken(ls); }
      hide ProperLine, Terminated, Lines;
      LinesAfter(ls, y);
    }
  }

  lemma SomeLine(x: string)
    requires x != ""
    ensures Lines(x) != []
  {
    hide LineEnd;
  }

  lemma {:induction false} LastBroken(lines: seq<string>)
    requires lines != [] && Proper(lines) && Terminated(Join(lines))
    ensures Terminated(lines[|lines| - 1])
  {
    hide IsBreak;
    if |lines| == 1 {
      assert Join(lines) == lines[0] + "" == lines[0];
    } else {
      var r := Join(lines[1..]);
      ProperRest(lines);
      assert r != "" by {
        assert r == lines[1..][0] + Join(lines[1..][1..]);
      }
      assert (lines[0] + r)[|lines[0] + r| - 1] == r[|r| - 1];
      LastBroken(lines[1..]);
    }
  }

  lemma ConsNoKeys(a: string, rest: seq<string>, dep: string)
    requires !IsKey(a, dep) && NoKeys(rest, dep, 0)
    ensures NoKeys([a] + rest, dep, 0)
  {
    hide IsKey;
  }

  /** A line that is written is read as lines that are no key lines. */
  lemma NoKeyLine(line: string, given: Option<string>, newVersion: string, dep: string, o: string, tail: string)
    requires IsMarker(KeyWord(dep)) && ProperLine(line) && !IsMarker(line) && GivenOpen(given)
    requires RenewLine(line, given, newVersion) == Ok(o) && NoKeys(Lines(tail), dep, 0)
    requires !Terminated(line) ==> tail == ""
    ensures NoKeys(Lines(o + tail), dep, 0)
  {
    hide *;
    RenewedShape(line, given, newVersion);
    if ItemOf(line).Some? {
      RenewedItem(line, given, newVersion);
      MarkerIsNoItem(o);
      if EndsPlain(line) {
        KeysAreMarkers(o, dep);
        LinesCons(o, tail);
        ConsNoKeys(o, Lines(tail), dep);
      } else {
        FrayedParts(o);
        var b := o[..|o| - 1];
        FrayedItem(o);
        MarkerIsNoItem(b);
        KeysAreMarkers(b, dep);
        Blank();
        KeysAreMarkers("\n", dep);
        Reassociate(b, tail);
        LinesCons(b, "\n" + tail);
        LinesCons("\n", tail);
        ConsNoKeys("\n", Lines(tail), dep);
        ConsNoKeys(b, Lines("\n" + tail), dep);
      }
    } else {
      NoItemPlain(line);
      KeysAreMarkers(line, dep);
      LinesCons(line, tail);
      ConsNoKeys(line, Lines(tail), dep);
    }
  }

  lemma {:induction false} NoKeysWritten(lines: seq<string>, i: nat, target: nat, given: Option<string>,
                                         newVersion: string, dep: string, rest: seq<string>)
    requires IsMarker(KeyWord(dep)) && i <= |lines| && Proper(lines) && GivenOpen(given)
    requires RenewFrom(lines, i, target, given, newVersion) == Ok(rest)
    ensures NoKeys(Lines(Join(rest)), dep, 0)
    decreases |lines| - i
  {
    hide IsMarker, KeyWord, RenewFrom, RenewLine, ProperLine, Terminated, GivenOpen, NoKeys, Lines;
    if i == |lines| {
      RenewOver(lines, i, target, given, newVersion, rest);
      EmptyLines();
      assert NoKeys([], dep, 0) by { NoKeysNone(dep); }
    } else {
      RenewStep(lines, i, target, given, newVersion, rest);
      if IsMarker(lines[i]) {
        NoKeysWritten(lines, i + 1, target, given, newVersion, dep, rest);
      } else {
        NoKeysWritten(lines, i + 1, target, given, newVersion, dep, rest[1..]);
        if i + 1 == |lines| {
          RenewOver(lines, i + 1, target, given, newVersion, rest[1..]);
        }
        OneOpen(given, i == target);
        NoKeyLine(lines[i], if i == target then given else None, newVersion, dep, rest[0], Join(rest[1..]));
      }
    }
  }

  lemma NoKeysNone(dep: string)
    ensures NoKeys([], dep, 0)
  {
  }

  /** The lines written end with a break when the lines read do. */
  lemma {:induction false} WrittenBroken(lines: seq<string>, i: nat, target: nat, given: Option<string>,
                                         newVersion: string, rest: seq<string>)
    requires i <= |lines| && Proper(lines) && GivenOpen(given) && AllTerminated(lines, i)
    requires RenewFrom(lines, i, target, given, newVersion) == Ok(rest)
    ensures AllTerminated(rest, 0)
    decreases |lines| - i
  {
    hide IsMarker, RenewFrom, RenewLine, ProperLine, Terminated, GivenOpen, ItemOf, EndsPlain, Frayed, AllTerminated;
    if i == |lines| {
      RenewOver(lines, i, target, given, newVersion, rest);
      NoneTerminated();
    } else {
      PlainNext(lines, i);
      RenewStep(lines, i, target, given, newVersion, rest);
      if IsMarker(lines[i]) {
        WrittenBroken(lines, i + 1, target, given, newVersion, rest);
      } else {
        OneOpen(given, i == target);
        RenewedShape(lines[i], if i == target then given else None, newVersion);
        WrittenBroken(lines, i + 1, target, given, newVersion, rest[1..]);
        assert Terminated(rest[0]) by {
          NoItemPlain(lines[i]);
          if !EndsPlain(lines[i]) {
            FrayedTerminated(rest[0]);
          }
        }
        TerminatedCons(rest[0], rest[1..]);
        assert rest == [rest[0]] + rest[1..];
      }
    }
  }

  lemma FrayedTerminated(o: string)
    requires Frayed(o)
    ensures Terminated(o)
  {
  }

  lemma JoinBroken(lines: seq<string>)
    requires AllTerminated(lines, 0)
    ensures Join(lines) == "" || Terminated(Join(lines))
  {
    hide Terminated;
    if lines != [] {
      EndsBroken(lines);
    }
  }

  lemma LinesOfTwo(out: seq<string>, post: seq<string>)
    requires Proper(post) && (post != [] ==> AllTerminated(out, 0))
    ensures Lines(Join(out) + Join(post)) == Lines(Join(out)) + post
  {
    if post == [] {
      assert Join(out) + "" == Join(out);
    } else {
      JoinBroken(out);
      hide *;
      LinesJoin(post);
      LinesConcat(Join(out), Join(post));
    }
  }

  lemma AroundBlock(lines: seq<string>, i: nat, j: nat)
    requires Proper(lines) && i < j <= |lines|
    ensures forall k :: 0 <= k < |lines[..i]| ==> ProperLine(lines[..i][k]) && Terminated(lines[..i][k])
    ensures Proper(lines[j..]) && (lines[j..] != [] ==> AllTerminated(lines[i..j], 0))
  {
    hide ProperLine, Terminated;
  }

  lemma JoinThree(a: seq<string>, b: seq<string>, c: seq<string>)
    ensures Join(a + b + c) == Join(a) + (Join(b) + Join(c))
  {
    JoinAppend(a + b, c);
    JoinAppend(a, b);
    hide *;
    assert Join(a) + Join(b) + Join(c) == Join(a) + (Join(b) + Join(c));
  }

  /** The text written is read as the lines before the block, the lines of the block, and those after. */
  lemma ReadSpliced(lines: seq<string>, i: nat, j: nat, out: seq<string>)
    requires Proper(lines) && i < j <= |lines| && (AllTerminated(lines[i..j], 0) ==> AllTerminated(out, 0))
    requires '\r' !in Join(lines[..i] + out + lines[j..])
    ensures ReadLines(Join(lines[..i] + out + lines[j..])) == lines[..i] + Lines(Join(out)) + lines[j..]
  {
    hide *;
    var pre, post := lines[..i], lines[j..];
    AroundBlock(lines, i, j);
    JoinThree(pre, out, post);
    TranslateNothing(Join(pre + out + post));
    ReadLinesIs(Join(pre + out + post));
    LinesOfTwo(out, post);
    LinesAfter(pre, Join(out) + Join(post));
  }

  lemma SliceNoKeys(lines: seq<string>, dep: string, start: nat, end: nat)
    requires start == KeyIndex(lines, dep, 0) && end <= |lines|
    ensures NoKeys(lines[..start], dep, 0) && (NoKeys(lines[end..], dep, 0) <==> NoKeys(lines, dep, end))
  {
    hide IsKey;
    assert forall j :: 0 <= j < |lines| - end ==> lines[end..][j] == lines[end + j];
    assert forall j :: end <= j < |lines| ==> lines[j] == lines[end..][j - end];
  }

  lemma SplicedKeys(lines: seq<string>, dep: string, newVersion: string, data: Data)
    requires Proper(lines) && NoReturns(lines) && GivenOpen(DataValue(data)) && IsMarker(KeyWord(dep))
    requires PlanOf(lines, dep, newVersion, data).Renewal?
    ensures var again := ReadLines(Join(UpdatedFile(lines, dep, newVersion, data).value));
      NoKeys(again, dep, 0) <==> NoKeys(lines, dep, PlanOf(lines, dep, newVersion, data).end)
  {
    hide *;
    var p := PlanOf(lines, dep, newVersion, data);
    var block, value := lines[p.start..p.end], DataValue(data);
    PlanParts(lines, dep, newVersion, data);
    PlanOpen(lines, dep, newVersion, data);
    AfterNoReturn(lines, dep, newVersion, data);
    var marker := MarkerValue(block, dep, 0);
    var target, given := Target(block, marker, value), Given(marker, value);
    NoKeysWritten(block, 0, target, given, newVersion, dep, p.block);
    if AllTerminated(block, 0) {
      WrittenBroken(block, 0, target, given, newVersion, p.block);
    }
    ReadSpliced(lines, p.start, p.end, p.block);
    SliceNoKeys(lines, dep, p.start, p.end);
    NoKeysAppend(lines[..p.start] + Lines(Join(p.block)), lines[p.end..], dep);
    NoKeysAppend(lines[..p.start], Lines(Join(p.block)), dep);
  }

  /** When the key line is a marker, the first run drops it with the rest of the markers; a second run changes
      nothing exactly when no key line of the name is left after the block. */
  lemma MarkerKeyTwice(text: string, dep: string, newVersion: string, data: Data)
    requires UpdatedText(text, dep, newVersion, data).Ok? && GivenOpen(DataValue(data))
    requires var lines := ReadLines(text);
      var start := KeyIndex(lines, dep, 0);
      start < |lines| && IsMarker(lines[start])
    ensures var lines, after := ReadLines(text), UpdatedText(text, dep, newVersion, data).value;
      UpdatedText(after, dep, newVersion, NoFile) == Ok(after)
      <==> KeyIndex(lines, dep, BlockEnd(lines, KeyIndex(lines, dep, 0) + 1)) == |lines|
  {
    var lines := ReadLines(text);
    assert PlanOf(lines, dep, newVersion, data).Renewal? by {
      hide KeyIndex, BlockEnd, MarkerValue, RenewBlock, AnyTouched, ReadLines;
    }
    hide *;
    ReadProper(text);
    KeyKind(lines[KeyIndex(lines, dep, 0)], dep);
    PlanParts(lines, dep, newVersion, data);
    SplicedKeys(lines, dep, newVersion, data);
    NoKeyIndex(lines, dep, BlockEnd(lines, KeyIndex(lines, dep, 0) + 1));
    var after := UpdatedText(text, dep, newVersion, data).value;
    ReadAgain(text, dep, newVersion, data);
    NoKeyIndex(ReadLines(after), dep, 0);
    CalmWithoutKey(ReadLines(after), dep, newVersion);
    CalmExactly(after, dep, newVersion);
  }

  // ----- an item that ends at a form feed -----

  function Newlines(n: nat): string {
    if n == 0 then "" else "\n" + Newlines(n - 1)
  }

  function Blanks(n: nat): (ls: seq<string>)
    ensures |ls| == n && forall i :: 0 <= i < n ==> ls[i] == "\n"
  {
    if n == 0 then [] else ["\n"] + Blanks(n - 1)
  }

  lemma {:induction false} BlankLines(n: nat)
    ensures Join(Blanks(n)) == Newlines(n) && Proper(Blanks(n))
  {
    if n > 0 {
      BlankLines(n - 1);
      assert Blanks(n)[1..] == Blanks(n - 1);
    }
  }

  lemma BlankLine(line: string)
    requires line == "\n"
    ensures !IsMarker(line) && ItemOf(line).None? && IsBlockLine(line) && ProperLine(line) && Terminated(line)
  {
    Blank();
  }

  lemma {:induction false} BlanksRenewed(lines: seq<string>, i: nat, newVersion: string)
    requires i <= |lines| && forall j :: i <= j < |lines| ==> lines[j] == "\n"
    ensures RenewFrom(lines, i, |lines|, None, newVersion) == Ok(lines[i..])
    decreases |lines| - i
  {
    hide IsMarker, RenewLine, RenewFrom, ItemOf;
    if i < |lines| {
      BlankLine(lines[i]);
      PlainRenewed(lines[i], None, newVersion);
      NoneRenewed(lines, i, newVersion);
      BlanksRenewed(lines, i + 1, newVersion);
      assert [lines[i]] + lines[i + 1..] == lines[i..];
    } else {
      RenewNothing(lines, newVersion);
    }
  }

  lemma RenewNothing(lines: seq<string>, newVersion: string)
    ensures RenewFrom(lines, |lines|, |lines|, None, newVersion) == Ok([]) && lines[|lines|..] == []
  {
  }

  /** A line that is cut off before a newline, and items in it settled. */
  predicate Cut(a: string, newVersion: string) {
    && ProperLine(a) && Terminated(a) && '\r' !in a && !IsMarker(a)
    && ItemOf(a).Some? && RenewLine(a, None, newVersion) == Ok(a + "\n")
  }

  lemma GrownBlock(key: string, a: string, newVersion: string, n: nat)
    requires !IsMarker(key) && ItemOf(key).None? && Cut(a, newVersion)
    ensures var lines := [key, a] + Blanks(n);
      && RenewFrom(lines, 0, |lines|, None, newVersion) == Ok([key, a + "\n"] + Blanks(n))
      && NoMarkers(lines, 0)
  {
    var lines := [key, a] + Blanks(n);
    hide IsMarker, RenewLine, RenewFrom, ItemOf, ProperLine, Terminated;
    assert forall j :: 2 <= j < |lines| ==> lines[j] == Blanks(n)[j - 2];
    BlanksRenewed(lines, 2, newVersion);
    assert lines[2..] == Blanks(n);
    NoneRenewed(lines, 1, newVersion);
    NoneRenewed(lines, 0, newVersion);
    PlainRenewed(key, None, newVersion);
    assert [key] + ([a + "\n"] + Blanks(n)) == [key, a + "\n"] + Blanks(n);
    forall j | 0 <= j < |lines| ensures !IsMarker(lines[j]) {
      if j >= 2 {
        BlankLine(lines[j]);
      }
    }
  }

  lemma GrownPlace(key: string, a: string, dep: string, n: nat)
    requires IsKey(key, dep) && ItemOf(a).Some?
    ensures var lines := [key, a] + Blanks(n);
      KeyIndex(lines, dep, 0) == 0 && BlockEnd(lines, 1) == |lines|
  {
    hide IsKey, ItemOf, IsBlockLine;
    var lines := [key, a] + Blanks(n);
    assert lines[0] == key;
    forall j | 1 <= j < |lines| ensures IsBlockLine(lines[j]) {
      if j >= 2 {
        assert lines[j] == Blanks(n)[j - 2];
        BlankLine(lines[j]);
      } else {
        ItemInBlock(a);
      }
    }
    BlockEndIs(lines, 1, |lines|);
  }

  lemma WholePlan(lines: seq<string>, dep: string, newVersion: string, out: seq<string>)
    requires lines != [] && KeyIndex(lines, dep, 0) == 0 && BlockEnd(lines, 1) == |lines|
    requires MarkerValue(lines, dep, 0) == None && RenewFrom(lines, 0, |lines|, None, newVersion) == Ok(out)
    ensures UpdatedFile(lines, dep, newVersion, NoFile) == Ok(out)
  {
    hide KeyIndex, BlockEnd, MarkerValue, RenewFrom, AnyTouched;
    assert lines[0..|lines|] == lines;
    assert lines[..0] + out + lines[|lines|..] == out;
  }

  lemma GrownFile(key: string, a: string, dep: string, newVersion: string, n: nat)
    requires IsKey(key, dep) && !IsMarker(key) && ItemOf(key).None? && Cut(a, newVersion)
    ensures UpdatedFile([key, a] + Blanks(n), dep, newVersion, NoFile) == Ok([key, a + "\n"] + Blanks(n))
  {
    var lines := [key, a] + Blanks(n);
    assert ItemOf(a).Some?;
    hide *;
    GrownBlock(key, a, newVersion, n);
    GrownPlace(key, a, dep, n);
    NoMarkerValue(lines, dep, 0);
    WholePlan(lines, dep, newVersion, [key, a + "\n"] + Blanks(n));
  }

  lemma GrownText(key: string, a: string, n: nat)
    requires ProperLine(key) && Terminated(key) && '\r' !in key && ProperLine(a) && Terminated(a) && '\r' !in a
    ensures ReadLines(key + a + Newlines(n)) == [key, a] + Blanks(n)
    ensures Join([key, a + "\n"] + Blanks(n)) == key + a + Newlines(n + 1)
  {
    hide ProperLine, Terminated, Lines, IsBreak;
    BlankLines(n);
    LinesJoin(Blanks(n));
    NewlinesNoReturn(n);
    TranslateNothing(key + a + Newlines(n));
    assert Join([key, a]) == key + Join([a]) && Join([a]) == a + "" == a;
    LinesAfter([key, a], Newlines(n));
    var o := a + "\n";
    JoinAppend([key, o], Blanks(n));
    assert Join([key, o]) == key + Join([o]) && Join([o]) == o + "" == o;
    assert key + o + Newlines(n) == key + a + ("\n" + Newlines(n));
  }

  lemma {:induction false} NewlinesNoReturn(n: nat)
    ensures '\r' !in Newlines(n)
  {
    if n > 0 {
      NewlinesNoReturn(n - 1);
    }
  }

  /** Every update of a text with such an item adds one more blank line. */
  lemma Grows(key: string, a: string, dep: string, newVersion: string, n: nat)
    requires Whole(key) && IsKey(key, dep) && !IsMarker(key) && ItemOf(key).None? && Cut(a, newVersion)
    ensures UpdatedText(key + a + Newlines(n), dep, newVersion, NoFile) == Ok(key + a + Newlines(n + 1))
  {
    GrownText(key, a, n);
    hide *;
    GrownFile(key, a, dep, newVersion, n);
    assert ([key, a] + Blanks(n))[1] == a && ([key, a + "\n"] + Blanks(n))[1] == a + "\n";
    UpdatedIs(key + a + Newlines(n), dep, newVersion, [key, a + "\n"] + Blanks(n));
  }

  const FORM_FEED := Item("", '"', "x", "\U{c}")

  const FED := "- \"x\"\U{c}"

  lemma FormFeedPrints()
    ensures PrintItem(FORM_FEED) == FED + "\n" && Chomp(FED + "\n") == FED && Chomp(FED) == FED
    ensures ProperLine(FED) && Terminated(FED) && '\r' !in FED
  {
    assert (FED + "\n")[..|FED|] == FED;
  }

  lemma FormFeedReads()
    ensures ItemOf(PrintItem(FORM_FEED)) == Some(FORM_FEED)
  {
    assert WellFormed(FORM_FEED) by {
      SkipIs("\U{c}", 0, 1);
    }
    assert !ClosesEarly("x", '"');
    hide WellFormed, ClosesEarly, PrintItem, ItemOf;
    ItemRoundTrip(FORM_FEED);
  }

  lemma NothingInX()
    ensures ReplaceLast("x", "3") == Ok("x")
  {
    assert Matches("x", 1) == [];
  }

  lemma FormFeedItem()
    ensures Cut(FED, "3")
  {
    FormFeedPrints();
    FormFeedReads();
    assert ItemOf(FED) == Some(FORM_FEED) by {
      hide ParseItem, Chomp, PrintItem;
    }
    hide ParseItem, ReplaceLast, Chomp, PrintItem, ItemOf, IsMarker, ProperLine, Terminated;
    NothingInX();
    MarkerIsNoItem(FED);
    assert FORM_FEED.(value := "x") == FORM_FEED;
  }

  lemma KeyLineWhole()
    ensures Whole(KEY_LINE)
  {
  }

  /** One such text, with any number of blank lines after it. */
  lemma FormFeedGrows(n: nat)
    ensures var text := KEY_LINE + FED;
      UpdatedText(text + Newlines(n), "a", "3", NoFile) == Ok(text + Newlines(n + 1))
  {
    hide *;
    KeyLineWhole();
    KeyLine();
    FormFeedItem();
    Grows(KEY_LINE, FED, "a", "3", n);
  }
}
