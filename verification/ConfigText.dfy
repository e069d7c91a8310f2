/** The update on the text of a file: it is cut into lines, renewed, and joined again. */
module ConfigText {
  import opened Wrappers
  import opened Versions
  import opened Constraints
  import opened ConfigLines
  import opened Rereading
  import opened ConfigFile
  import opened ConfigTwice
  import opened TextLines

  function ReadLines(text: string): seq<string> {
    Lines(Translate(text))
  }

  /** _update_file on the text of the file: it is written only when something changed. */
  ghost function UpdatedText(text: string, dep: string, newVersion: string, data: Data): Result<string> {
    var lines := ReadLines(text);
    match UpdatedFile(lines, dep, newVersion, data)
    case Ok(after) => Ok(if SaysChanged(lines, dep, newVersion, data) then Join(after) else text)
    case Err(message) => Err(message)
  }

  class BuildConfig {
    var text: string

    constructor (text: string)
      ensures this.text == text
    {
      this.text := text;
    }

    /** _update_file: true when the file was written. */
    method UpdateFile(dep: string, newVersion: string, data: Data) returns (r: Result<bool>)
      modifies this
      ensures match UpdatedText(old(text), dep, newVersion, data)
        case Ok(after) => text == after && r == Ok(SaysChanged(ReadLines(old(text)), dep, newVersion, data))
        case Err(message) => text == old(text) && r == Err(message)
      ensures r == Ok(false) ==> text == old(text)
    {
      hide KeyIndex, BlockEnd, RenewBlock, AnyTouched, Target, MarkerValue, Given, ReadLines, Join;
      var lines := ReadLines(text);
      var found := FindBlock(lines, dep);
      if found.None? {
        return Ok(false);
      }
      var (start, end) := found.value;
      var block := lines[start..end];
      var marker := FirstMarkerValue(block, dep);
      var value := DataValue(data);
      if value.None? && data.File? && marker.None? {
        return Err(NO_VALUE);
      }
      var updated, touched := UpdatedBlockLines(block, newVersion, marker, value);
      if updated.Err? {
        return Err(updated.message);
      }
      if !touched && updated.value == block {
        return Ok(false);
      }
      lines := lines[..start] + updated.value + lines[end..];
      text := Join(lines);
      return Ok(true);
    }
  }

  // ----- breaks in items -----

  /** An item that ends at a newline or at the end of the file, and not at some other break. */
  predicate EndsPlain(line: string) {
    ItemOf(line).Some? ==> NoBreaks(ItemOf(line).value.suffix)
  }

  lemma ChompProper(line: string)
    requires ProperLine(line)
    ensures Chomp(line) == line
      || (line[|line| - 1] == '\n' && Chomp(line) == line[..|line| - 1] && NoBreaks(Chomp(line)))
  {
    var s := Chomp(line);
    if |s| < |line| {
      assert IsBreak(line[|s|]);
    }
  }

  lemma ItemBreaks(line: string)
    requires ProperLine(line) && ItemOf(line).Some?
    ensures var item := ItemOf(line).value;
      && NoBreaks(item.indent) && NoBreaks(item.value)
      && (item.suffix != "" ==> ProperLine(item.suffix))
      && (Chomp(line) != line ==> NoBreaks(item.suffix))
  {
    ChompProper(line);
    var s := Chomp(line);
    hide Chomp, IsBreak, ParseItem, Close, Skip, ProperLine, NoBreaks;
    var i, j, c := ParsedParts(s);
    assert ProperLine(s) by { PrefixProper(line, s); }
    SliceOpen(s, 0, i);
    assert s[0..i] == s[..i];
    SliceOpen(s, j + 1, c);
    SuffixProper(s, c + 1);
  }

  lemma PrefixProper(line: string, s: string)
    requires ProperLine(line) && s != "" && s <= line
    ensures ProperLine(s)
  {
    hide IsBreak;
  }

  lemma SliceOpen(s: string, i: nat, j: nat)
    requires ProperLine(s) && i <= j < |s|
    ensures NoBreaks(s[i..j])
  {
    hide IsBreak;
  }

  lemma SuffixProper(s: string, c: nat)
    requires ProperLine(s) && c <= |s|
    ensures s[c..] != "" ==> ProperLine(s[c..])
    ensures NoBreaks(s) ==> NoBreaks(s[c..])
  {
    hide IsBreak;
  }

  lemma BodyIs(item: Item)
    ensures Body(item) == item.indent + "- " + [item.quote] + item.value + [item.quote] + item.suffix
    ensures PrintItem(item) == Body(item) + "\n"
  {
  }

  lemma BodyBreaks(item: Item)
    requires NoBreaks(item.indent) && NoBreaks(item.value) && (item.quote == '"' || item.quote == '\'')
    ensures forall k :: 0 <= k < |Body(item)| - |item.suffix| ==> !IsBreak(Body(item)[k])
  {
    var head := item.indent + "- " + [item.quote] + item.value + [item.quote];
    NoBreaksJoin(item.indent, "- ");
    NoBreaksJoin(item.indent + "- ", [item.quote]);
    NoBreaksJoin(item.indent + "- " + [item.quote], item.value);
    NoBreaksJoin(item.indent + "- " + [item.quote] + item.value, [item.quote]);
    assert NoBreaks(head);
    hide IsBreak;
    BodyIs(item);
    assert Body(item) == head + item.suffix;
    assert forall k :: 0 <= k < |head| ==> Body(item)[k] == head[k];
  }

  /** A written line that will be cut in two: the break that ended it is still there, before the newline. */
  predicate Frayed(line: string) {
    && |line| > 1 && line[|line| - 1] == '\n' && line[|line| - 2] != '\n'
    && ProperLine(line[..|line| - 1]) && Terminated(line[..|line| - 1])
  }

  lemma PrintedShape(item: Item)
    requires NoBreaks(item.indent) && NoBreaks(item.value) && (item.quote == '"' || item.quote == '\'')
    requires item.suffix != "" ==> ProperLine(item.suffix) && item.suffix[|item.suffix| - 1] != '\n'
    ensures NoBreaks(item.suffix) ==> ProperLine(PrintItem(item)) && Terminated(PrintItem(item))
    ensures !NoBreaks(item.suffix) ==> Frayed(PrintItem(item))
  {
    BodyBreaks(item);
    BodyIs(item);
    var b, o, n := Body(item), PrintItem(item), |Body(item)| - |item.suffix|;
    hide Body, PrintItem;
    assert forall k :: 0 <= k < |b| ==> o[k] == b[k];
    assert forall k :: n <= k < |b| ==> b[k] == item.suffix[k - n] by {
      assert b[n..] == item.suffix by { BodyParts(item); }
    }
    assert o[..|o| - 1] == b;
  }

  lemma NoBreaksPrint(v: Version)
    requires v != []
    ensures NoBreaks(Print(v))
  {
    PrintIsBound(v);
    hide Print;
  }

  /** Renewing puts no break into a value. */
  lemma RenewedNoBreaks(v: string, newVersion: string)
    requires ReplaceLast(v, newVersion).Ok? && NoBreaks(v)
    ensures NoBreaks(ReplaceLast(v, newVersion).value)
  {
    if Matches(v, 0) == [] {
      NothingSeen(v, '"', newVersion);
    } else {
      ReplacedBy(v, newVersion, '"');
      var m, b := LastBound(v), NewText(v, newVersion);
      assert NoBreaks(b) by {
        NoBreaksPrint(BoundFor(m.op, BoundOf(v, m).value, Parse(newVersion).value));
      }
      hide *;
      SpliceNoBreaks(v, m, b);
    }
  }

  lemma SpliceNoBreaks(v: string, m: Match, b: string)
    requires m.start <= m.end <= |v| && NoBreaks(v) && NoBreaks(b)
    ensures NoBreaks(Splice(v, m, b))
  {
    hide IsBreak;
    NoBreaksJoin(v[..m.start], b);
    NoBreaksJoin(v[..m.start] + b, v[m.end..]);
  }

  ghost predicate GivenOpen(given: Option<string>) {
    given.Some? ==> NoBreaks(given.value)
  }

  lemma SuffixEnd(item: Item)
    requires WellFormed(item)
    ensures item.suffix != "" ==> item.suffix[|item.suffix| - 1] != '\n'
  {
  }

  /** What a line of a text is written as. */
  lemma RenewedShape(line: string, given: Option<string>, newVersion: string)
    requires ProperLine(line) && RenewLine(line, given, newVersion).Ok? && GivenOpen(given)
    ensures var o := RenewLine(line, given, newVersion).value;
      && (ItemOf(line).None? ==> o == line)
      && (ItemOf(line).Some? && EndsPlain(line) ==> ProperLine(o) && Terminated(o))
      && (!EndsPlain(line) ==> Frayed(o))
  {
    hide ItemOf, ReplaceLast, PrintItem, WellFormed, ProperLine, NoBreaks, Frayed, Terminated;
    if ItemOf(line).Some? {
      var item := ItemOf(line).value;
      ItemRead(line);
      QuoteOf(item);
      SuffixEnd(item);
      ItemBreaks(line);
      var value := if given.Some? then given.value else item.value;
      RenewedNoBreaks(value, newVersion);
      PrintedShape(item.(value := ReplaceLast(value, newVersion).value));
    }
  }

  // ----- when the written text is the text that was read -----

  lemma FirstOf(a: string, r: string, c: char)
    requires FirstIs(a, c)
    ensures FirstIs(a + r, c)
  {
    var k := Skip(a, 0);
    assert forall j :: 0 <= j < |a| ==> (a + r)[j] == a[j];
    SkipIs(a + r, 0, k);
  }

  lemma PrintedFirst(item: Item)
    requires WellFormed(item)
    ensures FirstIs(PrintItem(item), '-') && ItemOf(PrintItem(item)).Some?
      && PrintItem(ItemOf(PrintItem(item)).value) == PrintItem(item)
  {
    Reread(item);
    hide ItemOf, PrintItem, FirstIs;
    ItemFirst(PrintItem(item));
  }

  /** An item is written as one that begins like an item and is printed as it reads. */
  lemma RenewedItem(line: string, given: Option<string>, newVersion: string)
    requires ItemOf(line).Some? && RenewLine(line, given, newVersion).Ok?
    ensures var o := RenewLine(line, given, newVersion).value;
      FirstIs(o, '-') && ItemOf(o).Some? && PrintItem(ItemOf(o).value) == o
  {
    hide ItemOf, ReplaceLast, PrintItem, WellFormed, FirstIs;
    var item := ItemOf(line).value;
    ItemRead(line);
    var value := ReplaceLast(if given.Some? then given.value else item.value, newVersion).value;
    assert WellFormed(item.(value := value)) by { ValueFree(item, value); }
    PrintedFirst(item.(value := value));
  }

  /** What one step of the renewal does, in terms of the lines after it. */
  lemma RenewStep(lines: seq<string>, i: nat, target: nat, given: Option<string>, newVersion: string, rest: seq<string>)
    requires i < |lines| && RenewFrom(lines, i, target, given, newVersion) == Ok(rest)
    ensures IsMarker(lines[i]) ==> RenewFrom(lines, i + 1, target, given, newVersion) == Ok(rest)
    ensures !IsMarker(lines[i]) ==>
      && rest != [] && RenewFrom(lines, i + 1, target, given, newVersion) == Ok(rest[1..])
      && RenewLine(lines[i], if i == target then given else None, newVersion) == Ok(rest[0])
  {
    hide IsMarker, RenewLine;
    if !IsMarker(lines[i]) {
      JoinedIs(RenewLine(lines[i], if i == target then given else None, newVersion),
               RenewFrom(lines, i + 1, target, given, newVersion), rest);
    }
  }

  lemma RenewOver(lines: seq<string>, i: nat, target: nat, given: Option<string>, newVersion: string, rest: seq<string>)
    requires i == |lines| && RenewFrom(lines, i, target, given, newVersion) == Ok(rest)
    ensures rest == []
  {
  }

  lemma OneOpen(given: Option<string>, here: bool)
    requires GivenOpen(given)
    ensures GivenOpen(if here then given else None)
  {
  }

  /** The text written does not begin with a marker. */
  lemma {:induction false} NoMarkerAhead(lines: seq<string>, i: nat, target: nat, given: Option<string>,
                                         newVersion: string, rest: seq<string>, a: string, r: string)
    requires i <= |lines| && Proper(lines) && RenewFrom(lines, i, target, given, newVersion) == Ok(rest)
    requires IsMarker(a) && ProperLine(a) && Terminated(a)
    ensures Join(rest) != a + r
    decreases |lines| - i
  {
    hide IsMarker, RenewFrom, RenewLine, ItemOf, ProperLine, Terminated, FirstIs, PrintItem;
    MarkerNotEmpty(a);
    if Join(rest) == a + r {
      if i == |lines| {
        RenewOver(lines, i, target, given, newVersion, rest);
      } else {
        RenewStep(lines, i, target, given, newVersion, rest);
        if IsMarker(lines[i]) {
          NoMarkerAhead(lines, i + 1, target, given, newVersion, rest, a, r);
        } else {
          var g := if i == target then given else None;
          if ItemOf(lines[i]).Some? {
            RenewedItem(lines[i], g, newVersion);
            MarkerFirst(a);
            FirstOf(a, r, '#');
            FirstOf(rest[0], Join(rest[1..]), '-');
            OneFirst(a + r);
          } else {
            PlainRenewed(lines[i], g, newVersion);
            UnmarkedAhead(lines, i, target, given, newVersion, rest, a, r);
          }
        }
      }
    }
  }

  lemma MarkerNotEmpty(a: string)
    requires IsMarker(a)
    ensures a != ""
  {
    MarkerFirst(a);
  }

  lemma OneFirst(s: string)
    ensures !(FirstIs(s, '#') && FirstIs(s, '-'))
  {
  }

  lemma PlainRenewed(line: string, given: Option<string>, newVersion: string)
    requires ItemOf(line).None?
    ensures RenewLine(line, given, newVersion) == Ok(line)
  {
    hide ItemOf;
  }

  lemma UnmarkedAhead(lines: seq<string>, i: nat, target: nat, given: Option<string>, newVersion: string,
                      rest: seq<string>, a: string, r: string)
    requires i < |lines| && Proper(lines) && rest != [] && rest[0] == lines[i]
    requires RenewFrom(lines, i + 1, target, given, newVersion) == Ok(rest[1..])
    requires IsMarker(a) && !IsMarker(lines[i]) && ProperLine(a) && Terminated(a)
    ensures Join(rest) != a + r
  {
    hide IsMarker, RenewFrom, ProperLine, Terminated;
    if Join(rest) == a + r {
      if Terminated(lines[i]) {
        SameFirst(lines[i], Join(rest[1..]), a, r);
      } else {
        assert i + 1 == |lines|;
        RenewOver(lines, i + 1, target, given, newVersion, rest[1..]);
        assert Join(rest) == lines[i];
        HasBreak(a, r);
        Unbroken(lines[i]);
      }
    }
  }

  lemma Unbroken(line: string)
    requires ProperLine(line) && !Terminated(line)
    ensures NoBreaks(line)
  {
    hide IsBreak;
  }

  lemma Blank()
    ensures !IsMarker("\n") && ItemOf("\n").None? && IsBlockLine("\n") && ProperLine("\n") && Terminated("\n")
  {
    SkipIs("\n", 0, 1);
    hide IsMarker, ItemOf;
    if IsMarker("\n") {
      MarkerFirst("\n");
    } else if ItemOf("\n").Some? {
      ItemFirst("\n");
    }
  }

  /** The text written is not the text read with a newline taken off its front. */
  lemma {:induction false} NoNewlineAhead(lines: seq<string>, i: nat, target: nat, given: Option<string>,
                                          newVersion: string, rest: seq<string>)
    requires i <= |lines| && Proper(lines) && RenewFrom(lines, i, target, given, newVersion) == Ok(rest)
    ensures Join(lines[i..]) != "\n" + Join(rest)
    decreases |lines| - i
  {
    hide IsMarker, RenewFrom, RenewLine, ItemOf, ProperLine, Terminated;
    if Join(lines[i..]) == "\n" + Join(rest) {
      assert i < |lines|;
      assert lines[i..][0] == lines[i] && lines[i..][1..] == lines[i + 1..];
      NewlineFirst(lines[i], Join(lines[i + 1..]), Join(rest));
      Blank();
      RenewStep(lines, i, target, given, newVersion, rest);
      PlainRenewed("\n", if i == target then given else None, newVersion);
      NoNewlineAhead(lines, i + 1, target, given, newVersion, rest[1..]);
    }
  }

  lemma NewlineFirst(a: string, r: string, s: string)
    requires ProperLine(a) && a + r == "\n" + s
    ensures a == "\n" && r == s
  {
    assert a[0] == (a + r)[0] == '\n';
    assert IsBreak(a[0]);
    assert |a| == 1;
    assert r == (a + r)[1..];
    assert s == ("\n" + s)[1..];
  }

  /** An item whose line and the text after it are written as they were read is written as it was read. */
  lemma SameItem(line: string, given: Option<string>, newVersion: string, o: string, r: string, s: string)
    requires ProperLine(line) && GivenOpen(given) && ItemOf(line).Some? && RenewLine(line, given, newVersion) == Ok(o)
    requires line + r == o + s && (!Terminated(line) ==> r == "") && r != "\n" + s
    ensures o == line && r == s && PrintItem(ItemOf(line).value) == line
  {
    RenewedShape(line, given, newVersion);
    RenewedItem(line, given, newVersion);
    hide *;
    if !Terminated(line) {
      assert line + "" == line;
      BreakInside(line, o, s);
    } else if EndsPlain(line) {
      SameFirst(line, r, o, s);
    } else {
      FrayedFirst(line, r, o, s);
    }
  }

  lemma BreakInside(line: string, o: string, s: string)
    requires ProperLine(line) && !Terminated(line) && (Terminated(o) || Frayed(o))
    ensures line != o + s
  {
    Unbroken(line);
    if Terminated(o) {
      HasBreak(o, s);
    } else {
      FrayedBreak(o, s);
    }
    hide NoBreaks, Terminated, Frayed;
  }

  lemma FrayedFirst(line: string, r: string, o: string, s: string)
    requires ProperLine(line) && Terminated(line) && Frayed(o) && line + r == o + s
    ensures r == "\n" + s
  {
    FrayedParts(o);
    hide *;
    var b := o[..|o| - 1];
    Reassociate(b, s);
    SameFirst(line, r, b, "\n" + s);
  }

  lemma Reassociate(b: string, s: string)
    ensures (b + "\n") + s == b + ("\n" + s)
  {
  }

  lemma FrayedParts(o: string)
    requires Frayed(o)
    ensures |o| > 1 && o == o[..|o| - 1] + "\n" && ProperLine(o[..|o| - 1]) && Terminated(o[..|o| - 1])
  {
    hide ProperLine, Terminated;
  }

  lemma FrayedBreak(o: string, s: string)
    requires Frayed(o)
    ensures !NoBreaks(o + s)
  {
    assert (o + s)[|o| - 1] == '\n';
  }

  lemma JoinFrom(lines: seq<string>, i: nat)
    requires i < |lines|
    ensures Join(lines[i..]) == lines[i] + Join(lines[i + 1..])
    ensures i + 1 == |lines| ==> Join(lines[i + 1..]) == ""
  {
    assert lines[i..][1..] == lines[i + 1..];
  }

  /** When the text written is the text read, every line was written as it was read. */
  lemma {:induction false} SameText(lines: seq<string>, i: nat, target: nat, given: Option<string>, newVersion: string,
                                    rest: seq<string>)
    requires i <= |lines| && Proper(lines) && RenewFrom(lines, i, target, given, newVersion) == Ok(rest)
    requires GivenOpen(given) && Join(lines[i..]) == Join(rest)
    ensures rest == lines[i..] && NoMarkers(lines, i) && Written(lines, i)
    decreases |lines| - i
  {
    hide IsMarker, RenewFrom, RenewLine, ItemOf, ProperLine, Terminated, PrintItem, GivenOpen;
    if i == |lines| {
      RenewOver(lines, i, target, given, newVersion, rest);
    } else {
      JoinFrom(lines, i);
      RenewStep(lines, i, target, given, newVersion, rest);
      if IsMarker(lines[i]) {
        MarkerChanges(lines, i, target, given, newVersion, rest);
        assert false;
      }
      var g, a := if i == target then given else None, lines[i];
      if ItemOf(a).Some? {
        OneOpen(given, i == target);
        NoNewlineAhead(lines, i + 1, target, given, newVersion, rest[1..]);
        SameItem(a, g, newVersion, rest[0], Join(lines[i + 1..]), Join(rest[1..]));
      } else {
        PlainRenewed(a, g, newVersion);
        Cancel(a, Join(lines[i + 1..]), Join(rest[1..]));
      }
      SameText(lines, i + 1, target, given, newVersion, rest[1..]);
      assert lines[i..] == [a] + lines[i + 1..] == rest;
    }
  }

  lemma Cancel(a: string, r: string, s: string)
    ensures a + r == a + s <==> r == s
  {
    if a + r == a + s {
      assert r == (a + r)[|a|..];
      assert s == (a + s)[|a|..];
    }
  }

  /** A marker that is dropped changes the text. */
  lemma MarkerChanges(lines: seq<string>, i: nat, target: nat, given: Option<string>, newVersion: string,
                      rest: seq<string>)
    requires i < |lines| && Proper(lines) && RenewFrom(lines, i + 1, target, given, newVersion) == Ok(rest)
    requires IsMarker(lines[i])
    ensures Join(lines[i..]) != Join(rest)
  {
    hide IsMarker, RenewFrom, ProperLine, Terminated;
    JoinFrom(lines, i);
    var a, r := lines[i], Join(lines[i + 1..]);
    MarkerNotEmpty(a);
    if Terminated(a) {
      NoMarkerAhead(lines, i + 1, target, given, newVersion, rest, a, r);
    } else {
      RenewOver(lines, i + 1, target, given, newVersion, rest);
    }
  }

  // ----- texts that an update leaves alone -----

  /** No marker in the block of the name, and every item in it printed as it reads and with nothing to
      renew. */
  ghost predicate Calm(lines: seq<string>, dep: string, newVersion: string) {
    var start := KeyIndex(lines, dep, 0);
    start < |lines| ==>
      var block := lines[start..BlockEnd(lines, start + 1)];
      NoMarkers(block, 0) && Written(block, 0) && AllSettled(block, 0, newVersion)
  }

  /** Any current value that a marker in a text gives is free of breaks. */
  lemma StripOpen(s: string)
    requires s != "" ==> ProperLine(s)
    ensures NoBreaks(Strip(s))
  {
    var t := s[Skip(s, 0)..];
    if s != "" {
      SuffixProper(s, Skip(s, 0));
    }
    if t != "" && IsBreak(t[|t| - 1]) {
      BreakIsSpace(t[|t| - 1]);
      StripEndOpen(t[..|t| - 1]);
    } else {
      StripEndOpen(t);
    }
  }

  lemma {:induction false} StripEndOpen(s: string)
    requires NoBreaks(s)
    ensures NoBreaks(StripEnd(s))
    decreases |s|
  {
    hide IsBreak, IsSpace;
    if s != "" && IsSpace(s[|s| - 1]) {
      StripEndOpen(s[..|s| - 1]);
    }
  }

  lemma MarkerOpen(line: string)
    requires ProperLine(line) && IsMarker(line)
    ensures NoBreaks(ParseMarker(line).value.currentValue)
  {
    hide IsBreak, IsSpace, ProperLine, NoBreaks, Strip, Skip, Chomp;
    var c: nat :| c <= |line| && ParseMarker(line).value.currentValue == Strip(line[c..]);
    SuffixProper(line, c);
    StripOpen(line[c..]);
  }

  lemma MarkerValueOpen(block: seq<string>, dep: string, i: nat)
    requires i <= |block| && Proper(block)
    ensures GivenOpen(MarkerValue(block, dep, i))
    decreases |block| - i
  {
    hide ParseMarker, ProperLine, Terminated, NoBreaks;
    if i < |block| {
      if IsMarker(block[i]) {
        MarkerOpen(block[i]);
      }
      MarkerValueOpen(block, dep, i + 1);
    }
  }

  lemma OpenNoReturn(s: string)
    requires NoBreaks(s)
    ensures '\r' !in s
  {
    assert IsBreak('\r');
    hide IsBreak;
  }

  lemma ItemNoReturn(line: string)
    requires ItemOf(line).Some? && '\r' !in line
    ensures '\r' !in ItemOf(line).value.indent && '\r' !in ItemOf(line).value.suffix
    ensures ItemOf(line).value.quote != '\r'
  {
    hide ParseItem, Close, Skip;
    assert Chomp(line) <= line;
    var i, j, c := ParsedParts(Chomp(line));
    hide Chomp;
  }

  lemma PrintNoReturn(item: Item)
    requires '\r' !in item.indent && '\r' !in item.value && '\r' !in item.suffix && item.quote != '\r'
    ensures '\r' !in PrintItem(item)
  {
  }

  lemma LineNoReturn(line: string, given: Option<string>, newVersion: string)
    requires ProperLine(line) && '\r' !in line && GivenOpen(given) && RenewLine(line, given, newVersion).Ok?
    ensures '\r' !in RenewLine(line, given, newVersion).value
  {
    hide ItemOf, ReplaceLast, PrintItem, ProperLine, NoBreaks;
    if ItemOf(line).Some? {
      var item := ItemOf(line).value;
      ItemBreaks(line);
      ItemNoReturn(line);
      var value := if given.Some? then given.value else item.value;
      RenewedNoBreaks(value, newVersion);
      OpenNoReturn(ReplaceLast(value, newVersion).value);
      PrintNoReturn(item.(value := ReplaceLast(value, newVersion).value));
    }
  }

  lemma {:induction false} RenewedNoReturn(lines: seq<string>, i: nat, target: nat, given: Option<string>,
                                           newVersion: string, rest: seq<string>)
    requires i <= |lines| && Proper(lines) && RenewFrom(lines, i, target, given, newVersion) == Ok(rest)
      && GivenOpen(given)
    requires forall j :: 0 <= j < |lines| ==> '\r' !in lines[j]
    ensures forall j :: 0 <= j < |rest| ==> '\r' !in rest[j]
    decreases |lines| - i
  {
    hide IsMarker, RenewFrom, RenewLine, ProperLine, Terminated, GivenOpen;
    if i == |lines| {
      RenewOver(lines, i, target, given, newVersion, rest);
    } else {
      RenewStep(lines, i, target, given, newVersion, rest);
      if IsMarker(lines[i]) {
        RenewedNoReturn(lines, i + 1, target, given, newVersion, rest);
      } else {
        OneOpen(given, i == target);
        LineNoReturn(lines[i], if i == target then given else None, newVersion);
        RenewedNoReturn(lines, i + 1, target, given, newVersion, rest[1..]);
        assert rest == [rest[0]] + rest[1..];
      }
    }
  }

  lemma ProperSlice(lines: seq<string>, i: nat, j: nat)
    requires Proper(lines) && i <= j <= |lines|
    ensures Proper(lines[i..j])
  {
    hide ProperLine, Terminated;
  }

  /** What the markers or the data file of the plan give holds no break, if the data file's value does not. */
  lemma PlanOpen(lines: seq<string>, dep: string, newVersion: string, data: Data)
    requires Proper(lines) && GivenOpen(DataValue(data)) && PlanOf(lines, dep, newVersion, data).Renewal?
    ensures var p := PlanOf(lines, dep, newVersion, data);
      var block := lines[p.start..p.end];
      Proper(block) && GivenOpen(Given(MarkerValue(block, dep, 0), DataValue(data)))
  {
    hide KeyIndex, BlockEnd, RenewBlock, AnyTouched, MarkerValue, NoBreaks, Proper;
    var p := PlanOf(lines, dep, newVersion, data);
    ProperSlice(lines, p.start, p.end);
    MarkerValueOpen(lines[p.start..p.end], dep, 0);
  }

  /** The parts of a plan, by name. */
  lemma PlanParts(lines: seq<string>, dep: string, newVersion: string, data: Data)
    requires PlanOf(lines, dep, newVersion, data).Renewal?
    ensures var p := PlanOf(lines, dep, newVersion, data);
      var block, value := lines[p.start..p.end], DataValue(data);
      var marker := MarkerValue(block, dep, 0);
      && p.start == KeyIndex(lines, dep, 0) < |lines| && p.end == BlockEnd(lines, p.start + 1)
      && RenewFrom(block, 0, Target(block, marker, value), Given(marker, value), newVersion) == Ok(p.block)
      && (p.touched <==> AnyTouched(block, |block|, Target(block, marker, value), Given(marker, value), newVersion))
      && UpdatedFile(lines, dep, newVersion, data) == Ok(lines[..p.start] + p.block + lines[p.end..])
  {
    hide KeyIndex, BlockEnd, RenewFrom, AnyTouched, MarkerValue, Target;
  }

  predicate NoReturns(lines: seq<string>) {
    forall j :: 0 <= j < |lines| ==> '\r' !in lines[j]
  }

  lemma SpliceNoReturns(lines: seq<string>, i: nat, j: nat, block: seq<string>)
    requires i <= j <= |lines| && NoReturns(lines)
    ensures NoReturns(lines[i..j]) && (NoReturns(block) ==> NoReturns(lines[..i] + block + lines[j..]))
  {
    if NoReturns(block) {
      var after := lines[..i] + block + lines[j..];
      forall k | 0 <= k < |after| ensures '\r' !in after[k] {
        if k < i {
          assert after[k] == lines[k];
        } else if k < i + |block| {
          assert after[k] == block[k - i];
        } else {
          assert after[k] == lines[k - i - |block| + j];
        }
      }
    }
  }

  lemma BlockNoReturns(block: seq<string>, target: nat, given: Option<string>, newVersion: string, out: seq<string>)
    requires Proper(block) && NoReturns(block) && GivenOpen(given)
    requires RenewFrom(block, 0, target, given, newVersion) == Ok(out)
    ensures NoReturns(out)
  {
    hide RenewFrom, Proper, GivenOpen;
    RenewedNoReturn(block, 0, target, given, newVersion, out);
  }

  lemma AfterNoReturn(lines: seq<string>, dep: string, newVersion: string, data: Data)
    requires Proper(lines) && GivenOpen(DataValue(data)) && UpdatedFile(lines, dep, newVersion, data).Ok?
    requires NoReturns(lines)
    ensures '\r' !in Join(UpdatedFile(lines, dep, newVersion, data).value)
  {
    var p, after := PlanOf(lines, dep, newVersion, data), UpdatedFile(lines, dep, newVersion, data).value;
    assert NoReturns(after) by {
      if p.Renewal? {
        hide *;
        PlanParts(lines, dep, newVersion, data);
        PlanOpen(lines, dep, newVersion, data);
        var block, value := lines[p.start..p.end], DataValue(data);
        var marker := MarkerValue(block, dep, 0);
        SpliceNoReturns(lines, p.start, p.end, p.block);
        BlockNoReturns(block, Target(block, marker, value), Given(marker, value), newVersion, p.block);
      }
    }
    hide UpdatedFile;
    NoReturnJoin(after);
  }

  lemma CalmBlock(lines: seq<string>, dep: string, newVersion: string, start: nat, end: nat)
    requires KeyIndex(lines, dep, 0) == start < |lines| && BlockEnd(lines, start + 1) == end
    ensures var block := lines[start..end];
      Calm(lines, dep, newVersion) <==> NoMarkers(block, 0) && Written(block, 0) && AllSettled(block, 0, newVersion)
  {
    hide KeyIndex, BlockEnd, NoMarkers, Written, AllSettled;
  }

  lemma CalmAbsent(lines: seq<string>, dep: string, newVersion: string)
    requires KeyIndex(lines, dep, 0) == |lines|
    ensures Calm(lines, dep, newVersion)
    ensures UpdatedFile(lines, dep, newVersion, NoFile) == Ok(lines) && !SaysChanged(lines, dep, newVersion, NoFile)
  {
    hide KeyIndex;
  }

  lemma QuietPlan(lines: seq<string>, dep: string, newVersion: string, start: nat, end: nat)
    requires KeyIndex(lines, dep, 0) == start < |lines| && BlockEnd(lines, start + 1) == end
    requires var block := lines[start..end];
      && MarkerValue(block, dep, 0) == None && RenewFrom(block, 0, |block|, None, newVersion) == Ok(block)
      && !AnyTouched(block, |block|, |block|, None, newVersion)
    ensures UpdatedFile(lines, dep, newVersion, NoFile) == Ok(lines) && !SaysChanged(lines, dep, newVersion, NoFile)
  {
    hide KeyIndex, BlockEnd, MarkerValue, AnyTouched, RenewFrom;
    assert lines[..start] + lines[start..end] + lines[end..] == lines;
  }

  /** An update leaves calm lines alone, and says so. */
  lemma CalmStays(lines: seq<string>, dep: string, newVersion: string)
    requires Calm(lines, dep, newVersion)
    ensures UpdatedFile(lines, dep, newVersion, NoFile) == Ok(lines) && !SaysChanged(lines, dep, newVersion, NoFile)
  {
    hide *;
    var start := KeyIndex(lines, dep, 0);
    if start == |lines| {
      CalmAbsent(lines, dep, newVersion);
    } else {
      var end := BlockEnd(lines, start + 1);
      var block := lines[start..end];
      CalmBlock(lines, dep, newVersion, start, end);
      NoMarkerValue(block, dep, 0);
      assert block[0..] == block;
      SettledStay(block, 0, newVersion);
      SettledUntouched(block, newVersion);
      QuietPlan(lines, dep, newVersion, start, end);
    }
  }

  lemma JoinCancels(pre: seq<string>, a: seq<string>, b: seq<string>, post: seq<string>)
    requires Join(pre + a + post) == Join(pre + b + post)
    ensures Join(a) == Join(b)
  {
    JoinAppend(pre + a, post);
    JoinAppend(pre + b, post);
    JoinAppend(pre, a);
    JoinAppend(pre, b);
    hide *;
    var x, y, z := Join(pre), Join(post), Join(pre) + Join(a);
    assert |Join(a)| == |Join(b)|;
    assert Join(a) == (x + Join(a) + y)[|x|..|x| + |Join(a)|];
    assert Join(b) == (x + Join(b) + y)[|x|..|x| + |Join(b)|];
  }

  /** A block that is written as the same text has no marker and nothing to renew. */
  lemma SameBlock(block: seq<string>, dep: string, newVersion: string, out: seq<string>)
    requires Proper(block) && Join(block) == Join(out)
    requires var marker := MarkerValue(block, dep, 0);
      RenewFrom(block, 0, Target(block, marker, None), Given(marker, None), newVersion) == Ok(out)
    ensures NoMarkers(block, 0) && Written(block, 0) && AllSettled(block, 0, newVersion)
  {
    var marker := MarkerValue(block, dep, 0);
    assert GivenOpen(Given(marker, None)) by { MarkerValueOpen(block, dep, 0); }
    hide *;
    assert block[0..] == block;
    SameText(block, 0, Target(block, marker, None), Given(marker, None), newVersion, out);
    NoMarkerValue(block, dep, 0);
    NoTarget(block);
    SettledStay(block, 0, newVersion);
  }

  lemma SameSpliced(lines: seq<string>, i: nat, j: nat, block: seq<string>)
    requires i <= j <= |lines| && Join(lines[..i] + block + lines[j..]) == Join(lines)
    ensures Join(lines[i..j]) == Join(block)
  {
    hide Join;
    assert lines == lines[..i] + lines[i..j] + lines[j..];
    JoinCancels(lines[..i], block, lines[i..j], lines[j..]);
  }

  /** Lines that an update writes as the same text are calm. */
  lemma CalmFrom(lines: seq<string>, dep: string, newVersion: string)
    requires Proper(lines) && UpdatedFile(lines, dep, newVersion, NoFile).Ok?
    requires Join(UpdatedFile(lines, dep, newVersion, NoFile).value) == Join(lines)
    ensures Calm(lines, dep, newVersion)
  {
    var p := PlanOf(lines, dep, newVersion, NoFile);
    if p.Renewal? {
      hide *;
      var block := lines[p.start..p.end];
      PlanParts(lines, dep, newVersion, NoFile);
      NothingOpen();
      SameSpliced(lines, p.start, p.end, p.block);
      ProperSlice(lines, p.start, p.end);
      SameBlock(block, dep, newVersion, p.block);
      CalmBlock(lines, dep, newVersion, p.start, p.end);
    } else {
      CalmAbsent(lines, dep, newVersion) by { AbsentKey(lines, dep, newVersion); }
    }
  }

  lemma NothingOpen()
    ensures GivenOpen(DataValue(NoFile)) && DataValue(NoFile) == None
  {
  }

  lemma AbsentKey(lines: seq<string>, dep: string, newVersion: string)
    requires PlanOf(lines, dep, newVersion, NoFile).Absent?
    ensures KeyIndex(lines, dep, 0) == |lines|
  {
    hide KeyIndex, BlockEnd, MarkerValue, RenewBlock;
  }

  lemma NoTarget(block: seq<string>)
    ensures Target(block, None, None) == |block| && Given(None, None) == None
  {
  }

  lemma ReadProper(text: string)
    ensures Proper(ReadLines(text)) && Join(ReadLines(text)) == Translate(text) && NoReturns(ReadLines(text))
  {
    JoinLines(Translate(text));
    NoReturnLines(Translate(text));
  }

  /** For any text: an update without a data file leaves it alone, and says so, exactly when its lines are
      calm. */
  lemma CalmExactly(text: string, dep: string, newVersion: string)
    ensures UpdatedText(text, dep, newVersion, NoFile) == Ok(text) <==> Calm(ReadLines(text), dep, newVersion)
    ensures Calm(ReadLines(text), dep, newVersion) ==> !SaysChanged(ReadLines(text), dep, newVersion, NoFile)
  {
    hide Calm, UpdatedFile, SaysChanged, Join, Proper, ReadLines;
    var lines := ReadLines(text);
    ReadProper(text);
    if Calm(lines, dep, newVersion) {
      CalmStays(lines, dep, newVersion);
    }
    if UpdatedText(text, dep, newVersion, NoFile) == Ok(text) {
      var after := UpdatedFile(lines, dep, newVersion, NoFile).value;
      if SaysChanged(lines, dep, newVersion, NoFile) {
        AfterNoReturn(lines, dep, newVersion, NoFile);
        TranslateNothing(text);
      } else {
        SaysSame(lines, dep, newVersion, NoFile);
      }
      CalmFrom(lines, dep, newVersion);
    }
  }

  /** When it says that nothing changed, the lines are the same. */
  lemma SaysSame(lines: seq<string>, dep: string, newVersion: string, data: Data)
    requires UpdatedFile(lines, dep, newVersion, data).Ok? && !SaysChanged(lines, dep, newVersion, data)
    ensures UpdatedFile(lines, dep, newVersion, data) == Ok(lines)
  {
    hide KeyIndex, BlockEnd, RenewBlock, AnyTouched, MarkerValue, Target;
    var p := PlanOf(lines, dep, newVersion, data);
    if p.Renewal? {
      assert lines == lines[..p.start] + lines[p.start..p.end] + lines[p.end..];
    }
  }
}
