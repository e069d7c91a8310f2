/** Renewing what was renewed: blocks, and where they are found again. */
module ConfigTwice {
  import opened Wrappers
  import opened Constraints
  import opened ConfigLines
  import opened Rereading
  import opened ConfigFile

  // ----- renewing again -----

  /** A line that is renewed as itself. */
  predicate Settled(line: string, newVersion: string) {
    ItemOf(line).Some? ==> var v := ItemOf(line).value.value; ReplaceLast(v, newVersion) == Ok(v)
  }

  predicate NoMarkers(lines: seq<string>, i: nat)
    requires i <= |lines|
  {
    forall j :: i <= j < |lines| ==> !IsMarker(lines[j])
  }

  predicate AllSettled(lines: seq<string>, i: nat, newVersion: string)
    requires i <= |lines|
  {
    forall j :: i <= j < |lines| ==> Settled(lines[j], newVersion)
  }

  predicate AllInBlock(lines: seq<string>, i: nat)
    requires i <= |lines|
  {
    forall j :: i <= j < |lines| ==> IsBlockLine(lines[j])
  }

  /** A given value put on this line lasts. */
  predicate LineLasts(line: string, given: Option<string>, newVersion: string) {
    given.Some? && ItemOf(line).Some? ==> Lasting(given.value, ItemOf(line).value.quote, newVersion)
  }

  /** A renewed line is no marker, stays in the block, and is settled unless a given value on it does
      not last. */
  lemma RenewedLine(line: string, given: Option<string>, newVersion: string)
    requires !IsMarker(line) && RenewLine(line, given, newVersion).Ok?
    ensures var o := RenewLine(line, given, newVersion).value;
      && !IsMarker(o) && (IsBlockLine(line) ==> IsBlockLine(o))
      && (Settled(o, newVersion) <==> LineLasts(line, given, newVersion))
  {
    hide IsMarker, ItemOf, ReplaceLast, PrintItem, ClosesEarly, Lasting, WellFormed, Seen;
    if ItemOf(line).Some? {
      var item := ItemOf(line).value;
      ItemRead(line);
      assert item.quote == '"' || item.quote == '\'' by { QuoteOf(item); }
      var value := if given.Some? then given.value else item.value;
      var renewed := item.(value := ReplaceLast(value, newVersion).value);
      assert WellFormed(renewed) by { ValueFree(item, renewed.value); }
      Reread(renewed);
      RenewedLasts(value, item.quote, newVersion);
      MarkerIsNoItem(PrintItem(renewed));
      if given.None? {
        OpenLasts(value, item.quote, newVersion);
      }
    }
  }

  lemma ValueFree(item: Item, value: string)
    ensures WellFormed(item) <==> WellFormed(item.(value := value))
  {
  }

  /** An item that was written by the updater is renewed as the same line exactly when its value is
      renewed as the same value. */
  lemma SettledLine(line: string, newVersion: string)
    requires ItemOf(line).Some? ==> PrintItem(ItemOf(line).value) == line
    ensures RenewLine(line, None, newVersion) == Ok(line) <==> Settled(line, newVersion)
  {
    hide ItemOf, ReplaceLast, PrintItem;
    if ItemOf(line).Some? {
      var item := ItemOf(line).value;
      var r := ReplaceLast(item.value, newVersion);
      if r.Ok? && PrintItem(item.(value := r.value)) == line {
        PrintedValue(item, r.value);
      }
    }
  }

  lemma PrintedValue(item: Item, value: string)
    requires PrintItem(item.(value := value)) == PrintItem(item)
    ensures value == item.value
  {
    var other := item.(value := value);
    PrintIsBody(item);
    PrintIsBody(other);
    assert Body(item) == PrintItem(item)[..|PrintItem(item)| - 1] == Body(other);
    BodyParts(item);
    BodyParts(other);
    hide Body, PrintItem;
  }

  /** Lines as the updater writes them. */
  predicate Written(lines: seq<string>, i: nat)
    requires i <= |lines|
  {
    forall j :: i <= j < |lines| && ItemOf(lines[j]).Some? ==> PrintItem(ItemOf(lines[j]).value) == lines[j]
  }

  lemma RenewedWritten(line: string, given: Option<string>, newVersion: string)
    requires RenewLine(line, given, newVersion).Ok?
    ensures var o := RenewLine(line, given, newVersion).value;
      ItemOf(o).Some? ==> PrintItem(ItemOf(o).value) == o
  {
    hide ItemOf, ReplaceLast, PrintItem, WellFormed, Seen;
    if ItemOf(line).Some? {
      var item := ItemOf(line).value;
      ItemRead(line);
      var value := ReplaceLast(if given.Some? then given.value else item.value, newVersion).value;
      assert WellFormed(item.(value := value)) by { ValueFree(item, value); }
      Reread(item.(value := value));
    }
  }

  /** What the lines from i on become: no markers, still in the block if they were, and all settled
      unless the given value does not last on the target. */
  lemma {:induction false} RenewedLines(lines: seq<string>, i: nat, target: nat, given: Option<string>,
                                        newVersion: string, out: seq<string>, k: nat)
    requires i <= |lines| && k <= |out|
    requires RenewFrom(lines, i, target, given, newVersion) == Ok(out[k..])
    ensures NoMarkers(out, k) && Written(out, k)
    ensures AllInBlock(lines, i) ==> AllInBlock(out, k)
    ensures AllSettled(out, k, newVersion)
      <==> (i <= target < |lines| && !IsMarker(lines[target]) ==> LineLasts(lines[target], given, newVersion))
    decreases |lines| - i
  {
    hide IsMarker, RenewLine, IsBlockLine, LineLasts, Settled, ItemOf, PrintItem;
    if i < |lines| {
      if IsMarker(lines[i]) {
        RenewedLines(lines, i + 1, target, given, newVersion, out, k);
      } else {
        var g := if i == target then given else None;
        RenewedLine(lines[i], g, newVersion);
        RenewedWritten(lines[i], g, newVersion);
        NoneLasts(lines[i], newVersion);
        var rest := RenewFrom(lines, i + 1, target, given, newVersion).value;
        assert out[k..] == [RenewLine(lines[i], g, newVersion).value] + rest;
        assert |out[k..]| == |out| - k;
        assert out[k] == out[k..][0];
        assert out[k + 1..] == out[k..][1..];
        RenewedLines(lines, i + 1, target, given, newVersion, out, k + 1);
        AllSplit(lines, i, out, k, newVersion);
      }
    }
  }

  lemma NoneLasts(line: string, newVersion: string)
    ensures LineLasts(line, None, newVersion)
  {
  }

  lemma AllSplit(lines: seq<string>, i: nat, out: seq<string>, k: nat, newVersion: string)
    requires i < |lines| && k < |out|
    ensures AllSettled(out, k, newVersion) <==> Settled(out[k], newVersion) && AllSettled(out, k + 1, newVersion)
    ensures AllInBlock(lines, i) <==> IsBlockLine(lines[i]) && AllInBlock(lines, i + 1)
  {
    hide Settled, IsBlockLine;
  }

  /** Lines without markers are renewed as themselves exactly when all are settled. */
  lemma {:induction false} SettledStay(out: seq<string>, k: nat, newVersion: string)
    requires k <= |out| && NoMarkers(out, k) && Written(out, k)
    ensures RenewFrom(out, k, |out|, None, newVersion) == Ok(out[k..]) <==> AllSettled(out, k, newVersion)
    decreases |out| - k
  {
    hide RenewLine, IsMarker, Settled, ItemOf, PrintItem, RenewFrom;
    RenewUnfold(out, k, newVersion);
    if k < |out| {
      SettledLine(out[k], newVersion);
      SettledStay(out, k + 1, newVersion);
      AllSplit(out, k, out, k, newVersion);
      assert out[k..][0] == out[k] && out[k..][1..] == out[k + 1..];
      JoinedIs(RenewLine(out[k], None, newVersion), RenewFrom(out, k + 1, |out|, None, newVersion), out[k..]);
    } else {
      assert out[k..] == [];
    }
  }

  lemma RenewUnfold(out: seq<string>, k: nat, newVersion: string)
    requires k <= |out| && NoMarkers(out, k)
    ensures k == |out| ==> RenewFrom(out, k, |out|, None, newVersion) == Ok([])
    ensures k < |out| ==> (
      RenewFrom(out, k, |out|, None, newVersion)
      == Joined(RenewLine(out[k], None, newVersion), RenewFrom(out, k + 1, |out|, None, newVersion)))
  {
    hide RenewLine, IsMarker;
  }

  lemma SettledUntouched(out: seq<string>, newVersion: string)
    requires NoMarkers(out, 0)
    ensures AllSettled(out, 0, newVersion) <==> !AnyTouched(out, |out|, |out|, None, newVersion)
  {
    hide IsMarker, ItemOf, ReplaceLast;
    forall j: nat | j < |out| ensures Touched(out, j, |out|, None, newVersion) <==> !Settled(out[j], newVersion) {
    }
    hide Touched, Settled;
  }

  /** The value given to the target, if there is one, lasts there. */
  predicate TargetLasts(lines: seq<string>, newVersion: string, marker: Option<string>, data: Option<string>) {
    var target := Target(lines, marker, data);
    target < |lines| ==> LineLasts(lines[target], Given(marker, data), newVersion)
  }

  /** What was written has no markers, and renewing it again with the same version changes nothing
      exactly when the given value lasts. */
  lemma RenewBlockTwice(lines: seq<string>, newVersion: string, marker: Option<string>, data: Option<string>)
    requires RenewBlock(lines, newVersion, marker, data).Ok?
    ensures var out := RenewBlock(lines, newVersion, marker, data).value;
      && (RenewBlock(out, newVersion, None, None) == Ok(out) <==> TargetLasts(lines, newVersion, marker, data))
      && (AnyTouched(out, |out|, |out|, None, newVersion) <==> !TargetLasts(lines, newVersion, marker, data))
      && NoMarkers(out, 0)
  {
    hide IsMarker, ItemOf, RenewFrom, IsBlockLine, LineLasts, Settled, Touched, AnyTouched;
    var out := RenewBlock(lines, newVersion, marker, data).value;
    var target := Target(lines, marker, data);
    assert out[0..] == out;
    RenewedLines(lines, 0, target, Given(marker, data), newVersion, out, 0);
    SettledStay(out, 0, newVersion);
    SettledUntouched(out, newVersion);
    if target < |lines| {
      TargetIsItem(lines, marker, data);
      MarkerIsNoItem(lines[target]);
    }
  }

  lemma TargetIsItem(lines: seq<string>, marker: Option<string>, data: Option<string>)
    requires Target(lines, marker, data) < |lines|
    ensures ItemOf(lines[Target(lines, marker, data)]).Some?
  {
    hide ItemOf, IsMarker;
  }

  // ----- updating a file twice -----

  lemma KeyIndexIs(lines: seq<string>, dep: string, i: nat, k: nat)
    requires i <= k < |lines| && IsKey(lines[k], dep) && forall j :: i <= j < k ==> !IsKey(lines[j], dep)
    ensures KeyIndex(lines, dep, i) == k
  {
    hide IsKey;
  }

  lemma BlockEndIs(lines: seq<string>, i: nat, k: nat)
    requires i <= k <= |lines| && (forall j :: i <= j < k ==> IsBlockLine(lines[j]))
      && (k < |lines| ==> !IsBlockLine(lines[k]))
    ensures BlockEnd(lines, i) == k
  {
    hide IsBlockLine;
  }

  lemma NoMarkerValue(block: seq<string>, dep: string, i: nat)
    requires i <= |block| && NoMarkers(block, 0)
    ensures MarkerValue(block, dep, i) == None
    decreases |block| - i
  {
    hide ParseMarker;
    if i < |block| {
      assert !IsMarker(block[i]);
      NoMarkerValue(block, dep, i + 1);
    }
  }

  /** A block that opens with no marker is renewed as one that opens with that line renewed, and the lines
      after it stay in the block. */
  lemma RenewedBlockKept(block: seq<string>, newVersion: string, marker: Option<string>, data: Option<string>)
    requires block != [] && !IsMarker(block[0]) && AllInBlock(block, 1)
    requires RenewBlock(block, newVersion, marker, data).Ok?
    ensures var out := RenewBlock(block, newVersion, marker, data).value;
      && out != [] && AllInBlock(out, 1)
      && (ItemOf(block[0]).None? ==> out[0] == block[0])
  {
    hide IsMarker, ItemOf, IsBlockLine, Settled, LineLasts;
    var out := RenewBlock(block, newVersion, marker, data).value;
    var target, given := Target(block, marker, data), Given(marker, data);
    var rest := RenewFrom(block, 1, target, given, newVersion).value;
    var line := RenewLine(block[0], if 0 == target then given else None, newVersion);
    assert out == [line.value] + rest;
    assert out[1..] == rest;
    RenewedLines(block, 1, target, given, newVersion, out, 1);
  }

  /** The spliced block is found again, exactly. */
  lemma FoundAgain(lines: seq<string>, dep: string, start: nat, end: nat, block: seq<string>)
    requires start == KeyIndex(lines, dep, 0) < |lines| && end == BlockEnd(lines, start + 1)
    requires block != [] && IsKey(block[0], dep) && AllInBlock(block, 1)
    ensures var after := lines[..start] + block + lines[end..];
      && KeyIndex(after, dep, 0) == start < |after| && BlockEnd(after, start + 1) == start + |block| <= |after|
      && after[start..start + |block|] == block
      && after[..start] == lines[..start] && after[start + |block|..] == lines[end..]
  {
    hide IsKey, IsBlockLine;
    var after, last := lines[..start] + block + lines[end..], start + |block|;
    assert forall j :: 0 <= j < start ==> after[j] == lines[j];
    assert after[start] == block[0];
    KeyIndexIs(after, dep, 0, start);
    assert forall j :: start + 1 <= j < last ==> after[j] == block[j - start];
    assert end < |lines| ==> after[last] == lines[end];
    BlockEndIs(after, start + 1, last);
  }

  /** Whether the value that the markers or the data file give lasts on the item that gets it. */
  ghost predicate GivenLasts(lines: seq<string>, dep: string, newVersion: string, data: Data) {
    var p := PlanOf(lines, dep, newVersion, data);
    p.Renewal? ==>
      var block := lines[p.start..p.end];
      TargetLasts(block, newVersion, MarkerValue(block, dep, 0), DataValue(data))
  }

  /** The line that opens the block, if there is one, is no marker, and still a key line when it is written.
      A key line that is no list item is written as it is. */
  ghost predicate KeyStays(lines: seq<string>, dep: string, newVersion: string, data: Data) {
    var p := PlanOf(lines, dep, newVersion, data);
    p.Renewal? ==> !IsMarker(lines[p.start]) && p.block != [] && IsKey(p.block[0], dep)
  }

  lemma OpensWith(lines: seq<string>, dep: string, newVersion: string, data: Data)
    requires PlanOf(lines, dep, newVersion, data).Renewal?
    ensures var p := PlanOf(lines, dep, newVersion, data);
      var block := lines[p.start..p.end];
      && p.start < p.end && block[0] == lines[p.start] && IsKey(block[0], dep) && AllInBlock(block, 1)
      && RenewBlock(block, newVersion, MarkerValue(block, dep, 0), DataValue(data)) == Ok(p.block)
  {
    hide IsKey, IsBlockLine, MarkerValue, RenewBlock, AnyTouched;
  }

  /** So it is for every name that begins neither like a comment nor like a list item. */
  lemma PlainKeyStays(lines: seq<string>, dep: string, newVersion: string, data: Data)
    requires PlainName(dep)
    ensures KeyStays(lines, dep, newVersion, data)
  {
    var p := PlanOf(lines, dep, newVersion, data);
    if p.Renewal? {
      hide PlanOf, IsKey, PlainName, IsMarker, ItemOf, MarkerValue, RenewBlock, AllInBlock;
      OpensWith(lines, dep, newVersion, data);
      KeyIsPlain(lines[p.start], dep);
      var block := lines[p.start..p.end];
      RenewedBlockKept(block, newVersion, MarkerValue(block, dep, 0), DataValue(data));
    }
  }

  /** The values in the file always last; so does a given one in which no comment seems to follow a
      quote. */
  lemma UpdateTwiceOpen(lines: seq<string>, dep: string, newVersion: string, data: Data)
    requires PlanOf(lines, dep, newVersion, data).Renewal?
    requires var p := PlanOf(lines, dep, newVersion, data);
      var given := Given(MarkerValue(lines[p.start..p.end], dep, 0), DataValue(data));
      given.Some? ==> !ClosesEarly(given.value, '"') && !ClosesEarly(given.value, '\'')
    ensures GivenLasts(lines, dep, newVersion, data)
  {
    hide KeyIndex, BlockEnd, RenewBlock, AnyTouched, MarkerValue, ClosesEarly, Lasting, Target, IsMarker, ItemOf;
    var p := PlanOf(lines, dep, newVersion, data);
    var block, value := lines[p.start..p.end], DataValue(data);
    var given, target := Given(MarkerValue(block, dep, 0), value), Target(block, MarkerValue(block, dep, 0), value);
    if given.Some? && target < |block| && ItemOf(block[target]).Some? {
      var item := ItemOf(block[target]).value;
      ItemRead(block[target]);
      QuoteOf(item);
      OpenLasts(given.value, item.quote, newVersion);
    }
  }
}
