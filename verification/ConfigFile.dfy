/** Rewriting the block of a dependency, and the file around it. */
module ConfigFile {
  import opened Wrappers
  import opened Constraints
  import opened ConfigLines

  // ----- one block -----

  /** The list item that gets a value from outside: with a marker value, the first one after the
      first marker; with a value from the data file only, the first one. |lines| when there is none. */
  function Target(lines: seq<string>, marker: Option<string>, data: Option<string>): nat {
    if marker.Some? then FirstItem(lines, FirstMarker(lines, 0))
    else if data.Some? then FirstItem(lines, 0)
    else |lines|
  }

  function Given(marker: Option<string>, data: Option<string>): Option<string> {
    if marker.Some? then marker else data
  }

  function FirstMarker(lines: seq<string>, i: nat): (k: nat)
    requires i <= |lines|
    ensures i <= k <= |lines|
    ensures forall j :: i <= j < k ==> !IsMarker(lines[j])
    ensures k < |lines| ==> IsMarker(lines[k])
    decreases |lines| - i
  {
    hide IsMarker;
    if i == |lines| || IsMarker(lines[i]) then i else FirstMarker(lines, i + 1)
  }

  function FirstItem(lines: seq<string>, i: nat): (k: nat)
    requires i <= |lines|
    ensures i <= k <= |lines|
    ensures forall j :: i <= j < k ==> ItemOf(lines[j]).None?
    ensures k < |lines| ==> ItemOf(lines[k]).Some?
    decreases |lines| - i
  {
    hide ItemOf;
    if i == |lines| || ItemOf(lines[i]).Some? then i else FirstItem(lines, i + 1)
  }

  /** One line that is not a marker: an item has its value renewed, or the given one. */
  function RenewLine(line: string, given: Option<string>, newVersion: string): Result<string> {
    match ItemOf(line)
    case None => Ok(line)
    case Some(item) =>
      match ReplaceLast(if given.Some? then given.value else item.value, newVersion)
      case Ok(v) => Ok(PrintItem(item.(value := v)))
      case Err(e) => Err(e)
  }

  /** The lines from i on, markers dropped, each other one renewed by itself; only the target is
      given a value. The first failure is the failure. */
  function RenewFrom(lines: seq<string>, i: nat, target: nat, given: Option<string>,
                     newVersion: string): Result<seq<string>>
    requires i <= |lines|
    decreases |lines| - i
  {
    if i == |lines| then Ok([])
    else if IsMarker(lines[i]) then RenewFrom(lines, i + 1, target, given, newVersion)
    else
      var line := RenewLine(lines[i], if i == target then given else None, newVersion);
      Joined(line, RenewFrom(lines, i + 1, target, given, newVersion))
  }

  /** A line and the lines after it, or the first failure. */
  function Joined(line: Result<string>, rest: Result<seq<string>>): Result<seq<string>> {
    if line.Err? then Err(line.message) else if rest.Err? then rest else Ok([line.value] + rest.value)
  }

  lemma JoinedIs(line: Result<string>, rest: Result<seq<string>>, out: seq<string>)
    requires out != []
    ensures Joined(line, rest) == Ok(out) <==> line == Ok(out[0]) && rest == Ok(out[1..])
  {
    if line.Ok? && rest.Ok? {
      var both := [line.value] + rest.value;
      assert both[0] == line.value && both[1..] == rest.value;
      assert out == [out[0]] + out[1..];
    }
  }

  function RenewBlock(lines: seq<string>, newVersion: string, marker: Option<string>,
                      data: Option<string>): Result<seq<string>> {
    RenewFrom(lines, 0, Target(lines, marker, data), Given(marker, data), newVersion)
  }

  lemma MarkerIsNoItem(line: string)
    ensures !(IsMarker(line) && ItemOf(line).Some?)
  {
    if IsMarker(line) && ItemOf(line).Some? {
      MarkerFirst(line);
      ItemFirst(line);
    }
  }

  /** Whether line j counts as changed: a marker, or an item whose value is renewed to another. */
  predicate Touched(lines: seq<string>, j: nat, target: nat, given: Option<string>, newVersion: string)
    requires j < |lines|
  {
    IsMarker(lines[j]) ||
    (ItemOf(lines[j]).Some? &&
     var value := if j == target && given.Some? then given.value else ItemOf(lines[j]).value.value;
     ReplaceLast(value, newVersion) != Ok(value))
  }

  predicate AnyTouched(lines: seq<string>, n: nat, target: nat, given: Option<string>, newVersion: string)
    requires n <= |lines|
  {
    exists j: nat :: j < n && Touched(lines, j, target, given, newVersion)
  }

  function Prepend(done: seq<string>, rest: Result<seq<string>>): Result<seq<string>> {
    if rest.Err? then rest else Ok(done + rest.value)
  }

  lemma RenewNext(lines: seq<string>, i: nat, target: nat, given: Option<string>, newVersion: string, done: seq<string>)
    requires i < |lines| && !IsMarker(lines[i])
    ensures var line := RenewLine(lines[i], if i == target then given else None, newVersion);
      Prepend(done, RenewFrom(lines, i, target, given, newVersion))
      == if line.Err? then Err(line.message)
         else Prepend(done + [line.value], RenewFrom(lines, i + 1, target, given, newVersion))
  {
    hide RenewLine;
    var line := RenewLine(lines[i], if i == target then given else None, newVersion);
    var rest := RenewFrom(lines, i + 1, target, given, newVersion);
    if line.Ok? && rest.Ok? {
      assert done + ([line.value] + rest.value) == done + [line.value] + rest.value;
    }
  }

  /** _updated_block_lines: flags carried from line to line pick the same single target. */
  method UpdatedBlockLines(lines: seq<string>, newVersion: string, marker: Option<string>, data: Option<string>)
    returns (r: Result<seq<string>>, changed: bool)
    ensures r == RenewBlock(lines, newVersion, marker, data)
    ensures r.Ok? ==>
      (changed <==> AnyTouched(lines, |lines|, Target(lines, marker, data), Given(marker, data), newVersion))
  {
    hide IsMarker, ItemOf, ReplaceLast, PrintItem, RenewFrom;
    ghost var target, given := Target(lines, marker, data), Given(marker, data);
    var updatedLines: seq<string> := [];
    changed := false;
    var markerUsed, applyMarkerToNext := false, false;
    PrependNothing(RenewFrom(lines, 0, target, given, newVersion));
    for i := 0 to |lines|
      invariant markerUsed <==> target < i
      invariant marker.Some? && !markerUsed ==> (applyMarkerToNext <==> FirstMarker(lines, 0) < i)
      invariant changed <==> AnyTouched(lines, i, target, given, newVersion)
      invariant RenewBlock(lines, newVersion, marker, data)
        == Prepend(updatedLines, RenewFrom(lines, i, target, given, newVersion))
    {
      var line := lines[i];
      AnyTouchedNext(lines, i, target, given, newVersion);
      if IsMarker(line) {
        MarkerIsNoItem(line);
        RenewSkip(lines, i, target, given, newVersion);
        changed := true;
        if marker.Some? {
          applyMarkerToNext := true;
        }
        continue;
      }
      RenewNext(lines, i, target, given, newVersion, updatedLines);
      var item := ItemOf(line);
      if item.None? {
        updatedLines := updatedLines + [line];
        continue;
      }
      var value := item.value.value;
      if marker.Some? && applyMarkerToNext && !markerUsed {
        value := marker.value;
        markerUsed := true;
        applyMarkerToNext := false;
      } else if marker.None? && data.Some? && !markerUsed {
        value := data.value;
        markerUsed := true;
      }
      var updatedValue := ReplaceLastUpperBound(value, newVersion);
      if updatedValue.Err? {
        return Err(updatedValue.message), changed;
      }
      if updatedValue.value != value {
        changed := true;
      }
      updatedLines := updatedLines + [PrintItem(item.value.(value := updatedValue.value))];
    }
    RenewEnd(lines, target, given, newVersion);
    r := Ok(updatedLines);
    assert updatedLines + [] == updatedLines;
  }

  lemma AnyTouchedNext(lines: seq<string>, n: nat, target: nat, given: Option<string>, newVersion: string)
    requires n < |lines|
    ensures AnyTouched(lines, n + 1, target, given, newVersion)
      <==> AnyTouched(lines, n, target, given, newVersion) || Touched(lines, n, target, given, newVersion)
  {
    hide Touched;
  }

  lemma PrependNothing(rest: Result<seq<string>>)
    ensures Prepend([], rest) == rest
  {
    assert rest.Ok? ==> [] + rest.value == rest.value;
  }

  lemma RenewSkip(lines: seq<string>, i: nat, target: nat, given: Option<string>, newVersion: string)
    requires i < |lines| && IsMarker(lines[i])
    ensures RenewFrom(lines, i, target, given, newVersion) == RenewFrom(lines, i + 1, target, given, newVersion)
  {
  }

  lemma RenewEnd(lines: seq<string>, target: nat, given: Option<string>, newVersion: string)
    ensures RenewFrom(lines, |lines|, target, given, newVersion) == Ok([])
  {
  }

  // ----- what the rewriter keeps -----

  /** How many of the first n lines are no markers. */
  function Kept(lines: seq<string>, n: nat): nat
    requires n <= |lines|
  {
    if n == 0 then 0 else Kept(lines, n - 1) + (if IsMarker(lines[n - 1]) then 0 else 1)
  }

  lemma {:induction false} KeptFrom(lines: seq<string>, i: nat, target: nat, given: Option<string>, newVersion: string,
                                    j: nat)
    requires i <= j < |lines| && RenewFrom(lines, i, target, given, newVersion).Ok? && !IsMarker(lines[j])
    ensures var out := RenewFrom(lines, i, target, given, newVersion).value;
      && Kept(lines, i) <= Kept(lines, j) < Kept(lines, i) + |out|
      && RenewLine(lines[j], if j == target then given else None, newVersion)
        == Ok(out[Kept(lines, j) - Kept(lines, i)])
    decreases j - i
  {
    hide IsMarker, RenewLine;
    assert Kept(lines, i + 1) == Kept(lines, i) + if IsMarker(lines[i]) then 0 else 1;
    if i < j {
      KeptFrom(lines, i + 1, target, given, newVersion, j);
    }
  }

  lemma {:induction false} KeptAll(lines: seq<string>, i: nat, target: nat, given: Option<string>, newVersion: string)
    requires i <= |lines| && RenewFrom(lines, i, target, given, newVersion).Ok?
    ensures Kept(lines, i) + |RenewFrom(lines, i, target, given, newVersion).value| == Kept(lines, |lines|)
    decreases |lines| - i
  {
    hide IsMarker, RenewLine;
    if i < |lines| {
      assert Kept(lines, i + 1) == Kept(lines, i) + if IsMarker(lines[i]) then 0 else 1;
      KeptAll(lines, i + 1, target, given, newVersion);
    }
  }

  /** The output is the lines that are no markers, in order: as they are unless they are items, and
      with nothing but the value of an item renewed. Only the target takes a given value. */
  lemma RewriterFrame(lines: seq<string>, newVersion: string, marker: Option<string>, data: Option<string>, j: nat)
    requires j < |lines| && !IsMarker(lines[j]) && RenewBlock(lines, newVersion, marker, data).Ok?
    ensures var out, item := RenewBlock(lines, newVersion, marker, data).value, ItemOf(lines[j]);
      && Kept(lines, j) < |out| == Kept(lines, |lines|)
      && var line := out[Kept(lines, j)];
      && (item.None? ==> line == lines[j])
      && (item.Some? ==>
           var value := if j == Target(lines, marker, data) then Given(marker, data).value else item.value.value;
           ReplaceLast(value, newVersion).Ok?
             && line == PrintItem(item.value.(value := ReplaceLast(value, newVersion).value)))
  {
    hide IsMarker, ItemOf, ReplaceLast, PrintItem, RenewFrom;
    var target, given := Target(lines, marker, data), Given(marker, data);
    KeptFrom(lines, 0, target, given, newVersion, j);
    KeptAll(lines, 0, target, given, newVersion);
  }

  // ----- the block in the file -----

  function KeyIndex(lines: seq<string>, dep: string, i: nat): (k: nat)
    requires i <= |lines|
    ensures i <= k <= |lines| && (forall j :: i <= j < k ==> !IsKey(lines[j], dep))
      && (k < |lines| ==> IsKey(lines[k], dep))
    decreases |lines| - i
  {
    hide IsKey;
    if i == |lines| || IsKey(lines[i], dep) then i else KeyIndex(lines, dep, i + 1)
  }

  function BlockEnd(lines: seq<string>, i: nat): (k: nat)
    requires i <= |lines|
    ensures i <= k <= |lines| && (forall j :: i <= j < k ==> IsBlockLine(lines[j]))
    ensures k < |lines| ==> !IsBlockLine(lines[k])
    decreases |lines| - i
  {
    hide IsBlockLine;
    if i == |lines| || !IsBlockLine(lines[i]) then i else BlockEnd(lines, i + 1)
  }

  /** _find_block: the first key line and the block lines after it. */
  method FindBlock(lines: seq<string>, dep: string) returns (block: Option<(nat, nat)>)
    ensures var k := KeyIndex(lines, dep, 0);
      block == if k == |lines| then None else Some((k, BlockEnd(lines, k + 1)))
  {
    hide IsKey, IsBlockLine;
    for index := 0 to |lines|
      invariant forall j :: 0 <= j < index ==> !IsKey(lines[j], dep)
    {
      if IsKey(lines[index], dep) {
        var end := index + 1;
        while end < |lines| && IsBlockLine(lines[end])
          invariant index < end <= |lines|
          invariant forall j :: index < j < end ==> IsBlockLine(lines[j])
        {
          end := end + 1;
        }
        return Some((index, end));
      }
    }
    return None;
  }

  /** The current value of the first marker from i on that names the dependency. */
  function MarkerValue(block: seq<string>, dep: string, i: nat): Option<string>
    requires i <= |block|
    decreases |block| - i
  {
    if i == |block| then None
    else
      var m := ParseMarker(block[i]);
      if m.Some? && m.value.dep == dep then Some(m.value.currentValue) else MarkerValue(block, dep, i + 1)
  }

  /** The data file: absent, or present with or without a current value for this dependency. */
  datatype Data = NoFile | File(currentValue: Option<string>)

  function DataValue(data: Data): Option<string> {
    match data
    case NoFile => None
    case File(v) => if v.Some? && v.value != [] then v else None
  }

  /** What happens to one file: nothing to update, a refusal, or the block replaced by its renewal. */
  datatype Plan = Absent | Refused(message: string) | Renewal(start: nat, end: nat, block: seq<string>, touched: bool)

  /** The plan of _update_file for the lines of a file. */
  ghost function PlanOf(lines: seq<string>, dep: string, newVersion: string, data: Data): (p: Plan)
    ensures p.Renewal? ==> p.start < p.end <= |lines|
  {
    var start := KeyIndex(lines, dep, 0);
    if start == |lines| then Absent else
    var end := BlockEnd(lines, start + 1);
    var block := lines[start..end];
    var marker := MarkerValue(block, dep, 0);
    if data.File? && DataValue(data).None? && marker.None? then Refused(NO_VALUE)
    else
      var renewed := RenewBlock(block, newVersion, marker, DataValue(data));
      if renewed.Err? then Refused(renewed.message)
      else
        var target, given := Target(block, marker, DataValue(data)), Given(marker, DataValue(data));
        Renewal(start, end, renewed.value, AnyTouched(block, |block|, target, given, newVersion))
  }

  const NO_VALUE := "Post-upgrade data file missing currentValue"

  /** The lines a file holds after the update. */
  ghost function UpdatedFile(lines: seq<string>, dep: string, newVersion: string, data: Data): Result<seq<string>> {
    match PlanOf(lines, dep, newVersion, data)
    case Absent => Ok(lines)
    case Refused(message) => Err(message)
    case Renewal(start, end, block, _) => Ok(lines[..start] + block + lines[end..])
  }

  /** Whether the update says that it changed the file. */
  ghost predicate SaysChanged(lines: seq<string>, dep: string, newVersion: string, data: Data) {
    var p := PlanOf(lines, dep, newVersion, data);
    p.Renewal? && (p.touched || p.block != lines[p.start..p.end])
  }

  method FirstMarkerValue(block: seq<string>, dep: string) returns (v: Option<string>)
    ensures v == MarkerValue(block, dep, 0)
  {
    hide ParseMarker;
    for i := 0 to |block|
      invariant MarkerValue(block, dep, 0) == MarkerValue(block, dep, i)
    {
      var m := ParseMarker(block[i]);
      if m.Some? && m.value.dep == dep {
        return Some(m.value.currentValue);
      }
    }
    return None;
  }
}
