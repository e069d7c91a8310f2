/** What an update writes, said of the lines and characters of the file. */
module ConfigEffects {
  import opened Wrappers
  import opened Constraints
  import opened ConfigLines
  import opened ConfigFile
  import opened ConfigText
  import opened TextLines
  import opened LineText

  // ----- the block -----

  /** The block of a dependency: its first key line, and the longest run of block lines after it. */
  ghost predicate BlockAt(lines: seq<string>, dep: string, start: nat, end: nat) {
    && start < end <= |lines| && IsKey(lines[start], dep)
    && (forall j :: 0 <= j < start ==> !IsKey(lines[j], dep))
    && (forall j :: start < j < end ==> IsBlockLine(lines[j]))
    && (end < |lines| ==> !IsBlockLine(lines[end]))
  }

  lemma BlockIs(lines: seq<string>, dep: string, start: nat, end: nat)
    requires BlockAt(lines, dep, start, end)
    ensures KeyIndex(lines, dep, 0) == start && BlockEnd(lines, start + 1) == end
  {
    hide IsKey, IsBlockLine;
    var k := KeyIndex(lines, dep, 0);
    assert !(k < start) && !(start < k);
    var e := BlockEnd(lines, start + 1);
    assert !(e < end) && !(end < e);
  }

  // ----- which item is given which value -----

  ghost predicate Names(line: string, dep: string) {
    ParseMarker(line).Some? && ParseMarker(line).value.dep == dep
  }

  /** The first marker that names the dependency gives this value. */
  ghost predicate NamedAt(block: seq<string>, dep: string, m: nat, v: string) {
    && m < |block| && ParseMarker(block[m]) == Some(Marker(dep, v))
    && forall j :: 0 <= j < m ==> !Names(block[j], dep)
  }

  ghost predicate Unnamed(block: seq<string>, dep: string) {
    forall j :: 0 <= j < |block| ==> !Names(block[j], dep)
  }

  /** The first item from k on. */
  ghost predicate ItemFrom(block: seq<string>, k: nat, t: nat) {
    k <= t < |block| && ItemOf(block[t]).Some? && forall j :: k <= j < t ==> ItemOf(block[j]).None?
  }

  /** The first marker of the block, of whatever dependency. */
  ghost predicate MarkerFirstAt(block: seq<string>, k: nat) {
    k < |block| && IsMarker(block[k]) && forall j :: 0 <= j < k ==> !IsMarker(block[j])
  }

  /** The item t is given the value v: from a marker when there is one of this dependency, and then it is the first
      item after the first marker; otherwise from the data file, and then it is the first item. */
  ghost predicate Takes(block: seq<string>, dep: string, data: Data, t: nat, v: string) {
    || (exists m: nat, k: nat :: NamedAt(block, dep, m, v) && MarkerFirstAt(block, k) && ItemFrom(block, k, t))
    || (Unnamed(block, dep) && data == File(Some(v)) && v != "" && ItemFrom(block, 0, t))
  }

  lemma {:induction false} MarkerValueFrom(block: seq<string>, dep: string, i: nat, m: nat, v: string)
    requires i <= m && NamedAt(block, dep, m, v)
    ensures MarkerValue(block, dep, i) == Some(v)
    decreases m - i
  {
    hide ParseMarker;
    if i < m {
      assert !Names(block[i], dep);
      MarkerValueFrom(block, dep, i + 1, m, v);
    }
  }

  lemma {:induction false} NoMarkerFrom(block: seq<string>, dep: string, i: nat)
    requires i <= |block| && Unnamed(block, dep)
    ensures MarkerValue(block, dep, i) == None
    decreases |block| - i
  {
    hide ParseMarker;
    if i < |block| {
      assert !Names(block[i], dep);
      NoMarkerFrom(block, dep, i + 1);
    }
  }

  /** Either no marker from i on names the dependency, or a first one does. */
  lemma {:induction false} NamedOrNot(block: seq<string>, dep: string, i: nat) returns (m: nat)
    requires i <= |block|
    ensures i <= m <= |block| && (forall j :: i <= j < m ==> !Names(block[j], dep))
    ensures m < |block| ==> Names(block[m], dep)
    decreases |block| - i
  {
    hide Names;
    if i == |block| || Names(block[i], dep) {
      m := i;
    } else {
      m := NamedOrNot(block, dep, i + 1);
    }
  }

  lemma FirstItemIs(block: seq<string>, k: nat, t: nat)
    requires k <= |block|
    ensures ItemFrom(block, k, t) <==> t == FirstItem(block, k) < |block|
  {
    hide ItemOf;
  }

  lemma FirstMarkerIs(block: seq<string>, k: nat)
    ensures MarkerFirstAt(block, k) <==> k == FirstMarker(block, 0) < |block|
  {
    hide IsMarker;
  }

  /** The first naming marker is a marker, so there is a first one. */
  lemma NamedMarker(block: seq<string>, dep: string, m: nat, v: string)
    requires NamedAt(block, dep, m, v)
    ensures FirstMarker(block, 0) < |block|
  {
    hide ParseMarker;
    assert IsMarker(block[m]);
  }

  /** The rewriter gives v to the item t exactly then. */
  lemma TakesExactly(block: seq<string>, dep: string, data: Data, t: nat, v: string)
    ensures var marker := MarkerValue(block, dep, 0);
      Takes(block, dep, data, t, v) <==>
        (t == Target(block, marker, DataValue(data)) < |block| && Given(marker, DataValue(data)) == Some(v))
  {
    hide ParseMarker, ItemOf, IsMarker, FirstItem, FirstMarker, ItemFrom, MarkerFirstAt, MarkerValue;
    var m := NamedOrNot(block, dep, 0);
    if m < |block| {
      var w := ParseMarker(block[m]).value.currentValue;
      MarkerNamed(block, dep, data, t, v, m, w);
    } else {
      assert Unnamed(block, dep);
      NoMarkerFrom(block, dep, 0);
      FirstItemIs(block, 0, t);
    }
  }

  lemma MarkerNamed(block: seq<string>, dep: string, data: Data, t: nat, v: string, m: nat, w: string)
    requires NamedAt(block, dep, m, w)
    ensures MarkerValue(block, dep, 0) == Some(w)
    ensures Takes(block, dep, data, t, v) <==> t == Target(block, Some(w), DataValue(data)) < |block| && v == w
  {
    hide ParseMarker, ItemOf, IsMarker, FirstItem, FirstMarker, ItemFrom, MarkerFirstAt, MarkerValue;
    MarkerValueFrom(block, dep, 0, m, w);
    NamedMarker(block, dep, m, w);
    assert Names(block[m], dep);
    var k := FirstMarker(block, 0);
    FirstMarkerIs(block, k);
    FirstItemIs(block, k, t);
    if Takes(block, dep, data, t, v) {
      var n: nat, h: nat :| NamedAt(block, dep, n, v) && MarkerFirstAt(block, h) && ItemFrom(block, h, t);
      MarkerValueFrom(block, dep, 0, n, v);
      FirstMarkerIs(block, h);
    }
  }

  // ----- what is written -----

  /** The value that an item is renewed from: the one it is given, or its own. */
  ghost predicate From(block: seq<string>, dep: string, data: Data, t: nat, v: string)
    requires t < |block| && ItemOf(block[t]).Some?
  {
    Takes(block, dep, data, t, v)
    || (v == ItemOf(block[t]).value.value && forall w :: !Takes(block, dep, data, t, w))
  }

  /** The lines that replace a block: the markers are gone, every item has its value renewed, and all else stays, in
      the old order. */
  ghost predicate WrittenAs(block: seq<string>, dep: string, newVersion: string, data: Data, out: seq<string>) {
    && |out| == Kept(block, |block|)
    && forall j: nat :: j < |block| && !IsMarker(block[j]) ==>
         && Kept(block, j) < |out|
         && (ItemOf(block[j]).None? ==> out[Kept(block, j)] == block[j])
         && (ItemOf(block[j]).Some? ==>
              forall v :: From(block, dep, data, j, v) ==>
                && ReplaceLast(v, newVersion).Ok?
                && out[Kept(block, j)]
                   == PrintItem(ItemOf(block[j]).value.(value := ReplaceLast(v, newVersion).value)))
  }

  lemma FromIs(block: seq<string>, dep: string, data: Data, t: nat, v: string)
    requires t < |block| && ItemOf(block[t]).Some?
    ensures var marker := MarkerValue(block, dep, 0);
      var target := Target(block, marker, DataValue(data));
      (t == target ==> Given(marker, DataValue(data)).Some?) &&
      (From(block, dep, data, t, v) <==>
           v == if t == target then Given(marker, DataValue(data)).value else ItemOf(block[t]).value.value)
  {
    hide ParseMarker, ItemOf, IsMarker, FirstItem, FirstMarker, MarkerValue, Takes;
    var marker, value := MarkerValue(block, dep, 0), DataValue(data);
    forall w
      ensures Takes(block, dep, data, t, w) <==> (t == Target(block, marker, value) && Given(marker, value) == Some(w))
    {
      TakesExactly(block, dep, data, t, w);
    }
  }

  /** There is one such value, and only one. */
  lemma OneValue(block: seq<string>, dep: string, data: Data, t: nat) returns (v: string)
    requires t < |block| && ItemOf(block[t]).Some?
    ensures From(block, dep, data, t, v) && forall w :: From(block, dep, data, t, w) ==> w == v
  {
    hide ItemOf, MarkerValue, Target, Given, DataValue, From;
    var marker, value := MarkerValue(block, dep, 0), DataValue(data);
    v := ItemOf(block[t]).value.value;
    FromIs(block, dep, data, t, v);
    if t == Target(block, marker, value) {
      v := Given(marker, value).value;
    }
    FromIs(block, dep, data, t, v);
    forall w | From(block, dep, data, t, w) ensures w == v {
      FromIs(block, dep, data, t, w);
    }
  }

  lemma TargetGiven(block: seq<string>, marker: Option<string>, data: Option<string>)
    ensures Target(block, marker, data) < |block| ==> Given(marker, data).Some?
  {
    hide FirstItem, FirstMarker;
  }

  lemma BlockWritten(block: seq<string>, dep: string, newVersion: string, data: Data)
    requires RenewBlock(block, newVersion, MarkerValue(block, dep, 0), DataValue(data)).Ok?
    ensures WrittenAs(block, dep, newVersion, data,
                      RenewBlock(block, newVersion, MarkerValue(block, dep, 0), DataValue(data)).value)
  {
    hide IsMarker, ItemOf, ReplaceLast, PrintItem, RenewBlock, MarkerValue, Target, Given, From, Kept, DataValue;
    var marker, value := MarkerValue(block, dep, 0), DataValue(data);
    var out := RenewBlock(block, newVersion, marker, value).value;
    TargetGiven(block, marker, value);
    assert |out| == Kept(block, |block|) by { WrittenLength(block, newVersion, marker, value); }
    forall j: nat | j < |block| && !IsMarker(block[j])
      ensures Kept(block, j) < |out|
      ensures ItemOf(block[j]).None? ==> out[Kept(block, j)] == block[j]
      ensures ItemOf(block[j]).Some? ==>
        forall v :: From(block, dep, data, j, v) ==>
          && ReplaceLast(v, newVersion).Ok?
          && out[Kept(block, j)] == PrintItem(ItemOf(block[j]).value.(value := ReplaceLast(v, newVersion).value))
    {
      RewriterFrame(block, newVersion, marker, value, j);
      if ItemOf(block[j]).Some? {
        forall v | From(block, dep, data, j, v)
          ensures v == if j == Target(block, marker, value) then Given(marker, value).value
                       else ItemOf(block[j]).value.value
        {
          FromIs(block, dep, data, j, v);
        }
      }
    }
  }

  lemma WrittenLength(block: seq<string>, newVersion: string, marker: Option<string>, data: Option<string>)
    requires RenewBlock(block, newVersion, marker, data).Ok?
    ensures |RenewBlock(block, newVersion, marker, data).value| == Kept(block, |block|)
  {
    hide RenewFrom, Target, Given;
    KeptAll(block, 0, Target(block, marker, data), Given(marker, data), newVersion);
  }

  // ----- when the update is refused -----

  /** The value of an item that is to be renewed, or the new version, cannot be read. */
  ghost predicate Unreadable(block: seq<string>, dep: string, newVersion: string, data: Data, t: nat) {
    && t < |block| && !IsMarker(block[t]) && ItemOf(block[t]).Some?
    && exists v :: From(block, dep, data, t, v) && ReplaceLast(v, newVersion).Err?
  }

  lemma {:induction false} FailsFrom(lines: seq<string>, i: nat, target: nat, given: Option<string>, newVersion: string)
    requires i <= |lines|
    ensures RenewFrom(lines, i, target, given, newVersion).Err? <==>
      exists j: nat :: i <= j < |lines| && !IsMarker(lines[j])
        && RenewLine(lines[j], if j == target then given else None, newVersion).Err?
    decreases |lines| - i
  {
    hide IsMarker, RenewLine;
    if i < |lines| {
      FailsFrom(lines, i + 1, target, given, newVersion);
    }
  }

  lemma LineFails(block: seq<string>, dep: string, newVersion: string, data: Data, t: nat)
    requires t < |block| && !IsMarker(block[t])
    ensures var marker, value := MarkerValue(block, dep, 0), DataValue(data);
      var given := if t == Target(block, marker, value) then Given(marker, value) else None;
      RenewLine(block[t], given, newVersion).Err? <==> Unreadable(block, dep, newVersion, data, t)
  {
    hide IsMarker, ItemOf, ReplaceLast, PrintItem, MarkerValue, Target, Given, From, DataValue;
    if ItemOf(block[t]).Some? {
      var marker, value := MarkerValue(block, dep, 0), DataValue(data);
      TargetGiven(block, marker, value);
      var v := if t == Target(block, marker, value) then Given(marker, value).value else ItemOf(block[t]).value.value;
      FromIs(block, dep, data, t, ItemOf(block[t]).value.value);
      FromIs(block, dep, data, t, v);
      forall w | From(block, dep, data, t, w) ensures w == v {
        FromIs(block, dep, data, t, w);
      }
    }
  }

  lemma BlockFails(block: seq<string>, dep: string, newVersion: string, data: Data)
    ensures RenewBlock(block, newVersion, MarkerValue(block, dep, 0), DataValue(data)).Err? <==>
      exists t: nat :: Unreadable(block, dep, newVersion, data, t)
  {
    hide IsMarker, RenewLine, MarkerValue, Target, Given, From, DataValue, RenewFrom, ItemOf, ReplaceLast;
    var marker, value := MarkerValue(block, dep, 0), DataValue(data);
    FailsFrom(block, 0, Target(block, marker, value), Given(marker, value), newVersion);
    forall t: nat | t < |block| && !IsMarker(block[t])
      ensures var given := if t == Target(block, marker, value) then Given(marker, value) else None;
        RenewLine(block[t], given, newVersion).Err? <==> Unreadable(block, dep, newVersion, data, t)
    {
      LineFails(block, dep, newVersion, data, t);
    }
  }

  /** A data file that says nothing of the dependency, and no marker that does. */
  ghost predicate ValueMissing(block: seq<string>, dep: string, data: Data) {
    Unnamed(block, dep) && (data == File(None) || data == File(Some("")))
  }

  lemma MissingIs(block: seq<string>, dep: string, data: Data)
    ensures ValueMissing(block, dep, data) <==>
      data.File? && DataValue(data).None? && MarkerValue(block, dep, 0).None?
  {
    hide ParseMarker, MarkerValue;
    var m := NamedOrNot(block, dep, 0);
    if m < |block| {
      MarkerValueFrom(block, dep, 0, m, ParseMarker(block[m]).value.currentValue);
    } else {
      NoMarkerFrom(block, dep, 0);
    }
  }

  // ----- the whole update -----

  lemma NothingToUpdate(text: string, dep: string, newVersion: string, data: Data)
    requires var lines := ReadLines(text); forall j :: 0 <= j < |lines| ==> !IsKey(lines[j], dep)
    ensures UpdatedText(text, dep, newVersion, data) == Ok(text)
  {
    hide ReadLines, IsKey;
    assert KeyIndex(ReadLines(text), dep, 0) == |ReadLines(text)|;
    hide KeyIndex;
  }

  lemma PlanIs(lines: seq<string>, dep: string, newVersion: string, data: Data, start: nat, end: nat)
    requires BlockAt(lines, dep, start, end)
    ensures var p, block := PlanOf(lines, dep, newVersion, data), lines[start..end];
      && !p.Absent?
      && (p.Refused? <==>
           (ValueMissing(block, dep, data) || exists t: nat :: Unreadable(block, dep, newVersion, data, t)))
      && (p.Renewal? ==> p.start == start && p.end == end && WrittenAs(block, dep, newVersion, data, p.block))
  {
    BlockIs(lines, dep, start, end);
    var block := lines[start..end];
    hide *;
    BlockFails(block, dep, newVersion, data);
    MissingIs(block, dep, data);
    if RenewBlock(block, newVersion, MarkerValue(block, dep, 0), DataValue(data)).Ok? {
      BlockWritten(block, dep, newVersion, data);
    }
    PlanCases(lines, dep, newVersion, data, start, end);
  }

  lemma PlanCases(lines: seq<string>, dep: string, newVersion: string, data: Data, start: nat, end: nat)
    requires KeyIndex(lines, dep, 0) == start < |lines| && BlockEnd(lines, start + 1) == end
    ensures var p, block := PlanOf(lines, dep, newVersion, data), lines[start..end];
      var renewed := RenewBlock(block, newVersion, MarkerValue(block, dep, 0), DataValue(data));
      var missing := data.File? && DataValue(data).None? && MarkerValue(block, dep, 0).None?;
      && !p.Absent? && (p.Refused? <==> missing || renewed.Err?)
      && (p.Renewal? ==> p.start == start && p.end == end && renewed == Ok(p.block))
  {
    hide KeyIndex, BlockEnd, RenewBlock, MarkerValue, AnyTouched, Target, Given, DataValue;
  }

  /** What the update of a file with a block of the dependency refuses, and what it writes: the block is replaced as
      WrittenAs says, and the text stays as it was only when that changes no line. */
  lemma UpdateExactly(text: string, dep: string, newVersion: string, data: Data, start: nat, end: nat)
    requires BlockAt(ReadLines(text), dep, start, end)
    ensures var lines := ReadLines(text);
      var block, after := lines[start..end], UpdatedText(text, dep, newVersion, data);
      && (after.Err? <==>
           (ValueMissing(block, dep, data) || exists t: nat :: Unreadable(block, dep, newVersion, data, t)))
      && (after.Ok? ==> exists out ::
           && WrittenAs(block, dep, newVersion, data, out)
           && (after.value == Join(lines[..start] + out + lines[end..]) || (after.value == text && out == block)))
  {
    hide *;
    PlanIs(ReadLines(text), dep, newVersion, data, start, end);
    TextIs(text, dep, newVersion, data);
  }

  lemma TextIs(text: string, dep: string, newVersion: string, data: Data)
    ensures var lines := ReadLines(text);
      var p, after := PlanOf(lines, dep, newVersion, data), UpdatedText(text, dep, newVersion, data);
      && (p.Refused? <==> after.Err?)
      && (p.Renewal? && after.Ok? ==>
           || after.value == Join(lines[..p.start] + p.block + lines[p.end..])
           || (after.value == text && p.block == lines[p.start..p.end]))
  {
    hide ReadLines, PlanOf, Join;
  }

  lemma {:induction false} KeptLess(lines: seq<string>, m: nat, n: nat)
    requires m < n <= |lines| && IsMarker(lines[m])
    ensures Kept(lines, n) < n
  {
    hide IsMarker;
    KeptAtMost(lines, m);
    if m + 1 < n {
      KeptLess(lines, m, n - 1);
    }
  }

  lemma {:induction false} KeptAtMost(lines: seq<string>, n: nat)
    requires n <= |lines|
    ensures Kept(lines, n) <= n
  {
    hide IsMarker;
    if n > 0 {
      KeptAtMost(lines, n - 1);
    }
  }

  /** A marker line of the dependency before the first item: the update drops it, and the item, otherwise unchanged,
      gets the value of the marker with its last bound replaced. */
  lemma MarkerLineUpdates(text: string, dep: string, newVersion: string, data: Data, start: nat, end: nat, m: nat,
                          t: nat, indent: string, version: string, value: string)
    requires BlockAt(ReadLines(text), dep, start, end)
    requires Spaces(indent) && Word(dep) && Word(version)
    requires value != "" && !IsSpace(value[0]) && !IsSpace(value[|value| - 1])
    requires var block := ReadLines(text)[start..end];
      && MarkerFirstAt(block, m) && block[m] == MarkerLine(indent, dep, version, value) && ItemFrom(block, m, t)
    requires UpdatedText(text, dep, newVersion, data).Ok?
    ensures var lines := ReadLines(text);
      var block, item := lines[start..end], ItemOf(lines[start..end][t]).value;
      ReplaceLast(value, newVersion).Ok? && exists out: seq<string> ::
        && UpdatedText(text, dep, newVersion, data) == Ok(Join(lines[..start] + out + lines[end..]))
        && |out| == Kept(block, |block|) < |block| && Kept(block, t) < |out|
        && out[Kept(block, t)] == PrintItem(item.(value := ReplaceLast(value, newVersion).value))
  {
    var lines := ReadLines(text);
    var block := lines[start..end];
    hide *;
    MarkerRoundTrip(indent, dep, version, value);
    LineTakes(block, dep, data, m, t, value);
    UpdateExactly(text, dep, newVersion, data, start, end);
    var after := UpdatedText(text, dep, newVersion, data).value;
    var out :| WrittenAs(block, dep, newVersion, data, out)
      && (after == Join(lines[..start] + out + lines[end..]) || (after == text && out == block));
    WrittenItem(block, dep, newVersion, data, out, m, t, value);
  }

  lemma LineTakes(block: seq<string>, dep: string, data: Data, m: nat, t: nat, value: string)
    requires MarkerFirstAt(block, m) && ItemFrom(block, m, t) && ParseMarker(block[m]) == Some(Marker(dep, value))
    ensures Takes(block, dep, data, t, value)
  {
    hide ParseMarker, ItemOf;
    assert NamedAt(block, dep, m, value);
  }

  lemma WrittenItem(block: seq<string>, dep: string, newVersion: string, data: Data, out: seq<string>, m: nat, t: nat,
                    value: string)
    requires MarkerFirstAt(block, m) && ItemFrom(block, m, t) && Takes(block, dep, data, t, value)
    requires WrittenAs(block, dep, newVersion, data, out)
    ensures ReplaceLast(value, newVersion).Ok? && |out| == Kept(block, |block|) < |block| && Kept(block, t) < |out|
    ensures out[Kept(block, t)] == PrintItem(ItemOf(block[t]).value.(value := ReplaceLast(value, newVersion).value))
  {
    KeptLess(block, m, |block|);
    MarkerIsNoItem(block[t]);
    hide ItemOf, IsMarker, Takes, ReplaceLast, PrintItem, Kept;
    assert From(block, dep, data, t, value);
  }
}
