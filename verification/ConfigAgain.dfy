/** Updating a text a second time, with the same version and no data file. */
module ConfigAgain {
  import opened Wrappers
  import opened Constraints
  import opened ConfigLines
  import opened ConfigFile
  import opened ConfigTwice
  import opened TextLines
  import opened KeyMarkers
  import opened ConfigText

  // ----- reading what was written -----

  predicate AllPlain(lines: seq<string>, i: nat)
    requires i <= |lines|
  {
    forall j :: i <= j < |lines| ==> EndsPlain(lines[j])
  }

  predicate AllTerminated(lines: seq<string>, i: nat)
    requires i <= |lines|
  {
    forall j :: i <= j < |lines| ==> Terminated(lines[j])
  }

  /** A marker is no item, so its end does not matter. */
  lemma PlainNext(lines: seq<string>, i: nat)
    requires i < |lines|
    ensures AllPlain(lines, i) <==> EndsPlain(lines[i]) && AllPlain(lines, i + 1)
    ensures AllTerminated(lines, i) <==> Terminated(lines[i]) && AllTerminated(lines, i + 1)
    ensures IsMarker(lines[i]) ==> EndsPlain(lines[i])
  {
    MarkerIsNoItem(lines[i]);
    hide EndsPlain, Terminated, IsMarker, ItemOf;
    assert ItemOf(lines[i]).None? ==> EndsPlain(lines[i]) by {
      NoItemPlain(lines[i]);
    }
  }

  lemma NoItemPlain(line: string)
    ensures ItemOf(line).None? ==> EndsPlain(line)
  {
    hide ItemOf;
  }

  lemma TerminatedCons(a: string, rest: seq<string>)
    ensures AllTerminated([a] + rest, 0) <==> Terminated(a) && AllTerminated(rest, 0)
  {
    hide Terminated;
    var all := [a] + rest;
    assert forall j :: 0 <= j < |rest| ==> rest[j] == all[j + 1];
    assert forall j :: 0 < j < |all| ==> all[j] == rest[j - 1];
    assert all[0] == a;
  }

  /** When all items end plainly, the lines written are lines of a text. */
  lemma {:induction false} RenewedProper(lines: seq<string>, i: nat, target: nat, given: Option<string>,
                                         newVersion: string, rest: seq<string>)
    requires i <= |lines| && Proper(lines) && RenewFrom(lines, i, target, given, newVersion) == Ok(rest)
    requires GivenOpen(given) && AllPlain(lines, i)
    ensures Proper(rest) && (AllTerminated(lines, i) ==> AllTerminated(rest, 0))
    decreases |lines| - i
  {
    hide IsMarker, RenewFrom, RenewLine, ItemOf, ProperLine, Terminated, GivenOpen, EndsPlain, AllPlain, AllTerminated;
    if i == |lines| {
      RenewOver(lines, i, target, given, newVersion, rest);
      assert AllTerminated([], 0) by { NoneTerminated(); }
    } else {
      PlainNext(lines, i);
      RenewStep(lines, i, target, given, newVersion, rest);
      if IsMarker(lines[i]) {
        RenewedProper(lines, i + 1, target, given, newVersion, rest);
      } else {
        var g := if i == target then given else None;
        OneOpen(given, i == target);
        RenewedShape(lines[i], g, newVersion);
        RenewedProper(lines, i + 1, target, given, newVersion, rest[1..]);
        if i + 1 == |lines| {
          RenewOver(lines, i + 1, target, given, newVersion, rest[1..]);
        }
        ProperCons(rest[0], rest[1..]);
        TerminatedCons(rest[0], rest[1..]);
        assert rest == [rest[0]] + rest[1..];
      }
    }
  }

  lemma NoneTerminated()
    ensures AllTerminated([], 0)
  {
  }

  /** The first of the lines written that will be cut in two, when some item does not end plainly. */
  lemma {:induction false} FirstFrayed(lines: seq<string>, i: nat, target: nat, given: Option<string>,
                                       newVersion: string, rest: seq<string>) returns (x: nat)
    requires i <= |lines| && Proper(lines) && RenewFrom(lines, i, target, given, newVersion) == Ok(rest)
    requires GivenOpen(given) && !AllPlain(lines, i)
    ensures x < |rest| && Frayed(rest[x]) && ItemOf(rest[x]).Some? && PrintItem(ItemOf(rest[x]).value) == rest[x]
    ensures forall k :: 0 <= k < x ==> ProperLine(rest[k]) && Terminated(rest[k])
    decreases |lines| - i
  {
    hide IsMarker, RenewFrom, RenewLine, ItemOf, ProperLine, Terminated, GivenOpen, EndsPlain, PrintItem, Frayed;
    PlainNext(lines, i);
    RenewStep(lines, i, target, given, newVersion, rest);
    if IsMarker(lines[i]) {
      x := FirstFrayed(lines, i + 1, target, given, newVersion, rest);
    } else {
      var g := if i == target then given else None;
      OneOpen(given, i == target);
      RenewedShape(lines[i], g, newVersion);
      NoItemPlain(lines[i]);
      if EndsPlain(lines[i]) {
        var y := FirstFrayed(lines, i + 1, target, given, newVersion, rest[1..]);
        x := y + 1;
        forall k | 0 <= k < x ensures ProperLine(rest[k]) && Terminated(rest[k]) {
          if k > 0 {
            assert rest[k] == rest[1..][k - 1];
          }
        }
      } else {
        RenewedItem(lines[i], g, newVersion);
        x := 0;
      }
    }
  }

  lemma SpliceProper(lines: seq<string>, i: nat, j: nat, block: seq<string>)
    requires Proper(lines) && Proper(block) && i < j <= |lines|
    requires AllTerminated(lines[i..j], 0) ==> AllTerminated(block, 0)
    ensures Proper(lines[..i] + block + lines[j..])
  {
    hide ProperLine, Terminated;
    var after, n := lines[..i] + block + lines[j..], i + |block|;
    assert forall k :: 0 <= k < i ==> after[k] == lines[k];
    assert forall k :: i <= k < n ==> after[k] == block[k - i];
    assert forall k :: n <= k < |after| ==> after[k] == lines[k - n + j];
  }

  /** When all items in the block end plainly, what was written is read as the lines it was written from. */
  lemma PlainRead(lines: seq<string>, dep: string, newVersion: string, data: Data)
    requires Proper(lines) && NoReturns(lines) && GivenOpen(DataValue(data))
    requires var p := PlanOf(lines, dep, newVersion, data);
      p.Renewal? && AllPlain(lines[p.start..p.end], 0)
    ensures var after := UpdatedFile(lines, dep, newVersion, data).value;
      ReadLines(Join(after)) == after
  {
    hide *;
    var p := PlanOf(lines, dep, newVersion, data);
    var block, value := lines[p.start..p.end], DataValue(data);
    PlanParts(lines, dep, newVersion, data);
    PlanOpen(lines, dep, newVersion, data);
    var marker := MarkerValue(block, dep, 0);
    RenewedProper(block, 0, Target(block, marker, value), Given(marker, value), newVersion, p.block);
    SpliceProper(lines, p.start, p.end, p.block);
    AfterNoReturn(lines, dep, newVersion, data);
    ReadJoined(UpdatedFile(lines, dep, newVersion, data).value);
  }

  lemma ReadJoined(lines: seq<string>)
    requires Proper(lines) && '\r' !in Join(lines)
    ensures ReadLines(Join(lines)) == lines
  {
    TranslateNothing(Join(lines));
    LinesJoin(lines);
  }

  /** The lines written are calm exactly when the given value lasts. */
  lemma CalmAfter(lines: seq<string>, dep: string, newVersion: string, data: Data)
    requires PlanOf(lines, dep, newVersion, data).Renewal? && KeyStays(lines, dep, newVersion, data)
    ensures Calm(UpdatedFile(lines, dep, newVersion, data).value, dep, newVersion)
      <==> GivenLasts(lines, dep, newVersion, data)
  {
    hide *;
    var p := PlanOf(lines, dep, newVersion, data);
    var block, value := lines[p.start..p.end], DataValue(data);
    var marker := MarkerValue(block, dep, 0);
    PlanParts(lines, dep, newVersion, data);
    BlockKept(lines, dep, newVersion, data);
    FoundAgain(lines, dep, p.start, p.end, p.block);
    CalmBlock(UpdatedFile(lines, dep, newVersion, data).value, dep, newVersion, p.start, p.start + |p.block|);
    RenewBlockIs(block, newVersion, marker, value);
    RenewBlockTwice(block, newVersion, marker, value);
    SettledUntouched(p.block, newVersion);
    assert p.block[0..] == p.block;
    RenewedLines(block, 0, Target(block, marker, value), Given(marker, value), newVersion, p.block, 0);
    LastsIs(lines, dep, newVersion, data);
  }

  lemma RenewBlockIs(block: seq<string>, newVersion: string, marker: Option<string>, data: Option<string>)
    ensures RenewBlock(block, newVersion, marker, data)
      == RenewFrom(block, 0, Target(block, marker, data), Given(marker, data), newVersion)
  {
  }

  lemma LastsIs(lines: seq<string>, dep: string, newVersion: string, data: Data)
    requires PlanOf(lines, dep, newVersion, data).Renewal?
    ensures var p := PlanOf(lines, dep, newVersion, data);
      var block := lines[p.start..p.end];
      GivenLasts(lines, dep, newVersion, data)
      <==> TargetLasts(block, newVersion, MarkerValue(block, dep, 0), DataValue(data))
  {
    hide PlanOf, TargetLasts, MarkerValue;
  }

  /** The block written opens with a key line, and the lines after it stay in the block. */
  lemma BlockKept(lines: seq<string>, dep: string, newVersion: string, data: Data)
    requires PlanOf(lines, dep, newVersion, data).Renewal? && KeyStays(lines, dep, newVersion, data)
    ensures var p := PlanOf(lines, dep, newVersion, data);
      p.block != [] && IsKey(p.block[0], dep) && AllInBlock(p.block, 1)
  {
    var p := PlanOf(lines, dep, newVersion, data);
    hide PlanOf, MarkerValue, RenewBlock, ItemOf, IsMarker, IsKey, AllInBlock;
    OpensWith(lines, dep, newVersion, data);
    var block := lines[p.start..p.end];
    RenewedBlockKept(block, newVersion, MarkerValue(block, dep, 0), DataValue(data));
  }

  /** A frayed item, without its newline, is the same item, not printed as it reads. */
  lemma FrayedItem(o: string)
    requires Frayed(o) && ItemOf(o).Some? && PrintItem(ItemOf(o).value) == o
    ensures var b := o[..|o| - 1];
      ItemOf(b).Some? && PrintItem(ItemOf(b).value) != b
  {
    var b := o[..|o| - 1];
    assert b[|b| - 1] == o[|o| - 2];
    assert Chomp(o) == Chomp(b) == b;
    hide ParseItem, PrintItem;
  }

  lemma BlockPast(lines: seq<string>, i: nat, k: nat)
    requires i <= k < |lines| && forall j :: i <= j <= k ==> IsBlockLine(lines[j])
    ensures BlockEnd(lines, i) > k
    decreases k - i
  {
    hide IsBlockLine;
    if i < k {
      BlockPast(lines, i + 1, k);
    }
  }

  /** Lines with an item, in the block of the key line, that is not printed as it reads are not calm. */
  lemma NotCalm(lines: seq<string>, dep: string, newVersion: string, start: nat, k: nat)
    requires start <= k < |lines| && IsKey(lines[start], dep) && forall j :: 0 <= j < start ==> !IsKey(lines[j], dep)
    requires forall j :: start < j <= k ==> IsBlockLine(lines[j])
    requires ItemOf(lines[k]).Some? && PrintItem(ItemOf(lines[k]).value) != lines[k]
    ensures !Calm(lines, dep, newVersion)
  {
    hide *;
    KeyIndexIs(lines, dep, 0, start);
    if start < k {
      BlockPast(lines, start + 1, k);
    }
    var end := BlockEnd(lines, start + 1);
    CalmBlock(lines, dep, newVersion, start, end);
    NotWritten(lines[start..end], k - start);
  }

  lemma NotWritten(block: seq<string>, k: nat)
    requires k < |block| && ItemOf(block[k]).Some? && PrintItem(ItemOf(block[k]).value) != block[k]
    ensures !Written(block, 0)
  {
    hide ItemOf, PrintItem;
  }

  lemma ReadFrayed(head: seq<string>, o: string, tail: seq<string>)
    requires forall k :: 0 <= k < |head| ==> ProperLine(head[k]) && Terminated(head[k])
    requires Frayed(o) && '\r' !in Join(head + [o] + tail)
    ensures var b := o[..|o| - 1];
      && |ReadLines(Join(head + [o] + tail))| > |head|
      && ReadLines(Join(head + [o] + tail))[..|head|] == head && ReadLines(Join(head + [o] + tail))[|head|] == b
  {
    var b, s, t := o[..|o| - 1], Join(tail), Join(head + [o] + tail);
    FrayedParts(o);
    TranslateNothing(t);
    JoinAppend(head + [o], tail);
    JoinAppend(head, [o]);
    assert Join([o]) == o + "" == o;
    hide *;
    Reassociate(b, s);
    assert t == Join(head) + (b + ("\n" + s));
    LinesAfter(head, b + ("\n" + s));
    LinesCons(b, "\n" + s);
    ReadLinesIs(t);
  }

  lemma ReadLinesIs(text: string)
    requires Translate(text) == text
    ensures ReadLines(text) == Lines(text)
  {
  }

  lemma ItemInBlock(line: string)
    requires ItemOf(line).Some?
    ensures IsBlockLine(line)
  {
    hide ItemOf;
  }

  /** The lines before the first frayed one, in the file. */
  lemma HeadProper(lines: seq<string>, start: nat, out: seq<string>, x: nat)
    requires Proper(lines) && start < |lines| && x <= |out|
    requires forall k :: 0 <= k < x ==> ProperLine(out[k]) && Terminated(out[k])
    ensures var head := lines[..start] + out[..x];
      forall k :: 0 <= k < |head| ==> ProperLine(head[k]) && Terminated(head[k])
  {
    hide ProperLine, Terminated;
  }

  lemma SplitAt(pre: seq<string>, out: seq<string>, post: seq<string>, x: nat)
    requires x < |out|
    ensures pre + out + post == (pre + out[..x]) + [out[x]] + (out[x + 1..] + post)
  {
    assert out == out[..x] + [out[x]] + out[x + 1..];
  }

  /** A frayed line in the block written: the item is read without the newline that it was given. */
  lemma FrayedRead(lines: seq<string>, dep: string, newVersion: string, start: nat, post: seq<string>,
                   out: seq<string>, x: nat)
    requires Proper(lines) && KeyIndex(lines, dep, 0) == start < |lines|
    requires x < |out| && IsKey(out[0], dep) && AllInBlock(out, 1)
    requires Frayed(out[x]) && ItemOf(out[x]).Some? && PrintItem(ItemOf(out[x]).value) == out[x]
    requires forall k :: 0 <= k < x ==> ProperLine(out[k]) && Terminated(out[k])
    requires '\r' !in Join(lines[..start] + out + post)
    ensures !Calm(ReadLines(Join(lines[..start] + out + post)), dep, newVersion)
  {
    hide *;
    HeadProper(lines, start, out, x);
    SplitAt(lines[..start], out, post, x);
    ReadFrayed(lines[..start] + out[..x], out[x], out[x + 1..] + post);
    FrayedItem(out[x]);
    if x == 0 {
      FrayedParts(out[0]);
      KeyCut(out[0], dep);
    }
    FrayedBlock(lines, dep, newVersion, start, out, x, ReadLines(Join(lines[..start] + out + post)));
  }

  /** A key line without its newline is one. */
  lemma KeyCut(line: string, dep: string)
    requires IsKey(line, dep) && line != "" && line[|line| - 1] == '\n'
    ensures IsKey(line[..|line| - 1], dep)
  {
    var a, b := KeyParts(line, dep);
    var w := KeyWord(dep);
    if b == "" {
      LastOf(a, w, b);
    }
    var cut, rest := line[..|line| - 1], b[..|b| - 1];
    assert cut == a + (w + rest);
    hide IsSpace;
    KeyIs(cut, dep, a, rest);
  }

  lemma LastOf(a: string, w: string, b: string)
    requires w != "" && b == ""
    ensures (a + (w + b))[|a| + |w| - 1] == w[|w| - 1]
  {
  }

  lemma KeyIs(line: string, dep: string, a: string, b: string)
    requires line == a + (KeyWord(dep) + b)
    requires (forall j :: 0 <= j < |a| ==> IsSpace(a[j])) && forall j :: 0 <= j < |b| ==> IsSpace(b[j])
    ensures IsKey(line, dep)
  {
    var w, i := KeyWord(dep), |a|;
    hide IsSpace;
    assert line[i..i + |w|] == w && line[i + |w|..] == b;
    SkipIs(b, 0, |b|);
    FrontSkip(a, w + b);
    assert KeyAt(line, dep, i);
  }

  lemma HeadAt(again: seq<string>, lines: seq<string>, start: nat, out: seq<string>, x: nat)
    requires start <= |lines| && x <= |out| && start + x <= |again| && again[..start + x] == lines[..start] + out[..x]
    ensures forall j :: 0 <= j < start ==> again[j] == lines[j]
    ensures forall j :: start <= j < start + x ==> again[j] == out[j - start]
  {
    var head := lines[..start] + out[..x];
    assert forall j :: 0 <= j < start + x ==> again[j] == again[..start + x][j] == head[j];
  }

  lemma FrayedBlock(lines: seq<string>, dep: string, newVersion: string, start: nat, out: seq<string>, x: nat,
                    again: seq<string>)
    requires KeyIndex(lines, dep, 0) == start < |lines| && |again| > start + x
    requires x < |out| && AllInBlock(out, 1) && IsKey(if x == 0 then again[start] else out[0], dep)
    requires again[..start + x] == lines[..start] + out[..x]
    requires ItemOf(again[start + x]).Some? && PrintItem(ItemOf(again[start + x]).value) != again[start + x]
    ensures !Calm(again, dep, newVersion)
  {
    hide *;
    HeadAt(again, lines, start, out, x);
    ItemInBlock(again[start + x]);
    forall j | 0 <= j < start ensures !IsKey(again[j], dep) {
      assert again[j] == lines[j];
    }
    forall j | start < j <= start + x ensures IsBlockLine(again[j]) {
      if j < start + x {
        InBlockAt(out, j - start);
      }
    }
    if x > 0 {
      assert again[start] == out[start - start];
    }
    NotCalm(again, dep, newVersion, start, start + x);
  }

  lemma InBlockAt(lines: seq<string>, j: nat)
    requires 1 <= j < |lines| && AllInBlock(lines, 1)
    ensures IsBlockLine(lines[j])
  {
    hide IsBlockLine;
  }

  /** When some item in the block does not end plainly, what was written is not calm when it is read. */
  lemma FrayedNotCalm(lines: seq<string>, dep: string, newVersion: string, data: Data)
    requires Proper(lines) && NoReturns(lines) && GivenOpen(DataValue(data)) && KeyStays(lines, dep, newVersion, data)
    requires var p := PlanOf(lines, dep, newVersion, data);
      p.Renewal? && !AllPlain(lines[p.start..p.end], 0)
    ensures !Calm(ReadLines(Join(UpdatedFile(lines, dep, newVersion, data).value)), dep, newVersion)
  {
    hide *;
    var p := PlanOf(lines, dep, newVersion, data);
    var block, value := lines[p.start..p.end], DataValue(data);
    PlanParts(lines, dep, newVersion, data);
    PlanOpen(lines, dep, newVersion, data);
    BlockKept(lines, dep, newVersion, data);
    AfterNoReturn(lines, dep, newVersion, data);
    var marker := MarkerValue(block, dep, 0);
    var x := FirstFrayed(block, 0, Target(block, marker, value), Given(marker, value), newVersion, p.block);
    FrayedRead(lines, dep, newVersion, p.start, lines[p.end..], p.block, x);
  }

  /** Every item in the block of the name ends at a newline, or at the end of the file. */
  ghost predicate BlockPlain(lines: seq<string>, dep: string) {
    var start := KeyIndex(lines, dep, 0);
    start < |lines| ==> AllPlain(lines[start..BlockEnd(lines, start + 1)], 0)
  }

  /** What a second run reads is calm exactly when the given value lasts and the items end plainly. */
  lemma CalmOnceUpdated(lines: seq<string>, dep: string, newVersion: string, data: Data)
    requires Proper(lines) && NoReturns(lines) && GivenOpen(DataValue(data)) && KeyStays(lines, dep, newVersion, data)
    requires UpdatedFile(lines, dep, newVersion, data).Ok?
    ensures Calm(ReadLines(Join(UpdatedFile(lines, dep, newVersion, data).value)), dep, newVersion)
      <==> GivenLasts(lines, dep, newVersion, data) && BlockPlain(lines, dep)
  {
    var p := PlanOf(lines, dep, newVersion, data);
    if p.Renewal? {
      assert BlockPlain(lines, dep) <==> AllPlain(lines[p.start..p.end], 0) by {
        PlanParts(lines, dep, newVersion, data);
        hide PlanOf, KeyIndex, BlockEnd, UpdatedFile, AllPlain;
      }
      hide *;
      if AllPlain(lines[p.start..p.end], 0) {
        PlainRead(lines, dep, newVersion, data);
        CalmAfter(lines, dep, newVersion, data);
      } else {
        FrayedNotCalm(lines, dep, newVersion, data);
      }
    } else {
      AbsentFile(lines, dep, newVersion, data);
      hide *;
      NoReturnJoin(lines) by { NoReturnsIs(lines); }
      ReadJoined(lines);
    }
  }

  lemma NoReturnsIs(lines: seq<string>)
    ensures NoReturns(lines) <==> forall j :: 0 <= j < |lines| ==> '\r' !in lines[j]
  {
  }

  lemma AbsentFile(lines: seq<string>, dep: string, newVersion: string, data: Data)
    requires PlanOf(lines, dep, newVersion, data).Absent?
    ensures UpdatedFile(lines, dep, newVersion, data) == Ok(lines) && !SaysChanged(lines, dep, newVersion, data)
    ensures GivenLasts(lines, dep, newVersion, data) && BlockPlain(lines, dep) && Calm(lines, dep, newVersion)
  {
    hide KeyIndex, BlockEnd, MarkerValue, RenewBlock, AnyTouched;
  }

  /** What a second run reads: the text written, or the text that was left as it was. */
  lemma ReadAgain(text: string, dep: string, newVersion: string, data: Data)
    requires UpdatedText(text, dep, newVersion, data).Ok?
    ensures UpdatedFile(ReadLines(text), dep, newVersion, data).Ok?
    ensures ReadLines(UpdatedText(text, dep, newVersion, data).value)
      == ReadLines(Join(UpdatedFile(ReadLines(text), dep, newVersion, data).value))
  {
    hide UpdatedFile, SaysChanged, ReadLines, Join;
    var lines := ReadLines(text);
    if !SaysChanged(lines, dep, newVersion, data) {
      SaysSame(lines, dep, newVersion, data);
      ReadProper(text);
      NoReturnJoin(lines);
      ReadJoined(lines);
    }
  }

  /** A second update of the text with the same version and no data file leaves it alone, and says so,
      exactly when the given value, if any, lasts and every item in the block ends plainly. */
  lemma UpdateTwice(text: string, dep: string, newVersion: string, data: Data)
    requires UpdatedText(text, dep, newVersion, data).Ok? && KeyStays(ReadLines(text), dep, newVersion, data)
      && GivenOpen(DataValue(data))
    ensures var lines, after := ReadLines(text), UpdatedText(text, dep, newVersion, data).value;
      var kept := GivenLasts(lines, dep, newVersion, data) && BlockPlain(lines, dep);
      && (UpdatedText(after, dep, newVersion, NoFile) == Ok(after) <==> kept)
      && (kept ==> !SaysChanged(ReadLines(after), dep, newVersion, NoFile))
  {
    hide *;
    ReadProper(text);
    ReadAgain(text, dep, newVersion, data);
    CalmOnceUpdated(ReadLines(text), dep, newVersion, data);
    CalmExactly(UpdatedText(text, dep, newVersion, data).value, dep, newVersion);
  }
}
