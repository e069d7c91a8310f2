/** A text as read from a file, cut into lines and put together again. */
module TextLines {
  import opened Constraints

  /** What splitlines cuts after. Reading has turned carriage returns into newlines, so the pair of the two
      does not come up. */
  predicate IsBreak(c: char) {
    || '\n' <= c <= '\r' || '\U{1c}' <= c <= '\U{1e}' || c == '\U{85}' || c == '\U{2028}' || c == '\U{2029}'
  }

  lemma BreakIsSpace(c: char)
    requires IsBreak(c)
    ensures IsSpace(c)
  {
  }

  predicate NoBreaks(s: string) {
    forall i :: 0 <= i < |s| ==> !IsBreak(s[i])
  }

  /** Reading in text mode: a carriage return, alone or before a newline, is a newline. */
  function Translate(text: string): (t: string)
    ensures '\r' !in t
    decreases |text|
  {
    if text == "" then ""
    else if text[0] == '\r' then "\n" + Translate(text[if |text| > 1 && text[1] == '\n' then 2 else 1..])
    else [text[0]] + Translate(text[1..])
  }

  lemma {:induction false} TranslateNothing(text: string)
    requires '\r' !in text
    ensures Translate(text) == text
    decreases |text|
  {
    if text != "" {
      TranslateNothing(text[1..]);
      assert text == [text[0]] + text[1..];
    }
  }

  /** The first carriage return becomes a newline, with the newline after it if there is one. */
  lemma {:induction false} TranslateIs(a: string, b: string)
    requires '\r' !in a
    ensures Translate(a + "\r\n" + b) == a + "\n" + Translate(b)
    ensures b == "" || b[0] != '\n' ==> Translate(a + "\r" + b) == a + "\n" + Translate(b)
    decreases |a|
  {
    var s, t := a + "\r\n" + b, a + "\r" + b;
    if a == "" {
      assert s[2..] == b && t[1..] == b;
    } else {
      TranslateIs(a[1..], b);
      assert s[1..] == a[1..] + "\r\n" + b && t[1..] == a[1..] + "\r" + b;
      assert a == [a[0]] + a[1..];
    }
  }

  /** One past the first break, or the end. */
  function LineEnd(text: string): (e: nat)
    ensures e <= |text| && (text != "" ==> e > 0)
    ensures forall i :: 0 <= i < e - 1 ==> !IsBreak(text[i])
    ensures e < |text| ==> IsBreak(text[e - 1])
    decreases |text|
  {
    if text == "" then 0
    else if IsBreak(text[0]) then 1
    else 1 + LineEnd(text[1..])
  }

  /** splitlines(keepends=True) */
  function Lines(text: string): seq<string>
    decreases |text|
  {
    if text == "" then []
    else
      var e := LineEnd(text);
      [text[..e]] + Lines(text[e..])
  }

  /** "".join */
  function Join(lines: seq<string>): string {
    if lines == [] then "" else lines[0] + Join(lines[1..])
  }

  predicate ProperLine(line: string) {
    line != "" && forall i :: 0 <= i < |line| - 1 ==> !IsBreak(line[i])
  }

  predicate Terminated(line: string) {
    line != "" && IsBreak(line[|line| - 1])
  }

  /** Lines as a text has them: breaks at the end only, and only the last line may lack one. */
  predicate Proper(lines: seq<string>) {
    && (forall i :: 0 <= i < |lines| ==> ProperLine(lines[i]))
    && (forall i :: 0 <= i < |lines| - 1 ==> Terminated(lines[i]))
  }

  lemma ProperCons(a: string, rest: seq<string>)
    requires ProperLine(a) && (rest != [] ==> Terminated(a)) && Proper(rest)
    ensures Proper([a] + rest)
  {
    hide ProperLine, Terminated;
  }

  lemma ProperRest(lines: seq<string>)
    requires Proper(lines) && lines != []
    ensures ProperLine(lines[0]) && (lines[1..] != [] ==> Terminated(lines[0])) && Proper(lines[1..])
  {
    hide ProperLine, Terminated;
  }

  lemma CutLine(text: string)
    requires text != ""
    ensures var e := LineEnd(text);
      ProperLine(text[..e]) && (text[e..] != "" ==> Terminated(text[..e])) && text == text[..e] + text[e..]
  {
    hide IsBreak;
  }

  lemma {:induction false} JoinLines(text: string)
    ensures Join(Lines(text)) == text && Proper(Lines(text))
    decreases |text|
  {
    if text != "" {
      var e := LineEnd(text);
      CutLine(text);
      JoinLines(text[e..]);
      hide IsBreak, LineEnd, ProperLine, Terminated, Proper;
      ProperCons(text[..e], Lines(text[e..]));
      assert ([text[..e]] + Lines(text[e..]))[1..] == Lines(text[e..]);
    }
  }

  lemma {:induction false} LineEndIs(text: string, e: nat)
    requires 0 < e <= |text| && (forall i :: 0 <= i < e - 1 ==> !IsBreak(text[i]))
    requires e < |text| ==> IsBreak(text[e - 1])
    ensures LineEnd(text) == e
    decreases |text|
  {
    hide IsBreak;
    if e > 1 {
      assert !IsBreak(text[0]);
      LineEndIs(text[1..], e - 1);
    } else if !IsBreak(text[0]) {
      assert text[1..] == "";
      assert LineEnd("") == 0;
    }
  }

  /** The first line is cut off a text that begins with it. */
  lemma LinesCons(a: string, rest: string)
    requires ProperLine(a) && (Terminated(a) || rest == "")
    ensures Lines(a + rest) == [a] + Lines(rest)
  {
    hide IsBreak;
    LineEndIs(a + rest, |a|);
    assert (a + rest)[..|a|] == a && (a + rest)[|a|..] == rest;
    hide LineEnd, ProperLine, Terminated;
  }

  /** Terminated lines are cut off the front, whatever follows. */
  lemma {:induction false} LinesAfter(lines: seq<string>, rest: string)
    requires forall i :: 0 <= i < |lines| ==> ProperLine(lines[i]) && Terminated(lines[i])
    ensures Lines(Join(lines) + rest) == lines + Lines(rest)
  {
    hide ProperLine, Terminated, Lines;
    if lines == [] {
      assert "" + rest == rest;
    } else {
      var tail := Join(lines[1..]) + rest;
      LinesAfter(lines[1..], rest);
      LinesCons(lines[0], tail);
      assert Join(lines) + rest == lines[0] + tail;
      assert lines == [lines[0]] + lines[1..];
    }
  }

  /** Cutting undoes joining. */
  lemma {:induction false} LinesJoin(lines: seq<string>)
    requires Proper(lines)
    ensures Lines(Join(lines)) == lines
  {
    hide ProperLine, Terminated, Lines;
    if lines == [] {
      assert Lines("") == [] by { EmptyLines(); }
    } else {
      LinesJoin(lines[1..]);
      LinesCons(lines[0], Join(lines[1..]));
      assert lines == [lines[0]] + lines[1..];
    }
  }

  lemma EmptyLines()
    ensures Lines("") == []
  {
  }

  lemma {:induction false} JoinAppend(a: seq<string>, b: seq<string>)
    ensures Join(a + b) == Join(a) + Join(b)
  {
    if a == [] {
      assert a + b == b;
      assert "" + Join(b) == Join(b);
    } else {
      JoinAppend(a[1..], b);
      assert (a + b)[1..] == a[1..] + b;
      assert a[0] + (Join(a[1..]) + Join(b)) == (a[0] + Join(a[1..])) + Join(b);
    }
  }

  /** Two terminated lines at the front of one text are the same. */
  lemma SameFirst(a: string, r: string, b: string, s: string)
    requires ProperLine(a) && Terminated(a) && ProperLine(b) && Terminated(b) && a + r == b + s
    ensures a == b && r == s
  {
    LinesCons(a, r);
    LinesCons(b, s);
    hide ProperLine, Terminated, Lines;
    assert ([a] + Lines(r))[0] == ([b] + Lines(s))[0];
    assert r == (a + r)[|a|..];
    assert s == (b + s)[|b|..];
  }

  /** A text that begins with a terminated line has a break in it. */
  lemma HasBreak(a: string, r: string)
    requires Terminated(a)
    ensures !NoBreaks(a + r)
  {
    assert (a + r)[|a| - 1] == a[|a| - 1];
  }

  lemma NoBreaksJoin(a: string, b: string)
    ensures NoBreaks(a + b) <==> NoBreaks(a) && NoBreaks(b)
  {
    var s := a + b;
    assert forall i :: 0 <= i < |a| ==> a[i] == s[i];
    assert forall i :: 0 <= i < |b| ==> b[i] == s[|a| + i];
    hide IsBreak;
  }

  lemma {:induction false} NoReturnJoin(lines: seq<string>)
    requires forall i :: 0 <= i < |lines| ==> '\r' !in lines[i]
    ensures '\r' !in Join(lines)
  {
    if lines != [] {
      NoReturnJoin(lines[1..]);
    }
  }

  lemma {:induction false} NoReturnLines(text: string)
    requires '\r' !in text
    ensures forall i :: 0 <= i < |Lines(text)| ==> '\r' !in Lines(text)[i]
    decreases |text|
  {
    hide LineEnd;
    if text != "" {
      NoReturnLines(text[LineEnd(text)..]);
    }
  }
}
