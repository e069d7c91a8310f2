/** Key lines that are themselves markers: white space around the key word does not matter. */
module KeyMarkers {
  import opened Wrappers
  import opened Constraints
  import opened ConfigLines

  // ----- reading behind spaces -----

  lemma SkipShift(a: string, s: string, k: nat)
    requires k <= |s|
    ensures Skip(a + s, |a| + k) == |a| + Skip(s, k)
  {
    var t, e := a + s, Skip(s, k);
    hide IsSpace;
    assert forall j :: |a| + k <= j < |a| + e ==> t[j] == s[j - |a|];
    assert e < |s| ==> t[|a| + e] == s[e];
    SkipIs(t, |a| + k, |a| + e);
  }

  lemma {:induction false} WordEndShift(a: string, s: string, k: nat)
    requires k <= |s|
    ensures WordEnd(a + s, |a| + k) == |a| + WordEnd(s, k)
    decreases |s| - k
  {
    hide IsSpace;
    if k < |s| {
      assert (a + s)[|a| + k] == s[k];
      WordEndShift(a, s, k + 1);
    }
  }

  lemma StartsAtShift(a: string, s: string, k: nat, word: string)
    ensures StartsAt(a + s, |a| + k, word) <==> StartsAt(s, k, word)
  {
    if k + |word| <= |s| {
      assert (a + s)[|a| + k..|a| + k + |word|] == s[k..k + |word|];
    }
  }

  lemma StartsAtFits(s: string, k: nat, word: string)
    requires StartsAt(s, k, word)
    ensures k + |word| <= |s|
  {
  }

  lemma GapShift(a: string, s: string, k: nat)
    requires k <= |s|
    ensures Gap(a + s, |a| + k) == if Gap(s, k).Some? then Some(|a| + Gap(s, k).value) else None
  {
    SkipShift(a, s, k);
    hide Skip;
  }

  lemma FieldShift(a: string, s: string, k: nat, name: string)
    ensures Field(a + s, |a| + k, name)
      == if Field(s, k, name).Some? then Some((|a| + Field(s, k, name).value.0,
        |a| + Field(s, k, name).value.1)) else None
  {
    StartsAtShift(a, s, k, name);
    if StartsAt(s, k, name) {
      WordEndShift(a, s, k + |name|);
    }
    hide StartsAt, WordEnd;
  }

  /** The pattern of markers, from where the spaces at the front end: whether it matches. */
  predicate MarkerFrom(s: string, i: nat) {
    StartsAt(s, i, "# renovate-conda-bound:") && DepFrom(s, i + 23)
  }

  predicate DepFrom(s: string, i: nat)
    requires i <= |s|
  {
    var a := Gap(s, i);
    a.Some? && var dep := Field(s, a.value, "dep="); dep.Some? && VersionFrom(s, dep.value.1)
  }

  predicate VersionFrom(s: string, i: nat)
    requires i <= |s|
  {
    var b := Gap(s, i);
    b.Some? && var version := Field(s, b.value, "newVersion="); version.Some? && ValueFrom(s, version.value.1)
  }

  predicate ValueFrom(s: string, i: nat)
    requires i <= |s|
  {
    var c := Gap(s, i);
    c.Some? && StartsAt(s, c.value, "currentValue=") && Chomp(s[c.value + 13..]) != []
  }

  lemma MarkerIs(s: string)
    ensures IsMarker(s) <==> MarkerFrom(s, Skip(s, 0))
  {
    hide StartsAt, Gap, Field, Chomp, Skip, Strip;
  }

  lemma ValueShift(a: string, s: string, i: nat)
    requires i <= |s|
    ensures ValueFrom(a + s, |a| + i) <==> ValueFrom(s, i)
  {
    hide Gap, StartsAt, Chomp, IsSpace;
    GapShift(a, s, i);
    var c := Gap(s, i);
    if c.Some? {
      StartsAtShift(a, s, c.value, "currentValue=");
      if StartsAt(s, c.value, "currentValue=") {
        StartsAtFits(s, c.value, "currentValue=");
        assert (a + s)[|a| + c.value + 13..] == s[c.value + 13..];
      }
    }
  }

  lemma VersionShift(a: string, s: string, i: nat)
    requires i <= |s|
    ensures VersionFrom(a + s, |a| + i) <==> VersionFrom(s, i)
  {
    hide Gap, Field, ValueFrom, IsSpace;
    GapShift(a, s, i);
    var b := Gap(s, i);
    if b.Some? {
      FieldShift(a, s, b.value, "newVersion=");
      var f := Field(s, b.value, "newVersion=");
      if f.Some? {
        ValueShift(a, s, f.value.1);
      }
    }
  }

  lemma DepShift(a: string, s: string, i: nat)
    requires i <= |s|
    ensures DepFrom(a + s, |a| + i) <==> DepFrom(s, i)
  {
    hide Gap, Field, VersionFrom, IsSpace;
    GapShift(a, s, i);
    var b := Gap(s, i);
    if b.Some? {
      FieldShift(a, s, b.value, "dep=");
      var f := Field(s, b.value, "dep=");
      if f.Some? {
        VersionShift(a, s, f.value.1);
      }
    }
  }

  /** Spaces in front do not make or unmake a marker. */
  lemma MarkerShift(a: string, s: string)
    requires forall j :: 0 <= j < |a| ==> IsSpace(a[j])
    ensures IsMarker(a + s) <==> IsMarker(s)
  {
    hide StartsAt, DepFrom, Skip, IsMarker, IsSpace;
    var i := Skip(s, 0);
    MarkerIs(a + s);
    MarkerIs(s);
    FrontSkip(a, s);
    StartsAtShift(a, s, i, "# renovate-conda-bound:");
    if StartsAt(s, i, "# renovate-conda-bound:") {
      StartsAtFits(s, i, "# renovate-conda-bound:");
      DepShift(a, s, i + 23);
    }
  }

  lemma FrontSkip(a: string, s: string)
    requires forall j :: 0 <= j < |a| ==> IsSpace(a[j])
    ensures Skip(a + s, 0) == |a| + Skip(s, 0)
  {
    var t, e := a + s, Skip(s, 0);
    hide IsSpace;
    assert forall j :: 0 <= j < |a| ==> t[j] == a[j];
    assert forall j :: |a| <= j < |a| + e ==> t[j] == s[j - |a|];
    assert e < |s| ==> t[|a| + e] == s[e];
    SkipIs(t, 0, |a| + e);
  }

  // ----- reading with spaces after -----

  /** A text that ends with a colon, and spaces. */
  predicate Tailed(s: string, b: string) {
    s != "" && s[|s| - 1] == ':' && forall j :: 0 <= j < |b| ==> IsSpace(b[j])
  }

  lemma SkipTail(s: string, b: string, k: nat)
    requires Tailed(s, b) && k <= |s|
    ensures k < |s| ==> Skip(s + b, k) == Skip(s, k) < |s|
    ensures k == |s| ==> Skip(s + b, k) == |s + b| && Skip(s, k) == |s|
  {
    var t := s + b;
    assert !IsSpace(':');
    hide IsSpace;
    if k < |s| {
      var e := Skip(s, k);
      assert e < |s|;
      assert forall j :: k <= j <= e ==> t[j] == s[j];
      SkipIs(t, k, e);
    } else {
      assert forall j :: |s| <= j < |t| ==> t[j] == b[j - |s|];
      SkipIs(t, k, |t|);
    }
  }

  lemma {:induction false} WordEndTail(s: string, b: string, k: nat)
    requires Tailed(s, b) && k <= |s|
    ensures WordEnd(s + b, k) == WordEnd(s, k)
    decreases |s| - k
  {
    hide IsSpace;
    if k < |s| {
      assert (s + b)[k] == s[k];
      WordEndTail(s, b, k + 1);
    } else if b != "" {
      assert (s + b)[k] == b[0];
    }
  }

  lemma StartsAtTail(s: string, b: string, k: nat, word: string)
    requires Tailed(s, b) && word != "" && !IsSpace(word[|word| - 1])
    ensures StartsAt(s + b, k, word) <==> StartsAt(s, k, word)
  {
    var t, e := s + b, k + |word|;
    hide IsSpace;
    if e <= |s| {
      assert t[k..e] == s[k..e];
    } else if e <= |t| {
      assert t[k..e][|word| - 1] == b[e - 1 - |s|];
    }
  }

  lemma FieldTail(s: string, b: string, k: nat, name: string)
    requires Tailed(s, b) && name != "" && !IsSpace(name[|name| - 1])
    ensures Field(s + b, k, name) == Field(s, k, name)
  {
    StartsAtTail(s, b, k, name);
    if StartsAt(s, k, name) {
      WordEndTail(s, b, k + |name|);
    }
    hide StartsAt, WordEnd, IsSpace;
  }

  /** After the end there is no field. */
  lemma GapTail(s: string, b: string, k: nat)
    requires Tailed(s, b) && k <= |s|
    ensures k < |s| ==> Gap(s + b, k) == Gap(s, k)
    ensures k == |s| ==> Gap(s, k).None? && (Gap(s + b, k).Some? ==> Gap(s + b, k).value == |s + b|)
  {
    SkipTail(s, b, k);
    hide Skip;
  }

  lemma NothingAt(t: string, word: string)
    requires word != ""
    ensures !StartsAt(t, |t|, word) && Field(t, |t|, word).None?
  {
  }

  lemma ValueTail(s: string, b: string, i: nat)
    requires Tailed(s, b) && i <= |s|
    ensures ValueFrom(s + b, i) <==> ValueFrom(s, i)
  {
    assert !IsSpace('=');
    hide Gap, StartsAt, Chomp, IsSpace;
    GapTail(s, b, i);
    NothingAt(s + b, "currentValue=");
    if i < |s| && Gap(s, i).Some? {
      var c := Gap(s, i).value;
      StartsAtTail(s, b, c, "currentValue=");
      if StartsAt(s, c, "currentValue=") {
        assert s[c..c + 13][12] == '=' == s[c + 12];
        assert c + 13 < |s|;
        RestChomp(s, b, c + 13);
      }
    }
  }

  lemma RestChomp(s: string, b: string, c: nat)
    requires Tailed(s, b) && c < |s|
    ensures Chomp(s[c..]) != [] && Chomp((s + b)[c..]) != []
  {
    var x, y := s[c..], (s + b)[c..];
    assert x[|x| - 1] == ':' && y[|x| - 1] == ':';
    hide IsSpace;
  }

  lemma VersionTail(s: string, b: string, i: nat)
    requires Tailed(s, b) && i <= |s|
    ensures VersionFrom(s + b, i) <==> VersionFrom(s, i)
  {
    assert !IsSpace('=');
    hide Gap, Field, ValueFrom, IsSpace;
    GapTail(s, b, i);
    NothingAt(s + b, "newVersion=");
    if i < |s| && Gap(s, i).Some? {
      FieldTail(s, b, Gap(s, i).value, "newVersion=");
      var f := Field(s, Gap(s, i).value, "newVersion=");
      if f.Some? {
        ValueTail(s, b, f.value.1);
      }
    }
  }

  lemma DepTail(s: string, b: string, i: nat)
    requires Tailed(s, b) && i <= |s|
    ensures DepFrom(s + b, i) <==> DepFrom(s, i)
  {
    assert !IsSpace('=');
    hide Gap, Field, VersionFrom, IsSpace;
    GapTail(s, b, i);
    NothingAt(s + b, "dep=");
    if i < |s| && Gap(s, i).Some? {
      FieldTail(s, b, Gap(s, i).value, "dep=");
      var f := Field(s, Gap(s, i).value, "dep=");
      if f.Some? {
        VersionTail(s, b, f.value.1);
      }
    }
  }

  /** Nor do spaces after a colon. */
  lemma MarkerTail(s: string, b: string)
    requires Tailed(s, b)
    ensures IsMarker(s + b) <==> IsMarker(s)
  {
    assert !IsSpace(':') && s != "";
    hide *;
    var i := Skip(s, 0);
    MarkerFromIs(s + b);
    MarkerFromIs(s);
    SkipTail(s, b, 0);
    StartsAtTail(s, b, i, "# renovate-conda-bound:");
    if StartsAt(s, i, "# renovate-conda-bound:") {
      StartsAtFits(s, i, "# renovate-conda-bound:");
      DepTail(s, b, i + 23);
    }
  }

  lemma MarkerFromIs(s: string)
    ensures StartsAt(s, Skip(s, 0), "# renovate-conda-bound:") ==> Skip(s, 0) + 23 <= |s|
    ensures IsMarker(s) <==> StartsAt(s, Skip(s, 0), "# renovate-conda-bound:") && DepFrom(s, Skip(s, 0) + 23)
  {
    MarkerIs(s);
    hide IsMarker, DepFrom, Skip;
  }

  /** A key line is its key word and spaces around it. */
  lemma KeyParts(line: string, dep: string) returns (a: string, b: string)
    requires IsKey(line, dep)
    ensures line == a + (KeyWord(dep) + b) && Tailed(KeyWord(dep), b)
    ensures forall j :: 0 <= j < |a| ==> IsSpace(a[j])
  {
    KeyWordEnds(dep);
    hide IsSpace, KeyWord;
    var w := KeyWord(dep);
    var i: nat :| i <= Skip(line, 0) && KeyAt(line, dep, i);
    a, b := line[..i], line[i + |w|..];
    assert line[i..i + |w|] == w && Skip(b, 0) == |b|;
    hide KeyAt, IsKey;
    InThree(line, i, i + |w|);
  }

  lemma KeyWordEnds(dep: string)
    ensures KeyWord(dep) != "" && KeyWord(dep)[|KeyWord(dep)| - 1] == ':'
  {
  }

  lemma InThree(s: string, i: nat, k: nat)
    requires i <= k <= |s|
    ensures s == s[..i] + (s[i..k] + s[k..])
  {
  }

  /** A key line is a marker exactly when its key word is one. */
  lemma KeyKind(line: string, dep: string)
    requires IsKey(line, dep)
    ensures IsMarker(line) <==> IsMarker(KeyWord(dep))
  {
    var a, b := KeyParts(line, dep);
    hide *;
    MarkerShift(a, KeyWord(dep) + b);
    MarkerTail(KeyWord(dep), b);
  }
}
