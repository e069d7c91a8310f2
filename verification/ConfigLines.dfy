/** The lines of a conda build configuration that the bound updater reads and writes. A line may end
    in a newline and holds no other. */
module ConfigLines {
  import opened Wrappers
  import opened Constraints

  // ----- reading lines -----

  /** The end of the run of spaces from i on. */
  function Skip(s: string, i: nat): (k: nat)
    requires i <= |s|
    ensures i <= k <= |s|
    ensures forall j :: i <= j < k ==> IsSpace(s[j])
    ensures k < |s| ==> !IsSpace(s[k])
    decreases |s| - i
  {
    if i < |s| && IsSpace(s[i]) then Skip(s, i + 1) else i
  }

  function WordEnd(s: string, i: nat): (k: nat)
    requires i <= |s|
    ensures i <= k <= |s|
    decreases |s| - i
  {
    if i < |s| && !IsSpace(s[i]) then WordEnd(s, i + 1) else i
  }

  predicate AllSpace(s: string) {
    Skip(s, 0) == |s|
  }

  /** Nothing but spaces, then c. */
  predicate FirstIs(s: string, c: char) {
    Skip(s, 0) < |s| && s[Skip(s, 0)] == c
  }

  predicate StartsAt(s: string, i: nat, word: string) {
    i + |word| <= |s| && s[i..i + |word|] == word
  }

  /** rstrip("\n") */
  function Chomp(s: string): (r: string)
    ensures r <= s
    ensures r == [] || r[|r| - 1] != '\n'
    ensures forall i :: |r| <= i < |s| ==> s[i] == '\n'
  {
    if s != [] && s[|s| - 1] == '\n' then Chomp(s[..|s| - 1]) else s
  }

  /** A list item with a quoted value, and at most a comment after it. */
  datatype Item = Item(indent: string, quote: char, value: string, suffix: string)

  predicate SuffixOk(s: string) {
    AllSpace(s) || FirstIs(s, '#')
  }

  /** A quote with a proper suffix after it. */
  predicate ClosesAt(s: string, quote: char, k: nat)
    requires k < |s|
  {
    s[k] == quote && SuffixOk(s[k + 1..])
  }

  /** The first closing quote from k on. */
  function Close(s: string, quote: char, k: nat): (c: Option<nat>)
    requires k <= |s|
    ensures c.Some? ==> k <= c.value < |s| && ClosesAt(s, quote, c.value)
    ensures forall j :: k <= j < (if c.Some? then c.value else |s|) ==> !ClosesAt(s, quote, j)
    decreases |s| - k
  {
    hide ClosesAt;
    if k == |s| then None else if ClosesAt(s, quote, k) then Some(k) else Close(s, quote, k + 1)
  }

  /** The pattern of list items, on a line without its newline. */
  function ParseItem(s: string): Option<Item> {
    var i := Skip(s, 0);
    if i == |s| || s[i] != '-' then None else
    var j := Skip(s, i + 1);
    if j == |s| || (s[j] != '"' && s[j] != '\'') then None else
    var c := Close(s, s[j], j + 1);
    if c.None? then None
    else Some(Item(s[..i], s[j], s[j + 1..c.value], s[c.value + 1..]))
  }

  function PrintItem(item: Item): string {
    item.indent + "- " + [item.quote] + item.value + [item.quote] + item.suffix + "\n"
  }

  function ItemOf(line: string): Option<Item> {
    ParseItem(Chomp(line))
  }

  datatype Marker = Marker(dep: string, currentValue: string)

  function Strip(s: string): string {
    StripEnd(s[Skip(s, 0)..])
  }

  function StripEnd(s: string): string {
    if s != [] && IsSpace(s[|s| - 1]) then StripEnd(s[..|s| - 1]) else s
  }

  /** After a word at i: at least one space, then the next word starts. */
  function Gap(s: string, i: nat): (k: Option<nat>)
    requires i <= |s|
    ensures k.Some? ==> i < k.value <= |s|
  {
    if Skip(s, i) == i then None else Some(Skip(s, i))
  }

  /** A name, "=" included, and the word it is given: where the word starts and ends. */
  function Field(s: string, i: nat, name: string): (f: Option<(nat, nat)>)
    ensures f.Some? ==> i <= f.value.0 < f.value.1 <= |s|
  {
    if !StartsAt(s, i, name) then None else
    var start := i + |name|;
    if WordEnd(s, start) == start then None else Some((start, WordEnd(s, start)))
  }

  /** The pattern of marker comments; the current value may have spaces, and is stripped. */
  function ParseMarker(line: string): Option<Marker> {
    var i := Skip(line, 0);
    if !StartsAt(line, i, "# renovate-conda-bound:") then None else
    var a := Gap(line, i + 23);
    if a.None? then None else
    var dep := Field(line, a.value, "dep=");
    if dep.None? then None else
    var b := Gap(line, dep.value.1);
    if b.None? then None else
    var version := Field(line, b.value, "newVersion=");
    if version.None? then None else
    var c := Gap(line, version.value.1);
    if c.None? || !StartsAt(line, c.value, "currentValue=") then None else
    var rest := line[c.value + 13..];
    if Chomp(rest) == [] then None
    else Some(Marker(line[dep.value.0..dep.value.1], Strip(rest)))
  }

  predicate IsMarker(line: string) {
    ParseMarker(line).Some?
  }

  /** _is_block_line: blank, comment or list item. */
  predicate IsBlockLine(line: string) {
    AllSpace(line) || FirstIs(line, '#') || ItemOf(line).Some?
  }

  function KeyWord(dep: string): string {
    dep + "_version:"
  }

  predicate KeyAt(line: string, dep: string, i: nat) {
    StartsAt(line, i, KeyWord(dep)) && AllSpace(line[i + |KeyWord(dep)|..])
  }

  /** The line that opens the block of a dependency: spaces, the word, spaces. */
  predicate IsKey(line: string, dep: string) {
    exists i: nat :: i <= Skip(line, 0) && KeyAt(line, dep, i)
  }

  // ----- first characters -----

  lemma SkipIs(s: string, i: nat, k: nat)
    requires i <= k <= |s| && (forall j :: i <= j < k ==> IsSpace(s[j])) && (k < |s| ==> !IsSpace(s[k]))
    ensures Skip(s, i) == k
  {
  }

  /** Losing newlines at the end does not change the first character that is not a space. */
  lemma ChompFirst(line: string)
    ensures Skip(Chomp(line), 0) < |Chomp(line)| ==> Skip(line, 0) == Skip(Chomp(line), 0)
  {
    var c := Chomp(line);
    var k := Skip(c, 0);
    assert forall j :: 0 <= j < |c| ==> line[j] == c[j];
    if k < |c| {
      SkipIs(line, 0, k);
    }
  }

  lemma ItemFirst(line: string)
    requires ItemOf(line).Some?
    ensures FirstIs(line, '-')
  {
    ChompFirst(line);
    var c := Chomp(line);
    assert line[Skip(c, 0)] == c[Skip(c, 0)];
  }

  lemma MarkerFirst(line: string)
    requires IsMarker(line)
    ensures FirstIs(line, '#')
  {
    var i := Skip(line, 0);
    assert line[i] == line[i..i + 23][0];
  }

  /** A name that does not begin like a comment or a list item. */
  predicate PlainName(dep: string) {
    !FirstIs(dep, '#') && !FirstIs(dep, '-')
  }

  /** Spaces, then a word that goes on after a name: the first character is the name's. */
  lemma FirstOfWord(line: string, i: nat, dep: string, c: char)
    requires i <= Skip(line, 0) && StartsAt(line, i, KeyWord(dep)) && FirstIs(line, c) && c != '_'
    ensures FirstIs(dep, c)
  {
    var w, k := KeyWord(dep), Skip(dep, 0);
    assert forall j :: 0 <= j < |w| ==> w[j] == line[i + j];
    assert w[|dep|] == '_' && forall j :: 0 <= j < |dep| ==> w[j] == dep[j];
    hide StartsAt, KeyWord;
    SkipIs(line, 0, i + k);
  }

  /** The line that opens a block of a plain name is itself neither a marker nor an item. */
  lemma KeyIsPlain(line: string, dep: string)
    requires PlainName(dep) && IsKey(line, dep)
    ensures !IsMarker(line) && ItemOf(line).None?
  {
    hide IsMarker, ItemOf, FirstIs, StartsAt, KeyWord, AllSpace, Skip;
    var i: nat :| i <= Skip(line, 0) && KeyAt(line, dep, i);
    if IsMarker(line) {
      MarkerFirst(line);
      FirstOfWord(line, i, dep, '#');
    } else if ItemOf(line).Some? {
      ItemFirst(line);
      FirstOfWord(line, i, dep, '-');
    }
  }

  // ----- printing and reading back an item -----

  /** A quote in the value that a comment seems to follow. */
  predicate Closing(v: string, q: char, j: nat)
    requires j < |v|
  {
    v[j] == q && FirstIs(v[j + 1..], '#')
  }

  /** Reading such a value stops at the quote. */
  predicate ClosesEarly(value: string, quote: char) {
    exists j :: 0 <= j < |value| && Closing(value, quote, j)
  }

  predicate WellFormed(item: Item) {
    && AllSpace(item.indent)
    && (item.quote == '"' || item.quote == '\'')
    && SuffixOk(item.suffix)
    && (item.suffix != [] ==> item.suffix[|item.suffix| - 1] != '\n')
  }

  function Body(item: Item): string {
    item.indent + "- " + [item.quote] + item.value + [item.quote] + item.suffix
  }

  lemma ChompPrinted(item: Item)
    requires WellFormed(item)
    ensures Chomp(PrintItem(item)) == Body(item)
  {
    var b := Body(item);
    assert PrintItem(item)[..|b|] == b;
    assert b[|b| - 1] != '\n' by {
      if item.suffix == [] {
        assert b[|b| - 1] == item.quote;
      } else {
        assert b[|b| - 1] == item.suffix[|item.suffix| - 1];
      }
    }
    assert Chomp(b) == b;
  }

  /** Where the parts of a printed item are. */
  lemma BodyParts(item: Item)
    ensures var b, n := Body(item), |item.indent|;
      && |b| == n + 4 + |item.value| + |item.suffix| && b[..n] == item.indent
      && b[n] == '-' && b[n + 1] == ' ' && b[n + 2] == item.quote
      && b[n + 3..n + 3 + |item.value|] == item.value && b[n + 3 + |item.value|] == item.quote
      && b[n + 4 + |item.value|..] == item.suffix
  {
  }

  /** What follows a character of the value, up to the closing quote and beyond. */
  lemma BodyRest(item: Item, j: nat)
    requires j < |item.value|
    ensures var b, n := Body(item), |item.indent|;
      b[n + 3 + j] == item.value[j] && b[n + 3 + j + 1..] == item.value[j + 1..] + [item.quote] + item.suffix
  {
  }

  /** The closing quote stops the spaces, so only the value decides whether a comment seems to
      follow. */
  lemma EarlySuffix(rest: string, quote: char, suffix: string)
    requires quote == '"' || quote == '\''
    ensures SuffixOk(rest + [quote] + suffix) <==> FirstIs(rest, '#')
  {
    var s, k := rest + [quote] + suffix, Skip(rest, 0);
    assert forall j :: 0 <= j < |rest| ==> s[j] == rest[j];
    assert s[|rest|] == quote;
    SkipIs(s, 0, k);
  }

  lemma CloseIs(s: string, quote: char, k: nat, c: nat)
    requires k <= c < |s| && s[c] == quote && SuffixOk(s[c + 1..])
    requires forall j :: k <= j < c && s[j] == quote ==> !SuffixOk(s[j + 1..])
    ensures Close(s, quote, k) == Some(c)
  {
    assert ClosesAt(s, quote, c);
    forall j | k <= j < c ensures !ClosesAt(s, quote, j) {
    }
    hide ClosesAt;
    var d := Close(s, quote, k);
    assert d.Some? && d.value <= c;
  }

  lemma BodyOpens(item: Item)
    requires WellFormed(item)
    ensures Skip(Body(item), 0) == |item.indent| && Skip(Body(item), |item.indent| + 1) == |item.indent| + 2
  {
    var b, n := Body(item), |item.indent|;
    BodyParts(item);
    hide Body;
    assert forall j :: 0 <= j < n ==> b[j] == b[..n][j] == item.indent[j];
    SkipIs(b, 0, n);
    SkipIs(b, n + 1, n + 2);
  }

  /** A quote in the value may close the item when a comment seems to follow it. */
  lemma BodyMayClose(item: Item, j: nat)
    requires WellFormed(item) && j < |item.value|
    ensures var b, k := Body(item), |item.indent| + 3 + j;
      b[k] == item.value[j] && (SuffixOk(b[k + 1..]) <==> FirstIs(item.value[j + 1..], '#'))
  {
    BodyRest(item, j);
    EarlySuffix(item.value[j + 1..], item.quote, item.suffix);
    hide Body, SuffixOk, FirstIs;
  }

  lemma BodyCloses(item: Item)
    requires WellFormed(item)
    ensures var n := |item.indent|;
      var c := Close(Body(item), item.quote, n + 3);
      c.Some? && (c.value == n + 3 + |item.value| <==> !ClosesEarly(item.value, item.quote))
  {
    var b, n := Body(item), |item.indent|;
    var e := n + 3 + |item.value|;
    BodyParts(item);
    hide Body, SuffixOk, FirstIs, Close;
    var c := Close(b, item.quote, n + 3);
    if ClosesEarly(item.value, item.quote) {
      var j :| 0 <= j < |item.value| && Closing(item.value, item.quote, j);
      BodyMayClose(item, j);
      assert ClosesAt(b, item.quote, n + 3 + j);
      assert c.Some? && c.value <= n + 3 + j;
    } else {
      forall j | n + 3 <= j < e && b[j] == item.quote ensures !SuffixOk(b[j + 1..]) {
        BodyMayClose(item, j - n - 3);
        assert !Closing(item.value, item.quote, j - n - 3);
      }
      CloseIs(b, item.quote, n + 3, e);
    }
  }

  lemma ParseIs(s: string, i: nat, j: nat)
    requires Skip(s, 0) == i < |s| && s[i] == '-' && Skip(s, i + 1) == j < |s| && (s[j] == '"' || s[j] == '\'')
    requires Close(s, s[j], j + 1).Some?
    ensures var c := Close(s, s[j], j + 1).value;
      ParseItem(s) == Some(Item(s[..i], s[j], s[j + 1..c], s[c + 1..]))
  {
    hide Skip, Close, IsSpace, SuffixOk;
  }

  lemma PrintedParse(item: Item, c: nat)
    requires WellFormed(item) && Close(Body(item), item.quote, |item.indent| + 3) == Some(c)
    ensures var b, n := Body(item), |item.indent|;
      n + 3 <= c < |b| && ItemOf(PrintItem(item)) == Some(Item(b[..n], item.quote, b[n + 3..c], b[c + 1..]))
  {
    hide *;
    ChompPrinted(item);
    BodyHead(item);
    BodyOpens(item);
    var b, n := Body(item), |item.indent|;
    assert item.quote == '"' || item.quote == '\'' by { QuoteOf(item); }
    ParseIs(b, n, n + 2);
    ItemOfIs(PrintItem(item));
  }

  lemma QuoteOf(item: Item)
    requires WellFormed(item)
    ensures item.quote == '"' || item.quote == '\''
  {
  }

  lemma ItemOfIs(line: string)
    ensures ItemOf(line) == ParseItem(Chomp(line))
  {
  }

  lemma BodyHead(item: Item)
    ensures var b, n := Body(item), |item.indent|;
      n + 3 < |b| && b[n] == '-' && b[n + 2] == item.quote
  {
  }

  lemma SamePieces(item: Item, c: nat)
    requires |item.indent| + 3 <= c < |Body(item)|
    ensures var b, n := Body(item), |item.indent|;
      Item(b[..n], item.quote, b[n + 3..c], b[c + 1..]) == item <==> c == n + 3 + |item.value|
  {
    BodyParts(item);
    hide Body;
    var b, n := Body(item), |item.indent|;
    assert |b[n + 3..c]| == c - n - 3;
  }

  /** Reading back what was printed gives the item again exactly when its value does not close
      early. */
  lemma ItemRoundTrip(item: Item)
    requires WellFormed(item)
    ensures ItemOf(PrintItem(item)) == Some(item) <==> !ClosesEarly(item.value, item.quote)
    ensures ItemOf(PrintItem(item)).Some?
  {
    BodyCloses(item);
    hide Body, Close, ClosesEarly, PrintItem, ItemOf, WellFormed;
    var c := Close(Body(item), item.quote, |item.indent| + 3).value;
    PrintedParse(item, c);
    SamePieces(item, c);
  }

  /** The places of the parts of an item that was read. */
  lemma ParsedParts(s: string) returns (i: nat, j: nat, c: nat)
    requires ParseItem(s).Some?
    ensures i <= j < c < |s| && Skip(s, 0) == i && (s[j] == '"' || s[j] == '\'')
    ensures Close(s, s[j], j + 1) == Some(c)
    ensures ParseItem(s).value == Item(s[..i], s[j], s[j + 1..c], s[c + 1..])
  {
    hide Skip, Close;
    i := Skip(s, 0);
    j := Skip(s, i + 1);
    c := Close(s, s[j], j + 1).value;
  }

  lemma IndentSpace(s: string)
    ensures AllSpace(s[..Skip(s, 0)])
  {
    var i := Skip(s, 0);
    assert forall k :: 0 <= k < i ==> s[..i][k] == s[k];
    SkipIs(s[..i], 0, i);
  }

  lemma RestIsOpen(s: string, j: nat, c: nat, k: nat)
    requires j <= c < |s| && s[j..c] != [] && k < c - j && (s[c] == '"' || s[c] == '\'')
    requires !SuffixOk(s[j + k + 1..])
    ensures !FirstIs(s[j..c][k + 1..], '#')
  {
    hide *;
    RestAt(s, j, c, k);
    EarlySuffix(s[j..c][k + 1..], s[c], s[c + 1..]);
  }

  /** An item that was read is well-formed and does not close early. */
  lemma ItemRead(line: string)
    requires ItemOf(line).Some?
    ensures var item := ItemOf(line).value;
      WellFormed(item) && !ClosesEarly(item.value, item.quote)
  {
    hide SuffixOk, Close, Skip, Chomp, ParseItem, FirstIs, AllSpace;
    var s, item := Chomp(line), ItemOf(line).value;
    var i, j, c := ParsedParts(s);
    IndentSpace(s);
    assert item.suffix != [] ==> item.suffix[|item.suffix| - 1] == s[|s| - 1];
    forall k | 0 <= k < |item.value| && item.value[k] == item.quote ensures !FirstIs(item.value[k + 1..], '#') {
      assert s[j + 1 + k] == item.quote;
      assert !ClosesAt(s, item.quote, j + 1 + k);
      RestIsOpen(s, j + 1, c, k);
    }
  }

  lemma RestAt(s: string, j: nat, c: nat, k: nat)
    requires j + k < c < |s|
    ensures s[j + k + 1..] == s[j..c][k + 1..] + [s[c]] + s[c + 1..]
  {
  }
}
