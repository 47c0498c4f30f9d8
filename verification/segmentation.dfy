/**
  Item segmentation of Multi-Send (`_detect_items`): a block of text is cut into
  lines, the whole block is classified once as a list or as paragraphs, and the
  lines are grouped into items accordingly.
*/
module Segmentation {
  import opened Wrappers
  import opened Text

  const EnDash: char := '\U{2013}'
  const EmDash: char := '\U{2014}'
  const BulletChar: char := '\U{2022}'

  /** The three list markers, in the order `match_prefix` tries them. */
  datatype Marker = Dash | Bullet | Number

  predicate IsDashChar(c: char) {
    c == '-' || c == EnDash || c == EmDash
  }

  /** A line that `rstrip()` leaves unchanged. */
  predicate IsRStripped(s: string) {
    s == [] || !IsSpace(s[|s| - 1])
  }

  // ---------------------------------------------------------------------------
  // Prefix matching

  /** The first index at or after `from` that does not hold a blank. */
  function SkipSpaces(s: string, from: nat): (i: nat)
    requires from <= |s|
    ensures from <= i <= |s|
    ensures i == |s| || !IsSpace(s[i])
    decreases |s| - from
  {
    if from < |s| && IsSpace(s[from]) then SkipSpaces(s, from + 1) else from
  }

  /** The first index at or after `from` that does not hold a digit. */
  function SkipDigits(s: string, from: nat): (i: nat)
    requires from <= |s|
    ensures from <= i <= |s|
    ensures i == |s| || !IsDigit(s[i])
    decreases |s| - from
  {
    if from < |s| && IsDigit(s[from]) then SkipDigits(s, from + 1) else from
  }

  /** `SkipSpaces` passes over blanks only. */
  lemma {:induction false} SkipSpacesBlank(s: string, from: nat, k: nat)
    requires from <= k < |s| && k < SkipSpaces(s, from)
    ensures IsSpace(s[k])
    decreases |s| - from
  {
    assert from < |s| && IsSpace(s[from]);
    assert SkipSpaces(s, from) == SkipSpaces(s, from + 1);
    if k > from {
      SkipSpacesBlank(s, from + 1, k);
    }
  }

  /** `SkipDigits` passes over digits only. */
  lemma {:induction false} SkipDigitsDigit(s: string, from: nat, k: nat)
    requires from <= k < |s| && k < SkipDigits(s, from)
    ensures IsDigit(s[k])
    decreases |s| - from
  {
    assert from < |s| && IsDigit(s[from]);
    assert SkipDigits(s, from) == SkipDigits(s, from + 1);
    if k > from {
      SkipDigitsDigit(s, from + 1, k);
    }
  }

  /** The index just after the marker of pattern `kind`, when the line has one after
      its leading blanks. */
  function MarkerEnd(kind: Marker, line: string): (j: Option<nat>)
    ensures j.Some? ==> 0 < j.value <= |line|
  {
    var i := SkipSpaces(line, 0);
    match kind
    case Dash =>
      if i < |line| && IsDashChar(line[i]) then Some(i + 1) else None
    case Bullet =>
      if i < |line| && line[i] == BulletChar then Some(i + 1) else None
    case Number =>
      var d := SkipDigits(line, i);
      if i < d < |line| && (line[d] == '.' || line[d] == ')') then Some(d + 1) else None
  }

  /** The tail of a pattern after its marker, which ends before `j`: at least one
      blank, all further blanks (the greedy `\s+`), then the captured rest `(.*)`. */
  function AfterMarker(line: string, j: nat): (r: Option<string>)
    requires j <= |line|
    ensures r.Some? ==> |r.value| < |line| - j && r.value == line[|line| - |r.value|..]
  {
    if j < |line| && IsSpace(line[j]) then Some(line[SkipSpaces(line, j)..]) else None
  }

  /** One of the three compiled patterns of `_detect_items`, anchored at the start of
      the line: `^\s*[-–—]\s+(.*)$`, `^\s*[•]\s+(.*)$` or `^\s*\d+[.)]\s+(.*)$`.
      The result is the captured group. */
  function MatchPattern(kind: Marker, line: string): (r: Option<string>)
    ensures r.Some? ==> |r.value| < |line| && r.value == line[|line| - |r.value|..]
  {
    match MarkerEnd(kind, line)
    case None => None
    case Some(j) => AfterMarker(line, j)
  }

  /** `match_prefix`: the dash, bullet and number patterns tried in that order; the
      group of the first that matches, which is a proper suffix of the line. */
  function MatchPrefix(line: string): (r: Option<string>)
    ensures r.Some? ==> |r.value| < |line| && r.value == line[|line| - |r.value|..]
  {
    match MatchPattern(Dash, line)
    case Some(rest) => Some(rest)
    case None =>
      match MatchPattern(Bullet, line)
      case Some(rest) => Some(rest)
      case None => MatchPattern(Number, line)
  }

  /** The pattern `match_prefix` answers with, when it answers. */
  function MatchingKind(line: string): Marker {
    if MatchPattern(Dash, line).Some? then Dash
    else if MatchPattern(Bullet, line).Some? then Bullet
    else Number
  }

  /** A marker as the regular expressions spell it. */
  ghost predicate IsMarker(kind: Marker, m: string) {
    match kind
    case Dash => |m| == 1 && IsDashChar(m[0])
    case Bullet => |m| == 1 && m[0] == BulletChar
    case Number => |m| >= 2 && AllDigits(m[..|m| - 1]) && (m[|m| - 1] == '.' || m[|m| - 1] == ')')
  }

  /** The regular expression for `kind` matches `line` with the marker at `line[i..j]`
      and the captured group starting at `k`: blanks before `i`, at least one blank
      in `line[j..k]`, and, `\s+` being greedy, no blank at `k`.  The group `(.*)$` is
      taken to run to the end of the line: that is Python's reading only for a line
      without a line feed (`.` does not match one), which every line of `splitlines`
      is, and `match_prefix` is applied to nothing else. */
  ghost predicate RegexMatch(kind: Marker, line: string, i: nat, j: nat, k: nat) {
    i < j < k <= |line| &&
    AllSpace(line[..i]) && IsMarker(kind, line[i..j]) && AllSpace(line[j..k]) &&
    (k == |line| || !IsSpace(line[k]))
  }

  lemma {:induction false} SkipSpacesAt(s: string, from: nat, i: nat)
    requires from <= i <= |s|
    requires forall k | from <= k < i :: IsSpace(s[k])
    requires i == |s| || !IsSpace(s[i])
    ensures SkipSpaces(s, from) == i
    decreases i - from
  {
    if from < i {
      SkipSpacesAt(s, from + 1, i);
    }
  }

  lemma {:induction false} SkipDigitsAt(s: string, from: nat, i: nat)
    requires from <= i <= |s|
    requires forall k | from <= k < i :: IsDigit(s[k])
    requires i == |s| || !IsDigit(s[i])
    ensures SkipDigits(s, from) == i
    decreases i - from
  {
    if from < i {
      SkipDigitsAt(s, from + 1, i);
    }
  }

  lemma BlankSlice(s: string, from: nat)
    requires from <= |s|
    ensures AllSpace(s[from..SkipSpaces(s, from)])
  {
    var i := SkipSpaces(s, from);
    forall k | 0 <= k < i - from ensures IsSpace(s[from..i][k]) {
      SkipSpacesBlank(s, from, from + k);
    }
  }

  /** Every match of a pattern is a match of its regular expression, and the group
      is what the regular expression captures. */
  lemma MatchPatternSound(kind: Marker, line: string)
    requires MatchPattern(kind, line).Some?
    ensures exists i: nat, j: nat, k: nat :: RegexMatch(kind, line, i, j, k) && MatchPattern(kind, line).value == line[k..]
  {
    var i := SkipSpaces(line, 0);
    var j := MarkerEnd(kind, line).value;
    var k := SkipSpaces(line, j);
    BlankSlice(line, 0);
    BlankSlice(line, j);
    assert line[..i] == line[0..i];
    if kind == Number {
      var d := SkipDigits(line, i);
      var mk := line[i..j];
      assert mk[..|mk| - 1] == line[i..d];
      forall m | 0 <= m < d - i ensures IsDigit(line[i..d][m]) {
        SkipDigitsDigit(line, i, i + m);
      }
    }
    assert RegexMatch(kind, line, i, j, k);
  }

  lemma SkipSpacesOver(s: string, from: nat, i: nat)
    requires from <= i <= |s| && AllSpace(s[from..i]) && (i == |s| || !IsSpace(s[i]))
    ensures SkipSpaces(s, from) == i
  {
    forall k | from <= k < i ensures IsSpace(s[k]) {
      assert s[k] == s[from..i][k - from];
    }
    SkipSpacesAt(s, from, i);
  }

  lemma SkipDigitsOver(s: string, from: nat, i: nat)
    requires from <= i <= |s| && AllDigits(s[from..i]) && (i == |s| || !IsDigit(s[i]))
    ensures SkipDigits(s, from) == i
  {
    forall k | from <= k < i ensures IsDigit(s[k]) {
      assert s[k] == s[from..i][k - from];
    }
    SkipDigitsAt(s, from, i);
  }

  /** Every match of the regular expression is found by the pattern, with the same group. */
  lemma MatchPatternComplete(kind: Marker, line: string, i: nat, j: nat, k: nat)
    requires RegexMatch(kind, line, i, j, k)
    ensures MatchPattern(kind, line) == Some(line[k..])
  {
    var mk := line[i..j];
    assert line[..i] == line[0..i];
    assert mk[0] == line[i];
    SkipSpacesOver(line, 0, i);
    SkipSpacesOver(line, j, k);
    assert line[j..k][0] == line[j];
    if kind == Number {
      assert mk[..|mk| - 1] == line[i..j - 1];
      assert mk[|mk| - 1] == line[j - 1];
      SkipDigitsOver(line, i, j - 1);
    }
  }

  /** The three patterns exclude each other, so the order in which `match_prefix`
      tries them never changes its answer. */
  lemma PatternsExclusive(line: string, a: Marker, b: Marker)
    requires MatchPattern(a, line).Some? && MatchPattern(b, line).Some?
    ensures a == b
  {
  }

  /** `match_prefix` answers exactly when one of the regular expressions matches, and
      returns that expression's group. */
  lemma MatchPrefixIsRegexGroup(line: string, rest: string)
    ensures MatchPrefix(line) == Some(rest) <==>
      exists kind, i: nat, j: nat, k: nat :: RegexMatch(kind, line, i, j, k) && rest == line[k..]
  {
    if MatchPrefix(line) == Some(rest) {
      MatchPatternSound(MatchingKind(line), line);
    }
    if exists kind, i: nat, j: nat, k: nat :: RegexMatch(kind, line, i, j, k) && rest == line[k..] {
      var kind, i: nat, j: nat, k: nat :| RegexMatch(kind, line, i, j, k) && rest == line[k..];
      MatchPatternComplete(kind, line, i, j, k);
      if kind != Dash && MatchPattern(Dash, line).Some? {
        PatternsExclusive(line, kind, Dash);
      }
      if kind == Number && MatchPattern(Bullet, line).Some? {
        PatternsExclusive(line, kind, Bullet);
      }
    }
  }

  /** On an rstripped line the group of `match_prefix` is non-empty and starts and
      ends with a non-blank. */
  lemma MatchPrefixOfRStripped(line: string)
    requires IsRStripped(line) && MatchPrefix(line).Some?
    ensures var c := MatchPrefix(line).value; c != [] && !IsSpace(c[0]) && !IsSpace(c[|c| - 1])
  {
    var j := MarkerEnd(MatchingKind(line), line).value;
    var k := SkipSpaces(line, j);
    if k == |line| {
      SkipSpacesBlank(line, j, |line| - 1);
    }
  }

  // ---------------------------------------------------------------------------
  // Lines, counters and the list-mode decision

  /** The lines that `rstrip()` leaves non-empty, rstripped, in input order. */
  function NonBlank(lines: seq<string>): (raws: seq<string>)
    ensures |raws| <= |lines|
  {
    if lines == [] then []
    else
      var raw := RStrip(lines[|lines| - 1]);
      NonBlank(lines[..|lines| - 1]) + (if raw == [] then [] else [raw])
  }

  /** The non-blank lines of a text, rstripped. */
  function Raws(text: string): seq<string> {
    NonBlank(SplitLines(text))
  }

  /** The number of lines that carry a list marker: never more than the lines. */
  function CountMatched(raws: seq<string>): (n: nat)
    ensures n <= |raws|
  {
    if raws == [] then 0
    else CountMatched(raws[..|raws| - 1]) + (if MatchPrefix(raws[|raws| - 1]).Some? then 1 else 0)
  }

  /** The number of unmarked lines that come before every marked line. */
  function Leading(raws: seq<string>): nat {
    if raws == [] then 0
    else
      var init := raws[..|raws| - 1];
      Leading(init) + (if CountMatched(init) == 0 && MatchPrefix(raws[|raws| - 1]).None? then 1 else 0)
  }

  /** The decision rule of `_detect_items`, taken once for the whole text: it needs a
      marked line, and two marked lines always suffice. */
  predicate ListMode(matched: nat, nonempty: nat): (b: bool)
    ensures b ==> matched >= 1
    ensures matched >= 2 ==> b
  {
    matched >= 2 || (matched >= 1 && nonempty >= 3)
  }

  /** The decision for a whole text's non-blank lines: a list needs a marked line and
      at least two lines, and two marked lines always make one. */
  predicate IsListMode(raws: seq<string>): (b: bool)
    ensures b ==> CountMatched(raws) >= 1 && |raws| >= 2
    ensures CountMatched(raws) >= 2 ==> b
  {
    ListMode(CountMatched(raws), |raws|)
  }

  /** Every line is non-empty and rstripped. */
  ghost predicate AllRaw(raws: seq<string>) {
    forall j | 0 <= j < |raws| :: raws[j] != [] && IsRStripped(raws[j])
  }

  /** Every item holds a non-blank. */
  ghost predicate AllSolid(items: seq<string>) {
    forall j | 0 <= j < |items| :: HasNonSpace(items[j])
  }

  // ---------------------------------------------------------------------------
  // The list-mode accumulator

  /** The list `items` built so far and the lines of the item in progress (`current`). */
  datatype Acc = Acc(items: seq<string>, current: seq<string>)

  /** The items once the item in progress is closed. */
  function Flush(acc: Acc): seq<string> {
    if acc.current != [] then acc.items + [Join([NL], acc.current)] else acc.items
  }

  /** One line of the list-mode loop: a marked line closes the item in progress and
      opens a new one with its group; an unmarked line continues the item in progress,
      or stands alone when there is none.  Closed items never change, an item is in
      progress once a marked line was seen, and a line adds at most one item. */
  function ListStep(acc: Acc, raw: string): (r: Acc)
    ensures acc.items <= r.items
    ensures r.current != [] <==> acc.current != [] || MatchPrefix(raw).Some?
    ensures |Flush(r)| <= |Flush(acc)| + 1
  {
    match MatchPrefix(raw)
    case Some(content) => Acc(Flush(acc), [content])
    case None =>
      if acc.current != [] then Acc(acc.items, acc.current + [raw]) else Acc(acc.items + [raw], [])
  }

  /** The list-mode loop over `raws`: at most one item per line. */
  function ListFold(raws: seq<string>): (r: Acc)
    ensures |Flush(r)| <= |raws|
  {
    if raws == [] then Acc([], [])
    else ListStep(ListFold(raws[..|raws| - 1]), raws[|raws| - 1])
  }

  /** The list-mode items before the final `strip()`: at most one per line. */
  function ListItems(raws: seq<string>): (r: seq<string>)
    ensures |r| <= |raws|
  {
    Flush(ListFold(raws))
  }

  /** The final comprehension: each item stripped, empty ones dropped, so never more
      items than went in. */
  function CleanItems(items: seq<string>): (r: seq<string>)
    ensures |r| <= |items|
  {
    if items == [] then []
    else
      var s := Strip(items[|items| - 1]);
      CleanItems(items[..|items| - 1]) + (if s == [] then [] else [s])
  }

  /** What `_detect_items` returns for `text`: at most one item per non-blank line. */
  function Segment(text: string): (r: seq<string>)
    ensures |r| <= |Raws(text)|
  {
    var raws := Raws(text);
    CleanItems(if IsListMode(raws) then ListItems(raws) else raws)
  }

  lemma CleanItemsSnoc(items: seq<string>, x: string)
    ensures CleanItems(items + [x]) == CleanItems(items) + (if Strip(x) == [] then [] else [Strip(x)])
  {
    assert (items + [x])[..|items|] == items;
  }

  lemma LeadingSnoc(raws: seq<string>, x: string)
    ensures Leading(raws + [x]) ==
      Leading(raws) + (if CountMatched(raws) == 0 && MatchPrefix(x).None? then 1 else 0)
  {
    assert (raws + [x])[..|raws|] == raws;
  }

  lemma NonBlankSnoc(lines: seq<string>, i: nat)
    requires i < |lines|
    ensures RStrip(lines[i]) == [] ==> NonBlank(lines[..i + 1]) == NonBlank(lines[..i])
    ensures RStrip(lines[i]) != [] ==> NonBlank(lines[..i + 1]) == NonBlank(lines[..i]) + [RStrip(lines[i])]
  {
    assert lines[..i + 1][..i] == lines[..i];
    assert NonBlank(lines[..i]) + [] == NonBlank(lines[..i]);
  }

  lemma CountMatchedSnoc(raws: seq<string>, x: string)
    ensures CountMatched(raws + [x]) == CountMatched(raws) + (if MatchPrefix(x).Some? then 1 else 0)
  {
    assert (raws + [x])[..|raws|] == raws;
  }

  lemma ListFoldSnoc(raws: seq<string>, x: string)
    ensures ListFold(raws + [x]) == ListStep(ListFold(raws), x)
  {
    assert (raws + [x])[..|raws|] == raws;
  }

  /** The first pass of `_detect_items`: counts the non-blank lines and, among them,
      the marked ones. */
  method CountLines(lines: seq<string>) returns (matched: nat, nonempty: nat)
    ensures matched == CountMatched(NonBlank(lines)) && nonempty == |NonBlank(lines)|
  {
    matched := 0;
    nonempty := 0;
    for i := 0 to |lines|
      invariant matched == CountMatched(NonBlank(lines[..i])) && nonempty == |NonBlank(lines[..i])|
    {
      NonBlankSnoc(lines, i);
      matched, nonempty := CountLine(lines[i], NonBlank(lines[..i]), matched, nonempty);
    }
    assert lines[..|lines|] == lines;
  }

  /** The body of the first pass, for one line: a non-blank line is counted, and
      counted as marked when it is. */
  method CountLine(line: string, ghost seen: seq<string>, matched: nat, nonempty: nat)
    returns (matched': nat, nonempty': nat)
    requires matched == CountMatched(seen) && nonempty == |seen|
    ensures var raw := RStrip(line);
            var seen' := if raw == [] then seen else seen + [raw];
            matched' == CountMatched(seen') && nonempty' == |seen'|
  {
    matched', nonempty' := matched, nonempty;
    var raw := RStrip(line);
    if raw == [] {
      return;
    }
    CountMatchedSnoc(seen, raw);
    nonempty' := nonempty' + 1;
    if MatchPrefix(raw).Some? {
      matched' := matched' + 1;
    }
  }

  method GroupLines(lines: seq<string>, listMode: bool) returns (items: seq<string>)
    ensures items == if listMode then ListItems(NonBlank(lines)) else NonBlank(lines)
  {
    items := [];
    var current: seq<string> := [];
    for i := 0 to |lines|
      invariant listMode ==> Acc(items, current) == ListFold(NonBlank(lines[..i]))
      invariant !listMode ==> items == NonBlank(lines[..i]) && current == []
    {
      NonBlankSnoc(lines, i);
      var raw := RStrip(lines[i]);
      if raw == [] {
        continue;
      }
      ListFoldSnoc(NonBlank(lines[..i]), raw);
      items, current := GroupLine(raw, listMode, items, current);
    }
    assert lines[..|lines|] == lines;
    if current != [] {
      items := items + [Join([NL], current)];
    }
  }

  /** One non-blank line of the second loop: in list mode the step `ListStep`, in
      paragraph mode an item of its own. */
  method GroupLine(raw: string, listMode: bool, items: seq<string>, current: seq<string>)
    returns (items': seq<string>, current': seq<string>)
    ensures listMode ==> Acc(items', current') == ListStep(Acc(items, current), raw)
    ensures !listMode ==> items' == items + [raw] && current' == current
  {
    items', current' := items, current;
    if listMode {
      var content := MatchPrefix(raw);
      if content.Some? {
        if current' != [] {
          items' := items' + [Join([NL], current')];
          current' := [];
        }
        current' := current' + [content.value];
      } else {
        if current' != [] {
          current' := current' + [raw];
        } else {
          items' := items' + [raw];
        }
      }
    } else {
      items' := items' + [raw];
    }
  }

  /** `_detect_items`: the list-mode decision from the first pass, the grouping of the
      second, then the items stripped, empty ones dropped. */
  method DetectItems(text: string) returns (result: seq<string>)
    ensures result == Segment(text)
  {
    var lines := SplitLines(text);
    var matched, nonempty := CountLines(lines);
    var listMode := matched >= 2 || (matched >= 1 && nonempty >= 3);
    var items := GroupLines(lines, listMode);
    result := CleanItems(items);
  }

  // ---------------------------------------------------------------------------
  // Properties

  /** Each kept item is non-empty and is its own `strip()`. */
  lemma {:induction false} CleanItemShape(items: seq<string>, j: nat)
    requires j < |CleanItems(items)|
    ensures CleanItems(items)[j] != [] && Strip(CleanItems(items)[j]) == CleanItems(items)[j]
  {
    var init := items[..|items| - 1];
    var last := items[|items| - 1];
    assert items == init + [last];
    CleanItemsSnoc(init, last);
    if j < |CleanItems(init)| {
      CleanItemShape(init, j);
    } else {
      StripIdempotent(last);
    }
  }

  /** When every item holds a non-blank, the comprehension drops none of them ... */
  lemma {:induction false} CleanItemsCount(items: seq<string>)
    requires AllSolid(items)
    ensures |CleanItems(items)| == |items|
  {
    if items != [] {
      var init := items[..|items| - 1];
      SolidInit(items);
      CleanItemsCount(init);
      StripKeepsNonSpace(items[|items| - 1]);
    }
  }

  lemma SolidInit(items: seq<string>)
    requires items != [] && AllSolid(items)
    ensures AllSolid(items[..|items| - 1])
  {
    var init := items[..|items| - 1];
    forall j | 0 <= j < |init| ensures HasNonSpace(init[j]) {
      assert init[j] == items[j];
    }
  }

  /** ... and keeps each one, stripped, in its place. */
  lemma {:induction false} CleanItemAt(items: seq<string>, j: nat)
    requires AllSolid(items) && j < |items|
    ensures j < |CleanItems(items)| && CleanItems(items)[j] == Strip(items[j])
  {
    var init := items[..|items| - 1];
    var last := items[|items| - 1];
    assert items == init + [last];
    SolidInit(items);
    CleanItemsCount(init);
    StripKeepsNonSpace(last);
    CleanItemsSnoc(init, last);
    if j < |init| {
      CleanItemAt(init, j);
    }
  }

  /** Item shape: whatever the text, every item is non-empty and stripped on both sides. */
  lemma SegmentItemShape(text: string, j: nat)
    requires j < |Segment(text)|
    ensures Segment(text)[j] != [] && Strip(Segment(text)[j]) == Segment(text)[j]
  {
    var raws := Raws(text);
    CleanItemShape(if IsListMode(raws) then ListItems(raws) else raws, j);
  }

  lemma {:induction false} NonBlankRaw(lines: seq<string>)
    ensures AllRaw(NonBlank(lines))
  {
    if lines != [] {
      NonBlankRaw(lines[..|lines| - 1]);
    }
  }

  lemma RawsSolid(raws: seq<string>)
    requires AllRaw(raws)
    ensures AllSolid(raws)
  {
    forall j | 0 <= j < |raws| ensures HasNonSpace(raws[j]) {
      RStrippedHasNonSpace(raws[j]);
    }
  }

  lemma RStrippedHasNonSpace(s: string)
    requires s != [] && IsRStripped(s)
    ensures HasNonSpace(s)
  {
    assert !IsSpace(s[|s| - 1]);
  }

  /** Paragraph mode: one item per non-blank line ... */
  lemma ParagraphModeCount(text: string)
    requires !IsListMode(Raws(text))
    ensures |Segment(text)| == |Raws(text)|
  {
    NonBlankRaw(SplitLines(text));
    RawsSolid(Raws(text));
    CleanItemsCount(Raws(text));
  }

  /** ... which is that line stripped, in input order. */
  lemma ParagraphModeItem(text: string, j: nat)
    requires !IsListMode(Raws(text)) && j < |Raws(text)|
    ensures j < |Segment(text)| && Segment(text)[j] == Strip(Raws(text)[j])
  {
    NonBlankRaw(SplitLines(text));
    RawsSolid(Raws(text));
    CleanItemsCount(Raws(text));
    CleanItemAt(Raws(text), j);
  }

  /** The accumulator after any prefix of lines: an item is in progress exactly when a
      marked line has been seen; before that every line stood alone. */
  lemma {:induction false} ListFoldCount(raws: seq<string>)
    ensures (ListFold(raws).current == []) == (CountMatched(raws) == 0)
    ensures CountMatched(raws) == 0 ==> Leading(raws) == |raws| && ListFold(raws).items == raws
    ensures |ListItems(raws)| == Leading(raws) + CountMatched(raws)
  {
    if raws != [] {
      var init := raws[..|raws| - 1];
      var x := raws[|raws| - 1];
      assert raws == init + [x];
      ListFoldCount(init);
      ListFoldSnoc(init, x);
      CountMatchedSnoc(init, x);
      LeadingSnoc(init, x);
    }
  }

  /** Built from non-blank lines, every list-mode item holds a non-blank. */
  lemma {:induction false} ListFoldSolid(raws: seq<string>)
    requires AllRaw(raws)
    ensures AllSolid(ListFold(raws).items)
    ensures ListFold(raws).current != [] ==> HasNonSpace(ListFold(raws).current[0])
  {
    if raws != [] {
      var init := raws[..|raws| - 1];
      var x := raws[|raws| - 1];
      assert AllRaw(init) by {
        forall j | 0 <= j < |init| ensures init[j] != [] && IsRStripped(init[j]) {
          assert init[j] == raws[j];
        }
      }
      ListFoldSolid(init);
      var acc := ListFold(init);
      assert ListFold(raws) == ListStep(acc, x);
      RStrippedHasNonSpace(x);
      if acc.current != [] {
        JoinHasNonSpace(acc.current);
      }
      if MatchPrefix(x).Some? {
        MatchPrefixOfRStripped(x);
        assert !IsSpace(MatchPrefix(x).value[0]);
      }
    }
  }

  lemma ListItemsSolid(raws: seq<string>)
    requires AllRaw(raws)
    ensures AllSolid(ListItems(raws))
  {
    ListFoldSolid(raws);
    var acc := ListFold(raws);
    if acc.current != [] {
      JoinHasNonSpace(acc.current);
    }
  }

  lemma JoinHasNonSpace(xs: seq<string>)
    requires xs != [] && HasNonSpace(xs[0])
    ensures HasNonSpace(Join([NL], xs))
  {
    var k :| 0 <= k < |xs[0]| && !IsSpace(xs[0][k]);
    if |xs| == 1 {
      assert Join([NL], xs) == xs[0];
    } else {
      JoinCons([NL], xs[0], xs[1..]);
      assert xs == [xs[0]] + xs[1..];
      assert Join([NL], xs)[k] == xs[0][k];
    }
  }

  /** List mode, item by item: starting from no items, a marked line appends its group
      as a new item; an unmarked line before any marked line appends itself; an
      unmarked line after one is appended to the last item after a line feed, with
      its indentation kept. */
  lemma ListItemsStep(raws: seq<string>, x: string)
    ensures ListItems([]) == []
    ensures MatchPrefix(x).Some? ==> ListItems(raws + [x]) == ListItems(raws) + [MatchPrefix(x).value]
    ensures MatchPrefix(x).None? && CountMatched(raws) == 0 ==> ListItems(raws + [x]) == ListItems(raws) + [x]
    ensures MatchPrefix(x).None? && CountMatched(raws) > 0 ==>
      var before := ListItems(raws);
      before != [] &&
      ListItems(raws + [x]) == before[..|before| - 1] + [before[|before| - 1] + [NL] + x]
  {
    ListFoldSnoc(raws, x);
    ListFoldCount(raws);
    var acc := ListFold(raws);
    if MatchPrefix(x).None? && CountMatched(raws) > 0 {
      JoinSnoc([NL], acc.current, x);
      assert Flush(acc)[..|Flush(acc)| - 1] == acc.items;
    }
  }

  /** The text each non-blank line contributes: its group when marked, itself otherwise. */
  function Content(raw: string): string {
    match MatchPrefix(raw)
    case Some(c) => c
    case None => raw
  }

  function Contents(raws: seq<string>): (r: seq<string>)
    ensures |r| == |raws|
  {
    if raws == [] then [] else Contents(raws[..|raws| - 1]) + [Content(raws[|raws| - 1])]
  }

  /** Extending the last item by a line joins to the same text as adding an item. */
  lemma JoinGrowLast(front: seq<string>, last: string, y: string)
    ensures Join([NL], front + [last + [NL] + y]) == Join([NL], front + [last]) + [NL] + y
  {
    JoinSnoc([NL], front, last);
    JoinSnoc([NL], front, last + [NL] + y);
  }

  /** After one more line, the items join to the previous text, a line feed and the
      line's contribution. */
  lemma ListItemsJoinStep(raws: seq<string>, x: string)
    ensures var before := ListItems(raws);
      Join([NL], ListItems(raws + [x])) ==
        if before == [] then Content(x) else Join([NL], before) + [NL] + Content(x)
  {
    ListItemsStep(raws, x);
    var before := ListItems(raws);
    if MatchPrefix(x).None? && CountMatched(raws) > 0 {
      var front := before[..|before| - 1];
      var last := before[|before| - 1];
      assert before == front + [last];
      JoinGrowLast(front, last, x);
    } else {
      JoinSnoc([NL], before, Content(x));
    }
  }

  /** List mode loses, duplicates and reorders nothing: the items, joined by line
      feeds, are the contributions of the non-blank lines joined by line feeds. */
  lemma {:induction false} ListItemsKeepEveryLine(raws: seq<string>)
    ensures (ListItems(raws) == []) == (raws == [])
    ensures Join([NL], ListItems(raws)) == Join([NL], Contents(raws))
  {
    if raws != [] {
      var init := raws[..|raws| - 1];
      var x := raws[|raws| - 1];
      assert raws == init + [x];
      ListItemsKeepEveryLine(init);
      ListItemsJoinStep(init, x);
      ListItemsStep(init, x);
      JoinSnoc([NL], Contents(init), Content(x));
    }
  }

  /** List mode: the item count is the number of unmarked lines before the first
      marked one plus the number of marked lines ... */
  lemma ListModeCount(text: string)
    requires IsListMode(Raws(text))
    ensures |Segment(text)| == Leading(Raws(text)) + CountMatched(Raws(text))
  {
    NonBlankRaw(SplitLines(text));
    ListItemsSolid(Raws(text));
    ListFoldCount(Raws(text));
    CleanItemsCount(ListItems(Raws(text)));
  }

  /** ... and the items are the list-mode groups, each stripped, none dropped. */
  lemma ListModeItem(text: string, j: nat)
    requires IsListMode(Raws(text)) && j < |ListItems(Raws(text))|
    ensures j < |Segment(text)| && Segment(text)[j] == Strip(ListItems(Raws(text))[j])
  {
    NonBlankRaw(SplitLines(text));
    ListItemsSolid(Raws(text));
    CleanItemsCount(ListItems(Raws(text)));
    CleanItemAt(ListItems(Raws(text)), j);
  }

  lemma {:induction false} NonBlankAppend(a: seq<string>, b: seq<string>)
    ensures NonBlank(a + b) == NonBlank(a) + NonBlank(b)
  {
    if b == [] {
      assert a + b == a;
    } else {
      var init := b[..|b| - 1];
      assert a + b == (a + init) + [b[|b| - 1]];
      assert (a + b)[..|a + b| - 1] == a + init;
      NonBlankAppend(a, init);
    }
  }

  lemma {:induction false} CountMatchedAppend(a: seq<string>, b: seq<string>)
    ensures CountMatched(a + b) == CountMatched(a) + CountMatched(b)
  {
    if b == [] {
      assert a + b == a;
    } else {
      var init := b[..|b| - 1];
      assert (a + b)[..|a + b| - 1] == a + init;
      CountMatchedAppend(a, init);
    }
  }

  /** Every line carries a list marker once rstripped. */
  ghost predicate AllMarked(lines: seq<string>) {
    forall j | 0 <= j < |lines| :: MatchPrefix(RStrip(lines[j])).Some?
  }

  lemma {:induction false} MarkedLinesCount(extra: seq<string>)
    requires AllMarked(extra)
    ensures |NonBlank(extra)| == |extra| && CountMatched(NonBlank(extra)) == |extra|
  {
    if extra != [] {
      var init := extra[..|extra| - 1];
      assert AllMarked(init) by {
        forall j | 0 <= j < |init| ensures MatchPrefix(RStrip(init[j])).Some? {
          assert init[j] == extra[j];
        }
      }
      MarkedLinesCount(init);
      var raw := RStrip(extra[|extra| - 1]);
      assert raw != [];
      CountMatchedSnoc(NonBlank(init), raw);
    }
  }

  /** Inserting marked lines anywhere into a text that is in list mode keeps it in
      list mode. */
  lemma ListModeMonotone(before: seq<string>, extra: seq<string>, after: seq<string>)
    requires AllMarked(extra)
    requires IsListMode(NonBlank(before + after))
    ensures IsListMode(NonBlank(before + extra + after))
  {
    NonBlankAppend(before, after);
    NonBlankAppend(before + extra, after);
    NonBlankAppend(before, extra);
    CountMatchedAppend(NonBlank(before), NonBlank(after));
    CountMatchedAppend(NonBlank(before) + NonBlank(extra), NonBlank(after));
    CountMatchedAppend(NonBlank(before), NonBlank(extra));
    MarkedLinesCount(extra);
  }

  lemma {:induction false} NonBlankHasSomeLine(lines: seq<string>, j: nat)
    requires j < |lines| && HasNonSpace(lines[j])
    ensures NonBlank(lines) != []
  {
    var init := lines[..|lines| - 1];
    if j < |lines| - 1 {
      assert init[j] == lines[j];
      NonBlankHasSomeLine(init, j);
    } else {
      StripKeepsNonSpace(lines[j]);
    }
  }

  /** No line holds a non-blank. */
  ghost predicate AllBlank(lines: seq<string>) {
    forall j | 0 <= j < |lines| :: !HasNonSpace(lines[j])
  }

  lemma {:induction false} NonBlankOfBlankLines(lines: seq<string>)
    requires AllBlank(lines)
    ensures NonBlank(lines) == []
  {
    if lines != [] {
      var init := lines[..|lines| - 1];
      assert AllBlank(init) by {
        forall j | 0 <= j < |init| ensures !HasNonSpace(init[j]) {
          assert init[j] == lines[j];
        }
      }
      NonBlankOfBlankLines(init);
      var l := lines[|lines| - 1];
      assert !HasNonSpace(l);
    }
  }

  /** The text yields no item exactly when it is blank, so the "no items found" exit of
      Multi-Send can only follow the "clipboard is empty" one. */
  lemma NoItemsIffBlank(text: string)
    ensures (Segment(text) == []) == !HasNonSpace(text)
  {
    var lines := SplitLines(text);
    var raws := Raws(text);
    if HasNonSpace(text) {
      NonSpaceInSomeLine(text);
      var j :| 0 <= j < |lines| && HasNonSpace(lines[j]);
      NonBlankHasSomeLine(lines, j);
      if IsListMode(raws) {
        ListModeCount(text);
        ListItemsKeepEveryLine(raws);
        ListFoldCount(raws);
      } else {
        ParagraphModeCount(text);
      }
    } else {
      forall j | 0 <= j < |lines| ensures !HasNonSpace(lines[j]) {
        LineOfBlankText(text, j);
      }
      NonBlankOfBlankLines(lines);
      assert ListItems(raws) == [];
    }
  }

  lemma LineOfBlankText(text: string, j: nat)
    requires !HasNonSpace(text) && j < |SplitLines(text)|
    ensures !HasNonSpace(SplitLines(text)[j])
  {
    var line := SplitLines(text)[j];
    if HasNonSpace(line) {
      var k :| 0 <= k < |line| && !IsSpace(line[k]);
      var c := line[k];
      assert c in line;
      if c !in text {
        SplitLinesFree(text, c);
      }
    }
  }

  // ---------------------------------------------------------------------------
  // Characters of the items

  lemma {:induction false} NonBlankFree(lines: seq<string>, c: char)
    requires NoneContain(lines, c)
    ensures NoneContain(NonBlank(lines), c)
  {
    if lines != [] {
      var init := lines[..|lines| - 1];
      assert NoneContain(init, c) by {
        forall j | 0 <= j < |init| ensures c !in init[j] {
          assert init[j] == lines[j];
        }
      }
      NonBlankFree(init, c);
      StripFree(lines[|lines| - 1], c);
    }
  }

  lemma NoneContainSnoc(xs: seq<string>, y: string, c: char)
    requires NoneContain(xs, c) && c !in y
    ensures NoneContain(xs + [y], c)
  {
  }

  lemma FlushFree(acc: Acc, c: char)
    requires c != NL && NoneContain(acc.items, c) && NoneContain(acc.current, c)
    ensures NoneContain(Flush(acc), c)
  {
    if acc.current != [] {
      JoinFree([NL], acc.current, c);
      NoneContainSnoc(acc.items, Join([NL], acc.current), c);
    }
  }

  lemma ListStepFree(acc: Acc, x: string, c: char)
    requires c != NL && c !in x && NoneContain(acc.items, c) && NoneContain(acc.current, c)
    ensures NoneContain(ListStep(acc, x).items, c) && NoneContain(ListStep(acc, x).current, c)
  {
    FlushFree(acc, c);
    match MatchPrefix(x)
    case Some(content) =>
      SliceFree(x, c, |x| - |content|, |x|);
    case None =>
      NoneContainSnoc(acc.items, x, c);
      NoneContainSnoc(acc.current, x, c);
  }

  lemma {:induction false} ListFoldFree(raws: seq<string>, c: char)
    requires c != NL && NoneContain(raws, c)
    ensures NoneContain(ListFold(raws).items, c) && NoneContain(ListFold(raws).current, c)
  {
    if raws != [] {
      var init := raws[..|raws| - 1];
      var x := raws[|raws| - 1];
      assert NoneContain(init, c) by {
        forall j | 0 <= j < |init| ensures c !in init[j] {
          assert init[j] == raws[j];
        }
      }
      ListFoldFree(init, c);
      ListStepFree(ListFold(init), x, c);
    }
  }

  lemma {:induction false} CleanItemsFree(items: seq<string>, c: char)
    requires NoneContain(items, c)
    ensures NoneContain(CleanItems(items), c)
  {
    if items != [] {
      var init := items[..|items| - 1];
      assert NoneContain(init, c) by {
        forall j | 0 <= j < |init| ensures c !in init[j] {
          assert init[j] == items[j];
        }
      }
      CleanItemsFree(init, c);
      StripFree(items[|items| - 1], c);
    }
  }

  /** A character other than the line feed that does not occur in the text occurs in
      no item: items are made of the text's characters and line feeds. */
  lemma SegmentFree(text: string, c: char)
    requires c != NL && c !in text
    ensures NoneContain(Segment(text), c)
  {
    SplitLinesFree(text, c);
    NonBlankFree(SplitLines(text), c);
    var raws := Raws(text);
    if IsListMode(raws) {
      ListFoldFree(raws, c);
      FlushFree(ListFold(raws), c);
      CleanItemsFree(ListItems(raws), c);
    } else {
      CleanItemsFree(raws, c);
    }
  }

  /** Lines that are already non-empty and carry no blank at either end. */
  ghost predicate AllTrimmed(lines: seq<string>) {
    forall j | 0 <= j < |lines| :: lines[j] != [] && !IsSpace(lines[j][0]) && !IsSpace(lines[j][|lines[j]| - 1])
  }

  /** Lines that `rstrip()` leaves non-empty and unchanged all survive the blank-line
      filter. */
  lemma {:induction false} NonBlankKeepsAll(lines: seq<string>)
    requires AllRaw(lines)
    ensures NonBlank(lines) == lines
  {
    if lines != [] {
      var n := |lines| - 1;
      assert AllRaw(lines[..n]) by {
        forall j | 0 <= j < n ensures lines[..n][j] != [] && IsRStripped(lines[..n][j]) {
          assert lines[..n][j] == lines[j];
        }
      }
      NonBlankKeepsAll(lines[..n]);
      assert RStrip(lines[n]) == lines[n];
      assert lines == lines[..n] + [lines[n]];
    }
  }

  /** A text in paragraph mode whose lines are already stripped and non-empty is cut
      into exactly its lines, so joining the items with line feeds gives the text
      back, less one final line feed. */
  lemma ParagraphRoundTrip(text: string)
    requires AllTrimmed(SplitLines(text)) && !IsListMode(SplitLines(text))
    ensures Segment(text) == SplitLines(text)
    ensures Join([NL], Segment(text)) == if text != [] && text[|text| - 1] == NL then text[..|text| - 1] else text
  {
    ParagraphItems(text);
    JoinSplitLines(text);
  }

  lemma ParagraphItems(text: string)
    requires AllTrimmed(SplitLines(text)) && !IsListMode(SplitLines(text))
    ensures Segment(text) == SplitLines(text)
  {
    var lines := SplitLines(text);
    assert AllRaw(lines) by {
      forall j | 0 <= j < |lines| ensures lines[j] != [] && IsRStripped(lines[j]) {
      }
    }
    NonBlankKeepsAll(lines);
    assert Raws(text) == lines;
    CleanItemsKeepsTrimmed(lines);
  }

  /** Items already non-empty and stripped are kept as they are. */
  lemma CleanItemsKeepsTrimmed(items: seq<string>)
    requires AllTrimmed(items)
    ensures CleanItems(items) == items
  {
    assert AllRaw(items) by {
      forall j | 0 <= j < |items| ensures items[j] != [] && IsRStripped(items[j]) {
      }
    }
    RawsSolid(items);
    CleanItemsCount(items);
    forall j | 0 <= j < |items| ensures CleanItems(items)[j] == items[j] {
      CleanItemAt(items, j);
      StripOfStripped(items[j]);
    }
  }
}
