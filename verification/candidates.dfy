/**
  Multi-Paste's candidate list: each stored clipboard record is shown to fzf as one
  line, `rowid<TAB>label`, terminated by NUL; the records fzf prints back are
  split on NUL and their rowids read from the text before the first tab.
*/
module Candidates {
  import opened Wrappers
  import opened Text

  const MaxDisplayLen: nat := 80
  const Tab: char := '\t'
  const Nul: char := '\0'

  /** A stored clipboard record: its SQLite rowid and its text. */
  datatype Row = Row(rowid: int, item: string)

  /** What `_display_line` returns. */
  datatype Display = Display(firstLine: string, lineCount: nat, truncated: bool)

  /** `_display_line`: the first line with tabs made spaces, cut to 80 characters,
      and the number of lines, counting empty content as one line. */
  function DisplayLine(item: string): (d: Display)
    ensures |d.firstLine| <= MaxDisplayLen && d.lineCount >= 1
  {
    var lines := SplitLines(item);
    var lineCount := if lines == [] then 1 else |lines|;
    var firstLine := ReplaceChar(if lines == [] then "" else lines[0], Tab, ' ');
    if |firstLine| > MaxDisplayLen then Display(firstLine[..MaxDisplayLen], lineCount, true)
    else Display(firstLine, lineCount, false)
  }

  /** The label fzf shows: multi-line items say how many more lines they have, and a
      cut single line ends in an ellipsis.  It starts with the shown first line and
      goes beyond it exactly when the item has several lines or that line was cut. */
  function Label(item: string): (l: string)
    ensures var d := DisplayLine(item);
            d.firstLine <= l && (l == d.firstLine <==> d.lineCount <= 1 && !d.truncated)
  {
    var d := DisplayLine(item);
    d.firstLine + Annotation(d)
  }

  /** What follows the first line: nothing exactly when there is one line, not cut. */
  function Annotation(d: Display): (a: string)
    ensures a == "" <==> d.lineCount <= 1 && !d.truncated
  {
    if d.lineCount > 1 then "  [+" + NatToString(d.lineCount - 1) + " lines]"
    else if d.truncated then "..."
    else ""
  }

  /** One record of fzf's input, before its NUL terminator: the text before its first
      tab is the decimal rowid. */
  function Record(row: Row): (r: string)
    ensures RowidField(r) == IntToString(row.rowid)
  {
    var s := IntToString(row.rowid);
    assert forall k | 0 <= k < |s| :: s[k] == '-' || IsDigit(s[k]);
    FieldBeforeTab(s, Label(row.item));
    s + [Tab] + Label(row.item)
  }

  function Records(rows: seq<Row>): (r: seq<string>)
    ensures |r| == |rows|
  {
    seq(|rows|, k requires 0 <= k < |rows| => Record(rows[k]))
  }

  function RowIds(rows: seq<Row>): (r: seq<int>)
    ensures |r| == |rows|
  {
    seq(|rows|, k requires 0 <= k < |rows| => rows[k].rowid)
  }

  /** Every string of `xs` followed by `c`. */
  function Terminated(xs: seq<string>, c: char): (r: seq<string>)
    ensures |r| == |xs|
  {
    seq(|xs|, k requires 0 <= k < |xs| => xs[k] + [c])
  }

  /** The bytes `_write_fzf_input` produces: every record followed by NUL, that is the
      records separated by NUL, with one NUL more at the end. */
  function FzfInput(rows: seq<Row>): (r: string)
    ensures r == Join([Nul], Records(rows) + [""])
  {
    JoinTerminated(Records(rows), Nul);
    Join([], Terminated(Records(rows), Nul))
  }

  /** `_write_fzf_input`. */
  method WriteFzfInput(rows: seq<Row>) returns (out: string)
    ensures out == FzfInput(rows)
  {
    var parts: seq<string> := [];
    for k := 0 to |rows|
      invariant parts == Terminated(Records(rows), Nul)[..k]
    {
      var record := RecordLine(rows[k]);
      PrefixStep(Terminated(Records(rows), Nul), k);
      parts := parts + [record + [Nul]];
    }
    assert Terminated(Records(rows), Nul)[..|rows|] == Terminated(Records(rows), Nul);
    out := Join([], parts);
  }

  /** The body of `_write_fzf_input`'s loop: one record, before its terminator. */
  method RecordLine(row: Row) returns (record: string)
    ensures record == Record(row)
  {
    var d := DisplayLine(row.item);
    var firstLine := d.firstLine;
    if d.lineCount > 1 {
      firstLine := firstLine + ("  [+" + NatToString(d.lineCount - 1) + " lines]");
    } else if d.truncated {
      firstLine := firstLine + "...";
    }
    record := IntToString(row.rowid) + [Tab] + firstLine;
  }

  // ---------------------------------------------------------------------------
  // Reading the selection back

  /** `decoded.split("\t", 1)[0]`: the longest prefix without a tab, which is the
      whole entry or is followed by a tab. */
  function RowidField(entry: string): (f: string)
    ensures f <= entry && Tab !in f
    ensures |f| < |entry| ==> entry[|f|] == Tab
  {
    entry[..IndexOf(entry, Tab)]
  }

  /** `[s for s in out.split(b"\0") if s]`: non-empty entries, at most one more than
      the NULs. */
  function Selected(out: string): (r: seq<string>)
    ensures NoneEmpty(r) && |r| <= Count(out, Nul) + 1
  {
    SplitCount(out, Nul);
    NonEmpty(Split(out, Nul))
  }

  /** What `int(field)` gives for each entry's rowid field: `None` where it raises
      `ValueError`. */
  function EntryIds(entries: seq<string>): (r: seq<Option<int>>)
    ensures |r| == |entries|
  {
    seq(|entries|, k requires 0 <= k < |entries| => ParseInt(RowidField(entries[k])))
  }

  /** The values held by the `Some`s, in order; the `None`s are skipped. */
  function Somes(opts: seq<Option<int>>): (r: seq<int>)
    ensures |r| <= |opts|
  {
    if opts == [] then []
    else Somes(opts[..|opts| - 1]) + Kept(opts[|opts| - 1])
  }

  function Kept(o: Option<int>): seq<int> {
    match o
    case Some(v) => [v]
    case None => []
  }

  /** The rowids of fzf's output, in order: entries that are not an integer before
      their first tab are skipped, so there are at most as many as entries. */
  function DecodeRowids(out: string): (r: seq<int>)
    ensures |r| <= |Selected(out)|
  {
    Somes(EntryIds(Selected(out)))
  }

  /** The rowid parsing of `_run_fzf_select`: `None` stands for the exit with status
      130 when nothing was selected or no entry held a rowid. */
  method SelectRowids(out: string) returns (r: Option<seq<int>>)
    ensures r == if DecodeRowids(out) == [] then None else Some(DecodeRowids(out))
  {
    var selected := Selected(out);
    if selected == [] {
      return None;
    }
    ghost var parsedAll := EntryIds(selected);
    var rowids: seq<int> := [];
    for k := 0 to |selected|
      invariant rowids == Somes(parsedAll[..k])
    {
      var parsed := ParseInt(RowidField(selected[k]));
      PrefixStep(parsedAll, k);
      assert parsedAll[..k + 1][..k] == parsedAll[..k];
      if parsed.Some? {
        rowids := rowids + [parsed.value];
      }
    }
    assert parsedAll[..|selected|] == parsedAll;
    if rowids == [] {
      return None;
    }
    return Some(rowids);
  }

  // ---------------------------------------------------------------------------
  // Properties of the label

  /** The first line of `item` is the text before its first line feed. */
  lemma FirstLineOf(item: string)
    ensures var lines := SplitLines(item);
            (lines == [] <==> item == []) &&
            (lines != [] ==> lines[0] == item[..IndexOf(item, NL)])
  {
    var pieces := Split(item, NL);
    var i := IndexOf(item, NL);
    if i < |item| {
      assert |pieces| >= 2;
    }
  }

  /** The label shows the start of the item: its text up to the first line feed or
      the 80th character, whichever comes first, with tabs made spaces; `truncated`
      holds exactly when that first line is longer than 80. */
  lemma DisplayShowsStart(item: string)
    ensures var w := IndexOf(item, NL);
            var d := DisplayLine(item);
            && d.truncated == (w > MaxDisplayLen)
            && d.firstLine == ReplaceChar(item[..if w > MaxDisplayLen then MaxDisplayLen else w], Tab, ' ')
  {
    FirstLineOf(item);
    var w := IndexOf(item, NL);
    var line := item[..w];
    assert SplitLines(item) == [] ==> line == [];
    assert SplitLines(item) != [] ==> SplitLines(item)[0] == line;
    var first := ReplaceChar(line, Tab, ' ');
    if w > MaxDisplayLen {
      ReplaceCharPrefix(line, Tab, ' ', MaxDisplayLen);
      assert line[..MaxDisplayLen] == item[..MaxDisplayLen];
    }
  }

  /** `line_count` is the number of lines: one per line feed plus an unterminated last
      line, and 1 for empty content. */
  lemma DisplayLineCount(item: string)
    ensures DisplayLine(item).lineCount ==
            if item == [] then 1 else Count(item, NL) + (if item[|item| - 1] != NL then 1 else 0)
  {
    FirstLineOf(item);
    LineCount(item);
  }

  /** The shown first line holds no line feed and no tab, and a NUL only when the
      item does. */
  lemma FirstLineFree(item: string, c: char)
    requires c == Tab || c == NL || (c == Nul && c !in item)
    ensures c !in DisplayLine(item).firstLine
  {
    DisplayShowsStart(item);
    var w := IndexOf(item, NL);
    var n := if w > MaxDisplayLen then MaxDisplayLen else w;
    assert c != Tab ==> c !in item[..n];
    ReplaceCharFree(item[..n], Tab, ' ', c);
  }

  /** A label never holds a tab or a line feed, so it stays one fzf field on one line;
      it holds a NUL only when the item does. */
  lemma LabelFree(item: string, c: char)
    requires c == Tab || c == NL || (c == Nul && c !in item)
    ensures c !in Label(item)
  {
    FirstLineFree(item, c);
    AnnotationFree(DisplayLine(item), c);
  }

  lemma AnnotationFree(d: Display, c: char)
    requires c == Tab || c == NL || c == Nul
    ensures c !in Annotation(d)
  {
    if d.lineCount > 1 {
      var digits := NatToString(d.lineCount - 1);
      assert !IsDigit(c);
      assert c !in digits;
    }
  }

  /** An item with a line feed before its last character has several lines: its label
      carries `"  [+N lines]"`, `N` counting the lines after the first, and no
      ellipsis even when the first line was cut. */
  lemma MultiLineLabel(item: string, k: nat) returns (n: nat)
    requires k < |item| - 1 && item[k] == NL
    ensures n == Count(item, NL) - (if item[|item| - 1] == NL then 1 else 0)
    ensures Annotation(DisplayLine(item)) == "  [+" + NatToString(n) + " lines]"
  {
    var front := item[..|item| - 1];
    assert item == front + [item[|item| - 1]];
    CountAppend(front, [item[|item| - 1]], NL);
    CountSome(front, NL, k);
    DisplayLineCount(item);
    n := DisplayLine(item).lineCount - 1;
  }

  /** An item whose only line feed, if any, is its last character is one line ... */
  lemma SingleLine(item: string)
    requires item == [] || NL !in item[..|item| - 1]
    ensures DisplayLine(item).lineCount == 1
  {
    AtMostOneLine(item);
  }

  /** ... and its label gets `"..."` exactly when that line is longer than 80
      characters. */
  lemma SingleLineLabel(item: string)
    requires item == [] || NL !in item[..|item| - 1]
    ensures Annotation(DisplayLine(item)) == if IndexOf(item, NL) > MaxDisplayLen then "..." else ""
  {
    SingleLine(item);
    DisplayShowsStart(item);
  }

  // ---------------------------------------------------------------------------
  // The record round trip

  /** NUL-terminated pieces concatenated are the pieces joined by NUL, plus an empty
      last piece. */
  lemma {:induction false} JoinTerminated(xs: seq<string>, c: char)
    ensures Join([], Terminated(xs, c)) == Join([c], xs + [""])
  {
    if xs != [] {
      var rest := xs[1..];
      JoinTerminated(rest, c);
      assert xs + [""] == [xs[0]] + (rest + [""]);
      JoinCons([c], xs[0], rest + [""]);
      if rest == [] {
        assert Terminated(xs, c) == [xs[0] + [c]];
        assert rest + [""] == [""];
      } else {
        assert Terminated(xs, c) == [xs[0] + [c]] + Terminated(rest, c);
        JoinCons([], xs[0] + [c], Terminated(rest, c));
      }
    }
  }

  /** Non-empty entries without NUL, each written with a NUL after it, are read back
      as the same entries. */
  lemma SelectedTerminated(entries: seq<string>)
    requires NoneEmpty(entries) && NoneContain(entries, Nul)
    ensures Selected(Join([], Terminated(entries, Nul))) == entries
  {
    JoinTerminated(entries, Nul);
    assert NoneContain(entries + [""], Nul) by {
      forall j | 0 <= j < |entries + [""]| ensures Nul !in (entries + [""])[j] {
        if j < |entries| {
          assert (entries + [""])[j] == entries[j];
        }
      }
    }
    SplitJoin(entries + [""], Nul);
    NonEmptySnoc(entries, "");
  }

  /** The field before the first tab of `s + TAB + rest`, for `s` without a tab. */
  lemma FieldBeforeTab(s: string, rest: string)
    requires Tab !in s
    ensures RowidField(s + [Tab] + rest) == s
  {
    var r := s + [Tab] + rest;
    assert r[|s|] == Tab;
    assert forall k | 0 <= k < |s| :: r[k] == s[k];
    assert r[..|s|] == s;
  }

  /** The rowid field of a record reads back as the rowid. */
  lemma RecordRowid(row: Row)
    ensures ParseInt(RowidField(Record(row))) == Some(row.rowid)
  {
    ParseIntToString(row.rowid);
  }

  /** Options that are all present give their values, in order. */
  lemma {:induction false} SomesAll(opts: seq<Option<int>>, ids: seq<int>)
    requires |opts| == |ids|
    requires forall k | 0 <= k < |opts| :: opts[k] == Some(ids[k])
    ensures Somes(opts) == ids
  {
    if opts != [] {
      var n := |opts| - 1;
      SomesAll(opts[..n], ids[..n]);
      assert ids == ids[..n] + [ids[n]];
    }
  }

  lemma ParsedRecords(rows: seq<Row>)
    ensures Somes(EntryIds(Records(rows))) == RowIds(rows)
  {
    forall k | 0 <= k < |rows| ensures EntryIds(Records(rows))[k] == Some(RowIds(rows)[k]) {
      RecordRowid(rows[k]);
    }
    SomesAll(EntryIds(Records(rows)), RowIds(rows));
  }

  /** Decoding fzf's output recovers exactly the rowids of the records it printed, in
      order, when no label contains NUL. */
  lemma RowidRoundTrip(selected: seq<Row>)
    requires forall k | 0 <= k < |selected| :: Nul !in Label(selected[k].item)
    ensures DecodeRowids(FzfInput(selected)) == RowIds(selected)
  {
    var records := Records(selected);
    forall j | 0 <= j < |records| ensures records[j] != "" && Nul !in records[j] {
      RecordFree(selected[j]);
    }
    SelectedTerminated(records);
    ParsedRecords(selected);
  }

  lemma RecordFree(row: Row)
    requires Nul !in Label(row.item)
    ensures Record(row) != "" && Nul !in Record(row)
  {
    var s := IntToString(row.rowid);
    assert forall k | 0 <= k < |s| :: s[k] == '-' || IsDigit(s[k]);
    assert Nul !in s;
  }

  /** Items without NUL give labels without NUL, so their records decode. */
  lemma RowidRoundTripItems(selected: seq<Row>)
    requires forall k | 0 <= k < |selected| :: Nul !in selected[k].item
    ensures DecodeRowids(FzfInput(selected)) == RowIds(selected)
  {
    forall k | 0 <= k < |selected| ensures Nul !in Label(selected[k].item) {
      LabelFree(selected[k].item, Nul);
    }
    RowidRoundTrip(selected);
  }

  /** Decoding keeps the entries' order across a split of the selection ... */
  lemma {:induction false} SomesAppend(a: seq<Option<int>>, b: seq<Option<int>>)
    ensures Somes(a + b) == Somes(a) + Somes(b)
  {
    if b != [] {
      var n := |b| - 1;
      assert a + b == (a + b[..n]) + [b[n]];
      SomesAppend(a, b[..n]);
    } else {
      assert a + b == a;
    }
  }

  lemma EntryIdsAppend(a: seq<string>, b: seq<string>)
    ensures EntryIds(a + b) == EntryIds(a) + EntryIds(b)
  {
    assert forall k | 0 <= k < |a| + |b| :: (a + b)[k] == if k < |a| then a[k] else b[k - |a|];
  }

  lemma SomesSkipsNone(xs: seq<Option<int>>, ys: seq<Option<int>>)
    ensures Somes(xs + [None] + ys) == Somes(xs + ys)
  {
    SomesAppend(xs + [None], ys);
    SomesAppend(xs, ys);
    assert (xs + [None])[..|xs|] == xs;
  }

  /** ... and an entry without an integer before its first tab is skipped, as if fzf
      had not printed it. */
  lemma SkipsUnparsable(a: seq<string>, e: string, b: seq<string>)
    requires ParseInt(RowidField(e)) == None
    ensures Somes(EntryIds(a + [e] + b)) == Somes(EntryIds(a + b))
  {
    EntryIdsAppend(a + [e], b);
    EntryIdsAppend(a, [e]);
    EntryIdsAppend(a, b);
    assert EntryIds([e]) == [None];
    SomesSkipsNone(EntryIds(a), EntryIds(b));
  }
}
