/**
  What Multi-Paste does with the records the user picked: it reads their texts back
  from the store in the order picked, trims blank lines off each one and renders them
  as one block in the chosen format; and the text fzf's preview pane shows for one
  record.
*/
module Selection {
  import opened Wrappers
  import opened Text
  import opened OutputFormat
  import Segmentation

  /** The formats whose items lose their leading and trailing blank lines. */
  const TrimFormats: set<string> := {DashFormat, NumberedFormat, BulletFormat, CommaFormat, PlainFormat}

  const CommaSeparator: string := ", "

  const PreviewMaxLines: nat := 200
  const TruncatedNote: string := "... [preview truncated]"

  // ---------------------------------------------------------------------------
  // Trimming

  /** `_trim_blank_lines`: every item without the line feeds at its two ends. */
  function TrimBlankLines(items: seq<string>): (r: seq<string>)
    ensures |r| == |items|
  {
    seq(|items|, k requires 0 <= k < |items| => StripNewlines(items[k]))
  }

  /** Each trimmed item is a slice `[a..b]` of the original that only line feeds
      surround; spaces and indentation stay, and the slice, when not empty, neither
      starts nor ends with a line feed. */
  lemma TrimmedItem(items: seq<string>, j: nat) returns (a: nat, b: nat)
    requires j < |items|
    ensures a <= b <= |items[j]|
    ensures TrimBlankLines(items)[j] == items[j][a..b]
    ensures forall k | 0 <= k < a :: items[j][k] == NL
    ensures forall k | b <= k < |items[j]| :: items[j][k] == NL
    ensures a < b ==> items[j][a] != NL && items[j][b - 1] != NL
  {
    var s := items[j];
    b := KeptEnd(s, Newlines, |s|);
    a := KeptStart(s, Newlines, 0, b);
    forall k | 0 <= k < a ensures s[k] == NL {
      KeptStartDrops(s, Newlines, 0, b, k);
    }
    forall k | b <= k < |s| ensures s[k] == NL {
      KeptEndDrops(s, Newlines, |s|, k);
    }
  }

  /** Trimming twice is trimming once. */
  lemma TrimIdempotent(items: seq<string>)
    ensures TrimBlankLines(TrimBlankLines(items)) == TrimBlankLines(items)
  {
    var t := TrimBlankLines(items);
    forall j | 0 <= j < |t| ensures StripNewlines(t[j]) == t[j] {
      var a, b := TrimmedItem(items, j);
      var s := t[j];
      if s != [] {
        assert s[0] != NL && s[|s| - 1] != NL;
        assert KeptEnd(s, Newlines, |s|) == |s|;
        assert KeptStart(s, Newlines, 0, |s|) == 0;
      }
      assert s[0..|s|] == s;
    }
  }

  /** Items without a line feed come through the trim unchanged. */
  lemma TrimKeepsLineFree(items: seq<string>)
    requires NoneContain(items, NL)
    ensures TrimBlankLines(items) == items
  {
    forall j | 0 <= j < |items| ensures StripNewlines(items[j]) == items[j] {
      var s := items[j];
      if s != [] {
        assert s[0] != NL && s[|s| - 1] != NL;
        assert KeptEnd(s, Newlines, |s|) == |s|;
        assert KeptStart(s, Newlines, 0, |s|) == 0;
      }
      assert s[0..|s|] == s;
    }
  }

  // ---------------------------------------------------------------------------
  // Rendering

  /** The items as `_format_items` renders them: trimmed for the five known formats,
      untouched otherwise. */
  function Prepared(fmt: string, items: seq<string>): (r: seq<string>)
    ensures |r| == |items|
  {
    if fmt in TrimFormats then TrimBlankLines(items) else items
  }

  /** `_format_items`.  Every format but the comma one puts each item on its own line
      behind the same prefix Multi-Send's `_apply_output_format` gives it, numbering
      from 1 over the trimmed list; the comma format joins the trimmed items with
      `", "`. */
  function FormatItems(fmt: string, items: seq<string>): (r: string)
    ensures r == if fmt == CommaFormat then Join(CommaSeparator, Prepared(fmt, items))
                 else Join([NL], ApplyOutputFormat(fmt, Prepared(fmt, items)))
  {
    var xs := Prepared(fmt, items);
    if fmt == DashFormat then Join([NL], seq(|xs|, k requires 0 <= k < |xs| => DashPrefix + xs[k]))
    else if fmt == NumberedFormat then
      Join([NL], seq(|xs|, k requires 0 <= k < |xs| => NatToString(k + 1) + ". " + xs[k]))
    else if fmt == BulletFormat then Join([NL], seq(|xs|, k requires 0 <= k < |xs| => BulletPrefix + xs[k]))
    else if fmt == CommaFormat then Join(CommaSeparator, xs)
    else Join([NL], xs)
  }

  /** A format that is none of the five is joined with line feeds as it came, without
      trimming. */
  lemma UnknownFormat(fmt: string, items: seq<string>)
    requires fmt !in TrimFormats
    ensures FormatItems(fmt, items) == Join([NL], items)
  {
  }

  /** When no trimmed item holds a line feed, the rendered block has exactly one line
      per item, and that line is the item behind its prefix. */
  lemma FormattedLines(fmt: string, items: seq<string>)
    requires fmt != CommaFormat
    requires items != [] && NoneContain(Prepared(fmt, items), NL)
    requires fmt == DashFormat || fmt == BulletFormat || fmt == NumberedFormat ||
             Prepared(fmt, items)[|items| - 1] != ""
    ensures SplitLines(FormatItems(fmt, items)) == ApplyOutputFormat(fmt, Prepared(fmt, items))
  {
    var xs := Prepared(fmt, items);
    var lines := ApplyOutputFormat(fmt, xs);
    FormattedFree(fmt, xs, NL);
    FormattedItem(fmt, xs, |xs| - 1);
    SplitLinesJoin(lines);
  }

  /** Multi-Send's paragraph items, rendered by Multi-Paste's plain format, give the
      text back (less one final line feed) when its lines were already stripped and
      non-empty. */
  lemma PlainParagraphRoundTrip(text: string)
    requires Segmentation.AllTrimmed(SplitLines(text)) && !Segmentation.IsListMode(SplitLines(text))
    ensures FormatItems(PlainFormat, Segmentation.Segment(text)) ==
            if text != [] && text[|text| - 1] == NL then text[..|text| - 1] else text
  {
    var items := Segmentation.Segment(text);
    Segmentation.ParagraphRoundTrip(text);
    LinesHaveNoNewline(text);
    TrimKeepsLineFree(items);
    UnprefixedFormats(PlainFormat, items);
  }

  /** The strings of `xs`, each behind a space. */
  function Spaced(xs: seq<string>): (r: seq<string>)
    ensures |r| == |xs|
  {
    seq(|xs|, k requires 0 <= k < |xs| => " " + xs[k])
  }

  lemma {:induction false} JoinSpaced(xs: seq<string>)
    requires xs != []
    ensures Join([','], Spaced(xs)) == " " + Join(CommaSeparator, xs)
  {
    if |xs| > 1 {
      var rest := xs[1..];
      JoinSpaced(rest);
      assert Spaced(xs) == [" " + xs[0]] + Spaced(rest);
      JoinCons([','], " " + xs[0], Spaced(rest));
      assert xs == [xs[0]] + rest;
      JoinCons(CommaSeparator, xs[0], rest);
    }
  }

  /** Split on its commas, the comma block gives back the trimmed items, every one but
      the first behind the space of the separator, when no item holds a comma. */
  lemma CommaFields(items: seq<string>)
    requires items != [] && NoneContain(TrimBlankLines(items), ',')
    ensures var xs := TrimBlankLines(items);
            Split(FormatItems(CommaFormat, items), ',') == [xs[0]] + Spaced(xs[1..])
  {
    var xs := TrimBlankLines(items);
    assert FormatItems(CommaFormat, items) == Join(CommaSeparator, xs);
    SplitCommaJoined(xs);
  }

  lemma SplitCommaJoined(xs: seq<string>)
    requires xs != [] && NoneContain(xs, ',')
    ensures Split(Join(CommaSeparator, xs), ',') == [xs[0]] + Spaced(xs[1..])
  {
    var fields := [xs[0]] + Spaced(xs[1..]);
    JoinCommaFields(xs);
    CommaFieldsFree(xs);
    SplitJoin(fields, ',');
  }

  /** Joining with `", "` is joining with `","` the first item and the others each
      behind a space. */
  lemma JoinCommaFields(xs: seq<string>)
    requires xs != []
    ensures Join(CommaSeparator, xs) == Join([','], [xs[0]] + Spaced(xs[1..]))
  {
    if |xs| > 1 {
      var rest := xs[1..];
      assert xs == [xs[0]] + rest;
      JoinCons(CommaSeparator, xs[0], rest);
      JoinSpaced(rest);
      JoinCons([','], xs[0], Spaced(rest));
    } else {
      assert [xs[0]] + Spaced(xs[1..]) == [xs[0]];
    }
  }

  lemma CommaFieldsFree(xs: seq<string>)
    requires xs != [] && NoneContain(xs, ',')
    ensures NoneContain([xs[0]] + Spaced(xs[1..]), ',')
  {
    var fields := [xs[0]] + Spaced(xs[1..]);
    forall j | 0 <= j < |fields| ensures ',' !in fields[j] {
      if j > 0 {
        assert fields[j] == " " + xs[j];
      }
    }
  }

  // ---------------------------------------------------------------------------
  // Reading the picked records back

  /** `items_by_id`: the rows the query returned, those with a text, keyed by rowid
      (a later row for the same rowid replaces an earlier one); no row with a text is
      left out. */
  function StoreMap(fetched: seq<(int, Option<string>)>): (m: map<int, string>)
    ensures forall k | 0 <= k < |fetched| && fetched[k].1.Some? :: fetched[k].0 in m
  {
    if fetched == [] then map[]
    else
      assert forall k | 0 <= k < |fetched| - 1 :: fetched[..|fetched| - 1][k] == fetched[k];
      var m := StoreMap(fetched[..|fetched| - 1]);
      var (rowid, item) := fetched[|fetched| - 1];
      if item.Some? then m[rowid := item.value] else m
  }

  /** `[items_by_id[rid] for rid in rowids if rid in items_by_id]`. */
  function InOrder(rowids: seq<int>, byId: map<int, string>): (r: seq<string>)
    ensures |r| <= |rowids|
  {
    if rowids == [] then []
    else
      var last := rowids[|rowids| - 1];
      InOrder(rowids[..|rowids| - 1], byId) + (if last in byId then [byId[last]] else [])
  }

  /** `_fetch_items_by_rowid`, given the rows its query returned. */
  method FetchItemsByRowid(rowids: seq<int>, fetched: seq<(int, Option<string>)>) returns (items: seq<string>)
    ensures items == InOrder(rowids, StoreMap(fetched))
  {
    var byId: map<int, string> := map[];
    for k := 0 to |fetched|
      invariant byId == StoreMap(fetched[..k])
    {
      var (rowid, item) := fetched[k];
      PrefixStep(fetched, k);
      assert fetched[..k + 1][..k] == fetched[..k];
      if item.Some? {
        byId := byId[rowid := item.value];
      }
    }
    assert fetched[..|fetched|] == fetched;
    items := InOrder(rowids, byId);
  }

  /** A rowid is in the map exactly when some fetched row for it has a text. */
  lemma {:induction false} StoreKeys(fetched: seq<(int, Option<string>)>, id: int)
    ensures id in StoreMap(fetched) <==>
            exists k | 0 <= k < |fetched| :: fetched[k].0 == id && fetched[k].1.Some?
  {
    if fetched != [] {
      var n := |fetched| - 1;
      StoreKeys(fetched[..n], id);
      if id in StoreMap(fetched[..n]) {
        var k :| 0 <= k < n && fetched[..n][k].0 == id && fetched[..n][k].1.Some?;
        assert fetched[k] == fetched[..n][k];
      }
      if exists k | 0 <= k < |fetched| :: fetched[k].0 == id && fetched[k].1.Some? {
        var k :| 0 <= k < |fetched| && fetched[k].0 == id && fetched[k].1.Some?;
        if k < n {
          assert fetched[..n][k] == fetched[k];
        }
      }
    }
  }

  /** A rowid that only one fetched row holds maps to that row's text. */
  lemma {:induction false} StoreLookup(fetched: seq<(int, Option<string>)>, k: nat)
    requires k < |fetched| && fetched[k].1.Some?
    requires forall q | 0 <= q < |fetched| && q != k :: fetched[q].0 != fetched[k].0
    ensures fetched[k].0 in StoreMap(fetched) && StoreMap(fetched)[fetched[k].0] == fetched[k].1.value
  {
    var n := |fetched| - 1;
    if k < n {
      var front := fetched[..n];
      forall q | 0 <= q < n && q != k ensures front[q].0 != front[k].0 {
        assert front[q] == fetched[q];
      }
      StoreLookup(front, k);
    }
  }

  /** Picked rowids that are all in the store give their texts, one per rowid, in the
      order picked; a rowid picked twice gives its text twice. */
  lemma {:induction false} InOrderAllPresent(rowids: seq<int>, byId: map<int, string>)
    requires forall k | 0 <= k < |rowids| :: rowids[k] in byId
    ensures |InOrder(rowids, byId)| == |rowids|
    ensures forall k | 0 <= k < |rowids| :: InOrder(rowids, byId)[k] == byId[rowids[k]]
  {
    if rowids != [] {
      var n := |rowids| - 1;
      var front := rowids[..n];
      assert forall k | 0 <= k < n :: front[k] == rowids[k];
      InOrderAllPresent(front, byId);
    }
  }

  lemma {:induction false} InOrderAppend(a: seq<int>, b: seq<int>, byId: map<int, string>)
    ensures InOrder(a + b, byId) == InOrder(a, byId) + InOrder(b, byId)
  {
    if b != [] {
      var n := |b| - 1;
      assert a + b == (a + b[..n]) + [b[n]];
      InOrderAppend(a, b[..n], byId);
    } else {
      assert a + b == a;
    }
  }

  /** A picked rowid missing from the store is dropped silently. */
  lemma InOrderSkipsMissing(a: seq<int>, id: int, b: seq<int>, byId: map<int, string>)
    requires id !in byId
    ensures InOrder(a + [id] + b, byId) == InOrder(a + b, byId)
  {
    InOrderAppend(a + [id], b, byId);
    InOrderAppend(a, b, byId);
    assert (a + [id])[..|a|] == a;
  }

  // ---------------------------------------------------------------------------
  // Preview

  /** The text logic of `_preview`: nothing for empty content, and only for it; the
      first 200 lines and a note for longer content, all lines otherwise. */
  function Preview(item: string): (r: Option<string>)
    ensures r.None? <==> item == ""
  {
    var lines := SplitLines(item);
    if lines == [] then None
    else if |lines| > PreviewMaxLines then Some(Join([NL], lines[..PreviewMaxLines]) + [NL] + TruncatedNote)
    else Some(Join([NL], lines))
  }

  /** Content of at most 200 lines is shown whole, without a final line feed. */
  lemma PreviewShort(item: string)
    requires item != "" && |SplitLines(item)| <= PreviewMaxLines
    ensures Preview(item) == Some(if item[|item| - 1] == NL then item[..|item| - 1] else item)
  {
    JoinSplitLines(item);
  }

  /** Longer content shows as its first 200 lines followed by one line holding the
      note. */
  lemma PreviewLong(item: string)
    requires |SplitLines(item)| > PreviewMaxLines
    ensures Preview(item).Some?
    ensures SplitLines(Preview(item).value) == SplitLines(item)[..PreviewMaxLines] + [TruncatedNote]
  {
    var lines := SplitLines(item);
    var shown := lines[..PreviewMaxLines];
    LinesHaveNoNewline(item);
    assert forall j | 0 <= j < |shown| :: shown[j] == lines[j];
    LinesThenNote(shown, TruncatedNote);
  }

  /** Lines without line feeds, joined, then a line feed and a last non-empty line:
      the lines are read back with that last one after them. */
  lemma LinesThenNote(shown: seq<string>, note: string)
    requires shown != [] && forall j | 0 <= j < |shown| :: NL !in shown[j]
    requires note != "" && NL !in note
    ensures SplitLines(Join([NL], shown) + [NL] + note) == shown + [note]
  {
    var all := shown + [note];
    JoinSnoc([NL], shown, note);
    forall j | 0 <= j < |all| ensures NL !in all[j] {
      if j < |shown| {
        assert all[j] == shown[j];
      }
    }
    SplitLinesJoin(all);
  }
}
