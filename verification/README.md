# Multi-Send and Multi-Paste, modelled in Dafny

This project models the core of two small macOS clipboard helpers.

**Multi-Send** (`Multi-Send/multisend.py`) takes a block of clipboard text and
replays it item by item:
- `_detect_items` cuts the text into items. The whole block is first classified
  once as a list (dash, bullet or numbered markers) or as paragraphs.
- `_apply_output_format` puts a per-item prefix in front of each item.
- The items are joined with the unit separator `\x1f` and handed to an embedded
  AppleScript program. That program splits them again and, for every non-empty
  item, does four things in order:
  - checks that the front application is still the one it started with;
  - puts the item on the clipboard;
  - pastes it;
  - presses return.
- On both normal exits the script puts back the clipboard text it saved, if that
  text was non-empty.

**Multi-Paste** (`Multi-Paste/multiclip.py`) shows recent clipboard records in fzf
and renders the ones picked as one block:
- `_display_line` and `_write_fzf_input` give each record a one-line label and
  encode it as `rowid<TAB>label<NUL>`.
- `_run_fzf_select` reads the rowids back.
- `_fetch_items_by_rowid` returns the texts in the order picked.
- `_trim_blank_lines` and `_format_items` render them in one of five styles.
- `_preview` produces the preview pane's text.

Modules:
- `Text` (`text.dfy`) holds the string operations the scripts borrow from Python:
  - `split`, `"sep".join`, `splitlines`;
  - `strip`, `rstrip`, `strip("\n")`;
  - `str(int)` and `int(str)`.
- `Segmentation` (`segmentation.dfy`) models `_detect_items`:
  - Its two loops are the methods `CountLines` and `GroupLines`.
  - They are specified by the functions `NonBlank`, `CountMatched`, `ListFold`
    and `Segment`.
- `OutputFormat` (`output_format.dfy`) holds the format names and
  `_apply_output_format`.
- `Delivery` (`delivery.dfy`) holds the hand-off and the AppleScript run handler:
  - The run handler is a class `Desktop` whose clipboard field the script
    overwrites, and whose log records the paste and return keystrokes.
  - The answers to "which application is in front" are an input sequence.
- `Candidates` (`candidates.dfy`) holds the fzf labels and records, and decoding
  the selection.
- `Selection` (`selection.dfy`) holds trimming, rendering, the re-fetch in the
  order picked, and the preview text.

## Model

| member | source | states |
|---|---|---|
| Text.Split | Multi-Send/multisend.py:104-106 | AppleScript's `text items of` under a one-character `text item delimiters` always yields at least one piece; Python's `bytes.split` on NUL reads fzf's output the same way at Multi-Paste/multiclip.py:116 |
| Text.JoinSplit | Multi-Send/multisend.py:104-106 | joining the pieces of a split with the separator gives the text back |
| Text.SplitJoin | Multi-Send/multisend.py:177 | splitting a non-empty sequence of separator-free strings, joined by that separator, gives the sequence back |
| Text.SplitPiecesFree | Multi-Send/multisend.py:104-106 | no piece of a split holds the separator |
| Text.SplitCount | Multi-Send/multisend.py:104-106 | a split has exactly one piece more than the text has separators |
| Text.SplitLastEmpty | Multi-Paste/multiclip.py:60 | the last piece is empty exactly when the text is empty or ends with the separator (the rule `splitlines` follows for a final line feed) |
| Text.LineCount | Multi-Paste/multiclip.py:60-61 | `splitlines` gives one line per line feed, plus one for an unterminated last line |
| Text.SplitLines | Multi-Paste/multiclip.py:230-232 | only the empty text has no lines, so the preview returns early exactly for empty content |
| Text.AtMostOneLine | Multi-Paste/multiclip.py:60-61 | text whose only line feed, if any, is its last character has at most one line |
| Text.LinesHaveNoNewline | Multi-Send/multisend.py:27 | no line of `splitlines` holds a line feed |
| Text.JoinSplitLines | Multi-Paste/multiclip.py:237-238 | joining the lines with line feeds gives the text back, less one final line feed |
| Text.SplitLinesJoin | Multi-Paste/multiclip.py:233-238 | lines without line feeds, the last non-empty, joined by line feeds, split back into the same lines |
| Text.Join | Multi-Send/multisend.py:64 | a join starts with its first string; what it is worth against a split is stated by `JoinSplit` and `SplitJoin` |
| Text.Trim | Multi-Paste/multiclip.py:187 | trimming never lengthens, and leaves no dropped character at either end |
| Text.RStrip | Multi-Send/multisend.py:43 | `rstrip()` keeps a prefix of the line that does not end in a blank |
| Text.Strip | Multi-Send/multisend.py:78 | `strip()` never lengthens and leaves no blank at either end |
| Text.StripNewlines | Multi-Paste/multiclip.py:187 | `strip("\n")` never lengthens and leaves no line feed at either end |
| Text.NonEmpty | Multi-Paste/multiclip.py:116 | the filter `if e` keeps no empty string and keeps a list with none unchanged; the same filter skips empty pieces at Multi-Send/multisend.py:118 |
| Text.ReplaceChar | Multi-Paste/multiclip.py:63 | `replace` keeps the length and swaps exactly the occurrences of one character |
| Text.StripKeepsNonSpace | Multi-Send/multisend.py:43-44 | a line with a non-blank character keeps one after `rstrip`, and `strip` leaves it non-empty with non-blank ends |
| Text.StripOfStripped | Multi-Send/multisend.py:78 | a string whose two ends are not blank is its own `strip()` |
| Text.StripIdempotent | Multi-Send/multisend.py:78 | `strip()` is idempotent |
| Text.StripFree | Multi-Send/multisend.py:43 | stripping adds no character |
| Text.KeptEndDrops | Multi-Paste/multiclip.py:187 | every character the end trim removes is one the trim drops |
| Text.KeptStartDrops | Multi-Paste/multiclip.py:187 | every character the start trim removes is one the trim drops |
| Text.KeptEndKeeps | Multi-Send/multisend.py:43 | a character the trim does not drop is never removed from the end |
| Text.KeptStartKeeps | Multi-Send/multisend.py:78 | a character the trim does not drop is never removed from the start |
| Text.IntToString | Multi-Paste/multiclip.py:79 | `str(rowid)` is non-empty and made of a sign and digits only |
| Text.NatToString | Multi-Paste/multiclip.py:76 | `str(n)` of a natural number is a non-empty run of digits |
| Text.ParseIntToString | Multi-Paste/multiclip.py:124-125 | `int(str(i)) == i` for every integer |
| Text.ParseInt | Multi-Paste/multiclip.py:125 | `int()` succeeds exactly on text that, once stripped, is an optional sign followed by at least one digit (otherwise the `ValueError`); the digits read as their decimal value, negated after `-` |
| Segmentation.MatchPattern | Multi-Send/multisend.py:29-31 | each compiled pattern, when it matches, captures a proper suffix of the line |
| Segmentation.MatchPrefix | Multi-Send/multisend.py:33-38 | `match_prefix` returns a proper suffix of the line or nothing |
| Segmentation.MatchPatternSound | Multi-Send/multisend.py:29-31 | every match of a pattern is a match of its regular expression, and the result is that expression's group |
| Segmentation.MatchPatternComplete | Multi-Send/multisend.py:29-31 | every match of the regular expression is found by the pattern, with the same group |
| Segmentation.PatternsExclusive | Multi-Send/multisend.py:34-37 | no line matches two of the three patterns, so the order they are tried in never changes the answer |
| Segmentation.MatchPrefixIsRegexGroup | Multi-Send/multisend.py:33-38 | `match_prefix` answers `rest` exactly when one of the regular expressions matches with group `rest` |
| Segmentation.MatchPrefixOfRStripped | Multi-Send/multisend.py:56-61 | on an rstripped line the group is non-empty and has no blank at either end |
| Segmentation.CountLines | Multi-Send/multisend.py:40-48 | the first loop counts the non-blank lines and, among them, the marked ones |
| Segmentation.CountLine | Multi-Send/multisend.py:43-48 | one line of the first loop: a non-blank line is counted, and counted as marked when it has a marker |
| Segmentation.CountMatched | Multi-Send/multisend.py:40-48 | the marked-line count never exceeds the number of non-blank lines |
| Segmentation.ListMode | Multi-Send/multisend.py:50 | the decision needs a marked line, and two marked lines always suffice |
| Segmentation.IsListMode | Multi-Send/multisend.py:50 | list mode needs a marked line and at least two non-blank lines, and any two marked lines give it |
| Segmentation.GroupLines | Multi-Send/multisend.py:52-76 | the second loop yields the list-mode groups in list mode and the rstripped non-blank lines otherwise |
| Segmentation.GroupLine | Multi-Send/multisend.py:60-73 | one non-blank line of the second loop: the list step in list mode, an item of its own in paragraph mode |
| Segmentation.ListStep | Multi-Send/multisend.py:60-71 | closed items never change, an item is in progress exactly once a marked line has been seen, and one line adds at most one item |
| Segmentation.ListFold | Multi-Send/multisend.py:55-74 | the loop makes at most one group per line |
| Segmentation.ListItems | Multi-Send/multisend.py:55-76 | at most one list-mode item per non-blank line once the last group is flushed |
| Segmentation.CleanItems | Multi-Send/multisend.py:78 | the final comprehension never adds items |
| Segmentation.Segment | Multi-Send/multisend.py:26-78 | `_detect_items` returns at most one item per non-blank line |
| Segmentation.DetectItems | Multi-Send/multisend.py:26-78 | `_detect_items` returns `Segment(text)`: the list decision of line 50 taken once, then grouping, strip and filtering |
| Segmentation.NonBlank | Multi-Send/multisend.py:43-45 | blank lines are dropped, so at most as many lines remain |
| Segmentation.CleanItemShape | Multi-Send/multisend.py:78 | every kept item is non-empty and equals its own `strip()` |
| Segmentation.CleanItemsCount | Multi-Send/multisend.py:78 | items that hold a non-blank are all kept ... |
| Segmentation.CleanItemAt | Multi-Send/multisend.py:78 | ... each stripped, in its place |
| Segmentation.SegmentItemShape | Multi-Send/multisend.py:78 | whatever the text, every item is non-empty and stripped on both sides |
| Segmentation.ParagraphModeCount | Multi-Send/multisend.py:72-78 | in paragraph mode the item count is the number of non-blank lines |
| Segmentation.ParagraphModeItem | Multi-Send/multisend.py:72-78 | in paragraph mode item `j` is the `j`-th non-blank line, stripped |
| Segmentation.ListFoldCount | Multi-Send/multisend.py:60-76 | an item is in progress exactly once a marked line was seen; before that every line stood alone; the groups number the unmarked lines before the first marked one plus the marked lines |
| Segmentation.ListFoldSolid | Multi-Send/multisend.py:60-71 | every list-mode group holds a non-blank character |
| Segmentation.ListItemsSolid | Multi-Send/multisend.py:75-76 | every list-mode item, once the last group is flushed, holds a non-blank character |
| Segmentation.ListItemsStep | Multi-Send/multisend.py:60-71 | a marked line starts a new item with its group; an unmarked line stands alone before any marked line and is otherwise appended to the current item after a line feed, indentation kept |
| Segmentation.ListItemsJoinStep | Multi-Send/multisend.py:60-71 | after one more line the items join to the previous text, a line feed and that line's contribution |
| Segmentation.ListItemsKeepEveryLine | Multi-Send/multisend.py:60-76 | list mode loses, repeats and reorders no line: the items joined by line feeds are the contributions of the non-blank lines joined by line feeds |
| Segmentation.ListModeCount | Multi-Send/multisend.py:60-78 | in list mode the item count is the unmarked lines before the first marked one plus `matched` |
| Segmentation.ListModeItem | Multi-Send/multisend.py:60-78 | in list mode the items are the groups, each stripped, none dropped |
| Segmentation.MarkedLinesCount | Multi-Send/multisend.py:42-48 | marked lines are all counted, both as non-blank and as matched |
| Segmentation.ListModeMonotone | Multi-Send/multisend.py:50 | inserting marked lines anywhere into a text in list mode keeps it in list mode |
| Segmentation.NoItemsIffBlank | Multi-Send/multisend.py:164-169 | the text yields no item exactly when it is blank, so "No items found" can only follow "Clipboard is empty" |
| Segmentation.SegmentFree | Multi-Send/multisend.py:26-78 | a character other than the line feed that is not in the text is in no item |
| Segmentation.NonBlankKeepsAll | Multi-Send/multisend.py:55-58 | lines that `rstrip()` leaves non-empty and unchanged all pass the blank-line filter unchanged |
| Segmentation.CleanItemsKeepsTrimmed | Multi-Send/multisend.py:78 | items already non-empty and stripped come through the final comprehension unchanged |
| Segmentation.ParagraphItems | Multi-Send/multisend.py:72-78 | a paragraph-mode text whose lines are non-empty and stripped is cut into exactly its lines |
| Segmentation.ParagraphRoundTrip | Multi-Send/multisend.py:26-78 | for such a text, the items joined by line feeds give the text back, less one final line feed |
| OutputFormat.ApplyOutputFormat | Multi-Send/multisend.py:81-90 | the result has one entry per item |
| OutputFormat.FormattedItem | Multi-Send/multisend.py:81-90 | entry `j` is the `j+1`-th prefix (`"- "`, `"• "`, `"{j+1}. "` or nothing) followed by item `j` |
| OutputFormat.UnprefixedFormats | Multi-Send/multisend.py:82-90 | the plain format, the comma format and every unknown name return the items unchanged |
| OutputFormat.FormattedFree | Multi-Send/multisend.py:81-90 | a character that is in no item and in no prefix is in no result |
| OutputFormat.FormattedNonEmpty | Multi-Send/multisend.py:81-90 | no format turns a non-empty item into an empty one |
| Delivery.Reached | Multi-Send/multisend.py:117-127 | the delivered count stops at the first focus query that differs from the first one |
| Delivery.PasteAll | Multi-Send/multisend.py:129-134 | each delivered item gives two keystrokes |
| Delivery.HandOff | Multi-Send/multisend.py:177 | the handed-off text starts with the first item and holds a separator whenever there are two items or more |
| Delivery.TextItems | Multi-Send/multisend.py:104-107 | `text items of` gives one piece more than there are separators, and no piece holds one; the empty text is taken to give `[""]` (AppleScript may give an empty list there, which the model does not distinguish: the empty piece is skipped and the hand-off is never empty) |
| Delivery.Sent | Multi-Send/multisend.py:117-118 | the items the loop acts on are non-empty and never more than the pieces |
| Delivery.Saved | Multi-Send/multisend.py:110-113 | a non-empty snapshot is the clipboard's text, and content that is not text leaves the snapshot empty |
| Delivery.ClipboardAfter | Multi-Send/multisend.py:117-137 | the loop leaves the clipboard alone when it pastes nothing, and content that is not text survives only then |
| Delivery.Desktop.RunScript | Multi-Send/multisend.py:99-143 | the run handler returns `FOCUS_CHANGED` exactly when a focus query differs before all items went out, logs the keystrokes of exactly the items before that point, and leaves the clipboard as `FinalClipboard` says |
| Delivery.Desktop.PasteEach | Multi-Send/multisend.py:117-137 | the loop skips empty pieces without a query, and pastes the non-empty ones in order up to the first focus mismatch and nothing of that item |
| Delivery.Desktop.PasteItem | Multi-Send/multisend.py:129-134 | the clipboard holds the item, then paste and return are logged |
| Delivery.Desktop.RestoreClipboard | Multi-Send/multisend.py:139-141 | a non-empty snapshot is put back; an empty one leaves the clipboard alone |
| Delivery.NonEmptyAt | Multi-Send/multisend.py:117-118 | a non-empty piece is the item whose index counts the non-empty pieces before it |
| Delivery.DeliverNext | Multi-Send/multisend.py:129-134 | delivering item `d` extends the log by its two keystrokes and leaves it on the clipboard |
| Delivery.ReachedPassed | Multi-Send/multisend.py:120-122 | every focus query before the stopping point matched the first |
| Delivery.ReachedIsFirstMismatch | Multi-Send/multisend.py:120-127 | the stopping point is exactly the first mismatching query, or the item count when none mismatches |
| Delivery.SteadyFocusDeliversAll | Multi-Send/multisend.py:117-143 | while the front application stays the same, every item is delivered |
| Delivery.PasteAllAt | Multi-Send/multisend.py:129-134 | item `k` is pasted from a clipboard holding exactly that item, then confirmed |
| Delivery.FinalClipboard | Multi-Send/multisend.py:109-141 | reference definition of the clipboard at return: non-text content survives only when nothing was pasted; its restore promises are proved in `Delivery.RestoresSavedClipboard` and `Delivery.UnsavedClipboardKeepsLastItem` |
| Delivery.RestoresSavedClipboard | Multi-Send/multisend.py:123-141 | a non-empty text snapshot is what the clipboard holds on both exits |
| Delivery.UnsavedClipboardKeepsLastItem | Multi-Send/multisend.py:110-129 | with an empty or unreadable snapshot the clipboard ends holding the last delivered item |
| Delivery.HandOffRoundTrip | Multi-Send/multisend.py:104-107 | joining with `\x1f` and splitting on it gives back the items when none contains `\x1f` |
| Delivery.HandOffSends | Multi-Send/multisend.py:104-118 | non-empty items without a separator reach the loop exactly as they were |
| Delivery.SendsFormattedItems | Multi-Send/multisend.py:167-177 | when the clipboard has no separator, the script replays exactly the formatted items, in order |
| Candidates.DisplayLine | Multi-Paste/multiclip.py:59-68 | the shown line has at most 80 characters and the line count is at least 1 |
| Candidates.Label | Multi-Paste/multiclip.py:74-78 | the label starts with the shown first line and goes beyond it exactly when the item has several lines or that line was cut |
| Candidates.Annotation | Multi-Paste/multiclip.py:75-78 | the text added after the first line is empty exactly when the item has one line that was not cut |
| Candidates.Record | Multi-Paste/multiclip.py:79 | the text before a record's first tab is `str(rowid)` |
| Candidates.FzfInput | Multi-Paste/multiclip.py:80-81 | every record followed by NUL is the records separated by NUL with one NUL more at the end |
| Candidates.RowidField | Multi-Paste/multiclip.py:124 | `split("\t", 1)[0]` is the longest prefix without a tab: the whole entry, or followed by a tab |
| Candidates.Selected | Multi-Paste/multiclip.py:116 | the selected entries are non-empty, and at most one more than the NULs of the output |
| Candidates.DecodeRowids | Multi-Paste/multiclip.py:119-127 | decoding gives at most one rowid per selected entry |
| Candidates.FirstLineOf | Multi-Paste/multiclip.py:60-62 | an item has no lines exactly when it is empty; its first line is the text before the first line feed |
| Candidates.DisplayShowsStart | Multi-Paste/multiclip.py:62-67 | the shown line is the text up to the first line feed or the 80th character, whichever is first, tabs made spaces; `truncated` holds exactly when that first line is longer than 80 |
| Candidates.DisplayLineCount | Multi-Paste/multiclip.py:60-61 | `line_count` is one per line feed plus an unterminated last line, and 1 for empty content |
| Candidates.FirstLineFree | Multi-Paste/multiclip.py:62-66 | the shown line holds no line feed and no tab, and a NUL only when the item does |
| Candidates.AnnotationFree | Multi-Paste/multiclip.py:75-78 | the annotation holds no tab, line feed or NUL |
| Candidates.LabelFree | Multi-Paste/multiclip.py:74-79 | a label holds no tab and no line feed, and a NUL only when the item does |
| Candidates.MultiLineLabel | Multi-Paste/multiclip.py:75-76 | an item with a line feed before its last character gets `"  [+N lines]"`, `N` counting its lines after the first, and never `"..."` |
| Candidates.SingleLine | Multi-Paste/multiclip.py:60-61 | an item whose only line feed, if any, is its last character counts as one line |
| Candidates.SingleLineLabel | Multi-Paste/multiclip.py:75-78 | a single-line item gets `"..."` exactly when its line is longer than 80, and no annotation otherwise |
| Candidates.Records | Multi-Paste/multiclip.py:73-79 | one record per row |
| Candidates.Terminated | Multi-Paste/multiclip.py:80 | one terminated record per record |
| Candidates.WriteFzfInput | Multi-Paste/multiclip.py:71-81 | the loop's output is every record `str(rowid) + "\t" + label`, each followed by NUL, in row order |
| Candidates.RecordLine | Multi-Paste/multiclip.py:74-79 | one pass of the loop builds exactly the record of its row |
| Candidates.EntryIds | Multi-Paste/multiclip.py:123-125 | one parse result per selected entry |
| Candidates.Somes | Multi-Paste/multiclip.py:120-127 | the rowids kept are never more than the entries |
| Candidates.SelectRowids | Multi-Paste/multiclip.py:116-132 | the loop keeps the parsed rowids in output order, skipping entries whose field is not an integer; no entry or no rowid is the exit with status 130 |
| Candidates.JoinTerminated | Multi-Paste/multiclip.py:80-81 | NUL-terminated records, concatenated, are the records joined by NUL plus an empty last piece |
| Candidates.SelectedTerminated | Multi-Paste/multiclip.py:116 | non-empty entries without NUL, each NUL-terminated, split back into the same entries once empty pieces are dropped |
| Candidates.FieldBeforeTab | Multi-Paste/multiclip.py:124 | the text before the first tab of `s + "\t" + rest` is `s` when `s` has no tab |
| Candidates.RecordRowid | Multi-Paste/multiclip.py:124-125 | the rowid field of a record parses back to its rowid |
| Candidates.RecordFree | Multi-Paste/multiclip.py:79 | a record is non-empty, and holds a NUL only when its label does |
| Candidates.SomesAll | Multi-Paste/multiclip.py:121-125 | entries that all parse give all their rowids, in order |
| Candidates.ParsedRecords | Multi-Paste/multiclip.py:121-125 | the records of some rows give back exactly those rows' rowids |
| Candidates.RowidRoundTrip | Multi-Paste/multiclip.py:116-127 | decoding the records fzf prints recovers exactly their rowids, in output order, when no label contains NUL |
| Candidates.RowidRoundTripItems | Multi-Paste/multiclip.py:116-127 | the same round trip holds whenever the items themselves contain no NUL |
| Candidates.SomesAppend | Multi-Paste/multiclip.py:121-127 | decoding keeps the entries' order across any split of the selection |
| Candidates.EntryIdsAppend | Multi-Paste/multiclip.py:121-125 | each entry is parsed on its own |
| Candidates.SomesSkipsNone | Multi-Paste/multiclip.py:126-127 | a failed parse contributes nothing |
| Candidates.SkipsUnparsable | Multi-Paste/multiclip.py:122-127 | an entry without an integer before its first tab is skipped, as if fzf had not printed it |
| Selection.TrimBlankLines | Multi-Paste/multiclip.py:185-187 | trimming drops no item |
| Selection.TrimmedItem | Multi-Paste/multiclip.py:185-187 | each trimmed item is a slice of the original with only line feeds removed around it; spaces and indentation stay; a non-empty slice neither starts nor ends with a line feed |
| Selection.TrimIdempotent | Multi-Paste/multiclip.py:185-187 | trimming twice is trimming once |
| Selection.TrimKeepsLineFree | Multi-Paste/multiclip.py:185-187 | items without a line feed come through the trim unchanged |
| Selection.Prepared | Multi-Paste/multiclip.py:190-201 | the five named formats trim, others do not, and no item is dropped either way |
| Selection.FormatItems | Multi-Paste/multiclip.py:199-212 | every format but the comma one puts each trimmed item on its own line behind Multi-Send's prefix for it, numbering from 1 over the trimmed list; the comma format joins with `", "` |
| Selection.UnknownFormat | Multi-Paste/multiclip.py:200-212 | an unknown format joins the untrimmed items with line feeds |
| Selection.FormattedLines | Multi-Paste/multiclip.py:202-212 | when no trimmed item holds a line feed, the block has exactly one line per item, that item behind its prefix |
| Selection.Spaced | Multi-Paste/multiclip.py:208-209 | one spaced string per string |
| Selection.JoinSpaced | Multi-Paste/multiclip.py:208-209 | joining with `", "` is joining with `","` the items each behind a space, less the first space |
| Selection.CommaFields | Multi-Paste/multiclip.py:208-209 | split on its commas, the comma block gives back the trimmed items, each after the first behind a space, when no item holds a comma |
| Selection.SplitCommaJoined | Multi-Paste/multiclip.py:208-209 | split on its commas, a `", "` join of comma-free items gives the first item and the others each behind a space |
| Selection.JoinCommaFields | Multi-Paste/multiclip.py:208-209 | joining with `", "` is joining with `","` the first item and the others each behind a space |
| Selection.CommaFieldsFree | Multi-Paste/multiclip.py:208-209 | putting a space in front of comma-free items adds no comma |
| Selection.PlainParagraphRoundTrip | Multi-Paste/multiclip.py:210-211 | Multi-Send's items of a paragraph-mode text with stripped, non-empty lines, rendered by Multi-Paste's plain format, give the text back less one final line feed |
| Selection.InOrder | Multi-Paste/multiclip.py:182 | the result is never longer than the rowids asked for |
| Selection.StoreMap | Multi-Paste/multiclip.py:175-177 | every fetched row that has a text has its rowid in `items_by_id` |
| Selection.FetchItemsByRowid | Multi-Paste/multiclip.py:166-182 | the loop builds the id-to-text map of the rows that have a text, then returns their texts in the caller's rowid order |
| Selection.StoreKeys | Multi-Paste/multiclip.py:176-178 | a rowid is in the map exactly when some fetched row for it has a text |
| Selection.StoreLookup | Multi-Paste/multiclip.py:176-178 | a rowid held by one fetched row maps to that row's text |
| Selection.InOrderAllPresent | Multi-Paste/multiclip.py:182 | rowids all in the store give their texts, one per rowid, in the caller's order; a repeated rowid repeats its text |
| Selection.InOrderAppend | Multi-Paste/multiclip.py:182 | the re-fetch of a concatenation is the concatenation of the re-fetches |
| Selection.InOrderSkipsMissing | Multi-Paste/multiclip.py:182 | a rowid missing from the store is dropped silently |
| Selection.Preview | Multi-Paste/multiclip.py:229-238 | only empty content gives no preview |
| Selection.PreviewShort | Multi-Paste/multiclip.py:232-238 | content of at most 200 lines is shown whole, less a final line feed |
| Selection.PreviewLong | Multi-Paste/multiclip.py:232-236 | longer content shows as its first 200 lines followed by one line `... [preview truncated]` |
| Selection.LinesThenNote | Multi-Paste/multiclip.py:235-236 | lines joined by line feeds, then a line feed and a note, split back into the lines and the note |

## Left out

- Python's Unicode breadth is narrowed. Lines end at `'\n'` only. `\s`, `isspace` and `strip` use the ASCII blanks (space, `\t`, `\n`, `\v`, `\f`, `\r`) and `\x1c`-`\x1f`. `\d` and `int()` use ASCII digits. `int()` accepts no `_` separators.
- Multi-Paste's UTF-8 encode and decode with `errors="replace"` is not modelled: records are kept as characters, not bytes.
- `Candidates.SelectRowids` does not model the `IndexError` branch of line 126, because `split("\t", 1)[0]` cannot raise it.
- These are operating-system or process plumbing and are not part of this model:
  - the SQLite access (`_connect_db`, `_load_rows`, the queries of `_fetch_items_by_rowid` and `_preview`);
  - the fzf processes (`_run_fzf_select` up to line 115 and `_run_fzf_format`) and fzf's own exit status;
  - `pbpaste`, the `osascript` launch and the temp file;
  - `argparse`, `main`, `_fail`, exit codes, and the `/tmp/mp-result` and `/tmp/mp-success` files.
- `Selection.FetchItemsByRowid` takes the rows the query returned as an input sequence; `Selection.Preview` takes the row's text.
- The delays (`delay 0.2`, `0.05`, `delaySec`, `0.15`) and the float `--delay` are timing only.
- The keystroke and focus primitives are abstract. Paste and return are log entries. The answers to "which application is in front" are the input `frontmost`.
- `Delivery.Desktop.RunScript` requires `frontmost` to hold an answer for every query the script can make. The script asks at most once per non-empty item, plus once at the start.
- Front-application ids are compared with exact equality. AppleScript text comparison ignores case by default.
- The AppleScript run handler has no `try` around its loop. An error there ends the script without restoring the clipboard, and Python then fails at lines 152-153. That error path is not modelled, and no restoration on error is claimed.
- `Delivery.Desktop.RunScript` restores the clipboard once, after `PasteEach` returns, instead of on each of the two exits of the loop. Both exits run the same restore and nothing happens between it and the return.
- `Delivery.Desktop.PasteEach` reads `itemText is not ""` (Multi-Send/multisend.py:118) as a comparison of the piece's text. `repeat with itemText in itemsList` binds a reference to the list item, and AppleScript guarantees a comparison of the value only with `contents of itemText`; if the reference is compared instead, an empty piece is not skipped but gets a focus query and a paste like any other.
- `Delivery.RestoresSavedClipboard` models the clipboard as its text only. The script saves `the clipboard as text`, so non-text content held beside that text (styles, images, files) is not restored and is not part of the model.
- Two behaviours of `_detect_items` that a reader might not expect are modelled as the code has them:
  - A continuation line keeps its leading indentation (`"call Sam\n  re: dinner"`): Multi-Send/multisend.py line 69 appends the rstripped line, and line 78 strips only the outer ends of the joined item.
  - Unmarked lines before the first marked line stay items of their own (lines 70-71); only lines after a marked one become continuations (lines 68-69).
