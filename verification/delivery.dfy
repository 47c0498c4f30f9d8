/**
  Multi-Send's hand-off and replay: the Python side joins the formatted items with the
  unit separator and writes them to a file; an AppleScript program splits them again
  and, for every non-empty item, checks that the front application has not changed,
  puts the item on the clipboard, pastes it and presses return.

  The desktop is a class whose clipboard the script overwrites in place; the paste and
  return keystrokes are appended to a log.  Which application is in front is an input:
  `frontmost[0]` answers the query made when the script starts, `frontmost[m + 1]` the
  query made before the `m`-th non-empty item (counting from 0); the sequence holds an
  answer for every query the script can make.
*/
module Delivery {
  import opened Text
  import opened Segmentation
  import opened OutputFormat

  /** `character id 31`, the ASCII unit separator. */
  const Separator: char := '\U{1F}'

  /** What the clipboard holds: text, or something that cannot be read as text. */
  datatype Clip = Text(text: string) | NonText

  datatype Status = Ok | FocusChanged

  /** `keystroke "v" using {command down}` pastes whatever the clipboard holds;
      `keystroke return` confirms it. */
  datatype Action = Paste(content: Clip) | Confirm

  /** The Python side of the hand-off: `"\x1f".join(items)`.  The text starts with the
      first item, and holds a separator as soon as there are two items. */
  function HandOff(items: seq<string>): (s: string)
    ensures items != [] ==> items[0] <= s
    ensures Separator !in s ==> |items| <= 1
  {
    var s := Join([Separator], items);
    assert |items| >= 2 ==> s[|items[0]|] == Separator;
    s
  }

  /** `text items of itemsText` with the delimiters set to the separator: one piece
      more than there are separators, none holding one. */
  function TextItems(itemsText: string): (r: seq<string>)
    ensures |r| == Count(itemsText, Separator) + 1
    ensures NoneContain(r, Separator)
  {
    SplitCount(itemsText, Separator);
    SplitPiecesFree(itemsText, Separator);
    Split(itemsText, Separator)
  }

  /** The items the loop acts on: the pieces that are not empty, in order. */
  function Sent(itemsText: string): (r: seq<string>)
    ensures NoneEmpty(r) && |r| <= |TextItems(itemsText)|
  {
    NonEmpty(TextItems(itemsText))
  }

  /** `the clipboard as text` inside a `try`: a non-empty snapshot is the clipboard's
      text, and content that is not text leaves it "". */
  function Saved(c: Clip): (s: string)
    ensures s != "" ==> c == Text(s)
    ensures c.NonText? ==> s == ""
  {
    if c.Text? then c.text else ""
  }

  /** How many of `limit` items are delivered: the focus queries `k + 1`, `k + 2`, ...
      are made until one answers differently from query 0 or the items run out. */
  function Reached(frontmost: seq<string>, k: nat, limit: nat): (n: nat)
    requires k <= limit < |frontmost|
    ensures k <= n <= limit
    ensures n < limit ==> frontmost[n + 1] != frontmost[0]
    decreases limit - k
  {
    if k == limit || frontmost[k + 1] != frontmost[0] then k
    else Reached(frontmost, k + 1, limit)
  }

  /** The keystrokes of delivering `xs`: each item is pasted from the clipboard and
      confirmed with return. */
  function PasteAll(xs: seq<string>): (log: seq<Action>)
    ensures |log| == 2 * |xs|
  {
    if xs == [] then []
    else PasteAll(xs[..|xs| - 1]) + [Paste(Text(xs[|xs| - 1])), Confirm]
  }

  /** The clipboard once `sent` were pasted: the last of them, if any.  It is left
      alone when nothing was pasted, and content that is not text survives only
      then. */
  function ClipboardAfter(before: Clip, sent: seq<string>): (c: Clip)
    ensures sent == [] ==> c == before
    ensures c.NonText? ==> before.NonText? && sent == []
  {
    if sent == [] then before else Text(sent[|sent| - 1])
  }

  /** The clipboard when the script returns, after `sent` were delivered. */
  function FinalClipboard(before: Clip, sent: seq<string>): (c: Clip)
    ensures c.NonText? ==> before.NonText? && sent == []
  {
    if Saved(before) != "" then Text(Saved(before)) else ClipboardAfter(before, sent)
  }

  class Desktop {
    var clipboard: Clip
    var log: seq<Action>

    constructor (clip: Clip)
      ensures clipboard == clip && log == []
    {
      clipboard := clip;
      log := [];
    }

    /** The AppleScript `run` handler, given the text of the items file.  Both exits
        of the delivery loop put a non-empty snapshot back, so the restore is shared. */
    method RunScript(itemsText: string, frontmost: seq<string>) returns (status: Status)
      requires |Sent(itemsText)| < |frontmost|
      modifies this
      ensures var items := Sent(itemsText);
              var n := Reached(frontmost, 0, |items|);
              && status == (if n < |items| then FocusChanged else Ok)
              && log == old(log) + PasteAll(items[..n])
              && clipboard == FinalClipboard(old(clipboard), items[..n])
    {
      var itemsList := TextItems(itemsText);
      var savedClipboard := Saved(clipboard);
      var focusChanged := PasteEach(itemsList, frontmost);
      RestoreClipboard(savedClipboard);
      status := if focusChanged then FocusChanged else Ok;
    }

    /** The `repeat` loop: empty pieces are skipped without a focus check; before every
        other piece the front application is compared with the one seen at the start,
        and the loop stops at the first difference. */
    method PasteEach(itemsList: seq<string>, frontmost: seq<string>) returns (focusChanged: bool)
      requires |NonEmpty(itemsList)| < |frontmost|
      modifies this
      ensures var items := NonEmpty(itemsList);
              var n := Reached(frontmost, 0, |items|);
              && focusChanged == (n < |items|)
              && log == old(log) + PasteAll(items[..n])
              && clipboard == ClipboardAfter(old(clipboard), items[..n])
    {
      var frontAppID := frontmost[0];
      ghost var items := NonEmpty(itemsList);
      ghost var done := 0;
      var queries := 1;
      var i := 0;
      while i < |itemsList|
        invariant 0 <= i <= |itemsList|
        invariant done == NonEmptyBefore(itemsList, i) && done <= |items|
        invariant queries == done + 1
        invariant forall q | 0 < q <= done :: frontmost[q] == frontmost[0]
        invariant log == old(log) + PasteAll(items[..done])
        invariant clipboard == ClipboardAfter(old(clipboard), items[..done])
      {
        var itemText := itemsList[i];
        if itemText != "" {
          NonEmptyAt(itemsList, i);
          var currentID := frontmost[queries];
          queries := queries + 1;
          if currentID != frontAppID {
            ReachedIsFirstMismatch(frontmost, 0, |items|, done);
            return true;
          }
          DeliverNext(old(clipboard), items, done);
          PasteItem(itemText);
          done := done + 1;
        }
        i := i + 1;
      }
      NonEmptyBeforeAll(itemsList);
      assert items[..done] == items;
      ReachedIsFirstMismatch(frontmost, 0, |items|, |items|);
      return false;
    }

    /** `set the clipboard to itemText`, then the paste and return keystrokes. */
    method PasteItem(itemText: string)
      modifies this
      ensures clipboard == Text(itemText)
      ensures log == old(log) + [Paste(Text(itemText)), Confirm]
    {
      clipboard := Text(itemText);
      log := log + [Paste(clipboard), Confirm];
    }

    /** `if savedClipboard is not "" then set the clipboard to savedClipboard`. */
    method RestoreClipboard(savedClipboard: string)
      modifies this
      ensures clipboard == if savedClipboard != "" then Text(savedClipboard) else old(clipboard)
      ensures log == old(log)
    {
      if savedClipboard != "" {
        clipboard := Text(savedClipboard);
      }
    }
  }

  /** How many of the first `i` pieces are not empty. */
  function NonEmptyBefore(pieces: seq<string>, i: nat): nat
    requires i <= |pieces|
  {
    if i == 0 then 0 else NonEmptyBefore(pieces, i - 1) + (if pieces[i - 1] == "" then 0 else 1)
  }

  lemma {:induction false} NonEmptyBeforeIsLength(pieces: seq<string>, i: nat)
    requires i <= |pieces|
    ensures NonEmptyBefore(pieces, i) == |NonEmpty(pieces[..i])|
  {
    if i > 0 {
      NonEmptyBeforeIsLength(pieces, i - 1);
      assert pieces[..i] == pieces[..i - 1] + [pieces[i - 1]];
      NonEmptySnoc(pieces[..i - 1], pieces[i - 1]);
    }
  }

  lemma NonEmptyBeforeAll(pieces: seq<string>)
    ensures NonEmptyBefore(pieces, |pieces|) == |NonEmpty(pieces)|
  {
    NonEmptyBeforeIsLength(pieces, |pieces|);
    assert pieces[..|pieces|] == pieces;
  }

  /** A non-empty piece is the item whose position counts the non-empty pieces before it. */
  lemma NonEmptyAt(pieces: seq<string>, i: nat)
    requires i < |pieces| && pieces[i] != ""
    ensures NonEmptyBefore(pieces, i) < |NonEmpty(pieces)|
    ensures NonEmpty(pieces)[NonEmptyBefore(pieces, i)] == pieces[i]
  {
    NonEmptyBeforeIsLength(pieces, i);
    assert pieces == pieces[..i] + ([pieces[i]] + pieces[i + 1..]);
    NonEmptyAppend(pieces[..i], [pieces[i]] + pieces[i + 1..]);
    NonEmptyAppend([pieces[i]], pieces[i + 1..]);
    NonEmptySnoc([], pieces[i]);
    assert [] + [pieces[i]] == [pieces[i]];
  }

  /** Delivering item `d` extends the log by its keystrokes and leaves it on the clipboard. */
  lemma DeliverNext(before: Clip, items: seq<string>, d: nat)
    requires d < |items|
    ensures PasteAll(items[..d + 1]) == PasteAll(items[..d]) + [Paste(Text(items[d])), Confirm]
    ensures ClipboardAfter(before, items[..d + 1]) == Text(items[d])
  {
    assert items[..d + 1] == items[..d] + [items[d]];
    PasteAllSnoc(items[..d], items[d]);
  }

  lemma PasteAllSnoc(xs: seq<string>, x: string)
    ensures PasteAll(xs + [x]) == PasteAll(xs) + [Paste(Text(x)), Confirm]
  {
    assert (xs + [x])[..|xs|] == xs;
  }

  /** Every focus query before the stopping point matched the first one. */
  lemma {:induction false} ReachedPassed(frontmost: seq<string>, k: nat, limit: nat, m: nat)
    requires k <= limit < |frontmost| && k <= m < Reached(frontmost, k, limit)
    ensures frontmost[m + 1] == frontmost[0]
    decreases limit - k
  {
    if m > k {
      ReachedPassed(frontmost, k + 1, limit, m);
    }
  }

  /** `Reached` is exactly the position of the first mismatching focus query, or the
      number of items when there is none. */
  lemma {:induction false} ReachedIsFirstMismatch(frontmost: seq<string>, k: nat, limit: nat, n: nat)
    requires k <= n <= limit < |frontmost|
    requires forall q | k < q <= n :: frontmost[q] == frontmost[0]
    requires n < limit ==> frontmost[n + 1] != frontmost[0]
    ensures Reached(frontmost, k, limit) == n
    decreases n - k
  {
    if k < n {
      ReachedIsFirstMismatch(frontmost, k + 1, limit, n);
    }
  }

  /** While the front application stays the same, every item is delivered. */
  lemma SteadyFocusDeliversAll(frontmost: seq<string>, limit: nat)
    requires limit < |frontmost|
    requires forall m | 0 <= m <= limit :: frontmost[m] == frontmost[0]
    ensures Reached(frontmost, 0, limit) == limit
  {
    ReachedIsFirstMismatch(frontmost, 0, limit, limit);
  }

  /** The log of a delivery, keystroke by keystroke: item `k` is pasted from a
      clipboard holding exactly that item, then confirmed. */
  lemma {:induction false} PasteAllAt(xs: seq<string>, k: nat)
    requires k < |xs|
    ensures PasteAll(xs)[2 * k] == Paste(Text(xs[k])) && PasteAll(xs)[2 * k + 1] == Confirm
  {
    var init := xs[..|xs| - 1];
    if k < |init| {
      PasteAllAt(init, k);
      assert init[k] == xs[k];
    }
  }

  /** A text snapshot that was not empty is put back on both exits. */
  lemma RestoresSavedClipboard(before: Clip, sent: seq<string>)
    requires before.Text? && before.text != ""
    ensures FinalClipboard(before, sent) == before
  {
  }

  /** With nothing saved, the clipboard ends holding the last delivered item. */
  lemma UnsavedClipboardKeepsLastItem(before: Clip, sent: seq<string>)
    requires Saved(before) == "" && sent != []
    ensures FinalClipboard(before, sent) == Text(sent[|sent| - 1])
  {
  }

  /** Joining with the separator and splitting on it gives back the items, provided
      none contains the separator. */
  lemma HandOffRoundTrip(items: seq<string>)
    requires items != [] && NoneContain(items, Separator)
    ensures TextItems(HandOff(items)) == items
  {
    SplitJoin(items, Separator);
  }

  /** Non-empty items without a separator reach the loop exactly as they were. */
  lemma HandOffSends(items: seq<string>)
    requires NoneContain(items, Separator) && NoneEmpty(items)
    ensures Sent(HandOff(items)) == items
  {
    if items == [] {
      assert HandOff(items) == "";
      assert TextItems("") == [""];
    } else {
      HandOffRoundTrip(items);
    }
  }

  /** End to end: when the clipboard text has no separator, the script replays
      precisely the formatted items `_detect_items` found, in order. */
  lemma SendsFormattedItems(fmt: string, text: string)
    requires Separator !in text
    ensures Sent(HandOff(ApplyOutputFormat(fmt, Segment(text)))) == ApplyOutputFormat(fmt, Segment(text))
  {
    var items := Segment(text);
    SegmentFree(text, Separator);
    assert NoneEmpty(items) by {
      forall j | 0 <= j < |items| ensures items[j] != "" {
        SegmentItemShape(text, j);
      }
    }
    FormattedFree(fmt, items, Separator);
    FormattedNonEmpty(fmt, items);
    HandOffSends(ApplyOutputFormat(fmt, items));
  }
}
