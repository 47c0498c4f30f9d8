/**
  The format names both scripts accept and the per-item prefixes of Multi-Send's
  `_apply_output_format`, which prepares each item for replay.
*/
module OutputFormat {
  import opened Text

  const PlainFormat: string := "Plain (newlines)"
  const DashFormat: string := "Dash list"
  const BulletFormat: string := "Bullet points"
  const NumberedFormat: string := "Numbered list"
  const CommaFormat: string := "Comma separated"

  const DashPrefix: string := "- "
  const BulletPrefix: string := "\U{2022} "

  /** The text put before the `n`-th item, counting from 1, in format `fmt`. */
  function ItemPrefix(fmt: string, n: nat): string {
    if fmt == DashFormat then DashPrefix
    else if fmt == BulletFormat then BulletPrefix
    else if fmt == NumberedFormat then NatToString(n) + ". "
    else ""
  }

  /** `_apply_output_format`: one list comprehension per prefixing format; the plain
      format, and any other name, leave the items as they are. */
  function ApplyOutputFormat(fmt: string, items: seq<string>): (r: seq<string>)
    ensures |r| == |items|
  {
    if fmt == PlainFormat then items
    else if fmt == DashFormat then seq(|items|, j requires 0 <= j < |items| => DashPrefix + items[j])
    else if fmt == BulletFormat then seq(|items|, j requires 0 <= j < |items| => BulletPrefix + items[j])
    else if fmt == NumberedFormat then
      seq(|items|, j requires 0 <= j < |items| => NatToString(j + 1) + ". " + items[j])
    else items
  }

  /** Order and content are kept: the item at position `j` is the `j + 1`-th prefix
      followed by the original item. */
  lemma FormattedItem(fmt: string, items: seq<string>, j: nat)
    requires j < |items|
    ensures ApplyOutputFormat(fmt, items)[j] == ItemPrefix(fmt, j + 1) + items[j]
  {
    if fmt != DashFormat && fmt != BulletFormat && fmt != NumberedFormat {
      assert ItemPrefix(fmt, j + 1) + items[j] == items[j];
    }
  }

  /** The plain format, the comma format (which Multi-Send does not handle) and every
      unknown name return the items unchanged. */
  lemma UnprefixedFormats(fmt: string, items: seq<string>)
    requires fmt != DashFormat && fmt != BulletFormat && fmt != NumberedFormat
    ensures ApplyOutputFormat(fmt, items) == items
  {
  }

  /** No format adds a character that is neither in the items nor in a prefix. */
  lemma FormattedFree(fmt: string, items: seq<string>, c: char)
    requires NoneContain(items, c) && !IsDigit(c) && c !in DashPrefix && c !in BulletPrefix && c !in ". "
    ensures NoneContain(ApplyOutputFormat(fmt, items), c)
  {
    var r := ApplyOutputFormat(fmt, items);
    forall j | 0 <= j < |r| ensures c !in r[j] {
      FormattedItem(fmt, items, j);
    }
  }

  /** No format turns a non-empty item into an empty one. */
  lemma FormattedNonEmpty(fmt: string, items: seq<string>)
    requires NoneEmpty(items)
    ensures NoneEmpty(ApplyOutputFormat(fmt, items))
  {
    var r := ApplyOutputFormat(fmt, items);
    forall j | 0 <= j < |r| ensures r[j] != "" {
      FormattedItem(fmt, items, j);
    }
  }
}
