/**
  Character-level string operations shared by both scripts: the whitespace and
  digit classes, Python's `str.split`, `str.splitlines`, `str.join`,
  `str.strip`/`rstrip`, `str(int)` and `int(str)`, restricted to the ASCII
  range and to `'\n'` as the only line boundary.
*/
module Text {
  import opened Wrappers

  const NL: char := '\n'

  /** Whitespace: exactly the characters below U+0080 that Python's `str.isspace` accepts. */
  predicate IsSpace(c: char) {
    c == ' ' || c == '\t' || c == '\n' || c == '\r' || c == '\U{B}' || c == '\U{C}' ||
    ('\U{1C}' <= c <= '\U{1F}')
  }

  /** ASCII decimal digits, the part of `\d` this model keeps. */
  predicate IsDigit(c: char) {
    '0' <= c <= '9'
  }

  /** The two sets of characters the scripts strip: all whitespace (`strip()`,
      `rstrip()`) or line feeds only (`strip("\n")`). */
  datatype Blank = Spaces | Newlines

  predicate Drops(b: Blank, c: char) {
    match b
    case Spaces => IsSpace(c)
    case Newlines => c == NL
  }

  predicate AllDigits(s: string) {
    forall k | 0 <= k < |s| :: IsDigit(s[k])
  }

  ghost predicate AllSpace(s: string) {
    forall k | 0 <= k < |s| :: IsSpace(s[k])
  }

  ghost predicate HasNonSpace(s: string) {
    exists k | 0 <= k < |s| :: !IsSpace(s[k])
  }

  /** One element more of a prefix. */
  lemma PrefixStep<T>(xs: seq<T>, k: nat)
    requires k < |xs|
    ensures xs[..k + 1] == xs[..k] + [xs[k]]
  {
  }

  /** A non-empty sequence is its front and its last element. */
  lemma LastSplit<T>(xs: seq<T>)
    requires xs != []
    ensures xs == xs[..|xs| - 1] + [xs[|xs| - 1]]
  {
  }

  /** What `a + [x]` is made of. */
  lemma SnocParts<T>(a: seq<T>, x: T)
    ensures (a + [x]) + [] == a + [x]
    ensures |a + [x]| == |a| + 1 && (a + [x])[..|a|] == a && (a + [x])[|a|] == x
  {
  }

  // ---------------------------------------------------------------------------
  // Stripping

  /** The length of `s[..n]` without its longest suffix of characters that `b` drops. */
  function KeptEnd(s: string, b: Blank, n: nat): (e: nat)
    requires n <= |s|
    ensures e <= n
    ensures e == 0 || !Drops(b, s[e - 1])
  {
    if n > 0 && Drops(b, s[n - 1]) then KeptEnd(s, b, n - 1) else n
  }

  /** The first index from `i` on, below `e`, whose character `b` does not drop
      (`e` when there is none). */
  function KeptStart(s: string, b: Blank, i: nat, e: nat): (st: nat)
    requires i <= e <= |s|
    ensures i <= st <= e
    ensures st == e || !Drops(b, s[st])
    decreases e - i
  {
    if i < e && Drops(b, s[i]) then KeptStart(s, b, i + 1, e) else i
  }

  /** `s` without the characters that `b` drops at its end. */
  function TrimEnd(s: string, b: Blank): string {
    s[..KeptEnd(s, b, |s|)]
  }

  /** `s` without the characters that `b` drops at either end: never longer, and
      neither end of what is left is a character `b` drops. */
  function Trim(s: string, b: Blank): (r: string)
    ensures |r| <= |s|
    ensures r != [] ==> !Drops(b, r[0]) && !Drops(b, r[|r| - 1])
  {
    var e := KeptEnd(s, b, |s|);
    s[KeptStart(s, b, 0, e)..e]
  }

  /** Python's `s.rstrip()`: a prefix of `s` that does not end in a blank. */
  function RStrip(s: string): (r: string)
    ensures r <= s
    ensures r != [] ==> !IsSpace(r[|r| - 1])
  {
    TrimEnd(s, Spaces)
  }

  /** Python's `s.strip()`: what is left neither starts nor ends with a blank. */
  function Strip(s: string): (r: string)
    ensures |r| <= |s|
    ensures r != [] ==> !IsSpace(r[0]) && !IsSpace(r[|r| - 1])
  {
    Trim(s, Spaces)
  }

  /** Python's `s.strip("\n")`: only line feeds are removed, from both ends, so what
      is left neither starts nor ends with one. */
  function StripNewlines(s: string): (r: string)
    ensures |r| <= |s|
    ensures r != [] ==> r[0] != NL && r[|r| - 1] != NL
  {
    Trim(s, Newlines)
  }

  /** A character that `b` does not drop is kept by the end trim ... */
  lemma {:induction false} KeptEndKeeps(s: string, b: Blank, n: nat, k: nat)
    requires k < n <= |s| && !Drops(b, s[k])
    ensures k < KeptEnd(s, b, n)
  {
    if k < n - 1 && Drops(b, s[n - 1]) {
      KeptEndKeeps(s, b, n - 1, k);
    }
  }

  /** ... and by the start trim. */
  lemma {:induction false} KeptStartKeeps(s: string, b: Blank, i: nat, e: nat, k: nat)
    requires i <= k < e <= |s| && !Drops(b, s[k])
    ensures KeptStart(s, b, i, e) <= k
    decreases e - i
  {
    if i < k && Drops(b, s[i]) {
      KeptStartKeeps(s, b, i + 1, e, k);
    }
  }

  /** Everything the end trim removes is dropped by `b` ... */
  lemma {:induction false} KeptEndDrops(s: string, b: Blank, n: nat, k: nat)
    requires n <= |s| && KeptEnd(s, b, n) <= k < n
    ensures Drops(b, s[k])
    decreases n
  {
    if k < n - 1 {
      KeptEndDrops(s, b, n - 1, k);
    }
  }

  /** ... and so is everything the start trim removes. */
  lemma {:induction false} KeptStartDrops(s: string, b: Blank, i: nat, e: nat, k: nat)
    requires i <= e <= |s| && i <= k < KeptStart(s, b, i, e)
    ensures Drops(b, s[k])
    decreases e - i
  {
    if i < k {
      KeptStartDrops(s, b, i + 1, e, k);
    }
  }

  /** A string with a non-blank character keeps one after `rstrip`, and strips to a
      non-empty string whose two ends are not blank. */
  lemma StripKeepsNonSpace(s: string)
    requires HasNonSpace(s)
    ensures RStrip(s) != [] && HasNonSpace(RStrip(s))
    ensures Strip(s) != [] && !IsSpace(Strip(s)[0]) && !IsSpace(Strip(s)[|Strip(s)| - 1])
  {
    var k :| 0 <= k < |s| && !IsSpace(s[k]);
    var e := KeptEnd(s, Spaces, |s|);
    KeptEndKeeps(s, Spaces, |s|, k);
    assert RStrip(s)[k] == s[k];
    var st := KeptStart(s, Spaces, 0, e);
    KeptStartKeeps(s, Spaces, 0, e, k);
    var t := Strip(s);
    assert t[0] == s[st] && t[|t| - 1] == s[e - 1];
  }

  /** A string whose ends are not blank is its own `strip()`. */
  lemma StripOfStripped(s: string)
    requires s != [] ==> !IsSpace(s[0]) && !IsSpace(s[|s| - 1])
    ensures Strip(s) == s && RStrip(s) == s
  {
    assert s[..|s|] == s && s[0..|s|] == s;
  }

  /** `strip()` is idempotent. */
  lemma StripIdempotent(s: string)
    ensures Strip(Strip(s)) == Strip(s)
  {
    var t := Strip(s);
    if t != [] {
      var e := KeptEnd(s, Spaces, |s|);
      var st := KeptStart(s, Spaces, 0, e);
      assert t[0] == s[st] && t[|t| - 1] == s[e - 1];
      StripOfStripped(t);
    }
  }

  // ---------------------------------------------------------------------------
  // Splitting and joining

  /** Index of the first `c` in `s`, or `|s|` when there is none. */
  function IndexOf(s: string, c: char): (i: nat)
    ensures i <= |s|
    ensures forall k | 0 <= k < i :: s[k] != c
    ensures i < |s| ==> s[i] == c
  {
    if s == [] || s[0] == c then 0 else 1 + IndexOf(s[1..], c)
  }

  /** Python's `s.split(c)` for a one-character separator: always at least one piece. */
  function Split(s: string, c: char): (pieces: seq<string>)
    ensures |pieces| >= 1
    decreases |s|
  {
    var i := IndexOf(s, c);
    if i == |s| then [s] else [s[..i]] + Split(s[i + 1..], c)
  }

  /** Python's `sep.join(xs)`: it starts with the first string. */
  function Join(sep: string, xs: seq<string>): (r: string)
    ensures xs != [] ==> xs[0] <= r
  {
    if |xs| == 0 then ""
    else if |xs| == 1 then xs[0]
    else xs[0] + sep + Join(sep, xs[1..])
  }

  /** Python's `s.splitlines()`, with `'\n'` as the only line boundary: a final line
      feed does not open an empty last line, and only the empty string has no lines. */
  function SplitLines(s: string): (lines: seq<string>)
    ensures lines == [] <==> s == []
  {
    JoinSplit(s, NL);
    var pieces := Split(s, NL);
    if pieces[|pieces| - 1] == "" then pieces[..|pieces| - 1] else pieces
  }

  /** The number of occurrences of `c` in `s`. */
  function Count(s: string, c: char): nat {
    if s == [] then 0 else (if s[0] == c then 1 else 0) + Count(s[1..], c)
  }

  lemma JoinCons(sep: string, x: string, xs: seq<string>)
    requires xs != []
    ensures Join(sep, [x] + xs) == x + sep + Join(sep, xs)
  {
    assert ([x] + xs)[1..] == xs;
  }

  lemma {:induction false} JoinSnoc(sep: string, xs: seq<string>, y: string)
    ensures Join(sep, xs + [y]) == if xs == [] then y else Join(sep, xs) + sep + y
  {
    if xs != [] {
      var x := xs[0];
      var rest := xs[1..];
      assert xs == [x] + rest;
      assert xs + [y] == [x] + (rest + [y]);
      JoinCons(sep, x, rest + [y]);
      JoinSnoc(sep, rest, y);
      if rest != [] {
        JoinCons(sep, x, rest);
      }
    }
  }

  lemma {:induction false} JoinAppend(sep: string, a: seq<string>, b: seq<string>)
    requires a != [] && b != []
    ensures Join(sep, a + b) == Join(sep, a) + sep + Join(sep, b)
  {
    var x := a[0];
    var rest := a[1..];
    assert a == [x] + rest;
    assert a + b == [x] + (rest + b);
    JoinCons(sep, x, rest + b);
    if rest != [] {
      JoinAppend(sep, rest, b);
      JoinCons(sep, x, rest);
    }
  }

  /** Joining the pieces of a split with the separator gives back the string. */
  lemma {:induction false} JoinSplit(s: string, c: char)
    ensures Join([c], Split(s, c)) == s
    decreases |s|
  {
    var i := IndexOf(s, c);
    if i < |s| {
      var rest := s[i + 1..];
      JoinSplit(rest, c);
      JoinCons([c], s[..i], Split(rest, c));
      assert s == s[..i] + [c] + rest;
    }
  }

  /** No piece of a split contains the separator. */
  lemma {:induction false} SplitPiecesFree(s: string, c: char)
    ensures forall j | 0 <= j < |Split(s, c)| :: c !in Split(s, c)[j]
    decreases |s|
  {
    var i := IndexOf(s, c);
    if i < |s| {
      SplitPiecesFree(s[i + 1..], c);
      assert forall k | 0 <= k < i :: s[..i][k] != c;
    }
  }

  /** Splitting a joined sequence of separator-free strings gives the sequence back. */
  lemma {:induction false} SplitJoin(xs: seq<string>, c: char)
    requires xs != []
    requires forall j | 0 <= j < |xs| :: c !in xs[j]
    ensures Split(Join([c], xs), c) == xs
  {
    var x := xs[0];
    assert IndexOf(x, c) == |x|;
    if |xs| == 1 {
      assert Join([c], xs) == x;
    } else {
      var rest := xs[1..];
      assert xs == [x] + rest;
      JoinCons([c], x, rest);
      var s := Join([c], xs);
      assert s == x + [c] + Join([c], rest);
      assert s[..|x|] == x && s[|x|] == c;
      assert IndexOf(s, c) == |x|;
      assert s[|x| + 1..] == Join([c], rest);
      SplitJoin(rest, c);
    }
  }

  /** One piece more than separators. */
  lemma {:induction false} SplitCount(s: string, c: char)
    ensures |Split(s, c)| == Count(s, c) + 1
    decreases |s|
  {
    var i := IndexOf(s, c);
    var head, tail := s[..i], s[i..];
    CountAppend(head, tail, c);
    assert s == head + tail;
    CountNone(head, c);
    if i < |s| {
      var rest := s[i + 1..];
      SplitCount(rest, c);
      assert Split(s, c) == [head] + Split(rest, c);
      assert tail[0] == c && tail[1..] == rest;
      assert Count(tail, c) == 1 + Count(rest, c);
    } else {
      assert Split(s, c) == [s] && tail == [];
    }
  }

  lemma {:induction false} CountAppend(a: string, b: string, c: char)
    ensures Count(a + b, c) == Count(a, c) + Count(b, c)
  {
    if a != [] {
      assert (a + b)[0] == a[0] && (a + b)[1..] == a[1..] + b;
      CountAppend(a[1..], b, c);
    } else {
      assert a + b == b;
    }
  }

  lemma {:induction false} CountSome(a: string, c: char, k: nat)
    requires k < |a| && a[k] == c
    ensures Count(a, c) >= 1
  {
    if k > 0 {
      CountSome(a[1..], c, k - 1);
    }
  }

  /** Only the last character can count when the others differ from `c`. */
  lemma CountLast(front: string, last: char, c: char)
    requires c !in front
    ensures Count(front + [last], c) == if last == c then 1 else 0
  {
    CountAppend(front, [last], c);
    CountNone(front, c);
  }

  lemma {:induction false} CountNone(a: string, c: char)
    requires forall k | 0 <= k < |a| :: a[k] != c
    ensures Count(a, c) == 0
  {
    if a != [] {
      CountNone(a[1..], c);
    }
  }

  /** The last piece is empty exactly when the string is empty or ends with the separator. */
  lemma {:induction false} SplitLastEmpty(s: string, c: char)
    ensures Split(s, c)[|Split(s, c)| - 1] == "" <==> (s == [] || s[|s| - 1] == c)
    decreases |s|
  {
    var i := IndexOf(s, c);
    if i < |s| {
      var rest := s[i + 1..];
      var p := Split(rest, c);
      assert Split(s, c) == [s[..i]] + p;
      assert Split(s, c)[|Split(s, c)| - 1] == p[|p| - 1];
      SplitLastEmpty(rest, c);
      if rest != [] {
        assert rest[|rest| - 1] == s[|s| - 1];
      }
    } else if s != [] {
      assert s[|s| - 1] != c;
    }
  }

  /** `splitlines()` counts one line per line feed, plus one for an unterminated last line. */
  lemma LineCount(s: string)
    ensures |SplitLines(s)| == Count(s, NL) + (if s != [] && s[|s| - 1] != NL then 1 else 0)
  {
    SplitCount(s, NL);
    SplitLastEmpty(s, NL);
  }

  /** Text whose only line feed, if any, is its last character has at most one line. */
  lemma AtMostOneLine(s: string)
    requires s == [] || NL !in s[..|s| - 1]
    ensures |SplitLines(s)| <= 1
  {
    LineCount(s);
    if s != [] {
      var front := s[..|s| - 1];
      assert s == front + [s[|s| - 1]];
      CountLast(front, s[|s| - 1], NL);
    }
  }

  /** No line contains a line feed. */
  lemma LinesHaveNoNewline(s: string)
    ensures forall j | 0 <= j < |SplitLines(s)| :: NL !in SplitLines(s)[j]
  {
    SplitPiecesFree(s, NL);
  }

  /** Joining the lines with line feeds restores the text, less one final line feed. */
  lemma JoinSplitLines(s: string)
    ensures Join([NL], SplitLines(s)) == if s != [] && s[|s| - 1] == NL then s[..|s| - 1] else s
  {
    var pieces := Split(s, NL);
    LinesArePieces(s);
    JoinSplit(s, NL);
    SplitLastEmpty(s, NL);
    if pieces[|pieces| - 1] == "" {
      JoinDropLast(pieces, s);
      assert SplitLines(s) == pieces[..|pieces| - 1];
    } else {
      assert SplitLines(s) == pieces;
      assert !(s != [] && s[|s| - 1] == NL);
    }
  }

  lemma JoinDropLast(pieces: seq<string>, s: string)
    requires pieces != [] && pieces[|pieces| - 1] == "" && Join([NL], pieces) == s
    ensures Join([NL], pieces[..|pieces| - 1]) == if s != [] && s[|s| - 1] == NL then s[..|s| - 1] else s
  {
    var init := pieces[..|pieces| - 1];
    LastSplit(pieces);
    JoinSnoc([NL], init, "");
    if init != [] {
      SnocParts(Join([NL], init), NL);
    }
  }

  /** Splitting newline-joined lines that hold no line feed, the last one non-empty,
      gives the lines back. */
  lemma SplitLinesJoin(lines: seq<string>)
    requires lines != [] && lines[|lines| - 1] != ""
    requires forall j | 0 <= j < |lines| :: NL !in lines[j]
    ensures SplitLines(Join([NL], lines)) == lines
  {
    SplitJoin(lines, NL);
  }

  /** A text with a non-blank character has a line with one. */
  lemma {:induction false} NonSpaceInSomeLine(s: string)
    requires HasNonSpace(s)
    ensures exists j | 0 <= j < |SplitLines(s)| :: HasNonSpace(SplitLines(s)[j])
  {
    var p :| 0 <= p < |s| && !IsSpace(s[p]);
    var j := NonSpaceInSomePiece(s, p);
    var pieces := Split(s, NL);
    assert pieces[j] != "";
    LinesArePieces(s);
    assert j < |SplitLines(s)| && SplitLines(s)[j] == pieces[j];
  }

  /** The lines are the pieces, less a final empty one. */
  lemma LinesArePieces(s: string)
    ensures var pieces := Split(s, NL);
      SplitLines(s) == if pieces[|pieces| - 1] == "" then pieces[..|pieces| - 1] else pieces
  {
  }

  lemma {:induction false} NonSpaceInSomePiece(s: string, p: nat) returns (j: nat)
    requires p < |s| && !IsSpace(s[p])
    ensures j < |Split(s, NL)| && HasNonSpace(Split(s, NL)[j])
    decreases |s|
  {
    var i := IndexOf(s, NL);
    if i == |s| {
      j := 0;
    } else if p < i {
      assert s[..i][p] == s[p];
      j := 0;
    } else {
      assert p != i;
      var rest := s[i + 1..];
      assert rest[p - i - 1] == s[p];
      var j' := NonSpaceInSomePiece(rest, p - i - 1);
      j := j' + 1;
    }
  }

  // ---------------------------------------------------------------------------
  // Dropping empty strings

  /** The non-empty strings of `xs`, in order: Python's `[s for s in xs if s]`.  No
      empty string is left, and strings that are all non-empty are all kept. */
  function NonEmpty(xs: seq<string>): (r: seq<string>)
    ensures |r| <= |xs|
    ensures NoneEmpty(r)
    ensures NoneEmpty(xs) ==> r == xs
  {
    if xs == [] then []
    else
      var init := xs[..|xs| - 1];
      var last := xs[|xs| - 1];
      assert forall j | 0 <= j < |init| :: init[j] == xs[j];
      assert xs == init + [last];
      NonEmpty(init) + (if last == "" then [] else [last])
  }

  /** No string of `xs` is empty. */
  ghost predicate NoneEmpty(xs: seq<string>) {
    forall j | 0 <= j < |xs| :: xs[j] != ""
  }

  lemma NonEmptySnoc(xs: seq<string>, x: string)
    ensures NonEmpty(xs + [x]) == NonEmpty(xs) + (if x == "" then [] else [x])
  {
    assert (xs + [x])[..|xs|] == xs;
  }

  lemma {:induction false} NonEmptyAppend(a: seq<string>, b: seq<string>)
    ensures NonEmpty(a + b) == NonEmpty(a) + NonEmpty(b)
  {
    if b == [] {
      assert a + b == a;
    } else {
      var init := b[..|b| - 1];
      var last := b[|b| - 1];
      assert b == init + [last];
      assert a + b == (a + init) + [last];
      NonEmptyAppend(a, init);
      NonEmptySnoc(a + init, last);
      NonEmptySnoc(init, last);
    }
  }

  // ---------------------------------------------------------------------------
  // Characters of derived strings

  /** Python's `s.replace(a, b)` for single characters. */
  function ReplaceChar(s: string, a: char, b: char): (r: string)
    ensures |r| == |s|
    ensures forall k | 0 <= k < |s| :: r[k] == if s[k] == a then b else s[k]
  {
    if s == [] then [] else [if s[0] == a then b else s[0]] + ReplaceChar(s[1..], a, b)
  }

  /** Replacing then cutting is cutting then replacing. */
  lemma ReplaceCharPrefix(s: string, a: char, b: char, n: nat)
    requires n <= |s|
    ensures ReplaceChar(s, a, b)[..n] == ReplaceChar(s[..n], a, b)
  {
  }

  lemma ReplaceCharFree(s: string, a: char, b: char, c: char)
    requires c != b && (c == a || c !in s)
    ensures c !in ReplaceChar(s, a, b)
  {
  }

  lemma SliceFree(s: string, c: char, i: nat, j: nat)
    requires i <= j <= |s| && c !in s
    ensures c !in s[i..j]
  {
  }

  lemma StripFree(s: string, c: char)
    requires c !in s
    ensures c !in RStrip(s) && c !in Strip(s) && c !in StripNewlines(s)
  {
    var e := KeptEnd(s, Spaces, |s|);
    SliceFree(s, c, 0, e);
    SliceFree(s, c, KeptStart(s, Spaces, 0, e), e);
    var n := KeptEnd(s, Newlines, |s|);
    SliceFree(s, c, KeptStart(s, Newlines, 0, n), n);
  }

  /** No string of `xs` contains `c`. */
  ghost predicate NoneContain(xs: seq<string>, c: char) {
    forall j | 0 <= j < |xs| :: c !in xs[j]
  }

  lemma {:induction false} JoinFree(sep: string, xs: seq<string>, c: char)
    requires c !in sep && NoneContain(xs, c)
    ensures c !in Join(sep, xs)
  {
    if |xs| > 1 {
      var rest := xs[1..];
      assert NoneContain(rest, c) by {
        forall j | 0 <= j < |rest| ensures c !in rest[j] {
          assert rest[j] == xs[j + 1];
        }
      }
      JoinFree(sep, rest, c);
    }
  }

  lemma SplitLinesFree(s: string, c: char)
    requires c !in s
    ensures NoneContain(SplitLines(s), c)
  {
    SplitPiecesFromText(s, NL, c);
  }

  lemma {:induction false} SplitPiecesFromText(s: string, sep: char, c: char)
    requires c !in s
    ensures NoneContain(Split(s, sep), c)
    decreases |s|
  {
    var i := IndexOf(s, sep);
    if i < |s| {
      SliceFree(s, c, 0, i);
      SliceFree(s, c, i + 1, |s|);
      SplitPiecesFromText(s[i + 1..], sep, c);
    }
  }

  // ---------------------------------------------------------------------------
  // Integers and their decimal text

  function DigitChar(d: nat): (c: char)
    requires d < 10
    ensures IsDigit(c) && c as int - '0' as int == d
  {
    ('0' as int + d) as char
  }

  /** Python's `str(n)` for a natural number. */
  function NatToString(n: nat): (s: string)
    ensures s != [] && AllDigits(s)
  {
    if n < 10 then [DigitChar(n)] else NatToString(n / 10) + [DigitChar(n % 10)]
  }

  /** Python's `str(i)` for an integer. */
  function IntToString(i: int): (s: string)
    ensures s != [] && !IsSpace(s[0]) && !IsSpace(s[|s| - 1])
    ensures forall k | 0 <= k < |s| :: s[k] == '-' || IsDigit(s[k])
  {
    if i < 0 then ['-'] + NatToString(-i) else NatToString(i)
  }

  /** The value of a string of decimal digits. */
  function DigitsValue(s: string): nat
    requires AllDigits(s)
  {
    if s == [] then 0 else DigitsValue(s[..|s| - 1]) * 10 + (s[|s| - 1] as int - '0' as int)
  }

  /** The text `int` accepts once its blanks are stripped: an optional sign, then at
      least one decimal digit. */
  predicate IntText(t: string) {
    t != [] && if t[0] == '-' || t[0] == '+' then |t| > 1 && AllDigits(t[1..]) else AllDigits(t)
  }

  /** Python's `int(s)` on ASCII text: surrounding blanks, an optional sign, then at
      least one decimal digit; anything else is the `ValueError` case.  The digits read
      as their decimal value, negated after a minus sign. */
  function ParseInt(s: string): (r: Option<int>)
    ensures r.Some? <==> IntText(Strip(s))
    ensures r.Some? ==> Strip(s) != []
    ensures Strip(s) != [] && AllDigits(Strip(s)) ==> r == Some(DigitsValue(Strip(s)) as int)
    ensures var t := Strip(s);
      |t| > 1 && t[0] == '-' && AllDigits(t[1..]) ==> r == Some(-(DigitsValue(t[1..]) as int))
    ensures var t := Strip(s);
      |t| > 1 && t[0] == '+' && AllDigits(t[1..]) ==> r == Some(DigitsValue(t[1..]) as int)
  {
    ParseSigned(Strip(s))
  }

  /** `int` on text that is already stripped. */
  function ParseSigned(t: string): Option<int> {
    if t != [] && (t[0] == '-' || t[0] == '+') then
      var d := t[1..];
      if d != [] && AllDigits(d) then
        var v: int := DigitsValue(d);
        Some(if t[0] == '-' then -v else v)
      else None
    else if t != [] && AllDigits(t) then Some(DigitsValue(t) as int)
    else None
  }

  lemma {:induction false} NatToStringValue(n: nat)
    ensures DigitsValue(NatToString(n)) == n
  {
    if n >= 10 {
      var s := NatToString(n);
      assert s[..|s| - 1] == NatToString(n / 10);
      NatToStringValue(n / 10);
    }
  }

  /** Decimal digits read back as their value, with or without a minus sign. */
  lemma ParseSignedDigits(d: string)
    requires d != [] && AllDigits(d)
    ensures ParseSigned(d) == Some(DigitsValue(d) as int)
    ensures ParseSigned(['-'] + d) == Some(-(DigitsValue(d) as int))
  {
    assert (['-'] + d)[1..] == d;
  }

  lemma ParseIntDigits(d: string)
    requires d != [] && AllDigits(d)
    ensures ParseInt(d) == Some(DigitsValue(d) as int)
  {
    assert !IsSpace(d[0]) && !IsSpace(d[|d| - 1]);
    StripOfStripped(d);
    ParseSignedDigits(d);
  }

  lemma ParseIntNegDigits(d: string)
    requires d != [] && AllDigits(d)
    ensures ParseInt(['-'] + d) == Some(-(DigitsValue(d) as int))
  {
    var m := ['-'] + d;
    assert m[|m| - 1] == d[|d| - 1];
    assert !IsSpace(m[0]) && !IsSpace(m[|m| - 1]);
    StripOfStripped(m);
    ParseSignedDigits(d);
  }

  /** `int(str(i)) == i`. */
  lemma ParseIntToString(i: int)
    ensures ParseInt(IntToString(i)) == Some(i)
  {
    if i < 0 {
      NatToStringValue(-i);
      ParseIntNegDigits(NatToString(-i));
    } else {
      NatToStringValue(i);
      ParseIntDigits(NatToString(i));
    }
  }
}
