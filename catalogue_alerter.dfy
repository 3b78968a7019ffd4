/** The watch-list reader of the catalogue alerter. The items file is a
    sequence of raw lines; each logical line is stripped, joined with the
    following lines while it ends in a backslash, cut at its first '#' not
    preceded by a backslash, stripped again, dropped if empty, and otherwise
    unescaped ("\#" -> "#") and kept, in file order. */
module CatalogueAlerter {
  import opened AlertText

  datatype Option<T> = None | Some(value: T)

  /** What one pass of the continuation loop leaves behind: the joined
      text and the index of the first line not yet read. */
  datatype Joined = Joined(text: string, next: nat)

  /** What one logical line yields: an alert item or nothing, and the index
      of the line where the next logical line starts. */
  datatype Record = Record(item: Option<string>, next: nat)

  /** An alert item as the reader promises it: non-empty and without
      whitespace at either end. */
  predicate ValidItem(s: string) {
    s != [] && Trimmed(s)
  }

  /** The line that `next(file, '')` supplies, stripped: the next unread
      line, or "" once the file is exhausted. */
  function NextLine(lines: seq<string>, i: nat): (r: string)
    requires i <= |lines|
    ensures i < |lines| ==> r == Strip(lines[i])
    ensures i == |lines| ==> r == ""
  {
    if i < |lines| then Strip(lines[i]) else ""
  }

  /** The continuation loop: while `line` ends with a backslash, drop that
      backslash and append the next stripped line (or "" at end of file).
      Each pass either reads a line or, at end of file, shortens `line` by
      one character, so the loop ends. */
  function Join(line: string, lines: seq<string>, i: nat): (j: Joined)
    requires i <= |lines|
    ensures !EndsWithBackslash(j.text)
    ensures i <= j.next <= |lines|
    ensures !EndsWithBackslash(line) ==> j == Joined(line, i)
    ensures EndsWithBackslash(line) && i < |lines| ==> j.next > i
    decreases |lines| - i, |line|
  {
    if EndsWithBackslash(line) then
      var i' := if i < |lines| then i + 1 else i;
      Join(line[..|line| - 1] + NextLine(lines, i), lines, i')
    else
      Joined(line, i)
  }

  /** `line` without all of its trailing backslashes. */
  function DropTrailingBackslashes(line: string): (r: string)
    ensures r <= line && !EndsWithBackslash(r)
    ensures forall k :: |r| <= k < |line| ==> line[k] == '\\'
  {
    if EndsWithBackslash(line) then DropTrailingBackslashes(line[..|line| - 1]) else line
  }

  /** At end of file every pass of the continuation loop removes exactly one
      trailing backslash, so the loop strips them all and reads nothing. */
  lemma {:induction false} JoinAtEndOfFile(line: string, lines: seq<string>)
    ensures Join(line, lines, |lines|) == Joined(DropTrailingBackslashes(line), |lines|)
    decreases |line|
  {
    if EndsWithBackslash(line) {
      assert line[..|line| - 1] + NextLine(lines, |lines|) == line[..|line| - 1];
      JoinAtEndOfFile(line[..|line| - 1], lines);
    }
  }

  /** A continued line absorbs the next line: the joined text starts as the
      line without its final backslash followed by the next stripped line,
      and that next line is consumed. */
  lemma JoinContinues(line: string, lines: seq<string>, i: nat)
    requires i < |lines| && EndsWithBackslash(line)
    ensures Join(line, lines, i) == Join(line[..|line| - 1] + Strip(lines[i]), lines, i + 1)
    ensures Join(line, lines, i).next >= i + 1
  {
  }

  /** At end of file one pass of the continuation loop only removes the
      final backslash. */
  lemma JoinShortensAtEndOfFile(line: string, lines: seq<string>)
    requires EndsWithBackslash(line)
    ensures Join(line, lines, |lines|) == Join(line[..|line| - 1], lines, |lines|)
  {
    assert line[..|line| - 1] + NextLine(lines, |lines|) == line[..|line| - 1];
  }

  /** Joining never changes a leading '#': a line that starts as a comment
      stays one, however many lines it absorbs. */
  lemma {:induction false} JoinKeepsLeadingHash(line: string, lines: seq<string>, i: nat)
    requires i <= |lines|
    requires |line| > 0 && line[0] == '#'
    ensures |Join(line, lines, i).text| > 0 && Join(line, lines, i).text[0] == '#'
    decreases |lines| - i, |line|
  {
    if EndsWithBackslash(line) {
      var i' := if i < |lines| then i + 1 else i;
      var line' := line[..|line| - 1] + NextLine(lines, i);
      assert line'[0] == '#';
      JoinKeepsLeadingHash(line', lines, i');
    }
  }

  /** The text of a joined line that survives comment removal: the part
      before the first unescaped '#', stripped. It holds no unescaped '#'. */
  function Kept(joined: string): (r: string)
    ensures Trimmed(r)
    ensures NoUnescapedHash(r)
  {
    StripKeepsNoUnescapedHash(BeforeUnescapedHash(joined));
    Strip(BeforeUnescapedHash(joined))
  }

  /** One iteration of the reader's `for` loop, starting at line `i`. */
  function ReadRecord(lines: seq<string>, i: nat): (r: Record)
    requires i < |lines|
    ensures i < r.next <= |lines|
    ensures r.item.Some? ==> ValidItem(r.item.value)
  {
    var j := Join(Strip(lines[i]), lines, i + 1);
    var kept := Kept(j.text);
    if kept == [] then Record(None, j.next)
    else
      UnescapeHashKeepsTrimmed(kept);
      Record(Some(UnescapeHash(kept)), j.next)
  }

  /** Every element of `items` is a valid alert item. */
  predicate AllValidItems(items: seq<string>) {
    forall k :: 0 <= k < |items| ==> ValidItem(items[k])
  }

  lemma AllValidItemsAppend(a: seq<string>, b: seq<string>)
    requires AllValidItems(a) && AllValidItems(b)
    ensures AllValidItems(a + b)
  {
  }

  /** A blank line contributes no item and consumes only itself. */
  lemma BlankLineGivesNoItem(lines: seq<string>, i: nat)
    requires i < |lines| && AllSpace(lines[i])
    ensures ReadRecord(lines, i) == Record(None, i + 1)
  {
    StripEmptyIffBlank(lines[i]);
  }

  /** A line that is only a comment contributes no item, even when it ends
      in a backslash and absorbs the lines after it. */
  lemma CommentLineGivesNoItem(lines: seq<string>, i: nat)
    requires i < |lines|
    requires var t := Strip(lines[i]); |t| > 0 && t[0] == '#'
    ensures ReadRecord(lines, i).item == None
  {
    var j := Join(Strip(lines[i]), lines, i + 1);
    JoinKeepsLeadingHash(Strip(lines[i]), lines, i + 1);
    BeforeUnescapedHashOfComment(j.text);
  }

  /** The items of lines[i..], in order. */
  function Items(lines: seq<string>, i: nat): (items: seq<string>)
    requires i <= |lines|
    ensures |items| <= |lines| - i
    ensures AllValidItems(items)
    decreases |lines| - i
  {
    if i == |lines| then []
    else
      var r := ReadRecord(lines, i);
      var head := if r.item.Some? then [r.item.value] else [];
      var rest := Items(lines, r.next);
      AllValidItemsAppend(head, rest);
      head + rest
  }

  /** The items of the file, or none when the file does not exist. */
  function AlertItems(file: Option<seq<string>>): (items: seq<string>)
    ensures file.None? ==> items == []
    ensures file.Some? ==> |items| <= |file.value|
    ensures AllValidItems(items)
  {
    match file
    case None => []
    case Some(lines) => Items(lines, 0)
  }

  /** The indices of lines[i..] at which a logical line starts: `i`, then
      wherever the previous logical line stopped reading. */
  ghost function Starts(lines: seq<string>, i: nat): (s: seq<nat>)
    requires i <= |lines|
    ensures |s| <= |lines| - i
    ensures forall k :: 0 <= k < |s| ==> i <= s[k] < |lines|
    ensures s == [] <==> i == |lines|
    ensures s != [] ==> s[0] == i
    decreases |lines| - i
  {
    if i == |lines| then [] else [i] + Starts(lines, ReadRecord(lines, i).next)
  }

  predicate StrictlyIncreasing(s: seq<nat>) {
    forall a, b :: 0 <= a < b < |s| ==> s[a] < s[b]
  }

  /** Logical lines start in increasing order, each one where the previous
      one stopped reading, and the last one reads to the end of the file. */
  lemma {:induction false} StartsChain(lines: seq<string>, i: nat)
    requires i <= |lines|
    ensures var s := Starts(lines, i);
            StrictlyIncreasing(s)
            && (forall k :: 0 <= k < |s| - 1 ==> s[k + 1] == ReadRecord(lines, s[k]).next)
            && (s != [] ==> ReadRecord(lines, s[|s| - 1]).next == |lines|)
    decreases |lines| - i
  {
    if i < |lines| {
      var n := ReadRecord(lines, i).next;
      StartsChain(lines, n);
      var s := Starts(lines, i);
      assert s == [i] + Starts(lines, n);
    }
  }

  /** A line that still ends in a backslash after stripping, with another
      line after it, consumes at least that following line as well. */
  lemma ContinuedLineConsumesNext(lines: seq<string>, i: nat)
    requires i + 1 < |lines| && EndsWithBackslash(Strip(lines[i]))
    ensures ReadRecord(lines, i).next >= i + 2
  {
  }

  /** A line swallowed by a continuation never starts a logical line of its
      own, so it never gives an item by itself: no start lies strictly
      between a logical line's start and the line where its reading stopped. */
  lemma SwallowedLineIsNotAStart(lines: seq<string>, i: nat, k: nat)
    requires i <= |lines|
    requires k < |Starts(lines, i)|
    ensures var o := Starts(lines, i)[k];
            forall m :: o < m < ReadRecord(lines, o).next ==> m !in Starts(lines, i)
  {
    var s := Starts(lines, i);
    var o := s[k];
    var n := ReadRecord(lines, o).next;
    StartsChain(lines, i);
    forall m | o < m < n ensures m !in s {
      forall a | 0 <= a < |s| ensures s[a] != m {
        if a < k { assert s[a] < s[k]; }
        else if a > k { assert s[k + 1] == n; assert s[a] >= s[k + 1]; }
      }
    }
  }

  /** In particular the line right after a continued line is never a start. */
  lemma ContinuedLineIsNotAStart(lines: seq<string>, i: nat, k: nat)
    requires i <= |lines|
    requires k < |Starts(lines, i)|
    requires var o := Starts(lines, i)[k]; o + 1 < |lines| && EndsWithBackslash(Strip(lines[o]))
    ensures Starts(lines, i)[k] + 1 !in Starts(lines, i)
  {
    ContinuedLineConsumesNext(lines, Starts(lines, i)[k]);
    SwallowedLineIsNotAStart(lines, i, k);
  }

  /** The items given by the logical lines starting at `starts`, in that order. */
  ghost function ItemsAt(lines: seq<string>, starts: seq<nat>): seq<string>
    requires forall k :: 0 <= k < |starts| ==> starts[k] < |lines|
  {
    if starts == [] then []
    else
      var r := ReadRecord(lines, starts[0]);
      (if r.item.Some? then [r.item.value] else []) + ItemsAt(lines, starts[1..])
  }

  /** The reader's output is the items of its logical lines in source order. */
  lemma {:induction false} ItemsInSourceOrder(lines: seq<string>, i: nat)
    requires i <= |lines|
    ensures Items(lines, i) == ItemsAt(lines, Starts(lines, i))
    decreases |lines| - i
  {
    if i < |lines| {
      var n := ReadRecord(lines, i).next;
      ItemsInSourceOrder(lines, n);
      assert Starts(lines, i)[1..] == Starts(lines, n);
    }
  }

  /** A watch-list file that lists `items`, one per line, with every '#'
      written as "\#". */
  function WriteItems(items: seq<string>): (lines: seq<string>)
    ensures |lines| == |items|
    ensures forall k :: 0 <= k < |items| ==> lines[k] == EscapeHash(items[k])
  {
    seq(|items|, k requires 0 <= k < |items| => EscapeHash(items[k]))
  }

  /** A line holding an escaped item is read back as exactly that item,
      on its own. */
  lemma ReadEscapedLine(lines: seq<string>, i: nat, x: string)
    requires i < |lines| && lines[i] == EscapeHash(x)
    requires ValidItem(x) && !EndsWithBackslash(x)
    ensures ReadRecord(lines, i) == Record(Some(x), i + 1)
  {
    var e := EscapeHash(x);
    TrimmedIsStripFixpoint(e);
    EscapeHashHasNoUnescapedHash(x);
    BeforeUnescapedHashOfCommentFree(e);
    UnescapeEscapeHash(x);
  }

  /** Writing items that are trimmed, non-empty and do not end in a
      backslash, and reading the file back, gives the same items in the
      same order. */
  lemma {:induction false} ReadWrittenItems(items: seq<string>)
    requires forall k :: 0 <= k < |items| ==> ValidItem(items[k]) && !EndsWithBackslash(items[k])
    ensures AlertItems(Some(WriteItems(items))) == items
  {
    ReadWrittenItemsFrom(items, 0);
  }

  lemma {:induction false} ReadWrittenItemsFrom(items: seq<string>, i: nat)
    requires i <= |items|
    requires forall k :: 0 <= k < |items| ==> ValidItem(items[k]) && !EndsWithBackslash(items[k])
    ensures Items(WriteItems(items), i) == items[i..]
    decreases |items| - i
  {
    var lines := WriteItems(items);
    if i < |items| {
      ReadEscapedLine(lines, i, items[i]);
      ReadWrittenItemsFrom(items, i + 1);
      assert items[i..] == [items[i]] + items[i + 1..];
    }
  }

  /** A small file: a trailing comment, an escaped '#' on a continued line,
      and a comment line. */
  function ExampleLines(): seq<string> {
    ["a #b", "\\#c\\", " d", "#x"]
  }

  lemma ExampleFirstLine()
    ensures ReadRecord(ExampleLines(), 0) == Record(Some("a"), 1)
  {
    var lines := ExampleLines();
    assert Strip("a #b") == "a #b";
    assert FirstUnescapedHash("a #b", 2) == 2;
    assert BeforeUnescapedHash("a #b") == "a ";
    assert Join("a #b", lines, 1) == Joined("a #b", 1);
    assert Kept("a #b") == "a";
    assert UnescapeHash("a") == "a";
  }

  lemma ExampleContinuedLine()
    ensures ReadRecord(ExampleLines(), 1) == Record(Some("#cd"), 3)
  {
    var lines := ExampleLines();
    assert Strip(" d") == "d";
    assert Join("\\#c\\", lines, 2) == Joined("\\#cd", 3);
    assert FirstUnescapedHash("\\#cd", 1) == 4;
    assert Strip("\\#cd") == "\\#cd";
    assert Kept("\\#cd") == "\\#cd";
    assert UnescapeHash("\\#cd") == "#cd";
  }

  /** The whole example file: the comment after "a" is cut, the continued
      line absorbs " d", and the comment line gives nothing. */
  lemma ExampleFile()
    ensures AlertItems(Some(ExampleLines())) == ["a", "#cd"]
  {
    var lines := ExampleLines();
    ExampleFirstLine();
    ExampleContinuedLine();
    CommentLineGivesNoItem(lines, 3);
    assert Items(lines, 1) == ["#cd"];
  }

  /** The continuation loop of `read_alert_items`: `line` holds the stripped
      current line and `i` indexes the next line the shared file iterator
      would yield. */
  method ContinueLine(line0: string, lines: seq<string>, i0: nat) returns (line: string, i: nat)
    requires i0 <= |lines|
    ensures Joined(line, i) == Join(line0, lines, i0)
  {
    line, i := line0, i0;
    while EndsWithBackslash(line)
      invariant i0 <= i <= |lines|
      invariant Join(line, lines, i) == Join(line0, lines, i0)
      decreases |lines| - i, |line|
    {
      ghost var prevLine, prevI := line, i;
      var nextLine := "";
      if i < |lines| {
        nextLine := Strip(lines[i]);
        i := i + 1;
      }
      line := line[..|line| - 1] + nextLine;
      if prevI < |lines| {
        JoinContinues(prevLine, lines, prevI);
      } else {
        JoinShortensAtEndOfFile(prevLine, lines);
        assert line == prevLine[..|prevLine| - 1];
      }
    }
    assert Join(line, lines, i) == Joined(line, i);
  }

  /** `read_alert_items`: the `for` loop over the file, the continuation
      loop that pulls further lines from the same iterator, and the list
      that collects the items. */
  method ReadAlertItems(file: Option<seq<string>>) returns (alertItems: seq<string>)
    ensures alertItems == AlertItems(file)
    ensures AllValidItems(alertItems)
  {
    alertItems := [];
    if file.None? {
      return;
    }
    var lines := file.value;
    var i := 0;
    while i < |lines|
      invariant i <= |lines|
      invariant alertItems + Items(lines, i) == Items(lines, 0)
      invariant AllValidItems(alertItems)
      decreases |lines| - i
    {
      ghost var start := i;
      var line := Strip(lines[i]);
      line, i := ContinueLine(line, lines, i + 1);
      line := Strip(BeforeUnescapedHash(line));
      if line == [] {
        assert Items(lines, start) == Items(lines, i);
        continue;
      }
      line := UnescapeHash(line);
      assert Items(lines, start) == [line] + Items(lines, i);
      assert (alertItems + [line]) + Items(lines, i) == alertItems + ([line] + Items(lines, i));
      AllValidItemsAppend(alertItems, [line]);
      alertItems := alertItems + [line];
    }
  }
}
