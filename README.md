# Catalogue alerter: the watch-list reader

The catalogue alerter reads a watch-list file. Each entry in the file is a
substring to alert on when it turns up in a retailer's weekly catalogue. The
file is read by `read_alert_items`. This project models that reader in Dafny
and proves what it promises about the entries it returns.

The reader goes through the file line by line. For each line it:

1. strips leading and trailing whitespace;
2. handles continuation: while the line ends with a backslash, it drops that
   backslash and appends the next line, stripped. At end of file the next
   line is the empty string;
3. cuts the line at its first `#` that does not directly follow a backslash,
   then strips the part before that `#`;
4. skips the line if nothing is left;
5. otherwise rewrites every `\#` as `#`, scanning left to right, and
   appends the result to the list.

A missing file gives an empty list.

The file is modelled as `Option<seq<string>>`. `None` stands for a file that
does not exist. `Some(lines)` holds the raw lines, and each line may still
end in its line terminator, which stripping removes.

There are two modules:

- `AlertText` (`alert_text.dfy`) holds the pure string helpers that the
  reader uses:
  - `Strip` models `str.strip()`.
  - `BeforeUnescapedHash` models `re.split(r'(?<!\\)#', line, 1)[0]`. It is
    a hand-written scan (`FirstUnescapedHash`), not a regex engine.
  - `UnescapeHash` models `line.replace('\\#', '#')`. `EscapeHash` writes
    every `#` as `\#`. Unescaping an escaped text always gives it back. In
    the other order, escaping an unescaped text gives it back whenever the
    text has no `#` that does not follow a backslash. Every text the reader
    unescapes is of that kind, so there the two are inverses.
- `CatalogueAlerter` (`catalogue_alerter.dfy`) holds the reader itself:
  - `Join` is a specification function for the continuation loop.
  - `ReadRecord` is one pass of the `for` loop.
  - `Items` and `AlertItems` give the whole result.
  - Two imperative methods follow the source's loops:
    - `ContinueLine` is the `while` loop. It pulls further lines from the
      shared iterator, modelled as an index into the sequence.
    - `ReadAlertItems` is the `for` loop. It keeps the item list as a local
      sequence and calls `ContinueLine`.

  Each method is proved equal to its specification function. The properties
  are then proved as lemmas about those functions.

`Join` terminates because it decreases `(|lines| - i, |line|)`
lexicographically. While lines remain, each pass reads one of them. At end of
file the appended line is empty, so each pass only removes the final
backslash and the line gets one character shorter.

## Model

| member | source | states |
|---|---|---|
| `CatalogueAlerter.ReadAlertItems` | catalogue_alerter.py:4-37 | The nested loops produce exactly `AlertItems(file)`: the list is empty when the file is missing, and every item is non-empty with no whitespace at either end |
| `CatalogueAlerter.ContinueLine` | catalogue_alerter.py:16-18 | The continuation loop over the shared line index ends in exactly the state given by `Join` |
| `CatalogueAlerter.AlertItems` | catalogue_alerter.py:8-37 | A missing file yields `[]`; otherwise there are never more items than lines, and every item is non-empty and trimmed |
| `CatalogueAlerter.Items` | catalogue_alerter.py:11-32 | The items of `lines[i..]` number at most `|lines| - i`, and each is non-empty with no whitespace at either end |
| `CatalogueAlerter.ReadRecord` | catalogue_alerter.py:11-32 | One logical line consumes at least its own line and never reads past the end; any item it yields is non-empty and trimmed |
| `CatalogueAlerter.Join` | catalogue_alerter.py:16-18 | Each pass appends `NextLine`, which models `next(file, '').strip()`: the next unread line, stripped, or the empty string at end of file. After the loop the line no longer ends with a backslash; the loop reads no line when the line did not end with a backslash, and reads at least one line when it did and lines remain; it terminates, including at end of file |
| `CatalogueAlerter.JoinAtEndOfFile` | catalogue_alerter.py:16-18 | At end of file the loop reads nothing and removes exactly the trailing backslashes, one per pass |
| `CatalogueAlerter.ContinuedLineConsumesNext` | catalogue_alerter.py:13-18 | A line that ends in a backslash after stripping, with a line after it, consumes at least that following line too |
| `CatalogueAlerter.JoinKeepsLeadingHash` | catalogue_alerter.py:16-18 | A line that starts with `#` still starts with `#` after any number of continuations |
| `CatalogueAlerter.Kept` | catalogue_alerter.py:21-22 | The text kept before unescaping, taken as a string on its own, contains no `#` that is not directly after a backslash, and it has no whitespace at either end |
| `CatalogueAlerter.BlankLineGivesNoItem` | catalogue_alerter.py:13-26 | A line of only whitespace yields no item and consumes only itself |
| `CatalogueAlerter.CommentLineGivesNoItem` | catalogue_alerter.py:16-26 | A line whose stripped text starts with `#` yields no item, even when it continues onto later lines |
| `CatalogueAlerter.StartsChain` | catalogue_alerter.py:11-18 | Logical lines start at strictly increasing indices; each starts where the previous one stopped reading, and the last one reads to the end of the file |
| `CatalogueAlerter.SwallowedLineIsNotAStart` | catalogue_alerter.py:11-18 | No line that a logical line swallows through continuation, from the one after its start up to the line where its reading stopped, ever starts a logical line, so none yields an item of its own |
| `CatalogueAlerter.ContinuedLineIsNotAStart` | catalogue_alerter.py:16-18 | In particular, the line directly after a continued line is never a start |
| `CatalogueAlerter.ItemsInSourceOrder` | catalogue_alerter.py:11-32 | The output is the items of the logical lines, taken in source order |
| `CatalogueAlerter.ReadEscapedLine` | catalogue_alerter.py:13-32 | A line holding an escaped, trimmed, non-empty item that does not end with a backslash is read back as exactly that item, and it consumes only itself |
| `CatalogueAlerter.ReadWrittenItems` | catalogue_alerter.py:11-34 | For items that are each non-empty, have no whitespace at either end and do not end in a backslash, reading back `WriteItems(items)` (one line per item, every `#` written as `\#`) returns the same items in the same order |
| `CatalogueAlerter.ExampleFirstLine` | catalogue_alerter.py:21-32 | `"a #b"` yields `"a"`: the comment and the whitespace before it are removed |
| `CatalogueAlerter.ExampleContinuedLine` | catalogue_alerter.py:16-29 | `"\#c\"` followed by `" d"` yields `"#cd"` and consumes both lines |
| `CatalogueAlerter.ExampleFile` | catalogue_alerter.py:11-34 | The four-line example file yields exactly `["a", "#cd"]` |
| `AlertText.Strip` | catalogue_alerter.py:13 | The stripped text has no whitespace at either end and is never longer than the input |
| `AlertText.StripRemovesOnlySpaces` | catalogue_alerter.py:13 | The stripped text is the input with its leading whitespace and a trailing run of whitespace removed, and nothing else |
| `AlertText.StripEmptyIffBlank` | catalogue_alerter.py:13 | Stripping leaves the empty string exactly when the line is all whitespace |
| `AlertText.StripIdempotent` | catalogue_alerter.py:13 | Stripping is idempotent: stripping a stripped string again changes nothing |
| `AlertText.FirstUnescapedHash` | catalogue_alerter.py:21 | Gives the first index at or after the start whose `#` does not follow a backslash, or the length of the string when there is none |
| `AlertText.BeforeUnescapedHash` | catalogue_alerter.py:21-22 | Gives the longest prefix with no unescaped `#`: the text before the first `#` not preceded by `\`, or the whole line when there is no such `#` |
| `AlertText.BeforeUnescapedHashOfCommentFree` | catalogue_alerter.py:21-22 | A line with no unescaped `#` is kept whole |
| `AlertText.BeforeUnescapedHashOfComment` | catalogue_alerter.py:21-22 | A line that starts with `#` keeps nothing |
| `AlertText.StripKeepsNoUnescapedHash` | catalogue_alerter.py:21-22 | Stripping the kept text never exposes an unescaped `#` |
| `AlertText.UnescapeHash` | catalogue_alerter.py:29 | The result is never longer than the input and is empty only when the input is; it keeps the input's last character, and starts with the first character or the `#` of a leading `\#`; it introduces no new characters |
| `AlertText.UnescapeHashKeepsTrimmed` | catalogue_alerter.py:22-29 | Unescaping never adds whitespace at either end of a stripped item |
| `AlertText.EscapeHash` | catalogue_alerter.py:29 | Escaping never shortens the text, never starts with `#`, and keeps the first character (or gives `\` in place of a leading `#`) and the last character |
| `AlertText.UnescapeEscapeHash` | catalogue_alerter.py:29 | Unescaping an escaped text gives back the original text, backslashes included |
| `AlertText.EscapeUnescapeHash` | catalogue_alerter.py:21-29 | On a text with no `#` that does not follow a backslash, which every kept text is, escaping after unescaping gives back the text, so there `EscapeHash` is the inverse of `UnescapeHash` |
| `AlertText.EscapeHashHasNoUnescapedHash` | catalogue_alerter.py:21-29 | Escaped text contains no `#` that the comment split would cut at |

## Left out

- `main` and its command-line options (catalogue_alerter.py:39-52) are not modelled. They only parse arguments and print the list.
- `open`, the file iterator and `print` are I/O (catalogue_alerter.py:10, 36). The file comes in as `Option<seq<string>>`. `None` stands for `FileNotFoundError`, which returns `[]` (catalogue_alerter.py:35-37).
- Other errors raised while opening or reading the file are not modelled. Examples are permission and decoding errors. Python does not catch them, so they propagate.
- `AlertText.Strip` removes a fixed ASCII whitespace set: space, tab, line feed, vertical tab, form feed, carriage return and U+001C to U+001F. It does not remove the other Unicode whitespace that Python's `str.strip()` also removes.
- `AlertText.BeforeUnescapedHash` models only the one pattern `(?<!\\)#` with at most one split, as a direct scan. Regular expressions in general are not modelled.
- The wider system is also described as scraping retailers' catalogues in a headless browser, matching titles against the watch-list, writing logs and sending email. None of that is in the source file, so none of it is modelled.
