# Markdown-to-REP-0132 changelog rewriter, modelled in Dafny

catkin_pkg's `md2rst_changelog_generator` turns a package's legacy
Markdown-style `CHANGELOG.md` into the reStructuredText changelog that REP-0132
prescribes. The rewriter `generate_changelog_file` reads the legacy file line
by line. It rstrips every line, then:

- a line starting with `##` becomes a title over- and underlined with `^`
  (the "Sections" part of the reStructuredText Markup Specification);
- an empty line stays empty;
- a line whose first non-blank character is not `*` passes through;
- on a bullet line, everything from the first `[#` to the end of the line
  becomes an embedded-URI hyperlink `` (`number <url>`_) `` (the "Embedded
  URIs and Aliases" part of the same specification). The number is what lies
  between `[` and `](`, and the URL is cut two characters before the end of
  the line.

The batch step `generate_changelogs` runs the rewriter for every package that
does not have the new changelog yet.

The project has four modules:

- `PyStr` (`py_str.dfy`) holds the Python `str` operations the rewriter uses.
  - `IsSpace` is the exact set of code points for which `str.isspace()`
    holds.
  - The module provides `rstrip`, `lstrip`, `strip`, `find`, Python slicing
    with negative or out-of-range bounds, and repetition of one character.
  - Each function's contract, together with its companion lemma
    (`RStripRemovesSpace`, `LStripRemovesSpace`, `StripSlice`, `FindIsFirst`,
    `PySliceElements`), characterises its result independently of the
    recursion that computes it.
- `Md2Rst` (`md2rst.dfy`) holds the rewriter.
  - `ConvertLine` follows the source branch for branch.
  - `IsHeading`, `IsBullet`, `Contains` and `FirstOccurrence` give a
    declarative reading of each branch, with one lemma per branch.
  - `SplitLines` splits a file's text the way iterating over a binary-mode
    file does.
  - `ConvertFile`, and the lemmas about the whole output, cover the output's
    shape and its newline count.
- `Md2RstExamples` (`md2rst_examples.dfy`) holds concrete lines worked out
  from the general lemmas.
- `Batch` (`batch.dfy`) holds the skip-or-write rule over a file system
  modelled as `map<Path, string>`.

The model follows the code as written:

- Lines that are passed through come out rstripped, not verbatim.
- The issue number keeps its `#`: it is `link[1:…]`.
- The URL ends two characters before the end of the line. For a link closed
  by a single `)` this drops the URL's last character.
  For a link wrapped as `([#N](url))` the URL is exact. `ExampleLinkParts`
  and `ExampleWrappedLinkUrl` show the two cases.
- A missing `](` or `https` is not an error: the number is `link[1:-1]`, the
  URL is empty.
- A line holding only whitespace rstrips to the empty string and becomes one
  newline. So `sline[0]` is never out of range.
- The test `line == '\n'` can never hold after rstrip. It is kept as written.

## Model

| member | source | states |
|---|---|---|
| PyStr.RStrip | src/catkin_pkg/md2rst_changelog_generator.py:68 | `rstrip` keeps a prefix of the line that is empty or ends in a non-whitespace character |
| PyStr.RStripRemovesSpace | src/catkin_pkg/md2rst_changelog_generator.py:68 | what `rstrip` removes is whitespace only, so the result is the longest such prefix |
| PyStr.LStrip | src/catkin_pkg/md2rst_changelog_generator.py:70 | `lstrip` keeps a suffix that is empty or starts with a non-whitespace character |
| PyStr.LStripRemovesSpace | src/catkin_pkg/md2rst_changelog_generator.py:70 | what `lstrip` removes is whitespace only |
| PyStr.Strip | src/catkin_pkg/md2rst_changelog_generator.py:70 | `strip` gives a string that neither starts nor ends with whitespace and is no longer than its input |
| PyStr.StripSlice | src/catkin_pkg/md2rst_changelog_generator.py:79 | the stripped line is a contiguous piece of the line with only whitespace before and after it |
| PyStr.RStripOfStripped | src/catkin_pkg/md2rst_changelog_generator.py:68 | `rstrip` leaves a string that does not end in whitespace unchanged |
| PyStr.LStripOfStripped | src/catkin_pkg/md2rst_changelog_generator.py:70 | `lstrip` leaves a string that does not start with whitespace unchanged |
| PyStr.StripNonEmpty | src/catkin_pkg/md2rst_changelog_generator.py:76-80 | a non-empty rstripped line strips to a non-empty string, so indexing its first character is safe |
| PyStr.OccursAtChar | src/catkin_pkg/md2rst_changelog_generator.py:67 | a one-character pattern occurs exactly where that character is |
| PyStr.FirstOccurrenceByChar | src/catkin_pkg/md2rst_changelog_generator.py:84 | an occurrence with no earlier copy of the pattern's first character is the first occurrence |
| PyStr.AbsentByChar | src/catkin_pkg/md2rst_changelog_generator.py:84 | a pattern whose first character is absent does not occur |
| PyStr.FindFrom | src/catkin_pkg/md2rst_changelog_generator.py:84 | searching from `k` gives -1 or an index at or after `k` where the pattern occurs |
| PyStr.FindFromSkipsNothing | src/catkin_pkg/md2rst_changelog_generator.py:84 | the search from `k` passes over no occurrence before its result, and over none at all when it gives -1 |
| PyStr.Find | src/catkin_pkg/md2rst_changelog_generator.py:84 | `find` gives -1 or an index where the pattern occurs |
| PyStr.FindIsFirst | src/catkin_pkg/md2rst_changelog_generator.py:84 | `find` gives -1 exactly when the pattern does not occur, and otherwise its lowest occurrence |
| PyStr.FindAt | src/catkin_pkg/md2rst_changelog_generator.py:88-89 | `find` gives the first occurrence of the pattern |
| PyStr.FindAbsent | src/catkin_pkg/md2rst_changelog_generator.py:84 | `find` gives -1 when the pattern is absent |
| PyStr.SliceBound | src/catkin_pkg/md2rst_changelog_generator.py:91 | a normalised bound lies in [0, n]: an in-range bound is kept, a negative one counts from the end, and one beyond either end is clamped to it |
| PyStr.PySlice | src/catkin_pkg/md2rst_changelog_generator.py:88-91 | a Python slice is as long as the distance between its normalised bounds, or empty when they cross |
| PyStr.PySliceElements | src/catkin_pkg/md2rst_changelog_generator.py:88-91 | each character of a Python slice is the string's character at the normalised start plus its offset |
| PyStr.PySliceInRange | src/catkin_pkg/md2rst_changelog_generator.py:88-89 | between in-range non-negative bounds a Python slice is the ordinary sub-sequence |
| PyStr.PySliceNegativeEnd | src/catkin_pkg/md2rst_changelog_generator.py:91 | an end bound `-m` stops `m` characters before the end; a start past that gives the empty string |
| PyStr.Repeat | src/catkin_pkg/md2rst_changelog_generator.py:71 | the joined list of `^` has the requested length and holds only that character |
| Md2Rst.HeadingPiece | src/catkin_pkg/md2rst_changelog_generator.py:71-73 | a heading's output is three times the title's length plus three characters and ends with a newline |
| Md2Rst.LinkPiece | src/catkin_pkg/md2rst_changelog_generator.py:92-93 | a rewritten bullet starts with the text before the link and ends with a newline |
| Md2Rst.PlainPiece | src/catkin_pkg/md2rst_changelog_generator.py:77 | a passed-through line is the line plus one newline |
| Md2Rst.ConvertLine | src/catkin_pkg/md2rst_changelog_generator.py:67-93 | every line, whatever its content, gives a non-empty piece ending in a newline: the rewriter never faults |
| Md2Rst.ConvertOther | src/catkin_pkg/md2rst_changelog_generator.py:74-93 | on an rstripped non-heading line the rewriter always produces a newline-terminated piece, with the `sline[0]` access in range |
| Md2Rst.ConvertBullet | src/catkin_pkg/md2rst_changelog_generator.py:84-93 | a bullet line always gives a newline-terminated piece, with or without a link |
| Md2Rst.ConvertLines | src/catkin_pkg/md2rst_changelog_generator.py:65-95 | the output is empty exactly for an empty file and otherwise ends with a newline |
| Md2Rst.HeadingTest | src/catkin_pkg/md2rst_changelog_generator.py:69 | `line[:2] == "##"` holds exactly when the line's first two characters are `#` |
| Md2Rst.BulletTest | src/catkin_pkg/md2rst_changelog_generator.py:79-80 | on a non-empty rstripped line, "the stripped line starts with `*`" is exactly "the first non-whitespace character is `*`" |
| Md2Rst.HeadingIsNotBullet | src/catkin_pkg/md2rst_changelog_generator.py:69-80 | a heading line is never a bullet line |
| Md2Rst.NonBlankPieceIsLong | src/catkin_pkg/md2rst_changelog_generator.py:69-93 | a line with non-whitespace content produces at least two characters |
| Md2Rst.HeadingLine | src/catkin_pkg/md2rst_changelog_generator.py:69-73 | a heading gives a row of `^` as long as the title, the title (the rest of the line with surrounding whitespace removed), and the row again |
| Md2Rst.BlankLine | src/catkin_pkg/md2rst_changelog_generator.py:68-77 | a line gives exactly one newline if and only if it is empty or all whitespace |
| Md2Rst.PlainLine | src/catkin_pkg/md2rst_changelog_generator.py:79-83 | a non-empty non-heading line whose first non-whitespace character is not `*` gives the rstripped line and a newline |
| Md2Rst.BulletReachesRewrite | src/catkin_pkg/md2rst_changelog_generator.py:69-87 | every bullet line reaches the link test |
| Md2Rst.PlainBulletLine | src/catkin_pkg/md2rst_changelog_generator.py:84-87 | a bullet line without `[#` gives the rstripped line and a newline |
| Md2Rst.LinkedBulletLine | src/catkin_pkg/md2rst_changelog_generator.py:88-93 | a bullet with its first `[#` at `p` gives the text before `p` verbatim, then `` (`number <url>`_) `` built from the link starting at `p` |
| Md2Rst.BulletSplit | src/catkin_pkg/md2rst_changelog_generator.py:88-89 | the prefix and the link are the text before and from the first `[#` |
| Md2Rst.NumberOfLink | src/catkin_pkg/md2rst_changelog_generator.py:90 | with a first `](` at `j` the number is the text from the `#` up to `j`, and it begins with `#` |
| Md2Rst.NumberWithoutClose | src/catkin_pkg/md2rst_changelog_generator.py:90 | without `](` the number is the link minus its first and last characters, and it begins with `#` when the link is longer than two |
| Md2Rst.UrlOfLink | src/catkin_pkg/md2rst_changelog_generator.py:91 | with a first `https` at `k` the URL runs from `k` to two characters before the end and is at least three long |
| Md2Rst.UrlWithoutScheme | src/catkin_pkg/md2rst_changelog_generator.py:91 | without `https` the URL is empty |
| Md2Rst.SplitLines | src/catkin_pkg/md2rst_changelog_generator.py:66-67 | the lines of a file joined back give the file; no line is empty, newlines only end lines, and every line but the last ends with one |
| Md2Rst.FileLinesCons | src/catkin_pkg/md2rst_changelog_generator.py:67 | a newline-terminated line put before well-formed lines keeps them well-formed |
| Md2Rst.FirstNewline | src/catkin_pkg/md2rst_changelog_generator.py:67 | the first line of a file ends at its first newline, or the file has none |
| Md2Rst.Count | src/catkin_pkg/md2rst_changelog_generator.py:65-95 | a measure, not an operation of the rewriter: the number of times a character occurs, at most the text's length; the newline lemmas count the input's and output's lines with it |
| Md2Rst.HeadingCount | src/catkin_pkg/md2rst_changelog_generator.py:69 | a measure, not an operation of the rewriter: the number of lines the heading test at this line accepts, at most the number of lines; `ConvertFileNewlines` states the output's line count with it |
| Md2Rst.CountAppend | src/catkin_pkg/md2rst_changelog_generator.py:65-95 | occurrences in a concatenation add up |
| Md2Rst.CountNoNewline | src/catkin_pkg/md2rst_changelog_generator.py:65-95 | a newline-free text has no newlines counted |
| Md2Rst.CountOneLine | src/catkin_pkg/md2rst_changelog_generator.py:77 | a newline-free text plus a newline has exactly one |
| Md2Rst.NoNewlineSlice | src/catkin_pkg/md2rst_changelog_generator.py:88-91 | a slice of a newline-free text is newline-free |
| Md2Rst.NoNewlineAfterRStrip | src/catkin_pkg/md2rst_changelog_generator.py:68 | an rstripped file line holds no newline |
| Md2Rst.NoNewlineStrip | src/catkin_pkg/md2rst_changelog_generator.py:70 | stripping a newline-free text keeps it newline-free |
| Md2Rst.HeadingPieceNewlines | src/catkin_pkg/md2rst_changelog_generator.py:71-73 | a heading's output holds exactly three newlines |
| Md2Rst.LinkPieceNewlines | src/catkin_pkg/md2rst_changelog_generator.py:92-93 | a rewritten bullet holds one newline, at its end |
| Md2Rst.PlainPieceNewlines | src/catkin_pkg/md2rst_changelog_generator.py:77 | a passed-through line holds one newline, at its end |
| Md2Rst.HeadingPieceLineNewlines | src/catkin_pkg/md2rst_changelog_generator.py:69-73 | a heading file line produces exactly three newlines |
| Md2Rst.BulletPieceNewlines | src/catkin_pkg/md2rst_changelog_generator.py:84-93 | a bullet produces one newline, at its end |
| Md2Rst.PieceNewlines | src/catkin_pkg/md2rst_changelog_generator.py:67-93 | each file line gives three newlines if it is a heading and otherwise one, at the very end |
| Md2Rst.ConvertLinesAppend | src/catkin_pkg/md2rst_changelog_generator.py:65-95 | converting `a ++ b` is converting `a` followed by converting `b` |
| Md2Rst.ConvertLinesNewlines | src/catkin_pkg/md2rst_changelog_generator.py:65-95 | the output's newline count is the number of lines plus two per heading |
| Md2Rst.SplitLinesCount | src/catkin_pkg/md2rst_changelog_generator.py:66-67 | a file splits into one line per newline, plus one when it does not end with a newline |
| Md2Rst.SplitLinesStep | src/catkin_pkg/md2rst_changelog_generator.py:67 | splitting a text whose first newline is at `k` gives the text up to and including that newline, followed by the lines of the rest |
| Md2Rst.CountFirstLine | src/catkin_pkg/md2rst_changelog_generator.py:67 | a text has one newline more than what follows its first newline |
| Md2Rst.ConvertFileNewlines | src/catkin_pkg/md2rst_changelog_generator.py:64-95 | the converted file has one newline per line read plus two per heading, so it has at least as many lines as the legacy file |
| Md2RstExamples.ExampleHeading | src/catkin_pkg/md2rst_changelog_generator.py:69-73 | `## Changes` becomes `^^^^^^^`, `Changes`, `^^^^^^^` |
| Md2RstExamples.ExampleHeadingTitle | src/catkin_pkg/md2rst_changelog_generator.py:70 | the title of `## Changes` is `Changes` |
| Md2RstExamples.ExampleHeadingPiece | src/catkin_pkg/md2rst_changelog_generator.py:71-73 | the three lines for the title `Changes` |
| Md2RstExamples.ExampleBareHeading | src/catkin_pkg/md2rst_changelog_generator.py:69-73 | a bare `##` becomes three empty lines |
| Md2RstExamples.ExampleEmptyHeadingPiece | src/catkin_pkg/md2rst_changelog_generator.py:71-73 | an empty title gives three newlines |
| Md2RstExamples.ExamplePlainBullet | src/catkin_pkg/md2rst_changelog_generator.py:84-87 | `* Updated dependency` passes through |
| Md2RstExamples.ExampleLinkParts | src/catkin_pkg/md2rst_changelog_generator.py:90-91 | for `[#42](https://example.com/issues/42)` the number is `#42` and the URL loses its final `2` |
| Md2RstExamples.ExampleWrappedLinkUrl | src/catkin_pkg/md2rst_changelog_generator.py:91 | for `[#42](https://example.com/issues/42))` the URL is exact |
| Md2RstExamples.ExampleLinkedBulletShape | src/catkin_pkg/md2rst_changelog_generator.py:80-84 | `* Fixed bug [#42](…)` is a bullet whose first `[#` is at index 12 |
| Md2RstExamples.ExampleIssueLink | src/catkin_pkg/md2rst_changelog_generator.py:88-93 | `* Fixed bug [#42](https://example.com/issues/42)` becomes ``* Fixed bug (`#42 <https://example.com/issues/4>`_)`` |
| Batch.GenerateChangelogs | src/catkin_pkg/md2rst_changelog_generator.py:50-61 | only new changelog paths absent before the run are written, and at most as many as there are packages; every other path, legacy files included, is unchanged; a package whose changelog exists keeps it (`WrittenAreTargets` adds that each written path belongs to a listed package) |
| Batch.BatchCompletes | src/catkin_pkg/md2rst_changelog_generator.py:54-59 | a run completes exactly when every package has its legacy file or the new one; a failed run names the legacy file of a package that had neither |
| Batch.BatchWritesConverted | src/catkin_pkg/md2rst_changelog_generator.py:54-61 | after a completed run every package has its new changelog, and each one created holds the conversion of the legacy file |
| Batch.WrittenAreConverted | src/catkin_pkg/md2rst_changelog_generator.py:52-61 | in every run, completed or failed, each written path holds the conversion of the legacy file beside it as it was before the run |
| Batch.WrittenAreTargets | src/catkin_pkg/md2rst_changelog_generator.py:51-61 | in every run, each written path is the new changelog path of one of the listed packages |
| Batch.FailedRunStopsAtFirstGap | src/catkin_pkg/md2rst_changelog_generator.py:51-61 | a failed run stops at the first package, in order, that has neither changelog: every package before it had one of the two and now has its new changelog, the paths written are theirs, and the failing package still has neither file |
| Batch.RunStopsAt | src/catkin_pkg/md2rst_changelog_generator.py:51-59 | when every package before package `i` has its new changelog and package `i` has neither file, the run writes nothing and fails on package `i`'s legacy file |
| Batch.PrependNoDuplicates | src/catkin_pkg/md2rst_changelog_generator.py:51 | a new path before distinct paths keeps them distinct |
| Batch.WrittenOnce | src/catkin_pkg/md2rst_changelog_generator.py:51-61 | a run writes no path twice |
| Batch.AllPresentWritesNothing | src/catkin_pkg/md2rst_changelog_generator.py:54-55 | when every package already has its changelog, a run writes nothing and changes nothing |
| Batch.SecondRunWritesNothing | src/catkin_pkg/md2rst_changelog_generator.py:50-61 | running again over the result of any run writes nothing and leaves the files as they are: after a completed run it completes again, after a failed one it fails on the same legacy file |
| Batch.RestChangelogsConverted | src/catkin_pkg/md2rst_changelog_generator.py:59-61 | with the model's rewriter, in every run, completed or failed, each created changelog is `ConvertFile` of the package's legacy file as it was before the run; after a completed run every package has its new changelog |

## Left out

- `src/catkin_pkg/cli/md2rst_changelog.py` (argument parsing, the interactive prompt, printing, logging setup, exit codes) is orchestration and I/O and is not part of this model.
- File I/O and UTF-8 decoding and encoding are not modelled. The legacy file is its decoded text. `SplitLines` splits it after each newline, as iterating over the bytes does; in UTF-8 a newline byte is always the newline character, so the two splits agree. Decode errors are out of scope.
- `logger.info` is not modelled; it has no effect on the result.
- `os.path.join` and the values of `CHANGELOG_FILENAME` and `BAD_CHANGELOG_FILENAME` are not modelled: they come from a module that is not part of this model. A path is the triple (base, package path, file name), with the two names distinct. Two different triples that `os.path.join` maps to the same string are not modelled.
- `os.path.exists` is membership in the file-system map; a directory, or a file vanishing during the run, is not modelled.
- The `packages` dictionary is a sequence of (path, package) entries in the dictionary's iteration order.
- An exception from `open` on a missing legacy file is the `Failed` result. The files written before it stay written, as they do in the source; `WrittenAreConverted` states what they hold, and `FailedRunStopsAtFirstGap` which packages they belong to.
- The unused imports (`re`, `Tag`), `FORTHCOMING_LABEL` and the unused `pkg_name` parameter have no effect and are not modelled.
- Batch.GenerateChangelogs takes the converter as a parameter, so its lemmas hold for any converter; `GenerateRestChangelogs` and `RestChangelogsConverted` apply them to the model's own rewriter.
