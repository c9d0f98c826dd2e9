# stable-diffusion-prompt-toolkit, modelled in Dafny

The toolkit has two scripts. This project models both and proves what they do.

`extract_prompt.py` walks a folder tree. Each `.jpg`, `.jpeg` or `.png` image
there may lack a `.txt` sidecar (a text file with the image's stem, in the same
directory). For such an image the script reads the generation text:

- the EXIF `UserComment` of a JPEG: its 8-byte character-code header is
  dropped, the rest is decoded as UTF-16BE ignoring errors, and the result is
  stripped;
- the `parameters` text chunk of a PNG.

The script writes that text to the sidecar when it is non-empty and contains
`"Seed"`.

`analyse_tags.py` walks the current tree and reads every `.txt` file. It takes
the prompt segment: the text before the first `Negative prompt`, or, when that
marker is missing, the first line. When the marker occurs, the segment may span
several lines; a line break after a comma is dropped and any other line break
becomes a comma. Without the marker only the first line is read, so a line
ending in a comma is not continued on the next. The script then splits the
segment into matches of `[^,()]+|\([^()]*\)`, so a parenthesised group stays one tag. It
strips and lower-cases each match and keeps the non-empty ones. At the end it
counts all tags and writes `"<tag> - <count>"` lines to `_result.txt`. The
lines are ordered by count, highest first, and equal counts alphabetically.

The model is organised like this:

- **Python built-ins.** `strings.dfy` models the `str` methods both scripts use,
  `utf16.dfy` the UTF-16BE codec and `posix_path.dfy` `os.path.join` and
  `os.path.splitext`. `seqs.dfy` and `wrappers.dfy` are small sequence and `Option`
  helpers.
- **The walk.** A walk is modelled as the sequence of files that `os.walk`
  yields, in that order.
- **The analyser's state.** `CollectTags`, `AppendKept`, `WriteReport` and
  `AnalyseTextFiles` are the analyser's loops. Each is proved equal to a
  specification function (`AllTags`, `KeptTags`, `Report`). The properties are
  proved about those functions.
- **The extractor's state.** The extractor's state is the set of paths that
  exist, plus a log of one `Outcome` per walked file. The log stands for what
  the script prints: skipped, already there, no metadata, no `Seed`, or
  saved. `Walk` is generic in the per-file decision. `Run` instantiates it with
  `ProcessFile`, the real decision. `ProcessImagesInFolder` is the script's loop,
  proved equal to `Run`.

## Model

| member | source | states |
|---|---|---|
| Strings.Strip | analyse_tags.py:27 | `str.strip()`: the result has no whitespace (Python's `isspace` set) at either end |
| Strings.StripCuts | extract_prompt.py:15 | the stripped text is a slice of the input with only whitespace before and after it |
| Strings.StripEmpty | analyse_tags.py:39-40 | a text strips to the empty text exactly when it is all whitespace |
| Strings.StripStripped | analyse_tags.py:39 | stripping a text without outer whitespace leaves it unchanged |
| Strings.StripPadded | extract_prompt.py:15 | stripping removes exactly the whitespace padding around a stripped non-empty text |
| Strings.Lower | analyse_tags.py:39 | `str.lower()` keeps the length and leaves no upper-case letter |
| Strings.LowerChars | analyse_tags.py:39 | each upper-case ASCII letter becomes its lower-case letter and every other character stays |
| Strings.LowerOfLowerCase | extract_prompt.py:56 | lower-casing lower-case text changes nothing |
| Strings.LowerCaseLacksCapitalised | extract_prompt.py:41 | a pattern that starts with a capital letter never occurs in lower-case text |
| Strings.FindFrom | analyse_tags.py:24 | the search from a position returns the first occurrence at or after it, or -1 when there is none |
| Strings.Find | analyse_tags.py:24 | `str.find` is -1 exactly when the pattern does not occur; otherwise it is the first occurrence |
| Strings.RFind | extract_prompt.py:58 | the last index of a character, or -1; no later index holds it |
| Strings.LexLessIrreflexive | analyse_tags.py:50 | no string sorts before itself |
| Strings.LexLessTransitive | analyse_tags.py:50 | string order is transitive |
| Strings.LexLessTotal | analyse_tags.py:50 | two different strings are always ordered one way or the other |
| Strings.LexLessAsymmetric | analyse_tags.py:50 | string order is asymmetric |
| Strings.NatToDecimal | analyse_tags.py:54 | `str(count)` is a non-empty string of digits without a leading zero |
| Strings.DecimalRoundTrip | analyse_tags.py:54 | the digits `str(count)` writes read back as the count |
| Utf16.DecodeEncode | extract_prompt.py:15 | decoding UTF-16BE bytes produced by the encoder gives the text back |
| Utf16.DecodeEncodeUnits | extract_prompt.py:15 | decoding the code units of any text gives the text back |
| Utf16.DecodeEncodeChar | extract_prompt.py:15 | one encoded character decodes to itself, whatever follows it |
| Utf16.UnitsOfUnitBytes | extract_prompt.py:15 | splitting bytes into big-endian units inverts writing the units out |
| Utf16.OddByteIgnored | extract_prompt.py:15 | with `errors='ignore'`, a trailing odd byte is dropped |
| Utf16.DecodeConcat | extract_prompt.py:15 | decoding splits at any point that does not follow a high surrogate |
| Utf16.UnpairedSurrogateDropped | extract_prompt.py:15 | with `errors='ignore'`, a lone low surrogate or an unpaired high surrogate contributes nothing |
| Utf16.DecodeUnits | extract_prompt.py:15 | the decoder never yields more characters than there are units |
| PosixPath.Join | extract_prompt.py:59 | `os.path.join` ends with its second part, keeps the first part before a relative second part, and puts one `/` between them |
| PosixPath.Splitext | extract_prompt.py:58 | `os.path.splitext` splits the path into stem and extension; the extension is non-empty exactly when the last component has a `.` after a non-dot character; it starts with that `.` and holds no other `.` or `/` |
| PosixPath.SplitextOfSuffix | extract_prompt.py:58 | a stem whose last component has a non-dot character, followed by an extension, splits back into exactly those two |
| AnalyseTags.LineEnd | analyse_tags.py:30 | the first line ends at the first line break, or at the end of the text |
| AnalyseTags.Segment | analyse_tags.py:24-30 | the analysed segment is stripped |
| AnalyseTags.SegmentBeforeMarker | analyse_tags.py:24-27 | when the marker occurs, the segment is the stripped text before its first occurrence |
| AnalyseTags.SegmentIgnoresLaterLines | analyse_tags.py:29-30 | without the marker, only the first line is analysed; nothing after the first line break matters |
| AnalyseTags.SegmentOfOneLine | analyse_tags.py:24-30 | a one-line text without the marker is analysed whole, stripped |
| AnalyseTags.SegmentOfMarkedLine | analyse_tags.py:24-27 | a stripped first line followed by a line that starts with the marker is the segment |
| AnalyseTags.LowerCaseHasNoMarker | analyse_tags.py:24 | lower-case text never contains `Negative prompt` |
| AnalyseTags.MarkerHeadUnique | analyse_tags.py:24 | the marker's first letter occurs nowhere else in it |
| AnalyseTags.StripChars | analyse_tags.py:27 | stripping adds no character |
| AnalyseTags.NormaliseIsJoinLines | analyse_tags.py:33 | the two `replace` calls equal a reference reading: a line break after a comma disappears and every other line break becomes a comma |
| AnalyseTags.NormaliseJoins | analyse_tags.py:33 | the two replacements, from any position, equal the reference reading that tracks whether the previous character was a comma |
| AnalyseTags.JoinLinesConcat | analyse_tags.py:33 | the reference reading of a concatenation is the readings of its parts, with the second part told whether the first ended in a comma |
| AnalyseTags.NormaliseNoNewline | analyse_tags.py:33 | after merging, no line break is left; a segment without one is unchanged |
| AnalyseTags.CommaNewlineMerged | analyse_tags.py:33 | a comma followed by a line break becomes exactly one comma |
| AnalyseTags.NewlineBecomesComma | analyse_tags.py:33 | a line break after anything but a comma becomes one comma |
| AnalyseTags.WrappedNormalised | analyse_tags.py:33 | `a,` wrapped onto `b` becomes `a,b` |
| AnalyseTags.RunEnd | analyse_tags.py:36 | the greedy `[^,()]+` stops at the first separator or at the end |
| AnalyseTags.ParenFree | analyse_tags.py:36 | the greedy `[^()]*` stops at the first parenthesis or at the end |
| AnalyseTags.Scan | analyse_tags.py:36 | every match `re.findall` reports lies within the text, after the start position, and is non-empty |
| AnalyseTags.ScanStep | analyse_tags.py:36 | each scanner step moves forward to a position where scanning may resume |
| AnalyseTags.ScanUnfold | analyse_tags.py:36 | one scanner step: a match is a run or a group, a run ends at a separator, and a non-match skips one separator |
| AnalyseTags.RunStep | analyse_tags.py:36 | at a non-separator, the next match is the maximal run |
| AnalyseTags.GroupStep | analyse_tags.py:36 | at `(` closed by `)` with no parenthesis between, the next match is the group |
| AnalyseTags.Tokens | analyse_tags.py:36 | every match is a run or a flat group, and each of its characters comes from the segment |
| AnalyseTags.ScanTokens | analyse_tags.py:36 | every match the scanner reports is a run without separators or a `(`…`)` group without inner parentheses |
| AnalyseTags.ScanOrdered | analyse_tags.py:36 | matches do not overlap and come left to right |
| AnalyseTags.ScanCovers | analyse_tags.py:36 | every character that is not a comma or a parenthesis lies inside some match |
| AnalyseTags.ScanRunsMaximal | analyse_tags.py:36 | every run match is maximal: a separator or the end of the text lies on each side |
| AnalyseTags.GroupMatchedWhole | analyse_tags.py:36 | once scanning reaches the `(` of a group without inner parentheses, the group is matched whole, commas included |
| AnalyseTags.GroupMatchedFrom | analyse_tags.py:36 | scanning from any resumption point before such a group reaches its `(` and reports the whole group as one match |
| AnalyseTags.GroupAlwaysMatched | analyse_tags.py:36 | every parenthesised group without inner parentheses in the segment is one of the matches, commas included |
| AnalyseTags.RunMatched | analyse_tags.py:36 | a run up to a separator or the end is the next match |
| AnalyseTags.CommaSplit | analyse_tags.py:36 | two separator-free pieces around one comma are the two matches |
| AnalyseTags.TwoRuns | analyse_tags.py:36 | `a, b` is matched as `a` and `" b"` |
| AnalyseTags.MergedRuns | analyse_tags.py:36 | `a,b` is matched as `a` and `b` |
| AnalyseTags.GroupRuns | analyse_tags.py:36 | `a, (g), b` is matched as `a`, `" "`, `(g)` and `" b"` |
| AnalyseTags.GroupLineScan | analyse_tags.py:36 | the scan of a `run, (group), run` line gives exactly its four matches |
| AnalyseTags.NormaliseTagSpec | analyse_tags.py:39-40 | a normalised tag is stripped and lower-case, and it is empty exactly when the match was all whitespace |
| AnalyseTags.NormalisedTag | analyse_tags.py:39 | a stripped lower-case tag normalises to itself, also with a leading space |
| AnalyseTags.GroupNormalised | analyse_tags.py:39 | a group of lower-case text normalises to itself |
| AnalyseTags.StripKeepsToken | analyse_tags.py:39 | stripping a match that is not all whitespace leaves a match |
| AnalyseTags.LowerKeepsToken | analyse_tags.py:39 | lower-casing a match leaves a match |
| AnalyseTags.NormaliseTagIsTag | analyse_tags.py:39-40 | a match that is not all whitespace normalises to a non-empty, stripped, lower-case, one-line run or group |
| AnalyseTags.KeptTagsMembers | analyse_tags.py:38-41 | a tag is kept exactly when it is non-empty and is the stripped, lower-cased form of some match |
| AnalyseTags.KeptConcat | analyse_tags.py:38-41 | the tags of consecutive matches are appended in order |
| AnalyseTags.KeptTagsAreTags | analyse_tags.py:38-41 | everything appended is a non-empty, stripped, lower-case run or group |
| AnalyseTags.FileTagsAreTags | analyse_tags.py:22-41 | every tag one file contributes is a non-empty, stripped, lower-case, one-line run or group |
| AnalyseTags.TagsBeforeMarker | analyse_tags.py:24-41 | `a, b` on the line before `Negative prompt` gives exactly the tags `a` and `b` |
| AnalyseTags.GroupTagsKept | analyse_tags.py:38-41 | the matches of `a, (g), b` give the tags `a`, `(g)` and `b`; the lone space is dropped |
| AnalyseTags.KeptAroundBlank | analyse_tags.py:38-41 | a match that normalises to nothing between kept matches is dropped |
| AnalyseTags.GroupNotSplit | analyse_tags.py:24-41 | a parenthesised group is one tag even when it holds a comma: `a, (g), b` gives `a`, `(g)`, `b` |
| AnalyseTags.GroupExample | analyse_tags.py:24-41 | `masterpiece, (best quality:1.3), outdoor` gives `masterpiece`, `(best quality:1.3)` and `outdoor` |
| AnalyseTags.MarkerExample | analyse_tags.py:24-41 | `tag1, tag2` before `Negative prompt: blurry` gives `tag1` and `tag2` |
| AnalyseTags.WrappedLineMerged | analyse_tags.py:24-41 | a line ending in a comma continues on the next: `a,` and `b` give the tags `a` and `b` |
| AnalyseTags.ContinuationExample | analyse_tags.py:24-41 | with a marker line after them, `tag1,` wrapped onto `tag2` gives `tag1` and `tag2` |
| AnalyseTags.FirstLineOnly | analyse_tags.py:24-41 | without the marker, a first line `a,` is not continued: the text gives only the tag `a` |
| AnalyseTags.UnmarkedContinuationExample | analyse_tags.py:24-41 | without the marker, `tag1,` wrapped onto `tag2` gives only `tag1` |
| AnalyseTags.AllTagsAreTags | analyse_tags.py:15-41 | every tag collected over the walk is a non-empty, stripped, lower-case, one-line run or group |
| AnalyseTags.AllTagsMembers | analyse_tags.py:17-41 | a tag is collected exactly when it is a tag of some walked `.txt` file that could be read |
| AnalyseTags.CollectTags | analyse_tags.py:15-44 | the walk's nested loops collect exactly `AllTags` of the walked files, each one a tag |
| AnalyseTags.AppendKept | analyse_tags.py:38-41 | the inner loop appends exactly the kept tags of the file's matches |
| AnalyseTags.CountTags | analyse_tags.py:46 | `Counter` has one entry per distinct tag with a positive count; the count of each tag is its number of occurrences, and the counts add up to the number of tags |
| AnalyseTags.BumpCounts | analyse_tags.py:46 | counting one more occurrence raises that tag's count by one and nothing else |
| AnalyseTags.BumpTagSet | analyse_tags.py:46 | counting a tag adds it to the set of counted tags |
| AnalyseTags.BumpDistinct | analyse_tags.py:46 | counting keeps the entries distinct with positive counts |
| AnalyseTags.CountOfEntry | analyse_tags.py:46 | with distinct tags, an entry's count is the count of its tag |
| AnalyseTags.KeyLeTotal | analyse_tags.py:50 | the sort key `(-count, tag)` ranks any two entries one way or the other |
| AnalyseTags.KeyLeTransitive | analyse_tags.py:50 | the sort key order is transitive |
| AnalyseTags.KeyLeAntisymmetric | analyse_tags.py:50 | entries that rank both ways are equal |
| AnalyseTags.Insert | analyse_tags.py:50 | insertion adds its item to the entries, as a multiset |
| AnalyseTags.InsertSorted | analyse_tags.py:50 | inserting into an ordered list keeps it ordered |
| AnalyseTags.SortItems | analyse_tags.py:50 | `sorted` is a permutation of the counter's entries |
| AnalyseTags.SortItemsSorted | analyse_tags.py:50 | `sorted` orders the entries by count descending, then tag ascending |
| AnalyseTags.SortedUnique | analyse_tags.py:50 | there is only one ordered arrangement of the entries, so the report does not depend on the counter's order or on sort stability |
| AnalyseTags.SortedHead | analyse_tags.py:50 | the head of an ordered list ranks no lower than any element, and its tail is ordered |
| AnalyseTags.SortItemsTagSet | analyse_tags.py:50 | sorting keeps the set of tags |
| AnalyseTags.SortItemsDistinct | analyse_tags.py:50 | sorting keeps distinct tags distinct |
| AnalyseTags.InsertTagSet | analyse_tags.py:50 | inserting adds the item's tag to the tags |
| AnalyseTags.InsertDistinct | analyse_tags.py:50 | inserting an item with a new tag keeps the tags distinct |
| AnalyseTags.StrictOrder | analyse_tags.py:50 | between different tags the order is strict: higher count first, and equal counts in alphabetical order |
| AnalyseTags.SortExample | analyse_tags.py:50 | `{a: 3, b: 5, c: 3}` sorts to `b`, `a`, `c` |
| AnalyseTags.TotalPermutation | analyse_tags.py:50 | reordering entries keeps the sum of counts |
| AnalyseTags.LineOfTag | analyse_tags.py:54 | the line of a trimmed tag is its text plus one line break, with no line break inside |
| AnalyseTags.ReportSnoc | analyse_tags.py:53-54 | each entry appends its line to the report |
| AnalyseTags.WriteReport | analyse_tags.py:52-54 | the output loop writes exactly one line per entry, in order |
| AnalyseTags.LinesCons | analyse_tags.py:54 | a line ended by a line break is read back as that line |
| AnalyseTags.ReportLines | analyse_tags.py:52-54 | read back line by line, the report holds exactly one `<tag> - <count>` line per entry, in order |
| AnalyseTags.AnalyseTextFiles | analyse_tags.py:5-56 | the whole analyser writes the report of the sorted count of the tags collected over the walk |
| AnalyseTags.ReportSummary | analyse_tags.py:46-54 | the report has one `<tag> - <count>` line per distinct tag found; each count is the number of occurrences of its tag; the counts add up to the number of tags; the lines are in strict count-descending, then alphabetical, order |
| ExtractPrompt.ExtractorFor | extract_prompt.py:56-70 | `.jpg`/`.jpeg` names go to the JPEG extractor and `.png` names to the PNG one, and exactly the names the filter accepts go to one of them |
| ExtractPrompt.SuffixesExclusive | extract_prompt.py:67-69 | no name ends both with `.png` and with `.jpg` or `.jpeg` |
| ExtractPrompt.ImageNameIgnoresCase | extract_prompt.py:56 | upper and lower case do not matter to the filter |
| ExtractPrompt.ImageNameExamples | extract_prompt.py:56 | `IMG.JPG` is accepted and goes to the JPEG extractor; `notes.txt` is not accepted |
| ExtractPrompt.NotImageEndingT | extract_prompt.py:56 | a name ending in `t` is never taken for an image |
| ExtractPrompt.SidecarPath | extract_prompt.py:58-59 | the sidecar path ends in `.txt`, and for a relative name in a directory without a trailing `/` it is `root/stem.txt` |
| ExtractPrompt.SidecarNotImage | extract_prompt.py:56-59 | a sidecar is never taken for an image by a later walk |
| ExtractPrompt.SidecarReplacesExtension | extract_prompt.py:58-59 | the sidecar of `stem` plus an extension is `stem.txt` in the same directory |
| ExtractPrompt.SharedSidecar | extract_prompt.py:58-59 | a JPEG and a PNG with the same stem in one directory share their sidecar |
| ExtractPrompt.UserCommentText | extract_prompt.py:14-16 | the comment text is stripped; a byte value no longer than the 8-byte header gives the empty text; a non-byte value gives its stripped text |
| ExtractPrompt.CommentRoundTrip | extract_prompt.py:15 | whatever the header holds, an encoded stripped text comes back |
| ExtractPrompt.CommentTrimmed | extract_prompt.py:15 | whitespace around the encoded text is stripped off |
| ExtractPrompt.CommentOddByte | extract_prompt.py:15 | a trailing odd byte changes nothing |
| ExtractPrompt.CommentUnpairedSurrogate | extract_prompt.py:15 | an unpaired surrogate in the comment is dropped |
| ExtractPrompt.CommentExample | extract_prompt.py:15 | eight zero bytes and `Seed: 42` in UTF-16BE give `Seed: 42` |
| ExtractPrompt.FirstUserComment | extract_prompt.py:11-13 | the first UserComment entry is found, or none exists |
| ExtractPrompt.JpegMetadata | extract_prompt.py:8-22 | the JPEG text exists exactly when there is an EXIF table with a UserComment entry, and it is the text of the first one |
| ExtractPrompt.OnlyFirstComment | extract_prompt.py:11-16 | a UserComment after an earlier one is never looked at |
| ExtractPrompt.FoundAt | extract_prompt.py:11-16 | the UserComment at the first matching index gives the text |
| ExtractPrompt.ExtractJpegMetadata | extract_prompt.py:5-25 | the loop over the EXIF entries returns exactly `JpegMetadata` |
| ExtractPrompt.PngMetadata | extract_prompt.py:27-37 | the PNG text is missing exactly when `parameters` is absent or empty; otherwise it is the stripped value |
| ExtractPrompt.BlankParameters | extract_prompt.py:32-33 | whitespace-only `parameters` give the empty text |
| ExtractPrompt.SaveMetadata | extract_prompt.py:39-49 | the text is written, unchanged, to the given path exactly when it is non-empty and contains `Seed`; non-empty text without `Seed` is reported and not written |
| ExtractPrompt.LowerCaseNeverSaved | extract_prompt.py:41 | the `Seed` gate is case-sensitive: lower-case text is never written |
| ExtractPrompt.SaveExamples | extract_prompt.py:41-49 | `Steps: 20, Seed: 42` is written; `masterpiece, 1girl` is refused for lack of a seed |
| ExtractPrompt.Metadata | extract_prompt.py:66-70 | a file that cannot be opened, or whose name the filter rejects, gives no metadata; JPEG names give the JPEG text and PNG names the PNG text |
| ExtractPrompt.ExtractSpec | extract_prompt.py:66-75 | extraction saves exactly the non-empty metadata that contains `Seed`, to the sidecar; otherwise it reports no seed, or no metadata |
| ExtractPrompt.ProcessFileSpec | extract_prompt.py:56-75 | rejected names are ignored; an existing sidecar stops the file before extraction; a save writes non-empty metadata containing `Seed` to a sidecar that did not exist |
| ExtractPrompt.ProcessFileLocal | extract_prompt.py:61 | a file's outcome depends on the existing paths only through its own sidecar |
| ExtractPrompt.Walk | extract_prompt.py:54-55 | a walk records one outcome per file |
| ExtractPrompt.WalkCreates | extract_prompt.py:43-44 | after a walk, exactly the saved sidecars exist in addition to the paths that existed before |
| ExtractPrompt.WalkPrefix | extract_prompt.py:54-75 | each file's outcome is decided on the paths that existed when the walk reached it, and those paths only grow |
| ExtractPrompt.WalkGrows | extract_prompt.py:54-75 | the set of existing paths only grows as the walk goes on |
| ExtractPrompt.WalkQuiet | extract_prompt.py:54-75 | a walk from paths on which no file would be saved saves nothing and changes nothing |
| ExtractPrompt.RunIgnoresNonImages | extract_prompt.py:56 | over a whole run, names the filter rejects are ignored |
| ExtractPrompt.RunSavesAreNew | extract_prompt.py:61-73 | over a whole run, every save writes text containing `Seed` to the file's own sidecar, which did not exist before the run |
| ExtractPrompt.RunNeverOverwrites | extract_prompt.py:61-63 | no two files of a run write the same sidecar |
| ExtractPrompt.SettledGrows | extract_prompt.py:61-63 | once no file would be saved, adding paths keeps it so |
| ExtractPrompt.RunSettles | extract_prompt.py:54-75 | after a run, no file of that walk would be saved again |
| ExtractPrompt.SecondRunWritesNothing | extract_prompt.py:51-75 | a second run writes nothing and creates no path when every image its walk lists was walked by the first run; the second walk may list files in any order and may add the new sidecars and other non-image files |
| ExtractPrompt.ProcessImagesInFolder | extract_prompt.py:51-75 | the loop with its `continue`s produces the outcomes and the final set of paths of `Run` |

## Left out

- **Walks and files.** `os.walk` and file reading are not modelled: a walk is
  the given sequence of files, in walk order, and a text file's content is
  given, or `None` when reading it raised.
- **Existence checks.** `os.path.exists` is modelled as membership in the set
  of existing paths, updated by each save. Writes are assumed to succeed; the
  `except` around the write in `save_metadata_to_file` is left out.
- **The EXIF table.** `_getexif()` returns a dict, so its tags are distinct. The
  model takes its entries as a list in iteration order and returns the first
  UserComment. With distinct tags that is the only one; `OnlyFirstComment`
  shows what the loop would do with a second one.
- **PIL.** The image library is left out. An opened image is given as its EXIF
  entries and its `parameters` value, or as `None` when opening or reading it
  raised. The `TAGS` table is reduced to the one tag the extractor looks for,
  0x9286 (`UserComment`).
- **Non-byte EXIF values.** `str()` of a UserComment that is not bytes is
  given as a text. PNG `parameters` is taken to be a `str`.
- **The character-code header.** The UserComment header is skipped, as the
  code skips it; the encoding it declares is not consulted.
- **Printed messages.** `print` output is left out. In the extractor the
  outcome log stands for it, and the "skipping tag" branch (lines 18-21)
  changes nothing else.
- **Unicode case mapping.** `str.lower()` is modelled on ASCII letters only;
  other characters are left unchanged.
- **Universal newlines.** Text is read as given, so `\r\n` is not translated.
- **Analysing the report.** `_result.txt` is a `.txt` file in the tree, so a
  second analysis would read the previous report. It appears in the model
  only as one more walked file.
- **Decode errors.** The code passes `errors='ignore'`, so malformed units are
  dropped, not replaced by U+FFFD.
