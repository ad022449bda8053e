# save-license, modelled in Dafny

save-license collects the licence comments of a set of JavaScript files into
one text file. For every file it reads the text and normalises line breaks.
It lets a parser list the file's comments, each a line comment (`//`) or a
block comment (`/* */`) with its start line and column. It groups the
comments into blocks and keeps the blocks in which some comment matches one
of the licence patterns. The grouping rules are:

- every block comment is a block of its own;
- a line comment joins the open run of line comments exactly when it starts
  on the line after that run's last one;
- a run still open at the end is flushed.

A kept block's text is its comments' texts joined by a line feed. The texts
go into an insertion-ordered set. A text not yet in the set is added, and the
block is reported as `add`. A text already there is reported as `merge`. Each
report gives:

- the file;
- the block's start line, and its column counted from 1;
- a preview of the first ten characters of the text, with `...` when the text
  was cut.

The set's texts, separated by a blank line, are written to the output file.

The model has these modules:

- `Comments`: the comment value and the adjacency relation `Joins`.
- `Grouping`: the grouping as a pure recursive function `Group`, an
  independent characterisation `IsGrouping`, and the proof that the two agree
  and that a grouping is unique.
- `Reducer`: the source's fold as a class `ReduceState`. The class holds the
  finished `blocks` and an optional open run `LinesState`, and a method updates
  them in place, one comment at a time. `GetCommentBlocks` drives it and is
  proved equal to `Group`.
- `Licences`: line-break normalisation and the licence filter.
- `FileLicences`: one file's licence blocks (`LicenceBlocks`), and the method
  `GetLicences` that computes them with the fold.
- `Preview`: the ten-character head, the escaping of the preview, and the
  ellipsis.
- `Aggregate`: joining, the first-seen deduplication `Dedup` with its
  specification, and the set as a class `LicenseSet`.
- `SaveLicense`: the run over all files. The method `SaveLicense` loops over
  the files, then over each file's blocks, updating one `LicenseSet`, and is
  proved to produce `Dedup` of all texts, the output text, the count, and
  exactly one event per block.

The parser is a function parameter `parse: string -> ParseResult`. Reading a
file is a parameter `read: string -> Option<string>`. The licence patterns
are a sequence of predicates `string -> bool`.

`escape` calls `replace` with a non-global regular expression, so only the
first special character of the preview is escaped. `Preview.Escape` models
that. `Preview.EscapeFirstOnly` and `Preview.EscapeNoSpecial` state it, and
`Preview.EscapeRoundTrip` shows that no information is lost.

## Model

| member | source | states |
|---|---|---|
| Comments.Joins | src/save-license.ts:51-52 | a comment continues a run exactly when both are line comments and it starts on the line after the other |
| Grouping.Group | src/save-license.ts:21-28 | empty input gives no group; the first group starts with the first comment |
| Grouping.GroupIsGrouping | src/save-license.ts:38-74 | the groups flatten back to the comments in order; every group is non-empty and each comment in it joins the next one (line comment on the next line); the last of a group never joins the first of the next one |
| Grouping.GroupingUnique | src/save-license.ts:38-74 | any grouping with those properties is `Group(cs)`, so the properties determine the result |
| Grouping.RunIsLines | src/save-license.ts:51-55 | every comment of a group of two or more is a line comment |
| Grouping.BlockIsolated | src/save-license.ts:45-48 | a block comment is always alone in its group |
| Grouping.FlattenLast | src/save-license.ts:52-54 | the last comment seen is the last comment of the last group |
| Grouping.GroupConsJoin | src/save-license.ts:21-28 | helper for the scenario lemmas, one unfolding of `Group`: a comment joining the next one is put in the next one's group |
| Grouping.GroupConsNew | src/save-license.ts:21-28 | helper for the scenario lemmas, one unfolding of `Group`: a comment not joining the next one gets its own group |
| Grouping.GroupAtJoin | src/save-license.ts:21-28 | helper for the scenario lemmas: `GroupConsJoin` at an index of a list |
| Grouping.GroupAtNew | src/save-license.ts:21-28 | helper for the scenario lemmas: `GroupConsNew` at an index of a list |
| Grouping.SevenGroupsScenarioTail | test/test.ts:16-22 | the last five comments of the scenario (two block comments, a run of two, a single line comment) form four groups |
| Grouping.SevenGroupsScenarioMiddle | test/test.ts:13-22 | from the third comment of the scenario on, there are six groups |
| Grouping.SevenGroupsScenario | test/test.ts:9-42 | the comments on lines 2-3, 5-6, 8, 9 (block), 10 (block), 11-12, 14 form the seven groups the repository expects |
| Reducer.LinesState.constructor | src/save-license.ts:43 | a new run holds just the comment, at its line |
| Reducer.ReduceState.constructor | src/save-license.ts:71 | the fold starts with no blocks and no open run |
| Reducer.ReduceState.Reduce | src/save-license.ts:38-68 | one step of the fold, per branch: a block comment flushes the open run and adds itself; a line comment on the next line extends the run in place; any other line comment flushes the run and opens a new one; the state stays a grouping of the comments seen |
| Reducer.GroupingExtendLast | src/save-license.ts:52-54 | extending the last run of a grouping with a joining comment keeps a grouping |
| Reducer.GroupingAppend | src/save-license.ts:41-65 | appending a singleton group for a non-joining comment keeps a grouping |
| Reducer.GetCommentBlocks | src/save-license.ts:70-74 | the fold followed by the flush of the last run gives exactly `Group(comments)`, a grouping of the comments |
| Licences.IsBreak | src/save-license.ts:77 | the characters of the class `[\r\n]` |
| Licences.NormalizeNewlines | src/save-license.ts:77 | every maximal run of '\r' and '\n' becomes one '\n'; its properties are the `NormalizeNewlines...` lemmas below |
| Licences.SkipBreaks | src/save-license.ts:77 | the rest after the leading run of line breaks: a suffix, not starting with a break, everything before it a break |
| Licences.NormalizeNewlinesHead | src/save-license.ts:77 | the normalised text is empty exactly when the text is; its first character is '\n' exactly when the text starts with a break |
| Licences.NormalizeNewlinesNormal | src/save-license.ts:77 | the normalised text has no '\r' and no two '\n' in a row |
| Licences.NormalizeNewlinesKeepsText | src/save-license.ts:77 | normalising keeps every character other than line breaks, in order |
| Licences.NormalizeNewlinesFixed | src/save-license.ts:77 | text without '\r' and without a blank line is unchanged |
| Licences.NormalizeNewlinesIdempotent | src/save-license.ts:77 | normalising twice is normalising once |
| Licences.NormalizeNewlinesNoBreaks | src/save-license.ts:77 | text without line breaks is unchanged |
| Licences.NormalizeNewlinesPrefix | src/save-license.ts:77 | a prefix without line breaks passes through unchanged |
| Licences.SkipBreaksRun | src/save-license.ts:77 | a whole run of breaks is skipped, up to the next non-break |
| Licences.BreakRunCollapsed | src/save-license.ts:77 | a run of line breaks becomes one '\n' |
| Licences.BreakRunBetween | src/save-license.ts:77 | a run of line breaks between two texts without breaks becomes one '\n' |
| Licences.BlankLineCollapsed | src/save-license.ts:77 | "a\n\nb" and "a\r\n\r\nb" both become "a\nb", so two line comments separated by an empty line end up on adjacent lines |
| Licences.WithoutBreaksOfBreaks | src/save-license.ts:77 | a run of line breaks has no other characters |
| Licences.WithoutBreaksAppend | src/save-license.ts:77 | removing line breaks distributes over concatenation |
| Licences.Matches | src/save-license.ts:88 | some pattern accepts the comment's text; used by `FilterLicenses` |
| Licences.IsLicense | src/save-license.ts:88 | some comment of the block is matched by some pattern; `FilterLicenses` keeps exactly these blocks |
| Licences.FilterLicenses | src/save-license.ts:88 | the kept blocks are a subsequence of the groups; each kept block has a comment matched by a pattern; a group is kept exactly when some comment of it is matched by some pattern |
| Licences.FilterLicensesAppend | src/save-license.ts:88 | filtering a concatenation is concatenating the filtered parts |
| Licences.FilterLicensesSingle | src/save-license.ts:88 | no group keeps nothing; a single group is kept exactly when it is licence-like |
| FileLicences.LicenceBlocks | src/save-license.ts:76-89 | no result exactly when the normalised text does not parse; no block when the parser reports no comment list; otherwise a subsequence of the groups of the comments, holding exactly the licence-like ones |
| FileLicences.LicenceBlocksWellFormed | src/save-license.ts:76-89 | every block kept from a file is a non-empty run of joined comments |
| FileLicences.SubsequenceMembers | src/save-license.ts:88 | every element of a subsequence is an element of the sequence |
| FileLicences.GetLicences | src/save-license.ts:76-89 | normalising, parsing, folding and filtering gives `LicenceBlocks` |
| Preview.Head | src/save-license.ts:129 | the head has 10 characters, or all of them when the text is shorter, is a prefix of the text, and is the whole text exactly when the text has at most 10 characters |
| Preview.IsSpecial | src/save-license.ts:91 | the ten characters of the pattern's class: backspace, tab, line feed, vertical tab, form feed, carriage return, the three quotes and the backslash |
| Preview.EscapeLetter | src/save-license.ts:91-105 | each special character is escaped by one of the letters b t n v f r " ' ` \ |
| Preview.UnescapeLetter | src/save-license.ts:91-105 | each escape letter stands for a special character |
| Preview.LetterRoundTrip | src/save-license.ts:91-105 | an escape letter reads back to the special character it was made from |
| Preview.Escape | src/save-license.ts:91-105 | the escaped text is one character longer than the text exactly when the text has a special character, and as long otherwise; `EscapeNoSpecial`, `EscapeFirstOnly` and `EscapeRoundTrip` state the rest |
| Preview.EscapeNoSpecial | src/save-license.ts:91-105 | a text without special characters is returned unchanged |
| Preview.EscapeFirstOnly | src/save-license.ts:91-105 | otherwise exactly the first special character is replaced by a backslash and its letter, and the text before and after it is unchanged |
| Preview.EscapeRoundTrip | src/save-license.ts:91-105 | the original text can be read back from the escaped one |
| Preview.PreviewText | src/save-license.ts:129-130 | a text longer than 10 is shown as its first 10 characters escaped, followed by "..."; a shorter one is shown whole and escaped, without "..." |
| Aggregate.Join | src/save-license.ts:135 | the parts with the separator between each two; `JoinLength` and `JoinSnoc` state its properties |
| Aggregate.Values | src/save-license.ts:122 | the comments' texts, in order |
| Aggregate.BlockText | src/save-license.ts:122 | a block's text: its comments' texts joined by one line feed |
| Aggregate.JoinLength | src/save-license.ts:135 | joining adds one separator between each two parts and nothing else |
| Aggregate.JoinSnoc | src/save-license.ts:122 | appending a part appends the separator and that part |
| Aggregate.EmptyLineCommentText | test/test.ts:63-74 | a block of three comments whose middle one is empty has a text with two line feeds in a row |
| Aggregate.FirstIndex | src/save-license.ts:123-125 | the position of the first occurrence: it holds the text, and no earlier position does |
| Aggregate.FirstIndexPrefix | src/save-license.ts:123-125 | appending does not move a first occurrence |
| Aggregate.FirstIndexLast | src/save-license.ts:123-125 | a new text's first occurrence is where it was appended |
| Aggregate.Dedup | src/save-license.ts:117-126 | the contents of the set after the texts have been processed in order; never longer than the texts; `DedupSpec` characterises it |
| Aggregate.DedupSpec | src/save-license.ts:117-126 | the set holds each text once, holds exactly the texts seen, and keeps them in the order of their first occurrence |
| Aggregate.DedupStep | src/save-license.ts:123-126 | a processed text either is new, is appended and grows the set by one, or was seen and leaves the set as it was |
| Aggregate.SameTextTwice | src/save-license.ts:123-126 | the same text processed twice leaves a set of that one text after the first time and after the second |
| Aggregate.LicenseSet.constructor | src/save-license.ts:117 | the set starts empty |
| Aggregate.LicenseSet.Has | src/save-license.ts:123 | true exactly when the text is in the set |
| Aggregate.LicenseSet.Add | src/save-license.ts:124-126 | a new text is appended at the end, a present one changes nothing; no text is held twice |
| Aggregate.LicenseSet.Size | src/save-license.ts:138 | the number of texts in the set |
| SaveLicense.Tag | src/save-license.ts:119-121 | each block of a file is paired with that file, in order |
| SaveLicense.CollectBlocks | src/save-license.ts:119-121 | every collected block is licence-like |
| SaveLicense.CollectFailureStays | src/save-license.ts:119-120 | once a file cannot be read or parsed, later files do not change the outcome: the run fails with that file's error |
| SaveLicense.Texts | src/save-license.ts:122 | the text of each block, in order |
| SaveLicense.EventAt | src/save-license.ts:128-130 | the event of the k-th block: its file, start line, 1-based column, preview, and `merge` exactly when an earlier block had the same text; `EventOpIsGrowth` ties the operation to the set's growth |
| SaveLicense.EventAtPrefix | src/save-license.ts:123-130 | later blocks do not change an earlier block's event |
| SaveLicense.EventOpIsGrowth | src/save-license.ts:123-130 | a block is reported `add` exactly when the set grows by one text, and `merge` exactly when the set is unchanged |
| SaveLicense.SameTextTwoFiles | src/save-license.ts:119-130 | the same licence text in blocks of two files: the first block is reported `add`, the second `merge`, and the set holds one text |
| SaveLicense.EventsPrefix | src/save-license.ts:121-131 | events stay correct for all earlier blocks when a block is appended |
| SaveLicense.EventsSnoc | src/save-license.ts:121-131 | adding the new block's event keeps one correct event per block |
| SaveLicense.TextsSnoc | src/save-license.ts:122-126 | one more block adds its text to the texts, and to the set exactly when it is new |
| SaveLicense.EventOfLast | src/save-license.ts:128-130 | the event of an appended block gives its file, line, 1-based column and preview, and `merge` exactly when its text is already in the set |
| SaveLicense.MergeStep | src/save-license.ts:122-130 | one block's lookup, insertion and event keep the set equal to `Dedup` of the texts so far and the events equal to `EventAt` |
| SaveLicense.TagSnoc | src/save-license.ts:121 | the blocks processed so far grow by the current one |
| SaveLicense.MergeBlock | src/save-license.ts:122-130 | after one block, the set is `Dedup` of the texts so far, without duplicates, and the events are one `EventAt` per block |
| SaveLicense.MergeFileBlocks | src/save-license.ts:121-131 | the same after all blocks of one file |
| SaveLicense.SaveLicense | src/save-license.ts:107-140 | the first unreadable or unparseable file aborts the run with its error; otherwise the output is the distinct texts in first-seen order joined by a blank line, the count is their number, and there is one event per block, in order, each `EventAt` |

## Left out

- Parsing with esprima is not part of this model. The parser is the parameter
  `parse`. A parse error, which esprima throws, becomes `ParseError`. A
  program without a comment list becomes `Program(None)`.
- The regular-expression engine and the default pattern at
  src/save-license.ts:13 are not modelled. Each pattern is an abstract
  predicate on a comment's text. A caller's pattern with the `g` or `y` flag
  makes `test` stateful through `lastIndex`, so whether a comment matches can
  depend on the comments tested before it; such patterns are not modelled (the
  default pattern has neither flag).
- Reading and writing files, `promisify` and the `async`/`await` sequencing
  are not modelled. Reading is the parameter `read`. Writing is the string
  `Report.output`, which would be written to `Report.outFile`. The text
  encoding option is not modelled.
- `console.log` and `Date.now()` are not modelled. The progress lines are
  modelled as `Event` values; the summary lines are `Report.outFile` and
  `Report.count`. The start-up lines and the elapsed time are left out.
- The options argument is left out. Its default applies only when the whole
  argument is omitted; missing fields get no default. Options with `patterns`
  but no `encoding` make `escape(encoding)` throw at src/save-license.ts:113,
  and options with `encoding` but no `patterns` make `patterns.join` throw at
  src/save-license.ts:112. The model always has both and leaves out the
  display of `patterns.join`.
- Wrapping a single file name into a list (`typeof files === "string"`) is
  left out. `SaveLicense` always takes a list.
- `escape(encoding)` in the start-up log line is left out. The encoding is
  not modelled.
- SaveLicense.SaveLicense: on failure it returns only the error. It does not
  return the events already reported for earlier files before the run
  aborted.
- Reducer.ReduceState.Reduce: the open run's comments are a `seq` value, so
  the model does not capture that the source pushes the run's array into
  `blocks` and then keeps no other reference to it. Nothing in the source
  mutates a run after it is flushed, so the values agree.
- Characters are Dafny `char`s. JavaScript strings are UTF-16 code units,
  and `substr(0, 10)` counts code units. The model does not distinguish
  surrogate pairs.
