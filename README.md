# Thesis annotation tool, modelled in Dafny

The repository has three command-line tools for annotating tweets.

- `tool.py` is a single annotator's pass over one file. Every row becomes a
  record. A record without a `level` gets one in one of two ways. If a row with
  the same normalised text carried a level, the record takes that. Otherwise the
  user types a level from 1 to 7, and 0 saves and quits. The normalised text is
  the "stripped" key: every `@mention` becomes `@_` and every `t.co` link becomes
  `http://_`.
- `compare.py` reconciles the votes of several annotators.
  - It groups the rows of all files by tweet id.
  - On each axis (explicitness, target) it keeps the label that four or three
    voters agree on. Every other outcome becomes `"?"`, and a counter of the
    outcome is kept.
  - The user then adjudicates every item left with a `"?"` by typing one-letter
    codes. An item already at explicitness NOT gets an empty target without any
    typing.
- `combine.py` merges several annotators' files by row position. The result is
  one table with an `explicitness-annotator-k` and a `target-annotator-k` column
  per file.

The model works on rows as maps from column name to cell text. Typed answers are
given as a sequence of strings. Running out of answers stands for `input()`
reaching end of file.

- `tables.dfy` (`Tables`) holds rows, `Option`/`Result`, and the cell a
  `csv.DictWriter` writes.
- `prompts.dfy` (`Prompts`) models the `while True: input()` re-prompt loop
  shared by both interactive tools. It is a method proved equal to
  `FirstAccepted`.
- `consensus.dfy` (`Consensus`) models the pure part of `choose`:
  - `Counter(...).most_common(2)`, with ties going to the label seen first;
  - the four-way decision and the counters it increments.
- `compare.dfy` (`Compare`) models the rest of `compare.py`:
  - `load_annotations` as a method proved equal to the fold `Load`;
  - the class `CompareTool`, with the fields `order`, `tweets`, `annotations`
    and `stats`;
  - the methods `Choose`, `Start` and `Annotate`, which update those fields;
    each is proved against a specification function (`Record`, `ResolveAll`,
    `AnnotateAll`), and the properties are proved about those functions;
  - `CountTodo` and the column projection of `export`.
- `normalize.dfy` (`Normalize`) holds the two regular-expression substitutions
  of `tool.py` line 33, written out as scanners.
- `tool.dfy` (`Tool`) models the rest of `tool.py`:
  - the loading loop as a method proved equal to `Seed`;
  - the class `AnnotationTool`, with the fields `todo` and `history`;
  - `AnnotateTweet` and `Run`, proved against `Annotated` and `RunFrom`.
- `combine.dfy` (`Combine`) models `main`: header construction and the nested
  merge loops, proved equal to `CombineAll`.

Where the code of a tool and its stated intent part ways, the model follows the
code:

- `choose` uses the literal counts 4 and 3, so five identical votes give
  `"?"` (`Consensus.ThresholdsAreExact`).
- The split counter key is `{first}+{second}` in order of appearance, not
  sorted (`Consensus.SplitFollowsAppearance`).
- `start` does no cross-axis fix-up. An item whose explicitness comes out `NOT`
  keeps whatever target `choose` gave it. Only `annotate` empties the target,
  and only for items that still have a `"?"`.
- The normalised key is not idempotent (`Normalize.NotIdempotent`). The two
  passes do not commute (`Normalize.PassOrderMatters`).
- The comment at `tool.py` line 74 says the history holds the level. Line 88
  stores the record itself, so a later duplicate of a hand-annotated record gets
  that record as its level (`Tool.DuplicateGetsRecord`). The model keeps this,
  as `Level.RecordOf`.

## Model

| member | source | states |
|---|---|---|
| Tables.Project | compare.py:141-149 | A written line has one cell per field name, in order. Each cell is the row's value, or empty when the row lacks that column. |
| Prompts.FirstAccepted | compare.py:113-120 | The answer taken is the first accepted one at or after the current position, and every answer before it is rejected. None exactly when no remaining answer is accepted. |
| Prompts.Ask | tool.py:78-81 | The re-prompt loop returns exactly `FirstAccepted`. Rejected answers are skipped with no other effect. |
| Consensus.Labels | compare.py:53 | `[a[goal] for a in annotation]`: each vote's label on one axis, in order. `DecideSpec` and `VerdictIsMostCommon` state what is made of it. |
| Consensus.Count | compare.py:53 | The `Counter` value of a label: how many votes carry it. `LeaderSpec` and `DecideSpec` state the decision in terms of it. |
| Consensus.Leader | compare.py:53 | The label `most_common` puts first, with labels in a given set skipped. `LeaderSpec` and `LeaderIsFirstMost` state what it is. |
| Consensus.Decide | compare.py:53-76 | The decision `choose` makes from the top two counts. `DecideSpec` and `VerdictIsMostCommon` state it. |
| Consensus.KindKey | compare.py:55-74 | The counter for the kind of decision, `{goal}-agree` and so on. `Record` and `SplitKeyText` state its use and its text. |
| Consensus.LabelKey | compare.py:58-74 | The counter for the kind and its label, or its two labels for a split. `Record` and `SplitKeyText` state it. |
| Consensus.Decision.Verdict | compare.py:55-78 | What `choose` returns: the top label for agree and 3majority, and `"?"` for a split or a 2majority. `VerdictIsMostCommon` and `VerdictIsVoteOrQuestion` state it. |
| Consensus.LeaderSpec | compare.py:53 | The top label of `most_common`, skipping a set of labels. None iff every vote is skipped. Otherwise it is a vote of maximal count, and no earlier vote has the same count. |
| Consensus.LeaderIsFirstMost | compare.py:53 | The earliest vote of maximal count is the top label. |
| Consensus.FirstMostUnique | compare.py:53 | There is only one earliest vote of maximal count. |
| Consensus.RunnerUp | compare.py:64 | `c[-1]`: the top label itself when all votes are equal. Otherwise the earliest most frequent of the other labels. |
| Consensus.DecideSpec | compare.py:53-76 | The decision's top label is the earliest most frequent vote. Agree iff its count is 4. Majority3 iff it is 3. Split iff it is neither and the runner-up count is 2, with that runner-up as second label. |
| Consensus.VerdictIsMostCommon | compare.py:53-78 | `choose` returns the earliest most frequent label when its count is exactly 4 or 3. Otherwise it returns `"?"`. |
| Consensus.VerdictIsVoteOrQuestion | compare.py:52-78 | `choose` returns `"?"` or one of the votes. |
| Consensus.Record | compare.py:55-74 | The counters gain exactly the outcome key and its label-suffixed key. Each of the two goes up by one and every other counter is unchanged. |
| Consensus.SplitFollowsAppearance | compare.py:64-68 | Votes [a,b,b,a] give Split(a,b) with a first: the pair is in order of first appearance. |
| Consensus.SplitKeyText | compare.py:68 | The split counter key is `{goal}-split-{first}+{second}`. |
| Consensus.FourAgree | compare.py:55-58 | Four equal votes give Agree and return that label. |
| Consensus.ThreeOfFour | compare.py:59-62 | Three of four votes for a label give Majority3 and return it. |
| Consensus.TwoOneOne | compare.py:70-76 | Votes split 2-1-1 give Majority2 and return `"?"`. |
| Consensus.ThresholdsAreExact | compare.py:55-68 | Five equal votes give Majority2 (`"?"`), not agreement. Two equal votes give a split of the label with itself. |
| Compare.MissingColumn | compare.py:40-42 | The first of `id`, `explicitness` and `target` that a row lacks, in the order Python looks them up. `LoadFails` states it. |
| Compare.AddRow | compare.py:40-48 | One row of `load_annotations`: its votes are appended, and its id gets an item when it has none yet. `LoadVotes`, `LoadFirstRows` and `LoadOrder` state the result. |
| Compare.Load | compare.py:31-50 | `load_annotations` over all rows in file order, failing at the first row that lacks a column. `LoadFails` and `LoadContents` state it. |
| Compare.FlattenAppend | compare.py:36-38 | Reading files one after another reads the rows of their concatenation. |
| Compare.FlattenPrefix | compare.py:36-38 | The rows read before row j of file i are a prefix of all rows read. |
| Compare.LoadErrorSticks | compare.py:38-43 | Once a row has raised, later rows change nothing. |
| Compare.LoadAnnotations | compare.py:31-50 | The nested loops produce exactly `Load` of the rows of all files in order. |
| Compare.LoadFails | compare.py:40-42 | Loading fails iff some row lacks `id`, `explicitness` or `target`. The error names the first missing column of the first such row. |
| Compare.VotesOfAbsent | compare.py:40-43 | An id carried by no row has no votes. |
| Compare.FirstWithIdInit | compare.py:44-48 | The first row with an id stays first when later rows are dropped, as long as one of the remaining rows has that id. |
| Compare.LoadLast | compare.py:38-48 | Loading all rows is loading all but the last and then adding the last. |
| Compare.LoadShape | compare.py:33-48 | Loading rows with all columns succeeds and gives a well-formed store. The ids in `order` are exactly the ids of the rows. |
| Compare.LoadVotes | compare.py:40-43 | Each id's vote list has one pair per row with that id, in file-then-row order. |
| Compare.LoadFirstRows | compare.py:44-48 | Each stored item is the first row with its id, minus the two vote columns. |
| Compare.LoadOrder | compare.py:44-48 | `order` lists the ids in order of first appearance. |
| Compare.LoadContents | compare.py:31-50 | The conjunction of LoadShape, LoadVotes, LoadFirstRows and LoadOrder. |
| Compare.Resolved | compare.py:83-84 | One item after `start`: both axes become `choose` of its votes. `ResolveAllEffect` states it. |
| Compare.ItemStats | compare.py:83-84 | The counters after one item of `start`: the explicitness decision recorded, then the target decision. `StartStep` and `Record` state it. |
| Compare.StartStats | compare.py:82-84 | The counters after `start`, explicitness before target, item after item. `StartStep` and `Record` state it. |
| Compare.ResolveAll | compare.py:82-84 | `start` keeps the set of items. |
| Compare.ResolveAllEffect | compare.py:80-84 | After `start`, each listed item has both axes set to `choose` of its own votes, and every other item is unchanged. |
| Compare.StartKeepsStore | compare.py:80-84 | `start` keeps the store well formed. |
| Compare.StartStep | compare.py:82-84 | One iteration of `start`: one more item resolved and its two decisions counted. |
| Compare.IsTodo | compare.py:91 | An item needs adjudication iff its explicitness or its target is `"?"`, a missing column counting as neither (`t.get`). `TodoInCounts`, `AdjudicateSettles` and `AnnotateAllEffect` use it. |
| Compare.TodoIn | compare.py:91 | The sum of 1 over the listed items that need adjudication. `TodoInCounts` states it counts the set of such items. |
| Compare.TodoInCounts | compare.py:90-91 | The counting sum equals the number of items that have `"?"` on either axis. |
| Compare.Code | compare.py:114-116 | The lowercased first character of the answer with a space appended. `ReadCode` and `AdjudicateAnswersBoth` state how it selects a label. |
| Compare.ReadCode | compare.py:113-120 | A prompt takes the first answer whose lowercased first character is a code. Its label is that code's label, and every earlier answer is rejected. None iff no remaining answer is a code. |
| Compare.Adjudicate | compare.py:102-107 | An item with no `"?"` is unchanged and reads no answer. An item already at explicitness NOT gets an empty target and reads no answer. |
| Compare.FirstCodeRead | compare.py:113-120 | A prompt stops at the first answer whose code the table knows. It writes that code's label and goes on after it. |
| Compare.AdjudicateAnswerNot | compare.py:113-123 | When the first explicitness answer means NOT, the item gets explicitness NOT and an empty target. No target prompt runs, and the next answer is the one after it. |
| Compare.AdjudicateAnswersBoth | compare.py:113-133 | When the first explicitness answer is not NOT, the first target answer after it sets the target. Both labels come from the code tables, and the next answer follows the target answer. |
| Compare.AdjudicateRunsOut | compare.py:113-130 | An item runs out of answers exactly when no answer has an explicitness code, or the first one is not NOT and no later answer has a target code. |
| Compare.ExplicitGroup | compare.py:113-131 | The answers `e` then `g` settle a todo item at explicitness EXPLICIT and target GROUP, and both answers are used. |
| Compare.AdjudicateSettles | compare.py:102-133 | An adjudicated item has no `"?"` left. Its explicitness is EXPLICIT, IMPLICIT or NOT, and its target is empty iff its explicitness is NOT. |
| Compare.AdjudicateKeepsColumns | compare.py:132-133 | Adjudication writes only the two vote columns and keeps every other column. |
| Compare.CodeLabels | compare.py:13-23 | The two code tables map to their label sets. No label is `"?"` or empty. |
| Compare.AskCode | compare.py:124-130 | The prompt loop for one axis returns exactly `ReadCode`. |
| Compare.AdjudicateItem | compare.py:99-133 | The body of `annotate` for one item returns exactly `Adjudicate`. |
| Compare.AnnotateAll | compare.py:93-134 | `annotate` over the items in order: each todo item without `text` stops the run, as `print(tweet['text'])` raises. Otherwise each item is adjudicated in turn. `AnnotateAllEffect` and `AnnotateSettlesAll` state it. |
| Compare.AnnotateAllEffect | compare.py:98-134 | `annotate` keeps the set of items and leaves settled and unlisted items unchanged. When it finishes, no listed item has a `"?"`. |
| Compare.AnnotateSettlesOrKeeps | compare.py:98-134 | Every item ends either as it was or with no `"?"`. So an item still holding a `"?"` after a run, such as one after the item where the run stopped, is unchanged. |
| Compare.AnnotateStep | compare.py:98-134 | One item of `annotate`: a todo item without `text` ends the run, and otherwise the item is adjudicated before the rest. |
| Compare.NoTextStops | compare.py:102-104 | An item with explicitness `"?"` and no `text` column ends `annotate` with nothing changed, before any answer is read. |
| Compare.AnnotateSettlesAll | compare.py:93-134 | A finished `annotate` keeps the store well formed and leaves nothing for `count_todo` to count. |
| Compare.CompareTool.ValidReady | compare.py:25-29 | A well-formed store has an item and at least one vote for every listed id. |
| Compare.CompareTool.constructor | compare.py:25-29 | The tool starts with the loaded store and no counters. |
| Compare.CompareTool.Choose | compare.py:52-78 | Returns the verdict of the decision on that axis's labels. The counters become `Record` of the old ones. |
| Compare.CompareTool.Start | compare.py:80-84 | The items become `ResolveAll` of the old items over `order`. The counters become `StartStats`. |
| Compare.CompareTool.CountTodo | compare.py:90-91 | The number of items with `"?"` on either axis. |
| Compare.CompareTool.Annotate | compare.py:93-134 | The items become exactly what `AnnotateAll` gives. The method reports whether the run finished, ran out of answers, or stopped at an item without `text`. |
| Compare.CompareTool.ExportRows | compare.py:141-149 | One written line per item, in `order`. Each line has the cells of the eight export fields. |
| Normalize.MentionAt | tool.py:25 | The length of a match of `@(\w){1,15}` at a position, or 0. `WordRunSpec` and `LongMention` state it. |
| Normalize.StripMentions | tool.py:25-33 | `re.sub(username_re, '@_', text)`. `MentionsIdentity`, `MentionsCopyPrefix` and `MentionsKeepAts` state it. |
| Normalize.UrlAt | tool.py:26 | The length of a match of `https?://t.co/\w+` at a position, or 0. `UrlAtLength`, `UnescapedDot` and `SecureScheme` state it. |
| Normalize.StripUrls | tool.py:26-33 | `re.sub(url_re, 'http://_', text)`. `UrlsIdentity` and `UrlPassAlone` state it. |
| Normalize.Normalize | tool.py:33 | The key of a text: the mention pass, then the URL pass. `NormalizeShorter`, `NormalizePlain`, `NotIdempotent` and `PassOrderMatters` state it. |
| Normalize.WordRun | tool.py:25 | The greedy run of word characters stays within the text and within `max`. |
| Normalize.WordRunSpec | tool.py:25 | The run is all word characters. It stops at a non-word character unless the text or the bound ends it. |
| Normalize.WordRunFull | tool.py:25 | A run at least `max` long is taken up to exactly `max`. |
| Normalize.MentionsFrom | tool.py:25 | The mention pass never lengthens the text. |
| Normalize.MentionsIdentity | tool.py:25 | With no `@`, the mention pass copies the text. |
| Normalize.MentionsCopyPrefix | tool.py:25 | Everything before the first `@` is copied unchanged. |
| Normalize.MentionsKeepAts | tool.py:25 | The mention pass keeps the number of `@` characters: each match keeps its `@` and drops only word characters. |
| Normalize.LongMention | tool.py:25 | A mention consumes at most 15 word characters. The sixteenth is kept. |
| Normalize.UrlAtLength | tool.py:26 | A URL match starts with `http` and is at least 13 characters long. |
| Normalize.UrlAtSpec | tool.py:26 | A URL match is `http`, an optional `s`, `://t`, any character but a newline, `co/`, and the longest run of one or more word characters there. |
| Normalize.UrlsFrom | tool.py:26 | The URL pass never lengthens the text. |
| Normalize.UrlsIdentity | tool.py:26 | With no `http`, the URL pass copies the text. |
| Normalize.UnescapedDot | tool.py:26 | The dot in `t.co` matches any character but a newline: `http://tXco/abc` becomes `http://_`. |
| Normalize.SecureScheme | tool.py:26 | An `https` link is also replaced by `http://_`. |
| Normalize.NoHttpWithoutH | tool.py:26 | A text without `h` has no `http`. |
| Normalize.KeyAfterMention | tool.py:26 | `@_://t.co/x` holds no URL match. |
| Normalize.UrlPassAlone | tool.py:26 | The URL pass alone turns `@https://t.co/x` into `@http://_`. |
| Normalize.MentionAfterUrl | tool.py:25 | The mention pass turns `@http://_` into `@_://_`. |
| Normalize.NormalizeShorter | tool.py:33 | Neither pass lengthens the text, so the key is never longer than the text. |
| Normalize.NormalizePlain | tool.py:33 | A text with neither `@` nor `http` is its own key. |
| Normalize.NotIdempotent | tool.py:33 | The key of a key can differ from the key. |
| Normalize.MentionIntoUrl | tool.py:33 | A mention running into a URL swallows its scheme: `@https://t.co/x` becomes `@_://t.co/x` after the mention pass. |
| Normalize.PassOrderMatters | tool.py:33 | Running the URL pass first gives a different key. |
| Tool.Filled | tool.py:69 | `tweet.get('level')` is true: a level from the file counts when it is not empty, a typed level when it is not 0, and a stored record always. `AlreadyFilled` and `RunFills` use it. |
| Tool.Truthy | tool.py:34 | `self.history.get(...)` is true: a level text counts when it is not empty, and a stored record always counts. `SeedHistory`, `SeenBefore` and `AsLevel` use it. |
| Tool.FromRow | tool.py:32-36 | The record of one row: the row, its key, and its level when the row has one. `SeedRecords` states it. |
| Tool.Remember | tool.py:32-36 | One row of the loading loop: its record is appended to `todo`, and a row with a level fills its key in the history unless the key already has a true value. `SeedRecords` and `SeedHistory` state it. |
| Tool.Seed | tool.py:28-36 | The loading loop over all rows, failing at the first row without `text`. `SeedFails`, `SeedRecords` and `SeedHistory` state it. |
| Tool.DigitsValue | tool.py:82 | `int(inp)` of a string of digits. `Typed` states how it is used. |
| Tool.LevelAnswer | tool.py:80-82 | An answer is kept iff it is non-empty, all digits and at most 7. `Typed` states it. |
| Tool.AsLevel | tool.py:73-74 | A true history value becomes a non-empty level. |
| Tool.ReadRows | tool.py:28-36 | The loading loop returns exactly `Seed`. |
| Tool.SeedErrorSticks | tool.py:32-33 | Once a row has raised, later rows change nothing. |
| Tool.SeedFails | tool.py:33 | Loading fails iff some row has no `text`. The error is the first such row. |
| Tool.SeedRecords | tool.py:32-36 | `todo` holds one record per row in file order. Each record has the key computed from its text, and its own level or none. |
| Tool.SeedHistory | tool.py:34-35 | `history` has exactly the keys of rows with a non-empty level. Each key maps to the level of the first such row. |
| Tool.SeedContents | tool.py:28-36 | The conjunction of SeedRecords and SeedHistory. |
| Tool.LaterRowFeedsEarlier | tool.py:32-36 | The history is built from the whole file before any record is visited, so a later duplicate's level is there for an earlier record. |
| Tool.Annotated | tool.py:66-88 | One call keeps the number of records and reads answers only forward. |
| Tool.AlreadyFilled | tool.py:69-72 | A record with a level changes neither itself nor the history, and reads no answer. |
| Tool.SeenBefore | tool.py:73-75 | A record whose key has a true history value takes that value as its level. No answer is read and the history is unchanged. |
| Tool.Typed | tool.py:78-88 | Non-digit answers and values above 7 are skipped. The call faults iff every remaining answer is skipped, and it stops iff the first kept answer is 0, with nothing changed. Otherwise the first kept answer, with a value from 1 to 7, becomes the level. The history stores the record under its key, and the next answer follows it. |
| Tool.AnnotatedFrame | tool.py:66-88 | Only the visited record's level and at most its one history key change. A call that goes on leaves the record with a level. |
| Tool.RunFrom | tool.py:53-64 | `main` from one record on: done after the last record, stopped on a 0, faulted when the answers run out. `RunFills` and `DuplicateGetsRecord` state it. |
| Tool.RunFills | tool.py:53-64 | A run keeps the number of records and leaves records before the start as they were. A run that ends Done leaves every record from the start on with a level. |
| Tool.DuplicateGetsRecord | tool.py:86-88 | A duplicate of a record given level 5 gets the record itself as its level, not 5. |
| Tool.AnnotationTool.constructor | tool.py:22-36 | The tool starts with the loaded records and history. |
| Tool.AnnotationTool.AnnotateTweet | tool.py:66-88 | The new records, history and outcome are exactly `Annotated` of the old state. |
| Tool.AnnotationTool.Run | tool.py:53-64 | The final state and ending are exactly `RunFrom` of the old state from record 0. |
| Combine.DecimalString | combine.py:15 | A number's decimal form is non-empty, and is one character long iff the number is below 10. |
| Combine.ExplColumn | combine.py:15 | `f'explicitness-annotator-{n}'`. `ColumnsDistinct` and `HeaderAt` state it. |
| Combine.TargColumn | combine.py:15 | `f'target-annotator-{n}'`. `ColumnsDistinct` and `HeaderAt` state it. |
| Combine.DecimalInjective | combine.py:15 | Distinct numbers have distinct decimal forms. |
| Combine.ColumnsDistinct | combine.py:12-15 | Annotator columns of different numbers differ. No explicitness column is a target column. None of them is `explicitness`, `target` or a base column. |
| Combine.Header | combine.py:12-15 | The base columns, then two columns per file. `HeaderLength`, `HeaderAt` and `HeaderDistinct` state it. |
| Combine.HeaderLength | combine.py:12-15 | The header has the six base columns first and two more per file. |
| Combine.HeaderShape | combine.py:12-15 | The header has six base columns, then `explicitness-annotator-k` and `target-annotator-k` for k = 1..N, in file order. |
| Combine.HeaderAt | combine.py:15 | Annotator k's columns are at positions 4+2k and 5+2k. |
| Combine.HeaderDistinct | combine.py:12-15 | No column name appears twice in the header. |
| Combine.BaseDistinct | combine.py:12 | The six base columns are different names. |
| Combine.ColumnAt | combine.py:12-15 | Every header position past the base columns holds the explicitness or the target column of one annotator from 1 to N. |
| Combine.Written | combine.py:34-41 | The written table has a header line and one line per merged row. |
| Combine.WrittenCell | combine.py:35-41 | A written cell is the merged row's value under its header column, or empty. |
| Combine.Moved | combine.py:18-24 | A first-file row with its two vote columns renamed to annotator 1's. `FirstFile` and `FirstAnnotator` state it. |
| Combine.Put | combine.py:29-31 | Line i gains annotator k+1's two cells. `PutKeeps` and `LaterFile` state it. |
| Combine.MergeRow | combine.py:17-31 | One row: explicitness then target looked up, then appended as a line (first file) or written into line i (later files, failing past the end). `FirstFile` and `LaterFile` state it. |
| Combine.MergeFile | combine.py:16-31 | One file's rows merged in order. `FileErrorSticks`, `FirstFile` and `LaterFile` state it. |
| Combine.Merge | combine.py:13-31 | All files merged in order. `MergeSucceeds`, `KeepsFirstFile`, `FirstAnnotator` and `LaterAnnotator` state it. |
| Combine.CombineAll | combine.py:10-41 | The header and the merged lines of all files. `CombineFiles`, `Written` and `TableCellsAt` state it. |
| Combine.FileErrorSticks | combine.py:17-31 | Once a row of a file has raised, later rows change nothing. |
| Combine.MergeErrorSticks | combine.py:13-31 | Once a file has raised, later files change nothing. |
| Combine.MergeErrorSticksOk | combine.py:13-31 | Every prefix of the files of a successful merge merges too. |
| Combine.CombineFiles | combine.py:10-31 | The nested loops give exactly `CombineAll`: the header and the merged lines, or the first error. |
| Combine.FirstFile | combine.py:17-27 | The first file's rows become the lines one for one, in order, with the two columns moved. This fails iff a row lacks one of them. |
| Combine.FirstStep | combine.py:20-27 | In a merge of one file, line i is row i with its columns moved. |
| Combine.LaterFile | combine.py:28-31 | A later file adds row i's values to line i and nothing else. It fails iff it is longer than the lines or a row lacks a column. |
| Combine.MergeStep | combine.py:13-31 | The last of several files is merged as a later file into the merge of the others. |
| Combine.PutKeeps | combine.py:30-31 | Adding one annotator's values leaves every other column alone. |
| Combine.MergeSucceeds | combine.py:13-31 | The merge succeeds iff every row of every file has both columns and no later file is longer than the first. On success there is one line per row of the first file. |
| Combine.KeepsFirstFile | combine.py:18-27 | Every column of a line that no file writes is the first file's, so base fields come from the first file only. `explicitness` and `target` are gone. |
| Combine.FirstAnnotator | combine.py:18-24 | Line i's annotator-1 columns hold the first file's row i values. |
| Combine.LaterAnnotator | combine.py:28-31 | Line i's annotator-(k+1) columns hold row i of file k, by position only. When file k is shorter they hold whatever the first file's row had under those names. |
| Combine.MergedCells | combine.py:18-31 | Line i's cell under annotator k+1 is row i of file k's value. When file k is shorter, it is empty unless the first file had a column of that name. |
| Combine.TableCellsAt | combine.py:34-41 | In the written file, line i's cells at positions 6+2k and 7+2k are the merged line's cells under annotator k+1's two columns. |
| Combine.SameCell | combine.py:35-41 | Columns that look up alike are written alike. |
| Combine.PositionNotId | combine.py:28-31 | Rows are paired by position, not by id: two files in different orders pair different tweets. |

## Left out

- Reading and writing files (`open`, `csv.DictReader`, `csv.DictWriter`, encodings). The model starts from rows as maps. A row shorter than its file's header is modelled as a row lacking the missing columns. `DictReader` instead fills those columns with `None`, so the source raises no `KeyError` there. For such a row the model reports a missing column (`Compare.Load`, `Combine.Merge`) or a missing text (`Compare.AnnotateAll`), where the source goes on with a `None` value. It also reports a missing text in `Tool.Seed`, where the source fails too, but with the `TypeError` that `re.sub` raises on `None`. The written table is modelled as sequences of cells.
- `print` and `pprint` output, `analyze` (console output only), and the progress counters printed by both tools.
- `input()`. Answers are a given sequence, and its end stands for end of file.
- End of file in `compare.py` is uncaught. `Annotate` then ends with `OutOfInput`, and keeps the items adjudicated so far. The `KeyError` of a todo item without `text` is the `NoText` ending in the same way.
- The exception handler of `tool.py` `main`. It is modelled as the `Faulted` ending, keeping the state reached so far. The save it triggers is left out.
- `exit()` inside `save`. A typed 0 is the `Stopped` ending.
- `tool.py` `save`. It writes `id`, `text` and `level` with Python's text form of each level. A level holding a record is written as the text of a dictionary, which is not modelled.
- The timestamped output name of `export`, built from the clock. `ExportRows` models the written lines only.
- `sys.argv` handling, the usage message, and the file name and delimiter defaults of `tool.py`.
- Normalize.WordRun: `\w` is taken as ASCII letters, digits and underscore. Python's `\w` also matches other Unicode letters and digits.
- Tool.LevelAnswer: `str.isdigit` is taken as ASCII digits. Python also accepts other Unicode digits, some of which make `int()` raise.
- Compare.Code: `str.lower` is applied to ASCII letters only. This does not change which answers are accepted, because no other character lowercases to a single code letter.
- Consensus.Decide and Consensus.Leader: their contracts are stated as the lemmas DecideSpec and LeaderSpec rather than as `ensures` on the functions.
- `choose` on an empty vote list raises. `start` never calls it that way, so `Choose` requires at least one vote.
- Compare.CompareTool.Start and Compare.CompareTool.Annotate require only that the listed ids are present (`Ready`, `Listed`), rather than the whole store invariant. `ValidReady` derives the former from the latter. Neither method ensures `Valid()` of its new state. Its ensures ties that state to `Start` or `AnnotateAll`, and `StartKeepsStore` and `AnnotateSettlesAll` prove those functions keep the store well formed.
