# DHS page watcher, modelled in Dafny

`dhs_page_watcher.py` watches the DHS Program's "Available Datasets" page. On each
run it fetches the page and compares it with the latest stored snapshot, ignoring
the first 200 characters, which hold a timestamp. When the page has changed, it
builds a pandas frame for each version, from the `th` headers of the page's first
table and the `td` cells of every `tr` on the page, and computes which rows
disappeared and which appeared. It then stores the new snapshot and
mails both tables.

This project models the three parts of that script that compute something, and
proves what they promise:

- **Change check** (`data_is_the_same`), in `change_detection.dfy`. The prior
  snapshot is an `Option<string>`. When there is none, the check records a second
  fetch, passed in as a parameter, and answers "same". Otherwise the answer is
  `raw[200:] == old[200:]`, with Python's slicing past the end.
- **Table extraction** (`raw_content_to_table`), in `cell_text.dfy` and
  `extraction.dfy`. It starts after HTML parsing, from the `th` texts of every
  table and the `td` texts of every `tr`.
  - Each cell is trimmed with Python's `strip()`, then every literal
    backslash-n is removed, left to right.
  - Ragged rows are padded with a missing cell (`Missing`), as `pd.DataFrame`
    pads them with `None`.
  - Duplicate rows are dropped, keeping the first.
  - The first table's headers become the column names. Extraction fails when
    there is no table, or when the header count differs from the frame width.
- **Row diff** (`get_diff`), in `tables.dfy`, `dedup.dfy`, `diff.dfy` and
  `diff_properties.dfy`.
  - The caller's frames are objects (`Diff.Frame`) that `get_diff` mutates. It
    adds `SurveyType` (`Survey` as a string, followed by `Type`) and a `version`
    tag to each.
  - `pd.concat` stacks the frames, aligning them by column label.
  - The two `drop_duplicates` calls are scans over an array: keep the last
    occurrence for removed rows, the first for added rows. Both compare on the
    columns the older frame had before tagging.
  - Each result is filtered to its tag and loses the `version` column.
  - The central theorem (`DiffProperties.GetDiffIsRowDifference`) covers two
    tables with one layout of distinct labels that includes `Survey` and `Type`
    but neither `SurveyType` nor `version`. It proves that this trick is plain set difference on
    whole rows: removed rows are the older rows the newer table lacks, and added
    rows are the newer rows the older table lacks. Each is reported once and
    carries its `SurveyType`.
- **One run** (`main`, lines 103-109), in `watcher.dfy`. Parsing is a function
  parameter. The run reports a diff, and records the new snapshot, only when the
  page changed and both extractions and the diff succeed.

`outcomes.dfy` holds the `Option` and `Result` types that model Python's
exceptions as values.

Behaviour of the code that the model keeps:

- With no prior snapshot, the code answers "same" and records a second fetch,
  so a first run reports nothing.
- `SurveyType` stays in both output tables. Only `version` is dropped.
- `get_diff(A, A)` is empty for every `A` that has `Survey` and `Type` and no
  column named `version` (`DiffProperties.GetDiffIdentity`). For a non-empty
  `A` with `Survey`, `Type` and a `version` column, the tag overwrites that
  column and becomes part of the comparison, so the result is not empty
  (`DiffProperties.VersionColumnBreaksIdentity`). With such a column the same
  output row can even be reported both as removed and as added, since
  `version` is dropped from the output (`DiffProperties.VersionColumnSharedRow`);
  without one, no row is in both outputs (`DiffProperties.GetDiffDisjoint`).
- Rows are compared only on the older frame's columns (plus `SurveyType`).
  Columns that only the newer frame has do not take part.

## Model

| member | source | states |
|---|---|---|
| ChangeDetection.SliceFrom | dhs_page_watcher.py:65 | `s[k:]` is the suffix from `k`, or empty when `k` is at or past the end |
| ChangeDetection.SameAfterSkip | dhs_page_watcher.py:65 | `raw[200:] == old[200:]`: a text of at most 200 characters compares the same exactly with another such text, and a longer text only with one of its own length |
| ChangeDetection.SameAfterSkipIsAgreement | dhs_page_watcher.py:64-65 | the slice comparison holds exactly when both texts have the same length (lengths under 200 counting as 200) and agree at every index from 200 on |
| ChangeDetection.PrefixIgnored | dhs_page_watcher.py:64-65 | after 200-character prefixes, texts compare the same exactly when their tails are equal, whatever the prefixes are |
| ChangeDetection.Reflexive | dhs_page_watcher.py:65 | every text compares the same with itself |
| ChangeDetection.Symmetric | dhs_page_watcher.py:65 | the comparison does not depend on argument order |
| ChangeDetection.ShortTextsAreSame | dhs_page_watcher.py:65 | any two texts of at most 200 characters compare the same |
| ChangeDetection.DataIsTheSame | dhs_page_watcher.py:53-65 | no snapshot: answers same, compares against and records the second fetch; with a snapshot: records nothing, returns the snapshot, and answers same exactly when the texts agree from index 200 on |
| ChangeDetection.UnchangedPageIsSame | dhs_page_watcher.py:65 | a page compared with a stored copy of itself is the same |
| CellText.IsSpace | dhs_page_watcher.py:33 | `str.isspace()` on one character: space, tab, newline and carriage return are whitespace; backslash and `n` are not |
| CellText.SkipSpace | dhs_page_watcher.py:33 | index of the first non-whitespace character from `k` on, with only whitespace before it |
| CellText.BackOverSpace | dhs_page_watcher.py:33 | index just past the last non-whitespace character, with only whitespace after it |
| CellText.Strip | dhs_page_watcher.py:33 | `strip()` returns a slice of the input; only whitespace lies outside it, and the result neither starts nor ends with whitespace |
| CellText.RemoveBackslashN | dhs_page_watcher.py:33 | `replace("\\n", "")` never lengthens the text |
| CellText.NoOccurrenceUnchanged | dhs_page_watcher.py:33 | a text without backslash-n is returned unchanged |
| CellText.RemoveDistributes | dhs_page_watcher.py:33 | removal distributes over concatenation when the first part does not end in a backslash |
| CellText.FirstCharKept | dhs_page_watcher.py:33 | a first character that is not a backslash survives removal |
| CellText.CleanWithoutDoubledBackslash | dhs_page_watcher.py:33 | without two adjacent backslashes, the result holds no backslash-n |
| CellText.CleanCell | dhs_page_watcher.py:33 | strip, then remove: the cleaned cell is never longer than the raw one |
| CellText.CleanWithoutOccurrence | dhs_page_watcher.py:33 | a cell whose stripped text has no backslash-n cleans to that stripped text |
| CellText.RemovalCanLeaveLeadingSpace | dhs_page_watcher.py:33 | removal after stripping can expose leading whitespace: `\n x` cleans to ` x` |
| CellText.RemovalCanCreateOccurrence | dhs_page_watcher.py:33 | removal can form a new backslash-n: backslash, backslash-n, `n` cleans to backslash-n |
| Extraction.Width | dhs_page_watcher.py:34 | the frame width is the length of the longest row, 0 without rows |
| Extraction.CleanRow | dhs_page_watcher.py:33 | one row's cells, each cleaned, same length |
| Extraction.PadRow | dhs_page_watcher.py:34 | a row padded to the frame width with missing cells after its own |
| Extraction.PadInjective | dhs_page_watcher.py:34 | padding to a common width keeps distinct rows distinct |
| Extraction.CleanRows | dhs_page_watcher.py:30-33 | one cleaned row per `tr` of the document, with the width of the raw rows |
| Extraction.PaddedRows | dhs_page_watcher.py:34 | every row padded to the frame width |
| Extraction.RawContentToTable | dhs_page_watcher.py:28-36 | fails with no table exactly when the page has none; fails with a length mismatch exactly when the first table's header count differs from the width; otherwise the columns are the first table's headers, every row has their length, and no two rows are equal |
| Extraction.ExtractedRows | dhs_page_watcher.py:30-34 | the rows are the padded cleaned rows at increasing positions, namely those whose cleaned cells did not occur in an earlier `tr` |
| Extraction.FirstOccurrenceUnderPadding | dhs_page_watcher.py:34 | a row is a first occurrence after padding exactly when it was before |
| Extraction.WidthOfSameLengths | dhs_page_watcher.py:33-34 | cleaning each cell keeps the frame width |
| Extraction.HeaderOnlyRowKept | dhs_page_watcher.py:30-34 | a `tr` without `td` cells yields an all-missing row in the table |
| Dedup.Keys | dhs_page_watcher.py:46 | the `subset` projection of every row, in order |
| Dedup.Select | dhs_page_watcher.py:46-49 | the rows at the given positions, in order |
| Dedup.FirstIndices | dhs_page_watcher.py:34 | the keep-first positions among the first `hi`: at most `hi` of them, each below `hi` (order and exactness are `Dedup.FirstIndicesSpec`) |
| Dedup.LastIndices | dhs_page_watcher.py:46 | the keep-last positions from `lo` on: each at least `lo` and within the sequence (order and exactness are `Dedup.LastIndicesSpec`) |
| Dedup.FirstIndicesSpec | dhs_page_watcher.py:48 | keep-first keeps, in increasing order, exactly the positions whose key did not occur earlier |
| Dedup.LastIndicesSpec | dhs_page_watcher.py:46 | keep-last keeps, in increasing order, exactly the positions whose key does not occur later |
| Dedup.KeepFirst | dhs_page_watcher.py:48 | the scan over the array returns the keep-first positions |
| Dedup.KeepLast | dhs_page_watcher.py:46 | the backward scan over the array returns the keep-last positions |
| Dedup.DropDuplicates | dhs_page_watcher.py:34 | `drop_duplicates()` is never longer than its input |
| Dedup.DropDuplicatesSpec | dhs_page_watcher.py:34 | the result has no two equal rows, holds exactly the input's rows, and keeps each at its first occurrence, in order |
| Dedup.FirstOccurrence | dhs_page_watcher.py:34 | every element has a first occurrence at or before it |
| Dedup.DropDuplicatesIdempotent | dhs_page_watcher.py:34 | dropping duplicates twice equals dropping them once |
| Dedup.DistinctUnchanged | dhs_page_watcher.py:34 | a frame without duplicates is returned unchanged |
| Dedup.AllIndicesKept | dhs_page_watcher.py:34 | without duplicates, keep-first keeps every position |
| Dedup.Filter | dhs_page_watcher.py:47 | boolean masking keeps exactly the elements that pass, never more |
| Dedup.FilterNone | dhs_page_watcher.py:47 | a mask that nothing passes leaves nothing |
| Dedup.FilterIncreasing | dhs_page_watcher.py:47-49 | masking keeps the original order |
| Dedup.IncreasingByMembers | dhs_page_watcher.py:46-49 | two increasing position lists with the same members are equal |
| Dedup.Shift | dhs_page_watcher.py:45 | positions of the newer frame move past the older rows in the stack |
| Dedup.ShiftSpec | dhs_page_watcher.py:45 | shifting keeps the order and moves every member by the offset |
| Dedup.LastIndicesConcat | dhs_page_watcher.py:45-46 | keep-last on older then newer: an older position survives exactly when it is last among the older keys and absent from the newer ones; a newer position exactly when it is last among the newer keys |
| Dedup.FirstIndicesConcat | dhs_page_watcher.py:45-48 | keep-first on older then newer: an older position survives exactly when it is first among the older keys; a newer one exactly when it is first among the newer keys and absent from the older ones |
| Dedup.LastAbsent | dhs_page_watcher.py:46-47 | each chosen position holds a key that the other side lacks |
| Dedup.FirstAbsent | dhs_page_watcher.py:48-49 | each chosen position holds a key that the other side lacks |
| Dedup.LastOccurrence | dhs_page_watcher.py:46 | every element has a last occurrence at or after it |
| Dedup.LastAbsentSpec | dhs_page_watcher.py:46-47 | the chosen elements are distinct and are exactly the elements of one side missing from the other |
| Dedup.FirstAbsentSpec | dhs_page_watcher.py:48-49 | the chosen elements are distinct and are exactly the elements of one side missing from the other |
| Dedup.LastAbsentComplete | dhs_page_watcher.py:46-47 | every element of one side missing from the other is chosen |
| Dedup.FirstAbsentComplete | dhs_page_watcher.py:48-49 | every element of one side missing from the other is chosen |
| Dedup.AppendedDifference | dhs_page_watcher.py:46-49 | against a list with one new element appended, nothing is missing from the longer list and only that element is new |
| Dedup.ReplacedDifference | dhs_page_watcher.py:46-49 | between two different one-element lists, each side's element is the only one missing from the other |
| Dedup.NothingAbsentFromItself | dhs_page_watcher.py:46-49 | compared with itself, no key is missing, so nothing is chosen |
| Dedup.LastOfFirstPart | dhs_page_watcher.py:45-47 | keep-last on the stack, filtered to the older tag, equals the older positions whose key is last among older keys and absent from newer ones |
| Dedup.FirstOfSecondPart | dhs_page_watcher.py:45-49 | keep-first on the stack, filtered to the newer tag, equals the newer positions whose key is first among newer keys and absent from older ones, shifted past the older rows |
| Tables.IndexOf | dhs_page_watcher.py:40 | the first column with the given label |
| Tables.IndexOfDistinct | dhs_page_watcher.py:40 | with distinct labels, a label's position is its index |
| Tables.Lookup | dhs_page_watcher.py:40-45 | one row's cell under a label (`df[name]`, line 40, for a label the frame has); the missing value for a label the row's frame lacks, as `pd.concat` fills it when aligning frames (line 45). The KeyError of `df[name]` on an absent label is `Diff.SurveyTypeColumn`'s |
| Tables.Align | dhs_page_watcher.py:45 | a row laid out under other labels, reading each label of the new layout |
| Tables.LookupAligned | dhs_page_watcher.py:45 | after alignment, a label of the new layout reads the original cell |
| Tables.AlignTwice | dhs_page_watcher.py:45-47 | aligning through a wider layout equals aligning directly |
| Tables.AlignSelf | dhs_page_watcher.py:45 | aligning a row to its own distinct labels changes nothing |
| Tables.Column | dhs_page_watcher.py:47 | `df[name]` as a column, one cell per row |
| Tables.WithColumn | dhs_page_watcher.py:40-44 | `df[name] = values` keeps the frame well formed; it overwrites an existing label or appends a new one, the column then reads `values`, and every other column is unchanged |
| Tables.IndexOfPrefix | dhs_page_watcher.py:41-44 | appending columns keeps the positions of existing labels |
| Tables.ColumnUnion | dhs_page_watcher.py:45 | the stacked frame's columns: the older ones first, then only labels of the newer frame that are not already present, each once; every label of either frame appears |
| Tables.ColumnUnionCovered | dhs_page_watcher.py:45 | stacking frames of one layout keeps that layout |
| Tables.Constant | dhs_page_watcher.py:43-44 | a scalar broadcast to every row |
| Diff.AsString | dhs_page_watcher.py:40 | `str()` of a cell: its text, or `None` for the missing value |
| Diff.RowKey | dhs_page_watcher.py:40 | one row's `SurveyType`: missing exactly when its `Type` is; otherwise the row's `Survey` as a string followed by its `Type` |
| Diff.SurveyTypeCell | dhs_page_watcher.py:40-41 | `Survey` as a string (`None` when missing) followed by `Type`, no separator; missing exactly when `Type` is missing |
| Diff.SurveyTypeColumn | dhs_page_watcher.py:40-41 | KeyError on `Survey` when it is absent, otherwise on `Type` when that is absent; otherwise the key of row `i` is that row's `SurveyType` |
| Diff.WithSurveyType | dhs_page_watcher.py:40-41 | succeeds exactly when `Survey` and `Type` exist; then `SurveyType` is overwritten or appended, reads each row's key, and every other column is unchanged |
| Diff.Tagged | dhs_page_watcher.py:43-44 | `version` is overwritten or appended and reads the tag in every row; every other column is unchanged |
| Diff.Stage | dhs_page_watcher.py:40-44 | succeeds exactly when both frames have `Survey` and `Type`; the older frame's KeyError is raised first; the staged frames keep their row counts; the comparison columns are exactly the older frame's columns after `SurveyType` is added, so they include `version` exactly when the older page has such a column |
| Diff.StageWell | dhs_page_watcher.py:40-44 | after staging, each frame is tagged throughout, and the comparison columns are columns of the older frame |
| Diff.AlignRows | dhs_page_watcher.py:45 | each row of a frame aligned to the stacked layout |
| Diff.FullColumns | dhs_page_watcher.py:45 | the stacked columns start with the older frame's and hold exactly the labels of either frame |
| Diff.FullSet | dhs_page_watcher.py:45 | the stacked frame is the older rows, then the newer rows, each aligned to the stacked columns |
| Diff.KeyOf | dhs_page_watcher.py:46-48 | the `subset` of `drop_duplicates`: a stacked row read under the comparison columns |
| Diff.HasTag | dhs_page_watcher.py:47-49 | the mask `full_set['version'] == tag`: a stacked position passes exactly when its `version` reads the tag |
| Diff.OutputColumns | dhs_page_watcher.py:47-49 | `.drop(['version'], axis=1)`: exactly the stacked labels other than `version` |
| Diff.Outcome | dhs_page_watcher.py:47-49 | the picked stacked rows under the columns without `version`, well formed, one per picked position, each label reading the stacked cell |
| Diff.DiffStaged | dhs_page_watcher.py:45-49 | both results share the columns of the stack without `version`, are well formed, and hold no more rows than the stack |
| Diff.GetDiffSpec | dhs_page_watcher.py:39-50 | `get_diff` on values: succeeds exactly when both frames have `Survey` and `Type`, the older frame's KeyError first; both results share columns that include `SurveyType` and not `version` |
| Diff.Frame.constructor | dhs_page_watcher.py:39 | a frame holding the given table |
| Diff.Frame.SetColumn | dhs_page_watcher.py:40-44 | the caller's frame becomes `WithColumn` of its old value, still well formed |
| Diff.StageFrames | dhs_page_watcher.py:40-44 | mutates both frames exactly as staging says; on a KeyError it leaves exactly the columns already added |
| Diff.DiffStagedFrames | dhs_page_watcher.py:45-49 | the array scans and masks give the removed and added rows of the staged frames |
| Diff.GetDiff | dhs_page_watcher.py:39-50 | returns the specified diff or KeyError; leaves `SurveyType` and `version` on the caller's frames on success, and exactly the columns added before a KeyError |
| DiffProperties.StackedKeys | dhs_page_watcher.py:42-46 | a stacked row read under the comparison columns equals the original row read under them |
| DiffProperties.StackedTags | dhs_page_watcher.py:43-47 | a stacked position is tagged `old` exactly when it comes from the older frame, and `new` otherwise |
| DiffProperties.PickedPositions | dhs_page_watcher.py:45-49 | the two dedup-and-mask steps pick exactly the reference removed and added positions |
| DiffProperties.OutputWithin | dhs_page_watcher.py:47 | the output columns are columns of the stacked frame |
| DiffProperties.OutcomeOfOlder | dhs_page_watcher.py:47 | picked older rows, without `version`, are those rows under the output columns |
| DiffProperties.OutcomeOfNewer | dhs_page_watcher.py:49 | picked newer rows, without `version`, are those rows under the output columns |
| DiffProperties.DiffStagedIsSetDifference | dhs_page_watcher.py:45-49 | removed rows are the older rows, last per key, whose key no newer row has; added rows are the newer rows, first per key, whose key no older row has; both are under the stacked columns without `version` |
| DiffProperties.ShownInOutput | dhs_page_watcher.py:42-47 | without a page column named `version`, the comparison columns survive into the output |
| DiffProperties.KeysRecoverable | dhs_page_watcher.py:42-49 | when the comparison columns do not include `version` (the older page has no `version` column), an output row still determines its comparison key |
| DiffProperties.PickedKeys | dhs_page_watcher.py:46-49 | rows picked where the other side lacks the key carry keys the other side lacks |
| DiffProperties.DiffDisjoint | dhs_page_watcher.py:46-49 | when the comparison columns do not include `version` (the older page has no `version` column): every removed row's key occurs among older keys and not newer ones, and the other way round for added rows; no row is both removed and added |
| DiffProperties.GetDiffDisjoint | dhs_page_watcher.py:39-50 | for two pages with `Survey` and `Type` where the older page has no `version` column, `get_diff` succeeds and no row is both removed and added |
| DiffProperties.TaggedKeys | dhs_page_watcher.py:43-44 | for a frame without a `version` column, tagging leaves the comparison columns of every row unchanged |
| DiffProperties.GetDiffIdentity | dhs_page_watcher.py:39-50 | `get_diff(A, A)` removes and adds nothing, for a table with `Survey` and `Type` and no `version` column |
| DiffProperties.TagInKeys | dhs_page_watcher.py:42-44 | when `version` is a comparison column, no older key equals a newer key |
| DiffProperties.VersionColumnBreaksIdentity | dhs_page_watcher.py:42-44 | a non-empty table with its own `version` column, compared with itself, has both removed and added rows |
| DiffProperties.VersionColumnSharedRow | dhs_page_watcher.py:39-50 | a one-row table with `Survey`, `Type` and its own `version` column, compared with itself, reports the same output row both as removed and as added |
| DiffProperties.OutputColumnsDropVersion | dhs_page_watcher.py:47-49 | dropping `version` from a layout ending in it gives back the layout before it |
| DiffProperties.SurveyTypeAppended | dhs_page_watcher.py:40-41 | without an existing `SurveyType`, each row gains the key computed from itself as its last cell |
| DiffProperties.SameSchemaLayout | dhs_page_watcher.py:40-45 | with one layout of distinct labels that includes `Survey` and `Type` and neither `SurveyType` nor `version`, both staged frames have that layout plus `SurveyType` and `version`, which is also the stacked layout |
| DiffProperties.SameSchemaStaging | dhs_page_watcher.py:40-45 | with one layout of distinct labels that includes `Survey` and `Type` and neither `SurveyType` nor `version`, each comparison key is the row with its `SurveyType`, and the output columns are the comparison columns |
| DiffProperties.SameSchemaDiff | dhs_page_watcher.py:39-50 | with one layout of distinct labels that includes `Survey` and `Type` and neither `SurveyType` nor `version`, `get_diff` succeeds; removed rows are exactly the keyed older rows missing from the keyed newer rows, added rows the converse; each appears once, under the frame's columns plus `SurveyType` |
| DiffProperties.KeyedInjective | dhs_page_watcher.py:40-42 | `SurveyType` adds no distinction: two rows of one layout are equal with it exactly when equal without it |
| DiffProperties.KeyedMembership | dhs_page_watcher.py:40-42 | for a frame with `Survey` and `Type` and no `SurveyType` column, and a row of its width, a keyed row is among a frame's keyed rows exactly when the plain row is among its rows |
| DiffProperties.RowDifference | dhs_page_watcher.py:40-49 | keyed rows of one side missing from the other are the keyed forms of its plain rows missing from the other |
| DiffProperties.GetDiffIsRowDifference | dhs_page_watcher.py:39-50 | with one layout of distinct labels that includes `Survey` and `Type` and neither `SurveyType` nor `version`, it succeeds. Removed rows are exactly the older rows absent from the newer table, and added rows exactly the newer rows absent from the older one. Each gets its `SurveyType` and appears once |
| DiffProperties.KeyedAppended | dhs_page_watcher.py:40-41 | appending a new row appends its keyed form, which the older keyed rows lack |
| DiffProperties.AppendedRowDiff | dhs_page_watcher.py:39-50 | a row appended to a page of one layout: nothing is removed and exactly that row, with its `SurveyType`, is added |
| DiffProperties.KeyedReplaced | dhs_page_watcher.py:40-41 | two different single rows have different keyed forms |
| DiffProperties.ReplacedRowDiff | dhs_page_watcher.py:39-50 | a one-row page whose row changed: exactly the old row is removed and exactly the new one added |
| DiffProperties.KeyOfThreeColumns | dhs_page_watcher.py:40 | under `Survey`, `Type` and a third column, the key is `Survey` followed by `Type` |
| DiffProperties.CountryAddedScenario | dhs_page_watcher.py:39-50 | older has one country, newer adds a second: nothing is removed, and the added row carries `Survey`+`Type` |
| DiffProperties.RowModifiedScenario | dhs_page_watcher.py:39-50 | one row whose date changed: the old row is removed and the new one added, both with the same `SurveyType` |
| Watcher.CheckPage | dhs_page_watcher.py:103-109 | a run is quiet exactly when the check says same. Without a snapshot it records only the second fetch; an unchanged page records nothing. A report comes only for a changed page, records that page, and carries `get_diff` of the two extracted tables; an extraction crash means one of the two extractions failed, and carries the older extraction's error whenever that one failed; a diff crash happens exactly when the page changed, both extractions succeed and `get_diff` raises |
| Watcher.TimestampOnlyChangeIsQuiet | dhs_page_watcher.py:64-65 | a snapshot that differs from the page only in its first 200 characters gives a quiet run that records nothing |
| Watcher.ChangedPageIsReported | dhs_page_watcher.py:103-109 | a changed page whose two extractions both have `Survey` and `Type` is reported with exactly their diff, and recorded |

## Left out

- `fetch_data` (lines 11-16) is an HTTP POST. The fetched text is an input of the model. The fall-through after a failed fetch (lines 97-103), which uses an unbound variable, is not modelled.
- `record_data` (lines 19-25) creates a directory named by the wall clock and writes a file. The model returns the text to record instead.
- The filesystem part of `data_is_the_same` (lines 55-63) lists directories and picks the latest by modification time. The latest snapshot is an `Option<string>` input.
- `send_email` (lines 68-93) reads a JSON configuration and sends mail over SMTP. It is I/O and not modelled, so the watcher's report is the diff value.
- HTML parsing by BeautifulSoup and lxml (lines 29-32) is a foreign library. Its output is the `Page` value: `th` texts per table and `td` texts per `tr`.
- `to_html` rendering (line 119) and the `print` calls are output only.
- Tables.Lookup: when a frame has two columns with the same label, pandas returns both columns, but the model reads the first one. Repeated labels can occur on the page, since blank `th` cells all give `""`.
- Diff.GetDiffSpec: with a repeated column label, the model's `get_diff` differs from the code in two ways. Through `Diff.FullSet`, `Diff.KeyOf` and `Diff.Outcome`, it compares and prints only the first column of each label. With one layout `[Survey, Type, D, D]`, an older row `[s, t, a, b]` and a newer row `[s, t, a, c]`, the model reports nothing, while pandas keeps both `D` columns and reports the row as removed and as added. And when the two layouts differ and one of them repeats a label, `pd.concat` raises on the non-unique columns, while the model still returns a diff. The properties in `DiffProperties` that matter for these cases (`SameSchemaDiff`, `GetDiffIsRowDifference`) require distinct labels.
- Extraction.RawContentToTable: a frame with zero columns is not special-cased. pandas returns such a frame from `drop_duplicates` without removing duplicate rows; the model drops them as for any other frame.
- Diff.GetDiff: requires two distinct frame objects. `get_diff(df, df)` on one object, where tagging `new` overwrites `old`, is not modelled.
- Diff.Outcome: the frames `get_diff` returns keep their pandas index, the positions of their rows in the stacked frame, and `to_html` prints that index (line 119). The model computes those positions (`Diff.DiffStaged`) but the returned tables hold only the rows, not the index.
- Diff.SurveyTypeCell: pandas' dtype handling is not modelled. Every cell is text or missing, and string concatenation with a missing `Type` gives a missing key.
