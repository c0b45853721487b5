# Forensic timeline merge — a Dafny model

This project models the part of the memory-forensics tool that turns
tabular forensic exports into one timeline. The tool runs three outside
programs: EvtxECmd for Windows event logs, Volatility for a memory image,
and RECmd for registry hives. Their CSV and JSON outputs are then merged.
The tool has three versions of the merge step, and each is modelled
separately, together with the two string filters that prepare the
event-log files Volatility dumps.

- `mp3.py` `merge_forensic_data` (module `NormalizedMerge`):
  - It classifies every CSV export by its marker columns.
  - It derives `Timeline (UTC)`, `ArtifactType` and `Description`, and builds
    the `UserInfo` and `ProcessDetails` composites.
  - It moves the normalised columns to the front.
  - It concatenates all files that load, drops a fixed list of raw columns,
    and sorts by timeline with missing times first.
- `EVTX_Mem_Registry_Analyzer.py` `merge_forensic_data` (module `KeywordTimeline`):
  - It loads the first event-log and the first registry export and tags each
    with `Data_Source`.
  - For each table it picks a time column and a description column by
    keywords in the column names.
  - As written, it reads `timeline_entries` before assigning it, so it
    never builds the timeline and always returns False. Both the
    as-written run and the evidently intended run are modelled (see
    Findings).
- `mergeTest.py` `merge_forensic_data` (module `ProjectedTimeline`):
  - It projects each source onto three fixed columns and adds a `Source`
    label.
  - It concatenates event log, `pslist`, then registry, without sorting.
- `extract_evtx_offsets` and the rename test of `rename_and_move_evtx_files`
  (module `DumpFiles`). These are identical in `mp3.py` and
  `EVTX_Mem_Registry_Analyzer.py`.

Shared pieces:

- `Frame` models the DataFrame operations the code relies on:
  - column assignment;
  - `df[cols]`;
  - `pd.concat` with its first-seen column union.

  A row is a map from column name to a cell (`Null | Str | Num | Time`), and
  a table is an ordered column list plus rows.
- `Text` holds the string helpers: ASCII lower-casing, substring tests and
  `" | ".join`.
- `RowSort` models `sort_values`. pandas' default sort is not stable, so
  the model promises only order and permutation. The insertion sort is one
  admissible result.
- Inputs that would require I/O become parameters:
  - a CSV file is `Parsed(table)` or `Unreadable`;
  - a Volatility output is `Missing`, `InvalidJson`, `Unframeable` or `Frame(table)`.
- Timestamp parsing is an uninterpreted `parse: Value -> Option<int>`.
- `str(v)` is an uninterpreted `toStr`.
- The wall clock is a `now` parameter.

Where the tool's behaviour differs from what one might expect, the model
follows the code:

- The artifact labels are `Evtx`, `Registry` and `Unknown`. There is no
  memory-process label in `mp3.py`.
- In the keyword version a table without a time column gets the run's
  current time (`now`), not a missing timestamp.
- The sorts are pandas' default `sort_values`. They are not stable, so no
  tie order is promised.
- The row-summary description of the keyword version is never used.
  `Data_Source` is added before the columns are scanned and contains
  "data", so a description column always exists (`EntryDescription`).
  When `Data_Source` is that column, the description is the source's tag.
- A registry export lacking `Description` or `Comment` is not degraded
  gracefully. `"".astype` raises, and that file is skipped.
- The projection version raises, and the run returns False, when a
  non-empty source lacks one of its projected columns.

## Model

| member | source | states |
|---|---|---|
| NormalizedMerge.PreparedArtifactType | mp3.py:172-187 | every row of a prepared file gets type `Evtx` if `TimeCreated` is a column (even when `LastWriteTimestamp` is too), else `Registry` if `LastWriteTimestamp` is, else `Unknown`; the row count is kept |
| NormalizedMerge.PreparedTimeline | mp3.py:172-187 | the timeline cell is the coerced `TimeCreated` cell for event logs, the coerced `LastWriteTimestamp` cell for registry exports, and missing otherwise; a cell the parser rejects becomes missing |
| NormalizedMerge.PreparedDescription | mp3.py:177-187 | the description is `MapDescription` for event logs (missing if that column is absent), `str(Description) + " | " + str(Comment)` for registry exports, and missing for unknown exports |
| NormalizedMerge.PrepareFailsIff | mp3.py:178-182 | a file fails exactly when it is a registry export (no `TimeCreated`, has `LastWriteTimestamp`) lacking `Description` or `Comment` |
| NormalizedMerge.LoadedSkipsFailure | mp3.py:167-223 | a file that fails to load is skipped and the other files load exactly as without it |
| NormalizedMerge.LoadedAppend | mp3.py:167-220 | loading a list of files is loading each part in turn, in file order |
| NormalizedMerge.LoadedFrom | mp3.py:167-223 | the loaded tables are exactly the prepared tables of the files that load |
| NormalizedMerge.PreparedCompositeColumns | mp3.py:190-212 | a prepared file has `UserInfo` / `ProcessDetails` exactly when it had that column already or has all of its members |
| NormalizedMerge.PreparedComposites | mp3.py:190-212 | when all members are columns, each row's composite is the composite of that row's original member cells |
| NormalizedMerge.CompositeEmptyIff | mp3.py:191-199 | a composite is the empty string exactly when every member is missing or empty |
| NormalizedMerge.PresentIff | mp3.py:193-198 | a member takes part in a composite exactly when it is one of the keys and its cell is neither missing nor empty |
| NormalizedMerge.PiecesExact | mp3.py:192-198 | there is exactly one `key: val` piece per member that is neither missing nor empty, in key order, and no other piece |
| NormalizedMerge.CompositeExact | mp3.py:191-199 | a composite is `" | ".join` of exactly those pieces |
| NormalizedMerge.CompositeAppend | mp3.py:191-199 | the composite over two runs of members is the two composites in key order, with one `" | "` between them when both are non-empty |
| NormalizedMerge.CompositeOne | mp3.py:193-198 | a single member gives `key: value`, or the empty string when its cell is missing or empty |
| NormalizedMerge.CompositeReadsOnlyKeys | mp3.py:191-199 | a composite depends on nothing but the row's member cells |
| NormalizedMerge.PreparedColumns | mp3.py:214-218 | a prepared file's columns start with the three normalised ones in fixed order, then the file's other columns in their order, then the new composites; no other names appear |
| NormalizedMerge.MergeNoDataIff | mp3.py:225-227 | nothing is written exactly when no file loads |
| NormalizedMerge.MergedColumnsExact | mp3.py:229-241 | the merged columns are the normalised three, then the other columns of the loaded files in first-seen order without duplicates; excluded raw columns never appear (except `Description` as the normalised column) |
| NormalizedMerge.MergedRows | mp3.py:229-244 | the merged table has as many rows as the loaded files together; they are sorted by timeline with missing times first and are a rearrangement of the loaded rows laid out on the merged columns |
| NormalizedMerge.MergedNullsFirst | mp3.py:244 | no row with a missing timeline follows a row with a present one |
| NormalizedMerge.MergedRowFrom | mp3.py:229-244 | every merged row is some loaded row laid out on the merged columns |
| NormalizedMerge.MergedCells | mp3.py:172-244 | every merged row has an artifact type naming one of the three kinds and a timeline that is an instant or missing |
| KeywordTimeline.FirstMentioned | EVTX_Mem_Registry_Analyzer.py:215-230 | the chosen column is in the list and mentions a keyword, no earlier column does, and there is none exactly when no column mentions a keyword |
| KeywordTimeline.FirstMentionedAppend | EVTX_Mem_Registry_Analyzer.py:215-220 | searching two column lists joined finds the first list's match if it has one |
| KeywordTimeline.SourceColNamesNoTime | EVTX_Mem_Registry_Analyzer.py:215-216 | `Data_Source` mentions no time keyword |
| KeywordTimeline.SourceColNamesData | EVTX_Mem_Registry_Analyzer.py:219-220 | `Data_Source` mentions the description keyword "data" |
| KeywordTimeline.StampColNamesNoDescription | EVTX_Mem_Registry_Analyzer.py:219-220 | `Timestamp` mentions no description keyword |
| KeywordTimeline.TaggedTimeColumn | EVTX_Mem_Registry_Analyzer.py:162-172 | tagging does not change which column is the time column |
| KeywordTimeline.TaggedDescColumn | EVTX_Mem_Registry_Analyzer.py:162-230 | a tagged table always has a description column: the untagged table's first one, or `Data_Source` |
| KeywordTimeline.EntryShape | EVTX_Mem_Registry_Analyzer.py:210-240 | every entry has exactly the columns `Timestamp`, `Description`, `Data_Source`, one row per source row, and the source's tag in every row |
| KeywordTimeline.EntryTimestamp | EVTX_Mem_Registry_Analyzer.py:222-226 | the timestamp is the cell of the first column mentioning a time keyword, or `now` when there is none |
| KeywordTimeline.EntryDescription | EVTX_Mem_Registry_Analyzer.py:228-236 | the description is the cell of the first column mentioning a description keyword; without one it is the source's tag, never the row summary |
| KeywordTimeline.SummaryAppend | EVTX_Mem_Registry_Analyzer.py:233-236 | the row summary over two runs of columns is the two summaries in column order, with one `" | "` between them when both are non-empty |
| KeywordTimeline.SummaryOne | EVTX_Mem_Registry_Analyzer.py:233-236 | a single column gives `column: value`, missing values included, and `Data_Source` gives nothing; with the previous row this fixes the summary of every column list |
| KeywordTimeline.SummaryEmptyIff | EVTX_Mem_Registry_Analyzer.py:233-236 | the row summary is empty exactly when `Data_Source` is the only column |
| KeywordTimeline.AnalyzerMerge | EVTX_Mem_Registry_Analyzer.py:144-264 | the run as written never succeeds and never builds a timeline; it saves at most two data sheets, each carrying `Data_Source` |
| KeywordTimeline.AnalyzerFirstFilesOnly | EVTX_Mem_Registry_Analyzer.py:158-176 | only the first event-log file and the first registry file matter |
| KeywordTimeline.AnalyzerSheets | EVTX_Mem_Registry_Analyzer.py:158-195 | a data sheet is saved exactly for each first file that reads, the event log's first, with its rows tagged `EVTX` or `Registry` |
| KeywordTimeline.ConvertStamps | EVTX_Mem_Registry_Analyzer.py:246-250 | timestamp conversion fails exactly when some cell does not convert; otherwise it converts the `Timestamp` cell of every row and changes nothing else |
| KeywordTimeline.Entries | EVTX_Mem_Registry_Analyzer.py:210-240 | one entry per loaded table, each with the three entry columns and that table's row count |
| KeywordTimeline.IntendedSucceedsIff | EVTX_Mem_Registry_Analyzer.py:178-260 | the corrected run succeeds, and builds a timeline, exactly when some first file reads; its data sheets are those of the as-written run |
| KeywordTimeline.IntendedTimeline | EVTX_Mem_Registry_Analyzer.py:242-254 | the corrected timeline has the entry columns and one row per loaded row; if every timestamp converts it is sorted by time with missing times last and is a rearrangement of the converted rows, otherwise it is the entries' rows in order |
| KeywordTimeline.SameColumnsUnion | EVTX_Mem_Registry_Analyzer.py:244 | entries with the same distinct columns concatenate to exactly those columns |
| ProjectedTimeline.PartContribution | mergeTest.py:140-155 | a source is skipped exactly when it is empty and raises exactly when it is non-empty and lacks a projected column; otherwise it contributes one row per source row, each holding the projected cells, `Source` set to the tag, and no other cell |
| ProjectedTimeline.ProjectedFailsIff | mergeTest.py:101-167 | the run returns False exactly when a CSV cannot be read, a Volatility output cannot be framed, or a non-empty source lacks one of its projected columns |
| ProjectedTimeline.ProjectedNoTimelineIff | mergeTest.py:137-163 | the run returns True without writing a timeline exactly when nothing fails and all three sources are empty |
| ProjectedTimeline.ProjectedSkipsUnreadable | mergeTest.py:109-116 | a Volatility output that is missing or not valid JSON changes nothing |
| ProjectedTimeline.ProjectedOnlyPslist | mergeTest.py:145-149 | replacing the framed output of a plugin other than `pslist` by any other framed output leaves the run's result and timeline unchanged; an unframeable output still fails the run, as `ProjectedFailsIff` states |
| ProjectedTimeline.ProjectedRows | mergeTest.py:137-160 | the timeline holds the event-log rows, then the `pslist` rows, then the registry rows, each in its own order; each row holds its source's projected cells and its `Source` label and nothing else; the row count is the sum |
| ProjectedTimeline.TaggedPart | mergeTest.py:103-121 | tagging with `Data_Source` changes neither emptiness, nor whether the projected columns are present, nor any projected cell |
| ProjectedTimeline.ProjectionCell | mergeTest.py:141-142 | a projected row holds the listed cells, the `Source` label, and nothing else |
| DumpFiles.ExtractEvtxOffsets | mp3.py:88-107 | the call raises exactly when some row is shorter than five items or has a non-string path; otherwise it returns the first item of every row whose lower-cased path contains `.evtx`, in row order |
| DumpFiles.OffsetsFromEvtxRows | EVTX_Mem_Registry_Analyzer.py:89-108 | an offset is returned exactly when some row has it as first item and a path containing `.evtx` in any letter case |
| DumpFiles.OffsetsInRowOrder | mp3.py:99-105 | the offsets of two runs of rows are the offsets of the first followed by those of the second |
| DumpFiles.OffsetsSkipOtherFiles | mp3.py:104-105 | a row whose path does not mention `.evtx` contributes nothing |
| DumpFiles.RenameTarget | mp3.py:134-136 | a renamed file's new name keeps the old name as prefix, adds `.evtx`, and still starts with `file.None.` |
| DumpFiles.RenameTargetIsFinal | mp3.py:134-136 | a new name would not pass the rename test again |
| DumpFiles.RenamePlanExact | mp3.py:133-137 | a listed file is renamed exactly when it starts with `file.None.` and ends with `.dat` or `.vacb`, and its new name is the old one plus `.evtx` |
| DumpFiles.RenamePlanNoClash | mp3.py:134-145 | for a listing without repeats, no two files get the same new name, and no new name is the name of a file the loop renames |
| RowSort.Sort | mp3.py:244 | the result is ordered by the key and is a permutation of the input |
| RowSort.NullKeysLead | mp3.py:244 | with missing keys first, no row with a missing key follows one with a present key |
| Frame.SetColumn | mp3.py:174-187 | assignment keeps the row count, keeps an existing column in place or appends a new one, and changes only that column's cells |
| Frame.SelectCells | mergeTest.py:141 | `df[cols]` has exactly `cols` and one row per input row, and each row holds the listed cells of its input row and no other cell |
| Frame.FirstSeen | mp3.py:230 | the concatenated column index holds each column of the inputs once |
| Frame.FirstSeenOrder | mp3.py:230 | the concatenated column index lists columns in order of first occurrence |
| Frame.ConcatRowsOffset | mergeTest.py:159 | row `j` of the `k`-th table sits after the rows of the tables before it, laid out on the union columns |
| Frame.ConcatRowsFrom | mp3.py:230 | every concatenated row is a row of some input laid out on the union columns |
| Frame.WithoutFirstSeen | mp3.py:240 | dropping columns after the union is the same as taking the union of what is left |
| Text.Lower | mp3.py:104 | `str.lower` keeps the length, turns each capital A-Z into its lower-case letter, leaves no capital letter, and changes no other character |
| Text.LowerIdempotent | EVTX_Mem_Registry_Analyzer.py:215-220 | lower-casing a lower-cased name changes nothing |
| Text.ContainsIsInfix | mp3.py:104 | the substring test holds exactly when the needle occurs at some position of the haystack |
| Text.JoinEmptyIff | mp3.py:192-198 | joining non-empty pieces gives the empty string exactly when there are no pieces |
| Text.JoinContainsPart | EVTX_Mem_Registry_Analyzer.py:234 | every piece occurs verbatim in the joined string |
| Text.JoinAppend | mp3.py:192-198 | joining two runs of pieces is the two joins with one separator between them when both runs are non-empty |

## Left out

- Running EvtxECmd, Volatility and RECmd, privilege elevation, `main`, and
  the Tkinter front end: they are foreign programs and process plumbing.
- File-system effects: `glob`, directory creation, `os.rename`,
  `os.remove`, CSV and JSON reading and CSV and Excel writing. Inputs are
  already-parsed tables, and a failed read is the `Unreadable` or `Missing`
  case.
- DumpFiles.RenamePlan: models which files are renamed and their new
  names, not the move itself. It also omits `mp3.py`'s deletion of an
  existing destination, since that is a file-system effect.
- The Excel workbook, its sheet names and failures while writing it. In
  `KeywordTimeline` the saved data sheets are recorded because the
  as-written run's outcome depends on reaching them.
- `pd.to_datetime` format inference, time zones and NaT formatting. These
  sit behind the `parse` parameter.
- pandas' `str()` of cells, including NaN printing as `nan`. This sits
  behind `toStr`.
- `datetime.now()` and `pd.Timestamp.now()`. These are the `now`
  parameter.
- ProjectedTimeline.ProjectedNoTimelineIff: when all three sources are empty the model
  returns True without a timeline. With pandas' openpyxl engine, closing a
  workbook with no sheet raises, and the run would return False instead.
  Whether that happens depends on the Excel engine, and Excel writing is
  not modelled.
- Text.Lower: folds only A-Z, while Python's `str.lower` also folds
  non-ASCII letters. Every keyword searched for is plain ASCII.
- DumpFiles.ExtractEvtxOffsets: does not model a JSON output without a
  `rows` key (a `KeyError`), since the rows are taken as already extracted.
- RowSort.Sort: is one admissible order, not pandas' actual tie order,
  because pandas' default sort is not stable. The contracts promise only
  what pandas promises: sortedness and permutation.
- Column names are assumed unique within a table. pandas renames
  duplicate CSV headers on read.

## Findings

| source | as written | input that shows it | evidently intended | confidence | as-written member | corrected member |
|---|---|---|---|---|---|---|
| EVTX_Mem_Registry_Analyzer.py:197-208 | `if timeline_entries:` at line 197 reads the local before its first assignment at line 208, so an `UnboundLocalError` reaches the outer handler and the function returns False on every run that loaded data, without building the timeline | one readable event-log CSV and no registry CSV | build the timeline (lines 205-254) before writing the workbook, save it as a sheet and a CSV, and return True | high, not executed | KeywordTimeline.AnalyzerMerge | KeywordTimeline.IntendedSucceedsIff, KeywordTimeline.IntendedTimeline |
