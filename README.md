# CSV watchdog monitor, modelled in Dafny

`csv_watchdog_monitor.py` watches an inbox directory for CSV files. Each run does the following:

- It keeps the files whose checksum did not change across a short pause.
- It validates each such file: it must decode, parse as CSV, and pass the frame checks.
- It merges the file into a master CSV keyed by a configured key column. This is an upsert: incoming rows replace master rows with the same key, and both tables are widened to the sorted union of their columns.
- It writes a metadata record describing the master.
- It moves the file to an archive and logs a summary of its keys.

A file that fails is logged, and the run goes on with the next file. In dry-run mode nothing is written or moved.

The model has these parts:

- `Tables` (tables.dfy): a table is a column list plus rows. A row maps a column name to a cell, and a null cell (pandas' NaN) is `None`. This module also has `reindex`, and a `Frame` class for the in-place `drop`.
- `Strings` (strings.dfy): Python's string order, `sorted` as an insertion sort, `sorted(set(...))`, ASCII `lower`, `endswith`/`startswith`, `join`, and `str` of a count.
- `MergeEngine` (merge.dfy): the merge of `process_file`. It includes the pruning loop, modelled as a method that drops columns from a `Frame` in place.
- `MergeProperties` and `MergeExamples` (merge_properties.dfy, merge_examples.dfy): what the merge guarantees, and one merge worked out in full.
- `Validation` (validation.dfy): `validate_dataframe`, and the order of checks in `process_file`.
- `Stability` (stability.dfy): `calculate_md5`'s size guard and `get_stable_files`. The scan loop is a method, proved equal to a filter.
- `Configuration` (config.dfy): the built-in settings and `_validate_config`.
- `Archive` (archive.dfy): the cluster summary of `_archive_file`.
- `MetadataRecord` (metadata.dfy): the record of `_save_metadata`.
- `Monitor` (monitor.dfy): `process_file` and `process_all`. The filesystem is modelled as a value, `Store`. A `WatchdogMonitor` class holds the dry-run switch, and its `ProcessAll` loop is proved equal to a fold over the stable paths.

Some of what the code does differs from what its own structure suggests. The model follows the code:

- **Columns are never pruned.** Lines 206-209 are a loop meant to drop obsolete columns: every master column missing from the incoming file, other than the key, that is null on all updated rows. It logs "Dropped obsolete column" for each one. But lines 200-201 have already reindexed both frames onto the column union, so the loop's candidate set, `set(base_df.columns) - set(new_df.columns) - {KEY_COLUMN}`, is always empty and the loop never drops anything. `MergeEngine.Merge` proves that the merge equals the plain upsert. `MergeExamples.ObsoleteColumnKept` works through one case. The master has columns `[id, a, b]` and one row `id=1, a=x, b=y`. The incoming file has columns `[id, a]` and one row `id=1, a=x2`. The loop's intent would drop `b`, since it is null on the one updated row. The code keeps it: the result has columns `[a, b, id]` and the single row `a=x2, b=null, id=1`.
- **Duplicate keys are not removed.** Duplicate keys inside one incoming file survive the merge (`MergeProperties.DuplicateIncomingKeysSurvive`).
- **Listing order is kept.** Files are processed in directory-listing order.

All line numbers below refer to `csv_watchdog_monitor.py`.

## Model

| member | source | states |
|---|---|---|
| Common.Distinct | csv_watchdog_monitor.py:225 | `unique()` gives each value once: no duplicates, and the same set of values as the input |
| Common.DistinctPrefix | csv_watchdog_monitor.py:225 | `unique()` keeps first-occurrence order: the unique values of a prefix are a prefix of the unique values of the whole |
| Common.DistinctOfDistinct | csv_watchdog_monitor.py:225 | a duplicate-free list is its own `unique()` |
| Common.AppendNew | csv_watchdog_monitor.py:141 | appending a path not yet in the list keeps it duplicate-free |
| Common.NoDuplicatesCard | csv_watchdog_monitor.py:235 | a duplicate-free list has as many elements as its set |
| Strings.LessIrreflexive | csv_watchdog_monitor.py:199 | no string is below itself in Python's string order |
| Strings.LessTransitive | csv_watchdog_monitor.py:199 | Python's string order is transitive |
| Strings.LessTotal | csv_watchdog_monitor.py:199 | any two different strings are ordered one way or the other |
| Strings.Sort | csv_watchdog_monitor.py:226 | `sorted` returns an ascending permutation of its input |
| Strings.SortedSet | csv_watchdog_monitor.py:199 | `sorted(set(xs))` is strictly ascending and holds exactly the elements of `xs` |
| Strings.StrictlySortedUnique | csv_watchdog_monitor.py:199 | two strictly ascending lists with the same elements are equal, so `sorted(set(...))` does not depend on set iteration order |
| Strings.StrictlySortedNoDuplicates | csv_watchdog_monitor.py:199 | a strictly ascending list repeats nothing |
| Strings.Lower | csv_watchdog_monitor.py:132 | `lower()` keeps the length and maps each ASCII capital to its lower-case letter, leaving every other character |
| Strings.StartsWith | csv_watchdog_monitor.py:75 | `str.startswith`: the prefix is no longer than the text and equals its first characters |
| Strings.EndsWith | csv_watchdog_monitor.py:132 | `str.endswith`: the suffix is no longer than the text and equals its last characters |
| Strings.NatToStringRoundTrip | csv_watchdog_monitor.py:228 | the decimal text of the total reads back as the same number |
| Strings.Join | csv_watchdog_monitor.py:226 | `', '.join(...)` begins with the first part and ends with the last, and with two or more parts the separator follows the first |
| Strings.NatToString | csv_watchdog_monitor.py:228 | `str(len(clusters))`: a non-empty string of decimal digits with no leading zero unless the number is 0; `Strings.NatToStringRoundTrip` states that it reads back as the number |
| Tables.Reindex | csv_watchdog_monitor.py:200-201 | a reindexed row has exactly the target columns; a cell the row had is kept and a missing one is null |
| Tables.ReindexRows | csv_watchdog_monitor.py:200-201 | `reindex(columns=...)` on a frame: as many rows as before, row `i` being row `i` reindexed |
| Tables.Column | csv_watchdog_monitor.py:225 | `df[KEY_COLUMN]`: one cell per row, in row order, each the row's cell in that column or null |
| Tables.IsEmpty | csv_watchdog_monitor.py:157 | `df.empty`: true when the frame has no rows or no columns; `Validation.ValidateTable` states that such a frame fails first |
| Tables.ReindexIdentity | csv_watchdog_monitor.py:200-201 | reindexing a row onto the columns it already has changes nothing |
| Tables.ReindexKeepsCells | csv_watchdog_monitor.py:200-201 | reindexing never changes a cell of a column in the target list |
| Tables.RemoveColumns | csv_watchdog_monitor.py:208 | dropping labels leaves exactly the other columns and never adds one; the order is stated by `Tables.RemoveColumnsAppend` |
| Tables.RemoveColumnsAppend | csv_watchdog_monitor.py:208 | dropping labels works label by label over a concatenation, so the columns that stay keep their relative order |
| Tables.RemoveTwice | csv_watchdog_monitor.py:206-208 | dropping one set of columns and then another is dropping their union |
| Tables.Frame.DropColumn | csv_watchdog_monitor.py:208 | `drop(columns=col, inplace=True)` removes the label from the frame's column list and from every row |
| MergeEngine.AllColumns | csv_watchdog_monitor.py:199 | the merged column list is strictly ascending and is the union of both column lists |
| MergeEngine.NewKeys | csv_watchdog_monitor.py:198 | the set of incoming keys; its meaning is stated by `MergeEngine.NewKeysMeaning` |
| MergeEngine.NewKeysMeaning | csv_watchdog_monitor.py:198 | a key is new exactly when some incoming row has it |
| MergeEngine.EmptyLike | csv_watchdog_monitor.py:194-196 | the frame with the incoming columns and no rows, used when the master is missing or unreadable; its effect on the merge is stated by `MergeProperties.EmptyMasterUpsert` |
| MergeEngine.Survivors | csv_watchdog_monitor.py:203 | the filter never adds a row; which rows stay is stated by `MergeEngine.SurvivorsMembers` and their order by `MergeProperties.SurvivorsAppend` |
| MergeEngine.SurvivorsMembers | csv_watchdog_monitor.py:203 | a master row survives the filter exactly when its key is not an incoming key |
| MergeEngine.Upsert | csv_watchdog_monitor.py:198-204 | the reindex, filter and concatenation; its schema is stated by `MergeProperties.UpsertSchema` and its rows by `MergeProperties.UpsertRows` |
| MergeEngine.UpdatedRowsNull | csv_watchdog_monitor.py:207 | the loop's test, that a column is null on every row whose key is incoming; used by `MergeEngine.PruneObsolete` |
| MergeEngine.ObsoleteCandidates | csv_watchdog_monitor.py:206 | the loop's candidate set, master columns not in the incoming file, without the key; `MergeEngine.Merge` proves it empty after the reindex |
| MergeEngine.Pruned | csv_watchdog_monitor.py:206-208 | what the loop would leave, every candidate that passes the test gone from columns and rows; `MergeEngine.PruneObsolete` is proved to compute it |
| MergeEngine.Merge | csv_watchdog_monitor.py:198-208 | the merge as written, pruning loop included, equals the plain upsert: no column is ever dropped |
| MergeEngine.PrunedNothing | csv_watchdog_monitor.py:206-208 | a pruning loop over no candidates leaves the frame as it was |
| MergeEngine.UpdatedRowsNullAfterDrop | csv_watchdog_monitor.py:207 | dropping other columns does not change whether a column is null on the updated rows |
| MergeEngine.PruneObsolete | csv_watchdog_monitor.py:206-208 | the in-place loop drops, from the frame's column list and rows, exactly the candidates that are null on every row whose key is incoming |
| MergeEngine.MergeFrames | csv_watchdog_monitor.py:198-208 | building the merged frame and running the pruning loop on it gives `Merge` |
| MergeProperties.SurvivorsAppend | csv_watchdog_monitor.py:203 | the key filter keeps row order: it distributes over concatenation |
| MergeProperties.SurvivorsKeysDistinct | csv_watchdog_monitor.py:203 | filtering rows with distinct keys leaves rows with distinct keys |
| MergeProperties.RowsWithKeySurvivors | csv_watchdog_monitor.py:203 | after the filter, an incoming key has no master rows left and any other key keeps all of its rows |
| MergeProperties.RowsWithKeyReindex | csv_watchdog_monitor.py:200-201 | selecting rows by key commutes with reindexing onto columns that include the key |
| MergeProperties.SurvivorsReindexCommute | csv_watchdog_monitor.py:200-203 | filtering rows by key commutes with reindexing onto columns that include the key: same rows, same order |
| MergeProperties.UpsertSchema | csv_watchdog_monitor.py:199-204 | the merged columns are the strictly ascending union of both column lists, include the key, and every merged row carries exactly them |
| MergeProperties.UpsertRows | csv_watchdog_monitor.py:198-204 | the merged rows are exactly the master rows whose key is not incoming, in their original order, followed by every incoming row in its original order, all reindexed onto the column union |
| MergeProperties.UpsertByKey | csv_watchdog_monitor.py:198-204 | for each key, the merged rows with that key are the incoming ones if the key is incoming, and the master ones otherwise, in order |
| MergeProperties.EmptyMasterUpsert | csv_watchdog_monitor.py:190-204 | with no readable master, the merge is the incoming table reindexed onto its own sorted columns |
| MergeProperties.UpsertKeepsKeysDistinct | csv_watchdog_monitor.py:198-204 | distinct master keys and distinct incoming keys give distinct merged keys |
| MergeProperties.DuplicateIncomingKeysSurvive | csv_watchdog_monitor.py:198-204 | two incoming rows with the same key both reach the merged table: there is no de-duplication |
| MergeProperties.UpsertKeepsKeysNonNull | csv_watchdog_monitor.py:198-204 | if no master key and no incoming key is null, no merged key is null |
| MergeProperties.UpsertIdempotent | csv_watchdog_monitor.py:198-204 | merging the same incoming table into the result again gives the same columns and rows, in the same order |
| MergeProperties.MergeIdempotent | csv_watchdog_monitor.py:198-208 | the same holds for the merge as written, pruning loop included |
| MergeExamples.ObsoleteColumnKept | csv_watchdog_monitor.py:198-208 | a master `[id, a, b]` merged with an incoming `[id, a]` that updates its only row keeps column `b` as null and replaces the row |
| Validation.ValidateTable | csv_watchdog_monitor.py:156-165 | the first failing check wins, in the order empty, missing key column, missing required columns, null key; passing means rows and columns exist, key and required columns are present, and no key is null |
| Validation.LoadIncoming | csv_watchdog_monitor.py:182-187 | an undecodable file fails as such before any parse or frame check; a parse failure comes next; otherwise the frame check decides, and an accepted table has its key column with no null key |
| Validation.EncodingCheckedFirst | csv_watchdog_monitor.py:182-185 | an undecodable file fails as such whatever `read_csv` would have given, since `validate_utf8` runs before the parse |
| Validation.MissingColumns | csv_watchdog_monitor.py:161 | the required columns the frame lacks; `Validation.MissingColumnsMeaning` states that it is empty exactly when every required column is present |
| Validation.MissingColumnsMeaning | csv_watchdog_monitor.py:161-162 | no required column is missing exactly when each required column is among the frame's columns |
| Validation.HasNullKey | csv_watchdog_monitor.py:164 | some row has a null key; `Validation.ValidateTable` states that such a frame fails |
| Configuration.ValidateConfig | csv_watchdog_monitor.py:72-76 | the configuration fails for an empty key column first, then for any extension not starting with a dot, and passes otherwise |
| Configuration.AllStartWithDot | csv_watchdog_monitor.py:75 | `all(ext.startswith('.') ...)` holds exactly when every extension starts with a dot |
| Configuration.DefaultIsValid | csv_watchdog_monitor.py:38-58 | the built-in settings, the constant `Configuration.Default` (inbox `csv_inbox`, archive `csv_archive`, master `final_clusters_data.csv`, metadata `merged_metadata.json`, key `cluster_name`, no required columns, 500 MB, `.csv` only, 20 clusters in the log), pass `_validate_config` |
| Stability.Checksum | csv_watchdog_monitor.py:113-124 | a checksum exists exactly when the file is readable and within the size limit, and then it is the digest of its bytes |
| Stability.Truthy | csv_watchdog_monitor.py:140 | `if cksum`: a checksum counts only when it exists and is not the empty string; `Stability.StableMeaning` states its effect |
| Stability.JoinPath | csv_watchdog_monitor.py:130 | `os.path.join` ends with the name and, for a relative name, starts with the directory |
| Stability.JoinPathInjective | csv_watchdog_monitor.py:139 | different relative names in one directory give different paths |
| Stability.HasSupportedExtension | csv_watchdog_monitor.py:132 | the lowercased name ends with one of the extensions as written; its effect is stated by `Stability.CandidatesMembers` |
| Stability.Stable | csv_watchdog_monitor.py:138-143 | the per-file test; `Stability.StableMeaning` states it |
| Stability.StableMeaning | csv_watchdog_monitor.py:113-124 | a stable file was readable and within the size limit both times, with a non-empty digest that did not change |
| Stability.Candidates | csv_watchdog_monitor.py:129-133 | never more candidates than listed entries; membership is stated by `Stability.CandidatesMembers` |
| Stability.Confirmed | csv_watchdog_monitor.py:137-143 | never more paths than candidates; membership is stated by `Stability.ConfirmedSource` and `Stability.ConfirmedComplete` |
| Stability.StableFiles | csv_watchdog_monitor.py:127-145 | the returned list; `Stability.StableFilesMembers` states its members |
| Stability.CandidatesMembers | csv_watchdog_monitor.py:129-133 | an entry is a candidate exactly when its lowercased name ends with one of the extensions as written |
| Stability.FirstChecksums | csv_watchdog_monitor.py:129-133 | the values of the `files` dict: one checksum per candidate, in order, each taken of what the first pass saw |
| Stability.ConfirmedSource | csv_watchdog_monitor.py:137-143 | every kept path is the path of a stable candidate |
| Stability.ConfirmedComplete | csv_watchdog_monitor.py:137-143 | every stable candidate's path is kept |
| Stability.StableFilesMembers | csv_watchdog_monitor.py:127-145 | a path is returned exactly when it names a listed entry with a supported extension whose first checksum is truthy and equals the second |
| Stability.CandidatesListingNames | csv_watchdog_monitor.py:129-133 | filtering by extension keeps the listing's names distinct and relative |
| Stability.ConfirmedNoDuplicates | csv_watchdog_monitor.py:137-143 | candidates with distinct relative names give distinct paths |
| Stability.StableFilesNoDuplicates | csv_watchdog_monitor.py:127-145 | for a listing without repeated names, no path is returned twice, so one run of `process_all` (lines 173-178) handles each stable file once |
| Stability.GetStableFiles | csv_watchdog_monitor.py:127-145 | the scan loop returns exactly the stable-files list, in listing order |
| Archive.Take | csv_watchdog_monitor.py:226 | `clusters[:n]` is a prefix of length `n`, or of all but the last `-n` when `n` is negative |
| Archive.KeyText | csv_watchdog_monitor.py:226 | `str` of a key cell: its text, and `nan` for a null; used through `Archive.Texts` |
| Archive.Texts | csv_watchdog_monitor.py:226 | `map(str, ...)`: one text per key, in order, each `KeyText` of that key |
| Archive.TotalNote | csv_watchdog_monitor.py:228 | the note `... (N total)` with the count in decimal; `Archive.SomeClustersListed` states when it is added and that `N` reads back as the number of unique keys |
| Archive.Shown | csv_watchdog_monitor.py:225-226 | the listed keys are an ascending permutation of the texts of the first `max` unique keys |
| Archive.ClusterDisplay | csv_watchdog_monitor.py:225-228 | the logged summary; `Archive.AllClustersListed` and `Archive.SomeClustersListed` state what it shows |
| Archive.AllClustersListed | csv_watchdog_monitor.py:225-228 | with at most `max` unique keys, every key is listed, once, and no total is added |
| Archive.SomeClustersListed | csv_watchdog_monitor.py:225-228 | with more than `max` unique keys, exactly `max` are listed when `max >= 0`; for a negative `max`, all but the last `-max`, or none, as Python's slice gives; the total follows, readable back as the number of unique keys |
| Archive.ShownFixedByFirstKeys | csv_watchdog_monitor.py:225-226 | once `max` unique keys have been seen, later rows do not change which keys are listed |
| Archive.UniqueKeysClusters | csv_watchdog_monitor.py:225-228 | for a file whose keys are already unique, the first `max` keys are listed and the total is the row count |
| MetadataRecord.MetadataOf | csv_watchdog_monitor.py:232-237 | the record counts the frame's rows and columns and lists its columns in order |
| MetadataRecord.MergeMetadata | csv_watchdog_monitor.py:232-237 | after a merge, the record lists the sorted column union and counts each column once; the row count is at least the incoming rows and at most master plus incoming rows |
| Monitor.ProcessFileSpec | csv_watchdog_monitor.py:180-219 | a file succeeds exactly when it is accepted and the lock is obtained; a failure or a dry run leaves every file unchanged; otherwise the master becomes the merge, the metadata describes it, and the file is archived with a summary of its own keys |
| Monitor.BaseTable | csv_watchdog_monitor.py:190-196 | the stored master, or an empty frame with the incoming columns when it is missing or unreadable; `MergeProperties.EmptyMasterUpsert` states the merge in the second case |
| Monitor.Accepts | csv_watchdog_monitor.py:182-189 | a file is accepted when it decodes, parses and passes the frame checks, and the lock is obtained; `Monitor.ProcessFileSpec` states that exactly these files succeed |
| Monitor.ReindexKeepsColumn | csv_watchdog_monitor.py:201 | the reindexed incoming frame passed to the archive step has the key column the file had |
| Monitor.AcceptedPaths | csv_watchdog_monitor.py:174-178 | a path is accepted exactly when it is one of the paths and its file passes validation and obtains the lock |
| Monitor.ProcessPaths | csv_watchdog_monitor.py:173-178 | one file after another, each on the store the previous one left; stated by `Monitor.ArchivedAreAccepted`, `Monitor.DryRunChangesNothing` and `Monitor.ProcessPathsKeepsConsistent` |
| Monitor.DryRunChangesNothing | csv_watchdog_monitor.py:211-219 | a dry run leaves the master, the metadata and the archive as they were, however many files it processes |
| Monitor.ArchivedAreAccepted | csv_watchdog_monitor.py:173-178 | outside dry-run mode exactly the accepted files are archived, in processing order; a failing file does not stop later ones |
| Monitor.ArchiveStep | csv_watchdog_monitor.py:211-217 | one file adds its own path to the archive exactly when it is accepted |
| Monitor.ProcessFileKeepsConsistent | csv_watchdog_monitor.py:189-219 | after one file, the master still has strictly ascending columns including the key, rows carrying exactly those columns and no null key, and the metadata describes it |
| Monitor.ProcessPathsKeepsConsistent | csv_watchdog_monitor.py:173-178 | a whole run keeps that consistency |
| Monitor.WatchdogMonitor.constructor | csv_watchdog_monitor.py:170-171 | the monitor keeps its dry-run switch |
| Monitor.WatchdogMonitor.ProcessFile | csv_watchdog_monitor.py:180-219 | the step-by-step processing, merging on a frame, gives the outcome and store of `ProcessFileSpec` |
| Monitor.WatchdogMonitor.ProcessAll | csv_watchdog_monitor.py:173-178 | the loop processes the stable paths in order, each file in isolation, and ends in the store given by the fold over them |

## Left out

- MD5 hashing and the chunked read (lines 117-120). The digest is a function parameter `md5`, and a failed or oversized read gives no checksum.
- The pause between the two checksum passes (line 135). Each listed entry carries what the first pass and the second pass observed.
- The directory listing (line 131). It is an input, assumed to name each entry once, as a directory listing does; the dictionary built at lines 129-133 is modelled as a list.
- CSV decoding, parsing and dtype inference (lines 148-153, 184, 192). Whether a file decodes, and the table `read_csv` gives or its failure, are inputs. Every cell is a string or null, so `str()` of a key is its text, or `nan` for a null.
- Writing the master with `to_csv` and reading it back with `read_csv` (lines 192, 213). The model stores the merged table itself, so the CSV round trip, and the type changes it can cause, are not modelled.
- The file lock (line 189). Its cross-process exclusion is not modelled; only whether it was obtained before the timeout is an input.
- The temporary file and `os.replace` (lines 212-214), `shutil.move` and the archive file name with its timestamp (lines 222-224), JSON writing (lines 238-239), and directory creation (lines 108-109). These are filesystem I/O. The archive is a list of records, each holding the source path and the logged cluster summary.
- The `last_updated` timestamp (line 233), the logging setup and messages (lines 98-106 and the `logging` calls), argparse and `main` (lines 243-256), and configuration loading from the environment and JSON (lines 37-69). These are clock, I/O and environment. The built-in settings are a constant.
- I/O errors raised while writing the master, the metadata or the archive. They are not modelled: once a file is accepted and the lock obtained, all three writes happen.
- Stability.Checksum: the size limit `maxMb` is a whole number of mebibytes; the code multiplies whatever number the configuration gives (line 115), so a fractional limit such as `0.5` is not modelled.
- Strings.Lower: covers ASCII letters only, not Python's full Unicode case mapping.
- Configuration.ValidateConfig: the settings are typed, so a key column that is falsy in some other way than being the empty string, such as `None`, cannot occur.
