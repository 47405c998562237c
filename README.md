# Database backup pipeline and leave-duration conversion, in Dafny

This project models two parts of the `cronjob` repository and proves properties about them.

**The database snapshot pipeline** (`backup_databases/DatabaseExport.js`, `backup_databases/DatabaseImport.js`).

- Export (`DatabaseExport`, module `DatabaseExport`, with `Chunking` for the splitter's arithmetic):
  - every selected schema is dumped to `<db>.sql` in the backup directory;
  - a dump whose byte size is above `chunkSize` is cut by lines into `<db>.sql.partNNN` files, using a running counter of UTF-8 bytes plus one byte per line;
  - the raw dump is then deleted;
  - every remaining file is gzipped to `<file>.gz`, and the uncompressed file is removed.
  - The class `DatabaseExport.DatabaseExport` holds the backup directory as a `map` from entry names to contents. Its methods (`SplitSqlFileByLine`, `CompressFiles`, `DumpAndCompress`, `DumpSelected`, `ExportDatabases`, `GetLocalIPAddress`) are proved against functional specifications: `WriteParts`, `CompressEach`, `AfterDump`, `AfterRun`, `ExportResult` and `LocalAddress`.
- Import (`DatabaseImport`, module `DatabaseImport`):
  - `cleanOldSQL` removes every `.sql` entry;
  - the listed `.gz` archives are divided into singles and groups by the pattern `(.*)\.part\d+\.gz$`;
  - every single is gunzipped next to itself;
  - every group is sorted, gunzipped part by part and appended, one line feed after each part, to `<base>.merged.sql`;
  - a restore script is written beside the program: `#!/bin/bash` and `set -e` on POSIX, nothing on Windows, then one `mysql` command per single and per group;
  - at the end every recorded temporary file is deleted.
  - The class `DatabaseImport.DatabaseImport` holds the backup directory, the `tempFiles` list and the program directory. Its methods are proved against `DecompressSingles`, `MergeParts`, `MergeGroups` and `ImportSteps`.
- Round trip (module `RoundTrip`): what the export writes for a dump is what the import reads back, under stated conditions.
  - A dump that was not split gunzips back unchanged under `<db>.sql`.
  - A split dump merges back as `content.split(/\r?\n/).join("\n") + "\n"`, whatever order the directory lists the parts in, as long as there are at most 1000 parts. From part 1000 on, the three-digit padding no longer sorts in part order (`Chunking.PartOrderBreaksAtThousand`).
  - Both hold only for a directory that held no part archive of the same dump from an earlier run. The export never deletes old archives, so such a leftover stays and the import merges it into the dump's group (`RoundTrip.StalePartJoinsGroup`). After an unsplit re-export, that group is restored after the fresh single, over it. `RoundTrip.FreshSplitRoundTrip` states the round trip from a directory without such leftovers.
  - The dump is a text of Unicode characters. A dump holding bytes that are not valid UTF-8 is outside the round trip (see "Left out").
- The gzip codec (RFC 1952) is a stand-in, module `Codec`. A compressed text is the three fixed opening bytes of a gzip member followed by the text. Only two facts are used: gunzip inverts gzip (`GunzipGzip`), and a file without the opening bytes is rejected.
- Supporting modules:
  - `Unicode`: `Buffer.byteLength` as UTF-8 length, and the default `Array.prototype.sort` order as UTF-16 code-unit order;
  - `Strings`: `split`/`join`;
  - `Decimal`: `String(n)`, `padStart`, `parseInt`.

**The leave statistics script** (`leaves.js`, module `Leaves`).

- `parseLeaveToHours` reads `"D日H時M分"` (8-hour days) into hours, and `formatHoursToLeave` writes hours back.
- Each row's combined sick-plus-personal column is `formatHoursToLeave(parse(sick) + parse(personal))`. In exact arithmetic the defect of the finding below never shows in this column: the corrected formatter prints the same text for every row (`Leaves.CombinedUnaffected`). In IEEE-754 doubles it can: sick "0日0時7分" and personal "0日7時53分" add up to 7.999999999999999, which is written "0日0時0分" instead of "1日0時0分".
- The table is sorted by descending combined total.
- Hours are exact `real`s. `Math.floor` is `.Floor`, `Math.round(x)` is `(x + 0.5).Floor`, and JavaScript's truncating `%` is written out as `JsRem`.

Behaviour of the code that the proofs bring out:

- **One part can come out of a split.** The split decision is the file size (`stats.size > chunkSize`), but the splitter counts differently: it ignores carriage returns and adds one byte per line. So a dump that is split can still produce a single `.part000` (`DatabaseExport.SplitIntoSinglePart`, `DatabaseExport.SinglePartExample`).
- **The round trip is not byte-exact.** The merged text has `\r\n` turned into `\n` and one extra line feed at the end (`RoundTrip.SplitDumpRoundTrip`).
- **Every flushed part reaches the threshold.** A part is written once its byte count is at or above `chunkSize`; only the part without its last line is below it (`Chunking.PartsMeetThreshold`).
- **A corrupt archive crashes the import without cleanup.** The gunzip stream's `error` event has no listener, so the failure ends the process and the `finally` cleanup does not run. The output file of that archive was already created, empty, and stays, as do all temporary files written before it (`DatabaseImport.DatabaseImport.ImportDatabases`, outcome `Crashed`; `DatabaseImport.CrashLeavesOutput`).
- **A failed dump leaves its `.sql` behind.** The shell's `>` creates or empties `<db>.sql` before `mysqldump` runs, so when the dump fails the file stays with whatever was written (`DatabaseExport.FailedDumpLeftBehind`).

## Model

| member | source | states |
|---|---|---|
| DatabaseExport.FirstExternal | backup_databases/DatabaseExport.js:21-28 | None exactly when no entry is a non-internal IPv4; otherwise the address of the first such entry, with none before it |
| DatabaseExport.DatabaseExport.GetLocalIPAddress | backup_databases/DatabaseExport.js:19-29 | the nested loop with early return yields the first external IPv4 address over all interfaces in order, else "127.0.0.1" |
| DatabaseExport.FirstExternalOfInterface | backup_databases/DatabaseExport.js:21-27 | searching the flattened interfaces from interface i is searching interface i first, then the rest |
| DatabaseExport.GateAcceptsListedAddress | backup_databases/DatabaseExport.js:146-152 | one row whose comma-joined server list contains the local address lets the export through |
| DatabaseExport.GateRejectsPrefixOfEntry | backup_databases/DatabaseExport.js:146-152 | membership is by whole list entry: "10.0.0.1" is refused by "10.0.0.11,10.0.0.12" |
| DatabaseExport.GateNeedsExactlyOneRow | backup_databases/DatabaseExport.js:146-152 | zero rows or several rows always stop the export |
| DatabaseExport.SelectDatabases | backup_databases/DatabaseExport.js:154-163 | exactly the non-system schemas that start with the prefix (all when there is none), in their original order |
| DatabaseExport.NoPrefixKeepsAll | backup_databases/DatabaseExport.js:159-163 | with no prefix or the empty prefix every non-system schema is kept, unchanged and in order |
| Chunking.LineBytes | backup_databases/DatabaseExport.js:64 | what one line adds to the counter: its UTF-8 length plus one |
| Unicode.ByteLengthAppend | backup_databases/DatabaseExport.js:64 | the UTF-8 length of a concatenation is the sum of the lengths |
| Unicode.ByteLengthIsEncodedLength | backup_databases/DatabaseExport.js:64 | the byte length is the length of the UTF-8 encoding (RFC 3629) |
| Strings.SplitLines | backup_databases/DatabaseExport.js:56 | `split(/\r?\n/)` always yields at least one line |
| Strings.JoinSplitLines | backup_databases/DatabaseExport.js:56 | joining the split lines with "\n" is the text with every "\r\n" turned into "\n" |
| Strings.JoinSplitOn | backup_databases/DatabaseExport.js:56 | joining the pieces of a one-character split with that character gives the text back |
| Chunking.LinesPreserved | backup_databases/DatabaseExport.js:56-81 | the parts' line lists, concatenated in order, are exactly the split lines: nothing dropped, duplicated or reordered |
| Chunking.PartsMeetThreshold | backup_databases/DatabaseExport.js:63-81 | no part is empty; every part but the last reached the threshold; every part without its last line is below it |
| Chunking.ChunksFromNonEmpty | backup_databases/DatabaseExport.js:63-81 | with at least one line (always the case after split) at least one part is written |
| Chunking.OnePartWhenSmall | backup_databases/DatabaseExport.js:63-81 | when the counted size of all lines stays below the threshold, one part holds every line |
| Chunking.PartNames | backup_databases/DatabaseExport.js:68-78 | n names, the k-th being `path + ".part" + pad3(k)` |
| Chunking.PartNameInjective | backup_databases/DatabaseExport.js:68-78 | distinct indices give distinct part names |
| Chunking.PartNameEndsWithDigit | backup_databases/DatabaseExport.js:68-78 | every part name ends with a digit |
| Chunking.PartNameOrder | backup_databases/DatabaseExport.js:68-78 | below 1000, one part name (with any common suffix) sorts before another exactly when its index is smaller |
| Chunking.PartOrderBreaksAtThousand | backup_databases/DatabaseExport.js:68 | `.part1000` sorts before `.part999`: the padding stops ordering at 1000 parts |
| Chunking.TerminatedJoin | backup_databases/DatabaseExport.js:69 | each part joined with "\n" and followed by "\n", all in order, is all lines joined with "\n" plus one "\n" |
| Decimal.Pad3Value | backup_databases/DatabaseExport.js:68 | the padded index reads back as the index |
| Decimal.Pad3Injective | backup_databases/DatabaseExport.js:68 | distinct indices have distinct padded forms |
| Decimal.Pad3Digits | backup_databases/DatabaseExport.js:68 | below 1000 the padded form is exactly the three decimal digits |
| Decimal.Pad3Long | backup_databases/DatabaseExport.js:68 | from 1000 on the padded form is the plain number, four digits or more |
| Decimal.NatToStringValue | backup_databases/DatabaseExport.js:68 | `parseInt(String(n))` is n |
| DatabaseExport.DatabaseExport.SplitSqlFileByLine | backup_databases/DatabaseExport.js:54-84 | writes exactly the parts `Chunks(split(content))` under `PartNames`, leaves every other entry, and returns the part names in order |
| DatabaseExport.DatabaseExport.WriteChunks | backup_databases/DatabaseExport.js:58-83 | the loop over the lines writes exactly the parts `Chunks(lines)` under `PartNames` and returns their names in order |
| DatabaseExport.WritePartsValues | backup_databases/DatabaseExport.js:68-80 | after the writes, part k holds its lines joined with "\n" |
| DatabaseExport.WritePartsKeys | backup_databases/DatabaseExport.js:68-80 | the entries afterwards are the old ones plus the part names, no others |
| DatabaseExport.UnsplitDump | backup_databases/DatabaseExport.js:99-105 | at most chunkSize bytes: the only archive is `<db>.sql.gz`, holding the gzipped dump |
| DatabaseExport.SplitDump | backup_databases/DatabaseExport.js:99-105 | above chunkSize: at least one part, the parts are compressed instead of the dump, and part k holds its lines joined with "\n" |
| DatabaseExport.SplitIntoSinglePart | backup_databases/DatabaseExport.js:99-105 | a split dump whose counted size is below the threshold yields the single file `.part000` |
| DatabaseExport.SinglePartExample | backup_databases/DatabaseExport.js:56-102 | "\r\n\r\n\r\n" is 6 bytes but counts 4, so with chunkSize 5 it is split into one part |
| DatabaseExport.CompressEachValues | backup_databases/DatabaseExport.js:107-127 | for every compressed file f, `f.gz` exists and holds `Gzip(content(f))` |
| DatabaseExport.CompressEachKeys | backup_databases/DatabaseExport.js:107-127 | afterwards the entries are the old ones without the compressed files, plus their archives |
| DatabaseExport.CompressEachKeeps | backup_databases/DatabaseExport.js:107-127 | every other entry keeps its content |
| DatabaseExport.DatabaseExport.CompressFiles | backup_databases/DatabaseExport.js:107-127 | returns `f.gz` for every input file, in input order, and leaves the directory as `CompressEach` says |
| DatabaseExport.UnitTexts | backup_databases/DatabaseExport.js:99-105 | what gets compressed: the dump itself when unsplit, one text per part when split |
| DatabaseExport.StagedTexts | backup_databases/DatabaseExport.js:99-105 | before compressing, each file to compress exists, holds its text, and the names are distinct and not archives |
| DatabaseExport.DumpArchives | backup_databases/DatabaseExport.js:99-130 | after `dumpAndCompress` archive k exists and holds the gzipped text of unit k |
| DatabaseExport.DumpEntries | backup_databases/DatabaseExport.js:99-130 | afterwards neither `<db>.sql` nor any of its parts remains; the entries are the old ones plus the archives |
| DatabaseExport.DumpKeepsOthers | backup_databases/DatabaseExport.js:99-130 | entries unrelated to the database keep their content |
| DatabaseExport.DatabaseExport.DumpAndCompress | backup_databases/DatabaseExport.js:87-131 | returns the archive names of the units in order and leaves the directory as `AfterDump` |
| DatabaseExport.FirstFailure | backup_databases/DatabaseExport.js:176-184 | the index of the first selected database without a dump, every one before it having one |
| DatabaseExport.ExportStep | backup_databases/DatabaseExport.js:176-184 | the whole run is the first database's dump followed by the rest; the global archive list is the first list followed by the rest |
| DatabaseExport.ExportedArchivesExist | backup_databases/DatabaseExport.js:175-184 | every archive in the global list is in the directory after the loop |
| DatabaseExport.ArchivesSurvive | backup_databases/DatabaseExport.js:175-184 | archives already present are never removed by later dumps |
| DatabaseExport.EveryDatabaseArchived | backup_databases/DatabaseExport.js:175-184 | the global list has at least one archive per database |
| DatabaseExport.DatabaseExport.DumpSelected | backup_databases/DatabaseExport.js:175-184 | the loop's outcome and directory are `DumpOutcome` and `AfterRun`, the failed database's `<db>.sql` holding what its dump left |
| DatabaseExport.FailureNamesMissingDump | backup_databases/DatabaseExport.js:176-197 | a failed run names a selected database without a dump, and every database before it was dumped |
| DatabaseExport.FailedDumpLeftBehind | backup_databases/DatabaseExport.js:94-96 | after a failed run the failed database's `<db>.sql` is in the directory, holding what the dump wrote before failing |
| DatabaseExport.ReturnedArchivesExist | backup_databases/DatabaseExport.js:175-195 | every archive a successful run reports is in the backup directory |
| DatabaseExport.DatabaseExport.ExportDatabases | backup_databases/DatabaseExport.js:134-201 | outcome and directory are `ExportResult` and `DirectoryAfterExport`: untouched when the gate refuses or nothing is selected, and with the failed dump's `<db>.sql` left when a dump fails |
| Codec.GunzipGzip | backup_databases/DatabaseImport.js:182 | gunzipping a gzipped text gives the text back |
| Codec.GzipInjective | backup_databases/DatabaseExport.js:113 | distinct texts compress to distinct archives |
| DatabaseImport.WithoutSql | backup_databases/DatabaseImport.js:42-49 | exactly the entries not ending in ".sql" remain, with their content |
| DatabaseImport.DatabaseImport.CleanOldSql | backup_databases/DatabaseImport.js:42-49 | the directory becomes `WithoutSql` of the old one |
| DatabaseImport.CleanOldSqlScope | backup_databases/DatabaseImport.js:42-49 | dumps and merged files go; archives and uncompressed `.partNNN` files stay |
| DatabaseImport.Archives | backup_databases/DatabaseImport.js:62-66 | exactly the listed names that pass the prefix filter and end in ".gz", in listing order |
| DatabaseImport.TrailingDigits | backup_databases/DatabaseImport.js:80 | the length of the maximal digit run that ends the text |
| DatabaseImport.LastLineStart | backup_databases/DatabaseImport.js:80-82 | the position after the last line terminator, which `(.*)` cannot cross |
| DatabaseImport.MatchPart | backup_databases/DatabaseImport.js:80 | a match splits the name into head, ".part", a non-empty digit run and ".gz" |
| DatabaseImport.MatchShape | backup_databases/DatabaseImport.js:80 | the pieces the matcher cuts out put the name back together |
| DatabaseImport.MatchPartComplete | backup_databases/DatabaseImport.js:80 | every name `head + ".part" + digits + ".gz"` matches, with exactly that head and those digits |
| DatabaseImport.PartBaseOf | backup_databases/DatabaseImport.js:80-82 | the captured base of such a name is its head when the head has no line terminator |
| DatabaseImport.MatchedPartName | backup_databases/DatabaseImport.js:80 | a matched name ends in a digit followed by ".gz" |
| DatabaseImport.Members | backup_databases/DatabaseImport.js:79-88 | the archives of one group, or the singles, as a subsequence of the input |
| DatabaseImport.MembersElements | backup_databases/DatabaseImport.js:79-88 | a file is a member exactly when it is in the input with that key |
| DatabaseImport.FirstSeen | backup_databases/DatabaseImport.js:79-88 | the index of the first archive of a group |
| DatabaseImport.GroupSingles | backup_databases/DatabaseImport.js:79-88 | the singles are the non-part archives, in input order |
| DatabaseImport.GroupKey | backup_databases/DatabaseImport.js:79-88 | a base has a group exactly when some archive has it; the group is that base's archives, in input order |
| DatabaseImport.GroupOrder | backup_databases/DatabaseImport.js:79-99 | groups are visited in the order their first archives appear |
| DatabaseImport.GroupBySpec | backup_databases/DatabaseImport.js:79-88 | the built grouping satisfies the grouping specification |
| DatabaseImport.GroupingUnique | backup_databases/DatabaseImport.js:79-88 | two groupings that satisfy it for the same input are equal: grouping is deterministic |
| DatabaseImport.ArchivePlacedOnce | backup_databases/DatabaseImport.js:79-88 | every archive is a single exactly when it does not match, and is in the group of its base and no other |
| DatabaseImport.GroupedKeys | backup_databases/DatabaseImport.js:83-99 | every key visited has a group |
| DatabaseImport.GroupGzFiles | backup_databases/DatabaseImport.js:76-88 | the `forEach` loop builds exactly `GroupArchives` |
| DatabaseImport.StripGz | backup_databases/DatabaseImport.js:179 | removes a trailing ".gz" and nothing else |
| DatabaseImport.DatabaseImport.DecompressGz | backup_databases/DatabaseImport.js:176-193 | on success writes the gunzipped text under the name without ".gz", keeps the archive, and records the output; on failure the output exists, empty, and nothing is recorded |
| DatabaseImport.BuildMySqlCommand | backup_databases/DatabaseImport.js:166-171 | the command is exactly the client options and credentials followed by the path, every backslash turned into "/" |
| Strings.ToForwardSlashes | backup_databases/DatabaseImport.js:167-170 | same length; every "\" replaced by "/", nothing else changed |
| DatabaseImport.ForwardSlashesIdempotent | backup_databases/DatabaseImport.js:167-170 | replacing the slashes twice changes nothing more |
| DatabaseImport.SingleCommands | backup_databases/DatabaseImport.js:91-96 | one command per single, for its gunzipped file, in order |
| DatabaseImport.GroupCommands | backup_databases/DatabaseImport.js:117-119 | one command per group, for its merged file, in order |
| DatabaseImport.DecompressSinglesCommands | backup_databases/DatabaseImport.js:91-96 | the singles loop appends exactly the single commands |
| DatabaseImport.DecompressSinglesRecorded | backup_databases/DatabaseImport.js:91-96 | every file the singles loop writes or changes is recorded as temporary |
| DatabaseImport.DatabaseImport.DecompressSingleFiles | backup_databases/DatabaseImport.js:91-96 | the loop does what `DecompressSingles` says: stopping at the first archive that will not gunzip, with the directory and temporary list it had reached |
| DatabaseImport.MergePartsText | backup_databases/DatabaseImport.js:106-113 | when every part gunzips, the merged file gets each part's text followed by "\n", in order |
| DatabaseImport.MergePartsRecorded | backup_databases/DatabaseImport.js:108-113 | every file the merge writes, apart from the merged file, is recorded, and no command is added |
| DatabaseImport.DatabaseImport.MergePartFiles | backup_databases/DatabaseImport.js:106-113 | the inner loop does what `MergeParts` says, including the directory and temporary list left when a part fails |
| DatabaseImport.MergeGroupsCommands | backup_databases/DatabaseImport.js:99-120 | the groups loop appends exactly the group commands |
| DatabaseImport.MergeGroupsRecorded | backup_databases/DatabaseImport.js:99-120 | every file the groups loop writes, merged files included, is recorded |
| DatabaseImport.DatabaseImport.MergeGroupFiles | backup_databases/DatabaseImport.js:99-120 | the outer loop does what `MergeGroups` says, including the state left when a part fails |
| DatabaseImport.DatabaseImport.RunSteps | backup_databases/DatabaseImport.js:76-120 | grouping, singles and groups together do what `ImportSteps` says, including the state left when an archive fails |
| DatabaseImport.ImportCommands | backup_databases/DatabaseImport.js:73-120 | the script lines are the preamble, the single commands and the group commands, in that order |
| DatabaseImport.PosixScriptLines | backup_databases/DatabaseImport.js:122-131 | on POSIX the written script splits back into exactly those lines: preamble, one per single, one per group |
| Strings.SplitJoinWith | backup_databases/DatabaseImport.js:129 | splitting lines joined with a character they do not contain gives the lines back |
| DatabaseImport.CommandOnOneLine | backup_databases/DatabaseImport.js:91-119 | with settings and names free of line feeds, no command spans two lines |
| DatabaseImport.Cleaned | backup_databases/DatabaseImport.js:205-209 | exactly the entries not recorded as temporary remain, unchanged |
| DatabaseImport.DatabaseImport.Destructor | backup_databases/DatabaseImport.js:205-209 | the directory becomes `Cleaned` of the old one; duplicates in the list are harmless |
| DatabaseImport.ImportLeavesNoTrace | backup_databases/DatabaseImport.js:157-160 | after a run that finishes, cleaning up gives the directory as it was, minus the recorded names |
| DatabaseImport.DatabaseImport.constructor | backup_databases/DatabaseImport.js:25-34 | starts with the given directories and an empty temporary list |
| DatabaseImport.DatabaseImport.ImportDatabases | backup_databases/DatabaseImport.js:54-161 | given a listing of every entry once: no archive, nothing written and the destructor runs; a failed gunzip, `Crashed`, with the directory and temporary list as the run left them, nothing cleaned; otherwise the script is the command lines joined with the platform separator, written beside the program, and every temporary file removed |
| DatabaseImport.DatabaseImport.CleanAndImport | backup_databases/DatabaseImport.js:35-36 | `cleanOldSQL` then `importDatabases` on what is left: the outcome and directory of `ImportDatabases` taken from `WithoutSql` of the old directory |
| DatabaseImport.CrashLeavesOutput | backup_databases/DatabaseImport.js:176-193 | when the run dies on an archive, the archive's output file is there, empty |
| Unicode.SortStrings | backup_databases/DatabaseImport.js:100 | the default sort is a permutation of its input |
| Unicode.SortStringsSorted | backup_databases/DatabaseImport.js:100 | its result is ordered by UTF-16 code units |
| Unicode.SortRecovers | backup_databases/DatabaseImport.js:100 | sorting any permutation of a strictly ordered list gives that list |
| Unicode.LexLessTransitive | backup_databases/DatabaseImport.js:100 | the code-unit order is transitive |
| Unicode.LexLessTotal | backup_databases/DatabaseImport.js:100 | any two different strings are ordered one way or the other |
| RoundTrip.PartArchivesGroup | backup_databases/DatabaseImport.js:79-84 | all archives of a split dump fall into the group of `<db>.sql` |
| RoundTrip.WholeArchiveSingle | backup_databases/DatabaseImport.js:79-87 | the archive of an unsplit dump is a single |
| RoundTrip.PartArchivesSorted | backup_databases/DatabaseExport.js:68-78 | with at most 1000 parts, the part archives are strictly ordered |
| RoundTrip.ListingSortsToPartOrder | backup_databases/DatabaseImport.js:100 | any listing order of the part archives sorts back to part order |
| RoundTrip.PartTextsRejoin | backup_databases/DatabaseExport.js:56-81 | the part texts, each followed by "\n", are the dump with "\r\n" normalised plus "\n" |
| RoundTrip.PartArchivesUnzip | backup_databases/DatabaseExport.js:107-127 | each exported part archive gunzips to its part's text |
| RoundTrip.MergeArchives | backup_databases/DatabaseImport.js:106-113 | merging the exported archives in part order writes back the normalised dump plus "\n" |
| RoundTrip.SplitDumpRoundTrip | backup_databases/DatabaseImport.js:99-113 | after the export, merging the dump's part archives, listed in any order, writes `content.split(/\r?\n/).join("\n") + "\n"` |
| RoundTrip.WholeDumpRoundTrip | backup_databases/DatabaseImport.js:91-96 | the archive of an unsplit dump is gunzipped back to the dump under `<db>.sql` |
| RoundTrip.StalePartJoinsGroup | backup_databases/DatabaseExport.js:99-127 | a part archive of an earlier run survives an unsplit re-export and falls into the new dump's group |
| RoundTrip.DumpGroupIsParts | backup_databases/DatabaseImport.js:79-84 | from a directory without such leftovers, the entries in the group of `<db>.sql` are exactly the new part archives, and none when the dump stayed whole |
| RoundTrip.PartArchivesDistinct | backup_databases/DatabaseExport.js:68-78 | the part archives of a dump are all different |
| RoundTrip.GroupListingIsParts | backup_databases/DatabaseImport.js:62-84 | a listing of that group, each entry once, is the part archives in some order |
| RoundTrip.FreshSplitRoundTrip | backup_databases/DatabaseImport.js:62-113 | from a directory without leftovers, the group the import lists merges back to `content.split(/\r?\n/).join("\n") + "\n"` |
| Leaves.DigitRun | leaves.js:3-5 | the maximal run of digits from a position |
| Leaves.MatchFromLeftmost | leaves.js:3-5 | the search finds nothing exactly when no run of digits is followed by the mark; otherwise it takes the leftmost such run, whole, preceded by a non-digit or the start |
| Leaves.MatchAt | leaves.js:3-5 | digits directly followed by the mark are the match |
| Leaves.FieldFirst | leaves.js:3-5 | a text starting with digits and the mark matches those digits |
| Leaves.FieldSkip | leaves.js:3-5 | a field with a different mark is skipped by the search |
| Leaves.DayMatch | leaves.js:3 | in `D日H時M分` the day pattern captures D |
| Leaves.HourMatch | leaves.js:4 | in `D日H時M分` the hour pattern captures H |
| Leaves.MinuteMatch | leaves.js:5 | in `D日H時M分` the minute pattern captures M |
| Leaves.ParseLeaveToHours | leaves.js:2-10 | the hours are never negative |
| Leaves.ParseRendered | leaves.js:2-18 | `D日H時M分` parses to 8·D + H + M/60 |
| Leaves.NoLeaveIsZero | leaves.js:50-57 | the default "0日0時0分" parses to 0 |
| Leaves.Round | leaves.js:14 | `Math.round`: the integer within half a unit, halves rounding up |
| Leaves.JsRem | leaves.js:15-17 | truncating `%`: the Euclidean remainder for non-negative values, its negation mirrored for negative ones |
| Leaves.FloorDiv | leaves.js:16 | `Math.floor(a / b)` is integer division for b > 0 |
| Leaves.FormatFields | leaves.js:12-19 | for t ≥ 0: days ≥ 0, hours in 0..7, minutes in 0..59 |
| Leaves.SplitAddsUp | leaves.js:15-17 | days, hours and minutes of a minute count are in range and add back up to it |
| Leaves.MinutesSplit | leaves.js:15-17 | in-range fields are recovered from their minute count |
| Leaves.FieldsOfMinutes | leaves.js:12-19 | for whole-minute hours the formatter's fields are the split of the minute count |
| Leaves.SplitReadsBack | leaves.js:2-19 | the written split of a minute count parses back to it |
| Leaves.ParseFormat | leaves.js:2-19 | for t ≥ 0 with 60·t integral, parse(format(t)) == t |
| Leaves.ReadsBackAt | leaves.js:2-19 | the same read-back, for the written text given by name |
| Leaves.FormatSplit | leaves.js:12-19 | whole-minute hours with in-range fields are written as those fields |
| Leaves.FormatParse | leaves.js:2-19 | for h < 8 and m < 60, format(parse("d日h時m分")) == "d日h時m分" |
| Leaves.FormatDropsDay | leaves.js:12-19 | 7.995 hours are written "0日0時0分", which reads back as 0 |
| Leaves.RoundedFields | leaves.js:12-19 | the corrected formatter's fields are in range for t ≥ 0 |
| Leaves.RoundedFieldsSplit | leaves.js:12-19 | the corrected formatter splits the rounded minute count |
| Leaves.RoundedReadsBack | leaves.js:2-19 | the corrected text reads back as the rounded minutes, within half a minute of t |
| Leaves.RoundedAgrees | leaves.js:12-19 | on whole-minute hours the original and the corrected formatter write the same text |
| Leaves.FirstOfKind | leaves.js:50-57 | where `find` stops: the first entry of that kind, none before it |
| Leaves.ValueOr | leaves.js:50-57 | `find(...)?.value \|\| "0日0時0分"`: a found non-empty value is returned unchanged; the default when the kind is missing or its value is empty; never empty |
| Leaves.SumInMinutes | leaves.js:59-60 | the sum of two parsed durations is a whole number of minutes |
| Leaves.CombinedIsSum | leaves.js:59-61 | the combined column, `formatHoursToLeave` of the sum, parses back to sick plus personal hours |
| Leaves.CombinedUnaffected | leaves.js:59-61 | in exact arithmetic the combined column is what the corrected formatter prints for the sum, so there the defect does not show in it |
| Leaves.OfKinds | leaves.js:59-61 | an entry is kept exactly when it is in the input and its kind is in the set |
| Leaves.FindOfKinds | leaves.js:50-57 | dropping other kinds does not change what `find` returns for a kept kind |
| Leaves.CombinedIgnoresOthers | leaves.js:59-61 | vacation and family-care entries do not affect the combined column |
| Leaves.Tabulated | leaves.js:49-71 | one row per person, in order |
| Leaves.Insert | leaves.js:73-77 | inserting adds exactly the new row |
| Leaves.SortBy | leaves.js:73-77 | the sort is a permutation of the rows |
| Leaves.InsertDescending | leaves.js:73-77 | insertion keeps the rows in non-increasing key order |
| Leaves.SortDescending | leaves.js:73-77 | the sorted rows have non-increasing keys |
| Leaves.SortStable | leaves.js:73-77 | rows with equal keys keep their relative order |
| Leaves.TableOrder | leaves.js:73-77 | the table is a permutation of the rows, by non-increasing combined total, ties in original order |

## Left out

- Subprocesses are not modelled: `mysqldump`, `mysql`, the `git` commands, `execSync` of the restore script, and `chmod 755`. The dump text of each schema is an input map; a schema missing from it stands for a failed `mysqldump`, which leaves `<db>.sql` holding the text `leftover`. The script is written but not run.
- Database connections are not modelled: `readConnectionConfig`, `mysql2` connections, the send-server and schema queries, and the post-import `UPDATE` queries. The query results (server rows, schema names) are parameters.
- `os.networkInterfaces()` is a parameter; only the search over it is modelled.
- `process.argv[2]`, `process.platform`, the backup directory and the threshold are parameters. The default threshold of 50 MiB is the constant `DatabaseExport.DefaultChunkSize`.
- `ensureDirectoryExists` and the `.gitkeep` file are not modelled, because they only create the directory.
- `readdirSync` order is a parameter (`listing`, naming every entry once). Group iteration is first-seen order, so base names are assumed not to look like array indices, which JavaScript would visit first.
- DatabaseImport.GroupGzFiles: base names that are properties of `Object.prototype` (`constructor`, `toString`, `__proto__`, …) are grouped like any other. In the code `partGroups[base]` is then already truthy but not an array, so `.push` throws a `TypeError`, the `catch` reports it and the destructor runs, and no script is written.
- The dump is a Dafny `string`, a sequence of Unicode characters. A dump holding bytes that are not valid UTF-8 (binary columns dumped without `--hex-blob`) is not modelled: `readFileSync(…, "utf8")` would turn them into U+FFFD when splitting, and `stats.size` would then differ from the byte length used here. The split round trip holds for valid UTF-8 dumps only.
- DEFLATE is not modelled, and neither are Node streams, their events or their timing. Writes happen at once, including the merged file that `writeStream.close()` does not wait for.
- DatabaseExport.DatabaseExport.CompressFiles: compression always succeeds; a gzip write error that would reject the promise and abort the run is not modelled.
- DatabaseImport.DatabaseImport.DecompressGz: a gunzip failure is modelled as the whole import ending (`Crashed`), and its output file as created empty: the stand-in codec fails on the header, before anything is decoded, so text decoded before a failure further into a real stream is not modelled. A missing file is treated like a corrupt one; with a listing of the directory, as `ImportDatabases` requires, no archive is missing.
- Chunking.PartsMeetThreshold: says nothing about the size of the last part. A last part below the threshold is the leftover flush after the loop; the part list alone does not show which flush wrote it.
- RoundTrip.ListingSortsToPartOrder: holds only up to 1000 parts. Beyond that the export's own naming breaks the order, as `Chunking.PartOrderBreaksAtThousand` shows.
- Console output is not modelled: `console.log`, `console.error`, `console.table`, `console.clear`.
- `extractLeaveData` reads the page's DOM and is not modelled. Its result is the `Person` list.
- Leaves: IEEE-754 doubles are not modelled. `mins / 60`, `totalHours * 60` and `Math.round` are computed on exact reals, so double rounding errors do not appear. One they cause is in the Findings row: a whole-minute sum that falls just short of a day.
- backup_databases/ConfigManager.js is not part of this model; the configuration it supplies is a parameter.

## Findings

| source | as written | input that shows it | evidently intended | confidence | as-written member | corrected member |
|---|---|---|---|---|---|---|
| leaves.js:12-19 | days are `floor(totalHours / 8)` from the unrounded hours, while hours and minutes come from the rounded minute count modulo 480 | 7.995 hours rounds to 480 minutes, which is 8 hours, but is written "0日0時0分": the whole day is lost. In IEEE-754 doubles (not modelled) the page's own whole-minute texts hit it: sick "0日0時7分" plus personal "0日7時53分" is 7.999999999999999, written "0日0時0分" in the combined column | days taken from the same rounded minute count, `floor(totalMinutes / 480)`, so the text is within half a minute of the input | medium — not executed; in exact arithmetic whole-minute totals are not affected (`Leaves.RoundedAgrees`), the double case was worked out by hand | Leaves.FormatDropsDay | Leaves.FormatHoursToLeaveRounded |
