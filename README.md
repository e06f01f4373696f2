# BackupRunner core in Dafny

BackupRunner is a command-line tool that reads a configuration of *units*.
A unit is a named backup task: a list of source directories, a destination
directory, excluded file extensions, a path mode, a symlink policy and a
retention count. For each unit the tool either writes a timestamped
`<unit>-yyyyMMddHHmmss.tar.gz` archive into the destination and deletes all
but the newest `KeepLastBackups` archives, or it restores the newest archive
into the source directories.

This project models that core, file by file, in the form each file has:

- `unit.dfy` (`Units`): the `Unit` record with its declared defaults.
- `tar_builder.dfy` (`TarBuilder`): the archive builder, a class. It stages
  (file, entry name) pairs, filters them by extension and writes the kept
  entries in staging order on `Save`.
- `tar_extractor.dfy` (`TarExtractor`): the extractor, a class. It holds a
  table from archive folders to destination directories and writes each
  routed entry of the archive.
- `tar_searcher.dfy` (`TarSearcher`): the archive search as pure functions.
  It lists `*.tar.gz` files, matches the name pattern, parses the 14-digit
  stamp and sorts newest first. Two found archives never share a time
  (`TarSearcher.SameTimeSameFile`), so the order has no ties.
- `cleanup.dfy` (`Cleanup`): the retention pass. It keeps the first
  `KeepLastBackups` archives of the search and tries to delete every other
  one; a failing deletion is skipped.
- `unit_validator.dfy` (`UnitValidator`): the five validation checks. Each
  appends its errors to one list. The loops are methods proved against
  specification functions.
- `unit_processor.dfy` (`UnitProcessor`): `BackupUnit`, `LoadUnit` and the
  guards, each a method proved against a function (`Backup`, `Restore`,
  `Guards`).
- `config_processor.dfy` (`ConfigProcessor`): the batch loop over the units.
  A failing unit does not stop the later ones.
- `properties.dfy` (`BackupProperties`): properties that span several
  components.
- `round_trip.dfy` (`RestoreRoundTrip`): the backup-then-restore round trip
  in the mode where it holds.
- Support modules:
  - `text.dfy`: string helpers.
  - `paths.dfy`: Unix paths.
  - `filesystems.dfy`: the filesystem as a value.
  - `errors.dfy`: exceptions as values.

The host filesystem is a value, `FileSystem(nodes, order, cwd)`. `order` is
the order in which directory enumeration returns paths. Every operation that
touches the disk takes a filesystem and returns the new one. An exception
becomes an `Outcome`/`Result` failure that carries an `Exception` value.
Effects made before the exception are kept.

Quirks the model reproduces as the code has them:

- Names of exactly 30 characters are accepted.
- The name pattern's `$` accepts one trailing line feed.
- A nesting error is reported once per ordered pair of sources.
- The restore key is trimmed of '/', but the archive prefix is not.
- With `UseAbsolutePaths`, which is the default, every entry name starts with
  '/'. Such entries never match a restore key, so a restore writes no file
  (`BackupProperties.DefaultUnitArchivesRooted`,
  `BackupProperties.RootedArchiveRestoresNothing`).
- An invalid 14-digit date makes the search throw.
- A processor switches its unit's `FollowSymlinks` off. Other users of the
  same unit see the change.
- `IgnoreGitRepositories` has no effect.

The round trip holds under a relative prefix
(`RestoreRoundTrip.RelativePrefixRoundTrip`). Back up a directory with
`AddDirectory(dir, prefix)`, where the prefix is non-empty and holds no '/'
and no '\\'. Save without following links. Then extract with `prefix`
mapped to a fresh destination, without overwriting. The extraction fails
nowhere. Every listed regular file that passed the extension filter comes
back at the same relative place below the destination, with the same
bytes. No other file appears there, and nothing outside the destination
changes. The lemma assumes a tree-shaped filesystem: canonical paths below
the directory, no '\\' in them, and nothing below a file. These inputs
break the unqualified claim:

- absolute mode, the default: every name starts with '/', so nothing is
  restored;
- a source ending in '/' in relative mode: its prefix is empty, so its names
  also start with '/';
- a '\\' in a file name: the extractor turns it into '/', so the file lands
  in a different place;
- a symlink, or a file whose extension is excluded: it is not archived.

## Model

| member | source | states |
|---|---|---|
| Units.NewUnit | BackupRunner/Models/Unit.cs:5-18 | a unit built from its three required fields has no excludes, absolute paths, no symlink following, Git repositories ignored, a keep count of 3 and is enabled |
| TarBuilder.Builder.constructor | BackupRunner/Archiving/TarBuilder.cs:10-20 | a new builder has no entries, no excluded extensions and does not follow links |
| TarBuilder.Builder.AddFile | BackupRunner/Archiving/TarBuilder.cs:22-32 | a missing file fails with FileNotFound and stages nothing; an excluded file passes and stages nothing; otherwise exactly one entry is appended, named by the given name or the file's base name |
| TarBuilder.Builder.AddDirectory | BackupRunner/Archiving/TarBuilder.cs:34-52 | a missing directory fails with DirectoryNotFound and stages nothing; otherwise the entries of every file below it, in enumeration order, are appended with names relative to the directory, under the prefix, using '/' |
| TarBuilder.Builder.AddEnumeratedFiles | BackupRunner/Archiving/TarBuilder.cs:39-48 | the loop over the enumerated files appends exactly what `StageFiles` stages for them, in order |
| TarBuilder.Builder.AddNext | BackupRunner/Archiving/TarBuilder.cs:39-48 | one turn of that loop extends the staged entries by the next file's |
| TarBuilder.Builder.AddEnumerated | BackupRunner/Archiving/TarBuilder.cs:39-48 | one enumerated file stages what `StageOne` gives for it |
| TarBuilder.Builder.ExcludeExtensions | BackupRunner/Archiving/TarBuilder.cs:54-64 | the extensions before the first one without a leading '.' are registered in lower case; that one makes the call fail with an argument error |
| TarBuilder.Builder.FollowSymlinks | BackupRunner/Archiving/TarBuilder.cs:66-69 | the link policy is set to the argument |
| TarBuilder.Builder.IsExcluded | BackupRunner/Archiving/TarBuilder.cs:103-106 | a path is excluded exactly when its lower-cased extension is registered |
| TarBuilder.Builder.Save | BackupRunner/Archiving/TarBuilder.cs:71-101 | the output file is created (or the creation error returned); it then holds the entries `WriteEntries` writes in staging order. When links are not followed, a link is skipped, and so is a missing path, whose attributes read as every flag set. Otherwise a missing file stops the write with FileNotFound, and the archive written so far stays |
| TarBuilder.NotExcluded | BackupRunner/Archiving/TarBuilder.cs:26-28 | a file is kept exactly when it is listed and its extension is not excluded |
| TarBuilder.FirstWithoutDot | BackupRunner/Archiving/TarBuilder.cs:55-61 | the position of the first extension not starting with '.': all before it start with '.', and it does not |
| TarBuilder.Kept | BackupRunner/Archiving/TarBuilder.cs:79-82 | the entries kept are exactly the staged ones, less the reparse points when links are not followed |
| TarBuilder.StageFilesSelects | BackupRunner/Archiving/TarBuilder.cs:39-48 | directory staging stages exactly the files that are not excluded, in enumeration order |
| TarBuilder.StagedNamesUseSlash | BackupRunner/Archiving/TarBuilder.cs:44-46 | no staged entry name from a directory holds a backslash |
| TarBuilder.StagedName | BackupRunner/Archiving/TarBuilder.cs:40-46 | the entry name of a file below a directory is the prefix joined to the file's relative path with '/' |
| TarBuilder.ExclusionIgnoresCase | BackupRunner/Archiving/TarBuilder.cs:103-106 | a path is excluded exactly when its extension equals a registered one ignoring case |
| TarBuilder.SaveSkipsLinks | BackupRunner/Archiving/TarBuilder.cs:79-95 | without link following, saving never fails and writes one entry per kept file, in order, with that file's name and data |
| TarBuilder.SaveFollowingLinks | BackupRunner/Archiving/TarBuilder.cs:85-95 | with link following and every staged file present, saving never fails and writes every staged entry, in order |
| TarExtractor.Construct | BackupRunner/Archiving/TarExtractor.cs:15-24 | construction fails with FileNotFound exactly when the archive is not a file; otherwise it gives a fresh extractor with an empty table, not forcing |
| TarExtractor.Extractor.constructor | BackupRunner/Archiving/TarExtractor.cs:19-24 | a new extractor has the archive path, an empty table and no forced overwrite |
| TarExtractor.Extractor.MapFolder | BackupRunner/Archiving/TarExtractor.cs:26-37 | the destination is created when missing (or its error returned, the table unchanged); the key, with '\\' as '/' and '/' trimmed, is set to the full destination path; keys stay distinct and never start with '/' |
| TarExtractor.Extractor.ForceOverwrite | BackupRunner/Archiving/TarExtractor.cs:39-42 | the overwrite flag is set to the argument |
| TarExtractor.Extractor.Extract | BackupRunner/Archiving/TarExtractor.cs:44-78 | a missing archive fails with FileNotFound, a non-archive with InvalidArchive; otherwise the entries are extracted in order until the first failure, as `ExtractAll` states |
| TarExtractor.Extractor.ExtractEntry | BackupRunner/Archiving/TarExtractor.cs:50-77 | one entry: directories (a directory header, or a name ending in '/', as the tar library's `IsDirectory` reads it) and unmapped paths are skipped; otherwise the parent directory is created and the file written, unless it exists and overwrite is off |
| FileSystems.CreateDirectory | BackupRunner/Archiving/TarExtractor.cs:66 | `Directory.CreateDirectory`: the directory and every missing ancestor exist afterwards and no existing node changes; it throws exactly when the path is empty or a file stands at it or at an ancestor |
| TarExtractor.FindKey | BackupRunner/Archiving/TarExtractor.cs:34-36 | the index of the row with that key, if there is one |
| TarExtractor.Put | BackupRunner/Archiving/TarExtractor.cs:34-36 | the key's row is replaced in place, or a row appended; every other row is kept |
| TarExtractor.FirstMatch | BackupRunner/Archiving/TarExtractor.cs:56 | the first row, in table order, whose key is a prefix of the entry path (`FirstOrDefault` over `StartsWith`) |
| TarExtractor.ExtractOne | BackupRunner/Archiving/TarExtractor.cs:50-77 | an entry changes the filesystem only when it is a routed file, never when it is a directory by header or by a trailing '/'; a failure comes only from creating the directory or the file |
| TarExtractor.Routed | BackupRunner/Archiving/TarExtractor.cs:51-61 | the entries that reach the write step: entries that are not directories by header or by a trailing '/', whose path matches a non-empty key |
| TarExtractor.SlashNamedEntrySkipped | BackupRunner/Archiving/TarExtractor.cs:51-53 | a regular-file entry named `k/sub/` is skipped as a directory, and the file `k/sub/a` after it is then written to `/d/sub/a` with its bytes |
| TarExtractor.PutThenLookup | BackupRunner/Archiving/TarExtractor.cs:34-36 | after mapping a key, it looks up the new destination and every other key looks up what it did before |
| TarExtractor.FindKeyUnique | BackupRunner/Archiving/TarExtractor.cs:34-36 | in a table with distinct keys the found row is the only row with that key |
| TarExtractor.OnlyRoutedEntriesMatter | BackupRunner/Archiving/TarExtractor.cs:51-61 | extracting an archive has the same effect as extracting only its routed entries |
| TarExtractor.NoOverwriteKeepsFiles | BackupRunner/Archiving/TarExtractor.cs:68-71 | without forced overwrite, every file that existed before extraction is unchanged |
| TarExtractor.RootedEntryUnrouted | BackupRunner/Archiving/TarExtractor.cs:55-61 | an entry whose name starts with '/' is never routed when no key starts with '/' |
| TarExtractor.RootedArchiveExtractsNothing | BackupRunner/Archiving/TarExtractor.cs:50-77 | an archive whose entries all start with '/' leaves the filesystem unchanged and does not fail |
| TarSearcher.MatchStamp | BackupRunner/Archiving/TarSearcher.cs:11-19 | a match captures exactly 14 ASCII digits |
| TarSearcher.MatchStampShape | BackupRunner/Archiving/TarSearcher.cs:11 | a matching name is `<unit name>-<14 digits>.tar.gz`, optionally followed by one line feed |
| TarSearcher.ParseExact | BackupRunner/Archiving/TarSearcher.cs:22 | parsing succeeds exactly when the fields form a valid date and time, and then yields those fields |
| TarSearcher.Matching | BackupRunner/Archiving/TarSearcher.cs:13-19 | exactly the listed files that match both the glob and the pattern, with their digit groups |
| TarSearcher.ParseAll | BackupRunner/Archiving/TarSearcher.cs:20-23 | parsing all succeeds exactly when every stamp is a valid date; then one candidate per match, in order |
| TarSearcher.Insert | BackupRunner/Archiving/TarSearcher.cs:24 | inserting into a newest-first list keeps it newest first and adds exactly the one candidate |
| TarSearcher.SortNewestFirst | BackupRunner/Archiving/TarSearcher.cs:24 | the result is sorted newest first and is a permutation of the input |
| TarSearcher.PathsOf | BackupRunner/Archiving/TarSearcher.cs:25 | the paths of the candidates, in order |
| TarSearcher.AcceptedFiles | BackupRunner/Archiving/TarSearcher.cs:13-19 | exactly the listed files the glob and pattern accept |
| TarSearcher.Listing | BackupRunner/Archiving/TarSearcher.cs:13-14 | an empty destination throws an argument error; a missing one throws DirectoryNotFound; otherwise the files directly in it |
| TarSearcher.FindBackupsFromNewestToOldest | BackupRunner/Archiving/TarSearcher.cs:10-27 | the result is newest first; every candidate is an accepted file of the destination with a valid parsed stamp; a listing failure or an invalid date throws |
| TarSearcher.SearchIsPermutation | BackupRunner/Archiving/TarSearcher.cs:13-24 | the found paths are a permutation of the accepted files of the listing |
| TarSearcher.MatchingFacts | BackupRunner/Archiving/TarSearcher.cs:13-19 | every match is a listed file accepted by the glob and the pattern with its digit group, and every such file is matched |
| TarSearcher.InvalidStampFailsParse | BackupRunner/Archiving/TarSearcher.cs:20-23 | one accepted file with an invalid date makes the parse of all matches fail |
| TarSearcher.FoundPathsDistinct | BackupRunner/Archiving/TarSearcher.cs:13-24 | when no directory lists a path twice, no archive is found twice |
| TarSearcher.InvalidDateThrows | BackupRunner/Archiving/TarSearcher.cs:22 | one accepted file whose stamp is not a valid date makes the whole search throw a format error |
| TarSearcher.OutputNameMatches | BackupRunner/Archiving/TarSearcher.cs:11 | the name a backup writes matches both the glob and the pattern, capturing its stamp |
| TarSearcher.UnitNameIsLiteral | BackupRunner/Archiving/TarSearcher.cs:11 | the unit name is matched literally: another unit's archive is not found |
| TarSearcher.ExactNamesOnly | BackupRunner/Archiving/TarSearcher.cs:11-19 | with the glob applied, only names of exactly the written shape are accepted |
| TarSearcher.SameTimeSameFile | BackupRunner/Archiving/TarSearcher.cs:10-27 | two found archives with the same time are the same file |
| TarSearcher.InstantIsChronological | BackupRunner/Archiving/TarSearcher.cs:24 | the sort key orders valid date and times chronologically |
| TarSearcher.StampOrderIsChronological | BackupRunner/Archiving/TarSearcher.cs:22-24 | for valid stamps, string order is chronological order |
| Cleanup.Stale | BackupRunner/Processors/CleanupProcessor.cs:22-27 | nothing when there are at most `keep` archives; otherwise the last `count - keep` archives, in order |
| Cleanup.DeleteEach | BackupRunner/Processors/CleanupProcessor.cs:28-36 | every file is tried in order; exactly the deletable ones are removed and nothing else changes |
| Cleanup.CleanupProcessor.constructor | BackupRunner/Processors/CleanupProcessor.cs:9-12 | the keep count, destination and name are read from the unit at construction |
| Cleanup.CleanupProcessor.Cleanup | BackupRunner/Processors/CleanupProcessor.cs:16-37 | a failed search throws and changes nothing; otherwise the stale archives are tried, newest-kept first, and all deletable ones are removed |
| Cleanup.RetainedKeepsNewest | BackupRunner/Processors/CleanupProcessor.cs:18-36 | every archive kept is at least as new as every archive whose deletion is tried; of the archives found, exactly the newest `keep` and the undeletable ones remain, untouched; no other path changes (when no directory lists a path twice) |
| Cleanup.StaleDeletion | BackupRunner/Processors/CleanupProcessor.cs:22-36 | deleting the stale part of a list of distinct existing paths leaves exactly the first `keep` and the undeletable ones |
| UnitValidator.Resolve | BackupRunner/Guards/UnitValidator.cs:51-56 | resolving a source throws an argument error exactly when it trims to the empty string or holds U+0000; otherwise it is the full path |
| UnitValidator.UnitValidator.constructor | BackupRunner/Guards/UnitValidator.cs:11-20 | the validator holds the unit it checks |
| UnitValidator.UnitValidator.Validate | BackupRunner/Guards/UnitValidator.cs:11-20 | the errors of the five checks, in order, or the exception of the source check |
| UnitValidator.UnitValidator.CheckLastBackups | BackupRunner/Guards/UnitValidator.cs:22-26 | a keep count below 1 appends one error |
| UnitValidator.UnitValidator.CheckUnitName | BackupRunner/Guards/UnitValidator.cs:28-36 | a name failing the pattern appends one error, one longer than 30 UTF-16 code units another |
| UnitValidator.UnitValidator.CheckSources | BackupRunner/Guards/UnitValidator.cs:38-62 | no sources appends one error; otherwise each source's errors in order |
| UnitValidator.UnitValidator.CheckEachSource | BackupRunner/Guards/UnitValidator.cs:43-61 | the outer loop appends the checks of every source, in order, stopping at an exception |
| UnitValidator.UnitValidator.CheckSource | BackupRunner/Guards/UnitValidator.cs:44-60 | one source: not rooted, missing (a path holding U+0000 counts as missing), then nesting errors against the others; it throws when this source or another one trims to "" or holds U+0000 |
| UnitValidator.UnitValidator.CheckNesting | BackupRunner/Guards/UnitValidator.cs:52-60 | the inner loop appends one error for each other source strictly below this one, and throws at the first other source that trims to "" or holds U+0000 |
| UnitValidator.UnitValidator.CheckExcludes | BackupRunner/Guards/UnitValidator.cs:64-70 | one error per exclude not starting with '.', in order |
| UnitValidator.UnitValidator.CheckDestination | BackupRunner/Guards/UnitValidator.cs:72-80 | a destination not rooted appends one error, a missing one another |
| UnitValidator.NestingFailsIff | BackupRunner/Guards/UnitValidator.cs:52-60 | the inner loop throws exactly when another source trims to "" or holds U+0000 |
| UnitValidator.NestingShape | BackupRunner/Guards/UnitValidator.cs:52-60 | every error of the inner loop is a nesting error about this source |
| UnitValidator.NestingMembers | BackupRunner/Guards/UnitValidator.cs:52-60 | the inner loop reports exactly the other sources strictly below this one |
| UnitValidator.NestingFacts | BackupRunner/Guards/UnitValidator.cs:52-60 | the inner loop throws exactly when another source trims to "" or holds U+0000; otherwise it reports exactly the other sources below this one |
| UnitValidator.SourceCheckFacts | BackupRunner/Guards/UnitValidator.cs:44-60 | a source check throws exactly when some source trims to "" or holds U+0000; otherwise its errors are exactly its own failures |
| UnitValidator.SourceChecksFacts | BackupRunner/Guards/UnitValidator.cs:43-61 | the source loop throws exactly when some source trims to "" or holds U+0000; otherwise it reports exactly the unrooted, missing and nested sources |
| UnitValidator.ExcludeFacts | BackupRunner/Guards/UnitValidator.cs:64-70 | the exclude check reports exactly the excludes not starting with '.' |
| UnitValidator.ValidationThrowsIff | BackupRunner/Guards/UnitValidator.cs:11-20 | validation throws exactly when a source is empty, only separators, or holds U+0000 |
| UnitValidator.ResolvableIff | BackupRunner/Guards/UnitValidator.cs:51 | a source resolves exactly when it does not trim to "" and holds no U+0000 |
| UnitValidator.NullCharacterThrows | BackupRunner/Guards/UnitValidator.cs:51 | a unit whose source is `/a`, U+0000, `b` makes validation throw "Null character in path." |
| UnitValidator.SourcesCleanIff | BackupRunner/Guards/UnitValidator.cs:38-62 | the source checks report nothing exactly when every source is rooted, exists and none lies below another |
| UnitValidator.ExcludesCleanIff | BackupRunner/Guards/UnitValidator.cs:64-70 | the exclude check reports nothing exactly when every exclude starts with '.' |
| UnitValidator.ValidationAcceptsIff | BackupRunner/Guards/UnitValidator.cs:11-20 | a unit validates with no error exactly when it is acceptable |
| UnitValidator.AstralNameTooLong | BackupRunner/Guards/UnitValidator.cs:33-35 | the length limit counts UTF-16 code units: 16 characters outside the Basic Multilingual Plane are too long |
| UnitValidator.NameLengthBoundary | BackupRunner/Guards/UnitValidator.cs:33-35 | a valid name of 30 characters is accepted; of 31 it is not |
| UnitValidator.TrailingLineFeedAccepted | BackupRunner/Guards/UnitValidator.cs:8 | a valid name followed by one line feed passes the name pattern |
| UnitValidator.NestingExamples | BackupRunner/Guards/UnitValidator.cs:82-84 | a source below another is reported, and a sibling sharing a name prefix is not |
| UnitProcessor.StageAll | BackupRunner/Processors/UnitProcessor.cs:36-39 | the staging loop stages every source in order, or fails with the first error |
| UnitProcessor.StageNext | BackupRunner/Processors/UnitProcessor.cs:36-39 | one turn of the staging loop stages source i under its prefix, or fails with DirectoryNotFound |
| UnitProcessor.MapSources | BackupRunner/Processors/UnitProcessor.cs:70-74 | the mapping loop maps every source in order, or stops at the first error |
| UnitProcessor.RestoreFromLatest | BackupRunner/Processors/UnitProcessor.cs:65-77 | restoring from the newest archive, as `RestoreFrom` states |
| UnitProcessor.UnitProcessor.constructor | BackupRunner/Processors/UnitProcessor.cs:10-17 | the processor, its validator, cleanup and searcher are all made from the unit |
| UnitProcessor.UnitProcessor.BackupUnit | BackupRunner/Processors/UnitProcessor.cs:19-46 | the guards' exception or skip leaves everything unchanged; otherwise `FollowSymlinks` is switched off and the result is `Backup` of the changed unit |
| UnitProcessor.UnitProcessor.Archive | BackupRunner/Processors/UnitProcessor.cs:31-45 | building, saving and cleaning up give exactly `Backup` |
| UnitProcessor.UnitProcessor.LoadUnit | BackupRunner/Processors/UnitProcessor.cs:48-78 | the guards' exception or skip leaves everything unchanged; otherwise `FollowSymlinks` is switched off and the result is `Restore` of the changed unit |
| UnitProcessor.UnitProcessor.RestoreLatest | BackupRunner/Processors/UnitProcessor.cs:60-77 | a failed search throws, no archive passes unchanged, else restore from the first found, as `Restore` states |
| UnitProcessor.UnitProcessor.ProcessGuards | BackupRunner/Processors/UnitProcessor.cs:80-92 | a disabled unit is skipped, a validation exception escapes, otherwise the unit goes ahead exactly when it validates |
| UnitProcessor.UnitProcessor.ValidateUnit | BackupRunner/Processors/UnitProcessor.cs:94-106 | throws exactly when validation throws; otherwise true exactly when there is no error |
| ConfigProcessor.ProcessOne | BackupRunner/Processors/ConfigProcessor.cs:23-31 | processing changes a unit at most by switching `FollowSymlinks` off, and a disabled unit passes untouched |
| ConfigProcessor.BatchUpTo | BackupRunner/Processors/ConfigProcessor.cs:21-33 | one unit and one outcome per processed unit |
| ConfigProcessor.ProcessUnit | BackupRunner/Processors/ConfigProcessor.cs:25-31 | a fresh processor gives exactly `ProcessOne` |
| ConfigProcessor.ConfigProcessor.constructor | BackupRunner/Processors/ConfigProcessor.cs:6-8 | the processor holds the configuration's units |
| ConfigProcessor.ConfigProcessor.BackupConfig | BackupRunner/Processors/ConfigProcessor.cs:11-14 | backs up every unit, in order, as `BatchUpTo` states |
| ConfigProcessor.ConfigProcessor.LoadConfig | BackupRunner/Processors/ConfigProcessor.cs:16-19 | restores every unit, in order, as `BatchUpTo` states |
| ConfigProcessor.ConfigProcessor.ProcessConfig | BackupRunner/Processors/ConfigProcessor.cs:21-33 | the loop gives the batch's filesystem, units and outcomes; the units are written back as the processors leave them |
| ConfigProcessor.EachUnitProcessedInTurn | BackupRunner/Processors/ConfigProcessor.cs:23-31 | unit i is processed once, on the filesystem its predecessors left, whatever their outcome |
| ConfigProcessor.OnlyFollowSymlinksChanges | BackupRunner/Processors/UnitProcessor.cs:26-29 | the batch changes no unit field but `FollowSymlinks`, and that only from true to false |
| ConfigProcessor.DisabledUnitSkipped | BackupRunner/Processors/UnitProcessor.cs:81-84 | a disabled unit passes and changes neither itself nor the filesystem |
| BackupProperties.GuardsIff | BackupRunner/Processors/UnitProcessor.cs:80-106 | the guards throw exactly when the unit is enabled and has a source that trims to "" or holds U+0000; they let a unit through exactly when it is enabled and acceptable |
| BackupProperties.AcceptedExcludesRegister | BackupRunner/Processors/UnitProcessor.cs:33 | past the guards, registering the excludes never fails |
| BackupProperties.AcceptedAbsoluteUnitRooted | BackupRunner/Processors/UnitProcessor.cs:37-38 | past the guards, a unit in absolute mode archives every source under a rooted prefix |
| BackupProperties.DigitsRoundTrip | BackupRunner/Processors/UnitProcessor.cs:41 | zero-padding a number and reading it back gives the number |
| BackupProperties.StampRoundTrip | BackupRunner/Processors/UnitProcessor.cs:41 | the stamp written for a time parses back to that time |
| BackupProperties.StampsSortChronologically | BackupRunner/Processors/UnitProcessor.cs:41 | written stamps compare as strings in chronological order |
| BackupProperties.FileNameOfJoin | BackupRunner/Processors/UnitProcessor.cs:41 | the file name of a joined path is the joined name |
| BackupProperties.ArchiveNameIsPlain | BackupRunner/Processors/UnitProcessor.cs:41 | the archive name holds no separator when the unit name holds none |
| BackupProperties.OutputNameShape | BackupRunner/Processors/UnitProcessor.cs:41 | the archive path is the destination joined with the archive name |
| BackupProperties.CreatedFileIsListed | BackupRunner/Archiving/TarSearcher.cs:13-14 | a file created in a directory is among that directory's files |
| BackupProperties.SavedArchiveIsListed | BackupRunner/Processors/UnitProcessor.cs:41-42 | the saved archive is listed in the destination, accepted, and carries the stamp of its time |
| BackupProperties.AcceptedFileIsFound | BackupRunner/Archiving/TarSearcher.cs:13-24 | every accepted file of the listing is among the found candidates |
| BackupProperties.SavedArchiveIsFound | BackupRunner/Processors/UnitProcessor.cs:41-45 | when the search succeeds, the archive just saved is found with its time |
| BackupProperties.StagedNamesRooted | BackupRunner/Archiving/TarBuilder.cs:44-46 | a rooted (or empty) prefix gives rooted entry names |
| BackupProperties.WrittenNamesRooted | BackupRunner/Archiving/TarBuilder.cs:92-95 | the entries written carry the staged names |
| BackupProperties.DirStagedRooted | BackupRunner/Processors/UnitProcessor.cs:37-38 | staging a source directory under a rooted prefix gives rooted names |
| BackupProperties.StageStepRooted | BackupRunner/Processors/UnitProcessor.cs:36-39 | one staging step keeps every name rooted |
| BackupProperties.StageSourcesRooted | BackupRunner/Processors/UnitProcessor.cs:36-39 | when every source's prefix is rooted, every staged name is rooted |
| BackupProperties.AbsoluteModeNamesRooted | BackupRunner/Processors/UnitProcessor.cs:38 | in absolute mode rooted sources are their own rooted prefixes |
| BackupProperties.TrailingSlashNamesRooted | BackupRunner/Processors/UnitProcessor.cs:38 | in relative mode a source ending in '/' has an empty prefix, so its names start with '/' |
| BackupProperties.BackupEntriesRooted | BackupRunner/Processors/UnitProcessor.cs:31-42 | with rooted prefixes, every entry a backup writes starts with '/' |
| BackupProperties.MappedKeysRelative | BackupRunner/Processors/UnitProcessor.cs:70-74 | the mapping loop keeps every key free of a leading '/' |
| BackupProperties.MapOneKeepsRelative | BackupRunner/Processors/UnitProcessor.cs:72-73 | one mapping keeps every key free of a leading '/' |
| BackupProperties.RootedArchiveRestoresNothing | BackupRunner/Processors/UnitProcessor.cs:65-77 | restoring an archive whose entries all start with '/' changes nothing beyond the mapping loop's directories |
| BackupProperties.MapKeepsFiles | BackupRunner/Processors/UnitProcessor.cs:70-74 | the mapping loop leaves every existing file unchanged |
| BackupProperties.MapOneKeepsFiles | BackupRunner/Archiving/TarExtractor.cs:26-37 | one mapping leaves every existing file unchanged |
| BackupProperties.DefaultUnitArchivesRooted | BackupRunner/Models/Unit.cs:12 | a unit at its defaults that passes the guards writes only entries starting with '/' |
| BackupProperties.RestoreUsesNewest | BackupRunner/Processors/UnitProcessor.cs:60-65 | a restore uses the first found archive, and no found archive is newer |
| BackupProperties.EverySourceMapped | BackupRunner/Processors/UnitProcessor.cs:70-74 | after a loop that does not fail, every source's folder has a row, earlier rows are kept, keys stay distinct |
| BackupProperties.MapOneTable | BackupRunner/Processors/UnitProcessor.cs:71-73 | one mapping either leaves the table or puts the source's key |
| BackupProperties.PutAdds | BackupRunner/Archiving/TarExtractor.cs:34-36 | a put adds its key and keeps every other key |
| BackupProperties.MapOneAdds | BackupRunner/Processors/UnitProcessor.cs:71-73 | one mapping that does not fail adds its folder and keeps the others |
| RestoreRoundTrip.RelativePrefixRoundTrip | BackupRunner/Processors/UnitProcessor.cs:36-76 | backing a directory up under a relative prefix and extracting into a fresh destination mapped from that prefix fails nowhere, brings back every archived file with its bytes at the same relative path, brings back nothing else, and leaves the rest of the filesystem alone |
| RestoreRoundTrip.ArchiveRestorable | BackupRunner/Archiving/TarBuilder.cs:34-52 | `Save` after `AddDirectory` under a relative prefix writes without failure one regular-file entry `prefix/rel` per kept file, holding that file's bytes |
| RestoreRoundTrip.OriginOfArchive | BackupRunner/Archiving/TarBuilder.cs:76-95 | each written entry comes from a listed, non-excluded, non-link regular file at `dir/rel` and holds its bytes |
| RestoreRoundTrip.StagedUnderPrefix | BackupRunner/Archiving/TarBuilder.cs:39-48 | under a prefix without separators, each staged file is a listed non-excluded file named by the prefix, '/' and its relative path |
| RestoreRoundTrip.KeptCovers | BackupRunner/Archiving/TarBuilder.cs:76-82 | every listed non-excluded regular file that is not a link is written by `Save` |
| RestoreRoundTrip.ExtractRestores | BackupRunner/Archiving/TarExtractor.cs:49-77 | extracting such an archive into a fresh destination fails nowhere, puts each entry's bytes at its target, creates no other file below the destination and changes nothing outside it |
| RestoreRoundTrip.ExtractPrefix | BackupRunner/Archiving/TarExtractor.cs:49-77 | the extraction loop over the first k entries restores exactly those entries |
| RestoreRoundTrip.ExtractNext | BackupRunner/Archiving/TarExtractor.cs:50-77 | one more pass of the loop keeps the extracted prefix restored and the outside unchanged |
| RestoreRoundTrip.PutStep | BackupRunner/Archiving/TarExtractor.cs:73-74 | storing the entry at a target where no file stood restores it and changes nothing outside the destination |
| RestoreRoundTrip.ExtractStep | BackupRunner/Archiving/TarExtractor.cs:55-76 | one pass of the loop routes the next entry to its target and restores it, or finds it already restored with the same bytes |
| RestoreRoundTrip.RouteOfEntry | BackupRunner/Archiving/TarExtractor.cs:55-64 | an entry named `key/rel` is routed by the mapping for `key` to `dest/rel` |
| RestoreRoundTrip.DirectoryStep | BackupRunner/Archiving/TarExtractor.cs:66 | creating the target's parent succeeds and adds only directories on the way to the target |
| RestoreRoundTrip.WriteStep | BackupRunner/Archiving/TarExtractor.cs:73-74 | when the target holds no file, creating it succeeds and stores the entry's bytes |
| RestoreRoundTrip.SkipStep | BackupRunner/Archiving/TarExtractor.cs:68-71 | a target that already holds a file was restored by an earlier entry with the same bytes |
| RestoreRoundTrip.Correspond | BackupRunner/Processors/UnitProcessor.cs:36-76 | entries restored to their targets bring back exactly the archived files |

## Left out

- The tar and gzip encodings: an archive file stores its entry list as a value.
- A followed link (TarBuilder.cs lines 85-90): the program's `GetFileTarHeader` resets the header to a regular file (or a directory, for a link to a directory), and `WriteEntry` then copies the link target's bytes. The model writes a `SymbolicLink` entry with no data as a stand-in for that whole branch; the link target, the reset header and the copied bytes are not modelled.
- `IgnoreGitRepositories` (UnitProcessor.cs line 34) calls a builder method that TarBuilder.cs does not define. That method is not part of this model, and the call is taken to have no effect.
- Host: Unix is fixed ('/' as the only separator, rooted means starting with '/'). Windows drive letters and '\\' as a separator are not modelled.
- Case-insensitive comparisons fold ASCII letters only.
- U+0000 in a path is modelled only in the validator (`Path.Exists` is false, `GetFullPath` throws). The file operations of the builder, the extractor and the search take such a path like any other, where .NET throws. A unit holding one never gets past validation: a source throws, and a destination is reported missing.
- CheckNesting: the nesting test (UnitValidator.cs line 83) calls the culture-sensitive `string.StartsWith`. The model compares ordinally (`IsSubPath`), so it skips no ignorable code point (such as U+00AD) and applies no other culture rule. The nesting errors it reports differ from .NET's for such names.
- Relative paths in the filesystem operations: `FileExists`, `DirectoryExists`, `CreateFile` and `CreateDirectory` look a path up exactly as written. In .NET they resolve a relative path against the working directory. Only the validator's `Exists` resolves paths. The processors pass only validated, rooted paths, so the unit-level results are unaffected. The members below take a relative path literally:
- AddFile: a relative file path is looked up as written, not under the working directory.
- AddDirectory: a relative directory is looked up and enumerated as written, not under the working directory.
- Save: a relative output path is created as written, not under the working directory.
- Construct: a relative archive path is tested as written, not under the working directory.
- MapFolder: a relative destination is tested and created as written; only the stored destination is made full.
- Extract: a relative archive path is read as written, not under the working directory.
- CreateDirectory: a relative path is created as written, not under the working directory.
- `\d` in both patterns is modelled as ASCII digits only; .NET also accepts other Unicode decimal digits.
- Path normalisation in `GetFullPath` is not modelled: `.` and `..` segments are not resolved, and repeated '/' are not collapsed (.NET turns `/a//b` into `/a/b`, which changes what the nesting check reports for such sources). Paths are joined to the working directory as written.
- `Cleanup.RetainedKeepsNewest` assumes that no directory enumeration yields the same path twice, as a real directory listing never does. The filesystem value does not enforce this.
- The tar library (SharpZipLib) is assumed to keep entry names verbatim, including a leading '/'. This applies both when an entry is written (TarBuilder.cs lines 94-95) and when it is read back (TarExtractor.cs line 55). The claims that a default-mode restore writes no file (`BackupProperties.DefaultUnitArchivesRooted`, `BackupProperties.RootedArchiveRestoresNothing`) rest on this.
- Calendars: `DateTime.ParseExact(..., null)` (TarSearcher.cs line 22) and the `DateTime.Now` formatting (UnitProcessor.cs line 41) use the current culture's calendar. The model fixes the Gregorian calendar, so `BackupProperties.StampRoundTrip` holds only for a culture that uses it.
- Logging (the `Logs` directory) is left out; the log calls are comments at their place.
- Program.cs, the command line and reading the configuration (`Config`) are not part of this model. The units arrive as an array.
- `Unit.ToString` is left out: it only formats a log line.
- The clock is a parameter: `now` for one backup, `clock` (one reading per unit) for a batch.
- Which deletions throw is a parameter: the set `undeletable`.
- I/O errors other than missing files and directories, permission errors, and races with other processes are left out.
- A null configuration value is left out: every field is present.
- `ConfigProcessor.ProcessUnit`: building the unit processor never throws in the model. In the code, `new UnitProcessor(unit)` sits outside the `try`, and the constructors it calls cannot throw for non-null fields.
- `Units.Unit.keepLastBackups` is an unbounded integer. The code's 32-bit `int` is only compared, never computed on, so no wrap-around arises.
- The unit processor switches `FollowSymlinks` off on the unit it was given (UnitProcessor.cs lines 26-29 and 55-58). The model follows this code, not a reading in which the stored unit is left alone.
