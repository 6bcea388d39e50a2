# EFCoreSQLiteFTS in Dafny

A model of the part of EFCoreSQLiteFTS that keeps a SQLite FTS5 full-text index of book
chapters in step with the chapters saved through Entity Framework Core:

- **Text normalisation** (`FtsNormalizer`): `NormalizeText` turns null or white-space text
  into the empty string and removes every HTML tag matched by `<[^>]*>`.
- **Index synchronisation** (`UpdateFtsTriggers`): each saved change becomes index
  statements for the external-content table `Chapters_FTS(Text, Title)`. An added chapter
  gets an insert. A modified chapter gets a 'delete' of its old normalised values, then an
  insert of the new ones. A deleted chapter gets a 'delete'. When any change was indexed,
  the new vocabulary terms are copied into the spellfix1 table, which is then reset. All of
  this runs in one transaction. That transaction is committed even when a statement throws,
  and the error still reaches the caller. Beginning it while the caller has a transaction
  open throws; the `finally` then commits the caller's transaction and no statement runs.
- **Change capture** (`EFChangeTrackerExtensions`):
  - Changes are detected exactly once.
  - An entry counts as changed if it, or an owned entity reachable from it, is added,
    modified or deleted.
  - The "old" chapter is rebuilt by copying the entry's original values onto a new chapter.
- **Saving** (`ApplicationDbContext`):
  1. The changes are captured.
  2. The base save runs with automatic change detection off.
  3. Detection is switched back on.
  4. The index is updated. It reads the live entities, so an added chapter is indexed
     under the key the base save generated for it.

  A base save that throws skips the index update and leaves automatic detection off.
- **Start-up helpers**:
  - The extensions directory is added to the Windows PATH (`LoadSqliteExtensions`).
  - The content root is the part of the working directory before `\bin\`.
  - The `%CONTENTROOTPATH%` placeholder of the connection string is filled in
    (`EFServiceProvider`).

The database engine is abstract (`FtsEngine`). The index is a map from rowid to the indexed
Text and Title, and it becomes `Malformed` in two cases:

- a 'delete' whose values do not match the indexed row;
- a second insert of a rowid that is already indexed.

Whether a statement throws is an input, `failAt`: the ordinal of the statement that raises.
The fts5vocab term counts are an uninterpreted function of the index. The .NET string
operations the code uses are written out in `Strings`: ordinal `IndexOf`, `Contains`,
`Split` without options, `Join` and the non-rescanning `Replace`. Null strings are
`Option<string>`, and exceptions are `Result`/`Outcome` failures.

The central theorem is `UpdateFtsTriggers.SyncKeepsIndexInStep`. Suppose the changes are in
step with the index (`InStep`):

- the index holds no row for an added chapter;
- it holds exactly the normalised original values of every modified or deleted chapter;
- a modified chapter keeps its key;
- no two changes are about the same rowid.

Then, after the synchronisation statements, the index holds the
normalised new values of every added or modified chapter, no row for a deleted one, and
everything else unchanged. The spellfix table gains the new index's vocabulary when some
change was indexed. `UpdateChapterFTS` and `SaveChanges` carry this as an `ensures`
for the case where every statement runs.

## Model

| member | source | states |
|---|---|---|
| FtsNormalizer.NormalizeText | DataLayer/UpdateFtsTriggers.cs:13-26 | Null or white-space text gives the empty string. The result is a subsequence of the text and holds no tag. Text with no tag comes back unchanged. |
| FtsNormalizer.StripTags | DataLayer/UpdateFtsTriggers.cs:11 | The `<[^>]*>` replacement, scanning left to right: a `<` with a later `>` is dropped up to and including the first such `>`; any other character is kept. Its lemmas below pin the result down. |
| FtsNormalizer.StripTagsSubsequence | DataLayer/UpdateFtsTriggers.cs:11 | Removing tags only deletes characters: the result is a subsequence of the input. |
| FtsNormalizer.TagShrinks | DataLayer/UpdateFtsTriggers.cs:11 | Removing tags never lengthens the text, and strictly shortens it when a tag is present. |
| FtsNormalizer.StripTagsFixedIff | DataLayer/UpdateFtsTriggers.cs:11 | The tag replacement leaves the text unchanged exactly when there is no `<`…`>` in it. |
| FtsNormalizer.StripTagsLeavesNoTag | DataLayer/UpdateFtsTriggers.cs:11 | After the replacement no `<` is followed by a `>`. |
| FtsNormalizer.StripTagsIdempotent | DataLayer/UpdateFtsTriggers.cs:11 | Removing tags a second time changes nothing. |
| FtsNormalizer.StripTagsKeepsPrefix | DataLayer/UpdateFtsTriggers.cs:11 | Text before the first `<` is kept as is. |
| FtsNormalizer.StripTagsRemovesTag | DataLayer/UpdateFtsTriggers.cs:11 | A leading `<`, a run without `>`, and the closing `>` are removed together. |
| FtsNormalizer.NormalizeTwice | DataLayer/UpdateFtsTriggers.cs:15-21 | Normalising a normalised text returns it, unless it is white space only, which then becomes empty. |
| FtsNormalizer.WhiteSpaceInsideTags | DataLayer/UpdateFtsTriggers.cs:15-21 | The white-space test runs before the tags are removed: `<b> </b>` becomes a single space, and that space normalises to empty. |
| FtsNormalizer.NormalizeBoldX | DataLayer/UpdateFtsTriggers.cs:13-26 | `<b>x</b>` and `x` normalise to the same text. |
| FtsEngine.ImportNewTerms | DataLayer/UpdateFtsTriggers.cs:88-90 | The spellfix words become the old words plus the vocabulary terms. Existing words keep their rank; new terms get their count. |
| FtsEngine.MalformedIsFinal | DataLayer/InitDb.cs:81-82 | Once the external-content index is malformed, no sequence of statements repairs it. |
| FtsEngine.ApplyAllAppend | DataLayer/UpdateFtsTriggers.cs:42-92 | Running two batches of statements one after the other is running their concatenation. |
| FtsEngine.Database.BeginTransaction | DataLayer/UpdateFtsTriggers.cs:39 | It succeeds exactly when no transaction is open, and then the begin is logged. It throws when one is open, which stays open. Either way a transaction is open afterwards and the store is unchanged. |
| FtsEngine.Database.ExecuteSqlRaw | DataLayer/UpdateFtsTriggers.cs:58-59 | A statement that does not raise updates the store by its effect. One that raises changes nothing. Either way it is logged. |
| FtsEngine.Database.CommitTransaction | DataLayer/UpdateFtsTriggers.cs:94-97 | The transaction is closed; the store is unchanged; the commit is logged. |
| UpdateFtsTriggers.ShouldSkipAddedChapter | DataLayer/UpdateFtsTriggers.cs:100-104 | Never skips an added chapter. |
| UpdateFtsTriggers.ShouldSkipModifiedChapter | DataLayer/UpdateFtsTriggers.cs:106-110 | Skips a modification exactly when the raw Text and the raw Title are both unchanged. `SkipIsSound` and `MarkupOnlyEditIsNotSkipped` relate it to the normalised row. |
| UpdateFtsTriggers.ChangeCommands | DataLayer/UpdateFtsTriggers.cs:51-82 | The statements of one `switch` pass: an insert for an added chapter, a 'delete' of the old row then an insert for a modified one not skipped, a 'delete' for a deleted one, nothing otherwise. `SetsUpdatedIffIssues` and `OneChangeEffect` state what they do. |
| UpdateFtsTriggers.SkipIsSound | DataLayer/UpdateFtsTriggers.cs:106-110 | A modification the skip rule drops has the same normalised row as the one indexed. |
| UpdateFtsTriggers.MarkupOnlyEditIsNotSkipped | DataLayer/UpdateFtsTriggers.cs:106-110 | The skip rule compares raw values: an edit that only adds markup is re-indexed although its normalised row is unchanged. |
| UpdateFtsTriggers.SetsUpdatedIffIssues | DataLayer/UpdateFtsTriggers.cs:51-82 | A change sets `isUpdated` exactly when it issues a statement. Its statements never touch the spellfix table. |
| UpdateFtsTriggers.RefreshIffSomethingIndexed | DataLayer/UpdateFtsTriggers.cs:40-92 | `isUpdated` ends up set exactly when some change issued an index statement. |
| UpdateFtsTriggers.SpellFixRefreshRule | DataLayer/UpdateFtsTriggers.cs:85-92 | The vocabulary import and the reset are sent exactly when a change was indexed. When they are, they are the last two statements, import first. |
| UpdateFtsTriggers.OneChangeEffect | DataLayer/UpdateFtsTriggers.cs:51-82 | For an index in step with one change, that change's statements keep the index healthy and bring its row to the new state. |
| UpdateFtsTriggers.ChangesKeepIndexInStep | DataLayer/UpdateFtsTriggers.cs:42-83 | For an index in step with all changes, the per-change statements in list order give: new rows for added or modified chapters, no row for deleted ones, everything else unchanged, spellfix untouched. |
| UpdateFtsTriggers.SyncKeepsIndexInStep | DataLayer/UpdateFtsTriggers.cs:42-92 | For an index in step with all changes, the whole statement list leaves it healthy and reflecting every change. The spellfix table gains the vocabulary of the new index exactly when some change was indexed, and is untouched otherwise. |
| UpdateFtsTriggers.StaleDeleteCorrupts | DataLayer/UpdateFtsTriggers.cs:67-79 | A 'delete' whose old values are not the indexed ones leaves the index malformed. |
| UpdateFtsTriggers.InsertBeforeDeleteCorrupts | DataLayer/UpdateFtsTriggers.cs:67-72 | Issuing a modification's insert before its 'delete' would corrupt an index that is in step, so the order matters. |
| UpdateFtsTriggers.SyncChange | DataLayer/UpdateFtsTriggers.cs:51-82 | One pass of the `switch` runs that change's statements in order. It stops at the first that raises and reports how many completed. |
| UpdateFtsTriggers.SyncModified | DataLayer/UpdateFtsTriggers.cs:62-74 | A modification the skip rule does not drop runs the old row's 'delete', then the new row's insert, stopping at the first that raises. A skipped one runs nothing. |
| UpdateFtsTriggers.SyncChanges | DataLayer/UpdateFtsTriggers.cs:40-83 | The loop stops at the first statement that raises. Otherwise it has issued every change's statements, and `isUpdated` says whether any change was indexed. |
| UpdateFtsTriggers.RefreshSpellFix | DataLayer/UpdateFtsTriggers.cs:85-92 | The import runs, then the reset, stopping at the first that raises. |
| UpdateFtsTriggers.Finish | DataLayer/UpdateFtsTriggers.cs:94-97 | The transaction is committed whether or not a statement raised, and a raised error is returned. |
| UpdateFtsTriggers.UpdateChapterFTS | DataLayer/UpdateFtsTriggers.cs:31-98 | No transaction is left open. Inside a caller's transaction, the begin throws: the store is unchanged, only the commit is logged, and the invalid-operation error is returned. Otherwise the store is the statements up to the one that raises, applied to the old store. The log is begin, those statements, the raising one, commit. The error is returned. When every statement runs, an index in step ends up reflecting every change. |
| EFChangeTrackerExtensions.IsEntityChanged | DataLayer/EFChangeTrackerExtensions.cs:28-34 | An entry is changed when it is added, modified or deleted, or when one of its references targets an owned entry that is changed. The three lemmas below characterise it. |
| EFChangeTrackerExtensions.ChangedIffAggregateChanged | DataLayer/EFChangeTrackerExtensions.cs:28-34 | An entry is changed exactly when some entry of its owned aggregate (itself and owned references, transitively) is added, modified or deleted. |
| EFChangeTrackerExtensions.UnownedReferencesIgnored | DataLayer/EFChangeTrackerExtensions.cs:28-34 | An unchanged entry whose reference points to an entity that is not owned is not changed, whatever that entity's state. |
| EFChangeTrackerExtensions.OwnedDependentCounts | DataLayer/EFChangeTrackerExtensions.cs:28-34 | An unchanged owner with a modified owned dependent is changed. |
| EFChangeTrackerExtensions.SetValue | DataLayer/EFChangeTrackerExtensions.cs:48 | Reflection's `SetValue` for one chapter property. `SetValueSpec` states it. |
| EFChangeTrackerExtensions.ApplyValues | DataLayer/EFChangeTrackerExtensions.cs:39-50 | The original values copied in order onto a chapter, stopping at a nested value (not supported) or a value `SetValue` refuses. `CopyRoundTrip` and `ApplyValuesFails` state it. |
| EFChangeTrackerExtensions.SetValueSpec | DataLayer/EFChangeTrackerExtensions.cs:48 | Setting a property succeeds exactly for a value of its type or null. It sets that property and no other. A wrong type throws an argument exception. |
| EFChangeTrackerExtensions.CreateWithValues | DataLayer/EFChangeTrackerExtensions.cs:36-52 | The loop's result is the original values copied in order onto a new chapter, stopping at the first one that throws. |
| EFChangeTrackerExtensions.CopyRoundTrip | DataLayer/EFChangeTrackerExtensions.cs:36-52 | Copying a chapter's own values onto a new chapter rebuilds that chapter. |
| EFChangeTrackerExtensions.ApplyValuesFails | DataLayer/EFChangeTrackerExtensions.cs:39-50 | The copy succeeds exactly when every value fits its property. Otherwise the first misfit decides the exception: not-supported for a nested value, argument for a wrong type. |
| EFChangeTrackerExtensions.ChangedOnly | DataLayer/EFChangeTrackerExtensions.cs:20-21 | The filtered entries are a subsequence of the tracked ones. They are all changed, and no changed entry is missed. |
| EFChangeTrackerExtensions.ChangedOnlyCounts | DataLayer/EFChangeTrackerExtensions.cs:20-21 | Each changed entry occurs in the result as often as among the tracked ones, and an unchanged one not at all. |
| EFChangeTrackerExtensions.ChangedEntities | DataLayer/EFChangeTrackerExtensions.cs:20-25 | The `Where`/`Select`/`ToList` pipeline: a successful list is never longer than the entries. The three lemmas below state exactly when it succeeds, what it holds and which error it fails with. |
| EFChangeTrackerExtensions.ChangedEntitiesSucceeds | DataLayer/EFChangeTrackerExtensions.cs:20-25 | The list is built exactly when every changed entry's copy succeeds. |
| EFChangeTrackerExtensions.ChangedEntitiesContents | DataLayer/EFChangeTrackerExtensions.cs:20-25 | The list has one triple per changed entry, in order: its state, its live entity and the copy of its original values. With `ChangedOnly`, only changed tracked entries reach the list. |
| EFChangeTrackerExtensions.ChangedEntitiesFirstFailure | DataLayer/EFChangeTrackerExtensions.cs:20-25 | A failed list carries the exception of the first changed entry whose copy throws. |
| EFChangeTrackerExtensions.ChangeTracker.DetectChanges | DataLayer/EFChangeTrackerExtensions.cs:17 | The recorded entries become the detected ones, and one detection is counted. |
| EFChangeTrackerExtensions.ChangeTracker.Entries | DataLayer/EFChangeTrackerExtensions.cs:20 | Entries are detected first exactly when automatic detection is on. |
| EFChangeTrackerExtensions.GetChangedEntities | DataLayer/EFChangeTrackerExtensions.cs:11-26 | Changes are detected exactly once, whatever the auto-detect setting, which is left as it was. The result is the triple list of the detected entries. |
| ApplicationDbContext.AssignKeys | DataLayer/ApplicationDbContext.cs:44-47 | After the base save, a triple's live entity is the captured one, except that an added chapter carries the generated key of its rank among the added chapters. When fewer keys were generated, it keeps its id. States, original-value copies and the other changes are as captured. |
| ApplicationDbContext.AssignKeysToAdded | DataLayer/ApplicationDbContext.cs:44-47 | When every change is an addition, the k-th added chapter has the k-th generated key. |
| ApplicationDbContext.AddedWithFreshKeysInStep | DataLayer/InitDb.cs:25-73 | A save that only adds chapters, with distinct generated keys not yet indexed, is in step with the index, so the index ends up with a row per added chapter. |
| ApplicationDbContext.ApplicationDbContext.BaseSaveChanges | DataLayer/ApplicationDbContext.cs:44 | The base save detects changes only when automatic detection is on. It then accepts the entries and returns the count, or throws. When it throws, the entries are the detected ones if it detected, and as before otherwise. |
| ApplicationDbContext.ApplicationDbContext.SaveChanges | DataLayer/ApplicationDbContext.cs:39-49 | Changes are detected once. A capture failure is returned with the entries detected and the database untouched. A base-save failure leaves detection off, the entries detected and the database untouched, transaction flag included. After a successful base save, detection is back on and no transaction is left open. Inside a caller's transaction, the index update throws, committing that transaction and changing no index row. Otherwise the index gets the statements of the captured changes, with added chapters carrying their generated keys. The result is the row count, or the index error. |
| ApplicationDbContext.ApplicationDbContext.SaveChangesAsync | DataLayer/ApplicationDbContext.cs:51-61 | The same effect as `SaveChanges`, stated in full by the same predicate, with the base save awaited. |
| LoadSqliteExtensions.Distinct | DataLayer/LoadSqliteExtensions.cs:17 | The hash set's entries: no duplicates, and exactly the elements of the split. |
| LoadSqliteExtensions.ExtendedPathEntries | DataLayer/LoadSqliteExtensions.cs:17-20 | For a new directory free of `;`, the written PATH lists the old entries plus the directory, each once, the directory last. |
| LoadSqliteExtensions.ProcessEnvironment.GetPath | DataLayer/LoadSqliteExtensions.cs:17 | Reading PATH returns its value (null when unset) and logs the read. |
| LoadSqliteExtensions.ProcessEnvironment.SetPath | DataLayer/LoadSqliteExtensions.cs:20 | Writing PATH sets it and logs the write. |
| LoadSqliteExtensions.AddToSystemPath | DataLayer/LoadSqliteExtensions.cs:10-22 | Off Windows: not-supported, with PATH neither read nor written. An unset PATH throws a null reference. A directory already listed causes no write. Otherwise the extended PATH is written. Afterwards the directory is an entry. |
| EFServiceProvider.RemoveEmptyEntries | EFServiceProvider.cs:51 | Empty pieces are dropped: the result is a subsequence, has no empty piece, keeps every non-empty one, and starts with a non-empty first piece. |
| EFServiceProvider.RemoveEmptyEntriesCounts | EFServiceProvider.cs:51 | Each non-empty piece occurs in the result as often as in the split, and the empty piece not at all. |
| EFServiceProvider.ContentRootPath | EFServiceProvider.cs:50-51 | The first non-empty piece of the base path split at `\bin\`, or an index-out-of-range error when there is none. The lemmas below characterise it. |
| EFServiceProvider.ContentRootIsClean | EFServiceProvider.cs:51 | A content root is non-empty and contains no `\bin\`. |
| EFServiceProvider.ContentRootWithoutBin | EFServiceProvider.cs:50-51 | A base path without `\bin\` is its own content root. An empty one makes the indexing throw. |
| EFServiceProvider.ContentRootBeforeBin | EFServiceProvider.cs:51 | When something precedes the first `\bin\`, that prefix is the content root. |
| EFServiceProvider.ContentRootSkipsLeadingBin | EFServiceProvider.cs:51 | A leading `\bin\` is skipped. |
| EFServiceProvider.ContentRootOfBuildOutput | EFServiceProvider.cs:50-51 | `C:\src\bin\Debug` has content root `C:\src`. |
| EFServiceProvider.GetConnectionString | EFServiceProvider.cs:81-90 | A missing key throws a null reference. Otherwise every placeholder occurrence is replaced by the content root, and a string without one is returned unchanged. |
| EFServiceProvider.PlaceholderAsRoot | EFServiceProvider.cs:81-90 | Substituting the placeholder for itself returns the configured string. |
| Strings.ReplaceIsSplitJoin | EFServiceProvider.cs:86 | The one-pass `Replace` equals splitting at the pattern and joining with the replacement. |
| Strings.JoinSplit | EFServiceProvider.cs:86 | Joining the pieces of a split with the separator gives back the string. |
| Strings.SplitJoinChar | DataLayer/LoadSqliteExtensions.cs:17-20 | Splitting, at one character, a join of pieces that do not contain it gives back the pieces. |
| Strings.SplitPiecesFree | DataLayer/LoadSqliteExtensions.cs:17 | No piece of a split contains the separator. |

## Left out

- Dependency injection, the lazily built service provider, logging and console output, and the JSON configuration file (the configuration is a key/value map).
- `LoadExtension` and the other connection set-up: they need the native library.
- The Chapters table is not modelled. The base save's writes are an input: the row count, the entries after acceptance and the keys generated for added chapters, or the exception it throws. EF Core's own saving and `DetectChanges` comparison are also inputs: the entries detection finds are given.
- The FTS5 and spellfix1 engines: tokenising, ranking, the vocabulary, edit costs and the reset command. The vocabulary is an uninterpreted function of the index; the reset changes nothing the model observes.
- The index as `Malformed`: both the mismatched 'delete' and the re-insert of an indexed rowid are modelled as corrupting it. This is a conservative reading of the engine's "database disk image is malformed" behaviour.
- The isolation level and concurrency. `SaveChangesAsync` and its cancellation token run to completion sequentially; a cancellation is one of the base save's exceptions.
- The live entity in each triple: the model passes its values. The base save's only write to them that the index update reads, the key generated for an added chapter, is an input of the base save and is put into the triples before the update.
- The generic entity type: only chapter entries are tracked (`Entries<Chapter>()`). A reference's target entry is a value, so reference cycles through owned entities are not represented.
- General regular expressions: only `<[^>]*>`, with leftmost-first matching, is modelled.
- HashSet enumeration order: it is taken as first-insertion order. The contracts state only the set of entries and the absence of duplicates.
- The PATH separator on other platforms: that code path throws before reading PATH.
- `User` and the keyless `ChapterFTS`/`SpellCheck` result types, `OnConfiguring` and `OnModelCreating`: they carry no behaviour of the core.
- LoadSqliteExtensions.AddToSystemPath: states the entry set of the written PATH only for a directory without `;`. A directory containing `;` is split into several entries when PATH is read back.
