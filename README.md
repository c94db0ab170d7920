# Snapshot bookkeeping of RefactoringMiner's history miner

RefactoringMiner detects refactorings commit by commit. For each commit,
`GitHistoryRefactoringMinerImpl` builds two snapshots, "before" and "current".
Each snapshot is a map from path to file text plus a set of directories. The
two snapshots go to an external structural diff. This project models, in
Dafny, the bookkeeping around that diff:

- how the snapshots are filled, in three ways:
  - from a local repository's change list and tree listing;
  - from extracted archives;
  - from the GitHub commit API, with one fetch worker per changed-file record.
- how the changed-file records are classified into before/current lists and a
  rename hint.
- how the directory skeleton is computed: ancestor closure, and tree pruning
  towards the parent directories of deleted and renamed files.
- how `processIdenticalFiles` pairs identical files across the two snapshots,
  removes them in place and groups directory moves into move-source-folder
  events.
- the clone-URL helpers (repository name, commit page, archive link).
- the refactoring-type filter, the guard that decides whether a commit is
  analysed, and the counters and handler calls of the loop over a history.

Modules, one per file:

| module | file | what |
|---|---|---|
| `Wrappers` | wrappers.dfy | `Option`, `Result` and the Java runtime exceptions the code can raise itself |
| `Strings` | strings.dfy | `startsWith`, `endsWith`, `indexOf`, `lastIndexOf`, the directory part of a path, ancestors, `String.replace` |
| `FileContents` | file_contents.dfy | path → text maps as sequences with distinct keys (`LinkedHashMap` order) |
| `TreePruning` | tree_pruning.dfy | `repositoryDirectories` / `atLeastOneStartsWith` over a tree datatype |
| `Snapshot` | snapshot.dfy | class `SnapshotSide` and the two `populateFileContents` overloads |
| `IdentityReconciler` | identity_reconciler.dfy | `processIdenticalFiles` |
| `ChangedFiles` | changed_files.dfy | classification of commit-file records, fetch workers, `populateWithGitHubAPI` |
| `RepositoryUrls` | repository_urls.dfy | `extractRepositoryName`, `extractCommitURL`, `extractDownloadLink` |
| `CommitPipeline` | commit_pipeline.dfy | `filter`, the guard of `detectRefactorings`, `detect` |

The state that the source changes in place keeps that form in the model:

- a `SnapshotSide` object has the fields `contents` and `directories`;
- its methods reassign them under `modifies` clauses;
- each method is proved against a specification function of the old state,
  and the lemmas about that function state what the source promises.

`trivialCommentChange` and `getRenamePattern` are not part of this model. They
are function-typed parameters:

- `trivial(a, b)` has no assumed properties, not even symmetry;
- `pattern(originalPrefix, movedPrefix)` is compared only for equality.

Fetched file texts, file reads, blob reads and the tree listing are also
parameters.

Points where the model follows the code rather than a looser reading of it:

- The API strategy prunes the tree towards the parent directories of removed
  files and of the previous names of renamed files. It does not prune towards
  all changed paths. It fills only the current directory set; the before set
  stays as it was.
- The `.java` test of a record is on its (new) `fileName`, also for renames.
- A commit without parents makes `getParents().get(0)` throw. A commit without
  records makes `newFixedThreadPool(0)` throw. Both are modelled errors.
- In the local-repository listing, the `contains("/")` test is on the absolute
  path, but the cut is made on the root-relative path. A Java file directly
  under the root therefore makes `substring(0, -1)` throw; the model reports
  this as a failure (`ok == false`).

## Model

| member | source | states |
|---|---|---|
| `Strings.IndexOf` | src/org/refactoringminer/rm1/GitHistoryRefactoringMinerImpl.java:851-852 | the result is the FIRST index where the text occurs, or -1 exactly when it occurs nowhere |
| `Strings.LastIndexOf` | src/org/refactoringminer/rm1/GitHistoryRefactoringMinerImpl.java:240 | the result is the last index holding the character, or -1 exactly when the character is absent |
| `Strings.Parent` | src/org/refactoringminer/rm1/GitHistoryRefactoringMinerImpl.java:238-245 | the directory prefix is the text before the last '/', or "" when there is no '/' |
| `Strings.AncestorsOfParent` | src/org/refactoringminer/rm1/GitHistoryRefactoringMinerImpl.java:376-379 | the ancestors of a path are its directory plus that directory's ancestors, which is the trimming step of the directory loop |
| `Strings.ReplaceAllAbsent` | src/org/refactoringminer/rm1/GitHistoryRefactoringMinerImpl.java:690 | `String.replace` leaves a text without the target unchanged |
| `Strings.ReplaceSoleOccurrence` | src/org/refactoringminer/rm1/GitHistoryRefactoringMinerImpl.java:690 | replacing a target that occurs exactly once swaps exactly that occurrence |
| `FileContents.Lookup` | src/org/refactoringminer/rm1/GitHistoryRefactoringMinerImpl.java:193-195 | `get` finds a text exactly for the keys of the map, and with distinct keys it finds the one entry's text |
| `FileContents.Put` | src/org/refactoringminer/rm1/GitHistoryRefactoringMinerImpl.java:374 | `put` adds the key to the key set, and a new key is appended at the end (insertion order) |
| `FileContents.PutLookup` | src/org/refactoringminer/rm1/GitHistoryRefactoringMinerImpl.java:374 | after `put`, the key maps to the new text and every other key keeps its text |
| `FileContents.PutDistinct` | src/org/refactoringminer/rm1/GitHistoryRefactoringMinerImpl.java:374 | `put` keeps keys distinct (a map stays a map) |
| `FileContents.RemoveKeys` | src/org/refactoringminer/rm1/GitHistoryRefactoringMinerImpl.java:231-232 | `keySet().removeAll` keeps exactly the entries whose key is not removed, with their texts |
| `TreePruning.StartsWithDirectoryIsAncestor` | src/org/refactoringminer/rm1/GitHistoryRefactoringMinerImpl.java:791-801 | for a path without a trailing '/', the `startsWith(path + "/")` test holds exactly when the path is a '/'-boundary ancestor of the target |
| `TreePruning.PrunedHaveTargetBelow` | src/org/refactoringminer/rm1/GitHistoryRefactoringMinerImpl.java:767-789 | every directory the walk adds passes `atLeastOneStartsWith` for some target |
| `TreePruning.PrunedEntriesHaveTargetBelow` | src/org/refactoringminer/rm1/GitHistoryRefactoringMinerImpl.java:768-788 | the same holds for the entries visited so far, including the recursion into non-target subtrees |
| `TreePruning.PrunedAreAncestorsOfTargets` | src/org/refactoringminer/rm1/GitHistoryRefactoringMinerImpl.java:767-801 | every directory added is an ancestor of some target path |
| `TreePruning.PrunedWithoutTargets` | src/org/refactoringminer/rm1/GitHistoryRefactoringMinerImpl.java:776 | with no targets, the walk adds nothing |
| `TreePruning.PrunedKeepsAncestorsOfTargets` | src/org/refactoringminer/rm1/GitHistoryRefactoringMinerImpl.java:767-789 | conversely, a listed ancestor of a target is kept whenever no target lies above it, because every directory on the way to it is entered |
| `TreePruning.NestedTargetHidesDirectory` | src/org/refactoringminer/rm1/GitHistoryRefactoringMinerImpl.java:776-778 | as written, with targets "a" and "a/b/c" the listed directory "a/b" is not kept: the target "a" is added but not entered |
| `TreePruning.PrunedThroughTargetsKeepsAncestors` | src/org/refactoringminer/rm1/GitHistoryRefactoringMinerImpl.java:767-789 | a walk that also enters target directories keeps every listed ancestor of every target, nested targets or not |
| `TreePruning.PrunedThroughTargetsHaveTargetBelow` | src/org/refactoringminer/rm1/GitHistoryRefactoringMinerImpl.java:767-789 | that walk still keeps only paths with some target below them |
| `Snapshot.SnapshotSide.constructor` | src/org/refactoringminer/rm1/GitHistoryRefactoringMinerImpl.java:157-160 | a new snapshot side has an empty map and no directories |
| `Snapshot.SnapshotSide.AddAncestorDirectories` | src/org/refactoringminer/rm1/GitHistoryRefactoringMinerImpl.java:375-379 | the `lastIndexOf("/")` loop adds exactly the '/'-boundary ancestors of the path, and root-level paths add nothing |
| `Snapshot.SnapshotSide.PopulateFromArchive` | src/org/refactoringminer/rm1/GitHistoryRefactoringMinerImpl.java:370-381 | every listed file is read and put in order, and the directories gain exactly the ancestors of the listed files |
| `Snapshot.SnapshotSide.AddContentsFromChanges` | src/org/refactoringminer/rm1/GitHistoryRefactoringMinerImpl.java:273-289 | the change loop's contents are the specification `ChangeContents` of the old contents |
| `Snapshot.SnapshotSide.AddListedDirectories` | src/org/refactoringminer/rm1/GitHistoryRefactoringMinerImpl.java:290-305 | it succeeds exactly when no listed Java file lies directly under the root; on success the directories gain the ancestors of the listed Java files; on failure such a file exists |
| `Snapshot.SnapshotSide.PopulateFromRepository` | src/org/refactoringminer/rm1/GitHistoryRefactoringMinerImpl.java:271-306 | the contents are the change loop's; it succeeds exactly when no listed Java file lies directly under the root; on success the directories gain the ancestors of all listed Java files, on failure those of the Java files listed before a root-level one |
| `Snapshot.SnapshotSide.AddRepositoryDirectories` | src/org/refactoringminer/rm1/GitHistoryRefactoringMinerImpl.java:767-789 | the recursive walk adds exactly the pruned directory set `Pruned` to the shared set |
| `Snapshot.ListedJavaFilesPrefix` | src/org/refactoringminer/rm1/GitHistoryRefactoringMinerImpl.java:293-294 | the Java files of a prefix of the listing are among those of the whole listing |
| `Snapshot.ListedJavaFilesStep` | src/org/refactoringminer/rm1/GitHistoryRefactoringMinerImpl.java:293-304 | one more listed file adds its relative path when it is a Java file with a '/', and the directory set grows by that path's ancestors |
| `Snapshot.PutAllContents` | src/org/refactoringminer/rm1/GitHistoryRefactoringMinerImpl.java:371-374 | after the archive reads, every listed path maps to its read text, and every other key keeps its text |
| `Snapshot.AncestorsOfAllMembers` | src/org/refactoringminer/rm1/GitHistoryRefactoringMinerImpl.java:375-379 | a directory is recorded exactly when it is an ancestor of one of the files |
| `Snapshot.ChangeContentsKeepsExisting` | src/org/refactoringminer/rm1/GitHistoryRefactoringMinerImpl.java:283 | a key already in the map is never overwritten by the change loop |
| `Snapshot.ChangeContentsAddsRequested` | src/org/refactoringminer/rm1/GitHistoryRefactoringMinerImpl.java:280-287 | every key the change loop adds was asked for and holds the blob of the chosen revision of a change naming it |
| `Snapshot.ChangeContentsComplete` | src/org/refactoringminer/rm1/GitHistoryRefactoringMinerImpl.java:273-289 | every asked-for file that some change has on the chosen side ends up in the map |
| `Snapshot.RootLevelJavaFileFails` | src/org/refactoringminer/rm1/GitHistoryRefactoringMinerImpl.java:294-296 | a Java file directly under the root gives a relative path without '/', on which `lastIndexOf` is -1 |
| `IdentityReconciler.FirstFree` | src/org/refactoringminer/rm1/GitHistoryRefactoringMinerImpl.java:203-212 | the inner loop picks the first unpaired current file, in iteration order, whose text is accepted; with no pick, no unpaired current file is accepted |
| `IdentityReconciler.CrossPathPassExtends` | src/org/refactoringminer/rm1/GitHistoryRefactoringMinerImpl.java:202-230 | passes two and three only add pairs and never change an existing pair |
| `IdentityReconciler.SamePathPassShape` | src/org/refactoringminer/rm1/GitHistoryRefactoringMinerImpl.java:192-200 | pass one pairs only paths present in both maps, each with itself |
| `IdentityReconciler.CrossPathPassShape` | src/org/refactoringminer/rm1/GitHistoryRefactoringMinerImpl.java:202-230 | a cross-path pass keeps the pairing injective and pairs only unpaired before-paths with not-yet-used current paths |
| `IdentityReconciler.IdentityMatchInjective` | src/org/refactoringminer/rm1/GitHistoryRefactoringMinerImpl.java:191-230 | the final pairing is injective, its keys are before-paths and its values are current-paths |
| `IdentityReconciler.SamePathPassFinds` | src/org/refactoringminer/rm1/GitHistoryRefactoringMinerImpl.java:192-200 | every path present on both sides with equal or trivially different texts is paired with itself by pass one |
| `IdentityReconciler.IdentityMatchKeepsSamePath` | src/org/refactoringminer/rm1/GitHistoryRefactoringMinerImpl.java:192-230 | those same-path pairs survive the later passes |
| `IdentityReconciler.SamePathPassSound` | src/org/refactoringminer/rm1/GitHistoryRefactoringMinerImpl.java:193-197 | every pass-one pair joins texts that are equal or trivially different |
| `IdentityReconciler.CrossPathPassSound` | src/org/refactoringminer/rm1/GitHistoryRefactoringMinerImpl.java:205-210 | every pair a cross-path pass adds joins texts the pass accepts |
| `IdentityReconciler.CrossPathPassPairedTexts` | src/org/refactoringminer/rm1/GitHistoryRefactoringMinerImpl.java:202-230 | a pass whose test implies "equal or trivial" keeps every pair joining such texts |
| `IdentityReconciler.IdentityMatchPairsTexts` | src/org/refactoringminer/rm1/GitHistoryRefactoringMinerImpl.java:191-230 | every final pair joins a before-entry and a current-entry whose texts are equal or trivially different |
| `IdentityReconciler.IdentityMatchSound` | src/org/refactoringminer/rm1/GitHistoryRefactoringMinerImpl.java:191-230 | on proper maps, `get` of each paired key and value gives texts that are equal or trivially different |
| `IdentityReconciler.CrossPathPassSaturates` | src/org/refactoringminer/rm1/GitHistoryRefactoringMinerImpl.java:202-214 | after a cross-path pass, no unpaired before-file has an unpaired current-file the pass accepts |
| `IdentityReconciler.IdentityMatchSaturated` | src/org/refactoringminer/rm1/GitHistoryRefactoringMinerImpl.java:191-230 | an unpaired before-file and an unpaired current-file are neither equal nor trivially different (the greedy matching is maximal) |
| `IdentityReconciler.CrossPathPassNothing` | src/org/refactoringminer/rm1/GitHistoryRefactoringMinerImpl.java:202-214 | a pass whose test accepts no pair adds nothing |
| `IdentityReconciler.SamePathPassNothing` | src/org/refactoringminer/rm1/GitHistoryRefactoringMinerImpl.java:192-200 | pass one adds nothing when no two texts are equal or trivially different |
| `IdentityReconciler.IdentityMatchIdempotent` | src/org/refactoringminer/rm1/GitHistoryRefactoringMinerImpl.java:191-232 | running the matching again on the two maps after the removals pairs nothing |
| `IdentityReconciler.SamePathMatches` | src/org/refactoringminer/rm1/GitHistoryRefactoringMinerImpl.java:191-200 | the first loop builds exactly the pass-one pairing |
| `IdentityReconciler.CrossPathMatches` | src/org/refactoringminer/rm1/GitHistoryRefactoringMinerImpl.java:202-230 | the nested loops with `break` build exactly the cross-path pairing |
| `IdentityReconciler.GroupFolderMoves` | src/org/refactoringminer/rm1/GitHistoryRefactoringMinerImpl.java:234-264 | the grouping loop yields one event per rename pattern; each event holds exactly the pairs that are folder moves with its pattern, and none is empty |
| `IdentityReconciler.GroupedStep` | src/org/refactoringminer/rm1/GitHistoryRefactoringMinerImpl.java:246-259 | visiting one more pair extends the pattern's group exactly when the pair qualifies |
| `IdentityReconciler.FindEvent` | src/org/refactoringminer/rm1/GitHistoryRefactoringMinerImpl.java:250-256 | the search finds an event exactly when one has the pattern, and then finds the first such event |
| `IdentityReconciler.NotAFolderMove` | src/org/refactoringminer/rm1/GitHistoryRefactoringMinerImpl.java:246 | a pair with the same directory prefix, or a package-info.java file, changes no event |
| `IdentityReconciler.AddToEvent` | src/org/refactoringminer/rm1/GitHistoryRefactoringMinerImpl.java:250-253 | adding a pair to the event of its pattern keeps the events correct for the pairs seen so far |
| `IdentityReconciler.AddToEventGrouped` | src/org/refactoringminer/rm1/GitHistoryRefactoringMinerImpl.java:250-253 | after that addition, every event still holds exactly its pattern's pairs |
| `IdentityReconciler.NewEvent` | src/org/refactoringminer/rm1/GitHistoryRefactoringMinerImpl.java:257-261 | a pair whose pattern has no event gets a new event holding just that pair, and the events stay correct |
| `IdentityReconciler.GroupedUnique` | src/org/refactoringminer/rm1/GitHistoryRefactoringMinerImpl.java:234-264 | the group of a pattern is unique |
| `IdentityReconciler.EachFolderMoveInOneEvent` | src/org/refactoringminer/rm1/GitHistoryRefactoringMinerImpl.java:234-264 | every qualifying pair is in the event of its pattern, in no other event, and events hold only qualifying pairs |
| `IdentityReconciler.FolderMovesDetermined` | src/org/refactoringminer/rm1/GitHistoryRefactoringMinerImpl.java:234-264 | whatever order the `HashMap` yields its pairs in, the events are the same set |
| `IdentityReconciler.EventIn` | src/org/refactoringminer/rm1/GitHistoryRefactoringMinerImpl.java:234-264 | every event of one grouping is an event of any other grouping of the same pairs |
| `IdentityReconciler.ProcessIdenticalFiles` | src/org/refactoringminer/rm1/GitHistoryRefactoringMinerImpl.java:190-265 | both snapshots lose exactly the paired keys (before) and paired values (current), stay proper maps, and the result is the folder-move events of the pairing |
| `IdentityReconciler.SinglePairEvents` | src/org/refactoringminer/rm1/GitHistoryRefactoringMinerImpl.java:257-261 | a single folder-move pair gives exactly one event, holding that pair |
| `IdentityReconciler.MovedFileMatch` | src/org/refactoringminer/rm1/GitHistoryRefactoringMinerImpl.java:202-232 | a file moved unchanged from a/ to b/ is paired across paths, and both maps end up empty |
| `IdentityReconciler.MovedFileScenario` | src/org/refactoringminer/rm1/GitHistoryRefactoringMinerImpl.java:234-264 | that move gives exactly one event, with pattern (a, b), holding the pair |
| `ChangedFiles.KindOf` | src/org/refactoringminer/rm1/GitHistoryRefactoringMinerImpl.java:465-476 | only records whose name ends in .java are classified |
| `ChangedFiles.ClassifyCommitFiles` | src/org/refactoringminer/rm1/GitHistoryRefactoringMinerImpl.java:460-481 | it fails with an index error exactly when the commit has no parent; otherwise it gives the first parent and exactly the specified lists and hint |
| `ChangedFiles.FilesBeforeMembers` | src/org/refactoringminer/rm1/GitHistoryRefactoringMinerImpl.java:464-482 | a name is in the before-list exactly when a modified or removed Java record has it as its name, or a renamed one as its previous name |
| `ChangedFiles.FilesCurrentMembers` | src/org/refactoringminer/rm1/GitHistoryRefactoringMinerImpl.java:464-482 | a name is in the current-list exactly when a modified, added or renamed Java record has it as its name |
| `ChangedFiles.ClassificationFollowsRecordOrder` | src/org/refactoringminer/rm1/GitHistoryRefactoringMinerImpl.java:464-482 | the lists and the hint of a concatenation of records are built from those of its parts, in record order |
| `ChangedFiles.RenameHintKeys` | src/org/refactoringminer/rm1/GitHistoryRefactoringMinerImpl.java:476-480 | the hint's keys are exactly the previous names of renamed Java records |
| `ChangedFiles.RenameHintLastWins` | src/org/refactoringminer/rm1/GitHistoryRefactoringMinerImpl.java:479 | the last rename of a previous name decides its hint value |
| `ChangedFiles.FetchAllDistinct` | src/org/refactoringminer/rm1/GitHistoryRefactoringMinerImpl.java:681-757 | the workers keep both snapshots proper maps |
| `ChangedFiles.FetchRecordWithin` | src/org/refactoringminer/rm1/GitHistoryRefactoringMinerImpl.java:684-756 | one worker adds at most its record's names and the parent directory of its removed or previous path |
| `ChangedFiles.FetchRecordComplete` | src/org/refactoringminer/rm1/GitHistoryRefactoringMinerImpl.java:684-756 | a worker whose fetches succeed adds exactly its record's names, directory and hint pair |
| `ChangedFiles.FetchRecordStores` | src/org/refactoringminer/rm1/GitHistoryRefactoringMinerImpl.java:684-756 | a worker whose fetches succeed stores, under each of its names, the text it fetched for that side, and every other key keeps its text |
| `ChangedFiles.FetchRecordTexts` | src/org/refactoringminer/rm1/GitHistoryRefactoringMinerImpl.java:684-756 | a modified file gets the parent commit's copy in the before-snapshot and its own copy in the current one; a renamed file gets the parent's copy under its previous name; an added file only changes the current snapshot and a removed file only the before one |
| `ChangedFiles.FetchAllBeforeTexts` | src/org/refactoringminer/rm1/GitHistoryRefactoringMinerImpl.java:681-757 | after all workers, a before-name holds the text fetched by the last record that names it |
| `ChangedFiles.FetchAllCurrentTexts` | src/org/refactoringminer/rm1/GitHistoryRefactoringMinerImpl.java:681-757 | after all workers, a current-name holds the file fetched by the last record that names it |
| `ChangedFiles.FetchAllWithinClassification` | src/org/refactoringminer/rm1/GitHistoryRefactoringMinerImpl.java:681-757 | the workers add only what the classification names: before-keys, current-keys, parent directories and hint pairs |
| `ChangedFiles.FetchAllComplete` | src/org/refactoringminer/rm1/GitHistoryRefactoringMinerImpl.java:681-757 | when every fetch succeeds, the workers add exactly the classified keys and parent directories, and their hint is the classification's hint |
| `ChangedFiles.FetchAllCompleteKeys` | src/org/refactoringminer/rm1/GitHistoryRefactoringMinerImpl.java:693-744 | with successful fetches, the keys added are exactly the classified names |
| `ChangedFiles.FetchAllCompleteDirectories` | src/org/refactoringminer/rm1/GitHistoryRefactoringMinerImpl.java:723-748 | with successful fetches, the collected parent directories are exactly those of the removed and previous paths |
| `ChangedFiles.FetchAllCompleteHint` | src/org/refactoringminer/rm1/GitHistoryRefactoringMinerImpl.java:745 | with successful fetches, the workers' hint equals the classification's hint |
| `ChangedFiles.ParentRawUrlOfModified` | src/org/refactoringminer/rm1/GitHistoryRefactoringMinerImpl.java:690 | a raw URL naming the commit id once points, after the rewrite, to the same file at the parent commit |
| `ChangedFiles.PopulateWithGitHubAPI` | src/org/refactoringminer/rm1/GitHistoryRefactoringMinerImpl.java:671-765 | no parent gives an index error and no records an illegal-argument error, with nothing changed; otherwise the snapshots and hint are the workers' result, and the current directories gain the pruned tree directories plus the collected parent directories |
| `RepositoryUrls.RepositoryNameFailsOnlyOnBareHost` | src/org/refactoringminer/rm1/GitHistoryRefactoringMinerImpl.java:842-859 | `substring` throws exactly for a URL that is just "https://github.com/" or "https://bitbucket.org/" |
| `RepositoryUrls.RepositoryEndOf` | src/org/refactoringminer/rm1/GitHistoryRefactoringMinerImpl.java:850-856 | for a name without ".git" and without a trailing '/', the repository part ends right after the name in all three spellings (bare, ".git", trailing '/') |
| `RepositoryUrls.HostedUrlRoundTrip` | src/org/refactoringminer/rm1/GitHistoryRefactoringMinerImpl.java:842-897 | a GitHub or Bitbucket clone URL gives back its name, the "/commit/" or "/commits/" page and the "/archive/" or "/get/" link |
| `RepositoryUrls.OtherUrlRoundTrip` | src/org/refactoringminer/rm1/GitHistoryRefactoringMinerImpl.java:842-897 | for any other host, nothing is dropped in front, and the commit page and archive link use a plain "/" |
| `RepositoryUrls.DotGitInsideNameIsCut` | src/org/refactoringminer/rm1/GitHistoryRefactoringMinerImpl.java:851-852 | as written, a name containing ".git" is cut at its first ".git", and so is the commit page |
| `RepositoryUrls.GitHubPagesNameIsCut` | src/org/refactoringminer/rm1/GitHistoryRefactoringMinerImpl.java:851-857 | as written, "https://github.com/user/user.github.io.git" names the repository "user/user" |
| `RepositoryUrls.HostedUrlRoundTripAtSuffix` | src/org/refactoringminer/rm1/GitHistoryRefactoringMinerImpl.java:842-859 | cut at the ".git" suffix, every hosted URL gives back its whole name, whatever the name contains |
| `RepositoryUrls.GitHubPagesNameAtSuffix` | src/org/refactoringminer/rm1/GitHistoryRefactoringMinerImpl.java:842-859 | with the suffix cut, the GitHub Pages URL names "user/user.github.io" |
| `RepositoryUrls.RepositoryNameAtSuffixFailsOnlyOnBareHost` | src/org/refactoringminer/rm1/GitHistoryRefactoringMinerImpl.java:842-859 | the corrected cut still throws exactly for a bare host URL |
| `CommitPipeline.KeptMembers` | src/org/refactoringminer/rm1/GitHistoryRefactoringMinerImpl.java:519-524 | a refactoring survives the filter exactly when its type is considered |
| `CommitPipeline.KeptConcat` | src/org/refactoringminer/rm1/GitHistoryRefactoringMinerImpl.java:519-524 | filtering distributes over concatenation, so the input order is kept |
| `CommitPipeline.KeptIdempotent` | src/org/refactoringminer/rm1/GitHistoryRefactoringMinerImpl.java:515-526 | filtering a filtered list changes nothing |
| `CommitPipeline.Miner.constructor` | src/org/refactoringminer/rm1/GitHistoryRefactoringMinerImpl.java:85-87 | a new miner considers every refactoring type |
| `CommitPipeline.Miner.SetRefactoringTypesToConsider` | src/org/refactoringminer/rm1/GitHistoryRefactoringMinerImpl.java:89-94 | the considered types become exactly the given ones |
| `CommitPipeline.Miner.Filter` | src/org/refactoringminer/rm1/GitHistoryRefactoringMinerImpl.java:515-526 | with no type set the input is returned as is; otherwise the result is exactly the considered refactorings, in order |
| `CommitPipeline.RefactoringsAtRevision` | src/org/refactoringminer/rm1/GitHistoryRefactoringMinerImpl.java:164-184 | no refactorings unless both path sets are non-empty and a parent exists; otherwise the filtered diff result followed by the filtered folder moves, all of considered types |
| `CommitPipeline.Detect` | src/org/refactoringminer/rm1/GitHistoryRefactoringMinerImpl.java:96-129 | every commit is counted; errors count the failed commits; refactorings sum the successful result sizes; one handler call per commit, then `onFinish` once, last, with the three counts |
| `CommitPipeline.ErrorsAtMostCommits` | src/org/refactoringminer/rm1/GitHistoryRefactoringMinerImpl.java:112-119 | errors never exceed commits, and they are equal exactly when every commit failed |
| `CommitPipeline.CountsAdditive` | src/org/refactoringminer/rm1/GitHistoryRefactoringMinerImpl.java:108-119 | the counters and calls of a history are the sums of those of its parts |
| `CommitPipeline.OneCallPerCommit` | src/org/refactoringminer/rm1/GitHistoryRefactoringMinerImpl.java:108-127 | one handler call per commit, in order, about that commit; `handleException` exactly for failures; none is `onFinish` |
| `CommitPipeline.RevisionCalls` | src/org/refactoringminer/rm1/GitHistoryRefactoringMinerImpl.java:640-669 | in the archive and remote variants, `handle` is called exactly once, last, with the returned list (what the list variable held when an exception was thrown); it is preceded by `handleException` exactly on failure |

## Left out

- I/O is not part of this model: IntelliJ/git4idea calls, the GitHub API, raw-URL reads, ZIP download and extraction, `readFileToString`, the JSON cache of `ChangedFileInfo` and logging. Texts, listings, trees and commit records are parameters.
- Concurrency is not part of this model:
  - the fixed thread pool of the API strategy is modelled as its workers run one after another in record order;
  - `ConcurrentHashMap` iteration order is modelled as insertion order;
  - the single-thread executors with timeouts are left out.
- The structural diff (`createModel`, `UMLModelDiff`) is left out. Its result is the `diffRefactorings` parameter of `RefactoringsAtRevision`.
- The bodies of `trivialCommentChange`, `RenamePattern` and `MoveSourceFolderRefactoring` are not part of this model. They are function parameters and a datatype of pattern and pairs.
- The front ends `detectAll`, `detectAtCommit` (three overloads), `detectBetweenTags`, `detectBetweenCommits` and `detectAtPullRequest` are left out. They choose the commits and call the per-commit code modelled here; their timeouts are concurrency.
- `getGitHubRepository`, `connectToGitHub`, `downloadAndExtractZipFile`, `listTree`, `createModel` and `getConfigId` are left out as I/O or external engines.
- `allRepositoryDirectories` is left out because it is commented out in the source.
- `ChangedFiles.FetchRecord`: an `IOException` is modelled as a failed fetch (`None`) that makes the worker change nothing. In the source, a worker whose second fetch fails has not written yet either, so this matches. A failure in the middle of the stream read is not distinguished.
- `Snapshot.SnapshotSide.PopulateFromArchive`: an `IOException` from reading a file is not modelled; the read is total.
- `CommitPipeline.Detect`: an exception thrown by `handler.handle` itself is not distinguished from one thrown by the analysis.
- `CommitPipeline.Detect`: the three counters are Java `int`s, which wrap around past 2^31 - 1; the model's counters are unbounded, so that overflow is not modelled.
- `IdentityReconciler.GroupFolderMoves` visits the pairs in an unspecified order, as iterating a `HashMap` does. Its contract is therefore stated on the set of events, not on their order.

## Findings

| source | as written | input that shows it | evidently intended | confidence | as-written member | corrected member |
|---|---|---|---|---|---|---|
| src/org/refactoringminer/rm1/GitHistoryRefactoringMinerImpl.java:851-852 | for a URL ending in ".git", the repository part ends at the FIRST ".git" (`indexOf`), also when ".git" occurs earlier in the name; the same cut is at 863-864 and 882-883 | "https://github.com/user/user.github.io.git" gives the name "user/user" and the commit page ".../user/user/commit/…" | drop only the ".git" suffix: end at length - 4, giving "user/user.github.io" | medium, not executed | `RepositoryUrls.GitHubPagesNameIsCut` | `RepositoryUrls.HostedUrlRoundTripAtSuffix` |
| src/org/refactoringminer/rm1/GitHistoryRefactoringMinerImpl.java:776-778 | a path that is itself a target is added but its subtree is not walked; line 761 then adds back only the targets themselves | a tree a/b/c with targets "a" and "a/b/c" (the parent directories of removed files a/X.java and a/b/c/Y.java) keeps "a" and "a/b/c" but not "a/b" | enter target directories too, so that every listed ancestor of every target is kept | low, not executed | `TreePruning.NestedTargetHidesDirectory` | `TreePruning.PrunedThroughTargetsKeepsAncestors` |

`Snapshot.SnapshotSide.AddRepositoryDirectories` and `ChangedFiles.PopulateWithGitHubAPI` keep the walk as written (`Pruned`), since they model what the code does; `PrunedThroughTargets` is the corrected walk and its two lemmas are what is proved of it.
