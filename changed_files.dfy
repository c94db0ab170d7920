/**
 * The remote-API strategy's view of a commit: the changed-file records the
 * hosting service reports, their classification into before- and
 * current-files, and the per-record effect of the fetch workers that fill the
 * two snapshots and collect the parent directories of deleted and renamed
 * files.
 */
module ChangedFiles {
  import opened Wrappers
  import opened Strings
  import opened FileContents
  import TreePruning
  import opened Snapshot

  /** One changed-file record of a commit, as the hosting service reports it. */
  datatype CommitFile = CommitFile(fileName: Path, status: string, previousFilename: Path, rawUrl: string)

  /** What a record contributes; only Java files (by their new name) are looked at. */
  datatype ChangeKind = Modified | Added | Removed | Renamed | Ignored

  function KindOf(f: CommitFile): (k: ChangeKind)
    ensures k != Ignored ==> EndsWith(f.fileName, ".java")
  {
    if !EndsWith(f.fileName, ".java") then Ignored
    else if f.status == "modified" then Modified
    else if f.status == "added" then Added
    else if f.status == "removed" then Removed
    else if f.status == "renamed" then Renamed
    else Ignored
  }

  /** The classification of a commit: the parent's id, the two file lists and the rename hint. */
  datatype ChangedFileInfo = ChangedFileInfo(parentCommitId: string, filesBefore: seq<Path>, filesCurrent: seq<Path>,
                                             renamedFilesHint: map<Path, Path>)

  /** The names a record adds to the before-list. */
  function BeforeNames(f: CommitFile): seq<Path> {
    match KindOf(f)
    case Modified => [f.fileName]
    case Removed => [f.fileName]
    case Renamed => [f.previousFilename]
    case _ => []
  }

  /** The names a record adds to the current-list. */
  function CurrentNames(f: CommitFile): seq<Path> {
    match KindOf(f)
    case Modified => [f.fileName]
    case Added => [f.fileName]
    case Renamed => [f.fileName]
    case _ => []
  }

  function FilesBefore(files: seq<CommitFile>): seq<Path> {
    if files == [] then [] else FilesBefore(files[..|files| - 1]) + BeforeNames(files[|files| - 1])
  }

  function FilesCurrent(files: seq<CommitFile>): seq<Path> {
    if files == [] then [] else FilesCurrent(files[..|files| - 1]) + CurrentNames(files[|files| - 1])
  }

  /** The rename hint: previous name -> new name; a later record for the same previous name wins. */
  function RenameHint(files: seq<CommitFile>): map<Path, Path> {
    if files == [] then map[]
    else
      var hint := RenameHint(files[..|files| - 1]);
      var f := files[|files| - 1];
      if KindOf(f) == Renamed then hint[f.previousFilename := f.fileName] else hint
  }

  /**
   * The classification loop of populateWithGitHubAPI (archive strategy). The
   * parent is the commit's first parent; a commit without one makes get(0)
   * throw.
   */
  method ClassifyCommitFiles(parents: seq<string>, commitFiles: seq<CommitFile>) returns (r: Result<ChangedFileInfo>)
    ensures parents == [] <==> r == Err(IndexOutOfBounds)
    ensures parents != [] ==>
      r == Ok(ChangedFileInfo(parents[0], FilesBefore(commitFiles), FilesCurrent(commitFiles), RenameHint(commitFiles)))
  {
    if |parents| == 0 {
      return Err(IndexOutOfBounds);
    }
    var parentCommitId := parents[0];
    var filesBefore: seq<Path> := [];
    var filesCurrent: seq<Path> := [];
    var renamedFilesHint: map<Path, Path> := map[];
    for i := 0 to |commitFiles|
      invariant filesBefore == FilesBefore(commitFiles[..i])
      invariant filesCurrent == FilesCurrent(commitFiles[..i])
      invariant renamedFilesHint == RenameHint(commitFiles[..i])
    {
      assert commitFiles[..i + 1][..i] == commitFiles[..i];
      var commitFile := commitFiles[i];
      if EndsWith(commitFile.fileName, ".java") {
        if commitFile.status == "modified" {
          filesBefore := filesBefore + [commitFile.fileName];
          filesCurrent := filesCurrent + [commitFile.fileName];
        } else if commitFile.status == "added" {
          filesCurrent := filesCurrent + [commitFile.fileName];
        } else if commitFile.status == "removed" {
          filesBefore := filesBefore + [commitFile.fileName];
        } else if commitFile.status == "renamed" {
          filesBefore := filesBefore + [commitFile.previousFilename];
          filesCurrent := filesCurrent + [commitFile.fileName];
          renamedFilesHint := renamedFilesHint[commitFile.previousFilename := commitFile.fileName];
        }
      }
    }
    assert commitFiles[..|commitFiles|] == commitFiles;
    return Ok(ChangedFileInfo(parentCommitId, filesBefore, filesCurrent, renamedFilesHint));
  }

  /**
   * A name is in the before-list exactly when a modified or removed Java
   * record carries it as its name, or a renamed one as its previous name.
   */
  lemma {:induction false} FilesBeforeMembers(files: seq<CommitFile>)
    ensures forall p :: p in FilesBefore(files) <==>
      exists f :: f in files && ((KindOf(f) in {Modified, Removed} && p == f.fileName)
                                || (KindOf(f) == Renamed && p == f.previousFilename))
  {
    if files != [] {
      FilesBeforeMembers(files[..|files| - 1]);
      assert forall f :: f in files <==> f in files[..|files| - 1] || f == files[|files| - 1];
    }
  }

  /** A name is in the current-list exactly when a modified, added or renamed Java record carries it. */
  lemma {:induction false} FilesCurrentMembers(files: seq<CommitFile>)
    ensures forall p :: p in FilesCurrent(files) <==>
      exists f :: f in files && KindOf(f) in {Modified, Added, Renamed} && p == f.fileName
  {
    if files != [] {
      FilesCurrentMembers(files[..|files| - 1]);
      assert forall f :: f in files <==> f in files[..|files| - 1] || f == files[|files| - 1];
    }
  }

  /** The lists follow record order: classifying two runs of records concatenates their lists. */
  lemma ClassificationFollowsRecordOrder(a: seq<CommitFile>, b: seq<CommitFile>)
    ensures FilesBefore(a + b) == FilesBefore(a) + FilesBefore(b)
    ensures FilesCurrent(a + b) == FilesCurrent(a) + FilesCurrent(b)
    ensures RenameHint(a + b) == RenameHint(a) + RenameHint(b)
  {
    FilesBeforeConcat(a, b);
    FilesCurrentConcat(a, b);
    RenameHintConcat(a, b);
  }

  lemma {:induction false} FilesBeforeConcat(a: seq<CommitFile>, b: seq<CommitFile>)
    ensures FilesBefore(a + b) == FilesBefore(a) + FilesBefore(b)
  {
    if b != [] {
      var init := b[..|b| - 1];
      assert (a + b)[..|a + b| - 1] == a + init;
      assert (a + b)[|a + b| - 1] == b[|b| - 1];
      FilesBeforeConcat(a, init);
    } else {
      assert a + b == a;
    }
  }

  lemma {:induction false} FilesCurrentConcat(a: seq<CommitFile>, b: seq<CommitFile>)
    ensures FilesCurrent(a + b) == FilesCurrent(a) + FilesCurrent(b)
  {
    if b != [] {
      var init := b[..|b| - 1];
      assert (a + b)[..|a + b| - 1] == a + init;
      assert (a + b)[|a + b| - 1] == b[|b| - 1];
      FilesCurrentConcat(a, init);
    } else {
      assert a + b == a;
    }
  }

  lemma {:induction false} RenameHintConcat(a: seq<CommitFile>, b: seq<CommitFile>)
    ensures RenameHint(a + b) == RenameHint(a) + RenameHint(b)
  {
    if b != [] {
      var init, f := b[..|b| - 1], b[|b| - 1];
      assert (a + b)[..|a + b| - 1] == a + init;
      assert (a + b)[|a + b| - 1] == f;
      RenameHintConcat(a, init);
      if KindOf(f) == Renamed {
        assert (RenameHint(a) + RenameHint(init))[f.previousFilename := f.fileName]
            == RenameHint(a) + RenameHint(init)[f.previousFilename := f.fileName];
      }
    } else {
      assert a + b == a;
    }
  }

  /** Record `f` renames a Java file away from `p`. */
  predicate RenamesFrom(f: CommitFile, p: Path) {
    KindOf(f) == Renamed && f.previousFilename == p
  }

  /** The hint has an entry for the previous name of each renamed Java record, and for nothing else. */
  lemma {:induction false} RenameHintKeys(files: seq<CommitFile>)
    ensures forall p :: p in RenameHint(files) <==> exists f :: f in files && RenamesFrom(f, p)
  {
    if files != [] {
      var init := files[..|files| - 1];
      var last := files[|files| - 1];
      RenameHintKeys(init);
      forall p ensures p in RenameHint(files) <==> exists f :: f in files && RenamesFrom(f, p) {
        if RenamesFrom(last, p) {
          assert last in files;
        } else {
          assert p in RenameHint(files) <==> p in RenameHint(init);
          if f :| f in files && RenamesFrom(f, p) {
            assert f in init;
          }
          assert forall f :: f in init ==> f in files;
        }
      }
    }
  }

  /** The hint maps a previous name to the new name of the last record renaming from it. */
  lemma {:induction false} RenameHintLastWins(files: seq<CommitFile>, i: nat)
    requires i < |files| && KindOf(files[i]) == Renamed
    requires forall j :: i < j < |files| ==> !RenamesFrom(files[j], files[i].previousFilename)
    ensures files[i].previousFilename in RenameHint(files)
    ensures RenameHint(files)[files[i].previousFilename] == files[i].fileName
  {
    var init := files[..|files| - 1];
    if i < |files| - 1 {
      assert init[i] == files[i];
      RenameHintLastWins(init, i);
      assert !RenamesFrom(files[|files| - 1], files[i].previousFilename);
    }
  }

  /** What the fetch workers have built so far: the two snapshots, the hint and the parent directories. */
  datatype FetchState = FetchState(before: seq<Entry>, current: seq<Entry>, renamedFilesHint: map<Path, Path>,
                                   parentDirectories: set<Path>)

  /**
   * The raw URL of a record's file in the parent commit: every occurrence of
   * the current commit id replaced by the parent's and, for a rename, every
   * occurrence of the new name replaced by the previous one.
   */
  function ParentRawUrl(f: CommitFile, currentCommitId: string, parentCommitId: string): string {
    var url := ReplaceAll(f.rawUrl, currentCommitId, parentCommitId);
    if KindOf(f) == Renamed then ReplaceAll(url, f.fileName, f.previousFilename) else url
  }

  /** The directory the code records for a deleted or previous path: the part before the last '/', if any. */
  function ParentDirectoryOf(path: Path): set<Path> {
    if '/' in path then {Parent(path)} else {}
  }

  /** The fetches a record's worker makes all succeed; an ignored record fetches nothing. */
  predicate FetchesSucceed(f: CommitFile, currentCommitId: string, parentCommitId: string, fetch: string -> Option<Text>) {
    match KindOf(f)
    case Modified => fetch(f.rawUrl).Some? && fetch(ParentRawUrl(f, currentCommitId, parentCommitId)).Some?
    case Renamed => fetch(f.rawUrl).Some? && fetch(ParentRawUrl(f, currentCommitId, parentCommitId)).Some?
    case Added => fetch(f.rawUrl).Some?
    case Removed => fetch(f.rawUrl).Some?
    case Ignored => true
  }

  /**
   * The effect of one record's worker. A worker fetches everything it needs
   * before it writes anything, so a fetch that fails (None) leaves the state
   * as it was.
   */
  function FetchRecord(s: FetchState, f: CommitFile, currentCommitId: string, parentCommitId: string,
                       fetch: string -> Option<Text>): FetchState
  {
    match KindOf(f)
    case Modified =>
      var currentRawFile := fetch(f.rawUrl);
      var parentRawFile := fetch(ParentRawUrl(f, currentCommitId, parentCommitId));
      if currentRawFile.Some? && parentRawFile.Some? then
        s.(before := Put(s.before, f.fileName, parentRawFile.value),
           current := Put(s.current, f.fileName, currentRawFile.value))
      else s
    case Added =>
      var currentRawFile := fetch(f.rawUrl);
      if currentRawFile.Some? then s.(current := Put(s.current, f.fileName, currentRawFile.value)) else s
    case Removed =>
      var rawFile := fetch(f.rawUrl);
      if rawFile.Some? then
        s.(before := Put(s.before, f.fileName, rawFile.value),
           parentDirectories := s.parentDirectories + ParentDirectoryOf(f.fileName))
      else s
    case Renamed =>
      var currentRawFile := fetch(f.rawUrl);
      var parentRawFile := fetch(ParentRawUrl(f, currentCommitId, parentCommitId));
      if currentRawFile.Some? && parentRawFile.Some? then
        FetchState(Put(s.before, f.previousFilename, parentRawFile.value),
                   Put(s.current, f.fileName, currentRawFile.value),
                   s.renamedFilesHint[f.previousFilename := f.fileName],
                   s.parentDirectories + ParentDirectoryOf(f.previousFilename))
      else s
    case Ignored => s
  }

  /** All workers, run one after the other in record order. */
  function FetchAll(s: FetchState, files: seq<CommitFile>, currentCommitId: string, parentCommitId: string,
                    fetch: string -> Option<Text>): FetchState
  {
    if files == [] then s
    else FetchRecord(FetchAll(s, files[..|files| - 1], currentCommitId, parentCommitId, fetch),
                     files[|files| - 1], currentCommitId, parentCommitId, fetch)
  }

  /** The parent directories of the removed files and of the previous names of renamed files. */
  function DeletedAndRenamedParents(files: seq<CommitFile>): set<Path> {
    if files == [] then {}
    else
      var f := files[|files| - 1];
      DeletedAndRenamedParents(files[..|files| - 1])
        + match KindOf(f)
          case Removed => ParentDirectoryOf(f.fileName)
          case Renamed => ParentDirectoryOf(f.previousFilename)
          case _ => {}
  }

  /** Fetching never breaks the map invariant of the two snapshots. */
  lemma {:induction false} FetchAllDistinct(s: FetchState, files: seq<CommitFile>, currentCommitId: string,
                                            parentCommitId: string, fetch: string -> Option<Text>)
    requires DistinctKeys(s.before) && DistinctKeys(s.current)
    ensures var r := FetchAll(s, files, currentCommitId, parentCommitId, fetch);
      DistinctKeys(r.before) && DistinctKeys(r.current)
  {
    if files != [] {
      var init := files[..|files| - 1];
      var f := files[|files| - 1];
      FetchAllDistinct(s, init, currentCommitId, parentCommitId, fetch);
      FetchRecordDistinct(FetchAll(s, init, currentCommitId, parentCommitId, fetch), f, currentCommitId,
                          parentCommitId, fetch);
    }
  }

  /** One worker keeps the map invariant of the two snapshots. */
  lemma FetchRecordDistinct(s: FetchState, f: CommitFile, currentCommitId: string, parentCommitId: string,
                            fetch: string -> Option<Text>)
    requires DistinctKeys(s.before) && DistinctKeys(s.current)
    ensures var r := FetchRecord(s, f, currentCommitId, parentCommitId, fetch);
      DistinctKeys(r.before) && DistinctKeys(r.current)
  {
    var current := fetch(f.rawUrl);
    var parent := fetch(ParentRawUrl(f, currentCommitId, parentCommitId));
    if current.Some? {
      PutDistinct(s.current, f.fileName, current.value);
      PutDistinct(s.before, f.fileName, current.value);
      if parent.Some? {
        PutDistinct(s.before, f.fileName, parent.value);
        PutDistinct(s.before, f.previousFilename, parent.value);
      }
    }
  }

  /** One worker adds at most its record's names, hint pair and parent directory. */
  lemma FetchRecordWithin(s: FetchState, f: CommitFile, currentCommitId: string, parentCommitId: string,
                          fetch: string -> Option<Text>)
    ensures var r := FetchRecord(s, f, currentCommitId, parentCommitId, fetch);
      Keys(r.before) <= Keys(s.before) + (set p | p in BeforeNames(f))
      && Keys(r.current) <= Keys(s.current) + (set p | p in CurrentNames(f))
      && r.parentDirectories <= s.parentDirectories + DeletedAndRenamedParents([f])
      && (forall p :: p in r.renamedFilesHint ==>
            (p in s.renamedFilesHint && r.renamedFilesHint[p] == s.renamedFilesHint[p])
            || (RenamesFrom(f, p) && f.fileName == r.renamedFilesHint[p]))
  {
    SingleRecord(f);
  }

  /** The classification of a single record. */
  lemma SingleRecord(f: CommitFile)
    ensures RenameHint([f]) == if KindOf(f) == Renamed then map[f.previousFilename := f.fileName] else map[]
    ensures DeletedAndRenamedParents([f]) == match KindOf(f)
      case Removed => ParentDirectoryOf(f.fileName)
      case Renamed => ParentDirectoryOf(f.previousFilename)
      case _ => {}
  {
    assert [f][..0] == [];
  }

  /** When its fetches succeed, a worker adds exactly its record's names, hint pair and parent directory. */
  lemma FetchRecordComplete(s: FetchState, f: CommitFile, currentCommitId: string, parentCommitId: string,
                            fetch: string -> Option<Text>)
    requires FetchesSucceed(f, currentCommitId, parentCommitId, fetch)
    ensures var r := FetchRecord(s, f, currentCommitId, parentCommitId, fetch);
      Keys(r.before) == Keys(s.before) + (set p | p in BeforeNames(f))
      && Keys(r.current) == Keys(s.current) + (set p | p in CurrentNames(f))
      && r.parentDirectories == s.parentDirectories + DeletedAndRenamedParents([f])
      && r.renamedFilesHint == s.renamedFilesHint + RenameHint([f])
  {
    FetchRecordCompleteKeys(s, f, currentCommitId, parentCommitId, fetch);
    FetchRecordCompleteDirectories(s, f, currentCommitId, parentCommitId, fetch);
    FetchRecordCompleteHint(s, f, currentCommitId, parentCommitId, fetch);
  }

  lemma FetchRecordCompleteKeys(s: FetchState, f: CommitFile, currentCommitId: string, parentCommitId: string,
                                fetch: string -> Option<Text>)
    requires FetchesSucceed(f, currentCommitId, parentCommitId, fetch)
    ensures var r := FetchRecord(s, f, currentCommitId, parentCommitId, fetch);
      Keys(r.before) == Keys(s.before) + (set p | p in BeforeNames(f))
      && Keys(r.current) == Keys(s.current) + (set p | p in CurrentNames(f))
  {
    var k := KindOf(f);
    var beforeNames, currentNames := BeforeNames(f), CurrentNames(f);
    if k == Modified {
      SingletonNames(beforeNames, f.fileName);
      SingletonNames(currentNames, f.fileName);
    } else if k == Added {
      SingletonNames(currentNames, f.fileName);
    } else if k == Removed {
      SingletonNames(beforeNames, f.fileName);
    } else if k == Renamed {
      SingletonNames(beforeNames, f.previousFilename);
      SingletonNames(currentNames, f.fileName);
    }
  }

  lemma FetchRecordCompleteDirectories(s: FetchState, f: CommitFile, currentCommitId: string, parentCommitId: string,
                                       fetch: string -> Option<Text>)
    requires FetchesSucceed(f, currentCommitId, parentCommitId, fetch)
    ensures FetchRecord(s, f, currentCommitId, parentCommitId, fetch).parentDirectories
         == s.parentDirectories + DeletedAndRenamedParents([f])
  {
    SingleRecord(f);
  }

  lemma FetchRecordCompleteHint(s: FetchState, f: CommitFile, currentCommitId: string, parentCommitId: string,
                                fetch: string -> Option<Text>)
    requires FetchesSucceed(f, currentCommitId, parentCommitId, fetch)
    ensures FetchRecord(s, f, currentCommitId, parentCommitId, fetch).renamedFilesHint
         == s.renamedFilesHint + RenameHint([f])
  {
    SingleRecord(f);
    if KindOf(f) == Renamed {
      assert s.renamedFilesHint[f.previousFilename := f.fileName]
          == s.renamedFilesHint + map[f.previousFilename := f.fileName];
    }
  }

  /** The set of names of a one-name list. */
  lemma SingletonNames(names: seq<Path>, p: Path)
    requires names == [p]
    ensures (set q | q in names) == {p}
  {
  }

  /**
   * The workers only add what the classification names: before-keys from the
   * before-list, current-keys from the current-list, parent directories of
   * removed and previous paths, and hint pairs of renamed records.
   */
  lemma {:induction false} FetchAllWithinClassification(s: FetchState, files: seq<CommitFile>, currentCommitId: string,
                                                        parentCommitId: string, fetch: string -> Option<Text>)
    ensures var r := FetchAll(s, files, currentCommitId, parentCommitId, fetch);
      Keys(r.before) <= Keys(s.before) + (set p | p in FilesBefore(files))
      && Keys(r.current) <= Keys(s.current) + (set p | p in FilesCurrent(files))
      && r.parentDirectories <= s.parentDirectories + DeletedAndRenamedParents(files)
      && (forall p :: p in r.renamedFilesHint ==>
            (p in s.renamedFilesHint && r.renamedFilesHint[p] == s.renamedFilesHint[p])
            || exists f :: f in files && RenamesFrom(f, p) && f.fileName == r.renamedFilesHint[p])
  {
    if files != [] {
      var init := files[..|files| - 1];
      var last := files[|files| - 1];
      FetchAllWithinClassification(s, init, currentCommitId, parentCommitId, fetch);
      var t := FetchAll(s, init, currentCommitId, parentCommitId, fetch);
      FetchRecordWithin(t, last, currentCommitId, parentCommitId, fetch);
      assert forall f :: f in init ==> f in files;
      assert last in files;
      assert FilesBefore(files) == FilesBefore(init) + BeforeNames(last);
      assert FilesCurrent(files) == FilesCurrent(init) + CurrentNames(last);
      assert DeletedAndRenamedParents(files) == DeletedAndRenamedParents(init) + DeletedAndRenamedParents([last]) by {
        assert [last][..0] == [];
      }
    }
  }

  /**
   * When every fetch succeeds the workers add exactly what the classification
   * names, and the hint they build is the classification's hint.
   */
  lemma FetchAllComplete(s: FetchState, files: seq<CommitFile>, currentCommitId: string,
                         parentCommitId: string, fetch: string -> Option<Text>)
    requires forall f :: f in files ==> FetchesSucceed(f, currentCommitId, parentCommitId, fetch)
    ensures var r := FetchAll(s, files, currentCommitId, parentCommitId, fetch);
      Keys(r.before) == Keys(s.before) + (set p | p in FilesBefore(files))
      && Keys(r.current) == Keys(s.current) + (set p | p in FilesCurrent(files))
      && r.parentDirectories == s.parentDirectories + DeletedAndRenamedParents(files)
      && r.renamedFilesHint == s.renamedFilesHint + RenameHint(files)
  {
    FetchAllCompleteKeys(s, files, currentCommitId, parentCommitId, fetch);
    FetchAllCompleteDirectories(s, files, currentCommitId, parentCommitId, fetch);
    FetchAllCompleteHint(s, files, currentCommitId, parentCommitId, fetch);
  }

  lemma {:induction false} FetchAllCompleteKeys(s: FetchState, files: seq<CommitFile>, currentCommitId: string,
                                                parentCommitId: string, fetch: string -> Option<Text>)
    requires forall f :: f in files ==> FetchesSucceed(f, currentCommitId, parentCommitId, fetch)
    ensures var r := FetchAll(s, files, currentCommitId, parentCommitId, fetch);
      Keys(r.before) == Keys(s.before) + (set p | p in FilesBefore(files))
      && Keys(r.current) == Keys(s.current) + (set p | p in FilesCurrent(files))
  {
    if files != [] {
      var init := files[..|files| - 1];
      var last := files[|files| - 1];
      FetchAllCompleteKeys(s, init, currentCommitId, parentCommitId, fetch);
      var t := FetchAll(s, init, currentCommitId, parentCommitId, fetch);
      FetchRecordCompleteKeys(t, last, currentCommitId, parentCommitId, fetch);
      NamesOfConcat(FilesBefore(init), BeforeNames(last));
      NamesOfConcat(FilesCurrent(init), CurrentNames(last));
    }
  }

  lemma {:induction false} FetchAllCompleteDirectories(s: FetchState, files: seq<CommitFile>, currentCommitId: string,
                                                       parentCommitId: string, fetch: string -> Option<Text>)
    requires forall f :: f in files ==> FetchesSucceed(f, currentCommitId, parentCommitId, fetch)
    ensures FetchAll(s, files, currentCommitId, parentCommitId, fetch).parentDirectories
         == s.parentDirectories + DeletedAndRenamedParents(files)
  {
    if files != [] {
      var init := files[..|files| - 1];
      var last := files[|files| - 1];
      FetchAllCompleteDirectories(s, init, currentCommitId, parentCommitId, fetch);
      var t := FetchAll(s, init, currentCommitId, parentCommitId, fetch);
      FetchRecordCompleteDirectories(t, last, currentCommitId, parentCommitId, fetch);
      assert [last][..0] == [];
    }
  }

  lemma {:induction false} FetchAllCompleteHint(s: FetchState, files: seq<CommitFile>, currentCommitId: string,
                                                parentCommitId: string, fetch: string -> Option<Text>)
    requires forall f :: f in files ==> FetchesSucceed(f, currentCommitId, parentCommitId, fetch)
    ensures FetchAll(s, files, currentCommitId, parentCommitId, fetch).renamedFilesHint
         == s.renamedFilesHint + RenameHint(files)
  {
    if files != [] {
      var init := files[..|files| - 1];
      var last := files[|files| - 1];
      FetchAllCompleteHint(s, init, currentCommitId, parentCommitId, fetch);
      var t := FetchAll(s, init, currentCommitId, parentCommitId, fetch);
      assert FetchesSucceed(last, currentCommitId, parentCommitId, fetch) by {
        assert last in files;
      }
      if KindOf(last) == Renamed {
        MergeUpdate(s.renamedFilesHint, RenameHint(init), last.previousFilename, last.fileName);
      }
    }
  }

  /**
   * The text a worker stores under its before-name: the parent commit's copy
   * for a modified or renamed file, the file itself for a removed one.
   */
  function BeforeText(f: CommitFile, currentCommitId: string, parentCommitId: string,
                      fetch: string -> Option<Text>): Option<Text>
  {
    if KindOf(f) == Removed then fetch(f.rawUrl) else fetch(ParentRawUrl(f, currentCommitId, parentCommitId))
  }

  /**
   * With its fetches succeeding, a worker stores the fetched texts under its
   * names, and every other key keeps its text.
   */
  lemma FetchRecordStores(s: FetchState, f: CommitFile, currentCommitId: string, parentCommitId: string,
                          fetch: string -> Option<Text>)
    requires FetchesSucceed(f, currentCommitId, parentCommitId, fetch)
    ensures var r := FetchRecord(s, f, currentCommitId, parentCommitId, fetch);
      forall k :: Lookup(r.before, k) == if k in BeforeNames(f) then BeforeText(f, currentCommitId, parentCommitId, fetch)
                                         else Lookup(s.before, k)
    ensures var r := FetchRecord(s, f, currentCommitId, parentCommitId, fetch);
      forall k :: Lookup(r.current, k) == if k in CurrentNames(f) then fetch(f.rawUrl) else Lookup(s.current, k)
  {
    var current := fetch(f.rawUrl);
    var parent := fetch(ParentRawUrl(f, currentCommitId, parentCommitId));
    match KindOf(f) {
      case Modified =>
        PutLookup(s.before, f.fileName, parent.value);
        PutLookup(s.current, f.fileName, current.value);
      case Added =>
        PutLookup(s.current, f.fileName, current.value);
      case Removed =>
        PutLookup(s.before, f.fileName, current.value);
      case Renamed =>
        PutLookup(s.before, f.previousFilename, parent.value);
        PutLookup(s.current, f.fileName, current.value);
      case Ignored =>
    }
  }

  /**
   * The texts of one worker: a modified file gets the parent commit's copy
   * in the before-snapshot and its own in the current one; a renamed file
   * gets the parent's copy under its previous name; an added or removed file
   * gets the file it fetched.
   */
  lemma FetchRecordTexts(s: FetchState, f: CommitFile, currentCommitId: string, parentCommitId: string,
                         fetch: string -> Option<Text>)
    requires FetchesSucceed(f, currentCommitId, parentCommitId, fetch)
    ensures var r := FetchRecord(s, f, currentCommitId, parentCommitId, fetch);
      KindOf(f) == Modified ==>
        Lookup(r.before, f.fileName) == fetch(ParentRawUrl(f, currentCommitId, parentCommitId))
        && Lookup(r.current, f.fileName) == fetch(f.rawUrl)
    ensures var r := FetchRecord(s, f, currentCommitId, parentCommitId, fetch);
      KindOf(f) == Renamed ==>
        Lookup(r.before, f.previousFilename) == fetch(ParentRawUrl(f, currentCommitId, parentCommitId))
        && Lookup(r.current, f.fileName) == fetch(f.rawUrl)
    ensures var r := FetchRecord(s, f, currentCommitId, parentCommitId, fetch);
      KindOf(f) == Added ==> Lookup(r.current, f.fileName) == fetch(f.rawUrl) && r.before == s.before
    ensures var r := FetchRecord(s, f, currentCommitId, parentCommitId, fetch);
      KindOf(f) == Removed ==> Lookup(r.before, f.fileName) == fetch(f.rawUrl) && r.current == s.current
  {
    FetchRecordStores(s, f, currentCommitId, parentCommitId, fetch);
  }

  /**
   * After all workers, a before-name holds the text of the LAST record that
   * names it, since a later put replaces an earlier one.
   */
  lemma {:induction false} FetchAllBeforeTexts(s: FetchState, files: seq<CommitFile>, currentCommitId: string,
                                               parentCommitId: string, fetch: string -> Option<Text>, i: nat, k: Path)
    requires forall f :: f in files ==> FetchesSucceed(f, currentCommitId, parentCommitId, fetch)
    requires i < |files| && k in BeforeNames(files[i])
    requires forall j :: i < j < |files| ==> k !in BeforeNames(files[j])
    ensures Lookup(FetchAll(s, files, currentCommitId, parentCommitId, fetch).before, k)
         == BeforeText(files[i], currentCommitId, parentCommitId, fetch)
  {
    var init := files[..|files| - 1];
    var last := files[|files| - 1];
    var t := FetchAll(s, init, currentCommitId, parentCommitId, fetch);
    assert last in files;
    FetchRecordStores(t, last, currentCommitId, parentCommitId, fetch);
    if i < |files| - 1 {
      assert init[i] == files[i];
      assert forall j :: i < j < |init| ==> init[j] == files[j];
      FetchAllBeforeTexts(s, init, currentCommitId, parentCommitId, fetch, i, k);
    }
  }

  /** After all workers, a current-name holds the text fetched by the LAST record that names it. */
  lemma {:induction false} FetchAllCurrentTexts(s: FetchState, files: seq<CommitFile>, currentCommitId: string,
                                                parentCommitId: string, fetch: string -> Option<Text>, i: nat, k: Path)
    requires forall f :: f in files ==> FetchesSucceed(f, currentCommitId, parentCommitId, fetch)
    requires i < |files| && k in CurrentNames(files[i])
    requires forall j :: i < j < |files| ==> k !in CurrentNames(files[j])
    ensures Lookup(FetchAll(s, files, currentCommitId, parentCommitId, fetch).current, k) == fetch(files[i].rawUrl)
  {
    var init := files[..|files| - 1];
    var last := files[|files| - 1];
    var t := FetchAll(s, init, currentCommitId, parentCommitId, fetch);
    assert last in files;
    FetchRecordStores(t, last, currentCommitId, parentCommitId, fetch);
    if i < |files| - 1 {
      assert init[i] == files[i];
      assert forall j :: i < j < |init| ==> init[j] == files[j];
      FetchAllCurrentTexts(s, init, currentCommitId, parentCommitId, fetch, i, k);
    }
  }

  /** The names in two concatenated lists. */
  lemma NamesOfConcat(a: seq<Path>, b: seq<Path>)
    ensures (set p | p in a + b) == (set p | p in a) + (set p | p in b)
  {
  }

  /** Updating the right operand of a merge updates the merge. */
  lemma MergeUpdate(x: map<Path, Path>, y: map<Path, Path>, k: Path, v: Path)
    ensures x + y[k := v] == (x + y)[k := v]
  {
  }

  /**
   * A raw URL that holds the current commit id once, and the file name of a
   * modified file nowhere else, points at the parent commit's copy.
   */
  lemma ParentRawUrlOfModified(f: CommitFile, prefix: string, currentCommitId: string, suffix: string, parentCommitId: string)
    requires KindOf(f) == Modified && |currentCommitId| > 0
    requires f.rawUrl == prefix + currentCommitId + suffix
    requires forall i :: 0 <= i < |f.rawUrl| && i != |prefix| ==> !OccursAt(f.rawUrl, currentCommitId, i)
    ensures ParentRawUrl(f, currentCommitId, parentCommitId) == prefix + parentCommitId + suffix
  {
    ReplaceSoleOccurrence(prefix, currentCommitId, suffix, parentCommitId);
  }

  /**
   * populateWithGitHubAPI (commit-diff strategy): take the first parent, run
   * one worker per record, then record in the current snapshot the tree
   * directories on the way to the collected parent directories and those
   * directories themselves. The before-directories are not touched. A commit
   * without a parent makes get(0) throw; a commit without records makes the
   * thread pool of size zero throw.
   */
  method PopulateWithGitHubAPI(before: SnapshotSide, current: SnapshotSide, renamedFilesHint: map<Path, Path>,
                               parents: seq<string>, currentCommitId: string, commitFiles: seq<CommitFile>,
                               tree: TreePruning.Tree, fetch: string -> Option<Text>)
    returns (r: Result<map<Path, Path>>)
    requires before != current && before.Valid() && current.Valid()
    modifies before`contents, current`contents, current`directories
    ensures before.Valid() && current.Valid()
    ensures parents == [] ==> r == Err(IndexOutOfBounds)
    ensures parents != [] && commitFiles == [] ==> r == Err(IllegalArgument)
    ensures r.Err? ==> before.contents == old(before.contents) && current.contents == old(current.contents)
                       && current.directories == old(current.directories)
    ensures parents != [] && commitFiles != [] ==>
      var s := FetchAll(FetchState(old(before.contents), old(current.contents), renamedFilesHint, {}),
                        commitFiles, currentCommitId, parents[0], fetch);
      r == Ok(s.renamedFilesHint)
      && before.contents == s.before && current.contents == s.current
      && current.directories
         == old(current.directories) + TreePruning.Pruned(tree, "", s.parentDirectories) + s.parentDirectories
  {
    if |parents| == 0 {
      return Err(IndexOutOfBounds);
    }
    var parentCommitId := parents[0];
    if |commitFiles| == 0 {
      return Err(IllegalArgument);
    }
    var s := FetchState(before.contents, current.contents, renamedFilesHint, {});
    for i := 0 to |commitFiles|
      invariant s == FetchAll(FetchState(before.contents, current.contents, renamedFilesHint, {}),
                              commitFiles[..i], currentCommitId, parentCommitId, fetch)
    {
      assert commitFiles[..i + 1][..i] == commitFiles[..i];
      s := FetchRecord(s, commitFiles[i], currentCommitId, parentCommitId, fetch);
    }
    assert commitFiles[..|commitFiles|] == commitFiles;
    FetchAllDistinct(FetchState(before.contents, current.contents, renamedFilesHint, {}),
                     commitFiles, currentCommitId, parentCommitId, fetch);
    before.contents := s.before;
    current.contents := s.current;
    current.AddRepositoryDirectories(tree, "", s.parentDirectories);
    current.directories := current.directories + s.parentDirectories;
    return Ok(s.renamedFilesHint);
  }
}
