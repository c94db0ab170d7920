/**
 * One side (before or current) of a commit snapshot: the path -> text map
 * handed to the structural diff and the set of directories known on that
 * side, both filled in place by the populate operations.
 */
module Snapshot {
  import opened Wrappers
  import opened Strings
  import opened FileContents
  import opened TreePruning

  /** Which revision of a change populateFileContents reads. */
  datatype RevisionType = Before | After

  /** A file at one revision, as the version-control system reports it. */
  datatype ContentRevision = ContentRevision(file: Path, revisionNumber: string)

  /** One changed file: absent on the side where the file does not exist. */
  datatype Change = Change(beforeRevision: Option<ContentRevision>, afterRevision: Option<ContentRevision>)

  function RevisionOf(change: Change, revisionType: RevisionType): Option<ContentRevision> {
    match revisionType
    case Before => change.beforeRevision
    case After => change.afterRevision
  }

  /** The contents after reading the files of `paths` in order (later puts overwrite). */
  function PutAll(s: seq<Entry>, paths: seq<Path>, read: Path -> Text): seq<Entry> {
    if paths == [] then s
    else Put(PutAll(s, paths[..|paths| - 1], read), paths[|paths| - 1], read(paths[|paths| - 1]))
  }

  /** The union of the ancestor directories of every path in `paths`. */
  function AncestorsOfAll(paths: seq<Path>): set<Path> {
    if paths == [] then {}
    else AncestorsOfAll(paths[..|paths| - 1]) + Ancestors(paths[|paths| - 1])
  }

  /**
   * The contents after the change loop of the version-control variant: a
   * revision's file is read only when it is asked for and not read yet.
   */
  function ChangeContents(s: seq<Entry>, changes: seq<Change>, revisionType: RevisionType,
                          filePaths: set<Path>, blob: (string, Path) -> Text): seq<Entry>
  {
    if changes == [] then s
    else
      var done := ChangeContents(s, changes[..|changes| - 1], revisionType, filePaths, blob);
      match RevisionOf(changes[|changes| - 1], revisionType)
      case None => done
      case Some(revision) =>
        if revision.file in filePaths && revision.file !in Keys(done)
        then Put(done, revision.file, blob(revision.revisionNumber, revision.file))
        else done
  }

  /** A listed file the version-control variant looks at: a Java source with a '/' in its path. */
  predicate IsListedJavaFile(filePath: Path) {
    EndsWith(filePath, ".java") && '/' in filePath
  }

  /** Every listed path lies under the repository root. */
  predicate UnderRoot(root: Path, listing: seq<Path>) {
    forall f :: f in listing ==> StartsWith(f, root + "/")
  }

  /** A listed Java file directly under the root: its relative path has no '/'. */
  predicate IsRootLevelJavaFile(root: Path, filePath: Path) {
    IsListedJavaFile(filePath) && '/' !in RelativePath(root, filePath)
  }

  /** The root-relative path of a listed file: what follows root + "/". */
  function RelativePath(root: Path, filePath: Path): Path {
    if |root| + 1 <= |filePath| then filePath[|root| + 1..] else ""
  }

  /** The root-relative paths of the listed Java files, in listing order. */
  function ListedJavaFiles(root: Path, listing: seq<Path>): (r: seq<Path>)
    ensures |r| <= |listing|
  {
    if listing == [] then []
    else
      var filePath := listing[|listing| - 1];
      ListedJavaFiles(root, listing[..|listing| - 1])
        + if IsListedJavaFile(filePath) then [RelativePath(root, filePath)] else []
  }

  class SnapshotSide {
    var contents: seq<Entry>
    var directories: set<Path>

    predicate Valid()
      reads this
    {
      DistinctKeys(contents)
    }

    constructor ()
      ensures Valid() && contents == [] && directories == {}
    {
      contents := [];
      directories := {};
    }

    /** Walks up from `path` with lastIndexOf('/'), adding every directory met. */
    method AddAncestorDirectories(path: Path)
      modifies this`directories
      ensures directories == old(directories) + Ancestors(path)
    {
      var directory := path;
      while '/' in directory
        invariant |directory| <= |path| && directory == path[..|directory|]
        invariant directories == old(directories) + AncestorsFrom(path, |directory|)
        decreases |directory|
      {
        var cut := LastIndexOf(directory, '/');
        AncestorsStep(path, |directory|, cut);
        directory := directory[..cut];
        directories := directories + {directory};
      }
      assert forall j :: 0 <= j < |directory| ==> path[j] == directory[j] != '/';
      AncestorsFromFirstSlash(path, |directory|);
    }

    /**
     * populateFileContents, archive variant: read every listed file from the
     * extracted archive and record every directory on its path.
     */
    method PopulateFromArchive(filePaths: seq<Path>, read: Path -> Text)
      requires Valid()
      modifies this
      ensures Valid()
      ensures contents == PutAll(old(contents), filePaths, read)
      ensures directories == old(directories) + AncestorsOfAll(filePaths)
    {
      for i := 0 to |filePaths|
        invariant Valid()
        invariant contents == PutAll(old(contents), filePaths[..i], read)
        invariant directories == old(directories) + AncestorsOfAll(filePaths[..i])
      {
        assert filePaths[..i + 1][..i] == filePaths[..i];
        var path := filePaths[i];
        var text := read(path);
        PutDistinct(contents, path, text);
        contents := Put(contents, path, text);
        AddAncestorDirectories(path);
      }
      assert filePaths[..|filePaths|] == filePaths;
    }

    /**
     * The change loop of populateFileContents, version-control variant: read
     * the revision of each change that is asked for and not read yet.
     */
    method AddContentsFromChanges(changes: seq<Change>, revisionType: RevisionType,
                                  filePaths: set<Path>, blob: (string, Path) -> Text)
      requires Valid()
      modifies this`contents
      ensures Valid()
      ensures contents == ChangeContents(old(contents), changes, revisionType, filePaths, blob)
    {
      for i := 0 to |changes|
        invariant Valid()
        invariant contents == ChangeContents(old(contents), changes[..i], revisionType, filePaths, blob)
      {
        assert changes[..i + 1][..i] == changes[..i];
        var revision := RevisionOf(changes[i], revisionType);
        if revision.Some? {
          var relativePath := revision.value.file;
          if relativePath in filePaths && Lookup(contents, relativePath).None? {
            var text := blob(revision.value.revisionNumber, relativePath);
            PutDistinct(contents, relativePath, text);
            contents := Put(contents, relativePath, text);
          }
        }
      }
      assert changes[..|changes|] == changes;
    }

    /**
     * The listing loop of populateFileContents, version-control variant: for
     * every listed Java file, record its directory and the directory's
     * ancestors. A Java file at the root has no '/' in its relative path, so
     * substring(0, lastIndexOf("/")) throws; `ok` is false in that case and
     * the directories are those recorded before the failing file.
     */
    method AddListedDirectories(root: Path, listing: seq<Path>) returns (ok: bool)
      requires UnderRoot(root, listing)
      modifies this`directories
      ensures ok <==> forall p :: p in ListedJavaFiles(root, listing) ==> '/' in p
      ensures ok ==> directories == old(directories) + AncestorsOfAll(ListedJavaFiles(root, listing))
      ensures !ok ==> exists i :: 0 <= i < |listing| && IsRootLevelJavaFile(root, listing[i])
                        && directories == old(directories) + AncestorsOfAll(ListedJavaFiles(root, listing[..i]))
    {
      ok := true;
      for i := 0 to |listing|
        invariant forall p :: p in ListedJavaFiles(root, listing[..i]) ==> '/' in p
        invariant directories == old(directories) + AncestorsOfAll(ListedJavaFiles(root, listing[..i]))
      {
        ListedJavaFilesStep(root, listing, i);
        var filePath := listing[i];
        assert filePath in listing;
        if EndsWith(filePath, ".java") && '/' in filePath {
          var relativePath := filePath[|root| + 1..];
          if '/' !in relativePath {
            ListedJavaFilesPrefix(root, listing, i + 1);
            assert RelativePath(root, filePath) in ListedJavaFiles(root, listing[..i + 1]);
            ok := false;
            return;
          }
          var directory := relativePath[..LastIndexOf(relativePath, '/')];
          directories := directories + {directory};
          AddAncestorDirectories(directory);
          AncestorsOfParent(relativePath);
        }
      }
      assert listing[..|listing|] == listing;
    }

    /**
     * populateFileContents, version-control variant: read the requested
     * changed files, then record the directories of the revision's tracked
     * Java files. `ok` is false when the listing holds a Java file at the root.
     */
    method PopulateFromRepository(changes: seq<Change>, revisionType: RevisionType, filePaths: set<Path>,
                                  blob: (string, Path) -> Text, root: Path, listing: seq<Path>)
      returns (ok: bool)
      requires Valid() && UnderRoot(root, listing)
      modifies this
      ensures Valid()
      ensures contents == ChangeContents(old(contents), changes, revisionType, filePaths, blob)
      ensures ok <==> forall p :: p in ListedJavaFiles(root, listing) ==> '/' in p
      ensures ok ==> directories == old(directories) + AncestorsOfAll(ListedJavaFiles(root, listing))
      ensures !ok ==> exists i :: 0 <= i < |listing| && IsRootLevelJavaFile(root, listing[i])
                        && directories == old(directories) + AncestorsOfAll(ListedJavaFiles(root, listing[..i]))
    {
      AddContentsFromChanges(changes, revisionType, filePaths, blob);
      ok := AddListedDirectories(root, listing);
    }

    /**
     * repositoryDirectories: walk the tree listing, adding each entry that
     * has a target below it and entering it only when it is not a target.
     */
    method AddRepositoryDirectories(tree: Tree, pathFromRoot: Path, targetPaths: set<Path>)
      modifies this`directories
      ensures directories == old(directories) + Pruned(tree, pathFromRoot, targetPaths)
      decreases tree
    {
      for i := 0 to |tree.entries|
        invariant directories == old(directories) + PrunedEntries(tree, i, pathFromRoot, targetPaths)
      {
        var entry := tree.entries[i];
        var path := if pathFromRoot == "" then entry.path else pathFromRoot + "/" + entry.path;
        if AtLeastOneStartsWith(targetPaths, path) {
          if path in targetPaths {
            directories := directories + {path};
          } else {
            directories := directories + {path};
            match entry.asTree {
              case Some(subtree) =>
                AddRepositoryDirectories(subtree, path, targetPaths);
              case None =>
            }
          }
        }
      }
    }
  }

  /** The Java files of a prefix of the listing are a prefix of the Java files. */
  lemma {:induction false} ListedJavaFilesPrefix(root: Path, listing: seq<Path>, n: nat)
    requires n <= |listing|
    ensures forall p :: p in ListedJavaFiles(root, listing[..n]) ==> p in ListedJavaFiles(root, listing)
    decreases |listing|
  {
    if n < |listing| {
      var shorter := listing[..|listing| - 1];
      assert shorter[..n] == listing[..n];
      ListedJavaFilesPrefix(root, shorter, n);
    } else {
      assert listing[..n] == listing;
    }
  }

  /** One more listed file adds its relative path to the Java files when it is one. */
  lemma ListedJavaFilesStep(root: Path, listing: seq<Path>, i: nat)
    requires i < |listing|
    ensures ListedJavaFiles(root, listing[..i + 1])
         == ListedJavaFiles(root, listing[..i]) + if IsListedJavaFile(listing[i]) then [RelativePath(root, listing[i])] else []
    ensures AncestorsOfAll(ListedJavaFiles(root, listing[..i + 1]))
         == AncestorsOfAll(ListedJavaFiles(root, listing[..i])) + if IsListedJavaFile(listing[i]) then Ancestors(RelativePath(root, listing[i])) else {}
  {
    var pre := listing[..i + 1];
    assert pre[..|pre| - 1] == listing[..i] && pre[|pre| - 1] == listing[i];
    var java := ListedJavaFiles(root, pre);
    var rest := ListedJavaFiles(root, listing[..i]);
    if IsListedJavaFile(listing[i]) {
      assert java == rest + [RelativePath(root, listing[i])];
      assert java[..|java| - 1] == rest && java[|java| - 1] == RelativePath(root, listing[i]);
      assert AncestorsOfAll(java) == AncestorsOfAll(rest) + Ancestors(RelativePath(root, listing[i]));
    } else {
      assert java == rest + [];
      assert rest + [] == rest;
    }
  }

  /**
   * The archive variant's contents: every listed path is a key holding the
   * text read for it, and no other key changes.
   */
  lemma {:induction false} PutAllContents(s: seq<Entry>, paths: seq<Path>, read: Path -> Text)
    ensures Keys(PutAll(s, paths, read)) == Keys(s) + set p | p in paths
    ensures forall p :: p in paths ==> Lookup(PutAll(s, paths, read), p) == Some(read(p))
    ensures forall k :: k !in paths ==> Lookup(PutAll(s, paths, read), k) == Lookup(s, k)
  {
    if paths != [] {
      var init := paths[..|paths| - 1];
      var last := paths[|paths| - 1];
      PutAllContents(s, init, read);
      PutLookup(PutAll(s, init, read), last, read(last));
      assert forall p :: p in paths <==> p in init || p == last;
    }
  }

  /** A directory is recorded exactly when it is an ancestor of some listed path. */
  lemma {:induction false} AncestorsOfAllMembers(paths: seq<Path>)
    ensures forall d :: d in AncestorsOfAll(paths) <==> exists p :: p in paths && d in Ancestors(p)
  {
    if paths != [] {
      var init := paths[..|paths| - 1];
      AncestorsOfAllMembers(init);
      assert forall p :: p in paths <==> p in init || p == paths[|paths| - 1];
    }
  }

  /** The change loop never overwrites a key that was already present. */
  lemma {:induction false} ChangeContentsKeepsExisting(s: seq<Entry>, changes: seq<Change>, revisionType: RevisionType,
                                                       filePaths: set<Path>, blob: (string, Path) -> Text)
    ensures forall k :: k in Keys(s) ==> Lookup(ChangeContents(s, changes, revisionType, filePaths, blob), k) == Lookup(s, k)
  {
    if changes != [] {
      var init := changes[..|changes| - 1];
      ChangeContentsKeepsExisting(s, init, revisionType, filePaths, blob);
      var done := ChangeContents(s, init, revisionType, filePaths, blob);
      match RevisionOf(changes[|changes| - 1], revisionType) {
        case None =>
        case Some(revision) =>
          PutLookup(done, revision.file, blob(revision.revisionNumber, revision.file));
      }
    }
  }

  /** `text` is what reading `k` at the revision of some change naming `k` yields. */
  predicate ReadFromChange(changes: seq<Change>, revisionType: RevisionType, blob: (string, Path) -> Text, k: Path, text: Text) {
    exists c :: c in changes && RevisionOf(c, revisionType).Some? && RevisionOf(c, revisionType).value.file == k
      && text == blob(RevisionOf(c, revisionType).value.revisionNumber, k)
  }

  /**
   * Every key the change loop adds is an asked-for path, read at the revision
   * of a change naming it.
   */
  lemma {:induction false} ChangeContentsAddsRequested(s: seq<Entry>, changes: seq<Change>, revisionType: RevisionType,
                                                       filePaths: set<Path>, blob: (string, Path) -> Text)
    ensures var r := ChangeContents(s, changes, revisionType, filePaths, blob);
      forall k :: k in Keys(r) - Keys(s) ==>
        k in filePaths && Lookup(r, k).Some? && ReadFromChange(changes, revisionType, blob, k, Lookup(r, k).value)
  {
    if changes != [] {
      var init := changes[..|changes| - 1];
      var last := changes[|changes| - 1];
      ChangeContentsAddsRequested(s, init, revisionType, filePaths, blob);
      var done := ChangeContents(s, init, revisionType, filePaths, blob);
      var r := ChangeContents(s, changes, revisionType, filePaths, blob);
      forall k | k in Keys(r) - Keys(s)
        ensures k in filePaths && Lookup(r, k).Some? && ReadFromChange(changes, revisionType, blob, k, Lookup(r, k).value)
      {
        var revision := RevisionOf(last, revisionType);
        if revision.Some? && revision.value.file in filePaths && revision.value.file !in Keys(done) {
          var text := blob(revision.value.revisionNumber, revision.value.file);
          assert r == Put(done, revision.value.file, text);
          PutLookup(done, revision.value.file, text);
          if k == revision.value.file {
            assert last in changes;
          } else {
            assert k in Keys(done) - Keys(s);
            var c :| c in init && RevisionOf(c, revisionType).Some? && RevisionOf(c, revisionType).value.file == k
              && Lookup(done, k).value == blob(RevisionOf(c, revisionType).value.revisionNumber, k);
            assert c in changes;
          }
        } else {
          assert r == done;
          var c :| c in init && RevisionOf(c, revisionType).Some? && RevisionOf(c, revisionType).value.file == k
            && Lookup(done, k).value == blob(RevisionOf(c, revisionType).value.revisionNumber, k);
          assert c in changes;
        }
      }
    }
  }

  /** No asked-for revision file is left unread. */
  lemma {:induction false} ChangeContentsComplete(s: seq<Entry>, changes: seq<Change>, revisionType: RevisionType,
                                                  filePaths: set<Path>, blob: (string, Path) -> Text)
    ensures forall c :: c in changes && RevisionOf(c, revisionType).Some? && RevisionOf(c, revisionType).value.file in filePaths ==>
          RevisionOf(c, revisionType).value.file in Keys(ChangeContents(s, changes, revisionType, filePaths, blob))
  {
    if changes != [] {
      var init := changes[..|changes| - 1];
      ChangeContentsComplete(s, init, revisionType, filePaths, blob);
      assert forall c :: c in changes ==> c in init || c == changes[|changes| - 1];
      var done := ChangeContents(s, init, revisionType, filePaths, blob);
      assert Keys(done) <= Keys(ChangeContents(s, changes, revisionType, filePaths, blob));
    }
  }

  /** A Java file directly under the root makes the listing loop fail. */
  lemma RootLevelJavaFileFails(root: Path, name: Path)
    requires '/' !in name && EndsWith(name, ".java")
    ensures exists p :: p in ListedJavaFiles(root, [root + "/" + name]) && '/' !in p
  {
    var filePath := root + "/" + name;
    assert filePath[|root|] == '/';
    assert RelativePath(root, filePath) == name;
    var listing: seq<Path> := [filePath];
    assert listing[..0] == [];
    assert ListedJavaFiles(root, [filePath]) == [name];
  }
}
