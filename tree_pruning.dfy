/**
 * The directory skeleton of the remote-API strategy: a walk over the hosting
 * service's tree listing that keeps only the directories on the way to a set
 * of target paths.
 */
module TreePruning {
  import opened Wrappers
  import opened Strings

  type Path = string

  /** One entry of a tree listing; `asTree` is None for a file (a blob). */
  datatype TreeEntry = TreeEntry(path: Path, asTree: Option<Tree>)
  datatype Tree = Tree(entries: seq<TreeEntry>)

  /** The per-target test of atLeastOneStartsWith. */
  predicate StartsWithDirectory(targetPath: Path, path: Path) {
    if EndsWith(path, "/") then StartsWith(targetPath, path)
    else StartsWith(targetPath, path + "/")
  }

  /** atLeastOneStartsWith: some target lies under `path`. */
  predicate AtLeastOneStartsWith(targetPaths: set<Path>, path: Path) {
    exists t :: t in targetPaths && StartsWithDirectory(t, path)
  }

  /** The path of an entry, given the path of the tree that lists it. */
  function EntryPath(pathFromRoot: Path, name: Path): Path {
    if pathFromRoot == "" then name else pathFromRoot + "/" + name
  }

  /** The directories repositoryDirectories adds while walking `tree`. */
  function Pruned(tree: Tree, pathFromRoot: Path, targetPaths: set<Path>): set<Path>
    decreases tree, |tree.entries| + 1
  {
    PrunedEntries(tree, |tree.entries|, pathFromRoot, targetPaths)
  }

  /** What the walk adds for the first `n` entries of `tree`. */
  function PrunedEntries(tree: Tree, n: nat, pathFromRoot: Path, targetPaths: set<Path>): set<Path>
    requires n <= |tree.entries|
    decreases tree, n
  {
    if n == 0 then {}
    else
      var entry := tree.entries[n - 1];
      var path := EntryPath(pathFromRoot, entry.path);
      var added :=
        if !AtLeastOneStartsWith(targetPaths, path) then {}
        else if path in targetPaths then {path}
        else match entry.asTree
          case None => {path}
          case Some(subtree) => {path} + Pruned(subtree, path, targetPaths);
      PrunedEntries(tree, n - 1, pathFromRoot, targetPaths) + added
  }

  /**
   * For a path without a trailing '/', the code's startsWith test is exactly
   * "path is one of the target's ancestor directories".
   */
  lemma StartsWithDirectoryIsAncestor(targetPath: Path, path: Path)
    requires !EndsWith(path, "/")
    ensures StartsWithDirectory(targetPath, path) <==> path in Ancestors(targetPath)
  {
    if StartsWithDirectory(targetPath, path) {
      var i := |path|;
      assert targetPath[..i + 1] == path + "/";
      assert targetPath[i] == '/' && targetPath[..i] == path;
    }
    if path in Ancestors(targetPath) {
      var i :| 0 <= i < |targetPath| && targetPath[i] == '/' && path == targetPath[..i];
      assert targetPath[..|path + "/"|] == path + "/";
    }
  }

  /** Every directory the walk adds has some target below it. */
  lemma {:induction false} PrunedHaveTargetBelow(tree: Tree, pathFromRoot: Path, targetPaths: set<Path>)
    ensures forall p :: p in Pruned(tree, pathFromRoot, targetPaths) ==> AtLeastOneStartsWith(targetPaths, p)
    decreases tree, |tree.entries| + 1
  {
    PrunedEntriesHaveTargetBelow(tree, |tree.entries|, pathFromRoot, targetPaths);
  }

  lemma {:induction false} PrunedEntriesHaveTargetBelow(tree: Tree, n: nat, pathFromRoot: Path, targetPaths: set<Path>)
    requires n <= |tree.entries|
    ensures forall p :: p in PrunedEntries(tree, n, pathFromRoot, targetPaths) ==> AtLeastOneStartsWith(targetPaths, p)
    decreases tree, n
  {
    if n > 0 {
      PrunedEntriesHaveTargetBelow(tree, n - 1, pathFromRoot, targetPaths);
      var entry := tree.entries[n - 1];
      var path := EntryPath(pathFromRoot, entry.path);
      if AtLeastOneStartsWith(targetPaths, path) && path !in targetPaths && entry.asTree.Some? {
        PrunedHaveTargetBelow(entry.asTree.value, path, targetPaths);
      }
    }
  }

  /**
   * The walk adds only ancestors of targets: a directory it keeps (and that,
   * like every name in a tree listing, has no trailing '/') contains a target.
   */
  lemma PrunedAreAncestorsOfTargets(tree: Tree, pathFromRoot: Path, targetPaths: set<Path>)
    ensures forall p :: p in Pruned(tree, pathFromRoot, targetPaths) && !EndsWith(p, "/") ==>
              exists t :: t in targetPaths && p in Ancestors(t)
  {
    PrunedHaveTargetBelow(tree, pathFromRoot, targetPaths);
    forall p | p in Pruned(tree, pathFromRoot, targetPaths) && !EndsWith(p, "/")
      ensures exists t :: t in targetPaths && p in Ancestors(t)
    {
      var t :| t in targetPaths && StartsWithDirectory(t, p);
      StartsWithDirectoryIsAncestor(t, p);
    }
  }

  /** With no targets nothing is kept and no subtree is entered. */
  lemma {:induction false} PrunedWithoutTargets(tree: Tree, n: nat, pathFromRoot: Path)
    requires n <= |tree.entries|
    ensures PrunedEntries(tree, n, pathFromRoot, {}) == {}
  {
    if n > 0 {
      PrunedWithoutTargets(tree, n - 1, pathFromRoot);
    }
  }

  /**
   * `p` is reached by the listing of `tree`: some entry has path `p`, or some
   * entry is a subtree on the way to `p` (one of its ancestor directories)
   * that reaches it.
   */
  ghost predicate Listed(tree: Tree, pathFromRoot: Path, p: Path)
    decreases tree
  {
    exists i :: 0 <= i < |tree.entries| && ListedVia(tree.entries[i], pathFromRoot, p)
  }

  ghost predicate ListedVia(entry: TreeEntry, pathFromRoot: Path, p: Path)
    decreases entry
  {
    var path := EntryPath(pathFromRoot, entry.path);
    path == p || (entry.asTree.Some? && path in Ancestors(p) && Listed(entry.asTree.value, path, p))
  }

  /** An ancestor directory of a target passes the startsWith test, with or without a trailing '/'. */
  lemma AncestorStartsWith(targetPath: Path, path: Path)
    requires path in Ancestors(targetPath)
    ensures StartsWithDirectory(targetPath, path)
  {
    var i :| 0 <= i < |targetPath| && targetPath[i] == '/' && path == targetPath[..i];
    assert targetPath[..i + 1] == path + "/";
  }

  /** An ancestor of an ancestor is an ancestor. */
  lemma AncestorsTransitive(t: Path, p: Path, d: Path)
    requires p in Ancestors(t) && d in Ancestors(p)
    ensures d in Ancestors(t)
  {
    var j :| 0 <= j < |t| && t[j] == '/' && p == t[..j];
    var i :| 0 <= i < |p| && p[i] == '/' && d == p[..i];
    assert t[i] == p[i] && t[..i] == d;
  }

  /** What the walk's step for entry `n - 1` adds at the least. */
  lemma PrunedEntriesStep(tree: Tree, n: nat, pathFromRoot: Path, targetPaths: set<Path>)
    requires 0 < n <= |tree.entries|
    ensures PrunedEntries(tree, n - 1, pathFromRoot, targetPaths) <= PrunedEntries(tree, n, pathFromRoot, targetPaths)
    ensures var entry := tree.entries[n - 1];
      var path := EntryPath(pathFromRoot, entry.path);
      AtLeastOneStartsWith(targetPaths, path) ==>
        path in PrunedEntries(tree, n, pathFromRoot, targetPaths)
        && (path !in targetPaths && entry.asTree.Some? ==>
              Pruned(entry.asTree.value, path, targetPaths) <= PrunedEntries(tree, n, pathFromRoot, targetPaths))
  {
  }

  /** The same for the walk that also enters targets. */
  lemma PrunedThroughTargetsEntriesStep(tree: Tree, n: nat, pathFromRoot: Path, targetPaths: set<Path>)
    requires 0 < n <= |tree.entries|
    ensures PrunedThroughTargetsEntries(tree, n - 1, pathFromRoot, targetPaths)
         <= PrunedThroughTargetsEntries(tree, n, pathFromRoot, targetPaths)
    ensures var entry := tree.entries[n - 1];
      var path := EntryPath(pathFromRoot, entry.path);
      AtLeastOneStartsWith(targetPaths, path) ==>
        path in PrunedThroughTargetsEntries(tree, n, pathFromRoot, targetPaths)
        && (entry.asTree.Some? ==>
              PrunedThroughTargets(entry.asTree.value, path, targetPaths)
              <= PrunedThroughTargetsEntries(tree, n, pathFromRoot, targetPaths))
  {
  }

  /**
   * The walk keeps every listed ancestor of a target that has no target
   * above it: it enters every directory on the way, since none of them is a
   * target, and each of them has the target below it.
   */
  lemma {:induction false} PrunedKeepsAncestorsOfTargets(tree: Tree, pathFromRoot: Path, targetPaths: set<Path>,
                                                         p: Path, t: Path)
    requires Listed(tree, pathFromRoot, p)
    requires t in targetPaths && p in Ancestors(t)
    requires forall a :: a in Ancestors(p) ==> a !in targetPaths
    ensures p in Pruned(tree, pathFromRoot, targetPaths)
    decreases tree, |tree.entries| + 1, 0
  {
    var i :| 0 <= i < |tree.entries| && ListedVia(tree.entries[i], pathFromRoot, p);
    PrunedEntriesKeepAncestorsOfTargets(tree, |tree.entries|, pathFromRoot, targetPaths, p, t, i);
  }

  lemma {:induction false} PrunedEntriesKeepAncestorsOfTargets(tree: Tree, n: nat, pathFromRoot: Path,
                                                               targetPaths: set<Path>, p: Path, t: Path, i: nat)
    requires i < n <= |tree.entries| && ListedVia(tree.entries[i], pathFromRoot, p)
    requires t in targetPaths && p in Ancestors(t)
    requires forall a :: a in Ancestors(p) ==> a !in targetPaths
    ensures p in PrunedEntries(tree, n, pathFromRoot, targetPaths)
    decreases tree, n, 1
  {
    if i < n - 1 {
      PrunedEntriesKeepAncestorsOfTargets(tree, n - 1, pathFromRoot, targetPaths, p, t, i);
      PrunedEntriesStep(tree, n, pathFromRoot, targetPaths);
    } else {
      PrunedLastEntryKeepsAncestorOfTarget(tree, n, pathFromRoot, targetPaths, p, t);
    }
  }

  /** The case of the entry the step adds last. */
  lemma {:induction false} PrunedLastEntryKeepsAncestorOfTarget(tree: Tree, n: nat, pathFromRoot: Path,
                                                                targetPaths: set<Path>, p: Path, t: Path)
    requires 0 < n <= |tree.entries| && ListedVia(tree.entries[n - 1], pathFromRoot, p)
    requires t in targetPaths && p in Ancestors(t)
    requires forall a :: a in Ancestors(p) ==> a !in targetPaths
    ensures p in PrunedEntries(tree, n, pathFromRoot, targetPaths)
    decreases tree, n, 0
  {
    var entry := tree.entries[n - 1];
    var path := EntryPath(pathFromRoot, entry.path);
    PrunedEntriesStep(tree, n, pathFromRoot, targetPaths);
    if path == p {
      AncestorStartsWith(t, p);
    } else {
      AncestorsTransitive(t, p, path);
      AncestorStartsWith(t, path);
      PrunedKeepsAncestorsOfTargets(entry.asTree.value, path, targetPaths, p, t);
    }
  }

  /** The listing "a/b/c" of three nested directories. */
  function NestedListing(): Tree {
    Tree([TreeEntry("a", Some(Tree([TreeEntry("b", Some(Tree([TreeEntry("c", Some(Tree([])))])))])))])
  }

  /**
   * As written, a target directory is kept but not entered, so a directory
   * between two nested targets is lost: with targets "a" and "a/b/c" the
   * listed ancestor "a/b" of the target "a/b/c" is not kept.
   */
  lemma NestedTargetHidesDirectory()
    ensures Listed(NestedListing(), "", "a/b") && "a/b" in Ancestors("a/b/c")
    ensures Pruned(NestedListing(), "", {"a", "a/b/c"}) == {"a"}
  {
    NestedListingListsMiddle();
    NestedTargetPruned();
  }

  lemma NestedListingListsMiddle()
    ensures Listed(NestedListing(), "", "a/b") && "a/b" in Ancestors("a/b/c")
  {
    var tree := NestedListing();
    var a := tree.entries[0];
    var b := a.asTree.value.entries[0];
    assert "a/b/c"[3] == '/' && "a/b/c"[..3] == "a/b";
    assert "a/b"[1] == '/' && "a/b"[..1] == "a";
    assert EntryPath("a", "b") == "a/b";
    assert ListedVia(b, "a", "a/b");
    assert Listed(a.asTree.value, "a", "a/b");
    assert ListedVia(a, "", "a/b");
  }

  lemma NestedTargetPruned()
    ensures Pruned(NestedListing(), "", {"a", "a/b/c"}) == {"a"}
  {
    var tree := NestedListing();
    var targets: set<Path> := {"a", "a/b/c"};
    var t, d := "a/b/c", "a";
    assert t[..2] == d + "/";
    assert StartsWithDirectory(t, d);
    assert AtLeastOneStartsWith(targets, d);
    assert PrunedEntries(tree, 0, "", targets) == {};
    assert PrunedEntries(tree, 1, "", targets) == {d};
  }

  /**
   * The walk as evidently intended: a target is kept AND entered, so
   * directories below it that lead to other targets are kept too.
   */
  function PrunedThroughTargets(tree: Tree, pathFromRoot: Path, targetPaths: set<Path>): set<Path>
    decreases tree, |tree.entries| + 1
  {
    PrunedThroughTargetsEntries(tree, |tree.entries|, pathFromRoot, targetPaths)
  }

  function PrunedThroughTargetsEntries(tree: Tree, n: nat, pathFromRoot: Path, targetPaths: set<Path>): set<Path>
    requires n <= |tree.entries|
    decreases tree, n
  {
    if n == 0 then {}
    else
      var entry := tree.entries[n - 1];
      var path := EntryPath(pathFromRoot, entry.path);
      var added :=
        if !AtLeastOneStartsWith(targetPaths, path) then {}
        else match entry.asTree
          case None => {path}
          case Some(subtree) => {path} + PrunedThroughTargets(subtree, path, targetPaths);
      PrunedThroughTargetsEntries(tree, n - 1, pathFromRoot, targetPaths) + added
  }

  /** The intended walk keeps every listed ancestor of every target, nested targets or not. */
  lemma {:induction false} PrunedThroughTargetsKeepsAncestors(tree: Tree, pathFromRoot: Path, targetPaths: set<Path>,
                                                              p: Path, t: Path)
    requires Listed(tree, pathFromRoot, p)
    requires t in targetPaths && p in Ancestors(t)
    ensures p in PrunedThroughTargets(tree, pathFromRoot, targetPaths)
    decreases tree, |tree.entries| + 1, 0
  {
    var i :| 0 <= i < |tree.entries| && ListedVia(tree.entries[i], pathFromRoot, p);
    PrunedThroughTargetsEntriesKeepAncestors(tree, |tree.entries|, pathFromRoot, targetPaths, p, t, i);
  }

  lemma {:induction false} PrunedThroughTargetsEntriesKeepAncestors(tree: Tree, n: nat, pathFromRoot: Path,
                                                                    targetPaths: set<Path>, p: Path, t: Path, i: nat)
    requires i < n <= |tree.entries| && ListedVia(tree.entries[i], pathFromRoot, p)
    requires t in targetPaths && p in Ancestors(t)
    ensures p in PrunedThroughTargetsEntries(tree, n, pathFromRoot, targetPaths)
    decreases tree, n, 1
  {
    if i < n - 1 {
      PrunedThroughTargetsEntriesKeepAncestors(tree, n - 1, pathFromRoot, targetPaths, p, t, i);
      PrunedThroughTargetsEntriesStep(tree, n, pathFromRoot, targetPaths);
    } else {
      PrunedThroughTargetsLastEntryKeepsAncestor(tree, n, pathFromRoot, targetPaths, p, t);
    }
  }

  lemma {:induction false} PrunedThroughTargetsLastEntryKeepsAncestor(tree: Tree, n: nat, pathFromRoot: Path,
                                                                      targetPaths: set<Path>, p: Path, t: Path)
    requires 0 < n <= |tree.entries| && ListedVia(tree.entries[n - 1], pathFromRoot, p)
    requires t in targetPaths && p in Ancestors(t)
    ensures p in PrunedThroughTargetsEntries(tree, n, pathFromRoot, targetPaths)
    decreases tree, n, 0
  {
    var entry := tree.entries[n - 1];
    var path := EntryPath(pathFromRoot, entry.path);
    PrunedThroughTargetsEntriesStep(tree, n, pathFromRoot, targetPaths);
    if path == p {
      AncestorStartsWith(t, p);
    } else {
      AncestorsTransitive(t, p, path);
      AncestorStartsWith(t, path);
      PrunedThroughTargetsKeepsAncestors(entry.asTree.value, path, targetPaths, p, t);
    }
  }

  /** The intended walk, too, keeps only paths with a target below them. */
  lemma {:induction false} PrunedThroughTargetsHaveTargetBelow(tree: Tree, pathFromRoot: Path, targetPaths: set<Path>)
    ensures forall p :: p in PrunedThroughTargets(tree, pathFromRoot, targetPaths) ==> AtLeastOneStartsWith(targetPaths, p)
    decreases tree, |tree.entries| + 1
  {
    PrunedThroughTargetsEntriesHaveTargetBelow(tree, |tree.entries|, pathFromRoot, targetPaths);
  }

  lemma {:induction false} PrunedThroughTargetsEntriesHaveTargetBelow(tree: Tree, n: nat, pathFromRoot: Path,
                                                                      targetPaths: set<Path>)
    requires n <= |tree.entries|
    ensures forall p :: p in PrunedThroughTargetsEntries(tree, n, pathFromRoot, targetPaths) ==>
              AtLeastOneStartsWith(targetPaths, p)
    decreases tree, n
  {
    if n > 0 {
      PrunedThroughTargetsEntriesHaveTargetBelow(tree, n - 1, pathFromRoot, targetPaths);
      var entry := tree.entries[n - 1];
      var path := EntryPath(pathFromRoot, entry.path);
      if AtLeastOneStartsWith(targetPaths, path) && entry.asTree.Some? {
        PrunedThroughTargetsHaveTargetBelow(entry.asTree.value, path, targetPaths);
      }
    }
  }
}
