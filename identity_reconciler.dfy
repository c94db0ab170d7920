/**
 * processIdenticalFiles: pair the before-files with current-files whose text
 * is the same or differs only trivially, drop the paired files from both
 * snapshots, and report the pairs that changed directory as folder moves.
 *
 * The match is built in three greedy passes over the before-files in
 * iteration order: (1) same path, equal or trivially different text; (2) the
 * first still-unpaired current file with equal text; (3) the first
 * still-unpaired current file with trivially different text.
 */
module IdentityReconciler {
  import opened Wrappers
  import opened Strings
  import opened FileContents
  import opened Snapshot

  /** Byte-for-byte equal text, the test of the second pass. */
  predicate Equal(a: Text, b: Text) {
    a == b
  }

  /**
   * The first current file, in iteration order, that is not paired yet and
   * whose text `accept`s the before-text.
   */
  function FirstFree(current: seq<Entry>, used: set<Path>, text: Text, accept: (Text, Text) -> bool): (r: Option<Path>)
    ensures r.Some? ==> exists i :: 0 <= i < |current| && current[i].path == r.value && current[i].path !in used
                          && accept(text, current[i].text)
                          && forall j :: 0 <= j < i ==> current[j].path in used || !accept(text, current[j].text)
    ensures r.None? ==> forall e :: e in current ==> e.path in used || !accept(text, e.text)
  {
    if current == [] then None
    else if current[0].path !in used && accept(text, current[0].text) then Some(current[0].path)
    else
      var r := FirstFree(current[1..], used, text, accept);
      assert forall e :: e in current ==> e == current[0] || e in current[1..];
      if r.Some? then
        var i :| 0 <= i < |current[1..]| && current[1..][i].path == r.value && current[1..][i].path !in used
                 && accept(text, current[1..][i].text)
                 && forall j :: 0 <= j < i ==> current[1..][j].path in used || !accept(text, current[1..][j].text);
        assert current[i + 1] == current[1..][i];
        assert forall j :: 1 <= j < i + 1 ==> current[j] == current[1..][j - 1];
        r
      else r
  }

  /** Pass one: a before-file whose path is also current, with equal or trivially different text, pairs with itself. */
  function SamePathPass(before: seq<Entry>, current: seq<Entry>, trivial: (Text, Text) -> bool): map<Path, Path> {
    if before == [] then map[]
    else
      var m := SamePathPass(before[..|before| - 1], current, trivial);
      var e := before[|before| - 1];
      match Lookup(current, e.path)
      case Some(t) => if e.text == t || trivial(e.text, t) then m[e.path := e.path] else m
      case None => m
  }

  /** Passes two and three: each unpaired before-file takes the first free current file `accept` admits. */
  function CrossPathPass(before: seq<Entry>, current: seq<Entry>, m0: map<Path, Path>,
                         accept: (Text, Text) -> bool): map<Path, Path>
  {
    if before == [] then m0
    else
      var m := CrossPathPass(before[..|before| - 1], current, m0, accept);
      var e := before[|before| - 1];
      if e.path in m then m
      else
        match FirstFree(current, m.Values, e.text, accept)
        case Some(p) => m[e.path := p]
        case None => m
  }

  /** The pairing processIdenticalFiles builds: before-path -> current-path. */
  function IdentityMatch(before: seq<Entry>, current: seq<Entry>, trivial: (Text, Text) -> bool): map<Path, Path> {
    var sameTextOrTrivial := SamePathPass(before, current, trivial);
    var equalText := CrossPathPass(before, current, sameTextOrTrivial, Equal);
    CrossPathPass(before, current, equalText, trivial)
  }

  /** No two before-paths share a current-path. */
  predicate Injective(m: map<Path, Path>) {
    forall k1, k2 :: k1 in m && k2 in m && k1 != k2 ==> m[k1] != m[k2]
  }

  /** `m` only grows into `r`: every pair of `m` is still in `r`. */
  predicate Extends(r: map<Path, Path>, m: map<Path, Path>) {
    forall k :: k in m ==> k in r && r[k] == m[k]
  }

  /** Passes two and three only add pairs. */
  lemma {:induction false} CrossPathPassExtends(before: seq<Entry>, current: seq<Entry>, m0: map<Path, Path>,
                                                accept: (Text, Text) -> bool)
    ensures Extends(CrossPathPass(before, current, m0, accept), m0)
  {
    if before != [] {
      CrossPathPassExtends(before[..|before| - 1], current, m0, accept);
    }
  }

  /** Pass one pairs before-paths that are current-paths, each with itself. */
  lemma {:induction false} SamePathPassShape(before: seq<Entry>, current: seq<Entry>, trivial: (Text, Text) -> bool)
    ensures var m := SamePathPass(before, current, trivial);
      forall k :: k in m ==> k in Keys(before) && k in Keys(current) && m[k] == k
  {
    if before != [] {
      SamePathPassShape(before[..|before| - 1], current, trivial);
      assert forall e :: e in before[..|before| - 1] ==> e in before;
    }
  }

  /** Passes two and three keep every earlier pair, add only before-paths and current-paths, and keep the pairing injective. */
  lemma {:induction false} CrossPathPassShape(before: seq<Entry>, current: seq<Entry>, m0: map<Path, Path>,
                                              accept: (Text, Text) -> bool)
    requires Injective(m0)
    ensures var r := CrossPathPass(before, current, m0, accept);
      Extends(r, m0) && Injective(r)
      && (forall k :: k in r && k !in m0 ==> k in Keys(before) && r[k] in Keys(current) && r[k] !in m0.Values)
  {
    if before != [] {
      CrossPathPassShape(before[..|before| - 1], current, m0, accept);
      assert forall e :: e in before[..|before| - 1] ==> e in before;
      var m := CrossPathPass(before[..|before| - 1], current, m0, accept);
      var e := before[|before| - 1];
      if e.path !in m {
        var free := FirstFree(current, m.Values, e.text, accept);
        if free.Some? {
          var r := m[e.path := free.value];
          forall k1, k2 | k1 in r && k2 in r && k1 != k2 ensures r[k1] != r[k2] {
            if k1 == e.path {
              assert r[k2] == m[k2] && m[k2] in m.Values;
            } else if k2 == e.path {
              assert r[k1] == m[k1] && m[k1] in m.Values;
            }
          }
          assert forall v :: v in m0.Values ==> v in m.Values;
        }
      }
    }
  }

  /** The pairing is injective and pairs before-paths with current-paths. */
  lemma IdentityMatchInjective(before: seq<Entry>, current: seq<Entry>, trivial: (Text, Text) -> bool)
    ensures var m := IdentityMatch(before, current, trivial);
      Injective(m) && m.Keys <= Keys(before) && m.Values <= Keys(current)
  {
    var m1 := SamePathPass(before, current, trivial);
    SamePathPassShape(before, current, trivial);
    CrossPathPassShape(before, current, m1, Equal);
    var m2 := CrossPathPass(before, current, m1, Equal);
    CrossPathPassShape(before, current, m2, trivial);
  }

  /** A file present on both sides with equal or trivially different text is paired with itself. */
  lemma {:induction false} SamePathPassFinds(before: seq<Entry>, current: seq<Entry>, trivial: (Text, Text) -> bool)
    ensures var m := SamePathPass(before, current, trivial);
      forall e, t :: e in before && Lookup(current, e.path) == Some(t) && (e.text == t || trivial(e.text, t)) ==>
        e.path in m && m[e.path] == e.path
  {
    if before != [] {
      SamePathPassFinds(before[..|before| - 1], current, trivial);
      assert forall e :: e in before ==> e in before[..|before| - 1] || e == before[|before| - 1];
    }
  }

  /** Pass one's pairs survive: a same-path file with equal or trivially different text is paired with itself. */
  lemma IdentityMatchKeepsSamePath(before: seq<Entry>, current: seq<Entry>, trivial: (Text, Text) -> bool)
    ensures var m := IdentityMatch(before, current, trivial);
      forall e, t :: e in before && Lookup(current, e.path) == Some(t) && (e.text == t || trivial(e.text, t)) ==>
        e.path in m && m[e.path] == e.path
  {
    var m1 := SamePathPass(before, current, trivial);
    SamePathPassFinds(before, current, trivial);
    SamePathPassShape(before, current, trivial);
    CrossPathPassShape(before, current, m1, Equal);
    var m2 := CrossPathPass(before, current, m1, Equal);
    CrossPathPassShape(before, current, m2, trivial);
  }

  /** The before-file at `i` has path `k` and the current-file at `j` has path `v`. */
  predicate Joins(before: seq<Entry>, current: seq<Entry>, k: Path, v: Path, i: int, j: int) {
    0 <= i < |before| && 0 <= j < |current| && before[i].path == k && current[j].path == v
  }

  /** Equal or trivially different texts: the test of pass one, and the union of the tests of the other two. */
  predicate EqualOrTrivial(trivial: (Text, Text) -> bool, a: Text, b: Text) {
    a == b || trivial(a, b)
  }

  /** Every pair joins a before-file and a current-file whose texts are equal or trivially different. */
  ghost predicate PairedTexts(m: map<Path, Path>, before: seq<Entry>, current: seq<Entry>, trivial: (Text, Text) -> bool) {
    forall k :: k in m ==> exists i, j :: Joins(before, current, k, m[k], i, j)
                                          && EqualOrTrivial(trivial, before[i].text, current[j].text)
  }

  lemma {:induction false} SamePathPassSound(before: seq<Entry>, current: seq<Entry>, trivial: (Text, Text) -> bool)
    ensures PairedTexts(SamePathPass(before, current, trivial), before, current, trivial)
  {
    if before != [] {
      var n := |before| - 1;
      var init := before[..n];
      SamePathPassSound(init, current, trivial);
      var m := SamePathPass(init, current, trivial);
      var r := SamePathPass(before, current, trivial);
      forall k | k in r
        ensures exists i, j :: Joins(before, current, k, r[k], i, j) && EqualOrTrivial(trivial, before[i].text, current[j].text)
      {
        var t := Lookup(current, before[n].path);
        if k == before[n].path && t.Some? && EqualOrTrivial(trivial, before[n].text, t.value) {
          var j :| 0 <= j < |current| && current[j] == Entry(k, t.value);
          assert Joins(before, current, k, r[k], n, j);
        } else {
          var i, j :| Joins(init, current, k, m[k], i, j) && EqualOrTrivial(trivial, init[i].text, current[j].text);
          assert Joins(before, current, k, r[k], i, j);
        }
      }
    }
  }

  /** The pairs passes two and three add join texts that `accept` admits. */
  lemma {:induction false} CrossPathPassSound(before: seq<Entry>, current: seq<Entry>, m0: map<Path, Path>,
                                              accept: (Text, Text) -> bool)
    ensures var r := CrossPathPass(before, current, m0, accept);
      forall k :: k in r && k !in m0 ==>
        exists i, j :: Joins(before, current, k, r[k], i, j) && accept(before[i].text, current[j].text)
  {
    if before != [] {
      var n := |before| - 1;
      var init := before[..n];
      CrossPathPassSound(init, current, m0, accept);
      var m := CrossPathPass(init, current, m0, accept);
      var r := CrossPathPass(before, current, m0, accept);
      forall k | k in r && k !in m0
        ensures exists i, j :: Joins(before, current, k, r[k], i, j) && accept(before[i].text, current[j].text)
      {
        if k in m {
          assert r[k] == m[k];
          var i, j :| Joins(init, current, k, m[k], i, j) && accept(init[i].text, current[j].text);
          assert Joins(before, current, k, r[k], i, j);
        } else {
          var free := FirstFree(current, m.Values, before[n].text, accept);
          var j :| 0 <= j < |current| && current[j].path == free.value && accept(before[n].text, current[j].text);
          assert Joins(before, current, k, r[k], n, j);
        }
      }
    }
  }

  /** Passes two and three keep every pair joining equal or trivially different texts when `accept` admits no others. */
  lemma CrossPathPassPairedTexts(before: seq<Entry>, current: seq<Entry>, m0: map<Path, Path>,
                                 accept: (Text, Text) -> bool, trivial: (Text, Text) -> bool)
    requires PairedTexts(m0, before, current, trivial)
    requires forall a, b :: accept(a, b) ==> EqualOrTrivial(trivial, a, b)
    ensures PairedTexts(CrossPathPass(before, current, m0, accept), before, current, trivial)
  {
    var r := CrossPathPass(before, current, m0, accept);
    CrossPathPassExtends(before, current, m0, accept);
    CrossPathPassSound(before, current, m0, accept);
    forall k | k in r
      ensures exists i, j :: Joins(before, current, k, r[k], i, j) && EqualOrTrivial(trivial, before[i].text, current[j].text)
    {
      if k in m0 {
        var i, j :| Joins(before, current, k, m0[k], i, j) && EqualOrTrivial(trivial, before[i].text, current[j].text);
        assert Joins(before, current, k, r[k], i, j);
      } else {
        var i, j :| Joins(before, current, k, r[k], i, j) && accept(before[i].text, current[j].text);
        assert EqualOrTrivial(trivial, before[i].text, current[j].text);
      }
    }
  }

  /** Every pair joins a before-file and a current-file whose texts are equal or trivially different. */
  lemma IdentityMatchPairsTexts(before: seq<Entry>, current: seq<Entry>, trivial: (Text, Text) -> bool)
    ensures PairedTexts(IdentityMatch(before, current, trivial), before, current, trivial)
  {
    var m1 := SamePathPass(before, current, trivial);
    var m2 := CrossPathPass(before, current, m1, Equal);
    SamePathPassSound(before, current, trivial);
    CrossPathPassPairedTexts(before, current, m1, Equal, trivial);
    CrossPathPassPairedTexts(before, current, m2, trivial, trivial);
  }

  /**
   * With keys unique on both sides, the text stored under a paired before-path
   * and the text under its partner are equal or trivially different.
   */
  lemma IdentityMatchSound(before: seq<Entry>, current: seq<Entry>, trivial: (Text, Text) -> bool)
    requires DistinctKeys(before) && DistinctKeys(current)
    ensures var m := IdentityMatch(before, current, trivial);
      forall k :: k in m ==>
        Lookup(before, k).Some? && Lookup(current, m[k]).Some?
        && EqualOrTrivial(trivial, Lookup(before, k).value, Lookup(current, m[k]).value)
  {
    var m := IdentityMatch(before, current, trivial);
    IdentityMatchPairsTexts(before, current, trivial);
    forall k | k in m
      ensures Lookup(before, k).Some? && Lookup(current, m[k]).Some?
        && EqualOrTrivial(trivial, Lookup(before, k).value, Lookup(current, m[k]).value)
    {
      var i, j :| Joins(before, current, k, m[k], i, j) && EqualOrTrivial(trivial, before[i].text, current[j].text);
      assert Entry(k, before[i].text) == before[i] && Entry(m[k], current[j].text) == current[j];
      assert Lookup(before, k) == Some(before[i].text) && Lookup(current, m[k]) == Some(current[j].text);
    }
  }

  /** No free current-file is admitted for before-file `e`. */
  predicate NoFreeMatch(e: Entry, current: seq<Entry>, used: set<Path>, accept: (Text, Text) -> bool) {
    forall c :: c in current && c.path !in used ==> !accept(e.text, c.text)
  }

  lemma ValuesGrow(r: map<Path, Path>, m: map<Path, Path>)
    requires Extends(r, m)
    ensures m.Values <= r.Values
  {
    forall v | v in m.Values ensures v in r.Values {
      var k :| k in m && m[k] == v;
      assert r[k] == v;
    }
  }

  /** After passes two or three, an unpaired before-file has no free partner `accept` admits. */
  lemma {:induction false} CrossPathPassSaturates(before: seq<Entry>, current: seq<Entry>, m0: map<Path, Path>,
                                                  accept: (Text, Text) -> bool)
    requires Injective(m0)
    ensures var r := CrossPathPass(before, current, m0, accept);
      forall e :: e in before && e.path !in r ==> NoFreeMatch(e, current, r.Values, accept)
  {
    if before != [] {
      var init := before[..|before| - 1];
      CrossPathPassSaturates(init, current, m0, accept);
      var m := CrossPathPass(init, current, m0, accept);
      var r := CrossPathPass(before, current, m0, accept);
      var last := before[|before| - 1];
      CrossPathPassShape(init, current, m0, accept);
      assert Extends(r, m);
      ValuesGrow(r, m);
      forall e | e in before && e.path !in r ensures NoFreeMatch(e, current, r.Values, accept) {
        if e in init {
          assert NoFreeMatch(e, current, m.Values, accept);
        } else {
          assert e == last;
        }
      }
    }
  }

  /**
   * The pairing is maximal: an unpaired before-file and an unpaired
   * current-file never have equal or trivially different texts.
   */
  lemma IdentityMatchSaturated(before: seq<Entry>, current: seq<Entry>, trivial: (Text, Text) -> bool)
    ensures var m := IdentityMatch(before, current, trivial);
      forall e, c :: e in before && e.path !in m && c in current && c.path !in m.Values ==>
        e.text != c.text && !trivial(e.text, c.text)
  {
    var m1 := SamePathPass(before, current, trivial);
    var m2 := CrossPathPass(before, current, m1, Equal);
    var m := CrossPathPass(before, current, m2, trivial);
    SamePathPassShape(before, current, trivial);
    CrossPathPassShape(before, current, m1, Equal);
    CrossPathPassShape(before, current, m2, trivial);
    CrossPathPassSaturates(before, current, m1, Equal);
    CrossPathPassSaturates(before, current, m2, trivial);
    ValuesGrow(m, m2);
  }

  /** Passes two and three pair nothing when no before-text admits any current-text. */
  lemma {:induction false} CrossPathPassNothing(before: seq<Entry>, current: seq<Entry>, accept: (Text, Text) -> bool)
    requires forall e, c :: e in before && c in current ==> !accept(e.text, c.text)
    ensures CrossPathPass(before, current, map[], accept) == map[]
  {
    if before != [] {
      var init := before[..|before| - 1];
      assert forall e :: e in init ==> e in before;
      CrossPathPassNothing(init, current, accept);
    }
  }

  lemma {:induction false} SamePathPassNothing(before: seq<Entry>, current: seq<Entry>, trivial: (Text, Text) -> bool)
    requires forall e, c :: e in before && c in current ==> e.text != c.text && !trivial(e.text, c.text)
    ensures SamePathPass(before, current, trivial) == map[]
  {
    if before != [] {
      var init := before[..|before| - 1];
      assert forall e :: e in init ==> e in before;
      SamePathPassNothing(init, current, trivial);
    }
  }

  /**
   * Running the reconciliation again on what it left behind pairs nothing, so
   * it removes nothing more: the operation is idempotent.
   */
  lemma IdentityMatchIdempotent(before: seq<Entry>, current: seq<Entry>, trivial: (Text, Text) -> bool)
    ensures var m := IdentityMatch(before, current, trivial);
      IdentityMatch(RemoveKeys(before, m.Keys), RemoveKeys(current, m.Values), trivial) == map[]
  {
    var m := IdentityMatch(before, current, trivial);
    var b := RemoveKeys(before, m.Keys);
    var c := RemoveKeys(current, m.Values);
    IdentityMatchSaturated(before, current, trivial);
    SamePathPassNothing(b, c, trivial);
    CrossPathPassNothing(b, c, Equal);
    CrossPathPassNothing(b, c, trivial);
  }

  /** The first loop of processIdenticalFiles: pair same-path files with equal or trivially different text. */
  method SamePathMatches(before: seq<Entry>, current: seq<Entry>, trivial: (Text, Text) -> bool)
    returns (identicalFiles: map<Path, Path>)
    ensures identicalFiles == SamePathPass(before, current, trivial)
  {
    identicalFiles := map[];
    for i := 0 to |before|
      invariant identicalFiles == SamePathPass(before[..i], current, trivial)
    {
      assert before[..i + 1][..i] == before[..i];
      var key := before[i].path;
      var fileAfter := Lookup(current, key);
      if fileAfter.Some? {
        var fileBefore := before[i].text;
        if fileBefore == fileAfter.value || trivial(fileBefore, fileAfter.value) {
          identicalFiles := identicalFiles[key := key];
        }
      }
    }
    assert before[..|before|] == before;
  }

  /**
   * The second and third loops of processIdenticalFiles: each before-file not
   * paired yet scans the current files in order and takes the first one not
   * paired yet whose text `accept` admits.
   */
  method CrossPathMatches(before: seq<Entry>, current: seq<Entry>, m0: map<Path, Path>, accept: (Text, Text) -> bool)
    returns (identicalFiles: map<Path, Path>)
    ensures identicalFiles == CrossPathPass(before, current, m0, accept)
  {
    identicalFiles := m0;
    for i := 0 to |before|
      invariant identicalFiles == CrossPathPass(before[..i], current, m0, accept)
    {
      assert before[..i + 1][..i] == before[..i];
      var key1 := before[i].path;
      if key1 !in identicalFiles {
        ghost var unpaired := identicalFiles;
        var j := 0;
        while j < |current|
          invariant 0 <= j <= |current| && identicalFiles == unpaired
          invariant FirstFree(current, unpaired.Values, before[i].text, accept)
                 == FirstFree(current[j..], unpaired.Values, before[i].text, accept)
        {
          assert current[j..][1..] == current[j + 1..];
          var key2 := current[j].path;
          if key2 !in identicalFiles.Values {
            if accept(before[i].text, current[j].text) {
              identicalFiles := identicalFiles[key1 := key2];
              break;
            }
          }
          j := j + 1;
        }
      }
    }
    assert before[..|before|] == before;
  }

  /**
   * The directory move a pair evidences: the directories of the two paths
   * differ, and the file is not a package-info.java.
   */
  predicate IsFolderMove(originalPath: Path, movedPath: Path) {
    Parent(originalPath) != Parent(movedPath) && !EndsWith(originalPath, "package-info.java")
  }

  /** A move-source-folder event: a rename pattern and the pairs that follow it. */
  datatype FolderMove<P> = FolderMove(pattern: P, identicalFilePaths: map<Path, Path>)

  /** Pair `k` of `m` is a folder move whose rename pattern is `p`. */
  ghost predicate Qualifies<P>(m: map<Path, Path>, pattern: (Path, Path) -> P, k: Path, p: P) {
    k in m && IsFolderMove(k, m[k]) && pattern(Parent(k), Parent(m[k])) == p
  }

  /** `g` holds exactly the pairs of `m`, among the keys `dom`, that are folder moves with pattern `p`. */
  ghost predicate Grouped<P>(g: map<Path, Path>, m: map<Path, Path>, dom: set<Path>, pattern: (Path, Path) -> P, p: P) {
    (forall k :: k in g <==> k in dom && Qualifies(m, pattern, k, p))
    && (forall k :: k in g ==> k in m && g[k] == m[k])
  }

  /**
   * `moves` are the folder-move events of the pairs of `m` among the keys
   * `dom`: each event holds exactly the pairs of its pattern and at least one,
   * no two events share a pattern, and every qualifying pair has an event.
   */
  ghost predicate FolderMovesOf<P>(moves: seq<FolderMove<P>>, m: map<Path, Path>, dom: set<Path>, pattern: (Path, Path) -> P) {
    EventsGrouped(moves, m, dom, pattern) && PatternsDistinct(moves) && EventsCover(moves, m, dom, pattern)
  }

  ghost predicate EventsGrouped<P>(moves: seq<FolderMove<P>>, m: map<Path, Path>, dom: set<Path>, pattern: (Path, Path) -> P) {
    forall i :: 0 <= i < |moves| ==>
      moves[i].identicalFilePaths != map[] && Grouped(moves[i].identicalFilePaths, m, dom, pattern, moves[i].pattern)
  }

  ghost predicate PatternsDistinct<P>(moves: seq<FolderMove<P>>) {
    forall i, j :: 0 <= i < j < |moves| ==> moves[i].pattern != moves[j].pattern
  }

  ghost predicate EventsCover<P>(moves: seq<FolderMove<P>>, m: map<Path, Path>, dom: set<Path>, pattern: (Path, Path) -> P) {
    forall k :: k in dom && k in m && IsFolderMove(k, m[k]) ==> HasEvent(moves, pattern(Parent(k), Parent(m[k])))
  }

  /** Some event has pattern `p`. */
  ghost predicate HasEvent<P>(moves: seq<FolderMove<P>>, p: P) {
    exists i :: 0 <= i < |moves| && moves[i].pattern == p
  }

  /**
   * The last loop of processIdenticalFiles: visit the pairs in some order and
   * add each folder move to the event of its pattern, creating the event when
   * there is none yet.
   */
  method GroupFolderMoves<P(==)>(identicalFiles: map<Path, Path>, pattern: (Path, Path) -> P)
    returns (moves: seq<FolderMove<P>>)
    ensures FolderMovesOf(moves, identicalFiles, identicalFiles.Keys, pattern)
  {
    moves := [];
    var remaining := identicalFiles.Keys;
    while remaining != {}
      invariant remaining <= identicalFiles.Keys
      invariant FolderMovesOf(moves, identicalFiles, identicalFiles.Keys - remaining, pattern)
      decreases |remaining|
    {
      var key :| key in remaining;
      ghost var dom := identicalFiles.Keys - remaining;
      remaining := remaining - {key};
      assert identicalFiles.Keys - remaining == dom + {key};
      var originalPath := key;
      var movedPath := identicalFiles[key];
      if IsFolderMove(originalPath, movedPath) {
        var renamePattern := pattern(Parent(originalPath), Parent(movedPath));
        var found, j := FindEvent(moves, renamePattern);
        if found {
          AddToEvent(moves, identicalFiles, dom, pattern, key, j);
          moves := moves[j := moves[j].(identicalFilePaths := moves[j].identicalFilePaths[originalPath := movedPath])];
        } else {
          NewEvent(moves, identicalFiles, dom, pattern, key);
          moves := moves + [FolderMove(renamePattern, map[originalPath := movedPath])];
        }
      } else {
        NotAFolderMove(moves, identicalFiles, dom, pattern, key);
      }
    }
  }

  /** Visiting one more pair: an event takes it exactly when it qualifies for the event's pattern. */
  lemma GroupedStep<P>(g: map<Path, Path>, m: map<Path, Path>, dom: set<Path>, pattern: (Path, Path) -> P, p: P, key: Path)
    requires Grouped(g, m, dom, pattern, p) && key in m && key !in dom
    ensures Qualifies(m, pattern, key, p) ==> Grouped(g[key := m[key]], m, dom + {key}, pattern, p)
    ensures !Qualifies(m, pattern, key, p) ==> Grouped(g, m, dom + {key}, pattern, p)
  {
    if Qualifies(m, pattern, key, p) {
      var g' := g[key := m[key]];
      forall k ensures k in g' <==> k in dom + {key} && Qualifies(m, pattern, k, p) {
        if k != key {
          assert k in g' <==> k in g;
        }
      }
    } else {
      forall k ensures k in g <==> k in dom + {key} && Qualifies(m, pattern, k, p) {
        if k == key {
          assert k !in g;
        }
      }
    }
  }

  /** The inner loop over the events: the first event with pattern `p`, if any. */
  method FindEvent<P(==)>(moves: seq<FolderMove<P>>, p: P) returns (found: bool, j: int)
    ensures found <==> HasEvent(moves, p)
    ensures found ==> 0 <= j < |moves| && moves[j].pattern == p && forall i :: 0 <= i < j ==> moves[i].pattern != p
  {
    found := false;
    j := 0;
    while j < |moves|
      invariant 0 <= j <= |moves|
      invariant forall i :: 0 <= i < j ==> moves[i].pattern != p
    {
      if moves[j].pattern == p {
        found := true;
        return;
      }
      j := j + 1;
    }
  }

  /** A pair that is no folder move leaves the events as they are. */
  lemma NotAFolderMove<P>(moves: seq<FolderMove<P>>, m: map<Path, Path>, dom: set<Path>, pattern: (Path, Path) -> P, key: Path)
    requires FolderMovesOf(moves, m, dom, pattern)
    requires key in m && key !in dom && !IsFolderMove(key, m[key])
    ensures FolderMovesOf(moves, m, dom + {key}, pattern)
  {
    forall i | 0 <= i < |moves| ensures Grouped(moves[i].identicalFilePaths, m, dom + {key}, pattern, moves[i].pattern) {
      GroupedStep(moves[i].identicalFilePaths, m, dom, pattern, moves[i].pattern, key);
    }
  }

  /** A folder move whose pattern has an event joins that event. */
  lemma AddToEvent<P>(moves: seq<FolderMove<P>>, m: map<Path, Path>, dom: set<Path>, pattern: (Path, Path) -> P,
                      key: Path, j: int)
    requires FolderMovesOf(moves, m, dom, pattern)
    requires key in m && key !in dom && IsFolderMove(key, m[key])
    requires 0 <= j < |moves| && moves[j].pattern == pattern(Parent(key), Parent(m[key]))
    ensures var event := moves[j].(identicalFilePaths := moves[j].identicalFilePaths[key := m[key]]);
      FolderMovesOf(moves[j := event], m, dom + {key}, pattern)
  {
    var event := moves[j].(identicalFilePaths := moves[j].identicalFilePaths[key := m[key]]);
    var moves' := moves[j := event];
    AddToEventGrouped(moves, m, dom, pattern, key, j);
    assert PatternsDistinct(moves') by {
      assert forall i :: 0 <= i < |moves'| ==> moves'[i].pattern == moves[i].pattern;
    }
    AddToEventCovers(moves, m, dom, pattern, key, j, event);
  }

  lemma AddToEventCovers<P>(moves: seq<FolderMove<P>>, m: map<Path, Path>, dom: set<Path>, pattern: (Path, Path) -> P,
                            key: Path, j: int, event: FolderMove<P>)
    requires EventsCover(moves, m, dom, pattern)
    requires key in m && 0 <= j < |moves| && moves[j].pattern == pattern(Parent(key), Parent(m[key]))
    requires event.pattern == moves[j].pattern
    ensures EventsCover(moves[j := event], m, dom + {key}, pattern)
  {
    var moves' := moves[j := event];
    forall k | k in dom + {key} && k in m && IsFolderMove(k, m[k])
      ensures HasEvent(moves', pattern(Parent(k), Parent(m[k])))
    {
      if k == key {
        assert moves'[j].pattern == pattern(Parent(k), Parent(m[k]));
      } else {
        assert HasEvent(moves, pattern(Parent(k), Parent(m[k])));
        var i :| 0 <= i < |moves| && moves[i].pattern == pattern(Parent(k), Parent(m[k]));
        assert moves'[i].pattern == moves[i].pattern;
      }
    }
  }

  lemma AddToEventGrouped<P>(moves: seq<FolderMove<P>>, m: map<Path, Path>, dom: set<Path>, pattern: (Path, Path) -> P,
                             key: Path, j: int)
    requires EventsGrouped(moves, m, dom, pattern) && PatternsDistinct(moves)
    requires key in m && key !in dom && IsFolderMove(key, m[key])
    requires 0 <= j < |moves| && moves[j].pattern == pattern(Parent(key), Parent(m[key]))
    ensures var event := moves[j].(identicalFilePaths := moves[j].identicalFilePaths[key := m[key]]);
      EventsGrouped(moves[j := event], m, dom + {key}, pattern)
  {
    var event := moves[j].(identicalFilePaths := moves[j].identicalFilePaths[key := m[key]]);
    var moves' := moves[j := event];
    forall i | 0 <= i < |moves'|
      ensures moves'[i].identicalFilePaths != map[] && Grouped(moves'[i].identicalFilePaths, m, dom + {key}, pattern, moves'[i].pattern)
    {
      GroupedStep(moves[i].identicalFilePaths, m, dom, pattern, moves[i].pattern, key);
      if i == j {
        assert key in moves'[i].identicalFilePaths;
      } else {
        assert moves'[i] == moves[i];
        assert i < j ==> moves[i].pattern != moves[j].pattern;
        assert j < i ==> moves[j].pattern != moves[i].pattern;
      }
    }
  }

  /** A folder move whose pattern has no event yet starts one. */
  lemma NewEvent<P>(moves: seq<FolderMove<P>>, m: map<Path, Path>, dom: set<Path>, pattern: (Path, Path) -> P, key: Path)
    requires FolderMovesOf(moves, m, dom, pattern)
    requires key in m && key !in dom && IsFolderMove(key, m[key])
    requires forall i :: 0 <= i < |moves| ==> moves[i].pattern != pattern(Parent(key), Parent(m[key]))
    ensures FolderMovesOf(moves + [FolderMove(pattern(Parent(key), Parent(m[key])), map[key := m[key]])], m, dom + {key}, pattern)
  {
    var p := pattern(Parent(key), Parent(m[key]));
    var moves' := moves + [FolderMove(p, map[key := m[key]])];
    assert forall k :: k in dom ==> !Qualifies(m, pattern, k, p);
    GroupedStep(map[], m, dom, pattern, p, key);
    forall i | 0 <= i < |moves'|
      ensures moves'[i].identicalFilePaths != map[] && Grouped(moves'[i].identicalFilePaths, m, dom + {key}, pattern, moves'[i].pattern)
    {
      if i < |moves| {
        GroupedStep(moves[i].identicalFilePaths, m, dom, pattern, moves[i].pattern, key);
        assert moves'[i] == moves[i];
      } else {
        assert key in moves'[i].identicalFilePaths;
      }
    }
    forall k | k in dom + {key} && k in m && IsFolderMove(k, m[k])
      ensures HasEvent(moves', pattern(Parent(k), Parent(m[k])))
    {
      if k == key {
        assert moves'[|moves|].pattern == p;
      } else {
        assert HasEvent(moves, pattern(Parent(k), Parent(m[k])));
        var i :| 0 <= i < |moves| && moves[i].pattern == pattern(Parent(k), Parent(m[k]));
        assert moves'[i] == moves[i];
      }
    }
  }

  /** Two groups of the same pattern over the same pairs are the same map. */
  lemma GroupedUnique<P>(g1: map<Path, Path>, g2: map<Path, Path>, m: map<Path, Path>, dom: set<Path>,
                         pattern: (Path, Path) -> P, p: P)
    requires Grouped(g1, m, dom, pattern, p) && Grouped(g2, m, dom, pattern, p)
    ensures g1 == g2
  {
    assert g1.Keys == g2.Keys;
    forall k | k in g1 ensures g1[k] == g2[k] {
      assert g1[k] == m[k] && g2[k] == m[k];
    }
  }

  /**
   * Each folder-move pair lies in exactly one event, the one of its rename
   * pattern, and every pair in an event is a folder move.
   */
  lemma EachFolderMoveInOneEvent<P>(moves: seq<FolderMove<P>>, m: map<Path, Path>, pattern: (Path, Path) -> P)
    requires FolderMovesOf(moves, m, m.Keys, pattern)
    ensures forall k :: k in m && IsFolderMove(k, m[k]) ==>
      exists i :: 0 <= i < |moves| && moves[i].pattern == pattern(Parent(k), Parent(m[k]))
        && k in moves[i].identicalFilePaths && moves[i].identicalFilePaths[k] == m[k]
    ensures forall i, j, k :: 0 <= i < j < |moves| && k in moves[i].identicalFilePaths ==> k !in moves[j].identicalFilePaths
    ensures forall i, k :: 0 <= i < |moves| && k in moves[i].identicalFilePaths ==> k in m && IsFolderMove(k, m[k])
  {
    forall k | k in m && IsFolderMove(k, m[k])
      ensures exists i :: (0 <= i < |moves| && moves[i].pattern == pattern(Parent(k), Parent(m[k]))
        && k in moves[i].identicalFilePaths && moves[i].identicalFilePaths[k] == m[k])
    {
      assert HasEvent(moves, pattern(Parent(k), Parent(m[k])));
      var i :| 0 <= i < |moves| && moves[i].pattern == pattern(Parent(k), Parent(m[k]));
      assert Grouped(moves[i].identicalFilePaths, m, m.Keys, pattern, moves[i].pattern);
      assert Qualifies(m, pattern, k, moves[i].pattern);
    }
    forall i, j, k | 0 <= i < j < |moves| && k in moves[i].identicalFilePaths ensures k !in moves[j].identicalFilePaths {
      assert Grouped(moves[i].identicalFilePaths, m, m.Keys, pattern, moves[i].pattern);
      assert Grouped(moves[j].identicalFilePaths, m, m.Keys, pattern, moves[j].pattern);
    }
    forall i, k | 0 <= i < |moves| && k in moves[i].identicalFilePaths ensures k in m && IsFolderMove(k, m[k]) {
      assert Grouped(moves[i].identicalFilePaths, m, m.Keys, pattern, moves[i].pattern);
    }
  }

  /**
   * The events do not depend on the order the pairs are visited in: any two
   * event lists for the same pairs hold the same events.
   */
  lemma FolderMovesDetermined<P>(moves1: seq<FolderMove<P>>, moves2: seq<FolderMove<P>>, m: map<Path, Path>,
                                 pattern: (Path, Path) -> P)
    requires FolderMovesOf(moves1, m, m.Keys, pattern) && FolderMovesOf(moves2, m, m.Keys, pattern)
    ensures forall e :: e in moves1 <==> e in moves2
  {
    EventIn(moves1, moves2, m, pattern);
    EventIn(moves2, moves1, m, pattern);
  }

  lemma EventIn<P>(moves1: seq<FolderMove<P>>, moves2: seq<FolderMove<P>>, m: map<Path, Path>, pattern: (Path, Path) -> P)
    requires FolderMovesOf(moves1, m, m.Keys, pattern) && FolderMovesOf(moves2, m, m.Keys, pattern)
    ensures forall e :: e in moves1 ==> e in moves2
  {
    forall e | e in moves1 ensures e in moves2 {
      var i :| 0 <= i < |moves1| && moves1[i] == e;
      assert Grouped(e.identicalFilePaths, m, m.Keys, pattern, e.pattern);
      var k :| k in e.identicalFilePaths;
      assert HasEvent(moves2, pattern(Parent(k), Parent(m[k])));
      var j :| 0 <= j < |moves2| && moves2[j].pattern == pattern(Parent(k), Parent(m[k]));
      assert Grouped(moves2[j].identicalFilePaths, m, m.Keys, pattern, moves2[j].pattern);
      GroupedUnique(e.identicalFilePaths, moves2[j].identicalFilePaths, m, m.Keys, pattern, e.pattern);
      assert moves2[j] == e;
    }
  }

  /**
   * processIdenticalFiles: pair the identical files, remove the paired
   * before-paths and current-paths from the two snapshots in place, and
   * return the folder-move events of the pairs.
   */
  method ProcessIdenticalFiles<P(==)>(before: SnapshotSide, current: SnapshotSide, trivial: (Text, Text) -> bool,
                                      pattern: (Path, Path) -> P)
    returns (moves: seq<FolderMove<P>>)
    requires before != current && before.Valid() && current.Valid()
    modifies before`contents, current`contents
    ensures before.Valid() && current.Valid()
    ensures var m := IdentityMatch(old(before.contents), old(current.contents), trivial);
      before.contents == RemoveKeys(old(before.contents), m.Keys)
      && current.contents == RemoveKeys(old(current.contents), m.Values)
      && FolderMovesOf(moves, m, m.Keys, pattern)
  {
    var sameTextOrTrivial := SamePathMatches(before.contents, current.contents, trivial);
    var equalText := CrossPathMatches(before.contents, current.contents, sameTextOrTrivial, Equal);
    var identicalFiles := CrossPathMatches(before.contents, current.contents, equalText, trivial);
    before.contents := RemoveKeys(before.contents, identicalFiles.Keys);
    current.contents := RemoveKeys(current.contents, identicalFiles.Values);
    moves := GroupFolderMoves(identicalFiles, pattern);
  }

  /** A single folder-move pair gives a single event. */
  lemma SinglePairEvents<P>(original: Path, moved: Path, pattern: (Path, Path) -> P, moves: seq<FolderMove<P>>)
    requires IsFolderMove(original, moved)
    requires FolderMovesOf(moves, map[original := moved], {original}, pattern)
    ensures forall e :: e in moves <==> e == FolderMove(pattern(Parent(original), Parent(moved)), map[original := moved])
  {
    var m := map[original := moved];
    var p := pattern(Parent(original), Parent(moved));
    assert m.Keys == {original};
    assert HasEvent(moves, p);
    var j :| 0 <= j < |moves| && moves[j].pattern == p;
    assert Grouped(moves[j].identicalFilePaths, m, {original}, pattern, p);
    assert Grouped(m, m, {original}, pattern, p);
    GroupedUnique(moves[j].identicalFilePaths, m, m, {original}, pattern, p);
    forall i | 0 <= i < |moves| ensures moves[i] == moves[j] {
      assert Grouped(moves[i].identicalFilePaths, m, {original}, pattern, moves[i].pattern);
      var k :| k in moves[i].identicalFilePaths;
      assert k == original;
      GroupedUnique(moves[i].identicalFilePaths, m, m, {original}, pattern, p);
    }
  }

  /** A file moved unchanged from a/ to b/ is paired with its new path and leaves both snapshots empty. */
  lemma MovedFileMatch(text: Text, trivial: (Text, Text) -> bool)
    ensures IdentityMatch([Entry("a/Foo.java", text)], [Entry("b/Foo.java", text)], trivial) == map["a/Foo.java" := "b/Foo.java"]
    ensures RemoveKeys([Entry("a/Foo.java", text)], {"a/Foo.java"}) == []
    ensures RemoveKeys([Entry("b/Foo.java", text)], {"b/Foo.java"}) == []
  {
    var before := [Entry("a/Foo.java", text)];
    var current := [Entry("b/Foo.java", text)];
    assert before[..0] == [];
    assert Lookup(current, "a/Foo.java") == None;
    assert SamePathPass(before, current, trivial) == map[];
    assert FirstFree(current, {}, text, Equal) == Some("b/Foo.java");
    var m := map["a/Foo.java" := "b/Foo.java"];
    assert CrossPathPass(before, current, map[], Equal) == m;
    assert CrossPathPass(before, current, m, trivial) == m;
  }

  /** ... and its one event is the a -> b folder move. */
  lemma MovedFileScenario<P>(pattern: (Path, Path) -> P, moves: seq<FolderMove<P>>)
    requires FolderMovesOf(moves, map["a/Foo.java" := "b/Foo.java"], {"a/Foo.java"}, pattern)
    ensures forall e :: e in moves <==> e == FolderMove(pattern("a", "b"), map["a/Foo.java" := "b/Foo.java"])
  {
    assert Parent("a/Foo.java") == "a" && Parent("b/Foo.java") == "b";
    assert !EndsWith("a/Foo.java", "package-info.java");
    SinglePairEvents("a/Foo.java", "b/Foo.java", pattern, moves);
  }
}
