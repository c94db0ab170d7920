/**
 * The java.lang.String operations the snapshot code relies on, over `string`.
 * A Dafny `char` is a Unicode scalar value where Java counts UTF-16 code
 * units, so indices can differ on text outside the Basic Multilingual Plane;
 * the code only ever cuts at ASCII delimiters ('/', ".git", ".java"), so the
 * pieces it produces are the same.
 */
module Strings {

  predicate StartsWith(s: string, prefix: string) {
    |prefix| <= |s| && s[..|prefix|] == prefix
  }

  predicate EndsWith(s: string, suffix: string) {
    |suffix| <= |s| && s[|s| - |suffix|..] == suffix
  }

  /** `t` occurs in `s` starting at index `i`. */
  predicate OccursAt(s: string, t: string, i: int) {
    0 <= i && i + |t| <= |s| && s[i..i + |t|] == t
  }

  /** String.indexOf(t): the index of the FIRST occurrence of `t`, or -1. */
  function IndexOf(s: string, t: string): (r: int)
    ensures -1 <= r <= |s|
    ensures r >= 0 ==> OccursAt(s, t, r)
    ensures r >= 0 ==> forall i :: 0 <= i < r ==> !OccursAt(s, t, i)
    ensures r == -1 ==> forall i :: 0 <= i <= |s| ==> !OccursAt(s, t, i)
  {
    IndexOfFrom(s, t, 0)
  }

  function IndexOfFrom(s: string, t: string, from: nat): (r: int)
    requires from <= |s| + 1
    ensures r == -1 || from <= r <= |s|
    ensures r >= 0 ==> OccursAt(s, t, r)
    ensures r >= 0 ==> forall i :: from <= i < r ==> !OccursAt(s, t, i)
    ensures r == -1 ==> forall i :: from <= i <= |s| ==> !OccursAt(s, t, i)
    decreases |s| + 1 - from
  {
    if from + |t| > |s| then -1
    else if s[from..from + |t|] == t then from
    else IndexOfFrom(s, t, from + 1)
  }

  /** String.lastIndexOf(c): the index of the LAST occurrence of `c`, or -1. */
  function LastIndexOf(s: string, c: char): (r: int)
    ensures -1 <= r < |s|
    ensures r == -1 <==> c !in s
    ensures r >= 0 ==> s[r] == c && forall j :: r < j < |s| ==> s[j] != c
  {
    if s == [] then -1
    else if s[|s| - 1] == c then |s| - 1
    else LastIndexOf(s[..|s| - 1], c)
  }

  /**
   * The directory part of a '/'-separated path: everything before the last
   * '/', or "" when there is none.
   */
  function Parent(path: string): (r: string)
    ensures |r| <= |path| && r == path[..|r|]
    ensures '/' in path ==> |r| < |path| && path[|r|] == '/'
    ensures '/' in path ==> forall j :: |r| < j < |path| ==> path[j] != '/'
    ensures '/' !in path ==> r == ""
  {
    if '/' in path then path[..LastIndexOf(path, '/')] else ""
  }

  /**
   * Every proper prefix of `path` that ends just before a '/': the directories
   * that contain the file at `path`, outermost to innermost.
   */
  function Ancestors(path: string): set<string> {
    AncestorsFrom(path, 0)
  }

  /** The ancestors whose '/' sits at an index of at least `lo`. */
  function AncestorsFrom(path: string, lo: nat): set<string> {
    set i | lo <= i < |path| && path[i] == '/' :: path[..i]
  }

  lemma AncestorsOfRootLevelPath(path: string)
    requires '/' !in path
    ensures Ancestors(path) == {}
  {
    assert forall j :: 0 <= j < |path| ==> path[j] != '/';
  }

  /**
   * Cutting a path at its last '/' is one step of walking up the ancestors:
   * the ancestors at or after the cut are the cut itself plus those after it.
   */
  lemma AncestorsStep(path: string, n: nat, cut: nat)
    requires cut < n <= |path| && path[cut] == '/'
    requires forall j :: cut < j < n ==> path[j] != '/'
    ensures AncestorsFrom(path, cut) == {path[..cut]} + AncestorsFrom(path, n)
  {
    forall d | d in AncestorsFrom(path, cut) ensures d in {path[..cut]} + AncestorsFrom(path, n) {
      var i :| cut <= i < |path| && path[i] == '/' && d == path[..i];
      if i != cut {
        assert n <= i;
      }
    }
  }

  /** Once no '/' is left before index `n`, the ancestors from `n` on are all of them. */
  lemma AncestorsFromFirstSlash(path: string, n: nat)
    requires n <= |path| && forall j :: 0 <= j < n ==> path[j] != '/'
    ensures AncestorsFrom(path, n) == Ancestors(path)
  {
  }

  /** The ancestors of a nested path are its parent and the parent's ancestors. */
  lemma {:induction false} AncestorsOfParent(path: string)
    requires '/' in path
    ensures Ancestors(path) == {Parent(path)} + Ancestors(Parent(path))
  {
    var p := Parent(path);
    var k := |p|;
    forall d | d in Ancestors(path) ensures d in {p} + Ancestors(p) {
      var i :| 0 <= i < |path| && path[i] == '/' && d == path[..i];
      if i < k {
        assert p[i] == '/' && p[..i] == d;
      }
    }
    forall d | d in {p} + Ancestors(p) ensures d in Ancestors(path) {
      if d != p {
        var i :| 0 <= i < |p| && p[i] == '/' && d == p[..i];
        assert path[i] == '/' && path[..i] == d;
      }
    }
  }

  /**
   * String.replace(target, replacement): every non-overlapping occurrence of
   * `target`, scanned left to right, is replaced. An empty target inserts the
   * replacement before every character and at the end, as Java does.
   */
  function ReplaceAll(s: string, target: string, replacement: string): string
    decreases |s|, |target| == 0
  {
    if |target| == 0 then
      if s == [] then replacement else replacement + [s[0]] + ReplaceAll(s[1..], target, replacement)
    else if s == [] then []
    else if StartsWith(s, target) then replacement + ReplaceAll(s[|target|..], target, replacement)
    else [s[0]] + ReplaceAll(s[1..], target, replacement)
  }

  /** Dropping the first `k` characters shifts every occurrence left by `k`. */
  lemma OccursAtDrop(s: string, t: string, k: nat, i: nat)
    requires k <= |s|
    ensures OccursAt(s[k..], t, i) <==> OccursAt(s, t, i + k)
  {
    if i + k + |t| <= |s| {
      assert s[k..][i..i + |t|] == s[i + k..i + k + |t|];
    }
  }

  /** A string in which the target never occurs is left as it is. */
  lemma {:induction false} ReplaceAllAbsent(s: string, target: string, replacement: string)
    requires |target| > 0
    requires forall i :: 0 <= i < |s| ==> !OccursAt(s, target, i)
    ensures ReplaceAll(s, target, replacement) == s
  {
    if s != [] {
      assert !OccursAt(s, target, 0);
      forall i | 0 <= i < |s[1..]| ensures !OccursAt(s[1..], target, i) {
        OccursAtDrop(s, target, 1, i);
      }
      ReplaceAllAbsent(s[1..], target, replacement);
    }
  }

  /**
   * When the target occurs exactly once, at the end of `a`, exactly that
   * occurrence is swapped: this is how a raw-content URL naming a commit once
   * is turned into the URL of the same file at the parent commit.
   */
  lemma {:induction false} ReplaceSoleOccurrence(a: string, target: string, b: string, replacement: string)
    requires |target| > 0
    requires forall i :: 0 <= i < |a + target + b| && i != |a| ==> !OccursAt(a + target + b, target, i)
    ensures ReplaceAll(a + target + b, target, replacement) == a + replacement + b
  {
    var s := a + target + b;
    if a == [] {
      assert s == target + b;
      assert StartsWith(s, target);
      assert s[|target|..] == b;
      forall i | 0 <= i < |b| ensures !OccursAt(b, target, i) {
        OccursAtDrop(s, target, |target|, i);
      }
      ReplaceAllAbsent(b, target, replacement);
    } else {
      assert !OccursAt(s, target, 0);
      assert !StartsWith(s, target);
      assert s[1..] == a[1..] + target + b;
      forall i | 0 <= i < |s[1..]| && i != |a[1..]| ensures !OccursAt(s[1..], target, i) {
        OccursAtDrop(s, target, 1, i);
      }
      ReplaceSoleOccurrence(a[1..], target, b, replacement);
      assert [s[0]] + (a[1..] + replacement + b) == a + replacement + b;
    }
  }
}
