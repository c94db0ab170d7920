/**
 * What happens around the per-commit snapshots: the miner's set of refactoring
 * types and the filter over detected refactorings, the guard that decides
 * whether a commit is analysed at all, and the counters and handler calls of
 * the loop over a commit history.
 */
module CommitPipeline {
  import opened Wrappers

  type Path = string

  /** A detected refactoring; the filter looks only at its type. */
  datatype Refactoring<K> = Refactoring(refactoringType: K, description: string)

  /** The refactorings of `refs` whose type is in `types`, in their order. */
  function Kept<K>(types: set<K>, refs: seq<Refactoring<K>>): seq<Refactoring<K>> {
    if refs == [] then []
    else
      var last := refs[|refs| - 1];
      Kept(types, refs[..|refs| - 1]) + (if last.refactoringType in types then [last] else [])
  }

  /** filter: no set of types means every refactoring is kept. */
  function Filtered<K>(types: Option<set<K>>, refs: seq<Refactoring<K>>): seq<Refactoring<K>> {
    match types
    case None => refs
    case Some(t) => Kept(t, refs)
  }

  /** A refactoring survives exactly when it was detected and its type is considered. */
  lemma {:induction false} KeptMembers<K>(types: set<K>, refs: seq<Refactoring<K>>)
    ensures forall x :: x in Kept(types, refs) ==> x in refs && x.refactoringType in types
    ensures forall x :: x in refs && x.refactoringType in types ==> x in Kept(types, refs)
  {
    if refs != [] {
      var init := refs[..|refs| - 1];
      KeptMembers(types, init);
      assert refs == init + [refs[|refs| - 1]];
    }
  }

  /** Filtering distributes over concatenation, so relative order is preserved. */
  lemma {:induction false} KeptConcat<K>(types: set<K>, a: seq<Refactoring<K>>, b: seq<Refactoring<K>>)
    ensures Kept(types, a + b) == Kept(types, a) + Kept(types, b)
  {
    if b == [] {
      assert a + b == a;
    } else {
      var init := b[..|b| - 1];
      assert (a + b)[..|a + b| - 1] == a + init;
      KeptConcat(types, a, init);
    }
  }

  /** Filtering twice with the same types changes nothing more. */
  lemma {:induction false} KeptIdempotent<K>(types: set<K>, refs: seq<Refactoring<K>>)
    ensures Kept(types, Kept(types, refs)) == Kept(types, refs)
  {
    if refs != [] {
      var init := refs[..|refs| - 1];
      var last := refs[|refs| - 1];
      KeptIdempotent(types, init);
      KeptConcat(types, Kept(types, init), if last.refactoringType in types then [last] else []);
      if last.refactoringType in types {
        assert Kept(types, [last]) == Kept(types, []) + [last];
      } else {
        assert Kept(types, []) == [];
      }
    }
  }

  /** The miner's configuration: the refactoring types to report, or None (Java null) for all. */
  class Miner<K(==)> {
    var refactoringTypesToConsider: Option<set<K>>

    /** The constructor considers every type there is. */
    constructor(allTypes: seq<K>)
      ensures refactoringTypesToConsider == Some(set t | t in allTypes)
    {
      refactoringTypesToConsider := None;
      new;
      SetRefactoringTypesToConsider(allTypes);
    }

    /** setRefactoringTypesToConsider: a fresh set holding exactly the given types. */
    method SetRefactoringTypesToConsider(types: seq<K>)
      modifies this
      ensures refactoringTypesToConsider == Some(set t | t in types)
    {
      var considered: set<K> := {};
      for i := 0 to |types|
        invariant considered == set t | t in types[..i]
      {
        assert types[..i + 1] == types[..i] + [types[i]];
        considered := considered + {types[i]};
      }
      assert types[..|types|] == types;
      refactoringTypesToConsider := Some(considered);
    }

    /** filter: a fresh list, the input left as it is. */
    method Filter(refactoringsAtRevision: seq<Refactoring<K>>) returns (r: seq<Refactoring<K>>)
      ensures r == Filtered(refactoringTypesToConsider, refactoringsAtRevision)
    {
      if refactoringTypesToConsider.None? {
        return refactoringsAtRevision;
      }
      var types := refactoringTypesToConsider.value;
      var filteredList := [];
      for i := 0 to |refactoringsAtRevision|
        invariant filteredList == Kept(types, refactoringsAtRevision[..i])
      {
        var ref := refactoringsAtRevision[i];
        assert refactoringsAtRevision[..i + 1][..i] == refactoringsAtRevision[..i];
        if ref.refactoringType in types {
          filteredList := filteredList + [ref];
        }
      }
      assert refactoringsAtRevision[..|refactoringsAtRevision|] == refactoringsAtRevision;
      return filteredList;
    }
  }

  /**
   * The analysis of a commit runs only when some Java file was there before,
   * some is there after, and the commit has a parent.
   */
  predicate AnalysisRuns(filePathsBefore: set<Path>, filePathsCurrent: set<Path>, parentCount: nat) {
    filePathsBefore != {} && filePathsCurrent != {} && parentCount > 0
  }

  /**
   * The refactorings detectRefactorings reports for one local-VCS commit,
   * given what the structural diff and the folder-move grouping found: none
   * when the guard fails, otherwise the filtered diff result followed by the
   * filtered folder moves.
   */
  function RefactoringsAtRevision<K>(types: Option<set<K>>, filePathsBefore: set<Path>, filePathsCurrent: set<Path>,
                                     parentCount: nat, diffRefactorings: seq<Refactoring<K>>,
                                     moveSourceFolderRefactorings: seq<Refactoring<K>>): (r: seq<Refactoring<K>>)
    ensures !AnalysisRuns(filePathsBefore, filePathsCurrent, parentCount) ==> r == []
    ensures AnalysisRuns(filePathsBefore, filePathsCurrent, parentCount) ==>
              r == Filtered(types, diffRefactorings) + Filtered(types, moveSourceFolderRefactorings)
    ensures forall x :: x in r ==>
              (x in diffRefactorings + moveSourceFolderRefactorings &&
               (types.Some? ==> x.refactoringType in types.value))
  {
    if AnalysisRuns(filePathsBefore, filePathsCurrent, parentCount) then
      var all := diffRefactorings + moveSourceFolderRefactorings;
      if types.Some? then
        KeptConcat(types.value, diffRefactorings, moveSourceFolderRefactorings);
        KeptMembers(types.value, all);
        Kept(types.value, all)
      else
        all
    else
      []
  }

  /** What analysing one commit came to: its refactorings, or an exception. */
  datatype Outcome<K> =
    | Detected(commitId: string, refactorings: seq<Refactoring<K>>)
    | Failed(commitId: string)

  /** The calls the miner makes on its RefactoringHandler. */
  datatype HandlerCall<K> =
    | Handle(commitId: string, refactorings: seq<Refactoring<K>>)
    | HandleException(commitId: string)
    | OnFinish(refactoringsCount: nat, commitsCount: nat, errorCommitsCount: nat)

  /** The number of commits whose analysis threw. */
  function ErrorCount<K>(outcomes: seq<Outcome<K>>): nat {
    if outcomes == [] then 0
    else ErrorCount(outcomes[..|outcomes| - 1]) + (if outcomes[|outcomes| - 1].Failed? then 1 else 0)
  }

  /** The number of refactorings found in the commits whose analysis succeeded. */
  function RefactoringCount<K>(outcomes: seq<Outcome<K>>): nat {
    if outcomes == [] then 0
    else
      var last := outcomes[|outcomes| - 1];
      RefactoringCount(outcomes[..|outcomes| - 1]) + (if last.Detected? then |last.refactorings| else 0)
  }

  /**
   * The handler call each commit produces in the local-VCS loop: handle
   * from inside detectRefactorings when it succeeds, handleException when
   * it throws (before reaching handle).
   */
  function CommitCall<K>(outcome: Outcome<K>): HandlerCall<K> {
    match outcome
    case Detected(id, refs) => Handle(id, refs)
    case Failed(id) => HandleException(id)
  }

  function CommitCalls<K>(outcomes: seq<Outcome<K>>): seq<HandlerCall<K>> {
    if outcomes == [] then []
    else CommitCalls(outcomes[..|outcomes| - 1]) + [CommitCall(outcomes[|outcomes| - 1])]
  }

  /**
   * detect: every commit is counted, failures are counted and reported, the
   * sizes of the successful results are summed, and onFinish comes once, last.
   */
  method Detect<K>(commits: seq<Outcome<K>>)
    returns (calls: seq<HandlerCall<K>>, refactoringsCount: nat, commitsCount: nat, errorCommitsCount: nat)
    ensures commitsCount == |commits|
    ensures errorCommitsCount == ErrorCount(commits)
    ensures refactoringsCount == RefactoringCount(commits)
    ensures calls == CommitCalls(commits) + [OnFinish(refactoringsCount, commitsCount, errorCommitsCount)]
  {
    calls := [];
    refactoringsCount, commitsCount, errorCommitsCount := 0, 0, 0;
    for i := 0 to |commits|
      invariant commitsCount == i
      invariant errorCommitsCount == ErrorCount(commits[..i])
      invariant refactoringsCount == RefactoringCount(commits[..i])
      invariant calls == CommitCalls(commits[..i])
    {
      assert commits[..i + 1][..i] == commits[..i];
      match commits[i] {
        case Detected(id, refactoringsAtRevision) =>
          calls := calls + [Handle(id, refactoringsAtRevision)];
          refactoringsCount := refactoringsCount + |refactoringsAtRevision|;
        case Failed(id) =>
          calls := calls + [HandleException(id)];
          errorCommitsCount := errorCommitsCount + 1;
      }
      commitsCount := commitsCount + 1;
    }
    assert commits[..|commits|] == commits;
    calls := calls + [OnFinish(refactoringsCount, commitsCount, errorCommitsCount)];
  }

  /** Errors never outnumber commits; together with the successes they make up all commits. */
  lemma {:induction false} ErrorsAtMostCommits<K>(outcomes: seq<Outcome<K>>)
    ensures ErrorCount(outcomes) <= |outcomes|
    ensures ErrorCount(outcomes) == |outcomes| <==> forall i :: 0 <= i < |outcomes| ==> outcomes[i].Failed?
  {
    if outcomes != [] {
      var init := outcomes[..|outcomes| - 1];
      ErrorsAtMostCommits(init);
      if ErrorCount(outcomes) == |outcomes| {
        forall i | 0 <= i < |outcomes| ensures outcomes[i].Failed? {
          if i < |init| {
            assert outcomes[i] == init[i];
          }
        }
      }
      if forall i :: 0 <= i < |outcomes| ==> outcomes[i].Failed? {
        assert forall i :: 0 <= i < |init| ==> init[i] == outcomes[i];
      }
    }
  }

  /** The counters of a history are the sums of the counters of its parts. */
  lemma {:induction false} CountsAdditive<K>(a: seq<Outcome<K>>, b: seq<Outcome<K>>)
    ensures ErrorCount(a + b) == ErrorCount(a) + ErrorCount(b)
    ensures RefactoringCount(a + b) == RefactoringCount(a) + RefactoringCount(b)
    ensures CommitCalls(a + b) == CommitCalls(a) + CommitCalls(b)
  {
    if b == [] {
      assert a + b == a;
    } else {
      var init := b[..|b| - 1];
      assert (a + b)[..|a + b| - 1] == a + init;
      CountsAdditive(a, init);
    }
  }

  /**
   * One handler call per commit, in commit order, about that commit, and
   * none of them is onFinish: the one onFinish of detect is its last call.
   */
  lemma {:induction false} OneCallPerCommit<K>(outcomes: seq<Outcome<K>>)
    ensures |CommitCalls(outcomes)| == |outcomes|
    ensures forall i :: 0 <= i < |outcomes| ==>
              !CommitCalls(outcomes)[i].OnFinish? &&
              CommitCalls(outcomes)[i].commitId == outcomes[i].commitId &&
              (CommitCalls(outcomes)[i].HandleException? <==> outcomes[i].Failed?)
  {
    if outcomes != [] {
      var init := outcomes[..|outcomes| - 1];
      OneCallPerCommit(init);
      assert forall i :: 0 <= i < |init| ==> init[i] == outcomes[i];
    }
  }

  /**
   * What the archive and remote-API detectRefactorings came to. They catch
   * the exception themselves, and the list variable keeps what it held when
   * the exception was thrown: the empty list before the assignment of the
   * diff's refactorings, that list (perhaps with the folder moves appended)
   * when addAll or filter throws.
   */
  datatype RevisionOutcome<K> =
    | Finished(commitId: string, refactorings: seq<Refactoring<K>>)
    | ThrewHolding(commitId: string, held: seq<Refactoring<K>>)

  /** What detectRefactorings returns: the filtered list, or what the variable held. */
  function RevisionResult<K>(outcome: RevisionOutcome<K>): seq<Refactoring<K>> {
    match outcome
    case Finished(_, refs) => refs
    case ThrewHolding(_, held) => held
  }

  /**
   * The handler calls of one revision: handle is called exactly once, last,
   * with the returned list, preceded by handleException exactly when the
   * analysis threw.
   */
  function RevisionCalls<K>(outcome: RevisionOutcome<K>): (calls: seq<HandlerCall<K>>)
    ensures calls != [] && calls[|calls| - 1] == Handle(outcome.commitId, RevisionResult(outcome))
    ensures forall i :: 0 <= i < |calls| - 1 ==> calls[i] == HandleException(outcome.commitId)
    ensures outcome.ThrewHolding? <==> |calls| == 2
  {
    match outcome
    case Finished(id, refs) => [Handle(id, refs)]
    case ThrewHolding(id, held) => [HandleException(id), Handle(id, held)]
  }
}
