/**
 * The challenge list: one summary per catalog challenge with its solved count and
 * completion, listed unsolved challenges first and by name.
 */
module ChallengeList {
  import opened Wrappers
  import opened Models
  import opened ChallengeLogic
  import opened ProgressStores

  /** The solved-puzzle count shown for a challenge: none for a challenge without puzzles. */
  function SolvedCount(store: ProgressStore, definition: ChallengeDefinition): (n: nat)
    ensures definition.puzzleCount <= 0 ==> n == 0
    ensures definition.puzzleCount > 0 ==> n == CompletedAmong(store, definition.id, definition.puzzleCount)
  {
    if definition.puzzleCount <= 0 then 0 else CompletedAmong(store, definition.id, definition.puzzleCount)
  }

  /**
   * The summary built for a definition. The summary carries no puzzle folder or
   * puzzle file list: the initializer call that builds it passes neither.
   */
  function SummaryOf(store: ProgressStore, definition: ChallengeDefinition): (s: ChallengeSummary)
    ensures s.id == definition.id && s.name == definition.name && s.puzzleFile == definition.puzzleFile
    ensures s.puzzleCount == definition.puzzleCount && s.puzzleFolder == None && s.puzzleFiles == None
    ensures s.completedCount == SolvedCount(store, definition)
    ensures s.isComplete <==> (definition.puzzleCount > 0 &&
      forall i :: 0 <= i < definition.puzzleCount ==> StoredComplete(store, ProgressKey(definition.id, i)))
  {
    var n := SolvedCount(store, definition);
    ChallengeCompleteIffAllComplete(store, definition.id, if definition.puzzleCount > 0 then definition.puzzleCount else 0);
    ChallengeSummary(definition.id, definition.name, definition.puzzleFile, definition.puzzleCount, None, None,
                     n, IsComplete(n, definition.puzzleCount))
  }

  /** One summary per definition, in catalog order. */
  function Summaries(store: ProgressStore, definitions: seq<ChallengeDefinition>): (r: seq<ChallengeSummary>)
    ensures |r| == |definitions|
    ensures forall i :: 0 <= i < |definitions| ==> r[i] == SummaryOf(store, definitions[i])
  {
    seq(|definitions|, i requires 0 <= i < |definitions| => SummaryOf(store, definitions[i]))
  }

  class ChallengeListViewModel {
    var challenges: seq<ChallengeSummary>
    var loadError: Option<string>

    /** `loadChallenges()`: the catalog's definitions, or a throw. */
    const loadChallenges: Result<seq<ChallengeDefinition>>
    const progressStore: ProgressStore

    constructor(loadChallenges: Result<seq<ChallengeDefinition>>, progressStore: ProgressStore)
      ensures challenges == [] && loadError == None
      ensures this.loadChallenges == loadChallenges && this.progressStore == progressStore
    {
      this.loadChallenges := loadChallenges;
      this.progressStore := progressStore;
      challenges := [];
      loadError := None;
    }

    /**
     * Counts the puzzles of the challenge with complete progress saved; a throwing or
     * missing lookup counts as unsolved, and a challenge without puzzles has none.
     */
    method CompletedPuzzleCount(definition: ChallengeDefinition) returns (count: int)
      ensures count == SolvedCount(progressStore, definition)
      ensures 0 <= count && (definition.puzzleCount > 0 ==> count <= definition.puzzleCount)
    {
      if definition.puzzleCount <= 0 {
        return 0;
      }
      count := 0;
      for index := 0 to definition.puzzleCount
        invariant count == CompletedAmong(progressStore, definition.id, index)
      {
        var key := ProgressKey(definition.id, index);
        if StoredComplete(progressStore, key) {
          count := count + 1;
        }
      }
    }

    /**
     * Loads the catalog and lists its challenges' summaries in display order. When the
     * catalog cannot be loaded, only the error message changes.
     */
    method Load()
      modifies this
      ensures loadChallenges.Failure? ==>
        challenges == old(challenges) && loadError == Some(loadChallenges.error.GetOr("Failed to load challenges"))
      ensures loadChallenges.Success? ==>
        && challenges == SortSummaries(Summaries(progressStore, loadChallenges.value))
        && loadError == None
    {
      if loadChallenges.Failure? {
        loadError := Some(loadChallenges.error.GetOr("Failed to load challenges"));
        return;
      }
      var definitions := loadChallenges.value;
      var summaries: seq<ChallengeSummary> := [];
      for k := 0 to |definitions|
        invariant |summaries| == k
        invariant forall i :: 0 <= i < k ==> summaries[i] == SummaryOf(progressStore, definitions[i])
      {
        var definition := definitions[k];
        var completedCount := CompletedPuzzleCount(definition);
        var isComplete := IsComplete(completedCount, definition.puzzleCount);
        summaries := summaries + [ChallengeSummary(definition.id, definition.name, definition.puzzleFile,
                                                   definition.puzzleCount, None, None, completedCount, isComplete)];
      }
      assert summaries == Summaries(progressStore, definitions);
      challenges := SortSummaries(summaries);
      loadError := None;
    }
  }

  /**
   * The listed challenges are the catalog's summaries, one per definition: a summary is
   * listed exactly when some definition produces it.
   */
  lemma ListedChallenges(store: ProgressStore, definitions: seq<ChallengeDefinition>, s: ChallengeSummary)
    ensures |SortSummaries(Summaries(store, definitions))| == |definitions|
    ensures s in SortSummaries(Summaries(store, definitions)) <==>
      exists i :: 0 <= i < |definitions| && s == SummaryOf(store, definitions[i])
  {
    var summaries := Summaries(store, definitions);
    var listed := SortSummaries(summaries);
    assert |listed| == |multiset(listed)| == |multiset(summaries)| == |summaries|;
    assert s in listed <==> s in multiset(listed);
    assert s in summaries <==> s in multiset(summaries);
    if s in summaries {
      var i :| 0 <= i < |summaries| && summaries[i] == s;
      assert s == SummaryOf(store, definitions[i]);
    }
  }
}
