/**
 * The challenge screen: loading a challenge builds one item per puzzle, where a
 * puzzle is locked while an earlier puzzle is still unsolved, and a tap on an
 * item either reports it as played, does nothing, opens it or shows the paywall.
 */
module ChallengeDetail {
  import opened Wrappers
  import opened Models
  import opened ChallengeLogic
  import opened ProgressStores

  datatype ChallengePuzzleItem = ChallengePuzzleItem(
    id: string,
    index: int,
    puzzle: Puzzle,
    progressKey: string,
    isComplete: bool,
    isLocked: bool)

  /** Item i is locked exactly when it is unsolved and some earlier item is unsolved. */
  predicate LockedAsRule(items: seq<ChallengePuzzleItem>) {
    forall i :: 0 <= i < |items| ==>
      (items[i].isLocked <==> !items[i].isComplete && exists k :: 0 <= k < i && !items[k].isComplete)
  }

  /** Item i of challenge `challengeId` shows `puzzle`, with its key and its completion read from the store. */
  predicate ItemFor(item: ChallengePuzzleItem, i: int, challengeId: string, puzzle: Puzzle, store: ProgressStore) {
    && item.index == i
    && item.id == ProgressKey(challengeId, i)
    && item.progressKey == ProgressKey(challengeId, i)
    && item.puzzle == puzzle
    && item.isComplete == StoredComplete(store, ProgressKey(challengeId, i))
  }

  predicate IndexedItems(items: seq<ChallengePuzzleItem>, challengeId: string, puzzle: Puzzle, store: ProgressStore) {
    forall i :: 0 <= i < |items| ==> ItemFor(items[i], i, challengeId, puzzle, store)
  }

  /** The item list of challenge `challengeId`, in index order, locked as the rule says. */
  predicate ItemsFor(items: seq<ChallengePuzzleItem>, challengeId: string, puzzle: Puzzle, store: ProgressStore) {
    IndexedItems(items, challengeId, puzzle, store) && LockedAsRule(items)
  }

  /**
   * The first item is never locked, a solved item is never locked, and an unsolved item
   * that is open has only solved items before it, so at most one unsolved item is open.
   */
  lemma LockingLeavesOneOpen(items: seq<ChallengePuzzleItem>)
    requires LockedAsRule(items)
    ensures |items| > 0 ==> !items[0].isLocked
    ensures forall i :: 0 <= i < |items| && items[i].isComplete ==> !items[i].isLocked
    ensures forall i :: 0 <= i < |items| && !items[i].isComplete && !items[i].isLocked ==>
      forall k :: 0 <= k < i ==> items[k].isComplete
    ensures forall i, j :: (0 <= i < |items| && 0 <= j < |items| && !items[i].isComplete && !items[i].isLocked
      && !items[j].isComplete && !items[j].isLocked) ==> i == j
  {
  }

  lemma LockedAsRuleAppend(items: seq<ChallengePuzzleItem>, item: ChallengePuzzleItem)
    requires LockedAsRule(items)
    requires item.isLocked <==> !item.isComplete && exists k :: 0 <= k < |items| && !items[k].isComplete
    ensures LockedAsRule(items + [item])
  {
    var s := items + [item];
    forall i | 0 <= i < |s|
      ensures s[i].isLocked <==> !s[i].isComplete && exists k :: 0 <= k < i && !s[k].isComplete
    {
      assert forall k :: 0 <= k < i ==> s[k] == items[k];
      if i < |items| {
        assert s[i] == items[i];
      }
    }
  }

  /** Appending the next item keeps the list well formed. */
  lemma ItemsForAppend(items: seq<ChallengePuzzleItem>, item: ChallengePuzzleItem, challengeId: string,
                       puzzle: Puzzle, store: ProgressStore)
    requires ItemsFor(items, challengeId, puzzle, store)
    requires ItemFor(item, |items|, challengeId, puzzle, store)
    requires item.isLocked <==> !item.isComplete && exists k :: 0 <= k < |items| && !items[k].isComplete
    ensures ItemsFor(items + [item], challengeId, puzzle, store)
    ensures CountComplete(items + [item]) == CountComplete(items) + (if item.isComplete then 1 else 0)
  {
    var s := items + [item];
    LockedAsRuleAppend(items, item);
    assert IndexedItems(s, challengeId, puzzle, store) by {
      forall i | 0 <= i < |s| ensures ItemFor(s[i], i, challengeId, puzzle, store) {
        if i < |items| {
          assert s[i] == items[i];
        }
      }
    }
    assert s[..|items|] == items;
  }

  /** What a tap on an item leads to. */
  datatype TapOutcome =
    | ShowAlreadyPlayed
    | Ignore
    | OpenPuzzle(puzzle: Puzzle, progressKey: string, index: int)
    | ShowPaywall(puzzle: Puzzle, puzzleKey: string, index: int)

  /**
   * The tap dispatch: a solved item reports it was played, a locked item ignores the
   * tap, otherwise the item opens when `canAccess` (the access check for its key)
   * holds and the paywall shows when it does not.
   */
  function Tap(item: ChallengePuzzleItem, canAccess: bool): (r: TapOutcome)
    ensures item.isComplete <==> r == ShowAlreadyPlayed
    ensures !item.isComplete && item.isLocked <==> r == Ignore
    ensures r.OpenPuzzle? <==> !item.isComplete && !item.isLocked && canAccess
    ensures r.OpenPuzzle? ==> r == OpenPuzzle(item.puzzle, item.progressKey, item.index)
    ensures r.ShowPaywall? ==> r == ShowPaywall(item.puzzle, item.progressKey, item.index)
  {
    if item.isComplete then ShowAlreadyPlayed
    else if item.isLocked then Ignore
    else if canAccess then OpenPuzzle(item.puzzle, item.progressKey, item.index)
    else ShowPaywall(item.puzzle, item.progressKey, item.index)
  }

  /** Only the first unsolved puzzle of a challenge can be opened or offered behind the paywall. */
  lemma TapOpensFirstUnsolvedOnly(items: seq<ChallengePuzzleItem>, i: int, canAccess: bool)
    requires LockedAsRule(items) && 0 <= i < |items|
    requires Tap(items[i], canAccess).OpenPuzzle? || Tap(items[i], canAccess).ShowPaywall?
    ensures !items[i].isComplete && forall k :: 0 <= k < i ==> items[k].isComplete
  {
  }

  function CountComplete(items: seq<ChallengePuzzleItem>): (n: nat)
    ensures n <= |items|
  {
    if items == [] then 0 else CountComplete(items[..|items| - 1]) + (if items[|items| - 1].isComplete then 1 else 0)
  }

  /** Counting the solved items of a challenge's item list counts the solved puzzles in the store. */
  lemma {:induction false} CountCompleteIsCompletedAmong(items: seq<ChallengePuzzleItem>, challengeId: string,
                                                        puzzle: Puzzle, store: ProgressStore)
    requires IndexedItems(items, challengeId, puzzle, store)
    ensures CountComplete(items) == CompletedAmong(store, challengeId, |items|)
  {
    if items != [] {
      var prefix := items[..|items| - 1];
      assert IndexedItems(prefix, challengeId, puzzle, store) by {
        forall i | 0 <= i < |prefix| ensures ItemFor(prefix[i], i, challengeId, puzzle, store) {
          assert prefix[i] == items[i];
        }
      }
      assert ItemFor(items[|items| - 1], |items| - 1, challengeId, puzzle, store);
      CountCompleteIsCompletedAmong(prefix, challengeId, puzzle, store);
    }
  }

  class ChallengeDetailViewModel {
    var puzzleItems: seq<ChallengePuzzleItem>
    var completedCount: int
    var isComplete: bool
    var loadError: Option<string>

    /** `loadPuzzle(named:)`: the puzzle in a bundled file, or a throw. */
    const loadPuzzle: string -> Result<Puzzle>
    /** `loadFallbackPuzzle()`: the bundled fallback puzzle, or a throw. */
    const fallbackPuzzle: Result<Puzzle>
    const progressStore: ProgressStore

    constructor(loadPuzzle: string -> Result<Puzzle>, fallbackPuzzle: Result<Puzzle>, progressStore: ProgressStore)
      ensures puzzleItems == [] && completedCount == 0 && !isComplete && loadError == None
      ensures this.loadPuzzle == loadPuzzle && this.fallbackPuzzle == fallbackPuzzle && this.progressStore == progressStore
    {
      this.loadPuzzle := loadPuzzle;
      this.fallbackPuzzle := fallbackPuzzle;
      this.progressStore := progressStore;
      puzzleItems := [];
      completedCount := 0;
      isComplete := false;
      loadError := None;
    }

    /** The challenge's puzzle file, else the fallback puzzle; a throw from both is the result. */
    function ChallengePuzzle(challenge: ChallengeDefinition): (r: Result<Puzzle>)
      ensures loadPuzzle(challenge.puzzleFile).Success? ==> r == loadPuzzle(challenge.puzzleFile)
      ensures loadPuzzle(challenge.puzzleFile).Failure? ==> r == fallbackPuzzle
    {
      match loadPuzzle(challenge.puzzleFile)
      case Success(p) => Success(p)
      case Failure(_) => fallbackPuzzle
    }

    /**
     * The loop of `loadChallenge`: one item per puzzle index, each locked when it is unsolved
     * and an earlier one is unsolved, and the number of solved items.
     */
    method BuildItems(challengeId: string, puzzle: Puzzle, count: int) returns (items: seq<ChallengePuzzleItem>, completed: int)
      requires count >= 0
      ensures |items| == count && ItemsFor(items, challengeId, puzzle, progressStore)
      ensures completed == CountComplete(items)
    {
      items := [];
      completed := 0;
      var allPreviousComplete := true;
      for index := 0 to count
        invariant |items| == index
        invariant ItemsFor(items, challengeId, puzzle, progressStore)
        invariant completed == CountComplete(items)
        invariant allPreviousComplete <==> forall k :: 0 <= k < index ==> items[k].isComplete
      {
        var key := ProgressKey(challengeId, index);
        var itemComplete := StoredComplete(progressStore, key);
        if itemComplete {
          completed := completed + 1;
        }
        var isLocked := !allPreviousComplete && !itemComplete;
        if !itemComplete {
          allPreviousComplete := false;
        }
        var item := ChallengePuzzleItem(key, index, puzzle, key, itemComplete, isLocked);
        ItemsForAppend(items, item, challengeId, puzzle, progressStore);
        items := items + [item];
      }
    }

    /**
     * Loads a challenge: one item per puzzle index in order, completion counted from the
     * store, and each unsolved item after the first unsolved one locked. When no puzzle
     * can be loaded, only the error message changes. A loaded challenge must not have a
     * negative puzzle count.
     */
    method Load(challenge: ChallengeDefinition)
      requires ChallengePuzzle(challenge).Success? ==> challenge.puzzleCount >= 0
      modifies this
      ensures ChallengePuzzle(challenge).Failure? ==>
        && puzzleItems == old(puzzleItems) && completedCount == old(completedCount) && isComplete == old(isComplete)
        && loadError == Some(ChallengePuzzle(challenge).error.GetOr("Failed to load challenge"))
      ensures ChallengePuzzle(challenge).Success? ==>
        && |puzzleItems| == challenge.puzzleCount
        && ItemsFor(puzzleItems, challenge.id, ChallengePuzzle(challenge).value, progressStore)
        && completedCount == CompletedAmong(progressStore, challenge.id, challenge.puzzleCount)
        && isComplete == IsComplete(completedCount, challenge.puzzleCount)
        && loadError == None
    {
      var loaded := ChallengePuzzle(challenge);
      if loaded.Failure? {
        loadError := Some(loaded.error.GetOr("Failed to load challenge"));
        return;
      }
      var puzzle := loaded.value;
      var items, completed := BuildItems(challenge.id, puzzle, challenge.puzzleCount);
      CountCompleteIsCompletedAmong(items, challenge.id, puzzle, progressStore);
      puzzleItems := items;
      completedCount := completed;
      isComplete := IsComplete(completed, challenge.puzzleCount);
      loadError := None;
    }
  }
}
