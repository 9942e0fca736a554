/**
 * Saved puzzle progress as the view models see it: a lookup by key that returns
 * the saved progress, nothing, or throws. Files, directories and JSON decoding
 * behind the lookup are not part of this model.
 */
module ProgressStores {
  import opened Wrappers
  import opened Models
  import opened ChallengeLogic

  /** `loadProgress(puzzleId:)` for every key: a throw is a `Failure`, no saved progress is `Success(None)`. */
  type ProgressStore = string -> Result<Option<PuzzleProgress>>

  /** Progress is saved under the key and marked complete; a throw or a missing entry is not complete. */
  predicate StoredComplete(store: ProgressStore, key: string) {
    match store(key)
    case Success(Some(p)) => p.isComplete
    case _ => false
  }

  /** How many of the puzzles 0, 1, ..., n - 1 of a challenge have complete progress saved. */
  function CompletedAmong(store: ProgressStore, challengeId: string, n: nat): (count: nat)
    ensures count <= n
    ensures count == n <==> forall i :: 0 <= i < n ==> StoredComplete(store, ProgressKey(challengeId, i))
  {
    if n == 0 then 0
    else CompletedAmong(store, challengeId, n - 1) + (if StoredComplete(store, ProgressKey(challengeId, n - 1)) then 1 else 0)
  }

  /** A challenge is complete exactly when it has puzzles and every one of them has complete progress saved. */
  lemma ChallengeCompleteIffAllComplete(store: ProgressStore, challengeId: string, n: nat)
    ensures IsComplete(CompletedAmong(store, challengeId, n), n)
        <==> n > 0 && forall i :: 0 <= i < n ==> StoredComplete(store, ProgressKey(challengeId, i))
  {
  }
}
