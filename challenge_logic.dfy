/**
 * Rules shared by the challenge screens: the key a challenge puzzle's progress is
 * stored under, when a challenge counts as complete, and the order challenges
 * are listed in.
 */
module ChallengeLogic {
  import opened Wrappers
  import opened Models
  import opened Text
  import opened Sorting

  /** The progress key of puzzle `index` of challenge `challengeId`. */
  function ProgressKey(challengeId: string, index: int): string {
    "challenge_" + challengeId + "_" + IntToDecimal(index)
  }

  /**
   * A key is the prefix "challenge_", the id and "_", followed by the index in decimal,
   * which reads back as the index.
   */
  lemma ProgressKeyDecodes(challengeId: string, index: int)
    ensures var k := ProgressKey(challengeId, index);
      |k| > |challengeId| + 11 && k[..|challengeId| + 11] == "challenge_" + challengeId + "_"
    ensures var k := ProgressKey(challengeId, index);
      index >= 0 ==> ParseDigits(k[|challengeId| + 11..]) == Some(index)
    ensures var k := ProgressKey(challengeId, index);
      index < 0 ==> k[|challengeId| + 11] == '-' && ParseDigits(k[|challengeId| + 12..]) == Some(-index)
  {
    var k := ProgressKey(challengeId, index);
    var n := |challengeId| + 11;
    assert k[n..] == IntToDecimal(index) && k[n + 1..] == IntToDecimal(index)[1..];
    IntToDecimalParses(index);
  }

  lemma CancelLeft(p: string, x: string, y: string)
    requires p + x == p + y
    ensures x == y
  {
    assert x == (p + x)[|p|..];
    assert y == (p + y)[|p|..];
  }

  lemma CancelRight(x: string, y: string, q: string)
    requires x + q == y + q
    ensures x == y
  {
    assert x == (x + q)[..|x|];
    assert y == (y + q)[..|y|];
  }

  /** Distinct puzzles of one challenge, and one puzzle number of distinct challenges, never share a key. */
  lemma ProgressKeyInjective(a: string, i: int, b: string, j: int)
    requires ProgressKey(a, i) == ProgressKey(b, j)
    requires a == b || i == j
    ensures a == b && i == j
  {
    var si, sj := IntToDecimal(i), IntToDecimal(j);
    var pa, pb := "challenge_" + a + "_", "challenge_" + b + "_";
    assert pa + si == pb + sj;
    if i == j {
      CancelRight(pa, pb, si);
      assert pa == "challenge_" + (a + "_") && pb == "challenge_" + (b + "_");
      CancelLeft("challenge_", a + "_", b + "_");
      CancelRight(a, b, "_");
    }
    if a == b {
      CancelLeft(pa, si, sj);
      IntToDecimalInjective(i, j);
    }
  }

  /** A challenge is complete when it has puzzles and all of them are done. */
  function IsComplete(completedCount: int, totalCount: int): (r: bool)
    ensures totalCount <= 0 ==> !r
    ensures totalCount > 0 ==> (r <==> completedCount >= totalCount)
  {
    totalCount > 0 && completedCount >= totalCount
  }

  /** Case-insensitive name order: ASCII letters folded to lower case, then code-point order. */
  predicate NameNotAfter(a: string, b: string) {
    LexLe(Lower(a), Lower(b))
  }

  /** The comparator of `sortSummaries`: incomplete challenges first, then by name. */
  predicate SummaryBefore(l: ChallengeSummary, r: ChallengeSummary) {
    if l.isComplete != r.isComplete then !l.isComplete
    else !NameNotAfter(r.name, l.name)
  }

  predicate SummaryNotAfter(l: ChallengeSummary, r: ChallengeSummary) {
    !SummaryBefore(r, l)
  }

  lemma SummaryOrder()
    ensures TotalPreorder(SummaryNotAfter)
  {
    LexOrder();
  }

  /**
   * The summaries reordered: every incomplete challenge before every complete one, and
   * names in case-insensitive order within each group.
   */
  function SortSummaries(summaries: seq<ChallengeSummary>): (r: seq<ChallengeSummary>)
    ensures multiset(r) == multiset(summaries)
    ensures forall i, j :: 0 <= i < j < |r| && !r[j].isComplete ==> !r[i].isComplete
    ensures forall i, j :: 0 <= i < j < |r| && r[i].isComplete == r[j].isComplete ==> NameNotAfter(r[i].name, r[j].name)
  {
    SummaryOrder();
    SortBySorted(summaries, SummaryNotAfter);
    var r := SortBy(summaries, SummaryNotAfter);
    assert forall i, j :: 0 <= i < j < |r| ==> SummaryNotAfter(r[i], r[j]);
    LexOrder();
    r
  }

  /** Challenges that tie on completion and name keep their catalog order. */
  lemma SortSummariesStable(summaries: seq<ChallengeSummary>, y: ChallengeSummary)
    ensures EquivalentTo(SortSummaries(summaries), y, SummaryNotAfter) == EquivalentTo(summaries, y, SummaryNotAfter)
  {
    SummaryOrder();
    SortByStable(summaries, y, SummaryNotAfter);
  }
}
