/**
 * The word lists of the puzzle generator: normalising raw words to A-Z, reading the
 * words of a list file within a length range, combining the list files, and the
 * `WordIndex` that answers "which words fit this pattern" queries with a cache.
 */
module WordList {
  import opened Wrappers
  import opened Text
  import Sorting

  // ---------------------------------------------------------------------------
  // Normalising one raw word

  /** A word the pattern `^[A-Z]+$` accepts: non-empty, upper-case ASCII letters only. */
  predicate IsWord(w: string) {
    |w| > 0 && forall i :: 0 <= i < |w| ==> 'A' <= w[i] <= 'Z'
  }

  /**
   * `normalize_word`: strip surrounding whitespace and upper-case; the result is kept
   * only when it is a word.
   */
  function NormalizeWord(raw: string): (r: Option<string>)
    ensures r.Some? ==> IsWord(r.value)
    ensures r.None? <==> !IsWord(Upper(StripSpace(raw)))
  {
    var word := Upper(StripSpace(raw));
    if word == "" then None
    else if !IsWord(word) then None
    else Some(word)
  }

  /** A word normalises to itself, and only a word does. */
  lemma NormalizeWordFixed(w: string)
    ensures NormalizeWord(w) == Some(w) <==> IsWord(w)
  {
    if IsWord(w) {
      assert w[0] !in Whitespace && w[|w| - 1] !in Whitespace;
      StripIdentity(w, Whitespace);
      assert Upper(w) == w;
    }
  }

  /** Normalising is idempotent. */
  lemma NormalizeWordIdempotent(raw: string)
    requires NormalizeWord(raw).Some?
    ensures NormalizeWord(NormalizeWord(raw).value) == NormalizeWord(raw)
  {
    NormalizeWordFixed(NormalizeWord(raw).value);
  }

  /** Surrounding blanks and lower case do not matter. */
  lemma NormalizeWordExample(raw: string)
    requires raw == " cat\n"
    ensures NormalizeWord(raw) == Some("CAT")
  {
    var s, t := "cat\n", "cat";
    assert raw[0] in Whitespace && raw[1..] == s;
    assert s[0] == 'c' && 'c' !in Whitespace;
    assert StripLeft(s, Whitespace) == s;
    assert s[3] in Whitespace && s[..3] == t;
    assert t[2] == 't' && 't' !in Whitespace;
    assert StripRight(t, Whitespace) == t;
    assert StripSpace(raw) == t;
    assert Upper(t) == "CAT";
    assert IsWord("CAT");
  }

  /** A word with a non-letter, and a blank line, are rejected. */
  lemma NormalizeWordRejects()
    ensures NormalizeWord("o'neil") == None && NormalizeWord("  ") == None
  {
    assert StripSpace("o'neil") == "o'neil" by { StripIdentity("o'neil", Whitespace); }
    assert Upper("o'neil")[1] == '\'';
    assert StripLeft("  ", Whitespace) == "";
  }

  // ---------------------------------------------------------------------------
  // Keeping the words of a list within a length range

  /** The normalised words of `raws` whose length is within [minLen, maxLen]. */
  function WordsIn(raws: seq<string>, minLen: int, maxLen: int): set<string> {
    set raw | raw in raws && NormalizeWord(raw).Some? && minLen <= |NormalizeWord(raw).value| <= maxLen
      :: NormalizeWord(raw).value
  }

  /** Reading one more line adds its normalised word when that word is of an accepted length. */
  lemma WordsInStep(raws: seq<string>, k: nat, minLen: int, maxLen: int)
    requires k < |raws|
    ensures WordsIn(raws[..k + 1], minLen, maxLen) ==
      WordsIn(raws[..k], minLen, maxLen) +
      (if NormalizeWord(raws[k]).Some? && minLen <= |NormalizeWord(raws[k]).value| <= maxLen
       then {NormalizeWord(raws[k]).value} else {})
  {
    assert raws[..k + 1] == raws[..k] + [raws[k]];
  }

  /** Collects the normalised words of a list that are of an accepted length. */
  method CollectWords(raws: seq<string>, minLen: int, maxLen: int) returns (words: set<string>)
    ensures words == WordsIn(raws, minLen, maxLen)
  {
    words := {};
    for k := 0 to |raws|
      invariant words == WordsIn(raws[..k], minLen, maxLen)
    {
      WordsInStep(raws, k, minLen, maxLen);
      var normalized := NormalizeWord(raws[k]);
      if normalized.None? {
        continue;
      }
      if minLen <= |normalized.value| <= maxLen {
        words := words + {normalized.value};
      }
    }
    assert raws[..|raws|] == raws;
  }

  /** A word is collected exactly when some raw entry normalises to it and its length is accepted. */
  lemma WordsInExactly(raws: seq<string>, minLen: int, maxLen: int, w: string)
    ensures w in WordsIn(raws, minLen, maxLen) <==>
      IsWord(w) && minLen <= |w| <= maxLen && exists raw :: raw in raws && NormalizeWord(raw) == Some(w)
  {
  }

  /**
   * `read_word_file`: the accepted words of a list file, one word per line; a missing
   * file (`text == None`) has none.
   */
  method ReadWordFile(text: Option<string>, minLen: int, maxLen: int) returns (words: set<string>)
    ensures text.None? ==> words == {}
    ensures text.Some? ==> words == WordsIn(SplitLines(text.value), minLen, maxLen)
  {
    if text.None? {
      return {};
    }
    words := CollectWords(SplitLines(text.value), minLen, maxLen);
  }

  /** The file text of a list of words (one per line) reads back as the words within range. */
  lemma ReadWrittenWords(ws: seq<string>, minLen: int, maxLen: int)
    requires forall k :: 0 <= k < |ws| ==> IsWord(ws[k])
    ensures WordsIn(SplitLines(LinesText(ws)), minLen, maxLen) == set w | w in ws && minLen <= |w| <= maxLen
  {
    forall k | 0 <= k < |ws| ensures NoLineBreak(ws[k]) {
      forall i | 0 <= i < |ws[k]| ensures !IsLineBreak(ws[k][i]) {
        assert 'A' <= ws[k][i] <= 'Z';
      }
    }
    SplitLinesText(ws);
    forall w | w in ws ensures NormalizeWord(w) == Some(w) {
      NormalizeWordFixed(w);
    }
  }

  // ---------------------------------------------------------------------------
  // Grouping words by length

  predicate AllLength(ws: seq<string>, length: int) {
    forall i :: 0 <= i < |ws| ==> |ws[i]| == length
  }

  /** The words of `ws` of the given length, in their order. */
  function WithLength(ws: seq<string>, length: int): (r: seq<string>)
    ensures AllLength(r, length)
    ensures forall w :: w in r <==> w in ws && |w| == length
    ensures |r| <= |ws|
  {
    if ws == [] then []
    else
      var init := WithLength(ws[..|ws| - 1], length);
      assert ws == ws[..|ws| - 1] + [ws[|ws| - 1]];
      if |ws[|ws| - 1]| == length then init + [ws[|ws| - 1]] else init
  }

  /** No word has the length: there is nothing to group. */
  lemma {:induction false} WithLengthNone(ws: seq<string>, length: int)
    requires forall i :: 0 <= i < |ws| ==> |ws[i]| != length
    ensures WithLength(ws, length) == []
  {
    if ws != [] {
      WithLengthNone(ws[..|ws| - 1], length);
    }
  }

  /** Python's `set(range(n))`. */
  function Range(n: nat): (r: set<int>)
    ensures forall i :: i in r <==> 0 <= i < n
  {
    if n == 0 then {} else Range(n - 1) + {n - 1}
  }

  /** Words grouped by length: each word appended to its length's list, in order. */
  function Grouped(ws: seq<string>): (g: map<nat, seq<string>>)
    ensures forall length :: length in g ==> AllLength(g[length], length)
  {
    if ws == [] then map[]
    else
      var g, w := Grouped(ws[..|ws| - 1]), ws[|ws| - 1];
      g[|w| := (if |w| in g then g[|w|] else []) + [w]]
  }

  lemma GroupedAppend(ws: seq<string>, w: string)
    ensures Grouped(ws + [w]) ==
      Grouped(ws)[|w| := (if |w| in Grouped(ws) then Grouped(ws)[|w|] else []) + [w]]
  {
    assert (ws + [w])[..|ws|] == ws;
  }

  /**
   * Groups the words by length, appending each word to its length's list
   * (`by_length.setdefault(len(word), []).append(word)`).
   */
  method GroupByLength(ws: seq<string>) returns (byLength: map<nat, seq<string>>)
    ensures byLength == Grouped(ws)
  {
    byLength := map[];
    for k := 0 to |ws|
      invariant byLength == Grouped(ws[..k])
    {
      var word := ws[k];
      assert ws[..k + 1] == ws[..k] + [word];
      GroupedAppend(ws[..k], word);
      byLength := byLength[|word| := (if |word| in byLength then byLength[|word|] else []) + [word]];
    }
    assert ws[..|ws|] == ws;
  }

  /**
   * A length has a group iff some word has it; the group is exactly that length's
   * words, in order, and a length without a group has no words.
   */
  lemma {:induction false} GroupedExactly(ws: seq<string>, length: nat)
    ensures length in Grouped(ws) <==> exists i :: 0 <= i < |ws| && |ws[i]| == length
    ensures length in Grouped(ws) ==> Grouped(ws)[length] == WithLength(ws, length) && Grouped(ws)[length] != []
    ensures length !in Grouped(ws) ==> WithLength(ws, length) == []
  {
    if ws != [] {
      var init, w := ws[..|ws| - 1], ws[|ws| - 1];
      GroupedExactly(init, length);
      assert ws == init + [w];
      if exists i :: 0 <= i < |init| && |init[i]| == length {
        var i :| 0 <= i < |init| && |init[i]| == length;
        assert |ws[i]| == length;
      }
      if exists i :: 0 <= i < |ws| && |ws[i]| == length {
        var i :| 0 <= i < |ws| && |ws[i]| == length;
        if i < |init| {
          assert |init[i]| == length;
        }
      }
    }
  }

  // ---------------------------------------------------------------------------
  // The position index of one length's words

  /** The indices among the first n words whose letter at `pos` is `ch`. */
  function IndicesWith(ws: seq<string>, length: int, n: int, pos: int, ch: char): set<int>
    requires AllLength(ws, length) && 0 <= n <= |ws| && 0 <= pos < length
  {
    set i | 0 <= i < n && ws[i][pos] == ch
  }

  /** For one position: each letter occurring there among the first n words, with their indices. */
  function LetterMap(ws: seq<string>, length: int, n: int, pos: int): map<char, set<int>>
    requires AllLength(ws, length) && 0 <= n <= |ws| && 0 <= pos < length
  {
    map ch | ch in (set i | 0 <= i < n :: ws[i][pos]) :: IndicesWith(ws, length, n, pos, ch)
  }

  /** The position index of a group: one letter map per position. */
  function PositionIndex(ws: seq<string>, length: nat): (positions: seq<map<char, set<int>>>)
    requires AllLength(ws, length)
    ensures |positions| == length
  {
    seq(length, pos requires 0 <= pos < length => LetterMap(ws, length, |ws|, pos))
  }

  /** `positions[pos][ch]` holds idx exactly when word idx has `ch` at `pos`. */
  lemma PositionIndexExactly(ws: seq<string>, length: nat, pos: nat, ch: char, idx: int)
    requires AllLength(ws, length) && pos < length
    ensures ch in PositionIndex(ws, length)[pos] && idx in PositionIndex(ws, length)[pos][ch] <==>
      0 <= idx < |ws| && ws[idx][pos] == ch
  {
    if 0 <= idx < |ws| && ws[idx][pos] == ch {
      assert ch in (set i | 0 <= i < |ws| :: ws[i][pos]);
    }
  }

  /** `positions[pos].setdefault(ch, set()).add(idx)`. */
  function AddIndex(m: map<char, set<int>>, ch: char, idx: int): map<char, set<int>> {
    m[ch := (if ch in m then m[ch] else {}) + {idx}]
  }

  lemma LetterMapStep(ws: seq<string>, length: int, n: int, pos: int)
    requires AllLength(ws, length) && 0 <= n < |ws| && 0 <= pos < length
    ensures LetterMap(ws, length, n + 1, pos) == AddIndex(LetterMap(ws, length, n, pos), ws[n][pos], n)
  {
    var before, after := LetterMap(ws, length, n, pos), LetterMap(ws, length, n + 1, pos);
    var added := AddIndex(before, ws[n][pos], n);
    forall ch | ch in after ensures ch in added && after[ch] == added[ch] {
      var i :| 0 <= i < n + 1 && ws[i][pos] == ch;
      if i < n {
        assert ch in before;
      }
    }
    assert after.Keys == added.Keys;
  }

  /** Adds word idx to the letter maps at each of its positions. */
  method IndexWord(positions0: seq<map<char, set<int>>>, word: string, idx: int)
    returns (positions: seq<map<char, set<int>>>)
    requires |word| == |positions0|
    ensures |positions| == |positions0|
    ensures forall pos :: 0 <= pos < |word| ==> positions[pos] == AddIndex(positions0[pos], word[pos], idx)
  {
    positions := positions0;
    for pos := 0 to |word|
      invariant |positions| == |positions0|
      invariant forall p :: 0 <= p < pos ==> positions[p] == AddIndex(positions0[p], word[p], idx)
      invariant forall p :: pos <= p < |word| ==> positions[p] == positions0[p]
    {
      positions := positions[pos := AddIndex(positions[pos], word[pos], idx)];
    }
  }

  /** Builds the position index of one length's words, word by word. */
  method BuildPositions(ws: seq<string>, length: nat) returns (positions: seq<map<char, set<int>>>)
    requires AllLength(ws, length)
    ensures positions == PositionIndex(ws, length)
  {
    positions := seq(length, _ => map[]);
    for idx := 0 to |ws|
      invariant |positions| == length
      invariant forall pos :: 0 <= pos < length ==> positions[pos] == LetterMap(ws, length, idx, pos)
    {
      forall pos | 0 <= pos < length ensures LetterMap(ws, length, idx + 1, pos) ==
        AddIndex(LetterMap(ws, length, idx, pos), ws[idx][pos], idx)
      {
        LetterMapStep(ws, length, idx, pos);
      }
      positions := IndexWord(positions, ws[idx], idx);
    }
  }

  // ---------------------------------------------------------------------------
  // Pattern queries

  /** `word` fits `pattern` on its first n positions: same length, and the letters agree where the pattern has no '.'. */
  predicate MatchesUpTo(pattern: string, word: string, n: int) {
    |word| == |pattern| && forall p :: 0 <= p < n && p < |pattern| && pattern[p] != '.' ==> word[p] == pattern[p]
  }

  predicate Matches(pattern: string, word: string) {
    MatchesUpTo(pattern, word, |pattern|)
  }

  /** The indices of the words that fit the pattern. */
  function Fitting(ws: seq<string>, pattern: string): set<int> {
    set i | 0 <= i < |ws| && Matches(pattern, ws[i])
  }

  /** The words of `ws` that fit `pattern`, in their order. */
  function FittingIn(ws: seq<string>, pattern: string): (r: seq<string>)
    ensures forall w :: w in r <==> w in ws && Matches(pattern, w)
  {
    if ws == [] then []
    else
      var init, last := ws[..|ws| - 1], ws[|ws| - 1];
      assert ws == init + [last];
      FittingIn(init, pattern) + (if Matches(pattern, last) then [last] else [])
  }

  /** `r` lists the words of `ws` that fit `pattern`, in some order, each as often as it occurs in `ws`. */
  predicate Lists(r: seq<string>, ws: seq<string>, pattern: string) {
    multiset(r) == multiset(FittingIn(ws, pattern))
  }

  /** Only words of the pattern's length can fit it. */
  lemma {:induction false} FittingInWithLength(ws: seq<string>, pattern: string)
    ensures FittingIn(WithLength(ws, |pattern|), pattern) == FittingIn(ws, pattern)
  {
    if ws != [] {
      var init, last := ws[..|ws| - 1], ws[|ws| - 1];
      FittingInWithLength(init, pattern);
      if |last| == |pattern| {
        var grouped := WithLength(init, |pattern|) + [last];
        assert grouped[..|grouped| - 1] == WithLength(init, |pattern|);
      }
    }
  }

  /**
   * The intersection loop of `candidates`: starting from all indices, keep those whose
   * letter agrees at each non-'.' position, stopping early once none is left.
   */
  method FitIndices(ws: seq<string>, positions: seq<map<char, set<int>>>, all: set<int>, pattern: string)
    returns (indices: set<int>)
    requires AllLength(ws, |pattern|) && positions == PositionIndex(ws, |pattern|)
    requires all == Range(|ws|)
    ensures indices == Fitting(ws, pattern)
  {
    indices := all;
    for pos := 0 to |pattern|
      invariant indices == set i | 0 <= i < |ws| && MatchesUpTo(pattern, ws[i], pos)
    {
      if pattern[pos] == '.' {
        continue;
      }
      var ch := pattern[pos];
      var holders := if ch in positions[pos] then positions[pos][ch] else {};
      assert holders == IndicesWith(ws, |pattern|, |ws|, pos, ch);
      indices := indices * holders;
      assert Fitting(ws, pattern) <= indices by {
        forall i | i in Fitting(ws, pattern) ensures MatchesUpTo(pattern, ws[i], pos + 1) {
        }
      }
      if indices == {} {
        return;
      }
    }
  }

  /**
   * `[words[idx] for idx in indices]`. Python visits the set in an order it does not
   * specify; the model visits the indices in ascending order.
   */
  method WordsAt(ws: seq<string>, indices: set<int>, pattern: string) returns (r: seq<string>)
    requires indices == Fitting(ws, pattern)
    ensures r == FittingIn(ws, pattern)
  {
    r := [];
    for k := 0 to |ws|
      invariant r == FittingIn(ws[..k], pattern)
    {
      assert ws[..k + 1][..k] == ws[..k];
      if k in indices {
        r := r + [ws[k]];
      }
    }
    assert ws[..|ws|] == ws;
  }

  /** The uncached part of `candidates`: intersect the position sets, then list the words. */
  method FittingWords(group: seq<string>, positions: seq<map<char, set<int>>>, all: set<int>, pattern: string)
    returns (r: seq<string>)
    requires AllLength(group, |pattern|) && positions == PositionIndex(group, |pattern|)
    requires all == Range(|group|)
    ensures r == FittingIn(group, pattern)
  {
    var indices := FitIndices(group, positions, all, pattern);
    r := WordsAt(group, indices, pattern);
  }

  /** A listing holds exactly the fitting words. */
  lemma ListsMembers(r: seq<string>, ws: seq<string>, pattern: string, w: string)
    requires Lists(r, ws, pattern)
    ensures w in r <==> w in ws && Matches(pattern, w)
  {
    assert w in r <==> w in multiset(r);
    assert w in FittingIn(ws, pattern) <==> w in multiset(FittingIn(ws, pattern));
  }

  /** The lengths of the words in order of first occurrence: the key order of `by_length`. */
  function LengthOrder(ws: seq<string>): (order: seq<nat>)
    ensures Sorting.Distinct(order)
    ensures forall length :: length in order <==> length in Grouped(ws)
  {
    if ws == [] then []
    else
      var init, w := LengthOrder(ws[..|ws| - 1]), ws[|ws| - 1];
      if |w| in init then init else init + [|w|]
  }

  /** Each group holds words of its own length. */
  predicate GroupsWellFormed(g: map<nat, seq<string>>) {
    forall length :: length in g ==> AllLength(g[length], length)
  }

  /** The position index of every group. */
  function PositionIndexes(g: map<nat, seq<string>>): map<nat, seq<map<char, set<int>>>>
    requires GroupsWellFormed(g)
  {
    map length | length in g :: PositionIndex(g[length], length)
  }

  /** The indices of every group's words. */
  function AllIndicesOf(g: map<nat, seq<string>>): map<nat, set<int>> {
    map length | length in g :: Range(|g[length]|)
  }

  /** An empty query cache for every group. */
  function EmptyCaches(g: map<nat, seq<string>>): map<nat, map<string, seq<string>>> {
    map length | length in g :: map[]
  }

  /**
   * The loop of `_build_index`: visits the groups in `order` (the dictionary's insertion
   * order) and records each one's position index, an empty cache and all its indices.
   */
  method IndexGroups(g: map<nat, seq<string>>, order: seq<nat>)
    returns (newIndex: map<nat, seq<map<char, set<int>>>>, newCache: map<nat, map<string, seq<string>>>,
             newAll: map<nat, set<int>>)
    requires GroupsWellFormed(g)
    requires forall length :: length in order <==> length in g
    ensures newIndex == PositionIndexes(g)
    ensures newCache == EmptyCaches(g)
    ensures newAll == AllIndicesOf(g)
  {
    newIndex, newCache, newAll := map[], map[], map[];
    for k := 0 to |order|
      invariant forall length :: length in newIndex <==> length in order[..k]
      invariant newCache.Keys == newAll.Keys == newIndex.Keys
      invariant forall length :: length in newIndex ==> newIndex[length] == PositionIndex(g[length], length)
      invariant forall length :: length in newCache ==> newCache[length] == map[]
      invariant forall length :: length in newAll ==> newAll[length] == Range(|g[length]|)
    {
      var length := order[k];
      var group := g[length];
      var positions := BuildPositions(group, length);
      newIndex := newIndex[length := positions];
      newCache := newCache[length := map[]];
      newAll := newAll[length := Range(|group|)];
    }
    assert order[..|order|] == order;
    assert newIndex.Keys == g.Keys;
    PositionIndexesAt(g, newIndex);
  }

  lemma PositionIndexesAt(g: map<nat, seq<string>>, m: map<nat, seq<map<char, set<int>>>>)
    requires GroupsWellFormed(g) && m.Keys == g.Keys
    requires forall length :: length in m ==> m[length] == PositionIndex(g[length], length)
    ensures m == PositionIndexes(g)
  {
  }

  /** `WordIndex` over a word list. */
  class WordIndex {
    var words: seq<string>
    var byLength: map<nat, seq<string>>
    var index: map<nat, seq<map<char, set<int>>>>
    var cache: map<nat, map<string, seq<string>>>
    var allIndices: map<nat, set<int>>

    /**
     * The groups are the words by length, each length has its position index and its
     * full index set, and every cached answer lists its pattern's fitting words.
     */
    ghost predicate Valid()
      reads this
    {
      && byLength == Grouped(words)
      && index == PositionIndexes(byLength)
      && allIndices == AllIndicesOf(byLength)
      && cache.Keys == byLength.Keys
      && CacheSound(cache, byLength)
    }

    /** `__init__`: groups the words by length, then builds the index with empty caches. */
    constructor(words: seq<string>)
      ensures Valid()
      ensures this.words == words && byLength == Grouped(words)
      ensures cache == EmptyCaches(byLength)
    {
      this.words := words;
      var grouped := GroupByLength(words);
      byLength := grouped;
      index := map[];
      cache := map[];
      allIndices := map[];
      new;
      BuildIndex();
      EmptyCachesSound(byLength);
      UnionEmptyLeft(PositionIndexes(byLength));
      UnionEmptyLeft(EmptyCaches(byLength));
      UnionEmptyLeft(AllIndicesOf(byLength));
    }

    /** `_build_index`: for every length, its position index, an empty cache and all its indices. */
    method BuildIndex()
      requires byLength == Grouped(words)
      modifies this
      ensures words == old(words) && byLength == old(byLength)
      ensures index == old(index) + PositionIndexes(byLength)
      ensures cache == old(cache) + EmptyCaches(byLength)
      ensures allIndices == old(allIndices) + AllIndicesOf(byLength)
    {
      var newIndex, newCache, newAll := IndexGroups(byLength, LengthOrder(words));
      index, cache, allIndices := index + newIndex, cache + newCache, allIndices + newAll;
    }

    /**
     * `candidates`: the words of the pattern's length that fit it. An unknown length
     * gives none; a cached pattern gives the stored list; otherwise the answer is
     * computed and stored.
     */
    method Candidates(pattern: string) returns (r: seq<string>)
      requires Valid()
      modifies this
      ensures Valid()
      ensures words == old(words) && byLength == old(byLength)
      ensures index == old(index) && allIndices == old(allIndices)
      ensures |pattern| !in byLength ==> r == [] && cache == old(cache)
      ensures |pattern| in byLength && pattern in old(cache)[|pattern|] ==>
        r == old(cache)[|pattern|][pattern] && cache == old(cache)
      ensures |pattern| in byLength && pattern !in old(cache)[|pattern|] ==>
        cache == old(cache)[|pattern| := old(cache)[|pattern|][pattern := r]]
      ensures Lists(r, words, pattern)
      ensures forall w :: w in r <==> w in words && Matches(pattern, w)
    {
      var length := |pattern|;
      if length !in byLength {
        UngroupedFitsNothing(words, pattern);
        return [];
      }
      var patterns := cache[length];
      if pattern in patterns {
        r := patterns[pattern];
      } else {
        r := GroupFitting(byLength, index, allIndices, pattern);
        CacheSoundAdd(cache, byLength, pattern, r);
        cache := cache[length := patterns[pattern := r]];
      }
      GroupListsAll(words, pattern, r);
    }
  }

  /** Answers a query from the index of the pattern's length group. */
  method GroupFitting(g: map<nat, seq<string>>, idx: map<nat, seq<map<char, set<int>>>>, all: map<nat, set<int>>, pattern: string)
    returns (r: seq<string>)
    requires GroupsWellFormed(g) && idx == PositionIndexes(g) && all == AllIndicesOf(g) && |pattern| in g
    ensures Lists(r, g[|pattern|], pattern)
  {
    var length := |pattern|;
    r := FittingWords(g[length], idx[length], all[length], pattern);
  }

  /** A pattern whose length no word has fits no word. */
  lemma UngroupedFitsNothing(ws: seq<string>, pattern: string)
    requires |pattern| !in Grouped(ws)
    ensures FittingIn(ws, pattern) == []
  {
    GroupedExactly(ws, |pattern|);
    FittingInWithLength(ws, pattern);
  }

  /** Listing the fitting words of a pattern's group lists the fitting words of the whole list. */
  lemma GroupListsAll(ws: seq<string>, pattern: string, r: seq<string>)
    requires |pattern| in Grouped(ws) && Lists(r, Grouped(ws)[|pattern|], pattern)
    ensures Lists(r, ws, pattern)
    ensures forall w :: w in r <==> w in ws && Matches(pattern, w)
  {
    GroupedExactly(ws, |pattern|);
    FittingInWithLength(ws, pattern);
    forall w ensures w in r <==> w in ws && Matches(pattern, w) {
      ListsMembers(r, ws, pattern, w);
    }
  }

  /** Every cached answer lists the fitting words of its pattern's group. */
  predicate CacheSound(cache: map<nat, map<string, seq<string>>>, g: map<nat, seq<string>>) {
    forall length, pattern :: length in cache && pattern in cache[length] ==>
      |pattern| == length && length in g && Lists(cache[length][pattern], g[length], pattern)
  }

  lemma UnionEmptyLeft<K, V>(m: map<K, V>)
    ensures map[] + m == m
  {
  }

  lemma EmptyCachesSound(g: map<nat, seq<string>>)
    ensures CacheSound(EmptyCaches(g), g)
  {
  }

  lemma CacheSoundAdd(cache: map<nat, map<string, seq<string>>>, g: map<nat, seq<string>>, pattern: string, r: seq<string>)
    requires CacheSound(cache, g) && |pattern| in cache && |pattern| in g
    requires Lists(r, g[|pattern|], pattern)
    ensures CacheSound(cache[|pattern| := cache[|pattern|][pattern := r]], g)
  {
  }

  // ---------------------------------------------------------------------------
  // Loading the combined word list

  /** The category list files, combined before the allow list and the ban list are applied. */
  const Categories: seq<string> := ["core", "names", "geo", "slang", "abbreviations"]

  /** The text of a list file in the word-list directory, if the file exists. */
  function FileText(files: map<string, string>, name: string): Option<string> {
    if name in files then Some(files[name]) else None
  }

  /** The accepted words of a list file. */
  function FileWords(files: map<string, string>, name: string, minLen: int, maxLen: int): set<string> {
    if name in files then WordsIn(SplitLines(files[name]), minLen, maxLen) else {}
  }

  /** The accepted words of each category file, in category order. */
  function CategoryParts(files: map<string, string>, minLen: int, maxLen: int): (parts: seq<set<string>>)
    ensures |parts| == |Categories|
  {
    seq(|Categories|, k requires 0 <= k < |Categories| => FileWords(files, Categories[k] + ".txt", minLen, maxLen))
  }

  /** The union of a sequence of word sets, accumulated left to right. */
  function Union(parts: seq<set<string>>): set<string> {
    if parts == [] then {} else Union(parts[..|parts| - 1]) + parts[|parts| - 1]
  }

  lemma {:induction false} UnionExactly(parts: seq<set<string>>, w: string)
    ensures w in Union(parts) <==> exists k :: 0 <= k < |parts| && w in parts[k]
  {
    if parts != [] {
      var init := parts[..|parts| - 1];
      UnionExactly(init, w);
      if w in Union(init) {
        var k :| 0 <= k < |init| && w in init[k];
        assert w in parts[k];
      }
      if exists k :: 0 <= k < |parts| && w in parts[k] {
        var k :| 0 <= k < |parts| && w in parts[k];
        if k < |init| {
          assert w in init[k];
        }
      }
    }
  }

  /** The category words and the allow list, without the ban list: the ban list wins. */
  function Combined(files: map<string, string>, minLen: int, maxLen: int): set<string> {
    (Union(CategoryParts(files, minLen, maxLen)) + FileWords(files, "allowlist.txt", minLen, maxLen))
      - FileWords(files, "banlist.txt", minLen, maxLen)
  }

  /** The loaded word list and its grouping by length. */
  datatype WordData = WordData(words: seq<string>, byLength: map<nat, seq<string>>)

  /** `sorted(words)` of a set: the set listed in an unspecified order, then sorted. */
  method SortedWords(words: set<string>) returns (r: seq<string>)
    ensures Sorting.SortedBy(r, Sorting.LexLe) && Sorting.Distinct(r)
    ensures forall w :: w in r <==> w in words
  {
    var listed: seq<string> := [];
    var remaining := words;
    while remaining != {}
      invariant Sorting.Distinct(listed)
      invariant forall w :: w in listed <==> w in words && w !in remaining
      invariant remaining <= words
      decreases |remaining|
    {
      var w :| w in remaining;
      listed := listed + [w];
      remaining := remaining - {w};
    }
    Sorting.LexOrder();
    r := Sorting.SortBy(listed, Sorting.LexLe);
    Sorting.SortBySorted(listed, Sorting.LexLe);
    Sorting.MultisetDistinct(listed, r);
    forall w ensures w in r <==> w in listed {
      assert w in r <==> w in multiset(r);
      assert w in listed <==> w in multiset(listed);
    }
  }

  /**
   * `load_words`: the category words plus the allow list minus the ban list, sorted,
   * with their grouping by length.
   */
  method LoadWords(files: map<string, string>, minLen: int, maxLen: int) returns (data: WordData)
    ensures forall w :: w in data.words <==> w in Combined(files, minLen, maxLen)
    ensures Sorting.SortedBy(data.words, Sorting.LexLe) && Sorting.Distinct(data.words)
    ensures data.byLength == Grouped(data.words)
  {
    ghost var parts := CategoryParts(files, minLen, maxLen);
    var combined: set<string> := {};
    for k := 0 to |Categories|
      invariant combined == Union(parts[..k])
    {
      var part := ReadWordFile(FileText(files, Categories[k] + ".txt"), minLen, maxLen);
      assert parts[..k + 1][..k] == parts[..k];
      combined := combined + part;
    }
    assert parts[..|Categories|] == parts;
    var allowlist := ReadWordFile(FileText(files, "allowlist.txt"), minLen, maxLen);
    var banlist := ReadWordFile(FileText(files, "banlist.txt"), minLen, maxLen);
    combined := combined + allowlist;
    combined := combined - banlist;
    var words := SortedWords(combined);
    var byLength := GroupByLength(words);
    return WordData(words, byLength);
  }

  /** A loaded word is an accepted word of some category file or the allow list, and not of the ban list. */
  lemma CombinedExactly(files: map<string, string>, minLen: int, maxLen: int, w: string)
    ensures w in Combined(files, minLen, maxLen) <==>
      && ((exists k :: 0 <= k < |Categories| && w in FileWords(files, Categories[k] + ".txt", minLen, maxLen))
          || w in FileWords(files, "allowlist.txt", minLen, maxLen))
      && w !in FileWords(files, "banlist.txt", minLen, maxLen)
  {
    var parts := CategoryParts(files, minLen, maxLen);
    UnionExactly(parts, w);
    if exists k :: 0 <= k < |Categories| && w in FileWords(files, Categories[k] + ".txt", minLen, maxLen) {
      var k :| 0 <= k < |Categories| && w in FileWords(files, Categories[k] + ".txt", minLen, maxLen);
      assert w in parts[k];
    }
  }

  /** Two lists that are sorted, duplicate-free and hold the same words are the same list. */
  lemma SortedWordsUnique(a: seq<string>, b: seq<string>)
    requires Sorting.SortedBy(a, Sorting.LexLe) && Sorting.Distinct(a)
    requires Sorting.SortedBy(b, Sorting.LexLe) && Sorting.Distinct(b)
    requires forall w :: w in a <==> w in b
    ensures a == b
  {
    Sorting.LexOrder();
    Sorting.SortedDistinctUnique(a, b, Sorting.LexLe);
  }
}
