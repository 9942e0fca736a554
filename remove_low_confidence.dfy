/**
 * The script that removes low-confidence answers from the word lists: the words a
 * JSON payload names, and the rewriting of one word-list file without the lines
 * whose normalised word is blocked. Its `normalize_word` is the same function as the
 * generator's word-list normalisation, `WordList.NormalizeWord`.
 */
module RemoveLowConfidence {
  import opened Wrappers
  import opened Text
  import opened Json
  import WordList

  // ---------------------------------------------------------------------------
  // Words named by the payload

  /** `add(raw)`: the normalised word of a string value; nothing for any other value or a non-word. */
  function Added(raw: Option<Json>): (r: set<string>)
    ensures forall w :: w in r ==> WordList.IsWord(w)
  {
    if raw.Some? && raw.value.JString? && WordList.NormalizeWord(raw.value.s).Some?
    then {WordList.NormalizeWord(raw.value.s).value}
    else {}
  }

  /** What one item of a list payload adds: an object's "answer" and "word", or a string itself. */
  function ItemWords(item: Json): (r: set<string>)
    ensures forall w :: w in r ==> WordList.IsWord(w)
  {
    match item
    case JObject(fields) => Added(Get(fields, "answer")) + Added(Get(fields, "word"))
    case JString(_) => Added(Some(item))
    case _ => {}
  }

  /** The union of what `f` gives for each item, item after item. */
  function UnionOf(items: seq<Json>, f: Json -> set<string>): set<string> {
    if items == [] then {} else UnionOf(items[..|items| - 1], f) + f(items[|items| - 1])
  }

  /** A word is in the union exactly when some item gives it. */
  lemma {:induction false} UnionOfMembers(items: seq<Json>, f: Json -> set<string>, w: string)
    ensures w in UnionOf(items, f) <==> exists k :: 0 <= k < |items| && w in f(items[k])
  {
    if items != [] {
      var init := items[..|items| - 1];
      UnionOfMembers(init, f, w);
      if w in UnionOf(init, f) {
        var k :| 0 <= k < |init| && w in f(init[k]);
        assert init[k] == items[k];
      }
      if exists k :: 0 <= k < |items| && w in f(items[k]) {
        var k :| 0 <= k < |items| && w in f(items[k]);
        if k < |init| {
          assert init[k] == items[k];
        }
      }
    }
  }

  lemma UnionOfItemWords(items: seq<Json>)
    ensures forall w :: w in UnionOf(items, ItemWords) ==> WordList.IsWord(w)
  {
    forall w | w in UnionOf(items, ItemWords) ensures WordList.IsWord(w) {
      UnionOfMembers(items, ItemWords, w);
    }
  }

  /** The words of a list payload: those of its items, in order. */
  function ListWords(items: seq<Json>): (r: set<string>)
    ensures forall w :: w in r ==> WordList.IsWord(w)
  {
    UnionOfItemWords(items);
    UnionOf(items, ItemWords)
  }

  /** The words of the list under one key of an object payload, if the value is a list. */
  function KeyWords(fields: seq<(string, Json)>, key: string): (r: set<string>)
    ensures forall w :: w in r ==> WordList.IsWord(w)
  {
    match Get(fields, key)
    case Some(JArray(items)) => ListWords(items)
    case _ => {}
  }

  /** The words of a payload: a list's words, the union over "answers", "words" and "entries" of an object, or none. */
  function PayloadWords(payload: Json): (r: set<string>)
    ensures forall w :: w in r ==> WordList.IsWord(w)
  {
    match payload
    case JArray(items) => ListWords(items)
    case JObject(fields) => KeyWords(fields, "answers") + KeyWords(fields, "words") + KeyWords(fields, "entries")
    case _ => {}
  }

  lemma ListWordsStep(items: seq<Json>, k: nat)
    requires k < |items|
    ensures ListWords(items[..k + 1]) == ListWords(items[..k]) + ItemWords(items[k])
  {
    assert items[..k + 1][..k] == items[..k];
  }

  /** `extract_words_from_json`. */
  method ExtractWordsFromJson(payload: Json) returns (words: set<string>)
    ensures words == PayloadWords(payload)
    decreases payload, 1
  {
    words := {};
    if payload.JArray? {
      var items := payload.items;
      for k := 0 to |items|
        invariant words == ListWords(items[..k])
      {
        ListWordsStep(items, k);
        var item := items[k];
        if item.JObject? {
          words := words + Added(Get(item.fields, "answer"));
          words := words + Added(Get(item.fields, "word"));
        } else if item.JString? {
          words := words + Added(Some(item));
        }
      }
      assert items[..|items|] == items;
      return words;
    }
    if payload.JObject? {
      var keys := ["answers", "words", "entries"];
      for k := 0 to 3
        invariant words == (if k > 0 then KeyWords(payload.fields, "answers") else {}) +
          (if k > 1 then KeyWords(payload.fields, "words") else {}) +
          (if k > 2 then KeyWords(payload.fields, "entries") else {})
      {
        var value := Get(payload.fields, keys[k]);
        if value.Some? && value.value.JArray? {
          var sub := ExtractList(value.value);
          words := words + sub;
        }
      }
      return words;
    }
  }

  /** The recursive call of `extract_words_from_json` on a list value, which takes its list branch. */
  method ExtractList(value: Json) returns (words: set<string>)
    requires value.JArray?
    ensures words == ListWords(value.items)
  {
    words := ExtractWordsFromJson(value);
  }

  /** The value of `raw` is a string whose normalised form is `w`. */
  predicate Supplies(raw: Option<Json>, w: string) {
    raw.Some? && raw.value.JString? && WordList.NormalizeWord(raw.value.s) == Some(w)
  }

  /** An item supplies `w`: an object's "answer" or "word", or a string item, normalises to it. */
  predicate ItemSupplies(item: Json, w: string) {
    || (item.JObject? && (Supplies(Get(item.fields, "answer"), w) || Supplies(Get(item.fields, "word"), w)))
    || (item.JString? && Supplies(Some(item), w))
  }

  /** An item adds exactly the words it supplies. */
  lemma ItemWordsExactly(item: Json, w: string)
    ensures w in ItemWords(item) <==> ItemSupplies(item, w)
  {
  }

  /**
   * A word comes from a list payload exactly when some object item's "answer" or "word",
   * or some string item, normalises to it; numbers, nulls, nested lists and other keys
   * contribute nothing.
   */
  lemma ListWordsExactly(items: seq<Json>, w: string)
    ensures w in ListWords(items) <==> exists k :: 0 <= k < |items| && ItemSupplies(items[k], w)
  {
    UnionOfMembers(items, ItemWords, w);
    forall k | 0 <= k < |items| {
      ItemWordsExactly(items[k], w);
    }
  }

  // ---------------------------------------------------------------------------
  // Removing blocked lines from one file

  /** A line is dropped when its stripped, normalised word is blocked. */
  predicate Blocked(line: string, blocked: set<string>) {
    var normalized := WordList.NormalizeWord(StripSpace(line));
    normalized.Some? && normalized.value in blocked
  }

  /** The lines that stay, unchanged and in their order. */
  function KeptLines(lines: seq<string>, blocked: set<string>): (r: seq<string>)
    ensures |r| <= |lines|
    ensures forall line :: line in r <==> line in lines && !Blocked(line, blocked)
  {
    if lines == [] then []
    else
      var init, last := lines[..|lines| - 1], lines[|lines| - 1];
      assert lines == init + [last];
      KeptLines(init, blocked) + (if Blocked(last, blocked) then [] else [last])
  }

  /** The number of dropped lines. */
  function RemovedCount(lines: seq<string>, blocked: set<string>): (n: nat)
    ensures n + |KeptLines(lines, blocked)| == |lines|
  {
    if lines == [] then 0
    else RemovedCount(lines[..|lines| - 1], blocked) + (if Blocked(lines[|lines| - 1], blocked) then 1 else 0)
  }

  /** The distinct words of the dropped lines. */
  function RemovedWords(lines: seq<string>, blocked: set<string>): (r: set<string>)
    ensures r <= blocked
  {
    if lines == [] then {} else RemovedWords(lines[..|lines| - 1], blocked) + Removal(lines[|lines| - 1], blocked)
  }

  /** The word a line removes, if it is blocked. */
  function Removal(line: string, blocked: set<string>): (r: set<string>)
    ensures r <= blocked
    ensures forall w :: w in r <==> RemovesWord(line, blocked, w)
  {
    if Blocked(line, blocked) then {WordList.NormalizeWord(StripSpace(line)).value} else {}
  }

  /** The line is blocked and normalises to `w`. */
  predicate RemovesWord(line: string, blocked: set<string>, w: string) {
    Blocked(line, blocked) && WordList.NormalizeWord(StripSpace(line)) == Some(w)
  }

  /** A word is removed exactly when some blocked line normalises to it. */
  lemma {:induction false} RemovedWordsExactly(lines: seq<string>, blocked: set<string>, w: string)
    ensures w in RemovedWords(lines, blocked) <==> exists k :: 0 <= k < |lines| && RemovesWord(lines[k], blocked, w)
  {
    if lines != [] {
      RemovedWordsExactly(lines[..|lines| - 1], blocked, w);
      assert forall k :: 0 <= k < |lines| - 1 ==> lines[..|lines| - 1][k] == lines[k];
      RemovedWordsLast(lines, blocked, w);
    }
  }

  /** The inductive step: the last line adds its own removed word to those of the others. */
  lemma RemovedWordsLast(lines: seq<string>, blocked: set<string>, w: string)
    requires lines != []
    requires w in RemovedWords(lines[..|lines| - 1], blocked) <==>
      exists k :: 0 <= k < |lines| - 1 && RemovesWord(lines[k], blocked, w)
    ensures w in RemovedWords(lines, blocked) <==> exists k :: 0 <= k < |lines| && RemovesWord(lines[k], blocked, w)
  {
  }

  /** One more line either joins the kept lines or counts as removed, with its word. */
  lemma FilterStep(lines: seq<string>, k: nat, blocked: set<string>)
    requires k < |lines|
    ensures var line := lines[k];
      && KeptLines(lines[..k + 1], blocked) == KeptLines(lines[..k], blocked) + (if Blocked(line, blocked) then [] else [line])
      && RemovedCount(lines[..k + 1], blocked) == RemovedCount(lines[..k], blocked) + (if Blocked(line, blocked) then 1 else 0)
      && RemovedWords(lines[..k + 1], blocked) == RemovedWords(lines[..k], blocked) + Removal(line, blocked)
  {
    var prefix := lines[..k + 1];
    assert prefix[..k] == lines[..k] && prefix[k] == lines[k];
    KeptStep(prefix, blocked);
    CountStep(prefix, blocked);
    WordsStep(prefix, blocked);
  }

  lemma KeptStep(lines: seq<string>, blocked: set<string>)
    requires lines != []
    ensures var init, last := lines[..|lines| - 1], lines[|lines| - 1];
      KeptLines(lines, blocked) == KeptLines(init, blocked) + (if Blocked(last, blocked) then [] else [last])
  {
  }

  lemma CountStep(lines: seq<string>, blocked: set<string>)
    requires lines != []
    ensures var init, last := lines[..|lines| - 1], lines[|lines| - 1];
      RemovedCount(lines, blocked) == RemovedCount(init, blocked) + (if Blocked(last, blocked) then 1 else 0)
  {
  }

  lemma WordsStep(lines: seq<string>, blocked: set<string>)
    requires lines != []
    ensures var init, last := lines[..|lines| - 1], lines[|lines| - 1];
      RemovedWords(lines, blocked) == RemovedWords(init, blocked) + Removal(last, blocked)
  {
  }

  /** The loop of `remove_words_from_file` over the lines. */
  method FilterLines(lines: seq<string>, blocked: set<string>)
    returns (kept: seq<string>, removedCount: nat, removedWords: set<string>)
    ensures kept == KeptLines(lines, blocked)
    ensures removedCount == RemovedCount(lines, blocked) && removedCount + |kept| == |lines|
    ensures removedWords == RemovedWords(lines, blocked) && removedWords <= blocked
  {
    kept, removedCount, removedWords := [], 0, {};
    for k := 0 to |lines|
      invariant kept == KeptLines(lines[..k], blocked)
      invariant removedCount == RemovedCount(lines[..k], blocked)
      invariant removedWords == RemovedWords(lines[..k], blocked)
    {
      FilterStep(lines, k, blocked);
      var line := lines[k];
      var stripped := StripSpace(line);
      var normalized := WordList.NormalizeWord(stripped);
      if normalized.Some? && normalized.value in blocked {
        removedCount := removedCount + 1;
        removedWords := removedWords + {normalized.value};
        continue;
      }
      kept := kept + [line];
    }
    assert lines[..|lines|] == lines;
  }

  /** The text the file is rewritten with: the kept lines, each ended by "\n". */
  function OutputText(kept: seq<string>): (text: string)
    ensures text == "" <==> kept == []
  {
    LinesText(kept)
  }

  /**
   * `remove_words_from_file` on the file's text (`None` when it does not exist): the
   * removed-line count, the removed words, and the new text when the file is rewritten,
   * which happens only outside a dry run and when some line was removed.
   */
  method RemoveWordsFromFile(text: Option<string>, blocked: set<string>, dryRun: bool)
    returns (removedCount: nat, removedWords: set<string>, written: Option<string>)
    ensures text.None? ==> removedCount == 0 && removedWords == {} && written.None?
    ensures text.Some? ==>
      && removedCount == RemovedCount(SplitLines(text.value), blocked)
      && removedWords == RemovedWords(SplitLines(text.value), blocked)
      && (written.Some? <==> !dryRun && removedCount > 0)
      && (written.Some? ==> written.value == OutputText(KeptLines(SplitLines(text.value), blocked)))
  {
    if text.None? {
      return 0, {}, None;
    }
    var lines := SplitLines(text.value);
    var kept;
    kept, removedCount, removedWords := FilterLines(lines, blocked);
    written := None;
    if !dryRun && removedCount > 0 {
      written := Some(OutputText(kept));
    }
  }

  /** The lines of a text never contain a line break. */
  lemma {:induction false} SplitLinesNoBreak(s: string)
    ensures forall k :: 0 <= k < |SplitLines(s)| ==> NoLineBreak(SplitLines(s)[k])
    decreases |s|
  {
    if s != [] {
      var i := LineEnd(s);
      if i < |s| {
        var next := if s[i] == '\r' && i + 1 < |s| && s[i + 1] == '\n' then i + 2 else i + 1;
        SplitLinesNoBreak(s[next..]);
      }
    }
  }

  /** The rewritten file reads back as exactly the kept lines. */
  lemma RewrittenReadsBack(text: string, blocked: set<string>)
    ensures SplitLines(OutputText(KeptLines(SplitLines(text), blocked))) == KeptLines(SplitLines(text), blocked)
  {
    var lines := SplitLines(text);
    var kept := KeptLines(lines, blocked);
    SplitLinesNoBreak(text);
    forall k | 0 <= k < |kept| ensures NoLineBreak(kept[k]) {
      assert kept[k] in lines;
    }
    SplitLinesText(kept);
  }
}
