/**
 * The script that builds the category word lists: the airport-code parser for the
 * nested airports payload, the gathering of accepted words from each category's
 * sources, the frequency filter on the "core" category, and the text each list file is
 * written with. Its `normalize_word` is the same function as the generator's word-list
 * normalisation, `WordList.NormalizeWord`. Fetching a source over the network is not
 * modelled: each source is given by the raw words it yielded.
 */
module DownloadWordlists {
  import opened Wrappers
  import opened Text
  import opened Json
  import Sorting
  import WordList

  // ---------------------------------------------------------------------------
  // Airport codes: states -> state -> airports -> airport -> codes -> "IATA"

  /** The "IATA" string of one codes value, when it is an object holding a string there. */
  function IataCode(codes: Json): seq<string> {
    if codes.JObject? then
      match Get(codes.fields, "IATA")
      case Some(JString(code)) => [code]
      case _ => []
    else []
  }

  /** The codes of one airport object, field by field. */
  function AirportCodes(fields: seq<(string, Json)>): seq<string> {
    if fields == [] then [] else AirportCodes(fields[..|fields| - 1]) + IataCode(fields[|fields| - 1].1)
  }

  /** The codes of one list of airports; items that are not objects are skipped. */
  function AirportListCodes(airports: seq<Json>): seq<string> {
    if airports == [] then []
    else
      var last := airports[|airports| - 1];
      AirportListCodes(airports[..|airports| - 1]) + (if last.JObject? then AirportCodes(last.fields) else [])
  }

  /** The codes of one state object, value by value; values that are not lists are skipped. */
  function StateCodes(fields: seq<(string, Json)>): seq<string> {
    if fields == [] then []
    else
      var last := fields[|fields| - 1].1;
      StateCodes(fields[..|fields| - 1]) + (if last.JArray? then AirportListCodes(last.items) else [])
  }

  /** The codes of a list of states; entries that are not objects are skipped. */
  function StatesCodes(states: seq<Json>): seq<string> {
    if states == [] then []
    else
      var last := states[|states| - 1];
      StatesCodes(states[..|states| - 1]) + (if last.JObject? then StateCodes(last.fields) else [])
  }

  /**
   * What `parse_us_airport_codes_iata` returns: the codes of the "states" list. A missing
   * "states" gives no codes; an object or a string there is iterated as keys or
   * characters, none of which is an object, so it gives none either. A payload that is
   * not an object, or a "states" value that cannot be iterated, raises.
   */
  function AirportCodesOf(payload: Json): (r: Result<seq<string>>)
    ensures payload.JObject? && Get(payload.fields, "states").None? ==> r == Success([])
    ensures payload.JObject? && Get(payload.fields, "states").Some? ==>
      var states := Get(payload.fields, "states").value;
      && (states.JArray? ==> r == Success(StatesCodes(states.items)))
      && (states.JObject? || states.JString? ==> r == Success([]))
      && (r.Failure? <==> states.JNull? || states.JBool? || states.JNumber?)
    ensures !payload.JObject? ==> r.Failure?
  {
    if !payload.JObject? then Failure(Some("payload is not an object"))
    else
      match Get(payload.fields, "states")
      case None => Success([])
      case Some(JArray(items)) => Success(StatesCodes(items))
      case Some(JObject(_)) => Success([])
      case Some(JString(_)) => Success([])
      case Some(_) => Failure(Some("states is not iterable"))
  }

  lemma StatesStep(states: seq<Json>, i: nat)
    requires i < |states|
    ensures StatesCodes(states[..i + 1]) ==
      StatesCodes(states[..i]) + (if states[i].JObject? then StateCodes(states[i].fields) else [])
  {
    assert states[..i + 1][..i] == states[..i];
  }

  lemma StateStep(fields: seq<(string, Json)>, j: nat)
    requires j < |fields|
    ensures StateCodes(fields[..j + 1]) ==
      StateCodes(fields[..j]) + (if fields[j].1.JArray? then AirportListCodes(fields[j].1.items) else [])
  {
    assert fields[..j + 1][..j] == fields[..j];
  }

  lemma AirportListStep(airports: seq<Json>, k: nat)
    requires k < |airports|
    ensures AirportListCodes(airports[..k + 1]) ==
      AirportListCodes(airports[..k]) + (if airports[k].JObject? then AirportCodes(airports[k].fields) else [])
  {
    assert airports[..k + 1][..k] == airports[..k];
  }

  lemma AirportStep(fields: seq<(string, Json)>, l: nat)
    requires l < |fields|
    ensures AirportCodes(fields[..l + 1]) == AirportCodes(fields[..l]) + IataCode(fields[l].1)
  {
    assert fields[..l + 1][..l] == fields[..l];
  }

  /** `parse_us_airport_codes_iata`: the nested loops over states, airports and codes. */
  method ParseUsAirportCodesIata(payload: Json) returns (r: Result<seq<string>>)
    ensures r == AirportCodesOf(payload)
  {
    if !payload.JObject? {
      return Failure(Some("payload is not an object"));
    }
    var found := Get(payload.fields, "states");
    if found.None? || found.value.JObject? || found.value.JString? {
      return Success([]);
    }
    if !found.value.JArray? {
      return Failure(Some("states is not iterable"));
    }
    var states := found.value.items;
    var words: seq<string> := [];
    for i := 0 to |states|
      invariant words == StatesCodes(states[..i])
    {
      StatesStep(states, i);
      var stateEntry := states[i];
      if !stateEntry.JObject? {
        continue;
      }
      var stateWords := StateIata(stateEntry.fields);
      words := words + stateWords;
    }
    assert states[..|states|] == states;
    r := Success(words);
  }

  /** The loop over one state's values: each list value is a list of airports. */
  method StateIata(fields: seq<(string, Json)>) returns (words: seq<string>)
    ensures words == StateCodes(fields)
  {
    words := [];
    for j := 0 to |fields|
      invariant words == StateCodes(fields[..j])
    {
      StateStep(fields, j);
      var airports := fields[j].1;
      if !airports.JArray? {
        continue;
      }
      var listWords := AirportListIata(airports.items);
      words := words + listWords;
    }
    assert fields[..|fields|] == fields;
  }

  /** The loop over one list of airports. */
  method AirportListIata(airports: seq<Json>) returns (words: seq<string>)
    ensures words == AirportListCodes(airports)
  {
    words := [];
    for k := 0 to |airports|
      invariant words == AirportListCodes(airports[..k])
    {
      AirportListStep(airports, k);
      var airport := airports[k];
      if !airport.JObject? {
        continue;
      }
      var airportWords := AirportIata(airport.fields);
      words := words + airportWords;
    }
    assert airports[..|airports|] == airports;
  }

  /** The loop over one airport's values: each object value may hold an "IATA" string. */
  method AirportIata(fields: seq<(string, Json)>) returns (words: seq<string>)
    ensures words == AirportCodes(fields)
  {
    words := [];
    for l := 0 to |fields|
      invariant words == AirportCodes(fields[..l])
    {
      AirportStep(fields, l);
      var codes := fields[l].1;
      if !codes.JObject? {
        continue;
      }
      var code := Get(codes.fields, "IATA");
      if code.Some? && code.value.JString? {
        words := words + [code.value.s];
      }
    }
    assert fields[..|fields|] == fields;
  }

  /** The codes of consecutive runs of states come one run after the other: traversal order. */
  lemma {:induction false} StatesCodesAppend(a: seq<Json>, b: seq<Json>)
    ensures StatesCodes(a + b) == StatesCodes(a) + StatesCodes(b)
    decreases |b|
  {
    if b != [] {
      var init := b[..|b| - 1];
      assert (a + b)[..|a + b| - 1] == a + init;
      var x := b[|b| - 1];
      assert (a + b)[|a + b| - 1] == x;
      var tail := if x.JObject? then StateCodes(x.fields) else [];
      assert StatesCodes(a + b) == StatesCodes(a + init) + tail;
      assert StatesCodes(b) == StatesCodes(init) + tail;
      StatesCodesAppend(a, init);
    } else {
      assert a + b == a;
    }
  }

  /** Every code found is the "IATA" string of a codes object under some state of the list. */
  lemma {:induction false} StatesCodesFrom(states: seq<Json>, code: string)
    requires code in StatesCodes(states)
    ensures exists i :: 0 <= i < |states| && states[i].JObject? && code in StateCodes(states[i].fields)
  {
    var init, last := states[..|states| - 1], states[|states| - 1];
    if code in StatesCodes(init) {
      StatesCodesFrom(init, code);
      var i :| 0 <= i < |init| && init[i].JObject? && code in StateCodes(init[i].fields);
      assert states[i] == init[i];
    } else {
      assert states[|states| - 1] == last;
    }
  }

  // ---------------------------------------------------------------------------
  // Gathering the words of a category

  /** The accepted words of a category's sources, each source given by the raw words it yielded. */
  function SourceWords(fetched: seq<seq<string>>, minLen: int, maxLen: int): (r: set<string>)
    ensures forall w :: w in r ==> WordList.IsWord(w) && minLen <= |w| <= maxLen
  {
    if fetched == [] then {}
    else SourceWords(fetched[..|fetched| - 1], minLen, maxLen) + WordList.WordsIn(fetched[|fetched| - 1], minLen, maxLen)
  }

  lemma SourceStep(fetched: seq<seq<string>>, i: nat, minLen: int, maxLen: int)
    requires i < |fetched|
    ensures SourceWords(fetched[..i + 1], minLen, maxLen) ==
      SourceWords(fetched[..i], minLen, maxLen) + WordList.WordsIn(fetched[i], minLen, maxLen)
  {
    assert fetched[..i + 1][..i] == fetched[..i];
  }

  /**
   * The loop shared by `load_frequency_words` and the per-category loop of `main`: every
   * raw word of every source whose normalised form has an accepted length is added.
   */
  method GatherWords(fetched: seq<seq<string>>, minLen: int, maxLen: int) returns (words: set<string>)
    ensures words == SourceWords(fetched, minLen, maxLen)
  {
    words := {};
    for i := 0 to |fetched|
      invariant words == SourceWords(fetched[..i], minLen, maxLen)
    {
      SourceStep(fetched, i, minLen, maxLen);
      var sourceWords := WordList.CollectWords(fetched[i], minLen, maxLen);
      words := words + sourceWords;
    }
    assert fetched[..|fetched|] == fetched;
  }

  /** The raw words of all sources, source after source. */
  function AllRaws(fetched: seq<seq<string>>): seq<string> {
    if fetched == [] then [] else AllRaws(fetched[..|fetched| - 1]) + fetched[|fetched| - 1]
  }

  /** The accepted words of two runs of raw words together are those of each. */
  lemma WordsInAppend(a: seq<string>, b: seq<string>, minLen: int, maxLen: int)
    ensures WordList.WordsIn(a + b, minLen, maxLen) == WordList.WordsIn(a, minLen, maxLen) + WordList.WordsIn(b, minLen, maxLen)
  {
    forall w ensures w in WordList.WordsIn(a + b, minLen, maxLen) <==>
      w in WordList.WordsIn(a, minLen, maxLen) || w in WordList.WordsIn(b, minLen, maxLen)
    {
      WordList.WordsInExactly(a + b, minLen, maxLen, w);
      WordList.WordsInExactly(a, minLen, maxLen, w);
      WordList.WordsInExactly(b, minLen, maxLen, w);
    }
  }

  /** Gathering source by source accepts the same words as reading all raw words at once. */
  lemma {:induction false} SourceWordsFlat(fetched: seq<seq<string>>, minLen: int, maxLen: int)
    ensures SourceWords(fetched, minLen, maxLen) == WordList.WordsIn(AllRaws(fetched), minLen, maxLen)
  {
    if fetched != [] {
      var init := fetched[..|fetched| - 1];
      SourceWordsFlat(init, minLen, maxLen);
      WordsInAppend(AllRaws(init), fetched[|fetched| - 1], minLen, maxLen);
    }
  }

  // ---------------------------------------------------------------------------
  // Categories and the frequency filter

  /** The categories of `sources` are distinct, as the keys of the JSON object it was read from are. */
  predicate DistinctCategories(sources: seq<(string, seq<seq<string>>)>) {
    forall i, j :: 0 <= i < j < |sources| ==> sources[i].0 != sources[j].0
  }

  /** `sources.get(category, [])`: the entry of that category, or no sources. */
  function SourcesOf(sources: seq<(string, seq<seq<string>>)>, category: string): seq<seq<string>> {
    if sources == [] then []
    else if sources[0].0 == category then sources[0].1
    else SourcesOf(sources[1..], category)
  }

  /** `load_frequency_words`: the accepted words of the "frequency" sources. */
  method LoadFrequencyWords(sources: seq<(string, seq<seq<string>>)>, minLen: int, maxLen: int) returns (words: set<string>)
    requires DistinctCategories(sources)
    ensures words == SourceWords(SourcesOf(sources, "frequency"), minLen, maxLen)
    ensures forall w :: w in words ==> WordList.IsWord(w) && minLen <= |w| <= maxLen
  {
    words := GatherWords(SourcesOf(sources, "frequency"), minLen, maxLen);
  }

  /** The words written for one category: its gathered words, cut down to the frequency words for "core" when there are any. */
  function CategoryWords(category: string, fetched: seq<seq<string>>, frequency: set<string>, minLen: int, maxLen: int): set<string> {
    var words := SourceWords(fetched, minLen, maxLen);
    if category == "core" && frequency != {} then words * frequency else words
  }

  /**
   * A category's list holds exactly the accepted words of its sources, and for "core"
   * with a non-empty frequency set, only those that are also frequency words.
   */
  lemma CategoryWordsExactly(category: string, fetched: seq<seq<string>>, frequency: set<string>, minLen: int, maxLen: int, w: string)
    ensures w in CategoryWords(category, fetched, frequency, minLen, maxLen) <==>
      && WordList.IsWord(w) && minLen <= |w| <= maxLen
      && (exists raw :: raw in AllRaws(fetched) && WordList.NormalizeWord(raw) == Some(w))
      && (category == "core" && frequency != {} ==> w in frequency)
  {
    SourceWordsFlat(fetched, minLen, maxLen);
    WordList.WordsInExactly(AllRaws(fetched), minLen, maxLen, w);
  }

  /** The categories that get a list file, in their order: all but "frequency". */
  function OutputCategories(sources: seq<(string, seq<seq<string>>)>): (r: seq<(string, seq<seq<string>>)>)
    ensures |r| <= |sources|
    ensures forall e :: e in r <==> e in sources && e.0 != "frequency"
  {
    if sources == [] then []
    else
      var init, last := sources[..|sources| - 1], sources[|sources| - 1];
      assert sources == init + [last];
      OutputCategories(init) + (if last.0 == "frequency" then [] else [last])
  }

  lemma OutputStep(sources: seq<(string, seq<seq<string>>)>, k: nat)
    requires k < |sources|
    ensures OutputCategories(sources[..k + 1]) ==
      OutputCategories(sources[..k]) + (if sources[k].0 == "frequency" then [] else [sources[k]])
  {
    assert sources[..k + 1][..k] == sources[..k];
  }

  // ---------------------------------------------------------------------------
  // The list file

  /** `text` is a list file of `words`: its lines are the words, sorted and each once, each ended by "\n". */
  ghost predicate ListsWords(text: string, words: set<string>) {
    var lines := SplitLines(text);
    && Sorting.SortedBy(lines, Sorting.LexLe) && Sorting.Distinct(lines)
    && (forall w :: w in lines <==> w in words)
    && text == LinesText(lines)
  }

  /** `write_wordlist`: the sorted words and the text they are written as. */
  method WordlistText(words: set<string>) returns (sorted: seq<string>, text: string)
    ensures Sorting.SortedBy(sorted, Sorting.LexLe) && Sorting.Distinct(sorted)
    ensures forall w :: w in sorted <==> w in words
    ensures text == LinesText(sorted)
    ensures text == "" <==> words == {}
    ensures (forall w :: w in words ==> NoLineBreak(w)) ==> ListsWords(text, words)
  {
    sorted := WordList.SortedWords(words);
    text := LinesText(sorted);
    if sorted != [] {
      assert sorted[0] in sorted;
    }
    if forall w :: w in words ==> NoLineBreak(w) {
      forall k | 0 <= k < |sorted| ensures NoLineBreak(sorted[k]) {
        assert sorted[k] in words;
      }
      SplitLinesText(sorted);
    }
  }

  /** A set of words has one list file: two texts that list the same words are the same text. */
  lemma ListsWordsUnique(a: string, b: string, words: set<string>)
    requires ListsWords(a, words) && ListsWords(b, words)
    ensures a == b
  {
    WordList.SortedWordsUnique(SplitLines(a), SplitLines(b));
  }

  /** Words never contain a line break. */
  lemma WordsHaveNoBreak(words: set<string>)
    requires forall w :: w in words ==> WordList.IsWord(w)
    ensures forall w :: w in words ==> NoLineBreak(w)
  {
    forall w | w in words ensures NoLineBreak(w) {
      forall i | 0 <= i < |w| ensures !IsLineBreak(w[i]) {
        assert 'A' <= w[i] <= 'Z';
      }
    }
  }

  // ---------------------------------------------------------------------------
  // The whole run

  /** `files` are the list files of `categories`, one each, in order. */
  ghost predicate FilesFor(files: seq<(string, string)>, categories: seq<(string, seq<seq<string>>)>,
                           frequency: set<string>, minLen: int, maxLen: int) {
    && |files| == |categories|
    && forall i :: 0 <= i < |files| ==>
      && files[i].0 == categories[i].0 + ".txt"
      && ListsWords(files[i].1, CategoryWords(categories[i].0, categories[i].1, frequency, minLen, maxLen))
  }

  lemma FilesForAppend(files: seq<(string, string)>, categories: seq<(string, seq<seq<string>>)>,
                       frequency: set<string>, minLen: int, maxLen: int,
                       file: (string, string), entry: (string, seq<seq<string>>))
    requires FilesFor(files, categories, frequency, minLen, maxLen)
    requires file.0 == entry.0 + ".txt"
    requires ListsWords(file.1, CategoryWords(entry.0, entry.1, frequency, minLen, maxLen))
    ensures FilesFor(files + [file], categories + [entry], frequency, minLen, maxLen)
  {
    var files', categories' := files + [file], categories + [entry];
    forall i | 0 <= i < |files'|
      ensures files'[i].0 == categories'[i].0 + ".txt"
      ensures ListsWords(files'[i].1, CategoryWords(categories'[i].0, categories'[i].1, frequency, minLen, maxLen))
    {
      if i < |files| {
        assert files'[i] == files[i] && categories'[i] == categories[i];
      }
    }
  }

  /** The body of the loop of `main` for one category other than "frequency". */
  method CategoryFile(category: string, fetched: seq<seq<string>>, frequency: set<string>, minLen: int, maxLen: int)
    returns (file: (string, string))
    ensures file.0 == category + ".txt"
    ensures ListsWords(file.1, CategoryWords(category, fetched, frequency, minLen, maxLen))
  {
    var words := GatherWords(fetched, minLen, maxLen);
    if category == "core" && frequency != {} {
      words := words * frequency;
    }
    WordsHaveNoBreak(words);
    var _, text := WordlistText(words);
    file := (category + ".txt", text);
  }

  /**
   * `main` after the sources are read: one file per category other than "frequency", in
   * the sources' order, named after the category and listing its words.
   */
  method DownloadAll(sources: seq<(string, seq<seq<string>>)>, minLen: int, maxLen: int)
    returns (files: seq<(string, string)>)
    requires DistinctCategories(sources)
    ensures FilesFor(files, OutputCategories(sources), SourceWords(SourcesOf(sources, "frequency"), minLen, maxLen), minLen, maxLen)
  {
    var frequency := LoadFrequencyWords(sources, minLen, maxLen);
    files := [];
    for k := 0 to |sources|
      invariant FilesFor(files, OutputCategories(sources[..k]), frequency, minLen, maxLen)
    {
      OutputStep(sources, k);
      var category := sources[k].0;
      if category == "frequency" {
        continue;
      }
      var file := CategoryFile(category, sources[k].1, frequency, minLen, maxLen);
      FilesForAppend(files, OutputCategories(sources[..k]), frequency, minLen, maxLen, file, sources[k]);
      files := files + [file];
    }
    assert sources[..|sources|] == sources;
  }
}
