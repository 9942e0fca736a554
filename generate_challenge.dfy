/**
 * The challenge-creation script: the slug of a challenge name, a challenge id not yet
 * in the catalog, the normalised catalog, and the new catalog with the challenge
 * record appended. Moving and copying the puzzle files is not part of this model.
 */
module GenerateChallenge {
  import opened Wrappers
  import opened Text
  import opened Json

  // ---------------------------------------------------------------------------
  // Slugs

  predicate IsSlugChar(c: char) {
    'a' <= c <= 'z' || '0' <= c <= '9'
  }

  /**
   * `re.sub(r"[^a-z0-9]+", "_", s)`: every maximal run of other characters becomes
   * one '_'; `inRun` says the previous character was already part of such a run.
   */
  function ReplaceRuns(s: string, inRun: bool): (r: string)
    ensures forall i :: 0 <= i < |r| ==> IsSlugChar(r[i]) || r[i] == '_'
    ensures inRun && r != [] ==> r[0] != '_'
    ensures forall i :: 0 <= i < |r| - 1 ==> !(r[i] == '_' && r[i + 1] == '_')
  {
    if s == [] then []
    else if IsSlugChar(s[0]) then [s[0]] + ReplaceRuns(s[1..], false)
    else if inRun then ReplaceRuns(s[1..], true)
    else ['_'] + ReplaceRuns(s[1..], true)
  }

  /** `slugify`: lower-case, runs of other characters to '_', no '_' at either end, "challenge" if empty. */
  function Slugify(name: string): string {
    var slug := Strip(ReplaceRuns(Lower(name), false), {'_'});
    if slug == "" then "challenge" else slug
  }

  /** A slug: non-empty, only a-z, 0-9 and '_', no '_' at either end and never two in a row. */
  predicate IsSlug(s: string) {
    && s != ""
    && (forall i :: 0 <= i < |s| ==> IsSlugChar(s[i]) || s[i] == '_')
    && s[0] != '_' && s[|s| - 1] != '_'
    && (forall i :: 0 <= i < |s| - 1 ==> !(s[i] == '_' && s[i + 1] == '_'))
  }

  /** Every name has a slug. */
  lemma SlugifyIsSlug(name: string)
    ensures IsSlug(Slugify(name))
  {
    var replaced := ReplaceRuns(Lower(name), false);
    StripKeepsRuns(replaced);
    if Strip(replaced, {'_'}) == "" {
      var fallback := "challenge";
      assert forall i :: 0 <= i < |fallback| ==> 'a' <= fallback[i] <= 'z';
    }
  }

  /** Stripping '_' from both ends of slug characters and single '_' leaves slug characters and single '_'. */
  lemma StripKeepsRuns(s: string)
    requires forall i :: 0 <= i < |s| ==> IsSlugChar(s[i]) || s[i] == '_'
    requires forall i :: 0 <= i < |s| - 1 ==> !(s[i] == '_' && s[i + 1] == '_')
    ensures var r := Strip(s, {'_'});
      && (forall i :: 0 <= i < |r| ==> IsSlugChar(r[i]) || r[i] == '_')
      && (forall i :: 0 <= i < |r| - 1 ==> !(r[i] == '_' && r[i + 1] == '_'))
  {
    var left := StripLeft(s, {'_'});
    SliceKeepsRuns(s, |s| - |left|, |s|);
    assert left == s[|s| - |left|..|s|];
    var right := StripRight(left, {'_'});
    SliceKeepsRuns(left, 0, |right|);
    assert Strip(s, {'_'}) == right == left[0..|right|];
  }

  /** A slice of a string made of slug characters and single '_' is made of them too. */
  lemma SliceKeepsRuns(s: string, lo: int, hi: int)
    requires 0 <= lo <= hi <= |s|
    requires forall i :: 0 <= i < |s| ==> IsSlugChar(s[i]) || s[i] == '_'
    requires forall i :: 0 <= i < |s| - 1 ==> !(s[i] == '_' && s[i + 1] == '_')
    ensures forall i :: 0 <= i < hi - lo ==> IsSlugChar(s[lo..hi][i]) || s[lo..hi][i] == '_'
    ensures forall i :: 0 <= i < hi - lo - 1 ==> !(s[lo..hi][i] == '_' && s[lo..hi][i + 1] == '_')
  {
    forall i | 0 <= i < hi - lo - 1 ensures !(s[lo..hi][i] == '_' && s[lo..hi][i + 1] == '_') {
      assert s[lo..hi][i] == s[lo + i] && s[lo..hi][i + 1] == s[lo + i + 1];
    }
  }

  /** A slug passes through the run replacement unchanged. */
  lemma {:induction false} ReplaceRunsFixed(s: string, inRun: bool)
    requires forall i :: 0 <= i < |s| ==> IsSlugChar(s[i]) || s[i] == '_'
    requires forall i :: 0 <= i < |s| - 1 ==> !(s[i] == '_' && s[i + 1] == '_')
    requires inRun && s != [] ==> s[0] != '_'
    ensures ReplaceRuns(s, inRun) == s
  {
    if s != [] {
      ReplaceRunsFixed(s[1..], !IsSlugChar(s[0]));
      assert s == [s[0]] + s[1..];
    }
  }

  /** Slugifying a slug changes nothing. */
  lemma SlugFixed(s: string)
    requires IsSlug(s)
    ensures Slugify(s) == s
  {
    assert Lower(s) == s;
    ReplaceRunsFixed(s, false);
    StripIdentity(s, {'_'});
  }

  /** `slugify` is idempotent. */
  lemma SlugifyIdempotent(name: string)
    ensures Slugify(Slugify(name)) == Slugify(name)
  {
    SlugifyIsSlug(name);
    SlugFixed(Slugify(name));
  }

  // ---------------------------------------------------------------------------
  // Unique ids

  /** `f"{base}_{index}"`. */
  function Suffixed(base: string, index: nat): string {
    base + "_" + NatToDecimal(index)
  }

  lemma SuffixedInjective(base: string, i: nat, j: nat)
    requires Suffixed(base, i) == Suffixed(base, j)
    ensures i == j
  {
    var n := |base| + 1;
    assert Suffixed(base, i)[n..] == NatToDecimal(i);
    assert Suffixed(base, j)[n..] == NatToDecimal(j);
    NatToDecimalInjective(i, j);
  }

  /** `id` is what `unique_id` gives: the base when free, else base_k for the least free k >= 2. */
  ghost predicate IsUniqueId(base: string, existing: set<string>, id: string) {
    && id !in existing
    && (base !in existing ==> id == base)
    && (base in existing ==>
          exists k: nat :: k >= 2 && id == Suffixed(base, k) && forall j: nat :: 2 <= j < k ==> Suffixed(base, j) in existing)
  }

  /** At most one id meets `IsUniqueId`, so the contract of `UniqueId` fixes its result. */
  lemma IsUniqueIdDetermined(base: string, existing: set<string>, a: string, b: string)
    requires IsUniqueId(base, existing, a) && IsUniqueId(base, existing, b)
    ensures a == b
  {
    if base in existing {
      var ka: nat :| ka >= 2 && a == Suffixed(base, ka) && forall j: nat :: 2 <= j < ka ==> Suffixed(base, j) in existing;
      var kb: nat :| kb >= 2 && b == Suffixed(base, kb) && forall j: nat :: 2 <= j < kb ==> Suffixed(base, j) in existing;
      assert ka == kb;
    }
  }

  /**
   * `unique_id`: the base itself when it is free, otherwise base_k for the least k >= 2
   * that is free. The loop ends because `existing` is finite.
   */
  method UniqueId(base: string, existing: set<string>) returns (id: string)
    ensures IsUniqueId(base, existing, id)
  {
    if base !in existing {
      return base;
    }
    var index: nat := 2;
    ghost var taken: set<string> := {};
    while Suffixed(base, index) in existing
      invariant index >= 2
      invariant forall j: nat :: 2 <= j < index ==> Suffixed(base, j) in existing
      invariant taken <= existing && |taken| == index - 2
      invariant forall j: nat :: j >= index ==> Suffixed(base, j) !in taken
      decreases |existing| - |taken|
    {
      forall j: nat | j >= index + 1 ensures Suffixed(base, j) != Suffixed(base, index) {
        if Suffixed(base, j) == Suffixed(base, index) {
          SuffixedInjective(base, j, index);
        }
      }
      taken := taken + {Suffixed(base, index)};
      index := index + 1;
      assert |taken| <= |existing| by { SubsetSize(taken, existing); }
    }
    id := Suffixed(base, index);
  }

  lemma SubsetSize(a: set<string>, b: set<string>)
    requires a <= b
    ensures |a| <= |b|
  {
    assert b == a + (b - a);
  }

  // ---------------------------------------------------------------------------
  // The catalog

  function EmptyCatalog(): Json {
    JObject([("challenges", JArray([]))])
  }

  /** A catalog object whose "challenges" value is a list. */
  predicate IsCatalog(catalog: Json) {
    catalog.JObject? && Get(catalog.fields, "challenges").Some? && Get(catalog.fields, "challenges").value.JArray?
  }

  /** The challenges of a catalog. */
  function Challenges(catalog: Json): seq<Json>
    requires IsCatalog(catalog)
  {
    Get(catalog.fields, "challenges").value.items
  }

  /**
   * The catalog `load_catalog` returns for a parsed file (`None` when there is no file):
   * anything that is not an object holding "challenges" gives the empty catalog, and a
   * "challenges" value that is not a list is replaced by an empty list in place.
   */
  function NormalCatalog(file: Option<Json>): (catalog: Json)
    ensures IsCatalog(catalog)
    ensures file.Some? && IsCatalog(file.value) ==> catalog == file.value
    ensures file.Some? && file.value.JObject? && Get(file.value.fields, "challenges").Some? ==>
      && Keys(catalog.fields) == Keys(file.value.fields)
      && (forall key :: key != "challenges" ==> Get(catalog.fields, key) == Get(file.value.fields, key))
      && (!IsCatalog(file.value) ==> Challenges(catalog) == [])
    ensures file.None? || !file.value.JObject? || Get(file.value.fields, "challenges").None? ==>
      catalog == EmptyCatalog()
  {
    if file.None? || !file.value.JObject? || Get(file.value.fields, "challenges").None? then
      assert Get(EmptyCatalog().fields, "challenges") == Some(JArray([]));
      EmptyCatalog()
    else if Get(file.value.fields, "challenges").value.JArray? then file.value
    else JObject(Replace(file.value.fields, "challenges", JArray([])))
  }

  /** `load_catalog`; the dictionary it mutates is the local `data`. */
  method LoadCatalog(file: Option<Json>) returns (catalog: Json)
    ensures catalog == NormalCatalog(file)
  {
    if file.None? {
      return EmptyCatalog();
    }
    var data := file.value;
    if !data.JObject? || Get(data.fields, "challenges").None? {
      return EmptyCatalog();
    }
    if !Get(data.fields, "challenges").value.JArray? {
      data := JObject(Replace(data.fields, "challenges", JArray([])));
    }
    return data;
  }

  /** The string ids of the catalog's challenge objects. */
  function ExistingIds(challenges: seq<Json>): (ids: set<string>)
    ensures forall id :: id in ids <==>
      exists k :: (0 <= k < |challenges| &&
        challenges[k].JObject? && Get(challenges[k].fields, "id") == Some(JString(id)))
  {
    if challenges == [] then {}
    else
      var init, last := challenges[..|challenges| - 1], challenges[|challenges| - 1];
      assert challenges == init + [last];
      ExistingIds(init) +
      (if last.JObject? && Get(last.fields, "id").Some? && Get(last.fields, "id").value.JString?
       then {Get(last.fields, "id").value.s} else {})
  }

  /**
   * A challenge object whose "id" is a list or an object: Python cannot put it in a set,
   * so building the existing ids raises TypeError.
   */
  predicate UnhashableId(item: Json) {
    item.JObject? && Get(item.fields, "id").Some? && (Get(item.fields, "id").value.JArray? || Get(item.fields, "id").value.JObject?)
  }

  predicate HasUnhashableId(challenges: seq<Json>) {
    exists k :: 0 <= k < |challenges| && UnhashableId(challenges[k])
  }

  function Strings(items: seq<string>): (r: seq<Json>)
    ensures |r| == |items| && forall k :: 0 <= k < |items| ==> r[k] == JString(items[k])
  {
    if items == [] then [] else [JString(items[0])] + Strings(items[1..])
  }

  /** The record of a new challenge; `files` are the moved puzzle files, at least one. */
  function ChallengeRecord(id: string, name: string, files: seq<string>, folder: string, count: int): Json
    requires files != []
  {
    JObject([
      ("id", JString(id)),
      ("name", JString(name)),
      ("puzzleFile", JString(files[0])),
      ("puzzleFiles", JArray(Strings(files))),
      ("puzzleFolder", JString(folder)),
      ("puzzleCount", JNumber(count))
    ])
  }

  /** `max(1, args.count)`. */
  function Clamp(count: int): (r: int)
    ensures r >= 1 && r >= count && (count >= 1 ==> r == count)
  {
    if count < 1 then 1 else count
  }

  /** An explicit non-empty id (`if args.id:`) that the catalog already uses. */
  predicate ExplicitIdTaken(idArg: Option<string>, challenges: seq<Json>) {
    idArg.Some? && idArg.value != "" && idArg.value in ExistingIds(challenges)
  }

  /** Why the script stops without changing anything. */
  datatype Refusal = NotEnoughPuzzles | IdUnhashable | IdTaken | FolderExists

  /**
   * The decisions of `main`: the count is at least 1; the bank (the sorted finished
   * puzzle files) must hold that many; collecting the catalog's ids raises when one is a
   * list or an object; an explicit non-empty id must be new, otherwise
   * the id is made unique from the name's slug; the slug's folder must not exist yet.
   * On success the catalog gets the new record, naming the first `count` bank files,
   * appended to its challenges.
   */
  method AddChallenge(name: string, countArg: int, idArg: Option<string>, bank: seq<string>,
                      catalogFile: Option<Json>, existingFolders: set<string>)
    returns (result: Result<Json>, refusal: Option<Refusal>, id: string)
    ensures result.Failure? <==> refusal.Some?
    ensures |bank| < Clamp(countArg) <==> refusal == Some(NotEnoughPuzzles)
    ensures refusal == Some(IdUnhashable) <==>
      Clamp(countArg) <= |bank| && HasUnhashableId(Challenges(NormalCatalog(catalogFile)))
    ensures refusal == Some(IdTaken) <==>
      && Clamp(countArg) <= |bank| && !HasUnhashableId(Challenges(NormalCatalog(catalogFile)))
      && ExplicitIdTaken(idArg, Challenges(NormalCatalog(catalogFile)))
    ensures refusal == Some(FolderExists) <==>
      && Clamp(countArg) <= |bank| && !HasUnhashableId(Challenges(NormalCatalog(catalogFile)))
      && !ExplicitIdTaken(idArg, Challenges(NormalCatalog(catalogFile)))
      && Slugify(name) in existingFolders
    ensures result.Success? ==>
      var count, catalog := Clamp(countArg), NormalCatalog(catalogFile);
      && count <= |bank|
      && Slugify(name) !in existingFolders
      && (idArg.Some? && idArg.value != "" ==> id == idArg.value && id !in ExistingIds(Challenges(catalog)))
      && (idArg.None? || idArg.value == "" ==> IsUniqueId(Slugify(name), ExistingIds(Challenges(catalog)), id))
      && result.value == JObject(Replace(catalog.fields, "challenges",
           JArray(Challenges(catalog) + [ChallengeRecord(id, name, bank[..count], Slugify(name), count)])))
  {
    var count := Clamp(countArg);
    id := "";
    if |bank| < count {
      return Failure(Some("not enough puzzles")), Some(NotEnoughPuzzles), id;
    }
    var catalog := LoadCatalog(catalogFile);
    var challenges := Get(catalog.fields, "challenges").value.items;
    if HasUnhashableId(challenges) {
      return Failure(Some("unhashable challenge id")), Some(IdUnhashable), id;
    }
    var existingIds := ExistingIds(challenges);
    if idArg.Some? && idArg.value != "" {
      if idArg.value in existingIds {
        return Failure(Some("challenge id already exists")), Some(IdTaken), id;
      }
      id := idArg.value;
    } else {
      id := UniqueId(Slugify(name), existingIds);
    }
    var folder := Slugify(name);
    if folder in existingFolders {
      return Failure(Some("challenge folder already exists")), Some(FolderExists), id;
    }
    var moved := bank[..count];
    var record := ChallengeRecord(id, name, moved, folder, count);
    result := Success(JObject(Replace(catalog.fields, "challenges", JArray(challenges + [record]))));
    refusal := None;
  }

  /** The appended catalog is still a catalog, with exactly one more challenge, the new record. */
  lemma AddedChallengeListed(catalog: Json, record: Json)
    requires IsCatalog(catalog)
    ensures var added := JObject(Replace(catalog.fields, "challenges", JArray(Challenges(catalog) + [record])));
      IsCatalog(added) && Challenges(added) == Challenges(catalog) + [record]
  {
  }
}
