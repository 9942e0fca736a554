/**
 * The daily screen: on load, every eligible day of the month gets a puzzle — the one
 * already stored for that day, else the bundled puzzle of that day, else the first
 * bundled puzzle re-dated to that day — and the days whose puzzle has complete saved
 * progress are marked solved.
 *
 * Dates are day ordinals as in `Eligibility`; `formatter` is the date-to-string
 * formatting the keys use. The puzzle store is the in-memory store, which never throws.
 */
module DailyChallenge {
  import opened Wrappers
  import opened Models
  import opened Eligibility
  import opened ProgressStores

  /** Every stored puzzle is filed under its own date. */
  predicate FiledByDate(storage: map<string, Puzzle>) {
    forall d :: d in storage ==> storage[d].date == d
  }

  /** The in-memory puzzle store: puzzles filed by their date string. */
  class InMemoryPuzzleStore {
    var storage: map<string, Puzzle>

    constructor()
      ensures storage == map[]
    {
      storage := map[];
    }

    function LoadPuzzle(dateString: string): (r: Option<Puzzle>)
      reads this
      ensures r.Some? <==> dateString in storage
      ensures r.Some? ==> r.value == storage[dateString]
    {
      if dateString in storage then Some(storage[dateString]) else None
    }

    /** Files the puzzle under its own date, replacing what was filed there. */
    method SavePuzzle(puzzle: Puzzle)
      modifies this
      ensures storage == old(storage)[puzzle.date := puzzle]
      ensures LoadPuzzle(puzzle.date) == Some(puzzle)
      ensures FiledByDate(old(storage)) ==> FiledByDate(storage)
    {
      storage := storage[puzzle.date := puzzle];
    }
  }

  /** Saving a puzzle and loading its date gives it back and leaves every other date alone. */
  lemma SaveThenLoad(storage: map<string, Puzzle>, puzzle: Puzzle, d: string)
    ensures var s := storage[puzzle.date := puzzle];
      && s[puzzle.date] == puzzle
      && (d != puzzle.date ==> (d in s <==> d in storage) && (d in storage ==> s[d] == storage[d]))
      && (FiledByDate(storage) ==> FiledByDate(s))
  {
  }

  /** No two bundled puzzles share a date: the by-date dictionary traps on a repeated date. */
  predicate DistinctDates(puzzles: seq<Puzzle>) {
    forall i, j :: 0 <= i < |puzzles| && 0 <= j < |puzzles| && puzzles[i].date == puzzles[j].date ==> i == j
  }

  /** The bundled puzzles keyed by their date. */
  function BundleByDate(puzzles: seq<Puzzle>): (m: map<string, Puzzle>)
    requires DistinctDates(puzzles)
    ensures forall d :: d in m <==> exists i :: 0 <= i < |puzzles| && puzzles[i].date == d
    ensures forall i :: 0 <= i < |puzzles| ==> puzzles[i].date in m && m[puzzles[i].date] == puzzles[i]
    ensures FiledByDate(m)
  {
    map i | 0 <= i < |puzzles| :: puzzles[i].date := puzzles[i]
  }

  /** The first bundled puzzle, the stand-in for days the bundle does not cover. */
  function Fallback(puzzles: seq<Puzzle>): (r: Option<Puzzle>)
    ensures r.Some? <==> |puzzles| > 0
    ensures r.Some? ==> r.value == puzzles[0]
  {
    if |puzzles| > 0 then Some(puzzles[0]) else None
  }

  /** Where a day's puzzle comes from: the store before the load, the bundle by date, and the fallback. */
  datatype Sources = Sources(stored: map<string, Puzzle>, bundled: map<string, Puzzle>, fallback: Option<Puzzle>)

  /** The puzzle day `d` ends up with: the stored one, else the bundled one, else the fallback re-dated. */
  function Supplied(src: Sources, d: string): (r: Option<Puzzle>)
    ensures d in src.stored ==> r == Some(src.stored[d])
    ensures d !in src.stored && d in src.bundled ==> r == Some(src.bundled[d])
    ensures d !in src.stored && d !in src.bundled ==>
      r == (if src.fallback.Some? then Some(src.fallback.value.WithDate(d)) else None)
    ensures r.None? <==> d !in src.stored && d !in src.bundled && src.fallback.None?
  {
    if d in src.stored then Some(src.stored[d])
    else if d in src.bundled then Some(src.bundled[d])
    else if src.fallback.Some? then Some(src.fallback.value.WithDate(d))
    else None
  }

  /** The store once the days `days` have been filled in. */
  function Filled(src: Sources, days: seq<string>): (m: map<string, Puzzle>)
    ensures forall d :: d in m <==> (d in src.stored || d in days) && Supplied(src, d).Some?
    ensures forall d :: d in m ==> m[d] == Supplied(src, d).value
  {
    map d | d in src.stored.Keys + (set x | x in days) && Supplied(src, d).Some? :: Supplied(src, d).value
  }

  /** The puzzles shown for the days `days`. */
  function Loaded(src: Sources, days: seq<string>): (m: map<string, Puzzle>)
    ensures forall d :: d in m <==> d in days && Supplied(src, d).Some?
    ensures forall d :: d in m ==> m[d] == Supplied(src, d).value
  {
    map d | d in days && Supplied(src, d).Some? :: Supplied(src, d).value
  }

  /** The progress key of a daily puzzle: its id and its date joined by an underscore. */
  function DailyProgressKey(puzzle: Puzzle): string {
    puzzle.id + "_" + puzzle.date
  }

  /** Two puzzles with the same id but different dates never share a daily progress key. */
  lemma DailyProgressKeySeparatesDates(p: Puzzle, q: Puzzle)
    requires p.id == q.id && p.date != q.date
    ensures DailyProgressKey(p) != DailyProgressKey(q)
  {
    var n := |p.id| + 1;
    assert DailyProgressKey(p)[n..] == p.date;
    assert DailyProgressKey(q)[n..] == q.date;
  }

  /** Looking up the progress of day `d`'s puzzle throws. */
  predicate ProgressFails(src: Sources, progress: ProgressStore, d: string) {
    Supplied(src, d).Some? && progress(DailyProgressKey(Supplied(src, d).value)).Failure?
  }

  /** Day `d` has a puzzle whose saved progress is complete. */
  predicate Solved(src: Sources, progress: ProgressStore, d: string) {
    Supplied(src, d).Some? && StoredComplete(progress, DailyProgressKey(Supplied(src, d).value))
  }

  /** The days among `days` shown as solved. */
  function SolvedDays(src: Sources, progress: ProgressStore, days: seq<string>): (s: set<string>)
    ensures forall d :: d in s <==> d in days && Solved(src, progress, d)
  {
    set d | d in days && Solved(src, progress, d)
  }

  /** The position of the first day whose progress lookup throws, if any. */
  function FirstFailure(src: Sources, progress: ProgressStore, days: seq<string>, from: nat): (r: Option<nat>)
    requires from <= |days|
    ensures r.None? <==> forall i :: from <= i < |days| ==> !ProgressFails(src, progress, days[i])
    ensures r.Some? ==> from <= r.value < |days| && ProgressFails(src, progress, days[r.value])
    ensures r.Some? ==> forall i :: from <= i < r.value ==> !ProgressFails(src, progress, days[i])
    decreases |days| - from
  {
    if from == |days| then None
    else if ProgressFails(src, progress, days[from]) then Some(from)
    else FirstFailure(src, progress, days, from + 1)
  }

  /** The store after filling the days in order up to the first day whose progress lookup throws, or all of them. */
  function FilledUntilThrow(src: Sources, progress: ProgressStore, days: seq<string>): map<string, Puzzle> {
    match FirstFailure(src, progress, days, 0)
    case None => Filled(src, days)
    case Some(n) => Filled(src, days[..n + 1])
  }

  /** The error of the first progress lookup that throws, if one does. */
  function ThrownError(src: Sources, progress: ProgressStore, days: seq<string>): Option<string> {
    match FirstFailure(src, progress, days, 0)
    case None => None
    case Some(n) => progress(DailyProgressKey(Supplied(src, days[n]).value)).error
  }

  /** The date strings of the given days. */
  function DateStrings(formatter: int -> string, dates: seq<int>): (r: seq<string>)
    ensures |r| == |dates|
    ensures forall i :: 0 <= i < |dates| ==> r[i] == formatter(dates[i])
  {
    seq(|dates|, i requires 0 <= i < |dates| => formatter(dates[i]))
  }

  /**
   * A load never replaces a stored puzzle, and the store it leaves holds, besides the
   * stored puzzles, only puzzles of days it went through, filed under those days.
   */
  lemma LoadKeepsStored(src: Sources, progress: ProgressStore, days: seq<string>, d: string)
    ensures d in src.stored ==>
      d in FilledUntilThrow(src, progress, days) && FilledUntilThrow(src, progress, days)[d] == src.stored[d]
    ensures d in FilledUntilThrow(src, progress, days) && d !in src.stored ==>
      d in days && FilledUntilThrow(src, progress, days)[d] == Supplied(src, d).value
  {
    match FirstFailure(src, progress, days, 0)
    case None =>
    case Some(n) =>
      if d in days[..n + 1] {
        assert d in days;
      }
  }

  /** Filling a store whose puzzles are filed by date, from a bundle filed by date, keeps it filed by date. */
  lemma FilledStaysFiledByDate(src: Sources, days: seq<string>)
    requires FiledByDate(src.stored) && FiledByDate(src.bundled)
    ensures FiledByDate(Filled(src, days))
  {
    var m := Filled(src, days);
    forall d | d in m ensures m[d].date == d {
      if d !in src.stored && d !in src.bundled {
        assert m[d] == src.fallback.value.WithDate(d);
      }
    }
  }

  /** Every day gets a puzzle once the bundle is not empty; a day is shown solved only if it has a puzzle. */
  lemma LoadedCoversDays(src: Sources, progress: ProgressStore, days: seq<string>)
    ensures src.fallback.Some? ==> forall d :: d in days ==> d in Loaded(src, days)
    ensures SolvedDays(src, progress, days) <= Loaded(src, days).Keys
    ensures forall d :: d in Loaded(src, days) ==> d in Filled(src, days) && Filled(src, days)[d] == Loaded(src, days)[d]
  {
  }

  /** Filling one more day changes the store only at that day, and only when it had no puzzle. */
  lemma FilledStep(src: Sources, days: seq<string>, d: string)
    ensures var m := Filled(src, days);
      Filled(src, days + [d]) == (if d in m || Supplied(src, d).None? then m else m[d := Supplied(src, d).value])
  {
    var m := Filled(src, days);
    var m' := if d in m || Supplied(src, d).None? then m else m[d := Supplied(src, d).value];
    forall x ensures x in Filled(src, days + [d]) <==> x in m' {
      assert x in days + [d] <==> x in days || x == d;
    }
    forall x | x in m' ensures Filled(src, days + [d])[x] == m'[x] {
      assert x in days + [d] <==> x in days || x == d;
    }
  }

  lemma LoadedStep(src: Sources, progress: ProgressStore, days: seq<string>, d: string)
    ensures Loaded(src, days + [d]) ==
      (if Supplied(src, d).None? then Loaded(src, days) else Loaded(src, days)[d := Supplied(src, d).value])
    ensures SolvedDays(src, progress, days + [d]) ==
      (if Solved(src, progress, d) then SolvedDays(src, progress, days) + {d} else SolvedDays(src, progress, days))
  {
    var m := Loaded(src, days);
    var m' := if Supplied(src, d).None? then m else m[d := Supplied(src, d).value];
    forall x ensures x in Loaded(src, days + [d]) <==> x in m' {
      assert x in days + [d] <==> x in days || x == d;
    }
    forall x ensures x in SolvedDays(src, progress, days + [d]) <==>
        x in (if Solved(src, progress, d) then SolvedDays(src, progress, days) + {d} else SolvedDays(src, progress, days)) {
      assert x in days + [d] <==> x in days || x == d;
    }
  }

  class DailyChallengeViewModel {
    var eligibleDates: seq<int>
    var puzzlesByDate: map<string, Puzzle>
    var completedPuzzleDates: set<string>
    var selectedDate: int
    var loadError: Option<string>

    /** `loadPuzzles()`: the bundled puzzles, or a throw. */
    const bundle: Result<seq<Puzzle>>
    const puzzleStore: InMemoryPuzzleStore
    const progressStore: ProgressStore
    /** The date-string formatting of a day. */
    const formatter: int -> string

    /** Only days with a puzzle are marked solved, and the store files puzzles by their date. */
    ghost predicate Valid()
      reads this, puzzleStore
    {
      completedPuzzleDates <= puzzlesByDate.Keys && FiledByDate(puzzleStore.storage)
    }

    constructor(bundle: Result<seq<Puzzle>>, puzzleStore: InMemoryPuzzleStore, progressStore: ProgressStore,
                formatter: int -> string, now: int)
      requires FiledByDate(puzzleStore.storage)
      ensures Valid()
      ensures eligibleDates == [] && puzzlesByDate == map[] && completedPuzzleDates == {}
      ensures selectedDate == now && loadError == None
      ensures this.bundle == bundle && this.puzzleStore == puzzleStore
      ensures this.progressStore == progressStore && this.formatter == formatter
    {
      this.bundle := bundle;
      this.puzzleStore := puzzleStore;
      this.progressStore := progressStore;
      this.formatter := formatter;
      eligibleDates := [];
      puzzlesByDate := map[];
      completedPuzzleDates := {};
      selectedDate := now;
      loadError := None;
    }

    /** The puzzle shown for a day. */
    function PuzzleFor(date: int): (r: Option<Puzzle>)
      reads this
      ensures r.Some? <==> formatter(date) in puzzlesByDate
      ensures r.Some? ==> r.value == puzzlesByDate[formatter(date)]
    {
      if formatter(date) in puzzlesByDate then Some(puzzlesByDate[formatter(date)]) else None
    }

    /** A day is solved when it has a puzzle and is marked solved; the first half is implied by the second. */
    function IsCompleteOn(date: int): (b: bool)
      reads this
      ensures b ==> formatter(date) in completedPuzzleDates
      ensures completedPuzzleDates <= puzzlesByDate.Keys ==> (b <==> formatter(date) in completedPuzzleDates)
    {
      PuzzleFor(date).Some? && formatter(date) in completedPuzzleDates
    }

    /**
     * Makes sure one day has a puzzle in the store: when none is stored, files the
     * bundled puzzle of that day, else the fallback re-dated to it. Returns what the
     * store then holds for the day.
     */
    method FillDay(ghost src: Sources, ghost days: seq<string>, dateString: string,
                   bundleByDate: map<string, Puzzle>, fallback: Option<Puzzle>) returns (puzzle: Option<Puzzle>)
      requires src.bundled == bundleByDate && src.fallback == fallback && FiledByDate(bundleByDate)
      requires puzzleStore.storage == Filled(src, days)
      modifies puzzleStore
      ensures puzzleStore.storage == Filled(src, days + [dateString])
      ensures puzzle == Supplied(src, dateString)
    {
      FilledStep(src, days, dateString);
      var stored := puzzleStore.LoadPuzzle(dateString);
      if stored.None? {
        if dateString in bundleByDate {
          puzzleStore.SavePuzzle(bundleByDate[dateString]);
        } else if fallback.Some? {
          puzzleStore.SavePuzzle(fallback.value.WithDate(dateString));
        }
      }
      puzzle := puzzleStore.LoadPuzzle(dateString);
    }

    /**
     * Loads the days of the month so far. The selected day and the eligible days are set
     * first. The bundle must not repeat a date. Each eligible day then gets its puzzle
     * into the store if it has none, and the shown puzzles and solved days are replaced
     * — unless the bundle or a progress lookup throws: then only the error message
     * changes beside the store, which keeps what was filled before the throw.
     */
    method Load(today: int, dayOfMonth: int)
      requires dayOfMonth >= 1
      requires bundle.Success? ==> DistinctDates(bundle.value)
      requires Valid()
      modifies this, puzzleStore
      ensures Valid()
      ensures selectedDate == today && eligibleDates == EligibleDates(today, dayOfMonth)
      ensures bundle.Failure? ==>
        && puzzleStore.storage == old(puzzleStore.storage)
        && puzzlesByDate == old(puzzlesByDate) && completedPuzzleDates == old(completedPuzzleDates)
        && loadError == Some(bundle.error.GetOr("Failed to load puzzles"))
      ensures bundle.Success? ==>
        var src := Sources(old(puzzleStore.storage), BundleByDate(bundle.value), Fallback(bundle.value));
        var days := DateStrings(formatter, eligibleDates);
        && puzzleStore.storage == FilledUntilThrow(src, progressStore, days)
        && (FirstFailure(src, progressStore, days, 0).None? ==>
          && puzzlesByDate == Loaded(src, days)
          && completedPuzzleDates == SolvedDays(src, progressStore, days)
          && loadError == None)
        && (FirstFailure(src, progressStore, days, 0).Some? ==>
          && puzzlesByDate == old(puzzlesByDate) && completedPuzzleDates == old(completedPuzzleDates)
          && loadError == Some(ThrownError(src, progressStore, days).GetOr("Failed to load puzzles")))
    {
      selectedDate := today;
      var eligible := EligibleDates(today, dayOfMonth);
      eligibleDates := eligible;
      if bundle.Failure? {
        loadError := Some(bundle.error.GetOr("Failed to load puzzles"));
        return;
      }
      var bundleByDate := BundleByDate(bundle.value);
      var fallback := Fallback(bundle.value);
      ghost var src := Sources(puzzleStore.storage, bundleByDate, fallback);
      var days := DateStrings(formatter, eligible);
      var loaded, completedDates, failed, error := FillDays(src, days, bundleByDate, fallback);
      if failed {
        FilledStaysFiledByDate(src, days[..FirstFailure(src, progressStore, days, 0).value + 1]);
        loadError := Some(error.GetOr("Failed to load puzzles"));
        return;
      }
      LoadedCoversDays(src, progressStore, days);
      FilledStaysFiledByDate(src, days);
      puzzlesByDate := loaded;
      completedPuzzleDates := completedDates;
      loadError := None;
    }

    /**
     * Fills in the days in order and collects their puzzles and the solved days. Stops at
     * the first day whose progress lookup throws, reporting that throw's error.
     */
    method FillDays(ghost src: Sources, days: seq<string>, bundleByDate: map<string, Puzzle>, fallback: Option<Puzzle>)
      returns (loaded: map<string, Puzzle>, completedDates: set<string>, failed: bool, error: Option<string>)
      requires src.bundled == bundleByDate && src.fallback == fallback && FiledByDate(bundleByDate)
      requires puzzleStore.storage == src.stored
      modifies puzzleStore
      ensures failed <==> FirstFailure(src, progressStore, days, 0).Some?
      ensures puzzleStore.storage == FilledUntilThrow(src, progressStore, days)
      ensures !failed ==> loaded == Loaded(src, days) && completedDates == SolvedDays(src, progressStore, days)
      ensures failed ==> error == ThrownError(src, progressStore, days)
    {
      loaded, completedDates, failed, error := map[], {}, false, None;
      assert days[..0] == [];
      for k := 0 to |days|
        invariant puzzleStore.storage == Filled(src, days[..k])
        invariant loaded == Loaded(src, days[..k])
        invariant completedDates == SolvedDays(src, progressStore, days[..k])
        invariant forall i :: 0 <= i < k ==> !ProgressFails(src, progressStore, days[i])
      {
        var dateString := days[k];
        assert days[..k + 1] == days[..k] + [dateString];
        var nextLoaded, nextCompleted, failure := CollectDay(src, days[..k], dateString, bundleByDate, fallback,
                                                             loaded, completedDates);
        if failure.Some? {
          FirstFailureAt(src, progressStore, days, 0, k);
          return nextLoaded, nextCompleted, true, failure.value;
        }
        loaded, completedDates := nextLoaded, nextCompleted;
      }
      assert days[..|days|] == days;
    }

    /**
     * One step of the loop: fills in the day, adds its puzzle to the shown ones and, when
     * its saved progress is complete, the day to the solved ones. A throwing progress
     * lookup is reported with its error.
     */
    method CollectDay(ghost src: Sources, ghost prefix: seq<string>, dateString: string,
                      bundleByDate: map<string, Puzzle>, fallback: Option<Puzzle>,
                      loaded0: map<string, Puzzle>, completed0: set<string>)
      returns (loaded: map<string, Puzzle>, completed: set<string>, failure: Option<Option<string>>)
      requires src.bundled == bundleByDate && src.fallback == fallback && FiledByDate(bundleByDate)
      requires puzzleStore.storage == Filled(src, prefix)
      requires loaded0 == Loaded(src, prefix) && completed0 == SolvedDays(src, progressStore, prefix)
      modifies puzzleStore
      ensures puzzleStore.storage == Filled(src, prefix + [dateString])
      ensures failure.Some? <==> ProgressFails(src, progressStore, dateString)
      ensures failure.Some? ==> failure.value == progressStore(DailyProgressKey(Supplied(src, dateString).value)).error
      ensures failure.None? ==>
        loaded == Loaded(src, prefix + [dateString]) && completed == SolvedDays(src, progressStore, prefix + [dateString])
    {
      LoadedStep(src, progressStore, prefix, dateString);
      loaded, completed, failure := loaded0, completed0, None;
      var puzzle := FillDay(src, prefix, dateString, bundleByDate, fallback);
      if puzzle.Some? {
        loaded := loaded[dateString := puzzle.value];
        var progress := progressStore(DailyProgressKey(puzzle.value));
        if progress.Failure? {
          return loaded, completed, Some(progress.error);
        }
        if progress.value.Some? && progress.value.value.isComplete {
          completed := completed + {dateString};
        }
      }
    }
  }

  /** The first failure is at `k` when day `k` fails and no earlier day from `from` does. */
  lemma {:induction false} FirstFailureAt(src: Sources, progress: ProgressStore, days: seq<string>, from: nat, k: nat)
    requires from <= k < |days|
    requires ProgressFails(src, progress, days[k])
    requires forall i :: from <= i < k ==> !ProgressFails(src, progress, days[i])
    ensures FirstFailure(src, progress, days, from) == Some(k)
    decreases k - from
  {
    if from < k {
      FirstFailureAt(src, progress, days, from + 1, k);
    }
  }
}
