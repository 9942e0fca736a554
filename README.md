# Mini crossword: a verified model of the solving core and the puzzle engine

This project models, in Dafny, the logic of a mini-crossword app and of the engine
that produces its puzzles.

**The Swift app's solving core.**

- Cursor navigation (`Navigation`) covers:
  - the canonical entry order;
  - the first fillable cell;
  - the entry that contains a cell;
  - the initial cursor state;
  - stepping forward through the across entries and then the down entries;
  - the cell a hint applies to.
- Completion and correctness checks of a fill grid (`Validation`).
- The solving screen's edit actions (`PuzzleScreen`). This is a class holding a 2-D array of optional letters, written in place.
- The days of the month that can be played (`Eligibility`).
- The challenge rules (`ChallengeLogic`): the progress key, the completion rule and the listing order.
- Three view models:
  - the challenge screen (`ChallengeDetail`), with its sequential-unlock rule and tap dispatch;
  - the challenge list (`ChallengeList`), with solved counts and ordered summaries;
  - the daily screen (`DailyChallenge`), which fills missing days with bundled puzzles and tracks completion, together with the in-memory puzzle store.
- `Models` holds the app's value types.
- `ProgressStores` is saved progress, seen as a lookup that returns progress, nothing or an error.

**The Python puzzle engine and its scripts.**

- Black-cell geometry validation (`CrosswordGrid`). This is the depth-first search over border-connected black cells and the corner rule.
- Slot extraction with standard crossword numbering, the cell-to-slot index, the singleton check and the solution grid (`CrosswordSlots`).
- The generator's deterministic helpers (`Generator`):
  - border cells;
  - the memoised acceptable black-cell layouts;
  - slot patterns;
  - the crossing map;
  - the entry lists;
  - the answers of a finished puzzle.
- The word-list loader and the pattern index `WordIndex`, with its query cache (`WordList`).
- The canonical puzzle text that is hashed (`Hashing`).
- The scripts:
  - challenge creation (`GenerateChallenge`);
  - low-confidence word removal (`RemoveLowConfidence`);
  - word-list download filtering (`DownloadWordlists`);
  - the engine's run loop (`RunEngine`).
- Shared helpers: `Json` (Python JSON values, objects as ordered key/value pairs), `Text` (decimal numerals, ASCII case, strip, split, splitlines, join), `Sorting` (a stable insertion sort and the lexicographic order) and `Wrappers` (`Option`, `Result`).

**Conventions.**

- Swift's `Int` and Python's `int` are unbounded `int`s.
- Dates are day ordinals (consecutive integers for consecutive days). A date's text is given by a formatter parameter.
- Stores and the file system appear as maps, functions or parameters holding the data read.
- Where the source traps, the model has a `requires`:
  - the unchecked grid subscript in `enter`/`backspace`;
  - `0..<n` with a negative `n`;
  - `Dictionary(uniqueKeysWithValues:)` on repeated bundled dates.
- Where Python raises on input the script reads (a missing file, malformed JSON, an unhashable id), the model returns a `Result` failure or a refusal.
- Where Python would raise only on input its callers never pass, the model has a `requires`:
  - `Hashing.Symbol` and `Hashing.Canonical` require `Covers` in place of the IndexError of `grid_solution[row][col]` (hashing.py:23). The only caller passes the height × width grid of `build_solution_grid` (generator.py:232, 241).
  - `Generator.AnswersOf` and `Generator.Answers` require `AllLettered` in place of the KeyError of `grid_letters[cell]` (generator.py:236). The solver's letters cover every slot cell.
- Code that changes state step by step is a method with loop invariants, proved equal to a recursive specification function. The properties are proved as lemmas about that function.

## Model

| member | source | states |
|---|---|---|
| `Models.Entry.Start` | mini-crossword/Domain/Models/Entry.swift:9-11 | an entry's start is present exactly when it has cells, and is then its first cell |
| `Models.Puzzle.BlackCellSet` | mini-crossword/Domain/Models/Puzzle.swift:13-15 | the black-cell set has exactly the members of the black-cell list |
| `Models.Puzzle.WithDate` | mini-crossword/Domain/Models/Puzzle.swift:17-28 | re-dating sets the date and keeps every other field |
| `Models.WithDateLaws` | mini-crossword/Domain/Models/Puzzle.swift:17-28 | re-dating twice keeps only the last date; re-dating to the puzzle's own date is the identity |
| `Navigation.SortStart` | mini-crossword/Domain/Logic/NavigationLogic.swift:17-18 | the sort key of an entry is its first cell, or (Int.max, Int.max) when it has no cells |
| `Navigation.EntryOrder` | mini-crossword/Domain/Logic/NavigationLogic.swift:16-26 | the comparator (start row, then start column, then number) is a total preorder |
| `Navigation.OrderedEntries` | mini-crossword/Domain/Logic/NavigationLogic.swift:15-27 | the ordered entries are a permutation of the input, sorted by start row, start column and number |
| `Navigation.OrderedEntriesStable` | mini-crossword/Domain/Logic/NavigationLogic.swift:15-27 | entries with the same sort key keep their relative input order |
| `Navigation.At` | mini-crossword/Domain/Logic/NavigationLogic.swift:167-174 | the safe subscript is present exactly for an index in range, and is then that element |
| `Navigation.FirstInRow` | mini-crossword/Domain/Logic/NavigationLogic.swift:35-40 | the inner scan finds the first non-black column of a row at or after a column, or reports that all are black |
| `Navigation.FirstFromRow` | mini-crossword/Domain/Logic/NavigationLogic.swift:34-41 | the outer scan finds the first non-black cell in row-major order from a row on, or reports that all are black |
| `Navigation.FirstFillableCell` | mini-crossword/Domain/Logic/NavigationLogic.swift:29-43 | the result is an in-grid, non-black cell with every row-major earlier cell black; nil exactly when every cell is black |
| `Navigation.IndexOfCell` | mini-crossword/Domain/Logic/NavigationLogic.swift:47 | the first index of the cell in the list; nil exactly when the cell is absent |
| `Navigation.EntryContainingFrom` | mini-crossword/Domain/Logic/NavigationLogic.swift:46-51 | the scan from one entry on finds the first entry holding the cell, at the cell's first position |
| `Navigation.EntryContainingCell` | mini-crossword/Domain/Logic/NavigationLogic.swift:45-52 | the first entry that contains the cell, with the cell's first position; nil exactly when no entry contains it |
| `Navigation.EntriesForPhase` | mini-crossword/Domain/Logic/NavigationLogic.swift:153-164 | the phase's list is the ordered across (or down) list: a sorted permutation of it |
| `Navigation.CellForState` | mini-crossword/Domain/Logic/NavigationLogic.swift:73-80 | the cell at the state's entry and cell index of the phase's ordered list; nil when either index is out of range |
| `Navigation.InitialState` | mini-crossword/Domain/Logic/NavigationLogic.swift:54-71 | the start state is in the across phase and points at the first fillable cell, in the first ordered across entry containing it and at the cell's first position there; nil exactly when there is no fillable cell or no across entry covers it |
| `Navigation.DownStart` | mini-crossword/Domain/Logic/NavigationLogic.swift:104-110 | the down phase starts at the first fillable cell, in the first ordered down entry containing it and at the cell's first position there; nil exactly when no down entry covers it |
| `Navigation.AdvanceState` | mini-crossword/Domain/Logic/NavigationLogic.swift:82-123 | out-of-range entry gives nil; otherwise the next cell, else the next entry's first cell; across hands off to the down start; the end of the down phase gives nil |
| `Navigation.AdvanceMovesForward` | mini-crossword/Domain/Logic/NavigationLogic.swift:82-123 | every step moves strictly forward in visiting order and changes phase only at the across hand-off |
| `Navigation.AdvanceLandsOnCell` | mini-crossword/Domain/Logic/NavigationLogic.swift:82-123 | when every entry has cells, a step from a state on a cell lands on a cell again |
| `Navigation.HintTarget` | mini-crossword/Domain/Logic/NavigationLogic.swift:125-151 | the hint goes to the current cell when it is unlocked, otherwise to the cell one step further, which is not checked again; nil without a current cell |
| `NavigationScenarios.SampleAcrossOrdered` | mini-crosswordTests/mini_crosswordTests.swift:23-28 | the sample across entries are already in canonical order |
| `NavigationScenarios.SampleDownOrdered` | mini-crosswordTests/mini_crosswordTests.swift:29-33 | the sample down entries are already in canonical order |
| `NavigationScenarios.SampleAlreadyOrdered` | mini-crosswordTests/mini_crosswordTests.swift:23-35 | both sample lists are their own canonical order |
| `NavigationScenarios.SampleInitialState` | mini-crosswordTests/mini_crosswordTests.swift:53-62 | on the 3×3 sample the start state is across, entry 0, cell 0 |
| `NavigationScenarios.SampleHandOff` | mini-crosswordTests/mini_crosswordTests.swift:64-75 | after the last across cell the cursor moves to down entry 0, cell 0 |
| `NavigationScenarios.SampleHintSkipsLockedCell` | mini-crosswordTests/mini_crosswordTests.swift:78-97 | with (0,0) locked the hint goes to (0,1) |
| `NavigationScenarios.SampleHintDoesNotRecheck` | mini-crossword/Domain/Logic/NavigationLogic.swift:137-150 | with (0,0) and (0,1) locked the hint still goes to (0,1): the next cell is not checked for a lock |
| `Validation.GridLetter` | mini-crossword/Domain/Logic/ValidationLogic.swift:73-85 | a letter is present exactly for a non-negative cell inside a present row and column holding a letter, and is then that letter |
| `Validation.AllFilled` | mini-crossword/Domain/Logic/ValidationLogic.swift:5-10 | the cell loop succeeds exactly when every cell holds a non-empty letter |
| `Validation.AllMatch` | mini-crossword/Domain/Logic/ValidationLogic.swift:14-24 | the cell loop succeeds exactly when every cell holds a non-empty letter equal to a present solution letter |
| `Validation.IsEntryComplete` | mini-crossword/Domain/Logic/ValidationLogic.swift:4-11 | an entry is complete exactly when each of its cells is filled with a non-empty letter |
| `Validation.IsEntryCorrect` | mini-crossword/Domain/Logic/ValidationLogic.swift:13-25 | an entry is correct exactly when each of its cells is filled and equals the solution letter |
| `Validation.EntryCorrectIsComplete` | mini-crossword/Domain/Logic/ValidationLogic.swift:4-25 | a correct entry is complete |
| `Validation.EntryIncorrectWithoutSolution` | mini-crossword/Domain/Logic/ValidationLogic.swift:15-19 | a cell without a solution letter makes the entry incorrect whatever is filled in |
| `Validation.RowComplete` | mini-crossword/Domain/Logic/ValidationLogic.swift:34-42 | the column loop succeeds exactly when every non-black cell of the row from the column on is filled |
| `Validation.RowsComplete` | mini-crossword/Domain/Logic/ValidationLogic.swift:33-43 | the row loop succeeds exactly when every non-black grid cell from the row on is filled |
| `Validation.IsPuzzleComplete` | mini-crossword/Domain/Logic/ValidationLogic.swift:27-45 | the puzzle is complete exactly when every non-black cell of the width × height grid is filled |
| `Validation.RowCorrect` | mini-crossword/Domain/Logic/ValidationLogic.swift:55-68 | the column loop succeeds exactly when every non-black cell of the row from the column on matches the solution |
| `Validation.RowsCorrect` | mini-crossword/Domain/Logic/ValidationLogic.swift:54-69 | the row loop succeeds exactly when every non-black grid cell from the row on matches the solution |
| `Validation.IsPuzzleCorrect` | mini-crossword/Domain/Logic/ValidationLogic.swift:47-71 | the puzzle is correct exactly when every non-black grid cell is filled with its solution letter |
| `Validation.PuzzleCorrectIsComplete` | mini-crossword/Domain/Logic/ValidationLogic.swift:27-71 | a correct puzzle is complete |
| `Validation.PuzzleCompleteEntries` | mini-crossword/Domain/Logic/ValidationLogic.swift:4-45 | a complete puzzle completes every entry that lies on non-black grid cells |
| `Validation.SolutionIsCorrect` | mini-crosswordTests/mini_crosswordTests.swift:112-121 | filling in a solution that has a letter on every non-black cell is complete and correct |
| `Validation.GridEquality` | mini-crossword/Domain/Logic/ValidationLogic.swift:73-85 | grids of the same shape with the same letters are equal |
| `Validation.SetCell` | mini-crosswordTests/mini_crosswordTests.swift:107-111 | replacing one cell changes what that cell reads and nothing else |
| `Validation.BlankingMakesIncomplete` | mini-crosswordTests/mini_crosswordTests.swift:107-120 | blanking a cell of an entry makes the entry incomplete, and the puzzle too when the cell is a non-black grid cell |
| `Eligibility.EligibleDates` | mini-crossword/Domain/Logic/Eligibility.swift:4-13 | one date per day of the month so far, strictly increasing, from the first of the month to today |
| `Eligibility.EligibleDatesExactly` | mini-crossword/Domain/Logic/Eligibility.swift:4-21 | a date is listed exactly when it is eligible: between the first of the month and today |
| Eligibility.IsEligible | mini-crossword/Domain/Logic/Eligibility.swift:15-21 | from the start of the month through today; EligibleDatesExactly proves it holds exactly for the listed days |
| Eligibility.StartOfMonth | mini-crossword/Domain/Logic/Eligibility.swift:16-17 | the first day of today's month, `dayOfMonth - 1` days before today (the calendar is a parameter); see EligibleDatesExactly |
| `Eligibility.TenthOfMonth` | mini-crosswordTests/mini_crosswordTests.swift:37-45 | on the 10th the list has ten days, from the 1st to today; the 1st is eligible and the 11th is not |
| `ChallengeLogic.ProgressKeyDecodes` | mini-crossword/Domain/Logic/ChallengeLogic.swift:4-6 | a key is "challenge_", the id and "_" followed by the index in decimal (with a minus sign when negative), which reads back as the index |
| ChallengeLogic.ProgressKey | mini-crossword/Domain/Logic/ChallengeLogic.swift:4-6 | the progress key of a challenge puzzle; ProgressKeyDecodes and ProgressKeyInjective state that it reads back and that distinct puzzles get distinct keys |
| `ChallengeLogic.ProgressKeyInjective` | mini-crossword/Domain/Logic/ChallengeLogic.swift:4-6 | two puzzles of one challenge, or one puzzle number of two challenges, never share a progress key |
| `ChallengeLogic.IsComplete` | mini-crossword/Domain/Logic/ChallengeLogic.swift:8-10 | a challenge without puzzles is never complete; otherwise it is complete exactly when the completed count reaches the total |
| `ChallengeLogic.SummaryOrder` | mini-crossword/Domain/Logic/ChallengeLogic.swift:13-18 | the comparator (incomplete first, then case-insensitive name) is a total preorder |
| `ChallengeLogic.SortSummaries` | mini-crossword/Domain/Logic/ChallengeLogic.swift:12-19 | the result is a permutation with every incomplete challenge before every complete one, and names in case-insensitive order within each group |
| `ChallengeLogic.SortSummariesStable` | mini-crossword/Domain/Logic/ChallengeLogic.swift:12-19 | challenges that tie on completion and name keep their catalog order |
| `PuzzleScreen.EmptyGrid` | mini-crossword/PuzzleView.swift:170-172 | the empty grid has the puzzle's height and width and every cell reads as absent |
| `PuzzleScreen.EmptyGridComplete` | mini-crossword/PuzzleView.swift:9-12 | a fresh grid is complete exactly when the puzzle has no fillable cell |
| `PuzzleScreen.PuzzleView.Contents` | mini-crossword/PuzzleView.swift:5 | the fill grid read as rows has the array's dimensions and its letters |
| `PuzzleScreen.PuzzleView.constructor` | mini-crossword/PuzzleView.swift:9-22 | a fresh screen has an empty grid of the puzzle's size, the cursor at the initial state and difficulty easy |
| `PuzzleScreen.PuzzleView.ActiveCell` | mini-crossword/PuzzleView.swift:105-110 | the active cell is the cursor's cell, absent without a cursor |
| `PuzzleScreen.PuzzleView.CurrentClue` | mini-crossword/PuzzleView.swift:112-121 | the clue of the cursor's entry in the phase's ordered list, or "" when there is no cursor or no such entry |
| `PuzzleScreen.PuzzleView.MoveEntry` | mini-crossword/PuzzleView.swift:123-133 | the cursor moves by the offset within the phase to the entry's first cell; nothing changes without a cursor or when the target is out of range |
| `PuzzleScreen.PuzzleView.Enter` | mini-crossword/PuzzleView.swift:135-150 | typing writes the letter into the active cell only and advances the cursor; without an active cell nothing changes |
| `PuzzleScreen.PuzzleView.Backspace` | mini-crossword/PuzzleView.swift:152-159 | backspace clears the active cell only and leaves the cursor |
| `ProgressStores.CompletedAmong` | mini-crossword/ChallengeListViewModel.swift:56-62 | at most n of the first n puzzles are counted, and all n exactly when every one has complete progress saved |
| `ProgressStores.ChallengeCompleteIffAllComplete` | mini-crossword/ChallengeListViewModel.swift:28-32 | a challenge is complete exactly when it has puzzles and every one of them has complete progress saved |
| `ChallengeList.SolvedCount` | mini-crossword/ChallengeListViewModel.swift:52-64 | a challenge without puzzles counts zero; otherwise the count of its puzzles with complete progress |
| `ChallengeList.SummaryOf` | mini-crossword/ChallengeListViewModel.swift:27-42 | a summary copies the definition's fields, carries the solved count, and is complete exactly when all its puzzles are solved |
| `ChallengeList.Summaries` | mini-crossword/ChallengeListViewModel.swift:25-43 | one summary per definition, in catalog order |
| `ChallengeList.ChallengeListViewModel.constructor` | mini-crossword/ChallengeListViewModel.swift:3-20 | a fresh list is empty with no error |
| `ChallengeList.ChallengeListViewModel.CompletedPuzzleCount` | mini-crossword/ChallengeListViewModel.swift:52-64 | the counting loop yields the solved count, between 0 and the puzzle count; a throwing or missing lookup counts as unsolved |
| `ChallengeList.ChallengeListViewModel.Load` | mini-crossword/ChallengeListViewModel.swift:22-50 | on success the list is the sorted summaries and the error is cleared; on a throw only the error message changes |
| `ChallengeList.ListedChallenges` | mini-crossword/ChallengeListViewModel.swift:22-50 | the list has one summary per definition, and a summary is listed exactly when some definition produces it |
| `ChallengeDetail.LockingLeavesOneOpen` | mini-crossword/ChallengeDetailView.swift:261-271 | the first item and every solved item are unlocked, and at most one unsolved item is open: the one with only solved items before it |
| `ChallengeDetail.ItemsForAppend` | mini-crossword/ChallengeDetailView.swift:262-282 | appending the next item with the loop's lock flag keeps the list indexed and locked as the rule says, and adds its completion to the count |
| `ChallengeDetail.Tap` | mini-crossword/ChallengeDetailView.swift:77-95 | a solved item reports it was played, a locked one ignores the tap, an open one opens when access is granted and shows the paywall otherwise |
| `ChallengeDetail.TapOpensFirstUnsolvedOnly` | mini-crossword/ChallengeDetailView.swift:77-95 | a tap can open or offer only the first unsolved puzzle of the challenge |
| `ChallengeDetail.CountCompleteIsCompletedAmong` | mini-crossword/ChallengeDetailView.swift:262-284 | the number of solved items equals the number of puzzles with complete progress saved |
| `ChallengeDetail.ChallengeDetailViewModel.constructor` | mini-crossword/ChallengeDetailView.swift:229-248 | a fresh model has no items, a zero count, is incomplete and has no error |
| `ChallengeDetail.ChallengeDetailViewModel.ChallengePuzzle` | mini-crossword/ChallengeDetailView.swift:252-257 | the challenge's own puzzle file when it loads, otherwise the fallback puzzle or its throw |
| `ChallengeDetail.ChallengeDetailViewModel.BuildItems` | mini-crossword/ChallengeDetailView.swift:258-281 | builds exactly `count` items, indexed and keyed in order with completion read from the store, each unsolved item after the first unsolved one locked, and counts the solved ones |
| `ChallengeDetail.ChallengeDetailViewModel.Load` | mini-crossword/ChallengeDetailView.swift:250-290 | one item per puzzle index, keyed by the progress key, completion read from the store, unsolved items after the first unsolved one locked, the solved count and completion set; on a throw only the error changes |
| `DailyChallenge.InMemoryPuzzleStore.constructor` | mini-crossword/DailyChallengeViewModel.swift:90-91 | a fresh store is empty |
| `DailyChallenge.InMemoryPuzzleStore.LoadPuzzle` | mini-crossword/DailyChallengeViewModel.swift:93-95 | a lookup finds exactly the puzzle filed under the date string |
| `DailyChallenge.InMemoryPuzzleStore.SavePuzzle` | mini-crossword/DailyChallengeViewModel.swift:97-99 | saving files the puzzle under its own date, replacing what was there, and loading that date gives it back |
| `DailyChallenge.SaveThenLoad` | mini-crossword/DailyChallengeViewModel.swift:93-99 | after a save the puzzle's date holds it, every other date is unchanged, and a store filed by date stays so |
| DailyChallenge.DailyProgressKey | mini-crossword/DailyChallengeViewModel.swift:85-87 | the progress key of a daily puzzle, its id and date joined by "_"; see DailyProgressKeySeparatesDates |
| `DailyChallenge.DailyProgressKeySeparatesDates` | mini-crossword/DailyChallengeViewModel.swift:85-87 | puzzles with the same id and different dates never share a progress key, so each day's completion is kept apart |
| `DailyChallenge.BundleByDate` | mini-crossword/DailyChallengeViewModel.swift:42 | the by-date dictionary holds exactly the bundled dates, each mapped to its puzzle |
| `DailyChallenge.Fallback` | mini-crossword/DailyChallengeViewModel.swift:43 | the fallback is the first bundled puzzle, absent for an empty bundle |
| `DailyChallenge.Supplied` | mini-crossword/DailyChallengeViewModel.swift:50-58 | a day's puzzle is the stored one, else the bundled one of that date, else the fallback re-dated to the day; none only when all three are missing |
| `DailyChallenge.Filled` | mini-crossword/DailyChallengeViewModel.swift:48-57 | after filling some days the store holds the previously stored dates and those days, each with its supplied puzzle |
| `DailyChallenge.Loaded` | mini-crossword/DailyChallengeViewModel.swift:58-59 | the shown puzzles are exactly the days with a supplied puzzle, mapped to it |
| `DailyChallenge.SolvedDays` | mini-crossword/DailyChallengeViewModel.swift:60-62 | a day is solved exactly when its puzzle has complete progress saved under the id-and-date key |
| `DailyChallenge.FirstFailure` | mini-crossword/DailyChallengeViewModel.swift:60 | the first day whose progress lookup throws; none exactly when no lookup throws |
| `DailyChallenge.DateStrings` | mini-crossword/DailyChallengeViewModel.swift:49 | one formatted date string per eligible day, in order |
| `DailyChallenge.LoadKeepsStored` | mini-crossword/DailyChallengeViewModel.swift:48-64 | a load never replaces a stored puzzle, and adds only puzzles of days it went through |
| `DailyChallenge.FilledStaysFiledByDate` | mini-crossword/DailyChallengeViewModel.swift:51-56 | filling days keeps every stored puzzle filed under its own date |
| `DailyChallenge.LoadedCoversDays` | mini-crossword/DailyChallengeViewModel.swift:48-67 | with a non-empty bundle every day gets a puzzle; only days with a puzzle are marked solved; the shown puzzles agree with the store |
| `DailyChallenge.FilledStep` | mini-crossword/DailyChallengeViewModel.swift:50-57 | filling one more day changes the store only at that day, and only when it had no puzzle |
| `DailyChallenge.LoadedStep` | mini-crossword/DailyChallengeViewModel.swift:58-62 | one more day adds its supplied puzzle to the shown ones and, when solved, the day to the solved set |
| `DailyChallenge.FirstFailureAt` | mini-crossword/DailyChallengeViewModel.swift:48-64 | the loop stops at the first day whose progress lookup throws |
| `DailyChallenge.DailyChallengeViewModel.constructor` | mini-crossword/DailyChallengeViewModel.swift:3-33 | a fresh model has no days, puzzles, solved days or error, and the current date selected |
| `DailyChallenge.DailyChallengeViewModel.PuzzleFor` | mini-crossword/DailyChallengeViewModel.swift:74-76 | the puzzle shown under the day's date string, if any |
| `DailyChallenge.DailyChallengeViewModel.IsCompleteOn` | mini-crossword/DailyChallengeViewModel.swift:78-83 | a day is solved only if marked solved, and exactly then while solved days all have puzzles |
| `DailyChallenge.DailyChallengeViewModel.FillDay` | mini-crossword/DailyChallengeViewModel.swift:50-58 | the store gains the day's supplied puzzle when it had none, and the day's puzzle is returned |
| `DailyChallenge.DailyChallengeViewModel.Load` | mini-crossword/DailyChallengeViewModel.swift:35-72 | sets the day and eligible days, fills the store up to the first throwing lookup, and replaces the shown puzzles and solved days only when nothing throws; otherwise only the error changes |
| `DailyChallenge.DailyChallengeViewModel.FillDays` | mini-crossword/DailyChallengeViewModel.swift:48-64 | the day loop fills the store up to the first throw and, without one, yields the shown puzzles and solved days |
| `DailyChallenge.DailyChallengeViewModel.CollectDay` | mini-crossword/DailyChallengeViewModel.swift:49-63 | one loop step fills the day, adds its puzzle and, if solved, the day; a throwing progress lookup is reported with its error |
| `CrosswordGrid.CellSet` | crossword-engine/crossword_engine/grid.py:60 | the black set has exactly the members of the black-cell list |
| `CrosswordGrid.BorderNeighbors` | crossword-engine/crossword_engine/grid.py:19-31 | a cell is listed exactly when it is orthogonally next to the cell, inside the grid and on its border |
| `CrosswordGrid.Corners` | crossword-engine/crossword_engine/grid.py:34-40 | the corners are exactly the cells in the first or last row and the first or last column |
| `CrosswordGrid.ValidCornersForCell` | crossword-engine/crossword_engine/grid.py:43-54 | a corner is valid for a cell exactly when it lies on a side of the grid the cell lies on |
| `CrosswordGrid.BorderCellHasCorner` | crossword-engine/crossword_engine/grid.py:43-54 | every border cell has at least one valid corner |
| `CrosswordGrid.ConnectedSymmetric` | crossword-engine/crossword_engine/grid.py:19-31 | inside the grid, connection along black border cells goes both ways |
| `CrosswordGrid.ConnectedTrans` | crossword-engine/crossword_engine/grid.py:19-31 | connection along black border cells is transitive |
| `CrosswordGrid.ClosedReach` | crossword-engine/crossword_engine/grid.py:78-86 | a set closed under border steps holds everything connected to its members |
| `CrosswordGrid.PushedMembers` | crossword-engine/crossword_engine/grid.py:84-86 | a neighbour is pushed exactly when it is black and not visited |
| `CrosswordGrid.PushUnvisited` | crossword-engine/crossword_engine/grid.py:84-86 | the loop appends, in neighbour order, the black unvisited border neighbours |
| `CrosswordGrid.VisitNext` | crossword-engine/crossword_engine/grid.py:79-86 | one pop keeps the search state and either visits a new cell or shrinks the stack |
| `CrosswordGrid.ExploreComponent` | crossword-engine/crossword_engine/grid.py:76-86 | the search adds a component disjoint from earlier ones, containing the start, connected to it, and leaves the visited cells closed under border steps |
| `CrosswordGrid.ComponentCornersValid` | crossword-engine/crossword_engine/grid.py:88-92 | the check succeeds exactly when every component cell has a component corner on one of its sides |
| `CrosswordGrid.ComponentReachesCorners` | crossword-engine/crossword_engine/grid.py:88-92 | in a component passing the check every cell reaches a corner on its own side |
| `CrosswordGrid.ComponentMissesCorner` | crossword-engine/crossword_engine/grid.py:88-92 | a cell that sees no corner of its component reaches no valid corner at all |
| `CrosswordGrid.AllOnBorder` | crossword-engine/crossword_engine/grid.py:63-65 | the loop succeeds exactly when every black cell is a border cell |
| CrosswordGrid.IsBorderCell | crossword-engine/crossword_engine/grid.py:15-16 | a cell in the first or last row or column; BorderCellHasCorner and AllOnBorder are stated over it |
| `CrosswordGrid.GroupsReachCorners` | crossword-engine/crossword_engine/grid.py:70-94 | inside the grid, the component loop succeeds exactly when every black cell is connected to a corner on its own side |
| `CrosswordGrid.ValidateBlackCells` | crossword-engine/crossword_engine/grid.py:57-94 | more than four cells or a non-border cell is rejected, no cells is accepted, and for in-grid cells the answer is exactly the layout rule |
| `CrosswordSlots.Run` | crossword-engine/crossword_engine/grid.py:126-130 | a run is the consecutive open cells from its first cell, inside the grid, ending at the edge or before a black cell |
| `CrosswordSlots.RunFromStart` | crossword-engine/crossword_engine/grid.py:111-118 | a run that starts at an open cell holds that cell and at least one more |
| `CrosswordSlots.RowCells` | crossword-engine/crossword_engine/grid.py:107 | the cells of one row visited left to right |
| `CrosswordSlots.ScanAppend` | crossword-engine/crossword_engine/grid.py:106-141 | visiting one more cell appends its slots and counts it when a run starts there |
| `CrosswordSlots.CellSlotsShape` | crossword-engine/crossword_engine/grid.py:120-141 | the slots of one starting cell are its across run and then its down run, sharing the cell's number, with consecutive ids |
| `CrosswordSlots.ScanOrigins` | crossword-engine/crossword_engine/grid.py:106-141 | each slot found is the run from the visited cell at its origin, numbered one more than the starting cells before it; ids are positions; origins never go back |
| `CrosswordSlots.ScanIds` | crossword-engine/crossword_engine/grid.py:131-132 | slot ids are 0, 1, 2, ... in the order slots are found |
| `CrosswordSlots.ScanComplete` | crossword-engine/crossword_engine/grid.py:111-141 | every visited open cell where a run starts yields that run as a slot with the cell's number |
| `CrosswordSlots.StartCountMonotone` | crossword-engine/crossword_engine/grid.py:120-123 | numbers never decrease along the scan |
| `CrosswordSlots.ScanNumbers` | crossword-engine/crossword_engine/grid.py:120-123 | over distinct cells two slots share a number exactly when they start at the same cell |
| `CrosswordSlots.StartCountStrict` | crossword-engine/crossword_engine/grid.py:120-123 | a later starting cell gets a strictly larger number |
| `CrosswordSlots.RowMajorCells` | crossword-engine/crossword_engine/grid.py:106-107 | the row-by-row scan visits every grid cell exactly once and nothing outside the grid |
| `CrosswordSlots.GridSlots` | crossword-engine/crossword_engine/grid.py:97-147 | the grid's slots have ids 0, 1, 2, ... and each is the maximal run of two or more open cells from an in-grid cell where a run starts in its direction; the numbering is stated by ScanOrigins and ScanNumbers |
| `CrosswordSlots.GridSlotsComplete` | crossword-engine/crossword_engine/grid.py:106-141 | every open grid cell where a run starts is the first cell of a slot in that direction |
| `CrosswordSlots.AddRefsMembers` | crossword-engine/crossword_engine/grid.py:144-145 | indexing one slot adds exactly its cells, each with the slot's id and its position |
| `CrosswordSlots.SlotRefsKeys` | crossword-engine/crossword_engine/grid.py:143-145 | a cell is indexed exactly when some slot passes through it |
| `CrosswordSlots.SlotRefsSound` | crossword-engine/crossword_engine/grid.py:143-145 | every listed reference points at a slot holding the cell at that position |
| `CrosswordSlots.SlotRefsComplete` | crossword-engine/crossword_engine/grid.py:143-145 | every cell of every slot is listed with the slot's id and its position |
| `CrosswordSlots.SlotRefsByPosition` | crossword-engine/crossword_engine/grid.py:143-145 | with ids equal to positions, a reference is listed exactly when the slot has the cell there |
| `CrosswordSlots.CollectRun` | crossword-engine/crossword_engine/grid.py:126-130 | the collecting loop yields exactly the run |
| `CrosswordSlots.StartsAt` | crossword-engine/crossword_engine/grid.py:111-118 | the starts-across and starts-down tests are exactly where runs start |
| `CrosswordSlots.CollectSlots` | crossword-engine/crossword_engine/grid.py:125-141 | collects the cell's across slot then its down slot with the next ids |
| `CrosswordSlots.ScanCell` | crossword-engine/crossword_engine/grid.py:108-141 | visiting one cell extends the scan by that cell, keeps the next number one past the starting cells seen, and the next id equal to the slot count |
| `CrosswordSlots.ScanRow` | crossword-engine/crossword_engine/grid.py:107-141 | scanning a row extends the scan by the row's cells |
| `CrosswordSlots.RowCellsStep` | crossword-engine/crossword_engine/grid.py:107 | the column loop visits the row's cells in order |
| `CrosswordSlots.ExtractSlots` | crossword-engine/crossword_engine/grid.py:97-147 | the slots are the row-major scan of the grid and the index lists every slot cell's references |
| `CrosswordSlots.IndexCells` | crossword-engine/crossword_engine/grid.py:143-145 | the index loop yields the cell-to-references map of the slots |
| `CrosswordSlots.ValidateNoSingletons` | crossword-engine/crossword_engine/grid.py:150-164 | accepted exactly when the grid has a slot and every open cell lies on some slot |
| `CrosswordSlots.OpenCellsIndexed` | crossword-engine/crossword_engine/grid.py:158-164 | the loop succeeds exactly when every open grid cell is indexed |
| `CrosswordSlots.BuildSolutionGrid` | crossword-engine/crossword_engine/grid.py:167-180 | height rows of width cells: nothing at black cells and the placed letter, if any, elsewhere |
| `Generator.OnBorderIncreasing` | crossword-engine/crossword_engine/generator.py:40-46 | filtering an increasing cell list to border cells keeps it increasing |
| `Generator.RowMajorIncreasing` | crossword-engine/crossword_engine/generator.py:42-43 | the row-by-row scan visits cells in strictly increasing row-major order |
| `Generator.BorderCellsExactly` | crossword-engine/crossword_engine/generator.py:40-46 | the border list holds exactly the grid cells on the first or last row or column, each once, in row-major order |
| `Generator.BorderCells` | crossword-engine/crossword_engine/generator.py:40-46 | the nested loop yields exactly the border list |
| `Generator.RowBorderCells` | crossword-engine/crossword_engine/generator.py:43-45 | the column loop yields the border cells of one row, left to right |
| `Generator.CombinationShape` | crossword-engine/crossword_engine/generator.py:57 | a combination of k cells has k cells drawn from the border, in border order |
| `Generator.CombinationComplete` | crossword-engine/crossword_engine/generator.py:57 | every increasing choice of cells from an increasing border list is one of its combinations |
| `Generator.KeepMembers` | crossword-engine/crossword_engine/generator.py:57-62 | a layout is kept exactly when it is tried and both validators accept it |
| `Generator.CandidatesMembers` | crossword-engine/crossword_engine/generator.py:56-57 | the layouts tried are the combinations of zero to four border cells |
| `Generator.ValidSetsExactly` | crossword-engine/crossword_engine/generator.py:49-65 | a layout is listed exactly when it is a row-major list of at most four distinct border cells accepted by both validators |
| `Generator.KeepAccepted` | crossword-engine/crossword_engine/generator.py:57-62 | the combination loop appends the accepted layouts in order |
| `Generator.CombinationsInBounds` | crossword-engine/crossword_engine/generator.py:54-57 | every combination of border cells lies inside the grid |
| `Generator.ComputeValidSets` | crossword-engine/crossword_engine/generator.py:54-63 | the count and combination loops yield the listed layouts |
| `Generator.BlackSetCache.constructor` | crossword-engine/crossword_engine/generator.py:37 | the memo starts empty |
| `Generator.BlackSetCache.ValidBlackSets` | crossword-engine/crossword_engine/generator.py:49-65 | the memoised or freshly computed list is the same list of acceptable layouts; only a missing size is added to the memo |
| `Generator.PatternOneCharPerCell` | crossword-engine/crossword_engine/generator.py:68-73 | with one-character letters the pattern has one character per cell: its letter, or '.' without one |
| Generator.PatternForSlot | crossword-engine/crossword_engine/generator.py:68-73 | the slot's pattern; PatternOneCharPerCell and PatternOfFilledSlot state its contents |
| `Generator.PatternOfFilledSlot` | crossword-engine/crossword_engine/generator.py:68-73 | once every cell has a letter, the pattern is the slot's word, with no '.' left |
| `Generator.CrossingsStep` | crossword-engine/crossword_engine/generator.py:78-83 | going through one more cell adds its slots' crossings with each other |
| `Generator.MergeStep` | crossword-engine/crossword_engine/generator.py:80-83 | adding one slot of the list updates just that slot's neighbours |
| `Generator.AddCrossings` | crossword-engine/crossword_engine/generator.py:80-83 | each slot of the list gains the other slots of the list as neighbours |
| `Generator.IntersectsMap` | crossword-engine/crossword_engine/generator.py:76-84 | in any order of cells, the result is the crossing relation of the whole index |
| `Generator.CrossingsExactly` | crossword-engine/crossword_engine/generator.py:76-84 | two slots are neighbours exactly when they are distinct and listed at a common cell; the relation is irreflexive and symmetric |
| `Generator.CrossingSlots` | crossword-engine/crossword_engine/generator.py:96-101 | for a grid's slot index two slots are neighbours exactly when they are distinct slots sharing a cell |
| `Generator.CellLists` | crossword-engine/crossword_engine/generator.py:199 | each cell becomes its [row, col] list, in order |
| `Generator.NumberLeTotalPreorder` | crossword-engine/crossword_engine/generator.py:206 | ordering entries by number is a total preorder |
| `Generator.BuildEntries` | crossword-engine/crossword_engine/generator.py:191-208 | each direction's list is its answered slots' entries, in slot order, sorted stably by number |
| `Generator.ListedExactly` | crossword-engine/crossword_engine/generator.py:193-203 | an entry is listed in a direction exactly when it is the entry of an answered slot in that direction |
| `Generator.EntriesSortedStably` | crossword-engine/crossword_engine/generator.py:205-206 | each list is a permutation of the listed entries, sorted by number, with equal numbers kept in slot order |
| `Generator.Answers` | crossword-engine/crossword_engine/generator.py:234-237 | the answer loop yields the spelled word of each slot over the blank start |
| `Generator.AnswersOfKeys` | crossword-engine/crossword_engine/generator.py:234-237 | exactly the slot ids get answers |
| `Generator.AnswersSpelled` | crossword-engine/crossword_engine/generator.py:234-237 | with ids equal to positions, each slot's answer is its cells' letters joined |
| `Generator.SpellNonEmpty` | crossword-engine/crossword_engine/generator.py:236 | a slot with cells and non-empty letters spells a non-empty word |
| `Generator.PuzzleListsEverySlot` | crossword-engine/crossword_engine/generator.py:231-239 | in a generated puzzle every slot gets an entry in its direction's list, answered by its letters joined, and nothing else is listed |
| WordList.NormalizeWord | crossword-engine/crossword_engine/wordlist.py:11-17 | a result is always an upper-case A-Z word, and there is none exactly when the stripped, upper-cased text is not one |
| WordList.NormalizeWordFixed | crossword-engine/crossword_engine/wordlist.py:11-17 | a word normalises to itself, and only a word does |
| WordList.NormalizeWordIdempotent | crossword-engine/crossword_engine/wordlist.py:11-17 | normalising a normalised word gives it back |
| WordList.NormalizeWordExample | crossword-engine/crossword_engine/wordlist.py:12 | surrounding blanks and lower case are ignored (" cat" ended by a newline gives "CAT") |
| WordList.NormalizeWordRejects | crossword-engine/crossword_engine/wordlist.py:13-16 | a word with an apostrophe and a blank line are rejected |
| WordList.WordsInStep | crossword-engine/crossword_engine/wordlist.py:24-29 | reading one more line adds its normalised word exactly when its length is in range |
| WordList.CollectWords | crossword-engine/crossword_engine/wordlist.py:23-30 | the loop collects exactly the in-range normalised words of the lines |
| WordList.WordsInExactly | crossword-engine/crossword_engine/wordlist.py:24-29 | a word is collected iff some line normalises to it and its length is within [min, max] |
| WordList.ReadWordFile | crossword-engine/crossword_engine/wordlist.py:20-30 | a missing file gives no words; otherwise the collected words of its lines |
| WordList.ReadWrittenWords | crossword-engine/crossword_engine/wordlist.py:20-30 | a file written one word per line reads back as its in-range words |
| WordList.WithLength | crossword-engine/crossword_engine/wordlist.py:51-52 | the words of one length, in order: the reference a length group is compared with |
| WordList.WithLengthNone | crossword-engine/crossword_engine/wordlist.py:51-52 | when no word has a length, there is nothing of that length |
| WordList.Range | crossword-engine/crossword_engine/wordlist.py:67 | `set(range(n))` holds exactly 0 .. n - 1 |
| WordList.Grouped | crossword-engine/crossword_engine/wordlist.py:50-52 | every group holds only words of its own length |
| WordList.GroupedAppend | crossword-engine/crossword_engine/wordlist.py:51-52 | one more word is appended to its own length's group, and the other groups are unchanged |
| WordList.GroupByLength | crossword-engine/crossword_engine/wordlist.py:50-52 | the grouping loop produces the length groups |
| WordList.GroupedExactly | crossword-engine/crossword_engine/wordlist.py:50-52 | a length has a group iff some word has it; the group is exactly that length's words in order, and is never empty |
| WordList.PositionIndex | crossword-engine/crossword_engine/wordlist.py:61-64 | one letter map per position of the length |
| WordList.PositionIndexExactly | crossword-engine/crossword_engine/wordlist.py:61-64 | index idx is listed under letter ch at position pos iff word idx of the group has ch there |
| WordList.LetterMapStep | crossword-engine/crossword_engine/wordlist.py:64 | one more word adds its index under its own letter at the position |
| WordList.IndexWord | crossword-engine/crossword_engine/wordlist.py:63-64 | the inner loop adds the word's index under each of its letters at that letter's position |
| WordList.BuildPositions | crossword-engine/crossword_engine/wordlist.py:61-65 | the nested loops build the position index of a group |
| WordList.FittingIn | crossword-engine/crossword_engine/wordlist.py:77-86 | the reference listing: a word is listed iff it is in the list and fits the pattern |
| WordList.FittingInWithLength | crossword-engine/crossword_engine/wordlist.py:70-72 | only words of the pattern's length fit, so searching one length group loses nothing |
| WordList.FitIndices | crossword-engine/crossword_engine/wordlist.py:77-85 | intersecting the position sets, and stopping early once empty, leaves exactly the indices of fitting words |
| WordList.WordsAt | crossword-engine/crossword_engine/wordlist.py:86 | listing the fitting indices gives the fitting words, each once per occurrence |
| WordList.FittingWords | crossword-engine/crossword_engine/wordlist.py:77-86 | the uncached lookup lists exactly the group's fitting words |
| WordList.ListsMembers | crossword-engine/crossword_engine/wordlist.py:77-86 | a listing holds exactly the fitting words |
| WordList.LengthOrder | crossword-engine/crossword_engine/wordlist.py:60 | the dictionary's key order lists each length that has a group, exactly once |
| WordList.IndexGroups | crossword-engine/crossword_engine/wordlist.py:59-67 | the loop over the groups records every group's position index, an empty cache and all of its indices |
| WordList.WordIndex.constructor | crossword-engine/crossword_engine/wordlist.py:48-57 | the groups are the length grouping of the words, the caches are empty and the index is valid |
| WordList.WordIndex.BuildIndex | crossword-engine/crossword_engine/wordlist.py:59-67 | adds the position index, an empty cache and the index set of every group, and changes nothing else |
| WordList.WordIndex.Candidates | crossword-engine/crossword_engine/wordlist.py:69-88 | a length without a group gives []; a cached pattern returns its cached list; otherwise the list is computed and cached; the answer always lists exactly the words that fit |
| WordList.GroupFitting | crossword-engine/crossword_engine/wordlist.py:77-86 | an answer computed from a group's index lists that group's fitting words |
| WordList.UngroupedFitsNothing | crossword-engine/crossword_engine/wordlist.py:70-72 | a pattern whose length no word has fits no word |
| WordList.GroupListsAll | crossword-engine/crossword_engine/wordlist.py:70-88 | listing a group's fitting words lists the fitting words of the whole word list |
| WordList.EmptyCachesSound | crossword-engine/crossword_engine/wordlist.py:66 | empty caches hold no wrong answer |
| WordList.CacheSoundAdd | crossword-engine/crossword_engine/wordlist.py:87 | caching a correct answer keeps every cached answer correct |
| WordList.CategoryParts | crossword-engine/crossword_engine/wordlist.py:93-94 | one word set per category file, in category order |
| WordList.UnionExactly | crossword-engine/crossword_engine/wordlist.py:92-94 | the union over the category files holds exactly the words of some category |
| WordList.SortedWords | crossword-engine/crossword_engine/wordlist.py:102 | `sorted` of a set: sorted, duplicate-free, and the same words |
| WordList.SortedWordsUnique | crossword-engine/crossword_engine/wordlist.py:102 | two sorted duplicate-free lists of the same words are equal, so the sorted list is determined |
| WordList.LoadWords | crossword-engine/crossword_engine/wordlist.py:91-107 | the loaded words are exactly the category and allow-list words minus the ban list, sorted without duplicates, with their length grouping |
| WordList.CombinedExactly | crossword-engine/crossword_engine/wordlist.py:91-100 | a word is loaded iff it is accepted from some category file or the allow list and not from the ban list |
| Hashing.CellOrder | crossword-engine/crossword_engine/hashing.py:14 | Python's order on (row, col) tuples is a total order |
| Hashing.SortedCells | crossword-engine/crossword_engine/hashing.py:13-14 | the distinct black cells in sorted order, with the same members |
| Hashing.CellTexts | crossword-engine/crossword_engine/hashing.py:14 | each black cell written "r,c", in order |
| Hashing.BlackPartCanonical | crossword-engine/crossword_engine/hashing.py:13-14 | the black part depends only on the set of black cells, not on their order or repetitions |
| Hashing.CellTextAvoids | crossword-engine/crossword_engine/hashing.py:14 | a cell's text contains neither ';' nor a vertical bar |
| Hashing.BlackPartSplits | crossword-engine/crossword_engine/hashing.py:13-14 | a non-empty black part splits on ';' back into the sorted cell texts |
| Hashing.Symbols | crossword-engine/crossword_engine/hashing.py:18-24 | one symbol per column |
| Hashing.Rows | crossword-engine/crossword_engine/hashing.py:16-25 | one row text per row |
| Hashing.SymbolsAt | crossword-engine/crossword_engine/hashing.py:18-24 | each column's symbol is that cell's symbol |
| Hashing.RowTextAt | crossword-engine/crossword_engine/hashing.py:18-25 | with one-letter cells a row has width characters: '#' at a black cell, the letter at a filled one, '?' at a missing or empty one |
| Hashing.SymbolsAvoid | crossword-engine/crossword_engine/hashing.py:20-24 | a character in no letter, other than '#' and '?', is in no symbol |
| Hashing.ConcatAvoids | crossword-engine/crossword_engine/hashing.py:25 | joining texts that avoid a character avoids it |
| Hashing.RowsAvoid | crossword-engine/crossword_engine/hashing.py:16-25 | a character in no letter, other than '#' and '?', is in no row |
| Hashing.RowsPartSplits | crossword-engine/crossword_engine/hashing.py:27 | with at least one row and no '/' in a letter, the rows part splits on '/' back into the h rows |
| Hashing.CanonicalSections | crossword-engine/crossword_engine/hashing.py:27 | the canonical text splits on the vertical bar into exactly "<w>x<h>", the black part and the rows part |
| Hashing.Canonical | crossword-engine/crossword_engine/hashing.py:7-28 | the canonical text before UTF-8 encoding; CanonicalSections, BlackPartCanonical and CanonicalIgnoresBlackValues state its sections and invariances |
| Hashing.BlackPartAvoids | crossword-engine/crossword_engine/hashing.py:14 | the black part has no vertical bar |
| Hashing.RowsPartAvoids | crossword-engine/crossword_engine/hashing.py:16-27 | the rows part has no separator character that no letter has |
| Hashing.RowsIgnoreBlack | crossword-engine/crossword_engine/hashing.py:16-25 | rows of grids agreeing off the black cells are equal |
| Hashing.SymbolsIgnoreBlack | crossword-engine/crossword_engine/hashing.py:18-24 | symbols of grids agreeing off the black cells are equal |
| Hashing.CanonicalIgnoresBlackValues | crossword-engine/crossword_engine/hashing.py:20-24 | the grid value at a black cell is never read: grids agreeing elsewhere have the same canonical text |
| GenerateChallenge.ReplaceRuns | generate_challenge.py:19 | the result has only a-z, 0-9 and '_', never two '_' in a row, and no leading '_' right after a run |
| GenerateChallenge.Slugify | generate_challenge.py:18-20 | `slugify`; SlugifyIsSlug and SlugifyIdempotent state what a slug is and that slugifying it again changes nothing |
| GenerateChallenge.SlugifyIsSlug | generate_challenge.py:18-20 | every slug is non-empty, has only a-z, 0-9 and '_', has no '_' at either end and no "__" |
| GenerateChallenge.ReplaceRunsFixed | generate_challenge.py:19 | text already of that shape passes through the replacement unchanged |
| GenerateChallenge.SlugFixed | generate_challenge.py:18-20 | slugifying a slug gives it back |
| GenerateChallenge.SlugifyIdempotent | generate_challenge.py:18-20 | slugify is idempotent |
| GenerateChallenge.SuffixedInjective | generate_challenge.py:55-57 | different suffix numbers give different candidate ids |
| GenerateChallenge.UniqueId | generate_challenge.py:51-57 | the id meets IsUniqueId: never in the existing set, the base when the base is free, otherwise base_k for the least free k >= 2 |
| `GenerateChallenge.IsUniqueIdDetermined` | generate_challenge.py:51-57 | at most one id meets IsUniqueId, so the contract fixes `unique_id`'s answer |
| GenerateChallenge.SubsetSize | generate_challenge.py:55-56 | a subset is no larger (the bound that ends the search) |
| GenerateChallenge.NormalCatalog | generate_challenge.py:23-32 | a missing file, a non-object or an object without "challenges" gives {"challenges": []}; a non-list value is replaced by [] in place; a proper catalog is kept |
| GenerateChallenge.LoadCatalog | generate_challenge.py:23-32 | returns the normalised catalog |
| GenerateChallenge.ExistingIds | generate_challenge.py:79-80 | an id is existing iff some challenge object has it as its string "id" (an unhashable id is refused before, see AddChallenge) |
| GenerateChallenge.Strings | generate_challenge.py:111 | the file names as JSON strings, in order |
| GenerateChallenge.Clamp | generate_challenge.py:69 | `max(1, count)`: at least 1 and at least count, and count itself when positive |
| GenerateChallenge.AddChallenge | generate_challenge.py:60-120 | refuses, checking in this order, exactly when the bank is smaller than the count, a catalog id is a list or an object (the TypeError), the explicit non-empty id is taken, or the slug's folder exists; otherwise the id is the explicit one when given and else exactly `unique_id(slugify(name), existing_ids)` (IsUniqueId), and the catalog gets the record of the first count bank files appended |
| GenerateChallenge.AddedChallengeListed | generate_challenge.py:116 | the appended catalog is still a catalog, with one more challenge, the new record, last |
| GenerateChallenge.ChallengeRecord | generate_challenge.py:107-114 | the new challenge's record with its six fields; AddChallenge appends it and AddedChallengeListed shows it is listed last |
| RemoveLowConfidence.Added | crossword-engine/scripts/remove_low_confidence_words.py:47-52 | only a string value adds anything, and what it adds is a normalised A-Z word |
| RemoveLowConfidence.ItemWords | crossword-engine/scripts/remove_low_confidence_words.py:56-62 | an item adds only normalised words, from an object's "answer" and "word" or a string itself |
| RemoveLowConfidence.ListWords | crossword-engine/scripts/remove_low_confidence_words.py:54-63 | a list payload yields only normalised words |
| RemoveLowConfidence.KeyWords | crossword-engine/scripts/remove_low_confidence_words.py:67-70 | one key of an object yields only normalised words, and only when its value is a list |
| RemoveLowConfidence.PayloadWords | crossword-engine/scripts/remove_low_confidence_words.py:44-73 | every word of any payload is a normalised A-Z word |
| RemoveLowConfidence.ExtractWordsFromJson | crossword-engine/scripts/remove_low_confidence_words.py:44-73 | a list gives its items' words; an object gives the union over list-valued "answers", "words" and "entries"; anything else gives none |
| RemoveLowConfidence.ExtractList | crossword-engine/scripts/remove_low_confidence_words.py:70 | the recursive call on a list gives that list's words |
| RemoveLowConfidence.ListWordsExactly | crossword-engine/scripts/remove_low_confidence_words.py:54-63 | a word comes from a list exactly when some object item's "answer" or "word", or some string item, normalises to it |
| RemoveLowConfidence.KeptLines | crossword-engine/scripts/remove_low_confidence_words.py:85-92 | the kept lines are exactly the unblocked lines, unchanged and no more of them |
| RemoveLowConfidence.RemovedCount | crossword-engine/scripts/remove_low_confidence_words.py:88-91 | removed count + kept lines = all lines |
| RemoveLowConfidence.RemovedWords | crossword-engine/scripts/remove_low_confidence_words.py:90 | the removed words are blocked words |
| RemoveLowConfidence.Removal | crossword-engine/scripts/remove_low_confidence_words.py:86-90 | a line removes a word exactly when it is blocked and normalises to that word |
| RemoveLowConfidence.RemovedWordsExactly | crossword-engine/scripts/remove_low_confidence_words.py:85-91 | a word is removed exactly when some blocked line normalises to it |
| RemoveLowConfidence.RemovedWordsLast | crossword-engine/scripts/remove_low_confidence_words.py:85-91 | the inductive step of the above: the last line adds its own removed word |
| RemoveLowConfidence.FilterStep | crossword-engine/scripts/remove_low_confidence_words.py:85-92 | one line either adds itself to the kept lines or adds one to the count and its word to the removed words |
| RemoveLowConfidence.FilterLines | crossword-engine/scripts/remove_low_confidence_words.py:81-92 | the loop keeps the unblocked lines in order, counts the others and collects their words, a subset of the blocked words |
| RemoveLowConfidence.OutputText | crossword-engine/scripts/remove_low_confidence_words.py:95-97 | the output is empty exactly when no line is kept |
| RemoveLowConfidence.RemoveWordsFromFile | crossword-engine/scripts/remove_low_confidence_words.py:76-100 | a missing file gives (0, {}) and no write; otherwise the counts of the filter, and a write exactly when not a dry run and something was removed, of the kept lines' text |
| RemoveLowConfidence.SplitLinesNoBreak | crossword-engine/scripts/remove_low_confidence_words.py:80 | the lines of a text contain no line break |
| RemoveLowConfidence.RewrittenReadsBack | crossword-engine/scripts/remove_low_confidence_words.py:80-98 | the rewritten file reads back as exactly the kept lines |
| Json.Keys | crossword-engine/scripts/remove_low_confidence_words.py:67 | the keys of the fields, in order |
| Json.Get | crossword-engine/scripts/remove_low_confidence_words.py:58-60 | `d.get(key)`: none exactly when no field has the key, otherwise a value stored under it |
| Json.GetAt | crossword-engine/scripts/remove_low_confidence_words.py:58-60 | a key's value is that of its first field |
| Json.Replace | generate_challenge.py:31 | `d[key] = value` on a present key: the key order and every other key are unchanged, and the key now holds value |
| DownloadWordlists.AirportCodesOf | crossword-engine/scripts/download_wordlists.py:39-56 | a missing "states" gives []; a list of states gives its codes; an object or string there gives []; a non-object payload or a non-iterable "states" fails |
| DownloadWordlists.StatesStep | crossword-engine/scripts/download_wordlists.py:41-55 | one more state appends its own codes (none when it is not an object) |
| DownloadWordlists.StateStep | crossword-engine/scripts/download_wordlists.py:44-55 | one more value of a state appends its airports' codes (none when it is not a list) |
| DownloadWordlists.AirportListStep | crossword-engine/scripts/download_wordlists.py:47-55 | one more airport appends its codes (none when it is not an object) |
| DownloadWordlists.AirportStep | crossword-engine/scripts/download_wordlists.py:50-55 | one more value of an airport appends its "IATA" string, if it is an object holding one |
| DownloadWordlists.ParseUsAirportCodesIata | crossword-engine/scripts/download_wordlists.py:39-56 | the nested loops return exactly the codes above, including the failure cases |
| DownloadWordlists.StateIata | crossword-engine/scripts/download_wordlists.py:44-55 | the loop over a state's values collects that state's codes |
| DownloadWordlists.AirportListIata | crossword-engine/scripts/download_wordlists.py:47-55 | the loop over a list of airports collects their codes |
| DownloadWordlists.AirportIata | crossword-engine/scripts/download_wordlists.py:50-55 | the loop over an airport's values collects its "IATA" strings |
| DownloadWordlists.StatesCodesAppend | crossword-engine/scripts/download_wordlists.py:41-56 | the codes of two runs of states come one run after the other: traversal order |
| DownloadWordlists.StatesCodesFrom | crossword-engine/scripts/download_wordlists.py:41-55 | every code found comes from some state object of the list |
| DownloadWordlists.SourceWords | crossword-engine/scripts/download_wordlists.py:91-97 | every gathered word is a normalised word whose length is within [min, max] |
| DownloadWordlists.SourceStep | crossword-engine/scripts/download_wordlists.py:91-97 | one more source adds its accepted words |
| DownloadWordlists.GatherWords | crossword-engine/scripts/download_wordlists.py:128-135 | the loop over the sources and their raw words gathers exactly the accepted words |
| DownloadWordlists.WordsInAppend | crossword-engine/scripts/download_wordlists.py:92-97 | the accepted words of two runs of raw words are the union of each run's |
| DownloadWordlists.SourceWordsFlat | crossword-engine/scripts/download_wordlists.py:91-97 | gathering source by source accepts the same words as reading all raw words at once |
| DownloadWordlists.LoadFrequencyWords | crossword-engine/scripts/download_wordlists.py:88-98 | the accepted words of the "frequency" sources (none when absent), each normalised and of accepted length |
| DownloadWordlists.CategoryWordsExactly | crossword-engine/scripts/download_wordlists.py:128-137 | a category keeps exactly its sources' accepted words, intersected with the frequency words only for "core" and only when there are any |
| DownloadWordlists.OutputCategories | crossword-engine/scripts/download_wordlists.py:125-127 | every category except "frequency" gets a list, and no other |
| DownloadWordlists.OutputStep | crossword-engine/scripts/download_wordlists.py:125-127 | one more category adds itself unless it is "frequency" |
| DownloadWordlists.WordlistText | crossword-engine/scripts/download_wordlists.py:83-85 | the words sorted without duplicates, each line ended by "\n", empty exactly for no words; the text lists exactly the words |
| DownloadWordlists.ListsWordsUnique | crossword-engine/scripts/download_wordlists.py:83-85 | a set of words has exactly one list text |
| DownloadWordlists.WordsHaveNoBreak | crossword-engine/scripts/download_wordlists.py:131-135 | normalised words contain no line break, so each lands on its own line |
| DownloadWordlists.FilesForAppend | crossword-engine/scripts/download_wordlists.py:125-139 | adding a category's correct file keeps every file correct |
| DownloadWordlists.CategoryFile | crossword-engine/scripts/download_wordlists.py:128-139 | one category's file is named "<category>.txt" and lists exactly that category's words |
| DownloadWordlists.DownloadAll | crossword-engine/scripts/download_wordlists.py:119-142 | one file per category other than "frequency", in the sources' order, each listing its category's words under the frequency filter |
| RunEngine.PuzzleIdFromHash | crossword-engine/run_engine.py:15-16 | the id is "mcw_v1_" followed by the first 16 characters of the hash, or all of a shorter one |
| RunEngine.PuzzleIdsAgree | crossword-engine/run_engine.py:15-16 | two full-length hashes get the same id exactly when their first 16 characters agree |
| RunEngine.LoadExistingHashes | crossword-engine/run_engine.py:19-22 | a missing file gives no hashes, and no loaded hash is empty |
| RunEngine.LinesTextSnoc | crossword-engine/run_engine.py:25-27 | appending one hash adds its line to the end of the file text |
| RunEngine.LinesTextAppend | crossword-engine/run_engine.py:25-27 | appending hash after hash gives the text of all their lines |
| RunEngine.HashFileReadsBack | crossword-engine/run_engine.py:19-27 | a hash file written by appending hashes loads back as exactly those hashes |
| RunEngine.StrippedHashes | crossword-engine/run_engine.py:22 | stripping the non-empty lines of plain hashes leaves the hashes |
| RunEngine.HashHexPlain | crossword-engine/run_engine.py:22 | a hex hash has no line break and no surrounding whitespace |
| RunEngine.MaxOf | crossword-engine/run_engine.py:29-39 | the running maximum from 0 bounds every index present and is 0 or one of them |
| RunEngine.MaxIndexBounds | crossword-engine/run_engine.py:28-40 | the largest index of the names bounds every index a matching name yields and is 0 or one of them |
| RunEngine.NextIndex | crossword-engine/run_engine.py:28-40 | the result is MaxIndex(names) + 1: at least 1, above every index a matching file name yields, and one more than such an index unless it is 1 |
| RunEngine.Zeros | crossword-engine/run_engine.py:117 | a run of n zero digits |
| RunEngine.Padded | crossword-engine/run_engine.py:117 | the six-digit zero-padded numeral has at least six characters, all digits |
| RunEngine.ZerosParse | crossword-engine/run_engine.py:38 | a run of zeros reads as 0 |
| RunEngine.ParseDigitsPadded | crossword-engine/run_engine.py:38 | leading zeros do not change the value of a numeral |
| RunEngine.PuzzleFileNameIndexed | crossword-engine/run_engine.py:28-40 | the name of a written puzzle file yields its own index back, so the next run numbers after it |
| RunEngine.StemSplits | crossword-engine/run_engine.py:33-35 | the stem of a written file splits on '_' into "puzzle" and its number |
| RunEngine.PaddedParses | crossword-engine/run_engine.py:38 | `int` of the padded numeral is the index |
| RunEngine.PaddedDigits | crossword-engine/run_engine.py:38 | the padded numeral's digits have the index's value |
| RunEngine.ParseIntDigits | crossword-engine/run_engine.py:38 | `int` of plain digits is their value |
| RunEngine.IndexOfName | crossword-engine/run_engine.py:32-40 | the index of a `puzzle_*.json` name with exactly two `_` parts and an integer second part, else None; see PuzzleFileNameIndexed and NextIndex |
| RunEngine.ParseInt | crossword-engine/run_engine.py:38-40 | `int()` of a stripped optionally signed numeral, None where Python raises ValueError; see ParseIntDigits |
| RunEngine.GridPreview | crossword-engine/run_engine.py:102-105 | one preview row per solution row |
| RunEngine.GridPreviewShows | crossword-engine/run_engine.py:102-105 | with one-letter cells, each preview row has one character per cell: '-' for a block and the letter otherwise |
| RunEngine.OutcomeFresh | crossword-engine/run_engine.py:96-124 | no known hash is written again, and no hash is written twice |
| RunEngine.OutcomeBounded | crossword-engine/run_engine.py:124-128 | with a positive max, the number written never passes it |
| RunEngine.OutcomeUnlimited | crossword-engine/run_engine.py:84-124 | without a max, a hash is written exactly when some attempt yields it and it was not known before |
| RunEngine.OutcomeStep | crossword-engine/run_engine.py:93-128 | one attempt: skipped without a puzzle or with a known hash; otherwise written, stopping when max is reached |
| RunEngine.Seen | crossword-engine/run_engine.py:120 | the set of the written hashes |
| RunEngine.TracksWrite | crossword-engine/run_engine.py:117-124 | writing one more puzzle keeps the record of files, known hashes, hash file text and index |
| RunEngine.GenerationLoop | crossword-engine/run_engine.py:83-131 | the loop writes exactly the outcome hashes, names the files with consecutive indices, knows the old and new hashes, appends each hash to the hash file and advances the index by the number written |
| RunEngine.Run | crossword-engine/run_engine.py:74-131 | the i-th written file is `puzzle_{MaxIndex(names) + 1 + i:06d}.json`, so the files are pairwise distinct and none clashes with a numbered file already there; no written hash was known before; the hash file gains exactly the written hashes |
| RunEngine.PuzzleFileNameInjective | crossword-engine/run_engine.py:117 | different indices give different file names |
| RunEngine.NumberedFilesFresh | crossword-engine/run_engine.py:117 | files numbered from above every index already present are none of the numbered names already there |
| RunEngine.NumberedFilesDistinct | crossword-engine/run_engine.py:117-123 | files numbered on from one index are pairwise distinct |
| RunEngine.AppendedHashFileReadsBack | crossword-engine/run_engine.py:19-27 | a hash file with a run's hashes appended loads back as the old hashes and the new ones |
| RunEngine.WritePuzzle | crossword-engine/run_engine.py:117-124 | writing a fresh puzzle records its hash as written and known, and keeps the record of files, hash file text and index |
| Text.IntToDecimalInjective | mini-crossword/Domain/Logic/ChallengeLogic.swift:5 | different indices are written as different numerals |
| Text.ParseNatToDecimal | mini-crossword/Domain/Logic/ChallengeLogic.swift:5 | a written numeral reads back as its number |
| Text.Strip | generate_challenge.py:19 | a stripped text neither starts nor ends with a stripped character |
| Text.StripExactly | generate_challenge.py:19 | the stripped text is the slice of the input left after cutting only stripped characters from either end; with Strip's own clause this is `str.strip` exactly |
| Text.SplitTwo | crossword-engine/run_engine.py:34-35 | a stem splits into exactly two parts iff it holds exactly one separator, between them |
| Text.SplitJoin | crossword-engine/crossword_engine/hashing.py:14 | splitting a join of separator-free parts gives the parts back |
| Text.LinesText | crossword-engine/scripts/download_wordlists.py:85 | the written text is empty exactly when there are no lines |
| Text.SplitLinesText | crossword-engine/scripts/remove_low_confidence_words.py:80-98 | text written from break-free lines is split back into exactly those lines |
| Text.SplitLines | crossword-engine/run_engine.py:22 | Python's `str.splitlines` on the line breaks it recognises; SplitLinesText and SplitLinesNoBreak state its round trip and that no line holds a break |

## Left out

- SwiftUI views and layout (the screen bodies, calendar cells, paywall overlay, theme colours) are not modelled: they hold no logic beyond the actions above.
- Monetization and access checks are left out because they are asynchronous and call StoreKit and the ads SDK. This covers AccessManager, PremiumManager and the ad managers. The tap dispatch takes the access decision as a parameter.
- The file- and bundle-backed stores are left out as file I/O and JSON coding. This covers the puzzle loaders, FilePuzzleStore, FilePuzzleProgressStore and the unlock store. The model has the in-memory puzzle store and progress lookups as functions.
- Foundation calendars and date formatters are left out as foreign code. Dates are day ordinals, and the date text is a parameter.
- ChallengeLogic.SortSummaries: `localizedCaseInsensitiveCompare` is modelled as ASCII case folding followed by code-point order. Ties are kept in input order, which Swift's `sorted(by:)` does not promise.
- Navigation.OrderedEntries: exact ties of (row, column, number) are kept in input order, which Swift's `sorted(by:)` does not promise.
- ChallengeList.Summaries: the summaries carry no puzzle folder or file list, as the Swift initializer call passes neither.
- CrosswordGrid.ValidateBlackCells: Python's set iteration order is unspecified, so the search starts from an arbitrary unvisited cell. The result is shown independent of that order only when every black cell is in bounds.
- WordList.WordIndex.Candidates: the words are listed in ascending index order, where Python iterates a set in an order it does not specify. The contract states the listed words as a multiset, not their order.
- `solve_grid` and the search in `generate_puzzle` are left out: they depend on a shuffled random source, a wall-clock deadline and a timeout exception. The engine loop takes their outcomes as a sequence of attempts.
- The SHA-256 digest of the canonical text is left out. Hashes are opaque strings of hex digits.
- Unicode is not modelled. Case mapping, whitespace and `str.isspace` are ASCII. Line breaks are the ASCII ones plus the common Unicode separators. `int()` accepts ASCII digits with an optional sign and surrounding whitespace, without underscores or non-ASCII digits.
- JSON numbers are integers. Floats are not modelled.
- DownloadWordlists: fetching sources over the network (`fetch_text`, `fetch_json`, `collect_words_for_source`) is left out. Each source is given as the raw words it yielded, and `str(raw)` of non-string JSON items is not modelled.
- Command-line parsing, printing, file writes, moves and copies are left out as side effects of the scripts. The model returns the texts and records that would be written.
- RemoveLowConfidence: the `main` of the removal script only sums and prints per-file results, so only the per-file operation is modelled.
- GenerateChallenge: `list_bank_puzzles` and `write_catalog` are left out as file I/O. The bank's sorted file names and the existing folders are parameters. The catalog's JSON formatting is not modelled.
- GenerateChallenge.ExistingIds: only string ids are collected. Python also adds `None`, numbers and booleans from items without a string id, but these never equal a string candidate id. A list or object id makes Python raise TypeError; `AddChallenge` refuses that case (`IdUnhashable`) before calling it.
- RunEngine.Run: loading the word lists and the exit when none load are left out, as are the sleep between puzzles, the keyboard interrupt and the JSON contents of the written puzzle files. The loop runs over a finite sequence of attempts, where the script runs until `--max` is reached or it is interrupted.
- The Python scripts each define their own `normalize_word`, identical to the engine's. All of them are modelled by `WordList.NormalizeWord`.
