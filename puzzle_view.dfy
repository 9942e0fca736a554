/**
 * The solving screen's state and its edit actions: a fill grid of optional letters
 * that is written in place, the navigation cursor, and the selected difficulty.
 * Typing a letter fills the active cell and steps the cursor forward; backspace
 * clears the active cell; the clue bar's arrows move between entries of the phase.
 */
module PuzzleScreen {
  import opened Wrappers
  import opened Models
  import opened Navigation
  import opened Validation

  /** A height × width grid of absent letters. */
  function EmptyGrid(width: nat, height: nat): (g: Grid)
    ensures |g| == height
    ensures forall r :: 0 <= r < height ==> |g[r]| == width
    ensures forall c :: GridLetter(g, c).None?
  {
    seq(height, _ => seq(width, _ => None))
  }

  /** An empty grid is complete exactly when the puzzle has no fillable cell. */
  lemma EmptyGridComplete(width: nat, height: nat, blackCells: set<Coordinate>)
    ensures IsPuzzleComplete(width, height, blackCells, EmptyGrid(width, height))
        <==> FirstFillableCell(width, height, blackCells).None?
  {
  }

  class PuzzleView {
    const puzzle: Puzzle
    const filledGrid: array2<Option<string>>
    var navigationState: Option<NavigationState>
    var difficulty: Difficulty

    /** The grid keeps the puzzle's dimensions. */
    ghost predicate Valid()
      reads this
    {
      puzzle.width >= 0 && puzzle.height >= 0
      && filledGrid.Length0 == puzzle.height && filledGrid.Length1 == puzzle.width
    }

    /** The fill grid as rows of optional letters. */
    function Contents(): (g: Grid)
      reads this, filledGrid
      ensures |g| == filledGrid.Length0
      ensures forall r :: 0 <= r < |g| ==> |g[r]| == filledGrid.Length1
      ensures forall r, c :: 0 <= r < filledGrid.Length0 && 0 <= c < filledGrid.Length1 ==> g[r][c] == filledGrid[r, c]
    {
      seq(filledGrid.Length0, r reads filledGrid requires 0 <= r < filledGrid.Length0 =>
        seq(filledGrid.Length1, c reads filledGrid requires 0 <= c < filledGrid.Length1 => filledGrid[r, c]))
    }

    /**
     * A fresh screen: an empty grid of the puzzle's size and the cursor at the puzzle's
     * initial state. The grid's dimensions must not be negative.
     */
    constructor(puzzle: Puzzle)
      requires puzzle.width >= 0 && puzzle.height >= 0
      ensures Valid() && this.puzzle == puzzle
      ensures Contents() == EmptyGrid(puzzle.width, puzzle.height)
      ensures navigationState == InitialState(puzzle.entries.across, puzzle.entries.down,
                                              puzzle.width, puzzle.height, puzzle.BlackCellSet())
      ensures difficulty == Easy
    {
      this.puzzle := puzzle;
      filledGrid := new Option<string>[puzzle.height, puzzle.width]((_, _) => None);
      navigationState := InitialState(puzzle.entries.across, puzzle.entries.down,
                                      puzzle.width, puzzle.height, puzzle.BlackCellSet());
      difficulty := Easy;
      new;
      GridEquality(Contents(), EmptyGrid(puzzle.width, puzzle.height));
    }

    /** The cell the cursor is on, if the cursor is on a cell. */
    function ActiveCell(): (c: Option<Coordinate>)
      reads this
      ensures navigationState.None? ==> c.None?
      ensures navigationState.Some? ==>
        c == CellForState(navigationState.value, puzzle.entries.across, puzzle.entries.down)
    {
      match navigationState
      case None => None
      case Some(state) => CellForState(state, puzzle.entries.across, puzzle.entries.down)
    }

    /** The clue of the cursor's entry, or "" when there is no cursor or its entry does not exist. */
    function CurrentClue(): (clue: string)
      reads this
      ensures navigationState.None? ==> clue == ""
      ensures navigationState.Some? ==>
        var s := navigationState.value;
        var es := EntriesForPhase(s.phase, puzzle.entries.across, puzzle.entries.down);
        clue == (if 0 <= s.entryIndex < |es| then es[s.entryIndex].clue else "")
    {
      match navigationState
      case None => ""
      case Some(state) =>
        match At(EntriesForPhase(state.phase, puzzle.entries.across, puzzle.entries.down), state.entryIndex)
        case None => ""
        case Some(entry) => entry.clue
    }

    /**
     * Moves the cursor `offset` entries along the current phase, to the entry's first
     * cell. Nothing changes when there is no cursor or the target entry does not exist;
     * there is no wrap into the other phase.
     */
    method MoveEntry(offset: int)
      modifies this
      ensures difficulty == old(difficulty)
      ensures old(navigationState).None? ==> navigationState == old(navigationState)
      ensures old(navigationState).Some? ==>
        var s := old(navigationState).value;
        var es := EntriesForPhase(s.phase, puzzle.entries.across, puzzle.entries.down);
        navigationState == (if 0 <= s.entryIndex + offset < |es|
                            then Some(NavigationState(s.phase, s.entryIndex + offset, 0))
                            else old(navigationState))
    {
      match navigationState {
        case None =>
        case Some(state) =>
          var entries := EntriesForPhase(state.phase, puzzle.entries.across, puzzle.entries.down);
          var nextIndex := state.entryIndex + offset;
          if 0 <= nextIndex < |entries| {
            navigationState := Some(NavigationState(state.phase, nextIndex, 0));
          }
      }
    }

    /** The active cell, when there is one, lies inside the grid. */
    predicate ActiveCellInGrid()
      reads this
    {
      ActiveCell().Some? ==>
        0 <= ActiveCell().value.row < filledGrid.Length0 && 0 <= ActiveCell().value.col < filledGrid.Length1
    }

    /**
     * Types a letter: writes it into the active cell only and steps the cursor forward,
     * which may leave no cursor. Without an active cell nothing happens.
     */
    method Enter(letter: string)
      requires Valid() && ActiveCellInGrid()
      modifies this, filledGrid
      ensures Valid() && difficulty == old(difficulty)
      ensures old(ActiveCell()).None? ==> Contents() == old(Contents()) && navigationState == old(navigationState)
      ensures old(ActiveCell()).Some? ==>
        Contents() == SetCell(old(Contents()), old(ActiveCell()).value, Some(letter))
        && navigationState == AdvanceState(old(navigationState).value, puzzle.entries.across, puzzle.entries.down,
                                           puzzle.width, puzzle.height, puzzle.BlackCellSet())
    {
      var cell := ActiveCell();
      if cell.Some? {
        var c := cell.value;
        filledGrid[c.row, c.col] := Some(letter);
        var state := navigationState.value;
        navigationState := AdvanceState(state, puzzle.entries.across, puzzle.entries.down,
                                        puzzle.width, puzzle.height, puzzle.BlackCellSet());
        GridEquality(Contents(), SetCell(old(Contents()), c, Some(letter)));
      }
    }

    /** Clears the active cell only; the cursor stays where it is. */
    method Backspace()
      requires Valid() && ActiveCellInGrid()
      modifies filledGrid
      ensures Valid()
      ensures old(ActiveCell()).None? ==> Contents() == old(Contents())
      ensures old(ActiveCell()).Some? ==> Contents() == SetCell(old(Contents()), old(ActiveCell()).value, None)
    {
      ghost var before := Contents();
      var cell := ActiveCell();
      if cell.Some? {
        var c := cell.value;
        if filledGrid[c.row, c.col].Some? {
          filledGrid[c.row, c.col] := None;
        }
        GridEquality(Contents(), SetCell(before, c, None));
      }
    }
  }
}
