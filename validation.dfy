/**
 * Completion and correctness of a fill grid, for one entry and for the whole
 * puzzle. Grids are ragged: any cell outside them reads as absent.
 */
module Validation {
  import opened Wrappers
  import opened Models

  /** The letter at the cell, or None for a negative index, a missing row or a missing column. */
  function GridLetter(grid: Grid, cell: Coordinate): (r: Option<string>)
    ensures r.Some? <==> 0 <= cell.row < |grid| && 0 <= cell.col < |grid[cell.row]| && grid[cell.row][cell.col].Some?
    ensures r.Some? ==> r == grid[cell.row][cell.col]
  {
    if cell.row < 0 || cell.col < 0 then None
    else if cell.row >= |grid| then None
    else if cell.col >= |grid[cell.row]| then None
    else grid[cell.row][cell.col]
  }

  /** The cell holds a present, non-empty letter. */
  predicate Filled(filledGrid: Grid, cell: Coordinate) {
    GridLetter(filledGrid, cell).Some? && GridLetter(filledGrid, cell).value != ""
  }

  /** The cell holds a present, non-empty letter equal to the present solution letter. */
  predicate Matches(filledGrid: Grid, solutionGrid: Grid, cell: Coordinate) {
    Filled(filledGrid, cell) && GridLetter(solutionGrid, cell).Some?
    && GridLetter(filledGrid, cell).value == GridLetter(solutionGrid, cell).value
  }

  function AllFilled(cells: seq<Coordinate>, filledGrid: Grid): (r: bool)
    ensures r <==> forall i :: 0 <= i < |cells| ==> Filled(filledGrid, cells[i])
  {
    if cells == [] then true
    else if !Filled(filledGrid, cells[0]) then false
    else
      assert forall i :: 1 <= i < |cells| ==> cells[i] == cells[1..][i - 1];
      AllFilled(cells[1..], filledGrid)
  }

  function AllMatch(cells: seq<Coordinate>, filledGrid: Grid, solutionGrid: Grid): (r: bool)
    ensures r <==> forall i :: 0 <= i < |cells| ==> Matches(filledGrid, solutionGrid, cells[i])
  {
    if cells == [] then true
    else if !Matches(filledGrid, solutionGrid, cells[0]) then false
    else
      assert forall i :: 1 <= i < |cells| ==> cells[i] == cells[1..][i - 1];
      AllMatch(cells[1..], filledGrid, solutionGrid)
  }

  /** Every cell of the entry is filled; an entry without cells is complete. */
  function IsEntryComplete(entry: Entry, filledGrid: Grid): (r: bool)
    ensures r <==> forall i :: 0 <= i < |entry.cells| ==> Filled(filledGrid, entry.cells[i])
  {
    AllFilled(entry.cells, filledGrid)
  }

  /** Every cell of the entry is filled with its solution letter. */
  function IsEntryCorrect(entry: Entry, filledGrid: Grid, solutionGrid: Grid): (r: bool)
    ensures r <==> forall i :: 0 <= i < |entry.cells| ==> Matches(filledGrid, solutionGrid, entry.cells[i])
  {
    AllMatch(entry.cells, filledGrid, solutionGrid)
  }

  lemma EntryCorrectIsComplete(entry: Entry, filledGrid: Grid, solutionGrid: Grid)
    requires IsEntryCorrect(entry, filledGrid, solutionGrid)
    ensures IsEntryComplete(entry, filledGrid)
  {
    forall i | 0 <= i < |entry.cells| ensures Filled(filledGrid, entry.cells[i]) {
      assert Matches(filledGrid, solutionGrid, entry.cells[i]);
    }
  }

  /** A cell of the entry with no solution letter makes the entry incorrect, whatever is filled in. */
  lemma EntryIncorrectWithoutSolution(entry: Entry, filledGrid: Grid, solutionGrid: Grid, i: int)
    requires 0 <= i < |entry.cells| && GridLetter(solutionGrid, entry.cells[i]).None?
    ensures !IsEntryCorrect(entry, filledGrid, solutionGrid)
  {
    assert !Matches(filledGrid, solutionGrid, entry.cells[i]);
  }

  // ---------------------------------------------------------------------------
  // The whole puzzle

  function RowComplete(row: int, col: int, width: int, blackCells: set<Coordinate>, filledGrid: Grid): (r: bool)
    requires 0 <= col <= width
    ensures r <==> forall k :: col <= k < width && Coordinate(row, k) !in blackCells ==> Filled(filledGrid, Coordinate(row, k))
    decreases width - col
  {
    if col == width then true
    else if Coordinate(row, col) !in blackCells && !Filled(filledGrid, Coordinate(row, col)) then false
    else RowComplete(row, col + 1, width, blackCells, filledGrid)
  }

  function RowsComplete(row: int, width: int, height: int, blackCells: set<Coordinate>, filledGrid: Grid): (r: bool)
    requires 0 <= row <= height && (row < height ==> width >= 0)
    ensures r <==> forall c :: InGrid(c, width, height) && row <= c.row && c !in blackCells ==> Filled(filledGrid, c)
    decreases height - row
  {
    if row == height then true
    else if !RowComplete(row, 0, width, blackCells, filledGrid) then false
    else
      var r := RowsComplete(row + 1, width, height, blackCells, filledGrid);
      assert forall c :: InGrid(c, width, height) && c.row == row && c !in blackCells ==> Filled(filledGrid, c) by {
        forall c | InGrid(c, width, height) && c.row == row && c !in blackCells ensures Filled(filledGrid, c) {
          assert c == Coordinate(row, c.col);
        }
      }
      r
  }

  /** Every non-black cell of [0, height) × [0, width) is filled; black cells are never read. */
  function IsPuzzleComplete(width: int, height: int, blackCells: set<Coordinate>, filledGrid: Grid): (r: bool)
    requires RangesValid(width, height)
    ensures r <==> forall c :: InGrid(c, width, height) && c !in blackCells ==> Filled(filledGrid, c)
  {
    RowsComplete(0, width, height, blackCells, filledGrid)
  }

  function RowCorrect(row: int, col: int, width: int, blackCells: set<Coordinate>, filledGrid: Grid, solutionGrid: Grid): (r: bool)
    requires 0 <= col <= width
    ensures r <==> forall k :: col <= k < width && Coordinate(row, k) !in blackCells ==> Matches(filledGrid, solutionGrid, Coordinate(row, k))
    decreases width - col
  {
    if col == width then true
    else if Coordinate(row, col) !in blackCells && !Matches(filledGrid, solutionGrid, Coordinate(row, col)) then false
    else RowCorrect(row, col + 1, width, blackCells, filledGrid, solutionGrid)
  }

  function RowsCorrect(row: int, width: int, height: int, blackCells: set<Coordinate>, filledGrid: Grid, solutionGrid: Grid): (r: bool)
    requires 0 <= row <= height && (row < height ==> width >= 0)
    ensures r <==> forall c :: InGrid(c, width, height) && row <= c.row && c !in blackCells ==> Matches(filledGrid, solutionGrid, c)
    decreases height - row
  {
    if row == height then true
    else if !RowCorrect(row, 0, width, blackCells, filledGrid, solutionGrid) then false
    else
      var r := RowsCorrect(row + 1, width, height, blackCells, filledGrid, solutionGrid);
      assert forall c :: InGrid(c, width, height) && c.row == row && c !in blackCells ==> Matches(filledGrid, solutionGrid, c) by {
        forall c | InGrid(c, width, height) && c.row == row && c !in blackCells ensures Matches(filledGrid, solutionGrid, c) {
          assert c == Coordinate(row, c.col);
        }
      }
      r
  }

  /** Every non-black cell of [0, height) × [0, width) is filled with its solution letter. */
  function IsPuzzleCorrect(width: int, height: int, blackCells: set<Coordinate>, filledGrid: Grid, solutionGrid: Grid): (r: bool)
    requires RangesValid(width, height)
    ensures r <==> forall c :: InGrid(c, width, height) && c !in blackCells ==> Matches(filledGrid, solutionGrid, c)
  {
    RowsCorrect(0, width, height, blackCells, filledGrid, solutionGrid)
  }

  lemma PuzzleCorrectIsComplete(width: int, height: int, blackCells: set<Coordinate>, filledGrid: Grid, solutionGrid: Grid)
    requires RangesValid(width, height)
    requires IsPuzzleCorrect(width, height, blackCells, filledGrid, solutionGrid)
    ensures IsPuzzleComplete(width, height, blackCells, filledGrid)
  {
  }

  /** A complete puzzle completes every entry that stays on non-black cells of the grid. */
  lemma PuzzleCompleteEntries(width: int, height: int, blackCells: set<Coordinate>, filledGrid: Grid, entry: Entry)
    requires RangesValid(width, height)
    requires IsPuzzleComplete(width, height, blackCells, filledGrid)
    requires forall i :: 0 <= i < |entry.cells| ==> InGrid(entry.cells[i], width, height) && entry.cells[i] !in blackCells
    ensures IsEntryComplete(entry, filledGrid)
  {
  }

  /**
   * Filling in the solution itself is correct and complete, as long as the solution
   * has a non-empty letter at every non-black cell.
   */
  lemma SolutionIsCorrect(width: int, height: int, blackCells: set<Coordinate>, solutionGrid: Grid)
    requires RangesValid(width, height)
    requires forall c :: InGrid(c, width, height) && c !in blackCells ==> Filled(solutionGrid, c)
    ensures IsPuzzleCorrect(width, height, blackCells, solutionGrid, solutionGrid)
    ensures IsPuzzleComplete(width, height, blackCells, solutionGrid)
  {
  }

  /** Grids with the same shape and the same letters are equal. */
  lemma GridEquality(a: Grid, b: Grid)
    requires |a| == |b| && forall r :: 0 <= r < |a| ==> |a[r]| == |b[r]|
    requires forall r, c :: 0 <= r < |a| && 0 <= c < |a[r]| ==> a[r][c] == b[r][c]
    ensures a == b
  {
    forall r | 0 <= r < |a| ensures a[r] == b[r] {
    }
  }

  /** The grid with the cell at (row, col) replaced; the cell must exist. */
  function SetCell(grid: Grid, cell: Coordinate, v: Option<string>): (g: Grid)
    requires 0 <= cell.row < |grid| && 0 <= cell.col < |grid[cell.row]|
    ensures GridLetter(g, cell) == v
    ensures forall c :: c != cell ==> GridLetter(g, c) == GridLetter(grid, c)
    ensures |g| == |grid| && forall r :: 0 <= r < |g| ==> |g[r]| == |grid[r]|
    ensures forall r, c :: 0 <= r < |g| && 0 <= c < |g[r]| ==>
      g[r][c] == if r == cell.row && c == cell.col then v else grid[r][c]
  {
    grid[cell.row := grid[cell.row][cell.col := v]]
  }

  /** Blanking one cell of an entry makes the entry incomplete, and the puzzle too when the cell is a non-black grid cell. */
  lemma BlankingMakesIncomplete(width: int, height: int, blackCells: set<Coordinate>, filledGrid: Grid, entry: Entry, i: int)
    requires RangesValid(width, height)
    requires 0 <= i < |entry.cells|
    requires 0 <= entry.cells[i].row < |filledGrid| && 0 <= entry.cells[i].col < |filledGrid[entry.cells[i].row]|
    ensures !IsEntryComplete(entry, SetCell(filledGrid, entry.cells[i], None))
    ensures InGrid(entry.cells[i], width, height) && entry.cells[i] !in blackCells ==>
      !IsPuzzleComplete(width, height, blackCells, SetCell(filledGrid, entry.cells[i], None))
  {
    assert !Filled(SetCell(filledGrid, entry.cells[i], None), entry.cells[i]);
  }
}
