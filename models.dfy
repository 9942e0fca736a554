/**
 * The app's value types: grid coordinates, clue entries, puzzles, saved progress
 * and challenge records. Swift's `Int` is an unbounded `int` here; letters are
 * strings, and a grid is a ragged sequence of rows of optional letters.
 */
module Models {
  import opened Wrappers

  datatype Coordinate = Coordinate(row: int, col: int)

  /** The cell lies in [0, height) × [0, width). */
  predicate InGrid(c: Coordinate, width: int, height: int) {
    0 <= c.row < height && 0 <= c.col < width
  }

  /** Row-major order on cells. */
  predicate RowMajorBefore(a: Coordinate, b: Coordinate) {
    a.row < b.row || (a.row == b.row && a.col < b.col)
  }

  /**
   * A row-major scan over half-open ranges traps on a negative bound: the height must be
   * non-negative, and the width too once a row is visited.
   */
  predicate RangesValid(width: int, height: int) {
    height >= 0 && (height > 0 ==> width >= 0)
  }

  /** One clue of the puzzle: its number, the cells it covers in reading order, its answer and clue text. */
  datatype Entry = Entry(number: int, cells: seq<Coordinate>, answer: string, clue: string) {
    /** The entry's first cell, absent when it has no cells. */
    function Start(): (c: Option<Coordinate>)
      ensures c.Some? <==> |cells| > 0
      ensures c.Some? ==> c.value == cells[0]
    {
      if cells == [] then None else Some(cells[0])
    }
  }

  /** The across and down entry lists of a puzzle. */
  datatype PuzzleEntries = PuzzleEntries(across: seq<Entry>, down: seq<Entry>)

  type Grid = seq<seq<Option<string>>>

  datatype Puzzle = Puzzle(
    id: string,
    date: string,
    width: int,
    height: int,
    blackCells: seq<Coordinate>,
    gridSolution: Grid,
    entries: PuzzleEntries,
    gridPreview: Option<seq<string>>)
  {
    function BlackCellSet(): (s: set<Coordinate>)
      ensures forall c :: c in s <==> c in blackCells
    {
      set c | c in blackCells
    }

    /** The same puzzle assigned to another day. */
    function WithDate(d: string): (p: Puzzle)
      ensures p.date == d
      ensures p.id == id && p.width == width && p.height == height && p.blackCells == blackCells
      ensures p.gridSolution == gridSolution && p.entries == entries && p.gridPreview == gridPreview
    {
      Puzzle(id, d, width, height, blackCells, gridSolution, entries, gridPreview)
    }
  }

  /** Re-dating twice keeps only the last date, and re-dating to the own date changes nothing. */
  lemma WithDateLaws(p: Puzzle, d1: string, d2: string)
    ensures p.WithDate(d1).WithDate(d2) == p.WithDate(d2)
    ensures p.WithDate(p.date) == p
  {
  }

  datatype Difficulty = Easy | Medium | Hard

  datatype PuzzleProgress = PuzzleProgress(
    puzzleId: string,
    filledGrid: Grid,
    lockedCells: seq<Coordinate>,
    hintsUsed: int,
    difficulty: Difficulty,
    isComplete: bool)

  /** A challenge as listed in the bundled catalog. */
  datatype ChallengeDefinition = ChallengeDefinition(
    id: string,
    name: string,
    puzzleFile: string,
    puzzleCount: int,
    puzzleFolder: Option<string>,
    puzzleFiles: Option<seq<string>>)

  /** A challenge together with the player's progress through it. */
  datatype ChallengeSummary = ChallengeSummary(
    id: string,
    name: string,
    puzzleFile: string,
    puzzleCount: int,
    puzzleFolder: Option<string>,
    puzzleFiles: Option<seq<string>>,
    completedCount: int,
    isComplete: bool)
}
