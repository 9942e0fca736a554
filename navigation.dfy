/**
 * Cursor navigation over a puzzle's entries: the canonical entry order, the
 * starting cell, stepping forward through the across entries and then the down
 * entries, and the cell a hint applies to. Everything here is a total function;
 * out-of-range positions give `None` rather than trapping.
 */
module Navigation {
  import opened Wrappers
  import opened Models
  import opened Sorting

  datatype NavigationPhase = Across | Down

  /** The cursor: which phase, which entry of that phase's ordered list, which cell of the entry. */
  datatype NavigationState = NavigationState(phase: NavigationPhase, entryIndex: int, cellIndex: int)

  /** Swift's `Int.max` on a 64-bit platform. */
  const IntMax: int := 0x7FFF_FFFF_FFFF_FFFF

  /** The sort key's coordinate: the entry's start, or (Int.max, Int.max) for an entry without cells. */
  function SortStart(e: Entry): (c: Coordinate)
    ensures e.cells != [] ==> c == e.cells[0]
    ensures e.cells == [] ==> c == Coordinate(IntMax, IntMax)
  {
    e.Start().GetOr(Coordinate(IntMax, IntMax))
  }

  /** The comparator of `orderedEntries`: by start row, then start column, then number. */
  predicate EntryBefore(a: Entry, b: Entry) {
    var l, r := SortStart(a), SortStart(b);
    if l.row != r.row then l.row < r.row
    else if l.col != r.col then l.col < r.col
    else a.number < b.number
  }

  predicate EntryNotAfter(a: Entry, b: Entry) {
    !EntryBefore(b, a)
  }

  lemma EntryOrder()
    ensures TotalPreorder(EntryNotAfter)
  {
  }

  /**
   * The entries sorted by (start row, start column, number). Entries with equal keys
   * keep their input order.
   */
  function OrderedEntries(entries: seq<Entry>): (r: seq<Entry>)
    ensures multiset(r) == multiset(entries)
    ensures SortedBy(r, EntryNotAfter)
  {
    EntryOrder();
    SortBySorted(entries, EntryNotAfter);
    SortBy(entries, EntryNotAfter)
  }

  /** Entries that share a sort key appear in the same relative order as in the input. */
  lemma OrderedEntriesStable(entries: seq<Entry>, y: Entry)
    ensures EquivalentTo(OrderedEntries(entries), y, EntryNotAfter) == EquivalentTo(entries, y, EntryNotAfter)
  {
    EntryOrder();
    SortByStable(entries, y, EntryNotAfter);
  }

  /** Swift's `array[safe: i]`. */
  function At<T>(s: seq<T>, i: int): (r: Option<T>)
    ensures r.Some? <==> 0 <= i < |s|
    ensures r.Some? ==> r.value == s[i]
  {
    if 0 <= i < |s| then Some(s[i]) else None
  }

  // ---------------------------------------------------------------------------
  // The first fillable cell

  function FirstInRow(row: int, col: int, width: int, blackCells: set<Coordinate>): (r: Option<Coordinate>)
    requires 0 <= col <= width
    ensures r.Some? ==> r.value.row == row && col <= r.value.col < width && r.value !in blackCells
    ensures r.Some? ==> forall k :: col <= k < r.value.col ==> Coordinate(row, k) in blackCells
    ensures r.None? ==> forall k :: col <= k < width ==> Coordinate(row, k) in blackCells
    decreases width - col
  {
    if col == width then None
    else if Coordinate(row, col) !in blackCells then Some(Coordinate(row, col))
    else FirstInRow(row, col + 1, width, blackCells)
  }

  function FirstFromRow(row: int, width: int, height: int, blackCells: set<Coordinate>): (r: Option<Coordinate>)
    requires 0 <= row <= height && (row < height ==> width >= 0)
    ensures r.Some? ==> row <= r.value.row && InGrid(r.value, width, height) && r.value !in blackCells
    ensures r.Some? ==> forall c :: InGrid(c, width, height) && row <= c.row && RowMajorBefore(c, r.value) ==> c in blackCells
    ensures r.None? ==> forall c :: InGrid(c, width, height) && row <= c.row ==> c in blackCells
    decreases height - row
  {
    if row == height then None
    else
      match FirstInRow(row, 0, width, blackCells)
      case Some(c) => Some(c)
      case None =>
        var r := FirstFromRow(row + 1, width, height, blackCells);
        assert forall c :: InGrid(c, width, height) && c.row == row ==> c in blackCells by {
          forall c | InGrid(c, width, height) && c.row == row ensures c in blackCells {
            assert c == Coordinate(row, c.col);
          }
        }
        r
  }

  /** The first cell in row-major order of [0, height) × [0, width) that is not black. */
  function FirstFillableCell(width: int, height: int, blackCells: set<Coordinate>): (r: Option<Coordinate>)
    requires RangesValid(width, height)
    ensures r.Some? ==> InGrid(r.value, width, height) && r.value !in blackCells
    ensures r.Some? ==> forall c :: InGrid(c, width, height) && RowMajorBefore(c, r.value) ==> c in blackCells
    ensures r.None? <==> forall c :: InGrid(c, width, height) ==> c in blackCells
  {
    FirstFromRow(0, width, height, blackCells)
  }

  // ---------------------------------------------------------------------------
  // Locating a cell among entries

  /** Swift's `cells.firstIndex(of: cell)`. */
  function IndexOfCell(cells: seq<Coordinate>, cell: Coordinate): (r: Option<nat>)
    ensures r.Some? ==> r.value < |cells| && cells[r.value] == cell && cell !in cells[..r.value]
    ensures r.None? <==> cell !in cells
  {
    if cells == [] then None
    else if cells[0] == cell then Some(0)
    else
      match IndexOfCell(cells[1..], cell)
      case None => None
      case Some(i) => assert cells[..i + 1] == [cells[0]] + cells[1..][..i]; Some(i + 1)
  }

  function EntryContainingFrom(entries: seq<Entry>, cell: Coordinate, from: nat): (r: Option<(int, int)>)
    requires from <= |entries|
    ensures r.Some? ==> var (i, j) := r.value;
      from <= i < |entries| && 0 <= j < |entries[i].cells| && entries[i].cells[j] == cell
      && cell !in entries[i].cells[..j]
      && forall k :: from <= k < i ==> cell !in entries[k].cells
    ensures r.None? <==> forall k :: from <= k < |entries| ==> cell !in entries[k].cells
    decreases |entries| - from
  {
    if from == |entries| then None
    else
      match IndexOfCell(entries[from].cells, cell)
      case Some(j) => Some((from, j as int))
      case None => EntryContainingFrom(entries, cell, from + 1)
  }

  /** Entry `i` is the first entry holding `cell`, and `j` is the cell's first position in it. */
  predicate FirstHolder(entries: seq<Entry>, cell: Coordinate, i: int, j: int) {
    && 0 <= i < |entries| && 0 <= j < |entries[i].cells| && entries[i].cells[j] == cell
    && cell !in entries[i].cells[..j]
    && forall k :: 0 <= k < i ==> cell !in entries[k].cells
  }

  /**
   * The first entry whose cells contain the cell, with the cell's first position in it,
   * or None when no entry contains the cell.
   */
  function EntryContainingCell(entries: seq<Entry>, cell: Coordinate): (r: Option<(int, int)>)
    ensures r.Some? ==> var (i, j) := r.value;
      0 <= i < |entries| && 0 <= j < |entries[i].cells| && entries[i].cells[j] == cell
      && cell !in entries[i].cells[..j]
      && forall k :: 0 <= k < i ==> cell !in entries[k].cells
    ensures r.None? <==> forall k :: 0 <= k < |entries| ==> cell !in entries[k].cells
  {
    EntryContainingFrom(entries, cell, 0)
  }

  // ---------------------------------------------------------------------------
  // States

  /** The ordered entry list the phase's indices refer to. */
  function EntriesForPhase(phase: NavigationPhase, acrossEntries: seq<Entry>, downEntries: seq<Entry>): (r: seq<Entry>)
    ensures phase == Across ==> multiset(r) == multiset(acrossEntries)
    ensures phase == Down ==> multiset(r) == multiset(downEntries)
    ensures SortedBy(r, EntryNotAfter)
  {
    match phase
    case Across => OrderedEntries(acrossEntries)
    case Down => OrderedEntries(downEntries)
  }

  /** The cell the state points at, or None when either index is out of range. */
  function CellForState(state: NavigationState, acrossEntries: seq<Entry>, downEntries: seq<Entry>): (r: Option<Coordinate>)
    ensures var es := EntriesForPhase(state.phase, acrossEntries, downEntries);
      r.Some? <==> 0 <= state.entryIndex < |es| && 0 <= state.cellIndex < |es[state.entryIndex].cells|
    ensures r.Some? ==> r.value == EntriesForPhase(state.phase, acrossEntries, downEntries)[state.entryIndex].cells[state.cellIndex]
  {
    match At(EntriesForPhase(state.phase, acrossEntries, downEntries), state.entryIndex)
    case None => None
    case Some(entry) => At(entry.cells, state.cellIndex)
  }

  /**
   * The starting state: the across entry (in canonical order) that contains the first
   * fillable cell, at that cell. None when there is no fillable cell or no across entry
   * covers it.
   */
  function InitialState(acrossEntries: seq<Entry>, downEntries: seq<Entry>, width: int, height: int,
                        blackCells: set<Coordinate>): (r: Option<NavigationState>)
    requires RangesValid(width, height)
    ensures r.Some? ==> r.value.phase == Across
    ensures r.Some? ==> CellForState(r.value, acrossEntries, downEntries) == FirstFillableCell(width, height, blackCells)
    ensures r.Some? ==>
      && FirstFillableCell(width, height, blackCells).Some?
      && FirstHolder(OrderedEntries(acrossEntries), FirstFillableCell(width, height, blackCells).value,
                     r.value.entryIndex, r.value.cellIndex)
    ensures r.None? <==> (FirstFillableCell(width, height, blackCells).None? ||
      forall k :: 0 <= k < |acrossEntries| ==> FirstFillableCell(width, height, blackCells).value !in acrossEntries[k].cells)
  {
    var orderedAcross := OrderedEntries(acrossEntries);
    match FirstFillableCell(width, height, blackCells)
    case None => None
    case Some(startCell) =>
      match EntryContainingCell(orderedAcross, startCell)
      case None =>
        assert forall k :: 0 <= k < |acrossEntries| ==> startCell !in acrossEntries[k].cells by {
          forall k | 0 <= k < |acrossEntries| ensures startCell !in acrossEntries[k].cells {
            assert acrossEntries[k] in multiset(orderedAcross);
          }
        }
        None
      case Some((i, j)) =>
        assert orderedAcross[i] in multiset(acrossEntries);
        Some(NavigationState(Across, i, j))
  }

  /** The state is at the last cell (or past it) of the last entry of the across phase. */
  predicate AtAcrossHandOff(state: NavigationState, acrossEntries: seq<Entry>) {
    var es := OrderedEntries(acrossEntries);
    state.phase == Across && 0 <= state.entryIndex < |es|
    && state.cellIndex + 1 >= |es[state.entryIndex].cells| && state.entryIndex + 1 >= |es|
  }

  /** Where the down phase begins: the down entry (in canonical order) containing the first fillable cell. */
  function DownStart(acrossEntries: seq<Entry>, downEntries: seq<Entry>, width: int, height: int,
                     blackCells: set<Coordinate>): (r: Option<NavigationState>)
    requires RangesValid(width, height)
    ensures r.Some? <==> (FirstFillableCell(width, height, blackCells).Some? &&
      exists k :: 0 <= k < |downEntries| && FirstFillableCell(width, height, blackCells).value in downEntries[k].cells)
    ensures r.Some? ==>
      r.value.phase == Down && CellForState(r.value, acrossEntries, downEntries) == FirstFillableCell(width, height, blackCells)
    ensures r.Some? ==> FirstHolder(OrderedEntries(downEntries), FirstFillableCell(width, height, blackCells).value,
                                    r.value.entryIndex, r.value.cellIndex)
  {
    var orderedDown := OrderedEntries(downEntries);
    match FirstFillableCell(width, height, blackCells)
    case None => None
    case Some(startCell) =>
      match EntryContainingCell(orderedDown, startCell)
      case None =>
        assert forall k :: 0 <= k < |downEntries| ==> startCell !in downEntries[k].cells by {
          forall k | 0 <= k < |downEntries| ensures startCell !in downEntries[k].cells {
            assert downEntries[k] in multiset(orderedDown);
          }
        }
        None
      case Some((i, j)) =>
        assert orderedDown[i] in multiset(downEntries);
        Some(NavigationState(Down, i, j))
  }

  /**
   * One step forward: the next cell of the entry, else the first cell of the next entry
   * of the phase; after the across phase, the down entry containing the first fillable
   * cell; after the down phase, None.
   */
  function AdvanceState(state: NavigationState, acrossEntries: seq<Entry>, downEntries: seq<Entry>,
                        width: int, height: int, blackCells: set<Coordinate>): (r: Option<NavigationState>)
    requires AtAcrossHandOff(state, acrossEntries) ==> RangesValid(width, height)
    ensures var es := EntriesForPhase(state.phase, acrossEntries, downEntries);
      !(0 <= state.entryIndex < |es|) ==> r.None?
    ensures var es := EntriesForPhase(state.phase, acrossEntries, downEntries);
      0 <= state.entryIndex < |es| && state.cellIndex + 1 < |es[state.entryIndex].cells| ==>
        r == Some(NavigationState(state.phase, state.entryIndex, state.cellIndex + 1))
    ensures var es := EntriesForPhase(state.phase, acrossEntries, downEntries);
      0 <= state.entryIndex < |es| && state.cellIndex + 1 >= |es[state.entryIndex].cells| && state.entryIndex + 1 < |es| ==>
        r == Some(NavigationState(state.phase, state.entryIndex + 1, 0))
    ensures var es := EntriesForPhase(Down, acrossEntries, downEntries);
      (state.phase == Down && 0 <= state.entryIndex < |es| && state.entryIndex + 1 >= |es|
       && state.cellIndex + 1 >= |es[state.entryIndex].cells|) ==> r.None?
    ensures AtAcrossHandOff(state, acrossEntries) ==> r == DownStart(acrossEntries, downEntries, width, height, blackCells)
  {
    var es := EntriesForPhase(state.phase, acrossEntries, downEntries);
    if !(0 <= state.entryIndex < |es|) then None
    else if state.cellIndex + 1 < |es[state.entryIndex].cells| then
      Some(NavigationState(state.phase, state.entryIndex, state.cellIndex + 1))
    else if state.entryIndex + 1 < |es| then
      Some(NavigationState(state.phase, state.entryIndex + 1, 0))
    else if state.phase == Across then
      DownStart(acrossEntries, downEntries, width, height, blackCells)
    else None
  }

  /** The position of a state in the order the cursor visits states: across before down, then by indices. */
  predicate StateBefore(a: NavigationState, b: NavigationState) {
    if a.phase != b.phase then a.phase == Across
    else if a.entryIndex != b.entryIndex then a.entryIndex < b.entryIndex
    else a.cellIndex < b.cellIndex
  }

  /**
   * Every step moves strictly forward, out of the across phase only at the hand-off,
   * so repeated steps never revisit a state and the down phase is final.
   */
  lemma AdvanceMovesForward(state: NavigationState, acrossEntries: seq<Entry>, downEntries: seq<Entry>,
                            width: int, height: int, blackCells: set<Coordinate>)
    requires AtAcrossHandOff(state, acrossEntries) ==> RangesValid(width, height)
    requires AdvanceState(state, acrossEntries, downEntries, width, height, blackCells).Some?
    ensures var next := AdvanceState(state, acrossEntries, downEntries, width, height, blackCells).value;
      StateBefore(state, next) && (next.phase != state.phase ==> AtAcrossHandOff(state, acrossEntries))
  {
  }

  /**
   * From a state that points at a cell, a step lands on a cell again whenever every
   * entry has cells.
   */
  lemma AdvanceLandsOnCell(state: NavigationState, acrossEntries: seq<Entry>, downEntries: seq<Entry>,
                           width: int, height: int, blackCells: set<Coordinate>)
    requires AtAcrossHandOff(state, acrossEntries) ==> RangesValid(width, height)
    requires forall k :: 0 <= k < |acrossEntries| ==> acrossEntries[k].cells != []
    requires forall k :: 0 <= k < |downEntries| ==> downEntries[k].cells != []
    requires CellForState(state, acrossEntries, downEntries).Some?
    requires AdvanceState(state, acrossEntries, downEntries, width, height, blackCells).Some?
    ensures CellForState(AdvanceState(state, acrossEntries, downEntries, width, height, blackCells).value,
                         acrossEntries, downEntries).Some?
  {
    var next := AdvanceState(state, acrossEntries, downEntries, width, height, blackCells).value;
    var es := EntriesForPhase(state.phase, acrossEntries, downEntries);
    if AtAcrossHandOff(state, acrossEntries) {
      assert FirstFillableCell(width, height, blackCells).Some?;
    } else if state.cellIndex + 1 >= |es[state.entryIndex].cells| {
      assert next == NavigationState(state.phase, state.entryIndex + 1, 0);
      if state.phase == Across {
        assert es[state.entryIndex + 1] in multiset(acrossEntries);
      } else {
        assert es[state.entryIndex + 1] in multiset(downEntries);
      }
    }
  }

  /**
   * The cell a hint applies to: the current cell when it is not locked, otherwise the cell
   * one step further on, which is not checked for a lock again.
   */
  function HintTarget(state: NavigationState, acrossEntries: seq<Entry>, downEntries: seq<Entry>,
                      lockedCells: set<Coordinate>, width: int, height: int, blackCells: set<Coordinate>): (r: Option<Coordinate>)
    requires AtAcrossHandOff(state, acrossEntries) ==> RangesValid(width, height)
    ensures CellForState(state, acrossEntries, downEntries).None? ==> r.None?
    ensures var cur := CellForState(state, acrossEntries, downEntries);
      cur.Some? && cur.value !in lockedCells ==> r == cur
    ensures var cur := CellForState(state, acrossEntries, downEntries);
      var next := AdvanceState(state, acrossEntries, downEntries, width, height, blackCells);
      cur.Some? && cur.value in lockedCells ==>
        r == (if next.None? then None else CellForState(next.value, acrossEntries, downEntries))
  {
    match CellForState(state, acrossEntries, downEntries)
    case None => None
    case Some(currentCell) =>
      if currentCell !in lockedCells then Some(currentCell)
      else
        match AdvanceState(state, acrossEntries, downEntries, width, height, blackCells)
        case None => None
        case Some(nextState) => CellForState(nextState, acrossEntries, downEntries)
  }
}
