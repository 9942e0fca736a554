/**
 * The 3×3 sample puzzle (across CAT/ARE/RAT, down CAR/AER/TET, no black cells)
 * and the navigation behaviour the app's own unit tests pin down for it. The
 * lemmas take the entry lists as parameters equal to the sample.
 */
module NavigationScenarios {
  import opened Wrappers
  import opened Models
  import opened Sorting
  import opened Navigation

  function Row(r: int): seq<Coordinate> {
    [Coordinate(r, 0), Coordinate(r, 1), Coordinate(r, 2)]
  }

  function Col(c: int): seq<Coordinate> {
    [Coordinate(0, c), Coordinate(1, c), Coordinate(2, c)]
  }

  function SampleAcross(): seq<Entry> {
    [Entry(1, Row(0), "CAT", ""), Entry(2, Row(1), "ARE", ""), Entry(3, Row(2), "RAT", "")]
  }

  function SampleDown(): seq<Entry> {
    [Entry(1, Col(0), "CAR", ""), Entry(2, Col(1), "AER", ""), Entry(3, Col(2), "TET", "")]
  }

  lemma SampleAcrossOrdered(across: seq<Entry>)
    requires across == SampleAcross()
    ensures OrderedEntries(across) == across
  {
    assert SortedBy(across, EntryNotAfter);
    SortByIdentity(across, EntryNotAfter);
  }

  lemma SampleDownOrdered(down: seq<Entry>)
    requires down == SampleDown()
    ensures OrderedEntries(down) == down
  {
    assert SortedBy(down, EntryNotAfter);
    SortByIdentity(down, EntryNotAfter);
  }

  /** The sample lists are already in canonical order. */
  lemma SampleAlreadyOrdered(across: seq<Entry>, down: seq<Entry>)
    requires across == SampleAcross() && down == SampleDown()
    ensures OrderedEntries(across) == across && OrderedEntries(down) == down
  {
    SampleAcrossOrdered(across);
    SampleDownOrdered(down);
  }

  /** The start is the first across entry's first cell. */
  lemma SampleInitialState(across: seq<Entry>, down: seq<Entry>)
    requires across == SampleAcross() && down == SampleDown()
    ensures InitialState(across, down, 3, 3, {}) == Some(NavigationState(Across, 0, 0))
  {
    SampleAcrossOrdered(across);
    assert FirstFillableCell(3, 3, {}) == Some(Coordinate(0, 0));
    assert IndexOfCell(across[0].cells, Coordinate(0, 0)) == Some(0);
    assert EntryContainingCell(across, Coordinate(0, 0)) == Some((0, 0));
  }

  /** After the last across cell the cursor moves to the first down entry's first cell. */
  lemma SampleHandOff(across: seq<Entry>, down: seq<Entry>)
    requires across == SampleAcross() && down == SampleDown()
    ensures AdvanceState(NavigationState(Across, 2, 2), across, down, 3, 3, {}) == Some(NavigationState(Down, 0, 0))
  {
    SampleAlreadyOrdered(across, down);
    assert AtAcrossHandOff(NavigationState(Across, 2, 2), across);
    assert FirstFillableCell(3, 3, {}) == Some(Coordinate(0, 0));
    assert IndexOfCell(down[0].cells, Coordinate(0, 0)) == Some(0);
    assert EntryContainingCell(down, Coordinate(0, 0)) == Some((0, 0));
  }

  /** A locked current cell sends the hint to the next cell of the entry. */
  lemma SampleHintSkipsLockedCell(across: seq<Entry>, down: seq<Entry>)
    requires across == SampleAcross() && down == SampleDown()
    ensures HintTarget(NavigationState(Across, 0, 0), across, down, {Coordinate(0, 0)}, 3, 3, {})
      == Some(Coordinate(0, 1))
  {
    SampleAlreadyOrdered(across, down);
  }

  /** The cell after a locked cell is not checked again: with both locked, the hint still lands on the second. */
  lemma SampleHintDoesNotRecheck(across: seq<Entry>, down: seq<Entry>)
    requires across == SampleAcross() && down == SampleDown()
    ensures HintTarget(NavigationState(Across, 0, 0), across, down, {Coordinate(0, 0), Coordinate(0, 1)}, 3, 3, {})
      == Some(Coordinate(0, 1))
  {
    SampleAlreadyOrdered(across, down);
  }
}
