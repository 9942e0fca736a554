/**
 * Slot extraction: the maximal across and down runs of two or more open cells, found
 * by scanning the grid row by row, numbered 1, 2, 3, ... by their starting cells in
 * that order, with an index from each cell to the slots that pass through it.
 */
module CrosswordSlots {
  import opened Wrappers
  import opened CrosswordGrid

  datatype Direction = Across | Down

  /** A slot: its id, direction, clue number and cells from its first cell on. */
  datatype Slot = Slot(slotId: int, direction: Direction, number: int, cells: seq<Cell>)

  /** A reference to a slot cell: the slot's id and the cell's position in the slot. */
  type SlotRef = (int, int)

  /** The cell `i` steps after `c` in direction `d`. */
  function Shift(c: Cell, d: Direction, i: int): Cell {
    if d == Across then (c.0, c.1 + i) else (c.0 + i, c.1)
  }

  /** The coordinate that grows along direction `d`, and the grid's extent in that direction. */
  function Along(c: Cell, d: Direction): int {
    if d == Across then c.1 else c.0
  }

  function Extent(d: Direction, width: int, height: int): int {
    if d == Across then width else height
  }

  /**
   * A run in direction `d` starts at `c`: `c` is at the grid's edge or after a black
   * cell, and the next cell is inside the grid and not black.
   */
  predicate Starts(s: set<Cell>, width: int, height: int, c: Cell, d: Direction) {
    && (Along(c, d) == 0 || Shift(c, d, -1) in s)
    && Along(c, d) + 1 < Extent(d, width, height)
    && Shift(c, d, 1) !in s
  }

  /** An open cell where an across or a down run starts: it gets the next clue number. */
  predicate IsStart(s: set<Cell>, width: int, height: int, c: Cell) {
    c !in s && (Starts(s, width, height, c, Across) || Starts(s, width, height, c, Down))
  }

  /**
   * The open cells from `c` on in direction `d`, up to the first black cell or the edge:
   * consecutive, inside the grid's extent, none of them black, and followed by the edge
   * or a black cell.
   */
  function Run(s: set<Cell>, width: int, height: int, c: Cell, d: Direction): (r: seq<Cell>)
    ensures forall i :: 0 <= i < |r| ==> r[i] == Shift(c, d, i) && r[i] !in s && Along(c, d) + i < Extent(d, width, height)
    ensures Along(c, d) + |r| >= Extent(d, width, height) || Shift(c, d, |r|) in s
    decreases Extent(d, width, height) - Along(c, d)
  {
    if Along(c, d) < Extent(d, width, height) && c !in s then [c] + Run(s, width, height, Shift(c, d, 1), d) else []
  }

  /** A run that starts at an open cell holds at least two cells. */
  lemma RunFromStart(s: set<Cell>, width: int, height: int, c: Cell, d: Direction)
    requires c !in s && Starts(s, width, height, c, d)
    ensures |Run(s, width, height, c, d)| >= 2 && Run(s, width, height, c, d)[0] == c
  {
    var r := Run(s, width, height, c, d);
    assert Along(c, d) + |r| >= Extent(d, width, height) || Shift(c, d, |r|) in s;
  }

  /** The slots starting at the open cell `c`: across first, then down, with consecutive ids. */
  function CellSlots(s: set<Cell>, width: int, height: int, c: Cell, number: int, firstId: int): seq<Slot> {
    var across := Starts(s, width, height, c, Across);
    (if across then [Slot(firstId, Across, number, Run(s, width, height, c, Across))] else [])
    + (if Starts(s, width, height, c, Down)
       then [Slot(firstId + (if across then 1 else 0), Down, number, Run(s, width, height, c, Down))]
       else [])
  }

  /** How many cells of `cells` are starting cells. */
  function StartCount(s: set<Cell>, width: int, height: int, cells: seq<Cell>): nat {
    if cells == [] then 0
    else StartCount(s, width, height, cells[..|cells| - 1]) + (if IsStart(s, width, height, cells[|cells| - 1]) then 1 else 0)
  }

  /**
   * The slots found by visiting `cells` in order: each open cell contributes the slots
   * starting at it, numbered one more than the starting cells visited before it.
   */
  function Scan(s: set<Cell>, width: int, height: int, cells: seq<Cell>): seq<Slot> {
    if cells == [] then []
    else
      var init := cells[..|cells| - 1];
      var c := cells[|cells| - 1];
      var before := Scan(s, width, height, init);
      before + (if c in s then [] else CellSlots(s, width, height, c, 1 + StartCount(s, width, height, init), |before|))
  }

  /** The cells (row, 0), ..., (row, n - 1). */
  function RowCells(row: int, n: nat): (r: seq<Cell>)
    ensures |r| == n && forall c :: 0 <= c < n ==> r[c] == (row, c)
  {
    seq(n, c => (row, c))
  }

  /** How many values `range(n)` yields: none for a negative `n`. */
  function RangeSize(n: int): nat {
    if n > 0 then n else 0
  }

  /** The cells of the first `height` rows, row by row and left to right. */
  function RowMajor(width: int, height: int): seq<Cell> {
    if height <= 0 then [] else RowMajor(width, height - 1) + RowCells(height - 1, RangeSize(width))
  }

  // ---------------------------------------------------------------------------
  // What the scan produces

  /** `slot` is the run in its direction that starts at the open cell `c`, numbered `number`. */
  predicate SlotFrom(s: set<Cell>, width: int, height: int, slot: Slot, c: Cell, number: int) {
    && c !in s
    && Starts(s, width, height, c, slot.direction)
    && slot.cells == Run(s, width, height, c, slot.direction)
    && slot.number == number
  }

  lemma ScanAppend(s: set<Cell>, width: int, height: int, cells: seq<Cell>, c: Cell)
    ensures Scan(s, width, height, cells + [c]) == Scan(s, width, height, cells)
      + (if c in s then [] else CellSlots(s, width, height, c, 1 + StartCount(s, width, height, cells), |Scan(s, width, height, cells)|))
    ensures StartCount(s, width, height, cells + [c]) == StartCount(s, width, height, cells) + (if IsStart(s, width, height, c) then 1 else 0)
  {
    assert (cells + [c])[..|cells|] == cells;
  }

  /** The slots of one open cell are its runs, numbered alike, with consecutive ids. */
  lemma CellSlotsShape(s: set<Cell>, width: int, height: int, c: Cell, number: int, firstId: int)
    requires c !in s
    ensures var slots := CellSlots(s, width, height, c, number, firstId);
      && |slots| == SlotsHere(s, width, height, c)
      && (forall i :: 0 <= i < |slots| ==> slots[i].slotId == firstId + i && SlotFrom(s, width, height, slots[i], c, number))
      && (Starts(s, width, height, c, Across) ==> slots[0].direction == Across)
      && (Starts(s, width, height, c, Down) ==> slots[|slots| - 1].direction == Down)
  {
  }

  /** How many slots start at `c`. */
  function SlotsHere(s: set<Cell>, width: int, height: int, c: Cell): nat {
    if c in s then 0
    else (if Starts(s, width, height, c, Across) then 1 else 0) + (if Starts(s, width, height, c, Down) then 1 else 0)
  }

  /** For each slot of the scan, the position in `cells` of the cell it starts at. */
  function Origins(s: set<Cell>, width: int, height: int, cells: seq<Cell>): seq<int> {
    if cells == [] then []
    else
      var n := |cells| - 1;
      Origins(s, width, height, cells[..n]) + seq(SlotsHere(s, width, height, cells[n]), _ => n)
  }

  /**
   * Slot k of the scan is the run in its direction from the visited cell at its origin,
   * numbered one more than the starting cells visited before it, with id k.
   */
  predicate FoundAt(s: set<Cell>, width: int, height: int, cells: seq<Cell>, k: int) {
    var slots, origins := Scan(s, width, height, cells), Origins(s, width, height, cells);
    && 0 <= k < |slots| && k < |origins|
    && 0 <= origins[k] < |cells|
    && slots[k].slotId == k
    && SlotFrom(s, width, height, slots[k], cells[origins[k]], 1 + StartCount(s, width, height, cells[..origins[k]]))
  }

  /**
   * Every slot found is the run in its direction from the visited cell at its origin,
   * where a run starts, numbered one more than the starting cells visited before it;
   * its id is its position, and origins never go back.
   */
  lemma {:induction false} ScanOrigins(s: set<Cell>, width: int, height: int, cells: seq<Cell>)
    ensures |Origins(s, width, height, cells)| == |Scan(s, width, height, cells)|
    ensures forall k :: 0 <= k < |Scan(s, width, height, cells)| ==> FoundAt(s, width, height, cells, k)
  {
    if cells != [] {
      var n := |cells| - 1;
      var init := cells[..n];
      var c := cells[n];
      ScanOrigins(s, width, height, init);
      assert cells == init + [c];
      ScanAppend(s, width, height, init, c);
      var all := Scan(s, width, height, cells);
      var before := Scan(s, width, height, init);
      var origins := Origins(s, width, height, cells);
      var number := 1 + StartCount(s, width, height, init);
      if c !in s {
        CellSlotsShape(s, width, height, c, number, |before|);
      }
      forall k | 0 <= k < |Scan(s, width, height, cells)|
        ensures FoundAt(s, width, height, cells, k)
      {
        if k < |before| {
          assert FoundAt(s, width, height, init, k);
          var j := Origins(s, width, height, init)[k];
          assert all[k] == before[k] && origins[k] == j;
          assert cells[j] == init[j] && cells[..j] == init[..j];
        } else {
          assert origins[k] == n;
          assert all[k] == CellSlots(s, width, height, c, number, |before|)[k - |before|];
        }
      }
    }
  }

  /** Slot ids are 0, 1, 2, ... in the order the slots are found. */
  lemma ScanIds(s: set<Cell>, width: int, height: int, cells: seq<Cell>)
    ensures forall k :: 0 <= k < |Scan(s, width, height, cells)| ==> Scan(s, width, height, cells)[k].slotId == k
  {
    ScanOrigins(s, width, height, cells);
    forall k | 0 <= k < |Scan(s, width, height, cells)| ensures Scan(s, width, height, cells)[k].slotId == k {
      assert FoundAt(s, width, height, cells, k);
    }
  }

  /** `slots[k]` is the run in direction `d` from `c`, numbered one past `count` starting cells. */
  predicate SlotAt(s: set<Cell>, width: int, height: int, slots: seq<Slot>, k: int, c: Cell, d: Direction, count: int) {
    0 <= k < |slots| && slots[k].direction == d && SlotFrom(s, width, height, slots[k], c, 1 + count)
  }

  /** Every visited open cell where a run starts in direction `d` yields that run as a slot, with its number. */
  lemma {:induction false} ScanComplete(s: set<Cell>, width: int, height: int, cells: seq<Cell>, j: int, d: Direction)
    requires 0 <= j < |cells| && cells[j] !in s && Starts(s, width, height, cells[j], d)
    ensures exists k :: SlotAt(s, width, height, Scan(s, width, height, cells), k, cells[j], d, StartCount(s, width, height, cells[..j]))
  {
    var n := |cells| - 1;
    var init := cells[..n];
    var c := cells[n];
    assert cells == init + [c];
    ScanAppend(s, width, height, init, c);
    var all := Scan(s, width, height, cells);
    var before := Scan(s, width, height, init);
    if j < n {
      ScanComplete(s, width, height, init, j, d);
      var k :| SlotAt(s, width, height, before, k, init[j], d, StartCount(s, width, height, init[..j]));
      assert all[k] == before[k] && init[..j] == cells[..j];
      assert SlotAt(s, width, height, all, k, cells[j], d, StartCount(s, width, height, cells[..j]));
    } else {
      var extra := CellSlots(s, width, height, c, 1 + StartCount(s, width, height, init), |before|);
      CellSlotsShape(s, width, height, c, 1 + StartCount(s, width, height, init), |before|);
      if d == Across {
        assert all[|before|] == extra[0];
        assert SlotAt(s, width, height, all, |before|, cells[j], d, StartCount(s, width, height, cells[..j]));
      } else {
        assert all[|all| - 1] == extra[|extra| - 1];
        assert SlotAt(s, width, height, all, |all| - 1, cells[j], d, StartCount(s, width, height, cells[..j]));
      }
    }
  }

  /** Counting over a longer prefix counts at least as many starting cells. */
  lemma {:induction false} StartCountMonotone(s: set<Cell>, width: int, height: int, cells: seq<Cell>, i: int, j: int)
    requires 0 <= i <= j <= |cells|
    ensures StartCount(s, width, height, cells[..i]) <= StartCount(s, width, height, cells[..j])
    decreases j - i
  {
    if i < j {
      StartCountMonotone(s, width, height, cells, i, j - 1);
      assert cells[..j] == cells[..j - 1] + [cells[j - 1]];
      ScanAppend(s, width, height, cells[..j - 1], cells[j - 1]);
    }
  }

  predicate Distinct(cells: seq<Cell>) {
    forall i, j :: 0 <= i < j < |cells| ==> cells[i] != cells[j]
  }

  /**
   * Over distinct cells two slots get the same number exactly when they start at the
   * same cell, so an across and a down starting at one cell share a number.
   */
  lemma ScanNumbers(s: set<Cell>, width: int, height: int, cells: seq<Cell>, k1: int, k2: int)
    requires Distinct(cells)
    requires 0 <= k1 < |Scan(s, width, height, cells)| && 0 <= k2 < |Scan(s, width, height, cells)|
    ensures |Scan(s, width, height, cells)[k1].cells| >= 2 && |Scan(s, width, height, cells)[k2].cells| >= 2
    ensures Scan(s, width, height, cells)[k1].number == Scan(s, width, height, cells)[k2].number
        <==> Scan(s, width, height, cells)[k1].cells[0] == Scan(s, width, height, cells)[k2].cells[0]
  {
    var all := Scan(s, width, height, cells);
    ScanOrigins(s, width, height, cells);
    assert FoundAt(s, width, height, cells, k1) && FoundAt(s, width, height, cells, k2);
    var j1 := Origins(s, width, height, cells)[k1];
    var j2 := Origins(s, width, height, cells)[k2];
    RunFromStart(s, width, height, cells[j1], all[k1].direction);
    RunFromStart(s, width, height, cells[j2], all[k2].direction);
    if j1 != j2 {
      var lo, hi := if j1 < j2 then j1 else j2, if j1 < j2 then j2 else j1;
      StartCountStrict(s, width, height, cells, lo, hi);
    }
  }

  /** A starting cell before position `j` makes the count before `j` exceed the count before it. */
  lemma StartCountStrict(s: set<Cell>, width: int, height: int, cells: seq<Cell>, i: int, j: int)
    requires 0 <= i < j <= |cells| && IsStart(s, width, height, cells[i])
    ensures StartCount(s, width, height, cells[..i]) < StartCount(s, width, height, cells[..j])
  {
    assert cells[..i + 1] == cells[..i] + [cells[i]];
    ScanAppend(s, width, height, cells[..i], cells[i]);
    StartCountMonotone(s, width, height, cells, i + 1, j);
  }

  // ---------------------------------------------------------------------------
  // The row-major order of the grid

  lemma {:induction false} RowMajorCells(width: int, height: int)
    ensures forall i :: 0 <= i < |RowMajor(width, height)| ==> InBounds(RowMajor(width, height)[i], width, height)
    ensures forall c :: InBounds(c, width, height) ==> c in RowMajor(width, height)
    ensures Distinct(RowMajor(width, height))
  {
    if height > 0 {
      var w := RangeSize(width);
      var prefix := RowMajor(width, height - 1);
      var row := RowCells(height - 1, w);
      RowMajorCells(width, height - 1);
      var all := prefix + row;
      forall i | 0 <= i < |all| ensures InBounds(all[i], width, height) {
        if i < |prefix| {
          assert all[i] == prefix[i];
        } else {
          assert all[i] == row[i - |prefix|];
        }
      }
      forall c | InBounds(c, width, height) ensures c in all {
        if c.0 < height - 1 {
          assert InBounds(c, width, height - 1);
        } else {
          assert all[|prefix| + c.1] == c;
        }
      }
      forall i, j | 0 <= i < j < |all| ensures all[i] != all[j] {
        if j < |prefix| {
          assert all[i] == prefix[i] && all[j] == prefix[j];
        } else if i < |prefix| {
          assert all[i] == prefix[i] && InBounds(prefix[i], width, height - 1);
          assert all[j] == row[j - |prefix|];
        } else {
          assert all[i] == row[i - |prefix|] && all[j] == row[j - |prefix|];
        }
      }
    }
  }

  /**
   * The slots of a grid: ids 0, 1, 2, ...; each slot a run of two or more open cells
   * inside the grid, starting at the edge or after a black cell and ending at the edge
   * or before one; numbered one more than the starting cells before its first cell in
   * row-major order; and every place a run starts yields its slot.
   */
  lemma GridSlots(s: set<Cell>, width: int, height: int)
    ensures var slots := Scan(s, width, height, RowMajor(width, height));
      && (forall k :: 0 <= k < |slots| ==> slots[k].slotId == k)
      && (forall k :: 0 <= k < |slots| ==>
            && |slots[k].cells| >= 2
            && InBounds(slots[k].cells[0], width, height)
            && SlotFrom(s, width, height, slots[k], slots[k].cells[0], slots[k].number))
  {
    var cells := RowMajor(width, height);
    var slots := Scan(s, width, height, cells);
    ScanOrigins(s, width, height, cells);
    ScanIds(s, width, height, cells);
    RowMajorCells(width, height);
    forall k | 0 <= k < |slots|
      ensures |slots[k].cells| >= 2 && InBounds(slots[k].cells[0], width, height)
      ensures SlotFrom(s, width, height, slots[k], slots[k].cells[0], slots[k].number)
    {
      FoundSlot(s, width, height, cells, k);
    }
  }

  /** A slot found while scanning cells of the grid starts at an open cell of the grid. */
  lemma FoundSlot(s: set<Cell>, width: int, height: int, cells: seq<Cell>, k: int)
    requires FoundAt(s, width, height, cells, k)
    requires forall i :: 0 <= i < |cells| ==> InBounds(cells[i], width, height)
    ensures var slot := Scan(s, width, height, cells)[k];
      && |slot.cells| >= 2 && InBounds(slot.cells[0], width, height)
      && SlotFrom(s, width, height, slot, slot.cells[0], slot.number)
  {
    var j := Origins(s, width, height, cells)[k];
    RunFromStart(s, width, height, cells[j], Scan(s, width, height, cells)[k].direction);
  }

  /** Every open cell of the grid where a run starts in direction `d` is the first cell of a slot in that direction. */
  lemma GridSlotsComplete(s: set<Cell>, width: int, height: int, c: Cell, d: Direction)
    requires InBounds(c, width, height) && c !in s && Starts(s, width, height, c, d)
    ensures exists k :: (0 <= k < |Scan(s, width, height, RowMajor(width, height))| &&
      Scan(s, width, height, RowMajor(width, height))[k].direction == d &&
      Scan(s, width, height, RowMajor(width, height))[k].cells == Run(s, width, height, c, d))
  {
    var cells := RowMajor(width, height);
    RowMajorCells(width, height);
    var j :| 0 <= j < |cells| && cells[j] == c;
    ScanComplete(s, width, height, cells, j, d);
    var k :| SlotAt(s, width, height, Scan(s, width, height, cells), k, c, d, StartCount(s, width, height, cells[..j]));
    assert Scan(s, width, height, cells)[k].cells == Run(s, width, height, c, d);
  }

  // ---------------------------------------------------------------------------
  // The index from cells to slot references

  /** Appends `(id, i)` to the list of `cells[i]`, for each `i` in order. */
  function AddRefs(m: map<Cell, seq<SlotRef>>, id: int, cells: seq<Cell>): map<Cell, seq<SlotRef>> {
    if cells == [] then m
    else
      var before := AddRefs(m, id, cells[..|cells| - 1]);
      var c := cells[|cells| - 1];
      before[c := (if c in before then before[c] else []) + [(id, |cells| - 1)]]
  }

  /** The references of every slot's cells, slot by slot. */
  function SlotRefs(slots: seq<Slot>): map<Cell, seq<SlotRef>> {
    if slots == [] then map[]
    else
      var last := slots[|slots| - 1];
      AddRefs(SlotRefs(slots[..|slots| - 1]), last.slotId, last.cells)
  }

  lemma {:induction false} AddRefsMembers(m: map<Cell, seq<SlotRef>>, id: int, cells: seq<Cell>)
    ensures forall c :: c in AddRefs(m, id, cells) <==> c in m || c in cells
    ensures forall c, ref :: c in AddRefs(m, id, cells) && ref in AddRefs(m, id, cells)[c] <==>
      (c in m && ref in m[c]) || (ref.0 == id && 0 <= ref.1 < |cells| && cells[ref.1] == c)
  {
    if cells != [] {
      var n := |cells| - 1;
      var init := cells[..n];
      AddRefsMembers(m, id, init);
      assert cells == init + [cells[n]];
      forall ref: SlotRef | ref.0 == id && 0 <= ref.1 < n
        ensures cells[ref.1] == init[ref.1]
      {
      }
    }
  }

  /** A cell is indexed exactly when some slot passes through it. */
  lemma {:induction false} SlotRefsKeys(slots: seq<Slot>)
    ensures forall c :: c in SlotRefs(slots) <==> exists k :: 0 <= k < |slots| && c in slots[k].cells
  {
    if slots != [] {
      var n := |slots| - 1;
      var init := slots[..n];
      SlotRefsKeys(init);
      AddRefsMembers(SlotRefs(init), slots[n].slotId, slots[n].cells);
      forall c | c in SlotRefs(slots) ensures exists k :: 0 <= k < |slots| && c in slots[k].cells {
        if c in SlotRefs(init) {
          var k :| 0 <= k < |init| && c in init[k].cells;
          assert slots[k] == init[k];
        }
      }
      forall c, k | 0 <= k < |slots| && c in slots[k].cells ensures c in SlotRefs(slots) {
        if k < n {
          assert slots[k] == init[k];
        }
      }
    }
  }

  /** Every listed reference points at a slot that holds the cell there. */
  lemma {:induction false} SlotRefsSound(slots: seq<Slot>, c: Cell, ref: SlotRef)
    requires c in SlotRefs(slots) && ref in SlotRefs(slots)[c]
    ensures exists k :: 0 <= k < |slots| && SlotHas(slots[k], ref, c)
  {
    var n := |slots| - 1;
    var init := slots[..n];
    AddRefsMembers(SlotRefs(init), slots[n].slotId, slots[n].cells);
    if c in SlotRefs(init) && ref in SlotRefs(init)[c] {
      SlotRefsSound(init, c, ref);
      var k :| 0 <= k < |init| && SlotHas(init[k], ref, c);
      assert slots[k] == init[k];
    } else {
      assert SlotHas(slots[n], ref, c);
    }
  }

  /** Every cell of every slot is listed with its slot's id and its position. */
  lemma {:induction false} SlotRefsComplete(slots: seq<Slot>, c: Cell, ref: SlotRef, k: int)
    requires 0 <= k < |slots| && SlotHas(slots[k], ref, c)
    ensures c in SlotRefs(slots) && ref in SlotRefs(slots)[c]
  {
    var n := |slots| - 1;
    var init := slots[..n];
    AddRefsMembers(SlotRefs(init), slots[n].slotId, slots[n].cells);
    if k < n {
      assert slots[k] == init[k];
      SlotRefsComplete(init, c, ref, k);
    } else {
      assert ref.0 == slots[n].slotId && 0 <= ref.1 < |slots[n].cells| && slots[n].cells[ref.1] == c;
    }
  }

  /** `slot` has id `ref.0` and holds `c` at position `ref.1`. */
  predicate SlotHas(slot: Slot, ref: SlotRef, c: Cell) {
    slot.slotId == ref.0 && 0 <= ref.1 < |slot.cells| && slot.cells[ref.1] == c
  }

  /**
   * With ids equal to positions, `(id, i)` is listed for `c` exactly when slot `id`
   * has `c` at position `i`.
   */
  lemma SlotRefsByPosition(slots: seq<Slot>, c: Cell, id: int, i: int)
    requires forall k :: 0 <= k < |slots| ==> slots[k].slotId == k
    ensures c in SlotRefs(slots) && (id, i) in SlotRefs(slots)[c] <==>
      0 <= id < |slots| && 0 <= i < |slots[id].cells| && slots[id].cells[i] == c
  {
    if 0 <= id < |slots| && 0 <= i < |slots[id].cells| && slots[id].cells[i] == c {
      SlotRefsComplete(slots, c, (id, i), id);
    }
    if c in SlotRefs(slots) && (id, i) in SlotRefs(slots)[c] {
      SlotRefsSound(slots, c, (id, i));
      var k :| 0 <= k < |slots| && SlotHas(slots[k], (id, i), c);
      assert k == id;
    }
  }

  // ---------------------------------------------------------------------------
  // The scanning methods

  /** Collects the run from `c` in direction `d`: the cells up to the first black cell or the edge. */
  method CollectRun(blackSet: set<Cell>, width: int, height: int, c: Cell, d: Direction) returns (cells: seq<Cell>)
    ensures cells == Run(blackSet, width, height, c, d)
  {
    cells := [];
    var next := c;
    while Along(next, d) < Extent(d, width, height) && next !in blackSet
      invariant cells + Run(blackSet, width, height, next, d) == Run(blackSet, width, height, c, d)
      decreases Extent(d, width, height) - Along(next, d)
    {
      RunStep(blackSet, width, height, next, d, cells);
      cells := cells + [next];
      next := Shift(next, d, 1);
    }
  }

  /** An open cell inside the grid heads its run. */
  lemma RunStep(s: set<Cell>, width: int, height: int, c: Cell, d: Direction, before: seq<Cell>)
    requires Along(c, d) < Extent(d, width, height) && c !in s
    ensures before + Run(s, width, height, c, d) == (before + [c]) + Run(s, width, height, Shift(c, d, 1), d)
  {
    var rest := Run(s, width, height, Shift(c, d, 1), d);
    assert Run(s, width, height, c, d) == [c] + rest;
    assert before + ([c] + rest) == (before + [c]) + rest;
  }

  /** Where runs start, written out for the cell at `row`, `col`. */
  lemma StartsAt(s: set<Cell>, width: int, height: int, row: int, col: int)
    ensures Starts(s, width, height, (row, col), Across)
        == ((col == 0 || (row, col - 1) in s) && (col + 1 < width && (row, col + 1) !in s))
    ensures Starts(s, width, height, (row, col), Down)
        == ((row == 0 || (row - 1, col) in s) && (row + 1 < height && (row + 1, col) !in s))
  {
  }

  /** Collects the across slot and then the down slot starting at `cell`, with the next ids. */
  method CollectSlots(blackSet: set<Cell>, width: int, height: int, cell: Cell, startsAcross: bool, startsDown: bool,
                      number: int, slotId0: int) returns (newSlots: seq<Slot>, slotId: int)
    requires startsAcross == Starts(blackSet, width, height, cell, Across)
    requires startsDown == Starts(blackSet, width, height, cell, Down)
    ensures newSlots == CellSlots(blackSet, width, height, cell, number, slotId0)
    ensures slotId == slotId0 + |newSlots|
  {
    newSlots, slotId := [], slotId0;
    if startsAcross {
      var cells := CollectRun(blackSet, width, height, cell, Across);
      newSlots := newSlots + [Slot(slotId, Across, number, cells)];
      slotId := slotId + 1;
    }
    if startsDown {
      var cells := CollectRun(blackSet, width, height, cell, Down);
      newSlots := newSlots + [Slot(slotId, Down, number, cells)];
      slotId := slotId + 1;
    }
  }

  /**
   * Visits the cell at `row`, `col` after the slots `slots0` of the cells `seen0`: when
   * it is open and a run starts there, it gets the next number, and its across slot and
   * then its down slot are collected.
   */
  method ScanCell(blackSet: set<Cell>, width: int, height: int, row: int, col: int, ghost seen0: seq<Cell>,
                  slots0: seq<Slot>, nextNumber0: int, slotId0: int)
    returns (slots: seq<Slot>, nextNumber: int, slotId: int)
    requires slots0 == Scan(blackSet, width, height, seen0)
    requires nextNumber0 == 1 + StartCount(blackSet, width, height, seen0) && slotId0 == |slots0|
    ensures slots == Scan(blackSet, width, height, seen0 + [(row, col)])
    ensures nextNumber == 1 + StartCount(blackSet, width, height, seen0 + [(row, col)])
    ensures slotId == |slots|
  {
    ScanAppend(blackSet, width, height, seen0, (row, col));
    slots, nextNumber, slotId := slots0, nextNumber0, slotId0;
    if (row, col) in blackSet {
      return;
    }
    var startsAcross := (col == 0 || (row, col - 1) in blackSet) && (col + 1 < width && (row, col + 1) !in blackSet);
    var startsDown := (row == 0 || (row - 1, col) in blackSet) && (row + 1 < height && (row + 1, col) !in blackSet);
    StartsAt(blackSet, width, height, row, col);
    var number := nextNumber;
    if startsAcross || startsDown {
      nextNumber := nextNumber + 1;
    }
    var newSlots;
    newSlots, slotId := CollectSlots(blackSet, width, height, (row, col), startsAcross, startsDown, number, slotId);
    slots := slots + newSlots;
  }

  /** Scans one row left to right after the slots `slots0` of the cells `seen0`. */
  method ScanRow(blackSet: set<Cell>, width: int, height: int, row: int, ghost seen0: seq<Cell>,
                 slots0: seq<Slot>, nextNumber0: int, slotId0: int)
    returns (slots: seq<Slot>, nextNumber: int, slotId: int)
    requires slots0 == Scan(blackSet, width, height, seen0)
    requires nextNumber0 == 1 + StartCount(blackSet, width, height, seen0) && slotId0 == |slots0|
    ensures slots == Scan(blackSet, width, height, seen0 + RowCells(row, RangeSize(width)))
    ensures nextNumber == 1 + StartCount(blackSet, width, height, seen0 + RowCells(row, RangeSize(width)))
    ensures slotId == |slots|
  {
    slots, nextNumber, slotId := slots0, nextNumber0, slotId0;
    ghost var seen := seen0;
    assert seen0 + RowCells(row, 0) == seen0;
    var col := 0;
    while col < width
      invariant 0 <= col <= RangeSize(width)
      invariant seen == seen0 + RowCells(row, col)
      invariant slots == Scan(blackSet, width, height, seen)
      invariant nextNumber == 1 + StartCount(blackSet, width, height, seen) && slotId == |slots|
    {
      slots, nextNumber, slotId := ScanCell(blackSet, width, height, row, col, seen, slots, nextNumber, slotId);
      RowCellsStep(seen0, row, col);
      seen := seen + [(row, col)];
      col := col + 1;
    }
    assert col == RangeSize(width);
    assert seen == seen0 + RowCells(row, RangeSize(width));
  }

  lemma RowCellsStep(seen0: seq<Cell>, row: int, col: nat)
    ensures seen0 + RowCells(row, col) + [(row, col)] == seen0 + RowCells(row, col + 1)
  {
    assert RowCells(row, col + 1) == RowCells(row, col) + [(row, col)];
  }

  /**
   * Scans the grid row by row, numbering each starting cell and collecting its across
   * slot and then its down slot, and indexes every slot cell. The result is the scan of
   * the grid in row-major order and the index of its slots' cells.
   */
  method ExtractSlots(width: int, height: int, blackCells: seq<Cell>)
    returns (slots: seq<Slot>, cellToSlots: map<Cell, seq<SlotRef>>)
    ensures slots == Scan(CellSet(blackCells), width, height, RowMajor(width, height))
    ensures cellToSlots == SlotRefs(slots)
  {
    var blackSet := CellSet(blackCells);
    slots := [];
    var nextNumber := 1;
    var slotId := 0;
    var row := 0;
    while row < height
      invariant 0 <= row <= RangeSize(height)
      invariant slots == Scan(blackSet, width, height, RowMajor(width, row))
      invariant nextNumber == 1 + StartCount(blackSet, width, height, RowMajor(width, row)) && slotId == |slots|
    {
      slots, nextNumber, slotId := ScanRow(blackSet, width, height, row, RowMajor(width, row), slots, nextNumber, slotId);
      row := row + 1;
    }
    cellToSlots := IndexCells(slots);
  }

  /** Lists, for each cell, the (slot id, position) pairs of the slots through it, in slot order. */
  method IndexCells(slots: seq<Slot>) returns (cellToSlots: map<Cell, seq<SlotRef>>)
    ensures cellToSlots == SlotRefs(slots)
  {
    cellToSlots := map[];
    for k := 0 to |slots|
      invariant cellToSlots == SlotRefs(slots[..k])
    {
      var slot := slots[k];
      assert slots[..k + 1][..k] == slots[..k];
      ghost var before := cellToSlots;
      for index := 0 to |slot.cells|
        invariant cellToSlots == AddRefs(before, slot.slotId, slot.cells[..index])
      {
        var cell := slot.cells[index];
        assert slot.cells[..index + 1][..index] == slot.cells[..index];
        cellToSlots := cellToSlots[cell := (if cell in cellToSlots then cellToSlots[cell] else []) + [(slot.slotId, index)]];
      }
      assert slot.cells[..|slot.cells|] == slot.cells;
    }
    assert slots[..|slots|] == slots;
  }

  /** Some slot passes through `c`. */
  ghost predicate Covered(slots: seq<Slot>, c: Cell) {
    exists k :: 0 <= k < |slots| && c in slots[k].cells
  }

  /** The grid has a slot, and every open cell inside it lies on some slot. */
  ghost predicate NoSingletons(width: int, height: int, blackSet: set<Cell>) {
    var slots := Scan(blackSet, width, height, RowMajor(width, height));
    slots != [] && forall c :: InBounds(c, width, height) && c !in blackSet ==> Covered(slots, c)
  }

  /**
   * Rejects a grid with no slot at all or with an open cell that no slot passes through.
   */
  method ValidateNoSingletons(width: int, height: int, blackCells: seq<Cell>) returns (ok: bool)
    ensures ok <==> NoSingletons(width, height, CellSet(blackCells))
  {
    var blackSet := CellSet(blackCells);
    var slots, cellToSlots := ExtractSlots(width, height, blackCells);
    if slots == [] {
      return false;
    }
    SlotRefsKeys(slots);
    ok := OpenCellsIndexed(width, height, blackSet, cellToSlots);
  }

  /** Whether every open cell of the grid is a key of `cellToSlots`, checked row by row. */
  method OpenCellsIndexed(width: int, height: int, blackSet: set<Cell>, cellToSlots: map<Cell, seq<SlotRef>>)
    returns (ok: bool)
    ensures ok <==> forall c :: InBounds(c, width, height) && c !in blackSet ==> c in cellToSlots
  {
    var row := 0;
    while row < height
      invariant 0 <= row <= RangeSize(height)
      invariant forall c :: InBounds(c, width, height) && c.0 < row && c !in blackSet ==> c in cellToSlots
    {
      var col := 0;
      while col < width
        invariant 0 <= col <= RangeSize(width)
        invariant forall c :: InBounds(c, width, height) && (c.0 < row || (c.0 == row && c.1 < col)) && c !in blackSet ==> c in cellToSlots
      {
        if (row, col) !in blackSet && (row, col) !in cellToSlots {
          return false;
        }
        col := col + 1;
      }
      row := row + 1;
    }
    return true;
  }

  /** The solution cell at `c`: nothing at a black cell, otherwise the letter placed there, if any. */
  function SolutionCell(blackSet: set<Cell>, letters: map<Cell, string>, c: Cell): Option<string> {
    if c in blackSet then None else if c in letters then Some(letters[c]) else None
  }

  /**
   * Builds the solution as `height` rows of `width` cells: nothing at black cells and the
   * placed letter, if any, elsewhere.
   */
  method BuildSolutionGrid(width: int, height: int, blackCells: seq<Cell>, letters: map<Cell, string>)
    returns (grid: seq<seq<Option<string>>>)
    ensures |grid| == RangeSize(height)
    ensures forall r :: 0 <= r < |grid| ==> |grid[r]| == RangeSize(width)
    ensures forall r, c :: 0 <= r < |grid| && 0 <= c < |grid[r]| ==>
      grid[r][c] == SolutionCell(CellSet(blackCells), letters, (r, c))
  {
    var blackSet := CellSet(blackCells);
    grid := [];
    var row := 0;
    while row < height
      invariant 0 <= row <= RangeSize(height) && |grid| == row
      invariant forall r :: 0 <= r < |grid| ==> |grid[r]| == RangeSize(width)
      invariant forall r, c :: 0 <= r < |grid| && 0 <= c < |grid[r]| ==> grid[r][c] == SolutionCell(blackSet, letters, (r, c))
    {
      var rowCells: seq<Option<string>> := [];
      var col := 0;
      while col < width
        invariant 0 <= col <= RangeSize(width) && |rowCells| == col
        invariant forall c :: 0 <= c < |rowCells| ==> rowCells[c] == SolutionCell(blackSet, letters, (row, c))
      {
        if (row, col) in blackSet {
          rowCells := rowCells + [None];
        } else {
          rowCells := rowCells + [if (row, col) in letters then Some(letters[(row, col)]) else None];
        }
        col := col + 1;
      }
      grid := grid + [rowCells];
      row := row + 1;
    }
  }
}
