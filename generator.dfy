/**
 * The puzzle generator's deterministic parts: the grid sizes it picks from, the border
 * cells, the memoised list of acceptable black-cell layouts for a size, the pattern a
 * slot shows while it is being filled, which slots cross which, the entry lists of a
 * finished puzzle and the answers read off its letters.
 */
module Generator {
  import opened Wrappers
  import opened CrosswordGrid
  import opened CrosswordSlots
  import Sorting

  /** The (width, height) pairs a puzzle may have. */
  const GridSizes: seq<(int, int)> := [(5, 5), (5, 6), (6, 5), (6, 6), (7, 5), (7, 6)]

  // ---------------------------------------------------------------------------
  // Border cells

  /** `a` comes before `b` when the grid is read row by row, left to right. */
  predicate RowMajorBefore(a: Cell, b: Cell) {
    a.0 < b.0 || (a.0 == b.0 && a.1 < b.1)
  }

  /** The cells are in strictly increasing row-major order, so in particular distinct. */
  predicate Increasing(cells: seq<Cell>) {
    forall i, j :: 0 <= i < j < |cells| ==> RowMajorBefore(cells[i], cells[j])
  }

  lemma {:induction false} OnBorderAppend(a: seq<Cell>, b: seq<Cell>, width: int, height: int)
    ensures OnBorder(a + b, width, height) == OnBorder(a, width, height) + OnBorder(b, width, height)
  {
    if a != [] {
      assert (a + b)[0] == a[0] && (a + b)[1..] == a[1..] + b;
      OnBorderAppend(a[1..], b, width, height);
      var head := if InBounds(a[0], width, height) && IsBorderCell(a[0].0, a[0].1, width, height) then [a[0]] else [];
      assert OnBorder(a + b, width, height) == head + OnBorder(a[1..] + b, width, height);
      assert OnBorder(a, width, height) == head + OnBorder(a[1..], width, height);
    } else {
      assert a + b == b;
    }
  }

  lemma {:induction false} OnBorderIncreasing(cells: seq<Cell>, width: int, height: int)
    requires Increasing(cells)
    ensures Increasing(OnBorder(cells, width, height))
  {
    if cells != [] {
      var tail := OnBorder(cells[1..], width, height);
      OnBorderIncreasing(cells[1..], width, height);
      forall j | 0 <= j < |tail| ensures RowMajorBefore(cells[0], tail[j]) {
        assert tail[j] in cells[1..];
        var m :| 0 <= m < |cells[1..]| && cells[1..][m] == tail[j];
        assert cells[1 + m] == tail[j];
      }
    }
  }

  lemma {:induction false} RowMajorIncreasing(width: int, height: int)
    ensures Increasing(RowMajor(width, height))
  {
    if height > 0 {
      var prefix := RowMajor(width, height - 1);
      var row := RowCells(height - 1, RangeSize(width));
      RowMajorIncreasing(width, height - 1);
      RowMajorCells(width, height - 1);
      var all := prefix + row;
      forall i, j | 0 <= i < j < |all| ensures RowMajorBefore(all[i], all[j]) {
        if j < |prefix| {
          assert all[i] == prefix[i] && all[j] == prefix[j];
        } else if i < |prefix| {
          assert all[i] == prefix[i] && InBounds(prefix[i], width, height - 1);
          assert all[j] == row[j - |prefix|];
        } else {
          assert all[i] == row[i - |prefix|] && all[j] == row[j - |prefix|];
        }
      }
    }
  }

  /** The border cells of the grid, row by row. */
  function Border(width: int, height: int): seq<Cell> {
    OnBorder(RowMajor(width, height), width, height)
  }

  /**
   * The border cells are exactly the cells of the grid on its first or last row or
   * column, each once, in row-major order.
   */
  lemma BorderCellsExactly(width: int, height: int)
    ensures forall c :: c in Border(width, height) <==>
      InBounds(c, width, height) && IsBorderCell(c.0, c.1, width, height)
    ensures Increasing(Border(width, height))
  {
    RowMajorCells(width, height);
    RowMajorIncreasing(width, height);
    OnBorderIncreasing(RowMajor(width, height), width, height);
  }

  lemma OnBorderRowStep(row: int, col: nat, width: int, height: int)
    requires 0 <= row < height && col < width
    ensures OnBorder(RowCells(row, col + 1), width, height) == OnBorder(RowCells(row, col), width, height)
      + (if row == 0 || col == 0 || row == height - 1 || col == width - 1 then [(row, col)] else [])
  {
    assert RowCells(row, col + 1) == RowCells(row, col) + [(row, col)];
    OnBorderAppend(RowCells(row, col), [(row, col)], width, height);
    assert [(row, col)][1..] == [];
  }

  /** Lists the border cells row by row. */
  method BorderCells(width: int, height: int) returns (cells: seq<Cell>)
    ensures cells == Border(width, height)
  {
    cells := [];
    var row := 0;
    while row < height
      invariant 0 <= row <= RangeSize(height)
      invariant cells == OnBorder(RowMajor(width, row), width, height)
    {
      var rowCells := RowBorderCells(width, height, row);
      OnBorderAppend(RowMajor(width, row), RowCells(row, RangeSize(width)), width, height);
      cells := cells + rowCells;
      row := row + 1;
    }
  }

  /** The inner loop of `BorderCells`: the border cells of one row, left to right. */
  method RowBorderCells(width: int, height: int, row: int) returns (cells: seq<Cell>)
    requires 0 <= row < height
    ensures cells == OnBorder(RowCells(row, RangeSize(width)), width, height)
  {
    cells := [];
    var col := 0;
    while col < width
      invariant 0 <= col <= RangeSize(width)
      invariant cells == OnBorder(RowCells(row, col), width, height)
    {
      OnBorderRowStep(row, col, width, height);
      if row == 0 || col == 0 || row == height - 1 || col == width - 1 {
        cells := cells + [(row, col)];
      }
      col := col + 1;
    }
  }

  // ---------------------------------------------------------------------------
  // Combinations, in the order Python's itertools yields them

  /** Puts `x` in front of each list. */
  function PrependAll<T>(x: T, lists: seq<seq<T>>): (r: seq<seq<T>>)
    ensures |r| == |lists| && forall i :: 0 <= i < |lists| ==> r[i] == [x] + lists[i]
  {
    seq(|lists|, i requires 0 <= i < |lists| => [x] + lists[i])
  }

  /**
   * The `k`-element sub-sequences of `s`: those that take `s[0]` first, then those that
   * skip it, which is the lexicographic order of the chosen positions.
   */
  function Combinations<T>(s: seq<T>, k: nat): seq<seq<T>>
    decreases |s|
  {
    if k == 0 then [[]]
    else if s == [] then []
    else PrependAll(s[0], Combinations(s[1..], k - 1)) + Combinations(s[1..], k)
  }

  lemma IncreasingTail(s: seq<Cell>)
    requires Increasing(s) && s != []
    ensures Increasing(s[1..])
    ensures forall x :: x in s[1..] ==> RowMajorBefore(s[0], x)
  {
    forall x | x in s[1..] ensures RowMajorBefore(s[0], x) {
      var m :| 0 <= m < |s[1..]| && s[1..][m] == x;
      assert s[1 + m] == x;
    }
  }

  lemma IncreasingCons(x: Cell, t: seq<Cell>)
    requires Increasing(t) && forall y :: y in t ==> RowMajorBefore(x, y)
    ensures Increasing([x] + t)
  {
    var c := [x] + t;
    forall i, j | 0 <= i < j < |c| ensures RowMajorBefore(c[i], c[j]) {
      assert c[j] == t[j - 1];
      if i > 0 {
        assert c[i] == t[i - 1];
      }
    }
  }

  /** A combination has `k` elements, all taken from `s`, and keeps `s` increasing. */
  lemma {:induction false} CombinationShape(s: seq<Cell>, k: nat, c: seq<Cell>)
    requires c in Combinations(s, k)
    ensures |c| == k && forall x :: x in c ==> x in s
    ensures Increasing(s) ==> Increasing(c)
    decreases |s|
  {
    if k > 0 {
      assert s != [];
      var with := Combinations(s[1..], k - 1);
      var without := Combinations(s[1..], k);
      assert Combinations(s, k) == PrependAll(s[0], with) + without;
      if c in PrependAll(s[0], with) {
        var i :| 0 <= i < |with| && PrependAll(s[0], with)[i] == c;
        var rest := with[i];
        CombinationShape(s[1..], k - 1, rest);
        assert c == [s[0]] + rest;
        if Increasing(s) {
          IncreasingTail(s);
          IncreasingCons(s[0], rest);
        }
      } else {
        CombinationShape(s[1..], k, c);
        if Increasing(s) {
          IncreasingTail(s);
        }
      }
    }
  }

  /** Every increasing choice of `|c|` elements of an increasing `s` is one of its combinations. */
  lemma {:induction false} CombinationComplete(s: seq<Cell>, c: seq<Cell>)
    requires Increasing(s) && Increasing(c)
    requires forall x :: x in c ==> x in s
    ensures c in Combinations(s, |c|)
    decreases |s|
  {
    if c != [] {
      assert c[0] in s;
      IncreasingTail(s);
      IncreasingTail(c);
      assert s == [s[0]] + s[1..];
      assert c == [c[0]] + c[1..];
      var with := Combinations(s[1..], |c| - 1);
      assert Combinations(s, |c|) == PrependAll(s[0], with) + Combinations(s[1..], |c|);
      if c[0] == s[0] {
        assert forall x :: x in c[1..] ==> x in s && x != s[0];
        CombinationComplete(s[1..], c[1..]);
        var i :| 0 <= i < |with| && with[i] == c[1..];
        assert PrependAll(s[0], with)[i] == c;
      } else {
        assert RowMajorBefore(s[0], c[0]);
        assert forall x :: x in c ==> x in s && x != s[0];
        CombinationComplete(s[1..], c);
      }
    }
  }

  // ---------------------------------------------------------------------------
  // Acceptable black-cell layouts

  /** A layout both validators accept. */
  ghost predicate Accepted(width: int, height: int, combo: seq<Cell>) {
    BlackCellsValid(width, height, CellSet(combo)) && NoSingletons(width, height, CellSet(combo))
  }

  /** The combinations of 0, 1, ..., n - 1 cells of `border`, smaller ones first. */
  function Candidates(border: seq<Cell>, n: nat): seq<seq<Cell>> {
    if n == 0 then [] else Candidates(border, n - 1) + Combinations(border, n - 1)
  }

  /** The accepted layouts among `combos`, in order. */
  ghost function Keep(width: int, height: int, combos: seq<seq<Cell>>): seq<seq<Cell>> {
    if combos == [] then []
    else
      var last := combos[|combos| - 1];
      Keep(width, height, combos[..|combos| - 1]) + (if Accepted(width, height, last) then [last] else [])
  }

  lemma KeepAppend(width: int, height: int, combos: seq<seq<Cell>>, c: seq<Cell>)
    ensures Keep(width, height, combos + [c]) == Keep(width, height, combos) + (if Accepted(width, height, c) then [c] else [])
  {
    assert (combos + [c])[..|combos|] == combos;
  }

  lemma {:induction false} KeepMembers(width: int, height: int, combos: seq<seq<Cell>>, c: seq<Cell>)
    ensures c in Keep(width, height, combos) <==> c in combos && Accepted(width, height, c)
  {
    if combos != [] {
      var prefix := combos[..|combos| - 1];
      KeepMembers(width, height, prefix, c);
      assert combos == prefix + [combos[|combos| - 1]];
    }
  }

  lemma {:induction false} CandidatesMembers(border: seq<Cell>, n: nat, c: seq<Cell>)
    ensures c in Candidates(border, n) <==> exists k :: 0 <= k < n && c in Combinations(border, k)
  {
    if n > 0 {
      CandidatesMembers(border, n - 1, c);
      if c in Combinations(border, n - 1) {
        assert 0 <= n - 1 < n && c in Combinations(border, n - 1);
      }
    }
  }

  /** The layouts tried for a grid: every combination of at most four border cells, the smaller first. */
  ghost function ValidSets(width: int, height: int): seq<seq<Cell>> {
    Keep(width, height, Candidates(Border(width, height), 5))
  }

  /**
   * A listed layout is a row-major list of at most four distinct border cells accepted by
   * both validators; and every such list is listed.
   */
  lemma ValidSetsExactly(width: int, height: int, c: seq<Cell>)
    ensures c in ValidSets(width, height) <==>
      && |c| <= 4
      && Increasing(c)
      && (forall x :: x in c ==> InBounds(x, width, height) && IsBorderCell(x.0, x.1, width, height))
      && BlackCellsValid(width, height, CellSet(c))
      && NoSingletons(width, height, CellSet(c))
  {
    var border := Border(width, height);
    BorderCellsExactly(width, height);
    KeepMembers(width, height, Candidates(border, 5), c);
    CandidatesMembers(border, 5, c);
    if c in Candidates(border, 5) {
      var k :| 0 <= k < 5 && c in Combinations(border, k);
      CombinationShape(border, k, c);
    }
    if |c| <= 4 && Increasing(c) && forall x :: x in c ==> InBounds(x, width, height) && IsBorderCell(x.0, x.1, width, height) {
      CombinationComplete(border, c);
    }
  }

  /** The accepted layouts of `combos`, all drawn from the grid's border cells, appended to `valid`. */
  method KeepAccepted(width: int, height: int, combos: seq<seq<Cell>>, ghost tried: seq<seq<Cell>>,
                      valid0: seq<seq<Cell>>) returns (valid: seq<seq<Cell>>)
    requires forall i, x :: 0 <= i < |combos| && x in combos[i] ==> InBounds(x, width, height)
    requires valid0 == Keep(width, height, tried)
    ensures valid == Keep(width, height, tried + combos)
  {
    valid := valid0;
    assert tried + combos[..0] == tried;
    for i := 0 to |combos|
      invariant valid == Keep(width, height, tried + combos[..i])
    {
      var combo := combos[i];
      assert tried + combos[..i + 1] == (tried + combos[..i]) + [combo];
      KeepAppend(width, height, tried + combos[..i], combo);
      var blackOk := ValidateBlackCells(width, height, combo);
      if blackOk {
        var coveredOk := ValidateNoSingletons(width, height, combo);
        if coveredOk {
          valid := valid + [combo];
        }
      }
    }
    assert combos[..|combos|] == combos;
  }

  lemma CombinationsInBounds(border: seq<Cell>, k: nat, width: int, height: int)
    requires forall x :: x in border ==> InBounds(x, width, height)
    ensures forall i, x :: 0 <= i < |Combinations(border, k)| && x in Combinations(border, k)[i] ==> InBounds(x, width, height)
  {
    forall i, x | 0 <= i < |Combinations(border, k)| && x in Combinations(border, k)[i] ensures InBounds(x, width, height) {
      CombinationShape(border, k, Combinations(border, k)[i]);
    }
  }

  /** The body of `ValidBlackSets` past the memo: tries every candidate layout in order. */
  method ComputeValidSets(width: int, height: int) returns (valid: seq<seq<Cell>>)
    ensures valid == ValidSets(width, height)
  {
    var border := BorderCells(width, height);
    BorderCellsExactly(width, height);
    valid := [];
    for count := 0 to 5
      invariant valid == Keep(width, height, Candidates(border, count))
    {
      var combos := Combinations(border, count);
      CombinationsInBounds(border, count, width, height);
      valid := KeepAccepted(width, height, combos, Candidates(border, count), valid);
    }
  }

  /** The memo of acceptable layouts per grid size, filled on first request. */
  class BlackSetCache {
    var entries: map<(int, int), seq<seq<Cell>>>

    ghost predicate Valid()
      reads this
    {
      forall key :: key in entries ==> entries[key] == ValidSets(key.0, key.1)
    }

    constructor()
      ensures entries == map[] && Valid()
    {
      entries := map[];
    }

    /**
     * The acceptable layouts of a `width` x `height` grid: the memoised list when there is
     * one, otherwise the list computed now and memoised. Either way it is the same list.
     */
    method ValidBlackSets(width: int, height: int) returns (sets: seq<seq<Cell>>)
      requires Valid()
      modifies this
      ensures Valid()
      ensures sets == ValidSets(width, height)
      ensures (width, height) in old(entries) ==> entries == old(entries)
      ensures (width, height) !in old(entries) ==> entries == old(entries)[(width, height) := sets]
    {
      var key := (width, height);
      if key in entries {
        return entries[key];
      }
      var valid := ComputeValidSets(width, height);
      entries := entries[key := valid];
      sets := valid;
    }
  }

  // ---------------------------------------------------------------------------
  // The pattern of a slot being filled

  /** What a cell contributes to a pattern: its letter, or "." when it has none or an empty one. */
  function Piece(gridLetters: map<Cell, string>, c: Cell): string {
    if c in gridLetters && gridLetters[c] != "" then gridLetters[c] else "."
  }

  /** The pieces of `cells`, joined. */
  function Pattern(cells: seq<Cell>, gridLetters: map<Cell, string>): string {
    if cells == [] then "" else Pattern(cells[..|cells| - 1], gridLetters) + Piece(gridLetters, cells[|cells| - 1])
  }

  function PatternForSlot(slot: Slot, gridLetters: map<Cell, string>): string {
    Pattern(slot.cells, gridLetters)
  }

  /**
   * With letters of at most one character, the pattern has one character per slot
   * cell: the cell's letter, or '.' where it has none.
   */
  lemma {:induction false} PatternOneCharPerCell(cells: seq<Cell>, gridLetters: map<Cell, string>)
    requires forall c :: c in gridLetters ==> |gridLetters[c]| <= 1
    ensures |Pattern(cells, gridLetters)| == |cells|
    ensures forall i :: 0 <= i < |cells| ==>
      Pattern(cells, gridLetters)[i] == (if cells[i] in gridLetters && gridLetters[cells[i]] != "" then gridLetters[cells[i]][0] else '.')
  {
    if cells != [] {
      var n := |cells| - 1;
      PatternOneCharPerCell(cells[..n], gridLetters);
      forall i | 0 <= i < n ensures cells[..n][i] == cells[i] {
      }
    }
  }

  /** The letters along `cells`, joined; every cell must have one. */
  function Spell(cells: seq<Cell>, gridLetters: map<Cell, string>): string
    requires forall i :: 0 <= i < |cells| ==> cells[i] in gridLetters
  {
    if cells == [] then "" else Spell(cells[..|cells| - 1], gridLetters) + gridLetters[cells[|cells| - 1]]
  }

  /** Once every cell has a non-empty letter, the pattern is the spelled word: it has no '.' left. */
  lemma {:induction false} PatternOfFilledSlot(cells: seq<Cell>, gridLetters: map<Cell, string>)
    requires forall i :: 0 <= i < |cells| ==> cells[i] in gridLetters && gridLetters[cells[i]] != ""
    ensures Pattern(cells, gridLetters) == Spell(cells, gridLetters)
  {
    if cells != [] {
      PatternOfFilledSlot(cells[..|cells| - 1], gridLetters);
    }
  }

  // ---------------------------------------------------------------------------
  // Crossing slots

  /** The slot ids listed in one cell's references. */
  function SlotIds(refs: seq<SlotRef>): (ids: set<int>)
    ensures forall id :: id in ids <==> exists i :: 0 <= i < |refs| && refs[i].0 == id
  {
    set i | 0 <= i < |refs| :: refs[i].0
  }

  /** The slot ids indexed at the cells `cells` of `m`. */
  function IdsAt(m: map<Cell, seq<SlotRef>>, cells: set<Cell>): set<int> {
    set c, id | c in cells && c in m && id in SlotIds(m[c]) :: id
  }

  /** Slots `a` and `b` are both indexed at one of the cells `cells` of `m`. */
  ghost predicate ShareCell(m: map<Cell, seq<SlotRef>>, cells: set<Cell>, a: int, b: int) {
    exists c :: c in cells && c in m && a in SlotIds(m[c]) && b in SlotIds(m[c])
  }

  /** The crossings found through the cells `cells`: every slot indexed there, with the other slots it shares a cell with. */
  ghost function CrossingsAt(m: map<Cell, seq<SlotRef>>, cells: set<Cell>): map<int, set<int>> {
    map a | a in IdsAt(m, cells) :: set b | b in IdsAt(m, cells) && b != a && ShareCell(m, cells, a, b)
  }

  /** The crossings of the whole index. */
  ghost function Crossings(m: map<Cell, seq<SlotRef>>): map<int, set<int>> {
    CrossingsAt(m, m.Keys)
  }

  /** `neighbors` after adding, for each of `targets`, the other slots of `ids`. */
  function Merge(neighbors: map<int, set<int>>, targets: set<int>, ids: set<int>): map<int, set<int>> {
    map a | a in neighbors.Keys + targets ::
      (if a in neighbors then neighbors[a] else {}) + (if a in targets then ids - {a} else {})
  }

  lemma IdsAtStep(m: map<Cell, seq<SlotRef>>, done: set<Cell>, c: Cell)
    requires c in m
    ensures IdsAt(m, done + {c}) == IdsAt(m, done) + SlotIds(m[c])
  {
    forall a | a in IdsAt(m, done + {c}) ensures a in IdsAt(m, done) + SlotIds(m[c]) {
      var x :| x in done + {c} && x in m && a in SlotIds(m[x]);
      if x != c {
        assert x in done;
      }
    }
  }

  lemma ShareCellBounds(m: map<Cell, seq<SlotRef>>, cells: set<Cell>, a: int, b: int)
    requires ShareCell(m, cells, a, b)
    ensures a in IdsAt(m, cells) && b in IdsAt(m, cells)
  {
  }

  lemma ShareCellStep(m: map<Cell, seq<SlotRef>>, done: set<Cell>, c: Cell, a: int, b: int)
    requires c in m
    ensures ShareCell(m, done + {c}, a, b) <==> ShareCell(m, done, a, b) || (a in SlotIds(m[c]) && b in SlotIds(m[c]))
  {
    if ShareCell(m, done + {c}, a, b) {
      var x :| x in done + {c} && x in m && a in SlotIds(m[x]) && b in SlotIds(m[x]);
      if x != c {
        assert x in done;
      }
    }
    if a in SlotIds(m[c]) && b in SlotIds(m[c]) {
      assert c in done + {c};
    }
    if ShareCell(m, done, a, b) {
      var x :| x in done && x in m && a in SlotIds(m[x]) && b in SlotIds(m[x]);
      assert x in done + {c};
    }
  }

  /** Going through one more cell adds its slots' crossings with each other. */
  lemma CrossingsStep(m: map<Cell, seq<SlotRef>>, done: set<Cell>, c: Cell)
    requires c in m
    ensures CrossingsAt(m, done + {c}) == Merge(CrossingsAt(m, done), SlotIds(m[c]), SlotIds(m[c]))
  {
    var before := CrossingsAt(m, done);
    var after := CrossingsAt(m, done + {c});
    var ids := SlotIds(m[c]);
    var merged := Merge(before, ids, ids);
    IdsAtStep(m, done, c);
    assert after.Keys == merged.Keys;
    forall a | a in after ensures after[a] == merged[a] {
      forall b ensures b in after[a] <==> b in merged[a] {
        CrossingsStepAt(m, done, c, a, b);
      }
    }
  }

  lemma CrossingsStepAt(m: map<Cell, seq<SlotRef>>, done: set<Cell>, c: Cell, a: int, b: int)
    requires c in m && a in CrossingsAt(m, done + {c})
    ensures var ids := SlotIds(m[c]);
      var merged := Merge(CrossingsAt(m, done), ids, ids);
      a in merged && (b in CrossingsAt(m, done + {c})[a] <==> b in merged[a])
  {
    IdsAtStep(m, done, c);
    ShareCellStep(m, done, c, a, b);
    if ShareCell(m, done, a, b) {
      ShareCellBounds(m, done, a, b);
    }
  }

  /** The distinct values of a list. */
  function SeqSet(xs: seq<int>): set<int> {
    set x | x in xs
  }

  lemma MergeNothing(neighbors: map<int, set<int>>, ids: set<int>)
    ensures Merge(neighbors, {}, ids) == neighbors
  {
    var merged := Merge(neighbors, {}, ids);
    assert merged.Keys == neighbors.Keys;
    forall a | a in merged ensures merged[a] == neighbors[a] {
      assert merged[a] == neighbors[a] + {};
    }
  }

  /** Adding one more target to a merge updates just that target. */
  lemma MergeStep(neighbors: map<int, set<int>>, targets: set<int>, x: int, ids: set<int>)
    ensures var before := Merge(neighbors, targets, ids);
      Merge(neighbors, targets + {x}, ids) == before[x := (if x in before then before[x] else {}) + (ids - {x})]
  {
    var before := Merge(neighbors, targets, ids);
    var after := Merge(neighbors, targets + {x}, ids);
    var updated := before[x := (if x in before then before[x] else {}) + (ids - {x})];
    assert after.Keys == updated.Keys;
    forall a | a in after ensures after[a] == updated[a] {
      if a == x {
        assert after[a] == (if a in neighbors then neighbors[a] else {}) + (ids - {a});
      }
    }
  }

  /** The inner loop of `IntersectsMap`: each of `slotIds` gains the other slots of the list as neighbours. */
  method AddCrossings(neighbors0: map<int, set<int>>, slotIds: seq<int>) returns (neighbors: map<int, set<int>>)
    ensures neighbors == Merge(neighbors0, SeqSet(slotIds), SeqSet(slotIds))
  {
    var ids := SeqSet(slotIds);
    neighbors := neighbors0;
    assert SeqSet(slotIds[..0]) == {};
    MergeNothing(neighbors0, ids);
    for k := 0 to |slotIds|
      invariant neighbors == Merge(neighbors0, SeqSet(slotIds[..k]), ids)
    {
      var slotId := slotIds[k];
      var others := set other | other in slotIds && other != slotId;
      assert others == ids - {slotId};
      assert SeqSet(slotIds[..k + 1]) == SeqSet(slotIds[..k]) + {slotId} by {
        assert slotIds[..k + 1] == slotIds[..k] + [slotId];
      }
      MergeStep(neighbors0, SeqSet(slotIds[..k]), slotId, ids);
      neighbors := neighbors[slotId := (if slotId in neighbors then neighbors[slotId] else {}) + others];
    }
    assert slotIds[..|slotIds|] == slotIds;
  }

  /**
   * The neighbour sets of `intersects_map`: for each cell of the index, in any order,
   * every slot listed there gains the other slots listed there.
   */
  method IntersectsMap(cellToSlots: map<Cell, seq<SlotRef>>) returns (neighbors: map<int, set<int>>)
    ensures neighbors == Crossings(cellToSlots)
  {
    neighbors := map[];
    ghost var done: set<Cell> := {};
    var remaining := cellToSlots.Keys;
    while remaining != {}
      invariant remaining + done == cellToSlots.Keys && remaining !! done
      invariant neighbors == CrossingsAt(cellToSlots, done)
      decreases |remaining|
    {
      var cell :| cell in remaining;
      var slotEntries := cellToSlots[cell];
      var slotIds := seq(|slotEntries|, i requires 0 <= i < |slotEntries| => slotEntries[i].0);
      assert SeqSet(slotIds) == SlotIds(slotEntries) by {
        forall id ensures id in SeqSet(slotIds) <==> id in SlotIds(slotEntries) {
          if id in SlotIds(slotEntries) {
            var i :| 0 <= i < |slotEntries| && slotEntries[i].0 == id;
            assert slotIds[i] == id;
          }
        }
      }
      neighbors := AddCrossings(neighbors, slotIds);
      CrossingsStep(cellToSlots, done, cell);
      done := done + {cell};
      remaining := remaining - {cell};
    }
    assert done == cellToSlots.Keys;
  }

  /**
   * Two slots are neighbours exactly when they are distinct and listed at a common cell;
   * so no slot neighbours itself and the relation is symmetric.
   */
  lemma {:induction false} CrossingsExactly(m: map<Cell, seq<SlotRef>>, a: int, b: int)
    ensures a in Crossings(m) && b in Crossings(m)[a] <==> a != b && ShareCell(m, m.Keys, a, b)
    ensures a in Crossings(m) ==> a !in Crossings(m)[a]
    ensures a in Crossings(m) && b in Crossings(m)[a] ==> b in Crossings(m) && a in Crossings(m)[b]
  {
    if ShareCell(m, m.Keys, a, b) {
      var c :| c in m.Keys && c in m && a in SlotIds(m[c]) && b in SlotIds(m[c]);
      assert a in IdsAt(m, m.Keys) && b in IdsAt(m, m.Keys);
    }
  }

  /**
   * For the index of a grid's slots, whose ids are their positions, two slots are
   * neighbours exactly when they are distinct and pass through a common cell.
   */
  lemma {:induction false} CrossingSlots(slots: seq<Slot>, a: int, b: int)
    requires forall k :: 0 <= k < |slots| ==> slots[k].slotId == k
    ensures a in Crossings(SlotRefs(slots)) && b in Crossings(SlotRefs(slots))[a] <==>
      && a != b && 0 <= a < |slots| && 0 <= b < |slots|
      && exists c :: c in slots[a].cells && c in slots[b].cells
  {
    var m := SlotRefs(slots);
    CrossingsExactly(m, a, b);
    if ShareCell(m, m.Keys, a, b) {
      var c :| c in m.Keys && c in m && a in SlotIds(m[c]) && b in SlotIds(m[c]);
      var i :| 0 <= i < |m[c]| && m[c][i].0 == a;
      var j :| 0 <= j < |m[c]| && m[c][j].0 == b;
      SlotRefsByPosition(slots, c, a, m[c][i].1);
      SlotRefsByPosition(slots, c, b, m[c][j].1);
      assert m[c][i] == (a, m[c][i].1) && m[c][j] == (b, m[c][j].1);
      assert slots[a].cells[m[c][i].1] == c && slots[b].cells[m[c][j].1] == c;
      assert c in slots[a].cells && c in slots[b].cells;
    }
    if 0 <= a < |slots| && 0 <= b < |slots| && exists c :: c in slots[a].cells && c in slots[b].cells {
      var c :| c in slots[a].cells && c in slots[b].cells;
      var i :| 0 <= i < |slots[a].cells| && slots[a].cells[i] == c;
      var j :| 0 <= j < |slots[b].cells| && slots[b].cells[j] == c;
      SlotRefsByPosition(slots, c, a, i);
      SlotRefsByPosition(slots, c, b, j);
      var ia :| 0 <= ia < |m[c]| && m[c][ia] == (a, i);
      var jb :| 0 <= jb < |m[c]| && m[c][jb] == (b, j);
      assert m[c][ia].0 == a && m[c][jb].0 == b;
      assert c in m.Keys && a in SlotIds(m[c]) && b in SlotIds(m[c]);
      assert ShareCell(m, m.Keys, a, b);
    }
  }

  // ---------------------------------------------------------------------------
  // The entry lists of a puzzle

  /** One clue entry: its number, its cells as [row, col] lists, its answer and an empty clue. */
  datatype Entry = Entry(number: int, cells: seq<seq<int>>, answer: string, clue: string)

  /** The "across" and "down" entry lists. */
  datatype Entries = Entries(across: seq<Entry>, down: seq<Entry>)

  function CellLists(cells: seq<Cell>): (r: seq<seq<int>>)
    ensures |r| == |cells| && forall i :: 0 <= i < |cells| ==> r[i] == [cells[i].0, cells[i].1]
  {
    seq(|cells|, i requires 0 <= i < |cells| => [cells[i].0, cells[i].1])
  }

  function EntryOf(slot: Slot, answer: string): Entry {
    Entry(slot.number, CellLists(slot.cells), answer, "")
  }

  /** The slot has a non-empty answer. */
  predicate HasAnswer(answers: map<int, string>, slot: Slot) {
    slot.slotId in answers && answers[slot.slotId] != ""
  }

  /** The entries of the answered slots in direction `d`, in slot order. */
  function Listed(slots: seq<Slot>, answers: map<int, string>, d: Direction): seq<Entry> {
    if slots == [] then []
    else
      var last := slots[|slots| - 1];
      Listed(slots[..|slots| - 1], answers, d)
        + (if last.direction == d && HasAnswer(answers, last) then [EntryOf(last, answers[last.slotId])] else [])
  }

  /** Orders entries by number. */
  predicate NumberLe(a: Entry, b: Entry) {
    a.number <= b.number
  }

  lemma NumberLeTotalPreorder()
    ensures Sorting.TotalPreorder(NumberLe)
  {
  }

  /**
   * Builds the entry lists: every answered slot's entry goes to its direction's list in
   * slot order, and each list is then sorted stably by number.
   */
  method BuildEntries(slots: seq<Slot>, answers: map<int, string>) returns (entries: Entries)
    ensures entries.across == Sorting.SortBy(Listed(slots, answers, Across), NumberLe)
    ensures entries.down == Sorting.SortBy(Listed(slots, answers, Down), NumberLe)
  {
    var across: seq<Entry> := [];
    var down: seq<Entry> := [];
    for k := 0 to |slots|
      invariant across == Listed(slots[..k], answers, Across)
      invariant down == Listed(slots[..k], answers, Down)
    {
      var slot := slots[k];
      assert slots[..k + 1][..k] == slots[..k];
      if slot.slotId !in answers || answers[slot.slotId] == "" {
        continue;
      }
      var entry := Entry(slot.number, CellLists(slot.cells), answers[slot.slotId], "");
      if slot.direction == Across {
        across := across + [entry];
      } else {
        down := down + [entry];
      }
    }
    assert slots[..|slots|] == slots;
    entries := Entries(Sorting.SortBy(across, NumberLe), Sorting.SortBy(down, NumberLe));
  }

  /** An entry is listed in direction `d` exactly when it is the entry of an answered slot in that direction. */
  lemma {:induction false} ListedExactly(slots: seq<Slot>, answers: map<int, string>, d: Direction, e: Entry)
    ensures e in Listed(slots, answers, d) <==>
      exists k :: 0 <= k < |slots| && slots[k].direction == d && HasAnswer(answers, slots[k])
        && e == EntryOf(slots[k], answers[slots[k].slotId])
  {
    if slots != [] {
      var n := |slots| - 1;
      ListedExactly(slots[..n], answers, d, e);
      if e in Listed(slots[..n], answers, d) {
        var k :| 0 <= k < n && slots[..n][k].direction == d && HasAnswer(answers, slots[..n][k])
          && e == EntryOf(slots[..n][k], answers[slots[..n][k].slotId]);
        assert slots[k] == slots[..n][k];
      }
      forall k | 0 <= k < n ensures slots[k] == slots[..n][k] {
      }
    }
  }

  /**
   * Each direction list holds the listed entries, each as often as listed, in order of
   * number, with entries of equal number kept in slot order.
   */
  lemma EntriesSortedStably(slots: seq<Slot>, answers: map<int, string>, d: Direction, y: Entry)
    ensures multiset(Sorting.SortBy(Listed(slots, answers, d), NumberLe)) == multiset(Listed(slots, answers, d))
    ensures Sorting.SortedBy(Sorting.SortBy(Listed(slots, answers, d), NumberLe), NumberLe)
    ensures Sorting.EquivalentTo(Sorting.SortBy(Listed(slots, answers, d), NumberLe), y, NumberLe)
      == Sorting.EquivalentTo(Listed(slots, answers, d), y, NumberLe)
  {
    NumberLeTotalPreorder();
    Sorting.SortBySorted(Listed(slots, answers, d), NumberLe);
    Sorting.SortByStable(Listed(slots, answers, d), y, NumberLe);
  }

  // ---------------------------------------------------------------------------
  // The answers read off a solved grid

  /** Every cell of every slot has a letter. */
  predicate AllLettered(slots: seq<Slot>, gridLetters: map<Cell, string>) {
    forall k, i :: 0 <= k < |slots| && 0 <= i < |slots[k].cells| ==> slots[k].cells[i] in gridLetters
  }

  /** The answers after recording each slot's spelled word in turn; a later slot with the same id wins. */
  function AnswersOf(slots: seq<Slot>, gridLetters: map<Cell, string>): map<int, string>
    requires AllLettered(slots, gridLetters)
  {
    if slots == [] then map[]
    else
      var last := slots[|slots| - 1];
      assert forall i :: 0 <= i < |last.cells| ==> last.cells[i] in gridLetters;
      AnswersOf(slots[..|slots| - 1], gridLetters)[last.slotId := Spell(last.cells, gridLetters)]
  }

  /** The answer of each slot: "" for every slot id first, then each slot's letters joined, in slot order. */
  method Answers(slots: seq<Slot>, gridLetters: map<Cell, string>) returns (answers: map<int, string>)
    requires AllLettered(slots, gridLetters)
    ensures answers == AnswersOf(slots, gridLetters)
  {
    var blank := map slot | slot in slots :: slot.slotId := "";
    answers := blank;
    assert slots[..0] == [];
    assert blank + AnswersOf(slots[..0], gridLetters) == blank;
    for k := 0 to |slots|
      invariant answers == blank + AnswersOf(slots[..k], gridLetters)
    {
      var slot := slots[k];
      assert slots[..k + 1][..k] == slots[..k];
      assert forall i :: 0 <= i < |slot.cells| ==> slot.cells[i] in gridLetters;
      UnionUpdate(blank, AnswersOf(slots[..k], gridLetters), slot.slotId, Spell(slot.cells, gridLetters));
      answers := answers[slot.slotId := Spell(slot.cells, gridLetters)];
    }
    assert slots[..|slots|] == slots;
    AnswersOfKeys(slots, gridLetters);
    UnionCovered(blank, AnswersOf(slots, gridLetters));
  }

  lemma UnionUpdate(a: map<int, string>, b: map<int, string>, k: int, v: string)
    ensures (a + b)[k := v] == a + b[k := v]
  {
  }

  lemma UnionCovered(a: map<int, string>, b: map<int, string>)
    requires a.Keys <= b.Keys
    ensures a + b == b
  {
  }

  lemma {:induction false} AnswersOfKeys(slots: seq<Slot>, gridLetters: map<Cell, string>)
    requires AllLettered(slots, gridLetters)
    ensures forall id :: id in AnswersOf(slots, gridLetters) <==> exists k :: 0 <= k < |slots| && slots[k].slotId == id
  {
    if slots != [] {
      var n := |slots| - 1;
      AnswersOfKeys(slots[..n], gridLetters);
      forall k | 0 <= k < n ensures slots[k] == slots[..n][k] {
      }
    }
  }

  /** With ids equal to positions, slot `k`'s answer is its cells' letters joined, and only the slots have answers. */
  lemma {:induction false} AnswersSpelled(slots: seq<Slot>, gridLetters: map<Cell, string>, k: int)
    requires AllLettered(slots, gridLetters)
    requires forall j :: 0 <= j < |slots| ==> slots[j].slotId == j
    requires 0 <= k < |slots|
    ensures k in AnswersOf(slots, gridLetters)
    ensures AnswersOf(slots, gridLetters)[k] == Spell(slots[k].cells, gridLetters)
  {
    var n := |slots| - 1;
    if k < n {
      assert AllLettered(slots[..n], gridLetters);
      assert forall j :: 0 <= j < n ==> slots[..n][j].slotId == j;
      AnswersSpelled(slots[..n], gridLetters, k);
      assert slots[..n][k] == slots[k];
    }
  }

  lemma {:induction false} SpellNonEmpty(cells: seq<Cell>, gridLetters: map<Cell, string>)
    requires forall i :: 0 <= i < |cells| ==> cells[i] in gridLetters && gridLetters[cells[i]] != ""
    requires cells != []
    ensures Spell(cells, gridLetters) != ""
  {
    var n := |cells| - 1;
    assert |Spell(cells, gridLetters)| >= |gridLetters[cells[n]]|;
  }

  /**
   * In a generated puzzle, whose slots have ids equal to their positions and whose slot
   * cells all carry non-empty letters, every slot gets an entry in its direction's list,
   * with its letters joined as the answer.
   */
  lemma PuzzleListsEverySlot(slots: seq<Slot>, gridLetters: map<Cell, string>, d: Direction, e: Entry)
    requires forall k :: 0 <= k < |slots| ==> slots[k].slotId == k && slots[k].cells != []
    requires forall k, i :: 0 <= k < |slots| && 0 <= i < |slots[k].cells| ==>
      slots[k].cells[i] in gridLetters && gridLetters[slots[k].cells[i]] != ""
    ensures e in Listed(slots, AnswersOf(slots, gridLetters), d) <==>
      exists k :: 0 <= k < |slots| && slots[k].direction == d && e == EntryOf(slots[k], Spell(slots[k].cells, gridLetters))
  {
    var answers := AnswersOf(slots, gridLetters);
    ListedExactly(slots, answers, d, e);
    forall k | 0 <= k < |slots|
      ensures HasAnswer(answers, slots[k]) && answers[slots[k].slotId] == Spell(slots[k].cells, gridLetters)
    {
      AnswersSpelled(slots, gridLetters, k);
      SpellNonEmpty(slots[k].cells, gridLetters);
    }
  }
}
