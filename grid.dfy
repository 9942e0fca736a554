/**
 * The generator's grid geometry: which black-cell layouts are acceptable, and the
 * slots (maximal across and down runs of two or more open cells) with the standard
 * crossword numbering. A cell is a (row, column) pair.
 */
module CrosswordGrid {
  import opened Wrappers

  type Cell = (int, int)

  predicate IsBorderCell(row: int, col: int, width: int, height: int) {
    row == 0 || col == 0 || row == height - 1 || col == width - 1
  }

  /** The distinct cells of a list of cells. */
  function CellSet(cells: seq<Cell>): (s: set<Cell>)
    ensures forall c :: c in s <==> c in cells
  {
    set c | c in cells
  }

  predicate InBounds(c: Cell, width: int, height: int) {
    0 <= c.0 < height && 0 <= c.1 < width
  }

  /** The cells share a side. */
  predicate Orthogonal(a: Cell, b: Cell) {
    (a.0 == b.0 && (a.1 - b.1 == 1 || b.1 - a.1 == 1)) || (a.1 == b.1 && (a.0 - b.0 == 1 || b.0 - a.0 == 1))
  }

  /** `b` is a border neighbour of `a`: next to it, inside the grid and on the border. */
  predicate Step(a: Cell, b: Cell, width: int, height: int) {
    Orthogonal(a, b) && InBounds(b, width, height) && IsBorderCell(b.0, b.1, width, height)
  }

  function OnBorder(cells: seq<Cell>, width: int, height: int): (r: seq<Cell>)
    ensures forall x :: x in r <==> x in cells && InBounds(x, width, height) && IsBorderCell(x.0, x.1, width, height)
  {
    if cells == [] then []
    else
      (if InBounds(cells[0], width, height) && IsBorderCell(cells[0].0, cells[0].1, width, height)
       then [cells[0]] else [])
      + OnBorder(cells[1..], width, height)
  }

  /** The cells above, below, left and right of `cell`, in that order, that lie on the grid's border. */
  function BorderNeighbors(cell: Cell, width: int, height: int): (r: seq<Cell>)
    ensures forall x :: x in r <==> Step(cell, x, width, height)
  {
    var (row, col) := cell;
    OnBorder([(row - 1, col), (row + 1, col), (row, col - 1), (row, col + 1)], width, height)
  }

  /** The four corner cells (fewer when the grid is one cell wide or high). */
  function Corners(width: int, height: int): (s: set<Cell>)
    ensures forall k :: k in s <==> (k.0 == 0 || k.0 == height - 1) && (k.1 == 0 || k.1 == width - 1)
  {
    {(0, 0), (0, width - 1), (height - 1, 0), (height - 1, width - 1)}
  }

  /** The corners on a side of the grid that `cell` lies on. */
  function ValidCornersForCell(cell: Cell, width: int, height: int): (s: set<Cell>)
    ensures forall k :: k in s <==>
      k in Corners(width, height) &&
      ((cell.0 == 0 && k.0 == 0) || (cell.0 == height - 1 && k.0 == height - 1) ||
       (cell.1 == 0 && k.1 == 0) || (cell.1 == width - 1 && k.1 == width - 1))
  {
    var (row, col) := cell;
    (if row == 0 then {(0, 0), (0, width - 1)} else {})
    + (if row == height - 1 then {(height - 1, 0), (height - 1, width - 1)} else {})
    + (if col == 0 then {(0, 0), (height - 1, 0)} else {})
    + (if col == width - 1 then {(0, width - 1), (height - 1, width - 1)} else {})
  }

  /** A border cell always has a corner on its side. */
  lemma BorderCellHasCorner(cell: Cell, width: int, height: int)
    requires IsBorderCell(cell.0, cell.1, width, height)
    ensures ValidCornersForCell(cell, width, height) != {}
  {
    var (row, col) := cell;
    if row == 0 {
      assert (0, 0) in ValidCornersForCell(cell, width, height);
    } else if row == height - 1 {
      assert (height - 1, 0) in ValidCornersForCell(cell, width, height);
    } else if col == 0 {
      assert (0, 0) in ValidCornersForCell(cell, width, height);
    } else {
      assert (0, width - 1) in ValidCornersForCell(cell, width, height);
    }
  }

  // ---------------------------------------------------------------------------
  // Connectivity of black cells along the border

  /** `p` walks from border neighbour to border neighbour through cells of `s`. */
  predicate Path(p: seq<Cell>, s: set<Cell>, width: int, height: int) {
    && |p| >= 1
    && (forall i :: 0 <= i < |p| ==> p[i] in s)
    && (forall i :: 0 <= i < |p| - 1 ==> Step(p[i], p[i + 1], width, height))
  }

  ghost predicate Connected(s: set<Cell>, a: Cell, b: Cell, width: int, height: int) {
    exists p :: Path(p, s, width, height) && p[0] == a && p[|p| - 1] == b
  }

  /** Some corner on a side of `c` is connected to `c` through black border cells. */
  ghost predicate CornerReachable(s: set<Cell>, c: Cell, width: int, height: int) {
    exists k :: k in ValidCornersForCell(c, width, height) && Connected(s, c, k, width, height)
  }

  /**
   * An acceptable black-cell layout: at most four cells, all on the border, each
   * connected along the border to a corner on its own side.
   */
  ghost predicate BlackCellsValid(width: int, height: int, s: set<Cell>) {
    && |s| <= 4
    && (forall c :: c in s ==> IsBorderCell(c.0, c.1, width, height))
    && (forall c :: c in s ==> CornerReachable(s, c, width, height))
  }

  predicate AllInBounds(s: set<Cell>, width: int, height: int) {
    forall c :: c in s ==> InBounds(c, width, height)
  }

  /** No border step leads from `v` to a cell of `s` outside `v`. */
  ghost predicate Closed(v: set<Cell>, s: set<Cell>, width: int, height: int) {
    forall x, y :: x in v && y in s && Step(x, y, width, height) ==> y in v
  }

  lemma ConnectedRefl(s: set<Cell>, a: Cell, width: int, height: int)
    requires a in s
    ensures Connected(s, a, a, width, height)
  {
    assert Path([a], s, width, height);
  }

  lemma ConnectedExtend(s: set<Cell>, a: Cell, b: Cell, c: Cell, width: int, height: int)
    requires Connected(s, a, b, width, height) && c in s && Step(b, c, width, height)
    ensures Connected(s, a, c, width, height)
  {
    var p :| Path(p, s, width, height) && p[0] == a && p[|p| - 1] == b;
    var q := p + [c];
    assert forall i :: 0 <= i < |p| ==> q[i] == p[i];
    assert Path(q, s, width, height);
  }

  lemma {:induction false} ClosedPath(v: set<Cell>, s: set<Cell>, p: seq<Cell>, width: int, height: int)
    requires Closed(v, s, width, height) && Path(p, s, width, height) && p[0] in v
    ensures forall i :: 0 <= i < |p| ==> p[i] in v
    decreases |p|
  {
    if |p| > 1 {
      var q := p[..|p| - 1];
      assert Path(q, s, width, height);
      ClosedPath(v, s, q, width, height);
      assert p[|p| - 2] == q[|q| - 1];
    }
  }

  /** A closed set holds everything connected to its members. */
  lemma ClosedReach(v: set<Cell>, s: set<Cell>, a: Cell, b: Cell, width: int, height: int)
    requires Closed(v, s, width, height) && a in v && Connected(s, a, b, width, height)
    ensures b in v
  {
    var p :| Path(p, s, width, height) && p[0] == a && p[|p| - 1] == b;
    ClosedPath(v, s, p, width, height);
  }

  lemma StepSymmetric(a: Cell, b: Cell, width: int, height: int)
    requires InBounds(a, width, height) && IsBorderCell(a.0, a.1, width, height)
    requires Step(a, b, width, height)
    ensures Step(b, a, width, height)
  {
  }

  function Reverse(p: seq<Cell>): (r: seq<Cell>)
    ensures |r| == |p| && forall i :: 0 <= i < |p| ==> r[i] == p[|p| - 1 - i]
  {
    if p == [] then [] else Reverse(p[1..]) + [p[0]]
  }

  /** Inside the grid, border connectivity goes both ways. */
  lemma ConnectedSymmetric(s: set<Cell>, a: Cell, b: Cell, width: int, height: int)
    requires AllInBounds(s, width, height) && forall c :: c in s ==> IsBorderCell(c.0, c.1, width, height)
    requires Connected(s, a, b, width, height)
    ensures Connected(s, b, a, width, height)
  {
    var p :| Path(p, s, width, height) && p[0] == a && p[|p| - 1] == b;
    var q := Reverse(p);
    forall i | 0 <= i < |q| - 1 ensures Step(q[i], q[i + 1], width, height) {
      var j := |p| - 2 - i;
      assert q[i] == p[j + 1] && q[i + 1] == p[j];
      StepSymmetric(p[j], p[j + 1], width, height);
    }
    assert Path(q, s, width, height);
  }

  lemma ConnectedTrans(s: set<Cell>, a: Cell, b: Cell, c: Cell, width: int, height: int)
    requires Connected(s, a, b, width, height) && Connected(s, b, c, width, height)
    ensures Connected(s, a, c, width, height)
  {
    var p :| Path(p, s, width, height) && p[0] == a && p[|p| - 1] == b;
    var q :| Path(q, s, width, height) && q[0] == b && q[|q| - 1] == c;
    var r := p + q[1..];
    forall i | 0 <= i < |r| - 1 ensures Step(r[i], r[i + 1], width, height) {
      if i < |p| - 1 {
        assert r[i] == p[i] && r[i + 1] == p[i + 1];
      } else {
        assert r[i] == q[i - |p| + 1] && r[i + 1] == q[i - |p| + 2];
      }
    }
    assert Path(r, s, width, height);
  }

  /** Every cell of the stack is black and connected to `start`. */
  ghost predicate Reached(stack: seq<Cell>, blackSet: set<Cell>, start: Cell, width: int, height: int) {
    forall i :: 0 <= i < |stack| ==> stack[i] in blackSet && Connected(blackSet, start, stack[i], width, height)
  }

  lemma ReachedPush(stack: seq<Cell>, c: Cell, blackSet: set<Cell>, start: Cell, width: int, height: int)
    requires Reached(stack, blackSet, start, width, height)
    requires c in blackSet && Connected(blackSet, start, c, width, height)
    ensures Reached(stack + [c], blackSet, start, width, height)
  {
    var s := stack + [c];
    forall i | 0 <= i < |s| ensures s[i] in blackSet && Connected(blackSet, start, s[i], width, height) {
      if i < |stack| {
        assert s[i] == stack[i];
      }
    }
  }

  lemma ReachedPop(stack: seq<Cell>, blackSet: set<Cell>, start: Cell, width: int, height: int)
    requires Reached(stack, blackSet, start, width, height) && stack != []
    ensures Reached(stack[..|stack| - 1], blackSet, start, width, height)
    ensures stack[|stack| - 1] in blackSet && Connected(blackSet, start, stack[|stack| - 1], width, height)
  {
  }

  /** Every black border neighbour of the component is visited or waiting on the stack. */
  ghost predicate Frontier(component: set<Cell>, visited: set<Cell>, stack: seq<Cell>, blackSet: set<Cell>,
                           width: int, height: int) {
    forall x, y :: x in component && y in blackSet && Step(x, y, width, height) ==> y in visited || y in stack
  }

  /** Popping a cell that was already visited keeps the frontier. */
  lemma FrontierPopVisited(component: set<Cell>, visited: set<Cell>, stack: seq<Cell>, cell: Cell,
                           blackSet: set<Cell>, width: int, height: int)
    requires Frontier(component, visited, stack + [cell], blackSet, width, height) && cell in visited
    ensures Frontier(component, visited, stack, blackSet, width, height)
  {
    forall x, y | x in component && y in blackSet && Step(x, y, width, height) ensures y in visited || y in stack {
      assert y in visited || y in stack + [cell];
    }
  }

  /** Visiting a popped cell and pushing its unvisited neighbours keeps the frontier. */
  lemma FrontierVisit(component: set<Cell>, visited: set<Cell>, popped: seq<Cell>, cell: Cell,
                      blackSet: set<Cell>, width: int, height: int)
    requires Frontier(component, visited, popped + [cell], blackSet, width, height)
    ensures Frontier(component + {cell}, visited + {cell},
                     popped + Pushed(BorderNeighbors(cell, width, height), blackSet, visited + {cell}),
                     blackSet, width, height)
  {
    var stack := popped + Pushed(BorderNeighbors(cell, width, height), blackSet, visited + {cell});
    forall x, y | x in component + {cell} && y in blackSet && Step(x, y, width, height)
      ensures y in visited + {cell} || y in stack
    {
      if x != cell {
        assert y in visited || y in popped + [cell];
        if y in popped {
          var i :| 0 <= i < |popped| && popped[i] == y;
          assert stack[i] == y;
        }
      } else if y !in visited + {cell} {
        var pushed := Pushed(BorderNeighbors(cell, width, height), blackSet, visited + {cell});
        PushedMembers(BorderNeighbors(cell, width, height), blackSet, visited + {cell});
        var i :| 0 <= i < |pushed| && pushed[i] == y;
        assert stack[|popped| + i] == y;
      }
    }
  }

  /** The state of the depth-first search between two pops. */
  ghost predicate Searching(blackSet: set<Cell>, width: int, height: int, start: Cell, visited0: set<Cell>,
                            visited: set<Cell>, component: set<Cell>, stack: seq<Cell>) {
    && visited == visited0 + component && visited0 !! component && component <= blackSet
    && Reached(stack, blackSet, start, width, height)
    && (forall x :: x in component ==> Connected(blackSet, start, x, width, height))
    && (component == {} ==> stack == [start])
    && (component != {} ==> start in component)
    && Frontier(component, visited, stack, blackSet, width, height)
  }

  lemma PopLast(stack: seq<Cell>)
    requires stack != []
    ensures stack == stack[..|stack| - 1] + [stack[|stack| - 1]]
  {
  }

  /** Popping a cell that was visited already keeps the search state. */
  lemma SearchingPopVisited(blackSet: set<Cell>, width: int, height: int, start: Cell, visited0: set<Cell>,
                            visited: set<Cell>, component: set<Cell>, stack: seq<Cell>, cell: Cell)
    requires start !in visited0
    requires Searching(blackSet, width, height, start, visited0, visited, component, stack + [cell])
    requires cell in visited
    ensures Searching(blackSet, width, height, start, visited0, visited, component, stack)
  {
    ReachedPop(stack + [cell], blackSet, start, width, height);
    assert (stack + [cell])[..|stack|] == stack;
    FrontierPopVisited(component, visited, stack, cell, blackSet, width, height);
  }

  /** Visiting a popped cell that was not visited yet keeps the search state. */
  lemma SearchingVisit(blackSet: set<Cell>, width: int, height: int, start: Cell, visited0: set<Cell>,
                       visited: set<Cell>, component: set<Cell>, stack: seq<Cell>, cell: Cell)
    requires Searching(blackSet, width, height, start, visited0, visited, component, stack + [cell])
    requires cell !in visited
    ensures Searching(blackSet, width, height, start, visited0, visited + {cell}, component + {cell},
                      stack + Pushed(BorderNeighbors(cell, width, height), blackSet, visited + {cell}))
  {
    ReachedPop(stack + [cell], blackSet, start, width, height);
    assert (stack + [cell])[..|stack|] == stack;
    PushedReached(stack, cell, visited + {cell}, blackSet, start, width, height);
    FrontierVisit(component, visited, stack, cell, blackSet, width, height);
  }

  /**
   * One round of the search: pops the top cell and, unless it was visited already, adds
   * it to the component and pushes its unvisited black border neighbours.
   */
  method VisitNext(blackSet: set<Cell>, width: int, height: int, start: Cell, visited0: set<Cell>,
                   visited: set<Cell>, component: set<Cell>, stack: seq<Cell>)
    returns (visited': set<Cell>, component': set<Cell>, stack': seq<Cell>)
    requires start !in visited0 && visited0 <= blackSet
    requires Searching(blackSet, width, height, start, visited0, visited, component, stack) && stack != []
    ensures Searching(blackSet, width, height, start, visited0, visited', component', stack')
    ensures |blackSet - visited'| < |blackSet - visited| || (visited' == visited && |stack'| < |stack|)
  {
    var cell := stack[|stack| - 1];
    stack' := stack[..|stack| - 1];
    PopLast(stack);
    if cell in visited {
      SearchingPopVisited(blackSet, width, height, start, visited0, visited, component, stack', cell);
      visited', component' := visited, component;
      return;
    }
    SearchingVisit(blackSet, width, height, start, visited0, visited, component, stack', cell);
    ReachedPop(stack, blackSet, start, width, height);
    stack' := PushUnvisited(blackSet, width, height, cell, visited + {cell}, stack');
    visited', component' := visited + {cell}, component + {cell};
    VisitShrinks(blackSet, visited, cell);
  }

  /** Visiting a black cell not visited before leaves fewer black cells to visit. */
  lemma VisitShrinks(blackSet: set<Cell>, visited: set<Cell>, cell: Cell)
    requires cell in blackSet && cell !in visited
    ensures |blackSet - (visited + {cell})| < |blackSet - visited|
  {
    assert blackSet - (visited + {cell}) == (blackSet - visited) - {cell};
  }

  /**
   * Depth-first search from `start` through black border neighbours not yet visited.
   * The component found is disjoint from what was visited before, connected to `start`,
   * and leaves the visited cells closed.
   */
  method ExploreComponent(blackSet: set<Cell>, width: int, height: int, start: Cell, visited0: set<Cell>)
    returns (visited: set<Cell>, component: set<Cell>)
    requires start in blackSet && start !in visited0 && visited0 <= blackSet
    requires Closed(visited0, blackSet, width, height)
    ensures visited == visited0 + component && visited0 !! component && component <= blackSet
    ensures start in component
    ensures Closed(visited, blackSet, width, height)
    ensures forall x :: x in component ==> Connected(blackSet, start, x, width, height)
  {
    ConnectedRefl(blackSet, start, width, height);
    var stack := [start];
    visited, component := visited0, {};
    while stack != []
      invariant Searching(blackSet, width, height, start, visited0, visited, component, stack)
      decreases |blackSet - visited|, |stack|
    {
      visited, component, stack := VisitNext(blackSet, width, height, start, visited0, visited, component, stack);
    }
    forall x, y | x in visited && y in blackSet && Step(x, y, width, height) ensures y in visited {
      if x in visited0 {
        assert y in visited0;
      }
    }
  }

  /** The cells of `neighbors`, in order, that are black and not visited yet. */
  function Pushed(neighbors: seq<Cell>, blackSet: set<Cell>, visited: set<Cell>): seq<Cell> {
    if neighbors == [] then []
    else
      var last := neighbors[|neighbors| - 1];
      Pushed(neighbors[..|neighbors| - 1], blackSet, visited) + (if last in blackSet && last !in visited then [last] else [])
  }

  /** A cell is pushed exactly when it is one of the neighbours, black and not visited. */
  lemma {:induction false} PushedMembers(neighbors: seq<Cell>, blackSet: set<Cell>, visited: set<Cell>)
    ensures forall y :: y in Pushed(neighbors, blackSet, visited) <==> y in neighbors && y in blackSet && y !in visited
  {
    if neighbors != [] {
      var init := neighbors[..|neighbors| - 1];
      PushedMembers(init, blackSet, visited);
      assert neighbors == init + [neighbors[|neighbors| - 1]];
    }
  }

  /** Pushes the black border neighbours of `cell` that are not visited yet, in neighbour order. */
  method PushUnvisited(blackSet: set<Cell>, width: int, height: int, cell: Cell, visited: set<Cell>,
                       stack0: seq<Cell>) returns (stack: seq<Cell>)
    ensures stack == stack0 + Pushed(BorderNeighbors(cell, width, height), blackSet, visited)
  {
    var neighbors := BorderNeighbors(cell, width, height);
    stack := stack0;
    for k := 0 to |neighbors|
      invariant stack == stack0 + Pushed(neighbors[..k], blackSet, visited)
    {
      var neighbor := neighbors[k];
      assert neighbors[..k + 1][..k] == neighbors[..k];
      if neighbor in blackSet && neighbor !in visited {
        stack := stack + [neighbor];
      }
    }
    assert neighbors[..|neighbors|] == neighbors;
  }

  /** The pushed neighbours of a reached cell are reached as well. */
  lemma PushedReached(stack0: seq<Cell>, cell: Cell, visited: set<Cell>,
                      blackSet: set<Cell>, start: Cell, width: int, height: int)
    requires Connected(blackSet, start, cell, width, height)
    requires Reached(stack0, blackSet, start, width, height)
    ensures Reached(stack0 + Pushed(BorderNeighbors(cell, width, height), blackSet, visited), blackSet, start, width, height)
  {
    var pushed := Pushed(BorderNeighbors(cell, width, height), blackSet, visited);
    PushedMembers(BorderNeighbors(cell, width, height), blackSet, visited);
    var s := stack0 + pushed;
    forall i | 0 <= i < |s| ensures s[i] in blackSet && Connected(blackSet, start, s[i], width, height) {
      if i < |stack0| {
        assert s[i] == stack0[i];
      } else {
        assert s[i] == pushed[i - |stack0|];
        ConnectedExtend(blackSet, start, cell, s[i], width, height);
      }
    }
  }

  /** Every cell of the component has a corner of the component on one of its sides. */
  method ComponentCornersValid(component: set<Cell>, componentCorners: set<Cell>, width: int, height: int)
    returns (valid: bool)
    ensures valid <==> forall c :: c in component ==> ValidCornersForCell(c, width, height) * componentCorners != {}
  {
    var rest := component;
    while rest != {}
      invariant rest <= component
      invariant forall c :: c in component - rest ==> ValidCornersForCell(c, width, height) * componentCorners != {}
      decreases |rest|
    {
      var cell :| cell in rest;
      if ValidCornersForCell(cell, width, height) * componentCorners == {} {
        return false;
      }
      rest := rest - {cell};
    }
    return true;
  }

  /** A component whose every cell sees one of its corners: each of its cells can reach such a corner. */
  lemma ComponentReachesCorners(s: set<Cell>, start: Cell, component: set<Cell>, width: int, height: int)
    requires AllInBounds(s, width, height) && forall c :: c in s ==> IsBorderCell(c.0, c.1, width, height)
    requires forall x :: x in component ==> Connected(s, start, x, width, height)
    requires forall c :: c in component ==>
      ValidCornersForCell(c, width, height) * (component * Corners(width, height)) != {}
    ensures forall c :: c in component ==> CornerReachable(s, c, width, height)
  {
    forall c | c in component ensures CornerReachable(s, c, width, height) {
      var k :| k in ValidCornersForCell(c, width, height) * (component * Corners(width, height));
      ConnectedSymmetric(s, start, c, width, height);
      ConnectedTrans(s, c, start, k, width, height);
    }
  }

  /** A cell of a fresh component that sees none of the component's corners reaches no valid corner at all. */
  lemma ComponentMissesCorner(s: set<Cell>, visited0: set<Cell>, component: set<Cell>, c: Cell, width: int, height: int)
    requires AllInBounds(s, width, height) && forall x :: x in s ==> IsBorderCell(x.0, x.1, width, height)
    requires Closed(visited0, s, width, height) && Closed(visited0 + component, s, width, height)
    requires visited0 !! component && c in component
    requires ValidCornersForCell(c, width, height) * (component * Corners(width, height)) == {}
    ensures !CornerReachable(s, c, width, height)
  {
    if k :| k in ValidCornersForCell(c, width, height) && Connected(s, c, k, width, height) {
      ClosedReach(visited0 + component, s, c, k, width, height);
      if k in visited0 {
        ConnectedSymmetric(s, c, k, width, height);
        ClosedReach(visited0, s, k, c, width, height);
      }
      assert k in ValidCornersForCell(c, width, height) * (component * Corners(width, height));
    }
  }

  /** Whether every cell lies on the grid's border. */
  method AllOnBorder(blackSet: set<Cell>, width: int, height: int) returns (onBorder: bool)
    ensures onBorder <==> forall c :: c in blackSet ==> IsBorderCell(c.0, c.1, width, height)
  {
    var rest := blackSet;
    while rest != {}
      invariant rest <= blackSet
      invariant forall c :: c in blackSet - rest ==> IsBorderCell(c.0, c.1, width, height)
      decreases |rest|
    {
      var cell :| cell in rest;
      if !IsBorderCell(cell.0, cell.1, width, height) {
        return false;
      }
      rest := rest - {cell};
    }
    return true;
  }

  /**
   * Explores the border-connected groups of black cells one at a time and checks that
   * in each group every cell has a corner of the group on one of its sides. Inside the
   * grid that is exactly every cell reaching a corner on its own side.
   */
  method GroupsReachCorners(blackSet: set<Cell>, width: int, height: int) returns (ok: bool)
    requires forall c :: c in blackSet ==> IsBorderCell(c.0, c.1, width, height)
    ensures AllInBounds(blackSet, width, height) ==>
      (ok <==> forall c :: c in blackSet ==> CornerReachable(blackSet, c, width, height))
  {
    var cornersSet := Corners(width, height);
    var visited: set<Cell> := {};
    var starts := blackSet;
    while starts != {}
      invariant starts <= blackSet && visited <= blackSet
      invariant blackSet - starts <= visited
      invariant Closed(visited, blackSet, width, height)
      invariant AllInBounds(blackSet, width, height) ==>
        forall x :: x in visited ==> CornerReachable(blackSet, x, width, height)
      decreases |starts|
    {
      var start :| start in starts;
      starts := starts - {start};
      if start in visited {
        continue;
      }
      ghost var visited0 := visited;
      var component;
      visited, component := ExploreComponent(blackSet, width, height, start, visited);
      var componentCorners := component * cornersSet;
      var valid := ComponentCornersValid(component, componentCorners, width, height);
      if !valid {
        if AllInBounds(blackSet, width, height) {
          var c :| c in component && ValidCornersForCell(c, width, height) * componentCorners == {};
          ComponentMissesCorner(blackSet, visited0, component, c, width, height);
        }
        return false;
      }
      if AllInBounds(blackSet, width, height) {
        ComponentReachesCorners(blackSet, start, component, width, height);
      }
    }
    return true;
  }

  /**
   * Accepts a black-cell layout: at most four distinct cells, all on the border, and in
   * each border-connected group every cell has a corner of the group on one of its
   * sides. For cells inside the grid that is exactly `BlackCellsValid`.
   */
  method ValidateBlackCells(width: int, height: int, blackCells: seq<Cell>) returns (ok: bool)
    ensures var s := CellSet(blackCells);
      && (|s| > 4 ==> !ok)
      && ((exists c :: c in s && !IsBorderCell(c.0, c.1, width, height)) ==> !ok)
      && (s == {} ==> ok)
      && (AllInBounds(s, width, height) ==> (ok <==> BlackCellsValid(width, height, s)))
  {
    var blackSet := CellSet(blackCells);
    if |blackSet| > 4 {
      return false;
    }
    var onBorder := AllOnBorder(blackSet, width, height);
    if !onBorder {
      return false;
    }
    if blackSet == {} {
      return true;
    }
    ok := GroupsReachCorners(blackSet, width, height);
  }
}
