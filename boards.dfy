/**
 * The n-by-n sliding-tile board of the 8-puzzle (src/week4/Board.java).
 *
 * Tiles are kept row-major in one sequence; 0 is the blank. The pure part
 * below gives the coordinate conversions and the quantities the board caches
 * (Hamming count, Manhattan distance, goal flag, blank index, neighbours,
 * twin); the class `Board` computes them with the source's loops and proves
 * that the cached values agree with these definitions.
 */
module Boards {

  import opened Outcomes
  import opened Arithmetic

  // ---------------------------------------------------------------------
  // Coordinates
  // ---------------------------------------------------------------------

  /** Row of a row-major index: Java's `index / n`, which truncates toward zero. */
  function Row(n: nat, index: int): (r: int)
    requires n > 0
    ensures index >= 0 ==> r * n <= index < r * n + n
    ensures index < 0 ==> r * n - n < index <= r * n
  {
    if index >= 0 then index / n else -((-index) / n)
  }

  /** Column of a row-major index: `index - row * n`. */
  function Col(n: nat, index: int): (c: int)
    requires n > 0
    ensures index >= 0 ==> 0 <= c < n
    ensures index < 0 ==> -(n as int) < c <= 0
  {
    index - Row(n, index) * n
  }

  /** Row-major index of a cell: `col + n * row`. */
  function Index(n: nat, row: int, col: int): (i: int)
    ensures 0 <= row < n && 0 <= col < n ==> 0 <= i < n * n
  {
    if 0 <= row < n && 0 <= col < n then
      CellBound(n, row, col);
      col + n * row
    else
      col + n * row
  }

  /** Every index is recovered from its row and column. */
  lemma IndexOfRowCol(n: nat, index: int)
    requires n > 0
    ensures Index(n, Row(n, index), Col(n, index)) == index
  {
  }

  /** Converting a cell to an index and back gives the cell again. */
  lemma RowColRoundTrip(n: nat, row: int, col: int)
    requires n > 0 && 0 <= row && 0 <= col < n
    ensures Row(n, Index(n, row, col)) == row
    ensures Col(n, Index(n, row, col)) == col
  {
    var i := Index(n, row, col);
    MulMonotone(0, row, n);
    DivUnique(i, n, row, col);
  }

  /** A valid index has a row and a column inside the grid. */
  lemma RowColBounds(n: nat, index: int)
    requires n > 0 && 0 <= index < n * n
    ensures 0 <= Row(n, index) < n && 0 <= Col(n, index) < n
  {
    var q := index / n;
    if q >= n {
      MulMonotone(n, q, n);
    } else if q < 0 {
      MulMonotone(q, -1, n);
    }
  }

  /** Row r of a grid of width w ends no later than row k starts, for r < k. */
  lemma RowEnd(w: nat, r: nat, k: nat)
    requires r < k
    ensures r * w + w <= k * w && (r + 1) * w == r * w + w
  {
    MulMonotone(r + 1, k, w);
  }

  /** Cell (i, j) of a w-by-w grid lies inside it. */
  lemma CellBound(w: nat, i: nat, j: nat)
    requires i < w && j < w
    ensures i * w + j < w * w && i * w + w <= w * w && (i + 1) * w == i * w + w
  {
    RowEnd(w, i, w);
  }

  // ---------------------------------------------------------------------
  // Tile sequences
  // ---------------------------------------------------------------------

  /** The tiles are a permutation of 0 .. n*n-1: in range, distinct, and complete. */
  ghost predicate IsPermutation(n: nat, t: seq<int>)
  {
    && |t| == n * n
    && (forall i :: 0 <= i < |t| ==> 0 <= t[i] < n * n)
    && (forall i, j :: 0 <= i < j < |t| ==> t[i] != t[j])
    && (forall v :: 0 <= v < n * n ==> v in t)
  }

  /** The ordered goal arrangement 1, 2, ..., n*n-1, 0. */
  function GoalTiles(n: nat): (t: seq<int>)
    ensures |t| == n * n
  {
    seq(n * n, i => if i == n * n - 1 then 0 else i + 1)
  }

  /** `t` with the entries at `i` and `j` exchanged. */
  function Swapped(t: seq<int>, i: int, j: int): (r: seq<int>)
    requires 0 <= i < |t| && 0 <= j < |t|
    ensures |r| == |t| && r[i] == t[j] && r[j] == t[i]
    ensures forall k :: 0 <= k < |t| && k != i && k != j ==> r[k] == t[k]
  {
    t[i := t[j]][j := t[i]]
  }

  /** Exchanging the same two entries twice restores the sequence. */
  lemma SwappedTwice(t: seq<int>, i: int, j: int)
    requires 0 <= i < |t| && 0 <= j < |t|
    ensures Swapped(Swapped(t, i, j), i, j) == t
  {
  }

  /** A swap of two entries keeps a permutation a permutation. */
  lemma SwappedPermutation(n: nat, t: seq<int>, i: int, j: int)
    requires IsPermutation(n, t) && 0 <= i < |t| && 0 <= j < |t|
    ensures IsPermutation(n, Swapped(t, i, j))
  {
    var r := Swapped(t, i, j);
    forall v | 0 <= v < n * n
      ensures v in r
    {
      assert v in t;
      var k :| 0 <= k < |t| && t[k] == v;
      var k' := if k == i then j else if k == j then i else k;
      assert r[k'] == v;
    }
  }

  /** Tile i is out of place: it is not the blank and not i+1. */
  predicate Misplaced(t: seq<int>, i: int)
    requires 0 <= i < |t|
  {
    t[i] != i + 1 && t[i] != 0
  }

  /** The board's goal test: no tile is out of place. */
  predicate IsGoalTiles(t: seq<int>)
  {
    forall i :: 0 <= i < |t| ==> !Misplaced(t, i)
  }

  /** The Hamming count: the number of out-of-place tiles. */
  function HammingOf(t: seq<int>): nat
  {
    if |t| == 0 then 0
    else HammingOf(t[..|t| - 1]) + (if Misplaced(t, |t| - 1) then 1 else 0)
  }

  /** Manhattan distance of the tile at index i from the cell where tile t[i] belongs. */
  function TileDistance(n: nat, t: seq<int>, i: int): nat
    requires n > 0 && 0 <= i < |t|
  {
    if t[i] == 0 then 0
    else Abs(Col(n, t[i] - 1) - Col(n, i)) + Abs(Row(n, t[i] - 1) - Row(n, i))
  }

  /** The Manhattan distance: the sum of the tile distances of all non-blank tiles. */
  function ManhattanOf(n: nat, t: seq<int>): nat
    requires n > 0 || |t| == 0
  {
    if |t| == 0 then 0
    else ManhattanOf(n, t[..|t| - 1]) + TileDistance(n, t, |t| - 1)
  }

  /** The index the constructor records as the blank: the last index holding 0, or 0 if none does. */
  function BlankIndexOf(t: seq<int>): (b: nat)
    ensures |t| > 0 ==> b < |t|
  {
    if |t| == 0 then 0
    else if t[|t| - 1] == 0 then |t| - 1
    else BlankIndexOf(t[..|t| - 1])
  }

  /** The recorded blank is the last cell holding 0 when there is one, and index 0 otherwise. */
  lemma {:induction false} BlankIndexIsLastBlank(t: seq<int>)
    ensures 0 in t ==> t[BlankIndexOf(t)] == 0 && forall k :: BlankIndexOf(t) < k < |t| ==> t[k] != 0
    ensures 0 !in t ==> BlankIndexOf(t) == 0
  {
    if |t| > 0 && t[|t| - 1] != 0 {
      var p := t[..|t| - 1];
      BlankIndexIsLastBlank(p);
      assert 0 in t <==> 0 in p by {
        assert t == p + [t[|t| - 1]];
      }
    }
  }

  /** The goal test holds exactly when the Hamming count is 0. */
  lemma {:induction false} GoalIffHammingZero(t: seq<int>)
    ensures IsGoalTiles(t) <==> HammingOf(t) == 0
  {
    if |t| > 0 {
      var p := t[..|t| - 1];
      GoalIffHammingZero(p);
      assert forall i :: 0 <= i < |p| ==> (Misplaced(p, i) <==> Misplaced(t, i));
    }
  }

  /** A tile contributes no Manhattan distance exactly when it is in place. */
  lemma TileDistanceZero(n: nat, t: seq<int>, i: int)
    requires n > 0 && 0 <= i < |t|
    ensures TileDistance(n, t, i) == 0 <==> !Misplaced(t, i)
  {
    if t[i] != 0 && TileDistance(n, t, i) == 0 {
      IndexOfRowCol(n, t[i] - 1);
      IndexOfRowCol(n, i);
    }
  }

  /** The Manhattan distance is 0 exactly when the board passes the goal test. */
  lemma {:induction false} ManhattanZeroIffGoal(n: nat, t: seq<int>)
    requires n > 0 || |t| == 0
    ensures ManhattanOf(n, t) == 0 <==> IsGoalTiles(t)
  {
    if |t| > 0 {
      var p := t[..|t| - 1];
      ManhattanZeroIffGoal(n, p);
      assert forall i :: 0 <= i < |p| ==> (Misplaced(p, i) <==> Misplaced(t, i));
      TileDistanceZero(n, t, |t| - 1);
    }
  }

  /** On a permutation, the goal test holds exactly for the arrangement 1, ..., n*n-1, 0. */
  lemma GoalTestIsGoalArrangement(n: nat, t: seq<int>)
    ensures IsPermutation(n, t) ==> (IsGoalTiles(t) <==> t == GoalTiles(n))
  {
    var g := GoalTiles(n);
    if IsPermutation(n, t) && IsGoalTiles(t) {
      forall i | 0 <= i < n * n - 1
        ensures t[i] == i + 1
      {
        assert i + 1 in t;
        var j :| 0 <= j < |t| && t[j] == i + 1;
        assert !Misplaced(t, j);
      }
      if n > 0 {
        assert 0 in t;
        var j :| 0 <= j < |t| && t[j] == 0;
        assert j == n * n - 1;
      }
      assert t == g;
    }
  }

  // ---------------------------------------------------------------------
  // Grids and their row-major flattening
  // ---------------------------------------------------------------------

  /** Every row of the grid has width w. */
  predicate RowsOfWidth(grid: seq<seq<int>>, w: nat)
  {
    forall i :: 0 <= i < |grid| ==> |grid[i]| == w
  }

  /** An n-by-n grid. */
  predicate IsSquare(grid: seq<seq<int>>)
  {
    RowsOfWidth(grid, |grid|)
  }

  /** The rows of the grid, one after the other. */
  function Flatten(grid: seq<seq<int>>): seq<int>
  {
    if |grid| == 0 then [] else Flatten(grid[..|grid| - 1]) + grid[|grid| - 1]
  }

  lemma {:induction false} FlattenLength(grid: seq<seq<int>>, w: nat)
    requires RowsOfWidth(grid, w)
    ensures |Flatten(grid)| == |grid| * w
  {
    if |grid| > 0 {
      FlattenLength(grid[..|grid| - 1], w);
    }
  }

  /** The flattening stores cell (r, c) at index r*w + c. */
  lemma {:induction false} FlattenAt(grid: seq<seq<int>>, w: nat, r: nat, c: nat)
    requires RowsOfWidth(grid, w) && r < |grid| && c < w
    ensures |Flatten(grid)| == |grid| * w
    ensures 0 <= Index(w, r, c) < |Flatten(grid)|
    ensures Flatten(grid)[Index(w, r, c)] == grid[r][c]
  {
    RowEnd(w, r, |grid|);
    var last := |grid| - 1;
    var front := grid[..last];
    assert RowsOfWidth(front, w);
    FlattenLength(grid, w);
    FlattenLength(front, w);
    assert Flatten(grid) == Flatten(front) + grid[last];
    if r < last {
      FlattenAt(front, w, r, c);
      RowEnd(w, r, last);
    } else {
      assert Index(w, r, c) == |Flatten(front)| + c;
    }
  }

  // ---------------------------------------------------------------------
  // Neighbours and twin
  // ---------------------------------------------------------------------

  /** Each of the four moves stays inside the board exactly when its guard holds. */
  lemma MoveBounds(n: nat, b: int)
    requires n > 0 && 0 <= b < n * n
    ensures Row(n, b) > 0 ==> 0 <= b - n
    ensures Row(n, b) < n - 1 ==> b + n < n * n
    ensures Col(n, b) < n - 1 ==> b + 1 < n * n
    ensures Col(n, b) > 0 ==> 0 <= b - 1
  {
    MovesAreAdjacent(n, b);
  }

  /**
   * The boards one blank slide away, in the order the source adds them:
   * blank up (-n), down (+n), right (+1), left (-1), each move added only
   * when it stays on the board; each is `t` with the blank index b
   * exchanged with the target cell.
   */
  function NeighborsOf(n: nat, t: seq<int>, b: int): (r: seq<seq<int>>)
    requires n > 0 && |t| == n * n && 0 <= b < |t|
    ensures |r| <= 4 && forall i :: 0 <= i < |r| ==> |r[i]| == |t|
  {
    NeighborsAt(n, t, b, Row(n, b), Col(n, b))
  }

  /** The neighbour list, given the blank's row and column. */
  function NeighborsAt(n: nat, t: seq<int>, b: int, row: int, col: int): (r: seq<seq<int>>)
    requires n > 0 && |t| == n * n && 0 <= b < |t|
    requires row == Row(n, b) && col == Col(n, b)
    ensures |r| <= 4 && forall i :: 0 <= i < |r| ==> |r[i]| == |t|
  {
    StepBounds(n, b, row, col);
    var afterUp := AppendMove([], t, b, row > 0, -(n as int));
    var afterDown := AppendMove(afterUp, t, b, row < n - 1, n);
    var afterRight := AppendMove(afterDown, t, b, col < n - 1, 1);
    AppendMove(afterRight, t, b, col > 0, -1)
  }

  /** NeighborsAt as four guarded appends with the guards and offsets named. */
  lemma NeighborsAtSteps(n: nat, t: seq<int>, b: int, row: int, col: int,
                         up: bool, down: bool, right: bool, left: bool,
                         upPos: int, downPos: int, rightPos: int, leftPos: int)
    requires n > 0 && |t| == n * n && 0 <= b < |t|
    requires row == Row(n, b) && col == Col(n, b)
    requires up == (row > 0) && down == (row < n - 1) && right == (col < n - 1) && left == (col > 0)
    requires upPos == -(n as int) && downPos == n && rightPos == 1 && leftPos == -1
    ensures up ==> 0 <= b + upPos < |t|
    ensures down ==> 0 <= b + downPos < |t|
    ensures right ==> 0 <= b + rightPos < |t|
    ensures left ==> 0 <= b + leftPos < |t|
    ensures NeighborsAt(n, t, b, row, col) ==
      AppendMove(AppendMove(AppendMove(AppendMove([], t, b, up, upPos),
        t, b, down, downPos), t, b, right, rightPos), t, b, left, leftPos)
  {
    StepBounds(n, b, row, col);
  }

  /** `s` followed, when `guard` holds, by `t` with the blank at b slid to b + pos. */
  function AppendMove(s: seq<seq<int>>, t: seq<int>, b: int, guard: bool, pos: int): (r: seq<seq<int>>)
    requires 0 <= b < |t| && (guard ==> 0 <= b + pos < |t|)
    ensures |r| <= |s| + 1
    ensures forall u :: u in r ==> u in s || (guard && u == Slide(t, b, pos))
  {
    if guard then s + [Slide(t, b, pos)] else s
  }

  /** `t` with the blank at b moved by pos: the tile at b + pos slides into b. */
  function Slide(t: seq<int>, b: int, pos: int): (u: seq<int>)
    requires 0 <= b < |t| && 0 <= b + pos < |t|
    ensures |u| == |t| && multiset(u) == multiset(t)
  {
    Swapped(t, b + pos, b)
  }

  /** The moves of the blank at b that stay on the board, with its row and column given. */
  lemma StepBounds(n: nat, b: int, row: int, col: int)
    requires n > 0 && 0 <= b < n * n
    requires row == Row(n, b) && col == Col(n, b)
    ensures row > 0 ==> 0 <= b + -(n as int)
    ensures row < n - 1 ==> b + n < n * n
    ensures col < n - 1 ==> b + 1 < n * n
    ensures col > 0 ==> 0 <= b + -1
  {
    MoveBounds(n, b);
  }

  /** Two cells of the n-by-n grid share a side. */
  predicate Adjacent(n: nat, a: int, b: int)
    requires n > 0
  {
    && 0 <= a < n * n && 0 <= b < n * n
    && Abs(Row(n, a) - Row(n, b)) + Abs(Col(n, a) - Col(n, b)) == 1
  }

  /** `u` is `t` after sliding the tile of a cell adjacent to b into b. */
  ghost predicate IsSlide(n: nat, t: seq<int>, b: int, u: seq<int>)
    requires n > 0 && |t| == n * n
  {
    exists target :: Adjacent(n, b, target) && u == Swapped(t, target, b)
  }

  /** n * (r +/- 1) distributes. */
  lemma MulStep(n: int, r: int)
    ensures n * (r + 1) == n * r + n && n * (r - 1) == n * r - n
  {
  }


  /** A cell of the grid at distance one from the cell of b is adjacent to b. */
  lemma NeighborCell(n: nat, b: int, r: int, c: int)
    requires n > 0 && 0 <= b < n * n && 0 <= r < n && 0 <= c < n
    requires Abs(Row(n, b) - r) + Abs(Col(n, b) - c) == 1
    ensures Adjacent(n, b, Index(n, r, c))
  {
    RowColRoundTrip(n, r, c);
    CellBound(n, r, c);
  }

  /** A cell the blank at b can slide to: up, down, right or left, staying on the board. */
  predicate MoveTarget(n: nat, b: int, target: int)
    requires n > 0
  {
    || (Row(n, b) > 0 && target == b + -(n as int))
    || (Row(n, b) < n - 1 && target == b + n)
    || (Col(n, b) < n - 1 && target == b + 1)
    || (Col(n, b) > 0 && target == b + -1)
  }

  /** A board is in a guarded append exactly when it was there before or is the appended slide. */
  lemma AppendMoveMembership(s: seq<seq<int>>, t: seq<int>, b: int, guard: bool, pos: int, u: seq<int>)
    requires 0 <= b < |t| && (guard ==> 0 <= b + pos < |t|)
    ensures u in AppendMove(s, t, b, guard, pos) <==> u in s || (guard && u == Slide(t, b, pos))
  {
    if guard {
      assert u in s + [Slide(t, b, pos)] <==> u in s || u == Slide(t, b, pos);
    }
  }

  /** A board is a listed neighbour exactly when it is one of the four guarded slides. */
  lemma NeighborMembership(n: nat, t: seq<int>, b: int, u: seq<int>)
    requires n > 0 && |t| == n * n && 0 <= b < |t|
    ensures Row(n, b) > 0 ==> 0 <= b + -(n as int)
    ensures Row(n, b) < n - 1 ==> b + n < |t|
    ensures Col(n, b) < n - 1 ==> b + 1 < |t|
    ensures Col(n, b) > 0 ==> 0 <= b + -1
    ensures u in NeighborsOf(n, t, b) <==>
      || (Row(n, b) > 0 && u == Slide(t, b, -(n as int)))
      || (Row(n, b) < n - 1 && u == Slide(t, b, n))
      || (Col(n, b) < n - 1 && u == Slide(t, b, 1))
      || (Col(n, b) > 0 && u == Slide(t, b, -1))
  {
    var r, c := Row(n, b), Col(n, b);
    StepBounds(n, b, r, c);
    var afterUp := AppendMove([], t, b, r > 0, -(n as int));
    var afterDown := AppendMove(afterUp, t, b, r < n - 1, n);
    var afterRight := AppendMove(afterDown, t, b, c < n - 1, 1);
    assert NeighborsOf(n, t, b) == AppendMove(afterRight, t, b, c > 0, -1);
    AppendMoveMembership(afterRight, t, b, c > 0, -1, u);
    AppendMoveMembership(afterDown, t, b, c < n - 1, 1, u);
    AppendMoveMembership(afterUp, t, b, r < n - 1, n, u);
    AppendMoveMembership([], t, b, r > 0, -(n as int), u);
  }

  /** Each of the four guarded moves reaches a cell adjacent to the blank. */
  lemma MovesAreAdjacent(n: nat, b: int)
    requires n > 0 && 0 <= b < n * n
    ensures Row(n, b) > 0 ==> Adjacent(n, b, b + -(n as int))
    ensures Row(n, b) < n - 1 ==> Adjacent(n, b, b + n)
    ensures Col(n, b) < n - 1 ==> Adjacent(n, b, b + 1)
    ensures Col(n, b) > 0 ==> Adjacent(n, b, b + -1)
  {
    RowColBounds(n, b);
    var upPos, downPos, rightPos, leftPos := -(n as int), n as int, 1, -1;
    if Row(n, b) > 0 {
      StepIsAdjacent(n, b, -1, 0, upPos);
    }
    if Row(n, b) < n - 1 {
      StepIsAdjacent(n, b, 1, 0, downPos);
    }
    if Col(n, b) < n - 1 {
      StepIsAdjacent(n, b, 0, 1, rightPos);
    }
    if Col(n, b) > 0 {
      StepIsAdjacent(n, b, 0, -1, leftPos);
    }
  }

  /** Moving the blank by dr rows and dc columns, one step in all, moves its index by pos. */
  lemma StepIsAdjacent(n: nat, b: int, dr: int, dc: int, pos: int)
    requires n > 0 && 0 <= b < n * n
    requires Abs(dr) + Abs(dc) == 1 && pos == dc + n * dr
    requires 0 <= Row(n, b) + dr < n && 0 <= Col(n, b) + dc < n
    ensures Adjacent(n, b, b + pos)
  {
    IndexOfRowCol(n, b);
    var r, c := Row(n, b), Col(n, b);
    MulAdd(n, r, dr);
    NeighborCell(n, b, r + dr, c + dc);
  }

  lemma MulAdd(n: int, r: int, d: int)
    ensures n * (r + d) == n * r + n * d
  {}


  /** A cell adjacent to b lies one row above or below it, or one column right or left of it. */
  lemma AdjacentDirection(n: nat, b: int, target: int)
    requires n > 0 && Adjacent(n, b, target)
    ensures MoveTarget(n, b, target)
  {
    RowColBounds(n, b);
    RowColBounds(n, target);
    IndexOfRowCol(n, target);
    IndexOfRowCol(n, b);
    MulStep(n, Row(n, b));
  }

  /** Every slide of a tile adjacent to the blank is listed among the neighbours. */
  lemma SlideIsNeighbor(n: nat, t: seq<int>, b: int, target: int)
    requires n > 0 && |t| == n * n && 0 <= b < |t| && Adjacent(n, b, target)
    ensures Swapped(t, target, b) in NeighborsOf(n, t, b)
  {
    AdjacentDirection(n, b, target);
    NeighborMembership(n, t, b, Swapped(t, target, b));
  }

  /**
   * The neighbour list holds exactly the boards one slide away: every entry
   * slides an adjacent tile into the blank, and every such slide is listed.
   */
  lemma NeighborsAreSlides(n: nat, t: seq<int>, b: int)
    requires n > 0 && |t| == n * n && 0 <= b < |t|
    ensures forall u :: u in NeighborsOf(n, t, b) <==> IsSlide(n, t, b, u)
  {
    forall u | u in NeighborsOf(n, t, b)
      ensures IsSlide(n, t, b, u)
    {
      NeighborMembership(n, t, b, u);
      MovesAreAdjacent(n, b);
    }
    forall u | IsSlide(n, t, b, u)
      ensures u in NeighborsOf(n, t, b)
    {
      var target :| Adjacent(n, b, target) && u == Swapped(t, target, b);
      SlideIsNeighbor(n, t, b, target);
    }
  }

  /** On a board of side at least 2 the blank has between two and four moves. */
  lemma NeighborCount(n: nat, t: seq<int>, b: int)
    requires n >= 2 && |t| == n * n && 0 <= b < |t|
    ensures 2 <= |NeighborsOf(n, t, b)| <= 4
  {
    RowColBounds(n, b);
  }

  /** The first of the two cells the twin exchanges: index 0 unless a blank is among the first two cells, else index n. */
  function TwinPosition(n: nat, t: seq<int>): (p: nat)
    requires n >= 2 && |t| == n * n
    ensures p + 1 < |t|
  {
    CellBound(n, 1, 1);
    if t[0] != 0 && t[1] != 0 then Index(n, 0, 0) else Index(n, 1, 0)
  }

  /** The twin: the board with the tiles at TwinPosition and the cell to its right exchanged. */
  function TwinOf(n: nat, t: seq<int>): (r: seq<int>)
    requires n >= 2 && |t| == n * n
    ensures |r| == |t| && multiset(r) == multiset(t)
    ensures r[TwinPosition(n, t)] == t[TwinPosition(n, t) + 1] && r[TwinPosition(n, t) + 1] == t[TwinPosition(n, t)]
    ensures forall k :: 0 <= k < |t| && k != TwinPosition(n, t) && k != TwinPosition(n, t) + 1 ==> r[k] == t[k]
  {
    var p := TwinPosition(n, t);
    Swapped(t, p, p + 1)
  }

  /**
   * On a permutation the twin exchanges two horizontally adjacent non-blank
   * tiles of the same row: it differs from the board in exactly those two
   * positions and is again a permutation.
   */
  lemma TwinSwapsAdjacentTiles(n: nat, t: seq<int>)
    requires n >= 2 && IsPermutation(n, t)
    ensures var p := TwinPosition(n, t);
      && Row(n, p) == Row(n, p + 1) && Col(n, p) + 1 == Col(n, p + 1)
      && t[p] != 0 && t[p + 1] != 0
      && TwinOf(n, t)[p] == t[p + 1] != t[p] && TwinOf(n, t)[p + 1] == t[p] != t[p + 1]
      && (forall k :: 0 <= k < |t| && k != p && k != p + 1 ==> TwinOf(n, t)[k] == t[k])
      && IsPermutation(n, TwinOf(n, t))
  {
    var p := TwinPosition(n, t);
    var row := if p == 0 then 0 else 1;
    RowColRoundTrip(n, row, 0);
    RowColRoundTrip(n, row, 1);
    CellBound(n, 1, 1);
    if p != 0 {
      // one of the first two cells is the blank, so the second row holds none
      assert t[0] == 0 || t[1] == 0;
      assert t[p] != 0 && t[p + 1] != 0;
    }
    SwappedPermutation(n, t, p, p + 1);
  }

  /** Extending a prefix by one cell moves the recorded blank there exactly when that cell holds 0. */
  lemma BlankIndexOfPrefix(t: seq<int>, k: nat)
    requires k < |t|
    ensures BlankIndexOf(t[..k + 1]) == if t[k] == 0 then k else BlankIndexOf(t[..k])
  {
    assert t[..k + 1][..k] == t[..k];
  }

  /** A prefix that agrees with `t` keeps agreeing when the next entry is written with t's value. */
  lemma ExtendPrefix(before: seq<int>, after: seq<int>, t: seq<int>, k: nat)
    requires k < |before| == |after| <= |t| && before[..k] == t[..k]
    requires after == before[k := t[k]]
    ensures after[..k + 1] == t[..k + 1]
  {
    assert after[..k + 1] == before[..k] + [t[k]];
  }

  /** Cell (i, j) of a square grid is the entry at index i*n + j of its flattening. */
  lemma CopyStep(blocks: seq<seq<int>>, i: nat, j: nat)
    requires IsSquare(blocks) && i < |blocks| && j < |blocks|
    ensures i * |blocks| + j < |blocks| * |blocks|
    ensures Index(|blocks|, i, j) == i * |blocks| + j
    ensures |Flatten(blocks)| == |blocks| * |blocks|
    ensures Flatten(blocks)[i * |blocks| + j] == blocks[i][j]
  {
    var n := |blocks|;
    CellBound(n, i, j);
    FlattenAt(blocks, n, i, j);
  }

  /** The tiles of a list of boards, in order. */
  ghost function TilesOf(boards: seq<Board>): (ts: seq<seq<int>>)
    ensures |ts| == |boards|
  {
    if |boards| == 0 then [] else TilesOf(boards[..|boards| - 1]) + [boards[|boards| - 1].Tiles]
  }

  lemma TilesOfAppend(boards: seq<Board>, b: Board)
    ensures TilesOf(boards + [b]) == TilesOf(boards) + [b.Tiles]
  {
    assert (boards + [b])[..|boards|] == boards;
  }
  /** Entry i of the tile list is the tiles of board i. */
  lemma {:induction false} TilesOfIndex(boards: seq<Board>)
    ensures forall i :: 0 <= i < |boards| ==> TilesOf(boards)[i] == boards[i].Tiles
  {
    if |boards| > 0 {
      TilesOfIndex(boards[..|boards| - 1]);
    }
  }


  // ---------------------------------------------------------------------
  // The board object
  // ---------------------------------------------------------------------

  /**
   * A board: the row-major tile array `cells` of side n, with the blank
   * index, Hamming count, Manhattan distance and goal flag cached in fields
   * by the constructor. `Tiles` is the board's value; `Valid` says that the
   * array holds it and that every cached field agrees with its definition.
   */
  class Board {
    const n: nat
    const cells: array<int>
    const blankIndex: int
    const hammingNum: int
    const manhattanNum: int
    const goal: bool
    ghost const Tiles: seq<int>

    /** The cached fields agree with their definitions on the board's tiles. */
    ghost predicate Cached()
    {
      && cells.Length == n * n == |Tiles|
      && blankIndex == BlankIndexOf(Tiles)
      && hammingNum == HammingOf(Tiles)
      && manhattanNum == ManhattanOf(n, Tiles)
      && goal == IsGoalTiles(Tiles)
    }

    /** The array holds the board's tiles and the cached fields agree with them. */
    ghost predicate Valid()
      reads cells
    {
      Cached() && cells[..] == Tiles
    }

    /**
     * Builds a board from an n-by-n grid of blocks: copies the blocks into
     * the array, then computes the cached quantities.
     */
    constructor (blocks: seq<seq<int>>)
      requires IsSquare(blocks)
      ensures Valid() && n == |blocks| && Tiles == Flatten(blocks) && fresh(cells)
    {
      var arr, blank := CopyBlocks(blocks);
      var hamming := CalculateHamming(arr);
      var manhattan := CalculateManhattan(|blocks|, arr);
      var isGoal := CalculateIsGoal(arr);
      n := |blocks|;
      cells := arr;
      Tiles := arr[..];
      blankIndex := blank;
      hammingNum := hamming;
      manhattanNum := manhattan;
      goal := isGoal;
    }

    /**
     * The constructor's copy loop: block (i, j) goes to index j + n*i, and the
     * last index that receives a 0 is remembered as the blank.
     */
    static method CopyBlocks(blocks: seq<seq<int>>) returns (arr: array<int>, blank: int)
      requires IsSquare(blocks)
      ensures fresh(arr) && arr.Length == |blocks| * |blocks|
      ensures arr[..] == Flatten(blocks) && blank == BlankIndexOf(arr[..])
    {
      var size := |blocks|;
      arr := new int[size * size];
      blank := 0;
      ghost var tiles := Flatten(blocks);
      ghost var filled := 0;
      FlattenLength(blocks, size);
      var i := 0;
      while i < size
        invariant 0 <= i <= size && filled == i * size && filled <= |tiles|
        invariant arr[..filled] == tiles[..filled]
        invariant blank == BlankIndexOf(tiles[..filled])
      {
        var j := 0;
        while j < size
          invariant 0 <= j <= size && filled == i * size + j && filled <= |tiles|
          invariant arr[..filled] == tiles[..filled]
          invariant blank == BlankIndexOf(tiles[..filled])
        {
          var index := Index(size, i, j);
          CopyStep(blocks, i, j);
          BlankIndexOfPrefix(tiles, filled);
          ghost var before := arr[..];
          arr[index] := blocks[i][j];
          if arr[index] == 0 {
            blank := index;
          }
          ExtendPrefix(before, arr[..], tiles, filled);
          j := j + 1;
          filled := filled + 1;
        }
        RowEnd(size, i, i + 1);
        i := i + 1;
      }
      assert tiles[..filled] == tiles;
      assert arr[..] == tiles;
    }

    /** Counts the out-of-place tiles, one increment per tile. */
    static method CalculateHamming(a: array<int>) returns (hammingNum: int)
      ensures hammingNum == HammingOf(a[..])
    {
      hammingNum := 0;
      var i := 0;
      while i < a.Length
        invariant 0 <= i <= a.Length
        invariant hammingNum == HammingOf(a[..i])
      {
        assert a[..i + 1][..i] == a[..i];
        if a[i] != i + 1 && a[i] != 0 {
          hammingNum := hammingNum + 1;
        }
        i := i + 1;
      }
      assert a[..i] == a[..];
    }

    /** Adds up the row and column distances of every non-blank tile from its goal cell. */
    static method CalculateManhattan(n: nat, a: array<int>) returns (manhattanNum: int)
      requires a.Length == n * n
      ensures manhattanNum == ManhattanOf(n, a[..])
    {
      manhattanNum := 0;
      var i := 0;
      while i < a.Length
        invariant 0 <= i <= a.Length
        invariant manhattanNum == ManhattanOf(n, a[..i])
      {
        assert a[..i + 1][..i] == a[..i];
        if a[i] != 0 {
          var col := Col(n, a[i] - 1);
          var row := Row(n, a[i] - 1);
          var goalCol := Col(n, i);
          var goalRow := Row(n, i);
          manhattanNum := manhattanNum + Abs(col - goalCol);
          manhattanNum := manhattanNum + Abs(row - goalRow);
        }
        i := i + 1;
      }
      assert a[..i] == a[..];
    }

    /** Whether no tile is out of place, stopping at the first that is. */
    static method CalculateIsGoal(a: array<int>) returns (goal: bool)
      ensures goal == IsGoalTiles(a[..])
    {
      var i := 0;
      while i < a.Length
        invariant 0 <= i <= a.Length
        invariant forall k :: 0 <= k < i ==> !Misplaced(a[..], k)
      {
        if a[i] != i + 1 && a[i] != 0 {
          assert Misplaced(a[..], i);
          return false;
        }
        i := i + 1;
      }
      return true;
    }

    /** The side length n. */
    function Dimension(): (d: nat)
      ensures Cached() ==> d * d == |Tiles|
    {
      n
    }

    /** The cached Hamming count: the number of out-of-place tiles, 0 exactly on a goal board. */
    function Hamming(): (h: int)
      requires Cached()
      ensures h == HammingOf(Tiles)
      ensures h == 0 <==> IsGoalTiles(Tiles)
    {
      GoalIffHammingZero(Tiles);
      hammingNum
    }

    /** The cached Manhattan distance, 0 exactly on a goal board. */
    function Manhattan(): (m: int)
      requires Cached()
      ensures m == ManhattanOf(n, Tiles)
      ensures m == 0 <==> IsGoalTiles(Tiles)
    {
      ManhattanZeroIffGoal(n, Tiles);
      manhattanNum
    }

    /** The cached goal flag; on a permutation it holds exactly for 1, ..., n*n-1, 0. */
    function IsGoal(): (g: bool)
      requires Cached()
      ensures g <==> IsGoalTiles(Tiles)
      ensures IsPermutation(n, Tiles) ==> (g <==> Tiles == GoalTiles(n))
    {
      GoalTestIsGoalArrangement(n, Tiles);
      goal
    }

    /** Exchanges two entries of the array. */
    method Swap(i: int, j: int)
      requires 0 <= i < cells.Length && 0 <= j < cells.Length
      modifies cells
      ensures cells[..] == Swapped(old(cells[..]), i, j)
    {
      var temp := cells[i];
      cells[i] := cells[j];
      cells[j] := temp;
    }

    /** Cuts the array into n rows of n entries each: the grid whose flattening is the array. */
    method Create2dArray() returns (grid: seq<seq<int>>)
      requires cells.Length == n * n
      ensures |grid| == n && IsSquare(grid) && Flatten(grid) == cells[..]
    {
      grid := [];
      var i := 0;
      while i < n
        invariant 0 <= i <= n && |grid| == i && RowsOfWidth(grid, n)
        invariant i * n <= n * n && Flatten(grid) == cells[..i * n]
      {
        CellBound(n, i, 0);
        var row := [];
        var j := 0;
        while j < n
          invariant 0 <= j <= n
          invariant row == cells[i * n .. i * n + j]
        {
          var index := i * n + j;
          row := row + [cells[index]];
          j := j + 1;
        }
        assert (grid + [row])[..i] == grid;
        assert cells[..i * n + n] == cells[..i * n] + row;
        grid := grid + [row];
        i := i + 1;
      }
      assert cells[..i * n] == cells[..];
    }

    /**
     * The board with the blank slid to index blankIndex + pos: the array is
     * swapped, copied into a new board, and swapped back.
     */
    method CreateNeighborBoard(pos: int) returns (neighbor: Board)
      requires Valid() && 0 <= blankIndex + pos < cells.Length && blankIndex < cells.Length
      modifies cells
      ensures Valid() && cells[..] == old(cells[..])
      ensures fresh(neighbor) && fresh(neighbor.cells) && neighbor.Valid() && neighbor.n == n
      ensures neighbor.Tiles == Swapped(Tiles, blankIndex + pos, blankIndex)
    {
      Swap(blankIndex + pos, blankIndex);
      var grid := Create2dArray();
      neighbor := new Board(grid);
      Swap(blankIndex + pos, blankIndex);
      SwappedTwice(Tiles, blankIndex + pos, blankIndex);
    }

    /**
     * The neighbour boards in the order up, down, right, left, each a new
     * board with its own array; the receiver's array ends as it began. On
     * an empty board the row of the blank divides by n == 0 and throws.
     */
    method Neighbors() returns (r: Result<seq<Board>>)
      requires Valid()
      modifies cells
      ensures Valid() && cells[..] == old(cells[..])
      ensures n == 0 ==> r == Throws(Arithmetic)
      ensures n > 0 ==> r.Ok? && TilesOf(r.value) == NeighborsOf(n, Tiles, blankIndex)
      ensures r.Ok? ==> forall b :: b in r.value ==>
        fresh(b) && fresh(b.cells) && b.Valid() && b.n == n
    {
      if n == 0 {
        return Throws(Arithmetic);
      }
      var neighborBoards := CreateNeighborBoards();
      r := Ok(neighborBoards);
    }

    /**
     * Appends the moves up, down, right and left in turn, each only when
     * the blank stays on the board.
     */
    method CreateNeighborBoards() returns (neighborBoards: seq<Board>)
      requires Valid() && n > 0
      modifies cells
      ensures Valid() && cells[..] == old(cells[..])
      ensures TilesOf(neighborBoards) ==
        NeighborsAt(n, Tiles, blankIndex, Row(n, blankIndex), Col(n, blankIndex))
      ensures forall b :: b in neighborBoards ==>
        fresh(b) && fresh(b.cells) && b.Valid() && b.n == n
    {
      var col := Col(n, blankIndex);
      var row := Row(n, blankIndex);
      StepBounds(n, blankIndex, row, col);
      var up, down, right, left := row > 0, row < n - 1, col < n - 1, col > 0;
      var upPos, downPos, rightPos, leftPos := -(n as int), n as int, 1, -1;
      neighborBoards := [];
      assert TilesOf(neighborBoards) == [];
      neighborBoards := AddNeighborIf(neighborBoards, up, upPos);
      neighborBoards := AddNeighborIf(neighborBoards, down, downPos);
      neighborBoards := AddNeighborIf(neighborBoards, right, rightPos);
      neighborBoards := AddNeighborIf(neighborBoards, left, leftPos);
      NeighborsAtSteps(n, Tiles, blankIndex, row, col, up, down, right, left,
                       upPos, downPos, rightPos, leftPos);
    }

    /**
     * One guarded step of the neighbour list: when the move's guard holds,
     * the board with the blank moved by pos is appended.
     */
    method AddNeighborIf(boards: seq<Board>, guard: bool, pos: int) returns (result: seq<Board>)
      requires Valid() && 0 <= blankIndex < cells.Length
      requires guard ==> 0 <= blankIndex + pos < cells.Length
      requires forall b :: b in boards ==> b.cells != cells && b.Valid()
      modifies cells
      ensures Valid() && cells[..] == old(cells[..])
      ensures TilesOf(result) == AppendMove(TilesOf(boards), Tiles, blankIndex, guard, pos)
      ensures forall b :: b in result ==> b.cells != cells && b.Valid()
      ensures forall b :: b in result ==> b in boards || (fresh(b) && fresh(b.cells) && b.n == n)
    {
      result := boards;
      if guard {
        var b := CreateNeighborBoard(pos);
        TilesOfAppend(boards, b);
        result := boards + [b];
      }
    }

    /**
     * The twin: tiles 0 and 1 exchanged when neither is the blank, otherwise
     * the first two tiles of the second row. The array is swapped, copied and
     * swapped back. Boards of side below 2 have no index 1 and throw.
     */
    method Twin() returns (r: Result<Board>)
      requires Valid()
      modifies cells
      ensures Valid() && cells[..] == old(cells[..])
      ensures n < 2 ==> r == Throws(IndexOutOfBounds)
      ensures n >= 2 ==> && r.Ok? && fresh(r.value) && fresh(r.value.cells)
                         && r.value.Valid() && r.value.n == n && r.value.Tiles == TwinOf(n, Tiles)
    {
      if n < 2 {
        return Throws(IndexOutOfBounds);
      }
      CellBound(n, 1, 1);
      var first, second;
      if cells[0] != 0 && cells[1] != 0 {
        first, second := 0, 1;
      } else {
        first, second := Index(n, 1, 0), Index(n, 1, 1);
      }
      Swap(first, second);
      var grid := Create2dArray();
      var twin := new Board(grid);
      Swap(first, second);
      SwappedTwice(Tiles, first, second);
      r := Ok(twin);
    }

    /** Value equality: the other board exists, has the same side and the same tiles. */
    method Equals(o: Board?) returns (eq: bool)
      requires Valid() && (o != null ==> o.Valid())
      ensures eq <==> o != null && o.n == n && o.Tiles == Tiles
    {
      if o == null {
        return false;
      }
      if o.Dimension() != Dimension() {
        return false;
      }
      var i := 0;
      while i < cells.Length
        invariant 0 <= i <= cells.Length
        invariant cells[..i] == o.cells[..i]
      {
        if cells[i] != o.cells[i] {
          return false;
        }
        i := i + 1;
      }
      assert cells[..] == cells[..i];
      return true;
    }
  }
}
