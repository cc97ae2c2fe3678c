# Percolation, deques and the 8-puzzle in Dafny

This project models the core of a set of Java solutions to the Princeton
*Algorithms, Part I* assignments and proves properties of them:

- **Board** (`boards.dfy`, module `Boards`): an n-by-n sliding-tile puzzle board.
  - The board is stored row-major in a one-dimensional array with 0 as the blank.
  - It caches the Hamming and Manhattan distances, the blank's index and the goal test.
  - It produces its neighbour boards (one blank slide each) and a twin (two non-blank tiles in the first rows swapped).
  - Two boards are equal when they have the same tiles.
- **Solver** (`solvers.dfy`, module `Solvers`): the A* search.
  - The initial board and its twin are searched side by side in one priority queue, ordered by Manhattan distance plus moves.
  - A child is not re-enqueued when its board equals its grandparent's.
  - The search stops at the first goal removed from the queue. It reports a solution only when that goal descends from the initial board.
  - The solution path is rebuilt by walking the parent links onto a stack.
- **Deque** (`deques.dfy`, module `Deques`): a doubly linked deque.
  - It has head and tail sentinel nodes and an iterator that does not support removal.
- **RandomizedQueue** (`randomized_queues.dfy`, module `RandomizedQueues`): a resizing-array queue that removes or samples a random item.
  - The array doubles when full and halves when it is a quarter full.
  - A removed item's slot is filled with the last item.
- **Percolation** (`percolation.dfy`, module `Percolations`): an n-by-n grid of sites that are opened one by one.
  - Sites are joined by union–find.
  - Each component's root carries a status byte: open, connected to the top, connected to the bottom, or both.
  - The grid percolates once some component touches both the top and the bottom rows.

Java `null` arguments are `Option` values. Exceptions are results:
`Result` (`Ok`/`Throws`) for methods that return a value, `Outcome`
(`Normal`/`Raised`) for `void` methods. Both live in `outcomes.dfy`
(module `Outcomes`). Random choices are passed in as parameters.
Integer facts shared by the board and the grid live in `arith.dfy`
(module `Arithmetic`).

The main invariants and the functions that define them:

- **Board**: `Board.Valid` ties the cached fields to the tiles:
  - `hammingNum == HammingOf(Tiles)`;
  - `manhattanNum == ManhattanOf(n, Tiles)`;
  - `blankIndex == BlankIndexOf(Tiles)`;
  - `goal == IsGoalTiles(Tiles)`.
- **Solver**: `SearchTrace` describes the nodes the search removed.
  - Every removed node has a lineage rooted at the initial board or at its twin.
  - Along a lineage, each board is a neighbour of the one before it.
  - The solution is the last removed node exactly when that node is a goal on the initial board's side.
  - `BestFirst` records the queue before every round: each round removes a node of least priority and inserts exactly its kept children.
- **Percolation**: `GridState` is kept by every `Percolation` operation.
  - Status bytes are non-closed exactly at the open sites.
  - Every open root's top and bottom marks say exactly whether its component reaches the top or bottom row.
  - `percolates` holds exactly when some component reaches both rows.
  - `JoinedAround` describes an opening: it joins the components of the site and its open neighbours and no others.

## Model

| member | source | states |
|---|---|---|
| Boards.GoalTiles | src/week4/Board.java:95-105 | the goal arrangement 1..n²-1 followed by the blank has n² cells |
| Boards.Swapped | src/week4/Board.java:191-196 | swapping two cells exchanges exactly those two tiles and leaves every other cell unchanged |
| Boards.SwappedTwice | src/week4/Board.java:191-196 | swapping the same two cells twice restores the board |
| Boards.SwappedPermutation | src/week4/Board.java:191-196 | a swap of a permutation of 0..n²-1 is again such a permutation |
| Boards.BlankIndexOf | src/week4/Board.java:26-33 | the recorded blank index lies inside the board |
| Boards.BlankIndexIsLastBlank | src/week4/Board.java:26-33 | the recorded index holds the blank and no later cell does; 0 when there is no blank |
| Boards.GoalIffHammingZero | src/week4/Board.java:61-68 | the Hamming distance is 0 exactly when every non-blank tile is in its goal place |
| Boards.TileDistanceZero | src/week4/Board.java:73-90 | a tile contributes no Manhattan distance exactly when it is not misplaced |
| Boards.ManhattanZeroIffGoal | src/week4/Board.java:73-90 | the Manhattan distance is 0 exactly when the board passes the goal test |
| Boards.GoalTestIsGoalArrangement | src/week4/Board.java:95-105 | for a permutation of 0..n²-1, passing the goal test is the same as being the goal arrangement |
| Boards.Row | src/week4/Board.java:112-115 | the row is the index divided by n, truncated toward zero as in Java: it brackets the index from below for a non-negative index and from above for a negative one |
| Boards.Col | src/week4/Board.java:122-125 | the column of a non-negative index lies in 0..n-1, and that of a negative index in -(n-1)..0 |
| Boards.Index | src/week4/Board.java:133-136 | a row and a column in 0..n-1 give an index inside the board |
| Boards.IndexOfRowCol | src/week4/Board.java:112-136 | converting an index to row and column and back gives the index |
| Boards.RowColRoundTrip | src/week4/Board.java:112-136 | converting a row and column to an index and back gives the row and column |
| Boards.RowColBounds | src/week4/Board.java:112-125 | an index inside the board has a row and a column in 0..n-1 |
| Boards.FlattenLength | src/week4/Board.java:22-39 | flattening n rows of width w gives n·w cells |
| Boards.FlattenAt | src/week4/Board.java:22-39 | cell (r, c) of the grid lands at index r·w+c of the flattened board |
| Boards.MoveBounds | src/week4/Board.java:141-170 | each slide the neighbour generation allows stays inside the board |
| Boards.NeighborMembership | src/week4/Board.java:141-170 | a board is a neighbour exactly when it is the slide of an allowed direction (up, down, right, left) |
| Boards.MovesAreAdjacent | src/week4/Board.java:141-170 | every allowed slide moves the blank to an orthogonally adjacent cell |
| Boards.SlideIsNeighbor | src/week4/Board.java:141-183 | swapping the blank with any adjacent cell yields one of the neighbour boards |
| Boards.NeighborsAreSlides | src/week4/Board.java:141-183 | the neighbour boards are exactly the boards one blank slide away |
| Boards.NeighborsOf | src/week4/Board.java:141-170 | at most four neighbour arrangements, each with as many cells as the board |
| Boards.Slide | src/week4/Board.java:177-183 | a slide of the blank keeps the board's size and its multiset of tiles |
| Boards.NeighborCount | src/week4/Board.java:141-170 | a board of side at least 2 has between 2 and 4 neighbours |
| Boards.TwinPosition | src/week4/Board.java:201-217 | the twin swaps cells p and p+1, both inside the board |
| Boards.TwinOf | src/week4/Board.java:201-217 | the twin has the board's tiles, with the two at TwinPosition and the cell to its right exchanged and every other cell unchanged |
| Boards.TwinSwapsAdjacentTiles | src/week4/Board.java:201-217 | on a permutation the twin exchanges two horizontally adjacent non-blank tiles, changes nothing else, and is again a permutation |
| Boards.TilesOfAppend | src/week4/Board.java:291-295 | the tiles of a list with one more board are the old tiles plus that board's tiles |
| Boards.TilesOfIndex | src/week4/Board.java:291-295 | entry i of the tile list is the tiles of board i |
| Boards.Board.constructor | src/week4/Board.java:22-39 | the board has side `\|blocks\|`, its tiles are the rows laid end to end, and its cached fields agree with them |
| Boards.Board.CopyBlocks | src/week4/Board.java:22-39 | the copied array is the flattened grid, and the blank index is the last blank |
| Boards.Board.CalculateHamming | src/week4/Board.java:61-68 | the loop counts exactly the misplaced non-blank tiles |
| Boards.Board.CalculateManhattan | src/week4/Board.java:73-90 | the loop sums exactly the row and column distances of the non-blank tiles |
| Boards.Board.CalculateIsGoal | src/week4/Board.java:95-105 | the loop answers the goal test |
| Boards.Board.Dimension | src/week4/Board.java:222-225 | on a board whose cached fields agree with its tiles, the side squared is the number of cells |
| Boards.Board.Hamming | src/week4/Board.java:232-235 | the cached Hamming distance, which is 0 exactly at the goal |
| Boards.Board.Manhattan | src/week4/Board.java:240-243 | the cached Manhattan distance, which is 0 exactly at the goal |
| Boards.Board.IsGoal | src/week4/Board.java:248-251 | true exactly when every tile is in place; for a permutation, exactly when the board is the goal arrangement |
| Boards.Board.Swap | src/week4/Board.java:191-196 | the array afterwards is the old array with the two cells exchanged |
| Boards.Board.Create2dArray | src/week4/Board.java:45-56 | the grid is square of side n and flattens back to the board's cells |
| Boards.Board.CreateNeighborBoard | src/week4/Board.java:177-183 | a new valid board whose tiles are this board's with the blank slid by `pos`; this board ends unchanged |
| Boards.Board.CreateNeighborBoards | src/week4/Board.java:141-170 | new valid boards whose tiles are exactly the neighbour arrangements, in the order up, down, right, left |
| Boards.Board.AddNeighborIf | src/week4/Board.java:145-167 | one guarded step of the neighbour generation appends the slid board only when the guard holds |
| Boards.Board.Neighbors | src/week4/Board.java:291-295 | side 0 throws an arithmetic error; otherwise the result's tiles are exactly the neighbour arrangements; the board ends unchanged |
| Boards.Board.Twin | src/week4/Board.java:258-262 | side below 2 throws index-out-of-bounds; otherwise a new valid board with the twin arrangement; the board ends unchanged |
| Boards.Board.Equals | src/week4/Board.java:267-286 | equal exactly when the other board is present and has the same side and the same tiles |
| Solvers.SearchNode.constructor | src/week4/Solver.java:17-23 | the node records its board, moves, parent and side, and its path extends the parent's path by its board |
| Solvers.SearchNode.CompareTo | src/week4/Solver.java:51-54 | negative, zero or positive exactly as this node's priority is smaller than, equal to or larger than the other's |
| Solvers.PriorityBounds | src/week4/Solver.java:25-28 | the priority is Manhattan distance plus moves; it is at least the moves made and equals them exactly at a goal |
| Solvers.CompareAntisymmetric | src/week4/Solver.java:51-54 | comparing in the other order negates the result |
| Solvers.PathFollows | src/week4/Solver.java:10-23 | a node's path has moves+1 boards, all of its side, and each is a neighbour of the one before |
| Solvers.FollowsIsSlide | src/week4/Solver.java:91-94 | a child's board is its parent's board with the blank slid to an adjacent cell |
| Solvers.KeptNeighborsMembers | src/week4/Solver.java:91-96 | a neighbour is kept exactly when it is not the parent's parent's board |
| Solvers.KeptNeighborsOfRoot | src/week4/Solver.java:91-96 | a root keeps all of its neighbours |
| Solvers.DelMin | src/week4/Solver.java:80 | removes one node of least priority; the rest of the queue is the queue without it |
| Solvers.KeepNeighbor | src/week4/Solver.java:92 | keep exactly when the node has no parent or the neighbour differs from the parent's board |
| Solvers.Successors | src/week4/Solver.java:91 | the neighbour boards are fresh valid boards of the same side whose tiles are exactly the board's neighbour arrangements, each one slide from it |
| Solvers.Expand | src/week4/Solver.java:90-96 | the new children carry exactly the kept neighbour boards, each a child of the removed node |
| Solvers.NeighborBoardsFollow | src/week4/Solver.java:91 | every neighbour board follows its board by one slide |
| Solvers.ChildRooted | src/week4/Solver.java:93 | a child of a node rooted at the initial board or the twin is rooted there too |
| Solvers.GrowState | src/week4/Solver.java:90-96 | inserting the children keeps every queued node rooted and its boards valid |
| Solvers.Advance | src/week4/Solver.java:90-96 | expanding a removed non-goal node appends its children to the queue; the children carry exactly the neighbour boards other than the grandparent's, in order, each a child of the node; the search state is kept |
| Solvers.RemovedState | src/week4/Solver.java:80 | the removed node is rooted and its board is known |
| Solvers.Round | src/week4/Solver.java:79-98 | one loop round removes a node of least priority from the queue and inserts its children: the new queue is the old one without that node plus the children, which are its kept neighbours, or none at a goal; the node is rooted and the search state is kept |
| Solvers.BestFirstStep | src/week4/Solver.java:79-98 | a round that removes a least node and inserts its children extends the record of best-first rounds |
| Solvers.SearchingStep | src/week4/Solver.java:79-98 | a round keeps the loop's record: the removed nodes are rooted non-goals, the rounds went best first, and the queue is the latest one |
| Solvers.Search | src/week4/Solver.java:65-100 | the queue starts with the two roots, and each round removes a node of least priority from the current queue and inserts exactly its kept children; all removed nodes are rooted; none but the last is a goal; the solution is the last one exactly when that is a goal on the initial board's side; the loop ends early only at a goal or an empty queue |
| Solvers.PathTo | src/week4/Solver.java:127-144 | walking the parent links gives the boards from the root down to the node |
| Solvers.Solver.Create | src/week4/Solver.java:65-100 | a null board throws a null-pointer error; side below 2 throws when the twin is taken; otherwise a valid solver for the board, which ends unchanged |
| Solvers.Solver.IsSolvable | src/week4/Solver.java:107-110 | solvable exactly when the search stopped at a goal on the initial board's side |
| Solvers.Solver.Moves | src/week4/Solver.java:117-120 | -1 when unsolvable; otherwise one less than the length of the path from the initial board |
| Solvers.Solver.Solution | src/week4/Solver.java:127-144 | none exactly when unsolvable; otherwise moves+1 boards from the initial board to a goal, each a neighbour of the one before |
| Deques.Node.constructor | src/week2/Deque.java:22-37 | a node holds its item and its links |
| Deques.Node.Sentinel | src/week2/Deque.java:46-54 | a sentinel holds no item and no links |
| Deques.Deque.constructor | src/week2/Deque.java:46-54 | an empty deque |
| Deques.Deque.IsEmpty | src/week2/Deque.java:59-62 | true exactly when the deque holds no items |
| Deques.Deque.Size | src/week2/Deque.java:67-70 | the number of items |
| Deques.Deque.AddFirst | src/week2/Deque.java:77-89 | a null item throws a null-pointer error and changes nothing; otherwise the item becomes the first |
| Deques.Deque.AddLast | src/week2/Deque.java:96-108 | a null item throws a null-pointer error and changes nothing; otherwise the item becomes the last |
| Deques.Deque.RemoveFirst | src/week2/Deque.java:113-126 | an empty deque throws no-such-element; otherwise the first item is returned and removed |
| Deques.Deque.RemoveLast | src/week2/Deque.java:131-144 | an empty deque throws no-such-element; otherwise the last item is returned and removed |
| Deques.Deque.Iterator | src/week2/Deque.java:150-183 | a fresh iterator positioned at the front of this deque |
| Deques.DequeIterator.constructor | src/week2/Deque.java:152-154 | the iterator starts at the front |
| Deques.DequeIterator.HasNext | src/week2/Deque.java:157-160 | true exactly when items remain past the current position |
| Deques.DequeIterator.Next | src/week2/Deque.java:163-172 | returns the items front to back, then throws no-such-element |
| Deques.DequeIterator.Remove | src/week2/Deque.java:175-178 | always throws unsupported-operation |
| RandomizedQueues.SwapRemove | src/week2/RandomizedQueue.java:145-149 | removing a position by moving the last item into it shortens the items by one |
| RandomizedQueues.SwapRemoveMultiset | src/week2/RandomizedQueue.java:145-149 | that removal takes out exactly the item at the position and keeps all the others |
| RandomizedQueues.RandomizedQueue.constructor | src/week2/RandomizedQueue.java:17-20 | an empty queue over a fresh array of the initial capacity |
| RandomizedQueues.RandomizedQueue.IsEmpty | src/week2/RandomizedQueue.java:25-28 | true exactly when the queue holds no items |
| RandomizedQueues.RandomizedQueue.Size | src/week2/RandomizedQueue.java:33-36 | the number of items, never above the capacity |
| RandomizedQueues.RandomizedQueue.Enqueue | src/week2/RandomizedQueue.java:43-54 | a null item throws a null-pointer error and changes nothing; otherwise the item is added and the array doubles exactly when it was full |
| RandomizedQueues.RandomizedQueue.Dequeue | src/week2/RandomizedQueue.java:61-79 | an empty queue throws no-such-element; otherwise the chosen item is returned and removed, the rest is kept as a multiset, and the array halves exactly when a quarter full |
| RandomizedQueues.RandomizedQueue.Sample | src/week2/RandomizedQueue.java:84-94 | an empty queue throws no-such-element; otherwise the chosen item is returned and nothing changes |
| RandomizedQueues.RandomizedQueue.SwapRemovedItemWithEnd | src/week2/RandomizedQueue.java:145-149 | the last item moves into the freed slot, and the last slot is cleared |
| RandomizedQueues.RandomizedQueue.ResizeArray | src/week2/RandomizedQueue.java:157-167 | a fresh array of the new size keeps the items and is empty after them |
| Percolations.SiteRoundTrip | src/week1/Percolation.java:197-200 | a grid position maps to a site in 1..n² from which its row and column are recovered; the site is in the first n exactly for row 1 and in the last n exactly for row n |
| Percolations.SiteCoordsRoundTrip | src/week1/Percolation.java:197-200 | every site in 1..n² is the image of a position inside the grid |
| Percolations.TwoDimToOneDimInjective | src/week1/Percolation.java:197-200 | distinct grid positions map to distinct sites |
| Percolations.NeighborSites | src/week1/Percolation.java:78-112 | the neighbours the open operation visits are sites of the grid other than the opened one |
| Percolations.NeighborSitesAdjacent | src/week1/Percolation.java:78-112 | a grid cell is among the visited neighbours exactly when it is orthogonally adjacent to the opened cell |
| Percolations.NeighborSitesInside | src/week1/Percolation.java:78-112 | each neighbour the guards let through is a site of the grid other than the opened one |
| Percolations.JoinAll | src/week1/Percolation.java:78-112 | meeting the neighbours in turn keeps every site naming a root |
| Percolations.JoinAllSnoc | src/week1/Percolation.java:78-112 | meeting one more neighbour extends the joined ids and the gathered marks by one step |
| Percolations.JoinOpenNeighbor | src/week1/Percolation.java:79-85 | joining an open neighbour adds its component to the group of joined components, and joins nothing else |
| Percolations.JoinAllJoinedAround | src/week1/Percolation.java:78-112 | after meeting the neighbours, two sites share a component exactly when they did before or both were with the opened site or an open neighbour |
| Percolations.GroupOfOpen | src/week1/Percolation.java:78-112 | the neighbours whose status is not closed are exactly the open ones |
| Percolations.OpeningGroupJoined | src/week1/Percolation.java:78-112 | once the group is joined, the opened site shares a component with every open neighbour |
| Percolations.OpeningJoins | src/week1/Percolation.java:78-112 | opening a cell joins exactly the components of the site and its open neighbours, and the site ends up with each open neighbour |
| Percolations.MarksOr | src/week1/Percolation.java:78-112 | or-ing status bytes marks top or bottom exactly when one of them does |
| Percolations.RootStatus | src/week1/Percolation.java:114-126 | the root's new status is a non-closed constant that keeps the collected top and bottom marks, and is "both" exactly when both are collected |
| Percolations.MergedCanonical | src/week1/Percolation.java:83 | a union of two components leaves every site naming a root |
| Percolations.MergedJoins | src/week1/Percolation.java:83 | after a union two sites are together exactly when they were, or each was in one of the two joined components |
| Percolations.MergedRoot | src/week1/Percolation.java:83 | after a union the roots are the old ones except the absorbed one |
| Percolations.MergedHasSite | src/week1/Percolation.java:83 | after a union the merged component reaches a row exactly when one of the two did; other components are unaffected |
| Percolations.MergedGrouped | src/week1/Percolation.java:83 | a union of open components keeps every closed site alone |
| Percolations.StartOpening | src/week1/Percolation.java:66-77 | opening a closed site as its own component starts the open operation with the site's row marks |
| Percolations.ConnectFlags | src/week1/Percolation.java:78-112 | a union keeps the marks of every root except the merged one correct |
| Percolations.ConnectPercolation | src/week1/Percolation.java:78-112 | a union keeps "percolates" meaning that some untouched component reaches both rows |
| Percolations.ConnectMarks | src/week1/Percolation.java:78-112 | the collected state marks exactly the rows the merged component reaches |
| Percolations.ConnectDistinct | src/week1/Percolation.java:78-112 | joining an open neighbour in another component keeps the open operation's invariant |
| Percolations.ConnectSame | src/week1/Percolation.java:78-112 | meeting an open neighbour already in the component changes no ids and keeps the invariant |
| Percolations.ConnectStep | src/week1/Percolation.java:78-112 | meeting a neighbour, open or closed, keeps the open operation's invariant |
| Percolations.FinishOpening | src/week1/Percolation.java:114-130 | writing the root status and updating "percolates" restores the grid invariant |
| Percolations.FullIffTouchesTop | src/week1/Percolation.java:159-167 | a site's root marks the top exactly when its component has an open top-row site, and such a site is open |
| Percolations.OpenStatusIsOpen | src/week1/Percolation.java:62-64 | a site whose status is not closed is open |
| Percolations.SingleSiteGrid | src/week1/Percolation.java:56-132 | on a one-site grid an open site makes the grid percolate and is full |
| Percolations.UnionFind.constructor | src/week1/Percolation.java:47 | every site starts as its own component |
| Percolations.UnionFind.Find | src/week1/Percolation.java:82 | returns the root of the site's component |
| Percolations.UnionFind.Union | src/week1/Percolation.java:83 | the ids afterwards are the two components joined and nothing else |
| Percolations.Percolation.constructor | src/week1/Percolation.java:38-48 | a grid of side n with every site closed that does not percolate |
| Percolations.Percolation.Create | src/week1/Percolation.java:38-48 | n ≤ 0 throws an illegal-argument error; otherwise a valid empty grid of side n |
| Percolations.Percolation.Validate2DCoords | src/week1/Percolation.java:208-213 | succeeds exactly inside the grid, otherwise throws index-out-of-bounds |
| Percolations.Percolation.IsOpen | src/week1/Percolation.java:142-149 | outside the grid throws index-out-of-bounds; inside, true exactly when the site has been opened |
| Percolations.Percolation.IsFull | src/week1/Percolation.java:159-167 | outside the grid throws index-out-of-bounds; inside, true exactly when the site's component contains an open top-row site; a full site is open |
| Percolations.Percolation.NumberOfOpenSites | src/week1/Percolation.java:174-177 | the number of distinct sites opened |
| Percolations.Percolation.Percolates | src/week1/Percolation.java:184-187 | true exactly when some component reaches both the top and the bottom rows |
| Percolations.Percolation.Connect | src/week1/Percolation.java:79-111 | joins an open neighbour's component and collects its root's marks; a closed neighbour changes nothing |
| Percolations.Percolation.StartOpen | src/week1/Percolation.java:66-77 | counts the site as open and collects its own row marks |
| Percolations.Percolation.Meet | src/week1/Percolation.java:79-111 | one neighbour meeting keeps the open operation's invariant; the ids become the site's and the neighbour's components joined when the neighbour is open, and the neighbour root's marks are gathered |
| Percolations.Percolation.ConnectNeighbors | src/week1/Percolation.java:78-112 | meeting the up, down, left and right neighbours keeps the open operation's invariant; the ids and marks are the joins over exactly the in-grid neighbours, in that order |
| Percolations.Percolation.MeetIf | src/week1/Percolation.java:78-112 | one guarded neighbour meeting extends the joins made so far by that neighbour when the guard holds, and by nothing otherwise |
| Percolations.Percolation.OpenClosed | src/week1/Percolation.java:66-131 | opening a closed site adds it to the open sites, keeps the grid invariant and "percolates", and joins exactly the components of the site and its open neighbours |
| Percolations.Percolation.FinishOpen | src/week1/Percolation.java:114-130 | restores the grid invariant, and "percolates" is never reset |
| Percolations.Percolation.Open | src/week1/Percolation.java:56-132 | outside the grid throws index-out-of-bounds; otherwise the site is open afterwards and nothing else is opened; an already open site changes nothing; a newly opened site ends up in one component with every open neighbour, and two sites share a component afterwards exactly when they did before or each was with the site or an open neighbour; the grid invariant is kept and "percolates" is never reset; a one-site grid percolates once its site is open |

## Left out

- Java's 32-bit `int` arithmetic is not modelled. This covers:
  - the subtraction in `SearchNode.compareTo`;
  - `n * n` in the board and the grid;
  - the move counts and the doubling of the randomized queue's array.

  All are taken as unbounded integers, since the assignments keep them small.
- `WeightedQuickUnionUF` comes from the course library, which is not part of this model.
  - It is modelled as a quick-find union–find: every site stores its root.
  - The model keeps the components it computes, not which root it picks or its weighting by size.
  - `Percolations.UnionFind.Union` therefore states which sites end up together, not the library's choice of root.
- `MinPQ` and `Stack` from the course library are modelled as sequences.
  - `Solvers.DelMin` removes some node of least priority. It may break ties differently from the binary heap.
- `Solvers.Search`: the search loop runs at most `fuel` rounds, so termination of the unbounded A* loop is not modelled.
  - `finished` tells whether the loop stopped on its own. When it did not, the solver reports no solution.
- `Boards.Board.Equals`: it takes a `Board?`, so the `instanceof Board` test against objects of other classes is not modelled.
- The cached fields of `Board` (Hamming, Manhattan, blank index, goal) are not final in the source, but nothing assigns them after the constructor, so they are constants here.
  - `Swap`, `CreateNeighborBoard` and `Twin` change the array only temporarily, and undo the change.
- `RandomizedQueue.iterator` (src/week2/RandomizedQueue.java:100-135) is not modelled.
  - It copies and shuffles the items with `StdRandom.shuffle`, and the randomness is not part of this model.
- Random positions in `dequeue` and `sample` are passed in as `randIndex` instead of drawn with `StdRandom.uniform`.
- Concurrent modification of a `Deque` while an iterator walks it is not modelled. The iterator reads the deque's contents by position.
- The `toString` methods and the `main` test drivers are not part of this model. Neither are `PercolationStats`, `Permutation` or the other assignments of the repository.
