/**
 * The A* solver for the sliding-tile puzzle. The search runs the initial
 * board and its twin side by side in one min-priority queue ordered by
 * Manhattan distance plus moves made; it stops at the first goal board it
 * removes, and records it as the solution only when it lies on the lineage
 * of the initial board (the twin reaching the goal means the initial board
 * cannot). The solution is rebuilt by walking the parent links.
 */
module Solvers {
  import opened Outcomes
  import opened Boards
  import opened Arithmetic

  /** `next` is one blank slide away from `prev`: one of prev's neighbour boards. */
  ghost predicate Follows(prev: Board, next: Board)
  {
    && prev.Cached() && prev.n > 0 && next.n == prev.n
    && 0 <= prev.blankIndex < |prev.Tiles|
    && next.Tiles in NeighborsOf(prev.n, prev.Tiles, prev.blankIndex)
  }

  /** A search node: a board, the moves made to reach it, its parent and its lineage. */
  class SearchNode {
    const board: Board
    const moves: int
    const prevSearchNode: SearchNode?
    const twin: bool
    /** The boards from the root of this node's lineage down to its own board. */
    ghost const Path: seq<Board>

    constructor (board: Board, moves: int, prevSearchNode: SearchNode?, twin: bool)
      ensures this.board == board && this.moves == moves
      ensures this.prevSearchNode == prevSearchNode && this.twin == twin
      ensures Path == (if prevSearchNode == null then [] else prevSearchNode.Path) + [board]
    {
      this.board := board;
      this.moves := moves;
      this.prevSearchNode := prevSearchNode;
      this.twin := twin;
      Path := (if prevSearchNode == null then [] else prevSearchNode.Path) + [board];
    }

    /**
     * The lineage is well formed: a root has made no moves; a child made one
     * move more than its parent, shares its twin flag and the side of its
     * board, and extends its parent's path by its own board.
     */
    ghost predicate Valid()
      decreases |Path|
    {
      && moves >= 0 && |Path| == moves + 1
      && Path[moves] == board
      && board.Cached()
      && (prevSearchNode == null ==> moves == 0)
      && (prevSearchNode != null ==>
            && |prevSearchNode.Path| == moves
            && prevSearchNode.Valid()
            && Path == prevSearchNode.Path + [board]
            && prevSearchNode.twin == twin
            && prevSearchNode.board.n == board.n)
    }

    /** Along the lineage, each board is a neighbour of its parent's board. */
    ghost predicate Linked()
      requires Valid()
      decreases |Path|, 0
    {
      prevSearchNode != null ==> prevSearchNode.LeadsTo(board)
    }

    /** `next` is a neighbour of this node's board, and this node's lineage is linked. */
    ghost predicate LeadsTo(next: Board)
      requires Valid()
      decreases |Path|, 1
    {
      Follows(board, next) && Linked()
    }

    /** The A* priority: the board's cached Manhattan distance plus the moves made. */
    function Priority(): int
    {
      board.manhattanNum + moves
    }

    /** Nodes compare by priority alone: negative, zero or positive as this one is smaller, equal or larger. */
    function CompareTo(s: SearchNode): (c: int)
      ensures c < 0 <==> Priority() < s.Priority()
      ensures c == 0 <==> Priority() == s.Priority()
      ensures c > 0 <==> Priority() > s.Priority()
    {
      Priority() - s.Priority()
    }
  }

  /**
   * The priority is the Manhattan distance of the board plus the moves made;
   * it never falls below the moves made, and equals them exactly at a goal.
   */
  lemma PriorityBounds(x: SearchNode)
    requires x.board.Cached()
    ensures x.Priority() == ManhattanOf(x.board.n, x.board.Tiles) + x.moves
    ensures x.Priority() >= x.moves
    ensures x.Priority() == x.moves <==> IsGoalTiles(x.board.Tiles)
  {
    ManhattanZeroIffGoal(x.board.n, x.board.Tiles);
  }

  /** Comparing two nodes either way round gives opposite answers. */
  lemma CompareAntisymmetric(x: SearchNode, y: SearchNode)
    ensures x.CompareTo(y) == -y.CompareTo(x)
  {
  }

  /** Every board on a valid lineage has the same side, and each follows the one before it. */
  lemma {:induction false} PathFollows(x: SearchNode)
    requires x.Valid() && x.Linked()
    ensures |x.Path| == x.moves + 1 && x.Path[|x.Path| - 1] == x.board
    ensures forall i :: 0 <= i < |x.Path| ==> x.Path[i].Cached() && x.Path[i].n == x.board.n
    ensures forall i :: 0 < i < |x.Path| ==> Follows(x.Path[i - 1], x.Path[i])
    decreases |x.Path|
  {
    var p := x.prevSearchNode;
    if p != null {
      PathFollows(p);
      assert x.Path == p.Path + [x.board];
    } else {
      assert x.Path == [x.board];
    }
  }

  /** A board that follows another differs from it by one slide of the blank to an adjacent cell. */
  lemma FollowsIsSlide(prev: Board, next: Board)
    requires Follows(prev, next)
    ensures IsSlide(prev.n, prev.Tiles, prev.blankIndex, next.Tiles)
  {
    NeighborsAreSlides(prev.n, prev.Tiles, prev.blankIndex);
  }


  /** The tiles of the nodes' boards, in queue order. */
  ghost function NodeTiles(nodes: seq<SearchNode>): (ts: seq<seq<int>>)
    ensures |ts| == |nodes|
  {
    if |nodes| == 0 then [] else NodeTiles(nodes[..|nodes| - 1]) + [nodes[|nodes| - 1].board.Tiles]
  }

  lemma NodeTilesAppend(nodes: seq<SearchNode>, x: SearchNode)
    ensures NodeTiles(nodes + [x]) == NodeTiles(nodes) + [x.board.Tiles]
  {
    assert (nodes + [x])[..|nodes|] == nodes;
  }

  /** The tiles of the parent's board, if the node has a parent. */
  ghost function ParentTiles(sn: SearchNode): Option<seq<int>>
  {
    if sn.prevSearchNode == null then None else Some(sn.prevSearchNode.board.Tiles)
  }

  /** The neighbours that are inserted, in order: all of them except any equal to the parent's board. */
  function KeptNeighbors(neighbors: seq<seq<int>>, parent: Option<seq<int>>): seq<seq<int>>
  {
    if |neighbors| == 0 then []
    else
      var last := neighbors[|neighbors| - 1];
      KeptNeighbors(neighbors[..|neighbors| - 1], parent) + (if parent == Some(last) then [] else [last])
  }

  /** Extending the neighbour list by one entry inserts that entry unless it is the parent's board. */
  lemma KeptNeighborsStep(ts: seq<seq<int>>, i: int, parent: Option<seq<int>>)
    requires 0 <= i < |ts|
    ensures KeptNeighbors(ts[..i + 1], parent) ==
            KeptNeighbors(ts[..i], parent) + (if parent == Some(ts[i]) then [] else [ts[i]])
  {
    assert ts[..i + 1][..i] == ts[..i];
  }

  /** A neighbour is inserted exactly when it differs from the parent's board. */
  lemma {:induction false} KeptNeighborsMembers(neighbors: seq<seq<int>>, parent: Option<seq<int>>, u: seq<int>)
    ensures u in KeptNeighbors(neighbors, parent) <==> u in neighbors && parent != Some(u)
  {
    if |neighbors| > 0 {
      var init := neighbors[..|neighbors| - 1];
      KeptNeighborsMembers(init, parent, u);
      assert neighbors == init + [neighbors[|neighbors| - 1]];
    }
  }

  /** A root has no parent, so all of its neighbours are inserted. */
  lemma {:induction false} KeptNeighborsOfRoot(neighbors: seq<seq<int>>)
    ensures KeptNeighbors(neighbors, None) == neighbors
  {
    if |neighbors| > 0 {
      KeptNeighborsOfRoot(neighbors[..|neighbors| - 1]);
      assert neighbors == neighbors[..|neighbors| - 1] + [neighbors[|neighbors| - 1]];
    }
  }

  /**
   * The queue's extract-min: removes one node of least priority and leaves
   * the others.
   */
  method DelMin(pq: seq<SearchNode>) returns (min: SearchNode, rest: seq<SearchNode>)
    requires |pq| > 0
    ensures multiset(pq) == multiset(rest) + multiset{min}
    ensures min in pq && forall x :: x in rest ==> x in pq
    ensures forall x :: x in pq ==> min.Priority() <= x.Priority()
  {
    var k := 0;
    var i := 1;
    while i < |pq|
      invariant 0 <= k < i <= |pq|
      invariant forall j :: 0 <= j < i ==> pq[k].Priority() <= pq[j].Priority()
    {
      if pq[i].Priority() < pq[k].Priority() {
        k := i;
      }
      i := i + 1;
    }
    min := pq[k];
    rest := pq[..k] + pq[k + 1..];
    assert pq == pq[..k] + [min] + pq[k + 1..];
  }

  /** `c` is a child of `sn`: one move more, `sn` as parent, the same twin flag, and a neighbour board. */
  ghost predicate ChildOf(c: SearchNode, sn: SearchNode)
  {
    && c.prevSearchNode == sn && c.moves == sn.moves + 1 && c.twin == sn.twin
    && c.Path == sn.Path + [c.board]
    && c.Valid() && c.Linked()
  }

  /** A new node for a neighbour board of the removed node `sn`. */
  method NewChild(sn: SearchNode, neighbor: Board) returns (c: SearchNode)
    requires sn.Valid() && neighbor.Cached() && neighbor.n == sn.board.n && sn.LeadsTo(neighbor)
    ensures fresh(c) && c.board == neighbor && ChildOf(c, sn)
  {
    c := new SearchNode(neighbor, sn.moves + 1, sn, sn.twin);
  }

  /** Whether a neighbour board is inserted: always for a root, otherwise when it differs from the parent's board. */
  method KeepNeighbor(sn: SearchNode, neighbor: Board) returns (keep: bool)
    requires sn.Valid() && neighbor.Valid() && neighbor.n == sn.board.n
    requires sn.prevSearchNode != null ==> sn.prevSearchNode.board.Valid()
    ensures keep <==> ParentTiles(sn) != Some(neighbor.Tiles)
  {
    var prevSearchNode := sn.prevSearchNode;
    keep := true;
    if prevSearchNode != null {
      var same := neighbor.Equals(prevSearchNode.board);
      keep := !same;
    }
  }

  /**
   * Appends a child for the neighbour board at position `i` unless that
   * board equals the parent's board: the children then match the kept
   * neighbours one position further.
   */
  method AddChild(sn: SearchNode, children: seq<SearchNode>, neighbor: Board, ghost ts: seq<seq<int>>, ghost i: int)
      returns (children': seq<SearchNode>)
    requires sn.Valid() && (sn.prevSearchNode != null ==> sn.prevSearchNode.board.Valid())
    requires neighbor.Valid() && neighbor.n == sn.board.n && sn.LeadsTo(neighbor)
    requires 0 <= i < |ts| && ts[i] == neighbor.Tiles
    requires NodeTiles(children) == KeptNeighbors(ts[..i], ParentTiles(sn))
    ensures NodeTiles(children') == KeptNeighbors(ts[..i + 1], ParentTiles(sn))
    ensures forall c :: c in children' ==> c in children || (fresh(c) && c.board == neighbor && ChildOf(c, sn))
  {
    KeptNeighborsStep(ts, i, ParentTiles(sn));
    children' := children;
    var keep := KeepNeighbor(sn, neighbor);
    if keep {
      var node := NewChild(sn, neighbor);
      NodeTilesAppend(children, node);
      children' := children + [node];
    }
  }

  /**
   * The children of a removed node: one per neighbour board, in order,
   * skipping any neighbour equal to the board of the node's parent.
   */
  method Expand(sn: SearchNode, neighbors: seq<Board>) returns (children: seq<SearchNode>)
    requires sn.Valid()
    requires sn.prevSearchNode != null ==> sn.prevSearchNode.board.Valid()
    requires forall k :: 0 <= k < |neighbors| ==>
      neighbors[k].Valid() && neighbors[k].n == sn.board.n && sn.LeadsTo(neighbors[k])
    ensures NodeTiles(children) == KeptNeighbors(TilesOf(neighbors), ParentTiles(sn))
    ensures forall c :: c in children ==> fresh(c) && c.board in neighbors && ChildOf(c, sn)
  {
    ghost var ts := TilesOf(neighbors);
    ghost var parent := ParentTiles(sn);
    TilesOfIndex(neighbors);
    children := [];
    var i := 0;
    while i < |neighbors|
      invariant 0 <= i <= |neighbors|
      invariant NodeTiles(children) == KeptNeighbors(ts[..i], parent)
      invariant forall c :: c in children ==> fresh(c) && c.board in neighbors && ChildOf(c, sn)
    {
      children := AddChild(sn, children, neighbors[i], ts, i);
      i := i + 1;
    }
    assert ts[..i] == ts;
  }

  /**
   * The neighbour boards of a removed node's board. The board's array is
   * swapped only temporarily, so every board that was valid stays valid.
   */
  method Successors(sn: SearchNode, ghost seen: set<Board>) returns (neighbors: seq<Board>)
    requires sn.Valid() && sn.Linked() && sn.board.Valid() && sn.board.n > 0
    requires forall bd :: bd in seen ==> bd.Valid()
    modifies sn.board.cells
    ensures forall bd :: bd in seen ==> bd.Valid()
    ensures TilesOf(neighbors) == NeighborsOf(sn.board.n, sn.board.Tiles, sn.board.blankIndex)
    ensures forall k :: 0 <= k < |neighbors| ==>
      && fresh(neighbors[k]) && fresh(neighbors[k].cells)
      && neighbors[k].Valid() && neighbors[k].n == sn.board.n && sn.LeadsTo(neighbors[k])
  {
    var b := sn.board;
    var r := b.Neighbors();
    forall bd | bd in seen
      ensures bd.Valid()
    {
      assert bd.cells[..] == old(bd.cells[..]);
    }
    neighbors := r.value;
    NeighborBoardsFollow(b, neighbors);
  }

  /** Every board whose tiles are listed among a board's neighbours, at the same side, follows that board. */
  lemma NeighborBoardsFollow(b: Board, neighbors: seq<Board>)
    requires b.Cached() && b.n > 0
    requires forall k :: 0 <= k < |neighbors| ==> neighbors[k].n == b.n
    requires TilesOf(neighbors) == NeighborsOf(b.n, b.Tiles, b.blankIndex)
    ensures forall k :: 0 <= k < |neighbors| ==> Follows(b, neighbors[k])
  {
    TilesOfIndex(neighbors);
    MulMonotone(1, b.n, b.n);
    forall k | 0 <= k < |neighbors|
      ensures Follows(b, neighbors[k])
    {
      var ts := TilesOf(neighbors);
      assert neighbors[k].Tiles == ts[k] && ts[k] in ts;
    }
  }


  /** A node of the search: a valid lineage rooted at the initial board, or at the twin board on the twin lineage. */
  ghost predicate Rooted(x: SearchNode, initial: Board, twinBoard: Board)
  {
    x.Valid() && x.Linked() && x.Path[0] == (if x.twin then twinBoard else initial)
  }

  /** A child of a rooted node is rooted at the same board. */
  lemma ChildRooted(c: SearchNode, sn: SearchNode, initial: Board, twinBoard: Board)
    requires ChildOf(c, sn) && Rooted(sn, initial, twinBoard)
    ensures Rooted(c, initial, twinBoard)
  {
    assert c.Path[0] == sn.Path[0];
  }

  /**
   * What the search promises about the nodes it removed, in order: each is
   * rooted, none but the last is a goal, and the solution is the last one
   * exactly when that is a goal on the initial board's lineage.
   */
  ghost predicate SearchTrace(popped: seq<SearchNode>, solution: SearchNode?, initial: Board, twinBoard: Board)
  {
    && (forall i :: 0 <= i < |popped| ==> Rooted(popped[i], initial, twinBoard))
    && (forall i :: 0 <= i < |popped| - 1 ==> !popped[i].board.goal)
    && (solution != null <==>
          |popped| > 0 && popped[|popped| - 1].board.goal && !popped[|popped| - 1].twin)
    && (solution != null ==> solution == popped[|popped| - 1])
  }

  /** The queue the search starts from: the root of the initial board, then the root of the twin board. */
  ghost predicate IsStart(q: seq<SearchNode>, initial: Board, twinBoard: Board)
  {
    && |q| == 2
    && q[0].board == initial && q[0].moves == 0 && q[0].prevSearchNode == null && !q[0].twin
    && q[1].board == twinBoard && q[1].moves == 0 && q[1].prevSearchNode == null && q[1].twin
  }

  /**
   * The rounds of the search, best first: `queues[i]` is the queue before
   * round i, which removes `popped[i]`, a node of least priority in it, and
   * inserts `expanded[i]`, that node's kept children, giving `queues[i + 1]`.
   */
  ghost predicate BestFirst(popped: seq<SearchNode>, queues: seq<seq<SearchNode>>, expanded: seq<seq<SearchNode>>,
                            initial: Board, twinBoard: Board)
  {
    && |queues| == |popped| + 1 && |expanded| == |popped|
    && IsStart(queues[0], initial, twinBoard)
    && (forall i :: 0 <= i < |popped| ==> BestRound(queues[i], popped[i], expanded[i], queues[i + 1]))
  }

  /**
   * One round of the search: `sn` is a least node of `q`, and `q'` is `q`
   * without it and with its children `children` added.
   */
  ghost predicate BestRound(q: seq<SearchNode>, sn: SearchNode, children: seq<SearchNode>, q': seq<SearchNode>)
  {
    && sn in q
    && (forall x :: x in q ==> sn.Priority() <= x.Priority())
    && Expansion(sn, children)
    && multiset(q') == multiset(q) - multiset{sn} + multiset(children)
  }

  /** A round that removes a least node and inserts its kept children extends the best-first record. */
  lemma BestFirstStep(popped: seq<SearchNode>, queues: seq<seq<SearchNode>>, expanded: seq<seq<SearchNode>>,
                      initial: Board, twinBoard: Board, sn: SearchNode, children: seq<SearchNode>,
                      next: seq<SearchNode>)
    requires BestFirst(popped, queues, expanded, initial, twinBoard)
    requires BestRound(queues[|popped|], sn, children, next)
    ensures BestFirst(popped + [sn], queues + [next], expanded + [children], initial, twinBoard)
  {
    var popped': seq<SearchNode>, queues': seq<seq<SearchNode>>, expanded': seq<seq<SearchNode>> :=
      popped + [sn], queues + [next], expanded + [children];
    forall i | 0 <= i < |popped'|
      ensures BestRound(queues'[i], popped'[i], expanded'[i], queues'[i + 1])
    {
      if i < |popped| {
        assert popped'[i] == popped[i] && queues'[i] == queues[i] && queues'[i + 1] == queues[i + 1];
        assert expanded'[i] == expanded[i];
      }
    }
  }

  /**
   * The record the search loop keeps: the removed nodes are rooted and not
   * goals, the rounds went best first, and `pq` is the latest queue.
   */
  ghost predicate Searching(popped: seq<SearchNode>, queues: seq<seq<SearchNode>>, expanded: seq<seq<SearchNode>>,
                            pq: seq<SearchNode>, initial: Board, twinBoard: Board)
  {
    && (forall i :: 0 <= i < |popped| ==> Rooted(popped[i], initial, twinBoard) && !popped[i].board.goal)
    && BestFirst(popped, queues, expanded, initial, twinBoard) && queues[|popped|] == pq
  }

  /** A round of the loop extends the record by the removed node, its children and the new queue. */
  lemma SearchingStep(popped: seq<SearchNode>, queues: seq<seq<SearchNode>>, expanded: seq<seq<SearchNode>>,
                      pq: seq<SearchNode>, initial: Board, twinBoard: Board, sn: SearchNode,
                      children: seq<SearchNode>, next: seq<SearchNode>)
    requires Searching(popped, queues, expanded, pq, initial, twinBoard)
    requires sn in pq && forall x :: x in pq ==> sn.Priority() <= x.Priority()
    requires multiset(next) == multiset(pq) - multiset{sn} + multiset(children)
    requires Expansion(sn, children) && Rooted(sn, initial, twinBoard)
    ensures BestFirst(popped + [sn], queues + [next], expanded + [children], initial, twinBoard)
    ensures (queues + [next])[|popped + [sn]|] == next
    ensures forall i :: 0 <= i < |popped| ==> Rooted((popped + [sn])[i], initial, twinBoard)
    ensures forall i :: 0 <= i < |popped| ==> !(popped + [sn])[i].board.goal
    ensures !sn.board.goal ==> Searching(popped + [sn], queues + [next], expanded + [children], next, initial, twinBoard)
  {
    BestFirstStep(popped, queues, expanded, initial, twinBoard, sn, children, next);
  }

  /**
   * The state the search keeps between rounds: every board met so far is
   * valid and has the initial board's side, and every queued node is rooted
   * and its board and its parent's board have been met.
   */
  ghost predicate SearchState(pq: seq<SearchNode>, seen: set<Board>, initial: Board, twinBoard: Board)
    reads set bd | bd in seen :: bd.cells
  {
    && initial in seen && twinBoard in seen
    && (forall bd :: bd in seen ==> bd.Valid() && bd.n == initial.n)
    && (forall x :: x in pq ==>
          && Rooted(x, initial, twinBoard) && x.board in seen
          && (x.prevSearchNode != null ==> x.prevSearchNode.board in seen))
  }

  /** The search state grows by a removed node's neighbour boards and children. */
  lemma GrowState(pq: seq<SearchNode>, sn: SearchNode, seen: set<Board>, neighbors: seq<Board>,
                  children: seq<SearchNode>, initial: Board, twinBoard: Board)
    requires initial in seen && twinBoard in seen
    requires forall bd :: bd in seen ==> bd.Valid() && bd.n == initial.n
    requires forall x :: x in pq + [sn] ==>
      && Rooted(x, initial, twinBoard) && x.board in seen
      && (x.prevSearchNode != null ==> x.prevSearchNode.board in seen)
    requires forall k :: 0 <= k < |neighbors| ==> neighbors[k].Valid() && neighbors[k].n == sn.board.n
    requires forall c :: c in children ==> c.board in neighbors && ChildOf(c, sn)
    ensures SearchState(pq + children, seen + (set nb | nb in neighbors), initial, twinBoard)
  {
    var seen' := seen + (set nb | nb in neighbors);
    assert sn in pq + [sn];
    forall bd | bd in seen'
      ensures bd.Valid() && bd.n == initial.n
    {
      if bd !in seen {
        var k :| 0 <= k < |neighbors| && neighbors[k] == bd;
      }
    }
    forall x | x in pq + children
      ensures Rooted(x, initial, twinBoard) && x.board in seen'
      ensures x.prevSearchNode != null ==> x.prevSearchNode.board in seen'
    {
      if x in children {
        ChildRooted(x, sn, initial, twinBoard);
      } else {
        assert x in pq + [sn];
      }
    }
  }

  /**
   * The children a round inserts after removing `sn`: none when its board
   * is the goal, otherwise one child per neighbour board, in order, except
   * a neighbour equal to the board of `sn`'s parent.
   */
  ghost predicate Expansion(sn: SearchNode, children: seq<SearchNode>)
  {
    && (sn.board.goal ==> children == [])
    && (!sn.board.goal ==>
          && sn.board.Cached() && sn.board.n > 0 && 0 <= sn.board.blankIndex < |sn.board.Tiles|
          && NodeTiles(children) ==
             KeptNeighbors(NeighborsOf(sn.board.n, sn.board.Tiles, sn.board.blankIndex), ParentTiles(sn))
          && forall c :: c in children ==> ChildOf(c, sn))
  }

  /** One round after a non-goal node `sn` is removed: its children join the queue. */
  method Advance(sn: SearchNode, pq: seq<SearchNode>, ghost seen: set<Board>, ghost initial: Board,
                 ghost twinBoard: Board)
      returns (children: seq<SearchNode>, pq': seq<SearchNode>, ghost seen': set<Board>)
    requires SearchState(pq + [sn], seen, initial, twinBoard) && initial.n > 0 && !sn.board.goal
    modifies sn.board.cells
    ensures SearchState(pq', seen', initial, twinBoard)
    ensures seen <= seen' && forall bd :: bd in seen' - seen ==> fresh(bd.cells)
    ensures pq' == pq + children && Expansion(sn, children)
  {
    assert sn in pq + [sn];
    var neighbors := Successors(sn, seen);
    seen' := seen + set nb | nb in neighbors;
    forall bd | bd in seen' - seen
      ensures fresh(bd.cells)
    {
      var k :| 0 <= k < |neighbors| && neighbors[k] == bd;
    }
    children := Expand(sn, neighbors);
    pq' := pq + children;
    GrowState(pq, sn, seen, neighbors, children, initial, twinBoard);
  }

  /** Taking a node out of the queue keeps the search state, with the node itself still rooted. */
  lemma RemovedState(pq: seq<SearchNode>, rest: seq<SearchNode>, sn: SearchNode, seen: set<Board>,
                     initial: Board, twinBoard: Board)
    requires SearchState(pq, seen, initial, twinBoard)
    requires sn in pq && forall x :: x in rest ==> x in pq
    ensures SearchState(rest + [sn], seen, initial, twinBoard)
    ensures Rooted(sn, initial, twinBoard) && sn.board in seen
  {
    assert forall x :: x in rest + [sn] ==> x in pq;
  }

  /**
   * One round of the A* loop: removes a node of least priority and, unless
   * its board is the goal, inserts its children.
   */
  method Round(pq: seq<SearchNode>, ghost seen: set<Board>, ghost initial: Board, ghost twinBoard: Board)
      returns (sn: SearchNode, children: seq<SearchNode>, pq': seq<SearchNode>, ghost seen': set<Board>)
    requires SearchState(pq, seen, initial, twinBoard) && |pq| > 0 && initial.n > 0
    modifies set bd | bd in seen :: bd.cells
    ensures sn in pq && forall x :: x in pq ==> sn.Priority() <= x.Priority()
    ensures multiset(pq') == multiset(pq) - multiset{sn} + multiset(children)
    ensures Expansion(sn, children)
    ensures Rooted(sn, initial, twinBoard)
    ensures SearchState(pq', seen', initial, twinBoard)
    ensures seen <= seen' && forall bd :: bd in seen' - seen ==> fresh(bd.cells)
  {
    var rest;
    sn, rest := DelMin(pq);
    RemovedState(pq, rest, sn, seen, initial, twinBoard);
    children, pq', seen' := [], rest, seen;
    if !sn.board.goal {
      children, pq', seen' := Advance(sn, rest, seen, initial, twinBoard);
    }
    assert multiset(pq) - multiset{sn} == multiset(rest);
  }

  /**
   * The A* loop. Both roots go into the queue; each round removes a node
   * of least priority, stops if its board is the goal, and otherwise
   * inserts its children. The loop runs at most `fuel` rounds; `finished`
   * says it stopped the way the unbounded loop does, at a goal or an empty
   * queue. The boards' arrays are swapped only temporarily.
   */
  method Search(initial: Board, twinBoard: Board, fuel: nat)
      returns (solution: SearchNode?, ghost popped: seq<SearchNode>, ghost remaining: seq<SearchNode>,
               finished: bool, ghost queues: seq<seq<SearchNode>>, ghost expanded: seq<seq<SearchNode>>)
    requires initial.Valid() && twinBoard.Valid()
    requires initial.n >= 2 && twinBoard.n == initial.n
    modifies initial.cells, twinBoard.cells
    ensures initial.Valid() && twinBoard.Valid()
    ensures SearchTrace(popped, solution, initial, twinBoard)
    ensures BestFirst(popped, queues, expanded, initial, twinBoard) && remaining == queues[|popped|]
    ensures |popped| <= fuel
    ensures finished <==> remaining == [] || (|popped| > 0 && popped[|popped| - 1].board.goal)
    ensures !finished ==> |popped| == fuel
  {
    var root := new SearchNode(initial, 0, null, false);
    var twinRoot := new SearchNode(twinBoard, 0, null, true);
    var pq := [root, twinRoot];
    ghost var seen := {initial, twinBoard};
    solution := null;
    popped := [];
    queues, expanded := [pq], [];
    var steps := 0;
    while pq != [] && steps < fuel
      invariant 0 <= steps <= fuel && |popped| == steps
      invariant SearchState(pq, seen, initial, twinBoard)
      invariant forall bd :: bd in seen ==> bd == initial || bd == twinBoard || fresh(bd.cells)
      invariant Searching(popped, queues, expanded, pq, initial, twinBoard)
      decreases fuel - steps
    {
      var sn, children, next;
      sn, children, next, seen := Round(pq, seen, initial, twinBoard);
      SearchingStep(popped, queues, expanded, pq, initial, twinBoard, sn, children, next);
      pq := next;
      queues, expanded := queues + [pq], expanded + [children];
      popped := popped + [sn];
      steps := steps + 1;
      if sn.board.goal {
        if !sn.twin {
          solution := sn;
        }
        remaining := pq;
        finished := true;
        return;
      }
    }
    remaining := pq;
    finished := pq == [];
  }

  /**
   * Walks the parent links from the node up to its root, pushing each board
   * onto a stack; popping the stack then lists the path from the root down
   * to the node.
   */
  method PathTo(sn: SearchNode) returns (stack: seq<Board>)
    requires sn.Valid()
    ensures stack == sn.Path
  {
    stack := [sn.board];
    var prevSn := sn.prevSearchNode;
    assert prevSn == null ==> sn.Path == [sn.board];
    while prevSn != null
      invariant prevSn != null ==> prevSn.Valid() && sn.Path == prevSn.Path + stack
      invariant prevSn == null ==> sn.Path == stack
      decreases if prevSn == null then 0 else |prevSn.Path|
    {
      assert prevSn.prevSearchNode == null ==> prevSn.Path == [prevSn.board];
      stack := [prevSn.board] + stack;
      prevSn := prevSn.prevSearchNode;
    }
  }

  /** The solver: the goal node reached on the initial board's lineage, if any. */
  class Solver {
    const solutionSearchNode: SearchNode?
    ghost const Initial: Board
    ghost const TwinBoard: Board
    /** The nodes the search removed from the queue, in order. */
    ghost const Popped: seq<SearchNode>
    /** The queue before each round, and after the last one. */
    ghost const Queues: seq<seq<SearchNode>>
    /** The children each round inserted. */
    ghost const Expanded: seq<seq<SearchNode>>

    /** The twin root is the initial board's twin, and the recorded solution agrees with the search trace. */
    ghost predicate Valid()
    {
      && Initial.Cached() && Initial.n >= 2
      && TwinBoard.n == Initial.n && TwinBoard.Tiles == TwinOf(Initial.n, Initial.Tiles)
      && SearchTrace(Popped, solutionSearchNode, Initial, TwinBoard)
      && BestFirst(Popped, Queues, Expanded, Initial, TwinBoard)
    }

    constructor (solution: SearchNode?, ghost initial: Board, ghost twinBoard: Board, ghost popped: seq<SearchNode>,
                 ghost queues: seq<seq<SearchNode>>, ghost expanded: seq<seq<SearchNode>>)
      ensures solutionSearchNode == solution && Initial == initial
      ensures TwinBoard == twinBoard && Popped == popped
      ensures Queues == queues && Expanded == expanded
    {
      solutionSearchNode := solution;
      Initial := initial;
      TwinBoard := twinBoard;
      Popped := popped;
      Queues := queues;
      Expanded := expanded;
    }

    /**
     * Solves the initial board: a missing board throws a null-pointer
     * error, and a board of side below 2 throws when its twin is taken.
     * Otherwise the search runs for at most `fuel` rounds.
     */
    static method Create(initial: Board?, fuel: nat) returns (r: Result<Solver>, finished: bool)
      requires initial != null ==> initial.Valid()
      modifies if initial == null then {} else {initial.cells}
      ensures initial == null ==> r == Throws(NullPointer)
      ensures initial != null ==> initial.Valid() && initial.cells[..] == old(initial.cells[..])
      ensures initial != null && initial.n < 2 ==> r == Throws(IndexOutOfBounds)
      ensures initial != null && initial.n >= 2 ==> && r.Ok? && r.value.Valid() && r.value.Initial == initial
      ensures r.Ok? && !finished ==> |r.value.Popped| == fuel && r.value.solutionSearchNode == null
    {
      if initial == null {
        return Throws(NullPointer), true;
      }
      var twin := initial.Twin();
      if twin.Throws? {
        return Throws(twin.error), true;
      }
      var solution: SearchNode?;
      ghost var popped: seq<SearchNode>;
      ghost var remaining: seq<SearchNode>;
      ghost var queues: seq<seq<SearchNode>>;
      ghost var expanded: seq<seq<SearchNode>>;
      solution, popped, remaining, finished, queues, expanded := Search(initial, twin.value, fuel);
      var solver := new Solver(solution, initial, twin.value, popped, queues, expanded);
      r := Ok(solver);
    }

    /** Solvable exactly when the search stopped at a goal board on the initial board's lineage. */
    function IsSolvable(): (s: bool)
      requires Valid()
      ensures s <==> |Popped| > 0 && Popped[|Popped| - 1].board.goal && !Popped[|Popped| - 1].twin
    {
      solutionSearchNode != null
    }

    /**
     * The number of moves of the solution: -1 when unsolvable, otherwise the
     * length of the path from the initial board to the goal, less one.
     */
    function Moves(): (m: int)
      requires Valid()
      ensures !IsSolvable() ==> m == -1
      ensures IsSolvable() ==> (&& m >= 0 && m + 1 == |solutionSearchNode.Path|
                              && solutionSearchNode.Path[0] == Initial)
    {
      if IsSolvable() then solutionSearchNode.moves else -1
    }

    /**
     * The boards of the solution, from the initial board to the goal, built
     * by pushing the parents onto a stack; none when unsolvable.
     */
    method Solution() returns (r: Option<seq<Board>>)
      requires Valid()
      ensures r.None? <==> !IsSolvable()
      ensures r.Some? ==> && |r.value| == Moves() + 1
                          && r.value[0] == Initial
                          && r.value[|r.value| - 1].goal
                          && IsGoalTiles(r.value[|r.value| - 1].Tiles)
                          && forall i :: 0 < i < |r.value| ==> Follows(r.value[i - 1], r.value[i])
    {
      if !IsSolvable() {
        return None;
      }
      var stack := PathTo(solutionSearchNode);
      PathFollows(solutionSearchNode);
      r := Some(stack);
    }
  }
}
