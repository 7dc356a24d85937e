/** The patrol planner: one object that holds the occupancy grid, the patrol graph
    built over it, the transition matrix, the visit and traversal counters, and
    the step rule that picks the next node to move to. */
module Patrol {
  import opened Sums
  import opened Grid
  import opened Transition

  /** The node a planner starts on. */
  const StartNode: int := 5

  /** Largest 32-bit int: the count of unvisited nodes before the grid is loaded. */
  const IntMax: int := 0x7fff_ffff

  /** One grid cell: its (row, column) position, its occupancy value (0 = free)
      and the number of times it has been counted as visited. */
  datatype Node = Node(posX: int, posY: int, occupied: int, nodeCount: int)

  /** The node a vector of nodes is extended with. */
  const DefaultNode: Node := Node(0, 0, 0, 0)

  /** s cut or extended to length n, new slots holding d, as vector::resize leaves it. */
  function Resize<T>(s: seq<T>, n: nat, d: T): (r: seq<T>)
    ensures |r| == n
    ensures forall k :: 0 <= k < n ==> r[k] == if k < |s| then s[k] else d
  {
    if |s| >= n then s[..n] else s + seq(n - |s|, _ => d)
  }

  function Abs(x: real): real
  {
    if x < 0.0 then -x else x
  }

  /** The nodes once the grid acc has been laid out: node k, the old node k or a
      default node when the vector grew, moved to the row and column of cell k and
      given its occupancy value; its visit count is kept. */
  function LaidOut(nodes: seq<Node>, acc: seq<int>, cols: int): (r: seq<Node>)
    requires |acc| > 0 ==> cols > 0
    ensures |r| == |acc|
  {
    seq(|acc|, k requires 0 <= k < |acc| =>
      (if k < |nodes| then nodes[k] else DefaultNode).(posX := Row(k, cols), posY := Col(k, cols), occupied := acc[k]))
  }

  /** The unvisited flags once the grid acc has been loaded: 1 for a free cell;
      a blocked cell keeps the old flag, or 0 when the vector grew. */
  function InitialFlags(flags: seq<int>, acc: seq<int>): (r: seq<int>)
    ensures |r| == |acc|
  {
    seq(|acc|, k requires 0 <= k < |acc| => if acc[k] == 0 then 1 else if k < |flags| then flags[k] else 0)
  }

  /** Number of free cells. */
  function FreeCount(acc: seq<int>): nat
  {
    if acc == [] then 0 else (if acc[0] == 0 then 1 else 0) + FreeCount(acc[1..])
  }

  /** On a fresh planner the flags are 1 exactly on the free cells, so they add up
      to the number of free cells. */
  lemma {:induction false} FreshFlagsCount(acc: seq<int>)
    ensures forall k :: 0 <= k < |acc| ==> InitialFlags([], acc)[k] == if acc[k] == 0 then 1 else 0
    ensures Sum(InitialFlags([], acc)) == FreeCount(acc)
  {
    if acc != [] {
      assert InitialFlags([], acc)[1..] == InitialFlags([], acc[1..]);
      FreshFlagsCount(acc[1..]);
    }
  }

  /** Cells below m of the grid acc have been initialised from nodes0 and flags0:
      the node of cell k is nodes0[k] moved to the row and column of cell k with
      its occupancy value, and its flag is set when the cell is free. The cells
      from m on still hold nodes0 and flags0. */
  ghost predicate LaidOutBelow(nodes: seq<Node>, flags: seq<int>, nodes0: seq<Node>, flags0: seq<int>,
                               acc: seq<int>, cols: int, m: int)
  {
    |nodes0| == |acc| && |flags0| == |acc| && |nodes| == |acc| && |flags| == |acc| && 0 <= m <= |acc| &&
    (forall k :: 0 <= k < m ==>
      cols > 0 &&
      nodes[k] == nodes0[k].(posX := Row(k, cols), posY := Col(k, cols), occupied := acc[k]) &&
      flags[k] == if acc[k] == 0 then 1 else flags0[k]) &&
    (forall k :: m <= k < |acc| ==> nodes[k] == nodes0[k] && flags[k] == flags0[k])
  }

  /** Initialising cell m extends the initialised prefix by one cell. */
  lemma LaidOutStep(nodes: seq<Node>, flags: seq<int>, nodes0: seq<Node>, flags0: seq<int>,
                    acc: seq<int>, cols: int, m: int)
    requires LaidOutBelow(nodes, flags, nodes0, flags0, acc, cols, m) && m < |acc| && cols > 0
    ensures LaidOutBelow(nodes[m := nodes[m].(posX := Row(m, cols), posY := Col(m, cols), occupied := acc[m])],
                         if acc[m] == 0 then flags[m := 1] else flags, nodes0, flags0, acc, cols, m + 1)
  {
  }

  /** The unvisited flags after a run of incrCount calls with the given visit kinds,
      as the planner updates them: a call for a first visit clears slot 0, the slot
      the visit-kind value false converts to, whichever node was visited. */
  function FlagsAfter(flags: seq<int>, kinds: seq<bool>): (r: seq<int>)
    requires |flags| > 0
    ensures |r| == |flags|
    decreases |kinds|
  {
    if kinds == [] then flags
    else FlagsAfter(if kinds[0] then flags else flags[0 := 0], kinds[1..])
  }

  /** A run of calls followed by another run is the two runs joined: applying
      incrCount's one-call update after each call in turn gives FlagsAfter of the
      whole run. */
  lemma {:induction false} FlagsAfterAppend(flags: seq<int>, a: seq<bool>, b: seq<bool>)
    requires |flags| > 0
    ensures FlagsAfter(FlagsAfter(flags, a), b) == FlagsAfter(flags, a + b)
    decreases |a|
  {
    if a != [] {
      assert (a + b)[0] == a[0] && (a + b)[1..] == a[1..] + b;
      FlagsAfterAppend(if a[0] then flags else flags[0 := 0], a[1..], b);
    } else {
      assert a + b == b;
    }
  }

  /** No run of incrCount calls clears any flag but slot 0. */
  lemma {:induction false} OnlySlotZeroCleared(flags: seq<int>, kinds: seq<bool>, k: int)
    requires |flags| > 0 && 0 < k < |flags|
    ensures FlagsAfter(flags, kinds)[k] == flags[k]
    decreases |kinds|
  {
    if kinds != [] {
      OnlySlotZeroCleared(if kinds[0] then flags else flags[0 := 0], kinds[1..], k);
    }
  }

  /** Hence, once any node other than node 0 is flagged unvisited, the count of
      unvisited nodes stays positive however many nodes are then visited: the
      planner never reports completion. */
  lemma CompletionUnreachable(flags: seq<int>, kinds: seq<bool>, k: int)
    requires NonNegative(flags)
    requires 0 < k < |flags| && flags[k] == 1
    ensures Sum(FlagsAfter(flags, kinds)) >= 1
  {
    var after := FlagsAfter(flags, kinds);
    OnlySlotZeroCleared(flags, kinds, k);
    NonNegativeAfter(flags, kinds);
    SumAtLeastEntry(after, k);
  }

  lemma {:induction false} NonNegativeAfter(flags: seq<int>, kinds: seq<bool>)
    requires |flags| > 0 && NonNegative(flags)
    ensures NonNegative(FlagsAfter(flags, kinds))
    decreases |kinds|
  {
    if kinds != [] {
      NonNegativeAfter(if kinds[0] then flags else flags[0 := 0], kinds[1..]);
    }
  }

  class PatrolGraph {
    /** The occupancy values read from the grid file, row-major, 0 = free. */
    var accessVec: seq<int>
    var gridSizeX: int   // rows
    var gridSizeY: int   // columns
    var graphNodes: seq<Node>
    /** 1 for a node not yet visited, 0 otherwise, and how many are 1. */
    var unvisited: seq<int>
    var unvisitedCount: int
    /** Adjacency matrix, traversal counters per directed edge, transition matrix. */
    var graph: seq<seq<int>>
    var edgeCountMat: seq<seq<int>>
    var PTM: seq<seq<real>>
    var currentNode: int
    var chosenEdge: (int, int)
    var finalPath: seq<int>

    /** What holds from construction on: sizes are non-negative, counters are
        non-negative and unvisited flags are 0 or 1. */
    ghost predicate Shaped()
      reads this`gridSizeX, this`gridSizeY, this`graphNodes, this`unvisited
    {
      gridSizeX >= 0 && gridSizeY >= 0 &&
      (forall k :: 0 <= k < |graphNodes| ==> graphNodes[k].nodeCount >= 0) &&
      (forall k :: 0 <= k < |unvisited| ==> unvisited[k] == 0 || unvisited[k] == 1)
    }

    /** The planner once the grid is loaded: one node per cell at its row-major
        position, the graph and transition matrix derived from the occupancy values,
        square non-negative traversal counters, and the unvisited count in step with
        the flags. */
    ghost predicate Valid()
      reads this`accessVec, this`gridSizeX, this`gridSizeY, this`graphNodes, this`unvisited
      reads this`unvisitedCount, this`graph, this`edgeCountMat, this`PTM
    {
      Shaped() &&
      |accessVec| == gridSizeX * gridSizeY &&
      |graphNodes| == |accessVec| && |unvisited| == |accessVec| &&
      (forall k :: 0 <= k < |graphNodes| ==>
         gridSizeY > 0 && graphNodes[k].posX == Row(k, gridSizeY) &&
         graphNodes[k].posY == Col(k, gridSizeY) && graphNodes[k].occupied == accessVec[k]) &&
      graph == EdgeMatrix(accessVec, gridSizeY) &&
      IsSquare(edgeCountMat, |accessVec|) &&
      (forall u, v :: 0 <= u < |accessVec| && 0 <= v < |accessVec| ==> edgeCountMat[u][v] >= 0) &&
      PTM == ProbabilityMatrix(graph) &&
      unvisitedCount == Sum(unvisited)
    }

    constructor ()
      ensures Shaped()
      ensures gridSizeX == 0 && gridSizeY == 0
      ensures currentNode == StartNode && unvisitedCount == IntMax
      ensures accessVec == [] && graphNodes == [] && unvisited == []
      ensures graph == [] && edgeCountMat == [] && PTM == [] && finalPath == []
    {
      accessVec, graphNodes, unvisited := [], [], [];
      graph, edgeCountMat, PTM := [], [], [];
      gridSizeX, gridSizeY := 0, 0;
      currentNode, unvisitedCount := StartNode, IntMax;
      chosenEdge, finalPath := (0, 0), [];
    }

    /** Appends the values read from the grid file to accessVec and sets the grid
        size: rows = number of values followed by a line break, columns = all the
        values held divided by rows. A file that could not be opened changes nothing. */
    method LoadMatrixFile(isOpen: bool, values: seq<int>, newlineAfter: seq<bool>)
      requires |values| == |newlineAfter|
      requires isOpen ==> CountNewlines(newlineAfter) > 0
      modifies this`accessVec, this`gridSizeX, this`gridSizeY
      ensures isOpen ==> accessVec == old(accessVec) + values
      ensures isOpen ==> gridSizeX == CountNewlines(newlineAfter) && gridSizeY == |accessVec| / gridSizeX
      ensures !isOpen ==> accessVec == old(accessVec) && gridSizeX == old(gridSizeX) && gridSizeY == old(gridSizeY)
    {
      if isOpen {
        var numNl := 0;
        var k := 0;
        while k < |values|
          invariant 0 <= k <= |values|
          invariant numNl == CountNewlines(newlineAfter[..k])
          invariant accessVec == old(accessVec) + values[..k]
        {
          assert newlineAfter[..k + 1][..k] == newlineAfter[..k];
          if newlineAfter[k] {
            numNl := numNl + 1;
          }
          accessVec := accessVec + [values[k]];
          assert values[..k + 1] == values[..k] + [values[k]];
          k := k + 1;
        }
        assert newlineAfter[..k] == newlineAfter && values[..k] == values;
        gridSizeX := numNl;
        gridSizeY := |accessVec| / numNl;
      }
    }

    /** Loads the grid, lays one node per cell out in row-major order, flags every
        free cell unvisited, counts the flags, then builds the graph and the
        transition matrix. */
    method InitGraph(isOpen: bool, values: seq<int>, newlineAfter: seq<bool>)
      requires Shaped()
      requires |values| == |newlineAfter|
      requires isOpen ==> CountNewlines(newlineAfter) > 0
      // the grid must hold exactly the values loaded (asserted when the graph is built)
      requires isOpen ==>
        var rows, total := CountNewlines(newlineAfter), |accessVec| + |values|;
        rows * (total / rows) == total
      requires !isOpen ==> gridSizeX * gridSizeY == |accessVec|
      // the current node, the chosen edge and the path are left as they are
      modifies this`accessVec, this`gridSizeX, this`gridSizeY, this`graphNodes, this`unvisited
      modifies this`unvisitedCount, this`graph, this`edgeCountMat, this`PTM
      ensures Valid()
      ensures accessVec == if isOpen then old(accessVec) + values else old(accessVec)
      ensures isOpen ==> gridSizeX == CountNewlines(newlineAfter) && gridSizeY == |accessVec| / gridSizeX
      ensures !isOpen ==> gridSizeX == old(gridSizeX) && gridSizeY == old(gridSizeY)
      // one node per cell, visit counts kept; free cells flagged unvisited
      ensures graphNodes == LaidOut(old(graphNodes), accessVec, gridSizeY)
      ensures unvisited == InitialFlags(old(unvisited), accessVec)
      ensures old(unvisited) == [] ==> unvisitedCount == FreeCount(accessVec)
      ensures edgeCountMat == ZeroMatrix(|accessVec|)
    {
      LoadMatrixFile(isOpen, values, newlineAfter);
      SetUpNodes();
      CreateEdgeMat();
      ComputeProbabilityMat();
    }

    /** Resizes the nodes and the flags to one per cell, lays the nodes out and
        counts the unvisited flags. */
    method SetUpNodes()
      requires Shaped() && |accessVec| == gridSizeX * gridSizeY
      modifies this`graphNodes, this`unvisited, this`unvisitedCount
      ensures |accessVec| > 0 ==> gridSizeY > 0
      ensures graphNodes == LaidOut(old(graphNodes), accessVec, gridSizeY)
      ensures unvisited == InitialFlags(old(unvisited), accessVec)
      ensures unvisitedCount == Sum(unvisited)
      ensures old(unvisited) == [] ==> unvisitedCount == FreeCount(accessVec)
    {
      var n := gridSizeX * gridSizeY;
      graphNodes := Resize(graphNodes, n, DefaultNode);
      unvisited := Resize(unvisited, n, 0);
      ghost var nodes1, flags1 := graphNodes, unvisited;
      LayOutNodes();
      if n > 0 {
        // mentioning node 0 instantiates LayOutNodes's ensures at cell 0, which
        // holds gridSizeY > 0
        assert gridSizeY > 0 by { assert graphNodes[0] == graphNodes[0]; }
      }
      forall k | 0 <= k < n
        ensures graphNodes[k] == LaidOut(old(graphNodes), accessVec, gridSizeY)[k]
        ensures unvisited[k] == InitialFlags(old(unvisited), accessVec)[k]
      {
        assert flags1[k] == if k < |old(unvisited)| then old(unvisited)[k] else 0;
        assert nodes1[k] == if k < |old(graphNodes)| then old(graphNodes)[k] else DefaultNode;
      }
      unvisitedCount := Sum(unvisited);
      if old(unvisited) == [] {
        FreshFlagsCount(accessVec);
      }
    }

    /** The cells below m have been initialised from nodes0 and flags0. */
    ghost predicate LaidUpTo(nodes0: seq<Node>, flags0: seq<int>, m: int)
      reads this`accessVec, this`gridSizeY, this`graphNodes, this`unvisited
    {
      LaidOutBelow(graphNodes, unvisited, nodes0, flags0, accessVec, gridSizeY, m)
    }

    /** The grid initialisation loop: gives node i * gridSizeY + j the position
        (i, j) and the occupancy value of its cell, and flags it unvisited if its
        cell is free. */
    method LayOutNodes()
      requires gridSizeX >= 0 && gridSizeY >= 0 && |accessVec| == gridSizeX * gridSizeY
      requires |graphNodes| == |accessVec| && |unvisited| == |accessVec|
      modifies this`graphNodes, this`unvisited
      ensures |graphNodes| == |accessVec| && |unvisited| == |accessVec|
      ensures forall k :: 0 <= k < |accessVec| ==>
        gridSizeY > 0 && graphNodes[k] == old(graphNodes)[k].(posX := Row(k, gridSizeY), posY := Col(k, gridSizeY), occupied := accessVec[k]) &&
        unvisited[k] == if accessVec[k] == 0 then 1 else old(unvisited)[k]
    {
      ghost var nodes0, flags0 := graphNodes, unvisited;
      // the nodes before index base = i * gridSizeY are laid out
      var i := 0;
      ghost var base := 0;
      while i < gridSizeX
        modifies this`graphNodes, this`unvisited
        invariant 0 <= i <= gridSizeX && base == i * gridSizeY
        invariant LaidUpTo(nodes0, flags0, base)
      {
        MulMonotone(i + 1, gridSizeX, gridSizeY);
        MulSucc(i, gridSizeY);
        LayOutRow(i, base, nodes0, flags0);
        i := i + 1;
        base := base + gridSizeY;
      }
    }

    /** One pass of the outer initialisation loop: row i of the grid. */
    method LayOutRow(i: int, ghost base: int, ghost nodes0: seq<Node>, ghost flags0: seq<int>)
      requires gridSizeY >= 0 && 0 <= i && base == i * gridSizeY && base + gridSizeY <= |accessVec|
      requires LaidUpTo(nodes0, flags0, base)
      modifies this`graphNodes, this`unvisited
      ensures LaidUpTo(nodes0, flags0, base + gridSizeY)
    {
      var j := 0;
      while j < gridSizeY
        modifies this`graphNodes, this`unvisited
        invariant 0 <= j <= gridSizeY
        invariant LaidUpTo(nodes0, flags0, base + j)
      {
        var k := i * gridSizeY + j;
        CellOfIndex(i, j, gridSizeY);
        LaidOutStep(graphNodes, unvisited, nodes0, flags0, accessVec, gridSizeY, k);
        graphNodes := graphNodes[k := graphNodes[k].(posX := i, posY := j, occupied := accessVec[k])];
        if accessVec[k] == 0 {
          unvisited := unvisited[k := 1];
        }
        j := j + 1;
      }
    }

    /** Builds the adjacency matrix: for every free cell, an edge in both directions
        to each free cell among its 8 grid neighbours. Resets the traversal counters. */
    method CreateEdgeMat()
      requires gridSizeX >= 0 && gridSizeY >= 0 && gridSizeX * gridSizeY == |accessVec|
      modifies this`graph, this`edgeCountMat
      ensures graph == EdgeMatrix(accessVec, gridSizeY)
      ensures edgeCountMat == ZeroMatrix(|accessVec|)
    {
      var n := gridSizeX * gridSizeY;
      graph := ZeroMatrix(n);
      edgeCountMat := ZeroMatrix(n);
      MatchesStart(accessVec, gridSizeY);
      var i := 0;
      while i < n
        modifies this`graph
        invariant 0 <= i <= n
        invariant Matches(graph, accessVec, gridSizeY, i, -4)
      {
        if accessVec[i] == 0 {
          ConnectCell(i);
        } else {
          MatchesBlocked(graph, accessVec, gridSizeY, i);
        }
        i := i + 1;
      }
      MatchesDone(graph, accessVec, gridSizeY);
    }

    /** The shift loops of the graph construction for the free cell i: every
        neighbour offset in turn. */
    method ConnectCell(i: int)
      requires gridSizeX >= 0 && gridSizeY >= 0 && gridSizeX * gridSizeY == |accessVec|
      requires 0 <= i < |accessVec| && accessVec[i] == 0
      requires Matches(graph, accessVec, gridSizeY, i, -4)
      modifies this`graph
      ensures Matches(graph, accessVec, gridSizeY, i + 1, -4)
    {
      var row, col := i / gridSizeY, i % gridSizeY;
      var rowShift := -1;
      while rowShift <= 1
        modifies this`graph
        invariant -1 <= rowShift <= 2
        invariant Matches(graph, accessVec, gridSizeY, i, 3 * rowShift - 1)
      {
        var colShift := -1;
        while colShift <= 1
          modifies this`graph
          invariant -1 <= colShift <= 2
          invariant Matches(graph, accessVec, gridSizeY, i, 3 * rowShift + colShift)
        {
          ConnectOffset(i, row, col, rowShift, colShift);
          colShift := colShift + 1;
        }
        rowShift := rowShift + 1;
      }
      MatchesNext(graph, accessVec, gridSizeY, i);
    }

    /** The body of the shift loops: when the cell at offset (rowShift, colShift) from
        cell i, at row `row` and column col, is another cell of the grid and is free,
        the edge between the two is written in both directions. */
    method ConnectOffset(i: int, row: int, col: int, rowShift: int, colShift: int)
      requires gridSizeX >= 0 && gridSizeY >= 0 && gridSizeX * gridSizeY == |accessVec|
      requires 0 <= i < |accessVec| && accessVec[i] == 0 && row == i / gridSizeY && col == i % gridSizeY
      requires -1 <= rowShift <= 1 && -1 <= colShift <= 1
      requires Matches(graph, accessVec, gridSizeY, i, 3 * rowShift + colShift)
      modifies this`graph
      ensures Matches(graph, accessVec, gridSizeY, i, 3 * rowShift + colShift + 1)
    {
      var nbRow, nbCol := row + rowShift, col + colShift;
      ghost var rank := 3 * rowShift + colShift;
      if 0 <= nbRow < gridSizeX && 0 <= nbCol < gridSizeY && (rowShift != 0 || colShift != 0) {
        var nb := nbRow * gridSizeY + nbCol;
        EdgeHit(accessVec, gridSizeX, gridSizeY, i, rowShift, colShift, nb);
        if accessVec[nb] == 0 {
          MatchesAdd(graph, accessVec, gridSizeY, i, rank, nb);
          graph := graph[i := graph[i][nb := 1]];
          graph := graph[nb := graph[nb][i := 1]];
        } else {
          MatchesSkip(graph, accessVec, gridSizeY, i, rank);
        }
      } else {
        EdgeMiss(accessVec, gridSizeX, gridSizeY, i, rowShift, colShift);
        MatchesSkip(graph, accessVec, gridSizeY, i, rank);
      }
    }

    /** Sets the transition matrix: each adjacency row divided by its degree. */
    method ComputeProbabilityMat()
      modifies this`PTM
      ensures PTM == ProbabilityMatrix(graph)
    {
      PTM := ProbabilityMatrix(graph);
    }

    /** Counts one more visit of node currIndex and one more traversal of edge. On a
        first visit (currType false) it clears unvisited flag 0, the index the visit
        kind converts to, and recounts the flags. */
    method IncrCount(currIndex: int, currType: bool, edge: (int, int))
      requires 0 <= currIndex < |graphNodes|
      requires 0 <= edge.0 < |edgeCountMat| && 0 <= edge.1 < |edgeCountMat[edge.0]|
      requires !currType ==> |unvisited| > 0
      modifies this`graphNodes, this`edgeCountMat, this`unvisited, this`unvisitedCount
      ensures graphNodes == old(graphNodes)[currIndex := old(graphNodes)[currIndex].(nodeCount := old(graphNodes)[currIndex].nodeCount + 1)]
      ensures edgeCountMat == old(edgeCountMat)[edge.0 := old(edgeCountMat)[edge.0][edge.1 := old(edgeCountMat)[edge.0][edge.1] + 1]]
      ensures currType ==> unvisited == old(unvisited) && unvisitedCount == old(unvisitedCount)
      ensures !currType ==> unvisited == old(unvisited)[0 := 0] && unvisitedCount == Sum(unvisited)
      ensures |unvisited| > 0 ==> unvisited == FlagsAfter(old(unvisited), [currType])
      // the invariant is kept, and the count of unvisited nodes drops by the flag cleared
      ensures old(Valid()) ==> Valid()
      ensures old(Valid()) && !currType ==> unvisitedCount == old(unvisitedCount) - old(unvisited)[0]
      // the node just counted is no longer of the first-visit kind
      ensures old(Shaped()) && currIndex == currentNode ==> GetCurrentType()
    {
      graphNodes := graphNodes[currIndex := graphNodes[currIndex].(nodeCount := graphNodes[currIndex].nodeCount + 1)];
      edgeCountMat := edgeCountMat[edge.0 := edgeCountMat[edge.0][edge.1 := edgeCountMat[edge.0][edge.1] + 1]];
      if !currType {
        unvisited := unvisited[0 := 0];
        unvisitedCount := Sum(unvisited);
        SumUpdate(old(unvisited), 0, 0);
      }
      if |unvisited| > 0 {
        assert FlagsAfter(old(unvisited), [currType]) == FlagsAfter(unvisited, []);
      }
    }

    /** t is a neighbour the step rule measures from node from: a 4-connected grid
        neighbour whose cell is free and whose visit count is positive. The rule
        divides the traversal count by the visit count; for a count of zero the
        quotient is an IEEE infinity or NaN, which fails the `<=` test against
        deltaP_best, always finite, so such a neighbour is never chosen. */
    ghost predicate Candidate(from: int, t: int)
      reads this`gridSizeY, this`graphNodes, this`edgeCountMat, this`PTM
    {
      gridSizeY > 0 && 0 <= from < |graphNodes| && 0 <= t < |graphNodes| && Orthogonal(from, t, gridSizeY) &&
      graphNodes[t].occupied == 0 && graphNodes[t].nodeCount > 0 &&
      from < |edgeCountMat| && t < |edgeCountMat[from]| && from < |PTM| && t < |PTM[from]|
    }

    /** How far the observed share of moves from `from` into t, traversals over
        visits of t, is from the transition probability of that move. */
    function DeltaP(from: int, t: int): (d: real)
      reads this`graphNodes, this`edgeCountMat, this`PTM
      requires 0 <= from < |edgeCountMat| && 0 <= t < |edgeCountMat[from]| && from < |PTM| && t < |PTM[from]|
      requires 0 <= t < |graphNodes| && graphNodes[t].nodeCount > 0
      ensures d >= 0.0
      ensures d == 0.0 <==> edgeCountMat[from][t] as real / graphNodes[t].nodeCount as real == PTM[from][t]
    {
      Abs(edgeCountMat[from][t] as real / graphNodes[t].nodeCount as real - PTM[from][t])
    }

    /** t is a candidate whose deltaP is the least among the candidates from `from`. */
    ghost predicate IsBest(from: int, t: int)
      reads this`gridSizeY, this`graphNodes, this`edgeCountMat, this`PTM
    {
      Candidate(from, t) && forall u :: Candidate(from, u) ==> DeltaP(from, t) <= DeltaP(from, u)
    }

    /** best lists the best candidates from `from`, each once, in ascending order. */
    ghost predicate IsBestList(from: int, best: seq<int>)
      reads this`gridSizeY, this`graphNodes, this`edgeCountMat, this`PTM
    {
      Ascending(best) && forall t :: t in best <==> IsBest(from, t)
    }

    /** What the scan of the neighbours of the current node knows after the offsets
        of rank below k: best holds, in ascending order, the candidates seen so far
        whose deltaP equals deltaPBest, the least deltaP seen; with no candidate seen
        yet (deltaP_best still at its initial maximum), best is empty. */
    ghost predicate Scanned(best: seq<int>, haveBest: bool, deltaPBest: real, k: int)
      reads this`gridSizeY, this`graphNodes, this`edgeCountMat, this`PTM, this`currentNode
    {
      var from := currentNode;
      Ascending(best) &&
      (forall t :: t in best ==> Candidate(from, t) && Rank(from, t, gridSizeY) < k) &&
      (!haveBest ==> best == [] && forall t :: Candidate(from, t) ==> Rank(from, t, gridSizeY) >= k) &&
      (haveBest ==>
        best != [] &&
        (forall t :: Candidate(from, t) && Rank(from, t, gridSizeY) < k ==> deltaPBest <= DeltaP(from, t)) &&
        (forall t :: t in best <==> Candidate(from, t) && Rank(from, t, gridSizeY) < k && DeltaP(from, t) == deltaPBest))
    }

    /** The scan of findNext: visits the four 4-connected neighbours of the current
        node in the order of the shift loops and keeps every free neighbour of least
        deltaP, a strictly smaller deltaP replacing the list and an equal one
        extending it. */
    method BestNeighbours() returns (best: seq<int>)
      requires Measurable() && 0 <= currentNode < |graphNodes|
      ensures IsBestList(currentNode, best)
      ensures (exists t :: Candidate(currentNode, t)) ==> best != []
    {
      var haveBest := false;
      var deltaPBest: real := 0.0;
      best := [];
      CurrentInGrid();
      var currentI, currentJ := currentNode / gridSizeY, currentNode % gridSizeY;
      var iShift := -1;
      while iShift <= 1
        invariant -1 <= iShift <= 2
        invariant Scanned(best, haveBest, deltaPBest, 3 * iShift - 1)
      {
        var jShift := -1;
        while jShift <= 1
          invariant -1 <= jShift <= 2
          invariant Scanned(best, haveBest, deltaPBest, 3 * iShift + jShift)
        {
          best, haveBest, deltaPBest := ScanOffset(currentI, currentJ, iShift, jShift, best, haveBest, deltaPBest);
          jShift := jShift + 1;
        }
        iShift := iShift + 1;
      }
      ScanDone(best, haveBest, deltaPBest);
    }

    /** The body of the shift loops: the neighbour at offset (iShift, jShift) from
        the current node, at row currentI and column currentJ, is measured if it is
        a free 4-connected neighbour in the grid, and kept if its deltaP is no larger
        than the best so far. */
    method ScanOffset(currentI: int, currentJ: int, iShift: int, jShift: int,
                      best: seq<int>, haveBest: bool, deltaPBest: real)
      returns (best': seq<int>, haveBest': bool, deltaPBest': real)
      requires Measurable() && 0 <= currentNode < |graphNodes| && gridSizeY > 0
      requires currentI == currentNode / gridSizeY && currentJ == currentNode % gridSizeY
      requires -1 <= iShift <= 1 && -1 <= jShift <= 1
      requires Scanned(best, haveBest, deltaPBest, 3 * iShift + jShift)
      ensures Scanned(best', haveBest', deltaPBest', 3 * iShift + jShift + 1)
    {
      best', haveBest', deltaPBest' := best, haveBest, deltaPBest;
      var tentI, tentJ := currentI + iShift, currentJ + jShift;
      ghost var k := 3 * iShift + jShift;
      if 0 <= tentI < gridSizeX && 0 <= tentJ < gridSizeY && (iShift != 0 || jShift != 0) && iShift * jShift == 0 {
        var tentIndex := tentI * gridSizeY + tentJ;
        OffsetHit(iShift, jShift, tentIndex);
        if graphNodes[tentIndex].occupied == 0 {
          if graphNodes[tentIndex].nodeCount == 0 {
            // deltaP is infinite or NaN: it is never <= deltaP_best
            ScanSkip(best, haveBest, deltaPBest, k);
          } else {
            best', haveBest', deltaPBest' := MeasureCandidate(tentIndex, best, haveBest, deltaPBest, k);
          }
        } else {
          ScanSkip(best, haveBest, deltaPBest, k);
        }
      } else {
        OffsetMiss(iShift, jShift);
        ScanSkip(best, haveBest, deltaPBest, k);
      }
    }

    /** The candidate t, the only one at rank k, is measured: a deltaP no larger
        than the best so far replaces the list when smaller (or the first one seen)
        and extends it when equal. */
    method MeasureCandidate(t: int, best: seq<int>, haveBest: bool, deltaPBest: real, ghost k: int)
      returns (best': seq<int>, haveBest': bool, deltaPBest': real)
      requires Scanned(best, haveBest, deltaPBest, k)
      requires Candidate(currentNode, t) && Rank(currentNode, t, gridSizeY) == k
      requires forall u :: Candidate(currentNode, u) && Rank(currentNode, u, gridSizeY) == k ==> u == t
      ensures Scanned(best', haveBest', deltaPBest', k + 1)
    {
      best', haveBest', deltaPBest' := best, haveBest, deltaPBest;
      var deltaP := DeltaP(currentNode, t);
      if !haveBest || deltaP <= deltaPBest {
        if haveBest && deltaP == deltaPBest {
          ScanExtend(best, deltaPBest, k, t);
          best' := best + [t];
        } else {
          ScanReplace(best, haveBest, deltaPBest, k, t);
          best' := [t];
        }
        deltaPBest' := deltaP;
        haveBest' := true;
      } else {
        ScanKeep(best, deltaPBest, k, t);
      }
    }

    lemma CurrentInGrid()
      requires Measurable() && 0 <= currentNode < |graphNodes|
      ensures gridSizeY > 0
    {
    }

    /** The shape the scan of the neighbours relies on: one node per cell, visit
        counts that are not negative, and square traversal-count and transition
        matrices. */
    ghost predicate Measurable()
      reads this`gridSizeX, this`gridSizeY, this`graphNodes, this`edgeCountMat, this`PTM
    {
      gridSizeX >= 0 && gridSizeY >= 0 && |graphNodes| == gridSizeX * gridSizeY &&
      (forall k :: 0 <= k < |graphNodes| ==> graphNodes[k].nodeCount >= 0) &&
      IsSquare(edgeCountMat, |graphNodes|) && IsSquare(PTM, |graphNodes|)
    }

    lemma ValidIsMeasurable()
      requires Valid()
      ensures Measurable()
    {
    }

    /** On a planner whose nodes were all laid out fresh, every visit count is 0, so
        no node has a candidate to move to: the step rule has nothing to choose from
        until the neighbours of the current node have been counted by incrCount. */
    lemma FreshHasNoCandidate()
      requires |accessVec| > 0 ==> gridSizeY > 0
      requires graphNodes == LaidOut([], accessVec, gridSizeY)
      ensures forall k :: 0 <= k < |graphNodes| ==> graphNodes[k].nodeCount == 0
      ensures forall from, t :: !Candidate(from, t)
    {
      forall k | 0 <= k < |graphNodes| ensures graphNodes[k].nodeCount == 0 {
        assert graphNodes[k] == DefaultNode.(posX := Row(k, gridSizeY), posY := Col(k, gridSizeY), occupied := accessVec[k]);
      }
    }

    /** The offset (di, dj) from the current node that names a 4-connected
        neighbour in the grid, with index tent: tent is in range, lies at that offset,
        is a candidate when free and counted, and is the only candidate there. */
    lemma OffsetHit(di: int, dj: int, tent: int)
      requires Measurable() && 0 <= currentNode < |graphNodes| && gridSizeY > 0
      requires -1 <= di <= 1 && -1 <= dj <= 1 && (di != 0 || dj != 0) && di * dj == 0
      requires 0 <= Row(currentNode, gridSizeY) + di < gridSizeX && 0 <= Col(currentNode, gridSizeY) + dj < gridSizeY
      requires tent == (Row(currentNode, gridSizeY) + di) * gridSizeY + (Col(currentNode, gridSizeY) + dj)
      ensures 0 <= tent < |graphNodes| && Rank(currentNode, tent, gridSizeY) == 3 * di + dj
      ensures graphNodes[tent].occupied == 0 && graphNodes[tent].nodeCount > 0 ==> Candidate(currentNode, tent)
      ensures forall u :: Candidate(currentNode, u) && Rank(currentNode, u, gridSizeY) == 3 * di + dj ==> u == tent
    {
      NeighbourAt(gridSizeX, gridSizeY, currentNode, di, dj);
      assert Orthogonal(currentNode, tent, gridSizeY);
    }

    /** An offset that names no 4-connected neighbour in the grid holds no candidate. */
    lemma OffsetMiss(di: int, dj: int)
      requires Measurable() && 0 <= currentNode < |graphNodes| && gridSizeY > 0
      requires -1 <= di <= 1 && -1 <= dj <= 1
      requires !(0 <= Row(currentNode, gridSizeY) + di < gridSizeX && 0 <= Col(currentNode, gridSizeY) + dj < gridSizeY &&
                 (di != 0 || dj != 0) && di * dj == 0)
      ensures forall u :: Candidate(currentNode, u) ==> Rank(currentNode, u, gridSizeY) != 3 * di + dj
    {
      NeighbourAt(gridSizeX, gridSizeY, currentNode, di, dj);
    }

    /** An offset without a candidate leaves the scan as it is. */
    lemma ScanSkip(best: seq<int>, haveBest: bool, deltaPBest: real, k: int)
      requires Scanned(best, haveBest, deltaPBest, k)
      requires forall t :: Candidate(currentNode, t) ==> Rank(currentNode, t, gridSizeY) != k
      ensures Scanned(best, haveBest, deltaPBest, k + 1)
    {
    }

    /** At the offset whose only candidate is t, a deltaP smaller than the best so
        far (or the first one seen) replaces the list. */
    lemma ScanReplace(best: seq<int>, haveBest: bool, deltaPBest: real, k: int, t: int)
      requires Scanned(best, haveBest, deltaPBest, k)
      requires Candidate(currentNode, t) && Rank(currentNode, t, gridSizeY) == k
      requires forall u :: Candidate(currentNode, u) && Rank(currentNode, u, gridSizeY) == k ==> u == t
      requires !haveBest || DeltaP(currentNode, t) < deltaPBest
      ensures Scanned([t], true, DeltaP(currentNode, t), k + 1)
    {
      var d := DeltaP(currentNode, t);
      forall u | Candidate(currentNode, u) && Rank(currentNode, u, gridSizeY) < k + 1
        ensures d <= DeltaP(currentNode, u) && (DeltaP(currentNode, u) == d ==> u == t)
      {
        if u != t {
          assert haveBest && deltaPBest <= DeltaP(currentNode, u);
        }
      }
    }

    /** A deltaP equal to the best so far extends the list, which stays ascending. */
    lemma ScanExtend(best: seq<int>, deltaPBest: real, k: int, t: int)
      requires Scanned(best, true, deltaPBest, k)
      requires Candidate(currentNode, t) && Rank(currentNode, t, gridSizeY) == k
      requires forall u :: Candidate(currentNode, u) && Rank(currentNode, u, gridSizeY) == k ==> u == t
      requires DeltaP(currentNode, t) == deltaPBest
      ensures Scanned(best + [t], true, deltaPBest, k + 1)
    {
      forall b | b in best ensures b < t {
        RankOrder(currentNode, b, t, gridSizeY);
      }
      AscendingAppend(best, t);
      forall u ensures u in best + [t] <==>
        Candidate(currentNode, u) && Rank(currentNode, u, gridSizeY) < k + 1 && DeltaP(currentNode, u) == deltaPBest
      {
      }
    }

    /** A deltaP larger than the best so far leaves the list as it is. */
    lemma ScanKeep(best: seq<int>, deltaPBest: real, k: int, t: int)
      requires Scanned(best, true, deltaPBest, k)
      requires Candidate(currentNode, t) && Rank(currentNode, t, gridSizeY) == k
      requires forall u :: Candidate(currentNode, u) && Rank(currentNode, u, gridSizeY) == k ==> u == t
      requires DeltaP(currentNode, t) > deltaPBest
      ensures Scanned(best, true, deltaPBest, k + 1)
    {
    }

    /** After the last offset every candidate has been seen. */
    lemma ScanDone(best: seq<int>, haveBest: bool, deltaPBest: real)
      requires Scanned(best, haveBest, deltaPBest, 5)
      ensures IsBestList(currentNode, best)
      ensures (exists t :: Candidate(currentNode, t)) ==> best != []
    {
      forall t | Candidate(currentNode, t) ensures Rank(currentNode, t, gridSizeY) < 5 {
        RankBounds(currentNode, t, gridSizeY);
      }
      forall t ensures t in best <==> IsBest(currentNode, t) {
        if IsBest(currentNode, t) {
          assert haveBest && best[0] in best;
          assert DeltaP(currentNode, t) <= DeltaP(currentNode, best[0]);
        }
      }
    }

    /** The step rule. Unless the patrol is complete, it records the current node as
        the source of the chosen edge, moves to the neighbour ChooseNext picks,
        records it as the target of the chosen edge and appends it to the path. */
    method FindNext(r: nat) returns (ghost best: seq<int>)
      requires Valid()
      // a completed patrol is left as it is; otherwise the step rule indexes the
      // nodes with the current node and asserts that the best list is not empty
      requires !IsCompleted() ==> 0 <= currentNode < |graphNodes| && exists t :: Candidate(currentNode, t)
      modifies this`chosenEdge, this`currentNode, this`finalPath
      ensures Valid()
      ensures IsCompleted() ==>
        currentNode == old(currentNode) && chosenEdge == old(chosenEdge) && finalPath == old(finalPath)
      // best is the list of the best neighbours of the node left, the move picks from it
      ensures !IsCompleted() ==>
        old(IsBestList(currentNode, best)) && |best| > 0 && currentNode == best[r % |best|] &&
        old(IsBest(currentNode, best[r % |best|])) &&
        chosenEdge == (old(currentNode), currentNode) && finalPath == old(finalPath) + [currentNode]
    {
      best := [];
      if !IsCompleted() {
        ValidIsMeasurable();
        var next;
        next, best := ChooseNext(r);
        // the edge's source is the node left, its target the node moved to
        chosenEdge, currentNode, finalPath := (currentNode, next), next, finalPath + [next];
      }
    }

    /** The choice of the step rule: the best neighbours of the current node are
        listed and the one at index r mod their number is picked (r stands for the
        value of rand()). */
    method ChooseNext(r: nat) returns (next: int, ghost best: seq<int>)
      requires Measurable() && 0 <= currentNode < |graphNodes|
      requires exists t :: Candidate(currentNode, t)
      ensures IsBestList(currentNode, best) && |best| > 0 && next == best[r % |best|]
      ensures IsBest(currentNode, next)
    {
      ghost var t0 :| Candidate(currentNode, t0);
      var bestList := BestNeighbours();
      best := bestList;
      assert Candidate(currentNode, t0);
      var randIndex := r % |bestList|;
      next := bestList[randIndex];
      assert next in bestList;
    }

    /** Whether the current node has been counted as visited before: false marks a
        first visit. */
    function GetCurrentType(): (visited: bool)
      reads this`currentNode, this`graphNodes
      requires 0 <= currentNode < |graphNodes|
      ensures graphNodes[currentNode].nodeCount >= 0 ==> (visited <==> graphNodes[currentNode].nodeCount > 0)
    {
      graphNodes[currentNode].nodeCount != 0
    }

    /** The row ('x') or column ('y') of the current node. */
    function GetCurrentCoord(coordinate: char): (v: int)
      reads this`currentNode, this`graphNodes, this`accessVec, this`gridSizeX, this`gridSizeY, this`unvisited
      reads this`unvisitedCount, this`graph, this`edgeCountMat, this`PTM
      requires coordinate == 'x' || coordinate == 'y'
      requires 0 <= currentNode < |graphNodes|
      ensures Valid() ==> gridSizeY > 0 && v == if coordinate == 'x' then Row(currentNode, gridSizeY) else Col(currentNode, gridSizeY)
    {
      if coordinate == 'x' then graphNodes[currentNode].posX else graphNodes[currentNode].posY
    }

    /** Whether the patrol is complete: no node is counted as unvisited. */
    function IsCompleted(): (done: bool)
      reads this`unvisitedCount
      ensures done <==> unvisitedCount == 0
    {
      unvisitedCount == 0
    }

    /** Under the invariant, the patrol is complete exactly when every unvisited flag
        is clear. */
    lemma CompletedIffAllVisited()
      requires Valid()
      ensures IsCompleted() <==> forall k :: 0 <= k < |unvisited| ==> unvisited[k] == 0
    {
      SumZeroIff(unvisited);
    }

    /** The coordinates of the current node locate it in the grid. */
    lemma CoordinatesLocateNode()
      requires Valid() && 0 <= currentNode < |graphNodes|
      ensures 0 <= GetCurrentCoord('x') < gridSizeX && 0 <= GetCurrentCoord('y') < gridSizeY
      ensures currentNode == GetCurrentCoord('x') * gridSizeY + GetCurrentCoord('y')
    {
      IndexOfCell(currentNode, gridSizeY);
      InGrid(currentNode, gridSizeX, gridSizeY);
    }

    /** Under a fixed r the move is determined: there is only one ascending list of
        the best neighbours. */
    lemma BestListUnique(from: int, a: seq<int>, b: seq<int>)
      requires IsBestList(from, a) && IsBestList(from, b)
      ensures a == b
    {
      AscendingByMembers(a, b);
    }

    /** A move from a free node to a candidate follows an edge of the graph, one of
        positive transition probability. */
    lemma MoveFollowsEdge(from: int, t: int)
      requires Valid() && Candidate(from, t) && accessVec[from] == 0
      ensures graph[from][t] == 1 && PTM[from][t] > 0.0
    {
      EdgeMatrixProperties(accessVec, gridSizeY);
      PositiveIffEdge(graph[from], t);
    }

    /** Each row of the transition matrix with an edge is a probability distribution
        that is positive exactly on the node's edges. */
    lemma TransitionRow(u: int)
      requires Valid() && 0 <= u < |graph| && Sum(graph[u]) != 0
      ensures SumReal(PTM[u]) == 1.0
      ensures forall v :: 0 <= v < |PTM[u]| ==> 0.0 <= PTM[u][v] <= 1.0 && (PTM[u][v] > 0.0 <==> graph[u][v] == 1)
    {
      EdgeMatrixProperties(accessVec, gridSizeY);
      RowStochastic(graph[u]);
      forall v | 0 <= v < |PTM[u]|
        ensures 0.0 <= PTM[u][v] <= 1.0 && (PTM[u][v] > 0.0 <==> graph[u][v] == 1)
      {
        PositiveIffEdge(graph[u], v);
        EntriesAreProbabilities(graph[u], v);
      }
    }
  }
}
