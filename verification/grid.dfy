/** The occupancy grid: row-major index arithmetic, the symmetric 8-connected
    adjacency built over free cells, and the dimension arithmetic applied to a
    loaded occupancy file. */
module Grid {

  /** Row and column of node k when nodes are laid out row by row, cols per row. */
  function Row(k: int, cols: int): int
    requires cols > 0
  {
    k / cols
  }

  function Col(k: int, cols: int): int
    requires cols > 0
  {
    k % cols
  }

  function Dist(a: int, b: int): int
  {
    if a < b then b - a else a - b
  }

  lemma MulMonotone(a: int, b: int, c: int)
    requires a <= b && c >= 0
    ensures a * c <= b * c
  {
    assert b * c - a * c == (b - a) * c;
  }

  lemma MulSucc(a: int, b: int)
    ensures (a + 1) * b == a * b + b
  {
  }

  /** The cell (r, c) is stored at index r * cols + c, and that index decodes back to (r, c). */
  lemma CellOfIndex(r: int, c: int, cols: int)
    requires cols > 0 && 0 <= c < cols
    ensures Row(r * cols + c, cols) == r && Col(r * cols + c, cols) == c
  {
    var k := r * cols + c;
    var q, m := k / cols, k % cols;
    assert k == q * cols + m && 0 <= m < cols;
    if q > r {
      MulMonotone(r + 1, q, cols);
      assert false;
    } else if q < r {
      MulMonotone(q + 1, r, cols);
      assert false;
    }
  }

  /** Every index is the encoding of its own row and column. */
  lemma IndexOfCell(k: int, cols: int)
    requires cols > 0
    ensures k == Row(k, cols) * cols + Col(k, cols) && 0 <= Col(k, cols) < cols
  {
  }

  /** An index lies in a rows-by-cols grid exactly when its row does. */
  lemma InGrid(k: int, rows: int, cols: int)
    requires cols > 0 && rows >= 0 && k >= 0
    ensures Row(k, cols) >= 0
    ensures k < rows * cols <==> Row(k, cols) < rows
  {
    var q, m := k / cols, k % cols;
    assert k == q * cols + m && 0 <= m < cols;
    if q < rows {
      MulMonotone(q + 1, rows, cols);
    } else {
      MulMonotone(rows, q, cols);
    }
    if q < 0 {
      MulMonotone(q, -1, cols);
      assert false;
    }
  }

  /** Row-major order: an earlier row, or the same row and an earlier column, is a smaller index. */
  lemma IndexOrder(a: int, b: int, cols: int)
    requires cols > 0
    requires Row(a, cols) < Row(b, cols) || (Row(a, cols) == Row(b, cols) && Col(a, cols) < Col(b, cols))
    ensures a < b
  {
    IndexOfCell(a, cols);
    IndexOfCell(b, cols);
    if Row(a, cols) < Row(b, cols) {
      MulMonotone(Row(a, cols) + 1, Row(b, cols), cols);
    }
  }

  /** Offset of w from u, ranked in the order the planner's shift loops visit offsets:
      row offset first, then column offset, each from -1 up to 1. */
  function Rank(u: int, w: int, cols: int): int
    requires cols > 0
  {
    3 * (Row(w, cols) - Row(u, cols)) + (Col(w, cols) - Col(u, cols))
  }

  /** Among the 8-neighbours of u, rank order is row-major index order. */
  lemma RankOrder(u: int, a: int, b: int, cols: int)
    requires cols > 0 && Near(u, a, cols) && Near(u, b, cols)
    requires Rank(u, a, cols) < Rank(u, b, cols)
    ensures a < b
  {
    IndexOrder(a, b, cols);
  }

  /** u and t are 4-connected neighbours: exactly one coordinate differs, by one. */
  predicate Orthogonal(u: int, t: int, cols: int)
    requires cols > 0
  {
    Dist(Row(u, cols), Row(t, cols)) + Dist(Col(u, cols), Col(t, cols)) == 1
  }

  /** Rows and columns of u and v each differ by at most one (u itself included). */
  predicate Near(u: int, v: int, cols: int)
  {
    cols > 0 && Dist(Row(u, cols), Row(v, cols)) <= 1 && Dist(Col(u, cols), Col(v, cols)) <= 1
  }

  /** The edge relation of the patrol graph over the occupancy vector acc
      (0 = free): distinct free cells that are 8-connected neighbours. */
  predicate Adjacent(acc: seq<int>, cols: int, u: int, v: int)
  {
    0 <= u < |acc| && 0 <= v < |acc| && u != v && acc[u] == 0 && acc[v] == 0 && Near(u, v, cols)
  }

  /** The entries of the adjacency matrix that the construction loop has written
      once every node before i is done and, of node i, the neighbours whose offset
      rank is below k. */
  ghost predicate Built(acc: seq<int>, cols: int, i: int, k: int, u: int, v: int)
  {
    Adjacent(acc, cols, u, v) &&
    (u < i || v < i || (u == i && Rank(i, v, cols) < k) || (v == i && Rank(i, u, cols) < k))
  }

  ghost predicate IsSquare<T>(m: seq<seq<T>>, n: int)
  {
    |m| == n && forall i :: 0 <= i < |m| ==> |m[i]| == n
  }

  /** The n-by-n matrix of zeros. */
  function ZeroMatrix(n: nat): (z: seq<seq<int>>)
    ensures IsSquare(z, n)
    ensures forall i, j :: 0 <= i < n && 0 <= j < n ==> z[i][j] == 0
  {
    seq(n, _ => seq(n, _ => 0))
  }

  /** The adjacency matrix that the planner's graph must equal once built. */
  function EdgeMatrix(acc: seq<int>, cols: int): (g: seq<seq<int>>)
    ensures IsSquare(g, |acc|)
  {
    seq(|acc|, u requires 0 <= u < |acc| =>
      seq(|acc|, v requires 0 <= v < |acc| => if Adjacent(acc, cols, u, v) then 1 else 0))
  }

  /** The adjacency matrix is a 0/1 matrix of an undirected graph without
      self-loops whose edges join exactly the distinct free cells that are
      8-connected neighbours. */
  lemma EdgeMatrixProperties(acc: seq<int>, cols: int)
    ensures var g := EdgeMatrix(acc, cols);
      forall u, v :: 0 <= u < |acc| && 0 <= v < |acc| ==>
        (g[u][v] == 0 || g[u][v] == 1) && g[u][v] == g[v][u] &&
        // a blocked cell's row and column are entirely zero
        ((acc[u] != 0 || acc[v] != 0) ==> g[u][v] == 0) &&
        // an edge joins cells whose rows and columns each differ by at most one ...
        (g[u][v] == 1 ==> u != v && Near(u, v, cols)) &&
        // ... and every such pair of distinct free cells is joined
        (u != v && acc[u] == 0 && acc[v] == 0 && Near(u, v, cols) ==> g[u][v] == 1)
  {
    var g := EdgeMatrix(acc, cols);
    forall u, v | 0 <= u < |acc| && 0 <= v < |acc|
      ensures g[u][v] == (if Adjacent(acc, cols, u, v) then 1 else 0)
      ensures Adjacent(acc, cols, u, v) == Adjacent(acc, cols, v, u)
    {
    }
  }

  /** The offset rank of a neighbour lies between -4 and 4, and reverses sign
      when the two cells swap roles. */
  lemma RankBounds(u: int, v: int, cols: int)
    requires Near(u, v, cols)
    ensures -4 <= Rank(u, v, cols) <= 4 && Rank(v, u, cols) == -Rank(u, v, cols)
  {
  }

  /** The cell at offset (dr, dc) from node i in a rows-by-cols grid: when its row
      and column are in the grid, its index r * cols + c is in range and decodes back
      to (r, c); and any cell of the grid near i whose offset rank is 3 * dr + dc is
      that cell. */
  lemma NeighbourAt(rows: int, cols: int, i: int, dr: int, dc: int)
    requires cols > 0 && rows >= 0 && 0 <= i < rows * cols
    requires -1 <= dr <= 1 && -1 <= dc <= 1
    ensures var r, c := Row(i, cols) + dr, Col(i, cols) + dc;
      0 <= r < rows && 0 <= c < cols ==>
        0 <= r * cols + c < rows * cols && Row(r * cols + c, cols) == r && Col(r * cols + c, cols) == c
    ensures var r, c := Row(i, cols) + dr, Col(i, cols) + dc;
      forall w :: 0 <= w < rows * cols && Near(i, w, cols) && Rank(i, w, cols) == 3 * dr + dc ==>
        0 <= r < rows && 0 <= c < cols && w == r * cols + c &&
        Row(w, cols) == r && Col(w, cols) == c && (w != i ==> dr != 0 || dc != 0)
  {
    var r, c := Row(i, cols) + dr, Col(i, cols) + dc;
    IndexOfCell(i, cols);
    InGrid(i, rows, cols);
    forall w | 0 <= w < rows * cols && Near(i, w, cols) && Rank(i, w, cols) == 3 * dr + dc
      ensures 0 <= r < rows && 0 <= c < cols && w == r * cols + c && Row(w, cols) == r && Col(w, cols) == c
    {
      IndexOfCell(w, cols);
      InGrid(w, rows, cols);
    }
    if 0 <= r < rows && 0 <= c < cols {
      MulMonotone(0, r, cols);
      CellOfIndex(r, c, cols);
      InGrid(r * cols + c, rows, cols);
    }
  }

  /** The offset (dr, dc) from free node i names a cell nb of the grid other than i:
      nb is in range, 8-connected to i at rank 3 * dr + dc, and the only cell at
      that rank that can share an edge with i. */
  lemma EdgeHit(acc: seq<int>, rows: int, cols: int, i: int, dr: int, dc: int, nb: int)
    requires cols > 0 && rows >= 0 && |acc| == rows * cols && 0 <= i < |acc|
    requires -1 <= dr <= 1 && -1 <= dc <= 1 && (dr != 0 || dc != 0)
    requires 0 <= Row(i, cols) + dr < rows && 0 <= Col(i, cols) + dc < cols
    requires nb == (Row(i, cols) + dr) * cols + (Col(i, cols) + dc)
    ensures 0 <= nb < |acc| && nb != i && Near(i, nb, cols) && Rank(i, nb, cols) == 3 * dr + dc
    ensures forall w :: Adjacent(acc, cols, i, w) && Rank(i, w, cols) == 3 * dr + dc ==> w == nb
  {
    NeighbourAt(rows, cols, i, dr, dc);
    IndexOfCell(i, cols);
  }

  /** An offset that names no other cell of the grid holds no neighbour of i. */
  lemma EdgeMiss(acc: seq<int>, rows: int, cols: int, i: int, dr: int, dc: int)
    requires cols > 0 && rows >= 0 && |acc| == rows * cols && 0 <= i < |acc|
    requires -1 <= dr <= 1 && -1 <= dc <= 1
    requires !(0 <= Row(i, cols) + dr < rows && 0 <= Col(i, cols) + dc < cols && (dr != 0 || dc != 0))
    ensures forall w :: Adjacent(acc, cols, i, w) ==> Rank(i, w, cols) != 3 * dr + dc
  {
    NeighbourAt(rows, cols, i, dr, dc);
  }

  /** g holds exactly the entries Built(acc, cols, i, k, _, _). */
  ghost predicate Matches(g: seq<seq<int>>, acc: seq<int>, cols: int, i: int, k: int)
  {
    IsSquare(g, |acc|) &&
    forall u, v :: 0 <= u < |acc| && 0 <= v < |acc| ==> g[u][v] == if Built(acc, cols, i, k, u, v) then 1 else 0
  }

  /** Before the first node is visited, nothing is built: the zero matrix matches. */
  lemma {:induction false} MatchesStart(acc: seq<int>, cols: int)
    ensures Matches(ZeroMatrix(|acc|), acc, cols, 0, -4)
  {
    forall u, v | 0 <= u < |acc| && 0 <= v < |acc| && Adjacent(acc, cols, u, v)
      ensures !Built(acc, cols, 0, -4, u, v)
    {
      RankBounds(u, v, cols);
    }
  }

  /** An offset at which node i has no neighbour adds nothing. */
  lemma {:induction false} MatchesSkip(g: seq<seq<int>>, acc: seq<int>, cols: int, i: int, k: int)
    requires Matches(g, acc, cols, i, k)
    requires forall w :: Adjacent(acc, cols, i, w) ==> Rank(i, w, cols) != k
    ensures Matches(g, acc, cols, i, k + 1)
  {
    forall u, v | 0 <= u < |acc| && 0 <= v < |acc|
      ensures Built(acc, cols, i, k + 1, u, v) == Built(acc, cols, i, k, u, v)
    {
      if Adjacent(acc, cols, u, v) && v == i {
        assert Adjacent(acc, cols, i, u);
      }
    }
  }

  /** At an offset where node i has the neighbour nb, and only it, writing the edge
      in both directions completes the offset. */
  lemma {:induction false} MatchesAdd(g: seq<seq<int>>, acc: seq<int>, cols: int, i: int, k: int, nb: int)
    requires Matches(g, acc, cols, i, k)
    requires Adjacent(acc, cols, i, nb) && Rank(i, nb, cols) == k
    requires forall w :: Adjacent(acc, cols, i, w) && Rank(i, w, cols) == k ==> w == nb
    ensures var g1 := g[i := g[i][nb := 1]]; Matches(g1[nb := g1[nb][i := 1]], acc, cols, i, k + 1)
  {
    var g1 := g[i := g[i][nb := 1]];
    var g2 := g1[nb := g1[nb][i := 1]];
    forall u, v | 0 <= u < |acc| && 0 <= v < |acc|
      ensures g2[u][v] == if Built(acc, cols, i, k + 1, u, v) then 1 else 0
    {
      if Adjacent(acc, cols, u, v) && v == i {
        assert Adjacent(acc, cols, i, u);
      }
      if (u == i && v == nb) || (u == nb && v == i) {
        assert Adjacent(acc, cols, u, v);
        RankBounds(i, nb, cols);
      }
    }
  }

  /** Once every offset of node i is done, node i is done. */
  lemma {:induction false} MatchesNext(g: seq<seq<int>>, acc: seq<int>, cols: int, i: int)
    requires Matches(g, acc, cols, i, 5)
    ensures Matches(g, acc, cols, i + 1, -4)
  {
    forall u, v | 0 <= u < |acc| && 0 <= v < |acc| && Adjacent(acc, cols, u, v)
      ensures Built(acc, cols, i + 1, -4, u, v) == Built(acc, cols, i, 5, u, v)
    {
      RankBounds(u, v, cols);
    }
  }

  /** A blocked node has no edges to add. */
  lemma {:induction false} MatchesBlocked(g: seq<seq<int>>, acc: seq<int>, cols: int, i: int)
    requires 0 <= i < |acc| && acc[i] != 0
    requires Matches(g, acc, cols, i, -4)
    ensures Matches(g, acc, cols, i + 1, -4)
  {
    forall u, v | 0 <= u < |acc| && 0 <= v < |acc|
      ensures Built(acc, cols, i + 1, -4, u, v) == Built(acc, cols, i, -4, u, v)
    {
    }
  }

  /** Once every node is done, the matrix is the adjacency matrix. */
  lemma {:induction false} MatchesDone(g: seq<seq<int>>, acc: seq<int>, cols: int)
    requires Matches(g, acc, cols, |acc|, -4)
    ensures g == EdgeMatrix(acc, cols)
  {
    var e := EdgeMatrix(acc, cols);
    forall u | 0 <= u < |acc| ensures g[u] == e[u] {
      forall v | 0 <= v < |acc| ensures g[u][v] == e[u][v] {
        assert Built(acc, cols, |acc|, -4, u, v) == Adjacent(acc, cols, u, v);
      }
    }
  }

  // ---------------------------------------------------------------------------
  // Dimensions of a loaded occupancy file

  /** Number of values that are immediately followed by a line break. */
  function CountNewlines(newlineAfter: seq<bool>): nat
  {
    if newlineAfter == [] then 0
    else CountNewlines(newlineAfter[..|newlineAfter| - 1]) + (if newlineAfter[|newlineAfter| - 1] then 1 else 0)
  }

  lemma {:induction false} CountNewlinesAppend(a: seq<bool>, b: seq<bool>)
    ensures CountNewlines(a + b) == CountNewlines(a) + CountNewlines(b)
  {
    if b != [] {
      assert (a + b)[..|a + b| - 1] == a + b[..|b| - 1];
      CountNewlinesAppend(a, b[..|b| - 1]);
    } else {
      assert a + b == a;
    }
  }

  /** The values of a file given as rows, in reading order. */
  function Flatten(rows: seq<seq<int>>): seq<int>
  {
    if rows == [] then [] else Flatten(rows[..|rows| - 1]) + rows[|rows| - 1]
  }

  /** For the file given as rows, one flag per value: does a line break follow it? */
  function LineEnds(rows: seq<seq<int>>): seq<bool>
  {
    if rows == [] then []
    else
      var last := rows[|rows| - 1];
      LineEnds(rows[..|rows| - 1]) + seq(|last|, j => j == |last| - 1)
  }

  /** A non-empty row contributes exactly one line break: after its last value. */
  lemma {:induction false} OneNewlinePerRow(w: nat)
    requires w > 0
    ensures CountNewlines(seq(w, j => j == w - 1)) == 1
  {
    var s := seq(w, j => j == w - 1);
    assert s[..w - 1] == seq(w - 1, j => false);
    NoNewlines(w - 1);
  }

  lemma {:induction false} NoNewlines(w: nat)
    ensures CountNewlines(seq(w, j => false)) == 0
  {
    if w > 0 {
      assert seq(w, j => false)[..w - 1] == seq(w - 1, j => false);
      NoNewlines(w - 1);
    }
  }

  /** A rectangular file whose every row ends in a line break is read back with
      as many grid rows as the file has rows and as many columns as each row has
      values: rows = number of newline-terminated values, columns = values / rows. */
  lemma {:induction false} RectangularFileShape(rows: seq<seq<int>>, width: int)
    requires |rows| > 0 && width > 0
    requires forall r :: 0 <= r < |rows| ==> |rows[r]| == width
    ensures |LineEnds(rows)| == |Flatten(rows)| == |rows| * width
    ensures CountNewlines(LineEnds(rows)) == |rows|
    ensures |Flatten(rows)| / CountNewlines(LineEnds(rows)) == width
  {
    var init := rows[..|rows| - 1];
    OneNewlinePerRow(width);
    CountNewlinesAppend(LineEnds(init), seq(width, j => j == width - 1));
    if |init| > 0 {
      RectangularFileShape(init, width);
    }
    assert |Flatten(rows)| == |init| * width + width;
    MulSucc(|init|, width);
    CellOfIndex(width, 0, |rows|);
    assert width * |rows| == |rows| * width;
  }
}
