/**
 * The Grid Partitioner: how the image is cut into an M x N lattice of
 * pieces, and how the pieces of that lattice are linked to each other.
 *
 * A piece id is `i * N + j` for column `i` and row `j` (Puzzle.java:197);
 * the neighbour slots are 0 = left, 1 = right, 2 = above, 3 = below.
 */
module Grid {
  import opened Options
  import opened Arith

  /** Approximate width of a column in pixels (Puzzle.java:165). */
  const ColumnPixels: nat := 90

  /** Approximate height of a row in pixels (Puzzle.java:166). */
  const RowPixels: nat := 60

  /** The `i`-th entry of a boundary table: `dim * i / count` (Puzzle.java:177, 180). */
  function Boundary(dim: nat, count: nat, i: nat): (b: int)
    requires 0 < count && i <= count
    ensures 0 <= b <= dim
  {
    MulLe(dim, i, count);
    DivMono(dim * i, dim * count, count);
    DivModUnique(dim * count, count, dim, 0);
    dim * i / count
  }

  /** The table starts at 0 and ends at the full dimension. */
  lemma BoundaryEnds(dim: nat, count: nat)
    requires 0 < count
    ensures Boundary(dim, count, 0) == 0
    ensures Boundary(dim, count, count) == dim
  {
    DivModUnique(dim * count, count, dim, 0);
  }

  /** The table is non-decreasing. */
  lemma BoundaryMonotone(dim: nat, count: nat, i: nat, j: nat)
    requires 0 < count && i <= j <= count
    ensures Boundary(dim, count, i) <= Boundary(dim, count, j)
  {
    MulLe(dim, i, j);
    DivMono(dim * i, dim * j, count);
  }

  /** No cell is narrower than `dim / count`: remainder pixels are spread, never dropped. */
  lemma BoundaryGap(dim: nat, count: nat, i: nat)
    requires 0 < count && i < count
    ensures Boundary(dim, count, i + 1) - Boundary(dim, count, i) >= dim / count
  {
    var q1, q2 := dim * i / count, dim / count;
    assert q1 * count <= dim * i;
    assert q2 * count <= dim;
    assert (q1 + q2) * count == q1 * count + q2 * count;
    assert dim * (i + 1) == dim * i + dim;
    DivLowerBound(dim * (i + 1), count, q1 + q2);
  }

  /** With `count = dim / unit` cells, every cell is at least `unit` wide. */
  lemma CellAtLeastUnit(dim: nat, unit: nat, i: nat)
    requires 0 < unit && 0 < dim / unit && i < dim / unit
    ensures Boundary(dim, dim / unit, i + 1) - Boundary(dim, dim / unit, i) >= unit
  {
    var count := dim / unit;
    assert count * unit <= dim;
    DivLowerBound(dim, count, unit);
    BoundaryGap(dim, count, i);
  }

  /** A worked example: 100 pixels in 3 cells. */
  lemma BoundaryExample()
    ensures Boundary(100, 3, 0) == 0 && Boundary(100, 3, 1) == 33
    ensures Boundary(100, 3, 2) == 66 && Boundary(100, 3, 3) == 100
  {
  }

  /** The whole boundary table, entries `0 ..= count`. */
  function Table(dim: nat, count: nat): (t: seq<int>)
    requires 0 < count
    ensures |t| == count + 1 && forall i :: 0 <= i <= count ==> t[i] == Boundary(dim, count, i)
  {
    seq(count + 1, i requires 0 <= i <= count => Boundary(dim, count, i))
  }

  /** A boundary table whose cells all lie within `[0, dim]` and are at least `unit` wide. */
  predicate Spaced(t: seq<int>, dim: int, unit: int)
  {
    forall a, b :: 0 <= a < |t| && b == a + 1 < |t| ==> 0 <= t[a] && t[a] + unit <= t[b] <= dim
  }

  /** With `dim / unit` cells, the boundary table is spaced at least `unit` apart. */
  lemma TableSpaced(dim: nat, unit: nat)
    requires 0 < unit && 0 < dim / unit
    ensures Spaced(Table(dim, dim / unit), dim, unit)
  {
    var t := Table(dim, dim / unit);
    forall a | 0 <= a < dim / unit
      ensures t[a] + unit <= t[a + 1]
    {
      CellAtLeastUnit(dim, unit, a);
    }
  }

  /**
   * Fills a boundary table of `count + 1` entries (Puzzle.java:172-181).
   */
  method Boundaries(dim: nat, count: nat) returns (edges: array<int>)
    requires 0 < count
    ensures fresh(edges) && edges.Length == count + 1 && edges[..] == Table(dim, count)
    ensures forall i :: 0 <= i <= count ==> edges[i] == Boundary(dim, count, i)
    ensures edges[0] == 0 && edges[count] == dim
    ensures forall i, j :: 0 <= i <= j <= count ==> edges[i] <= edges[j]
  {
    edges := new int[count + 1];
    for i := 0 to count + 1
      invariant forall k :: 0 <= k < i ==> edges[k] == Boundary(dim, count, k)
    {
      edges[i] := dim * i / count;
    }
    BoundaryEnds(dim, count);
    forall i, j | 0 <= i <= j <= count
      ensures edges[i] <= edges[j]
    {
      BoundaryMonotone(dim, count, i, j);
    }
  }

  /** A piece id decomposes into its column `k / rows` and row `k % rows`. */
  lemma Coordinates(columns: nat, rows: nat, k: nat)
    requires 0 < rows && k < columns * rows
    ensures 0 <= k / rows < columns && 0 <= k % rows < rows
    ensures k == k / rows * rows + k % rows
    ensures k / rows > 0 ==> k >= rows
    ensures k / rows < columns - 1 ==> k + rows < columns * rows
    ensures k % rows < rows - 1 ==> k + 1 < columns * rows
  {
    DivUpperBound(k, rows, columns);
    var i := k / rows;
    if i > 0 {
      MulAtLeast(i, rows);
    }
    MulLe(rows, i + 1, columns);
    assert rows * (i + 1) == i * rows + rows;
    if i < columns - 1 {
      MulLe(rows, i + 2, columns);
      assert rows * (i + 2) == i * rows + 2 * rows;
    }
  }

  /** A piece of the last column has no piece `rows` ids further on. */
  lemma LastColumn(columns: nat, rows: nat, k: nat)
    requires 0 < rows && k < columns * rows && k / rows == columns - 1
    ensures k + rows >= columns * rows
  {
    Coordinates(columns, rows, k);
    assert (columns - 1) * rows + rows == columns * rows;
  }

  /** Column `i`, row `j` has id `i * rows + j`, and that id gives back `i` and `j`. */
  lemma IdCoordinates(columns: nat, rows: nat, i: nat, j: nat)
    requires i < columns && j < rows
    ensures i * rows + j < columns * rows
    ensures (i * rows + j) / rows == i && (i * rows + j) % rows == j
  {
    MulLe(rows, i + 1, columns);
    DivModUnique(i * rows + j, rows, i, j);
  }

  /**
   * The neighbour in a slot of piece `k`, or None on the border of the grid
   * (Puzzle.java:212-227): right is `arrangedPieces[i + 1][j]`, below is
   * `arrangedPieces[i][j + 1]`, and left and above are the reverse links.
   */
  function Neighbor(columns: nat, rows: nat, k: nat, slot: nat): (r: Option<nat>)
    requires 0 < rows && k < columns * rows && slot < 4
    ensures r.Some? ==> r.value < columns * rows && r.value != k
  {
    Coordinates(columns, rows, k);
    var i, j := k / rows, k % rows;
    if slot == 0 then
      (if i > 0 then Some(k - rows) else None)
    else if slot == 1 then
      (if i < columns - 1 then Some(k + rows) else None)
    else if slot == 2 then
      (if j > 0 then Some(k - 1) else None)
    else
      (if j < rows - 1 then Some(k + 1) else None)
  }

  /** The four slots of piece `k`, in slot order. */
  function Slots(columns: nat, rows: nat, k: nat): (r: seq<Option<nat>>)
    requires 0 < rows && k < columns * rows
    ensures |r| == 4 && forall s :: 0 <= s < 4 ==> r[s] == Neighbor(columns, rows, k, s)
  {
    [Neighbor(columns, rows, k, 0), Neighbor(columns, rows, k, 1), Neighbor(columns, rows, k, 2), Neighbor(columns, rows, k, 3)]
  }

  /** The slot facing back: left/right and above/below. */
  function Opposite(slot: nat): (o: nat)
    requires slot < 4
    ensures o < 4 && o != slot && o / 2 == slot / 2
  {
    if slot % 2 == 0 then slot + 1 else slot - 1
  }

  lemma BackLinkRight(columns: nat, rows: nat, k: nat)
    requires 0 < rows && k < columns * rows && k / rows < columns - 1
    ensures k + rows < columns * rows && Neighbor(columns, rows, k + rows, 0) == Some(k)
  {
    Coordinates(columns, rows, k);
    var i, j := k / rows, k % rows;
    assert k + rows == (i + 1) * rows + j;
    DivModUnique(k + rows, rows, i + 1, j);
  }

  lemma BackLinkLeft(columns: nat, rows: nat, k: nat)
    requires 0 < rows && k < columns * rows && k / rows > 0
    ensures k >= rows && Neighbor(columns, rows, k - rows, 1) == Some(k)
  {
    Coordinates(columns, rows, k);
    var i, j := k / rows, k % rows;
    assert k - rows == (i - 1) * rows + j;
    DivModUnique(k - rows, rows, i - 1, j);
  }

  lemma BackLinkDown(columns: nat, rows: nat, k: nat)
    requires 0 < rows && k < columns * rows && k % rows < rows - 1
    ensures k + 1 < columns * rows && Neighbor(columns, rows, k + 1, 2) == Some(k)
  {
    Coordinates(columns, rows, k);
    DivModSucc(k, rows);
  }

  lemma BackLinkUp(columns: nat, rows: nat, k: nat)
    requires 0 < rows && k < columns * rows && k % rows > 0
    ensures k >= 1 && Neighbor(columns, rows, k - 1, 3) == Some(k)
  {
    Coordinates(columns, rows, k);
    DivModSucc(k - 1, rows);
  }

  /** A link always points back: the neighbour's opposite slot holds this piece. */
  lemma NeighborBackLink(columns: nat, rows: nat, k: nat, slot: nat)
    requires 0 < rows && k < columns * rows && slot < 4
    ensures Neighbor(columns, rows, k, slot).Some? ==>
              Neighbor(columns, rows, Neighbor(columns, rows, k, slot).value, Opposite(slot)) == Some(k)
  {
    Coordinates(columns, rows, k);
    if Neighbor(columns, rows, k, slot).Some? {
      if slot == 0 {
        BackLinkLeft(columns, rows, k);
      } else if slot == 1 {
        BackLinkRight(columns, rows, k);
      } else if slot == 2 {
        BackLinkUp(columns, rows, k);
      } else {
        BackLinkDown(columns, rows, k);
      }
    }
  }

  /** Neighbour links are symmetric, in both directions. */
  lemma NeighborSymmetric(columns: nat, rows: nat, k: nat, q: nat, slot: nat)
    requires 0 < rows && k < columns * rows && q < columns * rows && slot < 4
    ensures Neighbor(columns, rows, k, slot) == Some(q) <==> Neighbor(columns, rows, q, Opposite(slot)) == Some(k)
  {
    NeighborBackLink(columns, rows, k, slot);
    NeighborBackLink(columns, rows, q, Opposite(slot));
    assert Opposite(Opposite(slot)) == slot;
  }

  /** A piece lacks a neighbour exactly on the corresponding border of the grid. */
  lemma BorderSlots(columns: nat, rows: nat, k: nat)
    requires 0 < rows && k < columns * rows
    ensures Neighbor(columns, rows, k, 0) == None <==> k / rows == 0
    ensures Neighbor(columns, rows, k, 1) == None <==> k / rows == columns - 1
    ensures Neighbor(columns, rows, k, 2) == None <==> k % rows == 0
    ensures Neighbor(columns, rows, k, 3) == None <==> k % rows == rows - 1
  {
    Coordinates(columns, rows, k);
  }

  /** The connection total used for progress: `N * (M - 1) + M * (N - 1)` (Puzzle.java:170). */
  function TotalConnections(columns: int, rows: int): (total: int)
    ensures 0 < columns && 0 < rows ==> 0 <= total && (total == 0 <==> columns == 1 && rows == 1)
  {
    rows * (columns - 1) + columns * (rows - 1)
  }

  /** Slot `s` of piece `k` is step `4 * k + s`. */
  lemma SlotStep(k: nat, s: nat)
    requires s < 4
    ensures (4 * k + s) / 4 == k && (4 * k + s) % 4 == s
  {
    DivModUnique(4 * k + s, 4, k, s);
  }

  /** How many of the two neighbours of position `i` on a line of `m` positions exist. */
  function Flanks(m: nat, i: nat): nat
  {
    (if i > 0 then 1 else 0) + (if i < m - 1 then 1 else 0)
  }

  /** The flanks of the first `n` positions of a line of `m`. */
  function FlankSum(m: nat, n: nat): nat
  {
    if n == 0 then 0 else FlankSum(m, n - 1) + Flanks(m, n - 1)
  }

  /** The number of sides of the piece at column `i`, row `j` that are not on the border of the grid. */
  function InnerSides(columns: nat, rows: nat, i: nat, j: nat): nat
  {
    Flanks(columns, i) + Flanks(rows, j)
  }

  /** The inner sides of the first `j` pieces of column `i`. */
  function ColumnSides(columns: nat, rows: nat, i: nat, j: nat): nat
  {
    if j == 0 then 0 else ColumnSides(columns, rows, i, j - 1) + InnerSides(columns, rows, i, j - 1)
  }

  /** The inner sides of all pieces of the first `i` columns. */
  function GridSides(columns: nat, rows: nat, i: nat): nat
  {
    if i == 0 then 0 else GridSides(columns, rows, i - 1) + ColumnSides(columns, rows, i - 1, rows)
  }

  /** The number of filled entries among four slots. */
  function SlotsFilled(slots: seq<Option<nat>>): (c: nat)
    requires |slots| == 4
    ensures c <= 4
  {
    (if slots[0].Some? then 1 else 0) + (if slots[1].Some? then 1 else 0)
    + (if slots[2].Some? then 1 else 0) + (if slots[3].Some? then 1 else 0)
  }

  /** The piece at column `i`, row `j` has one neighbour for each of its sides that is not on the border. */
  lemma SlotsSides(columns: nat, rows: nat, i: nat, j: nat)
    requires i < columns && j < rows
    ensures i * rows + j < columns * rows
    ensures SlotsFilled(Slots(columns, rows, i * rows + j)) == InnerSides(columns, rows, i, j)
  {
    IdCoordinates(columns, rows, i, j);
    BorderSlots(columns, rows, i * rows + j);
  }

  /** On a line of `m`, the first `n` positions have `n - 1` left and up to `m - 1` right neighbours. */
  lemma {:induction false} FlankSumIs(m: nat, n: nat)
    requires 0 < n <= m
    ensures FlankSum(m, n) == (n - 1) + (if n < m then n else m - 1)
  {
    if n > 1 {
      FlankSumIs(m, n - 1);
    }
  }

  /** Column `i` splits its inner sides into the flanks of the column and those of each row. */
  lemma {:induction false} ColumnSidesIs(columns: nat, rows: nat, i: nat, j: nat)
    ensures ColumnSides(columns, rows, i, j) == Flanks(columns, i) * j + FlankSum(rows, j)
  {
    if j > 0 {
      ColumnSidesIs(columns, rows, i, j - 1);
      var f := Flanks(columns, i);
      assert f * j == f * (j - 1) + f;
    }
  }

  lemma {:induction false} GridSidesIs(columns: nat, rows: nat, i: nat)
    ensures GridSides(columns, rows, i) == FlankSum(columns, i) * rows + i * FlankSum(rows, rows)
  {
    if i > 0 {
      GridSidesIs(columns, rows, i - 1);
      ColumnSidesIs(columns, rows, i - 1, rows);
      AddColumn(FlankSum(columns, i - 1), Flanks(columns, i - 1), rows, i, FlankSum(rows, rows));
    }
  }

  /** The arithmetic of adding one column to the closed form of `GridSidesIs`. */
  lemma AddColumn(a: int, f: int, rows: int, i: int, r: int)
    ensures a * rows + (i - 1) * r + (f * rows + r) == (a + f) * rows + i * r
  {
    assert (a + f) * rows == a * rows + f * rows;
    assert (i - 1) * r + r == i * r;
  }

  /**
   * Every link between grid-adjacent pieces is an inner side of both, so the
   * inner sides number exactly twice the connection total of Puzzle.java:170.
   */
  lemma AllSides(columns: nat, rows: nat)
    requires 0 < columns && 0 < rows
    ensures GridSides(columns, rows, columns) == 2 * TotalConnections(columns, rows)
  {
    GridSidesIs(columns, rows, columns);
    FlankSumIs(columns, columns);
    FlankSumIs(rows, rows);
    assert (2 * (columns - 1)) * rows == 2 * (rows * (columns - 1));
    assert columns * (2 * (rows - 1)) == 2 * (columns * (rows - 1));
  }
}
