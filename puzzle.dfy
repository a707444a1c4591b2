/**
 * The puzzle (Puzzle.java): loading cuts the image into pieces, links
 * neighbours and carves the tabs; the mouse handlers select, drag and snap
 * groups of pieces, kept in a union-find forest over piece ids.
 */
module Game {
  import opened Options
  import opened Arith
  import opened Raster
  import opened Grid
  import opened UnionFind
  import opened Snap
  import opened Pieces
  import opened Loading

  /** `lo <= v < hi` (Puzzle.java:413-415): exactly when `v - lo` indexes a buffer of `hi - lo` pixels. */
  function Between(v: int, lo: int, hi: int): (b: bool)
    ensures b <==> 0 <= v - lo < hi - lo
  {
    lo <= v && v < hi
  }

  /**
   * The per-piece state loading starts from: the drawn screen positions
   * (Puzzle.java:198-199), nothing selected (Java's default `false`), and
   * every piece its own root, `parent = id` (Piece.java:80).
   */
  method Scatter(d: Draws, n: nat) returns (xs: array<int>, ys: array<int>, sel: array<bool>, roots: array<int>)
    requires |d.xs| == n && |d.ys| == n
    ensures fresh(xs) && fresh(ys) && fresh(sel) && fresh(roots) && xs != ys && xs != roots && ys != roots
    ensures xs[..] == d.xs && ys[..] == d.ys
    ensures sel.Length == n && roots.Length == n && forall k :: 0 <= k < n ==> !sel[k] && roots[k] == k
  {
    xs := new int[n](k requires 0 <= k < n => d.xs[k]);
    ys := new int[n](k requires 0 <= k < n => d.ys[k]);
    sel := new bool[n](k => false);
    roots := new int[n](k => k);
  }

  class Puzzle {
    /** `M`, the number of columns (Puzzle.java:165). */
    const columns: nat
    /** `N`, the number of rows (Puzzle.java:166). */
    const rows: nat
    const imageWidth: nat
    const imageHeight: nat
    const totalConnections: int
    /** The column and row boundary tables, never changed after loading. */
    const edgeWidths: seq<int>
    const edgeHeights: seq<int>
    /** The pieces, indexed by id. */
    const pieces: seq<Piece>
    /** `neighbors[k][s]`: slot `s` (left, right, above, below) of piece `k`. */
    const neighbors: seq<seq<Option<nat>>>
    /** Proof-only copies of every piece's `row` (its column) and `col` (its row). */
    ghost const across: seq<int>
    ghost const down: seq<int>
    /** Per-piece mutable state of Piece.java, indexed by id: position, selection, union-find parent. */
    const x: array<int>
    const y: array<int>
    const selected: array<bool>
    const parent: array<int>
    /** Proof-only rank that grows strictly along every parent link. */
    ghost var rank: seq<nat>
    var mouseX: int
    var mouseY: int
    var mousePressed: bool
    var currentConnections: int
    var gameOver: bool

    /** The per-piece arrays: one entry per piece, and no two of them the same array. */
    ghost predicate Cells()
    {
      && x.Length == |pieces| && y.Length == |pieces|
      && selected.Length == |pieces| && parent.Length == |pieces|
      && x != y && x != parent && y != parent
    }

    /** The neighbour slots fit the per-piece arrays. */
    ghost predicate Linkage()
    {
      Cells() && |neighbors| == |pieces| && Fits(Plan())
    }

    /** The fixed structure built by loading: sizes, pieces and neighbour slots fit together. */
    ghost predicate Shape()
    {
      && 0 < columns && 0 < rows && |pieces| == columns * rows && 0 < |pieces| && Linkage()
      && (forall k :: 0 <= k < |pieces| ==>
            pieces[k].id == k && pieces[k].row == across[k] && pieces[k].col == down[k] && pieces[k].Valid())
    }

    /**
     * Where loading put everything: the boundary tables, piece `k` at column
     * `k / N` and row `k % N`, and the lattice's neighbour slots.
     */
    ghost predicate Placed()
    {
      && 0 < columns && 0 < rows && |pieces| == columns * rows
      && edgeWidths == Table(imageWidth, columns) && edgeHeights == Table(imageHeight, rows)
      && totalConnections == TotalConnections(columns, rows)
      && (forall k :: 0 <= k < |pieces| ==> pieces[k].row == k / rows && pieces[k].col == k % rows)
      && Wired(Plan())
    }

    /** The parent links form a ranked forest. */
    ghost predicate ForestOk()
      reads this, parent
    {
      Ranked(parent[..], rank)
    }

    ghost predicate Valid()
      reads this, parent
    {
      Shape() && ForestOk()
    }

    /**
     * The puzzle over freshly loaded pieces of a `width` x `height` image
     * (Puzzle.java:163-238): the boundary tables, the pieces with their
     * neighbour slots, each piece at its drawn position, unselected and its
     * own group, and no connection made yet.
     */
    constructor Assemble(width: nat, height: nat, widths: seq<int>, heights: seq<int>,
                         ps: seq<Piece>, links: seq<seq<Option<nat>>>, d: Draws, ghost carved: seq<seq<seq<int>>>)
      requires 0 < width / ColumnPixels && 0 < height / RowPixels
      requires widths == Table(width, width / ColumnPixels) && heights == Table(height, height / RowPixels)
      requires Laid(ps, width / ColumnPixels, height / RowPixels) && Pictures(ps) == carved
      requires |links| == |ps| && forall q :: 0 <= q < |ps| ==> links[q] == Slots(width / ColumnPixels, height / RowPixels, q)
      requires |d.xs| == |ps| && |d.ys| == |ps|
      ensures Valid() && Placed()
      ensures imageWidth == width && imageHeight == height
      ensures columns == width / ColumnPixels && rows == height / RowPixels
      ensures edgeWidths == widths && edgeHeights == heights && pieces == ps && neighbors == links
      ensures Laid(pieces, columns, rows) && Pictures(pieces) == carved
      ensures fresh(x) && fresh(y) && fresh(selected) && fresh(parent)
      ensures x[..] == d.xs && y[..] == d.ys
      ensures forall k :: 0 <= k < |pieces| ==> !selected[k] && parent[k] == k
      ensures currentConnections == 0 && !mousePressed && !gameOver
    {
      var m, n := width / ColumnPixels, height / RowPixels;
      var xs, ys, sel, roots := Scatter(d, |ps|);
      columns, rows, imageWidth, imageHeight := m, n, width, height;
      totalConnections := TotalConnections(m, n);
      edgeWidths, edgeHeights := widths, heights;
      pieces, neighbors := ps, links;
      x, y, selected, parent := xs, ys, sel, roots;
      across := seq(|ps|, k requires 0 <= k < |ps| => k / n);
      down := seq(|ps|, k requires 0 <= k < |ps| => k % n);
      rank := seq(|ps|, k => 0);
      mouseX, mouseY, mousePressed, currentConnections, gameOver := 0, 0, false, 0, false;
      new;
      GridFits(Plan());
    }

    /** The root of every piece: its group label. */
    ghost function Roots(): (g: seq<int>)
      reads this, parent
      requires ForestOk()
      ensures |g| == parent.Length
    {
      RootsOf(parent[..], rank)
    }

    /** The fixed data the snap test reads. */
    ghost function Plan(): Layout
    {
      Layout(columns, rows, edgeWidths, edgeHeights, across, down, neighbors)
    }

    /** Positions and group labels of all pieces. */
    ghost function State(): Board
      reads this, x, y, parent
      requires ForestOk()
    {
      Board(x[..], y[..], Roots())
    }

    /**
     * `find` with path compression (Puzzle.java:394-399): returns the root
     * of `p`, points `p` straight at it, and changes no piece's root.
     */
    method Find(p: int) returns (r: int)
      requires ForestOk() && 0 <= p < parent.Length
      modifies parent
      ensures ForestOk() && Roots() == old(Roots())
      ensures r == old(Roots())[p] && parent[p] == r
      decreases rank[p]
    {
      if parent[p] != p {
        var q := Find(parent[p]);
        Compress(parent[..], rank, p);
        parent[p] := q;
      }
      r := parent[p];
    }

    /**
     * `merge` (Puzzle.java:384-386): the root of `a` is hung under the root
     * of `b`, so the group of `a` joins the group of `b`.
     */
    method Merge(a: int, b: int)
      requires ForestOk() && 0 <= a < parent.Length && 0 <= b < parent.Length
      modifies parent, this`rank
      ensures ForestOk() && Roots() == Join(old(Roots()), a, b)
    {
      ghost var g := Roots();
      var ra := Find(a);
      var rb := Find(b);
      RootIdempotent(parent[..], rank, a);
      RootIdempotent(parent[..], rank, b);
      RootFixed(parent[..], rank, ra);
      RootFixed(parent[..], rank, rb);
      Link(parent[..], rank, ra, rb);
      ghost var rank' := LinkRank(parent[..], rank, ra, rb);
      parent[ra] := rb;
      rank := rank';
      assert Join(g, ra, rb) == Join(g, a, b);
    }

    /**
     * `testGameOver` (Puzzle.java:356-367): the puzzle is solved when every
     * piece has the root of piece 0; then `endGame` sets `gameOver`.
     */
    method TestGameOver() returns (over: bool)
      requires ForestOk() && parent.Length > 0
      modifies parent, this`gameOver
      ensures ForestOk() && Roots() == old(Roots())
      ensures over == AllJoined(Roots())
      ensures gameOver == (old(gameOver) || over)
    {
      ghost var g := Roots();
      over := true;
      var k := 0;
      while k < parent.Length
        invariant 0 <= k <= parent.Length
        invariant ForestOk() && Roots() == g
        invariant over ==> forall i :: 0 <= i < k ==> g[i] == g[0]
        invariant !over ==> !AllJoined(g)
        invariant gameOver == old(gameOver)
      {
        var rk := Find(k);
        var r0 := Find(0);
        if rk != r0 {
          over := false;
          break;
        }
        k := k + 1;
      }
      if over {
        gameOver := true;
      }
    }

    /** The hit test of `mousePressed` (Puzzle.java:437-439): inside the piece's box, on a visible pixel. */
    predicate Hits(k: int, mx: int, my: int)
      requires Shape() && 0 <= k < |pieces|
      reads x, y, pieces[k].picture
      ensures Hits(k, mx, my) ==>
                0 <= mx - x[k] < pieces[k].width && 0 <= my - y[k] < pieces[k].height
    {
      Between(mx, x[k], x[k] + pieces[k].width) && Between(my, y[k], y[k] + pieces[k].height)
      && pieces[k].picture[mx - x[k], my - y[k]] != Transparent
    }

    /** The first piece, from `k` on, that a press at `(mx, my)` hits. */
    ghost function FirstHit(mx: int, my: int, k: nat): (h: Option<nat>)
      requires Shape() && k <= |pieces|
      reads x, y, set q | 0 <= q < |pieces| :: pieces[q].picture
      ensures h.Some? ==> k <= h.value < |pieces| && Hits(h.value, mx, my)
      ensures forall q :: k <= q < |pieces| && (h.None? || q < h.value) ==> !Hits(q, mx, my)
      decreases |pieces| - k
    {
      if k == |pieces| then None
      else if Hits(k, mx, my) then Some(k)
      else FirstHit(mx, my, k + 1)
    }

    /**
     * `mousePressed` (Puzzle.java:432-451): records the mouse position, and selects
     * the first piece hit on a visible pixel together with its whole group.
     */
    method Press(mx: int, my: int)
      requires Valid()
      modifies this`mousePressed, this`mouseX, this`mouseY, selected, parent
      ensures Valid() && Roots() == old(Roots())
      ensures mousePressed && mouseX == mx && mouseY == my
      ensures old(FirstHit(mx, my, 0)).None? ==> selected[..] == old(selected[..])
      ensures old(FirstHit(mx, my, 0)).Some? ==> forall i :: 0 <= i < selected.Length ==>
                selected[i] == (old(selected[i]) || old(Roots())[i] == old(Roots())[old(FirstHit(mx, my, 0)).value])
    {
      ghost var g, sel := Roots(), selected[..];
      mousePressed := true;
      mouseX := mx;
      mouseY := my;
      var c := 0;
      while c < |pieces|
        invariant 0 <= c <= |pieces|
        invariant ForestOk() && Roots() == g && selected[..] == sel
        invariant old(FirstHit(mx, my, 0)) == old(FirstHit(mx, my, c))
      {
        if Between(mouseX, x[c], x[c] + pieces[c].width) {
          if Between(mouseY, y[c], y[c] + pieces[c].height) {
            if pieces[c].picture[mouseX - x[c], mouseY - y[c]] != Transparent {
              assert old(FirstHit(mx, my, c)) == Some(c);
              SelectGroup(c);
              return;
            }
          }
        }
        c := c + 1;
      }
    }

    /** Selects piece `c` and every piece that shares its root (Puzzle.java:440-445). */
    method SelectGroup(c: int)
      requires Cells() && ForestOk() && 0 <= c < |pieces|
      modifies selected, parent
      ensures ForestOk() && Roots() == old(Roots())
      ensures forall i :: 0 <= i < selected.Length ==> selected[i] == (old(selected[i]) || old(Roots())[i] == old(Roots())[c])
    {
      ghost var g, sel := Roots(), selected[..];
      selected[c] := true;
      var d := 0;
      while d < |pieces|
        invariant 0 <= d <= |pieces|
        invariant ForestOk() && Roots() == g
        invariant forall i :: 0 <= i < selected.Length ==> selected[i] == (sel[i] || i == c || (i < d && g[i] == g[c]))
      {
        var rc := Find(c);
        var rd := Find(d);
        if rc == rd {
          selected[d] := true;
        }
        d := d + 1;
      }
    }

    /**
     * The drag step of `paint` (Puzzle.java:275-288): while the button is
     * down, every selected piece follows the mouse, now at `(px, py)`.
     */
    method Drag(px: int, py: int)
      requires Valid()
      modifies this`mouseX, this`mouseY, x, y
      ensures Valid()
      ensures old(mousePressed) ==>
                x[..] == Dragged(old(x[..]), selected[..], px - old(mouseX))
                && y[..] == Dragged(old(y[..]), selected[..], py - old(mouseY))
                && mouseX == px && mouseY == py
      ensures !old(mousePressed) ==>
                x[..] == old(x[..]) && y[..] == old(y[..]) && mouseX == old(mouseX) && mouseY == old(mouseY)
    {
      if mousePressed {
        var moveX, moveY := px - mouseX, py - mouseY;
        for c := 0 to |pieces|
          invariant forall i :: 0 <= i < x.Length ==> x[i] == if i < c && selected[i] then old(x[i]) + moveX else old(x[i])
          invariant forall i :: 0 <= i < y.Length ==> y[i] == if i < c && selected[i] then old(y[i]) + moveY else old(y[i])
        {
          if selected[c] {
            x[c] := x[c] + moveX;
            y[c] := y[c] + moveY;
          }
        }
        mouseX := px;
        mouseY := py;
      }
    }

    /** Moves every piece of the group of `n` by `(dx, dy)` (Puzzle.java:481-487). */
    method MoveGroup(n: int, dx: int, dy: int)
      requires Cells() && ForestOk() && 0 <= n < |pieces|
      modifies x, y, parent
      ensures ForestOk() && Roots() == old(Roots())
      ensures x[..] == Shifted(old(x[..]), old(Roots()), old(Roots())[n], dx)
      ensures y[..] == Shifted(old(y[..]), old(Roots()), old(Roots())[n], dy)
    {
      ghost var g, xs, ys := Roots(), x[..], y[..];
      for d := 0 to |pieces|
        invariant ForestOk() && Roots() == g
        invariant forall i :: 0 <= i < x.Length ==> x[i] == if i < d && g[i] == g[n] then xs[i] + dx else xs[i]
        invariant forall i :: 0 <= i < y.Length ==> y[i] == if i < d && g[i] == g[n] then ys[i] + dy else ys[i]
      {
        MoveIfGrouped(d, n, dx, dy, g);
      }
      assert x[..] == Shifted(xs, g, g[n], dx);
      assert y[..] == Shifted(ys, g, g[n], dy);
    }

    /** One turn of the loop in MoveGroup: piece `d` moves when it has the root of `n`. */
    method MoveIfGrouped(d: int, n: int, dx: int, dy: int, ghost g: seq<int>)
      requires Cells() && ForestOk() && 0 <= d < |pieces| && 0 <= n < |pieces| && Roots() == g
      modifies x, y, parent
      ensures ForestOk() && Roots() == g
      ensures x[..] == old(x[..])[d := if g[d] == g[n] then old(x[d]) + dx else old(x[d])]
      ensures y[..] == old(y[..])[d := if g[d] == g[n] then old(y[d]) + dy else old(y[d])]
    {
      var rd := Find(d);
      var rn := Find(n);
      if rd == rn {
        x[d] := x[d] + dx;
        y[d] := y[d] + dy;
      }
    }

    /**
     * `mouseReleased` (Puzzle.java:454-511): the snap pass computes `Pass`
     * over every slot of every selected piece, then the links are recounted,
     * the selection is cleared and the solved test runs.
     */
    method Release() returns (solved: bool)
      requires Valid()
      modifies this`mousePressed, this`currentConnections, this`gameOver, this`rank, x, y, selected, parent
      ensures Valid() && !mousePressed
      ensures State() == Pass(Plan(), old(selected[..]), old(State()), Tolerance, 4 * |pieces|)
      ensures forall i :: 0 <= i < selected.Length ==> !selected[i]
      ensures currentConnections == Connections(Plan(), Roots())
      ensures solved == AllJoined(Roots()) && gameOver == (old(gameOver) || solved)
    {
      mousePressed := false;
      SnapAll();
      CountConnections();
      solved := TestGameOver();
    }

    /** The snap loop of Puzzle.java:457-492. */
    method SnapAll()
      requires Valid()
      modifies this`rank, x, y, parent
      ensures Valid()
      ensures State() == Pass(Plan(), selected[..], old(State()), Tolerance, 4 * |pieces|)
    {
      ghost var lay, sel, start := Plan(), selected[..], State();
      var c := 0;
      while c < |pieces|
        invariant 0 <= c <= |pieces|
        invariant Valid() && State() == Pass(lay, sel, start, Tolerance, 4 * c)
      {
        if selected[c] {
          SnapPiece(c, sel, start);
        } else {
          PassSkips(lay, sel, start, Tolerance, c, 4);
        }
        c := c + 1;
      }
    }

    /** The four slots of a selected piece, in slot order (Puzzle.java:460-490). */
    method SnapPiece(c: int, ghost sel: seq<bool>, ghost start: Board)
      requires Valid() && 0 <= c < |pieces| && selected[c] && selected[..] == sel && Sized(start, |pieces|)
      requires State() == Pass(Plan(), sel, start, Tolerance, 4 * c)
      modifies this`rank, x, y, parent
      ensures Valid() && State() == Pass(Plan(), sel, start, Tolerance, 4 * c + 4)
    {
      for s := 0 to 4
        invariant Valid() && State() == Pass(Plan(), sel, start, Tolerance, 4 * c + s)
      {
        ghost var before := State();
        SnapSlot(c, s, sel);
        PassNext(Plan(), sel, start, Tolerance, 4 * c + s, before, State());
      }
    }

    /**
     * One neighbour slot of a selected piece (Puzzle.java:461-489): when the
     * neighbour is in another group and within tolerance on both axes, its
     * group moves by the error vector and the two groups merge.
     */
    method SnapSlot(c: int, s: int, ghost sel: seq<bool>)
      requires Valid() && 0 <= c < |pieces| && 0 <= s < 4 && selected[..] == sel && sel[c]
      modifies this`rank, x, y, parent
      ensures Valid()
      ensures State() == Step(Plan(), sel, old(State()), Tolerance, 4 * c + s)
    {
      SlotStep(c, s);
      var nb := neighbors[c][s];
      if nb.Some? {
        SnapTo(c, nb.value);
      }
    }

    /**
     * The snap test of piece `c` against its neighbour `n` (Puzzle.java:465-489):
     * `n`'s group follows the error vector and merges with `c`'s group when
     * the two are apart and within tolerance on both axes.
     */
    method SnapTo(c: int, n: int)
      requires Valid() && 0 <= c < |pieces| && 0 <= n < |pieces|
      modifies this`rank, x, y, parent
      ensures Valid() && State() == TrySnap(Plan(), old(State()), Tolerance, c, n)
    {
      ghost var b := State();
      var rc := Find(c);
      var rn := Find(n);
      if rc != rn {
        var diffX, diffY := x[n] - x[c], y[n] - y[c];
        var targetX := edgeWidths[pieces[n].row] - edgeWidths[pieces[c].row];
        var targetY := edgeHeights[pieces[n].col] - edgeHeights[pieces[c].col];
        var errorX, errorY := targetX - diffX, targetY - diffY;
        assert errorX == ErrorX(Plan(), b, c, n) && errorY == ErrorY(Plan(), b, c, n);
        if Abs(errorX) <= Tolerance && Abs(errorY) <= Tolerance {
          MoveGroup(n, errorX, errorY);
          Merge(c, n);
        }
      }
    }

    /**
     * The recount of Puzzle.java:495-508: every slot whose neighbour shares
     * the piece's root counts once, the total is halved, and the selection
     * is cleared.
     */
    method CountConnections()
      requires Valid()
      modifies this`currentConnections, selected, parent
      ensures Valid() && Roots() == old(Roots())
      ensures forall i :: 0 <= i < selected.Length ==> !selected[i]
      ensures currentConnections == Connections(Plan(), Roots())
    {
      ghost var g := Roots();
      var finalConnections := 0;
      var c := 0;
      while c < |pieces|
        invariant 0 <= c <= |pieces|
        invariant ForestOk() && Roots() == g
        invariant finalConnections == CountLinks(Plan(), g, 4 * c)
        invariant forall i :: 0 <= i < c ==> !selected[i]
      {
        finalConnections := CountPiece(c, finalConnections, g);
        c := c + 1;
      }
      currentConnections := finalConnections / 2;
    }

    /** The four slots of piece `c` in the recount, which also clears its selection (Puzzle.java:496-506). */
    method CountPiece(c: int, count: int, ghost g: seq<int>) returns (count': int)
      requires Shape() && ForestOk() && 0 <= c < |pieces| && Roots() == g && count == CountLinks(Plan(), g, 4 * c)
      modifies selected, parent
      ensures ForestOk() && Roots() == g && count' == CountLinks(Plan(), g, 4 * c + 4)
      ensures forall i :: 0 <= i < selected.Length ==> selected[i] == (i != c && old(selected[i]))
    {
      count' := CountSlots(c, count, g);
      selected[c] := false;
    }

    /** Adds the joined slots of piece `c` to `count` (Puzzle.java:497-503). */
    method CountSlots(c: int, count: int, ghost g: seq<int>) returns (count': int)
      requires Linkage() && ForestOk() && 0 <= c < |pieces| && Roots() == g && count == CountLinks(Plan(), g, 4 * c)
      modifies parent
      ensures ForestOk() && Roots() == g && count' == CountLinks(Plan(), g, 4 * c + 4)
    {
      count' := count;
      for s := 0 to 4
        invariant ForestOk() && Roots() == g
        invariant count' == CountLinks(Plan(), g, 4 * c + s)
      {
        count' := CountSlot(c, s, count', g);
      }
    }

    /** Adds one when slot `s` of piece `c` is joined: one pass of the inner loop of Puzzle.java:498-503. */
    method CountSlot(c: int, s: int, count: int, ghost g: seq<int>) returns (count': int)
      requires Linkage() && ForestOk() && 0 <= c < |pieces| && 0 <= s < 4 && Roots() == g
      requires count == CountLinks(Plan(), g, 4 * c + s)
      modifies parent
      ensures ForestOk() && Roots() == g && count' == CountLinks(Plan(), g, 4 * c + s + 1)
    {
      var joined := JoinedSlot(c, s, g);
      CountLinksNext(Plan(), g, 4 * c + s, count, joined);
      count' := if joined then count + 1 else count;
    }

    /** Whether slot `s` of piece `c` holds a neighbour with the same root (Puzzle.java:497-503). */
    method JoinedSlot(c: int, s: int, ghost g: seq<int>) returns (joined: bool)
      requires Linkage() && ForestOk() && 0 <= c < |pieces| && 0 <= s < 4 && Roots() == g
      modifies parent
      ensures ForestOk() && Roots() == g
      ensures joined == JoinedLink(Plan(), g, 4 * c + s)
    {
      SlotStep(c, s);
      joined := false;
      var nb := neighbors[c][s];
      if nb.Some? {
        var rc := Find(c);
        var rn := Find(nb.value);
        if rc == rn {
          joined := true;
        }
      }
    }
  }

  /**
   * Loading an image (Puzzle.java:155-239). An image less than one cell
   * wide or high leaves no columns or no rows, and the source's division by
   * the column or row count fails; the model reports it as `None`. Otherwise
   * the boundary tables are filled, the pieces cut, linked and carved, and
   * the puzzle starts with every piece at its drawn position, unselected
   * and its own group.
   */
  method Open(image: array2<int>, d: Draws) returns (r: Option<Puzzle>)
    requires Drawn(d, (image.Length0 / ColumnPixels) * (image.Length1 / RowPixels))
    ensures r.None? <==> image.Length0 / ColumnPixels == 0 || image.Length1 / RowPixels == 0
    ensures r.Some? ==>
              && fresh(r.value) && r.value.Valid() && r.value.Placed()
              && r.value.imageWidth == image.Length0 && r.value.imageHeight == image.Length1
              && r.value.columns == image.Length0 / ColumnPixels && r.value.rows == image.Length1 / RowPixels
              && Lattice(old(Snapshot(image)), r.value.edgeWidths, r.value.edgeHeights, r.value.columns, r.value.rows)
              && Loaded(r.value.pieces, old(Snapshot(image)), r.value.edgeWidths, r.value.edgeHeights, d, r.value.columns, r.value.rows)
              && r.value.x[..] == d.xs && r.value.y[..] == d.ys
              && (forall k :: 0 <= k < |r.value.pieces| ==> !r.value.selected[k] && r.value.parent[k] == k)
              && r.value.currentConnections == 0 && !r.value.mousePressed && !r.value.gameOver
  {
    if image.Length0 / ColumnPixels == 0 || image.Length1 / RowPixels == 0 {
      return None;
    }
    ghost var img := Snapshot(image);
    var m, n, widths, heights, ps, links := LoadPieces(image, img, d);
    ghost var carved := Carving(Cuts(img, widths, heights, m, n), d, m, n, |ps|);
    var p := new Puzzle.Assemble(image.Length0, image.Length1, widths, heights, ps, links, d, carved);
    r := Some(p);
  }
}
