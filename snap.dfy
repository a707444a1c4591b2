/**
 * The Snap Resolver as values: what one release of the mouse does to the
 * piece positions and the groups (Puzzle.java:454-511), written as a fold
 * over the (piece, slot) pairs in the order the release loop visits them.
 *
 * A `Board` holds the position of every piece and its group label, the
 * label being the piece's union-find root. The imperative release in
 * module Game is proved to compute `Pass`.
 */
module Snap {
  import opened Options
  import opened Arith
  import opened Grid
  import opened UnionFind

  /** Largest per-axis misalignment that still snaps (Puzzle.java:114). */
  const Tolerance: int := 10

  /**
   * What the puzzle fixes at loading time: the lattice, its boundary
   * tables, each piece's column (`Piece.row`) and row (`Piece.col`), and the
   * neighbour slots of each piece.
   */
  datatype Layout = Layout(columns: nat, rows: nat, edgeWidths: seq<int>, edgeHeights: seq<int>,
                           across: seq<int>, down: seq<int>, links: seq<seq<Option<nat>>>)

  /** The number of pieces. */
  function Size(l: Layout): nat
  {
    |l.links|
  }

  /** Every piece indexes the tables, has four slots, and links only to pieces. */
  predicate Fits(l: Layout)
  {
    && |l.across| == Size(l) && |l.down| == Size(l)
    && forall k :: 0 <= k < Size(l) ==>
         && 0 <= l.across[k] < |l.edgeWidths| && 0 <= l.down[k] < |l.edgeHeights|
         && |l.links[k]| == 4
         && forall s :: 0 <= s < 4 && l.links[k][s].Some? ==> l.links[k][s].value < Size(l)
  }

  /** The slots of piece `k` are those of the `columns` x `rows` lattice. */
  ghost predicate WiredAt(l: Layout, k: nat)
    requires 0 < l.rows && Size(l) == l.columns * l.rows && k < Size(l)
  {
    l.links[k] == Slots(l.columns, l.rows, k)
  }

  /** The slots are those of the `columns` x `rows` lattice. */
  ghost predicate Wired(l: Layout)
  {
    && 0 < l.rows && Size(l) == l.columns * l.rows
    && forall k :: 0 <= k < Size(l) ==> WiredAt(l, k)
  }

  /**
   * The layout loading builds fits and is wired: piece `k` sits at column
   * `k / rows` and row `k % rows` and has the lattice's slots.
   */
  lemma GridFits(l: Layout)
    requires 0 < l.rows && Size(l) == l.columns * l.rows
    requires |l.edgeWidths| == l.columns + 1 && |l.edgeHeights| == l.rows + 1
    requires |l.across| == Size(l) && |l.down| == Size(l)
    requires forall k :: 0 <= k < Size(l) ==>
               l.across[k] == k / l.rows && l.down[k] == k % l.rows && l.links[k] == Slots(l.columns, l.rows, k)
    ensures Fits(l) && Wired(l)
  {
    forall k | 0 <= k < Size(l)
      ensures 0 <= l.across[k] < |l.edgeWidths| && 0 <= l.down[k] < |l.edgeHeights|
    {
      Coordinates(l.columns, l.rows, k);
    }
  }

  /** Positions and group labels of all pieces, indexed by piece id. */
  datatype Board = Board(xs: seq<int>, ys: seq<int>, group: seq<int>)

  predicate Sized(b: Board, n: nat)
  {
    |b.xs| == n && |b.ys| == n && |b.group| == n
  }

  /**
   * The offset piece `n` should have from piece `c` when both sit where they
   * belong: the difference of their column starts and of their row starts
   * (Puzzle.java:474-475, where `row` is the column index `id / N`).
   */
  function TargetX(l: Layout, c: nat, n: nat): (dx: int)
    requires Fits(l) && c < Size(l) && n < Size(l)
    ensures l.across[n] == l.across[c] ==> dx == 0
    ensures l.across[n] == l.across[c] + 1 ==> dx == l.edgeWidths[l.across[c] + 1] - l.edgeWidths[l.across[c]]
  {
    l.edgeWidths[l.across[n]] - l.edgeWidths[l.across[c]]
  }

  function TargetY(l: Layout, c: nat, n: nat): (dy: int)
    requires Fits(l) && c < Size(l) && n < Size(l)
    ensures l.down[n] == l.down[c] ==> dy == 0
    ensures l.down[n] == l.down[c] + 1 ==> dy == l.edgeHeights[l.down[c] + 1] - l.edgeHeights[l.down[c]]
  {
    l.edgeHeights[l.down[n]] - l.edgeHeights[l.down[c]]
  }

  /** The error vector: target offset minus actual offset (Puzzle.java:470-479). */
  function ErrorX(l: Layout, b: Board, c: nat, n: nat): (ex: int)
    requires Fits(l) && Sized(b, Size(l)) && c < Size(l) && n < Size(l)
    ensures (b.xs[n] + ex) - b.xs[c] == TargetX(l, c, n)
  {
    TargetX(l, c, n) - (b.xs[n] - b.xs[c])
  }

  function ErrorY(l: Layout, b: Board, c: nat, n: nat): (ey: int)
    requires Fits(l) && Sized(b, Size(l)) && c < Size(l) && n < Size(l)
    ensures (b.ys[n] + ey) - b.ys[c] == TargetY(l, c, n)
  {
    TargetY(l, c, n) - (b.ys[n] - b.ys[c])
  }

  /** Pieces `c` and `n` are in different groups and close enough to join (Puzzle.java:465, 480). */
  predicate Snaps(l: Layout, b: Board, tol: int, c: nat, n: nat)
    requires Fits(l) && Sized(b, Size(l)) && c < Size(l) && n < Size(l)
    ensures Snaps(l, b, tol, c, n) ==>
              && c != n && 0 <= tol
              && -tol <= ErrorX(l, b, c, n) <= tol && -tol <= ErrorY(l, b, c, n) <= tol
  {
    b.group[c] != b.group[n] && Abs(ErrorX(l, b, c, n)) <= tol && Abs(ErrorY(l, b, c, n)) <= tol
  }

  /** Moves every coordinate whose piece is labelled `g` by `d`. */
  function Shifted(v: seq<int>, group: seq<int>, g: int, d: int): (r: seq<int>)
    requires |v| == |group|
    ensures |r| == |v|
  {
    seq(|v|, i requires 0 <= i < |v| => if group[i] == g then v[i] + d else v[i])
  }

  /** One attempted snap of piece `c` to its neighbour `n` (Puzzle.java:465-489). */
  function TrySnap(l: Layout, b: Board, tol: int, c: nat, n: nat): (r: Board)
    requires Fits(l) && Sized(b, Size(l)) && c < Size(l) && n < Size(l)
    ensures Sized(r, Size(l))
  {
    if Snaps(l, b, tol, c, n) then
      var g := b.group[n];
      Board(Shifted(b.xs, b.group, g, ErrorX(l, b, c, n)), Shifted(b.ys, b.group, g, ErrorY(l, b, c, n)), Join(b.group, c, n))
    else
      b
  }

  /**
   * When the snap applies, the whole group of `n` moves by the error vector,
   * which puts `n` exactly at its target offset from `c`, and the groups
   * merge; otherwise nothing changes. Either way, two pieces of one group
   * stay in one group at the same relative offset.
   */
  lemma TrySnapEffect(l: Layout, b: Board, tol: int, c: nat, n: nat)
    requires Fits(l) && Sized(b, Size(l)) && c < Size(l) && n < Size(l)
    ensures var r := TrySnap(l, b, tol, c, n);
      && (Snaps(l, b, tol, c, n) ==>
            && r.xs[n] - r.xs[c] == TargetX(l, c, n) && r.ys[n] - r.ys[c] == TargetY(l, c, n)
            && r.group == Join(b.group, c, n)
            && forall i :: 0 <= i < Size(l) ==>
                 if b.group[i] == b.group[n]
                 then r.xs[i] == b.xs[i] + ErrorX(l, b, c, n) && r.ys[i] == b.ys[i] + ErrorY(l, b, c, n)
                 else r.xs[i] == b.xs[i] && r.ys[i] == b.ys[i])
      && (!Snaps(l, b, tol, c, n) ==> r == b)
      && forall i, j :: 0 <= i < Size(l) && 0 <= j < Size(l) && b.group[i] == b.group[j] ==>
           r.group[i] == r.group[j] && r.xs[i] - r.xs[j] == b.xs[i] - b.xs[j] && r.ys[i] - r.ys[j] == b.ys[i] - b.ys[j]
  {
    if Snaps(l, b, tol, c, n) {
      JoinMerges(b.group, c, n);
    }
  }

  /** Step `t` of the release pass: slot `t % 4` of piece `t / 4`, tried only for a selected piece. */
  function Step(l: Layout, sel: seq<bool>, b: Board, tol: int, t: nat): (r: Board)
    requires Fits(l) && Sized(b, Size(l)) && |sel| == Size(l) && t < 4 * Size(l)
    ensures Sized(r, Size(l))
  {
    var c, s := t / 4, t % 4;
    if sel[c] && l.links[c][s].Some?
    then TrySnap(l, b, tol, c, l.links[c][s].value)
    else b
  }

  /** The board after the first `t` steps of the release pass. */
  function Pass(l: Layout, sel: seq<bool>, b: Board, tol: int, t: nat): (r: Board)
    requires Fits(l) && Sized(b, Size(l)) && |sel| == Size(l) && t <= 4 * Size(l)
    ensures Sized(r, Size(l))
  {
    if t == 0 then b else Step(l, sel, Pass(l, sel, b, tol, t - 1), tol, t - 1)
  }

  /** Step `t` applied to the pass up to `t` gives the pass up to `t + 1`. */
  lemma PassNext(l: Layout, sel: seq<bool>, b: Board, tol: int, t: nat, before: Board, after: Board)
    requires Fits(l) && Sized(b, Size(l)) && |sel| == Size(l) && t < 4 * Size(l)
    requires Pass(l, sel, b, tol, t) == before && after == Step(l, sel, before, tol, t)
    ensures Pass(l, sel, b, tol, t + 1) == after
  {
  }

  /** The first `s` of the four steps of an unselected piece change nothing (Puzzle.java:458). */
  lemma {:induction false} PassSkips(l: Layout, sel: seq<bool>, b: Board, tol: int, c: nat, s: nat)
    requires Fits(l) && Sized(b, Size(l)) && |sel| == Size(l) && c < Size(l) && !sel[c] && s <= 4
    ensures Pass(l, sel, b, tol, 4 * c + s) == Pass(l, sel, b, tol, 4 * c)
  {
    if s > 0 {
      PassSkips(l, sel, b, tol, c, s - 1);
      var p := Pass(l, sel, b, tol, 4 * c);
      StepSkips(l, sel, p, tol, c, s - 1);
      PassNext(l, sel, b, tol, 4 * c + (s - 1), p, p);
    }
  }

  /** A slot of an unselected piece changes nothing. */
  lemma StepSkips(l: Layout, sel: seq<bool>, b: Board, tol: int, c: nat, s: nat)
    requires Fits(l) && Sized(b, Size(l)) && |sel| == Size(l) && c < Size(l) && !sel[c] && s < 4
    ensures 4 * c + s < 4 * Size(l) && Step(l, sel, b, tol, 4 * c + s) == b
  {
    SlotStep(c, s);
  }

  /** A release with nothing selected leaves the board as it was. */
  lemma {:induction false} PassUnselected(l: Layout, sel: seq<bool>, b: Board, tol: int, t: nat)
    requires Fits(l) && Sized(b, Size(l)) && |sel| == Size(l) && t <= 4 * Size(l)
    requires forall c :: 0 <= c < |sel| ==> !sel[c]
    ensures Pass(l, sel, b, tol, t) == b
  {
    if t > 0 {
      PassUnselected(l, sel, b, tol, t - 1);
      DivUpperBound(t - 1, 4, Size(l));
    }
  }

  /**
   * Groups only grow during a release, and each group moves as one rigid
   * body: two pieces that share a group before the pass still share one
   * afterwards, at the same relative offset.
   */
  lemma {:induction false} PassRigid(l: Layout, sel: seq<bool>, b: Board, tol: int, t: nat, i: nat, j: nat)
    requires Fits(l) && Sized(b, Size(l)) && |sel| == Size(l) && t <= 4 * Size(l)
    requires i < Size(l) && j < Size(l) && b.group[i] == b.group[j]
    ensures Pass(l, sel, b, tol, t).group[i] == Pass(l, sel, b, tol, t).group[j]
    ensures Pass(l, sel, b, tol, t).xs[i] - Pass(l, sel, b, tol, t).xs[j] == b.xs[i] - b.xs[j]
    ensures Pass(l, sel, b, tol, t).ys[i] - Pass(l, sel, b, tol, t).ys[j] == b.ys[i] - b.ys[j]
  {
    if t > 0 {
      PassRigid(l, sel, b, tol, t - 1, i, j);
      var c, s := (t - 1) / 4, (t - 1) % 4;
      if sel[c] && l.links[c][s].Some? {
        TrySnapEffect(l, Pass(l, sel, b, tol, t - 1), tol, c, l.links[c][s].value);
      }
    }
  }

  /** Whether slot `t % 4` of piece `t / 4` holds a neighbour of the same group (Puzzle.java:497-503). */
  predicate JoinedLink(l: Layout, group: seq<int>, t: nat)
    requires Fits(l) && |group| == Size(l) && t < 4 * Size(l)
  {
    match l.links[t / 4][t % 4]
    case None => false
    case Some(n) => group[t / 4] == group[n]
  }

  /** The number of joined links among the first `t` slots. */
  function CountLinks(l: Layout, group: seq<int>, t: nat): (k: nat)
    requires Fits(l) && |group| == Size(l) && t <= 4 * Size(l)
    ensures k <= t
  {
    if t == 0 then 0
    else CountLinks(l, group, t - 1) + (if JoinedLink(l, group, t - 1) then 1 else 0)
  }

  /** One more slot adds one exactly when that slot is joined. */
  lemma CountLinksNext(l: Layout, group: seq<int>, t: nat, before: nat, joined: bool)
    requires Fits(l) && |group| == Size(l) && t < 4 * Size(l)
    requires before == CountLinks(l, group, t) && joined == JoinedLink(l, group, t)
    ensures CountLinks(l, group, t + 1) == before + if joined then 1 else 0
  {
  }

  /** `currentConnections`: each joined link is counted from both ends, hence the halving (Puzzle.java:508). */
  function Connections(l: Layout, group: seq<int>): (progress: int)
    requires Fits(l) && |group| == Size(l)
    ensures 0 <= progress <= 2 * Size(l)
  {
    CountLinks(l, group, 4 * Size(l)) / 2
  }

  /** Every piece shares the group of piece 0: the solved test of Puzzle.java:356-367. */
  predicate AllJoined(group: seq<int>)
  {
    forall i :: 0 <= i < |group| ==> group[i] == group[0]
  }

  /** Comparing every piece with piece 0 is comparing every two pieces. */
  lemma AllJoinedPairs(group: seq<int>)
    ensures AllJoined(group) <==> forall i, j :: 0 <= i < |group| && 0 <= j < |group| ==> group[i] == group[j]
  {
  }

  /** Slot `t` of the layout holds a neighbour. */
  predicate Filled(l: Layout, t: nat)
    requires Fits(l) && t < 4 * Size(l)
  {
    l.links[t / 4][t % 4].Some?
  }

  /** The number of filled slots among the first `t`. */
  function FilledCount(l: Layout, t: nat): (k: nat)
    requires Fits(l) && t <= 4 * Size(l)
    ensures k <= t
  {
    if t == 0 then 0
    else FilledCount(l, t - 1) + (if Filled(l, t - 1) then 1 else 0)
  }

  /** The four slots of piece `p` add its filled ones to the count. */
  lemma FilledPiece(l: Layout, p: nat, t: nat, u: nat)
    requires Fits(l) && p < Size(l) && t == 4 * p && u == t + 4
    ensures FilledCount(l, u) == FilledCount(l, t) + SlotsFilled(l.links[p])
  {
    FilledSlot(l, p, 0, 4 * p, 4 * p + 1);
    FilledSlot(l, p, 1, 4 * p + 1, 4 * p + 2);
    FilledSlot(l, p, 2, 4 * p + 2, 4 * p + 3);
    FilledSlot(l, p, 3, 4 * p + 3, 4 * p + 4);
  }

  /** Slot `s` of piece `p` is counted at step `t == 4 * p + s`. */
  lemma FilledSlot(l: Layout, p: nat, s: nat, t: nat, u: nat)
    requires Fits(l) && p < Size(l) && s < 4 && t == 4 * p + s && u == t + 1
    ensures FilledCount(l, u) == FilledCount(l, t) + if l.links[p][s].Some? then 1 else 0
  {
    SlotStep(p, s);
  }

  /**
   * On the lattice the filled slots of the first `i` columns and the first
   * `j` pieces of column `i` are their inner sides; column `i` starts at
   * piece `base`.
   */
  lemma {:induction false} FilledColumns(l: Layout, i: nat, j: nat, base: nat)
    requires Fits(l) && Wired(l) && i < l.columns && j <= l.rows && base == i * l.rows && base + j <= Size(l)
    ensures FilledCount(l, 4 * (base + j)) == GridSides(l.columns, l.rows, i) + ColumnSides(l.columns, l.rows, i, j)
    decreases i, j, 1
  {
    if j == 0 {
      FilledColumnStart(l, i, base);
    } else {
      FilledColumns(l, i, j - 1, base);
      FilledRow(l, i, j, base);
    }
  }

  /** Column `i` starts where the first `i` columns end. */
  lemma {:induction false} FilledColumnStart(l: Layout, i: nat, base: nat)
    requires Fits(l) && Wired(l) && i < l.columns && base == i * l.rows && base <= Size(l)
    ensures FilledCount(l, 4 * base) == GridSides(l.columns, l.rows, i)
    decreases i, 0, 0
  {
    if i > 0 {
      ColumnStart(i, l.rows, base);
      FilledColumns(l, i - 1, l.rows, base - l.rows);
    }
  }

  /** The step from `j - 1` to `j` pieces of column `i`. */
  lemma FilledRow(l: Layout, i: nat, j: nat, base: nat)
    requires Fits(l) && Wired(l) && i < l.columns && 0 < j <= l.rows && base == i * l.rows && base + j <= Size(l)
    requires FilledCount(l, 4 * (base + (j - 1))) == GridSides(l.columns, l.rows, i) + ColumnSides(l.columns, l.rows, i, j - 1)
    ensures FilledCount(l, 4 * (base + j)) == GridSides(l.columns, l.rows, i) + ColumnSides(l.columns, l.rows, i, j)
  {
    WiredSides(l, i, j - 1, base);
    FilledPiece(l, base + (j - 1), 4 * (base + (j - 1)), 4 * (base + j));
  }

  lemma ColumnStart(i: nat, rows: nat, base: nat)
    requires 0 < i && base == i * rows
    ensures base - rows == (i - 1) * rows
  {
  }

  /** On the lattice all filled slots together are the inner sides of the grid. */
  lemma FilledAll(l: Layout)
    requires Fits(l) && Wired(l) && 0 < l.columns
    ensures FilledCount(l, 4 * Size(l)) == GridSides(l.columns, l.rows, l.columns)
  {
    ColumnStart(l.columns, l.rows, Size(l));
    FilledColumns(l, l.columns - 1, l.rows, Size(l) - l.rows);
  }

  /** On the lattice the piece at column `i`, row `j` fills one slot per inner side. */
  lemma WiredSides(l: Layout, i: nat, j: nat, base: nat)
    requires Fits(l) && Wired(l) && i < l.columns && j < l.rows && base == i * l.rows
    ensures base + j < Size(l)
    ensures SlotsFilled(l.links[base + j]) == InnerSides(l.columns, l.rows, i, j)
  {
    SlotsSides(l.columns, l.rows, i, j);
    assert WiredAt(l, base + j);
  }

  /** Joined links are a subset of the filled slots, and all of them once every piece is in one group. */
  lemma {:induction false} CountLinksBound(l: Layout, group: seq<int>, t: nat)
    requires Fits(l) && |group| == Size(l) && t <= 4 * Size(l)
    ensures CountLinks(l, group, t) <= FilledCount(l, t)
    ensures AllJoined(group) ==> CountLinks(l, group, t) == FilledCount(l, t)
  {
    if t > 0 {
      CountLinksBound(l, group, t - 1);
    }
  }

  /** When the count of joined links reaches the count of filled slots, every filled slot is joined. */
  lemma {:induction false} CountFull(l: Layout, group: seq<int>, t: nat, u: nat)
    requires Fits(l) && |group| == Size(l) && u < t <= 4 * Size(l)
    requires CountLinks(l, group, t) == FilledCount(l, t)
    ensures Filled(l, u) ==> JoinedLink(l, group, u)
  {
    CountLinksBound(l, group, t - 1);
    if u < t - 1 {
      CountFull(l, group, t - 1, u);
    }
  }

  /**
   * The lattice is connected: if every link joins two pieces of one group,
   * all pieces are in one group. Piece `k` reaches piece 0 through the
   * piece above it, or through the piece to its left at the top of a column.
   */
  lemma {:induction false} LinkedGridJoined(l: Layout, group: seq<int>, k: nat)
    requires Fits(l) && Wired(l) && |group| == Size(l) && k < Size(l)
    requires forall u :: 0 <= u < 4 * Size(l) && Filled(l, u) ==> JoinedLink(l, group, u)
    ensures group[k] == group[0]
    decreases k
  {
    if k > 0 {
      Coordinates(l.columns, l.rows, k);
      var s := if k % l.rows > 0 then 2 else 0;
      SlotStep(k, s);
      assert WiredAt(l, k);
      assert Filled(l, 4 * k + s);
      var n := Neighbor(l.columns, l.rows, k, s).value;
      assert n < k;
      LinkedGridJoined(l, group, n);
    }
  }

  /**
   * Progress never exceeds the connection total, and reaches it exactly when
   * the puzzle is solved.
   */
  lemma ProgressFullIffSolved(l: Layout, group: seq<int>)
    requires Fits(l) && Wired(l) && 0 < l.columns && |group| == Size(l)
    ensures Connections(l, group) <= TotalConnections(l.columns, l.rows)
    ensures Connections(l, group) == TotalConnections(l.columns, l.rows) <==> AllJoined(group)
  {
    var n := Size(l);
    AllSides(l.columns, l.rows);
    FilledAll(l);
    CountLinksBound(l, group, 4 * n);
    if Connections(l, group) == TotalConnections(l.columns, l.rows) {
      forall u | 0 <= u < 4 * n && Filled(l, u)
        ensures JoinedLink(l, group, u)
      {
        CountFull(l, group, 4 * n, u);
      }
      forall k | 0 <= k < |group|
        ensures group[k] == group[0]
      {
        LinkedGridJoined(l, group, k);
      }
    }
  }

  /** Moves every selected coordinate by `d`: the drag of Puzzle.java:280-285. */
  function Dragged(v: seq<int>, sel: seq<bool>, d: int): (r: seq<int>)
    requires |sel| == |v|
    ensures |r| == |v|
  {
    seq(|v|, i requires 0 <= i < |v| => if sel[i] then v[i] + d else v[i])
  }

  /** Two drags in a row amount to one drag by the sum, and selected pieces keep their relative offsets. */
  lemma DragComposes(v: seq<int>, sel: seq<bool>, d1: int, d2: int)
    requires |sel| == |v|
    ensures Dragged(Dragged(v, sel, d1), sel, d2) == Dragged(v, sel, d1 + d2)
    ensures forall i, j :: 0 <= i < |v| && 0 <= j < |v| && sel[i] && sel[j] ==>
              Dragged(v, sel, d1)[i] - Dragged(v, sel, d1)[j] == v[i] - v[j]
  {
  }
}
