/**
 * Loading (Puzzle.java:155-239): the image is cut into padded pieces, the
 * pieces of the lattice are linked to their neighbours, and a round tab is
 * carved between every two neighbours by moving a disc of pixels from one
 * piece into the other. The random numbers loading draws are an input.
 */
module Loading {
  import opened Options
  import opened Arith
  import opened Raster
  import opened Grid
  import opened Pieces

  /** Width of the transparent border around every piece (Puzzle.java:89). */
  const Margin: nat := 18

  /** Largest tab radius (Puzzle.java:94). */
  const Radius: nat := 14

  /** Whether offset `(i, j)` has already been visited by the transfer loops, which take each `i` in turn and each `j` within it. */
  predicate Visited(i: int, j: int, ci: int, cj: int)
  {
    i < ci || (i == ci && j < cj)
  }

  /** The donor after the transfer loops reached `(ci, cj)`: visited disc pixels are blank. */
  ghost predicate HollowedTo(donor: array2<int>, d0: seq<seq<int>>, cx: int, cy: int, r: int, ci: int, cj: int)
    reads donor
    requires |d0| == donor.Length0 && forall a :: 0 <= a < |d0| ==> |d0[a]| == donor.Length1
  {
    forall a, b :: 0 <= a < donor.Length0 && 0 <= b < donor.Length1 ==>
      donor[a, b] == if InDisc(a - cx, b - cy, r) && Visited(a - cx, b - cy, ci, cj) then Transparent else d0[a][b]
  }

  /** The recipient after the transfer loops reached `(ci, cj)`: visited visible donor pixels have landed. */
  ghost predicate FilledTo(recipient: array2<int>, r0: seq<seq<int>>, d0: seq<seq<int>>,
                           cx: int, cy: int, cx2: int, cy2: int, r: int, ci: int, cj: int)
    reads recipient
    requires |r0| == recipient.Length0 && forall a :: 0 <= a < |r0| ==> |r0[a]| == recipient.Length1
    requires IsRect(d0) && DiscFits(|d0|, Height(d0), cx, cy, r)
  {
    forall a, b :: 0 <= a < recipient.Length0 && 0 <= b < recipient.Length1 ==>
      recipient[a, b] == if InDisc(a - cx2, b - cy2, r) && Visited(a - cx2, b - cy2, ci, cj)
                            && d0[a - cx2 + cx][b - cy2 + cy] != Transparent
                         then d0[a - cx2 + cx][b - cy2 + cy] else r0[a][b]
  }

  /** One pass of the inner transfer loop, for offset `i` (Puzzle.java:338-349). */
  method TransferRow(i: int, radius: int, cx: int, cy: int, donor: array2<int>, recipient: array2<int>, cx2: int, cy2: int,
                     ghost d0: seq<seq<int>>, ghost r0: seq<seq<int>>)
    requires donor != recipient && -radius <= i <= radius
    requires IsRect(d0) && |d0| == donor.Length0 && (|d0| > 0 ==> Height(d0) == donor.Length1)
    requires |r0| == recipient.Length0 && forall a :: 0 <= a < |r0| ==> |r0[a]| == recipient.Length1
    requires DiscFits(donor.Length0, donor.Length1, cx, cy, radius)
    requires DiscFits(recipient.Length0, recipient.Length1, cx2, cy2, radius)
    requires HollowedTo(donor, d0, cx, cy, radius, i, -radius)
    requires FilledTo(recipient, r0, d0, cx, cy, cx2, cy2, radius, i, -radius)
    modifies donor, recipient
    ensures HollowedTo(donor, d0, cx, cy, radius, i + 1, -radius)
    ensures FilledTo(recipient, r0, d0, cx, cy, cx2, cy2, radius, i + 1, -radius)
  {
    var j := -radius;
    while j <= radius
      invariant -radius <= j <= radius + 1
      invariant HollowedTo(donor, d0, cx, cy, radius, i, j)
      invariant FilledTo(recipient, r0, d0, cx, cy, cx2, cy2, radius, i, j)
    {
      if i * i + j * j <= radius * radius {
        var x, y := i + cx, j + cy;
        if donor[x, y] != Transparent {
          recipient[cx2 + i, cy2 + j] := donor[x, y];
          donor[x, y] := Transparent;
        }
      }
      j := j + 1;
    }
  }

  /**
   * Moves the non-transparent pixels of the disc of radius `radius` at
   * `(cx, cy)` in `destination` to the disc at `(cx2, cy2)` in `source`,
   * blanking each moved pixel (Puzzle.java:336-351). Despite the parameter
   * names, the pixels travel from `destination` into `source`. The code
   * checks no bounds, so both discs must lie inside their buffers.
   */
  method Transfer(radius: int, cx: int, cy: int, destination: Piece, source: Piece, cx2: int, cy2: int)
    requires destination.picture != source.picture
    requires DiscFits(destination.picture.Length0, destination.picture.Length1, cx, cy, radius)
    requires DiscFits(source.picture.Length0, source.picture.Length1, cx2, cy2, radius)
    modifies destination.picture, source.picture
    ensures Snapshot(destination.picture) == Hollow(old(Snapshot(destination.picture)), cx, cy, radius)
    ensures Snapshot(source.picture)
            == Fill(old(Snapshot(source.picture)), old(Snapshot(destination.picture)), cx, cy, cx2, cy2, radius)
  {
    var donor, recipient := destination.picture, source.picture;
    ghost var d0, r0 := Snapshot(donor), Snapshot(recipient);
    var i := -radius;
    while i <= radius
      invariant radius < 0 || -radius <= i <= radius + 1
      invariant HollowedTo(donor, d0, cx, cy, radius, i, -radius)
      invariant FilledTo(recipient, r0, d0, cx, cy, cx2, cy2, radius, i, -radius)
    {
      TransferRow(i, radius, cx, cy, donor, recipient, cx2, cy2, d0, r0);
      i := i + 1;
    }
    SameMatrix(Snapshot(donor), Hollow(d0, cx, cy, radius));
    forall a, b | 0 <= a < |r0| && 0 <= b < |r0[a]| {
      FillPixel(r0, d0, cx, cy, cx2, cy2, radius, a, b);
    }
    SameMatrix(Snapshot(recipient), Fill(r0, d0, cx, cy, cx2, cy2, radius));
  }

  /**
   * The random numbers of loading, indexed by piece id: the starting
   * position (Puzzle.java:198-199), the tab offset `locationRandom` and the
   * tab radius `radiusRandom` (Puzzle.java:209-210), and whether the piece
   * or its neighbour gives the pixels of the right-hand and of the lower
   * tab (`Math.random() < 0.5`, Puzzle.java:216, 228).
   */
  datatype Draws = Draws(xs: seq<int>, ys: seq<int>, offsets: seq<int>, radii: seq<int>,
                         flipRight: seq<bool>, flipDown: seq<bool>)

  /**
   * One draw per piece, each in the range its formula yields for a
   * `Math.random()` in [0, 1): `(int) (u * 2 * radius) - radius` lies in
   * [-14, 13] and `(int) ((1 - u * 0.4) * radius)` in [8, 14].
   */
  predicate Drawn(d: Draws, count: nat)
  {
    && |d.xs| == count && |d.ys| == count && |d.offsets| == count && |d.radii| == count
    && |d.flipRight| == count && |d.flipDown| == count
    && forall k :: 0 <= k < count ==> 0 <= d.offsets[k] + Radius < 2 * Radius && 8 <= d.radii[k] <= Radius
  }

  /**
   * The buffer cut for the piece at column `i` and row `j` of the lattice
   * whose boundaries are `ew` across and `eh` down.
   */
  ghost function CutOf(img: seq<seq<int>>, ew: seq<int>, eh: seq<int>, i: nat, j: nat): (m: seq<seq<int>>)
    requires IsRect(img) && i + 1 < |ew| && j + 1 < |eh| && Spaced(ew, |img|, 2 * Radius) && Spaced(eh, Height(img), 2 * Radius)
    ensures Roomy(m)
  {
    var left, right, top, bottom := ew[i], ew[i + 1], eh[j], eh[j + 1];
    Cell(img, left, top, right - left, bottom - top, Margin)
  }

  /** The buffers of all pieces right after cutting, by id: piece `k` is the cell at column `k / rows` and row `k % rows`. */
  ghost function Cuts(img: seq<seq<int>>, ew: seq<int>, eh: seq<int>, columns: nat, rows: nat)
    : (pics: seq<seq<seq<int>>>)
    requires IsRect(img) && 0 < rows
    requires |ew| == columns + 1 && |eh| == rows + 1 && Spaced(ew, |img|, 2 * Radius) && Spaced(eh, Height(img), 2 * Radius)
    ensures |pics| == columns * rows && AllRoomy(pics)
  {
    seq(columns * rows, k requires 0 <= k < columns * rows =>
      Coordinates(columns, rows, k);
      CutOf(img, ew, eh, k / rows, k % rows))
  }

  /** Large enough for every tab loading carves: `4 * Radius` pixels each way. */
  ghost predicate Roomy(m: seq<seq<int>>)
  {
    IsRect(m) && |m| >= 4 * Radius && Height(m) >= 4 * Radius
  }

  ghost predicate AllRoomy(pics: seq<seq<seq<int>>>)
  {
    forall q :: 0 <= q < |pics| ==> Roomy(pics[q])
  }

  /** `after` holds as many buffers as `before`, each roomy and of the same size. */
  ghost predicate Kept(before: seq<seq<seq<int>>>, after: seq<seq<seq<int>>>)
  {
    && |after| == |before|
    && forall q :: 0 <= q < |before| ==>
         Roomy(after[q]) && |after[q]| == |before[q]| && Height(after[q]) == Height(before[q])
  }

  /**
   * The arguments of one call of `transfer`: the disc of radius `r` at
   * `(cx, cy)` in piece `from` goes to `(cx2, cy2)` in piece `to`.
   */
  datatype Tab = Tab(r: int, from: nat, cx: int, cy: int, to: nat, cx2: int, cy2: int)

  /**
   * The right-hand tab of piece `k` of `w` x `h` pixels whose right-hand
   * neighbour `k + rows` is `hr` pixels high (Puzzle.java:212-223): the
   * neighbour's left edge gives the pixels when the draw flips it, else
   * the piece's right edge.
   */
  function RightTab(d: Draws, rows: nat, k: nat, w: int, h: int, hr: int): (t: Tab)
    requires 0 < rows && k < |d.radii| && k < |d.offsets| && k < |d.flipRight|
    ensures {t.from, t.to} == {k, k + rows} && t.r == d.radii[k]
    ensures t.from == k <==> !d.flipRight[k]
  {
    var r, loc := d.radii[k], d.offsets[k];
    if d.flipRight[k] then Tab(r, k + rows, Margin, hr / 2 + loc, k, w - Margin, h / 2 + loc)
    else Tab(r, k, w - Margin, h / 2 + loc, k + rows, Margin, hr / 2 + loc)
  }

  /**
   * The lower tab of piece `k` of `w` x `h` pixels whose lower neighbour
   * `k + 1` is `wd` pixels wide (Puzzle.java:224-235): the neighbour's top
   * edge gives the pixels when the draw flips it, else the piece's bottom
   * edge.
   */
  function DownTab(d: Draws, k: nat, w: int, h: int, wd: int): (t: Tab)
    requires k < |d.radii| && k < |d.offsets| && k < |d.flipDown|
    ensures {t.from, t.to} == {k, k + 1} && t.r == d.radii[k]
    ensures t.from == k <==> !d.flipDown[k]
  {
    var r, loc := d.radii[k], d.offsets[k];
    if d.flipDown[k] then Tab(r, k + 1, wd / 2 + loc, Margin, k, w / 2 + loc, h - Margin)
    else Tab(r, k, w / 2 + loc, h - Margin, k + 1, wd / 2 + loc, Margin)
  }

  /** Both discs of `t` lie inside their buffers among `pics`. */
  ghost predicate TabFits(pics: seq<seq<seq<int>>>, t: Tab)
  {
    && t.from < |pics| && t.to < |pics| && t.from != t.to
    && DiscFits(|pics[t.from]|, Height(pics[t.from]), t.cx, t.cy, t.r)
    && DiscFits(|pics[t.to]|, Height(pics[t.to]), t.cx2, t.cy2, t.r)
  }

  /**
   * `transfer` on buffer values: the disc of `t` in buffer `t.from` is
   * hollowed out and lands in buffer `t.to`.
   */
  ghost function Move(pics: seq<seq<seq<int>>>, t: Tab): (p: seq<seq<seq<int>>>)
    requires AllRoomy(pics) && TabFits(pics, t)
    ensures Kept(pics, p)
    ensures forall q :: 0 <= q < |pics| && q != t.from && q != t.to ==> p[q] == pics[q]
  {
    var (r, from, cx, cy, to, cx2, cy2) := (t.r, t.from, t.cx, t.cy, t.to, t.cx2, t.cy2);
    pics[from := Hollow(pics[from], cx, cy, r)][to := Fill(pics[to], pics[from], cx, cy, cx2, cy2, r)]
  }

  /**
   * The tab between piece `k` and its right-hand neighbour `k + rows`
   * (Puzzle.java:212-223); a piece of the last column has none.
   */
  ghost function CarveRight(pics: seq<seq<seq<int>>>, d: Draws, columns: nat, rows: nat, k: nat): (p: seq<seq<seq<int>>>)
    requires 0 < rows && |pics| == columns * rows && k < |pics| && Drawn(d, |pics|) && AllRoomy(pics)
    ensures Kept(pics, p)
    ensures forall q :: 0 <= q < |pics| && q != k && q != k + rows ==> p[q] == pics[q]
  {
    Coordinates(columns, rows, k);
    if k / rows == columns - 1 then pics
    else Move(pics, RightTab(d, rows, k, |pics[k]|, Height(pics[k]), Height(pics[k + rows])))
  }

  /**
   * The tab between piece `k` and its lower neighbour `k + 1`
   * (Puzzle.java:224-235); a piece of the last row has none.
   */
  ghost function CarveDown(pics: seq<seq<seq<int>>>, d: Draws, columns: nat, rows: nat, k: nat): (p: seq<seq<seq<int>>>)
    requires 0 < rows && |pics| == columns * rows && k < |pics| && Drawn(d, |pics|) && AllRoomy(pics)
    ensures Kept(pics, p)
    ensures forall q :: 0 <= q < |pics| && q != k && q != k + 1 ==> p[q] == pics[q]
  {
    Coordinates(columns, rows, k);
    if k % rows == rows - 1 then pics
    else Move(pics, DownTab(d, k, |pics[k]|, Height(pics[k]), |pics[k + 1]|))
  }

  /** Both tabs of piece `k`, the right-hand one first. */
  ghost function CarveStep(pics: seq<seq<seq<int>>>, d: Draws, columns: nat, rows: nat, k: nat): (p: seq<seq<seq<int>>>)
    requires 0 < rows && |pics| == columns * rows && k < |pics| && Drawn(d, |pics|) && AllRoomy(pics)
    ensures Kept(pics, p)
    ensures forall q :: 0 <= q < |pics| && q != k && q != k + 1 && q != k + rows ==> p[q] == pics[q]
  {
    CarveDown(CarveRight(pics, d, columns, rows, k), d, columns, rows, k)
  }

  /** The buffers after the carving loop has visited pieces `0` to `k - 1`, in id order. */
  ghost function Carving(pics: seq<seq<seq<int>>>, d: Draws, columns: nat, rows: nat, k: nat): (p: seq<seq<seq<int>>>)
    requires 0 < rows && |pics| == columns * rows && k <= |pics| && Drawn(d, |pics|) && AllRoomy(pics)
    ensures Kept(pics, p)
  {
    if k == 0 then pics else CarveStep(Carving(pics, d, columns, rows, k - 1), d, columns, rows, k - 1)
  }

  /** The carved buffer of every piece, by id. */
  ghost function Pictures(ps: seq<Piece>): (m: seq<seq<seq<int>>>)
    reads Frames(ps)
    ensures |m| == |ps| && forall q :: 0 <= q < |ps| ==> m[q] == Snapshot(ps[q].picture)
  {
    seq(|ps|, q requires 0 <= q < |ps| reads Frames(ps) => Snapshot(ps[q].picture))
  }

  ghost function Frames(ps: seq<Piece>): set<array2<int>>
  {
    set q | 0 <= q < |ps| :: ps[q].picture
  }

  ghost function Images(ps: seq<Piece>): set<array2<int>>
  {
    set q | 0 <= q < |ps| :: ps[q].pic
  }

  /** No two buffers of the pieces are the same array. */
  ghost predicate Apart(ps: seq<Piece>)
  {
    forall a, b :: 0 <= a < |ps| && 0 <= b < |ps| ==>
      ps[a].picture != ps[b].pic && (a != b ==> ps[a].picture != ps[b].picture && ps[a].pic != ps[b].pic)
  }

  /** The pieces of a `columns` x `rows` lattice, each with separate buffers large enough for its tabs. */
  ghost predicate Cut(ps: seq<Piece>, columns: nat, rows: nat)
  {
    && 0 < rows && |ps| == columns * rows && Apart(ps)
    && forall q :: 0 <= q < |ps| ==> ps[q].Valid() && ps[q].width >= 4 * Radius && ps[q].height >= 4 * Radius
  }

  /**
   * Cuts the image cell of `pieceWidth` x `pieceHeight` pixels at
   * `(left, top)` and makes it piece `id` (Puzzle.java:184-196).
   */
  method CutPiece(image: array2<int>, ghost img: seq<seq<int>>, left: nat, top: nat, pieceWidth: nat, pieceHeight: nat,
                  id: nat, rows: nat, ghost ps: seq<Piece>)
    returns (p: Piece)
    requires img == Snapshot(image)
    requires left + pieceWidth <= image.Length0 && top + pieceHeight <= image.Length1 && 0 < rows
    ensures fresh(p) && fresh(p.picture) && fresh(p.pic)
    ensures p.id == id && p.row == id / rows && p.col == id % rows && p.Valid() && p.Blank()
    ensures p.width == Margin + pieceWidth + Margin && p.height == Margin + pieceHeight + Margin
    ensures Snapshot(p.picture) == Cell(img, left, top, pieceWidth, pieceHeight, Margin)
    ensures Separate(p, ps)
  {
    var picture := CutPicture(image, left, top, pieceWidth, pieceHeight, Margin);
    p := new Piece(id, picture, rows);
  }

  /** Piece `k = i * rows + j` of the lattice lies at column `i` and row `j`. */
  lemma Place(columns: nat, rows: nat, i: nat, j: nat, k: nat)
    requires i < columns && j < rows && k == i * rows + j
    ensures k < columns * rows && k / rows == i && k % rows == j
  {
    IdCoordinates(columns, rows, i, j);
  }

  /** The tables of a lattice of `columns` x `rows` cells over `img`, each cell large enough for its tabs. */
  ghost predicate Lattice(img: seq<seq<int>>, ew: seq<int>, eh: seq<int>, columns: nat, rows: nat)
  {
    && IsRect(img) && 0 < columns && 0 < rows && |ew| == columns + 1 && |eh| == rows + 1
    && Spaced(ew, |img|, 2 * Radius) && Spaced(eh, Height(img), 2 * Radius)
  }

  /**
   * The boundary tables of an image at least one cell wide and high, in
   * cells of about `ColumnPixels` x `RowPixels` pixels, make a lattice.
   */
  lemma TablesLattice(img: seq<seq<int>>)
    requires IsRect(img) && 0 < |img| / ColumnPixels && 0 < Height(img) / RowPixels
    ensures var columns, rows := |img| / ColumnPixels, Height(img) / RowPixels;
            Lattice(img, Table(|img|, columns), Table(Height(img), rows), columns, rows)
    ensures Spaced(Table(|img|, |img| / ColumnPixels), |img|, ColumnPixels)
    ensures Spaced(Table(Height(img), Height(img) / RowPixels), Height(img), RowPixels)
  {
    TableSpaced(|img|, ColumnPixels);
    TableSpaced(Height(img), RowPixels);
  }

  /** Piece `p` is the freshly cut piece `q`: where it belongs, blank, and holding its cell of `img`. */
  ghost predicate CutAt(p: Piece, img: seq<seq<int>>, ew: seq<int>, eh: seq<int>, columns: nat, rows: nat, q: nat)
    reads p.picture, p.pic
    requires Lattice(img, ew, eh, columns, rows)
  {
    && p.id == q && p.row == q / rows && p.col == q % rows && p.Valid() && p.Blank()
    && p.width >= 4 * Radius && p.height >= 4 * Radius
    && 0 <= p.row < columns && 0 <= p.col < rows
    && Snapshot(p.picture) == CutOf(img, ew, eh, p.row, p.col)
  }

  /** The invariant of cutting: the first `|ps|` pieces are cut, with separate buffers. */
  ghost predicate CutSoFar(ps: seq<Piece>, img: seq<seq<int>>, ew: seq<int>, eh: seq<int>, columns: nat, rows: nat)
    reads Frames(ps), Images(ps)
    requires Lattice(img, ew, eh, columns, rows)
  {
    && |ps| <= columns * rows && Apart(ps)
    && forall q :: 0 <= q < |ps| ==> CutAt(ps[q], img, ew, eh, columns, rows, q)
  }

  /** Cuts piece `k`, the cell at column `i = k / rows` and row `j = k % rows` of the image (Puzzle.java:184-196). */
  method CutCell(image: array2<int>, ghost img: seq<seq<int>>, ew: seq<int>, eh: seq<int>, columns: nat, rows: nat,
                 i: nat, j: nat, k: nat, ghost ps: seq<Piece>)
    returns (p: Piece)
    requires img == Snapshot(image) && Lattice(img, ew, eh, columns, rows)
    requires i < columns && j < rows && k / rows == i && k % rows == j
    ensures CutAt(p, img, ew, eh, columns, rows, k) && Separate(p, ps)
    ensures fresh(p) && fresh(p.picture) && fresh(p.pic)
  {
    var left, right, top, bottom := ew[i], ew[i + 1], eh[j], eh[j + 1];
    p := CutPiece(image, img, left, top, right - left, bottom - top, k, rows, ps);
  }

  /** Cuts piece `i * rows + j` and appends it (one step of the loop at Puzzle.java:185-201). */
  method CutNext(image: array2<int>, ghost img: seq<seq<int>>, ew: seq<int>, eh: seq<int>, columns: nat, rows: nat,
                 i: nat, j: nat, ps: seq<Piece>)
    returns (p: Piece)
    requires img == Snapshot(image) && Lattice(img, ew, eh, columns, rows) && i < columns && j < rows
    requires |ps| < columns * rows && |ps| / rows == i && |ps| % rows == j && CutSoFar(ps, img, ew, eh, columns, rows)
    ensures CutSoFar(ps + [p], img, ew, eh, columns, rows)
    ensures fresh(p) && fresh(p.picture) && fresh(p.pic)
  {
    p := CutCell(image, img, ew, eh, columns, rows, i, j, |ps|, ps);
    Append(ps, p, img, ew, eh, columns, rows);
  }

  /** Neither buffer of `p` is a buffer of any of the pieces `ps`. */
  ghost predicate Separate(p: Piece, ps: seq<Piece>)
  {
    forall q :: 0 <= q < |ps| ==>
      p.picture != ps[q].picture && p.picture != ps[q].pic && p.pic != ps[q].picture && p.pic != ps[q].pic
  }

  /** Appending a piece whose buffers are new keeps the buffers of all pieces apart. */
  lemma AppendApart(ps: seq<Piece>, p: Piece)
    requires Apart(ps) && p.picture != p.pic
    requires Separate(p, ps)
    ensures Apart(ps + [p])
  {
    var ps' := ps + [p];
    forall a, b | 0 <= a < |ps'| && 0 <= b < |ps'|
      ensures ps'[a].picture != ps'[b].pic && (a != b ==> ps'[a].picture != ps'[b].picture && ps'[a].pic != ps'[b].pic)
    {
      if a < |ps| {
        assert ps'[a] == ps[a];
      }
      if b < |ps| {
        assert ps'[b] == ps[b];
      }
    }
  }

  /** Appending the cut of cell `|ps|` extends the cut. */
  lemma Append(ps: seq<Piece>, p: Piece, img: seq<seq<int>>, ew: seq<int>, eh: seq<int>, columns: nat, rows: nat)
    requires Lattice(img, ew, eh, columns, rows) && |ps| < columns * rows && CutSoFar(ps, img, ew, eh, columns, rows)
    requires CutAt(p, img, ew, eh, columns, rows, |ps|)
    requires Separate(p, ps)
    ensures CutSoFar(ps + [p], img, ew, eh, columns, rows)
  {
    var ps' := ps + [p];
    forall q | 0 <= q < |ps'|
      ensures CutAt(ps'[q], img, ew, eh, columns, rows, q)
    {
      if q < |ps| {
        assert ps'[q] == ps[q];
      }
    }
    AppendApart(ps, p);
  }

  /** Cuts the `rows` pieces of column `i`, in row order. */
  method CutColumn(image: array2<int>, ghost img: seq<seq<int>>, ew: seq<int>, eh: seq<int>, columns: nat, rows: nat,
                   i: nat, ps: seq<Piece>) returns (ps': seq<Piece>)
    requires img == Snapshot(image) && Lattice(img, ew, eh, columns, rows) && i < columns
    requires |ps| == i * rows && CutSoFar(ps, img, ew, eh, columns, rows)
    ensures |ps'| == i * rows + rows && ps'[..|ps|] == ps && CutSoFar(ps', img, ew, eh, columns, rows)
    ensures forall q :: |ps| <= q < |ps'| ==> fresh(ps'[q].picture) && fresh(ps'[q].pic)
  {
    ps' := ps;
    for j := 0 to rows
      invariant |ps'| == i * rows + j && ps'[..|ps|] == ps && CutSoFar(ps', img, ew, eh, columns, rows)
      invariant forall q :: |ps| <= q < |ps'| ==> fresh(ps'[q].picture) && fresh(ps'[q].pic)
    {
      Place(columns, rows, i, j, |ps'|);
      var p := CutNext(image, img, ew, eh, columns, rows, i, j, ps');
      ps' := ps' + [p];
    }
  }

  /**
   * The first loop of loading (Puzzle.java:183-202): cuts every cell of
   * the image, column by column, into the pieces `0 .. columns * rows - 1`.
   */
  method CutAll(image: array2<int>, ew: seq<int>, eh: seq<int>, columns: nat, rows: nat) returns (ps: seq<Piece>)
    requires Lattice(Snapshot(image), ew, eh, columns, rows)
    ensures Cut(ps, columns, rows)
    ensures Pictures(ps) == Cuts(Snapshot(image), ew, eh, columns, rows)
    ensures forall q :: 0 <= q < |ps| ==> ps[q].id == q && ps[q].row == q / rows && ps[q].col == q % rows && ps[q].Blank()
    ensures forall q :: 0 <= q < |ps| ==> fresh(ps[q].picture) && fresh(ps[q].pic)
  {
    ghost var img := Snapshot(image);
    ps := [];
    for i := 0 to columns
      invariant |ps| == i * rows && CutSoFar(ps, img, ew, eh, columns, rows)
      invariant forall q :: 0 <= q < |ps| ==> fresh(ps[q].picture) && fresh(ps[q].pic)
    {
      MulNext(i, rows, columns);
      ghost var before := ps;
      ps := CutColumn(image, img, ew, eh, columns, rows, i, ps);
      assert forall q :: 0 <= q < |before| ==> ps[q] == before[q];
    }
    CutDone(ps, img, ew, eh, columns, rows);
  }

  /** Once all pieces are cut, they are the cuts of the image. */
  lemma CutDone(ps: seq<Piece>, img: seq<seq<int>>, ew: seq<int>, eh: seq<int>, columns: nat, rows: nat)
    requires Lattice(img, ew, eh, columns, rows) && |ps| == columns * rows && CutSoFar(ps, img, ew, eh, columns, rows)
    ensures Cut(ps, columns, rows) && Pictures(ps) == Cuts(img, ew, eh, columns, rows)
    ensures forall q :: 0 <= q < |ps| ==> ps[q].id == q && ps[q].row == q / rows && ps[q].col == q % rows && ps[q].Blank()
  {
    assert forall q :: 0 <= q < |ps| ==> CutAt(ps[q], img, ew, eh, columns, rows, q);
  }

  /**
   * Whether slot `s` of piece `q` is set once the carving loop has visited
   * pieces `0` to `k - 1`: piece `q` sets its own right and lower slots, its
   * left slot is set by piece `q - rows` and its upper slot by piece `q - 1`.
   */
  predicate Linked(q: nat, s: nat, k: nat, rows: nat)
  {
    if s == 0 then q < k + rows else if s == 2 then q < k + 1 else q < k
  }

  /** `count` pieces with four slots each. */
  predicate Slotted(links: seq<seq<Option<nat>>>, count: nat)
  {
    |links| == count && forall q :: 0 <= q < count ==> |links[q]| == 4
  }

  /** Slot `s` of piece `q` after visiting pieces `0` to `k - 1`: the lattice neighbour once set, empty before. */
  function LinkAfter(columns: nat, rows: nat, k: nat, q: nat, s: nat): Option<nat>
    requires 0 < rows && q < columns * rows && s < 4
  {
    if Linked(q, s, k, rows) then Neighbor(columns, rows, q, s) else None
  }

  /** The neighbour slots after visiting pieces `0` to `k - 1`. */
  ghost predicate LinkedTo(links: seq<seq<Option<nat>>>, columns: nat, rows: nat, k: nat)
  {
    && 0 < rows && Slotted(links, columns * rows)
    && forall q, s :: 0 <= q < |links| && 0 <= s < 4 ==> links[q][s] == LinkAfter(columns, rows, k, q, s)
  }

  /**
   * Every piece starts with four empty slots: the four-slot array form of
   * `neighbors` that Puzzle.java:214-227 indexes. Its declaration is not
   * part of this model.
   */
  function Unlinked(count: nat): (links: seq<seq<Option<nat>>>)
    ensures Slotted(links, count) && forall q :: 0 <= q < count ==> links[q] == [None, None, None, None]
  {
    seq(count, q => [None, None, None, None])
  }

  /** Links pieces `a` and `b` both ways: slot `sa` of `a` holds `b` and slot `sb` of `b` holds `a`. */
  function Couple(links: seq<seq<Option<nat>>>, a: nat, sa: nat, b: nat, sb: nat): (r: seq<seq<Option<nat>>>)
    requires Slotted(links, |links|) && a < |links| && b < |links| && a != b && sa < 4 && sb < 4
    ensures Slotted(r, |links|) && r[a][sa] == Some(b) && r[b][sb] == Some(a)
    ensures forall q :: 0 <= q < |links| && q != a && q != b ==> r[q] == links[q]
    ensures forall s :: 0 <= s < 4 && s != sa ==> r[a][s] == links[a][s]
    ensures forall s :: 0 <= s < 4 && s != sb ==> r[b][s] == links[b][s]
  {
    links[a := links[a][sa := Some(b)]][b := links[b][sb := Some(a)]]
  }

  /**
   * The links loading makes for piece `k` (Puzzle.java:213-215, 225-227):
   * with its right-hand neighbour unless `k` is in the last column, and with
   * its lower neighbour unless it is in the last row.
   */
  function Wire(links: seq<seq<Option<nat>>>, columns: nat, rows: nat, k: nat): (r: seq<seq<Option<nat>>>)
    requires 0 < rows && Slotted(links, columns * rows) && k < columns * rows
    ensures Slotted(r, |links|)
  {
    Coordinates(columns, rows, k);
    var right := if k / rows != columns - 1 then Couple(links, k, 1, k + rows, 0) else links;
    if k % rows != rows - 1 then Couple(right, k, 3, k + 1, 2) else right
  }

  /** Before the loop no slot is set. */
  lemma LinkedStart(columns: nat, rows: nat)
    requires 0 < rows
    ensures LinkedTo(Unlinked(columns * rows), columns, rows, 0)
  {
    forall q, s | 0 <= q < columns * rows && 0 <= s < 4
      ensures Unlinked(columns * rows)[q][s] == LinkAfter(columns, rows, 0, q, s)
    {
      BorderSlots(columns, rows, q);
      if s == 0 && q < rows {
        DivModUnique(q, rows, 0, q);
      }
    }
  }

  /** Wiring piece `k` sets slot `s` of piece `q` exactly when the next step of the loop counts it as set. */
  lemma WireSlot(links: seq<seq<Option<nat>>>, columns: nat, rows: nat, k: nat, q: nat, s: nat)
    requires 0 < rows && Slotted(links, columns * rows) && k < columns * rows && q < columns * rows && s < 4
    requires links[q][s] == LinkAfter(columns, rows, k, q, s)
    ensures Wire(links, columns, rows, k)[q][s] == LinkAfter(columns, rows, k + 1, q, s)
  {
    Coordinates(columns, rows, k);
    BorderSlots(columns, rows, k);
    if q == k + rows {
      if k / rows == columns - 1 {
        LastColumn(columns, rows, k);
      } else {
        BackLinkRight(columns, rows, k);
      }
    }
    if q == k + 1 {
      BorderSlots(columns, rows, k + 1);
      DivModSucc(k, rows);
      if k % rows != rows - 1 {
        BackLinkDown(columns, rows, k);
      }
    }
  }

  /** Wiring piece `k` takes the slots from one step of the loop to the next. */
  lemma WireLinks(links: seq<seq<Option<nat>>>, columns: nat, rows: nat, k: nat)
    requires LinkedTo(links, columns, rows, k) && k < columns * rows
    ensures LinkedTo(Wire(links, columns, rows, k), columns, rows, k + 1)
  {
    forall q, s | 0 <= q < columns * rows && 0 <= s < 4
      ensures Wire(links, columns, rows, k)[q][s] == LinkAfter(columns, rows, k + 1, q, s)
    {
      WireSlot(links, columns, rows, k, q, s);
    }
  }

  /** After the loop every slot holds the lattice neighbour. */
  lemma LinkedDone(links: seq<seq<Option<nat>>>, columns: nat, rows: nat)
    requires LinkedTo(links, columns, rows, columns * rows)
    ensures forall q :: 0 <= q < |links| ==> links[q] == Slots(columns, rows, q)
  {
    forall q | 0 <= q < |links|
      ensures links[q] == Slots(columns, rows, q)
    {
      assert forall s :: 0 <= s < 4 ==> Linked(q, s, columns * rows, rows);
    }
  }

  /** The cut buffers are roomy enough for the tabs. */
  lemma CutRoomy(ps: seq<Piece>, columns: nat, rows: nat)
    requires Cut(ps, columns, rows)
    ensures AllRoomy(Pictures(ps))
  {
  }

  /** Buffers that differ from `before` only by the transfer `t` are its `Move`. */
  lemma MoveIs(before: seq<seq<seq<int>>>, after: seq<seq<seq<int>>>, t: Tab)
    requires AllRoomy(before) && TabFits(before, t) && |after| == |before|
    requires after[t.from] == Hollow(before[t.from], t.cx, t.cy, t.r)
    requires after[t.to] == Fill(before[t.to], before[t.from], t.cx, t.cy, t.cx2, t.cy2, t.r)
    requires forall q :: 0 <= q < |before| && q != t.from && q != t.to ==> after[q] == before[q]
    ensures after == Move(before, t)
  {
  }

  /** `transfer` between two pieces of `ps`, as a step on the buffers of all pieces. */
  method MoveBetween(ps: seq<Piece>, t: Tab)
    requires Apart(ps) && AllRoomy(Pictures(ps)) && TabFits(Pictures(ps), t)
    modifies ps[t.from].picture, ps[t.to].picture
    ensures Pictures(ps) == Move(old(Pictures(ps)), t)
  {
    ghost var before := Pictures(ps);
    Transfer(t.r, t.cx, t.cy, ps[t.from], ps[t.to], t.cx2, t.cy2);
    MoveIs(before, Pictures(ps), t);
  }

  /** Away from the last column, both discs of the right-hand tab lie inside their buffers. */
  lemma RightFits(pics: seq<seq<seq<int>>>, d: Draws, columns: nat, rows: nat, k: nat)
    requires 0 < rows && |pics| == columns * rows && k < |pics| && Drawn(d, |pics|) && AllRoomy(pics)
    requires k / rows != columns - 1
    ensures k + rows < |pics|
    ensures TabFits(pics, RightTab(d, rows, k, |pics[k]|, Height(pics[k]), Height(pics[k + rows])))
  {
    Coordinates(columns, rows, k);
  }

  /**
   * The right-hand tab of piece `k` (Puzzle.java:212-223): unless `k` is in
   * the last column, a disc of pixels moves between its right edge and the
   * left edge of piece `k + rows`, in the direction the draw chose.
   */
  method TabRight(ps: seq<Piece>, d: Draws, columns: nat, rows: nat, k: nat)
    requires 0 < rows && |ps| == columns * rows && Drawn(d, |ps|) && k < |ps|
    requires Apart(ps) && AllRoomy(Pictures(ps)) && forall q :: 0 <= q < |ps| ==> ps[q].Valid()
    modifies Frames(ps)
    ensures Pictures(ps) == CarveRight(old(Pictures(ps)), d, columns, rows, k)
  {
    ghost var before := Pictures(ps);
    Coordinates(columns, rows, k);
    if k / rows != columns - 1 {
      RightFits(before, d, columns, rows, k);
      var c, right := ps[k], ps[k + rows];
      MoveBetween(ps, RightTab(d, rows, k, c.width, c.height, right.height));
    }
  }

  /** Away from the last row, both discs of the lower tab lie inside their buffers. */
  lemma DownFits(pics: seq<seq<seq<int>>>, d: Draws, columns: nat, rows: nat, k: nat)
    requires 0 < rows && |pics| == columns * rows && k < |pics| && Drawn(d, |pics|) && AllRoomy(pics)
    requires k % rows != rows - 1
    ensures k + 1 < |pics|
    ensures TabFits(pics, DownTab(d, k, |pics[k]|, Height(pics[k]), |pics[k + 1]|))
  {
    Coordinates(columns, rows, k);
  }

  /**
   * The lower tab of piece `k` (Puzzle.java:224-235): unless `k` is in the
   * last row, a disc of pixels moves between its bottom edge and the top
   * edge of piece `k + 1`, in the direction the draw chose.
   */
  method TabDown(ps: seq<Piece>, d: Draws, columns: nat, rows: nat, k: nat)
    requires 0 < rows && |ps| == columns * rows && Drawn(d, |ps|) && k < |ps|
    requires Apart(ps) && AllRoomy(Pictures(ps)) && forall q :: 0 <= q < |ps| ==> ps[q].Valid()
    modifies Frames(ps)
    ensures Pictures(ps) == CarveDown(old(Pictures(ps)), d, columns, rows, k)
  {
    ghost var before := Pictures(ps);
    Coordinates(columns, rows, k);
    if k % rows != rows - 1 {
      DownFits(before, d, columns, rows, k);
      var c, down := ps[k], ps[k + 1];
      MoveBetween(ps, DownTab(d, k, c.width, c.height, down.width));
    }
  }

  /** Both tabs of piece `k` (Puzzle.java:212-235), the right-hand one first; the drawn images stay as they were. */
  method CarveTabs(ps: seq<Piece>, d: Draws, columns: nat, rows: nat, k: nat)
    requires 0 < rows && |ps| == columns * rows && Drawn(d, |ps|) && k < |ps|
    requires Apart(ps) && AllRoomy(Pictures(ps)) && forall q :: 0 <= q < |ps| ==> ps[q].Valid()
    modifies Frames(ps)
    ensures Pictures(ps) == CarveStep(old(Pictures(ps)), d, columns, rows, k)
    ensures Drawings(ps) == old(Drawings(ps))
  {
    TabRight(ps, d, columns, rows, k);
    TabDown(ps, d, columns, rows, k);
  }

  /** The drawn image of every piece, by id. */
  ghost function Drawings(ps: seq<Piece>): (m: seq<seq<seq<int>>>)
    reads Images(ps)
    ensures |m| == |ps| && forall q :: 0 <= q < |ps| ==> m[q] == Snapshot(ps[q].pic)
  {
    seq(|ps|, q requires 0 <= q < |ps| reads Images(ps) => Snapshot(ps[q].pic))
  }

  /**
   * The images once the carving loop has visited pieces `0` to `k - 1`:
   * each visited piece shows its picture drawn over a blank background, the
   * others are still blank.
   */
  ghost predicate Painted(pics: seq<seq<seq<int>>>, imgs: seq<seq<seq<int>>>, k: nat)
  {
    && AllRoomy(pics) && |imgs| == |pics| && k <= |pics|
    && forall q :: 0 <= q < |pics| ==>
         imgs[q] == if q < k then Overlay(Zeros(|pics[q]|, Height(pics[q])), pics[q]) else Zeros(|pics[q]|, Height(pics[q]))
  }

  /** Freshly cut pieces, whose images are all blank, have painted none of them. */
  lemma BlankPainted(ps: seq<Piece>, columns: nat, rows: nat)
    requires Cut(ps, columns, rows) && forall q :: 0 <= q < |ps| ==> ps[q].Blank()
    ensures Painted(Pictures(ps), Drawings(ps), 0)
  {
    CutRoomy(ps, columns, rows);
    var pics, imgs := Pictures(ps), Drawings(ps);
    forall q | 0 <= q < |ps|
      ensures imgs[q] == Zeros(|pics[q]|, Height(pics[q]))
    {
      SameMatrix(imgs[q], Zeros(|pics[q]|, Height(pics[q])));
    }
  }

  /** Once every piece is painted, each shows its own picture. */
  lemma PaintedShows(ps: seq<Piece>)
    requires forall q :: 0 <= q < |ps| ==> ps[q].Valid()
    requires Painted(Pictures(ps), Drawings(ps), |ps|)
    ensures forall q :: 0 <= q < |ps| ==> ps[q].Shows()
  {
    forall q | 0 <= q < |ps|
      ensures ps[q].Shows()
    {
      assert Roomy(Pictures(ps)[q]);
    }
  }

  /** Visiting piece `k` carves its tabs and draws its image, which is then final. */
  lemma PaintStep(pics: seq<seq<seq<int>>>, imgs: seq<seq<seq<int>>>, d: Draws, columns: nat, rows: nat, k: nat)
    requires 0 < rows && |pics| == columns * rows && k < |pics| && Drawn(d, |pics|) && Painted(pics, imgs, k)
    ensures var p := CarveStep(pics, d, columns, rows, k);
            Painted(p, imgs[k := Overlay(imgs[k], p[k])], k + 1)
  {
  }

  /**
   * One pass of the carving loop (Puzzle.java:203-236): piece `k` is linked
   * to its right-hand and lower neighbours, its two tabs are carved and its
   * image is drawn.
   */
  method Visit(ps: seq<Piece>, d: Draws, links: seq<seq<Option<nat>>>, columns: nat, rows: nat, k: nat)
    returns (links': seq<seq<Option<nat>>>)
    requires 0 < rows && |ps| == columns * rows && Drawn(d, |ps|) && k < |ps| && Slotted(links, |ps|)
    requires Apart(ps) && forall q :: 0 <= q < |ps| ==> ps[q].Valid()
    requires Painted(Pictures(ps), Drawings(ps), k)
    modifies Frames(ps), ps[k].pic
    ensures links' == Wire(links, columns, rows, k)
    ensures Pictures(ps) == CarveStep(old(Pictures(ps)), d, columns, rows, k)
    ensures Painted(Pictures(ps), Drawings(ps), k + 1)
  {
    ghost var pics0, imgs0 := Pictures(ps), Drawings(ps);
    links' := Wire(links, columns, rows, k);
    CarveTabs(ps, d, columns, rows, k);
    ghost var pics2 := Pictures(ps);
    ps[k].UpdateImage();
    assert Pictures(ps) == pics2;
    assert Drawings(ps) == imgs0[k := Overlay(imgs0[k], pics2[k])];
    PaintStep(pics0, imgs0, d, columns, rows, k);
  }

  /** One more visit of the carving loop is one more `CarveStep`. */
  lemma CarvingStep(pics: seq<seq<seq<int>>>, cur: seq<seq<seq<int>>>, d: Draws, columns: nat, rows: nat, k: nat)
    requires 0 < rows && |pics| == columns * rows && k < |pics| && Drawn(d, |pics|) && AllRoomy(pics)
    requires cur == Carving(pics, d, columns, rows, k)
    ensures Carving(pics, d, columns, rows, k + 1) == CarveStep(cur, d, columns, rows, k)
  {
  }

  /** The carving loop visits one column: the `rows` pieces from id `start` on, top to bottom. */
  method CarveColumn(ps: seq<Piece>, d: Draws, links: seq<seq<Option<nat>>>, columns: nat, rows: nat,
                     start: nat, stop: nat, ghost pics: seq<seq<seq<int>>>)
    returns (links': seq<seq<Option<nat>>>)
    requires 0 < rows && |ps| == columns * rows && Drawn(d, |ps|) && stop == start + rows <= |ps|
    requires Apart(ps) && forall q :: 0 <= q < |ps| ==> ps[q].Valid()
    requires |pics| == |ps| && AllRoomy(pics) && Pictures(ps) == Carving(pics, d, columns, rows, start)
    requires Painted(Pictures(ps), Drawings(ps), start) && LinkedTo(links, columns, rows, start)
    modifies Frames(ps), Images(ps)
    ensures Pictures(ps) == Carving(pics, d, columns, rows, stop)
    ensures Painted(Pictures(ps), Drawings(ps), stop) && LinkedTo(links', columns, rows, stop)
  {
    links' := links;
    for k := start to stop
      invariant Pictures(ps) == Carving(pics, d, columns, rows, k)
      invariant Painted(Pictures(ps), Drawings(ps), k) && LinkedTo(links', columns, rows, k)
    {
      assert ps[k].pic in Images(ps);
      links' := VisitNext(ps, d, links', columns, rows, k, pics);
    }
  }

  /** The visit of piece `k` takes the carving, the drawing and the linking from `k` pieces to `k + 1`. */
  method VisitNext(ps: seq<Piece>, d: Draws, links: seq<seq<Option<nat>>>, columns: nat, rows: nat, k: nat,
                   ghost pics: seq<seq<seq<int>>>)
    returns (links': seq<seq<Option<nat>>>)
    requires 0 < rows && |ps| == columns * rows && Drawn(d, |ps|) && k < |ps|
    requires Apart(ps) && forall q :: 0 <= q < |ps| ==> ps[q].Valid()
    requires |pics| == |ps| && AllRoomy(pics) && Pictures(ps) == Carving(pics, d, columns, rows, k)
    requires Painted(Pictures(ps), Drawings(ps), k) && LinkedTo(links, columns, rows, k)
    modifies Frames(ps), ps[k].pic
    ensures Pictures(ps) == Carving(pics, d, columns, rows, k + 1)
    ensures Painted(Pictures(ps), Drawings(ps), k + 1) && LinkedTo(links', columns, rows, k + 1)
  {
    ghost var cur := Pictures(ps);
    links' := Visit(ps, d, links, columns, rows, k);
    WireLinks(links, columns, rows, k);
    CarvingStep(pics, cur, d, columns, rows, k);
  }

  /**
   * The second loop of loading (Puzzle.java:204-239): visits every piece,
   * column by column, linking it to its neighbours, carving its tabs and
   * drawing its image. The links start empty.
   */
  method CarveAll(ps: seq<Piece>, d: Draws, columns: nat, rows: nat) returns (links: seq<seq<Option<nat>>>)
    requires 0 < rows && |ps| == columns * rows && Drawn(d, |ps|)
    requires Apart(ps) && forall q :: 0 <= q < |ps| ==> ps[q].Valid()
    requires Painted(Pictures(ps), Drawings(ps), 0)
    modifies Frames(ps), Images(ps)
    ensures Pictures(ps) == Carving(old(Pictures(ps)), d, columns, rows, |ps|)
    ensures Painted(Pictures(ps), Drawings(ps), |ps|)
    ensures |links| == |ps| && forall q :: 0 <= q < |ps| ==> links[q] == Slots(columns, rows, q)
  {
    ghost var pics := Pictures(ps);
    links := Unlinked(columns * rows);
    LinkedStart(columns, rows);
    var start := 0;
    for i := 0 to columns
      invariant start == i * rows <= |ps|
      invariant Pictures(ps) == Carving(pics, d, columns, rows, start)
      invariant Painted(Pictures(ps), Drawings(ps), start) && LinkedTo(links, columns, rows, start)
    {
      MulNext(i, rows, columns);
      var stop := start + rows;
      links := CarveColumn(ps, d, links, columns, rows, start, stop, pics);
      start := stop;
    }
    assert start == |ps|;
    LinkedDone(links, columns, rows);
  }

  /**
   * The buffer of a cell of at least `ColumnPixels` x `RowPixels` pixels
   * with its margins: no tab disc reaches a margin other than the one it
   * is carved at.
   */
  ghost predicate Ample(m: seq<seq<int>>)
  {
    IsRect(m) && |m| >= Margin + ColumnPixels + Margin && Height(m) >= Margin + RowPixels + Margin
  }

  ghost predicate AllAmple(pics: seq<seq<seq<int>>>)
  {
    forall q :: 0 <= q < |pics| ==> Ample(pics[q])
  }

  /** Buffers that keep their sizes stay ample. */
  lemma KeptAmple(before: seq<seq<seq<int>>>, after: seq<seq<seq<int>>>)
    requires AllAmple(before) && Kept(before, after)
    ensures AllAmple(after)
  {
  }

  /**
   * The margins of piece `q` that the first `s` tab moves of carving leave
   * transparent. Move `2 * k` is the right-hand tab of piece `k` and move
   * `2 * k + 1` its lower tab, so the left margin of `q` is reached by move
   * `2 * (q - rows)`, its right margin by move `2 * q`, its top margin by
   * move `2 * q - 1` and its bottom margin by move `2 * q + 1`. A piece of
   * the first column has no tab on its left and one of the first row none
   * on its top.
   */
  ghost predicate MarginsClear(m: seq<seq<int>>, q: nat, rows: nat, s: nat)
    requires 0 < rows
  {
    && (q < rows || s <= 2 * (q - rows) ==> ClearColumns(m, 0, Margin))
    && (s <= 2 * q ==> ClearColumns(m, |m| - Margin, |m|))
    && (q % rows == 0 || s < 2 * q ==> ClearRows(m, 0, Margin))
    && (s <= 2 * q + 1 ==> ClearRows(m, Height(m) - Margin, Height(m)))
  }

  /** The margins of every piece are as `MarginsClear` says after `s` moves. */
  ghost predicate Untouched(pics: seq<seq<seq<int>>>, rows: nat, s: nat)
    requires 0 < rows
  {
    forall q {:trigger MarginsClear(pics[q], q, rows, s)} :: 0 <= q < |pics| ==> MarginsClear(pics[q], q, rows, s)
  }

  /** A margin that later moves leave clear is one that earlier moves leave clear too. */
  lemma MarginsLater(m: seq<seq<int>>, q: nat, rows: nat, s: nat, s': nat)
    requires 0 < rows && s <= s' && MarginsClear(m, q, rows, s)
    ensures MarginsClear(m, q, rows, s')
  {
  }

  /** Hollowing out a disc keeps every clear margin clear. */
  lemma HollowMargins(m: seq<seq<int>>, cx: int, cy: int, r: int, q: nat, rows: nat, s: nat, s': nat)
    requires 0 < rows && Ample(m) && s <= s' && MarginsClear(m, q, rows, s)
    ensures MarginsClear(Hollow(m, cx, cy, r), q, rows, s')
  {
    HollowKeepsClear(m, cx, cy, r, 0, Margin);
    HollowKeepsClear(m, cx, cy, r, |m| - Margin, |m|);
    HollowKeepsClear(m, cx, cy, r, Height(m) - Margin, Height(m));
  }

  /**
   * A fill centred on the left or right margin, within `Radius` of half the
   * height, keeps the top and bottom margins and the opposite side margin.
   */
  lemma SideFilled(dst: seq<seq<int>>, src: seq<seq<int>>, cx: int, cy: int, cx2: int, cy2: int, r: int)
    requires IsRect(src) && DiscFits(|src|, Height(src), cx, cy, r) && Ample(dst) && 0 <= r <= Radius
    requires (cx2 == Margin || cx2 == |dst| - Margin) && Height(dst) / 2 - Radius <= cy2 < Height(dst) / 2 + Radius
    ensures var m := Fill(dst, src, cx, cy, cx2, cy2, r);
            && Ample(m) && |m| == |dst| && Height(m) == Height(dst)
            && (ClearRows(dst, 0, Margin) ==> ClearRows(m, 0, Margin))
            && (ClearRows(dst, Height(dst) - Margin, Height(dst)) ==> ClearRows(m, Height(dst) - Margin, Height(dst)))
            && (cx2 == Margin && ClearColumns(dst, |dst| - Margin, |dst|) ==> ClearColumns(m, |dst| - Margin, |dst|))
            && (cx2 != Margin && ClearColumns(dst, 0, Margin) ==> ClearColumns(m, 0, Margin))
  {
    var h := Height(dst);
    if ClearRows(dst, 0, Margin) {
      FillKeepsRows(dst, src, cx, cy, cx2, cy2, r, 0, Margin);
    }
    if ClearRows(dst, h - Margin, h) {
      FillKeepsRows(dst, src, cx, cy, cx2, cy2, r, h - Margin, h);
    }
    if cx2 == Margin && ClearColumns(dst, |dst| - Margin, |dst|) {
      FillKeepsColumns(dst, src, cx, cy, cx2, cy2, r, |dst| - Margin, |dst|);
    }
    if cx2 != Margin && ClearColumns(dst, 0, Margin) {
      FillKeepsColumns(dst, src, cx, cy, cx2, cy2, r, 0, Margin);
    }
  }

  /**
   * A fill centred on the top or bottom margin, within `Radius` of half the
   * width, keeps the two side margins and the opposite end margin.
   */
  lemma EndFilled(dst: seq<seq<int>>, src: seq<seq<int>>, cx: int, cy: int, cx2: int, cy2: int, r: int)
    requires IsRect(src) && DiscFits(|src|, Height(src), cx, cy, r) && Ample(dst) && 0 <= r <= Radius
    requires (cy2 == Margin || cy2 == Height(dst) - Margin) && |dst| / 2 - Radius <= cx2 < |dst| / 2 + Radius
    ensures var m := Fill(dst, src, cx, cy, cx2, cy2, r);
            && Ample(m) && |m| == |dst| && Height(m) == Height(dst)
            && (ClearColumns(dst, 0, Margin) ==> ClearColumns(m, 0, Margin))
            && (ClearColumns(dst, |dst| - Margin, |dst|) ==> ClearColumns(m, |dst| - Margin, |dst|))
            && (cy2 == Margin && ClearRows(dst, Height(dst) - Margin, Height(dst)) ==> ClearRows(m, Height(dst) - Margin, Height(dst)))
            && (cy2 != Margin && ClearRows(dst, 0, Margin) ==> ClearRows(m, 0, Margin))
  {
    var h := Height(dst);
    if ClearColumns(dst, 0, Margin) {
      FillKeepsColumns(dst, src, cx, cy, cx2, cy2, r, 0, Margin);
    }
    if ClearColumns(dst, |dst| - Margin, |dst|) {
      FillKeepsColumns(dst, src, cx, cy, cx2, cy2, r, |dst| - Margin, |dst|);
    }
    if cy2 == Margin && ClearRows(dst, h - Margin, h) {
      FillKeepsRows(dst, src, cx, cy, cx2, cy2, r, h - Margin, h);
    }
    if cy2 != Margin && ClearRows(dst, 0, Margin) {
      FillKeepsRows(dst, src, cx, cy, cx2, cy2, r, 0, Margin);
    }
  }

  /** Every pixel the move `t` carries lands on a transparent pixel of its recipient. */
  ghost predicate OntoTransparent(pics: seq<seq<seq<int>>>, t: Tab)
    requires AllRoomy(pics) && TabFits(pics, t)
  {
    forall i, j :: InDisc(i, j, t.r) && pics[t.from][t.cx + i][t.cy + j] != Transparent ==>
      pics[t.to][t.cx2 + i][t.cy2 + j] == Transparent
  }

  /** A move that overwrites no visible pixel keeps the number of visible pixels of all buffers together. */
  lemma MoveConserves(pics: seq<seq<seq<int>>>, t: Tab)
    requires AllRoomy(pics) && TabFits(pics, t) && OntoTransparent(pics, t)
    ensures TotalVisible(Move(pics, t)) == TotalVisible(pics)
  {
    var donor, recipient := pics[t.from], pics[t.to];
    TransferConserves(donor, recipient, t.cx, t.cy, t.cx2, t.cy2, t.r);
    TotalSwap(pics, t.from, t.to, Hollow(donor, t.cx, t.cy, t.r), Fill(recipient, donor, t.cx, t.cy, t.cx2, t.cy2, t.r));
  }

  /**
   * The right-hand tab of piece `k` takes its pixels from a side margin
   * whose opposite half is clear and puts them into a clear side margin.
   */
  lemma RightOnto(pics: seq<seq<seq<int>>>, d: Draws, columns: nat, rows: nat, k: nat, t: Tab)
    requires 0 < rows && |pics| == columns * rows && k < |pics| && Drawn(d, |pics|) && AllRoomy(pics) && AllAmple(pics)
    requires k / rows != columns - 1 && k + rows < |pics| && Untouched(pics, rows, 2 * k)
    requires t == RightTab(d, rows, k, |pics[k]|, Height(pics[k]), Height(pics[k + rows]))
    ensures TabFits(pics, t) && OntoTransparent(pics, t)
  {
    RightFits(pics, d, columns, rows, k);
    var a, b := pics[k], pics[k + rows];
    assert MarginsClear(a, k, rows, 2 * k) && MarginsClear(b, k + rows, rows, 2 * k);
    if d.flipRight[k] {
      LandsAcrossColumns(b, a, t.cx, t.cy, t.cx2, t.cy2, t.r, 0, Margin, |a| - Margin, |a|);
    } else {
      LandsAcrossColumns(a, b, t.cx, t.cy, t.cx2, t.cy2, t.r, |a| - Margin, |a|, 0, Margin);
    }
  }

  /**
   * The lower tab of piece `k` takes its pixels from an end margin whose
   * opposite half is clear and puts them into a clear end margin.
   */
  lemma DownOnto(pics: seq<seq<seq<int>>>, d: Draws, columns: nat, rows: nat, k: nat, t: Tab)
    requires 0 < rows && |pics| == columns * rows && k < |pics| && Drawn(d, |pics|) && AllRoomy(pics) && AllAmple(pics)
    requires k % rows != rows - 1 && k + 1 < |pics| && Untouched(pics, rows, 2 * k + 1)
    requires t == DownTab(d, k, |pics[k]|, Height(pics[k]), |pics[k + 1]|)
    ensures TabFits(pics, t) && OntoTransparent(pics, t)
  {
    DownFits(pics, d, columns, rows, k);
    var a, b := pics[k], pics[k + 1];
    assert MarginsClear(a, k, rows, 2 * k + 1) && MarginsClear(b, k + 1, rows, 2 * k + 1);
    if d.flipDown[k] {
      LandsAcrossRows(b, a, t.cx, t.cy, t.cx2, t.cy2, t.r, 0, Margin, Height(a) - Margin, Height(a));
    } else {
      LandsAcrossRows(a, b, t.cx, t.cy, t.cx2, t.cy2, t.r, Height(a) - Margin, Height(a), 0, Margin);
    }
  }

  /** No change to the buffers keeps what earlier moves leave clear. */
  lemma UntouchedLater(pics: seq<seq<seq<int>>>, rows: nat, s: nat, s': nat)
    requires 0 < rows && s <= s' && Untouched(pics, rows, s)
    ensures Untouched(pics, rows, s')
  {
    forall q | 0 <= q < |pics|
      ensures MarginsClear(pics[q], q, rows, s')
    {
      MarginsLater(pics[q], q, rows, s, s');
    }
  }

  /** A move whose recipient keeps the margins the next stage needs keeps every piece's margins. */
  lemma MoveUntouched(pics: seq<seq<seq<int>>>, t: Tab, rows: nat, s: nat, s': nat)
    requires 0 < rows && AllRoomy(pics) && AllAmple(pics) && TabFits(pics, t) && s <= s' && Untouched(pics, rows, s)
    requires MarginsClear(Fill(pics[t.to], pics[t.from], t.cx, t.cy, t.cx2, t.cy2, t.r), t.to, rows, s')
    ensures Untouched(Move(pics, t), rows, s')
  {
    var p := Move(pics, t);
    forall q | 0 <= q < |p|
      ensures MarginsClear(p[q], q, rows, s')
    {
      if q == t.from {
        HollowMargins(pics[q], t.cx, t.cy, t.r, q, rows, s, s');
      } else if q != t.to {
        MarginsLater(p[q], q, rows, s, s');
      }
    }
  }

  /** The recipient of the right-hand tab of piece `k` keeps the margins the next stage needs. */
  lemma RightRecipient(pics: seq<seq<seq<int>>>, d: Draws, columns: nat, rows: nat, k: nat, t: Tab)
    requires 0 < rows && |pics| == columns * rows && k < |pics| && Drawn(d, |pics|) && AllRoomy(pics) && AllAmple(pics)
    requires k / rows != columns - 1 && k + rows < |pics| && Untouched(pics, rows, 2 * k)
    requires t == RightTab(d, rows, k, |pics[k]|, Height(pics[k]), Height(pics[k + rows]))
    ensures TabFits(pics, t) && MarginsClear(Fill(pics[t.to], pics[t.from], t.cx, t.cy, t.cx2, t.cy2, t.r), t.to, rows, 2 * k + 1)
  {
    RightFits(pics, d, columns, rows, k);
    assert MarginsClear(pics[t.to], t.to, rows, 2 * k);
    SideFilled(pics[t.to], pics[t.from], t.cx, t.cy, t.cx2, t.cy2, t.r);
  }

  /** The recipient of the lower tab of piece `k` keeps the margins the next stage needs. */
  lemma DownRecipient(pics: seq<seq<seq<int>>>, d: Draws, columns: nat, rows: nat, k: nat, t: Tab)
    requires 0 < rows && |pics| == columns * rows && k < |pics| && Drawn(d, |pics|) && AllRoomy(pics) && AllAmple(pics)
    requires k % rows != rows - 1 && k + 1 < |pics| && Untouched(pics, rows, 2 * k + 1)
    requires t == DownTab(d, k, |pics[k]|, Height(pics[k]), |pics[k + 1]|)
    ensures TabFits(pics, t) && MarginsClear(Fill(pics[t.to], pics[t.from], t.cx, t.cy, t.cx2, t.cy2, t.r), t.to, rows, 2 * k + 2)
  {
    DownFits(pics, d, columns, rows, k);
    Coordinates(columns, rows, k);
    DivModSucc(k, rows);
    assert MarginsClear(pics[t.to], t.to, rows, 2 * k + 1);
    EndFilled(pics[t.to], pics[t.from], t.cx, t.cy, t.cx2, t.cy2, t.r);
  }

  /** The right-hand tab of piece `k` keeps the total of visible pixels. */
  lemma RightTotal(pics: seq<seq<seq<int>>>, d: Draws, columns: nat, rows: nat, k: nat, t: Tab)
    requires 0 < rows && |pics| == columns * rows && k < |pics| && Drawn(d, |pics|) && AllRoomy(pics) && AllAmple(pics)
    requires k / rows != columns - 1 && k + rows < |pics| && Untouched(pics, rows, 2 * k)
    requires t == RightTab(d, rows, k, |pics[k]|, Height(pics[k]), Height(pics[k + rows]))
    ensures TabFits(pics, t) && TotalVisible(Move(pics, t)) == TotalVisible(pics)
  {
    RightOnto(pics, d, columns, rows, k, t);
    MoveConserves(pics, t);
  }

  /** The lower tab of piece `k` keeps the total of visible pixels. */
  lemma DownTotal(pics: seq<seq<seq<int>>>, d: Draws, columns: nat, rows: nat, k: nat, t: Tab)
    requires 0 < rows && |pics| == columns * rows && k < |pics| && Drawn(d, |pics|) && AllRoomy(pics) && AllAmple(pics)
    requires k % rows != rows - 1 && k + 1 < |pics| && Untouched(pics, rows, 2 * k + 1)
    requires t == DownTab(d, k, |pics[k]|, Height(pics[k]), |pics[k + 1]|)
    ensures TabFits(pics, t) && TotalVisible(Move(pics, t)) == TotalVisible(pics)
  {
    DownOnto(pics, d, columns, rows, k, t);
    MoveConserves(pics, t);
  }

  /** The right-hand tab of piece `k` reaches only the margins it is carved at. */
  lemma RightUntouched(pics: seq<seq<seq<int>>>, d: Draws, columns: nat, rows: nat, k: nat, t: Tab)
    requires 0 < rows && |pics| == columns * rows && k < |pics| && Drawn(d, |pics|) && AllRoomy(pics) && AllAmple(pics)
    requires k / rows != columns - 1 && k + rows < |pics| && Untouched(pics, rows, 2 * k)
    requires t == RightTab(d, rows, k, |pics[k]|, Height(pics[k]), Height(pics[k + rows]))
    ensures TabFits(pics, t) && Untouched(Move(pics, t), rows, 2 * k + 1)
  {
    RightRecipient(pics, d, columns, rows, k, t);
    MoveUntouched(pics, t, rows, 2 * k, 2 * k + 1);
  }

  /** The lower tab of piece `k` reaches only the margins it is carved at. */
  lemma DownUntouched(pics: seq<seq<seq<int>>>, d: Draws, columns: nat, rows: nat, k: nat, t: Tab)
    requires 0 < rows && |pics| == columns * rows && k < |pics| && Drawn(d, |pics|) && AllRoomy(pics) && AllAmple(pics)
    requires k % rows != rows - 1 && k + 1 < |pics| && Untouched(pics, rows, 2 * k + 1)
    requires t == DownTab(d, k, |pics[k]|, Height(pics[k]), |pics[k + 1]|)
    ensures TabFits(pics, t) && Untouched(Move(pics, t), rows, 2 * k + 2)
  {
    DownRecipient(pics, d, columns, rows, k, t);
    MoveUntouched(pics, t, rows, 2 * k + 1, 2 * k + 2);
  }

  /** Carrying the right-hand tab of piece `k` keeps the total of visible pixels and reaches only the margins it is carved at. */
  lemma RightMoved(pics: seq<seq<seq<int>>>, d: Draws, columns: nat, rows: nat, k: nat, t: Tab)
    requires 0 < rows && |pics| == columns * rows && k < |pics| && Drawn(d, |pics|) && AllRoomy(pics) && AllAmple(pics)
    requires k / rows != columns - 1 && k + rows < |pics| && Untouched(pics, rows, 2 * k)
    requires t == RightTab(d, rows, k, |pics[k]|, Height(pics[k]), Height(pics[k + rows]))
    ensures TabFits(pics, t)
    ensures Untouched(Move(pics, t), rows, 2 * k + 1) && TotalVisible(Move(pics, t)) == TotalVisible(pics)
  {
    RightTotal(pics, d, columns, rows, k, t);
    RightUntouched(pics, d, columns, rows, k, t);
  }

  /** Carrying the lower tab of piece `k` keeps the total of visible pixels and reaches only the margins it is carved at. */
  lemma DownMoved(pics: seq<seq<seq<int>>>, d: Draws, columns: nat, rows: nat, k: nat, t: Tab)
    requires 0 < rows && |pics| == columns * rows && k < |pics| && Drawn(d, |pics|) && AllRoomy(pics) && AllAmple(pics)
    requires k % rows != rows - 1 && k + 1 < |pics| && Untouched(pics, rows, 2 * k + 1)
    requires t == DownTab(d, k, |pics[k]|, Height(pics[k]), |pics[k + 1]|)
    ensures TabFits(pics, t)
    ensures Untouched(Move(pics, t), rows, 2 * k + 2) && TotalVisible(Move(pics, t)) == TotalVisible(pics)
  {
    DownTotal(pics, d, columns, rows, k, t);
    DownUntouched(pics, d, columns, rows, k, t);
  }

  /** The right-hand tab of piece `k`, if it has one, keeps the total of visible pixels and reaches only the margins it is carved at. */
  lemma RightKeeps(pics: seq<seq<seq<int>>>, d: Draws, columns: nat, rows: nat, k: nat)
    requires 0 < rows && |pics| == columns * rows && k < |pics| && Drawn(d, |pics|) && AllRoomy(pics) && AllAmple(pics)
    requires Untouched(pics, rows, 2 * k)
    ensures AllAmple(CarveRight(pics, d, columns, rows, k))
    ensures Untouched(CarveRight(pics, d, columns, rows, k), rows, 2 * k + 1)
    ensures TotalVisible(CarveRight(pics, d, columns, rows, k)) == TotalVisible(pics)
  {
    var p := CarveRight(pics, d, columns, rows, k);
    KeptAmple(pics, p);
    Coordinates(columns, rows, k);
    if k / rows == columns - 1 {
      UntouchedLater(pics, rows, 2 * k, 2 * k + 1);
    } else {
      var t := RightTab(d, rows, k, |pics[k]|, Height(pics[k]), Height(pics[k + rows]));
      RightMoved(pics, d, columns, rows, k, t);
    }
  }

  /** The lower tab of piece `k`, if it has one, keeps the total of visible pixels and reaches only the margins it is carved at. */
  lemma DownKeeps(pics: seq<seq<seq<int>>>, d: Draws, columns: nat, rows: nat, k: nat)
    requires 0 < rows && |pics| == columns * rows && k < |pics| && Drawn(d, |pics|) && AllRoomy(pics) && AllAmple(pics)
    requires Untouched(pics, rows, 2 * k + 1)
    ensures AllAmple(CarveDown(pics, d, columns, rows, k))
    ensures Untouched(CarveDown(pics, d, columns, rows, k), rows, 2 * k + 2)
    ensures TotalVisible(CarveDown(pics, d, columns, rows, k)) == TotalVisible(pics)
  {
    var p := CarveDown(pics, d, columns, rows, k);
    KeptAmple(pics, p);
    Coordinates(columns, rows, k);
    if k % rows == rows - 1 {
      UntouchedLater(pics, rows, 2 * k + 1, 2 * k + 2);
    } else {
      var t := DownTab(d, k, |pics[k]|, Height(pics[k]), |pics[k + 1]|);
      DownMoved(pics, d, columns, rows, k, t);
    }
  }

  /** The buffer of a cell of at least `ColumnPixels` x `RowPixels` pixels is ample, with all four margins clear. */
  lemma CellClear(img: seq<seq<int>>, left: nat, top: nat, pieceWidth: nat, pieceHeight: nat)
    requires IsRect(img) && left + pieceWidth <= |img| && top + pieceHeight <= Height(img)
    requires ColumnPixels <= pieceWidth && RowPixels <= pieceHeight
    ensures var m := Cell(img, left, top, pieceWidth, pieceHeight, Margin);
            && Ample(m) && ClearColumns(m, 0, Margin) && ClearColumns(m, |m| - Margin, |m|)
            && ClearRows(m, 0, Margin) && ClearRows(m, Height(m) - Margin, Height(m))
  {
  }

  /** Right after cutting, every buffer is ample and every margin clear. */
  lemma CutsUntouched(img: seq<seq<int>>, ew: seq<int>, eh: seq<int>, columns: nat, rows: nat)
    requires Lattice(img, ew, eh, columns, rows)
    requires Spaced(ew, |img|, ColumnPixels) && Spaced(eh, Height(img), RowPixels)
    ensures AllAmple(Cuts(img, ew, eh, columns, rows)) && Untouched(Cuts(img, ew, eh, columns, rows), rows, 0)
  {
    var pics := Cuts(img, ew, eh, columns, rows);
    forall q | 0 <= q < |pics|
      ensures Ample(pics[q]) && MarginsClear(pics[q], q, rows, 0)
    {
      Coordinates(columns, rows, q);
      var i, j := q / rows, q % rows;
      assert ew[i] + ColumnPixels <= ew[i + 1] && eh[j] + RowPixels <= eh[j + 1];
      CellClear(img, ew[i], eh[j], ew[i + 1] - ew[i], eh[j + 1] - eh[j]);
    }
  }

  /** Carving the first `k` pieces keeps the total of visible pixels and leaves clear what `Untouched` says. */
  lemma {:induction false} CarvingKeeps(pics: seq<seq<seq<int>>>, d: Draws, columns: nat, rows: nat, k: nat)
    requires 0 < rows && |pics| == columns * rows && k <= |pics| && Drawn(d, |pics|) && AllRoomy(pics) && AllAmple(pics)
    requires Untouched(pics, rows, 0)
    ensures AllAmple(Carving(pics, d, columns, rows, k))
    ensures Untouched(Carving(pics, d, columns, rows, k), rows, 2 * k)
    ensures TotalVisible(Carving(pics, d, columns, rows, k)) == TotalVisible(pics)
  {
    if k > 0 {
      CarvingKeeps(pics, d, columns, rows, k - 1);
      StepKeeps(Carving(pics, d, columns, rows, k - 1), d, columns, rows, k - 1, 2 * k);
    }
  }

  /** Both tabs of piece `k` keep the total of visible pixels and reach only the margins they are carved at. */
  lemma StepKeeps(pics: seq<seq<seq<int>>>, d: Draws, columns: nat, rows: nat, k: nat, s: nat)
    requires 0 < rows && |pics| == columns * rows && k < |pics| && Drawn(d, |pics|) && AllRoomy(pics) && AllAmple(pics)
    requires s == 2 * k + 2 && Untouched(pics, rows, 2 * k)
    ensures AllAmple(CarveStep(pics, d, columns, rows, k))
    ensures Untouched(CarveStep(pics, d, columns, rows, k), rows, s)
    ensures TotalVisible(CarveStep(pics, d, columns, rows, k)) == TotalVisible(pics)
  {
    RightKeeps(pics, d, columns, rows, k);
    DownKeeps(CarveRight(pics, d, columns, rows, k), d, columns, rows, k);
  }

  /**
   * Carving only moves pixels: every disc of pixels a tab carries lands on
   * transparent pixels of the other piece, so all pieces together show as
   * many pixels after the carving loop as right after cutting.
   */
  lemma CarvingConserves(img: seq<seq<int>>, ew: seq<int>, eh: seq<int>, d: Draws, columns: nat, rows: nat)
    requires Lattice(img, ew, eh, columns, rows) && Drawn(d, columns * rows)
    requires Spaced(ew, |img|, ColumnPixels) && Spaced(eh, Height(img), RowPixels)
    ensures TotalVisible(Carving(Cuts(img, ew, eh, columns, rows), d, columns, rows, columns * rows))
            == TotalVisible(Cuts(img, ew, eh, columns, rows))
  {
    CutsUntouched(img, ew, eh, columns, rows);
    CarvingKeeps(Cuts(img, ew, eh, columns, rows), d, columns, rows, columns * rows);
  }

  /**
   * The pieces as loading leaves them: piece `q` is the cell at column
   * `q / rows` and row `q % rows` of `img` with every tab carved, and its
   * drawn image shows its picture.
   */
  ghost predicate Loaded(ps: seq<Piece>, img: seq<seq<int>>, ew: seq<int>, eh: seq<int>, d: Draws, columns: nat, rows: nat)
    reads Frames(ps), Images(ps)
    requires Lattice(img, ew, eh, columns, rows) && Drawn(d, columns * rows)
  {
    Laid(ps, columns, rows) && Pictures(ps) == Carving(Cuts(img, ew, eh, columns, rows), d, columns, rows, |ps|)
  }

  /** The pieces of a `columns` x `rows` lattice in id order, piece `q` at column `q / rows` and row `q % rows`, each showing its buffer. */
  ghost predicate Laid(ps: seq<Piece>, columns: nat, rows: nat)
    reads Frames(ps), Images(ps)
  {
    && Cut(ps, columns, rows)
    && (forall q :: 0 <= q < |ps| ==> ps[q].id == q && ps[q].row == q / rows && ps[q].col == q % rows && ps[q].Shows())
  }

  /**
   * Loading (Puzzle.java:165-237) of an image at least one cell wide and
   * high: fills the boundary tables, then cuts, links and carves the pieces.
   */
  method LoadPieces(image: array2<int>, ghost img: seq<seq<int>>, d: Draws)
    returns (columns: nat, rows: nat, widths: seq<int>, heights: seq<int>, ps: seq<Piece>, links: seq<seq<Option<nat>>>)
    requires img == Snapshot(image) && 0 < image.Length0 / ColumnPixels && 0 < image.Length1 / RowPixels
    requires Drawn(d, (image.Length0 / ColumnPixels) * (image.Length1 / RowPixels))
    ensures columns == image.Length0 / ColumnPixels && rows == image.Length1 / RowPixels
    ensures widths == Table(image.Length0, columns) && heights == Table(image.Length1, rows)
    ensures Lattice(img, widths, heights, columns, rows) && Drawn(d, columns * rows)
    ensures Loaded(ps, img, widths, heights, d, columns, rows)
    ensures TotalVisible(Pictures(ps)) == TotalVisible(Cuts(img, widths, heights, columns, rows))
    ensures |links| == |ps| && forall q :: 0 <= q < |ps| ==> links[q] == Slots(columns, rows, q)
  {
    columns, rows := image.Length0 / ColumnPixels, image.Length1 / RowPixels;
    var ew := Boundaries(image.Length0, columns);
    widths := ew[..];
    var eh := Boundaries(image.Length1, rows);
    heights := eh[..];
    TablesLattice(img);
    ps := CutAll(image, widths, heights, columns, rows);
    BlankPainted(ps, columns, rows);
    links := CarveAll(ps, d, columns, rows);
    PaintedShows(ps);
    CarvingConserves(img, widths, heights, d, columns, rows);
  }
}
