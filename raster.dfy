/**
 * Pixel buffers of the Tab Carver. A buffer is indexed `[x][y]` as the
 * source's `int[][] picture` is, and `-1` marks a transparent pixel
 * (Puzzle.java:190). Buffers are `array2<int>` where the source changes
 * them in place; `Snapshot` turns one into a value so that lemmas can
 * speak about it.
 */
module Raster {

  /** The sentinel of a pixel that is not part of the piece (Puzzle.java:190, 344). */
  const Transparent: int := -1

  /** Every column of the matrix has the same height. */
  predicate IsRect(m: seq<seq<int>>)
  {
    forall x :: 0 <= x < |m| ==> |m[x]| == Height(m)
  }

  function Height(m: seq<seq<int>>): nat
  {
    if |m| == 0 then 0 else |m[0]|
  }

  /** The value of a buffer. */
  ghost function Snapshot(a: array2<int>): (m: seq<seq<int>>)
    reads a
    ensures |m| == a.Length0 && IsRect(m) && (|m| > 0 ==> Height(m) == a.Length1)
    ensures forall x, y :: 0 <= x < a.Length0 && 0 <= y < a.Length1 ==> m[x][y] == a[x, y]
  {
    seq(a.Length0, x requires 0 <= x < a.Length0 reads a =>
      seq(a.Length1, y requires 0 <= y < a.Length1 reads a => a[x, y]))
  }

  /** Two matrices with the same shape and the same entries are equal. */
  lemma SameMatrix(a: seq<seq<int>>, b: seq<seq<int>>)
    requires |a| == |b| && forall x :: 0 <= x < |a| ==> |a[x]| == |b[x]|
    requires forall x, y :: 0 <= x < |a| && 0 <= y < |a[x]| ==> a[x][y] == b[x][y]
    ensures a == b
  {
    forall x | 0 <= x < |a|
      ensures a[x] == b[x]
    {
      assert |a[x]| == |b[x]|;
    }
  }

  /**
   * Offset `(i, j)` is visited by the transfer loops and lies in the
   * closed disc of radius `r` (Puzzle.java:337-341).
   */
  predicate InDisc(i: int, j: int, r: int)
  {
    -r <= i <= r && -r <= j <= r && i * i + j * j <= r * r
  }

  /** The square around a disc of radius `r` at `(cx, cy)` lies inside a `w` x `h` buffer. */
  predicate DiscFits(w: int, h: int, cx: int, cy: int, r: int)
  {
    r < 0 || (0 <= cx - r && cx + r < w && 0 <= cy - r && cy + r < h)
  }

  /** Donor side of a transfer: every pixel of the disc becomes transparent. */
  function Hollow(m: seq<seq<int>>, cx: int, cy: int, r: int): (m': seq<seq<int>>)
    ensures |m'| == |m| && forall x :: 0 <= x < |m| ==> |m'[x]| == |m[x]|
    ensures IsRect(m) ==> IsRect(m')
    ensures forall x, y :: 0 <= x < |m| && 0 <= y < |m[x]| && InDisc(x - cx, y - cy, r) ==> m'[x][y] == Transparent
    ensures forall x, y :: 0 <= x < |m| && 0 <= y < |m[x]| && !InDisc(x - cx, y - cy, r) ==> m'[x][y] == m[x][y]
  {
    seq(|m|, x requires 0 <= x < |m| =>
      seq(|m[x]|, y requires 0 <= y < |m[x]| => if InDisc(x - cx, y - cy, r) then Transparent else m[x][y]))
  }

  /**
   * Recipient side of a transfer: each non-transparent donor pixel at
   * offset `(i, j)` from `(cx, cy)` lands at offset `(i, j)` from `(cx2, cy2)`.
   */
  function Fill(dst: seq<seq<int>>, src: seq<seq<int>>, cx: int, cy: int, cx2: int, cy2: int, r: int): (m': seq<seq<int>>)
    requires IsRect(src) && DiscFits(|src|, Height(src), cx, cy, r)
    ensures |m'| == |dst| && forall u :: 0 <= u < |dst| ==> |m'[u]| == |dst[u]|
    ensures IsRect(dst) ==> IsRect(m')
  {
    seq(|dst|, u requires 0 <= u < |dst| => FillRow(dst[u], src, cx, cy, cx2, cy2, r, u))
  }

  /** Row `u` of a fill. */
  function FillRow(row: seq<int>, src: seq<seq<int>>, cx: int, cy: int, cx2: int, cy2: int, r: int, u: int): (row': seq<int>)
    requires IsRect(src) && DiscFits(|src|, Height(src), cx, cy, r)
    ensures |row'| == |row|
  {
    seq(|row|, v requires 0 <= v < |row| => if Lands(src, cx, cy, cx2, cy2, r, u, v) then src[u - cx2 + cx][v - cy2 + cy] else row[v])
  }

  /** Pixel `(u, v)` of the recipient lies in the disc and the donor pixel it faces is visible. */
  predicate Lands(src: seq<seq<int>>, cx: int, cy: int, cx2: int, cy2: int, r: int, u: int, v: int)
    requires IsRect(src) && DiscFits(|src|, Height(src), cx, cy, r)
  {
    InDisc(u - cx2, v - cy2, r) && src[u - cx2 + cx][v - cy2 + cy] != Transparent
  }

  /** The donor pixel a landing reads lies inside the donor buffer. */
  lemma LandsInDonor(src: seq<seq<int>>, cx: int, cy: int, cx2: int, cy2: int, r: int, u: int, v: int)
    requires IsRect(src) && DiscFits(|src|, Height(src), cx, cy, r)
    ensures Lands(src, cx, cy, cx2, cy2, r, u, v) ==>
              0 <= u - cx2 + cx < |src| && 0 <= v - cy2 + cy < Height(src)
  {
  }

  /** Pixel `(u, v)` after a fill: the donor pixel where one lands, the recipient's own elsewhere. */
  lemma FillPixel(dst: seq<seq<int>>, src: seq<seq<int>>, cx: int, cy: int, cx2: int, cy2: int, r: int, u: int, v: int)
    requires IsRect(src) && DiscFits(|src|, Height(src), cx, cy, r)
    requires 0 <= u < |dst| && 0 <= v < |dst[u]|
    ensures Lands(src, cx, cy, cx2, cy2, r, u, v) ==>
              Fill(dst, src, cx, cy, cx2, cy2, r)[u][v] == src[u - cx2 + cx][v - cy2 + cy]
    ensures !Lands(src, cx, cy, cx2, cy2, r, u, v) ==> Fill(dst, src, cx, cy, cx2, cy2, r)[u][v] == dst[u][v]
  {
  }

  /** The coordinates of the non-transparent pixels. */
  ghost function Visible(m: seq<seq<int>>): set<(int, int)>
  {
    set x, y | 0 <= x < |m| && 0 <= y < |m[x]| && m[x][y] != Transparent :: (x, y)
  }

  /** How many pixels of the buffer belong to the piece. */
  ghost function VisibleCount(m: seq<seq<int>>): nat
  {
    |Visible(m)|
  }

  ghost function Shift(s: set<(int, int)>, dx: int, dy: int): set<(int, int)>
  {
    set p | p in s :: (p.0 + dx, p.1 + dy)
  }

  /** Translating a set of pixels keeps their number. */
  lemma {:induction false} ShiftCard(s: set<(int, int)>, dx: int, dy: int)
    ensures |Shift(s, dx, dy)| == |s|
    decreases |s|
  {
    if s != {} {
      var p :| p in s;
      var s' := s - {p};
      ShiftCard(s', dx, dy);
      assert Shift(s, dx, dy) == Shift(s', dx, dy) + {(p.0 + dx, p.1 + dy)};
      assert (p.0 + dx, p.1 + dy) !in Shift(s', dx, dy);
    }
  }

  /** The pixels a transfer moves: the visible donor pixels inside the disc. */
  ghost function Moved(donor: seq<seq<int>>, cx: int, cy: int, r: int): set<(int, int)>
  {
    set p | p in Visible(donor) && InDisc(p.0 - cx, p.1 - cy, r)
  }

  lemma HollowVisible(donor: seq<seq<int>>, cx: int, cy: int, r: int)
    ensures Visible(Hollow(donor, cx, cy, r)) == Visible(donor) - Moved(donor, cx, cy, r)
  {
  }

  lemma FillVisible(donor: seq<seq<int>>, recipient: seq<seq<int>>, cx: int, cy: int, cx2: int, cy2: int, r: int)
    requires IsRect(donor) && DiscFits(|donor|, Height(donor), cx, cy, r)
    requires IsRect(recipient) && DiscFits(|recipient|, Height(recipient), cx2, cy2, r)
    ensures Visible(Fill(recipient, donor, cx, cy, cx2, cy2, r))
            == Visible(recipient) + Shift(Moved(donor, cx, cy, r), cx2 - cx, cy2 - cy)
  {
    FilledFrom(donor, recipient, cx, cy, cx2, cy2, r);
    LandedShows(donor, recipient, cx, cy, cx2, cy2, r);
  }

  /** A visible pixel after the fill was visible before or is a moved pixel. */
  lemma FilledFrom(donor: seq<seq<int>>, recipient: seq<seq<int>>, cx: int, cy: int, cx2: int, cy2: int, r: int)
    requires IsRect(donor) && DiscFits(|donor|, Height(donor), cx, cy, r)
    requires IsRect(recipient) && DiscFits(|recipient|, Height(recipient), cx2, cy2, r)
    ensures Visible(Fill(recipient, donor, cx, cy, cx2, cy2, r))
            <= Visible(recipient) + Shift(Moved(donor, cx, cy, r), cx2 - cx, cy2 - cy)
  {
    var moved := Moved(donor, cx, cy, r);
    var filled := Fill(recipient, donor, cx, cy, cx2, cy2, r);
    forall q | q in Visible(filled)
      ensures q in Visible(recipient) + Shift(moved, cx2 - cx, cy2 - cy)
    {
      var (u, v) := q;
      FillPixel(recipient, donor, cx, cy, cx2, cy2, r, u, v);
      if Lands(donor, cx, cy, cx2, cy2, r, u, v) {
        var p := (u - cx2 + cx, v - cy2 + cy);
        assert p in moved;
        assert q == (p.0 + (cx2 - cx), p.1 + (cy2 - cy));
      } else {
        assert recipient[u][v] == filled[u][v];
      }
    }
  }

  /** Every moved pixel shows at its new place after the fill. */
  lemma LandedShows(donor: seq<seq<int>>, recipient: seq<seq<int>>, cx: int, cy: int, cx2: int, cy2: int, r: int)
    requires IsRect(donor) && DiscFits(|donor|, Height(donor), cx, cy, r)
    requires IsRect(recipient) && DiscFits(|recipient|, Height(recipient), cx2, cy2, r)
    ensures Shift(Moved(donor, cx, cy, r), cx2 - cx, cy2 - cy) <= Visible(Fill(recipient, donor, cx, cy, cx2, cy2, r))
  {
    var moved := Moved(donor, cx, cy, r);
    var filled := Fill(recipient, donor, cx, cy, cx2, cy2, r);
    forall q | q in Shift(moved, cx2 - cx, cy2 - cy)
      ensures q in Visible(filled)
    {
      var p :| p in moved && q == (p.0 + (cx2 - cx), p.1 + (cy2 - cy));
      var i, j := p.0 - cx, p.1 - cy;
      assert InDisc(i, j, r) && donor[cx + i][cy + j] != Transparent;
      assert q == (cx2 + i, cy2 + j);
      assert 0 <= cx2 + i < |recipient| && 0 <= cy2 + j < |recipient[cx2 + i]|;
      FillPixel(recipient, donor, cx, cy, cx2, cy2, r, cx2 + i, cy2 + j);
      assert Lands(donor, cx, cy, cx2, cy2, r, cx2 + i, cy2 + j);
    }
  }

  lemma LandedOnTransparent(donor: seq<seq<int>>, recipient: seq<seq<int>>, cx: int, cy: int, cx2: int, cy2: int, r: int)
    requires IsRect(donor) && DiscFits(|donor|, Height(donor), cx, cy, r)
    requires IsRect(recipient) && DiscFits(|recipient|, Height(recipient), cx2, cy2, r)
    requires forall i, j :: InDisc(i, j, r) && donor[cx + i][cy + j] != Transparent ==>
               recipient[cx2 + i][cy2 + j] == Transparent
    ensures Visible(recipient) * Shift(Moved(donor, cx, cy, r), cx2 - cx, cy2 - cy) == {}
  {
    forall q | q in Shift(Moved(donor, cx, cy, r), cx2 - cx, cy2 - cy)
      ensures q !in Visible(recipient)
    {
      var p :| p in Moved(donor, cx, cy, r) && q == (p.0 + (cx2 - cx), p.1 + (cy2 - cy));
      var i, j := p.0 - cx, p.1 - cy;
      assert InDisc(i, j, r) && donor[cx + i][cy + j] != Transparent;
    }
  }

  /**
   * Conservation: when every pixel the transfer moves lands on a
   * transparent pixel of the recipient, the two buffers together hold as
   * many non-transparent pixels afterwards as before.
   */
  lemma TransferConserves(donor: seq<seq<int>>, recipient: seq<seq<int>>, cx: int, cy: int, cx2: int, cy2: int, r: int)
    requires IsRect(donor) && DiscFits(|donor|, Height(donor), cx, cy, r)
    requires IsRect(recipient) && DiscFits(|recipient|, Height(recipient), cx2, cy2, r)
    requires forall i, j :: InDisc(i, j, r) && donor[cx + i][cy + j] != Transparent ==>
               recipient[cx2 + i][cy2 + j] == Transparent
    ensures VisibleCount(Hollow(donor, cx, cy, r)) + VisibleCount(Fill(recipient, donor, cx, cy, cx2, cy2, r))
            == VisibleCount(donor) + VisibleCount(recipient)
  {
    HollowCount(donor, cx, cy, r);
    LandedOnTransparent(donor, recipient, cx, cy, cx2, cy2, r);
    FillCount(donor, recipient, cx, cy, cx2, cy2, r);
  }

  /** The donor loses exactly the pixels the transfer moves. */
  lemma HollowCount(donor: seq<seq<int>>, cx: int, cy: int, r: int)
    ensures VisibleCount(Hollow(donor, cx, cy, r)) + |Moved(donor, cx, cy, r)| == VisibleCount(donor)
  {
    HollowVisible(donor, cx, cy, r);
    SubsetCard(Visible(donor), Moved(donor, cx, cy, r));
  }

  /** The recipient gains exactly the pixels the transfer moves, when they land on transparency. */
  lemma FillCount(donor: seq<seq<int>>, recipient: seq<seq<int>>, cx: int, cy: int, cx2: int, cy2: int, r: int)
    requires IsRect(donor) && DiscFits(|donor|, Height(donor), cx, cy, r)
    requires IsRect(recipient) && DiscFits(|recipient|, Height(recipient), cx2, cy2, r)
    requires Visible(recipient) * Shift(Moved(donor, cx, cy, r), cx2 - cx, cy2 - cy) == {}
    ensures VisibleCount(Fill(recipient, donor, cx, cy, cx2, cy2, r))
            == VisibleCount(recipient) + |Moved(donor, cx, cy, r)|
  {
    var moved := Moved(donor, cx, cy, r);
    var filled := Visible(Fill(recipient, donor, cx, cy, cx2, cy2, r));
    FillVisible(donor, recipient, cx, cy, cx2, cy2, r);
    AddCard(filled, Visible(recipient), Shift(moved, cx2 - cx, cy2 - cy), moved, cx2 - cx, cy2 - cy);
  }

  lemma AddCard(filled: set<(int, int)>, other: set<(int, int)>, landed: set<(int, int)>, moved: set<(int, int)>, dx: int, dy: int)
    requires landed == Shift(moved, dx, dy) && other * landed == {} && filled == other + landed
    ensures |filled| == |other| + |moved|
  {
    ShiftCard(moved, dx, dy);
    DisjointCard(other, landed);
  }

  lemma DisjointCard<T>(a: set<T>, b: set<T>)
    requires a * b == {}
    ensures |a + b| == |a| + |b|
  {
  }

  lemma SubsetCard<T>(a: set<T>, b: set<T>)
    requires b <= a
    ensures |a| == |a - b| + |b|
  {
    assert a == (a - b) + b;
    DisjointCard(a - b, b);
  }

  /** Columns `lo` to `hi - 1` of the buffer are transparent. */
  ghost predicate ClearColumns(m: seq<seq<int>>, lo: int, hi: int)
  {
    forall x, y :: 0 <= x < |m| && 0 <= y < |m[x]| && lo <= x < hi ==> m[x][y] == Transparent
  }

  /** Rows `lo` to `hi - 1` of the buffer are transparent. */
  ghost predicate ClearRows(m: seq<seq<int>>, lo: int, hi: int)
  {
    forall x, y :: 0 <= x < |m| && 0 <= y < |m[x]| && lo <= y < hi ==> m[x][y] == Transparent
  }

  /** Hollowing a disc out leaves transparent columns and rows transparent. */
  lemma HollowKeepsClear(m: seq<seq<int>>, cx: int, cy: int, r: int, lo: int, hi: int)
    ensures ClearColumns(m, lo, hi) ==> ClearColumns(Hollow(m, cx, cy, r), lo, hi)
    ensures ClearRows(m, lo, hi) ==> ClearRows(Hollow(m, cx, cy, r), lo, hi)
  {
  }

  /** A fill whose disc lies wholly to one side of some transparent columns leaves them transparent. */
  lemma FillKeepsColumns(dst: seq<seq<int>>, src: seq<seq<int>>, cx: int, cy: int, cx2: int, cy2: int, r: int, lo: int, hi: int)
    requires IsRect(src) && DiscFits(|src|, Height(src), cx, cy, r)
    requires ClearColumns(dst, lo, hi) && (cx2 + r < lo || hi <= cx2 - r)
    ensures ClearColumns(Fill(dst, src, cx, cy, cx2, cy2, r), lo, hi)
  {
    var m := Fill(dst, src, cx, cy, cx2, cy2, r);
    forall x, y | 0 <= x < |m| && 0 <= y < |m[x]| && lo <= x < hi
      ensures m[x][y] == Transparent
    {
      FillPixel(dst, src, cx, cy, cx2, cy2, r, x, y);
    }
  }

  /** A fill whose disc lies wholly above or below some transparent rows leaves them transparent. */
  lemma FillKeepsRows(dst: seq<seq<int>>, src: seq<seq<int>>, cx: int, cy: int, cx2: int, cy2: int, r: int, lo: int, hi: int)
    requires IsRect(src) && DiscFits(|src|, Height(src), cx, cy, r)
    requires ClearRows(dst, lo, hi) && (cy2 + r < lo || hi <= cy2 - r)
    ensures ClearRows(Fill(dst, src, cx, cy, cx2, cy2, r), lo, hi)
  {
    var m := Fill(dst, src, cx, cy, cx2, cy2, r);
    forall x, y | 0 <= x < |m| && 0 <= y < |m[x]| && lo <= y < hi
      ensures m[x][y] == Transparent
    {
      FillPixel(dst, src, cx, cy, cx2, cy2, r, x, y);
    }
  }

  /**
   * Every pixel a transfer moves lands on a transparent one when the
   * donor's columns on one side of its centre and the recipient's columns
   * on the other side of its centre are transparent: a visible donor pixel
   * lies on the donor's other side, so it lands on the recipient's
   * transparent side.
   */
  lemma LandsAcrossColumns(donor: seq<seq<int>>, recipient: seq<seq<int>>, cx: int, cy: int, cx2: int, cy2: int, r: int,
                           dlo: int, dhi: int, rlo: int, rhi: int)
    requires IsRect(donor) && DiscFits(|donor|, Height(donor), cx, cy, r)
    requires IsRect(recipient) && DiscFits(|recipient|, Height(recipient), cx2, cy2, r)
    requires ClearColumns(donor, dlo, dhi) && ClearColumns(recipient, rlo, rhi)
    requires || (dlo <= cx && cx + r < dhi && rlo <= cx2 - r && cx2 <= rhi)
             || (dlo <= cx - r && cx <= dhi && rlo <= cx2 && cx2 + r < rhi)
    ensures forall i, j :: InDisc(i, j, r) && donor[cx + i][cy + j] != Transparent ==>
              recipient[cx2 + i][cy2 + j] == Transparent
  {
    forall i, j | InDisc(i, j, r) && donor[cx + i][cy + j] != Transparent
      ensures recipient[cx2 + i][cy2 + j] == Transparent
    {
      assert |recipient[cx2 + i]| == Height(recipient);
    }
  }

  /** `LandsAcrossColumns` with the roles of columns and rows exchanged. */
  lemma LandsAcrossRows(donor: seq<seq<int>>, recipient: seq<seq<int>>, cx: int, cy: int, cx2: int, cy2: int, r: int,
                        dlo: int, dhi: int, rlo: int, rhi: int)
    requires IsRect(donor) && DiscFits(|donor|, Height(donor), cx, cy, r)
    requires IsRect(recipient) && DiscFits(|recipient|, Height(recipient), cx2, cy2, r)
    requires ClearRows(donor, dlo, dhi) && ClearRows(recipient, rlo, rhi)
    requires || (dlo <= cy && cy + r < dhi && rlo <= cy2 - r && cy2 <= rhi)
             || (dlo <= cy - r && cy <= dhi && rlo <= cy2 && cy2 + r < rhi)
    ensures forall i, j :: InDisc(i, j, r) && donor[cx + i][cy + j] != Transparent ==>
              recipient[cx2 + i][cy2 + j] == Transparent
  {
    forall i, j | InDisc(i, j, r) && donor[cx + i][cy + j] != Transparent
      ensures recipient[cx2 + i][cy2 + j] == Transparent
    {
      assert |recipient[cx2 + i]| == Height(recipient);
    }
  }

  /** The number of visible pixels of all the buffers together. */
  ghost function TotalVisible(pics: seq<seq<seq<int>>>): nat
  {
    if |pics| == 0 then 0 else TotalVisible(pics[..|pics| - 1]) + VisibleCount(pics[|pics| - 1])
  }

  /** Replacing one buffer changes the total by the difference of the two buffers' counts. */
  lemma {:induction false} TotalReplace(pics: seq<seq<seq<int>>>, a: nat, m: seq<seq<int>>)
    requires a < |pics|
    ensures TotalVisible(pics[a := m]) + VisibleCount(pics[a]) == TotalVisible(pics) + VisibleCount(m)
    decreases |pics|
  {
    var n := |pics| - 1;
    if a < n {
      assert pics[a := m][..n] == pics[..n][a := m];
      TotalReplace(pics[..n], a, m);
    } else {
      assert pics[a := m][..n] == pics[..n];
    }
  }

  /** Replacing two buffers by two others with as many visible pixels together keeps the total. */
  lemma TotalSwap(pics: seq<seq<seq<int>>>, a: nat, b: nat, x: seq<seq<int>>, y: seq<seq<int>>)
    requires a < |pics| && b < |pics| && a != b
    requires VisibleCount(x) + VisibleCount(y) == VisibleCount(pics[a]) + VisibleCount(pics[b])
    ensures TotalVisible(pics[a := x][b := y]) == TotalVisible(pics)
  {
    TotalReplace(pics, a, x);
    TotalReplace(pics[a := x], b, y);
  }

  /** A `w` x `h` buffer of zeros: an image nothing has been drawn on yet. */
  function Zeros(w: nat, h: nat): (m: seq<seq<int>>)
    ensures |m| == w && forall x :: 0 <= x < w ==> |m[x]| == h
    ensures forall x, y :: 0 <= x < w && 0 <= y < h ==> m[x][y] == 0
  {
    seq(w, x => seq(h, y => 0))
  }

  /**
   * `over` drawn on top of `under`: a pixel of `over` shows unless it is
   * transparent, in which case `under` shows through (Piece.java:90-99).
   */
  function Overlay(under: seq<seq<int>>, over: seq<seq<int>>): (m: seq<seq<int>>)
    requires |under| == |over| && forall x :: 0 <= x < |over| ==> |under[x]| == |over[x]|
    ensures |m| == |over| && forall x :: 0 <= x < |over| ==> |m[x]| == |over[x]|
  {
    seq(|over|, x requires 0 <= x < |over| =>
      seq(|over[x]|, y requires 0 <= y < |over[x]| => if over[x][y] != Transparent then over[x][y] else under[x][y]))
  }

  /**
   * Drawing the same picture twice is drawing it once, and afterwards every
   * visible pixel of the picture shows with its own value.
   */
  lemma OverlayShows(under: seq<seq<int>>, over: seq<seq<int>>)
    requires |under| == |over| && forall x :: 0 <= x < |over| ==> |under[x]| == |over[x]|
    ensures Overlay(Overlay(under, over), over) == Overlay(under, over)
    ensures forall p :: p in Visible(over) ==> Overlay(under, over)[p.0][p.1] == over[p.0][p.1]
  {
    var once := Overlay(under, over);
    SameMatrix(Overlay(once, over), once);
  }

  /** Pixel `(a, b)` of the buffer cut for the cell of `pieceWidth` x `pieceHeight` pixels at `(left, top)`. */
  ghost function CellPixel(img: seq<seq<int>>, left: nat, top: nat, pieceWidth: nat, pieceHeight: nat, margin: nat, a: int, b: int)
    : int
    requires IsRect(img) && left + pieceWidth <= |img| && (pieceWidth > 0 ==> top + pieceHeight <= Height(img))
  {
    if margin <= a < margin + pieceWidth && margin <= b < margin + pieceHeight
    then img[left + a - margin][top + b - margin] else Transparent
  }

  /** The first `n` pixels of column `a` of that buffer. */
  ghost function CellColumn(img: seq<seq<int>>, left: nat, top: nat, pieceWidth: nat, pieceHeight: nat, margin: nat, a: int, n: nat)
    : (col: seq<int>)
    requires IsRect(img) && left + pieceWidth <= |img| && (pieceWidth > 0 ==> top + pieceHeight <= Height(img))
    ensures |col| == n
    ensures forall b :: 0 <= b < n ==> col[b] == CellPixel(img, left, top, pieceWidth, pieceHeight, margin, a, b)
  {
    if n == 0 then []
    else CellColumn(img, left, top, pieceWidth, pieceHeight, margin, a, n - 1)
         + [CellPixel(img, left, top, pieceWidth, pieceHeight, margin, a, n - 1)]
  }

  /** The first `n` columns of that buffer. */
  ghost function CellColumns(img: seq<seq<int>>, left: nat, top: nat, pieceWidth: nat, pieceHeight: nat, margin: nat, n: nat)
    : (m: seq<seq<int>>)
    requires IsRect(img) && left + pieceWidth <= |img| && (pieceWidth > 0 ==> top + pieceHeight <= Height(img))
    ensures |m| == n
    ensures forall a :: 0 <= a < n ==> m[a] == CellColumn(img, left, top, pieceWidth, pieceHeight, margin, a, margin + pieceHeight + margin)
  {
    if n == 0 then []
    else CellColumns(img, left, top, pieceWidth, pieceHeight, margin, n - 1)
         + [CellColumn(img, left, top, pieceWidth, pieceHeight, margin, n - 1, margin + pieceHeight + margin)]
  }

  /**
   * The buffer cut for the image cell of `pieceWidth` x `pieceHeight`
   * pixels at `(left, top)`: the cell, inside a transparent border of
   * `margin` pixels on every side.
   */
  ghost function Cell(img: seq<seq<int>>, left: nat, top: nat, pieceWidth: nat, pieceHeight: nat, margin: nat)
    : (m: seq<seq<int>>)
    requires IsRect(img) && left + pieceWidth <= |img| && (pieceWidth > 0 ==> top + pieceHeight <= Height(img))
    ensures |m| == margin + pieceWidth + margin && IsRect(m)
    ensures |m| > 0 ==> Height(m) == margin + pieceHeight + margin
    ensures forall a, b :: 0 <= a < |m| && 0 <= b < |m[a]| ==>
              m[a][b] == CellPixel(img, left, top, pieceWidth, pieceHeight, margin, a, b)
  {
    CellColumns(img, left, top, pieceWidth, pieceHeight, margin, margin + pieceWidth + margin)
  }

  /**
   * Copies one grid cell of the image into a fresh buffer padded with
   * `margin` transparent pixels on every side (Puzzle.java:186-196): its
   * value is `Cell`.
   */
  method CutPicture(image: array2<int>, left: nat, top: nat, pieceWidth: nat, pieceHeight: nat, margin: nat)
    returns (picture: array2<int>)
    requires left + pieceWidth <= image.Length0 && top + pieceHeight <= image.Length1
    ensures fresh(picture)
    ensures picture.Length0 == margin + pieceWidth + margin && picture.Length1 == margin + pieceHeight + margin
    ensures Snapshot(picture) == Cell(Snapshot(image), left, top, pieceWidth, pieceHeight, margin)
  {
    picture := new int[margin + pieceWidth + margin, margin + pieceHeight + margin]((a, b) => Transparent);
    for x := 0 to pieceWidth
      invariant forall a, b :: 0 <= a < picture.Length0 && 0 <= b < picture.Length1 ==>
                  picture[a, b] == if margin <= a < margin + x && margin <= b < margin + pieceHeight
                                   then image[left + a - margin, top + b - margin] else Transparent
    {
      for y := 0 to pieceHeight
        invariant forall a, b :: 0 <= a < picture.Length0 && 0 <= b < picture.Length1 ==>
                    picture[a, b] == if (margin <= a < margin + x && margin <= b < margin + pieceHeight)
                                        || (a == margin + x && margin <= b < margin + y)
                                     then image[left + a - margin, top + b - margin] else Transparent
      {
        picture[margin + x, margin + y] := image[x + left, y + top];
      }
    }
    ghost var img := Snapshot(image);
    ghost var cell := Cell(img, left, top, pieceWidth, pieceHeight, margin);
    SameMatrix(Snapshot(picture), cell);
  }
}
