/**
 * A puzzle piece (Piece.java): its identity, where it belongs in the
 * lattice, and its two pixel buffers. `picture` is the carved pixel matrix
 * with `-1` for transparency; `pic` is the image drawn on screen, modelled
 * as a second integer matrix whose pixels start at 0 (fully transparent).
 *
 * Position, selection and union-find parent are kept by the puzzle in
 * arrays indexed by id (module Game).
 */
module Pieces {
  import opened Arith
  import opened Raster

  class Piece {
    /** Unique id `i * N + j` (Piece.java:11). */
    const id: int
    /** `id / N`: despite its name, the column of the lattice (Piece.java:77). */
    const row: int
    /** `id % N`: the row of the lattice (Piece.java:78). */
    const col: int
    const width: nat
    const height: nat
    const picture: array2<int>
    const pic: array2<int>

    /** The buffer sizes agree with the recorded dimensions. */
    ghost predicate Valid()
    {
      && width == picture.Length0 && height == picture.Length1
      && pic.Length0 == width && pic.Length1 == height
      && picture != pic
    }

    /** Every pixel of the drawn image is still 0. */
    ghost predicate Blank()
      reads pic
    {
      forall i, j :: 0 <= i < pic.Length0 && 0 <= j < pic.Length1 ==> pic[i, j] == 0
    }

    /** The drawn image is the picture drawn over a blank background. */
    ghost predicate Shows()
      reads picture, pic
      requires Valid()
    {
      Snapshot(pic) == Overlay(Zeros(width, height), Snapshot(picture))
    }

    /**
     * Piece.java:75-85. `rows` is the lattice height `Puzzle.N`, by which the
     * id is divided; Java's `/` and `%` truncate. `picture[0].length` needs
     * a non-empty matrix.
     */
    constructor (id: int, pict: array2<int>, rows: int)
      requires rows != 0 && pict.Length0 > 0
      ensures this.id == id && row == JavaDiv(id, rows) && col == JavaRem(id, rows)
      ensures id >= 0 && rows > 0 ==> id == row * rows + col && 0 <= col < rows
      ensures picture == pict && width == pict.Length0 && height == pict.Length1
      ensures Valid() && fresh(pic) && Blank()
    {
      this.id := id;
      row := JavaDiv(id, rows);
      col := JavaRem(id, rows);
      picture := pict;
      width := pict.Length0;
      height := pict.Length1;
      pic := new int[pict.Length0, pict.Length1]((i, j) => 0);
    }

    /** Draws the visible pixels of `picture` into `pic` (Piece.java:90-99). */
    method UpdateImage()
      requires Valid()
      modifies pic
      ensures Snapshot(pic) == Overlay(old(Snapshot(pic)), Snapshot(picture))
      ensures old(Blank()) ==> Shows()
    {
      ghost var before := Snapshot(pic);
      for i := 0 to width
        invariant forall a, b :: 0 <= a < width && 0 <= b < height ==>
                    pic[a, b] == if a < i && picture[a, b] != Transparent then picture[a, b] else before[a][b]
      {
        for j := 0 to height
          invariant forall a, b :: 0 <= a < width && 0 <= b < height ==>
                      pic[a, b] == if (a < i || (a == i && b < j)) && picture[a, b] != Transparent
                                   then picture[a, b] else before[a][b]
        {
          if picture[i, j] != Transparent {
            pic[i, j] := picture[i, j];
          }
        }
      }
      SameMatrix(Snapshot(pic), Overlay(before, Snapshot(picture)));
      if old(Blank()) {
        SameMatrix(before, Zeros(width, height));
      }
    }

    /** `hashCode` returns the id (Piece.java:102-104). */
    function HashCode(): int
    {
      id
    }

    /** Two pieces are equal when their ids are (Piece.java:107-112); `null` is never equal. */
    predicate Equals(o: Piece?)
      ensures Equals(o) <==> o != null && o.HashCode() == HashCode()
    {
      o != null && o.id == id
    }

    /** Equality is an equivalence, and equal pieces hash alike. */
    lemma EqualsConsistent(o: Piece, q: Piece)
      ensures Equals(this)
      ensures Equals(o) <==> o.Equals(this)
      ensures Equals(o) && o.Equals(q) ==> Equals(q)
      ensures Equals(o) ==> HashCode() == o.HashCode()
    {
    }
  }
}
