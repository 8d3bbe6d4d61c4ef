/**
 Two-dimensional grids as immutable sequences of rows.

 An image and its noise map are grids of reals, a mask is a grid of booleans.
 Every grid the pipeline handles is rectangular and non-empty (a FITS image
 plane has at least one row and one column).
 */
module Grids {

  type Image = seq<seq<real>>
  type Mask = seq<seq<bool>>

  /** A pixel position: row index first, then column index, as in numpy. */
  datatype Cell = Cell(row: int, col: int)

  /** Every row of `g` has length `w`, and there are `h` rows. */
  predicate HasShape<T>(g: seq<seq<T>>, h: int, w: int)
  {
    |g| == h && forall i :: 0 <= i < |g| ==> |g[i]| == w
  }

  /** A non-empty rectangular grid. */
  predicate IsRect<T>(g: seq<seq<T>>)
  {
    |g| > 0 && |g[0]| > 0 && HasShape(g, |g|, |g[0]|)
  }

  function Width<T>(g: seq<seq<T>>): nat
    requires |g| > 0
  {
    |g[0]|
  }

  /** `b` is a grid with the same number of rows and columns as the rectangular grid `a`. */
  predicate SameShape<T, U>(a: seq<seq<T>>, b: seq<seq<U>>)
  {
    IsRect(a) && HasShape(b, |a|, |a[0]|)
  }

  predicate InGrid<T>(g: seq<seq<T>>, i: int, j: int)
  {
    0 <= i < |g| && 0 <= j < |g[i]|
  }

  /** The outermost ring: first and last row, first and last column. */
  predicate OnBorder<T>(g: seq<seq<T>>, i: int, j: int)
    requires |g| > 0
  {
    i == 0 || i == |g| - 1 || j == 0 || j == Width(g) - 1
  }

  /** Pointwise inclusion of masks of one shape: every true pixel of `a` is true in `b`. */
  predicate Subset(a: Mask, b: Mask)
  {
    && |a| == |b|
    && (forall i :: 0 <= i < |a| ==> |a[i]| == |b[i]|)
    && forall i, j {:trigger b[i][j]} :: 0 <= i < |a| && 0 <= j < |a[i]| && a[i][j] ==> b[i][j]
  }

  function Abs(x: int): nat
  {
    if x < 0 then -x else x
  }

  /** The city-block (4-connected) distance between two pixels. */
  function Distance(a: Cell, b: Cell): nat
  {
    Abs(a.row - b.row) + Abs(a.col - b.col)
  }

  /** The four pixels sharing an edge with `c`: the arms of the cross. */
  function Neighbours(c: Cell): set<Cell>
  {
    {Cell(c.row - 1, c.col), Cell(c.row + 1, c.col), Cell(c.row, c.col - 1), Cell(c.row, c.col + 1)}
  }

  lemma DistanceTriangle(a: Cell, b: Cell, c: Cell)
    ensures Distance(a, c) <= Distance(a, b) + Distance(b, c)
  {
  }

  lemma SubsetReflexive(a: Mask)
    ensures Subset(a, a)
  {
  }

  lemma SubsetTransitive(a: Mask, b: Mask, c: Mask)
    requires Subset(a, b) && Subset(b, c)
    ensures Subset(a, c)
  {
  }

  /** The h-by-w grid holding `v` everywhere. */
  function Constant<T>(h: nat, w: nat, v: T): (g: seq<seq<T>>)
    ensures HasShape(g, h, w)
    ensures forall i, j :: 0 <= i < h && 0 <= j < w ==> g[i][j] == v
  {
    seq(h, _ => seq(w, _ => v))
  }

  /** Two grids with the same row lengths and the same values are equal. */
  lemma GridExtensionality<T>(a: seq<seq<T>>, b: seq<seq<T>>)
    requires |a| == |b| && forall i :: 0 <= i < |a| ==> |a[i]| == |b[i]|
    requires forall i, j :: 0 <= i < |a| && 0 <= j < |a[i]| ==> a[i][j] == b[i][j]
    ensures a == b
  {
    forall i | 0 <= i < |a|
      ensures a[i] == b[i]
    {
      assert forall j :: 0 <= j < |a[i]| ==> a[i][j] == b[i][j];
    }
  }
}
