/**
 Hole filling as scipy's `binary_fill_holes` does it with the default cross
 (`main`, lines 115-117): the false pixels connected to the outside of the
 image through 4-connected false pixels stay false, every other false pixel
 becomes true.

 The connected background is computed as a flood fill: start from the false
 pixels of the outermost ring and repeatedly add false pixels that share an
 edge with one already reached, until nothing changes. The reference
 definition it is proved against is a path of edge-adjacent false pixels that
 starts on the outermost ring.
 */
module HoleFill {
  import opened Grids

  /** `c` is a pixel of the grid and is false in the mask. */
  predicate Free(m: Mask, c: Cell)
  {
    InGrid(m, c.row, c.col) && !m[c.row][c.col]
  }

  function FreeCells(m: Mask): (s: set<Cell>)
    ensures forall c :: c in s <==> Free(m, c)
  {
    set i, j | 0 <= i < |m| && 0 <= j < |m[i]| && !m[i][j] :: Cell(i, j)
  }

  /** The false pixels of the outermost ring, where the flood from outside enters. */
  function Seeds(m: Mask): (s: set<Cell>)
    requires IsRect(m)
    ensures forall c :: c in s <==> Free(m, c) && OnBorder(m, c.row, c.col)
  {
    set c | c in FreeCells(m) && OnBorder(m, c.row, c.col)
  }

  /** One flood step: add every false pixel that shares an edge with a reached one. */
  function Grow(m: Mask, reached: set<Cell>): (r: set<Cell>)
    ensures reached <= r
    ensures forall c :: c in r && c !in reached ==> Free(m, c) && Neighbours(c) * reached != {}
  {
    reached + set c | c in FreeCells(m) && Neighbours(c) * reached != {}
  }

  lemma SubsetCardinality<T>(a: set<T>, b: set<T>)
    requires a <= b
    ensures |a| <= |b|
    ensures a != b ==> |a| < |b|
  {
    var d := b - a;
    assert b == a + d && a * d == {};
    if a != b {
      var x :| x in b && x !in a;
      assert x in d;
    }
  }

  /** Flood until nothing changes; every step adds a pixel, so at most |FreeCells(m)| steps happen. */
  function Flood(m: Mask, reached: set<Cell>): (r: set<Cell>)
    requires reached <= FreeCells(m)
    ensures reached <= r <= FreeCells(m)
    ensures Grow(m, r) == r
    decreases |FreeCells(m)| - |reached|
  {
    var next := Grow(m, reached);
    if next == reached then reached
    else
      SubsetCardinality(reached, next);
      SubsetCardinality(next, FreeCells(m));
      Flood(m, next)
  }

  /** The background connected to the outside of the image. */
  function Outside(m: Mask): (r: set<Cell>)
    requires IsRect(m)
    ensures Seeds(m) <= r <= FreeCells(m)
    ensures Grow(m, r) == r
  {
    Flood(m, Seeds(m))
  }

  /** A non-empty walk through false pixels, each step to an edge-sharing neighbour. */
  ghost predicate IsFreePath(m: Mask, p: seq<Cell>)
  {
    && |p| > 0
    && (forall k :: 0 <= k < |p| ==> Free(m, p[k]))
    && (forall k :: 0 < k < |p| ==> p[k - 1] in Neighbours(p[k]))
  }

  /** A walk through false pixels from the outermost ring to `c`. */
  ghost predicate EscapePath(m: Mask, p: seq<Cell>, c: Cell)
    requires IsRect(m)
  {
    IsFreePath(m, p) && OnBorder(m, p[0].row, p[0].col) && p[|p| - 1] == c
  }

  /** `c` can be reached from the outermost ring through false pixels. */
  ghost predicate Escapes(m: Mask, c: Cell)
    requires IsRect(m)
  {
    exists p :: EscapePath(m, p, c)
  }

  /** Every pixel on an escaping walk escapes too: walk the prefix. */
  lemma PathPrefixEscapes(m: Mask, p: seq<Cell>, k: int)
    requires IsRect(m) && IsFreePath(m, p) && OnBorder(m, p[0].row, p[0].col) && 0 <= k < |p|
    ensures Escapes(m, p[k])
  {
    var q := p[..k + 1];
    assert EscapePath(m, q, p[k]);
  }

  /** Stepping from an escaping pixel onto a false neighbour escapes. */
  lemma EscapeStep(m: Mask, d: Cell, c: Cell)
    requires IsRect(m) && Escapes(m, d) && Free(m, c) && d in Neighbours(c)
    ensures Escapes(m, c)
  {
    var p :| EscapePath(m, p, d);
    var q := p + [c];
    assert EscapePath(m, q, c);
  }

  /** Every pixel the flood reaches escapes, provided every pixel it started from does. */
  lemma {:induction false} FloodEscapes(m: Mask, reached: set<Cell>)
    requires IsRect(m) && reached <= FreeCells(m)
    requires forall c :: c in reached ==> Escapes(m, c)
    ensures forall c :: c in Flood(m, reached) ==> Escapes(m, c)
    decreases |FreeCells(m)| - |reached|
  {
    var next := Grow(m, reached);
    if next != reached {
      forall c | c in next
        ensures Escapes(m, c)
      {
        if c !in reached {
          var d :| d in Neighbours(c) * reached;
          EscapeStep(m, d, c);
        }
      }
      SubsetCardinality(reached, next);
      SubsetCardinality(next, FreeCells(m));
      FloodEscapes(m, next);
    }
  }

  /** A set that holds the seeds and is closed under flood steps holds every pixel of an escaping walk. */
  lemma {:induction false} ClosedHoldsPath(m: Mask, s: set<Cell>, p: seq<Cell>, k: int)
    requires IsRect(m) && Seeds(m) <= s && Grow(m, s) == s
    requires IsFreePath(m, p) && OnBorder(m, p[0].row, p[0].col) && 0 <= k < |p|
    ensures p[k] in s
  {
    if k > 0 {
      ClosedHoldsPath(m, s, p, k - 1);
      assert p[k - 1] in Neighbours(p[k]) * s;
      assert p[k] in FreeCells(m);
      assert p[k] in Grow(m, s);
    } else {
      assert p[0] in Seeds(m);
    }
  }

  /** The flood computes exactly the pixels connected to the outside. */
  lemma OutsideIsEscapes(m: Mask)
    requires IsRect(m)
    ensures forall c :: c in Outside(m) <==> Escapes(m, c)
  {
    forall c | c in Seeds(m)
      ensures Escapes(m, c)
    {
      assert EscapePath(m, [c], c);
    }
    FloodEscapes(m, Seeds(m));
    forall c | Escapes(m, c)
      ensures c in Outside(m)
    {
      var p :| EscapePath(m, p, c);
      ClosedHoldsPath(m, Outside(m), p, |p| - 1);
    }
  }

  /** Lines 115-117: every false pixel the flood from outside does not reach becomes true. */
  function FillHoles(m: Mask): (r: Mask)
    requires IsRect(m)
    ensures SameShape(m, r)
    ensures forall i, j :: InGrid(m, i, j) ==> r[i][j] == (m[i][j] || Cell(i, j) !in Outside(m))
  {
    var outside := Outside(m);
    seq(|m|, i requires 0 <= i < |m| =>
      seq(Width(m), j requires 0 <= j < Width(m) => m[i][j] || Cell(i, j) !in outside))
  }

  /** At one pixel: it is false after filling iff it is false and reachable from the outermost ring. */
  lemma FillHolesAt(m: Mask, i: int, j: int)
    requires IsRect(m) && InGrid(m, i, j)
    ensures !FillHoles(m)[i][j] <==> !m[i][j] && Escapes(m, Cell(i, j))
  {
    OutsideIsEscapes(m);
  }

  /** Filling only adds pixels. */
  lemma FillHolesExtensive(m: Mask)
    requires IsRect(m)
    ensures Subset(m, FillHoles(m))
  {
  }

  /** A pixel is false after filling exactly when it is false and reachable from the outermost ring through false pixels. */
  lemma FillHolesSpec(m: Mask)
    requires IsRect(m)
    ensures forall i, j :: InGrid(m, i, j) ==> (!FillHoles(m)[i][j] <==> !m[i][j] && Escapes(m, Cell(i, j)))
  {
    forall i, j | InGrid(m, i, j)
      ensures !FillHoles(m)[i][j] <==> !m[i][j] && Escapes(m, Cell(i, j))
    {
      FillHolesAt(m, i, j);
    }
  }

  /** A false pixel of the outermost ring is never filled. */
  lemma FillHolesKeepsBorder(m: Mask)
    requires IsRect(m)
    ensures forall i, j :: InGrid(m, i, j) && OnBorder(m, i, j) && !m[i][j] ==> !FillHoles(m)[i][j]
  {
    forall i, j | InGrid(m, i, j) && OnBorder(m, i, j) && !m[i][j]
      ensures !FillHoles(m)[i][j]
    {
      assert Cell(i, j) in Seeds(m);
    }
  }

  /** A pixel that escapes in `m` still escapes once the holes of `m` are filled: its whole walk stays false. */
  lemma EscapesAfterFill(m: Mask, c: Cell)
    requires IsRect(m) && Escapes(m, c)
    ensures Escapes(FillHoles(m), c)
  {
    var f := FillHoles(m);
    var p: seq<Cell> :| EscapePath(m, p, c);
    forall k | 0 <= k < |p|
      ensures Free(f, p[k])
    {
      PathPrefixEscapes(m, p, k);
      FillHolesAt(m, p[k].row, p[k].col);
    }
    assert EscapePath(f, p, c);
  }

  /** Filling a filled mask changes nothing. */
  lemma FillHolesIdempotent(m: Mask)
    requires IsRect(m)
    ensures FillHoles(FillHoles(m)) == FillHoles(m)
  {
    var f := FillHoles(m);
    var ff := FillHoles(f);
    forall i, j | InGrid(f, i, j)
      ensures ff[i][j] == f[i][j]
    {
      FillHolesAt(m, i, j);
      FillHolesAt(f, i, j);
      if !f[i][j] {
        EscapesAfterFill(m, Cell(i, j));
      }
    }
    forall i | 0 <= i < |f|
      ensures ff[i] == f[i]
    {
      assert forall j :: 0 <= j < |f[i]| ==> ff[i][j] == f[i][j];
    }
  }

  /** A walk through pixels false in a larger mask is a walk through pixels false in a smaller one. */
  lemma EscapesShrink(a: Mask, b: Mask, c: Cell)
    requires IsRect(a) && Subset(a, b) && Escapes(b, c)
    ensures Escapes(a, c)
  {
    var p :| EscapePath(b, p, c);
    forall k | 0 <= k < |p|
      ensures Free(a, p[k])
    {
      assert Free(b, p[k]);
    }
    assert EscapePath(a, p, c);
  }

  /** Filling preserves inclusion: a larger mask fills to a larger mask. */
  lemma FillHolesMonotone(a: Mask, b: Mask)
    requires IsRect(a) && Subset(a, b)
    ensures Subset(FillHoles(a), FillHoles(b))
  {
    var fa, fb := FillHoles(a), FillHoles(b);
    forall i, j | 0 <= i < |fa| && 0 <= j < |fa[i]| && fa[i][j]
      ensures fb[i][j]
    {
      FillHolesAt(a, i, j);
      FillHolesAt(b, i, j);
      if !fb[i][j] {
        EscapesShrink(a, b, Cell(i, j));
      }
    }
  }

  /** A walk that reaches a pixel off the border arrives from one of its false neighbours. */
  lemma EscapeEntersThroughNeighbour(m: Mask, c: Cell)
    requires IsRect(m) && InGrid(m, c.row, c.col) && !OnBorder(m, c.row, c.col)
    ensures Escapes(m, c) ==> exists d :: d in Neighbours(c) && Free(m, d)
  {
    if Escapes(m, c) {
      var p: seq<Cell> :| EscapePath(m, p, c);
      assert p[0] != c;
      var d := p[|p| - 2];
      assert d in Neighbours(c) && Free(m, d);
    }
  }

  /** A false pixel off the border whose four neighbours are all true is a hole, and is filled. */
  lemma EnclosedPixelFilled(m: Mask, i: int, j: int)
    requires IsRect(m) && InGrid(m, i, j) && !OnBorder(m, i, j)
    requires m[i - 1][j] && m[i + 1][j] && m[i][j - 1] && m[i][j + 1]
    ensures FillHoles(m)[i][j]
  {
    assert !Free(m, Cell(i - 1, j)) && !Free(m, Cell(i + 1, j));
    assert !Free(m, Cell(i, j - 1)) && !Free(m, Cell(i, j + 1));
    assert forall d :: d in Neighbours(Cell(i, j)) ==> !Free(m, d);
    FillHolesAt(m, i, j);
    EscapeEntersThroughNeighbour(m, Cell(i, j));
  }

  /** In an all-false mask every pixel is connected to the border, so nothing is filled. */
  lemma AllFalseStaysFalse(m: Mask)
    requires IsRect(m)
    requires forall i, j :: InGrid(m, i, j) ==> !m[i][j]
    ensures forall i, j :: InGrid(m, i, j) ==> !FillHoles(m)[i][j]
  {
    forall i, j | InGrid(m, i, j)
      ensures !FillHoles(m)[i][j]
    {
      var p := seq(i + 1, k requires 0 <= k <= i => Cell(k, j));
      assert EscapePath(m, p, Cell(i, j));
      FillHolesAt(m, i, j);
    }
  }
}
