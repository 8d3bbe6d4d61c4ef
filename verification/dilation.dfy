/**
 Binary dilation with scipy's default two-dimensional structuring element, the
 4-connected cross, and border value 0: pixels outside the grid count as false
 (`main`, lines 110-113).
 */
module Dilation {
  import opened Grids

  /** The mask value at (i, j), or false outside the grid. */
  function At(m: Mask, i: int, j: int): bool
  {
    InGrid(m, i, j) && m[i][j]
  }

  /** Some true pixel of `m` lies within city-block distance `k` of (i, j). */
  ghost predicate NearTrue(m: Mask, i: int, j: int, k: int)
  {
    exists a, b :: 0 <= a < |m| && 0 <= b < |m[a]| && m[a][b] && Distance(Cell(i, j), Cell(a, b)) <= k
  }

  /** One pass of the cross at (i, j): the pixel or one of its four in-grid neighbours is true. */
  function DilatedAt(m: Mask, i: int, j: int): (v: bool)
    requires InGrid(m, i, j)
    ensures m[i][j] ==> v
  {
    m[i][j] || At(m, i - 1, j) || At(m, i + 1, j) || At(m, i, j - 1) || At(m, i, j + 1)
  }

  /** The cross at (i, j) is exactly the city-block ball of radius 1 clipped to the grid. */
  lemma DilatedAtNear(m: Mask, i: int, j: int)
    requires InGrid(m, i, j)
    ensures DilatedAt(m, i, j) <==> NearTrue(m, i, j, 1)
  {
    if DilatedAt(m, i, j) {
      if m[i][j] {
        assert Distance(Cell(i, j), Cell(i, j)) == 0;
      } else if At(m, i - 1, j) {
        assert Distance(Cell(i, j), Cell(i - 1, j)) == 1;
      } else if At(m, i + 1, j) {
        assert Distance(Cell(i, j), Cell(i + 1, j)) == 1;
      } else if At(m, i, j - 1) {
        assert Distance(Cell(i, j), Cell(i, j - 1)) == 1;
      } else {
        assert Distance(Cell(i, j), Cell(i, j + 1)) == 1;
      }
    }
    if NearTrue(m, i, j, 1) {
      var a, b :| 0 <= a < |m| && 0 <= b < |m[a]| && m[a][b] && Distance(Cell(i, j), Cell(a, b)) <= 1;
      if a == i - 1 {
        assert b == j && At(m, i - 1, j);
      } else if a == i + 1 {
        assert b == j && At(m, i + 1, j);
      } else if b == j - 1 {
        assert a == i && At(m, i, j - 1);
      } else if b == j + 1 {
        assert a == i && At(m, i, j + 1);
      } else {
        assert a == i && b == j;
      }
    }
  }

  /** One pass of the cross over the whole mask; it only adds pixels. */
  function DilateOnce(m: Mask): (r: Mask)
    requires IsRect(m)
    ensures SameShape(m, r)
    ensures forall i, j :: InGrid(m, i, j) ==> r[i][j] == DilatedAt(m, i, j)
    ensures Subset(m, r)
  {
    seq(|m|, i requires 0 <= i < |m| =>
      seq(Width(m), j requires 0 <= j < Width(m) => DilatedAt(m, i, j)))
  }

  /** Line 112: `iterations` successive passes of the cross. */
  function Dilate(m: Mask, iterations: nat): (r: Mask)
    requires IsRect(m)
    ensures SameShape(m, r)
    ensures Subset(m, r)
    ensures iterations == 0 ==> r == m
  {
    if iterations == 0 then m
    else
      var prev := Dilate(m, iterations - 1);
      SubsetTransitive(m, prev, DilateOnce(prev));
      DilateOnce(prev)
  }

  /** One more pass is one more application of the cross. */
  lemma DilateUnfold(m: Mask, k: nat)
    requires IsRect(m) && k > 0
    ensures Dilate(m, k) == DilateOnce(Dilate(m, k - 1))
  {
  }

  /** A pixel is true after k passes iff the input has a true pixel within city-block distance k of it. */
  lemma {:induction false} DilateReach(m: Mask, k: nat)
    requires IsRect(m)
    ensures forall i, j :: InGrid(m, i, j) ==> (Dilate(m, k)[i][j] <==> NearTrue(m, i, j, k))
  {
    if k == 0 {
      forall i, j | InGrid(m, i, j)
        ensures m[i][j] <==> NearTrue(m, i, j, 0)
      {
        if NearTrue(m, i, j, 0) {
          var a, b :| 0 <= a < |m| && 0 <= b < |m[a]| && m[a][b] && Distance(Cell(i, j), Cell(a, b)) <= 0;
          assert a == i && b == j;
        }
        if m[i][j] {
          assert Distance(Cell(i, j), Cell(i, j)) == 0;
        }
      }
    } else {
      DilateReach(m, k - 1);
      ReachStep(m, k);
    }
  }

  /** If k - 1 passes reach exactly distance k - 1, then k passes reach exactly distance k. */
  lemma ReachStep(m: Mask, k: nat)
    requires IsRect(m) && k > 0
    requires forall i, j :: InGrid(m, i, j) ==> (Dilate(m, k - 1)[i][j] <==> NearTrue(m, i, j, k - 1))
    ensures forall i, j :: InGrid(m, i, j) ==> (Dilate(m, k)[i][j] <==> NearTrue(m, i, j, k))
  {
    DilateUnfold(m, k);
    var prev := Dilate(m, k - 1);
    forall i, j | InGrid(m, i, j)
      ensures Dilate(m, k)[i][j] <==> NearTrue(m, i, j, k)
    {
      DilatedAtNear(prev, i, j);
      if NearTrue(prev, i, j, 1) {
        ReachOut(m, prev, k, i, j);
      }
      if NearTrue(m, i, j, k) {
        ReachIn(m, prev, k, i, j);
      }
    }
  }

  /** A pixel next to one that is within k - 1 of a true pixel is itself within k of it. */
  lemma ReachOut(m: Mask, prev: Mask, k: nat, i: int, j: int)
    requires IsRect(m) && SameShape(m, prev) && k > 0 && InGrid(m, i, j)
    requires forall a, b :: InGrid(m, a, b) ==> (prev[a][b] <==> NearTrue(m, a, b, k - 1))
    requires NearTrue(prev, i, j, 1)
    ensures NearTrue(m, i, j, k)
  {
    var a, b :| 0 <= a < |prev| && 0 <= b < |prev[a]| && prev[a][b] && Distance(Cell(i, j), Cell(a, b)) <= 1;
    assert InGrid(m, a, b);
    var c, d :| 0 <= c < |m| && 0 <= d < |m[c]| && m[c][d] && Distance(Cell(a, b), Cell(c, d)) <= k - 1;
    DistanceTriangle(Cell(i, j), Cell(a, b), Cell(c, d));
  }

  /** A pixel within k of a true pixel has a neighbour (or is itself) within k - 1 of it. */
  lemma ReachIn(m: Mask, prev: Mask, k: nat, i: int, j: int)
    requires IsRect(m) && SameShape(m, prev) && k > 0 && InGrid(m, i, j)
    requires forall a, b :: InGrid(m, a, b) ==> (prev[a][b] <==> NearTrue(m, a, b, k - 1))
    requires NearTrue(m, i, j, k)
    ensures NearTrue(prev, i, j, 1)
  {
    var c, d :| 0 <= c < |m| && 0 <= d < |m[c]| && m[c][d] && Distance(Cell(i, j), Cell(c, d)) <= k;
    var step := StepToward(m, i, j, c, d);
    assert Cell(step.row, step.col) == step;
    assert NearTrue(m, step.row, step.col, k - 1);
    assert InGrid(prev, step.row, step.col) && prev[step.row][step.col];
  }

  /** (i, j) itself when it is (c, d), otherwise its neighbour one step closer to (c, d); it stays inside the grid. */
  function StepToward(m: Mask, i: int, j: int, c: int, d: int): (s: Cell)
    requires InGrid(m, i, j) && InGrid(m, c, d) && IsRect(m)
    ensures InGrid(m, s.row, s.col)
    ensures Distance(Cell(i, j), s) <= 1
    ensures Distance(Cell(i, j), Cell(c, d)) > 0 ==> Distance(s, Cell(c, d)) == Distance(Cell(i, j), Cell(c, d)) - 1
    ensures Distance(Cell(i, j), Cell(c, d)) == 0 ==> s == Cell(c, d)
  {
    if i < c then Cell(i + 1, j)
    else if i > c then Cell(i - 1, j)
    else if j < d then Cell(i, j + 1)
    else if j > d then Cell(i, j - 1)
    else Cell(i, j)
  }

  /** A mask below k - 1 passes is below k passes. */
  lemma DilateStepGrows(m: Mask, a: Mask, k: nat)
    requires IsRect(m) && k > 0 && Subset(a, Dilate(m, k - 1))
    ensures Subset(a, Dilate(m, k))
  {
    DilateUnfold(m, k);
    SubsetTransitive(a, Dilate(m, k - 1), Dilate(m, k));
  }

  /** More passes never lose a pixel. */
  lemma {:induction false} DilateGrows(m: Mask, k1: nat, k2: nat)
    requires IsRect(m) && k1 <= k2
    ensures Subset(Dilate(m, k1), Dilate(m, k2))
    decreases k2
  {
    if k1 < k2 {
      DilateGrows(m, k1, k2 - 1);
      DilateStepGrows(m, Dilate(m, k1), k2);
    } else {
      SubsetReflexive(Dilate(m, k1));
    }
  }

  /** A larger input mask dilates to a larger mask. */
  lemma {:induction false} DilateMonotone(a: Mask, b: Mask, k: nat)
    requires IsRect(a) && Subset(a, b)
    ensures Subset(Dilate(a, k), Dilate(b, k))
  {
    assert IsRect(b);
    DilateReach(a, k);
    DilateReach(b, k);
    forall i, j | InGrid(a, i, j) && Dilate(a, k)[i][j]
      ensures Dilate(b, k)[i][j]
    {
      var c, d :| 0 <= c < |a| && 0 <= d < |a[c]| && a[c][d] && Distance(Cell(i, j), Cell(c, d)) <= k;
      assert InGrid(b, i, j) && InGrid(b, c, d) && b[c][d];
    }
  }

  /** A single true pixel dilates into the city-block ball of radius k around it: the plus shape for k == 1. */
  lemma SinglePixelDilation(m: Mask, c: Cell, k: nat)
    requires IsRect(m) && InGrid(m, c.row, c.col)
    requires forall i, j :: InGrid(m, i, j) ==> (m[i][j] <==> Cell(i, j) == c)
    ensures forall i, j :: InGrid(m, i, j) ==> (Dilate(m, k)[i][j] <==> Distance(Cell(i, j), c) <= k)
  {
    DilateReach(m, k);
  }
}
